/** The rows of the three tables the loan lifecycle works on (books,
    borrowed_books, transactions), the error outcomes of the controllers, and
    the day arithmetic shared by the late-fee rules.

    Money is in integer cents and time in integer seconds. */
module Schema {

  datatype Option<T> = None | Some(value: T)

  /** The outcome of a controller action: its payload, or the error that the
      source reports with a redirect (or a 404) while writing nothing. */
  datatype Result<T> = Ok(value: T) | Err(error: Error)

  datatype Error =
    | NotFound             // route-model binding or firstOrFail found no row
    | InvalidRequest       // request validation rejected the input
    | OutOfStock
    | DuplicateActiveLoan
    | NotOwner
    | NoFeeDue
    | InsufficientAmount
    | MissingBook          // the loan's book reference dangles where a title is read

  /** Seconds in one day. */
  const DAY: int := 86400

  /** The status column of borrowed_books, whose default is Borrowed. */
  datatype Status = Borrowed | Returned | Paid

  datatype Book = Book(title: string, quantity: int)

  /** A row of borrowed_books. A missing returnedAt is a NULL returned_at, a
      missing lateFee a NULL late_fee. */
  datatype Loan = Loan(
    userId: int,
    bookId: int,
    borrowedAt: int,
    dueDate: int,
    returnedAt: Option<int>,
    status: Status,
    lateFee: Option<int>)

  /** A row of transactions; `kind` is the type column. */
  datatype Payment = Payment(userId: int, amount: int, kind: string, description: string)

  /** An open loan is one with no returned_at, whatever its status. */
  predicate IsOpen(l: Loan) {
    l.returnedAt.None?
  }

  /** The loan is an open loan of `bookId` held by `user`. */
  predicate IsOpenLoanOf(l: Loan, user: int, bookId: int) {
    l.userId == user && l.bookId == bookId && IsOpen(l)
  }

  /** Some row of the table is an open loan of `bookId` held by `user`. */
  ghost predicate HoldsOpenLoan(loans: seq<Loan>, user: int, bookId: int) {
    exists k :: 0 <= k < |loans| && IsOpenLoanOf(loans[k], user, bookId)
  }

  /** The loan belongs to `user`, is open, and its due date is strictly before `now`. */
  predicate IsOverdueFor(l: Loan, user: int, now: int) {
    l.userId == user && IsOpen(l) && l.dueDate < now
  }

  /** The stored late fee, with NULL read as 0. */
  function FeeOrZero(fee: Option<int>): int {
    if fee.Some? then fee.value else 0
  }

  /** Whole days between two instants, in either order, rounded down. */
  function DiffInDays(a: int, b: int): (d: nat)
    ensures d * DAY <= (if a <= b then b - a else a - b) < d * DAY + DAY
  {
    (if a <= b then b - a else a - b) / DAY
  }

  lemma DiffInDaysSymmetric(a: int, b: int)
    ensures DiffInDays(a, b) == DiffInDays(b, a)
  {
  }

  /** Whole days late grow with the clock. */
  lemma DiffInDaysMonotonic(due: int, t1: int, t2: int)
    requires due <= t1 <= t2
    ensures DiffInDays(due, t1) <= DiffInDays(due, t2)
  {
  }

  /** Every book has a non-negative number of copies available. */
  ghost predicate StockNonNegative(books: map<int, Book>) {
    forall id :: id in books ==> books[id].quantity >= 0
  }

  /** No user holds two open loans of the same book. */
  ghost predicate AtMostOneOpenLoan(loans: seq<Loan>) {
    forall i, j ::
      0 <= i < |loans| && 0 <= j < |loans| && IsOpen(loans[i]) && IsOpen(loans[j]) &&
      loans[i].userId == loans[j].userId && loans[i].bookId == loans[j].bookId
      ==> i == j
  }

  /** `after` is `before` with rows rewritten in place, keeping each row's user
      and book, and reopening none. */
  ghost predicate ClosesOrKeeps(before: seq<Loan>, after: seq<Loan>) {
    |after| == |before| &&
    forall k :: 0 <= k < |after| ==>
      after[k].userId == before[k].userId && after[k].bookId == before[k].bookId &&
      (IsOpen(after[k]) ==> IsOpen(before[k]))
  }

  /** Updating rows without reopening any keeps the one-open-loan invariant. */
  lemma RewriteKeepsAtMostOneOpenLoan(before: seq<Loan>, after: seq<Loan>)
    requires AtMostOneOpenLoan(before) && ClosesOrKeeps(before, after)
    ensures AtMostOneOpenLoan(after)
  {
  }

  /** Appending a row keeps the invariant when the row is closed or opens the
      first loan of its (user, book) pair. */
  lemma AppendKeepsAtMostOneOpenLoan(loans: seq<Loan>, l: Loan)
    requires AtMostOneOpenLoan(loans)
    requires IsOpen(l) ==> !HoldsOpenLoan(loans, l.userId, l.bookId)
    ensures AtMostOneOpenLoan(loans + [l])
  {
  }
}
