/** The dashboard: borrowing a book, and the count of the user's overdue loans. */
module DashboardController {
  import opened Schema
  import opened Store

  /** The borrowing period, in days. */
  const LOAN_PERIOD_DAYS: int := 14

  /** The row a successful borrow inserts: borrowed now, due two weeks later,
      not returned, status borrowed, no fee. */
  function NewLoan(user: int, bookId: int, now: int): Loan {
    Loan(user, bookId, now, now + LOAN_PERIOD_DAYS * DAY, None, Borrowed, Some(0))
  }

  /** The existing-borrow lookup: the first row that is an open loan of
      `bookId` held by `user`. It looks at returned_at only, not at status. */
  function FindOpenLoan(loans: seq<Loan>, user: int, bookId: int): (r: Option<nat>)
    ensures r.Some? ==> r.value < |loans| && IsOpenLoanOf(loans[r.value], user, bookId)
    ensures r.Some? ==> forall k :: 0 <= k < r.value ==> !IsOpenLoanOf(loans[k], user, bookId)
    ensures r.None? <==> !HoldsOpenLoan(loans, user, bookId)
  {
    if loans == [] then None
    else
      var n := |loans| - 1;
      var earlier := FindOpenLoan(loans[..n], user, bookId);
      if earlier.Some? then earlier
      else if IsOpenLoanOf(loans[n], user, bookId) then Some(n)
      else None
  }

  /** A paid loan that was never returned still counts as an open loan, so it
      blocks a new borrow of the same book. */
  lemma PaidUnreturnedLoanBlocksBorrow(loans: seq<Loan>, k: nat)
    requires k < |loans| && loans[k].status == Paid && loans[k].returnedAt.None?
    ensures FindOpenLoan(loans, loans[k].userId, loans[k].bookId).Some?
  {
  }

  /** Borrow a copy of `bookId` for `user`. The stock check comes before the
      duplicate check; on success the copy count drops by one and one loan row
      is appended, whose id is returned. */
  method Borrow(db: Database, user: int, bookId: int, now: int) returns (r: Result<nat>)
    modifies db
    ensures bookId !in old(db.books) ==> r == Err(NotFound)
    ensures bookId in old(db.books) && old(db.books)[bookId].quantity <= 0 ==> r == Err(OutOfStock)
    ensures bookId in old(db.books) && old(db.books)[bookId].quantity > 0
            && HoldsOpenLoan(old(db.loans), user, bookId)
            ==> r == Err(DuplicateActiveLoan)
    ensures r.Ok? <==>
            bookId in old(db.books) && old(db.books)[bookId].quantity > 0 &&
            !HoldsOpenLoan(old(db.loans), user, bookId)
    ensures r.Err? ==>
            db.books == old(db.books) && db.loans == old(db.loans) && db.payments == old(db.payments)
    ensures r.Ok? ==>
            && r.value == |old(db.loans)|
            && db.loans == old(db.loans) + [NewLoan(user, bookId, now)]
            && db.books == old(db.books)[bookId := old(db.books)[bookId].(quantity := old(db.books)[bookId].quantity - 1)]
            && db.books[bookId].quantity >= 0
            && db.payments == old(db.payments)
    ensures old(db.Valid()) ==> db.Valid()
  {
    if bookId !in db.books {
      return Err(NotFound);
    }
    var book := db.books[bookId];
    if book.quantity <= 0 {
      return Err(OutOfStock);
    }
    var existing := FindOpenLoan(db.loans, user, bookId);
    if existing.Some? {
      return Err(DuplicateActiveLoan);
    }
    db.books := db.books[bookId := book.(quantity := book.quantity - 1)];
    var loan := NewLoan(user, bookId, now);
    if AtMostOneOpenLoan(db.loans) {
      AppendKeepsAtMostOneOpenLoan(db.loans, loan);
    }
    r := Ok(|db.loans|);
    db.loans := db.loans + [loan];
  }

  /** The count query of the dashboard, row by row. */
  function OverdueCount(loans: seq<Loan>, user: int, now: int): (n: nat)
    ensures n <= |loans|
  {
    if loans == [] then 0
    else
      var n := |loans| - 1;
      OverdueCount(loans[..n], user, now) + (if IsOverdueFor(loans[n], user, now) then 1 else 0)
  }

  /** The ids of the user's open loans whose due date has passed. */
  ghost function OverdueLoans(loans: seq<Loan>, user: int, now: int): set<nat> {
    set k: nat | k < |loans| && IsOverdueFor(loans[k], user, now)
  }

  lemma {:induction false} OverdueCountIsCardinality(loans: seq<Loan>, user: int, now: int)
    ensures OverdueCount(loans, user, now) == |OverdueLoans(loans, user, now)|
  {
    if loans == [] {
      assert OverdueLoans(loans, user, now) == {};
    } else {
      var n := |loans| - 1;
      OverdueCountIsCardinality(loans[..n], user, now);
      var earlier := OverdueLoans(loans[..n], user, now);
      assert n !in earlier;
      if IsOverdueFor(loans[n], user, now) {
        assert OverdueLoans(loans, user, now) == earlier + {n};
      } else {
        assert OverdueLoans(loans, user, now) == earlier;
      }
    }
  }

  /** The overdue figure the dashboard shows (its other figures are not
      modelled). Reads the store and changes nothing. */
  method Index(db: Database, user: int, now: int) returns (overdueCount: nat)
    ensures overdueCount == |OverdueLoans(db.loans, user, now)|
    ensures overdueCount <= |db.loans|
  {
    overdueCount := OverdueCount(db.loans, user, now);
    OverdueCountIsCardinality(db.loans, user, now);
  }
}
