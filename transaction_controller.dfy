/** The transactions page: the fee refresh run on every visit, the due-books
    list and the due amount it shows, and paying a late fee. */
module TransactionController {
  import opened Schema
  import opened Store
  import DashboardController

  /** The daily rate of the refresh-time fee rule: 0.50, in cents. */
  const REFRESH_FEE_PER_DAY: int := 50

  const PAYMENT_KIND: string := "payment"
  const PAYMENT_DESCRIPTION_PREFIX: string := "Payment for late fee on book: "

  /** One step of the refresh loop on a single row: an open loan of `user`
      gets whole days late at the refresh rate when past due, and 0 otherwise;
      every other row is left as it is. */
  function Refreshed(l: Loan, user: int, now: int): (r: Loan)
    ensures r.(lateFee := l.lateFee) == l
    ensures r != l ==> l.userId == user && IsOpen(l)
  {
    if l.userId == user && IsOpen(l) && l.dueDate < now then
      l.(lateFee := Some(DiffInDays(now, l.dueDate) * REFRESH_FEE_PER_DAY))
    else if l.userId == user && IsOpen(l) && l.dueDate >= now then
      l.(lateFee := Some(0))
    else
      l
  }

  /** The whole table after the refresh loop. */
  function RefreshedTable(loans: seq<Loan>, user: int, now: int): (r: seq<Loan>)
    ensures ClosesOrKeeps(loans, r)
    ensures forall k :: 0 <= k < |r| ==> IsOpen(r[k]) == IsOpen(loans[k])
  {
    seq(|loans|, k requires 0 <= k < |loans| => Refreshed(loans[k], user, now))
  }

  /** After the refresh, an open loan of the user carries a fee that is a
      whole number of days late times the rate: positive exactly when the
      loan is at least one full day past due. */
  lemma RefreshedFeeTracksLateness(l: Loan, user: int, now: int)
    requires l.userId == user && IsOpen(l)
    ensures Refreshed(l, user, now).lateFee.Some?
    ensures var fee := Refreshed(l, user, now).lateFee.value;
            && fee >= 0
            && fee % REFRESH_FEE_PER_DAY == 0
            && (fee > 0 <==> l.dueDate + DAY <= now)
            && (l.dueDate < now ==>
                  fee * DAY <= (now - l.dueDate) * REFRESH_FEE_PER_DAY < fee * DAY + REFRESH_FEE_PER_DAY * DAY)
  {
  }

  /** A loan that was paid but never returned is charged again by the next
      refresh once it is a full day past due; its status stays paid. */
  lemma RefreshRechargesPaidUnreturnedLoan(l: Loan, now: int)
    requires l.status == Paid && IsOpen(l) && l.dueDate + DAY <= now
    ensures Refreshed(l, l.userId, now).status == Paid
    ensures FeeOrZero(Refreshed(l, l.userId, now).lateFee) > 0
  {
  }

  /** Refreshing twice with the same clock gives the same table as once. */
  lemma RefreshIsIdempotent(loans: seq<Loan>, user: int, now: int)
    ensures RefreshedTable(RefreshedTable(loans, user, now), user, now) == RefreshedTable(loans, user, now)
  {
  }

  /** The refresh loop: rewrites the late fee of each open loan of `user` in
      place, and nothing else. */
  method RefreshFees(db: Database, user: int, now: int)
    modifies db
    ensures db.loans == RefreshedTable(old(db.loans), user, now)
    ensures db.books == old(db.books) && db.payments == old(db.payments)
    ensures old(db.Valid()) ==> db.Valid()
  {
    var i := 0;
    while i < |db.loans|
      invariant 0 <= i <= |db.loans| == |old(db.loans)|
      invariant forall k :: 0 <= k < i ==> db.loans[k] == Refreshed(old(db.loans)[k], user, now)
      invariant forall k :: i <= k < |db.loans| ==> db.loans[k] == old(db.loans)[k]
      invariant db.books == old(db.books) && db.payments == old(db.payments)
    {
      var l := db.loans[i];
      if l.userId == user {
        if IsOpen(l) && l.dueDate < now {
          var daysLate := DiffInDays(now, l.dueDate);
          db.loans := db.loans[i := l.(lateFee := Some(daysLate * REFRESH_FEE_PER_DAY))];
        } else if IsOpen(l) && l.dueDate >= now {
          db.loans := db.loans[i := l.(lateFee := Some(0))];
        }
      }
      i := i + 1;
    }
    if AtMostOneOpenLoan(old(db.loans)) {
      RewriteKeepsAtMostOneOpenLoan(old(db.loans), db.loans);
    }
  }

  /** The due-books query: ids of the user's open loans past their due date,
      in table order. */
  function DueBooks(loans: seq<Loan>, user: int, now: int): (ids: seq<nat>)
    ensures forall k: nat :: k in ids <==> k < |loans| && IsOverdueFor(loans[k], user, now)
    ensures forall a, b :: 0 <= a < b < |ids| ==> ids[a] < ids[b]
  {
    if loans == [] then []
    else
      var n := |loans| - 1;
      var earlier := DueBooks(loans[..n], user, now);
      assert forall a :: 0 <= a < |earlier| ==> earlier[a] in earlier && earlier[a] < n;
      earlier + (if IsOverdueFor(loans[n], user, now) then [n] else [])
  }

  /** The due-books list and the dashboard's overdue count agree. */
  lemma {:induction false} DueBooksMatchOverdueCount(loans: seq<Loan>, user: int, now: int)
    ensures |DueBooks(loans, user, now)| == DashboardController.OverdueCount(loans, user, now)
  {
    if loans != [] {
      DueBooksMatchOverdueCount(loans[..|loans| - 1], user, now);
    }
  }

  /** The due-books list depends only on owner, return and due date, never on
      fees or status. */
  lemma {:induction false} DueBooksIgnoresFees(a: seq<Loan>, b: seq<Loan>, user: int, now: int)
    requires |a| == |b|
    requires forall k :: 0 <= k < |a| ==>
               a[k].userId == b[k].userId && a[k].returnedAt == b[k].returnedAt && a[k].dueDate == b[k].dueDate
    ensures DueBooks(a, user, now) == DueBooks(b, user, now)
  {
    if a != [] {
      var n := |a| - 1;
      DueBooksIgnoresFees(a[..n], b[..n], user, now);
      assert IsOverdueFor(a[n], user, now) == IsOverdueFor(b[n], user, now);
    }
  }

  /** What a row adds to the due amount: its fee when positive. */
  function OwedFee(l: Loan): int {
    if FeeOrZero(l.lateFee) > 0 then FeeOrZero(l.lateFee) else 0
  }

  /** The due amount: the sum of the positive late fees over all of the
      user's loans, returned or not. */
  function DueAmount(loans: seq<Loan>, user: int): (sum: int)
    ensures sum >= 0
  {
    if loans == [] then 0
    else
      var n := |loans| - 1;
      DueAmount(loans[..n], user) + (if loans[n].userId == user then OwedFee(loans[n]) else 0)
  }

  /** Nothing is due exactly when none of the user's loans carries a positive fee. */
  lemma {:induction false} DueAmountZeroIff(loans: seq<Loan>, user: int)
    ensures DueAmount(loans, user) == 0 <==>
            forall k :: 0 <= k < |loans| && loans[k].userId == user ==> FeeOrZero(loans[k].lateFee) <= 0
  {
    if loans != [] {
      var n := |loans| - 1;
      DueAmountZeroIff(loans[..n], user);
      assert forall k :: 0 <= k < n ==> loans[..n][k] == loans[k];
    }
  }

  /** Settling one loan's fee lowers the due amount by exactly that fee. */
  lemma {:induction false} PaymentLowersDueAmount(loans: seq<Loan>, user: int, k: nat)
    requires k < |loans| && loans[k].userId == user && FeeOrZero(loans[k].lateFee) > 0
    ensures DueAmount(loans[k := loans[k].(lateFee := Some(0), status := Paid)], user)
            == DueAmount(loans, user) - FeeOrZero(loans[k].lateFee)
  {
    var paid := loans[k := loans[k].(lateFee := Some(0), status := Paid)];
    var n := |loans| - 1;
    if k == n {
      assert paid[..n] == loans[..n];
    } else {
      assert paid[..n] == loans[..n][k := loans[k].(lateFee := Some(0), status := Paid)];
      PaymentLowersDueAmount(loans[..n], user, k);
    }
  }

  /** The transactions page: refresh the user's fees, then list the due books
      and total the due amount over the refreshed table. */
  method Index(db: Database, user: int, now: int) returns (dueBooks: seq<nat>, dueAmount: int)
    modifies db
    ensures db.loans == RefreshedTable(old(db.loans), user, now)
    ensures db.books == old(db.books) && db.payments == old(db.payments)
    ensures dueBooks == DueBooks(old(db.loans), user, now)
    ensures dueAmount == DueAmount(db.loans, user) && dueAmount >= 0
    ensures old(db.Valid()) ==> db.Valid()
  {
    RefreshFees(db, user, now);
    dueBooks := DueBooks(db.loans, user, now);
    DueBooksIgnoresFees(db.loans, old(db.loans), user, now);
    dueAmount := DueAmount(db.loans, user);
  }

  /** Pay the late fee of loan `loanId` for `user` with `amount` cents. The
      guards run in order: request validation, ownership, a fee is due, the
      amount covers it, and the book's title can be read for the description. */
  method MakePayment(db: Database, user: int, loanId: int, amount: int) returns (r: Result<nat>)
    modifies db
    ensures !(0 <= loanId < |old(db.loans)|) || amount < 1 ==> r == Err(InvalidRequest)
    ensures 0 <= loanId < |old(db.loans)| && amount >= 1 && old(db.loans)[loanId].userId != user
            ==> r == Err(NotFound)
    ensures 0 <= loanId < |old(db.loans)| && amount >= 1 && old(db.loans)[loanId].userId == user
            && FeeOrZero(old(db.loans)[loanId].lateFee) <= 0
            ==> r == Err(NoFeeDue)
    ensures 0 <= loanId < |old(db.loans)| && old(db.loans)[loanId].userId == user
            && 1 <= amount < FeeOrZero(old(db.loans)[loanId].lateFee)
            ==> r == Err(InsufficientAmount)
    ensures 0 <= loanId < |old(db.loans)| && old(db.loans)[loanId].userId == user
            && 0 < FeeOrZero(old(db.loans)[loanId].lateFee) <= amount
            && old(db.loans)[loanId].bookId !in old(db.books)
            ==> r == Err(MissingBook)
    ensures r.Ok? <==>
            && 0 <= loanId < |old(db.loans)|
            && old(db.loans)[loanId].userId == user
            && 0 < FeeOrZero(old(db.loans)[loanId].lateFee) <= amount
            && old(db.loans)[loanId].bookId in old(db.books)
    ensures r.Err? ==>
            db.books == old(db.books) && db.loans == old(db.loans) && db.payments == old(db.payments)
    ensures r.Ok? ==>
            var l := old(db.loans)[loanId];
            && r.value == |old(db.payments)|
            && db.payments == old(db.payments) +
                 [Payment(user, amount, PAYMENT_KIND, PAYMENT_DESCRIPTION_PREFIX + old(db.books)[l.bookId].title)]
            && db.loans == old(db.loans)[loanId := l.(lateFee := Some(0), status := Paid)]
            && db.books == old(db.books)
    ensures old(db.Valid()) ==> db.Valid()
  {
    if !(0 <= loanId < |db.loans|) || amount < 1 {
      return Err(InvalidRequest);
    }
    var loan := db.loans[loanId];
    if loan.userId != user {
      return Err(NotFound);
    }
    if FeeOrZero(loan.lateFee) <= 0 {
      return Err(NoFeeDue);
    }
    if amount < FeeOrZero(loan.lateFee) {
      return Err(InsufficientAmount);
    }
    if loan.bookId !in db.books {
      return Err(MissingBook);
    }
    var description := PAYMENT_DESCRIPTION_PREFIX + db.books[loan.bookId].title;
    r := Ok(|db.payments|);
    db.payments := db.payments + [Payment(user, amount, PAYMENT_KIND, description)];
    ghost var before := db.loans;
    db.loans := db.loans[loanId := loan.(lateFee := Some(0), status := Paid)];
    if AtMostOneOpenLoan(before) {
      RewriteKeepsAtMostOneOpenLoan(before, db.loans);
    }
  }
}
