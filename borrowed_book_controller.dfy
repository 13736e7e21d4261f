/** Returning a borrowed book, and the late-fee rule applied on return. */
module BorrowedBookController {
  import opened Schema
  import opened Store

  /** The daily rate of the return-time fee rule: 10.00, in cents. */
  const RETURN_FEE_PER_DAY: int := 1000

  /** The fee rule used on return: whole days late at the return rate while the
      loan is open and past due; otherwise the stored fee, NULL read as 0. */
  function CalculateLateFee(l: Loan, now: int): (fee: int)
    ensures FeeOrZero(l.lateFee) >= 0 ==> fee >= 0
    ensures !(IsOpen(l) && l.dueDate < now) ==> fee == FeeOrZero(l.lateFee)
    ensures IsOpen(l) && l.dueDate < now ==> fee % RETURN_FEE_PER_DAY == 0
    ensures IsOpen(l) && l.dueDate < now ==>
              fee * DAY <= (now - l.dueDate) * RETURN_FEE_PER_DAY < fee * DAY + RETURN_FEE_PER_DAY * DAY
  {
    if l.dueDate < now && IsOpen(l) then
      DiffInDays(l.dueDate, now) * RETURN_FEE_PER_DAY
    else
      FeeOrZero(l.lateFee)
  }

  /** On an open overdue loan the fee never falls as the clock advances. */
  lemma LateFeeGrowsWithTime(l: Loan, t1: int, t2: int)
    requires IsOpen(l) && l.dueDate < t1 <= t2
    ensures CalculateLateFee(l, t1) <= CalculateLateFee(l, t2)
  {
  }

  /** The first update of a return: status returned, returned_at now. */
  function Close(l: Loan, now: int): Loan {
    l.(status := Returned, returnedAt := Some(now))
  }

  /** The return-time rate is never charged: the fee is computed on the
      already-closed row, so the stored fee is carried forward. */
  lemma ReturnRateNeverApplies(l: Loan, now: int)
    ensures CalculateLateFee(Close(l, now), now) == FeeOrZero(l.lateFee)
  {
  }

  /** Return loan `loanId` on behalf of `user`. Only the owner may return it;
      the current status is not looked at. The book's stock goes up by one
      when the book row exists. The updated loan row is returned. */
  method ReturnBook(db: Database, user: int, loanId: nat, now: int) returns (r: Result<Loan>)
    modifies db
    ensures loanId >= |old(db.loans)| ==> r == Err(NotFound)
    ensures loanId < |old(db.loans)| && old(db.loans)[loanId].userId != user ==> r == Err(NotOwner)
    ensures r.Ok? <==> loanId < |old(db.loans)| && old(db.loans)[loanId].userId == user
    ensures r.Err? ==>
            db.books == old(db.books) && db.loans == old(db.loans) && db.payments == old(db.payments)
    ensures r.Ok? ==>
            var l := old(db.loans)[loanId];
            && db.loans == old(db.loans)[loanId := l.(status := Returned, returnedAt := Some(now),
                                                       lateFee := Some(FeeOrZero(l.lateFee)))]
            && db.books == (if l.bookId in old(db.books)
                            then old(db.books)[l.bookId := old(db.books)[l.bookId].(quantity := old(db.books)[l.bookId].quantity + 1)]
                            else old(db.books))
            && db.payments == old(db.payments)
            && r.value == db.loans[loanId]
    ensures old(db.Valid()) ==> db.Valid()
  {
    if loanId >= |db.loans| {
      return Err(NotFound);
    }
    var loan := db.loans[loanId];
    if loan.userId != user {
      return Err(NotOwner);
    }
    ghost var before := db.loans;
    loan := Close(loan, now);
    db.loans := db.loans[loanId := loan];
    if loan.bookId in db.books {
      var book := db.books[loan.bookId];
      db.books := db.books[loan.bookId := book.(quantity := book.quantity + 1)];
    }
    var fee := CalculateLateFee(loan, now);
    db.loans := db.loans[loanId := loan.(lateFee := Some(fee))];
    if AtMostOneOpenLoan(before) {
      RewriteKeepsAtMostOneOpenLoan(before, db.loans);
    }
    r := Ok(db.loans[loanId]);
  }
}
