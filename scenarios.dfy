/** Whole request sequences run against a fresh store, each fixing the
    outcome of one pass through the loan lifecycle. Times are in seconds from 0. */
module Scenarios {
  import opened Schema
  import opened Store
  import DashboardController
  import BorrowedBookController
  import TransactionController

  const DUNE: int := 1
  const ALICE: int := 10
  const BOB: int := 20

  /** One copy left: the first borrow takes it, a second borrower is told it
      is out of stock, only the borrower may return it, and the return puts
      the copy back. */
  method LastCopyScenario()
    returns (first: Result<nat>, stockAfterBorrow: int, second: Result<nat>,
             wrongOwner: Result<Loan>, returned: Result<Loan>, stockAfterReturn: int, status: Status)
    ensures first == Ok(0) && stockAfterBorrow == 0
    ensures second == Err(OutOfStock)
    ensures wrongOwner == Err(NotOwner)
    ensures returned.Ok? && stockAfterReturn == 1 && status == Returned
  {
    var db := new Database(map[DUNE := Book("Dune", 1)]);
    first := DashboardController.Borrow(db, ALICE, DUNE, 0);
    stockAfterBorrow := db.books[DUNE].quantity;
    second := DashboardController.Borrow(db, BOB, DUNE, DAY);
    wrongOwner := BorrowedBookController.ReturnBook(db, BOB, 0, 2 * DAY);
    returned := BorrowedBookController.ReturnBook(db, ALICE, 0, 3 * DAY);
    stockAfterReturn := db.books[DUNE].quantity;
    status := returned.value.status;
  }

  /** Borrowing the same book again before returning it is refused, even with
      copies on the shelf; after the return it is allowed again. */
  method DuplicateBorrowScenario()
    returns (again: Result<nat>, stock: int, afterReturn: Result<nat>)
    ensures again == Err(DuplicateActiveLoan) && stock == 1
    ensures afterReturn == Ok(1)
  {
    var db := new Database(map[DUNE := Book("Dune", 2)]);
    var first := DashboardController.Borrow(db, ALICE, DUNE, 0);
    again := DashboardController.Borrow(db, ALICE, DUNE, DAY);
    stock := db.books[DUNE].quantity;
    var returned := BorrowedBookController.ReturnBook(db, ALICE, 0, 2 * DAY);
    afterReturn := DashboardController.Borrow(db, ALICE, DUNE, 3 * DAY);
  }

  /** Five days past due the page shows a fee of 2.50; paying 2.00 is refused
      and leaves the fee, paying 3.00 is recorded in full and clears it. */
  method LateFeePaymentScenario()
    returns (dueBooks: seq<nat>, dueAmount: int, short: Result<nat>, feeAfterShort: Option<int>,
             paid: Result<nat>, feeAfterPaid: Option<int>, status: Status, recorded: int)
    ensures dueBooks == [0] && dueAmount == 250
    ensures short == Err(InsufficientAmount) && feeAfterShort == Some(250)
    ensures paid == Ok(0) && feeAfterPaid == Some(0) && status == Paid && recorded == 300
  {
    var db := new Database(map[DUNE := Book("Dune", 1)]);
    var borrowed := DashboardController.Borrow(db, ALICE, DUNE, 0);
    dueBooks, dueAmount := TransactionController.Index(db, ALICE, 19 * DAY);
    short := TransactionController.MakePayment(db, ALICE, 0, 200);
    feeAfterShort := db.loans[0].lateFee;
    paid := TransactionController.MakePayment(db, ALICE, 0, 300);
    feeAfterPaid := db.loans[0].lateFee;
    status := db.loans[0].status;
    recorded := db.payments[0].amount;
  }

  /** Returning six days late does not charge the 10.00 daily rate: the fee
      the last page visit stored (2.50, five days at 0.50) is kept. */
  method ReturnKeepsStoredFeeScenario() returns (fee: Option<int>)
    ensures fee == Some(250)
  {
    var db := new Database(map[DUNE := Book("Dune", 1)]);
    var borrowed := DashboardController.Borrow(db, ALICE, DUNE, 0);
    TransactionController.RefreshFees(db, ALICE, 19 * DAY);
    assert db.loans[0].lateFee == Some(250);
    var returned := BorrowedBookController.ReturnBook(db, ALICE, 0, 20 * DAY);
    fee := db.loans[0].lateFee;
  }

  /** With no page visit before it, a return six days late leaves the fee at 0. */
  method ReturnWithoutVisitScenario() returns (fee: Option<int>)
    ensures fee == Some(0)
  {
    var db := new Database(map[DUNE := Book("Dune", 1)]);
    var borrowed := DashboardController.Borrow(db, ALICE, DUNE, 0);
    var returned := BorrowedBookController.ReturnBook(db, ALICE, 0, 20 * DAY);
    fee := db.loans[0].lateFee;
  }

  /** A loan returned twice puts two copies back: the stock ends above what
      the catalogue started with. */
  method DoubleReturnScenario() returns (first: Result<Loan>, second: Result<Loan>, stock: int)
    ensures first.Ok? && second.Ok?
    ensures stock == 2
  {
    var db := new Database(map[DUNE := Book("Dune", 1)]);
    var borrowed := DashboardController.Borrow(db, ALICE, DUNE, 0);
    first := BorrowedBookController.ReturnBook(db, ALICE, 0, DAY);
    second := BorrowedBookController.ReturnBook(db, ALICE, 0, 2 * DAY);
    stock := db.books[DUNE].quantity;
  }
}
