# Library loan lifecycle

A Dafny model of the loan lifecycle of a library-lending web application. A
user borrows a copy of a book, returns it, sees late fees accrue on the
transactions page, and pays them. Three tables take part:

- **books**: each book has a `quantity` of copies on the shelf.
- **borrowed_books**: one row per loan. A row holds the user, the book,
  `borrowed_at`, `due_date`, a nullable `returned_at`, a status in
  {borrowed, returned, paid} (default borrowed), and a nullable `late_fee`.
- **transactions**: an append-only list of payments.

The store is a class, `Store.Database`, with one field per table:
`books: map<int, Book>`, `loans: seq<Loan>` and `payments: seq<Payment>`.
A loan's id is its position in `loans`, and a payment's id is its position in
`payments`. Each controller is a module. Its actions are methods that take
the store and update its fields in place. The current user and the clock are
explicit parameters, `user` and `now`. Each redirect with an error is an
`Err` result that leaves all three tables unchanged. A missing row found by
route-model binding or `firstOrFail` is `Err(NotFound)`.

Units:

- Money is in integer cents. The return-time fee rule charges 10.00 a day
  (`1000`). The transactions-page refresh charges 0.50 a day (`50`). The
  model keeps both rates, as the code does.
- Time is in integer seconds, with `DAY = 86400`. A loan is due 14 days
  after it is borrowed. `diffInDays` is the whole-day absolute difference,
  rounded down.

Modules:

- `Schema`: the rows, the errors, the day arithmetic, and the lifecycle
  invariant. The invariant says that stock is never negative and that no user
  holds two open loans of one book. An open loan is one with no
  `returned_at`, whatever its status.
- `Store`: the `Database` class. Its `Valid()` is the invariant. No action
  requires it. Every action ensures `old(db.Valid()) ==> db.Valid()`.
- `DashboardController`: borrowing, and the dashboard's overdue count.
- `BorrowedBookController`: returning a loan, and the return-time fee rule.
- `TransactionController`: the fee-refresh loop, the due-books list, the due
  amount, and paying a fee.
- `Scenarios`: whole request sequences run on a fresh store, with their
  outcomes proved.

Behaviours of the code that the model keeps on purpose:

- `returnBook` sets `returned_at` before it calls `calculateLateFee`. The
  10.00-a-day branch therefore never fires on a return. The stored fee is
  carried forward, and a NULL fee becomes 0.
- `returnBook` does not look at the loan's status. Returning one loan twice
  puts two copies back on the shelf.
- The duplicate-loan guard in `borrow` looks at `returned_at`, not at the
  status. A loan that was paid but never returned still blocks a new borrow
  of that book. The next page visit also charges it a fee again.

Where the code's own comments suggest another intent, the model follows
what the code does:

- Two daily rates exist side by side: 0.50 in the transactions page
  (TransactionController.php:17) and 10.00 in `calculateLateFee`
  (BorrowedBookController.php:43, whose comment at :40 still speaks of $1 a
  day). Both are kept.
- The comment at BorrowedBookController.php:31 says the return recalculates
  the late fee. Because `returned_at` is already set, the code carries the
  stored fee forward instead.
- A return restocks the book on every owner return, not once per loan.
- A dangling book reference on return is skipped silently
  (BorrowedBookController.php:26): no restock, and the return succeeds.
- Payment has two separate lookup failures. A failed request validation (no
  such loan id, or an amount under 0.01) is `InvalidRequest`. A loan held by
  someone else is the `NotFound` of `firstOrFail`.
- Payment reads the book's title for the description before it writes
  anything. A dangling book reference there makes PHP raise a warning, which
  the framework turns into an exception, and nothing is written. The model
  reports this as `MissingBook`.

## Model

| member | source | states |
|---|---|---|
| `Schema.DiffInDays` | app/Http/Controllers/BorrowedBookController.php:42 | the result is the number of whole days between the two instants, in either order, rounded down: d·DAY ≤ distance < (d+1)·DAY |
| `Schema.DiffInDaysSymmetric` | app/Http/Controllers/TransactionController.php:28 | `now->diffInDays(due)` (refresh) and `due->diffInDays(now)` (return) count the same days |
| `Schema.DiffInDaysMonotonic` | app/Http/Controllers/BorrowedBookController.php:41-42 | with a fixed due date, the whole days late never decrease as the clock advances |
| `Schema.AppendKeepsAtMostOneOpenLoan` | app/Http/Controllers/DashboardController.php:97-118 | inserting a loan when the user holds no open loan of that book keeps "at most one open loan per user and book" |
| `Schema.RewriteKeepsAtMostOneOpenLoan` | app/Http/Controllers/BorrowedBookController.php:19-22 | rewriting rows in place without reopening any of them (return, refresh, payment) keeps "at most one open loan per user and book" |
| `DashboardController.FindOpenLoan` | app/Http/Controllers/DashboardController.php:97-100 | the existing-borrow lookup: it finds the first row that is an open loan of that book held by that user, and it finds nothing exactly when no such row exists |
| `DashboardController.PaidUnreturnedLoanBlocksBorrow` | app/Http/Controllers/DashboardController.php:97-104 | a paid loan with no `returned_at` is still found by the duplicate check |
| `DashboardController.Borrow` | app/Http/Controllers/DashboardController.php:88-120 | a missing book gives NotFound. Stock ≤ 0 gives OutOfStock, checked before duplicates. An open loan of the same book gives DuplicateActiveLoan. Every error changes nothing. Success happens exactly when none of these holds. It decrements that book by exactly 1 (the result stays ≥ 0), appends exactly one loan (user, book, borrowed now, due now + 14 days, no `returned_at`, status borrowed, fee 0), returns that loan's id, and changes nothing else. It keeps the invariant |
| `DashboardController.OverdueCount` | app/Http/Controllers/DashboardController.php:20-23 | the overdue count never exceeds the number of loans |
| `DashboardController.OverdueCountIsCardinality` | app/Http/Controllers/DashboardController.php:20-23 | the overdue count equals the number of the user's loans with no `returned_at` and a due date strictly before now |
| `DashboardController.Index` | app/Http/Controllers/DashboardController.php:20-23 | the dashboard's overdue figure is that count. Computing it changes nothing |
| `BorrowedBookController.CalculateLateFee` | app/Http/Controllers/BorrowedBookController.php:38-46 | the fee is non-negative whenever the stored fee is non-negative or NULL. On any loan that is returned or not yet past due it is the stored fee, with NULL read as 0. On an open overdue loan it is a multiple of 1000 cents within one day's rate of the elapsed time × rate, that is, whole days late × 1000 cents |
| `BorrowedBookController.LateFeeGrowsWithTime` | app/Http/Controllers/BorrowedBookController.php:41-44 | on an open overdue loan the computed fee never falls as the clock advances |
| `BorrowedBookController.ReturnRateNeverApplies` | app/Http/Controllers/BorrowedBookController.php:19-45 | because `returned_at` is set first, the fee computed during a return is the stored fee (NULL read as 0), never the 10.00-a-day rate |
| `BorrowedBookController.ReturnBook` | app/Http/Controllers/BorrowedBookController.php:11-36 | a missing loan gives NotFound. Another user's loan gives NotOwner. Each error changes nothing. Success happens exactly when the user owns the loan, whatever its status. On success only that loan changes: status returned, `returned_at` now, `late_fee` equal to the old fee (NULL becomes 0). The book's quantity goes up by exactly 1 if the book row exists, and otherwise nothing changes. No payment is written. It keeps the invariant |
| `TransactionController.Refreshed` | app/Http/Controllers/TransactionController.php:26-35 | one step of the refresh loop changes only `late_fee`, and only on open loans of the user |
| `TransactionController.RefreshedTable` | app/Http/Controllers/TransactionController.php:26-35 | the refreshed table keeps every row's user, book and openness. It reopens no loan |
| `TransactionController.RefreshedFeeTracksLateness` | app/Http/Controllers/TransactionController.php:26-33 | after the refresh, every open loan of the user has a fee. The fee is a non-negative multiple of 50 cents. It is positive exactly when the loan is at least a full day past due. It equals whole days late × 50 cents |
| `TransactionController.RefreshRechargesPaidUnreturnedLoan` | app/Http/Controllers/TransactionController.php:26-30 | a paid but unreturned loan that is a full day past due is charged again by the refresh, and keeps status paid |
| `TransactionController.RefreshIsIdempotent` | app/Http/Controllers/TransactionController.php:26-33 | refreshing twice with the same clock gives the same table as refreshing once |
| `TransactionController.RefreshFees` | app/Http/Controllers/TransactionController.php:26-35 | the loop leaves the loans table equal to the refreshed table. It leaves returned loans and other users' loans untouched. It leaves books and payments unchanged. It keeps the invariant |
| `TransactionController.DueBooks` | app/Http/Controllers/TransactionController.php:44-48 | a loan id is listed exactly when the loan is the user's, has no `returned_at`, and is due strictly before now. Ids are listed in table order, without repeats |
| `TransactionController.DueBooksMatchOverdueCount` | app/Http/Controllers/TransactionController.php:44-48 | the due-books list is as long as the dashboard's overdue count |
| `TransactionController.DueBooksIgnoresFees` | app/Http/Controllers/TransactionController.php:44-48 | the due-books list depends only on owner, `returned_at` and due date, so fee updates and payments never change it |
| `TransactionController.DueAmount` | app/Http/Controllers/TransactionController.php:58 | the due amount, the sum of the user's positive late fees over returned and open loans, is never negative |
| `TransactionController.DueAmountZeroIff` | app/Http/Controllers/TransactionController.php:58 | the due amount is 0 exactly when none of the user's loans carries a positive fee |
| `TransactionController.PaymentLowersDueAmount` | app/Http/Controllers/TransactionController.php:99-102 | clearing one loan's positive fee lowers the user's due amount by exactly that fee |
| `TransactionController.Index` | app/Http/Controllers/TransactionController.php:14-58 | the page refreshes the fees, then shows the due books (the same list as before the refresh) and the due amount of the refreshed table (≥ 0). Books and payments do not change |
| `TransactionController.MakePayment` | app/Http/Controllers/TransactionController.php:70-105 | the guards run in this order: no such loan or an amount under 1 cent gives InvalidRequest. Another user's loan gives NotFound. A fee ≤ 0 or NULL gives NoFeeDue. An amount below the fee gives InsufficientAmount. A dangling book gives MissingBook. Every error changes nothing. Success happens exactly when all the guards pass. It appends exactly one payment for the user, with the tendered amount (≥ the fee), type "payment" and a description naming the book. It sets that loan's fee to 0 and status to paid. Nothing else changes |
| `Scenarios.LastCopyScenario` | app/Http/Controllers/DashboardController.php:92-108 | with one copy: the first borrow succeeds and leaves 0 copies. A second borrower gets OutOfStock. A non-owner's return gets NotOwner. The owner's return sets status returned and restores 1 copy |
| `Scenarios.DuplicateBorrowScenario` | app/Http/Controllers/DashboardController.php:97-104 | a second borrow of the same book before returning it gets DuplicateActiveLoan with stock unchanged. After the return the borrow succeeds |
| `Scenarios.LateFeePaymentScenario` | app/Http/Controllers/TransactionController.php:26-102 | 5 days past due, the page lists the loan as due with a fee of 250 cents. Paying 200 gets InsufficientAmount and keeps the fee. Paying 300 succeeds, records 300, and leaves fee 0 and status paid |
| `Scenarios.ReturnKeepsStoredFeeScenario` | app/Http/Controllers/BorrowedBookController.php:19-45 | a return 6 days late keeps the 250 cents stored by the last page visit instead of charging 6000 |
| `Scenarios.ReturnWithoutVisitScenario` | app/Http/Controllers/BorrowedBookController.php:19-45 | a return 6 days late with no earlier page visit leaves the fee at 0 |
| `Scenarios.DoubleReturnScenario` | app/Http/Controllers/BorrowedBookController.php:14-29 | returning one loan twice succeeds both times and leaves 2 copies where the catalogue had 1 |

## Left out

- Dashboard ratings, trending, top-rated and most-read queries: these are SQL aggregation with floating-point averages and unspecified tie order.
- Recently returned books and payment history on the transactions page: these are plain reads with no logic.
- View rendering, redirects and flash messages: each action gives only a success or an error result.
- The exception catch-all in `borrow`, and any partial failure between saving the book and inserting the loan: these are framework error plumbing, and the model has no failing store.
- Concurrency: the read-check-decrement of `quantity` is not transactional in the code, and the model is sequential.
- Authentication: the user is an explicit parameter. A request with no logged-in user is not modelled.
- Clock: each request reads one `now`, while the code calls `now()` several times.
- Carbon's sign conventions for `diffInDays`: days late are the absolute whole-day difference.
- Floating-point money: amounts are integer cents, so a tendered amount with a fraction of a cent is not modelled.
- Row order of queries: the refresh updates each row independently, so its `orderBy` does not matter. The due-books query has no `orderBy`, and the model lists ids in table order.
- The types of the ids in the owner check: user ids are integers in the model. The code compares with a strict `!==`, so if `user_id` came back from the database as a string while `Auth::id()` is an integer, the two would never be identical and every return would give NotOwner; the model does not capture that.
- Timestamps (`created_at`, `updated_at`) and auto-increment ids: loans and payments are identified by their position in their table.
- Schema migrations: only the status type {borrowed, returned, paid}, with default borrowed, is taken from them. The suppliers migration is unrelated to the lifecycle.
