/** The relational store as one object: the books table keyed by id, the
    borrowed_books table (a loan's id is its position) and the append-only
    transactions table. The controllers update its fields in place. */
module Store {
  import opened Schema

  class Database {
    var books: map<int, Book>
    var loans: seq<Loan>
    var payments: seq<Payment>

    /** The lifecycle's invariant: no negative stock, and at most one open
        loan per user and book. No controller demands it; each keeps it. */
    ghost predicate Valid()
      reads this
    {
      StockNonNegative(books) && AtMostOneOpenLoan(loans)
    }

    /** A store holding the given catalogue and no loans or payments. */
    constructor (catalogue: map<int, Book>)
      ensures books == catalogue && loans == [] && payments == []
      ensures StockNonNegative(catalogue) ==> Valid()
    {
      books := catalogue;
      loans := [];
      payments := [];
    }
  }
}
