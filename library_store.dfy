/**
 * The library store: the `books` and `borrowings` tables, the registered
 * users, and the auto-increment counters of the two tables. Both controllers
 * act on one `Library` object, one request at a time.
 */
module LibraryStore {
  import opened Records
  import opened Seqs
  import opened BookModel

  /** `Book::findOrFail($id)`: the position of the book with primary key `id`. */
  function FindBook(books: seq<Book>, id: int): (r: Option<nat>)
    ensures r.Some? ==> r.value < |books| && books[r.value].id == id
    ensures r.None? <==> forall i :: 0 <= i < |books| ==> books[i].id != id
  {
    if books == [] then None
    else if books[0].id == id then Some(0)
    else match FindBook(books[1..], id)
      case None => None
      case Some(i) => Some(i + 1)
  }

  /** `Borrowing::findOrFail($id)`: the position of the borrowing with primary key `id`. */
  function FindBorrowing(borrowings: seq<Borrowing>, id: int): (r: Option<nat>)
    ensures r.Some? ==> r.value < |borrowings| && borrowings[r.value].id == id
    ensures r.None? <==> forall j :: 0 <= j < |borrowings| ==> borrowings[j].id != id
  {
    if borrowings == [] then None
    else if borrowings[0].id == id then Some(0)
    else match FindBorrowing(borrowings[1..], id)
      case None => None
      case Some(j) => Some(j + 1)
  }

  ghost predicate UniqueBookIds(books: seq<Book>) {
    forall i, j :: 0 <= i < j < |books| ==> books[i].id != books[j].id
  }

  /** The `unique` index on `books.isbn`. */
  ghost predicate UniqueIsbns(books: seq<Book>) {
    forall i, j :: 0 <= i < j < |books| ==> books[i].isbn != books[j].isbn
  }

  ghost predicate UniqueBorrowingIds(borrowings: seq<Borrowing>) {
    forall i, j :: 0 <= i < j < |borrowings| ==> borrowings[i].id != borrowings[j].id
  }

  /** The book table: unique keys and isbns, keys below the counter, no negative counter. */
  ghost predicate CatalogueConsistent(books: seq<Book>, nextBookId: int) {
    && UniqueBookIds(books) && UniqueIsbns(books)
    && (forall i :: 0 <= i < |books| ==> books[i].id < nextBookId)
    && (forall i :: 0 <= i < |books| ==> books[i].stock >= 0 && books[i].available >= 0)
  }

  /** The borrowing table: unique keys below the counter, book keys ever issued, a return date on every returned loan. */
  ghost predicate LoansConsistent(borrowings: seq<Borrowing>, nextBookId: int, nextBorrowingId: int) {
    && UniqueBorrowingIds(borrowings)
    && (forall j :: 0 <= j < |borrowings| ==> borrowings[j].id < nextBorrowingId && borrowings[j].bookId < nextBookId)
    && (forall j :: 0 <= j < |borrowings| && borrowings[j].status == Returned ==>
          borrowings[j].returnDate.Some?)
  }

  /** Every active loan is on a stored book. */
  ghost predicate ActiveLoansOnShelf(books: seq<Book>, borrowings: seq<Borrowing>) {
    forall j :: 0 <= j < |borrowings| && borrowings[j].status == Borrowed ==>
      FindBook(books, borrowings[j].bookId).Some?
  }

  /** What every action keeps true. */
  ghost predicate Consistent(books: seq<Book>, borrowings: seq<Borrowing>, nextBookId: int, nextBorrowingId: int) {
    && CatalogueConsistent(books, nextBookId)
    && LoansConsistent(borrowings, nextBookId, nextBorrowingId)
    && ActiveLoansOnShelf(books, borrowings)
  }

  /** `books1` is `books` with only `available` changed, and never below zero. */
  ghost predicate Reshelved(books: seq<Book>, books1: seq<Book>) {
    && |books1| == |books|
    && forall i :: 0 <= i < |books| ==>
         books1[i] == books[i].(available := books1[i].available) && books1[i].available >= 0
  }

  lemma ReshelvedFind(books: seq<Book>, books1: seq<Book>, id: int)
    requires Reshelved(books, books1)
    ensures FindBook(books1, id).Some? <==> FindBook(books, id).Some?
  {
    if FindBook(books, id).Some? {
      assert books1[FindBook(books, id).value].id == id;
    }
    if FindBook(books1, id).Some? {
      assert books[FindBook(books1, id).value].id == id;
    }
  }

  lemma ReshelvedCatalogue(books: seq<Book>, books1: seq<Book>, nextBookId: int)
    requires CatalogueConsistent(books, nextBookId) && Reshelved(books, books1)
    ensures CatalogueConsistent(books1, nextBookId)
  {
    forall i, j | 0 <= i < j < |books1| ensures books1[i].id != books1[j].id && books1[i].isbn != books1[j].isbn {
      assert books1[i].id == books[i].id && books1[j].id == books[j].id;
      assert books1[i].isbn == books[i].isbn && books1[j].isbn == books[j].isbn;
    }
    forall i | 0 <= i < |books1| ensures books1[i].id < nextBookId && books1[i].stock >= 0 {
      assert books1[i].id == books[i].id && books1[i].stock == books[i].stock;
    }
  }

  /** Adding a new active loan of a stored book, with the next key, keeps the store consistent. */
  lemma BorrowKeepsConsistent(books: seq<Book>, borrowings: seq<Borrowing>, nextBookId: int, nextBorrowingId: int,
                              books1: seq<Book>, row: Borrowing)
    requires Consistent(books, borrowings, nextBookId, nextBorrowingId)
    requires Reshelved(books, books1)
    requires row.id == nextBorrowingId && FindBook(books, row.bookId).Some? && row.status == Borrowed
    ensures Consistent(books1, borrowings + [row], nextBookId, nextBorrowingId + 1)
  {
    ReshelvedCatalogue(books, books1, nextBookId);
    var br1 := borrowings + [row];
    assert row.bookId < nextBookId by {
      assert books[FindBook(books, row.bookId).value].id == row.bookId;
    }
    forall j | 0 <= j < |br1| && br1[j].status == Borrowed ensures FindBook(books1, br1[j].bookId).Some? {
      ReshelvedFind(books, books1, br1[j].bookId);
      if j < |borrowings| {
        assert br1[j] == borrowings[j];
      }
    }
  }

  /**
   * Overwriting loan `j` with a row of the same key and book that is active
   * only if the old one was, and dated if returned, keeps the store consistent.
   */
  lemma ReplaceKeepsConsistent(books: seq<Book>, borrowings: seq<Borrowing>, nextBookId: int, nextBorrowingId: int,
                               books1: seq<Book>, j: nat, row: Borrowing)
    requires Consistent(books, borrowings, nextBookId, nextBorrowingId)
    requires Reshelved(books, books1)
    requires j < |borrowings| && row.id == borrowings[j].id && row.bookId == borrowings[j].bookId
    requires row.status == Borrowed ==> borrowings[j].status == Borrowed
    requires row.status == Returned ==> row.returnDate.Some?
    ensures Consistent(books1, borrowings[j := row], nextBookId, nextBorrowingId)
  {
    ReshelvedCatalogue(books, books1, nextBookId);
    var br1 := borrowings[j := row];
    forall i | 0 <= i < |br1| && br1[i].status == Borrowed ensures FindBook(books1, br1[i].bookId).Some? {
      ReshelvedFind(books, books1, br1[i].bookId);
    }
  }

  /** Deleting loan `j` keeps the store consistent. */
  lemma RemoveKeepsConsistent(books: seq<Book>, borrowings: seq<Borrowing>, nextBookId: int, nextBorrowingId: int,
                              books1: seq<Book>, j: nat)
    requires Consistent(books, borrowings, nextBookId, nextBorrowingId)
    requires Reshelved(books, books1)
    requires j < |borrowings|
    ensures Consistent(books1, RemoveAt(borrowings, j), nextBookId, nextBorrowingId)
  {
    ReshelvedCatalogue(books, books1, nextBookId);
    var br1 := RemoveAt(borrowings, j);
    forall a, b | 0 <= a < b < |br1| ensures br1[a].id != br1[b].id {
      var a0 := if a < j then a else a + 1;
      var b0 := if b < j then b else b + 1;
      assert br1[a] == borrowings[a0] && br1[b] == borrowings[b0];
    }
    forall i | 0 <= i < |br1| && br1[i].status == Borrowed ensures FindBook(books1, br1[i].bookId).Some? {
      ReshelvedFind(books, books1, br1[i].bookId);
      assert br1[i] == borrowings[if i < j then i else i + 1];
    }
  }

  /** The copies of `b` the store accounts for: on the shelf plus out on active loan. */
  function Accounted(b: Book, borrowings: seq<Borrowing>): int {
    b.available + ActiveCount(borrowings, b.id)
  }

  /** Every book accounts for exactly its stock: `available == stock - activeCount`. */
  ghost predicate Balanced(books: seq<Book>, borrowings: seq<Borrowing>) {
    forall i :: 0 <= i < |books| ==> Accounted(books[i], borrowings) == books[i].stock
  }

  /**
   * The book table keeps its rows (ids and stock, in order), and each book's
   * accounted copies grow by `delta` for book `bookId` and stay put for the others.
   */
  ghost predicate Shifted(books0: seq<Book>, borrowings0: seq<Borrowing>,
                          books1: seq<Book>, borrowings1: seq<Borrowing>, bookId: int, delta: int) {
    && |books1| == |books0|
    && forall i :: 0 <= i < |books0| ==>
         && books1[i].id == books0[i].id
         && books1[i].stock == books0[i].stock
         && Accounted(books1[i], borrowings1)
            == Accounted(books0[i], borrowings0) + (if books0[i].id == bookId then delta else 0)
  }

  /** Every book keeps its accounted copies: `available + activeCount` is preserved. */
  ghost predicate Conserved(books0: seq<Book>, borrowings0: seq<Borrowing>,
                            books1: seq<Book>, borrowings1: seq<Borrowing>) {
    Shifted(books0, borrowings0, books1, borrowings1, 0, 0)
  }

  /** A balanced store with no negative counter satisfies `0 <= available <= stock`. */
  lemma BalancedBounds(books: seq<Book>, borrowings: seq<Borrowing>)
    requires Balanced(books, borrowings)
    requires forall i :: 0 <= i < |books| ==> books[i].available >= 0
    ensures forall i :: 0 <= i < |books| ==> 0 <= books[i].available <= books[i].stock
  {
    forall i | 0 <= i < |books| ensures books[i].available <= books[i].stock {
      assert Accounted(books[i], borrowings) == books[i].stock;
    }
  }

  /** Moves that leave every book's accounted copies where they were keep a balanced store balanced. */
  lemma ShiftedKeepsBalance(books0: seq<Book>, borrowings0: seq<Borrowing>,
                            books1: seq<Book>, borrowings1: seq<Borrowing>, bookId: int)
    requires Shifted(books0, borrowings0, books1, borrowings1, bookId, 0)
    requires Balanced(books0, borrowings0)
    ensures Balanced(books1, borrowings1)
  {
    forall i | 0 <= i < |books1| ensures Accounted(books1[i], borrowings1) == books1[i].stock {
      assert Accounted(books0[i], borrowings0) == books0[i].stock;
    }
  }

  /** No loan carries the label 'overdue' (nothing in the controllers ever writes it). */
  ghost predicate NoOverdue(borrowings: seq<Borrowing>) {
    forall j :: 0 <= j < |borrowings| ==> borrowings[j].status != Overdue
  }

  /** `$book->increment('available')` (by 1) or `decrement` (by -1) on the book at position `k`. */
  function AddAvailable(books: seq<Book>, k: nat, d: int): (r: seq<Book>)
    requires k < |books|
    ensures |r| == |books|
    ensures forall i :: 0 <= i < |books| && i != k ==> r[i] == books[i]
    ensures r[k].available == books[k].available + d
    ensures r[k] == books[k].(available := r[k].available)
    ensures books[k].available + d >= 0 && (forall i :: 0 <= i < |books| ==> books[i].available >= 0) ==> Reshelved(books, r)
  {
    books[k := books[k].(available := books[k].available + d)]
  }

  /** Creating an active loan while taking a copy off the shelf keeps every book's accounts. */
  lemma {:induction false} BorrowConserves(books: seq<Book>, borrowings: seq<Borrowing>, k: nat, row: Borrowing)
    requires UniqueBookIds(books)
    requires k < |books| && row.bookId == books[k].id && row.status == Borrowed
    ensures Conserved(books, borrowings, AddAvailable(books, k, -1), borrowings + [row])
  {
    var books1 := AddAvailable(books, k, -1);
    forall i | 0 <= i < |books|
      ensures Accounted(books1[i], borrowings + [row]) == Accounted(books[i], borrowings)
    {
      ActiveCountAppend(borrowings, row, books[i].id);
    }
  }

  /**
   * Overwriting loan `j` with `row`, where both or neither are active, keeps
   * every book's accounts when the book table is untouched.
   */
  lemma {:induction false} ReplaceConserves(books: seq<Book>, borrowings: seq<Borrowing>, j: nat, row: Borrowing)
    requires j < |borrowings|
    requires row.bookId == borrowings[j].bookId
    requires (row.status == Borrowed) == (borrowings[j].status == Borrowed)
    ensures Conserved(books, borrowings, books, borrowings[j := row])
  {
    forall i | 0 <= i < |books|
      ensures Accounted(books[i], borrowings[j := row]) == Accounted(books[i], borrowings)
    {
      ActiveCountReplace(borrowings, j, row, books[i].id);
    }
  }

  /**
   * Marking loan `j` as no longer active while putting a copy of its book (at
   * position `k`) back on the shelf: the book's accounts grow by one unless the
   * loan was active.
   */
  lemma {:induction false} ReturnShifts(books: seq<Book>, borrowings: seq<Borrowing>, j: nat, k: nat, row: Borrowing)
    requires UniqueBookIds(books)
    requires j < |borrowings| && k < |books|
    requires row.bookId == borrowings[j].bookId == books[k].id && row.status != Borrowed
    ensures Shifted(books, borrowings, AddAvailable(books, k, 1), borrowings[j := row],
                    books[k].id, if borrowings[j].status == Borrowed then 0 else 1)
  {
    var books1 := AddAvailable(books, k, 1);
    forall i | 0 <= i < |books|
      ensures Accounted(books1[i], borrowings[j := row])
           == Accounted(books[i], borrowings)
              + (if books[i].id == books[k].id then (if borrowings[j].status == Borrowed then 0 else 1) else 0)
    {
      ActiveCountReplace(borrowings, j, row, books[i].id);
      if i != k {
        assert books[i].id != books[k].id;
        assert books1[i] == books[i];
      }
    }
  }

  /**
   * Deleting loan `j`, and putting a copy of its book (at position `k`) back
   * on the shelf exactly when the loan was active, keeps every book's accounts.
   */
  lemma {:induction false} RemoveConserves(books: seq<Book>, borrowings: seq<Borrowing>, j: nat, k: nat)
    requires UniqueBookIds(books)
    requires j < |borrowings| && k < |books| && borrowings[j].bookId == books[k].id
    ensures Conserved(books, borrowings,
                      if borrowings[j].status == Borrowed then AddAvailable(books, k, 1) else books,
                      RemoveAt(borrowings, j))
  {
    var rest := RemoveAt(borrowings, j);
    if borrowings[j].status == Borrowed {
      var books1 := AddAvailable(books, k, 1);
      forall i | 0 <= i < |books|
        ensures Accounted(books1[i], rest) == Accounted(books[i], borrowings)
      {
        ActiveCountRemove(borrowings, j, books[i].id);
        if i != k {
          assert books[i].id != books[k].id;
          assert books1[i] == books[i];
        }
      }
    } else {
      RemoveInactiveConserves(books, borrowings, j);
    }
  }

  /** Deleting an inactive loan, with the book table untouched, keeps every book's accounts. */
  lemma {:induction false} RemoveInactiveConserves(books: seq<Book>, borrowings: seq<Borrowing>, j: nat)
    requires j < |borrowings| && borrowings[j].status != Borrowed
    ensures Conserved(books, borrowings, books, RemoveAt(borrowings, j))
  {
    forall i | 0 <= i < |books|
      ensures Accounted(books[i], RemoveAt(borrowings, j)) == Accounted(books[i], borrowings)
    {
      ActiveCountRemove(borrowings, j, books[i].id);
    }
  }

  class Library {
    var books: seq<Book>
    var borrowings: seq<Borrowing>
    var users: set<int>
    var nextBookId: int
    var nextBorrowingId: int

    ghost predicate Valid()
      reads this
    {
      Consistent(books, borrowings, nextBookId, nextBorrowingId)
    }

    /** An empty catalogue for the given registered users; keys start at 1. */
    constructor (users: set<int>)
      ensures Valid()
      ensures books == [] && borrowings == [] && this.users == users
      ensures nextBookId == 1 && nextBorrowingId == 1
      ensures Balanced(books, borrowings)
    {
      books := [];
      borrowings := [];
      this.users := users;
      nextBookId := 1;
      nextBorrowingId := 1;
    }
  }
}
