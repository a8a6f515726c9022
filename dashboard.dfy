/**
 * The dashboard figures: the sizes of the tables, the number of active
 * loans, the five newest loans and the five most borrowed books.
 */
module Dashboard {
  import opened Records
  import opened BookModel
  import opened Ranking

  /** A book with its all-time borrowing count (`withCount('borrowings')`). */
  datatype PopularBook = PopularBook(book: Book, borrowingsCount: nat)

  /** The sort key of `orderBy('borrowings_count', 'desc')`. */
  function BorrowingsCount(p: PopularBook): int {
    p.borrowingsCount
  }

  /** Every book in storage order, with the number of its borrowings of any status. */
  function WithBorrowingsCount(books: seq<Book>, loans: seq<Borrowing>): (r: seq<PopularBook>)
    ensures |r| == |books|
    ensures forall i :: 0 <= i < |r| ==> r[i].book == books[i] && r[i].borrowingsCount == |BorrowingsOf(loans, books[i].id)|
  {
    if books == [] then []
    else [PopularBook(books[0], |BorrowingsOf(loans, books[0].id)|)] + WithBorrowingsCount(books[1..], loans)
  }

  /** The body of the `stats` answer. */
  datatype Stats = Stats(
    totalBooks: nat,
    totalUsers: nat,
    activeBorrowings: nat,
    totalBorrowings: nat,
    recentBorrowings: seq<Borrowing>,
    popularBooks: seq<PopularBook>)

  /** Loans with status 'borrowed', 'returned' and 'overdue' together make up the whole table. */
  lemma {:induction false} StatusPartition(loans: seq<Borrowing>)
    ensures |WithStatus(loans, Borrowed)| + |WithStatus(loans, Returned)| + |WithStatus(loans, Overdue)| == |loans|
  {
    if loans != [] {
      StatusPartition(loans[1..]);
    }
  }

  /** The count of 'borrowed' rows is zero exactly when no loan is active. */
  lemma NoActiveLoans(loans: seq<Borrowing>)
    ensures |WithStatus(loans, Borrowed)| == 0 <==> forall j :: 0 <= j < |loans| ==> loans[j].status != Borrowed
  {
    WithStatusMembers(loans, Borrowed);
    if |WithStatus(loans, Borrowed)| != 0 {
      assert WithStatus(loans, Borrowed)[0] in WithStatus(loans, Borrowed);
    }
  }

  /** `latest()->limit(5)`: the five newest loans, newest first; every loan left out is no newer than those listed. */
  function RecentBorrowings(loans: seq<Borrowing>): (r: seq<Borrowing>)
    ensures |r| == if |loans| < 5 then |loans| else 5
    ensures SortedDesc(r, CreatedAt)
    ensures multiset(r) <= multiset(loans)
    ensures forall j :: 0 <= j < |loans| && loans[j] !in r ==>
      forall y :: y in r ==> loans[j].createdAt <= y.createdAt
  {
    TopOmitted(loans, 5, CreatedAt);
    Top(loans, 5, CreatedAt)
  }

  /** Every entry of the ranking is a stored book with its own borrowing count. */
  lemma RankedMembers(books: seq<Book>, loans: seq<Borrowing>)
    ensures forall e :: e in Top(WithBorrowingsCount(books, loans), 5, BorrowingsCount) ==>
      e.book in books && e.borrowingsCount == |BorrowingsOf(loans, e.book.id)|
  {
    var counted := WithBorrowingsCount(books, loans);
    TopMembers(counted, 5, BorrowingsCount);
    forall e | e in Top(counted, 5, BorrowingsCount)
      ensures e.book in books && e.borrowingsCount == |BorrowingsOf(loans, e.book.id)|
    {
      var i :| 0 <= i < |counted| && counted[i] == e;
    }
  }

  /** A book left out of the ranking has no more borrowings than any book in it. */
  lemma RankedOmitted(books: seq<Book>, loans: seq<Borrowing>)
    ensures var r := Top(WithBorrowingsCount(books, loans), 5, BorrowingsCount);
      forall i :: 0 <= i < |books| && PopularBook(books[i], |BorrowingsOf(loans, books[i].id)|) !in r ==>
        forall e :: e in r ==> |BorrowingsOf(loans, books[i].id)| <= e.borrowingsCount
  {
    var counted := WithBorrowingsCount(books, loans);
    var r := Top(counted, 5, BorrowingsCount);
    TopOmitted(counted, 5, BorrowingsCount);
    forall i | 0 <= i < |books| && PopularBook(books[i], |BorrowingsOf(loans, books[i].id)|) !in r
      ensures forall e :: e in r ==> |BorrowingsOf(loans, books[i].id)| <= e.borrowingsCount
    {
      assert counted[i] == PopularBook(books[i], |BorrowingsOf(loans, books[i].id)|);
      assert forall e :: e in r ==> BorrowingsCount(counted[i]) <= BorrowingsCount(e);
    }
  }

  /**
   * `orderBy('borrowings_count', 'desc')->limit(5)`: the five most borrowed
   * books by non-increasing count; a book left out has no more borrowings
   * than any listed.
   */
  function PopularBooks(books: seq<Book>, loans: seq<Borrowing>): (r: seq<PopularBook>)
    ensures |r| == if |books| < 5 then |books| else 5
    ensures SortedDesc(r, BorrowingsCount)
    ensures multiset(r) <= multiset(WithBorrowingsCount(books, loans))
    ensures forall e :: e in r ==> e.book in books && e.borrowingsCount == |BorrowingsOf(loans, e.book.id)|
    ensures forall i :: 0 <= i < |books| && PopularBook(books[i], |BorrowingsOf(loans, books[i].id)|) !in r ==>
      forall e :: e in r ==> |BorrowingsOf(loans, books[i].id)| <= e.borrowingsCount
  {
    RankedMembers(books, loans);
    RankedOmitted(books, loans);
    Top(WithBorrowingsCount(books, loans), 5, BorrowingsCount)
  }

  /**
   * `stats` over the stored books, the registered users and the loans. Every
   * figure is recomputed from the tables and nothing is written.
   */
  function StatsOf(books: seq<Book>, users: set<int>, loans: seq<Borrowing>): (r: Stats)
    ensures r.totalBooks == |books| && r.totalUsers == |users| && r.totalBorrowings == |loans|
    ensures r.activeBorrowings == |PositionsWith(loans, Borrowed)| <= r.totalBorrowings
    ensures r.activeBorrowings + |PositionsWith(loans, Returned)| + |PositionsWith(loans, Overdue)| == r.totalBorrowings
    ensures r.activeBorrowings == 0 <==> forall j :: 0 <= j < |loans| ==> loans[j].status != Borrowed
    ensures r.recentBorrowings == RecentBorrowings(loans) && r.popularBooks == PopularBooks(books, loans)
  {
    StatusPartition(loans);
    NoActiveLoans(loans);
    WithStatusCount(loans, Borrowed);
    WithStatusCount(loans, Returned);
    WithStatusCount(loans, Overdue);
    Stats(|books|, |users|, |WithStatus(loans, Borrowed)|, |loans|, RecentBorrowings(loans), PopularBooks(books, loans))
  }
}
