/**
 * The relations of the Book model: a book's borrowings are the rows whose
 * `book_id` is the book, and its active borrowings are those of them whose
 * status is 'borrowed'.
 */
module BookModel {
  import opened Records

  /** The sort key of `latest()`: the creation time of a borrowing. */
  function CreatedAt(b: Borrowing): int {
    b.createdAt
  }

  /** The rows of `s` with the given status, in storage order (`where('status', …)`). */
  function WithStatus(s: seq<Borrowing>, st: Status): (r: seq<Borrowing>)
    ensures |r| <= |s|
  {
    if s == [] then []
    else (if s[0].status == st then [s[0]] else []) + WithStatus(s[1..], st)
  }

  /** `Book::borrowings`: the rows of `s` that belong to book `bookId`, in storage order. */
  function BorrowingsOf(s: seq<Borrowing>, bookId: int): (r: seq<Borrowing>)
    ensures |r| <= |s|
  {
    if s == [] then []
    else (if s[0].bookId == bookId then [s[0]] else []) + BorrowingsOf(s[1..], bookId)
  }

  /** `Book::activeBorrowings`: the book's borrowings narrowed to status 'borrowed'. */
  function ActiveOf(s: seq<Borrowing>, bookId: int): (r: seq<Borrowing>)
    ensures forall b :: b in r ==> b in s && b.bookId == bookId && b.status == Borrowed
    ensures |r| <= |BorrowingsOf(s, bookId)|
  {
    BorrowingsOfMembers(s, bookId);
    WithStatusMembers(BorrowingsOf(s, bookId), Borrowed);
    WithStatus(BorrowingsOf(s, bookId), Borrowed)
  }

  /** `$book->activeBorrowings()->count()`. */
  function ActiveCount(s: seq<Borrowing>, bookId: int): (r: nat)
    ensures r <= |BorrowingsOf(s, bookId)| <= |s|
  {
    |ActiveOf(s, bookId)|
  }

  /** The number of active borrowings of `bookId` that the single row `b` makes up. */
  function ActiveShare(b: Borrowing, bookId: int): nat {
    if b.bookId == bookId && b.status == Borrowed then 1 else 0
  }

  /** `where('status', st)` keeps exactly the rows with status `st`, never more often than it occurs. */
  lemma {:induction false} WithStatusMembers(s: seq<Borrowing>, st: Status)
    ensures multiset(WithStatus(s, st)) <= multiset(s)
    ensures forall b :: b in WithStatus(s, st) <==> b in s && b.status == st
  {
    if s != [] {
      assert s == [s[0]] + s[1..];
      WithStatusMembers(s[1..], st);
    }
  }

  /** A book's borrowings are exactly the rows whose `book_id` is the book. */
  lemma {:induction false} BorrowingsOfMembers(s: seq<Borrowing>, bookId: int)
    ensures multiset(BorrowingsOf(s, bookId)) <= multiset(s)
    ensures forall b :: b in BorrowingsOf(s, bookId) <==> b in s && b.bookId == bookId
  {
    if s != [] {
      assert s == [s[0]] + s[1..];
      BorrowingsOfMembers(s[1..], bookId);
    }
  }

  /** A book's active borrowings are exactly its rows with status 'borrowed', and a part of all its borrowings. */
  lemma ActiveOfMembers(s: seq<Borrowing>, bookId: int)
    ensures forall b :: b in ActiveOf(s, bookId) <==> b in s && b.bookId == bookId && b.status == Borrowed
    ensures multiset(ActiveOf(s, bookId)) <= multiset(BorrowingsOf(s, bookId))
    ensures ActiveCount(s, bookId) <= |BorrowingsOf(s, bookId)| <= |s|
  {
    BorrowingsOfMembers(s, bookId);
    WithStatusMembers(BorrowingsOf(s, bookId), Borrowed);
  }

  lemma {:induction false} NoActiveBorrowings(s: seq<Borrowing>, bookId: int)
    ensures ActiveCount(s, bookId) == 0 <==>
      forall j :: 0 <= j < |s| ==> !(s[j].bookId == bookId && s[j].status == Borrowed)
  {
    ActiveOfMembers(s, bookId);
    if ActiveCount(s, bookId) != 0 {
      var b := ActiveOf(s, bookId)[0];
      assert b in ActiveOf(s, bookId);
      var j :| 0 <= j < |s| && s[j] == b;
    }
  }

  lemma {:induction false} WithStatusConcat(a: seq<Borrowing>, b: seq<Borrowing>, st: Status)
    ensures WithStatus(a + b, st) == WithStatus(a, st) + WithStatus(b, st)
  {
    if a == [] {
      assert a + b == b;
    } else {
      var h := if a[0].status == st then [a[0]] else [];
      assert (a + b)[0] == a[0] && (a + b)[1..] == a[1..] + b;
      WithStatusConcat(a[1..], b, st);
      calc {
        WithStatus(a + b, st);
        h + WithStatus(a[1..] + b, st);
        h + (WithStatus(a[1..], st) + WithStatus(b, st));
        (h + WithStatus(a[1..], st)) + WithStatus(b, st);
        WithStatus(a, st) + WithStatus(b, st);
      }
    }
  }

  /** The positions of the rows of `s` with status `st`. */
  ghost function PositionsWith(s: seq<Borrowing>, st: Status): set<nat> {
    set j: nat | j < |s| && s[j].status == st
  }

  /** Filtering a table whose last row is `s[|s| - 1]`: that row is kept exactly when its status is `st`. */
  lemma WithStatusLast(s: seq<Borrowing>, st: Status)
    requires s != []
    ensures |WithStatus(s, st)| == |WithStatus(s[..|s| - 1], st)| + (if s[|s| - 1].status == st then 1 else 0)
  {
    var n := |s| - 1;
    assert s == s[..n] + [s[n]];
    WithStatusConcat(s[..n], [s[n]], st);
    assert [s[n]][1..] == [];
  }

  /** The positions with status `st` in a table are those of all rows but the last, and the last when it has `st`. */
  lemma PositionsWithLast(s: seq<Borrowing>, st: Status)
    requires s != []
    ensures var n := |s| - 1;
      && n !in PositionsWith(s[..n], st)
      && PositionsWith(s, st) == PositionsWith(s[..n], st) + (if s[n].status == st then {n} else {})
  {
    var n := |s| - 1;
    assert PositionsWith(s[..n], st) == set j: nat | j < n && s[j].status == st;
  }

  /** `where('status', st)->count()` is the number of rows whose status is exactly `st`. */
  lemma {:induction false} WithStatusCount(s: seq<Borrowing>, st: Status)
    ensures |WithStatus(s, st)| == |PositionsWith(s, st)|
  {
    if s != [] {
      var n := |s| - 1;
      WithStatusLast(s, st);
      PositionsWithLast(s, st);
      WithStatusCount(s[..n], st);
    }
  }

  lemma {:induction false} BorrowingsOfConcat(a: seq<Borrowing>, b: seq<Borrowing>, bookId: int)
    ensures BorrowingsOf(a + b, bookId) == BorrowingsOf(a, bookId) + BorrowingsOf(b, bookId)
  {
    if a == [] {
      assert a + b == b;
    } else {
      var h := if a[0].bookId == bookId then [a[0]] else [];
      assert (a + b)[0] == a[0] && (a + b)[1..] == a[1..] + b;
      BorrowingsOfConcat(a[1..], b, bookId);
      calc {
        BorrowingsOf(a + b, bookId);
        h + BorrowingsOf(a[1..] + b, bookId);
        h + (BorrowingsOf(a[1..], bookId) + BorrowingsOf(b, bookId));
        (h + BorrowingsOf(a[1..], bookId)) + BorrowingsOf(b, bookId);
        BorrowingsOf(a, bookId) + BorrowingsOf(b, bookId);
      }
    }
  }

  /** Counting active borrowings distributes over concatenation of tables. */
  lemma ActiveCountConcat(a: seq<Borrowing>, b: seq<Borrowing>, bookId: int)
    ensures ActiveCount(a + b, bookId) == ActiveCount(a, bookId) + ActiveCount(b, bookId)
  {
    BorrowingsOfConcat(a, b, bookId);
    WithStatusConcat(BorrowingsOf(a, bookId), BorrowingsOf(b, bookId), Borrowed);
  }

  lemma ActiveCountSingle(x: Borrowing, bookId: int)
    ensures ActiveCount([x], bookId) == ActiveShare(x, bookId)
  {
    assert [x][1..] == [];
  }

  /** Inserting a row changes each book's active count by that row's share. */
  lemma ActiveCountAppend(s: seq<Borrowing>, x: Borrowing, bookId: int)
    ensures ActiveCount(s + [x], bookId) == ActiveCount(s, bookId) + ActiveShare(x, bookId)
  {
    ActiveCountConcat(s, [x], bookId);
    ActiveCountSingle(x, bookId);
  }

  /** Deleting row `k` changes each book's active count by minus that row's share. */
  lemma ActiveCountRemove(s: seq<Borrowing>, k: nat, bookId: int)
    requires k < |s|
    ensures ActiveCount(s[..k] + s[k + 1..], bookId) + ActiveShare(s[k], bookId) == ActiveCount(s, bookId)
  {
    assert s == s[..k] + [s[k]] + s[k + 1..];
    ActiveCountConcat(s[..k] + [s[k]], s[k + 1..], bookId);
    ActiveCountConcat(s[..k], [s[k]], bookId);
    ActiveCountConcat(s[..k], s[k + 1..], bookId);
    ActiveCountSingle(s[k], bookId);
  }

  /** Overwriting row `k` with `x` swaps that row's share for the share of `x`. */
  lemma ActiveCountReplace(s: seq<Borrowing>, k: nat, x: Borrowing, bookId: int)
    requires k < |s|
    ensures ActiveCount(s[k := x], bookId) + ActiveShare(s[k], bookId)
         == ActiveCount(s, bookId) + ActiveShare(x, bookId)
  {
    var t := s[k := x];
    assert t[..k] == s[..k] && t[k + 1..] == s[k + 1..] && t[k] == x;
    ActiveCountRemove(s, k, bookId);
    ActiveCountRemove(t, k, bookId);
  }
}
