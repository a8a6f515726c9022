/**
 * "Order by a key, descending, then take the first n": the shape of
 * `latest()->limit(5)` and of `orderBy('borrowings_count', 'desc')->limit(5)`.
 * The sort is stable, so rows with equal keys keep their storage order.
 */
module Ranking {

  predicate SortedDesc<T>(s: seq<T>, key: T -> int) {
    forall i, j :: 0 <= i < j < |s| ==> key(s[i]) >= key(s[j])
  }

  /** A row no smaller than every row of a sorted table can go in front of it. */
  lemma SortedCons<T>(h: T, t: seq<T>, key: T -> int)
    requires SortedDesc(t, key)
    requires forall y :: y in t ==> key(y) <= key(h)
    ensures SortedDesc([h] + t, key)
  {
    forall i, j | 0 <= i < j < |[h] + t| ensures key(([h] + t)[i]) >= key(([h] + t)[j]) {
      assert ([h] + t)[j] == t[j - 1];
      if i > 0 {
        assert ([h] + t)[i] == t[i - 1];
      }
    }
  }

  /** A row whose key is not smaller than the first key of a sorted table can go in front of it. */
  lemma SortedFront<T>(x: T, s: seq<T>, key: T -> int)
    requires SortedDesc(s, key) && (s == [] || key(s[0]) <= key(x))
    ensures SortedDesc([x] + s, key)
  {
    forall y | y in s ensures key(y) <= key(x) {
      var j :| 0 <= j < |s| && s[j] == y;
    }
    SortedCons(x, s, key);
  }

  /**
   * The first row of a sorted table, with a key larger than that of `x`, can
   * go in front of the sorted rest of the table with `x` inserted.
   */
  lemma InsertBehind<T>(x: T, s: seq<T>, rest: seq<T>, key: T -> int)
    requires SortedDesc(s, key) && s != [] && key(s[0]) > key(x)
    requires SortedDesc(rest, key) && multiset(rest) == multiset(s[1..]) + multiset{x}
    ensures SortedDesc([s[0]] + rest, key)
    ensures multiset([s[0]] + rest) == multiset(s) + multiset{x}
  {
    assert s == [s[0]] + s[1..];
    forall y | y in rest ensures key(y) <= key(s[0]) {
      assert y in multiset(rest);
      if y != x {
        assert y in multiset(s[1..]);
        var j :| 0 <= j < |s[1..]| && s[1..][j] == y;
        assert s[j + 1] == y;
      }
    }
    SortedCons(s[0], rest, key);
  }

  /** Puts `x` in front of the first row whose key is not larger than its own. */
  function Insert<T>(x: T, s: seq<T>, key: T -> int): (r: seq<T>)
    requires SortedDesc(s, key)
    ensures SortedDesc(r, key)
    ensures multiset(r) == multiset(s) + multiset{x}
    ensures |r| == |s| + 1
  {
    if s == [] || key(s[0]) <= key(x) then
      SortedFront(x, s, key);
      [x] + s
    else
      var rest := Insert(x, s[1..], key);
      InsertBehind(x, s, rest, key);
      [s[0]] + rest
  }

  /** The rows of `s` ordered by descending key. */
  function SortDesc<T>(s: seq<T>, key: T -> int): (r: seq<T>)
    ensures SortedDesc(r, key)
    ensures multiset(r) == multiset(s)
    ensures |r| == |s|
  {
    if s == [] then []
    else
      assert s == [s[0]] + s[1..];
      Insert(s[0], SortDesc(s[1..], key), key)
  }

  /** In a sorted table, no row after position `k` has a larger key than a row before it. */
  lemma SortedSplit<T>(t: seq<T>, k: nat, key: T -> int)
    requires SortedDesc(t, key) && k <= |t|
    ensures SortedDesc(t[..k], key)
    ensures forall x, y :: x in t[k..] && y in t[..k] ==> key(x) <= key(y)
  {
    forall x, y | x in t[k..] && y in t[..k] ensures key(x) <= key(y) {
      var i :| 0 <= i < |t[k..]| && t[k..][i] == x;
      var j :| 0 <= j < k && t[..k][j] == y;
      assert t[j] == y && t[k + i] == x;
    }
  }

  /** Cutting a table at `k`: what the front leaves of the whole is the back. */
  lemma CutRest<T>(t: seq<T>, k: nat)
    requires k <= |t|
    ensures multiset(t) - multiset(t[..k]) == multiset(t[k..])
    ensures multiset(t[..k]) <= multiset(t)
  {
    assert t == t[..k] + t[k..];
  }

  /**
   * The first `k` rows of a sorted arrangement `t` of `s`: ordered, taken
   * from `s`, and no row of `s` left out has a larger key than a row kept.
   */
  lemma SortedPrefix<T>(s: seq<T>, t: seq<T>, k: nat, key: T -> int)
    requires SortedDesc(t, key) && multiset(t) == multiset(s) && k <= |t|
    ensures SortedDesc(t[..k], key)
    ensures multiset(t[..k]) <= multiset(s)
    ensures k == |t| ==> multiset(t[..k]) == multiset(s)
    ensures forall x, y :: x in multiset(s) - multiset(t[..k]) && y in t[..k] ==> key(x) <= key(y)
  {
    CutRest(t, k);
    SortedSplit(t, k, key);
    if k == |t| {
      assert t[..k] == t;
    }
    forall x, y | x in multiset(s) - multiset(t[..k]) && y in t[..k] ensures key(x) <= key(y) {
      assert x in multiset(t[k..]);
    }
  }

  /**
   * The first `n` rows by descending key: at most `n` of them, ordered, taken
   * from `s`, and no row left out has a larger key than a row kept.
   */
  function Top<T>(s: seq<T>, n: nat, key: T -> int): (r: seq<T>)
    ensures |r| == if |s| < n then |s| else n
    ensures SortedDesc(r, key)
    ensures multiset(r) <= multiset(s)
    ensures n >= |s| ==> multiset(r) == multiset(s)
    ensures forall x, y :: x in multiset(s) - multiset(r) && y in r ==> key(x) <= key(y)
  {
    var t := SortDesc(s, key);
    var k := if |s| < n then |s| else n;
    SortedPrefix(s, t, k, key);
    t[..k]
  }

  /** Every row `Top` keeps is a row of the table. */
  lemma TopMembers<T>(s: seq<T>, n: nat, key: T -> int)
    ensures forall y :: y in Top(s, n, key) ==> y in s
  {
    var r := Top(s, n, key);
    forall y | y in r ensures y in s {
      assert y in multiset(r);
    }
  }

  /** A row of the table that `Top` leaves out has a key no larger than any kept row. */
  lemma TopOmitted<T>(s: seq<T>, n: nat, key: T -> int)
    ensures forall j :: 0 <= j < |s| && s[j] !in Top(s, n, key) ==>
      forall y :: y in Top(s, n, key) ==> key(s[j]) <= key(y)
  {
    var r := Top(s, n, key);
    forall j | 0 <= j < |s| && s[j] !in r ensures forall y :: y in r ==> key(s[j]) <= key(y) {
      assert s[j] in multiset(s) - multiset(r);
    }
  }
}
