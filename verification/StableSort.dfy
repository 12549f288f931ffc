/** std::list::sort: a stable sort by a strict order, and sequences of distinct keys. */
module StableSort {
  /** Puts x before the first item it is less than or ties with. */
  function Insert<T>(less: (T, T) -> bool, x: T, s: seq<T>): (r: seq<T>)
    ensures multiset(r) == multiset{x} + multiset(s)
    ensures |r| == |s| + 1
  {
    if |s| == 0 then [x]
    else if less(s[0], x) then
      assert s == [s[0]] + s[1..];
      [s[0]] + Insert(less, x, s[1..])
    else [x] + s
  }

  function Sort<T>(less: (T, T) -> bool, s: seq<T>): (r: seq<T>)
    ensures multiset(r) == multiset(s)
    ensures |r| == |s|
  {
    if |s| == 0 then []
    else
      assert s == [s[0]] + s[1..];
      Insert(less, s[0], Sort(less, s[1..]))
  }

  lemma SortOne<T>(less: (T, T) -> bool, x: T)
    ensures Sort(less, [x]) == [x]
  {
    assert [x][1..] == [];
  }

  lemma SameItem<T>(less: (T, T) -> bool, s: seq<T>, x: T)
    ensures x in Sort(less, s) <==> x in s
  {
    assert x in Sort(less, s) <==> x in multiset(Sort(less, s));
    assert x in s <==> x in multiset(s);
  }

  ghost predicate Sorted<T>(less: (T, T) -> bool, s: seq<T>) {
    forall i, j :: 0 <= i < j < |s| ==> !less(s[j], s[i])
  }

  /** less is the strict part of a total preorder. */
  ghost predicate Preorder<T(!new)>(less: (T, T) -> bool) {
    && (forall x, y :: less(x, y) ==> !less(y, x))
    && (forall x, y, z :: !less(x, y) && !less(y, z) ==> !less(x, z))
  }

  lemma {:induction false} InsertSorts<T(!new)>(less: (T, T) -> bool, x: T, s: seq<T>)
    requires Preorder(less) && Sorted(less, s)
    ensures Sorted(less, Insert(less, x, s))
  {
    if |s| > 0 && less(s[0], x) {
      InsertSorts(less, x, s[1..]);
      var r := Insert(less, x, s[1..]);
      forall j | 0 <= j < |r|
        ensures !less(r[j], s[0])
      {
        assert r[j] in multiset(r);
        assert r[j] == x || r[j] in s[1..];
      }
    } else if |s| > 0 {
      assert !less(s[0], x);
      forall j | 0 <= j < |s|
        ensures !less(s[j], x)
      {
        assert j == 0 || !less(s[j], s[0]);
      }
    }
  }

  lemma {:induction false} SortSorts<T(!new)>(less: (T, T) -> bool, s: seq<T>)
    requires Preorder(less)
    ensures Sorted(less, Sort(less, s))
  {
    if |s| == 0 {
    } else {
      SortSorts(less, s[1..]);
      InsertSorts(less, s[0], Sort(less, s[1..]));
    }
  }

  predicate Tied<T>(less: (T, T) -> bool, x: T, y: T) { !less(x, y) && !less(y, x) }

  /** The items of s that tie with x, in their order. */
  function Ties<T>(less: (T, T) -> bool, x: T, s: seq<T>): seq<T> {
    if |s| == 0 then [] else (if Tied(less, x, s[0]) then [s[0]] else []) + Ties(less, x, s[1..])
  }

  lemma {:induction false} InsertKeepsTies<T(!new)>(less: (T, T) -> bool, x: T, a: T, s: seq<T>)
    requires Preorder(less)
    ensures Ties(less, x, Insert(less, a, s)) == (if Tied(less, x, a) then [a] else []) + Ties(less, x, s)
  {
    if |s| > 0 && less(s[0], a) {
      LessIsNotTied(less, x, a, s[0]);
      hide Preorder, Tied;
      InsertKeepsTies(less, x, a, s[1..]);
      assert Insert(less, a, s)[1..] == Insert(less, a, s[1..]);
    } else {
      assert ([a] + s)[1..] == s;
    }
  }

  lemma LessIsNotTied<T(!new)>(less: (T, T) -> bool, x: T, a: T, y: T)
    requires Preorder(less) && less(y, a)
    ensures !Tied(less, x, a) || !Tied(less, x, y)
  {
  }

  /** The sort is stable: items that tie keep their order. */
  lemma {:induction false} SortIsStable<T(!new)>(less: (T, T) -> bool, x: T, s: seq<T>)
    requires Preorder(less)
    ensures Ties(less, x, Sort(less, s)) == Ties(less, x, s)
  {
    if |s| == 0 {
    } else {
      SortIsStable(less, x, s[1..]);
      InsertKeepsTies(less, x, s[0], Sort(less, s[1..]));
    }
  }

  predicate Distinct<T>(key: T -> int, s: seq<T>) {
    forall i, j :: 0 <= i < j < |s| ==> key(s[i]) != key(s[j])
  }

  lemma {:induction false} InsertDistinct<T>(less: (T, T) -> bool, key: T -> int, x: T, s: seq<T>)
    requires Distinct(key, s) && forall k :: 0 <= k < |s| ==> key(s[k]) != key(x)
    ensures Distinct(key, Insert(less, x, s))
  {
    if |s| > 0 && less(s[0], x) {
      InsertDistinct(less, key, x, s[1..]);
      var r := Insert(less, x, s[1..]);
      forall j | 0 <= j < |r|
        ensures key(r[j]) != key(s[0])
      {
        assert r[j] in multiset(r);
        assert r[j] == x || r[j] in s[1..];
      }
    }
  }

  lemma {:induction false} SortDistinct<T>(less: (T, T) -> bool, key: T -> int, s: seq<T>)
    requires Distinct(key, s)
    ensures Distinct(key, Sort(less, s))
  {
    if |s| == 0 {
    } else {
      var r := Sort(less, s[1..]);
      SortDistinct(less, key, s[1..]);
      forall k | 0 <= k < |r|
        ensures key(r[k]) != key(s[0])
      {
        SameItem(less, s[1..], r[k]);
        var j :| 0 <= j < |s[1..]| && s[1..][j] == r[k];
        assert s[1..][j] == s[j + 1];
      }
      InsertDistinct(less, key, s[0], r);
    }
  }

  /** The first item with the key, as the source's search loops find it. */
  function Find<T>(key: T -> int, s: seq<T>, k: int): (i: nat)
    ensures i <= |s|
    ensures i < |s| ==> key(s[i]) == k
    ensures forall j :: 0 <= j < i ==> key(s[j]) != k
  {
    if |s| == 0 || key(s[0]) == k then 0 else 1 + Find(key, s[1..], k)
  }

  lemma FindIs<T>(key: T -> int, s: seq<T>, i: nat)
    requires i < |s| && Distinct(key, s)
    ensures Find(key, s, key(s[i])) == i
  {
  }

  lemma EraseDistinct<T>(key: T -> int, s: seq<T>, i: nat)
    requires i < |s| && Distinct(key, s)
    ensures Distinct(key, s[..i] + s[i + 1..])
    ensures forall x :: x in s[..i] + s[i + 1..] <==> x in s && key(x) != key(s[i])
  {
    var r := s[..i] + s[i + 1..];
    forall x
      ensures x in r <==> x in s && key(x) != key(s[i])
    {
      if x in s && key(x) != key(s[i]) {
        var j :| 0 <= j < |s| && s[j] == x;
        assert r[if j < i then j else j - 1] == x;
      }
      if x in r {
        var j :| 0 <= j < |r| && r[j] == x;
        assert x == s[if j < i then j else j + 1];
      }
    }
  }

  lemma UpdateDistinct<T>(key: T -> int, s: seq<T>, i: nat, x: T)
    requires i < |s| && Distinct(key, s) && key(x) == key(s[i])
    ensures Distinct(key, s[i := x])
    ensures forall y :: y in s[i := x] <==> y == x || (y in s && key(y) != key(x))
  {
    var r := s[i := x];
    forall y
      ensures y in r <==> y == x || (y in s && key(y) != key(x))
    {
      if y in s && key(y) != key(x) {
        var j :| 0 <= j < |s| && s[j] == y;
        assert r[j] == y;
      }
      assert r[i] == x;
    }
  }
}
