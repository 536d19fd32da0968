/**
 * The ORDER BY clauses of the board's queries. SQL promises only that the
 * rows come out sorted by the key and are exactly the selected rows; the
 * order among rows with equal keys is unspecified. SortDesc is one sort
 * that keeps both promises, and every listing in the model is stated
 * through those two properties alone.
 */
module Ordering {

  /** A two-column key compared lexicographically: `ORDER BY major DESC, minor DESC`. */
  datatype Key = Key(major: int, minor: int)

  /** `a` may come before `b` in a descending order. */
  predicate AtLeast(a: Key, b: Key) {
    a.major > b.major || (a.major == b.major && a.minor >= b.minor)
  }

  /** Every row comes no later than any row with a larger key. */
  predicate SortedDesc<T>(s: seq<T>, key: T -> Key) {
    forall i, j :: 0 <= i < j < |s| ==> AtLeast(key(s[i]), key(s[j]))
  }

  /** Insert `x` into the descending sequence `s`, before the first row it is at least. */
  function Insert<T(==)>(x: T, s: seq<T>, key: T -> Key): (r: seq<T>)
    requires SortedDesc(s, key)
    ensures |r| == |s| + 1
    ensures multiset(r) == multiset(s) + multiset{x}
    ensures forall i :: 0 <= i < |r| ==> r[i] == x || r[i] in s
    ensures SortedDesc(r, key)
  {
    if s == [] || AtLeast(key(x), key(s[0])) then [x] + s
    else
      var rest := Insert(x, s[1..], key);
      HeadBound(x, s, rest, key);
      ConsSorted(s[0], rest, key);
      ConsMembers(x, s, rest);
      [s[0]] + rest
  }

  /** The head of a descending sequence is at least anything inserted behind it. */
  lemma HeadBound<T>(x: T, s: seq<T>, rest: seq<T>, key: T -> Key)
    requires SortedDesc(s, key) && s != [] && !AtLeast(key(x), key(s[0]))
    requires forall i :: 0 <= i < |rest| ==> rest[i] == x || rest[i] in s[1..]
    ensures forall i :: 0 <= i < |rest| ==> AtLeast(key(s[0]), key(rest[i]))
  {
    forall i | 0 <= i < |rest|
      ensures AtLeast(key(s[0]), key(rest[i]))
    {
      if rest[i] != x {
        var j :| 0 <= j < |s[1..]| && s[1..][j] == rest[i];
        assert s[j + 1] == rest[i];
      }
    }
  }

  /** Putting the head of `s` back in front of `rest`, which is the tail of `s` plus `x`. */
  lemma ConsMembers<T>(x: T, s: seq<T>, rest: seq<T>)
    requires s != []
    requires multiset(rest) == multiset(s[1..]) + multiset{x}
    requires forall i :: 0 <= i < |rest| ==> rest[i] == x || rest[i] in s[1..]
    ensures multiset([s[0]] + rest) == multiset(s) + multiset{x}
    ensures forall i :: 0 <= i < |[s[0]] + rest| ==> ([s[0]] + rest)[i] == x || ([s[0]] + rest)[i] in s
  {
    assert s == [s[0]] + s[1..];
    var r := [s[0]] + rest;
    forall i | 0 <= i < |r|
      ensures r[i] == x || r[i] in s
    {
      if i > 0 {
        assert r[i] == rest[i - 1];
      }
    }
  }

  /** A row at least every row of a descending sequence can go in front of it. */
  lemma ConsSorted<T>(h: T, rest: seq<T>, key: T -> Key)
    requires SortedDesc(rest, key)
    requires forall i :: 0 <= i < |rest| ==> AtLeast(key(h), key(rest[i]))
    ensures SortedDesc([h] + rest, key)
  {
    var r := [h] + rest;
    forall i, j | 0 <= i < j < |r|
      ensures AtLeast(key(r[i]), key(r[j]))
    {
      assert r[j] == rest[j - 1];
      if i > 0 {
        assert r[i] == rest[i - 1];
      }
    }
  }

  /** The rows of `s` in descending key order (an insertion sort). */
  function SortDesc<T(==)>(s: seq<T>, key: T -> Key): (r: seq<T>)
    ensures |r| == |s|
    ensures multiset(r) == multiset(s)
    ensures SortedDesc(r, key)
  {
    if s == [] then []
    else
      assert s == [s[0]] + s[1..];
      Insert(s[0], SortDesc(s[1..], key), key)
  }

  /** A sorted permutation of `s` has exactly the members of `s`. */
  lemma SortDescMembers<T>(s: seq<T>, key: T -> Key, x: T)
    ensures x in SortDesc(s, key) <==> x in s
  {
    var r := SortDesc(s, key);
    assert x in r <==> x in multiset(r);
    assert x in s <==> x in multiset(s);
  }
}
