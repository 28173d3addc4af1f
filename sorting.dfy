/** Sorting by a two-part key, as compile does twice with std::sort: the precondition
    pairs of each schedule entry, and the interpolation rules by (operation kind,
    operation index). */
module Sorting {

  /** A sort key, compared lexicographically. */
  datatype Key = Key(major: int, minor: int)

  predicate KeyLess(a: Key, b: Key)
  {
    a.major < b.major || (a.major == b.major && a.minor < b.minor)
  }

  /** Lexicographic comparison is a strict total order on keys. */
  lemma KeyLessTotal(a: Key, b: Key, c: Key)
    ensures !KeyLess(a, a)
    ensures KeyLess(a, b) && KeyLess(b, c) ==> KeyLess(a, c)
    ensures KeyLess(a, b) || KeyLess(b, a) || a == b
  {
  }

  /** No element is followed by one with a smaller key. */
  ghost predicate SortedBy<T>(s: seq<T>, key: T -> Key)
  {
    forall i, j :: 0 <= i < j < |s| ==> !KeyLess(key(s[j]), key(s[i]))
  }

  /** Every element's key is strictly below the next one's. */
  ghost predicate StrictlySortedBy<T>(s: seq<T>, key: T -> Key)
  {
    forall i, j :: 0 <= i < j < |s| ==> KeyLess(key(s[i]), key(s[j]))
  }

  /** Inserting into a sorted sequence after every element with a key not above
      the new one's. */
  function InsertBy<T>(x: T, s: seq<T>, key: T -> Key): (r: seq<T>)
    requires SortedBy(s, key)
    ensures SortedBy(r, key)
    ensures multiset(r) == multiset(s) + multiset{x}
  {
    if s == [] then [x]
    else if KeyLess(key(x), key(s[0])) then [x] + s
    else
      var rest := InsertBy(x, s[1..], key);
      InsertAfterHead(x, s, rest, key);
      [s[0]] + rest
  }

  /** Keeping the head in front of the insertion into the tail keeps the order. */
  lemma InsertAfterHead<T>(x: T, s: seq<T>, rest: seq<T>, key: T -> Key)
    requires s != [] && SortedBy(s, key) && !KeyLess(key(x), key(s[0]))
    requires SortedBy(rest, key) && multiset(rest) == multiset(s[1..]) + multiset{x}
    ensures SortedBy([s[0]] + rest, key)
    ensures multiset([s[0]] + rest) == multiset(s) + multiset{x}
  {
    assert s == [s[0]] + s[1..];
    var r := [s[0]] + rest;
    forall j | 0 < j < |r| ensures !KeyLess(key(r[j]), key(r[0])) {
      assert r[j] == rest[j - 1];
      assert r[j] in multiset(rest);
      if r[j] != x {
        assert r[j] in multiset(s[1..]);
        var k :| 0 <= k < |s[1..]| && s[1..][k] == r[j];
        assert s[k + 1] == r[j];
      }
    }
    assert forall i, j :: 0 < i < j < |r| ==> r[i] == rest[i - 1] && r[j] == rest[j - 1];
  }

  /** Insertion sort: a sorted permutation of `s` (the model's stand-in for std::sort,
      which promises no more than that). */
  function SortBy<T>(s: seq<T>, key: T -> Key): (r: seq<T>)
    ensures SortedBy(r, key)
    ensures multiset(r) == multiset(s)
    ensures |r| == |s|
  {
    if s == [] then []
    else
      var n := |s| - 1;
      assert s == s[..n] + [s[n]];
      var r := InsertBy(s[n], SortBy(s[..n], key), key);
      assert |r| == |multiset(r)|;
      r
  }
}
