/** Small facts about sequences and sets that the compile proofs share. */
module Seqs {

  /** No element occurs twice. */
  ghost predicate Distinct<T>(s: seq<T>)
  {
    forall i, j :: 0 <= i < j < |s| ==> s[i] != s[j]
  }

  /** The elements of a duplicate-free sequence form a set of the same size. */
  lemma {:induction false} DistinctCard<T>(s: seq<T>)
    requires Distinct(s)
    ensures |set i | 0 <= i < |s| :: s[i]| == |s|
  {
    if s != [] {
      var rest := set i | 0 <= i < |s| - 1 :: s[1..][i];
      DistinctCard(s[1..]);
      assert (set i | 0 <= i < |s| :: s[i]) == {s[0]} + rest by {
        forall x | x in (set i | 0 <= i < |s| :: s[i]) ensures x in {s[0]} + rest {
          var i :| 0 <= i < |s| && s[i] == x;
          if i > 0 { assert s[1..][i - 1] == x; }
        }
      }
      assert s[0] !in rest;
    }
  }

  /** A sequence longer than the set that holds all its elements repeats one. */
  lemma {:induction false} Pigeonhole<T>(s: seq<T>, S: set<T>)
    requires forall i :: 0 <= i < |s| ==> s[i] in S
    requires |s| > |S|
    ensures exists i, j :: 0 <= i < j < |s| && s[i] == s[j]
  {
    if exists j :: 1 <= j < |s| && s[j] == s[0] {
      var j :| 1 <= j < |s| && s[j] == s[0];
      assert 0 < j && s[0] == s[j];
    } else {
      var t := s[1..];
      forall i | 0 <= i < |t| ensures t[i] in S - {s[0]} {
        assert t[i] == s[i + 1];
      }
      Pigeonhole(t, S - {s[0]});
      var i, j :| 0 <= i < j < |t| && t[i] == t[j];
      assert s[i + 1] == s[j + 1];
    }
  }

  /** The integers 0 .. n-1 as a set. */
  function Range(n: nat): (r: set<nat>)
    ensures forall x: int :: x in r <==> 0 <= x < n
    ensures |r| == n
  {
    if n == 0 then {} else
      var r := Range(n - 1) + {n - 1};
      assert n - 1 !in Range(n - 1);
      r
  }

  /** The sum of a sequence of naturals. */
  function Sum(s: seq<nat>): nat
  {
    if s == [] then 0 else Sum(s[..|s| - 1]) + s[|s| - 1]
  }

  /** Prefix sums: the i-th entry is the sum of the first i entries of `s`, and one more
      entry at the end holds the total. */
  function PrefixSums(s: seq<nat>): (r: seq<nat>)
    ensures |r| == |s| + 1
    ensures forall i {:trigger r[i]} :: 0 <= i <= |s| ==> r[i] == Sum(s[..i])
  {
    if s == [] then [0] else
      var r := PrefixSums(s[..|s| - 1]);
      assert s[..|s|] == s;
      assert forall i :: 0 <= i < |s| ==> s[..|s| - 1][..i] == s[..i];
      r + [Sum(s)]
  }

  lemma {:induction false} SumMonotone(s: seq<nat>, i: nat, j: nat)
    requires i <= j <= |s|
    ensures Sum(s[..i]) <= Sum(s[..j])
    ensures j < |s| ==> Sum(s[..j + 1]) == Sum(s[..j]) + s[j]
    decreases j - i
  {
    if j < |s| {
      assert s[..j + 1][..j] == s[..j];
    }
    if i < j {
      SumMonotone(s, i, j - 1);
      assert s[..j][..j - 1] == s[..j - 1];
    }
  }

  /** Sequences equal except one entry larger by one sum to one more. */
  lemma {:induction false} SumBump(a: seq<nat>, b: seq<nat>, p: nat)
    requires |a| == |b| && p < |a| && b[p] == a[p] + 1
    requires forall q :: 0 <= q < |a| && q != p ==> b[q] == a[q]
    ensures Sum(b) == Sum(a) + 1
  {
    var n := |a| - 1;
    if p < n {
      SumBump(a[..n], b[..n], p);
    } else {
      assert a[..n] == b[..n];
    }
  }

  /** A sequence of zeros sums to zero. */
  lemma {:induction false} SumZero(s: seq<nat>)
    requires forall q :: 0 <= q < |s| ==> s[q] == 0
    ensures Sum(s) == 0
  {
    if s != [] {
      SumZero(s[..|s| - 1]);
    }
  }

  /** Concatenation of a sequence of sequences. */
  function Concat<T>(ss: seq<seq<T>>): seq<T>
  {
    if ss == [] then [] else Concat(ss[..|ss| - 1]) + ss[|ss| - 1]
  }

  /** The lengths of the inner sequences. */
  function Lengths<T>(ss: seq<seq<T>>): (r: seq<nat>)
    ensures |r| == |ss|
    ensures forall i :: 0 <= i < |ss| ==> r[i] == |ss[i]|
  {
    seq(|ss|, i requires 0 <= i < |ss| => |ss[i]|)
  }

  /** Concatenation places the m-th element of the i-th list at the i-th prefix sum plus m. */
  lemma {:induction false} ConcatAt<T>(ss: seq<seq<T>>, i: nat, m: nat)
    requires i < |ss| && m < |ss[i]|
    ensures |Concat(ss)| == Sum(Lengths(ss))
    ensures Sum(Lengths(ss)[..i]) + m < |Concat(ss)|
    ensures Concat(ss)[Sum(Lengths(ss)[..i]) + m] == ss[i][m]
  {
    ConcatLength(ss);
    var n := |ss| - 1;
    var init := ss[..n];
    assert Lengths(ss)[..n] == Lengths(init);
    ConcatLength(init);
    assert Lengths(ss)[..|Lengths(ss)|] == Lengths(ss);
    if i < n {
      ConcatAt(init, i, m);
      assert Lengths(ss)[..i] == Lengths(init)[..i];
      SumMonotone(Lengths(ss), i + 1, n);
      SumMonotone(Lengths(ss), i, i + 1);
    } else {
      assert Lengths(ss)[..i] == Lengths(init);
    }
  }

  lemma {:induction false} ConcatLength<T>(ss: seq<seq<T>>)
    ensures |Concat(ss)| == Sum(Lengths(ss))
  {
    if ss != [] {
      var n := |ss| - 1;
      ConcatLength(ss[..n]);
      assert Lengths(ss)[..n] == Lengths(ss[..n]);
    }
  }

  /** A subset is no larger than its superset. */
  lemma SubsetCard<T>(A: set<T>, B: set<T>)
    requires A <= B
    ensures |A| <= |B|
  {
    assert B == A + (B - A);
  }

  /** How many elements satisfy `p`. */
  function Count<T>(s: seq<T>, p: T -> bool): (n: nat)
    ensures n <= |s|
  {
    if s == [] then 0 else Count(s[..|s| - 1], p) + (if p(s[|s| - 1]) then 1 else 0)
  }

  /** When the elements satisfying `p` form a prefix, they are the first Count of them. */
  lemma {:induction false} PrefixCount<T>(s: seq<T>, p: T -> bool)
    requires forall i, j :: 0 <= i < j < |s| && p(s[j]) ==> p(s[i])
    ensures forall i :: 0 <= i < |s| ==> (p(s[i]) <==> i < Count(s, p))
  {
    if s != [] {
      var n := |s| - 1;
      assert forall i :: 0 <= i < n ==> s[..n][i] == s[i];
      PrefixCount(s[..n], p);
    }
  }

  /** When the elements satisfying `p` are exactly those at lo .. hi-1, there are hi - lo. */
  lemma {:induction false} CountBlock<T>(s: seq<T>, p: T -> bool, lo: nat, hi: nat)
    requires lo <= hi <= |s|
    requires forall i :: 0 <= i < |s| ==> (p(s[i]) <==> lo <= i < hi)
    ensures Count(s, p) == hi - lo
  {
    if s != [] {
      var n := |s| - 1;
      assert forall i :: 0 <= i < n ==> s[..n][i] == s[i];
      if hi == |s| && lo < hi {
        CountBlock(s[..n], p, lo, n);
      } else {
        CountBlock(s[..n], p, if lo <= n then lo else n, if hi <= n then hi else n);
      }
    }
  }
}
