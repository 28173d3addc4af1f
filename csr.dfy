/** The compressed layout compile ends with: the per-processor lists of the partition
    laid end to end in single vectors, with offset vectors saying where each
    processor's part, and each operation's part, begins. */
module Csr {
  import opened Seqs

  /** The start offset of each list: the prefix sums without the final total. */
  function Starts(s: seq<nat>): (r: seq<nat>)
    ensures |r| == |s|
  {
    PrefixSums(s)[..|s|]
  }

  lemma StartsSnoc(s: seq<nat>, x: nat)
    ensures Starts(s + [x]) == Starts(s) + [Sum(s)]
    ensures Sum(s + [x]) == Sum(s) + x
  {
    assert (s + [x])[..|s|] == s;
    forall i | 0 <= i < |s| ensures (s + [x])[..i] == s[..i] {
    }
  }

  lemma StartsTotal(s: seq<nat>)
    ensures Starts(s) + [Sum(s)] == PrefixSums(s)
  {
    assert s[..|s|] == s;
  }

  lemma ConcatSnoc<T>(ss: seq<seq<T>>, x: seq<T>)
    ensures Concat(ss + [x]) == Concat(ss) + x
    ensures Lengths(ss + [x]) == Lengths(ss) + [|x|]
  {
    assert (ss + [x])[..|ss|] == ss;
  }

  /** Appending `items` one at a time. */
  method AppendAll<T>(flat: seq<T>, items: seq<T>) returns (flat': seq<T>)
    ensures flat' == flat + items
  {
    flat' := flat;
    for m := 0 to |items|
      invariant flat' == flat + items[..m]
    {
      assert items[..m + 1] == items[..m] + [items[m]];
      flat' := flat' + [items[m]];
    }
    assert items[..|items|] == items;
  }

  /** compile's one-level flattening (operations, preconditions): each processor's list
      appended in processor order, with the running count recorded before each
      processor and once more at the end. */
  method FlattenOne<T>(ss: seq<seq<T>>) returns (flat: seq<T>, offsets: seq<nat>)
    ensures flat == Concat(ss)
    ensures offsets == PrefixSums(Lengths(ss))
  {
    flat, offsets := [], [];
    var count: nat := 0;
    for i := 0 to |ss|
      invariant flat == Concat(ss[..i]) && count == |flat|
      invariant offsets == Starts(Lengths(ss[..i])) && count == Sum(Lengths(ss[..i]))
    {
      assert ss[..i + 1] == ss[..i] + [ss[i]];
      ConcatSnoc(ss[..i], ss[i]);
      StartsSnoc(Lengths(ss[..i]), |ss[i]|);
      offsets := offsets + [count];
      flat := AppendAll(flat, ss[i]);
      count := count + |ss[i]|;
    }
    assert ss[..|ss|] == ss;
    StartsTotal(Lengths(ss));
    offsets := offsets + [count];
  }

  /** The operations done after `j` operations of processor `i`. */
  function Done<T>(sss: seq<seq<seq<T>>>, i: nat, j: nat): seq<seq<T>>
    requires i < |sss| && j <= |sss[i]|
  {
    Concat(sss[..i]) + sss[i][..j]
  }

  lemma DoneStep<T>(sss: seq<seq<seq<T>>>, i: nat, j: nat)
    requires i < |sss| && j < |sss[i]|
    ensures Done(sss, i, j + 1) == Done(sss, i, j) + [sss[i][j]]
  {
    assert sss[i][..j + 1] == sss[i][..j] + [sss[i][j]];
  }

  /** The state of the two-level flattening after the operations in `done`. */
  ghost predicate TwoLevel<T>(done: seq<seq<T>>, taskOffsets: seq<nat>, flat: seq<T>, procCount: nat, taskCount: nat)
  {
    && procCount == |done|
    && taskOffsets == Starts(Lengths(done))
    && flat == Concat(done)
    && taskCount == |flat| == Sum(Lengths(done))
  }

  lemma TwoLevelStep<T>(done: seq<seq<T>>, taskOffsets: seq<nat>, flat: seq<T>, procCount: nat, taskCount: nat, op: seq<T>)
    requires TwoLevel(done, taskOffsets, flat, procCount, taskCount)
    ensures TwoLevel(done + [op], taskOffsets + [taskCount], flat + op, procCount + 1, taskCount + |op|)
  {
    ConcatSnoc(done, op);
    StartsSnoc(Lengths(done), |op|);
  }

  /** compile's two-level flattening (completion infos, interpolations): per processor
      the count of operations so far, per operation the count of items so far, and the
      items themselves; both offset vectors end with their total. */
  method FlattenTwo<T>(sss: seq<seq<seq<T>>>) returns (procOffsets: seq<nat>, taskOffsets: seq<nat>, flat: seq<T>)
    ensures procOffsets == PrefixSums(Lengths(sss))
    ensures taskOffsets == PrefixSums(Lengths(Concat(sss)))
    ensures flat == Concat(Concat(sss))
  {
    procOffsets, taskOffsets, flat := [], [], [];
    var procCount: nat, taskCount: nat := 0, 0;
    for i := 0 to |sss|
      invariant procOffsets == Starts(Lengths(sss[..i])) && procCount == Sum(Lengths(sss[..i]))
      invariant TwoLevel(Concat(sss[..i]), taskOffsets, flat, procCount, taskCount)
    {
      assert sss[..i + 1] == sss[..i] + [sss[i]];
      ConcatSnoc(sss[..i], sss[i]);
      StartsSnoc(Lengths(sss[..i]), |sss[i]|);
      ConcatLength(sss[..i]);
      procOffsets := procOffsets + [procCount];
      procCount, taskOffsets, flat, taskCount := FlattenProc(sss, i, procCount, taskOffsets, flat, taskCount);
    }
    assert sss[..|sss|] == sss;
    StartsTotal(Lengths(sss));
    StartsTotal(Lengths(Concat(sss)));
    procOffsets := procOffsets + [procCount];
    taskOffsets := taskOffsets + [taskCount];
  }

  /** The operations of processor `i` in the two-level flattening. */
  method FlattenProc<T>(sss: seq<seq<seq<T>>>, i: nat, procCount: nat, taskOffsets: seq<nat>, flat: seq<T>, taskCount: nat)
    returns (procCount': nat, taskOffsets': seq<nat>, flat': seq<T>, taskCount': nat)
    requires i < |sss| && TwoLevel(Concat(sss[..i]), taskOffsets, flat, procCount, taskCount)
    ensures TwoLevel(Concat(sss[..i]) + sss[i], taskOffsets', flat', procCount', taskCount')
  {
    procCount', taskOffsets', flat', taskCount' := procCount, taskOffsets, flat, taskCount;
    assert Done(sss, i, 0) == Concat(sss[..i]) by {
      assert sss[i][..0] == [];
    }
    for j := 0 to |sss[i]|
      invariant TwoLevel(Done(sss, i, j), taskOffsets', flat', procCount', taskCount')
    {
      TwoLevelStep(Done(sss, i, j), taskOffsets', flat', procCount', taskCount', sss[i][j]);
      DoneStep(sss, i, j);
      taskOffsets' := taskOffsets' + [taskCount'];
      procCount' := procCount' + 1;
      flat' := AppendAll(flat', sss[i][j]);
      taskCount' := taskCount' + |sss[i][j]|;
    }
    assert sss[i][..|sss[i]|] == sss[i];
  }

  // ---------------------------------------------------------------------------
  // Reading the layout back

  /** Lists of equal lengths give equal offset vectors: the operation, completion,
      interpolation and precondition offsets per processor coincide. */
  lemma SameShapeSameOffsets<A, B>(xs: seq<seq<A>>, ys: seq<seq<B>>)
    requires |xs| == |ys| && forall q :: 0 <= q < |xs| ==> |xs[q]| == |ys[q]|
    ensures PrefixSums(Lengths(xs)) == PrefixSums(Lengths(ys))
  {
    assert Lengths(xs) == Lengths(ys);
  }

  /** The j-th entry of processor p sits at offset p plus j. */
  lemma OneLevelAt<T>(ss: seq<seq<T>>, p: nat, j: nat)
    requires p < |ss| && j < |ss[p]|
    ensures PrefixSums(Lengths(ss))[p] + j < PrefixSums(Lengths(ss))[p + 1]
    ensures PrefixSums(Lengths(ss))[p] + j < |Concat(ss)|
    ensures Concat(ss)[PrefixSums(Lengths(ss))[p] + j] == ss[p][j]
  {
    ConcatAt(ss, p, j);
    NextOffset(Lengths(ss), p);
  }

  lemma NextOffset(s: seq<nat>, p: nat)
    requires p < |s|
    ensures PrefixSums(s)[p + 1] == PrefixSums(s)[p] + s[p]
  {
    var r := PrefixSums(s);
    SumMonotone(s, p, p);
    assert r[p] == Sum(s[..p]) && r[p + 1] == Sum(s[..p + 1]);
  }

  /** The m-th item of operation j of processor p sits at the task offset found at the
      processor offset of p plus j, plus m. */
  lemma TwoLevelAt<T>(sss: seq<seq<seq<T>>>, p: nat, j: nat, m: nat)
    requires p < |sss| && j < |sss[p]| && m < |sss[p][j]|
    ensures PrefixSums(Lengths(sss))[p] + j < |Concat(sss)|
    ensures var c := PrefixSums(Lengths(sss))[p] + j;
            PrefixSums(Lengths(Concat(sss)))[c] + m < |Concat(Concat(sss))| &&
            Concat(Concat(sss))[PrefixSums(Lengths(Concat(sss)))[c] + m] == sss[p][j][m]
  {
    var ops := Concat(sss);
    var c := PrefixSums(Lengths(sss))[p] + j;
    OneLevelAt(sss, p, j);
    assert c < |ops| && ops[c] == sss[p][j];
    OneLevelAt(ops, c, m);
  }

  /** The last offset is the total number of entries. */
  lemma LastOffset<T>(ss: seq<seq<T>>)
    ensures PrefixSums(Lengths(ss))[|ss|] == |Concat(ss)|
  {
    ConcatLength(ss);
    assert Lengths(ss)[..|ss|] == Lengths(ss);
  }
}
