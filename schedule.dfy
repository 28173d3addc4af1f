/** The rest of compile's ordering phase: re-compacting the relaxed ranks onto
    0 .. total_ops-1, appending the external postconditions, and inverting the rank map
    into the schedule. */
module Schedule {
  import opened SubgraphDefs
  import opened Seqs
  import opened Toposort

  // ---------------------------------------------------------------------------
  // Compaction

  /** The operations ranked strictly below `k`. */
  function Lower(m: map<OpKey, nat>, k: OpKey): set<OpKey>
    requires k in m
  {
    set k' | k' in m.Keys && m[k'] < m[k]
  }

  /** The compacted rank of `k`: how many operations rank below it. */
  function Below(m: map<OpKey, nat>, k: OpKey): nat
    requires k in m
  {
    |Lower(m, k)|
  }

  /** The reference definition of compaction: every rank replaced by its position
      among all ranks. */
  function Compacted(m: map<OpKey, nat>): (c: map<OpKey, nat>)
    ensures c.Keys == m.Keys
  {
    map k | k in m :: Below(m, k)
  }

  /** The operations whose compacted rank is below `c`: those the first `c` rounds of
      compaction have renumbered. */
  ghost function Picked(m: map<OpKey, nat>, c: nat): set<OpKey>
  {
    set k | k in m.Keys && Below(m, k) < c
  }

  /** Distinct keys have distinct images. */
  lemma {:induction false} InjectiveImageCard(m: map<OpKey, nat>, S: set<OpKey>)
    requires S <= m.Keys && Injective(m)
    ensures |set k | k in S :: m[k]| == |S|
    decreases S
  {
    if S != {} {
      var x :| x in S;
      InjectiveImageCard(m, S - {x});
      assert (set k | k in S :: m[k]) == (set k | k in S - {x} :: m[k]) + {m[x]};
    }
  }

  /** A rank is at least the number of distinct ranks below it. */
  lemma BelowAtMostRank(m: map<OpKey, nat>, k: OpKey)
    requires k in m && Injective(m)
    ensures Below(m, k) <= m[k]
  {
    var S := Lower(m, k);
    InjectiveImageCard(m, S);
    SubsetCard(set k' | k' in S :: m[k'], Range(m[k]));
  }

  /** Compaction keeps the order of ranks. */
  lemma BelowMonotone(m: map<OpKey, nat>, a: OpKey, b: OpKey)
    requires a in m && b in m && m[a] < m[b]
    ensures Below(m, a) < Below(m, b)
  {
    assert Lower(m, a) <= Lower(m, b);
    assert a in Lower(m, b) - Lower(m, a);
    assert Lower(m, b) == Lower(m, a) + (Lower(m, b) - Lower(m, a));
  }

  /** A compacted rank is below the number of operations. */
  lemma BelowBounded(m: map<OpKey, nat>, k: OpKey)
    requires k in m
    ensures Below(m, k) < |m.Keys|
  {
    SubsetCard(Lower(m, k), m.Keys - {k});
  }

  /** Among the operations not yet renumbered, the one with the least rank has
      compacted rank `c`. */
  lemma {:induction false} LeastUnpickedIsNext(m: map<OpKey, nat>, c: nat, best: OpKey)
    requires Injective(m) && best in m && Below(m, best) >= c
    requires forall k :: k in m && Below(m, k) >= c ==> m[best] <= m[k]
    requires |Picked(m, c)| == c
    ensures Below(m, best) == c
  {
    forall k | k in Picked(m, c) ensures k in Lower(m, best) {
      if m[k] >= m[best] {
        if k != best {
          BelowMonotone(m, best, k);
        }
      }
    }
    assert Lower(m, best) == Picked(m, c);
  }

  /** An operation with the least rank in a nonempty set of operations. */
  lemma {:induction false} LeastOf(m: map<OpKey, nat>, S: set<OpKey>) returns (best: OpKey)
    requires S != {} && S <= m.Keys
    ensures best in S && forall k :: k in S ==> m[best] <= m[k]
    decreases S
  {
    var x :| x in S;
    if S == {x} {
      best := x;
    } else {
      var rest := LeastOf(m, S - {x});
      best := if m[x] <= m[rest] then x else rest;
    }
  }

  /** While fewer than all operations are renumbered, one with the least rank among
      the rest exists. */
  lemma LeastUnpicked(m: map<OpKey, nat>, c: nat) returns (best: OpKey)
    requires |Picked(m, c)| == c < |m.Keys|
    ensures best in m && Below(m, best) >= c
    ensures forall k :: k in m && Below(m, k) >= c ==> m[best] <= m[k]
  {
    var unpicked := m.Keys - Picked(m, c);
    assert |unpicked| > 0;
    best := LeastOf(m, unpicked);
  }

  /** The operation with compacted rank `c` is the one renumbered in round `c`. */
  lemma PickedStep(m: map<OpKey, nat>, c: nat, best: OpKey)
    requires Injective(m) && best in m && Below(m, best) == c
    ensures Picked(m, c + 1) == Picked(m, c) + {best} && best !in Picked(m, c)
  {
    forall k | k in Picked(m, c + 1) && k != best ensures k in Picked(m, c) {
      if m[k] < m[best] { BelowMonotone(m, k, best); } else { BelowMonotone(m, best, k); }
    }
  }

  /** Exactly `c` operations have compacted rank below `c`. */
  lemma {:induction false} PickedCount(m: map<OpKey, nat>, c: nat)
    requires Injective(m) && c <= |m.Keys|
    ensures |Picked(m, c)| == c
  {
    if c > 0 {
      PickedCount(m, c - 1);
      var best := LeastUnpicked(m, c - 1);
      LeastUnpickedIsNext(m, c - 1, best);
      PickedStep(m, c - 1, best);
    }
  }

  /** Compaction keeps the order of ranks, in both directions. */
  lemma CompactedKeepsOrder(m: map<OpKey, nat>)
    requires Injective(m)
    ensures forall a, b :: a in m && b in m ==> (m[a] < m[b] <==> Compacted(m)[a] < Compacted(m)[b])
    ensures Injective(Compacted(m))
  {
    forall a, b | a in m && b in m
      ensures m[a] < m[b] <==> Compacted(m)[a] < Compacted(m)[b]
    {
      if m[a] < m[b] { BelowMonotone(m, a, b); }
      else if a != b { BelowMonotone(m, b, a); }
    }
  }

  /** Compaction keeps ranks distinct. */
  lemma CompactedInjective(m: map<OpKey, nat>)
    requires Injective(m)
    ensures Injective(Compacted(m))
  {
    CompactedKeepsOrder(m);
  }

  /** Compaction maps the operations onto exactly 0 .. |keys|-1. */
  lemma CompactedIsOnto(m: map<OpKey, nat>)
    requires Injective(m)
    ensures Compacted(m).Values == Range(|m.Keys|)
  {
    forall k | k in m ensures Compacted(m)[k] < |m.Keys| {
      BelowBounded(m, k);
    }
    forall v | v in Range(|m.Keys|) ensures v in Compacted(m).Values {
      HasCompactedRank(m, v);
    }
  }

  /** Some operation has compacted rank `v`, for every `v` below the number of operations. */
  lemma HasCompactedRank(m: map<OpKey, nat>, v: nat)
    requires Injective(m) && v < |m.Keys|
    ensures v in Compacted(m).Values
  {
    PickedCount(m, v);
    var k := LeastUnpicked(m, v);
    LeastUnpickedIsNext(m, v, k);
    assert Compacted(m)[k] == v;
  }

  /** compile's re-compaction loop: `total_ops` rounds, each finding the entry with the
      least rank not below `curval` and renumbering it `curval`. The entries are visited
      in map order, which `ks` lists. */
  method Compact(ks: seq<OpKey>, toposort0: map<OpKey, nat>) returns (toposort: map<OpKey, nat>)
    requires Distinct(ks) && (forall k :: k in toposort0 <==> k in ks) && Injective(toposort0)
    ensures toposort == Compacted(toposort0)
  {
    KeysListed(ks, toposort0);
    toposort := toposort0;
    var curval := 0;
    while curval < |ks|
      invariant curval <= |ks| && CompactedUpTo(toposort0, toposort, curval)
    {
      var best := FindLeast(ks, toposort, curval);
      CompactRound(ks, toposort0, toposort, curval, best);
      toposort := toposort[ks[best] := curval];
      curval := curval + 1;
    }
    CompactDone(toposort0, toposort);
  }

  /** The inner loop of a compaction round: the position in map order of the entry
      with the least rank not below `curval`, or -1 when there is none. */
  method FindLeast(ks: seq<OpKey>, m: map<OpKey, nat>, curval: nat) returns (best: int)
    requires forall i :: 0 <= i < |ks| ==> ks[i] in m
    ensures best == -1 ==> forall j :: 0 <= j < |ks| ==> m[ks[j]] < curval
    ensures best != -1 ==> 0 <= best < |ks| && m[ks[best]] >= curval
    ensures best != -1 ==> forall j :: 0 <= j < |ks| && m[ks[j]] >= curval ==> m[ks[best]] <= m[ks[j]]
  {
    best := -1;
    for i := 0 to |ks|
      invariant best == -1 || (0 <= best < |ks| && m[ks[best]] >= curval)
      invariant best == -1 ==> forall j :: 0 <= j < i ==> m[ks[j]] < curval
      invariant best != -1 ==> forall j :: 0 <= j < i && m[ks[j]] >= curval ==> m[ks[best]] <= m[ks[j]]
    {
      if m[ks[i]] >= curval && (best == -1 || m[ks[best]] > m[ks[i]]) {
        best := i;
      }
    }
  }

  /** A map whose keys a duplicate-free list enumerates has as many keys as the list. */
  lemma KeysListed(ks: seq<OpKey>, m: map<OpKey, nat>)
    requires Distinct(ks) && forall k :: k in m <==> k in ks
    ensures |m.Keys| == |ks|
  {
    DistinctCard(ks);
    assert m.Keys == set i | 0 <= i < |ks| :: ks[i];
  }

  /** After `|keys|` rounds every entry holds its compacted rank. */
  lemma CompactDone(m0: map<OpKey, nat>, m: map<OpKey, nat>)
    requires CompactedUpTo(m0, m, |m0.Keys|)
    ensures m == Compacted(m0)
  {
    forall k | k in m ensures m[k] == Below(m0, k) {
      BelowBounded(m0, k);
    }
  }

  /** After `c` rounds: the entries whose compacted rank is below `c` hold it, the
      others still hold their relaxed rank. */
  ghost predicate CompactedUpTo(m0: map<OpKey, nat>, m: map<OpKey, nat>, c: nat)
  {
    && m.Keys == m0.Keys
    && forall k :: k in m ==> m[k] == if Below(m0, k) < c then Below(m0, k) else m0[k]
  }

  /** One round of compaction finds an entry (the source asserts it), and that entry is
      the one whose compacted rank is `curval`. */
  lemma CompactRound(ks: seq<OpKey>, m0: map<OpKey, nat>, m: map<OpKey, nat>, curval: nat, best: int)
    requires Distinct(ks) && (forall k :: k in m0 <==> k in ks) && Injective(m0)
    requires |m0.Keys| == |ks| && curval < |ks| && CompactedUpTo(m0, m, curval)
    requires best == -1 ==> forall j :: 0 <= j < |ks| ==> m[ks[j]] < curval
    requires best != -1 ==> 0 <= best < |ks| && m[ks[best]] >= curval
    requires best != -1 ==> forall j :: 0 <= j < |ks| && m[ks[j]] >= curval ==> m[ks[best]] <= m[ks[j]]
    ensures 0 <= best < |ks| && CompactedUpTo(m0, m[ks[best] := curval], curval + 1)
  {
    PickedCount(m0, curval);
    var next := LeastUnpicked(m0, curval);
    LeastUnpickedIsNext(m0, curval, next);
    var j := UnrenumberedHigh(ks, m0, m, curval, next);
    assert best != -1;
    var b := ks[best];
    BestIsNext(ks, m0, m, curval, b);
    RenumberNext(m0, m, curval, b);
  }

  /** An operation not yet renumbered keeps its relaxed rank, which is at least the
      round number, and some position of the map order lists it. */
  lemma UnrenumberedHigh(ks: seq<OpKey>, m0: map<OpKey, nat>, m: map<OpKey, nat>, c: nat, k: OpKey)
    returns (j: nat)
    requires (forall k :: k in m0 <==> k in ks) && Injective(m0) && CompactedUpTo(m0, m, c)
    requires k in m0 && Below(m0, k) >= c
    ensures j < |ks| && ks[j] == k && m[k] == m0[k] >= c
  {
    BelowAtMostRank(m0, k);
    j :| 0 <= j < |ks| && ks[j] == k;
  }

  /** The entry the inner loop selects has the least relaxed rank among those not yet
      renumbered, so its compacted rank is the round number. */
  lemma BestIsNext(ks: seq<OpKey>, m0: map<OpKey, nat>, m: map<OpKey, nat>, c: nat, b: OpKey)
    requires (forall k :: k in m0 <==> k in ks) && Injective(m0) && CompactedUpTo(m0, m, c)
    requires |Picked(m0, c)| == c
    requires b in m && m[b] >= c
    requires forall j :: 0 <= j < |ks| && m[ks[j]] >= c ==> m[b] <= m[ks[j]]
    ensures Below(m0, b) == c
  {
    if Below(m0, b) < c {
      // renumbered entries hold ranks below c
      assert false;
    }
    forall k | k in m0 && Below(m0, k) >= c ensures m0[b] <= m0[k] {
      var i := UnrenumberedHigh(ks, m0, m, c, k);
    }
    LeastUnpickedIsNext(m0, c, b);
  }

  /** Renumbering the entry whose compacted rank is `c` completes round `c`. */
  lemma RenumberNext(m0: map<OpKey, nat>, m: map<OpKey, nat>, c: nat, b: OpKey)
    requires Injective(m0) && b in m0 && Below(m0, b) == c && CompactedUpTo(m0, m, c)
    ensures CompactedUpTo(m0, m[b := c], c + 1)
  {
    forall k | k in m0 && k != b ensures Below(m0, k) != c {
      if m0[k] < m0[b] { BelowMonotone(m0, k, b); } else { BelowMonotone(m0, b, k); }
    }
  }

  // ---------------------------------------------------------------------------
  // External postconditions

  /** One more than the largest external-postcondition index any dependency targets,
      or 0 when none does. */
  function ExtPostcondCount(deps: seq<Dependency>): (n: nat)
    ensures forall j :: 0 <= j < |deps| && deps[j].tgtKind == ExtPostcond ==> deps[j].tgtIndex < n
    ensures n > 0 ==> exists j :: 0 <= j < |deps| && deps[j].tgtKind == ExtPostcond && deps[j].tgtIndex == n - 1
  {
    if deps == [] then 0
    else
      var n := ExtPostcondCount(deps[..|deps| - 1]);
      var dep := deps[|deps| - 1];
      if dep.tgtKind == ExtPostcond && dep.tgtIndex >= n then dep.tgtIndex + 1 else n
  }

  /** compile's scan for `num_ext_postcond`. */
  method CountExtPostconds(deps: seq<Dependency>) returns (numExtPostcond: nat)
    ensures numExtPostcond == ExtPostcondCount(deps)
  {
    numExtPostcond := 0;
    for j := 0 to |deps|
      invariant numExtPostcond == ExtPostcondCount(deps[..j])
    {
      assert deps[..j + 1][..j] == deps[..j];
      if deps[j].tgtKind == ExtPostcond && deps[j].tgtIndex >= numExtPostcond {
        numExtPostcond := deps[j].tgtIndex + 1;
      }
    }
    assert deps[..|deps|] == deps;
  }

  /** The compacted ranks with external postcondition `i` ranked `total + i`. */
  function WithExtPostconds(c: map<OpKey, nat>, total: nat, numExt: nat): (m: map<OpKey, nat>)
    requires forall k :: k in c ==> k.kind != ExtPostcond
    ensures forall k :: k in m <==> k in c || (k.kind == ExtPostcond && k.index < numExt)
    ensures forall k :: k in c ==> m[k] == c[k]
    ensures forall i :: 0 <= i < numExt ==> m[OpKey(ExtPostcond, i)] == total + i
  {
    if numExt == 0 then c
    else WithExtPostconds(c, total, numExt - 1)[OpKey(ExtPostcond, numExt - 1) := total + numExt - 1]
  }

  /** compile's loop appending the external postconditions at the end of the order. */
  method AppendExtPostconds(toposort0: map<OpKey, nat>, totalOps0: nat, numExtPostcond: nat)
    returns (toposort: map<OpKey, nat>, totalOps: nat)
    requires forall k :: k in toposort0 ==> k.kind != ExtPostcond
    ensures toposort == WithExtPostconds(toposort0, totalOps0, numExtPostcond)
    ensures totalOps == totalOps0 + numExtPostcond
  {
    toposort, totalOps := toposort0, totalOps0;
    for i := 0 to numExtPostcond
      invariant totalOps == totalOps0 + i
      invariant toposort == WithExtPostconds(toposort0, totalOps0, i)
    {
      toposort := toposort[OpKey(ExtPostcond, i) := totalOps];
      totalOps := totalOps + 1;
    }
  }

  /** Appending keeps the ranks distinct. */
  lemma WithExtPostcondsInjective(c: map<OpKey, nat>, total: nat, numExt: nat)
    requires Injective(c) && Bounded(c, total)
    requires forall k :: k in c ==> k.kind != ExtPostcond
    ensures Injective(WithExtPostconds(c, total, numExt))
  {
  }

  /** Appending maps onto 0 .. total+numExt-1 when the compacted ranks are onto
      0 .. total-1. */
  lemma WithExtPostcondsOnto(c: map<OpKey, nat>, total: nat, numExt: nat)
    requires c.Values == Range(total)
    requires forall k :: k in c ==> k.kind != ExtPostcond
    ensures WithExtPostconds(c, total, numExt).Values == Range(total + numExt)
  {
    var m := WithExtPostconds(c, total, numExt);
    forall k | k in c ensures c[k] < total {
      assert c[k] in c.Values;
    }
    forall v | v in m.Values ensures v in Range(total + numExt) {
      var k :| k in m && m[k] == v;
    }
    forall v | v in Range(total + numExt) ensures v in m.Values {
      if v < total {
        assert v in c.Values;
        var k :| k in c && c[k] == v;
        assert m[k] == v;
      } else {
        assert m[OpKey(ExtPostcond, v - total)] == v;
      }
    }
  }

  // ---------------------------------------------------------------------------
  // The schedule

  /** `schedule` lists the operations in rank order: entry `v` is the operation ranked `v`. */
  ghost predicate IsScheduleOf(toposort: map<OpKey, nat>, schedule: seq<OpKey>)
  {
    && (forall k :: k in toposort ==> toposort[k] < |schedule| && schedule[toposort[k]] == k)
    && (forall v :: 0 <= v < |schedule| ==> schedule[v] in toposort && toposort[schedule[v]] == v)
  }

  /** A schedule of ranks whose keys are the elements of `ks` lists elements of `ks`,
      each once. */
  lemma ScheduleListsKeys(toposort: map<OpKey, nat>, schedule: seq<OpKey>, ks: seq<OpKey>)
    requires IsScheduleOf(toposort, schedule)
    requires forall k :: k in toposort <==> k in ks
    ensures Distinct(schedule)
    ensures forall i :: 0 <= i < |schedule| ==> schedule[i] in ks
  {
    forall i, j | 0 <= i < j < |schedule| ensures schedule[i] != schedule[j] {
      assert toposort[schedule[i]] == i && toposort[schedule[j]] == j;
    }
  }

  /** Two schedules of the same ranks are the same. */
  lemma ScheduleUnique(toposort: map<OpKey, nat>, s1: seq<OpKey>, s2: seq<OpKey>)
    requires IsScheduleOf(toposort, s1) && IsScheduleOf(toposort, s2) && |s1| == |s2|
    ensures s1 == s2
  {
    forall v | 0 <= v < |s1| ensures s1[v] == s2[v] {
      assert toposort[s1[v]] == v;
    }
  }

  /** compile's `schedule[it->second] = it->first` over the rank map in map order,
      which `ks` lists. */
  method BuildSchedule(ks: seq<OpKey>, toposort: map<OpKey, nat>, totalOps: nat) returns (schedule: seq<OpKey>)
    requires Distinct(ks) && (forall k :: k in toposort <==> k in ks)
    requires Injective(toposort) && toposort.Values == Range(totalOps)
    ensures |schedule| == totalOps && IsScheduleOf(toposort, schedule)
  {
    schedule := seq(totalOps, _ => OpKey(Task, 0));
    forall j | 0 <= j < |ks| ensures ks[j] in toposort && toposort[ks[j]] < totalOps {
      assert toposort[ks[j]] in toposort.Values;
    }
    for i := 0 to |ks|
      invariant |schedule| == totalOps
      invariant forall j :: 0 <= j < i ==> schedule[toposort[ks[j]]] == ks[j]
    {
      PlaceNext(ks, toposort, schedule, i);
      schedule := schedule[toposort[ks[i]] := ks[i]];
    }
    PlacedIsSchedule(ks, toposort, schedule);
  }

  /** Writing the `i`-th listed operation at its rank keeps the earlier ones in place. */
  lemma PlaceNext(ks: seq<OpKey>, toposort: map<OpKey, nat>, schedule: seq<OpKey>, i: nat)
    requires Distinct(ks) && Injective(toposort) && i < |ks|
    requires forall j :: 0 <= j < |ks| ==> ks[j] in toposort && toposort[ks[j]] < |schedule|
    requires forall j :: 0 <= j < i ==> schedule[toposort[ks[j]]] == ks[j]
    ensures forall j :: 0 <= j <= i ==> schedule[toposort[ks[i]] := ks[i]][toposort[ks[j]]] == ks[j]
  {
    forall j | 0 <= j < i ensures toposort[ks[j]] != toposort[ks[i]] {
      assert ks[j] != ks[i];
    }
  }

  /** A sequence holding every listed operation at its rank, with every rank taken,
      is the schedule of those ranks. */
  lemma PlacedIsSchedule(ks: seq<OpKey>, toposort: map<OpKey, nat>, schedule: seq<OpKey>)
    requires (forall k :: k in toposort <==> k in ks) && toposort.Values == Range(|schedule|)
    requires forall j :: 0 <= j < |ks| ==> toposort[ks[j]] < |schedule| && schedule[toposort[ks[j]]] == ks[j]
    ensures IsScheduleOf(toposort, schedule)
  {
    forall k | k in toposort ensures toposort[k] < |schedule| && schedule[toposort[k]] == k {
      var j :| 0 <= j < |ks| && ks[j] == k;
    }
    forall v | 0 <= v < |schedule| ensures schedule[v] in toposort && toposort[schedule[v]] == v {
      assert v in toposort.Values;
      var k :| k in toposort && toposort[k] == v;
    }
  }

  // ---------------------------------------------------------------------------
  // The order of a whole definition

  /** The operations in the order of compile's map: the declared operations by kind,
      then the external postconditions. */
  function ScheduleKeys(d: Definition): (ks: seq<OpKey>)
    ensures |ks| == |AllOps(d)| + ExtPostcondCount(d.dependencies)
  {
    AllOps(d) + KindKeys(ExtPostcond, ExtPostcondCount(d.dependencies))
  }

  /** Compaction of relaxed ranks followed by appending `numExt` external
      postconditions after the `total` declared operations. */
  function Finalize(ranks: map<OpKey, nat>, total: nat, numExt: nat): map<OpKey, nat>
    requires forall k :: k in ranks ==> k.kind != ExtPostcond
  {
    WithExtPostconds(Compacted(ranks), total, numExt)
  }

  /** The final rank of every operation: the compacted rank of compile's relaxation, and
      `total_ops + i` for external postcondition `i`. The corrected relaxation ends
      with the same ranks whenever it converges (CorrectedRanksAsWritten). */
  ghost function FinalRanks(d: Definition): map<OpKey, nat>
    requires WellFormed(d)
  {
    Finalize(Ordering(AsWritten, d).ranks, |AllOps(d)|, ExtPostcondCount(d.dependencies))
  }

  /** The relaxed ranks of a definition are distinct, one per declared operation. */
  lemma OrderingFacts(d: Definition)
    requires WellFormed(d)
    ensures Distinct(AllOps(d))
    ensures forall k :: k in Ordering(AsWritten, d).ranks <==> k in AllOps(d)
    ensures forall k :: k in Ordering(AsWritten, d).ranks ==> k.kind != ExtPostcond
    ensures Injective(Ordering(AsWritten, d).ranks)
    ensures |Ordering(AsWritten, d).ranks.Keys| == |AllOps(d)|
  {
    OrderingConvergesIffAcyclic(AsWritten, d);
    AllOpsListsOps(d);
    KeysListed(AllOps(d), Ordering(AsWritten, d).ranks);
  }

  /** The final ranks cover exactly the operations of the map order, which lists
      each once. */
  lemma FinalRanksKeys(d: Definition)
    requires WellFormed(d)
    ensures Distinct(ScheduleKeys(d))
    ensures forall k :: k in FinalRanks(d) <==> k in ScheduleKeys(d)
  {
    ScheduleKeysDistinct(d);
  }

  /** The final ranks give each operation a distinct position in 0 .. N-1. */
  lemma FinalRanksAreBijection(d: Definition)
    requires WellFormed(d)
    ensures Injective(FinalRanks(d)) && FinalRanks(d).Values == Range(|ScheduleKeys(d)|)
  {
    var ranks := Ordering(AsWritten, d).ranks;
    RelaxedFacts(d, ranks);
    AppendedCompactionIsBijection(ranks, |AllOps(d)|, ExtPostcondCount(d.dependencies), |ScheduleKeys(d)|);
  }

  /** The relaxed ranks of a definition, and its final ranks in terms of them. */
  lemma RelaxedFacts(d: Definition, relaxed: map<OpKey, nat>)
    requires WellFormed(d) && relaxed == Ordering(AsWritten, d).ranks
    ensures Distinct(AllOps(d)) && (forall k :: k in relaxed <==> k in AllOps(d)) && Injective(relaxed)
    ensures forall k :: k in relaxed ==> k.kind != ExtPostcond
    ensures |relaxed.Keys| == |AllOps(d)|
    ensures FinalRanks(d) == Finalize(relaxed, |AllOps(d)|, ExtPostcondCount(d.dependencies))
    ensures |ScheduleKeys(d)| == |AllOps(d)| + ExtPostcondCount(d.dependencies)
  {
    OrderingFacts(d);
  }

  /** The external postconditions take the last positions. */
  lemma FinalRanksExtLast(d: Definition)
    requires WellFormed(d)
    ensures forall k :: k in FinalRanks(d) && k.kind != ExtPostcond ==> FinalRanks(d)[k] < |AllOps(d)|
    ensures forall k :: k in FinalRanks(d) && k.kind == ExtPostcond ==> FinalRanks(d)[k] >= |AllOps(d)|
  {
    OrderingFacts(d);
    ExtPostcondsLast(Ordering(AsWritten, d).ranks, |AllOps(d)|, ExtPostcondCount(d.dependencies));
  }

  /** Compaction followed by appending external postconditions is a bijection onto
      0 .. |keys|+numExt-1. */
  lemma AppendedCompactionIsBijection(ranks: map<OpKey, nat>, total: nat, numExt: nat, n: nat)
    requires Injective(ranks) && total == |ranks.Keys| && forall k :: k in ranks ==> k.kind != ExtPostcond
    requires n == total + numExt
    ensures Injective(Finalize(ranks, total, numExt))
    ensures Finalize(ranks, total, numExt).Values == Range(n)
  {
    var c := Compacted(ranks);
    assert Finalize(ranks, total, numExt) == WithExtPostconds(c, total, numExt);
    CompactedIsOnto(ranks);
    CompactedInjective(ranks);
    forall k | k in c ensures c[k] < total {
      assert c[k] in c.Values;
    }
    WithExtPostcondsInjective(c, total, numExt);
    WithExtPostcondsOnto(c, total, numExt);
  }

  /** The declared operations rank below |keys| and the external postconditions at
      or above it. */
  lemma ExtPostcondsLast(ranks: map<OpKey, nat>, total: nat, numExt: nat)
    requires total == |ranks.Keys| && forall k :: k in ranks ==> k.kind != ExtPostcond
    ensures forall k :: k in Finalize(ranks, total, numExt) && k.kind != ExtPostcond ==>
              Finalize(ranks, total, numExt)[k] < total
    ensures forall k :: k in Finalize(ranks, total, numExt) && k.kind == ExtPostcond ==>
              Finalize(ranks, total, numExt)[k] >= total
  {
    forall k | k in ranks ensures Compacted(ranks)[k] < total {
      BelowBounded(ranks, k);
    }
  }

  /** When the relaxation converged, every dependency that does not start at an
      external precondition runs from an earlier position to a later one. */
  lemma FinalRanksOrderDependencies(d: Definition)
    requires WellFormed(d) && Ordering(Corrected, d).converged
    ensures forall j :: 0 <= j < |d.dependencies| ==> Tgt(d.dependencies[j]) in FinalRanks(d)
    ensures forall j :: 0 <= j < |d.dependencies| && d.dependencies[j].srcKind != ExtPrecond ==>
              Src(d.dependencies[j]) in FinalRanks(d) &&
              FinalRanks(d)[Src(d.dependencies[j])] < FinalRanks(d)[Tgt(d.dependencies[j])]
  {
    CorrectedRanksAsWritten(d);
    OrderingFacts(d);
    OrderingConvergesIffAcyclic(Corrected, d);
    FinalizeOrdersDependencies(d, Ordering(Corrected, d).ranks, |AllOps(d)|, ExtPostcondCount(d.dependencies));
  }

  /** Finalizing ranks that order every relaxation edge orders every dependency. */
  lemma FinalizeOrdersDependencies(d: Definition, ranks: map<OpKey, nat>, total: nat, numExt: nat)
    requires WellFormed(d) && numExt == ExtPostcondCount(d.dependencies)
    requires Injective(ranks) && total == |ranks.Keys| && forall k :: k in ranks ==> k.kind != ExtPostcond
    requires forall k :: k in ranks <==> IsOp(d, k)
    requires EdgesIn(d.dependencies, ranks) && Ordered(Corrected, ranks, d.dependencies)
    ensures forall j :: 0 <= j < |d.dependencies| ==> Tgt(d.dependencies[j]) in Finalize(ranks, total, numExt)
    ensures forall j :: 0 <= j < |d.dependencies| && d.dependencies[j].srcKind != ExtPrecond ==>
              Src(d.dependencies[j]) in Finalize(ranks, total, numExt) &&
              Finalize(ranks, total, numExt)[Src(d.dependencies[j])] < Finalize(ranks, total, numExt)[Tgt(d.dependencies[j])]
  {
    var deps := d.dependencies;
    forall j | 0 <= j < |deps|
      ensures Tgt(deps[j]) in Finalize(ranks, total, numExt)
      ensures deps[j].srcKind != ExtPrecond ==>
                Src(deps[j]) in Finalize(ranks, total, numExt) &&
                Finalize(ranks, total, numExt)[Src(deps[j])] < Finalize(ranks, total, numExt)[Tgt(deps[j])]
    {
      assert DependencyOk(d, deps[j]);
      assert IsRelaxEdge(deps[j]) ==> Considered(Corrected, deps[j]);
      AppendedDependencyOrdered(ranks, total, numExt, deps[j]);
    }
  }

  /** One dependency after compaction and appending: a target that is an external
      postcondition comes after every declared operation, and a declared target keeps
      its order with the source. */
  lemma AppendedDependencyOrdered(ranks: map<OpKey, nat>, total: nat, numExt: nat, dep: Dependency)
    requires Injective(ranks) && total == |ranks.Keys| && forall k :: k in ranks ==> k.kind != ExtPostcond
    requires dep.tgtKind == ExtPostcond ==> dep.tgtIndex < numExt
    requires dep.tgtKind != ExtPostcond ==> Tgt(dep) in ranks
    requires dep.srcKind != ExtPrecond ==> Src(dep) in ranks
    requires IsRelaxEdge(dep) ==> ranks[Src(dep)] < ranks[Tgt(dep)]
    ensures Tgt(dep) in Finalize(ranks, total, numExt)
    ensures dep.srcKind != ExtPrecond ==>
              Src(dep) in Finalize(ranks, total, numExt) &&
              Finalize(ranks, total, numExt)[Src(dep)] < Finalize(ranks, total, numExt)[Tgt(dep)]
  {
    if dep.srcKind != ExtPrecond {
      if dep.tgtKind == ExtPostcond {
        BelowBounded(ranks, Src(dep));
      } else {
        BelowMonotone(ranks, Src(dep), Tgt(dep));
      }
    }
  }

  lemma ScheduleKeysDistinct(d: Definition)
    ensures Distinct(ScheduleKeys(d))
    ensures forall k :: k in ScheduleKeys(d) <==> IsOp(d, k) || (k.kind == ExtPostcond && k.index < ExtPostcondCount(d.dependencies))
  {
    AllOpsListsOps(d);
    var a := AllOps(d);
    var e := KindKeys(ExtPostcond, ExtPostcondCount(d.dependencies));
    var ks := a + e;
    forall i, j | 0 <= i < j < |ks| ensures ks[i] != ks[j] {
      if j < |a| {
      } else if i >= |a| {
        assert ks[i] == e[i - |a|] && ks[j] == e[j - |a|];
      } else {
        assert ks[i] in a;
      }
    }
    forall k: OpKey | k.kind == ExtPostcond && k.index < ExtPostcondCount(d.dependencies) ensures k in ks {
      assert ks[|a| + k.index] == k;
    }
  }
}
