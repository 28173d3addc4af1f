/** The per-entry bookkeeping compile derives from the schedule: how many intermediate
    events each entry produces and where they start, which entries feed the finish
    event, and each entry's sorted, duplicate-free list of preconditions. */
module Layout {
  import opened SubgraphDefs
  import opened Seqs
  import opened Sorting

  /** A precondition of a schedule entry: the port of the entry it gates, and its
      source: the index of an intermediate event, or -1-i for external precondition i. */
  datatype Precondition = Precondition(port: nat, source: int)

  /** std::pair ordering: by port, then by source. */
  function PrecondKey(p: Precondition): Key { Key(p.port, p.source) }

  /** A SubgraphScheduleEntry. */
  datatype ScheduleEntry = ScheduleEntry(op: OpKey, isFinal: bool, eventBase: nat, eventCount: nat,
                                         preconditions: seq<Precondition>,
                                         firstInterp: nat, numInterps: nat)

  // ---------------------------------------------------------------------------
  // Ports used on nested instantiations

  /** The largest source port used on instantiation `i`, or 0. */
  function MaxSrcPort(deps: seq<Dependency>, i: nat): (r: nat)
    ensures forall j :: 0 <= j < |deps| && deps[j].srcKind == Instantiation && deps[j].srcIndex == i ==>
              deps[j].srcPort <= r
    ensures r == 0 || exists j :: 0 <= j < |deps| && deps[j].srcKind == Instantiation &&
                                  deps[j].srcIndex == i && deps[j].srcPort == r
  {
    if deps == [] then 0
    else
      var n := |deps| - 1;
      var r := MaxSrcPort(deps[..n], i);
      assert forall j :: 0 <= j < n ==> deps[..n][j] == deps[j];
      if deps[n].srcKind == Instantiation && deps[n].srcIndex == i && deps[n].srcPort > r
      then deps[n].srcPort else r
  }

  /** The largest target port used on instantiation `i`, or 0. */
  function MaxTgtPort(deps: seq<Dependency>, i: nat): (r: nat)
    ensures forall j :: 0 <= j < |deps| && deps[j].tgtKind == Instantiation && deps[j].tgtIndex == i ==>
              deps[j].tgtPort <= r
    ensures r == 0 || exists j :: 0 <= j < |deps| && deps[j].tgtKind == Instantiation &&
                                  deps[j].tgtIndex == i && deps[j].tgtPort == r
  {
    if deps == [] then 0
    else
      var n := |deps| - 1;
      var r := MaxTgtPort(deps[..n], i);
      assert forall j :: 0 <= j < n ==> deps[..n][j] == deps[j];
      if deps[n].tgtKind == Instantiation && deps[n].tgtIndex == i && deps[n].tgtPort > r
      then deps[n].tgtPort else r
  }

  /** The ports compile's scan asserts: any port on an instantiation names an existing
      one, and every other operation uses port 0 only. */
  predicate PortsOk(dep: Dependency, numInst: nat)
  {
    && (if dep.srcKind == Instantiation then dep.srcIndex < numInst else dep.srcPort == 0)
    && (if dep.tgtKind == Instantiation then dep.tgtIndex < numInst else dep.tgtPort == 0)
  }

  /** compile's scan filling `inst_pre_max_port` and `inst_post_max_port`. */
  method MaxPorts(deps: seq<Dependency>, numInst: nat) returns (preMax: seq<nat>, postMax: seq<nat>)
    requires forall j :: 0 <= j < |deps| ==> PortsOk(deps[j], numInst)
    ensures |preMax| == numInst && |postMax| == numInst
    ensures forall i :: 0 <= i < numInst ==> postMax[i] == MaxSrcPort(deps, i) && preMax[i] == MaxTgtPort(deps, i)
  {
    preMax := seq(numInst, _ => 0);
    postMax := seq(numInst, _ => 0);
    for j := 0 to |deps|
      invariant |preMax| == numInst && |postMax| == numInst
      invariant forall i :: 0 <= i < numInst ==> postMax[i] == MaxSrcPort(deps[..j], i)
      invariant forall i :: 0 <= i < numInst ==> preMax[i] == MaxTgtPort(deps[..j], i)
    {
      assert deps[..j + 1][..j] == deps[..j];
      var dep := deps[j];
      if dep.srcKind == Instantiation {
        postMax := postMax[dep.srcIndex := if postMax[dep.srcIndex] < dep.srcPort then dep.srcPort else postMax[dep.srcIndex]];
      }
      if dep.tgtKind == Instantiation {
        preMax := preMax[dep.tgtIndex := if preMax[dep.tgtIndex] < dep.tgtPort then dep.tgtPort else preMax[dep.tgtIndex]];
      }
    }
    assert deps[..|deps|] == deps;
  }

  // ---------------------------------------------------------------------------
  // Intermediate events and final-event flags

  /** How many intermediate events an entry produces: one per output port of a nested
      instantiation, none for an external postcondition, one otherwise. */
  function EventCount(op: OpKey, postMax: seq<nat>): nat
    requires op.kind == Instantiation ==> op.index < |postMax|
  {
    if op.kind == Instantiation then postMax[op.index] + 1
    else if op.kind == ExtPostcond then 0
    else 1
  }

  predicate InstancesKnown(schedule: seq<OpKey>, postMax: seq<nat>)
  {
    forall i :: 0 <= i < |schedule| && schedule[i].kind == Instantiation ==> schedule[i].index < |postMax|
  }

  function Counts(schedule: seq<OpKey>, postMax: seq<nat>): (c: seq<nat>)
    requires InstancesKnown(schedule, postMax)
    ensures |c| == |schedule|
    ensures forall i :: 0 <= i < |schedule| ==> c[i] == EventCount(schedule[i], postMax)
  {
    seq(|schedule|, i requires 0 <= i < |schedule| => EventCount(schedule[i], postMax))
  }

  /** The positions whose flag is set. */
  function FinalSet(entries: seq<ScheduleEntry>): set<nat>
  {
    set t | 0 <= t < |entries| && entries[t].isFinal
  }

  /** compile's loop over the schedule: each entry's events start where the previous
      entry's end, and every entry but an external postcondition starts out final. */
  method LayoutEvents(schedule: seq<OpKey>, postMax: seq<nat>)
    returns (entries: seq<ScheduleEntry>, numIntermediate: nat, numFinal: nat)
    requires InstancesKnown(schedule, postMax)
    ensures |entries| == |schedule|
    ensures forall i :: 0 <= i < |schedule| ==>
              entries[i] == ScheduleEntry(schedule[i], schedule[i].kind != ExtPostcond,
                                          Sum(Counts(schedule, postMax)[..i]), EventCount(schedule[i], postMax),
                                          [], 0, 0)
    ensures numIntermediate == Sum(Counts(schedule, postMax))
    ensures numFinal == |FinalSet(entries)|
  {
    var counts := Counts(schedule, postMax);
    entries, numIntermediate, numFinal := [], 0, 0;
    for i := 0 to |schedule|
      invariant LaidOut(schedule, counts, entries, i)
      invariant numIntermediate == Sum(counts[..i])
      invariant numFinal == |FinalSet(entries)|
    {
      var op := schedule[i];
      var isFinal := op.kind != ExtPostcond;
      if isFinal {
        numFinal := numFinal + 1;
      }
      var count := if op.kind == Instantiation then postMax[op.index] + 1
                   else if op.kind != ExtPostcond then 1 else 0;
      var e := ScheduleEntry(op, isFinal, numIntermediate, count, [], 0, 0);
      FinalSetAppend(entries, e);
      LaidOutStep(schedule, counts, entries, i, e);
      entries := entries + [e];
      SumMonotone(counts, i, i);
      numIntermediate := numIntermediate + count;
    }
    assert counts[..|schedule|] == counts;
  }

  /** The first `i` entries are laid out. */
  ghost predicate LaidOut(schedule: seq<OpKey>, counts: seq<nat>, entries: seq<ScheduleEntry>, i: nat)
    requires |counts| == |schedule|
  {
    && i <= |schedule| && |entries| == i
    && forall t :: 0 <= t < i ==>
         entries[t] == ScheduleEntry(schedule[t], schedule[t].kind != ExtPostcond,
                                     Sum(counts[..t]), counts[t], [], 0, 0)
  }

  lemma LaidOutStep(schedule: seq<OpKey>, counts: seq<nat>, entries: seq<ScheduleEntry>, i: nat, e: ScheduleEntry)
    requires |counts| == |schedule| && i < |schedule| && LaidOut(schedule, counts, entries, i)
    requires e == ScheduleEntry(schedule[i], schedule[i].kind != ExtPostcond, Sum(counts[..i]), counts[i], [], 0, 0)
    ensures LaidOut(schedule, counts, entries + [e], i + 1)
  {
  }

  /** Appending an entry adds its position to the flagged ones exactly when its flag is set. */
  lemma FinalSetAppend(entries: seq<ScheduleEntry>, e: ScheduleEntry)
    ensures |FinalSet(entries + [e])| == |FinalSet(entries)| + (if e.isFinal then 1 else 0)
  {
    var t := |entries|;
    assert FinalSet(entries + [e]) == FinalSet(entries) + (if e.isFinal then {t} else {});
  }

  /** Clearing a set flag removes exactly one position from the flagged ones. */
  lemma FinalSetClear(entries: seq<ScheduleEntry>, s: nat)
    requires s < |entries| && entries[s].isFinal
    ensures |FinalSet(entries)| >= 1
    ensures |FinalSet(entries[s := entries[s].(isFinal := false)])| == |FinalSet(entries)| - 1
  {
    assert s in FinalSet(entries);
    assert FinalSet(entries[s := entries[s].(isFinal := false)]) == FinalSet(entries) - {s};
  }

  /** Pushing a precondition leaves the flags alone. */
  lemma FinalSetPush(entries: seq<ScheduleEntry>, t: nat, p: Precondition)
    requires t < |entries|
    ensures FinalSet(entries[t := entries[t].(preconditions := entries[t].preconditions + [p])]) == FinalSet(entries)
  {
  }

  /** The intermediate events of earlier entries come first: entry `i`'s range ends
      at or before entry `j`'s begins, and every range lies below the total. */
  lemma EventRangesOrdered(counts: seq<nat>, i: nat, j: nat)
    requires i < j <= |counts|
    ensures Sum(counts[..i]) + counts[i] <= Sum(counts[..j])
    ensures Sum(counts[..j]) <= Sum(counts)
  {
    SumMonotone(counts, i, i);
    SumMonotone(counts, i + 1, j);
    SumMonotone(counts, j, |counts|);
    assert counts[..|counts|] == counts;
  }

  /** The event a dependency names on an earlier entry lies inside that entry's range,
      so it is an intermediate event produced before the target's own events start. */
  lemma SourceEventEarlier(schedule: seq<OpKey>, postMax: seq<nat>, s: nat, t: nat, port: nat)
    requires InstancesKnown(schedule, postMax)
    requires s < t < |schedule| && schedule[s].kind != ExtPostcond
    requires if schedule[s].kind == Instantiation then port <= postMax[schedule[s].index] else port == 0
    ensures Sum(Counts(schedule, postMax)[..s]) + port < Sum(Counts(schedule, postMax)[..t])
    ensures Sum(Counts(schedule, postMax)[..t]) <= Sum(Counts(schedule, postMax))
  {
    EventRangesOrdered(Counts(schedule, postMax), s, t);
  }

  // ---------------------------------------------------------------------------
  // Linking dependencies

  /** What a dependency contributes to its target's precondition list: an external
      precondition as -1-index, otherwise the source's event for the source port. */
  function SourceOf(dep: Dependency, ranks: map<OpKey, nat>, entries: seq<ScheduleEntry>): int
    requires dep.srcKind != ExtPrecond ==> Src(dep) in ranks && ranks[Src(dep)] < |entries|
  {
    if dep.srcKind == ExtPrecond then -1 - dep.srcIndex
    else entries[ranks[Src(dep)]].eventBase + dep.srcPort
  }

  /** Every dependency's ends have a position in the schedule. */
  ghost predicate Placed(deps: seq<Dependency>, ranks: map<OpKey, nat>, n: nat)
  {
    forall j :: 0 <= j < |deps| ==>
      && Tgt(deps[j]) in ranks && ranks[Tgt(deps[j])] < n
      && (deps[j].srcKind != ExtPrecond ==> Src(deps[j]) in ranks && ranks[Src(deps[j])] < n)
  }

  /** The preconditions compile pushes onto the entry at position `t`, in dependency order. */
  function RawPreconditions(deps: seq<Dependency>, ranks: map<OpKey, nat>, entries: seq<ScheduleEntry>, t: nat)
    : (r: seq<Precondition>)
    requires Placed(deps, ranks, |entries|)
    ensures |r| <= |deps|
    ensures forall p :: p in r <==> exists j :: 0 <= j < |deps| && ranks[Tgt(deps[j])] == t &&
                                              p == Precondition(deps[j].tgtPort, SourceOf(deps[j], ranks, entries))
  {
    if deps == [] then []
    else
      var n := |deps| - 1;
      assert Placed(deps[..n], ranks, |entries|);
      var r := RawPreconditions(deps[..n], ranks, entries, t);
      var dep := deps[n];
      assert forall j :: 0 <= j < n ==> deps[..n][j] == deps[j];
      if ranks[Tgt(dep)] == t then r + [Precondition(dep.tgtPort, SourceOf(dep, ranks, entries))] else r
  }

  /** A dependency on port 0 of the operation at position `s`, towards anything but an
      external postcondition, makes that operation's completion reach the finish
      event transitively. */
  predicate ClearsFinal(dep: Dependency, ranks: map<OpKey, nat>, s: nat)
  {
    dep.srcKind != ExtPrecond && dep.srcPort == 0 && dep.tgtKind != ExtPostcond &&
    Src(dep) in ranks && ranks[Src(dep)] == s
  }

  ghost predicate HasSuccessor(deps: seq<Dependency>, ranks: map<OpKey, nat>, s: nat)
  {
    exists j :: 0 <= j < |deps| && ClearsFinal(deps[j], ranks, s)
  }

  /** The entry after linking: its preconditions appended, its flag cleared when it has
      a port-0 successor. */
  ghost function Linked(e: ScheduleEntry, deps: seq<Dependency>, ranks: map<OpKey, nat>,
                  entries: seq<ScheduleEntry>, t: nat): ScheduleEntry
    requires Placed(deps, ranks, |entries|)
  {
    e.(preconditions := e.preconditions + RawPreconditions(deps, ranks, entries, t),
       isFinal := e.isFinal && !HasSuccessor(deps, ranks, t))
  }

  /** compile's loop over the dependencies: push each precondition onto its target's
      entry and clear the flag of a source that has a port-0 successor, counting the
      flags it clears. */
  method LinkDependencies(deps: seq<Dependency>, ranks: map<OpKey, nat>,
                          entries0: seq<ScheduleEntry>, numFinal0: nat)
    returns (entries: seq<ScheduleEntry>, numFinal: nat)
    requires Placed(deps, ranks, |entries0|) && numFinal0 == |FinalSet(entries0)|
    ensures |entries| == |entries0|
    ensures forall t :: 0 <= t < |entries0| ==> entries[t] == Linked(entries0[t], deps, ranks, entries0, t)
    ensures numFinal == |FinalSet(entries)|
  {
    entries, numFinal := entries0, numFinal0;
    LinkedAtStart(deps, ranks, entries0);
    for j := 0 to |deps|
      invariant LinkedUpTo(deps, ranks, entries0, entries, j)
      invariant numFinal == |FinalSet(entries)|
    {
      ghost var before := entries;
      var dep := deps[j];
      var t := ranks[Tgt(dep)];
      var p: Precondition;
      if dep.srcKind == ExtPrecond {
        var idx := -1 - dep.srcIndex;
        p := Precondition(dep.tgtPort, idx);
        FinalSetPush(entries, t, p);
        entries := entries[t := entries[t].(preconditions := entries[t].preconditions + [p])];
      } else {
        var s := ranks[Src(dep)];
        var evIdx := entries[s].eventBase + dep.srcPort;
        p := Precondition(dep.tgtPort, evIdx);
        FinalSetPush(entries, t, p);
        entries := entries[t := entries[t].(preconditions := entries[t].preconditions + [p])];
        if dep.srcPort == 0 && dep.tgtKind != ExtPostcond && entries[s].isFinal {
          FinalSetClear(entries, s);
          entries := entries[s := entries[s].(isFinal := false)];
          numFinal := numFinal - 1;
        }
      }
      LinkOneStep(deps, ranks, entries0, before, j, p, entries);
    }
    LinkedAtEnd(deps, ranks, entries0, entries);
  }

  /** Entry `e` is entry `e0` after linking the dependencies `ds`. */
  ghost predicate LinkedEntry(e0: ScheduleEntry, e: ScheduleEntry, ds: seq<Dependency>, ranks: map<OpKey, nat>,
                              entries0: seq<ScheduleEntry>, t: nat)
    requires Placed(ds, ranks, |entries0|)
  {
    && e.op == e0.op && e.eventBase == e0.eventBase && e.eventCount == e0.eventCount
    && e.firstInterp == e0.firstInterp && e.numInterps == e0.numInterps
    && e.preconditions == e0.preconditions + RawPreconditions(ds, ranks, entries0, t)
    && e.isFinal == (e0.isFinal && !HasSuccessor(ds, ranks, t))
  }

  /** The entries after linking the first `j` dependencies. */
  ghost predicate LinkedUpTo(deps: seq<Dependency>, ranks: map<OpKey, nat>, entries0: seq<ScheduleEntry>,
                             entries: seq<ScheduleEntry>, j: nat)
  {
    && j <= |deps| && Placed(deps, ranks, |entries0|) && Placed(deps[..j], ranks, |entries0|)
    && |entries| == |entries0|
    && forall t :: 0 <= t < |entries0| ==> LinkedEntry(entries0[t], entries[t], deps[..j], ranks, entries0, t)
  }

  lemma LinkedAtStart(deps: seq<Dependency>, ranks: map<OpKey, nat>, entries0: seq<ScheduleEntry>)
    requires Placed(deps, ranks, |entries0|)
    ensures LinkedUpTo(deps, ranks, entries0, entries0, 0)
  {
    assert deps[..0] == [];
  }

  lemma LinkedAtEnd(deps: seq<Dependency>, ranks: map<OpKey, nat>, entries0: seq<ScheduleEntry>, entries: seq<ScheduleEntry>)
    requires LinkedUpTo(deps, ranks, entries0, entries, |deps|)
    ensures |entries| == |entries0|
    ensures forall t :: 0 <= t < |entries0| ==> entries[t] == Linked(entries0[t], deps, ranks, entries0, t)
  {
    assert deps[..|deps|] == deps;
  }

  /** One entry after one more dependency: the precondition pushed when it is the
      target, the flag cleared when it is a port-0 source. */
  ghost function LinkEntry(e: ScheduleEntry, dep: Dependency, ranks: map<OpKey, nat>, p: Precondition, t: nat): ScheduleEntry
    requires Tgt(dep) in ranks
  {
    e.(preconditions := if ranks[Tgt(dep)] == t then e.preconditions + [p] else e.preconditions,
       isFinal := e.isFinal && !ClearsFinal(dep, ranks, t))
  }

  /** One iteration of the linking loop extends the linked prefix by dependency `j`. */
  lemma LinkOneStep(deps: seq<Dependency>, ranks: map<OpKey, nat>, entries0: seq<ScheduleEntry>,
                    before: seq<ScheduleEntry>, j: nat, p: Precondition, after: seq<ScheduleEntry>)
    requires j < |deps| && LinkedUpTo(deps, ranks, entries0, before, j)
    requires p == Precondition(deps[j].tgtPort, SourceOf(deps[j], ranks, before))
    requires |after| == |before|
    requires forall t :: 0 <= t < |before| ==> after[t] == LinkEntry(before[t], deps[j], ranks, p, t)
    ensures LinkedUpTo(deps, ranks, entries0, after, j + 1)
  {
    LinkStep(deps, ranks, entries0, j);
    var dep := deps[j];
    if dep.srcKind != ExtPrecond {
      assert LinkedEntry(entries0[ranks[Src(dep)]], before[ranks[Src(dep)]], deps[..j], ranks, entries0, ranks[Src(dep)]);
    }
    assert p == Precondition(dep.tgtPort, SourceOf(dep, ranks, entries0));
    forall t | 0 <= t < |entries0|
      ensures LinkedEntry(entries0[t], after[t], deps[..j + 1], ranks, entries0, t)
    {
      assert LinkedEntry(entries0[t], before[t], deps[..j], ranks, entries0, t);
    }
  }

  /** Linking the dependencies up to `j` then dependency `j` is linking those up to `j + 1`. */
  lemma LinkStep(deps: seq<Dependency>, ranks: map<OpKey, nat>, entries: seq<ScheduleEntry>, j: nat)
    requires j < |deps| && Placed(deps, ranks, |entries|)
    ensures Placed(deps[..j + 1], ranks, |entries|)
    ensures forall t :: RawPreconditions(deps[..j + 1], ranks, entries, t) ==
              RawPreconditions(deps[..j], ranks, entries, t) +
              (if ranks[Tgt(deps[j])] == t then [Precondition(deps[j].tgtPort, SourceOf(deps[j], ranks, entries))] else [])
    ensures forall s :: HasSuccessor(deps[..j + 1], ranks, s) <==> HasSuccessor(deps[..j], ranks, s) || ClearsFinal(deps[j], ranks, s)
  {
    assert deps[..j + 1][..j] == deps[..j];
    forall s | HasSuccessor(deps[..j + 1], ranks, s) && !ClearsFinal(deps[j], ranks, s)
      ensures HasSuccessor(deps[..j], ranks, s)
    {
      var i :| 0 <= i < j + 1 && ClearsFinal(deps[..j + 1][i], ranks, s);
      assert deps[..j][i] == deps[i];
    }
    forall s | HasSuccessor(deps[..j], ranks, s) ensures HasSuccessor(deps[..j + 1], ranks, s) {
      var i :| 0 <= i < j && ClearsFinal(deps[..j][i], ranks, s);
      assert deps[..j + 1][i] == deps[i];
    }
    forall s | ClearsFinal(deps[j], ranks, s) ensures HasSuccessor(deps[..j + 1], ranks, s) {
      assert deps[..j + 1][j] == deps[j];
    }
  }

  // ---------------------------------------------------------------------------
  // Sorting and deduplicating preconditions

  /** The list with each run of equal neighbours kept once. */
  function Dedup(s: seq<Precondition>): (r: seq<Precondition>)
    ensures |r| <= |s|
    ensures s != [] ==> r != [] && r[|r| - 1] == s[|s| - 1]
    ensures forall p :: p in r <==> p in s
  {
    if |s| <= 1 then s
    else
      var n := |s| - 1;
      var r := Dedup(s[..n]);
      assert s == s[..n] + [s[n]];
      if s[n] == s[n - 1] then r else r + [s[n]]
  }

  /** Deduplicating a sorted list leaves it strictly increasing. */
  lemma {:induction false} DedupSortedIsStrict(s: seq<Precondition>)
    requires SortedBy(s, PrecondKey)
    ensures StrictlySortedBy(Dedup(s), PrecondKey)
  {
    if |s| > 1 {
      var n := |s| - 1;
      assert SortedBy(s[..n], PrecondKey);
      DedupSortedIsStrict(s[..n]);
      var r := Dedup(s[..n]);
      if s[n] != s[n - 1] {
        // every kept element occurs before position n, so its key is below s[n]'s
        forall i | 0 <= i < |r| ensures KeyLess(PrecondKey(r[i]), PrecondKey(s[n])) {
          assert r[i] in s[..n];
          var k :| 0 <= k < n && s[..n][k] == r[i];
          assert !KeyLess(PrecondKey(s[n]), PrecondKey(s[k]));
          assert !KeyLess(PrecondKey(s[n]), PrecondKey(s[n - 1]));
          assert r[i] == s[n - 1] || !KeyLess(PrecondKey(s[n - 1]), PrecondKey(r[i]));
        }
      }
    }
  }

  /** compile's in-place removal of duplicates from a sorted, nonempty list, counting
      the kept elements from the first one on. */
  method Unique(a: array<Precondition>) returns (numUnique: nat)
    requires a.Length > 0
    modifies a
    ensures numUnique <= a.Length && a[..numUnique] == Dedup(old(a[..]))
  {
    ghost var s := a[..];
    numUnique := 1;
    assert s[..1] == [s[0]];
    for i := 1 to a.Length
      invariant 1 <= numUnique <= i
      invariant a[..numUnique] == Dedup(s[..i])
      invariant forall k :: i <= k < a.Length ==> a[k] == s[k]
    {
      DedupStep(s, i);
      ghost var kept := a[..numUnique];
      if a[i] != a[numUnique - 1] {
        if numUnique < i {
          a[numUnique] := a[i];
        }
        numUnique := numUnique + 1;
        assert a[..numUnique] == kept + [s[i]];
      }
    }
    assert s[..a.Length] == s;
  }

  /** Extending the input by one element keeps or appends it, depending on the previous one. */
  lemma DedupStep(s: seq<Precondition>, i: nat)
    requires 1 <= i < |s|
    ensures Dedup(s[..i + 1]) == if s[i] == s[i - 1] then Dedup(s[..i]) else Dedup(s[..i]) + [s[i]]
    ensures Dedup(s[..i]) != [] && Dedup(s[..i])[|Dedup(s[..i])| - 1] == s[i - 1]
  {
    assert s[..i + 1][..i] == s[..i];
  }

  /** A sorted, duplicate-free copy of a precondition list. */
  function Normalized(s: seq<Precondition>): seq<Precondition>
  {
    Dedup(SortBy(s, PrecondKey))
  }

  /** A normalized list is strictly increasing and holds the same preconditions. */
  lemma NormalizedIsStrict(s: seq<Precondition>)
    ensures StrictlySortedBy(Normalized(s), PrecondKey)
    ensures forall p :: p in Normalized(s) <==> p in s
    ensures |Normalized(s)| <= |s|
  {
    var sorted := SortBy(s, PrecondKey);
    DedupSortedIsStrict(sorted);
    forall p ensures p in sorted <==> p in s {
      assert p in sorted <==> p in multiset(sorted);
      assert p in s <==> p in multiset(s);
    }
  }

  /** Sorting one nonempty list, then removing duplicates in place and resizing. */
  method NormalizeList(pre: seq<Precondition>) returns (kept: seq<Precondition>)
    requires pre != []
    ensures kept == Normalized(pre)
  {
    var sorted := SortBy(pre, PrecondKey);
    var a := new Precondition[|sorted|](i requires 0 <= i < |sorted| => sorted[i]);
    assert a[..] == sorted;
    var numUnique := Unique(a);
    kept := a[..numUnique];
  }

  /** compile's loop over the schedule sorting and deduplicating each nonempty list, and
      sizing `max_preconditions` one above the longest list (counting the start event). */
  method NormalizePreconditions(entries0: seq<ScheduleEntry>) returns (entries: seq<ScheduleEntry>, maxPre: nat)
    ensures |entries| == |entries0|
    ensures forall t :: 0 <= t < |entries0| ==>
              entries[t] == entries0[t].(preconditions := Normalized(entries0[t].preconditions))
    ensures maxPre >= 1
    ensures forall t :: 0 <= t < |entries| ==> |entries[t].preconditions| < maxPre
    ensures maxPre == 1 || exists t :: 0 <= t < |entries| && maxPre == |entries[t].preconditions| + 1
  {
    entries, maxPre := entries0, 1;
    for t := 0 to |entries0|
      invariant NormalizedUpTo(entries0, entries, t)
      invariant MaxBound(entries, t, maxPre)
    {
      var pre := entries[t].preconditions;
      if pre == [] {
        // std::sort and the duplicate scan are skipped; the list stays empty
        assert Normalized(pre) == [];
        MaxBoundSkip(entries, t, maxPre);
        NormalizedStep(entries0, entries, t, []);
        continue;
      }
      var kept := NormalizeList(pre);
      ghost var before := entries;
      entries := entries[t := entries[t].(preconditions := kept)];
      var maxPre' := if |kept| >= maxPre then |kept| + 1 else maxPre;
      MaxBoundStep(before, t, maxPre, kept, maxPre');
      NormalizedStep(entries0, before, t, kept);
      maxPre := maxPre';
    }
  }

  /** The first `t` entries have normalized lists and the rest are untouched. */
  ghost predicate NormalizedUpTo(entries0: seq<ScheduleEntry>, entries: seq<ScheduleEntry>, t: nat)
  {
    && t <= |entries0| == |entries|
    && (forall u :: 0 <= u < t ==> entries[u] == entries0[u].(preconditions := Normalized(entries0[u].preconditions)))
    && (forall u :: t <= u < |entries0| ==> entries[u] == entries0[u])
  }

  lemma NormalizedStep(entries0: seq<ScheduleEntry>, entries: seq<ScheduleEntry>, t: nat, kept: seq<Precondition>)
    requires NormalizedUpTo(entries0, entries, t) && t < |entries0|
    requires kept == Normalized(entries[t].preconditions)
    ensures NormalizedUpTo(entries0, entries[t := entries[t].(preconditions := kept)], t + 1)
  {
  }

  /** `max` is at least 1, above the length of each of the first `t` lists, and either 1
      or one more than the length of one of them. */
  ghost predicate MaxBound(entries: seq<ScheduleEntry>, t: nat, max: nat)
  {
    && t <= |entries| && max >= 1
    && (forall u :: 0 <= u < t ==> |entries[u].preconditions| < max)
    && (max == 1 || exists u :: 0 <= u < t && max == |entries[u].preconditions| + 1)
  }

  lemma MaxBoundSkip(entries: seq<ScheduleEntry>, t: nat, max: nat)
    requires t < |entries| && entries[t].preconditions == [] && MaxBound(entries, t, max)
    ensures MaxBound(entries, t + 1, max)
  {
  }

  /** Replacing list `t` and raising `max` above it when needed extends the bound to
      the first `t + 1` lists. */
  lemma MaxBoundStep(entries: seq<ScheduleEntry>, t: nat, max: nat, kept: seq<Precondition>, max': nat)
    requires t < |entries| && MaxBound(entries, t, max)
    requires max' == if |kept| >= max then |kept| + 1 else max
    ensures MaxBound(entries[t := entries[t].(preconditions := kept)], t + 1, max')
  {
    var e := entries[t := entries[t].(preconditions := kept)];
    forall u | 0 <= u < t + 1 ensures |e[u].preconditions| < max' {
      if u < t { assert e[u] == entries[u]; }
    }
    if max' != max {
      assert max' == |e[t].preconditions| + 1;
    } else if max != 1 {
      var u :| 0 <= u < t && max == |entries[u].preconditions| + 1;
      assert e[u] == entries[u];
    }
  }
}
