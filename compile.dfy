/** SubgraphImpl::compile as a whole: the phases of the other modules run in the
    source's order, and what each phase leaves behind stated as a function of the
    definition, so that the compiled state of a subgraph is determined by its
    definition alone. The relaxation's verdict and the external-precondition fan-out
    come in two versions: as the source computes them, and corrected. */
module Compile {
  import opened SubgraphDefs
  import opened Seqs
  import opened Sorting
  import opened Toposort
  import opened Schedule
  import opened Layout
  import opened Interp
  import opened Partition
  import opened Csr
  import opened Replay
  import opened Trigger

  // ---------------------------------------------------------------------------
  // The order

  /** The operation whose rank is `v`. */
  ghost function RankedAt(m: map<OpKey, nat>, v: nat): (k: OpKey)
    requires v in m.Values
    ensures k in m && m[k] == v
  {
    var k :| k in m && m[k] == v; k
  }

  /** The keys of `m` listed by rank. */
  ghost function ByRank(m: map<OpKey, nat>, n: nat): (s: seq<OpKey>)
    requires Injective(m) && m.Values == Range(n)
    ensures |s| == n && IsScheduleOf(m, s)
  {
    var s := seq(n, v requires 0 <= v < n => RankedAt(m, v));
    ByRankIsSchedule(m, n, s);
    s
  }

  lemma ByRankIsSchedule(m: map<OpKey, nat>, n: nat, s: seq<OpKey>)
    requires Injective(m) && m.Values == Range(n)
    requires |s| == n && forall v :: 0 <= v < n ==> s[v] in m && m[s[v]] == v
    ensures IsScheduleOf(m, s)
  {
    forall k | k in m ensures m[k] < n && s[m[k]] == k {
      assert m[k] in m.Values;
      assert m[s[m[k]]] == m[k];
    }
  }

  /** The schedule of a definition: its operations listed by final rank. */
  ghost function Sched(d: Definition): (s: seq<OpKey>)
    requires WellFormed(d)
    ensures |s| == |ScheduleKeys(d)| && IsScheduleOf(FinalRanks(d), s)
  {
    FinalRanksAreBijection(d);
    ByRank(FinalRanks(d), |ScheduleKeys(d)|)
  }

  /** The largest source port of each nested instantiation. */
  function PostMax(d: Definition): (r: seq<nat>)
    ensures |r| == d.numInstantiations
    ensures forall i :: 0 <= i < d.numInstantiations ==> r[i] == MaxSrcPort(d.dependencies, i)
  {
    seq(d.numInstantiations, i requires 0 <= i < d.numInstantiations => MaxSrcPort(d.dependencies, i))
  }

  /** compile from seeding to the schedule: seed, scan the ports, relax under `rule`,
      and on convergence compact, append the external postconditions and list the
      operations by rank. As written (`AsWritten`) a self-dependency converges and an
      empty definition does not; the corrected rule reports convergence exactly for
      acyclic dependencies, and then yields the same ranks. */
  method OrderPhase(rule: RelaxRule, d: Definition)
    returns (converged: bool, ranks: map<OpKey, nat>, schedule: seq<OpKey>, postMax: seq<nat>)
    requires WellFormed(d)
    ensures converged == Ordering(rule, d).converged
    ensures postMax == PostMax(d)
    ensures converged ==> ranks == FinalRanks(d) && schedule == Sched(d)
  {
    var ks := AllOps(d);
    SeedCoversEdges(d);
    var toposort, nextval := Seed(ks);
    var totalOps := nextval;
    DependenciesPortsOk(d);
    var _, post := MaxPorts(d.dependencies, d.numInstantiations);
    postMax := post;
    toposort, nextval, converged := Relax(rule, toposort, nextval, d.dependencies, PassLimit(rule, totalOps));
    ranks, schedule := map[], [];
    if !converged {
      return;
    }
    if rule == Corrected {
      CorrectedRanksAsWritten(d);
    }
    ranks, schedule := ScheduleOrdered(d, toposort, totalOps);
  }

  /** Every dependency of a well-formed definition uses ports its ends have. */
  lemma DependenciesPortsOk(d: Definition)
    requires WellFormed(d)
    ensures forall j :: 0 <= j < |d.dependencies| ==> PortsOk(d.dependencies[j], d.numInstantiations)
  {
    forall j | 0 <= j < |d.dependencies| ensures PortsOk(d.dependencies[j], d.numInstantiations) {
      assert DependencyOk(d, d.dependencies[j]);
    }
  }

  /** compile after convergence: compact the ranks, append the external
      postconditions and list the operations by rank. */
  method ScheduleOrdered(d: Definition, relaxed: map<OpKey, nat>, totalOps0: nat)
    returns (ranks: map<OpKey, nat>, schedule: seq<OpKey>)
    requires WellFormed(d)
    requires relaxed == Ordering(AsWritten, d).ranks && totalOps0 == |AllOps(d)|
    ensures ranks == FinalRanks(d) && schedule == Sched(d)
  {
    var toposort, totalOps := FinalizeRanks(d, relaxed, totalOps0);
    FinalRanksKeys(d);
    FinalRanksAreBijection(d);
    schedule := BuildSchedule(ScheduleKeys(d), toposort, totalOps);
    ScheduleUnique(toposort, schedule, Sched(d));
    ranks := toposort;
  }

  /** compile's compaction of the relaxed ranks and appending of the external
      postconditions. */
  method FinalizeRanks(d: Definition, relaxed: map<OpKey, nat>, totalOps0: nat)
    returns (toposort: map<OpKey, nat>, totalOps: nat)
    requires WellFormed(d)
    requires relaxed == Ordering(AsWritten, d).ranks && totalOps0 == |AllOps(d)|
    ensures toposort == FinalRanks(d) && totalOps == |ScheduleKeys(d)|
  {
    RelaxedFacts(d, relaxed);
    toposort := Compact(AllOps(d), relaxed);
    var numExt := CountExtPostconds(d.dependencies);
    toposort, totalOps := AppendExtPostconds(toposort, totalOps0, numExt);
  }


  /** The operations of a schedule: declared operations, and external postconditions
      numbered below the count compile derives; each listed once. */
  lemma SchedFacts(d: Definition)
    requires WellFormed(d)
    ensures Distinct(Sched(d))
    ensures forall i :: 0 <= i < |Sched(d)| ==>
              IsOp(d, Sched(d)[i]) || (Sched(d)[i].kind == ExtPostcond && Sched(d)[i].index < ExtPostcondCount(d.dependencies))
    ensures InstancesKnown(Sched(d), PostMax(d))
  {
    SchedListsOps(d);
    OpsInstancesKnown(d, Sched(d), PostMax(d));
  }

  /** The first two facts of SchedFacts. */
  lemma SchedListsOps(d: Definition)
    requires WellFormed(d)
    ensures Distinct(Sched(d))
    ensures forall i :: 0 <= i < |Sched(d)| ==>
              IsOp(d, Sched(d)[i]) || (Sched(d)[i].kind == ExtPostcond && Sched(d)[i].index < ExtPostcondCount(d.dependencies))
  {
    FinalRanksKeys(d);
    ScheduleKeysDistinct(d);
    ScheduleListsKeys(FinalRanks(d), Sched(d), ScheduleKeys(d));
  }

  /** A list of operations of `d` names only nested instantiations `d` declares. */
  lemma OpsInstancesKnown(d: Definition, s: seq<OpKey>, postMax: seq<nat>)
    requires |postMax| == d.numInstantiations
    requires forall i :: 0 <= i < |s| ==>
               IsOp(d, s[i]) || (s[i].kind == ExtPostcond && s[i].index < ExtPostcondCount(d.dependencies))
    ensures InstancesKnown(s, postMax)
  {
    forall i | 0 <= i < |s| && s[i].kind == Instantiation ensures s[i].index < |postMax| {
      assert IsOp(d, s[i]);
    }
  }

  /** Every dependency's ends are in the schedule. */
  lemma SchedPlaced(d: Definition)
    requires WellFormed(d)
    ensures Placed(d.dependencies, FinalRanks(d), |Sched(d)|)
  {
    forall j | 0 <= j < |d.dependencies|
      ensures Tgt(d.dependencies[j]) in FinalRanks(d) && FinalRanks(d)[Tgt(d.dependencies[j])] < |Sched(d)|
      ensures d.dependencies[j].srcKind != ExtPrecond ==>
                Src(d.dependencies[j]) in FinalRanks(d) && FinalRanks(d)[Src(d.dependencies[j])] < |Sched(d)|
    {
      assert DependencyOk(d, d.dependencies[j]);
      RankedBelow(d, Tgt(d.dependencies[j]));
      if d.dependencies[j].srcKind != ExtPrecond {
        RankedBelow(d, Src(d.dependencies[j]));
      }
    }
  }

  /** Every scheduled operation has a final rank inside the schedule. */
  lemma RankedBelow(d: Definition, k: OpKey)
    requires WellFormed(d)
    requires IsOp(d, k) || (k.kind == ExtPostcond && k.index < ExtPostcondCount(d.dependencies))
    ensures k in FinalRanks(d) && FinalRanks(d)[k] < |Sched(d)|
  {
    ScheduleKeysDistinct(d);
    FinalRanksKeys(d);
    FinalRanksAreBijection(d);
    assert FinalRanks(d)[k] in FinalRanks(d).Values;
  }

  // ---------------------------------------------------------------------------
  // The schedule entries

  /** The entries as the event layout leaves them. */
  function Laid(schedule: seq<OpKey>, postMax: seq<nat>): (r: seq<ScheduleEntry>)
    requires InstancesKnown(schedule, postMax)
    ensures |r| == |schedule|
  {
    var counts := Counts(schedule, postMax);
    seq(|schedule|, i requires 0 <= i < |schedule| =>
      ScheduleEntry(schedule[i], schedule[i].kind != ExtPostcond, Sum(counts[..i]), counts[i], [], 0, 0))
  }

  /** Every entry after linking the dependencies. */
  ghost function LinkedAll(deps: seq<Dependency>, ranks: map<OpKey, nat>, es: seq<ScheduleEntry>): (r: seq<ScheduleEntry>)
    requires Placed(deps, ranks, |es|)
    ensures |r| == |es|
  {
    seq(|es|, t requires 0 <= t < |es| => Linked(es[t], deps, ranks, es, t))
  }

  /** Every entry with its preconditions sorted and deduplicated. */
  function NormalizedAll(es: seq<ScheduleEntry>): (r: seq<ScheduleEntry>)
    ensures |r| == |es|
  {
    seq(|es|, t requires 0 <= t < |es| => es[t].(preconditions := Normalized(es[t].preconditions)))
  }

  /** Every entry with the range of the sorted rules aimed at it. */
  function WithInterps(es: seq<ScheduleEntry>, rules: seq<Interpolation>): (r: seq<ScheduleEntry>)
    ensures |r| == |es|
  {
    seq(|es|, t requires 0 <= t < |es| =>
      es[t].(firstInterp := MatchRange(rules, es[t].op).0, numInterps := MatchRange(rules, es[t].op).1))
  }

  /** The definition's rules in the order compile sorts them. */
  function SortedRules(d: Definition): (r: seq<Interpolation>)
    ensures SortedBy(r, InterpKey) && multiset(r) == multiset(d.interpolations)
  {
    SortBy(d.interpolations, InterpKey)
  }

  /** The entries before the rules are attached. */
  ghost function LinkedEntries(d: Definition): (r: seq<ScheduleEntry>)
    requires WellFormed(d)
    ensures |r| == |Sched(d)|
  {
    SchedFacts(d);
    SchedPlaced(d);
    LinkedAll(d.dependencies, FinalRanks(d), Laid(Sched(d), PostMax(d)))
  }

  /** The schedule compile builds for a definition once its ordering converges. */
  ghost function CompiledSchedule(d: Definition): (r: seq<ScheduleEntry>)
    requires WellFormed(d)
    ensures |r| == |Sched(d)|
  {
    WithInterps(NormalizedAll(LinkedEntries(d)), SortedRules(d))
  }

  /** The number of intermediate events of a definition's schedule. */
  ghost function IntermediateCount(d: Definition): nat
    requires WellFormed(d)
  {
    SchedFacts(d);
    Sum(Counts(Sched(d), PostMax(d)))
  }

  /** `max_preconditions` bounds every list with room for the start event, and is
      no larger than needed. */
  ghost predicate MaxPreOk(entries: seq<ScheduleEntry>, maxPre: nat)
  {
    && maxPre >= 1
    && (forall t :: 0 <= t < |entries| ==> |entries[t].preconditions| < maxPre)
    && (maxPre == 1 || exists t :: 0 <= t < |entries| && maxPre == |entries[t].preconditions| + 1)
  }

  /** compile from the event layout to the interpolation ranges: lay out the events,
      link the dependencies, normalize the precondition lists, sort the rules and
      record each entry's range. */
  method EntriesPhase(d: Definition, ranks: map<OpKey, nat>, schedule: seq<OpKey>, postMax: seq<nat>)
    returns (entries: seq<ScheduleEntry>, numIntermediate: nat, numFinal: nat, maxPre: nat,
             rules: seq<Interpolation>, opToInterp: map<OpKey, (nat, nat)>)
    requires WellFormed(d)
    requires ranks == FinalRanks(d) && schedule == Sched(d) && postMax == PostMax(d)
    ensures entries == CompiledSchedule(d)
    ensures numIntermediate == IntermediateCount(d)
    ensures numFinal == |FinalSet(entries)|
    ensures MaxPreOk(entries, maxPre)
    ensures rules == SortedRules(d)
    ensures forall k :: k in opToInterp ==> opToInterp[k] == MatchRange(rules, k) && opToInterp[k].1 > 0
    ensures forall t :: 0 <= t < |schedule| ==> InterpData(opToInterp, schedule[t]) == MatchRange(rules, schedule[t])
  {
    SchedFacts(d);
    SchedPlaced(d);
    var linked;
    linked, numIntermediate, numFinal := BuildLinked(d.dependencies, ranks, schedule, postMax);
    rules := SortBy(d.interpolations, InterpKey);
    entries, maxPre, opToInterp := Finish(linked, rules);
  }

  /** Layout and linking, over the schedule and the ranks. */
  method BuildLinked(deps: seq<Dependency>, ranks: map<OpKey, nat>, schedule: seq<OpKey>, postMax: seq<nat>)
    returns (linked: seq<ScheduleEntry>, numIntermediate: nat, numFinal: nat)
    requires InstancesKnown(schedule, postMax) && Placed(deps, ranks, |schedule|)
    ensures linked == LinkedAll(deps, ranks, Laid(schedule, postMax))
    ensures |linked| == |schedule| && forall t :: 0 <= t < |schedule| ==> linked[t].op == schedule[t]
    ensures numIntermediate == Sum(Counts(schedule, postMax))
    ensures numFinal == |FinalSet(linked)|
  {
    var e0, nf0;
    e0, numIntermediate, nf0 := LayoutEvents(schedule, postMax);
    assert e0 == Laid(schedule, postMax);
    linked, numFinal := LinkDependencies(deps, ranks, e0, nf0);
  }

  /** Normalizing the lists and attaching the rules. */
  method Finish(linked: seq<ScheduleEntry>, rules: seq<Interpolation>)
    returns (entries: seq<ScheduleEntry>, maxPre: nat, opToInterp: map<OpKey, (nat, nat)>)
    requires SortedBy(rules, InterpKey)
    ensures entries == WithInterps(NormalizedAll(linked), rules)
    ensures FinalSet(entries) == FinalSet(linked)
    ensures MaxPreOk(entries, maxPre)
    ensures forall k :: k in opToInterp ==> opToInterp[k] == MatchRange(rules, k) && opToInterp[k].1 > 0
    ensures forall t :: 0 <= t < |linked| ==> InterpData(opToInterp, linked[t].op) == MatchRange(rules, linked[t].op)
  {
    var e2;
    e2, maxPre := NormalizePreconditions(linked);
    assert e2 == NormalizedAll(linked);
    entries, opToInterp := AssignInterpolations(e2, rules);
    assert entries == WithInterps(e2, rules);
    assert forall t :: 0 <= t < |entries| ==> entries[t].preconditions == e2[t].preconditions;
    assert forall t :: 0 <= t < |entries| ==> entries[t].isFinal == linked[t].isFinal;
  }

  // ---------------------------------------------------------------------------
  // What the classic path relies on

  /** The facts about the dependencies that the event numbering relies on: each
      operation source is ranked before its target, produces events, and names one of
      its ports. */
  ghost predicate SourcesRankedFirst(deps: seq<Dependency>, ranks: map<OpKey, nat>, schedule: seq<OpKey>, postMax: seq<nat>)
  {
    forall j :: 0 <= j < |deps| && deps[j].srcKind != ExtPrecond ==> SourceRankedFirst(deps[j], ranks, schedule, postMax)
  }

  ghost predicate SourceRankedFirst(dep: Dependency, ranks: map<OpKey, nat>, schedule: seq<OpKey>, postMax: seq<nat>)
  {
    && Src(dep) in ranks && Tgt(dep) in ranks
    && ranks[Src(dep)] < ranks[Tgt(dep)] < |schedule|
    && schedule[ranks[Src(dep)]] == Src(dep)
    && dep.srcKind != ExtPostcond
    && (if dep.srcKind == Instantiation then dep.srcIndex < |postMax| && dep.srcPort <= postMax[dep.srcIndex]
        else dep.srcPort == 0)
  }

  /** A converged definition's dependencies satisfy them under the final ranks. */
  lemma CompiledSourcesRankedFirst(d: Definition)
    requires WellFormed(d) && Ordering(Corrected, d).converged
    ensures SourcesRankedFirst(d.dependencies, FinalRanks(d), Sched(d), PostMax(d))
  {
    forall j | 0 <= j < |d.dependencies| && d.dependencies[j].srcKind != ExtPrecond
      ensures SourceRankedFirst(d.dependencies[j], FinalRanks(d), Sched(d), PostMax(d))
    {
      DependencyRankedFirst(d, j);
    }
  }

  lemma DependencyRankedFirst(d: Definition, j: nat)
    requires WellFormed(d) && Ordering(Corrected, d).converged
    requires j < |d.dependencies| && d.dependencies[j].srcKind != ExtPrecond
    ensures SourceRankedFirst(d.dependencies[j], FinalRanks(d), Sched(d), PostMax(d))
  {
    FinalRanksOrderDependencies(d);
    assert DependencyOk(d, d.dependencies[j]);
    InstanceSourceDeclared(d, d.dependencies[j]);
    RankedFirstFrom(d.dependencies, j, FinalRanks(d), Sched(d), PostMax(d), d.numInstantiations);
  }

  /** A declared source of an instantiation kind names one of the nested instantiations. */
  lemma InstanceSourceDeclared(d: Definition, dep: Dependency)
    requires DependencyOk(d, dep)
    ensures IsRealKind(dep.srcKind) || dep.srcKind == ExtPrecond
    ensures dep.srcKind == Instantiation ==> dep.srcIndex < d.numInstantiations
  {
  }

  lemma RankedFirstFrom(deps: seq<Dependency>, j: nat, ranks: map<OpKey, nat>, schedule: seq<OpKey>, postMax: seq<nat>,
                        numInst: nat)
    requires IsScheduleOf(ranks, schedule)
    requires j < |deps| && IsRealKind(deps[j].srcKind)
    requires Src(deps[j]) in ranks && Tgt(deps[j]) in ranks && ranks[Src(deps[j])] < ranks[Tgt(deps[j])]
    requires |postMax| == numInst && forall i :: 0 <= i < numInst ==> postMax[i] == MaxSrcPort(deps, i)
    requires deps[j].srcKind == Instantiation ==> deps[j].srcIndex < numInst
    requires deps[j].srcKind != Instantiation ==> deps[j].srcPort == 0
    ensures SourceRankedFirst(deps[j], ranks, schedule, postMax)
  {
  }

  /** Every operation source in a linked list of preconditions is an intermediate event
      of an earlier entry: the event its dependency's source produces on that port. */
  lemma RawSourceEarlier(deps: seq<Dependency>, ranks: map<OpKey, nat>, schedule: seq<OpKey>, postMax: seq<nat>,
                         t: nat, p: Precondition)
    requires InstancesKnown(schedule, postMax) && Placed(deps, ranks, |schedule|)
    requires SourcesRankedFirst(deps, ranks, schedule, postMax)
    requires t < |schedule| && p in RawPreconditions(deps, ranks, Laid(schedule, postMax), t) && p.source >= 0
    ensures p.source < Sum(Counts(schedule, postMax)[..t])
  {
    var laid := Laid(schedule, postMax);
    var j :| 0 <= j < |deps| && ranks[Tgt(deps[j])] == t && p == Precondition(deps[j].tgtPort, SourceOf(deps[j], ranks, laid));
    var dep := deps[j];
    var src := ranks[Src(dep)];
    SourceEventEarlier(schedule, postMax, src, t, dep.srcPort);
  }

  /** The entries built from a schedule whose dependencies run forwards can be replayed:
      the events of each entry start where the previous entry's end, and each entry
      waits only on events produced before its own. */
  lemma EntriesReplayable(deps: seq<Dependency>, ranks: map<OpKey, nat>, schedule: seq<OpKey>, postMax: seq<nat>,
                          rules: seq<Interpolation>)
    requires InstancesKnown(schedule, postMax) && Placed(deps, ranks, |schedule|)
    requires SourcesRankedFirst(deps, ranks, schedule, postMax)
    ensures Replayable(WithInterps(NormalizedAll(LinkedAll(deps, ranks, Laid(schedule, postMax))), rules))
  {
    var es := WithInterps(NormalizedAll(LinkedAll(deps, ranks, Laid(schedule, postMax))), rules);
    EntriesLaidOut(deps, ranks, schedule, postMax, rules);
    forall t | 0 <= t < |es| ensures SourcesKnown(Port0Prefix(es[t].preconditions), es[t].eventBase) {
      EntrySourcesKnown(deps, ranks, schedule, postMax, rules, t);
    }
  }

  /** The entries' events are laid out one after the other. */
  lemma EntriesLaidOut(deps: seq<Dependency>, ranks: map<OpKey, nat>, schedule: seq<OpKey>, postMax: seq<nat>,
                       rules: seq<Interpolation>)
    requires InstancesKnown(schedule, postMax) && Placed(deps, ranks, |schedule|)
    ensures EventsLaidOut(WithInterps(NormalizedAll(LinkedAll(deps, ranks, Laid(schedule, postMax))), rules))
  {
    var es := WithInterps(NormalizedAll(LinkedAll(deps, ranks, Laid(schedule, postMax))), rules);
    assert EventCounts(es) == Counts(schedule, postMax);
  }

  /** Each entry waits on port 0 only for events produced before its own. */
  lemma EntrySourcesKnown(deps: seq<Dependency>, ranks: map<OpKey, nat>, schedule: seq<OpKey>, postMax: seq<nat>,
                          rules: seq<Interpolation>, t: nat)
    requires InstancesKnown(schedule, postMax) && Placed(deps, ranks, |schedule|)
    requires SourcesRankedFirst(deps, ranks, schedule, postMax) && t < |schedule|
    ensures var e := WithInterps(NormalizedAll(LinkedAll(deps, ranks, Laid(schedule, postMax))), rules)[t];
            SourcesKnown(Port0Prefix(e.preconditions), e.eventBase)
  {
    var laid := Laid(schedule, postMax);
    var raw := RawPreconditions(deps, ranks, laid, t);
    CompiledEntryAt(deps, ranks, schedule, postMax, rules, t);
    var pre := Normalized(raw);
    NormalizedIsStrict(raw);
    forall i | 0 <= i < |Port0Prefix(pre)| && Port0Prefix(pre)[i].source >= 0
      ensures Port0Prefix(pre)[i].source < laid[t].eventBase
    {
      assert Port0Prefix(pre)[i] == pre[i];
      assert pre[i] in raw;
      RawSourceEarlier(deps, ranks, schedule, postMax, t, pre[i]);
    }
  }

  /** The schedule compile builds is one the classic path can replay. */
  lemma CompiledIsReplayable(d: Definition)
    requires WellFormed(d) && Ordering(Corrected, d).converged
    ensures Replayable(CompiledSchedule(d))
  {
    SchedFacts(d);
    SchedPlaced(d);
    CompiledSourcesRankedFirst(d);
    EntriesReplayable(d.dependencies, FinalRanks(d), Sched(d), PostMax(d), SortedRules(d));
  }

  // ---------------------------------------------------------------------------
  // Final events and precondition lists of the compiled schedule

  /** A dependency through which the completion of operation `k` reaches the finish
      event transitively: it leaves port 0 of `k` towards anything but an external
      postcondition. */
  predicate FeedsSuccessor(dep: Dependency, k: OpKey)
  {
    dep.srcKind != ExtPrecond && dep.srcPort == 0 && dep.tgtKind != ExtPostcond && Src(dep) == k
  }

  /** Entry `t` of the entries built from a schedule: the operation and events the
      layout gave it, its flag cleared by a port-0 successor, and its linked list of
      preconditions normalized. */
  lemma CompiledEntryAt(deps: seq<Dependency>, ranks: map<OpKey, nat>, schedule: seq<OpKey>, postMax: seq<nat>,
                rules: seq<Interpolation>, t: nat)
    requires InstancesKnown(schedule, postMax) && Placed(deps, ranks, |schedule|) && t < |schedule|
    ensures var laid := Laid(schedule, postMax);
            var e := WithInterps(NormalizedAll(LinkedAll(deps, ranks, laid)), rules)[t];
            && e.op == schedule[t] && e.eventBase == laid[t].eventBase
            && e.isFinal == (schedule[t].kind != ExtPostcond && !HasSuccessor(deps, ranks, t))
            && e.preconditions == Normalized(RawPreconditions(deps, ranks, laid, t))
  {
    var laid := Laid(schedule, postMax);
    var linked := LinkedAll(deps, ranks, laid);
    var norm := NormalizedAll(linked);
    assert linked[t] == Linked(laid[t], deps, ranks, laid, t);
    assert laid[t].preconditions == [];
    assert [] + RawPreconditions(deps, ranks, laid, t) == RawPreconditions(deps, ranks, laid, t);
    assert norm[t] == linked[t].(preconditions := Normalized(linked[t].preconditions));
  }

  /** The operation at position `t` of a schedule is the one ranked `t`. */
  lemma RankedAtPosition(ranks: map<OpKey, nat>, schedule: seq<OpKey>, k: OpKey, t: nat)
    requires IsScheduleOf(ranks, schedule) && t < |schedule|
    ensures (k in ranks && ranks[k] == t) <==> k == schedule[t]
  {
  }

  /** The flag of entry `t`: cleared exactly by a dependency from port 0 of its
      operation towards anything but an external postcondition. */
  lemma EntryFinalFlag(deps: seq<Dependency>, ranks: map<OpKey, nat>, schedule: seq<OpKey>, postMax: seq<nat>,
                       rules: seq<Interpolation>, t: nat)
    requires InstancesKnown(schedule, postMax) && Placed(deps, ranks, |schedule|)
    requires IsScheduleOf(ranks, schedule) && t < |schedule|
    ensures var e := WithInterps(NormalizedAll(LinkedAll(deps, ranks, Laid(schedule, postMax))), rules)[t];
            && e.op == schedule[t]
            && (e.isFinal <==> schedule[t].kind != ExtPostcond &&
                               !exists j :: 0 <= j < |deps| && FeedsSuccessor(deps[j], schedule[t]))
  {
    CompiledEntryAt(deps, ranks, schedule, postMax, rules, t);
    forall j | 0 <= j < |deps| ensures ClearsFinal(deps[j], ranks, t) <==> FeedsSuccessor(deps[j], schedule[t]) {
      RankedAtPosition(ranks, schedule, Src(deps[j]), t);
    }
  }

  /** The precondition list of entry `t`: strictly increasing, and holding exactly the
      preconditions of the dependencies into its operation. */
  lemma EntryPreconditions(deps: seq<Dependency>, ranks: map<OpKey, nat>, schedule: seq<OpKey>, postMax: seq<nat>,
                           rules: seq<Interpolation>, t: nat)
    requires InstancesKnown(schedule, postMax) && Placed(deps, ranks, |schedule|)
    requires IsScheduleOf(ranks, schedule) && t < |schedule|
    ensures var es := WithInterps(NormalizedAll(LinkedAll(deps, ranks, Laid(schedule, postMax))), rules);
            && StrictlySortedBy(es[t].preconditions, PrecondKey)
            && forall p :: p in es[t].preconditions <==>
                 exists j :: 0 <= j < |deps| && Tgt(deps[j]) == schedule[t] &&
                   p == Precondition(deps[j].tgtPort, SourceOf(deps[j], ranks, es))
  {
    var laid := Laid(schedule, postMax);
    var es := WithInterps(NormalizedAll(LinkedAll(deps, ranks, laid)), rules);
    CompiledEntryAt(deps, ranks, schedule, postMax, rules, t);
    var raw := RawPreconditions(deps, ranks, laid, t);
    NormalizedIsStrict(raw);
    forall j | 0 <= j < |deps|
      ensures SourceOf(deps[j], ranks, laid) == SourceOf(deps[j], ranks, es)
      ensures ranks[Tgt(deps[j])] == t <==> Tgt(deps[j]) == schedule[t]
    {
      SourceAgrees(deps, ranks, schedule, postMax, rules, j);
      RankedAtPosition(ranks, schedule, Tgt(deps[j]), t);
    }
  }

  /** Dependency `j` names the same source in the laid-out and the compiled schedule. */
  lemma SourceAgrees(deps: seq<Dependency>, ranks: map<OpKey, nat>, schedule: seq<OpKey>, postMax: seq<nat>,
                     rules: seq<Interpolation>, j: nat)
    requires InstancesKnown(schedule, postMax) && Placed(deps, ranks, |schedule|) && j < |deps|
    ensures var laid := Laid(schedule, postMax);
            SourceOf(deps[j], ranks, laid) ==
            SourceOf(deps[j], ranks, WithInterps(NormalizedAll(LinkedAll(deps, ranks, laid)), rules))
  {
    if deps[j].srcKind != ExtPrecond {
      EventBaseKept(deps, ranks, schedule, postMax, rules, ranks[Src(deps[j])]);
    }
  }

  /** Linking, normalizing and attaching the rules keep each entry's first event. */
  lemma EventBaseKept(deps: seq<Dependency>, ranks: map<OpKey, nat>, schedule: seq<OpKey>, postMax: seq<nat>,
                      rules: seq<Interpolation>, t: nat)
    requires InstancesKnown(schedule, postMax) && Placed(deps, ranks, |schedule|) && t < |schedule|
    ensures var laid := Laid(schedule, postMax);
            WithInterps(NormalizedAll(LinkedAll(deps, ranks, laid)), rules)[t].eventBase == laid[t].eventBase
  {
    CompiledEntryAt(deps, ranks, schedule, postMax, rules, t);
  }

  /** An entry of the compiled schedule feeds the finish event exactly when it is not
      an external postcondition and no dependency leaves its port 0 towards another
      operation. */
  lemma CompiledFinalFlags(d: Definition, t: nat)
    requires WellFormed(d) && t < |Sched(d)|
    ensures CompiledSchedule(d)[t].op == Sched(d)[t]
    ensures CompiledSchedule(d)[t].isFinal <==>
              Sched(d)[t].kind != ExtPostcond &&
              !exists j :: 0 <= j < |d.dependencies| && FeedsSuccessor(d.dependencies[j], Sched(d)[t])
  {
    SchedFacts(d);
    SchedPlaced(d);
    EntryFinalFlag(d.dependencies, FinalRanks(d), Sched(d), PostMax(d), SortedRules(d), t);
  }

  /** After compile, each entry's precondition list is strictly increasing by (port,
      source), so it holds no duplicates, and it holds exactly the preconditions of the
      dependencies into the entry: the port they reach, and the event of the source's
      port or -1-i for external precondition i. */
  lemma CompiledPreconditions(d: Definition, t: nat)
    requires WellFormed(d) && t < |Sched(d)|
    ensures Placed(d.dependencies, FinalRanks(d), |CompiledSchedule(d)|)
    ensures StrictlySortedBy(CompiledSchedule(d)[t].preconditions, PrecondKey)
    ensures forall p :: p in CompiledSchedule(d)[t].preconditions <==>
              exists j :: 0 <= j < |d.dependencies| && Tgt(d.dependencies[j]) == Sched(d)[t] &&
                p == Precondition(d.dependencies[j].tgtPort, SourceOf(d.dependencies[j], FinalRanks(d), CompiledSchedule(d)))
  {
    SchedFacts(d);
    SchedPlaced(d);
    EntryPreconditions(d.dependencies, FinalRanks(d), Sched(d), PostMax(d), SortedRules(d), t);
  }

  /** With `max_preconditions` as compile sizes it, the classic path never gathers more
      events for an entry than the buffer it allocates holds. */
  lemma GatheredWithinMax(entries: seq<ScheduleEntry>, maxPre: nat, t: nat,
                          intermediate: seq<Event>, external: seq<Event>, start: Event)
    requires MaxPreOk(entries, maxPre) && t < |entries|
    requires SourcesKnown(Port0Prefix(entries[t].preconditions), |intermediate|)
    ensures |Preconds(entries[t].preconditions, intermediate, external, start)| <= maxPre
  {
    PrecondsFit(entries[t].preconditions, intermediate, external, start, maxPre);
  }

  // ---------------------------------------------------------------------------
  // The diamond

  /** The diamond subgraph: five tasks on four processors and one arrival, with task 0
      before tasks 1, 2 and 3, task 1 before tasks 2, 3 and 4, and task 2 before task 3. */
  const Diamond := Definition(
    [TaskDesc(0, []), TaskDesc(1, []), TaskDesc(2, []), TaskDesc(3, []), TaskDesc(2, [])],
    0, [ArrivalDesc([])], 0, 0, 0,
    [Dependency(Task, 0, 0, Task, 1, 0), Dependency(Task, 0, 0, Task, 2, 0),
     Dependency(Task, 1, 0, Task, 3, 0), Dependency(Task, 2, 0, Task, 3, 0),
     Dependency(Task, 0, 0, Task, 3, 0), Dependency(Task, 1, 0, Task, 2, 0),
     Dependency(Task, 1, 0, Task, 4, 0)],
    [])

  /** The operations of the diamond that feed the finish event. */
  const DiamondFinals := {OpKey(Task, 3), OpKey(Task, 4), OpKey(Arrival, 0)}

  /** The diamond has no cycle, so compile orders it, as written and corrected. */
  lemma DiamondCompiles()
    ensures WellFormed(Diamond) && Ordering(Corrected, Diamond).converged
    ensures Ordering(AsWritten, Diamond).converged
  {
    DiamondWellFormed();
    DiamondAcyclic();
    OrderingConvergesIffAcyclic(Corrected, Diamond);
    AllOpsListsOps(Diamond);
    assert IsOp(Diamond, OpKey(Task, 0));
    CorrectedRanksAsWritten(Diamond);
  }

  lemma DiamondWellFormed()
    ensures WellFormed(Diamond)
  {
    forall j | 0 <= j < |Diamond.dependencies| ensures DependencyOk(Diamond, Diamond.dependencies[j]) {}
  }

  /** Ranking the diamond's operations by index orders every dependency. */
  lemma DiamondAcyclic()
    ensures Acyclic(Corrected, Diamond.dependencies)
  {
    var deps := Diamond.dependencies;
    var m := map[OpKey(Task, 0) := 0, OpKey(Task, 1) := 1, OpKey(Task, 2) := 2,
                 OpKey(Task, 3) := 3, OpKey(Task, 4) := 4, OpKey(Arrival, 0) := 5];
    assert EdgesIn(deps, m);
    assert Ordered(Corrected, m, deps);
    OrderedIsAcyclic(Corrected, m, deps);
  }

  /** Of the diamond's operations, exactly tasks 0, 1 and 2 have a successor on port 0,
      so by FinalEntriesOf only tasks 3 and 4 and the arrival feed the finish event. */
  lemma DiamondSuccessors()
    ensures forall k :: k in DiamondFinals ==> IsOp(Diamond, k)
    ensures forall k :: IsOp(Diamond, k) ==>
              ((exists j :: 0 <= j < |Diamond.dependencies| && FeedsSuccessor(Diamond.dependencies[j], k)) <==>
               k !in DiamondFinals)
  {
    var deps := Diamond.dependencies;
    forall k | IsOp(Diamond, k)
      ensures (exists j :: 0 <= j < |deps| && FeedsSuccessor(deps[j], k)) <==> k !in DiamondFinals
    {
      if k == OpKey(Task, 0) { assert FeedsSuccessor(deps[0], k); }
      else if k == OpKey(Task, 1) { assert FeedsSuccessor(deps[2], k); }
      else if k == OpKey(Task, 2) { assert FeedsSuccessor(deps[3], k); }
    }
  }

  /** The entries that feed the finish event are those of the operations with no
      port-0 successor, given as the set `finals`; there are as many as operations in it. */
  lemma FinalEntriesOf(d: Definition, finals: set<OpKey>)
    requires WellFormed(d)
    requires forall k :: k in finals ==> IsOp(d, k)
    requires forall k :: IsOp(d, k) ==>
               ((exists j :: 0 <= j < |d.dependencies| && FeedsSuccessor(d.dependencies[j], k)) <==> k !in finals)
    ensures forall t :: 0 <= t < |Sched(d)| ==> (CompiledSchedule(d)[t].isFinal <==> Sched(d)[t] in finals)
    ensures forall k :: k in finals ==> k in FinalRanks(d)
    ensures FinalSet(CompiledSchedule(d)) == set k | k in finals :: FinalRanks(d)[k]
    ensures |FinalSet(CompiledSchedule(d))| == |finals|
  {
    FinalFlagsOf(d, finals);
    FinalRanksAreBijection(d);
    InjectiveImageCard(FinalRanks(d), finals);
  }

  /** The flag of entry `t` of FinalEntriesOf. */
  lemma FinalFlagAt(d: Definition, finals: set<OpKey>, t: nat)
    requires WellFormed(d) && t < |Sched(d)|
    requires forall k :: k in finals ==> IsOp(d, k)
    requires forall k :: IsOp(d, k) ==>
               ((exists j :: 0 <= j < |d.dependencies| && FeedsSuccessor(d.dependencies[j], k)) <==> k !in finals)
    ensures CompiledSchedule(d)[t].isFinal <==> Sched(d)[t] in finals
  {
    SchedFacts(d);
    CompiledFinalFlags(d, t);
  }

  /** Every operation of `finals` has a final rank, at which the schedule lists it. */
  lemma FinalsScheduled(d: Definition, finals: set<OpKey>)
    requires WellFormed(d)
    requires forall k :: k in finals ==> IsOp(d, k)
    ensures forall k :: k in finals ==>
              k in FinalRanks(d) && FinalRanks(d)[k] < |Sched(d)| && Sched(d)[FinalRanks(d)[k]] == k
  {
    AllOpsListsOps(d);
    FinalRanksKeys(d);
    forall k | k in finals
      ensures k in FinalRanks(d) && FinalRanks(d)[k] < |Sched(d)| && Sched(d)[FinalRanks(d)[k]] == k
    {
      assert k in AllOps(d);
    }
  }

  /** The flags of FinalEntriesOf, entry by entry. */
  lemma FinalFlagsOf(d: Definition, finals: set<OpKey>)
    requires WellFormed(d)
    requires forall k :: k in finals ==> IsOp(d, k)
    requires forall k :: IsOp(d, k) ==>
               ((exists j :: 0 <= j < |d.dependencies| && FeedsSuccessor(d.dependencies[j], k)) <==> k !in finals)
    ensures forall t :: 0 <= t < |Sched(d)| ==> (CompiledSchedule(d)[t].isFinal <==> Sched(d)[t] in finals)
    ensures forall k :: k in finals ==> k in FinalRanks(d)
    ensures FinalSet(CompiledSchedule(d)) == set k | k in finals :: FinalRanks(d)[k]
  {
    var s, es, ranks := Sched(d), CompiledSchedule(d), FinalRanks(d);
    forall t | 0 <= t < |s| ensures es[t].isFinal <==> s[t] in finals {
      FinalFlagAt(d, finals, t);
    }
    FinalsScheduled(d, finals);
    FinalSetImage(s, es, ranks, finals);
  }

  /** Flags that follow a set of keys mark exactly the ranks of those keys. */
  lemma FinalSetImage(s: seq<OpKey>, es: seq<ScheduleEntry>, ranks: map<OpKey, nat>, finals: set<OpKey>)
    requires |es| == |s| && IsScheduleOf(ranks, s)
    requires forall t :: 0 <= t < |s| ==> (es[t].isFinal <==> s[t] in finals)
    requires forall k :: k in finals ==> k in ranks
    ensures FinalSet(es) == set k | k in finals :: ranks[k]
  {
    var image := set k | k in finals :: ranks[k];
    forall t | t in FinalSet(es) ensures t in image {
      assert s[t] in finals && ranks[s[t]] == t;
    }
    forall t | t in image ensures t in FinalSet(es) {
      var k :| k in finals && t == ranks[k];
      assert s[t] == k;
    }
  }

  // ---------------------------------------------------------------------------
  // The partition

  /** The processors of a schedule's tasks, in order of first appearance. */
  function ProcsOf(schedule: seq<OpKey>, tasks: seq<TaskDesc>): (r: seq<ProcId>)
    requires Schedulable(schedule, tasks)
    ensures Distinct(r)
  {
    FirstOccurrences(TaskProcs(schedule, tasks))
  }

  /** Each processor numbered by its position. */
  function ProcMap(procs: seq<ProcId>): (m: map<ProcId, nat>)
    requires Distinct(procs)
    ensures Numbered(m, procs)
  {
    map i | 0 <= i < |procs| :: procs[i] := i
  }

  /** There is only one way to number the processors by position. */
  lemma NumberingUnique(m: map<ProcId, nat>, procs: seq<ProcId>)
    requires Distinct(procs) && Numbered(m, procs)
    ensures m == ProcMap(procs)
  {
    forall p | p in m ensures m[p] == ProcMap(procs)[p] {
      var i :| 0 <= i < |procs| && procs[i] == p;
    }
  }

  /** Every task's processor is among the task processors. */
  lemma {:induction false} TaskProcMember(schedule: seq<OpKey>, tasks: seq<TaskDesc>, i: nat)
    requires Schedulable(schedule, tasks) && i < |schedule| && schedule[i].kind == Task
    ensures tasks[schedule[i].index].proc in TaskProcs(schedule, tasks)
  {
    var n := |schedule| - 1;
    if i < n {
      assert schedule[..n][i] == schedule[i];
      TaskProcMember(schedule[..n], tasks, i);
    }
  }

  lemma ProcsIndexedByPosition(schedule: seq<OpKey>, tasks: seq<TaskDesc>)
    requires Schedulable(schedule, tasks)
    ensures ProcsIndexed(schedule, tasks, ProcMap(ProcsOf(schedule, tasks)), |ProcsOf(schedule, tasks)|)
  {
    var procs := ProcsOf(schedule, tasks);
    forall i | 0 <= i < |schedule| && schedule[i].kind == Task
      ensures tasks[schedule[i].index].proc in ProcMap(procs) && ProcMap(procs)[tasks[schedule[i].index].proc] < |procs|
    {
      TaskProcMember(schedule, tasks, i);
      var k :| 0 <= k < |procs| && procs[k] == tasks[schedule[i].index].proc;
    }
  }

  lemma PlacementBounded(schedule: seq<OpKey>, tasks: seq<TaskDesc>, m: map<ProcId, nat>, n: nat)
    requires Schedulable(schedule, tasks) && ProcsIndexed(schedule, tasks, m, n) && ArrivalsPlaceable(schedule, n)
    ensures forall i :: 0 <= i < |schedule| ==> Placement(schedule, tasks, m, n)[i] < n
  {
    forall i | 0 <= i < |schedule| ensures Placement(schedule, tasks, m, n)[i] < n {
      PlacementAt(schedule, tasks, m, n, i);
    }
  }

  /** The processor index of each operation of the schedule. */
  ghost function Pl(schedule: seq<OpKey>, tasks: seq<TaskDesc>): (pl: seq<nat>)
    requires Schedulable(schedule, tasks) && ArrivalsPlaceable(schedule, |ProcsOf(schedule, tasks)|)
    ensures |pl| == |schedule| && forall i :: 0 <= i < |schedule| ==> pl[i] < |ProcsOf(schedule, tasks)|
  {
    var procs := ProcsOf(schedule, tasks);
    ProcsIndexedByPosition(schedule, tasks);
    PlacementBounded(schedule, tasks, ProcMap(procs), |procs|);
    Placement(schedule, tasks, ProcMap(procs), |procs|)
  }

  /** The local schedule of each of `n` processors. */
  function LocalOps(schedule: seq<OpKey>, pl: seq<nat>, n: nat): (r: seq<seq<OpKey>>)
    requires |pl| == |schedule|
    ensures |r| == n
  {
    seq(n, q requires 0 <= q < n => Local(schedule, pl, q))
  }

  /** The processor index recorded for each operation. */
  ghost function Where(schedule: seq<OpKey>, pl: seq<nat>): map<OpKey, nat>
    requires |pl| == |schedule| && Distinct(schedule)
  {
    map j | 0 <= j < |schedule| :: schedule[j] := pl[j]
  }

  /** The slot recorded for each operation. */
  ghost function Slots(schedule: seq<OpKey>, pl: seq<nat>): map<OpKey, nat>
    requires |pl| == |schedule| && Distinct(schedule)
  {
    map j | 0 <= j < |schedule| :: schedule[j] := Slot(schedule, pl, j)
  }

  /** The maps placement records are those. */
  lemma SlotsDetermineMaps(schedule: seq<OpKey>, pl: seq<nat>, opIndices: map<OpKey, nat>, opProcs: map<OpKey, nat>)
    requires |pl| == |schedule| && Distinct(schedule)
    requires SlotsUpTo(schedule, pl, |schedule|, opIndices, opProcs)
    ensures opProcs == Where(schedule, pl) && opIndices == Slots(schedule, pl)
  {
    assert schedule[..|schedule|] == schedule;
    ProcsRecorded(schedule, pl, opProcs);
    SlotsRecorded(schedule, pl, opIndices);
  }

  lemma ProcsRecorded(schedule: seq<OpKey>, pl: seq<nat>, opProcs: map<OpKey, nat>)
    requires |pl| == |schedule| && Distinct(schedule)
    requires forall k :: k in opProcs <==> k in schedule
    requires forall j {:trigger opProcs[schedule[j]]} :: 0 <= j < |schedule| ==> opProcs[schedule[j]] == pl[j]
    ensures opProcs == Where(schedule, pl)
  {
    var w := Where(schedule, pl);
    forall k | k in w ensures opProcs[k] == w[k] {
      var j :| 0 <= j < |schedule| && schedule[j] == k;
      assert opProcs[schedule[j]] == pl[j];
    }
  }

  lemma SlotsRecorded(schedule: seq<OpKey>, pl: seq<nat>, opIndices: map<OpKey, nat>)
    requires |pl| == |schedule| && Distinct(schedule)
    requires forall k :: k in opIndices <==> k in schedule
    requires forall j {:trigger opIndices[schedule[j]]} :: 0 <= j < |schedule| ==> opIndices[schedule[j]] == Slot(schedule, pl, j)
    ensures opIndices == Slots(schedule, pl)
  {
    var sl := Slots(schedule, pl);
    forall k | k in sl ensures opIndices[k] == sl[k] {
      var j :| 0 <= j < |schedule| && schedule[j] == k;
      assert opIndices[schedule[j]] == Slot(schedule, pl, j);
    }
  }

  /** The rules aimed at `k`, as a slice of the sorted rules. */
  function RulesFor(rules: seq<Interpolation>, k: OpKey): seq<Interpolation>
  {
    var (first, num) := MatchRange(rules, k);
    if first + num <= |rules| then rules[first..first + num] else []
  }

  /** Per processor and per operation: the completion infos of the successors. */
  function OutLists(local: seq<seq<OpKey>>, deps: seq<Dependency>, where: map<OpKey, nat>, slots: map<OpKey, nat>)
    : (r: seq<seq<seq<CompletionInfo>>>)
    ensures |r| == |local| && forall q :: 0 <= q < |local| ==> |r[q]| == |local[q]|
  {
    seq(|local|, q requires 0 <= q < |local| => OutInfos(local[q], deps, where, slots))
  }

  /** Per processor and per operation: the rules aimed at it. */
  function RuleLists(local: seq<seq<OpKey>>, rules: seq<Interpolation>): (r: seq<seq<seq<Interpolation>>>)
    ensures |r| == |local| && forall q :: 0 <= q < |local| ==> |r[q]| == |local[q]|
  {
    seq(|local|, q requires 0 <= q < |local| =>
      seq(|local[q]|, j requires 0 <= j < |local[q]| => RulesFor(rules, local[q][j])))
  }

  /** Per processor and per operation: its number of incoming edges. */
  function CounterLists(local: seq<seq<OpKey>>, deps: seq<Dependency>): (r: seq<seq<nat>>)
    ensures |r| == |local| && forall q :: 0 <= q < |local| ==> |r[q]| == |local[q]|
  {
    seq(|local|, q requires 0 <= q < |local| => Counters(local[q], deps))
  }

  /** The vectors compile leaves for the static schedule: every per-processor list
      laid end to end, with offsets. */
  datatype StaticSchedule = StaticSchedule(
    allProcs: seq<ProcId>,
    operationOffsets: seq<nat>, operations: seq<OpKey>,
    completionInfoProcOffsets: seq<nat>, completionInfoTaskOffsets: seq<nat>, completionInfos: seq<CompletionInfo>,
    interpolationProcOffsets: seq<nat>, interpolationTaskOffsets: seq<nat>, interpolations: seq<Interpolation>,
    preconditionOffsets: seq<nat>, originalPreconditions: seq<nat>)

  /** The flattening of per-processor lists. */
  function Flatten(procs: seq<ProcId>, local: seq<seq<OpKey>>, outs: seq<seq<seq<CompletionInfo>>>,
                   rls: seq<seq<seq<Interpolation>>>, counters: seq<seq<nat>>): StaticSchedule
  {
    StaticSchedule(procs,
      PrefixSums(Lengths(local)), Concat(local),
      PrefixSums(Lengths(outs)), PrefixSums(Lengths(Concat(outs))), Concat(Concat(outs)),
      PrefixSums(Lengths(rls)), PrefixSums(Lengths(Concat(rls))), Concat(Concat(rls)),
      PrefixSums(Lengths(counters)), Concat(counters))
  }

  /** The flattened vectors of placement `pl` of the schedule on processors `procs`. */
  ghost function FlattenedFrom(schedule: seq<OpKey>, pl: seq<nat>, procs: seq<ProcId>, deps: seq<Dependency>,
                               rules: seq<Interpolation>): StaticSchedule
    requires |pl| == |schedule| && Distinct(schedule)
  {
    var local := LocalOps(schedule, pl, |procs|);
    Flatten(procs, local, OutLists(local, deps, Where(schedule, pl), Slots(schedule, pl)),
            RuleLists(local, rules), CounterLists(local, deps))
  }

  /** The static schedule of a schedule of tasks and arrivals. */
  ghost function Partitioned(schedule: seq<OpKey>, tasks: seq<TaskDesc>, deps: seq<Dependency>, rules: seq<Interpolation>)
    : StaticSchedule
    requires Schedulable(schedule, tasks) && Distinct(schedule)
    requires ArrivalsPlaceable(schedule, |ProcsOf(schedule, tasks)|)
  {
    FlattenedFrom(schedule, Pl(schedule, tasks), ProcsOf(schedule, tasks), deps, rules)
  }

  /** The waiter lists: one per external precondition id up to the largest with an
      edge, none when there is no such edge; list `e` the fan-out of `e`, with the
      targets looked up as written or corrected. */
  ghost predicate WaitersOk(waiters: seq<seq<CompletionInfo>>, schedule: seq<OpKey>, deps: seq<Dependency>,
                            where: map<OpKey, nat>, slots: map<OpKey, nat>, asWritten: bool)
  {
    && (forall e: nat :: e < |waiters| ==> waiters[e] == FanOut(schedule, deps, where, slots, e, asWritten))
    && (forall e: nat :: FanOut(schedule, deps, where, slots, e, asWritten) != [] ==> e < |waiters|)
    && (|waiters| > 0 ==> FanOut(schedule, deps, where, slots, |waiters| - 1, asWritten) != [])
  }

  /** compile's partition of the schedule: number the processors, place the operations,
      gather each one's successors and rules, fan out the external preconditions, and
      flatten. */
  method BuildPartition(schedule: seq<OpKey>, tasks: seq<TaskDesc>, deps: seq<Dependency>,
                        incoming: map<OpKey, seq<OpKey>>, outgoing: map<OpKey, seq<OpKey>>,
                        rules: seq<Interpolation>, opToInterp: map<OpKey, (nat, nat)>, asWritten: bool)
    returns (ss: StaticSchedule, waiters: seq<seq<CompletionInfo>>)
    requires Schedulable(schedule, tasks) && Distinct(schedule)
    requires ArrivalsPlaceable(schedule, |ProcsOf(schedule, tasks)|)
    requires forall k :: Group(incoming, k) == Incoming(deps, k)
    requires forall k :: Group(outgoing, k) == Outgoing(deps, k)
    requires SortedBy(rules, InterpKey)
    requires forall k :: k in opToInterp ==> opToInterp[k] == MatchRange(rules, k)
    requires forall t :: 0 <= t < |schedule| ==> InterpData(opToInterp, schedule[t]) == MatchRange(rules, schedule[t])
    ensures ss == Partitioned(schedule, tasks, deps, rules)
    ensures WaitersOk(waiters, schedule, deps, Where(schedule, Pl(schedule, tasks)), Slots(schedule, Pl(schedule, tasks)), asWritten)
  {
    var allProcs, local, localOutgoing, localInterps, localIncoming;
    allProcs, local, localOutgoing, localInterps, localIncoming, waiters :=
      PartitionLists(schedule, tasks, deps, incoming, outgoing, rules, opToInterp, asWritten);
    ss := FlattenAll(allProcs, local, localOutgoing, localInterps, localIncoming);
  }

  /** The per-processor lists of the partition, before flattening. */
  method PartitionLists(schedule: seq<OpKey>, tasks: seq<TaskDesc>, deps: seq<Dependency>,
                        incoming: map<OpKey, seq<OpKey>>, outgoing: map<OpKey, seq<OpKey>>,
                        rules: seq<Interpolation>, opToInterp: map<OpKey, (nat, nat)>, asWritten: bool)
    returns (allProcs: seq<ProcId>, local: seq<seq<OpKey>>, localOutgoing: seq<seq<seq<CompletionInfo>>>,
             localInterps: seq<seq<seq<Interpolation>>>, localIncoming: seq<seq<nat>>,
             waiters: seq<seq<CompletionInfo>>)
    requires Schedulable(schedule, tasks) && Distinct(schedule)
    requires ArrivalsPlaceable(schedule, |ProcsOf(schedule, tasks)|)
    requires forall k :: Group(incoming, k) == Incoming(deps, k)
    requires forall k :: Group(outgoing, k) == Outgoing(deps, k)
    requires SortedBy(rules, InterpKey)
    requires forall k :: k in opToInterp ==> opToInterp[k] == MatchRange(rules, k)
    requires forall t :: 0 <= t < |schedule| ==> InterpData(opToInterp, schedule[t]) == MatchRange(rules, schedule[t])
    ensures allProcs == ProcsOf(schedule, tasks)
    ensures local == LocalOps(schedule, Pl(schedule, tasks), |allProcs|)
    ensures localOutgoing == OutLists(local, deps, Where(schedule, Pl(schedule, tasks)), Slots(schedule, Pl(schedule, tasks)))
    ensures localInterps == RuleLists(local, rules)
    ensures localIncoming == CounterLists(local, deps)
    ensures WaitersOk(waiters, schedule, deps, Where(schedule, Pl(schedule, tasks)), Slots(schedule, Pl(schedule, tasks)), asWritten)
  {
    ghost var pl := Pl(schedule, tasks);
    var opIndices, opProcs;
    allProcs, opIndices, opProcs, local, localIncoming := PlaceAll(schedule, tasks, incoming, deps);
    var n := |allProcs|;
    forall k | k in opToInterp ensures opToInterp[k].0 + opToInterp[k].1 <= |rules| {
      MatchRangeExact(rules, k);
    }
    localOutgoing, localInterps := Neighbors(schedule, n, outgoing, opProcs, opIndices, rules, opToInterp, pl, deps);
    OutListsAgree(schedule, pl, n, deps, opProcs, opIndices, localOutgoing);
    RuleListsAgree(schedule, pl, n, rules, opToInterp, localInterps);
    waiters := ExternalPreconditions(schedule, incoming, opProcs, opIndices, asWritten, deps);
  }

  /** compile's numbering of the processors and placement of the operations. */
  method PlaceAll(schedule: seq<OpKey>, tasks: seq<TaskDesc>, incoming: map<OpKey, seq<OpKey>>, ghost deps: seq<Dependency>)
    returns (allProcs: seq<ProcId>, opIndices: map<OpKey, nat>, opProcs: map<OpKey, nat>,
             local: seq<seq<OpKey>>, localIncoming: seq<seq<nat>>)
    requires Schedulable(schedule, tasks) && Distinct(schedule)
    requires ArrivalsPlaceable(schedule, |ProcsOf(schedule, tasks)|)
    requires forall k :: Group(incoming, k) == Incoming(deps, k)
    ensures allProcs == ProcsOf(schedule, tasks)
    ensures opProcs == Where(schedule, Pl(schedule, tasks)) && opIndices == Slots(schedule, Pl(schedule, tasks))
    ensures local == LocalOps(schedule, Pl(schedule, tasks), |allProcs|)
    ensures localIncoming == CounterLists(local, deps)
    ensures forall i :: 0 <= i < |schedule| ==> schedule[i] in opProcs && Pl(schedule, tasks)[i] < |allProcs|
    ensures forall i {:trigger opProcs[schedule[i]]} :: 0 <= i < |schedule| ==> opProcs[schedule[i]] == Pl(schedule, tasks)[i]
  {
    var procToIndex;
    procToIndex, allProcs := AssignProcs(schedule, tasks);
    NumberingUnique(procToIndex, allProcs);
    ProcsIndexedByPosition(schedule, tasks);
    var n := |allProcs|;
    ghost var pl := Pl(schedule, tasks);
    opIndices, opProcs, local, localIncoming := Place(schedule, tasks, procToIndex, n, incoming, deps);
    SlotsDetermineMaps(schedule, pl, opIndices, opProcs);
    PlacedAgree(schedule, pl, deps, n, opIndices, opProcs, local, localIncoming);
  }

  /** The placement loop's lists, once every operation is placed. */
  lemma PlacedAgree(schedule: seq<OpKey>, pl: seq<nat>, deps: seq<Dependency>, n: nat,
                    opIndices: map<OpKey, nat>, opProcs: map<OpKey, nat>,
                    local: seq<seq<OpKey>>, localIncoming: seq<seq<nat>>)
    requires |pl| == |schedule|
    requires PlacedUpTo(schedule, pl, deps, n, |schedule|, opIndices, opProcs, local, localIncoming)
    ensures local == LocalOps(schedule, pl, n) && localIncoming == CounterLists(local, deps)
    ensures forall i :: 0 <= i < |schedule| ==> schedule[i] in opProcs
  {
    assert schedule[..|schedule|] == schedule && pl[..|schedule|] == pl;
  }

  /** The completion targets gathered per operation are its successors' placements. */
  lemma OutListsAgree(schedule: seq<OpKey>, pl: seq<nat>, n: nat, deps: seq<Dependency>,
                      opProcs: map<OpKey, nat>, opIndices: map<OpKey, nat>, localOutgoing: seq<seq<seq<CompletionInfo>>>)
    requires |pl| == |schedule|
    requires OutgoingUpTo(schedule, pl, deps, n, |schedule|, opProcs, opIndices, localOutgoing)
    ensures localOutgoing == OutLists(LocalOps(schedule, pl, n), deps, opProcs, opIndices)
  {
    assert schedule[..|schedule|] == schedule && pl[..|schedule|] == pl;
  }

  /** The rules copied per operation are the slices its range names. */
  lemma RuleListsAgree(schedule: seq<OpKey>, pl: seq<nat>, n: nat, rules: seq<Interpolation>,
                       opToInterp: map<OpKey, (nat, nat)>, localInterps: seq<seq<seq<Interpolation>>>)
    requires |pl| == |schedule|
    requires forall t :: 0 <= t < |schedule| ==> InterpData(opToInterp, schedule[t]) == MatchRange(rules, schedule[t])
    requires InterpsUpTo(schedule, pl, n, |schedule|, rules, opToInterp, localInterps)
    ensures localInterps == RuleLists(LocalOps(schedule, pl, n), rules)
  {
    assert schedule[..|schedule|] == schedule && pl[..|schedule|] == pl;
    var local := LocalOps(schedule, pl, n);
    forall q | 0 <= q < n ensures localInterps[q] == RuleLists(local, rules)[q] {
      forall j | 0 <= j < |local[q]| ensures localInterps[q][j] == RulesFor(rules, local[q][j]) {
        var i := LocalMember(schedule, pl, q, j);
      }
    }
  }

  /** The four flattening loops. */
  method FlattenAll(procs: seq<ProcId>, local: seq<seq<OpKey>>, outs: seq<seq<seq<CompletionInfo>>>,
                    rls: seq<seq<seq<Interpolation>>>, counters: seq<seq<nat>>)
    returns (ss: StaticSchedule)
    ensures ss == Flatten(procs, local, outs, rls, counters)
  {
    var operations, operationOffsets := FlattenOne(local);
    var cpo, cto, infos := FlattenTwo(outs);
    var ipo, ito, interps := FlattenTwo(rls);
    var original, po := FlattenOne(counters);
    ss := StaticSchedule(procs, operationOffsets, operations, cpo, cto, infos, ipo, ito, interps, po, original);
  }

  // ---------------------------------------------------------------------------
  // Reading the static schedule back

  /** Every processor index of the placement names one of `procs`. */
  ghost predicate PlacedOn(schedule: seq<OpKey>, pl: seq<nat>, procs: seq<ProcId>)
  {
    |pl| == |schedule| && Distinct(schedule) && forall i :: 0 <= i < |schedule| ==> pl[i] < |procs|
  }

  /** The recorded processor and slot maps are those of the placement. */
  lemma MapsRecordSlots(schedule: seq<OpKey>, pl: seq<nat>)
    requires |pl| == |schedule| && Distinct(schedule)
    ensures SlotsUpTo(schedule, pl, |schedule|, Slots(schedule, pl), Where(schedule, pl))
  {
    assert schedule[..|schedule|] == schedule;
    var w, sl := Where(schedule, pl), Slots(schedule, pl);
    forall j | 0 <= j < |schedule| ensures w[schedule[j]] == pl[j] && sl[schedule[j]] == Slot(schedule, pl, j) {
      assert schedule[j] in w;
    }
  }

  /** Every operation lands on exactly one processor, so the local schedules hold
      `|schedule|` operations between them. */
  lemma {:induction false} LocalsCoverSchedule(schedule: seq<OpKey>, pl: seq<nat>, n: nat)
    requires |pl| == |schedule| && forall i :: 0 <= i < |schedule| ==> pl[i] < n
    ensures Sum(Lengths(LocalOps(schedule, pl, n))) == |schedule|
  {
    if schedule == [] {
      SumZero(Lengths(LocalOps(schedule, pl, n)));
    } else {
      var m := |schedule| - 1;
      LocalsCoverSchedule(schedule[..m], pl[..m], n);
      assert schedule[..m + 1] == schedule && pl[..m + 1] == pl;
      forall q | 0 <= q < n
        ensures |Local(schedule, pl, q)| == |Local(schedule[..m], pl[..m], q)| + if pl[m] == q then 1 else 0
      {
        LocalStep(schedule, pl, m, q);
      }
      SumBump(Lengths(LocalOps(schedule[..m], pl[..m], n)), Lengths(LocalOps(schedule, pl, n)), pl[m]);
    }
  }

  /** The shape of the static schedule: one offset per processor and one more; the
      operation, completion, interpolation and precondition offsets per processor
      coincide; the operations and counters number as many as the schedule. */
  lemma StaticScheduleShape(schedule: seq<OpKey>, pl: seq<nat>, procs: seq<ProcId>, deps: seq<Dependency>,
                            rules: seq<Interpolation>)
    requires PlacedOn(schedule, pl, procs)
    ensures var ss := FlattenedFrom(schedule, pl, procs, deps, rules);
            && |ss.operationOffsets| == |procs| + 1
            && ss.operationOffsets[|procs|] == |ss.operations| == |schedule|
            && |ss.originalPreconditions| == |schedule|
            && ss.completionInfoProcOffsets == ss.operationOffsets
            && ss.interpolationProcOffsets == ss.operationOffsets
            && ss.preconditionOffsets == ss.operationOffsets
            && |ss.completionInfoTaskOffsets| == |schedule| + 1
            && |ss.interpolationTaskOffsets| == |schedule| + 1
  {
    var local := LocalOps(schedule, pl, |procs|);
    var outs := OutLists(local, deps, Where(schedule, pl), Slots(schedule, pl));
    var rls, counters := RuleLists(local, rules), CounterLists(local, deps);
    LocalsCoverSchedule(schedule, pl, |procs|);
    LastOffset(local);
    SameShapeSameOffsets(local, outs);
    SameShapeSameOffsets(local, rls);
    SameShapeSameOffsets(local, counters);
    ConcatLength(counters);
    ConcatLength(outs);
    ConcatLength(rls);
  }

  /** Each operation sits in the operations vector at its processor's offset plus its
      slot, inside that processor's part, and its counter starts at its number of
      incoming edges. */
  lemma OperationAtSlot(schedule: seq<OpKey>, pl: seq<nat>, procs: seq<ProcId>, deps: seq<Dependency>,
                        rules: seq<Interpolation>, i: nat)
    requires PlacedOn(schedule, pl, procs) && i < |schedule|
    ensures var ss := FlattenedFrom(schedule, pl, procs, deps, rules);
            var x := ss.operationOffsets[pl[i]] + Slot(schedule, pl, i);
            && x < ss.operationOffsets[pl[i] + 1]
            && x < |ss.operations| && ss.operations[x] == schedule[i]
            && x < |ss.originalPreconditions| && ss.originalPreconditions[x] == |Incoming(deps, schedule[i])|
  {
    LocalAt(schedule, pl, i);
    LocalEntryAt(schedule, pl, procs, deps, rules, pl[i], Slot(schedule, pl, i));
    LocalCounterAt(schedule, pl, procs, deps, rules, pl[i], Slot(schedule, pl, i));
  }

  /** Every entry of a processor's part of the operations vector is an operation
      placed on that processor, at that slot. */
  lemma EntryIsPlaced(schedule: seq<OpKey>, pl: seq<nat>, procs: seq<ProcId>, deps: seq<Dependency>,
                      rules: seq<Interpolation>, p: nat, j: nat) returns (i: nat)
    requires PlacedOn(schedule, pl, procs) && p < |procs| && j < |Local(schedule, pl, p)|
    ensures var ss := FlattenedFrom(schedule, pl, procs, deps, rules);
            && i < |schedule| && pl[i] == p && Slot(schedule, pl, i) == j
            && ss.operationOffsets[p] + j < ss.operationOffsets[p + 1]
            && ss.operationOffsets[p] + j < |ss.operations| && ss.operations[ss.operationOffsets[p] + j] == schedule[i]
  {
    i := LocalMember(schedule, pl, p, j);
    LocalEntryAt(schedule, pl, procs, deps, rules, p, j);
  }

  /** The completion info recorded for the m-th successor of an operation addresses,
      through the operation offsets, exactly that successor. */
  lemma CompletionInfoAddressesSuccessor(schedule: seq<OpKey>, pl: seq<nat>, procs: seq<ProcId>, deps: seq<Dependency>,
                                         rules: seq<Interpolation>, p: nat, j: nat, m: nat)
    requires PlacedOn(schedule, pl, procs)
    requires forall dj :: 0 <= dj < |deps| && Src(deps[dj]) in schedule ==> Tgt(deps[dj]) in schedule
    requires p < |procs| && j < |Local(schedule, pl, p)| && m < |Outgoing(deps, Local(schedule, pl, p)[j])|
    ensures var ss := FlattenedFrom(schedule, pl, procs, deps, rules);
            && |ss.operationOffsets| == |procs| + 1
            && ss.completionInfoProcOffsets == ss.operationOffsets
            && InfoAddressesSuccessor(ss, deps, p, j, m, Local(schedule, pl, p)[j], |procs|)
  {
    var ss := FlattenedFrom(schedule, pl, procs, deps, rules);
    var local := LocalOps(schedule, pl, |procs|);
    var outs := OutLists(local, deps, Where(schedule, pl), Slots(schedule, pl));
    assert ss == Flatten(procs, local, outs, RuleLists(local, rules), CounterLists(local, deps));
    assert local[p] == Local(schedule, pl, p);
    SuccessorInLocals(schedule, pl, |procs|, deps, local, outs, p, j, m);
    SuccessorFlattened(procs, local, outs, RuleLists(local, rules), CounterLists(local, deps), deps, p, j, m);
  }

  /** Operation `k` is entry j of processor p: in the operations vector at the
      processor's offset plus j, inside the processor's part. */
  ghost predicate OpAt(ss: StaticSchedule, p: nat, j: nat, k: OpKey)
  {
    && p + 1 < |ss.operationOffsets|
    && ss.operationOffsets[p] + j < ss.operationOffsets[p + 1]
    && ss.operationOffsets[p] + j < |ss.operations|
    && ss.operations[ss.operationOffsets[p] + j] == k
  }

  /** In the flattened vectors: operation j of processor p is `k`, and the info at the
      two-level position (p, j, m) names a processor below `n` and a slot whose entry
      is the m-th successor of `k`. */
  ghost predicate InfoAddressesSuccessor(ss: StaticSchedule, deps: seq<Dependency>, p: nat, j: nat, m: nat, k: OpKey, n: nat)
  {
    && OpAt(ss, p, j, k)
    && p < |ss.completionInfoProcOffsets|
    && var c := ss.completionInfoProcOffsets[p] + j;
    && c < |ss.completionInfoTaskOffsets|
    && ss.completionInfoTaskOffsets[c] + m < |ss.completionInfos|
    && var info := ss.completionInfos[ss.completionInfoTaskOffsets[c] + m];
       && info.proc < n
       && m < |Outgoing(deps, k)|
       && OpAt(ss, info.proc, info.index, Outgoing(deps, k)[m])
  }

  lemma SuccessorFlattened(procs: seq<ProcId>, local: seq<seq<OpKey>>, outs: seq<seq<seq<CompletionInfo>>>,
                           rls: seq<seq<seq<Interpolation>>>, counters: seq<seq<nat>>, deps: seq<Dependency>,
                           p: nat, j: nat, m: nat)
    requires |local| == |procs| && |outs| == |local| && p < |local| && j < |local[p]|
    requires forall q :: 0 <= q < |local| ==> |outs[q]| == |local[q]|
    requires m < |outs[p][j]| && m < |Outgoing(deps, local[p][j])|
    requires outs[p][j][m].proc < |local| && outs[p][j][m].index < |local[outs[p][j][m].proc]|
    requires local[outs[p][j][m].proc][outs[p][j][m].index] == Outgoing(deps, local[p][j])[m]
    ensures var ss := Flatten(procs, local, outs, rls, counters);
            && |ss.operationOffsets| == |procs| + 1
            && ss.completionInfoProcOffsets == ss.operationOffsets
            && InfoAddressesSuccessor(ss, deps, p, j, m, local[p][j], |procs|)
  {
    SameShapeSameOffsets(outs, local);
    FlatOpAt(procs, local, outs, rls, counters, p, j);
    FlatInfoAt(procs, local, outs, rls, counters, p, j, m);
    FlatOpAt(procs, local, outs, rls, counters, outs[p][j][m].proc, outs[p][j][m].index);
  }

  /** Slot j of processor p's list, in the flattened operations vector. */
  lemma FlatOpAt(procs: seq<ProcId>, local: seq<seq<OpKey>>, outs: seq<seq<seq<CompletionInfo>>>,
                 rls: seq<seq<seq<Interpolation>>>, counters: seq<seq<nat>>, p: nat, j: nat)
    requires p < |local| && j < |local[p]|
    ensures OpAt(Flatten(procs, local, outs, rls, counters), p, j, local[p][j])
  {
    OneLevelAt(local, p, j);
  }

  /** The m-th completion info of slot j of processor p, in the flattened vectors. */
  lemma FlatInfoAt(procs: seq<ProcId>, local: seq<seq<OpKey>>, outs: seq<seq<seq<CompletionInfo>>>,
                   rls: seq<seq<seq<Interpolation>>>, counters: seq<seq<nat>>, p: nat, j: nat, m: nat)
    requires p < |outs| && j < |outs[p]| && m < |outs[p][j]|
    ensures var ss := Flatten(procs, local, outs, rls, counters);
            && p < |ss.completionInfoProcOffsets|
            && var c := ss.completionInfoProcOffsets[p] + j;
            && c < |ss.completionInfoTaskOffsets|
            && ss.completionInfoTaskOffsets[c] + m < |ss.completionInfos|
            && ss.completionInfos[ss.completionInfoTaskOffsets[c] + m] == outs[p][j][m]
  {
    TwoLevelAt(outs, p, j, m);
  }

  /** Within the local lists: the m-th successor info of slot j of processor p names
      the processor and slot holding that successor. */
  lemma SuccessorInLocals(schedule: seq<OpKey>, pl: seq<nat>, n: nat, deps: seq<Dependency>,
                          local: seq<seq<OpKey>>, outs: seq<seq<seq<CompletionInfo>>>, p: nat, j: nat, m: nat)
    requires |pl| == |schedule| && Distinct(schedule) && forall i :: 0 <= i < |schedule| ==> pl[i] < n
    requires forall dj :: 0 <= dj < |deps| && Src(deps[dj]) in schedule ==> Tgt(deps[dj]) in schedule
    requires local == LocalOps(schedule, pl, n)
    requires outs == OutLists(local, deps, Where(schedule, pl), Slots(schedule, pl))
    requires p < n && j < |local[p]| && m < |Outgoing(deps, local[p][j])|
    ensures m < |outs[p][j]|
    ensures outs[p][j][m].proc < n && outs[p][j][m].index < |local[outs[p][j][m].proc]|
    ensures local[outs[p][j][m].proc][outs[p][j][m].index] == Outgoing(deps, local[p][j])[m]
  {
    assert local[p] == Local(schedule, pl, p);
    assert outs[p] == OutInfos(Local(schedule, pl, p), deps, Where(schedule, pl), Slots(schedule, pl));
    SuccessorSlot(schedule, pl, n, deps, p, j, m);
    assert local[outs[p][j][m].proc] == Local(schedule, pl, outs[p][j][m].proc);
  }

  /** SuccessorInLocals stated on the local schedules themselves. */
  lemma SuccessorSlot(schedule: seq<OpKey>, pl: seq<nat>, n: nat, deps: seq<Dependency>, p: nat, j: nat, m: nat)
    requires |pl| == |schedule| && Distinct(schedule) && forall i :: 0 <= i < |schedule| ==> pl[i] < n
    requires forall dj :: 0 <= dj < |deps| && Src(deps[dj]) in schedule ==> Tgt(deps[dj]) in schedule
    requires j < |Local(schedule, pl, p)| && m < |Outgoing(deps, Local(schedule, pl, p)[j])|
    ensures var info := OutInfos(Local(schedule, pl, p), deps, Where(schedule, pl), Slots(schedule, pl))[j][m];
            && info.proc < n && info.index < |Local(schedule, pl, info.proc)|
            && Local(schedule, pl, info.proc)[info.index] == Outgoing(deps, Local(schedule, pl, p)[j])[m]
  {
    var w, sl := Where(schedule, pl), Slots(schedule, pl);
    var info := OutInfos(Local(schedule, pl, p), deps, w, sl)[j][m];
    MapsRecordSlots(schedule, pl);
    OutInfoAddressesSuccessor(schedule, pl, deps, w, sl, p, j, m);
    var i := LocalMember(schedule, pl, info.proc, info.index);
  }

  /** The interpolation rules recorded for an operation are the slice of the sorted
      rules aimed at it. */
  lemma RulesAtSlot(schedule: seq<OpKey>, pl: seq<nat>, procs: seq<ProcId>, deps: seq<Dependency>,
                    rules: seq<Interpolation>, p: nat, j: nat)
    requires PlacedOn(schedule, pl, procs) && p < |procs| && j < |Local(schedule, pl, p)|
    ensures RulesSliceIs(FlattenedFrom(schedule, pl, procs, deps, rules), p, j, RulesFor(rules, Local(schedule, pl, p)[j]))
  {
    var local := LocalOps(schedule, pl, |procs|);
    assert local[p] == Local(schedule, pl, p);
    RuleListAt(local, rules, p, j);
    RulesFlattened(procs, local, OutLists(local, deps, Where(schedule, pl), Slots(schedule, pl)),
                   RuleLists(local, rules), CounterLists(local, deps), p, j);
  }

  lemma RuleListAt(local: seq<seq<OpKey>>, rules: seq<Interpolation>, p: nat, j: nat)
    requires p < |local| && j < |local[p]|
    ensures RuleLists(local, rules)[p][j] == RulesFor(rules, local[p][j])
  {
  }

  /** The interpolation offsets of operation j of processor p delimit `rs`. */
  ghost predicate RulesSliceIs(ss: StaticSchedule, p: nat, j: nat, rs: seq<Interpolation>)
  {
    && p < |ss.interpolationProcOffsets|
    && var c := ss.interpolationProcOffsets[p] + j;
    && c + 1 < |ss.interpolationTaskOffsets|
    && ss.interpolationTaskOffsets[c] <= ss.interpolationTaskOffsets[c + 1] <= |ss.interpolations|
    && ss.interpolations[ss.interpolationTaskOffsets[c]..ss.interpolationTaskOffsets[c + 1]] == rs
  }

  lemma RulesFlattened(procs: seq<ProcId>, local: seq<seq<OpKey>>, outs: seq<seq<seq<CompletionInfo>>>,
                       rls: seq<seq<seq<Interpolation>>>, counters: seq<seq<nat>>, p: nat, j: nat)
    requires p < |rls| && j < |rls[p]|
    ensures RulesSliceIs(Flatten(procs, local, outs, rls, counters), p, j, rls[p][j])
  {
    var flat := Concat(rls);
    OneLevelAt(rls, p, j);
    SliceAt(flat, PrefixSums(Lengths(rls))[p] + j);
  }

  /** The entries of list `c` of `flat` lie between its offset and the next. */
  lemma SliceAt<T>(flat: seq<seq<T>>, c: nat)
    requires c < |flat|
    ensures var offs := PrefixSums(Lengths(flat));
            && offs[c] <= offs[c + 1] <= |Concat(flat)|
            && Concat(flat)[offs[c]..offs[c + 1]] == flat[c]
  {
    var offs := PrefixSums(Lengths(flat));
    OffsetBounds(flat, c);
    var sl := Concat(flat)[offs[c]..offs[c + 1]];
    forall m | 0 <= m < |flat[c]| ensures sl[m] == flat[c][m] {
      OneLevelAt(flat, c, m);
    }
  }

  lemma OffsetBounds<T>(flat: seq<seq<T>>, c: nat)
    requires c < |flat|
    ensures var offs := PrefixSums(Lengths(flat));
            offs[c] + |flat[c]| == offs[c + 1] <= |Concat(flat)|
  {
    NextOffset(Lengths(flat), c);
    LastOffset(flat);
    SumMonotone(Lengths(flat), c + 1, |flat|);
  }

  /** The slice of sorted rules for `k` holds every rule aimed at `k` and no other. */
  lemma RulesForExact(rules: seq<Interpolation>, k: OpKey)
    requires SortedBy(rules, InterpKey)
    ensures forall m :: 0 <= m < |RulesFor(rules, k)| ==> AimsAt(RulesFor(rules, k)[m], k)
    ensures forall i :: 0 <= i < |rules| && AimsAt(rules[i], k) ==> rules[i] in RulesFor(rules, k)
  {
    MatchRangeExact(rules, k);
    var (first, num) := MatchRange(rules, k);
    forall i | 0 <= i < |rules| && AimsAt(rules[i], k) ensures rules[i] in RulesFor(rules, k) {
      assert rules[i] == RulesFor(rules, k)[i - first];
    }
  }

  /** Each waiter of external precondition `e` addresses, through the precondition
      offsets, the counter of an operation gated by `e`. */
  lemma WaiterAddressesGatedOp(schedule: seq<OpKey>, pl: seq<nat>, procs: seq<ProcId>, deps: seq<Dependency>,
                               rules: seq<Interpolation>, waiters: seq<seq<CompletionInfo>>, e: nat, m: nat)
    requires PlacedOn(schedule, pl, procs)
    requires WaitersOk(waiters, schedule, deps, Where(schedule, pl), Slots(schedule, pl), false)
    requires e < |waiters| && m < |waiters[e]|
    ensures waiters[e][m].proc < |procs|
    ensures var ss := FlattenedFrom(schedule, pl, procs, deps, rules);
            var info := waiters[e][m];
            && info.index < |Local(schedule, pl, info.proc)|
            && EntryAt(ss, info.proc, info.index, Local(schedule, pl, info.proc)[info.index])
            && ExtKey(e) in Incoming(deps, Local(schedule, pl, info.proc)[info.index])
  {
    WaiterGated(schedule, pl, procs, deps, waiters, e, m);
    LocalEntryAt(schedule, pl, procs, deps, rules, waiters[e][m].proc, waiters[e][m].index);
  }

  /** WaiterAddressesGatedOp within the local schedules. */
  lemma WaiterGated(schedule: seq<OpKey>, pl: seq<nat>, procs: seq<ProcId>, deps: seq<Dependency>,
                    waiters: seq<seq<CompletionInfo>>, e: nat, m: nat)
    requires PlacedOn(schedule, pl, procs)
    requires WaitersOk(waiters, schedule, deps, Where(schedule, pl), Slots(schedule, pl), false)
    requires e < |waiters| && m < |waiters[e]|
    ensures var info := waiters[e][m];
            && info.proc < |procs| && info.index < |Local(schedule, pl, info.proc)|
            && ExtKey(e) in Incoming(deps, Local(schedule, pl, info.proc)[info.index])
  {
    var info: CompletionInfo := waiters[e][m];
    assert info.index < |Local(schedule, pl, info.proc)| && ExtKey(e) in Incoming(deps, Local(schedule, pl, info.proc)[info.index]) by {
      MapsRecordSlots(schedule, pl);
      FanOutAddressesGatedOps(schedule, pl, deps, Where(schedule, pl), Slots(schedule, pl), e);
    }
    var i := LocalMember(schedule, pl, info.proc, info.index);
  }

  /** Slot j of processor p's local schedule, in the flattened vectors. */
  lemma LocalEntryAt(schedule: seq<OpKey>, pl: seq<nat>, procs: seq<ProcId>, deps: seq<Dependency>,
                     rules: seq<Interpolation>, p: nat, j: nat)
    requires PlacedOn(schedule, pl, procs) && p < |procs| && j < |Local(schedule, pl, p)|
    ensures EntryAt(FlattenedFrom(schedule, pl, procs, deps, rules), p, j, Local(schedule, pl, p)[j])
  {
    var local := LocalOps(schedule, pl, |procs|);
    var outs := OutLists(local, deps, Where(schedule, pl), Slots(schedule, pl));
    assert local[p] == Local(schedule, pl, p);
    EntryFlattened(procs, local, outs, RuleLists(local, rules), CounterLists(local, deps), p, j);
  }

  /** The counter of slot j of processor p starts at its operation's number of
      incoming edges. */
  lemma LocalCounterAt(schedule: seq<OpKey>, pl: seq<nat>, procs: seq<ProcId>, deps: seq<Dependency>,
                       rules: seq<Interpolation>, p: nat, j: nat)
    requires PlacedOn(schedule, pl, procs) && p < |procs| && j < |Local(schedule, pl, p)|
    ensures var ss := FlattenedFrom(schedule, pl, procs, deps, rules);
            && ss.operationOffsets[p] + j < |ss.originalPreconditions|
            && ss.originalPreconditions[ss.operationOffsets[p] + j] == |Incoming(deps, Local(schedule, pl, p)[j])|
  {
    var local := LocalOps(schedule, pl, |procs|);
    assert local[p] == Local(schedule, pl, p);
    CounterListAt(local, deps, p, j);
    CounterFlattened(procs, local, OutLists(local, deps, Where(schedule, pl), Slots(schedule, pl)),
                     RuleLists(local, rules), CounterLists(local, deps), p, j);
  }

  lemma CounterListAt(local: seq<seq<OpKey>>, deps: seq<Dependency>, p: nat, j: nat)
    requires p < |local| && j < |local[p]|
    ensures CounterLists(local, deps)[p][j] == |Incoming(deps, local[p][j])|
  {
  }

  /** The counter of slot j of processor p sits at that slot's operation offset. */
  lemma CounterFlattened(procs: seq<ProcId>, local: seq<seq<OpKey>>, outs: seq<seq<seq<CompletionInfo>>>,
                         rls: seq<seq<seq<Interpolation>>>, counters: seq<seq<nat>>, p: nat, j: nat)
    requires |counters| == |local| && forall q :: 0 <= q < |local| ==> |counters[q]| == |local[q]|
    requires p < |local| && j < |local[p]|
    ensures var ss := Flatten(procs, local, outs, rls, counters);
            && ss.operationOffsets[p] + j < |ss.originalPreconditions|
            && ss.originalPreconditions[ss.operationOffsets[p] + j] == counters[p][j]
  {
    SameShapeSameOffsets(local, counters);
    OneLevelAt(counters, p, j);
  }

  /** Operation `k` is entry j of processor p, the precondition offsets are the
      operation offsets, and its counter sits at the same position. */
  ghost predicate EntryAt(ss: StaticSchedule, p: nat, j: nat, k: OpKey)
  {
    && OpAt(ss, p, j, k)
    && ss.preconditionOffsets == ss.operationOffsets
    && ss.operationOffsets[p] + j < |ss.originalPreconditions|
  }

  lemma EntryFlattened(procs: seq<ProcId>, local: seq<seq<OpKey>>, outs: seq<seq<seq<CompletionInfo>>>,
                       rls: seq<seq<seq<Interpolation>>>, counters: seq<seq<nat>>, p: nat, j: nat)
    requires p < |local| && j < |local[p]|
    requires |counters| == |local| && forall q :: 0 <= q < |local| ==> |counters[q]| == |local[q]|
    ensures EntryAt(Flatten(procs, local, outs, rls, counters), p, j, local[p][j])
    ensures Concat(counters)[PrefixSums(Lengths(local))[p] + j] == counters[p][j]
  {
    SameShapeSameOffsets(local, counters);
    FlatOpAt(procs, local, outs, rls, counters, p, j);
    OneLevelAt(counters, p, j);
  }

  /** Every operation gated by external precondition `e` is among its waiters. */
  lemma WaitersCoverGatedOps(schedule: seq<OpKey>, pl: seq<nat>, deps: seq<Dependency>,
                             waiters: seq<seq<CompletionInfo>>, e: nat, i: nat)
    requires |pl| == |schedule| && Distinct(schedule)
    requires WaitersOk(waiters, schedule, deps, Where(schedule, pl), Slots(schedule, pl), false)
    requires i < |schedule| && ExtKey(e) in Incoming(deps, schedule[i])
    ensures e < |waiters| && CompletionInfo(pl[i], Slot(schedule, pl, i)) in waiters[e]
  {
    MapsRecordSlots(schedule, pl);
    FanOutAddressesGatedOps(schedule, pl, deps, Where(schedule, pl), Slots(schedule, pl), e);
  }

  /** What triggering a waiter list needs: every target inside the counter array. */
  lemma WaitersAddressed(schedule: seq<OpKey>, pl: seq<nat>, procs: seq<ProcId>, deps: seq<Dependency>,
                         rules: seq<Interpolation>, waiters: seq<seq<CompletionInfo>>, e: nat)
    requires PlacedOn(schedule, pl, procs)
    requires WaitersOk(waiters, schedule, deps, Where(schedule, pl), Slots(schedule, pl), false)
    requires e < |waiters|
    ensures var ss := FlattenedFrom(schedule, pl, procs, deps, rules);
            Addressed(waiters[e], ss.preconditionOffsets, |ss.originalPreconditions|, |procs|)
  {
    StaticScheduleShape(schedule, pl, procs, deps, rules);
    forall m | 0 <= m < |waiters[e]|
      ensures var ss := FlattenedFrom(schedule, pl, procs, deps, rules);
              waiters[e][m].proc < |ss.preconditionOffsets| && waiters[e][m].proc < |procs| &&
              SlotOf(ss.preconditionOffsets, waiters[e][m]) < |ss.originalPreconditions|
    {
      WaiterAddressesGatedOp(schedule, pl, procs, deps, rules, waiters, e, m);
    }
  }

  /** The as-written waiter lists address slot 0 of processor 0 only, and that slot
      exists whenever some operation is gated: the schedule is then not empty. */
  lemma AsWrittenWaitersAddressed(schedule: seq<OpKey>, tasks: seq<TaskDesc>, pl: seq<nat>, procs: seq<ProcId>,
                                  deps: seq<Dependency>, rules: seq<Interpolation>, waiters: seq<seq<CompletionInfo>>, e: nat)
    requires PlacedOn(schedule, pl, procs) && Schedulable(schedule, tasks)
    requires WaitersOk(waiters, schedule, deps, Where(schedule, pl), Slots(schedule, pl), true)
    requires e < |waiters|
    ensures forall m :: 0 <= m < |waiters[e]| ==> waiters[e][m] == CompletionInfo(0, 0)
    ensures var ss := FlattenedFrom(schedule, pl, procs, deps, rules);
            Addressed(waiters[e], ss.preconditionOffsets, |ss.originalPreconditions|, |procs|)
  {
    var where, slots := Where(schedule, pl), Slots(schedule, pl);
    PlacedKinds(schedule, tasks, pl);
    FanOutAsWrittenReadsZero(schedule, deps, where, slots, e);
    if waiters[e] != [] {
      assert schedule != [];
      FirstSlotExists(schedule, pl, procs, deps, rules);
    }
  }

  /** The placement maps hold scheduled tasks and arrivals only. */
  lemma PlacedKinds(schedule: seq<OpKey>, tasks: seq<TaskDesc>, pl: seq<nat>)
    requires |pl| == |schedule| && Distinct(schedule) && Schedulable(schedule, tasks)
    ensures forall k :: k in Where(schedule, pl) ==> k.kind != ExtPrecond
    ensures forall k :: k in Slots(schedule, pl) ==> k.kind != ExtPrecond
  {
  }

  /** A nonempty schedule has a processor 0 whose first counter exists. */
  lemma FirstSlotExists(schedule: seq<OpKey>, pl: seq<nat>, procs: seq<ProcId>, deps: seq<Dependency>,
                        rules: seq<Interpolation>)
    requires PlacedOn(schedule, pl, procs) && schedule != []
    ensures var ss := FlattenedFrom(schedule, pl, procs, deps, rules);
            0 < |procs| && 0 < |ss.preconditionOffsets| && ss.preconditionOffsets[0] == 0 < |ss.originalPreconditions|
  {
    assert pl[0] < |procs|;
    StaticScheduleShape(schedule, pl, procs, deps, rules);
  }

  // ---------------------------------------------------------------------------
  // The partition of a definition

  /** The kinds the partition accepts at either end of a dependency. */
  predicate AllowedKind(k: OpKind) { k == Task || k == Arrival || k == ExtPrecond }

  /** What compile asserts before partitioning: no copies, nested instantiations,
      acquires or releases, and dependencies only among tasks, arrivals and external
      preconditions. Arrivals are placed round-robin over the processors of the tasks,
      a division by zero without any task, so arrivals come with some task. */
  predicate PartitionSupported(d: Definition)
  {
    && d.numCopies == 0 && d.numInstantiations == 0 && d.numAcquires == 0 && d.numReleases == 0
    && (forall j :: 0 <= j < |d.dependencies| ==>
          AllowedKind(d.dependencies[j].srcKind) && AllowedKind(d.dependencies[j].tgtKind))
    && (|d.arrivals| > 0 ==> |d.tasks| > 0)
  }

  /** Every declared operation and every counted external postcondition is scheduled. */
  lemma InSched(d: Definition, k: OpKey)
    requires WellFormed(d)
    requires IsOp(d, k) || (k.kind == ExtPostcond && k.index < ExtPostcondCount(d.dependencies))
    ensures k in Sched(d)
  {
    ScheduleKeysDistinct(d);
    FinalRanksKeys(d);
    assert Sched(d)[FinalRanks(d)[k]] == k;
  }

  /** Every dependency's target is scheduled. */
  lemma TargetsScheduled(d: Definition)
    requires WellFormed(d)
    ensures forall j :: 0 <= j < |d.dependencies| ==> Tgt(d.dependencies[j]) in Sched(d)
  {
    forall j | 0 <= j < |d.dependencies| ensures Tgt(d.dependencies[j]) in Sched(d) {
      assert DependencyOk(d, d.dependencies[j]);
      InSched(d, Tgt(d.dependencies[j]));
    }
  }

  /** A supported definition schedules only tasks and arrivals, and has a processor
      for its arrivals. */
  lemma SupportedSchedulable(d: Definition)
    requires WellFormed(d) && PartitionSupported(d)
    ensures Distinct(Sched(d)) && Schedulable(Sched(d), d.tasks)
    ensures ArrivalsPlaceable(Sched(d), |ProcsOf(Sched(d), d.tasks)|)
  {
    var s := Sched(d);
    SupportedOps(d);
    ScheduledKinds(d, s);
    forall i | 0 <= i < |s| && IsArrival(s[i]) ensures |ProcsOf(s, d.tasks)| > 0 {
      var r := FirstTaskScheduled(d);
      TaskGivesProcessor(s, d.tasks, r);
    }
  }

  /** Without edges into external postconditions only declared operations are
      scheduled. */
  lemma SupportedOps(d: Definition)
    requires WellFormed(d) && PartitionSupported(d)
    ensures Distinct(Sched(d)) && forall i :: 0 <= i < |Sched(d)| ==> IsOp(d, Sched(d)[i])
  {
    NoExtPostconds(d.dependencies);
    SchedFacts(d);
  }

  lemma NoExtPostconds(deps: seq<Dependency>)
    requires forall j :: 0 <= j < |deps| ==> AllowedKind(deps[j].tgtKind)
    ensures ExtPostcondCount(deps) == 0
  {
  }

  lemma ScheduledKinds(d: Definition, s: seq<OpKey>)
    requires PartitionSupported(d)
    requires forall i :: 0 <= i < |s| ==> IsOp(d, s[i])
    ensures Schedulable(s, d.tasks)
    ensures forall i :: 0 <= i < |s| && IsArrival(s[i]) ==> |d.tasks| > 0
  {
  }

  lemma FirstTaskScheduled(d: Definition) returns (r: nat)
    requires WellFormed(d) && |d.tasks| > 0
    ensures r < |Sched(d)| && Sched(d)[r] == OpKey(Task, 0)
  {
    InSched(d, OpKey(Task, 0));
    r :| 0 <= r < |Sched(d)| && Sched(d)[r] == OpKey(Task, 0);
  }

  /** A scheduled task gives the partition at least one processor. */
  lemma TaskGivesProcessor(s: seq<OpKey>, tasks: seq<TaskDesc>, r: nat)
    requires Schedulable(s, tasks) && r < |s| && s[r].kind == Task
    ensures |ProcsOf(s, tasks)| > 0
  {
    TaskProcMember(s, tasks, r);
    assert tasks[s[r].index].proc in ProcsOf(s, tasks);
  }

  /** The processor index of each scheduled operation. */
  ghost function Placing(d: Definition): (pl: seq<nat>)
    requires WellFormed(d) && PartitionSupported(d)
    ensures Schedulable(Sched(d), d.tasks) && PlacedOn(Sched(d), pl, ProcsOf(Sched(d), d.tasks))
  {
    SupportedSchedulable(d);
    PlIsPlacement(Sched(d), d.tasks);
    Pl(Sched(d), d.tasks)
  }

  /** The placement puts each operation of a schedule on one of its processors. */
  lemma PlIsPlacement(schedule: seq<OpKey>, tasks: seq<TaskDesc>)
    requires Schedulable(schedule, tasks) && Distinct(schedule)
    requires ArrivalsPlaceable(schedule, |ProcsOf(schedule, tasks)|)
    ensures PlacedOn(schedule, Pl(schedule, tasks), ProcsOf(schedule, tasks))
  {
  }

  /** The static schedule compile builds for a definition. */
  ghost function StaticScheduleOf(d: Definition): StaticSchedule
    requires WellFormed(d) && PartitionSupported(d)
  {
    SupportedSchedulable(d);
    Partitioned(Sched(d), d.tasks, d.dependencies, SortedRules(d))
  }

  /** The waiter lists compile builds for a definition's external preconditions, as
      written or corrected. */
  ghost predicate ExtWaitersOk(waiters: seq<seq<CompletionInfo>>, d: Definition, asWritten: bool)
    requires WellFormed(d) && PartitionSupported(d)
  {
    WaitersOk(waiters, Sched(d), d.dependencies, Where(Sched(d), Placing(d)), Slots(Sched(d), Placing(d)), asWritten)
  }

  /** The static schedule is the flattening of the placement. */
  lemma StaticScheduleIsFlattened(d: Definition)
    requires WellFormed(d) && PartitionSupported(d)
    ensures StaticScheduleOf(d) == FlattenedFrom(Sched(d), Placing(d), ProcsOf(Sched(d), d.tasks), d.dependencies, SortedRules(d))
  {
  }

  /** Every target an external precondition's waiter counts down names a processor of
      the static schedule and an operation slot inside its precondition counters. */
  lemma ExtWaitersAddressed(d: Definition, waiters: seq<seq<CompletionInfo>>, e: nat, asWritten: bool)
    requires WellFormed(d) && PartitionSupported(d)
    requires ExtWaitersOk(waiters, d, asWritten) && e < |waiters|
    ensures var ss := StaticScheduleOf(d);
            Addressed(waiters[e], ss.preconditionOffsets, |ss.originalPreconditions|, |ss.allProcs|)
  {
    SupportedSchedulable(d);
    var s, pl, procs := Sched(d), Placing(d), ProcsOf(Sched(d), d.tasks);
    StaticScheduleIsFlattened(d);
    if asWritten {
      AsWrittenWaitersAddressed(s, d.tasks, pl, procs, d.dependencies, SortedRules(d), waiters, e);
    } else {
      WaitersAddressed(s, pl, procs, d.dependencies, SortedRules(d), waiters, e);
    }
  }

  /** compile's group-by of the dependencies and its partition. */
  method PartitionPhase(d: Definition, schedule: seq<OpKey>, rules: seq<Interpolation>, opToInterp: map<OpKey, (nat, nat)>,
                        asWritten: bool)
    returns (ss: StaticSchedule, waiters: seq<seq<CompletionInfo>>)
    requires WellFormed(d) && PartitionSupported(d)
    requires schedule == Sched(d) && rules == SortedRules(d)
    requires forall k :: k in opToInterp ==> opToInterp[k] == MatchRange(rules, k)
    requires forall t :: 0 <= t < |schedule| ==> InterpData(opToInterp, schedule[t]) == MatchRange(rules, schedule[t])
    ensures ss == StaticScheduleOf(d)
    ensures ExtWaitersOk(waiters, d, asWritten)
  {
    SupportedSchedulable(d);
    var incoming, outgoing := GroupEdges(d.dependencies);
    ss, waiters := BuildPartition(schedule, d.tasks, d.dependencies, incoming, outgoing, rules, opToInterp, asWritten);
  }
}
