/** The subgraph object: a definition, and the static schedule compile derives from it
    once, in place; and the waiter an external precondition registers, which counts
    down the preconditions of the operations it gates. */
module Subgraph {
  import opened SubgraphDefs
  import opened Seqs
  import opened Toposort
  import opened Schedule
  import opened Layout
  import opened Interp
  import opened Partition
  import opened Trigger
  import opened Compile

  /** The lists of completion targets of some waiters. */
  function TriggerLists(ws: seq<ExternalPreconditionTriggerer>): (r: seq<seq<CompletionInfo>>)
    ensures |r| == |ws| && forall e :: 0 <= e < |ws| ==> r[e] == ws[e].toTrigger
  {
    seq(|ws|, e requires 0 <= e < |ws| => ws[e].toTrigger)
  }

  class SubgraphImpl {
    var defn: Definition
    var schedule: seq<ScheduleEntry>
    var numIntermediateEvents: nat
    var numFinalEvents: nat
    var maxPreconditions: nat
    /** The vectors compile lays the partition out in: the processors, and per processor
        its operations, their completion targets, interpolation rules and precondition
        counts, each flattened with its offsets. */
    var staticSchedule: StaticSchedule
    /** The live counters, one per operation, counted down as preconditions trigger. */
    var preconditions: array<int>
    /** The work counter of each processor's scheduler. */
    var workCounters: array<nat>
    var externalPrecondWaiters: seq<ExternalPreconditionTriggerer>

    /** Nothing compiled yet. */
    ghost predicate Fresh()
      reads this
    {
      && schedule == [] && numIntermediateEvents == 0 && numFinalEvents == 0 && maxPreconditions == 0
      && staticSchedule == StaticSchedule([], [], [], [], [], [], [], [], [], [], [])
      && externalPrecondWaiters == []
    }

    constructor(d: Definition)
      ensures defn == d && Fresh()
    {
      defn := d;
      schedule := [];
      numIntermediateEvents, numFinalEvents, maxPreconditions := 0, 0, 0;
      staticSchedule := StaticSchedule([], [], [], [], [], [], [], [], [], [], []);
      preconditions := new int[0];
      workCounters := new nat[0];
      externalPrecondWaiters := [];
    }

    /** The ordering and event layout compile derives from `d`, with the interpolation
        rules sorted in place. */
    ghost predicate Ordered(d: Definition)
      requires WellFormed(d)
      reads this`defn, this`schedule, this`numIntermediateEvents, this`numFinalEvents, this`maxPreconditions
    {
      && defn == d.(interpolations := SortedRules(d))
      && schedule == CompiledSchedule(d)
      && numIntermediateEvents == IntermediateCount(d)
      && numFinalEvents == |FinalSet(schedule)|
      && MaxPreOk(schedule, maxPreconditions)
    }

    /** The counters and waiters compile sets up for the installed static schedule:
        live counters loaded from the precondition counts, idle work counters, and one
        waiter per list of `waiters`, each of whose targets lands inside those
        counters. */
    ghost predicate Loaded(waiters: seq<seq<CompletionInfo>>)
      reads this, preconditions, workCounters
    {
      && preconditions[..] == staticSchedule.originalPreconditions
      && workCounters.Length == |staticSchedule.allProcs|
      && (forall p :: 0 <= p < workCounters.Length ==> workCounters[p] == 0)
      && TriggerLists(externalPrecondWaiters) == waiters
      && (forall e :: 0 <= e < |externalPrecondWaiters| ==>
            && externalPrecondWaiters[e].subgraph == this
            && Addressed(externalPrecondWaiters[e].toTrigger, staticSchedule.preconditionOffsets, preconditions.Length, workCounters.Length))
    }

    /** The static schedule and waiters compile derives from `d`, installed; the
        waiters' targets looked up as written or corrected. */
    ghost predicate Installed(d: Definition, asWritten: bool)
      requires WellFormed(d) && PartitionSupported(d)
      reads this, preconditions, workCounters
    {
      && staticSchedule == StaticScheduleOf(d)
      && ExtWaitersOk(TriggerLists(externalPrecondWaiters), d, asWritten)
      && Loaded(TriggerLists(externalPrecondWaiters))
    }

    /** compile: order the operations (failing on a cycle), lay out their events and
        preconditions, sort the interpolation rules in place, check their reduction
        operators (failing on a bad one), then partition the schedule over the
        processors and set up the counters and the external precondition waiters.
        `rule` picks the source's relaxation verdict and fan-out lookup (`AsWritten`:
        a self-dependency passes, an empty definition fails, every waiter target is
        (0, 0)) or the corrected ones. */
    method Compile(registry: map<RedopId, Redop>, rule: RelaxRule) returns (ok: bool)
      requires WellFormed(defn) && Fresh()
      requires Ordering(rule, defn).converged && RedopsOk(defn.interpolations, registry) ==> PartitionSupported(defn)
      modifies this
      ensures ok <==> Ordering(rule, old(defn)).converged && RedopsOk(old(defn).interpolations, registry)
      ensures !Ordering(rule, old(defn)).converged ==> defn == old(defn) && Fresh()
      ensures Ordering(rule, old(defn)).converged ==> Ordered(old(defn))
      ensures Ordering(rule, old(defn)).converged && !ok ==>
                staticSchedule == old(staticSchedule) && externalPrecondWaiters == []
      ensures ok ==> fresh(preconditions) && fresh(workCounters) && Installed(old(defn), rule == AsWritten)
    {
      var d := defn;
      var converged, ranks, sched, postMax := OrderPhase(rule, d);
      if !converged {
        return false;
      }
      ok := CompileOrdered(d, ranks, sched, postMax, registry, rule == AsWritten);
    }

    /** compile once the ordering has converged. */
    method CompileOrdered(d: Definition, ranks: map<OpKey, nat>, sched: seq<OpKey>, postMax: seq<nat>,
                          registry: map<RedopId, Redop>, asWritten: bool)
      returns (ok: bool)
      requires WellFormed(d)
      requires ranks == FinalRanks(d) && sched == Sched(d) && postMax == PostMax(d)
      requires RedopsOk(d.interpolations, registry) ==> PartitionSupported(d)
      requires staticSchedule == StaticSchedule([], [], [], [], [], [], [], [], [], [], []) && externalPrecondWaiters == []
      modifies this
      ensures ok <==> RedopsOk(d.interpolations, registry)
      ensures Ordered(d)
      ensures !ok ==> staticSchedule == old(staticSchedule) && externalPrecondWaiters == []
      ensures ok ==> fresh(preconditions) && fresh(workCounters) && Installed(d, asWritten)
    {
      var rules, opToInterp := LayOut(d, ranks, sched, postMax);
      ok := ValidateRedops(rules, registry);
      RedopsOkAfterSort(d.interpolations, registry);
      if ok {
        Partition(d, sched, rules, opToInterp, asWritten);
      }
    }

    /** compile's event layout, precondition linking and interpolation sort, stored. */
    method LayOut(d: Definition, ranks: map<OpKey, nat>, sched: seq<OpKey>, postMax: seq<nat>)
      returns (rules: seq<Interpolation>, opToInterp: map<OpKey, (nat, nat)>)
      requires WellFormed(d)
      requires ranks == FinalRanks(d) && sched == Sched(d) && postMax == PostMax(d)
      modifies this
      ensures Ordered(d)
      ensures staticSchedule == old(staticSchedule) && externalPrecondWaiters == old(externalPrecondWaiters)
      ensures rules == SortedRules(d)
      ensures forall k :: k in opToInterp ==> opToInterp[k] == MatchRange(rules, k)
      ensures forall t :: 0 <= t < |sched| ==> InterpData(opToInterp, sched[t]) == MatchRange(rules, sched[t])
    {
      var entries, numIntermediate, numFinal, maxPre;
      entries, numIntermediate, numFinal, maxPre, rules, opToInterp := EntriesPhase(d, ranks, sched, postMax);
      Store(d.(interpolations := rules), entries, numIntermediate, numFinal, maxPre);
    }

    /** Stores the sorted definition, the schedule and its event counts. */
    method Store(d: Definition, entries: seq<ScheduleEntry>, numIntermediate: nat, numFinal: nat, maxPre: nat)
      modifies this
      ensures defn == d && schedule == entries
      ensures numIntermediateEvents == numIntermediate && numFinalEvents == numFinal && maxPreconditions == maxPre
      ensures staticSchedule == old(staticSchedule) && externalPrecondWaiters == old(externalPrecondWaiters)
    {
      defn, schedule := d, entries;
      numIntermediateEvents, numFinalEvents, maxPreconditions := numIntermediate, numFinal, maxPre;
    }

    /** compile's partition of the ordered definition, with the fan-out as written or
        corrected. */
    method Partition(d: Definition, sched: seq<OpKey>, rules: seq<Interpolation>, opToInterp: map<OpKey, (nat, nat)>,
                     asWritten: bool)
      requires WellFormed(d) && PartitionSupported(d)
      requires sched == Sched(d) && rules == SortedRules(d)
      requires forall k :: k in opToInterp ==> opToInterp[k] == MatchRange(rules, k)
      requires forall t :: 0 <= t < |sched| ==> InterpData(opToInterp, sched[t]) == MatchRange(rules, sched[t])
      modifies this
      ensures defn == old(defn) && schedule == old(schedule)
      ensures numIntermediateEvents == old(numIntermediateEvents) && numFinalEvents == old(numFinalEvents)
      ensures maxPreconditions == old(maxPreconditions)
      ensures fresh(preconditions) && fresh(workCounters) && Installed(d, asWritten)
    {
      var ss, waiters := PartitionPhase(d, sched, rules, opToInterp, asWritten);
      forall e | 0 <= e < |waiters|
        ensures Addressed(waiters[e], ss.preconditionOffsets, |ss.originalPreconditions|, |ss.allProcs|)
      {
        ExtWaitersAddressed(d, waiters, e, asWritten);
      }
      Install(ss, waiters);
    }

    /** Stores the static schedule, loads the counters and registers the waiters. */
    method Install(ss: StaticSchedule, waiters: seq<seq<CompletionInfo>>)
      requires forall e :: 0 <= e < |waiters| ==>
                 Addressed(waiters[e], ss.preconditionOffsets, |ss.originalPreconditions|, |ss.allProcs|)
      modifies this
      ensures defn == old(defn) && schedule == old(schedule)
      ensures numIntermediateEvents == old(numIntermediateEvents) && numFinalEvents == old(numFinalEvents)
      ensures maxPreconditions == old(maxPreconditions)
      ensures staticSchedule == ss
      ensures fresh(preconditions) && fresh(workCounters) && Loaded(waiters)
    {
      staticSchedule := ss;
      preconditions := LoadCounters(ss.originalPreconditions);
      workCounters := new nat[|ss.allProcs|](_ => 0);
      externalPrecondWaiters := MakeWaiters(waiters);
    }

    /** One waiter per list, each registered against this subgraph. */
    method MakeWaiters(lists: seq<seq<CompletionInfo>>) returns (ws: seq<ExternalPreconditionTriggerer>)
      ensures TriggerLists(ws) == lists
      ensures forall e :: 0 <= e < |ws| ==> ws[e].subgraph == this
    {
      ws := [];
      for e := 0 to |lists|
        invariant TriggerLists(ws) == lists[..e]
        invariant forall k :: 0 <= k < |ws| ==> ws[k].subgraph == this
      {
        var w := new ExternalPreconditionTriggerer(this, lists[e]);
        ws := ws + [w];
      }
      assert lists[..|lists|] == lists;
    }
  }

  /** The atomic counters, loaded with their starting values. */
  method LoadCounters(original: seq<nat>) returns (counters: array<int>)
    ensures fresh(counters) && counters[..] == original
  {
    counters := new int[|original|];
    for i := 0 to |original|
      invariant forall k :: 0 <= k < i ==> counters[k] == original[k]
    {
      counters[i] := original[i];
    }
  }

  class ExternalPreconditionTriggerer {
    const subgraph: SubgraphImpl
    const toTrigger: seq<CompletionInfo>

    constructor(s: SubgraphImpl, infos: seq<CompletionInfo>)
      ensures subgraph == s && toTrigger == infos
    {
      subgraph := s;
      toTrigger := infos;
    }

    /** The precondition has triggered: count down the counter of every listed
        operation, and bump its processor's work counter whenever a counter reaches
        exactly zero. */
    method EventTriggered()
      requires Addressed(toTrigger, subgraph.staticSchedule.preconditionOffsets, subgraph.preconditions.Length, subgraph.workCounters.Length)
      modifies subgraph.preconditions, subgraph.workCounters
      ensures forall x :: 0 <= x < subgraph.preconditions.Length ==>
                subgraph.preconditions[x] == old(subgraph.preconditions[x]) - Hits(toTrigger, subgraph.staticSchedule.preconditionOffsets, x)
      ensures forall p :: 0 <= p < subgraph.workCounters.Length ==>
                subgraph.workCounters[p] ==
                old(subgraph.workCounters[p]) + Signals(old(subgraph.preconditions[..]), toTrigger, subgraph.staticSchedule.preconditionOffsets, p)
    {
      var counters, work, offsets := subgraph.preconditions, subgraph.workCounters, subgraph.staticSchedule.preconditionOffsets;
      ghost var c0, w0 := counters[..], work[..];
      for m := 0 to |toTrigger|
        invariant forall x :: 0 <= x < counters.Length ==> counters[x] == c0[x] - Hits(toTrigger[..m], offsets, x)
        invariant forall p :: 0 <= p < work.Length ==> work[p] == w0[p] + Signals(c0, toTrigger[..m], offsets, p)
      {
        var info := toTrigger[m];
        var x := offsets[info.proc] + info.index;
        var remaining := counters[x] - 1;
        counters[x] := remaining;
        if remaining == 0 {
          work[info.proc] := work[info.proc] + 1;
        }
        forall y | 0 <= y < counters.Length
          ensures counters[y] == c0[y] - Hits(toTrigger[..m + 1], offsets, y)
        {
          HitsSnoc(toTrigger, offsets, m, y);
        }
        forall p | 0 <= p < work.Length
          ensures work[p] == w0[p] + Signals(c0, toTrigger[..m + 1], offsets, p)
        {
          HitsSnoc(toTrigger, offsets, m, x);
          SignalsSnoc(c0, toTrigger, offsets, m, p);
        }
      }
      assert toTrigger[..|toTrigger|] == toTrigger;
    }
  }
}
