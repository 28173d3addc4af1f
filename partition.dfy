/** The static partition compile builds for the task-only fast path: which processor
    runs each operation and at which slot of its local schedule, whom each operation
    notifies when it completes, which interpolation rules it carries, and which
    operations each external precondition releases. */
module Partition {
  import opened SubgraphDefs
  import opened Seqs
  import opened Interp

  /** Where an operation sits: the index of its processor and its slot in that
      processor's local schedule. */
  datatype CompletionInfo = CompletionInfo(proc: nat, index: nat)

  // ---------------------------------------------------------------------------
  // Edges grouped by operation

  /** The sources of the dependencies into `k`, in dependency order. */
  function Incoming(deps: seq<Dependency>, k: OpKey): (r: seq<OpKey>)
    ensures |r| <= |deps|
  {
    if deps == [] then []
    else
      var n := |deps| - 1;
      Incoming(deps[..n], k) + if Tgt(deps[n]) == k then [Src(deps[n])] else []
  }

  /** The targets of the dependencies out of `k`, in dependency order. */
  function Outgoing(deps: seq<Dependency>, k: OpKey): (r: seq<OpKey>)
    ensures |r| <= |deps|
  {
    if deps == [] then []
    else
      var n := |deps| - 1;
      Outgoing(deps[..n], k) + if Src(deps[n]) == k then [Tgt(deps[n])] else []
  }

  /** A std::map of vectors read with operator[]: absent keys read as empty. */
  function Group(m: map<OpKey, seq<OpKey>>, k: OpKey): seq<OpKey>
  {
    if k in m then m[k] else []
  }

  /** An operation's sources are exactly those of the dependencies into it. */
  lemma {:induction false} IncomingMembers(deps: seq<Dependency>, k: OpKey)
    ensures forall x :: x in Incoming(deps, k) <==> exists j :: 0 <= j < |deps| && Tgt(deps[j]) == k && Src(deps[j]) == x
  {
    if deps != [] {
      var n := |deps| - 1;
      assert forall j :: 0 <= j < n ==> deps[..n][j] == deps[j];
      IncomingMembers(deps[..n], k);
    }
  }

  /** An operation's targets are exactly those of the dependencies out of it. */
  lemma {:induction false} OutgoingMembers(deps: seq<Dependency>, k: OpKey)
    ensures forall x :: x in Outgoing(deps, k) <==> exists j :: 0 <= j < |deps| && Src(deps[j]) == k && Tgt(deps[j]) == x
  {
    if deps != [] {
      var n := |deps| - 1;
      assert forall j :: 0 <= j < n ==> deps[..n][j] == deps[j];
      OutgoingMembers(deps[..n], k);
    }
  }

  /** Each operation has one incoming edge per dependency into it. */
  lemma {:induction false} IncomingCount(deps: seq<Dependency>, k: OpKey)
    ensures |Incoming(deps, k)| == Count(deps, dep => Tgt(dep) == k)
  {
    if deps != [] {
      IncomingCount(deps[..|deps| - 1], k);
    }
  }

  /** compile's group-by of the dependencies into incoming and outgoing edge lists. */
  method GroupEdges(deps: seq<Dependency>) returns (incoming: map<OpKey, seq<OpKey>>, outgoing: map<OpKey, seq<OpKey>>)
    ensures forall k :: Group(incoming, k) == Incoming(deps, k)
    ensures forall k :: Group(outgoing, k) == Outgoing(deps, k)
  {
    incoming, outgoing := map[], map[];
    for j := 0 to |deps|
      invariant forall k :: Group(incoming, k) == Incoming(deps[..j], k)
      invariant forall k :: Group(outgoing, k) == Outgoing(deps[..j], k)
    {
      var skey, tkey := Src(deps[j]), Tgt(deps[j]);
      ghost var (incoming0, outgoing0) := (incoming, outgoing);
      incoming := incoming[tkey := Group(incoming, tkey) + [skey]];
      outgoing := outgoing[skey := Group(outgoing, skey) + [tkey]];
      IncomingStep(deps, j, incoming0, incoming);
      OutgoingStep(deps, j, outgoing0, outgoing);
    }
    assert deps[..|deps|] == deps;
  }

  lemma IncomingStep(deps: seq<Dependency>, j: nat, incoming: map<OpKey, seq<OpKey>>, incoming': map<OpKey, seq<OpKey>>)
    requires j < |deps| && forall k :: Group(incoming, k) == Incoming(deps[..j], k)
    requires incoming' == incoming[Tgt(deps[j]) := Group(incoming, Tgt(deps[j])) + [Src(deps[j])]]
    ensures forall k :: Group(incoming', k) == Incoming(deps[..j + 1], k)
  {
    assert deps[..j + 1][..j] == deps[..j];
  }

  lemma OutgoingStep(deps: seq<Dependency>, j: nat, outgoing: map<OpKey, seq<OpKey>>, outgoing': map<OpKey, seq<OpKey>>)
    requires j < |deps| && forall k :: Group(outgoing, k) == Outgoing(deps[..j], k)
    requires outgoing' == outgoing[Src(deps[j]) := Group(outgoing, Src(deps[j])) + [Tgt(deps[j])]]
    ensures forall k :: Group(outgoing', k) == Outgoing(deps[..j + 1], k)
  {
    assert deps[..j + 1][..j] == deps[..j];
  }

  // ---------------------------------------------------------------------------
  // Processors

  /** What the partition asserts of the schedule: only tasks and arrivals, and tasks
      that exist. */
  predicate Schedulable(schedule: seq<OpKey>, tasks: seq<TaskDesc>)
  {
    forall i :: 0 <= i < |schedule| ==>
      (schedule[i].kind == Task && schedule[i].index < |tasks|) || schedule[i].kind == Arrival
  }

  /** The processors of the tasks, in schedule order. */
  function TaskProcs(schedule: seq<OpKey>, tasks: seq<TaskDesc>): seq<ProcId>
    requires Schedulable(schedule, tasks)
  {
    if schedule == [] then []
    else
      var n := |schedule| - 1;
      TaskProcs(schedule[..n], tasks) + if schedule[n].kind == Task then [tasks[schedule[n].index].proc] else []
  }

  /** The elements of `s` in order of first appearance. */
  function FirstOccurrences(s: seq<ProcId>): (r: seq<ProcId>)
    ensures Distinct(r)
    ensures forall p :: p in r <==> p in s
  {
    if s == [] then []
    else
      var n := |s| - 1;
      var r := FirstOccurrences(s[..n]);
      assert s == s[..n] + [s[n]];
      if s[n] in r then r else r + [s[n]]
  }

  /** `procToIndex` numbers the processors of `allProcs` by position. */
  ghost predicate Numbered(procToIndex: map<ProcId, nat>, allProcs: seq<ProcId>)
  {
    && (forall p :: p in procToIndex <==> p in allProcs)
    && (forall i :: 0 <= i < |allProcs| ==> procToIndex[allProcs[i]] == i)
  }

  /** compile's loop numbering the processors of the tasks by first appearance in
      schedule order. */
  method AssignProcs(schedule: seq<OpKey>, tasks: seq<TaskDesc>)
    returns (procToIndex: map<ProcId, nat>, allProcs: seq<ProcId>)
    requires Schedulable(schedule, tasks)
    ensures allProcs == FirstOccurrences(TaskProcs(schedule, tasks))
    ensures Numbered(procToIndex, allProcs)
  {
    procToIndex, allProcs := map[], [];
    for i := 0 to |schedule|
      invariant allProcs == FirstOccurrences(TaskProcs(schedule[..i], tasks))
      invariant Numbered(procToIndex, allProcs)
    {
      procToIndex, allProcs := NumberOne(schedule, tasks, i, procToIndex, allProcs);
    }
    assert schedule[..|schedule|] == schedule;
  }

  /** One iteration: a task's processor not numbered yet gets the next index. */
  method NumberOne(schedule: seq<OpKey>, tasks: seq<TaskDesc>, i: nat,
                   procToIndex: map<ProcId, nat>, allProcs: seq<ProcId>)
    returns (nextIndex: map<ProcId, nat>, nextProcs: seq<ProcId>)
    requires Schedulable(schedule, tasks) && i < |schedule|
    requires allProcs == FirstOccurrences(TaskProcs(schedule[..i], tasks))
    requires Numbered(procToIndex, allProcs)
    ensures nextProcs == FirstOccurrences(TaskProcs(schedule[..i + 1], tasks))
    ensures Numbered(nextIndex, nextProcs)
  {
    FirstOccurrencesStep(schedule, tasks, i);
    nextIndex, nextProcs := procToIndex, allProcs;
    if schedule[i].kind == Task {
      var proc := tasks[schedule[i].index].proc;
      if proc !in procToIndex {
        NumberedPush(procToIndex, allProcs, proc);
        nextIndex := procToIndex[proc := |allProcs|];
        nextProcs := allProcs + [proc];
      }
    }
  }

  /** One more operation adds its task's processor if it is new. */
  lemma FirstOccurrencesStep(schedule: seq<OpKey>, tasks: seq<TaskDesc>, i: nat)
    requires Schedulable(schedule, tasks) && i < |schedule|
    ensures var r := FirstOccurrences(TaskProcs(schedule[..i], tasks));
            FirstOccurrences(TaskProcs(schedule[..i + 1], tasks)) ==
              if schedule[i].kind == Task && tasks[schedule[i].index].proc !in r
              then r + [tasks[schedule[i].index].proc] else r
  {
    assert schedule[..i + 1][..i] == schedule[..i];
    var procs := TaskProcs(schedule[..i], tasks);
    if schedule[i].kind == Task {
      var proc := tasks[schedule[i].index].proc;
      assert TaskProcs(schedule[..i + 1], tasks) == procs + [proc];
      assert (procs + [proc])[..|procs|] == procs;
      var r := FirstOccurrences(procs);
      assert FirstOccurrences(procs + [proc]) == if proc in r then r else r + [proc];
    } else {
      assert TaskProcs(schedule[..i + 1], tasks) == procs;
    }
  }

  lemma NumberedPush(procToIndex: map<ProcId, nat>, allProcs: seq<ProcId>, proc: ProcId)
    requires Numbered(procToIndex, allProcs) && proc !in procToIndex
    ensures Numbered(procToIndex[proc := |allProcs|], allProcs + [proc])
  {
  }

  // ---------------------------------------------------------------------------
  // Placement

  predicate IsArrival(k: OpKey) { k.kind == Arrival }

  /** Every task's processor has an index below `n`. */
  ghost predicate ProcsIndexed(schedule: seq<OpKey>, tasks: seq<TaskDesc>, procToIndex: map<ProcId, nat>, n: nat)
    requires Schedulable(schedule, tasks)
  {
    forall i :: 0 <= i < |schedule| && schedule[i].kind == Task ==>
      tasks[schedule[i].index].proc in procToIndex && procToIndex[tasks[schedule[i].index].proc] < n
  }

  /** The processor index of the operation at position `i`: its task's processor, or
      for the m-th arrival processor m mod n. */
  function ProcIndex(schedule: seq<OpKey>, tasks: seq<TaskDesc>, procToIndex: map<ProcId, nat>, n: nat, i: nat): nat
    requires Schedulable(schedule, tasks) && ProcsIndexed(schedule, tasks, procToIndex, n)
    requires i < |schedule| && (IsArrival(schedule[i]) ==> n > 0)
  {
    if schedule[i].kind == Task then procToIndex[tasks[schedule[i].index].proc]
    else Count(schedule[..i], IsArrival) % n
  }

  /** A processor is available for every arrival: there is one unless no task exists. */
  predicate ArrivalsPlaceable(schedule: seq<OpKey>, n: nat)
  {
    forall i :: 0 <= i < |schedule| && IsArrival(schedule[i]) ==> n > 0
  }

  function Placement(schedule: seq<OpKey>, tasks: seq<TaskDesc>, procToIndex: map<ProcId, nat>, n: nat): (pl: seq<nat>)
    requires Schedulable(schedule, tasks) && ProcsIndexed(schedule, tasks, procToIndex, n)
    requires ArrivalsPlaceable(schedule, n)
    ensures |pl| == |schedule|
  {
    seq(|schedule|, i requires 0 <= i < |schedule| => ProcIndex(schedule, tasks, procToIndex, n, i))
  }

  /** Each operation is placed on a processor index below `n`. */
  lemma PlacementAt(schedule: seq<OpKey>, tasks: seq<TaskDesc>, procToIndex: map<ProcId, nat>, n: nat, i: nat)
    requires Schedulable(schedule, tasks) && ProcsIndexed(schedule, tasks, procToIndex, n)
    requires ArrivalsPlaceable(schedule, n) && i < |schedule|
    ensures var pl := Placement(schedule, tasks, procToIndex, n);
            pl[i] == ProcIndex(schedule, tasks, procToIndex, n, i) && pl[i] < n
  {
  }

  /** The local schedule of processor `p`: the operations placed there, in schedule order. */
  function Local(ks: seq<OpKey>, pl: seq<nat>, p: nat): (r: seq<OpKey>)
    requires |pl| == |ks|
    ensures |r| <= |ks|
  {
    if ks == [] then []
    else
      var n := |ks| - 1;
      Local(ks[..n], pl[..n], p) + if pl[n] == p then [ks[n]] else []
  }

  /** The slot of position `i` in its processor's local schedule. */
  function Slot(ks: seq<OpKey>, pl: seq<nat>, i: nat): nat
    requires |pl| == |ks| && i < |ks|
  {
    |Local(ks[..i], pl[..i], pl[i])|
  }

  /** One more position extends exactly one local schedule. */
  lemma LocalStep(ks: seq<OpKey>, pl: seq<nat>, i: nat, p: nat)
    requires |pl| == |ks| && i < |ks|
    ensures Local(ks[..i + 1], pl[..i + 1], p) == Local(ks[..i], pl[..i], p) + if pl[i] == p then [ks[i]] else []
  {
    assert ks[..i + 1][..i] == ks[..i];
    assert pl[..i + 1][..i] == pl[..i];
  }

  /** A prefix of the schedule gives a prefix of each local schedule. */
  lemma {:induction false} LocalPrefix(ks: seq<OpKey>, pl: seq<nat>, i: nat, p: nat)
    requires |pl| == |ks| && i <= |ks|
    ensures Local(ks[..i], pl[..i], p) <= Local(ks, pl, p)
    decreases |ks| - i
  {
    if i < |ks| {
      LocalStep(ks, pl, i, p);
      LocalPrefix(ks, pl, i + 1, p);
    } else {
      assert ks[..i] == ks && pl[..i] == pl;
    }
  }

  /** The operation at position `i` sits at its slot in its processor's local schedule. */
  lemma LocalAt(ks: seq<OpKey>, pl: seq<nat>, i: nat)
    requires |pl| == |ks| && i < |ks|
    ensures Slot(ks, pl, i) < |Local(ks, pl, pl[i])|
    ensures Local(ks, pl, pl[i])[Slot(ks, pl, i)] == ks[i]
  {
    LocalStep(ks, pl, i, pl[i]);
    LocalPrefix(ks, pl, i + 1, pl[i]);
  }

  /** Every operation of a local schedule was placed there. */
  lemma {:induction false} LocalMember(ks: seq<OpKey>, pl: seq<nat>, p: nat, j: nat) returns (i: nat)
    requires |pl| == |ks| && j < |Local(ks, pl, p)|
    ensures i < |ks| && pl[i] == p && ks[i] == Local(ks, pl, p)[j] && Slot(ks, pl, i) == j
  {
    var n := |ks| - 1;
    LocalStep(ks, pl, n, p);
    assert ks[..n + 1] == ks && pl[..n + 1] == pl;
    if j < |Local(ks[..n], pl[..n], p)| {
      var i' := LocalMember(ks[..n], pl[..n], p, j);
      assert ks[..n][..i'] == ks[..i'] && pl[..n][..i'] == pl[..i'];
      i := i';
    } else {
      i := n;
    }
  }

  /** The number of incoming edges of each operation of a local schedule. */
  function Counters(ks: seq<OpKey>, deps: seq<Dependency>): (r: seq<nat>)
    ensures |r| == |ks|
    ensures forall j :: 0 <= j < |ks| ==> r[j] == |Incoming(deps, ks[j])|
  {
    if ks == [] then [] else
      var n := |ks| - 1;
      assert forall j :: 0 <= j < n ==> ks[..n][j] == ks[j];
      Counters(ks[..n], deps) + [|Incoming(deps, ks[n])|]
  }

  /** std::map operator[] on a map of numbers: absent keys read as 0. */
  function Lookup(m: map<OpKey, nat>, k: OpKey): nat
  {
    if k in m then m[k] else 0
  }

  /** The (processor, slot) pair compile records for an operation. */
  function InfoOf(opProcs: map<OpKey, nat>, opIndices: map<OpKey, nat>, k: OpKey): CompletionInfo
  {
    CompletionInfo(Lookup(opProcs, k), Lookup(opIndices, k))
  }

  /** The local schedules after the first `i` operations. */
  ghost predicate LocalsUpTo(schedule: seq<OpKey>, pl: seq<nat>, n: nat, i: nat, local: seq<seq<OpKey>>)
    requires |pl| == |schedule|
  {
    i <= |schedule| && |local| == n && forall q :: 0 <= q < n ==> local[q] == Local(schedule[..i], pl[..i], q)
  }

  /** Each local counter holds the number of incoming edges of its operation. */
  ghost predicate CountersOk(local: seq<seq<OpKey>>, localIncoming: seq<seq<nat>>, deps: seq<Dependency>)
  {
    |localIncoming| == |local| && forall q :: 0 <= q < |local| ==> localIncoming[q] == Counters(local[q], deps)
  }

  /** The processor index and slot recorded for each of the first `i` operations. */
  ghost predicate SlotsUpTo(schedule: seq<OpKey>, pl: seq<nat>, i: nat, opIndices: map<OpKey, nat>, opProcs: map<OpKey, nat>)
    requires |pl| == |schedule| && i <= |schedule|
  {
    && (forall k :: k in opProcs <==> k in schedule[..i])
    && (forall k :: k in opIndices <==> k in schedule[..i])
    && (forall j {:trigger opProcs[schedule[j]]} :: 0 <= j < i ==> opProcs[schedule[j]] == pl[j])
    && (forall j {:trigger opIndices[schedule[j]]} :: 0 <= j < i ==> opIndices[schedule[j]] == Slot(schedule, pl, j))
  }

  /** The placement of the first `i` operations. */
  ghost predicate PlacedUpTo(schedule: seq<OpKey>, pl: seq<nat>, deps: seq<Dependency>, n: nat, i: nat,
                             opIndices: map<OpKey, nat>, opProcs: map<OpKey, nat>,
                             local: seq<seq<OpKey>>, localIncoming: seq<seq<nat>>)
    requires |pl| == |schedule|
  {
    && LocalsUpTo(schedule, pl, n, i, local)
    && CountersOk(local, localIncoming, deps)
    && SlotsUpTo(schedule, pl, i, opIndices, opProcs)
  }

  /** compile's placement loop: each task goes to its processor's local schedule and
      each arrival to the next processor in turn, recording the processor index, the
      slot and the number of incoming edges. */
  method Place(schedule: seq<OpKey>, tasks: seq<TaskDesc>, procToIndex: map<ProcId, nat>, n: nat,
               incoming: map<OpKey, seq<OpKey>>, ghost deps: seq<Dependency>)
    returns (opIndices: map<OpKey, nat>, opProcs: map<OpKey, nat>, local: seq<seq<OpKey>>, localIncoming: seq<seq<nat>>)
    requires Schedulable(schedule, tasks) && Distinct(schedule)
    requires ProcsIndexed(schedule, tasks, procToIndex, n) && ArrivalsPlaceable(schedule, n)
    requires forall k :: Group(incoming, k) == Incoming(deps, k)
    ensures var pl := Placement(schedule, tasks, procToIndex, n);
            PlacedUpTo(schedule, pl, deps, n, |schedule|, opIndices, opProcs, local, localIncoming)
  {
    ghost var pl := Placement(schedule, tasks, procToIndex, n);
    opIndices, opProcs := map[], map[];
    local, localIncoming := seq(n, _ => []), seq(n, _ => []);
    var arrivalProcIdx := 0;
    for i := 0 to |schedule|
      invariant PlacedUpTo(schedule, pl, deps, n, i, opIndices, opProcs, local, localIncoming)
      invariant arrivalProcIdx == Count(schedule[..i], IsArrival)
    {
      opIndices, opProcs, local, localIncoming, arrivalProcIdx :=
        PlaceOne(schedule, tasks, procToIndex, n, incoming, deps, i, opIndices, opProcs, local, localIncoming, arrivalProcIdx);
    }
    assert schedule[..|schedule|] == schedule;
  }

  /** One iteration of the placement loop. */
  method PlaceOne(schedule: seq<OpKey>, tasks: seq<TaskDesc>, procToIndex: map<ProcId, nat>, n: nat,
                  incoming: map<OpKey, seq<OpKey>>, ghost deps: seq<Dependency>, i: nat,
                  opIndices: map<OpKey, nat>, opProcs: map<OpKey, nat>, local: seq<seq<OpKey>>,
                  localIncoming: seq<seq<nat>>, arrivalProcIdx: nat)
    returns (opIndices': map<OpKey, nat>, opProcs': map<OpKey, nat>, local': seq<seq<OpKey>>,
             localIncoming': seq<seq<nat>>, arrivalProcIdx': nat)
    requires Schedulable(schedule, tasks) && Distinct(schedule) && i < |schedule|
    requires ProcsIndexed(schedule, tasks, procToIndex, n) && ArrivalsPlaceable(schedule, n)
    requires forall k :: Group(incoming, k) == Incoming(deps, k)
    requires var pl := Placement(schedule, tasks, procToIndex, n);
             PlacedUpTo(schedule, pl, deps, n, i, opIndices, opProcs, local, localIncoming)
    requires arrivalProcIdx == Count(schedule[..i], IsArrival)
    ensures var pl := Placement(schedule, tasks, procToIndex, n);
            PlacedUpTo(schedule, pl, deps, n, i + 1, opIndices', opProcs', local', localIncoming')
    ensures arrivalProcIdx' == Count(schedule[..i + 1], IsArrival)
  {
    ghost var pl := Placement(schedule, tasks, procToIndex, n);
    var desc := schedule[i];
    var p: nat;
    if desc.kind == Task {
      p := procToIndex[tasks[desc.index].proc];
    } else {
      p := arrivalProcIdx % n;
    }
    PlacementAt(schedule, tasks, procToIndex, n, i);
    ArrivalsStep(schedule, i);
    arrivalProcIdx' := arrivalProcIdx + if desc.kind == Arrival then 1 else 0;
    var count := |Group(incoming, desc)|;
    PlaceStep(schedule, pl, deps, n, i, p, count, opIndices, opProcs, local, localIncoming);
    opIndices' := opIndices[desc := |local[p]|];
    opProcs' := opProcs[desc := p];
    local' := local[p := local[p] + [desc]];
    localIncoming' := localIncoming[p := localIncoming[p] + [count]];
  }

  /** One more operation counts one more arrival if it is one. */
  lemma ArrivalsStep(schedule: seq<OpKey>, i: nat)
    requires i < |schedule|
    ensures Count(schedule[..i + 1], IsArrival) ==
            Count(schedule[..i], IsArrival) + if IsArrival(schedule[i]) then 1 else 0
  {
    assert schedule[..i + 1][..i] == schedule[..i];
  }

  lemma PlaceStep(schedule: seq<OpKey>, pl: seq<nat>, deps: seq<Dependency>, n: nat, i: nat, p: nat, count: nat,
                  opIndices: map<OpKey, nat>, opProcs: map<OpKey, nat>,
                  local: seq<seq<OpKey>>, localIncoming: seq<seq<nat>>)
    requires |pl| == |schedule| && i < |schedule| && pl[i] < n && Distinct(schedule)
    requires p == pl[i] && count == |Incoming(deps, schedule[i])|
    requires PlacedUpTo(schedule, pl, deps, n, i, opIndices, opProcs, local, localIncoming)
    ensures PlacedUpTo(schedule, pl, deps, n, i + 1,
                       opIndices[schedule[i] := |local[p]|], opProcs[schedule[i] := p],
                       local[p := local[p] + [schedule[i]]],
                       localIncoming[p := localIncoming[p] + [count]])
  {
    LocalsStep(schedule, pl, n, i, local);
    CountersStep(local, localIncoming, deps, p, schedule[i]);
    SlotsStep(schedule, pl, i, opIndices, opProcs, |local[p]|);
  }

  lemma LocalsStep(schedule: seq<OpKey>, pl: seq<nat>, n: nat, i: nat, local: seq<seq<OpKey>>)
    requires |pl| == |schedule| && i < |schedule| && pl[i] < n
    requires LocalsUpTo(schedule, pl, n, i, local)
    ensures LocalsUpTo(schedule, pl, n, i + 1, local[pl[i] := local[pl[i]] + [schedule[i]]])
  {
    var local' := local[pl[i] := local[pl[i]] + [schedule[i]]];
    forall q | 0 <= q < n ensures local'[q] == Local(schedule[..i + 1], pl[..i + 1], q) {
      LocalStep(schedule, pl, i, q);
    }
  }

  lemma CountersStep(local: seq<seq<OpKey>>, localIncoming: seq<seq<nat>>, deps: seq<Dependency>, p: nat, k: OpKey)
    requires CountersOk(local, localIncoming, deps) && p < |local|
    ensures CountersOk(local[p := local[p] + [k]], localIncoming[p := localIncoming[p] + [|Incoming(deps, k)|]], deps)
  {
    assert (local[p] + [k])[..|local[p]|] == local[p];
  }

  lemma SlotsStep(schedule: seq<OpKey>, pl: seq<nat>, i: nat, opIndices: map<OpKey, nat>, opProcs: map<OpKey, nat>, slot: nat)
    requires |pl| == |schedule| && i < |schedule| && Distinct(schedule)
    requires SlotsUpTo(schedule, pl, i, opIndices, opProcs)
    requires slot == Slot(schedule, pl, i)
    ensures SlotsUpTo(schedule, pl, i + 1, opIndices[schedule[i] := slot], opProcs[schedule[i] := pl[i]])
  {
    assert schedule[..i + 1] == schedule[..i] + [schedule[i]];
    forall j | 0 <= j < i ensures schedule[j] != schedule[i] {
    }
  }

  // ---------------------------------------------------------------------------
  // Completion targets and interpolations per operation

  /** The completion infos of a list of operations. */
  function InfosOf(ks: seq<OpKey>, opProcs: map<OpKey, nat>, opIndices: map<OpKey, nat>): (r: seq<CompletionInfo>)
    ensures |r| == |ks|
    ensures forall j :: 0 <= j < |ks| ==> r[j] == InfoOf(opProcs, opIndices, ks[j])
  {
    if ks == [] then [] else
      var n := |ks| - 1;
      assert forall j :: 0 <= j < n ==> ks[..n][j] == ks[j];
      InfosOf(ks[..n], opProcs, opIndices) + [InfoOf(opProcs, opIndices, ks[n])]
  }

  /** The completion infos of the successors of each operation in `ks`. */
  function OutInfos(ks: seq<OpKey>, deps: seq<Dependency>, opProcs: map<OpKey, nat>, opIndices: map<OpKey, nat>)
    : (r: seq<seq<CompletionInfo>>)
    ensures |r| == |ks|
    ensures forall j :: 0 <= j < |ks| ==> r[j] == InfosOf(Outgoing(deps, ks[j]), opProcs, opIndices)
  {
    if ks == [] then [] else
      var n := |ks| - 1;
      assert forall j :: 0 <= j < n ==> ks[..n][j] == ks[j];
      OutInfos(ks[..n], deps, opProcs, opIndices) + [InfosOf(Outgoing(deps, ks[n]), opProcs, opIndices)]
  }

  /** The recorded range of `k` fits in the sorted rules. */
  ghost predicate RangesFit(opToInterp: map<OpKey, (nat, nat)>, s: seq<Interpolation>)
  {
    forall k :: k in opToInterp ==> opToInterp[k].0 + opToInterp[k].1 <= |s|
  }

  /** The rules of an operation: the range recorded for it, if any and if it fits. */
  function RulesOf(s: seq<Interpolation>, opToInterp: map<OpKey, (nat, nat)>, k: OpKey): seq<Interpolation>
  {
    var (first, num) := InterpData(opToInterp, k);
    if first + num <= |s| then s[first..first + num] else []
  }

  /** The interpolation rules of each operation in `ks`. */
  function InterpLists(ks: seq<OpKey>, s: seq<Interpolation>, opToInterp: map<OpKey, (nat, nat)>)
    : (r: seq<seq<Interpolation>>)
    ensures |r| == |ks|
    ensures forall j :: 0 <= j < |ks| ==> r[j] == RulesOf(s, opToInterp, ks[j])
  {
    if ks == [] then [] else
      var n := |ks| - 1;
      assert forall j :: 0 <= j < n ==> ks[..n][j] == ks[j];
      InterpLists(ks[..n], s, opToInterp) + [RulesOf(s, opToInterp, ks[n])]
  }

  /** The outgoing lists built after the first `i` operations. */
  ghost predicate OutgoingUpTo(schedule: seq<OpKey>, pl: seq<nat>, deps: seq<Dependency>, n: nat, i: nat,
                               opProcs: map<OpKey, nat>, opIndices: map<OpKey, nat>,
                               localOutgoing: seq<seq<seq<CompletionInfo>>>)
    requires |pl| == |schedule|
  {
    && i <= |schedule| && |localOutgoing| == n
    && forall q :: 0 <= q < n ==> localOutgoing[q] == OutInfos(Local(schedule[..i], pl[..i], q), deps, opProcs, opIndices)
  }

  /** The interpolation lists built after the first `i` operations. */
  ghost predicate InterpsUpTo(schedule: seq<OpKey>, pl: seq<nat>, n: nat, i: nat,
                              s: seq<Interpolation>, opToInterp: map<OpKey, (nat, nat)>,
                              localInterps: seq<seq<seq<Interpolation>>>)
    requires |pl| == |schedule|
  {
    && i <= |schedule| && |localInterps| == n
    && forall q :: 0 <= q < n ==> localInterps[q] == InterpLists(Local(schedule[..i], pl[..i], q), s, opToInterp)
  }

  /** compile's loop gathering, per operation and on its processor, the completion
      infos of its successors and a copy of its interpolation rules. */
  method Neighbors(schedule: seq<OpKey>, n: nat, outgoing: map<OpKey, seq<OpKey>>,
                   opProcs: map<OpKey, nat>, opIndices: map<OpKey, nat>,
                   s: seq<Interpolation>, opToInterp: map<OpKey, (nat, nat)>,
                   ghost pl: seq<nat>, ghost deps: seq<Dependency>)
    returns (localOutgoing: seq<seq<seq<CompletionInfo>>>, localInterps: seq<seq<seq<Interpolation>>>)
    requires |pl| == |schedule| && RangesFit(opToInterp, s)
    requires forall i :: 0 <= i < |schedule| ==> schedule[i] in opProcs && pl[i] < n
    requires forall i {:trigger opProcs[schedule[i]]} :: 0 <= i < |schedule| ==> opProcs[schedule[i]] == pl[i]
    requires forall k :: Group(outgoing, k) == Outgoing(deps, k)
    ensures OutgoingUpTo(schedule, pl, deps, n, |schedule|, opProcs, opIndices, localOutgoing)
    ensures InterpsUpTo(schedule, pl, n, |schedule|, s, opToInterp, localInterps)
  {
    localOutgoing, localInterps := seq(n, _ => []), seq(n, _ => []);
    for i := 0 to |schedule|
      invariant OutgoingUpTo(schedule, pl, deps, n, i, opProcs, opIndices, localOutgoing)
      invariant InterpsUpTo(schedule, pl, n, i, s, opToInterp, localInterps)
    {
      localOutgoing, localInterps :=
        NeighborsOne(schedule, n, outgoing, opProcs, opIndices, s, opToInterp, pl, deps, i, localOutgoing, localInterps);
    }
  }

  /** One iteration of the neighbor loop. */
  method NeighborsOne(schedule: seq<OpKey>, n: nat, outgoing: map<OpKey, seq<OpKey>>,
                      opProcs: map<OpKey, nat>, opIndices: map<OpKey, nat>,
                      s: seq<Interpolation>, opToInterp: map<OpKey, (nat, nat)>,
                      ghost pl: seq<nat>, ghost deps: seq<Dependency>, i: nat,
                      localOutgoing: seq<seq<seq<CompletionInfo>>>, localInterps: seq<seq<seq<Interpolation>>>)
    returns (localOutgoing': seq<seq<seq<CompletionInfo>>>, localInterps': seq<seq<seq<Interpolation>>>)
    requires |pl| == |schedule| && i < |schedule| && RangesFit(opToInterp, s)
    requires schedule[i] in opProcs && opProcs[schedule[i]] == pl[i] && pl[i] < n
    requires forall k :: Group(outgoing, k) == Outgoing(deps, k)
    requires OutgoingUpTo(schedule, pl, deps, n, i, opProcs, opIndices, localOutgoing)
    requires InterpsUpTo(schedule, pl, n, i, s, opToInterp, localInterps)
    ensures OutgoingUpTo(schedule, pl, deps, n, i + 1, opProcs, opIndices, localOutgoing')
    ensures InterpsUpTo(schedule, pl, n, i + 1, s, opToInterp, localInterps')
  {
    var key := schedule[i];
    var p := opProcs[key];
    var edges := Group(outgoing, key);
    var out := CompletionInfos(edges, opProcs, opIndices);
    var (first, num) := InterpData(opToInterp, key);
    var interps := s[first..first + num];
    localOutgoing' := localOutgoing[p := localOutgoing[p] + [out]];
    localInterps' := localInterps[p := localInterps[p] + [interps]];
    OutInfosStep(schedule, pl, deps, n, i, opProcs, opIndices, localOutgoing, localOutgoing');
    InterpsStep(schedule, pl, n, i, s, opToInterp, localInterps, localInterps');
  }

  /** compile's loop building the completion infos of one operation's successors. */
  method CompletionInfos(edges: seq<OpKey>, opProcs: map<OpKey, nat>, opIndices: map<OpKey, nat>)
    returns (out: seq<CompletionInfo>)
    ensures out == InfosOf(edges, opProcs, opIndices)
  {
    out := [];
    for j := 0 to |edges|
      invariant out == InfosOf(edges[..j], opProcs, opIndices)
    {
      assert edges[..j + 1][..j] == edges[..j];
      var info := CompletionInfo(Lookup(opProcs, edges[j]), Lookup(opIndices, edges[j]));
      out := out + [info];
    }
    assert edges[..|edges|] == edges;
  }

  /** Adding the successors' infos of operation `i` on its processor. */
  lemma OutInfosStep(schedule: seq<OpKey>, pl: seq<nat>, deps: seq<Dependency>, n: nat, i: nat,
                      opProcs: map<OpKey, nat>, opIndices: map<OpKey, nat>,
                      localOutgoing: seq<seq<seq<CompletionInfo>>>, localOutgoing': seq<seq<seq<CompletionInfo>>>)
    requires |pl| == |schedule| && i < |schedule| && pl[i] < n
    requires OutgoingUpTo(schedule, pl, deps, n, i, opProcs, opIndices, localOutgoing)
    requires localOutgoing' ==
               localOutgoing[pl[i] := localOutgoing[pl[i]] + [InfosOf(Outgoing(deps, schedule[i]), opProcs, opIndices)]]
    ensures OutgoingUpTo(schedule, pl, deps, n, i + 1, opProcs, opIndices, localOutgoing')
  {
    forall q | 0 <= q < n
      ensures localOutgoing'[q] == OutInfos(Local(schedule[..i + 1], pl[..i + 1], q), deps, opProcs, opIndices)
    {
      LocalStep(schedule, pl, i, q);
      if pl[i] == q {
        OutInfosSnoc(Local(schedule[..i], pl[..i], q), schedule[i], deps, opProcs, opIndices);
      }
    }
  }

  /** The infos of a list with one more operation end with that operation's infos. */
  lemma OutInfosSnoc(ks: seq<OpKey>, k: OpKey, deps: seq<Dependency>, opProcs: map<OpKey, nat>, opIndices: map<OpKey, nat>)
    ensures OutInfos(ks + [k], deps, opProcs, opIndices) ==
              OutInfos(ks, deps, opProcs, opIndices) + [InfosOf(Outgoing(deps, k), opProcs, opIndices)]
  {
    assert (ks + [k])[..|ks|] == ks;
  }

  /** Adding the rules of operation `i` on its processor. */
  lemma InterpsStep(schedule: seq<OpKey>, pl: seq<nat>, n: nat, i: nat,
                    s: seq<Interpolation>, opToInterp: map<OpKey, (nat, nat)>,
                    localInterps: seq<seq<seq<Interpolation>>>, localInterps': seq<seq<seq<Interpolation>>>)
    requires |pl| == |schedule| && i < |schedule| && pl[i] < n
    requires InterpsUpTo(schedule, pl, n, i, s, opToInterp, localInterps)
    requires localInterps' == localInterps[pl[i] := localInterps[pl[i]] + [RulesOf(s, opToInterp, schedule[i])]]
    ensures InterpsUpTo(schedule, pl, n, i + 1, s, opToInterp, localInterps')
  {
    forall q | 0 <= q < n
      ensures localInterps'[q] == InterpLists(Local(schedule[..i + 1], pl[..i + 1], q), s, opToInterp)
    {
      LocalStep(schedule, pl, i, q);
      if pl[i] == q {
        InterpListsSnoc(Local(schedule[..i], pl[..i], q), schedule[i], s, opToInterp);
      }
    }
  }

  /** The rules of a list with one more operation end with that operation's rules. */
  lemma InterpListsSnoc(ks: seq<OpKey>, k: OpKey, s: seq<Interpolation>, opToInterp: map<OpKey, (nat, nat)>)
    ensures InterpLists(ks + [k], s, opToInterp) == InterpLists(ks, s, opToInterp) + [RulesOf(s, opToInterp, k)]
  {
    assert (ks + [k])[..|ks|] == ks;
  }

  /** Every completion info an operation records addresses the slot of its successor
      in that successor's local schedule. */
  lemma OutInfoAddressesSuccessor(schedule: seq<OpKey>, pl: seq<nat>, deps: seq<Dependency>,
                                  opProcs: map<OpKey, nat>, opIndices: map<OpKey, nat>,
                                  q: nat, j: nat, m: nat)
    requires |pl| == |schedule| && SlotsUpTo(schedule, pl, |schedule|, opIndices, opProcs)
    requires forall dj :: 0 <= dj < |deps| && Src(deps[dj]) in schedule ==> Tgt(deps[dj]) in schedule
    requires j < |Local(schedule, pl, q)| && m < |Outgoing(deps, Local(schedule, pl, q)[j])|
    ensures var info := OutInfos(Local(schedule, pl, q), deps, opProcs, opIndices)[j][m];
            info.index < |Local(schedule, pl, info.proc)| &&
            Local(schedule, pl, info.proc)[info.index] == Outgoing(deps, Local(schedule, pl, q)[j])[m]
  {
    var ks := Local(schedule, pl, q);
    var t := Outgoing(deps, ks[j])[m];
    OutgoingMembers(deps, ks[j]);
    assert t in Outgoing(deps, ks[j]);
    var i0 := LocalMember(schedule, pl, q, j);
    var dj :| 0 <= dj < |deps| && Src(deps[dj]) == ks[j] && Tgt(deps[dj]) == t;
    assert Src(deps[dj]) == schedule[i0];
    var i :| 0 <= i < |schedule| && schedule[i] == t;
    assert schedule[..|schedule|] == schedule;
    assert opProcs[schedule[i]] == pl[i] && opIndices[schedule[i]] == Slot(schedule, pl, i);
    LocalAt(schedule, pl, i);
  }

  // ---------------------------------------------------------------------------
  // External preconditions

  /** The key of external precondition `e`. */
  function ExtKey(e: nat): OpKey { OpKey(ExtPrecond, e) }

  /** `info` repeated `c` times. */
  function Repeat(info: CompletionInfo, c: nat): (r: seq<CompletionInfo>)
    ensures |r| == c
  {
    if c == 0 then [] else Repeat(info, c - 1) + [info]
  }

  lemma {:induction false} RepeatAt(info: CompletionInfo, c: nat, m: nat)
    requires m < c
    ensures Repeat(info, c)[m] == info
  {
    if m < c - 1 {
      RepeatAt(info, c - 1, m);
    }
  }

  /** How many of the edges `srcs` come from external precondition `e`. */
  function ExtEdges(srcs: seq<OpKey>, e: nat): nat
  {
    Count(srcs, x => x == ExtKey(e))
  }

  /** What the fan-out records for an edge from external precondition `e` into `k`:
      the info of the gated operation, or, as written, the info looked up under the
      edge's own key. */
  function FanOutInfo(opProcs: map<OpKey, nat>, opIndices: map<OpKey, nat>, k: OpKey, e: nat, asWritten: bool)
    : CompletionInfo
  {
    InfoOf(opProcs, opIndices, if asWritten then ExtKey(e) else k)
  }

  /** The operations external precondition `e` releases, one info per edge, in
      schedule order. */
  function FanOut(schedule: seq<OpKey>, deps: seq<Dependency>, opProcs: map<OpKey, nat>, opIndices: map<OpKey, nat>,
                  e: nat, asWritten: bool): seq<CompletionInfo>
  {
    if schedule == [] then []
    else
      var n := |schedule| - 1;
      FanOut(schedule[..n], deps, opProcs, opIndices, e, asWritten) +
      Repeat(FanOutInfo(opProcs, opIndices, schedule[n], e, asWritten), ExtEdges(Incoming(deps, schedule[n]), e))
  }

  /** The fan-out map read with a default, as std::map operator[] reads it. */
  function Waiters(m: map<nat, seq<CompletionInfo>>, e: nat): seq<CompletionInfo>
  {
    if e in m then m[e] else []
  }

  /** `maxId` is the largest external precondition id with a list, or 0 when there
      is none, and every list present is nonempty. */
  ghost predicate MaxOk(ext: map<nat, seq<CompletionInfo>>, maxId: nat)
  {
    && (forall e :: e in ext ==> Waiters(ext, e) != [] && e <= maxId)
    && (ext == map[] ==> maxId == 0)
    && (ext != map[] ==> maxId in ext)
  }

  /** One more operation appends its external-precondition edges. */
  lemma FanOutSnoc(schedule: seq<OpKey>, deps: seq<Dependency>, opProcs: map<OpKey, nat>,
                   opIndices: map<OpKey, nat>, asWritten: bool, i: nat, e: nat)
    requires i < |schedule|
    ensures FanOut(schedule[..i + 1], deps, opProcs, opIndices, e, asWritten) ==
            FanOut(schedule[..i], deps, opProcs, opIndices, e, asWritten) +
            Repeat(FanOutInfo(opProcs, opIndices, schedule[i], e, asWritten), ExtEdges(Incoming(deps, schedule[i]), e))
  {
    assert schedule[..i + 1][..i] == schedule[..i];
  }

  /** compile's external precondition analysis: for each operation in schedule order and
      each of its edges from an external precondition, append an info to that
      precondition's list; then one waiter per id up to the largest, the gaps empty.
      `asWritten` selects the key the source looks the info up under. */
  method ExternalPreconditions(schedule: seq<OpKey>, incoming: map<OpKey, seq<OpKey>>,
                               opProcs: map<OpKey, nat>, opIndices: map<OpKey, nat>,
                               asWritten: bool, ghost deps: seq<Dependency>)
    returns (waiters: seq<seq<CompletionInfo>>)
    requires forall k :: Group(incoming, k) == Incoming(deps, k)
    ensures forall e: nat :: e < |waiters| ==> waiters[e] == FanOut(schedule, deps, opProcs, opIndices, e, asWritten)
    ensures forall e: nat :: FanOut(schedule, deps, opProcs, opIndices, e, asWritten) != [] ==> e < |waiters|
    ensures |waiters| > 0 ==> FanOut(schedule, deps, opProcs, opIndices, |waiters| - 1, asWritten) != []
  {
    var ext, maxId := CollectWaiters(schedule, incoming, opProcs, opIndices, asWritten, deps);
    waiters := Densify(ext, maxId);
  }

  /** One list per id from 0 to the largest, the ids without edges empty; none at all
      when no edge comes from an external precondition. */
  method Densify(ext: map<nat, seq<CompletionInfo>>, maxId: nat) returns (waiters: seq<seq<CompletionInfo>>)
    requires MaxOk(ext, maxId)
    ensures forall e: nat :: e < |waiters| ==> waiters[e] == Waiters(ext, e)
    ensures forall e: nat :: Waiters(ext, e) != [] ==> e < |waiters|
    ensures |waiters| > 0 ==> Waiters(ext, |waiters| - 1) != []
  {
    waiters := [];
    if ext != map[] {
      for e := 0 to maxId + 1
        invariant |waiters| == e
        invariant forall e': nat :: e' < e ==> waiters[e'] == Waiters(ext, e')
      {
        waiters := waiters + [Waiters(ext, e)];
      }
    }
  }

  /** The loop over the schedule filling the map from precondition id to its list. */
  method CollectWaiters(schedule: seq<OpKey>, incoming: map<OpKey, seq<OpKey>>,
                        opProcs: map<OpKey, nat>, opIndices: map<OpKey, nat>,
                        asWritten: bool, ghost deps: seq<Dependency>)
    returns (ext: map<nat, seq<CompletionInfo>>, maxId: nat)
    requires forall k :: Group(incoming, k) == Incoming(deps, k)
    ensures MaxOk(ext, maxId)
    ensures forall e: nat :: Waiters(ext, e) == FanOut(schedule, deps, opProcs, opIndices, e, asWritten)
  {
    ext, maxId := map[], 0;
    for i := 0 to |schedule|
      invariant MaxOk(ext, maxId)
      invariant forall e: nat :: Waiters(ext, e) == FanOut(schedule[..i], deps, opProcs, opIndices, e, asWritten)
    {
      var key := schedule[i];
      ghost var ext0 := ext;
      ext, maxId := FanOutOp(key, Group(incoming, key), opProcs, opIndices, asWritten, ext, maxId);
      CollectStep(schedule, deps, opProcs, opIndices, asWritten, i, ext0, ext);
    }
    assert schedule[..|schedule|] == schedule;
  }

  lemma CollectStep(schedule: seq<OpKey>, deps: seq<Dependency>, opProcs: map<OpKey, nat>,
                    opIndices: map<OpKey, nat>, asWritten: bool, i: nat,
                    ext0: map<nat, seq<CompletionInfo>>, ext: map<nat, seq<CompletionInfo>>)
    requires i < |schedule|
    requires forall e: nat :: Waiters(ext0, e) == FanOut(schedule[..i], deps, opProcs, opIndices, e, asWritten)
    requires forall e: nat :: Waiters(ext, e) == Waiters(ext0, e) +
               Repeat(FanOutInfo(opProcs, opIndices, schedule[i], e, asWritten), ExtEdges(Incoming(deps, schedule[i]), e))
    ensures forall e: nat :: Waiters(ext, e) == FanOut(schedule[..i + 1], deps, opProcs, opIndices, e, asWritten)
  {
    forall e: nat ensures Waiters(ext, e) == FanOut(schedule[..i + 1], deps, opProcs, opIndices, e, asWritten) {
      FanOutSnoc(schedule, deps, opProcs, opIndices, asWritten, i, e);
    }
  }

  /** The inner loop for one operation: each edge from an external precondition
      appends an info to that precondition's list and raises the largest id. */
  method FanOutOp(key: OpKey, edges: seq<OpKey>, opProcs: map<OpKey, nat>, opIndices: map<OpKey, nat>,
                  asWritten: bool, ext: map<nat, seq<CompletionInfo>>, maxId: nat)
    returns (ext': map<nat, seq<CompletionInfo>>, maxId': nat)
    requires MaxOk(ext, maxId)
    ensures MaxOk(ext', maxId')
    ensures forall e: nat :: Waiters(ext', e) ==
              Waiters(ext, e) + Repeat(FanOutInfo(opProcs, opIndices, key, e, asWritten), ExtEdges(edges, e))
  {
    ext', maxId' := ext, maxId;
    for j := 0 to |edges|
      invariant MaxOk(ext', maxId')
      invariant forall e: nat :: Waiters(ext', e) ==
                  Waiters(ext, e) + Repeat(FanOutInfo(opProcs, opIndices, key, e, asWritten), ExtEdges(edges[..j], e))
    {
      var edge := edges[j];
      ghost var (ext0, max0) := (ext', maxId');
      if edge.kind == ExtPrecond {
        var info := if asWritten then CompletionInfo(Lookup(opProcs, edge), Lookup(opIndices, edge))
                    else CompletionInfo(Lookup(opProcs, key), Lookup(opIndices, key));
        ext' := ext'[edge.index := Waiters(ext', edge.index) + [info]];
        maxId' := if maxId' < edge.index then edge.index else maxId';
      }
      FanOutEdge(key, edges, opProcs, opIndices, asWritten, j, ext, ext0, max0, ext', maxId');
    }
    assert edges[..|edges|] == edges;
  }

  lemma FanOutEdge(key: OpKey, edges: seq<OpKey>, opProcs: map<OpKey, nat>, opIndices: map<OpKey, nat>,
                   asWritten: bool, j: nat, ext: map<nat, seq<CompletionInfo>>,
                   ext0: map<nat, seq<CompletionInfo>>, max0: nat, ext': map<nat, seq<CompletionInfo>>, maxId': nat)
    requires j < |edges| && MaxOk(ext0, max0)
    requires forall e: nat :: Waiters(ext0, e) ==
               Waiters(ext, e) + Repeat(FanOutInfo(opProcs, opIndices, key, e, asWritten), ExtEdges(edges[..j], e))
    requires var edge := edges[j];
             if edge.kind == ExtPrecond then
               ext' == ext0[edge.index := Waiters(ext0, edge.index) + [FanOutInfo(opProcs, opIndices, key, edge.index, asWritten)]] &&
               maxId' == if max0 < edge.index then edge.index else max0
             else ext' == ext0 && maxId' == max0
    ensures MaxOk(ext', maxId')
    ensures forall e: nat :: Waiters(ext', e) ==
              Waiters(ext, e) + Repeat(FanOutInfo(opProcs, opIndices, key, e, asWritten), ExtEdges(edges[..j + 1], e))
  {
    var info := FanOutInfo(opProcs, opIndices, key, edges[j].index, asWritten);
    MaxStep(edges[j], ext0, max0, ext', maxId', info);
    ListsStep(key, edges, opProcs, opIndices, asWritten, j, ext, ext0, ext');
  }

  lemma MaxStep(edge: OpKey, ext0: map<nat, seq<CompletionInfo>>, max0: nat,
                ext': map<nat, seq<CompletionInfo>>, maxId': nat, info: CompletionInfo)
    requires MaxOk(ext0, max0)
    requires if edge.kind == ExtPrecond then
               ext' == ext0[edge.index := Waiters(ext0, edge.index) + [info]] &&
               maxId' == if max0 < edge.index then edge.index else max0
             else ext' == ext0 && maxId' == max0
    ensures MaxOk(ext', maxId')
  {
  }

  lemma ListsStep(key: OpKey, edges: seq<OpKey>, opProcs: map<OpKey, nat>, opIndices: map<OpKey, nat>,
                  asWritten: bool, j: nat, ext: map<nat, seq<CompletionInfo>>,
                  ext0: map<nat, seq<CompletionInfo>>, ext': map<nat, seq<CompletionInfo>>)
    requires j < |edges|
    requires forall e: nat :: Waiters(ext0, e) ==
               Waiters(ext, e) + Repeat(FanOutInfo(opProcs, opIndices, key, e, asWritten), ExtEdges(edges[..j], e))
    requires var edge := edges[j];
             if edge.kind == ExtPrecond then
               ext' == ext0[edge.index := Waiters(ext0, edge.index) + [FanOutInfo(opProcs, opIndices, key, edge.index, asWritten)]]
             else ext' == ext0
    ensures forall e: nat :: Waiters(ext', e) ==
              Waiters(ext, e) + Repeat(FanOutInfo(opProcs, opIndices, key, e, asWritten), ExtEdges(edges[..j + 1], e))
  {
    forall e: nat ensures Waiters(ext', e) ==
                          Waiters(ext, e) + Repeat(FanOutInfo(opProcs, opIndices, key, e, asWritten), ExtEdges(edges[..j + 1], e)) {
      ListsStepAt(key, edges, opProcs, opIndices, asWritten, j, ext, ext0, ext', e);
    }
  }

  /** ListsStep for the list of one precondition `e`. */
  lemma ListsStepAt(key: OpKey, edges: seq<OpKey>, opProcs: map<OpKey, nat>, opIndices: map<OpKey, nat>,
                    asWritten: bool, j: nat, ext: map<nat, seq<CompletionInfo>>,
                    ext0: map<nat, seq<CompletionInfo>>, ext': map<nat, seq<CompletionInfo>>, e: nat)
    requires j < |edges|
    requires Waiters(ext0, e) ==
             Waiters(ext, e) + Repeat(FanOutInfo(opProcs, opIndices, key, e, asWritten), ExtEdges(edges[..j], e))
    requires var edge := edges[j];
             if edge.kind == ExtPrecond then
               ext' == ext0[edge.index := Waiters(ext0, edge.index) + [FanOutInfo(opProcs, opIndices, key, edge.index, asWritten)]]
             else ext' == ext0
    ensures Waiters(ext', e) ==
            Waiters(ext, e) + Repeat(FanOutInfo(opProcs, opIndices, key, e, asWritten), ExtEdges(edges[..j + 1], e))
  {
    ExtEdgesSnoc(edges, j, e);
    var info := FanOutInfo(opProcs, opIndices, key, e, asWritten);
    WaitersStep(edges[j], ext0, ext', e, FanOutInfo(opProcs, opIndices, key, edges[j].index, asWritten));
    RepeatSnoc(Waiters(ext, e), info, ExtEdges(edges[..j], e), edges[j] == ExtKey(e));
  }

  lemma RepeatSnoc(a: seq<CompletionInfo>, info: CompletionInfo, c: nat, hit: bool)
    ensures (if hit then (a + Repeat(info, c)) + [info] else a + Repeat(info, c)) ==
            a + Repeat(info, c + if hit then 1 else 0)
  {
    if hit {
      assert Repeat(info, c + 1) == Repeat(info, c) + [info];
    }
  }

  /** An edge appends to its own precondition's list and leaves the others alone. */
  lemma WaitersStep(edge: OpKey, ext0: map<nat, seq<CompletionInfo>>, ext': map<nat, seq<CompletionInfo>>,
                    e: nat, info: CompletionInfo)
    requires if edge.kind == ExtPrecond then ext' == ext0[edge.index := Waiters(ext0, edge.index) + [info]] else ext' == ext0
    ensures Waiters(ext', e) == if edge == ExtKey(e) then Waiters(ext0, e) + [info] else Waiters(ext0, e)
  {
  }

  lemma ExtEdgesSnoc(edges: seq<OpKey>, j: nat, e: nat)
    requires j < |edges|
    ensures ExtEdges(edges[..j + 1], e) == ExtEdges(edges[..j], e) + if edges[j] == ExtKey(e) then 1 else 0
  {
    assert edges[..j + 1][..j] == edges[..j];
  }

  // ---------------------------------------------------------------------------
  // What the fan-out lists hold

  lemma {:induction false} CountPositive<T>(s: seq<T>, p: T -> bool) returns (j: nat)
    requires Count(s, p) > 0
    ensures j < |s| && p(s[j])
  {
    var n := |s| - 1;
    if !p(s[n]) {
      var j' := CountPositive(s[..n], p);
      j := j';
    } else {
      j := n;
    }
  }

  lemma {:induction false} CountMember<T>(s: seq<T>, p: T -> bool, j: nat)
    requires j < |s| && p(s[j])
    ensures Count(s, p) > 0
  {
    var n := |s| - 1;
    if j < n {
      assert s[..n][j] == s[j];
      CountMember(s[..n], p, j);
    }
  }

  /** Every entry of a list comes from an operation with an edge from that precondition. */
  lemma {:induction false} FanOutSource(schedule: seq<OpKey>, deps: seq<Dependency>, opProcs: map<OpKey, nat>,
                                        opIndices: map<OpKey, nat>, e: nat, asWritten: bool, m: nat) returns (i: nat)
    requires m < |FanOut(schedule, deps, opProcs, opIndices, e, asWritten)|
    ensures i < |schedule| && ExtEdges(Incoming(deps, schedule[i]), e) > 0
    ensures FanOut(schedule, deps, opProcs, opIndices, e, asWritten)[m] == FanOutInfo(opProcs, opIndices, schedule[i], e, asWritten)
  {
    var n := |schedule| - 1;
    var prefix := FanOut(schedule[..n], deps, opProcs, opIndices, e, asWritten);
    if m < |prefix| {
      var i' := FanOutSource(schedule[..n], deps, opProcs, opIndices, e, asWritten, m);
      assert schedule[..n][i'] == schedule[i'];
      i := i';
    } else {
      RepeatAt(FanOutInfo(opProcs, opIndices, schedule[n], e, asWritten), ExtEdges(Incoming(deps, schedule[n]), e), m - |prefix|);
      i := n;
    }
  }

  /** Every operation with an edge from a precondition is in that precondition's list. */
  lemma {:induction false} FanOutCovers(schedule: seq<OpKey>, deps: seq<Dependency>, opProcs: map<OpKey, nat>,
                                        opIndices: map<OpKey, nat>, e: nat, asWritten: bool, i: nat)
    requires i < |schedule| && ExtKey(e) in Incoming(deps, schedule[i])
    ensures FanOutInfo(opProcs, opIndices, schedule[i], e, asWritten) in FanOut(schedule, deps, opProcs, opIndices, e, asWritten)
  {
    var n := |schedule| - 1;
    if i < n {
      assert schedule[..n][i] == schedule[i];
      FanOutCovers(schedule[..n], deps, opProcs, opIndices, e, asWritten, i);
    } else {
      var srcs := Incoming(deps, schedule[n]);
      var j :| 0 <= j < |srcs| && srcs[j] == ExtKey(e);
      CountMember(srcs, x => x == ExtKey(e), j);
      RepeatAt(FanOutInfo(opProcs, opIndices, schedule[n], e, asWritten), ExtEdges(srcs, e), 0);
    }
  }

  /** Corrected fan-out: each waiter of precondition `e` addresses, by processor and
      slot, an operation that has an edge from `e`; and each such operation has one. */
  lemma FanOutAddressesGatedOps(schedule: seq<OpKey>, pl: seq<nat>, deps: seq<Dependency>,
                                opProcs: map<OpKey, nat>, opIndices: map<OpKey, nat>, e: nat)
    requires |pl| == |schedule| && SlotsUpTo(schedule, pl, |schedule|, opIndices, opProcs)
    ensures forall m :: 0 <= m < |FanOut(schedule, deps, opProcs, opIndices, e, false)| ==>
              var info := FanOut(schedule, deps, opProcs, opIndices, e, false)[m];
              info.index < |Local(schedule, pl, info.proc)| &&
              ExtKey(e) in Incoming(deps, Local(schedule, pl, info.proc)[info.index])
    ensures forall i :: 0 <= i < |schedule| && ExtKey(e) in Incoming(deps, schedule[i]) ==>
              CompletionInfo(pl[i], Slot(schedule, pl, i)) in FanOut(schedule, deps, opProcs, opIndices, e, false)
  {
    assert schedule[..|schedule|] == schedule;
    forall m | 0 <= m < |FanOut(schedule, deps, opProcs, opIndices, e, false)|
      ensures var info := FanOut(schedule, deps, opProcs, opIndices, e, false)[m];
              info.index < |Local(schedule, pl, info.proc)| &&
              ExtKey(e) in Incoming(deps, Local(schedule, pl, info.proc)[info.index])
    {
      var i := FanOutSource(schedule, deps, opProcs, opIndices, e, false, m);
      var _ := CountPositive(Incoming(deps, schedule[i]), x => x == ExtKey(e));
      assert opProcs[schedule[i]] == pl[i] && opIndices[schedule[i]] == Slot(schedule, pl, i);
      LocalAt(schedule, pl, i);
    }
    forall i | 0 <= i < |schedule| && ExtKey(e) in Incoming(deps, schedule[i])
      ensures CompletionInfo(pl[i], Slot(schedule, pl, i)) in FanOut(schedule, deps, opProcs, opIndices, e, false)
    {
      assert opProcs[schedule[i]] == pl[i] && opIndices[schedule[i]] == Slot(schedule, pl, i);
      FanOutCovers(schedule, deps, opProcs, opIndices, e, false, i);
    }
  }

  /** As written, the fan-out looks the info up under the precondition's own key, which
      placement never records: every waiter reads processor 0, slot 0. */
  lemma FanOutAsWrittenReadsZero(schedule: seq<OpKey>, deps: seq<Dependency>,
                                 opProcs: map<OpKey, nat>, opIndices: map<OpKey, nat>, e: nat)
    requires forall k :: k in opProcs ==> k.kind != ExtPrecond
    requires forall k :: k in opIndices ==> k.kind != ExtPrecond
    ensures forall m :: 0 <= m < |FanOut(schedule, deps, opProcs, opIndices, e, true)| ==>
              FanOut(schedule, deps, opProcs, opIndices, e, true)[m] == CompletionInfo(0, 0)
  {
    forall m | 0 <= m < |FanOut(schedule, deps, opProcs, opIndices, e, true)|
      ensures FanOut(schedule, deps, opProcs, opIndices, e, true)[m] == CompletionInfo(0, 0)
    {
      var _ := FanOutSource(schedule, deps, opProcs, opIndices, e, true, m);
    }
  }

  /** The placement of two tasks on one processor: slots 0 and 1. */
  lemma TwoTaskPlacement()
    ensures var t0, t1 := OpKey(Task, 0), OpKey(Task, 1);
            && SlotsUpTo([t0, t1], [0, 0], 2, map[t0 := 0, t1 := 1], map[t0 := 0, t1 := 0])
            && Local([t0, t1], [0, 0], 0) == [t0, t1]
  {
    var t0, t1 := OpKey(Task, 0), OpKey(Task, 1);
    var schedule, pl := [t0, t1], [0, 0];
    assert schedule[..1] == [t0] && pl[..1] == [0] && schedule[..0] == [] && pl[..0] == [];
    assert schedule[..2] == schedule && pl[..2] == pl;
    assert Local(schedule[..1], pl[..1], 0) == [t0];
    assert Slot(schedule, pl, 0) == 0 && Slot(schedule, pl, 1) == 1;
    assert forall k :: k in schedule <==> k == t0 || k == t1;
  }

  /** External precondition 0 gating the second of two tasks: one fan-out entry, for
      task 1, read either way. */
  lemma GatedSecondTask(opProcs: map<OpKey, nat>, opIndices: map<OpKey, nat>, asWritten: bool)
    ensures var t0, t1 := OpKey(Task, 0), OpKey(Task, 1);
            var deps := [Dependency(ExtPrecond, 0, 0, Task, 1, 0)];
            && ExtKey(0) !in Incoming(deps, t0)
            && FanOut([t0, t1], deps, opProcs, opIndices, 0, asWritten) ==
               [FanOutInfo(opProcs, opIndices, t1, 0, asWritten)]
  {
    var t0, t1 := OpKey(Task, 0), OpKey(Task, 1);
    var schedule := [t0, t1];
    var deps := [Dependency(ExtPrecond, 0, 0, Task, 1, 0)];
    assert schedule[..1] == [t0] && schedule[..0] == [];
    assert deps[..0] == [];
    assert Incoming(deps, t0) == [] && Incoming(deps, t1) == [ExtKey(0)];
    assert ExtEdges([ExtKey(0)], 0) == 1 by {
      assert [ExtKey(0)][..0] == [];
    }
    assert FanOut(schedule[..1], deps, opProcs, opIndices, 0, asWritten) == [];
  }

  /** Two tasks on one processor, the second gated by external precondition 0: as
      written its waiter addresses slot 0, the ungated first task; corrected, slot 1. */
  lemma FanOutAsWrittenCounterexample()
    ensures var t0, t1 := OpKey(Task, 0), OpKey(Task, 1);
            var deps := [Dependency(ExtPrecond, 0, 0, Task, 1, 0)];
            var opProcs, opIndices := map[t0 := 0, t1 := 0], map[t0 := 0, t1 := 1];
            && SlotsUpTo([t0, t1], [0, 0], 2, opIndices, opProcs)
            && Local([t0, t1], [0, 0], 0) == [t0, t1]
            && FanOut([t0, t1], deps, opProcs, opIndices, 0, true) == [CompletionInfo(0, 0)]
            && FanOut([t0, t1], deps, opProcs, opIndices, 0, false) == [CompletionInfo(0, 1)]
            && ExtKey(0) !in Incoming(deps, t0)
  {
    TwoTaskPlacement();
    var t0, t1 := OpKey(Task, 0), OpKey(Task, 1);
    var opProcs, opIndices := map[t0 := 0, t1 := 0], map[t0 := 0, t1 := 1];
    GatedSecondTask(opProcs, opIndices, true);
    GatedSecondTask(opProcs, opIndices, false);
    assert ExtKey(0) !in opProcs && ExtKey(0) !in opIndices;
  }
}
