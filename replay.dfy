/** The sequential bookkeeping of the classic instantiate path: which events each
    schedule entry waits on (its port-0 preconditions, plus the start event when
    nothing else carries it), and the cursor through the intermediate events, which
    each entry fills with the events its operation produces. */
module Replay {
  import opened SubgraphDefs
  import opened Seqs
  import opened Sorting
  import opened Layout

  // ---------------------------------------------------------------------------
  // Gathering one entry's preconditions

  /** How many preconditions the scan visits: it stops at the end or at the first
      precondition on another port. */
  function Port0Len(pre: seq<Precondition>): (r: nat)
    ensures r <= |pre|
    ensures forall j :: 0 <= j < r ==> pre[j].port == 0
    ensures r < |pre| ==> pre[r].port != 0
  {
    if pre == [] || pre[0].port != 0 then 0
    else
      var r := Port0Len(pre[1..]);
      assert forall j :: 1 <= j <= r ==> pre[j] == pre[1..][j - 1];
      1 + r
  }

  /** The leading port-0 preconditions. */
  function Port0Prefix(pre: seq<Precondition>): (r: seq<Precondition>)
  {
    pre[..Port0Len(pre)]
  }

  /** Scanning `i` port-0 entries stays inside the prefix; stopping at the end or at
      another port has scanned all of it. */
  lemma LeadingZeros(pre: seq<Precondition>, i: nat)
    requires i <= |pre| && forall j :: 0 <= j < i ==> pre[j].port == 0
    ensures i <= Port0Len(pre)
    ensures (i == |pre| || pre[i].port != 0) ==> Port0Len(pre) == i
  {
  }

  /** In a list sorted by (port, source) the leading port-0 entries are all of them:
      stopping at the first nonzero port skips none. */
  lemma SortedPort0Prefix(pre: seq<Precondition>)
    requires SortedBy(pre, PrecondKey)
    ensures forall i :: 0 <= i < |pre| ==> (pre[i].port == 0 <==> i < Port0Len(pre))
  {
    var n := Port0Len(pre);
    forall i | n < i < |pre| ensures pre[i].port != 0 {
      assert !KeyLess(PrecondKey(pre[i]), PrecondKey(pre[n]));
    }
  }

  /** The events one precondition contributes: the intermediate event it names, or the
      external precondition it names when the caller supplied one that exists. */
  function Resolve(p: Precondition, intermediate: seq<Event>, external: seq<Event>): (r: seq<Event>)
    requires p.source >= 0 ==> p.source < |intermediate|
    ensures |r| <= 1
    ensures p.source >= 0 ==> r == [intermediate[p.source]]
  {
    if p.source >= 0 then [intermediate[p.source]]
    else
      var idx := -1 - p.source;
      if idx < |external| && external[idx].Exists() then [external[idx]] else []
  }

  /** Every operation source of `ps` names an intermediate event already produced. */
  ghost predicate SourcesKnown(ps: seq<Precondition>, produced: nat)
  {
    forall i :: 0 <= i < |ps| && ps[i].source >= 0 ==> ps[i].source < produced
  }

  /** The events of a list of preconditions, in list order. */
  function Gathered(ps: seq<Precondition>, intermediate: seq<Event>, external: seq<Event>): (r: seq<Event>)
    requires SourcesKnown(ps, |intermediate|)
    ensures |r| <= |ps|
  {
    if ps == [] then []
    else
      var n := |ps| - 1;
      Gathered(ps[..n], intermediate, external) + Resolve(ps[n], intermediate, external)
  }

  predicate HasInternal(ps: seq<Precondition>)
  {
    exists i :: 0 <= i < |ps| && ps[i].source >= 0
  }

  /** What an entry waits on: its port-0 preconditions, and the start event when it
      exists and no operation precondition already waits on it transitively. */
  function Preconds(pre: seq<Precondition>, intermediate: seq<Event>, external: seq<Event>, start: Event): seq<Event>
    requires SourcesKnown(Port0Prefix(pre), |intermediate|)
  {
    var ps := Port0Prefix(pre);
    Gathered(ps, intermediate, external) + if start.Exists() && !HasInternal(ps) then [start] else []
  }

  /** The scan state after the first `i` entries, all on port 0. */
  ghost predicate Scanned(pre: seq<Precondition>, i: nat, intermediate: seq<Event>, external: seq<Event>,
                          start: Event, preconds: seq<Event>, needGlobal: bool)
  {
    && i <= |pre| && (forall j :: 0 <= j < i ==> pre[j].port == 0)
    && SourcesKnown(pre[..i], |intermediate|)
    && preconds == Gathered(pre[..i], intermediate, external)
    && needGlobal == (start.Exists() && !HasInternal(pre[..i]))
  }

  lemma ScanStep(pre: seq<Precondition>, i: nat, intermediate: seq<Event>, external: seq<Event>,
                 start: Event, preconds: seq<Event>, needGlobal: bool)
    requires SourcesKnown(Port0Prefix(pre), |intermediate|)
    requires Scanned(pre, i, intermediate, external, start, preconds, needGlobal) && i < |pre| && pre[i].port == 0
    ensures pre[i].source >= 0 ==> pre[i].source < |intermediate|
    ensures Scanned(pre, i + 1, intermediate, external, start,
                    preconds + Resolve(pre[i], intermediate, external), needGlobal && pre[i].source < 0)
  {
    LeadingZeros(pre, i + 1);
    assert Port0Prefix(pre)[i] == pre[i];
    GatheredSnoc(pre, i, intermediate, external);
  }

  /** The classic path's scan of one entry's preconditions. */
  method GatherPreconditions(pre: seq<Precondition>, intermediate: seq<Event>, external: seq<Event>, start: Event)
    returns (preconds: seq<Event>)
    requires SourcesKnown(Port0Prefix(pre), |intermediate|)
    ensures preconds == Preconds(pre, intermediate, external, start)
  {
    preconds := [];
    var needGlobalPrecond := start.Exists();
    var pcIdx := 0;
    while pcIdx < |pre|
      invariant Scanned(pre, pcIdx, intermediate, external, start, preconds, needGlobalPrecond)
    {
      if pre[pcIdx].port != 0 {
        break;
      }
      preconds, needGlobalPrecond := ScanOne(pre, pcIdx, intermediate, external, start, preconds, needGlobalPrecond);
      pcIdx := pcIdx + 1;
    }
    LeadingZeros(pre, pcIdx);
    assert pre[..pcIdx] == Port0Prefix(pre);
    if needGlobalPrecond {
      preconds := preconds + [start];
    }
  }

  /** One port-0 precondition: an operation source adds its intermediate event and
      drops the start event; an external one adds the caller's event if it exists. */
  method ScanOne(pre: seq<Precondition>, i: nat, intermediate: seq<Event>, external: seq<Event>,
                 start: Event, preconds: seq<Event>, needGlobal: bool)
    returns (nextPreconds: seq<Event>, nextNeedGlobal: bool)
    requires SourcesKnown(Port0Prefix(pre), |intermediate|)
    requires Scanned(pre, i, intermediate, external, start, preconds, needGlobal) && i < |pre| && pre[i].port == 0
    ensures Scanned(pre, i + 1, intermediate, external, start, nextPreconds, nextNeedGlobal)
  {
    ScanStep(pre, i, intermediate, external, start, preconds, needGlobal);
    nextPreconds, nextNeedGlobal := preconds, needGlobal;
    if pre[i].source >= 0 {
      nextPreconds := preconds + [intermediate[pre[i].source]];
      nextNeedGlobal := false;
    } else {
      var idx := -1 - pre[i].source;
      if idx < |external| && external[idx].Exists() {
        nextPreconds := preconds + [external[idx]];
      } else {
        assert preconds + Resolve(pre[i], intermediate, external) == preconds;
      }
    }
  }

  lemma GatheredSnoc(pre: seq<Precondition>, i: nat, intermediate: seq<Event>, external: seq<Event>)
    requires i < |pre| && SourcesKnown(pre[..i + 1], |intermediate|)
    ensures SourcesKnown(pre[..i], |intermediate|)
    ensures Gathered(pre[..i + 1], intermediate, external) ==
            Gathered(pre[..i], intermediate, external) + Resolve(pre[i], intermediate, external)
    ensures HasInternal(pre[..i + 1]) <==> HasInternal(pre[..i]) || pre[i].source >= 0
  {
    assert pre[..i + 1][..i] == pre[..i];
    assert forall j :: 0 <= j < i ==> pre[..i + 1][j] == pre[..i][j];
    if pre[i].source >= 0 {
      assert pre[..i + 1][i] == pre[i];
    }
  }

  /** An entry never waits on more events than its list has entries, plus the start
      event; so a list shorter than `max_preconditions` fits the preconds buffer. */
  lemma PrecondsFit(pre: seq<Precondition>, intermediate: seq<Event>, external: seq<Event>, start: Event, maxPre: nat)
    requires SourcesKnown(Port0Prefix(pre), |intermediate|) && |pre| < maxPre
    ensures |Preconds(pre, intermediate, external, start)| <= maxPre
  {
  }

  /** The events gathered are those the port-0 preconditions name: each intermediate
      source's event, in list order. */
  lemma {:induction false} GatheredInternal(ps: seq<Precondition>, intermediate: seq<Event>, external: seq<Event>, i: nat)
    requires SourcesKnown(ps, |intermediate|) && i < |ps| && ps[i].source >= 0
    ensures intermediate[ps[i].source] in Gathered(ps, intermediate, external)
  {
    var n := |ps| - 1;
    assert forall j :: 0 <= j < n ==> ps[..n][j] == ps[j];
    if i < n {
      GatheredInternal(ps[..n], intermediate, external, i);
    }
  }

  // ---------------------------------------------------------------------------
  // The intermediate-event cursor

  function EventCounts(entries: seq<ScheduleEntry>): (r: seq<nat>)
    ensures |r| == |entries|
    ensures forall t :: 0 <= t < |entries| ==> r[t] == entries[t].eventCount
  {
    seq(|entries|, t requires 0 <= t < |entries| => entries[t].eventCount)
  }

  /** How compile lays out the intermediate events: each entry's events start where the
      previous ones end; external postconditions produce none and every other entry at
      least one; only producing entries are final. */
  ghost predicate EventsLaidOut(entries: seq<ScheduleEntry>)
  {
    forall t :: 0 <= t < |entries| ==>
      && entries[t].eventBase == Sum(EventCounts(entries)[..t])
      && (entries[t].op.kind == ExtPostcond <==> entries[t].eventCount == 0)
      && (entries[t].isFinal ==> entries[t].op.kind != ExtPostcond)
  }

  /** Every port-0 operation source of an entry was produced by an earlier entry. */
  ghost predicate SourcesEarlier(entries: seq<ScheduleEntry>)
  {
    forall t :: 0 <= t < |entries| ==> SourcesKnown(Port0Prefix(entries[t].preconditions), entries[t].eventBase)
  }

  /** What compile guarantees about the schedule the classic path walks. */
  ghost predicate Replayable(entries: seq<ScheduleEntry>)
  {
    EventsLaidOut(entries) && SourcesEarlier(entries)
  }

  /** Every final entry produces at least its completion event. */
  ghost predicate FinalsProduce(entries: seq<ScheduleEntry>, produced: seq<seq<Event>>)
    requires |produced| == |entries|
  {
    forall t :: 0 <= t < |entries| && entries[t].isFinal ==> |produced[t]| > 0
  }

  /** The inputs of the finish event: the first event of each final entry, in schedule
      order; one per final entry. */
  function FinalInputs(entries: seq<ScheduleEntry>, produced: seq<seq<Event>>): (r: seq<Event>)
    requires |produced| == |entries| && FinalsProduce(entries, produced)
    ensures |r| == |FinalSet(entries)|
  {
    if entries == [] then []
    else
      var n := |entries| - 1;
      assert entries == entries[..n] + [entries[n]];
      FinalSetAppend(entries[..n], entries[n]);
      FinalInputs(entries[..n], produced[..n]) + if entries[n].isFinal then [produced[n][0]] else []
  }

  /** The finish event's input number `i` is the completion of the `i`-th final entry:
      a final entry `t` has as many final entries before it as its input's position. */
  lemma {:induction false} FinalInputsAt(entries: seq<ScheduleEntry>, produced: seq<seq<Event>>, t: nat)
    requires |produced| == |entries| && FinalsProduce(entries, produced)
    requires t < |entries| && entries[t].isFinal
    ensures |FinalSet(entries[..t])| < |FinalInputs(entries, produced)|
    ensures FinalInputs(entries, produced)[|FinalSet(entries[..t])|] == produced[t][0]
  {
    var n := |entries| - 1;
    var init := FinalInputs(entries[..n], produced[..n]);
    assert FinalInputs(entries, produced) == init + if entries[n].isFinal then [produced[n][0]] else [];
    if t < n {
      assert entries[..n][..t] == entries[..t];
      FinalInputsAt(entries[..n], produced[..n], t);
    } else {
      assert |init| == |FinalSet(entries[..t])|;
    }
  }

  /** The walk's state after the first `t` entries. */
  ghost predicate Walked(entries: seq<ScheduleEntry>, produced: seq<seq<Event>>, external: seq<Event>, start: Event,
                         t: nat, intermediate: seq<Event>, waits: seq<seq<Event>>, finishInputs: seq<Event>)
    requires t <= |entries| == |produced|
  {
    && intermediate == Concat(produced[..t])
    && |intermediate| == Sum(EventCounts(entries)[..t])
    && WaitsUpTo(entries, produced, external, start, t, waits)
    && FinalsProduce(entries, produced)
    && finishInputs == FinalInputs(entries[..t], produced[..t])
  }

  /** The wait lists of the first `t` entries. */
  ghost predicate WaitsUpTo(entries: seq<ScheduleEntry>, produced: seq<seq<Event>>, external: seq<Event>, start: Event,
                            t: nat, waits: seq<seq<Event>>)
    requires t <= |entries| == |produced|
  {
    && |waits| == t
    && (forall u :: 0 <= u < t ==>
          SourcesKnown(Port0Prefix(entries[u].preconditions), |Concat(produced[..u])|) &&
          waits[u] == Preconds(entries[u].preconditions, Concat(produced[..u]), external, start))
  }

  /** The classic path's walk over the schedule, with the dispatch of each operation
      abstracted to `produced[t]`, the events it yields (its completion first). It
      gathers each entry's wait list, advances the cursor by the entry's count, and
      collects the completions of final entries for the finish event. */
  method ReplaySchedule(entries: seq<ScheduleEntry>, produced: seq<seq<Event>>, external: seq<Event>, start: Event)
    returns (intermediate: seq<Event>, waits: seq<seq<Event>>, finishInputs: seq<Event>)
    requires Replayable(entries)
    requires |produced| == |entries| && forall t :: 0 <= t < |entries| ==> |produced[t]| == entries[t].eventCount
    ensures intermediate == Concat(produced)
    ensures |intermediate| == Sum(EventCounts(entries))
    ensures |waits| == |entries|
    ensures forall t :: 0 <= t < |entries| ==>
              SourcesKnown(Port0Prefix(entries[t].preconditions), |Concat(produced[..t])|) &&
              waits[t] == Preconds(entries[t].preconditions, Concat(produced[..t]), external, start)
    ensures finishInputs == FinalInputs(entries, produced)
    ensures |finishInputs| == |FinalSet(entries)|
  {
    intermediate, waits, finishInputs := [], [], [];
    var curIntermediateEvents := 0;
    assert FinalInputs(entries[..0], produced[..0]) == [];
    for t := 0 to |entries|
      invariant Walked(entries, produced, external, start, t, intermediate, waits, finishInputs)
      invariant curIntermediateEvents == |intermediate|
    {
      intermediate, waits, finishInputs, curIntermediateEvents :=
        ReplayEntry(entries, produced, external, start, t, intermediate, waits, finishInputs, curIntermediateEvents);
    }
    assert produced[..|entries|] == produced;
    assert entries[..|entries|] == entries;
    assert EventCounts(entries)[..|entries|] == EventCounts(entries);
  }

  /** One entry of the walk. */
  method ReplayEntry(entries: seq<ScheduleEntry>, produced: seq<seq<Event>>, external: seq<Event>, start: Event,
                     t: nat, intermediate: seq<Event>, waits: seq<seq<Event>>, finishInputs: seq<Event>,
                     curIntermediateEvents: nat)
    returns (intermediate': seq<Event>, waits': seq<seq<Event>>, finishInputs': seq<Event>, curIntermediateEvents': nat)
    requires Replayable(entries) && t < |entries|
    requires |produced| == |entries| && forall u :: 0 <= u < |entries| ==> |produced[u]| == entries[u].eventCount
    requires Walked(entries, produced, external, start, t, intermediate, waits, finishInputs)
    requires curIntermediateEvents == |intermediate|
    ensures Walked(entries, produced, external, start, t + 1, intermediate', waits', finishInputs')
    ensures curIntermediateEvents' == |intermediate'|
  {
    var e := entries[t];
    assert SourcesKnown(Port0Prefix(e.preconditions), |intermediate|) by {
      WalkedCursor(entries, produced, external, start, t, intermediate, waits, finishInputs);
    }
    var pre := GatherPreconditions(e.preconditions, intermediate, external, start);
    waits' := waits + [pre];
    ghost var fin := finishInputs + if e.isFinal then [produced[t][0]] else [];
    WalkStep(entries, produced, external, start, t, intermediate, waits, finishInputs, pre, fin);
    intermediate', finishInputs', curIntermediateEvents' := intermediate, finishInputs, curIntermediateEvents;
    if e.op.kind == ExtPostcond {
      // merged straight into the caller's postcondition; no events of its own
      assert intermediate + produced[t] == intermediate;
      return;
    }
    intermediate' := intermediate + produced[t];
    curIntermediateEvents' := curIntermediateEvents + e.eventCount;
    if e.isFinal {
      finishInputs' := finishInputs + [produced[t][0]];
    }
  }

  /** Before entry `t`, the cursor stands at the entry's base. */
  lemma WalkedCursor(entries: seq<ScheduleEntry>, produced: seq<seq<Event>>, external: seq<Event>, start: Event,
                     t: nat, intermediate: seq<Event>, waits: seq<seq<Event>>, finishInputs: seq<Event>)
    requires Replayable(entries) && t < |entries| == |produced|
    requires Walked(entries, produced, external, start, t, intermediate, waits, finishInputs)
    ensures |intermediate| == entries[t].eventBase
    ensures SourcesKnown(Port0Prefix(entries[t].preconditions), |intermediate|)
  {
  }

  lemma WalkStep(entries: seq<ScheduleEntry>, produced: seq<seq<Event>>, external: seq<Event>, start: Event,
                 t: nat, intermediate: seq<Event>, waits: seq<seq<Event>>, finishInputs: seq<Event>,
                 pre: seq<Event>, fin: seq<Event>)
    requires t < |entries|
    requires |produced| == |entries| && forall u :: 0 <= u < |entries| ==> |produced[u]| == entries[u].eventCount
    requires Walked(entries, produced, external, start, t, intermediate, waits, finishInputs)
    requires SourcesKnown(Port0Prefix(entries[t].preconditions), |intermediate|)
    requires pre == Preconds(entries[t].preconditions, intermediate, external, start)
    requires entries[t].isFinal ==> |produced[t]| > 0
    requires fin == finishInputs + if entries[t].isFinal then [produced[t][0]] else []
    ensures Walked(entries, produced, external, start, t + 1, intermediate + produced[t], waits + [pre], fin)
  {
    CursorStep(entries, produced, t);
    WaitsStep(entries, produced, external, start, t, waits, pre);
    FinalInputsStep(entries, produced, t);
  }

  /** Entry `t` adds its completion to the finish inputs exactly when it is final. */
  lemma FinalInputsStep(entries: seq<ScheduleEntry>, produced: seq<seq<Event>>, t: nat)
    requires t < |entries| == |produced| && FinalsProduce(entries, produced)
    ensures FinalInputs(entries[..t + 1], produced[..t + 1]) ==
            FinalInputs(entries[..t], produced[..t]) + if entries[t].isFinal then [produced[t][0]] else []
  {
    assert entries[..t + 1][..t] == entries[..t] && produced[..t + 1][..t] == produced[..t];
  }

  lemma WaitsStep(entries: seq<ScheduleEntry>, produced: seq<seq<Event>>, external: seq<Event>, start: Event,
                  t: nat, waits: seq<seq<Event>>, pre: seq<Event>)
    requires t < |entries| == |produced| && WaitsUpTo(entries, produced, external, start, t, waits)
    requires SourcesKnown(Port0Prefix(entries[t].preconditions), |Concat(produced[..t])|)
    requires pre == Preconds(entries[t].preconditions, Concat(produced[..t]), external, start)
    ensures WaitsUpTo(entries, produced, external, start, t + 1, waits + [pre])
  {
    assert forall u :: 0 <= u < t ==> (waits + [pre])[u] == waits[u];
  }

  /** The cursor after entry `t` has moved past its events. */
  lemma CursorStep(entries: seq<ScheduleEntry>, produced: seq<seq<Event>>, t: nat)
    requires |produced| == |entries| && t < |entries|
    requires forall u :: 0 <= u < |entries| ==> |produced[u]| == entries[u].eventCount
    ensures Concat(produced[..t + 1]) == Concat(produced[..t]) + produced[t]
    ensures Sum(EventCounts(entries)[..t + 1]) == Sum(EventCounts(entries)[..t]) + entries[t].eventCount
  {
    assert produced[..t + 1][..t] == produced[..t];
    SumMonotone(EventCounts(entries), t, t);
  }

  /** The event an entry's port `k` produces sits at the entry's base plus `k`, so the
      `base(src) + src_port` numbering of preconditions names it. */
  lemma ProducedAt(entries: seq<ScheduleEntry>, produced: seq<seq<Event>>, t: nat, k: nat)
    requires |produced| == |entries| && forall u :: 0 <= u < |entries| ==> |produced[u]| == entries[u].eventCount
    requires t < |entries| && k < entries[t].eventCount
    requires entries[t].eventBase == Sum(EventCounts(entries)[..t])
    ensures entries[t].eventBase + k < |Concat(produced)|
    ensures Concat(produced)[entries[t].eventBase + k] == produced[t][k]
  {
    LengthsAreCounts(entries, produced);
    ConcatAt(produced, t, k);
  }

  lemma LengthsAreCounts(entries: seq<ScheduleEntry>, produced: seq<seq<Event>>)
    requires |produced| == |entries| && forall u :: 0 <= u < |entries| ==> |produced[u]| == entries[u].eventCount
    ensures Lengths(produced) == EventCounts(entries)
  {
  }
}
