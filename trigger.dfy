/** The counter accounting behind an external precondition's fan-out list: when the
    precondition triggers, each listed (processor, slot) pair has its counter in the
    flattened precondition array decremented, and the processor's work counter is
    bumped whenever a counter reaches exactly zero. */
module Trigger {
  import opened Partition

  /** The position of a completion target in the flattened counter array. */
  function SlotOf(offsets: seq<nat>, info: CompletionInfo): nat
    requires info.proc < |offsets|
  {
    offsets[info.proc] + info.index
  }

  /** Every listed target names a processor, and lands inside the counter array. */
  ghost predicate Addressed(infos: seq<CompletionInfo>, offsets: seq<nat>, numSlots: nat, numProcs: nat)
  {
    forall m :: 0 <= m < |infos| ==>
      infos[m].proc < |offsets| && infos[m].proc < numProcs && SlotOf(offsets, infos[m]) < numSlots
  }

  /** How many listed targets land on slot `x`. */
  function Hits(infos: seq<CompletionInfo>, offsets: seq<nat>, x: nat): (r: nat)
    requires forall m :: 0 <= m < |infos| ==> infos[m].proc < |offsets|
    ensures r <= |infos|
  {
    if infos == [] then 0
    else
      var n := |infos| - 1;
      Hits(infos[..n], offsets, x) + if SlotOf(offsets, infos[n]) == x then 1 else 0
  }

  /** How many of the decrements leave their counter at exactly zero, among those of
      targets on processor `p`, when the counters start at `c0`. */
  function Signals(c0: seq<int>, infos: seq<CompletionInfo>, offsets: seq<nat>, p: nat): (r: nat)
    requires Addressed(infos, offsets, |c0|, |offsets|)
    ensures r <= |infos|
  {
    if infos == [] then 0
    else
      var n := |infos| - 1;
      var x := SlotOf(offsets, infos[n]);
      Signals(c0, infos[..n], offsets, p) + if infos[n].proc == p && c0[x] == Hits(infos, offsets, x) then 1 else 0
  }

  /** How many of the decrements of slot `x` leave it at exactly zero. */
  function SlotSignals(c0: seq<int>, infos: seq<CompletionInfo>, offsets: seq<nat>, x: nat): (r: nat)
    requires Addressed(infos, offsets, |c0|, |offsets|) && x < |c0|
  {
    if infos == [] then 0
    else
      var n := |infos| - 1;
      SlotSignals(c0, infos[..n], offsets, x) +
        if SlotOf(offsets, infos[n]) == x && c0[x] == Hits(infos, offsets, x) then 1 else 0
  }

  lemma HitsSnoc(infos: seq<CompletionInfo>, offsets: seq<nat>, m: nat, x: nat)
    requires m < |infos| && forall k :: 0 <= k < |infos| ==> infos[k].proc < |offsets|
    ensures Hits(infos[..m + 1], offsets, x) == Hits(infos[..m], offsets, x) + if SlotOf(offsets, infos[m]) == x then 1 else 0
  {
    assert infos[..m + 1][..m] == infos[..m];
  }

  lemma SignalsSnoc(c0: seq<int>, infos: seq<CompletionInfo>, offsets: seq<nat>, m: nat, p: nat)
    requires m < |infos| && Addressed(infos, offsets, |c0|, |offsets|)
    ensures Addressed(infos[..m + 1], offsets, |c0|, |offsets|)
    ensures var x := SlotOf(offsets, infos[m]);
            Signals(c0, infos[..m + 1], offsets, p) ==
            Signals(c0, infos[..m], offsets, p) + if infos[m].proc == p && c0[x] == Hits(infos[..m + 1], offsets, x) then 1 else 0
  {
    assert infos[..m + 1][..m] == infos[..m];
  }

  /** A slot signals exactly once when its counter starts between 1 and the number of
      targets landing on it, and never otherwise: a counter still waiting on other
      preconditions stays above zero, and one already at zero goes negative. */
  lemma {:induction false} SignalOnce(c0: seq<int>, infos: seq<CompletionInfo>, offsets: seq<nat>, x: nat)
    requires Addressed(infos, offsets, |c0|, |offsets|) && x < |c0|
    ensures SlotSignals(c0, infos, offsets, x) == if 1 <= c0[x] <= Hits(infos, offsets, x) then 1 else 0
  {
    if infos != [] {
      var n := |infos| - 1;
      SignalOnce(c0, infos[..n], offsets, x);
    }
  }

  /** The counter an external precondition feeds that counts exactly the targets landing
      on it signals exactly once. */
  lemma ExactCounterSignalsOnce(c0: seq<int>, infos: seq<CompletionInfo>, offsets: seq<nat>, x: nat)
    requires Addressed(infos, offsets, |c0|, |offsets|) && x < |c0|
    requires c0[x] == Hits(infos, offsets, x) && c0[x] > 0
    ensures SlotSignals(c0, infos, offsets, x) == 1
  {
    SignalOnce(c0, infos, offsets, x);
  }

  /** The signals of a slot whose targets all name processor `p` are counted among
      `p`'s signals: the slot-wise count never exceeds the processor-wise one. */
  lemma {:induction false} SignalsTotal(c0: seq<int>, infos: seq<CompletionInfo>, offsets: seq<nat>, x: nat, p: nat)
    requires Addressed(infos, offsets, |c0|, |offsets|) && x < |c0|
    requires forall m :: 0 <= m < |infos| && SlotOf(offsets, infos[m]) == x ==> infos[m].proc == p
    ensures SlotSignals(c0, infos, offsets, x) <= Signals(c0, infos, offsets, p)
  {
    if infos != [] {
      var n := |infos| - 1;
      assert Addressed(infos[..n], offsets, |c0|, |offsets|);
      SignalsTotal(c0, infos[..n], offsets, x, p);
    }
  }
}
