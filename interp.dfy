/** Interpolation rules: compile sorts them by the operation they target and records,
    for each schedule entry, the contiguous range of rules aimed at it; instantiation
    then applies the rules of a range that target a given field, either into a scratch
    copy of the field or into the field itself. */
module Interp {
  import opened SubgraphDefs
  import opened Seqs
  import opened Sorting
  import opened Layout

  // ---------------------------------------------------------------------------
  // Sorting and range lookup

  /** The key SortInterpolationsByKindAndIndex compares: the operation kind in the
      upper bits of the target field, then the target operation's index. */
  function InterpKey(it: Interpolation): Key { Key(TargetOpKind(it), it.targetIndex) }

  /** The same key for an operation, as the binary search compares it. */
  function OpSortKey(op: OpKey): Key { Key(KindCode(op.kind), op.index) }

  /** SortInterpolationsByKindAndIndex. */
  predicate InterpLess(a: Interpolation, b: Interpolation)
  {
    KeyLess(InterpKey(a), InterpKey(b))
  }

  /** The comparator is a strict weak ordering, as std::sort demands: irreflexive,
      transitive, and two rules are unordered exactly when they aim at the same operation. */
  lemma InterpLessIsStrictWeakOrder(a: Interpolation, b: Interpolation, c: Interpolation)
    ensures !InterpLess(a, a)
    ensures InterpLess(a, b) && InterpLess(b, c) ==> InterpLess(a, c)
    ensures !InterpLess(a, b) && !InterpLess(b, a) <==>
              TargetOpKind(a) == TargetOpKind(b) && a.targetIndex == b.targetIndex
  {
    KeyLessTotal(InterpKey(a), InterpKey(b), InterpKey(c));
  }

  /** The rule is aimed at some field of operation `op`. */
  predicate AimsAt(it: Interpolation, op: OpKey)
  {
    InterpKey(it) == OpSortKey(op)
  }

  predicate AimsBelow(it: Interpolation, op: OpKey) { KeyLess(InterpKey(it), OpSortKey(op)) }
  predicate AimsAtMost(it: Interpolation, op: OpKey) { !KeyLess(OpSortKey(op), InterpKey(it)) }

  /** The range an entry records: (first, count) of the rules aimed at `op` in a sorted
      list, or (0, 0) when there are none. */
  function MatchRange(s: seq<Interpolation>, op: OpKey): (nat, nat)
  {
    var num := Count(s, it => AimsAt(it, op));
    if num == 0 then (0, 0) else (Count(s, it => AimsBelow(it, op)), num)
  }

  /** In a sorted list the recorded range holds exactly the rules aimed at `op`. */
  lemma MatchRangeExact(s: seq<Interpolation>, op: OpKey)
    requires SortedBy(s, InterpKey)
    ensures MatchRange(s, op).0 + MatchRange(s, op).1 <= |s|
    ensures forall i :: 0 <= i < |s| ==>
              (MatchRange(s, op).0 <= i < MatchRange(s, op).0 + MatchRange(s, op).1 <==> AimsAt(s[i], op))
  {
    var below := it => AimsBelow(it, op);
    var atMost := it => AimsAtMost(it, op);
    PrefixCount(s, below);
    PrefixCount(s, atMost);
    BlockBetween(s, op, Count(s, below), Count(s, atMost));
    CountBlock(s, it => AimsAt(it, op), Count(s, below), Count(s, atMost));
  }

  /** The rules aimed at `op` lie between those aimed below it and those aimed above it. */
  lemma BlockBetween(s: seq<Interpolation>, op: OpKey, lo: nat, hi: nat)
    requires lo <= |s| && hi <= |s|
    requires forall i :: 0 <= i < |s| ==> (AimsBelow(s[i], op) <==> i < lo)
    requires forall i :: 0 <= i < |s| ==> (AimsAtMost(s[i], op) <==> i < hi)
    ensures lo <= hi
    ensures forall i :: 0 <= i < |s| ==> (AimsAt(s[i], op) <==> lo <= i < hi)
  {
    if lo > 0 {
      assert AimsAtMost(s[lo - 1], op);
    }
  }

  /** compile's binary search for the rules aimed at one operation, widened linearly
      in both directions once a match is found. */
  method FindRange(s: seq<Interpolation>, op: OpKey) returns (first: nat, num: nat)
    requires SortedBy(s, InterpKey)
    ensures (first, num) == MatchRange(s, op)
  {
    var lo, hi := 0, |s|;
    while lo < hi
      invariant 0 <= lo <= hi <= |s|
      invariant forall i :: 0 <= i < lo ==> AimsBelow(s[i], op)
      invariant forall i :: hi <= i < |s| ==> !AimsAtMost(s[i], op)
      decreases hi - lo
    {
      var mid := (lo + hi) / 2;
      var midKind := s[mid].targetKind / 256;
      if KindCode(op.kind) < midKind {
        AboveFrom(s, op, mid);
        hi := mid;
      } else if KindCode(op.kind) > midKind {
        BelowUpTo(s, op, mid);
        lo := mid + 1;
      } else if op.index < s[mid].targetIndex {
        AboveFrom(s, op, mid);
        hi := mid;
      } else if op.index > s[mid].targetIndex {
        BelowUpTo(s, op, mid);
        lo := mid + 1;
      } else {
        lo, hi := WidenRange(s, op, mid);
        FoundRange(s, op, lo, hi);
        return lo, hi - lo;
      }
    }
    NoRange(s, op, lo, hi);
    return 0, 0;
  }

  /** Having found a rule aimed at `op`, scan down and up for the whole block. */
  method WidenRange(s: seq<Interpolation>, op: OpKey, mid: nat) returns (lo: nat, hi: nat)
    requires mid < |s| && AimsAt(s[mid], op)
    ensures lo <= mid < hi <= |s|
    ensures forall i :: lo <= i < hi ==> AimsAt(s[i], op)
    ensures lo > 0 ==> !AimsAt(s[lo - 1], op)
    ensures hi < |s| ==> !AimsAt(s[hi], op)
  {
    lo := mid;
    while lo > 0 && s[lo - 1].targetKind / 256 == KindCode(op.kind) && s[lo - 1].targetIndex == op.index
      invariant 0 <= lo <= mid
      invariant forall i :: lo <= i <= mid ==> AimsAt(s[i], op)
    {
      lo := lo - 1;
    }
    hi := mid + 1;
    while hi < |s| && s[hi].targetKind / 256 == KindCode(op.kind) && s[hi].targetIndex == op.index
      invariant mid < hi <= |s|
      invariant forall i :: lo <= i < hi ==> AimsAt(s[i], op)
    {
      hi := hi + 1;
    }
  }

  /** In a sorted list, the rules after one aimed past `op` are aimed past it too. */
  lemma AboveFrom(s: seq<Interpolation>, op: OpKey, mid: nat)
    requires SortedBy(s, InterpKey) && mid < |s| && !AimsAtMost(s[mid], op)
    ensures forall i :: mid <= i < |s| ==> !AimsAtMost(s[i], op)
  {
  }

  /** In a sorted list, the rules before one aimed below `op` are aimed below it too. */
  lemma BelowUpTo(s: seq<Interpolation>, op: OpKey, mid: nat)
    requires SortedBy(s, InterpKey) && mid < |s| && AimsBelow(s[mid], op)
    ensures forall i :: 0 <= i <= mid ==> AimsBelow(s[i], op)
  {
  }

  /** A maximal block of rules aimed at `op` is the recorded range. */
  lemma FoundRange(s: seq<Interpolation>, op: OpKey, lo: nat, hi: nat)
    requires SortedBy(s, InterpKey) && lo < hi <= |s|
    requires forall i :: lo <= i < hi ==> AimsAt(s[i], op)
    requires lo > 0 ==> !AimsAt(s[lo - 1], op)
    requires hi < |s| ==> !AimsAt(s[hi], op)
    ensures MatchRange(s, op) == (lo, hi - lo)
  {
    assert forall i :: 0 <= i < |s| ==> (AimsBelow(s[i], op) <==> i < lo) by {
      forall i | 0 <= i < |s| ensures AimsBelow(s[i], op) <==> i < lo {
        if i < lo {
          assert !KeyLess(InterpKey(s[lo - 1]), InterpKey(s[i]));
          assert !KeyLess(InterpKey(s[lo]), InterpKey(s[lo - 1]));
        } else {
          assert !KeyLess(InterpKey(s[i]), InterpKey(s[lo]));
        }
      }
    }
    assert forall i :: 0 <= i < |s| ==> (AimsAt(s[i], op) <==> lo <= i < hi) by {
      forall i | 0 <= i < |s| ensures AimsAt(s[i], op) <==> lo <= i < hi {
        if i < lo {
          assert !KeyLess(InterpKey(s[lo - 1]), InterpKey(s[i]));
          assert !KeyLess(InterpKey(s[lo]), InterpKey(s[lo - 1]));
        } else if i >= hi {
          assert !KeyLess(InterpKey(s[i]), InterpKey(s[hi]));
          assert !KeyLess(InterpKey(s[hi]), InterpKey(s[hi - 1]));
        }
      }
    }
    CountBlock(s, it => AimsBelow(it, op), 0, lo);
    CountBlock(s, it => AimsAt(it, op), lo, hi);
  }

  /** A failed search leaves no rule aimed at `op`. */
  lemma NoRange(s: seq<Interpolation>, op: OpKey, lo: nat, hi: nat)
    requires hi <= lo <= |s|
    requires forall i :: 0 <= i < lo ==> AimsBelow(s[i], op)
    requires forall i :: hi <= i < |s| ==> !AimsAtMost(s[i], op)
    ensures MatchRange(s, op) == (0, 0)
  {
    CountBlock(s, it => AimsAt(it, op), 0, 0);
  }

  /** `op_to_interpolation_data` looked up with a default of (0, 0), as the partition
      code reads it. */
  function InterpData(m: map<OpKey, (nat, nat)>, op: OpKey): (nat, nat)
  {
    if op in m then m[op] else (0, 0)
  }

  /** compile's loop over the schedule recording each entry's range and, for entries
      with rules, `op_to_interpolation_data`. */
  method AssignInterpolations(entries0: seq<ScheduleEntry>, s: seq<Interpolation>)
    returns (entries: seq<ScheduleEntry>, opToInterp: map<OpKey, (nat, nat)>)
    requires SortedBy(s, InterpKey)
    ensures |entries| == |entries0|
    ensures forall t :: 0 <= t < |entries0| ==>
              entries[t] == entries0[t].(firstInterp := MatchRange(s, entries0[t].op).0,
                                         numInterps := MatchRange(s, entries0[t].op).1)
    ensures forall t :: 0 <= t < |entries0| ==> InterpData(opToInterp, entries0[t].op) == MatchRange(s, entries0[t].op)
    ensures forall k :: k in opToInterp ==> opToInterp[k] == MatchRange(s, k) && opToInterp[k].1 > 0
  {
    entries, opToInterp := entries0, map[];
    for t := 0 to |entries0|
      invariant AssignedUpTo(entries0, s, entries, opToInterp, t)
    {
      var first, num := FindRange(s, entries[t].op);
      ghost var before := entries;
      entries := entries[t := entries[t].(firstInterp := first, numInterps := num)];
      if num > 0 {
        opToInterp := opToInterp[entries[t].op := (first, num)];
      }
      AssignStep(entries0, s, before, entries, opToInterp, t);
    }
  }

  ghost predicate AssignedUpTo(entries0: seq<ScheduleEntry>, s: seq<Interpolation>, entries: seq<ScheduleEntry>,
                               m: map<OpKey, (nat, nat)>, t: nat)
  {
    && t <= |entries0| == |entries|
    && (forall u :: 0 <= u < t ==>
          entries[u] == entries0[u].(firstInterp := MatchRange(s, entries0[u].op).0,
                                     numInterps := MatchRange(s, entries0[u].op).1))
    && (forall u :: t <= u < |entries0| ==> entries[u] == entries0[u])
    && (forall u :: 0 <= u < t ==> InterpData(m, entries0[u].op) == MatchRange(s, entries0[u].op))
    && (forall k :: k in m ==> m[k] == MatchRange(s, k) && m[k].1 > 0)
  }

  lemma AssignStep(entries0: seq<ScheduleEntry>, s: seq<Interpolation>, before: seq<ScheduleEntry>,
                   entries: seq<ScheduleEntry>, m: map<OpKey, (nat, nat)>, t: nat)
    requires t < |entries0|
    requires exists m0 :: AssignedUpTo(entries0, s, before, m0, t) &&
               m == if MatchRange(s, before[t].op).1 > 0 then m0[before[t].op := MatchRange(s, before[t].op)] else m0
    requires entries == before[t := before[t].(firstInterp := MatchRange(s, before[t].op).0,
                                               numInterps := MatchRange(s, before[t].op).1)]
    ensures AssignedUpTo(entries0, s, entries, m, t + 1)
  {
  }

  // ---------------------------------------------------------------------------
  // Reduction operator validation

  /** What compile reads of a registered reduction operator. */
  datatype Redop = Redop(sizeofLhs: nat, sizeofRhs: nat)

  /** A reduction rule names a registered operator whose right-hand side is as wide
      as the bytes it takes from the arguments. */
  predicate RedopOk(it: Interpolation, registry: map<RedopId, Redop>)
  {
    it.redopId != 0 ==> it.redopId in registry && registry[it.redopId].sizeofRhs == it.bytes
  }

  /** Every rule passes the reduction-operator check. */
  predicate RedopsOk(s: seq<Interpolation>, registry: map<RedopId, Redop>)
  {
    forall i :: 0 <= i < |s| ==> RedopOk(s[i], registry)
  }

  /** compile's final check on the sorted rules: it fails on the first reduction rule
      with an unregistered operator or a mismatched size. */
  method ValidateRedops(s: seq<Interpolation>, registry: map<RedopId, Redop>) returns (ok: bool)
    ensures ok <==> RedopsOk(s, registry)
  {
    for i := 0 to |s|
      invariant forall j :: 0 <= j < i ==> RedopOk(s[j], registry)
    {
      if s[i].redopId != 0 {
        if s[i].redopId !in registry {
          return false;
        }
        if registry[s[i].redopId].sizeofRhs != s[i].bytes {
          return false;
        }
      }
    }
    return true;
  }

  /** Sorting does not change the verdict: it is a verdict about the definition's rules. */
  lemma RedopsOkAfterSort(s: seq<Interpolation>, registry: map<RedopId, Redop>)
    ensures RedopsOk(s, registry) <==> RedopsOk(SortBy(s, InterpKey), registry)
  {
    var r := SortBy(s, InterpKey);
    forall x ensures x in r <==> x in s {
      assert x in r <==> x in multiset(r);
      assert x in s <==> x in multiset(s);
    }
    SameMembersSameVerdict(s, r, registry);
  }

  lemma SameMembersSameVerdict(s: seq<Interpolation>, r: seq<Interpolation>, registry: map<RedopId, Redop>)
    requires forall x :: x in r <==> x in s
    ensures RedopsOk(s, registry) <==> RedopsOk(r, registry)
  {
    AllOkIffMembersOk(s, registry);
    AllOkIffMembersOk(r, registry);
  }

  lemma AllOkIffMembersOk(s: seq<Interpolation>, registry: map<RedopId, Redop>)
    ensures RedopsOk(s, registry) <==> (forall x :: x in s ==> RedopOk(x, registry))
  {
    if RedopsOk(s, registry) {
      forall x | x in s ensures RedopOk(x, registry) {
        var i :| 0 <= i < |s| && s[i] == x;
      }
    }
  }

  // ---------------------------------------------------------------------------
  // Applying rules to a field

  /** The rule writes field `kind` of operation `index`. */
  predicate Targets(it: Interpolation, kind: nat, index: nat)
  {
    it.targetKind == kind && it.targetIndex == index
  }

  /** The widths do_interpolation asserts: the source bytes lie inside the arguments,
      and the bytes written (the rule's width, or the operator's left-hand side) inside
      the field; a reduction's operator is registered. */
  predicate RuleFits(it: Interpolation, srcLen: nat, dstLen: nat, registry: map<RedopId, Redop>)
  {
    && it.offset + it.bytes <= srcLen
    && if it.redopId == 0 then it.targetOffset + it.bytes <= dstLen
       else it.redopId in registry && it.targetOffset + registry[it.redopId].sizeofLhs <= dstLen
  }

  /** The matching rules among `rules` all fit. */
  predicate RulesFit(rules: seq<Interpolation>, kind: nat, index: nat, srcLen: nat, dstLen: nat,
                     registry: map<RedopId, Redop>)
  {
    forall i :: 0 <= i < |rules| && Targets(rules[i], kind, index) ==> RuleFits(rules[i], srcLen, dstLen, registry)
  }

  /** A reduction operator's `cpu_apply_excl_fn` on one element: it maps the left-hand
      side and the right-hand side to a new left-hand side of the same width. */
  type ApplyFn = (RedopId, seq<byte>, seq<byte>) -> seq<byte>

  ghost predicate LengthPreserving(apply: ApplyFn)
  {
    forall id, lhs, rhs :: |apply(id, lhs, rhs)| == |lhs|
  }

  /** The bytes `it` writes: its source bytes, or the reduction of the field's bytes with them. */
  function RuleBytes(it: Interpolation, src: seq<byte>, dst: seq<byte>, registry: map<RedopId, Redop>,
                     apply: ApplyFn): (w: seq<byte>)
    requires RuleFits(it, |src|, |dst|, registry) && LengthPreserving(apply)
    ensures it.targetOffset + |w| <= |dst|
    ensures it.redopId == 0 ==> w == src[it.offset..it.offset + it.bytes]
  {
    if it.redopId == 0 then src[it.offset..it.offset + it.bytes]
    else
      var lhs := registry[it.redopId].sizeofLhs;
      apply(it.redopId, dst[it.targetOffset..it.targetOffset + lhs], src[it.offset..it.offset + it.bytes])
  }

  /** `dst` with `w` written at `at`. */
  function Splice(dst: seq<byte>, at: nat, w: seq<byte>): (r: seq<byte>)
    requires at + |w| <= |dst|
    ensures |r| == |dst|
  {
    dst[..at] + w + dst[at + |w|..]
  }

  /** Byte `k` after a splice. */
  lemma SpliceAt(dst: seq<byte>, at: nat, w: seq<byte>, k: nat)
    requires at + |w| <= |dst| && k < |dst|
    ensures Splice(dst, at, w)[k] == if at <= k < at + |w| then w[k - at] else dst[k]
  {
  }

  /** The field after one rule. */
  function ApplyRule(it: Interpolation, src: seq<byte>, dst: seq<byte>, registry: map<RedopId, Redop>,
                     apply: ApplyFn): (r: seq<byte>)
    requires RuleFits(it, |src|, |dst|, registry) && LengthPreserving(apply)
    ensures |r| == |dst|
  {
    Splice(dst, it.targetOffset, RuleBytes(it, src, dst, registry, apply))
  }

  /** The field after the rules of a range that target it, applied in order. */
  function ApplyRules(rules: seq<Interpolation>, kind: nat, index: nat, src: seq<byte>, dst: seq<byte>,
                      registry: map<RedopId, Redop>, apply: ApplyFn): (r: seq<byte>)
    requires RulesFit(rules, kind, index, |src|, |dst|, registry) && LengthPreserving(apply)
    ensures |r| == |dst|
  {
    if rules == [] then dst
    else
      var next := if Targets(rules[0], kind, index) then ApplyRule(rules[0], src, dst, registry, apply) else dst;
      assert RulesFit(rules[1..], kind, index, |src|, |next|, registry) by {
        assert forall i :: 0 <= i < |rules| - 1 ==> rules[1..][i] == rules[i + 1];
      }
      ApplyRules(rules[1..], kind, index, src, next, registry, apply)
  }

  /** The extent rule `it` writes. */
  function Width(it: Interpolation, registry: map<RedopId, Redop>): nat
  {
    if it.redopId != 0 && it.redopId in registry then registry[it.redopId].sizeofLhs else it.bytes
  }

  /** A byte that no matching rule writes keeps its value. */
  lemma {:induction false} ApplyRulesFrame(rules: seq<Interpolation>, kind: nat, index: nat, src: seq<byte>,
                                           dst: seq<byte>, registry: map<RedopId, Redop>, apply: ApplyFn, k: nat)
    requires RulesFit(rules, kind, index, |src|, |dst|, registry) && LengthPreserving(apply)
    requires k < |dst|
    requires forall i :: 0 <= i < |rules| && Targets(rules[i], kind, index) ==>
               !(rules[i].targetOffset <= k < rules[i].targetOffset + Width(rules[i], registry))
    ensures ApplyRules(rules, kind, index, src, dst, registry, apply)[k] == dst[k]
  {
    if rules != [] {
      var next := if Targets(rules[0], kind, index) then ApplyRule(rules[0], src, dst, registry, apply) else dst;
      if Targets(rules[0], kind, index) {
        SpliceAt(dst, rules[0].targetOffset, RuleBytes(rules[0], src, dst, registry, apply), k);
      }
      assert next[k] == dst[k];
      assert forall i :: 0 <= i < |rules| - 1 ==> rules[1..][i] == rules[i + 1];
      ApplyRulesFrame(rules[1..], kind, index, src, next, registry, apply, k);
    }
  }

  /** Rules for other fields change nothing. */
  lemma {:induction false} ApplyRulesNoMatch(rules: seq<Interpolation>, kind: nat, index: nat, src: seq<byte>,
                                             dst: seq<byte>, registry: map<RedopId, Redop>, apply: ApplyFn)
    requires LengthPreserving(apply)
    requires forall i :: 0 <= i < |rules| ==> !Targets(rules[i], kind, index)
    ensures RulesFit(rules, kind, index, |src|, |dst|, registry)
    ensures ApplyRules(rules, kind, index, src, dst, registry, apply) == dst
  {
    if rules != [] {
      assert forall i :: 0 <= i < |rules| - 1 ==> rules[1..][i] == rules[i + 1];
      ApplyRulesNoMatch(rules[1..], kind, index, src, dst, registry, apply);
    }
  }

  /** Applying a list with one more rule at the end applies that rule last. */
  lemma {:induction false} ApplyRulesSnoc(rules: seq<Interpolation>, it: Interpolation, kind: nat, index: nat,
                                          src: seq<byte>, dst: seq<byte>, registry: map<RedopId, Redop>, apply: ApplyFn)
    requires RulesFit(rules + [it], kind, index, |src|, |dst|, registry) && LengthPreserving(apply)
    ensures RulesFit(rules, kind, index, |src|, |dst|, registry)
    ensures Targets(it, kind, index) ==> RuleFits(it, |src|, |dst|, registry)
    ensures var before := ApplyRules(rules, kind, index, src, dst, registry, apply);
            ApplyRules(rules + [it], kind, index, src, dst, registry, apply) ==
              if Targets(it, kind, index) then ApplyRule(it, src, before, registry, apply) else before
  {
    assert (rules + [it])[|rules|] == it;
    assert forall i :: 0 <= i < |rules| ==> (rules + [it])[i] == rules[i];
    if rules != [] {
      var next := if Targets(rules[0], kind, index) then ApplyRule(rules[0], src, dst, registry, apply) else dst;
      assert (rules + [it])[1..] == rules[1..] + [it];
      assert forall i :: 0 <= i < |rules| ==> (rules + [it])[i + 1] == (rules[1..] + [it])[i];
      ApplyRulesSnoc(rules[1..], it, kind, index, src, next, registry, apply);
    }
  }

  /** When the last rule of a range is an overwrite of the field, the bytes it names
      end up holding its source bytes, whatever the earlier rules did. */
  lemma LastOverwriteWins(rules: seq<Interpolation>, it: Interpolation, kind: nat, index: nat,
                          src: seq<byte>, dst: seq<byte>, registry: map<RedopId, Redop>, apply: ApplyFn)
    requires RulesFit(rules + [it], kind, index, |src|, |dst|, registry) && LengthPreserving(apply)
    requires Targets(it, kind, index) && it.redopId == 0
    ensures it.offset + it.bytes <= |src| && it.targetOffset + it.bytes <= |dst|
    ensures ApplyRules(rules + [it], kind, index, src, dst, registry, apply)[it.targetOffset..it.targetOffset + it.bytes]
            == src[it.offset..it.offset + it.bytes]
  {
    assert (rules + [it])[|rules|] == it;
    ApplyRulesSnoc(rules, it, kind, index, src, dst, registry, apply);
  }

  // ---------------------------------------------------------------------------
  // The engine instantiation uses

  /** The matching rules of range first .. first+num-1. */
  ghost predicate HasMatch(interps: seq<Interpolation>, first: nat, num: nat, kind: nat, index: nat)
    requires first + num <= |interps|
  {
    exists i :: first <= i < first + num && Targets(interps[i], kind, index)
  }

  /** has_interpolation: whether a range holds a rule for field `kind` of operation `index`. */
  method HasInterpolation(interps: seq<Interpolation>, first: nat, num: nat, kind: nat, index: nat)
    returns (found: bool)
    requires first + num <= |interps|
    ensures found <==> HasMatch(interps, first, num, kind, index)
  {
    for i := 0 to num
      invariant forall j :: first <= j < first + i ==> !Targets(interps[j], kind, index)
    {
      if interps[first + i].targetKind == kind && interps[first + i].targetIndex == index {
        return true;
      }
    }
    return false;
  }

  /** InterpolationScratchHelper: a buffer of `needed` bytes handed out in consecutive
      slices. Whether it is the caller's preallocated array or a heap block does not
      change what it hands out. */
  class ScratchHelper {
    const needed: nat
    var used: nat
    const buf: array<byte>

    ghost predicate Valid()
      reads this
    {
      buf.Length == needed && used <= needed
    }

    constructor(needed: nat)
      ensures Valid() && this.needed == needed && used == 0 && fresh(buf)
    {
      this.needed := needed;
      used := 0;
      buf := new byte[needed];
    }

    /** next: the slice starting where the previous one ended. */
    method Next(bytes: nat) returns (p: nat)
      requires Valid() && used + bytes <= needed
      modifies this
      ensures Valid() && p == old(used) && used == p + bytes && p + bytes <= buf.Length
    {
      p := used;
      used := used + bytes;
    }
  }

  /** memcpy into an array. */
  method CopyInto(buf: array<byte>, at: nat, data: seq<byte>)
    requires at + |data| <= buf.Length
    modifies buf
    ensures buf[..] == Splice(old(buf[..]), at, data)
  {
    forall k | 0 <= k < |data| {
      buf[at + k] := data[k];
    }
  }

  /** Writing inside a slice of a buffer writes the slice. */
  lemma SpliceInside(s: seq<byte>, at: nat, len: nat, p: nat, w: seq<byte>)
    requires at + len <= |s| && p + |w| <= len
    ensures Splice(s, at + p, w)[at..at + len] == Splice(s[at..at + len], p, w)
  {
    var whole, part := Splice(s, at + p, w), Splice(s[at..at + len], p, w);
    forall k | 0 <= k < len
      ensures whole[at + k] == part[k]
    {
      SpliceAt(s, at + p, w, at + k);
      SpliceAt(s[at..at + len], p, w, k);
    }
  }

  /** One rule applied to the slice at .. at+len-1 of a buffer. */
  method ApplyInto(buf: array<byte>, at: nat, len: nat, it: Interpolation, src: seq<byte>,
                   registry: map<RedopId, Redop>, apply: ApplyFn)
    requires at + len <= buf.Length && RuleFits(it, |src|, len, registry) && LengthPreserving(apply)
    modifies buf
    ensures buf[at..at + len] == ApplyRule(it, src, old(buf[at..at + len]), registry, apply)
  {
    ghost var whole, field := buf[..], buf[at..at + len];
    assert field == whole[at..at + len];
    var w := RuleBytes(it, src, buf[at..at + len], registry, apply);
    assert ApplyRule(it, src, field, registry, apply) == Splice(field, it.targetOffset, w);
    SpliceInside(whole, at, len, it.targetOffset, w);
    CopyInto(buf, at + it.targetOffset, w);
    assert buf[at..at + len] == buf[..][at..at + len];
  }

  /** The rules the loop has yet to visit, from rule `i` on. */
  ghost predicate Remaining(interps: seq<Interpolation>, first: nat, num: nat, kind: nat, index: nat,
                            src: seq<byte>, dst: seq<byte>, registry: map<RedopId, Redop>, apply: ApplyFn,
                            i: nat, cur: seq<byte>)
    requires first + num <= |interps| && i <= num && |cur| == |dst| && LengthPreserving(apply)
    requires RulesFit(interps[first..first + num], kind, index, |src|, |dst|, registry)
  {
    RulesFit(interps[first + i..first + num], kind, index, |src|, |dst|, registry) &&
    ApplyRules(interps[first..first + num], kind, index, src, dst, registry, apply) ==
    ApplyRules(interps[first + i..first + num], kind, index, src, cur, registry, apply)
  }

  lemma RemainingStep(interps: seq<Interpolation>, first: nat, num: nat, kind: nat, index: nat,
                      src: seq<byte>, dst: seq<byte>, registry: map<RedopId, Redop>, apply: ApplyFn,
                      i: nat, cur: seq<byte>, next: seq<byte>)
    requires first + num <= |interps| && i < num && |cur| == |dst| && LengthPreserving(apply)
    requires RulesFit(interps[first..first + num], kind, index, |src|, |dst|, registry)
    requires Remaining(interps, first, num, kind, index, src, dst, registry, apply, i, cur)
    requires Targets(interps[first + i], kind, index) ==> RuleFits(interps[first + i], |src|, |cur|, registry)
    requires next == if Targets(interps[first + i], kind, index)
                     then ApplyRule(interps[first + i], src, cur, registry, apply) else cur
    ensures |next| == |dst|
    ensures Remaining(interps, first, num, kind, index, src, dst, registry, apply, i + 1, next)
  {
    var rest := interps[first + i..first + num];
    assert rest[0] == interps[first + i];
    assert rest[1..] == interps[first + i + 1..first + num];
  }

  lemma RemainingAtStart(interps: seq<Interpolation>, first: nat, num: nat, kind: nat, index: nat,
                         src: seq<byte>, dst: seq<byte>, registry: map<RedopId, Redop>, apply: ApplyFn)
    requires first + num <= |interps| && LengthPreserving(apply)
    requires RulesFit(interps[first..first + num], kind, index, |src|, |dst|, registry)
    ensures Remaining(interps, first, num, kind, index, src, dst, registry, apply, 0, dst)
  {
  }

  lemma RemainingAtEnd(interps: seq<Interpolation>, first: nat, num: nat, kind: nat, index: nat,
                       src: seq<byte>, dst: seq<byte>, registry: map<RedopId, Redop>, apply: ApplyFn, cur: seq<byte>)
    requires first + num <= |interps| && |cur| == |dst| && LengthPreserving(apply)
    requires RulesFit(interps[first..first + num], kind, index, |src|, |dst|, registry)
    requires Remaining(interps, first, num, kind, index, src, dst, registry, apply, num, cur)
    ensures ApplyRules(interps[first..first + num], kind, index, src, dst, registry, apply) == cur
  {
  }

  /** A matching rule of the range lies in the untouched part or was already visited. */
  lemma NoMatchSoFar(interps: seq<Interpolation>, first: nat, num: nat, kind: nat, index: nat)
    requires first + num <= |interps|
    requires forall j :: first <= j < first + num ==> !Targets(interps[j], kind, index)
    ensures !HasMatch(interps, first, num, kind, index)
  {
  }

  /** do_interpolation: the first matching rule copies the field into the next slice of
      scratch memory, and every matching rule is then applied to that copy; the result
      is the copy, or the untouched field when no rule matched. */
  method DoInterpolation(interps: seq<Interpolation>, first: nat, num: nat, kind: nat, index: nat,
                         src: seq<byte>, dst: seq<byte>, helper: ScratchHelper,
                         registry: map<RedopId, Redop>, apply: ApplyFn)
    returns (out: seq<byte>, copied: bool)
    requires first + num <= |interps| && LengthPreserving(apply)
    requires RulesFit(interps[first..first + num], kind, index, |src|, |dst|, registry)
    requires helper.Valid()
    requires HasMatch(interps, first, num, kind, index) ==> helper.used + |dst| <= helper.needed
    modifies helper, helper.buf
    ensures helper.Valid()
    ensures out == ApplyRules(interps[first..first + num], kind, index, src, dst, registry, apply)
    ensures copied <==> HasMatch(interps, first, num, kind, index)
    ensures copied ==> helper.used == old(helper.used) + |dst| && helper.buf[old(helper.used)..helper.used] == out
    ensures !copied ==> helper.used == old(helper.used) && out == dst
  {
    copied := false;
    var at: nat := 0;
    ghost var cur := dst;
    ghost var used0 := helper.used;
    RemainingAtStart(interps, first, num, kind, index, src, dst, registry, apply);
    for i: nat := 0 to num
      invariant EngineInv(interps, first, num, kind, index, src, dst, registry, apply, helper, used0, i, copied, at, cur)
    {
      copied, at, cur := VisitRule(interps, first, num, kind, index, src, dst, registry, apply, helper, used0, i, copied, at, cur);
    }
    RemainingAtEnd(interps, first, num, kind, index, src, dst, registry, apply, cur);
    if copied {
      out := helper.buf[at..at + |dst|];
    } else {
      NoMatchSoFar(interps, first, num, kind, index);
      out := dst;
    }
  }

  /** The state of do_interpolation's loop after visiting `i` rules: whether the field
      has been copied, where to, and the bytes the copy holds. */
  ghost predicate EngineInv(interps: seq<Interpolation>, first: nat, num: nat, kind: nat, index: nat,
                            src: seq<byte>, dst: seq<byte>, registry: map<RedopId, Redop>, apply: ApplyFn,
                            helper: ScratchHelper, used0: nat, i: nat, copied: bool, at: nat, cur: seq<byte>)
    reads helper, helper.buf
    requires first + num <= |interps| && LengthPreserving(apply)
    requires RulesFit(interps[first..first + num], kind, index, |src|, |dst|, registry)
  {
    && helper.Valid() && |cur| == |dst| && i <= num
    && (HasMatch(interps, first, num, kind, index) ==> used0 + |dst| <= helper.needed)
    && Remaining(interps, first, num, kind, index, src, dst, registry, apply, i, cur)
    && (!copied ==> cur == dst && helper.used == used0 &&
                    forall j :: first <= j < first + i ==> !Targets(interps[j], kind, index))
    && (copied ==> HasMatch(interps, first, num, kind, index))
    && (copied ==> at == used0 && helper.used == at + |dst| && helper.buf[at..at + |dst|] == cur)
  }

  /** One iteration of do_interpolation's loop. */
  method VisitRule(interps: seq<Interpolation>, first: nat, num: nat, kind: nat, index: nat,
                   src: seq<byte>, dst: seq<byte>, registry: map<RedopId, Redop>, apply: ApplyFn,
                   helper: ScratchHelper, ghost used0: nat, i: nat, copied: bool, at: nat, ghost cur: seq<byte>)
    returns (copied': bool, at': nat, ghost cur': seq<byte>)
    requires first + num <= |interps| && LengthPreserving(apply) && i < num
    requires RulesFit(interps[first..first + num], kind, index, |src|, |dst|, registry)
    requires EngineInv(interps, first, num, kind, index, src, dst, registry, apply, helper, used0, i, copied, at, cur)
    modifies helper, helper.buf
    ensures EngineInv(interps, first, num, kind, index, src, dst, registry, apply, helper, used0, i + 1, copied', at', cur')
  {
    copied', at', cur' := copied, at, cur;
    var it := interps[first + i];
    if it.targetKind != kind || it.targetIndex != index {
      RemainingStep(interps, first, num, kind, index, src, dst, registry, apply, i, cur, cur);
      return;
    }
    copied', at', cur' := VisitMatch(interps, first, num, kind, index, src, dst, registry, apply, helper, used0, i, copied, at, cur);
  }

  /** One iteration of do_interpolation's loop on a matching rule. */
  method VisitMatch(interps: seq<Interpolation>, first: nat, num: nat, kind: nat, index: nat,
                    src: seq<byte>, dst: seq<byte>, registry: map<RedopId, Redop>, apply: ApplyFn,
                    helper: ScratchHelper, ghost used0: nat, i: nat, copied: bool, at: nat, ghost cur: seq<byte>)
    returns (copied': bool, at': nat, ghost cur': seq<byte>)
    requires first + num <= |interps| && LengthPreserving(apply) && i < num
    requires RulesFit(interps[first..first + num], kind, index, |src|, |dst|, registry)
    requires EngineInv(interps, first, num, kind, index, src, dst, registry, apply, helper, used0, i, copied, at, cur)
    requires Targets(interps[first + i], kind, index)
    modifies helper, helper.buf
    ensures EngineInv(interps, first, num, kind, index, src, dst, registry, apply, helper, used0, i + 1, copied', at', cur')
  {
    var it := interps[first + i];
    assert interps[first..first + num][i] == it;
    assert HasMatch(interps, first, num, kind, index);
    assert RuleFits(it, |src|, |dst|, registry);
    RemainingStep(interps, first, num, kind, index, src, dst, registry, apply, i, cur, ApplyRule(it, src, cur, registry, apply));
    at', cur' := CopyAndApply(helper, used0, copied, at, dst, cur, it, src, registry, apply);
    copied' := true;
  }

  /** A matching rule applied to the scratch copy of the field, made first if need be. */
  method CopyAndApply(helper: ScratchHelper, ghost used0: nat, copied: bool, at: nat, dst: seq<byte>, ghost cur: seq<byte>,
                      it: Interpolation, src: seq<byte>, registry: map<RedopId, Redop>, apply: ApplyFn)
    returns (at': nat, ghost cur': seq<byte>)
    requires helper.Valid() && LengthPreserving(apply) && |cur| == |dst| && RuleFits(it, |src|, |dst|, registry)
    requires !copied ==> cur == dst && helper.used == used0 && used0 + |dst| <= helper.needed
    requires copied ==> at == used0 && helper.used == at + |dst| && helper.buf[at..at + |dst|] == cur
    modifies helper, helper.buf
    ensures helper.Valid() && at' == used0 && helper.used == at' + |dst| && helper.buf[at'..at' + |dst|] == cur'
    ensures cur' == ApplyRule(it, src, cur, registry, apply)
  {
    at' := EnsureCopied(helper, used0, copied, at, dst, cur);
    ghost var before := helper.buf[at'..at' + |dst|];
    assert before == cur;
    ApplyInto(helper.buf, at', |dst|, it, src, registry, apply);
    cur' := helper.buf[at'..at' + |dst|];
    assert cur' == ApplyRule(it, src, before, registry, apply);
  }

  /** The copy of the field into scratch memory, made on the first matching rule. */
  method EnsureCopied(helper: ScratchHelper, ghost used0: nat, copied: bool, at: nat, dst: seq<byte>, ghost cur: seq<byte>)
    returns (at': nat)
    requires helper.Valid()
    requires !copied ==> cur == dst && helper.used == used0 && used0 + |dst| <= helper.needed
    requires copied ==> at == used0 && helper.used == at + |dst| && helper.buf[at..at + |dst|] == cur
    modifies helper, helper.buf
    ensures helper.Valid() && at' == used0 && helper.used == at' + |dst| && helper.buf[at'..at' + |dst|] == cur
    ensures copied ==> unchanged(helper.buf)
  {
    at' := at;
    if !copied {
      at' := helper.Next(|dst|);
      CopyInto(helper.buf, at', dst);
      assert helper.buf[at'..at' + |dst|] == dst;
    }
  }

  /** The identity in place of a reduction, for ranges that have none. */
  function KeepLhs(id: RedopId, lhs: seq<byte>, rhs: seq<byte>): seq<byte> { lhs }

  lemma KeepLhsPreservesLength()
    ensures LengthPreserving(KeepLhs)
  {
  }

  /** do_interpolation_inline: the matching rules overwrite the field in place; a
      reduction rule is not supported there. */
  method DoInterpolationInline(interps: seq<Interpolation>, first: nat, num: nat, kind: nat, index: nat,
                               src: seq<byte>, dst: array<byte>)
    requires first + num <= |interps|
    requires forall i :: first <= i < first + num && Targets(interps[i], kind, index) ==> interps[i].redopId == 0
    requires RulesFit(interps[first..first + num], kind, index, |src|, dst.Length, map[])
    modifies dst
    ensures LengthPreserving(KeepLhs)
    ensures dst[..] == ApplyRules(interps[first..first + num], kind, index, src, old(dst[..]), map[], KeepLhs)
  {
    KeepLhsPreservesLength();
    ghost var dst0 := dst[..];
    RemainingAtStart(interps, first, num, kind, index, src, dst0, map[], KeepLhs);
    for i := 0 to num
      invariant |dst[..]| == |dst0|
      invariant Remaining(interps, first, num, kind, index, src, dst0, map[], KeepLhs, i, dst[..])
    {
      InlineRule(interps, first, num, kind, index, src, dst, dst0, i);
    }
    RemainingAtEnd(interps, first, num, kind, index, src, dst0, map[], KeepLhs, dst[..]);
  }

  /** One iteration of do_interpolation_inline: rule `first + i` overwrites the
      field when it targets it. */
  method InlineRule(interps: seq<Interpolation>, first: nat, num: nat, kind: nat, index: nat,
                    src: seq<byte>, dst: array<byte>, ghost dst0: seq<byte>, i: nat)
    requires first + num <= |interps| && i < num && dst.Length == |dst0|
    requires Targets(interps[first + i], kind, index) ==> interps[first + i].redopId == 0
    requires RulesFit(interps[first..first + num], kind, index, |src|, |dst0|, map[])
    requires LengthPreserving(KeepLhs)
    requires Remaining(interps, first, num, kind, index, src, dst0, map[], KeepLhs, i, dst[..])
    modifies dst
    ensures Remaining(interps, first, num, kind, index, src, dst0, map[], KeepLhs, i + 1, dst[..])
  {
    var it := interps[first + i];
    if it.targetKind != kind || it.targetIndex != index {
      RemainingStep(interps, first, num, kind, index, src, dst0, map[], KeepLhs, i, dst[..], dst[..]);
      return;
    }
    assert interps[first..first + num][i] == it;
    ghost var before := dst[..];
    OverwriteField(dst, it, src);
    RemainingStep(interps, first, num, kind, index, src, dst0, map[], KeepLhs, i, before, dst[..]);
  }

  /** The memcpy of one overwrite rule into the whole field. */
  method OverwriteField(dst: array<byte>, it: Interpolation, src: seq<byte>)
    requires RuleFits(it, |src|, dst.Length, map[]) && LengthPreserving(KeepLhs)
    modifies dst
    ensures dst[..] == ApplyRule(it, src, old(dst[..]), map[], KeepLhs)
  {
    assert dst[0..dst.Length] == dst[..];
    ApplyInto(dst, 0, dst.Length, it, src, map[], KeepLhs);
    assert dst[0..dst.Length] == dst[..];
  }
}
