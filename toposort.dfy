/** The ordering phase of SubgraphImpl::compile: seed a rank per operation, relax the
    ranks over the dependency edges until no edge runs backwards, and report a cycle
    when the relaxation does not converge. */
module Toposort {
  import opened SubgraphDefs
  import opened Seqs

  /** The operation keys in the order compile seeds its sort map: tasks, copies,
      arrivals, instantiations, acquires, then releases, each by index. */
  function AllOps(d: Definition): (ks: seq<OpKey>)
    ensures |ks| == |d.tasks| + d.numCopies + |d.arrivals| + d.numInstantiations + d.numAcquires + d.numReleases
  {
    KindKeys(Task, |d.tasks|) + KindKeys(Copy, d.numCopies) + KindKeys(Arrival, |d.arrivals|)
    + KindKeys(Instantiation, d.numInstantiations) + KindKeys(Acquire, d.numAcquires)
    + KindKeys(Release, d.numReleases)
  }

  function KindKeys(kind: OpKind, n: nat): (ks: seq<OpKey>)
    ensures |ks| == n
    ensures forall i :: 0 <= i < n ==> ks[i] == OpKey(kind, i)
  {
    seq(n, i requires 0 <= i < n => OpKey(kind, i))
  }

  /** Seeding lists every declared operation exactly once. */
  lemma AllOpsListsOps(d: Definition)
    ensures Distinct(AllOps(d))
    ensures forall k :: k in AllOps(d) <==> IsOp(d, k)
  {
    FirstKindsCovered(d);
    var s3 := KindKeys(Task, |d.tasks|) + KindKeys(Copy, d.numCopies) + KindKeys(Arrival, |d.arrivals|);
    AppendKind(d, s3, 3, Instantiation);
    var s4 := s3 + KindKeys(Instantiation, d.numInstantiations);
    AppendKind(d, s4, 4, Acquire);
    AppendKind(d, s4 + KindKeys(Acquire, d.numAcquires), 5, Release);
  }

  /** Tasks, copies and arrivals, in seeding order. */
  lemma FirstKindsCovered(d: Definition)
    ensures Covers(d, KindKeys(Task, |d.tasks|) + KindKeys(Copy, d.numCopies) + KindKeys(Arrival, |d.arrivals|), 3)
  {
    var s1 := KindKeys(Task, |d.tasks|);
    assert [] + s1 == s1;
    AppendKind(d, [], 0, Task);
    AppendKind(d, s1, 1, Copy);
    AppendKind(d, s1 + KindKeys(Copy, d.numCopies), 2, Arrival);
  }

  /** The position of each operation kind in seeding order. */
  function SeedOrder(kind: OpKind): nat
  {
    match kind
    case Task => 0
    case Copy => 1
    case Arrival => 2
    case Instantiation => 3
    case Acquire => 4
    case Release => 5
    case _ => 6
  }

  /** `s` lists, once each, the declared operations of the first `n` kinds in seeding order. */
  ghost predicate Covers(d: Definition, s: seq<OpKey>, n: nat)
  {
    && Distinct(s)
    && forall k :: k in s <==> IsOp(d, k) && SeedOrder(k.kind) < n
  }

  /** Appending the keys of the next kind keeps the list free of repeats. */
  lemma AppendKind(d: Definition, s: seq<OpKey>, n: nat, kind: OpKind)
    requires Covers(d, s, n) && IsRealKind(kind) && SeedOrder(kind) == n
    ensures Covers(d, s + KindKeys(kind, OpCount(d, kind)), n + 1)
  {
    var t := KindKeys(kind, OpCount(d, kind));
    forall k ensures k in s + t <==> IsOp(d, k) && SeedOrder(k.kind) < n + 1 {
      if k.kind == kind && k.index < OpCount(d, kind) {
        assert t[k.index] == k;
      }
    }
  }

  /** The seeded ranks: the i-th listed operation gets rank i. */
  function SeedRanks(ks: seq<OpKey>): (m: map<OpKey, nat>)
    requires Distinct(ks)
    ensures m.Keys == set i | 0 <= i < |ks| :: ks[i]
    ensures forall i :: 0 <= i < |ks| ==> m[ks[i]] == i
  {
    map i | 0 <= i < |ks| :: ks[i] := i
  }

  /** Ranks are pairwise distinct. */
  ghost predicate Injective(m: map<OpKey, nat>)
  {
    forall a, b :: a in m && b in m && a != b ==> m[a] != m[b]
  }

  /** Every rank is below `bound`. */
  ghost predicate Bounded(m: map<OpKey, nat>, bound: nat)
  {
    forall k :: k in m ==> m[k] < bound
  }

  /** compile's seeding loops: `toposort[key] = nextval++` for each operation in turn. */
  method Seed(ks: seq<OpKey>) returns (toposort: map<OpKey, nat>, nextval: nat)
    requires Distinct(ks)
    ensures toposort == SeedRanks(ks) && nextval == |ks|
    ensures Injective(toposort) && Bounded(toposort, nextval)
  {
    toposort := map[];
    nextval := 0;
    for i := 0 to |ks|
      invariant nextval == i
      invariant toposort == map j | 0 <= j < i :: ks[j] := j
    {
      toposort := toposort[ks[i] := nextval];
      nextval := nextval + 1;
    }
  }

  // ---------------------------------------------------------------------------
  // Relaxation

  /** The comparison that moves an edge's target. The source compares with a strict
      `>` and runs at most `total_ops` passes (AsWritten); the corrected rule compares
      with `>=`, so that a self-dependency is a cycle, and runs at least one pass. */
  datatype RelaxRule = AsWritten | Corrected

  function PassLimit(rule: RelaxRule, totalOps: nat): nat
  {
    if rule == Corrected && totalOps == 0 then 1 else totalOps
  }

  /** Edges the relaxation looks at: external pre- and postconditions are skipped. */
  predicate IsRelaxEdge(dep: Dependency)
  {
    dep.srcKind != ExtPrecond && dep.tgtKind != ExtPostcond
  }

  /** The edges a rule must order strictly: under the as-written rule a self-dependency
      is never a violation, so only edges between distinct operations count. */
  predicate Considered(rule: RelaxRule, dep: Dependency)
  {
    IsRelaxEdge(dep) && (rule == Corrected || Src(dep) != Tgt(dep))
  }

  ghost predicate EdgesIn(deps: seq<Dependency>, m: map<OpKey, nat>)
  {
    forall j :: 0 <= j < |deps| && IsRelaxEdge(deps[j]) ==> Src(deps[j]) in m && Tgt(deps[j]) in m
  }

  predicate Violates(rule: RelaxRule, m: map<OpKey, nat>, dep: Dependency)
    requires Src(dep) in m && Tgt(dep) in m
  {
    if rule == AsWritten then m[Src(dep)] > m[Tgt(dep)] else m[Src(dep)] >= m[Tgt(dep)]
  }

  /** The state the relaxation loop carries: the map, `nextval` and `converged`. */
  datatype RelaxState = RelaxState(ranks: map<OpKey, nat>, next: nat, converged: bool)

  /** One edge of one pass: a violated edge moves its target behind everything. */
  function Step(rule: RelaxRule, s: RelaxState, dep: Dependency): (r: RelaxState)
    requires IsRelaxEdge(dep) ==> Src(dep) in s.ranks && Tgt(dep) in s.ranks
    ensures r.ranks.Keys == s.ranks.Keys
  {
    if IsRelaxEdge(dep) && Violates(rule, s.ranks, dep) then
      RelaxState(s.ranks[Tgt(dep) := s.next], s.next + 1, false)
    else s
  }

  /** The first `k` edges of a pass. */
  function PassPrefix(rule: RelaxRule, s: RelaxState, deps: seq<Dependency>, k: nat): (r: RelaxState)
    requires k <= |deps| && EdgesIn(deps, s.ranks)
    ensures r.ranks.Keys == s.ranks.Keys
  {
    if k == 0 then s else Step(rule, PassPrefix(rule, s, deps, k - 1), deps[k - 1])
  }

  /** A whole pass, started with `converged = true`. */
  function Pass(rule: RelaxRule, m: map<OpKey, nat>, next: nat, deps: seq<Dependency>): (r: RelaxState)
    requires EdgesIn(deps, m)
    ensures r.ranks.Keys == m.Keys
  {
    PassPrefix(rule, RelaxState(m, next, true), deps, |deps|)
  }

  /** The pass loop from pass `i` on: it stops after a pass that changed nothing, or
      when `limit` passes have run, and then reports whether it converged. */
  function RelaxFrom(rule: RelaxRule, m: map<OpKey, nat>, next: nat, deps: seq<Dependency>,
                     i: nat, limit: nat): (r: RelaxState)
    requires EdgesIn(deps, m)
    ensures r.ranks.Keys == m.Keys
    decreases limit - i
  {
    if i >= limit then RelaxState(m, next, false)
    else
      var p := Pass(rule, m, next, deps);
      if p.converged then p else RelaxFrom(rule, p.ranks, p.next, deps, i + 1, limit)
  }

  /** compile's relaxation loop (`for i < total_ops while !converged`, one pass over the
      dependency list each), under either rule. */
  method Relax(rule: RelaxRule, toposort0: map<OpKey, nat>, nextval0: nat, deps: seq<Dependency>, limit: nat)
    returns (toposort: map<OpKey, nat>, nextval: nat, converged: bool)
    requires EdgesIn(deps, toposort0)
    ensures RelaxState(toposort, nextval, converged) == RelaxFrom(rule, toposort0, nextval0, deps, 0, limit)
  {
    toposort, nextval, converged := toposort0, nextval0, false;
    var i := 0;
    while !converged && i < limit
      invariant i <= limit && toposort.Keys == toposort0.Keys
      invariant converged ==> RelaxFrom(rule, toposort0, nextval0, deps, 0, limit) == RelaxState(toposort, nextval, true)
      invariant !converged ==> RelaxFrom(rule, toposort0, nextval0, deps, 0, limit) == RelaxFrom(rule, toposort, nextval, deps, i, limit)
      decreases limit - i, !converged
    {
      toposort, nextval, converged := RelaxPass(rule, toposort, nextval, deps);
      i := i + 1;
    }
  }

  /** One pass of compile's relaxation loop over the dependency list. */
  method RelaxPass(rule: RelaxRule, toposort0: map<OpKey, nat>, nextval0: nat, deps: seq<Dependency>)
    returns (toposort: map<OpKey, nat>, nextval: nat, converged: bool)
    requires EdgesIn(deps, toposort0)
    ensures RelaxState(toposort, nextval, converged) == Pass(rule, toposort0, nextval0, deps)
  {
    toposort, nextval, converged := toposort0, nextval0, true;
    for k := 0 to |deps|
      invariant RelaxState(toposort, nextval, converged) == PassPrefix(rule, RelaxState(toposort0, nextval0, true), deps, k)
    {
      var dep := deps[k];
      if dep.srcKind != ExtPrecond && dep.tgtKind != ExtPostcond {
        var src := toposort[Src(dep)];
        var tgt := toposort[Tgt(dep)];
        if (rule == AsWritten && src > tgt) || (rule == Corrected && src >= tgt) {
          toposort := toposort[Tgt(dep) := nextval];
          nextval := nextval + 1;
          converged := false;
        }
      }
    }
  }

  // ---------------------------------------------------------------------------
  // Invariants of the relaxation

  /** A pass keeps the ranks pairwise distinct and below `next`, and never lowers `next`. */
  lemma {:induction false} PassPrefixKeepsDistinct(rule: RelaxRule, s: RelaxState, deps: seq<Dependency>, k: nat)
    requires k <= |deps| && EdgesIn(deps, s.ranks)
    requires Injective(s.ranks) && Bounded(s.ranks, s.next)
    ensures Injective(PassPrefix(rule, s, deps, k).ranks)
    ensures Bounded(PassPrefix(rule, s, deps, k).ranks, PassPrefix(rule, s, deps, k).next)
    ensures PassPrefix(rule, s, deps, k).next >= s.next
  {
    if k > 0 {
      PassPrefixKeepsDistinct(rule, s, deps, k - 1);
      var prev := PassPrefix(rule, s, deps, k - 1);
      StepKeepsDistinct(rule, prev, deps[k - 1]);
      assert PassPrefix(rule, s, deps, k) == Step(rule, prev, deps[k - 1]);
    }
  }

  /** One step keeps the ranks pairwise distinct and below `next`. */
  lemma StepKeepsDistinct(rule: RelaxRule, s: RelaxState, dep: Dependency)
    requires IsRelaxEdge(dep) ==> Src(dep) in s.ranks && Tgt(dep) in s.ranks
    requires Injective(s.ranks) && Bounded(s.ranks, s.next)
    ensures Injective(Step(rule, s, dep).ranks) && Bounded(Step(rule, s, dep).ranks, Step(rule, s, dep).next)
    ensures Step(rule, s, dep).next >= s.next
  {
    if IsRelaxEdge(dep) && Violates(rule, s.ranks, dep) {
      MoveKeepsDistinct(s.ranks, Tgt(dep), s.next);
    }
  }

  /** One whole pass keeps the ranks pairwise distinct and below the counter. */
  lemma PassKeepsDistinct(rule: RelaxRule, m: map<OpKey, nat>, next: nat, deps: seq<Dependency>)
    requires EdgesIn(deps, m) && Injective(m) && Bounded(m, next)
    ensures Injective(Pass(rule, m, next, deps).ranks)
    ensures Bounded(Pass(rule, m, next, deps).ranks, Pass(rule, m, next, deps).next)
  {
    PassPrefixKeepsDistinct(rule, RelaxState(m, next, true), deps, |deps|);
  }

  /** The relaxation keeps the ranks pairwise distinct, whatever its outcome. */
  lemma {:induction false} RelaxKeepsDistinct(rule: RelaxRule, m: map<OpKey, nat>, next: nat,
                                              deps: seq<Dependency>, i: nat, limit: nat)
    requires EdgesIn(deps, m) && Injective(m) && Bounded(m, next)
    ensures Injective(RelaxFrom(rule, m, next, deps, i, limit).ranks)
    ensures Bounded(RelaxFrom(rule, m, next, deps, i, limit).ranks, RelaxFrom(rule, m, next, deps, i, limit).next)
    decreases limit - i
  {
    if i < limit {
      PassKeepsDistinct(rule, m, next, deps);
      var p := Pass(rule, m, next, deps);
      if !p.converged {
        RelaxKeepsDistinct(rule, p.ranks, p.next, deps, i + 1, limit);
      }
    }
  }

  /** A pass that ends converged changed nothing and found no violated edge. */
  lemma {:induction false} ConvergedPassUnchanged(rule: RelaxRule, s: RelaxState, deps: seq<Dependency>, k: nat)
    requires k <= |deps| && EdgesIn(deps, s.ranks) && s.converged
    requires PassPrefix(rule, s, deps, k).converged
    ensures PassPrefix(rule, s, deps, k) == s
    ensures forall j :: 0 <= j < k && IsRelaxEdge(deps[j]) ==> !Violates(rule, s.ranks, deps[j])
  {
    if k > 0 {
      ConvergedPassUnchanged(rule, s, deps, k - 1);
    }
  }

  /** Every considered edge runs from a lower rank to a higher one. */
  ghost predicate Ordered(rule: RelaxRule, m: map<OpKey, nat>, deps: seq<Dependency>)
    requires EdgesIn(deps, m)
  {
    forall j :: 0 <= j < |deps| && Considered(rule, deps[j]) ==> m[Src(deps[j])] < m[Tgt(deps[j])]
  }

  /** On convergence every considered edge goes from a lower rank to a higher one. */
  lemma {:induction false} ConvergedIsOrdered(rule: RelaxRule, m: map<OpKey, nat>, next: nat,
                                              deps: seq<Dependency>, i: nat, limit: nat)
    requires EdgesIn(deps, m) && Injective(m) && Bounded(m, next)
    requires RelaxFrom(rule, m, next, deps, i, limit).converged
    ensures Ordered(rule, RelaxFrom(rule, m, next, deps, i, limit).ranks, deps)
    decreases limit - i
  {
    var p := RelaxFromUnfold(rule, m, next, deps, i, limit);
    if p.converged {
      ConvergedPassOrdered(rule, m, next, deps);
    } else {
      PassKeepsDistinct(rule, m, next, deps);
      ConvergedIsOrdered(rule, p.ranks, p.next, deps, i + 1, limit);
    }
  }

  /** The relaxation from pass `i`, when it runs: the pass `p`, then either its result
      or the relaxation from pass `i + 1`. */
  lemma RelaxFromUnfold(rule: RelaxRule, m: map<OpKey, nat>, next: nat, deps: seq<Dependency>, i: nat, limit: nat)
    returns (p: RelaxState)
    requires EdgesIn(deps, m) && RelaxFrom(rule, m, next, deps, i, limit).converged
    ensures i < limit && p == Pass(rule, m, next, deps) && EdgesIn(deps, p.ranks)
    ensures p.converged ==> RelaxFrom(rule, m, next, deps, i, limit) == p
    ensures !p.converged ==> RelaxFrom(rule, m, next, deps, i, limit) ==
                             RelaxFrom(rule, p.ranks, p.next, deps, i + 1, limit)
  {
    p := Pass(rule, m, next, deps);
  }

  /** A pass that ends converged leaves the ranks as they were, and they order every
      considered edge. */
  lemma ConvergedPassOrdered(rule: RelaxRule, m: map<OpKey, nat>, next: nat, deps: seq<Dependency>)
    requires EdgesIn(deps, m) && Injective(m) && Pass(rule, m, next, deps).converged
    ensures Pass(rule, m, next, deps) == RelaxState(m, next, true)
    ensures Ordered(rule, m, deps)
  {
    ConvergedPassUnchanged(rule, RelaxState(m, next, true), deps, |deps|);
  }

  // ---------------------------------------------------------------------------
  // Cycles

  /** A cycle: a nonempty list of considered edges, each ending where the next one
      starts, the last ending where the first starts. */
  ghost predicate IsCycle(rule: RelaxRule, deps: seq<Dependency>, path: seq<nat>)
  {
    && |path| >= 1
    && (forall i :: 0 <= i < |path| ==> path[i] < |deps| && Considered(rule, deps[path[i]]))
    && (forall i :: 0 <= i < |path| - 1 ==> Tgt(deps[path[i]]) == Src(deps[path[i + 1]]))
    && Tgt(deps[path[|path| - 1]]) == Src(deps[path[0]])
  }

  ghost predicate Acyclic(rule: RelaxRule, deps: seq<Dependency>)
  {
    forall path :: !IsCycle(rule, deps, path)
  }

  /** Ranks that increase along every considered edge leave no room for a cycle. */
  lemma {:induction false} OrderedIsAcyclic(rule: RelaxRule, m: map<OpKey, nat>, deps: seq<Dependency>)
    requires EdgesIn(deps, m) && Ordered(rule, m, deps)
    ensures Acyclic(rule, deps)
  {
    forall path | IsCycle(rule, deps, path) ensures false {
      var first := m[Src(deps[path[0]])];
      var i := 0;
      while i < |path| - 1
        invariant 0 <= i < |path|
        invariant first < m[Tgt(deps[path[i]])]
      {
        i := i + 1;
      }
    }
  }

  /** Edge `j` is considered and leaves `u` for a member of `nodes`. */
  ghost predicate EdgeWithin(rule: RelaxRule, deps: seq<Dependency>, nodes: set<OpKey>, u: OpKey, j: int)
  {
    0 <= j < |deps| && Considered(rule, deps[j]) && Src(deps[j]) == u && Tgt(deps[j]) in nodes
  }

  ghost predicate HasEdgeWithin(rule: RelaxRule, deps: seq<Dependency>, nodes: set<OpKey>, u: OpKey)
  {
    exists j :: EdgeWithin(rule, deps, nodes, u, j)
  }

  /** Every member of `nodes` has a considered edge to a member. */
  ghost predicate NoSinkIn(rule: RelaxRule, deps: seq<Dependency>, nodes: set<OpKey>)
  {
    forall u :: u in nodes ==> HasEdgeWithin(rule, deps, nodes, u)
  }

  /** Edges `w` form a walk: each one is considered and starts where the previous ends. */
  ghost predicate IsWalk(rule: RelaxRule, deps: seq<Dependency>, w: seq<nat>)
  {
    && (forall i :: 0 <= i < |w| ==> w[i] < |deps| && Considered(rule, deps[w[i]]))
    && (forall i :: 0 <= i < |w| - 1 ==> Tgt(deps[w[i]]) == Src(deps[w[i + 1]]))
  }

  lemma PrependWalk(rule: RelaxRule, deps: seq<Dependency>, nodes: set<OpKey>, j: nat, rest: seq<nat>)
    requires j < |deps| && Considered(rule, deps[j]) && Tgt(deps[j]) in nodes
    requires IsWalk(rule, deps, rest) && forall i :: 0 <= i < |rest| ==> Tgt(deps[rest[i]]) in nodes
    requires |rest| > 0 ==> Src(deps[rest[0]]) == Tgt(deps[j])
    ensures IsWalk(rule, deps, [j] + rest)
    ensures forall i :: 0 <= i < |rest| + 1 ==> Tgt(deps[([j] + rest)[i]]) in nodes
  {
    var w := [j] + rest;
    assert forall i :: 1 <= i < |w| ==> w[i] == rest[i - 1];
  }

  /** A walk of `n` edges from `v` inside `nodes`, when every member of `nodes` has an
      edge to another member. */
  ghost function WalkFrom(rule: RelaxRule, deps: seq<Dependency>, nodes: set<OpKey>, v: OpKey, n: nat): (w: seq<nat>)
    requires v in nodes && NoSinkIn(rule, deps, nodes)
    ensures |w| == n && IsWalk(rule, deps, w)
    ensures forall i :: 0 <= i < n ==> Tgt(deps[w[i]]) in nodes
    ensures n > 0 ==> Src(deps[w[0]]) == v
    decreases n
  {
    if n == 0 then []
    else
      assert HasEdgeWithin(rule, deps, nodes, v);
      var j :| EdgeWithin(rule, deps, nodes, v, j);
      var rest := WalkFrom(rule, deps, nodes, Tgt(deps[j]), n - 1);
      PrependWalk(rule, deps, nodes, j, rest);
      [j] + rest
  }

  /** A walk inside `nodes` with more edges than `nodes` has members revisits a
      member, and the edges between the two visits form a cycle. */
  lemma CycleInLongWalk(rule: RelaxRule, deps: seq<Dependency>, nodes: set<OpKey>, u0: OpKey, w: seq<nat>)
    returns (path: seq<nat>)
    requires u0 in nodes && |w| == |nodes| + 1 && IsWalk(rule, deps, w)
    requires forall i :: 0 <= i < |w| ==> Tgt(deps[w[i]]) in nodes
    requires Src(deps[w[0]]) == u0
    ensures IsCycle(rule, deps, path)
  {
    // the operations visited: the start, then the end of each edge
    var vs := seq(|w| + 1, i requires 0 <= i <= |w| => if i == 0 then u0 else Tgt(deps[w[i - 1]]));
    Pigeonhole(vs, nodes);
    var a, b :| 0 <= a < b < |vs| && vs[a] == vs[b];
    assert vs[b] == Tgt(deps[w[b - 1]]);
    WalkStartsAtVisited(rule, deps, w, u0, a);
    path := ClosedSliceIsCycle(rule, deps, w, a, b);
  }

  /** The `a`-th edge of a walk from `u0` starts at the `a`-th operation visited. */
  lemma WalkStartsAtVisited(rule: RelaxRule, deps: seq<Dependency>, w: seq<nat>, u0: OpKey, a: nat)
    requires a < |w| && IsWalk(rule, deps, w) && Src(deps[w[0]]) == u0
    ensures Src(deps[w[a]]) == if a == 0 then u0 else Tgt(deps[w[a - 1]])
  {
  }

  /** A stretch of a walk that ends where it starts is a cycle. */
  lemma ClosedSliceIsCycle(rule: RelaxRule, deps: seq<Dependency>, w: seq<nat>, a: nat, b: nat) returns (path: seq<nat>)
    requires a < b <= |w| && IsWalk(rule, deps, w)
    requires Tgt(deps[w[b - 1]]) == Src(deps[w[a]])
    ensures IsCycle(rule, deps, path)
  {
    path := w[a..b];
    assert forall i :: 0 <= i < |path| ==> path[i] == w[a + i];
  }

  /** Without a cycle, every nonempty set of operations holds one with no considered
      edge to another member. */
  lemma {:induction false} FindSink(rule: RelaxRule, deps: seq<Dependency>, nodes: set<OpKey>) returns (v: OpKey)
    requires nodes != {} && Acyclic(rule, deps)
    ensures v in nodes && !HasEdgeWithin(rule, deps, nodes, v)
  {
    if NoSinkIn(rule, deps, nodes) {
      var u0 :| u0 in nodes;
      var w := WalkFrom(rule, deps, nodes, u0, |nodes| + 1);
      var path := CycleInLongWalk(rule, deps, nodes, u0, w);
      assert false;
    } else {
      v :| v in nodes && !HasEdgeWithin(rule, deps, nodes, v);
    }
  }

  /** Without a cycle, the operations can be numbered 0 .. |nodes|-1 so that every
      considered edge inside `nodes` goes from a lower number to a higher one. */
  lemma {:induction false} TopologicalNumbering(rule: RelaxRule, deps: seq<Dependency>, nodes: set<OpKey>)
    returns (lev: map<OpKey, nat>)
    requires Acyclic(rule, deps)
    ensures lev.Keys == nodes
    ensures forall k :: k in nodes ==> lev[k] < |nodes|
    ensures forall j :: 0 <= j < |deps| && Considered(rule, deps[j]) && Src(deps[j]) in nodes && Tgt(deps[j]) in nodes ==>
              lev[Src(deps[j])] < lev[Tgt(deps[j])]
    decreases nodes
  {
    if nodes == {} {
      lev := map[];
    } else {
      var v := FindSink(rule, deps, nodes);
      forall j | 0 <= j < |deps| && Considered(rule, deps[j]) && Src(deps[j]) == v
        ensures Tgt(deps[j]) !in nodes
      {
        assert !EdgeWithin(rule, deps, nodes, v, j);
      }
      var rest := TopologicalNumbering(rule, deps, nodes - {v});
      lev := rest[v := |nodes| - 1];
    }
  }

  // ---------------------------------------------------------------------------
  // Convergence without a cycle

  /** Edges whose target is numbered at most `p` already run upwards. */
  ghost predicate SettledBelow(rule: RelaxRule, m: map<OpKey, nat>, deps: seq<Dependency>, lev: map<OpKey, nat>, p: nat, k: nat)
    requires k <= |deps| && EdgesIn(deps, m) && m.Keys == lev.Keys
  {
    forall j :: 0 <= j < k && Considered(rule, deps[j]) && lev[Tgt(deps[j])] <= p ==>
      m[Src(deps[j])] < m[Tgt(deps[j])]
  }

  ghost predicate IsNumbering(rule: RelaxRule, deps: seq<Dependency>, lev: map<OpKey, nat>)
    requires EdgesIn(deps, lev)
  {
    forall j :: 0 <= j < |deps| && Considered(rule, deps[j]) ==> lev[Src(deps[j])] < lev[Tgt(deps[j])]
  }

  /** Operations numbered at most `p` have the same rank in both maps. */
  ghost predicate LowSame(lev: map<OpKey, nat>, p: nat, a: map<OpKey, nat>, b: map<OpKey, nat>)
    requires a.Keys == lev.Keys && b.Keys == lev.Keys
  {
    forall key :: key in lev && lev[key] <= p ==> a[key] == b[key]
  }

  ghost predicate HasAbove(lev: map<OpKey, nat>, p: nat)
  {
    exists key :: key in lev && lev[key] > p
  }

  /** What holds after the first `k` edges of pass `p` started in `s`: ranks still
      distinct and below `next`, operations numbered at most `p` not moved, edges into
      operations numbered at most `p + 1` ordered, and a change only if some operation
      is numbered above `p`. */
  ghost predicate PassInv(rule: RelaxRule, s: RelaxState, cur: RelaxState, deps: seq<Dependency>,
                          lev: map<OpKey, nat>, p: nat, k: nat)
    requires k <= |deps| && EdgesIn(deps, lev) && s.ranks.Keys == lev.Keys
  {
    && cur.ranks.Keys == lev.Keys
    && Injective(cur.ranks) && Bounded(cur.ranks, cur.next)
    && LowSame(lev, p, cur.ranks, s.ranks)
    && SettledBelow(rule, cur.ranks, deps, lev, p + 1, k)
    && (cur.converged || HasAbove(lev, p))
  }

  /** One edge of pass `p` keeps PassInv. */
  lemma StepSettles(rule: RelaxRule, s: RelaxState, prev: RelaxState, deps: seq<Dependency>,
                    lev: map<OpKey, nat>, p: nat, k: nat)
    requires 0 < k <= |deps| && EdgesIn(deps, lev) && s.ranks.Keys == lev.Keys
    requires IsNumbering(rule, deps, lev)
    requires SettledBelow(rule, s.ranks, deps, lev, p, |deps|)
    requires PassInv(rule, s, prev, deps, lev, p, k - 1)
    ensures PassInv(rule, s, Step(rule, prev, deps[k - 1]), deps, lev, p, k)
  {
    var dep := deps[k - 1];
    if IsRelaxEdge(dep) && Violates(rule, prev.ranks, dep) {
      StepMoves(rule, s, prev, deps, lev, p, k);
    } else {
      UnmovedStaysSettled(rule, prev, deps, lev, p, k);
      assert Step(rule, prev, dep) == prev;
    }
  }

  lemma StepMoves(rule: RelaxRule, s: RelaxState, prev: RelaxState, deps: seq<Dependency>,
                  lev: map<OpKey, nat>, p: nat, k: nat)
    requires 0 < k <= |deps| && EdgesIn(deps, lev) && s.ranks.Keys == lev.Keys
    requires IsNumbering(rule, deps, lev)
    requires SettledBelow(rule, s.ranks, deps, lev, p, |deps|)
    requires PassInv(rule, s, prev, deps, lev, p, k - 1)
    requires IsRelaxEdge(deps[k - 1]) && Violates(rule, prev.ranks, deps[k - 1])
    ensures PassInv(rule, s, Step(rule, prev, deps[k - 1]), deps, lev, p, k)
  {
    MovedTargetIsHigh(rule, s, prev, deps, lev, p, k - 1);
    MovedKeepsInv(rule, s, prev, deps, lev, p, k);
  }

  /** Moving the target of edge `k - 1`, numbered above `p`, to the fresh rank keeps PassInv. */
  lemma MovedKeepsInv(rule: RelaxRule, s: RelaxState, prev: RelaxState, deps: seq<Dependency>,
                      lev: map<OpKey, nat>, p: nat, k: nat)
    requires 0 < k <= |deps| && EdgesIn(deps, lev) && s.ranks.Keys == lev.Keys
    requires IsNumbering(rule, deps, lev)
    requires PassInv(rule, s, prev, deps, lev, p, k - 1)
    requires Considered(rule, deps[k - 1]) && lev[Tgt(deps[k - 1])] > p
    ensures PassInv(rule, s, RelaxState(prev.ranks[Tgt(deps[k - 1]) := prev.next], prev.next + 1, false),
                    deps, lev, p, k)
  {
    var dep := deps[k - 1];
    MovedTargetSettles(rule, prev, deps, lev, p, k);
    MoveKeepsDistinct(prev.ranks, Tgt(dep), prev.next);
    MoveKeepsLow(lev, p, prev.ranks, s.ranks, Tgt(dep), prev.next);
    assert HasAbove(lev, p) by { assert Tgt(dep) in lev && lev[Tgt(dep)] > p; }
  }

  /** Moving an operation numbered above `p` keeps the ranks of those numbered at most `p`. */
  lemma MoveKeepsLow(lev: map<OpKey, nat>, p: nat, a: map<OpKey, nat>, b: map<OpKey, nat>, key: OpKey, v: nat)
    requires a.Keys == lev.Keys && b.Keys == lev.Keys && key in lev && lev[key] > p
    requires LowSame(lev, p, a, b)
    ensures LowSame(lev, p, a[key := v], b)
  {
  }

  /** Giving one operation the fresh rank `next` keeps the ranks distinct. */
  lemma MoveKeepsDistinct(m: map<OpKey, nat>, key: OpKey, next: nat)
    requires Injective(m) && Bounded(m, next) && key in m
    ensures Injective(m[key := next]) && Bounded(m[key := next], next + 1)
  {
    forall a | a in m && a != key ensures m[key := next][a] < next {
      assert m[a] < next;
    }
  }

  /** An edge that is not violated is ordered once its ends are distinct operations. */
  lemma UnmovedStaysSettled(rule: RelaxRule, prev: RelaxState, deps: seq<Dependency>,
                            lev: map<OpKey, nat>, p: nat, k: nat)
    requires 0 < k <= |deps| && EdgesIn(deps, prev.ranks) && prev.ranks.Keys == lev.Keys
    requires Injective(prev.ranks) && IsNumbering(rule, deps, lev)
    requires !(IsRelaxEdge(deps[k - 1]) && Violates(rule, prev.ranks, deps[k - 1]))
    requires SettledBelow(rule, prev.ranks, deps, lev, p + 1, k - 1)
    ensures SettledBelow(rule, prev.ranks, deps, lev, p + 1, k)
  {
    var dep := deps[k - 1];
    if Considered(rule, dep) {
      assert lev[Src(dep)] < lev[Tgt(dep)];
      assert Src(dep) != Tgt(dep);
    }
  }

  /** Moving a target numbered above `p` behind everything keeps edges into operations
      numbered at most `p + 1` ordered, and orders the edge that moved it. */
  lemma MovedTargetSettles(rule: RelaxRule, prev: RelaxState, deps: seq<Dependency>,
                           lev: map<OpKey, nat>, p: nat, k: nat)
    requires 0 < k <= |deps| && EdgesIn(deps, prev.ranks) && prev.ranks.Keys == lev.Keys
    requires Bounded(prev.ranks, prev.next)
    requires IsNumbering(rule, deps, lev)
    requires Considered(rule, deps[k - 1]) && lev[Tgt(deps[k - 1])] > p
    requires SettledBelow(rule, prev.ranks, deps, lev, p + 1, k - 1)
    ensures SettledBelow(rule, prev.ranks[Tgt(deps[k - 1]) := prev.next], deps, lev, p + 1, k)
  {
    var dep := deps[k - 1];
    var next := prev.ranks[Tgt(dep) := prev.next];
    assert lev[Src(dep)] < lev[Tgt(dep)];
    forall j | 0 <= j < k && Considered(rule, deps[j]) && lev[Tgt(deps[j])] <= p + 1
      ensures next[Src(deps[j])] < next[Tgt(deps[j])]
    {
      assert lev[Src(deps[j])] < lev[Tgt(deps[j])];
      assert Src(deps[j]) != Tgt(dep);
    }
  }

  /** A target that pass `p` moves is numbered above `p`. */
  lemma MovedTargetIsHigh(rule: RelaxRule, s: RelaxState, prev: RelaxState, deps: seq<Dependency>,
                          lev: map<OpKey, nat>, p: nat, j: nat)
    requires j < |deps| && EdgesIn(deps, s.ranks) && s.ranks.Keys == lev.Keys && prev.ranks.Keys == lev.Keys
    requires IsNumbering(rule, deps, lev)
    requires SettledBelow(rule, s.ranks, deps, lev, p, |deps|)
    requires LowSame(lev, p, prev.ranks, s.ranks)
    requires IsRelaxEdge(deps[j]) && Violates(rule, prev.ranks, deps[j])
    ensures Considered(rule, deps[j]) && lev[Tgt(deps[j])] > p
  {
    var dep := deps[j];
    assert Considered(rule, dep);
    if lev[Tgt(dep)] <= p {
      assert false;
    }
  }

  /** PassInv holds before the first edge of a pass. */
  lemma PassInvAtStart(rule: RelaxRule, s: RelaxState, deps: seq<Dependency>, lev: map<OpKey, nat>, p: nat)
    requires EdgesIn(deps, lev) && s.ranks.Keys == lev.Keys && s.converged
    requires Injective(s.ranks) && Bounded(s.ranks, s.next)
    ensures EdgesIn(deps, s.ranks)
    ensures PassInv(rule, s, PassPrefix(rule, s, deps, 0), deps, lev, p, 0)
  {
    assert PassPrefix(rule, s, deps, 0) == s;
  }

  /** PassInv carries over from the first `k - 1` edges of a pass to the first `k`. */
  lemma PrefixStepSettles(rule: RelaxRule, s: RelaxState, deps: seq<Dependency>,
                          lev: map<OpKey, nat>, p: nat, k: nat)
    requires 0 < k <= |deps| && EdgesIn(deps, lev) && s.ranks.Keys == lev.Keys && EdgesIn(deps, s.ranks)
    requires IsNumbering(rule, deps, lev)
    requires SettledBelow(rule, s.ranks, deps, lev, p, |deps|)
    requires PassInv(rule, s, PassPrefix(rule, s, deps, k - 1), deps, lev, p, k - 1)
    ensures PassInv(rule, s, PassPrefix(rule, s, deps, k), deps, lev, p, k)
  {
    var prev := PassPrefix(rule, s, deps, k - 1);
    StepSettles(rule, s, prev, deps, lev, p, k);
    assert PassPrefix(rule, s, deps, k) == Step(rule, prev, deps[k - 1]);
  }

  /** Pass `p`, when every edge into an operation numbered at most `p` is ordered at
      its start, keeps PassInv edge by edge. */
  lemma {:induction false} PassSettlesNextLevel(rule: RelaxRule, s: RelaxState, deps: seq<Dependency>,
                                                lev: map<OpKey, nat>, p: nat, k: nat)
    requires k <= |deps| && EdgesIn(deps, lev) && s.ranks.Keys == lev.Keys && s.converged
    requires Injective(s.ranks) && Bounded(s.ranks, s.next)
    requires IsNumbering(rule, deps, lev)
    requires SettledBelow(rule, s.ranks, deps, lev, p, |deps|)
    ensures EdgesIn(deps, s.ranks)
    ensures PassInv(rule, s, PassPrefix(rule, s, deps, k), deps, lev, p, k)
  {
    if k == 0 {
      PassInvAtStart(rule, s, deps, lev, p);
    } else {
      PassSettlesNextLevel(rule, s, deps, lev, p, k - 1);
      PrefixStepSettles(rule, s, deps, lev, p, k);
    }
  }

  /** Given a numbering below `limit`, the loop converges by pass `limit - 1`. */
  lemma {:induction false} NumberedConverges(rule: RelaxRule, m: map<OpKey, nat>, next: nat, deps: seq<Dependency>,
                                             lev: map<OpKey, nat>, i: nat, limit: nat)
    requires EdgesIn(deps, lev) && m.Keys == lev.Keys
    requires Injective(m) && Bounded(m, next)
    requires IsNumbering(rule, deps, lev)
    requires i < limit && forall key :: key in lev ==> lev[key] < limit
    requires SettledBelow(rule, m, deps, lev, i, |deps|)
    ensures EdgesIn(deps, m)
    ensures RelaxFrom(rule, m, next, deps, i, limit).converged
    decreases limit - i
  {
    var s := RelaxState(m, next, true);
    PassSettlesNextLevel(rule, s, deps, lev, i, |deps|);
    var p := Pass(rule, m, next, deps);
    if !p.converged {
      // some operation is numbered above i, so pass i + 1 still runs
      var key :| key in lev && lev[key] > i;
      NumberedConverges(rule, p.ranks, p.next, deps, lev, i + 1, limit);
    }
  }

  /** The relaxation converges exactly when there is no cycle and at least one pass runs. */
  lemma RelaxConvergesIffAcyclic(rule: RelaxRule, m: map<OpKey, nat>, next: nat, deps: seq<Dependency>, limit: nat)
    requires EdgesIn(deps, m) && Injective(m) && Bounded(m, next)
    requires limit >= |m.Keys|
    ensures RelaxFrom(rule, m, next, deps, 0, limit).converged <==> Acyclic(rule, deps) && limit >= 1
  {
    var r := RelaxFrom(rule, m, next, deps, 0, limit);
    if r.converged {
      ConvergedIsOrdered(rule, m, next, deps, 0, limit);
      OrderedIsAcyclic(rule, r.ranks, deps);
    }
    if Acyclic(rule, deps) && limit >= 1 {
      var lev := TopologicalNumbering(rule, deps, m.Keys);
      NumberedConverges(rule, m, next, deps, lev, 0, limit);
    }
  }

  // ---------------------------------------------------------------------------
  // The ordering of a whole definition

  /** Every edge the relaxation reads names a seeded operation. */
  lemma SeedCoversEdges(d: Definition)
    requires WellFormed(d)
    ensures Distinct(AllOps(d))
    ensures forall k :: k in SeedRanks(AllOps(d)) <==> IsOp(d, k)
    ensures EdgesIn(d.dependencies, SeedRanks(AllOps(d)))
  {
    AllOpsListsOps(d);
    var ks := AllOps(d);
    forall k | IsOp(d, k) ensures k in SeedRanks(ks) {
      var i :| 0 <= i < |ks| && ks[i] == k;
    }
  }

  /** The relaxation compile runs over a definition under `rule`: seeded ranks, then at
      most PassLimit passes. */
  ghost function Ordering(rule: RelaxRule, d: Definition): (r: RelaxState)
    requires WellFormed(d)
    ensures forall k :: k in r.ranks <==> IsOp(d, k)
  {
    SeedCoversEdges(d);
    var ks := AllOps(d);
    RelaxFrom(rule, SeedRanks(ks), |ks|, d.dependencies, 0, PassLimit(rule, |ks|))
  }

  /** Compile's ordering succeeds exactly when the dependencies have no cycle and at
      least one pass runs; then every considered edge goes from a lower rank to a higher
      one and the ranks are pairwise distinct. */
  lemma OrderingConvergesIffAcyclic(rule: RelaxRule, d: Definition)
    requires WellFormed(d)
    ensures Ordering(rule, d).converged <==> Acyclic(rule, d.dependencies) && PassLimit(rule, |AllOps(d)|) >= 1
    ensures EdgesIn(d.dependencies, Ordering(rule, d).ranks)
    ensures Ordering(rule, d).converged ==> Ordered(rule, Ordering(rule, d).ranks, d.dependencies)
    ensures Injective(Ordering(rule, d).ranks)
  {
    SeedReady(d);
    var ks := AllOps(d);
    var m, limit := SeedRanks(ks), PassLimit(rule, |ks|);
    assert Ordering(rule, d) == RelaxFrom(rule, m, |ks|, d.dependencies, 0, limit);
    RelaxConvergesIffAcyclic(rule, m, |ks|, d.dependencies, limit);
    RelaxKeepsDistinct(rule, m, |ks|, d.dependencies, 0, limit);
    if Ordering(rule, d).converged {
      ConvergedIsOrdered(rule, m, |ks|, d.dependencies, 0, limit);
    }
  }

  /** The seeded ranks meet what the relaxation lemmas ask of their start. */
  lemma SeedReady(d: Definition)
    requires WellFormed(d)
    ensures Distinct(AllOps(d))
    ensures EdgesIn(d.dependencies, SeedRanks(AllOps(d)))
    ensures Injective(SeedRanks(AllOps(d))) && Bounded(SeedRanks(AllOps(d)), |AllOps(d)|)
    ensures |SeedRanks(AllOps(d)).Keys| == |AllOps(d)|
  {
    SeedCoversEdges(d);
    DistinctCard(AllOps(d));
  }

  // ---------------------------------------------------------------------------
  // The two ways the as-written relaxation goes wrong

  /** A definition with no operations at all. */
  const EmptyDefinition := Definition([], 0, [], 0, 0, 0, [], [])

  /** As written, the pass loop of an empty definition never runs, so `converged`
      stays false and compile reports a cycle; the corrected loop runs one pass and
      succeeds. */
  lemma EmptyDefinitionRejected()
    ensures WellFormed(EmptyDefinition)
    ensures !Ordering(AsWritten, EmptyDefinition).converged
    ensures Ordering(Corrected, EmptyDefinition).converged
  {
    OrderingConvergesIffAcyclic(AsWritten, EmptyDefinition);
    OrderingConvergesIffAcyclic(Corrected, EmptyDefinition);
    forall path ensures !IsCycle(Corrected, [], path) {}
  }

  /** One task that depends on itself. */
  const SelfDependent := Definition([TaskDesc(0, [])], 0, [], 0, 0, 0,
                                    [Dependency(Task, 0, 0, Task, 0, 0)], [])

  /** As written, `rank > rank` never holds, so a task that depends on itself passes the
      cycle check (and its replay later waits on its own completion); under `>=` the
      self-dependency is a cycle and compile fails. */
  lemma SelfDependencyAccepted()
    ensures WellFormed(SelfDependent)
    ensures Ordering(AsWritten, SelfDependent).converged
    ensures !Ordering(Corrected, SelfDependent).converged
  {
    var d := SelfDependent;
    assert DependencyOk(d, d.dependencies[0]);
    assert |AllOps(d)| == 1;
    SelfLoopsOnly(d, 0);
  }

  /** A definition with at least one operation whose dependencies all lead from an
      operation to itself, one of them between declared operations, converges as
      written and fails under the corrected rule. */
  lemma SelfLoopsOnly(d: Definition, j: nat)
    requires WellFormed(d) && |AllOps(d)| >= 1
    requires forall i :: 0 <= i < |d.dependencies| ==> Src(d.dependencies[i]) == Tgt(d.dependencies[i])
    requires j < |d.dependencies| && IsRelaxEdge(d.dependencies[j])
    ensures Ordering(AsWritten, d).converged
    ensures !Ordering(Corrected, d).converged
  {
    OrderingConvergesIffAcyclic(AsWritten, d);
    OrderingConvergesIffAcyclic(Corrected, d);
    SelfLoopsInvisibleAsWritten(d.dependencies);
    SelfLoopIsCycle(d.dependencies, j);
  }

  /** Under the as-written rule, edges from an operation to itself never form a cycle. */
  lemma SelfLoopsInvisibleAsWritten(deps: seq<Dependency>)
    requires forall j :: 0 <= j < |deps| ==> Src(deps[j]) == Tgt(deps[j])
    ensures Acyclic(AsWritten, deps)
  {
  }

  /** Under the corrected rule, an edge from an operation to itself is a cycle. */
  lemma SelfLoopIsCycle(deps: seq<Dependency>, j: nat)
    requires j < |deps| && IsRelaxEdge(deps[j]) && Src(deps[j]) == Tgt(deps[j])
    ensures !Acyclic(Corrected, deps)
  {
    assert IsCycle(Corrected, deps, [j]);
  }

  // ---------------------------------------------------------------------------
  // Where the two rules agree

  /** No edge the relaxation reads leads from an operation to itself. */
  ghost predicate NoSelfLoops(deps: seq<Dependency>)
  {
    forall j :: 0 <= j < |deps| && IsRelaxEdge(deps[j]) ==> Src(deps[j]) != Tgt(deps[j])
  }

  /** On pairwise distinct ranks `>` and `>=` only differ on an edge from an operation
      to itself, so one step is the same under both rules. */
  lemma StepRulesAgree(s: RelaxState, dep: Dependency)
    requires IsRelaxEdge(dep) ==> Src(dep) in s.ranks && Tgt(dep) in s.ranks && Src(dep) != Tgt(dep)
    requires Injective(s.ranks)
    ensures Step(AsWritten, s, dep) == Step(Corrected, s, dep)
  {
  }

  lemma {:induction false} PassPrefixRulesAgree(s: RelaxState, deps: seq<Dependency>, k: nat)
    requires k <= |deps| && EdgesIn(deps, s.ranks) && NoSelfLoops(deps)
    requires Injective(s.ranks) && Bounded(s.ranks, s.next)
    ensures PassPrefix(AsWritten, s, deps, k) == PassPrefix(Corrected, s, deps, k)
  {
    if k > 0 {
      PassPrefixRulesAgree(s, deps, k - 1);
      PassPrefixKeepsDistinct(Corrected, s, deps, k - 1);
      StepRulesAgree(PassPrefix(Corrected, s, deps, k - 1), deps[k - 1]);
    }
  }

  lemma {:induction false} RelaxFromRulesAgree(m: map<OpKey, nat>, next: nat, deps: seq<Dependency>, i: nat, limit: nat)
    requires EdgesIn(deps, m) && NoSelfLoops(deps) && Injective(m) && Bounded(m, next)
    ensures RelaxFrom(AsWritten, m, next, deps, i, limit) == RelaxFrom(Corrected, m, next, deps, i, limit)
    decreases limit - i
  {
    if i < limit {
      PassPrefixRulesAgree(RelaxState(m, next, true), deps, |deps|);
      PassKeepsDistinct(Corrected, m, next, deps);
      var p := Pass(Corrected, m, next, deps);
      RelaxFromRulesAgree(p.ranks, p.next, deps, i + 1, limit);
    }
  }

  /** The two rules relax a definition without self-dependencies to the same ranks,
      and they differ in outcome only on a definition with no operations, which the
      as-written loop never relaxes. */
  lemma RulesAgreeWithoutSelfLoops(d: Definition)
    requires WellFormed(d) && NoSelfLoops(d.dependencies)
    ensures Ordering(AsWritten, d).ranks == Ordering(Corrected, d).ranks
    ensures Ordering(AsWritten, d).converged <==> Ordering(Corrected, d).converged && |AllOps(d)| > 0
  {
    SeedReady(d);
    var ks := AllOps(d);
    var m := SeedRanks(ks);
    assert Ordering(AsWritten, d) == RelaxFrom(AsWritten, m, |ks|, d.dependencies, 0, PassLimit(AsWritten, |ks|));
    assert Ordering(Corrected, d) == RelaxFrom(Corrected, m, |ks|, d.dependencies, 0, PassLimit(Corrected, |ks|));
    if |ks| > 0 {
      RelaxFromRulesAgree(m, |ks|, d.dependencies, 0, |ks|);
    } else {
      var r := Ordering(Corrected, d).ranks;
      assert r.Keys == m.Keys == {};
      assert r == m;
    }
  }

  /** Whenever the corrected relaxation converges, the as-written one ends with the
      same ranks, and converges too unless there are no operations: a converging
      corrected relaxation has no self-dependency. */
  lemma CorrectedRanksAsWritten(d: Definition)
    requires WellFormed(d) && Ordering(Corrected, d).converged
    ensures Ordering(AsWritten, d).ranks == Ordering(Corrected, d).ranks
    ensures Ordering(AsWritten, d).converged <==> |AllOps(d)| > 0
  {
    OrderingConvergesIffAcyclic(Corrected, d);
    forall j | 0 <= j < |d.dependencies| && IsRelaxEdge(d.dependencies[j])
      ensures Src(d.dependencies[j]) != Tgt(d.dependencies[j])
    {
      if Src(d.dependencies[j]) == Tgt(d.dependencies[j]) {
        SelfLoopIsCycle(d.dependencies, j);
      }
    }
    RulesAgreeWithoutSelfLoops(d);
  }
}
