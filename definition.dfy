/** The immutable subgraph definition that compile consumes: operations addressed by
    (kind, index), dependency edges between ports, and interpolation rules that patch
    argument bytes at instantiation time. */
module SubgraphDefs {

  newtype byte = b: int | 0 <= b < 256

  /** Operation kinds, including the two synthetic kinds that anchor edges to events
      supplied by the caller of instantiate. */
  datatype OpKind = Task | Copy | Arrival | Instantiation | Acquire | Release | ExtPrecond | ExtPostcond

  /** The numeric value of each kind, in the declaration order of the OpKind enum
      (OPKIND_INVALID is 0). Compile compares these numbers with `target_kind >> 8`. */
  function KindCode(k: OpKind): (c: nat)
    ensures 1 <= c <= 8
  {
    match k
    case Task => 1
    case Copy => 2
    case Arrival => 3
    case Instantiation => 4
    case Acquire => 5
    case Release => 6
    case ExtPrecond => 7
    case ExtPostcond => 8
  }

  /** The stable key compile uses for an operation: (op_kind, op_index). */
  datatype OpKey = OpKey(kind: OpKind, index: nat)

  type ProcId = nat
  type RedopId = nat

  datatype TaskDesc = TaskDesc(proc: ProcId, args: seq<byte>)
  datatype ArrivalDesc = ArrivalDesc(reduceValue: seq<byte>)

  /** An edge from port `srcPort` of one operation to port `tgtPort` of another. */
  datatype Dependency = Dependency(srcKind: OpKind, srcIndex: nat, srcPort: nat,
                                   tgtKind: OpKind, tgtIndex: nat, tgtPort: nat)

  function Src(d: Dependency): OpKey { OpKey(d.srcKind, d.srcIndex) }
  function Tgt(d: Dependency): OpKey { OpKey(d.tgtKind, d.tgtIndex) }

  /** Copy `bytes` bytes from `offset` in the instantiation arguments to `targetOffset`
      of the field named by `targetKind` in operation `targetIndex`, or reduce them
      into it when `redopId` is nonzero. */
  datatype Interpolation = Interpolation(offset: nat, bytes: nat, targetKind: nat,
                                         targetIndex: nat, targetOffset: nat, redopId: RedopId)

  /** `target_kind >> 8`: the operation kind a rule's target field belongs to. */
  function TargetOpKind(it: Interpolation): nat { it.targetKind / 256 }

  /** Interpolation target fields: (operation kind code << 8) + field number. */
  const TargetTaskArgs: nat := KindCode(Task) * 256 + 1
  const TargetArrivalBarrier: nat := KindCode(Arrival) * 256 + 1
  const TargetArrivalValue: nat := KindCode(Arrival) * 256 + 2
  const TargetInstanceArgs: nat := KindCode(Instantiation) * 256 + 1

  /** Copies, instantiations, acquires and releases are kept only as counts: compile
      reads nothing else of them. */
  datatype Definition = Definition(
    tasks: seq<TaskDesc>,
    numCopies: nat,
    arrivals: seq<ArrivalDesc>,
    numInstantiations: nat,
    numAcquires: nat,
    numReleases: nat,
    dependencies: seq<Dependency>,
    interpolations: seq<Interpolation>)

  /** The size of the vector holding operations of a real kind (0 for the synthetic kinds). */
  function OpCount(d: Definition, kind: OpKind): nat
  {
    match kind
    case Task => |d.tasks|
    case Copy => d.numCopies
    case Arrival => |d.arrivals|
    case Instantiation => d.numInstantiations
    case Acquire => d.numAcquires
    case Release => d.numReleases
    case ExtPrecond => 0
    case ExtPostcond => 0
  }

  predicate IsRealKind(kind: OpKind) { kind != ExtPrecond && kind != ExtPostcond }

  /** `k` names an operation that the definition declares. */
  predicate IsOp(d: Definition, k: OpKey)
  {
    IsRealKind(k.kind) && k.index < OpCount(d, k.kind)
  }

  /** What compile asserts of every dependency: a source that is a declared operation
      or an external precondition, a target that is a declared operation or an external
      postcondition, and nonzero ports only on nested instantiations. */
  predicate DependencyOk(d: Definition, dep: Dependency)
  {
    && (dep.srcKind == ExtPrecond || IsOp(d, Src(dep)))
    && (dep.tgtKind == ExtPostcond || IsOp(d, Tgt(dep)))
    && (dep.srcKind != Instantiation ==> dep.srcPort == 0)
    && (dep.tgtKind != Instantiation ==> dep.tgtPort == 0)
  }

  predicate WellFormed(d: Definition)
  {
    forall j :: 0 <= j < |d.dependencies| ==> DependencyOk(d, d.dependencies[j])
  }

  /** An event handle; `NoEvent` is the handle for which `exists()` is false. */
  datatype Event = NoEvent | Ev(id: nat)
  {
    predicate Exists() { Ev? }
  }
}
