# Realm subgraph compiler — a verified model

A Realm *subgraph* is a reusable graph of operations: tasks, copies, barrier
arrivals, nested subgraph instantiations, reservation acquires and releases. The
graph also has dependency edges between operation ports, and *interpolation
rules* that patch bytes of the instantiation arguments into the operations.
`SubgraphImpl::compile` runs once per subgraph. It turns the definition into a
static schedule:

- a topological order of the operations, found by repeated relaxation passes;
  the compile fails on a cycle;
- one schedule entry per operation, plus one per external postcondition. Each
  entry holds its range of intermediate events, its sorted and deduplicated
  precondition list, whether it feeds the finish event, and its range of the
  sorted interpolation rules;
- a per-processor partition of the schedule, flattened into CSR-style vectors.
  These hold the operations, their completion targets (processor, local index),
  their interpolation rules and their initial precondition counters;
- one list of gated operations per external precondition. When the external
  event triggers, `ExternalPreconditionTriggerer::event_triggered` counts down
  the counters of the operations in its list.

The model also covers the interpolation engine that instantiation uses
(`has_interpolation`, the scratch helper, `do_interpolation`,
`do_interpolation_inline`). It covers the classic instantiation path's walk
over the schedule: gathering the port-0 preconditions of each entry, and
advancing the intermediate-event cursor.

Modules, one file each:

- `SubgraphDefs`: the definition.
- `Toposort`: seeding and relaxation.
- `Schedule`: compaction, external postconditions, schedule vector.
- `Layout`: event layout, final flags, precondition linking and normalisation.
- `Interp`: interpolation sorting, range search, reduction-operator check,
  and the engine.
- `Partition`: edge grouping, processor numbering, placement, neighbour lists,
  external-precondition fan-out.
- `Csr`: flattening.
- `Compile`: the phases composed, and their end-to-end properties.
- `Replay`: the classic path's walk.
- `Trigger`: counter accounting.
- `Subgraph`: the `SubgraphImpl` and `ExternalPreconditionTriggerer` classes.
- `Seqs` and `Sorting`: general sequence helpers.

Each loop of the source is a method. The method is proved equal to a
specification function, and the properties are lemmas about that function.
`SubgraphImpl` is a class whose `Compile` updates its fields in place. Its
contract ties the new state to the specification functions.

## Model

| member | source | states |
|---|---|---|
| `Sorting.SortBy` | runtime/realm/subgraph_impl.cc:542-543 | the sorted rules are ordered by (target kind, target index) and are a permutation of the input |
| `Toposort.AllOpsListsOps` | runtime/realm/subgraph_impl.cc:334-347 | the seed list holds every declared operation exactly once, and nothing else |
| `Toposort.Seed` | runtime/realm/subgraph_impl.cc:334-347 | operation i of the seed list gets rank i; ranks are distinct and below `nextval == total_ops` |
| `Toposort.Relax` | runtime/realm/subgraph_impl.cc:374-399 | the relaxation loop (at most `limit` passes, stop at the first pass that changes nothing) computes `RelaxFrom` |
| `Toposort.RelaxPass` | runtime/realm/subgraph_impl.cc:376-398 | one pass over the edges, skipping external edges and moving a violated target to `nextval++`, computes `Pass` |
| `Toposort.StepKeepsDistinct` | runtime/realm/subgraph_impl.cc:394-397 | moving a target to `nextval` keeps the ranks distinct and below `nextval` |
| `Toposort.RelaxKeepsDistinct` | runtime/realm/subgraph_impl.cc:374-399 | all passes together keep the ranks distinct and below `nextval` |
| `Toposort.ConvergedPassUnchanged` | runtime/realm/subgraph_impl.cc:376-398 | a pass that ends converged changed nothing and found no violated edge |
| `Toposort.ConvergedIsOrdered` | runtime/realm/subgraph_impl.cc:374-403 | when the loop converges, every considered edge's source ranks below its target |
| `Toposort.OrderedIsAcyclic` | runtime/realm/subgraph_impl.cc:370-373 | ranks that increase along every considered edge rule out a cycle |
| `Toposort.TopologicalNumbering` | runtime/realm/subgraph_impl.cc:370-373 | an acyclic edge set has a level numbering below the number of operations that increases along every edge |
| `Toposort.NumberedConverges` | runtime/realm/subgraph_impl.cc:373-375 | pass p settles every edge into level p or lower, so a numbered graph converges within its depth |
| `Toposort.RelaxConvergesIffAcyclic` | runtime/realm/subgraph_impl.cc:374-403 | with at least as many passes as operations, the loop converges iff the considered edges are acyclic and at least one pass runs |
| `Toposort.OrderingConvergesIffAcyclic` | runtime/realm/subgraph_impl.cc:370-403 | for a definition, compile's ordering converges iff the dependencies are acyclic (and, as written, the definition is nonempty); on convergence the ranks order every edge and stay distinct |
| `Toposort.EmptyDefinitionRejected` | runtime/realm/subgraph_impl.cc:375 | as written, a definition with no operations runs no pass and so fails to compile; the corrected rule compiles it |
| `Toposort.SelfDependencyAccepted` | runtime/realm/subgraph_impl.cc:394 | as written, a task depending on itself compiles; the corrected rule rejects it as a cycle |
| `Toposort.SelfLoopsOnly` | runtime/realm/subgraph_impl.cc:394-396 | any nonempty definition whose edges are all self-dependencies converges as written and is rejected when corrected |
| `Toposort.SelfLoopIsCycle` | runtime/realm/subgraph_impl.cc:394 | a self-dependency is a cycle under the corrected comparison |
| `Toposort.RulesAgreeWithoutSelfLoops` | runtime/realm/subgraph_impl.cc:374-403 | without self-dependencies the strict and the corrected comparison end with the same ranks, and the source converges iff the corrected loop does and there is an operation |
| `Toposort.CorrectedRanksAsWritten` | runtime/realm/subgraph_impl.cc:374-403 | whenever the corrected loop converges, the source's loop ends with the same ranks, and converges too unless there are no operations |
| `Toposort.SelfLoopsInvisibleAsWritten` | runtime/realm/subgraph_impl.cc:394 | under the strict `>` comparison, self-dependencies are never a cycle |
| `Schedule.Compact` | runtime/realm/subgraph_impl.cc:405-415 | the re-compaction loop gives each operation its position among the ranks (`Compacted`) |
| `Schedule.FindLeast` | runtime/realm/subgraph_impl.cc:408-412 | the scan finds the operation of least rank at or above `curval`, or none |
| `Schedule.CompactedKeepsOrder` | runtime/realm/subgraph_impl.cc:405-415 | compaction keeps the relative order of any two operations, and keeps ranks distinct |
| `Schedule.CompactedIsOnto` | runtime/realm/subgraph_impl.cc:405-415 | after compaction the ranks are exactly 0 .. total_ops-1 |
| `Schedule.ExtPostcondCount` | runtime/realm/subgraph_impl.cc:419-427 | the count exceeds every external postcondition index used, and is one past the largest used |
| `Schedule.CountExtPostconds` | runtime/realm/subgraph_impl.cc:419-427 | the counting loop computes `ExtPostcondCount` |
| `Schedule.WithExtPostconds` | runtime/realm/subgraph_impl.cc:428-429 | external postcondition i is ranked `total_ops + i`; other ranks are unchanged |
| `Schedule.AppendExtPostconds` | runtime/realm/subgraph_impl.cc:428-429 | the loop computes `WithExtPostconds` and bumps `total_ops` by the count |
| `Schedule.WithExtPostcondsOnto` | runtime/realm/subgraph_impl.cc:428-429 | after appending, the ranks are exactly 0 .. new total-1 |
| `Schedule.BuildSchedule` | runtime/realm/subgraph_impl.cc:431-435 | the schedule vector lists at position v the operation ranked v |
| `Schedule.ScheduleUnique` | runtime/realm/subgraph_impl.cc:431-435 | a bijective ranking has one schedule vector |
| `Schedule.ScheduleKeysDistinct` | runtime/realm/subgraph_impl.cc:417-429 | the scheduled keys are the declared operations plus external postconditions 0 .. count-1, each once |
| `Schedule.FinalRanksAreBijection` | runtime/realm/subgraph_impl.cc:405-435 | the final ranks are distinct and cover 0 .. schedule size-1 |
| `Schedule.FinalRanksExtLast` | runtime/realm/subgraph_impl.cc:417-429 | external postconditions come after every real operation |
| `Schedule.FinalRanksOrderDependencies` | runtime/realm/subgraph_impl.cc:405-435 | after compaction and appending, every dependency's target is scheduled, and every non-external source is scheduled before its target |
| `Layout.MaxSrcPort` | runtime/realm/subgraph_impl.cc:357-359 | the largest source port used on instantiation i (0 if none) bounds every such port and is one of them |
| `Layout.MaxTgtPort` | runtime/realm/subgraph_impl.cc:363-365 | the same for target ports |
| `Layout.MaxPorts` | runtime/realm/subgraph_impl.cc:349-368 | the port scan fills `inst_pre_max_port` and `inst_post_max_port` with those maxima |
| `Layout.LayoutEvents` | runtime/realm/subgraph_impl.cc:437-461 | entry t starts its events at the sum of earlier counts; an instantiation has max post port + 1 events, an external postcondition none, others one; every non-postcondition entry starts final; the totals are returned |
| `Layout.EventRangesOrdered` | runtime/realm/subgraph_impl.cc:451-460 | event ranges of earlier entries end before later ones start, and inside the total |
| `Layout.SourceEventEarlier` | runtime/realm/subgraph_impl.cc:485 | `intermediate_event_base + src_op_port` of an earlier source lies before the target's own events |
| `Layout.RawPreconditions` | runtime/realm/subgraph_impl.cc:470-487 | an entry's pushed preconditions are exactly (target port, source) of the edges aimed at it, with source `-1 - index` for an external precondition and the source's event index otherwise |
| `Layout.LinkDependencies` | runtime/realm/subgraph_impl.cc:463-499 | the linking loop gives every entry its raw precondition list, clears the final flag of every port-0 source of a non-postcondition edge, and keeps `num_final_events` equal to the number of final entries |
| `Layout.FinalSetClear` | runtime/realm/subgraph_impl.cc:490-495 | clearing a set final flag lowers the final count by exactly one |
| `Layout.Dedup` | runtime/realm/subgraph_impl.cc:522-528 | dropping adjacent repeats keeps the same members and the last element |
| `Layout.DedupSortedIsStrict` | runtime/realm/subgraph_impl.cc:520-528 | on a sorted list, dropping adjacent repeats leaves a strictly increasing list |
| `Layout.Unique` | runtime/realm/subgraph_impl.cc:521-530 | the in-place compaction leaves `Dedup` of the list in the first `num_unique` cells |
| `Layout.NormalizedIsStrict` | runtime/realm/subgraph_impl.cc:512-530 | a normalised list is strictly increasing, has the same members, and is no longer |
| `Layout.NormalizeList` | runtime/realm/subgraph_impl.cc:517-530 | sort then unique computes `Normalized` |
| `Layout.NormalizePreconditions` | runtime/realm/subgraph_impl.cc:512-533 | every entry's list is normalised; `max_preconditions` is at least 1, exceeds every list length, and is 1 or one more than some list's length |
| `Interp.InterpLessIsStrictWeakOrder` | runtime/realm/subgraph_impl.cc:315-327 | the comparator is irreflexive and transitive; two rules are unordered exactly when they aim at the same operation |
| `Interp.MatchRangeExact` | runtime/realm/subgraph_impl.cc:540-587 | in the sorted rules, the recorded range holds exactly the rules aimed at the operation |
| `Interp.FindRange` | runtime/realm/subgraph_impl.cc:547-586 | the binary search and the two linear scans return the recorded range, or (0, 0) when no rule matches |
| `Interp.FoundRange` | runtime/realm/subgraph_impl.cc:567-579 | a maximal block of matching rules is the recorded range |
| `Interp.NoRange` | runtime/realm/subgraph_impl.cc:550-553 | when the search closes with no match, the operation has no rule |
| `Interp.AssignInterpolations` | runtime/realm/subgraph_impl.cc:544-587 | every entry gets the range of its rules; `op_to_interpolation_data` holds exactly the nonempty ranges |
| `Interp.ValidateRedops` | runtime/realm/subgraph_impl.cc:589-606 | the check succeeds iff every reduction rule names a registered operator whose right-hand side is as wide as the rule's bytes |
| `Interp.RedopsOkAfterSort` | runtime/realm/subgraph_impl.cc:540-606 | checking the sorted rules gives the same verdict as checking the rules as given |
| `Interp.AllOkIffMembersOk` | runtime/realm/subgraph_impl.cc:591-606 | the verdict depends only on which rules occur |
| `Interp.RuleBytes` | runtime/realm/subgraph_impl.cc:263-277 | the bytes a rule writes fit inside the field; an overwrite writes the rule's source bytes |
| `Interp.ApplyRulesFrame` | runtime/realm/subgraph_impl.cc:252-278 | a byte that no matching rule writes keeps its value |
| `Interp.ApplyRulesNoMatch` | runtime/realm/subgraph_impl.cc:252-255 | rules aimed at other fields leave the field unchanged |
| `Interp.ApplyRulesSnoc` | runtime/realm/subgraph_impl.cc:252-278 | rules apply in range order: a further rule acts on the result of the earlier ones |
| `Interp.LastOverwriteWins` | runtime/realm/subgraph_impl.cc:264-268 | after a final overwrite, its target bytes hold its source bytes whatever came before |
| `Interp.HasInterpolation` | runtime/realm/subgraph_impl.cc:188-200 | the result is true iff some rule of the range targets the field |
| `Interp.ScratchHelper.constructor` | runtime/realm/subgraph_impl.cc:204-217 | a helper of `needed` bytes with nothing handed out |
| `Interp.ScratchHelper.Next` | runtime/realm/subgraph_impl.cc:225-231 | hands out the slice that starts where the previous one ended, within `needed` |
| `Interp.CopyInto` | runtime/realm/subgraph_impl.cc:260 | the buffer holds the copied bytes at the offset and is unchanged elsewhere |
| `Interp.ApplyInto` | runtime/realm/subgraph_impl.cc:263-277 | the slice of the buffer becomes the rule applied to its old contents |
| `Interp.DoInterpolation` | runtime/realm/subgraph_impl.cc:243-281 | the result is all matching rules applied to the field in order; the field is copied into the next scratch slice iff a rule matches, else the field itself is returned and no scratch is used |
| `Interp.VisitRule` | runtime/realm/subgraph_impl.cc:252-278 | one loop iteration keeps the engine's state: copy made iff a match was seen, the copy equal to the rules applied so far |
| `Interp.VisitMatch` | runtime/realm/subgraph_impl.cc:257-277 | a matching rule makes the copy if needed and applies itself to it |
| `Interp.CopyAndApply` | runtime/realm/subgraph_impl.cc:258-277 | the scratch slice holds the rule applied to the bytes so far |
| `Interp.EnsureCopied` | runtime/realm/subgraph_impl.cc:258-261 | after the first match the scratch slice holds a copy of the field |
| `Interp.DoInterpolationInline` | runtime/realm/subgraph_impl.cc:283-313 | the field becomes all matching overwrite rules applied in order, in place |
| `Interp.InlineRule` | runtime/realm/subgraph_impl.cc:291-301 | one iteration overwrites the field's bytes when the rule targets it |
| `Partition.IncomingMembers` | runtime/realm/subgraph_impl.cc:504-510 | `incoming_edges[k]` lists exactly the sources of edges aimed at k |
| `Partition.OutgoingMembers` | runtime/realm/subgraph_impl.cc:504-510 | `outgoing_edges[k]` lists exactly the targets of edges leaving k |
| `Partition.IncomingCount` | runtime/realm/subgraph_impl.cc:686 | an operation's incoming count is the number of edges aimed at it, repeats included |
| `Partition.GroupEdges` | runtime/realm/subgraph_impl.cc:501-510 | the group-by builds, in edge order, the incoming and outgoing lists of every key |
| `Partition.FirstOccurrences` | runtime/realm/subgraph_impl.cc:644-657 | the processor list has no repeats and holds exactly the processors of the scheduled tasks |
| `Partition.AssignProcs` | runtime/realm/subgraph_impl.cc:643-665 | `all_procs` lists the task processors in first-use order, and `proc_to_index` numbers each by its position |
| `Partition.PlacementAt` | runtime/realm/subgraph_impl.cc:677-700 | a task is placed on its processor's index, the n-th arrival on processor n mod (number of processors) |
| `Partition.LocalAt` | runtime/realm/subgraph_impl.cc:683-685 | operation i sits at its slot in its processor's local schedule |
| `Partition.LocalMember` | runtime/realm/subgraph_impl.cc:683-685 | every local-schedule entry is some scheduled operation placed on that processor at that slot |
| `Partition.Counters` | runtime/realm/subgraph_impl.cc:686-694 | each local precondition counter is the size of the operation's incoming list |
| `Partition.Place` | runtime/realm/subgraph_impl.cc:671-700 | the placement loop builds the local schedules and counters, and records every operation's processor and slot |
| `Partition.PlaceOne` | runtime/realm/subgraph_impl.cc:677-699 | one iteration appends the operation to its processor's lists and records its slot |
| `Partition.OutInfos` | runtime/realm/subgraph_impl.cc:708-713 | the completion list of each local entry is the (processor, slot) of each outgoing edge, in edge order |
| `Partition.InterpLists` | runtime/realm/subgraph_impl.cc:715-720 | the rule list of each local entry is its recorded range of the sorted rules |
| `Partition.Neighbors` | runtime/realm/subgraph_impl.cc:703-721 | the loop builds, per processor, the completion lists and rule lists of its entries |
| `Partition.NeighborsOne` | runtime/realm/subgraph_impl.cc:705-720 | one iteration appends the operation's completion and rule lists to its processor |
| `Partition.CompletionInfos` | runtime/realm/subgraph_impl.cc:708-712 | builds one completion target per outgoing edge |
| `Partition.OutInfoAddressesSuccessor` | runtime/realm/subgraph_impl.cc:708-712 | each completion target names the local entry holding the successor operation |
| `Partition.ExternalPreconditions` | runtime/realm/subgraph_impl.cc:723-740 | waiter e lists one target per edge from external precondition e, in schedule order; every used index has a waiter |
| `Partition.CollectWaiters` | runtime/realm/subgraph_impl.cc:724-734 | the fan-out loop builds `external_preconditions` and the largest index used |
| `Partition.FanOutOp` | runtime/realm/subgraph_impl.cc:727-733 | one operation adds one entry per external edge aimed at it |
| `Partition.Densify` | runtime/realm/subgraph_impl.cc:736-740 | one waiter per index 0 .. max, empty for unused indices, none at all when no external precondition is used |
| `Partition.FanOutSource` | runtime/realm/subgraph_impl.cc:723-734 | every fan-out entry comes from an operation gated by that external precondition |
| `Partition.FanOutCovers` | runtime/realm/subgraph_impl.cc:723-734 | every gated operation contributes an entry |
| `Partition.FanOutAddressesGatedOps` | runtime/realm/subgraph_impl.cc:723-734 | corrected fan-out: each entry names the local entry of an operation gated by that precondition, and every gated operation is named |
| `Partition.FanOutAsWrittenReadsZero` | runtime/realm/subgraph_impl.cc:729 | as written, every fan-out entry is (0, 0), the default the maps give the external-precondition key |
| `Partition.FanOutAsWrittenCounterexample` | runtime/realm/subgraph_impl.cc:729-730 | for two tasks on one processor with the second gated, the code as written signals task 0, which is not gated; the corrected fan-out signals task 1 |
| `Csr.FlattenOne` | runtime/realm/subgraph_impl.cc:762-772 | operations are the concatenation of the local lists, and offsets are their prefix sums ending with the total |
| `Csr.AppendAll` | runtime/realm/subgraph_impl.cc:783-786 | appends a list item by item |
| `Csr.FlattenProc` | runtime/realm/subgraph_impl.cc:777-788 | one processor's lists extend the two-level layout |
| `Csr.FlattenTwo` | runtime/realm/subgraph_impl.cc:774-790 | proc offsets are prefix sums of list counts, task offsets prefix sums of list lengths, and the payload is the double concatenation |
| `Csr.OneLevelAt` | runtime/realm/subgraph_impl.cc:762-772 | entry j of processor p is at offset[p] + j, inside processor p's part |
| `Csr.TwoLevelAt` | runtime/realm/subgraph_impl.cc:774-790 | item m of entry j of processor p is at task_offset[proc_offset[p] + j] + m |
| `Csr.LastOffset` | runtime/realm/subgraph_impl.cc:772 | the closing offset equals the flattened length |
| `Compile.Sched` | runtime/realm/subgraph_impl.cc:431-435 | the schedule vector lists each scheduled key at its final rank |
| `Compile.OrderPhase` | runtime/realm/subgraph_impl.cc:334-435 | seeding, port scan and relaxation report convergence exactly as the ordering under `rule` does: `AsWritten` is the source's strict `>` and `i < total_ops` passes, `Corrected` the fixed ones; on convergence they return the final ranks and the schedule vector |
| `Compile.ScheduleOrdered` | runtime/realm/subgraph_impl.cc:405-435 | from the ranks the source's relaxation leaves, compaction, postcondition appending and the vector fill give the final ranks and schedule |
| `Compile.FinalizeRanks` | runtime/realm/subgraph_impl.cc:405-430 | from the ranks the source's relaxation leaves, compaction plus appending gives the final ranks and total |
| `Compile.SchedFacts` | runtime/realm/subgraph_impl.cc:417-435 | the schedule has no repeats and holds only declared operations and counted external postconditions |
| `Compile.EntriesPhase` | runtime/realm/subgraph_impl.cc:437-587 | layout, linking, normalisation, the rule sort and range search produce the compiled schedule, the event totals, `max_preconditions` and the ranges |
| `Compile.BuildLinked` | runtime/realm/subgraph_impl.cc:437-499 | layout then linking gives `LinkedAll` and the event and final counts |
| `Compile.Finish` | runtime/realm/subgraph_impl.cc:512-587 | normalisation and range assignment keep the final flags, give a valid `max_preconditions`, and record every range |
| `Compile.CompiledSourcesRankedFirst` | runtime/realm/subgraph_impl.cc:463-499 | every non-external source is scheduled before its target, and its port lies inside the source's event range |
| `Compile.CompiledIsReplayable` | runtime/realm/subgraph_impl.cc:437-533 | the compiled schedule's event ranges are contiguous, and every port-0 operation precondition refers to an event of an earlier entry |
| `Compile.CompiledFinalFlags` | runtime/realm/subgraph_impl.cc:440-495 | an entry is final iff it is not an external postcondition and no non-postcondition edge leaves it from port 0 |
| `Compile.CompiledPreconditions` | runtime/realm/subgraph_impl.cc:463-533 | an entry's preconditions are strictly sorted and are exactly (target port, source) of the edges aimed at it |
| `Compile.GatheredWithinMax` | runtime/realm/subgraph_impl.cc:933-966 | the gathered preconditions of any entry, the global one included, fit the `max_preconditions` buffer |
| `Compile.FinalEntriesOf` | runtime/realm/subgraph_impl.cc:440-495 | the final entries are exactly the operations without a port-0 successor, and `num_final_events` is their number |
| `Compile.DiamondCompiles` | test/realm/subgraphs.cc:318-362 | the test's diamond graph is well formed and compiles, as written and corrected |
| `Compile.DiamondAcyclic` | test/realm/subgraphs.cc:318-362 | the diamond's dependencies have no cycle |
| `Compile.DiamondSuccessors` | test/realm/subgraphs.cc:318-362 | in the diamond, tasks 3 and 4 and the arrival are exactly the operations without a port-0 successor, so they are its final entries |
| `Compile.NumberingUnique` | runtime/realm/subgraph_impl.cc:650-652 | `proc_to_index` is determined by `all_procs` |
| `Compile.PlaceAll` | runtime/realm/subgraph_impl.cc:643-700 | processor numbering and placement give the local schedules, the counters and the processor and slot maps of `Pl` |
| `Compile.BuildPartition` | runtime/realm/subgraph_impl.cc:633-844 | the partition phase yields the flattened static schedule of the placement, and the waiters of the fan-out as written (`asWritten`) or corrected |
| `Compile.PartitionLists` | runtime/realm/subgraph_impl.cc:633-740 | the per-processor lists agree with their specification functions |
| `Compile.FlattenAll` | runtime/realm/subgraph_impl.cc:759-844 | the four flattenings give `Flatten` of the per-processor lists |
| `Compile.LocalsCoverSchedule` | runtime/realm/subgraph_impl.cc:762-772 | the local schedules together hold as many entries as the schedule |
| `Compile.StaticScheduleShape` | runtime/realm/subgraph_impl.cc:759-844 | one offset per processor plus one; every operation and counter appears once; completion and rule proc offsets equal the operation offsets |
| `Compile.OperationAtSlot` | runtime/realm/subgraph_impl.cc:677-700 | scheduled operation i is at its processor's offset plus its slot, with counter equal to its incoming count |
| `Compile.EntryIsPlaced` | runtime/realm/subgraph_impl.cc:762-772 | every flattened entry is some scheduled operation placed there |
| `Compile.CompletionInfoAddressesSuccessor` | runtime/realm/subgraph_impl.cc:703-790 | every flattened completion target names the flattened entry of the successor it stands for |
| `Compile.RulesAtSlot` | runtime/realm/subgraph_impl.cc:715-808 | the flattened rules of an entry are the rules of its recorded range |
| `Compile.RulesForExact` | runtime/realm/subgraph_impl.cc:715-720 | an entry's rule list holds exactly the rules aimed at its operation |
| `Compile.WaiterAddressesGatedOp` | runtime/realm/subgraph_impl.cc:723-740 | each corrected waiter target names the flattened entry of an operation gated by that precondition |
| `Compile.WaitersCoverGatedOps` | runtime/realm/subgraph_impl.cc:723-740 | every gated operation is in its precondition's waiter list |
| `Compile.WaitersAddressed` | runtime/realm/subgraph_impl.cc:1240-1241 | every waiter target lands inside the counter array |
| `Compile.SupportedSchedulable` | runtime/realm/subgraph_impl.cc:608-665 | under the kind assertions, the schedule holds only tasks and arrivals, and arrivals have a processor to go to |
| `Compile.NoExtPostconds` | runtime/realm/subgraph_impl.cc:614-631 | under the kind assertions there is no external postcondition to append |
| `Compile.StaticScheduleIsFlattened` | runtime/realm/subgraph_impl.cc:608-844 | the compiled static schedule is the flattening of the placement of the compiled schedule |
| `Compile.ExtWaitersAddressed` | runtime/realm/subgraph_impl.cc:723-740 | every waiter of the compiled subgraph, as written or corrected, addresses a counter of the static schedule |
| `Compile.AsWrittenWaitersAddressed` | runtime/realm/subgraph_impl.cc:723-740 | with the fan-out as written, every waiter target is (0, 0), which still lands on processor 0's first counter |
| `Compile.RankedBelow` | runtime/realm/subgraph_impl.cc:405-435 | every operation and counted external postcondition has a final rank inside the schedule vector, whether or not the relaxation converged |
| `Compile.PartitionPhase` | runtime/realm/subgraph_impl.cc:608-844 | the partition phase yields the static schedule of the definition and the waiters of the fan-out as written (`asWritten`) or corrected |
| `Replay.Port0Len` | runtime/realm/subgraph_impl.cc:942-945 | the scan stops at the first precondition on a nonzero port |
| `Replay.SortedPort0Prefix` | runtime/realm/subgraph_impl.cc:942-945 | in a sorted list, the port-0 preconditions are exactly the prefix the scan visits |
| `Replay.Resolve` | runtime/realm/subgraph_impl.cc:947-959 | an operation source gives its intermediate event; an external one gives the caller's event when present, else nothing |
| `Replay.GatheredInternal` | runtime/realm/subgraph_impl.cc:947-953 | every operation source's event is among those gathered |
| `Replay.GatherPreconditions` | runtime/realm/subgraph_impl.cc:935-966 | the gathered events are the resolved port-0 preconditions, plus the start event when it exists and no operation source was seen |
| `Replay.PrecondsFit` | runtime/realm/subgraph_impl.cc:963-966 | a list shorter than `max_preconditions` gathers at most `max_preconditions` events |
| `Replay.WalkedCursor` | runtime/realm/subgraph_impl.cc:949-951 | when an entry is reached, the cursor equals its event base, and each of its operation sources is below the cursor |
| `Replay.ReplaySchedule` | runtime/realm/subgraph_impl.cc:1140-1164 | the intermediate events are every entry's events in schedule order, their number is `num_intermediate_events`, each entry waits on its gathered preconditions, and the finish event receives, in schedule order, the first event of every final entry, `num_final_events` of them |
| `Replay.FinalInputs` | runtime/realm/subgraph_impl.cc:1152-1153 | one finish input per final entry |
| `Replay.FinalInputsAt` | runtime/realm/subgraph_impl.cc:1152-1153 | a final entry's first event is the finish input numbered by the final entries before it |
| `Replay.ReplayEntry` | runtime/realm/subgraph_impl.cc:1140-1155 | one iteration extends the walk's state by one entry |
| `Replay.ProducedAt` | runtime/realm/subgraph_impl.cc:1140-1144 | event k of entry t lands at `intermediate_event_base + k` |
| `Trigger.SignalOnce` | runtime/realm/subgraph_impl.cc:1242-1246 | a counter is seen reaching zero at most once, and once iff its start value is between 1 and its hits |
| `Trigger.ExactCounterSignalsOnce` | runtime/realm/subgraph_impl.cc:1242-1246 | a counter hit exactly as many times as it starts with signals its processor exactly once |
| `Trigger.SignalsTotal` | runtime/realm/subgraph_impl.cc:1243-1245 | the signals of a counter are counted on its processor's work counter |
| `Subgraph.SubgraphImpl.constructor` | runtime/realm/subgraph_impl.cc:176-178 | a new subgraph holds the definition and nothing compiled |
| `Subgraph.SubgraphImpl.Compile` | runtime/realm/subgraph_impl.cc:329-853 | with `rule == AsWritten` the source's verdict and fan-out, with `Corrected` the fixed ones: compile succeeds iff the ordering under `rule` converges and the reduction operators check; when it does not converge nothing changes; on convergence the schedule, counts and sorted rules are stored; on success the static schedule, counters and waiters (as written: every target (0, 0)) are installed |
| `Subgraph.SubgraphImpl.CompileOrdered` | runtime/realm/subgraph_impl.cc:405-844 | after ordering, compile succeeds iff the reduction operators check, and installs the partition only then, with the waiters of the fan-out as written (`asWritten`) or corrected |
| `Subgraph.SubgraphImpl.LayOut` | runtime/realm/subgraph_impl.cc:437-587 | stores the compiled schedule, event counts, `max_preconditions` and the sorted rules, and returns the ranges |
| `Subgraph.SubgraphImpl.Partition` | runtime/realm/subgraph_impl.cc:608-844 | installs the definition's static schedule and the waiters of the fan-out as written (`asWritten`) or corrected, and leaves the stored schedule alone |
| `Subgraph.SubgraphImpl.Install` | runtime/realm/subgraph_impl.cc:832-844 | stores the static schedule, loads the live counters from the precondition counts, and registers one waiter per list; the processors' work counters are a new array of zeros (see "## Left out") |
| `Subgraph.SubgraphImpl.MakeWaiters` | runtime/realm/subgraph_impl.cc:736-740 | one waiter per list, each bound to this subgraph |
| `Subgraph.LoadCounters` | runtime/realm/subgraph_impl.cc:841-844 | the new counter array holds the original precondition counts |
| `Subgraph.ExternalPreconditionTriggerer.constructor` | runtime/realm/subgraph_impl.cc:1226-1229 | the waiter holds its subgraph and its target list |
| `Subgraph.ExternalPreconditionTriggerer.EventTriggered` | runtime/realm/subgraph_impl.cc:1237-1248 | each counter drops by the number of targets on it; each processor's work counter rises by the number of decrements that reach exactly zero on it |

## Left out

- Creation, destruction and the message handlers (`subgraph_impl.cc:32-170`, `:1167-1224`, `:1262-1302`) are not modelled. They allocate handles, forward to the owner node and free memory; none of that affects the compiled schedule.
- The persistent instantiation path (`:863-915`) is not modelled. The per-kind dispatch of the classic path (`:967-1150`: spawning tasks, copies, barrier arrivals, acquires, releases, nested instantiation) is abstracted to the events each operation produces (`produced[t]` in `Replay.ReplaySchedule`). Merging preconditions into one event is left out as well.
- The reduction-operator table is a map `registry` from id to the operator's widths. `cpu_apply_excl_fn` is a parameter `apply` that is only assumed to keep lengths. User data and the operator's real arithmetic are not modelled.
- `InterpolationScratchHelper` is modelled as one buffer of `needed` bytes. Whether it is the caller's stack array or a `malloc`'d block, and its `free`, are not modelled.
- Integer widths are unbounded. The source's `unsigned`, `int32_t` and `size_t` counters (ranks, `nextval`, event counts, the `-1 - index` encoding) are assumed not to overflow.
- `Sorting.SortBy`: `std::sort` is not stable, so the order of rules with the same target is unspecified. The model fixes one order, that of an insertion sort. The range lemmas hold for any sorted permutation. The order in which two rules on the same operation are applied may differ from the source's.
- `Interp.DoInterpolationInline`: the source hits `assert(false)` on a reduction rule. The model requires that no matching rule is a reduction.
- `Subgraph.SubgraphImpl.Compile`: the source asserts at `:609-631` and `:662-663` that the graph holds only tasks, arrivals and external preconditions. The model takes this as a precondition of the partition, `PartitionSupported`. Definitions outside it are not modelled past that point.
- `Subgraph.SubgraphImpl.Compile`: `PartitionSupported` also demands that a definition with arrivals has at least one task. Without a task `all_procs` is empty, and `:690` takes the arrival counter modulo `all_procs.size()`, a remainder by zero, which C++ leaves undefined. It is not listed as a finding: the source shows no intended placement for such arrivals to prove against.
- `Subgraph.SubgraphImpl.Compile`, `Subgraph.SubgraphImpl.CompileOrdered`, `Subgraph.SubgraphImpl.Partition`, `Compile.OrderPhase`, `Compile.BuildPartition`, `Compile.PartitionPhase`: the `rule` and `asWritten` parameters choose between the code as written and the corrected code of the findings below. The final ranks and schedule are those of the source's relaxation in both cases (`Toposort.CorrectedRanksAsWritten`). The ordering properties (`Schedule.FinalRanksOrderDependencies`, `Compile.CompiledSourcesRankedFirst`, `Compile.CompiledIsReplayable`) are proved only when the corrected loop converges: as written, a self-dependency converges and its edge is not ordered. The layout properties (`Compile.CompiledFinalFlags`, `Compile.CompiledPreconditions`, `Compile.FinalEntriesOf`) hold for every well-formed definition.
- `Subgraph.SubgraphImpl.Install`: the source does not create work counters. At `:651-656` it pushes pointers to the existing `LocalTaskProcessor` schedulers into `all_proc_impls`, and each keeps the `work_counter` it already had. The model instead gives the subgraph one work counter per processor in `all_procs`, owned by the subgraph and starting at 0. So the zero work counters in `Loaded`, and through `Installed` in `Subgraph.SubgraphImpl.Compile`, are a property of this abstraction, not a post-state of the source. The triggerer's contract is relative to `old` and does not rely on the zeros.
- `Subgraph.SubgraphImpl.Compile`: the `dynamic_cast<LocalTaskProcessor*>` and `assert(lp)` at `:654-655` abort the compile when a task's processor is not a local task processor. The model has no processor table and does not check this. It assumes that every task processor is a local task processor. If one is not, the model reports success where the source aborts.
- `Subgraph.ExternalPreconditionTriggerer.EventTriggered`: the atomic `fetch_sub` and the work counter's `increment_counter` are modelled as sequential updates. Interleaving with the processors' own decrements is not modelled. The `poisoned` flag and the time limit are ignored.
- Logging (`log_subgraph`) and the commented-out debugging output are not modelled.
- The test in `test/realm/subgraphs.cc` sizes `dependencies` to 7 (`:324`) and then writes `dependencies[7]` (`:365-369`), one past the end. `Compile.DiamondCompiles` models the seven edges the vector holds, without the external precondition. It also drops the test's argument bytes (`:256-260`, `sizeof(TaskArgs)` per task) and its six interpolation rules (`:262-297`): every task has empty arguments and the rule list is empty. The rules are all overwrites, so they do not affect the reduction-operator check, and they do not affect the ordering or final-event properties the diamond lemmas state.
- The relaxation compares with a strict `>` (`:394`); see the self-dependency finding below. A cycle makes `compile` return false with nothing stored; it does not abort.

## Findings

| source | as written | input that shows it | evidently intended | confidence | as-written member | corrected member |
|---|---|---|---|---|---|---|
| runtime/realm/subgraph_impl.cc:375 | the relaxation loop runs `i < total_ops` passes and starts with `converged = false`, so with no operations no pass runs and `compile` reports a cycle | a definition with no operations and no dependencies | an empty graph compiles (at least one pass runs) | not executed | `Toposort.EmptyDefinitionRejected` | `Toposort.OrderingConvergesIffAcyclic` (`Subgraph.SubgraphImpl.Compile` with `Corrected`) |
| runtime/realm/subgraph_impl.cc:394 | a violation is `src > tgt`, so an edge from an operation to itself is never violated and the cycle goes undetected | one task with a dependency from task 0 to task 0 | a self-dependency is a cycle and fails the compile (`>=`) | not executed | `Toposort.SelfDependencyAccepted` | `Toposort.OrderingConvergesIffAcyclic` (`Subgraph.SubgraphImpl.Compile` with `Corrected`) |
| runtime/realm/subgraph_impl.cc:729 | the fan-out target is looked up under the external precondition's key (`edge`), which no operation has, so `operator[]` yields (0, 0) | tasks 0 and 1 on one processor, with external precondition 0 gating task 1 | the target is the gated operation itself, `key` | not executed | `Partition.FanOutAsWrittenCounterexample` | `Partition.FanOutAddressesGatedOps` (`Subgraph.SubgraphImpl.Compile` with `Corrected`) |
