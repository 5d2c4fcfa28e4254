# Models of traceMiku's offline analysis

traceMiku records an instruction trace on a device and analyses it offline. This project models the analysis kernel
and three small protocols beside it, and proves what they promise for every trace, every run and every cap:

- the dependency rows streamed out of a trace, their transpose, the backward slice and the forward tree over them,
  and the duality that ties the two walks together (`DependencySpec`, `AnalysisIndex`, `Transpose`, `DependencyUsers`,
  `WalkSpec`, `WalkExactness`, `WalkPrefix`, `WalkOrder`, `BfsSlice`, `ForwardSpec`, `ForwardDepTree`, `SliceDuality`, over the packed
  sets of `Bitsets` and the graph notions of `DependencyGraph`);
- the call tree built by a stack machine with a depth cap, held against recursive descent (`CallTreeSpec`,
  `CallTreePruning`, `CallTreeUncapped`, `CallTreeShape`, `CallTreeNodes`, `CallTrees`, `CallEvents`);
- the register and memory index and the byte-level memory shadow, built in parallel and queried by binary search, and
  the replay of copy and fill calls the trace does not show (`IndexSpec`, `IndexMemory`, `IndexBuild`, `IndexQueries`,
  `ByteHistory`, `MemShadowQueries`, `ShadowSpec`, `ShadowAccesses`, `WriterAgreement`, `MemShadowBuild`, `ExternalWrite`,
  `MemCallSpec`, `MemCallRuns`, `StoreOrder`, `MemShadowExt`, `WorkerAnchors`);
- the block graph with its observed edges (`EdgeCounts`, `CfgSpec`, `CfgEdges`, `CfgBuild`), and the summaries of the trace,
  per PC and per function (`Counters`, `PcSummaries`, `FunctionSummaries`);
- replay plans, their evaluator and the greedy seed minimiser (`ReplaySpec`, `ReplayMeaning`, `ReplayEffects`,
  `SeedLiveness`, `SeedMinimality`, `ReplayPlan`);
- the capture ring with its writer loops (`RingSlots`, `NativeIo`, `CaptureRing`, `CaptureProtocol`), the build gate
  (`BuildGate`) and the sidecar files (`Codecs`, `MapListings`, `IndexSidecar`, `AnalysisSidecar`, `BuiltAnalysis`).

Each module has a file of its name. The instruction decoder is an arbitrary total function: a trace is a sequence of
records that already carry what the decoder says of them (`TraceModel`), so every theorem holds for every decoder.
Addresses and register values are unbounded naturals, with wrap-around and saturation written out where the code relies
on them.

Where the original changes state in place (bitset words, bucket arrays, the ring, the shadow, the replay state) the model
is a class or an array; its methods are proved equal to functions of the old state, and the theorems are about those
functions. Protocols are state machines over the steps taken between two releases of a lock, or over single writes.

Some promises hold only under a condition; the condition is then stated exactly:

- `last_def_before` takes the element before a binary-search hit, which is right if and only if the list names the cursor
  at most once (`IndexQueries.BeforeIsRightIff`); the decoder's distinct register lists make it so.
- The PC-indexed list of calls and returns is the sequential one if and only if no PC changes its call/return class; then
  the trees agree too. Where a PC changes it the trees can differ, as a concrete trace shows
  (`CallEvents.IndexedEventsAgreeIff`, `CallEvents.IndexedTreeAgrees`, `CallEvents.IndexedTreeMayDiffer`).
- The snapshot lookup asks only the last region that starts at or before an address. It answers every captured address
  if and only if no region cuts an earlier one short (`MemShadowQueries.CapturedFindsIff`).
- Saturated bucket offsets overrun the transposed arrays if and only if the edges do not fit 32 bits
  (`DependencyUsers.OverrunIffTooMany`).
- The reader of an analysis file assumes 88 and 57 bytes for elements its writer can fit into 80 and 49. Saved files load
  if and only if those assumptions fit the file's length; they always do for built analyses
  (`AnalysisSidecar.SavedLoadsIff`, `AnalysisSidecar.CapCanFire`, `BuiltAnalysis.BuiltAnalysisLoads`). The comment beside
  the constants counts nine and six counters where eight and five are written; the model follows the code.
- The end of a block is documented as its last instruction. The code takes a maximum over the block's records that can
  leave out the start itself. So two readings each hold under a condition of their own: the end is the block's greatest PC
  if and only if it is not below the start (`CfgSpec.EndIsGreatestIff`; it fails on PCs 8, 4, `CfgSpec.EndMayPrecedeStart`),
  and it is the last instruction of every run if and only if every run ends on the highest PC entered
  (`CfgSpec.EndIsLastIff`; it fails on PCs 8, 12, 4, `CfgSpec.EndMayNotBeLast`).
- The gate's maximum comes with each call. Where callers ask with one maximum or another, no run loses a wakeup if and
  only if the two allow the same number of permits (`BuildGate.NoWakeupLostIff`).

## Model

| member | source | states |
|---|---|---|
| Words.MaskReadsBit | rust/crates/tracemiku-core/src/bfs_slice.rs:105-107 | testing a word against `1 << i` is non-zero exactly when bit `i` is set |
| Bitsets.Bitset.WithLen | rust/crates/tracemiku-core/src/bfs_slice.rs:33-39 | a new set over `len` rows is empty |
| Bitsets.Bitset.FromIdxs | rust/crates/tracemiku-core/src/bfs_slice.rs:44-50 | holds exactly the given in-range rows; others are ignored |
| Bitsets.Bitset.Get | rust/crates/tracemiku-core/src/bfs_slice.rs:89-95 | membership, false out of range |
| Bitsets.Bitset.Set | rust/crates/tracemiku-core/src/bfs_slice.rs:101-110 | adds an in-range row and reports whether it was new; out of range nothing happens |
| Bitsets.Bitset.IntersectInPlace | rust/crates/tracemiku-core/src/bfs_slice.rs:55-66 | word-wise AND is set intersection |
| Bitsets.Bitset.UnionInPlace | rust/crates/tracemiku-core/src/bfs_slice.rs:69-75 | word-wise OR is set union |
| Bitsets.Bitset.Iter | rust/crates/tracemiku-core/src/bfs_slice.rs:120-129 | lists exactly the rows of the set, strictly ascending |
| WalkExactness.DistancesAreShortest | rust/crates/tracemiku-core/src/bfs_slice.rs:180-240 | for every graph, seeds and caps: rows are listed once each and in range, depths never decrease along the list, and each is the true shortest distance from the seeds over allowed edges |
| WalkExactness.TruncatedIffLeftOut | rust/crates/tracemiku-core/src/bfs_slice.rs:200-231 | `truncated` is raised if and only if some row reachable from an in-range seed is missing from the answer, for any mix of depth and node caps |
| WalkExactness.NodeCutIffLeftOutInDepth | rust/crates/tracemiku-core/src/bfs_slice.rs:205-225 | the node cap dropped something if and only if a row within the depth bound is missing |
| WalkExactness.UncappedIsReach | rust/crates/tracemiku-core/src/bfs_slice.rs:195-231 | without a node cap the answer is exactly the rows within the depth bound |
| WalkExactness.DepthBoundOfTraceLength | rust/crates/tracemiku-core/src/bfs_slice.rs:222-225 | a depth bound of at least the trace length never bites: the answer is everything reachable |
| WalkPrefix.NodeCapIsPrefix | rust/crates/tracemiku-core/src/bfs_slice.rs:195-231 | the answer under `max_nodes = c` is the first min(c, len) rows (and depths) of the uncapped one |
| WalkOrder.ListedAsMet | rust/crates/tracemiku-core/src/bfs_slice.rs:195-231 | without a node cap rows are listed as first met: the seeds, then what each listed row leads to, row after row, each in row order |
| BfsSlice.WalkSlice | rust/crates/tracemiku-core/src/bfs_slice.rs:180-240 | the queue-and-bitset loop terminates and returns the reference walk: rows in order, depth map, `truncated`, and a bitset marking exactly the listed rows |
| BfsSlice.Slice | rust/crates/tracemiku-core/src/bfs_slice.rs:167-177 | the backward slice is the walk over dependency rows without a depth bound |
| BfsSlice.SliceMulti | rust/crates/tracemiku-core/src/bfs_slice.rs:271-312 | marks the combination of the per-seed slices, lists it ascending (a single seed's in discovery order), and is truncated if any of them was |
| BfsSlice.CombinedMeans | rust/crates/tracemiku-core/src/bfs_slice.rs:293-304 | union marks the rows of some seed's slice, intersection those of every seed's slice |
| BfsSlice.UnionIsJointSlice | rust/crates/tracemiku-core/src/bfs_slice.rs:255-258 | uncapped, uniting the per-seed slices gives the slice of all seeds at once |
| DependencySpec.LastDefMeans | rust/crates/tracemiku-core/src/analysis_index.rs:268-291 | the look-back for a register finds the one last record before i that defines it |
| DependencySpec.LastWriterMeans | rust/crates/tracemiku-core/src/analysis_index.rs:304-316 | the look-back for a byte finds the one last record before i that stores to it |
| DependencySpec.LastCondMeans | rust/crates/tracemiku-core/src/analysis_index.rs:253-264 | the control source is the last conditional branch with no call, return or other conditional since |
| DependencySpec.EdgesPointBack | rust/crates/tracemiku-core/src/analysis_index.rs:252-322 | every edge of a row points to a strictly earlier record |
| DependencySpec.RowIsUnique | rust/crates/tracemiku-core/src/analysis_index.rs:324-325 | the edge set, sorted strictly by (idx, kind), leaves one possible row |
| DependencySpec.SlicesLookBack | rust/crates/tracemiku-core/src/bfs_slice.rs:155-157 | a backward slice over a trace's own dependencies never reaches past its latest seed |
| DependencySpec.KindsAddUp | rust/crates/tracemiku-core/src/analysis_index.rs:326-337 | the four per-kind counts of an edge list add up to its length |
| Counters.KindCounts | rust/crates/tracemiku-core/src/analysis_index.rs:326-337 | each of them is the number of edges of the kind |
| DependencySpec.OneControlEdge | rust/crates/tracemiku-core/src/analysis_index.rs:253-264 | a row has at most one control edge, counted when present |
| AnalysisIndex.RegEdges | rust/crates/tracemiku-core/src/analysis_index.rs:266-291 | register edges are exactly: used register with an earlier definition, as an address, as data, or both |
| AnalysisIndex.MemEdges | rust/crates/tracemiku-core/src/analysis_index.rs:293-321 | memory edges are exactly the last writers of the loaded bytes; loads without any are counted as initial |
| AnalysisIndex.BuildRow | rust/crates/tracemiku-core/src/analysis_index.rs:252-325 | the row built from the carried maps is the sorted set of control, register and memory edges of the definition, looked up over the whole past |
| AnalysisIndex.StoreAll | rust/crates/tracemiku-core/src/analysis_index.rs:343-363 | after a record's stores the carried map again names the last writer of every byte |
| AnalysisIndex.Classify | rust/crates/tracemiku-core/src/analysis_index.rs:365-377 | calls and returns clear the pending conditional, a conditional becomes it; each is counted once |
| AnalysisIndex.Build | rust/crates/tracemiku-core/src/analysis_index.rs:206-378 | for every trace the streamed compressed rows are the defined ones, row by row, offsets run from 0 to the edge count, and the summary counters equal the counts over edges and records |
| Counters.SummaryCounts | rust/crates/tracemiku-core/src/analysis_index.rs:293-320 | loads, stores, loads of bytes nothing stored before, calls, returns and conditional branches are counted exactly, as sizes of sets of operands and records |
| WriterAgreement.WritersAgree | rust/crates/tracemiku-core/src/analysis_index.rs:304-316 | where all stored bytes are known, a row's last writer of a byte is the latest write in the memory shadow's history of it |
| Transpose.BucketCounts | rust/crates/tracemiku-core/src/forward_dep_tree.rs:80-88 | an incoming bucket holds a source with each edge kind as often as the source's row holds that edge |
| Transpose.BucketAscends | rust/crates/tracemiku-core/src/forward_dep_tree.rs:105-115 | sources ascend within a bucket and are in range |
| Transpose.EveryEdgeHasASlot | rust/crates/tracemiku-core/src/forward_dep_tree.rs:90-99 | bucket sizes add up to the number of in-range edges, so the arrays are filled exactly |
| DependencyUsers.PrefixSums | rust/crates/tracemiku-core/src/forward_dep_tree.rs:90-97 | offsets are the running sums of the counts, each held at the 32-bit maximum where it would exceed it |
| DependencyUsers.OverrunIffTooMany | rust/crates/tracemiku-core/src/forward_dep_tree.rs:90-116 | with saturated offsets some bucket slot falls outside the arrays if and only if the in-range edges do not fit 32 bits |
| DependencyUsers.CountIncoming | rust/crates/tracemiku-core/src/forward_dep_tree.rs:80-88 | pass one counts the in-range edges into each row |
| DependencyUsers.FillBuckets | rust/crates/tracemiku-core/src/forward_dep_tree.rs:99-116 | pass two writes every slot of every bucket once, in source order, overrunning none |
| DependencyUsers.Build | rust/crates/tracemiku-core/src/forward_dep_tree.rs:75-124 | row p of the result is, in ascending source order and with multiplicity, every (s, kind) whose in-range row s holds edge (p, kind) |
| ForwardSpec.ShownEdgesExactly | rust/crates/tracemiku-core/src/forward_dep_tree.rs:237-275 | emitted edges are exactly the allowed edges from nodes below the depth cap into emitted nodes |
| ForwardSpec.ShownEdgesTimes | rust/crates/tracemiku-core/src/forward_dep_tree.rs:237-275 | each emitted edge is emitted as often as its row holds it |
| ForwardSpec.EdgesConserved | rust/crates/tracemiku-core/src/forward_dep_tree.rs:231-276 | emitted plus hidden edges is what the shown nodes' rows offer, for every depth and node cap |
| ForwardDepTree.Turn | rust/crates/tracemiku-core/src/forward_dep_tree.rs:230-268 | one turn of the loop is one visit of the reference walk, with its edges followed or, at the depth cap, counted as hidden |
| ForwardDepTree.Discover | rust/crates/tracemiku-core/src/forward_dep_tree.rs:207-269 | nodes, depths and `truncated` are those of the reference walk with the depth and node caps |
| ForwardDepTree.ForwardTreeFrom | rust/crates/tracemiku-core/src/forward_dep_tree.rs:202-284 | the returned tree: walk nodes, the followed edges between shown nodes, and the number of edges hidden |
| SliceDuality.BackwardIffForward | rust/crates/tracemiku-core/src/forward_dep_tree.rs:202-284 | row t is in the backward slice of s exactly when s is a node of the forward tree of t (no node cap, depth at least n, same edge filter), for all s, t < n |
| SliceDuality.UsersTranspose | rust/crates/tracemiku-core/src/forward_dep_tree.rs:67-124 | the transposed rows step from t to v exactly where the dependency rows step from v to t |
| SliceDuality.SliceIsReach | rust/crates/tracemiku-core/src/bfs_slice.rs:167-231 | an uncapped backward slice is everything reachable from its seeds, through data edges alone where asked |
| SliceDuality.ForwardTreeMeans | rust/crates/tracemiku-core/src/forward_dep_tree.rs:202-284 | every node once, within the caps, at its true distance; every edge from a node below the depth cap to a node, as asked, and no other |
| SliceDuality.ForwardEdgesConserved | rust/crates/tracemiku-core/src/forward_dep_tree.rs:230-276 | with control edges kept, emitted plus hidden edges equals the sum of out-degrees over emitted nodes |
| SliceDuality.ForwardTruncatedIff | rust/crates/tracemiku-core/src/forward_dep_tree.rs:254-261 | the tree's `truncated` is raised exactly when a row within the depth bound is not shown |
| CallTreeUncapped.NothingCutFrom | rust/crates/tracemiku-core/src/calltree.rs:138-145 | from a cap of the number of events on nothing is cut, and the tree is recursive descent without any cap |
| CallTreeUncapped.CappedIsUncappedCut | rust/crates/tracemiku-core/src/calltree.rs:138-145 | for every event sequence and every d, the tree capped at d is the uncapped tree cut at depth d, each cut node recording how many real nodes lay below it (none when zero) |
| CallTreePruning.CappingIsPruning | rust/crates/tracemiku-core/src/calltree.rs:138-145 | the same between any two caps: the smaller cap prunes the tree of the greater, counting what either cut away |
| CallTreePruning.EveryCallCounted | rust/crates/tracemiku-core/src/calltree.rs:126-168 | nodes below the root plus all cut-away calls number exactly the call events |
| CallTreeShape.TreeNests | rust/crates/tracemiku-core/src/calltree.rs:126-179 | children's intervals lie inside their parent's, siblings follow one another, depth is parent depth + 1 and at most the cap |
| CallTreeNodes.NodesAreCalls | rust/crates/tracemiku-core/src/calltree.rs:99-180 | the nodes below the root are exactly the calls with fewer than the cap open around them: each begins at its call, ends at its return or with the trace, is as deep as calls are open, and its function is where the record after the call lands, with that PC's name |
| CallTrees.BalanceCountsMissingFrames | rust/crates/tracemiku-core/src/calltree.rs:138-160 | with `cap_balance` at b the loop skips to the return that closes the b missing frames, counting the calls in between as cut |
| CallTrees.LoopReadsBody | rust/crates/tracemiku-core/src/calltree.rs:126-168 | the stack machine reads a balanced run of events as recursive descent does |
| CallTrees.BuildFromEvents | rust/crates/tracemiku-core/src/calltree.rs:99-180 | stack and counter together return the recursive-descent tree, for every event sequence and cap |
| CallEvents.SequentialMeans | rust/crates/tracemiku-core/src/calltree.rs:62-70 | the sequential events are exactly the call and return records, ascending |
| CallEvents.TraceEvents | rust/crates/tracemiku-core/src/calltree.rs:62-70 | in a trace they are a call for every record that calls and a return for every other one that returns |
| CallEvents.IndexedEventsAgreeIff | rust/crates/tracemiku-core/src/calltree.rs:82-95 | one decode per PC yields the sequential events if and only if no PC changes its call/return class |
| CallEvents.IndexedEvents | rust/crates/tracemiku-core/src/calltree.rs:82-95 | whatever order the index yields its PCs in, the sorted events are the trace's events as classified by first occurrence |
| CallEvents.IndexedTreeAgrees | rust/crates/tracemiku-core/src/calltree.rs:76-97 | where every PC keeps its class the indexed builder returns the sequential tree |
| CallEvents.DifferentCallsDifferentTrees | rust/crates/tracemiku-core/src/calltree.rs:99-180 | event lists with different numbers of calls make different trees, whatever the cap |
| CallEvents.IndexedTreeMayDiffer | rust/crates/tracemiku-core/src/calltree.rs:82-95 | a two-record trace whose PC changes its class and whose two trees differ, whatever the cap |
| CallEvents.TraceTreeNests | rust/crates/tracemiku-core/src/calltree.rs:60-97 | the tree of a trace nests |
| CallEvents.BuiltIndexIsPcIndex | rust/crates/tracemiku-core/src/calltree.rs:83-93 | the PC lists of a built index are what the indexed builder relies on |
| CallEvents.BuildCallTree | rust/crates/tracemiku-core/src/calltree.rs:60-72 | the sequential builder returns the recursive-descent tree of the trace's events |
| CallEvents.BuildCallTreeIndexed | rust/crates/tracemiku-core/src/calltree.rs:76-97 | the indexed builder returns that tree for the events by first occurrence |
| IndexSpec.RangesMerge | rust/crates/tracemiku-core/src/index.rs:282-314 | indexing two adjacent record ranges apart and merging is indexing them together, every list and map alike |
| IndexSpec.DefsListed | rust/crates/tracemiku-core/src/index.rs:248-250 | a register's list holds exactly its defining records in order, once each where no record names it twice |
| IndexSpec.UsesListed | rust/crates/tracemiku-core/src/index.rs:251-253 | the same for uses |
| IndexSpec.PcListed | rust/crates/tracemiku-core/src/index.rs:238-239 | a PC's list holds exactly its records, strictly ascending |
| IndexSpec.BranchesListed | rust/crates/tracemiku-core/src/index.rs:242-247 | conditional branches and call/return boundaries are listed exactly, strictly ascending |
| IndexMemory.AddressesListed | rust/crates/tracemiku-core/src/index.rs:256-277 | the lists of a byte address hold exactly the records that store to it, and that load from it, in order, with ranges kept at the last address where they would run past it |
| IndexMemory.EntriesListed | rust/crates/tracemiku-core/src/index.rs:256-277 | the store and load entries run in trace order and are, record by record, exactly the operands of that kind that have a base, in operand order |
| IndexBuild.BuildRange | rust/crates/tracemiku-core/src/index.rs:235-280 | the worker loop builds the index of its range |
| IndexBuild.MergePartials | rust/crates/tracemiku-core/src/index.rs:282-314 | merging appends lists key by key, in chunk order, whatever order a chunk's maps are walked in |
| IndexBuild.Build | rust/crates/tracemiku-core/src/index.rs:160-192 | for every record and worker count the result is the sequential index of the whole trace |
| Chunks.ChunksCoverAll | rust/crates/tracemiku-core/src/index.rs:174-177 | div_ceil chunks of all workers cover every record |
| Chunks.ChunkFollows | rust/crates/tracemiku-core/src/index.rs:178-182 | each chunk starts where the one before ended; empty ones change nothing |
| Postings.AppendInto | rust/crates/tracemiku-core/src/index.rs:286-310 | draining one map of lists into another appends each list to its key's |
| IndexQueries.BinarySearch | rust/crates/tracemiku-core/src/index.rs:198-203 | finds some position of the key, or the insertion point |
| IndexQueries.BeforeIsRightIff | rust/crates/tracemiku-core/src/index.rs:196-214 | taking the element before the hit is the last one below the cursor for every search the library may do, if and only if the list names the cursor at most once |
| IndexQueries.LastDefBefore | rust/crates/tracemiku-core/src/index.rs:196-214 | the last definition strictly before the cursor, or none |
| IndexQueries.NextUseAfter | rust/crates/tracemiku-core/src/index.rs:218-223 | the first use strictly after the cursor, or none |
| IndexQueries.QueryIsLookBack | rust/crates/tracemiku-core/src/index.rs:196-214 | on a built index the query equals the look-back the dependency rows are defined by |
| IndexQueries.BuiltListsNameOnce | rust/crates/tracemiku-core/src/index.rs:248-250 | with distinct registers per record every cursor occurs at most once in a built list |
| ByteHistory.NoGapOraclesAgree | rust/crates/tracemiku-core/src/memshadow.rs:523-662 | without a gap the load-inclusive byte just before t and the store-only input byte at t are the same |
| ByteHistory.ReadsNeverCount | rust/crates/tracemiku-core/src/memshadow.rs:561-577 | deleting all loads changes neither `input_byte` nor the latest write |
| MemShadowQueries.SnapshotByteAt | rust/crates/tracemiku-core/src/memshadow.rs:175-184 | the binary search answers from the last region that starts at or before the address, for any regions sorted by base |
| MemShadowQueries.CapturedFindsIff | rust/crates/tracemiku-core/src/memshadow.rs:138-184 | every captured address is answered if and only if no region starts inside an earlier one, ends before it and is the last to start at its own end |
| MemShadowQueries.CapturedWasThere | rust/crates/tracemiku-core/src/memshadow.rs:175-184 | an answered byte is one that some region captured at that address |
| MemShadowQueries.QueryByteAt | rust/crates/tracemiku-core/src/memshadow.rs:523-550 | the halving search returns the last event at or before t, else the snapshot, else unknown |
| MemShadowQueries.LatestWriteIdxStrictBefore | rust/crates/tracemiku-core/src/memshadow.rs:561-577 | the record of the last store or external write before t |
| MemShadowQueries.QueryInputByte | rust/crates/tracemiku-core/src/memshadow.rs:639-662 | the last store in the window, else the snapshot when the window starts at zero, else unknown |
| MemShadowQueries.UnloggedWriteGapBefore | rust/crates/tracemiku-core/src/memshadow.rs:582-634 | a gap is reported exactly if some load since the last write (or since the snapshot) disagrees, and it names the first such load |
| ShadowSpec.ShadowsMerge | rust/crates/tracemiku-core/src/memshadow.rs:803-819 | shadowing two adjacent ranges apart and merging is shadowing them together |
| ShadowSpec.HistoriesListed | rust/crates/tracemiku-core/src/memshadow.rs:1015-1029 | each byte's history is in record order and holds exactly the bytes moved there, by kind |
| ShadowAccesses.AccessesListed | rust/crates/tracemiku-core/src/memshadow.rs:752-785 | stores and loads with a base and known bytes are listed in trace order, each once, in operand order, with the number their first eight bytes spell |
| ShadowSpec.OraclesAreReplay | rust/crates/tracemiku-core/src/memshadow.rs:523-662 | on a built shadow both oracles give what replaying the trace leaves at the address, with its kind and record: all accesses up to t over the snapshot, or the stores of any window over the snapshot if it starts at zero |
| MemShadowBuild.SplatByteSlice | rust/crates/tracemiku-core/src/memshadow.rs:1015-1029 | one event per byte, at wrapping addresses |
| MemShadowBuild.BuildRange | rust/crates/tracemiku-core/src/memshadow.rs:745-801 | the worker loop builds the shadow of its range |
| MemShadowBuild.MergePartials | rust/crates/tracemiku-core/src/memshadow.rs:803-819 | merging appends in chunk order |
| MemShadowBuild.Build | rust/crates/tracemiku-core/src/memshadow.rs:280-314 | for every record and worker count the result is the sequential shadow |
| ExternalWrite.ByteAtAfterWrite | rust/crates/tracemiku-core/src/memshadow_ext.rs:191-202 | an inserted write changes the load-inclusive oracle only from its record to the address's next event, where it shows the new byte |
| ExternalWrite.InputByteAfterWrite | rust/crates/tracemiku-core/src/memshadow_ext.rs:191-202 | it changes the store-only oracle only in windows that hold it with no later store |
| ExternalWrite.WithWriteSorted | rust/crates/tracemiku-core/src/memshadow_ext.rs:189-202 | event lists stay sorted |
| ExternalWrite.WithWriteTraced | rust/crates/tracemiku-core/src/memshadow_ext.rs:189-202 | no traced event is moved or lost |
| ExternalWrite.WithWriteAgrees | rust/crates/tracemiku-core/src/memshadow_ext.rs:191-202 | a write that matches the load after it adds no contradiction |
| ExternalWrite.ConfirmedWriteClosesGap | rust/crates/tracemiku-core/src/memshadow_ext.rs:246-251 | a write confirmed by the next load closes the gap there |
| MemShadowExt.InsertOrderedWriteEvent | rust/crates/tracemiku-core/src/memshadow_ext.rs:191-202 | inserts after everything at or before idx, and refuses exactly if a write stands at idx |
| MemShadowExt.KnownByteAtOrBefore | rust/crates/tracemiku-core/src/memshadow_ext.rs:159-178 | the oracle's byte at idx, falling back to the snapshot |
| MemShadowExt.FirstPostCallReadBeforeWrite | rust/crates/tracemiku-core/src/memshadow_ext.rs:182-187 | the byte of the first event after idx if that is a load |
| MemShadowExt.MemShadow.GatherSource | rust/crates/tracemiku-core/src/memshadow_ext.rs:216-251 | source bytes are those before the call, and the copy is verified exactly if no load contradicts it and some load confirms a changed byte |
| MemShadowExt.MemShadow.TrySynthesizeMemCopy | rust/crates/tracemiku-core/src/memshadow_ext.rs:205-274 | verified: each known destination byte without a write at idx gets the pre-call source byte, listed and traced to its source, nothing else changes; not verified: nothing changes at all |
| MemShadowExt.MemShadow.TrySynthesizeMemset | rust/crates/tracemiku-core/src/memshadow_ext.rs:276-321 | the same for a constant fill |
| MemCallSpec.MoveReadsOldSource | rust/crates/tracemiku-core/src/memshadow_ext.rs:216-218 | overlapping moves copy what was there before the call: each emitted byte reads as its source did |
| MemCallSpec.FillIsLocal | rust/crates/tracemiku-core/src/memshadow_ext.rs:253-271 | at every address and time the oracle is unchanged, except from idx to the next event of an emitted byte |
| MemCallSpec.FillAgrees | rust/crates/tracemiku-core/src/memshadow_ext.rs:228-240 | no byte of a verified fill is contradicted by the load directly after it |
| MemCallSpec.FillKeepsTrace | rust/crates/tracemiku-core/src/memshadow_ext.rs:253-271 | histories stay sorted and keep every traced event |
| MemShadowExt.MemShadow.MergeCall | rust/crates/tracemiku-core/src/memshadow_ext.rs:43-87 | one candidate: an eligible call whose copied bytes the loads bear out is replayed as that copy, else one whose constant byte they bear out as that fill: histories filled, a store listed per byte, sources named, the number returned; any other record changes nothing |
| MemCallRuns.ReplayKeeps | rust/crates/tracemiku-core/src/memshadow_ext.rs:59-87 | however it goes: no more bytes than the budget, stores only appended, traced events, order and agreement kept |
| MemShadowExt.MemShadow.SearchCalls | rust/crates/tracemiku-core/src/memshadow_ext.rs:36-87 | record after record, each call judged by the histories the ones before it left and by the budget still there, until that is spent |
| MemShadowExt.MemShadow.MergeUninstrumentedMemCalls | rust/crates/tracemiku-core/src/memshadow_ext.rs:26-92 | the result is that run's, stores sorted if any were added; histories sorted, traced events intact, external writes only where a call covers them, no contradicted byte added, at most 1 MiB emitted |
| MemCallRuns.RunAddsEvents | rust/crates/tracemiku-core/src/memshadow_ext.rs:36-92 | after a run the histories hold what they held and exactly the bytes that the replayed calls emit, each call judged by what stood there when it was reached |
| MemCallRuns.RunAddsStores | rust/crates/tracemiku-core/src/memshadow_ext.rs:249-263 | the list of stores gains exactly the one-byte stores of those bytes |
| MemCallRuns.RunAddsSources | rust/crates/tracemiku-core/src/memshadow_ext.rs:264-266 | exactly the bytes of replayed copies have a source, and it is the address copied from |
| StoreOrder.SortStable | rust/crates/tracemiku-core/src/memshadow_ext.rs:89-91 | stores of one record and address keep their order when the list is sorted |
| WorkerAnchors.AnchorsInWindow | rust/crates/tracemiku-core/src/memshadow_ext.rs:375-390 | a worker's records are placed in order inside its window, the first at its start |
| WorkerAnchors.LastAnchorIff | rust/crates/tracemiku-core/src/memshadow_ext.rs:388-389 | the last record reaches the end of the window if and only if the product does not saturate |
| WorkerAnchors.AnchorsProportional | rust/crates/tracemiku-core/src/memshadow_ext.rs:384-390 | record i stands at i of len - 1 equal parts of the window, rounded down |
| EdgeCounts.EdgesCount | rust/crates/tracemiku-core/src/cfg.rs:208-213 | each edge carries the number of its observations and the kind of the first |
| EdgeCounts.CountsAddUp | rust/crates/tracemiku-core/src/cfg.rs:208-213 | all edge counts together are the number of observations |
| CfgSpec.HomeMeans | rust/crates/tracemiku-core/src/cfg.rs:262-288 | the running block's start is the PC of the latest record at a start, and no branch lies between |
| CfgSpec.StackEntryIsOpenCall | rust/crates/tracemiku-core/src/cfg.rs:292-309 | what a return pops is the block of the call whose frame has been open since |
| CfgSpec.HomesAreStarts | rust/crates/tracemiku-core/src/cfg.rs:235-242 | blocks are exactly the first PC and every PC following a branch |
| CfgSpec.EndsAreStarts | rust/crates/tracemiku-core/src/cfg.rs:357-363 | both ends of every observed edge are block starts, so none is skipped |
| CfgSpec.ObservedCount | rust/crates/tracemiku-core/src/cfg.rs:258-330 | observations are branches with a successor, falls into a start, and returns with a successor that popped a caller |
| CfgSpec.EdgeCountsConserved | rust/crates/tracemiku-core/src/cfg.rs:208-392 | the sum of edge counts is the number of such branches, falls and returns |
| CfgEdges.TopIsCaller | rust/crates/tracemiku-core/src/cfg.rs:292-309 | the top of the stack is the block of the innermost call still open, counting calls and returns |
| CfgEdges.EdgesAreSeen | rust/crates/tracemiku-core/src/cfg.rs:208-330 | an edge is there exactly if some record shows it: a branch from the block it ends to the next PC, a return from its caller's block to the next PC, a fall from the block left to the one entered; its count is how many do, its kind that of the first |
| CfgSpec.EndIsGreatestIff | rust/crates/tracemiku-core/src/cfg.rs:271-288 | a block's end is the greatest PC of its records if and only if it is not below the start, if and only if some entered record runs at or above the start |
| CfgSpec.EndIsGreatest | rust/crates/tracemiku-core/src/cfg.rs:271-288 | corollary: where PCs grow inside the block its end is its greatest PC |
| CfgSpec.EndIsLastIff | rust/crates/tracemiku-core/src/cfg.rs:31-32 | the end is the PC of the last instruction of every run through the block if and only if every run ends on the highest PC entered |
| CfgSpec.EndMayPrecedeStart | rust/crates/tracemiku-core/src/cfg.rs:271-288 | a two-record trace, PCs 8 and 4, whose block at 8 ends at 4 |
| CfgSpec.EndMayNotBeLast | rust/crates/tracemiku-core/src/cfg.rs:31-32 | a three-record trace, PCs 8, 12 and 4, whose block ends at 12 although its last instruction is at 4 |
| CfgSpec.RunsAreIndexed | rust/crates/tracemiku-core/src/cfg.rs:384-392 | a block's executions are as many as its start's entries in the index |
| CfgBuild.ScanBranchRange | rust/crates/tracemiku-core/src/cfg.rs:570-601 | flags and mnemonics of a range |
| CfgBuild.ScanBranchInfo | rust/crates/tracemiku-core/src/cfg.rs:522-568 | for every worker count the merged flags and mnemonics are those of the whole trace |
| CfgBuild.AssignToBlock | rust/crates/tracemiku-core/src/cfg.rs:259-288 | a record at a start closes the running block and may be fallen into; any other continues it |
| CfgBuild.TakeBranch | rust/crates/tracemiku-core/src/cfg.rs:289-334 | a branch adds its edge, pairs returns with callers, and ends the block |
| CfgBuild.WalkRecords | rust/crates/tracemiku-core/src/cfg.rs:250-343 | the one pass leaves exactly the observed edges and, per block, the greatest settled PC |
| CfgBuild.BuildCfg | rust/crates/tracemiku-core/src/cfg.rs:228-405 | nodes are exactly the block starts with their ends and execution counts; edges are exactly those the records show, from and to where they show them, none dropped |
| RingSlots.StoreKeeps | tracer/src/core/cmodule.ts:84-97 | storing the next record leaves slot k mod R holding record k for every waiting k |
| RingSlots.ChunkIsRecords | tracer/src/core/cmodule.ts:26-31 | the contiguous slots from the tail are the next records in order |
| NativeIo.Disk.WriteAll | tracer/src/core/native_io.ts:61-75 | whatever the pattern of short and failed writes that eventually progresses, every byte arrives once and in order, counted, with retries counted and the error cleared |
| NativeIo.Disk.WriteAt | tracer/src/core/native_io.ts:84-95 | the same at an offset: the file is overwritten there and nowhere else |
| NativeIo.OverwrittenInParts | tracer/src/core/native_io.ts:84-95 | overwriting in two adjacent parts is overwriting at once |
| CaptureRing.Ring.Drain | tracer/src/core/cmodule.ts:24-34 | empties the ring to disk: the file is then every record so far |
| CaptureRing.Ring.Push | tracer/src/core/cmodule.ts:81-98 | appends one record; a full ring is emptied, so there is always room and nothing is overwritten |
| CaptureRing.SamplesAre | tracer/src/core/cmodule.ts:68-76 | the k-th vector record belongs to instruction k times the stride, tagged with its index, none left out |
| CaptureRing.NativeWriter.WriteSimd | tracer/src/core/cmodule.ts:68-76 | a vector record is kept exactly for every stride-th instruction |
| CaptureRing.NativeWriter.OnInsn | tracer/src/core/cmodule.ts:81-100 | records the instruction while capture is on, ignores it after; the first PC is remembered |
| CaptureRing.NativeWriter.FlushTrace | tracer/src/core/cmodule.ts:35-41 | stops capture; the file is every record taken, in order, once each |
| CaptureRing.NativeWriter.FlushSimd | tracer/src/core/cmodule.ts:62-67 | the vector file is exactly the samples |
| CaptureProtocol.StepKeepsInv | tracer/src/core/cmodule.ts:24-100 | every step of every thread keeps: the file is records[0..tail] plus the written part of the chunk in flight, slots hold the waiting records, only the mutex owner is inside |
| CaptureProtocol.FileIsPrefix | tracer/src/core/cmodule.ts:24-41 | at every moment of every interleaving the file is a prefix of the record stream that reaches at least the tail |
| CaptureProtocol.FlushedIsComplete | tracer/src/core/cmodule.ts:35-41 | once capture is stopped and the mutex free, the file is every record produced, in order, once each |
| CaptureProtocol.StoppedForGood | tracer/src/core/cmodule.ts:83 | nothing is produced after the stop, so a flushed file stays complete |
| CaptureProtocol.StoredMeansActive | tracer/src/core/cmodule.ts:81-99 | a callback that found capture on commits under the same hold of the mutex |
| CaptureProtocol.NeverStuck | tracer/src/core/cmodule.ts:24-100 | while some thread is in a call some thread can step |
| BuildGate.StepKeepsInv | rust/crates/tracemiku-core/src/parallel.rs:37-74 | every step keeps: `active` counts the live permits, at most the maximum, and while anybody sleeps the woken are at least the free slots |
| BuildGate.GateHolds | rust/crates/tracemiku-core/src/parallel.rs:25-76 | in every run with one maximum: `active` is the live permits, never above it, and at least min(free, asleep) notified callers are still to run |
| BuildGate.FreeSlotIsTaken | rust/crates/tracemiku-core/src/parallel.rs:37-41 | with a slot free and a caller asleep, some notified caller's next step takes a slot whatever its deadline |
| BuildGate.FailsOnlyWhenFull | rust/crates/tracemiku-core/src/parallel.rs:42-62 | corollary: in every run with one maximum a caller fails only while as many permits are live as it allows, timed out or not |
| BuildGate.ZeroWaitIffFree | rust/crates/tracemiku-core/src/parallel.rs:38-48 | corollary: there, asking without waiting gets a permit exactly when fewer are live, and changes nothing otherwise |
| BuildGate.TwoMaximaLose | rust/crates/tracemiku-core/src/parallel.rs:26-76 | for any two maxima that allow different numbers some run leaves a caller asleep beside a slot free to it with nobody awake to pass the wakeup on |
| BuildGate.NoWakeupLostIff | rust/crates/tracemiku-core/src/parallel.rs:26-76 | for all maxima a and b: no run of any callers asking with a or b loses a wakeup if and only if a and b allow the same number |
| WorkerPlan.WorkersBounded | rust/crates/tracemiku-core/src/parallel.rs:140-155 | at least one worker, never more than the machine offers or than records; by default each further worker needs full chunks before it |
| WorkerPlan.WorkersAreMost | rust/crates/tracemiku-core/src/parallel.rs:140-155 | and it is the greatest such number: exactly the workers that machine, request and records allow |
| Bytes.WordOfLe | rust/crates/tracemiku-core/src/sidecar_io.rs:20-40 | little-endian bytes read back as the number exactly when it fits |
| Codecs.VecExact | rust/crates/tracemiku-core/src/sidecar_io.rs:53-72 | a length-prefixed list is read back exactly when it is within the cap and its elements are |
| Codecs.CapNeverFires | rust/crates/tracemiku-core/src/sidecar_io.rs:64-72 | a cap derived from the file's own length never fires where elements really take the assumed bytes |
| Codecs.TextExact | rust/crates/tracemiku-core/src/sidecar_io.rs:77-86 | a string is read back exactly when it is at most 16 MiB |
| Codecs.ReadVec | rust/crates/tracemiku-core/src/index.rs:435-444 | the reading loop is the codec's reader, refusing at the first bad element |
| Codecs.WriteVec | rust/crates/tracemiku-core/src/index.rs:427-433 | the writing loop is the codec's writer |
| Codecs.PreambleMatchesIff | rust/crates/tracemiku-core/src/index.rs:101-133 | a header is accepted exactly for the trace size and fingerprint it was written for |
| MapListings.ListingRebuilds | rust/crates/tracemiku-core/src/index.rs:344-358 | whatever order a map was written in, inserting the pairs rebuilds it |
| MapListings.WriteMap | rust/crates/tracemiku-core/src/index.rs:329-339 | writes every entry once, in some order |
| MapListings.ReadMap | rust/crates/tracemiku-core/src/index.rs:344-358 | the reading loop inserts the pairs the codec reads |
| IndexSidecar.SidecarReadsBack | rust/crates/tracemiku-core/src/index.rs:97-153 | for any iteration order of the maps, loading a saved index gives it back unchanged exactly if the trace matches and names are within the string limit; no length cap ever fires |
| IndexSidecar.SaveSidecar | rust/crates/tracemiku-core/src/index.rs:97-117 | the file is header and tables, maps listed in some order |
| IndexSidecar.LoadSidecar | rust/crates/tracemiku-core/src/index.rs:119-153 | loading is the table-by-table reader, nothing on the first mismatch |
| AnalysisSidecar.SavedLoadsIff | rust/crates/tracemiku-core/src/analysis_index.rs:418-484 | a saved analysis loads again if and only if trace and symbols match, texts and call tree are within their limits, and 88 bytes per PC and 57 per function fit the file |
| AnalysisSidecar.RowOffsetsMakeUp | rust/crates/tracemiku-core/src/analysis_index.rs:728-803 | those two caps hold whenever there are no more PCs or functions than records, because the row offsets supply 8 bytes per record |
| AnalysisSidecar.CapCanFire | rust/crates/tracemiku-core/src/analysis_index.rs:745-765 | without them a legitimate file is refused: forty PCs of empty text |
| BuiltAnalysis.BuiltAnalysisLoads | rust/crates/tracemiku-core/src/analysis_index.rs:380-484 | what a build produces always loads again, texts and call tree within their limits |
| FunctionSummaries.CollectFunctionSummaries | rust/crates/tracemiku-core/src/analysis_index.rs:566-589 | one fold over the nodes, parents first; from nothing and over a tree, a key is present exactly if some proper descendant has it, with how many have it, the records they span, earliest entry, latest exit and greatest depth |
| FunctionSummaries.CallCountsAddUp | rust/crates/tracemiku-core/src/analysis_index.rs:545-589 | the call counts of all functions add up to the nodes below the root |
| FunctionSummaries.EveryCallSummarised | rust/crates/tracemiku-core/src/analysis_index.rs:545-589 | from a cap of the number of events on, they add up to the number of call events |
| FunctionSummaries.SummariesSumUp | rust/crates/tracemiku-core/src/analysis_index.rs:566-589 | over any list of nodes, a key has a summary exactly if some node below the top level has it, and it sums up exactly those |
| FunctionSummaries.NoMoreFunctionsThanCalls | rust/crates/tracemiku-core/src/analysis_index.rs:545-564 | no more function summaries than call events |
| PcSummaries.TallyPcs | rust/crates/tracemiku-core/src/analysis_index.rs:229-235 | one summary per PC run, with its first and last record and its counts |
| Counters.PcCounts | rust/crates/tracemiku-core/src/analysis_index.rs:229-240 | the sums of one PC are the sizes of the same sets among its records |
| PcSummaries.CountIsListLength | rust/crates/tracemiku-core/src/analysis_index.rs:234 | a PC's record count is the length of its list in the index |
| SeedLiveness.RunResolves | tools/vm_replay_plan_eval.py:291-301 | a run leaves no read unresolved exactly if every slot read before written is present and no text is unknown |
| SeedLiveness.RunAgrees | tools/vm_replay_plan_eval.py:198-267 | runs from states that agree on the slots they share agree on everything the plan writes |
| SeedMinimality.MoreSeedsSameRun | tools/vm_replay_plan_eval.py:198-301 | adding seeds to a run without unresolved reads changes neither its memory nor any slot it writes |
| SeedMinimality.EquivalentIff | tools/vm_replay_plan_eval.py:549-555 | a subset of the seeds replays equivalently exactly when the full set resolves and every needed seed is kept |
| SeedMinimality.MinimalPreserves | tools/vm_replay_plan_eval.py:558-575 | the minimised seeds replay to the same final slots and memory |
| SeedMinimality.MinimalIsOneMinimal | tools/vm_replay_plan_eval.py:558-575 | dropping any one remaining seed that is not the user's breaks equivalence |
| SeedMinimality.MinimalIsLeast | tools/vm_replay_plan_eval.py:558-575 | every equivalent seed set that keeps the user's contains the minimised one |
| ReplayPlan.ReplayState.EvalExpr | tools/vm_replay_plan_eval.py:71-125 | evaluation in place yields the value of the semantics and records exactly its unresolved reads |
| ReplayPlan.ReplayState.WriteMem | tools/vm_replay_plan_eval.py:193-195 | stores the bytes of the value at consecutive addresses |
| ReplayPlan.ReplayState.ApplyEffect | tools/vm_replay_plan_eval.py:198-267 | one effect: computed, trusted or skipped, and what it writes |
| ReplayPlan.ReplayThePlan | tools/vm_replay_plan_eval.py:291-301 | the nested loops run the effects of all steps in order from the seeded slots |
| ReplayPlan.SurvivingStep | tools/vm_replay_plan_eval.py:564-574 | trying one slot drops it exactly when it is not the user's and the replay stays equivalent |
| ReplayPlan.MinimizeAutoSeedSlots | tools/vm_replay_plan_eval.py:558-575 | the single greedy pass returns the least equivalent seed set |
| ReplayEffects.EvalDenotes | tools/vm_replay_plan_eval.py:71-125 | evaluation finds a value exactly where there is one: slots whole, `low8` their low eight bits, loads the observed or else the source byte, operators on their operands in order |
| ReplayEffects.EvalAsks | tools/vm_replay_plan_eval.py:71-125 | it notes exactly the slot reads without a slot and the texts not understood, left to right |
| ReplayEffects.ApplyYields | tools/vm_replay_plan_eval.py:91-123 | every operator yields exactly its value: sums and differences modulo 2^64, the others bit by bit |
| ReplayEffects.ApplySteps | tools/vm_replay_plan_eval.py:198-267 | one effect: its value if it has one, else the observed one where trusted, else nothing, with its counter; a slot takes it modulo 2^64, memory its bytes at the recorded width or the fewest of 1, 2, 4, 8 that hold it |
| ReplayEffects.ByteOfIs | tools/vm_replay_plan_eval.py:193-195 | a stored byte is the one at its position, for negative values too |
| ReplayEffects.ReplaySteps | tools/vm_replay_plan_eval.py:289-301 | a replay is effect after effect from the seeds cut to 64 bits, and nothing else |
| ReplayEffects.SlotCopies | tools/vm_replay_plan_eval.py:77-85 | a plan that copies a slot leaves it whole, one that copies its low byte leaves its low eight bits, and no other slot changes |
| ReplayMeaning.AddIsSum | tools/vm_replay_plan_eval.py:99-100 | `add` is the sum modulo 2^64 |
| ReplayMeaning.SubIsDifference | tools/vm_replay_plan_eval.py:101-105 | `sub` is the first operand less the others modulo 2^64; a lone operand is not cut |
| ReplayMeaning.BitwiseOperators | tools/vm_replay_plan_eval.py:106-119 | `and`, `orr`, `eor` combine each of the low 64 bit positions alone, nothing above them |
| ReplayMeaning.ShiftsMoveBits | tools/vm_replay_plan_eval.py:120-123 | `lsl` and `lsr` move bits and drop what leaves the low 64 positions |
| ReplayMeaning.StoredMeans | tools/vm_replay_plan_eval.py:193-195 | a store sets exactly the bytes of its range |
| ReplayMeaning.StoreSpellsValue | tools/vm_replay_plan_eval.py:193-195 | the stored bytes, lowest first, spell the value cut to the width |

## Left out

- Instruction decoding, operand addresses, symbol lookup and trace mapping: parameters of the model.
- DependencyUsers.Build: requires fewer than 2^32 - 1 rows, as the code asserts, and an edge total that fits 32 bits; beyond
  that the code overruns its arrays (`DependencyUsers.OverrunIffTooMany`), and that failure itself is not modelled.
- DependencyUsers.CountIncoming: requires every bucket's count to fit 32 bits; overflow of a counter is not modelled.
- CallTrees.BuildFromEvents: `cap_balance` and `truncated_children` are unbounded, not 32 bits wide.
- CfgBuild.BuildCfg: edge counters are unbounded (the code saturates at 2^64), `pc + 4` does not wrap, and the
  strongly connected components and the graph library's node numbers are not modelled.
- AnalysisIndex.StoreAll: carries only who wrote a byte last, not the byte's value.
- AnalysisIndex.Build: register checkpoints, the last byte values per address and the summary's unique-PC, function and
  tree-depth figures are not part of the rows and not modelled.
- MemShadowExt.MemShadow.MergeCall: whether the record calls out and returns at once is a given flag.
- MemShadowExt.MemShadow.MergeUninstrumentedMemCalls: whether a record calls out and returns at once is a given flag;
  the library sort of the store list is modelled as a stable insertion.
- MemShadowBuild.Build: worker traces and external-write files merged after the parallel build, and memory budgets, are
  not modelled.
- MemShadowQueries.SnapshotByteAt: the parsing of the snapshot file is not modelled, only that it sorts regions by base.
- CaptureRing.NativeWriter.OnInsn: the byte layout inside a record, `fsync` and the system-call event hook are not modelled.
- NativeIo.Disk.WriteAll: sleeping between retries is not modelled; that some later call takes a byte is a premise.
- CaptureProtocol.StepKeepsInv: the bytes of one record are stored in one step, which the mutex allows.
- BuildGate.GateHolds: the order in which sleepers are notified and lock poisoning are not modelled.
- AnalysisSidecar.SavedLoadsIff: the call tree travels as opaque text, its JSON round trip is not modelled; UTF-8 is any
  encoding that decodes what it encodes.
- BuiltAnalysis.BuiltAnalysisLoads: here too the call tree is opaque text, within the string limit.
- IndexSidecar.SaveSidecar: the temporary file, flush and rename are not modelled.
- ReplayPlan.ReplayState.EvalExpr: requires the operand counts the operators need; with fewer the evaluator raises, or
  returns nothing if an operand is unresolved, and neither is modelled.
- ReplayPlan.ReplayState.ApplyEffect: the write log, the log of trusted writes and the seed suggestions are not modelled.
- ReplayPlan.ReplayThePlan: plans are syntax trees, their text is not parsed; negative slot numbers and negative source
  bytes are excluded.
- PcSummaries.TallyPcs: the assembly text of a PC is not modelled.
- Table-matching parts without an invariant to prove: indirect-dispatch injection, string finding, hex dumps, slice edge
  statistics, fingerprint tables.
- Device side beyond the ring: agent hooks, transfer, host capture and report printing.
