# Packed graph: model and proofs

A Dafny model of a parallel packed-memory-array graph and of the layers above
it, with proofs. One gapped array holds, for each vertex, a sentinel followed by
its edges in increasing order of destination; the vertex table points at the
sentinels. Insertions slide items, redistribute a leaf, climb an implicit tree of
aligned windows by density and may double the array; removals mirror that and may
halve it. Many threads work on the array under leaf locks with versions and a
hand-made global lock.

The array and the vertex table are overwritten in place by the methods of a class,
as in the original. Each method is proved to compute a function of the old array;
what the program promises is proved about those functions. Concurrency is modelled
as state machines over atomic steps of any number of threads.

| file | what it models |
|---|---|
| Arithmetic, Geometries, Windows | sizes, the tree of windows, densities, climbs |
| Wrappers, Slots, Spreading, Moves, Pointers | items and their order, the graph they stand for, redistribution, the vertex table |
| Insertion, Removal, Search, Neighbourhood, Updates | what one insertion, removal or search does, and what that means for the graph |
| Locking | which leaves an operation has to hold, and the outcomes of lock acquisition |
| Building, Calls, PCSR, Runs | the calls as functions of the state before them, the class that computes them, whole runs |
| Balance | how much room redistribution leaves |
| Limits, Halving, StrandedRun, LoneRun | where the program fails, and runs that lead there |
| FastLock, Protocol | the global lock; leaf locks, versions and the global lock together |
| Bfs | breadth-first search |
| Partitions, PPPCSR, ThreadPool, Workers | partitions as one graph, threads and domains, registration |

Main results:

- From the constructor on, any sequence of calls that are allowed in turn leaves
  the array equal to the map that the same puts and deletes give, with membership,
  values and sorted neighbourhoods read off it, until an insertion strands an item
  in the last slot. The sequence of calls alone decides whether and when that happens.
  With two vertices, all calls on existing vertices are allowed; with one, a run
  leads to a removal that would halve an array of 8 slots and leave no tree.
- The exact condition for that, on the state before the call: the place the search
  finds is occupied, the slide from there runs from a leaf that is not the last one
  to the last slot, and the window redistributed last, which is the one lock
  acquisition planned or else the one a second climb finds, stops short of the end.
- A run of 24 calls from the constructor on reaches such a state, and the next call
  strands an edge. The stranded edge is missing from `get_neighbourhood`, and only
  that one; `edge_exists` and `find_value` still see it, since the slot before it is
  always occupied then. In general they miss an edge exactly if it is in the last
  slot, the slot before it is empty, and its source's sentinel is not right before
  that one.
- The leaf locks taken before an insertion or removal cover every slot it writes.
  An insertion under them never doubles the array; for a removal it is predicted
  exactly whether it halves. What is held stays enough whatever other threads write
  into other leaves, and held leaves stay as they are. Every leaf that a call changes
  under them has a new version when they are released. For a removal they are exactly
  the leaves of the window it redistributes.
- The check of the place after locking decides for every slot. Of the empty slots
  outside the vertex's range it accepts those between edges of other vertices:
  there only the version of the leaf tells that the index is outdated.
- The global lock excludes in every interleaving if `arrived_threads` is loaded
  before `thread_counter`, and only then. The language leaves the order of the two
  loads open; in the other order a registration between the loads breaks exclusion,
  and nothing else does. In either order `lock` returns once every registered thread
  has arrived.
- Threads that are in the middle of something never wait only for each other: one of
  them has a step, or a spinning `lock` waits for an idle registered thread. An
  unchanged version means an unchanged leaf.

## Assumptions

- Densities and steps are exact rationals: the bounds of a level are compared after
  cross-multiplication, and the running index of `redistribute` is kept as a
  numerator over the number of items.
- Positions and sizes are unbounded integers (the original needs N < 2^31);
  `src`, `dest` and `value` are 32-bit.
- `dest` and `value` of an edge are not `UINT32_MAX`, which marks sentinels.
- A removal does not halve an array of 8 slots, below which the tree collapses
  (`Limits`); with two vertices it never does. A removal names an existing vertex,
  which the original does not check.
- Every change starts from a free last slot; slides off the end are then
  unreachable. Reads do not need that.
- Whether another thread has changed a leaf by the time an attempt of `add_edge`
  locks it is a parameter, one truth value for each attempt.
- `realloc` and the NUMA allocation give a fresh array with the old contents up to
  the shorter length and arbitrary contents behind it; `bsr` is floor(log2).
- The loops of `redistribute`, `insert`, `remove` and of lock acquisition are
  methods of their own.

## Model

| member | source | states |
|---|---|---|
| Spreading.SpreadAt | src/pcsr/PCSR.cpp:237-248 | item k of j in a window of `len` slots ends at offset floor(k*len/j) |
| Spreading.RebalanceLive | src/pcsr/PCSR.cpp:222-249 | redistributing a window keeps the sequence of items of the whole array |
| Spreading.RebalanceSlots | src/pcsr/PCSR.cpp:222-249 | redistributing a window touches nothing outside it |
| Spreading.HalfSpreadStep | src/pcsr/PCSR.cpp:242-247 | the slot an item is swapped into is its own or an empty one beyond every unmoved item, so no unmoved item is overwritten |
| Spreading.SpreadEven | src/pcsr/PCSR.cpp:236-248 | each of the equal parts of a freshly spread window holds the window's items divided by the number of parts, rounded down or up |
| Moves.MovePoints | src/pcsr/PCSR.cpp:242-247 | one swap plus `fix_sentinel` makes every pointer right that refers to a slot behind the unmoved items |
| Pointers.FixedNodesPoint | src/pcsr/PCSR.cpp:168-183 | `fix_sentinel` makes the entries of its own sentinel right and disturbs those of no other sentinel |
| Pointers.NodeRange | src/pcsr/PCSR.cpp:168-183 | in a well-formed array a vertex begins at its sentinel and ends at the next vertex's sentinel, the last one at the last slot |
| PackedCsr.PCSR.FixSentinel | src/pcsr/PCSR.cpp:168-183 | the sentinel's owner begins at the slot and the vertex before it ends there, the last vertex ends at the last slot, every other entry is kept, and nothing changes for an item that is no sentinel |
| PackedCsr.PCSR.Pack | src/pcsr/PCSR.cpp:224-231 | the first loop leaves the window's items packed at its left end, in order |
| PackedCsr.PCSR.SpreadOut | src/pcsr/PCSR.cpp:237-248 | the last loop takes the packed window to the spread one, and every pointer outside the unmoved items is right throughout |
| PackedCsr.PCSR.Redistribute | src/pcsr/PCSR.cpp:222-249 | the array is the old one with the window spread evenly; all `beginning`/`end` entries are right, also for an empty window that does not start at 0 |
| PackedCsr.PCSR.SlideRight | src/pcsr/PCSR.cpp:326-355 | the run from `index` to the first hole moves right by one slot, slot `index` is empty, all pointers follow |
| Insertion.SlideInsertLive | src/pcsr/PCSR.cpp:326-355 | after the slide the new item stands between the items before `index` and those from it on |
| Geometries.ResizePow2 | src/pcsr/PCSR.cpp:68-73 | for every power of two from 8 on the sizes are defined and fit together |
| Geometries.GeometryFacts | src/pcsr/PCSR.cpp:68-73 | log2 N < logN <= 2*log2 N, logN divides N, the number of leaves is 2^H, H is at least 1 |
| Geometries.LeafCountDoubles | src/pcsr/PCSR.cpp:251-267 | when the array doubles, the number of leaves stays or doubles |
| PackedCsr.PCSR.ResizeEdgeArray | src/pcsr/PCSR.cpp:68-73 | for a power of two from 8 on: N is the new size, logN a power of two with log2 N < logN <= 2*log2 N that divides N into 2^H leaves, H at least 1 |
| PackedCsr.PCSR.DoubleList | src/pcsr/PCSR.cpp:251-282 | the items, in order, are spread over twice as many slots; pointers are right; leaves keep their versions |
| PackedCsr.PCSR.CompactAll | src/pcsr/PCSR.cpp:289-294 | the items of the whole array end up packed at its front, in order |
| PackedCsr.PCSR.HalfList | src/pcsr/PCSR.cpp:284-320 | the items, in order, are spread over half as many slots; pointers are right; the remaining leaves keep their versions |
| Windows.DensityBounds | src/pcsr/PCSR.cpp:156-165 | the comparisons of the climbs are those with 3/4 + depth/(4H) and 1/4 - depth/(8H) |
| Windows.InsertClimbStops | src/pcsr/PCSR.cpp:562-591 | where the insertion climb ends: an aligned window around its start and within its upper bound |
| Windows.InsertClimbFirst | src/pcsr/PCSR.cpp:562-591 | the insertion climb ends at the first ancestor within its bound: all lower ones are beyond theirs; it passes the root if and only if all are |
| Windows.RemoveClimbFirst | src/pcsr/PCSR.cpp:607-627 | the removal climb, likewise for the lower bounds |
| Windows.RemoveClimbPastRoot | src/pcsr/PCSR.cpp:607-628 | the removal climb passes the root only with fewer than N/4 items |
| Windows.RebalanceSlack | src/pcsr/PCSR.cpp:156-165 | after a non-leaf window within its bound is redistributed, each half of length `len` is more than len/(8H) - 1 items below its own upper bound |
| Windows.RebalanceReserve | src/pcsr/PCSR.cpp:156-165 | after a non-leaf window within its lower bound is redistributed, each half of length `len` is at least len/(16H) - 1 items above its own lower bound |
| Balance.InsertedSlack | src/pcsr/PCSR.cpp:519-595 | after an insertion whose last window is longer than a leaf, each half of it, of length `len`, holds in the new array more than len/(8H) - 1 items less than its own upper bound |
| Balance.LastWindowHalves | src/pcsr/PCSR.cpp:562-594 | the window an insertion redistributes last, if it is longer than a leaf, is one of the tree and consists of two equal halves |
| Balance.RemovedReserve | src/pcsr/PCSR.cpp:597-630 | after a removal whose last window is longer than a leaf, each half of it, of length `len`, holds in the new array at least len/(16H) - 1 items more than its own lower bound |
| PackedCsr.PCSR.ClimbInsert | src/pcsr/PCSR.cpp:562-591 | the loop finds the first window upwards within its upper bound, or asks for doubling |
| PackedCsr.PCSR.ClimbRemove | src/pcsr/PCSR.cpp:607-627 | the loop finds the first window upwards within its lower bound, or asks for halving |
| Insertion.InsertedLive | src/pcsr/PCSR.cpp:519-595 | insertion changes the items by exactly the new one at its place; slide, spill, every climb and doubling keep all others in order |
| Insertion.InsertedOutside | src/pcsr/PCSR.cpp:519-595 | without doubling, no slot outside slide, leaf, pair and final window changes |
| Insertion.InsertedTail | src/pcsr/PCSR.cpp:519-595 | from an array whose last slot is empty, insertion leaves it empty if and only if it does not overrun: slide to the last slot from an earlier leaf, final window short of the end |
| Insertion.OverrunCrowds | src/pcsr/PCSR.cpp:519-595 | an insertion that overruns leaves the slot before the last one occupied, too |
| Insertion.InsertedRoom | src/pcsr/PCSR.cpp:562-594 | after an insertion there is always an empty slot |
| PackedCsr.PCSR.SettleLeaf | src/pcsr/PCSR.cpp:552-560 | the leaf is redistributed, or the pair of leaves when the leaf is completely full |
| PackedCsr.PCSR.Insert | src/pcsr/PCSR.cpp:519-595 | the array becomes the specified one (overwrite, or slide, leaf, final window or doubling) and the table points right |
| Updates.PutIsPut | src/pcsr/PCSR.cpp:519-595 | at the place the search finds, `insert` is exactly one put, keeps the whole array invariant, and leaves the last slot empty if and only if it strands nothing there |
| Limits.StrandedIsLost | src/pcsr/PCSR.cpp:901-912 | an edge in the last slot, and only that one, is missing from the slots that neighbourhoods are read from |
| StrandedRun.CrowdedReached | src/pcsr/PCSR.cpp:519-630 | a run from the constructor with two vertices: seven times an edge added and removed, which halves the array from 2048 to 16 slots, two vertices more and eight edges lead, without a refused or stranding call, to an array whose second leaf is full but for the last slot |
| StrandedRun.StrandingHappens | src/pcsr/PCSR.cpp:519-595 | one edge more strands edge (3, 80) in the last slot, whatever lock acquisition finds out: it is in the graph, missing from its source's neighbourhood, and found by searches |
| Halving.Round | src/pcsr/PCSR.cpp:597-630 | adding and removing an edge halves a new graph of two vertices on more than 16 slots, or of one vertex on more than 8 |
| Removal.RemovedLive | src/pcsr/PCSR.cpp:597-630 | removal takes out exactly the cleared item |
| Removal.RemovedShape | src/pcsr/PCSR.cpp:597-630 | after a removal slot 0 is occupied, empty slots are fully cleared and the last slot is empty |
| Removal.RemovedOutside | src/pcsr/PCSR.cpp:597-630 | without halving, no slot outside the window found by the climb changes |
| Removal.RemovePlanExact | src/pcsr/PCSR.cpp:1182-1217 | the climb of lock acquisition, one item short, finds exactly what the climb of `remove` finds |
| Removal.HalvingFits | src/pcsr/PCSR.cpp:612-628 | the array is halved only with fewer than N/4 items left, so they fit |
| Removal.HalvingKeepsEight | src/pcsr/PCSR.cpp:612-628 | with two vertices the array is never halved below 8 slots |
| Limits.HalvingKeepsGeometry | src/pcsr/PCSR.cpp:284-287 | halving leaves a tree of windows if and only if the array had more than 8 slots |
| Limits.HalvingBelowEight | src/pcsr/PCSR.cpp:612-628 | with one vertex, removing the only edge of an array of 8 slots asks for halving |
| LoneRun.LoneReached | src/pcsr/PCSR.cpp:612-628 | a run from the constructor with one vertex, eight rounds of adding and removing an edge and one more `add_edge`, all allowed and none stranding, leads to that array and edge; removing it is the call that is not allowed |
| PackedCsr.PCSR.Remove | src/pcsr/PCSR.cpp:597-630 | an absent edge changes nothing; otherwise, unless an array of 8 slots is to be halved, the array becomes the specified one (leaf, final window or halving) and the table points right |
| Updates.RemovedIsDelete | src/pcsr/PCSR.cpp:597-630 | at the place the search finds, `remove` is exactly one delete and keeps the whole array invariant |
| PackedCsr.PCSR.Probe | src/pcsr/PCSR.cpp:436-461 | the item nearest to `mid`, looking right before left, or none if the range has none; reads stay inside the range |
| PackedCsr.PCSR.BinarySearch | src/pcsr/PCSR.cpp:427-502 | the place that the search function gives; over a sorted range with any holes: all items before the result are smaller, all from it on at least the key, a present key is at the result; the version is that of the result's leaf |
| Search.SearchFindsPlace | src/pcsr/PCSR.cpp:427-502 | the search, as a function of the array alone, finds the place of the key in every sorted range with any holes |
| Search.SearchBeyond | src/pcsr/PCSR.cpp:498-501 | a key beyond all items of the range leads to the end of the range if and only if its last slot is occupied or it has at most one slot |
| Neighbourhood.ReadSees | src/pcsr/PCSR.cpp:860-869 | a search sees every edge of the graph and its value, except exactly an edge in the last slot with an empty slot before it and its source's sentinel not right before that one |
| Neighbourhood.RangeSorted | src/pcsr/PCSR.cpp:419-422 | the range of a vertex meets what the search asks for |
| Neighbourhood.PlaceDecides | src/pcsr/PCSR.cpp:860-869 | the slot found holds the key if and only if the edge is in the graph, and then its value |
| PackedCsr.PCSR.LockLeaf | src/pcsr/PCSR.cpp:963-985 | leaf locks are taken in ascending order only |
| PackedCsr.PCSR.ReleaseLocks | src/pcsr/PCSR.cpp:922-927 | every held leaf gets a new version, no other, and nothing is held afterwards |
| PackedCsr.PCSR.ReleaseLocksNoInc | src/pcsr/PCSR.cpp:931-935 | nothing is held afterwards and no version changes |
| PackedCsr.PCSR.GotCorrectInsertionIndex | src/pcsr/PCSR.cpp:1310-1372 | the outcome of all checks on the slot, the previous and the next item; the place is never rejected, an occupied slot is accepted if and only if it is the place, an empty one as `Neighbourhood.EmptySlotChecked` says; the held interval ends with the slot's leaf or, if the slot is empty, with that of the next item |
| Neighbourhood.ChecksDecide | src/pcsr/PCSR.cpp:1310-1372 | the checks pass at every place, and for an occupied slot only there |
| Neighbourhood.EmptySlotChecked | src/pcsr/PCSR.cpp:1323-1371 | which empty slots the checks accept: in the vertex's range exactly those between whose neighbours the edge fits; outside exactly those behind an edge and, unless the vertex is the last one, not before a sentinel |
| Neighbourhood.EmptySlotAccepted | src/pcsr/PCSR.cpp:1333-1371 | an empty slot that passes the checks is the place if and only if it lies in the vertex's range and the edge itself is not the next item |
| PackedCsr.PCSR.ClimbInsertLocks | src/pcsr/PCSR.cpp:1025-1061 | the climb before the insertion, with all leaves of the window it ends at held, or a leaf left of the held interval |
| PackedCsr.PCSR.LockSlide | src/pcsr/PCSR.cpp:1080-1109 | all leaves of the slide are held |
| PackedCsr.PCSR.TryInsertLocks | src/pcsr/PCSR.cpp:949-1134 | one attempt: its outcome, the exact set of locks held, or nothing held and a restart further left, which happens only if the planned window needs it |
| PackedCsr.PCSR.AcquireInsertLocks | src/pcsr/PCSR.cpp:949-1134 | retry and global write with nothing held, otherwise exactly one interval that covers the insertion: it begins with the planned window or where the first locks are taken, whichever is further left, and ends with what is checked, with the window or with the slide; without a left bound and without locked searches the leaf to the left is held, too; at most four restarts, and giving up only after the fourth; no retry if the place is right and the version current; doubling only if the climb passes the root |
| Locking.StartHeld | src/pcsr/PCSR.cpp:976-984 | if searches take no locks, the slot before the insertion always lies in a held leaf, also after restarts |
| Locking.RestartExactly | src/pcsr/PCSR.cpp:1025-1061 | the climb for the locks has to start again further left if and only if the window it ends at, or the whole array if it passes the root, begins left of the leaves held |
| Locking.InfoAtOnce | src/pcsr/PCSR.cpp:949-1134 | the insertion is told the plan after a single attempt if what is planned does not begin left of the first leaf locked |
| Locking.InsertInfoFits | src/pcsr/PCSR.cpp:949-1134 | what lock acquisition tells the insertion, as a function of the state before the call, is nothing or the window planned before the insertion |
| Locking.HintIs | src/pcsr/PCSR.cpp:949-1134 | it is nothing or exactly the window or the doubling planned before the insertion |
| Locking.LastAttempt | src/pcsr/PCSR.cpp:1374-1386 | the last attempt of a call is the first one that is not disturbed, and at most its fifth |
| Locking.FootprintCovered | src/pcsr/PCSR.cpp:949-1134 | every slot the insertion may write lies in a held leaf |
| Locking.HeldStaysEnough | src/pcsr/PCSR.cpp:949-1134 | what is held for an insertion is still exactly what it needs, with the same plan, whatever other threads write into leaves that are not held |
| Locking.RemovalStays | src/pcsr/PCSR.cpp:1147-1232 | the window found for a removal stays the same, whatever other threads write into leaves that are not held |
| PackedCsr.PCSR.InsertInside | src/pcsr/PCSR.cpp:1433-1437 | under the acquired locks the insertion does not resize, and changes only slots of held leaves |
| PackedCsr.PCSR.ClimbRemoveLocks | src/pcsr/PCSR.cpp:1182-1217 | the climb before the removal, with all leaves of its window held, or all leaves if it passes the root |
| PackedCsr.PCSR.AcquireRemoveLocks | src/pcsr/PCSR.cpp:1147-1232 | global write if and only if the removal halves, then with all leaves held; otherwise the interval covers the removal's window and ends with it, and without a left bound it is exactly the leaves of that window; retry and not-found with nothing held; each restart further left |
| PackedCsr.PCSR.RemoveInside | src/pcsr/PCSR.cpp:768-771 | under the acquired locks the removal does not halve, and changes only slots of held leaves |
| Building.NewGraph | src/pcsr/PCSR.cpp:803-837 | evenly spread sentinels and their table are a well-formed graph without edges, with a free last slot |
| PackedCsr.PCSR.PlaceNodes | src/pcsr/PCSR.cpp:789-805 | the constructor's first loop computes the vertex table |
| PackedCsr.PCSR.PlaceSentinels | src/pcsr/PCSR.cpp:807-837 | its second loop spreads the sentinels evenly |
| PackedCsr.PCSR.constructor | src/pcsr/PCSR.cpp:775-838 | a valid array with the given vertices and no edge, all leaf versions 0 |
| PackedCsr.PCSR.AddNode | src/pcsr/PCSR.cpp:681-703 | one vertex more, the same graph, the invariant with a free last slot; leaves keep their versions, new ones start at 0 |
| PackedCsr.PCSR.AddEdge | src/pcsr/PCSR.cpp:1374-1445 | value 0 or an unknown source changes nothing; otherwise exactly one put, no lock left, the array that of `Calls.Added`; the last slot stays free if and only if the state before the call does not say that the insertion strands an item; in either case no edge is hidden from searches afterwards; if lock acquisition tells the insertion a window, every leaf with a changed slot has exactly the next version and every other one that or its old version, and under the global lock all versions are kept |
| PackedCsr.PCSR.AddRetried | src/pcsr/PCSR.cpp:1374-1386 | attempts that another thread disturbs are repeated; after four of them the global lock is taken, so the fifth attempt is the last |
| Calls.AddedUsable | src/pcsr/PCSR.cpp:1374-1445 | the state after `add_edge`, as a function of the state before, is one put and usable again if and only if nothing is stranded |
| Calls.AddedShows | src/pcsr/PCSR.cpp:860-869 | after every `add_edge`, the last slot is free or the slot before it is occupied: no edge is hidden from searches |
| Calls.TwoVerticesAllow | src/pcsr/PCSR.cpp:612-628 | with two vertices, or more than 8 slots, every removal keeps a tree of windows |
| Calls.StepFacts | src/pcsr/PCSR.cpp:681-773 | every call is the corresponding step of the graph, and leaves a usable state if and only if it does not strand an item |
| PackedCsr.PCSR.RemoveEdge | src/pcsr/PCSR.cpp:709-773 | exactly one delete, the whole invariant, no lock left, the array that of `Calls.Cut`, unless it would halve an array of 8 slots; every leaf with a changed slot has exactly the next version, unless the array is halved, which keeps those of the leaves that are left; an absent edge changes no version |
| PackedCsr.PCSR.EdgeExists | src/pcsr/PCSR.cpp:860-869 | membership in the graph, whether or not the last slot is free, except exactly for a hidden edge |
| PackedCsr.PCSR.FindValue | src/pcsr/PCSR.cpp:504-515 | the edge's value in the graph, or 0 if there is none or it is hidden |
| PackedCsr.PCSR.GetNeighbourhood | src/pcsr/PCSR.cpp:901-912 | exactly the neighbours in the graph of all slots but the last, in increasing order |
| Neighbourhood.RangeIsNeighbourhood | src/pcsr/PCSR.cpp:901-912 | the items in a vertex's range are exactly its edges outside the last slot |
| Runs.Perform | src/pcsr/PCSR.cpp:681-773 | one call of the interface computes the step function of the state before it; the last slot is free afterwards if and only if the step function says that nothing is stranded |
| Runs.Run | test/DataStructureTest.cpp:51-145 | from the constructor with any number of vertices, after every prefix of any calls that are allowed in the states they find, the array is the one the calls determine and represents the replayed graph; the run ends early exactly with the first call that strands an item, which the calls alone determine |
| Runs.TwoVerticesRun | test/DataStructureTest.cpp:51-145 | from two vertices on, all calls that name existing vertices and no reserved numbers are allowed in the states they find |
| Runs.ReachedAllowed | test/DataStructureTest.cpp:51-145 | calls that were all allowed in turn name only existing vertices, and `Run` accepts them |
| FastLock.NextInv | src/utility/fastLock.h:26-53 | every atomic step keeps: both counters count their threads, the mutex excludes, whoever left the loop of `lock` is alone |
| FastLock.FreshComparison | src/utility/fastLock.h:30-32 | in either order, the comparison of up-to-date counters ends the loop of `lock` if and only if every registered thread has arrived |
| FastLock.LoopEnds | src/utility/fastLock.h:30-33 | once everyone has arrived, the thread in the loop is the only one that can step unless another registers, and every step brings it closer to the lock |
| FastLock.LockReturns | src/utility/fastLock.h:26-34 | in either order, once everyone has arrived, at most four steps of its own take a thread from anywhere in the loop to the return of `lock` |
| FastLock.UnlockReturns | src/utility/fastLock.h:36-39 | two steps of its own take a thread through `unlock`; then nothing is requested and nobody has the mutex exclusively |
| FastLock.SharedReturns | src/utility/fastLock.h:45-53 | while nobody has the mutex exclusively, `lock_shared` and `unlock_shared` return after a single step, and after at most four if the thread had begun to wait |
| FastLock.LockReached | src/utility/fastLock.h:26-34 | in either order a state in which a thread has the lock is reachable |
| FastLock.Exclusive | src/utility/fastLock.h:26-53 | any number of threads, any interleaving, registering and unregistering midway: from the return of `lock` to `unlock` nobody is in a shared section and nobody else has locked, if `arrived_threads` is loaded first |
| FastLock.ExclusiveUnlessMidway | src/utility/fastLock.h:30-32 | the same in either order of the two loads, if nobody registers between loading `thread_counter` and comparing |
| FastLock.MidwayBreaks | src/utility/fastLock.h:30-32 | with `thread_counter` loaded first and a registration in between, a reachable state has a thread locked and another inside |
| FastLock.ExcludesExactly | src/utility/fastLock.h:30-32 | all reachable states exclude if and only if `arrived_threads` is loaded first |
| Protocol.NextInv | src/utility/hybridLock.h:20-36 | every step of leaf locks, versions and global lock keeps the joint invariant |
| Protocol.Validated | src/pcsr/PCSR.cpp:986-991 | a thread that read a leaf's version and, in the same shared section, holds the leaf exclusively and finds the same version, finds the leaf unchanged |
| Protocol.HeldLeafStays | src/utility/hybridLock.h:30-34 | in every safe run, a leaf that a thread holds exclusively keeps its content and version while only other threads step |
| Protocol.LeavesExclusive | src/utility/hybridLock.h:30-34 | exclusive and other holders of a leaf exclude each other, and nobody holds a leaf while someone has locked globally |
| Protocol.TakeExactly | src/utility/hybridLock.h:30-34 | a thread can take a leaf in shared mode exactly while nobody else has it exclusively, in exclusive mode exactly while nobody else has it |
| Protocol.UpdateRuns | src/pcsr/PCSR.cpp:922-927 | a thread in a shared section can update a leaf that nobody has, by steps of its own: the leaf gets the new content and the next version, and is free again |
| Protocol.NobodyStuck | src/pcsr/PCSR.cpp:963-985 | whenever some thread is in the middle of something, such a thread has a step, or an idle one that a spinning `lock` waits for has: active threads never wait only for each other |
| Bfs.NoShorter | src/utility/bfs.h:23-34 | when the queue is empty no walk is shorter than the distance written for its end |
| Bfs.VisitNeighbour | src/utility/bfs.h:28-33 | visiting a neighbour keeps what the search relies on |
| Bfs.Search | src/utility/bfs.h:15-36 | for every vertex the length of a shortest walk from the start, `UINT32_MAX` exactly if there is none; it terminates |
| Partitions.PartitionHolds | src/pppcsr/PPPCSR.cpp:58-66 | the partition found holds the vertex, no other does, and numbers beyond all vertices go to the last one |
| Partitions.NewTiled | src/pppcsr/PPPCSR.cpp:13-34 | the partitions tile the vertices for any number of vertices and partitions, also with fewer vertices than partitions |
| Partitions.EvenPartition | src/pppcsr/PPPCSR.cpp:13-34 | if all partitions but the last hold q > 0 vertices each, vertex v belongs to partition min(v/q, last) |
| PartitionedCsr.PPPCSR.GetPartition | src/pppcsr/PPPCSR.cpp:58-66 | the loop finds the last partition that does not start beyond the vertex before the first one that does |
| PartitionedCsr.PPPCSR.GetN | src/pppcsr/PPPCSR.cpp:68-74 | the number of vertices of all partitions |
| PartitionedCsr.PPPCSR.constructor | src/pppcsr/PPPCSR.cpp:13-34 | tiling partitions of valid graphs without edges, of the given total; each but the last holds n/p vertices, so that with n >= p vertex v belongs to partition min(v/(n/p), p-1); each has the given locking mode and the size that its number of vertices asks for |
| PartitionedCsr.PPPCSR.EdgeExists | src/pppcsr/PPPCSR.cpp:36-38 | membership in the whole graph, except exactly for an edge hidden in the last slot of its partition |
| PartitionedCsr.PPPCSR.GetNeighbourhood | src/pppcsr/PPPCSR.cpp:40-42 | exactly the neighbours in the whole graph, increasing |
| PartitionedCsr.PPPCSR.AddNode | src/pppcsr/PPPCSR.cpp:44-44 | one vertex more in the last partition, the same edges, and every vertex is still held by the partition found for it |
| PartitionedCsr.PPPCSR.AddEdge | src/pppcsr/PPPCSR.cpp:46-48 | one put into the whole graph; no other partition is touched; it strands an item if and only if the state of the partition that holds the source says so beforehand |
| PartitionedCsr.PPPCSR.RemoveEdge | src/pppcsr/PPPCSR.cpp:50-52 | one delete from the whole graph; no other partition is touched; only a removal that would halve a partition of 8 slots is excluded |
| ThreadPools.BlocksCover | src/thread_pool_pppcsr/thread_pool_pppcsr.cpp:32-47 | for 1 <= D <= T the blocks are not empty and sum to T |
| ThreadPools.BlocksDisjoint | src/thread_pool_pppcsr/thread_pool_pppcsr.cpp:32-47 | no thread is in two blocks |
| ThreadPools.ThreadPool.DealOut | src/thread_pool_pppcsr/thread_pool_pppcsr.cpp:35-47 | the tables hold contiguous blocks whose sizes differ by at most one, and each thread's domain is that of its block |
| ThreadPools.ThreadPool.Submit | src/thread_pool_pppcsr/thread_pool_pppcsr.cpp:94-117 | the task goes to the end of the queue of a thread of its partition's domain, in turn |
| ThreadPools.ThreadPool.Execute | src/thread_pool_pppcsr/thread_pool_pppcsr.cpp:52-91 | the queue is worked off in order; at each operation the counters are those before the call plus one for exactly the partition of the task, and at the end they are as before |
| Workers.CountersRight | src/thread_pool_pppcsr/thread_pool_pppcsr.cpp:60-91 | with any number of workers, at every moment each counter is the number of workers registered there, a worker on a task is registered with its partition, one that has left with none |
| Workers.TasksKept | src/thread_pool_pppcsr/thread_pool_pppcsr.cpp:62-67 | at every moment of every run, the tasks given to a worker are those it has taken up, in order, followed by those in its queue |
| Workers.NothingLeft | src/thread_pool_pppcsr/thread_pool_pppcsr.cpp:62-62 | a worker that has left has an empty queue and has taken up all its tasks, as long as none is given to it afterwards; one that is not the master leaves only after `stop` |
| Workers.WorkerLeaves | src/thread_pool_pppcsr/thread_pool_pppcsr.cpp:62-92 | after `stop`, or for the master at any time, a worker gets through all its tasks and leaves by steps of its own, at most four a task and four more |
| Workers.AllDone | src/thread_pool_pppcsr/thread_pool_pppcsr.cpp:88-91 | when all workers have left no lock counts anybody and, if nothing was given to workers that had left, every task has been taken up in order |

## Left out

- Floating-point rounding of densities and steps: exact rationals are used instead.
- `num_neighbors`: it counts accepted calls rather than edges (an update in place still adds one), so it has no invariant to prove.
- Slides off the end, `slide_left`, the doubling inside `insert` and `slide_left`, and the left walk of lock acquisition: unreachable with a free last slot.
- Changes of an array whose last slot is occupied: `add_edge`, `remove_edge` and `add_node` after an item has been stranded there. The reads are modelled there, too.
- PackedCsr.PCSR.SlideRight: with no empty slot from the index on, the original slides off the end; this needs an occupied last slot and is not modelled.
- PackedCsr.PCSR.Insert: likewise, the doubling at the last slot and `slide_left` need an occupied last slot.
- PackedCsr.PCSR.AddNode: starts from a free last slot.
- PackedCsr.PCSR.Remove: does not carry out the halving of an array of 8 slots, after which the density bounds divide by a height of 0.
- PartitionedCsr.PPPCSR.RemoveEdge: likewise, for the partition of the source.
- PackedCsr.PCSR.AddEdge: starts from a free last slot. The shared leaf locks and the restarts of the search in the locking mode are modelled only in `Protocol`, since in a single-threaded call they cannot fail.
- PackedCsr.PCSR.RemoveEdge: starts from a free last slot and does not halve an array of 8 slots. The message for an absent edge and the branch that releases shared locks with the exclusive release are not modelled.
- PackedCsr.PCSR.AcquireInsertLocks: proved on an array that does not change during the call. That its success stays right whatever others write into other leaves is `Locking.HeldStaysEnough`; that held leaves do not change is `Protocol.HeldLeafStays`; what a call reads of a leaf before it holds it is not covered.
- PackedCsr.PCSR.AcquireRemoveLocks: the same, with `Locking.RemovalStays`.
- PackedCsr.PCSR.HalfList: the release of leaf locks of dropped leaves, which have been released before, is not modelled.
- PackedCsr.PCSR.FindValue: in the original it is only called for existing vertices; the model requires that.
- Protocol.Validated: covers the leaf of the index itself, not neighbouring leaves; linearizability of the whole graph under concurrency is not claimed.
- FastLock.Exclusive: threads use the lock only while registered, as the thread pool does; an unregistered caller of `lock` is not modelled. Starvation and fairness are not claimed.
- Protocol.NobodyStuck: says who can step, not that every thread finishes. An idle thread that a spinning `lock` waits for has to use the lock again or unregister, as the thread pool makes it do.
- Bfs.Search: neighbours are values of `int` below the number of vertices, and there are fewer than 2^32 vertices.
- ThreadPools.ThreadPool.Execute: the sequential loop of the master thread; the other workers and their waiting are in `Workers`. The three operations on the graph are not called.
- `read_neighbourhood`, which has no effect; NUMA placement, CPU pinning, starting and joining threads, timing, file and argument parsing, printing and counting helpers, `pagerank`, the `cvs` constructor, `clear`, the stub functions for moving nodes, the unpartitioned thread pool.
