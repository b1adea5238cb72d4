# A verified model of the memory engine's state machines

The backend keeps memories as regular tetrahedra in a shared space, plans work as actions in a frontier that workers
claim, and consolidates memories in dream cycles; a guard process tails log files. This project models the state machines
behind that and proves what they keep over every run. `dafny verify dfyconfig.toml` checks all of it.

## What is modelled

**The space** (`Geometry`, `Index`, `VertexIds`, `Topology`, `Placement`, `Cylinder`, `Anchoring`, `Reseeding`, `SpaceStore`,
`SpaceRuns`, `PortSchedules`).
`SpaceStore.Space` is a class with the fields of the source: tetrahedra, vertices, the edge, face, vertex and grid indexes,
the two id counters, the two version stamps, and the cylinder of ports. One invariant, `Topology.WellFormed`, says that every index
lists each owner exactly once under precisely its keys with no empty entry, that the stored vertices are exactly the ports
and the vertices in use, and that no two of them are within the merge distance. Every operation keeps it, fails without a
trace or succeeds completely, and `SpaceRuns.Run` drives arbitrary sequences of commands from the empty space.

**Clusters** (`Clusters`, `ClusterCache`, `Nearest`). The breadth-first search returns exactly the connected
components; the version-stamped cache, taken in separate lock steps, is a transition system over every interleaving
of readers and writers.

**The action frontier and dispatch** (`Graph`, `Actions`, `Frontier`, `FrontierStore`, `FrontierLimits`, `Dispatch`, `Batches`,
`Accountability`, `AccountingSteps`, `Sweeps`, `Schedules`, `EditLaws`). Pure edit functions say what each operation does, `EditLaws`
says who may do it, who is refused and why, and what it leaves alone; the class
`FrontierStore.ActionFrontier` and the dispatcher's loops are proved against them; a step relation over all commands carries
the invariant (acyclic dependencies, every claimed action's dependencies present and done). Accounting is modelled twice: as
one step, and as the separate lock steps it takes, the listing of a sweep included; uninterrupted, the two agree.

**Log tailing** (`TailLog`). The incremental reader refines a one-pass line splitter for every schedule of appends and polls.

**Operations on memories, dreams, chunks, parameters** (`Ops`, `OpLaws`, `Dream`, `DreamLaws`, `Chunking`, `Outcomes`, `Adaptive`,
`LearningLaws`). Field-level
edits and the three-way merge; the two consolidating phases of a dream cycle; the lossless chunker; how effective an action was, and the
momentum-driven parameters that learn from it, with their snapshots.

## How values are represented

Coordinates, masses, importances and parameter values are reals; distances are compared squared, so that no root is
needed, and grid keys are floors. Identifiers are bounded by the largest 64-bit value, and running out of them is an
error as in the source. Hash maps are Dafny maps, and whatever iterates over one does so in an arbitrary order.
Clock readings are parameters. Embedding similarity and embedding health, capability matching, and the decoding and trimming of
a log line are function parameters: the theorems hold for every such function.

## Where the code and its documentation part

- `backend/src/domain/ops.rs:8` says that every operation is idempotent. `AdjustMass` and `AddImportance` are not:
  `Ops.IdempotentExactly` gives the guard under which repeating an operation adds nothing, `Ops.AdjustMassIsNotIdempotent` an input.
- The parameter snapshot is meant to carry the learned state across restarts, but the momentum clamp of a restore only covers
  effectiveness in [0, 1]. By `Outcomes.EffectivenessRange` only fission and dreams score below 0. `Adaptive.RestartIsExactly` gives the
  exact condition; after `Adaptive.HarmfulDreamsDoNot` (three dreams) and `Adaptive.HarmfulFissionsDoNot` (two) a restart loses momentum.
- The cap on live actions is checked when an action is enqueued but not when one is reopened: `FrontierLimits.CapOverRunsExactly`,
  with a run from the empty frontier in `Schedules.ReopenAboveTheCap`.
- Reopening a paused action leaves it paused, so its next claim never expires: `FrontierLimits.PauseOutlivesReopening`,
  with a run in `Schedules.PausedReopeningIsReachable`.
- A sweep promises to leave unexpired and paused claims alone, but lists the expired claims, reads each and acts on it under
  separate locks. One sweep is enough to take a live claim, when its owner's heartbeat comes in between:
  `Schedules.OneSweepTakesALiveClaim`. It does so exactly when the last claim, assignment, heartbeat, renewal, pause or resume since
  the listing leaves the claim paused or with a lease that still runs: `Sweeps.SweepTakesLiveClaimExactly`.
- The retry budget is checked on the count that was read and spent on the count that is there. Both counters stay within their limits
  exactly in the runs without a reopening that finds its counter at the limit: `AccountingSteps.LimitsAreKeptExactly`. That takes two
  overlapping accountings of one action, `AccountingSteps.CountersStayWithinLimits`, and happens in `Schedules.OverlapExceedsTheBudget`.
- A port is meant to have one live owner and a tetrahedron one port. Taking a port, transferring a reservation, passing a port on and
  rebuilding the occupancy do not check that, nor do their callers: owners stay sound exactly in the runs where no such command gives a
  port to a tetrahedron that is dead or has one, `SpaceRuns.Run`. In `PortSchedules.TwoPortsForOne` a reseeding between a placement
  and the transfer of its reservation makes one tetrahedron own two ports; removing it leaves a port owned by nobody,
  `PortSchedules.APortIsLost`.
- A worker's load limit is checked when the worker is picked, not when it is assigned: `Batches.AssignmentLoadsExactly`. Two dispatchers
  that run at the same time can take a worker past it: `Schedules.TwoDispatchersOverload`.
- Superseding is meant to demote, but its floor raises the importance of memories that were below it:
  `Dream.SupersedingRaisesExactly`, with an instance in `Dream.SupersedingCanRaise`.
- The nearest-tetrahedron lookup is not always global: `Nearest.GlobalExactly` says when it is, in every space with the same block,
  and `Nearest.BeyondACellCanMiss` shows a pair that is missed.
- After a quarantine a dream cycle looks at the whole corpus again, not at its window of at most 1500 memories: `Dream.Cycle` says
  exactly when, `Dream.WidenedView` is a cycle in which it does.

## Model

| member | source | states |
|---|---|---|
| Geometry.NearbyKeysAreTheAdjacentCells | backend/src/domain/space.rs:67-77 | the 27 searched cells are exactly the cells that differ by at most one in each coordinate |
| Geometry.CloserThanACellIsAdjacent | backend/src/domain/space.rs:56-77 | two points less than one cell apart always lie in each other's block of 27 cells |
| Geometry.NearBoth | backend/src/domain/vertex.rs:4-37 | two points within the merge distance of a third are less than 0.1 apart: the triangle inequality the merge relies on |
| Geometry.ComputedShapeIsValid | backend/src/domain/tetra.rs:156-180 | the corners computed around any centre pass the shape check |
| Geometry.CornersSurroundTheCentre | backend/src/domain/tetra.rs:156-180 | the centre is the mean of the computed corners, and all four are equally far from it |
| Geometry.CornersStayApart | backend/src/domain/tetra.rs:196-204 | no vertex can be within the merge distance of two corners of a valid shape |
| Index.PushAllExact | backend/src/domain/space.rs:250-275 | listing a new owner under its keys turns an exact index into the exact index with that owner |
| Index.DropAllExact | backend/src/domain/space.rs:323-378 | unlisting an owner under its keys leaves the exact index of the others, with no empty entry |
| Index.ListUnder | backend/src/domain/space.rs:250-275 | the in-place loop that appends an id under several keys, against its specification |
| Index.UnlistFrom | backend/src/domain/space.rs:323-378 | the in-place loop that removes an id under several keys and drops emptied entries, against its specification |
| VertexIds.NextFree | backend/src/domain/space.rs:279-293 | the first unoccupied id from the counter on; none only when every id below the maximum is taken |
| VertexIds.NextFreeVertexId | backend/src/domain/space.rs:279-293 | the scanning loop finds exactly that id, moves the counter just past it, and fails exactly when there is none |
| VertexIds.AllocationIsMonotone | backend/src/domain/space.rs:295-304 | allocations that would succeed still succeed over fewer occupied ids, and end no later: why the capacity check before a removal suffices |
| Topology.KeysAreDistinct | backend/src/domain/tetra.rs:62-64 | a tetrahedron with four different vertices has six different edge keys and four different face keys |
| Topology.NearIsInTheBlock | backend/src/domain/space.rs:193-211 | the block around a point lists every stored vertex within the merge distance, wherever it is stored |
| Topology.FindVertex | backend/src/domain/space.rs:193-211 | the grid search finds a vertex to merge with exactly when one exists anywhere in the space |
| Topology.StoreVertices | backend/src/domain/space.rs:231-235 | storing staged vertices extends the vertex map by exactly them and keeps the vertex grid exact |
| Placement.PlaceVertices | backend/src/domain/space.rs:191-231 | the four corners get merged or fresh vertices; fails exactly when the ids run out, and then nothing has been stored |
| Placement.PlacedVerticesAreDistinct | backend/src/domain/space.rs:190-230 | a valid shape never gets the same vertex twice |
| Placement.ExtensionStaysSeparated | backend/src/domain/space.rs:181-236 | if stored vertices were pairwise outside the merge distance, they still are after an insertion |
| Placement.ListingIsExact | backend/src/domain/space.rs:238-277 | listing a tetrahedron keeps all five indexes exact |
| Placement.InsertionKeepsWellFormed | backend/src/domain/space.rs:181-277 | an insertion keeps the whole invariant: indexes, no orphan vertices, separation, ports in place |
| Placement.SomeInsertion | backend/src/domain/space.rs:181-277 | with room for four vertices a tetrahedron of any valid shape can be added, and the space is well formed with it |
| Placement.UnlistedWhenUnused | backend/src/domain/space.rs:323-352 | a vertex entry is emptied exactly when no other tetrahedron uses the vertex |
| Placement.ReleaseVertices | backend/src/domain/space.rs:323-352 | the loop removes exactly the vertices that nothing else uses and that are no ports, and keeps the vertex grid exact |
| Placement.UnlistingIsExact | backend/src/domain/space.rs:323-378 | unlisting a tetrahedron keeps all five indexes exact |
| Placement.RemovalKeepsWellFormed | backend/src/domain/space.rs:323-378 | a removal keeps the whole invariant |
| SpaceStore.EmptySpaceIsWellFormed | backend/src/domain/space.rs:86-126 | the invariant holds of the empty space with any separated ports |
| SpaceStore.Space.constructor | backend/src/domain/space.rs:86-126 | the space starts valid, with the ports as its only vertices and every counter at zero |
| SpaceStore.Space.InsertTetra | backend/src/domain/space.rs:181-277 | succeeds exactly when enough vertex ids are left for the missing corners, with the counter just past the last one used and the tetrahedron listed last under its vertices; else the state is untouched |
| SpaceStore.Space.AddTetrahedron | backend/src/domain/space.rs:130-148 | the exact outcome for every input, nothing changed on error; on success the tetrahedron under a fresh id, and the exact counters and stamps |
| SpaceStore.Space.AddTetrahedronWithId | backend/src/domain/space.rs:150-179 | the exact outcome for every input, including a taken id and the last id, with the exact counters and stamps |
| SpaceStore.Space.RemoveTetraIndexes | backend/src/domain/space.rs:323-378 | exactly the orphaned vertices go; the invariant holds again |
| SpaceStore.Space.ReleaseOrReanchorPort | backend/src/domain/space.rs:379-394 | a port left by its anchor passes to the first portless tetrahedron listed as touching it, and is freed exactly when there is none |
| SpaceStore.Space.RemoveTetrahedron | backend/src/domain/space.rs:306-321 | removes exactly one tetrahedron, its orphaned vertices and its hold on a port, or fails without a change |
| SpaceStore.RemovalLeavesCapacity | backend/src/domain/space.rs:295-304 | room for four ids before a removal is room for the re-insertion after it |
| SpaceStore.Space.EnsureVertexIdCapacity | backend/src/domain/space.rs:298-304 | the check succeeds exactly when that many allocations would |
| SpaceStore.Space.RelocateTetrahedron | backend/src/domain/space.rs:1231-1294 | all or nothing: on error nothing changes; on success payload, mass and all other tetrahedra are untouched; the port left behind goes to its first portless toucher, and the first free port among the new corners is taken |
| SpaceStore.DepartureKeepsOwners | backend/src/domain/space.rs:379-394 | handing over or freeing the port of a departing tetrahedron keeps each tetrahedron at one port at most and every owner live |
| SpaceStore.Space.ReseedPorts | backend/src/domain/space.rs:918-1040 | the one result of a pass over the clusters in the order of their oldest members: a port the cluster touches goes to who touches it, one of its layer only without such a contact; every cluster is settled, each without a port got at most one; the count is exact |
| SpaceStore.Space.RebuildPortOccupancy | backend/src/domain/space.rs:886-912 | gives exactly the free ports that are the first port of a tetrahedron to one such; owners stay sound exactly when none of these owned another; counts the candidates, as the source does |
| Anchoring.Rebuild | backend/src/domain/space.rs:890-912 | the two loops, tetrahedra in any order, against that specification |
| Anchoring.FirstPort | backend/src/domain/space.rs:894-901 | the first corner that is a port |
| Anchoring.ReanchoringKeepsOwnersExactly | backend/src/domain/space.rs:890-912 | each tetrahedron has one first port, so that only a port owned before can become a second one |
| SpaceStore.Space.AssignCylinderPort | backend/src/domain/space.rs:822-834 | takes the first free port of the layer; owners stay sound exactly when the taker is the reservation mark or live and portless |
| SpaceStore.Space.AssignSpecificPort | backend/src/domain/space.rs:877-884 | takes exactly the named port while it is free; owners stay sound exactly when the taker is the reservation mark or live and portless |
| SpaceStore.Space.TransferCylinderPortReservation | backend/src/domain/space.rs:847-868 | turns exactly one reservation into ownership, for a tetrahedron that touches the port; else nothing changes |
| SpaceStore.Space.ReleaseCylinderPortReservation | backend/src/domain/space.rs:870-875 | gives up exactly the named reservation, or changes nothing |
| SpaceStore.Space.ReleaseCylinderPort | backend/src/domain/space.rs:836-838 | frees the port of one tetrahedron and keeps the owners sound |
| SpaceStore.Space.ReassignCylinderPort | backend/src/domain/space.rs:840-845 | hands a port on; owners stay sound exactly when the new one is live and portless or the reservation mark |
| SpaceStore.Space.UpdateMass | backend/src/domain/space.rs:448-458 | the clamped mass and nothing else |
| SpaceStore.Space.UpdateAliases | backend/src/domain/space.rs:460-478 | the new aliases, stamped exactly when they differ |
| SpaceStore.Space.UpdatePayload | backend/src/domain/space.rs:480-501 | the new payload, stamped exactly when content or aliases differ |
| SpaceStore.Space.PatchLabels | backend/src/domain/space.rs:503-522 | the three-way merge of the labels, stamped exactly when they change |
| SpaceStore.Space.PatchAliases | backend/src/domain/space.rs:524-543 | the three-way merge of the aliases, stamped exactly when they change |
| SpaceStore.Space.PatchPayload | backend/src/domain/space.rs:545-566 | the three-way merge of the payload with the stamps its flags call for; reports a change exactly when there is one |
| SpaceStore.Space.ApplyOps | backend/src/domain/space.rs:568-585 | the whole batch on the current state, stamped exactly when the labels change |
| SpaceStore.Space.WithTetraMut | backend/src/domain/space.rs:587-607 | the stamps stay truthful exactly when the closure reports every change of the searched fields |
| SpaceStore.FieldEditsExactly | backend/src/domain/space.rs:609-673 | a setter changes its own field; ending a memory dates its invalidation once |
| SpaceStore.Space.GetTetrahedronsByIdsAtSearchRevision | backend/src/domain/space.rs:419-434 | an answer exactly when the revision is the current one |
| SpaceStore.Space.RestoreCounters | backend/src/domain/space.rs:764-780 | each counter becomes the successor of the largest id in use, ports not counted; 1 and 0 when there is none |
| SpaceStore.EditIsStamped | backend/src/domain/space.rs:395-446 | an edit respects the stamps exactly when it advances the search revision or leaves content and aliases alone |
| SpaceStore.StampsIdentifyStates | backend/src/domain/space.rs:395-446 | in any run, equal search revisions mean equal contents and aliases, equal structure versions mean equal vertices |
| SpaceStore.CandidatesMatchTheCache | backend/src/domain/space.rs:419-434 | candidates read under the revision of a cache describe the corpus the cache was built from |
| SpaceStore.VertexIndexIsInverse | backend/src/domain/space.rs:1315-1383 | the vertex index of a well-formed space is the inverse relation that the cluster search needs |
| SpaceRuns.Run | backend/src/domain/space.rs:130-1294 | after any sequence of commands, ports, closures, rebuilding and restarts of the counters included, every state passed through is well formed and each step is stamped; the port owners are sound throughout if and only if no command gives a port to a tetrahedron that is dead or has one |
| PortSchedules.TwoPortsForOne | backend/src/engine/gateway.rs:400-430 | a run of the space's methods after which one live tetrahedron owns two ports: reserve, place, reseed, transfer |
| PortSchedules.APortIsLost | backend/src/domain/space.rs:379-394 | removing that tetrahedron leaves a port that is owned by nobody and not free |
| SpaceRuns.ReseedTwice | backend/src/domain/space.rs:918-1040 | a second reseeding returns 0 and changes nothing |
| Cylinder.AssigningKeepsOwnersExactly | backend/src/domain/cylinder.rs:446-538 | assigning keeps one port per tetrahedron and live owners exactly when the taker is live and portless or the reservation mark |
| Cylinder.ReleasingKeepsOwners | backend/src/domain/cylinder.rs:456-464 | freeing a port keeps the owners sound |
| Cylinder.InitialLayoutIsUsable | backend/src/domain/cylinder.rs:390-424 | the eighty initial ports are free, distinct and outside each other's merge distance |
| Cylinder.Cylinder.AssignPort | backend/src/domain/cylinder.rs:446-454 | the first free port of the layer changes owner, or nothing does |
| Cylinder.Cylinder.ReassignSpecificPort | backend/src/domain/cylinder.rs:481-501 | transfers exactly the named port and only from the expected owner |
| Cylinder.Cylinder.ReleaseSpecificPort | backend/src/domain/cylinder.rs:503-521 | frees exactly the named port and only for the expected owner |
| Cylinder.Cylinder.AssignSpecificPort | backend/src/domain/cylinder.rs:523-538 | takes exactly the named port and only while it is free |
| Reseeding.GatherClusters | backend/src/domain/space.rs:944-975 | the clusters are the components, each led by its least member, in increasing order of these members |
| Reseeding.SeedCluster | backend/src/domain/space.rs:976-1033 | with a free contact, the one with the least port and then the least member, which gets it; else the first free port of the layer that holds the oldest member's core, which gets it; nothing exactly when neither exists |
| Reseeding.Reseed | backend/src/domain/space.rs:918-1031 | the result of such turns, one for each cluster without a port, in order; settles every cluster and hands out free ports only, at most one to a cluster |
| Reseeding.PassIsUnique | backend/src/domain/space.rs:918-1031 | the ports after a pass are determined by the ports before it, whatever is iterated in which order |
| Reseeding.UntouchedOnlyAsFallback | backend/src/domain/space.rs:985-1031 | a port that no member of the cluster touches is handed out only when none that they touch was free at its turn |
| Reseeding.LayerForZ | backend/src/domain/space.rs:1008-1024 | the layer whose two units of height contain the core, none below and above all layers |
| Reseeding.AssigningKeepsSettled | backend/src/domain/space.rs:918-1031 | handing out ports never unsettles a cluster |
| Clusters.Expand | backend/src/domain/space.rs:1357-1369 | one step of the search queues exactly the unvisited neighbours |
| Clusters.Component | backend/src/domain/space.rs:1351-1370 | the queue loop returns exactly the component of its root, each member once |
| Clusters.ComputeClusters | backend/src/domain/space.rs:1315-1383 | whatever the iteration order, the result is exactly the sorted partition into components |
| Clusters.SortClusters | backend/src/domain/space.rs:1376-1379 | sorting members and clusters loses nothing and orders both |
| Clusters.CompletedComponent | backend/src/domain/space.rs:1351-1370 | a closed set reached from a root by shared vertices is its whole component |
| Clusters.ConnectedShareComponent | backend/src/domain/space.rs:1315-1383 | connection by shared vertices is an equivalence: connected tetrahedra have the same component |
| Clusters.ComponentsAreUnique | backend/src/domain/space.rs:1315-1383 | any two sorted partitions into components are the same list |
| ClusterCache.PerformKeepsInv | backend/src/domain/space.rs:1315-1383 | every single lock step of a reader or a writer keeps the cache truthful |
| ClusterCache.HitWasCurrent | backend/src/domain/space.rs:1316-1328 | a cached answer under the version a call started with was current during the call |
| ClusterCache.EveryAnswerWasCurrent | backend/src/domain/space.rs:1315-1383 | in every interleaving, every answer is the components of a state current between the call's first lock and its return |
| ClusterCache.UndisturbedAnswerIsExact | backend/src/domain/space.rs:1315-1383 | without a structural change during the call the answer is the clustering of the present |
| Nearest.NearestInBlock | backend/src/domain/space.rs:1399-1418 | the nearest of the 27 cells, or none exactly when the block is empty |
| Nearest.NearestTetrahedronTo | backend/src/domain/space.rs:1399-1429 | an answer exactly when a tetrahedron exists; nearest in the block, or in the whole space when the block is empty |
| Nearest.WithinACellIsGlobal | backend/src/domain/space.rs:1399-1429 | an answer no farther than one cell is nearest in the whole space |
| Nearest.OutsideIsFar | backend/src/domain/space.rs:1399-1429 | whatever lies outside the block is at least as far away as its nearest face, between 1 and 1.5 cells |
| Nearest.GlobalExactly | backend/src/domain/space.rs:1399-1429 | in every well-formed space that agrees on the block the answer is the nearest of all, if and only if the block is empty or holds a core no farther than its nearest face; a space with room for one more tetrahedron |
| Nearest.BeyondACellCanMiss | backend/src/domain/space.rs:1399-1429 | two tetrahedra for which the answer, farther than one cell, is not the nearest |
| Ops.MergeSetInPlace | backend/src/domain/ops.rs:247-267 | the in-place merge, and that it reports a change exactly when the vector changed |
| Ops.MergeSetElems | backend/src/domain/ops.rs:247-267 | as a set the result is (cur - (base - desired)) + (desired - base) |
| Ops.MergeSetUnchanged | backend/src/domain/ops.rs:247-267 | nothing changes exactly when every removal is absent and every addition present |
| Ops.MergeSetIdempotent | backend/src/domain/ops.rs:247-267 | merging again changes nothing, in order as well |
| Ops.MergeSetsCommute | backend/src/domain/ops.rs:247-267 | two merges from one base commute as sets, whatever is stored |
| Ops.PatchFlagsAndIdempotence | backend/src/domain/ops.rs:199-245 | the three flags are exact, and a patch applied twice reports nothing |
| Ops.PatchWithoutInterference | backend/src/domain/ops.rs:199-245 | without concurrent writes the patch stores what was desired |
| Ops.PatchesCommute | backend/src/domain/ops.rs:199-245 | two patches from one base commute exactly when no field is changed by both to different values |
| OpLaws.PatchIsThreeWay | backend/src/domain/ops.rs:203-246 | in each field, and for each label and alias: what the caller changed is stored, what the caller left alone keeps what others wrote |
| OpLaws.MergeSetOrder | backend/src/domain/ops.rs:248-273 | what is kept stays in its order, what is added comes behind it in the caller's order |
| Ops.Memory.ApplyOp | backend/src/domain/ops.rs:76-196 | the in-place edit of payload and mass, against its specification |
| Ops.IdempotentExactly | backend/src/domain/ops.rs:4-10 | repeating an operation adds nothing exactly under a guard, which only the two increments can fail |
| Ops.AdjustMassIsNotIdempotent | backend/src/domain/ops.rs:107-112 | an operation that is not idempotent |
| Ops.ApplyOnlyMovesForward | backend/src/domain/ops.rs:76-196 | no operation moves a memory back in its lifecycle or touches its text; lifecycle operations skip protected memories; quarantine and supersede act exactly when allowed |
| Ops.BatchesOnlyMoveForward | backend/src/domain/ops.rs:76-196 | the same over any batch; labels only grow |
| OpLaws.LifecycleExactly | backend/src/domain/ops.rs:22-32 | superseded by label or end of validity, quarantined by label otherwise |
| OpLaws.OnlyTheseFields | backend/src/domain/ops.rs:81-197 | no operation touches more than labels, importance, mass, validity and access count, and each only its own |
| OpLaws.LabelsExactly | backend/src/domain/ops.rs:83-90 | a new label comes last, a known one changes nothing |
| OpLaws.CappingAndSetting | backend/src/domain/ops.rs:91-106 | a cap lowers what is above it; a write stores every value that differs |
| OpLaws.ComparingExactly | backend/src/domain/ops.rs:172-180 | compare and set stores the new value exactly if the importance is what was seen and the two differ |
| OpLaws.AddingExactly | backend/src/domain/ops.rs:181-188 | adding stops at the maximum |
| OpLaws.MassExactly | backend/src/domain/ops.rs:107-121 | mass moves by what was asked for within its limits; a cap only lowers it, never below the minimum |
| OpLaws.QuarantiningExactly | backend/src/domain/ops.rs:122-133 | exactly active memories that are not enforced are labelled and capped |
| OpLaws.SupersedingExactly | backend/src/domain/ops.rs:134-151 | exactly memories neither enforced nor superseded are labelled, ended and demoted to the floor or the factor |
| OpLaws.TombstoneExactly | backend/src/domain/ops.rs:152-171 | exactly memories not enforced, not ended and below the threshold are ended, with the given importance |
| Graph.Search | backend/src/engine/agent_action.rs:741-766 | the worklist search finds the target exactly when a path leads to it |
| Graph.NewEdgesCloseACycle | backend/src/engine/agent_action.rs:741-766 | in an acyclic graph, new edges of a node close a cycle exactly when the node is reachable from them, even over its old edges |
| Actions.ComputeReadiness | backend/src/engine/agent_action.rs:689-709 | the loop over the dependencies, against its specification |
| Actions.ReadinessMeaning | backend/src/engine/agent_action.rs:689-709 | ready means every dependency present and done; failed lists exactly the failed ones |
| Actions.ValidateDeps | backend/src/engine/agent_action.rs:741-766 | which error a dependency list gets, or none |
| Actions.ValidationRejectsExactlyCycles | backend/src/engine/agent_action.rs:741-766 | among lists of existing actions exactly those that close a cycle are refused |
| Actions.CascadeAll | backend/src/engine/agent_action.rs:793-833 | the fixpoint loop ends and blocks exactly the live actions from which a failed or missing dependency is reachable through live ones |
| Actions.ChainHasFailed | backend/src/engine/agent_action.rs:793-833 | at the fixpoint every member of a failing chain has failed: the blocked set is complete |
| Actions.FixpointIsCascaded | backend/src/engine/agent_action.rs:793-833 | at the fixpoint the blocked set is also sound: it is the least one |
| Frontier.EditFacts | backend/src/engine/agent_action.rs:400-1176 | no edit changes id or dependencies or undoes Done; only claim and assign on a ready open action make it claimed |
| Frontier.EnqueueKeepsInv | backend/src/engine/agent_action.rs:958-984 | enqueuing keeps the dependencies acyclic |
| Frontier.SetDepsKeepsInv | backend/src/engine/agent_action.rs:768-791 | replacing the dependencies of an open action keeps them acyclic, although the check sees the old ones |
| Frontier.CascadeKeepsInv | backend/src/engine/agent_action.rs:793-833 | a cascade never touches an action that is not open |
| Frontier.PruneKeepsInv | backend/src/engine/agent_action.rs:1267-1282 | pruning never takes a dependency from under a claimed action |
| Frontier.StepKeepsInv | backend/src/engine/agent_action.rs:741-1282 | every command keeps the invariant |
| Frontier.EveryReachableStateIsSound | backend/src/engine/agent_action.rs:741-1282 | in every state of every run dependencies are acyclic and every claimed action's dependencies are present and done |
| Frontier.DoneIsAbsorbing | backend/src/engine/agent_action.rs:1075-1158 | a done action stays done while it is kept |
| Frontier.WaitingLeadsToReady | backend/src/engine/agent_action.rs:689-709 | following waiting dependencies ends at a ready action |
| Frontier.NoDependencyDeadlock | backend/src/engine/agent_action.rs:689-833 | after a cascade, if any action is live then some live action is ready |
| Frontier.SurvivorsHaveNoFailedDep | backend/src/engine/agent_action.rs:793-833 | an action that a cascade leaves live has no failed dependency |
| Frontier.CascadeIsIdempotent | backend/src/engine/agent_action.rs:793-833 | a second cascade changes nothing |
| FrontierLimits.TakingUpExactly | backend/src/engine/agent_action.rs:726-1073 | a claim or assignment succeeds exactly on an open action past its backoff, with every dependency present and done, that is not assigned to another |
| FrontierLimits.ClaimIsSingleFlight | backend/src/engine/agent_action.rs:1006-1073 | a claimed action cannot be claimed or assigned again |
| FrontierLimits.CapIsKeptExactly | backend/src/engine/agent_action.rs:857-964 | no command lifts the live actions above the cap, except a reopening of a finished action while the frontier is full |
| FrontierLimits.CapOverRunsExactly | backend/src/engine/agent_action.rs:857-964 | a run from the empty frontier keeps the cap throughout exactly when no finished action is reopened while the frontier is full |
| FrontierLimits.OnlyReopeningRevives | backend/src/engine/agent_action.rs:857-1158 | an edit revives a finished action exactly when it is a requeue or a transient retry of a blocked or exhausted one |
| FrontierLimits.PauseOutlivesReopening | backend/src/engine/agent_action.rs:857-920 | an action reopened while paused and claimed again never expires, never counts as load and cannot be completed; otherwise the claim expires with its own lease |
| EditLaws.TakingUpGives | backend/src/engine/agent_action.rs:1006-1073 | a claim or assignment gives the action to who asked, with a full lease, and changes nothing else |
| EditLaws.CompletingExactly | backend/src/engine/agent_action.rs:1075-1122 | completed exactly as done, blocked or exhausted, while live and not paused, by its owner, an administrator, or anybody if nobody owns it; with that state and outcome, and claim, lease and counters kept |
| EditLaws.HeartbeatExactly | backend/src/engine/agent_action.rs:474-518 | only the owner beats, of a claim or of a stopped or cancelled action; exactly unpaused claims are renewed |
| EditLaws.RenewingExactly | backend/src/engine/agent_action.rs:520-545 | only the owner renews, and only a claim |
| EditLaws.PausingExactly | backend/src/engine/agent_action.rs:425-453 | exactly a claim is paused or resumed, to the other state; resuming starts a full lease |
| EditLaws.StoppingExactly | backend/src/engine/agent_action.rs:455-473 | exactly a live action is stopped, not done and not failed, keeping its owner |
| EditLaws.SteeringExactly | backend/src/engine/agent_action.rs:400-423 | a note is queued exactly for a claim with fewer than sixteen waiting |
| EditLaws.RequeuingExactly | backend/src/engine/agent_action.rs:1125-1158 | exactly claimed and failed actions are requeued: unowned, more urgent up to 10, counted |
| EditLaws.RetryingExactly | backend/src/engine/agent_action.rs:855-887 | exactly live and failed actions are retried: unowned, after the backoff, without touching the requeue count |
| EditLaws.EscalatingExactly | backend/src/engine/agent_action.rs:1160-1178 | any action is marked; a live one is blocked, a finished one stays what it was |
| EditLaws.BackoffDoubles | backend/src/engine/agent_action.rs:199-202 | half a minute, doubling with each retry, up to a quarter of an hour |
| EditLaws.RefusedUnseenExactly | backend/src/engine/agent_action.rs:1006-1122 | a malformed request is refused first, then an unknown action |
| EditLaws.RefusedByStateExactly | backend/src/engine/agent_action.rs:400-545 | in which states each edit is refused for the state |
| EditLaws.RefusedToTakeUpExactly | backend/src/engine/agent_action.rs:1006-1073 | a claim or assignment waits for the backoff, then for dependencies, then asks whose the action is |
| EditLaws.RefusedOtherwiseExactly | backend/src/engine/agent_action.rs:400-545 | who is refused as paused, as not the owner, as paused already, and for too many notes |
| EditLaws.DependencyErrorsExactly | backend/src/engine/agent_action.rs:741-766 | a dependency list is refused for its first entry that is the action itself or unknown, or else for a cycle |
| EditLaws.ReadinessExactly | backend/src/engine/agent_action.rs:690-739 | ready, failed or waiting by the states of the dependencies, and which of them it names |
| EditLaws.EnqueuingExactly | backend/src/engine/agent_action.rs:958-984 | accepted exactly below the cap and with known dependencies that close no cycle; open and unclaimed, whatever the draft says |
| EditLaws.OldClaimsGetALease | backend/src/engine/agent_action.rs:931-948 | exactly claims without a lease get one on restore, from when they were claimed, assigned or last touched |
| EditLaws.ExpiringExactly | backend/src/engine/agent_action.rs:903-917 | a claim expires the moment after its lease, never while paused |
| EditLaws.CascadingExactly | backend/src/engine/agent_action.rs:793-833 | exactly the doomed actions are blocked, name dependencies of theirs as the reason, and are taken back from their owners |
| EditLaws.CancellingExactly | backend/src/engine/agent_action.rs:601-660 | exactly the live actions of the goal are cancelled, neither done nor failed |
| EditLaws.PruningExactly | backend/src/engine/agent_action.rs:1263-1282 | dropped are exactly the finished actions older than the given age that no live action depends on |
| EditLaws.AssigneeIsImmutable | backend/src/engine/agent_action.rs:726-1178 | over every command an assignee stays until the action is reopened, blocked by a cascade or dropped |
| FrontierStore.ActionFrontier.Claim | backend/src/engine/agent_action.rs:1006-1040 | the guards in their order and the fields of a new claim, with both clock readings |
| FrontierStore.ActionFrontier.Assign | backend/src/engine/agent_action.rs:1042-1073 | the guards in their order and the fields of a new assignment |
| FrontierStore.ActionFrontier.CompleteAs | backend/src/engine/agent_action.rs:1075-1123 | the method against its specification; EditLaws.CompletingExactly says who completes what, and who is refused |
| FrontierStore.ActionFrontier.Requeue | backend/src/engine/agent_action.rs:1125-1158 | reopening with the budget counted and ownership cleared |
| FrontierStore.ActionFrontier.RetryTransient | backend/src/engine/agent_action.rs:857-887 | reopening with a backoff |
| FrontierStore.ActionFrontier.Escalate | backend/src/engine/agent_action.rs:1160-1176 | a live action is blocked, a finished one only marked |
| FrontierStore.ActionFrontier.Heartbeat | backend/src/engine/agent_action.rs:476-518 | renews exactly a live unpaused claim, hands over all queued notes once, tells a stopped owner to stop |
| FrontierStore.ActionFrontier.SetPaused | backend/src/engine/agent_action.rs:425-453 | only a claim can be paused or resumed, only to the other state; resuming starts a new lease |
| FrontierStore.ActionFrontier.Stop | backend/src/engine/agent_action.rs:455-474 | a live action ends as stopped, without lease, backoff or pause |
| FrontierStore.ActionFrontier.SetDependsOn | backend/src/engine/agent_action.rs:768-791 | the new dependencies or the reason why not |
| FrontierStore.ActionFrontier.Enqueue | backend/src/engine/agent_action.rs:958-984 | cap, validation and insertion under one lock |
| FrontierStore.ActionFrontier.CascadeDepFailures | backend/src/engine/agent_action.rs:793-833 | blocks and returns exactly the doomed actions |
| FrontierStore.ActionFrontier.CancelGoalActions | backend/src/engine/agent_action.rs:614-661 | cancels and returns exactly the live actions of the goal |
| FrontierStore.ActionFrontier.PruneTerminalOlderThan | backend/src/engine/agent_action.rs:1267-1282 | drops and counts exactly the old finished actions that no live one refers to |
| FrontierStore.ActionFrontier.ExpiredClaims | backend/src/engine/agent_action.rs:903-917 | exactly the claims whose lease is over, each once, in increasing order |
| FrontierStore.ActionFrontier.List | backend/src/engine/agent_action.rs:990-1004 | by falling priority and then falling id, cut at a limit between 1 and 100 |
| FrontierStore.ActionFrontier.Restore | backend/src/engine/agent_action.rs:931-948 | exactly the snapshot, with a lease for old claims and a counter just above every id; the snapshot of a sound frontier gives a sound frontier with the same actions |
| FrontierStore.RestoreGivesBackTheSnapshot | backend/src/engine/agent_action.rs:924-948 | storing a sound frontier and loading it gives back the same actions |
| FrontierStore.EveryStateIsSoundAcrossRestarts | backend/src/engine/agent_action.rs:924-984 | the invariant holds in every state of every run that may restart from its own snapshot at any point |
| Dispatch.LoadOf | backend/src/engine/dispatch.rs:132-144 | never more than the live claims of the worker, and all of them while at most 100 actions are claimed |
| Dispatch.LoadsExactly | backend/src/engine/dispatch.rs:131-147 | which actions are a worker's load: claims of its own that are not paused and whose lease still runs |
| Dispatch.AllAreListed | backend/src/engine/agent_action.rs:990-1004 | with at most 100 claimed actions the cut-off listing is complete |
| Dispatch.WorkerRegistry.Register | backend/src/engine/dispatch.rs:63-95 | replaces one record and keeps a blacklisting |
| Dispatch.WorkerRegistry.Blacklist | backend/src/engine/dispatch.rs:112-118 | bars one worker for the given time |
| Dispatch.WorkerRegistry.Pick | backend/src/engine/dispatch.rs:146-177 | a capable, available worker below its limit, least loaded and then first by id; none exactly when no worker qualifies |
| Dispatch.BestAmongOneMore | backend/src/engine/dispatch.rs:146-177 | looking at one more worker keeps the choice the best of those looked at |
| Dispatch.PickedIsLeastLoaded | backend/src/engine/dispatch.rs:120-178 | the worker picked is not barred, has every capability and is below its limit; no other such worker has less load, nor as much and an id that comes first |
| Dispatch.NobodyIsPickedExactly | backend/src/engine/dispatch.rs:120-178 | nobody is picked exactly when nobody is capable, available and below the limit |
| Dispatch.LexLessExactly | backend/src/engine/dispatch.rs:171-174 | ids are ordered by their first difference |
| Batches.AutoAssign | backend/src/engine/dispatch.rs:179-196 | uninterrupted: assigns to the best eligible worker, or says why not: unknown, not open, refused for the chosen worker, or nobody eligible |
| Batches.NobodyIsEligible | backend/src/engine/dispatch.rs:179-196 | no worker is answered only when none is eligible |
| Batches.AssignmentAddsOne | backend/src/engine/dispatch.rs:179-231 | an assignment raises only the named worker's load, by one at most, at every time, and the number of claimed actions by exactly one |
| Batches.AssignmentLoadsExactly | backend/src/engine/dispatch.rs:179-196 | whatever was picked when: an assignment adds one load to its worker, none if the action is paused, and none to others |
| Batches.AssignmentStaysBounded | backend/src/engine/dispatch.rs:179-231 | one more assignment keeps every worker below the larger of its earlier load and its limit |
| Batches.DispatchBatch | backend/src/engine/dispatch.rs:198-231 | uninterrupted: tries only actions that are ready, ends at its limit or after trying every one that was due, and changes only what it assigns; no worker ends above its limit and the load it had, if the live actions are within the cap or at most 100 actions are claimed whenever a load is counted |
| Batches.DueExactly | backend/src/engine/dispatch.rs:198-231 | due are exactly the ready actions that fewer than a hundred more urgent open ones come before |
| Accountability.AccountFailureKind | backend/src/engine/dispatch.rs:247-296 | uninterrupted: the disposition, the edit, the note and the cascade of one failure, and the exact registry with the blamed worker barred for a minute |
| Accountability.AccountingIsLocal | backend/src/engine/dispatch.rs:247-296 | accounting changes no other action, except open ones with an unfinished dependency |
| Accountability.FailureIsSettled | backend/src/engine/dispatch.rs:247-296 | a failed action, still claimed or already reported as blocked or exhausted, is retried, requeued or escalated by its budget; an exhausted one stays exhausted |
| Accountability.AccountingExactly | backend/src/engine/dispatch.rs:247-296 | by kind and counters alone: a transient failure is retried after a backoff at no cost until its retries are used up; any other, or a transient one after that, is requeued until the requeues are used up, and then escalated; with the exact outcome of each |
| Accountability.BlamingExactly | backend/src/engine/dispatch.rs:262-276 | exactly the owner of an action that failed as blocked, with its lease expired, or transiently once too often is barred, for a minute |
| Accountability.DoneStaysDone | backend/src/engine/dispatch.rs:247-296 | accounting never undoes a done action, cascade included |
| Accountability.SweepExpiredLeases | backend/src/engine/dispatch.rs:298-317 | uninterrupted: no expired claim is left, each is requeued or escalated by its budget with the exact outcome, in increasing order, exactly their owners are barred, and no unexpired or paused claim changes |
| Accountability.SweepOneMore | backend/src/engine/dispatch.rs:298-317 | settling one expired claim disturbs no other claim, even when it escalates and cascades |
| Accountability.StepUsesBudget | backend/src/engine/dispatch.rs:247-296 | with uninterrupted accounting, counters never fall and each reopening uses one unit of the budget |
| Accountability.ReopeningsAreBounded | backend/src/engine/dispatch.rs:247-296 | over any run with uninterrupted accounting an action is reopened at most MAX_REQUEUES + MAX_TRANSIENT_RETRIES times |
| Accountability.SpentBudgetEscalates | backend/src/engine/dispatch.rs:247-296 | with the budget spent, a failure leaves the action escalated: blocked, or exhausted when it was reported so |
| AccountingSteps.ExecutionKeepsInv | backend/src/engine/dispatch.rs:247-296 | in every interleaving of the lock steps of any number of accountings with all other commands the frontier stays sound |
| AccountingSteps.UninterruptedIsAccounted | backend/src/engine/dispatch.rs:247-296 | the lock steps of one accounting, with nothing in between, do exactly what the one-step accounting does |
| AccountingSteps.OtherClaimsAreUntouched | backend/src/engine/dispatch.rs:247-317 | in every interleaving no step of an accounting touches any claim but the one it accounts, and of that one every step but the act changes at most the noted kind of failure; when the act takes a live claim, Sweeps.SweepTakesLiveClaimExactly says |
| AccountingSteps.UntouchedFailureIsSettled | backend/src/engine/dispatch.rs:254-282 | an accounting whose action was not touched since it was read does what an uninterrupted one does |
| AccountingSteps.MoveCounts | backend/src/engine/dispatch.rs:254-282 | the counters of an action change by its reopenings only, each by one |
| AccountingSteps.BudgetIsConserved | backend/src/engine/dispatch.rs:247-296 | in every interleaving, while the action is there: reopenings plus budget left equal the budget at the start plus the reopenings that found their counter at the limit |
| AccountingSteps.ReopeningsByBudget | backend/src/engine/dispatch.rs:247-296 | in every interleaving the reopenings are at most the budget plus those decided on an outdated count |
| AccountingSteps.LimitIsPassedExactly | backend/src/engine/dispatch.rs:254-282 | a step takes a counter past its limit if and only if it reopens the action while the counter it raises is at its limit |
| AccountingSteps.LimitsAreKeptExactly | backend/src/engine/dispatch.rs:247-296 | both counters stay within their limits in every state of a run if and only if no step is such a reopening |
| AccountingSteps.AloneIsNeverLate | backend/src/engine/dispatch.rs:247-296 | while accountings of one action do not overlap, none decides on an outdated count or finds its counter at the limit, whatever else is interleaved |
| AccountingSteps.ReopeningsAreBoundedAlone | backend/src/engine/dispatch.rs:247-296 | then an action is reopened at most MAX_REQUEUES + MAX_TRANSIENT_RETRIES times; AccountingSteps.BudgetIsConserved is the exact count in general |
| AccountingSteps.CountersStayWithinLimits | backend/src/engine/dispatch.rs:247-296 | and each of its two counters stays within its own limit throughout; AccountingSteps.LimitsAreKeptExactly is the exact condition |
| Sweeps.SweepTakesLiveClaimExactly | backend/src/engine/dispatch.rs:298-317 | in every interleaving, the act of a sweep on an action it listed takes an unexpired or paused claim if and only if the last claim, assignment, heartbeat, renewal, pause or resume since the listing leaves it paused or with a lease that still runs |
| Sweeps.ListedBefore | backend/src/engine/dispatch.rs:298-317 | a call under way for a sweep was started by a listing of its action |
| Sweeps.UntouchedIsAsBefore | backend/src/engine/agent_action.rs:425-545 | no other step of any client or accounting starts or renews a lease, or pauses or resumes a claim |
| Sweeps.TouchedIsProtectedExactly | backend/src/engine/agent_action.rs:425-545 | which of these edits leaves a live claim at a later time, and which does not |
| Schedules.OverlapExceedsTheBudget | backend/src/engine/dispatch.rs:254-282 | a run from the empty frontier in which a sweep and a report overlap: the count exceeds its limit |
| Schedules.OneSweepTakesALiveClaim | backend/src/engine/agent_action.rs:474-518 | a run from the empty frontier with one accounting in flight: a heartbeat renews a listed claim, and the sweep takes it |
| Schedules.PausedReopeningIsReachable | backend/src/engine/agent_action.rs:425-453 | a run in which a sweep requeues a claim that was paused meanwhile; the next claim never expires |
| Schedules.ReopenAboveTheCap | backend/src/engine/agent_action.rs:958-984 | a run that ends with one live action more than the cap |
| Schedules.TwoDispatchersOverload | backend/src/engine/dispatch.rs:179-196 | two dispatchers pick the same worker of limit one before either assigns, and it ends up with two actions |
| TailLog.LinesAppend | guard/src/main.rs:1176-1196 | cutting a text at a line start splits its lines: the specification is compositional |
| TailLog.LinesLineByLine | guard/src/main.rs:1176-1196 | read declaratively: each complete line of at most 16 KiB that decodes to something non-blank, once and in order |
| TailLog.SegmentStep | guard/src/main.rs:1178-1190 | what one segment does to the cursor and to the output, skipping of long lines included |
| TailLog.ScanRefinesOnePass | guard/src/main.rs:1176-1196 | one bounded read returns exactly the lines between the old and the new position, from any legal position |
| TailLog.LogTail.TailLog | guard/src/main.rs:1141-1198 | the method with its three mutable fields, against one poll, unreadable files included |
| TailLog.LogTail.ReadSegments | guard/src/main.rs:1178-1197 | the loop over the segments, against the scan |
| TailLog.PollRefinesOnePass | guard/src/main.rs:1141-1198 | one poll of a file that was not rotated |
| TailLog.EveryScheduleRefinesOnePass | guard/src/main.rs:1141-1198 | for every schedule of appends and polls, all that was returned equals one pass over the consumed bytes |
| TailLog.PollMakesProgress | guard/src/main.rs:1141-1198 | a complete line ahead moves the cursor |
| TailLog.PollingDrainsTheFile | guard/src/main.rs:1141-1198 | polling a fixed file often enough returns all its complete lines |
| TailLog.RotationStartsAfresh | guard/src/main.rs:1137-1198 | every poll from any cursor: with two known identities that differ, or a file shorter than the position, the lines from its start on; in every other case reading goes on where it stopped |
| TailLog.EveryGenerationIsRead | guard/src/main.rs:1137-1198 | across any number of rotations, everything returned is one pass over a prefix of each generation of the file |
| Dream.JunkGuarantees | backend/src/engine/dream.rs:153-196 | only live unprotected junk, each once, at most ten, and all of it when there is less |
| Dream.QuarantineJunk | backend/src/engine/dream.rs:153-196 | the loop that quarantines; a dry run decides the same and changes nothing |
| Dream.FindPairs | backend/src/engine/dream.rs:219-268 | both scans, with the early exit of the large one |
| Dream.ScanFinds | backend/src/engine/dream.rs:219-268 | only candidate pairs above the threshold are found, and all of them unless the scan stopped early |
| Dream.ByScoreIsSorted | backend/src/engine/dream.rs:270 | sorting by score keeps every pair and puts the most similar first |
| Dream.MergePairs | backend/src/engine/dream.rs:272-328 | the merging loop; a dry run decides the same and changes nothing |
| Dream.PlanGuarantees | backend/src/engine/dream.rs:207-328 | at most `consolidate_depth` merges of similar candidates, none removed twice; unless cut short, no two similar candidates remain |
| Dream.SurvivorIsKept | backend/src/engine/dream.rs:272-328 | every chain of keepers ends at a memory that no merge removes |
| Dream.SurvivorIsNotLighter | backend/src/engine/dream.rs:288-292 | the end of a chain is at least as heavy as every memory it stands for |
| Dream.MergesDo | backend/src/engine/dream.rs:296-322 | removed memories are superseded once and nothing else, keepers only gain mass, up to the maximum, the rest is untouched |
| Dream.Cycle | backend/src/engine/dream.rs:95-333 | the two phases: over the window of the hour or the whole corpus, and over the whole corpus once something was quarantined; when exactly the second view exceeds the window; a dry run changes nothing |
| Dream.WidenedView | backend/src/engine/dream.rs:95-205 | a cycle that sees 1500 memories first and 1501 then |
| Dream.NoJunkRemains | backend/src/engine/dream.rs:153-196 | a phase that saw the whole corpus and quarantined fewer than ten took all junk of it |
| Dream.NoJunkInTheEnd | backend/src/engine/dream.rs:95-333 | such a cycle ends, merges included, with a corpus in which nothing is junk |
| Dream.NoSimilarPairRemains | backend/src/engine/dream.rs:207-328 | a phase that saw the whole corpus and was not cut short removed one of every two similar candidates |
| Dream.NoSimilarPairInTheEnd | backend/src/engine/dream.rs:95-333 | such a cycle ends with a corpus without two similar candidates |
| Dream.CycleIsSafe | backend/src/engine/dream.rs:95-333 | no memory disappears or loses text, exactly the removed ones become superseded, and bystanders stay as they were |
| Dream.ProtectedMemoriesAreUntouched | backend/src/engine/dream.rs:95-333 | an enforced memory keeps every field and its mass |
| Dream.EveryRemovedMemorySurvives | backend/src/engine/dream.rs:272-328 | each superseded memory leads through its keepers to one that ends the cycle not superseded and was at least as heavy |
| Dream.RemovedIsNoCandidate | backend/src/engine/dream.rs:207-217 | what a cycle superseded is no candidate of the next |
| Dream.SupersedingRaisesExactly | backend/src/engine/dream.rs:296-301 | superseding raises the importance exactly of memories below the floor |
| Dream.SupersedingCanRaise | backend/src/engine/dream.rs:296-301 | a memory of importance 0.2 that ends up with 0.3 |
| DreamLaws.QuarantinedExactly | backend/src/engine/dream.rs:153-196 | what counts as junk, by labels, mass, age and importance |
| DreamLaws.FirstTenExactly | backend/src/engine/dream.rs:153-196 | a junk memory is left alone exactly if ten before it were quarantined |
| DreamLaws.QuarantinedAreDemoted | backend/src/engine/dream.rs:153-196 | a quarantined memory is labelled, of importance at most 0.3 and of the least mass |
| DreamLaws.MergedAreDuplicates | backend/src/engine/dream.rs:207-292 | merged are two memories neither enforced, superseded nor the engine's own, with healthy vectors more similar than 0.95; the heavier one stays |
| DreamLaws.StopsEarlyExactly | backend/src/engine/dream.rs:234-268 | the scan stops early exactly over more than thirty candidates, with three pairs found for each merge allowed |
| DreamLaws.MostSimilarFirst | backend/src/engine/dream.rs:270-328 | a pair that was found and left alone means that the limit was used up by pairs at least as similar |
| DreamLaws.RemovedAreDemoted | backend/src/engine/dream.rs:296-301 | a superseded memory is labelled and ended, with 0.15 of its importance or the floor |
| DreamLaws.KeepersGain | backend/src/engine/dream.rs:313-317 | a memory that stays gains half a unit of mass for each one merged into it, up to the maximum |
| DreamLaws.EveryMemoryHasItsTurn | backend/src/engine/dream.rs:103-134 | the window rolls over a whole corpus that stays as it is: each memory is in view within as many hours as windows cover it |
| Chunking.CutAfter | backend/src/engine/digestion.rs:307-320 | the cut comes right after the last occurrence of the most preferred separator in the window, or at its end |
| Chunking.WindowEnd | backend/src/engine/digestion.rs:297-305 | the shortest stretch of whole characters that reaches the limit |
| Chunking.PiecesAreTheText | backend/src/engine/digestion.rs:293-329 | the pieces of a long text concatenate to it |
| Chunking.PiecesAreWellCut | backend/src/engine/digestion.rs:293-329 | each piece ends right behind the last occurrence of the most preferred separator in the shortest window that reaches the limit, or fills it; what fits the window is one piece |
| Chunking.PiecesAreBounded | backend/src/engine/digestion.rs:293-329 | each piece is at most the limit plus three bytes |
| Chunking.SplitLongText | backend/src/engine/digestion.rs:293-329 | the cutting loop, which always advances |
| Chunking.ParagraphsRoundTrip | backend/src/engine/digestion.rs:257-258 | splitting at paragraph breaks and joining again is the identity |
| Chunking.TrimIsAStretch | backend/src/engine/digestion.rs:270-284 | trimming cuts white space off the ends and keeps all that lies between |
| Chunking.FitsExactly | backend/src/engine/digestion.rs:272-281 | one more paragraph fits exactly when the joined text with it stays within the limit |
| Chunking.PackingIsUnique | backend/src/engine/digestion.rs:272-281 | there is one greedy packing of a list of paragraphs |
| Chunking.ChunksAreTheGreedyPacking | backend/src/engine/digestion.rs:256-291 | the chunks are the trimmed runs of that packing: none could have taken one more paragraph |
| Chunking.ChunkingIsLossless | backend/src/engine/digestion.rs:256-291 | the characters other than white space are those of the document, in order |
| Chunking.ChunksKeepTheText | backend/src/engine/digestion.rs:256-291 | the chunks are runs, joined and trimmed, of stretches of the document that follow one another with only white space around them: white space inside a stretch is kept; a paragraph that fits is one stretch |
| Chunking.ChunksAreBounded | backend/src/engine/digestion.rs:256-291 | each chunk is at most the limit plus three bytes, not blank and trimmed |
| Chunking.ChunkContent | backend/src/engine/digestion.rs:256-291 | the buffer loop, against the chunks; Chunking.ChunksKeepTheText says what they hold |
| Chunking.Digest | backend/src/engine/digestion.rs:114-131 | which documents are refused; an accepted one yields at least one bounded chunk, and its chunks keep the text, the white space between its words included |
| Outcomes.EntropyIsAFraction | backend/src/engine/dynamics.rs:4-30 | the entropy of a cluster, the mean dissimilarity of its pairs, lies between 0 and 1 |
| Outcomes.JaccardExactly | backend/src/engine/vector.rs:506-522 | label lists agree fully as equal sets, not at all as disjoint ones, two empty ones fully; whichever comes first |
| Outcomes.EntropyExtremes | backend/src/engine/dynamics.rs:4-30 | no entropy exactly if all members have the same labels, all of it exactly if no two share any |
| Outcomes.MeanEntropyIsAFraction | backend/src/engine/scheduler.rs:5413-5431 | the mean entropy of the clusters, by label overlap, lies between 0 and 1 |
| Outcomes.EffectivenessRange | backend/src/engine/outcome.rs:31-70 | what each action can score: only fission and dreams below 0, a dream never below -0.6 |
| Outcomes.WorstCases | backend/src/engine/outcome.rs:31-70 | observations at the lower ends of these ranges: a dream that superseded one of two unlabelled memories, a fission that left its cluster less coherent |
| LearningLaws.ScoresExactly | backend/src/engine/outcome.rs:31-70 | when exactly merging, eviction and pulses count as good |
| LearningLaws.FissionScoresExactly | backend/src/engine/outcome.rs:31-41 | fission counts in a disordered space only, by the entropy it removed per root of its cost |
| LearningLaws.DreamScoresExactly | backend/src/engine/outcome.rs:42-50 | six parts entropy removed, four parts clusters changed |
| Adaptive.TableIsUsable | backend/src/engine/adaptive.rs:38-104 | defaults lie within bounds, rates are positive, and snapshot keys are distinct |
| Adaptive.AdaptiveParams.AdaptFromOutcome | backend/src/engine/adaptive.rs:211-235 | which parameters an outcome teaches, and how strongly |
| LearningLaws.OutcomesTeachExactly | backend/src/engine/adaptive.rs:211-235 | which parameters each action teaches, at which strength; all others stay |
| LearningLaws.LearningDirection | backend/src/engine/adaptive.rs:110-116 | a score above one half raises a parameter, one below lowers it, and one half leaves it |
| Adaptive.AdaptiveParams.RestoreJson | backend/src/engine/adaptive.rs:171-192 | what a snapshot restores, corrupt and partial ones included, and the count it reports |
| LearningLaws.EntriesExactly | backend/src/engine/adaptive.rs:171-192 | what a snapshot says about a parameter, corrupt and partial entries included |
| Adaptive.MomentumBoundExactly | backend/src/engine/adaptive.rs:110-116 | a momentum bound of n learning rates is kept exactly by effectiveness whose gradient is at most n/5 |
| Adaptive.EveryRunStaysBounded | backend/src/engine/adaptive.rs:110-116 | over every recorded run values stay in range, and momentum within 5 learning rates except for the parameters of fission (15 and 10) and dreams (11) |
| Adaptive.HarmlessRunsStayBounded | backend/src/engine/adaptive.rs:110-116 | with effectiveness never negative no momentum leaves 5 learning rates |
| Adaptive.RestartIsExactly | backend/src/engine/adaptive.rs:157-192 | a restart reproduces the state exactly when every momentum is within 5 learning rates |
| Adaptive.HarmlessRunsSurviveRestart | backend/src/engine/adaptive.rs:157-192 | with effectiveness never negative any run continues after a restart as if nothing had happened |
| Adaptive.HarmfulDreamsDoNot | backend/src/engine/adaptive.rs:157-192 | three dreams at the lowest score a dream can get, after which it does not |
| Adaptive.HarmfulFissionsDoNot | backend/src/engine/adaptive.rs:157-192 | two fissions after which it does not |
| Adaptive.SecondParametersNeverRise | backend/src/engine/adaptive.rs:211-224 | the half-strength parameters never exceed their defaults, however effective fission and merging are |

## Left out

- HTTP, MCP and TCP servers, command-line tools, storage, encryption, language-model calls, the knowledge graph and the vector index.
- Rounding, NaN and infinities of double arithmetic, and saturation of grid keys at the ends of the 64-bit range: reals and unbounded grid keys instead.
- The trigonometric placement of ports: the model uses eight fixed directions per ring; the space itself assumes only that the ports it is given are pairwise separated.
- `update_vertex_ids` (backend/src/domain/space.rs:675), which bypasses every index and both stamps; growth of the cylinder, its health report and the identity ritual.
- The setters of single payload fields (backend/src/domain/space.rs:609-673) are one member, `Space.UpdateField`, with the field as an argument.
- Wrap-around of action identifiers and version stamps, which would take 2^64 operations.
- Goals: creating them, proving them with evidence and closing them automatically; only the cancellation of a goal's actions is modelled. The two locks taken in turn by `prove_goal` and `check_goal_open` give no atomicity to prove.
- Steering, lease renewal and binding to tasks are edits without a method of their own; truncation of worker ids and notes to a maximum length is not modelled.
- Accountability.AccountFailureKind, like `SweepExpiredLeases` and `ReopeningsAreBounded`: one uninterrupted step; what still holds when other clients run between its locks, and exactly when it does not, is stated in `AccountingSteps` and `Sweeps`.
- AccountingSteps.Perform: blacklisting takes the registry's lock only and is not a step of the frontier.
- Batches.AutoAssign: uninterrupted, while the source reads the action, counts the loads and assigns under separate locks; what an assignment does whatever ran in between is stated in `Batches.AssignmentLoadsExactly`.
- Batches.DispatchBatch: uninterrupted for the same reason. The load bound asks for a frontier within its cap or at most 100 claimed actions whenever a load is counted, which is the length of the listing that the source counts on; beyond that its count is too low.
- SpaceRuns.Run: rebuilding chooses among tetrahedra in an arbitrary order, so whether it gives a second port is read off the ports after it.
- Nearest.GlobalExactly: asks for an unused tetrahedron id and room for four vertices, without which no other space could extend this one.
- TailLog.EveryGenerationIsRead: rotations that replace the file by one of another known identity; what was not yet read of a file when it was replaced is lost, as in the source.
- TailLog.LogTail.TailLog: UTF-8 decoding and trimming are the parameter `render`, for every such function.
- Dream.Cycle: nothing else changes the store during a cycle, and phases 3 and 4, which only add graph relations and report clusters, are left out, as are the texts of the insights.
- Chunking.Width: characters are Unicode scalar values, so every position is a character boundary; the search for a boundary after a cut in the source finds one at once.
- Chunking.SplitLongText: asks for a positive limit; the source's only caller demands at least 50, and with 0 its loop would not end.
- Outcomes.Effectiveness: the square root of the energy cost is part of an observation, as any positive number whose square is the cost.
