# OpenFabric: verified models of the planning, flow, routing and replication core

This project models the parts of OpenFabric that carry an algorithm or a protocol, in Dafny 4.11, and proves what they
promise. Each group of modules follows one component of the repository.

- **Layer-shard planner** (`NodeMask`, `ShardModel`, `ShardTable`, `ShardSearch`, `ShardPlanner`, `ShardCost`,
  `ShardStatic`). The bitmask dynamic program that splits a model's layers over nodes, the walk back through its table,
  and the proportional fallback. `ShardModel` says what a chain of shards is and costs without mentioning the table; the
  table, the final choice and the walk are proved against it. The sentinels 1e18 and 1e17 are modelled as written, so the
  main theorem is stated with them: the planner returns a cheapest chain among those that stay under the ceiling, and
  reports an error exactly when there is none. `IdealExactly` says when that is the unqualified promise, `IdealWithin`
  gives a bound on links and speeds that guarantees it, `CeilingHidesAChain` an input outside it. `ShardCost` says what
  the costs and limits are in terms of the reports alone.
- **Flows** (`FlowGraph`, `FlowValidation`, `FlowEngine`, `FlowRuns`, `FlowOutcome`, `FlowOrder`, `FlowCoordinator`,
  `FlowSequential`, `FlowService`). Validation by depth-first colouring; the parallel executor as a state machine with one
  worker per dispatched step and a buffered result channel; the coordinator's code, proved to take exactly the machine's
  steps. All theorems about executions are over every interleaving, cancellation included. `outcome` stands for what
  running a step returns; it is a function of the step and of the outputs it finds, because every worker reads the map of
  all outputs that the coordinator goes on filling. What a step finds lies anywhere between the outputs at its dispatch
  and those at its return, so the order in which steps finish can show in the result; `FlowOrder` says exactly when it
  does. Cancellation is an input: at each wait for a result the context is cancelled or not.
- **Mesh router** (`MeshRouter`, `MeshRelay`). Breadth-first route calculation, and the relay handshake carried with a hop
  budget through the tables of many nodes.
- **Filter builder** (`Seccomp`). A set of numbers compiled to a classic BPF program and to bytes, with an interpreter of the
  three instructions it uses (as in the Linux kernel's seccomp filter documentation).
- **Scheduling** (`TaskQueue`, `CircuitBreaker`). The heap whose comparison reads the clock, twice in each comparison and
  at any times during an operation, and the breaker with backoff.
- **Replication and search** (`SettingsSync`, `Chunker`, `DistributedSearch`). Last-writer-wins settings, overlapping text
  chunks, and the reduce phase of a distributed top-K query.

Code that updates variables, arrays or fields is imperative here too, and is proved against functions or predicates; those
carry the lemmas. What the language leaves open is left open: sorting (`sort.Slice`) is used only through "a sorted
permutation", iteration over a map picks any remaining key, workers return in any order, and the search for any positive
measured speed may pick any.

Where comments in the repository and its code differ, the model follows the code:

- `internal/flow/engine.go:502-524` marks steps whose dependency failed, but a failed dependency is never completed, so the
  test at 491-501 has already skipped them. `CollectReady` proves the branch dead; such steps leave through the stalled exit.
- `internal/flow/flow.go:175-209` speaks of an iterative search; it is recursive, and its last error message (line 191) is
  proved unreachable.
- `internal/scheduler/circuit_breaker.go:107-109` says one probe at a time; `ManyProbesAtOnce` and
  `HalfOpenWaitsForOutcomes` state what happens instead.
- `internal/llm/shard.go:87,124` calls the coordinator the highest-RAM node; nodes with a GPU are sorted first.
- `internal/scheduler/seccomp_linux.go:11` speaks of about 330 permitted numbers; the list at 165-435 has 269 entries. If they
  are distinct (their values are not part of this model) the list is above the bound of `BytesCorrectExactly`, and by
  `OnX86Exactly` which of them pass on x86_64 depends on the map's iteration order.

## Model

| member | source | states |
|---|---|---|
| `NodeMask.SetBit` | internal/llm/shard.go:398-408 | Setting a clear bit of a mask adds exactly that node |
| `NodeMask.ClearBitRemoves` | internal/llm/shard.go:416-419 | `mask &^ (1 << u)` removes exactly node u and is inverse to setting it |
| `ShardModel.DropLast` | internal/llm/shard.go:404-431 | Every chain of several runs is a shorter chain plus one run on a node outside its mask |
| `ShardModel.AddRun` | internal/llm/shard.go:427-448 | Extending a chain by a run that fits, on a new node, gives a chain over the layers up to it |
| `ShardTable.ChainDominated` | internal/llm/shard.go:412-451 | A cell no transition can improve is a lower bound for every chain under the ceiling that reaches it |
| `ShardTable.BaseCases` | internal/llm/shard.go:378-402 | Exactly the cells of feasible single runs are filled, with their hop in and compute time |
| `ShardTable.Relax` | internal/llm/shard.go:421-450 | One transition keeps the cell realised by a chain and makes it no dearer than that transition |
| `ShardTable.RelaxCell` | internal/llm/shard.go:412-453 | After all predecessors and split points the cell is exact, and no other cell has changed |
| `ShardTable.FillTable` | internal/llm/shard.go:358-455 | Every cell's cost is the minimum over all chains to it under the ceiling, realised by a chain its back-pointer describes |
| `ShardSearch.ChooseBest` | internal/llm/shard.go:457-482 | Picks an eligible final cell of least cost with the hop back, or -1 exactly when none is eligible |
| `ShardSearch.ChainHasCell` | internal/llm/shard.go:461-482 | Every complete chain under the ceiling ends in an eligible cell that costs no more |
| `ShardSearch.ReplaceFront` | internal/llm/shard.go:500-510 | A chain's front may be exchanged for another to the same cell at the same cost |
| `ShardSearch.StepBack` | internal/llm/shard.go:500-510 | Each step of the walk keeps a complete chain of optimal cost in hand |
| `ShardSearch.WalkBack` | internal/llm/shard.go:496-510 | The back-pointer walk terminates with a complete chain that reaches the chosen cell at its cost |
| `ShardSearch.ReversePath` | internal/llm/shard.go:512-515 | The in-place reversal reverses the path |
| `ShardPlanner.FilterEligible` | internal/llm/shard.go:129-145 | The nodes with RAM for a layer, each as often as given, GPU nodes first, then more free RAM first |
| `ShardPlanner.BuildMatrices` | internal/llm/shard.go:249-274 | Each matrix holds the newest report about every pair |
| `ShardPlanner.ComputeLatencyPerLayer` | internal/llm/shard.go:312-336 | Own measured speed, else any positive one, else the default; never negative |
| `ShardPlanner.Solve` | internal/llm/shard.go:351-534 | A plan whose chain is cheapest among all chains under the ceiling, or an error exactly when there is none |
| `ShardPlanner.PlanShardsDynamic` | internal/llm/shard.go:244-535 | The three errors and when they occur; otherwise the answer for the problem these inputs describe, also when TotalRAM is not positive |
| `ShardPlanner.IdealExactly` | internal/llm/shard.go:423-486 | Optimal and complete over all chains exactly when nothing is feasible or some cheapest chain is under the ceiling |
| `ShardPlanner.IdealWithin` | internal/llm/shard.go:423-486 | A bound on links and speeds under which the planner is optimal and complete outright |
| `ShardPlanner.CeilingHidesAChain` | internal/llm/shard.go:423-425 | Concrete nodes and reports from which a problem with a feasible chain arises and for which the planner reports none |
| `ShardPlanner.PlanIsValid` | internal/llm/shard.go:488-534 | The shards partition layers 0..M-1 in order over distinct nodes with room for them; total assigned RAM is M·⌊TotalRAM/M⌋, less than M bytes below TotalRAM (rounding toward zero if that is negative) |
| `ShardPlanner.IdealOnOrdinaryClusters` | internal/llm/shard.go:423-486 | So the promise is unqualified for up to a million layers on links and layers that take at most a day each |
| `ShardCost.CostByReports` | internal/llm/shard.go:378-482 | The cost the planner minimises is the way to the first node and back, the hand-overs, and for every single layer the seconds a layer takes on the node that holds it |
| `ShardCost.TransferByReports` | internal/llm/shard.go:276-310 | A hand-over takes ms/1000 + 1/(MB/s) seconds by the newest reports: own direction first, then the other, then 2 ms and 100 MB/s |
| `ShardCost.LayerSecondsByReports` | internal/llm/shard.go:312-336 | A node that reports a speed takes 1/speed seconds for all layers; without reports 5 ms a layer with a GPU, 30 ms without |
| `ShardCost.LastReportIsNewest` | internal/llm/shard.go:249-274 | The entry of a matrix is that of the last report about the pair |
| `ShardCost.RoomInBytes` | internal/llm/shard.go:382-389 | Room for some layers in bytes: whole bytes per layer, on the coordinator beside its reserve |
| `ShardCost.ReserveInBytes` | internal/llm/shard.go:45-64 | The reserve is 1 GiB and 8192 bytes for each layer and embedding position |
| `ShardCost.EligibleExactly` | internal/llm/shard.go:129-137 | A node is eligible exactly when its free RAM reaches one layer, rounded down |
| `ShardCost.CoordinatorIsBest` | internal/llm/shard.go:138-144 | The coordinator has a GPU if any eligible node has, and most free RAM among its like |
| `ShardStatic.AssignLayers` | internal/llm/shard.go:149-186 | Partition of the layers; a node's shard is its share or one layer; shares fit; the last node exceeds its RAM by at most (n-1) layers |
| `ShardStatic.StaticFitsExactly` | internal/llm/shard.go:87-120 | Every shard but the last node's fits exactly when the coordinator is alone or has room for one layer beside its reserve |
| `ShardStatic.StaticAssignsExactly` | internal/llm/shard.go:168-183 | Recorded RAM adds up to that of all layers exactly when no node before the last asks for more layers than those before it leave |
| `ShardStatic.StaticOverRecords` | internal/llm/shard.go:168-180 | Ten layers over four nodes for which eleven bytes are recorded |
| `ShardStatic.StaticOverfills` | internal/llm/shard.go:87-100 | A coordinator without room beside its reserve that gets a layer all the same |
| `ShardStatic.PlanStatic` | internal/llm/shard.go:79-126 | The fallback is a proportional split exactly when some node is eligible and effective RAM covers the model |
| `ShardStatic.StaticRefusesExactly` | internal/llm/shard.go:76-118 | Refused exactly when no node is eligible or all free RAM less the coordinator's reserve is below the model's |
| `ShardStatic.EffectiveRAMIsRoom` | internal/llm/shard.go:87-100 | Effective RAM is what the planner counts as room: free RAM, on the coordinator beside its reserve |
| `ShardStatic.PlanShards` | internal/llm/shard.go:68-127 | The dynamic plan if there is one; the fallback's answer only when no node is eligible or no chain is under the ceiling; when nothing fits, any plan overfills a node |
| `ShardStatic.FallbackOverfills` | internal/llm/shard.go:76-126 | With at most ten eligible nodes of distinct ids and no feasible chain, every plan of the fallback gives some node more than its effective RAM |
| `FlowGraph.PathDescends` | internal/flow/flow.go:180-201 | Along dependencies the position in a topological order falls |
| `FlowGraph.CycleRefutesOrder` | internal/flow/flow.go:184-191 | A reported cycle means there is no topological order |
| `FlowValidation.CycleFinder.Visit` | internal/flow/flow.go:180-201 | The colouring search terminates; no error means the step and all it reaches are finished, dependencies first; an error is a real cycle |
| `FlowValidation.CheckSteps` | internal/flow/flow.go:140-161 | Accepts non-empty unique ids and non-colliding write targets; any error names a real defect |
| `FlowValidation.CheckReferences` | internal/flow/flow.go:164-173 | Accepts when every dependency is another step of the flow; any error names a real defect |
| `FlowValidation.JustifiedMeansInvalid` | internal/flow/flow.go:132-209 | A defect of any of the six kinds makes the flow invalid |
| `FlowValidation.ValidateDependencies` | internal/flow/flow.go:132-209 | nil exactly for valid flows (ids, targets, references, a topological order exists); otherwise the error names a real defect, and checks are made in the order ids and targets, references, cycles |
| `FlowValidation.AcceptedFlowsWriteApart` | internal/flow/flow.go:149-160 | In an accepted flow no two save or AI steps write one file, named by save_to or else path |
| `FlowValidation.CollisionIsReal` | internal/flow/flow.go:149-160 | A reported collision is between two save or AI steps that name that file |
| `FlowValidation.TwoWritersRefused` | internal/flow/flow.go:155-158 | Two AI steps that save to one file make a flow invalid |
| `FlowEngine.NextKeepsInv` | internal/flow/engine.go:474-617 | Every step of coordinator, workers or cancellation keeps the executor's invariant |
| `FlowEngine.SentIsReturned` | internal/flow/engine.go:439-469 | What a returning step found lies between the outputs of two moments at which it could be running |
| `FlowRuns.RunKeepsInv` | internal/flow/engine.go:474-617 | In every reachable state the maps are disjoint, dispatched steps had their dependencies completed, each running step has one worker or one result |
| `FlowRuns.StepsRunAtMostOnce` | internal/flow/engine.go:531-536 | No step is dispatched twice, and only when its dependencies are in completed |
| `FlowRuns.SendNeverBlocks` | internal/flow/engine.go:423-424 | A worker always finds room in the channel, also after cancellation |
| `FlowRuns.RunsTerminate` | internal/flow/engine.go:474-617 | Every run has at most 4·steps + 3 states |
| `FlowRuns.NeverStuck` | internal/flow/engine.go:539-562 | Until the coordinator has left and all workers have sent, some step is possible |
| `FlowRuns.RunKeepsControl` | internal/flow/engine.go:539-627 | Phase and error always reflect the maps |
| `FlowOutcome.AccountedExactly` | internal/flow/engine.go:480-526 | At the end a step ran exactly when all its dependencies completed |
| `FlowOrder.FinishOrderIrrelevant` | internal/flow/engine.go:439-469 | If each step's result depends only on outputs of steps it depends on, directly or not, final completed and failed maps do not depend on finish order |
| `FlowOrder.OrderIndependentExactly` | internal/flow/engine.go:439-469 | All finished runs leave the same maps exactly when, on what one of them left, no step's result depends on which outputs it finds beside those it depends on |
| `FlowOrder.FinishOrderMatters` | internal/flow/engine.go:439-469 | A flow of three steps whose last completes or fails by the order in which the other two finish |
| `FlowOrder.Realised` | internal/flow/engine.go:439-469 | If there is one result, whatever a step may find of it some finished run had it find |
| `FlowOrder.CanFinish` | internal/flow/engine.go:474-617 | Any uncancelled run can be continued to one the coordinator ends by itself, keeping what it recorded |
| `FlowOutcome.NeverRunExactly` | internal/flow/engine.go:491-555 | The steps never run are exactly those with a failed transitive dependency |
| `FlowOutcome.CompletedExactly` | internal/flow/engine.go:539-627 | Reported completed exactly when every step completed |
| `FlowOutcome.ErrorExactly` | internal/flow/engine.go:546-596 | An uncancelled run reports how many steps it never reached, if any; otherwise the failure received first; none if nothing failed |
| `FlowOutcome.ResumedFailureExactly` | internal/flow/engine.go:377-385 | Any run, resumed or fresh, is reported completed exactly when no step failed in it and no step depends on one recorded as failed before |
| `FlowOutcome.SuccessDecides` | internal/flow/engine.go:539-627 | The same in terms of step results: necessary and sufficient successes, one condition for steady steps |
| `FlowOutcome.ResumedFailureReportedCompleted` | internal/flow/engine.go:377-385 | A resumed run with nothing completed that is reported completed |
| `FlowCoordinator.ApplyImplicitChain` | internal/flow/engine.go:405-421 | Without declared dependencies the list becomes a chain, otherwise nothing changes |
| `FlowCoordinator.Coordinator.CollectReady` | internal/flow/engine.go:474-526 | Collects exactly the ready steps in list order; the cascade branch is dead |
| `FlowCoordinator.Coordinator.Pass` | internal/flow/engine.go:474-555 | One pass of the loop is the machine's coordinate step |
| `FlowCoordinator.Coordinator.ReceiveResult` | internal/flow/engine.go:562-596 | Receiving a result is the machine's receive step |
| `FlowCoordinator.ExecuteRun` | internal/flow/engine.go:356-643 | Whatever the environment does the loop ends with the error of a run of the machine; it ends as cancelled only if the context was cancelled while it waited for that result |
| `FlowService.CompletedMeansAllOk` | internal/flow/engine.go:539-627 | From a fresh start, reported completed only if every step succeeds on outputs it may find, and always if every step succeeds on all of them; for steady steps one condition |
| `FlowSequential.OneStepAtATime` | internal/flow/engine.go:405-421 | A chain runs one step at a time and has always completed a prefix of the list, also when resumed after a failure |
| `FlowService.ExecuteFlow` | internal/flow/engine.go:356-643 | A validated flow, from start to status: declared dependencies first; one step at a time if none is declared; the steps never run are those with a failed ancestor; the right error; cancelled only if its context was, and completed if all steps succeed and it was not |
| `MeshRouter.NoShorterPath` | internal/network/router.go:121-145 | No path is shorter than the finished table says |
| `MeshRouter.Router.RecalculateRoutes` | internal/network/router.go:84-146 | The table holds exactly the reachable nodes, shortest distances, and next hops that are direct neighbours starting shortest paths |
| `MeshRouter.Router.UpdateNodeConnections` | internal/network/router.go:66-73 | The report is recorded and the table exact again |
| `MeshRouter.Router.DeleteNode` | internal/network/router.go:75-82 | The node's report is gone and the table exact again |
| `MeshRelay.RelayEnds` | internal/network/router.go:249-318 | With any tables a request passes at most one handler more than its hop budget |
| `MeshRelay.StreamEnds` | internal/network/router.go:158-219 | At most six handlers, whatever the tables |
| `MeshRelay.DeliveryIsTrusted` | internal/network/router.go:225-278 | On delivery each handler trusts its requester and the destination, and the last one is connected to it |
| `MeshRelay.StreamOpensExactly` | internal/network/router.go:158-335 | In any mesh, a stream opens exactly when the origin opens it directly or its table and those of at most five handlers lead to a node that does, every handler trusting both ends and every stream opening |
| `MeshRelay.NextHopIsCloser` | internal/network/router.go:279-309 | With a shared topology each forward lowers the distance by one |
| `MeshRelay.RelayDelivers` | internal/network/router.go:249-335 | With one topology and any trust, delivered exactly when the budget covers the distance and each handler on the tables' route trusts its requester and the destination; handler k is k links closer |
| `MeshRelay.StreamDeliveredExactly` | internal/network/router.go:158-219 | A stream to a node at distance d is delivered exactly when d is at most 6 and each handler on the tables' route trusts its requester and the destination |
| `MeshRelay.TrustingMeshDelivers` | internal/network/router.go:158-219 | Where everybody trusts everybody, delivered exactly when d is at most 6, through d-1 handlers |
| `MeshRelay.UnreachableRefused` | internal/network/router.go:172-179 | An unreachable node is refused at the origin |
| `Seccomp.DecodeEncode` | internal/scheduler/seccomp_linux.go:138-146 | Eight little-endian bytes decode to the instruction |
| `Seccomp.RunEncoded` | internal/scheduler/seccomp_linux.go:138-146 | Interpreting the bytes equals interpreting the instructions |
| `Seccomp.AlwaysReturns` | internal/scheduler/seccomp_linux.go:104-136 | All jumps stay in range and forward; the program always ends in a verdict |
| `Seccomp.OnX86Exactly` | internal/scheduler/seccomp_linux.go:104-131 | On x86_64 exactly the last 255 listed numbers are allowed |
| `Seccomp.FilterCorrectExactly` | internal/scheduler/seccomp_linux.go:79-136 | Right on every input exactly up to 253 numbers |
| `Seccomp.EmitChecks` | internal/scheduler/seccomp_linux.go:98-113 | One check per number, in whatever order the set yields |
| `Seccomp.EncodeAll` | internal/scheduler/seccomp_linux.go:138-146 | The buffer holds each instruction's eight bytes |
| `Seccomp.BuildSeccompFilter` | internal/scheduler/seccomp_linux.go:57-153 | Bytes of the laid-out program for some enumeration of the set, or a refusal when it is too long |
| `Seccomp.BytesLaidOut` | internal/scheduler/seccomp_linux.go:79-146 | The literal bytes of the program: header, one check per number with its jump, kill, allow |
| `Seccomp.RefusedExactly` | internal/scheduler/seccomp_linux.go:148-150 | Refused exactly above 65530 different numbers |
| `Seccomp.BytesCorrectExactly` | internal/scheduler/seccomp_linux.go:57-153 | For every iteration order the bytes do what the list asks, on every input, exactly up to 253 different numbers |
| `TaskQueue.SameBandIsFifo` | internal/scheduler/priority.go:46-72 | Within a band a comparison never puts the later task first, and puts the earlier first when its two clock readings are no further apart than the tasks |
| `TaskQueue.HigherBandYieldsOnlyOnTie` | internal/scheduler/priority.go:14-72 | An entry goes before one of a higher band only on an exact tie of neighbouring bands |
| `TaskQueue.SkewToleratedExactly` | internal/scheduler/priority.go:64-72 | Of two tasks of one band the earlier goes first under all readings at most d apart exactly when d is at most the time between them |
| `TaskQueue.StaysBehindExactly` | internal/scheduler/priority.go:46-72 | A task that does not precede another now never will, exactly when its band is not higher and it cannot escalate fully before the other escalates at all |
| `TaskQueue.OrderLastsExactly` | internal/scheduler/priority.go:46-72 | Heap order lasts for all time exactly when no task may overtake its parent in that sense |
| `TaskQueue.EscalationUndoesOrder` | internal/scheduler/priority.go:46-72 | A heap in order that is out of order a second later: its lower task may overtake |
| `TaskQueue.SkewedReadingsReorder` | internal/scheduler/priority.go:64-72 | For any two tasks of one band, readings one nanosecond further apart than they are that put the later first |
| `TaskQueue.RootIsFirst` | internal/scheduler/priority.go:127-137 | In a heap nothing precedes the root |
| `TaskQueue.OneBandOrderTimeless` | internal/scheduler/priority.go:64-72 | With one band, heap order holds at all times or none |
| `TaskQueue.OneBandSettled` | internal/scheduler/priority.go:64-72 | In a queue of one band no comparison depends on when the clock is read during a call no longer than the time between its tasks |
| `TaskQueue.UpStep` | internal/scheduler/priority.go:115-125 | A swap upwards moves the only possible disorder to the parent |
| `TaskQueue.AdmissionBound` | internal/scheduler/priority.go:115-125 | Entries below critical priority never exceed the capacity |
| `TaskQueue.PriorityQueue.Push` | internal/scheduler/priority.go:112-125 | Refused exactly at capacity below critical; contents gain exactly the entry; positions and admission bound are kept; heap order is kept if no comparison depends on when the clock is read during the call |
| `TaskQueue.PriorityQueue.Pop` | internal/scheduler/priority.go:127-137 | Returns the front, which nothing preceded at the start and in one band is the oldest; contents lose exactly it; heap order is kept if no comparison depends on when the clock is read during the call |
| `CircuitBreaker.NodeBreaker.Replay` | internal/scheduler/circuit_breaker.go:89-155 | The object follows the trace function on every interleaving |
| `CircuitBreaker.NoRequestInCooldown` | internal/scheduler/circuit_breaker.go:97-104 | With a clock that does not run back, no request passes inside the cooldown |
| `CircuitBreaker.OpenSince` | internal/scheduler/circuit_breaker.go:97-104 | An open breaker allows exactly from its last opening plus the cooldown on |
| `CircuitBreaker.ClosedCountsFailures` | internal/scheduler/circuit_breaker.go:134-146 | A closed breaker's counter is the trailing failure run, and below the threshold unless it is zero |
| `CircuitBreaker.ClosedOpensExactly` | internal/scheduler/circuit_breaker.go:139-146 | A closed breaker opens exactly on a failure that brings the trailing failures to the threshold |
| `CircuitBreaker.HalfOpenOpensExactly` | internal/scheduler/circuit_breaker.go:148-153 | A half-open breaker opens exactly on a failure |
| `CircuitBreaker.CountsSuccesses` | internal/scheduler/circuit_breaker.go:97-135 | The success counter runs from the last failure or the last probe let through |
| `CircuitBreaker.RefusesExactly` | internal/scheduler/circuit_breaker.go:89-113 | A request is refused exactly while the breaker cools down, or is half-open with a success reported |
| `CircuitBreaker.HalfOpenHistory` | internal/scheduler/circuit_breaker.go:97-128 | A half-open breaker has counted the successes since its probe was let through, with no failure |
| `CircuitBreaker.ClosingNeedsSuccesses` | internal/scheduler/circuit_breaker.go:115-129 | Closing takes SuccessThreshold successes since half-open without a failure |
| `CircuitBreaker.HalfOpenWaitsForOutcomes` | internal/scheduler/circuit_breaker.go:106-109 | After a first probe success every request is refused until another outcome arrives |
| `CircuitBreaker.ManyProbesAtOnce` | internal/scheduler/circuit_breaker.go:97-109 | Until a probe returns, any number of further requests pass |
| `CircuitBreaker.RecoversExactly` | internal/scheduler/circuit_breaker.go:97-129 | If all admitted requests succeed and have returned, a half-open breaker has closed exactly when at least SuccessThreshold were admitted before the first success; else it refuses for ever |
| `CircuitBreaker.OneByOneNeverCloses` | internal/scheduler/circuit_breaker.go:106-121 | With a threshold of two or more, probes made one by one leave the breaker half-open and refusing |
| `CircuitBreaker.CooldownIsBackoff` | internal/scheduler/circuit_breaker.go:124-153 | After k failed probes since the last close the cooldown is OpenDuration for k = 0, else min(OpenDuration·2^k, MaxOpenDuration), if the ceiling is sound |
| `CircuitBreaker.BackoffExactly` | internal/scheduler/circuit_breaker.go:152-152 | Doubling and capping step by step is that closed form for every k exactly when the ceiling is not negative or the first doubled cooldown is below it |
| `CircuitBreaker.CooldownCountsProbes` | internal/scheduler/circuit_breaker.go:124-153 | For any configuration the cooldown has been doubled and capped once per probe failed since the last close |
| `CircuitBreaker.CappedExactly` | internal/scheduler/circuit_breaker.go:152-152 | The capped formula covers k = 0 exactly when OpenDuration is at most MaxOpenDuration |
| `SettingsSync.Settings.ApplySyncableFields` | internal/api/middleware.go:495-514 | The strictly later record replaces the held one; otherwise nothing changes |
| `SettingsSync.Settings.Merge` | internal/api/middleware.go:339-395 | A local update replaces the given fields and sets the timestamp, given or now; the run theorems below are about these updates |
| `SettingsSync.HandleSync` | internal/agent/agent.go:337-349 | Merges the request and answers with what is held then |
| `SettingsSync.SyncWithPeer` | internal/agent/agent.go:1243-1274 | Whatever changes on either side between the halves, each keeps the latest of what it holds and receives; undisturbed, both end with the later timestamp, and equal records if the timestamps differed |
| `SettingsSync.HeardNext` | internal/agent/agent.go:317-356 | Writes reach a replica only by its own update or by a delivery |
| `SettingsSync.ReplicasHoldNewest` | internal/api/middleware.go:495-514 | In any run of exchanges each replica holds the newest record that reached it along time-ordered exchanges |
| `SettingsSync.WriteKeepsNewestExactly` | internal/api/middleware.go:387-391 | A local update keeps that exactly when its timestamp, given or now, is no older than what the replica holds |
| `SettingsSync.InOrderWritesRaise` | internal/api/middleware.go:387-391 | Local updates whose timestamps do not run back over the run never fall behind what any replica holds |
| `SettingsSync.HearersConverge` | internal/agent/agent.go:1215-1277 | Replicas that have heard the last write hold exactly it |
| `SettingsSync.HearersReflectLastUpdate` | internal/api/middleware.go:339-391 | Every field the last update gives is what its hearers hold; for a field it leaves out they hold what its writer held just before |
| `Chunker.FieldsOfJoin` | internal/brain/chunker.go:30-46 | Splitting a chunk's text gives back its words |
| `Chunker.FieldsOfSpaced` | internal/brain/chunker.go:30 | However words are separated by white space, a page splits into just those words |
| `Chunker.WhiteSpace` | internal/brain/chunker.go:30 | White space is the 25 code points of Unicode |
| `Chunker.WindowAt` | internal/brain/chunker.go:35-59 | Where each chunk starts, that it has 1 to maxWords words and is full unless last |
| `Chunker.NeighboursShare` | internal/brain/chunker.go:54-58 | Neighbours share exactly min(overlap, maxWords-1) words |
| `Chunker.RebuildsExactly` | internal/brain/chunker.go:35-59 | Dropping the overlap rebuilds the words exactly when maxWords ≥ 1 and the overlap is not negative or one chunk suffices |
| `Chunker.ChunkPage` | internal/brain/chunker.go:30-59 | Appends exactly the page's windows, numbered on |
| `Chunker.ChunkText` | internal/brain/chunker.go:13-63 | The chunks of all pages in order; Index runs 0, 1, 2, … |
| `Chunker.PagesRebuild` | internal/brain/chunker.go:13-63 | From the chunk texts alone every page's word list comes back; its chunks carry its number, 0 for a single page |
| `DistributedSearch.Deduplicate` | internal/brain/retriever.go:151-177 | Each key once, with its best score, for every iteration order |
| `DistributedSearch.SameChunkExactly` | internal/brain/retriever.go:151-164 | Entries are of one chunk exactly when index and file hash agree, the name standing in for a missing hash |
| `DistributedSearch.Reduce` | internal/brain/retriever.go:107-119 | A top K of the results, whatever their order |
| `DistributedSearch.AnswersSuffice` | internal/brain/retriever.go:57-89 | A top K of the nodes' K best is a top K of all they hold, if each answer has K different keys or all its node has |
| `DistributedSearch.AnswerSufficesExactly` | internal/brain/retriever.go:57-89 | Every top K of a node's K best is one of all it holds exactly when the answer has K different keys or all the node has |
| `DistributedSearch.DistinctFilesSuffice` | internal/brain/retriever.go:151-164 | A node without two entries of one key always answers with enough keys |
| `DistributedSearch.Search` | internal/brain/retriever.go:42-120 | The search as a whole, for any arrival order: a top K of the answers, and under that condition of everything |
| `DistributedSearch.TopKUnique` | internal/brain/retriever.go:110-117 | Without ties between keys there is only one top K |
| `DistributedSearch.DuplicatesCrowdOut` | internal/brain/retriever.go:57-58 | Two copies of one file under different names on a node hide another file |

## Left out

- Floating point: costs, latencies, scores and proportions are reals or exact integer divisions; rounding is not modelled.
- Integer width: int64 RAM sizes, the KV-cache product and doubled durations do not wrap around here.
- `ShouldDistributeInference`, `formatRAM` and error message texts: display and a chain of simple tests.
- The contents of the run record on disk, the WAL and the UI updates of a flow run: bookkeeping beside the coordinator's maps.
- A flow run without a step runner ends at once with an error; the model starts behind that test, and with a flow that passed validation (files edited on disk afterwards are not covered).
- A flow step whose own work fails because the run was cancelled: its outcome does not depend on the context.
- A flow step that reads one output more than once is taken to find it once; the `path` a save step leaves beside its output repeats the output.
- Goroutines, locks and channels outside the flow executor: operations on shared objects are taken one at a time.
- A `NewStream` call without protocol ids (an error at once), decoding of peer ids, stream errors other than a refused open, and copying of relayed data.
- Installing the filter in the kernel, and the values behind the syscall names: `unix.SYS_*` is not part of this model.
- The storage registry, the policy engine and disk writes beside a settings exchange; local fields that are not synchronised.
- DistributedSearch.AnswersSuffice: nodes are assumed to return their true K best and those that answer are the cluster; the approximate HNSW index behind them, embedding and timeouts are not modelled.
- The circuit breaker registry: a map from node to breaker, created on first use.
- Sandbox rules, join tokens, cryptography, HTTP, cron, file watching and Ollama calls.
