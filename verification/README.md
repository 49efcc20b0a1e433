# Verification of the HERMUS core

Dafny models of the stateful heart of HERMUS, each proved against what the code and its
documentation promise. `dafny verify dfyconfig.toml` checks the whole project.

The style is the same everywhere. A component that updates its fields in place is a class or a
method with loops; its contract ties the new state to a function of the old one. What the component
is for is then proved about those functions, over every input, every run or every interleaving.
Where a promise fails for some inputs, the exact condition under which it holds is proved, together
with a failing case.

| files | component |
|---|---|
| `DependencyGraph`, `TopologicalSort`, `DagExecution`, `DagGuarantees`, `DagRetries`, `AgentDag` | the agent DAG: Kahn's sort, the round-based executor, whole-run guarantees, the object that is updated in place |
| `SafeSerialize` | the cycle-safe serializer over an arbitrary finite heap |
| `Coordination`, `Fencing`, `ControlGuarantees`, `Coordinator` | the distributed control plane: leases, fencing tokens, failover, restart from the saved file |
| `BudgetPacking`, `BudgetPacker` | the token-budget packer |
| `LruCache`, `LruHistory` | the cache with a time to live, and its histories |
| `VectorIndex` | the vector table, its cached dimension and the nearest-neighbour table |
| `RankFusion`, `FusionGuarantees`, `FusionScores` | reciprocal rank fusion over the reals |
| `RpcClient` | the JSON-RPC client as interleaved steps of callers and reader |
| `Approvals`, `ApprovalGuarantees`, `ApprovalAnswers`, `ApprovalStore` | approval requests, bundles and grants |
| `AtomicWrite`, `AtomicWriters` | the crash-safe write on a volume with volatile and durable state, by one writer and by many at once |
| `PythonText`, `TextLines`, `LedgerSections`, `CapabilityLedger`, `LedgerHistory` | the ledger's printer and parser |
| `TextChunking` | the overlapping chunker |
| `Sequences` | shared facts about sequences and sets |

Where the code and its descriptions part ways, the code is modelled:

- A skipped node does not make its dependents skipped: they stay pending
  (`core/agent_dag.py:194-204`). The quiescence theorem therefore speaks of failed or blocked
  ancestors at any distance.
- `unregister` forgets the fencing counter (`core/distributed.py:102-107`), `failover` ignores the
  status of the assignment (`core/distributed.py:177-190`), and completion without a node id checks
  no token (`core/distributed.py:202`). `ReturningNode`, `FailoverOfAny` and `StrangerCompletes` say
  exactly what each of the three costs; `LostSaveRepeatsPair` and `LostFailoverRevives` do so for a save
  that fails unnoticed.
- The description of `fit_to_budget` speaks of a density rule and of pinned items being reserved
  (`core/decay.py:283-287`); the code has no density rule, and budget and cap can refuse a pinned item:
  `PinnedReserved` says exactly when, `PinnedRefused` is such an input.
- A request that cannot be encoded leaves its entry in the table of pending calls
  (`core/delegation.py:662-667`), and so does one whose timeout the queue refuses because it is negative or
  cannot be waited for (`core/delegation.py:675-680`); `RefusedStays` and `LeftUntilReply` say exactly when
  and how long.
- The ledger reader takes a row that contains `Power` or `---` for a table head or rule
  (`core/capability_ledger.py:147-148`), so such an entry is written again and again but never listed.
- A cell is cut at 300 characters after it was stripped (`core/capability_ledger.py:522-524`), so it can
  end in a space that the reader does not give back; such a power can be listed twice. A power that quotes
  the header of a later section takes that section over (`core/capability_ledger.py:69`, `528`).
- The executor ignores the verdict of validation (`core/agent_dag.py:212`): a missing dependency either ends
  it with a key error before the first call or never does.
- Probing an empty vector table rules the nearest-neighbour table out until the next invalidation
  (`core/hybrid_search.py:440-448`), although vectors are stored later.

## Model

| member | source | states |
|---|---|---|
| TopologicalSort.Sort | core/agent_dag.py:163-188 | sorted exactly when every dependency exists and there is no cycle, then a topological order of all nodes, level by level; a cycle is reported exactly when one exists; otherwise the first missing dependency is named |
| TopologicalSort.CountDegrees | core/agent_dag.py:164-172 | in-degrees and adjacency count every dependency entry with repetition, or the first entry naming no node is returned |
| TopologicalSort.Release | core/agent_dag.py:180-183 | decrementing one node's dependents keeps the queue exactly the unordered nodes without unmet entries |
| TopologicalSort.Drain | core/agent_dag.py:177-183 | the queue loop ends with every node without unmet entries ordered, dependencies first and by level |
| TopologicalSort.StuckBehindCycle | core/agent_dag.py:185-186 | if fewer nodes were ordered than exist, the graph has a cycle among the leftover ones |
| DependencyGraph.StuckNodesHoldCycle | core/agent_dag.py:185-186 | nodes that each wait for another of the group contain an actual cycle, which is exhibited |
| DependencyGraph.WalkIntoCycle | core/agent_dag.py:185-186 | from each of the nodes that wait for another of their group a walk leads into a cycle of the group |
| DependencyGraph.TopologicalExcludesCycle | core/agent_dag.py:163-188 | a topological order rules out every cycle |
| DependencyGraph.LevellingUnique | core/agent_dag.py:163-188 | the depth of a node is well defined |
| DependencyGraph.AcyclicHasLevelling | core/agent_dag.py:156-161 | every closed acyclic graph has depths |
| AgentDag.DagNode.constructor | core/agent_dag.py:124-146 | a node without dependencies starts ready, any other pending |
| AgentDag.DagNode.Book | core/agent_dag.py:239-267 | books one outcome: blocked, completed, retried or failed |
| AgentDag.AgentDAG.AddNode | core/agent_dag.py:124-146 | adds or replaces one node and keeps the place of a replaced one |
| AgentDag.AgentDAG.AddEdge | core/agent_dag.py:148-154 | adds the dependency once, and says which end is missing |
| AgentDag.AgentDAG.TopologicalSort | core/agent_dag.py:163-188 | the sort of the object's own table |
| AgentDag.AgentDAG.Validate | core/agent_dag.py:156-161 | true exactly for a closed acyclic table |
| AgentDag.AgentDAG.GetReadyNodes | core/agent_dag.py:190-205 | updating nodes one after the other marks each as if all were judged on the table before the pass, and returns those to run in table order; it stops with a key error exactly if a node that may run names a missing dependency before any failed or blocked one, and then only the nodes before it are marked |
| AgentDag.PassIsOrderFree | core/agent_dag.py:190-205 | marks left by the pass never influence what it decides about later nodes |
| DagExecution.PassedIsSupplied | core/agent_dag.py:190-205 | a readiness pass that raises nowhere leaves no node to run that has a missing dependency |
| AgentDag.AgentDAG.ParentContext | core/agent_dag.py:229-235 | hands over the outputs of every dependency |
| AgentDag.AgentDAG.RunNode | core/agent_dag.py:223-267 | one executor call on the node marked running, and its booking |
| AgentDag.AgentDAG.RunReady | core/agent_dag.py:222-267 | the body of a round: every ready node is called and booked, in order |
| AgentDag.AgentDAG.ExecuteRounds | core/agent_dag.py:212-267 | the loop computes the run that the guarantees are about; only its first pass can end in a key error, before anything was executed |
| AgentDag.AgentDAG.ExecuteDag | core/agent_dag.py:207-280 | final table, log and summary of the whole execution of any table; it ends in a key error exactly if a round is allowed and a node that may run names a missing dependency before any failed or blocked one |
| AgentDag.AgentDAG.Count | core/agent_dag.py:269-280 | success means there are nodes and all of them completed; counts per status |
| DagExecution.RefreshKeeps | core/agent_dag.py:190-205 | the readiness pass keeps the invariant and touches no finished node |
| DagExecution.ExecuteKeeps | core/agent_dag.py:223-267 | an executor call keeps the invariant, touches no finished node and leaves the other ready nodes ready |
| DagExecution.RoundsLegal | core/agent_dag.py:207-267 | every state of every run is sound, evolves from the start and has a history the log accounts for |
| DagGuarantees.EveryRun | core/agent_dag.py:207-267 | no node is executed more often than its retries allow, finished nodes never change, every call saw its dependencies completed and received exactly their outputs |
| DagGuarantees.RoundBudget | core/agent_dag.py:222-267 | every round spends at least one attempt per node it runs |
| DagGuarantees.RunsToQuiescence | core/agent_dag.py:212-220 | with a round limit above the attempts there are, the loop ends by itself |
| DagGuarantees.QuiescenceVerdict | core/agent_dag.py:190-220 | in a quiet table, cyclic or not, a node is completed exactly when neither anything failed or blocked nor a cycle with a node to complete is reachable from it |
| DagGuarantees.SomeoneToBlame | core/agent_dag.py:190-220 | an uncompleted node of a quiet table has a path to a failed or blocked node or into a cycle, which is exhibited |
| DagGuarantees.EveryLongRun | core/agent_dag.py:207-280 | every long enough run, of cyclic tables too: that verdict; all completed if there is no cycle and nothing failed or was blocked |
| DagGuarantees.CyclesStayOpen | core/agent_dag.py:190-267 | no run completes a cycle that has a node to complete |
| DagGuarantees.CompletionOrder | core/agent_dag.py:190-274 | the completion log never repeats, respects dependencies and, if all completed, is a topological order |
| DagGuarantees.LevelProgress | core/agent_dag.py:212-267 | with an executor that always succeeds, each round completes exactly one more level |
| DagGuarantees.SuccessNeedsItsLevels | core/agent_dag.py:207-274 | then all nodes complete if and only if the round limit reaches the number of levels |
| DagRetries.OutcomeDecides | core/agent_dag.py:237-267 | at the end of every run a node that was unfinished is completed exactly if its last call ended well, blocked exactly if it reported a blocker, failed exactly if it was called once more than it may be retried and that ended badly; outputs are those last reported, and retries are counted |
| DagRetries.RetriesSuffice | core/agent_dag.py:212-267 | in an acyclic table every node completes if the executor blocks none and fails none more often than it may be retried |
| DagRetries.SkippedExactly | core/agent_dag.py:190-205 | in a quiet table what was unfinished is skipped exactly if a direct dependency failed or was blocked |
| DagRetries.PassMarks | core/agent_dag.py:190-205 | what a readiness pass makes of each node, told from the statuses of its dependencies |
| DagRetries.RoundCallsInOrder | core/agent_dag.py:219-240 | a round calls the executor once for each ready node, in the order of the table |
| SafeSerialize.Serialize | core/agent_dag.py:29-56 | terminates on every finite heap, computes the specified output and restores the set of containers on the path |
| SafeSerialize.SerializeFresh | core/agent_dag.py:29-31 | the entry point with an empty path |
| SafeSerialize.PathsOfOutput | core/agent_dag.py:32-47 | the output has exactly the heap's paths that pass through no object twice |
| SafeSerialize.MarkerExactlyAtCycles | core/agent_dag.py:33-34 | the circular marker stands exactly where a path returns to an object on it |
| SafeSerialize.AcyclicUnfolds | core/agent_dag.py:29-47 | if no path from the root repeats an object, sharing or not and whatever else the heap holds, the output is the plain tree unfolding |
| SafeSerialize.AcyclicExactly | core/agent_dag.py:29-47 | such roots are exactly those that can be ranked above everything they contain, which the unfolding rests on |
| Coordinator.DistributedCoordinator.RegisterNode | core/distributed.py:67-88 | registers or refreshes a node, keeping its counter |
| Coordinator.DistributedCoordinator.HeartbeatFrom | core/distributed.py:90-100 | refreshes a known node |
| Coordinator.DistributedCoordinator.UnregisterNode | core/distributed.py:102-107 | drops the whole record |
| Coordinator.DistributedCoordinator.AgeNodes | core/distributed.py:217-226 | exactly the online nodes silent for too long become stale |
| Coordinator.DistributedCoordinator.SelectNode | core/distributed.py:211-215 | the first online capable node with the latest heartbeat |
| Coordinator.DistributedCoordinator.AssignLocked | core/distributed.py:129-154 | refusal, the job's active assignment, or a new one under the next token |
| Coordinator.DistributedCoordinator.AssignJob | core/distributed.py:125-154 | nothing under an emergency stop, else ageing and assignment, each saved on its own |
| Coordinator.DistributedCoordinator.RenewAssignment | core/distributed.py:156-171 | only the holder's pair extends an active lease |
| Coordinator.DistributedCoordinator.FailoverLocked | core/distributed.py:177-193 | after the lease, a new holder under its next token |
| Coordinator.DistributedCoordinator.CompleteAssignment | core/distributed.py:195-209 | finishes the assignment, checking credentials if a node id is given |
| Coordinator.DistributedCoordinator.Save | core/distributed.py:272-284 | writes all nodes and the last 500 assignments, or keeps the old file |
| Coordination.Freshest | core/distributed.py:211-215 | the choice is a candidate, no candidate is fresher, and there is none only if there is no candidate |
| Coordination.ActiveFor | core/distributed.py:135-139 | an active assignment of the job, none only if there is none |
| ControlGuarantees.RenewExactly | core/distributed.py:156-171 | a renewal is accepted exactly from the registered holder of an unfinished assignment |
| ControlGuarantees.RenewalRecords | core/distributed.py:166-170 | it moves the two leases to a timeout from now, and nothing else |
| ControlGuarantees.RenewalProtects | core/distributed.py:156-193 | until then, in every quiet continuation, the holder keeps the unfinished assignment and every failover of it is refused, and only a completion or a restart ends it |
| ControlGuarantees.CompletionExactly | core/distributed.py:195-209 | when a completion is accepted; it records success or failure as reported, changes no other assignment or node, and ends renewals |
| ControlGuarantees.AssignExactly | core/distributed.py:129-154 | an assignment is granted exactly if a node can take it and the job has no unfinished one |
| ControlGuarantees.AssignGrants | core/distributed.py:140-154 | the grant is what was asked for, on the named node or the one heard from last, under its next token; nothing else changes |
| ControlGuarantees.FirstUnfinished | core/distributed.py:135-139 | a job that has unfinished assignments gets the first of them back |
| ControlGuarantees.FailoverExactly | core/distributed.py:177-185 | a failover is granted exactly if the lease has run out and an online capable node exists |
| ControlGuarantees.FailoverGrants | core/distributed.py:185-193 | the new holder is the capable node heard from last, under its next token, with job and capability kept; nothing else changes |
| ControlGuarantees.FirstOfLatest | core/distributed.py:211-215 | among nodes heard from at the same time the first listed is chosen |
| ControlGuarantees.RecordsExactly | core/distributed.py:67-107 | registration, heartbeat and removal change the one record as reported, and nothing else |
| ControlGuarantees.HeartbeatKeepsEligible | core/distributed.py:90-226 | after a heartbeat, until the node is heard from again, it can be chosen for what it can do exactly as long as it was not found silent for longer than the timeout |
| ControlGuarantees.RegistrationMakesEligible | core/distributed.py:67-226 | the same after a registration |
| ControlGuarantees.SilentNeverChosen | core/distributed.py:125-226 | after ageing, no node silent for longer than the timeout is chosen |
| ControlGuarantees.AgeingSaves | core/distributed.py:217-226 | ageing saves exactly if it changed a node |
| ControlGuarantees.FileHoldsLast500 | core/distributed.py:272-284 | the file holds every node and exactly the last 500 assignments |
| Fencing.CountersNeverDrop | core/distributed.py:140-154 | no operation but removal lowers a node's counter, and a grant carries exactly the next token |
| Fencing.StepFenced | core/distributed.py:67-209 | every operation, and a restart, keeps the fencing invariant |
| Fencing.RunFenced | core/distributed.py:67-284 | so does every run with successful saves and no removed id coming back |
| Fencing.NoPairTwice | core/distributed.py:140-154 | in every such run no two grants carry the same node and token |
| Fencing.OldHolderLockedOut | core/distributed.py:156-284 | after a saved failover the old pair is refused by renewal and by credentialed completion in every later state, whatever other saves fail, before or after, and whenever the plane restarts, if removed ids do not come back |
| Fencing.LeaseExclusion | core/distributed.py:125-193 | under a monotone clock, with saves that may fail and restarts at any time, an assignment keeps its holder before its lease ends, provided that the file at the start names no other holder and no shorter lease, and that the assignment is not failed over once it is finished |
| Fencing.LeaseExclusionExactly | core/distributed.py:125-284 | wherever a run from an empty registry has come to, that proviso about the file is exactly what decides whether every continuation keeps the holder |
| Fencing.HolderKeptExactly | core/distributed.py:125-284 | before a lease ends a single operation changes the holder exactly if it is a restart from a file that names another one |
| Fencing.LostFailoverRevives | core/distributed.py:173-284 | after a failover of an assignment that the file holds, and a restart, the old holder is back exactly when the failover was not saved |
| Fencing.OneOwnerPerJob | core/distributed.py:135-191 | if failover is applied to active assignments only, a job never has two active ones, whatever saves fail and restarts happen |
| Fencing.FailoverOfAny | core/distributed.py:173-193 | a failover of any assignment keeps single ownership exactly when no other assignment of the job is active |
| Fencing.FinishedAssignmentRevived | core/distributed.py:173-193 | a run of ordinary requests in which a finished assignment is revived beside an active one |
| Fencing.StrangerCompletes | core/distributed.py:195-209 | completion without the holder's pair succeeds exactly when no node id is given |
| Fencing.ReturningNode | core/distributed.py:67-154 | at the end of every durable run: after an unknown id registers, its next grant repeats an old pair exactly when the id had been granted something before |
| Fencing.RunFirstTokens | core/distributed.py:140-154 | in every durable run a node with a grant or a counter above zero was granted its first token, which the condition of the row above rests on |
| Fencing.LostSaveRepeatsPair | core/distributed.py:228-284 | when a job without an active assignment is assigned, and again after a restart, the same pair is granted twice exactly when the save of its grant failed |
| BudgetPacker.Packer.Try | core/decay.py:320-331 | takes an item unless cap or budget refuse it |
| BudgetPacker.Packer.Ranked | core/decay.py:337-342 | the ranked loop computes the ranked pass |
| BudgetPacker.Packer.Relaxed | core/decay.py:346-356 | the pass without cap, and the cap is put back |
| BudgetPacker.FitToBudget | core/decay.py:271-376 | kept and evicted indices in input order and the tokens of the whole packing |
| BudgetPacker.Partition | core/decay.py:358-359 | kept and evicted partition the input |
| BudgetPacking.ByScoreSorted | core/decay.py:337 | the ranking is by descending score, ties in input order |
| BudgetPacking.CappedPasses | core/decay.py:333-342 | after the capped passes the books balance, caps hold and every item is kept or refused |
| BudgetPacking.PinnedReserved | core/decay.py:333-342 | all pinned items are kept by the capped passes exactly if cap and budget leave room for each behind the pinned ones before it, and then in the result |
| BudgetPacking.PinnedRefused | core/decay.py:325-326 | a pinned item that is not kept |
| BudgetPacking.RelaxedPacks | core/decay.py:344-356 | after the relaxed pass usage is at 85 percent or nothing left out would fit |
| BudgetPacking.PackingGuarantee | core/decay.py:316-359 | for every budget, minimum and cap: tokens are the kept sum, over budget means at most the minimum is kept, a cap is exceeded only if the capped passes stayed below 85 percent, and the result is at 85 percent or nothing evicted fits, exactly unless the budget is positive, the cap below one, some item within budget, and every item without a kind too long with no minimum to keep it |
| BudgetPacking.ZeroCapKeepsNothing | core/decay.py:323-326 | such inputs exist: a zero cap keeps out an item that fits |
| BudgetPacking.ExchangeGuarantee | core/decay.py:333-356 | an evicted item is strictly longer than every unpinned item kept that ranks behind it, unless its kind was at the cap and that item, of another kind, was kept before the relaxed pass |
| BudgetPacking.MinimumKept | core/decay.py:325-326 | what the cap does not concern is evicted only for want of room, with the minimum kept or the budget used up |
| LruCache.LRUCache.Get | core/cache.py:29-40 | a live entry is returned and moves to the recent end, an expired one is dropped, hits and misses are counted |
| LruCache.LRUCache.Set | core/cache.py:42-52 | stores at the recent end and evicts one old entry if that is one too many |
| LruCache.LRUCache.Empty | core/cache.py:54-57 | empties the cache |
| LruHistory.EveryHistory | core/cache.py:24-57 | after any history: distinct keys, at most `max_size`, last stored values, ordered by last touch |
| LruHistory.AnswersAreCurrent | core/cache.py:24-40 | a lookup never answers with a stale or superseded value |
| LruHistory.MissLeavesNothing | core/cache.py:29-40 | a lookup answers nothing exactly if nothing is left under the key afterwards |
| LruHistory.StackProperty | core/cache.py:24-52 | under a monotone clock, a touched key since when fewer than `max_size` other keys were touched is found with its last value within its time to live, whatever happened to the key itself |
| LruHistory.StackExactly | core/cache.py:24-52 | behind the last event on a key and without an expiry drop the key is found exactly if fewer than `max_size` other keys were touched |
| VectorIndex.HybridRetriever.Dim | core/hybrid_search.py:425-433 | the dimension of the stored rows, cached |
| VectorIndex.HybridRetriever.InvalidateIndex | core/hybrid_search.py:435-438 | forgets the dimension and the probe |
| VectorIndex.HybridRetriever.EnsureKnn | core/hybrid_search.py:440-466 | builds the neighbour table once, from the rows of the dimension, or rules it out |
| VectorIndex.HybridRetriever.StoreVector | core/hybrid_search.py:477-510 | stores a row, wiping rows of another dimension first, and copies it into a table in use |
| VectorIndex.HybridRetriever.DeleteVector | core/hybrid_search.py:525-532 | removes a row from both tables |
| VectorIndex.HybridRetriever.ReindexAll | core/hybrid_search.py:534-554 | wipes and stores every embedding again, and counts them |
| VectorIndex.StoreAgrees | core/hybrid_search.py:477-510 | a store breaks the agreement exactly when a new dimension meets old rows that could not be deleted |
| VectorIndex.RemoveAgrees | core/hybrid_search.py:525-532 | a removal breaks it exactly when the row stays behind in a table in use |
| VectorIndex.StepAgrees | core/hybrid_search.py:425-554 | no other step does, and every step acts as on a plain map of vectors |
| VectorIndex.EveryHistory | core/hybrid_search.py:425-554 | over whole histories without those two steps: one dimension, equal to the cached one, a table in use equal to the stored rows, and the rows those of the plain map |
| VectorIndex.HarmlessExactly | core/hybrid_search.py:425-554 | every state of a history agrees exactly if neither of the two occurs in it |
| VectorIndex.SearchSeesEverything | core/hybrid_search.py:608-634 | whatever comes of building the neighbour table, a search draws on exactly the stored vectors |
| VectorIndex.EmptyProbeSticks | core/hybrid_search.py:440-448 | the first probe of an index without a dimension rules the neighbour table out for all later stores of one dimension |
| VectorIndex.ProbeDecides | core/hybrid_search.py:440-466 | a first probe brings the neighbour table into use exactly if it can be built and there is a dimension |
| VectorIndex.RebuildIsExact | core/hybrid_search.py:534-554 | an embedder of one dimension rebuilds exactly the vectors of the documents it can embed |
| RankFusion.RankOf | core/hybrid_search.py:706-708 | the last place of a listed document, counted from one |
| RankFusion.Tabulate | core/hybrid_search.py:701-713 | rank tables of all lists, and the documents in the order first met |
| RankFusion.TotalFor | core/hybrid_search.py:719-735 | the weighted reciprocal ranks plus the prior |
| RankFusion.Fuse | core/hybrid_search.py:686-754 | the whole fusion computes the ranking the guarantees are about |
| RankFusion.SortIsStable | core/hybrid_search.py:750 | descending, a permutation, and ties keep their order |
| RankFusion.RankedExact | core/hybrid_search.py:714-750 | every listed, known document once, with its score, best first |
| FusionGuarantees.FusedShape | core/hybrid_search.py:750-754 | the result is sorted, free of duplicates and exact |
| FusionGuarantees.CutsArePrefixes | core/hybrid_search.py:751-754 | the cuts keep a prefix: exactly the hits that clear the floor and the limit |
| FusionGuarantees.NegativeLimit | core/hybrid_search.py:754 | a negative limit takes that many off the end of what clears the floor |
| FusionScores.ScoresExactly | core/hybrid_search.py:719-735 | a fused document scores, for each list that has it, the weight over `rrf_k` plus its place, and the weighted prior; given weights count by name, others 1.0 |
| FusionScores.TextAndVectorScore | core/hybrid_search.py:701-735 | with the configured weights: the text weight over its rank term, the vector weight over its rank term, and the prior |
| FusionScores.AgreementWins | core/hybrid_search.py:719-735 | under equal weights and priors a document at rank r in both lists beats one at rank 1 of a single list exactly if r is less than `rrf_k` + 2 |
| FusionScores.TiesByFirstMention | core/hybrid_search.py:703-750 | equal scores stand in the order in which the lists first mention the documents |
| FusionGuarantees.DominanceSurvivesCuts | core/hybrid_search.py:686-754 | wherever a dominated document survives the cuts, the dominating one stands before it |
| FusionGuarantees.ListOrderIrrelevant | core/hybrid_search.py:701-754 | reordering the lists changes neither the number of results nor any score, and only tied documents can trade places |
| RpcClient.StepKeeps | core/delegation.py:605-684 | every step of callers and reader keeps the invariant of the shared state |
| RpcClient.EveryCall | core/delegation.py:658-684 | under every interleaving a call that ended got its own message or none, an error entry wins over a result, its timeout was refused only if it is negative or cannot be waited for, and its id left the table unless that happened or the request could not be encoded |
| RpcClient.EveryBox | core/delegation.py:605-628 | no box receives a second message or one that is not its owner's |
| RpcClient.IdsNeverReused | core/delegation.py:662-666 | two calls never share an id or a box |
| RpcClient.NeverPendingAgain | core/delegation.py:621-622 | an id that left the table never comes back |
| RpcClient.LateRepliesDropped | core/delegation.py:618-628 | late and duplicate replies change nothing |
| RpcClient.NothingLost | core/delegation.py:618-676 | a reply is never lost to a waiting caller |
| RpcClient.ReaderStopsExactly | core/delegation.py:612-656 | the reader has stopped exactly if the stream ended or a line came that it cannot handle; blank lines, notifications and answers do not stop it |
| RpcClient.ReplyReachesCaller | core/delegation.py:618-684 | as long as it has not, an answer to a waiting call is read, put into its box and ends the call with exactly that message |
| RpcClient.NeverStuck | core/delegation.py:673-684 | a call that has not ended can take a step of its own, exactly unless it waits for a reply without a timeout, and at most three end it |
| RpcClient.OthersLeaveIt | core/delegation.py:658-684 | steps of others never set a call back or change its end |
| RpcClient.DeliveryNeverRefused | core/delegation.py:623-627 | the box is never full on delivery, so the swallowed exception never occurs |
| RpcClient.UnencodableStays | core/delegation.py:662-667 | a request that cannot be encoded has ended and is still in the table |
| RpcClient.RefusedStays | core/delegation.py:675-680 | the timeout of an unanswered request is refused exactly if it is negative or cannot be waited for, and then the request has ended and is still in the table |
| RpcClient.LeftUntilReply | core/delegation.py:618-680 | a request left in the table in one of these two ways stays there exactly until a reply to its id arrives |
| ApprovalStore.ApprovalStore.CreateRequest | core/approval.py:315-333 | queues a yellow-zone request unless the same one already waits |
| ApprovalStore.ApprovalStore.CreateBundle | core/approval.py:335-352 | creates a bundle unless the same pending one exists |
| ApprovalStore.ApprovalStore.ResolveRequest | core/approval.py:401-449 | rules on a pending request once, an approval adding its grant |
| ApprovalStore.ApprovalStore.ResolveBundle | core/approval.py:354-399 | rules on every member that still waits; success means every member exists |
| ApprovalStore.ApprovalStore.AddGrant | core/approval.py:451-460 | adds an unused grant that belongs to no request |
| ApprovalStore.ApprovalStore.RevokeGrant | core/approval.py:462-473 | deactivates every grant of the id |
| ApprovalStore.ApprovalStore.Allowed | core/approval.py:482-495 | the first matching grant decides and is charged if consumed |
| Approvals.FirstMatch | core/approval.py:482-494 | a match, and nothing before it matches |
| ApprovalGuarantees.DecidedForGood | core/approval.py:361-424 | a request or bundle leaves the pending state at most once and is never touched again |
| ApprovalAnswers.AnswersExactly | core/approval.py:182-203 | an ask is answered by the first grant that is active, allows, has not expired, is not used up and fits, and not at all exactly if there is none |
| ApprovalAnswers.DeadGrantsStayDead | core/approval.py:182-203 | a grant that is revoked, denying, expired or used up, or does not fit, answers no ask at any later point and is not charged for it |
| ApprovalAnswers.RevokedNeverAnswers | core/approval.py:462-495 | once an id is revoked, no grant of that id that existed answers or is charged ever again |
| ApprovalAnswers.UsesFrozen | core/approval.py:482-495 | a grant that is defective whenever something is asked is never charged again |
| ApprovalAnswers.ApprovalAllows | core/approval.py:420-444 | the grant of an approval carries the tool and red lines of the request and its resources and purpose unless overridden, and answers a later ask exactly if that fits, its minutes have not passed and it allows a use |
| ApprovalAnswers.BundleGrants | core/approval.py:354-399 | approving a bundle grants each waiting member what it asks for, for the minutes and uses of the bundle |
| ApprovalAnswers.QueuedExactly | core/approval.py:315-333 | a request is queued exactly for a yellow-zone action that nothing waiting asks for |
| ApprovalAnswers.RulesExactly | core/approval.py:401-449 | a ruling approves or denies the first request of the id, if that waits, and changes no other |
| ApprovalAnswers.BundledExactly | core/approval.py:335-352 | a bundle is created exactly if it names something and no waiting bundle of the mission names the same |
| ApprovalGuarantees.EveryHistory | core/approval.py:315-449 | in every history no two requests wait for the same thing and each approved request has exactly one grant, any other none |
| ApprovalGuarantees.BundleSettles | core/approval.py:354-399 | a bundle settles exactly its pending requests and touches no other and no other bundle |
| ApprovalGuarantees.UsesAccounted | core/approval.py:194-195 | no grant is used more often than it allows, and all uses together are the consuming asks that were granted |
| ApprovalGuarantees.AttemptsPaid | core/approval.py:401-449 | any number of attempts at one approval pay once for each attempt cut between the two writes and once when it goes through |
| ApprovalGuarantees.InterruptionPaysTwice | core/approval.py:441-444 | an approval that went through left exactly one grant exactly when no attempt before it was cut between the two writes |
| AtomicWrite.Volume.AtomicWriteBytes | core/atomic_io.py:66-84 | every state on the way shows readers and crashes the complete old or the complete new bytes; success with a synced directory leaves only the new ones; an exception before the rename leaves the old ones, and no temporary file if the unlink succeeds |
| AtomicWrite.RenameOffers | core/atomic_io.py:77 | after the rename a crash leaves what it could before, or the renamed file |
| AtomicWrite.UnsyncedRenameTears | core/atomic_io.py:74-77 | without the file sync before the rename a crash could leave any bytes |
| AtomicWrite.DirSyncSettles | core/atomic_io.py:49-63 | syncing the directory leaves only what readers see |
| AtomicWrite.VisibleMayStay | core/atomic_io.py:66-84 | what readers see is always among what a crash may leave |
| AtomicWrite.CrashAmidWrite | core/atomic_io.py:66-84 | a crash in any state that a write goes through is one of the events that the histories below allow |
| AtomicWrite.NeverTorn | core/atomic_io.py:66-84 | however writes, failures and crashes alternate, crashes in the middle of a write included, the target holds a complete document written since the last durable write |
| AtomicWriters.StepKeeps | core/atomic_io.py:66-84 | every step of interleaved writers, and a power loss, keeps siblings apart from each other and from the target |
| AtomicWriters.NeverTornByMany | core/atomic_io.py:66-84 | under every interleaving of any number of writers, and power losses, a crash leaves only complete documents renamed since the directory was last synced, or the latest one then |
| AtomicWriters.ReadersSeeComplete | core/atomic_io.py:66-84 | and readers see only such documents |
| CapabilityLedger.CleanedCells | core/capability_ledger.py:522-524 | cleaning leaves no bar or newline; the cell survives printing exactly if the stripped value is not cut at a space and the part that stays has no rarer line separator |
| CapabilityLedger.CutAtASpace | core/capability_ledger.py:522-524 | a value that is cut at a space |
| CapabilityLedger.RowRoundTrip | core/capability_ledger.py:68-69 | a printed row reads back without the space around its cells exactly when it holds neither `---` nor `Power`, and as the very entry exactly when the cells are trimmed besides |
| CapabilityLedger.WrittenRow | core/capability_ledger.py:68-69 | the row as it stands in the file: power, use, risk, setup and status between bars, and what is read from it |
| CapabilityLedger.ProseShowsNothing | core/capability_ledger.py:147-148 | a line that does not start with a bar shows nothing |
| CapabilityLedger.ReadDiscovered | core/capability_ledger.py:142-160 | the reading loop |
| CapabilityLedger.InsertAppends | core/capability_ledger.py:536-544 | inserting into a section adds what the row shows at its end |
| CapabilityLedger.AddedSection | core/capability_ledger.py:537-538 | a missing section is added with an empty table |
| CapabilityLedger.LedgerRoundTrip | core/capability_ledger.py:142-160 | on every text, inserting a printed row lists the previous rows in order and then what the row shows |
| CapabilityLedger.FirstInsertionKeeps | core/capability_ledger.py:527-544 | adding the missing section and its first row leaves the rows of every other section as they were, and that section before the new one |
| LedgerSections.SectionAfterInsert | core/capability_ledger.py:527-544 | the section after an insertion is the old one, stripped, and the row |
| LedgerSections.EarlierSectionKept | core/capability_ledger.py:527-544 | a section that ends before the header is untouched and still ends before it |
| LedgerSections.LaterSectionKept | core/capability_ledger.py:527-544 | a later section is untouched if the row does not quote its header, and still starts behind |
| LedgerSections.LaterSectionExactly | core/capability_ledger.py:527-544 | for a header that fills its line, that condition is exact |
| TextLines.GatherSplit | core/capability_ledger.py:146 | what is read line by line splits at a line break |
| LedgerHistory.Ledger.AddDiscovered | core/capability_ledger.py:162-176 | error without a power, nothing for a known one, else one inserted row |
| LedgerHistory.DefaultLists | core/capability_ledger.py:547-560 | the default ledger has the section and lists nothing |
| LedgerHistory.SecondAddition | core/capability_ledger.py:168-172 | adding an entry again is recognised exactly when its power was known or the reader makes it out of the row, that is for cells without rarer line separators: the row is not skipped and the power lower-cases like its stripped form |
| LedgerHistory.AllLists | core/capability_ledger.py:162-176 | any number of additions lists what a plain list without text would |
| LedgerHistory.NoPowerListedTwice | core/capability_ledger.py:168-172 | if that is so of every entry added, no lower-cased power is ever listed twice, and earlier rows stay in place |
| LedgerHistory.NoPowerListedTwiceExactly | core/capability_ledger.py:162-176 | entries can be added in any number and order to any ledger without a repeated power exactly if it is so of each of them |
| LedgerHistory.ListedTwice | core/capability_ledger.py:162-176 | any other entry, added twice to an empty file, is listed twice |
| LedgerHistory.CutEntryListedTwice | core/capability_ledger.py:162-176 | the entry created for a name that is cut at a space is one, if lower-casing keeps lengths |
| LedgerHistory.EveryPowerListed | core/capability_ledger.py:162-176 | every listable power that was added is listed, as it is or stripped |
| LedgerHistory.OthersKept | core/capability_ledger.py:162-176 | any number of additions leaves the rows of every other section alone, and its text if the discovered powers had their section before, provided that no row quotes the header of a later section |
| LedgerHistory.RequestedKept | core/capability_ledger.py:162-176 | so the requested powers of a new ledger stay as they are |
| LedgerHistory.QuotedHeaderTakesOver | core/capability_ledger.py:162-176 | an added power that is the header of the requested powers changes their section |
| TextChunking.ChunkText | core/embeddings.py:66-77 | the loop terminates and computes the chunks |
| TextChunking.ChunkSizes | core/embeddings.py:72-77 | every chunk is non-empty and at most the chunk size |
| TextChunking.Reassembly | core/embeddings.py:72-77 | the first stride of every chunk gives back the stripped text if and only if the overlap is not negative |
| TextChunking.ChunkAt | core/embeddings.py:72-77 | chunk k starts k strides in and has the chunk size or reaches the end; which chunk is the last |
| TextChunking.NeighboursOverlap | core/embeddings.py:72-77 | neighbouring chunks share the overlap, unless the text ends before |
| TextChunking.SingleChunk | core/embeddings.py:67-71 | shorter text is one chunk, blank text none |
| PythonText.StripPadded | core/capability_ledger.py:149 | space around a text does not change what stripping leaves |

## Left out

- Model calls, HTTP, subprocesses, sockets, hardware probes, SQL and full-text internals, JSON encoding, regular expressions, events, audit logs and rendering: files and tables hold the modelled state, foreign answers are parameters.
- Floating point: scores, priors and weights are reals, the 85 percent rule is integer arithmetic; rounding in reports is not modelled.
- AgentDag.AgentDAG.RunNode: the executor is a function of node, context and log and does not change the table; artifacts, timestamps, error texts and the serialized copies of outputs are not modelled, and neither are exceptions that are no `Exception`.
- AgentDag.DagNode.Book: what an exception raised late leaves of outputs and error text is not modelled.
- AgentDag.AgentDAG.ParentContext: parents' artifacts are not handed over.
- AgentDag.AgentDAG.AddNode: the caller's list of dependencies is copied, not shared.
- DagGuarantees.EveryRun: starts from a table without running nodes and without completed nodes above uncompleted ones, which a table loaded from a dictionary may contain.
- SafeSerialize.Serialize: objects with `to_dict` and interpreter recursion limits are not modelled; sets are serialized in a fixed order.
- Coordinator.DistributedCoordinator.RegisterNode: names, endpoints, metadata and generated ids are not modelled.
- Coordinator.DistributedCoordinator.Save: the file holds the state or stays as it was; its crash behaviour, and other processes that load and save the same file, are not modelled.
- LruCache.LRUCache.Get: a stored `None` cannot be told from a miss by the caller, which the optional result does not show; the lock makes operations atomic.
- BudgetPacker.FitToBudget: token counters are given numbers, not negative in the guarantees; densities, utilization and the rendered text are left out.
- VectorIndex.HybridRetriever.StoreVector: is specified on tables that agree; after one of the two harmful failures nothing is claimed. A failing read of the dimension is not modelled.
- VectorIndex.HybridRetriever.EnsureKnn: likewise on tables of one dimension; with mixed rows the dimension is that of whichever row the query returns first.
- VectorIndex.HybridRetriever.DeleteVector: likewise on tables that agree.
- VectorIndex.HybridRetriever.ReindexAll: the refusal without an embedder and the query for the rows are left out.
- RankFusion.Fuse: `rrf_k` is not negative; a negative one can divide by zero in the source. Content, ranks and similarities copied into the hits are left out.
- RpcClient.EveryCall: falsy results turned into empty objects, error texts and codes, notifications and shutdown are left out; the reader stopping is a step, the process behind it is not modelled. Exceptions that are no `Exception` (an interrupt while writing or waiting) are not steps; they leave the id in the table, too.
- ApprovalStore.ApprovalStore.CreateRequest: redaction and suggested scopes are inputs; new identifiers are taken to be unused.
- ApprovalStore.ApprovalStore.AddGrant: makes a fresh grant that allows; the source takes any grant, used or denying ones included.
- ApprovalStore.ApprovalStore.Allowed: pattern, resource and purpose matching is an arbitrary function of scope and request; concurrent processes sharing the files and unreadable files are not modelled.
- AtomicWrite.Volume.AtomicWriteBytes: one writer at a time, which `AtomicWriters` lifts for writers whose siblings have distinct names; directory creation and the advisory lock are left out.
- TextLines.GatherSplit: a carriage return and newline count as two line breaks, which adds an empty line only.
- LedgerHistory.Ledger.AddDiscovered: the text read is the text written; newline translation of text files, by which a carriage return in a cell reads back as a newline, is left out. Lower-casing is an arbitrary function; audit and events are left out.
- LedgerHistory.NoPowerListedTwice: cells with rarer line separators than the newline are left out here and in the rows beside it that speak of skipped rows; what such a row shows is taken from the reader.
- Hash embeddings, decay scores, consolidation, keyword heuristics, delegation fan-out, request dispatch in the worker, configuration and diagnostics.
