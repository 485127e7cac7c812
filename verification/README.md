# Verified model of the GPU orchestrator's control plane

A Dafny model of the parts of the orchestrator that keep state: the Go scheduler's admission queue and
gateway, its registry, bin-packer, preemption heap, reconciler, traffic analyzer and model cache, and the
bookkeeping half of the Rust node agent. Check it with `dafny verify dfyconfig.toml`.

| file | models |
|---|---|
| `AdmissionQueue.dfy` | the weighted-fair queue; exact shares and waiting bounds over every run of calls |
| `Gateway.dfy` | one drain tick over the real queue; then handlers, timeouts and drainer interleaved step by step |
| `Registry.dfy` | nodes, slices, and the registry with its in-place health flag |
| `BinPacker.dfy` | placement, against a definition of the right choice that mentions no loop |
| `PreemptionHeap.dfy` | Less, Swap, Push and Pop driven by the sift-up and sift-down of Go's `container/heap`; runs of Enqueue and Evict |
| `Reconciler.dfy` | desired lists, slice keys, and the anti-entropy tick |
| `Agent.dfy` | what a command does to the agent's record |
| `AntiEntropy.dfy` | scheduler and agent with late, reordered and lost heartbeats and commands in between |
| `ControlPlane.dfy` | placement to reconciler agreement; whole-run liveness bookkeeping |
| `Traffic.dfy` | the sliding window and its rate limit |
| `ModelCache.dfy` | lists over real backing arrays refining a map |

How it is put together:

- A method that changes state is proved to compute a function of the old state (`NextOf`, `OnLists`, `Upserted`,
  `OnSlice`, ...) or to satisfy a predicate that defines the right answer (`Chosen`, `IsFreeVRAM`, `Checked`).
  The lemmas then say what those mean over whole runs.
- A method that holds a lock, and each channel or atomic operation, is one step. Everything the environment decides is
  an input or a nondeterministic choice: clock readings (never going back), heartbeat contents, loader replies, which
  branch of a `select` is taken, whether a channel has room, map iteration order, and in the gateway protocol what
  Schedule answers.
- The queue lemmas hold for any slot table that mentions every class; the 7/2/1 table is plugged in at the end.
- Integers are unbounded, percentages are exact reals, times are nanoseconds.

Five promises that do not hold as they are usually read, each with its exact condition and an input that shows it:

- `FreeVRAM` decides fit only for positive requests, or where a slice has the room anyway (`FreeVRAMDecidesFitIff`,
  `FreeVRAMDecidesFitIffPositive`).
- Evict can refuse while evictable work remains if priorities may be negative (`RefusalMeansOnlyProduction`,
  `NegativePriorityIsStuck`).
- Slice keys are ambiguous as soon as there is a slash besides the two that join the parts, in the slice ID too
  (`KeysAreSharedIffSlash`, `SlashInASliceIDCollides`); among slash-free node and GPU IDs they are not
  (`SliceKeysAreInjective`).
- A re-admission is refused, and its request dropped even if it is still waiting, exactly when newcomers have filled the
  bucket since the pop
  (`RefusedIffCrowded`, `LiveDropIffCrowded`, `OnlyCrowdingDropsTheLiving`, `ReadmissionCanBeRefused`).
- The comment at `scheduler/admission/gateway.go:119`, one try per item and tick, is assured for evenly matched buckets and
  no others (`OneTryEachIff`, `FailedTickIff`, `SomeTwiceSomeNever`, `HeadTriedTwice`). What every tick does is as many tries
  as there were items (`DrainOnce`), and the waiting bounds hold throughout.

## Model

| member | source | states |
|---|---|---|
| `AdmissionQueue.Queue.constructor` | scheduler/admission/queue.go:38-45 | three empty buckets, cursor at slot 0 |
| `AdmissionQueue.Queue.Admit` | scheduler/admission/queue.go:47-56 | the new queue state and the answer are those of `AdmitTo`: refused with nothing changed when the bucket is full, else appended at its back |
| `AdmissionQueue.Queue.Next` | scheduler/admission/queue.go:58-71 | the ten-slot scan computes `NextOf`, which names the first slot from the cursor whose class is backlogged; what `NextOf` is worth is stated by the lemmas below |
| `AdmissionQueue.Queue.Len` | scheduler/admission/queue.go:73-77 | the total over the three buckets |
| `AdmissionQueue.SkippedMeans` | scheduler/admission/queue.go:61-69 | the slots the scan passes over all belong to empty classes, and it stops at the first that does not |
| `AdmissionQueue.NextIsWorkConserving` | scheduler/admission/queue.go:58-71 | empty is reported if and only if all three buckets are empty, and then nothing moves, the cursor included; otherwise exactly the oldest request of the returned class is removed |
| `AdmissionQueue.AdmitConserves` | scheduler/admission/queue.go:47-56 | an accepted request adds exactly itself to the contents; a refused one changes nothing |
| `AdmissionQueue.NextConserves` | scheduler/admission/queue.go:58-71 | a dequeue removes exactly the request it returns |
| `AdmissionQueue.FifoPerClass` | scheduler/admission/queue.go:47-71 | over any interleaving of calls, what a class was handed followed by what it still holds is what it held followed by what it accepted: no loss, no doubling, no overtaking |
| `AdmissionQueue.CycleShare` | scheduler/admission/queue.go:23-28 | a full cycle holds the same slots of any set of classes wherever the cursor starts |
| `AdmissionQueue.OnePass` | scheduler/admission/queue.go:58-71 | a dequeue that finds a class backlogged passes as many slots of that class as it serves requests of it |
| `AdmissionQueue.ServedPerSlotPassed` | scheduler/admission/queue.go:58-71 | over any run in which a class is never found empty, it is served once per slot of its own the cursor travelled over |
| `AdmissionQueue.GuaranteedShare` | scheduler/admission/queue.go:23-28 | a class never found empty gets at least its weight per cycle of dequeues, whatever the other classes do and whatever is admitted meanwhile (any slot table) |
| `AdmissionQueue.BoundedWaiting` | scheduler/admission/queue.go:47-71 | for any slot table: the request at position q*weight + r of its bucket (r below the weight) is dequeued, in its place, within q cycles of dequeues, one for each slot of the other classes, and r + 1 more, under any interleaving |
| `AdmissionQueue.WindowShare` | scheduler/admission/queue.go:58-71 | over any stocked stretch of slots each class of a set is served once per slot it owns there and no other class is served |
| `AdmissionQueue.ExactShare` | scheduler/admission/queue.go:23-28 | from any cursor: if every class of a set holds its weight and the others stay empty, the next sum-of-weights dequeues serve each class of the set exactly its weight (any slot table) |
| `AdmissionQueue.TableWeights` | scheduler/admission/queue.go:26-28 | the repository's table gives any set of classes the sum of 7, 2 and 1 |
| `AdmissionQueue.WaitingBound` | scheduler/admission/queue.go:26-71 | in the repository's numbers, for any interleaving: the request at position k is dequeued within 10*(k/7) + 4 + k%7 calls of Next if High, 10*(k/2) + 9 + k%2 if Medium, 10*(k+1) if Low, which is never more than 10*ceil((k+1)/weight) |
| `AdmissionQueue.SevenTwoOne` | scheduler/admission/queue.go:23-28 | with all classes backlogged throughout, any ten dequeues split exactly 7/2/1 |
| `AdmissionQueue.ExactSevenTwoOne` | scheduler/admission/queue.go:23-28 | the exact share in numbers for every set of classes that has work |
| `AdmissionQueue.BoundIsTight` | scheduler/admission/queue.go:26-28 | those bounds are exact for every class and every position: with the cursor just past the slots of the class and all buckets well stocked, one call less has served exactly k of its requests |
| `Gateway.DrainOnce` | scheduler/admission/gateway.go:118-134 | without concurrent admits: exactly as many dequeues as there were requests; a request whose flag was set is let go, one for which Schedule found a place gets that very decision, any other goes back and is never refused; what is left plus the cancelled and the answered is what there was; an empty queue if nothing went back |
| `Gateway.RoomToReturn` | scheduler/admission/gateway.go:121-130 | on a non-empty queue a popped request always fits back into its own bucket |
| `Gateway.AttemptStep` | scheduler/admission/gateway.go:120-134 | one attempt conserves contents and length, up to the request that leaves for good |
| `Gateway.StepInv` | scheduler/admission/gateway.go:52-134 | every step of a handler, a timeout or the drainer keeps the invariant (conservation, class of each bucket, channel and phase consistency, commits) |
| `Gateway.ExecutionInv` | scheduler/admission/gateway.go:52-134 | the invariant holds after any interleaving |
| `Gateway.ExactlyOnePlace` | scheduler/admission/gateway.go:63-91 | in every reachable state an admitted request is in exactly one of: one bucket slot, the hands of the drainer, sent, dropped; so at most one result is ever sent, and that send never blocks on the capacity-1 channel |
| `Gateway.AnswerMatchesCommit` | scheduler/admission/gateway.go:63-96 | in every reachable state a request past commit or answered 200 has been committed exactly once, with its own decision and model; any other, 429 included, never |
| `Gateway.AnswersAreFinal` | scheduler/admission/gateway.go:63-91 | once answered, a request keeps its answer for the rest of any run |
| `Gateway.QueuedByClass` | scheduler/admission/gateway.go:39-50 | a queued request sits in the High bucket if its priority is 0, in Medium if it is 1, in Low otherwise; no bucket exceeds the capacity |
| `Gateway.EveryRequestGetsItsTurn` | scheduler/admission/gateway.go:118-134 | in any interleaving the drainer pops the request at position k within the same exact number of pops |
| `Gateway.DroppedIsNeverPlaced` | scheduler/admission/gateway.go:125-131 | a request discarded as cancelled or refused on re-admission is never committed and never answered 200 later in the run |
| `Gateway.CancelledIsNeverPlaced` | scheduler/admission/gateway.go:87-91 | once the flag of a request is set, the drainer neither retries it nor sends it a result, unless it had read the flag before |
| `Gateway.DecisionsComeFromSchedule` | scheduler/admission/gateway.go:63-64 | every decision that is committed or answered for a request, or on its way there, is what Schedule answered for that very request |
| `Gateway.PlacedAtOnce` | scheduler/admission/gateway.go:63-67 | room at once: one commit of the request and its decision, answered 200, nothing else changed |
| `Gateway.RefusedWhenFull` | scheduler/admission/gateway.go:69-74 | no room and a full bucket: answered 429, nothing queued, nothing else changed |
| `Gateway.PlacedFromQueue` | scheduler/admission/gateway.go:79-86 | a successful retry: result sent and received, one commit, answered 200 |
| `Gateway.TimedOut` | scheduler/admission/gateway.go:87-91 | the timeout: answered 429 and the flag set, nothing else changed |
| `Gateway.FailedTick` | scheduler/admission/gateway.go:118-134 | in a tick where every attempt fails the buckets only turn round: lengths stay, a class with work keeps it, and what a class is handed it takes back in the same order |
| `Gateway.OneTryEachIff` | scheduler/admission/gateway.go:119-131 | the comment "each queued item gets one try per tick": it is assured for every tick, whatever Schedule answers and whoever cancels, if and only if for some t, at most one cycle per queued request, every class with work owns exactly as many of the next t slots from the cursor as it has requests |
| `Gateway.FailedTickIff` | scheduler/admission/gateway.go:119-131 | and for a tick in which every retry fails that condition decides about the very tick |
| `Gateway.SomeTwiceSomeNever` | scheduler/admission/gateway.go:119-131 | a tick, whatever its outcomes, that does not try each request once tries one request twice (the head of its bucket if everything went back) and the tail of another bucket not at all |
| `Gateway.HeadTriedTwice` | scheduler/admission/gateway.go:119-131 | the concrete failing case: one High and one Low request with the cursor at the first slot, and the High request is tried twice |
| `Gateway.RefusedIffCrowded` | scheduler/admission/gateway.go:130-130 | in any run, a re-admission is refused if and only if what the bucket held just after the last pop plus the newcomers its class has admitted since then reaches the capacity |
| `Gateway.LiveDropIffCrowded` | scheduler/admission/gateway.go:121-131 | a step of a run drops a request whose cancelled flag is not set if and only if it re-admits that request to a bucket crowded in this sense |
| `Gateway.OnlyCrowdingDropsTheLiving` | scheduler/admission/gateway.go:121-131 | in a run where that never happens, every request the drainer drops had been cancelled and answered 429 |
| `Gateway.ReadmissionCanBeRefused` | scheduler/admission/gateway.go:130-130 | for any positive capacity a run in which a newcomer takes the freed place and a live, waiting request is dropped by the ignored re-admission error |
| `Registry.FreeVRAM` | scheduler/registry/node_registry.go:92-105 | whole-GPU headroom, or the largest headroom of a healthy slice and 0 if there is none |
| `Registry.BestSliceFor` | scheduler/registry/node_registry.go:140-168 | the tightest (pack) or roomiest (spread) of the healthy slices that fit; none exactly when none fits or the GPU is whole |
| `Registry.OffersIff` | scheduler/registry/node_registry.go:140-181 | what can be placed where, in reported fields: healthy slices with the room on a partitioned GPU, else the whole GPU under the ID "full" |
| `Registry.FreeVRAMDecidesFit` | scheduler/registry/node_registry.go:92-105 | for a positive request, FreeVRAM covers it if and only if some slice of the node can take it |
| `Registry.FreeVRAMDecidesFitIff` | scheduler/registry/node_registry.go:92-105 | node by node: that agreement holds if and only if the request is positive, or the GPU is whole, or some healthy slice has the room anyway |
| `Registry.FreeVRAMDecidesFitIffPositive` | scheduler/registry/node_registry.go:96-104 | it holds on all nodes at once if and only if the request is positive: at 0 or below a partitioned node with no usable slice still claims to fit |
| `Registry.NodeRegistry.constructor` | scheduler/registry/node_registry.go:190-194 | an empty registry |
| `Registry.NodeRegistry.Upsert` | scheduler/registry/node_registry.go:197-203 | the entry under the node and GPU key is replaced and healthy; no other entry changes |
| `Registry.UpsertedMeans` | scheduler/registry/node_registry.go:197-203 | after a heartbeat its node is healthy, whatever it was before, with the reported state and time; every other entry is as it was |
| `Registry.MarkedMeans` | scheduler/registry/node_registry.go:206-213 | marking clears the health of the nodes named and changes nothing else |
| `Registry.NodeRegistry.MarkUnhealthy` | scheduler/registry/node_registry.go:206-213 | only the health of the named entry, if present, is cleared |
| `Registry.NodeRegistry.All` | scheduler/registry/node_registry.go:216-226 | exactly the healthy nodes, each once, in any order |
| `Registry.NodeRegistry.StaleNodes` | scheduler/registry/node_registry.go:240-251 | exactly the healthy nodes whose last heartbeat is older than the cutoff, each once |
| `BinPacker.ExpandNodeForModel` | scheduler/scheduler/bin_packer.go:104-123 | exactly the fitting slices of the node (the synthetic full one if it is whole), each with the affinity of the node |
| `BinPacker.AnySliceAboveThreshold` | scheduler/scheduler/bin_packer.go:194-201 | true if and only if some candidate is above 85 percent |
| `BinPacker.LeastFitSlice` | scheduler/scheduler/bin_packer.go:205-215 | a fitting candidate of minimum free VRAM, none exactly when nothing fits, through an in-place sort |
| `BinPacker.MostFreeSlice` | scheduler/scheduler/bin_packer.go:218-229 | a candidate of maximum free VRAM, none exactly when there are none |
| `BinPacker.Select` | scheduler/scheduler/bin_packer.go:154-177 | from all candidates, one of the affinity pool if it is not empty, of minimum or maximum free VRAM by mode; it always finds one |
| `BinPacker.Schedule` | scheduler/scheduler/bin_packer.go:135-191 | fails if and only if no healthy node has a fitting slice, with the first error if and only if no node is healthy, and never with the could-not-select error; otherwise names a fitting slice of a healthy node, with its MIG flag and with AffinityHit telling whether that node has the weights in its report, which is so if and only if any fitting node has; the slice is a `Chosen` one |
| `BinPacker.ChosenMeans` | scheduler/scheduler/bin_packer.go:154-174 | a `Chosen` slice in reported fields: of the nodes with the weights if one of those fits; least total minus used as long as no fitting slice is over 85 percent used, else most |
| `BinPacker.CrammedIff` | scheduler/registry/node_registry.go:48-53 | the 85 percent test is exactly the cross-multiplied one, a slice without memory counting as unused |
| `BinPacker.ChoiceIsOrderFree` | scheduler/scheduler/bin_packer.go:135-191 | any two acceptable choices leave the same free VRAM and agree on AffinityHit, so node iteration order does not matter; AffinityHit says whether any fitting candidate has the weights |
| `BinPacker.SchedulableIffRoom` | scheduler/scheduler/bin_packer.go:147-152 | for a positive request some candidate exists if and only if some healthy node has FreeVRAM covering it |
| `BinPacker.AgreesWithBestSliceFor` | scheduler/scheduler/bin_packer.go:194-229 | on a single partitioned node Schedule and BestSliceFor settle for the same free VRAM in the same mode |
| `PreemptionHeap.PriorityQueue.Swap` | scheduler/scheduler/bin_packer.go:262-266 | exchanges two places and keeps every task index equal to its position |
| `PreemptionHeap.PriorityQueue.Push` | scheduler/scheduler/bin_packer.go:268-272 | appends; indices stay right if what is pushed was not queued already |
| `PreemptionHeap.PriorityQueue.Pop` | scheduler/scheduler/bin_packer.go:274-281 | removes the last place; indices stay right |
| `PreemptionHeap.PriorityQueue.Enqueue` | scheduler/scheduler/bin_packer.go:295-297 | keeps heap order and index back-pointers and adds exactly what is enqueued |
| `PreemptionHeap.PriorityQueue.Evict` | scheduler/scheduler/bin_packer.go:283-293 | keeps heap order and back-pointers; removes exactly one task of maximal Priority, never one of Priority 0, or refuses and leaves the multiset as it was; the no-tasks error if and only if empty |
| `PreemptionHeap.RootOutranksAll` | scheduler/scheduler/bin_packer.go:258-260 | in a heap-ordered array the root has maximal Priority |
| `PreemptionHeap.NothingLost` | scheduler/scheduler/bin_packer.go:283-297 | over any run, evicted plus remaining tasks equal the initial plus the enqueued ones |
| `PreemptionHeap.Serve` | scheduler/scheduler/bin_packer.go:283-297 | any sequence of Enqueue and Evict calls on the real heap is a run in the sense of the lemmas below, ends heap-ordered, and keeps the index back-pointers as long as no task is enqueued while it is queued; an evicted task may return |
| `PreemptionHeap.ProductionStays` | scheduler/scheduler/bin_packer.go:288-291 | over any run every P0 task that was queued or enqueued is still queued at the end, as often as it went in |
| `PreemptionHeap.EvictionsDescend` | scheduler/scheduler/bin_packer.go:283-293 | without an Enqueue in between, evictions come out in non-increasing Priority |
| `PreemptionHeap.RefusalMeansOnlyProduction` | scheduler/scheduler/bin_packer.go:283-292 | refusal coincides with "nothing but P0 tasks queued" if and only if no negative-priority task sits behind a P0 task at the top |
| `PreemptionHeap.NegativePriorityIsStuck` | scheduler/scheduler/bin_packer.go:288-291 | the concrete failing case: priority -1 behind a P0 task is never evicted |
| `Reconciler.Reconciler.SetDesired` | scheduler/reconciler/reconciler.go:89-95 | the list of one slice is replaced |
| `Reconciler.Reconciler.AddDesired` | scheduler/reconciler/reconciler.go:99-111 | the model is appended to the list of one slice unless present |
| `Reconciler.Reconciler.RemoveDesired` | scheduler/reconciler/reconciler.go:115-131 | the filtered list is `Without` the model; an unknown slice is left unknown |
| `Reconciler.Reconciler.SnapshotDesired` | scheduler/reconciler/reconciler.go:135-143 | the set of models desired, or nothing for a slice without an entry |
| `Reconciler.WithoutMeans` | scheduler/reconciler/reconciler.go:123-130 | the filter removes exactly the target, keeps lists duplicate-free, and is the identity when the target is absent |
| `Reconciler.OneOp` | scheduler/reconciler/reconciler.go:89-131 | each operation means its set operation on one key, keeps lists duplicate-free and leaves every other key alone |
| `Reconciler.OpMeans` | scheduler/reconciler/reconciler.go:89-131 | each operation, model by model: Set replaces the list, Add keeps what was there and gains the model, Remove loses that model only; other slices are untouched |
| `Reconciler.DesiredRefinesSets` | scheduler/reconciler/reconciler.go:89-131 | over any sequence of Set, Add and Remove the lists refine a map from slice to set of models, stay duplicate-free, and unnamed slices are untouched |
| `Reconciler.SliceKeysAreInjective` | scheduler/reconciler/reconciler.go:289-294 | keys agree if and only if node, GPU and slice agree (empty slice ID meaning "full"), for node and GPU IDs without a slash |
| `Reconciler.KeysAreSharedIffSlash` | scheduler/reconciler/reconciler.go:289-294 | a slice (node, GPU and slice ID) shares its key with a different one if and only if its node ID or its GPU ID holds a slash, or its slice ID does before the last character |
| `Reconciler.SlashInASliceIDCollides` | scheduler/reconciler/reconciler.go:289-294 | the concrete case with slash-free node and GPU: slice 0/0/0 of GPU b on node a and slice 0/0 of GPU 0 on node a/b have one key |
| `Reconciler.GPUsOfANodeDiffer` | scheduler/registry/node_registry.go:197-203 | registry keys tell the GPUs of one node apart, whatever the IDs |
| `Reconciler.GPUKeysAreSharedIffSlash` | scheduler/registry/node_registry.go:197-203 | a GPU shares its registry key with one of another node if and only if one of its IDs holds a slash |
| `Reconciler.Reconciler.ApplyHeartbeat` | scheduler/reconciler/reconciler.go:172-187 | the registry entry of the reporting node is replaced, healthy and stamped now |
| `Reconciler.Reconciler.EmitDiff` | scheduler/reconciler/reconciler.go:226-251 | the actions sent for one slice, counted action by action: one PREWARM per desired and absent model, one EVICT per present and undesired one, nothing else, in any order |
| `Reconciler.DiffCloses` | scheduler/reconciler/reconciler.go:224-251 | carrying out such actions in any order turns the actual set into the desired set |
| `Reconciler.Reconciler.ReconcileMIGNode` | scheduler/reconciler/reconciler.go:213-253 | the actions of a partitioned node: the diffs of its healthy slices that have a desired entry |
| `Reconciler.Reconciler.ReconcileNonMIGNode` | scheduler/reconciler/reconciler.go:256-287 | the actions of a whole node: the diff of its one full slice, sent with an empty slice ID |
| `Reconciler.NodeNamesItself` | scheduler/reconciler/reconciler.go:213-287 | a node diff only ever names that node and never marks anything dead |
| `Reconciler.NodeAsksIff` | scheduler/reconciler/reconciler.go:213-287 | an action is sent for a node if and only if it names it and is due: on a healthy slice with the named ID that has a desired entry, or on the whole GPU if that has one, the model being desired and not loaded (PREWARM) or loaded and not desired (EVICT) |
| `Reconciler.AskedOnce` | scheduler/reconciler/reconciler.go:213-287 | no action is sent twice for a node whose slice IDs differ |
| `Reconciler.TickAsksIff` | scheduler/reconciler/reconciler.go:203-209 | a tick sends such an action if and only if its node is known and healthy |
| `Reconciler.NothingDesiredNothingAsked` | scheduler/reconciler/reconciler.go:219-222 | with no desired entries a tick sends no PREWARM and no EVICT |
| `Reconciler.HealthyMeansRecent` | scheduler/reconciler/reconciler.go:192-195 | once the stale nodes are marked, the healthy ones are those that were healthy and heard from within 2 s |
| `Reconciler.DeadMeansSilent` | scheduler/reconciler/reconciler.go:192-201 | one MARK_DEAD for exactly each healthy node not heard from for more than 2 s |
| `Reconciler.Reconciler.MarkStale` | scheduler/reconciler/reconciler.go:192-201 | exactly the stale nodes become unhealthy, one MARK_DEAD each |
| `Reconciler.Reconciler.Reconcile` | scheduler/reconciler/reconciler.go:191-210 | a tick: MARK_DEAD exactly once per stale node, after which the healthy nodes are those heard from within 2 s; then for every action exactly the count of the diff of its node if that is still healthy, else zero; nothing at all but MARK_DEAD when nothing is desired |
| `Agent.AgentState.MarkLoaded` | agent/src/main.rs:453-469 | the model is recorded once, on the first slice with the given ID or on the flat list, and nothing else changes |
| `Agent.AgentState.MarkEvicted` | agent/src/main.rs:476-488 | the model is removed from the first slice with the given ID or from the flat list, and nothing else changes |
| `Agent.AgentState.HandleCommand` | agent/src/main.rs:391-440 | what is recorded for each verb and loader reply: the model named by a load reply, the model asked for on eviction, nothing on failure or for other verbs |
| `Agent.OnSliceMeans` | agent/src/main.rs:453-488 | a command is a set insertion or removal on the slice it names and leaves every other slice and field alone |
| `Agent.ModelListMeans` | agent/src/main.rs:457-486 | recording adds the model unless listed, evicting removes it, and neither makes a list hold a model twice |
| `Agent.NoSliceListsTwice` | agent/src/main.rs:453-488 | no command makes any slice list a model twice |
| `AntiEntropy.TickDoesNoHarm` | scheduler/reconciler/reconciler.go:213-287 | computed from any view, however stale, every PREWARM names a desired model and every EVICT an undesired one |
| `AntiEntropy.KeepsIff` | scheduler/reconciler/reconciler.go:89-131 | a Set, Add or Remove keeps the set desired on a slice if and only if it is for another slice or asks for what is desired there already |
| `AntiEntropy.SteadyIff` | scheduler/reconciler/reconciler.go:89-131 | a run keeps that set throughout if and only if all its changes are of that kind, such as every commit for another slice and every repeated commit for this one |
| `AntiEntropy.StepEffect` | agent/src/main.rs:453-488 | one protocol step that keeps the set desired on the slice changes the record of the slice only for the model of a landing command: right, or wrong if that command predates the desired set |
| `AntiEntropy.DistanceNeverGrows` | scheduler/reconciler/reconciler.go:212-253 | while the set desired on a slice stands, whatever is desired elsewhere, the size of the symmetric difference plus the harmful commands still under way never grows, over any run with stale, reordered or lost heartbeats and reordered, failed or lost commands |
| `AntiEntropy.ExactlyTheUndeliveredIsWrong` | scheduler/reconciler/reconciler.go:212-253 | with older commands gone and the set desired on the slice standing, what is wrong after any run is exactly what was wrong before minus what a carried-out command put right; a slice that is right stays right |
| `AntiEntropy.HeartbeatRefreshes` | scheduler/reconciler/reconciler.go:172-187 | a heartbeat, applied however much later, gives a fresh view of the slice, whatever else happens meanwhile, as long as no command for the slice is carried out |
| `AntiEntropy.FreshTickAsksForAll` | scheduler/reconciler/reconciler.go:213-253 | on a fresh view a tick sends the remedy for every model that is wrong |
| `AntiEntropy.OneFreshRoundConverges` | scheduler/main.go:187-230 | one fresh view, one tick and delivery of its commands for the slice, in any order and with anything in between that keeps the set desired on the slice: actual equals desired |
| `AntiEntropy.SilentOnceRight` | scheduler/reconciler/reconciler.go:224-251 | once the slice is right, a tick whose view shows it right emits nothing for it |
| `AntiEntropy.ConvergesAndFallsSilent` | scheduler/reconciler/reconciler.go:172-253 | end to end: heartbeat, a tick on what it showed however stale by then, delivery of its commands for the slice, next heartbeat, each however late and with anything in between that keeps the set desired on the slice, earlier commands landing and placements elsewhere included: the slice is as desired and the next tick says nothing about it |
| `ControlPlane.PlaceNow` | scheduler/admission/gateway.go:63-67 | the immediate path: on success the set desired on the chosen slice is the old one plus the model, and every other entry is unchanged; on failure nothing changes |
| `ControlPlane.SameKey` | scheduler/scheduler/bin_packer.go:179-190 | for a partitioned, whole or MIG-enabled-without-slices node, the key commit writes is the key the reconciler reads |
| `ControlPlane.PlacementIsPursued` | scheduler/reconciler/reconciler.go:191-287 | after a commit, the next tick sends exactly one PREWARM for the placed model if the slice does not report it, none if it does, and never an EVICT |
| `ControlPlane.PlacementEvictsNoMore` | scheduler/reconciler/reconciler.go:97-111 | after a placement no tick evicts a model that was desired before, and on a slice that had an entry none evicts what it would not have evicted anyway |
| `ControlPlane.HearThenSchedule` | scheduler/reconciler/reconciler.go:172-187 | after a heartbeat the node is among the healthy ones with what it reported, dead or unknown before or not, and if it offers a fitting slice the next Schedule succeeds |
| `ControlPlane.SoundMeansLeftAlone` | scheduler/registry/node_registry.go:236-251 | in a log where every event was allowed to follow, a node marked dead is heard from before it is named again |
| `ControlPlane.SoundMeansOnlyForSilence` | scheduler/registry/node_registry.go:240-251 | in such a log a MARK_DEAD comes only after more than the timeout since the latest heartbeat of that node |
| `ControlPlane.StepInv` | scheduler/reconciler/reconciler.go:172-210 | every heartbeat, tick, placement and change of desire keeps the registry in agreement with the log |
| `ControlPlane.DeadNodesAreLeftAlone` | scheduler/reconciler/reconciler.go:191-210 | over any run from an empty registry: between a MARK_DEAD and the next applied heartbeat of that node it gets no second MARK_DEAD, no PREWARM, no EVICT and no placement; and MARK_DEAD only follows silence longer than the timeout |
| `ControlPlane.HealthyIffHeard` | scheduler/registry/node_registry.go:197-226 | over any run from an empty registry a node is healthy if and only if it has been heard from and not marked dead since |
| `Traffic.TrafficAnalyzer.RecordEvent` | scheduler/traffic/traffic_analyzer.go:101-105 | the history of the model gains the timestamp, and the stored list still agrees with it on every later window |
| `Traffic.AfterMeans` | scheduler/traffic/traffic_analyzer.go:115-121 | a window holds each timestamp as often as the list if it is strictly later than the cutoff, else not at all |
| `Traffic.AfterSplits` | scheduler/traffic/traffic_analyzer.go:115-121 | it keeps the order: the window of a concatenation is the concatenation of the windows |
| `Traffic.HotMeans` | scheduler/traffic/traffic_analyzer.go:128-133 | a model is hot if and only if at least 25 places of its list are later than 5 minutes ago |
| `Traffic.PruningIsHarmless` | scheduler/traffic/traffic_analyzer.go:112-122 | pruning at an earlier cutoff loses nothing a later window would keep |
| `Traffic.TrafficAnalyzer.Prune` | scheduler/traffic/traffic_analyzer.go:115-121 | the timestamps strictly later than the cutoff, in order |
| `Traffic.TrafficAnalyzer.MaybeSignalPrewarm` | scheduler/traffic/traffic_analyzer.go:139-158 | an attempt is made if and only if there was none before or the last, sent or dropped, is at least a window old; it is then remembered either way |
| `Traffic.TrafficAnalyzer.AnalyzeModel` | scheduler/traffic/traffic_analyzer.go:114-134 | one model: its list becomes its full history within the window, it is checked if and only if that history has at least 25 events, and the one attempt this may add is made during the call, earlier ones standing |
| `Traffic.TrafficAnalyzer.Analyze` | scheduler/traffic/traffic_analyzer.go:108-135 | one tick: every stored list equals the full history within the window despite all earlier pruning, exactly the models with at least 25 such events are checked, once each, attempts match the checks, earlier attempts stand and new ones are made within the tick |
| `Traffic.LastIsFar` | scheduler/traffic/traffic_analyzer.go:137-145 | n attempts for one model span at least n-1 windows |
| `Traffic.RateBound` | scheduler/traffic/traffic_analyzer.go:137-158 | over any span T a spaced log holds at most floor(T / 5 min) + 1 attempts for a model |
| `Traffic.Run` | scheduler/traffic/traffic_analyzer.go:65-88 | the analyzer loop over any requests and ticks: attempts once made stand, new ones fall within the run, and over any span T each model is attempted at most floor(T / 5 min) + 1 times |
| `ModelCache.ModelCache.constructor` | scheduler/cache/model_cache.go:36-40 | an empty cache |
| `ModelCache.ModelCache.Register` | scheduler/cache/model_cache.go:44-65 | on the map by model, node and GPU: a new record, or the old one with only LastUsed and DownloadDurationSec refreshed |
| `ModelCache.ModelCache.DropInPlace` | scheduler/cache/model_cache.go:73-79 | filtering over the own backing array leaves the survivors in order at its front |
| `ModelCache.DroppedMeans` | scheduler/cache/model_cache.go:73-79 | the filtered list holds exactly the records of other nodes or GPUs, still without repeats |
| `ModelCache.AgreeAfterDrop` | scheduler/cache/model_cache.go:69-81 | removing a record from its list removes exactly its key from the map the lists stand for |
| `ModelCache.AgreeAfterAdd` | scheduler/cache/model_cache.go:57-64 | appending a record under a new key adds exactly that key |
| `ModelCache.ModelCache.Evict` | scheduler/cache/model_cache.go:69-81 | the map loses exactly the named key, through in-place filtering of shared arrays |
| `ModelCache.ModelCache.WarmNodes` | scheduler/cache/model_cache.go:85-92 | exactly the current records of the model, each once, in a list of its own that no later operation writes to |
| `ModelCache.ModelCache.ShouldPreferAffinity` | scheduler/cache/model_cache.go:98-108 | true if and only if some current record of the model took at least 120 s to download |
| `ModelCache.ModelCache.TouchNode` | scheduler/cache/model_cache.go:112-122 | only LastUsed of the named record, if present, changes |
| `ModelCache.DoAll` | scheduler/cache/model_cache.go:44-122 | over any sequence of Register, Evict and TouchNode the cache stands for the map those operations describe |
| `ModelCache.WarmListIsKept` | scheduler/cache/model_cache.go:85-92 | a list returned by WarmNodes keeps its membership over any sequence of operations after it |

## Left out

- HTTP servers and clients, JSON, logging, signals, containers: only their effect is kept, a heartbeat or command delivered or lost.
- The Python loader, vLLM, checkpoints and VRAM sampling: a loader reply is an input, and reported VRAM is arbitrary. The protocol in `AntiEntropy` takes it that a successful load names the model asked for, as `agent/loader/main.py` does, and that the mock drift covers all slices of the node.
- Mutexes, goroutines and blocking sends on the actions channel: each locked method is one atomic step. A tick reads the desired lists as of one moment, whereas the code takes the lock slice by slice; a Schedule call counts as happening when it reads the registry.
- Floating-point rounding of utilization and rate: exact reals.
- 64-bit overflow of MiB amounts and counters.
- Node fields nothing here depends on: CUDA cores, NVLink, MIG profile, agent address (a missing address is a lost command), and a task's node, GPU and slice.
- The health flag of the synthetic full slice: true here, because only healthy nodes are expanded.
- Aliasing of the in-place filters in RemoveDesired and the traffic analyzer: those lists are values here, since nothing else holds them. `ModelCache` does model backing arrays, capacity and sharing.
- The container/list and sort.Slice implementations: a bucket is a sequence, and the sort is any that puts the pool in order of free VRAM.
- The res.err branch of HandleSchedule: the drainer never sends an error.
- Convergence on whole GPUs: the heartbeat loop overwrites the flat model list (`agent/src/main.rs:238`, `agent/src/main.rs:258`, `agent/src/main.rs:277`), so convergence is stated for MIG slices.
- "VRAM is never overcommitted" across placements: Schedule reserves nothing, so it is not claimed.
- Rescheduling after MARK_DEAD, pausing by priority, prewarm signals reaching an agent: announced in comments, not implemented.
- expandNode, anyAboveThreshold, node-level utilization, Get, formatAction and logHeartbeat: unused, display-only or a plain lookup.
- Task.index of an evicted task, and of one enqueued twice: the back-pointers are claimed for tasks in the queue, each queued once.
