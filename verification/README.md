# A Dafny model of the chimaera task runtime core

Chimaera is a distributed task runtime. Clients build tasks and push them into
per-pool ingress queues. Workers poll lanes. A task registry loads task
libraries and creates task states, which are per-pool module instances with one
instance per lane. A remote queue module fans tasks out to other nodes and brings
their results back. The admin module carries the control-plane tasks.

This project models those pieces as pure Dafny functions over immutable values:

- `Base.dfy`: the `Option` wrapper (`Wrappers`), bitfields as sets of bit
  positions (`Bits`), and the `(node, unique)` identifiers (`Ids`). An id is
  null exactly when its node is 0.
- `Task.dfy` (`TaskModel`): the task header. It covers the task node and its
  depth, the flag and run-flag words with their accessors, completion, blocking,
  the periodic `ShouldRun`/`DidRun` pair, duplication, and the header's
  (de)serialisation.
- `TaskTraits.dfy`: the compile-time `TaskFlags<FLAGS>` traits.
- `Lanes.dfy`: lanes, lane groups and a module's lane table. This covers
  active-task reference counts, plug counts with `size_t` wrap-around,
  hash-based and least-loaded lane selection, and the active-task total.
- `CoMutex.dfy` (`CoMutexModel`): the coroutine mutex keyed by root task id. It
  covers the blocked map, the scoped lock and the mutex table.
- `Client.dfy`: the client side. It covers the unique-id counter, the double-free
  monitor, the retrying allocator, queue-id selection, local scheduling, the
  replica copy helpers and node hashing.
- `Admin.dfy`: the admin tasks. It covers their constructors, their traits,
  `CopyStart`, and the `SerializeStart`/`SerializeEnd` halves of a remote call.
- `Registry.dfy`: the task registry. It covers the library search path, library
  registration, the name-to-id table, and creating, looking up and destroying
  task states.
- `WorkOrchestrator.dfy`: the work orchestrator. It covers worker spawning,
  worker pids, free cores, the round-robin assignment of lanes to workers, and
  per-worker load.
- `RemoteQueue.dfy`: the remote queue. It covers routing to a node lane,
  replication (fan-out and aggregation), the client push/submit path, batching
  per destination node, the server's completion path and task deserialisation.

Shared memory is a map from task handles to task values (`RemoteQueue.Heap`).
Several things are parameters rather than state:
- time (`now`);
- the environment: filesystem existence, `dlopen`, allocation outcomes, and
  whether a pool exists;
- the hash of a node id or domain query.

## Model

| member | source | states |
|---|---|---|
| TaskModel.RootNode | include/chimaera/task_registry/task.h:112-115 | a node built from a root id keeps that root and has depth 0 |
| TaskModel.NullNode | include/chimaera/task_registry/task.h:165-176 | the null node is null and is a root |
| TaskModel.AddDepth | include/chimaera/task_registry/task.h:149-154 | adding to a node keeps its root and nullness; the u32 depth adds exactly when no wrap occurs and always stays below 2^32 |
| TaskModel.SetReadsBack | include/chimaera/task_registry/task.h:344-542 | setting any flag accessor makes it read true, adds exactly its bit to its own word, and leaves the other word and every other field alone; the setters for the long-running and coroutine flags exist only in the model, as the source offers only `UnsetLongRunning` and `UnsetCoroutine` for them |
| TaskModel.UnsetReadsBack | include/chimaera/task_registry/task.h:344-542 | clearing any flag accessor makes it read false and removes exactly its bit, leaving everything else alone |
| TaskModel.SetModuleComplete | include/chimaera/task_registry/task.h:314-316 | only the module-complete bit is added; whether the task is complete is unchanged |
| TaskModel.UnsetModuleComplete | include/chimaera/task_registry/task.h:324-326 | only the module-complete bit is removed |
| TaskModel.SetComplete | include/chimaera/task_registry/task.h:329-331 | both completion bits are set and every other flag bit is kept |
| TaskModel.UnsetComplete | include/chimaera/task_registry/task.h:339-341 | both completion bits are cleared and every other flag bit is kept |
| TaskModel.CompletionIdempotent | include/chimaera/task_registry/task.h:314-341 | setting or clearing completion twice equals doing it once; UnsetComplete undoes SetComplete |
| TaskModel.SetBlocked | include/chimaera/task_registry/task.h:409-412 | sets the blocked run flag and records the block count, touching nothing else |
| TaskModel.UnsetBlocked | include/chimaera/task_registry/task.h:415-417 | clears the blocked run flag and keeps the count and all other fields |
| TaskModel.ShouldRun | include/chimaera/task_registry/task.h:545-558 | a non-periodic task always runs; a periodic one runs when it has not started, when flushing, or when a full period has passed, and only then restarts its clock |
| TaskModel.DidRun | include/chimaera/task_registry/task.h:561-563 | records the run time and changes nothing else |
| TaskModel.ShouldRunNotDueWithinPeriod | include/chimaera/task_registry/task.h:545-563 | after a run, a periodic task is not due again before one period has passed and is due once it has |
| TaskModel.TaskDup | include/chimaera/task_registry/task.h:747-762 | a duplicate copies the header fields of the source, drops both completion bits, and keeps the destination's run context |
| TaskModel.TaskSerialize | include/chimaera/task_registry/task.h:740-744 | the header archive, which leaves out the start time, is read back by TaskDeserialize into any destination with every sent field restored |
| TaskModel.TaskDeserialize | include/chimaera/task_registry/task.h:740-744 | a decoded header keeps the destination's run context and start time |
| TaskModel.TaskSerializeRoundTrip | include/chimaera/task_registry/task.h:740-744 | decoding an encoded header gives back every serialised field |
| TaskTraits.TaskFlagsAsWritten | include/chimaera/task_registry/task.h:199-247 | the traits as the macros expand: REPLICA iff bit 31, IS_LOCAL iff bit 5, SUPPORTS_SRL iff any serialisation bit; both SRL_SYM traits are always true |
| TaskTraits.TaskFlagsIntended | include/chimaera/task_registry/task.h:238-247 | SRL_SYM_START iff bit 0 and SRL_SYM_END iff bit 2; every other trait agrees with the macros as written |
| TaskTraits.SerializationImpliesReplica | include/chimaera/task_registry/task.h:205-217 | every serialisation trait makes a task a replica that supports serialisation |
| TaskTraits.LocalTraits | include/chimaera/task_registry/task.h:199-247 | a TF_LOCAL task is local, not serialisable and not a replica |
| TaskTraits.SymmetricTraits | include/chimaera/task_registry/task.h:199-247 | a TF_SRL_SYM task is a replica with symmetric start and end and is not local |
| TaskTraits.SrlSymStartAlwaysTrue | include/chimaera/task_registry/task.h:242-243 | as written, even TF_LOCAL and TF_SRL_ASYM tasks report symmetric serialisation; the intended traits do not |
| Lanes.NewLane | include/chimaera/module_registry/module.h:29-60 | a new lane is unplugged, has no active tasks, no queued tasks and no load, and carries its lane and ingress ids, worker and priority |
| Lanes.SetActive | include/chimaera/module_registry/module.h:67-73 | a new id enters with count 1 and a known id's count goes up by one; no other count changes |
| Lanes.UnsetActive | include/chimaera/module_registry/module.h:75-82 | the count goes down by one and the entry is erased at zero; an unknown id is a no-op; counts stay positive |
| Lanes.SetThenUnsetActive | include/chimaera/module_registry/module.h:67-82 | UnsetActive undoes SetActive |
| Lanes.NumActiveCountsDistinctIds | include/chimaera/module_registry/module.h:84-86 | the number of active tasks counts distinct ids, so re-activating an id does not raise it |
| Lanes.SetPlugged | include/chimaera/module_registry/module.h:92-94 | the plug count goes up by one modulo 2^64 |
| Lanes.UnsetPlugged | include/chimaera/module_registry/module.h:96-98 | the plug count goes down by one, wrapping from 0 to 2^64-1, which reads as plugged |
| Lanes.PlugUnplugInverse | include/chimaera/module_registry/module.h:92-98 | plugging and unplugging are inverses in both orders |
| Lanes.GroupIndex | include/chimaera/module_registry/module.h:102-139 | finds the first lane group with the requested id |
| Lanes.GetLaneByHash | include/chimaera/module_registry/module.h:136-139 | the chosen lane is in range, and a hash below the lane count picks that very lane |
| Lanes.GetLaneByHashNarrowing | include/chimaera/module_registry/module.h:136-139 | the hash is narrowed to u32 first: hashes equal modulo 2^32 pick the same lane, and when the lane count divides 2^32 the choice is the plain remainder |
| Lanes.GetLane | include/chimaera/module_registry/module.h:155-157 | a queue id selects a lane as its unique part hashes in the group named by its node part |
| Lanes.LaneHitsAreRemainders | include/chimaera/module_registry/module.h:136-139 | for hashes below 2^32 the u32 narrowing is the identity, so GetLaneByHash picks lane `hash % size` |
| Lanes.HashRoutingBalanced | include/chimaera/module_registry/module.h:136-139 | over the hashes 0..n-1 with n at most 2^32, GetLaneByHash picks lane i n/size times, plus once more when i < n%size |
| Lanes.GetLeastLoadedLane | include/chimaera/module_registry/module.h:142-152 | returns a lane in range which, for a strict order, is the first lane no other lane is below |
| Lanes.PlugAllLanes | include/chimaera/module_registry/module.h:160-166 | as written, every lane is unplugged (decremented); nothing else changes shape |
| Lanes.UnplugAllLanes | include/chimaera/module_registry/module.h:169-175 | every lane is unplugged and the group layout is kept |
| Lanes.PlugAllLanesIntended | include/chimaera/module_registry/module.h:160-166 | every lane is plugged (incremented) and the layout is kept |
| Lanes.PlugAllThenUnplugAllRestores | include/chimaera/module_registry/module.h:160-175 | unplugging every lane after the intended plug-all restores the module |
| Lanes.PlugAllLanesUnplugs | include/chimaera/module_registry/module.h:160-166 | a lane plugged once is left unplugged by PlugAllLanes as written; an unplugged lane reads as plugged after plug-all and unplug-all |
| Lanes.GetNumActiveTasks | include/chimaera/module_registry/module.h:178-186 | the total over all groups and lanes of the active-task counts |
| Lanes.SetActiveRaisesTotal | include/chimaera/module_registry/module.h:67-73 | activating a new id in one lane raises the module total by exactly one; a known id leaves it unchanged |
| CoMutexModel.NewCoMutex | include/chimaera/work_orchestrator/comutex.h:29-32 | a new mutex has no owner, no holders and no parked tasks |
| CoMutexModel.Lock | include/chimaera/work_orchestrator/comutex.h:34-48 | the owner root (or any root of a free mutex) enters and bumps the count; any other root is marked blocked and parked at the end of its root's FIFO |
| CoMutexModel.Decrement | include/chimaera/work_orchestrator/comutex.h:51-53 | the size_t decrement, wrapping from 0 |
| CoMutexModel.Unlock | include/chimaera/work_orchestrator/comutex.h:50-63 | as written: with no waiters it decrements and clears the owner at zero; otherwise it wakes the first root's whole queue and adds its size to the count, without making that root the owner |
| CoMutexModel.LockUnlockRestores | include/chimaera/work_orchestrator/comutex.h:34-63 | an admitted lock followed by an unlock with no waiters restores the mutex |
| CoMutexModel.ParkedInFifoOrder | include/chimaera/work_orchestrator/comutex.h:41-47 | two tasks of the same excluded root are parked in arrival order |
| CoMutexModel.ScopedCoMutex | include/chimaera/work_orchestrator/comutex.h:34-80 | a task of another root is suspended in the constructor, blocked and queued last for its root, with nothing signalled; an admitted task unlocks on exit, and without contention that leaves the mutex as it found it |
| CoMutexModel.TableGet | include/chimaera/work_orchestrator/comutex.h:91-93 | looking up a key returns its mutex, creating a fresh one only if the key was absent |
| CoMutexModel.TableGetStable | include/chimaera/work_orchestrator/comutex.h:91-93 | a second lookup of the same key changes nothing |
| CoMutexModel.UnlockIntended | include/chimaera/work_orchestrator/comutex.h:50-63 | the last release hands the mutex to the first waiting root with one hold per woken task, or frees it |
| CoMutexModel.LockKeepsExclusive | include/chimaera/work_orchestrator/comutex.h:34-48 | Lock keeps every holder on the owner's root |
| CoMutexModel.UnlockIntendedKeepsExclusive | include/chimaera/work_orchestrator/comutex.h:50-63 | the intended Unlock keeps every holder on the owner's root |
| CoMutexModel.LockFreeMutex | include/chimaera/work_orchestrator/comutex.h:34-39 | a task entering a free mutex becomes its owner with one more repetition |
| CoMutexModel.LockParksAlone | include/chimaera/work_orchestrator/comutex.h:41-47 | a task of another root parks alone in its root's queue |
| CoMutexModel.UnlockReleasesOneQueue | include/chimaera/work_orchestrator/comutex.h:50-63 | the last unlock with one root waiting signals that queue and leaves no owner |
| CoMutexModel.UnlockAsWrittenBreaksExclusion | include/chimaera/work_orchestrator/comutex.h:57-62 | after a hand-off, as written, a third root is admitted while the woken root still holds the mutex |
| CoMutexModel.UnlockIntendedKeepsOutThirdRoot | include/chimaera/work_orchestrator/comutex.h:57-62 | with the intended hand-off, the woken root owns the mutex and the third root is parked |
| Client.NextId | include/chimaera/api/chimaera_client.h:100-107 | returns the current (node, unique) pair and advances the counter |
| Client.MakeTaskNodeId | include/chimaera/api/chimaera_client.h:100-102 | a root task node on this node, whose unique part is the counter before the increment |
| Client.MakePoolId | include/chimaera/api/chimaera_client.h:105-107 | a pool id on this node from the same counter |
| Client.MakeId | include/chimaera/api/chimaera_client.h:100-107 | any kind of id takes the counter value and advances it by one |
| Client.MadeIdsDistinct | include/chimaera/api/chimaera_client.h:100-107 | a run of id requests yields consecutive, pairwise distinct ids and advances the counter by the run length |
| Client.MonitorTaskFrees | include/chimaera/api/chimaera_client.h:172-180 | counts one more free and reports exactly when the task had already been freed |
| Client.SecondFreeDetected | include/chimaera/api/chimaera_client.h:172-180 | freeing twice is always reported, and a fresh task is reported only on its second free |
| Client.FirstSuccess | include/chimaera/api/chimaera_client.h:276-290 | the index of the first allocation attempt that succeeds |
| Client.AllocateBufferSafe | include/chimaera/api/chimaera_client.h:276-290 | retries until an attempt succeeds and returns that buffer after exactly the failed attempts before it |
| Client.GetQueueId | include/chimaera/api/chimaera_client.h:337-343 | the process queue maps to itself and everything else to the admin queue |
| Client.GetQueueIdSeparates | include/chimaera/api/chimaera_client.h:337-343 | when the process and admin queues differ, two pools share a queue exactly when both or neither is the process queue |
| Client.ScheduleTaskRuntime | include/chimaera/api/chimaera_client.h:354-371 | a single local id-addressed resolution goes straight to lane `id % num_lanes` in the task's priority group; every other case is emplaced by the domain hash |
| Client.RemoteOrFanOutGoesThroughEmplace | include/chimaera/api/chimaera_client.h:360-370 | a remote or multi-node resolution never takes the direct-lane path |
| Client.CallCopyStart | include/chimaera/api/chimaera_client.h:411-421 | for a replica type the duplicate takes the original's header, gives up data ownership unless deep, and runs the type's CopyStart; otherwise nothing happens |
| Client.CallNewCopyStart | include/chimaera/api/chimaera_client.h:425-434 | for a replica type the output is a fresh task copied by CallCopyStart; otherwise the output is untouched |
| Client.ReplicaOwnership | include/chimaera/api/chimaera_client.h:411-421 | a shallow replica never owns data, a deep one owns it iff the original does, and a replica is never complete |
| Client.HashToNodeId | include/chimaera/api/chimaera_client.h:450 | a hash maps to a node id in 1..numNodes |
| Client.HashToNodeBalanced | include/chimaera/api/chimaera_client.h:450 | over the hashes 0..n-1 every node receives n/numNodes of them, plus one for the first n%numNodes nodes, so none is starved once n reaches numNodes |
| Admin.MethodNumber | include/chimaera/task_registry/task.h:84-90 | admin method numbers start at the first free number after the common methods |
| Admin.MethodNumberInjective | include/chimaera/task_registry/task.h:84-90 | distinct admin methods have distinct numbers, all above the common ones |
| Admin.TypeFlags | tasks/chimaera_admin/include/chimaera_admin/chimaera_admin_tasks.h:364 | GetDomainSize is the only TF_LOCAL admin task; all others are TF_SRL_SYM |
| Admin.AdminTypeTraits | tasks/chimaera_admin/include/chimaera_admin/chimaera_admin_tasks.h:15-392 | every admin task but GetDomainSize is a symmetric replica; GetDomainSize is local |
| Admin.InitBase | tasks/chimaera_admin/include/chimaera_admin/chimaera_admin_tasks.h:32-40 | the shared constructor part: low-latency priority, the admin pool, the method number, and the extra flag bits added |
| Admin.NewRegisterTaskLibTask | tasks/chimaera_admin/include/chimaera_admin/chimaera_admin_tasks.h:24-41 | template 0 registers and template 1 destroys a library, with no extra flags |
| Admin.NewCreateTaskStateTask | tasks/chimaera_admin/include/chimaera_admin/chimaera_admin_tasks.h:94-116 | a coroutine task carrying the library, state name, scope and context, marked as root |
| Admin.NewGetTaskStateIdTask | tasks/chimaera_admin/include/chimaera_admin/chimaera_admin_tasks.h:157-169 | carries the state name and adds no flags |
| Admin.NewDestroyTaskStateTask | tasks/chimaera_admin/include/chimaera_admin/chimaera_admin_tasks.h:201-213 | carries the state id and adds no flags |
| Admin.NewStopRuntimeTask | tasks/chimaera_admin/include/chimaera_admin/chimaera_admin_tasks.h:243-254 | a flush, fire-and-forget task |
| Admin.NewSetWorkOrchestratorPolicyTask | tasks/chimaera_admin/include/chimaera_admin/chimaera_admin_tasks.h:281-297 | template 0 sets the queue policy and template 1 the process policy |
| Admin.NewFlushTask | tasks/chimaera_admin/include/chimaera_admin/chimaera_admin_tasks.h:329-343 | a flush coroutine task with work_done 0 that keeps the caller's fire-and-forget bit |
| Admin.NewGetDomainSizeTask | tasks/chimaera_admin/include/chimaera_admin/chimaera_admin_tasks.h:372-389 | carries the domain id with size 0 |
| Admin.NewUpdateDomainTask | tasks/chimaera_admin/include/chimaera_admin/chimaera_admin_tasks.h:400-416 | carries the update operations |
| Admin.CopyStart | tasks/chimaera_admin/include/chimaera_admin/chimaera_admin_tasks.h:47-49 | a copy takes every input field of the source, keeps the destination's output of a GetTaskStateId, and copies a CreateTaskState whole |
| Admin.LoadStart | tasks/chimaera_admin/include/chimaera_admin/chimaera_admin_tasks.h:53-55 | a decoded call payload has the shape of the task it is loaded into |
| Admin.SerializeEnd | tasks/chimaera_admin/include/chimaera_admin/chimaera_admin_tasks.h:141-143 | the return archive holds exactly the task's outputs (the created id, the looked-up id, the work done) |
| Admin.LoadEnd | tasks/chimaera_admin/include/chimaera_admin/chimaera_admin_tasks.h:187-189 | loading a return keeps the caller's shape and inputs |
| Admin.SerializeStart | tasks/chimaera_admin/include/chimaera_admin/chimaera_admin_tasks.h:133-137 | the call archive of every admin task that travels is read back by LoadStart into an empty message of its struct with every input restored |
| Admin.SerializeStartMatchesCopyStart | tasks/chimaera_admin/include/chimaera_admin/chimaera_admin_tasks.h:123-136 | shipping a call through SerializeStart gives the same payload as a local CopyStart |
| Admin.SerializeStartRoundTrip | tasks/chimaera_admin/include/chimaera_admin/chimaera_admin_tasks.h:133-137 | decoding an encoded call always succeeds and restores every input |
| Admin.RemoteCallDeliversOutputs | tasks/chimaera_admin/include/chimaera_admin/chimaera_admin_tasks.h:133-143 | a call shipped out and its result shipped back leaves the caller with the remote outputs and its own inputs |
| Admin.ConstructorsShaped | tasks/chimaera_admin/include/chimaera_admin/chimaera_admin_tasks.h:24-116 | each constructor builds the payload of its own method |
| Registry.Split | include/chimaera/task_registry/task_registry.h:117-123 | splitting on ':' always yields at least one piece |
| Registry.JoinSplit | include/chimaera/task_registry/task_registry.h:117-123 | joining the pieces with ':' gives back the string |
| Registry.SplitConcat | include/chimaera/task_registry/task_registry.h:117-123 | splitting `a:b` gives the pieces of a followed by the pieces of b |
| Registry.LibDirs | include/chimaera/task_registry/task_registry.h:103-123 | the search path is the task path's pieces followed by getline's pieces of LD_LIBRARY_PATH, so it always starts with the task path's first entry |
| Registry.LibDirsJoin | include/chimaera/task_registry/task_registry.h:117-123 | when LD_LIBRARY_PATH is non-empty and does not end in ':', joining the search path gives back `task_path:ld_path` |
| Registry.Candidates | include/chimaera/task_registry/task_registry.h:138-143 | each directory offers exactly two file names, `{dir}/{lib}.so` then `{dir}/lib{lib}.so` |
| Registry.FirstExisting | include/chimaera/task_registry/task_registry.h:136-151 | the found path exists, and nothing is found iff no candidate in any directory exists |
| Registry.RegisterTaskLib | include/chimaera/task_registry/task_registry.h:134-181 | succeeds iff a candidate exists and loads with both symbols; success records the library under its reported name (an existing entry is kept) and failure changes nothing |
| Registry.DestroyTaskLib | include/chimaera/task_registry/task_registry.h:184-191 | removes exactly that library and is a no-op when it is absent |
| Registry.GetTaskStateId | include/chimaera/task_registry/task_registry.h:308-315 | the id registered for a name, or the null id |
| Registry.GetOrCreateTaskStateId | include/chimaera/task_registry/task_registry.h:296-305 | a known name returns its id untouched; a new name gets the next id from the counter and is registered |
| Registry.GetOrCreateStable | include/chimaera/task_registry/task_registry.h:296-305 | asking again for the same name returns the same id and changes nothing |
| Registry.GetAnyTaskState | include/chimaera/task_registry/task_registry.h:318-325 | the shared state of a known id, or nothing |
| Registry.GetAnyTaskStateByName | include/chimaera/task_registry/task_registry.h:328-340 | a registered non-null name takes priority over the given id |
| Registry.GetTaskState | include/chimaera/task_registry/task_registry.h:343-351 | as written: a missing lane of a known state returns nothing but inserts an empty entry for that lane |
| Registry.GetTaskStateIntended | include/chimaera/task_registry/task_registry.h:343-351 | the same answer as GetTaskState without inserting anything |
| Registry.Failed | include/chimaera/task_registry/task_registry.h:217-231 | a failed creation marks the admin task module-complete |
| Registry.Constructed | include/chimaera/task_registry/task_registry.h:254-257 | a constructed state records its id in the task context and clears module-complete |
| Registry.CreateLanes | include/chimaera/task_registry/task_registry.h:260-289 | creates one state per missing lane, skipping existing ones and touching no other state; it stops with module-complete at the first failed allocation |
| Registry.CreateTaskState | include/chimaera/task_registry/task_registry.h:211-293 | a null id or unknown library fails with no change; on success the id has its shared state and a state for every requested lane; a successful creation of a new id under a new name records the name, so `GetTaskStateId` finds the id; no name other than the requested one is added, and other states, ids and libraries are kept |
| Registry.CreateTaskStateIdempotent | include/chimaera/task_registry/task_registry.h:235-289 | creating the same state again after a success changes nothing |
| Registry.CreateTaskStateWellFormed | include/chimaera/task_registry/task_registry.h:211-293 | creation keeps every stored state labelled with its own id and lane |
| Registry.DestroyTaskState | include/chimaera/task_registry/task_registry.h:354-366 | removes the state and the name recorded in lane 0's instance; an unknown id is a no-op |
| Registry.CreateThenDestroy | include/chimaera/task_registry/task_registry.h:211-366 | destroying a freshly created state restores the state and name tables |
| Registry.GetTaskStateBlocksLaterCreate | include/chimaera/task_registry/task_registry.h:343-351 | after a lookup of a missing lane, creating that lane reports success yet leaves the lane without a state; the intended lookup does not |
| Registry.GetTaskStateIntendedLabelled | include/chimaera/task_registry/task_registry.h:343-351 | a state found by the intended lookup is labelled with the requested id and lane |
| WorkOrchestrator.SpawnedWorker | src/work_orchestrator.cc:39-65 | worker w is low-latency and continuously polling iff it is dedicated; the per-core divisor is needed only for overlapped workers |
| WorkOrchestrator.SpawnWorkers | src/work_orchestrator.cc:32-65 | d dedicated workers on their own CPUs, then o overlapped workers with consecutive ids; the lists partition the ids and the reinforce CPU is d+1; the per-core divisor must be non-zero only when overlapped workers are spawned |
| WorkOrchestrator.WorkersPartitioned | src/work_orchestrator.cc:39-65 | every worker id is in exactly one of the dedicated and overlapped lists |
| WorkOrchestrator.OverlappedCpusDiffer | src/work_orchestrator.cc:53-65 | with one dedicated and two overlapped workers at two per core, as written they sit on CPUs 2 and 3; as intended they share CPU 2 |
| WorkOrchestrator.OverlappedCpuSharing | src/work_orchestrator.cc:53-65 | as written no two overlapped workers share a CPU; as intended two share one iff they fall in the same block of owork_per_core |
| WorkOrchestrator.GetWorkerPids | src/work_orchestrator.cc:156-163 | one pid per worker, in worker order |
| WorkOrchestrator.RemoveAll | src/work_orchestrator.cc:172-175 | removes every copy of a CPU and keeps the rest in order |
| WorkOrchestrator.GetWorkerCoresComplement | src/work_orchestrator.cc:166-176 | the CPUs below ncpu that no worker uses, in increasing order |
| WorkOrchestrator.AssignGroup | src/work_orchestrator.cc:110-130 | each unscheduled lane gets the next worker in round-robin order; the counter advances by the number of lanes assigned and num_scheduled reaches the lane count |
| WorkOrchestrator.AssignGroupF | src/work_orchestrator.cc:108-130 | low-latency groups draw from the dedicated workers and the rest from the overlapped ones, each with its own counter |
| WorkOrchestrator.AssignGroups | src/work_orchestrator.cc:108-130 | after a pass all groups of a queue are fully scheduled, and each counter has advanced by the lanes of its kind |
| WorkOrchestrator.AssignGroupsAt | src/work_orchestrator.cc:108-130 | each group is assigned from the counters as the groups before it left them, so its lanes continue each class's round-robin |
| WorkOrchestrator.SettledGroupsFixed | src/work_orchestrator.cc:110-130 | a fully scheduled group list is left alone |
| WorkOrchestrator.AssignQueues | src/work_orchestrator.cc:101-131 | queues with a null id or without `QUEUE_READY` are left unchanged; every other queue ends fully scheduled with its id, readiness and group count kept, its groups assigned from the counters as the eligible queues before it left them |
| WorkOrchestrator.LaneGetsNextWorker | src/work_orchestrator.cc:110-128 | an unscheduled lane that is the k-th of its class (counting eligible queues, groups and lanes in order) goes to the dedicated worker at index (cl + k) modulo their number if low-latency, else to the overlapped worker at index (ch + k) modulo theirs |
| WorkOrchestrator.AssignQueuesIdempotent | src/work_orchestrator.cc:101-131 | a second pass changes nothing and assigns no lanes |
| WorkOrchestrator.AssignedQueuesSettled | src/work_orchestrator.cc:101-131 | fully scheduled queues need no workers and are left alone |
| WorkOrchestrator.CalculateLoad | src/work_orchestrator.cc:189-209 | each worker's load is the sum over its lanes in every container, and the loads add up to the total lane load |
| RemoteQueue.Route | tasks/remote_queue/src/remote_queue.cc:84-86 | a node is routed to a lane in range that depends only on the u32 hash, and is the plain remainder when the lane count divides 2^32 |
| RemoteQueue.ReplicaOf | tasks/remote_queue/src/remote_queue.cc:116-125 | a replica keeps the pool, method and domain, reports back to the submit task, is not complete, keeps fire-and-forget, and owns data only on a deep copy of an owner |
| RemoteQueue.QueueShare | tasks/remote_queue/src/remote_queue.cc:116-131 | each entry a submit queue receives is one of this fan-out's replicas whose node hashes to that queue |
| RemoteQueue.Handles | tasks/remote_queue/src/remote_queue.cc:116-125 | the handles of the new replicas are the consecutive block from `next` |
| RemoteQueue.ReplicaHeap | tasks/remote_queue/src/remote_queue.cc:116-125 | the new replicas are added to the heap and no existing task changes |
| RemoteQueue.SubmitQueues | tasks/remote_queue/src/remote_queue.cc:126-131 | each submit queue gains exactly its share of the replicas, appended after what it held |
| RemoteQueue.ReplicateStart | tasks/remote_queue/src/remote_queue.cc:96-133 | one replica per resolved domain, deep iff more than one domain, a replica start counted per local domain, and each replica queued on its node's submit queue |
| RemoteQueue.ReplicaInOwnQueue | tasks/remote_queue/src/remote_queue.cc:126-131 | each replica is appended to the submit queue its node's hash selects |
| RemoteQueue.ReplicaQueuedOnce | tasks/remote_queue/src/remote_queue.cc:126-131 | every replica is in exactly one submit queue, the one its node hashes to |
| RemoteQueue.QueueShareTasks | tasks/remote_queue/src/remote_queue.cc:126-131 | each queued entry carries the domain its replica was made for |
| RemoteQueue.ReplicateFinish | tasks/remote_queue/src/remote_queue.cc:133-143 | once every replica is module-complete, aggregation runs once and exactly the replicas are deleted |
| RemoteQueue.ReplicasDistinct | tasks/remote_queue/src/remote_queue.cc:116-125 | the replica handles are pairwise distinct and new to the heap |
| RemoteQueue.RpcTaskComplete | tasks/remote_queue/src/remote_queue.cc:361-400 | aborts iff some returned task's pool is unknown; otherwise every returned task is module-complete and its waiter is signalled, in order |
| RemoteQueue.CompletionReleasesWait | tasks/remote_queue/src/remote_queue.cc:361-400 | completing all replicas of a fan-out marks each module-complete and signals only the submitting task |
| RemoteQueue.ClientPushSubmitStart | tasks/remote_queue/src/remote_queue.cc:147-170 | with no domains the push completes and signals the original; otherwise the original's fire-and-forget bit is saved and cleared, and replicas without it are fanned out |
| RemoteQueue.ClientPushSubmitFinish | tasks/remote_queue/src/remote_queue.cc:170-179 | the fire-and-forget bit is restored, the original is module-complete unless long-running, the replicas are deleted, and the push completes |
| RemoteQueue.PushRestoresFireAndForget | tasks/remote_queue/src/remote_queue.cc:147-179 | a full push leaves the original's fire-and-forget bit as it was and completes it unless long-running |
| RemoteQueue.AddToBatch | tasks/remote_queue/src/remote_queue.cc:209-212 | a task joins its node's batch, or opens a new batch at the end when that node has none |
| RemoteQueue.Group | tasks/remote_queue/src/remote_queue.cc:194-214 | batches have distinct nodes |
| RemoteQueue.GroupNodes | tasks/remote_queue/src/remote_queue.cc:194-214 | there is a batch for exactly the destination nodes of the queue |
| RemoteQueue.GroupIsPerNode | tasks/remote_queue/src/remote_queue.cc:194-214 | each batch holds exactly that node's tasks, in queue order |
| RemoteQueue.Rewrite | tasks/remote_queue/src/remote_queue.cc:200-203 | only the domain query of drained tasks changes, to the domain they were resolved to |
| RemoteQueue.FirstUnknownSpec | tasks/remote_queue/src/remote_queue.cc:204-208 | the scan stops at the first queued task whose pool is unknown: every task before it has a known pool |
| RemoteQueue.ClientSubmit | tasks/remote_queue/src/remote_queue.cc:186-231 | flushing counts both queues; it aborts iff some queued task's pool is unknown, after rewriting the tasks before it and leaving those after it queued; otherwise it sends one batch per node |
| RemoteQueue.ServerPushComplete | tasks/remote_queue/src/remote_queue.cc:238-246 | a finished task is queued once, on the completion queue its return node hashes to |
| RemoteQueue.Tasks | tasks/remote_queue/src/remote_queue.cc:260-270 | the task handles of a queue, in order |
| RemoteQueue.ServerComplete | tasks/remote_queue/src/remote_queue.cc:253-287 | the completed tasks are batched per return node, and exactly those tasks are deleted |
| RemoteQueue.DeserializeTask | tasks/remote_queue/src/remote_queue.cc:317-358 | an unknown pool aborts; otherwise the received task takes the sender's domain and address, owns its data, is neither fire-and-forget nor long-running, and signals remote completion |
| RemoteQueue.ReceivedTaskRunsOnce | tasks/remote_queue/src/remote_queue.cc:317-358 | a received task is always due to run and never fire-and-forget |

## Left out

- Coroutines, `Yield` and `Wait`: a wait is modelled as a precondition on the following step. `RemoteQueue.ReplicateFinish` and `RemoteQueue.ClientPushSubmitFinish` require every replica to be module-complete, which is what `Wait` blocks for.
- CoMutexModel.ScopedCoMutex: a suspended scope is not resumed. Once the parked task is woken and leaves its scope, the destructor is `Unlock` on the mutex as it stands at that time.
- Shared-memory allocators, `LPointer`/`shm_` handles and task frees: tasks are values in a handle-indexed map.
- The cereal/thallium archive format: archives are sequences of typed fields, and RPC sending (`AsyncIo`, bulk transfers) is not modelled.
- `getenv`, `stdfs::exists`, `dlopen`/`dlsym`, `alloc_state`, and a task state's `Run` are parameters or abstract values. `Registry.RegisterTaskLib` receives them as functions.
- Threads, CPU affinity, pid polling, `DedicateCores`, `Join` and the Python hooks: a worker's CPU is a number, and worker.h is not part of this model.
- Worker polling loops (`PollQueues`) and the `MultiQueue` internals: a lane's assignment is recorded only in its worker id.
- The domain-query resolver is an input: resolved domain lists are given.
- Atomicity and locks (`std::atomic`, reader/writer locks): every operation is one atomic step.
- Floating-point periods: a period is an integer number of time units.
- `Client.MakeId`: the 64-bit `unique_` counter is unbounded, since wrap-around after 2^64 ids is not a concern of the source.
- `CoMutexModel.UnlockIntended` requires a positive count, because it models only the corrected release path.
- `Client.AllocateBufferSafe` requires that some attempt eventually succeeds, since the source loops forever otherwise.
- `Admin.MethodNumber` assumes the admin methods are numbered from the common `kLast` in declaration order, because the generated methods header is not part of this model.
- WorkOrchestrator.CalculateLoad: a lane's load is one natural number and loads combine by addition. The `Load` struct and its `operator+=` (src/work_orchestrator.cc:202-203) are not part of this model.
- RemoteQueue.Group: batches are in the order in which their node first appears. The source keeps them in an `std::unordered_map` (tasks/remote_queue/src/remote_queue.cc:195 and 258), whose iteration order is unspecified, so the send order of `RemoteQueue.ClientSubmit` and `RemoteQueue.ServerComplete` is one admissible order and not the only one.
- `Admin.LoadStart` and `Admin.LoadEnd` treat the payload fields as opaque values; the string and vector contents are not modelled.
- The effect of a `kReplicaAgg` run on the original task is abstract: `RemoteQueue.ReplicateFinish` records only that it ran once.
- `RemoteQueue.ServerComplete` requires every completed task's pool to exist, because the source dereferences the looked-up module without a null check.
- `Client.ScheduleTaskRuntime` requires at least one resolved domain, because the source reads `resolved[0]` before checking the size.
- `Registry.DestroyTaskState` requires lane 0 to hold a state, because the source dereferences `states_[0]`.
- The bootstrap (`ServerInit` reading the configuration, creating the queues and registering the admin pool) is left out; the tables are inputs.

## Findings

| source | as written | input that shows it | evidently intended | confidence | as-written member | corrected member |
|---|---|---|---|---|---|---|
| include/chimaera/task_registry/task.h:242-243 | `SRL_SYM_START` and `SRL_SYM_END` OR in `TF_REPLICA`, so they are true for every task | a `TaskFlags<TF_LOCAL>` type: both traits read true | each trait tests only its own bit | not executed | TaskTraits.SrlSymStartAlwaysTrue | TaskTraits.TaskFlagsIntended |
| include/chimaera/module_registry/module.h:160-166 | `PlugAllLanes` calls `UnsetPlugged` on every lane | a lane with plug count 1 is unplugged by PlugAllLanes | `SetPlugged`, so that UnplugAllLanes undoes it | not executed | Lanes.PlugAllLanesUnplugs | Lanes.PlugAllThenUnplugAllRestores |
| include/chimaera/work_orchestrator/comutex.h:57-62 | the hand-off to waiting tasks raises `rep_` but leaves `root_` unchanged (null when the count was 1) | A locks, B parks, A unlocks, then C locks: C is admitted while B holds the mutex | the woken root becomes the owner | not executed | CoMutexModel.UnlockAsWrittenBreaksExclusion | CoMutexModel.UnlockIntendedKeepsOutThirdRoot |
| include/chimaera/task_registry/task_registry.h:343-351 | `states_[lane_id]` inserts an empty entry for a missing lane | look up lane 3 of a known state, then create lane 3: creation skips the lane and reports success | a lookup that does not insert | not executed | Registry.GetTaskStateBlocksLaterCreate | Registry.GetTaskStateIntendedLabelled |
| src/work_orchestrator.cc:53-65 | the overlapped loop never increments `i`, so every overlapped worker starts a new stream on its own CPU | 1 dedicated and 2 overlapped workers at 2 per core: CPUs 0, 2, 3 | `owork_per_core` workers share a CPU: CPUs 0, 2, 2 | not executed | WorkOrchestrator.OverlappedCpusDiffer | WorkOrchestrator.OverlappedCpuSharing |
