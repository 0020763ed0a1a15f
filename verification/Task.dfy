/** The task record of `task.h`: flag constants, the task-graph node,
    the run context, the flag accessors, the periodic `ShouldRun` rule,
    `task_dup` and the base-field serialisation. */
module TaskModel {
  import opened Wrappers
  import opened Bits
  import opened Ids

  // Bit positions of the task flags.
  const TASK_READ: nat := 0
  const TASK_WRITE: nat := 1
  const TASK_UPDATE: nat := 2
  const TASK_BLOCKED: nat := 3
  const TASK_SIGNAL_REMOTE_COMPLETE: nat := 4
  const TASK_SYSCALL: nat := 5
  const TASK_MERGE: nat := 6
  const TASK_REMOTE_COMPLETE: nat := 7
  const TASK_HAS_STARTED: nat := 8
  const TASK_COMPLETE: nat := 9
  const TASK_MODULE_COMPLETE: nat := 10
  const TASK_LONG_RUNNING: nat := 11
  const TASK_FIRE_AND_FORGET: nat := 12
  const TASK_DISABLE_RUN: nat := 13
  const TASK_DATA_OWNER: nat := 14
  const TASK_COROUTINE: nat := 15
  const TASK_LANE_ANY: nat := 18
  const TASK_LANE_ALL: nat := 19
  const TASK_FLUSH: nat := 20
  const TASK_SIGNAL_COMPLETE: nat := 21
  const TASK_REMOTE: nat := 22
  const TASK_REMOTE_RECV_MARK: nat := 30
  const TASK_REMOTE_DEBUG_MARK: nat := 31

  /** Latency classes of `TaskPrio`. */
  const kLowLatency: nat := 0
  const kHighLatency: nat := 1

  /** The baseline method ids of `TaskMethod`. */
  const kCreate: nat := 0
  const kDestruct: nat := 1
  const kNodeFailure: nat := 2
  const kRecover: nat := 3
  const kMigrate: nat := 4
  const kUpdate: nat := 5
  const kMethodLast: nat := 6

  const U32_MODULUS: nat := 0x1_0000_0000

  /** The position of a task in a task graph: its root task and its depth (a u32). */
  datatype TaskNode = TaskNode(root: TaskId, depth: nat) {
    predicate IsNull() { root.IsNull() }
    predicate IsRoot() { depth == 0 }
  }

  /** The node of a root task. */
  function RootNode(root: TaskId): (n: TaskNode)
    ensures n.root == root && n.IsRoot()
  {
    TaskNode(root, 0)
  }

  /** `TaskNode::GetNull`. */
  function NullNode(): (n: TaskNode)
    ensures n.IsNull() && n.IsRoot()
  {
    TaskNode(NullId, 0)
  }

  /** `n + i`: same root, depth advanced by `i` in u32 arithmetic. */
  function AddDepth(n: TaskNode, i: int): (r: TaskNode)
    requires n.depth < U32_MODULUS
    ensures r.root == n.root
    ensures r.depth < U32_MODULUS
    ensures 0 <= n.depth + i < U32_MODULUS ==> r.depth == n.depth + i
    ensures r.IsNull() <==> n.IsNull()
  {
    TaskNode(n.root, (n.depth + i) % U32_MODULUS)
  }

  /** A handle standing for a task's address. */
  type TaskRef = nat

  /** The per-execution scratch area `RunContext` (coroutine stack and
      container pointers left out). */
  datatype RunContext = RunContext(
    runFlags: Bitfield,
    workerId: nat,
    pendingTo: Option<TaskRef>,
    retTaskAddr: nat,
    retNode: NodeId,
    blockCount: nat)

  /** The generic task base `Task`. Time and period are in nanoseconds. */
  datatype Task = Task(
    pool: PoolId,
    node: TaskNode,
    domQuery: DomainQuery,
    prio: nat,
    methodId: nat,
    flags: Bitfield,
    period: nat,
    start: int,
    rctx: RunContext,
    delcnt: int)

  /** Which of the two flag words an accessor works on. */
  datatype Word = TaskFlags | RunFlags

  /** The single-bit accessors of `Task` (set/unset/query of one flag). */
  datatype Accessor =
    | ModuleCompleteBit | FireAndForget | LongRunning | DataOwner | RemoteDebug
    | Started | Blocked | Coroutine | SignalUnblock | SignalRemoteComplete
    | Read | Write | Remote

  /** The word each accessor touches, as in `task.h`. */
  function WordOf(a: Accessor): Word {
    match a
    case Started | Blocked | SignalUnblock | SignalRemoteComplete | Remote => RunFlags
    case _ => TaskFlags
  }

  /** The bit each accessor touches, as in `task.h`. */
  function BitOf(a: Accessor): nat {
    match a
    case ModuleCompleteBit => TASK_MODULE_COMPLETE
    case FireAndForget => TASK_FIRE_AND_FORGET
    case LongRunning => TASK_LONG_RUNNING
    case DataOwner => TASK_DATA_OWNER
    case RemoteDebug => TASK_REMOTE_DEBUG_MARK
    case Started => TASK_HAS_STARTED
    case Blocked => TASK_BLOCKED
    case Coroutine => TASK_COROUTINE
    case SignalUnblock => TASK_SIGNAL_COMPLETE
    case SignalRemoteComplete => TASK_SIGNAL_REMOTE_COMPLETE
    case Read => TASK_READ
    case Write => TASK_WRITE
    case Remote => TASK_REMOTE
  }

  function WithTaskFlags(t: Task, f: Bitfield): Task { t.(flags := f) }

  function WithRunFlags(t: Task, f: Bitfield): Task { t.(rctx := t.rctx.(runFlags := f)) }

  /** The flag word an accessor reads. */
  function WordBits(t: Task, w: Word): Bitfield {
    if w == TaskFlags then t.flags else t.rctx.runFlags
  }

  /** `Set*` of one accessor. */
  function Set(t: Task, a: Accessor): Task {
    if WordOf(a) == TaskFlags then WithTaskFlags(t, SetBits(t.flags, {BitOf(a)}))
    else WithRunFlags(t, SetBits(t.rctx.runFlags, {BitOf(a)}))
  }

  /** `Unset*` of one accessor. */
  function Unset(t: Task, a: Accessor): Task {
    if WordOf(a) == TaskFlags then WithTaskFlags(t, UnsetBits(t.flags, {BitOf(a)}))
    else WithRunFlags(t, UnsetBits(t.rctx.runFlags, {BitOf(a)}))
  }

  /** `Is*` of one accessor: `Any` (or, for `IsLongRunning`, `All`) of a
      one-bit mask, which is membership of that bit (see `Bits.OneBitMask`). */
  predicate Is(t: Task, a: Accessor) {
    BitOf(a) in WordBits(t, WordOf(a))
  }

  /** Setting an accessor's bit makes it read back true, leaves every other bit
      of its word and the whole other word as they were, and touches nothing else. */
  lemma SetReadsBack(t: Task, a: Accessor)
    ensures Is(Set(t, a), a)
    ensures WordBits(Set(t, a), WordOf(a)) == WordBits(t, WordOf(a)) + {BitOf(a)}
    ensures forall w :: w != WordOf(a) ==> WordBits(Set(t, a), w) == WordBits(t, w)
    ensures forall b :: BitOf(b) != BitOf(a) || WordOf(b) != WordOf(a) ==> (Is(Set(t, a), b) <==> Is(t, b))
    ensures Set(t, a).(flags := t.flags, rctx := t.rctx) == t
    ensures Set(t, a).rctx.(runFlags := t.rctx.runFlags) == t.rctx
  {
  }

  /** Clearing an accessor's bit makes it read back false and changes no other bit. */
  lemma UnsetReadsBack(t: Task, a: Accessor)
    ensures !Is(Unset(t, a), a)
    ensures WordBits(Unset(t, a), WordOf(a)) == WordBits(t, WordOf(a)) - {BitOf(a)}
    ensures forall w :: w != WordOf(a) ==> WordBits(Unset(t, a), w) == WordBits(t, w)
    ensures forall b :: BitOf(b) != BitOf(a) || WordOf(b) != WordOf(a) ==> (Is(Unset(t, a), b) <==> Is(t, b))
    ensures Unset(t, a).(flags := t.flags, rctx := t.rctx) == t
    ensures Unset(t, a).rctx.(runFlags := t.rctx.runFlags) == t.rctx
  {
  }

  /** `SetModuleComplete`. */
  function SetModuleComplete(t: Task): (r: Task)
    ensures r.flags == t.flags + {TASK_MODULE_COMPLETE}
    ensures IsModuleComplete(r) && (IsComplete(r) <==> IsComplete(t))
    ensures r.(flags := t.flags) == t
  {
    Set(t, ModuleCompleteBit)
  }

  predicate IsModuleComplete(t: Task) { TASK_MODULE_COMPLETE in t.flags }

  /** `UnsetModuleComplete`. */
  function UnsetModuleComplete(t: Task): (r: Task)
    ensures r.flags == t.flags - {TASK_MODULE_COMPLETE}
    ensures !IsModuleComplete(r)
    ensures r.(flags := t.flags) == t
  {
    Unset(t, ModuleCompleteBit)
  }

  /** `SetComplete`: marks both the complete and the module-complete bits. */
  function SetComplete(t: Task): (r: Task)
    ensures IsComplete(r) && IsModuleComplete(r)
    ensures forall k :: k != TASK_COMPLETE && k != TASK_MODULE_COMPLETE ==> (k in r.flags <==> k in t.flags)
    ensures r.(flags := t.flags) == t
  {
    t.(flags := SetBits(t.flags, {TASK_MODULE_COMPLETE, TASK_COMPLETE}))
  }

  predicate IsComplete(t: Task) { TASK_COMPLETE in t.flags }

  /** `UnsetComplete`: clears both completion bits. */
  function UnsetComplete(t: Task): (r: Task)
    ensures !IsComplete(r) && !IsModuleComplete(r)
    ensures forall k :: k != TASK_COMPLETE && k != TASK_MODULE_COMPLETE ==> (k in r.flags <==> k in t.flags)
    ensures r.(flags := t.flags) == t
  {
    t.(flags := UnsetBits(t.flags, {TASK_MODULE_COMPLETE, TASK_COMPLETE}))
  }

  /** The completion setters are idempotent, and `SetModuleComplete` leaves the
      complete bit alone. */
  lemma CompletionIdempotent(t: Task)
    ensures SetComplete(SetComplete(t)) == SetComplete(t)
    ensures UnsetComplete(UnsetComplete(t)) == UnsetComplete(t)
    ensures SetModuleComplete(SetModuleComplete(t)) == SetModuleComplete(t)
    ensures IsComplete(SetModuleComplete(t)) == IsComplete(t)
    ensures UnsetComplete(SetComplete(t)) == UnsetComplete(t)
  {
  }

  predicate IsFireAndForget(t: Task) { Is(t, FireAndForget) }
  predicate IsLongRunning(t: Task) { Is(t, LongRunning) }
  predicate IsStarted(t: Task) { Is(t, Started) }
  predicate IsBlocked(t: Task) { Is(t, Blocked) }
  predicate IsDataOwner(t: Task) { Is(t, DataOwner) }
  predicate IsFlush(t: Task) { TASK_FLUSH in t.flags }

  /** `SetBlocked(count)`: sets the blocked run flag and records the count. */
  function SetBlocked(t: Task, count: nat): (r: Task)
    ensures IsBlocked(r) && r.rctx.blockCount == count
    ensures r.flags == t.flags
    ensures r.rctx.runFlags == t.rctx.runFlags + {TASK_BLOCKED}
    ensures r.rctx.(runFlags := t.rctx.runFlags, blockCount := t.rctx.blockCount) == t.rctx
    ensures r.(rctx := t.rctx) == t
  {
    var s := Set(t, Blocked);
    s.(rctx := s.rctx.(blockCount := count))
  }

  /** `UnsetBlocked`: clears the blocked run flag only; the count is kept. */
  function UnsetBlocked(t: Task): (r: Task)
    ensures !IsBlocked(r) && r.rctx.blockCount == t.rctx.blockCount
    ensures r.flags == t.flags
    ensures r.rctx.runFlags == t.rctx.runFlags - {TASK_BLOCKED}
    ensures r.(rctx := t.rctx) == t
  {
    Unset(t, Blocked)
  }

  /** `ShouldRun(cur_time, flushing)`: the periodic-execution rule.
      Returns whether to run and the task with its possibly reset `start_`. */
  function ShouldRun(t: Task, now: int, flushing: bool): (res: (bool, Task))
    ensures res.1 == t || res.1 == t.(start := now)
    ensures !IsLongRunning(t) ==> res.0 && res.1 == t
    ensures IsLongRunning(t) && (!IsStarted(t) || flushing) ==> res.0 && res.1.start == now
    ensures IsLongRunning(t) && IsStarted(t) && !flushing ==>
              (res.0 <==> now - t.start >= t.period)
              && (res.1.start == if now - t.start >= t.period then now else t.start)
  {
    if !IsLongRunning(t) then (true, t)
    else if !IsStarted(t) || flushing then (true, t.(start := now))
    else
      var due := now - t.start >= t.period;
      (due, if due then t.(start := now) else t)
  }

  /** `DidRun`: records the run time. */
  function DidRun(t: Task, now: int): (r: Task)
    ensures r.start == now && r.(start := t.start) == t
  {
    t.(start := now)
  }

  /** A long-running task that has started and just ran is not due again
      until a full period has passed (when not flushing). */
  lemma ShouldRunNotDueWithinPeriod(t: Task, now: int, later: int)
    requires IsLongRunning(t) && IsStarted(t)
    requires now <= later < now + t.period
    ensures !ShouldRun(DidRun(t, now), later, false).0
    ensures ShouldRun(DidRun(t, now), now + t.period, false).0
  {
  }

  /** `task_dup(other)`: copies the routing, method, flag and period fields of
      `src` into `dst`, then clears both completion bits on the copy. */
  function TaskDup(dst: Task, src: Task): (r: Task)
    ensures r.pool == src.pool && r.node == src.node && r.domQuery == src.domQuery
    ensures r.prio == src.prio && r.methodId == src.methodId
    ensures r.period == src.period && r.start == src.start
    ensures r.flags == src.flags - {TASK_COMPLETE, TASK_MODULE_COMPLETE}
    ensures !IsComplete(r) && !IsModuleComplete(r)
    ensures r.rctx == dst.rctx && r.delcnt == dst.delcnt
  {
    var copied := dst.(pool := src.pool, node := src.node, domQuery := src.domQuery,
                       prio := src.prio, methodId := src.methodId, flags := src.flags);
    UnsetComplete(copied).(period := src.period, start := src.start)
  }

  /** `task_serialize`: the base fields in archive order (`start_` is not sent). */
  function TaskSerialize(t: Task): (ar: seq<Field>)
    ensures forall dst :: TaskDeserialize(dst, ar) == Some(t.(start := dst.start, rctx := dst.rctx, delcnt := dst.delcnt))
  {
    [FId(t.pool), FId(t.node.root), FNat(t.node.depth), FDom(t.domQuery),
     FNat(t.prio), FNat(t.methodId), FFlags(t.flags), FNat(t.period)]
  }

  /** Reads the base fields written by `TaskSerialize` into `dst`; `None` when
      the archive does not hold them. */
  function TaskDeserialize(dst: Task, ar: seq<Field>): (r: Option<Task>)
    ensures r.Some? ==> r.value.rctx == dst.rctx && r.value.start == dst.start
  {
    if |ar| >= 8 && ar[0].FId? && ar[1].FId? && ar[2].FNat? && ar[3].FDom?
       && ar[4].FNat? && ar[5].FNat? && ar[6].FFlags? && ar[7].FNat?
    then Some(dst.(pool := ar[0].id, node := TaskNode(ar[1].id, ar[2].n), domQuery := ar[3].dom,
                   prio := ar[4].n, methodId := ar[5].n, flags := ar[6].bits, period := ar[7].n))
    else None
  }

  /** Serialising then deserialising restores every transmitted base field;
      the start time and the run context are those of the receiving task. */
  lemma TaskSerializeRoundTrip(t: Task, dst: Task)
    ensures TaskDeserialize(dst, TaskSerialize(t))
         == Some(t.(start := dst.start, rctx := dst.rctx, delcnt := dst.delcnt))
  {
  }
}
