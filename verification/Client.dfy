/** The client-side helpers of `chimaera_client.h`: identifier generation
    from the shared counter, the debug double-free monitor, the allocation
    retry loop, queue-id mapping, the local fast path of
    `ScheduleTaskRuntime`, the duplication macros and `HASH_TO_NODE_ID`. */
module Client {
  import opened Wrappers
  import opened Bits
  import opened Ids
  import opened TaskModel
  import Lanes

  // ---------------------------------------------------------------------
  // Identifier generation

  /** The part of the shared-memory header the id generators use: this node's
      id and the `unique_` counter (advanced by fetch-add). */
  datatype IdCounter = IdCounter(nodeId: NodeId, unique: nat)

  /** Fetch-and-add one on the counter: the id made from the old value and
      the advanced counter. */
  function NextId(c: IdCounter): (res: (IdCounter, UniqueId))
    ensures res.1 == UniqueId(c.nodeId, c.unique)
    ensures res.0.nodeId == c.nodeId && res.0.unique > c.unique
  {
    (c.(unique := c.unique + 1), UniqueId(c.nodeId, c.unique))
  }

  /** `MakeTaskNodeId`: a root task-graph node on this node. */
  function MakeTaskNodeId(c: IdCounter): (res: (IdCounter, TaskNode))
    ensures res.1.IsRoot() && res.1.root.node == c.nodeId
    ensures res.1.root.unique == c.unique && res.0.unique == c.unique + 1
  {
    var (c2, id) := NextId(c);
    (c2, RootNode(id))
  }

  /** `MakePoolId`: a pool id on this node, from the same counter. */
  function MakePoolId(c: IdCounter): (res: (IdCounter, PoolId))
    ensures res.1.node == c.nodeId && res.1.unique == c.unique
    ensures res.0.unique == c.unique + 1
  {
    NextId(c)
  }

  /** Which generator a caller uses; `TaskStateIdKind` is the registry's
      `CreateTaskStateId`, which draws on the same counter. */
  datatype IdKind = TaskNodeKind | PoolKind | TaskStateIdKind

  /** The id (the node's root id for a task node) one call yields. */
  function MakeId(c: IdCounter, k: IdKind): (res: (IdCounter, UniqueId))
    ensures res.1 == UniqueId(c.nodeId, c.unique) && res.0 == c.(unique := c.unique + 1)
  {
    match k
    case TaskNodeKind => var (c2, n) := MakeTaskNodeId(c); (c2, n.root)
    case PoolKind => MakePoolId(c)
    case TaskStateIdKind => NextId(c)
  }

  /** The ids a sequence of calls, of any mix of kinds, yields in order. */
  function MakeIds(c: IdCounter, ks: seq<IdKind>): (res: (IdCounter, seq<UniqueId>))
    ensures |res.1| == |ks|
    decreases |ks|
  {
    if |ks| == 0 then (c, [])
    else
      var (c2, id) := MakeId(c, ks[0]);
      var (c3, rest) := MakeIds(c2, ks[1..]);
      (c3, [id] + rest)
  }

  /** Successive ids from the shared counter are consecutive counter values
      on this node, so no two calls, of whatever kind, ever return the same id. */
  lemma {:induction false} MadeIdsDistinct(c: IdCounter, ks: seq<IdKind>)
    ensures var (c2, ids) := MakeIds(c, ks);
            && c2 == c.(unique := c.unique + |ks|)
            && (forall i | 0 <= i < |ids| :: ids[i] == UniqueId(c.nodeId, c.unique + i))
            && (forall i, j | 0 <= i < j < |ids| :: ids[i] != ids[j])
    decreases |ks|
  {
    if |ks| > 0 {
      var (c2, id) := MakeId(c, ks[0]);
      MadeIdsDistinct(c2, ks[1..]);
      var ids := MakeIds(c, ks).1;
      assert ids == [id] + MakeIds(c2, ks[1..]).1;
      forall i | 0 <= i < |ids|
        ensures ids[i] == UniqueId(c.nodeId, c.unique + i)
      {
        if i > 0 {
          assert ids[i] == MakeIds(c2, ks[1..]).1[i - 1];
        }
      }
    }
  }

  // ---------------------------------------------------------------------
  // Debug double-free monitor

  /** `MonitorTaskFrees`: counts a delete and reports a fatal error unless
      this is the task's first delete. Returns the task and the verdict. */
  function MonitorTaskFrees(t: Task): (res: (Task, bool))
    ensures res.0.delcnt == t.delcnt + 1 && res.0.(delcnt := t.delcnt) == t
    ensures res.1 <==> t.delcnt != 0
  {
    var t2 := t.(delcnt := t.delcnt + 1);
    (t2, t2.delcnt != 1)
  }

  /** Of two deletes of the same task at least one is reported, and from a
      fresh counter the first is clean and the second is fatal. */
  lemma SecondFreeDetected(t: Task)
    ensures MonitorTaskFrees(t).1 || MonitorTaskFrees(MonitorTaskFrees(t).0).1
    ensures t.delcnt == 0 ==> !MonitorTaskFrees(t).1 && MonitorTaskFrees(MonitorTaskFrees(t).0).1
  {
  }

  // ---------------------------------------------------------------------
  // Allocation retry

  /** The first successful attempt in a sequence of allocation attempts
      (`None` stands for a null pointer or a thrown error). */
  function FirstSuccess(attempts: seq<Option<nat>>): (i: nat)
    requires exists k | 0 <= k < |attempts| :: attempts[k].Some?
    ensures i < |attempts| && attempts[i].Some?
    ensures forall k | 0 <= k < i :: attempts[k].None?
  {
    if attempts[0].Some? then 0
    else
      var k :| 0 <= k < |attempts| && attempts[k].Some?;
      assert attempts[1..][k - 1].Some?;
      1 + FirstSuccess(attempts[1..])
  }

  /** `AllocateBufferSafe`: tries to allocate, yields after every null result
      (including a thrown error) and tries again; it only ever returns a
      non-null pointer. `attempts` are the allocator's successive answers;
      `retries` counts the yields made. The loop does not end when no attempt succeeds. */
  method AllocateBufferSafe(attempts: seq<Option<nat>>) returns (p: nat, retries: nat)
    requires exists k | 0 <= k < |attempts| :: attempts[k].Some?
    ensures retries == FirstSuccess(attempts)
    ensures attempts[retries] == Some(p)
  {
    var target := FirstSuccess(attempts);
    retries := 0;
    while attempts[retries].None?
      invariant retries <= target
      invariant forall k | 0 <= k < retries :: attempts[k].None?
      decreases target - retries
    {
      retries := retries + 1;
    }
    p := attempts[retries].value;
  }

  // ---------------------------------------------------------------------
  // Queue ids and scheduling

  /** `GetQueueId`: the process queue maps to itself; every other id goes to
      the admin queue. */
  function GetQueueId(id: PoolId, processQueue: QueueId, adminQueue: QueueId): (q: QueueId)
    ensures id == processQueue ==> q == processQueue
    ensures id != processQueue ==> q == adminQueue
    ensures q in {processQueue, adminQueue}
  {
    if id == processQueue then processQueue else adminQueue
  }

  /** When the process and admin queues differ, two pools share a queue
      exactly when both or neither is the process queue: the mapping keeps
      the process queue apart from everything routed through the admin queue. */
  lemma GetQueueIdSeparates(a: PoolId, b: PoolId, processQueue: QueueId, adminQueue: QueueId)
    requires processQueue != adminQueue
    ensures GetQueueId(a, processQueue, adminQueue) == GetQueueId(b, processQueue, adminQueue)
            <==> (a == processQueue <==> b == processQueue)
  {
  }

  /** Where `ScheduleTaskRuntime` puts a task: straight into one lane of its
      priority group, or into the queue's `Emplace` with a hash. */
  datatype Placement = DirectLane(prio: nat, lane: nat) | Emplaced(prio: nat, hash: nat)

  /** The local fast path: exactly one resolution, on this node, whose query
      carries both `kLocal` and `kId`. */
  predicate IsFastPath(resolved: seq<ResolvedDomainQuery>, localNode: NodeId) {
    && |resolved| == 1
    && resolved[0].node == localNode
    && {Local, Id} <= resolved[0].dom.flags
  }

  /** `ScheduleTaskRuntime`. `resolved` is the domain resolver's answer,
      `numLanes` the lane count of the task's priority group and `hashDom`
      the hash of a domain query. The code reads `resolved[0]` before checking
      the size, so at least one resolution is required. */
  function ScheduleTaskRuntime(t: Task, resolved: seq<ResolvedDomainQuery>, localNode: NodeId,
                               numLanes: nat, hashDom: DomainQuery -> nat): (p: Placement)
    requires |resolved| >= 1
    requires IsFastPath(resolved, localNode) ==> numLanes > 0
    ensures p.prio == t.prio
    ensures p.DirectLane? <==> IsFastPath(resolved, localNode)
    ensures p.DirectLane? ==> p.lane < numLanes && p.lane == resolved[0].dom.selId % numLanes
    ensures p.Emplaced? ==> p.hash == hashDom(t.domQuery)
  {
    var dom := resolved[0].dom;
    if |resolved| == 1 && resolved[0].node == localNode && {Local, Id} <= dom.flags then
      DirectLane(t.prio, dom.selId % numLanes)
    else
      Emplaced(t.prio, hashDom(t.domQuery))
  }

  /** A resolution naming another node, or more than one resolution, never
      takes the fast path, whatever the query's flags; the slow path hashes
      the task's own query, not the resolved one. */
  lemma RemoteOrFanOutGoesThroughEmplace(t: Task, resolved: seq<ResolvedDomainQuery>, localNode: NodeId,
                                         numLanes: nat, hashDom: DomainQuery -> nat)
    requires |resolved| > 1 || (|resolved| == 1 && resolved[0].node != localNode)
    ensures ScheduleTaskRuntime(t, resolved, localNode, numLanes, hashDom) == Emplaced(t.prio, hashDom(t.domQuery))
  {
  }

  // ---------------------------------------------------------------------
  // Duplication macros. `P` is a task type's own payload; `copyStart` is its
  // `CopyStart`.

  /** `CALL_COPY_START(orig, dup, deep)`: for a `REPLICA` type, `task_dup`,
      then data ownership dropped unless deep, then `CopyStart`; otherwise
      nothing. */
  function CallCopyStart<P>(orig: Task, origP: P, dup: Task, dupP: P, deep: bool, replica: bool,
                            copyStart: (P, P, bool) -> P): (res: (Task, P))
    ensures !replica ==> res == (dup, dupP)
    ensures replica ==> res.1 == copyStart(origP, dupP, deep)
    ensures replica ==> (IsDataOwner(res.0) <==> deep && IsDataOwner(orig))
    ensures replica ==> res.0.flags == TaskDup(dup, orig).flags - (if deep then {} else {TASK_DATA_OWNER})
    ensures replica ==> res.0.(flags := orig.flags, period := orig.period, start := orig.start)
                        == dup.(pool := orig.pool, node := orig.node, domQuery := orig.domQuery, prio := orig.prio,
                                methodId := orig.methodId, flags := orig.flags, period := orig.period, start := orig.start)
  {
    if replica then
      var d := TaskDup(dup, orig);
      var d2 := if !deep then Unset(d, DataOwner) else d;
      (d2, copyStart(origP, dupP, deep))
    else (dup, dupP)
  }

  /** `CALL_NEW_COPY_START(orig, udup, deep)`: for a `REPLICA` type, fills the
      output slot with a fresh empty task of the type run through
      `CALL_COPY_START`; otherwise the slot is left as it was. */
  function CallNewCopyStart<P>(orig: Task, origP: P, udup: Option<(Task, P)>, empty: Task, emptyP: P,
                               deep: bool, replica: bool, copyStart: (P, P, bool) -> P): (res: Option<(Task, P)>)
    ensures !replica ==> res == udup
    ensures replica ==> res == Some(CallCopyStart(orig, origP, empty, emptyP, deep, true, copyStart))
  {
    if replica then Some(CallCopyStart(orig, origP, empty, emptyP, deep, true, copyStart)) else udup
  }

  /** A shallow replica never owns its data, and a deep one owns it exactly
      when the original does; both carry the original's routing and no
      completion bit. */
  lemma ReplicaOwnership<P>(orig: Task, origP: P, empty: Task, emptyP: P, deep: bool, copyStart: (P, P, bool) -> P)
    ensures var r := CallCopyStart(orig, origP, empty, emptyP, deep, true, copyStart).0;
            && (!deep ==> !IsDataOwner(r))
            && (deep ==> (IsDataOwner(r) <==> IsDataOwner(orig)))
            && r.pool == orig.pool && r.node == orig.node && r.domQuery == orig.domQuery
            && !IsComplete(r) && !IsModuleComplete(r)
  {
  }

  // ---------------------------------------------------------------------
  // Hash to node

  /** `HASH_TO_NODE_ID(hash)`: node ids are 1-based. */
  function HashToNodeId(hash: nat, numNodes: nat): (n: NodeId)
    requires numNodes > 0
    ensures 1 <= n <= numNodes
  {
    1 + hash % numNodes
  }

  /** Over `hash = 0 .. n-1`, how many hashes `HASH_TO_NODE_ID` sends to `node`. */
  function NodeHits(numNodes: nat, n: nat, node: NodeId): nat
    requires numNodes > 0
  {
    if n == 0 then 0 else NodeHits(numNodes, n - 1, node) + (if HashToNodeId(n - 1, numNodes) == node then 1 else 0)
  }

  /** Node `node` is hit by exactly the hashes with remainder `node - 1`. */
  lemma {:induction false} NodeHitsAreRemainders(numNodes: nat, n: nat, node: NodeId)
    requires numNodes > 0 && 1 <= node
    ensures NodeHits(numNodes, n, node) == Lanes.HashesOnLane(n, numNodes, node - 1)
  {
    if n > 0 {
      NodeHitsAreRemainders(numNodes, n - 1, node);
    }
  }

  /** Hashing to nodes spreads consecutive hashes evenly: over `0 .. n-1`
      every node receives `n / numNodes` hashes, plus one for the first
      `n % numNodes` nodes; in particular no node is starved once
      `n >= numNodes`. */
  lemma HashToNodeBalanced(numNodes: nat, n: nat, node: NodeId)
    requires 1 <= node <= numNodes
    ensures NodeHits(numNodes, n, node) == n / numNodes + (if node - 1 < n % numNodes then 1 else 0)
    ensures n >= numNodes ==> NodeHits(numNodes, n, node) > 0
  {
    NodeHitsAreRemainders(numNodes, n, node);
    Lanes.RemaindersBalanced(n, numNodes, node - 1);
    if n >= numNodes {
      QuotientPositive(n, numNodes);
    }
  }

  /** Dividing by a divisor no larger than the dividend gives at least one. */
  lemma QuotientPositive(n: nat, d: nat)
    requires 0 < d <= n
    ensures n / d > 0
  {
    var q, r := n / d, n % d;
    assert n == q * d + r && r < d;
  }
}
