/** The message handling of the remote queue (`remote_queue.cc`): routing,
    replica fan-out and aggregation, the client-side push with its
    fire-and-forget bookkeeping, per-node batching of queued replicas and
    completions, and the server-side deserialisation. Tasks live in a heap
    from handles to records; the domain resolver, the archive contents and
    the RPC transport are parameters or left out. */
module RemoteQueue {
  import opened Wrappers
  import opened Ids
  import opened TaskModel
  import Lanes
  import Client

  /** A queued replica or completion: where it goes and which task. */
  datatype Entry = Entry(res: ResolvedDomainQuery, task: TaskRef)

  /** The tasks alive on one node, by handle. */
  type Heap = map<TaskRef, Task>

  /** The domain query of a completion entry: only its node is meaningful. */
  const NoDomain: DomainQuery := DomainQuery({}, SubDomainId(0, 0), 0)

  // ---------------------------------------------------------------------
  // Routing

  /** `Route`: the lane of group `NODES` picked by the domain query's hash
      (narrowed to 32 bits by `GetLaneByHash`). */
  function Route(m: Lanes.Module, nodesGroup: nat, domHash: nat): (li: nat)
    requires Lanes.HasGroup(m, nodesGroup) && |Lanes.GroupLanes(m, nodesGroup)| > 0
    ensures li < |Lanes.GroupLanes(m, nodesGroup)|
    ensures forall k: nat :: Lanes.GetLaneByHash(m, nodesGroup, domHash + k * Lanes.HASH_MODULUS) == li
    ensures Lanes.HASH_MODULUS % |Lanes.GroupLanes(m, nodesGroup)| == 0 ==> li == domHash % |Lanes.GroupLanes(m, nodesGroup)|
  {
    forall k: nat ensures Lanes.GetLaneByHash(m, nodesGroup, domHash + k * Lanes.HASH_MODULUS)
                          == Lanes.GetLaneByHash(m, nodesGroup, domHash) {
      Lanes.GetLaneByHashNarrowing(m, nodesGroup, domHash, k);
    }
    Lanes.GetLaneByHashNarrowing(m, nodesGroup, domHash, 0);
    Lanes.GetLaneByHash(m, nodesGroup, domHash)
  }

  // ---------------------------------------------------------------------
  // Replication

  /** A replica of `orig` waiting on `submitTask`: a fresh `empty` task run
      through the copy macro (payload left out), then `pending_to_` set. */
  function ReplicaOf(orig: Task, empty: Task, deep: bool, submitTask: TaskRef): (r: Task)
    ensures r.pool == orig.pool && r.methodId == orig.methodId && r.domQuery == orig.domQuery
    ensures r.rctx.pendingTo == Some(submitTask)
    ensures !IsModuleComplete(r) && !IsComplete(r)
    ensures IsFireAndForget(r) <==> IsFireAndForget(orig)
    ensures IsDataOwner(r) <==> deep && IsDataOwner(orig)
  {
    var d := Client.CallCopyStart<()>(orig, (), empty, (), deep, true, (a: (), b: (), c: bool) => ()).0;
    Client.ReplicaOwnership<()>(orig, (), empty, (), deep, (a: (), b: (), c: bool) => ());
    d.(rctx := d.rctx.(pendingTo := Some(submitTask)))
  }

  /** The entries of `doms` (replica `next + i` for domain `i`) that land in
      submit queue `q` of `n`, in order. */
  function QueueShare(doms: seq<ResolvedDomainQuery>, next: nat, q: nat, n: nat, nodeHash: NodeId -> nat)
    : (es: seq<Entry>)
    requires n > 0
    ensures |es| <= |doms|
    ensures forall e | e in es :: nodeHash(e.res.node) % n == q && next <= e.task < next + |doms|
  {
    if |doms| == 0 then []
    else
      var k := |doms| - 1;
      QueueShare(doms[..k], next, q, n, nodeHash)
        + (if nodeHash(doms[k].node) % n == q then [Entry(doms[k], next + k)] else [])
  }

  /** How many resolved domains carry `kLocal` (each fires `kReplicaStart`). */
  function CountLocal(doms: seq<ResolvedDomainQuery>): nat {
    if |doms| == 0 then 0
    else CountLocal(doms[..|doms| - 1]) + (if Local in doms[|doms| - 1].dom.flags then 1 else 0)
  }

  /** What `Replicate` leaves behind when it starts waiting: the heap with
      the replicas, their handles, the submit queues, the copy depth and the
      number of `kReplicaStart` monitor calls. */
  datatype Fanout = Fanout(heap: Heap, replicas: seq<TaskRef>, submit: seq<seq<Entry>>, deep: bool, replicaStarts: nat)

  /** The handles `next .. next + n - 1`. */
  function Handles(next: nat, n: nat): (h: set<nat>)
    ensures forall r :: r in h <==> next <= r < next + n
  {
    if n == 0 then {} else Handles(next, n - 1) + {next + n - 1}
  }

  /** The heap after the replica loop made `n` replicas of `orig` under the
      handles `next`, `next + 1`, ... */
  function ReplicaHeap(heap: Heap, replica: Task, next: nat, n: nat): (h: Heap)
    requires forall r | r in heap :: r < next
    ensures h.Keys == heap.Keys + Handles(next, n)
    ensures forall r | r in heap :: h[r] == heap[r]
    ensures forall r | r in Handles(next, n) :: h[r] == replica
  {
    if n == 0 then heap else ReplicaHeap(heap, replica, next, n - 1)[next + n - 1 := replica]
  }

  /** The submit queues after the replica loop queued the replica of each
      domain on queue `hash(node) % |submit_|`. */
  function SubmitQueues(submit: seq<seq<Entry>>, doms: seq<ResolvedDomainQuery>, next: nat, nodeHash: NodeId -> nat)
    : (qs: seq<seq<Entry>>)
    requires |submit| > 0
    ensures |qs| == |submit|
    ensures forall q | 0 <= q < |submit| :: qs[q] == submit[q] + QueueShare(doms, next, q, |submit|, nodeHash)
  {
    if |doms| == 0 then submit
    else
      var k := |doms| - 1;
      var prev := SubmitQueues(submit, doms[..k], next, nodeHash);
      var q := nodeHash(doms[k].node) % |submit|;
      var r := prev[q := prev[q] + [Entry(doms[k], next + k)]];
      SubmitQueuesStep(submit, doms, next, nodeHash, prev, r);
      r
  }

  /** One domain more: its replica is appended to its own queue's share only. */
  lemma SubmitQueuesStep(submit: seq<seq<Entry>>, doms: seq<ResolvedDomainQuery>, next: nat, nodeHash: NodeId -> nat,
                         prev: seq<seq<Entry>>, r: seq<seq<Entry>>)
    requires |submit| > 0 && |doms| > 0 && |prev| == |submit|
    requires forall q | 0 <= q < |submit| :: prev[q] == submit[q] + QueueShare(doms[..|doms| - 1], next, q, |submit|, nodeHash)
    requires var q := nodeHash(doms[|doms| - 1].node) % |submit|;
             r == prev[q := prev[q] + [Entry(doms[|doms| - 1], next + |doms| - 1)]]
    ensures forall p | 0 <= p < |submit| :: r[p] == submit[p] + QueueShare(doms, next, p, |submit|, nodeHash)
  {
    var k := |doms| - 1;
    var q := nodeHash(doms[k].node) % |submit|;
    forall p | 0 <= p < |submit| ensures r[p] == submit[p] + QueueShare(doms, next, p, |submit|, nodeHash) {
      var share := QueueShare(doms[..k], next, p, |submit|, nodeHash);
      assert QueueShare(doms, next, p, |submit|, nodeHash)
             == share + (if nodeHash(doms[k].node) % |submit| == p then [Entry(doms[k], next + k)] else []);
      if p == q {
        assert r[p] == (submit[p] + share) + [Entry(doms[k], next + k)];
      }
    }
  }

  /** `Replicate` up to the wait: one replica per resolved domain, deep iff
      there is more than one domain, each queued on its node's submit queue
      and waiting on `submitTask`. `nodeHash` is `std::hash<NodeId>`. */
  function ReplicateStart(heap: Heap, submit: seq<seq<Entry>>, submitTask: TaskRef, orig: Task, empty: Task,
                          doms: seq<ResolvedDomainQuery>, next: nat, nodeHash: NodeId -> nat): (f: Fanout)
    requires |submit| > 0
    requires forall r | r in heap :: r < next
    ensures f.deep <==> |doms| > 1
    ensures f.replicaStarts == CountLocal(doms)
    ensures |f.replicas| == |doms| && forall i | 0 <= i < |doms| :: f.replicas[i] == next + i
    ensures f.heap.Keys == heap.Keys + Handles(next, |doms|)
    ensures forall r | r in heap :: f.heap[r] == heap[r]
    ensures forall i | 0 <= i < |doms| :: f.replicas[i] in f.heap && f.heap[f.replicas[i]] == ReplicaOf(orig, empty, f.deep, submitTask)
    ensures |f.submit| == |submit|
    ensures forall q | 0 <= q < |submit| :: f.submit[q] == submit[q] + QueueShare(doms, next, q, |submit|, nodeHash)
  {
    var deep := |doms| > 1;
    var replicas := seq(|doms|, i => next + i);
    assert forall i | 0 <= i < |doms| :: replicas[i] in Handles(next, |doms|);
    Fanout(ReplicaHeap(heap, ReplicaOf(orig, empty, deep, submitTask), next, |doms|), replicas,
           SubmitQueues(submit, doms, next, nodeHash), deep, CountLocal(doms))
  }

  /** Every replica is queued exactly once over all submit queues. */
  lemma ReplicaQueuedOnce(doms: seq<ResolvedDomainQuery>, next: nat, n: nat, nodeHash: NodeId -> nat, i: nat)
    requires n > 0 && i < |doms|
    ensures var q := nodeHash(doms[i].node) % n;
            Entry(doms[i], next + i) in QueueShare(doms, next, q, n, nodeHash)
            && forall p | p != q :: forall e | e in QueueShare(doms, next, p, n, nodeHash) :: e.task != next + i
  {
    ReplicaInOwnQueue(doms, next, n, nodeHash, i);
    var q := nodeHash(doms[i].node) % n;
    forall p | p != q
      ensures forall e | e in QueueShare(doms, next, p, n, nodeHash) :: e.task != next + i
    {
      QueueShareTasks(doms, next, p, n, nodeHash);
    }
  }

  /** The replica of domain `i` is in the share of its node's queue. */
  lemma {:induction false} ReplicaInOwnQueue(doms: seq<ResolvedDomainQuery>, next: nat, n: nat, nodeHash: NodeId -> nat, i: nat)
    requires n > 0 && i < |doms|
    ensures Entry(doms[i], next + i) in QueueShare(doms, next, nodeHash(doms[i].node) % n, n, nodeHash)
    decreases |doms|
  {
    var k := |doms| - 1;
    var q := nodeHash(doms[i].node) % n;
    var prefix := QueueShare(doms[..k], next, q, n, nodeHash);
    assert QueueShare(doms, next, q, n, nodeHash)
           == prefix + (if nodeHash(doms[k].node) % n == q then [Entry(doms[k], next + k)] else []);
    if i < k {
      assert doms[..k][i] == doms[i];
      ReplicaInOwnQueue(doms[..k], next, n, nodeHash, i);
      assert Entry(doms[i], next + i) in prefix;
    }
  }

  /** An entry of a queue's share is the replica of its own domain. */
  lemma {:induction false} QueueShareTasks(doms: seq<ResolvedDomainQuery>, next: nat, q: nat, n: nat, nodeHash: NodeId -> nat)
    requires n > 0
    ensures forall e | e in QueueShare(doms, next, q, n, nodeHash) ::
              e.task - next < |doms| && e.res == doms[e.task - next] && nodeHash(doms[e.task - next].node) % n == q
    decreases |doms|
  {
    if |doms| > 0 {
      var k := |doms| - 1;
      QueueShareTasks(doms[..k], next, q, n, nodeHash);
    }
  }

  /** The outcome of the rest of `Replicate`: the heap without the replicas,
      how many times `kReplicaAgg` ran and the replicas deleted, in order. */
  datatype Finish = Finish(heap: Heap, aggRuns: nat, deleted: seq<TaskRef>)

  /** `Replicate` after the wait: it only resumes once every replica is
      module-complete; then `kReplicaAgg` runs once and every replica is
      deleted once. */
  function ReplicateFinish(heap: Heap, replicas: seq<TaskRef>): (r: Finish)
    requires forall i | 0 <= i < |replicas| :: replicas[i] in heap && IsModuleComplete(heap[replicas[i]])
    ensures r.aggRuns == 1 && r.deleted == replicas
    ensures r.heap.Keys == heap.Keys - set i | 0 <= i < |replicas| :: replicas[i]
    ensures forall t | t in r.heap :: r.heap[t] == heap[t]
  {
    Finish(map t | t in heap && t !in replicas :: heap[t], 1, replicas)
  }

  /** The replicas of one fan-out are distinct, so each is deleted once. */
  lemma ReplicasDistinct(f: Fanout, heap: Heap, submit: seq<seq<Entry>>, submitTask: TaskRef, orig: Task, empty: Task,
                         doms: seq<ResolvedDomainQuery>, next: nat, nodeHash: NodeId -> nat)
    requires |submit| > 0 && forall r | r in heap :: r < next
    requires f == ReplicateStart(heap, submit, submitTask, orig, empty, doms, next, nodeHash)
    ensures forall i, j | 0 <= i < j < |f.replicas| :: f.replicas[i] != f.replicas[j]
    ensures forall i | 0 <= i < |f.replicas| :: f.replicas[i] !in heap
  {
  }

  // ---------------------------------------------------------------------
  // Completion of replicas on the submitting node

  /** Whether every returned replica's pool has a container here. */
  predicate AllPoolsKnown(heap: Heap, refs: seq<TaskRef>, poolExists: PoolId -> bool)
    requires forall i | 0 <= i < |refs| :: refs[i] in heap
  {
    forall i | 0 <= i < |refs| :: poolExists(heap[refs[i]].pool)
  }

  /** `RpcTaskComplete` on a batch of returned replicas. The first loop
      aborts the whole message when a replica's pool is unknown (`None`);
      otherwise every replica becomes module-complete and its `pending_to_`
      task is signalled, in batch order. */
  function RpcTaskComplete(heap: Heap, refs: seq<TaskRef>, poolExists: PoolId -> bool)
    : (r: Option<(Heap, seq<TaskRef>)>)
    requires forall i | 0 <= i < |refs| :: refs[i] in heap && heap[refs[i]].rctx.pendingTo.Some?
    ensures r.None? <==> !AllPoolsKnown(heap, refs, poolExists)
    ensures r.Some? ==> r.value.0.Keys == heap.Keys
    ensures r.Some? ==> forall t | t in heap ::
              r.value.0[t] == (if t in refs then SetModuleComplete(heap[t]) else heap[t])
    ensures r.Some? ==> |r.value.1| == |refs|
    ensures r.Some? ==> forall i | 0 <= i < |refs| :: r.value.1[i] == heap[refs[i]].rctx.pendingTo.value
  {
    if !AllPoolsKnown(heap, refs, poolExists) then None
    else
      Some((map t | t in heap :: if t in refs then SetModuleComplete(heap[t]) else heap[t],
            seq(|refs|, i requires 0 <= i < |refs| => heap[refs[i]].rctx.pendingTo.value)))
  }

  /** When all replicas of a fan-out come back in completion messages, the
      wait in `Replicate` is over: every replica is module-complete and each
      completion signals the submitting task. */
  lemma CompletionReleasesWait(heap: Heap, submit: seq<seq<Entry>>, submitTask: TaskRef, orig: Task, empty: Task,
                               doms: seq<ResolvedDomainQuery>, next: nat, nodeHash: NodeId -> nat, poolExists: PoolId -> bool)
    requires |submit| > 0 && forall r | r in heap :: r < next
    requires poolExists(orig.pool)
    ensures var f := ReplicateStart(heap, submit, submitTask, orig, empty, doms, next, nodeHash);
            var c := RpcTaskComplete(f.heap, f.replicas, poolExists);
            && c.Some?
            && (forall i | 0 <= i < |f.replicas| :: f.replicas[i] in c.value.0 && IsModuleComplete(c.value.0[f.replicas[i]]))
            && forall i | 0 <= i < |c.value.1| :: c.value.1[i] == submitTask
  {
    var f := ReplicateStart(heap, submit, submitTask, orig, empty, doms, next, nodeHash);
  }

  // ---------------------------------------------------------------------
  // Client push

  /** Where `ClientPushSubmit` stands: finished at once (empty resolution)
      or waiting on a fan-out, with the saved fire-and-forget bit. */
  datatype Push =
    | PushDone(heap: Heap, signalled: seq<TaskRef>)
    | PushWaiting(fan: Fanout, wasFireAndForget: bool)

  /** `ClientPushSubmit` up to the wait. `push` and `orig` are the push task
      and the original task. With no resolution the push completes and the
      original is signalled; otherwise the original's fire-and-forget bit is
      saved and cleared and the replicas are made from the cleared task. */
  function ClientPushSubmitStart(heap: Heap, submit: seq<seq<Entry>>, push: TaskRef, orig: TaskRef, empty: Task,
                                 doms: seq<ResolvedDomainQuery>, next: nat, nodeHash: NodeId -> nat): (p: Push)
    requires |submit| > 0 && push in heap && orig in heap && push != orig
    requires forall r | r in heap :: r < next
    ensures |doms| == 0 <==> p.PushDone?
    ensures p.PushDone? ==> p.heap == heap[push := SetModuleComplete(heap[push])] && p.signalled == [orig]
    ensures p.PushWaiting? ==> p.wasFireAndForget == IsFireAndForget(heap[orig])
    ensures p.PushWaiting? ==> |p.fan.replicas| == |doms| && orig in p.fan.heap && push in p.fan.heap
    ensures p.PushWaiting? ==> p.fan.heap[orig] == Unset(heap[orig], FireAndForget) && p.fan.heap[push] == heap[push]
    ensures p.PushWaiting? ==> forall i | 0 <= i < |p.fan.replicas| ::
              p.fan.replicas[i] !in heap && p.fan.replicas[i] in p.fan.heap && !IsFireAndForget(p.fan.heap[p.fan.replicas[i]])
  {
    if |doms| == 0 then PushDone(heap[push := SetModuleComplete(heap[push])], [orig])
    else
      var isFF := IsFireAndForget(heap[orig]);
      var cleared := Unset(heap[orig], FireAndForget);
      UnsetReadsBack(heap[orig], FireAndForget);
      var h := heap[orig := cleared];
      var f := ReplicateStart(h, submit, push, cleared, empty, doms, next, nodeHash);
      PushWaiting(f, isFF)
  }

  /** The result of a finished push: the heap, the replicas deleted and the
      tasks signalled. */
  datatype PushResult = PushResult(heap: Heap, deleted: seq<TaskRef>, signalled: seq<TaskRef>)

  /** `ClientPushSubmit` after the wait: `kReplicaAgg` and the deletes of
      `Replicate`, then the fire-and-forget bit restored if it was set, the
      original made module-complete unless long-running and signalled, and
      the push task completed. */
  function ClientPushSubmitFinish(heap: Heap, replicas: seq<TaskRef>, push: TaskRef, orig: TaskRef, wasFF: bool)
    : (r: PushResult)
    requires forall i | 0 <= i < |replicas| :: replicas[i] in heap && IsModuleComplete(heap[replicas[i]])
    requires push in heap && orig in heap && push != orig && push !in replicas && orig !in replicas
    ensures r.deleted == replicas && r.signalled == [orig]
    ensures r.heap.Keys == heap.Keys - set i | 0 <= i < |replicas| :: replicas[i]
    ensures r.heap[push] == SetModuleComplete(heap[push])
    ensures IsFireAndForget(r.heap[orig]) <==> wasFF || IsFireAndForget(heap[orig])
    ensures IsModuleComplete(r.heap[orig]) <==> !IsLongRunning(heap[orig]) || IsModuleComplete(heap[orig])
    ensures IsLongRunning(r.heap[orig]) <==> IsLongRunning(heap[orig])
    ensures forall t | t in r.heap && t != push && t != orig :: r.heap[t] == heap[t]
  {
    var fin := ReplicateFinish(heap, replicas);
    var o1 := if wasFF then Set(heap[orig], FireAndForget) else heap[orig];
    SetReadsBack(heap[orig], FireAndForget);
    var o2 := if !IsLongRunning(o1) then SetModuleComplete(o1) else o1;
    PushResult(fin.heap[orig := o2][push := SetModuleComplete(heap[push])], fin.deleted, [orig])
  }

  /** A push over a non-empty resolution, its replicas all completed, gives
      the original back its fire-and-forget bit as it was before the push. */
  lemma PushRestoresFireAndForget(heap: Heap, submit: seq<seq<Entry>>, push: TaskRef, orig: TaskRef, empty: Task,
                                  doms: seq<ResolvedDomainQuery>, next: nat, nodeHash: NodeId -> nat,
                                  poolExists: PoolId -> bool)
    requires |submit| > 0 && push in heap && orig in heap && push != orig
    requires forall r | r in heap :: r < next
    requires |doms| > 0 && poolExists(heap[orig].pool)
    ensures var p := ClientPushSubmitStart(heap, submit, push, orig, empty, doms, next, nodeHash);
            var c := RpcTaskComplete(p.fan.heap, p.fan.replicas, poolExists);
            && c.Some?
            && var r := ClientPushSubmitFinish(c.value.0, p.fan.replicas, push, orig, p.wasFireAndForget);
            && (IsFireAndForget(r.heap[orig]) <==> IsFireAndForget(heap[orig]))
            && (IsLongRunning(heap[orig]) || IsModuleComplete(r.heap[orig]))
            && r.deleted == p.fan.replicas
  {
    var p := ClientPushSubmitStart(heap, submit, push, orig, empty, doms, next, nodeHash);
    var cleared := Unset(heap[orig], FireAndForget);
    UnsetReadsBack(heap[orig], FireAndForget);
    assert cleared.pool == heap[orig].pool && cleared.flags == heap[orig].flags - {TASK_FIRE_AND_FORGET};
    assert forall i | 0 <= i < |p.fan.replicas| :: p.fan.heap[p.fan.replicas[i]] == ReplicaOf(cleared, empty, |doms| > 1, push);
    var c := RpcTaskComplete(p.fan.heap, p.fan.replicas, poolExists);
    assert c.Some?;
    assert push !in p.fan.replicas && orig !in p.fan.replicas;
    assert c.value.0[orig] == cleared;
  }

  // ---------------------------------------------------------------------
  // Batching

  /** One message to a node: the tasks for it, in queue order. */
  datatype Batch = Batch(node: NodeId, tasks: seq<TaskRef>)

  /** The tasks of `es` bound for `node`, in order. */
  function ForNode(es: seq<Entry>, node: NodeId): (ts: seq<TaskRef>)
    ensures |ts| <= |es|
  {
    if |es| == 0 then []
    else ForNode(es[..|es| - 1], node) + (if es[|es| - 1].res.node == node then [es[|es| - 1].task] else [])
  }

  /** No two batches for the same node. */
  predicate DistinctNodes(bs: seq<Batch>) {
    forall i, j | 0 <= i < j < |bs| :: bs[i].node != bs[j].node
  }

  /** Adds `t` to the batch of `node`, opening a batch at the end if there is none. */
  function AddToBatch(bs: seq<Batch>, node: NodeId, t: TaskRef): (r: seq<Batch>)
    requires DistinctNodes(bs)
    ensures DistinctNodes(r)
    ensures |r| == |bs| || |r| == |bs| + 1
    ensures forall i | 0 <= i < |bs| :: r[i].node == bs[i].node
    ensures forall i | 0 <= i < |bs| :: r[i].tasks == bs[i].tasks + (if bs[i].node == node then [t] else [])
    ensures |r| == |bs| + 1 <==> forall i | 0 <= i < |bs| :: bs[i].node != node
    ensures |r| == |bs| + 1 ==> r[|bs|] == Batch(node, [t])
  {
    if |bs| == 0 then [Batch(node, [t])]
    else if bs[0].node == node then [Batch(node, bs[0].tasks + [t])] + bs[1..]
    else [bs[0]] + AddToBatch(bs[1..], node, t)
  }

  /** The per-node archives of `ClientSubmit` and `ServerComplete`: one
      batch per destination node, nodes in order of first appearance. */
  function Group(es: seq<Entry>): (bs: seq<Batch>)
    ensures DistinctNodes(bs)
  {
    if |es| == 0 then [] else AddToBatch(Group(es[..|es| - 1]), es[|es| - 1].res.node, es[|es| - 1].task)
  }

  /** The nodes that have a batch. */
  function NodesOf(bs: seq<Batch>): set<NodeId> { set i | 0 <= i < |bs| :: bs[i].node }

  /** The destinations of a queue. */
  function Destinations(es: seq<Entry>): set<NodeId> { set e | e in es :: e.res.node }

  /** Adding a task adds its node to the batched nodes, and nothing else. */
  lemma AddToBatchNodes(bs: seq<Batch>, node: NodeId, t: TaskRef)
    requires DistinctNodes(bs)
    ensures NodesOf(AddToBatch(bs, node, t)) == NodesOf(bs) + {node}
  {
    var r := AddToBatch(bs, node, t);
    forall n | n in NodesOf(r) ensures n in NodesOf(bs) + {node} {
      var i :| 0 <= i < |r| && r[i].node == n;
      if i < |bs| { assert bs[i].node == n; }
    }
    forall n | n in NodesOf(bs) ensures n in NodesOf(r) {
      var i :| 0 <= i < |bs| && bs[i].node == n;
      assert r[i].node == n;
    }
    if |r| == |bs| + 1 {
      assert r[|bs|].node == node;
    } else {
      var i :| 0 <= i < |bs| && bs[i].node == node;
      assert r[i].node == node;
    }
  }

  /** `Group` opens one batch per destination, and no other. */
  lemma {:induction false} GroupNodes(es: seq<Entry>)
    ensures NodesOf(Group(es)) == Destinations(es)
    decreases |es|
  {
    if |es| > 0 {
      var k := |es| - 1;
      GroupNodes(es[..k]);
      AddToBatchNodes(Group(es[..k]), es[k].res.node, es[k].task);
      DestinationsSnoc(es);
    }
  }

  /** The destinations of a queue are those of its prefix plus the last one's. */
  lemma DestinationsSnoc(es: seq<Entry>)
    requires |es| > 0
    ensures Destinations(es) == Destinations(es[..|es| - 1]) + {es[|es| - 1].res.node}
  {
    var k := |es| - 1;
    forall n | n in Destinations(es) ensures n in Destinations(es[..k]) + {es[k].res.node} {
      var e :| e in es && e.res.node == n;
      var i :| 0 <= i < |es| && es[i] == e;
      if i < k { assert es[..k][i] == e; }
    }
    forall n | n in Destinations(es[..k]) ensures n in Destinations(es) {
      var e :| e in es[..k] && e.res.node == n;
    }
    assert es[k] in es;
  }

  /** Each batch of `Group` holds exactly the tasks for its node, in queue
      order; with `GroupNodes` and `DistinctNodes`, every entry travels in
      exactly one message, to its own node. */
  lemma {:induction false} GroupIsPerNode(es: seq<Entry>)
    ensures DistinctNodes(Group(es))
    ensures forall i | 0 <= i < |Group(es)| :: Group(es)[i].tasks == ForNode(es, Group(es)[i].node)
    decreases |es|
  {
    if |es| > 0 {
      var k := |es| - 1;
      var prev := Group(es[..k]);
      GroupIsPerNode(es[..k]);
      var bs := Group(es);
      forall i | 0 <= i < |bs| ensures bs[i].tasks == ForNode(es, bs[i].node) {
        if i == |prev| {
          GroupNodes(es[..k]);
          var n := es[k].res.node;
          assert forall j | 0 <= j < |prev| :: prev[j].node != n;
          assert n !in NodesOf(prev);
          NoEntryNoTasks(es[..k], n);
        }
      }
    }
  }

  lemma {:induction false} NoEntryNoTasks(es: seq<Entry>, node: NodeId)
    requires node !in Destinations(es)
    ensures ForNode(es, node) == []
    decreases |es|
  {
    if |es| > 0 {
      assert Destinations(es[..|es| - 1]) <= Destinations(es);
      assert es[|es| - 1] in es;
      NoEntryNoTasks(es[..|es| - 1], node);
    }
  }

  // ---------------------------------------------------------------------
  // Client submit

  /** The outcome of `ClientSubmit`: the heap, the batches sent (none if
      the drain aborted), what is left in `submit_[0]`, and the flush count. */
  datatype Submit = Submit(heap: Heap, batches: seq<Batch>, retNode: NodeId, remaining: seq<Entry>, aborted: bool, flushCount: nat)

  /** The first `k` entries with each task's domain query rewritten to its
      resolved one (a later entry for the same task wins). */
  function Rewrite(heap: Heap, es: seq<Entry>): (h: Heap)
    requires forall e | e in es :: e.task in heap
    ensures h.Keys == heap.Keys
    ensures forall t | t in heap :: h[t].(domQuery := heap[t].domQuery) == heap[t]
    ensures forall t | t in heap :: h[t].pool == heap[t].pool
    ensures forall t | t in heap && (forall e | e in es :: e.task != t) :: h[t] == heap[t]
    ensures |es| > 0 ==> h[es[|es| - 1].task].domQuery == es[|es| - 1].res.dom
  {
    if |es| == 0 then heap
    else
      var k := |es| - 1;
      var h := Rewrite(heap, es[..k]);
      assert es[k] in es;
      h[es[k].task := h[es[k].task].(domQuery := es[k].res.dom)]
  }

  /** One more entry: its task's domain query becomes the entry's. */
  lemma RewriteStep(heap: Heap, es: seq<Entry>, e: Entry)
    requires forall x | x in es :: x.task in heap
    requires e.task in heap
    ensures forall x | x in es + [e] :: x.task in heap
    ensures var h := Rewrite(heap, es);
            Rewrite(heap, es + [e]) == h[e.task := h[e.task].(domQuery := e.res.dom)]
  {
    assert (es + [e])[..|es|] == es;
  }

  /** One more entry goes into its node's batch. */
  lemma GroupStep(es: seq<Entry>, e: Entry)
    ensures Group(es + [e]) == AddToBatch(Group(es), e.res.node, e.task)
  {
    assert (es + [e])[..|es|] == es;
  }

  /** Index of the first entry whose pool is unknown, or `|es|`. */
  function FirstUnknown(heap: Heap, es: seq<Entry>, poolExists: PoolId -> bool): (k: nat)
    requires forall e | e in es :: e.task in heap
    ensures k <= |es|
  {
    if |es| == 0 then 0
    else if !poolExists(heap[es[0].task].pool) then 0
    else
      assert forall e | e in es[1..] :: e in es;
      1 + FirstUnknown(heap, es[1..], poolExists)
  }

  /** `FirstUnknown` finds the first entry whose pool is unknown: every pool
      before it is known, and the one it points at (if any) is not. */
  lemma {:induction false} FirstUnknownSpec(heap: Heap, es: seq<Entry>, poolExists: PoolId -> bool)
    requires forall e | e in es :: e.task in heap
    ensures var k := FirstUnknown(heap, es, poolExists);
            && (forall i | 0 <= i < k :: poolExists(heap[es[i].task].pool))
            && (k < |es| ==> !poolExists(heap[es[k].task].pool))
    decreases |es|
  {
    if |es| > 0 && poolExists(heap[es[0].task].pool) {
      assert forall e | e in es[1..] :: e in es;
      FirstUnknownSpec(heap, es[1..], poolExists);
      var k := FirstUnknown(heap, es, poolExists);
      forall i | 0 <= i < k ensures poolExists(heap[es[i].task].pool) {
        if i > 0 { assert es[i] == es[1..][i - 1]; }
      }
    }
  }

  /** What popping entry `i` of `submit_[0]` does to the rewritten heap and
      the batches, and that the drain reaches it only while pools are known. */
  lemma DrainStep(heap: Heap, submit0: seq<Entry>, i: nat)
    requires forall e | e in submit0 :: e.task in heap
    requires i < |submit0|
    ensures forall e | e in submit0[..i + 1] :: e.task in heap
    ensures var e := submit0[i];
            var h := Rewrite(heap, submit0[..i]);
            && Rewrite(heap, submit0[..i + 1]) == h[e.task := h[e.task].(domQuery := e.res.dom)]
            && Group(submit0[..i + 1]) == AddToBatch(Group(submit0[..i]), e.res.node, e.task)
  {
    var e := submit0[i];
    assert e in submit0;
    assert submit0[..i + 1] == submit0[..i] + [e];
    assert forall x | x in submit0[..i] :: x in submit0;
    RewriteStep(heap, submit0[..i], e);
    GroupStep(submit0[..i], e);
  }

  /** Before the first unknown pool every pool is known. */
  lemma DrainReaches(heap: Heap, submit0: seq<Entry>, i: nat, poolExists: PoolId -> bool)
    requires forall e | e in submit0 :: e.task in heap
    requires i < |submit0| && i <= FirstUnknown(heap, submit0, poolExists)
    ensures i < FirstUnknown(heap, submit0, poolExists) <==> poolExists(heap[submit0[i].task].pool)
  {
    FirstUnknownSpec(heap, submit0, poolExists);
  }

  lemma PoolKept(heap: Heap, es: seq<Entry>, t: TaskRef)
    requires forall x | x in es :: x.task in heap
    requires t in heap
    ensures Rewrite(heap, es)[t].pool == heap[t].pool
  {
  }

  /** `ClientSubmit`. While flushing, the sizes of `submit_[0]` and
      `complete_[0]` are added to the flush count. Then `submit_[0]` is
      drained in order: each replica's domain query becomes its resolved one
      and it goes into its node's batch; a replica whose pool is unknown ends
      the call with nothing sent (that entry and the ones before it already
      popped). Every batch carries this node as the return node. */
  method ClientSubmit(heap: Heap, submit0: seq<Entry>, complete0Size: nat, flushing: bool, flushCount: nat,
                      localNode: NodeId, poolExists: PoolId -> bool) returns (s: Submit)
    requires forall e | e in submit0 :: e.task in heap
    ensures s.flushCount == flushCount + (if flushing then |submit0| + complete0Size else 0)
    ensures s.retNode == localNode
    ensures s.aborted <==> FirstUnknown(heap, submit0, poolExists) < |submit0|
    ensures s.aborted ==> var k := FirstUnknown(heap, submit0, poolExists);
              s.batches == [] && s.remaining == submit0[k + 1..] && s.heap == Rewrite(heap, submit0[..k])
    ensures !s.aborted ==> s.batches == Group(submit0) && s.remaining == [] && s.heap == Rewrite(heap, submit0)
  {
    var count := flushCount + (if flushing then |submit0| + complete0Size else 0);
    var h := heap;
    var bs: seq<Batch> := [];
    var i := 0;
    var k := FirstUnknown(heap, submit0, poolExists);
    while i < |submit0|
      invariant 0 <= i <= k
      invariant forall e | e in submit0[..i] :: e.task in heap
      invariant h == Rewrite(heap, submit0[..i])
      invariant bs == Group(submit0[..i])
    {
      var e := submit0[i];
      assert e in submit0;
      PoolKept(heap, submit0[..i], e.task);
      DrainReaches(heap, submit0, i, poolExists);
      if !poolExists(h[e.task].pool) {
        s := Submit(h, [], localNode, submit0[i + 1..], true, count);
        return;
      }
      DrainStep(heap, submit0, i);
      h := h[e.task := h[e.task].(domQuery := e.res.dom)];
      bs := AddToBatch(bs, e.res.node, e.task);
      i := i + 1;
    }
    assert submit0[..i] == submit0;
    s := Submit(h, bs, localNode, [], false, count);
  }

  // ---------------------------------------------------------------------
  // Server side

  /** `ServerPushComplete`: a finished remote task is queued on the complete
      queue of its return node's hash, tagged with that node. */
  function ServerPushComplete(complete: seq<seq<Entry>>, heap: Heap, task: TaskRef, nodeHash: NodeId -> nat)
    : (r: seq<seq<Entry>>)
    requires |complete| > 0 && task in heap
    ensures |r| == |complete|
    ensures var q := nodeHash(heap[task].rctx.retNode) % |complete|;
            && r[q] == complete[q] + [Entry(Resolved(heap[task].rctx.retNode, NoDomain), task)]
            && forall p | 0 <= p < |complete| && p != q :: r[p] == complete[p]
  {
    var node := heap[task].rctx.retNode;
    var q := nodeHash(node) % |complete|;
    complete[q := complete[q] + [Entry(Resolved(node, NoDomain), task)]]
  }

  /** The tasks of a queue, in order. */
  function Tasks(es: seq<Entry>): (ts: seq<TaskRef>)
    ensures |ts| == |es| && forall i | 0 <= i < |es| :: ts[i] == es[i].task
  {
    seq(|es|, i requires 0 <= i < |es| => es[i].task)
  }

  /** The handles a queue mentions. */
  function TaskSet(es: seq<Entry>): (ts: set<TaskRef>)
    ensures forall t :: t in ts <==> exists i | 0 <= i < |es| :: es[i].task == t
  {
    set i | 0 <= i < |es| :: es[i].task
  }

  /** One more entry drained by `ServerComplete`. */
  lemma CompleteStep(es: seq<Entry>, i: nat)
    requires i < |es|
    ensures Group(es[..i + 1]) == AddToBatch(Group(es[..i]), es[i].res.node, es[i].task)
    ensures Tasks(es[..i + 1]) == Tasks(es[..i]) + [es[i].task]
    ensures TaskSet(es[..i + 1]) == TaskSet(es[..i]) + {es[i].task}
  {
    assert es[..i + 1][..i] == es[..i];
    assert es[..i + 1] == es[..i] + [es[i]];
    GroupStep(es[..i], es[i]);
    assert TaskSet(es[..i + 1]) == TaskSet(es[..i]) + {es[i].task} by {
      forall t | t in TaskSet(es[..i + 1]) ensures t in TaskSet(es[..i]) + {es[i].task} {
        var j :| 0 <= j < i + 1 && es[..i + 1][j].task == t;
        if j < i { assert es[..i][j].task == t; }
      }
      forall t | t in TaskSet(es[..i]) ensures t in TaskSet(es[..i + 1]) {
        var j :| 0 <= j < i && es[..i][j].task == t;
        assert es[..i + 1][j].task == t;
      }
      assert es[..i + 1][i].task == es[i].task;
    }
  }

  /** The outcome of `ServerComplete`: the heap, the completion batches and
      the tasks deleted. */
  datatype Completed = Completed(heap: Heap, batches: seq<Batch>, deleted: seq<TaskRef>)

  /** `ServerComplete`: drains `complete_[0]`; each task's outputs go into
      its return node's batch and the task is deleted, in queue order. The
      code looks the container up without a null check, so every task's
      pool must exist. */
  method ServerComplete(heap: Heap, complete0: seq<Entry>, poolExists: PoolId -> bool) returns (c: Completed)
    requires forall e | e in complete0 :: e.task in heap && poolExists(heap[e.task].pool)
    ensures c.batches == Group(complete0)
    ensures c.deleted == Tasks(complete0)
    ensures c.heap.Keys == heap.Keys - TaskSet(complete0)
    ensures forall t | t in c.heap :: c.heap[t] == heap[t]
  {
    var bs: seq<Batch> := [];
    var deleted: seq<TaskRef> := [];
    var h := heap;
    var i := 0;
    while i < |complete0|
      invariant 0 <= i <= |complete0|
      invariant bs == Group(complete0[..i]) && deleted == Tasks(complete0[..i])
      invariant h.Keys == heap.Keys - TaskSet(complete0[..i])
      invariant forall t | t in h :: h[t] == heap[t]
    {
      var e := complete0[i];
      CompleteStep(complete0, i);
      bs := AddToBatch(bs, e.res.node, e.task);
      deleted := deleted + [e.task];
      h := h - {e.task};
      i := i + 1;
    }
    assert complete0[..i] == complete0;
    c := Completed(h, bs, deleted);
  }

  /** One task record of a received submit message. */
  datatype XferTask = XferTask(pool: PoolId, methodId: nat, dom: DomainQuery, taskAddr: nat)

  /** `DeserializeTask`: with no container for the pool, nothing happens
      (`None`). Otherwise the loaded task (`loaded`, the result of the
      container's `LoadStart`) gets its resolved domain, return address and
      return node; it owns its data, is neither fire-and-forget nor
      long-running, signals remote completion and carries both marks; it is
      scheduled on the pool's queue (the returned queue id). */
  function DeserializeTask(x: XferTask, retNode: NodeId, loaded: Task, poolExists: PoolId -> bool)
    : (r: Option<(Task, QueueId)>)
    ensures r.None? <==> !poolExists(x.pool)
    ensures r.Some? ==> r.value.1 == x.pool
    ensures r.Some? ==> var t := r.value.0;
              && t.domQuery == x.dom && t.rctx.retTaskAddr == x.taskAddr && t.rctx.retNode == retNode
              && IsDataOwner(t) && !IsFireAndForget(t) && !IsLongRunning(t)
              && Is(t, SignalRemoteComplete) && TASK_REMOTE_DEBUG_MARK in t.flags && TASK_REMOTE_RECV_MARK in t.flags
              && t.flags == loaded.flags + {TASK_DATA_OWNER, TASK_REMOTE_DEBUG_MARK, TASK_REMOTE_RECV_MARK}
                                         - {TASK_FIRE_AND_FORGET, TASK_LONG_RUNNING}
              && t.rctx.runFlags == loaded.rctx.runFlags + {TASK_SIGNAL_REMOTE_COMPLETE}
              && t.pool == loaded.pool && t.methodId == loaded.methodId && t.period == loaded.period
  {
    if !poolExists(x.pool) then None
    else
      var t0 := loaded.(domQuery := x.dom, rctx := loaded.rctx.(retTaskAddr := x.taskAddr, retNode := retNode));
      var t1 := Set(t0, DataOwner);
      var t2 := Unset(t1, FireAndForget);
      var t3 := Unset(t2, LongRunning);
      var t4 := Set(t3, SignalRemoteComplete);
      var t5 := t4.(flags := t4.flags + {TASK_REMOTE_DEBUG_MARK});
      var t6 := t5.(flags := t5.flags + {TASK_REMOTE_RECV_MARK});
      Some((t6, x.pool))
  }

  /** A received task always runs to completion and reports back: it is not
      long-running, so `ShouldRun` lets it run every time, and it is not
      fire-and-forget, so its completion is sent home. */
  lemma ReceivedTaskRunsOnce(x: XferTask, retNode: NodeId, loaded: Task, poolExists: PoolId -> bool, now: int, flushing: bool)
    requires poolExists(x.pool)
    ensures var r := DeserializeTask(x, retNode, loaded, poolExists);
            r.Some? && ShouldRun(r.value.0, now, flushing).0 && !IsFireAndForget(r.value.0)
  {
  }
}
