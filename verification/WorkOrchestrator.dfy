/** The bookkeeping of `work_orchestrator.cc`: spawning dedicated and
    overlapped workers with their CPU ids, assigning ingress lanes to
    workers round-robin, the per-worker load sum, and the list of cores no
    worker is pinned to. Threads, pinning and pid polling are not modelled. */
module WorkOrchestrator {
  import opened Ids
  import Lanes

  // ---------------------------------------------------------------------
  // Spawning workers

  /** A worker: its id, the CPU it runs on, whether it got a fresh execution
      stream, whether it polls continuously and whether it is low latency. */
  datatype Worker = Worker(id: nat, cpu: nat, newStream: bool, continuousPolling: bool, lowLatency: bool)

  /** The result of spawning: all workers in id order, the dedicated and the
      overlapped worker ids, and the reinforcement worker's CPU. */
  datatype Spawned = Spawned(workers: seq<Worker>, dworkers: seq<nat>, oworkers: seq<nat>, reinforceCpu: nat)

  /** Dedicated worker `k`: id and CPU `k`, continuous polling, low latency. */
  function Dedicated(k: nat): Worker { Worker(k, k, true, true, true) }

  /** Overlapped worker `k` as written: the loop counter `i` is never
      incremented, so `i % owork_per_core == 0` holds every time and each
      overlapped worker opens a stream on the next CPU. */
  function OverlappedAsWritten(d: nat, k: nat, perCore: nat): Worker
    requires perCore > 0
  {
    var i := 0;
    Worker(d + k, d + 1 + k, i % perCore == 0, false, false)
  }

  /** Overlapped worker `k` as intended: a new stream (and CPU) every
      `owork_per_core` workers. */
  function OverlappedIntended(d: nat, k: nat, perCore: nat): Worker
    requires perCore > 0
  {
    Worker(d + k, d + 1 + k / perCore, k % perCore == 0, false, false)
  }

  /** Worker `w` of the spawning loops: dedicated below `d`, overlapped after. */
  function SpawnedWorker(d: nat, w: nat, perCore: nat, intended: bool): (r: Worker)
    requires w >= d ==> perCore > 0
    ensures r.id == w && (r.lowLatency <==> w < d) && (r.continuousPolling <==> w < d)
  {
    if w < d then Dedicated(w)
    else if intended then OverlappedIntended(d, w - d, perCore)
    else OverlappedAsWritten(d, w - d, perCore)
  }

  /** `ServerInit`'s spawning loops, given `max_dworkers`, `max_oworkers`
      and `owork_per_core`. The latter is a divisor in the overlapped loop
      only, so it must be non-zero only when overlapped workers are spawned. */
  function SpawnWorkers(d: nat, o: nat, perCore: nat, intended: bool): (s: Spawned)
    requires o > 0 ==> perCore > 0
    ensures |s.workers| == d + o && |s.dworkers| == d && |s.oworkers| == o
    ensures forall w | 0 <= w < |s.workers| :: s.workers[w] == SpawnedWorker(d, w, perCore, intended)
    ensures forall w | 0 <= w < |s.workers| :: s.workers[w].id == w
    ensures forall k | 0 <= k < d :: s.dworkers[k] == k && s.workers[k] == Dedicated(k)
    ensures forall k | 0 <= k < o :: s.oworkers[k] == d + k
    ensures forall w | 0 <= w < |s.workers| :: s.workers[w].lowLatency <==> w < d
    ensures forall w | 0 <= w < |s.workers| :: s.workers[w].continuousPolling <==> w < d
    ensures s.reinforceCpu == d + 1
  {
    Spawned(
      seq(d + o, w requires 0 <= w < d + o => SpawnedWorker(d, w, perCore, intended)),
      seq(d, k => k),
      seq(o, k => d + k),
      d + 1)
  }

  /** Every worker id is either dedicated or overlapped, never both. */
  lemma WorkersPartitioned(d: nat, o: nat, perCore: nat, intended: bool, w: nat)
    requires (o > 0 ==> perCore > 0) && w < d + o
    ensures var s := SpawnWorkers(d, o, perCore, intended);
            (w in s.dworkers) != (w in s.oworkers)
  {
    var s := SpawnWorkers(d, o, perCore, intended);
    if w < d {
      assert s.dworkers[w] == w;
      assert w !in s.oworkers;
    } else {
      assert s.oworkers[w - d] == w;
      assert w !in s.dworkers;
    }
  }

  /** As written, overlapped workers never share a CPU; as intended,
      `owork_per_core` consecutive overlapped workers share one. With one
      dedicated worker, two overlapped workers and two per core the CPUs are
      0, 2, 3 as written and 0, 2, 2 as intended. */
  lemma OverlappedCpusDiffer()
    ensures var w := SpawnWorkers(1, 2, 2, false).workers;
            w[0].cpu == 0 && w[1].cpu == 2 && w[2].cpu == 3
    ensures var w := SpawnWorkers(1, 2, 2, true).workers;
            w[0].cpu == 0 && w[1].cpu == 2 && w[2].cpu == 2 && !w[2].newStream
  {
    assert SpawnedWorker(1, 1, 2, false).cpu == 2 && SpawnedWorker(1, 2, 2, false).cpu == 3;
    assert SpawnedWorker(1, 1, 2, true).cpu == 2 && SpawnedWorker(1, 2, 2, true).cpu == 2;
    assert !SpawnedWorker(1, 2, 2, true).newStream;
  }

  /** As written, every overlapped worker gets its own CPU; the intended
      spawning puts exactly `owork_per_core` workers on each full CPU. */
  lemma OverlappedCpuSharing(d: nat, o: nat, perCore: nat, k1: nat, k2: nat)
    requires perCore > 0 && k1 < k2 < o
    ensures SpawnWorkers(d, o, perCore, false).workers[d + k1].cpu != SpawnWorkers(d, o, perCore, false).workers[d + k2].cpu
    ensures SpawnWorkers(d, o, perCore, true).workers[d + k1].cpu == SpawnWorkers(d, o, perCore, true).workers[d + k2].cpu
            <==> k1 / perCore == k2 / perCore
  {
  }

  /** `GetWorkerPids`: one pid per worker, in worker order. */
  function GetWorkerPids(workers: seq<Worker>, pidOf: nat -> int): (pids: seq<int>)
    ensures |pids| == |workers|
    ensures forall w | 0 <= w < |workers| :: pids[w] == pidOf(workers[w].id)
  {
    seq(|workers|, w requires 0 <= w < |workers| => pidOf(workers[w].id))
  }

  // ---------------------------------------------------------------------
  // Core complement

  /** Removes every occurrence of `x`, keeping the order (`erase(remove(...))`). */
  function RemoveAll(s: seq<int>, x: int): (r: seq<int>)
    ensures forall v :: v in r <==> v in s && v != x
    ensures Increasing(s) ==> Increasing(r)
  {
    if |s| == 0 then []
    else
      var rest := RemoveAll(s[1..], x);
      assert forall v :: v in s <==> v == s[0] || v in s[1..];
      assert Increasing(s) ==> Increasing(s[1..]) && forall v | v in s[1..] :: s[0] < v by {
        if Increasing(s) { HeadBelowTail(s); }
      }
      if s[0] == x then rest
      else
        assert Increasing(s) ==> Increasing([s[0]] + rest) by {
          if Increasing(s) { ConsIncreasing(s[0], rest); }
        }
        [s[0]] + rest
  }

  lemma ConsIncreasing(a: int, t: seq<int>)
    requires Increasing(t) && forall v | v in t :: a < v
    ensures Increasing([a] + t)
  {
    forall i, j | 0 <= i < j < |[a] + t| ensures ([a] + t)[i] < ([a] + t)[j] {
      assert ([a] + t)[j] == t[j - 1] && t[j - 1] in t;
    }
  }

  lemma HeadBelowTail(s: seq<int>)
    requires |s| > 0 && Increasing(s)
    ensures Increasing(s[1..]) && forall v | v in s[1..] :: s[0] < v
  {
    forall v | v in s[1..] ensures s[0] < v {
      var k :| 0 <= k < |s[1..]| && s[1..][k] == v;
      assert s[k + 1] == v;
    }
  }

  predicate Increasing(s: seq<int>) { forall i, j | 0 <= i < j < |s| :: s[i] < s[j] }

  /** `GetWorkerCoresComplement`: the cores `0 .. ncpu-1`, in order, without
      any worker's CPU. */
  method GetWorkerCoresComplement(workers: seq<Worker>, ncpu: nat) returns (cores: seq<int>)
    ensures Increasing(cores)
    ensures forall c :: c in cores <==> 0 <= c < ncpu && forall w | 0 <= w < |workers| :: workers[w].cpu != c
  {
    cores := seq(ncpu, i => i);
    forall c | 0 <= c < ncpu ensures c in cores { assert cores[c] == c; }
    var i := 0;
    while i < |workers|
      invariant 0 <= i <= |workers|
      invariant Increasing(cores)
      invariant forall c :: c in cores <==> 0 <= c < ncpu && forall w | 0 <= w < i :: workers[w].cpu != c
    {
      cores := RemoveAll(cores, workers[i].cpu);
      i := i + 1;
    }
  }

  // ---------------------------------------------------------------------
  // Lane assignment

  /** An ingress lane group: priority class, how many lanes are already
      scheduled, and each lane's worker id. */
  datatype IngressGroup = IngressGroup(lowLatency: bool, numScheduled: nat, laneWorkers: seq<nat>)

  /** An ingress queue: its id, whether `QUEUE_READY` is set, its groups. */
  datatype IngressQueue = IngressQueue(id: QueueId, ready: bool, groups: seq<IngressGroup>)

  /** The lanes of a group from `from` on, taken round-robin from `workers`
      starting at offset `count`; earlier lanes keep their worker. */
  function RoundRobin(lanes: seq<nat>, from: nat, workers: seq<nat>, count: nat): (r: seq<nat>)
    requires |workers| > 0
    ensures |r| == |lanes|
  {
    seq(|lanes|, j requires 0 <= j < |lanes| =>
      if j >= from then workers[(count + (j - from)) % |workers|] else lanes[j])
  }

  /** Lanes of the group not yet scheduled. */
  function Pending(g: IngressGroup): nat {
    if g.numScheduled < |g.laneWorkers| then |g.laneWorkers| - g.numScheduled else 0
  }

  /** The inner loop for one group: each unscheduled lane goes to the next
      worker of its class, then `num_scheduled_` becomes the lane count.
      Returns the group and the advanced class counter. */
  method AssignGroup(g: IngressGroup, workers: seq<nat>, count: nat) returns (g': IngressGroup, count': nat)
    requires Pending(g) > 0 ==> |workers| > 0
    ensures g'.lowLatency == g.lowLatency && g'.numScheduled == |g.laneWorkers|
    ensures count' == count + Pending(g)
    ensures Pending(g) == 0 ==> g'.laneWorkers == g.laneWorkers
    ensures Pending(g) > 0 ==> g'.laneWorkers == RoundRobin(g.laneWorkers, g.numScheduled, workers, count)
  {
    var lanes := g.laneWorkers;
    var j := g.numScheduled;
    count' := count;
    while j < |lanes|
      invariant j == g.numScheduled || g.numScheduled <= j <= |lanes|
      invariant |lanes| == |g.laneWorkers|
      invariant count' == count + (if j > g.numScheduled then j - g.numScheduled else 0)
      invariant forall k | 0 <= k < |lanes| && (k < g.numScheduled || k >= j) :: lanes[k] == g.laneWorkers[k]
      invariant forall k | g.numScheduled <= k < j && k < |lanes| ::
                  lanes[k] == workers[(count + (k - g.numScheduled)) % |workers|]
    {
      lanes := lanes[j := workers[count' % |workers|]];
      count' := count' + 1;
      j := j + 1;
    }
    g' := g.(numScheduled := |lanes|, laneWorkers := lanes);
  }

  /** Whether some unscheduled lane of the given class sits in a ready,
      non-null queue (then that class must have a worker: it is a divisor). */
  predicate NeedsWorkers(qs: seq<IngressQueue>, lowLatency: bool) {
    exists q, g | 0 <= q < |qs| && 0 <= g < |qs[q].groups| ::
      !qs[q].id.IsNull() && qs[q].ready && qs[q].groups[g].lowLatency == lowLatency && Pending(qs[q].groups[g]) > 0
  }

  lemma NeedsWorkersTail(qs: seq<IngressQueue>)
    requires |qs| > 0
    ensures forall lowLatency: bool :: NeedsWorkers(qs[1..], lowLatency) ==> NeedsWorkers(qs, lowLatency)
  {
    forall lowLatency: bool | NeedsWorkers(qs[1..], lowLatency) ensures NeedsWorkers(qs, lowLatency) {
      var a, b :| 0 <= a < |qs[1..]| && 0 <= b < |qs[1..][a].groups|
                  && !qs[1..][a].id.IsNull() && qs[1..][a].ready && qs[1..][a].groups[b].lowLatency == lowLatency
                  && Pending(qs[1..][a].groups[b]) > 0;
      assert qs[a + 1] == qs[1..][a];
    }
  }

  lemma NeedsWorkersHead(qs: seq<IngressQueue>)
    requires |qs| > 0 && Eligible(qs[0])
    ensures forall g | 0 <= g < |qs[0].groups| :: Pending(qs[0].groups[g]) > 0 ==> NeedsWorkers(qs, qs[0].groups[g].lowLatency)
  {
  }

  /** Every group fully scheduled. */
  predicate GroupsSettled(gs: seq<IngressGroup>) {
    forall g | 0 <= g < |gs| :: Pending(gs[g]) == 0 && gs[g].numScheduled == |gs[g].laneWorkers|
  }

  /** A queue the assignment leaves alone: not eligible, or fully scheduled. */
  predicate Settled(q: IngressQueue) { Eligible(q) ==> GroupsSettled(q.groups) }

  /** Whether a queue takes part in the assignment. */
  predicate Eligible(q: IngressQueue) { !q.id.IsNull() && q.ready }

  /** One group in the functional form: the group and both counters. */
  function AssignGroupF(g: IngressGroup, dworkers: seq<nat>, oworkers: seq<nat>, cl: nat, ch: nat)
    : (r: (IngressGroup, nat, nat))
    requires Pending(g) > 0 && g.lowLatency ==> |dworkers| > 0
    requires Pending(g) > 0 && !g.lowLatency ==> |oworkers| > 0
    ensures r.0.lowLatency == g.lowLatency && r.0.numScheduled == |g.laneWorkers| && Pending(r.0) == 0
    ensures |r.0.laneWorkers| == |g.laneWorkers|
    ensures r.1 == cl + (if g.lowLatency then Pending(g) else 0)
    ensures r.2 == ch + (if g.lowLatency then 0 else Pending(g))
    ensures Pending(g) == 0 ==> r.0 == g.(numScheduled := |g.laneWorkers|)
    ensures Pending(g) > 0 && g.lowLatency ==> r.0.laneWorkers == RoundRobin(g.laneWorkers, g.numScheduled, dworkers, cl)
    ensures Pending(g) > 0 && !g.lowLatency ==> r.0.laneWorkers == RoundRobin(g.laneWorkers, g.numScheduled, oworkers, ch)
  {
    if Pending(g) == 0 then (g.(numScheduled := |g.laneWorkers|), cl, ch)
    else if g.lowLatency then
      (g.(numScheduled := |g.laneWorkers|, laneWorkers := RoundRobin(g.laneWorkers, g.numScheduled, dworkers, cl)),
       cl + Pending(g), ch)
    else
      (g.(numScheduled := |g.laneWorkers|, laneWorkers := RoundRobin(g.laneWorkers, g.numScheduled, oworkers, ch)),
       cl, ch + Pending(g))
  }

  /** Unscheduled lanes of the given class over a queue's groups. */
  function PendingIn(gs: seq<IngressGroup>, lowLatency: bool): nat {
    if |gs| == 0 then 0
    else (if gs[0].lowLatency == lowLatency then Pending(gs[0]) else 0) + PendingIn(gs[1..], lowLatency)
  }

  /** Unscheduled lanes of the given class over the eligible queues. */
  function PendingAll(qs: seq<IngressQueue>, lowLatency: bool): nat {
    if |qs| == 0 then 0
    else (if Eligible(qs[0]) then PendingIn(qs[0].groups, lowLatency) else 0) + PendingAll(qs[1..], lowLatency)
  }

  /** Every group with unscheduled lanes has a worker of its class to take them. */
  predicate HasWorkers(gs: seq<IngressGroup>, dworkers: seq<nat>, oworkers: seq<nat>) {
    && (forall g | 0 <= g < |gs| :: Pending(gs[g]) > 0 && gs[g].lowLatency ==> |dworkers| > 0)
    && (forall g | 0 <= g < |gs| :: Pending(gs[g]) > 0 && !gs[g].lowLatency ==> |oworkers| > 0)
  }

  /** Group `g` of `gs` as the middle loop leaves it: assigned from the
      counters as they stand after the groups before it, so its k-th
      unscheduled lane of a class gets the worker that class's counter has
      reached, modulo the pool size. */
  predicate GroupAssignedAt(gs: seq<IngressGroup>, g: nat, rg: IngressGroup,
                            dworkers: seq<nat>, oworkers: seq<nat>, cl: nat, ch: nat)
    requires g < |gs| && HasWorkers(gs, dworkers, oworkers)
  {
    rg == AssignGroupF(gs[g], dworkers, oworkers, cl + PendingIn(gs[..g], true), ch + PendingIn(gs[..g], false)).0
  }

  /** The middle loop: the groups of one eligible queue in order, threading
      both counters, so lanes are dealt round-robin across the groups. */
  function AssignGroups(gs: seq<IngressGroup>, dworkers: seq<nat>, oworkers: seq<nat>, cl: nat, ch: nat)
    : (r: (seq<IngressGroup>, nat, nat))
    requires HasWorkers(gs, dworkers, oworkers)
    ensures |r.0| == |gs| && r.1 == cl + PendingIn(gs, true) && r.2 == ch + PendingIn(gs, false)
    ensures forall g | 0 <= g < |gs| :: |r.0[g].laneWorkers| == |gs[g].laneWorkers|
    ensures GroupsSettled(r.0)
    decreases |gs|
  {
    if |gs| == 0 then ([], cl, ch)
    else
      var (g0, cl1, ch1) := AssignGroupF(gs[0], dworkers, oworkers, cl, ch);
      var (rest, cl2, ch2) := AssignGroups(gs[1..], dworkers, oworkers, cl1, ch1);
      assert forall g | 1 <= g < |gs| :: gs[g] == gs[1..][g - 1];
      ([g0] + rest, cl2, ch2)
  }

  /** The middle loop deals lanes round-robin across the groups: group `g`
      comes out as assigned on its own from the counters as they stand after
      the groups before it. */
  lemma {:induction false} AssignGroupsAt(gs: seq<IngressGroup>, dworkers: seq<nat>, oworkers: seq<nat>,
                                          cl: nat, ch: nat, g: nat)
    requires HasWorkers(gs, dworkers, oworkers) && g < |gs|
    ensures GroupAssignedAt(gs, g, AssignGroups(gs, dworkers, oworkers, cl, ch).0[g], dworkers, oworkers, cl, ch)
    decreases g
  {
    var f := AssignGroupF(gs[0], dworkers, oworkers, cl, ch);
    var r := AssignGroups(gs, dworkers, oworkers, cl, ch).0;
    if g == 0 {
      assert r[0] == f.0 && gs[..0] == [];
    } else {
      assert HasWorkers(gs[1..], dworkers, oworkers) by {
        assert forall i | 0 <= i < |gs[1..]| :: gs[1..][i] == gs[i + 1];
      }
      var rest := AssignGroups(gs[1..], dworkers, oworkers, f.1, f.2).0;
      assert r[g] == rest[g - 1];
      AssignGroupsAt(gs[1..], dworkers, oworkers, f.1, f.2, g - 1);
      GroupAssignedShift(gs, g, rest[g - 1], dworkers, oworkers, cl, ch, f.1, f.2);
    }
  }

  /** Group `g > 0` seen from the tail `gs[1..]` with the head's counters
      applied is group `g` of `gs`. */
  lemma GroupAssignedShift(gs: seq<IngressGroup>, g: nat, rg: IngressGroup,
                           dworkers: seq<nat>, oworkers: seq<nat>, cl: nat, ch: nat, cl1: nat, ch1: nat)
    requires 0 < g < |gs| && HasWorkers(gs, dworkers, oworkers) && HasWorkers(gs[1..], dworkers, oworkers)
    requires cl1 == AssignGroupF(gs[0], dworkers, oworkers, cl, ch).1
    requires ch1 == AssignGroupF(gs[0], dworkers, oworkers, cl, ch).2
    requires GroupAssignedAt(gs[1..], g - 1, rg, dworkers, oworkers, cl1, ch1)
    ensures GroupAssignedAt(gs, g, rg, dworkers, oworkers, cl, ch)
  {
    assert gs[g] == gs[1..][g - 1];
    assert gs[..g][0] == gs[0] && gs[..g][1..] == gs[1..][..g - 1];
    assert cl + PendingIn(gs[..g], true) == cl1 + PendingIn(gs[1..][..g - 1], true);
    assert ch + PendingIn(gs[..g], false) == ch1 + PendingIn(gs[1..][..g - 1], false);
  }

  /** Fully scheduled groups are left as they are. */
  lemma {:induction false} SettledGroupsFixed(gs: seq<IngressGroup>, dworkers: seq<nat>, oworkers: seq<nat>, cl: nat, ch: nat)
    requires GroupsSettled(gs)
    ensures AssignGroups(gs, dworkers, oworkers, cl, ch) == (gs, cl, ch)
    decreases |gs|
  {
    if |gs| > 0 {
      assert forall g | 1 <= g < |gs| :: gs[g] == gs[1..][g - 1];
      SettledGroupsFixed(gs[1..], dworkers, oworkers, cl, ch);
      assert [gs[0]] + gs[1..] == gs;
    }
  }

  /** The outer loop of the lane assignment in `ServerInit`: every eligible
      queue's groups are assigned, threading the low- and high-latency
      counters; queues with a null id or without `QUEUE_READY` are skipped. */
  function AssignQueues(qs: seq<IngressQueue>, dworkers: seq<nat>, oworkers: seq<nat>, cl: nat, ch: nat)
    : (r: (seq<IngressQueue>, nat, nat))
    requires NeedsWorkers(qs, true) ==> |dworkers| > 0
    requires NeedsWorkers(qs, false) ==> |oworkers| > 0
    ensures |r.0| == |qs|
    ensures r.1 == cl + PendingAll(qs, true) && r.2 == ch + PendingAll(qs, false)
    ensures forall q | 0 <= q < |qs| :: Assigned(qs[q], r.0[q])
    ensures forall q | 0 <= q < |qs| :: QueueAssignedAt(qs, q, r.0[q], dworkers, oworkers, cl, ch)
    decreases |qs|
  {
    if |qs| == 0 then ([], cl, ch)
    else
      var q := qs[0];
      assert forall i | 1 <= i < |qs| :: qs[i] == qs[1..][i - 1];
      NeedsWorkersTail(qs);
      if !Eligible(q) then
        var (rest, cl2, ch2) := AssignQueues(qs[1..], dworkers, oworkers, cl, ch);
        ConsAssigned(qs, q, rest);
        ConsQueueAssigned(qs, dworkers, oworkers, cl, ch, q, cl, ch, rest);
        ([q] + rest, cl2, ch2)
      else
        NeedsWorkersHead(qs);
        var (gs, cl1, ch1) := AssignGroups(q.groups, dworkers, oworkers, cl, ch);
        var (rest, cl2, ch2) := AssignQueues(qs[1..], dworkers, oworkers, cl1, ch1);
        ConsAssigned(qs, q.(groups := gs), rest);
        ConsQueueAssigned(qs, dworkers, oworkers, cl, ch, q.(groups := gs), cl1, ch1, rest);
        ([q.(groups := gs)] + rest, cl2, ch2)
  }

  /** Queue `q` of `qs` as the outer loop leaves it: when eligible, its groups
      are assigned from the counters as they stand after the eligible queues
      before it, so the k-th unscheduled low-latency lane overall goes to
      `dworkers[(cl + k) % |dworkers|]` and likewise for the other class. */
  predicate QueueAssignedAt(qs: seq<IngressQueue>, q: nat, rq: IngressQueue,
                            dworkers: seq<nat>, oworkers: seq<nat>, cl: nat, ch: nat)
    requires q < |qs|
  {
    Eligible(qs[q]) ==>
      && HasWorkers(qs[q].groups, dworkers, oworkers)
      && rq.groups == AssignGroups(qs[q].groups, dworkers, oworkers,
                                   cl + PendingAll(qs[..q], true), ch + PendingAll(qs[..q], false)).0
  }

  /** The per-queue counters of `AssignQueues` carry over from the head and
      the tail: the tail starts from the counters advanced by the head. */
  lemma ConsQueueAssigned(qs: seq<IngressQueue>, dworkers: seq<nat>, oworkers: seq<nat>, cl: nat, ch: nat,
                          x: IngressQueue, cl1: nat, ch1: nat, rest: seq<IngressQueue>)
    requires |qs| > 0 && |rest| == |qs| - 1
    requires Eligible(qs[0]) ==>
               HasWorkers(qs[0].groups, dworkers, oworkers)
               && x.groups == AssignGroups(qs[0].groups, dworkers, oworkers, cl, ch).0
    requires cl1 == cl + (if Eligible(qs[0]) then PendingIn(qs[0].groups, true) else 0)
    requires ch1 == ch + (if Eligible(qs[0]) then PendingIn(qs[0].groups, false) else 0)
    requires forall i | 0 <= i < |rest| :: QueueAssignedAt(qs[1..], i, rest[i], dworkers, oworkers, cl1, ch1)
    ensures forall i | 0 <= i < |qs| :: QueueAssignedAt(qs, i, ([x] + rest)[i], dworkers, oworkers, cl, ch)
  {
    forall i | 0 <= i < |qs| ensures QueueAssignedAt(qs, i, ([x] + rest)[i], dworkers, oworkers, cl, ch) {
      if i == 0 {
        QueueAssignedHead(qs, x, dworkers, oworkers, cl, ch);
      } else {
        assert ([x] + rest)[i] == rest[i - 1];
        QueueAssignedShift(qs, i, rest[i - 1], dworkers, oworkers, cl, ch, cl1, ch1);
      }
    }
  }

  /** The head queue is assigned from the counters as they start. */
  lemma QueueAssignedHead(qs: seq<IngressQueue>, x: IngressQueue, dworkers: seq<nat>, oworkers: seq<nat>, cl: nat, ch: nat)
    requires |qs| > 0
    requires Eligible(qs[0]) ==>
               HasWorkers(qs[0].groups, dworkers, oworkers)
               && x.groups == AssignGroups(qs[0].groups, dworkers, oworkers, cl, ch).0
    ensures QueueAssignedAt(qs, 0, x, dworkers, oworkers, cl, ch)
  {
    assert qs[..0] == [];
  }

  /** Queue `i > 0` seen from the tail `qs[1..]` with the head's counters
      applied is queue `i` of `qs`. */
  lemma QueueAssignedShift(qs: seq<IngressQueue>, i: nat, rq: IngressQueue,
                           dworkers: seq<nat>, oworkers: seq<nat>, cl: nat, ch: nat, cl1: nat, ch1: nat)
    requires 0 < i < |qs|
    requires cl1 == cl + (if Eligible(qs[0]) then PendingIn(qs[0].groups, true) else 0)
    requires ch1 == ch + (if Eligible(qs[0]) then PendingIn(qs[0].groups, false) else 0)
    requires QueueAssignedAt(qs[1..], i - 1, rq, dworkers, oworkers, cl1, ch1)
    ensures QueueAssignedAt(qs, i, rq, dworkers, oworkers, cl, ch)
  {
    assert qs[i] == qs[1..][i - 1];
    assert qs[..i][0] == qs[0] && qs[..i][1..] == qs[1..][..i - 1];
    assert cl + PendingAll(qs[..i], true) == cl1 + PendingAll(qs[1..][..i - 1], true);
    assert ch + PendingAll(qs[..i], false) == ch1 + PendingAll(qs[1..][..i - 1], false);
  }

  /** What the assignment does to one queue `q`, giving `r`: a skipped
      queue is unchanged; an eligible one keeps its id, readiness and group
      count and ends fully scheduled. */
  predicate Assigned(q: IngressQueue, r: IngressQueue) {
    && r.id == q.id && r.ready == q.ready
    && (!Eligible(q) ==> r == q)
    && (Eligible(q) ==> |r.groups| == |q.groups| && Settled(r))
  }

  /** The per-queue facts of `AssignQueues` carry over from the head and the tail. */
  lemma ConsAssigned(qs: seq<IngressQueue>, x: IngressQueue, rest: seq<IngressQueue>)
    requires |qs| > 0 && |rest| == |qs| - 1
    requires Assigned(qs[0], x)
    requires forall i | 0 <= i < |rest| :: Assigned(qs[1..][i], rest[i])
    ensures forall i | 0 <= i < |qs| :: Assigned(qs[i], ([x] + rest)[i])
  {
    forall i | 0 <= i < |qs| ensures Assigned(qs[i], ([x] + rest)[i]) {
      if i > 0 { assert qs[i] == qs[1..][i - 1] && ([x] + rest)[i] == rest[i - 1]; }
    }
  }

  /** The round-robin promise for one lane: an unscheduled lane `j` of group
      `g` of eligible queue `q` goes to the worker of its class that the
      class counter has reached, counting every unscheduled lane of that
      class in the eligible queues before `q`, in the groups before `g`, and
      in `g` before `j`. */
  lemma LaneGetsNextWorker(qs: seq<IngressQueue>, dworkers: seq<nat>, oworkers: seq<nat>, cl: nat, ch: nat,
                           q: nat, g: nat, j: nat)
    requires NeedsWorkers(qs, true) ==> |dworkers| > 0
    requires NeedsWorkers(qs, false) ==> |oworkers| > 0
    requires q < |qs| && Eligible(qs[q]) && g < |qs[q].groups|
    requires qs[q].groups[g].numScheduled <= j < |qs[q].groups[g].laneWorkers|
    ensures var grp := qs[q].groups[g];
            var workers := if grp.lowLatency then dworkers else oworkers;
            var k := (if grp.lowLatency then cl else ch) + PendingAll(qs[..q], grp.lowLatency)
                     + PendingIn(qs[q].groups[..g], grp.lowLatency) + (j - grp.numScheduled);
            |workers| > 0
            && AssignQueues(qs, dworkers, oworkers, cl, ch).0[q].groups[g].laneWorkers[j] == workers[k % |workers|]
  {
    var r := AssignQueues(qs, dworkers, oworkers, cl, ch);
    QueueLaneWorker(qs, dworkers, oworkers, cl, ch, q, g, j, r.0[q]);
  }

  /** The lane promise for a queue `rq` that the outer loop left at index `q`. */
  lemma QueueLaneWorker(qs: seq<IngressQueue>, dworkers: seq<nat>, oworkers: seq<nat>, cl: nat, ch: nat,
                        q: nat, g: nat, j: nat, rq: IngressQueue)
    requires q < |qs| && Eligible(qs[q]) && g < |qs[q].groups|
    requires qs[q].groups[g].numScheduled <= j < |qs[q].groups[g].laneWorkers|
    requires QueueAssignedAt(qs, q, rq, dworkers, oworkers, cl, ch)
    ensures var grp := qs[q].groups[g];
            var workers := if grp.lowLatency then dworkers else oworkers;
            var k := (if grp.lowLatency then cl else ch) + PendingAll(qs[..q], grp.lowLatency)
                     + PendingIn(qs[q].groups[..g], grp.lowLatency) + (j - grp.numScheduled);
            |workers| > 0 && g < |rq.groups| && j < |rq.groups[g].laneWorkers|
            && rq.groups[g].laneWorkers[j] == workers[k % |workers|]
  {
    var gs := qs[q].groups;
    var cl', ch' := cl + PendingAll(qs[..q], true), ch + PendingAll(qs[..q], false);
    AssignGroupsAt(gs, dworkers, oworkers, cl', ch', g);
    GroupLaneWorker(gs, dworkers, oworkers, cl', ch', g, j, rq.groups[g]);
  }

  /** The same promise within one queue's groups, for the group `rg` that the
      middle loop left at index `g`, from counters `cl`, `ch`. */
  lemma GroupLaneWorker(gs: seq<IngressGroup>, dworkers: seq<nat>, oworkers: seq<nat>, cl: nat, ch: nat,
                        g: nat, j: nat, rg: IngressGroup)
    requires HasWorkers(gs, dworkers, oworkers)
    requires g < |gs| && gs[g].numScheduled <= j < |gs[g].laneWorkers|
    requires GroupAssignedAt(gs, g, rg, dworkers, oworkers, cl, ch)
    ensures var workers := if gs[g].lowLatency then dworkers else oworkers;
            var k := (if gs[g].lowLatency then cl else ch) + PendingIn(gs[..g], gs[g].lowLatency)
                     + (j - gs[g].numScheduled);
            |workers| > 0 && j < |rg.laneWorkers| && rg.laneWorkers[j] == workers[k % |workers|]
  {
    assert Pending(gs[g]) > 0;
    AssignGroupFLane(gs[g], dworkers, oworkers, cl + PendingIn(gs[..g], true), ch + PendingIn(gs[..g], false), j);
  }

  /** One group: unscheduled lane `j` gets the worker its class counter has reached. */
  lemma AssignGroupFLane(grp: IngressGroup, dworkers: seq<nat>, oworkers: seq<nat>, cl: nat, ch: nat, j: nat)
    requires grp.numScheduled <= j < |grp.laneWorkers|
    requires grp.lowLatency ==> |dworkers| > 0
    requires !grp.lowLatency ==> |oworkers| > 0
    ensures var workers := if grp.lowLatency then dworkers else oworkers;
            var k := (if grp.lowLatency then cl else ch) + (j - grp.numScheduled);
            AssignGroupF(grp, dworkers, oworkers, cl, ch).0.laneWorkers[j] == workers[k % |workers|]
  {
    assert Pending(grp) > 0;
  }

  /** Running the assignment again changes nothing: every lane of every
      eligible queue is already scheduled, so no lane moves and neither
      counter advances. */
  lemma {:induction false} AssignQueuesIdempotent(qs: seq<IngressQueue>, dworkers: seq<nat>, oworkers: seq<nat>,
                                                  cl: nat, ch: nat, cl': nat, ch': nat)
    requires NeedsWorkers(qs, true) ==> |dworkers| > 0
    requires NeedsWorkers(qs, false) ==> |oworkers| > 0
    ensures var once := AssignQueues(qs, dworkers, oworkers, cl, ch).0;
            !NeedsWorkers(once, true) && !NeedsWorkers(once, false)
            && AssignQueues(once, dworkers, oworkers, cl', ch') == (once, cl', ch')
    decreases |qs|
  {
    var once := AssignQueues(qs, dworkers, oworkers, cl, ch).0;
    AssignedQueuesSettled(once, dworkers, oworkers, cl', ch');
  }

  /** A sequence of queues whose eligible groups are all fully scheduled is
      left exactly as it is. */
  lemma {:induction false} AssignedQueuesSettled(qs: seq<IngressQueue>, dworkers: seq<nat>, oworkers: seq<nat>, cl: nat, ch: nat)
    requires forall q | 0 <= q < |qs| :: Settled(qs[q])
    ensures !NeedsWorkers(qs, true) && !NeedsWorkers(qs, false)
    ensures AssignQueues(qs, dworkers, oworkers, cl, ch) == (qs, cl, ch)
    decreases |qs|
  {
    if |qs| > 0 {
      assert forall i | 1 <= i < |qs| :: qs[i] == qs[1..][i - 1];
      AssignedQueuesSettled(qs[1..], dworkers, oworkers, cl, ch);
      if Eligible(qs[0]) { SettledGroupsFixed(qs[0].groups, dworkers, oworkers, cl, ch); }
      assert [qs[0]] + qs[1..] == qs;
    }
  }

  // ---------------------------------------------------------------------
  // Load

  /** Every lane of every container, in container, group and lane order. */
  function AllLanes(containers: seq<Lanes.Module>): seq<Lanes.Lane> {
    if |containers| == 0 then []
    else AllLanes(containers[..|containers| - 1]) + GroupLanes(containers[|containers| - 1].groups)
  }

  function GroupLanes(groups: seq<Lanes.LaneGroup>): seq<Lanes.Lane> {
    if |groups| == 0 then [] else GroupLanes(groups[..|groups| - 1]) + groups[|groups| - 1].lanes
  }

  /** The load of the lanes run by worker `w`. */
  function LoadOf(lanes: seq<Lanes.Lane>, w: nat): nat {
    if |lanes| == 0 then 0
    else LoadOf(lanes[..|lanes| - 1], w) + (if lanes[|lanes| - 1].workerId == w then lanes[|lanes| - 1].load else 0)
  }

  /** The load of all lanes. */
  function TotalLoad(lanes: seq<Lanes.Lane>): nat {
    if |lanes| == 0 then 0 else TotalLoad(lanes[..|lanes| - 1]) + lanes[|lanes| - 1].load
  }

  function Sum(s: seq<nat>): nat {
    if |s| == 0 then 0 else Sum(s[..|s| - 1]) + s[|s| - 1]
  }

  /** Adding to one entry adds the same amount to the sum. */
  lemma {:induction false} SumAdd(s: seq<nat>, w: nat, x: nat)
    requires w < |s|
    ensures Sum(s[w := s[w] + x]) == Sum(s) + x
    decreases |s|
  {
    var k := |s| - 1;
    if w < k {
      assert s[w := s[w] + x][..k] == s[..k][w := s[w] + x];
      SumAdd(s[..k], w, x);
    } else {
      assert s[w := s[w] + x][..k] == s[..k];
    }
  }

  /** `CalculateLoad`: one entry per worker; entry `w` sums the load of the
      lanes whose `worker_id_` is `w`. Every lane's worker id must be a
      worker (the code indexes the result with it). The entries together
      account for the whole load. */
  method CalculateLoad(containers: seq<Lanes.Module>, numWorkers: nat) returns (loads: seq<nat>)
    requires forall l | l in AllLanes(containers) :: 0 <= l.workerId < numWorkers
    ensures |loads| == numWorkers
    ensures forall w | 0 <= w < numWorkers :: loads[w] == LoadOf(AllLanes(containers), w)
    ensures Sum(loads) == TotalLoad(AllLanes(containers))
  {
    var lanes := AllLanes(containers);
    loads := seq(numWorkers, _ => 0);
    assert Sum(loads) == 0 by { ZeroSum(numWorkers); }
    var i := 0;
    while i < |lanes|
      invariant 0 <= i <= |lanes|
      invariant |loads| == numWorkers
      invariant forall w | 0 <= w < numWorkers :: loads[w] == LoadOf(lanes[..i], w)
      invariant Sum(loads) == TotalLoad(lanes[..i])
    {
      var lane := lanes[i];
      assert lane in lanes;
      var w := lane.workerId as nat;
      assert lanes[..i + 1][..i] == lanes[..i];
      SumAdd(loads, w, lane.load);
      loads := loads[w := loads[w] + lane.load];
      i := i + 1;
    }
    assert lanes[..i] == lanes;
  }

  /** All-zero entries sum to zero. */
  lemma {:induction false} ZeroSum(n: nat)
    ensures Sum(seq(n, _ => 0)) == 0
  {
    if n > 0 {
      assert seq(n, _ => 0)[..n - 1] == seq(n - 1, _ => 0);
      ZeroSum(n - 1);
    }
  }
}
