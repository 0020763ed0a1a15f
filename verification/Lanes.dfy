/** Lanes, lane groups and the lane-routing part of `Module` (`module.h`).
    A module's lane groups are kept as a sequence with distinct group ids;
    the sequence order stands for the hash map's iteration order. */
module Lanes {
  import opened Wrappers
  import opened Ids

  const SIZE_MODULUS: nat := 0x1_0000_0000_0000_0000

  /** A lane: its ids, owning worker, load estimate, active-task reference
      counts and plug count (a `size_t`, so it wraps modulo 2^64). */
  datatype Lane = Lane(
    laneId: QueueId,
    ingressId: QueueId,
    workerId: int,
    numTasks: nat,
    load: nat,
    active: map<TaskId, nat>,
    plugCount: nat,
    prio: nat)

  /** The lane constructor: unplugged, no active task, no load. */
  function NewLane(laneId: QueueId, ingressId: QueueId, workerId: int, prio: nat): (l: Lane)
    ensures !IsPlugged(l) && GetNumActive(l) == 0 && CountsPositive(l)
    ensures l.laneId == laneId && l.ingressId == ingressId && l.workerId == workerId && l.prio == prio
    ensures l.numTasks == 0 && l.load == 0
  {
    Lane(laneId, ingressId, workerId, 0, 0, map[], 0, prio)
  }

  predicate IsActive(l: Lane, id: TaskId) { id in l.active }

  /** Every stored reference count is at least one. */
  predicate CountsPositive(l: Lane) { forall id | id in l.active :: l.active[id] >= 1 }

  /** `SetActive`: inserts a count of 1 for a new id, increments an existing one. */
  function SetActive(l: Lane, id: TaskId): (r: Lane)
    ensures IsActive(r, id)
    ensures r.active[id] == if id in l.active then l.active[id] + 1 else 1
    ensures r.active.Keys == l.active.Keys + {id}
    ensures forall x | x in l.active && x != id :: r.active[x] == l.active[x]
    ensures CountsPositive(l) ==> CountsPositive(r)
    ensures r.(active := l.active) == l
  {
    if !IsActive(l, id) then l.(active := l.active[id := 1])
    else l.(active := l.active[id := l.active[id] + 1])
  }

  /** `UnsetActive`: decrements a present id's count and erases it at zero;
      an absent id leaves the lane unchanged. */
  function UnsetActive(l: Lane, id: TaskId): (r: Lane)
    requires CountsPositive(l)
    ensures id !in l.active ==> r == l
    ensures id in l.active && l.active[id] == 1 ==> r.active == l.active - {id}
    ensures id in l.active && l.active[id] > 1 ==> r.active == l.active[id := l.active[id] - 1]
    ensures CountsPositive(r)
    ensures r.(active := l.active) == l
  {
    if IsActive(l, id) then
      var c := l.active[id] - 1;
      if c == 0 then l.(active := l.active - {id}) else l.(active := l.active[id := c])
    else l
  }

  /** `UnsetActive` undoes `SetActive`. */
  lemma SetThenUnsetActive(l: Lane, id: TaskId)
    requires CountsPositive(l)
    ensures CountsPositive(SetActive(l, id))
    ensures UnsetActive(SetActive(l, id), id) == l
  {
    var s := SetActive(l, id);
    if id in l.active {
      assert UnsetActive(s, id).active == l.active;
    } else {
      assert UnsetActive(s, id).active == l.active;
    }
  }

  /** `GetNumActive`: the number of distinct active ids (not the sum of counts). */
  function GetNumActive(l: Lane): nat { |l.active| }

  /** Activating an id twice counts it once. */
  lemma NumActiveCountsDistinctIds(l: Lane, id: TaskId)
    ensures GetNumActive(SetActive(l, id)) == GetNumActive(l) + (if id in l.active then 0 else 1)
    ensures GetNumActive(SetActive(SetActive(l, id), id)) == GetNumActive(SetActive(l, id))
  {
    if id !in l.active {
      assert SetActive(l, id).active.Keys == l.active.Keys + {id};
    } else {
      assert SetActive(l, id).active.Keys == l.active.Keys;
    }
  }

  predicate IsPlugged(l: Lane) { l.plugCount > 0 }

  /** `SetPlugged`: adds one to the plug count. */
  function SetPlugged(l: Lane): (r: Lane)
    requires l.plugCount < SIZE_MODULUS
    ensures l.plugCount + 1 < SIZE_MODULUS ==> r.plugCount == l.plugCount + 1 && IsPlugged(r)
    ensures r.plugCount < SIZE_MODULUS
    ensures r.(plugCount := l.plugCount) == l
  {
    l.(plugCount := (l.plugCount + 1) % SIZE_MODULUS)
  }

  /** `UnsetPlugged`: subtracts one; from zero it wraps to 2^64 - 1. */
  function UnsetPlugged(l: Lane): (r: Lane)
    requires l.plugCount < SIZE_MODULUS
    ensures l.plugCount > 0 ==> r.plugCount == l.plugCount - 1
    ensures l.plugCount == 0 ==> r.plugCount == SIZE_MODULUS - 1 && IsPlugged(r)
    ensures r.plugCount < SIZE_MODULUS
    ensures r.(plugCount := l.plugCount) == l
  {
    l.(plugCount := (l.plugCount + SIZE_MODULUS - 1) % SIZE_MODULUS)
  }

  /** Plugging and unplugging are inverse in either order. */
  lemma PlugUnplugInverse(l: Lane)
    requires l.plugCount < SIZE_MODULUS
    ensures UnsetPlugged(SetPlugged(l)) == l
    ensures SetPlugged(UnsetPlugged(l)) == l
  {
  }

  /** A group of lanes with its `LaneGroupId`. */
  datatype LaneGroup = LaneGroup(id: nat, lanes: seq<Lane>)

  /** The routing part of a module (container). */
  datatype Module = Module(id: PoolId, queueId: QueueId, name: string, groups: seq<LaneGroup>)

  /** Group ids are distinct. */
  predicate GroupIdsDistinct(m: Module) {
    forall i, j | 0 <= i < j < |m.groups| :: m.groups[i].id != m.groups[j].id
  }

  predicate HasGroup(m: Module, g: nat) { exists i | 0 <= i < |m.groups| :: m.groups[i].id == g }

  /** The index of group `g` in the module. */
  function GroupIndex(m: Module, g: nat): (i: nat)
    requires HasGroup(m, g)
    ensures i < |m.groups| && m.groups[i].id == g
    ensures forall j | 0 <= j < i :: m.groups[j].id != g
    decreases |m.groups|
  {
    if m.groups[0].id == g then 0
    else 1 + GroupIndex(m.(groups := m.groups[1..]), g)
  }

  function GroupLanes(m: Module, g: nat): seq<Lane>
    requires HasGroup(m, g)
  {
    m.groups[GroupIndex(m, g)].lanes
  }

  /** The width of the `u32 hash` parameter of `GetLaneByHash`. */
  const HASH_MODULUS: nat := 0x1_0000_0000

  /** `GetLaneByHash(group, hash)`: the hash is narrowed to 32 bits by the
      parameter type, then the lane index is `hash % size` in that group.
      The group must exist and be non-empty (the code dereferences it). */
  function GetLaneByHash(m: Module, g: nat, hash: nat): (li: nat)
    requires HasGroup(m, g) && |GroupLanes(m, g)| > 0
    ensures li < |GroupLanes(m, g)|
    ensures hash < |GroupLanes(m, g)| && hash < HASH_MODULUS ==> li == hash
  {
    (hash % HASH_MODULUS) % |GroupLanes(m, g)|
  }

  /** Hashes that agree in their low 32 bits pick the same lane; when the
      lane count divides 2^32 the narrowing is invisible and the lane is
      `hash % size` of the full hash. */
  lemma GetLaneByHashNarrowing(m: Module, g: nat, hash: nat, k: nat)
    requires HasGroup(m, g) && |GroupLanes(m, g)| > 0
    ensures GetLaneByHash(m, g, hash + k * HASH_MODULUS) == GetLaneByHash(m, g, hash)
    ensures HASH_MODULUS % |GroupLanes(m, g)| == 0 ==> GetLaneByHash(m, g, hash) == hash % |GroupLanes(m, g)|
  {
    ModShift(hash, HASH_MODULUS, k);
    if HASH_MODULUS % |GroupLanes(m, g)| == 0 {
      ModOfMod(hash, HASH_MODULUS, |GroupLanes(m, g)|);
    }
  }

  /** Adding multiples of the modulus does not change a remainder. */
  lemma ModShift(x: nat, d: nat, k: nat)
    requires d > 0
    ensures (x + k * d) % d == x % d
  {
    var q, r := x / d, x % d;
    assert (q + k) * d == q * d + k * d;
    DivModUnique(x + k * d, d, q + k, r);
  }

  /** Reducing modulo a multiple of `n` first does not change the remainder mod `n`. */
  lemma ModOfMod(x: nat, d: nat, n: nat)
    requires d > 0 && n > 0 && d % n == 0
    ensures (x % d) % n == x % n
  {
    var c := d / n;
    var q, r := x / d, x % d;
    var a, b := r / n, r % n;
    assert d == c * n;
    assert x == q * d + r;
    assert r == a * n + b;
    MulRegroup(q, c, a, n);
    DivModUnique(x, n, q * c + a, b);
  }

  /** `GetLane(lane_id)`: the queue id's node field picks the group and its
      unique field is the hash. */
  function GetLane(m: Module, q: QueueId): (li: nat)
    requires HasGroup(m, q.node) && |GroupLanes(m, q.node)| > 0
    ensures li == GetLaneByHash(m, q.node, q.unique)
  {
    GetLaneByHash(m, q.node, q.unique)
  }

  /** How many of `0 .. n-1` leave remainder `i` modulo `size`. */
  function HashesOnLane(n: nat, size: nat, i: nat): nat
    requires size > 0
  {
    if n == 0 then 0 else HashesOnLane(n - 1, size, i) + (if (n - 1) % size == i then 1 else 0)
  }

  /** Over `hash = 0 .. n-1`, how many hashes `GetLaneByHash` sends to lane
      `i` of group `g`. */
  function LaneHits(m: Module, g: nat, n: nat, i: nat): nat
    requires HasGroup(m, g) && |GroupLanes(m, g)| > 0
  {
    if n == 0 then 0 else LaneHits(m, g, n - 1, i) + (if GetLaneByHash(m, g, n - 1) == i then 1 else 0)
  }

  /** Below 2^32 the narrowing is the identity, so the lanes chosen for
      `0 .. n-1` are their remainders. */
  lemma {:induction false} LaneHitsAreRemainders(m: Module, g: nat, n: nat, i: nat)
    requires HasGroup(m, g) && |GroupLanes(m, g)| > 0 && n <= HASH_MODULUS
    ensures LaneHits(m, g, n, i) == HashesOnLane(n, |GroupLanes(m, g)|, i)
  {
    if n > 0 {
      LaneHitsAreRemainders(m, g, n - 1, i);
      assert (n - 1) % HASH_MODULUS == n - 1;
    }
  }

  /** Euclidean division by a positive divisor has a unique quotient and remainder. */
  lemma DivModUnique(x: nat, d: nat, q: nat, r: nat)
    requires d > 0 && r < d && x == q * d + r
    ensures x / d == q && x % d == r
  {
    var k := x / d - q;
    assert k * d == r - x % d;
    MulStep(k, d);
  }

  /** `q * (c * n) + a * n` regrouped as one multiple of `n`. */
  lemma MulRegroup(q: nat, c: nat, a: nat, n: nat)
    ensures q * (c * n) + a * n == (q * c + a) * n
  {
  }

  /** A multiple of `d` strictly between `-d` and `d` is zero. */
  lemma MulStep(k: int, d: nat)
    requires d > 0 && -(d as int) < k * d < d
    ensures k == 0
  {
    assert k >= 1 ==> k * d == (k - 1) * d + d;
    assert k >= 1 ==> (k - 1) * d >= 0;
    assert k <= -1 ==> k * d == (k + 1) * d - d;
    assert k <= -1 ==> (k + 1) * d <= 0;
  }

  /** One more hash moves the remainder to the next lane, wrapping at `size`. */
  lemma DivModStep(n: nat, size: nat)
    requires size > 0
    ensures n % size + 1 < size ==> (n + 1) / size == n / size && (n + 1) % size == n % size + 1
    ensures n % size + 1 == size ==> (n + 1) / size == n / size + 1 && (n + 1) % size == 0
  {
    var q, r := n / size, n % size;
    assert n == q * size + r;
    if r + 1 < size {
      DivModUnique(n + 1, size, q, r + 1);
    } else {
      assert n + 1 == (q + 1) * size + 0;
      DivModUnique(n + 1, size, q + 1, 0);
    }
  }

  /** Remainders spread consecutive numbers evenly: among `0 .. n-1` every
      remainder `i` below `size` occurs `n / size` times, plus one for the
      first `n % size` remainders. */
  lemma {:induction false} RemaindersBalanced(n: nat, size: nat, i: nat)
    requires size > 0 && i < size
    ensures HashesOnLane(n, size, i) == n / size + (if i < n % size then 1 else 0)
  {
    if n > 0 {
      RemaindersBalanced(n - 1, size, i);
      DivModStep(n - 1, size);
      var q, r := (n - 1) / size, (n - 1) % size;
      assert HashesOnLane(n, size, i) == q + (if i < r then 1 else 0) + (if r == i then 1 else 0);
      if r + 1 < size {
        assert n / size == q && n % size == r + 1;
      } else {
        assert n / size == q + 1 && n % size == 0;
      }
    }
  }

  /** Hash routing spreads consecutive hashes evenly: over the hashes
      `0 .. n-1` (all within the `u32` range) lane `i` of a group of `size`
      lanes is chosen `n / size` times, plus once more for the first
      `n % size` lanes. */
  lemma HashRoutingBalanced(m: Module, g: nat, n: nat, i: nat)
    requires HasGroup(m, g) && i < |GroupLanes(m, g)| && n <= HASH_MODULUS
    ensures var size := |GroupLanes(m, g)|;
            LaneHits(m, g, n, i) == n / size + (if i < n % size then 1 else 0)
  {
    LaneHitsAreRemainders(m, g, n, i);
    RemaindersBalanced(n, |GroupLanes(m, g)|, i);
  }

  /** The load-order relation is a strict less-than. */
  ghost predicate StrictLess(less: (nat, nat) -> bool) {
    forall a: nat, b: nat :: less(a, b) <==> a < b
  }

  /** Lane `r` has minimal load and no earlier lane has that load. */
  ghost predicate IsFirstLeast(lanes: seq<Lane>, r: nat) {
    && r < |lanes|
    && (forall j | 0 <= j < |lanes| :: lanes[r].load <= lanes[j].load)
    && (forall j | 0 <= j < r :: lanes[j].load > lanes[r].load)
  }

  /** `GetLeastLoadedLane(group, func)`: scans from lane 0 and moves to a lane
      whenever `func(lane.load, least.load)` holds. With a strict less-than it
      returns the first lane of minimal load. */
  method GetLeastLoadedLane(m: Module, g: nat, less: (nat, nat) -> bool) returns (r: nat)
    requires HasGroup(m, g) && |GroupLanes(m, g)| > 0
    ensures r < |GroupLanes(m, g)|
    ensures StrictLess(less) ==> IsFirstLeast(GroupLanes(m, g), r)
  {
    var lanes := GroupLanes(m, g);
    r := 0;
    var i := 0;
    while i < |lanes|
      invariant 0 <= i <= |lanes|
      invariant r < |lanes| && (r == 0 || r < i)
      invariant StrictLess(less) ==> forall j | 0 <= j < i :: lanes[r].load <= lanes[j].load
      invariant StrictLess(less) ==> forall j | 0 <= j < r :: lanes[j].load > lanes[r].load
    {
      if less(lanes[i].load, lanes[r].load) {
        r := i;
      }
      i := i + 1;
    }
  }

  /** Applies `f` to every lane of every group. */
  function MapLanes(m: Module, f: Lane -> Lane): (r: Module)
    ensures |r.groups| == |m.groups|
    ensures forall i | 0 <= i < |m.groups| ::
              r.groups[i].id == m.groups[i].id && |r.groups[i].lanes| == |m.groups[i].lanes|
              && forall j | 0 <= j < |m.groups[i].lanes| :: r.groups[i].lanes[j] == f(m.groups[i].lanes[j])
    ensures r.(groups := m.groups) == m
  {
    m.(groups := seq(|m.groups|, i requires 0 <= i < |m.groups| =>
          LaneGroup(m.groups[i].id, seq(|m.groups[i].lanes|, j requires 0 <= j < |m.groups[i].lanes| => f(m.groups[i].lanes[j])))))
  }

  /** Every plug count is a valid `size_t`. */
  predicate PlugCountsBounded(m: Module) {
    forall i, j | 0 <= i < |m.groups| && 0 <= j < |m.groups[i].lanes| :: m.groups[i].lanes[j].plugCount < SIZE_MODULUS
  }

  function UnsetPluggedAny(l: Lane): Lane {
    l.(plugCount := (l.plugCount + SIZE_MODULUS - 1) % SIZE_MODULUS)
  }

  function SetPluggedAny(l: Lane): Lane {
    l.(plugCount := (l.plugCount + 1) % SIZE_MODULUS)
  }

  /** `PlugAllLanes` as written: it calls `UnsetPlugged` on every lane. */
  function PlugAllLanes(m: Module): (r: Module)
    requires PlugCountsBounded(m)
    ensures PlugCountsBounded(r)
    ensures |r.groups| == |m.groups| && forall i | 0 <= i < |m.groups| :: |r.groups[i].lanes| == |m.groups[i].lanes|
    ensures forall i, j | 0 <= i < |m.groups| && 0 <= j < |m.groups[i].lanes| ::
              r.groups[i].lanes[j] == UnsetPlugged(m.groups[i].lanes[j])
  {
    MapLanes(m, UnsetPluggedAny)
  }

  /** `UnplugAllLanes`: `UnsetPlugged` on every lane. */
  function UnplugAllLanes(m: Module): (r: Module)
    requires PlugCountsBounded(m)
    ensures PlugCountsBounded(r)
    ensures |r.groups| == |m.groups| && forall i | 0 <= i < |m.groups| :: |r.groups[i].lanes| == |m.groups[i].lanes|
    ensures forall i, j | 0 <= i < |m.groups| && 0 <= j < |m.groups[i].lanes| ::
              r.groups[i].lanes[j] == UnsetPlugged(m.groups[i].lanes[j])
  {
    MapLanes(m, UnsetPluggedAny)
  }

  /** `PlugAllLanes` as its name promises: `SetPlugged` on every lane. */
  function PlugAllLanesIntended(m: Module): (r: Module)
    requires PlugCountsBounded(m)
    ensures PlugCountsBounded(r)
    ensures |r.groups| == |m.groups| && forall i | 0 <= i < |m.groups| :: |r.groups[i].lanes| == |m.groups[i].lanes|
    ensures forall i, j | 0 <= i < |m.groups| && 0 <= j < |m.groups[i].lanes| ::
              r.groups[i].lanes[j] == SetPlugged(m.groups[i].lanes[j])
  {
    MapLanes(m, SetPluggedAny)
  }

  /** Plugging then unplugging all lanes restores every lane. */
  lemma PlugAllThenUnplugAllRestores(m: Module)
    requires PlugCountsBounded(m)
    ensures UnplugAllLanes(PlugAllLanesIntended(m)) == m
  {
    var r := UnplugAllLanes(PlugAllLanesIntended(m));
    assert |r.groups| == |m.groups|;
    forall i | 0 <= i < |m.groups|
      ensures r.groups[i] == m.groups[i]
    {
      assert r.groups[i].lanes == m.groups[i].lanes;
    }
  }

  /** As written, `PlugAllLanes` unplugs a lane plugged once, and on an
      unplugged lane it wraps the count so that unplugging never clears it. */
  lemma PlugAllLanesUnplugs(l: Lane)
    requires l.plugCount == 1
    ensures var m := Module(NullId, NullId, "", [LaneGroup(0, [l])]);
            !IsPlugged(PlugAllLanes(m).groups[0].lanes[0])
            && IsPlugged(PlugAllLanesIntended(m).groups[0].lanes[0])
            && IsPlugged(UnplugAllLanes(PlugAllLanes(m.(groups := [LaneGroup(0, [l.(plugCount := 0)])]))).groups[0].lanes[0])
  {
  }

  /** The active-task count summed over a sequence of lanes. */
  function SumLanes(lanes: seq<Lane>): nat {
    if |lanes| == 0 then 0 else SumLanes(lanes[..|lanes| - 1]) + GetNumActive(lanes[|lanes| - 1])
  }

  /** The active-task count summed over a sequence of groups. */
  function SumGroups(groups: seq<LaneGroup>): nat {
    if |groups| == 0 then 0 else SumGroups(groups[..|groups| - 1]) + SumLanes(groups[|groups| - 1].lanes)
  }

  /** `GetNumActiveTasks`: the number of active ids of every lane of every group. */
  method GetNumActiveTasks(m: Module) returns (n: nat)
    ensures n == SumGroups(m.groups)
  {
    n := 0;
    var i := 0;
    while i < |m.groups|
      invariant 0 <= i <= |m.groups|
      invariant n == SumGroups(m.groups[..i])
    {
      var lanes := m.groups[i].lanes;
      var j := 0;
      var inner := 0;
      while j < |lanes|
        invariant 0 <= j <= |lanes|
        invariant inner == SumLanes(lanes[..j])
      {
        assert lanes[..j + 1][..j] == lanes[..j];
        inner := inner + GetNumActive(lanes[j]);
        j := j + 1;
      }
      assert lanes[..j] == lanes;
      assert m.groups[..i + 1][..i] == m.groups[..i];
      n := n + inner;
      i := i + 1;
    }
    assert m.groups[..i] == m.groups;
  }

  /** Replacing one lane changes the lane sum by the difference of the two. */
  lemma {:induction false} SumLanesUpdate(lanes: seq<Lane>, j: nat, l: Lane)
    requires j < |lanes|
    ensures SumLanes(lanes[j := l]) + GetNumActive(lanes[j]) == SumLanes(lanes) + GetNumActive(l)
    decreases |lanes|
  {
    var k := |lanes| - 1;
    if j < k {
      assert lanes[j := l][..k] == lanes[..k][j := l];
      SumLanesUpdate(lanes[..k], j, l);
    } else {
      assert lanes[j := l][..k] == lanes[..k];
    }
  }

  /** Replacing one group changes the total by the difference of the two. */
  lemma {:induction false} SumGroupsUpdate(groups: seq<LaneGroup>, i: nat, g: LaneGroup)
    requires i < |groups|
    ensures SumGroups(groups[i := g]) + SumLanes(groups[i].lanes) == SumGroups(groups) + SumLanes(g.lanes)
    decreases |groups|
  {
    var k := |groups| - 1;
    if i < k {
      assert groups[i := g][..k] == groups[..k][i := g];
      SumGroupsUpdate(groups[..k], i, g);
    } else {
      assert groups[i := g][..k] == groups[..k];
    }
  }

  /** Marking a task active on one lane raises the module's active-task count
      by one exactly when that lane did not already hold the id. */
  lemma SetActiveRaisesTotal(m: Module, i: nat, j: nat, id: TaskId)
    requires i < |m.groups| && j < |m.groups[i].lanes|
    ensures var l := m.groups[i].lanes[j];
            var g := m.groups[i].(lanes := m.groups[i].lanes[j := SetActive(l, id)]);
            SumGroups(m.groups[i := g]) == SumGroups(m.groups) + (if id in l.active then 0 else 1)
  {
    var l := m.groups[i].lanes[j];
    var g := m.groups[i].(lanes := m.groups[i].lanes[j := SetActive(l, id)]);
    SumLanesUpdate(m.groups[i].lanes, j, SetActive(l, id));
    NumActiveCountsDistinctIds(l, id);
    SumGroupsUpdate(m.groups, i, g);
  }
}
