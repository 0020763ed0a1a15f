/** The coroutine mutex of `comutex.h`: reentrant for the tasks of one
    task-graph root, parking tasks of every other root in a per-root FIFO
    queue. A yield is modelled as "the task is parked"; waking a parked task
    is reported as the sequence of tasks signalled. */
module CoMutexModel {
  import opened Ids
  import opened TaskModel

  const SIZE_MODULUS: nat := 0x1_0000_0000_0000_0000

  /** `root_`, `rep_` (a `size_t`) and `blocked_map_`. */
  datatype CoMutex = CoMutex(root: TaskId, rep: nat, blocked: map<TaskId, seq<TaskRef>>)

  /** `rep_` is a valid `size_t`. */
  predicate Bounded(m: CoMutex) { m.rep < SIZE_MODULUS }

  /** The constructor: no owner, no repetition, nobody waiting. */
  function NewCoMutex(): (m: CoMutex)
    ensures m.root.IsNull() && m.rep == 0 && |m.blocked| == 0 && Bounded(m)
  {
    CoMutex(NullId, 0, map[])
  }

  /** The result of `Lock`: the mutex, the (possibly blocked) task, and
      whether the task was parked rather than admitted. */
  datatype LockResult = LockResult(mutex: CoMutex, task: Task, parked: bool)

  /** Whether a task of root `r` enters without waiting. */
  predicate Admits(m: CoMutex, r: TaskId) { m.root.IsNull() || m.root == r }

  /** `Lock(task, rctx)`: a task whose root owns the mutex, or any task when
      nobody owns it, enters and takes one more repetition; any other task is
      blocked with count 1 and appended to its root's wait queue. */
  function Lock(m: CoMutex, t: Task, tref: TaskRef): (res: LockResult)
    ensures Admits(m, t.node.root) <==> !res.parked
    ensures !res.parked ==>
              res.mutex == m.(root := t.node.root, rep := (m.rep + 1) % SIZE_MODULUS) && res.task == t
    ensures res.parked ==>
              && res.mutex.root == m.root && res.mutex.rep == m.rep
              && res.task == SetBlocked(t, 1)
              && res.mutex.blocked.Keys == m.blocked.Keys + {t.node.root}
              && res.mutex.blocked[t.node.root]
                 == (if t.node.root in m.blocked then m.blocked[t.node.root] else []) + [tref]
              && forall k | k in m.blocked && k != t.node.root :: res.mutex.blocked[k] == m.blocked[k]
    ensures Bounded(m) ==> Bounded(res.mutex)
  {
    var r := t.node.root;
    if Admits(m, r) then
      LockResult(m.(root := r, rep := (m.rep + 1) % SIZE_MODULUS), t, false)
    else
      var queue := if r in m.blocked then m.blocked[r] else [];
      LockResult(m.(blocked := m.blocked[r := queue + [tref]]), SetBlocked(t, 1), true)
  }

  /** The result of `Unlock`: the mutex and the tasks signalled, in order. */
  datatype UnlockResult = UnlockResult(mutex: CoMutex, signalled: seq<TaskRef>)

  /** `rep_ - 1` on a `size_t`. */
  function Decrement(rep: nat): (r: nat)
    requires rep < SIZE_MODULUS
    ensures r < SIZE_MODULUS
    ensures rep > 0 ==> r + 1 == rep
    ensures rep == 0 ==> r == SIZE_MODULUS - 1
  {
    (rep + SIZE_MODULUS - 1) % SIZE_MODULUS
  }

  /** `Unlock()` as written: takes one repetition off and clears the owner when
      none remain; then, if anybody waits, signals the whole queue of one root
      (`first`, the key the hash map yields first), adds one repetition per
      signalled task and erases that key. The owner is not set to the
      released root, and waiters are released even when repetitions remain. */
  function Unlock(m: CoMutex, first: TaskId): (res: UnlockResult)
    requires Bounded(m)
    requires |m.blocked| > 0 ==> first in m.blocked
    ensures Bounded(res.mutex)
    ensures |m.blocked| == 0 ==>
              res.signalled == [] && res.mutex.blocked == m.blocked
              && res.mutex.rep == Decrement(m.rep)
              && (res.mutex.root.IsNull() <==> (m.root.IsNull() || m.rep == 1))
              && (m.rep != 1 ==> res.mutex.root == m.root)
    ensures |m.blocked| > 0 ==>
              res.signalled == m.blocked[first] && res.mutex.blocked == m.blocked - {first}
              && res.mutex.rep == (Decrement(m.rep) + |m.blocked[first]|) % SIZE_MODULUS
              && res.mutex.root == (if m.rep == 1 then NullId else m.root)
  {
    var rep := Decrement(m.rep);
    var root := if rep == 0 then NullId else m.root;
    if |m.blocked| == 0 then
      UnlockResult(CoMutex(root, rep, m.blocked), [])
    else
      var queue := m.blocked[first];
      UnlockResult(CoMutex(root, (rep + |queue|) % SIZE_MODULUS, m.blocked - {first}), queue)
  }

  /** An admitted `Lock` followed by an `Unlock` with nobody waiting restores
      the mutex exactly (the pairing `ScopedCoMutex` relies on). */
  lemma LockUnlockRestores(m: CoMutex, t: Task, tref: TaskRef, first: TaskId)
    requires Bounded(m) && m.rep + 1 < SIZE_MODULUS && |m.blocked| == 0
    requires !t.node.root.IsNull()
    requires m.rep == 0 ==> m.root == NullId
    requires m.rep > 0 ==> !m.root.IsNull()
    requires !Lock(m, t, tref).parked
    ensures Unlock(Lock(m, t, tref).mutex, first).mutex == m
  {
  }

  /** Two tasks of the same root parked one after the other wait in arrival order. */
  lemma ParkedInFifoOrder(m: CoMutex, t1: Task, t2: Task, ref1: TaskRef, ref2: TaskRef)
    requires t1.node.root == t2.node.root && !Admits(m, t1.node.root)
    ensures var m1 := Lock(m, t1, ref1).mutex;
            var m2 := Lock(m1, t2, ref2).mutex;
            Lock(m, t1, ref1).parked && Lock(m1, t2, ref2).parked
            && m2.blocked[t1.node.root]
               == (if t1.node.root in m.blocked then m.blocked[t1.node.root] else []) + [ref1, ref2]
  {
  }

  /** Where a `ScopedCoMutex` scope stands: suspended in the constructor
      (the task was parked and yielded) or run to its destructor. */
  datatype ScopeResult =
    | Suspended(mutex: CoMutex, task: Task)
    | Released(mutex: CoMutex, signalled: seq<TaskRef>)

  /** `ScopedCoMutex`: the constructor locks. A parked task yields inside
      `Lock`, so its scope stays suspended until it is woken; an admitted task
      runs its scope and the destructor unlocks. */
  function ScopedCoMutex(m: CoMutex, t: Task, tref: TaskRef, first: TaskId): (res: ScopeResult)
    requires Bounded(m)
    requires |m.blocked| > 0 ==> first in m.blocked
    ensures Bounded(res.mutex)
    ensures res.Suspended? <==> !Admits(m, t.node.root)
    ensures res.Suspended? ==>
              && res.task == SetBlocked(t, 1)
              && res.mutex.root == m.root && res.mutex.rep == m.rep
              && res.mutex.blocked.Keys == m.blocked.Keys + {t.node.root}
              && res.mutex.blocked[t.node.root]
                 == (if t.node.root in m.blocked then m.blocked[t.node.root] else []) + [tref]
    ensures res.Released? && |m.blocked| > 0 ==>
              res.signalled == m.blocked[first] && res.mutex.blocked == m.blocked - {first}
    ensures Admits(m, t.node.root) && |m.blocked| == 0 && !t.node.root.IsNull()
            && (m.rep == 0 ==> m.root == NullId) && (m.rep > 0 ==> !m.root.IsNull())
            && m.rep + 1 < SIZE_MODULUS
            ==> res == Released(m, [])
  {
    var locked := Lock(m, t, tref);
    if locked.parked then Suspended(locked.mutex, locked.task)
    else
      var u := Unlock(locked.mutex, first);
      Released(u.mutex, u.signalled)
  }

  /** `CoMutexTable::Get(key)`: `operator[]`, which inserts a fresh mutex for
      a new key. */
  function TableGet<K>(table: map<K, CoMutex>, key: K): (res: (map<K, CoMutex>, CoMutex))
    ensures key in res.0 && res.0[key] == res.1
    ensures key in table ==> res.0 == table
    ensures key !in table ==> res.0 == table[key := NewCoMutex()]
  {
    if key in table then (table, table[key]) else (table[key := NewCoMutex()], NewCoMutex())
  }

  /** Equal keys give the same mutex, and asking again changes nothing. */
  lemma TableGetStable<K>(table: map<K, CoMutex>, key: K)
    ensures TableGet(TableGet(table, key).0, key) == TableGet(table, key)
  {
  }

  // ---------------------------------------------------------------------
  // Mutual exclusion. `holders` is the multiset of the roots of the tasks
  // currently inside the critical section.

  /** Everybody inside shares the owner root, one repetition per task inside,
      an owner exactly when somebody is inside, and no empty wait queue. */
  predicate Exclusive(m: CoMutex, holders: multiset<TaskId>) {
    && |holders| == m.rep
    && (m.rep == 0 <==> m.root.IsNull())
    && (forall h | h in holders :: h == m.root)
    && (forall k | k in m.blocked :: |m.blocked[k]| > 0 && !k.IsNull())
  }

  /** `n` copies of `x`. */
  function Copies(x: TaskId, n: nat): (s: multiset<TaskId>)
    ensures |s| == n && (n > 0 ==> x in s) && forall y | y in s :: y == x
  {
    if n == 0 then multiset{} else Copies(x, n - 1) + multiset{x}
  }

  /** `Unlock` as intended: waiters are released only when the last
      repetition goes, and the released root becomes the owner. */
  function UnlockIntended(m: CoMutex, first: TaskId): (res: UnlockResult)
    requires m.rep > 0
    requires |m.blocked| > 0 ==> first in m.blocked
    ensures m.rep > 1 ==> res.mutex == m.(rep := m.rep - 1) && res.signalled == []
    ensures m.rep == 1 && |m.blocked| == 0 ==> res.mutex == NewCoMutex() && res.signalled == []
    ensures m.rep == 1 && |m.blocked| > 0 ==>
              res.mutex == CoMutex(first, |m.blocked[first]|, m.blocked - {first})
              && res.signalled == m.blocked[first]
  {
    if m.rep > 1 then UnlockResult(m.(rep := m.rep - 1), [])
    else if |m.blocked| == 0 then UnlockResult(CoMutex(NullId, 0, m.blocked), [])
    else
      var queue := m.blocked[first];
      UnlockResult(CoMutex(first, |queue|, m.blocked - {first}), queue)
  }

  /** An admitted `Lock` by a task with a non-null root keeps mutual exclusion. */
  lemma LockKeepsExclusive(m: CoMutex, holders: multiset<TaskId>, t: Task, tref: TaskRef)
    requires Exclusive(m, holders) && m.rep + 1 < SIZE_MODULUS
    requires !t.node.root.IsNull()
    ensures var res := Lock(m, t, tref);
            Exclusive(res.mutex, if res.parked then holders else holders + multiset{t.node.root})
  {
  }

  /** The intended `Unlock` by a task inside keeps mutual exclusion; the
      released tasks are then inside. */
  lemma UnlockIntendedKeepsExclusive(m: CoMutex, holders: multiset<TaskId>, first: TaskId)
    requires Exclusive(m, holders) && m.rep > 0
    requires |m.blocked| > 0 ==> first in m.blocked
    ensures var res := UnlockIntended(m, first);
            Exclusive(res.mutex, holders - multiset{m.root} + Copies(first, |res.signalled|))
  {
    var res := UnlockIntended(m, first);
    var rest := holders - multiset{m.root};
    assert m.root in holders by {
      assert |holders| > 0;
      var h :| h in holders;
    }
    assert |rest| == m.rep - 1;
    if m.rep == 1 {
      assert rest == multiset{};
    }
  }

  /** A task entering a free mutex becomes its owner with one repetition. */
  lemma LockFreeMutex(m: CoMutex, t: Task, tref: TaskRef)
    requires m == CoMutex(NullId, m.rep, map[]) && m.rep + 1 < SIZE_MODULUS
    ensures !Lock(m, t, tref).parked
    ensures Lock(m, t, tref).mutex == CoMutex(t.node.root, m.rep + 1, map[])
  {
  }

  /** A task of another root parks on a mutex nobody else waits on, alone in
      its root's queue. */
  lemma LockParksAlone(m: CoMutex, t: Task, tref: TaskRef)
    requires !Admits(m, t.node.root) && m.blocked == map[]
    ensures Lock(m, t, tref).parked
    ensures Lock(m, t, tref).mutex == m.(blocked := map[t.node.root := [tref]])
  {
    assert t.node.root !in m.blocked && [] + [tref] == [tref];
  }

  /** As written, the last `Unlock` with one root waiting releases that root's
      queue and leaves the mutex without an owner. */
  lemma UnlockReleasesOneQueue(ra: TaskId, rb: TaskId, q: seq<TaskRef>)
    requires |q| < SIZE_MODULUS
    ensures var res := Unlock(CoMutex(ra, 1, map[rb := q]), rb);
            res.signalled == q && res.mutex == CoMutex(NullId, |q|, map[])
  {
    var m := CoMutex(ra, 1, map[rb := q]);
    assert |m.blocked| > 0 && m.blocked - {rb} == map[];
  }

  /** As written, mutual exclusion fails: `a` holds the mutex, `b` (another
      root) parks, `a` unlocks and `b` is released with the owner cleared, so
      a task of a third root `c` is admitted while `b` is inside. */
  lemma UnlockAsWrittenBreaksExclusion(ta: Task, tb: Task, tc: Task)
    requires ta.node.root == UniqueId(1, 1) && tb.node.root == UniqueId(1, 2) && tc.node.root == UniqueId(1, 3)
    ensures var m1 := Lock(NewCoMutex(), ta, 1);
            var m2 := Lock(m1.mutex, tb, 2);
            var m3 := Unlock(m2.mutex, tb.node.root);
            var m4 := Lock(m3.mutex, tc, 3);
            && !m1.parked && m2.parked && m3.signalled == [2] && !m4.parked
            && m4.mutex.rep == 2
            && !Exclusive(m4.mutex, multiset{tb.node.root, tc.node.root})
  {
    var ra, rb, rc := ta.node.root, tb.node.root, tc.node.root;
    LockFreeMutex(NewCoMutex(), ta, 1);
    var m1 := Lock(NewCoMutex(), ta, 1);
    LockParksAlone(m1.mutex, tb, 2);
    var m2 := Lock(m1.mutex, tb, 2);
    UnlockReleasesOneQueue(ra, rb, [2]);
    var m3 := Unlock(m2.mutex, rb);
    LockFreeMutex(m3.mutex, tc, 3);
    var m4 := Lock(m3.mutex, tc, 3);
    assert rb in multiset{rb, rc} && rb != m4.mutex.root;
  }

  /** The intended `Unlock` on the same run hands the mutex to `b`'s root, so
      `c` parks. */
  lemma UnlockIntendedKeepsOutThirdRoot(ta: Task, tb: Task, tc: Task)
    requires ta.node.root == UniqueId(1, 1) && tb.node.root == UniqueId(1, 2) && tc.node.root == UniqueId(1, 3)
    ensures var m1 := Lock(NewCoMutex(), ta, 1);
            var m2 := Lock(m1.mutex, tb, 2);
            var m3 := UnlockIntended(m2.mutex, tb.node.root);
            var m4 := Lock(m3.mutex, tc, 3);
            m3.signalled == [2] && m3.mutex.root == tb.node.root && m4.parked
  {
    LockFreeMutex(NewCoMutex(), ta, 1);
    var m1 := Lock(NewCoMutex(), ta, 1);
    LockParksAlone(m1.mutex, tb, 2);
    var m2 := Lock(m1.mutex, tb, 2);
    assert m2.mutex.blocked - {tb.node.root} == map[];
    var m3 := UnlockIntended(m2.mutex, tb.node.root);
    assert m3.mutex == CoMutex(tb.node.root, 1, map[]);
  }
}
