/** The task registry of `task_registry.h`: the library search path, library
    registration with `exists`/`dlopen` abstracted, and the maps from state
    name to state id and from state id to the shared and per-lane states. */
module Registry {
  import opened Wrappers
  import opened Ids
  import opened TaskModel
  import Client
  import Admin

  // ---------------------------------------------------------------------
  // Search path

  /** Splits on every ':' (so `n` separators give `n + 1` pieces). */
  function Split(s: string): (pieces: seq<string>)
    ensures |pieces| >= 1
  {
    if |s| == 0 then [""]
    else
      var rest := Split(s[1..]);
      if s[0] == ':' then [""] + rest
      else [[s[0]] + rest[0]] + rest[1..]
  }

  /** Joins pieces with ':'. */
  function Join(pieces: seq<string>): string
    requires |pieces| >= 1
  {
    if |pieces| == 1 then pieces[0] else pieces[0] + ":" + Join(pieces[1..])
  }

  /** Splitting undoes joining-free text: joining the pieces of `s` gives `s` back. */
  lemma {:induction false} JoinSplit(s: string)
    ensures Join(Split(s)) == s
  {
    if |s| > 0 {
      JoinSplit(s[1..]);
      var rest := Split(s[1..]);
      if s[0] == ':' {
        assert Split(s) == [""] + rest;
        assert Join(Split(s)) == "" + ":" + Join(rest);
        assert s == [s[0]] + s[1..];
      } else {
        assert s == [s[0]] + s[1..];
        if |rest| == 1 {
          assert Join(Split(s)) == [s[0]] + rest[0];
        } else {
          assert rest == [rest[0]] + rest[1..];
          assert Join(rest) == rest[0] + ":" + Join(rest[1..]);
          assert Join(Split(s)) == ([s[0]] + rest[0]) + ":" + Join(rest[1..]);
        }
      }
    }
  }

  /** One step of `Split` on a non-empty text. */
  lemma SplitCons(s: string)
    requires |s| > 0
    ensures s[0] == ':' ==> Split(s) == [""] + Split(s[1..])
    ensures s[0] != ':' ==> Split(s) == [[s[0]] + Split(s[1..])[0]] + Split(s[1..])[1..]
  {
  }

  /** The sequence step of `SplitConcat`: gluing a character onto the first
      piece commutes with appending further pieces. */
  lemma GlueFirst(c: char, restA: seq<string>, tail: seq<string>)
    requires |restA| >= 1
    ensures [[c] + (restA + tail)[0]] + (restA + tail)[1..] == ([[c] + restA[0]] + restA[1..]) + tail
  {
    assert (restA + tail)[0] == restA[0];
    assert (restA + tail)[1..] == restA[1..] + tail;
  }

  /** Splitting `a + ":" + b` splits `a` and `b` separately. */
  lemma {:induction false} SplitConcat(a: string, b: string)
    ensures Split(a + ":" + b) == Split(a) + Split(b)
    decreases |a|
  {
    var s := a + ":" + b;
    SplitCons(s);
    if |a| == 0 {
      assert s[1..] == b;
    } else {
      assert s[0] == a[0];
      assert s[1..] == a[1..] + ":" + b;
      SplitConcat(a[1..], b);
      SplitCons(a);
      if a[0] != ':' {
        GlueFirst(a[0], Split(a[1..]), Split(b));
      }
    }
  }

  /** `std::getline(ss, dir, ':')` repeated: the pieces between separators,
      except that a final empty piece (after a trailing ':' or in an empty
      string) is not produced. */
  function GetlineSplit(s: string): (pieces: seq<string>)
  {
    DropEmptyLast(Split(s))
  }

  /** Drops the last piece when it is empty. */
  function DropEmptyLast(p: seq<string>): seq<string>
    requires |p| >= 1
  {
    if p[|p| - 1] == "" then p[..|p| - 1] else p
  }

  /** Dropping an empty last piece only concerns the last part of a concatenation. */
  lemma DropEmptyLastAppend(pa: seq<string>, pb: seq<string>)
    requires |pb| >= 1
    ensures DropEmptyLast(pa + pb) == pa + DropEmptyLast(pb)
  {
    var p := pa + pb;
    assert p[|p| - 1] == pb[|pb| - 1];
    if pb[|pb| - 1] == "" {
      assert p[..|p| - 1] == pa + pb[..|pb| - 1];
    }
  }

  /** `ServerInit`'s `lib_dirs_`: `HRUN_TASK_PATH`, then ':', then
      `LD_LIBRARY_PATH`, split by `getline`. An unset variable is empty. */
  function LibDirs(taskPath: string, ldLibraryPath: string): (dirs: seq<string>)
    ensures dirs == Split(taskPath) + GetlineSplit(ldLibraryPath)
    ensures ldLibraryPath == "" ==> dirs == Split(taskPath)
    ensures |dirs| >= 1 && dirs[0] == Split(taskPath)[0]
  {
    GetlineSplitConcat(taskPath, ldLibraryPath);
    assert Split("") == [""];
    GetlineSplit(taskPath + ":" + ldLibraryPath)
  }

  /** `getline` over `a + ":" + b` yields every piece of `a`, then the
      `getline` pieces of `b`. */
  lemma GetlineSplitConcat(a: string, b: string)
    ensures GetlineSplit(a + ":" + b) == Split(a) + GetlineSplit(b)
  {
    SplitConcat(a, b);
    DropEmptyLastAppend(Split(a), Split(b));
  }

  /** The last piece of a split is empty only when the text is empty or ends
      with ':'. */
  lemma {:induction false} LastPieceOfNonEmpty(s: string)
    requires s != "" && s[|s| - 1] != ':'
    ensures Split(s)[|Split(s)| - 1] != ""
  {
    var rest := Split(s[1..]);
    if |s| == 1 {
      assert Split(s) == [[s[0]] + ""];
    } else {
      LastPieceOfNonEmpty(s[1..]);
      assert s[1..][|s[1..]| - 1] == s[|s| - 1];
    }
  }

  /** `LibDirs` keeps the search order: joining the directories gives back
      the two variables joined with ':' (when the library path is set). */
  lemma LibDirsJoin(taskPath: string, ldLibraryPath: string)
    requires ldLibraryPath != "" && ldLibraryPath[|ldLibraryPath| - 1] != ':'
    ensures Join(LibDirs(taskPath, ldLibraryPath)) == taskPath + ":" + ldLibraryPath
  {
    SplitConcat(taskPath, ldLibraryPath);
    LastPieceOfNonEmpty(ldLibraryPath);
    JoinSplit(taskPath + ":" + ldLibraryPath);
  }

  // ---------------------------------------------------------------------
  // Registry state

  /** An allocated task state (`TaskState`): its id, name and lane. */
  datatype TaskState = TaskState(id: TaskStateId, name: string, laneId: nat)

  /** `TaskStateInfo`: the shared state and the per-lane states; `None`
      stands for a null pointer. */
  datatype StateInfo = StateInfo(shared: Option<TaskState>, lanes: map<nat, Option<TaskState>>)

  /** What a loaded library provides: the path it was loaded from. Its entry
      points (`alloc_state`, `get_task_lib_name`) are abstract. */
  datatype LibInfo = LibInfo(path: string)

  /** `TaskRegistry`. */
  datatype Registry = Registry(
    nodeId: NodeId,
    libDirs: seq<string>,
    libs: map<string, LibInfo>,
    stateIds: map<string, TaskStateId>,
    states: map<TaskStateId, StateInfo>)

  /** Every stored state belongs to the id it is stored under and every lane
      state to its lane, and no lane entry is null. */
  ghost predicate WellFormed(reg: Registry) {
    forall id | id in reg.states ::
      && (reg.states[id].shared.Some? ==> reg.states[id].shared.value.id == id)
      && (forall l | l in reg.states[id].lanes ::
            reg.states[id].lanes[l].Some?
            && reg.states[id].lanes[l].value.id == id
            && reg.states[id].lanes[l].value.laneId == l)
  }

  // ---------------------------------------------------------------------
  // Libraries

  /** What loading a library file gives: `dlopen` failed, a symbol is
      missing, or the library with the name `get_task_lib_name` reports. */
  datatype LoadOutcome = OpenFailed | NoAllocState | NoLibName | Loaded(taskLibName: string)

  /** The two candidate files in a directory, in the order they are tried. */
  function Candidates(dir: string, libName: string): (c: seq<string>)
    ensures |c| == 2
  {
    [dir + "/" + libName + ".so", dir + "/lib" + libName + ".so"]
  }

  /** The path the search settles on: in directory order, `name.so` before
      `libname.so`, the first that exists. */
  function FirstExisting(dirs: seq<string>, libName: string, exists_: string -> bool): (p: Option<string>)
    ensures p.Some? ==> exists_(p.value)
    ensures p.None? <==> forall i | 0 <= i < |dirs| :: !exists_(Candidates(dirs[i], libName)[0]) && !exists_(Candidates(dirs[i], libName)[1])
  {
    if |dirs| == 0 then None
    else
      var c := Candidates(dirs[0], libName);
      if exists_(c[0]) then Some(c[0])
      else if exists_(c[1]) then Some(c[1])
      else
        var r := FirstExisting(dirs[1..], libName, exists_);
        assert forall i | 1 <= i < |dirs| :: dirs[i] == dirs[1..][i - 1];
        r
  }

  /** `RegisterTaskLib(lib_name)`: searches the directories for the first
      existing candidate file and loads it; any failure to load it ends the
      search with `false`. On success the library is recorded under the name
      it reports, unless that name is already registered. */
  method RegisterTaskLib(reg: Registry, libName: string, exists_: string -> bool, load: string -> LoadOutcome)
    returns (reg': Registry, ok: bool)
    ensures var p := FirstExisting(reg.libDirs, libName, exists_);
            ok <==> p.Some? && load(p.value).Loaded?
    ensures !ok ==> reg' == reg
    ensures ok ==> var p := FirstExisting(reg.libDirs, libName, exists_).value;
                   var n := load(p).taskLibName;
                   reg' == reg.(libs := if n in reg.libs then reg.libs else reg.libs[n := LibInfo(p)])
  {
    var i := 0;
    while i < |reg.libDirs|
      invariant 0 <= i <= |reg.libDirs|
      invariant FirstExisting(reg.libDirs, libName, exists_) == FirstExisting(reg.libDirs[i..], libName, exists_)
    {
      var c := Candidates(reg.libDirs[i], libName);
      assert reg.libDirs[i..][1..] == reg.libDirs[i + 1..];
      var path: string;
      if exists_(c[0]) {
        path := c[0];
      } else if exists_(c[1]) {
        path := c[1];
      } else {
        i := i + 1;
        continue;
      }
      var outcome := load(path);
      if !outcome.Loaded? {
        return reg, false;
      }
      var n := outcome.taskLibName;
      reg' := reg.(libs := if n in reg.libs then reg.libs else reg.libs[n := LibInfo(path)]);
      return reg', true;
    }
    return reg, false;
  }

  /** `DestroyTaskLib(lib_name)`: forgets the library; an unknown name changes nothing. */
  function DestroyTaskLib(reg: Registry, libName: string): (r: Registry)
    ensures libName !in r.libs && r.libs == reg.libs - {libName}
    ensures r.(libs := reg.libs) == reg
  {
    reg.(libs := reg.libs - {libName})
  }

  // ---------------------------------------------------------------------
  // State ids

  /** `GetTaskStateId(name)`: the recorded id, or null. */
  function GetTaskStateId(reg: Registry, name: string): (id: TaskStateId)
    ensures name in reg.stateIds ==> id == reg.stateIds[name]
    ensures name !in reg.stateIds ==> id == NullId
  {
    if name in reg.stateIds then reg.stateIds[name] else NullId
  }

  /** `GetOrCreateTaskStateId(name)`: the recorded id, or a fresh one from
      `CreateTaskStateId` (this node, the shared counter) which is recorded.
      Returns the registry, the advanced counter and the id. */
  function GetOrCreateTaskStateId(reg: Registry, unique: nat, name: string): (res: (Registry, nat, TaskStateId))
    ensures name in reg.stateIds ==> res == (reg, unique, reg.stateIds[name])
    ensures name !in reg.stateIds ==>
              res.2 == UniqueId(reg.nodeId, unique) && res.1 == unique + 1
              && res.0 == reg.(stateIds := reg.stateIds[name := res.2])
    ensures GetTaskStateId(res.0, name) == res.2
  {
    if name in reg.stateIds then (reg, unique, reg.stateIds[name])
    else
      var (c, id) := Client.NextId(Client.IdCounter(reg.nodeId, unique));
      (reg.(stateIds := reg.stateIds[name := id]), c.unique, id)
  }

  /** A second `GetOrCreateTaskStateId` for the same name returns the same id
      and draws nothing from the counter. */
  lemma GetOrCreateStable(reg: Registry, unique: nat, name: string)
    ensures var (reg1, u1, id1) := GetOrCreateTaskStateId(reg, unique, name);
            GetOrCreateTaskStateId(reg1, u1, name) == (reg1, u1, id1)
  {
  }

  /** `GetAnyTaskState(id)`: the shared state, or null for an unknown id. */
  function GetAnyTaskState(reg: Registry, id: TaskStateId): (s: Option<TaskState>)
    ensures id !in reg.states ==> s.None?
    ensures id in reg.states ==> s == reg.states[id].shared
  {
    if id in reg.states then reg.states[id].shared else None
  }

  /** `GetAnyTaskState(name, id)`: the id recorded for the name, or the
      given id when the name is unknown, looked up as above. */
  function GetAnyTaskStateByName(reg: Registry, name: string, id: TaskStateId): (s: Option<TaskState>)
    ensures name in reg.stateIds && !reg.stateIds[name].IsNull() ==> s == GetAnyTaskState(reg, reg.stateIds[name])
    ensures name !in reg.stateIds ==> s == GetAnyTaskState(reg, id)
  {
    var byName := GetTaskStateId(reg, name);
    var key := if byName.IsNull() then id else byName;
    GetAnyTaskState(reg, key)
  }

  /** `GetTaskState(id, lane)` as written: `states_[lane]` inserts a null
      entry for a lane that has none. Returns the registry and the state. */
  function GetTaskState(reg: Registry, id: TaskStateId, lane: nat): (res: (Registry, Option<TaskState>))
    ensures id !in reg.states ==> res == (reg, None)
    ensures id in reg.states && lane in reg.states[id].lanes ==> res == (reg, reg.states[id].lanes[lane])
    ensures id in reg.states && lane !in reg.states[id].lanes ==>
              res.1.None? && id in res.0.states && lane in res.0.states[id].lanes
              && res.0.states[id].lanes[lane].None?
  {
    if id !in reg.states then (reg, None)
    else
      var info := reg.states[id];
      if lane in info.lanes then (reg, info.lanes[lane])
      else (reg.(states := reg.states[id := info.(lanes := info.lanes[lane := None])]), None)
  }

  /** `GetTaskState` as intended: a lookup that leaves the registry alone. */
  function GetTaskStateIntended(reg: Registry, id: TaskStateId, lane: nat): (s: Option<TaskState>)
    ensures id in reg.states && lane in reg.states[id].lanes ==> s == reg.states[id].lanes[lane]
    ensures id !in reg.states || lane !in reg.states[id].lanes ==> s.None?
    ensures GetTaskState(reg, id, lane).1 == s
  {
    if id in reg.states && lane in reg.states[id].lanes then reg.states[id].lanes[lane] else None
  }

  // ---------------------------------------------------------------------
  // Creating and destroying states

  /** The result of `CreateTaskState`: the registry, the creating task and
      the verdict. */
  datatype CreateResult = CreateResult(reg: Registry, task: Admin.AdminTask, ok: bool)

  /** The creating task after a failure: module-complete. */
  function Failed(t: Admin.AdminTask): (r: Admin.AdminTask)
    ensures IsModuleComplete(r.base) && r.payload == t.payload
  {
    t.(base := SetModuleComplete(t.base))
  }

  /** The creating task after one state is constructed: `ctx_.id_` set and
      module-complete cleared (`Run(kCreate)` itself is not modelled). */
  function Constructed(t: Admin.AdminTask, id: TaskStateId): (r: Admin.AdminTask)
    requires t.payload.CreatePayload?
    ensures r.payload.CreatePayload? && r.payload.ctx.id == id && !IsModuleComplete(r.base)
  {
    t.(base := UnsetModuleComplete(t.base), payload := t.payload.(ctx := t.payload.ctx.(id := id)))
  }

  /** The per-lane loop of `CreateTaskState`: a lane minor that already has
      an entry is skipped; otherwise a state is allocated (the `k`-th
      allocation of the call, which succeeds iff `allocOk(k)`) and stored. */
  function CreateLanes(reg: Registry, name: string, id: TaskStateId, t: Admin.AdminTask,
                       lanes: seq<SubDomainId>, allocOk: nat -> bool, k: nat): (res: CreateResult)
    requires id in reg.states && t.payload.CreatePayload?
    ensures id in res.reg.states
    ensures res.reg.(states := reg.states) == reg
    ensures forall x | x in reg.states && x != id :: x in res.reg.states && res.reg.states[x] == reg.states[x]
    ensures res.reg.states.Keys == reg.states.Keys
    ensures res.reg.states[id].shared == reg.states[id].shared
    ensures forall l | l in reg.states[id].lanes ::
              l in res.reg.states[id].lanes && res.reg.states[id].lanes[l] == reg.states[id].lanes[l]
    ensures forall l | l in res.reg.states[id].lanes && l !in reg.states[id].lanes ::
              res.reg.states[id].lanes[l] == Some(TaskState(id, name, l))
    ensures res.ok ==> forall i | 0 <= i < |lanes| :: lanes[i].minor in res.reg.states[id].lanes
    ensures !res.ok ==> IsModuleComplete(res.task.base)
    ensures (forall i | 0 <= i < |lanes| :: lanes[i].minor in reg.states[id].lanes) ==>
              res == CreateResult(reg, t, true)
    ensures res.task.payload.CreatePayload?
    decreases |lanes|
  {
    if |lanes| == 0 then CreateResult(reg, t, true)
    else
      var minor := lanes[0].minor;
      var info := reg.states[id];
      if minor in info.lanes then
        var res := CreateLanes(reg, name, id, t, lanes[1..], allocOk, k);
        assert forall i | 1 <= i < |lanes| :: lanes[i] == lanes[1..][i - 1];
        res
      else if !allocOk(k) then CreateResult(reg, Failed(t), false)
      else
        var reg2 := reg.(states := reg.states[id := info.(lanes := info.lanes[minor := Some(TaskState(id, name, minor))])]);
        var res := CreateLanes(reg2, name, id, Constructed(t, id), lanes[1..], allocOk, k + 1);
        assert forall i | 1 <= i < |lanes| :: lanes[i] == lanes[1..][i - 1];
        res
  }

  /** `CreateTaskState(lib, name, id, task, lanes)`: rejects a null id or an
      unknown library (task module-complete, nothing stored). For a new id it
      first stores an empty entry, then allocates the shared state (a failed
      allocation leaves the empty entry), records the name (keeping an
      existing mapping) and constructs it; then it creates every requested
      lane state that is missing. Allocation `k` of the call succeeds iff
      `allocOk(k)`. */
  function CreateTaskState(reg: Registry, libName: string, name: string, id: TaskStateId,
                           t: Admin.AdminTask, lanes: seq<SubDomainId>, allocOk: nat -> bool): (res: CreateResult)
    requires t.payload.CreatePayload?
    ensures id.IsNull() || libName !in reg.libs ==>
              res == CreateResult(reg, Failed(t), false)
    ensures !res.ok ==> IsModuleComplete(res.task.base)
    ensures res.ok ==> !id.IsNull() && libName in reg.libs && id in res.reg.states
    ensures res.ok ==> forall i | 0 <= i < |lanes| :: lanes[i].minor in res.reg.states[id].lanes
    ensures res.reg.libs == reg.libs && res.reg.libDirs == reg.libDirs && res.reg.nodeId == reg.nodeId
    ensures forall x | x in reg.states && x != id :: x in res.reg.states && res.reg.states[x] == reg.states[x]
    ensures res.reg.states.Keys <= reg.states.Keys + {id}
    ensures res.ok && id !in reg.states ==> res.reg.states[id].shared == Some(TaskState(id, name, 0))
    ensures forall n | n in reg.stateIds :: n in res.reg.stateIds && res.reg.stateIds[n] == reg.stateIds[n]
    ensures res.reg.stateIds.Keys <= reg.stateIds.Keys + {name}
    ensures res.ok && id !in reg.states && name !in reg.stateIds ==> GetTaskStateId(res.reg, name) == id
  {
    if id.IsNull() || libName !in reg.libs then CreateResult(reg, Failed(t), false)
    else if id !in reg.states then
      var reg0 := reg.(states := reg.states[id := StateInfo(None, map[])]);
      if !allocOk(0) then CreateResult(reg0, Failed(t), false)
      else
        var ids := if name in reg.stateIds then reg.stateIds else reg.stateIds[name := id];
        var reg1 := reg.(stateIds := ids, states := reg.states[id := StateInfo(Some(TaskState(id, name, 0)), map[])]);
        CreateLanes(reg1, name, id, Constructed(t, id), lanes, allocOk, 1)
    else CreateLanes(reg, name, id, t, lanes, allocOk, 0)
  }

  /** Creating again with the same id and lanes adds nothing and succeeds,
      without allocating. */
  lemma CreateTaskStateIdempotent(reg: Registry, libName: string, name: string, id: TaskStateId,
                                  t: Admin.AdminTask, lanes: seq<SubDomainId>, allocOk: nat -> bool,
                                  t2: Admin.AdminTask, allocOk2: nat -> bool)
    requires t.payload.CreatePayload? && t2.payload.CreatePayload?
    requires CreateTaskState(reg, libName, name, id, t, lanes, allocOk).ok
    ensures var r1 := CreateTaskState(reg, libName, name, id, t, lanes, allocOk).reg;
            CreateTaskState(r1, libName, name, id, t2, lanes, allocOk2) == CreateResult(r1, t2, true)
  {
  }

  /** `CreateTaskState` keeps the registry well formed, and after a success
      every requested lane holds a state of this id for that lane. */
  lemma CreateTaskStateWellFormed(reg: Registry, libName: string, name: string, id: TaskStateId,
                                  t: Admin.AdminTask, lanes: seq<SubDomainId>, allocOk: nat -> bool)
    requires t.payload.CreatePayload? && WellFormed(reg)
    ensures var res := CreateTaskState(reg, libName, name, id, t, lanes, allocOk);
            && WellFormed(res.reg)
            && (res.ok ==> forall i | 0 <= i < |lanes| ::
                  var s := res.reg.states[id].lanes[lanes[i].minor];
                  s.Some? && s.value.id == id && s.value.laneId == lanes[i].minor)
  {
    if !id.IsNull() && libName in reg.libs {
      if id !in reg.states {
        var reg0 := reg.(states := reg.states[id := StateInfo(None, map[])]);
        if allocOk(0) {
          var ids := if name in reg.stateIds then reg.stateIds else reg.stateIds[name := id];
          var reg1 := reg.(stateIds := ids, states := reg.states[id := StateInfo(Some(TaskState(id, name, 0)), map[])]);
          assert WellFormed(reg1);
          CreateLanesWellFormed(reg1, name, id, Constructed(t, id), lanes, allocOk, 1);
        } else {
          assert WellFormed(reg0);
        }
      } else {
        CreateLanesWellFormed(reg, name, id, t, lanes, allocOk, 0);
      }
    }
  }

  /** The lane loop keeps the registry well formed, and after a success every
      requested lane holds a state of this id for that lane. */
  lemma CreateLanesWellFormed(reg: Registry, name: string, id: TaskStateId, t: Admin.AdminTask,
                              lanes: seq<SubDomainId>, allocOk: nat -> bool, k: nat)
    requires id in reg.states && t.payload.CreatePayload? && WellFormed(reg)
    ensures var res := CreateLanes(reg, name, id, t, lanes, allocOk, k);
            && WellFormed(res.reg)
            && (res.ok ==> forall i | 0 <= i < |lanes| ::
                  var s := res.reg.states[id].lanes[lanes[i].minor];
                  s.Some? && s.value.id == id && s.value.laneId == lanes[i].minor)
  {
    var res := CreateLanes(reg, name, id, t, lanes, allocOk, k);
    var after := res.reg.states[id].lanes;
    assert forall l | l in after ::
             after[l].Some? && after[l].value.id == id && after[l].value.laneId == l by {
      forall l | l in after ensures after[l].Some? && after[l].value.id == id && after[l].value.laneId == l {
        if l in reg.states[id].lanes {
          assert after[l] == reg.states[id].lanes[l];
        }
      }
    }
  }

  /** `DestroyTaskState(id)`: an unknown id changes nothing; otherwise the
      name is read from the lane-0 state and both that name mapping and the
      id's entry are erased. The lane-0 state must exist (the code
      dereferences it). */
  function DestroyTaskState(reg: Registry, id: TaskStateId): (r: Registry)
    requires id in reg.states ==> 0 in reg.states[id].lanes && reg.states[id].lanes[0].Some?
    ensures id !in reg.states ==> r == reg
    ensures id in reg.states ==>
              && id !in r.states && r.states == reg.states - {id}
              && r.stateIds == reg.stateIds - {reg.states[id].lanes[0].value.name}
    ensures r.libs == reg.libs && r.libDirs == reg.libDirs && r.nodeId == reg.nodeId
  {
    if id !in reg.states then reg
    else
      var name := reg.states[id].lanes[0].value.name;
      reg.(stateIds := reg.stateIds - {name}, states := reg.states - {id})
  }

  /** Creating a state with lane 0 and destroying it removes the id and its
      name, leaving every other id as it was. */
  lemma CreateThenDestroy(reg: Registry, libName: string, name: string, id: TaskStateId,
                          t: Admin.AdminTask, allocOk: nat -> bool)
    requires t.payload.CreatePayload? && WellFormed(reg) && id !in reg.states && name !in reg.stateIds
    requires CreateTaskState(reg, libName, name, id, t, [SubDomainId(0, 0)], allocOk).ok
    ensures var r := CreateTaskState(reg, libName, name, id, t, [SubDomainId(0, 0)], allocOk).reg;
            var d := DestroyTaskState(r, id);
            d.states == reg.states && d.stateIds == reg.stateIds
  {
    var r := CreateTaskState(reg, libName, name, id, t, [SubDomainId(0, 0)], allocOk).reg;
    assert r.states[id].lanes[0] == Some(TaskState(id, name, 0));
    assert r.states - {id} == reg.states;
  }

  /** As written, looking up a lane that has no state stores a null entry,
      which a later `CreateTaskState` for that lane then skips: the call
      succeeds but the lane stays without a state. The intended lookup does
      not store anything, so the lane is created. */
  lemma GetTaskStateBlocksLaterCreate(t: Admin.AdminTask, allocOk: nat -> bool)
    requires t.payload.CreatePayload?
    ensures var id := UniqueId(1, 7);
            var reg := Registry(1, [], map["lib" := LibInfo("lib.so")], map[], map[id := StateInfo(None, map[])]);
            var looked := GetTaskState(reg, id, 3).0;
            var res := CreateTaskState(looked, "lib", "s", id, t, [SubDomainId(0, 3)], allocOk);
            var intended := CreateTaskState(reg, "lib", "s", id, t, [SubDomainId(0, 3)], allocOk);
            && WellFormed(reg) && !WellFormed(looked)
            && res.ok && GetTaskStateIntended(res.reg, id, 3).None?
            && (allocOk(0) ==> intended.ok && GetTaskStateIntended(intended.reg, id, 3) == Some(TaskState(id, "s", 3)))
  {
    var id := UniqueId(1, 7);
    var reg := Registry(1, [], map["lib" := LibInfo("lib.so")], map[], map[id := StateInfo(None, map[])]);
    var looked := GetTaskState(reg, id, 3).0;
    assert looked.states[id].lanes == map[3 := None];
  }

  /** The intended lookup never changes the registry, so it keeps it well formed. */
  lemma GetTaskStateIntendedLabelled(reg: Registry, id: TaskStateId, lane: nat)
    requires WellFormed(reg)
    ensures var s := GetTaskStateIntended(reg, id, lane);
            s.Some? ==> s.value.id == id && s.value.laneId == lane
  {
  }
}
