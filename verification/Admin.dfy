/** The admin task messages of `chimaera_admin_tasks.h`: what each emplace
    constructor sets, which fields `CopyStart` copies, and which fields travel
    in `SerializeStart` (the call) and `SerializeEnd` (the return). A message
    is a base `Task` plus a payload of the struct's own fields. */
module Admin {
  import opened Wrappers
  import opened Bits
  import opened Ids
  import opened TaskModel
  import TaskTraits

  /** The admin methods these structs use. */
  datatype AdminMethod =
    | RegisterTaskLib | DestroyTaskLib | CreateTaskState | GetTaskStateId
    | DestroyTaskState | StopRuntime | SetWorkOrchQueuePolicy | SetWorkOrchProcPolicy
    | Flush | GetDomainSize | UpdateDomain

  /** The numeric method id. Admin methods follow the generic methods
      `kCreate..kUpdate`; the exact values live in a header outside this
      model, and only their distinctness matters here. */
  function MethodNumber(m: AdminMethod): (n: nat)
    ensures n >= kMethodLast
  {
    kMethodLast + match m
      case RegisterTaskLib => 0 case DestroyTaskLib => 1 case CreateTaskState => 2
      case GetTaskStateId => 3 case DestroyTaskState => 4 case StopRuntime => 5
      case SetWorkOrchQueuePolicy => 6 case SetWorkOrchProcPolicy => 7
      case Flush => 8 case GetDomainSize => 9 case UpdateDomain => 10
  }

  /** Different admin methods have different ids, and none collides with a
      generic method id. */
  lemma MethodNumberInjective(a: AdminMethod, b: AdminMethod)
    ensures MethodNumber(a) == MethodNumber(b) ==> a == b
    ensures MethodNumber(a) > kUpdate
  {
  }

  /** The phases of `CreateTaskStateTask`; `kLast` is deliberately `kIdAllocStart`. */
  const kIdAllocStart: nat := 0
  const kIdAllocWait: nat := 1
  const kStateCreate: nat := 2
  const kLast: nat := 0

  /** The struct-specific fields of each admin message. */
  datatype Payload =
    | LibPayload(libName: string)
    | CreatePayload(libName: string, stateName: string, scopeQuery: DomainQuery, root: bool, ctx: CreateContext)
    | GetIdPayload(stateName: string, id: TaskStateId)
    | DestroyStatePayload(id: TaskStateId)
    | StopPayload
    | PolicyPayload(policyId: TaskStateId)
    | FlushPayload(workDone: nat)
    | DomainSizePayload(domId: SubDomainId, domSize: nat)
    | UpdateDomainPayload(ops: seq<UpdateDomainInfo>)

  /** An admin message: the task base and its struct fields. */
  datatype AdminTask = AdminTask(base: Task, payload: Payload)

  /** The payload shape each method's struct has. */
  predicate Shaped(m: AdminMethod, p: Payload) {
    match m
    case RegisterTaskLib | DestroyTaskLib => p.LibPayload?
    case CreateTaskState => p.CreatePayload?
    case GetTaskStateId => p.GetIdPayload?
    case DestroyTaskState => p.DestroyStatePayload?
    case StopRuntime => p.StopPayload?
    case SetWorkOrchQueuePolicy | SetWorkOrchProcPolicy => p.PolicyPayload?
    case Flush => p.FlushPayload?
    case GetDomainSize => p.DomainSizePayload?
    case UpdateDomain => p.UpdateDomainPayload?
  }

  /** The `TaskFlags<...>` each struct derives from: every admin struct is
      `TF_SRL_SYM` except `GetDomainSizeTask`, which is `TF_LOCAL`. */
  function TypeFlags(m: AdminMethod): (f: Bitfield)
    ensures m == GetDomainSize <==> f == TaskTraits.TF_LOCAL
  {
    if m == GetDomainSize then TaskTraits.TF_LOCAL else TaskTraits.TF_SRL_SYM
  }

  /** Every admin struct but `GetDomainSizeTask` is a replicable,
      symmetrically serialised type; `GetDomainSizeTask` is local only. */
  lemma AdminTypeTraits(m: AdminMethod)
    ensures m != GetDomainSize ==>
              TaskTraits.TaskFlagsAsWritten(TypeFlags(m)).replica
              && TaskTraits.TaskFlagsIntended(TypeFlags(m)).srlSymStart
              && TaskTraits.TaskFlagsIntended(TypeFlags(m)).srlSymEnd
    ensures m == GetDomainSize ==>
              TaskTraits.TaskFlagsAsWritten(TypeFlags(m)).isLocal
              && !TaskTraits.TaskFlagsAsWritten(TypeFlags(m)).replica
  {
    if m == GetDomainSize {
      TaskTraits.LocalTraits();
    } else {
      TaskTraits.SymmetricTraits();
    }
  }

  /** The common part of every emplace constructor: node, low-latency
      priority, the admin pool, the method, `task_flags_.SetBits(bits)` and
      the domain query. */
  function InitBase(t: Task, node: TaskNode, dom: DomainQuery, adminPool: PoolId,
                    m: AdminMethod, bits: Bitfield): (r: Task)
    ensures r.node == node && r.domQuery == dom && r.pool == adminPool
    ensures r.prio == kLowLatency && r.methodId == MethodNumber(m)
    ensures r.flags == t.flags + bits
    ensures r.rctx == t.rctx && r.period == t.period && r.start == t.start && r.delcnt == t.delcnt
  {
    t.(node := node, prio := kLowLatency, pool := adminPool, methodId := MethodNumber(m),
       flags := SetBits(t.flags, bits), domQuery := dom)
  }

  /** `RegisterTaskLibTaskTempl<method>`: `<0>` registers, any other value
      destroys, and no task flag is added. */
  function NewRegisterTaskLibTask(which: nat, t: Task, node: TaskNode, dom: DomainQuery,
                                  adminPool: PoolId, libName: string): (r: AdminTask)
    ensures r.base.methodId == MethodNumber(if which == 0 then RegisterTaskLib else DestroyTaskLib)
    ensures r.base.flags == t.flags && r.base.prio == kLowLatency
    ensures r.payload == LibPayload(libName)
  {
    var m := if which == 0 then RegisterTaskLib else DestroyTaskLib;
    AdminTask(InitBase(t, node, dom, adminPool, m, {}), LibPayload(libName))
  }

  /** `CreateTaskStateTask`: a low-latency coroutine; `root_` keeps its
      default `true`. */
  function NewCreateTaskStateTask(t: Task, node: TaskNode, dom: DomainQuery, adminPool: PoolId,
                                  scopeQuery: DomainQuery, stateName: string, libName: string,
                                  ctx: CreateContext): (r: AdminTask)
    ensures r.base.methodId == MethodNumber(CreateTaskState) && r.base.prio == kLowLatency
    ensures r.base.flags == t.flags + {TASK_COROUTINE}
    ensures r.payload == CreatePayload(libName, stateName, scopeQuery, true, ctx)
  {
    AdminTask(InitBase(t, node, dom, adminPool, CreateTaskState, {TASK_COROUTINE}),
              CreatePayload(libName, stateName, scopeQuery, true, ctx))
  }

  /** `GetTaskStateIdTask`: the state name in, the id out. The output field
      keeps whatever the allocated task held. */
  function NewGetTaskStateIdTask(t: Task, node: TaskNode, dom: DomainQuery, adminPool: PoolId,
                                 stateName: string, idBefore: TaskStateId): (r: AdminTask)
    ensures r.base.methodId == MethodNumber(GetTaskStateId) && r.base.flags == t.flags
    ensures r.payload == GetIdPayload(stateName, idBefore)
  {
    AdminTask(InitBase(t, node, dom, adminPool, GetTaskStateId, {}), GetIdPayload(stateName, idBefore))
  }

  /** `DestroyTaskStateTask`. */
  function NewDestroyTaskStateTask(t: Task, node: TaskNode, dom: DomainQuery, adminPool: PoolId,
                                   id: TaskStateId): (r: AdminTask)
    ensures r.base.methodId == MethodNumber(DestroyTaskState) && r.base.flags == t.flags
    ensures r.payload == DestroyStatePayload(id)
  {
    AdminTask(InitBase(t, node, dom, adminPool, DestroyTaskState, {}), DestroyStatePayload(id))
  }

  /** `StopRuntimeTask`: flushes and is fire-and-forget. */
  function NewStopRuntimeTask(t: Task, node: TaskNode, dom: DomainQuery, adminPool: PoolId): (r: AdminTask)
    ensures r.base.methodId == MethodNumber(StopRuntime)
    ensures r.base.flags == t.flags + {TASK_FLUSH, TASK_FIRE_AND_FORGET}
    ensures IsFlush(r.base) && IsFireAndForget(r.base)
    ensures r.payload == StopPayload
  {
    AdminTask(InitBase(t, node, dom, adminPool, StopRuntime, {TASK_FLUSH, TASK_FIRE_AND_FORGET}), StopPayload)
  }

  /** `SetWorkOrchestratorPolicyTask<method>`: `<0>` sets the queue policy,
      any other value the process policy. */
  function NewSetWorkOrchestratorPolicyTask(which: nat, t: Task, node: TaskNode, dom: DomainQuery,
                                            adminPool: PoolId, policyId: TaskStateId): (r: AdminTask)
    ensures r.base.methodId == MethodNumber(if which == 0 then SetWorkOrchQueuePolicy else SetWorkOrchProcPolicy)
    ensures r.base.flags == t.flags
    ensures r.payload == PolicyPayload(policyId)
  {
    var m := if which == 0 then SetWorkOrchQueuePolicy else SetWorkOrchProcPolicy;
    AdminTask(InitBase(t, node, dom, adminPool, m, {}), PolicyPayload(policyId))
  }

  /** `FlushTask`: a flushing coroutine that starts with no work done. */
  function NewFlushTask(t: Task, node: TaskNode, dom: DomainQuery, adminPool: PoolId): (r: AdminTask)
    ensures r.base.methodId == MethodNumber(Flush)
    ensures r.base.flags == t.flags + {TASK_FLUSH, TASK_COROUTINE}
    ensures IsFlush(r.base) && (IsFireAndForget(r.base) <==> IsFireAndForget(t))
    ensures r.payload == FlushPayload(0)
  {
    AdminTask(InitBase(t, node, dom, adminPool, Flush, {TASK_FLUSH, TASK_COROUTINE}), FlushPayload(0))
  }

  /** `GetDomainSizeTask`: the size output starts at zero. */
  function NewGetDomainSizeTask(t: Task, node: TaskNode, dom: DomainQuery, adminPool: PoolId,
                                domId: SubDomainId): (r: AdminTask)
    ensures r.base.methodId == MethodNumber(GetDomainSize) && r.base.flags == t.flags
    ensures r.payload == DomainSizePayload(domId, 0)
  {
    AdminTask(InitBase(t, node, dom, adminPool, GetDomainSize, {}), DomainSizePayload(domId, 0))
  }

  /** `UpdateDomainTask`. */
  function NewUpdateDomainTask(t: Task, node: TaskNode, dom: DomainQuery, adminPool: PoolId,
                               ops: seq<UpdateDomainInfo>): (r: AdminTask)
    ensures r.base.methodId == MethodNumber(UpdateDomain) && r.base.flags == t.flags
    ensures r.payload == UpdateDomainPayload(ops)
  {
    AdminTask(InitBase(t, node, dom, adminPool, UpdateDomain, {}), UpdateDomainPayload(ops))
  }

  /** The payload's input fields, with the fields a return may overwrite
      blanked (`id_`, `dom_size_`, and the `ctx_.id_` part of the INOUT
      context; `FlushTask::work_done_` is INOUT as a whole). */
  function Inputs(p: Payload): Payload {
    match p
    case CreatePayload(lib, name, scope, root, ctx) => CreatePayload(lib, name, scope, root, ctx.(id := NullId))
    case GetIdPayload(name, _) => GetIdPayload(name, NullId)
    case DomainSizePayload(d, _) => DomainSizePayload(d, 0)
    case _ => p
  }

  /** The payload's output fields (OUT and INOUT) as archive values. */
  function Outputs(p: Payload): seq<Field> {
    match p
    case CreatePayload(_, _, _, _, ctx) => [FId(ctx.id)]
    case GetIdPayload(_, id) => [FId(id)]
    case FlushPayload(w) => [FNat(w)]
    case DomainSizePayload(_, s) => [FNat(s)]
    case _ => []
  }

  /** `CopyStart(other, deep)`: the duplicate takes `other`'s input fields
      and keeps its own outputs. `GetDomainSizeTask` has no `CopyStart`; it is
      not replicable, so the duplication macros never reach it and the
      payload is left alone. */
  function CopyStart(dst: Payload, src: Payload, deep: bool): (r: Payload)
    requires dst.LibPayload? <==> src.LibPayload?
    requires dst.CreatePayload? <==> src.CreatePayload?
    requires dst.GetIdPayload? <==> src.GetIdPayload?
    requires dst.DestroyStatePayload? <==> src.DestroyStatePayload?
    requires dst.PolicyPayload? <==> src.PolicyPayload?
    requires dst.FlushPayload? <==> src.FlushPayload?
    requires dst.UpdateDomainPayload? <==> src.UpdateDomainPayload?
    requires dst.StopPayload? <==> src.StopPayload?
    ensures !src.DomainSizePayload? ==> Inputs(r) == Inputs(src)
    ensures r.GetIdPayload? ==> dst.GetIdPayload? && r.id == dst.id
    ensures src.CreatePayload? ==> r == src
    ensures src.DomainSizePayload? ==> r == dst
  {
    match src
    case LibPayload(lib) => LibPayload(lib)
    case CreatePayload(lib, name, scope, root, ctx) => CreatePayload(lib, name, scope, root, ctx)
    case GetIdPayload(name, _) => GetIdPayload(name, dst.id)
    case DestroyStatePayload(id) => DestroyStatePayload(id)
    case StopPayload => dst
    case PolicyPayload(pid) => PolicyPayload(pid)
    case FlushPayload(w) => FlushPayload(w)
    case DomainSizePayload(_, _) => dst
    case UpdateDomainPayload(ops) => UpdateDomainPayload(ops)
  }

  /** Payloads of the same struct. */
  predicate SameShape(a: Payload, b: Payload) {
    && (a.LibPayload? <==> b.LibPayload?)
    && (a.CreatePayload? <==> b.CreatePayload?)
    && (a.GetIdPayload? <==> b.GetIdPayload?)
    && (a.DestroyStatePayload? <==> b.DestroyStatePayload?)
    && (a.PolicyPayload? <==> b.PolicyPayload?)
    && (a.FlushPayload? <==> b.FlushPayload?)
    && (a.UpdateDomainPayload? <==> b.UpdateDomainPayload?)
    && (a.StopPayload? <==> b.StopPayload?)
    && (a.DomainSizePayload? <==> b.DomainSizePayload?)
  }

  /** `SerializeStart`: the call's archive. `GetDomainSizeTask` is never
      serialised and contributes nothing. */
  function SerializeStart(p: Payload): (ar: seq<Field>)
    ensures forall dst | SameShape(dst, p) && !p.DomainSizePayload? ::
              LoadStart(dst, ar).Some? && Inputs(LoadStart(dst, ar).value) == Inputs(p)
  {
    match p
    case LibPayload(lib) => [FStr(lib)]
    case CreatePayload(lib, name, scope, root, ctx) => [FStr(lib), FStr(name), FCtx(ctx), FBool(root), FDom(scope)]
    case GetIdPayload(name, _) => [FStr(name)]
    case DestroyStatePayload(id) => [FId(id)]
    case StopPayload => []
    case PolicyPayload(pid) => [FId(pid)]
    case FlushPayload(w) => [FNat(w)]
    case DomainSizePayload(_, _) => []
    case UpdateDomainPayload(ops) => [FOps(ops)]
  }

  /** `SerializeStart` on the receiving side: reads the call's archive into
      an empty message of the struct; `None` when the archive does not match. */
  function LoadStart(dst: Payload, ar: seq<Field>): (r: Option<Payload>)
    ensures r.Some? ==> SameShape(r.value, dst)
  {
    match dst
    case LibPayload(_) =>
      if |ar| == 1 && ar[0].FStr? then Some(LibPayload(ar[0].s)) else None
    case CreatePayload(_, _, _, _, _) =>
      if |ar| == 5 && ar[0].FStr? && ar[1].FStr? && ar[2].FCtx? && ar[3].FBool? && ar[4].FDom?
      then Some(CreatePayload(ar[0].s, ar[1].s, ar[4].dom, ar[3].b, ar[2].ctx)) else None
    case GetIdPayload(_, id) =>
      if |ar| == 1 && ar[0].FStr? then Some(GetIdPayload(ar[0].s, id)) else None
    case DestroyStatePayload(_) =>
      if |ar| == 1 && ar[0].FId? then Some(DestroyStatePayload(ar[0].id)) else None
    case StopPayload => if |ar| == 0 then Some(StopPayload) else None
    case PolicyPayload(_) =>
      if |ar| == 1 && ar[0].FId? then Some(PolicyPayload(ar[0].id)) else None
    case FlushPayload(_) =>
      if |ar| == 1 && ar[0].FNat? then Some(FlushPayload(ar[0].n)) else None
    case DomainSizePayload(_, _) => if |ar| == 0 then Some(dst) else None
    case UpdateDomainPayload(_) =>
      if |ar| == 1 && ar[0].FOps? then Some(UpdateDomainPayload(ar[0].ops)) else None
  }

  /** `SerializeEnd`: the return archive, exactly the output fields. */
  function SerializeEnd(p: Payload): (ar: seq<Field>)
    ensures ar == Outputs(p) || p.DomainSizePayload?
  {
    match p
    case CreatePayload(_, _, _, _, ctx) => [FId(ctx.id)]
    case GetIdPayload(_, id) => [FId(id)]
    case FlushPayload(w) => [FNat(w)]
    case _ => []
  }

  /** `SerializeEnd` on the sending side: reads the returned outputs back
      into the original message. */
  function LoadEnd(dst: Payload, ar: seq<Field>): (r: Option<Payload>)
    ensures r.Some? ==> SameShape(r.value, dst)
    ensures r.Some? && !dst.FlushPayload? ==> Inputs(r.value) == Inputs(dst)
  {
    match dst
    case CreatePayload(lib, name, scope, root, ctx) =>
      if |ar| == 1 && ar[0].FId? then Some(CreatePayload(lib, name, scope, root, ctx.(id := ar[0].id))) else None
    case GetIdPayload(name, _) =>
      if |ar| == 1 && ar[0].FId? then Some(GetIdPayload(name, ar[0].id)) else None
    case FlushPayload(_) =>
      if |ar| == 1 && ar[0].FNat? then Some(FlushPayload(ar[0].n)) else None
    case _ => if |ar| == 0 then Some(dst) else None
  }

  /** What travels in `SerializeStart` is exactly what `CopyStart` copies:
      loading a call archive into an empty message of the struct gives the
      same message as duplicating the original into it. */
  lemma SerializeStartMatchesCopyStart(dst: Payload, src: Payload, deep: bool)
    requires SameShape(dst, src) && !src.DomainSizePayload?
    ensures LoadStart(dst, SerializeStart(src)) == Some(CopyStart(dst, src, deep))
  {
  }

  /** A call delivered through `SerializeStart` carries every input field. */
  lemma SerializeStartRoundTrip(dst: Payload, src: Payload)
    requires SameShape(dst, src) && !src.DomainSizePayload?
    ensures LoadStart(dst, SerializeStart(src)).Some?
    ensures Inputs(LoadStart(dst, SerializeStart(src)).value) == Inputs(src)
  {
  }

  /** A remote call gives the caller the same outcome as running it locally:
      when the server's result differs from the message it received only in
      output fields, loading the returned archive into the caller's message
      yields the caller's inputs with the server's outputs. `CreateTaskStateTask`
      returns only `ctx_.id_`, so only that part of the context comes back. */
  lemma RemoteCallDeliversOutputs(caller: Payload, empty: Payload, result: Payload)
    requires SameShape(caller, empty) && !caller.DomainSizePayload?
    requires var received := LoadStart(empty, SerializeStart(caller));
             received.Some? && SameShape(result, received.value)
             && (!result.FlushPayload? ==> Inputs(result) == Inputs(received.value))
    ensures var back := LoadEnd(caller, SerializeEnd(result));
            && back.Some?
            && Outputs(back.value) == Outputs(result)
            && (!caller.FlushPayload? ==> Inputs(back.value) == Inputs(caller))
  {
  }

  /** Each constructor builds a message of its own struct's shape. */
  lemma ConstructorsShaped(t: Task, node: TaskNode, dom: DomainQuery, adminPool: PoolId, which: nat)
    ensures var m := if which == 0 then RegisterTaskLib else DestroyTaskLib;
            Shaped(m, NewRegisterTaskLibTask(which, t, node, dom, adminPool, "").payload)
    ensures Shaped(CreateTaskState,
                   NewCreateTaskStateTask(t, node, dom, adminPool, dom, "", "", CreateContext(NullId, 0)).payload)
    ensures Shaped(StopRuntime, NewStopRuntimeTask(t, node, dom, adminPool).payload)
    ensures Shaped(Flush, NewFlushTask(t, node, dom, adminPool).payload)
  {
  }
}
