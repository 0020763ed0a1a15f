/** Small shared vocabulary: an optional value, flag words, identifiers,
    domain queries and the abstract archive field used by serialisation. */
module Wrappers {
  /** The conventional Some/None datatype, used in place of a nullable pointer. */
  datatype Option<+T> = None | Some(value: T)
}

/** A `bitfield32_t` as the set of its bit positions (each below 32).
    `SetBits`, `UnsetBits`, `Any` and `All` mirror the bitfield methods. */
module Bits {
  type Bitfield = set<nat>

  /** The bitfield with no bit set. */
  const Empty: Bitfield := {}

  function SetBits(x: Bitfield, mask: Bitfield): Bitfield { x + mask }

  function UnsetBits(x: Bitfield, mask: Bitfield): Bitfield { x - mask }

  /** Some bit of `mask` is set in `x`. */
  predicate Any(x: Bitfield, mask: Bitfield) { x * mask != {} }

  /** Every bit of `mask` is set in `x`. */
  predicate All(x: Bitfield, mask: Bitfield) { mask <= x }

  /** On a one-bit mask, `Any` and `All` are both membership of that bit. */
  lemma OneBitMask(x: Bitfield, b: nat)
    ensures Any(x, {b}) <==> b in x
    ensures All(x, {b}) <==> b in x
  {
    if b in x {
      assert b in x * {b};
    }
  }

  /** Every position is a valid bit of a 32-bit word. */
  predicate Is32(x: Bitfield) { forall k | k in x :: k < 32 }
}

/** Identifiers, domain queries and serialisation fields shared by the runtime. */
module Ids {
  import opened Bits

  type NodeId = nat

  /** `UniqueId`: an owning node plus a counter value. The null id has node 0. */
  datatype UniqueId = UniqueId(node: NodeId, unique: nat) {
    predicate IsNull() { node == 0 }
  }

  const NullId := UniqueId(0, 0)

  type TaskId = UniqueId
  type PoolId = UniqueId
  type TaskStateId = UniqueId
  type QueueId = UniqueId

  /** The flags a domain query may carry; only `Local` and `Id` are inspected
      by the code modelled here. */
  datatype DomainFlag = Local | Id | Hash | Range | Global | Broadcast

  /** A sub-domain: a major kind and a minor index (the lane or container). */
  datatype SubDomainId = SubDomainId(major: nat, minor: nat)

  /** A routing descriptor: flags, sub-domain and selector id. */
  datatype DomainQuery = DomainQuery(flags: set<DomainFlag>, sub: SubDomainId, selId: nat)

  /** The outcome of resolving a domain query: a node and a local query. */
  datatype ResolvedDomainQuery = Resolved(node: NodeId, dom: DomainQuery)

  /** The creation context of a pool; only `id` is inspected here. */
  datatype CreateContext = CreateContext(id: TaskStateId, other: nat)

  /** One operation of a domain update; its contents are not inspected. */
  datatype UpdateDomainInfo = UpdateDomainInfo(op: nat, arg: nat)

  /** One value written to, or read from, an archive. */
  datatype Field =
    | FId(id: UniqueId)
    | FNat(n: nat)
    | FInt(i: int)
    | FFlags(bits: Bitfield)
    | FDom(dom: DomainQuery)
    | FStr(s: string)
    | FBool(b: bool)
    | FCtx(ctx: CreateContext)
    | FOps(ops: seq<UpdateDomainInfo>)
}
