/** The compile-time `TaskFlags<FLAGS>` traits of `task.h` and the `TF_*`
    constants they are built from. The `TF_SRL_SYM_START`/`TF_SRL_SYM_END`
    macros expand without parentheses, so `FLAGS & TF_SRL_SYM_START` reads as
    `(FLAGS & bit 0) | TF_REPLICA`; `TaskFlagsAsWritten` keeps that reading. */
module TaskTraits {
  import opened Bits

  const TF_REPLICA: Bitfield := {31}
  /** The expansion of `TF_SRL_SYM_START` / `TF_SRL_ASYM_START` / `TF_SRL_SYM_END`
      / `TF_SRL_ASYM_END` used as a whole value. */
  const TF_SRL_SYM_START: Bitfield := {0} + TF_REPLICA
  const TF_SRL_ASYM_START: Bitfield := {1} + TF_REPLICA
  const TF_SRL_SYM_END: Bitfield := {2} + TF_REPLICA
  const TF_SRL_ASYM_END: Bitfield := {3} + TF_REPLICA
  const TF_SRL_SYM: Bitfield := TF_SRL_SYM_START + TF_SRL_SYM_END
  const TF_SRL_ASYM: Bitfield := TF_SRL_ASYM_START + TF_SRL_ASYM_END
  const TF_LOCAL: Bitfield := {5}
  const TF_MONITOR: Bitfield := {6}
  const TF_CMPGRP: Bitfield := {7}

  /** The boolean traits a task type inherits from `TaskFlags<FLAGS>`. */
  datatype Traits = Traits(
    isLocal: bool, supportsSrl: bool, srlSymStart: bool, srlSymEnd: bool,
    replica: bool, monitor: bool, cmpgrp: bool)

  /** `x != 0` of a bitfield expression, the conversion to `bool`. */
  predicate NonZero(x: Bitfield) { x != {} }

  /** `TaskFlags<FLAGS>` as the macros expand: `SRL_SYM_START` is
      `(FLAGS & bit0) | TF_REPLICA` and `SRL_SYM_END` is `(FLAGS & bit2) | TF_REPLICA`. */
  function TaskFlagsAsWritten(flags: Bitfield): (t: Traits)
    ensures t.srlSymStart && t.srlSymEnd
    ensures t.replica <==> 31 in flags
    ensures t.isLocal <==> 5 in flags
    ensures t.supportsSrl <==> (exists k :: k in flags && k in {0, 1, 2, 3, 31})
  {
    assert 5 in flags ==> 5 in flags * TF_LOCAL;
    Traits(
      isLocal := NonZero(flags * TF_LOCAL),
      supportsSrl := NonZero(flags * (TF_SRL_SYM + TF_SRL_ASYM)),
      srlSymStart := NonZero(flags * {0} + TF_REPLICA),
      srlSymEnd := NonZero(flags * {2} + TF_REPLICA),
      replica := NonZero(flags * TF_REPLICA),
      monitor := NonZero(flags * TF_MONITOR),
      cmpgrp := NonZero(flags * TF_CMPGRP))
  }

  /** The traits with `SRL_SYM_START`/`SRL_SYM_END` testing their own bit, as
      the macro names promise. */
  function TaskFlagsIntended(flags: Bitfield): (t: Traits)
    ensures t.srlSymStart <==> 0 in flags
    ensures t.srlSymEnd <==> 2 in flags
    ensures t.(srlSymStart := true, srlSymEnd := true) == TaskFlagsAsWritten(flags)
  {
    var w := TaskFlagsAsWritten(flags);
    w.(srlSymStart := NonZero(flags * {0}), srlSymEnd := NonZero(flags * {2}))
  }

  /** Every `TF_SRL_*` value carries `TF_REPLICA`, so a task type whose flags
      include any of them supports replication. */
  lemma SerializationImpliesReplica(flags: Bitfield, srl: Bitfield)
    requires srl in {TF_SRL_SYM_START, TF_SRL_ASYM_START, TF_SRL_SYM_END, TF_SRL_ASYM_END, TF_SRL_SYM, TF_SRL_ASYM}
    requires srl <= flags
    ensures TaskFlagsAsWritten(flags).replica
    ensures TaskFlagsAsWritten(flags).supportsSrl
  {
    assert 31 in srl;
    assert 31 in flags * TF_REPLICA;
  }

  /** `TaskFlags<TF_LOCAL>` is local, not serialisable and not replicable. */
  lemma LocalTraits()
    ensures TaskFlagsAsWritten(TF_LOCAL).isLocal
    ensures !TaskFlagsAsWritten(TF_LOCAL).supportsSrl
    ensures !TaskFlagsAsWritten(TF_LOCAL).replica
    ensures !TaskFlagsIntended(TF_LOCAL).srlSymStart
  {
    assert 5 in TF_LOCAL * TF_LOCAL;
    assert TF_LOCAL * (TF_SRL_SYM + TF_SRL_ASYM) == {};
  }

  /** `TaskFlags<TF_SRL_SYM>` (every admin message) is replicable and uses
      `SerializeStart`/`SerializeEnd`, under either reading. */
  lemma SymmetricTraits()
    ensures TaskFlagsAsWritten(TF_SRL_SYM).replica
    ensures TaskFlagsIntended(TF_SRL_SYM).srlSymStart && TaskFlagsIntended(TF_SRL_SYM).srlSymEnd
    ensures !TaskFlagsAsWritten(TF_SRL_SYM).isLocal
  {
    assert 31 in TF_SRL_SYM * TF_REPLICA;
    assert 0 in TF_SRL_SYM && 2 in TF_SRL_SYM;
  }

  /** The macro reading makes a local, never-serialised task type claim
      `SRL_SYM_START` and `SRL_SYM_END`; the intended traits do not. */
  lemma SrlSymStartAlwaysTrue()
    ensures TaskFlagsAsWritten(TF_LOCAL).srlSymStart && TaskFlagsAsWritten(TF_LOCAL).srlSymEnd
    ensures !TaskFlagsIntended(TF_LOCAL).srlSymStart && !TaskFlagsIntended(TF_LOCAL).srlSymEnd
    ensures TaskFlagsAsWritten(TF_SRL_ASYM).srlSymStart && !TaskFlagsIntended(TF_SRL_ASYM).srlSymStart
  {
  }
}
