/**
 What the disassembler wrapper reports about one instruction (src/disasm_wrapper.h), the
 patcher's predicates on it, and the operand checks that fill it in (src/disasm_wrapper.c).
 Capstone itself is an input: its answer for one instruction is a `Decoded` value.
 */
module Disasm {
  import opened Bytes
  import opened Encoding

  /**
   The instruction id, as far as the wrapper looks at it; every is_... flag of the source's
   result is a function of it. Unset is the all-zero result.
   */
  datatype Kind = Unset | Endbr | Syscall | Call | Ret | Branch | Nop | Lea | Other

  /** The operand fields: has_ip_relative_opr, is_rel_jump, is_indirect_jump, rip_disp, rip_ref_addr. */
  datatype Reference = Reference(hasIp: bool, isRel: bool, isIndirect: bool, disp: int, target: int)

  const NO_REFERENCE := Reference(false, false, false, 0, 0)

  datatype Ins = Ins(address: int, length: nat, kind: Kind, opr: Reference, argRegisterBits: nat) {
    predicate IsSyscall() { kind.Syscall? }
    predicate IsCall() { kind.Call? }
    predicate IsJump() { kind.Branch? || kind.Call? }
    predicate IsRet() { kind.Ret? }
    predicate IsNop() { kind.Nop? }
    predicate IsLeaRip() { kind.Lea? && opr.hasIp }

    /** This instruction is a NOP with room for a 2-byte and a 5-byte jump. */
    predicate IsOverwritableNop() { IsNop() && length >= 2 + 5 }

    predicate IsCopiableBeforeSyscall() {
      !kind.Unset? && !(opr.hasIp || IsCall() || opr.isRel || IsJump() || IsRet() || kind.Endbr? || IsSyscall())
    }

    predicate IsCopiableAfterSyscall() {
      !kind.Unset? && !(opr.hasIp || IsCall() || opr.isRel || IsJump() || kind.Endbr? || IsSyscall())
    }
  }

  const UNSET := Ins(0, 0, Unset, NO_REFERENCE, 0)

  datatype Range = Range(address: int, size: nat)

  // ----- filling in a result -----

  datatype Operand =
    | RegOp(isIp: bool)
    | MemOp(baseIsIp: bool, indexIsIp: bool, disp: int)
    | ImmOp(imm: int)

  /** Capstone's answer: the instruction's kind, its size and its operands. */
  datatype Decoded = Decoded(kind: Kind, size: nat, ops: seq<Operand>)

  predicate UsesIp(op: Operand) {
    (op.RegOp? && op.isIp) || (op.MemOp? && (op.baseIsIp || op.indexIsIp))
  }

  /** Operands that make check_op record a RIP-relative reference. */
  predicate Refers(isJump: bool, op: Operand) {
    UsesIp(op) || (isJump && !op.RegOp?)
  }

  /** check_op, on the operand fields so far; rip is the address after the instruction. */
  function CheckOp(r: Reference, isJump: bool, op: Operand, rip: int): Reference {
    match op
    case RegOp(isIp) =>
      var q := if isIp then r.(hasIp := true, disp := 0, target := rip) else r;
      if isJump then q.(isIndirect := true) else q
    case MemOp(baseIsIp, indexIsIp, disp) =>
      if Refers(isJump, op) then
        Reference(true, r.isRel || isJump, r.isIndirect, disp, rip + disp)
      else r
    case ImmOp(imm) =>
      if isJump then Reference(true, true, r.isIndirect, imm - rip, imm) else r
  }

  function CheckOps(isJump: bool, ops: seq<Operand>, rip: int): Reference {
    if |ops| == 0 then NO_REFERENCE
    else CheckOp(CheckOps(isJump, ops[..|ops| - 1], rip), isJump, ops[|ops| - 1], rip)
  }

  /**
   What the flags say, operand by operand: some operand is RIP, or is addressed relative to it, or is the
   destination of a jump; a jump is direct if it has an operand other than a register, indirect if it has
   a register.
   */
  ghost predicate FlagsMean(r: Reference, isJump: bool, ops: seq<Operand>) {
    && (r.hasIp <==>
          exists i :: 0 <= i < |ops| && if ops[i].RegOp? then ops[i].isIp else
            isJump || (ops[i].MemOp? && (ops[i].baseIsIp || ops[i].indexIsIp)))
    && (r.isRel <==> isJump && exists i :: 0 <= i < |ops| && !ops[i].RegOp?)
    && (r.isIndirect <==> isJump && exists i :: 0 <= i < |ops| && ops[i].RegOp?)
  }

  /** One more operand. */
  lemma FlagsNext(r: Reference, isJump: bool, front: seq<Operand>, op: Operand, rip: int)
    requires FlagsMean(r, isJump, front)
    ensures FlagsMean(CheckOp(r, isJump, op, rip), isJump, front + [op])
  {
    var ops := front + [op];
    assert ops[|front|] == op;
    assert forall i :: 0 <= i < |front| ==> ops[i] == front[i];
  }

  lemma {:induction false} CheckOpsMeaning(isJump: bool, ops: seq<Operand>, rip: int)
    ensures FlagsMean(CheckOps(isJump, ops, rip), isJump, ops)
  {
    if |ops| > 0 {
      var front, op := ops[..|ops| - 1], ops[|ops| - 1];
      CheckOpsMeaning(isJump, front, rip);
      FlagsNext(CheckOps(isJump, front, rip), isJump, front, op, rip);
      assert ops == front + [op];
    }
  }

  /** The address an operand refers to; rip is the address after the instruction. */
  function TargetOf(op: Operand, rip: int): int {
    match op
    case RegOp(_) => rip
    case MemOp(_, _, disp) => rip + disp
    case ImmOp(imm) => imm
  }

  /** Operand i is the last one that refers. */
  ghost predicate LastReference(isJump: bool, ops: seq<Operand>, i: nat) {
    i < |ops| && Refers(isJump, ops[i]) && forall j :: i < j < |ops| ==> !Refers(isJump, ops[j])
  }

  /** The address reported is that of the last operand that refers. */
  lemma {:induction false} CheckOpsTarget(isJump: bool, ops: seq<Operand>, rip: int, i: nat)
    requires LastReference(isJump, ops, i)
    ensures i < |ops| && CheckOps(isJump, ops, rip).target == TargetOf(ops[i], rip)
  {
    if i < |ops| - 1 {
      CheckOpsTarget(isJump, ops[..|ops| - 1], rip, i);
    }
  }

  const ENDBR64: seq<Byte> := [0xf3, 0x0f, 0x1e, 0xfa]

  /**
   intercept_disasm_next_instruction: `bytes` are the text bytes from address `code` to the end
   of the text, `decoded` is what Capstone makes of them (None if it fails).
   */
  method NextInstruction(code: int, bytes: seq<Byte>, decoded: Option<Decoded>) returns (r: Ins)
    requires decoded.Some? ==> 0 < decoded.value.size <= |bytes|
    requires decoded.Some? ==> !decoded.value.kind.Unset? && !decoded.value.kind.Endbr?
    requires decoded.Some? && decoded.value.kind.Lea? ==> decoded.value.size >= 3
    ensures r.address == code
    ensures r.length > 0 <==> !r.kind.Unset?
    ensures r.kind.Unset? <==> !(ENDBR64 <= bytes) && decoded.None?
    ensures r.kind.Endbr? <==> |bytes| >= 4 && bytes[..4] == [0xf3, 0x0f, 0x1e, 0xfa]
    ensures r.kind.Endbr? ==> r.length == 4 && r.opr == NO_REFERENCE
    ensures !r.kind.Unset? && !r.kind.Endbr? ==>
      && r.length == decoded.value.size && r.kind == decoded.value.kind
      && FlagsMean(r.opr, r.kind == Branch || r.kind == Kind.Call, decoded.value.ops)
      && (r.IsLeaRip() ==> r.argRegisterBits == ArgRegisterBits(bytes))
      && (forall i: nat :: LastReference(r.IsJump(), decoded.value.ops, i) ==>
            r.opr.target == TargetOf(decoded.value.ops[i], code + r.length))
  {
    hide CheckOps, CheckOp, Refers, LastReference, TargetOf, ArgRegisterBits, FlagsMean;
    r := UNSET.(address := code);
    if ENDBR64 <= bytes {
      return r.(kind := Endbr, length := 4);
    }
    if decoded.None? {
      return;
    }
    var d := decoded.value;
    r := r.(length := d.size, kind := d.kind);
    var isJump, rip := r.IsJump(), code + r.length;
    var opr := NO_REFERENCE;
    CheckOpsStart(isJump, d.ops, rip);
    for i := 0 to |d.ops|
      invariant opr == CheckOps(isJump, d.ops[..i], rip)
    {
      CheckOpsNext(isJump, d.ops, rip, i);
      opr := CheckOp(opr, isJump, d.ops[i], rip);
    }
    assert d.ops[..|d.ops|] == d.ops;
    CheckOpsMeaning(isJump, d.ops, rip);
    forall i: nat | LastReference(isJump, d.ops, i)
      ensures i < |d.ops| && opr.target == TargetOf(d.ops[i], rip)
    {
      CheckOpsTarget(isJump, d.ops, rip, i);
    }
    r := r.(opr := opr);
    if r.IsLeaRip() {
      r := r.(argRegisterBits := ArgRegisterBits(bytes));
    }
  }

  lemma CheckOpsStart(isJump: bool, ops: seq<Operand>, rip: int)
    ensures CheckOps(isJump, ops[..0], rip) == NO_REFERENCE
  {
  }

  lemma CheckOpsNext(isJump: bool, ops: seq<Operand>, rip: int, i: nat)
    requires i < |ops|
    ensures CheckOps(isJump, ops[..i + 1], rip) == CheckOp(CheckOps(isJump, ops[..i], rip), isJump, ops[i], rip)
  {
    assert ops[..i + 1][..i] == ops[..i];
  }
}
