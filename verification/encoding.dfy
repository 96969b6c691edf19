/**
 The four instruction encodings the patcher emits (src/patcher.c), each with the reading
 an x86-64 processor gives it, and the register extraction for RIP-relative LEA
 (src/disasm_wrapper.c).

 The code buffers are arrays of bytes mapped at `base`; addresses are absolute.
 */
module Encoding {
  import opened Bytes

  datatype Option<T> = None | Some(value: T)

  const JMP_OPCODE: Byte := 0xe9
  const SHORT_JMP_OPCODE: Byte := 0xeb
  const INT3_OPCODE: Byte := 0xcc
  const JUMP_INS_SIZE := 5
  const SYSCALL_INS_SIZE := 2
  const TRAMPOLINE_SIZE := 14
  const MOVABS_SIZE := 10

  // ----- how the processor reads these instructions -----

  predicate IsJump32(w: seq<Byte>) { |w| >= 5 && w[0] == 0xe9 }

  function Jump32Target(w: seq<Byte>, at: int): int
    requires IsJump32(w)
  {
    at + 5 + Signed(FromBytes(w[1..5]), TWO_32)
  }

  predicate IsJump8(w: seq<Byte>) { |w| >= 2 && w[0] == 0xeb }

  function Jump8Target(w: seq<Byte>, at: int): int
    requires IsJump8(w)
  {
    at + 2 + Signed(w[1], TWO_8)
  }

  const ABSOLUTE_JUMP_OPCODE: seq<Byte> := [0xff, 0x25, 0, 0, 0, 0]

  /** jmp *0(%rip): the destination is the quadword right after the instruction. */
  predicate IsAbsoluteJump(w: seq<Byte>) { |w| >= 6 && w[..6] == ABSOLUTE_JUMP_OPCODE }

  predicate IsSyscall(w: seq<Byte>) { |w| >= 2 && w[0] == 0x0f && w[1] == 0x05 }

  predicate IsMovabs(w: seq<Byte>) { |w| >= 10 && 0x48 <= w[0] <= 0x49 && 0xb8 <= w[1] <= 0xbf }

  function MovabsRegister(w: seq<Byte>): (r: nat)
    requires IsMovabs(w)
    ensures r < 16
  {
    8 * (w[0] - 0x48) + (w[1] - 0xb8)
  }

  function MovabsValue(w: seq<Byte>): nat
    requires IsMovabs(w)
  {
    FromBytes(w[2..10])
  }

  /** lea disp32(%rip), %r64: a REX prefix with W set, opcode 8d, ModRM with mod 00 and rm 101. */
  predicate IsLeaRip(w: seq<Byte>) {
    |w| >= 7 && 0x48 <= w[0] <= 0x4f && w[1] == 0x8d && w[2] / 64 == 0 && w[2] % 8 == 5
  }

  /** REX.R is the high bit of the destination register, ModRM.reg the three low ones. */
  function LeaRegister(w: seq<Byte>): (r: nat)
    requires IsLeaRip(w)
    ensures r < 16
  {
    8 * (w[0] / 4 % 2) + w[2] / 8 % 8
  }

  function LeaValue(w: seq<Byte>, at: int): (v: nat)
    requires IsLeaRip(w)
    ensures v < TWO_64
  {
    (at + 7 + Signed(FromBytes(w[3..7]), TWO_32)) % TWO_64
  }

  // ----- what the patcher writes -----

  predicate JumpFits(from: int, to: int) {
    INT32_MIN <= to - (from + JUMP_INS_SIZE) <= INT32_MAX
  }

  function JumpBytes(opcode: Byte, from: int, to: int): (b: seq<Byte>)
    ensures |b| == JUMP_INS_SIZE
  {
    [opcode] + ToBytes((to - (from + JUMP_INS_SIZE)) % TWO_32, 4)
  }

  predicate ShortJumpFits(from: int, to: int) {
    -128 <= to - (from + 2) <= 127
  }

  function ShortJumpBytes(from: int, to: int): (b: seq<Byte>)
    ensures |b| == 2
  {
    [SHORT_JMP_OPCODE, (to - (from + 2)) % TWO_8]
  }

  function AbsoluteJumpBytes(to: int): (b: seq<Byte>)
    ensures |b| == TRAMPOLINE_SIZE
  {
    ABSOLUTE_JUMP_OPCODE + ToBytes(to % TWO_64, 8)
  }

  function MovabsBytes(value: nat, reg: nat): (b: seq<Byte>)
    requires reg < 16
    ensures |b| == MOVABS_SIZE
  {
    [0x48 + reg / 8, 0xb8 + reg % 8] + ToBytes(value, 8)
  }

  /** The patcher's 5-byte jump, read back by the processor, leads to `to`, wherever it is in reach. */
  lemma JumpRoundTrip(from: int, to: int, w: seq<Byte>)
    requires JumpFits(from, to)
    requires |w| >= 5 && w[..5] == JumpBytes(JMP_OPCODE, from, to)
    ensures IsJump32(w) && Jump32Target(w, from) == to
  {
    var v := (to - (from + JUMP_INS_SIZE)) % TWO_32;
    Pow256Values();
    BytesRoundTrip(v, 4);
    assert w[..5][0] == JMP_OPCODE;
    assert w[1..5] == w[..5][1..] == ToBytes(v, 4);
  }

  lemma ShortJumpRoundTrip(from: int, to: int, w: seq<Byte>)
    requires ShortJumpFits(from, to)
    requires |w| >= 2 && w[..2] == ShortJumpBytes(from, to)
    ensures IsJump8(w) && Jump8Target(w, from) == to
  {
    assert w[..2][0] == SHORT_JMP_OPCODE;
    assert w[..2][1] == (to - (from + 2)) % TWO_8;
  }

  /** Some five-byte jump at `from` goes to `to`. */
  ghost predicate JumpReaches(from: int, to: int) {
    exists w: seq<Byte> :: IsJump32(w) && Jump32Target(w, from) == to
  }

  /** Some two-byte jump at `from` goes to `to`. */
  ghost predicate ShortJumpReaches(from: int, to: int) {
    exists w: seq<Byte> :: IsJump8(w) && Jump8Target(w, from) == to
  }

  /** A jump is refused exactly when no encoding of it would arrive. */
  lemma JumpFitsIff(from: int, to: int)
    ensures JumpFits(from, to) <==> JumpReaches(from, to)
  {
    if JumpFits(from, to) {
      JumpRoundTrip(from, to, JumpBytes(JMP_OPCODE, from, to));
    }
    forall w: seq<Byte> | IsJump32(w) && Jump32Target(w, from) == to
      ensures JumpFits(from, to)
    {
      Pow256Values();
      FromBytesBound(w[1..5]);
    }
  }

  lemma ShortJumpFitsIff(from: int, to: int)
    ensures ShortJumpFits(from, to) <==> ShortJumpReaches(from, to)
  {
    if ShortJumpFits(from, to) {
      ShortJumpRoundTrip(from, to, ShortJumpBytes(from, to));
    }
  }

  lemma MovabsRoundTrip(value: nat, reg: nat, w: seq<Byte>)
    requires reg < 16 && value < TWO_64
    requires |w| >= 10 && w[..10] == MovabsBytes(value, reg)
    ensures IsMovabs(w) && MovabsRegister(w) == reg && MovabsValue(w) == value
  {
    Pow256Values();
    BytesRoundTrip(value, 8);
    assert w[..10][0] == 0x48 + reg / 8 && w[..10][1] == 0xb8 + reg % 8;
    assert w[2..10] == w[..10][2..] == ToBytes(value, 8);
  }

  lemma AbsoluteJumpRoundTrip(to: nat)
    requires to < TWO_64
    ensures AbsoluteJumpBytes(to)[..6] == ABSOLUTE_JUMP_OPCODE
    ensures FromBytes(AbsoluteJumpBytes(to)[6..]) == to
  {
    Pow256Values();
    BytesRoundTrip(to, 8);
    assert to % TWO_64 == to;
    assert AbsoluteJumpBytes(to)[6..] == ToBytes(to, 8);
  }

  // ----- the routines that write them in place -----

  /** create_jump: aborts (ok is false) exactly when the displacement does not fit 32 bits. */
  method CreateJump(code: array<Byte>, base: int, opcode: Byte, from: int, to: int) returns (ok: bool)
    requires base <= from && from + JUMP_INS_SIZE <= base + code.Length
    modifies code
    ensures ok <==> JumpFits(from, to)
    ensures ok ==> Overwrites(old(code[..]), code[..], from - base, JumpBytes(opcode, from, to))
    ensures !ok ==> code[..] == old(code[..])
  {
    var delta := to - (from + JUMP_INS_SIZE);
    if delta > INT32_MAX || delta < INT32_MIN {
      return false;
    }
    var d := ToBytes(delta % TWO_32, 4);
    var i := from - base;
    code[i] := opcode;
    code[i + 1] := d[0];
    code[i + 2] := d[1];
    code[i + 3] := d[2];
    code[i + 4] := d[3];
    return true;
  }

  /** create_short_jump: aborts exactly when the displacement does not fit 8 bits. */
  method CreateShortJump(code: array<Byte>, base: int, from: int, to: int) returns (ok: bool)
    requires base <= from && from + 2 <= base + code.Length
    modifies code
    ensures ok <==> ShortJumpFits(from, to)
    ensures ok ==> Overwrites(old(code[..]), code[..], from - base, ShortJumpBytes(from, to))
    ensures !ok ==> code[..] == old(code[..])
  {
    var d := to - (from + 2);
    if d < -128 || d > 127 {
      return false;
    }
    code[from - base] := SHORT_JMP_OPCODE;
    code[from - base + 1] := d % TWO_8;
    return true;
  }

  /** Writes the bytes b one after the other; returns the address after the last one. */
  method Emit(code: array<Byte>, base: int, from: int, b: seq<Byte>) returns (next: int)
    requires base <= from && from + |b| <= base + code.Length
    modifies code
    ensures Overwrites(old(code[..]), code[..], from - base, b)
    ensures next == from + |b|
  {
    next := from;
    for i := 0 to |b|
      invariant next == from + i
      invariant forall j :: 0 <= j < i ==> code[from - base + j] == b[j]
      invariant forall x :: 0 <= x < code.Length && !(from - base <= x < next - base) ==> code[x] == old(code[x])
    {
      code[next - base] := b[i];
      next := next + 1;
    }
  }

  /** create_absolute_jump */
  method CreateAbsoluteJump(code: array<Byte>, base: int, from: int, to: int) returns (next: int)
    requires base <= from && from + TRAMPOLINE_SIZE <= base + code.Length
    modifies code
    ensures Overwrites(old(code[..]), code[..], from - base, AbsoluteJumpBytes(to))
    ensures next == from + TRAMPOLINE_SIZE
  {
    next := Emit(code, base, from, ABSOLUTE_JUMP_OPCODE + ToBytes(to % TWO_64, 8));
  }

  /** create_movabs; reg is the four-bit register number. */
  method CreateMovabs(code: array<Byte>, base: int, from: int, value: nat, reg: nat) returns (next: int)
    requires reg < 16
    requires base <= from && from + MOVABS_SIZE <= base + code.Length
    modifies code
    ensures Overwrites(old(code[..]), code[..], from - base, MovabsBytes(value, reg))
    ensures next == from + MOVABS_SIZE
  {
    next := Emit(code, base, from, [0x48 + reg / 8, 0xb8 + reg % 8] + ToBytes(value, 8));
  }

  // ----- the LEA destination register -----

  /** The extraction in the disassembler wrapper: ((code[0] & 4) << 1) | ((code[2] >> 3) & 7). */
  function ArgRegisterBits(code: seq<Byte>): (r: nat)
    requires |code| >= 3
    ensures r < 16
  {
    8 * (code[0] / 4 % 2) + code[2] / 8 % 8
  }

  /** A RIP-relative LEA, with or without a REX prefix. */
  datatype LeaEncoding = LeaEncoding(rex: Option<Byte>, modrm: Byte, disp: int)

  ghost predicate ValidLea(e: LeaEncoding) {
    && (e.rex.Some? ==> 0x40 <= e.rex.value <= 0x4f)
    && e.modrm / 64 == 0 && e.modrm % 8 == 5
    && INT32_MIN <= e.disp <= INT32_MAX
  }

  function LeaBytes(e: LeaEncoding): seq<Byte> {
    (if e.rex.Some? then [e.rex.value] else []) + [0x8d, e.modrm] + ToBytes(e.disp % TWO_32, 4)
  }

  /** The register and the value an LEA really produces: without REX.W only 32 bits are kept. */
  function LeaEffect(e: LeaEncoding, at: int): (int, int) {
    var reg := (if e.rex.Some? then 8 * (e.rex.value / 4 % 2) else 0) + e.modrm / 8 % 8;
    var address := (at + |LeaBytes(e)| + e.disp) % TWO_64;
    (reg, if e.rex.Some? && e.rex.value / 8 % 2 == 1 then address else address % TWO_32)
  }

  /** The extracted bits name the right register exactly when the LEA carries a REX prefix. */
  lemma ArgRegisterBitsIff(e: LeaEncoding, at: int)
    requires ValidLea(e)
    ensures ArgRegisterBits(LeaBytes(e)) == LeaEffect(e, at).0 <==> e.rex.Some?
  {
    var b := LeaBytes(e);
    if e.rex.Some? {
      assert b[0] == e.rex.value && b[2] == e.modrm;
    } else {
      assert b[0] == 0x8d;
      assert e.modrm / 8 < 8;
    }
  }

  /**
   The movabs that replaces an LEA loads the same value into the same register exactly when
   the LEA has a REX prefix and either REX.W is set or the address fits 32 bits.
   */
  lemma LeaToMovabsIff(e: LeaEncoding, at: int)
    requires ValidLea(e)
    ensures
      var address := (at + |LeaBytes(e)| + e.disp) % TWO_64;
      var w := MovabsBytes(address, ArgRegisterBits(LeaBytes(e)));
      && IsMovabs(w)
      && ((MovabsRegister(w), MovabsValue(w)) == LeaEffect(e, at)
          <==> e.rex.Some? && (e.rex.value / 8 % 2 == 1 || address < TWO_32))
  {
    ArgRegisterBitsIff(e, at);
    var address := (at + |LeaBytes(e)| + e.disp) % TWO_64;
    var bits := ArgRegisterBits(LeaBytes(e));
    var w := MovabsBytes(address, bits);
    assert w[..10] == w;
    MovabsRoundTrip(address, bits, w);
  }

  /** The processor's reading of a REX.W encoding agrees with LeaEffect. */
  lemma LeaDecodes(e: LeaEncoding, at: int)
    requires ValidLea(e) && e.rex.Some? && e.rex.value / 8 % 2 == 1
    ensures IsLeaRip(LeaBytes(e))
    ensures (LeaRegister(LeaBytes(e)), LeaValue(LeaBytes(e), at)) == LeaEffect(e, at)
    ensures LeaRegister(LeaBytes(e)) == ArgRegisterBits(LeaBytes(e))
  {
    hide ToBytes, FromBytes, Pow256;
    var b := LeaBytes(e);
    assert b[0] == e.rex.value && b[1] == 0x8d && b[2] == e.modrm;
    assert b[3..7] == ToBytes(e.disp % TWO_32, 4);
    Pow256Values();
    BytesRoundTrip(e.disp % TWO_32, 4);
    assert Signed(e.disp % TWO_32, TWO_32) == e.disp;
  }
}
