/**
 An x86-64 machine, as far as the patcher depends on it. The instructions that the patcher reads or
 emits have their real meaning, decoded from bytes; all others are an arbitrary function of their
 bytes, their address and the state. Code is not data: programs neither write nor read code bytes.
 */
module Machine {
  import opened Bytes
  import opened Encoding

  // register numbers, as encoded in instructions
  const RAX := 0
  const RCX := 1
  const RDX := 2
  const RBX := 3
  const RSP := 4
  const RBP := 5
  const RSI := 6
  const RDI := 7
  const R8 := 8
  const R9 := 9
  const R10 := 10
  const R11 := 11
  const R12 := 12
  const R13 := 13
  const R14 := 14
  const R15 := 15

  type Regs = r: seq<int> | |r| == 16 witness seq(16, _ => 0)

  /** Memory holds 64-bit words; a word that was never written reads as zero. */
  type Mem = map<int, int>

  function Load(m: Mem, a: int): int {
    if a in m then m[a] else 0
  }

  /** A syscall as the kernel sees it. */
  datatype Call = Call(nr: int, args: seq<int>)

  /** The state of a thread; `trace` lists the calls that have reached the kernel. */
  datatype State = State(regs: Regs, flags: int, mem: Mem, trace: seq<Call>)

  // ----- the kernel -----

  const SYS_rt_sigreturn := 15
  const SYS_clone := 56
  const SYS_vfork := 58
  const SYS_clone3 := 435

  /** The kernel looks at the low 32 bits of RAX and takes its arguments from six registers. */
  function CallOf(regs: Regs): (c: Call)
    ensures |c.args| == 6
  {
    Call(Signed(regs[RAX] % TWO_32, TWO_32),
         [regs[RDI], regs[RSI], regs[RDX], regs[R10], regs[R8], regs[R9]])
  }

  /**
   The kernel's side of the matter: the calls after which a thread may continue with more changed than the
   result in RAX, its stack pointer for one. clone (56) takes the child's stack in its second argument, and
   clone3 (435) in the sixth word of the structure its first argument points to.
   */
  predicate IsSpecial(c: Call, m: Mem)
    requires |c.args| == 6
  {
    match c.nr
    case 15 => true
    case 58 => true
    case 56 => c.args[1] != 0
    case 435 => Load(m, c.args[0] + 40) != 0
    case _ => false
  }

  /** Where and with what a thread continues after rt_sigreturn: all that the signal frame holds. */
  datatype Resumption = Resumption(pc: int, regs: Regs, flags: int, mem: Mem)

  /**
   serve: the result and the memory after an ordinary call; it may depend on all earlier calls.
   special: the registers and the memory with which a thread continues after a vfork or a clone with a stack.
   resume: the place and the state with which a thread continues after rt_sigreturn.
   */
  datatype Kernel = Kernel(
    serve: (Call, Mem, seq<Call>) -> (int, Mem),
    special: (Call, Regs, Mem, seq<Call>) -> (Regs, Mem),
    resume: (Regs, Mem, seq<Call>) -> Resumption)

  predicate IsSigreturn(c: Call) {
    c.nr == SYS_rt_sigreturn
  }

  /** The registers with which the thread continues; RCX and R11 are lost, except after rt_sigreturn. */
  function KernelRegs(k: Kernel, s: State): Regs {
    var c := CallOf(s.regs);
    if IsSigreturn(c) then k.resume(s.regs, s.mem, s.trace).regs
    else if IsSpecial(c, s.mem) then k.special(c, s.regs, s.mem, s.trace).0
    else s.regs[RAX := k.serve(c, s.mem, s.trace).0]
  }

  function KernelMem(k: Kernel, s: State): Mem {
    var c := CallOf(s.regs);
    if IsSigreturn(c) then k.resume(s.regs, s.mem, s.trace).mem
    else if IsSpecial(c, s.mem) then k.special(c, s.regs, s.mem, s.trace).1
    else k.serve(c, s.mem, s.trace).1
  }

  /** The syscall instruction: RCX receives the return address and R11 the flags, except after rt_sigreturn. */
  function KernelStep(k: Kernel, s: State, ret: int): State {
    var c, regs := CallOf(s.regs), KernelRegs(k, s);
    if IsSigreturn(c) then
      State(regs, k.resume(s.regs, s.mem, s.trace).flags, KernelMem(k, s), s.trace + [c])
    else
      State(regs[RCX := ret][R11 := s.flags], s.flags, KernelMem(k, s), s.trace + [c])
  }

  /** Where the thread continues, if not after the instruction. */
  function KernelResume(k: Kernel, s: State): Option<int> {
    if IsSigreturn(CallOf(s.regs)) then Some(k.resume(s.regs, s.mem, s.trace).pc) else None
  }

  function Or(resume: Option<int>, next: int): int {
    if resume.Some? then resume.value else next
  }

  // ----- instructions -----

  datatype Config = Config(pc: int, st: State)

  /** `length` and `exec` stand for all instructions that are not spelled out below. */
  datatype Cpu = Cpu(length: seq<Byte> -> nat, exec: (seq<Byte>, int, State) -> Config, kernel: Kernel)

  function Window(code: int -> Byte, a: int): (w: seq<Byte>)
    ensures |w| == 15
  {
    Read(code, a, 15)
  }

  /** The length of the instruction at the head of a window. */
  function Length(cpu: Cpu, w: seq<Byte>): nat {
    if IsJump32(w) then 5
    else if IsJump8(w) then 2
    else if IsAbsoluteJump(w) then 6
    else if IsMovabs(w) then 10
    else if IsSyscall(w) then 2
    else if IsLeaRip(w) then 7
    else cpu.length(w)
  }

  /** The effect of the instruction with bytes b at address a. */
  function Exec(cpu: Cpu, b: seq<Byte>, a: int, s: State): Config {
    if IsJump32(b) then Config(Jump32Target(b, a), s)
    else if IsJump8(b) then Config(Jump8Target(b, a), s)
    else if IsMovabs(b) then Config(a + 10, s.(regs := s.regs[MovabsRegister(b) := MovabsValue(b)]))
    else if IsSyscall(b) then Config(Or(KernelResume(cpu.kernel, s), a + 2), KernelStep(cpu.kernel, s, a + 2))
    else if IsLeaRip(b) then Config(a + 7, s.(regs := s.regs[LeaRegister(b) := LeaValue(b, a)]))
    else cpu.exec(b, a, s)
  }

  function Quad(code: int -> Byte, a: int): int {
    FromBytes(Read(code, a, 8))
  }

  /** The bytes of the instruction at the head of a window. */
  function Head(cpu: Cpu, w: seq<Byte>): seq<Byte> {
    if Length(cpu, w) <= |w| then w[..Length(cpu, w)] else w
  }

  function Step(cpu: Cpu, code: int -> Byte, c: Config): Config {
    var w := Window(code, c.pc);
    if IsAbsoluteJump(w) then Config(Quad(code, c.pc + 6), c.st)
    else Exec(cpu, Head(cpu, w), c.pc, c.st)
  }

  /** No instruction is a proper prefix of another one. */
  ghost predicate PrefixCode(cpu: Cpu) {
    forall w, v :: |w| == 15 && |v| == 15 && Length(cpu, w) <= 15 && v[..Length(cpu, w)] == w[..Length(cpu, w)] ==>
      Length(cpu, v) == Length(cpu, w)
  }

  // ----- steps depend only on the bytes of the instruction -----

  /** The same bytes elsewhere are the same instruction. */
  lemma SameInstruction(cpu: Cpu, code0: int -> Byte, a: int, code1: int -> Byte, b: int)
    requires PrefixCode(cpu)
    requires Length(cpu, Window(code0, a)) <= 15
    requires var n := Length(cpu, Window(code0, a)); Read(code1, b, n) == Read(code0, a, n)
    ensures Head(cpu, Window(code1, b)) == Head(cpu, Window(code0, a))
    ensures IsAbsoluteJump(Window(code1, b)) <==> IsAbsoluteJump(Window(code0, a))
  {
    var w, v := Window(code0, a), Window(code1, b);
    var n := Length(cpu, w);
    ReadSlice(code0, a, 15, 0, n);
    ReadSlice(code1, b, 15, 0, n);
    assert v[..n] == w[..n];
    assert Length(cpu, v) == n;
    if IsAbsoluteJump(v) {
      AbsoluteJumpLength(cpu, v);
    }
    if IsAbsoluteJump(w) {
      AbsoluteJumpLength(cpu, w);
    }
  }

  lemma AbsoluteJumpLength(cpu: Cpu, v: seq<Byte>)
    requires IsAbsoluteJump(v)
    ensures Length(cpu, v) == 6 && v[0] == 0xff
  {
    assert v[0] == v[..6][0] == 0xff;
  }

  /** How many bytes a step at this window reads: an absolute jump also reads its pointer. */
  function Span(cpu: Cpu, w: seq<Byte>): nat {
    if IsAbsoluteJump(w) then TRAMPOLINE_SIZE else Length(cpu, w)
  }

  /** A step at an instruction that both images hold at the same place. */
  lemma SameStep(cpu: Cpu, code0: int -> Byte, code1: int -> Byte, c: Config)
    requires PrefixCode(cpu)
    requires Length(cpu, Window(code0, c.pc)) <= 15
    requires var n := Span(cpu, Window(code0, c.pc)); Read(code1, c.pc, n) == Read(code0, c.pc, n)
    ensures Step(cpu, code1, c) == Step(cpu, code0, c)
  {
    var w := Window(code0, c.pc);
    if IsAbsoluteJump(w) {
      AbsoluteJumpLength(cpu, w);
      ReadSlice(code0, c.pc, 14, 0, 6);
      ReadSlice(code1, c.pc, 14, 0, 6);
      ReadSlice(code0, c.pc, 14, 6, 14);
      ReadSlice(code1, c.pc, 14, 6, 14);
    }
    SameInstruction(cpu, code0, c.pc, code1, c.pc);
  }

  // ----- the jumps and the movabs that the patcher writes -----

  lemma NotAbsoluteJump(w: seq<Byte>)
    requires |w| >= 6 && w[0] != 0xff
    ensures !IsAbsoluteJump(w)
  {
    assert w[..6][0] == w[0];
  }

  lemma JumpStep(cpu: Cpu, code: int -> Byte, a: int, to: int, s: State)
    requires JumpFits(a, to) && BytesAt(code, a, JumpBytes(JMP_OPCODE, a, to))
    ensures Step(cpu, code, Config(a, s)) == Config(to, s)
  {
    var w := Window(code, a);
    ReadSlice(code, a, 15, 0, 5);
    JumpRoundTrip(a, to, w);
    NotAbsoluteJump(w);
    assert w[..5][..5] == w[..5];
    JumpRoundTrip(a, to, w[..5]);
  }

  lemma ShortJumpStep(cpu: Cpu, code: int -> Byte, a: int, to: int, s: State)
    requires ShortJumpFits(a, to) && BytesAt(code, a, ShortJumpBytes(a, to))
    ensures Step(cpu, code, Config(a, s)) == Config(to, s)
  {
    var w := Window(code, a);
    ReadSlice(code, a, 15, 0, 2);
    ShortJumpRoundTrip(a, to, w);
    NotAbsoluteJump(w);
    assert w[..2][..2] == w[..2];
    ShortJumpRoundTrip(a, to, w[..2]);
  }

  lemma AbsoluteJumpStep(cpu: Cpu, code: int -> Byte, a: int, to: int, s: State)
    requires 0 <= to < TWO_64 && BytesAt(code, a, AbsoluteJumpBytes(to))
    ensures Step(cpu, code, Config(a, s)) == Config(to, s)
  {
    var b := AbsoluteJumpBytes(to);
    AbsoluteJumpRoundTrip(to);
    ReadSlice(code, a, 14, 0, 6);
    ReadSlice(code, a, 15, 0, 6);
    ReadSlice(code, a, 14, 6, 14);
    assert Window(code, a)[..6] == Read(code, a, 6) == b[..6];
    assert Read(code, a + 6, 8) == b[6..];
  }

  lemma MovabsStep(cpu: Cpu, code: int -> Byte, a: int, value: nat, reg: nat, s: State)
    requires reg < 16 && value < TWO_64 && BytesAt(code, a, MovabsBytes(value, reg))
    ensures Step(cpu, code, Config(a, s)) == Config(a + MOVABS_SIZE, s.(regs := s.regs[reg := value]))
  {
    var w := Window(code, a);
    ReadSlice(code, a, 15, 0, 10);
    MovabsRoundTrip(value, reg, w);
    NotAbsoluteJump(w);
    assert w[..10][..10] == w[..10];
    MovabsRoundTrip(value, reg, w[..10]);
  }
}
