/**
 The patched program does what the original program does.

 `code0` is the code image before patching and `code1` the image after it: text, trampoline table and
 wrapper space included. `block` is what a pass through the template does to the state, for the patch and
 the wrapper whose addresses it holds. One thing is assumed of it (`Forwards`): from `polite` states, which
 do not use the stack below the red zone for the call, it has the effect of the syscall.
 Interception.TemplateForwards proves this of the modelled template.
 */
module Simulation {
  import opened Bytes
  import opened Encoding
  import opened Disasm
  import opened Listing
  import opened Plan
  import opened Overlap
  import opened WrapperCode
  import opened Activate
  import opened Machine

  /** How a pass through the template ends: with a state, at its end or where the kernel resumes the thread. */
  datatype Exit = Exit(resume: Option<int>, st: State)

  datatype Setup = Setup(
    cpu: Cpu, code0: int -> Byte, code1: int -> Byte, r: Run, g: Generator, text: seq<Byte>,
    usesTable: bool, tableBase: int, tableSize: nat, spaceBase: int, spaceSize: nat,
    block: (int, int, State) -> Exit, polite: State -> bool, depth: nat)

  // ----- where things are -----

  predicate InText(su: Setup, x: int) { su.r.start <= x <= su.r.end }

  predicate InTable(su: Setup, x: int) { su.usesTable && su.tableBase <= x < su.tableBase + su.tableSize }

  predicate InSpace(su: Setup, x: int) { su.spaceBase <= x < su.spaceBase + su.spaceSize }

  predicate Elsewhere(su: Setup, x: int) { !InText(su, x) && !InTable(su, x) && !InSpace(su, x) }

  function TemplateAt(p: Patch): int { p.wrapper + SizeBefore(p) }

  /** The address lies strictly inside a byte range that the patch overwrites. */
  predicate Interior(p: Patch, x: int) {
    match p.form
    case Unplanned => false
    case ViaNop(nop) => p.syscallAddr < x < p.syscallAddr + SYSCALL_INS_SIZE || nop.address < x < nop.address + 7
    case ViaWindow(_, _, _) => p.dst < x < p.ret
  }

  /** Nothing is left out of the comparison but places between two bytes that one patch overwrites. */
  lemma InteriorIsWritten(p: Patch, x: int)
    requires Interior(p, x)
    ensures Writes(p, x - 1) && Writes(p, x)
  {
  }

  /** Addresses at which the two programs are compared. */
  ghost predicate Observable(su: Setup, x: int) {
    !InTable(su, x) && !InSpace(su, x) && forall i :: 0 <= i < |su.r.ps| ==> !Interior(su.r.ps[i], x)
  }

  // ----- what patching leaves behind -----

  ghost predicate InstalledPatch(su: Setup, i: nat)
    requires i < |su.r.ps| && ValidGenerator(su.g)
  {
    var p := su.r.ps[i];
    var target := JumpTarget(p, i, su.usesTable, su.tableBase);
    && ReadablePlan(p, su.text, su.r.start)
    && AllFit(p, target)
    && BytesAt(su.code1, p.dst, JumpBytes(JMP_OPCODE, p.dst, target))
    && (p.form.ViaNop? ==>
        && BytesAt(su.code1, p.syscallAddr, ShortJumpBytes(p.syscallAddr, p.dst))
        && BytesAt(su.code1, p.form.nop.address,
                   ShortJumpBytes(p.form.nop.address, p.form.nop.address + p.form.nop.size)))
    && (su.usesTable ==>
        && TRAMPOLINE_SIZE * i + TRAMPOLINE_SIZE <= su.tableSize
        && BytesAt(su.code1, su.tableBase + TRAMPOLINE_SIZE * i, AbsoluteJumpBytes(p.wrapper)))
    && su.spaceBase <= p.wrapper && p.wrapper + WrapperSize(p, |su.g.template|) <= su.spaceBase + su.spaceSize
    && BytesAt(su.code1, p.wrapper, WrapperBytes(su.g, p, i, su.text, su.r.start))
    && 0 <= p.wrapper < TWO_64 && 0 <= p.ret < TWO_64
  }

  ghost predicate RegionsApart(su: Setup) {
    forall x ::
      && !(InText(su, x) && InTable(su, x)) && !(InText(su, x) && InSpace(su, x))
      && !(InTable(su, x) && InSpace(su, x))
  }

  ghost predicate TextIsOriginal(su: Setup) {
    |su.text| == su.r.end - su.r.start + 1 && BytesAt(su.code0, su.r.start, su.text)
  }

  ghost predicate OthersUnchanged(su: Setup) {
    forall x :: !InTable(su, x) && !InSpace(su, x) && (forall i :: 0 <= i < |su.r.ps| ==> !Writes(su.r.ps[i], x)) ==>
      su.code1(x) == su.code0(x)
  }

  ghost predicate WrappersApart(su: Setup) {
    forall i, j :: 0 <= i < j < |su.r.ps| ==>
      su.r.ps[i].wrapper + WrapperSize(su.r.ps[i], |su.g.template|) <= su.r.ps[j].wrapper
  }

  ghost predicate Installed(su: Setup) {
    && IsRun(su.r) && Unshared(su.r) && ValidGenerator(su.g)
    && RegionsApart(su) && TextIsOriginal(su) && OthersUnchanged(su) && WrappersApart(su)
    && (forall i :: 0 <= i < |su.r.ps| ==> InstalledPatch(su, i))
  }

  // ----- what the disassembler's answers mean -----

  /** The effect of these bytes does not depend on where they stand; unless they are a return, control falls through. */
  ghost predicate PositionFree(cpu: Cpu, b: seq<Byte>, isRet: bool) {
    forall a, a', s {:trigger Exec(cpu, b, a, s), Exec(cpu, b, a', s)} ::
      && Exec(cpu, b, a, s).st == Exec(cpu, b, a', s).st
      && (if isRet then Exec(cpu, b, a, s).pc == Exec(cpu, b, a', s).pc else Exec(cpu, b, a, s).pc == a + |b|)
  }

  /** The disassembler's result for one instruction is true of the bytes, as far as its extent and syscalls go. */
  ghost predicate Describes(cpu: Cpu, code: int -> Byte, ins: Ins) {
    var w := Window(code, ins.address);
    && 1 <= ins.length <= 15 && ins.length == Length(cpu, w)
    && (ins.IsSyscall() <==> IsSyscall(w))
  }

  /** For an instruction that is moved, the rest of the result is true as well. */
  ghost predicate DescribesMoved(cpu: Cpu, code: int -> Byte, ins: Ins)
    requires ins.length <= 15
  {
    var w := Window(code, ins.address);
    && !IsAbsoluteJump(w)
    && (ins.IsLeaRip() ==>
        IsLeaRip(w) && ins.opr.target % TWO_64 == LeaValue(w, ins.address) && ins.argRegisterBits == LeaRegister(w))
    && (ins.IsCopiableAfterSyscall() ==> PositionFree(cpu, w[..ins.length], ins.IsRet()))
  }

  /** A NOP that is overwritten is one. */
  ghost predicate DescribesNop(cpu: Cpu, code: int -> Byte, ins: Ins)
    requires ins.length <= 15
  {
    var b := Window(code, ins.address)[..ins.length];
    && !IsAbsoluteJump(Window(code, ins.address))
    && forall a, s {:trigger Exec(cpu, b, a, s)} :: Exec(cpu, b, a, s) == Config(a + ins.length, s)
  }

  /** An absolute jump of the text itself finds its pointer as it was. */
  ghost predicate PointerIntact(su: Setup, a: int) {
    IsAbsoluteJump(Window(su.code0, a)) ==>
      forall x :: a <= x < a + TRAMPOLINE_SIZE ==>
        !InTable(su, x) && !InSpace(su, x) && forall i :: 0 <= i < |su.r.ps| ==> !Writes(su.r.ps[i], x)
  }

  ghost predicate AllDescribed(su: Setup)
    requires IsRun(su.r)
  {
    && PrefixCode(su.cpu)
    && (forall j :: 0 <= j < |su.r.L| ==>
          Describes(su.cpu, su.code0, su.r.L[j]) && PointerIntact(su, su.r.L[j].address))
    && (forall i, j :: 0 <= i < |su.r.ps| && 0 <= j < |su.r.L| && Covers(su.r, i, j) ==>
          DescribesMoved(su.cpu, su.code0, su.r.L[j]))
    && (forall i :: 0 <= i < |su.r.ps| && su.r.ps[i].form.ViaNop? && su.r.ns[i] < |su.r.L| ==>
          DescribesNop(su.cpu, su.code0, su.r.L[su.r.ns[i]]))
  }

  // ----- the template -----

  /** Zones of stack memory that a pass through the wrapper may use: below the red zone of the given stack pointer. */
  predicate InZone(rsp: int, depth: nat, a: int) { rsp - 0x80 - depth <= a < rsp - 0x80 }

  /**
   Equal states, but for RCX, R11, the flags and memory below the red zones of the stack pointers
   before and after.
   */
  ghost predicate SameOutside(s: State, t: State, rsp: int, depth: nat) {
    && (forall r :: 0 <= r < 16 && r != RCX && r != R11 ==> s.regs[r] == t.regs[r])
    && (forall a :: !InZone(rsp, depth, a) && !InZone(s.regs[RSP], depth, a) ==> Load(s.mem, a) == Load(t.mem, a))
    && s.trace == t.trace
  }

  /** t' is what the syscall makes of t, but for what a pass loses; nothing in registers after rt_sigreturn. */
  ghost predicate SameAfter(k: Kernel, t: State, t': State, depth: nat) {
    && SameOutside(KernelStep(k, t, 0), t', t.regs[RSP], depth)
    && (KernelResume(k, t).Some? ==> t'.regs == KernelStep(k, t, 0).regs && t'.flags == KernelStep(k, t, 0).flags)
  }

  /**
   From every polite state, a pass through the template that calls this wrapper has the effect of the
   syscall, exactly once, and continues where the syscall does.
   */
  ghost predicate Forwards(k: Kernel, depth: nat, wrapper: int, block: (int, int, State) -> Exit,
                           polite: State -> bool) {
    forall patch, s :: polite(s) ==>
      SameAfter(k, s, block(patch, wrapper, s).st, depth) && block(patch, wrapper, s).resume == KernelResume(k, s)
  }

  /** The value that the movabs at address a loads. */
  ghost function LoadedAt(code: int -> Byte, a: int): int {
    var w := Read(code, a, MOVABS_SIZE);
    if IsMovabs(w) then MovabsValue(w) else 0
  }

  ghost predicate AtTemplate(su: Setup, pc: int, i: nat)
    requires ValidGenerator(su.g)
  {
    i < |su.r.ps| && pc == TemplateAt(su.r.ps[i]) && BytesAt(su.code1, pc, Instance(su.g, i))
  }

  // ----- the two programs -----

  ghost function StepOriginal(su: Setup, c: Config): Config {
    Step(su.cpu, su.code0, c)
  }

  /**
   The patched program. An intact copy of the template is one step; the patch and the address it calls are
   read from its bytes.
   */
  ghost function StepPatched(su: Setup, c: Config): Config
    requires ValidGenerator(su.g)
  {
    if exists i :: AtTemplate(su, c.pc, i) then
      var e := su.block(LoadedAt(su.code1, c.pc + su.g.descAt), LoadedAt(su.code1, c.pc + su.g.level1At), c.st);
      Config(Or(e.resume, c.pc + |su.g.template|), e.st)
    else Step(su.cpu, su.code1, c)
  }

  ghost function RunOriginal(su: Setup, c: Config, n: nat): Config
    decreases n
  {
    if n == 0 then c else RunOriginal(su, StepOriginal(su, c), n - 1)
  }

  ghost function RunPatched(su: Setup, c: Config, n: nat): Config
    requires ValidGenerator(su.g)
    decreases n
  {
    if n == 0 then c else RunPatched(su, StepPatched(su, c), n - 1)
  }

  ghost function Seen(su: Setup, c: Config): seq<Config> {
    if Observable(su, c.pc) then [c] else []
  }

  /** The observable places visited in the first n steps, and the states there. */
  ghost function VisitsOriginal(su: Setup, c: Config, n: nat): seq<Config>
    decreases n
  {
    if n == 0 then [] else Seen(su, c) + VisitsOriginal(su, StepOriginal(su, c), n - 1)
  }

  ghost function VisitsPatched(su: Setup, c: Config, n: nat): seq<Config>
    requires ValidGenerator(su.g)
    decreases n
  {
    if n == 0 then [] else Seen(su, c) + VisitsPatched(su, StepPatched(su, c), n - 1)
  }

  // ----- what is asked of the original run -----

  type Relation = (int, State, State) -> bool

  /** Visits to the same addresses, in the same order, in states that agree. */
  ghost predicate Correspond(agree: Relation, xs: seq<Config>, ys: seq<Config>) {
    |xs| == |ys| && forall i :: 0 <= i < |xs| ==> xs[i].pc == ys[i].pc && agree(xs[i].pc, xs[i].st, ys[i].st)
  }

  /** Instruction e starts strictly inside no window. */
  ghost predicate OutsideWindows(r: Run, e: nat)
    requires IsRun(r)
  {
    forall i :: 0 <= i < |r.ps| ==> !Inside(r, i, e)
  }

  /** A place where control may arrive other than by falling through. */
  ghost predicate Entry(su: Setup, a: int)
    requires IsRun(su.r)
  {
    Elsewhere(su, a) || exists e :: 0 <= e < |su.r.L| && a == At(su.r.L, e) && OutsideWindows(su.r, e)
  }

  /** Instruction j of the listing is executed at address a; control falls through or arrives at an entry. */
  ghost predicate Listed(su: Setup, a: int, next: int, j: nat)
    requires IsRun(su.r)
  {
    j < |su.r.L| && a == At(su.r.L, j) && (next == At(su.r.L, j + 1) || Entry(su, next))
  }

  /** The instruction at this address, and the pointer of an absolute jump, are outside everything patching concerns. */
  ghost predicate FarInstruction(su: Setup, a: int) {
    var w := Window(su.code0, a);
    Length(su.cpu, w) <= 15 && forall x :: a <= x < a + Span(su.cpu, w) ==> Elsewhere(su, x)
  }

  /**
   Control flow of one step of the original program: it executes an instruction of the listing or one far
   away, and falls through or arrives at an entry.
   */
  ghost predicate Flows(su: Setup, a: int, next: int)
    requires IsRun(su.r)
  {
    && (|| (exists j :: Listed(su, a, next, j))
        || (Elsewhere(su, a) && FarInstruction(su, a) && Entry(su, next)))
    && (Elsewhere(su, next) || exists e :: 0 <= e < |su.r.L| && next == At(su.r.L, e))
  }

  /**
   States that agree before a step agree after it, even if RCX, R11, the flags and the memory below the
   red zone are lost in a syscall, which is made in a polite state. `agree(a, s, t)` says that s and t
   are equal in all that the code from address a on looks at.
   */
  ghost predicate Tolerates(su: Setup, agree: Relation, c: Config) {
    var d, k := StepOriginal(su, c), su.cpu.kernel;
    if IsSyscall(Window(su.code0, c.pc)) && InText(su, c.pc) then
      forall t :: agree(c.pc, c.st, t) ==>
        && su.polite(t) && KernelResume(k, t) == KernelResume(k, c.st)
        && forall t' :: SameAfter(k, t, t', su.depth) ==> agree(d.pc, d.st, t')
    else
      forall t :: agree(c.pc, c.st, t) ==>
        StepOriginal(su, Config(c.pc, t)).pc == d.pc && agree(d.pc, d.st, StepOriginal(su, Config(c.pc, t)).st)
  }

  /** The kernel resumes the thread elsewhere. */
  ghost predicate Resumes(su: Setup, c: Config) {
    IsSyscall(Window(su.code0, c.pc)) && InText(su, c.pc) && KernelResume(su.cpu.kernel, c.st).Some?
  }

  /** One step of the original program is well behaved. */
  ghost predicate GoodStep(su: Setup, agree: Relation, c: Config)
    requires IsRun(su.r)
  {
    && Flows(su, c.pc, StepOriginal(su, c).pc) && (Resumes(su, c) ==> Entry(su, StepOriginal(su, c).pc))
    && Tolerates(su, agree, c)
  }

  ghost predicate GoodRun(su: Setup, agree: Relation, c: Config, n: nat)
    requires IsRun(su.r)
    decreases n
  {
    n > 0 ==> GoodStep(su, agree, c) && GoodRun(su, agree, StepOriginal(su, c), n - 1)
  }

  /** Equal in all that matters includes the calls made so far. */
  ghost predicate SeesTrace(agree: Relation) {
    forall a, s, t :: agree(a, s, t) ==> s.trace == t.trace
  }
}
