/**
 A small object that meets everything the theorem on runs asks for: three single-byte NOPs around a syscall,
 the window over all four, a kernel that opens files, and a run of four steps through the wrapper.
 */
module Example {
  import opened Bytes
  import opened Encoding
  import opened Disasm
  import opened Listing
  import opened Plan
  import opened Overlap
  import opened WrapperCode
  import opened Patcher
  import opened Activate
  import opened Machine
  import opened Simulation
  import opened SimulationRun
  import opened Pipeline
  import opened WrapperProtocol
  import opened Interception

  const START := 0x1000
  const SPACE := 0x2000
  const WRAPPER := 0x3000

  const TEXT: seq<Byte> := [0x90, 0x90, 0x0f, 0x05, 0x90]

  function NopAt(a: int): Ins {
    Ins(a, 1, Nop, NO_REFERENCE, 0)
  }

  const LISTING := [NopAt(0x1000), NopAt(0x1001), Ins(0x1002, 2, Syscall, NO_REFERENCE, 0), NopAt(0x1004)]

  function Template20(): seq<Byte> {
    seq(20, _ => 0)
  }

  function Gen(): Generator {
    Generator(Template20(), 0, 10, WRAPPER, 0x4000, 0)
  }

  function Start(): Input {
    Input(PatchesOf(LISTING, 4), NopsOf(LISTING, 4, 0), {}, START, 0x1004, SPACE, 20)
  }

  lemma StartFacts()
    ensures FromListing(Start(), LISTING, 0)
    ensures Start().items == [PatchAt(LISTING, 2)] && Start().nops == []
    ensures SyscallIndices(LISTING, 4) == [2]
  {
    assert PatchesOf(LISTING, 1) == [];
    assert PatchesOf(LISTING, 2) == [];
    assert PatchesOf(LISTING, 3) == [];
    assert PatchesOf(LISTING, 4) == [PatchAt(LISTING, 2)];
    assert SyscallIndices(LISTING, 1) == [];
    assert SyscallIndices(LISTING, 2) == [];
    assert SyscallIndices(LISTING, 3) == [];
    assert SyscallIndices(LISTING, 4) == [2];
  }

  /** The window covers everything, and control comes back right behind it. */
  lemma PlanFacts()
    ensures |Start().items| == 1
    ensures var p := Planned(Start(), 0);
      && p.form == ViaWindow(true, true, true) && p.dst == START && p.ret == 0x1005 && p.wrapper == SPACE
      && p.syscallAddr == 0x1002 && WrapperSize(p, 20) == 37 && ReadablePlan(p, TEXT, START)
    ensures ReadableItems(Start().items, TEXT, START) && ValidGenerator(Gen()) && NoLeaShared(Start(), LISTING)
  {
    StartFacts();
  }

  // ----- the patched object -----

  ghost function SpaceBytes(): (b: seq<Byte>)
    ensures |b| == 37
  {
    PlanFacts();
    WrapperBytes(Gen(), Planned(Start(), 0), 0, TEXT, START)
  }

  function TextBytes(): (b: seq<Byte>)
    ensures |b| == 5
  {
    JumpBytes(JMP_OPCODE, START, SPACE)
  }

  ghost function Patched(): Memory {
    Memory(START, TextBytes(), false, 0, [], SPACE, SpaceBytes())
  }

  lemma PatchedIsDone()
    ensures StagesDone(Start(), Gen(), TEXT, Patched())
  {
    hide Planned, WrapperBytes, JumpBytes, WrapperSize, Start;
    PlanFacts();
    StartEnds();
    var p := Planned(Start(), 0);
    assert Plans(Start()) == [p];
    assert WrapperWritten(Start(), 0, Gen(), TEXT, SpaceBytes(), SPACE);
    assert Applied(p, TextBytes(), START, SPACE);
    assert forall x :: START <= x < START + 5 ==> Writes(p, x);
  }

  lemma StartEnds()
    ensures Start().start == START && Start().end == 0x1004 && Start().templateSize == 20
  {
  }

  // ----- the processor, and the code before patching -----

  function OneByteNop(w: seq<Byte>): nat {
    if |w| > 0 && w[0] == 0x90 then 1 else 15
  }

  function Processor(): Cpu {
    Cpu(OneByteNop, (b: seq<Byte>, a: int, s: State) => Config(a + |b|, s), FileKernel())
  }

  /** Two windows that begin alike hold the same instruction. */
  lemma SameLength(w: seq<Byte>, v: seq<Byte>)
    requires |w| == 15 && |v| == 15 && v[..Length(Processor(), w)] == w[..Length(Processor(), w)]
    ensures Length(Processor(), v) == Length(Processor(), w)
  {
    var n := Length(Processor(), w);
    assert forall i :: 0 <= i < n ==> v[..n][i] == v[i] && w[..n][i] == w[i];
    if n == 15 {
      assert v == w;
    } else if n == 6 {
      assert v[..6] == w[..6];
    }
  }

  lemma ProcessorIsPrefixCode()
    ensures PrefixCode(Processor())
  {
    hide Length;
    forall w, v | |w| == 15 && |v| == 15 && Length(Processor(), w) <= 15
                  && v[..Length(Processor(), w)] == w[..Length(Processor(), w)]
      ensures Length(Processor(), v) == Length(Processor(), w)
    {
      SameLength(w, v);
    }
  }

  /** Beyond the object there are NOPs. */
  function Beyond(a: int): Byte {
    0x90
  }

  /** Calls made with RSP at 0x8000, a path at 0x9000 and the number of open. */
  function Opening(): State {
    State(seq(16, i => if i == RAX then SYS_open else if i == RSP then 0x8000 else 0x9000), 0, map[], [])
  }

  function Code(): Compiled {
    Compiled(0, (r: Regs, m: Mem) => (r, m), WRAPPER)
  }

  /** Before the call the states are the same; after it, RCX and R11 may differ, and memory. */
  ghost function Agreement(): Relation {
    (a: int, s: State, t: State) => if a <= 0x1002 then s == t else s.trace == t.trace && SameRegs(s.regs, t.regs)
  }

  ghost function Here(): Circumstances {
    Circumstances(Processor(), Beyond, FileEnv(), Code(), (patch: int, wrapper: int, s: State) => Exit(None, s),
                  Agreement())
  }

  ghost function TheObject(): Object {
    Object(Start(), LISTING, 0, Gen(), TEXT, Patched())
  }

  ghost function Whole(): Setup {
    SetupIn(Here(), TheObject())
  }

  lemma CodeBefore(x: int)
    ensures Whole().code0(x) ==
      if START <= x < START + 5 then TEXT[x - START]
      else if SPACE <= x < SPACE + 37 then SpaceBytes()[x - SPACE] else 0x90
  {
    hide Start, Gen, SpaceBytes, TextBytes, RunOf;
    var m := Patched().(text := TEXT);
    assert Whole().code0 == Image(m, Beyond);
    assert Image(m, Beyond)(x) ==
      if START <= x < START + 5 then TEXT[x - START]
      else if SPACE <= x < SPACE + 37 then SpaceBytes()[x - SPACE] else Beyond(x);
  }

  lemma WholeFacts()
    ensures var su := Whole();
      && su.cpu == Processor() && su.r.L == LISTING && su.r.start == START && su.r.end == 0x1004
      && su.r.ps == [Planned(Start(), 0)] && su.r.ks == [2]
      && !su.usesTable && su.spaceBase == SPACE && su.spaceSize == 37
      && su.polite == PoliteStates(FileEnv(), Code()) && su.depth == FRAME_SIZE && IsRunOf(su.r, Start())
  {
    hide Planned, Gen, SpaceBytes, TextBytes, Marks, NopIndexOf;
    StartFacts();
    RunOfInput(Start(), LISTING, 0);
  }

  // ----- what the disassembler says is true -----

  lemma NopWindow(a: int)
    requires a in {0x1000, 0x1001, 0x1004}
    ensures var w := Window(Whole().code0, a);
      w[0] == 0x90 && Length(Processor(), w) == 1 && !IsAbsoluteJump(w) && !IsSyscall(w)
  {
    hide Whole, SpaceBytes;
    var w := Window(Whole().code0, a);
    assert w[0] == 0x90 by { CodeBefore(a); }
    NotAbsoluteJump(w);
  }

  lemma SyscallWindow()
    ensures var w := Window(Whole().code0, 0x1002); IsSyscall(w) && Length(Processor(), w) == 2 && !IsAbsoluteJump(w)
  {
    hide Whole, SpaceBytes;
    var w := Window(Whole().code0, 0x1002);
    assert w[0] == 0x0f && w[1] == 0x05 by { CodeBefore(0x1002); CodeBefore(0x1003); }
    NotAbsoluteJump(w);
  }

  lemma NopIsPositionFree(b: seq<Byte>)
    requires b == [0x90]
    ensures PositionFree(Processor(), b, false)
  {
    assert forall a, s :: Exec(Processor(), b, a, s) == Config(a + 1, s);
  }

  lemma Described(j: nat)
    requires j < 4
    ensures Describes(Processor(), Whole().code0, LISTING[j]) && PointerIntact(Whole(), LISTING[j].address)
    ensures DescribesMoved(Processor(), Whole().code0, LISTING[j])
  {
    hide Whole, PositionFree, Length;
    if j == 2 {
      SyscallWindow();
    } else {
      NopWindow(LISTING[j].address);
      var w := Window(Whole().code0, LISTING[j].address);
      NopIsPositionFree(w[..1]);
    }
  }

  lemma WholeIsDescribed()
    ensures IsRun(Whole().r) && AllDescribed(Whole())
  {
    hide Whole, Describes, DescribesMoved, PointerIntact, PrefixCode, IsRun, Planned;
    WholeFacts();
    ProcessorIsPrefixCode();
    PlanFacts();
    forall j | 0 <= j < 4
      ensures Describes(Processor(), Whole().code0, LISTING[j]) && PointerIntact(Whole(), LISTING[j].address)
      ensures DescribesMoved(Processor(), Whole().code0, LISTING[j])
    {
      Described(j);
    }
  }

  // ----- the run -----

  /** The state after the call. */
  function Opened(): State {
    KernelStep(FileKernel(), Opening(), 0x1004)
  }

  /** Four steps of the original program. */
  lemma OriginalSteps()
    ensures var su := Whole();
      && StepOriginal(su, Config(0x1000, Opening())) == Config(0x1001, Opening())
      && StepOriginal(su, Config(0x1001, Opening())) == Config(0x1002, Opening())
      && StepOriginal(su, Config(0x1002, Opening())) == Config(0x1004, Opened())
      && forall s :: StepOriginal(su, Config(0x1004, s)) == Config(0x1005, s)
  {
    hide Whole, Opening, KernelStep, Length;
    WholeFacts();
    NopSteps(0x1000);
    NopSteps(0x1001);
    NopSteps(0x1004);
    SyscallWindow();
    SyscallInPlace(Whole(), 0x1002, Opening());
    OpeningCalls();
    var w := Window(Whole().code0, 0x1002);
    assert IsSyscall(w[..2]);
  }

  lemma NopSteps(a: int)
    requires a in {0x1000, 0x1001, 0x1004}
    ensures forall s :: StepOriginal(Whole(), Config(a, s)) == Config(a + 1, s)
  {
    hide Whole, Length;
    WholeFacts();
    NopWindow(a);
    var w := Window(Whole().code0, a);
    assert w[..1] == [0x90];
  }

  lemma OpeningCalls()
    ensures var c := CallOf(Opening().regs); c.nr == SYS_open && c.args[0] == 0x9000 && c.args[1] == 0x9000
    ensures KernelResume(FileKernel(), Opening()).None? && Opening().regs[RSP] == 0x8000
  {
  }

  lemma OpeningIsPolite()
    ensures Forwarding(FileEnv()) && Polite(FileEnv(), Code(), Opening()) && CConvention(Code())
  {
    hide Polite, Opening, CallOf, Forwarding;
    OpeningCalls();
    FileCallsArePolite(Code(), Opening());
  }

  /** Only what was listed is executed, and control falls through to what lies behind the object. */
  lemma RunFlows(j: nat)
    requires j < 4
    ensures var su := Whole(); IsRun(su.r) && Flows(su, At(LISTING, j), At(LISTING, j + 1))
  {
    hide Whole, IsRun, Entry;
    WholeFacts();
    assert Listed(Whole(), At(LISTING, j), At(LISTING, j + 1), j);
    if j == 3 {
      assert Elsewhere(Whole(), 0x1005);
    } else {
      assert At(LISTING, j + 1) == LISTING[j + 1].address;
    }
  }

  lemma RunTolerates(a: int)
    requires a in {0x1000, 0x1001}
    ensures Tolerates(Whole(), Agreement(), Config(a, Opening()))
  {
    hide Whole, Opening, StepOriginal, IsSyscall, Window;
    OriginalSteps();
    NopWindow(a);
  }

  lemma AgreeAfterwards(u: State, s: State, t: State, rsp: int, depth: nat)
    requires SameOutside(u, s, rsp, depth) && SameOutside(u, t, rsp, depth)
    ensures Agreement()(0x1004, s, t)
  {
    assert SameRegs(s.regs, t.regs);
  }

  lemma CallTolerates()
    ensures Tolerates(Whole(), Agreement(), Config(0x1002, Opening()))
  {
    hide Whole, Opening, StepOriginal, Window, IsSyscall, Polite, KernelResume, KernelStep;
    WholeFacts();
    OriginalSteps();
    SyscallWindow();
    OpeningIsPolite();
    OpeningCalls();
    var k, s := FileKernel(), Opening();
    ReturnAddressIsLost(k, s, 0x1004, FRAME_SIZE);
    assert Whole().cpu.kernel == k && Whole().polite(s);
    assert InText(Whole(), 0x1002);
    forall t' | SameAfter(k, s, t', FRAME_SIZE)
      ensures Agreement()(0x1004, Opened(), t')
    {
      AgreeAfterwards(KernelStep(k, s, 0), Opened(), t', s.regs[RSP], FRAME_SIZE);
    }
  }

  lemma EndTolerates()
    ensures Tolerates(Whole(), Agreement(), Config(0x1004, Opened()))
  {
    hide Whole, Opened, StepOriginal, Window, IsSyscall;
    OriginalSteps();
    NopWindow(0x1004);
  }

  lemma RunIsGood()
    ensures var su := Whole(); IsRun(su.r) && Ongoing(su, Agreement(), Config(START, Opening()), 4)
    ensures Observable(Whole(), START)
  {
    hide Whole, IsRun, Opening, Opened, StepOriginal, Flows, Tolerates, Entry, Window, IsSyscall, KernelResume,
      Planned, Agreement;
    var su, agree, s, t := Whole(), Agreement(), Opening(), Opened();
    WholeFacts();
    PlanFacts();
    OriginalSteps();
    RunFlows(0);
    RunFlows(1);
    RunFlows(2);
    RunFlows(3);
    RunTolerates(0x1000);
    RunTolerates(0x1001);
    CallTolerates();
    EndTolerates();
    NopWindow(0x1000);
    NopWindow(0x1001);
    NopWindow(0x1004);
    OpeningCalls();
    assert GoodRun(su, agree, Config(0x1005, t), 0);
    assert GoodRun(su, agree, Config(0x1004, t), 1);
    assert GoodRun(su, agree, Config(0x1002, s), 2);
    assert GoodRun(su, agree, Config(0x1001, s), 3);
    assert RunOriginal(su, Config(0x1002, s), 2) == Config(0x1005, t);
    assert RunOriginal(su, Config(0x1000, s), 4) == Config(0x1005, t);
  }

  /** The theorem applies: the patched object makes the same call and arrives behind itself as well. */
  lemma ExampleRuns()
    ensures Suitable(Here(), TheObject()) && RunsWell(Here(), TheObject(), Config(START, Opening()), 4)
    ensures ValidGenerator(Gen()) && Matches(Here(), TheObject(), Config(START, Opening()), 4)
  {
    hide StagesDone, FromListing, NoLeaShared, IsRun, AllDescribed, Ongoing, Observable, Forwarding, CConvention,
      Matches, Mirrored, Start, Opening, Patched, SetupIn;
    PlanFacts();
    StartFacts();
    PatchedIsDone();
    WholeIsDescribed();
    RunIsGood();
    OpeningIsPolite();
    AgreesWithItself();
    DoneRunsAsBefore(TheObject());
  }

  lemma AgreesWithItself()
    ensures Agreement()(START, Opening(), Opening())
  {
  }
}
