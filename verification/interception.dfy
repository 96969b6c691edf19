/**
 From the assembly to the run: the template of WrapperProtocol takes the place of the syscalls in the
 simulation, and a patched object then runs as before.
 */
module Interception {
  import opened Bytes
  import opened Encoding
  import opened Disasm
  import opened Crawl
  import opened Placement
  import opened Plan
  import opened Overlap
  import opened Windows
  import opened WrapperCode
  import opened Machine
  import opened Simulation
  import opened SimulationRun
  import opened Pipeline
  import opened InterceptObject
  import opened Hooking
  import opened WrapperProtocol

  /** A client that takes no part: no magic, every call forwarded, memory left alone. */
  ghost predicate Forwarding(env: Env) {
    && (forall c, m :: env.magic(c, m).None?)
    && (forall c, m, trace :: Verdict(env, c, m, trace).0 && Verdict(env, c, m, trace).2 == m)
    && (forall rax, m :: env.cloned(rax, m) == m)
  }

  /** Then a hooked call is the call itself. */
  lemma ForwardingIsKernelStep(env: Env, s: State)
    requires Forwarding(env)
    ensures Hooked(env, s) == KernelStep(env.kernel, s, 0) && HookedResume(env, s) == KernelResume(env.kernel, s)
  {
    hide KernelStep, CallOf;
    var v := VerdictOn(env, s);
    assert v.0 && s.(mem := v.2) == s;
    var t := KernelStep(env.kernel, s, 0);
    var rax, m := t.regs[RAX], t.mem;
    assert env.cloned(rax, m) == m;
  }

  /** The template, for the patch and the wrapper whose addresses it holds; `stray` is what a wrong address leads to. */
  ghost function TemplateBlock(env: Env, cc: Compiled, stray: (int, int, State) -> Exit): (int, int, State) -> Exit {
    (patch, wrapper, s) =>
      if wrapper == cc.wrapper then var o := Template(env, cc, patch, s); Exit(o.resume, o.st)
      else stray(patch, wrapper, s)
  }

  ghost function PoliteStates(env: Env, cc: Compiled): State -> bool {
    s => Polite(env, cc, s)
  }

  /** What the simulation asks of the template, the template does, as long as it calls intercept_wrapper. */
  lemma TemplateForwards(env: Env, cc: Compiled, stray: (int, int, State) -> Exit)
    requires Forwarding(env) && CConvention(cc)
    ensures Forwards(env.kernel, FRAME_SIZE + cc.depth, cc.wrapper,
                     TemplateBlock(env, cc, stray), PoliteStates(env, cc))
  {
    hide Forwarding, CConvention, Polite, Template, Hooked, KernelStep, SameOutside, HookedResume, KernelResume;
    forall patch, s | PoliteStates(env, cc)(s)
      ensures var e := TemplateBlock(env, cc, stray)(patch, cc.wrapper, s);
        SameAfter(env.kernel, s, e.st, FRAME_SIZE + cc.depth) && e.resume == KernelResume(env.kernel, s)
    {
      TemplateHolds(env, cc, patch, s);
      ForwardingIsKernelStep(env, s);
    }
  }

  /** The simulation of an object planned from the listing L, with the template for what happens at its syscalls. */
  ghost function InterceptedSetup(cpu: Cpu, inp: Input, L: seq<Ins>, cap: nat, g: Generator, text0: seq<Byte>,
                                  m: Memory,
                                  rest: int -> Byte, env: Env, cc: Compiled,
                                  stray: (int, int, State) -> Exit): Setup {
    SetupOf(cpu, RunOf(inp, L, cap), g, text0, m, rest,
            TemplateBlock(env, cc, stray), PoliteStates(env, cc), FRAME_SIZE + cc.depth)
  }

  /**
   Whatever the program, the processor, the kernel and the compiled C code: an object that was patched
   without aborting, from a gapless listing in which no two patches share a LEA, runs as before when the
   client forwards every call. It visits the same observable addresses in the same order, in states that
   agree.
   */
  lemma InterceptedObjectSimulates(cpu: Cpu, inp: Input, L: seq<Ins>, cap: nat, g: Generator, text0: seq<Byte>,
                                   m: Memory,
                                   rest: int -> Byte, env: Env, cc: Compiled, stray: (int, int, State) -> Exit,
                                   agree: Relation, c: Config, n: nat)
    returns (steps: nat)
    requires StagesDone(inp, g, text0, m) && FromListing(inp, L, cap) && NoLeaShared(inp, L)
    requires env.kernel == cpu.kernel && Forwarding(env) && CConvention(cc) && g.level1 == cc.wrapper
    requires var su := InterceptedSetup(cpu, inp, L, cap, g, text0, m, rest, env, cc, stray);
      IsRun(su.r) && AllDescribed(su) && Ongoing(su, agree, c, n) && Observable(su, c.pc) && agree(c.pc, c.st, c.st)
    ensures var su := InterceptedSetup(cpu, inp, L, cap, g, text0, m, rest, env, cc, stray);
      && ValidGenerator(su.g) && Meet(su, agree, c, n, c, steps)
      && Correspond(agree, VisitsOriginal(su, c, n), VisitsPatched(su, c, steps))
  {
    hide StagesDone, FromListing, NoLeaShared, NoLeaCutOff, IsRun, Unshared, LeaSafe, AllDescribed, Forwards, Ongoing,
      Observable, Meet, VisitsPatched, VisitsOriginal, Forwarding, CConvention, TemplateBlock, PoliteStates,
      Correspond, RunOf;
    TemplateForwards(env, cc, stray);
    ConditionsOfInput(inp, L, cap);
    RunOfInput(inp, L, cap);
    steps := PatchedObjectSimulates(cpu, inp, RunOf(inp, L, cap), g, text0, m, rest, TemplateBlock(env, cc, stray),
                                    PoliteStates(env, cc), FRAME_SIZE + cc.depth, agree, c, n);
  }

  /** And it does nothing else: however many steps it has taken, the original program visits the same places. */
  lemma InterceptedObjectIsSimulated(cpu: Cpu, inp: Input, L: seq<Ins>, cap: nat, g: Generator, text0: seq<Byte>,
                                     m: Memory, rest: int -> Byte, env: Env, cc: Compiled,
                                     stray: (int, int, State) -> Exit, agree: Relation, c: Config, steps: nat)
    returns (n: nat)
    requires StagesDone(inp, g, text0, m) && FromListing(inp, L, cap) && NoLeaShared(inp, L)
    requires env.kernel == cpu.kernel && Forwarding(env) && CConvention(cc) && g.level1 == cc.wrapper
    requires var su := InterceptedSetup(cpu, inp, L, cap, g, text0, m, rest, env, cc, stray);
      IsRun(su.r) && AllDescribed(su) && Forever(su, agree, c) && Observable(su, c.pc) && agree(c.pc, c.st, c.st)
    ensures var su := InterceptedSetup(cpu, inp, L, cap, g, text0, m, rest, env, cc, stray);
      ValidGenerator(su.g) && Correspond(agree, VisitsOriginal(su, c, n), VisitsPatched(su, c, steps))
  {
    hide StagesDone, FromListing, NoLeaShared, NoLeaCutOff, IsRun, Unshared, LeaSafe, AllDescribed, Forwards, Forever,
      Observable, VisitsPatched, VisitsOriginal, Forwarding, CConvention, TemplateBlock, PoliteStates, Correspond,
      RunOf;
    TemplateForwards(env, cc, stray);
    ConditionsOfInput(inp, L, cap);
    RunOfInput(inp, L, cap);
    n := PatchedObjectIsSimulated(cpu, inp, RunOf(inp, L, cap), g, text0, m, rest, TemplateBlock(env, cc, stray),
                                  PoliteStates(env, cc), FRAME_SIZE + cc.depth, agree, c, steps);
  }

  // ----- one object, from its bytes to its runs -----

  /** A patched object: what planning started from, the original text and the memory after patching. */
  datatype Object = Object(inp: Input, L: seq<Ins>, cap: nat, g: Generator, text0: seq<Byte>, m: Memory)

  /** All that its runs depend on besides. */
  datatype Circumstances = Circumstances(
    cpu: Cpu, rest: int -> Byte, env: Env, cc: Compiled, stray: (int, int, State) -> Exit, agree: Relation)

  ghost function SetupIn(w: Circumstances, o: Object): Setup {
    InterceptedSetup(w.cpu, o.inp, o.L, o.cap, o.g, o.text0, o.m, w.rest, w.env, w.cc, w.stray)
  }

  /** A client that forwards every call, C code that keeps to its convention, and a truthful disassembler. */
  ghost predicate Suitable(w: Circumstances, o: Object) {
    var su := SetupIn(w, o);
    && w.env.kernel == w.cpu.kernel && Forwarding(w.env) && CConvention(w.cc) && o.g.level1 == w.cc.wrapper
    && IsRun(su.r) && AllDescribed(su)
  }

  /** The original program runs well for n steps, between observable places. */
  ghost predicate RunsWell(w: Circumstances, o: Object, c: Config, n: nat)
    requires Suitable(w, o)
  {
    var su := SetupIn(w, o);
    Ongoing(su, w.agree, c, n) && Observable(su, c.pc) && w.agree(c.pc, c.st, c.st)
  }

  /** It runs well for ever. */
  ghost predicate RunsWellForever(w: Circumstances, o: Object, c: Config)
    requires Suitable(w, o)
  {
    var su := SetupIn(w, o);
    Forever(su, w.agree, c) && Observable(su, c.pc) && w.agree(c.pc, c.st, c.st)
  }

  /** Some number of steps of the patched program matches n steps of the original one. */
  ghost predicate Matches(w: Circumstances, o: Object, c: Config, n: nat)
    requires ValidGenerator(o.g)
  {
    var su := SetupIn(w, o);
    exists steps :: Meet(su, w.agree, c, n, c, steps)
      && Correspond(w.agree, VisitsOriginal(su, c, n), VisitsPatched(su, c, steps))
  }

  /** Some number of steps of the original program visits what the first `steps` of the patched one visit. */
  ghost predicate Mirrored(w: Circumstances, o: Object, c: Config, steps: nat)
    requires ValidGenerator(o.g)
  {
    var su := SetupIn(w, o);
    exists n :: Correspond(w.agree, VisitsOriginal(su, c, n), VisitsPatched(su, c, steps))
  }

  /** Whatever the circumstances, the patched object does what the original does, and nothing else. */
  ghost predicate RunsAsBefore(o: Object)
    requires ValidGenerator(o.g)
  {
    && (forall w, c, n: nat :: Suitable(w, o) && RunsWell(w, o, c, n) ==> Matches(w, o, c, n))
    && (forall w, c, steps: nat :: Suitable(w, o) && RunsWellForever(w, o, c) ==> Mirrored(w, o, c, steps))
  }

  lemma DoneRunsAsBefore(o: Object)
    requires StagesDone(o.inp, o.g, o.text0, o.m) && FromListing(o.inp, o.L, o.cap) && NoLeaShared(o.inp, o.L)
    requires ValidGenerator(o.g)
    ensures RunsAsBefore(o)
  {
    hide StagesDone, FromListing, NoLeaShared, IsRun, AllDescribed, Ongoing, Forever, Observable, Meet, Correspond,
      VisitsOriginal, VisitsPatched, Forwarding, CConvention, InterceptedSetup;
    forall w, c, n: nat | Suitable(w, o) && RunsWell(w, o, c, n)
      ensures Matches(w, o, c, n)
    {
      var steps := InterceptedObjectSimulates(w.cpu, o.inp, o.L, o.cap, o.g, o.text0, o.m, w.rest, w.env, w.cc,
                                              w.stray, w.agree, c, n);
    }
    forall w, c, steps: nat | Suitable(w, o) && RunsWellForever(w, o, c)
      ensures Mirrored(w, o, c, steps)
    {
      var n := InterceptedObjectIsSimulated(w.cpu, o.inp, o.L, o.cap, o.g, o.text0, o.m, w.rest, w.env, w.cc,
                                            w.stray, w.agree, c, steps);
    }
  }

  /** No byte of the text is skipped by the sweep. */
  ghost predicate Gapless(dis: int -> Ins, start: int, end: int) {
    var L := Sweep(dis, start, end);
    dis(start).length > 0 && forall k :: 0 <= k < |L| ==> NoGapAfter(dis, L, end, k)
  }

  /**
   Intercepting one object, from its bytes to its runs: if it does not abort, which it does in exactly three
   cases, and the text has no gaps and no LEA shared by two patches, then the object runs as before. If
   moreover no LEA is cut off by a jump destination, no window can be entered at one, be it named by the
   tables or referred to by an instruction.
   */
  method Intercept(dis: int -> Ins, known: seq<int>, text: array<Byte>, start: int, end: int, maps: seq<Mapping>,
                   minAddress: int, space: array<Byte>, spaceBase: int, dst: int, g: Generator)
    returns (ok: bool, table: array<Byte>, tableBase: int, next: int)
    requires text != space && text.Length == end - start + 1 && ValidGenerator(g)
    requires IsDisassembler(dis, start, end) && InstructionSizes(dis)
    requires Surroundings(Sweep(dis, start, end), start, end, maps, minAddress,
                          spaceBase, space.Length, dst, |g.template|)
    modifies text, space
    ensures fresh(table)
    ensures var inp, L := StartInput(dis, known, start, end, dst, g), Sweep(dis, start, end);
      && (ok <==>
            && !NoPlace(maps, start, end, minAddress) && EveryWindowFits(inp)
            && TRAMPOLINE_SIZE * |inp.items| < TABLE_SIZE)
      && (ok && Gapless(dis, start, end) && NoLeaShared(inp, L) ==>
            RunsAsBefore(Object(inp, L, TableCount(start, end), g, old(text[..]),
                                Memory(start, text[..], true, tableBase, table[..], spaceBase, space[..]))))
      && (Gapless(dis, start, end) && NoLeaShared(inp, L) && NoLeaCutOff(inp, L) ==> NothingEntered(inp, L, known))
  {
    hide StagesDone, FromListing, NoLeaShared, NoLeaCutOff, RunsAsBefore, NoPlace, EveryWindowFits, StartInput,
      NothingEntered;
    ok, table, tableBase, next := PatchObject(dis, known, text, start, end, maps, minAddress, space, spaceBase, dst, g);
    ghost var inp, L := StartInput(dis, known, start, end, dst, g), Sweep(dis, start, end);
    if Gapless(dis, start, end) && NoLeaShared(inp, L) && NoLeaCutOff(inp, L) {
      StartFromListing(dis, known, start, end, dst, g);
      EntriesStayOut(dis, known, start, end, dst, g);
    }
    if ok && Gapless(dis, start, end) && NoLeaShared(inp, L) {
      StartFromListing(dis, known, start, end, dst, g);
      DoneRunsAsBefore(Object(inp, L, TableCount(start, end), g, old(text[..]),
                              Memory(start, text[..], true, tableBase, table[..], spaceBase, space[..])));
    }
  }

  // ----- a kernel that reads and writes the program's memory -----

  const SYS_read := 0
  const SYS_open := 2

  /** open depends on the word that its path points at, and read writes its buffer. */
  function FileKernel(): Kernel {
    Kernel((c: Call, m: Mem, trace: seq<Call>) =>
             if |c.args| < 2 then (0, m)
             else if c.nr == SYS_open then (Load(m, c.args[0]), m)
             else if c.nr == SYS_read then (8, m[c.args[1] := |trace|])
             else (0, m),
           (c: Call, r: Regs, m: Mem, trace: seq<Call>) => (r, m),
           (r: Regs, m: Mem, trace: seq<Call>) => Resumption(0, r, 0, m))
  }

  function FileEnv(): Env {
    Env((c: Call, m: Mem) => None, None, (rax: int, m: Mem) => m, FileKernel())
  }

  /** Such calls are polite as long as path and buffer are not below the red zone. */
  lemma FileCallsArePolite(cc: Compiled, s: State)
    requires var c, z := CallOf(s.regs), ZoneAt(cc, s.regs[RSP]);
      c.nr in {SYS_read, SYS_open} && !InZones(z, c.args[0]) && !InZones(z, c.args[1])
    ensures Forwarding(FileEnv()) && Polite(FileEnv(), cc, s)
  {
  }
}
