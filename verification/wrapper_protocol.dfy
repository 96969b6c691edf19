/**
 The protocol between the template, intercept_wrapper and the C routines (src/intercept_template.S,
 src/intercept_wrapper.S, src/intercept.c): the choice of the C routine by RCX, the dispatch on R11, and
 the second pass after a clone. The rules for calling C are those of section 3.2.2 of the System V AMD64 ABI.
 */
module WrapperProtocol {
  import opened Encoding
  import opened Machine
  import opened Simulation
  import opened Hooking
  import opened WrapperFrame

  /** Bytes of stack below the red zone that the two layers use, alignment included. */
  const FRAME_SIZE := 0x480

  /**
   The compiled C code: it uses `depth` bytes of stack and leaves `scratch` behind in registers and on its
   stack. `wrapper` is the address of intercept_wrapper.
   */
  datatype Compiled = Compiled(depth: nat, scratch: (Regs, Mem) -> (Regs, Mem), wrapper: int)

  /**
   Called with RSP a multiple of 16, C code keeps RSP and writes no stack other than its own; nothing else
   is needed.
   */
  ghost predicate CConvention(cc: Compiled) {
    forall regs, m {:trigger cc.scratch(regs, m)} :: regs[RSP] % 16 == 0 ==>
      && cc.scratch(regs, m).0[RSP] == regs[RSP]
      && forall a :: !(regs[RSP] - cc.depth <= a < regs[RSP]) ==> Load(cc.scratch(regs, m).1, a) == Load(m, a)
  }

  // ----- the layers as functions of the state -----

  /** The call of a C routine, with its context in RDI; RCX chooses the routine. */
  function CSide(env: Env, cc: Compiled, s: State): State {
    var (regs, m) := cc.scratch(s.regs, s.mem);
    var ctx := s.regs[RDI];
    if s.regs[RCX] == 1 then
      var (ret, m1) := AfterClone(env, ctx, m);
      s.(regs := regs[RAX := ret.rax][RDX := ret.rdx], mem := m1)
    else
      var (ret, m1, calls) := Decide(env, CallInContext(m, ctx), SavedRax(ctx), m, s.trace);
      s.(regs := regs[RAX := ret.rax][RDX := ret.rdx], mem := m1, trace := calls)
  }

  /** intercept_wrapper: save, call C, restore, return. */
  function Wrapper(env: Env, cc: Compiled, s: State): State {
    var regs := SavedRegs(s.mem, s.regs);
    var saved := s.(regs := regs[RDI := regs[RSP] + 0xe8], mem := Saved(s.mem, s.regs).0);
    var t := CSide(env, cc, saved);
    var after := RestoredRegs(t.regs, t.mem);
    t.(regs := after[RSP := after[RSP] + 8])
  }

  /** The template from label 0 to the restored RSP. */
  function Pass(env: Env, cc: Compiled, patch: int, s: State): State {
    var t := Wrapper(env, cc, SetUp(s, patch, cc.wrapper));
    t.(regs := t.regs[RSP := Load(t.mem, t.regs[RSP])])
  }

  /**
   How a run of the template ends: the state, how often C was entered, whether it stopped at the hlt, and
   where the thread continues if the kernel resumes it elsewhere.
   */
  datatype Outcome = Outcome(st: State, entries: nat, halted: bool, resume: Option<int>)

  /** The syscall in the original context. */
  function Called(env: Env, t: State, entries: nat): Outcome {
    Outcome(KernelStep(env.kernel, t, 0), entries, false, KernelResume(env.kernel, t))
  }

  /** After the last pass: the syscall in the original context if R11 is 0, nothing more if it is 1. */
  function Ended(env: Env, t: State, entries: nat): Outcome {
    if t.regs[R11] == 0 then Called(env, t, entries) else Outcome(t, entries, t.regs[R11] != 1, None)
  }

  /** The clone in the original context, and RCX for the second pass. */
  function Cloned(env: Env, t: State): State {
    var u := KernelStep(env.kernel, t, 0);
    u.(regs := u.regs[RCX := 1])
  }

  /** The template, as far as a second pass. */
  function Template(env: Env, cc: Compiled, patch: int, s: State): Outcome {
    var t := Pass(env, cc, patch, s.(regs := s.regs[RCX := 0]));
    if t.regs[R11] != 2 then Ended(env, t, 1)
    else if KernelResume(env.kernel, t).Some? then Called(env, t, 1)
    else Ended(env, Pass(env, cc, patch, Cloned(env, t)), 2)
  }

  // ----- what a hooked call amounts to -----

  /** What the C side decides about a call, on the program's own memory. */
  function DecideCall(env: Env, s: State): (WrapperRet, Mem, seq<Call>) {
    Decide(env, CallOf(s.regs), _ => s.regs[RAX], s.mem, s.trace)
  }

  /** The hook's verdict on the call about to be made. */
  function VerdictOn(env: Env, s: State): (bool, int, Mem) {
    Verdict(env, CallOf(s.regs), s.mem, s.trace)
  }

  /** The call goes to the kernel: it is not magic, and the hook forwards it or cannot be asked. */
  predicate Reaches(env: Env, s: State) {
    var c := CallOf(s.regs);
    env.magic(c, s.mem).None? && (VerdictOn(env, s).0 || c.nr == SYS_vfork || c.nr == SYS_rt_sigreturn)
  }

  /**
   What a hooked syscall amounts to, whatever the wrapper does to get there: one call to the kernel with
   the original number and arguments, followed by the hooks for the parent or the child after a clone
   with its own stack; or the answer of the magic handler or of the hook.
   */
  function Hooked(env: Env, s: State): State {
    var c := CallOf(s.regs);
    var magic := env.magic(c, s.mem);
    var (_, result, m) := VerdictOn(env, s);
    if Reaches(env, s) then
      var t := KernelStep(env.kernel, s.(mem := m), 0);
      if IsCloneWithStack(c, m) then t.(mem := env.cloned(t.regs[RAX], t.mem)) else t
    else if magic.Some? then s.(regs := s.regs[RAX := magic.value])
    else s.(regs := s.regs[RAX := result], mem := m)
  }

  /** Where the thread continues, if the kernel is reached and resumes it elsewhere. */
  function HookedResume(env: Env, s: State): Option<int> {
    if Reaches(env, s) then KernelResume(env.kernel, s.(mem := VerdictOn(env, s).2)) else None
  }

  /** Equal but for RCX and R11. */
  ghost predicate SameRegs(r: Regs, r': Regs) {
    forall i :: 0 <= i < 16 && i != RCX && i != R11 ==> r[i] == r'[i]
  }

  /** The three answers of the C side, and what is left to do for each. */
  lemma DecideCodes(env: Env, s: State)
    ensures var d := DecideCall(env, s); var h := Hooked(env, s);
      && d.0.rdx in {0, 1, 2}
      && (d.0.rdx == 1 ==> SameRegs(h.regs, s.regs[RAX := d.0.rax]) && h.mem == d.1 && h.trace == d.2)
      && (d.0.rdx != 1 ==> d.0.rax == s.regs[RAX] && d.2 == s.trace && IsSpecial(CallOf(s.regs), d.1))
      && (d.0.rdx != 0 ==> HookedResume(env, s).None?)
      && (d.0.rdx == 0 ==>
            var u := s.(mem := d.1);
            h == KernelStep(env.kernel, u, 0) && HookedResume(env, s) == KernelResume(env.kernel, u))
      && (d.0.rdx == 2 ==>
            && !IsSigreturn(CallOf(s.regs))
            && var t := KernelStep(env.kernel, s.(mem := d.1), 0);
            h == t.(mem := env.cloned(t.regs[RAX], t.mem)))
  {
    hide CallOf;
  }

  // ----- whose the stack below the red zone is -----

  /** Two ranges of stack memory; the first is the one in use. */
  datatype Zones = Zones(lo: int, hi: int, lo2: int, hi2: int)

  predicate InZones(z: Zones, a: int) {
    z.lo <= a < z.hi || z.lo2 <= a < z.hi2
  }

  /** The memories agree outside the zones. */
  ghost predicate SameBut(m: Mem, m': Mem, z: Zones) {
    forall a :: !InZones(z, a) ==> Load(m, a) == Load(m', a)
  }

  /** The zone in use is as it was. */
  ghost predicate Kept(m: Mem, m': Mem, z: Zones) {
    forall a :: z.lo <= a < z.hi ==> Load(m, a) == Load(m', a)
  }

  /** The zone that a pass uses when the program's stack pointer is rsp. */
  function ZoneAt(cc: Compiled, rsp: int): Zones {
    var lo, hi := rsp - 0x80 - FRAME_SIZE - cc.depth, rsp - 0x80;
    Zones(lo, hi, lo, hi)
  }

  /** The zone of the second pass, together with that of the first. */
  function BothZones(cc: Compiled, rsp: int, first: int): Zones {
    var z, z' := ZoneAt(cc, rsp), ZoneAt(cc, first);
    Zones(z.lo, z.hi, z'.lo, z'.hi)
  }

  /** This call of the hook, on this memory, does not look at the zones and leaves the one in use alone. */
  ghost predicate PrivateHook(env: Env, c: Call, m: Mem, trace: seq<Call>, z: Zones) {
    forall m' {:trigger SameBut(m, m', z)} :: SameBut(m, m', z) ==>
      var v, v' := Verdict(env, c, m, trace), Verdict(env, c, m', trace);
      && env.magic(c, m') == env.magic(c, m)
      && (env.magic(c, m).None? ==> v'.0 == v.0 && v'.1 == v.1 && SameBut(v.2, v'.2, z) && Kept(m', v'.2, z))
  }

  /** Nor does this call of the kernel ... */
  ghost predicate PrivateServe(k: Kernel, c: Call, m: Mem, trace: seq<Call>, z: Zones) {
    forall m' {:trigger SameBut(m, m', z)} :: SameBut(m, m', z) ==>
      var w, w' := k.serve(c, m, trace), k.serve(c, m', trace);
      w'.0 == w.0 && SameBut(w.1, w'.1, z) && Kept(m', w'.1, z)
  }

  /** ... or this special one; RCX and R11 do not matter to it either. */
  ghost predicate PrivateSpecial(k: Kernel, c: Call, regs: Regs, m: Mem, trace: seq<Call>, z: Zones) {
    forall regs', m' {:trigger SameRegs(regs, regs'), SameBut(m, m', z)} ::
      SameRegs(regs, regs') && SameBut(m, m', z) ==>
      if IsSigreturn(c) then
        var w, w' := k.resume(regs, m, trace), k.resume(regs', m', trace);
        w'.pc == w.pc && w'.regs == w.regs && w'.flags == w.flags && SameBut(w.mem, w'.mem, z)
      else
        var w, w' := k.special(c, regs, m, trace), k.special(c, regs', m', trace);
        SameRegs(w.0, w'.0) && SameBut(w.1, w'.1, z)
  }

  /** Nor do the hooks that run after a clone. */
  ghost predicate PrivateCloned(env: Env, rax: int, m: Mem, z: Zones) {
    forall m' {:trigger SameBut(m, m', z)} :: SameBut(m, m', z) ==>
      SameBut(env.cloned(rax, m), env.cloned(rax, m'), z) && Kept(m', env.cloned(rax, m'), z)
  }

  /** The sixth word of clone3's argument structure, if that is the call, is not in the zones. */
  predicate ArgumentsOutside(c: Call, z: Zones)
    requires |c.args| == 6
  {
    c.nr == SYS_clone3 ==> !InZones(z, c.args[0] + 40)
  }

  /** All that the C side does with the call about to be made leaves the zones alone. */
  ghost predicate PrivateCall(env: Env, c: Call, m: Mem, trace: seq<Call>, z: Zones)
    requires |c.args| == 6
  {
    var v := Verdict(env, c, m, trace);
    && ArgumentsOutside(c, z) && PrivateHook(env, c, m, trace, z)
    && (env.magic(c, m).None? && v.0 && !IsSpecial(c, v.2) ==> PrivateServe(env.kernel, c, v.2, trace, z))
  }

  /** The call about to be made and what follows it do not concern the stack that the wrapper uses. */
  ghost predicate Polite(env: Env, cc: Compiled, s: State) {
    var c, z, d := CallOf(s.regs), ZoneAt(cc, s.regs[RSP]), DecideCall(env, s);
    && PrivateCall(env, c, s.mem, s.trace, z)
    && (d.0.rdx != 1 ==> PrivateSpecial(env.kernel, c, s.regs, d.1, s.trace, z))
    && (d.0.rdx == 2 ==>
          var u := KernelStep(env.kernel, s.(mem := d.1), 0);
          PrivateCloned(env, u.regs[RAX], u.mem, BothZones(cc, u.regs[RSP], s.regs[RSP])))
  }

  lemma SameButWrites(m0: Mem, m1: Mem, m2: Mem, lo: int, hi: int, z: Zones)
    requires SameBut(m0, m1, z) && SameMem(m1, m2, lo, hi) && z.lo <= lo && hi <= z.hi
    ensures SameBut(m0, m2, z)
  {
  }

  // ----- the C side sees the program's own memory -----

  /**
   Seen through the frame, the C side decides as it would on the program's own memory m0, and leaves the
   frame alone.
   */
  lemma DecideThroughFrame(env: Env, s: State, m: Mem, ctx: int, z: Zones)
    requires PrivateCall(env, CallOf(s.regs), s.mem, s.trace, z) && SameBut(s.mem, m, z)
    requires z.lo <= ctx && ctx + CTX_RAX < z.hi && Load(m, ctx + CTX_RAX) == s.regs[RAX]
    ensures var d, d0 := Decide(env, CallOf(s.regs), SavedRax(ctx), m, s.trace), DecideCall(env, s);
      d.0 == d0.0 && d.2 == d0.2 && SameBut(d0.1, d.1, z) && Kept(m, d.1, z)
  {
    hide SameBut, Kept, CallOf, PrivateHook, PrivateServe, Verdict, InZones;
    var c := CallOf(s.regs);
    HookThrough(env, c, s.mem, m, s.trace, z);
    if env.magic(c, s.mem).None? {
      var v0, v := Verdict(env, c, s.mem, s.trace), Verdict(env, c, m, s.trace);
      KeptAt(m, v.2, z, ctx + CTX_RAX);
      if c.nr == SYS_clone3 {
        SameButAt(v0.2, v.2, z, c.args[0] + 40);
      }
      if v.0 && !IsSpecial(c, v0.2) {
        ServeThrough(env.kernel, c, v0.2, v.2, s.trace, z);
        KeptTrans(m, v.2, env.kernel.serve(c, v.2, s.trace).1, z);
      }
    } else {
      KeptRefl(m, z);
    }
  }

  lemma HookThrough(env: Env, c: Call, m: Mem, m': Mem, trace: seq<Call>, z: Zones)
    requires PrivateHook(env, c, m, trace, z) && SameBut(m, m', z)
    ensures env.magic(c, m') == env.magic(c, m)
    ensures env.magic(c, m).None? ==>
      var v, v' := Verdict(env, c, m, trace), Verdict(env, c, m', trace);
      v'.0 == v.0 && v'.1 == v.1 && SameBut(v.2, v'.2, z) && Kept(m', v'.2, z)
  {
    hide SameBut, Kept, Verdict;
  }

  lemma ServeThrough(k: Kernel, c: Call, m: Mem, m': Mem, trace: seq<Call>, z: Zones)
    requires PrivateServe(k, c, m, trace, z) && SameBut(m, m', z)
    ensures var w, w' := k.serve(c, m, trace), k.serve(c, m', trace);
      w'.0 == w.0 && SameBut(w.1, w'.1, z) && Kept(m', w'.1, z)
  {
    hide SameBut, Kept;
  }

  lemma KeptAt(m: Mem, m': Mem, z: Zones, a: int)
    requires Kept(m, m', z) && z.lo <= a < z.hi
    ensures Load(m, a) == Load(m', a)
  {
  }

  lemma KeptTrans(m0: Mem, m1: Mem, m2: Mem, z: Zones)
    requires Kept(m0, m1, z) && Kept(m1, m2, z)
    ensures Kept(m0, m2, z)
  {
  }

  lemma KeptRefl(m: Mem, z: Zones)
    ensures Kept(m, m, z)
  {
  }

  lemma SameButAt(m: Mem, m': Mem, z: Zones, a: int)
    requires SameBut(m, m', z) && !InZones(z, a)
    ensures Load(m, a) == Load(m', a)
  {
  }

  lemma ClonedThrough(env: Env, rax: int, m: Mem, m': Mem, z: Zones)
    requires PrivateCloned(env, rax, m, z) && SameBut(m, m', z)
    ensures SameBut(env.cloned(rax, m), env.cloned(rax, m'), z) && Kept(m', env.cloned(rax, m'), z)
  {
    hide SameBut, Kept;
  }

  /**
   What a pass needs: `own` is the program's own state, as it would be without the wrapper, and t the real
   one. They have the same call to make, or the same clone behind them, and differ only in the zones.
   */
  ghost predicate Entering(env: Env, own: State, t: State, z: Zones) {
    && SameBut(own.mem, t.mem, z) && own.trace == t.trace && own.regs[RAX] == t.regs[RAX]
    && (t.regs[RCX] != 1 ==>
        CallOf(t.regs) == CallOf(own.regs) && PrivateCall(env, CallOf(own.regs), own.mem, own.trace, z))
    && (t.regs[RCX] == 1 ==> PrivateCloned(env, own.regs[RAX], own.mem, z))
  }

  /** The answer of the C side, for the second routine or the first: rax and code, calls made, and memory. */
  ghost predicate Answers(env: Env, own: State, second: bool, rax: int, code: int, t: State, z: Zones) {
    if second then
      rax == own.regs[RAX] && code == 1 && t.trace == own.trace && SameBut(env.cloned(own.regs[RAX], own.mem), t.mem, z)
    else
      var d := DecideCall(env, own);
      rax == d.0.rax && code == d.0.rdx && t.trace == d.2 && SameBut(d.1, t.mem, z)
  }

  /** The C side, called with the registers `regs` saved in the frame at q.regs[RSP]. */
  lemma CSideHolds(env: Env, cc: Compiled, own: State, regs: Regs, q: State, z: Zones)
    requires CConvention(cc) && Entering(env, own, q.(regs := regs), z)
    requires var sp := q.regs[RSP];
      && sp % 16 == 0 && z.lo <= sp - cc.depth && sp + 0x168 <= z.hi
      && FrameHolds(q.mem, sp, regs, |SAVED|) && q.regs[RCX] == regs[RCX] && q.regs[RDI] == sp + 0xe8
    ensures var sp, t := q.regs[RSP], CSide(env, cc, q);
      && t.regs[RSP] == sp && FrameHolds(t.mem, sp, regs, |SAVED|)
      && (forall a :: sp <= a < z.hi ==> Load(t.mem, a) == Load(q.mem, a))
      && Answers(env, own, regs[RCX] == 1, t.regs[RAX], t.regs[RDX], t, z)
  {
    hide SameMem, SameBut, Kept, FrameHolds, DecideCall, CallOf, CallInContext, PrivateCall, PrivateCloned, Decide;
    var sp := q.regs[RSP];
    var ctx := sp + 0xe8;
    var mid := cc.scratch(q.regs, q.mem).1;
    ScratchStays(cc, q, own.mem, z);
    FrameStays(q.mem, mid, sp, regs, |SAVED|);
    ContextIsFrame(mid, sp, regs);
    var t := CSide(env, cc, q);
    if regs[RCX] == 1 {
      ClonedThrough(env, regs[RAX], own.mem, mid, z);
      KeptAt(mid, t.mem, z, ctx + CTX_RAX);
    } else {
      DecideThroughFrame(env, own, mid, ctx, z);
    }
    KeptFrom(q.mem, mid, t.mem, sp, z);
    FrameStays(q.mem, t.mem, sp, regs, |SAVED|);
  }

  lemma ScratchStays(cc: Compiled, q: State, m0: Mem, z: Zones)
    requires CConvention(cc) && q.regs[RSP] % 16 == 0 && z.lo <= q.regs[RSP] - cc.depth && q.regs[RSP] <= z.hi
    requires SameBut(m0, q.mem, z)
    ensures var after := cc.scratch(q.regs, q.mem);
      && after.0[RSP] == q.regs[RSP] && SameBut(m0, after.1, z)
      && forall a :: q.regs[RSP] <= a ==> Load(after.1, a) == Load(q.mem, a)
  {
  }

  lemma KeptFrom(m0: Mem, m1: Mem, m2: Mem, sp: int, z: Zones)
    requires z.lo <= sp && Kept(m1, m2, z) && forall a :: sp <= a ==> Load(m1, a) == Load(m0, a)
    ensures forall a :: sp <= a < z.hi ==> Load(m2, a) == Load(m0, a)
  {
  }

  /** intercept_wrapper: RSP points at the return address; registers are kept, the answer is in RAX and R11. */
  lemma WrapperHolds(env: Env, cc: Compiled, own: State, s: State, z: Zones)
    requires CConvention(cc) && Entering(env, own, s, z)
    requires s.regs[RSP] % 16 == 8 && z.lo <= s.regs[RSP] - 0x448 - cc.depth && s.regs[RSP] + 0x18 <= z.hi
    ensures var t := Wrapper(env, cc, s);
      && t.regs[RSP] == s.regs[RSP] + 8
      && (forall r :: 0 <= r < 16 && r !in {RAX, RCX, RSP, R11} ==> t.regs[r] == s.regs[r])
      && Load(t.mem, s.regs[RSP] + 8) == Load(s.mem, s.regs[RSP] + 8)
      && Answers(env, own, s.regs[RCX] == 1, t.regs[RAX], t.regs[R11], t, z)
  {
    hide SameMem, SameBut, FrameHolds, CallOf, CConvention, PrivateCall, PrivateCloned, CSide, Saved, RestoredRegs,
      DecideCall;
    var sp, m := s.regs[RSP] - 0x448, Saved(s.mem, s.regs).0;
    SavedHolds(s.mem, s.regs);
    SameButWrites(own.mem, s.mem, m, sp + 0xe8, sp + 0x168, z);
    SameMemAt(s.mem, m, sp + 0xe8, sp + 0x168, s.regs[RSP] + 8);
    var regs := SavedRegs(s.mem, s.regs);
    var q := s.(regs := regs[RDI := regs[RSP] + 0xe8], mem := m);
    CSideHolds(env, cc, own, s.regs, q, z);
    var t := CSide(env, cc, q);
    RestoredHolds(t.regs, t.mem, s.regs);
  }

  /**
   One pass restores RSP and all general registers but RAX, RCX and R11, and writes nothing at or above the
   red zone.
   */
  lemma PassHolds(env: Env, cc: Compiled, patch: int, own: State, s: State, z: Zones)
    requires CConvention(cc) && Entering(env, own, s, z)
    requires z.lo == ZoneAt(cc, s.regs[RSP]).lo && z.hi == ZoneAt(cc, s.regs[RSP]).hi
    ensures var t := Pass(env, cc, patch, s);
      && (forall r :: 0 <= r < 16 && r !in {RAX, RCX, R11} ==> t.regs[r] == s.regs[r])
      && Answers(env, own, s.regs[RCX] == 1, t.regs[RAX], t.regs[R11], t, z)
  {
    hide SameMem, SameBut, CallOf, CConvention, PrivateCall, PrivateCloned, Wrapper, SetUp, DecideCall;
    SetUpHolds(s, patch, cc.wrapper);
    var t := SetUp(s, patch, cc.wrapper);
    SameButWrites(own.mem, s.mem, t.mem, z.hi - 0x28 - 15, z.hi, z);
    CallOfOthers(s.regs, t.regs);
    assert t.trace == s.trace by { TraceStays(s, patch, cc.wrapper); }
    WrapperHolds(env, cc, own, t, z);
  }

  lemma TraceStays(s: State, patch: int, wrapper: int)
    ensures SetUp(s, patch, wrapper).trace == s.trace
  {
  }

  lemma CallOfOthers(r: Regs, r': Regs)
    requires forall i :: 0 <= i < 16 && i !in {RSP, RCX, R11} ==> r[i] == r'[i]
    ensures CallOf(r) == CallOf(r') && r[RAX] == r'[RAX]
  {
  }

  // ----- the whole template -----

  /** Equal but for RCX, R11, the flags and the zones. */
  ghost predicate Near(z: Zones, s: State, t: State) {
    SameRegs(s.regs, t.regs) && SameBut(s.mem, t.mem, z) && s.trace == t.trace
  }

  lemma NearIsSameOutside(cc: Compiled, rsp: int, z: Zones, s: State, t: State)
    requires Near(z, s, t) && (z == ZoneAt(cc, rsp) || z == BothZones(cc, s.regs[RSP], rsp))
    ensures SameOutside(s, t, rsp, FRAME_SIZE + cc.depth)
  {
  }

  /** A state that a thread resumes with is not just near: registers and flags are the same. */
  ghost predicate ResumesAlike(k: Kernel, u: State, t: State) {
    && KernelResume(k, t) == KernelResume(k, u)
    && (KernelResume(k, u).Some? ==>
        KernelStep(k, t, 0).regs == KernelStep(k, u, 0).regs && KernelStep(k, t, 0).flags == KernelStep(k, u, 0).flags)
  }

  /** A special call made in the original context, after a pass, has the effect it would have had without the pass. */
  lemma SpecialNear(k: Kernel, u: State, t: State, z: Zones)
    requires var c := CallOf(u.regs);
      IsSpecial(c, u.mem) && ArgumentsOutside(c, z) && PrivateSpecial(k, c, u.regs, u.mem, u.trace, z)
    requires Near(z, u, t)
    ensures Near(z, KernelStep(k, u, 0), KernelStep(k, t, 0)) && ResumesAlike(k, u, t)
  {
    hide SameBut, CallOf, InZones, KernelStep, IsSigreturn;
    CallOfOthers(u.regs, t.regs);
    var c := CallOf(u.regs);
    if IsSigreturn(c) {
      ResumedStep(k, u);
      ResumedStep(k, t);
    } else {
      if c.nr == SYS_clone3 {
        SameButAt(u.mem, t.mem, z, c.args[0] + 40);
      }
      SpecialStep(k, u);
      SpecialStep(k, t);
      var w, w' := k.special(c, u.regs, u.mem, u.trace), k.special(c, t.regs, t.mem, t.trace);
      assert SameRegs(w.0, w'.0) && SameBut(w.1, w'.1, z);
      SameRegsLost(w.0, w'.0, u.flags, t.flags);
    }
  }

  lemma ResumedStep(k: Kernel, s: State)
    requires IsSigreturn(CallOf(s.regs))
    ensures var w := k.resume(s.regs, s.mem, s.trace);
      && KernelStep(k, s, 0) == State(w.regs, w.flags, w.mem, s.trace + [CallOf(s.regs)])
      && KernelResume(k, s) == Some(w.pc)
  {
    hide CallOf, IsSpecial, IsSigreturn;
  }

  lemma SpecialStep(k: Kernel, s: State)
    requires IsSpecial(CallOf(s.regs), s.mem) && !IsSigreturn(CallOf(s.regs))
    ensures var c := CallOf(s.regs); var w := k.special(c, s.regs, s.mem, s.trace);
      KernelStep(k, s, 0) == State(w.0[RCX := 0][R11 := s.flags], s.flags, w.1, s.trace + [c])
  {
    hide CallOf, IsSpecial, IsSigreturn;
  }

  lemma SameRegsLost(r: Regs, r': Regs, flags: int, flags': int)
    requires SameRegs(r, r')
    ensures SameRegs(r[RCX := 0][R11 := flags], r'[RCX := 0][R11 := flags'])
  {
  }

  /** The state after the first pass, next to the program's own state once the hook has run. */
  lemma FirstPass(env: Env, cc: Compiled, patch: int, s: State)
    requires CConvention(cc) && Polite(env, cc, s)
    ensures var t := Pass(env, cc, patch, s.(regs := s.regs[RCX := 0])); var d := DecideCall(env, s);
      t.regs[R11] == d.0.rdx && Near(ZoneAt(cc, s.regs[RSP]), State(s.regs[RAX := d.0.rax], s.flags, d.1, d.2), t)
  {
    hide SameBut, CallOf, CConvention, PrivateHook, PrivateServe, PrivateSpecial, PrivateCloned, Pass, DecideCall,
      KernelStep;
    var s0, z := s.(regs := s.regs[RCX := 0]), ZoneAt(cc, s.regs[RSP]);
    CallOfOthers(s.regs, s0.regs);
    SameButRefl(s.mem, z);
    PassHolds(env, cc, patch, s, s0, z);
  }

  lemma SameButRefl(m: Mem, z: Zones)
    ensures SameBut(m, m, z)
  {
  }

  /** The special call behind the first pass. */
  lemma AfterSpecial(env: Env, cc: Compiled, patch: int, s: State)
    requires CConvention(cc) && Polite(env, cc, s) && DecideCall(env, s).0.rdx != 1
    ensures var t := Pass(env, cc, patch, s.(regs := s.regs[RCX := 0])); var d := DecideCall(env, s);
      && Near(ZoneAt(cc, s.regs[RSP]), KernelStep(env.kernel, s.(mem := d.1), 0), KernelStep(env.kernel, t, 0))
      && ResumesAlike(env.kernel, s.(mem := d.1), t)
  {
    hide SameBut, CallOf, CConvention, PrivateHook, PrivateServe, PrivateSpecial, PrivateCloned, Pass, DecideCall,
      KernelStep, Hooked, IsSpecial, ZoneAt, ResumesAlike, KernelResume;
    var d := DecideCall(env, s);
    FirstPass(env, cc, patch, s);
    DecideCodes(env, s);
    var u := s.(mem := d.1);
    assert s.regs[RAX := s.regs[RAX]] == s.regs;
    SpecialNear(env.kernel, u, Pass(env, cc, patch, s.(regs := s.regs[RCX := 0])), ZoneAt(cc, s.regs[RSP]));
  }

  /** The second pass, on whatever stack the thread continues on. */
  lemma SecondPass(env: Env, cc: Compiled, patch: int, s: State, u: State, t: State)
    requires CConvention(cc) && Near(ZoneAt(cc, s.regs[RSP]), u, t)
    requires PrivateCloned(env, u.regs[RAX], u.mem, BothZones(cc, u.regs[RSP], s.regs[RSP]))
    ensures var t2 := Pass(env, cc, patch, t.(regs := t.regs[RCX := 1]));
      && t2.regs[R11] == 1
      && Near(BothZones(cc, u.regs[RSP], s.regs[RSP]), u.(mem := env.cloned(u.regs[RAX], u.mem)), t2)
  {
    hide CallOf, CConvention, PrivateCall, PrivateCloned, Pass, DecideCall, SameBut;
    var z := BothZones(cc, u.regs[RSP], s.regs[RSP]);
    var t1 := t.(regs := t.regs[RCX := 1]);
    MoreZones(u.mem, t.mem, ZoneAt(cc, s.regs[RSP]), z);
    PassHolds(env, cc, patch, u, t1, z);
  }

  lemma MoreZones(m: Mem, m': Mem, z: Zones, z': Zones)
    requires SameBut(m, m', z) && z.lo == z.lo2 == z'.lo2 && z.hi == z.hi2 == z'.hi2
    ensures SameBut(m, m', z')
  {
  }

  lemma CSideAnswers(env: Env, cc: Compiled, q: State)
    ensures var code := CSide(env, cc, q).regs[RDX]; code in {0, 1, 2} && (q.regs[RCX] == 1 ==> code == 1)
  {
    hide CallInContext, Decide, AfterClone;
    var (regs, m) := cc.scratch(q.regs, q.mem);
    var ctx := q.regs[RDI];
    if q.regs[RCX] == 1 {
      var ret := AfterClone(env, ctx, m).0;
      assert CSide(env, cc, q).regs == regs[RAX := ret.rax][RDX := ret.rdx];
      assert ret.rdx == 1 by { AfterCloneAnswers(env, ctx, m); }
    } else {
      var ret := Decide(env, CallInContext(m, ctx), SavedRax(ctx), m, q.trace).0;
      assert CSide(env, cc, q).regs == regs[RAX := ret.rax][RDX := ret.rdx];
      DecideAnswers(env, CallInContext(m, ctx), SavedRax(ctx), m, q.trace);
    }
  }

  lemma DecideAnswers(env: Env, c: Call, rax: Mem -> int, m: Mem, trace: seq<Call>)
    requires |c.args| == 6
    ensures Decide(env, c, rax, m, trace).0.rdx in {0, 1, 2}
  {
  }

  lemma AfterCloneAnswers(env: Env, ctx: int, m: Mem)
    ensures AfterClone(env, ctx, m).0.rdx == 1
  {
  }

  lemma WrapperAnswers(env: Env, cc: Compiled, s: State)
    ensures var code := Wrapper(env, cc, s).regs[R11]; code in {0, 1, 2} && (s.regs[RCX] == 1 ==> code == 1)
  {
    hide Saved, CSide, RestoreSlots;
    var regs := SavedRegs(s.mem, s.regs);
    var q := s.(regs := regs[RDI := regs[RSP] + 0xe8], mem := Saved(s.mem, s.regs).0);
    assert q.regs[RCX] == s.regs[RCX];
    CSideAnswers(env, cc, q);
    var t := CSide(env, cc, q);
    RestoredAnswer(t.regs, t.mem, |RESTORED|);
  }

  /** After a pass R11 is 0, 1 or 2, and 1 if RCX has chosen the second routine, whatever happens in C. */
  lemma PassAnswers(env: Env, cc: Compiled, patch: int, s: State)
    ensures var code := Pass(env, cc, patch, s).regs[R11]; code in {0, 1, 2} && (s.regs[RCX] == 1 ==> code == 1)
  {
    hide Wrapper;
    WrapperAnswers(env, cc, SetUp(s, patch, cc.wrapper));
  }

  lemma {:induction false} RestoredAnswer(regs: Regs, m: Mem, n: nat)
    requires n <= |RESTORED|
    ensures RestoreSlots(regs, m, n)[R11] == regs[RDX]
  {
    if n > 0 {
      RestoredAnswer(regs, m, n - 1);
      RestoredReg(n - 1);
    }
  }

  /** For every client, compiled code and state: the hlt is never reached, and C is entered once or twice. */
  lemma NeverHalts(env: Env, cc: Compiled, patch: int, s: State)
    ensures var o := Template(env, cc, patch, s); !o.halted && 1 <= o.entries <= 2
  {
    hide Pass, KernelStep, KernelResume;
    var s0 := s.(regs := s.regs[RCX := 0]);
    var t := Pass(env, cc, patch, s0);
    PassAnswers(env, cc, patch, s0);
    PassAnswers(env, cc, patch, Cloned(env, t));
  }

  /** The state in which a thread resumes after rt_sigreturn is the same in all registers and flags. */
  ghost predicate SameHooked(env: Env, s: State, t: State, rsp: int, depth: nat) {
    && SameOutside(Hooked(env, s), t, rsp, depth)
    && (HookedResume(env, s).Some? ==> t.regs == Hooked(env, s).regs && t.flags == Hooked(env, s).flags)
  }

  /**
   From every polite state the template has the effect of the hooked call, and continues where it does:
   nothing else differs than RCX, R11, the flags and the stack below the red zones.
   */
  lemma TemplateHolds(env: Env, cc: Compiled, patch: int, s: State)
    requires CConvention(cc) && Polite(env, cc, s)
    ensures var o := Template(env, cc, patch, s);
      && !o.halted && 1 <= o.entries <= 2
      && SameHooked(env, s, o.st, s.regs[RSP], FRAME_SIZE + cc.depth) && o.resume == HookedResume(env, s)
  {
    hide CallOf, CConvention, PrivateCall, PrivateSpecial, PrivateCloned, Pass, DecideCall, KernelStep, Hooked,
      SameOutside, ZoneAt, BothZones, Near, HookedResume, KernelResume, IsSigreturn;
    var t, d := Pass(env, cc, patch, s.(regs := s.regs[RCX := 0])), DecideCall(env, s);
    NeverHalts(env, cc, patch, s);
    FirstPass(env, cc, patch, s);
    DecideCodes(env, s);
    var z := ZoneAt(cc, s.regs[RSP]);
    if d.0.rdx == 1 {
      NearAnswer(z, s, d, Hooked(env, s), t);
      NearIsSameOutside(cc, s.regs[RSP], z, Hooked(env, s), t);
    } else {
      AfterSpecial(env, cc, patch, s);
      var u := KernelStep(env.kernel, s.(mem := d.1), 0);
      if d.0.rdx == 0 {
        NearIsSameOutside(cc, s.regs[RSP], z, u, KernelStep(env.kernel, t, 0));
      } else {
        assert KernelResume(env.kernel, t).None? by { NoResume(env.kernel, s.(mem := d.1)); }
        SecondPass(env, cc, patch, s, u, KernelStep(env.kernel, t, 0));
        var z2, t2 := BothZones(cc, u.regs[RSP], s.regs[RSP]), Pass(env, cc, patch, Cloned(env, t));
        NearIsSameOutside(cc, s.regs[RSP], z2, Hooked(env, s), t2);
      }
    }
  }

  lemma NoResume(k: Kernel, s: State)
    requires !IsSigreturn(CallOf(s.regs))
    ensures KernelResume(k, s).None?
  {
  }

  lemma NearAnswer(z: Zones, s: State, d: (WrapperRet, Mem, seq<Call>), h: State, t: State)
    requires Near(z, State(s.regs[RAX := d.0.rax], s.flags, d.1, d.2), t)
    requires SameRegs(h.regs, s.regs[RAX := d.0.rax]) && h.mem == d.1 && h.trace == d.2
    ensures Near(z, h, t)
  {
    hide SameBut;
  }

  /** What a hooked call returns: the kernel's result, or the one that the handler or the hook has given. */
  function Result(env: Env, s: State): int {
    var magic := env.magic(CallOf(s.regs), s.mem);
    if Reaches(env, s) then KernelRegs(env.kernel, s.(mem := VerdictOn(env, s).2))[RAX]
    else if magic.Some? then magic.value else VerdictOn(env, s).1
  }

  /** A call reaches the kernel exactly once, with its number and its six arguments, or not at all. */
  lemma KernelReachedOnce(env: Env, cc: Compiled, patch: int, s: State)
    requires CConvention(cc) && Polite(env, cc, s)
    ensures var t := Template(env, cc, patch, s).st;
      && t.trace == s.trace + (if Reaches(env, s) then [CallOf(s.regs)] else [])
      && t.regs[RAX] == Result(env, s)
    ensures var t := Template(env, cc, patch, s).st; var c := CallOf(s.regs);
      var magic := env.magic(c, s.mem); var v := Verdict(env, c, s.mem, s.trace);
      && (t.trace == s.trace || t.trace == s.trace + [c])
      && (t.trace != s.trace <==> magic.None? && (v.0 || c.nr == 15 || c.nr == 58))
      && (magic.Some? ==> t.regs[RAX] == magic.value)
      && (magic.None? && t.trace == s.trace ==> t.regs[RAX] == v.1)
      && (t.trace != s.trace && !IsSpecial(c, v.2) ==> t.regs[RAX] == env.kernel.serve(c, v.2, s.trace).0)
  {
    hide CallOf, CConvention, Polite, Template;
    TemplateHolds(env, cc, patch, s);
  }

  /** A call after which the stack pointer differs, or which resumes elsewhere, is not made from C. */
  lemma StackMovesOutsideC(env: Env, s: State)
    ensures var d := DecideCall(env, s); var u := s.(mem := VerdictOn(env, s).2);
      KernelRegs(env.kernel, u)[RSP] != s.regs[RSP] || KernelResume(env.kernel, u).Some? ==>
        d.2 == s.trace && (Reaches(env, s) ==> d.0.rdx in {0, 2})
  {
    hide CallOf;
    DecideCodes(env, s);
  }

  /** Any other general register comes back, unless the kernel itself changes it in a special call. */
  lemma RegistersComeBack(env: Env, cc: Compiled, patch: int, s: State)
    requires CConvention(cc) && Polite(env, cc, s)
    requires !(Reaches(env, s) && IsSpecial(CallOf(s.regs), VerdictOn(env, s).2))
    ensures forall r :: 0 <= r < 16 && r !in {RAX, RCX, R11} ==> Template(env, cc, patch, s).st.regs[r] == s.regs[r]
  {
    hide CallOf, CConvention, Polite, Template;
    TemplateHolds(env, cc, patch, s);
  }
}
