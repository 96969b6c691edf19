/** Whole runs: the patched program visits the same observable addresses, in the same order, in states that agree. */
module SimulationRun {
  import opened Bytes
  import opened Encoding
  import opened Listing
  import opened Plan
  import opened Overlap
  import opened WrapperCode
  import opened Activate
  import opened Machine
  import opened Simulation
  import opened SimulationSteps

  // ----- which instruction starts are observable -----

  /** An instruction start strictly inside a window is not observable. */
  lemma InsideIsHidden(su: Setup, i: nat, e: nat)
    requires IsRun(su.r) && i < |su.r.ps| && Inside(su.r, i, e)
    ensures e < |su.r.L| && !Observable(su, At(su.r.L, e))
  {
    hide Ordered, MarksAccumulate, UsesPrev, UsesPrev2, UsesNext;
    var r, p := su.r, su.r.ps[i];
    assert IsPlan(r.L, r.ks[i], p, r.ms[i], r.ns[i]);
    AtOrder(r.L, r.start, r.end, Lo(p, r.ks[i]), e);
    AtOrder(r.L, r.start, r.end, e, Hi(p, r.ks[i]));
    assert Interior(p, At(r.L, e));
  }

  /** No instruction starts strictly inside what a patch overwrites, other than in a window. */
  lemma InteriorStart(r: Run, i: nat, e: nat)
    requires IsRun(r) && i < |r.ps| && e <= |r.L| && Interior(r.ps[i], At(r.L, e))
    ensures Inside(r, i, e)
  {
    hide Ordered, MarksAccumulate, UsesPrev, UsesPrev2, UsesNext;
    var p := r.ps[i];
    assert IsPlan(r.L, r.ks[i], p, r.ms[i], r.ns[i]);
    if p.form.ViaWindow? {
      AtOrder(r.L, r.start, r.end, Lo(p, r.ks[i]), e);
      AtOrder(r.L, r.start, r.end, e, Hi(p, r.ks[i]));
    } else {
      ItemFacts(r.L, r.start, r.end, r.ks[i]);
      var _ := At(r.L, r.ns[i] + 1);
      AtOrder(r.L, r.start, r.end, r.ks[i], e);
      AtOrder(r.L, r.start, r.end, e, r.ks[i] + 1);
      AtOrder(r.L, r.start, r.end, r.ns[i], e);
      AtOrder(r.L, r.start, r.end, e, r.ns[i] + 1);
    }
  }

  lemma StartIsObservable(su: Setup, e: nat)
    requires Installed(su) && e < |su.r.L|
    requires forall i :: 0 <= i < |su.r.ps| ==> !Inside(su.r, i, e)
    ensures Observable(su, At(su.r.L, e))
  {
    hide Unshared, TextIsOriginal, OthersUnchanged, WrappersApart, InstalledPatch, AllPlanned, Ordered,
      MarksAccumulate, Interior, Inside;
    AtOrder(su.r.L, su.r.start, su.r.end, e, |su.r.L|);
    assert InText(su, At(su.r.L, e));
    forall i | 0 <= i < |su.r.ps|
      ensures !Interior(su.r.ps[i], At(su.r.L, e))
    {
      if Interior(su.r.ps[i], At(su.r.L, e)) {
        InteriorStart(su.r, i, e);
      }
    }
  }

  lemma ElsewhereIsObservable(su: Setup, a: int)
    requires Installed(su) && Elsewhere(su, a)
    ensures Observable(su, a)
  {
    hide Unshared, TextIsOriginal, OthersUnchanged, WrappersApart, InstalledPatch, RegionsApart;
    forall i | 0 <= i < |su.r.ps|
      ensures !Interior(su.r.ps[i], a)
    {
      if Interior(su.r.ps[i], a) {
        hide IsRun;
        assert Writes(su.r.ps[i], a);
        WritesInText(su.r, i, a);
      }
    }
  }

  /** Where control arrives by a jump, a call or a return is observable. */
  lemma EntryIsObservable(su: Setup, a: int)
    requires Installed(su) && Entry(su, a)
    ensures Observable(su, a)
  {
    hide Tiled, AllPlanned, Ordered, MarksAccumulate, TextIsOriginal, OthersUnchanged, WrappersApart, InstalledPatch,
      RegionsApart, Observable, Unshared, Inside;
    var r := su.r;
    if Elsewhere(su, a) {
      ElsewhereIsObservable(su, a);
    } else {
      var e :| 0 <= e < |r.L| && a == At(r.L, e) && OutsideWindows(r, e);
      StartIsObservable(su, e);
    }
  }

  /** The return address of a patch is strictly inside no window. */
  lemma ReturnNotInside(r: Run, i: nat, e: nat)
    requires IsRun(r) && Unshared(r) && i < |r.ps| && e == Hi(r.ps[i], r.ks[i])
    ensures e <= |r.L| && r.ps[i].ret == At(r.L, e)
    ensures forall b :: 0 <= b < |r.ps| ==> !Inside(r, b, e)
  {
    hide LeaShared, LeaEntered, Tiled, AllPlanned, Ordered, MarksAccumulate;
    var f := ReturnAddress(r, i);
    assert f == e;
    forall b | 0 <= b < |r.ps|
      ensures !Inside(r, b, e)
    {
      if Inside(r, b, e) {
        ReturnInside(r, b, e, i);
      }
    }
  }

  /**
   Falling through from an instruction that no patch touches, or from a window, one arrives at an
   observable place.
   */
  lemma FallThroughIsObservable(su: Setup, agree: Relation, c: Config, e: nat)
    requires Installed(su) && GoodStep(su, agree, c)
    requires e <= |su.r.L| && StepOriginal(su, c).pc == At(su.r.L, e)
    requires forall i :: 0 <= i < |su.r.ps| ==> !Inside(su.r, i, e)
    ensures Observable(su, At(su.r.L, e))
  {
    hide TextIsOriginal, OthersUnchanged, WrappersApart, InstalledPatch, RegionsApart, Observable, Unshared, Inside,
      SameAfter, KernelStep, KernelResume, StepOriginal, AllPlanned, Ordered, MarksAccumulate;
    if e < |su.r.L| {
      StartIsObservable(su, e);
    } else {
      if !Elsewhere(su, At(su.r.L, e)) {
        var f :| 0 <= f < |su.r.L| && At(su.r.L, e) == At(su.r.L, f);
        AtOrder(su.r.L, su.r.start, su.r.end, f, e);
      }
      ElsewhereIsObservable(su, At(su.r.L, e));
    }
  }

  // ----- steps in lockstep -----

  /** The two programs are at the same observable place, in states that agree. */
  ghost predicate Matched(su: Setup, agree: Relation, c: Config, d: Config) {
    c.pc == d.pc && Observable(su, c.pc) && agree(c.pc, c.st, d.st)
  }

  /** A syscall instruction executed in place loses no more than the wrapper does. */
  lemma SyscallInPlace(su: Setup, a: int, t: State)
    requires IsSyscall(Window(su.code0, a))
    ensures var o := StepOriginal(su, Config(a, t));
      o.pc == Or(KernelResume(su.cpu.kernel, t), a + 2) && SameAfter(su.cpu.kernel, t, o.st, su.depth)
  {
    hide KernelStep, KernelResume, SameAfter;
    var w := Window(su.code0, a);
    NotAbsoluteJump(w);
    assert IsSyscall(w[..2]);
    ReturnAddressIsLost(su.cpu.kernel, t, a + 2, su.depth);
  }

  lemma ReturnAddressIsLost(k: Kernel, t: State, ret: int, depth: nat)
    ensures SameAfter(k, t, KernelStep(k, t, ret), depth)
  {
    hide CallOf, KernelMem, KernelRegs;
    var after := KernelRegs(k, t);
    if KernelResume(k, t).None? {
      assert KernelStep(k, t, 0).regs == after[RCX := 0][R11 := t.flags];
      assert KernelStep(k, t, ret).regs == after[RCX := ret][R11 := t.flags];
    }
  }

  lemma SyscallSite(su: Setup, i: nat)
    requires IsRun(su.r) && AllDescribed(su) && i < |su.r.ps|
    ensures var L, k := su.r.L, su.r.ks[i];
      k + 1 < |L| && At(L, k + 1) == At(L, k) + 2 && IsSyscall(Window(su.code0, At(L, k))) && InText(su, At(L, k))
  {
    hide Ordered, MarksAccumulate, PositionFree, PrefixCode, UsesPrev, UsesPrev2, UsesNext, Window;
    var r, k := su.r, su.r.ks[i];
    assert IsPlan(r.L, k, r.ps[i], r.ms[i], r.ns[i]);
    ItemFacts(r.L, r.start, r.end, k);
    AtOrder(r.L, r.start, r.end, k, k + 1);
    AtOrder(r.L, r.start, r.end, k + 1, |r.L|);
    assert Describes(su.cpu, su.code0, r.L[k]);
  }

  /** The two addresses in the template are those of patch i and of intercept_wrapper. */
  lemma TemplateAddresses(su: Setup, i: nat)
    requires Installed(su) && i < |su.r.ps|
    ensures var x := TemplateAt(su.r.ps[i]);
      && LoadedAt(su.code1, x + su.g.descAt) == DescAddress(su.g, i)
      && LoadedAt(su.code1, x + su.g.level1At) == su.g.level1
  {
    hide IsRun, Unshared, TextIsOriginal, OthersUnchanged, WrappersApart, InstalledPatch, RegionsApart, Instance,
      BytesBefore, BytesAfter, ReadablePlan, AbsoluteJumpBytes, SizeBefore, SizeAfter, BytesAt, DescAddress, LoadedAt,
      LoadsR11;
    WrapperParts(su, i);
    InstanceReadsBack(su.g, i);
    var x := TemplateAt(su.r.ps[i]);
    LoadedFrom(su.code1, x, Instance(su.g, i), su.g.descAt, DescAddress(su.g, i));
    LoadedFrom(su.code1, x, Instance(su.g, i), su.g.level1At, su.g.level1);
  }

  lemma LoadedFrom(code: int -> Byte, a: int, b: seq<Byte>, o: nat, value: nat)
    requires BytesAt(code, a, b) && LoadsR11(b, o, value)
    ensures LoadedAt(code, a + o) == value
  {
    hide IsMovabs, MovabsRegister, MovabsValue;
    ReadSlice(code, a, |b|, o, o + MOVABS_SIZE);
    assert Read(code, a + o, MOVABS_SIZE) == b[o..o + MOVABS_SIZE];
  }

  lemma TemplateStep(su: Setup, i: nat, t: State)
    requires Installed(su) && i < |su.r.ps|
    ensures var x, e := TemplateAt(su.r.ps[i]), su.block(DescAddress(su.g, i), su.g.level1, t);
      StepPatched(su, Config(x, t)) == Config(Or(e.resume, x + |su.g.template|), e.st)
  {
    hide IsRun, Unshared, TextIsOriginal, OthersUnchanged, WrappersApart, InstalledPatch, RegionsApart, BytesAt,
      Instance, BytesBefore, BytesAfter, ReadablePlan, AbsoluteJumpBytes, SizeBefore, SizeAfter, Step, LoadedAt,
      DescAddress;
    WrapperParts(su, i);
    TemplateAddresses(su, i);
    assert AtTemplate(su, TemplateAt(su.r.ps[i]), i);
  }

  /** One step of the original at the syscall, one pass through the template in the patched program. */
  lemma SyscallStep(su: Setup, agree: Relation, i: nat, s: State, t: State)
    requires Installed(su) && AllDescribed(su) && Forwards(su.cpu.kernel, su.depth, su.g.level1, su.block, su.polite)
    requires i < |su.r.ps|
    requires su.r.ks[i] < |su.r.L|
    requires var c := Config(At(su.r.L, su.r.ks[i]), s); GoodStep(su, agree, c) && agree(c.pc, s, t)
    ensures su.r.ks[i] + 1 < |su.r.L|
    ensures var k, x := su.r.ks[i], TemplateAt(su.r.ps[i]);
      var c, d := StepOriginal(su, Config(At(su.r.L, k), s)), StepPatched(su, Config(x, t));
      var resume := KernelResume(su.cpu.kernel, s);
      && c.pc == Or(resume, At(su.r.L, k + 1)) && d.pc == Or(resume, x + |su.g.template|)
      && agree(c.pc, c.st, d.st)
  {
    hide Unshared, Tiled, AllPlanned, Ordered, MarksAccumulate, TextIsOriginal, OthersUnchanged, WrappersApart,
      InstalledPatch, RegionsApart, AllDescribed, Listed, Entry, Elsewhere, FarInstruction, SameAfter, KernelStep,
      KernelResume, StepOriginal, StepPatched, Window, IsSyscall, TemplateAt;
    SyscallSite(su, i);
    TemplateStep(su, i, t);
    SyscallInPlace(su, At(su.r.L, su.r.ks[i]), s);
    assert SameAfter(su.cpu.kernel, t, su.block(DescAddress(su.g, i), su.g.level1, t).st, su.depth);
  }

  /** One step at a relocated instruction in each program. */
  lemma NeighbourStep(su: Setup, agree: Relation, i: nat, j: nat, s: State, t: State)
    requires Installed(su) && AllDescribed(su) && i < |su.r.ps| && Covers(su.r, i, j) && j != su.r.ks[i] && j < |su.r.L|
    requires var c := Config(At(su.r.L, j), s); GoodStep(su, agree, c) && agree(c.pc, s, t)
    ensures var x := PosIn(su.r.ps[i], su.r.ks[i], j, |su.g.template|);
      var c, d := StepOriginal(su, Config(At(su.r.L, j), s)), StepPatched(su, Config(x, t));
      && agree(c.pc, c.st, d.st)
      && (if su.r.L[j].IsRet() then c.pc == d.pc
          else c.pc == At(su.r.L, j + 1) && d.pc == PosIn(su.r.ps[i], su.r.ks[i], j + 1, |su.g.template|))
  {
    hide Unshared, OthersUnchanged, WrappersApart, RegionsApart, InstalledPatch, Ordered, MarksAccumulate,
      TextIsOriginal, AllDescribed, Entry, Elsewhere, FarInstruction, SameAfter, KernelStep, KernelResume, BytesAt,
      Step, Relocated, Readable;
    var r, k := su.r, su.r.ks[i];
    var x := PosIn(r.ps[i], k, j, |su.g.template|);
    CoveredIsRelocatable(r, i, j);
    RelocatedAt(su, i, j);
    RelocatedStep(su, i, j, x, t);
    PositionFacts(su, i, j);
    PlainStepInWrapper(su, i, Config(x, t));
    NotSyscallBytes(su, j);
  }

  lemma NotSyscallBytes(su: Setup, j: nat)
    requires IsRun(su.r) && AllDescribed(su) && j < |su.r.L| && !su.r.L[j].IsSyscall()
    ensures !IsSyscall(Window(su.code0, At(su.r.L, j)))
  {
    hide IsRun, PrefixCode, PositionFree;
    assert Describes(su.cpu, su.code0, su.r.L[j]);
  }

  /** The positions of neighbouring instructions in the wrapper. */
  lemma PositionFacts(su: Setup, i: nat, j: nat)
    requires IsRun(su.r) && ValidGenerator(su.g) && i < |su.r.ps| && Covers(su.r, i, j) && j != su.r.ks[i]
    ensures j < |su.r.L|
    ensures var p, k, T := su.r.ps[i], su.r.ks[i], |su.g.template|; var x := PosIn(p, k, j, T);
      && p.wrapper <= x < p.wrapper + WrapperSize(p, T) && x != TemplateAt(p)
      && PosIn(p, k, j + 1, T) == x + RelocatedSize(su.r.L[j])
  {
    hide Ordered, MarksAccumulate, UsesPrev, UsesPrev2, UsesNext;
    var r, k := su.r, su.r.ks[i];
    assert IsPlan(r.L, k, r.ps[i], r.ms[i], r.ns[i]);
    assert RelocatedSize(r.L[j]) > 0;
  }

  // ----- through a whole window -----

  /** Everything the simulation rests on, apart from the run itself. */
  ghost predicate Ready(su: Setup) {
    Installed(su) && AllDescribed(su) && Forwards(su.cpu.kernel, su.depth, su.g.level1, su.block, su.polite)
  }

  /** The original run goes on for n steps and ends at an observable place. */
  ghost predicate Ongoing(su: Setup, agree: Relation, c: Config, n: nat)
    requires IsRun(su.r)
  {
    GoodRun(su, agree, c, n) && Observable(su, RunOriginal(su, c, n).pc)
  }

  /** The original run goes on for n steps; these are at least k, or they end at an observable place. */
  ghost predicate Lasts(su: Setup, agree: Relation, c: Config, n: nat, k: int)
    requires IsRun(su.r)
  {
    GoodRun(su, agree, c, n) && (n >= k || Observable(su, RunOriginal(su, c, n).pc))
  }

  lemma LastsStep(su: Setup, agree: Relation, c: Config, n: nat, k: int)
    requires IsRun(su.r) && n > 0 && Lasts(su, agree, c, n, k)
    ensures GoodStep(su, agree, c) && Lasts(su, agree, StepOriginal(su, c), n - 1, k - 1)
  {
    hide IsRun, GoodStep, Observable;
  }

  /** b steps of the original and m steps of the patched program lead to matching places. */
  ghost predicate Meet(su: Setup, agree: Relation, c: Config, b: nat, d: Config, m: nat)
    requires ValidGenerator(su.g)
  {
    Matched(su, agree, RunOriginal(su, c, b), RunPatched(su, d, m))
  }

  /** One more step in front of both runs. */
  lemma MeetLater(su: Setup, agree: Relation, c: Config, b: nat, d: Config, m: nat)
    requires ValidGenerator(su.g) && Meet(su, agree, StepOriginal(su, c), b, StepPatched(su, d), m)
    ensures Meet(su, agree, c, b + 1, d, m + 1)
    ensures VisitsOriginal(su, c, b + 1) == Seen(su, c) + VisitsOriginal(su, StepOriginal(su, c), b)
    ensures VisitsPatched(su, d, m + 1) == Seen(su, d) + VisitsPatched(su, StepPatched(su, d), m)
  {
    hide Matched, StepOriginal, StepPatched, Seen;
  }

  /** The way back: the absolute jump at the end of the wrapper. */
  lemma WayBack(su: Setup, i: nat, x: int, t: State)
    requires Installed(su) && i < |su.r.ps| && x == TemplateAt(su.r.ps[i]) + |su.g.template| + SizeAfter(su.r.ps[i])
    ensures StepPatched(su, Config(x, t)) == Config(su.r.ps[i].ret, t)
    ensures Seen(su, Config(x, t)) == []
  {
    hide IsRun, Unshared, TextIsOriginal, OthersUnchanged, WrappersApart, RegionsApart, Step, BytesAt,
      AbsoluteJumpBytes, Observable, WrapperBytes, ReadablePlan, AllFit, SizeBefore, SizeAfter, JumpBytes,
      ShortJumpBytes, Instance, BytesBefore, BytesAfter;
    WrapperParts(su, i);
    assert InstalledPatch(su, i);
    WrapperInSpace(su, i, x);
    PlainStepInWrapper(su, i, Config(x, t));
    AbsoluteJumpStep(su.cpu, su.code1, x, su.r.ps[i].ret, t);
  }

  /** From instruction j of the window of patch i control does not fall through: a return, or a resumed thread. */
  ghost predicate Departs(su: Setup, i: nat, j: nat, s: State)
    requires i < |su.r.ks| && j < |su.r.L|
  {
    su.r.L[j].IsRet() || (j == su.r.ks[i] && KernelResume(su.cpu.kernel, s).Some?)
  }

  /** Instruction j of the window, in both programs; the patched one is in the wrapper. */
  lemma WindowStep(su: Setup, agree: Relation, i: nat, j: nat, s: State, t: State)
    requires Ready(su) && i < |su.r.ps| && Covers(su.r, i, j) && j < |su.r.L|
    requires var c := Config(At(su.r.L, j), s); GoodStep(su, agree, c) && agree(c.pc, s, t)
    ensures var x := PosIn(su.r.ps[i], su.r.ks[i], j, |su.g.template|);
      var c, d := StepOriginal(su, Config(At(su.r.L, j), s)), StepPatched(su, Config(x, t));
      && agree(c.pc, c.st, d.st)
      && Seen(su, Config(x, t)) == []
      && (if Departs(su, i, j, s) then c.pc == d.pc
          else c.pc == At(su.r.L, j + 1) && d.pc == PosIn(su.r.ps[i], su.r.ks[i], j + 1, |su.g.template|))
  {
    hide KernelResume, Unshared, Tiled, AllPlanned, Ordered, MarksAccumulate, TextIsOriginal, OthersUnchanged,
      WrappersApart, RegionsApart, InstalledPatch, AllDescribed, Forwards, GoodStep, StepOriginal, StepPatched,
      Observable, RelocatedSize;
    var x := PosIn(su.r.ps[i], su.r.ks[i], j, |su.g.template|);
    CoveredIsRelocatable(su.r, i, j);
    if j == su.r.ks[i] {
      SyscallStep(su, agree, i, s, t);
      WrapperInSpace(su, i, x);
    } else {
      NeighbourStep(su, agree, i, j, s, t);
      PositionFacts(su, i, j);
      WrapperInSpace(su, i, x);
    }
  }

  /**
   From instruction j of a window on, until both programs are back at an observable place. The original
   is in the text, the patched program in the wrapper.
   */
  lemma WalkWindow(su: Setup, agree: Relation, i: nat, j: nat, s: State, t: State, n: nat) returns (b: nat, m: nat)
    requires Ready(su) && i < |su.r.ps| && su.r.ps[i].form.ViaWindow?
    requires Lo(su.r.ps[i], su.r.ks[i]) <= j <= Hi(su.r.ps[i], su.r.ks[i]) && j <= |su.r.L| && 0 < |su.r.L|
    requires agree(At(su.r.L, j), s, t)
    requires Lasts(su, agree, Config(At(su.r.L, j), s), n, Hi(su.r.ps[i], su.r.ks[i]) - j)
    requires j == Lo(su.r.ps[i], su.r.ks[i]) ==> n > 0
    requires j == Hi(su.r.ps[i], su.r.ks[i]) ==> Observable(su, At(su.r.L, j))
    ensures var c, d := Config(At(su.r.L, j), s), Config(PosIn(su.r.ps[i], su.r.ks[i], j, |su.g.template|), t);
      && b <= n && m > 0 && (j < Hi(su.r.ps[i], su.r.ks[i]) ==> b > 0)
      && Meet(su, agree, c, b, d, m)
      && VisitsOriginal(su, c, b) == (if j == Lo(su.r.ps[i], su.r.ks[i]) then Seen(su, c) else [])
      && VisitsPatched(su, d, m) == []
    decreases Hi(su.r.ps[i], su.r.ks[i]) - j
  {
    hide Lasts, KernelResume, Unshared, Tiled, AllPlanned, Ordered, MarksAccumulate, TextIsOriginal, OthersUnchanged,
      WrappersApart, RegionsApart, InstalledPatch, AllDescribed, Forwards, GoodStep, StepOriginal, StepPatched,
      Observable, RelocatedSize, SizeBefore, SizeAfter, VisitsOriginal, VisitsPatched, RunOriginal, RunPatched,
      GoodRun, Seen, Entry;
    var p, k := su.r.ps[i], su.r.ks[i];
    var c, d := Config(At(su.r.L, j), s), Config(PosIn(p, k, j, |su.g.template|), t);
    if j == Hi(p, k) {
      AtEnd(su, agree, i, j, s, t);
      return 0, 1;
    }
    if n == 0 {
      InsideIsHidden(su, i, j);
      NoSteps(su, agree, c, Hi(p, k) - j);
    }
    LastsStep(su, agree, c, n, Hi(p, k) - j);
    CoveredIsRelocatable(su.r, i, j);
    WindowStep(su, agree, i, j, s, t);
    var c1, d1 := StepOriginal(su, c), StepPatched(su, d);
    if Departs(su, i, j, s) {
      DepartsObservably(su, agree, i, j, s);
      NothingMore(su, agree, c1, d1);
      b, m := 0, 0;
    } else {
      if j + 1 == Hi(p, k) {
        ReturnNotInside(su.r, i, j + 1);
        FallThroughIsObservable(su, agree, c, j + 1);
      }
      b, m := WalkWindow(su, agree, i, j + 1, c1.st, d1.st, n - 1);
    }
    MeetLater(su, agree, c, b, d, m);
    if j != Lo(p, k) {
      InsideIsHidden(su, i, j);
      HiddenIsUnseen(su, c);
    }
    b, m := b + 1, m + 1;
  }

  lemma HiddenIsUnseen(su: Setup, c: Config)
    requires !Observable(su, c.pc)
    ensures Seen(su, c) == []
  {
    hide Observable;
  }

  lemma NoSteps(su: Setup, agree: Relation, c: Config, k: int)
    requires IsRun(su.r) && Lasts(su, agree, c, 0, k) && k > 0
    ensures Observable(su, c.pc)
  {
    hide IsRun, Observable;
  }

  lemma NothingMore(su: Setup, agree: Relation, c: Config, d: Config)
    requires ValidGenerator(su.g) && Matched(su, agree, c, d)
    ensures Meet(su, agree, c, 0, d, 0) && VisitsOriginal(su, c, 0) == [] && VisitsPatched(su, d, 0) == []
  {
    hide Matched;
  }

  /** At the end of the wrapper, one step takes the patched program to the return address. */
  lemma AtEnd(su: Setup, agree: Relation, i: nat, e: nat, s: State, t: State)
    requires Installed(su) && i < |su.r.ps| && su.r.ps[i].form.ViaWindow? && e == Hi(su.r.ps[i], su.r.ks[i]) <= |su.r.L|
    requires agree(At(su.r.L, e), s, t) && Observable(su, At(su.r.L, e))
    ensures var c, d := Config(At(su.r.L, e), s), Config(PosIn(su.r.ps[i], su.r.ks[i], e, |su.g.template|), t);
      && Meet(su, agree, c, 0, d, 1) && VisitsOriginal(su, c, 0) == [] && VisitsPatched(su, d, 1) == []
  {
    hide Unshared, Tiled, AllPlanned, Ordered, MarksAccumulate, TextIsOriginal, OthersUnchanged, WrappersApart,
      RegionsApart, InstalledPatch, StepOriginal, StepPatched, Observable, RelocatedSize, SizeBefore, Seen;
    var x := PosIn(su.r.ps[i], su.r.ks[i], e, |su.g.template|);
    ReturnNotInside(su.r, i, e);
    WayBack(su, i, x, t);
    assert RunPatched(su, Config(x, t), 1) == RunPatched(su, StepPatched(su, Config(x, t)), 0);
    assert VisitsPatched(su, Config(x, t), 1) == [] + VisitsPatched(su, StepPatched(su, Config(x, t)), 0);
  }

  /** A return instruction at the end of a window leads to an observable place. */
  lemma RetLeaves(su: Setup, agree: Relation, i: nat, j: nat, s: State)
    requires Installed(su) && i < |su.r.ps| && Covers(su.r, i, j) && j < |su.r.L| && su.r.L[j].IsRet()
    requires GoodStep(su, agree, Config(At(su.r.L, j), s))
    ensures Observable(su, StepOriginal(su, Config(At(su.r.L, j), s)).pc)
  {
    hide Unshared, AllPlanned, Ordered, MarksAccumulate, TextIsOriginal, OthersUnchanged, WrappersApart, RegionsApart,
      InstalledPatch, StepOriginal, Observable, SameAfter, KernelStep, KernelResume, Entry, FarInstruction;
    var c := Config(At(su.r.L, j), s);
    var d := StepOriginal(su, c);
    CoveredIsRelocatable(su.r, i, j);
    AtOrder(su.r.L, su.r.start, su.r.end, j, |su.r.L|);
    var f :| Listed(su, c.pc, d.pc, f);
    AtOrder(su.r.L, su.r.start, su.r.end, j, f);
    AtOrder(su.r.L, su.r.start, su.r.end, f, j);
    if Entry(su, d.pc) {
      EntryIsObservable(su, d.pc);
    } else {
      ReturnNotInside(su.r, i, j + 1);
      FallThroughIsObservable(su, agree, c, j + 1);
    }
  }

  /** So does the resumption of a thread elsewhere. */
  lemma ResumedObservably(su: Setup, agree: Relation, i: nat, s: State)
    requires Installed(su) && AllDescribed(su) && i < |su.r.ps| && su.r.ks[i] < |su.r.L|
    requires KernelResume(su.cpu.kernel, s).Some? && GoodStep(su, agree, Config(At(su.r.L, su.r.ks[i]), s))
    ensures Observable(su, StepOriginal(su, Config(At(su.r.L, su.r.ks[i]), s)).pc)
  {
    hide Unshared, Tiled, AllPlanned, Ordered, MarksAccumulate, TextIsOriginal, OthersUnchanged, WrappersApart,
      RegionsApart, InstalledPatch, StepOriginal, Observable, Entry, AllDescribed, Flows, Tolerates, KernelResume,
      Window, IsSyscall;
    SyscallSite(su, i);
    EntryIsObservable(su, StepOriginal(su, Config(At(su.r.L, su.r.ks[i]), s)).pc);
  }

  lemma DepartsObservably(su: Setup, agree: Relation, i: nat, j: nat, s: State)
    requires Installed(su) && AllDescribed(su) && i < |su.r.ps| && Covers(su.r, i, j) && j < |su.r.L|
    requires Departs(su, i, j, s) && GoodStep(su, agree, Config(At(su.r.L, j), s))
    ensures Observable(su, StepOriginal(su, Config(At(su.r.L, j), s)).pc)
  {
    hide Installed, AllDescribed, GoodStep, StepOriginal, Observable, KernelResume;
    if su.r.L[j].IsRet() {
      RetLeaves(su, agree, i, j, s);
    } else {
      ResumedObservably(su, agree, i, s);
    }
  }

  // ----- instructions that are still in place -----

  lemma UnchangedRange(su: Setup, a: int, n: nat)
    requires forall x :: a <= x < a + n ==> su.code1(x) == su.code0(x)
    ensures Read(su.code1, a, n) == Read(su.code0, a, n)
  {
  }

  lemma UntouchedBytes(su: Setup, j: nat)
    requires Installed(su) && j < |su.r.L|
    requires forall i :: 0 <= i < |su.r.ps| ==> !Touches(su.r, i, j)
    ensures InText(su, At(su.r.L, j)) && !InSpace(su, At(su.r.L, j))
    ensures Read(su.code1, At(su.r.L, j), su.r.L[j].length) == Read(su.code0, At(su.r.L, j), su.r.L[j].length)
  {
    hide Unshared, AllPlanned, Ordered, MarksAccumulate, TextIsOriginal, WrappersApart, InstalledPatch, Touches,
      Writes;
    var r, a := su.r, At(su.r.L, j);
    var _ := At(r.L, j + 1);
    AtOrder(r.L, r.start, r.end, j, j + 1);
    AtOrder(r.L, r.start, r.end, j + 1, |r.L|);
    assert InText(su, a);
    forall x | a <= x < a + r.L[j].length
      ensures su.code1(x) == su.code0(x)
    {
      assert InText(su, x);
      forall i | 0 <= i < |r.ps|
        ensures !Writes(r.ps[i], x)
      {
        if Writes(r.ps[i], x) { WrittenIsTouched(r, i, x, j); }
      }
    }
    UnchangedRange(su, a, r.L[j].length);
  }

  lemma PointerBytes(su: Setup, a: int)
    requires Installed(su) && PointerIntact(su, a) && IsAbsoluteJump(Window(su.code0, a))
    ensures Read(su.code1, a, TRAMPOLINE_SIZE) == Read(su.code0, a, TRAMPOLINE_SIZE)
  {
    hide IsRun, Unshared, TextIsOriginal, WrappersApart, InstalledPatch, RegionsApart, Writes, IsAbsoluteJump, Window;
    forall x | a <= x < a + TRAMPOLINE_SIZE
      ensures su.code1(x) == su.code0(x)
    {
      assert !InTable(su, x) && !InSpace(su, x);
    }
    UnchangedRange(su, a, TRAMPOLINE_SIZE);
  }

  /** An instruction that no patch touches executes as before. */
  lemma UntouchedStep(su: Setup, j: nat, t: State)
    requires Installed(su) && AllDescribed(su) && j < |su.r.L|
    requires forall i :: 0 <= i < |su.r.ps| ==> !Touches(su.r, i, j)
    ensures StepPatched(su, Config(At(su.r.L, j), t)) == StepOriginal(su, Config(At(su.r.L, j), t))
  {
    hide Unshared, Tiled, AllPlanned, Ordered, MarksAccumulate, TextIsOriginal, OthersUnchanged, RegionsApart,
      WrappersApart, InstalledPatch, Touches, Step, PositionFree, PrefixCode, StepPatched, Window, Length,
      IsAbsoluteJump;
    var a := At(su.r.L, j);
    assert Describes(su.cpu, su.code0, su.r.L[j]) && PointerIntact(su, a);
    UntouchedBytes(su, j);
    if IsAbsoluteJump(Window(su.code0, a)) {
      PointerBytes(su, a);
    }
    SameStep(su.cpu, su.code0, su.code1, Config(a, t));
    PlainStep(su, Config(a, t));
  }

  /** So does an instruction far away. */
  lemma FarStep(su: Setup, a: int, t: State)
    requires Installed(su) && AllDescribed(su) && Elsewhere(su, a) && FarInstruction(su, a)
    ensures StepPatched(su, Config(a, t)) == StepOriginal(su, Config(a, t))
  {
    hide IsRun, Unshared, TextIsOriginal, WrappersApart, InstalledPatch, RegionsApart, Writes, Step, Describes,
      PrefixCode, Window, Span;
    var n := Span(su.cpu, Window(su.code0, a));
    forall x | a <= x < a + n
      ensures su.code1(x) == su.code0(x)
    {
      assert Elsewhere(su, x);
      forall i | 0 <= i < |su.r.ps|
        ensures !Writes(su.r.ps[i], x)
      {
        if Writes(su.r.ps[i], x) { WritesInText(su.r, i, x); }
      }
    }
    UnchangedRange(su, a, n);
    SameStep(su.cpu, su.code0, su.code1, Config(a, t));
    PlainStep(su, Config(a, t));
  }

  // ----- the NOP form -----

  lemma NopFacts(su: Setup, i: nat)
    requires Installed(su) && i < |su.r.ps| && su.r.ps[i].form.ViaNop?
    ensures var r, p := su.r, su.r.ps[i]; var n, k := r.ns[i], r.ks[i];
      && n < |r.L| && r.L[n].IsOverwritableNop() && k + 1 < |r.L|
      && p.form.nop.address == At(r.L, n) && p.form.nop.address + p.form.nop.size == At(r.L, n + 1)
      && p.syscallAddr == At(r.L, k) && p.ret == At(r.L, k + 1) && p.dst == At(r.L, n) + 2
      && !InSpace(su, At(r.L, n)) && !InSpace(su, At(r.L, k)) && !Observable(su, p.dst)
  {
    hide Unshared, Ordered, MarksAccumulate, TextIsOriginal, OthersUnchanged, WrappersApart, InstalledPatch, UsesPrev,
      UsesPrev2, UsesNext, Writes;
    var r, p := su.r, su.r.ps[i];
    var n, k := r.ns[i], r.ks[i];
    assert IsPlan(r.L, k, p, r.ms[i], n);
    var _ := At(r.L, n + 1);
    AtOrder(r.L, r.start, r.end, n, n + 1);
    AtOrder(r.L, r.start, r.end, n + 1, |r.L|);
    AtOrder(r.L, r.start, r.end, k, |r.L|);
    assert InText(su, At(r.L, n)) && InText(su, At(r.L, k));
    assert Interior(p, p.dst);
  }

  /** The NOP that serves a patch is still skipped. */
  lemma NopStep(su: Setup, i: nat, t: State)
    requires Installed(su) && AllDescribed(su) && i < |su.r.ps| && su.r.ps[i].form.ViaNop? && su.r.ns[i] < |su.r.L|
    ensures var a := At(su.r.L, su.r.ns[i]); StepPatched(su, Config(a, t)) == StepOriginal(su, Config(a, t))
  {
    hide Unshared, AllPlanned, Ordered, MarksAccumulate, TextIsOriginal, OthersUnchanged, WrappersApart, RegionsApart,
      BytesAt, ShortJumpBytes, JumpBytes, PositionFree, PrefixCode, WrapperBytes, ReadablePlan, IsAbsoluteJump,
      Length, Exec, Observable;
    var r, p := su.r, su.r.ps[i];
    var a := At(r.L, r.ns[i]);
    NopFacts(su, i);
    assert InstalledPatch(su, i);
    ShortJumpStep(su.cpu, su.code1, a, p.form.nop.address + p.form.nop.size, t);
    PlainStep(su, Config(a, t));
    assert Describes(su.cpu, su.code0, r.L[r.ns[i]]);
    var _ := At(r.L, r.ns[i] + 1);
  }

  /** A syscall served by a NOP: two jumps or three, the template, the way back. */
  lemma NopBlock(su: Setup, agree: Relation, i: nat, s: State, t: State) returns (m: nat)
    requires Ready(su) && i < |su.r.ps| && su.r.ps[i].form.ViaNop? && su.r.ks[i] < |su.r.L|
    requires var c := Config(At(su.r.L, su.r.ks[i]), s); GoodStep(su, agree, c) && agree(c.pc, s, t)
    ensures var c, d := Config(At(su.r.L, su.r.ks[i]), s), Config(At(su.r.L, su.r.ks[i]), t);
      && m > 0 && Meet(su, agree, c, 1, d, m)
      && VisitsOriginal(su, c, 1) == Seen(su, c) && VisitsPatched(su, d, m) == Seen(su, d)
  {
    hide KernelResume, Unshared, Tiled, AllPlanned, Ordered, MarksAccumulate, TextIsOriginal, OthersUnchanged,
      WrappersApart, RegionsApart, AllDescribed, Forwards, GoodStep, StepOriginal, StepPatched, Observable,
      VisitsOriginal, VisitsPatched, AllFit, RunOriginal, RunPatched, Seen, BytesAt, WrapperBytes, ReadablePlan,
      JumpBytes, ShortJumpBytes, AbsoluteJumpBytes, Matched;
    var r, p, k := su.r, su.r.ps[i], su.r.ks[i];
    var c, d := Config(At(r.L, k), s), Config(At(r.L, k), t);
    NopFacts(su, i);
    SyscallStep(su, agree, i, s, t);
    var c1 := StepOriginal(su, c);
    var x := TemplateAt(p);
    var d1 := StepPatched(su, Config(x, t));
    // forward through the jumps
    ShortHop(su, i, t);
    DstUnseen(su, i, t);
    var m1 := EnterWrapper(su, i, t);
    WrapperUnseen(su, i, t);
    OneStep(su, c);
    DetourPatched(su, d, Config(p.dst, t), m1, Config(x, t), d1);
    if KernelResume(su.cpu.kernel, s).Some? {
      ResumedObservably(su, agree, i, s);
      MatchedHere(su, agree, c1, d1);
      m := m1 + 2;
    } else {
      // back at the return address
      ReturnNotInside(r, i, k + 1);
      FallThroughIsObservable(su, agree, c, k + 1);
      WayBack(su, i, d1.pc, d1.st);
      MatchedHere(su, agree, c1, Config(p.ret, d1.st));
      RunPatchedSplit(su, d, m1 + 2, 1);
      OnePatchedStep(su, d1);
      m := m1 + 3;
    }
  }

  lemma OnePatchedStep(su: Setup, d: Config)
    requires ValidGenerator(su.g)
    ensures RunPatched(su, d, 1) == StepPatched(su, d) && VisitsPatched(su, d, 1) == Seen(su, d)
  {
    hide StepPatched, Seen;
    assert RunPatched(su, d, 1) == RunPatched(su, StepPatched(su, d), 0);
    assert VisitsPatched(su, d, 1) == Seen(su, d) + VisitsPatched(su, StepPatched(su, d), 0);
  }

  lemma WrapperUnseen(su: Setup, i: nat, t: State)
    requires Installed(su) && i < |su.r.ps|
    ensures Seen(su, Config(su.r.ps[i].wrapper, t)) == []
  {
    hide Installed, Observable, SizeBefore, SizeAfter;
    WrapperInSpace(su, i, su.r.ps[i].wrapper);
  }

  lemma OneStep(su: Setup, c: Config)
    ensures RunOriginal(su, c, 1) == StepOriginal(su, c) && VisitsOriginal(su, c, 1) == Seen(su, c)
  {
    hide StepOriginal, Seen;
    assert RunOriginal(su, c, 1) == RunOriginal(su, StepOriginal(su, c), 0);
    assert VisitsOriginal(su, c, 1) == Seen(su, c) + VisitsOriginal(su, StepOriginal(su, c), 0);
  }

  /** One step, m unseen steps and one more unseen step, put together. */
  lemma DetourPatched(su: Setup, d: Config, d0: Config, m: nat, d1: Config, d2: Config)
    requires ValidGenerator(su.g)
    requires StepPatched(su, d) == d0 && RunPatched(su, d0, m) == d1 && VisitsPatched(su, d0, m) == []
    requires StepPatched(su, d1) == d2 && Seen(su, d1) == []
    ensures RunPatched(su, d, m + 2) == d2 && VisitsPatched(su, d, m + 2) == Seen(su, d)
  {
    hide StepPatched, Seen;
    OnePatchedStep(su, d1);
    RunPatchedSplit(su, d0, m, 1);
    assert RunPatched(su, d, m + 2) == RunPatched(su, d0, m + 1);
    assert VisitsPatched(su, d, m + 2) == Seen(su, d) + VisitsPatched(su, d0, m + 1);
  }

  lemma MatchedHere(su: Setup, agree: Relation, c: Config, d: Config)
    requires c.pc == d.pc && Observable(su, c.pc) && agree(c.pc, c.st, d.st)
    ensures Matched(su, agree, c, d)
  {
    hide Observable;
  }

  lemma ShortHop(su: Setup, i: nat, t: State)
    requires Installed(su) && i < |su.r.ps| && su.r.ps[i].form.ViaNop?
    ensures StepPatched(su, Config(su.r.ps[i].syscallAddr, t)) == Config(su.r.ps[i].dst, t)
  {
    hide Unshared, Tiled, AllPlanned, Ordered, MarksAccumulate, TextIsOriginal, OthersUnchanged, WrappersApart,
      RegionsApart, BytesAt, ShortJumpBytes, JumpBytes, WrapperBytes, ReadablePlan, Step;
    assert InstalledPatch(su, i);
    DstInText(su, i);
    ShortJumpStep(su.cpu, su.code1, su.r.ps[i].syscallAddr, su.r.ps[i].dst, t);
    PlainStep(su, Config(su.r.ps[i].syscallAddr, t));
  }

  lemma DstUnseen(su: Setup, i: nat, t: State)
    requires Installed(su) && i < |su.r.ps| && su.r.ps[i].form.ViaNop?
    ensures Seen(su, Config(su.r.ps[i].dst, t)) == []
  {
    hide Installed, Observable;
    NopFacts(su, i);
  }

  /** Runs and visits of the patched program, split in two. */
  lemma {:induction false} RunPatchedSplit(su: Setup, d: Config, m: nat, n: nat)
    requires ValidGenerator(su.g)
    ensures RunPatched(su, d, m + n) == RunPatched(su, RunPatched(su, d, m), n)
    ensures VisitsPatched(su, d, m + n) == VisitsPatched(su, d, m) + VisitsPatched(su, RunPatched(su, d, m), n)
    decreases m
  {
    hide StepPatched, Seen;
    if m > 0 {
      RunPatchedSplit(su, StepPatched(su, d), m - 1, n);
    }
  }

  // ----- blocks and runs -----

  /** States that agree still agree after the same original instruction. */
  lemma AgreeAfter(su: Setup, agree: Relation, c: Config, t: State)
    requires IsRun(su.r) && GoodStep(su, agree, c) && agree(c.pc, c.st, t)
    ensures var o, d := StepOriginal(su, Config(c.pc, t)), StepOriginal(su, c); o.pc == d.pc && agree(d.pc, d.st, o.st)
  {
    hide IsRun, StepOriginal, Listed, Entry, Elsewhere, FarInstruction, SameAfter, KernelStep, KernelResume, Window,
      IsSyscall;
    if IsSyscall(Window(su.code0, c.pc)) && InText(su, c.pc) {
      SyscallInPlace(su, c.pc, t);
      SyscallInPlace(su, c.pc, c.st);
    }
  }

  /** A step that is the same in both programs. */
  lemma LockStep(su: Setup, agree: Relation, c: Config, t: State)
    requires IsRun(su.r) && ValidGenerator(su.g)
    requires GoodStep(su, agree, c) && agree(c.pc, c.st, t)
    requires StepPatched(su, Config(c.pc, t)) == StepOriginal(su, Config(c.pc, t))
    requires Observable(su, StepOriginal(su, c).pc)
    ensures Meet(su, agree, c, 1, Config(c.pc, t), 1)
    ensures VisitsOriginal(su, c, 1) == Seen(su, c)
    ensures VisitsPatched(su, Config(c.pc, t), 1) == Seen(su, Config(c.pc, t))
  {
    hide IsRun, StepOriginal, StepPatched, Observable, GoodStep;
    var d := Config(c.pc, t);
    OneStep(su, c);
    AgreeAfter(su, agree, c, t);
    assert RunPatched(su, d, 1) == RunPatched(su, StepPatched(su, d), 0);
    assert VisitsPatched(su, d, 1) == Seen(su, d) + VisitsPatched(su, StepPatched(su, d), 0);
  }

  /** What the original may be doing at an observable place. */
  datatype Place = Far | InPlace(j: nat) | AtNop(i: nat) | AtNopSyscall(i: nat) | AtWindow(i: nat)

  /** The place is described rightly. */
  ghost predicate IsPlace(su: Setup, a: int, w: Place)
    requires IsRun(su.r)
  {
    match w
    case Far => Elsewhere(su, a) && FarInstruction(su, a)
    case InPlace(j) => j < |su.r.L| && a == At(su.r.L, j) && forall i :: 0 <= i < |su.r.ps| ==> !Touches(su.r, i, j)
    case AtNop(i) => i < |su.r.ps| && su.r.ps[i].form.ViaNop? && su.r.ns[i] < |su.r.L| && a == At(su.r.L, su.r.ns[i])
    case AtNopSyscall(i) =>
      && i < |su.r.ps| && su.r.ps[i].form.ViaNop?
      && su.r.ks[i] < |su.r.L| && a == At(su.r.L, su.r.ks[i])
    case AtWindow(i) =>
      && i < |su.r.ps| && su.r.ps[i].form.ViaWindow?
      && 0 <= Lo(su.r.ps[i], su.r.ks[i]) <= |su.r.L| && a == At(su.r.L, Lo(su.r.ps[i], su.r.ks[i]))
  }

  /** Every observable place of a good run is one of these. */
  lemma WhichPlace(su: Setup, agree: Relation, c: Config) returns (w: Place)
    requires Installed(su) && GoodStep(su, agree, c) && Observable(su, c.pc)
    ensures IsPlace(su, c.pc, w)
    ensures !w.Far? ==> exists j :: Listed(su, c.pc, StepOriginal(su, c).pc, j)
    ensures w.Far? ==> Entry(su, StepOriginal(su, c).pc)
  {
    hide Tiled, Unshared, AllPlanned, Ordered, MarksAccumulate, TextIsOriginal, OthersUnchanged, WrappersApart,
      RegionsApart, InstalledPatch, StepOriginal, Observable, SameAfter, KernelStep, KernelResume, Entry, Elsewhere,
      FarInstruction;
    var r := su.r;
    var d := StepOriginal(su, c).pc;
    if j :| Listed(su, c.pc, d, j) {
      if i :| 0 <= i < |r.ps| && Touches(r, i, j) {
        if r.ps[i].form.ViaNop? {
          w := if j == r.ks[i] then AtNopSyscall(i) else AtNop(i);
        } else {
          if Inside(r, i, j) { InsideIsHidden(su, i, j); }
          assert j == Lo(r.ps[i], r.ks[i]);
          w := AtWindow(i);
        }
      } else {
        w := InPlace(j);
      }
    } else {
      w := Far;
    }
  }

  /** From an instruction that is in no window, control goes to an observable place. */
  lemma LeavesObservably(su: Setup, agree: Relation, c: Config, j: nat)
    requires Installed(su) && GoodStep(su, agree, c) && j < |su.r.L| && c.pc == At(su.r.L, j)
    requires exists f :: Listed(su, c.pc, StepOriginal(su, c).pc, f)
    requires forall i :: 0 <= i < |su.r.ps| ==> !Covers(su.r, i, j)
    ensures Observable(su, StepOriginal(su, c).pc)
  {
    hide Unshared, AllPlanned, Ordered, MarksAccumulate, TextIsOriginal, OthersUnchanged, WrappersApart, RegionsApart,
      InstalledPatch, StepOriginal, Observable, SameAfter, KernelStep, KernelResume, Entry, FarInstruction, Elsewhere,
      GoodStep;
    var d := StepOriginal(su, c).pc;
    var f :| Listed(su, c.pc, d, f);
    AtOrder(su.r.L, su.r.start, su.r.end, j, f);
    AtOrder(su.r.L, su.r.start, su.r.end, f, j);
    if Entry(su, d) {
      EntryIsObservable(su, d);
    } else {
      var e := j + 1;
      forall i | 0 <= i < |su.r.ps|
        ensures !Inside(su.r, i, e)
      {
        assert Inside(su.r, i, e) ==> Covers(su.r, i, j);
      }
      FallThroughIsObservable(su, agree, c, e);
    }
  }

  lemma FarBlock(su: Setup, agree: Relation, c: Config, t: State)
    requires Ready(su) && GoodStep(su, agree, c) && agree(c.pc, c.st, t)
    requires IsPlace(su, c.pc, Far) && Entry(su, StepOriginal(su, c).pc)
    ensures Meet(su, agree, c, 1, Config(c.pc, t), 1)
    ensures VisitsOriginal(su, c, 1) == Seen(su, c)
    ensures VisitsPatched(su, Config(c.pc, t), 1) == Seen(su, Config(c.pc, t))
  {
    hide Unshared, Tiled, AllPlanned, Ordered, MarksAccumulate, TextIsOriginal, OthersUnchanged, WrappersApart,
      RegionsApart, InstalledPatch, AllDescribed, Forwards, GoodStep, StepOriginal, StepPatched, Observable, Meet,
      Seen, Entry, VisitsOriginal, VisitsPatched, FarInstruction, Elsewhere;
    FarStep(su, c.pc, t);
    EntryIsObservable(su, StepOriginal(su, c).pc);
    LockStep(su, agree, c, t);
  }

  lemma UntouchedBlock(su: Setup, agree: Relation, c: Config, t: State, j: nat)
    requires Ready(su) && GoodStep(su, agree, c) && agree(c.pc, c.st, t)
    requires IsPlace(su, c.pc, InPlace(j)) && exists f :: Listed(su, c.pc, StepOriginal(su, c).pc, f)
    ensures Meet(su, agree, c, 1, Config(c.pc, t), 1)
    ensures VisitsOriginal(su, c, 1) == Seen(su, c)
    ensures VisitsPatched(su, Config(c.pc, t), 1) == Seen(su, Config(c.pc, t))
  {
    hide Unshared, Tiled, AllPlanned, Ordered, MarksAccumulate, TextIsOriginal, OthersUnchanged, WrappersApart,
      RegionsApart, InstalledPatch, AllDescribed, Forwards, GoodStep, StepOriginal, StepPatched, Observable, Meet,
      Seen, Listed, VisitsOriginal, VisitsPatched;
    UntouchedStep(su, j, t);
    forall i | 0 <= i < |su.r.ps|
      ensures !Covers(su.r, i, j)
    {
      assert !Touches(su.r, i, j);
    }
    LeavesObservably(su, agree, c, j);
    LockStep(su, agree, c, t);
  }

  lemma NopInPlaceBlock(su: Setup, agree: Relation, c: Config, t: State, i: nat)
    requires Ready(su) && GoodStep(su, agree, c) && agree(c.pc, c.st, t)
    requires IsPlace(su, c.pc, AtNop(i)) && exists f :: Listed(su, c.pc, StepOriginal(su, c).pc, f)
    ensures Meet(su, agree, c, 1, Config(c.pc, t), 1)
    ensures VisitsOriginal(su, c, 1) == Seen(su, c)
    ensures VisitsPatched(su, Config(c.pc, t), 1) == Seen(su, Config(c.pc, t))
  {
    hide Unshared, Tiled, AllPlanned, Ordered, MarksAccumulate, TextIsOriginal, OthersUnchanged, WrappersApart,
      RegionsApart, InstalledPatch, AllDescribed, Forwards, GoodStep, StepOriginal, StepPatched, Observable, Meet,
      Seen, Listed, VisitsOriginal, VisitsPatched;
    var n := su.r.ns[i];
    NopFacts(su, i);
    NopStep(su, i, t);
    forall b | 0 <= b < |su.r.ps|
      ensures !Covers(su.r, b, n)
    {
      if Covers(su.r, b, n) { CoveredIsRelocatable(su.r, b, n); }
    }
    LeavesObservably(su, agree, c, n);
    LockStep(su, agree, c, t);
  }

  /** The window form: jump out, walk through the wrapper, come back. */
  lemma WindowBlock(su: Setup, agree: Relation, c: Config, t: State, i: nat, n: nat) returns (b: nat, m: nat)
    requires Ready(su) && n > 0 && Lasts(su, agree, c, n, 4) && agree(c.pc, c.st, t)
    requires IsPlace(su, c.pc, AtWindow(i))
    ensures 0 < b <= n && m > 0 && Meet(su, agree, c, b, Config(c.pc, t), m)
    ensures VisitsOriginal(su, c, b) == Seen(su, c)
    ensures VisitsPatched(su, Config(c.pc, t), m) == Seen(su, Config(c.pc, t))
  {
    hide Unshared, Tiled, AllPlanned, Ordered, MarksAccumulate, TextIsOriginal, OthersUnchanged, WrappersApart,
      RegionsApart, InstalledPatch, AllDescribed, Forwards, StepOriginal, StepPatched, Observable, Matched,
      RunOriginal, VisitsOriginal, RelocatedSize, GoodRun;
    var p, k := su.r.ps[i], su.r.ks[i];
    var lo := Lo(p, k);
    WindowStart(su, i);
    var m1 := EnterWrapper(su, i, t);
    var m2;
    b, m2 := WalkWindow(su, agree, i, lo, c.st, t, n);
    RunPatchedSplit(su, Config(c.pc, t), m1, m2);
    m := m1 + m2;
  }

  lemma WindowStart(su: Setup, i: nat)
    requires IsRun(su.r) && i < |su.r.ps| && su.r.ps[i].form.ViaWindow?
    ensures var p, k := su.r.ps[i], su.r.ks[i];
      && 0 < |su.r.L| && 0 <= Lo(p, k) < Hi(p, k) <= |su.r.L| && p.dst == At(su.r.L, Lo(p, k))
      && PosIn(p, k, Lo(p, k), |su.g.template|) == p.wrapper
  {
    hide Ordered, MarksAccumulate, UsesPrev, UsesPrev2, UsesNext, RelocatedSize;
    assert IsPlan(su.r.L, su.r.ks[i], su.r.ps[i], su.r.ms[i], su.r.ns[i]);
  }

  /** From one observable place to the next. */
  lemma Block(su: Setup, agree: Relation, c: Config, t: State, n: nat) returns (b: nat, m: nat)
    requires Ready(su) && n > 0 && Lasts(su, agree, c, n, 4) && Observable(su, c.pc) && agree(c.pc, c.st, t)
    ensures 0 < b <= n && m > 0 && Meet(su, agree, c, b, Config(c.pc, t), m)
    ensures VisitsOriginal(su, c, b) == Seen(su, c)
    ensures VisitsPatched(su, Config(c.pc, t), m) == Seen(su, Config(c.pc, t))
  {
    hide Unshared, Tiled, AllPlanned, Ordered, MarksAccumulate, TextIsOriginal, OthersUnchanged, WrappersApart,
      RegionsApart, InstalledPatch, AllDescribed, Forwards, StepOriginal, StepPatched, Observable, Meet, Seen, Listed,
      VisitsOriginal, VisitsPatched, GoodStep, Lasts, Entry, Elsewhere, FarInstruction, Touches;
    LastsStep(su, agree, c, n, 4);
    var w := WhichPlace(su, agree, c);
    b, m := 1, 1;
    match w
    case Far =>
      FarBlock(su, agree, c, t);
    case InPlace(j) =>
      UntouchedBlock(su, agree, c, t, j);
    case AtNop(i) =>
      NopInPlaceBlock(su, agree, c, t, i);
    case AtNopSyscall(i) =>
      m := NopBlock(su, agree, i, c.st, t);
    case AtWindow(i) =>
      b, m := WindowBlock(su, agree, c, t, i, n);
  }

  lemma SeenCorrespond(su: Setup, agree: Relation, c: Config, t: State)
    requires agree(c.pc, c.st, t)
    ensures Correspond(agree, Seen(su, c), Seen(su, Config(c.pc, t)))
  {
    hide Observable;
  }

  lemma CorrespondMore(agree: Relation, xs: seq<Config>, ys: seq<Config>, xs': seq<Config>, ys': seq<Config>)
    requires Correspond(agree, xs, ys) && Correspond(agree, xs', ys')
    ensures Correspond(agree, xs + xs', ys + ys')
  {
  }

  lemma {:induction false} RunOriginalSplit(su: Setup, agree: Relation, c: Config, b: nat, n: nat)
    requires IsRun(su.r)
    ensures RunOriginal(su, c, b + n) == RunOriginal(su, RunOriginal(su, c, b), n)
    ensures VisitsOriginal(su, c, b + n) == VisitsOriginal(su, c, b) + VisitsOriginal(su, RunOriginal(su, c, b), n)
    ensures GoodRun(su, agree, c, b + n) ==> GoodRun(su, agree, RunOriginal(su, c, b), n)
    decreases b
  {
    hide IsRun, StepOriginal, Seen, GoodStep;
    if b > 0 {
      RunOriginalSplit(su, agree, StepOriginal(su, c), b - 1, n);
    }
  }

  /**
   Every good run of the original program from an observable place to an observable place has a run of
   the patched program, from any state that agrees, that ends at the same address in a state that
   agrees, and that visits exactly the same observable addresses on its way, each in a state that agrees.
   */
  lemma {:induction false} PatchedRunSimulates(su: Setup, agree: Relation, c: Config, t: State, n: nat) returns (m: nat)
    requires Ready(su) && Ongoing(su, agree, c, n) && Observable(su, c.pc) && agree(c.pc, c.st, t)
    ensures Meet(su, agree, c, n, Config(c.pc, t), m)
    ensures Correspond(agree, VisitsOriginal(su, c, n), VisitsPatched(su, Config(c.pc, t), m))
    decreases n
  {
    hide Unshared, Tiled, AllPlanned, Ordered, MarksAccumulate, TextIsOriginal, OthersUnchanged, WrappersApart,
      RegionsApart, InstalledPatch, AllDescribed, Forwards, StepOriginal, StepPatched, Observable, Seen, GoodStep,
      RunOriginal, RunPatched, VisitsOriginal, VisitsPatched;
    var d := Config(c.pc, t);
    if n == 0 {
      NothingMore(su, agree, c, d);
      m := 0;
    } else {
      var b, m1 := Block(su, agree, c, t, n);
      var c1, d1 := RunOriginal(su, c, b), RunPatched(su, d, m1);
      RunOriginalSplit(su, agree, c, b, n - b);
      var m2 := PatchedRunSimulates(su, agree, c1, d1.st, n - b);
      RunPatchedSplit(su, d, m1, m2);
      SeenCorrespond(su, agree, c, t);
      CorrespondMore(agree, Seen(su, c), Seen(su, d), VisitsOriginal(su, c1, n - b), VisitsPatched(su, d1, m2));
      m := m1 + m2;
    }
  }

  /** In particular, both programs have made the same calls to the kernel, in the same order, wherever one looks. */
  lemma PatchedRunMakesTheSameCalls(su: Setup, agree: Relation, c: Config, n: nat) returns (m: nat)
    requires Ready(su) && Ongoing(su, agree, c, n) && Observable(su, c.pc) && agree(c.pc, c.st, c.st)
    requires SeesTrace(agree)
    ensures RunPatched(su, c, m).pc == RunOriginal(su, c, n).pc
    ensures RunPatched(su, c, m).st.trace == RunOriginal(su, c, n).st.trace
    ensures var xs, ys := VisitsOriginal(su, c, n), VisitsPatched(su, c, m);
      |xs| == |ys| && forall i :: 0 <= i < |xs| ==> xs[i].pc == ys[i].pc && xs[i].st.trace == ys[i].st.trace
  {
    hide Installed, AllDescribed, Forwards, Observable, Ongoing, RunOriginal, RunPatched, VisitsOriginal,
      VisitsPatched;
    m := PatchedRunSimulates(su, agree, c, c.st, n);
    assert Config(c.pc, c.st) == c;
  }

  // ----- the other way round -----

  /** The original program runs well for ever. */
  ghost predicate Forever(su: Setup, agree: Relation, c: Config)
    requires IsRun(su.r)
  {
    forall n: nat :: GoodRun(su, agree, c, n)
  }

  lemma ForeverOn(su: Setup, agree: Relation, c: Config, b: nat)
    requires IsRun(su.r) && Forever(su, agree, c)
    ensures Forever(su, agree, RunOriginal(su, c, b))
  {
    hide IsRun, GoodRun, RunOriginal;
    forall n: nat
      ensures GoodRun(su, agree, RunOriginal(su, c, b), n)
    {
      assert GoodRun(su, agree, c, b + n);
      RunOriginalSplit(su, agree, c, b, n);
    }
  }

  /** A run shorter than a block has visited its first place only. */
  lemma PartOfBlock(su: Setup, d: Config, m: nat, m1: nat)
    requires ValidGenerator(su.g) && 0 < m <= m1 && Observable(su, d.pc) && VisitsPatched(su, d, m1) == Seen(su, d)
    ensures VisitsPatched(su, d, m) == Seen(su, d)
  {
    hide Observable, StepPatched;
    var d1 := StepPatched(su, d);
    RunPatchedSplit(su, d1, m - 1, m1 - m);
    assert |VisitsPatched(su, d, m1)| == 1 + |VisitsPatched(su, d1, m1 - 1)|;
    assert VisitsPatched(su, d, m) == Seen(su, d) + VisitsPatched(su, d1, m - 1);
  }

  /**
   The patched program does nothing that the original does not do: however many steps it has taken, the
   observable places it has visited are those of some run of the original, in the same order and in states
   that agree.
   */
  lemma {:induction false} PatchedRunIsSimulated(su: Setup, agree: Relation, c: Config, t: State, m: nat)
    returns (n: nat)
    requires Ready(su) && Forever(su, agree, c) && Observable(su, c.pc) && agree(c.pc, c.st, t)
    ensures Correspond(agree, VisitsOriginal(su, c, n), VisitsPatched(su, Config(c.pc, t), m))
    decreases m
  {
    hide Unshared, Tiled, AllPlanned, Ordered, MarksAccumulate, TextIsOriginal, OthersUnchanged, WrappersApart,
      RegionsApart, InstalledPatch, AllDescribed, Forwards, StepOriginal, StepPatched, Observable, Seen, GoodStep,
      RunOriginal, RunPatched, GoodRun, VisitsOriginal, VisitsPatched;
    var d := Config(c.pc, t);
    if m == 0 {
      NoVisits(su, c, d);
      n := 0;
    } else {
      SeenCorrespond(su, agree, c, t);
      assert GoodRun(su, agree, c, 4);
      var b, m1 := Block(su, agree, c, t, 4);
      if m < m1 {
        PartOfBlock(su, d, m, m1);
        OneStep(su, c);
        n := 1;
      } else {
        var c1, d1 := RunOriginal(su, c, b), RunPatched(su, d, m1);
        ForeverOn(su, agree, c, b);
        var n2 := PatchedRunIsSimulated(su, agree, c1, d1.st, m - m1);
        RunOriginalSplit(su, agree, c, b, n2);
        RunPatchedSplit(su, d, m1, m - m1);
        CorrespondMore(agree, Seen(su, c), Seen(su, d), VisitsOriginal(su, c1, n2), VisitsPatched(su, d1, m - m1));
        n := b + n2;
      }
    }
  }

  lemma NoVisits(su: Setup, c: Config, d: Config)
    requires ValidGenerator(su.g)
    ensures VisitsOriginal(su, c, 0) == [] && VisitsPatched(su, d, 0) == []
  {
  }

  // ----- runs that arrive at known destinations only -----

  /** A jump destination that was known before planning, or the address after a call. */
  ghost predicate KnownEntry(su: Setup, a: int)
    requires IsRun(su.r)
  {
    || Elsewhere(su, a)
    || exists e :: 0 <= e < |su.r.L| && a == At(su.r.L, e)
                   && (a in su.r.ms[0] || (e > 0 && su.r.L[e - 1].IsCall()))
  }

  ghost predicate KnownListed(su: Setup, a: int, next: int, j: nat)
    requires IsRun(su.r)
  {
    && j < |su.r.L| && a == At(su.r.L, j)
    && (KnownEntry(su, next) || (j + 1 < |su.r.L| && next == At(su.r.L, j + 1)))
  }

  ghost predicate KnownFlows(su: Setup, a: int, next: int)
    requires IsRun(su.r)
  {
    || (exists j :: KnownListed(su, a, next, j))
    || (Elsewhere(su, a) && FarInstruction(su, a) && KnownEntry(su, next))
  }

  /** A run whose steps tolerate what the wrappers lose, and whose jumps lead to known destinations. */
  ghost predicate KnownRun(su: Setup, agree: Relation, c: Config, n: nat)
    requires IsRun(su.r)
    decreases n
  {
    n > 0 ==>
      var d := StepOriginal(su, c);
      && KnownFlows(su, c.pc, d.pc) && (Resumes(su, c) ==> KnownEntry(su, d.pc))
      && Tolerates(su, agree, c) && KnownRun(su, agree, d, n - 1)
  }

  /** With no LEA in the way, what is known is outside every window. */
  lemma KnownIsEntry(su: Setup, a: int)
    requires IsRun(su.r) && LeaSafe(su.r) && KnownEntry(su, a)
    ensures Entry(su, a) && (Elsewhere(su, a) || exists e :: 0 <= e < |su.r.L| && a == At(su.r.L, e))
  {
    hide Tiled, AllPlanned, Ordered, LeaSafe, Inside, Elsewhere;
    var r := su.r;
    if !Elsewhere(su, a) {
      var e :| 0 <= e < |r.L| && a == At(r.L, e) && (a in r.ms[0] || (e > 0 && r.L[e - 1].IsCall()));
      EntriesSafeIff(r);
      assert r.ms[0] <= r.ms[|r.ps|];
      forall i | 0 <= i < |r.ps|
        ensures !Inside(r, i, e)
      {
        if e > 0 && r.L[e - 1].IsCall() {
          AfterNopOrCallSafe(r, i, e);
        }
      }
      assert OutsideWindows(r, e);
    }
  }

  lemma KnownFlowsOn(su: Setup, a: int, next: int)
    requires IsRun(su.r) && LeaSafe(su.r) && KnownFlows(su, a, next)
    ensures Flows(su, a, next)
  {
    hide Tiled, AllPlanned, Ordered, MarksAccumulate, LeaSafe, KnownEntry, Entry, Elsewhere, FarInstruction;
    if KnownEntry(su, next) {
      KnownIsEntry(su, next);
    }
    if j :| KnownListed(su, a, next, j) {
      assert Listed(su, a, next, j);
    }
  }

  /** Then a run that jumps to known destinations only is good. */
  lemma {:induction false} KnownRunIsGood(su: Setup, agree: Relation, c: Config, n: nat)
    requires IsRun(su.r) && LeaSafe(su.r) && KnownRun(su, agree, c, n)
    ensures GoodRun(su, agree, c, n)
    decreases n
  {
    hide IsRun, LeaSafe, KnownFlows, Flows, Tolerates, StepOriginal, KnownEntry, Entry, Resumes;
    if n > 0 {
      if Resumes(su, c) {
        KnownIsEntry(su, StepOriginal(su, c).pc);
      }
      KnownFlowsOn(su, c.pc, StepOriginal(su, c).pc);
      KnownRunIsGood(su, agree, StepOriginal(su, c), n - 1);
    }
  }
}
