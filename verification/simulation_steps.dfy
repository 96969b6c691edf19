/** Single steps of the patched program: through the trampolines, the relocated instructions and the template. */
module SimulationSteps {
  import opened Bytes
  import opened Encoding
  import opened Disasm
  import opened Listing
  import opened Plan
  import opened Overlap
  import opened WrapperCode
  import opened Activate
  import opened Machine
  import opened Simulation

  // ----- where the template rule does not apply -----

  lemma WrapperInSpace(su: Setup, i: nat, x: int)
    requires Installed(su) && i < |su.r.ps|
    requires su.r.ps[i].wrapper <= x < su.r.ps[i].wrapper + WrapperSize(su.r.ps[i], |su.g.template|)
    ensures InSpace(su, x) && !Observable(su, x) && !InTable(su, x) && !InText(su, x)
  {
    hide IsRun, Unshared, TextIsOriginal, OthersUnchanged, WrappersApart, WrapperBytes, AllFit, BytesAt, ReadablePlan;
    assert InstalledPatch(su, i);
  }

  lemma PlainStep(su: Setup, c: Config)
    requires Installed(su) && !InSpace(su, c.pc)
    ensures StepPatched(su, c) == Step(su.cpu, su.code1, c)
  {
    hide IsRun, Unshared, TextIsOriginal, OthersUnchanged, WrappersApart, InstalledPatch, Step;
    if i :| AtTemplate(su, c.pc, i) {
      WrapperInSpace(su, i, c.pc);
    }
  }

  /** Inside a wrapper, only one address is that of a template. */
  lemma PlainStepInWrapper(su: Setup, i: nat, c: Config)
    requires Installed(su) && i < |su.r.ps|
    requires su.r.ps[i].wrapper <= c.pc < su.r.ps[i].wrapper + WrapperSize(su.r.ps[i], |su.g.template|)
    requires c.pc != TemplateAt(su.r.ps[i])
    ensures StepPatched(su, c) == Step(su.cpu, su.code1, c)
  {
    hide IsRun, Unshared, TextIsOriginal, OthersUnchanged, InstalledPatch, RegionsApart, Step, SizeBefore, SizeAfter,
      BytesAt;
  }

  // ----- from the text into the wrapper -----

  lemma SlotInTable(su: Setup, i: nat)
    requires Installed(su) && i < |su.r.ps| && su.usesTable
    ensures var slot := su.tableBase + TRAMPOLINE_SIZE * i;
      InTable(su, slot) && !InSpace(su, slot) && !Observable(su, slot)
  {
    hide IsRun, Unshared, TextIsOriginal, OthersUnchanged, WrappersApart, BytesAt, AllFit, ReadablePlan, WrapperBytes;
    assert InstalledPatch(su, i);
  }

  lemma DstInText(su: Setup, i: nat)
    requires Installed(su) && i < |su.r.ps|
    ensures InText(su, su.r.ps[i].dst) && !InSpace(su, su.r.ps[i].dst)
    ensures InText(su, su.r.ps[i].syscallAddr) && !InSpace(su, su.r.ps[i].syscallAddr)
  {
    hide Unshared, TextIsOriginal, OthersUnchanged, WrappersApart, InstalledPatch;
    var r, p := su.r, su.r.ps[i];
    assert IsPlan(r.L, r.ks[i], p, r.ms[i], r.ns[i]);
    AtOrder(r.L, r.start, r.end, r.ks[i], |r.L|);
    if p.form.ViaWindow? {
      AtOrder(r.L, r.start, r.end, Lo(p, r.ks[i]), |r.L|);
    } else {
      var _ := At(r.L, r.ns[i] + 1);
      AtOrder(r.L, r.start, r.end, r.ns[i], r.ns[i] + 1);
      AtOrder(r.L, r.start, r.end, r.ns[i] + 1, |r.L|);
    }
  }

  /** The jump at dst_jmp_patch leads to the wrapper, directly or through the table; the state is untouched. */
  lemma EnterWrapper(su: Setup, i: nat, t: State) returns (m: nat)
    requires Installed(su) && i < |su.r.ps|
    ensures RunPatched(su, Config(su.r.ps[i].dst, t), m) == Config(su.r.ps[i].wrapper, t)
    ensures VisitsPatched(su, Config(su.r.ps[i].dst, t), m) == Seen(su, Config(su.r.ps[i].dst, t))
  {
    hide IsRun, Unshared, TextIsOriginal, OthersUnchanged, WrappersApart, RegionsApart, Step, BytesAt, JumpBytes,
      AbsoluteJumpBytes, Observable, WrapperBytes, ReadablePlan;
    var p := su.r.ps[i];
    var c := Config(p.dst, t);
    assert InstalledPatch(su, i);
    DstInText(su, i);
    PlainStep(su, c);
    JumpStep(su.cpu, su.code1, p.dst, JumpTarget(p, i, su.usesTable, su.tableBase), t);
    if su.usesTable {
      var d := Config(su.tableBase + TRAMPOLINE_SIZE * i, t);
      SlotInTable(su, i);
      PlainStep(su, d);
      AbsoluteJumpStep(su.cpu, su.code1, d.pc, p.wrapper, t);
      m := 2;
      assert RunPatched(su, c, 2) == RunPatched(su, d, 1) == RunPatched(su, StepPatched(su, d), 0);
      assert VisitsPatched(su, d, 1) == [];
    } else {
      m := 1;
      assert RunPatched(su, c, 1) == RunPatched(su, StepPatched(su, c), 0);
    }
  }

  // ----- inside the wrapper -----

  /** Where instruction j of the window stands in the wrapper; j == Hi is the way back. */
  function PosIn(p: Patch, k: int, j: int, templateSize: nat): int
    requires p.form.ViaWindow?
  {
    if j > k + 1 then p.wrapper + SizeBefore(p) + templateSize + SizeAfter(p)
    else if j == k + 1 then p.wrapper + SizeBefore(p) + templateSize
    else if j == k then p.wrapper + SizeBefore(p)
    else if j == k - 1 then p.wrapper + (if p.form.usesPrev && p.form.usesPrev2 then RelocatedSize(p.prev2) else 0)
    else p.wrapper
  }

  /** The parts of the wrapper of patch i. */
  lemma WrapperParts(su: Setup, i: nat)
    requires Installed(su) && i < |su.r.ps|
    ensures var p := su.r.ps[i]; var T := |su.g.template|;
      && ReadablePlan(p, su.text, su.r.start)
      && BytesAt(su.code1, p.wrapper, BytesBefore(p, su.text, su.r.start))
      && BytesAt(su.code1, TemplateAt(p), Instance(su.g, i))
      && BytesAt(su.code1, TemplateAt(p) + T, BytesAfter(p, su.text, su.r.start))
      && BytesAt(su.code1, TemplateAt(p) + T + SizeAfter(p), AbsoluteJumpBytes(p.ret))
  {
    hide IsRun, Unshared, TextIsOriginal, OthersUnchanged, WrappersApart, RegionsApart, BytesAt, AllFit, Instance,
      BytesBefore, BytesAfter, AbsoluteJumpBytes, JumpBytes, ShortJumpBytes, ReadablePlan;
    assert InstalledPatch(su, i);
    var p := su.r.ps[i];
    var b0, b1 := BytesBefore(p, su.text, su.r.start), Instance(su.g, i);
    var b2, b3 := BytesAfter(p, su.text, su.r.start), AbsoluteJumpBytes(p.ret);
    BytesAtSplit(su.code1, p.wrapper, b0 + b1 + b2, b3);
    BytesAtSplit(su.code1, p.wrapper, b0 + b1, b2);
    BytesAtSplit(su.code1, p.wrapper, b0, b1);
  }

  /** The instructions that the plan moves, and where the listing has them. */
  lemma CoveredNeighbour(r: Run, i: nat, j: nat)
    requires IsRun(r) && i < |r.ps| && Covers(r, i, j) && j != r.ks[i]
    ensures var p, k: int := r.ps[i], r.ks[i];
      && j < |r.L|
      && (j == k - 2 ==> p.form.usesPrev && p.form.usesPrev2 && p.prev2 == r.L[j])
      && (j == k - 1 ==> p.form.usesPrev && p.prev == r.L[j])
      && (j == k + 1 ==> p.form.usesNext && p.next == r.L[j])
      && (j == k - 2 || j == k - 1 || j == k + 1)
  {
    hide Tiled, Ordered, MarksAccumulate, UsesPrev, UsesPrev2, UsesNext;
    assert IsPlan(r.L, r.ks[i], r.ps[i], r.ms[i], r.ns[i]);
  }

  /** The one or two relocated instructions in front of the template. */
  lemma BeforeAt(code: int -> Byte, p: Patch, text: seq<Byte>, start: int)
    requires p.form.ViaWindow? && p.form.usesPrev && ReadablePlan(p, text, start)
    requires BytesAt(code, p.wrapper, BytesBefore(p, text, start))
    ensures var size := if p.form.usesPrev2 then RelocatedSize(p.prev2) else 0;
      BytesAt(code, p.wrapper + size, Relocated(p.prev, text, start))
    ensures p.form.usesPrev2 ==> BytesAt(code, p.wrapper, Relocated(p.prev2, text, start))
  {
    hide BytesAt, Relocated, RelocatedSize, Readable;
    var prev := Relocated(p.prev, text, start);
    if p.form.usesPrev2 {
      BytesAtSplit(code, p.wrapper, Relocated(p.prev2, text, start), prev);
    } else {
      assert BytesBefore(p, text, start) == [] + prev == prev;
    }
  }

  /** A relocated instruction of the window stands at its position. */
  lemma RelocatedAt(su: Setup, i: nat, j: nat)
    requires Installed(su) && i < |su.r.ps| && Covers(su.r, i, j) && j != su.r.ks[i]
    ensures j < |su.r.L| && Readable(su.r.L[j], su.text, su.r.start)
    ensures BytesAt(su.code1, PosIn(su.r.ps[i], su.r.ks[i], j, |su.g.template|),
                    Relocated(su.r.L[j], su.text, su.r.start))
  {
    hide Tiled, AllPlanned, Ordered, MarksAccumulate, Unshared, TextIsOriginal, OthersUnchanged, WrappersApart,
      RegionsApart, BytesAt, InstalledPatch, Instance, Relocated, RelocatedSize, AbsoluteJumpBytes, Readable,
      BytesBefore, SizeBefore, SizeAfter;
    WrapperParts(su, i);
    CoveredNeighbour(su.r, i, j);
    if j < su.r.ks[i] {
      BeforeAt(su.code1, su.r.ps[i], su.text, su.r.start);
    }
  }

  /** In place of a LEA, the movabs: same register, same value. */
  lemma LeaStep(cpu: Cpu, code0: int -> Byte, code1: int -> Byte, ins: Ins, x: int, t: State)
    requires Describes(cpu, code0, ins) && DescribesMoved(cpu, code0, ins) && ins.IsLeaRip() && ins.argRegisterBits < 16
    requires BytesAt(code1, x, MovabsBytes(ins.opr.target % TWO_64, ins.argRegisterBits))
    ensures var o, d := Step(cpu, code0, Config(ins.address, t)), Step(cpu, code1, Config(x, t));
      d.st == o.st && o.pc == ins.address + ins.length && d.pc == x + MOVABS_SIZE
  {
    hide PositionFree, BytesAt, MovabsBytes;
    MovabsStep(cpu, code1, x, ins.opr.target % TWO_64, ins.argRegisterBits, t);
    var w := Window(code0, ins.address);
    assert w[..7][3..7] == w[3..7];
    assert LeaValue(w[..7], ins.address) == LeaValue(w, ins.address);
  }

  /** A verbatim copy elsewhere. */
  lemma CopyStep(cpu: Cpu, code0: int -> Byte, code1: int -> Byte, ins: Ins, x: int, t: State)
    requires PrefixCode(cpu) && Describes(cpu, code0, ins) && DescribesMoved(cpu, code0, ins)
    requires ins.IsCopiableAfterSyscall()
    requires BytesAt(code1, x, Read(code0, ins.address, ins.length))
    ensures var o, d := Step(cpu, code0, Config(ins.address, t)), Step(cpu, code1, Config(x, t));
      d.st == o.st
      && if ins.IsRet() then d.pc == o.pc else o.pc == ins.address + ins.length && d.pc == x + ins.length
  {
    hide PrefixCode, IsAbsoluteJump, Length, Exec;
    SameInstruction(cpu, code0, ins.address, code1, x);
  }

  /** A relocated instruction does in the wrapper what it did in the text. */
  lemma RelocatedStep(su: Setup, i: nat, j: nat, x: int, t: State)
    requires IsRun(su.r) && TextIsOriginal(su) && AllDescribed(su) && i < |su.r.ps| && j < |su.r.L|
    requires Covers(su.r, i, j) && (Relocatable(su.r.L[j], true) || Relocatable(su.r.L[j], false))
    requires Readable(su.r.L[j], su.text, su.r.start) && BytesAt(su.code1, x, Relocated(su.r.L[j], su.text, su.r.start))
    ensures var ins := su.r.L[j];
      var o, d := StepOriginal(su, Config(At(su.r.L, j), t)), Step(su.cpu, su.code1, Config(x, t));
      && d.st == o.st
      && (if ins.IsRet() then d.pc == o.pc else o.pc == At(su.r.L, j + 1) && d.pc == x + RelocatedSize(ins))
  {
    hide AllPlanned, Ordered, MarksAccumulate, PrefixCode, PositionFree, Step, MovabsBytes, Describes, DescribesMoved,
      BytesAt, Read, Covers, Readable;
    var ins := su.r.L[j];
    var _ := At(su.r.L, j + 1);
    assert Describes(su.cpu, su.code0, ins) && DescribesMoved(su.cpu, su.code0, ins);
    if ins.IsLeaRip() {
      LeaStep(su.cpu, su.code0, su.code1, ins, x, t);
    } else {
      CopiedBytes(su, ins);
      CopyStep(su.cpu, su.code0, su.code1, ins, x, t);
    }
  }

  /** The bytes of the text are those of the code. */
  lemma CopiedBytes(su: Setup, ins: Ins)
    requires TextIsOriginal(su) && Readable(ins, su.text, su.r.start) && !ins.IsLeaRip()
    ensures Relocated(ins, su.text, su.r.start) == Read(su.code0, ins.address, ins.length)
  {
    ReadSlice(su.code0, su.r.start, |su.text|, ins.address - su.r.start, ins.address - su.r.start + ins.length);
  }
}
