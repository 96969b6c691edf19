/**
 The stages put together for one object (find_syscalls, allocate_trampoline_table,
 create_patch_wrappers and activate_patches, in the order of `intercept` in src/intercept.c), and
 what they leave behind: exactly what the simulation needs.
 */
module Pipeline {
  import opened Bytes
  import opened Encoding
  import opened Disasm
  import opened Listing
  import opened Plan
  import opened Overlap
  import opened WrapperCode
  import opened Patcher
  import opened Placement
  import opened Activate
  import opened Machine
  import opened Simulation

  // ----- a plan from any listing meets the demands of the later stages -----

  lemma ListingIsReadable(inp: Input, L: seq<Ins>, cap: nat, text: seq<Byte>)
    requires Gathered(inp, L, cap) && |text| == inp.end - inp.start + 1
    ensures ReadableItems(inp.items, text, inp.start)
  {
    hide PatchesOf, NopsOf;
    forall i | 0 <= i < |inp.items|
      ensures var p := inp.items[i];
        && (p.prev == UNSET || Readable(p.prev, text, inp.start))
        && (p.prev2 == UNSET || Readable(p.prev2, text, inp.start))
        && Readable(p.next, text, inp.start)
    {
      var k := GatheredFacts(inp, L, cap, i);
    }
  }

  /** A planned patch writes only inside the text, and its parts do not collide. */
  lemma PlanIsWellPlaced(inp: Input, L: seq<Ins>, cap: nat, i: nat)
    requires Gathered(inp, L, cap) && i < |inp.items| && Fits(Planned(inp, i))
    ensures WellPlaced(Planned(inp, i), inp.start, inp.end)
  {
    hide PatchesOf, NopsOf, Choice, Space, Marks;
    var k := GatheredFacts(inp, L, cap, i);
    if Choice(inp, i).Some? {
      var n := ChoiceFacts(inp, L, cap, i);
      assert n != k;
    } else {
      WindowInText(inp.items[i], Marks(inp, i), inp.start, inp.end);
    }
  }

  lemma WindowInText(p: Patch, marks: set<int>, start: int, end: int)
    requires start <= p.syscallAddr && p.syscallAddr + SYSCALL_INS_SIZE + p.next.length <= end + 1
    requires p.prev == UNSET || start + p.prev.length <= p.syscallAddr
    requires p.prev2 == UNSET || (start + p.prev2.length + p.prev.length <= p.syscallAddr)
    ensures var q := PlanWindow(p, marks); start <= q.dst <= p.syscallAddr < q.ret <= end + 1
  {
    assert !UNSET.IsLeaRip() && !UNSET.IsCopiableBeforeSyscall();
  }

  /** The short jumps of a plan always fit: that is what is_nop_in_range is for. */
  lemma ShortJumpsFit(inp: Input, L: seq<Ins>, cap: nat, i: nat)
    requires Gathered(inp, L, cap) && i < |inp.items| && Planned(inp, i).form.ViaNop?
    ensures var p := Planned(inp, i);
      ShortJumpFits(p.syscallAddr, p.dst) && ShortJumpFits(p.form.nop.address, p.form.nop.address + p.form.nop.size)
  {
    hide PatchesOf, NopsOf, Choice, Space, Marks, UsesPrev, UsesPrev2, UsesNext;
    var n := ChoiceFacts(inp, L, cap, i);
  }

  /** With the table in reach and large enough, activation does not abort. */
  lemma ChecksPassForPlan(inp: Input, L: seq<Ins>, cap: nat, i: nat, tableBase: int)
    requires Gathered(inp, L, cap) && i < |inp.items| && Fits(Planned(inp, i)) && InReach(inp.start, inp.end, tableBase)
    requires TRAMPOLINE_SIZE * |inp.items| < TABLE_SIZE
    ensures ChecksPass(Planned(inp, i), i, inp.start, inp.end, true, tableBase, TABLE_SIZE)
  {
    hide Gathered, Planned, JumpFits, Fits;
    var p := Planned(inp, i);
    PlanIsWellPlaced(inp, L, cap, i);
    assert Writes(p, p.dst) && Writes(p, p.dst + 4);
    assert TRAMPOLINE_SIZE * i + TRAMPOLINE_SIZE <= TRAMPOLINE_SIZE * |inp.items|;
    if p.form.ViaNop? {
      ShortJumpsFit(inp, L, cap, i);
    }
  }

  // ----- the code image -----

  /** The three memories that patching writes, each at its address. */
  datatype Memory = Memory(
    start: int, text: seq<Byte>, usesTable: bool, tableBase: int, table: seq<Byte>, spaceBase: int, space: seq<Byte>)

  /** All code: the three memories, and `rest` everywhere else. */
  ghost function Image(m: Memory, rest: int -> Byte): int -> Byte {
    x =>
      if m.start <= x < m.start + |m.text| then m.text[x - m.start]
      else if m.usesTable && m.tableBase <= x < m.tableBase + |m.table| then m.table[x - m.tableBase]
      else if m.spaceBase <= x < m.spaceBase + |m.space| then m.space[x - m.spaceBase]
      else rest(x)
  }

  ghost predicate MemoriesApart(m: Memory) {
    && (m.start + |m.text| <= m.spaceBase || m.spaceBase + |m.space| <= m.start)
    && (m.usesTable ==>
        && (m.start + |m.text| <= m.tableBase || m.tableBase + |m.table| <= m.start)
        && (m.spaceBase + |m.space| <= m.tableBase || m.tableBase + |m.table| <= m.spaceBase))
  }

  lemma TextInImage(m: Memory, rest: int -> Byte, a: int, b: seq<Byte>)
    requires Holds(m.text, m.start, a, b)
    ensures BytesAt(Image(m, rest), a, b)
  {
  }

  lemma TableInImage(m: Memory, rest: int -> Byte, a: int, b: seq<Byte>)
    requires MemoriesApart(m) && m.usesTable && Holds(m.table, 0, a - m.tableBase, b)
    ensures BytesAt(Image(m, rest), a, b)
  {
  }

  lemma SpaceInImage(m: Memory, rest: int -> Byte, a: int, b: seq<Byte>)
    requires MemoriesApart(m) && Holds(m.space, m.spaceBase, a, b)
    ensures BytesAt(Image(m, rest), a, b)
  {
  }

  ghost function Plans(inp: Input): (ps: seq<Patch>)
    ensures |ps| == |inp.items| && forall i :: 0 <= i < |ps| ==> ps[i] == Planned(inp, i)
  {
    seq(|inp.items|, i requires 0 <= i < |inp.items| => Planned(inp, i))
  }

  /**
   What the stages have established when they are done; `m` is the memory afterwards, text0 the original
   text. That every patch is in place takes that no later one has overwritten it.
   */
  ghost predicate StagesDone(inp: Input, g: Generator, text0: seq<Byte>, m: Memory) {
    var ps := Plans(inp);
    && inp.start == m.start && ValidGenerator(g) && |g.template| == inp.templateSize
    && |text0| == |m.text| == inp.end - inp.start + 1
    && ReadableItems(inp.items, text0, inp.start)
    && WrappersWritten(inp, |inp.items|, g, text0, m.space, m.spaceBase)
    && (AllDisjoint(ps) ==> AllApplied(ps, |ps|, m.text, m.start, m.usesTable, m.tableBase))
    && (m.usesTable ==> SlotsWritten(ps, |ps|, m.table))
    && Untouched(ps, |ps|, text0, m.text, m.start)
    && (forall i :: 0 <= i < |ps| ==> ChecksPass(ps[i], i, inp.start, inp.end, m.usesTable, m.tableBase, |m.table|))
    && MemoriesApart(m)
    && 0 <= m.start && m.start + |m.text| < TWO_64 && 0 <= m.spaceBase && m.spaceBase + |m.space| <= TWO_64
  }

  /** The run that planning makes of the input. */
  ghost predicate IsRunOf(r: Run, inp: Input) {
    IsRun(r) && r.start == inp.start && r.end == inp.end && r.ps == Plans(inp)
  }

  lemma RunOfInput(inp: Input, L: seq<Ins>, cap: nat)
    requires FromListing(inp, L, cap)
    ensures IsRunOf(RunOf(inp, L, cap), inp)
  {
    hide FromListing, IsRun, Planned, NopIndexOf, Marks;
    PlanIsRun(inp, L, cap);
  }

  ghost function SetupOf(cpu: Cpu, r: Run, g: Generator, text0: seq<Byte>, m: Memory, rest: int -> Byte,
                         block: (int, int, State) -> Exit, polite: State -> bool, depth: nat): Setup {
    Setup(cpu, Image(m.(text := text0), rest), Image(m, rest), r, g, text0,
          m.usesTable, m.tableBase, |m.table|, m.spaceBase, |m.space|, block, polite, depth)
  }

  lemma PatchIsInstalled(inp: Input, r: Run, g: Generator, text0: seq<Byte>, m: Memory, su: Setup, rest: int -> Byte,
                         i: nat)
    requires StagesDone(inp, g, text0, m) && IsRunOf(r, inp) && AllDisjoint(r.ps) && i < |r.ps|
    requires su.r == r && su.g == g && su.text == text0 && su.code1 == Image(m, rest)
    requires su.usesTable == m.usesTable && su.tableBase == m.tableBase && su.tableSize == |m.table|
    requires su.spaceBase == m.spaceBase && su.spaceSize == |m.space|
    ensures InstalledPatch(su, i)
  {
    hide Tiled, AllPlanned, Ordered, MarksAccumulate, Untouched, Image, BytesAt, WrapperBytes, JumpBytes,
      ShortJumpBytes, AbsoluteJumpBytes, AllFit, SizeBefore, SizeAfter, ReadableItems, MemoriesApart, Shape, Space,
      ReadablePlan, AllDisjoint;
    var p := r.ps[i];
    var target := JumpTarget(p, i, m.usesTable, m.tableBase);
    PlannedReadable(inp, i, text0);
    assert WrapperWritten(inp, i, g, text0, m.space, m.spaceBase);
    SpaceInImage(m, rest, p.wrapper, WrapperBytes(g, p, i, text0, inp.start));
    assert Applied(p, m.text, m.start, target);
    TextInImage(m, rest, p.dst, JumpBytes(JMP_OPCODE, p.dst, target));
    if p.form.ViaNop? {
      TextInImage(m, rest, p.syscallAddr, ShortJumpBytes(p.syscallAddr, p.dst));
      TextInImage(m, rest, p.form.nop.address,
                  ShortJumpBytes(p.form.nop.address, p.form.nop.address + p.form.nop.size));
    }
    assert ChecksPass(p, i, r.start, r.end, m.usesTable, m.tableBase, |m.table|);
    if m.usesTable {
      assert Holds(m.table, 0, TRAMPOLINE_SIZE * i, AbsoluteJumpBytes(p.wrapper));
      TableInImage(m, rest, m.tableBase + TRAMPOLINE_SIZE * i, AbsoluteJumpBytes(p.wrapper));
    }
    ReturnInRange(r, i);
  }

  lemma ReturnInRange(r: Run, i: nat)
    requires IsRun(r) && i < |r.ps|
    ensures r.start <= r.ps[i].ret <= r.end + 1
  {
    hide AllPlanned, Ordered, MarksAccumulate;
    var e := ReturnAddress(r, i);
    AtOrder(r.L, r.start, r.end, e, |r.L|);
  }

  /** The wrappers of two patches do not overlap. */
  lemma WrappersAreApart(inp: Input, i: nat, j: nat)
    requires i < j < |inp.items|
    ensures Planned(inp, i).wrapper + WrapperSize(Planned(inp, i), inp.templateSize) <= Planned(inp, j).wrapper
  {
    hide Shape, WrapperSize, Space;
    SpaceStep(inp, i);
    SpaceStep(inp, j);
    SpaceGrows(inp, i + 1, j);
  }

  lemma TextUnchanged(r: Run, text0: seq<Byte>, m: Memory, rest: int -> Byte, x: int)
    requires |text0| == |m.text| && Untouched(r.ps, |r.ps|, text0, m.text, m.start)
    requires forall i :: 0 <= i < |r.ps| ==> !Writes(r.ps[i], x)
    ensures Image(m, rest)(x) == Image(m.(text := text0), rest)(x)
  {
    if m.start <= x < m.start + |m.text| {
      assert m.start + (x - m.start) == x;
      assert m.text[x - m.start] == text0[x - m.start];
    }
  }

  /** Patching, when it does not abort and no two patches share a LEA, installs everything the simulation rests on. */
  lemma StagesInstall(cpu: Cpu, inp: Input, r: Run, g: Generator, text0: seq<Byte>, m: Memory, rest: int -> Byte,
                      block: (int, int, State) -> Exit, polite: State -> bool, depth: nat)
    requires StagesDone(inp, g, text0, m) && IsRunOf(r, inp) && Unshared(r)
    ensures Installed(SetupOf(cpu, r, g, text0, m, rest, block, polite, depth))
  {
    hide Tiled, AllPlanned, Ordered, MarksAccumulate, Unshared, Untouched, Image, ReadableItems, WrappersWritten,
      AllApplied, SlotsWritten, ChecksPass, Planned, InstalledPatch, WrapperSize, Writes, Disjoint;
    var su := SetupOf(cpu, r, g, text0, m, rest, block, polite, depth);
    WritesDisjointIff(r);
    forall i | 0 <= i < |r.ps|
      ensures InstalledPatch(su, i)
    {
      PatchIsInstalled(inp, r, g, text0, m, su, rest, i);
    }
    forall i, j | 0 <= i < j < |r.ps|
      ensures r.ps[i].wrapper + WrapperSize(r.ps[i], |g.template|) <= r.ps[j].wrapper
    {
      WrappersAreApart(inp, i, j);
    }
    forall x | forall i :: 0 <= i < |r.ps| ==> !Writes(r.ps[i], x)
      ensures su.code1(x) == su.code0(x)
    {
      TextUnchanged(r, text0, m, rest, x);
    }
    TextInImage(m.(text := text0), rest, m.start, text0);
  }
}
