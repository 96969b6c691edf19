/**
 The planning loop itself (assign_nop_trampoline, check_surrounding_instructions and
 create_patch_wrappers in src/patcher.c), proved against the functions of module Plan.
 */
module Patcher {
  import opened Bytes
  import opened Encoding
  import opened Disasm
  import opened Listing
  import opened NopMatching
  import opened JumpTable
  import opened Crawl
  import opened Plan
  import opened Windows
  import opened WrapperCode

  /**
   assign_nop_trampoline: the first NOP in range from nextNop on, unless one out of range and ahead comes
   before it.
   */
  method AssignNopTrampoline(nops: seq<Range>, address: int, nextNop: nat) returns (choice: Option<nat>, next: nat)
    requires nextNop <= |nops|
    ensures IsScan(address, nops, nextNop, choice, next)
    decreases |nops| - nextNop
  {
    if nextNop >= |nops| {
      return None, nextNop;
    }
    var nop := nops[nextNop];
    if IsNopInRange(address, nop) {
      return Some(nextNop), nextNop + 1;
    }
    if nop.address > address {
      return None, nextNop;
    }
    choice, next := AssignNopTrampoline(nops, address, nextNop + 1);
  }

  /** check_surrounding_instructions: which neighbours join the window, by their kinds and the marks. */
  method CheckSurroundingInstructions(jumps: Bitmap, p: Patch) returns (usesPrev2: bool, usesPrev: bool, usesNext: bool)
    requires jumps.Valid()
    ensures usesPrev <==> TakesPrev(p, jumps.Marks())
    ensures usesPrev2 <==> TakesPrev2(p, jumps.Marks())
    ensures usesNext <==> TakesNext(p, jumps.Marks())
  {
    UsedIsTaken(p, jumps.Marks());
    var jumpToSyscall := jumps.HasJump(p.syscallAddr);
    usesPrev := p.prev.IsLeaRip()
      || (p.prev.IsCopiableBeforeSyscall() && !p.prev.IsOverwritableNop() && !jumpToSyscall);
    if usesPrev {
      var jumpToPrev := jumps.HasJump(p.syscallAddr - p.prev.length);
      usesPrev2 := p.prev2.IsLeaRip()
        || (p.prev2.IsCopiableBeforeSyscall() && !p.prev2.IsOverwritableNop() && !jumpToPrev);
    } else {
      usesPrev2 := false;
    }
    var jumpToNext := jumps.HasJump(p.syscallAddr + SYSCALL_INS_SIZE);
    usesNext := p.next.IsLeaRip()
      || (p.next.IsCopiableAfterSyscall() && !p.next.IsOverwritableNop() && !jumpToNext);
  }

  /** The window branch of create_patch_wrappers; ok is false if a 5-byte jump does not fit. */
  method ChooseWindow(jumps: Bitmap, p: Patch) returns (q: Patch, ok: bool)
    requires jumps.Valid()
    ensures q == PlanWindow(p, jumps.Marks())
    ensures ok <==> Room(p, jumps.Marks()) >= 5
  {
    UsedIsTaken(p, jumps.Marks());
    var usesPrev2, usesPrev, usesNext := CheckSurroundingInstructions(jumps, p);
    var length: int := SYSCALL_INS_SIZE;
    var dst, ret := p.syscallAddr, 0;
    if usesPrev {
      length := length + p.prev.length;
      dst := dst - p.prev.length;
      if usesPrev2 {
        length := length + p.prev2.length;
        dst := dst - p.prev2.length;
      }
    }
    if usesNext {
      length := length + p.next.length;
      ret := p.syscallAddr + SYSCALL_INS_SIZE + p.next.length;
    } else {
      ret := p.syscallAddr + SYSCALL_INS_SIZE;
    }
    q := p.(form := ViaWindow(usesPrev2, usesPrev, usesNext), dst := dst, ret := ret);
    ok := length >= JUMP_INS_SIZE;
  }

  // ----- the loop -----

  /** What the loop starts from. */
  ghost function InputOf(desc: InterceptDesc, dst: int, g: Generator): Input
    requires desc.Valid()
    reads desc, desc.jumps.table
  {
    Input(desc.items, desc.nopTable, desc.jumps.Marks(), desc.textStart, desc.textEnd, dst, |g.template|)
  }

  /** The neighbours of every syscall can be read from the text. */
  ghost predicate ReadableItems(items: seq<Patch>, text: seq<Byte>, start: int) {
    forall i :: 0 <= i < |items| ==>
      && (items[i].prev == UNSET || Readable(items[i].prev, text, start))
      && (items[i].prev2 == UNSET || Readable(items[i].prev2, text, start))
      && Readable(items[i].next, text, start)
  }

  lemma PlannedReadable(inp: Input, i: nat, text: seq<Byte>)
    requires ReadableItems(inp.items, text, inp.start) && i < |inp.items|
    ensures ReadablePlan(Planned(inp, i), text, inp.start)
  {
    assert !UNSET.IsLeaRip() && !UNSET.IsCopiableBeforeSyscall();
  }

  lemma SpaceStep(inp: Input, n: nat)
    requires n < |inp.items|
    ensures Space(inp, n + 1) == Space(inp, n) + WrapperSize(Planned(inp, n), inp.templateSize)
    ensures Planned(inp, n).wrapper == Space(inp, n)
  {
  }

  lemma {:induction false} SpaceGrows(inp: Input, i: nat, j: nat)
    requires i <= j <= |inp.items|
    ensures Space(inp, i) <= Space(inp, j)
    decreases j - i
  {
    hide WrapperSize, Shape;
    if i < j {
      SpaceStep(inp, j - 1);
      SpaceGrows(inp, i, j - 1);
    }
  }

  /** The wrappers of the first n patches stand in the space mapped at base. */
  ghost predicate WrappersWritten(inp: Input, n: nat, g: Generator, text: seq<Byte>, space: seq<Byte>, base: int)
    requires ReadableItems(inp.items, text, inp.start) && ValidGenerator(g) && n <= |inp.items|
  {
    forall i :: 0 <= i < n ==> WrapperWritten(inp, i, g, text, space, base)
  }

  ghost predicate WrapperWritten(inp: Input, i: nat, g: Generator, text: seq<Byte>, space: seq<Byte>, base: int)
    requires ReadableItems(inp.items, text, inp.start) && ValidGenerator(g) && i < |inp.items|
  {
    PlannedReadable(inp, i, text);
    var p := Planned(inp, i);
    var b := WrapperBytes(g, p, i, text, inp.start);
    base <= p.wrapper && p.wrapper + |b| <= base + |space|
    && forall j :: 0 <= j < |b| ==> space[p.wrapper - base + j] == b[j]
  }

  /** Only the bytes between two addresses of the space have changed. */
  ghost predicate ChangedOnly(before: seq<Byte>, after: seq<Byte>, base: int, from: int, to: int) {
    |before| == |after| && forall x :: 0 <= x < |after| && !(from <= base + x < to) ==> after[x] == before[x]
  }

  lemma ChangedMore(s0: seq<Byte>, s1: seq<Byte>, s2: seq<Byte>, base: int, from: int, to: int, b: seq<Byte>)
    requires from <= to && ChangedOnly(s0, s1, base, from, to) && Overwrites(s1, s2, to - base, b)
    ensures ChangedOnly(s0, s2, base, from, to + |b|)
  {
  }

  /** Writing one more wrapper keeps the earlier ones. */
  lemma WrapperAdded(inp: Input, n: nat, g: Generator, text: seq<Byte>, before: seq<Byte>, after: seq<Byte>, base: int)
    requires ReadableItems(inp.items, text, inp.start) && ValidGenerator(g) && n < |inp.items|
    requires |g.template| == inp.templateSize
    requires WrappersWritten(inp, n, g, text, before, base)
    requires ReadablePlan(Planned(inp, n), text, inp.start)
    requires Overwrites(before, after, Space(inp, n) - base, WrapperBytes(g, Planned(inp, n), n, text, inp.start))
    ensures WrappersWritten(inp, n + 1, g, text, after, base)
  {
    hide WrapperSize, Shape, WrapperBytes, ReadablePlan, Space;
    SpaceStep(inp, n);
    forall i | 0 <= i < n + 1
      ensures WrapperWritten(inp, i, g, text, after, base)
    {
      if i < n {
        assert WrapperWritten(inp, i, g, text, before, base);
        SpaceStep(inp, i);
        SpaceGrows(inp, i + 1, n);
      }
    }
  }

  /** One iteration of create_patch_wrappers up to the creation of the wrapper. */
  method PlanPatch(desc: InterceptDesc, p: Patch, nextNop: nat, ghost inp: Input, ghost i: nat)
    returns (ok: bool, q: Patch, next: nat)
    requires desc.Valid() && i < |inp.items| && p == inp.items[i]
    requires desc.nopTable == inp.nops && desc.textStart == inp.start && desc.textEnd == inp.end
    requires nextNop == NextNop(inp, i) && desc.jumps.Marks() == Marks(inp, i)
    modifies desc.jumps.table
    ensures ok <==> HasRoom(inp, i)
    ensures ok ==> q == Shape(inp, i, Marks(inp, i))
    ensures ok ==> next == NextNop(inp, i + 1) && desc.jumps.Marks() == Marks(inp, i + 1)
  {
    var choice;
    choice, next := AssignNopTrampoline(desc.nopTable, p.syscallAddr, nextNop);
    ScanIsAssign(p.syscallAddr, inp.nops, nextNop, choice, next);
    if choice.Some? {
      var nop := desc.nopTable[choice.value];
      q := p.(form := ViaNop(nop), dst := nop.address + 2, ret := p.syscallAddr + SYSCALL_INS_SIZE);
    } else {
      q, ok := ChooseWindow(desc.jumps, p);
      if !ok {
        return;
      }
    }
    desc.jumps.MarkJump(q.ret);
    ok := true;
  }

  lemma NothingDone(inp: Input, g: Generator, text: seq<Byte>, space: seq<Byte>, base: int)
    requires ReadableItems(inp.items, text, inp.start) && ValidGenerator(g)
    ensures NextNop(inp, 0) == 0 && Marks(inp, 0) == inp.marks && Space(inp, 0) == inp.space
    ensures WrappersWritten(inp, 0, g, text, space, base)
    ensures ChangedOnly(space, space, base, inp.space, inp.space)
  {
  }

  /** create_patch_wrappers: aborts exactly when some syscall without a NOP has neighbours for fewer than 5 bytes. */
  method CreatePatchWrappers(desc: InterceptDesc, text: array<Byte>, space: array<Byte>, base: int, dst: int,
                             g: Generator)
    returns (ok: bool, next: int)
    requires desc.Valid() && ValidGenerator(g)
    requires text != space && desc.jumps.table as object !in {text, space}
    requires ReadableItems(desc.items, text[..], desc.textStart)
    requires base <= dst && Space(InputOf(desc, dst, g), |desc.items|) <= base + space.Length
    modifies desc`items, desc.jumps.table, space
    ensures var inp := old(InputOf(desc, dst, g));
      && (ok <==> EveryWindowFits(inp))
      && (ok ==>
          && |desc.items| == |inp.items| && (forall i :: 0 <= i < |inp.items| ==> desc.items[i] == Planned(inp, i))
          && desc.jumps.Marks() == FinalMarks(inp)
          && next == Space(inp, |inp.items|)
          && WrappersWritten(inp, |inp.items|, g, text[..], space[..], base)
          && ChangedOnly(old(space[..]), space[..], base, dst, next))
  {
    hide WrapperSize, Shape, WrapperBytes, ReadablePlan, WrapperWritten, PlanWindow, Assign, Overwrites;
    hide NextNop, Marks, Space, WrappersWritten, ChangedOnly, ReadableItems, HasRoom;
    ghost var inp := InputOf(desc, dst, g);
    var nextNop := 0;
    next := dst;
    NothingDone(inp, g, text[..], space[..], base);
    for i := 0 to |desc.items|
      modifies desc`items, desc.jumps.table, space
      invariant |desc.items| == |inp.items|
      invariant forall j :: 0 <= j < i ==> desc.items[j] == Planned(inp, j) && HasRoom(inp, j)
      invariant forall j :: i <= j < |desc.items| ==> desc.items[j] == inp.items[j]
      invariant nextNop == NextNop(inp, i) && desc.jumps.Marks() == Marks(inp, i) && next == Space(inp, i)
      invariant WrappersWritten(inp, i, g, text[..], space[..], base)
      invariant ChangedOnly(old(space[..]), space[..], base, dst, next)
    {
      var q;
      ok, q, nextNop := PlanPatch(desc, desc.items[i], nextNop, inp, i);
      if !ok {
        return;
      }
      q := q.(wrapper := next);
      desc.items := desc.items[i := q];
      PlannedReadable(inp, i, text[..]);
      SpaceStep(inp, i);
      SpaceGrows(inp, 0, i);
      SpaceGrows(inp, i + 1, |inp.items|);
      ghost var before, from := space[..], next;
      next := CreateWrapper(space, base, next, g, q, i, text, desc.textStart);
      WrapperAdded(inp, i, g, text[..], before, space[..], base);
      ChangedMore(old(space[..]), before, space[..], base, dst, from, WrapperBytes(g, q, i, text[..], desc.textStart));
    }
    ok := true;
  }
}
