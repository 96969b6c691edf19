/**
 Patching one object, from its bytes to the installed patches (find_syscalls in src/intercept_desc.c,
 intercept in src/intercept.c).
 */
module InterceptObject {
  import opened Bytes
  import opened Encoding
  import opened Disasm
  import opened Listing
  import opened Crawl
  import opened Plan
  import opened Overlap
  import opened Windows
  import opened WrapperCode
  import opened Patcher
  import opened Placement
  import opened Activate
  import opened Pipeline
  import opened Machine
  import opened Simulation
  import opened SimulationRun

  /** No wrapper is longer than its template, three instructions and a jump. */
  const WRAPPER_OVERHEAD := 3 * 15 + TRAMPOLINE_SIZE

  lemma WrapperBound(inp: Input, L: seq<Ins>, cap: nat, i: nat)
    requires Gathered(inp, L, cap) && i < |inp.items|
    ensures WrapperSize(Planned(inp, i), inp.templateSize) <= inp.templateSize + WRAPPER_OVERHEAD
  {
    hide PatchesOf, NopsOf, Choice, Space, Marks, UsesPrev, UsesPrev2, UsesNext;
    var k := GatheredFacts(inp, L, cap, i);
    assert RelocatedSize(UNSET) == 0;
  }

  lemma {:induction false} SpaceBound(inp: Input, L: seq<Ins>, cap: nat, n: nat)
    requires Gathered(inp, L, cap) && n <= |inp.items|
    ensures Space(inp, n) <= inp.space + n * (inp.templateSize + WRAPPER_OVERHEAD)
  {
    hide Gathered, Shape, WrapperSize;
    if n > 0 {
      SpaceBound(inp, L, cap, n - 1);
      SpaceStep(inp, n - 1);
      WrapperBound(inp, L, cap, n - 1);
    }
  }

  ghost function KnownIn(known: seq<int>, n: nat, start: int, end: int): set<int>
    requires n <= |known|
  {
    set i | 0 <= i < n && start <= known[i] <= end :: known[i]
  }

  /** Some listed instruction refers to x. */
  ghost predicate RefersTo(L: seq<Ins>, x: int) {
    exists j :: 0 <= j < |L| && L[j].opr.hasIp && L[j].opr.target == x
  }

  /** An address of the text that the tables name or that an instruction refers to. */
  ghost predicate IsDestination(known: seq<int>, L: seq<Ins>, start: int, end: int, x: int) {
    start <= x <= end && (x in known || RefersTo(L, x))
  }

  lemma MarksAreDestinations(known: seq<int>, L: seq<Ins>, start: int, end: int, x: int)
    ensures x in KnownIn(known, |known|, start, end) + ReferencesOf(L, |L|, start, end)
       <==> IsDestination(known, L, start, end, x)
  {
    if start <= x <= end && RefersTo(L, x) {
      var j :| 0 <= j < |L| && L[j].opr.hasIp && L[j].opr.target == x;
      assert L[j].opr.target in ReferencesOf(L, |L|, start, end);
    }
  }

  /**
   find_syscalls: marks the addresses from the symbol and relocation tables, then crawls the text. All of
   them that lie in the text are marks, so are the targets of listed instructions, and nothing else is.
   */
  method FindSyscalls(dis: int -> Ins, known: seq<int>, start: int, end: int) returns (desc: InterceptDesc)
    requires start < end && IsDisassembler(dis, start, end)
    ensures fresh(desc) && fresh(desc.jumps) && fresh(desc.jumps.table)
    ensures desc.Valid() && desc.textStart == start && desc.textEnd == end && desc.maxNopCount == TableCount(start, end)
    ensures var L := Sweep(dis, start, end); desc.Recorded(L, |L|, KnownIn(known, |known|, start, end))
    ensures forall x :: x in desc.jumps.Marks() <==> IsDestination(known, Sweep(dis, start, end), start, end, x)
  {
    desc := new InterceptDesc(start, end);
    for i := 0 to |known|
      invariant desc.items == [] && desc.nopTable == []
      invariant desc.jumps.Marks() == KnownIn(known, i, start, end)
    {
      desc.jumps.MarkJump(known[i]);
      assert KnownIn(known, i + 1, start, end)
        == KnownIn(known, i, start, end) + (if start <= known[i] <= end then {known[i]} else {});
    }
    desc.CrawlText(dis);
    forall x
      ensures x in desc.jumps.Marks() <==> IsDestination(known, Sweep(dis, start, end), start, end, x)
    {
      MarksAreDestinations(known, Sweep(dis, start, end), start, end, x);
    }
  }

  /** The text and the wrapper space are mapped, apart from each other. */
  ghost predicate Mapped(maps: seq<Mapping>, from: int, size: nat) {
    exists i :: 0 <= i < |maps| && maps[i].start <= from && from + size <= maps[i].end
  }

  lemma TableApart(maps: seq<Mapping>, from: int, size: nat, guess: int)
    requires 0 < size && Mapped(maps, from, size) && !Taken(maps, guess)
    ensures from + size <= guess || guess + TABLE_SIZE <= from
  {
    var i :| 0 <= i < |maps| && maps[i].start <= from && from + size <= maps[i].end;
    assert !Overlaps(maps[i], guess);
  }

  /** What patching starts from. */
  ghost function StartInput(dis: int -> Ins, known: seq<int>, start: int, end: int, dst: int, g: Generator): Input {
    var L, cap := Sweep(dis, start, end), TableCount(start, end);
    Input(PatchesOf(L, |L|), NopsOf(L, |L|, cap),
          KnownIn(known, |known|, start, end) + ReferencesOf(L, |L|, start, end),
          start, end, dst, |g.template|)
  }

  /** The planning and writing stages, for any listing: when they abort, and what they leave behind otherwise. */
  method PatchText(desc: InterceptDesc, text: array<Byte>, usesTable: bool, table: array<Byte>, tableBase: int,
                   space: array<Byte>, spaceBase: int, dst: int, g: Generator, ghost L: seq<Ins>)
    returns (ok: bool, next: int)
    requires desc.Valid() && ValidGenerator(g) && text != space && text != table && space != table
    requires desc.jumps.table as object !in {text, space, table}
    requires text.Length == desc.textEnd - desc.textStart + 1
    requires Gathered(InputOf(desc, dst, g), L, desc.maxNopCount)
    requires spaceBase <= dst && dst + |desc.items| * (|g.template| + WRAPPER_OVERHEAD) <= spaceBase + space.Length
    modifies desc`items, desc.jumps.table, text, table, space
    ensures var inp := old(InputOf(desc, dst, g)); var ps := Plans(inp);
      && (ok <==> EveryWindowFits(inp) && forall i :: 0 <= i < |ps| ==>
            ChecksPass(ps[i], i, inp.start, inp.end, usesTable, tableBase, table.Length))
      && (ok ==>
            && ReadableItems(inp.items, old(text[..]), inp.start)
            && WrappersWritten(inp, |inp.items|, g, old(text[..]), space[..], spaceBase)
            && (AllDisjoint(ps) ==> AllApplied(ps, |ps|, text[..], inp.start, usesTable, tableBase))
            && (usesTable ==> SlotsWritten(ps, |ps|, table[..]))
            && Untouched(ps, |ps|, old(text[..]), text[..], inp.start))
  {
    hide Gathered, Planned, ReadableItems, WrappersWritten, AllApplied, SlotsWritten, Untouched, ChecksPass, Fits,
      AllDisjoint, AllWellPlaced, Space, FinalMarks, WellPlaced, HasRoom;
    ghost var inp := InputOf(desc, dst, g);
    ListingIsReadable(inp, L, desc.maxNopCount, text[..]);
    SpaceBound(inp, L, desc.maxNopCount, |inp.items|);
    ok, next := CreatePatchWrappers(desc, text, space, spaceBase, dst, g);
    if !ok {
      return;
    }
    assert desc.items == Plans(inp);
    PlansAreWellPlaced(inp, L, desc.maxNopCount);
    ok := ActivatePatches(desc.items, text, desc.textStart, desc.textEnd, usesTable, table, tableBase);
  }

  lemma PlansAreWellPlaced(inp: Input, L: seq<Ins>, cap: nat)
    requires Gathered(inp, L, cap) && EveryWindowFits(inp)
    ensures AllWellPlaced(Plans(inp), inp.start, inp.end)
  {
    hide Gathered, WellPlaced, Fits, Planned, HasRoom;
    forall i | 0 <= i < |inp.items|
      ensures WellPlaced(Plans(inp)[i], inp.start, inp.end)
    {
      FitsIff(inp, i);
      PlanIsWellPlaced(inp, L, cap, i);
    }
  }

  /** The search for the table would find no place. */
  ghost predicate NoPlace(maps: seq<Mapping>, start: int, end: int, minAddress: int) {
    forall guess :: InitialGuess(end, minAddress) <= guess && !TooFar(start, guess) ==> Taken(maps, guess)
  }

  /**
   What patching demands of its surroundings: sorted maps that cover the text and the wrapper space, and
   room for the wrappers.
   */
  ghost predicate Surroundings(L: seq<Ins>, start: int, end: int, maps: seq<Mapping>, minAddress: int,
                               spaceBase: int, spaceSize: nat, dst: int, templateSize: nat) {
    && SortedMaps(maps) && 0 <= minAddress <= start < end < TWO_64 - 1
    && end - start < 2 * INT32_MAX - TABLE_SIZE - PAGE
    && Mapped(maps, start, end - start + 1) && 0 < spaceSize && Mapped(maps, spaceBase, spaceSize)
    && (end < spaceBase || spaceBase + spaceSize <= start) && 0 <= spaceBase && spaceBase + spaceSize <= TWO_64
    && spaceBase <= dst && dst + |PatchesOf(L, |L|)| * (templateSize + WRAPPER_OVERHEAD) <= spaceBase + spaceSize
  }

  /** Once every window fits and the table is in reach, only the size of the table can stop activation. */
  lemma ActivationIff(inp: Input, L: seq<Ins>, cap: nat, tableBase: int)
    requires Gathered(inp, L, cap) && EveryWindowFits(inp) && InReach(inp.start, inp.end, tableBase)
    ensures var ps := Plans(inp);
      (forall i :: 0 <= i < |ps| ==> ChecksPass(ps[i], i, inp.start, inp.end, true, tableBase, TABLE_SIZE))
      <==> TRAMPOLINE_SIZE * |ps| < TABLE_SIZE
  {
    hide Gathered, Fits, InReach, Planned, AllFit, HasRoom;
    var ps := Plans(inp);
    if TRAMPOLINE_SIZE * |ps| < TABLE_SIZE {
      forall i | 0 <= i < |ps|
        ensures ChecksPass(ps[i], i, inp.start, inp.end, true, tableBase, TABLE_SIZE)
      {
        FitsIff(inp, i);
        ChecksPassForPlan(inp, L, cap, i, tableBase);
      }
    } else {
      var last := |ps| - 1;
      assert !ChecksPass(ps[last], last, inp.start, inp.end, true, tableBase, TABLE_SIZE);
    }
  }

  /** A place that was found shows that there is one. */
  lemma PlaceFound(maps: seq<Mapping>, start: int, end: int, minAddress: int, guess: int)
    requires 0 <= minAddress <= start <= end && end - start < 2 * INT32_MAX - TABLE_SIZE - PAGE
    requires guess == InitialGuess(end, minAddress) || !TooFar(start, guess)
    requires InitialGuess(end, minAddress) <= guess && !Taken(maps, guess)
    ensures !NoPlace(maps, start, end, minAddress)
  {
    assert !TooFar(start, guess);
  }

  /**
   One object, from the listing to the installed patches, whatever its text. It aborts exactly when there
   is no place for the trampoline table, a window is too small, or the table is too small for all patches.
   */
  method PatchObject(dis: int -> Ins, known: seq<int>, text: array<Byte>, start: int, end: int,
                     maps: seq<Mapping>, minAddress: int, space: array<Byte>, spaceBase: int, dst: int, g: Generator)
    returns (ok: bool, table: array<Byte>, tableBase: int, next: int)
    requires text != space && text.Length == end - start + 1 && ValidGenerator(g)
    requires IsDisassembler(dis, start, end) && InstructionSizes(dis)
    requires Surroundings(Sweep(dis, start, end), start, end, maps, minAddress,
                          spaceBase, space.Length, dst, |g.template|)
    modifies text, space
    ensures fresh(table) && table.Length == TABLE_SIZE
    ensures var inp := StartInput(dis, known, start, end, dst, g);
      && (ok <==>
            && !NoPlace(maps, start, end, minAddress) && EveryWindowFits(inp)
            && TRAMPOLINE_SIZE * |inp.items| < TABLE_SIZE)
      && (ok ==>
            StagesDone(inp, g, old(text[..]),
                       Memory(start, text[..], true, tableBase, table[..], spaceBase, space[..])))
  {
    hide Gathered, Planned, ReadableItems, WrappersWritten, AllApplied, SlotsWritten, Untouched, ChecksPass, Fits,
      InReach, Shape, EveryWindowFits, Taken, AllDisjoint, NoneBelow, OrdinaryText, Free, IsDestination;
    ghost var L := Sweep(dis, start, end);
    table := new Byte[TABLE_SIZE](_ => 0);
    var desc := FindSyscalls(dis, known, start, end);
    ghost var inp := StartInput(dis, known, start, end, dst, g);
    ghost var cap := TableCount(start, end);
    StartIsGathered(dis, known, start, end, dst, g);
    assert InputOf(desc, dst, g) == inp;
    var placed;
    placed, tableBase := FindPlace(maps, start, end, minAddress);
    if !placed {
      return false, table, tableBase, dst;
    }
    TableInReach(start, end, minAddress, tableBase);
    TableApart(maps, start, end - start + 1, tableBase);
    TableApart(maps, spaceBase, space.Length, tableBase);
    ok, next := PatchText(desc, text, true, table, tableBase, space, spaceBase, dst, g, L);
    PlaceFound(maps, start, end, minAddress, tableBase);
    if EveryWindowFits(inp) {
      ActivationIff(inp, L, cap, tableBase);
    }
  }

  lemma StartIsGathered(dis: int -> Ins, known: seq<int>, start: int, end: int, dst: int, g: Generator)
    requires IsDisassembler(dis, start, end) && InstructionSizes(dis)
    ensures Gathered(StartInput(dis, known, start, end, dst, g), Sweep(dis, start, end), TableCount(start, end))
  {
    SweepSpaced(dis, start, end, Sweep(dis, start, end));
  }

  /** From a gapless sweep comes an input as the theorems on plans and runs ask for it. */
  lemma StartFromListing(dis: int -> Ins, known: seq<int>, start: int, end: int, dst: int, g: Generator)
    requires IsDisassembler(dis, start, end) && InstructionSizes(dis) && start <= end && dis(start).length > 0
    requires var L := Sweep(dis, start, end); forall k :: 0 <= k < |L| ==> NoGapAfter(dis, L, end, k)
    ensures FromListing(StartInput(dis, known, start, end, dst, g), Sweep(dis, start, end), TableCount(start, end))
  {
    SweepTiled(dis, start, end, Sweep(dis, start, end));
  }

  /** No destination at which an instruction starts is strictly inside a window. */
  ghost predicate NothingEntered(inp: Input, L: seq<Ins>, known: seq<int>) {
    forall i, e :: 0 <= i < |inp.items| && 0 <= e < |L| && IsDestination(known, L, inp.start, inp.end, L[e].address) ==>
      var p := Planned(inp, i); p.form.ViaWindow? ==> !(p.dst < L[e].address < p.ret)
  }

  lemma EntriesStayOut(dis: int -> Ins, known: seq<int>, start: int, end: int, dst: int, g: Generator)
    requires var inp, L := StartInput(dis, known, start, end, dst, g), Sweep(dis, start, end);
      FromListing(inp, L, TableCount(start, end)) && NoLeaShared(inp, L) && NoLeaCutOff(inp, L)
    ensures NothingEntered(StartInput(dis, known, start, end, dst, g), Sweep(dis, start, end), known)
  {
    hide FromListing, NoLeaShared, NoLeaCutOff, Planned, IsDestination, KnownIn, ReferencesOf, PatchesOf, NopsOf;
    var inp, L := StartInput(dis, known, start, end, dst, g), Sweep(dis, start, end);
    DestinationsStayOutIff(inp, L, TableCount(start, end));
    forall i, e | 0 <= i < |inp.items| && 0 <= e < |L| && IsDestination(known, L, inp.start, inp.end, L[e].address)
      ensures var p := Planned(inp, i); p.form.ViaWindow? ==> !(p.dst < L[e].address < p.ret)
    {
      MarksAreDestinations(known, L, start, end, L[e].address);
      MarksGrow(inp, 0, |inp.items|);
      assert At(L, e) == L[e].address && At(L, e) in FinalMarks(inp);
    }
  }

  /**
   Whatever the program, the processor and the kernel: an object that was patched without aborting, with a
   gapless listing in which no two patches share a LEA, runs as before.
   */
  lemma PatchedObjectSimulates(cpu: Cpu, inp: Input, r: Run, g: Generator, text0: seq<Byte>, m: Memory,
                               rest: int -> Byte,
                               block: (int, int, State) -> Exit, polite: State -> bool, depth: nat,
                               agree: Relation, c: Config, n: nat) returns (steps: nat)
    requires StagesDone(inp, g, text0, m) && IsRunOf(r, inp) && Unshared(r)
    requires var su := SetupOf(cpu, r, g, text0, m, rest, block, polite, depth);
      && AllDescribed(su) && Forwards(cpu.kernel, depth, g.level1, block, polite)
      && Ongoing(su, agree, c, n) && Observable(su, c.pc) && agree(c.pc, c.st, c.st)
    ensures var su := SetupOf(cpu, r, g, text0, m, rest, block, polite, depth);
      && ValidGenerator(su.g) && Meet(su, agree, c, n, c, steps)
      && Correspond(agree, VisitsOriginal(su, c, n), VisitsPatched(su, c, steps))
  {
    assert ValidGenerator(g) by { DoneIsValid(inp, g, text0, m); }
    hide StagesDone, IsRun, Unshared, Installed, AllDescribed, Forwards, Ongoing, Observable, Meet, VisitsPatched,
      VisitsOriginal, Image, Correspond;
    var su := SetupOf(cpu, r, g, text0, m, rest, block, polite, depth);
    StagesInstall(cpu, inp, r, g, text0, m, rest, block, polite, depth);
    assert Config(c.pc, c.st) == c;
    steps := PatchedRunSimulates(su, agree, c, c.st, n);
  }

  /** And it does nothing else. */
  lemma PatchedObjectIsSimulated(cpu: Cpu, inp: Input, r: Run, g: Generator, text0: seq<Byte>, m: Memory,
                                 rest: int -> Byte, block: (int, int, State) -> Exit, polite: State -> bool, depth: nat,
                                 agree: Relation, c: Config, steps: nat)
    returns (n: nat)
    requires StagesDone(inp, g, text0, m) && IsRunOf(r, inp) && Unshared(r)
    requires var su := SetupOf(cpu, r, g, text0, m, rest, block, polite, depth);
      && AllDescribed(su) && Forwards(cpu.kernel, depth, g.level1, block, polite)
      && Forever(su, agree, c) && Observable(su, c.pc) && agree(c.pc, c.st, c.st)
    ensures var su := SetupOf(cpu, r, g, text0, m, rest, block, polite, depth);
      ValidGenerator(su.g) && Correspond(agree, VisitsOriginal(su, c, n), VisitsPatched(su, c, steps))
  {
    assert ValidGenerator(g) by { DoneIsValid(inp, g, text0, m); }
    hide StagesDone, IsRun, Unshared, Installed, AllDescribed, Forwards, Forever, Observable, VisitsPatched,
      VisitsOriginal, Image, Correspond;
    var su := SetupOf(cpu, r, g, text0, m, rest, block, polite, depth);
    StagesInstall(cpu, inp, r, g, text0, m, rest, block, polite, depth);
    assert Config(c.pc, c.st) == c;
    n := PatchedRunIsSimulated(su, agree, c, c.st, steps);
  }

  lemma DoneIsValid(inp: Input, g: Generator, text0: seq<Byte>, m: Memory)
    requires StagesDone(inp, g, text0, m)
    ensures ValidGenerator(g)
  {
    hide Plans, ReadableItems, WrappersWritten, AllDisjoint, AllApplied, SlotsWritten, Untouched, ChecksPass,
      MemoriesApart;
  }
}
