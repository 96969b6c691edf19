/**
 What a window covers, told by the kinds of the instructions around a syscall and by the jump
 destinations between them (check_surrounding_instructions in src/patcher.c).
 */
module Windows {
  import opened Disasm
  import opened Listing
  import opened Plan
  import opened Overlap

  /** A LEA that computes an address relative to itself. */
  predicate IsRipLea(ins: Ins) {
    ins.kind == Lea && ins.opr.hasIp
  }

  /** The instruction works as well elsewhere; a return ends the window, so it must come last. */
  predicate Movable(ins: Ins, last: bool) {
    match ins.kind
    case Lea => ins.opr.hasIp || !ins.opr.isRel
    case Nop => ins.length < 7 && !ins.opr.hasIp && !ins.opr.isRel
    case Ret => last && !ins.opr.hasIp && !ins.opr.isRel
    case Other => !ins.opr.hasIp && !ins.opr.isRel
    case _ => false
  }

  /** A neighbour that works elsewhere is taken, unless a jump destination cuts it off and it is no LEA. */
  predicate Joins(ins: Ins, last: bool, boundary: int, marks: set<int>) {
    Movable(ins, last) && (IsRipLea(ins) || boundary !in marks)
  }

  predicate TakesPrev(p: Patch, marks: set<int>) {
    Joins(p.prev, false, p.syscallAddr, marks)
  }

  predicate TakesPrev2(p: Patch, marks: set<int>) {
    TakesPrev(p, marks) && Joins(p.prev2, false, p.syscallAddr - p.prev.length, marks)
  }

  predicate TakesNext(p: Patch, marks: set<int>) {
    Joins(p.next, true, p.syscallAddr + 2, marks)
  }

  /** The bytes of the syscall and of the neighbours that are taken. */
  function Room(p: Patch, marks: set<int>): nat {
    2
    + (if TakesPrev(p, marks) then p.prev.length else 0)
    + (if TakesPrev2(p, marks) then p.prev2.length else 0)
    + (if TakesNext(p, marks) then p.next.length else 0)
  }

  /** Patch i has a NOP, or room for a jump of five bytes. */
  predicate HasRoom(inp: Input, i: nat)
    requires i < |inp.items|
  {
    Choice(inp, i).Some? || Room(inp.items[i], Marks(inp, i)) >= 5
  }

  /** Every syscall without a NOP has room. */
  ghost predicate EveryWindowFits(inp: Input) {
    forall i :: 0 <= i < |inp.items| ==> HasRoom(inp, i)
  }

  // ----- the source's predicates mean just that -----

  /** Which neighbours the source uses, by their kinds. */
  lemma UsedIsTaken(p: Patch, marks: set<int>)
    ensures UsesPrev(p, marks) <==> TakesPrev(p, marks)
    ensures UsesPrev2(p, marks) <==> TakesPrev2(p, marks)
    ensures UsesNext(p, marks) <==> TakesNext(p, marks)
  {
    UsedAlone(p.prev, p.syscallAddr in marks);
    UsedAlone(p.prev2, p.syscallAddr - p.prev.length in marks);
    UsedAlone(p.next, p.syscallAddr + 2 in marks);
  }

  lemma UsedAlone(ins: Ins, marked: bool)
    ensures ins.IsLeaRip() || (ins.IsCopiableBeforeSyscall() && !ins.IsOverwritableNop() && !marked)
      <==> Movable(ins, false) && (IsRipLea(ins) || !marked)
    ensures ins.IsLeaRip() || (ins.IsCopiableAfterSyscall() && !ins.IsOverwritableNop() && !marked)
      <==> Movable(ins, true) && (IsRipLea(ins) || !marked)
  {
  }

  /** The window holds the syscall and the neighbours that are taken, and fits exactly if they have five bytes. */
  lemma WindowIsRoom(p: Patch, marks: set<int>)
    ensures var q := PlanWindow(p, marks);
      && q.ret - q.dst == Room(p, marks)
      && (Fits(q) <==> Room(p, marks) >= 5)
  {
    hide UsesPrev, UsesPrev2, UsesNext, TakesPrev, TakesPrev2, TakesNext;
    UsedIsTaken(p, marks);
  }

  lemma FitsIff(inp: Input, i: nat)
    requires i < |inp.items|
    ensures Fits(Planned(inp, i)) <==> HasRoom(inp, i)
  {
    hide PlanWindow, Room, Choice, Marks, Space;
    WindowIsRoom(inp.items[i], Marks(inp, i));
  }

  // ----- in a listing -----

  /** An instruction in a window, its syscall aside, is none that must stay where it is. */
  lemma CoveredKinds(r: Run, i: nat, j: nat)
    requires IsRun(r) && i < |r.ps| && Covers(r, i, j) && j != r.ks[i]
    ensures j < |r.L| && var ins := r.L[j];
      && ins.kind !in {Unset, Endbr, Syscall, Kind.Call, Branch}
      && (ins.kind == Ret ==> j == r.ks[i] + 1)
      && (ins.kind == Nop ==> ins.length < 7)
      && (ins.opr.hasIp ==> ins.kind == Lea)
      && (ins.opr.isRel ==> ins.kind == Lea && ins.opr.hasIp)
  {
    CoveredIsRelocatable(r, i, j);
  }

  /**
   Conversely, a neighbour of the other kinds is in the window, unless a jump destination cuts it off; and
   nothing else is.
   */
  lemma CoveredIff(r: Run, i: nat)
    requires IsRun(r) && i < |r.ps| && r.ps[i].form.ViaWindow?
    ensures var L, k, marks := r.L, r.ks[i], r.ms[i];
      && k + 1 < |L|
      && (Covers(r, i, k + 1) <==> Joins(L[k + 1], true, At(L, k + 1), marks))
      && (k >= 1 ==> (Covers(r, i, k - 1) <==> Joins(L[k - 1], false, At(L, k), marks)))
      && (k >= 2 ==>
            (Covers(r, i, k - 2) <==> Covers(r, i, k - 1) && Joins(L[k - 2], false, At(L, k - 1), marks)))
      && (forall j: nat :: Covers(r, i, j) ==> k - 2 <= j <= k + 1)
  {
    hide Joins, UsesPrev, UsesPrev2, UsesNext;
    var k, p := r.ks[i], r.ps[i];
    assert IsPlan(r.L, k, p, r.ms[i], r.ns[i]);
    ItemFacts(r.L, r.start, r.end, k);
    UsedIsTaken(p, r.ms[i]);
  }

  /** The window is made of whole instructions: from the first one covered to the address after the last. */
  lemma WindowIsCovered(r: Run, i: nat, x: int, j: nat)
    requires IsRun(r) && i < |r.ps| && r.ps[i].form.ViaWindow?
    requires j < |r.L| && At(r.L, j) <= x < At(r.L, j + 1)
    ensures r.ps[i].dst <= x < r.ps[i].ret <==> Covers(r, i, j)
  {
    var L, k, p := r.L, r.ks[i], r.ps[i];
    assert IsPlan(L, k, p, r.ms[i], r.ns[i]);
    AtOrder(L, r.start, r.end, j, Lo(p, k));
    AtOrder(L, r.start, r.end, j, Hi(p, k));
    AtOrder(L, r.start, r.end, Lo(p, k), j + 1);
    AtOrder(L, r.start, r.end, Hi(p, k), j + 1);
  }
}
