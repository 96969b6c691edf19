/**
 Deciding what to overwrite around each syscall (check_surrounding_instructions and
 create_patch_wrappers in src/patcher.c). Patches are planned in address order; planning one
 marks its return address as a jump destination before the next one is considered.
 */
module Plan {
  import opened Disasm
  import opened Encoding
  import opened Listing
  import opened NopMatching

  // ----- check_surrounding_instructions, with has_jump read as membership in `marks` -----

  predicate UsesPrev(p: Patch, marks: set<int>) {
    || p.prev.IsLeaRip()
    || (p.prev.IsCopiableBeforeSyscall() && !p.prev.IsOverwritableNop() && p.syscallAddr !in marks)
  }

  predicate UsesPrev2(p: Patch, marks: set<int>) {
    && UsesPrev(p, marks)
    && (|| p.prev2.IsLeaRip()
        || (p.prev2.IsCopiableBeforeSyscall() && !p.prev2.IsOverwritableNop()
            && p.syscallAddr - p.prev.length !in marks))
  }

  predicate UsesNext(p: Patch, marks: set<int>) {
    || p.next.IsLeaRip()
    || (p.next.IsCopiableAfterSyscall() && !p.next.IsOverwritableNop()
        && p.syscallAddr + SYSCALL_INS_SIZE !in marks)
  }

  // ----- one patch -----

  function PlanNop(p: Patch, nop: Range): Patch {
    p.(form := ViaNop(nop), dst := nop.address + 2, ret := p.syscallAddr + SYSCALL_INS_SIZE)
  }

  function PlanWindow(p: Patch, marks: set<int>): Patch {
    var before :=
      (if UsesPrev(p, marks) then p.prev.length else 0) + (if UsesPrev2(p, marks) then p.prev2.length else 0);
    var after := if UsesNext(p, marks) then p.next.length else 0;
    p.(form := ViaWindow(UsesPrev2(p, marks), UsesPrev(p, marks), UsesNext(p, marks)),
       dst := p.syscallAddr - before, ret := p.syscallAddr + SYSCALL_INS_SIZE + after)
  }

  /** A 5-byte jump fits; otherwise the source gives up with an abort. */
  predicate Fits(p: Patch) {
    p.form.ViaWindow? ==> p.ret - p.dst >= JUMP_INS_SIZE
  }

  // ----- the generated wrapper: relocated instructions, the template, the way back -----

  function RelocatedSize(ins: Ins): nat {
    if ins.IsLeaRip() then MOVABS_SIZE else ins.length
  }

  function SizeBefore(p: Patch): nat {
    if p.form.ViaWindow? && p.form.usesPrev then
      (if p.form.usesPrev2 then RelocatedSize(p.prev2) else 0) + RelocatedSize(p.prev)
    else 0
  }

  function SizeAfter(p: Patch): nat {
    if p.form.ViaWindow? && p.form.usesNext then RelocatedSize(p.next) else 0
  }

  function WrapperSize(p: Patch, templateSize: nat): nat {
    SizeBefore(p) + templateSize + SizeAfter(p) + TRAMPOLINE_SIZE
  }

  // ----- all patches -----

  /** What planning starts from; `space` is where the first wrapper goes. */
  datatype Input = Input(
    items: seq<Patch>, nops: seq<Range>, marks: set<int>, start: int, end: int, space: int, templateSize: nat)

  /** The next NOP to consider after the first n patches. */
  function NextNop(inp: Input, n: nat): (next: nat)
    requires n <= |inp.items|
    ensures next <= |inp.nops|
  {
    if n == 0 then 0 else Assign(inp.items[n - 1].syscallAddr, inp.nops, NextNop(inp, n - 1)).1
  }

  /** The NOP that serves patch i, if any. */
  function Choice(inp: Input, i: nat): (c: Option<nat>)
    requires i < |inp.items|
    ensures c.Some? ==> c.value < |inp.nops|
  {
    Assign(inp.items[i].syscallAddr, inp.nops, NextNop(inp, i)).0
  }

  /** Patch i as planned when `marks` are the jump destinations known. */
  function Shape(inp: Input, i: nat, marks: set<int>): Patch
    requires i < |inp.items|
  {
    var c := Choice(inp, i);
    if c.Some? then PlanNop(inp.items[i], inp.nops[c.value]) else PlanWindow(inp.items[i], marks)
  }

  /** The jump destinations known after the first n patches. */
  function Marks(inp: Input, n: nat): set<int>
    requires n <= |inp.items|
  {
    if n == 0 then inp.marks
    else
      var ret := Shape(inp, n - 1, Marks(inp, n - 1)).ret;
      Marks(inp, n - 1) + (if inp.start <= ret <= inp.end then {ret} else {})
  }

  /** Where the wrapper of patch n goes. */
  function Space(inp: Input, n: nat): int
    requires n <= |inp.items|
  {
    if n == 0 then inp.space
    else Space(inp, n - 1) + WrapperSize(Shape(inp, n - 1, Marks(inp, n - 1)), inp.templateSize)
  }

  function Planned(inp: Input, i: nat): Patch
    requires i < |inp.items|
  {
    Shape(inp, i, Marks(inp, i)).(wrapper := Space(inp, i))
  }

  function FinalMarks(inp: Input): set<int> {
    Marks(inp, |inp.items|)
  }

  /** The input comes from a gapless listing of the text. */
  ghost predicate FromListing(inp: Input, L: seq<Ins>, cap: nat) {
    && Tiled(L, inp.start, inp.end)
    && inp.items == PatchesOf(L, |L|)
    && inp.nops == NopsOf(L, |L|, cap)
  }

  /** The input comes from any listing, gaps or not. */
  ghost predicate Gathered(inp: Input, L: seq<Ins>, cap: nat) {
    && Spaced(L, inp.start, inp.end)
    && inp.items == PatchesOf(L, |L|)
    && inp.nops == NopsOf(L, |L|, cap)
  }

  lemma GatheredFacts(inp: Input, L: seq<Ins>, cap: nat, i: nat) returns (k: nat)
    requires Gathered(inp, L, cap) && i < |inp.items|
    ensures k + 1 < |L| && L[k].IsSyscall() && inp.items[i] == PatchAt(L, k)
    ensures var p := inp.items[i];
      && p.next == L[k + 1] && L[k].address <= p.syscallAddr == L[k + 1].address - SYSCALL_INS_SIZE
      && (p.prev == UNSET || (k >= 1 && p.prev == L[k - 1] && L[k - 1].address + L[k - 1].length <= L[k].address))
      && (p.prev2 == UNSET || (k >= 2 && p.prev2 == L[k - 2] && L[k - 2].address + L[k - 2].length <= L[k - 1].address))
  {
    hide PatchesOf, NopsOf;
    PatchesComplete(L, |L|);
    k := SyscallIndices(L, |L|)[i];
  }

  /** The NOP that serves a patch is in the listing, and in range. */
  lemma ChoiceFacts(inp: Input, L: seq<Ins>, cap: nat, i: nat) returns (n: nat)
    requires Gathered(inp, L, cap) && i < |inp.items| && Choice(inp, i).Some?
    ensures n < |L| && L[n].IsOverwritableNop()
    ensures inp.nops[Choice(inp, i).value] == Range(L[n].address, L[n].length)
    ensures IsNopInRange(inp.items[i].syscallAddr, inp.nops[Choice(inp, i).value])
  {
    hide PatchesOf, NopsOf;
    NopsComplete(L, |L|, cap);
    n := NopIndices(L, |L|, cap)[Choice(inp, i).value];
  }

  // ----- marks only grow, and only by return addresses -----

  lemma {:induction false} MarksGrow(inp: Input, i: nat, j: nat)
    requires i <= j <= |inp.items|
    ensures Marks(inp, i) <= Marks(inp, j)
    ensures i < j && inp.start <= Planned(inp, i).ret <= inp.end ==> Planned(inp, i).ret in Marks(inp, j)
    decreases j - i
  {
    hide Shape, Space;
    if i < j {
      MarksGrow(inp, i, j - 1);
      assert Planned(inp, j - 1).ret == Shape(inp, j - 1, Marks(inp, j - 1)).ret;
    }
  }

  lemma {:induction false} MarkOrigin(inp: Input, n: nat, a: int) returns (m: nat)
    requires n <= |inp.items| && a in Marks(inp, n) && a !in inp.marks
    ensures m < n && Planned(inp, m).ret == a
  {
    if a in Marks(inp, n - 1) {
      m := MarkOrigin(inp, n - 1, a);
    } else {
      m := n - 1;
    }
  }

  // ----- the outcome, in terms of the listing -----

  /** The first and the past-the-end instruction that a patch's window covers; k is its syscall. */
  function Lo(p: Patch, k: int): int {
    if p.form.ViaWindow? && p.form.usesPrev then (if p.form.usesPrev2 then k - 2 else k - 1) else k
  }

  function Hi(p: Patch, k: int): int {
    if p.form.ViaWindow? && p.form.usesNext then k + 2 else k + 1
  }

  /**
   p is how the source plans the syscall at index k when `marks` are the known jump destinations;
   n is the index of its NOP, if it has one.
   */
  ghost predicate IsPlan(L: seq<Ins>, k: nat, p: Patch, marks: set<int>, n: nat) {
    && k + 1 < |L| && n < |L| && L[k].IsSyscall()
    && p.syscallAddr == At(L, k) && p.next == L[k + 1]
    && p.prev == (if k >= 1 then L[k - 1] else UNSET) && p.prev2 == (if k >= 2 then L[k - 2] else UNSET)
    && !p.form.Unplanned?
    && (p.form.ViaNop? ==>
        && L[n].IsOverwritableNop() && p.form.nop == Range(At(L, n), L[n].length)
        && IsNopInRange(p.syscallAddr, p.form.nop)
        && p.dst == At(L, n) + 2 && p.ret == At(L, k + 1))
    && (p.form.ViaWindow? ==>
        && p.form == ViaWindow(UsesPrev2(p, marks), UsesPrev(p, marks), UsesNext(p, marks))
        && 0 <= Lo(p, k) && p.dst == At(L, Lo(p, k)) && p.ret == At(L, Hi(p, k)))
  }

  /**
   A complete planning run over the listing L: for each patch its syscall, its NOP, the plan and the marks
   before it.
   */
  datatype Run = Run(
    L: seq<Ins>, start: int, end: int, ks: seq<nat>, ns: seq<nat>, ps: seq<Patch>, ms: seq<set<int>>)

  ghost predicate Sized(r: Run) {
    |r.ks| == |r.ns| == |r.ps| == |r.ms| - 1
  }

  ghost predicate AllPlanned(r: Run)
    requires Sized(r)
  {
    forall i :: 0 <= i < |r.ps| ==> IsPlan(r.L, r.ks[i], r.ps[i], r.ms[i], r.ns[i])
  }

  /** Syscalls come in listing order, and no NOP serves two of them. */
  ghost predicate Ordered(r: Run)
    requires Sized(r)
  {
    && (forall i, j :: 0 <= i < j < |r.ps| ==> r.ks[i] < r.ks[j])
    && (forall i, j :: 0 <= i < j < |r.ps| && r.ps[i].form.ViaNop? && r.ps[j].form.ViaNop? ==> r.ns[i] != r.ns[j])
  }

  /** Marks only grow, namely by the return address of each patch, if it lies in the text. */
  ghost predicate MarksAccumulate(r: Run)
    requires Sized(r)
  {
    && (forall i, j :: 0 <= i < j < |r.ms| ==> r.ms[i] <= r.ms[j])
    && (forall i, j :: 0 <= i < j < |r.ms| && r.start <= r.ps[i].ret <= r.end ==> r.ps[i].ret in r.ms[j])
    && (forall j, a :: 0 <= j < |r.ms| && a in r.ms[j] && a !in r.ms[0] ==> exists i :: 0 <= i < j && r.ps[i].ret == a)
  }

  ghost predicate IsRun(r: Run) {
    Tiled(r.L, r.start, r.end) && Sized(r) && AllPlanned(r) && Ordered(r) && MarksAccumulate(r)
  }

  /** The NOP index of a patch; any index will do for a patch without one. */
  ghost function NopIndexOf(inp: Input, L: seq<Ins>, cap: nat, i: nat): nat
    requires i < |inp.items|
  {
    var c, ix := Choice(inp, i), NopIndices(L, |L|, cap);
    if c.Some? && c.value < |ix| then ix[c.value] else 0
  }

  ghost function RunOf(inp: Input, L: seq<Ins>, cap: nat): Run {
    Run(L, inp.start, inp.end, SyscallIndices(L, |L|),
        seq(|inp.items|, i requires 0 <= i < |inp.items| => NopIndexOf(inp, L, cap, i)),
        seq(|inp.items|, i requires 0 <= i < |inp.items| => Planned(inp, i)),
        seq(|inp.items| + 1, i requires 0 <= i <= |inp.items| => Marks(inp, i)))
  }

  /** What a patch knows about its syscall is what the listing says. */
  lemma ItemFacts(L: seq<Ins>, start: int, end: int, k: nat)
    requires Tiled(L, start, end) && k + 1 < |L| && L[k].IsSyscall()
    ensures PatchAt(L, k).syscallAddr == At(L, k) && At(L, k + 1) == At(L, k) + SYSCALL_INS_SIZE
    ensures At(L, k + 2) == At(L, k + 1) + L[k + 1].length
    ensures k >= 1 ==> At(L, k) == At(L, k - 1) + L[k - 1].length
    ensures k >= 2 ==> At(L, k - 1) == At(L, k - 2) + L[k - 2].length
  {
    var _ := At(L, k);
    var _ := At(L, k + 1);
    var _ := At(L, k + 2);
  }

  lemma WindowIsPlan(L: seq<Ins>, start: int, end: int, k: nat, marks: set<int>, space: int)
    requires Tiled(L, start, end) && k + 1 < |L| && L[k].IsSyscall()
    ensures IsPlan(L, k, PlanWindow(PatchAt(L, k), marks).(wrapper := space), marks, 0)
  {
    ItemFacts(L, start, end, k);
    var p := PatchAt(L, k);
    var q := PlanWindow(p, marks).(wrapper := space);
    assert UsesPrev(p, marks) == UsesPrev(q, marks);
    assert UsesPrev2(p, marks) == UsesPrev2(q, marks);
    assert UsesNext(p, marks) == UsesNext(q, marks);
  }

  lemma NopIsPlan(L: seq<Ins>, start: int, end: int, k: nat, marks: set<int>, space: int, n: nat)
    requires Tiled(L, start, end) && k + 1 < |L| && L[k].IsSyscall()
    requires n < |L| && L[n].IsOverwritableNop() && IsNopInRange(At(L, k), Range(L[n].address, L[n].length))
    ensures IsPlan(L, k, PlanNop(PatchAt(L, k), Range(L[n].address, L[n].length)).(wrapper := space), marks, n)
  {
    ItemFacts(L, start, end, k);
  }

  lemma PlannedIsPlan(inp: Input, L: seq<Ins>, cap: nat, i: nat)
    requires FromListing(inp, L, cap) && i < |inp.items|
    ensures i < |SyscallIndices(L, |L|)|
    ensures IsPlan(L, SyscallIndices(L, |L|)[i], Planned(inp, i), Marks(inp, i), NopIndexOf(inp, L, cap, i))
  {
    PatchesComplete(L, |L|);
    NopsComplete(L, |L|, cap);
    var k := SyscallIndices(L, |L|)[i];
    ItemFacts(L, inp.start, inp.end, k);
    var c := Choice(inp, i);
    if c.Some? {
      NopIsPlan(L, inp.start, inp.end, k, Marks(inp, i), Space(inp, i), NopIndices(L, |L|, cap)[c.value]);
    } else {
      WindowIsPlan(L, inp.start, inp.end, k, Marks(inp, i), Space(inp, i));
    }
  }

  /** The scan never steps back: later patches only see later NOPs. */
  lemma {:induction false} NextNopGrows(inp: Input, i: nat, j: nat)
    requires i <= j <= |inp.items|
    ensures NextNop(inp, i) <= NextNop(inp, j)
    decreases j - i
  {
    if i < j {
      NextNopGrows(inp, i, j - 1);
    }
  }

  lemma ChoicesIncrease(inp: Input, i: nat, j: nat)
    requires i < j < |inp.items| && Choice(inp, i).Some? && Choice(inp, j).Some?
    ensures Choice(inp, i).value < Choice(inp, j).value
  {
    NextNopGrows(inp, i + 1, j);
  }

  lemma NopIndexOrder(L: seq<Ins>, cap: nat, a: nat, b: nat)
    requires a < b < |NopIndices(L, |L|, cap)|
    ensures NopIndices(L, |L|, cap)[a] < NopIndices(L, |L|, cap)[b]
  {
    NopIndicesComplete(L, |L|, cap);
  }

  lemma NopsDistinct(inp: Input, L: seq<Ins>, cap: nat, i: nat, j: nat)
    requires |inp.nops| == |NopIndices(L, |L|, cap)|
    requires i < j < |inp.items| && Choice(inp, i).Some? && Choice(inp, j).Some?
    ensures NopIndexOf(inp, L, cap, i) != NopIndexOf(inp, L, cap, j)
  {
    ChoicesIncrease(inp, i, j);
    NopIndexOrder(L, cap, Choice(inp, i).value, Choice(inp, j).value);
  }

  lemma RunOrdered(inp: Input, L: seq<Ins>, cap: nat, r: Run)
    requires FromListing(inp, L, cap) && r == RunOf(inp, L, cap) && Sized(r)
    ensures Ordered(r)
  {
    SyscallIndicesComplete(L, |L|);
    forall i, j | 0 <= i < j < |r.ps| && r.ps[i].form.ViaNop? && r.ps[j].form.ViaNop?
      ensures r.ns[i] != r.ns[j]
    {
      NopsComplete(L, |L|, cap);
      NopsDistinct(inp, L, cap, i, j);
    }
  }

  lemma RunMarksAccumulate(inp: Input, L: seq<Ins>, cap: nat, r: Run)
    requires r == RunOf(inp, L, cap) && Sized(r)
    ensures MarksAccumulate(r)
  {
    assert Marks(inp, 0) == inp.marks;
    hide Planned, Marks, NopIndexOf, SyscallIndices;
    forall i, j | 0 <= i < j < |r.ms|
      ensures r.ms[i] <= r.ms[j]
      ensures r.start <= r.ps[i].ret <= r.end ==> r.ps[i].ret in r.ms[j]
    {
      MarksGrow(inp, i, j);
    }
    forall j, a | 0 <= j < |r.ms| && a in r.ms[j] && a !in r.ms[0]
      ensures exists i :: 0 <= i < j && r.ps[i].ret == a
    {
      var i := MarkOrigin(inp, j, a);
      assert r.ps[i].ret == a;
    }
  }

  /** What the planner does is a run. */
  lemma PlanIsRun(inp: Input, L: seq<Ins>, cap: nat)
    requires FromListing(inp, L, cap)
    ensures IsRun(RunOf(inp, L, cap))
  {
    var r := RunOf(inp, L, cap);
    PatchesComplete(L, |L|);
    forall i | 0 <= i < |r.ps|
      ensures IsPlan(r.L, r.ks[i], r.ps[i], r.ms[i], r.ns[i])
    {
      PlannedIsPlan(inp, L, cap, i);
    }
    RunOrdered(inp, L, cap, r);
    RunMarksAccumulate(inp, L, cap, r);
  }
}
