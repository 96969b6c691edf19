/**
 The repository's own patterns (test/pattern*.in.S): small texts with the patches that the expected output
 (test/pattern*.out.S) shows, or with none if patching is expected to fail. Addresses count from the start
 of the text.
 */
module Patterns {
  import opened Disasm
  import opened Listing
  import opened NopMatching
  import opened Plan
  import opened Windows

  // ----- texts -----

  function Op(address: int, length: nat, kind: Kind): Ins {
    Ins(address, length, kind, NO_REFERENCE, 0)
  }

  /** A direct branch. */
  function To(address: int, length: nat, target: int): Ins {
    Ins(address, length, Branch, Reference(true, true, false, target - (address + length), target), 0)
  }

  /** What planning starts from, with the addresses that symbols name. */
  ghost function InputOf(L: seq<Ins>, symbols: set<int>, end: int): Input {
    Input(PatchesOf(L, |L|), NopsOf(L, |L|, 1024), symbols + ReferencesOf(L, |L|, 0, end), 0, end, 0x1000, 0x80)
  }

  // ----- outcomes -----

  /** Patch i overwrites [dst, ret). */
  ghost predicate ByWindow(inp: Input, i: nat, dst: int, ret: int) {
    i < |inp.items| && var p := Planned(inp, i); p.form.ViaWindow? && p.dst == dst && p.ret == ret
  }

  /** Patch i uses the NOP at this address. */
  ghost predicate ByNop(inp: Input, i: nat, nop: int) {
    i < |inp.items| && var p := Planned(inp, i); p.form.ViaNop? && p.form.nop.address == nop && p.dst == nop + 2
  }

  // ----- from a text to its patches -----

  lemma {:induction false} SameIndices(a: seq<nat>, b: seq<nat>)
    requires forall i, j :: 0 <= i < j < |a| ==> a[i] < a[j]
    requires forall i, j :: 0 <= i < j < |b| ==> b[i] < b[j]
    requires forall x :: x in a <==> x in b
    ensures a == b
  {
    assert |b| > 0 ==> b[0] in b;
    if |a| > 0 {
      assert a[|a| - 1] in b && b[|b| - 1] in a;
      assert a[|a| - 1] == b[|b| - 1];
      var front, front' := a[..|a| - 1], b[..|b| - 1];
      forall x
        ensures x in front <==> x in front'
      {
        assert x in front ==> x in a && x != a[|a| - 1];
        assert x in front' ==> x in b && x != b[|b| - 1];
      }
      SameIndices(front, front');
      assert a == front + [a[|a| - 1]] && b == front' + [b[|b| - 1]];
    }
  }

  /** The syscalls of L are at ks. */
  ghost predicate SyscallsAre(L: seq<Ins>, ks: seq<nat>) {
    && (forall i, j :: 0 <= i < j < |ks| ==> ks[i] < ks[j])
    && (forall i :: 0 <= i < |ks| ==> ks[i] + 1 < |L| && L[ks[i]].IsSyscall())
    && (forall k :: 0 <= k < |L| - 1 && L[k].IsSyscall() ==> k in ks)
  }

  /** Its long NOPs are at ns. */
  ghost predicate NopsAre(L: seq<Ins>, ns: seq<nat>) {
    && |ns| < 1024 && (forall i, j :: 0 <= i < j < |ns| ==> ns[i] < ns[j])
    && (forall i :: 0 <= i < |ns| ==> ns[i] < |L| && L[ns[i]].IsOverwritableNop())
    && (forall k :: 0 <= k < |L| && L[k].IsOverwritableNop() ==> k in ns)
  }

  lemma ItemsOf(L: seq<Ins>, ks: seq<nat>)
    requires SyscallsAre(L, ks)
    ensures |PatchesOf(L, |L|)| == |ks|
    ensures forall i :: 0 <= i < |ks| ==> PatchesOf(L, |L|)[i] == PatchAt(L, ks[i])
  {
    hide PatchesOf, PatchAt;
    PatchesComplete(L, |L|);
    SyscallIndicesComplete(L, |L|);
    SameIndices(SyscallIndices(L, |L|), ks);
  }

  lemma TableOf(L: seq<Ins>, ns: seq<nat>)
    requires NopsAre(L, ns)
    ensures |NopsOf(L, |L|, 1024)| == |ns|
    ensures forall i :: 0 <= i < |ns| ==> NopsOf(L, |L|, 1024)[i] == Range(L[ns[i]].address, L[ns[i]].length)
  {
    hide NopsOf;
    NopsComplete(L, |L|, 1024);
    NopIndicesComplete(L, |L|, 1024);
    var found := NopIndices(L, |L|, 1024);
    if |found| == 1024 {
      AtMost(found, ns);
    }
    SameIndices(found, ns);
  }

  /** An increasing sequence is no longer than one that holds all its elements. */
  lemma {:induction false} AtMost(a: seq<nat>, b: seq<nat>)
    requires forall i, j :: 0 <= i < j < |a| ==> a[i] < a[j]
    requires forall i, j :: 0 <= i < j < |b| ==> b[i] < b[j]
    requires forall x :: x in a ==> x in b
    ensures |a| <= |b|
  {
    if |a| > 0 {
      var last := a[|a| - 1];
      assert last in a && last in b;
      var k :| 0 <= k < |b| && b[k] == last;
      var front := a[..|a| - 1];
      forall x | x in front
        ensures x in b[..k]
      {
        assert x in a && x < last;
        var j :| 0 <= j < |b| && b[j] == x;
        assert j < k && b[..k][j] == x;
      }
      AtMost(front, b[..k]);
    }
  }

  /** Every instruction that refers to an address refers to x; k is one of them. */
  lemma ReferencesAre(L: seq<Ins>, end: int, k: nat, x: int)
    requires k < |L| && L[k].opr.hasIp && 0 <= x <= end
    requires forall j :: 0 <= j < |L| && L[j].opr.hasIp ==> L[j].opr.target == x
    ensures ReferencesOf(L, |L|, 0, end) == {x}
  {
    assert L[k].opr.target in ReferencesOf(L, |L|, 0, end);
  }

  lemma NoReferences(L: seq<Ins>, end: int)
    requires forall j :: 0 <= j < |L| ==> !L[j].opr.hasIp
    ensures ReferencesOf(L, |L|, 0, end) == {}
  {
  }

  /** Without long NOPs, every patch is a window. */
  lemma NoNops(inp: Input, i: nat)
    requires inp.nops == [] && i < |inp.items|
    ensures Choice(inp, i).None?
    ensures Planned(inp, i) == PlanWindow(inp.items[i], Marks(inp, i)).(wrapper := Space(inp, i))
    ensures Shape(inp, i, Marks(inp, i)) == PlanWindow(inp.items[i], Marks(inp, i))
  {
    hide PlanWindow, Marks, Space;
  }

  // ----- the patterns -----

  const PATTERN1 := [Op(0, 7, Other), Op(7, 2, Syscall), Op(9, 4, Other)]

  /** mov; syscall; cmp: all three are overwritten. */
  lemma Pattern1()
    ensures var inp := InputOf(PATTERN1, {}, 12); |inp.items| == 1 && ByWindow(inp, 0, 0, 13)
  {
    hide PatchesOf, NopsOf, Planned, Choice, NextNop, Space, ReferencesOf;
    ItemsOf(PATTERN1, [1]);
    TableOf(PATTERN1, []);
    NoReferences(PATTERN1, 12);
    NoNops(InputOf(PATTERN1, {}, 12), 0);
  }

  const ENDBR := [
    Op(0, 4, Other), Op(4, 4, Endbr), Op(8, 2, Syscall), Op(10, 4, Other), Op(14, 4, Other), Op(18, 4, Other),
    Op(22, 4, Other)]

  /** endbr64 before the syscall stays where it is. */
  lemma PatternEndbr64()
    ensures var inp := InputOf(ENDBR, {}, 25); |inp.items| == 1 && ByWindow(inp, 0, 8, 14)
  {
    hide PatchesOf, NopsOf, Planned, Choice, NextNop, Space, ReferencesOf;
    ItemsOf(ENDBR, [2]);
    TableOf(ENDBR, []);
    NoReferences(ENDBR, 25);
    NoNops(InputOf(ENDBR, {}, 25), 0);
  }

  const ENDBR_AFTER := [Op(0, 5, Other), Op(5, 2, Syscall), Op(7, 4, Endbr)]

  /** So does one that follows it. */
  lemma EndbrAfter()
    ensures var inp := InputOf(ENDBR_AFTER, {}, 10); |inp.items| == 1 && ByWindow(inp, 0, 0, 7)
  {
    hide PatchesOf, NopsOf, Planned, Choice, NextNop, Space, ReferencesOf;
    ItemsOf(ENDBR_AFTER, [1]);
    TableOf(ENDBR_AFTER, []);
    NoReferences(ENDBR_AFTER, 10);
    NoNops(InputOf(ENDBR_AFTER, {}, 10), 0);
  }

  const RETS := [
    Op(0, 7, Other), Op(7, 7, Other), Op(14, 7, Other), Op(21, 7, Other), Op(28, 1, Ret), Op(29, 2, Syscall),
    Op(31, 1, Ret), Op(32, 4, Other), Op(36, 4, Other), Op(40, 4, Other), Op(44, 4, Other)]

  /** ret; syscall; ret: three bytes are not enough. */
  lemma PatternRets()
    ensures var inp := InputOf(RETS, {}, 47); |inp.items| == 1 && !HasRoom(inp, 0)
  {
    hide PatchesOf, NopsOf, Planned, Choice, NextNop, Space, ReferencesOf;
    ItemsOf(RETS, [5]);
    TableOf(RETS, []);
    NoReferences(RETS, 47);
    NoNops(InputOf(RETS, {}, 47), 0);
  }

  const JMPS := [
    Op(0, 7, Other), Op(7, 7, Other), Op(14, 7, Other), Op(21, 7, Other), To(28, 2, 47), Op(30, 1, Nop),
    Op(31, 2, Syscall), To(33, 2, 47), Op(35, 4, Other), Op(39, 4, Other), Op(43, 4, Other), Op(47, 4, Other)]

  /** jmp; nop; syscall; jmp: neither are these. */
  lemma PatternJmps()
    ensures var inp := InputOf(JMPS, {}, 50); |inp.items| == 1 && !HasRoom(inp, 0)
  {
    hide PatchesOf, NopsOf, Planned, Choice, NextNop, Space, ReferencesOf;
    ItemsOf(JMPS, [6]);
    TableOf(JMPS, []);
    ReferencesAre(JMPS, 50, 4, 47);
    NoNops(InputOf(JMPS, {}, 50), 0);
  }

  const DOUBLE := [Op(0, 1, Nop), Op(1, 2, Syscall), Op(3, 2, Syscall), Op(5, 1, Nop)]

  /** Two syscalls in a row, with one byte on each side: nor for either of them. */
  lemma PatternDoubleSyscall()
    ensures var inp := InputOf(DOUBLE, {}, 5); |inp.items| == 2 && !HasRoom(inp, 0) && !HasRoom(inp, 1)
  {
    hide PatchesOf, NopsOf, Planned, Choice, NextNop, Space, ReferencesOf;
    ItemsOf(DOUBLE, [1, 2]);
    TableOf(DOUBLE, []);
    NoReferences(DOUBLE, 5);
    NoNops(InputOf(DOUBLE, {}, 5), 0);
    NoNops(InputOf(DOUBLE, {}, 5), 1);
  }

  const LOOP := [
    Op(0, 3, Other), Op(3, 7, Other), Op(10, 2, Syscall), Op(12, 4, Other), Op(16, 7, Other), Op(23, 2, Syscall),
    To(25, 2, 0)]

  /** The second window starts where the first one returns, and leaves the loop instruction alone. */
  lemma PatternLoop()
    ensures var inp := InputOf(LOOP, {}, 26);
      |inp.items| == 2 && ByWindow(inp, 0, 0, 16) && ByWindow(inp, 1, 16, 25)
  {
    hide PatchesOf, NopsOf, Planned, Choice, NextNop, Space, ReferencesOf;
    ItemsOf(LOOP, [2, 5]);
    TableOf(LOOP, []);
    ReferencesAre(LOOP, 26, 6, 0);
    NoNops(InputOf(LOOP, {}, 26), 0);
    NoNops(InputOf(LOOP, {}, 26), 1);
    var inp := InputOf(LOOP, {}, 26);
    assert Marks(inp, 0) == inp.marks;
    assert 16 in Marks(inp, 1);
  }

  const SYMBOL := [
    Op(0, 3, Other), Op(3, 7, Other), Op(10, 1, Nop), Op(11, 2, Syscall), Op(13, 4, Other), Op(17, 7, Other),
    Op(24, 2, Syscall), Op(26, 3, Other), Op(29, 3, Other)]

  /** The symbol starts at the first syscall and ends at the second: nothing before either is taken. */
  lemma PatternSymbolBoundary0()
    ensures var inp := InputOf(SYMBOL, {11, 24}, 31);
      |inp.items| == 2 && ByWindow(inp, 0, 11, 17) && ByWindow(inp, 1, 24, 29)
  {
    hide PatchesOf, NopsOf, Planned, Choice, NextNop, Space, ReferencesOf;
    ItemsOf(SYMBOL, [3, 6]);
    TableOf(SYMBOL, []);
    NoReferences(SYMBOL, 31);
    NoNops(InputOf(SYMBOL, {11, 24}, 31), 0);
    NoNops(InputOf(SYMBOL, {11, 24}, 31), 1);
    var inp := InputOf(SYMBOL, {11, 24}, 31);
    assert Marks(inp, 0) == inp.marks;
  }

  const NOP8 := [
    Op(0, 3, Other), Op(3, 7, Other), Op(10, 2, Syscall), Op(12, 4, Other), Op(16, 7, Other), Op(23, 3, Other),
    Op(26, 3, Other), Op(29, 3, Other), Op(32, 3, Other), Op(35, 3, Other), Op(38, 3, Other), Op(41, 10, Nop),
    Op(51, 3, Other), Op(54, 2, Syscall), Op(56, 3, Other), Op(59, 3, Other)]

  /** The first of two syscalls takes the only NOP. */
  lemma OneNop(inp: Input, nop: Range)
    requires inp.nops == [nop] && |inp.items| == 2 && IsNopInRange(inp.items[0].syscallAddr, nop)
    requires inp.start <= inp.items[0].syscallAddr + 2 <= inp.end
    ensures ByNop(inp, 0, nop.address) && Marks(inp, 1) == inp.marks + {inp.items[0].syscallAddr + 2}
    ensures Planned(inp, 1) == PlanWindow(inp.items[1], Marks(inp, 1)).(wrapper := Space(inp, 1))
  {
    hide PlanWindow, Space;
    assert NextNop(inp, 0) == 0 && NextNop(inp, 1) == 1;
    assert Marks(inp, 0) == inp.marks;
  }

  lemma Nop8Input()
    ensures var inp := InputOf(NOP8, {}, 61);
      && |inp.items| == 2 && inp.items[0] == PatchAt(NOP8, 2) && inp.items[1] == PatchAt(NOP8, 13)
      && inp.nops == [Range(41, 10)] && inp.marks == {} && inp.start == 0 && inp.end == 61
  {
    hide PatchesOf, NopsOf, ReferencesOf, PatchAt;
    ItemsOf(NOP8, [2, 13]);
    TableOf(NOP8, [11]);
    NoReferences(NOP8, 61);
  }

  /** The long NOP serves the first syscall, and is not moved with the second. */
  lemma PatternNopPadding8()
    ensures var inp := InputOf(NOP8, {}, 61); |inp.items| == 2 && ByNop(inp, 0, 41) && ByWindow(inp, 1, 51, 59)
  {
    hide PatchesOf, NopsOf, Planned, Choice, NextNop, Space, ReferencesOf, Marks, InputOf;
    Nop8Input();
    OneNop(InputOf(NOP8, {}, 61), Range(41, 10));
  }

  /**
   The NOP is used if the jump back to its third byte is one of 128 bytes (nop_padding3), and not if it is
   one of 131 (nop_padding4).
   */
  lemma PatternNopPadding3And4(inp: Input, syscallAddr: int)
    requires inp.nops == [Range(3, 10)] && |inp.items| > 0 && inp.items[0].syscallAddr == syscallAddr
    ensures syscallAddr == 131 ==> ByNop(inp, 0, 3)
    ensures syscallAddr == 134 ==> Planned(inp, 0).form.ViaWindow?
  {
    var _ := NextNop(inp, 0);
  }
}
