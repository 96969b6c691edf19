/**
 Short inputs on which the treatment of RIP-relative LEAs and of undecodable bytes goes wrong; the exact
 conditions are Overlap.PlansDisjointIff, Overlap.DestinationsStayOutIff, Encoding.LeaToMovabsIff and
 Crawl.SyscallAddressIff.
 */
module Counterexamples {
  import opened Crawl
  import opened Disasm
  import opened Encoding
  import opened Listing
  import opened Overlap
  import opened Plan

  /** syscall; lea 0x100(%rip), %rax; syscall; leave */
  const LISTING := [
    Ins(0, 2, Syscall, NO_REFERENCE, 0),
    Ins(2, 7, Lea, Reference(true, false, false, 0x100, 0x109), 0),
    Ins(9, 2, Syscall, NO_REFERENCE, 0),
    Ins(11, 1, Other, NO_REFERENCE, 0)]

  /** No NOP and no jump destination: what the crawl of LISTING hands to the planner. */
  const INPUT := Input(PatchesOf(LISTING, 4), NopsOf(LISTING, 4, 0), {}, 0, 11, 0, 0)

  lemma InputIsFromListing()
    ensures FromListing(INPUT, LISTING, 0)
    ensures INPUT.items == [PatchAt(LISTING, 0), PatchAt(LISTING, 2)] && INPUT.nops == []
  {
    assert PatchesOf(LISTING, 1) == [];
    assert PatchesOf(LISTING, 2) == [PatchAt(LISTING, 0)];
    assert PatchesOf(LISTING, 3) == [PatchAt(LISTING, 0)];
    assert PatchesOf(LISTING, 4) == [PatchAt(LISTING, 0), PatchAt(LISTING, 2)];
  }

  /**
   Both patches take the LEA between their syscalls, so both overwrite byte 2; and the return address of the
   first, which planning adds to the jump destinations, is strictly inside the window of the second.
   */
  lemma SharedLea()
    ensures |INPUT.items| == 2 && FromListing(INPUT, LISTING, 0)
    ensures !Disjoint(Planned(INPUT, 0), Planned(INPUT, 1))
    ensures !DestinationsStayOut(INPUT, LISTING)
  {
    InputIsFromListing();
    var first, second := Planned(INPUT, 0), Planned(INPUT, 1);
    assert first.dst == 0 && first.ret == 9;
    assert second.dst == 2;
    assert Writes(first, 2) && Writes(second, 2);
    PlansDisjointIff(INPUT, LISTING, 0);
    DestinationsStayOutIff(INPUT, LISTING, 0);
  }

  /** lea 0x100(%rip), %rax; syscall; jmp to the syscall */
  const LOOP := [
    Ins(0, 7, Lea, Reference(true, false, false, 0x100, 0x107), 0),
    Ins(7, 2, Syscall, NO_REFERENCE, 0),
    Ins(9, 2, Branch, Reference(true, true, false, -4, 7), 0)]

  /** No NOP, and the destination of the jump. */
  const LOOP_INPUT := Input(PatchesOf(LOOP, 3), NopsOf(LOOP, 3, 0), {7}, 0, 10, 0, 0)

  /** The LEA is taken although the program jumps to the syscall behind it; the destination is inside the window. */
  lemma CutOffLea()
    ensures FromListing(LOOP_INPUT, LOOP, 0) && ReferencesOf(LOOP, 3, 0, 10) == {7}
    ensures NoLeaShared(LOOP_INPUT, LOOP) && !DestinationsStayOut(LOOP_INPUT, LOOP)
  {
    assert PatchesOf(LOOP, 1) == [];
    assert PatchesOf(LOOP, 2) == [];
    assert PatchesOf(LOOP, 3) == [PatchAt(LOOP, 1)];
    PatchesComplete(LOOP, 3);
    assert LOOP_INPUT.nops == [];
    assert Choice(LOOP_INPUT, 0).None?;
    assert SyscallIndices(LOOP, 3)[0] == 1;
    assert CutsOffLea(LOOP_INPUT, LOOP, 0);
    DestinationsStayOutIff(LOOP_INPUT, LOOP, 0);
  }

  /** Without a REX prefix the opcode byte is read as one: lea 0(%rip), %eax becomes a load of r8. */
  lemma LeaWithoutRex()
    ensures var e := LeaEncoding(None, 0x05, 0);
      ValidLea(e) && LeaEffect(e, 0).0 == 0 && ArgRegisterBits(LeaBytes(e)) == 8
  {
    var e := LeaEncoding(None, 0x05, 0);
    assert LeaBytes(e)[0] == 0x8d && LeaBytes(e)[2] == 0;
  }

  /** syscall; a byte that does not decode; leave */
  function GapAt(a: int): Ins {
    if a == 0 then Ins(0, 2, Syscall, NO_REFERENCE, 0)
    else if a == 3 then Ins(3, 1, Other, NO_REFERENCE, 0)
    else Ins(a, 0, Unset, NO_REFERENCE, 0)
  }

  /** The syscall at 0 is recorded at 1, the address of its second byte. */
  lemma GapMovesSyscall()
    ensures var L := Sweep(GapAt, 0, 3);
      IsDisassembler(GapAt, 0, 3) && |L| == 2 && L[0].IsSyscall() && L[0].address == 0 && PatchAt(L, 0).syscallAddr == 1
  {
    assert Sweep(GapAt, 4, 3) == [];
    assert Sweep(GapAt, 3, 3) == [GapAt(3)] + Sweep(GapAt, 4, 3);
    assert Sweep(GapAt, 2, 3) == Sweep(GapAt, 3, 3);
    assert Sweep(GapAt, 0, 3) == [GapAt(0)] + Sweep(GapAt, 2, 3);
  }
}
