/**
 The linear sweep over a text section (crawl_text, mark_nop and calculate_table_count in
 src/intercept_desc.c). The disassembler is a function from addresses to results; a result of
 length zero means that no instruction could be decoded there.
 */
module Crawl {
  import opened Disasm
  import opened Encoding
  import opened Listing
  import opened JumpTable

  /** What the disassembler promises: it reports the address asked for and stays inside the text. */
  ghost predicate IsDisassembler(dis: int -> Ins, start: int, end: int) {
    forall a :: start <= a <= end ==>
      && dis(a).address == a && dis(a).length <= end - a + 1
      && (dis(a).length == 0 <==> dis(a).kind.Unset?)
  }

  /** The listing from address `code` on: undecodable bytes are skipped one by one. */
  function Sweep(dis: int -> Ins, code: int, end: int): (L: seq<Ins>)
    decreases end - code
  {
    if code > end then []
    else
      var r := dis(code);
      if r.length == 0 then Sweep(dis, code + 1, end)
      else [r] + Sweep(dis, code + r.length, end)
  }

  /** The instruction d places before index n, unset before the start of the listing. */
  function Back(L: seq<Ins>, n: nat, d: nat): Ins
    requires 0 < d && n <= |L|
  {
    if n >= d then L[n - d] else UNSET
  }

  /** calculate_table_count */
  function TableCount(start: int, end: int): nat {
    var bytes := end - start + 1;
    if bytes > 0x10000 then bytes / 64 else 1024
  }

  class InterceptDesc {
    const textStart: int
    const textEnd: int
    const maxNopCount: nat
    const jumps: Bitmap
    var items: seq<Patch>
    var nopTable: seq<Range>

    ghost predicate Valid() {
      textStart < textEnd && jumps.Valid() && jumps.textStart == textStart && jumps.textEnd == textEnd
    }

    constructor (textStart: int, textEnd: int)
      requires textStart < textEnd
      ensures Valid() && fresh(jumps) && fresh(jumps.table)
      ensures this.textStart == textStart && this.textEnd == textEnd
      ensures maxNopCount == TableCount(textStart, textEnd)
      ensures var bytes := textEnd - textStart + 1;
        && (bytes <= 0x10000 ==> maxNopCount == 1024)
        && (bytes > 0x10000 ==> 64 * maxNopCount <= bytes < 64 * (maxNopCount + 1))
      ensures items == [] && nopTable == [] && jumps.Marks() == {}
    {
      var bitmap := new Bitmap(textStart, textEnd);
      this.textStart := textStart;
      this.textEnd := textEnd;
      this.maxNopCount := TableCount(textStart, textEnd);
      this.jumps := bitmap;
      this.items := [];
      this.nopTable := [];
    }

    /** mark_nop: NOPs that do not fit the table are forgotten. */
    method MarkNop(address: int, size: nat)
      modifies this`nopTable
      ensures nopTable == old(nopTable) + (if |old(nopTable)| == maxNopCount then [] else [Range(address, size)])
    {
      if |nopTable| == maxNopCount {
        return;
      }
      nopTable := nopTable + [Range(address, size)];
    }

    /** What the first n instructions of the listing L contribute has been recorded. */
    ghost predicate Recorded(L: seq<Ins>, n: nat, marks: set<int>)
      requires Valid() && n <= |L|
      reads this, jumps.table
    {
      && items == PatchesOf(L, n)
      && nopTable == NopsOf(L, n, maxNopCount)
      && jumps.Marks() == marks + ReferencesOf(L, n, textStart, textEnd)
    }

    /** The part of a crawl_text iteration that records one instruction. */
    method RecordInstruction(code: int, result: Ins, prev0: Ins, prev1: Ins, afterSyscall: bool,
                             ghost L: seq<Ins>, ghost n: nat, ghost marks: set<int>)
      requires Valid() && n < |L| && Recorded(L, n, marks)
      requires result == L[n] && result.address == code && prev1 == Back(L, n, 2) && prev0 == Back(L, n, 3)
      requires afterSyscall <==> n >= 1 && L[n - 1].IsSyscall()
      modifies this, jumps.table
      ensures Recorded(L, n + 1, marks)
    {
      ReferencesGrow(L, n, textStart, textEnd);
      if result.opr.hasIp {
        jumps.MarkJump(result.opr.target);
      }
      if result.IsOverwritableNop() {
        MarkNop(code, result.length);
      }
      if afterSyscall {
        var patch := Patch(code - SYSCALL_INS_SIZE, prev0, prev1, result, Unplanned, 0, 0, 0);
        assert patch == PatchAt(L, n - 1);
        items := items + [patch];
      }
    }

    /** crawl_text */
    method CrawlText(dis: int -> Ins)
      requires Valid() && items == [] && nopTable == []
      requires IsDisassembler(dis, textStart, textEnd)
      modifies this, jumps.table
      ensures var L := Sweep(dis, textStart, textEnd); Recorded(L, |L|, old(jumps.Marks()))
    {
      hide PatchesOf, NopsOf, ReferencesOf, Sweep;
      ghost var L := Sweep(dis, textStart, textEnd);
      ghost var n := 0;
      NothingRecorded(L, textStart, textEnd, maxNopCount);
      var code := textStart;
      var prev0, prev1, prev2 := UNSET, UNSET, UNSET;
      var hasPrevs := 0;
      while code <= textEnd
        invariant textStart <= code && n <= |L|
        invariant L[n..] == Sweep(dis, code, textEnd)
        invariant hasPrevs == if n < 2 then n else 2
        invariant prev2 == Back(L, n, 1) && prev1 == Back(L, n, 2) && prev0 == Back(L, n, 3)
        invariant Recorded(L, n, old(jumps.Marks()))
        decreases textEnd - code
      {
        var result := dis(code);
        if result.length == 0 {
          SweepSkips(dis, code, textEnd);
          code := code + 1;
          continue;
        }
        SweepUnfolds(dis, code, textEnd, L, n);
        RecordInstruction(code, result, prev0, prev1, hasPrevs >= 1 && prev2.IsSyscall(), L, n, old(jumps.Marks()));
        prev0, prev1, prev2 := prev1, prev2, result;
        if hasPrevs < 2 {
          hasPrevs := hasPrevs + 1;
        }
        n := n + 1;
        code := code + result.length;
      }
      SweepEnds(dis, code, textEnd);
    }
  }

  lemma NothingRecorded(L: seq<Ins>, start: int, end: int, cap: nat)
    ensures PatchesOf(L, 0) == [] && NopsOf(L, 0, cap) == [] && ReferencesOf(L, 0, start, end) == {}
  {
  }

  lemma SweepSkips(dis: int -> Ins, code: int, end: int)
    requires code <= end && dis(code).length == 0
    ensures Sweep(dis, code, end) == Sweep(dis, code + 1, end)
  {
  }

  lemma SweepEnds(dis: int -> Ins, code: int, end: int)
    requires code > end
    ensures Sweep(dis, code, end) == []
  {
  }

  lemma SweepUnfolds(dis: int -> Ins, code: int, end: int, L: seq<Ins>, n: nat)
    requires n <= |L| && L[n..] == Sweep(dis, code, end)
    requires code <= end && dis(code).length > 0
    ensures n < |L| && L[n] == dis(code)
    ensures L[n + 1..] == Sweep(dis, code + dis(code).length, end)
  {
    assert L[n..][0] == L[n];
    assert L[n + 1..] == L[n..][1..];
  }

  lemma ReferencesGrow(L: seq<Ins>, n: nat, start: int, end: int)
    requires n < |L|
    ensures ReferencesOf(L, n + 1, start, end)
      == ReferencesOf(L, n, start, end)
         + (if L[n].opr.hasIp && start <= L[n].opr.target <= end then {L[n].opr.target} else {})
  {
  }

  /** The sweep starts at the first decodable address at or after `code`. */
  lemma {:induction false} SweepFirst(dis: int -> Ins, start: int, code: int, end: int)
    requires start <= code && IsDisassembler(dis, start, end)
    requires |Sweep(dis, code, end)| > 0
    ensures var first := Sweep(dis, code, end)[0];
      && code <= first.address && first.length > 0 && first.address + first.length <= end + 1
      && (first.address == code <==> dis(code).length > 0)
      && first == dis(first.address)
      && Sweep(dis, code, end)[1..] == Sweep(dis, first.address + first.length, end)
    decreases end - code
  {
    if dis(code).length == 0 {
      SweepFirst(dis, start, code + 1, end);
    }
  }

  /** Each listed instruction is followed by the next decodable one. */
  lemma {:induction false} SweepSteps(dis: int -> Ins, start: int, code: int, end: int, k: nat)
    requires start <= code && IsDisassembler(dis, start, end)
    requires k < |Sweep(dis, code, end)|
    ensures var L := Sweep(dis, code, end);
      && code <= L[k].address && L[k].length > 0 && L[k] == dis(L[k].address)
      && L[k].address + L[k].length <= end + 1
      && L[k + 1..] == Sweep(dis, L[k].address + L[k].length, end)
    decreases end - code
  {
    var L := Sweep(dis, code, end);
    SweepFirst(dis, start, code, end);
    if k > 0 {
      SweepSteps(dis, start, L[0].address + L[0].length, end, k - 1);
      assert L[k + 1..] == L[1..][k..];
    }
  }

  /**
   The address recorded for a 2-byte syscall is that of its successor minus two. It is the address
   of the syscall exactly when the byte after the syscall decodes.
   */
  lemma SyscallAddressIff(dis: int -> Ins, start: int, end: int, k: nat)
    requires IsDisassembler(dis, start, end)
    requires var L := Sweep(dis, start, end); k + 1 < |L| && L[k].IsSyscall() && L[k].length == SYSCALL_INS_SIZE
    ensures var L := Sweep(dis, start, end);
      PatchAt(L, k).syscallAddr == L[k].address <==> dis(L[k].address + SYSCALL_INS_SIZE).length > 0
  {
    var L := Sweep(dis, start, end);
    SweepSteps(dis, start, start, end, k);
    SweepFirst(dis, start, L[k].address + L[k].length, end);
    assert L[k + 1..][0] == L[k + 1];
  }

  /** The byte after instruction k of the listing decodes, or it is the end of the text. */
  ghost predicate NoGapAfter(dis: int -> Ins, L: seq<Ins>, end: int, k: nat)
    requires k < |L|
  {
    var after := L[k].address + L[k].length;
    after <= end ==> dis(after).length > 0
  }

  /** One instruction of the listing, when no gap follows it. */
  lemma SweepAdjacent(dis: int -> Ins, start: int, end: int, L: seq<Ins>, k: nat)
    requires IsDisassembler(dis, start, end) && L == Sweep(dis, start, end)
    requires k < |L| && NoGapAfter(dis, L, end, k)
    ensures L[k] == dis(L[k].address) && L[k].length > 0 && start <= L[k].address <= end
    ensures At(L, k + 1) == At(L, k) + L[k].length
    ensures k + 1 == |L| ==> At(L, k + 1) == end + 1
  {
    SweepSteps(dis, start, start, end, k);
    var after := L[k].address + L[k].length;
    if after <= end {
      assert |Sweep(dis, after, end)| > 0;
      SweepFirst(dis, start, after, end);
      assert L[k + 1..][0] == L[k + 1];
    }
  }

  /** What instruction lengths and register numbers look like on x86-64. */
  ghost predicate InstructionSizes(dis: int -> Ins) {
    forall a :: dis(a).length <= 15 && dis(a).argRegisterBits < 16
      && (dis(a).IsSyscall() ==> dis(a).length == SYSCALL_INS_SIZE)
  }

  /** Without gaps the listing tiles the text. */
  lemma SweepTiled(dis: int -> Ins, start: int, end: int, L: seq<Ins>)
    requires IsDisassembler(dis, start, end) && InstructionSizes(dis) && L == Sweep(dis, start, end)
    requires start <= end && dis(start).length > 0
    requires forall k :: 0 <= k < |L| ==> NoGapAfter(dis, L, end, k)
    ensures Tiled(L, start, end)
  {
    SweepFirst(dis, start, start, end);
    forall k | 0 <= k < |L|
      ensures 1 <= L[k].length <= 15 && !L[k].kind.Unset? && L[k].argRegisterBits < 16
      ensures L[k].IsSyscall() ==> L[k].length == SYSCALL_INS_SIZE
    {
      SweepAdjacent(dis, start, end, L, k);
    }
    forall i, j | 0 <= i < j == i + 1 <= |L|
      ensures At(L, j) == At(L, i) + L[i].length
    {
      SweepAdjacent(dis, start, end, L, i);
    }
    SweepAdjacent(dis, start, end, L, |L| - 1);
  }

  /** With or without gaps, the listing is spaced. */
  lemma SweepSpaced(dis: int -> Ins, start: int, end: int, L: seq<Ins>)
    requires IsDisassembler(dis, start, end) && InstructionSizes(dis) && L == Sweep(dis, start, end)
    ensures Spaced(L, start, end)
  {
    forall i | 0 <= i < |L|
      ensures start <= L[i].address && 0 < L[i].length && L[i] == dis(L[i].address)
      ensures L[i].address + L[i].length <= end + 1
    {
      SweepSteps(dis, start, start, end, i);
    }
    forall i, j | 0 <= i < j < |L|
      ensures L[i].address + L[i].length <= L[j].address
    {
      SweepSteps(dis, start, start, end, i);
      var after := L[i].address + L[i].length;
      assert L[i + 1..][j - i - 1] == L[j];
      SweepSteps(dis, start, after, end, j - i - 1);
    }
  }
}
