/**
 The linear listing of a text section, and the description of one syscall to patch
 (struct patch_desc in src/intercept.h).
 */
module Listing {
  import opened Disasm
  import opened Encoding

  /** How a syscall is reached: not decided yet, through a NOP, or through a window of its neighbours. */
  datatype Form =
    | Unplanned
    | ViaNop(nop: Range)
    | ViaWindow(usesPrev2: bool, usesPrev: bool, usesNext: bool)

  datatype Patch = Patch(
    syscallAddr: int, prev2: Ins, prev: Ins, next: Ins, form: Form, dst: int, ret: int, wrapper: int)

  /** The address of instruction j, or the end of the listing. */
  function At(L: seq<Ins>, j: nat): int
    requires 0 < |L| && j <= |L|
  {
    if j < |L| then L[j].address else L[|L| - 1].address + L[|L| - 1].length
  }

  /** Every byte of the text belongs to exactly one listed instruction. */
  ghost predicate Tiled(L: seq<Ins>, start: int, end: int) {
    && 0 < |L| && L[0].address == start && At(L, |L|) == end + 1
    && (forall i :: 0 <= i < |L| ==> 1 <= L[i].length <= 15 && !L[i].kind.Unset? && L[i].argRegisterBits < 16)
    && (forall i, j {:trigger At(L, i), At(L, j)} :: 0 <= i < j == i + 1 <= |L| ==> At(L, j) == At(L, i) + L[i].length)
    && (forall i :: 0 <= i < |L| && L[i].IsSyscall() ==> L[i].length == SYSCALL_INS_SIZE)
  }

  /** The instructions of the listing follow each other inside the text, perhaps with gaps between them. */
  ghost predicate Spaced(L: seq<Ins>, start: int, end: int) {
    && (forall i :: 0 <= i < |L| ==>
          && start <= L[i].address && L[i].address + L[i].length <= end + 1
          && 1 <= L[i].length <= 15 && !L[i].kind.Unset? && L[i].argRegisterBits < 16
          && (L[i].IsSyscall() ==> L[i].length == SYSCALL_INS_SIZE))
    && (forall i, j :: 0 <= i < j < |L| ==> L[i].address + L[i].length <= L[j].address)
  }

  lemma {:induction false} AtMonotone(L: seq<Ins>, start: int, end: int, i: nat, j: nat)
    requires Tiled(L, start, end)
    requires i < j <= |L|
    ensures At(L, i) + L[i].length <= At(L, j)
    decreases j - i
  {
    if i + 1 < j {
      AtMonotone(L, start, end, i + 1, j);
    }
  }

  /** Addresses of different instructions differ, in listing order. */
  lemma AtOrder(L: seq<Ins>, start: int, end: int, i: nat, j: nat)
    requires Tiled(L, start, end)
    requires i <= |L| && j <= |L|
    ensures i < j <==> At(L, i) < At(L, j)
    ensures start <= At(L, i) <= end + 1
  {
    if i < j {
      AtMonotone(L, start, end, i, j);
    } else if j < i {
      AtMonotone(L, start, end, j, i);
    }
    if 0 < i {
      AtMonotone(L, start, end, 0, i);
    }
    if i < |L| {
      AtMonotone(L, start, end, i, |L|);
    }
  }

  /** The unplanned description of the syscall at index k: its two predecessors and its successor. */
  function PatchAt(L: seq<Ins>, k: nat): Patch
    requires k + 1 < |L|
  {
    Patch(L[k + 1].address - SYSCALL_INS_SIZE,
          if k >= 2 then L[k - 2] else UNSET,
          if k >= 1 then L[k - 1] else UNSET,
          L[k + 1], Unplanned, 0, 0, 0)
  }

  /** The syscalls among the first n instructions that have a successor there, in order. */
  function SyscallIndices(L: seq<Ins>, n: nat): (ks: seq<nat>)
    requires n <= |L|
    ensures forall i :: 0 <= i < |ks| ==> ks[i] + 1 < n && L[ks[i]].IsSyscall()
  {
    if n < 2 then []
    else SyscallIndices(L, n - 1) + (if L[n - 2].IsSyscall() then [n - 2] else [])
  }

  /** One unplanned patch for each of them. */
  function PatchesOf(L: seq<Ins>, n: nat): seq<Patch>
    requires n <= |L|
  {
    if n < 2 then []
    else PatchesOf(L, n - 1) + (if L[n - 2].IsSyscall() then [PatchAt(L, n - 2)] else [])
  }

  /** The overwritable NOPs among the first n instructions, in order, as long as they fit the table. */
  function NopIndices(L: seq<Ins>, n: nat, cap: nat): (ns: seq<nat>)
    requires n <= |L|
    ensures forall i :: 0 <= i < |ns| ==> ns[i] < n && L[ns[i]].IsOverwritableNop()
    ensures |ns| <= cap
  {
    if n == 0 then []
    else
      var ns := NopIndices(L, n - 1, cap);
      if L[n - 1].IsOverwritableNop() && |ns| < cap then ns + [n - 1] else ns
  }

  function NopsOf(L: seq<Ins>, n: nat, cap: nat): (ns: seq<Range>)
    requires n <= |L|
    ensures |ns| <= cap
  {
    if n == 0 then []
    else
      var ns := NopsOf(L, n - 1, cap);
      if L[n - 1].IsOverwritableNop() && |ns| < cap then ns + [Range(L[n - 1].address, L[n - 1].length)] else ns
  }

  /** The addresses in the text that the first n instructions refer to. */
  ghost function ReferencesOf(L: seq<Ins>, n: nat, start: int, end: int): set<int>
    requires n <= |L|
  {
    set i | 0 <= i < n && L[i].opr.hasIp && start <= L[i].opr.target <= end :: L[i].opr.target
  }

  /** The indices are in increasing order and leave out no syscall that has a successor. */
  lemma {:induction false} SyscallIndicesComplete(L: seq<Ins>, n: nat)
    requires n <= |L|
    ensures forall i, j :: 0 <= i < j < |SyscallIndices(L, n)| ==> SyscallIndices(L, n)[i] < SyscallIndices(L, n)[j]
    ensures forall i :: 0 <= i < |SyscallIndices(L, n)| ==> L[SyscallIndices(L, n)[i]].kind == Syscall
    ensures forall k :: 0 <= k < n - 1 && L[k].kind == Syscall ==> k in SyscallIndices(L, n)
  {
    if n >= 2 {
      SyscallIndicesComplete(L, n - 1);
    }
  }

  /** Exactly one patch for each of them, in order, with its true neighbours. */
  lemma {:induction false} PatchesComplete(L: seq<Ins>, n: nat)
    requires n <= |L|
    ensures |PatchesOf(L, n)| == |SyscallIndices(L, n)|
    ensures forall i :: 0 <= i < |SyscallIndices(L, n)| ==> PatchesOf(L, n)[i] == PatchAt(L, SyscallIndices(L, n)[i])
  {
    if n >= 2 {
      PatchesComplete(L, n - 1);
    }
  }

  /** A listed NOP is missing from the table only if the table is full of earlier ones. */
  lemma {:induction false} NopIndicesComplete(L: seq<Ins>, n: nat, cap: nat)
    requires n <= |L|
    ensures forall i, j :: 0 <= i < j < |NopIndices(L, n, cap)| ==> NopIndices(L, n, cap)[i] < NopIndices(L, n, cap)[j]
    ensures forall i :: 0 <= i < |NopIndices(L, n, cap)| ==>
      L[NopIndices(L, n, cap)[i]].kind == Nop && L[NopIndices(L, n, cap)[i]].length >= 7
    ensures forall k :: 0 <= k < n && L[k].kind == Nop && L[k].length >= 7 ==>
              k in NopIndices(L, n, cap)
              || (|NopIndices(L, n, cap)| == cap && forall i :: 0 <= i < cap ==> NopIndices(L, n, cap)[i] < k)
  {
    if n > 0 {
      NopIndicesComplete(L, n - 1, cap);
    }
  }

  lemma {:induction false} NopsComplete(L: seq<Ins>, n: nat, cap: nat)
    requires n <= |L|
    ensures |NopsOf(L, n, cap)| == |NopIndices(L, n, cap)|
    ensures forall i :: 0 <= i < |NopIndices(L, n, cap)| ==>
      NopsOf(L, n, cap)[i] == (var ins := L[NopIndices(L, n, cap)[i]]; Range(ins.address, ins.length))
  {
    if n > 0 {
      NopsComplete(L, n - 1, cap);
    }
  }

  /** The NOP table is in strictly increasing address order, gaps or not. */
  lemma NopTableIncreasing(L: seq<Ins>, start: int, end: int, cap: nat, ns: seq<Range>)
    requires Spaced(L, start, end) && ns == NopsOf(L, |L|, cap)
    ensures forall i, j :: 0 <= i < j < |ns| ==> ns[i].address < ns[j].address
  {
    hide NopsOf;
    NopsComplete(L, |L|, cap);
    NopIndicesComplete(L, |L|, cap);
    var ix := NopIndices(L, |L|, cap);
    forall i, j | 0 <= i < j < |ns|
      ensures ns[i].address < ns[j].address
    {
      assert L[ix[i]].address + L[ix[i]].length <= L[ix[j]].address;
    }
  }
}
