/**
 Which bytes the planned patches overwrite, and when two of them collide.

 The source accepts a RIP-relative LEA next to a syscall before it asks whether the boundary
 between the two is a jump destination. That is the only way in which two patches can claim the
 same instruction, or in which a known jump destination can end up inside a window; the two
 theorems at the end give the exact conditions.
 */
module Overlap {
  import opened Disasm
  import opened Encoding
  import opened Listing
  import opened Plan

  /** The patch overwrites the byte at address x. */
  predicate Writes(p: Patch, x: int) {
    match p.form
    case Unplanned => false
    case ViaNop(nop) => p.syscallAddr <= x < p.syscallAddr + SYSCALL_INS_SIZE || nop.address <= x < nop.address + 7
    case ViaWindow(_, _, _) => p.dst <= x < p.ret
  }

  ghost predicate Disjoint(p: Patch, q: Patch) {
    forall x :: !(Writes(p, x) && Writes(q, x))
  }

  /** A LEA that follows syscall ka and precedes syscall kb, directly or before one more usable instruction. */
  predicate LeaBetween(L: seq<Ins>, ka: nat, kb: nat, marks: set<int>)
    requires ka < kb && kb + 1 < |L|
  {
    && L[ka + 1].IsLeaRip()
    && (kb == ka + 2 || (kb == ka + 3 && UsesPrev(PatchAt(L, kb), marks)))
  }

  /** Patches i and j share a LEA: neither gets a NOP, and the LEA sits between their syscalls. */
  ghost predicate LeaShared(r: Run, i: nat, j: nat)
    requires IsRun(r) && i < j < |r.ps|
  {
    && r.ps[i].form.ViaWindow? && r.ps[j].form.ViaWindow?
    && LeaBetween(r.L, r.ks[i], r.ks[j], r.ms[0])
  }

  /** Patch i has a LEA next to its syscall, or one place further up, with a known jump destination in between. */
  ghost predicate LeaEntered(r: Run, i: nat)
    requires IsRun(r) && i < |r.ps|
  {
    var L, k, marks := r.L, r.ks[i], r.ms[0];
    && r.ps[i].form.ViaWindow?
    && (|| (k >= 1 && L[k - 1].IsLeaRip() && At(L, k) in marks)
        || (k >= 2 && L[k - 2].IsLeaRip() && At(L, k - 1) in marks && UsesPrev(PatchAt(L, k), marks))
        || (L[k + 1].IsLeaRip() && At(L, k + 1) in marks))
  }

  // ----- windows -----

  /** The window of patch i covers instruction j. */
  predicate Covers(r: Run, i: nat, j: nat)
    requires i < |r.ps| <= |r.ks|
  {
    r.ps[i].form.ViaWindow? && Lo(r.ps[i], r.ks[i]) <= j < Hi(r.ps[i], r.ks[i])
  }

  /** Instruction j starts strictly inside the window of patch i. */
  predicate Inside(r: Run, i: nat, j: nat)
    requires i < |r.ps| <= |r.ks|
  {
    r.ps[i].form.ViaWindow? && Lo(r.ps[i], r.ks[i]) < j < Hi(r.ps[i], r.ks[i])
  }

  /** What the source accepts next to a syscall, jump destinations aside. */
  predicate Relocatable(ins: Ins, after: bool) {
    ins.IsLeaRip()
    || (!ins.IsOverwritableNop() && if after then ins.IsCopiableAfterSyscall() else ins.IsCopiableBeforeSyscall())
  }

  /** Every instruction of a window other than its syscall is relocatable. */
  lemma CoveredIsRelocatable(r: Run, i: nat, j: nat)
    requires IsRun(r) && i < |r.ps| && Covers(r, i, j)
    ensures j < |r.L|
    ensures j != r.ks[i] ==> Relocatable(r.L[j], j > r.ks[i])
    ensures r.L[j].IsSyscall() <==> j == r.ks[i]
    ensures !r.L[j].IsOverwritableNop() && !r.L[j].IsCall()
  {
    assert IsPlan(r.L, r.ks[i], r.ps[i], r.ms[i], r.ns[i]);
  }

  /** An instruction between two syscalls, in the later window but not a LEA, is not preceded by a mark. */
  lemma UnmarkedBefore(r: Run, i: nat, j: nat)
    requires IsRun(r) && i < |r.ps| && Covers(r, i, j) && j < r.ks[i] && !r.L[j].IsLeaRip()
    ensures At(r.L, j + 1) !in r.ms[i]
  {
    var k := r.ks[i];
    assert IsPlan(r.L, k, r.ps[i], r.ms[i], r.ns[i]);
    ItemFacts(r.L, r.start, r.end, k);
  }

  lemma UnmarkedAfter(r: Run, i: nat)
    requires IsRun(r) && i < |r.ps| && Covers(r, i, r.ks[i] + 1) && !r.L[r.ks[i] + 1].IsLeaRip()
    ensures At(r.L, r.ks[i] + 1) !in r.ms[i]
  {
    var k := r.ks[i];
    assert IsPlan(r.L, k, r.ps[i], r.ms[i], r.ns[i]);
    ItemFacts(r.L, r.start, r.end, k);
  }

  /** Using the instruction before a syscall was possible with the initial marks already. */
  lemma UsedInitially(r: Run, i: nat)
    requires IsRun(r) && i < |r.ps| && r.ps[i].form.ViaWindow? && r.ps[i].form.usesPrev
    ensures UsesPrev(PatchAt(r.L, r.ks[i]), r.ms[0])
  {
    var k := r.ks[i];
    assert IsPlan(r.L, k, r.ps[i], r.ms[i], r.ns[i]);
    ItemFacts(r.L, r.start, r.end, k);
    assert i > 0 ==> r.ms[0] <= r.ms[i];
  }

  /** Return addresses are boundaries of the listing, one or two instructions after the syscall. */
  lemma ReturnAddress(r: Run, i: nat) returns (e: nat)
    requires IsRun(r) && i < |r.ps|
    ensures r.ks[i] + 1 <= e <= r.ks[i] + 2 && e <= |r.L| && r.ps[i].ret == At(r.L, e)
    ensures e == r.ks[i] + 2 <==> Covers(r, i, r.ks[i] + 1)
  {
    assert IsPlan(r.L, r.ks[i], r.ps[i], r.ms[i], r.ns[i]);
    e := if r.ps[i].form.ViaWindow? then Hi(r.ps[i], r.ks[i]) else r.ks[i] + 1;
  }

  /** Two windows meet only in a LEA between their syscalls. */
  lemma WindowsMeet(r: Run, a: nat, b: nat, j: nat)
    requires IsRun(r) && a < b < |r.ps| && Covers(r, a, j) && Covers(r, b, j)
    ensures LeaShared(r, a, b)
  {
    var ka, kb := r.ks[a], r.ks[b];
    CoveredIsRelocatable(r, a, j);
    CoveredIsRelocatable(r, b, j);
    if j < ka { CoveredIsRelocatable(r, b, ka); }
    assert j == ka + 1 < kb;
    var e := ReturnAddress(r, a);
    AtOrder(r.L, r.start, r.end, e, |r.L|);
    assert At(r.L, ka + 2) in r.ms[b];
    if !r.L[j].IsLeaRip() { UnmarkedBefore(r, b, j); }
    if kb == ka + 3 { UsedInitially(r, b); }
  }

  /** A patch that returns to the syscall of another one has its own syscall at most two instructions before it. */
  lemma ReturnAtSyscall(r: Run, i: nat, m: nat)
    requires IsRun(r) && i < |r.ps| && m < |r.ps| && r.ks[i] >= 2 && r.ps[m].ret == At(r.L, r.ks[i])
    ensures r.L[r.ks[i] - 1].IsSyscall() || r.L[r.ks[i] - 2].IsSyscall()
  {
    var k := r.ks[i];
    assert k + 1 < |r.L| by { assert IsPlan(r.L, k, r.ps[i], r.ms[i], r.ns[i]); }
    var e := ReturnAddress(r, m);
    AtOrder(r.L, r.start, r.end, e, k);
    AtOrder(r.L, r.start, r.end, k, e);
    assert r.L[r.ks[m]].IsSyscall() by { assert IsPlan(r.L, r.ks[m], r.ps[m], r.ms[m], r.ns[m]); }
  }

  lemma SyscallStaysUnmarked(r: Run, i: nat)
    requires IsRun(r) && i < |r.ps| && 2 <= r.ks[i] < |r.L| && At(r.L, r.ks[i]) !in r.ms[0]
    requires !r.L[r.ks[i] - 1].IsSyscall() && !r.L[r.ks[i] - 2].IsSyscall()
    ensures At(r.L, r.ks[i]) !in r.ms[i]
  {
    if At(r.L, r.ks[i]) in r.ms[i] {
      var m :| 0 <= m < i && r.ps[m].ret == At(r.L, r.ks[i]);
      ReturnAtSyscall(r, i, m);
    }
  }

  /** Two instructions after a syscall at the earliest, the instruction before the next one stays usable. */
  lemma StaysUsable(r: Run, i: nat)
    requires IsRun(r) && i < |r.ps| && r.ps[i].form.ViaWindow?
    requires r.ks[i] >= 2 && !r.L[r.ks[i] - 2].IsSyscall()
    requires UsesPrev(PatchAt(r.L, r.ks[i]), r.ms[0])
    ensures r.ps[i].form.usesPrev
  {
    var k := r.ks[i];
    assert IsPlan(r.L, k, r.ps[i], r.ms[i], r.ns[i]);
    ItemFacts(r.L, r.start, r.end, k);
    if !r.L[k - 1].IsLeaRip() {
      SyscallStaysUnmarked(r, i);
    }
  }

  /** A LEA next to a syscall without a NOP is always taken into the window. */
  lemma LeaIsCovered(r: Run, i: nat)
    requires IsRun(r) && i < |r.ps| && r.ps[i].form.ViaWindow?
    ensures r.ks[i] + 1 < |r.L|
    ensures r.L[r.ks[i] + 1].IsLeaRip() ==> Covers(r, i, r.ks[i] + 1)
    ensures r.ks[i] >= 1 && r.L[r.ks[i] - 1].IsLeaRip() ==> Covers(r, i, r.ks[i] - 1)
    ensures r.ks[i] >= 2 && r.L[r.ks[i] - 2].IsLeaRip() && r.ps[i].form.usesPrev ==> Covers(r, i, r.ks[i] - 2)
  {
    assert IsPlan(r.L, r.ks[i], r.ps[i], r.ms[i], r.ns[i]);
  }

  /** Conversely, a LEA between two syscalls ends up in both windows. */
  lemma SharedIsCovered(r: Run, a: nat, b: nat)
    requires IsRun(r) && a < b < |r.ps| && LeaShared(r, a, b)
    ensures Covers(r, a, r.ks[a] + 1) && Covers(r, b, r.ks[a] + 1)
  {
    LeaIsCovered(r, a);
    LeaIsCovered(r, b);
    if r.ks[b] == r.ks[a] + 3 {
      StaysUsable(r, b);
    }
  }

  // ----- bytes -----

  /** Patch i overwrites instruction j or its beginning. */
  ghost predicate Touches(r: Run, i: nat, j: nat)
    requires i < |r.ps| && Sized(r)
  {
    if r.ps[i].form.ViaNop? then j == r.ks[i] || j == r.ns[i] else Covers(r, i, j)
  }

  /** Every byte a patch writes belongs to an instruction it touches. */
  lemma WrittenIsTouched(r: Run, i: nat, x: int, j: nat)
    requires IsRun(r) && i < |r.ps| && Writes(r.ps[i], x)
    requires j < |r.L| && At(r.L, j) <= x < At(r.L, j + 1)
    ensures Touches(r, i, j)
  {
    var L, k, p := r.L, r.ks[i], r.ps[i];
    assert IsPlan(L, k, p, r.ms[i], r.ns[i]);
    if p.form.ViaWindow? {
      var lo, hi := Lo(p, k), Hi(p, k);
      AtOrder(L, r.start, r.end, j, hi);
      AtOrder(L, r.start, r.end, lo, j + 1);
    } else {
      ItemFacts(L, r.start, r.end, k);
      var n := if x < p.syscallAddr || x >= p.syscallAddr + SYSCALL_INS_SIZE then r.ns[i] else k;
      var _ := At(L, n + 1);
      AtOrder(L, r.start, r.end, j, n + 1);
      AtOrder(L, r.start, r.end, n, j + 1);
    }
  }

  lemma TouchedIsWritten(r: Run, i: nat, j: nat)
    requires IsRun(r) && i < |r.ps| && Touches(r, i, j) && r.ps[i].form.ViaWindow?
    ensures j < |r.L| && Writes(r.ps[i], At(r.L, j))
  {
    var L, k, p := r.L, r.ks[i], r.ps[i];
    assert IsPlan(L, k, p, r.ms[i], r.ns[i]);
    var lo, hi := Lo(p, k), Hi(p, k);
    AtOrder(L, r.start, r.end, j, hi);
    AtOrder(L, r.start, r.end, j, lo);
  }

  /** Two patches never touch the same instruction, unless they share a LEA. */
  lemma TouchedOnce(r: Run, a: nat, b: nat, j: nat)
    requires IsRun(r) && a < b < |r.ps| && j < |r.L|
    requires Touches(r, a, j) && Touches(r, b, j)
    ensures LeaShared(r, a, b)
  {
    assert IsPlan(r.L, r.ks[a], r.ps[a], r.ms[a], r.ns[a]);
    assert IsPlan(r.L, r.ks[b], r.ps[b], r.ms[b], r.ns[b]);
    if Covers(r, a, j) { CoveredIsRelocatable(r, a, j); }
    if Covers(r, b, j) { CoveredIsRelocatable(r, b, j); }
    if Covers(r, a, j) && Covers(r, b, j) {
      WindowsMeet(r, a, b, j);
    }
  }

  /** Every address of the text lies in one listed instruction. */
  lemma {:induction false} InstructionAt(L: seq<Ins>, start: int, end: int, x: int, n: nat) returns (j: nat)
    requires Tiled(L, start, end) && n <= |L| && start <= x < At(L, n)
    ensures j < n && At(L, j) <= x < At(L, j + 1)
  {
    if x < At(L, n - 1) {
      j := InstructionAt(L, start, end, x, n - 1);
    } else {
      j := n - 1;
    }
  }

  lemma WritesInText(r: Run, i: nat, x: int)
    requires IsRun(r) && i < |r.ps| && Writes(r.ps[i], x)
    ensures r.start <= x <= r.end
  {
    var L, k, p := r.L, r.ks[i], r.ps[i];
    assert IsPlan(L, k, p, r.ms[i], r.ns[i]);
    if p.form.ViaWindow? {
      AtOrder(L, r.start, r.end, Lo(p, k), Hi(p, k));
      AtOrder(L, r.start, r.end, Hi(p, k), |L|);
    } else {
      ItemFacts(L, r.start, r.end, k);
      AtOrder(L, r.start, r.end, k, k + 1);
      AtOrder(L, r.start, r.end, k + 1, |L|);
      AtOrder(L, r.start, r.end, r.ns[i], r.ns[i] + 1);
      AtOrder(L, r.start, r.end, r.ns[i] + 1, |L|);
    }
  }

  lemma PairDisjointIff(r: Run, a: nat, b: nat)
    requires IsRun(r) && a < b < |r.ps|
    ensures Disjoint(r.ps[a], r.ps[b]) <==> !LeaShared(r, a, b)
  {
    if LeaShared(r, a, b) {
      SharedIsCovered(r, a, b);
      TouchedIsWritten(r, a, r.ks[a] + 1);
      TouchedIsWritten(r, b, r.ks[a] + 1);
    } else {
      forall x | Writes(r.ps[a], x)
        ensures !Writes(r.ps[b], x)
      {
        WritesInText(r, a, x);
        var j := InstructionAt(r.L, r.start, r.end, x, |r.L|);
        WrittenIsTouched(r, a, x, j);
        if Writes(r.ps[b], x) {
          WrittenIsTouched(r, b, x, j);
          TouchedOnce(r, a, b, j);
        }
      }
    }
  }

  /** The byte ranges written by all patches are pairwise disjoint exactly when no two patches share a LEA. */
  lemma WritesDisjointIff(r: Run)
    requires IsRun(r)
    ensures (forall a, b :: 0 <= a < b < |r.ps| ==> Disjoint(r.ps[a], r.ps[b]))
      <==> Unshared(r)
  {
    forall a, b | 0 <= a < b < |r.ps|
      ensures Disjoint(r.ps[a], r.ps[b]) <==> !LeaShared(r, a, b)
    {
      PairDisjointIff(r, a, b);
    }
  }

  // ----- jump destinations -----

  /** A jump destination known before planning that is strictly inside a window lies behind a LEA. */
  lemma InitialMarkInside(r: Run, i: nat, j: nat)
    requires IsRun(r) && i < |r.ps| && Inside(r, i, j) && j <= |r.L| && At(r.L, j) in r.ms[0]
    ensures LeaEntered(r, i)
  {
    var L, k := r.L, r.ks[i];
    assert IsPlan(L, k, r.ps[i], r.ms[i], r.ns[i]);
    assert At(L, j) in r.ms[i];
    if j == k + 1 {
      if !L[k + 1].IsLeaRip() { UnmarkedAfter(r, i); }
      assert L[k + 1].IsLeaRip() && At(L, k + 1) in r.ms[0];
    } else {
      if !L[j - 1].IsLeaRip() { UnmarkedBefore(r, i, j - 1); }
      UsedInitially(r, i);
      assert (j == k || j == k - 1) && L[j - 1].IsLeaRip() && At(L, j) in r.ms[0];
    }
  }

  /** A known jump destination strictly inside a window comes from a LEA. */
  lemma MarkedInside(r: Run, i: nat, j: nat)
    requires IsRun(r) && i < |r.ps| && Inside(r, i, j) && j <= |r.L| && At(r.L, j) in r.ms[|r.ps|]
    ensures LeaEntered(r, i) || exists m :: 0 <= m < i && LeaShared(r, m, i)
  {
    if At(r.L, j) in r.ms[0] {
      InitialMarkInside(r, i, j);
    } else {
      var m :| 0 <= m < |r.ps| && r.ps[m].ret == At(r.L, j);
      ReturnInside(r, i, j, m);
    }
  }

  /** A return address strictly inside another window means that the two share a LEA. */
  lemma ReturnInside(r: Run, i: nat, j: nat, m: nat)
    requires IsRun(r) && i < |r.ps| && m < |r.ps| && Inside(r, i, j) && r.ps[m].ret == At(r.L, j)
    ensures m < i && LeaShared(r, m, i)
  {
    var e := ReturnAddress(r, m);
    assert IsPlan(r.L, r.ks[i], r.ps[i], r.ms[i], r.ns[i]);
    AtOrder(r.L, r.start, r.end, e, j);
    AtOrder(r.L, r.start, r.end, j, e);
    assert e == j && m != i;
    CoveredIsRelocatable(r, i, j - 1);
    assert IsPlan(r.L, r.ks[m], r.ps[m], r.ms[m], r.ns[m]);
    assert e == r.ks[m] + 2;
    assert m < i;
    WindowsMeet(r, m, i, j - 1);
  }

  /** A LEA with a jump destination behind it is taken into the window all the same. */
  lemma EnteredIsInside(r: Run, i: nat) returns (j: nat)
    requires IsRun(r) && i < |r.ps| && LeaEntered(r, i)
    ensures Inside(r, i, j) && j <= |r.L| && At(r.L, j) in r.ms[0]
  {
    var L, k := r.L, r.ks[i];
    LeaIsCovered(r, i);
    if k >= 1 && L[k - 1].IsLeaRip() && At(L, k) in r.ms[0] {
      j := k;
    } else if L[k + 1].IsLeaRip() && At(L, k + 1) in r.ms[0] {
      j := k + 1;
    } else {
      StaysUsable(r, i);
      j := k - 1;
    }
  }

  /** No two patches share a LEA. */
  ghost predicate Unshared(r: Run)
    requires IsRun(r)
  {
    forall a, b :: 0 <= a < b < |r.ps| ==> !LeaShared(r, a, b)
  }

  /** Moreover, none has a jump destination behind one. */
  ghost predicate LeaSafe(r: Run)
    requires IsRun(r)
  {
    && Unshared(r)
    && (forall i :: 0 <= i < |r.ps| ==> !LeaEntered(r, i))
  }

  /**
   Every instruction start that is a known jump destination, before or after planning, is outside every
   window or its first byte.
   */
  ghost predicate EntriesSafe(r: Run)
    requires IsRun(r)
  {
    forall i, j :: 0 <= i < |r.ps| && 0 <= j <= |r.L| && Inside(r, i, j) ==> At(r.L, j) !in r.ms[|r.ps|]
  }

  /**
   Jump destinations, among them the return addresses of all patches, stay out of the windows exactly when
   LeaSafe holds.
   */
  lemma EntriesSafeIff(r: Run)
    requires IsRun(r)
    ensures EntriesSafe(r) <==> LeaSafe(r)
  {
    if LeaSafe(r) {
      forall i, j | 0 <= i < |r.ps| && 0 <= j <= |r.L| && Inside(r, i, j)
        ensures At(r.L, j) !in r.ms[|r.ps|]
      {
        if At(r.L, j) in r.ms[|r.ps|] { MarkedInside(r, i, j); }
      }
    }
    if EntriesSafe(r) {
      forall i | 0 <= i < |r.ps|
        ensures !LeaEntered(r, i)
      {
        if LeaEntered(r, i) {
          var j := EnteredIsInside(r, i);
        }
      }
      forall a, b | 0 <= a < b < |r.ps|
        ensures !LeaShared(r, a, b)
      {
        if LeaShared(r, a, b) { SharedIsEntered(r, a, b); }
      }
    }
  }

  /** If two patches share a LEA, the return address of the first lies inside the window of the second. */
  lemma SharedIsEntered(r: Run, a: nat, b: nat)
    requires IsRun(r) && a < b < |r.ps| && LeaShared(r, a, b)
    ensures Inside(r, b, r.ks[a] + 2) && r.ks[a] + 2 <= |r.L| && At(r.L, r.ks[a] + 2) in r.ms[|r.ps|]
  {
    SharedIsCovered(r, a, b);
    var e := ReturnAddress(r, a);
    assert IsPlan(r.L, r.ks[b], r.ps[b], r.ms[b], r.ns[b]);
    AtOrder(r.L, r.start, r.end, e, |r.L|);
    assert r.start <= r.ps[a].ret <= r.end;
  }

  /** The address after a NOP, or after a call, is never strictly inside a window. */
  lemma AfterNopOrCallSafe(r: Run, i: nat, j: nat)
    requires IsRun(r) && i < |r.ps| && 0 < j <= |r.L| && (r.L[j - 1].IsOverwritableNop() || r.L[j - 1].IsCall())
    ensures !Inside(r, i, j)
  {
    if Inside(r, i, j) {
      assert Covers(r, i, j - 1);
      CoveredIsRelocatable(r, i, j - 1);
    }
  }

  // ----- the same conditions, in terms of what planning starts from -----

  /** Neither syscall gets a NOP, and a LEA sits between them. */
  ghost predicate SharesLea(inp: Input, L: seq<Ins>, a: nat, b: nat)
    requires a < b < |inp.items| == |SyscallIndices(L, |L|)|
  {
    var ks := SyscallIndices(L, |L|);
    && ks[a] < ks[b]
    && Choice(inp, a).None? && Choice(inp, b).None? && LeaBetween(L, ks[a], ks[b], inp.marks)
  }

  /** The syscall gets no NOP, and a known jump destination cuts off a LEA that is taken with it. */
  ghost predicate CutsOffLea(inp: Input, L: seq<Ins>, i: nat)
    requires i < |inp.items| == |SyscallIndices(L, |L|)|
  {
    var k := SyscallIndices(L, |L|)[i];
    && Choice(inp, i).None?
    && (|| (k >= 1 && L[k - 1].IsLeaRip() && At(L, k) in inp.marks)
        || (k >= 2 && L[k - 2].IsLeaRip() && At(L, k - 1) in inp.marks && UsesPrev(PatchAt(L, k), inp.marks))
        || (L[k + 1].IsLeaRip() && At(L, k + 1) in inp.marks))
  }

  ghost predicate NoLeaShared(inp: Input, L: seq<Ins>) {
    |inp.items| == |SyscallIndices(L, |L|)| && forall a, b :: 0 <= a < b < |inp.items| ==> !SharesLea(inp, L, a, b)
  }

  ghost predicate NoLeaCutOff(inp: Input, L: seq<Ins>) {
    |inp.items| == |SyscallIndices(L, |L|)| && forall i :: 0 <= i < |inp.items| ==> !CutsOffLea(inp, L, i)
  }

  /** The run's conditions are those of its input. */
  lemma ConditionsOfInput(inp: Input, L: seq<Ins>, cap: nat)
    requires FromListing(inp, L, cap)
    ensures var r := RunOf(inp, L, cap);
      IsRun(r) && (Unshared(r) <==> NoLeaShared(inp, L)) && (LeaSafe(r) <==> NoLeaShared(inp, L) && NoLeaCutOff(inp, L))
  {
    hide FromListing, Tiled, AllPlanned, MarksAccumulate, LeaBetween, Choice, UsesPrev, PatchAt, At;
    var r := RunOf(inp, L, cap);
    PlanIsRun(inp, L, cap);
    assert |inp.items| == |SyscallIndices(L, |L|)|;
    forall a, b | 0 <= a < b < |r.ps|
      ensures LeaShared(r, a, b) <==> SharesLea(inp, L, a, b)
    {
      assert r.ks[a] < r.ks[b];
    }
    assert r.ms[0] == inp.marks;
    forall i | 0 <= i < |r.ps|
      ensures LeaEntered(r, i) <==> CutsOffLea(inp, L, i)
    {
      assert r.ps[i] == Planned(inp, i);
    }
  }

  /** All bytes written by all planned patches are pairwise disjoint exactly when no two of them share a LEA. */
  lemma PlansDisjointIff(inp: Input, L: seq<Ins>, cap: nat)
    requires FromListing(inp, L, cap)
    ensures NoLeaShared(inp, L)
       <==> forall a, b :: 0 <= a < b < |inp.items| ==> Disjoint(Planned(inp, a), Planned(inp, b))
  {
    hide FromListing, IsRun, Unshared, LeaSafe, Disjoint, NoLeaShared, NoLeaCutOff, Planned;
    ConditionsOfInput(inp, L, cap);
    WritesDisjointIff(RunOf(inp, L, cap));
    var r := RunOf(inp, L, cap);
    assert |r.ps| == |inp.items| && forall i :: 0 <= i < |r.ps| ==> r.ps[i] == Planned(inp, i);
  }

  /** Address x is strictly inside the window of the patch. */
  predicate StrictlyInside(p: Patch, x: int) {
    p.form.ViaWindow? && p.dst < x < p.ret
  }

  /**
   No jump destination, known before planning or added by it, at which an instruction starts, is strictly
   inside a window.
   */
  ghost predicate DestinationsStayOut(inp: Input, L: seq<Ins>)
    requires 0 < |L|
  {
    forall i, j :: 0 <= i < |inp.items| && 0 <= j <= |L| && StrictlyInside(Planned(inp, i), At(L, j)) ==>
      At(L, j) !in FinalMarks(inp)
  }

  /** They do exactly when no two patches share a LEA and no known destination cuts one off. */
  lemma DestinationsStayOutIff(inp: Input, L: seq<Ins>, cap: nat)
    requires FromListing(inp, L, cap)
    ensures 0 < |L| && (DestinationsStayOut(inp, L) <==> NoLeaShared(inp, L) && NoLeaCutOff(inp, L))
  {
    hide LeaSafe, NoLeaShared, NoLeaCutOff, Planned, AllPlanned, Ordered, MarksAccumulate, Inside, StrictlyInside,
      Unshared;
    ConditionsOfInput(inp, L, cap);
    var r := RunOf(inp, L, cap);
    EntriesSafeIff(r);
    forall i, j | 0 <= i < |r.ps| && 0 <= j <= |L|
      ensures Inside(r, i, j) <==> StrictlyInside(Planned(inp, i), At(L, j))
    {
      InsideIsStrictlyInside(r, i, j);
    }
  }

  lemma InsideIsStrictlyInside(r: Run, i: nat, j: nat)
    requires IsRun(r) && i < |r.ps| && j <= |r.L|
    ensures Inside(r, i, j) <==> StrictlyInside(r.ps[i], At(r.L, j))
  {
    hide Ordered, MarksAccumulate, UsesPrev, UsesPrev2, UsesNext;
    var p := r.ps[i];
    assert IsPlan(r.L, r.ks[i], p, r.ms[i], r.ns[i]);
    if p.form.ViaWindow? {
      AtOrder(r.L, r.start, r.end, Lo(p, r.ks[i]), j);
      AtOrder(r.L, r.start, r.end, j, Hi(p, r.ks[i]));
    }
  }
}
