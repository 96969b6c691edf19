/**
 Overwriting the text (activate_patches and check_trampoline_usage in src/patcher.c). The text is
 mapped at `start`, the trampoline table at `tableBase`.
 */
module Activate {
  import opened Bytes
  import opened Encoding
  import opened Listing
  import opened Overlap

  /** Where the 5-byte jump of patch i leads: its trampoline slot, or its wrapper if there is no table. */
  function JumpTarget(p: Patch, i: nat, usesTable: bool, tableBase: int): int {
    if usesTable then tableBase + TRAMPOLINE_SIZE * i else p.wrapper
  }

  /** Every jump written for the patch has a displacement that fits. */
  predicate AllFit(p: Patch, target: int) {
    && JumpFits(p.dst, target)
    && (p.form.ViaNop? ==> ShortJumpFits(p.syscallAddr, p.dst)
                           && ShortJumpFits(p.form.nop.address, p.form.nop.address + p.form.nop.size))
  }

  /** The checks that activate_patches makes for patch i before it is done with it. */
  predicate ChecksPass(p: Patch, i: nat, start: int, end: int, usesTable: bool, tableBase: int, tableSize: nat) {
    && start <= p.dst <= end
    && (usesTable ==> TRAMPOLINE_SIZE * i + TRAMPOLINE_SIZE < tableSize)
    && AllFit(p, JumpTarget(p, i, usesTable, tableBase))
  }

  /** The bytes b stand at address a of the memory m mapped at base. */
  ghost predicate Holds(m: seq<Byte>, base: int, a: int, b: seq<Byte>) {
    base <= a && a + |b| <= base + |m| && forall j :: 0 <= j < |b| ==> m[a - base + j] == b[j]
  }

  /** What the text holds for patch p once it is active. */
  ghost predicate Applied(p: Patch, text: seq<Byte>, start: int, target: int) {
    && Holds(text, start, p.dst, JumpBytes(JMP_OPCODE, p.dst, target))
    && (p.form.ViaNop? ==>
        && Holds(text, start, p.syscallAddr, ShortJumpBytes(p.syscallAddr, p.dst))
        && Holds(text, start, p.form.nop.address,
                 ShortJumpBytes(p.form.nop.address, p.form.nop.address + p.form.nop.size)))
    && (p.form.ViaWindow? ==>
        start <= p.dst && p.ret <= start + |text|
        && forall y :: 0 <= y < |text| && p.dst + JUMP_INS_SIZE <= start + y < p.ret ==> text[y] == INT3_OPCODE)
  }

  /** The patch overwrites text bytes only, and its parts do not collide. */
  ghost predicate WellPlaced(p: Patch, start: int, end: int) {
    && (forall x :: Writes(p, x) ==> start <= x <= end)
    && (p.form.ViaNop? ==>
        && p.dst == p.form.nop.address + 2
        && (p.syscallAddr + SYSCALL_INS_SIZE <= p.form.nop.address || p.form.nop.address + 7 <= p.syscallAddr))
    && (p.form.ViaWindow? ==> p.dst + JUMP_INS_SIZE <= p.ret)
    && !p.form.Unplanned?
  }

  /** A patch leaves nothing of the original among the bytes it writes: they are the same whatever was there. */
  lemma AppliedDetermines(p: Patch, s: seq<Byte>, t: seq<Byte>, start: int, end: int, target: int, x: nat)
    requires |s| == |t| == end - start + 1 && WellPlaced(p, start, end) && x < |s| && Writes(p, start + x)
    requires Applied(p, s, start, target) && Applied(p, t, start, target)
    ensures s[x] == t[x]
  {
    hide JumpBytes, ShortJumpBytes;
    var y := start + x;
    if p.dst <= y < p.dst + 5 {
      assert s[p.dst - start + (y - p.dst)] == JumpBytes(JMP_OPCODE, p.dst, target)[y - p.dst];
      assert t[p.dst - start + (y - p.dst)] == JumpBytes(JMP_OPCODE, p.dst, target)[y - p.dst];
    } else if p.form.ViaNop? {
      var a := if p.syscallAddr <= y < p.syscallAddr + 2 then p.syscallAddr else p.form.nop.address;
      var b := if a == p.syscallAddr then ShortJumpBytes(a, p.dst) else ShortJumpBytes(a, a + p.form.nop.size);
      assert s[a - start + (y - a)] == b[y - a] && t[a - start + (y - a)] == b[y - a];
    }
  }

  /** Only bytes that p writes differ. */
  ghost predicate OnlyWrites(p: Patch, before: seq<Byte>, after: seq<Byte>, start: int) {
    |before| == |after| && forall x :: 0 <= x < |after| && !Writes(p, start + x) ==> after[x] == before[x]
  }

  /** The NOP form: the long jump inside the NOP, the short jump to it, and the one over it. */
  method ApplyNop(p: Patch, target: int, text: array<Byte>, start: int, ghost end: int) returns (ok: bool)
    requires p.form.ViaNop? && text.Length == end - start + 1 && WellPlaced(p, start, end)
    modifies text
    ensures ok <==> AllFit(p, target)
    ensures ok ==> Applied(p, text[..], start, target)
    ensures OnlyWrites(p, old(text[..]), text[..], start)
  {
    hide Holds, OnlyWrites, JumpBytes, ShortJumpBytes, JumpFits, ShortJumpFits, Overwrites;
    var nop := p.form.nop;
    assert Writes(p, nop.address) && Writes(p, nop.address + 6);
    assert Writes(p, p.syscallAddr) && Writes(p, p.syscallAddr + 1);
    hide Writes;
    ghost var t0 := text[..];
    WritesNothing(p, t0, start);
    ok := CreateJump(text, start, JMP_OPCODE, p.dst, target);
    if !ok { return; }
    ghost var t1 := text[..];
    WritesMore(p, t0, t0, t1, start, p.dst, JumpBytes(JMP_OPCODE, p.dst, target));
    ok := CreateShortJump(text, start, p.syscallAddr, p.dst);
    if !ok { return; }
    ghost var t2 := text[..];
    WritesMore(p, t0, t1, t2, start, p.syscallAddr, ShortJumpBytes(p.syscallAddr, p.dst));
    ok := CreateShortJump(text, start, nop.address, nop.address + nop.size);
    if !ok { return; }
    ghost var t3 := text[..];
    var skip := ShortJumpBytes(nop.address, nop.address + nop.size);
    WritesMore(p, t0, t2, t3, start, nop.address, skip);
    HoldsStill(t1, t2, start, p.dst, JumpBytes(JMP_OPCODE, p.dst, target),
               p.syscallAddr, ShortJumpBytes(p.syscallAddr, p.dst));
    HoldsStill(t2, t3, start, p.dst, JumpBytes(JMP_OPCODE, p.dst, target), nop.address, skip);
    HoldsStill(t2, t3, start, p.syscallAddr, ShortJumpBytes(p.syscallAddr, p.dst), nop.address, skip);
  }

  lemma WritesNothing(p: Patch, text: seq<Byte>, start: int)
    ensures OnlyWrites(p, text, text, start)
  {
  }

  /** Bytes written inside the patch stand there, and nothing else has changed. */
  lemma WritesMore(p: Patch, before: seq<Byte>, middle: seq<Byte>, after: seq<Byte>, start: int, a: int, b: seq<Byte>)
    requires OnlyWrites(p, before, middle, start) && Overwrites(middle, after, a - start, b)
    requires forall x :: a <= x < a + |b| ==> Writes(p, x)
    ensures OnlyWrites(p, before, after, start) && Holds(after, start, a, b)
  {
    hide Writes;
    forall x | 0 <= x < |after| && !Writes(p, start + x)
      ensures after[x] == before[x]
    {
      assert !(a <= start + x < a + |b|);
    }
  }

  lemma HoldsStill(before: seq<Byte>, after: seq<Byte>, start: int, a: int, b: seq<Byte>, c: int, d: seq<Byte>)
    requires Holds(before, start, a, b) && Overwrites(before, after, c - start, d)
    requires a + |b| <= c || c + |d| <= a
    ensures Holds(after, start, a, b)
  {
  }

  /** The text part of one iteration: the jump out, then the short jumps or the int3 filling. */
  method ApplyPatch(p: Patch, target: int, text: array<Byte>, start: int, ghost end: int) returns (ok: bool)
    requires text.Length == end - start + 1 && WellPlaced(p, start, end)
    modifies text
    ensures ok <==> AllFit(p, target)
    ensures ok ==> Applied(p, text[..], start, target)
    ensures OnlyWrites(p, old(text[..]), text[..], start)
  {
    if p.form.ViaNop? {
      ok := ApplyNop(p, target, text, start, end);
      return;
    }
    assert Writes(p, p.dst) && Writes(p, p.ret - 1);
    ok := CreateJump(text, start, JMP_OPCODE, p.dst, target);
    if !ok { return; }
    var byte := p.dst + JUMP_INS_SIZE;
    while byte < p.ret
      invariant p.dst + JUMP_INS_SIZE <= byte <= p.ret
      invariant forall y :: 0 <= y < text.Length && p.dst + JUMP_INS_SIZE <= start + y < byte ==> text[y] == INT3_OPCODE
      invariant Holds(text[..], start, p.dst, JumpBytes(JMP_OPCODE, p.dst, target))
      invariant OnlyWrites(p, old(text[..]), text[..], start)
    {
      text[byte - start] := INT3_OPCODE;
      byte := byte + 1;
    }
  }

  ghost predicate AllWellPlaced(items: seq<Patch>, start: int, end: int) {
    forall i :: 0 <= i < |items| ==> WellPlaced(items[i], start, end)
  }

  ghost predicate AllDisjoint(items: seq<Patch>) {
    forall i, j :: 0 <= i < j < |items| ==> Disjoint(items[i], items[j])
  }

  ghost predicate AllApplied(items: seq<Patch>, n: nat, text: seq<Byte>, start: int, usesTable: bool, tableBase: int)
    requires n <= |items|
  {
    forall i :: 0 <= i < n ==> Applied(items[i], text, start, JumpTarget(items[i], i, usesTable, tableBase))
  }

  /** The first n slots of the table lead to the wrappers. */
  ghost predicate SlotsWritten(items: seq<Patch>, n: nat, table: seq<Byte>)
    requires n <= |items|
  {
    forall i :: 0 <= i < n ==> Holds(table, 0, TRAMPOLINE_SIZE * i, AbsoluteJumpBytes(items[i].wrapper))
  }

  ghost predicate Untouched(items: seq<Patch>, n: nat, before: seq<Byte>, after: seq<Byte>, start: int)
    requires n <= |items|
  {
    |before| == |after|
    && forall x :: 0 <= x < |after| && (forall i :: 0 <= i < n ==> !Writes(items[i], start + x)) ==>
        after[x] == before[x]
  }

  /** A later patch leaves an earlier one in place. */
  lemma AppliedStays(p: Patch, q: Patch, before: seq<Byte>, after: seq<Byte>, start: int, end: int, target: int)
    requires WellPlaced(p, start, end) && Disjoint(p, q) && OnlyWrites(q, before, after, start)
    requires Applied(p, before, start, target)
    ensures Applied(p, after, start, target)
  {
    forall x | 0 <= x < |after| && Writes(p, start + x)
      ensures after[x] == before[x]
    {
    }
    if p.form.ViaNop? {
      assert forall x :: p.dst <= x < p.dst + JUMP_INS_SIZE ==> Writes(p, x);
    }
  }

  lemma AllAppliedStay(items: seq<Patch>, n: nat, before: seq<Byte>, after: seq<Byte>, start: int, end: int,
                       usesTable: bool, tableBase: int)
    requires n < |items| && AllWellPlaced(items, start, end) && AllDisjoint(items)
    requires AllApplied(items, n, before, start, usesTable, tableBase) && OnlyWrites(items[n], before, after, start)
    requires Applied(items[n], after, start, JumpTarget(items[n], n, usesTable, tableBase))
    ensures AllApplied(items, n + 1, after, start, usesTable, tableBase)
  {
    forall i | 0 <= i < n
      ensures Applied(items[i], after, start, JumpTarget(items[i], i, usesTable, tableBase))
    {
      AppliedStays(items[i], items[n], before, after, start, end, JumpTarget(items[i], i, usesTable, tableBase));
    }
  }

  lemma SlotAdded(items: seq<Patch>, n: nat, before: seq<Byte>, after: seq<Byte>)
    requires n < |items| && SlotsWritten(items, n, before)
    requires Overwrites(before, after, TRAMPOLINE_SIZE * n, AbsoluteJumpBytes(items[n].wrapper))
    ensures SlotsWritten(items, n + 1, after)
  {
    forall i | 0 <= i < n + 1
      ensures Holds(after, 0, TRAMPOLINE_SIZE * i, AbsoluteJumpBytes(items[i].wrapper))
    {
      if i < n {
        assert Holds(before, 0, TRAMPOLINE_SIZE * i, AbsoluteJumpBytes(items[i].wrapper));
        assert TRAMPOLINE_SIZE * i + TRAMPOLINE_SIZE <= TRAMPOLINE_SIZE * n;
      }
    }
  }

  /**
   activate_patches: aborts exactly when one of its checks fails. Otherwise only bytes that belong to
   some patch have changed, and if no two patches overlap, every one is in place.
   */
  method ActivatePatches(items: seq<Patch>, text: array<Byte>, start: int, end: int,
                         usesTable: bool, table: array<Byte>, tableBase: int) returns (ok: bool)
    requires text.Length == end - start + 1 && text != table
    requires AllWellPlaced(items, start, end)
    modifies text, table
    ensures ok <==> forall i :: 0 <= i < |items| ==>
      ChecksPass(items[i], i, start, end, usesTable, tableBase, table.Length)
    ensures ok && AllDisjoint(items) ==> AllApplied(items, |items|, text[..], start, usesTable, tableBase)
    ensures ok && usesTable ==> SlotsWritten(items, |items|, table[..])
    ensures ok ==> Untouched(items, |items|, old(text[..]), text[..], start)
    ensures !usesTable ==> table[..] == old(table[..])
  {
    var next := tableBase;
    for i := 0 to |items|
      invariant next == tableBase + (if usesTable then TRAMPOLINE_SIZE * i else 0)
      invariant forall j :: 0 <= j < i ==> ChecksPass(items[j], j, start, end, usesTable, tableBase, table.Length)
      invariant AllDisjoint(items) ==> AllApplied(items, i, text[..], start, usesTable, tableBase)
      invariant usesTable ==> SlotsWritten(items, i, table[..])
      invariant Untouched(items, i, old(text[..]), text[..], start)
      invariant !usesTable ==> table[..] == old(table[..])
    {
      hide Applied, WellPlaced, AllDisjoint, AllFit, Holds, OnlyWrites;
      var p := items[i];
      ghost var before := text[..];
      if p.dst < start || p.dst > end {
        return false;
      }
      if usesTable {
        if next - tableBase + TRAMPOLINE_SIZE >= table.Length {
          return false;
        }
        ok := ApplyPatch(p, next, text, start, end);
        if !ok { return; }
        ghost var slots := table[..];
        next := CreateAbsoluteJump(table, tableBase, next, p.wrapper);
        SlotAdded(items, i, slots, table[..]);
      } else {
        ok := ApplyPatch(p, p.wrapper, text, start, end);
        if !ok { return; }
      }
      if AllDisjoint(items) {
        AllAppliedStay(items, i, before, text[..], start, end, usesTable, tableBase);
      }
      UntouchedStays(items, i, old(text[..]), before, text[..], start);
    }
    ok := true;
  }

  lemma UntouchedStays(items: seq<Patch>, n: nat, s0: seq<Byte>, s1: seq<Byte>, s2: seq<Byte>, start: int)
    requires n < |items| && Untouched(items, n, s0, s1, start) && OnlyWrites(items[n], s1, s2, start)
    ensures Untouched(items, n + 1, s0, s2, start)
  {
    forall x | 0 <= x < |s2| && (forall i :: 0 <= i < n + 1 ==> !Writes(items[i], start + x))
      ensures s2[x] == s0[x]
    {
      assert !Writes(items[n], start + x);
      assert forall i :: 0 <= i < n ==> !Writes(items[i], start + x);
    }
  }
}
