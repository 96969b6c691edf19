/**
 The stack frame of the assembly layers around the C code (src/intercept_template.S and
 src/intercept_wrapper.S): the stack set up below the red zone, the registers saved and restored,
 store by store, as functions of registers and memory, and what the frame then holds.
 */
module WrapperFrame {
  import opened Machine
  import opened Hooking

  /** The two memories agree outside [lo, hi). */
  ghost predicate SameMem(m: Mem, m': Mem, lo: int, hi: int) {
    forall a :: !(lo <= a < hi) ==> Load(m, a) == Load(m', a)
  }

  lemma SameMemTrans(m0: Mem, m1: Mem, m2: Mem, lo: int, hi: int)
    requires SameMem(m0, m1, lo, hi) && SameMem(m1, m2, lo, hi)
    ensures SameMem(m0, m2, lo, hi)
  {
  }

  lemma SameMemWider(m0: Mem, m1: Mem, lo: int, hi: int, lo': int, hi': int)
    requires SameMem(m0, m1, lo, hi) && lo' <= lo && hi <= hi'
    ensures SameMem(m0, m1, lo', hi')
  {
  }

  lemma SameMemWrite(m0: Mem, m1: Mem, a: int, v: int, lo: int, hi: int)
    requires SameMem(m0, m1, lo, hi) && lo <= a < hi
    ensures SameMem(m0, m1[a := v], lo, hi)
  {
  }

  lemma SameMemAt(m0: Mem, m1: Mem, lo: int, hi: int, a: int)
    requires SameMem(m0, m1, lo, hi) && !(lo <= a < hi)
    ensures Load(m0, a) == Load(m1, a)
  {
  }

  // ----- the slots of the frame -----

  datatype Slot = Slot(off: int, reg: nat)

  /**
   The stores of intercept_wrapper.S, in order, as offsets from RSP; RSP itself goes to 0x130, after the
   first six.
   */
  const SAVED: seq<Slot> := [
    Slot(0x160, RAX), Slot(0x158, RDX), Slot(0x150, RBX), Slot(0x148, RSI), Slot(0x140, RDI), Slot(0x138, RBP),
    Slot(0x128, R8), Slot(0x120, R9), Slot(0x118, R10), Slot(0x110, R12), Slot(0x108, R13), Slot(0x100, R14),
    Slot(0xf8, R15)]

  /** The loads, in order. */
  const RESTORED: seq<Slot> := [
    Slot(0x158, RDX), Slot(0x150, RBX), Slot(0x148, RSI), Slot(0x140, RDI), Slot(0x138, RBP), Slot(0x128, R8),
    Slot(0x120, R9), Slot(0x118, R10), Slot(0x110, R12), Slot(0x108, R13), Slot(0x100, R14), Slot(0xf8, R15)]

  /** The frame at sp holds the first n saved registers. */
  ghost predicate FrameHolds(m: Mem, sp: int, regs: Regs, n: nat)
    requires n <= |SAVED|
  {
    forall i :: 0 <= i < n ==> SAVED[i].reg < 16 && Load(m, sp + SAVED[i].off) == regs[SAVED[i].reg]
  }

  /** Each load reads what the store for the same register wrote. */
  lemma RestoredIsSaved(i: nat)
    requires i < |RESTORED|
    ensures i + 1 < |SAVED| && RESTORED[i] == SAVED[i + 1]
  {
  }

  lemma SlotsDistinct(i: nat, j: nat)
    requires i < j < |SAVED|
    ensures SAVED[i].off > SAVED[j].off && 0xf8 <= SAVED[j].off < SAVED[i].off <= 0x160
    ensures SAVED[i].off != 0x130 && SAVED[j].off != 0x130
  {
  }

  /** The slots lie between 0xf8 and 0x160, and none is for a register that is already lost. */
  lemma SavedSlot(i: nat)
    requires i < |SAVED|
    ensures 0xf8 <= SAVED[i].off <= 0x160 && SAVED[i].off != 0x130
    ensures SAVED[i].reg < 16 && SAVED[i].reg !in {RCX, RSP, R11}
  {
  }

  /** The frame does not hold RSP and R11. */
  lemma FrameOfOthers(m: Mem, sp: int, regs: Regs, regs': Regs, n: nat)
    requires n <= |SAVED| && FrameHolds(m, sp, regs, n)
    requires forall r :: 0 <= r < 16 && r !in {RCX, RSP, R11} ==> regs[r] == regs'[r]
    ensures FrameHolds(m, sp, regs', n)
  {
    forall i | 0 <= i < n
      ensures SAVED[i].reg < 16 && Load(m, sp + SAVED[i].off) == regs'[SAVED[i].reg]
    {
      SavedSlot(i);
    }
  }

  /** Writes elsewhere leave the frame as it is. */
  lemma FrameStays(m: Mem, m': Mem, sp: int, regs: Regs, n: nat)
    requires n <= |SAVED| && FrameHolds(m, sp, regs, n)
    requires forall a :: sp + 0xf8 <= a <= sp + 0x160 && a != sp + 0x130 ==> Load(m, a) == Load(m', a)
    ensures FrameHolds(m', sp, regs, n)
  {
    forall i | 0 <= i < n
      ensures SAVED[i].reg < 16 && Load(m', sp + SAVED[i].off) == regs[SAVED[i].reg]
    {
      SavedSlot(i);
    }
  }

  /** Every general register but RAX, RCX, RSP and R11 is among the loads, once. */
  function SlotOf(r: nat): (i: nat)
    requires r < 16 && r !in {RAX, RCX, RSP, R11}
    ensures i < |RESTORED| && RESTORED[i].reg == r
  {
    if r == RDX then 0 else if r == RBX then 1 else if r == RSI then 2 else if r == RDI then 3 else if r == RBP then 4
    else if r <= R10 then r - 3 else r - 4
  }

  lemma RestoredReg(i: nat)
    requires i < |RESTORED|
    ensures RESTORED[i].reg < 16 && RESTORED[i].reg !in {RAX, RCX, RSP, R11}
  {
  }

  lemma RestoredOnce(i: nat, j: nat)
    requires i < j < |RESTORED|
    ensures RESTORED[i].reg != RESTORED[j].reg
    ensures RESTORED[i].reg < 16 && RESTORED[i].reg !in {RAX, RCX, RSP, R11}
    ensures RESTORED[j].reg < 16 && RESTORED[j].reg !in {RAX, RCX, RSP, R11}
  {
  }

  // ----- intercept_wrapper, before and after the C code -----

  /** Stores for a run of slots, in order. */
  function StoreSlots(m: Mem, sp: int, regs: Regs, first: nat, last: nat): Mem
    requires first <= last <= |SAVED|
    decreases last
  {
    if first == last then m else
      SavedSlot(last - 1);
      StoreSlots(m, sp, regs, first, last - 1)[sp + SAVED[last - 1].off := regs[SAVED[last - 1].reg]]
  }

  lemma {:induction false} StoreSlotsHold(m: Mem, sp: int, regs: Regs, first: nat, last: nat)
    requires first <= last <= |SAVED| && FrameHolds(m, sp, regs, first)
    ensures var m' := StoreSlots(m, sp, regs, first, last);
      && FrameHolds(m', sp, regs, last) && SameMem(m, m', sp + 0xf8, sp + 0x168)
      && Load(m', sp + 0x130) == Load(m, sp + 0x130)
    decreases last
  {
    if first < last {
      StoreSlotsHold(m, sp, regs, first, last - 1);
      SavedSlot(last - 1);
      forall j | 0 <= j < last - 1
        ensures SAVED[j].off != SAVED[last - 1].off
      {
        SlotsDistinct(j, last - 1);
      }
    }
  }

  /** Memory and R11 when all registers are saved; RSP on entry is regs[RSP]. */
  function Saved(m: Mem, regs: Regs): (Mem, int) {
    var sp := regs[RSP] - 0x448;
    var r := regs[RSP := sp];
    var m1 := StoreSlots(m, sp, r, 0, 6);
    var r1 := r[R11 := Load(m1, sp + 0x450)];
    var m2 := m1[sp + 0x130 := r1[R11]];
    var m3 := StoreSlots(m2, sp, r1, 6, |SAVED|);
    var desc := Load(m3, sp + 0x458);
    var m4 := m3[sp + 0xe8 := desc];
    var rip := Load(m4, desc);
    (m4[sp + 0xf0 := rip], rip)
  }

  function SavedRegs(m: Mem, regs: Regs): Regs {
    regs[RSP := regs[RSP] - 0x448][R11 := Saved(m, regs).1]
  }

  /**
   Every general register but RCX and R11 is in its slot, RSP and the patch description too; only the slots
   change.
   */
  lemma SavedHolds(m: Mem, regs: Regs)
    ensures var sp, m' := regs[RSP] - 0x448, Saved(m, regs).0;
      && FrameHolds(m', sp, regs, |SAVED|)
      && Load(m', sp + 0x130) == Load(m, sp + 0x450) && Load(m', sp + 0xe8) == Load(m, sp + 0x458)
      && (var desc := Load(m, sp + 0x458);
          !(sp + 0xe8 <= desc < sp + 0x168) ==> Load(m', sp + 0xf0) == Load(m, desc))
      && SameMem(m, m', sp + 0xe8, sp + 0x168)
  {
    hide SameMem, StoreSlots;
    var sp := regs[RSP] - 0x448;
    var lo, hi := sp + 0xe8, sp + 0x168;
    var r := regs[RSP := sp];
    var m1 := StoreSlots(m, sp, r, 0, 6);
    StoreSlotsHold(m, sp, r, 0, 6);
    SameMemWider(m, m1, sp + 0xf8, hi, lo, hi);
    SameMemAt(m, m1, lo, hi, sp + 0x450);
    var r1 := r[R11 := Load(m1, sp + 0x450)];
    var m2 := m1[sp + 0x130 := r1[R11]];
    SameMemWrite(m, m1, sp + 0x130, r1[R11], lo, hi);
    FrameStays(m1, m2, sp, r, 6);
    FrameOfOthers(m2, sp, r, r1, 6);
    var m3 := StoreSlots(m2, sp, r1, 6, |SAVED|);
    StoreSlotsHold(m2, sp, r1, 6, |SAVED|);
    SameMemWider(m2, m3, sp + 0xf8, hi, lo, hi);
    SameMemTrans(m, m2, m3, lo, hi);
    FrameOfOthers(m3, sp, r1, regs, |SAVED|);
    SavedEnd(m, m3, sp, regs);
  }

  lemma SavedEnd(m: Mem, m3: Mem, sp: int, regs: Regs)
    requires SameMem(m, m3, sp + 0xe8, sp + 0x168) && FrameHolds(m3, sp, regs, |SAVED|)
    ensures var desc := Load(m3, sp + 0x458);
      var m4 := m3[sp + 0xe8 := desc];
      var m5 := m4[sp + 0xf0 := Load(m4, desc)];
      && desc == Load(m, sp + 0x458) && SameMem(m, m5, sp + 0xe8, sp + 0x168) && FrameHolds(m5, sp, regs, |SAVED|)
      && Load(m5, sp + 0xe8) == desc && Load(m5, sp + 0x130) == Load(m3, sp + 0x130)
      && (!(sp + 0xe8 <= desc < sp + 0x168) ==> Load(m5, sp + 0xf0) == Load(m, desc))
  {
    hide SameMem, FrameHolds;
    var lo, hi := sp + 0xe8, sp + 0x168;
    SameMemAt(m, m3, lo, hi, sp + 0x458);
    var desc := Load(m3, sp + 0x458);
    var m4 := m3[sp + 0xe8 := desc];
    SameMemWrite(m, m3, sp + 0xe8, desc, lo, hi);
    SameMemWrite(m, m4, sp + 0xf0, Load(m4, desc), lo, hi);
    FrameStays(m3, m4[sp + 0xf0 := Load(m4, desc)], sp, regs, |SAVED|);
    if !(lo <= desc < hi) {
      SameMemAt(m, m4, lo, hi, desc);
    }
  }

  /** The first n loads; RDX, the C side's second answer, goes to R11 first. */
  function RestoreSlots(regs: Regs, m: Mem, n: nat): Regs
    requires n <= |RESTORED|
  {
    if n == 0 then regs[R11 := regs[RDX]] else
      RestoredReg(n - 1);
      RestoreSlots(regs, m, n - 1)[RESTORED[n - 1].reg := Load(m, regs[RSP] + RESTORED[n - 1].off)]
  }

  function RestoredRegs(regs: Regs, m: Mem): Regs {
    RestoreSlots(regs, m, |RESTORED|)[RSP := regs[RSP] + 0x448]
  }

  lemma SlotLoads(m: Mem, sp: int, saved: Regs, i: nat)
    requires i < |RESTORED| && FrameHolds(m, sp, saved, |SAVED|)
    ensures RESTORED[i].reg < 16 && Load(m, sp + RESTORED[i].off) == saved[RESTORED[i].reg]
  {
    hide Load;
    RestoredIsSaved(i);
    SavedSlot(i + 1);
  }

  lemma {:induction false} RestoreSlotsHold(regs: Regs, m: Mem, saved: Regs, n: nat)
    requires n <= |RESTORED| && FrameHolds(m, regs[RSP], saved, |SAVED|)
    ensures var r := RestoreSlots(regs, m, n);
      && r[RSP] == regs[RSP] && r[RAX] == regs[RAX] && r[R11] == regs[RDX]
      && forall j :: 0 <= j < n ==> RESTORED[j].reg < 16 && r[RESTORED[j].reg] == saved[RESTORED[j].reg]
  {
    hide FrameHolds;
    if n > 0 {
      RestoreSlotsHold(regs, m, saved, n - 1);
      SlotLoads(m, regs[RSP], saved, n - 1);
      RestoredReg(n - 1);
      forall j | 0 <= j < n - 1
        ensures RESTORED[j].reg != RESTORED[n - 1].reg
      {
        RestoredOnce(j, n - 1);
      }
    }
  }

  /** All general registers come back but RAX, RCX and R11; RAX and R11 carry the C side's answers. */
  lemma RestoredHolds(regs: Regs, m: Mem, saved: Regs)
    requires FrameHolds(m, regs[RSP], saved, |SAVED|)
    ensures var r := RestoredRegs(regs, m);
      && (forall i :: 0 <= i < 16 && i !in {RAX, RCX, RSP, R11} ==> r[i] == saved[i])
      && r[RAX] == regs[RAX] && r[R11] == regs[RDX] && r[RSP] == regs[RSP] + 0x448
  {
    hide FrameHolds, RestoreSlots;
    RestoreSlotsHold(regs, m, saved, |RESTORED|);
    forall i | 0 <= i < 16 && i !in {RAX, RCX, RSP, R11}
      ensures RestoredRegs(regs, m)[i] == saved[i]
    {
      var j := SlotOf(i);
      assert RESTORED[j].reg == i;
    }
  }

  /** The field of struct context for each register that is saved. */
  const FIELDS: seq<Slot> := [
    Slot(CTX_RAX, RAX), Slot(CTX_RDX, RDX), Slot(CTX_RBX, RBX), Slot(CTX_RSI, RSI), Slot(CTX_RDI, RDI),
    Slot(CTX_RBP, RBP), Slot(CTX_R8, R8), Slot(CTX_R9, R9), Slot(CTX_R10, R10), Slot(CTX_R12, R12),
    Slot(CTX_R13, R13), Slot(CTX_R14, R14), Slot(CTX_R15, R15)]

  /** The context starts 0xe8 above RSP, and each field of a register is at its slot. */
  lemma FieldIsSlot(i: nat)
    requires i < |FIELDS|
    ensures i < |SAVED| && FIELDS[i].reg == SAVED[i].reg && 0xe8 + FIELDS[i].off == SAVED[i].off
  {
  }

  /** The C side reads the call from the fields. */
  lemma ContextIsFrame(m: Mem, sp: int, regs: Regs)
    requires FrameHolds(m, sp, regs, |SAVED|)
    ensures forall i :: 0 <= i < |FIELDS| ==>
      FIELDS[i].reg < 16 && Load(m, sp + 0xe8 + FIELDS[i].off) == regs[FIELDS[i].reg]
    ensures CallInContext(m, sp + 0xe8) == CallOf(regs) && Load(m, sp + 0xe8 + CTX_RAX) == regs[RAX]
  {
    hide Load;
    forall i | 0 <= i < |FIELDS|
      ensures FIELDS[i].reg < 16 && Load(m, sp + 0xe8 + FIELDS[i].off) == regs[FIELDS[i].reg]
    {
      FieldIsSlot(i);
    }
    assert FIELDS[0] == Slot(CTX_RAX, RAX) && FIELDS[1] == Slot(CTX_RDX, RDX) && FIELDS[3] == Slot(CTX_RSI, RSI);
    assert FIELDS[4] == Slot(CTX_RDI, RDI) && FIELDS[6] == Slot(CTX_R8, R8) && FIELDS[7] == Slot(CTX_R9, R9);
    assert FIELDS[8] == Slot(CTX_R10, R10);
  }

  /** A context in memory: all sixteen fields. `desc` is the patch description, whose first word is the address. */
  ghost predicate IsContext(m: Mem, ctx: int, regs: Regs, rsp: int, desc: int, rip: int) {
    && Load(m, ctx + CTX_PATCH) == desc && Load(m, ctx + CTX_RIP) == rip && Load(m, ctx + CTX_RSP) == rsp
    && forall i :: 0 <= i < |FIELDS| ==>
        FIELDS[i].reg < 16 && Load(m, ctx + FIELDS[i].off) == regs[FIELDS[i].reg]
  }

  /**
   What intercept_wrapper saves is the context of the original program: its registers, the RSP and the
   patch description that the template left above the return address, and the address of the syscall,
   which is the first word of the description.
   */
  lemma SavedIsContext(m: Mem, regs: Regs)
    requires var desc, lo := Load(m, regs[RSP] + 0x10), regs[RSP] - 0x448 + 0xe8; !(lo <= desc < lo + 0x80)
    ensures var desc := Load(m, regs[RSP] + 0x10);
      IsContext(Saved(m, regs).0, regs[RSP] - 0x448 + 0xe8, regs, Load(m, regs[RSP] + 8), desc, Load(m, desc))
  {
    hide Saved, FrameHolds, SameMem, CallOf, CallInContext;
    SavedHolds(m, regs);
    ContextIsFrame(Saved(m, regs).0, regs[RSP] - 0x448, regs);
  }

  // ----- the template, up to the call of intercept_wrapper -----

  /**
   Skip the red zone, align, leave the original RSP and the patch description on the stack; the call of
   intercept_wrapper, through R11, pushes an address.
   */
  function SetUp(s: State, patch: int, wrapper: int): State {
    var low := s.regs[RSP] - 0x80;
    var sp := low - low % 16 - 0x20;
    var m := s.mem[sp := s.regs[RSP]][sp + 8 := patch];
    s.(regs := s.regs[R11 := wrapper][RSP := sp - 8], mem := m[sp - 8 := 0])
  }

  /** Aligned for the call, below the red zone, with the two words where intercept_wrapper looks for them. */
  lemma SetUpHolds(s: State, patch: int, wrapper: int)
    ensures var t, hi := SetUp(s, patch, wrapper), s.regs[RSP] - 0x80;
      && (forall r :: 0 <= r < 16 && r !in {RSP, R11} ==> t.regs[r] == s.regs[r])
      && t.regs[RSP] % 16 == 8 && hi - 0x28 - 15 <= t.regs[RSP] && t.regs[RSP] + 0x18 <= hi
      && Load(t.mem, t.regs[RSP] + 8) == s.regs[RSP] && Load(t.mem, t.regs[RSP] + 0x10) == patch
      && SameMem(s.mem, t.mem, hi - 0x28 - 15, hi)
  {
  }

  lemma SavedAligned(m: Mem, regs: Regs)
    requires regs[RSP] % 16 == 8
    ensures SavedRegs(m, regs)[RSP] % 16 == 0 && SavedRegs(m, regs)[RSP] == regs[RSP] - 0x448
  {
    hide Saved;
  }

  /** From every stack pointer, C is called with RSP a multiple of 16 and its stack below the red zone. */
  lemma CalledAligned(s: State, patch: int, wrapper: int)
    ensures var t := SetUp(s, patch, wrapper);
      var rsp := SavedRegs(t.mem, t.regs)[RSP];
      rsp % 16 == 0 && rsp + 0x448 + 0x18 <= s.regs[RSP] - 0x80
  {
    hide SetUp, SavedRegs, SameMem;
    SetUpHolds(s, patch, wrapper);
    var t := SetUp(s, patch, wrapper);
    SavedAligned(t.mem, t.regs);
  }
}
