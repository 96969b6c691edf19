/**
 The two assembly layers as they run: a thread whose registers and memory change instruction by
 instruction (src/intercept_template.S and src/intercept_wrapper.S). Each method is the function of the
 same part in WrapperFrame and WrapperProtocol, where its properties are proved.
 */
module WrapperThread {
  import opened Encoding
  import opened Machine
  import opened Hooking
  import opened WrapperFrame
  import opened WrapperProtocol

  /**
   A thread, as the assembly code sees it; `entries` counts how often C code has been entered, and `callRsp`
   is RSP at the last of these calls.
   */
  class Thread {
    var regs: Regs
    var mem: Mem
    var trace: seq<Call>
    var flags: int
    var entries: nat
    var callRsp: int

    ghost function Snapshot(): State
      reads this
    {
      State(regs, flags, mem, trace)
    }

    constructor (s: State)
      ensures Snapshot() == s && entries == 0
    {
      regs, mem, trace, flags, entries, callRsp := s.regs, s.mem, s.trace, s.flags, 0, 0;
    }

    /** movq %reg, off(%rsp), for a run of slots. */
    method StoreRegisters(first: nat, last: nat)
      requires first <= last <= |SAVED|
      modifies `mem
      ensures mem == StoreSlots(old(mem), regs[RSP], regs, first, last)
    {
      for i := first to last
        invariant mem == StoreSlots(old(mem), regs[RSP], regs, first, i)
      {
        SavedSlot(i);
        mem := mem[regs[RSP] + SAVED[i].off := regs[SAVED[i].reg]];
      }
    }

    /** intercept_wrapper up to the call: every general register but RCX and R11 goes to the stack. */
    method SaveRegisters()
      modifies `regs, `mem
      ensures mem == Saved(old(mem), old(regs)).0 && regs == SavedRegs(old(mem), old(regs))
      ensures FrameHolds(mem, regs[RSP], old(regs), |SAVED|)
      ensures SameMem(old(mem), mem, regs[RSP] + 0xe8, regs[RSP] + 0x168)
    {
      hide StoreSlots, SameMem, FrameHolds;
      regs := regs[RSP := regs[RSP] - 0x448];
      var sp := regs[RSP];
      StoreRegisters(0, 6);
      regs := regs[R11 := Load(mem, sp + 0x450)];
      mem := mem[sp + 0x130 := regs[R11]];
      StoreRegisters(6, |SAVED|);
      regs := regs[R11 := Load(mem, sp + 0x458)];
      mem := mem[sp + 0xe8 := regs[R11]];
      regs := regs[R11 := Load(mem, regs[R11])];
      mem := mem[sp + 0xf0 := regs[R11]];
      assert regs == SavedRegs(old(mem), old(regs));
      SavedHolds(old(mem), old(regs));
    }

    /** intercept_wrapper after the call: the registers come back from the stack. */
    method RestoreRegisters()
      modifies `regs
      ensures regs == RestoredRegs(old(regs), mem)
    {
      var sp := regs[RSP];
      regs := regs[R11 := regs[RDX]];
      for i := 0 to |RESTORED|
        invariant regs == RestoreSlots(old(regs), mem, i) && sp == old(regs)[RSP]
      {
        RestoredReg(i);
        regs := regs[RESTORED[i].reg := Load(mem, sp + RESTORED[i].off)];
      }
      regs := regs[RSP := sp + 0x448];
    }

    /** The call of the C routine that RCX chooses, with its context in RDI. */
    method CallRoutine(env: Env, cc: Compiled)
      modifies this
      ensures Snapshot() == CSide(env, cc, old(Snapshot())) && entries == old(entries) + 1
      ensures callRsp == old(regs)[RSP]
    {
      hide CallInContext, Decide, RoutineAnswers;
      callRsp := regs[RSP];
      var ctx, second := regs[RDI], regs[RCX] == 1;
      var after := cc.scratch(regs, mem);
      regs, mem, entries := after.0, after.1, entries + 1;
      if second {
        var ret, m := InterceptRoutinePostClone(env, ctx, mem);
        mem := m;
        regs := regs[RAX := ret.rax][RDX := ret.rdx];
      } else {
        var ret, m, calls := InterceptRoutine(env, ctx, regs, mem, trace);
        mem, trace := m, calls;
        regs := regs[RAX := ret.rax][RDX := ret.rdx];
      }
    }

    /** intercept_wrapper; RCX chooses the routine, which is called with RSP a multiple of 16. */
    method InterceptWrapper(env: Env, cc: Compiled)
      requires regs[RSP] % 16 == 8
      modifies this
      ensures Snapshot() == Wrapper(env, cc, old(Snapshot())) && entries == old(entries) + 1
      ensures callRsp % 16 == 0 && callRsp == old(regs)[RSP] - 0x448
    {
      hide Saved, SavedRegs, RestoredRegs, CSide;
      SaveRegisters();
      SavedAligned(old(mem), old(regs));
      // leaq 0xe8(%rsp), %rdi
      regs := regs[RDI := regs[RSP] + 0xe8];
      CallRoutine(env, cc);
      RestoreRegisters();
      // retq
      regs := regs[RSP := regs[RSP] + 8];
    }

    /** The template up to the call of intercept_wrapper. */
    method SetUpStack(patch: int, wrapper: int)
      modifies `regs, `mem
      ensures Snapshot() == SetUp(old(Snapshot()), patch, wrapper)
      ensures regs[RSP] % 16 == 8 && regs[RSP] + 0x18 <= old(regs)[RSP] - 0x80
      ensures Load(mem, regs[RSP] + 8) == old(regs)[RSP] && Load(mem, regs[RSP] + 0x10) == patch
    {
      regs := regs[R11 := regs[RSP]];
      regs := regs[RSP := regs[RSP] - 0x80];
      regs := regs[RSP := regs[RSP] - regs[RSP] % 16];
      regs := regs[RSP := regs[RSP] - 0x20];
      mem := mem[regs[RSP] := regs[R11]];
      regs := regs[R11 := patch];
      mem := mem[regs[RSP] + 8 := regs[R11]];
      regs := regs[R11 := wrapper];
      // callq *%r11
      regs := regs[RSP := regs[RSP] - 8];
      mem := mem[regs[RSP] := 0];
      assert regs == SetUp(old(Snapshot()), patch, wrapper).regs;
    }

    /** One pass through the template, from label 0 to the restored RSP. */
    method RunPass(env: Env, cc: Compiled, patch: int)
      modifies this
      ensures Snapshot() == Pass(env, cc, patch, old(Snapshot())) && entries == old(entries) + 1
      ensures callRsp % 16 == 0 && callRsp < old(regs)[RSP] - 0x80
    {
      hide SetUp, Wrapper;
      SetUpStack(patch, cc.wrapper);
      InterceptWrapper(env, cc);
      // movq (%rsp), %rsp
      regs := regs[RSP := Load(mem, regs[RSP])];
    }

    /** The syscall instruction; the kernel may resume the thread elsewhere. */
    method Syscall(k: Kernel) returns (resume: Option<int>)
      modifies `regs, `mem, `trace, `flags
      ensures Snapshot() == KernelStep(k, old(Snapshot()), 0) && resume == KernelResume(k, old(Snapshot()))
    {
      var s := State(regs, flags, mem, trace);
      resume := KernelResume(k, s);
      s := KernelStep(k, s, 0);
      regs, mem, trace, flags := s.regs, s.mem, s.trace, s.flags;
    }

    /**
     The template: a pass with RCX 0, then, as R11 says, nothing more, a syscall in the original context,
     or a syscall and another pass with RCX 1. `halted` stands for the hlt instruction.
     */
    method RunTemplate(env: Env, cc: Compiled, patch: int) returns (halted: bool, resume: Option<int>)
      modifies this
      ensures var o := Template(env, cc, patch, old(Snapshot())); Snapshot() == o.st && resume == o.resume
      ensures !halted && old(entries) < entries <= old(entries) + 2 && callRsp % 16 == 0
      ensures CConvention(cc) && Polite(env, cc, old(Snapshot())) ==>
        && SameHooked(env, old(Snapshot()), Snapshot(), old(regs)[RSP], FRAME_SIZE + cc.depth)
        && resume == HookedResume(env, old(Snapshot()))
        && trace == old(trace) + (if Reaches(env, old(Snapshot())) then [CallOf(old(regs))] else [])
        && regs[RAX] == Result(env, old(Snapshot()))
    {
      hide Pass, KernelStep, KernelResume, Polite, CConvention, SameHooked, HookedResume, Reaches, CallOf, Result;
      ghost var s, entries0 := Snapshot(), entries;
      ghost var goal := Template(env, cc, patch, s);
      ghost var t := Pass(env, cc, patch, s.(regs := s.regs[RCX := 0]));
      PassAnswers(env, cc, patch, s.(regs := s.regs[RCX := 0]));
      PassAnswers(env, cc, patch, Cloned(env, t));
      if CConvention(cc) && Polite(env, cc, s) {
        TemplateHolds(env, cc, patch, s);
        KernelReachedOnce(env, cc, patch, s);
      }
      halted, resume := false, None;
      regs := regs[RCX := 0];
      ghost var passes := 0;
      var again := true;
      while again
        invariant !halted && passes <= 2 && (passes > 0 ==> callRsp % 16 == 0) && (!again ==> passes > 0)
        invariant again ==> passes <= 1 && entries == entries0 + passes && resume == None
        invariant again && passes == 0 ==> Snapshot() == s.(regs := s.regs[RCX := 0])
        invariant again && passes == 1 ==>
          t.regs[R11] == 2 && KernelResume(env.kernel, t).None? && Snapshot() == Cloned(env, t)
        invariant !again ==> Snapshot() == goal.st && resume == goal.resume && entries == entries0 + goal.entries
        decreases again, 2 - passes
      {
        RunPass(env, cc, patch);
        if regs[R11] == 0 {
          resume := Syscall(env.kernel);
          again := false;
        } else if regs[R11] == 1 {
          again := false;
        } else if regs[R11] == 2 {
          resume := Syscall(env.kernel);
          if resume.Some? {
            again := false;
          } else {
            regs := regs[RCX := 1];
          }
        } else {
          halted := true;
          again := false;
        }
        passes := passes + 1;
      }
    }
  }
}
