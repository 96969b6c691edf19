/**
 The C side of a hooked syscall (get_syscall_in_context, intercept_routine and
 intercept_routine_post_clone in src/intercept.c, syscall_no_intercept in src/util.S).
 */
module Hooking {
  import opened Bytes
  import opened Encoding
  import opened Machine

  /** What the routine calls: the magic syscall handler, the client's hooks and the kernel. */
  datatype Env = Env(
    magic: (Call, Mem) -> Option<int>,
    hook: Option<(Call, Mem, seq<Call>) -> (bool, int, Mem)>,
    cloned: (int, Mem) -> Mem,
    kernel: Kernel)

  // the fields of struct context
  const CTX_PATCH := 0x00
  const CTX_RIP := 0x08
  const CTX_R15 := 0x10
  const CTX_R14 := 0x18
  const CTX_R13 := 0x20
  const CTX_R12 := 0x28
  const CTX_R10 := 0x30
  const CTX_R9 := 0x38
  const CTX_R8 := 0x40
  const CTX_RSP := 0x48
  const CTX_RBP := 0x50
  const CTX_RDI := 0x58
  const CTX_RSI := 0x60
  const CTX_RBX := 0x68
  const CTX_RDX := 0x70
  const CTX_RAX := 0x78

  /**
   The hook's verdict on a call: does it go to the kernel, what is its result otherwise, and the memory
   afterwards.
   */
  function Verdict(env: Env, c: Call, m: Mem, trace: seq<Call>): (bool, int, Mem) {
    if env.hook.None? then (true, 0, m) else env.hook.value(c, m, trace)
  }

  // ----- syscall_no_intercept -----

  /** The registers at the syscall instruction: the C calling convention turned into that of the kernel. */
  method SyscallNoIntercept(regs: Regs, stackArg: int) returns (r: Regs)
    ensures CallOf(r) == Call(Signed(regs[RDI] % TWO_32, TWO_32),
                              [regs[RSI], regs[RDX], regs[RCX], regs[R8], regs[R9], stackArg])
  {
    r := regs;
    r := r[RAX := r[RDI]];
    r := r[RDI := r[RSI]];
    r := r[RSI := r[RDX]];
    r := r[RDX := r[RCX]];
    r := r[R10 := r[R8]];
    r := r[R8 := r[R9]];
    r := r[R9 := stackArg];
  }

  // ----- the routine -----

  /** The call described by a context in memory. */
  function CallInContext(m: Mem, ctx: int): (c: Call)
    ensures |c.args| == 6
  {
    Call(Signed(Load(m, ctx + CTX_RAX) % TWO_32, TWO_32),
         [Load(m, ctx + CTX_RDI), Load(m, ctx + CTX_RSI), Load(m, ctx + CTX_RDX), Load(m, ctx + CTX_R10),
          Load(m, ctx + CTX_R8), Load(m, ctx + CTX_R9)])
  }

  /** The routine's own test for clone and clone3 with a stack of their own. */
  predicate IsCloneWithStack(c: Call, m: Mem)
    requires |c.args| == 6
  {
    (c.nr == SYS_clone && c.args[1] != 0) || (c.nr == SYS_clone3 && Load(m, c.args[0] + 40) != 0)
  }

  /** The answer to the assembly code: the value for RAX, and 0, 1 or 2 in RDX. */
  datatype WrapperRet = WrapperRet(rax: int, rdx: int)

  /**
   What the routine decides about a call: no kernel call here (rdx 0 or 2, or the hook has handled the
   call), or the kernel's answer. `rax` reads the number to give back from the memory the hook leaves.
   */
  function Decide(env: Env, c: Call, rax: Mem -> int, m: Mem, trace: seq<Call>): (WrapperRet, Mem, seq<Call>)
    requires |c.args| == 6
  {
    var magic := env.magic(c, m);
    if magic.Some? then (WrapperRet(magic.value, 1), m, trace)
    else
      var (forward, result, m1) := Verdict(env, c, m, trace);
      if c.nr == SYS_vfork || c.nr == SYS_rt_sigreturn then (WrapperRet(rax(m1), 0), m1, trace)
      else if forward && IsCloneWithStack(c, m1) then (WrapperRet(rax(m1), 2), m1, trace)
      else if forward then
        var (value, m2) := env.kernel.serve(c, m1, trace);
        (WrapperRet(value, 1), m2, trace + [c])
      else (WrapperRet(result, 1), m1, trace)
  }

  /** The RAX slot of a context. */
  function SavedRax(ctx: int): Mem -> int {
    m => Load(m, ctx + CTX_RAX)
  }

  /** The call a context describes, by the offsets of struct context. */
  function Slots(m: Mem, ctx: int): (c: Call)
    ensures |c.args| == 6
  {
    var nr := Load(m, ctx + 0x78) % 0x1_0000_0000;
    Call(if nr < 0x8000_0000 then nr else nr - 0x1_0000_0000,
         [Load(m, ctx + 0x58), Load(m, ctx + 0x60), Load(m, ctx + 0x70), Load(m, ctx + 0x30),
          Load(m, ctx + 0x40), Load(m, ctx + 0x38)])
  }

  /**
   What is answered, told by the slots of the context and the numbers of the calls: 15 is rt_sigreturn, 58
   vfork, 56 clone and 435 clone3.
   */
  ghost predicate RoutineAnswers(env: Env, ctx: int, m: Mem, trace: seq<Call>, ret: WrapperRet, mem: Mem,
                                 calls: seq<Call>)
  {
    var c := Slots(m, ctx);
    var magic, v := env.magic(c, m), Verdict(env, c, m, trace);
    && (magic.Some? ==> ret == WrapperRet(magic.value, 1) && mem == m && calls == trace)
    && (magic.None? && c.nr !in {15, 58} && !v.0 ==> ret == WrapperRet(v.1, 1) && mem == v.2 && calls == trace)
    && (ret.rdx == 0 <==> magic.None? && c.nr in {15, 58})
    && (ret.rdx == 2 <==>
          && magic.None? && v.0
          && ((c.nr == 56 && Load(m, ctx + 0x60) != 0)
              || (c.nr == 435 && Load(v.2, Load(m, ctx + 0x58) + 40) != 0)))
    && (ret.rdx != 1 ==> ret.rax == Load(v.2, ctx + 0x78) && mem == v.2 && calls == trace)
    && (calls != trace ==>
          && calls == trace + [c] && ret.rdx == 1
          && (ret.rax, mem) == env.kernel.serve(c, v.2, trace) && !IsSpecial(c, v.2))
    && (magic.None? && v.0 && ret.rdx == 1 ==> calls == trace + [c])
  }

  /** intercept_routine; `regs` are the registers as the C code has them, ctx the address of the context. */
  method InterceptRoutine(env: Env, ctx: int, regs: Regs, m: Mem, trace: seq<Call>)
    returns (ret: WrapperRet, mem: Mem, calls: seq<Call>)
    ensures (ret, mem, calls) == Decide(env, CallInContext(m, ctx), SavedRax(ctx), m, trace)
    ensures RoutineAnswers(env, ctx, m, trace, ret, mem, calls)
  {
    mem, calls := m, trace;
    var nr := Signed(Load(m, ctx + CTX_RAX) % TWO_32, TWO_32);
    var args := [Load(m, ctx + CTX_RDI), Load(m, ctx + CTX_RSI), Load(m, ctx + CTX_RDX), Load(m, ctx + CTX_R10),
                 Load(m, ctx + CTX_R8), Load(m, ctx + CTX_R9)];
    var desc := Call(nr, args);
    var magic := env.magic(desc, mem);
    if magic.Some? {
      return WrapperRet(magic.value, 1), mem, calls;
    }
    var forward, result := true, 0;
    if env.hook.Some? {
      var v := env.hook.value(desc, mem, calls);
      forward, result, mem := v.0, v.1, v.2;
    }
    if nr == SYS_vfork || nr == SYS_rt_sigreturn {
      return WrapperRet(Load(mem, ctx + CTX_RAX), 0), mem, calls;
    }
    if forward {
      if (nr == SYS_clone && args[1] != 0) || (nr == SYS_clone3 && Load(mem, args[0] + 40) != 0) {
        return WrapperRet(Load(mem, ctx + CTX_RAX), 2), mem, calls;
      }
      // the call: six arguments in registers, the seventh on the stack
      var r := regs[RDI := nr][RSI := args[0]][RDX := args[1]][RCX := args[2]][R8 := args[3]][R9 := args[4]];
      r := SyscallNoIntercept(r, args[5]);
      var call := CallOf(r);
      assert call == desc;
      var answer := env.kernel.serve(call, mem, calls);
      result, mem, calls := answer.0, answer.1, calls + [call];
    }
    return WrapperRet(result, 1), mem, calls;
  }

  /** What the second routine does: the hook for the parent or the child, and the RAX slot as it is then. */
  function AfterClone(env: Env, ctx: int, m: Mem): (WrapperRet, Mem) {
    var m1 := env.cloned(Load(m, ctx + CTX_RAX), m);
    (WrapperRet(Load(m1, ctx + CTX_RAX), 1), m1)
  }

  /** intercept_routine_post_clone */
  method InterceptRoutinePostClone(env: Env, ctx: int, m: Mem) returns (ret: WrapperRet, mem: Mem)
    ensures (ret, mem) == AfterClone(env, ctx, m)
  {
    mem := env.cloned(Load(m, ctx + CTX_RAX), m);
    ret := WrapperRet(Load(mem, ctx + CTX_RAX), 1);
  }
}
