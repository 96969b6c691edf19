/**
 Which syscall the C side is told about: the template of a patch names its description, and the first word
 of a description is the address of the syscall (struct patch_desc in src/intercept.h).
 */
module Reporting {
  import opened Bytes
  import opened WrapperCode
  import opened Machine
  import opened Simulation
  import opened SimulationRun
  import opened WrapperFrame
  import opened WrapperProtocol

  /** The registers and the memory when the C routine starts, after one pass up to there. */
  ghost function EnteredC(cc: Compiled, patch: int, s: State): (Regs, Mem) {
    var t := SetUp(s, patch, cc.wrapper);
    var regs := SavedRegs(t.mem, t.regs);
    cc.scratch(regs[RDI := regs[RSP] + 0xe8], Saved(t.mem, t.regs).0)
  }

  /** Where it finds its context. */
  ghost function ContextAt(cc: Compiled, patch: int, s: State): int {
    var t := SetUp(s, patch, cc.wrapper);
    SavedRegs(t.mem, t.regs)[RSP] + 0xe8
  }

  /** A word that the two layers and the stack setup do not write. */
  predicate OutsideFrame(s: State, a: int) {
    !(s.regs[RSP] - 0x80 - FRAME_SIZE <= a < s.regs[RSP] - 0x80)
  }

  /** The context holds the description's address, and its first word where the source has RIP. */
  lemma ContextNamesDescription(cc: Compiled, patch: int, s: State)
    requires CConvention(cc) && OutsideFrame(s, patch)
    ensures var m, ctx := EnteredC(cc, patch, s).1, ContextAt(cc, patch, s);
      Load(m, ctx + 0) == patch && Load(m, ctx + 8) == Load(s.mem, patch)
  {
    hide CConvention, SetUp, Saved, SameMem;
    SetUpHolds(s, patch, cc.wrapper);
    var t := SetUp(s, patch, cc.wrapper);
    SavedAligned(t.mem, t.regs);
    SavedIsContext(t.mem, t.regs);
    SameMemAt(s.mem, t.mem, s.regs[RSP] - 0x80 - 0x28 - 15, s.regs[RSP] - 0x80, patch);
    var regs := SavedRegs(t.mem, t.regs);
    AboveStack(cc, regs[RDI := regs[RSP] + 0xe8], Saved(t.mem, t.regs).0, regs[RSP] + 0xe8);
    AboveStack(cc, regs[RDI := regs[RSP] + 0xe8], Saved(t.mem, t.regs).0, regs[RSP] + 0xf0);
  }

  lemma AboveStack(cc: Compiled, regs: Regs, m: Mem, a: int)
    requires CConvention(cc) && regs[RSP] % 16 == 0 && regs[RSP] <= a
    ensures Load(cc.scratch(regs, m).1, a) == Load(m, a)
  {
  }

  /** The array of descriptions is in memory, inside the address space; each starts with a syscall's address. */
  ghost predicate DescriptionsHeld(su: Setup, m: Mem) {
    && 0 < su.g.itemSize && su.g.items + |su.r.ps| * su.g.itemSize < TWO_64
    && (forall i :: 0 <= i < |su.r.ps| ==> Load(m, su.g.items + i * su.g.itemSize) == su.r.ps[i].syscallAddr)
  }

  /**
   Each patch reports its own syscall: the C routine entered through the template installed for patch i
   finds the address of that syscall in the context, and the address of its description.
   */
  lemma ReportsOwnSyscall(su: Setup, cc: Compiled, i: nat, s: State)
    requires Installed(su) && i < |su.r.ps| && CConvention(cc) && DescriptionsHeld(su, s.mem)
    requires OutsideFrame(s, su.g.items + i * su.g.itemSize)
    ensures var patch := LoadedAt(su.code1, TemplateAt(su.r.ps[i]) + su.g.descAt);
      var m, ctx := EnteredC(cc, patch, s).1, ContextAt(cc, patch, s);
      && Load(m, ctx + 0) == su.g.items + i * su.g.itemSize
      && Load(m, ctx + 8) == su.r.ps[i].syscallAddr
  {
    hide Installed, CConvention, LoadedAt, EnteredC, ContextAt, TemplateAt;
    TemplateAddresses(su, i);
    DescriptionsDiffer(su.g, i, |su.r.ps|);
    ContextNamesDescription(cc, su.g.items + i * su.g.itemSize, s);
  }

  /** So two patches never name the same description. */
  lemma TemplatesDiffer(su: Setup, i: nat, j: nat)
    requires Installed(su) && i < j < |su.r.ps| && 0 < su.g.itemSize
    requires su.g.items + |su.r.ps| * su.g.itemSize < TWO_64
    ensures LoadedAt(su.code1, TemplateAt(su.r.ps[i]) + su.g.descAt)
         != LoadedAt(su.code1, TemplateAt(su.r.ps[j]) + su.g.descAt)
  {
    hide Installed, LoadedAt, TemplateAt;
    TemplateAddresses(su, i);
    TemplateAddresses(su, j);
    DescriptionsDiffer(su.g, j, |su.r.ps|);
    DescriptionsDiffer(su.g, i, j);
  }
}
