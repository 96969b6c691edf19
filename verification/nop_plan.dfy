/** The planner serves as many syscalls through NOPs as any assignment of distinct NOPs could. */
module NopPlan {
  import opened Disasm
  import opened Encoding
  import opened Listing
  import opened NopMatching
  import opened Plan

  ghost function Addresses(inp: Input): seq<int> {
    seq(|inp.items|, i requires 0 <= i < |inp.items| => inp.items[i].syscallAddr)
  }

  /** The patches from number i on that get a NOP. */
  ghost function ServedFrom(inp: Input, i: nat): set<nat> {
    set k: nat | i <= k < |inp.items| && Choice(inp, k).Some?
  }

  lemma {:induction false} PlannerIsGreedy(inp: Input, i: nat)
    requires i <= |inp.items|
    ensures Greedy(Addresses(inp), inp.nops, i, NextNop(inp, i)).Keys == ServedFrom(inp, i)
    decreases |inp.items| - i
  {
    hide Assign;
    if i < |inp.items| {
      PlannerIsGreedy(inp, i + 1);
      var more := if Choice(inp, i).Some? then {i} else {};
      assert ServedFrom(inp, i) == ServedFrom(inp, i + 1) + more;
    }
  }

  lemma AddressesIncrease(inp: Input, L: seq<Ins>, cap: nat)
    requires Gathered(inp, L, cap)
    ensures Increasing(Addresses(inp)) && IncreasingRanges(inp.nops)
  {
    hide PatchesOf, NopsOf;
    NopTableIncreasing(L, inp.start, inp.end, cap, inp.nops);
    PatchesComplete(L, |L|);
    SyscallIndicesComplete(L, |L|);
    var ks := SyscallIndices(L, |L|);
    forall i, j | 0 <= i < j < |inp.items|
      ensures Addresses(inp)[i] < Addresses(inp)[j]
    {
      assert ks[i] + 1 < ks[j] + 1;
      assert L[ks[i] + 1].address + L[ks[i] + 1].length <= L[ks[j] + 1].address;
    }
  }

  /** m gives some syscalls distinct NOPs of the table, each reached by some short jump in the syscall's place. */
  ghost predicate IsAssignment(inp: Input, m: map<nat, nat>) {
    && (forall k :: k in m ==>
          k < |inp.items| && m[k] < |inp.nops|
          && ShortJumpReaches(inp.items[k].syscallAddr, inp.nops[m[k]].address + 2))
    && (forall k, l :: k in m && l in m && k != l ==> m[k] != m[l])
  }

  /** The NOPs that the plan uses. */
  ghost function Chosen(inp: Input): map<nat, nat> {
    map i: nat | i < |inp.items| && Choice(inp, i).Some? :: Choice(inp, i).value
  }

  lemma ChoiceReaches(inp: Input, i: nat)
    requires i < |inp.items| && Choice(inp, i).Some?
    ensures ShortJumpReaches(inp.items[i].syscallAddr, inp.nops[Choice(inp, i).value].address + 2)
  {
    hide ShortJumpReaches;
    InRangeIff(inp.items[i].syscallAddr, inp.nops[Choice(inp, i).value]);
  }

  /** The plan is such an assignment. */
  lemma PlanIsAssignment(inp: Input)
    ensures IsAssignment(inp, Chosen(inp))
  {
    hide Choice, ShortJumpReaches;
    forall k: nat, l: nat | k < l < |inp.items| && Choice(inp, k).Some? && Choice(inp, l).Some?
      ensures Choice(inp, k).value != Choice(inp, l).value
    {
      ChoicesIncrease(inp, k, l);
    }
    forall k: nat | k < |inp.items| && Choice(inp, k).Some?
      ensures ShortJumpReaches(inp.items[k].syscallAddr, inp.nops[Choice(inp, k).value].address + 2)
    {
      ChoiceReaches(inp, k);
    }
  }

  lemma AssignmentIsMatching(inp: Input, m: map<nat, nat>)
    requires IsAssignment(inp, m)
    ensures Matching(Addresses(inp), inp.nops, 0, 0, m)
  {
    hide ShortJumpReaches, ShortJumpFits;
    forall k | k in m
      ensures k < |inp.items| && m[k] < |inp.nops|
      ensures ShortJumpFits(inp.items[k].syscallAddr, inp.nops[m[k]].address + 2)
    {
      ShortJumpFitsIff(inp.items[k].syscallAddr, inp.nops[m[k]].address + 2);
    }
  }

  /** No assignment beats the plan, whatever the text, gaps or not. */
  lemma PlanIsMaximum(inp: Input, L: seq<Ins>, cap: nat, m: map<nat, nat>)
    requires Gathered(inp, L, cap)
    requires IsAssignment(inp, m)
    ensures |m| <= |set i: nat | i < |inp.items| && Planned(inp, i).form.ViaNop?|
  {
    hide Gathered, Matching, Greedy, IsAssignment;
    AssignmentIsMatching(inp, m);
    AddressesIncrease(inp, L, cap);
    GreedyIsMaximum(Addresses(inp), inp.nops, 0, 0, m);
    PlannerIsGreedy(inp, 0);
    assert ServedFrom(inp, 0) == set i: nat | i < |inp.items| && Planned(inp, i).form.ViaNop?;
  }
}
