/**
 Which syscalls get a NOP as a mini trampoline (is_nop_in_range and assign_nop_trampoline in
 src/patcher.c): one pass over the syscalls and the NOP table, both in address order, that
 never steps back. The result is a maximum matching.
 */
module NopMatching {
  import opened Disasm
  import opened Encoding

  /** is_nop_in_range: a short jump at `address` reaches the third byte of the NOP. */
  predicate IsNopInRange(address: int, nop: Range) {
    var dst := nop.address + 2;
    var src := address + 2;
    src - 128 <= dst <= src + 127
  }

  /** Exactly the NOPs in range can be reached: the jump to the third byte fits. */
  lemma InRangeIff(address: int, nop: Range)
    ensures IsNopInRange(address, nop) <==> ShortJumpFits(address, nop.address + 2)
    ensures IsNopInRange(address, nop) <==> ShortJumpReaches(address, nop.address + 2)
  {
    ShortJumpFitsIff(address, nop.address + 2);
  }

  /** assign_nop_trampoline: the NOP chosen for one syscall, if any, and the next NOP to consider. */
  function Assign(address: int, nops: seq<Range>, next: nat): (r: (Option<nat>, nat))
    requires next <= |nops|
    ensures next <= r.1 <= |nops|
    ensures r.0.Some? ==> next <= r.0.value < |nops| && r.1 == r.0.value + 1 && IsNopInRange(address, nops[r.0.value])
    decreases |nops| - next
  {
    if next >= |nops| then (None, next)
    else if IsNopInRange(address, nops[next]) then (Some(next), next + 1)
    else if nops[next].address > address then (None, next)
    else Assign(address, nops, next + 1)
  }

  /**
   What the scan from NOP `first` on finds for a syscall: the first NOP that a short jump reaches, all before
   it being out of reach and behind; or none, because the NOPs are used up or the next one is out of reach
   and ahead.
   */
  ghost predicate IsScan(address: int, nops: seq<Range>, first: nat, choice: Option<nat>, next: nat) {
    var stop := if choice.Some? then choice.value else next;
    && first <= stop <= |nops|
    && (forall n :: first <= n < stop ==> !ShortJumpFits(address, nops[n].address + 2) && nops[n].address <= address)
    && (choice.Some? ==> stop < |nops| && ShortJumpFits(address, nops[stop].address + 2) && next == stop + 1)
    && (choice.None? && stop < |nops| ==>
          !ShortJumpFits(address, nops[stop].address + 2) && nops[stop].address > address)
  }

  /** There is only one such answer, and it is the one that Assign gives. */
  lemma {:induction false} ScanIsAssign(address: int, nops: seq<Range>, first: nat, choice: Option<nat>, next: nat)
    requires first <= |nops|
    ensures IsScan(address, nops, first, choice, next) <==> (choice, next) == Assign(address, nops, first)
    decreases |nops| - first
  {
    if first < |nops| && !IsNopInRange(address, nops[first]) && nops[first].address <= address {
      ScanIsAssign(address, nops, first + 1, choice, next);
    }
  }

  ghost predicate Increasing(s: seq<int>) {
    forall i, j :: 0 <= i < j < |s| ==> s[i] < s[j]
  }

  ghost predicate IncreasingRanges(s: seq<Range>) {
    forall i, j :: 0 <= i < j < |s| ==> s[i].address < s[j].address
  }

  /** The pass over the syscalls from number i on, starting at NOP number j. */
  function Greedy(syscalls: seq<int>, nops: seq<Range>, i: nat, j: nat): (m: map<nat, nat>)
    requires i <= |syscalls| && j <= |nops|
    ensures forall k :: k in m ==> i <= k < |syscalls|
    decreases |syscalls| - i
  {
    if i == |syscalls| then map[]
    else
      var (choice, next) := Assign(syscalls[i], nops, j);
      var rest := Greedy(syscalls, nops, i + 1, next);
      if choice.Some? then rest[i := choice.value] else rest
  }

  /** m gives some of the syscalls from i on distinct NOPs in reach, from NOP number j on. */
  ghost predicate Matching(syscalls: seq<int>, nops: seq<Range>, i: nat, j: nat, m: map<nat, nat>) {
    && (forall k :: k in m ==>
          i <= k < |syscalls| && j <= m[k] < |nops| && ShortJumpFits(syscalls[k], nops[m[k]].address + 2))
    && (forall k, l :: k in m && l in m && k != l ==> m[k] != m[l])
  }

  lemma {:induction false} GreedyIsMatching(syscalls: seq<int>, nops: seq<Range>, i: nat, j: nat)
    requires i <= |syscalls| && j <= |nops|
    ensures Matching(syscalls, nops, i, j, Greedy(syscalls, nops, i, j))
    decreases |syscalls| - i
  {
    if i < |syscalls| {
      var (choice, next) := Assign(syscalls[i], nops, j);
      GreedyIsMatching(syscalls, nops, i + 1, next);
    }
  }

  /** A NOP that the scan skips is out of reach of this syscall and of every later one. */
  lemma {:induction false} SkippedNopsAreUseless(syscalls: seq<int>, nops: seq<Range>, i: nat, j: nat, k: nat, n: nat)
    requires Increasing(syscalls) && IncreasingRanges(nops)
    requires i <= k < |syscalls| && j <= |nops|
    requires j <= n < (var (choice, next) := Assign(syscalls[i], nops, j); if choice.Some? then choice.value else next)
    ensures !IsNopInRange(syscalls[k], nops[n])
    decreases |nops| - j
  {
    if j < n {
      SkippedNopsAreUseless(syscalls, nops, i, j + 1, k, n);
    } else {
      assert syscalls[i] <= syscalls[k];
    }
  }

  /** Removing the only pair that involves syscall i or NOP j. */
  lemma DropPair(syscalls: seq<int>, nops: seq<Range>, i: nat, j: nat, m: map<nat, nat>, k: nat)
    requires Matching(syscalls, nops, i, j, m)
    requires forall q :: q in m && q != k ==> q != i && m[q] != j
    ensures Matching(syscalls, nops, i + 1, j + 1, m - {k})
    ensures |m| <= |m - {k}| + 1
  {
    assert (m - {k}).Keys == m.Keys - {k};
  }

  /** If k holds NOP j and i another one, the NOP of i is in range of k as well. */
  lemma TakesOver(syscalls: seq<int>, nops: seq<Range>, i: nat, j: nat, m: map<nat, nat>, k: nat)
    requires Increasing(syscalls) && IncreasingRanges(nops)
    requires i < |syscalls| && j < |nops| && IsNopInRange(syscalls[i], nops[j])
    requires Matching(syscalls, nops, i, j, m)
    requires k != i && k in m && i in m && m[k] == j
    ensures i < k < |syscalls| && j < m[i] < |nops| && ShortJumpFits(syscalls[k], nops[m[i]].address + 2)
  {
    assert nops[j].address < nops[m[i]].address && syscalls[i] < syscalls[k];
  }

  /** So k can take it over. */
  lemma ExchangePair(syscalls: seq<int>, nops: seq<Range>, i: nat, j: nat, m: map<nat, nat>, k: nat)
    requires Increasing(syscalls) && IncreasingRanges(nops)
    requires i < |syscalls| && j < |nops| && IsNopInRange(syscalls[i], nops[j])
    requires Matching(syscalls, nops, i, j, m)
    requires k != i && k in m && i in m && m[k] == j
    ensures var rest := (m - {i})[k := m[i]]; Matching(syscalls, nops, i + 1, j + 1, rest) && |m| == |rest| + 1
  {
    hide Increasing, IncreasingRanges, IsNopInRange, ShortJumpFits;
    TakesOver(syscalls, nops, i, j, m, k);
    hide Matching;
    var rest := (m - {i})[k := m[i]];
    assert rest.Keys == m.Keys - {i};
    ExchangedIsMatching(syscalls, nops, i, j, m, k, rest);
  }

  lemma ExchangedIsMatching(syscalls: seq<int>, nops: seq<Range>, i: nat, j: nat, m: map<nat, nat>, k: nat,
                            rest: map<nat, nat>)
    requires Matching(syscalls, nops, i, j, m) && k in m && i in m && m[k] == j && rest == (m - {i})[k := m[i]]
    requires i < k < |syscalls| && j < m[i] < |nops| && ShortJumpFits(syscalls[k], nops[m[i]].address + 2)
    ensures Matching(syscalls, nops, i + 1, j + 1, rest)
  {
    hide ShortJumpFits;
    forall q | q in rest
      ensures i + 1 <= q < |syscalls| && j + 1 <= rest[q] < |nops|
      ensures ShortJumpFits(syscalls[q], nops[rest[q]].address + 2)
    {
      assert q in m && q != i && (q != k ==> rest[q] == m[q] && m[q] != m[k]);
    }
    forall q, r | q in rest && r in rest && q != r
      ensures rest[q] != rest[r]
    {
      assert q in m && r in m && q != i && r != i && m[q] != m[r] && m[q] != m[i] && m[r] != m[i];
    }
  }

  /** Once i and j are taken, at most one pair of any matching is lost. */
  lemma MatchingWithout(syscalls: seq<int>, nops: seq<Range>, i: nat, j: nat, m: map<nat, nat>)
    returns (rest: map<nat, nat>)
    requires Increasing(syscalls) && IncreasingRanges(nops)
    requires i < |syscalls| && j < |nops| && IsNopInRange(syscalls[i], nops[j])
    requires Matching(syscalls, nops, i, j, m)
    ensures Matching(syscalls, nops, i + 1, j + 1, rest) && |m| <= |rest| + 1
  {
    if k :| k in m && m[k] == j && k != i && i in m {
      ExchangePair(syscalls, nops, i, j, m, k);
      rest := (m - {i})[k := m[i]];
    } else if k :| k in m && m[k] == j && i !in m {
      DropPair(syscalls, nops, i, j, m, k);
      rest := m - {k};
    } else {
      DropPair(syscalls, nops, i, j, m, i);
      rest := m - {i};
    }
  }

  /** A NOP ahead of the syscall and out of its range: so are all later ones, and the syscall is left out. */
  lemma NothingForSyscall(syscalls: seq<int>, nops: seq<Range>, i: nat, j: nat, m: map<nat, nat>)
    requires IncreasingRanges(nops) && Matching(syscalls, nops, i, j, m) && i < |syscalls| && j < |nops|
    requires !IsNopInRange(syscalls[i], nops[j]) && nops[j].address > syscalls[i]
    ensures Matching(syscalls, nops, i + 1, j, m)
  {
    assert i !in m;
  }

  /** A NOP behind the syscall and out of its range is out of range of all later ones. */
  lemma NothingForNop(syscalls: seq<int>, nops: seq<Range>, i: nat, j: nat, m: map<nat, nat>)
    requires Increasing(syscalls) && Matching(syscalls, nops, i, j, m) && i < |syscalls| && j < |nops|
    requires !IsNopInRange(syscalls[i], nops[j]) && nops[j].address <= syscalls[i]
    ensures Matching(syscalls, nops, i, j + 1, m)
  {
    forall k | k in m
      ensures m[k] != j
    {
      assert k == i || syscalls[i] < syscalls[k];
    }
  }

  /** No assignment of distinct NOPs in reach to syscalls serves more syscalls than the greedy pass. */
  lemma {:induction false} GreedyIsMaximum(syscalls: seq<int>, nops: seq<Range>, i: nat, j: nat, m: map<nat, nat>)
    requires Increasing(syscalls) && IncreasingRanges(nops)
    requires i <= |syscalls| && j <= |nops|
    requires Matching(syscalls, nops, i, j, m)
    ensures |m| <= |Greedy(syscalls, nops, i, j)|
    decreases |syscalls| - i, |nops| - j
  {
    hide Matching, Greedy, Increasing, IncreasingRanges, IsNopInRange;
    if i == |syscalls| || j == |nops| {
      NothingLeft(syscalls, nops, i, j, m);
    } else {
      GreedyCases(syscalls, nops, i, j);
      if IsNopInRange(syscalls[i], nops[j]) {
        var rest := MatchingWithout(syscalls, nops, i, j, m);
        GreedyIsMaximum(syscalls, nops, i + 1, j + 1, rest);
      } else if nops[j].address > syscalls[i] {
        NothingForSyscall(syscalls, nops, i, j, m);
        GreedyIsMaximum(syscalls, nops, i + 1, j, m);
      } else {
        NothingForNop(syscalls, nops, i, j, m);
        GreedyIsMaximum(syscalls, nops, i, j + 1, m);
      }
    }
  }

  lemma NothingLeft(syscalls: seq<int>, nops: seq<Range>, i: nat, j: nat, m: map<nat, nat>)
    requires Matching(syscalls, nops, i, j, m) && (i == |syscalls| || j == |nops|)
    ensures |m| == 0
  {
    assert m.Keys == {};
  }

  /** The size of the greedy matching, one syscall or one NOP later. */
  lemma GreedyCases(syscalls: seq<int>, nops: seq<Range>, i: nat, j: nat)
    requires i < |syscalls| && j < |nops|
    ensures |Greedy(syscalls, nops, i, j)| ==
      if IsNopInRange(syscalls[i], nops[j]) then |Greedy(syscalls, nops, i + 1, j + 1)| + 1
      else if nops[j].address > syscalls[i] then |Greedy(syscalls, nops, i + 1, j)|
      else |Greedy(syscalls, nops, i, j + 1)|
  {
    hide Greedy, IsNopInRange;
    GreedySize(syscalls, nops, i, j);
    GreedySize(syscalls, nops, i, j + 1);
  }

  lemma GreedySize(syscalls: seq<int>, nops: seq<Range>, i: nat, j: nat)
    requires i < |syscalls| && j <= |nops|
    ensures
      var (choice, next) := Assign(syscalls[i], nops, j);
      |Greedy(syscalls, nops, i, j)| == |Greedy(syscalls, nops, i + 1, next)| + (if choice.Some? then 1 else 0)
  {
    var (choice, next) := Assign(syscalls[i], nops, j);
    if choice.Some? {
      var rest := Greedy(syscalls, nops, i + 1, next);
      assert Greedy(syscalls, nops, i, j).Keys == rest.Keys + {i};
    }
  }
}
