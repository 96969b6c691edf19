/**
 getdents over the shim's readdir (getdents_by_fsp_readdirs in examples/syscall_fsp.c).
 */
module FspGetdents {
  import opened Bytes
  import opened Encoding

  /** sizeof(struct linux_dirent): 8 + 8 + 2 + 1 + 256 bytes, padded to a multiple of 8. */
  const ENTRY_SIZE := 280
  const NAME_SIZE := 256

  /** One call fills no more than this. */
  const MOST := 9

  /** An entry of the backend; the name is its fixed-size array. */
  datatype Dirent = Dirent(ino: nat, kind: Byte, name: seq<Byte>)
  datatype LinuxDirent = LinuxDirent(ino: nat, off: nat, reclen: nat, kind: Byte, name: seq<Byte>)

  ghost predicate WellFormed(entries: seq<Dirent>) {
    forall i :: 0 <= i < |entries| ==> |entries[i].name| == NAME_SIZE && entries[i].name[NAME_SIZE - 1] == 0
  }

  /** An open directory: the stream of the backend, and fsp_readdir_done_cnt for its descriptor. */
  class Dir {
    const entries: seq<Dirent>
    var pos: nat
    var doneCount: nat

    /** fs_readdir: None at the end of the stream. */
    method Readdir() returns (entry: Option<Dirent>)
      requires pos <= |entries|
      modifies this`pos
      ensures if old(pos) < |entries| then entry == Some(entries[old(pos)]) && pos == old(pos) + 1
              else entry == None && pos == old(pos)
    {
      if pos < |entries| {
        entry := Some(entries[pos]);
        pos := pos + 1;
      } else {
        entry := None;
      }
    }
  }

  /** Entry i of the stream, as getdents should report it: nothing lost, and offsets counting from 1. */
  ghost function Reported(entries: seq<Dirent>, i: nat): LinuxDirent
    requires i < |entries|
  {
    LinuxDirent(entries[i].ino, i + 1, ENTRY_SIZE, entries[i].kind, entries[i].name)
  }

  ghost function ReportedRange(entries: seq<Dirent>, from: nat, to: nat): seq<LinuxDirent>
    requires from <= to <= |entries|
  {
    seq(to - from, i requires 0 <= i < to - from => Reported(entries, from + i))
  }

  /** How many entries a call with room for `count` bytes takes when `left` remain. */
  function Taken(count: nat, left: nat): nat {
    var most := if 0 < count / ENTRY_SIZE < MOST then count / ENTRY_SIZE else MOST;
    if left < most then left else most
  }

  /** One call: writes the next entries into the slots, and returns their size in bytes. */
  method Getdents(dir: Dir, slots: array<LinuxDirent>, count: nat) returns (bytes: nat)
    requires dir.pos == dir.doneCount <= |dir.entries| && WellFormed(dir.entries)
    requires count > 0 && Taken(count, |dir.entries| - dir.pos) <= slots.Length
    modifies dir, slots
    ensures var n := Taken(count, |dir.entries| - old(dir.pos));
      && bytes == n * ENTRY_SIZE
      && dir.pos == dir.doneCount == old(dir.pos) + n
      && slots[..n] == ReportedRange(dir.entries, old(dir.pos), dir.pos)
      && slots[n..] == old(slots[n..])
    ensures var left, n := |dir.entries| - old(dir.pos), bytes / 280;
      && bytes % 280 == 0 && n <= left && n <= 9 && (count >= 280 ==> bytes <= count)
      && (n == left || n == 9 || n == count / 280)
      && n <= slots.Length
      && forall i :: 0 <= i < n ==>
          var e := dir.entries[old(dir.pos) + i];
          slots[i] == LinuxDirent(e.ino, old(dir.pos) + i + 1, 280, e.kind, e.name)
  {
    ghost var first := dir.pos;
    ghost var goal := Taken(count, |dir.entries| - first);
    var done := 0;
    var more := true;
    while more
      invariant done <= goal && dir.pos == first + done && dir.doneCount == first
      invariant more ==> done < goal || dir.pos == |dir.entries|
      invariant !more ==> done == goal
      invariant forall i :: 0 <= i < done ==> slots[i] == Reported(dir.entries, first + i)
      invariant forall i :: done <= i < slots.Length ==> slots[i] == old(slots[i])
      decreases more, |dir.entries| - dir.pos
    {
      var entry := dir.Readdir();
      if entry.Some? {
        var name := entry.value.name[..NAME_SIZE - 1] + [0];
        assert name == entry.value.name;
        slots[done] := LinuxDirent(entry.value.ino, dir.doneCount + done + 1, ENTRY_SIZE, entry.value.kind, name);
        done := done + 1;
        if done == count / ENTRY_SIZE || done > 8 {
          more := false;
        }
      } else {
        more := false;
      }
    }
    dir.doneCount := dir.doneCount + done;
    bytes := done * ENTRY_SIZE;
    assert slots[..done] == ReportedRange(dir.entries, first, dir.pos);
  }

  /** A call stays inside the caller's buffer exactly when it has room for an entry or nothing is left. */
  lemma InsideIff(count: nat, left: nat)
    ensures Taken(count, left) * ENTRY_SIZE <= count <==> count >= ENTRY_SIZE || left == 0
  {
  }

  /** The smallest call that does not: one byte of room, nine entries written. */
  lemma TooSmallOverruns()
    ensures Taken(1, 9) * ENTRY_SIZE == 2520
  {
  }

  // ----- runs of calls -----

  /** Where the stream stands after calls with these sizes. */
  ghost function After(size: nat, pos: nat, counts: seq<nat>): (end: nat)
    requires pos <= size
    ensures pos <= end <= size
    decreases |counts|
  {
    if |counts| == 0 then pos else After(size, pos + Taken(counts[0], size - pos), counts[1..])
  }

  /** What the calls return, one after the other. */
  ghost function Stream(entries: seq<Dirent>, pos: nat, counts: seq<nat>): seq<LinuxDirent>
    requires pos <= |entries|
    decreases |counts|
  {
    if |counts| == 0 then [] else
      var next := pos + Taken(counts[0], |entries| - pos);
      ReportedRange(entries, pos, next) + Stream(entries, next, counts[1..])
  }

  /** The calls return the stream of the directory in order: no entry lost, repeated or renumbered. */
  lemma {:induction false} StreamIsDirectory(entries: seq<Dirent>, pos: nat, counts: seq<nat>)
    requires pos <= |entries|
    ensures Stream(entries, pos, counts) == ReportedRange(entries, pos, After(|entries|, pos, counts))
    decreases |counts|
  {
    if |counts| > 0 {
      var next := pos + Taken(counts[0], |entries| - pos);
      StreamIsDirectory(entries, next, counts[1..]);
    }
  }

  /** Every call before the end makes progress, so as many calls as there are entries reach the end. */
  lemma {:induction false} EnoughCalls(size: nat, pos: nat, counts: seq<nat>)
    requires pos <= size && |counts| >= size - pos
    ensures After(size, pos, counts) == size
    decreases |counts|
  {
    if |counts| > 0 {
      EnoughCalls(size, pos + Taken(counts[0], size - pos), counts[1..]);
    }
  }
}
