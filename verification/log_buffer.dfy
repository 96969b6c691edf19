/**
 The lock-free log buffer of the example logger (append_buffer and exchange_buffer_offset in
 examples/syscall_logger.c), as a state machine over the atomic steps of any number of threads.
 */
module LogBuffer {
  import opened Bytes

  const SIZE := 0x2000000
  const DUMP_THRESHOLD := SIZE - 0x1000

  /** The longest append that stays inside the buffer in every run. */
  const LONGEST := SIZE - DUMP_THRESHOLD + 1

  /**
   Where a thread is in append_buffer:
   Ready has read `offset`; Entered has incremented `writers`; Failed has lost the exchange and has the
   offset it saw; Copying has won it and has copied `done` bytes; Copied has copied everything; Spinning
   waits for `writers` to become zero; Writing has seen it at zero; Resetting has written the file.
   */
  datatype Pc =
    | Idle
    | Ready(data: seq<Byte>, offset: nat)
    | Entered(data: seq<Byte>, offset: nat)
    | Failed(data: seq<Byte>, offset: nat)
    | Copying(data: seq<Byte>, offset: nat, done: nat)
    | Copied(data: seq<Byte>, offset: nat)
    | Spinning
    | Writing
    | Resetting

  /**
   The shared state: `buffer` holds the bytes written so far, by index, in or out of bounds.
   `log` and `wins` are history: all data whose exchange was won, in that order, and how many there were.
   */
  datatype State = State(
    threads: map<nat, Pc>, offset: nat, writers: int, buffer: map<int, Byte>, file: seq<Byte>,
    log: seq<Byte>, wins: nat)

  predicate Initial(s: State) {
    && s.offset == 0 && s.writers == 0 && s.buffer == map[] && s.file == [] && s.log == [] && s.wins == 0
    && forall t :: t in s.threads ==> s.threads[t] == Idle
  }

  function At(s: State, t: nat, pc: Pc): State {
    s.(threads := s.threads[t := pc])
  }

  /** What the write syscall sees: the buffer up to its offset. */
  function Contents(s: State): seq<Byte> {
    seq(s.offset, i requires 0 <= i < s.offset => if i in s.buffer then s.buffer[i] else 0)
  }

  /** The states after one atomic step of thread t; appends carry at most `max` bytes. */
  ghost predicate Step(max: nat, s: State, s': State, t: nat) {
    && t in s.threads
    && match s.threads[t]
       case Idle => exists data :: |data| <= max && s' == At(s, t, Ready(data, s.offset))
       case Ready(data, offset) =>
         if offset >= DUMP_THRESHOLD then s' == At(s, t, Ready(data, s.offset))
         else s' == At(s, t, Entered(data, offset)).(writers := s.writers + 1)
       case Entered(data, offset) =>
         if offset == s.offset then
           s' == At(s, t, Copying(data, offset, 0)).(offset := offset + |data|, log := s.log + data, wins := s.wins + 1)
         else s' == At(s, t, Failed(data, s.offset))
       case Failed(data, offset) => s' == At(s, t, Ready(data, offset)).(writers := s.writers - 1)
       case Copying(data, offset, done) =>
         if done < |data| then
           s' == At(s, t, Copying(data, offset, done + 1)).(buffer := s.buffer[offset + done := data[done]])
         else s' == At(s, t, Copied(data, offset))
       case Copied(data, offset) =>
         s' == At(s, t, if offset + |data| > DUMP_THRESHOLD then Spinning else Idle)
       case Spinning => if s.writers != 0 then s' == s else s' == At(s, t, Writing)
       case Writing => s' == At(s, t, Resetting).(file := s.file + Contents(s))
       case Resetting => s' == At(s, t, Idle).(offset := 0)
  }

  ghost predicate Next(max: nat, s: State, s': State) {
    exists t :: Step(max, s, s', t)
  }

  ghost predicate IsRun(max: nat, run: seq<State>) {
    && |run| > 0 && Initial(run[0])
    && forall i, j :: 0 <= i && j == i + 1 && j < |run| ==> Next(max, run[i], run[j])
  }

  ghost predicate Reachable(max: nat, s: State) {
    exists run :: IsRun(max, run) && run[|run| - 1] == s
  }

  // ----- what every step keeps -----

  /** Threads whose increment of `writers` will be taken back if they lose the exchange. */
  ghost function Pending(s: State): set<nat> {
    set t | t in s.threads && (s.threads[t].Entered? || s.threads[t].Failed?)
  }

  /** The thread won an exchange and has not left the copy. */
  predicate Holds(pc: Pc) {
    pc.Copying? || pc.Copied?
  }

  /** Byte p is reserved by a thread that has yet to copy it. */
  predicate Owes(pc: Pc, p: int) {
    pc.Copying? && pc.offset + pc.done <= p < pc.offset + |pc.data|
  }

  predicate InPlace(log: seq<Byte>, data: seq<Byte>, offset: nat) {
    offset + |data| <= |log| && log[offset..offset + |data|] == data
  }

  predicate PcOk(max: nat, s: State, pc: Pc) {
    match pc
    case Ready(data, _) => |data| <= max
    case Entered(data, offset) => |data| <= max && offset < DUMP_THRESHOLD
    case Failed(data, _) => |data| <= max
    case Copying(data, offset, done) => done <= |data| && InPlace(s.log, data, offset) && s.wins > 0
    case Copied(data, offset) => InPlace(s.log, data, offset) && s.wins > 0
    case Spinning => s.wins > 0
    case Writing => false
    case Resetting => false
    case Idle => true
  }

  ghost predicate ThreadsOk(max: nat, s: State) {
    forall t :: t in s.threads ==> PcOk(max, s, s.threads[t])
  }

  /** No two reservations being filled overlap. */
  ghost predicate Apart(s: State) {
    forall t, u :: t in s.threads && u in s.threads && t != u && Holds(s.threads[t]) && Holds(s.threads[u]) ==>
      || s.threads[t].offset + |s.threads[t].data| <= s.threads[u].offset
      || s.threads[u].offset + |s.threads[u].data| <= s.threads[t].offset
  }

  /** Every byte in the buffer is the byte of the log at that index. */
  ghost predicate Faithful(s: State) {
    forall p :: p in s.buffer ==> 0 <= p < |s.log| && s.buffer[p] == s.log[p]
  }

  ghost predicate Owed(s: State, p: int) {
    exists t :: t in s.threads && Owes(s.threads[t], p)
  }

  /** Every byte of the log is in the buffer or owed by a thread. */
  ghost predicate NoGap(s: State) {
    forall p :: 0 <= p < |s.log| ==> p in s.buffer || Owed(s, p)
  }

  ghost predicate Inv(max: nat, s: State) {
    && s.offset == |s.log|
    && |s.log| < DUMP_THRESHOLD + max
    && s.writers == |Pending(s)| + s.wins
    && s.file == []
    && ThreadsOk(max, s) && Apart(s) && Faithful(s) && NoGap(s)
  }

  function Weight(pc: Pc): int {
    if pc.Entered? || pc.Failed? then 1 else 0
  }

  lemma PendingMoves(s: State, s': State, t: nat, pc: Pc)
    requires t in s.threads && s'.threads == s.threads[t := pc]
    ensures |Pending(s')| == |Pending(s)| - Weight(s.threads[t]) + Weight(pc)
  {
    var others := Pending(s) - {t};
    assert Pending(s) == if Weight(s.threads[t]) == 1 then others + {t} else others;
    assert Pending(s') == if Weight(pc) == 1 then others + {t} else others;
  }

  lemma PendingStep(max: nat, s: State, s': State, t: nat)
    requires s.writers == |Pending(s)| + s.wins && Step(max, s, s', t)
    ensures s'.writers == |Pending(s')| + s'.wins
  {
    hide Pending, Contents;
    if s' != s {
      PendingMoves(s, s', t, s'.threads[t]);
    }
  }

  /** What is known of a thread survives the steps of the others. */
  lemma OtherThread(max: nat, s: State, s': State, t: nat, pc: Pc)
    requires Step(max, s, s', t) && PcOk(max, s, pc)
    ensures PcOk(max, s', pc)
  {
    if Holds(pc) {
      assert s'.log[pc.offset..pc.offset + |pc.data|] == s.log[pc.offset..pc.offset + |pc.data|];
    }
  }

  lemma OwnThread(max: nat, s: State, s': State, t: nat)
    requires Step(max, s, s', t) && PcOk(max, s, s.threads[t])
    requires s.writers >= s.wins && s.offset == |s.log|
    ensures PcOk(max, s', s'.threads[t])
  {
  }

  lemma ThreadsStep(max: nat, s: State, s': State, t: nat)
    requires Inv(max, s) && Step(max, s, s', t)
    ensures ThreadsOk(max, s')
  {
    hide Apart, Faithful, NoGap, PcOk, Contents;
    forall u | u in s'.threads
      ensures PcOk(max, s', s'.threads[u])
    {
      if u == t {
        OwnThread(max, s, s', t);
      } else {
        OtherThread(max, s, s', t, s.threads[u]);
      }
    }
  }

  lemma ApartStep(max: nat, s: State, s': State, t: nat)
    requires Inv(max, s) && Step(max, s, s', t)
    ensures Apart(s')
  {
    hide Faithful, NoGap, Pending;
    forall u, v | u in s'.threads && v in s'.threads && u != v && Holds(s'.threads[u]) && Holds(s'.threads[v])
      ensures || s'.threads[u].offset + |s'.threads[u].data| <= s'.threads[v].offset
              || s'.threads[v].offset + |s'.threads[v].data| <= s'.threads[u].offset
    {
      assert PcOk(max, s, s.threads[u]) && PcOk(max, s, s.threads[v]);
    }
  }

  lemma FaithfulStep(max: nat, s: State, s': State, t: nat)
    requires Inv(max, s) && Step(max, s, s', t)
    ensures Faithful(s')
  {
    hide Apart, NoGap, Pending;
    assert PcOk(max, s, s.threads[t]);
    if s.threads[t].Copying? {
      var data, offset, done := s.threads[t].data, s.threads[t].offset, s.threads[t].done;
      if done < |data| {
        assert s.log[offset..offset + |data|][done] == s.log[offset + done];
      }
    }
  }

  lemma NoGapStep(max: nat, s: State, s': State, t: nat)
    requires Inv(max, s) && Step(max, s, s', t)
    ensures NoGap(s')
  {
    hide Apart, Faithful, Pending;
    assert PcOk(max, s, s.threads[t]);
    forall p | 0 <= p < |s'.log| && p !in s'.buffer
      ensures Owed(s', p)
    {
      if p < |s.log| {
        assert Owed(s, p);
        var u :| u in s.threads && Owes(s.threads[u], p);
        assert u in s'.threads && Owes(s'.threads[u], p);
      } else {
        assert Owes(s'.threads[t], p);
      }
    }
  }

  lemma InvStep(max: nat, s: State, s': State)
    requires Inv(max, s) && Next(max, s, s')
    ensures Inv(max, s')
  {
    var t :| Step(max, s, s', t);
    assert PcOk(max, s, s.threads[t]);
    PendingStep(max, s, s', t);
    ThreadsStep(max, s, s', t);
    ApartStep(max, s, s', t);
    FaithfulStep(max, s, s', t);
    NoGapStep(max, s, s', t);
  }

  lemma {:induction false} InvRun(max: nat, run: seq<State>, n: nat)
    requires IsRun(max, run) && n < |run|
    ensures Inv(max, run[n])
  {
    if n == 0 {
      assert Pending(run[0]) == {};
    } else {
      InvRun(max, run, n - 1);
      InvStep(max, run[n - 1], run[n]);
    }
  }

  // ----- the protocol's guarantees -----

  /**
   In every state of every run the reservations won so far tile the buffer up to its offset:
   a byte below the offset is either in place, with the value logged for it, or owed by exactly one thread.
   */
  lemma ReservationsTile(max: nat, run: seq<State>, n: nat, p: int)
    requires IsRun(max, run) && n < |run|
    ensures var s := run[n];
      && s.offset == |s.log|
      && (p in s.buffer ==> 0 <= p < s.offset && s.buffer[p] == s.log[p])
      && (0 <= p < s.offset ==> p in s.buffer || Owed(s, p))
      && (Owed(s, p) ==> 0 <= p < s.offset)
      && forall t, u :: t in s.threads && u in s.threads && Owes(s.threads[t], p) && Owes(s.threads[u], p) ==> t == u
  {
    hide Pending;
    InvRun(max, run, n);
    var s := run[n];
    if Owed(s, p) {
      var t :| t in s.threads && Owes(s.threads[t], p);
      assert PcOk(max, s, s.threads[t]);
    }
  }

  /** When no thread is copying, the buffer holds the appended data in the order of the exchanges, and nothing else. */
  lemma QuietBufferIsLog(max: nat, run: seq<State>, n: nat)
    requires IsRun(max, run) && n < |run|
    requires forall t :: t in run[n].threads ==> !run[n].threads[t].Copying?
    ensures Contents(run[n]) == run[n].log
  {
    hide Apart, Faithful, Pending;
    InvRun(max, run, n);
    var s := run[n];
    forall p | 0 <= p < s.offset
      ensures p in s.buffer && s.buffer[p] == s.log[p]
    {
      ReservationsTile(max, run, n, p);
    }
  }

  /**
   The success path never decrements `writers`, so a thread that waits for it to become zero waits forever:
   in no run is the file written or the offset reset.
   */
  lemma FlushNeverHappens(max: nat, run: seq<State>, n: nat, t: nat)
    requires IsRun(max, run) && n < |run| && t in run[n].threads
    ensures run[n].file == []
    ensures !run[n].threads[t].Writing? && !run[n].threads[t].Resetting?
    ensures run[n].threads[t].Spinning? ==> run[n].writers > 0
    ensures run[n].writers >= run[n].wins
  {
    hide Apart, Faithful, NoGap;
    InvRun(max, run, n);
    assert PcOk(max, run[n], run[n].threads[t]);
  }

  /** From the state in which the offset reaches the threshold on, no append succeeds any more. */
  lemma {:induction false} LogIsFrozen(max: nat, run: seq<State>, m: nat, n: nat)
    requires IsRun(max, run) && m <= n < |run| && run[m].offset >= DUMP_THRESHOLD
    ensures run[n].log == run[m].log && run[n].offset == run[m].offset
  {
    hide Apart, Faithful, NoGap, Pending;
    if m < n {
      LogIsFrozen(max, run, m, n - 1);
      InvRun(max, run, n - 1);
      var t :| Step(max, run[n - 1], run[n], t);
      assert PcOk(max, run[n - 1], run[n - 1].threads[t]);
    }
  }

  /** Appends of at most 0x1001 bytes never write past the buffer. */
  lemma ShortAppendsStayInside(max: nat, s: State)
    requires max <= 0x1001 && Reachable(max, s)
    ensures forall p :: p in s.buffer ==> 0 <= p < 0x2000000
    ensures s.offset <= 0x2000000
  {
    hide Apart, NoGap, Pending;
    var run :| IsRun(max, run) && run[|run| - 1] == s;
    InvRun(max, run, |run| - 1);
  }

  // ----- the bound is exact -----

  lemma ReachableNext(max: nat, s: State, s': State, t: nat)
    requires Reachable(max, s) && Step(max, s, s', t)
    ensures Reachable(max, s')
  {
    var run :| IsRun(max, run) && run[|run| - 1] == s;
    var longer := run + [s'];
    forall i, j | 0 <= i && j == i + 1 && j < |longer|
      ensures Next(max, longer[i], longer[j])
    {
      if j < |run| {
        assert Next(max, run[i], run[j]);
      }
    }
    assert IsRun(max, longer);
  }

  /** A thread alone copies what it reserved. */
  lemma {:induction false} CopyAlone(max: nat, s: State, t: nat) returns (s': State)
    requires Reachable(max, s) && t in s.threads && s.threads[t].Copying?
    requires s.threads[t].done <= |s.threads[t].data|
    ensures Reachable(max, s') && s'.offset == s.offset
    ensures t in s'.threads && s'.threads[t] == Copied(s.threads[t].data, s.threads[t].offset)
    ensures forall p :: Owes(s.threads[t], p) ==> p in s'.buffer
    ensures forall p :: p in s.buffer ==> p in s'.buffer
    decreases |s.threads[t].data| - s.threads[t].done
  {
    var data, offset, done := s.threads[t].data, s.threads[t].offset, s.threads[t].done;
    if done == |data| {
      s' := At(s, t, Copied(data, offset));
      ReachableNext(max, s, s', t);
    } else {
      var s1 := At(s, t, Copying(data, offset, done + 1)).(buffer := s.buffer[offset + done := data[done]]);
      ReachableNext(max, s, s1, t);
      s' := CopyAlone(max, s1, t);
      forall p | Owes(s.threads[t], p)
        ensures p in s'.buffer
      {
        assert p == offset + done || Owes(s1.threads[t], p);
      }
    }
  }

  /** A thread alone appends its data. */
  lemma AppendAlone(max: nat, s: State, t: nat, data: seq<Byte>) returns (s': State)
    requires Reachable(max, s) && t in s.threads && s.threads[t].Idle? && |data| <= max && s.offset < DUMP_THRESHOLD
    ensures Reachable(max, s') && s'.offset == s.offset + |data|
    ensures t in s'.threads && s'.threads[t] == Copied(data, s.offset)
    ensures forall p :: s.offset <= p < s.offset + |data| ==> p in s'.buffer
  {
    var s1 := At(s, t, Ready(data, s.offset));
    ReachableNext(max, s, s1, t);
    var s2 := At(s1, t, Entered(data, s.offset)).(writers := s1.writers + 1);
    ReachableNext(max, s1, s2, t);
    var s3 := At(s2, t, Copying(data, s.offset, 0))
      .(offset := s.offset + |data|, log := s2.log + data, wins := s2.wins + 1);
    ReachableNext(max, s2, s3, t);
    s' := CopyAlone(max, s3, t);
    forall p | s.offset <= p < s.offset + |data|
      ensures p in s'.buffer
    {
      assert Owes(s3.threads[t], p);
    }
  }

  /** One-byte appends bring the offset to any value below the threshold. */
  lemma {:induction false} FillTo(max: nat, n: nat) returns (s: State)
    requires max > 0 && n < DUMP_THRESHOLD
    ensures Reachable(max, s) && s.offset == n && 0 in s.threads && s.threads[0].Idle?
  {
    if n == 0 {
      s := State(map[0 := Idle], 0, 0, map[], [], [], 0);
      assert IsRun(max, [s]);
      assert [s][|[s]| - 1] == s;
    } else {
      var s1 := FillTo(max, n - 1);
      var s2 := AppendAlone(max, s1, 0, [0]);
      s := At(s2, 0, Idle);
      ReachableNext(max, s2, s, 0);
    }
  }

  /** The longest safe append, exactly: longer ones are written past the buffer in some run. */
  lemma StaysInsideIff(max: nat)
    ensures max <= 0x1001 <==> forall s, p :: Reachable(max, s) && p in s.buffer ==> 0 <= p < 0x2000000
  {
    if max <= LONGEST {
      forall s, p | Reachable(max, s) && p in s.buffer
        ensures 0 <= p < SIZE
      {
        ShortAppendsStayInside(max, s);
      }
    } else {
      var s := FillTo(max, DUMP_THRESHOLD - 1);
      var data: seq<Byte> := seq(LONGEST + 1, i => 0);
      var s' := AppendAlone(max, s, 0, data);
      assert Reachable(max, s') && SIZE in s'.buffer;
    }
  }
}
