/**
 Progress of memBuffer: one goroutine writes a payload, another keeps reading into
 non-empty buffers, and nobody closes the buffer or sets a deadline.  Every step of
 either of them, whatever the scheduling, lowers one measure, and they only run out
 of steps once the whole payload has been delivered.
 */
module Transfer {
  import opened Common
  import opened MemBuffer
  import opened Stream

  const WRITER: nat := 0
  const READER: nat := 1

  function Start(payload: seq<byte>): State {
    INITIAL.(threads := map[WRITER := Writing(0)], calls := [Call(payload, 0, InFlight)])
  }

  /** The steps of the two goroutines; the reader calls `read` again and again. */
  predicate Theirs(l: Label) {
    match l
    case Run(t, _, _, _) => t == WRITER || t == READER
    case Wake(t) => t == WRITER || t == READER
    case Expire(t, _) => t == WRITER || t == READER
    case StartRead(t, want) => t == READER && want > 0
    case _ => false
  }

  predicate ReaderAt(threads: map<nat, Thread>) {
    READER in threads ==>
      match threads[READER]
      case Reading(want) => want > 0
      case ReadWaiting(want, _, until) => want > 0 && until == NoDeadline
      case _ => false
  }

  predicate WriterAt(threads: map<nat, Thread>, call: Call) {
    match call.status
    case InFlight =>
      && WRITER in threads
      && (match threads[WRITER]
          case Writing(c) => c == 0
          case WriteWaiting(c, _, until) => c == 0 && until == NoDeadline
          case _ => false)
    case Complete => WRITER !in threads
    case Cut(_) => false
  }

  predicate Open(b: Buf) {
    !b.readClosed && !b.writeClosed && b.readDeadline == NoDeadline && b.writeDeadline == NoDeadline
  }

  ghost predicate Underway(s: State, payload: seq<byte>) {
    && Inv(s)
    && Open(s.buf)
    && |s.calls| == 1 && s.calls[0].payload == payload
    && s.threads.Keys <= {WRITER, READER}
    && ReaderAt(s.threads)
    && WriterAt(s.threads, s.calls[0])
  }

  /** How far goroutine t is from parking: 2 when it has been woken, 1 when it runs, 0 when parked. */
  function Rank(threads: map<nat, Thread>, t: nat, changed: nat, absent: nat): nat {
    if t !in threads then absent
    else if !Waiting(threads[t]) then 1
    else if threads[t].channel < changed then 2
    else 0
  }

  ghost function Measure(s: State): nat
    requires Inv(s) && |s.calls| == 1
  {
    var c := s.calls[0];
    assert Sound(c);
    4 * (2 * (|c.payload| - c.written) + |s.buf.data|)
      + Rank(s.threads, WRITER, s.buf.changed, 0) + Rank(s.threads, READER, s.buf.changed, 2)
  }

  lemma WriterStep(s: State, payload: seq<byte>, t0: int, t1: int, t2: int)
    requires Underway(s, payload) && Enabled(s, Run(WRITER, t0, t1, t2))
    requires Inv(RunThread(s, WRITER, t0, t1, t2))
    ensures var s' := RunThread(s, WRITER, t0, t1, t2);
            Underway(s', payload) && Measure(s') < Measure(s)
  {
    assert s.threads[WRITER] == Writing(0);
    assert Sound(s.calls[0]);
  }

  lemma ReaderStep(s: State, payload: seq<byte>, t0: int, t1: int, t2: int)
    requires Underway(s, payload) && Enabled(s, Run(READER, t0, t1, t2))
    requires Inv(RunThread(s, READER, t0, t1, t2))
    ensures var s' := RunThread(s, READER, t0, t1, t2);
            Underway(s', payload) && Measure(s') < Measure(s)
  {
    assert s.threads[READER].Reading?;
  }

  lemma EveryStepDescends(s: State, payload: seq<byte>, l: Label)
    requires Underway(s, payload) && Theirs(l) && Enabled(s, l)
    ensures Inv(Apply(s, l)) && Underway(Apply(s, l), payload)
    ensures Measure(Apply(s, l)) < Measure(s)
  {
    StepKeepsInv(s, l);
    match l
    case Run(t, t0, t1, t2) =>
      if t == WRITER { WriterStep(s, payload, t0, t1, t2); } else { ReaderStep(s, payload, t0, t1, t2); }
    case _ =>
  }

  /** If neither goroutine can move, everything has arrived. */
  lemma StuckMeansDelivered(s: State, payload: seq<byte>)
    requires Underway(s, payload)
    requires forall l :: Theirs(l) ==> !Enabled(s, l)
    ensures s.calls[0].status == Complete && s.delivered == payload
  {
    assert !Enabled(s, StartRead(READER, 1));
    assert !Enabled(s, Run(READER, s.now, s.now, s.now)) && !Enabled(s, Wake(READER));
    assert s.buf.data == [];
    assert !Enabled(s, Run(WRITER, s.now, s.now, s.now)) && !Enabled(s, Wake(WRITER));
    assert WRITER !in s.threads;
    assert Sound(s.calls[0]) && Project(s.accepted, 0) == Promised(s.calls, 0);
    OneCallIsAll(s.accepted, s.calls);
  }

  lemma {:induction false} OneCallIsAll(accepted: seq<Chunk>, calls: seq<Call>)
    requires |calls| == 1 && forall c: nat :: c > 0 ==> Project(accepted, c) == []
    ensures Values(accepted) == Project(accepted, 0)
  {
    if accepted != [] {
      var (rest, last) := (accepted[..|accepted| - 1], accepted[|accepted| - 1]);
      forall c: nat | c > 0 ensures Project(rest, c) == [] {
        assert Project(accepted, c) == [];
      }
      if last.call > 0 {
        assert Project(accepted, last.call) == [];
      }
      OneCallIsAll(rest, calls);
    }
  }

  lemma {:induction false} RunIsShort(s: State, payload: seq<byte>, ls: seq<Label>)
    requires Underway(s, payload) && Runnable(s, ls)
    requires forall i :: 0 <= i < |ls| ==> Theirs(ls[i])
    ensures Underway(After(s, ls), payload)
    ensures |ls| + Measure(After(s, ls)) <= Measure(s)
    decreases |ls|
  {
    if ls != [] {
      EveryStepDescends(s, payload, ls[0]);
      RunIsShort(Apply(s, ls[0]), payload, ls[1..]);
    }
  }

  /** A write of any length completes: no schedule is longer than 8*|payload| + 3 steps, and a
      schedule that cannot be extended has delivered the payload. */
  lemma TransferCompletes(payload: seq<byte>, ls: seq<Label>)
    requires Inv(Start(payload)) && Runnable(Start(payload), ls)
    requires forall i :: 0 <= i < |ls| ==> Theirs(ls[i])
    ensures |ls| <= 8 * |payload| + 3
    ensures var s := After(Start(payload), ls);
            && s.delivered <= payload && |s.calls| == 1
            && ((forall l :: Theirs(l) ==> !Enabled(s, l)) ==> s.calls[0].status == Complete && s.delivered == payload)
  {
    RunIsShort(Start(payload), payload, ls);
    var s := After(Start(payload), ls);
    assert Project(s.accepted, 0) == Promised(s.calls, 0);
    forall c: nat | c > 0 ensures Project(s.accepted, c) == [] {
      assert Project(s.accepted, c) == Promised(s.calls, c);
    }
    OneCallIsAll(s.accepted, s.calls);
    assert s.delivered <= Values(s.accepted) <= payload;
    if forall l :: Theirs(l) ==> !Enabled(s, l) {
      StuckMeansDelivered(s, payload);
    }
  }

  lemma StartInv(payload: seq<byte>)
    ensures Underway(Start(payload), payload) && Measure(Start(payload)) == 8 * |payload| + 3
  {
    var s := Start(payload);
    forall c: nat ensures Project(s.accepted, c) == Promised(s.calls, c) {
    }
  }
}
