/**
 A memBuffer together with everything that may be using it: any number of reader,
 writer, closer and deadline-setting goroutines.  A step is one lock-held region, or
 one of the two ways out of the select in `wait`; a run is any sequence of steps.
 */
module Stream {
  import opened Common
  import opened MemBuffer

  /** A goroutine inside `read` or `write`: about to take the lock, or parked in `wait`. */
  datatype Thread =
    | Reading(want: nat)
    | ReadWaiting(want: nat, channel: nat, until: Deadline)
    | Writing(call: nat)
    | WriteWaiting(call: nat, channel: nat, until: Deadline)

  datatype Status = InFlight | Complete | Cut(error: Error)

  /** One call of `write`: what it was given, how much it has appended, how it returned. */
  datatype Call = Call(payload: seq<byte>, written: nat, status: Status)

  /** What one region of a call appended. */
  datatype Chunk = Chunk(call: nat, bytes: seq<byte>)

  /** `calls`, `accepted`, `delivered` and `eof` are history: every write call, every
      append, the bytes every read returned, and whether a read has returned io.EOF. */
  datatype State = State(
    buf: Buf,
    now: int,
    threads: map<nat, Thread>,
    calls: seq<Call>,
    accepted: seq<Chunk>,
    delivered: seq<byte>,
    eof: bool)

  const INITIAL := State(FRESH, 0, map[], [], [], [], false)

  datatype Label =
    | StartRead(thread: nat, want: nat)
    | StartWrite(thread: nat, payload: seq<byte>)
    | Run(thread: nat, t0: int, t1: int, t2: int)  // one lock-held region and its clock readings
    | Wake(thread: nat)                            // the captured channel is closed
    | Expire(thread: nat, at: int)                 // the timer of the captured deadline fires
    | CloseRead
    | CloseWrite
    | SetReadDeadline(deadline: Deadline)
    | SetWriteDeadline(deadline: Deadline)

  predicate Waiting(t: Thread) {
    t.ReadWaiting? || t.WriteWaiting?
  }

  function Values(chunks: seq<Chunk>): seq<byte> {
    if chunks == [] then [] else Values(chunks[..|chunks| - 1]) + chunks[|chunks| - 1].bytes
  }

  /** The bytes that one call appended, in order. */
  function Project(chunks: seq<Chunk>, call: nat): seq<byte> {
    if chunks == [] then []
    else
      var last := chunks[|chunks| - 1];
      Project(chunks[..|chunks| - 1], call) + if last.call == call then last.bytes else []
  }

  // ---- the step relation

  predicate Enabled(s: State, l: Label) {
    match l
    case StartRead(t, _) => t !in s.threads
    case StartWrite(t, _) => t !in s.threads
    case Run(t, t0, t1, t2) => t in s.threads && !Waiting(s.threads[t]) && s.now <= t0 <= t1 <= t2
    case Wake(t) => t in s.threads && Waiting(s.threads[t]) && s.threads[t].channel < s.buf.changed
    case Expire(t, at) =>
      t in s.threads && Waiting(s.threads[t]) && s.now <= at && Expired(s.threads[t].until, at)
    case _ => true
  }

  /** The thread that remains after a region of `read`, if it did not return. */
  function AfterRead(s: State, t: nat, want: nat, b: Buf, out: ReadOutcome, now: int): State {
    match out
    case Got(bytes) => s.(buf := b, now := now, threads := s.threads - {t}, delivered := s.delivered + bytes)
    case ReadFailed(e) => s.(buf := b, now := now, threads := s.threads - {t}, eof := s.eof || e == Eof)
    case ReadParked(ch, until) => s.(buf := b, now := now, threads := s.threads[t := ReadWaiting(want, ch, until)])
  }

  function Finish(c: Call, written: nat, out: WriteOutcome): Call {
    match out
    case Wrote => c.(written := written, status := Complete)
    case WriteFailed(e) => c.(written := written, status := Cut(e))
    case WriteParked(_, _) => c.(written := written)
  }

  function ThreadsAfter(threads: map<nat, Thread>, t: nat, c: nat, out: WriteOutcome): map<nat, Thread> {
    if out.WriteParked? then threads[t := WriteWaiting(c, out.channel, out.until)] else threads - {t}
  }

  function AfterWrite(s: State, t: nat, c: nat, n: nat, b: Buf, out: WriteOutcome, now: int): State
    requires c < |s.calls| && s.calls[c].written + n <= |s.calls[c].payload|
  {
    var call := s.calls[c];
    s.(buf := b, now := now, threads := ThreadsAfter(s.threads, t, c, out),
       calls := s.calls[c := Finish(call, call.written + n, out)],
       accepted := s.accepted + [Chunk(c, call.payload[call.written..call.written + n])])
  }

  ghost function Apply(s: State, l: Label): State
    requires Inv(s) && Enabled(s, l)
  {
    var b := s.buf;
    match l
    case StartRead(t, want) => s.(threads := s.threads[t := Reading(want)])
    case StartWrite(t, p) =>
      s.(threads := s.threads[t := Writing(|s.calls|)], calls := s.calls + [Call(p, 0, InFlight)])
    case Run(t, t0, t1, t2) => RunThread(s, t, t0, t1, t2)
    case Wake(t) => s.(threads := s.threads[t := Awake(s.threads[t])])
    case Expire(t, at) => TimeOut(s, t, at)
    case CloseRead => s.(buf := WithReadClosed(b))
    case CloseWrite => s.(buf := WithWriteClosed(b))
    case SetReadDeadline(d) => s.(buf := WithReadDeadline(b, d))
    case SetWriteDeadline(d) => s.(buf := WithWriteDeadline(b, d))
  }

  ghost function RunThread(s: State, t: nat, t0: int, t1: int, t2: int): State
    requires Inv(s) && t in s.threads && !Waiting(s.threads[t])
  {
    match s.threads[t]
    case Reading(want) =>
      var (b, out) := ReadRegion(s.buf, want, t0, t1);
      AfterRead(s, t, want, b, out, t2)
    case Writing(c) =>
      assert c == CallOf(s.threads[t]) && Sound(s.calls[c]);
      var call := s.calls[c];
      AfterWrite(s, t, c, Appended(s.buf, call.payload, call.written, t0),
                 WriteRegion(s.buf, call.payload, call.written, t0),
                 WriteResult(s.buf, call.payload, call.written, t0, t1, t2), t2)
  }

  function Awake(t: Thread): Thread
    requires Waiting(t)
  {
    match t
    case ReadWaiting(want, _, _) => Reading(want)
    case WriteWaiting(c, _, _) => Writing(c)
  }

  /** `wait` returns os.ErrDeadlineExceeded and so does the call around it. */
  ghost function TimeOut(s: State, t: nat, at: int): State
    requires Inv(s) && t in s.threads && Waiting(s.threads[t])
  {
    var s' := s.(now := at, threads := s.threads - {t});
    match s.threads[t]
    case ReadWaiting(_, _, _) => s'
    case WriteWaiting(c, _, _) =>
      assert c == CallOf(s.threads[t]);
      s'.(calls := s.calls[c := s.calls[c].(status := Cut(DeadlineExceeded))])
  }

  // ---- the invariant

  /** The thread could do nothing but park again if it ran: the point of not waking it. */
  predicate Blocked(b: Buf, t: Thread) {
    match t
    case ReadWaiting(_, _, until) => b.data == [] && !b.readClosed && !b.writeClosed && until == b.readDeadline
    case WriteWaiting(_, _, until) => |b.data| == LIMIT && !b.readClosed && !b.writeClosed && until == b.writeDeadline
    case _ => false
  }

  ghost predicate NoLostWakeup(b: Buf, threads: map<nat, Thread>) {
    forall t :: t in threads && Waiting(threads[t]) ==>
      && threads[t].channel <= b.changed
      && (threads[t].channel == b.changed ==> Blocked(b, threads[t]))
  }

  predicate Fifo(data: seq<byte>, accepted: seq<Chunk>, delivered: seq<byte>) {
    Values(accepted) == delivered + data
  }

  predicate EndIsEmpty(b: Buf, eof: bool) {
    eof ==> b.writeClosed && b.data == []
  }

  predicate Sound(c: Call) {
    && c.written <= |c.payload|
    && (c.status == Complete ==> c.written == |c.payload|)
  }

  /** What call c has to show for itself: the counted prefix of its payload. */
  function Promised(calls: seq<Call>, c: nat): seq<byte>
    requires forall i :: 0 <= i < |calls| ==> Sound(calls[i])
  {
    if c < |calls| then
      assert Sound(calls[c]);
      calls[c].payload[..calls[c].written]
    else []
  }

  /** Every call has appended exactly the counted prefix of its payload. */
  ghost predicate Counted(calls: seq<Call>, accepted: seq<Chunk>) {
    && (forall c :: 0 <= c < |calls| ==> Sound(calls[c]))
    && (forall c: nat :: Project(accepted, c) == Promised(calls, c))
  }

  /** The write call a goroutine is in, or -1. */
  function CallOf(t: Thread): int {
    match t
    case Writing(c) => c
    case WriteWaiting(c, _, _) => c
    case _ => -1
  }

  /** A call that has not returned belongs to one goroutine, and a returned one to none. */
  ghost predicate Owned(threads: map<nat, Thread>, calls: seq<Call>) {
    && (forall t :: t in threads && CallOf(threads[t]) >= 0 ==>
          CallOf(threads[t]) < |calls| && calls[CallOf(threads[t])].status == InFlight)
    && (forall t, u :: t in threads && u in threads && t != u && CallOf(threads[t]) >= 0 ==>
          CallOf(threads[t]) != CallOf(threads[u]))
    && (forall t :: t in threads && threads[t].WriteWaiting? ==> Pending(calls, threads[t].call))
  }

  predicate Pending(calls: seq<Call>, c: nat) {
    c < |calls| && calls[c].written < |calls[c].payload|
  }

  ghost predicate Inv(s: State) {
    && |s.buf.data| <= LIMIT
    && NoLostWakeup(s.buf, s.threads)
    && Fifo(s.buf.data, s.accepted, s.delivered)
    && EndIsEmpty(s.buf, s.eof)
    && Counted(s.calls, s.accepted)
    && Owned(s.threads, s.calls)
  }

  lemma AppendChunk(chunks: seq<Chunk>, k: Chunk, call: nat)
    ensures Values(chunks + [k]) == Values(chunks) + k.bytes
    ensures Project(chunks + [k], call) == Project(chunks, call) + if k.call == call then k.bytes else []
  {
    assert (chunks + [k])[..|chunks|] == chunks;
  }

  // ---- what one region does to each part of the invariant

  lemma ReadRegionKeeps(b: Buf, threads: map<nat, Thread>, t: nat, want: nat, t0: int, t1: int)
    requires t in threads && NoLostWakeup(b, threads) && |b.data| <= LIMIT
    ensures var (b', out) := ReadRegion(b, want, t0, t1);
            && |b'.data| <= LIMIT
            && NoLostWakeup(b', threads - {t})
            && (out.ReadParked? ==> NoLostWakeup(b', threads[t := ReadWaiting(want, out.channel, out.until)]))
            && b.data == (if out.Got? then out.bytes else []) + b'.data
            && (out == ReadFailed(Eof) ==> b.writeClosed && b.data == [])
            && b'.writeClosed == b.writeClosed && b'.readClosed == b.readClosed
  {
  }

  lemma WriteRegionKeeps(b: Buf, threads: map<nat, Thread>, t: nat, c: nat, p: seq<byte>, w: nat,
                         t0: int, t1: int, t2: int)
    requires t in threads && NoLostWakeup(b, threads) && |b.data| <= LIMIT && w <= |p|
    ensures var (b', out) := (WriteRegion(b, p, w, t0), WriteResult(b, p, w, t0, t1, t2));
            && NoLostWakeup(b', threads - {t})
            && (out.WriteParked? ==> NoLostWakeup(b', threads[t := WriteWaiting(c, out.channel, out.until)]))
            && b'.data == b.data + p[w..w + Appended(b, p, w, t0)]
            && b'.writeClosed == b.writeClosed && b'.readClosed == b.readClosed
            && (b.writeClosed || b.readClosed ==> b' == b)
  {
  }

  lemma AppendKeepsCounted(calls: seq<Call>, accepted: seq<Chunk>, c: nat, n: nat, out: WriteOutcome)
    requires Counted(calls, accepted) && c < |calls| && calls[c].written + n <= |calls[c].payload|
    requires out.Wrote? ==> calls[c].written + n == |calls[c].payload|
    requires calls[c].status == InFlight
    ensures var w := calls[c].written;
            Counted(calls[c := Finish(calls[c], w + n, out)], accepted + [Chunk(c, calls[c].payload[w..w + n])])
  {
    var call := calls[c];
    var chunk := Chunk(c, call.payload[call.written..call.written + n]);
    var calls' := calls[c := Finish(call, call.written + n, out)];
    assert Sound(calls'[c]);
    forall d: nat
      ensures Project(accepted + [chunk], d) == Promised(calls', d)
    {
      AppendChunk(accepted, chunk, d);
      assert call.payload[..call.written] + chunk.bytes == call.payload[..call.written + n];
    }
  }

  lemma ReturnKeepsOwned(threads: map<nat, Thread>, calls: seq<Call>, t: nat, call: Call)
    requires Owned(threads, calls) && t in threads && CallOf(threads[t]) >= 0
    ensures Owned(threads - {t}, calls[CallOf(threads[t]) := call])
  {
    var c := CallOf(threads[t]);
    forall u | u in threads - {t} && CallOf(threads[u]) >= 0
      ensures CallOf(threads[u]) != c
    {
    }
  }

  lemma ParkKeepsOwned(threads: map<nat, Thread>, calls: seq<Call>, t: nat, call: Call, ch: nat, until: Deadline)
    requires Owned(threads, calls) && t in threads && threads[t].Writing? && call.status == InFlight
    requires call.written < |call.payload|
    ensures var c := threads[t].call;
            Owned(threads[t := WriteWaiting(c, ch, until)], calls[c := call])
  {
  }

  lemma LeaveKeepsOwned(threads: map<nat, Thread>, calls: seq<Call>, t: nat)
    requires Owned(threads, calls) && t in threads && CallOf(threads[t]) == -1
    ensures Owned(threads - {t}, calls)
  {
  }

  lemma ReadParksOwned(threads: map<nat, Thread>, calls: seq<Call>, t: nat, want: nat, ch: nat, until: Deadline)
    requires Owned(threads, calls) && t in threads && CallOf(threads[t]) == -1
    ensures Owned(threads[t := ReadWaiting(want, ch, until)], calls)
  {
  }

  lemma ReadKeepsFifo(data: seq<byte>, accepted: seq<Chunk>, delivered: seq<byte>, bytes: seq<byte>, rest: seq<byte>)
    requires Fifo(data, accepted, delivered) && data == bytes + rest
    ensures Fifo(rest, accepted, delivered + bytes)
  {
    assert (delivered + bytes) + rest == delivered + (bytes + rest);
  }

  lemma RunReadKeepsInv(s: State, t: nat, t0: int, t1: int, t2: int)
    requires Inv(s) && Enabled(s, Run(t, t0, t1, t2)) && s.threads[t].Reading?
    ensures Inv(RunThread(s, t, t0, t1, t2))
  {
    hide NoLostWakeup, Counted, Owned, Fifo, ReadRegion;
    var want := s.threads[t].want;
    ReadRegionKeeps(s.buf, s.threads, t, want, t0, t1);
    var (b, out) := ReadRegion(s.buf, want, t0, t1);
    assert [] + b.data == b.data;
    match out
    case ReadParked(ch, until) => ReadParksOwned(s.threads, s.calls, t, want, ch, until);
    case Got(bytes) =>
      LeaveKeepsOwned(s.threads, s.calls, t);
      ReadKeepsFifo(s.buf.data, s.accepted, s.delivered, bytes, b.data);
    case ReadFailed(_) => LeaveKeepsOwned(s.threads, s.calls, t);
  }

  lemma AppendKeepsFifo(data: seq<byte>, accepted: seq<Chunk>, delivered: seq<byte>, k: Chunk)
    requires Fifo(data, accepted, delivered)
    ensures Fifo(data + k.bytes, accepted + [k], delivered)
  {
    AppendChunk(accepted, k, 0);
  }

  lemma AppendKeepsOwned(threads: map<nat, Thread>, calls: seq<Call>, t: nat, c: nat, written: nat, out: WriteOutcome)
    requires Owned(threads, calls) && t in threads && threads[t] == Writing(c) && c < |calls|
    requires calls[c].status == InFlight
    requires out.WriteParked? ==> written < |calls[c].payload|
    ensures Owned(ThreadsAfter(threads, t, c, out), calls[c := Finish(calls[c], written, out)])
  {
    assert c == CallOf(threads[t]);
    if out.WriteParked? {
      ParkKeepsOwned(threads, calls, t, Finish(calls[c], written, out), out.channel, out.until);
    } else {
      ReturnKeepsOwned(threads, calls, t, Finish(calls[c], written, out));
    }
  }

  /** The parts of a region of `write`, put together. */
  lemma WritePartsKeepInv(s: State, t: nat, c: nat, n: nat, b: Buf, out: WriteOutcome, now: int)
    requires Inv(s) && t in s.threads && s.threads[t] == Writing(c) && c < |s.calls|
    requires s.calls[c].written + n <= |s.calls[c].payload| && s.calls[c].status == InFlight
    requires b.data == s.buf.data + s.calls[c].payload[s.calls[c].written..s.calls[c].written + n] && |b.data| <= LIMIT
    requires NoLostWakeup(b, ThreadsAfter(s.threads, t, c, out)) && EndIsEmpty(b, s.eof)
    requires out.Wrote? ==> s.calls[c].written + n == |s.calls[c].payload|
    requires out.WriteParked? ==> s.calls[c].written + n < |s.calls[c].payload|
    ensures Inv(AfterWrite(s, t, c, n, b, out, now))
  {
    hide Owned, Counted, NoLostWakeup, Fifo, EndIsEmpty;
    var call := s.calls[c];
    AppendKeepsCounted(s.calls, s.accepted, c, n, out);
    AppendKeepsFifo(s.buf.data, s.accepted, s.delivered, Chunk(c, call.payload[call.written..call.written + n]));
    AppendKeepsOwned(s.threads, s.calls, t, c, call.written + n, out);
  }

  lemma RunWriteKeepsInv(s: State, t: nat, t0: int, t1: int, t2: int)
    requires Inv(s) && Enabled(s, Run(t, t0, t1, t2)) && s.threads[t].Writing?
    ensures Inv(RunThread(s, t, t0, t1, t2))
  {
    var c := s.threads[t].call;
    assert c == CallOf(s.threads[t]) && Sound(s.calls[c]);
    var (p, w) := (s.calls[c].payload, s.calls[c].written);
    WriteRegionKeeps(s.buf, s.threads, t, c, p, w, t0, t1, t2);
    WritePartsKeepInv(s, t, c, Appended(s.buf, p, w, t0), WriteRegion(s.buf, p, w, t0),
                      WriteResult(s.buf, p, w, t0, t1, t2), t2);
  }

  lemma NewCallKeepsCounted(calls: seq<Call>, accepted: seq<Chunk>, p: seq<byte>)
    requires Counted(calls, accepted)
    ensures Counted(calls + [Call(p, 0, InFlight)], accepted)
  {
    var calls' := calls + [Call(p, 0, InFlight)];
    assert forall c :: 0 <= c < |calls'| ==> Sound(calls'[c]);
    forall c: nat
      ensures Project(accepted, c) == Promised(calls', c)
    {
      assert Project(accepted, c) == Promised(calls, c);
    }
  }

  lemma NewCallKeepsOwned(threads: map<nat, Thread>, calls: seq<Call>, t: nat, p: seq<byte>)
    requires Owned(threads, calls) && t !in threads
    ensures Owned(threads[t := Writing(|calls|)], calls + [Call(p, 0, InFlight)])
  {
  }

  lemma StartKeepsInv(s: State, l: Label)
    requires Inv(s) && Enabled(s, l) && (l.StartRead? || l.StartWrite?)
    ensures Inv(Apply(s, l))
  {
    if l.StartWrite? {
      NewCallKeepsCounted(s.calls, s.accepted, l.payload);
      NewCallKeepsOwned(s.threads, s.calls, l.thread, l.payload);
    }
  }

  lemma TimeOutKeepsInv(s: State, t: nat, at: int)
    requires Inv(s) && Enabled(s, Expire(t, at))
    ensures Inv(TimeOut(s, t, at))
  {
    if s.threads[t].WriteWaiting? {
      var c := s.threads[t].call;
      assert c == CallOf(s.threads[t]) && Sound(s.calls[c]);
      var call := s.calls[c].(status := Cut(DeadlineExceeded));
      ReturnKeepsOwned(s.threads, s.calls, t, call);
      forall d: nat
        ensures Project(s.accepted, d) == Promised(s.calls[c := call], d)
      {
        assert Project(s.accepted, d) == Promised(s.calls, d);
      }
    }
  }

  lemma StepKeepsInv(s: State, l: Label)
    requires Inv(s) && Enabled(s, l)
    ensures Inv(Apply(s, l))
  {
    match l
    case Run(t, t0, t1, t2) =>
      if s.threads[t].Reading? { RunReadKeepsInv(s, t, t0, t1, t2); } else { RunWriteKeepsInv(s, t, t0, t1, t2); }
    case StartRead(_, _) => StartKeepsInv(s, l);
    case StartWrite(_, _) => StartKeepsInv(s, l);
    case Expire(t, at) => TimeOutKeepsInv(s, t, at);
    case _ =>
  }

  // ---- runs

  lemma InitialInv()
    ensures Inv(INITIAL)
  {
  }

  /** The labels can be taken one after the other. */
  ghost predicate Runnable(s: State, ls: seq<Label>)
    requires Inv(s)
    decreases |ls|
  {
    ls == [] || (Enabled(s, ls[0]) && (StepKeepsInv(s, ls[0]); Runnable(Apply(s, ls[0]), ls[1..])))
  }

  ghost function After(s: State, ls: seq<Label>): (s': State)
    requires Inv(s) && Runnable(s, ls)
    ensures Inv(s')
    decreases |ls|
  {
    if ls == [] then s
    else
      StepKeepsInv(s, ls[0]);
      After(Apply(s, ls[0]), ls[1..])
  }

  /** A reachable state of the buffer, whoever uses it and in whatever order. */
  ghost predicate Reachable(s: State) {
    InitialInv();
    exists ls :: Runnable(INITIAL, ls) && After(INITIAL, ls) == s
  }

  lemma ReachableInv(s: State)
    requires Reachable(s)
    ensures Inv(s)
  {
    InitialInv();
    var ls :| Runnable(INITIAL, ls) && After(INITIAL, ls) == s;
  }

  /** No lost wakeup: a goroutine parked on the current channel would only park again on it. */
  lemma ParkedIsBlocked(s: State, t: nat, t0: int, t1: int, t2: int)
    requires Reachable(s) && t in s.threads && Waiting(s.threads[t]) && s.threads[t].channel == s.buf.changed
    requires t0 <= t1 <= t2 && !Expired(s.threads[t].until, t2)
    ensures match s.threads[t]
            case ReadWaiting(want, ch, until) =>
              ReadRegion(s.buf, want, t0, t1) == (s.buf, ReadParked(ch, until))
            case WriteWaiting(c, ch, until) =>
              && Pending(s.calls, c)
              && WriteRegion(s.buf, s.calls[c].payload, s.calls[c].written, t0) == s.buf
              && WriteResult(s.buf, s.calls[c].payload, s.calls[c].written, t0, t1, t2) == WriteParked(ch, until)
  {
    ReachableInv(s);
  }

  /** No deadlock: of a reader and a writer in progress, one can always take a step. */
  lemma ReaderOrWriterMoves(s: State, r: nat, w: nat)
    requires Reachable(s) && r in s.threads && w in s.threads
    requires CallOf(s.threads[r]) == -1 && CallOf(s.threads[w]) >= 0
    ensures Enabled(s, Wake(r)) || Enabled(s, Wake(w)) ||
            Enabled(s, Run(r, s.now, s.now, s.now)) || Enabled(s, Run(w, s.now, s.now, s.now))
  {
    ReachableInv(s);
    assert Waiting(s.threads[r]) && Waiting(s.threads[w]) ==>
        !(Blocked(s.buf, s.threads[r]) && Blocked(s.buf, s.threads[w]));
  }

  /** The bytes read so far followed by those buffered are the bytes accepted; never more than LIMIT wait;
      and every write call, finished or not, has appended exactly the prefix it counts. */
  lemma StreamIntegrity(s: State)
    requires Reachable(s)
    ensures Values(s.accepted) == s.delivered + s.buf.data && |s.buf.data| <= LIMIT
    ensures forall c :: 0 <= c < |s.calls| ==>
              && s.calls[c].written <= |s.calls[c].payload|
              && Project(s.accepted, c) == s.calls[c].payload[..s.calls[c].written]
              && (s.calls[c].status == Complete ==> Project(s.accepted, c) == s.calls[c].payload)
  {
    ReachableInv(s);
    forall c | 0 <= c < |s.calls|
      ensures Sound(s.calls[c]) && Project(s.accepted, c) == s.calls[c].payload[..s.calls[c].written]
    {
      assert Project(s.accepted, c) == Promised(s.calls, c);
    }
  }

  // ---- how calls end

  /** d is set and its time has come at t. */
  predicate Passed(d: Deadline, t: int) {
    match d
    case NoDeadline => false
    case At(time) => t >= time
  }

  /** What a region does to a write call with bytes left, from the flags, the deadline, the room and the
      clock alone: own end closed, reading end closed, deadline passed, done, or parked on a full buffer. */
  lemma WriteEndsExactly(s: State, t: nat, t0: int, t1: int, t2: int)
    requires Inv(s) && Enabled(s, Run(t, t0, t1, t2)) && s.threads[t].Writing?
    requires Pending(s.calls, s.threads[t].call)
    ensures var c := s.threads[t].call;
            var s' := Apply(s, Run(t, t0, t1, t2));
            var (call, call', d) := (s.calls[c], s'.calls[c], s.buf.writeDeadline);
            var (room, left) := (0x10_0000 - |s.buf.data|, |call.payload| - call.written);
            var open := !s.buf.writeClosed && !s.buf.readClosed;
            var late := Passed(d, t0) || (left > room && Passed(d, if room > 0 then t2 else t1));
            && (call'.status == Cut(Closed) <==> s.buf.writeClosed)
            && (call'.status == Cut(ClosedPipe) <==> s.buf.readClosed && !s.buf.writeClosed)
            && (call'.status == Cut(DeadlineExceeded) <==> open && late)
            && (call'.status == Complete <==> open && !late && left <= room)
            && (call'.status == InFlight <==> open && !late && left > room)
            && call'.written == call.written + (if open && !Passed(d, t0) then Min(room, left) else 0)
            && s'.accepted == s.accepted + [Chunk(c, call.payload[call.written..call'.written])]
            && (t in s'.threads <==> call'.status == InFlight)
  {
    hide NoLostWakeup, Fifo, EndIsEmpty, Counted;
    assert s.threads[t].call == CallOf(s.threads[t]);
  }

  /** A wait that ends by its timer: the deadline captured when it parked has passed, the call returns, and a
      write returns deadline exceeded with what it had appended.  One that ends by its channel goes on. */
  lemma WaitsEndExactly(s: State, t: nat, at: int)
    requires Inv(s) && t in s.threads && Waiting(s.threads[t])
    ensures Enabled(s, Expire(t, at)) <==> s.now <= at && Passed(s.threads[t].until, at)
    ensures Enabled(s, Wake(t)) <==> s.threads[t].channel != s.buf.changed
    ensures Enabled(s, Expire(t, at)) ==>
              var s' := Apply(s, Expire(t, at));
              && s'.threads == s.threads - {t} && s'.buf == s.buf && s'.now == at
              && s'.delivered == s.delivered && s'.accepted == s.accepted && s'.eof == s.eof
              && (s.threads[t].ReadWaiting? ==> s'.calls == s.calls)
              && (s.threads[t].WriteWaiting? ==>
                    && s.threads[t].call < |s.calls|
                    && s'.calls == s.calls[s.threads[t].call :=
                                           s.calls[s.threads[t].call].(status := Cut(DeadlineExceeded))])
    ensures Enabled(s, Wake(t)) ==>
              Apply(s, Wake(t)) == s.(threads := s.threads[t := if s.threads[t].ReadWaiting?
                                                               then Reading(s.threads[t].want)
                                                               else Writing(s.threads[t].call)])
  {
    hide Fifo, EndIsEmpty, Counted;
    if s.threads[t].WriteWaiting? {
      assert s.threads[t].call == CallOf(s.threads[t]);
    }
  }

  /** What a region of a read does, from the same. */
  lemma ReadEndsExactly(b: Buf, want: nat, t0: int, t1: int)
    requires t0 <= t1
    ensures var (b', out) := ReadRegion(b, want, t0, t1);
            && (out == ReadFailed(Closed) <==> b.readClosed)
            && (out == ReadFailed(DeadlineExceeded) <==>
                  && !b.readClosed
                  && (Passed(b.readDeadline, t0) || (b.data == [] && !b.writeClosed && Passed(b.readDeadline, t1))))
            && (out == ReadFailed(Eof) <==>
                  !b.readClosed && !Passed(b.readDeadline, t0) && b.data == [] && b.writeClosed)
            && (out.Got? <==> !b.readClosed && !Passed(b.readDeadline, t0) && b.data != [])
            && (out.Got? ==> |out.bytes| == Min(want, |b.data|) && b.data == out.bytes + b'.data)
            && (!out.Got? ==> b' == b)
  {
  }

  // ---- what later states keep

  /** s' can come after s. */
  ghost predicate Later(s: State, s': State) {
    && s.buf.changed <= s'.buf.changed
    && (s.buf.readClosed ==> s'.buf.readClosed)
    && (s.buf.writeClosed ==> s'.buf.writeClosed)
    && (s.eof ==> s'.eof)
    && s.delivered <= s'.delivered
    && Values(s.accepted) <= Values(s'.accepted)
    && (s.buf.readClosed || s.buf.writeClosed ==> Values(s.accepted) == Values(s'.accepted))
    && |s.calls| <= |s'.calls|
    && (forall c :: 0 <= c < |s.calls| ==> s'.calls[c].payload == s.calls[c].payload)
    && (forall c :: 0 <= c < |s.calls| && s.calls[c].status != InFlight ==> s'.calls[c] == s.calls[c])
  }

  lemma WriteIsLater(s: State, t: nat, t0: int, t1: int, t2: int)
    requires Inv(s) && t in s.threads && s.threads[t].Writing?
    ensures Later(s, RunThread(s, t, t0, t1, t2))
  {
    var c := s.threads[t].call;
    assert c == CallOf(s.threads[t]) && Sound(s.calls[c]);
    var (p, w) := (s.calls[c].payload, s.calls[c].written);
    AppendIsLater(s, t, c, Appended(s.buf, p, w, t0), WriteRegion(s.buf, p, w, t0),
                  WriteResult(s.buf, p, w, t0, t1, t2), t2);
  }

  lemma AppendIsLater(s: State, t: nat, c: nat, n: nat, b: Buf, out: WriteOutcome, now: int)
    requires c < |s.calls| && s.calls[c].written + n <= |s.calls[c].payload| && s.calls[c].status == InFlight
    requires b.readClosed == s.buf.readClosed && b.writeClosed == s.buf.writeClosed && s.buf.changed <= b.changed
    requires s.buf.readClosed || s.buf.writeClosed ==> n == 0
    ensures Later(s, AfterWrite(s, t, c, n, b, out, now))
  {
    var call := s.calls[c];
    AppendChunk(s.accepted, Chunk(c, call.payload[call.written..call.written + n]), c);
  }

  lemma TimeOutIsLater(s: State, t: nat, at: int)
    requires Inv(s) && t in s.threads && Waiting(s.threads[t])
    ensures Later(s, TimeOut(s, t, at))
  {
    if s.threads[t].WriteWaiting? {
      assert s.threads[t].call == CallOf(s.threads[t]);
    }
  }

  lemma ReadIsLater(s: State, t: nat, t0: int, t1: int, t2: int)
    requires Inv(s) && t in s.threads && s.threads[t].Reading?
    ensures Later(s, RunThread(s, t, t0, t1, t2))
  {
  }

  lemma StepIsLater(s: State, l: Label)
    requires Inv(s) && Enabled(s, l)
    ensures Later(s, Apply(s, l)) && s.now <= Apply(s, l).now
  {
    match l
    case Run(t, t0, t1, t2) =>
      if s.threads[t].Reading? { ReadIsLater(s, t, t0, t1, t2); } else { WriteIsLater(s, t, t0, t1, t2); }
    case Expire(t, at) => TimeOutIsLater(s, t, at);
    case _ =>
  }

  lemma {:induction false} RunIsLater(s: State, ls: seq<Label>)
    requires Inv(s) && Runnable(s, ls)
    ensures Later(s, After(s, ls)) && s.now <= After(s, ls).now
    decreases |ls|
  {
    if ls != [] {
      StepKeepsInv(s, ls[0]);
      StepIsLater(s, ls[0]);
      RunIsLater(Apply(s, ls[0]), ls[1..]);
    }
  }

  /** What a write call returned stays the truth about it: nothing of it is appended later. */
  lemma ReturnedCountIsFinal(s: State, ls: seq<Label>, c: nat)
    requires Inv(s) && Runnable(s, ls) && c < |s.calls| && s.calls[c].status != InFlight
    ensures c < |After(s, ls).calls| && After(s, ls).calls[c] == s.calls[c]
    ensures Project(After(s, ls).accepted, c) == Project(s.accepted, c)
  {
    RunIsLater(s, ls);
    assert Project(s.accepted, c) == Promised(s.calls, c);
    assert Project(After(s, ls).accepted, c) == Promised(After(s, ls).calls, c);
  }

  /** Once a read has returned io.EOF every accepted byte has been read, now and for ever. */
  lemma EofIsFinal(s: State, ls: seq<Label>)
    requires Inv(s) && Runnable(s, ls) && s.eof
    ensures s.delivered == Values(s.accepted)
    ensures After(s, ls).delivered == s.delivered && Values(After(s, ls).accepted) == Values(s.accepted)
  {
    RunIsLater(s, ls);
    var s' := After(s, ls);
    assert EndIsEmpty(s'.buf, s'.eof);
  }

  /** After the writing side closes, the reading side is left exactly what is buffered. */
  lemma CloseWriteFixesTheRest(s: State, ls: seq<Label>)
    requires Inv(s) && Runnable(s, ls) && s.buf.writeClosed
    ensures s.delivered <= After(s, ls).delivered
    ensures s.buf.data == After(s, ls).delivered[|s.delivered|..] + After(s, ls).buf.data
  {
    RunIsLater(s, ls);
    var s' := After(s, ls);
    RestOf(s.delivered, s.buf.data, s'.delivered, s'.buf.data);
  }

  lemma RestOf(a: seq<byte>, b: seq<byte>, a': seq<byte>, b': seq<byte>)
    requires a + b == a' + b' && a <= a'
    ensures b == a'[|a|..] + b'
  {
    assert b == (a + b)[|a|..];
  }

  // ---- one writing goroutine

  /** The appended parts of the calls, in call order. */
  function Joined(calls: seq<Call>): seq<byte>
    requires forall i :: 0 <= i < |calls| ==> Sound(calls[i])
  {
    if calls == [] then []
    else
      var last := calls[|calls| - 1];
      assert Sound(last);
      Joined(calls[..|calls| - 1]) + last.payload[..last.written]
  }

  /** Only goroutine w writes: its open call, if any, is the newest one. */
  ghost predicate OneWriter(s: State, w: nat) {
    && (forall c :: 0 <= c < |s.calls| ==> Sound(s.calls[c]))
    && (forall t :: t in s.threads && t != w ==> CallOf(s.threads[t]) == -1)
    && (forall c :: 0 <= c < |s.calls| && s.calls[c].status == InFlight ==>
          c == |s.calls| - 1 && w in s.threads && CallOf(s.threads[w]) == c)
    && Values(s.accepted) == Joined(s.calls)
  }

  predicate OnlyWriter(ls: seq<Label>, w: nat) {
    forall i :: 0 <= i < |ls| && ls[i].StartWrite? ==> ls[i].thread == w
  }

  lemma StartKeepsOneWriter(s: State, p: seq<byte>, w: nat)
    requires OneWriter(s, w) && w !in s.threads
    ensures OneWriter(s.(threads := s.threads[w := Writing(|s.calls|)], calls := s.calls + [Call(p, 0, InFlight)]), w)
  {
    assert (s.calls + [Call(p, 0, InFlight)])[..|s.calls|] == s.calls;
  }

  /** A step that touches no write call and moves no goroutine into or out of one. */
  ghost predicate SameWrites(s: State, s': State) {
    && s'.calls == s.calls && s'.accepted == s.accepted
    && (forall t :: t in s'.threads && CallOf(s'.threads[t]) >= 0 ==>
          t in s.threads && CallOf(s.threads[t]) == CallOf(s'.threads[t]))
    && (forall t :: t in s.threads && CallOf(s.threads[t]) >= 0 ==> t in s'.threads)
    && (forall t :: t in s.threads && t in s'.threads ==> CallOf(s'.threads[t]) == CallOf(s.threads[t]))
  }

  lemma SameWritesKeepOneWriter(s: State, s': State, w: nat)
    requires OneWriter(s, w) && SameWrites(s, s')
    ensures OneWriter(s', w)
  {
  }

  lemma ReadIsSameWrites(s: State, t: nat, t0: int, t1: int, t2: int)
    requires Inv(s) && t in s.threads && s.threads[t].Reading?
    ensures SameWrites(s, RunThread(s, t, t0, t1, t2))
  {
  }

  predicate Quiet(s: State, l: Label) {
    match l
    case StartWrite(_, _) => false
    case Run(t, _, _, _) => t in s.threads && s.threads[t].Reading?
    case Expire(t, _) => t in s.threads && s.threads[t].ReadWaiting?
    case _ => true
  }

  lemma QuietIsSameWrites(s: State, l: Label)
    requires Inv(s) && Enabled(s, l) && Quiet(s, l)
    ensures SameWrites(s, Apply(s, l))
  {
    if l.Run? {
      ReadIsSameWrites(s, l.thread, l.t0, l.t1, l.t2);
    }
  }

  /** Changing the newest call, appending what it counts, and perhaps letting its goroutine go. */
  lemma NewestKeepsOneWriter(s: State, s': State, w: nat, call: Call, more: seq<byte>)
    requires OneWriter(s, w) && w in s.threads && s.calls != [] && CallOf(s.threads[w]) == |s.calls| - 1
    requires Sound(call) && s'.calls == s.calls[|s.calls| - 1 := call]
    requires Values(s'.accepted) == Values(s.accepted) + more
    requires var last := s.calls[|s.calls| - 1];
             last.written <= |last.payload| && call.payload[..call.written] == last.payload[..last.written] + more
    requires s'.threads - {w} == s.threads - {w}
    requires w in s'.threads ==> CallOf(s'.threads[w]) == |s.calls| - 1
    requires call.status == InFlight ==> w in s'.threads
    ensures OneWriter(s', w)
  {
    var last := s.calls[|s.calls| - 1];
    assert s'.calls[..|s.calls| - 1] == s.calls[..|s.calls| - 1];
    Assoc(Joined(s.calls[..|s.calls| - 1]), last.payload[..last.written], more);
    forall t | t in s'.threads && t != w
      ensures CallOf(s'.threads[t]) == -1
    {
      assert t in s'.threads - {w} && (s'.threads - {w})[t] == (s.threads - {w})[t];
    }
  }

  lemma WriterIsNewest(s: State, w: nat)
    requires Inv(s) && w in s.threads && s.threads[w].Writing? && OneWriter(s, w)
    ensures CallOf(s.threads[w]) == |s.calls| - 1 && s.calls != []
    ensures Sound(s.calls[|s.calls| - 1]) && s.calls[|s.calls| - 1].status == InFlight
  {
    assert CallOf(s.threads[w]) >= 0;
  }

  lemma FinishedIsSound(b: Buf, call: Call, t0: int, t1: int, t2: int)
    requires Sound(call) && call.status == InFlight && |b.data| <= LIMIT
    ensures var n := Appended(b, call.payload, call.written, t0);
            var out := WriteResult(b, call.payload, call.written, t0, t1, t2);
            var call' := Finish(call, call.written + n, out);
            Sound(call') && (call'.status == InFlight <==> out.WriteParked?)
  {
  }

  lemma OthersStay(threads: map<nat, Thread>, t: nat, c: nat, out: WriteOutcome)
    ensures var threads' := ThreadsAfter(threads, t, c, out);
            && threads' - {t} == threads - {t}
            && (t in threads' <==> out.WriteParked?)
            && (t in threads' ==> CallOf(threads'[t]) == c)
  {
  }

  lemma AppendKeepsOneWriter(s: State, w: nat, c: nat, n: nat, b: Buf, out: WriteOutcome, now: int)
    requires OneWriter(s, w) && w in s.threads && s.threads[w] == Writing(c) && c == |s.calls| - 1
    requires s.calls[c].written + n <= |s.calls[c].payload|
    requires var call' := Finish(s.calls[c], s.calls[c].written + n, out);
             Sound(call') && (call'.status == InFlight ==> out.WriteParked?)
    ensures OneWriter(AfterWrite(s, w, c, n, b, out, now), w)
  {
    hide OneWriter, Values, Project, Joined, ThreadsAfter;
    OthersStay(s.threads, w, c, out);
    var call := s.calls[c];
    var more := call.payload[call.written..call.written + n];
    AppendChunk(s.accepted, Chunk(c, more), 0);
    Extend(call.payload, call.written, n);
    NewestKeepsOneWriter(s, AfterWrite(s, w, c, n, b, out, now), w, Finish(call, call.written + n, out), more);
  }

  lemma WriteKeepsOneWriter(s: State, t0: int, t1: int, t2: int, w: nat)
    requires Inv(s) && w in s.threads && s.threads[w].Writing? && OneWriter(s, w)
    ensures OneWriter(RunThread(s, w, t0, t1, t2), w)
  {
    hide NoLostWakeup, Fifo, EndIsEmpty, Counted, Owned, OneWriter;
    hide WriteResult, WriteRegion, Appended, AfterWrite, Finish;
    WriterIsNewest(s, w);
    var c := s.threads[w].call;
    var call := s.calls[c];
    FinishedIsSound(s.buf, call, t0, t1, t2);
    AppendKeepsOneWriter(s, w, c, Appended(s.buf, call.payload, call.written, t0),
                         WriteRegion(s.buf, call.payload, call.written, t0),
                         WriteResult(s.buf, call.payload, call.written, t0, t1, t2), t2);
  }

  lemma Extend(p: seq<byte>, w: nat, n: nat)
    requires w + n <= |p|
    ensures p[..w + n] == p[..w] + p[w..w + n]
  {
  }

  lemma TimeOutKeepsOneWriter(s: State, t: nat, at: int, w: nat)
    requires Inv(s) && t in s.threads && s.threads[t].WriteWaiting? && OneWriter(s, w)
    ensures OneWriter(TimeOut(s, t, at), w)
  {
    assert CallOf(s.threads[t]) >= 0;
    var c := s.threads[t].call;
    assert t == w && c == CallOf(s.threads[w]) && s.calls[c].status == InFlight;
    assert c == |s.calls| - 1;
    assert Values(s.accepted) == Values(s.accepted) + [] && Sound(s.calls[c]);
    NewestKeepsOneWriter(s, TimeOut(s, t, at), w, s.calls[c].(status := Cut(DeadlineExceeded)), []);
  }

  lemma StepKeepsOneWriter(s: State, l: Label, w: nat)
    requires Inv(s) && Enabled(s, l) && OneWriter(s, w) && (l.StartWrite? ==> l.thread == w)
    ensures OneWriter(Apply(s, l), w)
  {
    if Quiet(s, l) {
      QuietIsSameWrites(s, l);
      SameWritesKeepOneWriter(s, Apply(s, l), w);
    } else {
      match l
      case StartWrite(_, p) => StartKeepsOneWriter(s, p, w);
      case Run(t, t0, t1, t2) =>
        assert CallOf(s.threads[t]) >= 0;
        WriteKeepsOneWriter(s, t0, t1, t2, w);
      case Expire(t, at) => TimeOutKeepsOneWriter(s, t, at, w);
    }
  }

  lemma {:induction false} RunKeepsOneWriter(s: State, ls: seq<Label>, w: nat)
    requires Inv(s) && Runnable(s, ls) && OneWriter(s, w) && OnlyWriter(ls, w)
    ensures OneWriter(After(s, ls), w)
    decreases |ls|
  {
    if ls != [] {
      StepKeepsInv(s, ls[0]);
      StepKeepsOneWriter(s, ls[0], w);
      RunKeepsOneWriter(Apply(s, ls[0]), ls[1..], w);
    }
  }

  /** With one writing goroutine the readers get a prefix of what it wrote, call after call. */
  lemma OneWriterIsReadInOrder(ls: seq<Label>, w: nat)
    requires Inv(INITIAL) && Runnable(INITIAL, ls) && OnlyWriter(ls, w)
    ensures var s := After(INITIAL, ls);
            && s.delivered <= Joined(s.calls)
            && Joined(s.calls) == s.delivered + s.buf.data
  {
    RunKeepsOneWriter(INITIAL, ls, w);
  }
}
