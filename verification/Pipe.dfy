/**
 memPipe: two memBuffers crossed into two connection ends, and Close, which takes two
 separate lock-held updates under a sync.Once.  Anything may happen between them.
 */
module Pipe {
  import opened Common
  import opened MemBuffer
  import Stream

  datatype End = Client | Server

  /** How far Close has come at one end; a second caller of Close waits for the first. */
  datatype Phase = Open | HalfClosed | Shut

  /** `up` carries the client's writes, `down` the server's. */
  datatype State = State(up: Stream.State, down: Stream.State, client: Phase, server: Phase)

  datatype Label =
    | Up(step: Stream.Label)
    | Down(step: Stream.Label)
    | Close(end: End)

  const INITIAL := State(Stream.INITIAL, Stream.INITIAL, Open, Open)

  function In(p: State, e: End): Stream.State {
    if e == Client then p.down else p.up
  }

  function Out(p: State, e: End): Stream.State {
    if e == Client then p.up else p.down
  }

  function PhaseOf(p: State, e: End): Phase {
    if e == Client then p.client else p.server
  }

  function Peer(e: End): End {
    if e == Client then Server else Client
  }

  /** The flags of a buffer are the phases of the end that reads it and the end that writes it. */
  predicate FlagsMatch(s: Stream.State, writer: Phase, reader: Phase) {
    && (s.buf.readClosed <==> reader != Open)
    && (s.buf.writeClosed <==> writer == Shut)
  }

  ghost predicate Inv(p: State) {
    && Stream.Inv(p.up) && Stream.Inv(p.down)
    && FlagsMatch(p.up, p.client, p.server)
    && FlagsMatch(p.down, p.server, p.client)
  }

  /** Only Close closes. */
  predicate Foreign(l: Stream.Label) {
    !l.CloseRead? && !l.CloseWrite?
  }

  predicate Enabled(p: State, l: Label) {
    match l
    case Up(k) => Foreign(k) && Stream.Enabled(p.up, k)
    case Down(k) => Foreign(k) && Stream.Enabled(p.down, k)
    case Close(e) => PhaseOf(p, e) != Shut
  }

  ghost function Apply(p: State, l: Label): State
    requires Inv(p) && Enabled(p, l)
  {
    match l
    case Up(k) => p.(up := Stream.Apply(p.up, k))
    case Down(k) => p.(down := Stream.Apply(p.down, k))
    case Close(Client) =>
      if p.client == Open then p.(client := HalfClosed, down := Stream.Apply(p.down, Stream.CloseRead))
      else p.(client := Shut, up := Stream.Apply(p.up, Stream.CloseWrite))
    case Close(Server) =>
      if p.server == Open then p.(server := HalfClosed, up := Stream.Apply(p.up, Stream.CloseRead))
      else p.(server := Shut, down := Stream.Apply(p.down, Stream.CloseWrite))
  }

  /** A step leaves the close flags alone, unless it is the update that sets one. */
  lemma ForeignKeepsFlags(s: Stream.State, k: Stream.Label)
    requires Stream.Inv(s) && Foreign(k) && Stream.Enabled(s, k)
    ensures Stream.Apply(s, k).buf.readClosed == s.buf.readClosed
    ensures Stream.Apply(s, k).buf.writeClosed == s.buf.writeClosed
  {
  }

  /** The two updates of Close, each on its buffer. */
  lemma ClosingKeeps(s: Stream.State)
    requires Stream.Inv(s)
    ensures var s' := Stream.Apply(s, Stream.CloseRead);
            Stream.Inv(s') && s'.buf.readClosed && s'.buf.writeClosed == s.buf.writeClosed
    ensures var s' := Stream.Apply(s, Stream.CloseWrite);
            Stream.Inv(s') && s'.buf.writeClosed && s'.buf.readClosed == s.buf.readClosed
  {
    hide Stream.Inv;
    Stream.StepKeepsInv(s, Stream.CloseRead);
    Stream.StepKeepsInv(s, Stream.CloseWrite);
  }

  lemma StepKeepsInv(p: State, l: Label)
    requires Inv(p) && Enabled(p, l)
    ensures Inv(Apply(p, l))
  {
    hide Stream.Inv, Stream.Apply, Stream.Enabled;
    match l
    case Up(k) =>
      Stream.StepKeepsInv(p.up, k);
      ForeignKeepsFlags(p.up, k);
    case Down(k) =>
      Stream.StepKeepsInv(p.down, k);
      ForeignKeepsFlags(p.down, k);
    case Close(e) =>
      ClosingKeeps(p.up);
      ClosingKeeps(p.down);
  }

  ghost predicate Runnable(p: State, ls: seq<Label>)
    requires Inv(p)
    decreases |ls|
  {
    ls == [] || (Enabled(p, ls[0]) && (StepKeepsInv(p, ls[0]); Runnable(Apply(p, ls[0]), ls[1..])))
  }

  ghost function After(p: State, ls: seq<Label>): (p': State)
    requires Inv(p) && Runnable(p, ls)
    ensures Inv(p')
    decreases |ls|
  {
    if ls == [] then p
    else
      StepKeepsInv(p, ls[0]);
      After(Apply(p, ls[0]), ls[1..])
  }

  lemma InitialInv()
    ensures Inv(INITIAL)
  {
    Stream.InitialInv();
  }

  ghost predicate Later(p: State, p': State) {
    && Stream.Later(p.up, p'.up) && Stream.Later(p.down, p'.down)
    && (p.client == Shut ==> p'.client == Shut) && (p.server == Shut ==> p'.server == Shut)
    && (p.client != Open ==> p'.client != Open) && (p.server != Open ==> p'.server != Open)
  }

  lemma StepIsLater(p: State, l: Label)
    requires Inv(p) && Enabled(p, l)
    ensures Later(p, Apply(p, l))
  {
    match l
    case Up(k) => Stream.StepIsLater(p.up, k);
    case Down(k) => Stream.StepIsLater(p.down, k);
    case Close(_) =>
      Stream.StepIsLater(p.up, Stream.CloseWrite);
      Stream.StepIsLater(p.up, Stream.CloseRead);
      Stream.StepIsLater(p.down, Stream.CloseWrite);
      Stream.StepIsLater(p.down, Stream.CloseRead);
  }

  /** Whatever the threads at both ends do, flags only rise and streams only grow. */
  lemma {:induction false} RunIsLater(p: State, ls: seq<Label>)
    requires Inv(p) && Runnable(p, ls)
    ensures Later(p, After(p, ls))
    decreases |ls|
  {
    if ls != [] {
      StepKeepsInv(p, ls[0]);
      StepIsLater(p, ls[0]);
      RunIsLater(Apply(p, ls[0]), ls[1..]);
    }
  }

  /** When Close has returned, nobody anywhere on the connection stays parked. */
  lemma CloseReleasesEveryone(ls: seq<Label>, e: End, t: nat)
    requires Inv(INITIAL) && Runnable(INITIAL, ls)
    requires PhaseOf(After(INITIAL, ls), e) == Shut
    ensures var p := After(INITIAL, ls);
            && (t in p.up.threads && Stream.Waiting(p.up.threads[t]) ==> Enabled(p, Up(Stream.Wake(t))))
            && (t in p.down.threads && Stream.Waiting(p.down.threads[t]) ==> Enabled(p, Down(Stream.Wake(t))))
  {
    var p := After(INITIAL, ls);
    assert FlagsMatch(p.up, p.client, p.server) && FlagsMatch(p.down, p.server, p.client);
    assert Stream.NoLostWakeup(p.up.buf, p.up.threads) && Stream.NoLostWakeup(p.down.buf, p.down.threads);
  }

  /** After an end has closed, no byte is accepted in either direction, and what its peer will
      have read is at every moment the start of what was buffered when Close returned. */
  lemma {:induction false} CloseFixesBothStreams(p: State, ls: seq<Label>, e: End)
    requires Inv(p) && Runnable(p, ls) && PhaseOf(p, e) == Shut
    ensures var p' := After(p, ls);
            && Stream.Values(Out(p', e).accepted) == Stream.Values(Out(p, e).accepted)
            && Stream.Values(In(p', e).accepted) == Stream.Values(In(p, e).accepted)
            && In(p', Peer(e)).delivered <= In(p, Peer(e)).delivered + In(p, Peer(e)).buf.data
            && In(p', Peer(e)).delivered + In(p', Peer(e)).buf.data
                 == In(p, Peer(e)).delivered + In(p, Peer(e)).buf.data
  {
    RunIsLater(p, ls);
  }

  /** io.EOF reaches the peer only when the other end has closed and every byte has been read. */
  lemma EofOnlyAtTheEnd(ls: seq<Label>, e: End)
    requires Inv(INITIAL) && Runnable(INITIAL, ls) && In(After(INITIAL, ls), e).eof
    ensures var p := After(INITIAL, ls);
            && PhaseOf(p, Peer(e)) == Shut
            && In(p, e).delivered == Stream.Values(Out(p, Peer(e)).accepted)
  {
    var p := After(INITIAL, ls);
    assert Stream.EndIsEmpty(In(p, e).buf, In(p, e).eof);
    assert FlagsMatch(p.up, p.client, p.server) && FlagsMatch(p.down, p.server, p.client);
  }

  function OutLabel(e: End, k: Stream.Label): Label {
    if e == Client then Up(k) else Down(k)
  }

  /** How a write with bytes left ends once either end has begun to close: with net.ErrClosed when its own end
      is closed, with io.ErrClosedPipe when only the peer has begun to close; and nothing of it is accepted. */
  lemma WriteAfterClose(ls: seq<Label>, e: End, t: nat, t0: int, t1: int, t2: int)
    requires Inv(INITIAL) && Runnable(INITIAL, ls)
    requires var p := After(INITIAL, ls);
             && Stream.Enabled(Out(p, e), Stream.Run(t, t0, t1, t2)) && Out(p, e).threads[t].Writing?
             && Stream.Pending(Out(p, e).calls, Out(p, e).threads[t].call)
             && (PhaseOf(p, e) == Shut || PhaseOf(p, Peer(e)) != Open)
    ensures var p := After(INITIAL, ls);
            var k := OutLabel(e, Stream.Run(t, t0, t1, t2));
            var c := Out(p, e).threads[t].call;
            && Enabled(p, k) && c < |Out(Apply(p, k), e).calls|
            && var call' := Out(Apply(p, k), e).calls[c];
               && call'.status == Stream.Cut(if PhaseOf(p, e) == Shut then Closed else ClosedPipe)
               && call'.written == Out(p, e).calls[c].written
  {
    hide Stream.Inv, Stream.Apply, Runnable;
    var p := After(INITIAL, ls);
    assert FlagsMatch(p.up, p.client, p.server) && FlagsMatch(p.down, p.server, p.client);
    CallStays(Out(p, e), t, t0, t1, t2);
    Stream.WriteEndsExactly(Out(p, e), t, t0, t1, t2);
  }

  lemma CallStays(s: Stream.State, t: nat, t0: int, t1: int, t2: int)
    requires Stream.Inv(s) && Stream.Enabled(s, Stream.Run(t, t0, t1, t2)) && s.threads[t].Writing?
    requires Stream.Pending(s.calls, s.threads[t].call)
    ensures s.threads[t].call < |Stream.Apply(s, Stream.Run(t, t0, t1, t2)).calls|
  {
    hide Stream.NoLostWakeup, Stream.Fifo, Stream.EndIsEmpty, Stream.Counted;
    assert s.threads[t].call == Stream.CallOf(s.threads[t]);
  }

  /** Reading again and again with room for `want` bytes, until a read fails (or would park). */
  function ReadToEnd(b: Buf, want: nat, now: int): (seq<byte>, Option<Error>)
    requires want > 0
    decreases |b.data|
  {
    match ReadRegion(b, want, now, now)
    case (b', Got(bytes)) =>
      var (rest, e) := ReadToEnd(b', want, now);
      (bytes + rest, e)
    case (_, ReadFailed(e)) => ([], Some(e))
    case (_, ReadParked(_, _)) => ([], None)
  }

  lemma {:induction false} DrainThenEof(b: Buf, want: nat, now: int)
    requires want > 0 && b.writeClosed && !b.readClosed && !Expired(b.readDeadline, now)
    ensures ReadToEnd(b, want, now) == (b.data, Some(Eof))
    decreases |b.data|
  {
    if b.data != [] {
      var n := Min(want, |b.data|);
      var b' := b.(data := b.data[n..], changed := b.changed + 1);
      DrainThenEof(b', want, now);
      assert b.data == b.data[..n] + b.data[n..];
    }
  }

  /** The peer of a closed end reads exactly the bytes still buffered and then io.EOF, unless it
      has begun to close itself or its own read deadline has passed. */
  lemma PeerDrainsThenEof(ls: seq<Label>, e: End, want: nat, now: int)
    requires Inv(INITIAL) && Runnable(INITIAL, ls) && want > 0
    requires PhaseOf(After(INITIAL, ls), e) == Shut
    ensures var p := After(INITIAL, ls);
            var b := In(p, Peer(e)).buf;
            ReadToEnd(b, want, now) ==
              if PhaseOf(p, Peer(e)) != Open then ([], Some(Closed))
              else if Expired(b.readDeadline, now) then ([], Some(DeadlineExceeded))
              else (b.data, Some(Eof))
  {
    var p := After(INITIAL, ls);
    var b := In(p, Peer(e)).buf;
    assert FlagsMatch(p.up, p.client, p.server) && FlagsMatch(p.down, p.server, p.client);
    if !b.readClosed && !Expired(b.readDeadline, now) {
      DrainThenEof(b, want, now);
    }
  }
}
