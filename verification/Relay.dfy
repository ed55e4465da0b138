/**
 The two-pump relay (iamproxy/server.go relay, iamproxy/mysql.go myRelay) between two in-memory
 connections.  Two goroutines copy, one in each direction; the caller waits for either to stop, closes
 both connections, and waits for the other.  The MySQL pump that reads the client also answers it: then
 both pumps write to one buffer.
 */
module Relay {
  import opened Common
  import opened MemBuffer
  import Stream
  import Pipe

  /** The pump from front to back, and the one from back to front. */
  datatype Who = Forth | Home

  /** Where a pump is: inside Read of its source, inside Write to its destination, inside the Write of a
      refusal to the client, or finished. */
  datatype Pump = InRead | InWrite | InReply | Stopped

  /** What a pump does once a call has succeeded: read more, write what it has, answer the client, or give
      up.  io.Copy only reads and writes; only the pump forth answers. */
  datatype Move = ReadMore(want: nat) | WriteOut(payload: seq<byte>) | Reply(payload: seq<byte>) | GiveUp

  /** The caller: waiting for one pump, closing front, closing back, waiting for the other, gone. */
  datatype Caller = FirstWait | ClosingFront | ClosingBack | SecondWait | Returned

  /** The relay holds the server end of `front` and the client end of `back`.  `done` counts the
      tokens in the channel that the pumps send to when they stop. */
  datatype State = State(front: Pipe.State, back: Pipe.State, forth: Pump, home: Pump, done: nat, caller: Caller)

  datatype Label =
    | Step(who: Who, step: Stream.Label, move: Move)
    | Call
    | AtFront(strange: Pipe.Label)             // strangers on either connection
    | AtBack(strange: Pipe.Label)

  predicate Own(l: Label) {
    l.Step? || l.Call?
  }

  // ---- the four buffers

  datatype Lane = FrontUp | FrontDown | BackUp | BackDown

  function At(s: State, lane: Lane): Stream.State {
    match lane
    case FrontUp => s.front.up
    case FrontDown => s.front.down
    case BackUp => s.back.up
    case BackDown => s.back.down
  }

  function Put(s: State, lane: Lane, x: Stream.State): State {
    match lane
    case FrontUp => s.(front := s.front.(up := x))
    case FrontDown => s.(front := s.front.(down := x))
    case BackUp => s.(back := s.back.(up := x))
    case BackDown => s.(back := s.back.(down := x))
  }

  /** The thread number of a pump in every buffer; all other numbers are strangers. */
  function Thread(w: Who): nat {
    if w == Forth then 0 else 1
  }

  function Other(w: Who): Who {
    if w == Forth then Home else Forth
  }

  function PumpOf(s: State, w: Who): Pump {
    if w == Forth then s.forth else s.home
  }

  function SetPump(s: State, w: Who, p: Pump): State {
    if w == Forth then s.(forth := p) else s.(home := p)
  }

  /** The buffer a pump is inside of. */
  function Place(w: Who, p: Pump): Lane
    requires p != Stopped
  {
    match p
    case InRead => if w == Forth then FrontUp else BackDown
    case InWrite => if w == Forth then BackUp else FrontDown
    case InReply => FrontDown
  }

  // ---- one goroutine in one buffer

  predicate Inside(x: Stream.State, t: nat, p: Pump) {
    && t in x.threads
    && match p
       case InRead => Stream.CallOf(x.threads[t]) == -1
       case Stopped => false
       case _ => Stream.CallOf(x.threads[t]) >= 0 && Stream.Pending(x.calls, Stream.CallOf(x.threads[t]))
  }

  predicate By(k: Stream.Label, t: nat) {
    match k
    case Run(u, _, _, _) => u == t
    case Wake(u) => u == t
    case Expire(u, _) => u == t
    case _ => false
  }

  predicate NotBy(k: Stream.Label, t: nat) {
    match k
    case StartRead(u, _) => u != t
    case StartWrite(u, _) => u != t
    case Run(u, _, _, _) => u != t
    case Wake(u) => u != t
    case Expire(u, _) => u != t
    case _ => true
  }

  /** Goroutine t is where it was. */
  predicate Same(x: Stream.State, x': Stream.State, t: nat) {
    && (t in x'.threads <==> t in x.threads)
    && (t in x.threads ==> x'.threads[t] == x.threads[t])
    && (t in x.threads && 0 <= Stream.CallOf(x.threads[t]) < |x.calls| ==>
          && Stream.CallOf(x.threads[t]) < |x'.calls|
          && x'.calls[Stream.CallOf(x.threads[t])] == x.calls[Stream.CallOf(x.threads[t])])
  }

  lemma SameInside(x: Stream.State, x': Stream.State, t: nat, p: Pump)
    requires Same(x, x', t)
    ensures Inside(x, t, p) ==> Inside(x', t, p)
  {
  }

  lemma SameHere(x: Stream.State, t: nat)
    ensures Same(x, x, t)
  {
  }

  /** Steps of others do not touch a goroutine's own place in a buffer. */
  lemma OthersLeaveAlone(x: Stream.State, k: Stream.Label, t: nat)
    requires Stream.Inv(x) && Stream.Enabled(x, k) && NotBy(k, t)
    ensures Same(x, Stream.Apply(x, k), t)
  {
    hide Stream.NoLostWakeup, Stream.Fifo, Stream.EndIsEmpty, Stream.Counted;
    if t in x.threads && Stream.CallOf(x.threads[t]) >= 0 {
      var c := Stream.CallOf(x.threads[t]);
      assert c < |x.calls|;
      if (k.Run? || k.Expire?) && Stream.CallOf(x.threads[k.thread]) >= 0 {
        assert Stream.CallOf(x.threads[k.thread]) != c;
      }
    }
  }

  lemma StaysInside(x: Stream.State, k: Stream.Label, t: nat, p: Pump)
    requires Stream.Inv(x) && By(k, t) && Stream.Enabled(x, k) && Inside(x, t, p)
    ensures var x' := Stream.Apply(x, k);
            && (t in x'.threads ==> Inside(x', t, p))
            && (p != InRead ==> Stream.CallOf(x.threads[t]) < |x'.calls|)
  {
    hide Stream.NoLostWakeup, Stream.Fifo, Stream.EndIsEmpty, Stream.Counted;
    Stream.StepKeepsInv(x, k);
    assert Stream.Owned(Stream.Apply(x, k).threads, Stream.Apply(x, k).calls);
  }

  /** The call that a goroutine was in has returned without an error. */
  predicate Succeeded(x: Stream.State, x': Stream.State, t: nat, p: Pump)
    requires t in x.threads && (p != InRead ==> 0 <= Stream.CallOf(x.threads[t]) < |x'.calls|)
  {
    if p == InRead then |x'.delivered| > |x.delivered|
    else x'.calls[Stream.CallOf(x.threads[t])].status == Stream.Complete
  }

  // ---- the relay

  /** Each pump is inside the one buffer that its phase names, and in no other. */
  predicate PumpIs(s: State, w: Who, p: Pump) {
    && (p == InReply ==> w == Forth)
    && forall lane ::
         if p != Stopped && lane == Place(w, p) then Inside(At(s, lane), Thread(w), p)
         else Thread(w) !in At(s, lane).threads
  }

  predicate MoveOk(w: Who, m: Move) {
    match m
    case ReadMore(want) => want > 0
    case WriteOut(payload) => payload != []
    case Reply(payload) => w == Forth && payload != []
    case GiveUp => true
  }

  /** Strangers may do anything except close the relay's own end or act as a pump. */
  predicate Outside(l: Pipe.Label, mine: Pipe.End) {
    match l
    case Up(k) => NotBy(k, 0) && NotBy(k, 1)
    case Down(k) => NotBy(k, 0) && NotBy(k, 1)
    case Close(e) => e != mine
  }

  /** The goroutine that a label is a step of, if any. */
  function Actor(k: Stream.Label): Option<nat> {
    match k
    case StartRead(t, _) => Some(t)
    case StartWrite(t, _) => Some(t)
    case Run(t, _, _, _) => Some(t)
    case Wake(t) => Some(t)
    case Expire(t, _) => Some(t)
    case _ => None
  }

  /** Everybody else may act in any buffer, set any deadline and close the far ends. */
  lemma StrangersAreFree(k: Stream.Label, mine: Pipe.End)
    ensures Outside(Pipe.Up(k), mine) <==> Actor(k) != Some(0) && Actor(k) != Some(1)
    ensures Outside(Pipe.Down(k), mine) <==> Actor(k) != Some(0) && Actor(k) != Some(1)
    ensures Outside(Pipe.Close(Pipe.Peer(mine)), mine) && !Outside(Pipe.Close(mine), mine)
  {
  }

  predicate Enabled(s: State, l: Label) {
    match l
    case Step(w, k, m) =>
      && PumpOf(s, w) != Stopped && By(k, Thread(w)) && MoveOk(w, m)
      && Stream.Enabled(At(s, Place(w, PumpOf(s, w))), k)
    case Call =>
      (match s.caller
       case FirstWait => s.done > 0
       case SecondWait => s.done > 0
       case Returned => false
       case _ => true)
    case AtFront(p) => Outside(p, Pipe.Server) && Pipe.Enabled(s.front, p)
    case AtBack(p) => Outside(p, Pipe.Client) && Pipe.Enabled(s.back, p)
  }

  function Count(p: Pump): nat {
    if p == Stopped then 1 else 0
  }

  function Received(c: Caller): nat {
    if c == FirstWait then 0 else if c == Returned then 2 else 1
  }

  predicate ClosedSoFar(s: State) {
    && (s.caller.FirstWait? ==> s.front.server == Pipe.Open)
    && (s.caller.ClosingFront? ==> s.front.server != Pipe.Shut)
    && (s.caller.FirstWait? || s.caller.ClosingFront? ==> s.back.client == Pipe.Open)
    && (s.caller.ClosingBack? ==> s.front.server == Pipe.Shut && s.back.client != Pipe.Shut)
    && (s.caller.SecondWait? || s.caller.Returned? ==> s.front.server == Pipe.Shut && s.back.client == Pipe.Shut)
  }

  ghost predicate Pipes(s: State) {
    Pipe.Inv(s.front) && Pipe.Inv(s.back) && ClosedSoFar(s)
  }

  ghost predicate Inv(s: State) {
    && Pipes(s)
    && PumpIs(s, Forth, s.forth) && PumpIs(s, Home, s.home)
    && s.done + Received(s.caller) == Count(s.forth) + Count(s.home)
  }

  lemma LaneInv(s: State, lane: Lane)
    requires Pipes(s)
    ensures Stream.Inv(At(s, lane))
  {
  }

  // ---- one step of a pump

  /** After a refusal, sent or not, the loop reads the next header. */
  function Decide(p: Pump, ok: bool, m: Move): Move {
    if p == InReply then
      if ok && m.Reply? then m else if m.ReadMore? then m else ReadMore(4)
    else if ok then m
    else GiveUp
  }

  lemma DecisionIsOk(w: Who, p: Pump, ok: bool, m: Move)
    requires MoveOk(w, m) && (p == InReply ==> w == Forth)
    ensures MoveOk(w, Decide(p, ok, m))
  {
  }

  function StartOf(w: Who, m: Move): (Pump, Stream.Label)
    requires !m.GiveUp?
  {
    match m
    case ReadMore(want) => (InRead, Stream.StartRead(Thread(w), want))
    case WriteOut(payload) => (InWrite, Stream.StartWrite(Thread(w), payload))
    case Reply(payload) => (InReply, Stream.StartWrite(Thread(w), payload))
  }

  ghost function Begin(s: State, w: Who, m: Move): State
    requires Pipes(s) && PumpIs(s, w, Stopped) && MoveOk(w, m)
  {
    if m.GiveUp? then SetPump(s, w, Stopped).(done := s.done + 1)
    else
      var (p, k) := StartOf(w, m);
      LaneInv(s, Place(w, p));
      SetPump(Put(s, Place(w, p), Stream.Apply(At(s, Place(w, p)), k)), w, p)
  }

  /** The buffer that a pump's step acts on, afterwards. */
  ghost function Acted(s: State, w: Who, k: Stream.Label): (x: Stream.State)
    requires Pipes(s) && PumpOf(s, w) != Stopped && PumpIs(s, w, PumpOf(s, w))
    requires By(k, Thread(w)) && Stream.Enabled(At(s, Place(w, PumpOf(s, w))), k)
  {
    LaneInv(s, Place(w, PumpOf(s, w)));
    Stream.Apply(At(s, Place(w, PumpOf(s, w))), k)
  }

  /** A pump that got what it asked for moves on; one whose call failed stops, unless it was answering. */
  ghost function PumpStep(s: State, w: Who, k: Stream.Label, m: Move): State
    requires Inv(s) && Enabled(s, Step(w, k, m))
  {
    var p := PumpOf(s, w);
    var lane := Place(w, p);
    PumpInPlace(s, w);
    var x' := Acted(s, w, k);
    var s' := Put(s, lane, x');
    if Thread(w) in x'.threads then s'
    else
      CallHasEnded(s, w, k);
      var next := Decide(p, Succeeded(At(s, lane), x', Thread(w), p), m);
      DecisionIsOk(w, p, Succeeded(At(s, lane), x', Thread(w), p), m);
      Begin(s', w, next)
  }

  lemma PumpInPlace(s: State, w: Who)
    requires Inv(s)
    ensures PumpIs(s, w, PumpOf(s, w))
  {
  }

  lemma PutGet(s: State, lane: Lane, x: Stream.State, other: Lane)
    ensures At(Put(s, lane, x), other) == if other == lane then x else At(s, other)
  {
  }

  /** A step of one goroutine in a buffer, as the others see it. */
  ghost predicate LaneStep(x: Stream.State, x': Stream.State, t: nat) {
    && Stream.Inv(x')
    && x'.buf.readClosed == x.buf.readClosed && x'.buf.writeClosed == x.buf.writeClosed
    && forall u: nat :: u != t ==> Same(x, x', u)
  }

  lemma StepIsLaneStep(x: Stream.State, k: Stream.Label, t: nat)
    requires Stream.Inv(x) && Stream.Enabled(x, k)
    requires By(k, t) || (k.StartRead? && k.thread == t) || (k.StartWrite? && k.thread == t)
    ensures LaneStep(x, Stream.Apply(x, k), t)
  {
    hide Stream.Inv, Stream.Apply, Stream.Enabled, Same;
    Stream.StepKeepsInv(x, k);
    Pipe.ForeignKeepsFlags(x, k);
    forall u: nat | u != t ensures Same(x, Stream.Apply(x, k), u) {
      OthersLeaveAlone(x, k, u);
    }
  }

  lemma PutKeepsPipes(s: State, lane: Lane, x': Stream.State, t: nat)
    requires Pipes(s) && LaneStep(At(s, lane), x', t)
    ensures Pipes(Put(s, lane, x'))
  {
    hide Stream.Inv, Same;
  }

  lemma PutKeepsOther(s: State, lane: Lane, x': Stream.State, w: Who, p: Pump)
    requires PumpIs(s, Other(w), p) && LaneStep(At(s, lane), x', Thread(w))
    ensures PumpIs(Put(s, lane, x'), Other(w), p)
  {
    hide Stream.Inv, Same, Inside;
    var u := Thread(Other(w));
    forall l: Lane
      ensures if p != Stopped && l == Place(Other(w), p) then Inside(At(Put(s, lane, x'), l), u, p)
              else u !in At(Put(s, lane, x'), l).threads
    {
      PutGet(s, lane, x', l);
      if l == lane {
        assert Same(At(s, lane), x', u);
        SameInside(At(s, lane), x', u, p);
        SameThreads(At(s, lane), x', u);
      }
    }
  }

  lemma SameThreads(x: Stream.State, x': Stream.State, t: nat)
    requires Same(x, x', t)
    ensures t in x'.threads <==> t in x.threads
  {
  }

  /** Leaving a buffer, or staying inside it. */
  lemma PutMovesPump(s: State, w: Who, p: Pump, x': Stream.State)
    requires PumpIs(s, w, p) && p != Stopped && (Thread(w) in x'.threads ==> Inside(x', Thread(w), p))
    ensures PumpIs(Put(s, Place(w, p), x'), w, if Thread(w) in x'.threads then p else Stopped)
  {
    hide Inside;
    forall l: Lane
      ensures At(Put(s, Place(w, p), x'), l) == if l == Place(w, p) then x' else At(s, l)
    {
      PutGet(s, Place(w, p), x', l);
    }
  }

  /** Entering one. */
  lemma PutEntersPump(s: State, w: Who, p: Pump, x': Stream.State)
    requires PumpIs(s, w, Stopped) && p != Stopped && Inside(x', Thread(w), p) && (p == InReply ==> w == Forth)
    ensures PumpIs(Put(s, Place(w, p), x'), w, p)
  {
    hide Inside;
    forall l: Lane
      ensures At(Put(s, Place(w, p), x'), l) == if l == Place(w, p) then x' else At(s, l)
    {
      PutGet(s, Place(w, p), x', l);
    }
  }

  /** What a step of pump w on one buffer leaves of everything else. */
  lemma CallHasEnded(s: State, w: Who, k: Stream.Label)
    requires Inv(s) && PumpOf(s, w) != Stopped && By(k, Thread(w))
    requires Stream.Enabled(At(s, Place(w, PumpOf(s, w))), k)
    ensures var p := PumpOf(s, w);
            var x := At(s, Place(w, p));
            var x' := Acted(s, w, k);
            var s' := Put(s, Place(w, p), x');
            && Thread(w) in x.threads && (p != InRead ==> 0 <= Stream.CallOf(x.threads[Thread(w)]) < |x'.calls|)
            && LaneStep(x, x', Thread(w))
            && Pipes(s') && PumpIs(s', Other(w), PumpOf(s, Other(w)))
            && PumpIs(s', w, if Thread(w) in x'.threads then p else Stopped)
  {
    hide Stream.Inv, Stream.Apply, Stream.Enabled, Same, LaneStep, Pipe.Inv;
    var p := PumpOf(s, w);
    var lane := Place(w, p);
    LaneInv(s, lane);
    PumpInPlace(s, w);
    PumpInPlace(s, Other(w));
    var x := At(s, lane);
    StepIsLaneStep(x, k, Thread(w));
    StaysInside(x, k, Thread(w), p);
    PutKeepsPipes(s, lane, Acted(s, w, k), Thread(w));
    PutKeepsOther(s, lane, Acted(s, w, k), w, PumpOf(s, Other(w)));
    PutMovesPump(s, w, p, Acted(s, w, k));
  }

  lemma SetKeeps(s: State, w: Who, p: Pump, q: Pump, v: Who)
    ensures Pipes(SetPump(s, w, p)) <==> Pipes(s)
    ensures PumpIs(SetPump(s, w, p), v, q) <==> PumpIs(s, v, q)
    ensures PumpOf(SetPump(s, w, p), w) == p && PumpOf(SetPump(s, w, p), Other(w)) == PumpOf(s, Other(w))
  {
    hide Inside, Pipe.Inv;
    forall l: Lane ensures At(SetPump(s, w, p), l) == At(s, l) {
    }
  }

  lemma StartIsInside(x: Stream.State, w: Who, m: Move)
    requires Stream.Inv(x) && Thread(w) !in x.threads && MoveOk(w, m) && !m.GiveUp?
    ensures var (p, k) := StartOf(w, m);
            Stream.Enabled(x, k) && Inside(Stream.Apply(x, k), Thread(w), p)
  {
    hide Stream.NoLostWakeup, Stream.Fifo, Stream.EndIsEmpty, Stream.Counted, Stream.Owned;
  }

  lemma BeginKeeps(s: State, w: Who, m: Move)
    requires Pipes(s) && PumpIs(s, w, Stopped) && MoveOk(w, m)
    requires PumpIs(s, Other(w), PumpOf(s, Other(w)))
    ensures var s' := Begin(s, w, m);
            && Pipes(s') && PumpIs(s', w, PumpOf(s', w)) && PumpIs(s', Other(w), PumpOf(s', Other(w)))
            && PumpOf(s', Other(w)) == PumpOf(s, Other(w))
            && s'.done == s.done + Count(PumpOf(s', w)) && s'.caller == s.caller
  {
    hide Stream.Inv, Stream.Apply, Stream.Enabled, Same, LaneStep, Inside, Pipe.Inv, ClosedSoFar;
    if m.GiveUp? {
      SetKeeps(s, w, Stopped, Stopped, w);
      SetKeeps(s, w, Stopped, PumpOf(s, Other(w)), Other(w));
      DoneIsApart(SetPump(s, w, Stopped), s.done + 1, w);
    } else {
      var (p, k) := StartOf(w, m);
      var lane := Place(w, p);
      LaneInv(s, lane);
      StartIsInside(At(s, lane), w, m);
      var x' := Stream.Apply(At(s, lane), k);
      StepIsLaneStep(At(s, lane), k, Thread(w));
      PutKeepsPipes(s, lane, x', Thread(w));
      PutKeepsOther(s, lane, x', w, PumpOf(s, Other(w)));
      PutEntersPump(s, w, p, x');
      SetKeeps(Put(s, lane, x'), w, p, p, w);
      SetKeeps(Put(s, lane, x'), w, p, PumpOf(s, Other(w)), Other(w));
    }
  }

  lemma DoneIsApart(s: State, done: nat, w: Who)
    ensures Pipes(s.(done := done)) <==> Pipes(s)
    ensures forall v, q :: PumpIs(s.(done := done), v, q) <==> PumpIs(s, v, q)
  {
    hide Inside, Pipe.Inv;
    forall l: Lane ensures At(s.(done := done), l) == At(s, l) {
    }
  }

  lemma PumpStepKeepsInv(s: State, w: Who, k: Stream.Label, m: Move)
    requires Inv(s) && Enabled(s, Step(w, k, m))
    ensures var s' := PumpStep(s, w, k, m);
            && Inv(s') && s'.caller == s.caller && PumpOf(s', Other(w)) == PumpOf(s, Other(w))
  {
    hide Stream.Inv, Stream.Apply, Stream.Enabled, Same, LaneStep, Inside, Pipe.Inv, ClosedSoFar, PumpIs;
    hide Begin, Acted, Succeeded, Decide;
    var p := PumpOf(s, w);
    PumpInPlace(s, w);
    CallHasEnded(s, w, k);
    var x' := Acted(s, w, k);
    var s' := Put(s, Place(w, p), x');
    if Thread(w) !in x'.threads {
      var next := Decide(p, Succeeded(At(s, Place(w, p)), x', Thread(w), p), m);
      DecisionIsOk(w, p, Succeeded(At(s, Place(w, p)), x', Thread(w), p), m);
      BeginKeeps(s', w, next);
    }
  }

  // ---- the step relation

  ghost function Apply(s: State, l: Label): State
    requires Inv(s) && Enabled(s, l)
  {
    match l
    case Step(w, k, m) => PumpStep(s, w, k, m)
    case Call =>
      (match s.caller
       case FirstWait => s.(done := s.done - 1, caller := ClosingFront)
       case ClosingFront =>
         var front := Pipe.Apply(s.front, Pipe.Close(Pipe.Server));
         s.(front := front, caller := if front.server == Pipe.Shut then ClosingBack else ClosingFront)
       case ClosingBack =>
         var back := Pipe.Apply(s.back, Pipe.Close(Pipe.Client));
         s.(back := back, caller := if back.client == Pipe.Shut then SecondWait else ClosingBack)
       case SecondWait => s.(done := s.done - 1, caller := Returned))
    case AtFront(p) => s.(front := Pipe.Apply(s.front, p))
    case AtBack(p) => s.(back := Pipe.Apply(s.back, p))
  }

  /** A pump is left where it is. */
  predicate SameFor(s: State, s': State, w: Who) {
    forall lane :: Same(At(s, lane), At(s', lane), Thread(w))
  }

  predicate SamePumps(s: State, s': State) {
    SameFor(s, s', Forth) && SameFor(s, s', Home)
  }

  /** How many more steps a pump has in it once both connections are closed. */
  function PumpSteps(s: State, w: Who): nat
    requires PumpIs(s, w, PumpOf(s, w))
  {
    var p := PumpOf(s, w);
    if p == Stopped then 0
    else
      (if p == InReply then 2 else 1)
        + if Stream.Waiting(At(s, Place(w, p)).threads[Thread(w)]) then 1 else 0
  }

  lemma SamePumpsKeep(s: State, s': State, w: Who)
    requires PumpIs(s, w, PumpOf(s, w)) && SameFor(s, s', w) && PumpOf(s', w) == PumpOf(s, w)
    ensures PumpIs(s', w, PumpOf(s', w)) && PumpSteps(s', w) == PumpSteps(s, w)
  {
    hide Inside, Same;
    var p := PumpOf(s, w);
    forall lane: Lane
      ensures if p != Stopped && lane == Place(w, p) then Inside(At(s', lane), Thread(w), p)
              else Thread(w) !in At(s', lane).threads
    {
      assert Same(At(s, lane), At(s', lane), Thread(w));
      SameInside(At(s, lane), At(s', lane), Thread(w), p);
      SameThreads(At(s, lane), At(s', lane), Thread(w));
    }
    if p != Stopped {
      SameThread(At(s, Place(w, p)), At(s', Place(w, p)), w, p);
    }
  }

  lemma SameThread(x: Stream.State, x': Stream.State, w: Who, p: Pump)
    requires Inside(x, Thread(w), p) && Same(x, x', Thread(w))
    ensures x'.threads[Thread(w)] == x.threads[Thread(w)]
  {
  }

  /** What strangers do on a connection moves no pump and closes no end of the relay. */
  lemma StrangersLeaveAlone(p: Pipe.State, l: Pipe.Label, mine: Pipe.End, t: nat)
    requires Pipe.Inv(p) && Pipe.Enabled(p, l) && Outside(l, mine) && t < 2
    ensures var p' := Pipe.Apply(p, l);
            && Same(p.up, p'.up, t) && Same(p.down, p'.down, t)
            && Pipe.PhaseOf(p', mine) == Pipe.PhaseOf(p, mine)
  {
    hide Stream.Inv;
    match l
    case Up(k) => OthersLeaveAlone(p.up, k, t);
    case Down(k) => OthersLeaveAlone(p.down, k, t);
    case Close(_) =>
  }

  lemma FrontStep(s: State, p: Pipe.Label)
    requires Inv(s) && Enabled(s, AtFront(p))
    ensures SamePumps(s, Apply(s, AtFront(p))) && Pipes(Apply(s, AtFront(p)))
  {
    hide Stream.Inv, Stream.Apply, Pipe.Apply, Pipe.Inv, Same, Inside, PumpIs;
    Pipe.StepKeepsInv(s.front, p);
    forall lane: Lane, w: Who
      ensures Same(At(s, lane), At(Apply(s, AtFront(p)), lane), Thread(w))
    {
      StrangersLeaveAlone(s.front, p, Pipe.Server, Thread(w));
      SameHere(At(s, lane), Thread(w));
    }
    StrangersLeaveAlone(s.front, p, Pipe.Server, 0);
  }

  lemma BackStep(s: State, p: Pipe.Label)
    requires Inv(s) && Enabled(s, AtBack(p))
    ensures SamePumps(s, Apply(s, AtBack(p))) && Pipes(Apply(s, AtBack(p)))
  {
    hide Stream.Inv, Stream.Apply, Pipe.Apply, Pipe.Inv, Same, Inside, PumpIs;
    Pipe.StepKeepsInv(s.back, p);
    forall lane: Lane, w: Who
      ensures Same(At(s, lane), At(Apply(s, AtBack(p)), lane), Thread(w))
    {
      StrangersLeaveAlone(s.back, p, Pipe.Client, Thread(w));
      SameHere(At(s, lane), Thread(w));
    }
    StrangersLeaveAlone(s.back, p, Pipe.Client, 0);
  }

  /** Closing wakes threads; it does not move them. */
  lemma CloseMovesNobody(p: Pipe.State, e: Pipe.End, t: nat)
    requires Pipe.Inv(p) && Pipe.Enabled(p, Pipe.Close(e))
    ensures var p' := Pipe.Apply(p, Pipe.Close(e));
            && Same(p.up, p'.up, t) && Same(p.down, p'.down, t)
            && Pipe.PhaseOf(p', e) == (if Pipe.PhaseOf(p, e) == Pipe.Open then Pipe.HalfClosed else Pipe.Shut)
  {
    hide Stream.Inv;
    match e
    case Client =>
    case Server =>
  }

  lemma CallStep(s: State)
    requires Inv(s) && Enabled(s, Call)
    ensures SamePumps(s, Apply(s, Call)) && Pipes(Apply(s, Call))
  {
    hide Stream.Inv, Stream.Apply, Pipe.Apply, Pipe.Inv, Same, Inside, PumpIs;
    var s' := Apply(s, Call);
    if s.caller == ClosingFront {
      Pipe.StepKeepsInv(s.front, Pipe.Close(Pipe.Server));
      CloseMovesNobody(s.front, Pipe.Server, 0);
      CloseMovesNobody(s.front, Pipe.Server, 1);
    }
    if s.caller == ClosingBack {
      Pipe.StepKeepsInv(s.back, Pipe.Close(Pipe.Client));
      CloseMovesNobody(s.back, Pipe.Client, 0);
      CloseMovesNobody(s.back, Pipe.Client, 1);
    }
    forall lane: Lane, w: Who
      ensures Same(At(s, lane), At(s', lane), Thread(w))
    {
      SameHere(At(s, lane), Thread(w));
    }
  }

  /** Steps of the caller and of strangers move no pump. */
  lemma OtherStep(s: State, l: Label)
    requires Inv(s) && Enabled(s, l) && !l.Step?
    ensures SamePumps(s, Apply(s, l)) && Pipes(Apply(s, l))
  {
    hide Pipes, SamePumps, PumpIs;
    match l
    case Call => CallStep(s);
    case AtFront(p) => FrontStep(s, p);
    case AtBack(p) => BackStep(s, p);
  }

  /** Which buffers a pump uses: forth reads what the client wrote, writes to the backend and answers to the
      client; home reads what the backend wrote and writes to the client.  A buffer of any other use is left
      alone by the pump's calls. */
  predicate Uses(w: Who, p: Pump, lane: Lane) {
    match lane
    case FrontUp => w == Forth && p == InRead
    case BackUp => w == Forth && p == InWrite
    case FrontDown => (w == Forth && p == InReply) || (w == Home && p == InWrite)
    case BackDown => w == Home && p == InRead
  }

  lemma CallsStayInTheirLane(s: State, w: Who, lane: Lane)
    requires Inv(s) && PumpOf(s, w) != Stopped
    ensures Thread(w) in At(s, lane).threads <==> Uses(w, PumpOf(s, w), lane)
  {
    hide Pipes;
    PumpInPlace(s, w);
    if PumpIs(s, w, PumpOf(s, w)) {
      assert lane == Place(w, PumpOf(s, w)) ==> Inside(At(s, lane), Thread(w), PumpOf(s, w));
    }
  }

  lemma StepKeepsInv(s: State, l: Label)
    requires Inv(s) && Enabled(s, l)
    ensures Inv(Apply(s, l))
  {
    hide Pipes, SameFor, PumpIs, PumpStep, Pipe.Apply;
    if l.Step? {
      PumpStepKeepsInv(s, l.who, l.step, l.move);
    } else {
      OtherStep(s, l);
      SamePumpsKeep(s, Apply(s, l), Forth);
      SamePumpsKeep(s, Apply(s, l), Home);
    }
  }

  ghost predicate Runnable(s: State, ls: seq<Label>)
    requires Inv(s)
    decreases |ls|
  {
    ls == [] || (Enabled(s, ls[0]) && (StepKeepsInv(s, ls[0]); Runnable(Apply(s, ls[0]), ls[1..])))
  }

  ghost function After(s: State, ls: seq<Label>): (s': State)
    requires Inv(s) && Runnable(s, ls)
    ensures Inv(s')
    decreases |ls|
  {
    if ls == [] then s
    else
      StepKeepsInv(s, ls[0]);
      After(Apply(s, ls[0]), ls[1..])
  }

  /** A relay that starts on two connections nobody at its ends has closed. */
  ghost predicate Begins(s: State) {
    && Inv(s) && s.caller == FirstWait && s.forth == InRead && s.home == InRead
  }

  /** For example on two fresh connections, with both pumps in their first Read. */
  lemma FreshRelayBegins(want: nat, want': nat)
    ensures var front := Pipe.INITIAL.(up := Stream.INITIAL.(threads := map[0 := Stream.Reading(want)]));
            var back := Pipe.INITIAL.(down := Stream.INITIAL.(threads := map[1 := Stream.Reading(want')]));
            Begins(State(front, back, InRead, InRead, 0, FirstWait))
  {
    Pipe.InitialInv();
  }

  /** The relay returns only when both pumps have stopped and both its ends are closed. */
  lemma ReturnsWhenBothStopped(s: State, ls: seq<Label>)
    requires Begins(s) && Runnable(s, ls) && After(s, ls).caller == Returned
    ensures var s' := After(s, ls);
            && s'.forth == Stopped && s'.home == Stopped && s'.done == 0
            && s'.front.server == Pipe.Shut && s'.back.client == Pipe.Shut
  {
    hide PumpIs, Pipe.Inv;
  }

  /** Nothing is closed before a pump has stopped by itself. */
  lemma ClosesOnlyAfterAStop(s: State, ls: seq<Label>)
    requires Begins(s) && Runnable(s, ls)
    requires After(s, ls).front.server != Pipe.Open || After(s, ls).back.client != Pipe.Open
    ensures After(s, ls).forth == Stopped || After(s, ls).home == Stopped
  {
    hide PumpIs, Pipe.Inv;
  }
}
