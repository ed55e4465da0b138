/**
 How the relay ends: from the first pump that stops to the closed connections, and from there to the
 return, whatever the other pump and strangers on the connections do.
 */
module RelayEnd {
  import Stream
  import Pipe
  import opened Relay

  // ---- from the first stop to the closed connections

  /** Updates that the caller still has to make before both connections are closed, and the wait. */
  function CloseLeft(s: State): nat {
    match s.caller
    case FirstWait => 5
    case ClosingFront => if s.front.server == Pipe.Open then 4 else 3
    case ClosingBack => if s.back.client == Pipe.Open then 2 else 1
    case _ => 0
  }

  predicate AStop(s: State) {
    s.forth == Stopped || s.home == Stopped
  }

  function Calls(ls: seq<Label>): nat {
    if ls == [] then 0 else (if ls[0] == Call then 1 else 0) + Calls(ls[1..])
  }

  lemma PumpStepKeepsStops(s: State, w: Who, k: Stream.Label, m: Move)
    requires Inv(s) && Enabled(s, Step(w, k, m))
    ensures var s' := PumpStep(s, w, k, m);
            && s'.front.server == s.front.server && s'.back.client == s.back.client
            && (AStop(s) ==> AStop(s'))
  {
    hide Pipes, PumpIs, Acted, Succeeded, Decide;
    PumpStepKeepsInv(s, w, k, m);
  }

  /** Only the caller's own steps close, one update each, and once a pump has stopped they are possible. */
  lemma StepCloses(s: State, l: Label)
    requires Inv(s) && Enabled(s, l) && AStop(s)
    ensures Inv(Apply(s, l)) && AStop(Apply(s, l))
    ensures CloseLeft(Apply(s, l)) == if l == Call && CloseLeft(s) > 0 then CloseLeft(s) - 1 else CloseLeft(s)
    ensures CloseLeft(s) > 0 ==> Enabled(s, Call)
  {
    hide PumpIs, PumpStep, Pipe.Apply, Pipe.Inv, Same;
    StepKeepsInv(s, l);
    match l
    case Step(w, k, m) =>
      PumpStepKeepsInv(s, w, k, m);
      PumpStepKeepsStops(s, w, k, m);
    case Call => CallUpdates(s);
    case AtFront(p) => StrangersLeaveAlone(s.front, p, Pipe.Server, 0);
    case AtBack(p) => StrangersLeaveAlone(s.back, p, Pipe.Client, 0);
  }

  lemma CallUpdates(s: State)
    requires Inv(s) && Enabled(s, Call)
    ensures CloseLeft(Apply(s, Call)) == if CloseLeft(s) > 0 then CloseLeft(s) - 1 else 0
  {
    hide PumpIs, Pipe.Apply, Pipe.Inv, Same;
    if s.caller == ClosingFront {
      CloseMovesNobody(s.front, Pipe.Server, 0);
    }
    if s.caller == ClosingBack {
      CloseMovesNobody(s.back, Pipe.Client, 0);
    }
  }

  /** Once either pump has stopped, five steps of the caller close both connections, whatever the other pump
      and strangers do in between, and each of the five can be taken as soon as the one before is done. */
  lemma {:induction false} AStopClosesBoth(s: State, ls: seq<Label>)
    requires Inv(s) && AStop(s) && Runnable(s, ls)
    ensures var s' := After(s, ls);
            && CloseLeft(s') == (if Calls(ls) < CloseLeft(s) then CloseLeft(s) - Calls(ls) else 0)
            && (CloseLeft(s') > 0 ==> Enabled(s', Call))
            && (Calls(ls) >= 5 ==> s'.front.server == Pipe.Shut && s'.back.client == Pipe.Shut)
    decreases |ls|
  {
    hide PumpIs, Apply, Pipe.Inv;
    if ls != [] {
      StepCloses(s, ls[0]);
      AStopClosesBoth(Apply(s, ls[0]), ls[1..]);
    }
  }

  // ---- from the closed connections to the return

  /** The step a pump can always take once its connections are closed. */
  function NextOf(x: Stream.State, t: nat): Stream.Label
    requires t in x.threads
  {
    if Stream.Waiting(x.threads[t]) then Stream.Wake(t) else Stream.Run(t, x.now, x.now, x.now)
  }

  lemma ClosedCallMoves(x: Stream.State, t: nat)
    requires Stream.NoLostWakeup(x.buf, x.threads) && t in x.threads && (x.buf.readClosed || x.buf.writeClosed)
    ensures Stream.Enabled(x, NextOf(x, t)) && By(NextOf(x, t), t)
  {
  }

  lemma PumpLaneIsClosed(s: State, w: Who)
    requires Inv(s) && PumpOf(s, w) != Stopped && s.front.server == Pipe.Shut && s.back.client == Pipe.Shut
    ensures var p := PumpOf(s, w);
            var x := At(s, Place(w, p));
            && Inside(x, Thread(w), p) && Stream.NoLostWakeup(x.buf, x.threads)
            && (if p == InRead then x.buf.readClosed else x.buf.writeClosed)
  {
    hide Inside, Stream.NoLostWakeup, Stream.Fifo, Stream.EndIsEmpty, Stream.Counted, Stream.Owned;
    PumpInPlace(s, w);
    LaneInv(s, Place(w, PumpOf(s, w)));
  }

  /** Once one pump has stopped, the relay can move until it has returned: neither the caller, nor a pump
      parked in Read, in Write or in the Write of a refusal, is ever stuck. */
  lemma RelayIsNeverStuck(s: State, ls: seq<Label>)
    requires Begins(s) && Runnable(s, ls)
    requires After(s, ls).caller != Returned && AStop(After(s, ls))
    ensures exists l :: Own(l) && Enabled(After(s, ls), l)
  {
    hide Inv, Enabled;
    StoppedRelayMoves(After(s, ls));
  }

  lemma StoppedRelayMoves(s: State)
    requires Inv(s) && s.caller != Returned && AStop(s)
    ensures exists l :: Own(l) && Enabled(s, l)
  {
    hide PumpIs, Pipe.Inv, Inside, Stream.NoLostWakeup;
    if Enabled(s, Call) {
      assert Own(Call);
    } else {
      var w := if s.forth != Stopped then Forth else Home;
      PumpLaneIsClosed(s, w);
      var x := At(s, Place(w, PumpOf(s, w)));
      InsideIsThread(x, Thread(w), PumpOf(s, w));
      ClosedCallMoves(x, Thread(w));
      var l := Step(w, NextOf(x, Thread(w)), GiveUp);
      assert Own(l) && Enabled(s, l);
    }
  }

  lemma InsideIsThread(x: Stream.State, t: nat, p: Pump)
    requires Inside(x, t, p)
    ensures t in x.threads
  {
  }

  /** On a closed buffer the pump's call either wakes up or fails; it never brings bytes. */
  lemma ClosedReadEnds(x: Stream.State, k: Stream.Label, t: nat)
    requires Stream.Inv(x) && By(k, t) && Stream.Enabled(x, k) && Inside(x, t, InRead) && x.buf.readClosed
    ensures var x' := Stream.Apply(x, k);
            && x'.delivered == x.delivered
            && (t in x'.threads ==> Stream.Waiting(x.threads[t]) && !Stream.Waiting(x'.threads[t]))
  {
    hide Stream.NoLostWakeup, Stream.Fifo, Stream.EndIsEmpty, Stream.Counted, Stream.Owned;
  }

  lemma ClosedWriteEnds(x: Stream.State, k: Stream.Label, t: nat)
    requires Stream.Inv(x) && By(k, t) && Stream.Enabled(x, k) && Inside(x, t, InWrite) && x.buf.writeClosed
    ensures var x' := Stream.Apply(x, k);
            && Stream.CallOf(x.threads[t]) < |x'.calls|
            && (t !in x'.threads ==> x'.calls[Stream.CallOf(x.threads[t])].status != Stream.Complete)
            && (t in x'.threads ==> Stream.Waiting(x.threads[t]) && !Stream.Waiting(x'.threads[t]))
  {
    hide Stream.NoLostWakeup, Stream.Fifo, Stream.EndIsEmpty, Stream.Counted;
  }

  /** Once its connections are closed, every step of a pump uses up one of its own. */
  lemma ClosedPumpWindsDown(s: State, w: Who, k: Stream.Label, m: Move)
    requires Inv(s) && Enabled(s, Step(w, k, m)) && s.front.server == Pipe.Shut && s.back.client == Pipe.Shut
    ensures var s' := PumpStep(s, w, k, m);
            Inv(s') && PumpSteps(s', w) < PumpSteps(s, w)
  {
    hide Stream.Inv, Stream.Apply, Stream.Enabled, Pipe.Inv, ClosedSoFar, PumpIs, Same, LaneStep, Inside;
    PumpStepKeepsInv(s, w, k, m);
    var p := PumpOf(s, w);
    PumpLaneIsClosed(s, w);
    LaneInv(s, Place(w, p));
    var x := At(s, Place(w, p));
    if p == InRead {
      ClosedReadEnds(x, k, Thread(w));
    } else {
      InsideIsAny(x, Thread(w), p);
      ClosedWriteEnds(x, k, Thread(w));
    }
    CallHasEnded(s, w, k);
    var s' := Put(s, Place(w, p), Acted(s, w, k));
    PutGet(s, Place(w, p), Acted(s, w, k), Place(w, p));
    if Thread(w) !in Acted(s, w, k).threads && p == InReply {
      LaneInv(s', Place(w, InRead));
      StoppedIsNowhere(s', w, Place(w, InRead));
      ReadIsNoWait(At(s', Place(w, InRead)), Thread(w), Decide(p, false, m).want);
    }
  }

  lemma StoppedIsNowhere(s: State, w: Who, lane: Lane)
    requires PumpIs(s, w, Stopped)
    ensures Thread(w) !in At(s, lane).threads
  {
  }

  lemma PutIsSameFor(s: State, lane: Lane, x': Stream.State, w: Who)
    requires LaneStep(At(s, lane), x', Thread(w))
    ensures SameFor(s, Put(s, lane, x'), Other(w))
  {
    hide Stream.Inv, Same;
    forall l: Lane ensures Same(At(s, l), At(Put(s, lane, x'), l), Thread(Other(w))) {
      PutGet(s, lane, x', l);
      SameHere(At(s, l), Thread(Other(w)));
    }
  }

  lemma SameForTwice(s: State, s': State, s'': State, w: Who)
    requires SameFor(s, s', w) && SameFor(s', s'', w)
    ensures SameFor(s, s'', w)
  {
    forall l: Lane ensures Same(At(s, l), At(s'', l), Thread(w)) {
      assert Same(At(s, l), At(s', l), Thread(w)) && Same(At(s', l), At(s'', l), Thread(w));
    }
  }

  lemma SetIsSameFor(s: State, w: Who, p: Pump, done: nat, v: Who)
    ensures SameFor(s, SetPump(s, w, p).(done := done), v)
  {
    hide Same;
    forall l: Lane ensures Same(At(s, l), At(SetPump(s, w, p).(done := done), l), Thread(v)) {
      SameHere(At(s, l), Thread(v));
    }
  }

  lemma BeginIsSameFor(s: State, w: Who, m: Move)
    requires Pipes(s) && PumpIs(s, w, Stopped) && MoveOk(w, m)
    ensures SameFor(s, Begin(s, w, m), Other(w))
  {
    hide Stream.Inv, Stream.Apply, Stream.Enabled, SameFor, LaneStep, Pipe.Inv, PumpIs;
    if m.GiveUp? {
      SetIsSameFor(s, w, Stopped, s.done + 1, Other(w));
    } else {
      var (p, k) := StartOf(w, m);
      var lane := Place(w, p);
      LaneInv(s, lane);
      StoppedIsNowhere(s, w, lane);
      StartIsInside(At(s, lane), w, m);
      StepIsLaneStep(At(s, lane), k, Thread(w));
      var s' := Put(s, lane, Stream.Apply(At(s, lane), k));
      PutIsSameFor(s, lane, Stream.Apply(At(s, lane), k), w);
      SetIsSameFor(s', w, p, s'.done, Other(w));
      SameForTwice(s, s', SetPump(s', w, p).(done := s'.done), Other(w));
    }
  }

  /** A step of one pump leaves the other one as many. */
  lemma PumpLeavesOther(s: State, w: Who, k: Stream.Label, m: Move)
    requires Inv(s) && Enabled(s, Step(w, k, m))
    ensures Inv(PumpStep(s, w, k, m)) && PumpSteps(PumpStep(s, w, k, m), Other(w)) == PumpSteps(s, Other(w))
  {
    hide Stream.Inv, Stream.Apply, Stream.Enabled, Pipe.Inv, ClosedSoFar, PumpIs, SameFor, LaneStep, Inside;
    hide Begin, Succeeded, Decide, PumpSteps, Acted;
    PumpStepKeepsInv(s, w, k, m);
    PumpInPlace(s, w);
    PumpInPlace(s, Other(w));
    CallHasEnded(s, w, k);
    var p := PumpOf(s, w);
    var x' := Acted(s, w, k);
    var s' := Put(s, Place(w, p), x');
    PutIsSameFor(s, Place(w, p), x', w);
    if Thread(w) !in x'.threads {
      var ok := Succeeded(At(s, Place(w, p)), x', Thread(w), p);
      DecisionIsOk(w, p, ok, m);
      BeginIsSameFor(s', w, Decide(p, ok, m));
      SameForTwice(s, s', Begin(s', w, Decide(p, ok, m)), Other(w));
    }
    SamePumpsKeep(s, PumpStep(s, w, k, m), Other(w));
  }

  /** What the relay still has to do after both closes: at most three steps of the pump that runs, and the
      caller's last. */
  ghost function StepsLeft(s: State): nat
    requires Inv(s)
  {
    PumpSteps(s, Forth) + PumpSteps(s, Home) + if s.caller == Returned then 0 else 1
  }

  lemma AtMostFour(s: State)
    requires Inv(s) && s.caller == SecondWait
    ensures StepsLeft(s) <= 4
  {
    hide PumpIs, Pipe.Inv;
  }

  /** After both closes, strangers cannot keep a pump going: their steps leave StepsLeft alone, and
      every step of the relay lowers it. */
  lemma ClosedRelayWindsDown(s: State, l: Label)
    requires Inv(s) && Enabled(s, l) && s.caller == SecondWait
    ensures Inv(Apply(s, l)) && (Apply(s, l).caller == SecondWait || Apply(s, l).caller == Returned)
    ensures if Own(l) then StepsLeft(Apply(s, l)) < StepsLeft(s) else StepsLeft(Apply(s, l)) == StepsLeft(s)
  {
    hide Pipes, PumpIs, SameFor, PumpStep, Pipe.Apply, PumpSteps;
    StepKeepsInv(s, l);
    BothShut(s);
    if l.Step? {
      PumpStepKeepsInv(s, l.who, l.step, l.move);
      ClosedPumpWindsDown(s, l.who, l.step, l.move);
      PumpLeavesOther(s, l.who, l.step, l.move);
    } else {
      OtherStep(s, l);
      SamePumpsKeep(s, Apply(s, l), Forth);
      SamePumpsKeep(s, Apply(s, l), Home);
    }
  }

  lemma BothShut(s: State)
    requires Pipes(s) && (s.caller == SecondWait || s.caller == Returned)
    ensures s.front.server == Pipe.Shut && s.back.client == Pipe.Shut
  {
  }

  function OwnSteps(ls: seq<Label>): nat {
    if ls == [] then 0 else (if Own(ls[0]) then 1 else 0) + OwnSteps(ls[1..])
  }

  /** However strangers interleave, a relay that has closed both connections has returned after four of its
      own steps. */
  lemma ClosedRelayReturns(s: State, ls: seq<Label>)
    requires Inv(s) && Runnable(s, ls) && s.caller == SecondWait && OwnSteps(ls) >= 4
    ensures After(s, ls).caller == Returned
  {
    AtMostFour(s);
    StepsAreUsedUp(s, ls);
  }

  lemma {:induction false} StepsAreUsedUp(s: State, ls: seq<Label>)
    requires Inv(s) && Runnable(s, ls) && s.caller == SecondWait
    ensures After(s, ls).caller != Returned ==> OwnSteps(ls) + StepsLeft(After(s, ls)) <= StepsLeft(s)
    decreases |ls|
  {
    hide Inv, StepsLeft, Apply, Enabled;
    if ls != [] {
      ClosedRelayWindsDown(s, ls[0]);
      if Apply(s, ls[0]).caller == SecondWait {
        StepsAreUsedUp(Apply(s, ls[0]), ls[1..]);
      } else {
        ReturnedStays(Apply(s, ls[0]), ls[1..]);
      }
    }
  }

  lemma ReturnedStep(s: State, l: Label)
    requires Inv(s) && Enabled(s, l) && s.caller == Returned
    ensures Inv(Apply(s, l)) && Apply(s, l).caller == Returned
  {
    hide Pipes, PumpIs, PumpStep, Pipe.Apply;
    StepKeepsInv(s, l);
    if l.Step? {
      PumpStepKeepsInv(s, l.who, l.step, l.move);
    }
  }

  lemma {:induction false} ReturnedStays(s: State, ls: seq<Label>)
    requires Inv(s) && Runnable(s, ls) && s.caller == Returned
    ensures After(s, ls).caller == Returned
    decreases |ls|
  {
    hide Inv, Apply, Enabled;
    if ls != [] {
      ReturnedStep(s, ls[0]);
      ReturnedStays(Apply(s, ls[0]), ls[1..]);
    }
  }

  lemma InsideIsAny(x: Stream.State, t: nat, p: Pump)
    requires Inside(x, t, p) && p != InRead
    ensures Inside(x, t, InWrite)
  {
  }

  lemma ReadIsNoWait(x: Stream.State, t: nat, want: nat)
    requires Stream.Inv(x) && t !in x.threads
    ensures var k := Stream.StartRead(t, want);
            Stream.Enabled(x, k) && t in Stream.Apply(x, k).threads && !Stream.Waiting(Stream.Apply(x, k).threads[t])
  {
    hide Stream.NoLostWakeup, Stream.Fifo, Stream.EndIsEmpty, Stream.Counted, Stream.Owned;
  }
}
