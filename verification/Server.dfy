/** Routes, in-memory dialing and admission (iamproxy/server.go Start, DialContext, accept). */
module Server {
  import opened Common
  import opened Config
  import Identity

  // ---- binding and routes

  /** net.JoinHostPort, and the address that the i-th TCP bind ends up with: two binds of port 0 need not
      end up with one. */
  datatype Net = Net(join: (string, string) -> string, bind: (nat, string) -> Option<string>)

  ghost predicate AllBind(n: Net, ls: seq<Listener>) {
    forall i :: 0 <= i < |ls| ==> n.bind(i, ls[i].listen).Some?
  }

  /** The listeners with the addresses their binds ended up with. */
  ghost function Bound(n: Net, ls: seq<Listener>): (bound: seq<Listener>)
    requires AllBind(n, ls)
    ensures Identity.Rebound(ls, bound)
  {
    seq(|ls|, i requires 0 <= i < |ls| => ls[i].(listen := n.bind(i, ls[i].listen).value))
  }

  /** The first loop of Start: in memory a fixed port is needed, otherwise the bound address replaces
      the configured one. */
  method BindListeners(h: Host, n: Net, inMemory: bool, ls: seq<Listener>) returns (r: Option<seq<Listener>>)
    ensures r.Some? ==> Identity.Rebound(ls, r.value)
    ensures inMemory ==> (r == if exists l :: l in ls && Port(h, l.listen) == "0" then None else Some(ls))
    ensures !inMemory ==> (r == if AllBind(n, ls) then Some(Bound(n, ls)) else None)
  {
    var bound: seq<Listener> := [];
    for i := 0 to |ls|
      invariant |bound| == i
      invariant forall j :: 0 <= j < i ==> bound[j] == ls[j].(listen := bound[j].listen)
      invariant inMemory ==> bound == ls[..i] && forall j :: 0 <= j < i ==> Port(h, ls[j].listen) != "0"
      invariant !inMemory ==> forall j :: 0 <= j < i ==> n.bind(j, ls[j].listen) == Some(bound[j].listen)
    {
      var l := ls[i];
      assert l in ls;
      if inMemory {
        if Port(h, l.listen) == "0" {
          return None;
        }
        bound := bound + [l];
      } else {
        var addr := n.bind(i, l.listen);
        if addr == None {
          return None;
        }
        bound := bound + [l.(listen := addr.value)];
      }
    }
    assert ls[..|ls|] == ls;
    assert !inMemory ==> AllBind(n, ls) && bound == Bound(n, ls);
    return Some(bound);
  }

  /** The addresses a listener can be dialed at. */
  function DialAddresses(h: Host, n: Net, l: Listener): seq<string> {
    [l.listen] + if l.hostname != "" then [n.join(l.hostname, Port(h, l.listen))] else []
  }

  /** A listener answers to its listen address, and to its hostname with the port it listens on. */
  predicate Answers(h: Host, n: Net, l: Listener, addr: string) {
    || addr == l.listen
    || (l.hostname != "" && addr == n.join(l.hostname, match h.splitHostPort(l.listen)
                                                      case None => ""
                                                      case Some((_, port)) => port))
  }

  lemma AnswersIsDialed(h: Host, n: Net, l: Listener)
    ensures forall a :: a in DialAddresses(h, n, l) <==> Answers(h, n, l, a)
  {
  }

  /** No address belongs to listeners of two names. */
  ghost predicate Routable(h: Host, n: Net, ls: seq<Listener>) {
    forall l, m, a :: l in ls && m in ls && Answers(h, n, l, a) && Answers(h, n, m, a) ==> l.name == m.name
  }

  ghost predicate Routes(h: Host, n: Net, ls: seq<Listener>, routes: map<string, string>) {
    && (forall l, a :: l in ls && Answers(h, n, l, a) ==> a in routes && routes[a] == l.name)
    && (forall a :: a in routes ==> exists l :: l in ls && Answers(h, n, l, a) && routes[a] == l.name)
  }

  method AddRoutes(routes: map<string, string>, addrs: seq<string>, name: string)
    returns (ok: bool, routes': map<string, string>)
    ensures ok <==> forall a :: a in addrs && a in routes ==> routes[a] == name
    ensures ok ==> forall a :: a in routes' <==> a in routes || a in addrs
    ensures ok ==> forall a :: a in routes' ==> routes'[a] == if a in addrs then name else routes[a]
  {
    routes' := routes;
    for i := 0 to |addrs|
      invariant forall a :: a in addrs[..i] && a in routes ==> routes[a] == name
      invariant forall a :: a in routes' <==> a in routes || a in addrs[..i]
      invariant forall a :: a in routes' ==> routes'[a] == if a in addrs[..i] then name else routes[a]
    {
      var a := addrs[i];
      if a in routes' && routes'[a] != name {
        assert a in addrs;
        return false, routes';
      }
      routes' := routes'[a := name];
      assert addrs[..i + 1] == addrs[..i] + [a];
    }
    assert addrs[..|addrs|] == addrs;
    return true, routes';
  }

  /** The second loop of Start: the table is built exactly when no address is ambiguous, and then holds
      exactly the dial addresses. */
  method BuildRoutes(h: Host, n: Net, ls: seq<Listener>) returns (r: Option<map<string, string>>)
    ensures r.Some? <==> Routable(h, n, ls)
    ensures r.Some? ==> Routes(h, n, ls, r.value)
  {
    var routes: map<string, string> := map[];
    for i := 0 to |ls|
      invariant Routes(h, n, ls[..i], routes) && Routable(h, n, ls[..i])
    {
      var l := ls[i];
      ghost var before := routes;
      var ok;
      AnswersIsDialed(h, n, l);
      ok, routes := AddRoutes(routes, DialAddresses(h, n, l), l.name);
      if !ok {
        ghost var a :| a in DialAddresses(h, n, l) && a in before && before[a] != l.name;
        assert exists m :: m in ls[..i] && Answers(h, n, m, a) && before[a] == m.name;
        ghost var m :| m in ls[..i] && Answers(h, n, m, a) && before[a] == m.name;
        assert m in ls && l in ls && Answers(h, n, l, a);
        return None;
      }
      RoutesSnoc(h, n, ls[..i], l, before, routes);
      assert ls[..i + 1] == ls[..i] + [l];
    }
    assert ls[..|ls|] == ls;
    return Some(routes);
  }

  lemma RoutesSnoc(h: Host, n: Net, ls: seq<Listener>, l: Listener,
                   before: map<string, string>, routes: map<string, string>)
    requires Routes(h, n, ls, before) && Routable(h, n, ls)
    requires forall a :: Answers(h, n, l, a) && a in before ==> before[a] == l.name
    requires forall a :: a in routes <==> a in before || Answers(h, n, l, a)
    requires forall a :: a in routes ==> routes[a] == if Answers(h, n, l, a) then l.name else before[a]
    ensures Routes(h, n, ls + [l], routes) && Routable(h, n, ls + [l])
  {
    var all := ls + [l];
    forall m, a | m in all && Answers(h, n, m, a)
      ensures a in routes && routes[a] == m.name
    {
      if m in ls { assert a in before && before[a] == m.name; }
    }
    forall a | a in routes
      ensures exists m :: m in all && Answers(h, n, m, a) && routes[a] == m.name
    {
      if Answers(h, n, l, a) {
        assert l in all;
      } else {
        var m :| m in ls && Answers(h, n, m, a) && before[a] == m.name;
        assert m in all;
      }
    }
    forall m, m', a | m in all && m' in all && Answers(h, n, m, a) && Answers(h, n, m', a)
      ensures m.name == m'.name
    {
      assert routes[a] == m.name && routes[a] == m'.name;
    }
  }

  /** The two loops of Start together: the listeners that are served, and the routes to them. */
  method BindAndRoute(h: Host, n: Net, inMemory: bool, ls: seq<Listener>)
    returns (r: Option<(seq<Listener>, map<string, string>)>)
    ensures r.Some? ==> Identity.Rebound(ls, r.value.0) && Routes(h, n, r.value.0, r.value.1)
    ensures r.Some? && inMemory ==> r.value.0 == ls
    ensures r.Some? && !inMemory ==> AllBind(n, ls) && r.value.0 == Bound(n, ls)
    ensures inMemory ==> (r.Some? <==> Routable(h, n, ls) && forall l :: l in ls ==> Port(h, l.listen) != "0")
    ensures !inMemory ==> (r.Some? <==> AllBind(n, ls) && Routable(h, n, Bound(n, ls)))
  {
    var bound := BindListeners(h, n, inMemory, ls);
    if bound == None {
      return None;
    }
    var routes := BuildRoutes(h, n, bound.value);
    if routes == None {
      return None;
    }
    return Some((bound.value, routes.value));
  }

  /** Listeners configured with one address and port 0 can be served together: each bind has its own
      port. */
  lemma PortZeroIsRoutable(h: Host, n: Net, ls: seq<Listener>)
    requires AllBind(n, ls) && (forall i, j :: 0 <= i < j < |ls| ==>
               n.bind(i, ls[i].listen).value != n.bind(j, ls[j].listen).value)
    requires forall l :: l in ls ==> l.hostname == ""
    ensures Routable(h, n, Bound(n, ls))
  {
    var bound := Bound(n, ls);
    forall l, m, a | l in bound && m in bound && Answers(h, n, l, a) && Answers(h, n, m, a)
      ensures l.name == m.name
    {
      var i :| 0 <= i < |bound| && bound[i] == l;
      var j :| 0 <= j < |bound| && bound[j] == m;
      assert ls[i] in ls && ls[j] in ls;
      assert a == n.bind(i, ls[i].listen).value == n.bind(j, ls[j].listen).value;
    }
  }

  /** The listener DialContext hands its connection to, before the handover itself. */
  method DialTarget(routes: map<string, string>, network: string, addr: string,
                    ghost h: Host, ghost n: Net, ghost ls: seq<Listener>) returns (name: Option<string>)
    requires Routes(h, n, ls, routes)
    ensures name.Some? <==>
              network in {"tcp", "tcp4", "tcp6", "", "iamproxy-memory"} && exists l :: l in ls && Answers(h, n, l, addr)
    ensures name.Some? ==> forall l :: l in ls && Answers(h, n, l, addr) ==> name == Some(l.name)
  {
    if network != "tcp" && network != "tcp4" && network != "tcp6" && network != "" && network != "iamproxy-memory" {
      return None;
    }
    if addr !in routes {
      return None;
    }
    return Some(routes[addr]);
  }

  // ---- the accept loop of one listener

  const SLOTS: nat := 256

  /** Waiting in Accept, holding a connection that waits for a slot, or returned. */
  datatype Loop = Accepting | Admitting(conn: nat) | Stopped

  /** `sem` is how full the semaphore channel is.  A session gives its slot back before it closes its
      connection, so between the two the connection is `draining`. */
  datatype State = State(
    loop: Loop, sem: nat, cancelled: bool, next: nat, live: set<nat>, draining: set<nat>, closed: set<nat>)

  const IDLE := State(Accepting, 0, false, 0, {}, {}, {})

  datatype Label =
    | Accept            // ln.Accept returns a connection
    | AcceptFails       // the listener was closed
    | Admit             // sem <- struct{}{}
    | Refuse            // ctx.Done() while waiting for a slot
    | EndSession(conn: nat)
    | CloseConn(conn: nat)
    | Cancel

  predicate Enabled(s: State, l: Label) {
    match l
    case Accept => s.loop == Accepting
    case AcceptFails => s.loop == Accepting && s.cancelled
    case Admit => s.loop.Admitting? && s.sem < SLOTS
    case Refuse => s.loop.Admitting? && s.cancelled
    case EndSession(c) => c in s.live
    case CloseConn(c) => c in s.draining
    case Cancel => !s.cancelled
  }

  function Apply(s: State, l: Label): State
    requires Enabled(s, l) && (l.EndSession? ==> s.sem > 0)
  {
    match l
    case Accept => s.(loop := Admitting(s.next), next := s.next + 1)
    case AcceptFails => s.(loop := Stopped)
    case Admit => s.(loop := Accepting, sem := s.sem + 1, live := s.live + {s.loop.conn})
    case Refuse => s.(loop := Stopped, closed := s.closed + {s.loop.conn})
    case EndSession(c) => s.(sem := s.sem - 1, live := s.live - {c}, draining := s.draining + {c})
    case CloseConn(c) => s.(draining := s.draining - {c}, closed := s.closed + {c})
    case Cancel => s.(cancelled := true)
  }

  predicate Waits(s: State, c: nat) {
    s.loop == Admitting(c)
  }

  /** In how many places a connection is: waiting for a slot, live, draining, closed. */
  function Places(s: State, c: nat): nat {
    (if Waits(s, c) then 1 else 0) + (if c in s.live then 1 else 0)
      + (if c in s.draining then 1 else 0) + (if c in s.closed then 1 else 0)
  }

  /** How many accepted connections are not closed yet. */
  function Unclosed(s: State): nat {
    |s.live| + |s.draining| + if s.loop.Admitting? then 1 else 0
  }

  /** Every accepted connection is in exactly one place, and slots are live sessions. */
  ghost predicate Inv(s: State) {
    && s.sem == |s.live| <= SLOTS
    && Unclosed(s) + |s.closed| == s.next
    && (forall c: nat :: Places(s, c) == if c < s.next then 1 else 0)
    && (s.loop.Stopped? ==> s.cancelled)
  }

  lemma IdleInv()
    ensures Inv(IDLE)
  {
  }

  lemma PlacesKept(s: State, l: Label, c: nat)
    requires Inv(s) && Enabled(s, l) && (l.EndSession? ==> s.sem > 0)
    ensures Places(Apply(s, l), c) == if c < Apply(s, l).next then 1 else 0
  {
    assert Places(s, c) == if c < s.next then 1 else 0;
  }

  lemma Grow(cs: set<nat>, c: nat)
    requires c !in cs
    ensures |cs + {c}| == |cs| + 1
  {
  }

  lemma Shrink(cs: set<nat>, c: nat)
    requires c in cs
    ensures |cs - {c}| == |cs| - 1
  {
    assert cs == (cs - {c}) + {c};
  }

  /** A connection is in no second place. */
  lemma OnePlace(s: State, c: nat)
    requires Inv(s)
    ensures c in s.live ==> !Waits(s, c) && c !in s.draining && c !in s.closed
    ensures c in s.draining ==> !Waits(s, c) && c !in s.closed
    ensures Waits(s, c) ==> c !in s.live && c !in s.closed
  {
    assert Places(s, c) == if c < s.next then 1 else 0;
  }

  lemma StepKeepsCount(s: State, l: Label)
    requires Inv(s) && Enabled(s, l) && (l.EndSession? ==> s.sem > 0)
    ensures var s' := Apply(s, l);
            s'.sem == |s'.live| <= SLOTS && Unclosed(s') + |s'.closed| == s'.next
  {
    hide Places;
    match l
    case Admit =>
      OnePlace(s, s.loop.conn);
      Grow(s.live, s.loop.conn);
    case Refuse =>
      OnePlace(s, s.loop.conn);
      Grow(s.closed, s.loop.conn);
    case EndSession(c) =>
      OnePlace(s, c);
      Shrink(s.live, c);
      Grow(s.draining, c);
    case CloseConn(c) =>
      OnePlace(s, c);
      Shrink(s.draining, c);
      Grow(s.closed, c);
    case _ =>
  }

  lemma StepKeepsInv(s: State, l: Label)
    requires Inv(s) && Enabled(s, l)
    ensures (l.EndSession? ==> s.sem > 0) && Inv(Apply(s, l))
  {
    if l.EndSession? {
      assert l.conn in s.live;
    }
    StepKeepsCount(s, l);
    forall c: nat ensures Places(Apply(s, l), c) == if c < Apply(s, l).next then 1 else 0 {
      PlacesKept(s, l, c);
    }
  }

  /** The loop stops exactly when it is told to: when accepting fails after the cancellation, or when the
      cancellation comes before a slot; and it admits one connection at a time, the one that waited. */
  lemma LoopTurns(s: State, l: Label)
    requires Inv(s) && Enabled(s, l) && (l.EndSession? ==> s.sem > 0)
    ensures var s' := Apply(s, l);
            && (s'.loop == Stopped <==> s.loop == Stopped || l == AcceptFails || l == Refuse)
            && (s'.loop == Admitting(s.next) <==> l == Accept)
            && (s'.cancelled <==> s.cancelled || l == Cancel)
            && (forall c :: c in s'.live && c !in s.live <==> l == Admit && s.loop == Admitting(c))
            && (forall c :: c in s'.closed && c !in s.closed <==>
                  l == CloseConn(c) || (l == Refuse && s.loop == Admitting(c)))
  {
    hide Places;
    if s.loop.Admitting? {
      OnePlace(s, s.loop.conn);
      WaitingIsNotNext(s);
    }
    if l.CloseConn? {
      OnePlace(s, l.conn);
    }
  }

  lemma WaitingIsNotNext(s: State)
    requires Inv(s) && s.loop.Admitting?
    ensures s.loop.conn < s.next
  {
    assert Places(s, s.loop.conn) == if s.loop.conn < s.next then 1 else 0;
  }

  ghost predicate Runnable(s: State, ls: seq<Label>)
    requires Inv(s)
    decreases |ls|
  {
    ls == [] || (Enabled(s, ls[0]) && (StepKeepsInv(s, ls[0]); Runnable(Apply(s, ls[0]), ls[1..])))
  }

  ghost function After(s: State, ls: seq<Label>): (s': State)
    requires Inv(s) && Runnable(s, ls)
    ensures Inv(s')
    decreases |ls|
  {
    if ls == [] then s
    else
      StepKeepsInv(s, ls[0]);
      After(Apply(s, ls[0]), ls[1..])
  }

  /** At any time at most 256 sessions are live, and every connection accepted so far is in exactly one
      place: waiting for a slot (at most one is), live, about to be closed, or closed. */
  lemma {:induction false} AdmissionIsBounded(ls: seq<Label>, c: nat)
    requires Inv(IDLE) && Runnable(IDLE, ls) && c < After(IDLE, ls).next
    ensures var s := After(IDLE, ls);
            && |s.live| <= SLOTS
            && Places(s, c) == 1
            && Unclosed(s) == s.next - |s.closed| <= SLOTS + 1 + |s.draining|
  {
  }

  // ---- connections that are not closed yet may be more than 256

  lemma {:induction false} RunAppend(s: State, ls: seq<Label>, ms: seq<Label>)
    requires Inv(s) && Runnable(s, ls) && Runnable(After(s, ls), ms)
    ensures Runnable(s, ls + ms) && After(s, ls + ms) == After(After(s, ls), ms)
    decreases |ls|
  {
    hide Inv, Enabled, Apply;
    if ls == [] {
      assert ls + ms == ms;
    } else {
      StepKeepsInv(s, ls[0]);
      RunAppend(Apply(s, ls[0]), ls[1..], ms);
      assert (ls + ms)[1..] == ls[1..] + ms;
    }
  }

  /** n connections, each accepted and admitted. */
  function Fill(n: nat): seq<Label> {
    if n == 0 then [] else Fill(n - 1) + [Accept, Admit]
  }

  lemma {:induction false} FillAdmits(n: nat)
    requires n <= SLOTS && Inv(IDLE)
    ensures Runnable(IDLE, Fill(n))
    ensures var s := After(IDLE, Fill(n));
            s.loop == Accepting && s.sem == n && s.next == n && s.draining == {} && !s.cancelled
  {
    if n > 0 {
      FillAdmits(n - 1);
      var s := After(IDLE, Fill(n - 1));
      TwoSteps(s, Accept, Admit);
      RunAppend(IDLE, Fill(n - 1), [Accept, Admit]);
    }
  }

  lemma TwoSteps(s: State, k: Label, l: Label)
    requires Inv(s) && Enabled(s, k) && (k.EndSession? ==> s.sem > 0) && Enabled(Apply(s, k), l)
    requires l.EndSession? ==> Apply(s, k).sem > 0
    ensures Runnable(s, [k, l]) && After(s, [k, l]) == Apply(Apply(s, k), l)
  {
    StepKeepsInv(s, k);
    OneStep(Apply(s, k), l);
    assert [k, l][1..] == [l];
  }

  lemma OneStep(s: State, l: Label)
    requires Inv(s) && Enabled(s, l) && (l.EndSession? ==> s.sem > 0)
    ensures Runnable(s, [l]) && After(s, [l]) == Apply(s, l)
  {
    StepKeepsInv(s, l);
    assert [l][1..] == [];
  }

  /** The slot of a session that has ended is taken again before its connection is closed: a run in which
      257 connections are open. */
  lemma MoreThanSlotsOpen() returns (ls: seq<Label>)
    ensures Inv(IDLE) && Runnable(IDLE, ls) && Unclosed(After(IDLE, ls)) == SLOTS + 1
    ensures !After(IDLE, ls).loop.Admitting?
  {
    FillAdmits(SLOTS);
    var s := After(IDLE, Fill(SLOTS));
    assert |s.live| == SLOTS;
    var c :| c in s.live;
    Shrink(s.live, c);
    TwoSteps(s, EndSession(c), Accept);
    var s' := Apply(Apply(s, EndSession(c)), Accept);
    RunAppend(IDLE, Fill(SLOTS), [EndSession(c), Accept]);
    var most := Fill(SLOTS) + [EndSession(c), Accept];
    OneStep(s', Admit);
    RunAppend(IDLE, most, [Admit]);
    ls := most + [Admit];
  }

  /** Every Accept of the run happens while fewer than 256 connections are live or draining. */
  ghost predicate AcceptsGuarded(s: State, ls: seq<Label>)
    requires Inv(s) && Runnable(s, ls)
    decreases |ls|
  {
    ls != [] ==>
      && (ls[0] == Accept ==> |s.live| + |s.draining| < SLOTS)
      && (StepKeepsInv(s, ls[0]); AcceptsGuarded(Apply(s, ls[0]), ls[1..]))
  }

  /** Never are more than 256 connections open. */
  ghost predicate AlwaysWithin(s: State, ls: seq<Label>)
    requires Inv(s) && Runnable(s, ls)
    decreases |ls|
  {
    && Unclosed(s) <= SLOTS
    && (ls != [] ==> (StepKeepsInv(s, ls[0]); AlwaysWithin(Apply(s, ls[0]), ls[1..])))
  }

  /** Only accepting opens connections. */
  lemma StepOpens(s: State, l: Label)
    requires Inv(s) && Enabled(s, l) && (l.EndSession? ==> s.sem > 0)
    ensures l == Accept ==> Unclosed(Apply(s, l)) == |s.live| + |s.draining| + 1
    ensures l != Accept ==> Unclosed(Apply(s, l)) <= Unclosed(s)
  {
    hide Places;
    match l
    case EndSession(c) =>
      OnePlace(s, c);
      Shrink(s.live, c);
      Grow(s.draining, c);
    case CloseConn(c) => Shrink(s.draining, c);
    case Admit =>
      OnePlace(s, s.loop.conn);
      Grow(s.live, s.loop.conn);
    case _ =>
  }

  /** When at most 256 connections are open: exactly in the runs that accept only below that number. */
  lemma {:induction false} WithinIffGuarded(s: State, ls: seq<Label>)
    requires Inv(s) && Runnable(s, ls) && Unclosed(s) <= SLOTS
    ensures AlwaysWithin(s, ls) <==> AcceptsGuarded(s, ls)
    decreases |ls|
  {
    if ls != [] {
      StepKeepsInv(s, ls[0]);
      StepOpens(s, ls[0]);
      if Unclosed(Apply(s, ls[0])) <= SLOTS {
        WithinIffGuarded(Apply(s, ls[0]), ls[1..]);
      }
    }
  }

  // ---- winding down

  /** What is left to do once the loop has stopped. */
  function Left(s: State): nat {
    2 * |s.live| + |s.draining|
  }

  /** After the loop has stopped, sessions only wind down: no step admits anyone, and every step but the
      cancellation lowers Left. */
  lemma StoppedWindsDown(s: State, l: Label)
    requires Inv(s) && Enabled(s, l) && s.loop == Stopped
    ensures (l.EndSession? ==> s.sem > 0) && Apply(s, l).loop == Stopped && Left(Apply(s, l)) < Left(s)
    ensures forall c :: c in Apply(s, l).live ==> c in s.live
  {
    hide Places;
    if l.EndSession? {
      OnePlace(s, l.conn);
      Shrink(s.live, l.conn);
      Grow(s.draining, l.conn);
    }
    if l.CloseConn? {
      Shrink(s.draining, l.conn);
    }
  }

  /** Left is zero exactly when every connection ever accepted is closed. */
  lemma StoppedFinishes(s: State)
    requires Inv(s) && s.loop == Stopped
    ensures Left(s) == 0 <==> forall c: nat :: c < s.next ==> c in s.closed
  {
    if Left(s) == 0 {
      forall c: nat | c < s.next ensures c in s.closed {
        assert Places(s, c) == 1;
      }
    }
    if Left(s) != 0 {
      var c :| c in s.live + s.draining;
      assert Places(s, c) == (if c < s.next then 1 else 0);
    }
  }
}
