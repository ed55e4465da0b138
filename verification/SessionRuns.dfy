/**
 What clients must send to get through the handlers of postgres.go and mysql.go, and runs in which they do.
 */
module SessionRuns {
  import opened Common
  import opened Wire
  import opened Sessions
  import Addresses
  import PgWire
  import MySqlFrames
  import MySqlHandshake

  type Text = seq<byte>

  // ---- which first messages get where

  /** The stream is what pgStartup returns m for. */
  ghost predicate Starts(input: Text, room: nat, m: PgWire.Params) {
    exists k: nat, tail: Text, rest: Text ::
      k <= room && input == PgWire.GssRequests(k) + tail && PgWire.Asks(tail, m, rest)
  }

  lemma StartsIsStartup(input: Text, room: nat, m: PgWire.Params)
    ensures Starts(input, room, m) <==> PgWire.Startup(input, room).params == Some(m)
  {
    hide PgWire.Startup, PgWire.Asks;
    var o := PgWire.Startup(input, room);
    if o.params == Some(m) {
      PgWire.StartupIsExact(input, room, m, o.rest, o.replies);
    }
    if k: nat, tail: Text, rest: Text :|
        k <= room && input == PgWire.GssRequests(k) + tail && PgWire.Asks(tail, m, rest) {
      PgWire.StartupIsExact(input, room, m, rest, k);
    }
  }

  /** The stream starts with packet p of sequence number n. */
  ghost predicate Carries(input: Text, n: byte, p: Text) {
    exists rest: Text :: |p| <= 0x10_0000 && input == LittleEndian(|p|, 3) + [n] + p + rest
  }

  lemma CarriesIsRead(input: Text, n: byte, p: Text)
    ensures Carries(input, n, p) <==> MySqlFrames.ReadPacket(input).0 == MySqlFrames.Packet(p, n)
  {
    hide MySqlFrames.ReadPacket, LittleEndian;
    var (packet, left) := MySqlFrames.ReadPacket(input);
    if packet == MySqlFrames.Packet(p, n) {
      MySqlFrames.PacketIsExact(input, p, n, left);
    }
    if rest: Text :| |p| <= 0x10_0000 && input == LittleEndian(|p|, 3) + [n] + p + rest {
      MySqlFrames.PacketIsExact(input, p, n, rest);
    }
  }

  /** A PostgreSQL client gets to TLS with an SSL request, or with a parameter that looks like one. */
  lemma PgFirstIsExact(input: Text, room: nat)
    ensures AfterFirst(Postgres, input, room) == Handshaking <==>
              exists m :: Starts(input, room, m) && PgWire.CANCEL_KEY !in m && Get(m, PgWire.SSL_KEY) == ONE
  {
    hide PgWire.Startup, Starts, Ascii;
    var o := PgWire.Startup(input, room).params;
    if o.Some? {
      StartsIsStartup(input, room, o.value);
    }
    if m :| Starts(input, room, m) && PgWire.CANCEL_KEY !in m && Get(m, PgWire.SSL_KEY) == ONE {
      StartsIsStartup(input, room, m);
    }
  }

  /** A cancel request, or a parameter that looks like one, is taken for one before TLS and inside it. */
  lemma PgCancelIsExact(input: Text, room: nat, raw: Text)
    ensures AfterFirst(Postgres, input, room) == Cancelling(raw) <==>
              exists m :: Starts(input, room, m) && PgWire.CANCEL_KEY in m && m[PgWire.CANCEL_KEY] == raw
    ensures AfterSecond(Postgres, input, room) == Cancelling(raw) <==>
              AfterFirst(Postgres, input, room) == Cancelling(raw)
  {
    hide PgWire.Startup, Starts, Ascii;
    var o := PgWire.Startup(input, room).params;
    if o.Some? {
      StartsIsStartup(input, room, o.value);
    }
    if m :| Starts(input, room, m) && PgWire.CANCEL_KEY in m && m[PgWire.CANCEL_KEY] == raw {
      StartsIsStartup(input, room, m);
    }
  }

  /** The parameters name a user and a replication mode, if any, that PostgreSQL knows. */
  predicate NamesUser(m: PgWire.Params, user: Text) {
    && PgWire.CANCEL_KEY !in m && Get(m, PgWire.SSL_KEY) == []
    && user != [] && Get(m, USER) == user && ReplicationMode(Get(m, REPLICATION)).Some?
  }

  /** Inside TLS a client is asked for a password exactly when its parameters name a user. */
  lemma PgSecondIsExact(input: Text, room: nat, user: Text)
    ensures AfterSecond(Postgres, input, room) == Asked(user) <==>
              exists m :: Starts(input, room, m) && NamesUser(m, user)
  {
    hide PgWire.Startup, Starts, ReplicationMode, Ascii;
    var o := PgWire.Startup(input, room).params;
    if o.Some? {
      StartsIsStartup(input, room, o.value);
    }
    if m :| Starts(input, room, m) && NamesUser(m, user) {
      StartsIsStartup(input, room, m);
    }
  }

  /** A MySQL client gets to TLS exactly with packet 1 of 32 bytes that has the SSL flag. */
  lemma MyFirstIsExact(input: Text, room: nat)
    ensures AfterFirst(MySql, input, room) == Handshaking <==>
              exists p: Text ::
                Carries(input, 1, p) && |p| == 32 && MySqlHandshake.Flag(FromLittleEndian(p[..4]), 0x800)
    ensures AfterFirst(MySql, input, room) in {Handshaking, Closed}
  {
    hide MySqlFrames.ReadPacket, Carries, MySqlHandshake.Has, MySqlHandshake.Flag, FromLittleEndian;
    forall p: Text, n: byte
      ensures Carries(input, n, p) <==> MySqlFrames.ReadPacket(input).0 == MySqlFrames.Packet(p, n)
    {
      CarriesIsRead(input, n, p);
    }
    forall cap: nat ensures MySqlHandshake.Has(cap, 0x800) <==> MySqlHandshake.Flag(cap, 0x800) {
      MySqlHandshake.HasIsFlag(cap, 0x800);
    }
  }

  /** Inside TLS its login is checked exactly when packet 2 is laid out as a handshake response. */
  lemma MySecondIsExact(input: Text, room: nat, user: Text, password: Text, caps: nat)
    ensures AfterSecond(MySql, input, room) == Checking(user, password, caps) <==>
              exists p: Text, db: Text :: Carries(input, 2, p) &&
                MySqlHandshake.LaidOut(p, MySqlHandshake.Response(caps, user, password, db))
  {
    hide MySqlFrames.ReadPacket, Carries, MySqlHandshake.Parse, MySqlHandshake.LaidOut;
    forall p: Text, n: byte
      ensures Carries(input, n, p) <==> MySqlFrames.ReadPacket(input).0 == MySqlFrames.Packet(p, n)
    {
      CarriesIsRead(input, n, p);
    }
    forall p: Text, r
      ensures MySqlHandshake.Parse(p) == Some(r) <==> MySqlHandshake.LaidOut(p, r)
    {
      MySqlHandshake.ParseIsExact(p, r);
    }
    if AfterSecond(MySql, input, room) == Checking(user, password, caps) {
      var p := MySqlFrames.ReadPacket(input).0.payload;
      var r := MySqlHandshake.Parse(p).value;
      assert r == MySqlHandshake.Response(caps, user, password, r.database);
      assert Carries(input, 2, p) && MySqlHandshake.LaidOut(p, r);
    }
  }

  // ---- a run in which a live session can no longer be cancelled

  const SSL_REQUEST: Text := PgWire.Untyped(8, PgWire.SSL_CODE, [])
  const STARTUP: Text := PgWire.StartupPacket(PgWire.EncodeParams([(USER, USER)]) + [0])
  const PASSWORD: Text := PgWire.Message('p' as int, USER + [0])

  /** One PostgreSQL client logs in. */
  function LoginRun(sid: nat, l: Listener, b: Backend): seq<Label> {
    [Accept(sid, l), First(sid, SSL_REQUEST, 0), Tls(sid, true), Second(sid, STARTUP, 0)]
    + [Password(sid, PASSWORD), Check(sid, true), Login(sid, true, [], Some(b)), Handoff(sid, true)]
  }

  lemma SslRequestAsksForTls()
    ensures AfterFirst(Postgres, SSL_REQUEST, 0) == Handshaking
  {
    hide PgWire.Startup, PgWire.Untyped;
    var m: PgWire.Params := map[PgWire.SSL_KEY := ONE];
    assert SSL_REQUEST == SSL_REQUEST + [];
    PgWire.AsksIsAnswered(SSL_REQUEST, 0, m, []);
    assert PgWire.CANCEL_KEY !in m;
  }

  lemma StartupAsksForThePassword()
    ensures AfterSecond(Postgres, STARTUP, 0) == Asked(USER)
  {
    hide PgWire.Startup, PgWire.Untyped, PgWire.EncodeParams;
    var ps := [(USER, USER)];
    var m: PgWire.Params := map[USER := USER];
    assert ps[..0] == [];
    assert PgWire.LastWins(ps) == m;
    assert 0 !in USER;
    var body := PgWire.EncodeParams(ps) + [0];
    ShortBody(ps);
    assert STARTUP == PgWire.StartupPacket(body) + [];
    assert PgWire.IsStartup(STARTUP, body, ps, []);
    PgWire.AsksIsAnswered(STARTUP, 0, m, []);
    assert USER[0] != PgWire.SSL_KEY[0];
    assert PgWire.CANCEL_KEY !in m && PgWire.SSL_KEY !in m && REPLICATION !in m;
    assert Lower([]) == [];
  }

  lemma ShortBody(ps: seq<(Text, Text)>)
    requires ps == [(USER, USER)]
    ensures |PgWire.EncodeParams(ps)| == 10
  {
    assert ps[1..] == [];
  }

  lemma PasswordIsRead()
    ensures PgWire.Password(PASSWORD) == (Some(USER), [])
  {
    assert PASSWORD == PASSWORD + [];
    PgWire.PasswordIsExact(PASSWORD, USER, []);
  }

  lemma ConsRuns(s: State, k: Label, ls: seq<Label>)
    requires Enabled(s, k) && Runnable(Apply(s, k), ls)
    ensures Runnable(s, [k] + ls) && After(s, [k] + ls) == After(Apply(s, k), ls)
  {
    assert ([k] + ls)[1..] == ls;
  }

  lemma {:induction false} RunAppend(s: State, ls: seq<Label>, ms: seq<Label>)
    requires Runnable(s, ls) && Runnable(After(s, ls), ms)
    ensures Runnable(s, ls + ms) && After(s, ls + ms) == After(After(s, ls), ms)
    decreases |ls|
  {
    if ls == [] {
      assert ls + ms == ms;
    } else {
      RunAppend(Apply(s, ls[0]), ls[1..], ms);
      ConsRuns(s, ls[0], ls[1..] + ms);
      assert ls + ms == [ls[0]] + (ls[1..] + ms);
    }
  }

  /** One session, and perhaps the registry, as they are after some steps of that session. */
  predicate Arrived(s: State, s': State, sid: nat, session: Session, cancels: map<Text, Text>) {
    s'.listeners == s.listeners && s'.sessions == s.sessions[sid := session] && s'.cancels == cancels
  }

  lemma FirstHalf(s: State, sid: nat, l: Listener) returns (ls: seq<Label>)
    requires sid !in s.sessions && l in s.listeners && l.engine == Postgres
    ensures ls == [Accept(sid, l), First(sid, SSL_REQUEST, 0), Tls(sid, true), Second(sid, STARTUP, 0)]
    ensures Runnable(s, ls) && Arrived(s, After(s, ls), sid, Session(l, Asked(USER)), s.cancels)
  {
    hide AfterFirst, AfterSecond;
    SslRequestAsksForTls();
    StartupAsksForThePassword();
    var s1 := Apply(s, Accept(sid, l));
    var s2 := Apply(s1, First(sid, SSL_REQUEST, 0));
    var s3 := Apply(s2, Tls(sid, true));
    ConsRuns(s3, Second(sid, STARTUP, 0), []);
    ConsRuns(s2, Tls(sid, true), [Second(sid, STARTUP, 0)] + []);
    ConsRuns(s1, First(sid, SSL_REQUEST, 0), [Tls(sid, true)] + ([Second(sid, STARTUP, 0)] + []));
    ls := [First(sid, SSL_REQUEST, 0)] + ([Tls(sid, true)] + ([Second(sid, STARTUP, 0)] + []));
    ConsRuns(s, Accept(sid, l), ls);
    ls := [Accept(sid, l)] + ls;
  }

  lemma SecondHalf(s: State, sid: nat, l: Listener, b: Backend) returns (ls: seq<Label>)
    requires sid in s.sessions && s.sessions[sid] == Session(l, Asked(USER)) && l.engine == Postgres
    requires LoginAddress(l, []).Some? && |b.secret| == 4
    ensures ls == [Password(sid, PASSWORD), Check(sid, true), Login(sid, true, [], Some(b)), Handoff(sid, true)]
    ensures Runnable(s, ls)
    ensures Arrived(s, After(s, ls), sid, Session(l, Relaying(b)), s.cancels[RegistryKey(l, KeyData(b)) := l.upstream])
  {
    hide PgWire.Password, LoginAddress, KeyData, RegistryKey;
    PasswordIsRead();
    var s1 := Apply(s, Password(sid, PASSWORD));
    var s2 := Apply(s1, Check(sid, true));
    var s3 := Apply(s2, Login(sid, true, [], Some(b)));
    ConsRuns(s3, Handoff(sid, true), []);
    ConsRuns(s2, Login(sid, true, [], Some(b)), [Handoff(sid, true)] + []);
    ConsRuns(s1, Check(sid, true), [Login(sid, true, [], Some(b))] + ([Handoff(sid, true)] + []));
    ls := [Check(sid, true)] + ([Login(sid, true, [], Some(b))] + ([Handoff(sid, true)] + []));
    ConsRuns(s, Password(sid, PASSWORD), ls);
    ls := [Password(sid, PASSWORD)] + ls;
  }

  lemma LoginRuns(s: State, sid: nat, l: Listener, b: Backend)
    requires sid !in s.sessions && l in s.listeners && l.engine == Postgres
    requires LoginAddress(l, []).Some? && |b.secret| == 4
    ensures Runnable(s, LoginRun(sid, l, b))
    ensures Arrived(s, After(s, LoginRun(sid, l, b)), sid, Session(l, Relaying(b)),
                    s.cancels[RegistryKey(l, KeyData(b)) := l.upstream])
  {
    hide Apply, Enabled, LoginAddress, KeyData, RegistryKey;
    var ls := FirstHalf(s, sid, l);
    var ms := SecondHalf(After(s, ls), sid, l, b);
    RunAppend(s, ls, ms);
  }

  /** The first of two sessions with one key ends; then a cancel request for the second is dropped. */
  lemma DroppedCancel(s: State, l: Listener, b: Backend) returns (ls: seq<Label>)
    requires 0 in s.sessions && 1 in s.sessions && 2 !in s.sessions && l in s.listeners
    requires s.sessions[0] == s.sessions[1] == Session(l, Relaying(b)) && l.engine == Postgres && |b.secret| == 4
    ensures Runnable(s, ls) && LostAt(After(s, ls), l, b)
  {
    hide LoginAddress, AfterFirst, AfterSecond, KeyData, RegistryKey, PgWire.CancelRequest, PgWire.Startup;
    var asks := First(2, PgWire.CancelRequest(KeyData(b)), 0);
    var ended := Apply(s, Finish(0));
    CancelIsAsked(KeyData(b));
    ConsRuns(Apply(ended, Accept(2, l)), asks, []);
    ConsRuns(ended, Accept(2, l), [asks] + []);
    ConsRuns(s, Finish(0), [Accept(2, l)] + ([asks] + []));
    ls := [Finish(0)] + ([Accept(2, l)] + ([asks] + []));
  }

  /** Session 1 is live, session 2 asks to cancel it, and nothing will come of that. */
  predicate LostAt(s: State, l: Listener, b: Backend) {
    && |b.secret| == 4
    && 1 in s.sessions && Active(s.sessions[1]) && s.sessions[1] == Session(l, Relaying(b))
    && Enabled(s, Cancel(2)) && s.sessions[2] == Session(l, Cancelling(KeyData(b)))
    && Apply(s, Cancel(2)).log == s.log
  }

  /** On any PostgreSQL listener whose upstream can be dialed: two sessions whose backends hand out one key
      log in, the first ends, and a cancel request for the second, which is still live, is dropped. */
  lemma ALiveSessionIsLost(l: Listener, b: Backend) returns (ls: seq<Label>)
    requires l.engine == Postgres && LoginAddress(l, []).Some? && |b.secret| == 4
    ensures Runnable(Initial({l}), ls) && LostAt(After(Initial({l}), ls), l, b)
  {
    hide LoginAddress, LoginRun, KeyData, RegistryKey, LostAt, Apply, Enabled;
    var start := Initial({l});
    LoginRuns(start, 0, l, b);
    var one := After(start, LoginRun(0, l, b));
    LoginRuns(one, 1, l, b);
    RunAppend(start, LoginRun(0, l, b), LoginRun(1, l, b));
    var rest := DroppedCancel(After(one, LoginRun(1, l, b)), l, b);
    ls := (LoginRun(0, l, b) + LoginRun(1, l, b)) + rest;
    RunAppend(start, LoginRun(0, l, b) + LoginRun(1, l, b), rest);
  }

  lemma CancelIsAsked(key: Text)
    requires |key| == 8
    ensures AfterFirst(Postgres, PgWire.CancelRequest(key), 0) == Cancelling(key)
  {
    hide AfterFirst, PgWire.CancelRequest;
    CancelIsForwardedVerbatim(0, key, [], 0);
    var input := PgWire.CancelRequest(key);
    assert PgWire.GssRequests(0) + (input + []) == input;
  }

  // ---- a MySQL login, from the first packet to the relay

  function Zeros(n: nat): (z: Text)
    ensures |z| == n
  {
    if n == 0 then [] else [0] + Zeros(n - 1)
  }

  const HELLO: Text := [0, 8, 0, 0] + Zeros(28)

  lemma HelloAsksForTls()
    ensures AfterFirst(MySql, MySqlFrames.Encode(MySqlFrames.Frame(1, HELLO)), 0) == Handshaking
  {
    hide MySqlFrames.ReadPacket, MySqlFrames.Encode;
    var f := MySqlFrames.Frame(1, HELLO);
    MySqlFrames.PacketRoundTrip(f, []);
    assert MySqlFrames.Encode(f) + [] == MySqlFrames.Encode(f);
    assert HELLO[..4] == [0, 8, 0, 0];
    assert [0, 8, 0, 0][1..] == [8, 0, 0] && [8, 0, 0][1..] == [0, 0] && [0, 0][1..] == [0];
    assert FromLittleEndian(HELLO[..4]) == 0x800;
  }

  lemma ResponseIsChecked(p: Text, r: MySqlHandshake.Response)
    requires MySqlHandshake.LaidOut(p, r) && |p| <= 0x10_0000
    ensures AfterSecond(MySql, MySqlFrames.Encode(MySqlFrames.Frame(2, p)), 0) ==
              Checking(r.username, r.password, r.cap)
  {
    hide MySqlFrames.ReadPacket, MySqlFrames.Encode, MySqlHandshake.Parse, MySqlHandshake.LaidOut;
    var f := MySqlFrames.Frame(2, p);
    MySqlFrames.PacketRoundTrip(f, []);
    assert MySqlFrames.Encode(f) + [] == MySqlFrames.Encode(f);
    MySqlHandshake.ParseIsExact(p, r);
  }

  function Hello(sid: nat): Label {
    First(sid, MySqlFrames.Encode(MySqlFrames.Frame(1, HELLO)), 0)
  }

  function Respond(sid: nat, p: Text): Label
    requires |p| <= 0x10_0000
  {
    Second(sid, MySqlFrames.Encode(MySqlFrames.Frame(2, p)), 0)
  }

  /** One MySQL client sends hello and a response, its login is granted, and the backend answers. */
  function MySqlRun(sid: nat, l: Listener, p: Text, b: Backend): seq<Label>
    requires |p| <= 0x10_0000
  {
    [Accept(sid, l), Hello(sid), Tls(sid, true), Respond(sid, p)]
    + [Check(sid, true), Login(sid, true, [], Some(b)), Handoff(sid, true)]
  }

  lemma MySqlFirstHalf(s: State, sid: nat, l: Listener, p: Text, r: MySqlHandshake.Response) returns (ls: seq<Label>)
    requires sid !in s.sessions && l in s.listeners && l.engine == MySql
    requires MySqlHandshake.LaidOut(p, r) && |p| <= 0x10_0000
    ensures ls == [Accept(sid, l), Hello(sid), Tls(sid, true), Respond(sid, p)]
    ensures Runnable(s, ls)
    ensures Arrived(s, After(s, ls), sid, Session(l, Checking(r.username, r.password, r.cap)), s.cancels)
  {
    hide AfterFirst, AfterSecond, MySqlFrames.Encode, MySqlHandshake.LaidOut, KeyData, KeyOf, Zeros, LoginAddress;
    hide MySqlHandshake.Parse, MySqlFrames.ReadPacket, PgWire.Startup, StartRelay, EndRelay, PgCancel;
    HelloAsksForTls();
    ResponseIsChecked(p, r);
    var s1 := Apply(s, Accept(sid, l));
    var s2 := Apply(s1, Hello(sid));
    var s3 := Apply(s2, Tls(sid, true));
    ConsRuns(s3, Respond(sid, p), []);
    ConsRuns(s2, Tls(sid, true), [Respond(sid, p)] + []);
    ls := [Tls(sid, true)] + ([Respond(sid, p)] + []);
    ConsRuns(s1, Hello(sid), ls);
    ls := [Hello(sid)] + ls;
    ConsRuns(s, Accept(sid, l), ls);
    ls := [Accept(sid, l)] + ls;
  }

  lemma MySqlSecondHalf(s: State, sid: nat, l: Listener, user: Text, pw: Text, caps: nat, b: Backend)
    returns (ls: seq<Label>)
    requires sid in s.sessions && s.sessions[sid] == Session(l, Checking(user, pw, caps)) && l.engine == MySql
    ensures ls == [Check(sid, true), Login(sid, true, [], Some(b)), Handoff(sid, true)]
    ensures Runnable(s, ls)
    ensures Arrived(s, After(s, ls), sid,
                    Session(l, if FramedAlike(caps, b.caps) then Relaying(b) else Closed), s.cancels)
  {
    hide FramedAlike, SameFraming, KeyData, KeyOf, AfterFirst, AfterSecond;
    SameFramingIff(caps, b.caps);
    var s1 := Apply(s, Check(sid, true));
    var s2 := Apply(s1, Login(sid, true, [], Some(b)));
    ConsRuns(s2, Handoff(sid, true), []);
    ls := [Handoff(sid, true)] + [];
    ConsRuns(s1, Login(sid, true, [], Some(b)), ls);
    ls := [Login(sid, true, [], Some(b))] + ls;
    ConsRuns(s, Check(sid, true), ls);
    ls := [Check(sid, true)] + ls;
  }

  /** It is relayed exactly when client and backend agree on the five framing flags. */
  lemma MySqlLoginRelaysIff(s: State, sid: nat, l: Listener, p: Text, r: MySqlHandshake.Response, b: Backend)
    requires sid !in s.sessions && l in s.listeners && l.engine == MySql
    requires MySqlHandshake.LaidOut(p, r) && |p| <= 0x10_0000
    ensures Runnable(s, MySqlRun(sid, l, p, b))
    ensures Arrived(s, After(s, MySqlRun(sid, l, p, b)), sid,
                    Session(l, if FramedAlike(r.cap, b.caps) then Relaying(b) else Closed), s.cancels)
  {
    hide Apply, Enabled, FramedAlike, MySqlHandshake.LaidOut, Hello, Respond;
    var ls := MySqlFirstHalf(s, sid, l, p, r);
    var ms := MySqlSecondHalf(After(s, ls), sid, l, r.username, r.password, r.cap, b);
    RunAppend(s, ls, ms);
  }
}
