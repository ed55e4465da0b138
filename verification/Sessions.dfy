/**
 All sessions of one emulator at once: the step order of servePostgres and serveMySQL, and the
 cancel-key registry they share (iamproxy/postgres.go, iamproxy/mysql.go).  Any number of
 sessions run interleaved; what clients send, how TLS, service.Validate and backends answer, and
 which writes fail is up to the label of each step.
 */
module Sessions {
  import opened Common
  import opened Wire
  import Addresses
  import PgWire
  import MySqlFrames
  import MySqlHandshake

  type Text = seq<byte>

  datatype Engine = Postgres | MySql

  datatype Listener = Listener(name: Text, engine: Engine, upstream: Text)

  /** A backend connection after login: the cancel key of a PostgreSQL one, the capabilities of a
      MySQL one. */
  datatype Backend = Backend(pid: word, secret: Text, caps: nat)

  datatype Phase =
    | Fresh                                      // nothing read yet
    | Handshaking                                // TLS was asked for
    | Secured                                    // TLS is up
    | Asked(user: Text)                          // a cleartext password was asked for
    | Checking(user: Text, password: Text, caps: nat)
    | Validated(caps: nat)
    | LoggedIn(caps: nat, backend: Backend)
    | Relaying(backend: Backend)
    | Cancelling(raw: Text)
    | Closed

  datatype Session = Session(listener: Listener, phase: Phase)

  datatype Event =
    | TlsUp
    | PasswordRead(user: Text)
    | Accepted(user: Text)                       // service.Validate returned a principal
    | LoginDial(addr: Text)
    | RelayStarted(clientCaps: nat, backendCaps: nat)
    | Stored(key: Text)                          // the cancel key is registered
    | Deleted(key: Text)
    | CancelDial(addr: Text, sent: Text)

  datatype Entry = Entry(sid: nat, listener: Listener, event: Event)

  /** `cancels` is the sync.Map; `log` records what happened, in order. */
  datatype State = State(
    listeners: set<Listener>,
    sessions: map<nat, Session>,
    cancels: map<Text, Text>,
    log: seq<Entry>)

  datatype Label =
    | Accept(sid: nat, listener: Listener)
    | First(sid: nat, input: Text, room: nat)         // the first message of the client
    | Tls(sid: nat, ok: bool)
    | Second(sid: nat, input: Text, room: nat)        // the first message inside TLS
    | Password(sid: nat, input: Text)
    | Check(sid: nat, granted: bool)                  // service.Validate
    | Login(sid: nat, dialed: bool, other: Text, backend: Option<Backend>)
    | Handoff(sid: nat, ok: bool)                     // the remaining startup messages
    | Finish(sid: nat)                                // the relay returns
    | Cancel(sid: nat)                                // pgCancel

  // ---- constants of the handlers

  const CLIENT_SSL: nat := 0x800
  const MULTI_RESULTS: nat := 0x2_0000
  const PS_MULTI_RESULTS: nat := 0x4_0000
  const SESSION_TRACK: nat := 0x80_0000
  const DEPRECATE_EOF: nat := 0x100_0000
  const QUERY_ATTRIBUTES: nat := 0x800_0000

  /** Agreement on myFramingCaps.  The greeting offers all five flags, so masking the client by it changes none. */
  predicate SameFraming(a: nat, b: nat) {
    && MySqlHandshake.Has(a, MULTI_RESULTS) == MySqlHandshake.Has(b, MULTI_RESULTS)
    && MySqlHandshake.Has(a, PS_MULTI_RESULTS) == MySqlHandshake.Has(b, PS_MULTI_RESULTS)
    && MySqlHandshake.Has(a, SESSION_TRACK) == MySqlHandshake.Has(b, SESSION_TRACK)
    && MySqlHandshake.Has(a, DEPRECATE_EOF) == MySqlHandshake.Has(b, DEPRECATE_EOF)
    && MySqlHandshake.Has(a, QUERY_ATTRIBUTES) == MySqlHandshake.Has(b, QUERY_ATTRIBUTES)
  }

  /** The flags after which packets are laid out differently. */
  const FRAMING: set<nat> := {0x2_0000, 0x4_0000, 0x80_0000, 0x100_0000, 0x800_0000}

  ghost predicate FramedAlike(a: nat, b: nat) {
    forall flag :: flag in FRAMING ==> (MySqlHandshake.Flag(a, flag) <==> MySqlHandshake.Flag(b, flag))
  }

  lemma SameFramingIff(a: nat, b: nat)
    ensures SameFraming(a, b) <==> FramedAlike(a, b)
  {
    hide MySqlHandshake.Has, MySqlHandshake.Flag;
    forall flag | flag in FRAMING
      ensures MySqlHandshake.Has(a, flag) <==> MySqlHandshake.Flag(a, flag)
      ensures MySqlHandshake.Has(b, flag) <==> MySqlHandshake.Flag(b, flag)
    {
      MySqlHandshake.HasIsFlag(a, flag);
      MySqlHandshake.HasIsFlag(b, flag);
    }
  }

  // startup parameters that are looked up
  const USER: Text := Ascii("user")
  const REPLICATION: Text := Ascii("replication")
  const ONE: Text := Ascii("1")

  /** strings.ToLower, on the letters that occur in the accepted words. */
  function Lower(v: Text): Text {
    seq(|v|, i requires 0 <= i < |v| => if 'A' as int <= v[i] <= 'Z' as int then v[i] + 32 else v[i])
  }

  /** pgReplicationMode: the backend mode, or None for a value PostgreSQL would refuse. */
  function ReplicationMode(v: Text): Option<Text> {
    var w := Lower(v);
    if w == [] || w == Ascii("false") || w == Ascii("off") || w == Ascii("no") || w == Ascii("0") then Some([])
    else if w == Ascii("true") || w == Ascii("on") || w == Ascii("yes") || w == Ascii("1") then Some(Ascii("true"))
    else if w == Ascii("database") then Some(Ascii("database"))
    else None
  }

  lemma LowerTwice(v: Text)
    ensures Lower(Lower(v)) == Lower(v)
  {
  }

  /** Case does not matter, and a normalised mode is read back as itself. */
  lemma ReplicationIsNormal(v: Text)
    ensures ReplicationMode(Lower(v)) == ReplicationMode(v)
    ensures ReplicationMode(v).Some? ==> ReplicationMode(ReplicationMode(v).value) == ReplicationMode(v)
  {
    LowerTwice(v);
    var (t, d) := (Ascii("true"), Ascii("database"));
    assert Lower([]) == [] && Lower(t) == t && Lower(d) == d;
  }

  /** Letter by letter, capitals become small. */
  predicate Folds(v: Text, w: Text) {
    |v| == |w| && forall i :: 0 <= i < |v| ==> w[i] == v[i] + if 65 <= v[i] <= 90 then 32 else 0
  }

  ghost predicate FoldsInto(v: Text, words: set<Text>) {
    exists w :: w in words && Folds(v, w)
  }

  lemma FoldsIntoIs(v: Text, words: set<Text>)
    ensures FoldsInto(v, words) <==> Lower(v) in words
  {
    forall w: Text ensures Folds(v, w) <==> Lower(v) == w {
    }
  }

  const NOT_REPLICATING: set<Text> := {[], Ascii("false"), Ascii("off"), Ascii("no"), Ascii("0")}
  const PHYSICAL: set<Text> := {Ascii("true"), Ascii("on"), Ascii("yes"), Ascii("1")}

  /** Which values select which mode; any other value is refused. */
  lemma ReplicationIsExact(v: Text)
    ensures ReplicationMode(v) == Some([]) <==> FoldsInto(v, NOT_REPLICATING)
    ensures ReplicationMode(v) == Some(Ascii("true")) <==> FoldsInto(v, PHYSICAL)
    ensures ReplicationMode(v) == Some(Ascii("database")) <==> FoldsInto(v, {Ascii("database")})
    ensures ReplicationMode(v) in {None, Some([]), Some(Ascii("true")), Some(Ascii("database"))}
  {
    hide Lower, FoldsInto;
    FoldsIntoIs(v, NOT_REPLICATING);
    FoldsIntoIs(v, PHYSICAL);
    FoldsIntoIs(v, {Ascii("database")});
    WordsDiffer();
  }

  lemma WordsDiffer()
    ensures [] !in PHYSICAL && Ascii("database") !in NOT_REPLICATING + PHYSICAL && NOT_REPLICATING !! PHYSICAL
    ensures Ascii("true") != [] && Ascii("database") != [] && Ascii("true") != Ascii("database")
  {
    assert Ascii("no")[0] != Ascii("on")[0] && Ascii("off")[0] != Ascii("yes")[0];
    assert Ascii("0")[0] != Ascii("1")[0];
    assert |Ascii("false")| == 5 && |Ascii("true")| == 4 && |Ascii("database")| == 8;
  }

  /** params[key], which is "" when the key is absent. */
  function Get(m: PgWire.Params, key: Text): Text {
    if key in m then m[key] else []
  }

  // ---- the registry

  /** What a session's cancel key looks like on the wire: the process number and the secret. */
  function KeyData(b: Backend): (k: Text)
    requires |b.secret| == 4
    ensures |k| == 8
  {
    BigEndian(b.pid, 4) + b.secret
  }

  /** The key is the backend's process number, most significant byte first, and then its secret. */
  lemma KeyDataIs(b: Backend, k: Text)
    requires |b.secret| == 4
    ensures k == KeyData(b) <==> |k| == 8 && FromBigEndian(k[..4]) == b.pid && k[4..] == b.secret
  {
    hide BigEndian, FromBigEndian, Power256;
    PgWire.Powers();
    BigEndianRoundTrip(b.pid, 4);
    if |k| == 8 && FromBigEndian(k[..4]) == b.pid && k[4..] == b.secret {
      FromBigEndianRoundTrip(k[..4]);
      assert k == k[..4] + k[4..];
    }
  }

  function RegistryKey(l: Listener, key: Text): Text {
    l.name + key
  }

  /** Names and keys cannot run into each other, because a key is always eight bytes. */
  lemma RegistryKeyIsInjective(l: Listener, key: Text, l': Listener, key': Text)
    requires |key| == |key'| && RegistryKey(l, key) == RegistryKey(l', key')
    ensures l.name == l'.name && key == key'
  {
    assert RegistryKey(l, key)[|l.name|..] == key;
    assert RegistryKey(l', key')[|l'.name|..] == key';
  }

  /** A session between Store and Delete. */
  predicate Active(s: Session) {
    s.listener.engine == Postgres && s.phase.Relaying? && |s.phase.backend.secret| == 4
  }

  function KeyOf(s: Session): Text
    requires Active(s)
  {
    RegistryKey(s.listener, KeyData(s.phase.backend))
  }

  // ---- where a login dials

  /** The MySQL driver dials the upstream as it is configured.  The PostgreSQL one is given a host and a
      port number and spells the address itself; `other` is what it makes of a socket path, or of a host
      that is itself a host and port. */
  function LoginAddress(l: Listener, other: Text): Option<Text> {
    match l.engine
    case MySql => Some(l.upstream)
    case Postgres =>
      match Addresses.LoginTarget(l.upstream)
      case None => None
      case Some((host, port)) => Some(if Addresses.ByTcp(host) then Addresses.Spelled(host, port) else other)
  }

  /** An address that a login on l may dial. */
  predicate LoginGoesTo(l: Listener, addr: Text) {
    LoginAddress(l, addr) == Some(addr)
  }

  lemma LoginAddressIsItsTarget(l: Listener, other: Text)
    requires LoginAddress(l, other).Some?
    ensures LoginGoesTo(l, LoginAddress(l, other).value)
  {
  }

  /** The host and port text of an upstream that can be split. */
  function PartsOf(l: Listener): (Text, Text) {
    match Addresses.SplitHostPort(l.upstream)
    case None => ([], [])
    case Some((host, port)) => (host, port)
  }

  /** Logins and cancel requests dial one address, the configured upstream, exactly when the engine is MySQL
      or the upstream is spelled plainly: no sign or leading zero in the port, no needless brackets. */
  lemma LoginDialsUpstreamIff(l: Listener, other: Text)
    requires l.engine == Postgres ==> Addresses.LoginTarget(l.upstream).Some? && Addresses.ByTcp(PartsOf(l).0)
    ensures LoginAddress(l, other) == Some(l.upstream) <==>
              || l.engine == MySql
              || (&& Addresses.PlainPort(PartsOf(l).1)
                  && (l.upstream[0] == Addresses.OPEN ==> Addresses.COLON in PartsOf(l).0))
  {
    if l.engine == Postgres {
      Addresses.SpelledAsConfiguredIff(l.upstream);
    }
  }

  // ---- steps

  predicate Enabled(s: State, l: Label) {
    match l
    case Accept(sid, listener) => sid !in s.sessions && listener in s.listeners
    case First(sid, _, _) => At(s, sid, Fresh)
    case Tls(sid, _) => At(s, sid, Handshaking)
    case Second(sid, _, _) => At(s, sid, Secured)
    case Password(sid, _) => sid in s.sessions && s.sessions[sid].phase.Asked?
    case Check(sid, _) => sid in s.sessions && s.sessions[sid].phase.Checking?
    case Login(sid, _, _, _) => sid in s.sessions && s.sessions[sid].phase.Validated?
    case Handoff(sid, _) => sid in s.sessions && s.sessions[sid].phase.LoggedIn?
    case Finish(sid) => sid in s.sessions && s.sessions[sid].phase.Relaying?
    case Cancel(sid) => sid in s.sessions && s.sessions[sid].phase.Cancelling?
  }

  predicate At(s: State, sid: nat, p: Phase) {
    sid in s.sessions && s.sessions[sid].phase == p
  }

  function Move(s: State, sid: nat, p: Phase): State
    requires sid in s.sessions
  {
    s.(sessions := s.sessions[sid := s.sessions[sid].(phase := p)])
  }

  function Note(s: State, sid: nat, e: Event): State
    requires sid in s.sessions
  {
    s.(log := s.log + [Entry(sid, s.sessions[sid].listener, e)])
  }

  /** The phase after the first message: a PostgreSQL startup round or the MySQL SSLRequest. */
  function AfterFirst(engine: Engine, input: Text, room: nat): (p: Phase)
    ensures p.Cancelling? || p.Handshaking? || p.Closed?
  {
    match engine
    case Postgres =>
      (match PgWire.Startup(input, room).params
       case None => Closed
       case Some(params) =>
         if PgWire.CANCEL_KEY in params then Cancelling(params[PgWire.CANCEL_KEY])
         else if Get(params, PgWire.SSL_KEY) == ONE then Handshaking
         else Closed)
    case MySql =>
      (match MySqlFrames.ReadPacket(input).0
       case Packet(p, seqno) =>
         if seqno == 1 && |p| == 32 && MySqlHandshake.Has(FromLittleEndian(p[..4]), CLIENT_SSL) then Handshaking
         else Closed
       case _ => Closed)
  }

  /** The phase after the first message inside TLS. */
  function AfterSecond(engine: Engine, input: Text, room: nat): (p: Phase)
    ensures p.Cancelling? || p.Asked? || p.Checking? || p.Closed?
    ensures p.Checking? ==> engine == MySql
    ensures p.Asked? || p.Cancelling? ==> engine == Postgres
  {
    match engine
    case Postgres =>
      (match PgWire.Startup(input, room).params
       case None => Closed
       case Some(params) =>
         if PgWire.CANCEL_KEY in params then Cancelling(params[PgWire.CANCEL_KEY])
         else if Get(params, PgWire.SSL_KEY) != [] || Get(params, USER) == [] then Closed
         else if ReplicationMode(Get(params, REPLICATION)) == None then Closed
         else Asked(Get(params, USER)))
    case MySql =>
      (match MySqlFrames.ReadPacket(input).0
       case Packet(p, seqno) =>
         if seqno != 2 then Closed
         else
           (match MySqlHandshake.Parse(p)
            case None => Closed
            case Some(r) => Checking(r.username, r.password, r.cap))
       case _ => Closed)
  }

  function Apply(s: State, l: Label): State
    requires Enabled(s, l)
  {
    match l
    case Accept(sid, listener) => s.(sessions := s.sessions[sid := Session(listener, Fresh)])
    case First(sid, input, room) => Move(s, sid, AfterFirst(s.sessions[sid].listener.engine, input, room))
    case Tls(sid, ok) => if ok then Move(Note(s, sid, TlsUp), sid, Secured) else Move(s, sid, Closed)
    case Second(sid, input, room) =>
      var p := AfterSecond(s.sessions[sid].listener.engine, input, room);
      if p.Checking? then Move(Note(s, sid, PasswordRead(p.user)), sid, p) else Move(s, sid, p)
    case Password(sid, input) =>
      (match PgWire.Password(input).0
       case None => Move(s, sid, Closed)
       case Some(pw) =>
         var user := s.sessions[sid].phase.user;
         Move(Note(s, sid, PasswordRead(user)), sid, Checking(user, pw, 0)))
    case Check(sid, granted) =>
      var phase := s.sessions[sid].phase;
      if granted then Move(Note(s, sid, Accepted(phase.user)), sid, Validated(phase.caps)) else Move(s, sid, Closed)
    case Login(sid, dialed, other, backend) =>
      var addr := LoginAddress(s.sessions[sid].listener, other);
      if addr == None || !dialed then Move(s, sid, Closed)
      else
        var s' := Note(s, sid, LoginDial(addr.value));
        if backend.Some? then Move(s', sid, LoggedIn(s.sessions[sid].phase.caps, backend.value))
        else Move(s', sid, Closed)
    case Handoff(sid, ok) => StartRelay(s, sid, ok)
    case Finish(sid) => EndRelay(s, sid)
    case Cancel(sid) => PgCancel(s, sid)
  }

  predicate Refused(session: Session)
    requires session.phase.LoggedIn?
  {
    match session.listener.engine
    case Postgres => |session.phase.backend.secret| != 4
    case MySql => !SameFraming(session.phase.caps, session.phase.backend.caps)
  }

  function StartRelay(s: State, sid: nat, ok: bool): State
    requires sid in s.sessions && s.sessions[sid].phase.LoggedIn?
  {
    var session := s.sessions[sid];
    var (caps, b) := (session.phase.caps, session.phase.backend);
    if Refused(session) || !ok then Move(s, sid, Closed)
    else if session.listener.engine == MySql then
      Move(Note(s, sid, RelayStarted(caps, b.caps)), sid, Relaying(b))
    else
      var s' := Note(Note(s, sid, Stored(KeyData(b))), sid, RelayStarted(caps, b.caps));
      var cancels := s.cancels[RegistryKey(session.listener, KeyData(b)) := session.listener.upstream];
      Move(s'.(cancels := cancels), sid, Relaying(b))
  }

  function EndRelay(s: State, sid: nat): State
    requires sid in s.sessions && s.sessions[sid].phase.Relaying?
  {
    var session := s.sessions[sid];
    if !Active(session) then Move(s, sid, Closed)
    else
      var s' := s.(cancels := s.cancels - {KeyOf(session)});
      Move(Note(s', sid, Deleted(KeyData(session.phase.backend))), sid, Closed)
  }

  /** Forwards the request if its key is registered for this listener, and ends. */
  function PgCancel(s: State, sid: nat): State
    requires sid in s.sessions && s.sessions[sid].phase.Cancelling?
  {
    var l := s.sessions[sid].listener;
    var raw := s.sessions[sid].phase.raw;
    if |raw| != 8 || RegistryKey(l, raw) !in s.cancels then Move(s, sid, Closed)
    else Move(Note(s, sid, CancelDial(s.cancels[RegistryKey(l, raw)], PgWire.CancelRequest(raw))), sid, Closed)
  }

  // ---- the order of events

  ghost predicate Dialed(log: seq<Entry>, sid: nat, l: Listener) {
    exists addr :: Entry(sid, l, LoginDial(addr)) in log
  }

  /** What must already have happened when an entry is logged. */
  ghost predicate Justified(before: seq<Entry>, e: Entry) {
    match e.event
    case TlsUp => true
    case PasswordRead(_) => Entry(e.sid, e.listener, TlsUp) in before
    case Accepted(user) => Entry(e.sid, e.listener, PasswordRead(user)) in before
    case LoginDial(addr) =>
      && LoginGoesTo(e.listener, addr)
      && exists user :: Entry(e.sid, e.listener, Accepted(user)) in before
    case RelayStarted(caps, backendCaps) =>
      && Dialed(before, e.sid, e.listener)
      && (e.listener.engine == MySql ==> FramedAlike(caps, backendCaps))
    case Stored(_) => Dialed(before, e.sid, e.listener)
    case Deleted(key) => Entry(e.sid, e.listener, Stored(key)) in before
    case CancelDial(addr, sent) =>
      && addr == e.listener.upstream
      && exists key, owner :: sent == PgWire.CancelRequest(key) && Registered(before, owner, e.listener, key)
  }

  /** The owner has stored its key and not deleted it. */
  predicate Registered(log: seq<Entry>, owner: nat, l: Listener, key: Text) {
    Entry(owner, l, Stored(key)) in log && Entry(owner, l, Deleted(key)) !in log
  }

  ghost predicate Ordered(log: seq<Entry>) {
    forall i :: 0 <= i < |log| ==> Justified(log[..i], log[i])
  }

  lemma OrderedAppend(log: seq<Entry>, e: Entry)
    requires Ordered(log) && Justified(log, e)
    ensures Ordered(log + [e])
  {
    forall i | 0 <= i < |log + [e]|
      ensures Justified((log + [e])[..i], (log + [e])[i])
    {
      if i < |log| {
        assert (log + [e])[..i] == log[..i];
      } else {
        assert (log + [e])[..i] == log;
      }
    }
  }

  /** The part of a session's past that its phase vouches for. */
  ghost predicate Vouched(log: seq<Entry>, sid: nat, s: Session) {
    var l := s.listener;
    match s.phase
    case Secured => Entry(sid, l, TlsUp) in log
    case Asked(_) => Entry(sid, l, TlsUp) in log
    case Checking(user, _, _) => Entry(sid, l, PasswordRead(user)) in log
    case Validated(_) => exists user :: Entry(sid, l, Accepted(user)) in log
    case LoggedIn(_, _) => Dialed(log, sid, l)
    case Relaying(b) => l.engine == Postgres ==> |b.secret| == 4 && Registered(log, sid, l, KeyData(b))
    case _ => true
  }

  predicate NamesUnique(ls: set<Listener>) {
    forall a, b :: a in ls && b in ls && a.name == b.name ==> a == b
  }

  /** Every registered key belongs to an active session of the listener it names. */
  ghost predicate RegistrySound(cancels: map<Text, Text>, sessions: map<nat, Session>) {
    forall key :: key in cancels ==>
      exists sid :: sid in sessions && Active(sessions[sid]) && KeyOf(sessions[sid]) == key &&
        cancels[key] == sessions[sid].listener.upstream
  }

  /** Entries are about sessions that exist, and only closed sessions have deleted a key. */
  ghost predicate PastOnly(log: seq<Entry>, sessions: map<nat, Session>) {
    forall e :: e in log ==> e.sid in sessions && (e.event.Deleted? ==> sessions[e.sid].phase == Closed)
  }

  ghost predicate AllVouched(log: seq<Entry>, sessions: map<nat, Session>) {
    forall sid :: sid in sessions ==> Vouched(log, sid, sessions[sid])
  }

  predicate Known(sessions: map<nat, Session>, listeners: set<Listener>) {
    forall sid :: sid in sessions ==> sessions[sid].listener in listeners
  }

  ghost predicate Inv(s: State) {
    && NamesUnique(s.listeners)
    && Known(s.sessions, s.listeners)
    && AllVouched(s.log, s.sessions)
    && PastOnly(s.log, s.sessions)
    && RegistrySound(s.cancels, s.sessions)
    && Ordered(s.log)
  }

  // ---- one session moves

  /** The other sessions keep what they can vouch for. */
  lemma MoveKeepsVouched(log: seq<Entry>, es: seq<Entry>, sessions: map<nat, Session>, sid: nat, session: Session)
    requires AllVouched(log, sessions) && PastOnly(log, sessions)
    requires forall e :: e in es ==> e.sid == sid && (e.event.Deleted? ==> session.phase == Closed)
    requires Vouched(log + es, sid, session)
    requires sid in sessions ==> (sessions[sid].phase == Closed ==> session.phase == Closed)
    ensures AllVouched(log + es, sessions[sid := session])
    ensures PastOnly(log + es, sessions[sid := session])
  {
    forall other | other in sessions && other != sid
      ensures Vouched(log + es, other, sessions[other])
    {
      var s := sessions[other];
      assert Vouched(log, other, s);
      if s.phase.Validated? {
        var user :| Entry(other, s.listener, Accepted(user)) in log;
        assert Entry(other, s.listener, Accepted(user)) in log + es;
      }
      if s.phase.LoggedIn? {
        var addr :| Entry(other, s.listener, LoginDial(addr)) in log;
        assert Entry(other, s.listener, LoginDial(addr)) in log + es;
      }
    }
  }

  lemma QuietKeepsRegistry(cancels: map<Text, Text>, sessions: map<nat, Session>, sid: nat, session: Session)
    requires RegistrySound(cancels, sessions) && (sid in sessions ==> !Active(sessions[sid]))
    ensures RegistrySound(cancels, sessions[sid := session])
  {
    var sessions' := sessions[sid := session];
    forall key | key in cancels
      ensures exists o :: o in sessions' && Active(sessions'[o]) && KeyOf(sessions'[o]) == key &&
                          cancels[key] == sessions'[o].listener.upstream
    {
      var o :| o in sessions && Active(sessions[o]) && KeyOf(sessions[o]) == key &&
               cancels[key] == sessions[o].listener.upstream;
      assert sessions'[o] == sessions[o];
    }
  }

  lemma StoreKeepsRegistry(cancels: map<Text, Text>, sessions: map<nat, Session>, sid: nat, session: Session)
    requires RegistrySound(cancels, sessions) && (sid in sessions ==> !Active(sessions[sid])) && Active(session)
    ensures RegistrySound(cancels[KeyOf(session) := session.listener.upstream], sessions[sid := session])
  {
    QuietKeepsRegistry(cancels, sessions, sid, session);
    var cancels' := cancels[KeyOf(session) := session.listener.upstream];
    var sessions' := sessions[sid := session];
    forall key | key in cancels'
      ensures exists o :: o in sessions' && Active(sessions'[o]) && KeyOf(sessions'[o]) == key &&
                          cancels'[key] == sessions'[o].listener.upstream
    {
      if key == KeyOf(session) {
        assert sessions'[sid] == session;
      } else {
        var o :| o in sessions' && Active(sessions'[o]) && KeyOf(sessions'[o]) == key &&
                 cancels[key] == sessions'[o].listener.upstream;
      }
    }
  }

  lemma DeleteKeepsRegistry(cancels: map<Text, Text>, sessions: map<nat, Session>, sid: nat, session: Session)
    requires RegistrySound(cancels, sessions) && sid in sessions && Active(sessions[sid])
    ensures RegistrySound(cancels - {KeyOf(sessions[sid])}, sessions[sid := session])
  {
    var sessions' := sessions[sid := session];
    forall key | key in cancels - {KeyOf(sessions[sid])}
      ensures exists o :: o in sessions' && Active(sessions'[o]) && KeyOf(sessions'[o]) == key &&
                          cancels[key] == sessions'[o].listener.upstream
    {
      var o :| o in sessions && Active(sessions[o]) && KeyOf(sessions[o]) == key &&
               cancels[key] == sessions[o].listener.upstream;
      assert o != sid && sessions'[o] == sessions[o];
    }
  }

  /** A quiet step: no registry change, at most one entry. */
  lemma QuietStep(s: State, sid: nat, p: Phase, es: seq<Entry>)
    requires Inv(s) && sid in s.sessions && !Active(s.sessions[sid]) && s.sessions[sid].phase != Closed
    requires es == [] || (|es| == 1 && es[0].sid == sid && !es[0].event.Deleted? && Justified(s.log, es[0]))
    requires Vouched(s.log + es, sid, s.sessions[sid].(phase := p))
    ensures Inv(s.(sessions := s.sessions[sid := s.sessions[sid].(phase := p)], log := s.log + es))
  {
    hide Ordered, AllVouched, PastOnly, RegistrySound, Vouched, Justified, NamesUnique;
    var session := s.sessions[sid].(phase := p);
    MoveKeepsVouched(s.log, es, s.sessions, sid, session);
    QuietKeepsRegistry(s.cancels, s.sessions, sid, session);
    if es != [] {
      OrderedAppend(s.log, es[0]);
      assert es == [es[0]];
    } else {
      assert s.log + es == s.log;
    }
  }

  lemma AcceptKeepsInv(s: State, sid: nat, listener: Listener)
    requires Inv(s) && Enabled(s, Accept(sid, listener))
    ensures Inv(Apply(s, Accept(sid, listener)))
  {
    MoveKeepsVouched(s.log, [], s.sessions, sid, Session(listener, Fresh));
    QuietKeepsRegistry(s.cancels, s.sessions, sid, Session(listener, Fresh));
    assert s.log + [] == s.log;
  }

  lemma TlsKeepsInv(s: State, sid: nat, ok: bool)
    requires Inv(s) && Enabled(s, Tls(sid, ok))
    ensures Inv(Apply(s, Tls(sid, ok)))
  {
    var l := s.sessions[sid].listener;
    if ok {
      QuietStep(s, sid, Secured, [Entry(sid, l, TlsUp)]);
    } else {
      assert s.log + [] == s.log;
      QuietStep(s, sid, Closed, []);
    }
  }

  lemma FirstKeepsInv(s: State, sid: nat, input: Text, room: nat)
    requires Inv(s) && Enabled(s, First(sid, input, room))
    ensures Inv(Apply(s, First(sid, input, room)))
  {
    assert s.log + [] == s.log;
    QuietStep(s, sid, AfterFirst(s.sessions[sid].listener.engine, input, room), []);
  }

  lemma SecondKeepsInv(s: State, sid: nat, input: Text, room: nat)
    requires Inv(s) && Enabled(s, Second(sid, input, room))
    ensures Inv(Apply(s, Second(sid, input, room)))
  {
    var l := s.sessions[sid].listener;
    var p := AfterSecond(l.engine, input, room);
    assert Vouched(s.log, sid, s.sessions[sid]);
    if p.Checking? {
      QuietStep(s, sid, p, [Entry(sid, l, PasswordRead(p.user))]);
    } else {
      assert s.log + [] == s.log;
      QuietStep(s, sid, p, []);
    }
  }

  lemma PasswordKeepsInv(s: State, sid: nat, input: Text)
    requires Inv(s) && Enabled(s, Password(sid, input))
    ensures Inv(Apply(s, Password(sid, input)))
  {
    var l := s.sessions[sid].listener;
    var user := s.sessions[sid].phase.user;
    assert Vouched(s.log, sid, s.sessions[sid]);
    match PgWire.Password(input).0
    case None =>
      assert s.log + [] == s.log;
      QuietStep(s, sid, Closed, []);
    case Some(pw) =>
      QuietStep(s, sid, Checking(user, pw, 0), [Entry(sid, l, PasswordRead(user))]);
  }

  lemma CheckKeepsInv(s: State, sid: nat, granted: bool)
    requires Inv(s) && Enabled(s, Check(sid, granted))
    ensures Inv(Apply(s, Check(sid, granted)))
  {
    var l := s.sessions[sid].listener;
    var phase := s.sessions[sid].phase;
    assert Vouched(s.log, sid, s.sessions[sid]);
    if granted {
      var e := Entry(sid, l, Accepted(phase.user));
      assert e in s.log + [e];
      QuietStep(s, sid, Validated(phase.caps), [e]);
    } else {
      assert s.log + [] == s.log;
      QuietStep(s, sid, Closed, []);
    }
  }

  lemma LoginKeepsInv(s: State, sid: nat, dialed: bool, other: Text, backend: Option<Backend>)
    requires Inv(s) && Enabled(s, Login(sid, dialed, other, backend))
    ensures Inv(Apply(s, Login(sid, dialed, other, backend)))
  {
    hide Ordered, AllVouched, PastOnly, RegistrySound, NamesUnique, LoginAddress, LoginGoesTo;
    var l := s.sessions[sid].listener;
    var caps := s.sessions[sid].phase.caps;
    VouchesFor(s.log, s.sessions, sid);
    var addr := LoginAddress(l, other);
    if addr.Some? && dialed {
      LoginAddressIsItsTarget(l, other);
      var e := Entry(sid, l, LoginDial(addr.value));
      assert e in s.log + [e];
      var phase := if backend.Some? then LoggedIn(caps, backend.value) else Closed;
      QuietStep(s, sid, phase, [e]);
    } else {
      assert s.log + [] == s.log;
      QuietStep(s, sid, Closed, []);
    }
  }

  lemma VouchesFor(log: seq<Entry>, sessions: map<nat, Session>, sid: nat)
    requires AllVouched(log, sessions) && sid in sessions
    ensures Vouched(log, sid, sessions[sid])
  {
  }

  lemma NotYetDeleted(log: seq<Entry>, sessions: map<nat, Session>, sid: nat, l: Listener, key: Text)
    requires PastOnly(log, sessions) && sid in sessions && sessions[sid].phase != Closed
    ensures Entry(sid, l, Deleted(key)) !in log
  {
  }

  /** The two entries that a PostgreSQL relay starts with. */
  function StartEntries(sid: nat, session: Session): (es: seq<Entry>)
    requires session.phase.LoggedIn? && |session.phase.backend.secret| == 4
    ensures forall e :: e in es ==> e.sid == sid && !e.event.Deleted?
  {
    var (l, b) := (session.listener, session.phase.backend);
    [Entry(sid, l, Stored(KeyData(b))), Entry(sid, l, RelayStarted(session.phase.caps, b.caps))]
  }

  lemma StartIsOrdered(log: seq<Entry>, sid: nat, session: Session)
    requires session.phase.LoggedIn? && |session.phase.backend.secret| == 4 && session.listener.engine == Postgres
    requires Ordered(log) && Dialed(log, sid, session.listener)
    ensures Ordered(log + StartEntries(sid, session))
  {
    hide Ordered, KeyData;
    var es := StartEntries(sid, session);
    var addr :| Entry(sid, session.listener, LoginDial(addr)) in log;
    assert Entry(sid, session.listener, LoginDial(addr)) in log + [es[0]];
    OrderedAppend(log, es[0]);
    OrderedAppend(log + [es[0]], es[1]);
    assert log + [es[0]] + [es[1]] == log + es;
  }

  lemma StartIsVouched(log: seq<Entry>, sid: nat, session: Session)
    requires session.phase.LoggedIn? && |session.phase.backend.secret| == 4 && session.listener.engine == Postgres
    requires Entry(sid, session.listener, Deleted(KeyData(session.phase.backend))) !in log
    ensures Vouched(log + StartEntries(sid, session), sid, session.(phase := Relaying(session.phase.backend)))
  {
    hide KeyData;
    var es := StartEntries(sid, session);
    assert es[0] in es;
  }

  lemma StoreKeepsInv(s: State, sid: nat)
    requires Inv(s) && sid in s.sessions && s.sessions[sid].phase.LoggedIn?
    requires s.sessions[sid].listener.engine == Postgres && !Refused(s.sessions[sid])
    ensures Inv(StartRelay(s, sid, true))
  {
    hide AllVouched, PastOnly, RegistrySound, Ordered, KeyData, RegistryKey, Justified;
    var session := s.sessions[sid];
    var b := session.phase.backend;
    var session' := session.(phase := Relaying(b));
    VouchesFor(s.log, s.sessions, sid);
    NotYetDeleted(s.log, s.sessions, sid, session.listener, KeyData(b));
    StartIsOrdered(s.log, sid, session);
    StartIsVouched(s.log, sid, session);
    MoveKeepsVouched(s.log, StartEntries(sid, session), s.sessions, sid, session');
    StoreKeepsRegistry(s.cancels, s.sessions, sid, session');
    var (e, f) := (StartEntries(sid, session)[0], StartEntries(sid, session)[1]);
    assert s.log + [e] + [f] == s.log + [e, f];
  }

  lemma HandoffKeepsInv(s: State, sid: nat, ok: bool)
    requires Inv(s) && Enabled(s, Handoff(sid, ok))
    ensures Inv(Apply(s, Handoff(sid, ok)))
  {
    var session := s.sessions[sid];
    assert Vouched(s.log, sid, session);
    if Refused(session) || !ok {
      assert s.log + [] == s.log;
      QuietStep(s, sid, Closed, []);
    } else if session.listener.engine == MySql {
      SameFramingIff(session.phase.caps, session.phase.backend.caps);
      var b := session.phase.backend;
      QuietStep(s, sid, Relaying(b), [Entry(sid, session.listener, RelayStarted(session.phase.caps, b.caps))]);
    } else {
      StoreKeepsInv(s, sid);
    }
  }

  lemma FinishKeepsInv(s: State, sid: nat)
    requires Inv(s) && Enabled(s, Finish(sid))
    ensures Inv(Apply(s, Finish(sid)))
  {
    hide KeyOf, RegistrySound, Ordered;
    var session := s.sessions[sid];
    assert Vouched(s.log, sid, session);
    if Active(session) {
      var deleted := Entry(sid, session.listener, Deleted(KeyData(session.phase.backend)));
      OrderedAppend(s.log, deleted);
      MoveKeepsVouched(s.log, [deleted], s.sessions, sid, session.(phase := Closed));
      DeleteKeepsRegistry(s.cancels, s.sessions, sid, session.(phase := Closed));
    } else {
      assert s.log + [] == s.log;
      QuietStep(s, sid, Closed, []);
    }
  }

  /** What a registry hit means. */
  lemma HitHasOwner(s: State, l: Listener, raw: Text) returns (owner: nat)
    requires Inv(s) && l in s.listeners && |raw| == 8 && RegistryKey(l, raw) in s.cancels
    ensures owner in s.sessions && Active(s.sessions[owner]) && s.sessions[owner].listener == l
    ensures KeyData(s.sessions[owner].phase.backend) == raw
    ensures s.cancels[RegistryKey(l, raw)] == l.upstream && Registered(s.log, owner, l, raw)
  {
    var key := RegistryKey(l, raw);
    owner :| owner in s.sessions && Active(s.sessions[owner]) && KeyOf(s.sessions[owner]) == key &&
             s.cancels[key] == s.sessions[owner].listener.upstream;
    RegistryKeyIsInjective(l, raw, s.sessions[owner].listener, KeyData(s.sessions[owner].phase.backend));
    assert Vouched(s.log, owner, s.sessions[owner]);
  }

  lemma CancelKeepsInv(s: State, sid: nat)
    requires Inv(s) && Enabled(s, Cancel(sid))
    ensures Inv(Apply(s, Cancel(sid)))
  {
    hide Ordered, AllVouched, PastOnly, RegistrySound, NamesUnique, KeyData, RegistryKey, Registered;
    hide PgWire.CancelRequest;
    var l := s.sessions[sid].listener;
    var raw := s.sessions[sid].phase.raw;
    if |raw| != 8 || RegistryKey(l, raw) !in s.cancels {
      assert s.log + [] == s.log;
      QuietStep(s, sid, Closed, []);
    } else {
      var owner := HitHasOwner(s, l, raw);
      var e := Entry(sid, l, CancelDial(s.cancels[RegistryKey(l, raw)], PgWire.CancelRequest(raw)));
      assert Justified(s.log, e);
      QuietStep(s, sid, Closed, [e]);
    }
  }

  lemma StepKeepsInv(s: State, l: Label)
    requires Inv(s) && Enabled(s, l)
    ensures Inv(Apply(s, l))
  {
    match l
    case Accept(sid, listener) => AcceptKeepsInv(s, sid, listener);
    case First(sid, input, room) => FirstKeepsInv(s, sid, input, room);
    case Tls(sid, ok) => TlsKeepsInv(s, sid, ok);
    case Second(sid, input, room) => SecondKeepsInv(s, sid, input, room);
    case Password(sid, input) => PasswordKeepsInv(s, sid, input);
    case Check(sid, granted) => CheckKeepsInv(s, sid, granted);
    case Login(sid, dialed, other, backend) => LoginKeepsInv(s, sid, dialed, other, backend);
    case Handoff(sid, ok) => HandoffKeepsInv(s, sid, ok);
    case Finish(sid) => FinishKeepsInv(s, sid);
    case Cancel(sid) => CancelKeepsInv(s, sid);
  }

  // ---- whole runs

  function Initial(listeners: set<Listener>): State {
    State(listeners, map[], map[], [])
  }

  predicate Runnable(s: State, ls: seq<Label>)
    decreases |ls|
  {
    ls == [] || (Enabled(s, ls[0]) && Runnable(Apply(s, ls[0]), ls[1..]))
  }

  function After(s: State, ls: seq<Label>): State
    requires Runnable(s, ls)
    decreases |ls|
  {
    if ls == [] then s else After(Apply(s, ls[0]), ls[1..])
  }

  lemma {:induction false} RunKeepsInv(s: State, ls: seq<Label>)
    requires Inv(s) && Runnable(s, ls)
    ensures Inv(After(s, ls))
    decreases |ls|
  {
    if ls != [] {
      StepKeepsInv(s, ls[0]);
      RunKeepsInv(Apply(s, ls[0]), ls[1..]);
    }
  }

  /** In every run of any sessions, each entry of the log has behind it what it needs: no password
      before TLS, no dial without a validated password, no dial but to the session's own target,
      no cancel without a live session, no MySQL relay between different framings. */
  lemma EventsAreOrdered(listeners: set<Listener>, ls: seq<Label>, i: nat)
    requires NamesUnique(listeners) && Runnable(Initial(listeners), ls)
    requires i < |After(Initial(listeners), ls).log|
    ensures var log := After(Initial(listeners), ls).log;
            Justified(log[..i], log[i])
  {
    RunKeepsInv(Initial(listeners), ls);
  }

  /** The chain behind a backend dial, spelled out. */
  lemma DialFollowsTheWholeLogin(listeners: set<Listener>, ls: seq<Label>, i: nat)
    requires NamesUnique(listeners) && Runnable(Initial(listeners), ls)
    requires i < |After(Initial(listeners), ls).log| && After(Initial(listeners), ls).log[i].event.LoginDial?
    ensures var log := After(Initial(listeners), ls).log;
            && LoginGoesTo(log[i].listener, log[i].event.addr)
            && exists t, p, a, user :: LoginAt(log, i, t, p, a, user)
  {
    RunKeepsInv(Initial(listeners), ls);
    LoginChain(After(Initial(listeners), ls).log, i);
  }

  /** TLS at t, password at p, acceptance at a, dial at i: one session, one user, in this order. */
  predicate LoginAt(log: seq<Entry>, i: nat, t: nat, p: nat, a: nat, user: Text) {
    && t < p < a < i < |log|
    && log[t] == Entry(log[i].sid, log[i].listener, TlsUp)
    && log[p] == Entry(log[i].sid, log[i].listener, PasswordRead(user))
    && log[a] == Entry(log[i].sid, log[i].listener, Accepted(user))
  }

  lemma LoginChain(log: seq<Entry>, i: nat)
    requires Ordered(log) && i < |log| && log[i].event.LoginDial?
    ensures LoginGoesTo(log[i].listener, log[i].event.addr)
    ensures exists t, p, a, user :: LoginAt(log, i, t, p, a, user)
  {
    var (sid, l) := (log[i].sid, log[i].listener);
    assert Justified(log[..i], log[i]);
    var user :| Entry(sid, l, Accepted(user)) in log[..i];
    var a: nat :| a < i && log[a] == Entry(sid, l, Accepted(user));
    assert Justified(log[..a], log[a]);
    var p: nat :| p < a && log[p] == Entry(sid, l, PasswordRead(user));
    assert Justified(log[..p], log[p]);
    var t: nat :| t < p && log[t] == Entry(sid, l, TlsUp);
    assert LoginAt(log, i, t, p, a, user);
  }

  // ---- the registry as a set of live sessions

  /** Keys of sessions between Store and Delete differ. */
  predicate KeysDistinct(sessions: map<nat, Session>) {
    forall a, b :: (a in sessions && b in sessions && a != b && Active(sessions[a]) && Active(sessions[b])) ==>
      KeyOf(sessions[a]) != KeyOf(sessions[b])
  }

  /** Every active session can be cancelled. */
  predicate RegistryComplete(s: State) {
    forall sid :: sid in s.sessions && Active(s.sessions[sid]) ==> KeyOf(s.sessions[sid]) in s.cancels
  }

  /** Only the start and the end of a relay touch the registry. */
  lemma OtherStepsKeepRegistry(s: State, l: Label)
    requires Enabled(s, l) && !l.Handoff? && !l.Finish?
    ensures var s' := Apply(s, l);
            && s'.cancels == s.cancels
            && l.sid in s'.sessions && !Active(s'.sessions[l.sid])
            && s'.sessions == s.sessions[l.sid := s'.sessions[l.sid]]
  {
  }

  lemma StepKeepsComplete(s: State, l: Label)
    requires Inv(s) && Enabled(s, l) && RegistryComplete(s) && KeysDistinct(s.sessions)
    ensures RegistryComplete(Apply(s, l))
  {
    match l
    case Handoff(sid, ok) => HandoffKeepsComplete(s, sid, ok);
    case Finish(sid) =>
      if Active(s.sessions[sid]) { EndingSparesOthersIff(s, sid); }
    case _ => OtherStepsKeepRegistry(s, l);
  }

  lemma HandoffKeepsComplete(s: State, sid: nat, ok: bool)
    requires Enabled(s, Handoff(sid, ok)) && RegistryComplete(s)
    ensures RegistryComplete(StartRelay(s, sid, ok))
  {
  }

  predicate DistinctThroughout(s: State, ls: seq<Label>)
    requires Runnable(s, ls)
    decreases |ls|
  {
    KeysDistinct(s.sessions) && (ls == [] || DistinctThroughout(Apply(s, ls[0]), ls[1..]))
  }

  lemma {:induction false} RunKeepsComplete(s: State, ls: seq<Label>)
    requires Inv(s) && Runnable(s, ls) && RegistryComplete(s) && DistinctThroughout(s, ls)
    ensures RegistryComplete(After(s, ls))
    decreases |ls|
  {
    if ls != [] {
      StepKeepsInv(s, ls[0]);
      StepKeepsComplete(s, ls[0]);
      RunKeepsComplete(Apply(s, ls[0]), ls[1..]);
    }
  }

  /** While keys are distinct, a cancel request is forwarded exactly when a live session of the same
      listener has its key; it goes to that listener's upstream, unchanged. */
  lemma CancelIffLive(listeners: set<Listener>, ls: seq<Label>, sid: nat)
    requires NamesUnique(listeners) && Runnable(Initial(listeners), ls)
    requires DistinctThroughout(Initial(listeners), ls)
    requires Enabled(After(Initial(listeners), ls), Cancel(sid))
    ensures var s := After(Initial(listeners), ls);
            var (l, raw) := (s.sessions[sid].listener, s.sessions[sid].phase.raw);
            var live := |raw| == 8 && exists o ::
                          && o in s.sessions && Active(s.sessions[o]) && s.sessions[o].listener == l
                          && FromBigEndian(raw[..4]) == s.sessions[o].phase.backend.pid
                          && raw[4..] == s.sessions[o].phase.backend.secret;
            Apply(s, Cancel(sid)).log ==
              if live then s.log + [Entry(sid, l, CancelDial(l.upstream, PgWire.CancelRequest(raw)))] else s.log
  {
    var s := After(Initial(listeners), ls);
    RunKeepsInv(Initial(listeners), ls);
    RunKeepsComplete(Initial(listeners), ls);
    var (l, raw) := (s.sessions[sid].listener, s.sessions[sid].phase.raw);
    if |raw| == 8 && RegistryKey(l, raw) in s.cancels {
      var owner := HitHasOwner(s, l, raw);
      KeyDataIs(s.sessions[owner].phase.backend, raw);
    } else if |raw| == 8 {
      forall o | o in s.sessions && Active(s.sessions[o]) && s.sessions[o].listener == l
        ensures !(FromBigEndian(raw[..4]) == s.sessions[o].phase.backend.pid
                  && raw[4..] == s.sessions[o].phase.backend.secret)
      {
        assert KeyOf(s.sessions[o]) in s.cancels;
        KeyDataIs(s.sessions[o].phase.backend, raw);
      }
    }
  }

  /** Distinctness is needed: when a session ends, the others stay cancellable exactly if none of
      them shares its key. */
  lemma EndingSparesOthersIff(s: State, sid: nat)
    requires RegistryComplete(s) && sid in s.sessions && Active(s.sessions[sid])
    ensures RegistryComplete(EndRelay(s, sid)) <==>
              forall o :: o in s.sessions && o != sid && Active(s.sessions[o]) ==>
                KeyOf(s.sessions[o]) != KeyOf(s.sessions[sid])
  {
    hide KeyOf;
    var s' := EndRelay(s, sid);
    if RegistryComplete(s') {
      forall o | o in s.sessions && o != sid && Active(s.sessions[o])
        ensures KeyOf(s.sessions[o]) != KeyOf(s.sessions[sid])
      {
        assert s'.sessions[o] == s.sessions[o] && KeyOf(s'.sessions[o]) in s'.cancels;
      }
    }
  }

  /** The request that is forwarded is, byte for byte, the one the client sent. */
  lemma CancelIsForwardedVerbatim(k: nat, key: Text, rest: Text, room: nat)
    requires |key| == 8 && k <= room
    ensures AfterFirst(Postgres, PgWire.GssRequests(k) + (PgWire.CancelRequest(key) + rest), room) == Cancelling(key)
    ensures AfterSecond(Postgres, PgWire.GssRequests(k) + (PgWire.CancelRequest(key) + rest), room) == Cancelling(key)
  {
    PgWire.CancelRoundTrip(k, key, rest, room);
  }
}
