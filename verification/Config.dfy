/** Configuration checking (iamproxy/config.go Validate). */
module Config {
  import opened Common

  /** The foreign calls: net.SplitHostPort, net.ParseIP with IsLoopback, and strings.ToLower. */
  datatype Host = Host(
    splitHostPort: string -> Option<(string, string)>,
    loopbackIP: string -> bool,
    lower: string -> string)

  datatype Listener = Listener(
    name: string,
    listen: string,
    provider: string,
    engine: string,
    inst: string,
    hostname: string,
    region: string,
    resourceID: string,
    tenant: string,
    upstream: string,
    upstreamTLS: string)

  datatype Principal = Principal(
    id: string,
    email: string,
    groups: seq<string>,
    grants: seq<string>,
    backendUser: string,
    backendPassword: string,
    awsAccessKey: string,
    awsSecretKey: string,
    awsSessionToken: string,
    ecsAuthorizationToken: string)

  /** The fields that Validate looks at. */
  datatype Settings = Settings(
    httpListen: string,
    httpsListen: string,
    tlsCert: string,
    tlsKey: string,
    listeners: seq<Listener>,
    principals: seq<Principal>)

  const NUL: string := ['\0']
  const DEFAULT_HTTP: string := "127.0.0.1:8090"

  // ---- helpers of the source

  predicate LoopbackAddress(h: Host, addr: string) {
    match h.splitHostPort(addr)
    case None => false
    case Some((host, _)) => host == "localhost" || h.loopbackIP(host)
  }

  /** The port, or "" when the address does not parse. */
  function Port(h: Host, addr: string): string {
    match h.splitHostPort(addr)
    case None => ""
    case Some((_, port)) => port
  }

  function BeforeAt(s: string): string {
    if s == "" || s[0] == '@' then "" else [s[0]] + BeforeAt(s[1..])
  }

  function TrimSuffix(s: string, suffix: string): string {
    if |suffix| <= |s| && s[|s| - |suffix|..] == suffix then s[..|s| - |suffix|] else s
  }

  function GoogleUsername(h: Host, email: string, engine: string): string {
    if engine == "mysql" then BeforeAt(h.lower(email)) else TrimSuffix(h.lower(email), ".gserviceaccount.com")
  }

  ghost predicate EndsWith(s: string, suffix: string) {
    exists front :: s == front + suffix
  }

  const SERVICE_ACCOUNT: string := ".gserviceaccount.com"

  /** The database name of an email, lowered: what comes before the first '@' for MySQL; otherwise the email
      without the suffix of service accounts. */
  ghost predicate GoesBy(low: string, engine: string, username: string) {
    if engine == "mysql" then '@' !in username && (low == username || username + "@" <= low)
    else low == username + SERVICE_ACCOUNT || (low == username && !EndsWith(low, SERVICE_ACCOUNT))
  }

  lemma {:induction false} BeforeAtIs(s: string, name: string)
    ensures BeforeAt(s) == name <==> '@' !in name && (s == name || name + "@" <= s)
  {
    if s == "" {
    } else if s[0] == '@' {
      if name != "" && name + "@" <= s {
        assert name[0] == (name + "@")[0] == s[0];
      }
    } else {
      if name == "" {
        assert name + "@" == "@";
      } else {
        BeforeAtIs(s[1..], name[1..]);
        assert s == [s[0]] + s[1..] && name == [name[0]] + name[1..];
        assert name + "@" == [name[0]] + (name[1..] + "@");
      }
    }
  }

  lemma TrimSuffixIs(s: string, suffix: string, name: string)
    requires suffix != ""
    ensures TrimSuffix(s, suffix) == name <==> s == name + suffix || (s == name && !EndsWith(s, suffix))
  {
    if |suffix| <= |s| && s[|s| - |suffix|..] == suffix {
      assert s == s[..|s| - |suffix|] + suffix;
    } else {
      assert forall front :: |front + suffix| >= |suffix| && (front + suffix)[|front + suffix| - |suffix|..] == suffix;
    }
  }

  lemma GoogleUsernameIs(h: Host, email: string, engine: string, username: string)
    ensures GoogleUsername(h, email, engine) == username <==> GoesBy(h.lower(email), engine, username)
  {
    BeforeAtIs(h.lower(email), username);
    TrimSuffixIs(h.lower(email), SERVICE_ACCOUNT, username);
  }

  /** An address is good for an endpoint exactly when it has a host that is localhost or a loopback IP. */
  lemma LoopbackIs(h: Host, addr: string)
    ensures LoopbackAddress(h, addr) <==>
              exists host, port ::
                h.splitHostPort(addr) == Some((host, port)) && (host == "localhost" || h.loopbackIP(host))
  {
  }

  // ---- what a valid configuration is

  predicate EndpointsOk(h: Host, s: Settings) {
    && LoopbackAddress(h, s.httpListen)
    && (s.httpsListen != "" ==> LoopbackAddress(h, s.httpsListen) && !Clash(h, s.httpsListen, s.httpListen))
    && (s.tlsCert == "" <==> s.tlsKey == "")
    && s.listeners != []
  }

  /** Two addresses name one fixed port. */
  predicate Clash(h: Host, a: string, b: string) {
    a == b && Port(h, a) != "0"
  }

  predicate ListenerOk(h: Host, l: Listener) {
    && l.name != "" && l.listen != "" && l.upstream != "" && l.inst != ""
    && l.provider in {"aws", "google", "azure"}
    && l.engine in {"postgres", "mysql"}
    && h.splitHostPort(l.listen).Some?
    && (l.provider == "aws" ==> l.hostname != "" && l.region != "" && l.resourceID != "")
    && (l.provider == "azure" ==> l.tenant != "")
    && l.upstreamTLS in {"", "disable", "require", "verify-full"}
    && LoopbackAddress(h, l.listen)
  }

  predicate OffEndpoints(h: Host, s: Settings, l: Listener) {
    !Clash(h, l.listen, s.httpListen) && (s.httpsListen != "" ==> !Clash(h, l.listen, s.httpsListen))
  }

  predicate Apart(h: Host, a: Listener, b: Listener) {
    a.name != b.name && !Clash(h, a.listen, b.listen)
  }

  predicate ListenersOk(h: Host, s: Settings) {
    && (forall l :: l in s.listeners ==> ListenerOk(h, l) && OffEndpoints(h, s, l))
    && (forall i, j :: 0 <= i < j < |s.listeners| ==> Apart(h, s.listeners[i], s.listeners[j]))
  }

  predicate Named(ls: seq<Listener>, name: string) {
    exists i :: 0 <= i < |ls| && ls[i].name == name
  }

  /** The listener a grant names; the last of that name, as filling a map leaves it. */
  function ByName(ls: seq<Listener>, name: string): (l: Listener)
    requires Named(ls, name)
    ensures l in ls && l.name == name
  {
    var last := ls[|ls| - 1];
    if last.name == name then last
    else
      assert Named(ls[..|ls| - 1], name) by {
        var i :| 0 <= i < |ls| && ls[i].name == name;
        assert ls[..|ls| - 1][i].name == name;
      }
      ByName(ls[..|ls| - 1], name)
  }

  predicate GrantOk(ls: seq<Listener>, p: Principal, g: string) {
    && Named(ls, g)
    && (ByName(ls, g).provider in {"google", "azure"} ==> p.email != "")
  }

  predicate PrincipalOk(ls: seq<Listener>, p: Principal) {
    && p.id != "" && p.backendUser != "" && p.backendPassword != ""
    && (p.awsAccessKey != "" ==> p.awsSecretKey != "")
    && (p.ecsAuthorizationToken != "" ==> p.awsAccessKey != "")
    && (forall g :: g in p.grants ==> GrantOk(ls, p, g))
  }

  predicate Unlike(p: Principal, q: Principal) {
    p.id != q.id && (p.awsAccessKey != "" ==> p.awsAccessKey != q.awsAccessKey)
  }

  /** The three names a principal can go by on a listener. */
  datatype Kind = BackendUser | GoogleName | AzureEmail

  predicate Applies(k: Kind, l: Listener) {
    match k
    case BackendUser => true
    case GoogleName => l.provider == "google"
    case AzureEmail => l.provider == "azure"
  }

  function NameOf(h: Host, k: Kind, l: Listener, p: Principal): string {
    match k
    case BackendUser => p.backendUser
    case GoogleName => GoogleUsername(h, p.email, l.engine)
    case AzureEmail => p.email
  }

  predicate Goes(ls: seq<Listener>, k: Kind, p: Principal, g: string) {
    g in p.grants && Named(ls, g) && Applies(k, ByName(ls, g))
  }

  /** The specification: on one listener, different principals go by different names. */
  ghost predicate Unshared(h: Host, ls: seq<Listener>, ps: seq<Principal>, k: Kind) {
    forall p, q, g :: (p in ps && q in ps && Goes(ls, k, p, g) && Goes(ls, k, q, g)
      && NameOf(h, k, ByName(ls, g), p) == NameOf(h, k, ByName(ls, g), q)) ==> p.id == q.id
  }

  function Key(g: string, name: string): string {
    g + NUL + name
  }

  /** The key under which a principal's name on listener g is recorded, with the principal's id. */
  function Claim(h: Host, ls: seq<Listener>, k: Kind, p: Principal, g: string): (string, string)
    requires Named(ls, g)
  {
    (Key(g, NameOf(h, k, ByName(ls, g), p)), p.id)
  }

  /** What the code tests instead: no recorded key belongs to two principals. */
  ghost predicate NoSharedKey(h: Host, ls: seq<Listener>, ps: seq<Principal>, k: Kind) {
    forall p, q, g, g' :: (p in ps && q in ps && Goes(ls, k, p, g) && Goes(ls, k, q, g')
      && Claim(h, ls, k, p, g).0 == Claim(h, ls, k, q, g').0) ==> p.id == q.id
  }

  predicate PrincipalsOk(h: Host, ls: seq<Listener>, ps: seq<Principal>) {
    && (forall p :: p in ps ==> PrincipalOk(ls, p))
    && (forall i, j :: 0 <= i < j < |ps| ==> Unlike(ps[i], ps[j]))
  }

  /** The verdict of the code. */
  ghost predicate Accepts(h: Host, s: Settings) {
    && EndpointsOk(h, s) && ListenersOk(h, s) && PrincipalsOk(h, s.listeners, s.principals)
    && (forall k :: NoSharedKey(h, s.listeners, s.principals, k))
  }

  /** The verdict that is wanted. */
  ghost predicate Valid(h: Host, s: Settings) {
    && EndpointsOk(h, s) && ListenersOk(h, s) && PrincipalsOk(h, s.listeners, s.principals)
    && (forall k :: Unshared(h, s.listeners, s.principals, k))
  }

  function Effective(s: Settings): Settings {
    if s.httpListen == "" then s.(httpListen := DEFAULT_HTTP) else s
  }

  // ---- the code

  class Config {
    var httpListen: string
    var httpsListen: string
    var tlsCert: string
    var tlsKey: string
    var listeners: seq<Listener>
    var principals: seq<Principal>

    function State(): Settings
      reads this
    {
      Settings(httpListen, httpsListen, tlsCert, tlsKey, listeners, principals)
    }

    /** Validate: nil (true) exactly for the accepted settings, after the default endpoint is filled in. */
    method Validate(h: Host) returns (ok: bool)
      modifies this`httpListen
      ensures State() == Effective(old(State()))
      ensures ok <==> Accepts(h, State())
    {
      if httpListen == "" {
        httpListen := DEFAULT_HTTP;
      }
      if !LoopbackAddress(h, httpListen) {
        return false;
      }
      if httpsListen != "" && !LoopbackAddress(h, httpsListen) {
        return false;
      }
      if (tlsCert == "") != (tlsKey == "") {
        return false;
      }
      if |listeners| == 0 {
        return false;
      }
      var addresses := {httpListen};
      if httpsListen != "" {
        if Port(h, httpsListen) != "0" && httpsListen in addresses {
          return false;
        }
        addresses := addresses + {httpsListen};
      }
      var names;
      ok, names := CheckListeners(h, State(), addresses);
      if ok {
        ok := CheckPrincipals(h, listeners, principals, names);
      }
    }
  }

  ghost predicate NamesOf(ls: seq<Listener>, names: set<string>) {
    forall n :: n in names <==> Named(ls, n)
  }

  ghost predicate TakenNames(ls: seq<Listener>, i: nat, names: set<string>)
    requires i <= |ls|
  {
    forall n :: n in names <==> exists j :: 0 <= j < i && ls[j].name == n
  }

  ghost predicate TakenAddresses(ls: seq<Listener>, i: nat, start: set<string>, addresses: set<string>)
    requires i <= |ls|
  {
    forall a :: a in addresses <==> a in start || exists j :: 0 <= j < i && ls[j].listen == a
  }

  ghost predicate ApartFromAll(h: Host, ls: seq<Listener>, i: nat)
    requires i < |ls|
  {
    forall j :: 0 <= j < i ==> Apart(h, ls[j], ls[i])
  }

  /** The endpoints that are in the address set before any listener is. */
  predicate Endpoints(s: Settings, start: set<string>) {
    start == {s.httpListen} + if s.httpsListen == "" then {} else {s.httpsListen}
  }

  /** The two set lookups tell whether a listener is apart from the earlier ones and the endpoints. */
  lemma LookupsDecide(h: Host, s: Settings, i: nat, start: set<string>, names: set<string>, addresses: set<string>)
    requires i < |s.listeners| && Endpoints(s, start)
    requires TakenNames(s.listeners, i, names) && TakenAddresses(s.listeners, i, start, addresses)
    ensures var l := s.listeners[i];
            (l.name in names || (Port(h, l.listen) != "0" && l.listen in addresses)) <==>
              !(OffEndpoints(h, s, l) && ApartFromAll(h, s.listeners, i))
  {
    hide Port;
  }

  /** The first loop over c.Listeners. */
  method CheckListeners(h: Host, s: Settings, start: set<string>) returns (ok: bool, names: set<string>)
    requires Endpoints(s, start)
    ensures ok <==> ListenersOk(h, s)
    ensures ok ==> NamesOf(s.listeners, names)
  {
    hide LoopbackAddress, Port, OffEndpoints, Apart;
    var ls := s.listeners;
    var addresses := start;
    names := {};
    for i := 0 to |ls|
      invariant TakenNames(ls, i, names) && TakenAddresses(ls, i, start, addresses)
      invariant forall j :: 0 <= j < i ==> ListenerOk(h, ls[j]) && OffEndpoints(h, s, ls[j])
      invariant forall j, k :: 0 <= j < k < i ==> Apart(h, ls[j], ls[k])
    {
      var l := ls[i];
      LookupsDecide(h, s, i, start, names, addresses);
      if l.name == "" || l.listen == "" || l.upstream == "" || l.inst == "" {
        return false, names;
      }
      if l.provider != "aws" && l.provider != "google" && l.provider != "azure" {
        return false, names;
      }
      if l.engine != "postgres" && l.engine != "mysql" {
        return false, names;
      }
      if h.splitHostPort(l.listen) == None {
        return false, names;
      }
      var port := Port(h, l.listen);
      if l.name in names || (port != "0" && l.listen in addresses) {
        return false, names;
      }
      if l.provider == "aws" && (l.hostname == "" || l.region == "" || l.resourceID == "") {
        return false, names;
      }
      if l.provider == "azure" && l.tenant == "" {
        return false, names;
      }
      if l.upstreamTLS != "" && l.upstreamTLS != "disable" && l.upstreamTLS != "require"
         && l.upstreamTLS != "verify-full" {
        return false, names;
      }
      if !LoopbackAddress(h, l.listen) {
        return false, names;
      }
      names, addresses := names + {l.name}, addresses + {l.listen};
    }
    return true, names;
  }

  // ---- the three maps from keys to principal ids

  datatype Tables = Tables(
    backendUsers: map<string, string>,
    googleNames: map<string, string>,
    azureNames: map<string, string>)
  {
    function Of(k: Kind): map<string, string> {
      match k
      case BackendUser => backendUsers
      case GoogleName => googleNames
      case AzureEmail => azureNames
    }
  }

  ghost function ClaimsOf(h: Host, ls: seq<Listener>, k: Kind, p: Principal, gs: seq<string>): set<(string, string)> {
    set g | g in gs && Named(ls, g) && Applies(k, ByName(ls, g)) :: Claim(h, ls, k, p, g)
  }

  ghost function Claims(h: Host, ls: seq<Listener>, k: Kind, ps: seq<Principal>): set<(string, string)> {
    if ps == [] then {}
    else Claims(h, ls, k, ps[..|ps| - 1]) + ClaimsOf(h, ls, k, ps[|ps| - 1], ps[|ps| - 1].grants)
  }

  ghost predicate Functional(cs: set<(string, string)>) {
    forall c, d :: c in cs && d in cs && c.0 == d.0 ==> c.1 == d.1
  }

  ghost predicate Recorded(m: map<string, string>, cs: set<(string, string)>) {
    && (forall key :: key in m ==> (key, m[key]) in cs)
    && (forall c :: c in cs ==> c.0 in m && m[c.0] == c.1 && c.1 != "")
  }

  /** One conflict test and the store that follows it. */
  method Record(m: map<string, string>, key: string, id: string, ghost cs: set<(string, string)>)
    returns (ok: bool, m': map<string, string>)
    requires Recorded(m, cs) && id != ""
    ensures ok <==> Functional(cs + {(key, id)})
    ensures ok ==> Recorded(m', cs + {(key, id)})
  {
    if key in m && m[key] != "" && m[key] != id {
      assert (key, m[key]) in cs + {(key, id)} && (key, id) in cs + {(key, id)};
      return false, m;
    }
    return true, m[key := id];
  }

  lemma ClaimsSnoc(h: Host, ls: seq<Listener>, k: Kind, p: Principal, gs: seq<string>, i: nat)
    requires i < |gs| && Named(ls, gs[i])
    ensures ClaimsOf(h, ls, k, p, gs[..i + 1]) ==
              ClaimsOf(h, ls, k, p, gs[..i]) +
              if Applies(k, ByName(ls, gs[i])) then {Claim(h, ls, k, p, gs[i])} else {}
  {
    assert gs[..i + 1] == gs[..i] + [gs[i]];
  }

  lemma ClaimsGrow(h: Host, ls: seq<Listener>, k: Kind, p: Principal, gs: seq<string>, i: nat)
    requires i <= |gs|
    ensures ClaimsOf(h, ls, k, p, gs[..i]) <= ClaimsOf(h, ls, k, p, gs)
  {
  }

  /** Records one kind of name for one grant, if that kind applies. */
  method RecordKind(h: Host, ls: seq<Listener>, k: Kind, p: Principal, g: string,
                    m: map<string, string>, ghost cs: set<(string, string)>)
    returns (ok: bool, m': map<string, string>)
    requires Named(ls, g) && p.id != "" && Recorded(m, cs)
    ensures var cs' := cs + if Applies(k, ByName(ls, g)) then {Claim(h, ls, k, p, g)} else {};
            (ok <==> Functional(cs')) && (ok ==> Recorded(m', cs'))
  {
    if Applies(k, ByName(ls, g)) {
      ok, m' := Record(m, g + NUL + NameOf(h, k, ByName(ls, g), p), p.id, cs);
    } else {
      assert cs + {} == cs;
      ok, m' := true, m;
    }
  }

  /** What has been recorded when i grants of p are done, and all of `before`. */
  ghost function ClaimSet(h: Host, ls: seq<Listener>, k: Kind, before: seq<Principal>, p: Principal, i: nat)
    : set<(string, string)>
    requires i <= |p.grants|
  {
    Claims(h, ls, k, before) + ClaimsOf(h, ls, k, p, p.grants[..i])
  }

  ghost predicate AllRecorded(h: Host, ls: seq<Listener>, t: Tables, before: seq<Principal>, p: Principal, i: nat)
    requires i <= |p.grants|
  {
    forall k :: Recorded(t.Of(k), ClaimSet(h, ls, k, before, p, i))
  }

  lemma ClaimSetStep(h: Host, ls: seq<Listener>, k: Kind, before: seq<Principal>, p: Principal, i: nat)
    requires i < |p.grants| && Named(ls, p.grants[i])
    ensures ClaimSet(h, ls, k, before, p, i + 1) ==
              ClaimSet(h, ls, k, before, p, i) +
              if Applies(k, ByName(ls, p.grants[i])) then {Claim(h, ls, k, p, p.grants[i])} else {}
    ensures !Functional(ClaimSet(h, ls, k, before, p, i + 1)) ==> !Functional(ClaimSet(h, ls, k, before, p, |p.grants|))
  {
    ClaimsSnoc(h, ls, k, p, p.grants, i);
    ClaimsGrow(h, ls, k, p, p.grants, i + 1);
    assert p.grants[..|p.grants|] == p.grants;
  }

  /** Some kind of name is claimed for two principals. */
  ghost predicate Conflict(h: Host, ls: seq<Listener>, before: seq<Principal>, p: Principal) {
    exists k :: !Functional(ClaimSet(h, ls, k, before, p, |p.grants|))
  }

  /** The loop over one principal's grants. */
  method CheckGrants(h: Host, ls: seq<Listener>, p: Principal, names: set<string>, t: Tables,
                     ghost before: seq<Principal>)
    returns (ok: bool, t': Tables)
    requires NamesOf(ls, names) && p.id != ""
    requires AllRecorded(h, ls, t, before, p, 0)
    ensures ok ==> (forall g :: g in p.grants ==> GrantOk(ls, p, g))
    ensures ok ==> AllRecorded(h, ls, t', before, p, |p.grants|)
    ensures !ok ==> (exists g :: g in p.grants && !GrantOk(ls, p, g)) || Conflict(h, ls, before, p)
  {
    t' := t;
    for i := 0 to |p.grants|
      invariant forall g :: g in p.grants[..i] ==> GrantOk(ls, p, g)
      invariant AllRecorded(h, ls, t', before, p, i)
    {
      var g := p.grants[i];
      if g !in names {
        assert !GrantOk(ls, p, g);
        return false, t';
      }
      ok, t' := CheckGrant(h, ls, p, i, t', before);
      if !ok {
        return false, t';
      }
      assert p.grants[..i + 1] == p.grants[..i] + [g];
    }
    assert p.grants[..|p.grants|] == p.grants;
    return true, t';
  }

  method CheckGrant(h: Host, ls: seq<Listener>, p: Principal, i: nat, t: Tables, ghost before: seq<Principal>)
    returns (ok: bool, t': Tables)
    requires i < |p.grants| && Named(ls, p.grants[i]) && p.id != ""
    requires AllRecorded(h, ls, t, before, p, i)
    ensures ok ==> GrantOk(ls, p, p.grants[i]) && AllRecorded(h, ls, t', before, p, i + 1)
    ensures !ok ==> !GrantOk(ls, p, p.grants[i]) || Conflict(h, ls, before, p)
  {
    var g := p.grants[i];
    var l := ByName(ls, g);
    t' := t;
    ClaimSetStep(h, ls, BackendUser, before, p, i);
    ClaimSetStep(h, ls, GoogleName, before, p, i);
    ClaimSetStep(h, ls, AzureEmail, before, p, i);
    assert Recorded(t.Of(BackendUser), ClaimSet(h, ls, BackendUser, before, p, i));
    assert Recorded(t.Of(GoogleName), ClaimSet(h, ls, GoogleName, before, p, i));
    assert Recorded(t.Of(AzureEmail), ClaimSet(h, ls, AzureEmail, before, p, i));
    var users, googles, azures;
    ok, users := RecordKind(h, ls, BackendUser, p, g, t.backendUsers, ClaimSet(h, ls, BackendUser, before, p, i));
    if !ok {
      return;
    }
    if l.provider == "google" && p.email == "" {
      return false, t';
    }
    ok, googles := RecordKind(h, ls, GoogleName, p, g, t.googleNames, ClaimSet(h, ls, GoogleName, before, p, i));
    if !ok {
      return;
    }
    if l.provider == "azure" && p.email == "" {
      return false, t';
    }
    ok, azures := RecordKind(h, ls, AzureEmail, p, g, t.azureNames, ClaimSet(h, ls, AzureEmail, before, p, i));
    if !ok {
      return;
    }
    t' := Tables(users, googles, azures);
    forall k: Kind ensures Recorded(t'.Of(k), ClaimSet(h, ls, k, before, p, i + 1)) {
      match k case BackendUser => case GoogleName => case AzureEmail =>
    }
  }

  /** Recording starts where the previous principal left off. */
  lemma NextPrincipal(h: Host, ls: seq<Listener>, ps: seq<Principal>, i: nat)
    requires i < |ps|
    ensures forall k :: ClaimSet(h, ls, k, ps[..i], ps[i], 0) == Claims(h, ls, k, ps[..i])
    ensures forall k :: ClaimSet(h, ls, k, ps[..i], ps[i], |ps[i].grants|) == Claims(h, ls, k, ps[..i + 1])
    ensures Conflict(h, ls, ps[..i], ps[i]) ==> exists k :: !Functional(Claims(h, ls, k, ps))
  {
    assert ps[..i + 1][..i] == ps[..i];
    assert ps[i].grants[..|ps[i].grants|] == ps[i].grants;
    if Conflict(h, ls, ps[..i], ps[i]) {
      var k :| !Functional(ClaimSet(h, ls, k, ps[..i], ps[i], |ps[i].grants|));
      ClaimsPrefix(h, ls, k, ps, i + 1);
      NotFunctional(Claims(h, ls, k, ps[..i + 1]), Claims(h, ls, k, ps));
    }
  }

  lemma NotFunctional(cs: set<(string, string)>, ds: set<(string, string)>)
    requires cs <= ds && !Functional(cs)
    ensures !Functional(ds)
  {
  }

  lemma {:induction false} ClaimsPrefix(h: Host, ls: seq<Listener>, k: Kind, ps: seq<Principal>, i: nat)
    requires i <= |ps|
    ensures Claims(h, ls, k, ps[..i]) <= Claims(h, ls, k, ps)
    decreases |ps| - i
  {
    if i < |ps| {
      ClaimsPrefix(h, ls, k, ps, i + 1);
      assert ps[..i + 1][..i] == ps[..i];
    } else {
      assert ps[..i] == ps;
    }
  }

  ghost predicate TakenIds(ps: seq<Principal>, i: nat, ids: set<string>)
    requires i <= |ps|
  {
    forall x :: x in ids <==> exists j :: 0 <= j < i && ps[j].id == x
  }

  ghost predicate TakenKeys(ps: seq<Principal>, i: nat, keys: set<string>)
    requires i <= |ps|
  {
    forall x :: x in keys <==> x != "" && exists j :: 0 <= j < i && ps[j].awsAccessKey == x
  }

  ghost predicate UnlikeAll(ps: seq<Principal>, i: nat)
    requires i < |ps|
  {
    forall j :: 0 <= j < i ==> Unlike(ps[j], ps[i])
  }

  lemma PrincipalLookupsDecide(ps: seq<Principal>, i: nat, ids: set<string>, keys: set<string>)
    requires i < |ps| && TakenIds(ps, i, ids) && TakenKeys(ps, i, keys)
    ensures (ps[i].id in ids || ps[i].awsAccessKey in keys) <==> !UnlikeAll(ps, i)
  {
  }

  lemma RecordedIsFunctional(m: map<string, string>, cs: set<(string, string)>)
    requires Recorded(m, cs)
    ensures Functional(cs)
  {
  }

  lemma NothingRecorded(h: Host, ls: seq<Listener>)
    ensures forall k :: Recorded(Tables(map[], map[], map[]).Of(k), Claims(h, ls, k, []))
  {
  }

  /** The loop over c.Principals. */
  method CheckPrincipals(h: Host, ls: seq<Listener>, ps: seq<Principal>, names: set<string>) returns (ok: bool)
    requires NamesOf(ls, names)
    ensures ok <==> PrincipalsOk(h, ls, ps) && forall k :: NoSharedKey(h, ls, ps, k)
  {
    hide Recorded, Claims, ClaimSet, NoSharedKey, Functional, GrantOk, Unlike;
    var ids, keys := {}, {};
    NothingRecorded(h, ls);
    var t := Tables(map[], map[], map[]);
    for i := 0 to |ps|
      invariant TakenIds(ps, i, ids) && TakenKeys(ps, i, keys)
      invariant forall j :: 0 <= j < i ==> PrincipalOk(ls, ps[j])
      invariant forall j, m :: 0 <= j < m < i ==> Unlike(ps[j], ps[m])
      invariant forall k :: Recorded(t.Of(k), Claims(h, ls, k, ps[..i]))
    {
      var p := ps[i];
      assert p in ps;
      PrincipalLookupsDecide(ps, i, ids, keys);
      if p.id == "" || p.backendUser == "" || p.backendPassword == "" {
        return false;
      }
      if p.id in ids {
        return false;
      }
      if p.awsAccessKey != "" {
        if p.awsSecretKey == "" || p.awsAccessKey in keys {
          return false;
        }
      }
      if p.ecsAuthorizationToken != "" && p.awsAccessKey == "" {
        return false;
      }
      ids := ids + {p.id};
      keys := if p.awsAccessKey != "" then keys + {p.awsAccessKey} else keys;
      NextPrincipal(h, ls, ps, i);
      ok, t := CheckGrants(h, ls, p, names, t, ps[..i]);
      if !ok {
        SharedKeyIff(h, ls, ps);
        return;
      }
    }
    assert ps[..|ps|] == ps;
    forall k: Kind ensures Functional(Claims(h, ls, k, ps)) {
      RecordedIsFunctional(t.Of(k), Claims(h, ls, k, ps));
    }
    SharedKeyIff(h, ls, ps);
    return true;
  }

  lemma {:induction false} InClaims(h: Host, ls: seq<Listener>, k: Kind, ps: seq<Principal>, c: (string, string))
    ensures c in Claims(h, ls, k, ps) <==> exists p, g :: p in ps && Goes(ls, k, p, g) && Claim(h, ls, k, p, g) == c
  {
    if ps != [] {
      var (rest, last) := (ps[..|ps| - 1], ps[|ps| - 1]);
      InClaims(h, ls, k, rest, c);
      assert forall p :: p in ps <==> p in rest || p == last;
      if c in ClaimsOf(h, ls, k, last, last.grants) {
        var g :| g in last.grants && Named(ls, g) && Applies(k, ByName(ls, g)) && Claim(h, ls, k, last, g) == c;
        assert Goes(ls, k, last, g);
      }
    }
  }

  /** The maps work out to the statement about pairs of principals. */
  lemma SharedKeyIff(h: Host, ls: seq<Listener>, ps: seq<Principal>)
    ensures forall k :: Functional(Claims(h, ls, k, ps)) <==> NoSharedKey(h, ls, ps, k)
  {
    forall k: Kind
      ensures Functional(Claims(h, ls, k, ps)) <==> NoSharedKey(h, ls, ps, k)
    {
      forall c: (string, string)
        ensures c in Claims(h, ls, k, ps) <==> exists p, g :: p in ps && Goes(ls, k, p, g) && Claim(h, ls, k, p, g) == c
      {
        InClaims(h, ls, k, ps, c);
      }
    }
  }
}
