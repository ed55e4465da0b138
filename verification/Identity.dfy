/** Logging in (iamproxy/identity.go): the token table, the provider checks and service.Validate. */
module Identity {
  import opened Common
  import opened Config
  import AwsCanonical
  import ConfigVerdict
  import AwsToken

  const SQL_SCOPE: string := "https://www.googleapis.com/auth/sqlservice.login"
  const CLOUD_SCOPE: string := "https://www.googleapis.com/auth/cloud-platform"
  const AZURE_AUDIENCE: string := "https://ossrdbms-aad.database.windows.net"

  datatype GoogleToken = GoogleToken(principal: string, scope: string, expiry: int)

  /** The claims of a JWT whose encoding, header and RS256 signature have been checked. */
  datatype Claims = Claims(
    iss: string, aud: string, tenant: string, id: string, upn: string, nbf: int, exp: int, groups: seq<string>)

  predicate Contains(s: string, t: string) {
    |t| <= |s| && (s[..|t|] == t || (s != "" && Contains(s[1..], t)))
  }

  /** Whether one of the space-separated scopes is t. */
  predicate HasScope(scope: string, t: string) {
    Contains(" " + scope + " ", " " + t + " ")
  }

  ghost predicate Within(t: string, s: string) {
    exists a, b :: s == a + t + b
  }

  lemma {:induction false} ContainsGives(s: string, t: string)
    requires Contains(s, t)
    ensures Within(t, s)
  {
    hide Within;
    if s[..|t|] == t {
      IsWithin("", t, s[|t|..]);
      assert s == "" + t + s[|t|..];
    } else {
      ContainsGives(s[1..], t);
      var a, b := Around(s[1..], t);
      IsWithin([s[0]] + a, t, b);
      assert s == [s[0]] + s[1..];
      Prepend(s[0], a, t, b);
    }
  }

  lemma Prepend(c: char, a: string, t: string, b: string)
    ensures [c] + (a + t + b) == ([c] + a) + t + b
  {
  }

  lemma {:induction false} WithinContains(a: string, t: string, b: string)
    ensures Contains(a + t + b, t)
  {
    var s := a + t + b;
    if a == "" {
      assert s[..|t|] == t;
    } else {
      WithinContains(a[1..], t, b);
      assert s[1..] == a[1..] + t + b;
    }
  }

  lemma ContainsIs(s: string, t: string)
    ensures Contains(s, t) <==> Within(t, s)
  {
    hide Contains, Within;
    if Contains(s, t) {
      ContainsGives(s, t);
    }
    if Within(t, s) {
      var a, b := Around(s, t);
      WithinContains(a, t, b);
    }
  }

  lemma Around(s: string, t: string) returns (a: string, b: string)
    requires Within(t, s)
    ensures s == a + t + b
  {
    a, b :| s == a + t + b;
  }

  /** One of the words between the spaces of s is t. */
  ghost predicate IsWordOf(t: string, s: string) {
    exists a, b :: WordBetween(a, t, b, s)
  }

  predicate WordBetween(a: string, t: string, b: string, s: string) {
    s == a + t + b && (a == "" || a[|a| - 1] == ' ') && (b == "" || b[0] == ' ')
  }

  lemma HasScopeIs(scope: string, t: string)
    ensures HasScope(scope, t) <==> IsWordOf(t, scope)
  {
    hide Contains, IsWordOf, Within;
    var (s, w) := (" " + scope + " ", " " + t + " ");
    ContainsIs(s, w);
    if Within(w, s) {
      Unpad(scope, t);
    }
    if IsWordOf(t, scope) {
      Pad(scope, t);
    }
  }

  lemma Unpad(scope: string, t: string)
    requires Within(" " + t + " ", " " + scope + " ")
    ensures IsWordOf(t, scope)
  {
    hide IsWordOf, Within;
    var s := " " + scope + " ";
    var a, b := Around(s, " " + t + " ");
    At(a, " " + t + " ", b);
    var (i, j) := (|a|, |a| + |t|);
    assert s[i..j + 2] == " " + t + " ";
    assert s[i] == (" " + t + " ")[0] && s[j + 1] == (" " + t + " ")[|t| + 1];
    assert s[i + 1..j + 1] == (" " + t + " ")[1..|t| + 1] == t;
    WordAt(scope, t, i);
  }

  lemma At(a: string, m: string, b: string)
    ensures (a + m + b)[|a|..|a| + |m|] == m
  {
  }

  lemma WordAt(scope: string, t: string, i: nat)
    requires var s := " " + scope + " ";
             i + |t| + 2 <= |s| && s[i] == ' ' && s[i + |t| + 1] == ' ' && s[i + 1..i + |t| + 1] == t
    ensures IsWordOf(t, scope)
  {
    hide IsWordOf;
    var s := " " + scope + " ";
    var j := i + |t|;
    assert scope[i..j] == s[i + 1..j + 1];
    var (a, b) := (scope[..i], scope[j..]);
    assert scope == a + t + b;
    assert a != "" ==> a[|a| - 1] == s[i];
    assert b != "" ==> b[0] == s[j + 1];
    WordIs(a, t, b);
  }

  lemma WordIs(a: string, t: string, b: string)
    requires (a == "" || a[|a| - 1] == ' ') && (b == "" || b[0] == ' ')
    ensures IsWordOf(t, a + t + b)
  {
    assert WordBetween(a, t, b, a + t + b);
  }

  lemma IsWithin(a: string, t: string, b: string)
    ensures Within(t, a + t + b)
  {
  }

  lemma Pad(scope: string, t: string)
    requires IsWordOf(t, scope)
    ensures Within(" " + t + " ", " " + scope + " ")
  {
    var a, b :| WordBetween(a, t, b, scope);
    PadParts(a, t, b);
  }

  lemma PadParts(a: string, t: string, b: string)
    requires (a == "" || a[|a| - 1] == ' ') && (b == "" || b[0] == ' ')
    ensures Within(" " + t + " ", " " + (a + t + b) + " ")
  {
    hide Within;
    var a' := if a == "" then "" else " " + a[..|a| - 1];
    var b' := if b == "" then "" else b[1..] + " ";
    assert " " + a == a' + " " && b + " " == " " + b';
    Regroup(" ", a, t, b, " ");
    Regroup(a', " ", t, " ", b');
    assert " " + (a + t + b) + " " == a' + (" " + t + " ") + b';
    IsWithin(a', " " + t + " ", b');
  }

  lemma Regroup(v: string, w: string, x: string, y: string, z: string)
    ensures v + (w + x + y) + z == (v + w) + x + (y + z)
  {
  }

  /** All slashes at the end are gone, and nothing else. */
  lemma {:induction false} TrimRightSlashIs(s: string)
    ensures var r := TrimRightSlash(s);
            && r <= s && (forall i :: |r| <= i < |s| ==> s[i] == '/')
            && (r == "" || r[|r| - 1] != '/')
  {
    if s != "" && s[|s| - 1] == '/' {
      TrimRightSlashIs(s[..|s| - 1]);
    }
  }

  function TrimRightSlash(s: string): string {
    if s != "" && s[|s| - 1] == '/' then TrimRightSlash(s[..|s| - 1]) else s
  }

  /** The first principal with an id. */
  function ById(ps: seq<Principal>, id: string): (r: Option<Principal>)
    ensures r.Some? ==> r.value in ps && r.value.id == id
    ensures r == None <==> forall p :: p in ps ==> p.id != id
  {
    if ps == [] then None else if ps[0].id == id then Some(ps[0]) else ById(ps[1..], id)
  }

  lemma {:induction false} ByIdIsFirst(ps: seq<Principal>, i: nat)
    requires i < |ps| && forall j :: 0 <= j < i ==> ps[j].id != ps[i].id
    ensures ById(ps, ps[i].id) == Some(ps[i])
  {
    if i > 0 {
      assert ps[0].id != ps[i].id;
      ByIdIsFirst(ps[1..], i - 1);
    }
  }

  /** What Start keeps of an accepted configuration although it rewrites the listen addresses. */
  ghost predicate Unambiguous(h: Host, ls: seq<Listener>, ps: seq<Principal>) {
    && (forall i, j :: 0 <= i < j < |ls| ==> ls[i].name != ls[j].name)
    && PrincipalsOk(h, ls, ps)
    && (forall k :: Unshared(h, ls, ps, k))
  }

  // ---- the acceptance conditions

  ghost predicate GoogleAccepts(h: Host, l: Listener, scope: string, p: Principal, username: string) {
    && (IsWordOf(SQL_SCOPE, scope) || IsWordOf(CLOUD_SCOPE, scope))
    && p.email != "" && GoesBy(h.lower(p.email), l.engine, username)
  }

  predicate AzureAccepts(publicURL: string, l: Listener, c: Claims, p: Principal, username: string, now: int) {
    && c.iss == TrimRightSlash(publicURL) + "/" + l.tenant + "/v2.0"
    && c.aud == AZURE_AUDIENCE && c.tenant == l.tenant && c.nbf <= now < c.exp
    && p.id == c.id && p.email == c.upn
    && (username == p.email || (username in p.groups && username in c.groups))
  }

  /** The claims of a token that azureIssueForAudience makes for a principal. */
  function IssuedClaims(publicURL: string, p: Principal, tenant: string, audience: string, at: int, life: int): Claims {
    Claims(TrimRightSlash(publicURL) + "/" + tenant + "/v2.0", audience, tenant, p.id, p.email, at, at + life, p.groups)
  }

  /** An issued token lets its principal in exactly on a listener of its tenant, for the database audience,
      within its life, and under the principal's email or one of its groups. */
  lemma IssuedIsAcceptedIff(publicURL: string, l: Listener, p: Principal, tenant: string, audience: string,
                            at: int, life: int, username: string, now: int)
    ensures AzureAccepts(publicURL, l, IssuedClaims(publicURL, p, tenant, audience, at, life), p, username, now) <==>
              && tenant == l.tenant && audience == "https://ossrdbms-aad.database.windows.net"
              && at <= now < at + life && (username == p.email || username in p.groups)
  {
  }

  /** One issue of a Google token, and one successful login. */
  datatype Issue = Issue(token: string, principal: string, scope: string, at: int)
  datatype Login = Login(listener: Listener, username: string, principal: Principal)

  /** The token is the newest issue of its name and is less than an hour old. */
  ghost predicate LiveIssue(issues: seq<Issue>, i: nat, token: string, now: int) {
    && i < |issues| && issues[i].token == token && now < issues[i].at + 3600
    && forall j :: i < j < |issues| ==> issues[j].token != token
  }

  ghost predicate NewestIssue(issues: seq<Issue>, i: nat, t: string, g: GoogleToken) {
    && i < |issues| && issues[i].token == t
    && g == GoogleToken(issues[i].principal, issues[i].scope, issues[i].at + 3600)
    && forall j :: i < j < |issues| ==> issues[j].token != t
  }

  ghost predicate TableHolds(issues: seq<Issue>, tokens: map<string, GoogleToken>) {
    && (forall t :: t in tokens ==> exists i: nat :: NewestIssue(issues, i, t, tokens[t]))
    && (forall i :: 0 <= i < |issues| ==> issues[i].token in tokens)
  }

  /** The table and the history agree on which issue of a token counts now. */
  lemma TableIsHistory(issues: seq<Issue>, tokens: map<string, GoogleToken>, token: string, now: int) returns (i: int)
    requires TableHolds(issues, tokens)
    ensures i >= 0 <==> token in tokens && now < tokens[token].expiry
    ensures i >= 0 ==>
              && LiveIssue(issues, i, token, now)
              && issues[i].principal == tokens[token].principal && issues[i].scope == tokens[token].scope
    ensures forall j: nat :: LiveIssue(issues, j, token, now) ==> j == i
  {
    i := -1;
    if token in tokens {
      var m: nat :| NewestIssue(issues, m, token, tokens[token]);
      assert forall j: nat :: j < |issues| && issues[j].token == token ==> j <= m;
      if now < tokens[token].expiry { i := m; }
    }
  }

  predicate Granted(l: Listener, p: Principal) {
    l.name in p.grants
  }

  /** What is left of a provider's verdict once the grant is asked for. */
  function IfGranted(l: Listener, r: Option<Principal>): Option<Principal> {
    if r.Some? && Granted(l, r.value) then r else None
  }

  /** What every logged login satisfies: the principal is configured and granted the listener, and on a
      Google listener goes by the username. */
  ghost predicate Sound(h: Host, ls: seq<Listener>, ps: seq<Principal>, e: Login) {
    && e.listener in ls && e.principal in ps && Granted(e.listener, e.principal)
    && (e.listener.provider == "google" ==> GoesBy(h.lower(e.principal.email), e.listener.engine, e.username))
  }

  class Service {
    const h: Host
    const f: AwsToken.Foreign
    const decodeJWT: string -> Option<Claims>
    const publicURL: string
    const listeners: seq<Listener>
    const principals: seq<Principal>
    var googleTokens: map<string, GoogleToken>
    ghost var issues: seq<Issue>
    ghost var logins: seq<Login>

    /** The table holds, for each token, its newest issue; and every login so far was sound. */
    ghost predicate Valid()
      reads this
    {
      && Unambiguous(h, listeners, principals)
      && TableHolds(issues, googleTokens)
      && (forall e :: e in logins ==> Sound(h, listeners, principals, e))
    }

    constructor (h: Host, f: AwsToken.Foreign, decodeJWT: string -> Option<Claims>, publicURL: string,
                 listeners: seq<Listener>, principals: seq<Principal>)
      requires Unambiguous(h, listeners, principals)
      ensures Valid() && issues == [] && logins == []
      ensures this.h == h && this.listeners == listeners && this.principals == principals
    {
      this.h, this.f, this.decodeJWT, this.publicURL := h, f, decodeJWT, publicURL;
      this.listeners, this.principals := listeners, principals;
      googleTokens, issues, logins := map[], [], [];
    }

    method Principal(id: string) returns (r: Option<Principal>)
      ensures r == ById(principals, id)
    {
      for i := 0 to |principals|
        invariant ById(principals, id) == ById(principals[i..], id)
      {
        if principals[i].id == id {
          return Some(principals[i]);
        }
      }
      return None;
    }

    /** googleIssue; `random` is the text of the fresh random bytes. */
    method GoogleIssue(p: Principal, scope: string, random: string, now: int) returns (token: string, life: int)
      requires Valid()
      modifies this`googleTokens, this`issues
      ensures Valid() && token == "ya29.mock." + random && life == 3600
      ensures googleTokens == old(googleTokens)[token := GoogleToken(p.id, scope, now + 3600)]
      ensures issues == old(issues) + [Issue(token, p.id, scope, now)]
    {
      token := "ya29.mock." + random;
      googleTokens := googleTokens[token := GoogleToken(p.id, scope, now + 3600)];
      life := 3600;
      issues := issues + [Issue(token, p.id, scope, now)];
      assert NewestIssue(issues, |issues| - 1, token, googleTokens[token]);
      forall t | t in googleTokens && t != token
        ensures exists i: nat :: NewestIssue(issues, i, t, googleTokens[t])
      {
        assert t in old(googleTokens);
        var i: nat :| NewestIssue(old(issues), i, t, googleTokens[t]);
        assert NewestIssue(issues, i, t, googleTokens[t]);
      }
    }

    /** The verdict on a Google token, from the history of issues alone. */
    ghost predicate GoogleVerdict(l: Listener, username: string, password: string, now: int, r: Option<Principal>)
      reads this`issues
    {
      && (r.Some? ==> exists i: nat ::
            && LiveIssue(issues, i, password, now) && r == ById(principals, issues[i].principal)
            && GoogleAccepts(h, l, issues[i].scope, r.value, username))
      && (r == None ==> forall i: nat :: LiveIssue(issues, i, password, now) ==>
            var p := ById(principals, issues[i].principal);
            p == None || !GoogleAccepts(h, l, issues[i].scope, p.value, username))
    }

    /** validateGoogle looks only at the table, and decides what the history says. */
    method ValidateGoogle(l: Listener, username: string, password: string, now: int) returns (r: Option<Principal>)
      requires Valid()
      ensures GoogleVerdict(l, username, password, now, r)
    {
      ghost var i := TableIsHistory(issues, googleTokens, password, now);
      if password !in googleTokens || !(now < googleTokens[password].expiry) {
        return None;
      }
      var t := googleTokens[password];
      HasScopeIs(t.scope, SQL_SCOPE);
      HasScopeIs(t.scope, CLOUD_SCOPE);
      if !HasScope(t.scope, SQL_SCOPE) && !HasScope(t.scope, CLOUD_SCOPE) {
        return None;
      }
      r := Principal(t.principal);
      if r.Some? {
        GoogleUsernameIs(h, r.value.email, l.engine, username);
      }
      if r == None || r.value.email == "" || username != GoogleUsername(h, r.value.email, l.engine) {
        return None;
      }
    }

    function AzureVerdict(l: Listener, username: string, token: string, now: int): Option<Principal>
    {
      match decodeJWT(token)
      case None => None
      case Some(c) =>
        var p := ById(principals, c.id);
        if p.Some? && AzureAccepts(publicURL, l, c, p.value, username, now) then p else None
    }

    method ValidateAzure(l: Listener, username: string, token: string, now: int) returns (r: Option<Principal>)
      ensures r == AzureVerdict(l, username, token, now)
    {
      if decodeJWT(token) == None {
        return None;
      }
      var c := decodeJWT(token).value;
      var issuer := TrimRightSlash(publicURL) + "/" + l.tenant + "/v2.0";
      if c.iss != issuer || c.aud != AZURE_AUDIENCE || c.tenant != l.tenant || now < c.nbf || now >= c.exp {
        return None;
      }
      r := Principal(c.id);
      if r == None || c.upn != r.value.email {
        return None;
      }
      if username == r.value.email {
        return;
      }
      for i := 0 to |r.value.groups|
        invariant username !in r.value.groups[..i] || username !in c.groups
      {
        var g := r.value.groups[i];
        if g == username {
          for j := 0 to |c.groups|
            invariant g !in c.groups[..j]
          {
            if c.groups[j] == g {
              return;
            }
            assert c.groups[..j + 1] == c.groups[..j] + [c.groups[j]];
          }
          assert c.groups[..|c.groups|] == c.groups;
        }
        assert r.value.groups[..i + 1] == r.value.groups[..i] + [g];
      }
      assert r.value.groups[..|r.value.groups|] == r.value.groups;
      return None;
    }

    /** service.Validate: the provider's verdict, then the grant. */
    method Validate(l: Listener, username: string, password: string, now: int) returns (r: Option<Principal>)
      requires Valid() && l in listeners
      modifies this`logins
      ensures Valid()
      ensures r.Some? ==> r.value in principals && Granted(l, r.value)
      ensures logins == old(logins) + if r.Some? then [Login(l, username, r.value)] else []
      ensures l.provider !in {"aws", "google", "azure"} ==> r == None
      ensures l.provider == "aws" ==> AwsVerdict(l, username, password, now, r)
      ensures l.provider == "google" ==>
                exists v :: GoogleVerdict(l, username, password, now, v) && r == IfGranted(l, v)
      ensures l.provider == "azure" ==> r == IfGranted(l, AzureVerdict(l, username, password, now))
    {
      r := None;
      if l.provider == "aws" {
        r := AwsToken.ValidateAWS(f, h, l, principals, username, password, now);
      } else if l.provider == "google" {
        r := ValidateGoogle(l, username, password, now);
      } else if l.provider == "azure" {
        r := ValidateAzure(l, username, password, now);
      }
      ghost var v := r;
      assert l.provider == "google" ==> GoogleVerdict(l, username, password, now, v);
      if r == None || l.name !in r.value.grants {
        return None;
      }
      logins := logins + [Login(l, username, r.value)];
      assert l.provider == "google" ==> GoogleVerdict(l, username, password, now, v);
    }

    /** The verdict on an AWS token, for every way to list its query. */
    ghost predicate AwsVerdict(l: Listener, username: string, token: string, now: int, r: Option<Principal>)
    {
      match f.parse(token)
      case None => r == None
      case Some(u) => forall qs :: AwsCanonical.Lists(u.query - {AwsToken.SIGNATURE}, qs) ==>
        r == IfGranted(l, AwsToken.Verdict(f, h, l, principals, username, now, u, AwsCanonical.Canonical(qs)))
    }

    /** Over any run of issues and logins: two logins on one listener that reach the same backend user
        are the same principal; so are two with the same username on a Google listener, and two that
        name the same email on an Azure one. */
    lemma IdentityIsNeverShared(a: Login, b: Login)
      requires Valid() && a in logins && b in logins && a.listener == b.listener
      ensures a.principal.backendUser == b.principal.backendUser ==> a.principal == b.principal
      ensures a.listener.provider == "google" && a.username == b.username ==> a.principal == b.principal
      ensures a.listener.provider == "azure" && a.username == a.principal.email == b.principal.email == b.username ==>
                a.principal == b.principal
    {
      var l := a.listener;
      assert Sound(h, listeners, principals, a) && Sound(h, listeners, principals, b);
      ListenerByName(listeners, l);
      if a.principal.backendUser == b.principal.backendUser {
        NamesTellApart(h, listeners, principals, BackendUser, l, a.principal, b.principal);
      }
      if l.provider == "google" && a.username == b.username {
        GoogleUsernameIs(h, a.principal.email, l.engine, a.username);
        GoogleUsernameIs(h, b.principal.email, l.engine, b.username);
        NamesTellApart(h, listeners, principals, GoogleName, l, a.principal, b.principal);
      }
      if l.provider == "azure" && a.principal.email == b.principal.email {
        NamesTellApart(h, listeners, principals, AzureEmail, l, a.principal, b.principal);
      }
    }
  }

  lemma ListenerByName(ls: seq<Listener>, l: Listener)
    requires l in ls && forall i, j :: 0 <= i < j < |ls| ==> ls[i].name != ls[j].name
    ensures Named(ls, l.name) && ByName(ls, l.name) == l
  {
    var i :| 0 <= i < |ls| && ls[i] == l;
    assert ls[i].name == l.name;
    var m := ByName(ls, l.name);
    var j :| 0 <= j < |ls| && ls[j] == m;
  }

  lemma IdsTellApart(h: Host, ls: seq<Listener>, ps: seq<Principal>, p: Principal, q: Principal)
    requires PrincipalsOk(h, ls, ps) && p in ps && q in ps && p.id == q.id
    ensures p == q
  {
    var i :| 0 <= i < |ps| && ps[i] == p;
    var j :| 0 <= j < |ps| && ps[j] == q;
    assert i < j ==> Unlike(ps[i], ps[j]);
    assert j < i ==> Unlike(ps[j], ps[i]);
  }

  /** On one listener a name of any kind belongs to one principal. */
  lemma NamesTellApart(h: Host, ls: seq<Listener>, ps: seq<Principal>, k: Kind, l: Listener, p: Principal, q: Principal)
    requires Unambiguous(h, ls, ps) && l in ls && Applies(k, l)
    requires p in ps && q in ps && l.name in p.grants && l.name in q.grants
    requires NameOf(h, k, l, p) == NameOf(h, k, l, q)
    ensures p == q
  {
    ListenerByName(ls, l);
    assert Unshared(h, ls, ps, k);
    assert Goes(ls, k, p, l.name) && Goes(ls, k, q, l.name);
    IdsTellApart(h, ls, ps, p, q);
  }

  lemma AcceptedIsUnambiguous(h: Host, s: Settings)
    requires Valid(h, s)
    ensures Unambiguous(h, s.listeners, s.principals)
  {
    forall i, j | 0 <= i < j < |s.listeners| ensures s.listeners[i].name != s.listeners[j].name {
      assert Apart(h, s.listeners[i], s.listeners[j]);
    }
  }

  /** ls' is ls with the listen addresses rewritten, as Start does when ports are bound. */
  predicate Rebound(ls: seq<Listener>, ls': seq<Listener>) {
    |ls| == |ls'| && forall i :: 0 <= i < |ls| ==> ls'[i] == ls[i].(listen := ls'[i].listen)
  }

  lemma {:induction false} ReboundByName(ls: seq<Listener>, ls': seq<Listener>, g: string)
    requires Rebound(ls, ls')
    ensures Named(ls, g) <==> Named(ls', g)
    ensures Named(ls, g) ==> ByName(ls', g) == ByName(ls, g).(listen := ByName(ls', g).listen)
  {
    hide PrincipalOk;
    if Named(ls, g) {
      var i :| 0 <= i < |ls| && ls[i].name == g;
      assert ls'[i].name == g;
      var n := |ls| - 1;
      if ls[n].name != g {
        assert ls[..n][i].name == g && ls'[..n][i].name == g;
        ReboundByName(ls[..n], ls'[..n], g);
      }
    }
    if Named(ls', g) {
      var i :| 0 <= i < |ls'| && ls'[i].name == g;
      assert ls[i].name == g;
    }
  }

  /** Binding ports does not make identities ambiguous. */
  lemma ReboundIsUnambiguous(h: Host, ls: seq<Listener>, ls': seq<Listener>, ps: seq<Principal>)
    requires Unambiguous(h, ls, ps) && Rebound(ls, ls')
    ensures Unambiguous(h, ls', ps)
  {
    forall p | p in ps ensures PrincipalOk(ls', p) {
      assert PrincipalOk(ls, p);
      forall g | g in p.grants ensures GrantOk(ls', p, g) {
        ReboundByName(ls, ls', g);
      }
    }
    forall k ensures Unshared(h, ls', ps, k) {
      assert Unshared(h, ls, ps, k);
      forall p, q, g | p in ps && q in ps && Goes(ls', k, p, g) && Goes(ls', k, q, g)
          && NameOf(h, k, ByName(ls', g), p) == NameOf(h, k, ByName(ls', g), q)
        ensures p.id == q.id
      {
        ReboundByName(ls, ls', g);
        assert Goes(ls, k, p, g) && Goes(ls, k, q, g);
      }
    }
  }

  /** What Start hands to the service: an accepted configuration with its ports bound. */
  lemma StartIsUnambiguous(h: Host, s: Settings, bound: seq<Listener>)
    requires Accepts(h, s) && Rebound(s.listeners, bound)
    ensures Unambiguous(h, bound, s.principals)
  {
    ConfigVerdict.AcceptedIsValid(h, s);
    AcceptedIsUnambiguous(h, s);
    ReboundIsUnambiguous(h, s.listeners, bound, s.principals);
  }
}
