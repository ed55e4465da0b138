/** Checking a SigV4 RDS login token once its URL is parsed (iamproxy/aws.go validateAWS). */
module AwsToken {
  import opened Common
  import opened AwsCanonical
  import Config

  /** The foreign calls.  `parse` is url.Parse, the tests on the parsed URL and url.ParseQuery; `hash`
      is SHA-256 in hexadecimal; times are in seconds. */
  datatype Foreign = Foreign(
    parse: string -> Option<Url>,
    joinHostPort: (string, string) -> string,
    atoi: Text -> Option<int>,
    parseTime: Text -> Option<int>,
    hexDecode: Text -> Option<string>,
    hash: string -> string,
    hmac: (string, string) -> string)

  type Values = map<Text, seq<Text>>

  datatype Url = Url(host: string, query: Values)

  const SIGNATURE: Text := "X-Amz-Signature"
  const EMPTY_BODY: string := "e3b0c44298fc1c149afbf4c8996fb92427ae41e4649b934ca495991b7852b855"

  /** v.Get(key) */
  function Get(v: Values, key: Text): Text {
    if key in v && v[key] != [] then v[key][0] else ""
  }

  function SplitOn(s: Text, c: bchar): (fs: seq<Text>)
    ensures |fs| >= 1
  {
    if s == [] then [[]]
    else
      var fs := SplitOn(s[1..], c);
      if s[0] == c then [[]] + fs else [[s[0]] + fs[0]] + fs[1..]
  }

  function Prefix(s: Text, n: nat): Text {
    s[..Min(n, |s|)]
  }

  function CanonicalRequest(query: string, host: string): string {
    "GET\n/\n" + query + "\n" + ("host:" + host + "\n\nhost\n" + EMPTY_BODY)
  }

  function StringToSign(f: Foreign, date: string, scope: string, request: string): string {
    "AWS4-HMAC-SHA256\n" + date + "\n" + scope + "\n" + f.hash(request)
  }

  /** The key chain over secret, day and region. */
  function SigningKey(f: Foreign, secret: string, day: string, region: string): string {
    f.hmac(f.hmac(f.hmac(f.hmac("AWS4" + secret, day), region), "rds-db"), "aws4_request")
  }

  function Scope(cred: seq<Text>): string
    requires |cred| == 5
  {
    cred[1] + "/" + cred[2] + "/" + cred[3] + "/" + cred[4]
  }

  /** The first principal with an access key. */
  function ByAccessKey(ps: seq<Config.Principal>, key: string): (r: Option<Config.Principal>)
    ensures r.Some? ==> r.value in ps && r.value.awsAccessKey == key
    ensures r == None <==> forall p :: p in ps ==> p.awsAccessKey != key
  {
    if ps == [] then None
    else if ps[0].awsAccessKey == key then Some(ps[0])
    else ByAccessKey(ps[1..], key)
  }

  lemma {:induction false} ByAccessKeyIsFirst(ps: seq<Config.Principal>, i: nat)
    requires i < |ps| && forall j :: 0 <= j < i ==> ps[j].awsAccessKey != ps[i].awsAccessKey
    ensures ByAccessKey(ps, ps[i].awsAccessKey) == Some(ps[i])
  {
    if i > 0 {
      assert ps[0].awsAccessKey != ps[i].awsAccessKey;
      ByAccessKeyIsFirst(ps[1..], i - 1);
    }
  }

  method FindByAccessKey(ps: seq<Config.Principal>, key: string) returns (r: Option<Config.Principal>)
    ensures r == ByAccessKey(ps, key)
  {
    for i := 0 to |ps|
      invariant ByAccessKey(ps, key) == ByAccessKey(ps[i..], key)
    {
      if ps[i].awsAccessKey == key {
        return Some(ps[i]);
      }
    }
    return None;
  }

  predicate InWindow(issued: int, exp: int, now: int) {
    issued - 300 <= now < issued + exp
  }

  // the parameters that several parts look at

  function CredentialOf(v: Values): seq<Text> {
    SplitOn(Get(v, "X-Amz-Credential"), '/')
  }

  function DateOf(v: Values): Text {
    Get(v, "X-Amz-Date")
  }

  function UserOf(v: Values): Text {
    Get(v, "DBUser")
  }

  function SignatureOf(v: Values): Text {
    Get(v, SIGNATURE)
  }

  predicate FixedParts(v: Values) {
    && Get(v, "Action") == "connect"
    && Get(v, "X-Amz-Algorithm") == "AWS4-HMAC-SHA256"
    && Get(v, "X-Amz-SignedHeaders") == "host"
  }

  predicate Timely(f: Foreign, v: Values, now: int) {
    var (exp, issued) := (f.atoi(Get(v, "X-Amz-Expires")), f.parseTime(DateOf(v)));
    exp.Some? && 1 <= exp.value <= 900 && issued.Some? && InWindow(issued.value, exp.value, now)
  }

  predicate Scoped(l: Config.Listener, v: Values) {
    var cred := CredentialOf(v);
    && |cred| == 5 && cred[1] == Prefix(DateOf(v), 8) && cred[2] == l.region
    && cred[3] == "rds-db" && cred[4] == "aws4_request"
  }

  predicate AtEndpoint(f: Foreign, h: Config.Host, l: Config.Listener, u: Url) {
    && h.splitHostPort(l.listen).Some?
    && u.host == f.joinHostPort(l.hostname, Config.Port(h, l.listen))
  }

  predicate NoDuplicates(v: Values) {
    forall k :: k in v ==> |v[k]| == 1
  }

  /** Everything validateAWS demands of a token apart from its signature. */
  predicate WellFormed(f: Foreign, h: Config.Host, l: Config.Listener, username: string, now: int, u: Url) {
    var v := u.query;
    && AtEndpoint(f, h, l, u) && NoDuplicates(v)
    && FixedParts(v) && UserOf(v) == username
    && |SignatureOf(v)| == 64 && f.hexDecode(SignatureOf(v)).Some?
    && Timely(f, v, now) && Scoped(l, v)
  }

  predicate Credentialled(v: Values, p: Config.Principal) {
    p.awsSecretKey != "" && Get(v, "X-Amz-Security-Token") == p.awsSessionToken
  }

  /** What has to be signed, given the canonical query of the other parameters. */
  function Expected(f: Foreign, l: Config.Listener, u: Url, p: Config.Principal, query: Text): string
    requires |CredentialOf(u.query)| == 5
  {
    var cred := CredentialOf(u.query);
    f.hmac(SigningKey(f, p.awsSecretKey, cred[1], cred[2]),
           StringToSign(f, DateOf(u.query), Scope(cred), CanonicalRequest(query, u.host)))
  }

  /** The principal a token logs in as, if it is accepted. */
  function Verdict(f: Foreign, h: Config.Host, l: Config.Listener, ps: seq<Config.Principal>,
                   username: string, now: int, u: Url, query: Text): (r: Option<Config.Principal>)
    ensures r.Some? ==> r.value in ps
  {
    if !WellFormed(f, h, l, username, now, u) then None
    else
      match ByAccessKey(ps, CredentialOf(u.query)[0])
      case None => None
      case Some(p) =>
        if Credentialled(u.query, p) && f.hexDecode(SignatureOf(u.query)) == Some(Expected(f, l, u, p, query))
        then Some(p) else None
  }

  /** The loop over the values. */
  method EachOnce(v: Values) returns (ok: bool)
    ensures ok <==> NoDuplicates(v)
  {
    var keys := v.Keys;
    while keys != {}
      invariant keys <= v.Keys
      invariant forall k :: k in v && k !in keys ==> |v[k]| == 1
      decreases |keys|
    {
      var k :| k in keys;
      if |v[k]| != 1 {
        return false;
      }
      keys := keys - {k};
    }
    return true;
  }

  method ValidateAWS(f: Foreign, h: Config.Host, l: Config.Listener, ps: seq<Config.Principal>,
                     username: string, token: string, now: int) returns (r: Option<Config.Principal>)
    ensures f.parse(token) == None ==> r == None
    ensures f.parse(token).Some? ==>
              forall qs :: Lists(f.parse(token).value.query - {SIGNATURE}, qs) ==>
                r == Verdict(f, h, l, ps, username, now, f.parse(token).value, Canonical(qs))
    ensures r.Some? ==> r.value in ps
  {
    hide Credentialled, SplitOn, Get, CanonicalRequest, StringToSign, Scope, Canonical, Lists, NoDuplicates;
    if f.parse(token) == None {
      return None;
    }
    var u := f.parse(token).value;
    var v := u.query;
    var at := h.splitHostPort(l.listen);
    if at == None || u.host != f.joinHostPort(l.hostname, at.value.1) {
      return None;
    }
    var once := EachOnce(v);
    if !once {
      return None;
    }
    if Get(v, "Action") != "connect" || Get(v, "DBUser") != username || Get(v, "X-Amz-Algorithm") != "AWS4-HMAC-SHA256"
       || Get(v, "X-Amz-SignedHeaders") != "host" {
      return None;
    }
    var sig := Get(v, SIGNATURE);
    if |sig| != 64 {
      return None;
    }
    var sigBytes := f.hexDecode(sig);
    if sigBytes == None {
      return None;
    }
    var exp := f.atoi(Get(v, "X-Amz-Expires"));
    if exp == None || exp.value < 1 || exp.value > 900 {
      return None;
    }
    var date := Get(v, "X-Amz-Date");
    var issued := f.parseTime(date);
    if issued == None || now < issued.value - 300 || !(now < issued.value + exp.value) {
      return None;
    }
    var cred := SplitOn(Get(v, "X-Amz-Credential"), '/');
    if |cred| != 5 || cred[1] != Prefix(date, 8) || cred[2] != l.region || cred[3] != "rds-db"
       || cred[4] != "aws4_request" {
      return None;
    }
    assert WellFormed(f, h, l, username, now, u);
    var p := FindByAccessKey(ps, cred[0]);
    if p == None || !Credentialled(v, p.value) {
      return None;
    }
    v := v - {SIGNATURE};
    var query := AwsQuery(v);
    var request := CanonicalRequest(query, u.host);
    var toSign := StringToSign(f, date, Scope(cred), request);
    var k := f.hmac("AWS4" + p.value.awsSecretKey, cred[1]);
    k := f.hmac(k, cred[2]);
    k := f.hmac(k, "rds-db");
    k := f.hmac(k, "aws4_request");
    var expected := f.hmac(k, toSign);
    SomeList(v);
    if sigBytes != Some(expected) {
      return None;
    }
    return p;
  }

  // ---- every url.Values can be listed

  lemma SomeList(v: Values)
    ensures exists qs :: Lists(v, qs)
  {
    var qs := ListOf(v, v.Keys);
    assert Lists(v, qs);
  }

  lemma {:induction false} ListOf(v: Values, keys: set<Text>) returns (qs: seq<Pair>)
    requires keys <= v.Keys
    ensures forall k, x :: multiset(qs)[(k, x)] == if k in keys then multiset(v[k])[x] else 0
    decreases |keys|
  {
    qs := [];
    if keys != {} {
      var k :| k in keys;
      var rest := ListOf(v, keys - {k});
      qs := rest + PairsOf(k, v[k]);
      forall k', x
        ensures multiset(qs)[(k', x)] == if k' in keys then multiset(v[k'])[x] else 0
      {
        PairsOfCount(k, v[k], k', x);
      }
    }
  }

  // ---- a signature covers the whole query

  lemma {:induction false} EncodeHasNoNewline(s: Text)
    ensures '\n' !in Encode(s)
  {
    if s != [] {
      EncodeHasNoNewline(s[1..]);
      var c := s[0];
      assert HEX[c as int / 16] in HEX && HEX[c as int % 16] in HEX && '\n' !in HEX;
    }
  }

  lemma {:induction false} JoinHasNoNewline(ss: seq<Text>)
    requires forall s :: s in ss ==> '\n' !in s
    ensures '\n' !in Join(ss)
  {
    if |ss| > 1 {
      JoinHasNoNewline(ss[1..]);
      assert ss[0] in ss;
    } else if |ss| == 1 {
      assert ss[0] in ss;
    }
  }

  lemma CanonicalHasNoNewline(ps: seq<Pair>)
    ensures '\n' !in Canonical(ps)
  {
    var ss := Sort(Map(Joined, ps), Leq);
    SortedPieces(ps);
    forall s | s in ss ensures '\n' !in s {
      assert s in multiset(ss);
      assert s in Map(Joined, ps);
      var i :| 0 <= i < |ps| && Map(Joined, ps)[i] == s;
      EncodeHasNoNewline(ps[i].0);
      EncodeHasNoNewline(ps[i].1);
    }
    JoinHasNoNewline(ss);
  }

  lemma LineIsDelimited(a: string, x: string, b: string, y: string)
    requires '\n' !in a && '\n' !in b && a + "\n" + x == b + "\n" + y
    ensures a == b && x == y
  {
    var s := a + "\n" + x;
    if |a| < |b| {
      LineInLonger(a, x, b, y);
    } else if |b| < |a| {
      LineInLonger(b, y, a, x);
    } else {
      assert s[..|a|] == a && s[..|b|] == b;
      assert s[|a| + 1..] == x && s[|b| + 1..] == y;
    }
  }

  lemma LineInLonger(a: string, x: string, b: string, y: string)
    requires a + "\n" + x == b + "\n" + y && |a| < |b|
    ensures '\n' in b
  {
    assert b[|a|] == (b + "\n" + y)[|a|] == (a + "\n" + x)[|a|];
  }

  lemma AffixesCancel(a: string, x: string, y: string, b: string)
    requires a + x + b == a + y + b
    ensures x == y
  {
    assert (a + x + b)[|a|..|a| + |x|] == x && (a + y + b)[|a|..|a| + |y|] == y;
    assert |x| == |y|;
  }

  /** The canonical request determines the query and the host. */
  lemma RequestIsInjective(ps: seq<Pair>, host: string, qs: seq<Pair>, host': string)
    requires CanonicalRequest(Canonical(ps), host) == CanonicalRequest(Canonical(qs), host')
    ensures multiset(ps) == multiset(qs) && host == host'
  {
    CanonicalHasNoNewline(ps);
    CanonicalHasNoNewline(qs);
    var tail := "\n\nhost\n" + EMPTY_BODY;
    var (x, y) := ("host:" + host + tail, "host:" + host' + tail);
    TrimGet(Canonical(ps), host);
    TrimGet(Canonical(qs), host');
    LineIsDelimited(Canonical(ps), x, Canonical(qs), y);
    CanonicalIsExact(ps, qs);
    AffixesCancel("host:", host, host', tail);
  }

  lemma TrimGet(query: string, host: string)
    ensures var tail := "\n\nhost\n" + EMPTY_BODY;
            CanonicalRequest(query, host)[|"GET\n/\n"|..] == query + "\n" + ("host:" + host + tail)
  {
    var get := "GET\n/\n";
    var tail := "\n\nhost\n" + EMPTY_BODY;
    assert "host:" + host + "\n\nhost\n" + EMPTY_BODY == "host:" + host + tail;
    assert CanonicalRequest(query, host) == get + (query + "\n" + ("host:" + host + tail));
  }

  /** Two different messages with one digest. */
  predicate Collide(digest: string -> string, x: string, y: string) {
    x != y && digest(x) == digest(y)
  }

  /** The length of a SHA-256 digest in hexadecimal. */
  ghost predicate Digests(hash: string -> string) {
    forall x :: |hash(x)| == 64
  }

  lemma SomeHashDigests()
    ensures Digests(x => seq(64, i => 'a'))
  {
  }

  lemma SignedStringIsInjective(f: Foreign, d: string, s: string, r: string, d': string, s': string, r': string)
    requires Digests(f.hash) && StringToSign(f, d, s, r) == StringToSign(f, d', s', r')
    ensures r == r' || Collide(f.hash, r, r')
  {
    var (a, b) := (StringToSign(f, d, s, r), StringToSign(f, d', s', r'));
    assert a[|a| - 64..] == f.hash(r) && b[|b| - 64..] == f.hash(r');
  }

  lemma SingletonsAreDetermined(v: Values, w: Values, ps: seq<Pair>)
    requires Lists(v, ps) && Lists(w, ps)
    requires NoDuplicates(v) && NoDuplicates(w)
    ensures v == w
  {
    forall k | k in v ensures k in w && w[k] == v[k] {
      assert multiset(v[k])[v[k][0]] >= 1;
      assert multiset(ps)[(k, v[k][0])] >= 1;
      assert k in w && v[k][0] in w[k];
    }
    forall k | k in w ensures k in v {
      assert multiset(w[k])[w[k][0]] >= 1;
      assert multiset(ps)[(k, w[k][0])] >= 1;
    }
  }

  /** The MAC under the signing key of a principal, day and region. */
  function Mac(f: Foreign, secret: string, day: string, region: string): string -> string {
    m => f.hmac(SigningKey(f, secret, day, region), m)
  }

  function RequestOf(u: Url, qs: seq<Pair>): string {
    CanonicalRequest(Canonical(qs), u.host)
  }

  function ToSign(f: Foreign, u: Url, qs: seq<Pair>): string
    requires |CredentialOf(u.query)| == 5
  {
    StringToSign(f, DateOf(u.query), Scope(CredentialOf(u.query)), RequestOf(u, qs))
  }

  /** One token accepted for p under a canonical query that lists its other parameters. */
  ghost predicate Accepted(f: Foreign, h: Config.Host, l: Config.Listener, ps: seq<Config.Principal>,
                           name: string, now: int, u: Url, qs: seq<Pair>, p: Config.Principal) {
    && Lists(u.query - {SIGNATURE}, qs)
    && Verdict(f, h, l, ps, name, now, u, Canonical(qs)) == Some(p)
  }

  lemma SignedAs(f: Foreign, h: Config.Host, l: Config.Listener, ps: seq<Config.Principal>,
                 name: string, now: int, u: Url, qs: seq<Pair>, p: Config.Principal)
    requires Accepted(f, h, l, ps, name, now, u, qs, p)
    ensures |CredentialOf(u.query)| == 5 && NoDuplicates(u.query) && UserOf(u.query) == name
    ensures f.hexDecode(SignatureOf(u.query)) ==
              Some(Mac(f, p.awsSecretKey, Prefix(DateOf(u.query), 8), l.region)(ToSign(f, u, qs)))
  {
    hide Get, SplitOn, Lists, Canonical, StringToSign, CanonicalRequest, Scope, SigningKey;
    hide AtEndpoint, FixedParts, Timely;
  }

  /** A signature is good for one request: two tokens accepted for one principal and day with the same
      signature have the same host, the same other parameters and the same user, or else they exhibit a
      collision: of the hash on their canonical requests, or of the MAC on their strings to sign. */
  lemma SignatureCoversTheQuery(f: Foreign, h: Config.Host, l: Config.Listener, ps: seq<Config.Principal>,
                                p: Config.Principal, u: Url, qs: seq<Pair>, name: string, now: int,
                                u': Url, qs': seq<Pair>, name': string, now': int)
    requires Digests(f.hash)
    requires Accepted(f, h, l, ps, name, now, u, qs, p) && Accepted(f, h, l, ps, name', now', u', qs', p)
    requires SignatureOf(u.query) == SignatureOf(u'.query)
    requires Prefix(DateOf(u.query), 8) == Prefix(DateOf(u'.query), 8)
    ensures |CredentialOf(u.query)| == 5 && |CredentialOf(u'.query)| == 5
    ensures || (u.host == u'.host && u.query - {SIGNATURE} == u'.query - {SIGNATURE} && name == name')
            || Collide(f.hash, RequestOf(u, qs), RequestOf(u', qs'))
            || Collide(Mac(f, p.awsSecretKey, Prefix(DateOf(u.query), 8), l.region),
                       ToSign(f, u, qs), ToSign(f, u', qs'))
  {
    hide Verdict, CredentialOf, DateOf, UserOf, SignatureOf;
    hide Canonical, CanonicalRequest, StringToSign, Scope, SigningKey;
    SignedAs(f, h, l, ps, name, now, u, qs, p);
    SignedAs(f, h, l, ps, name', now', u', qs', p);
    if ToSign(f, u, qs) == ToSign(f, u', qs') {
      SignedStringIsInjective(f, DateOf(u.query), Scope(CredentialOf(u.query)), RequestOf(u, qs),
                              DateOf(u'.query), Scope(CredentialOf(u'.query)), RequestOf(u', qs'));
      if RequestOf(u, qs) == RequestOf(u', qs') {
        RequestIsInjective(qs, u.host, qs', u'.host);
        SingletonsAreDetermined(u.query - {SIGNATURE}, u'.query - {SIGNATURE}, qs);
        SameUser(u.query, u'.query);
      }
    }
  }

  lemma SameUser(v: Values, w: Values)
    requires v - {SIGNATURE} == w - {SIGNATURE}
    ensures UserOf(v) == UserOf(w)
  {
    var k: Text := "DBUser";
    assert k != SIGNATURE;
    assert k in v <==> k in v - {SIGNATURE};
    assert k in w <==> k in w - {SIGNATURE};
  }

  // ---- a token as a client makes it

  function JoinOn(fs: seq<Text>, c: bchar): Text {
    if fs == [] then [] else if |fs| == 1 then fs[0] else fs[0] + [c] + JoinOn(fs[1..], c)
  }

  lemma {:induction false} SplitOnOne(f: Text, c: bchar)
    requires c !in f
    ensures SplitOn(f, c) == [f]
  {
    if f != [] {
      assert c !in f[1..] by { assert forall x :: x in f[1..] ==> x in f; }
      SplitOnOne(f[1..], c);
      assert f[0] in f && [f[0]] + f[1..] == f;
    }
  }

  lemma {:induction false} SplitOnFirst(f: Text, rest: Text, c: bchar)
    requires c !in f
    ensures SplitOn(f + [c] + rest, c) == [f] + SplitOn(rest, c)
  {
    var s := f + [c] + rest;
    if f == [] {
      assert s[1..] == rest;
    } else {
      assert c !in f[1..] by { assert forall x :: x in f[1..] ==> x in f; }
      SplitOnFirst(f[1..], rest, c);
      assert s[1..] == f[1..] + [c] + rest && s[0] == f[0];
      assert f[0] in f && [f[0]] + f[1..] == f;
    }
  }

  /** Splitting undoes joining. */
  lemma {:induction false} SplitUndoesJoin(fs: seq<Text>, c: bchar)
    requires fs != [] && forall f :: f in fs ==> c !in f
    ensures SplitOn(JoinOn(fs, c), c) == fs
  {
    assert fs[0] in fs;
    if |fs| == 1 {
      SplitOnOne(fs[0], c);
    } else {
      SplitUndoesJoin(fs[1..], c);
      SplitOnFirst(fs[0], JoinOn(fs[1..], c), c);
      assert fs == [fs[0]] + fs[1..];
    }
  }

  /** What a client puts into a login token. */
  datatype Claim = Claim(user: Text, key: Text, day: Text, time: Text, region: Text, expires: Text, session: Text)

  const ACTION: Text := "Action"
  const DB_USER: Text := "DBUser"
  const ALGORITHM: Text := "X-Amz-Algorithm"
  const CREDENTIAL: Text := "X-Amz-Credential"
  const DATE: Text := "X-Amz-Date"
  const EXPIRES: Text := "X-Amz-Expires"
  const HEADERS: Text := "X-Amz-SignedHeaders"
  const SESSION: Text := "X-Amz-Security-Token"

  function Unsigned(c: Claim): Values {
    var v: Values := map[
      ACTION := ["connect"],
      DB_USER := [c.user],
      ALGORITHM := ["AWS4-HMAC-SHA256"],
      CREDENTIAL := [JoinOn([c.key, c.day, c.region, "rds-db", "aws4_request"], '/')],
      DATE := [c.day + c.time],
      EXPIRES := [c.expires],
      HEADERS := ["host"]];
    if c.session == "" then v else v[SESSION := [c.session]]
  }

  /** The signature of Signature Version 4, step by step, for a query string and a host. */
  function Signed(f: Foreign, secret: string, c: Claim, query: string, host: string): string {
    var k1 := f.hmac("AWS4" + secret, c.day);
    var k2 := f.hmac(k1, c.region);
    var k3 := f.hmac(k2, "rds-db");
    var k4 := f.hmac(k3, "aws4_request");
    var request := "GET\n/\n" + query + "\nhost:" + host + "\n\nhost\n" + EMPTY_BODY;
    var scope := c.day + "/" + c.region + "/rds-db/aws4_request";
    f.hmac(k4, "AWS4-HMAC-SHA256\n" + (c.day + c.time) + "\n" + scope + "\n" + f.hash(request))
  }

  lemma KeysDiffer()
    ensures ACTION != DB_USER && ALGORITHM != SIGNATURE
    ensures |ACTION| == 6 && |DB_USER| == 6 && |ALGORITHM| == 15 && |SIGNATURE| == 15 && |CREDENTIAL| == 16
    ensures |DATE| == 10 && |EXPIRES| == 13 && |HEADERS| == 19 && |SESSION| == 20
  {
    assert ACTION[0] != DB_USER[0];
    assert ALGORITHM[6] != SIGNATURE[6];
  }

  lemma ParametersAreGot(c: Claim, sig: Text)
    ensures var v := Unsigned(c)[SIGNATURE := [sig]];
            && Get(v, ACTION) == "connect" && Get(v, DB_USER) == c.user && Get(v, ALGORITHM) == "AWS4-HMAC-SHA256"
            && Get(v, CREDENTIAL) == JoinOn([c.key, c.day, c.region, "rds-db", "aws4_request"], '/')
            && Get(v, DATE) == c.day + c.time && Get(v, EXPIRES) == c.expires && Get(v, HEADERS) == "host"
            && Get(v, SESSION) == c.session && Get(v, SIGNATURE) == sig
            && NoDuplicates(v) && v - {SIGNATURE} == Unsigned(c)
  {
    hide JoinOn;
    KeysDiffer();
  }

  /** A client's token, made for a listener, a known access key and a proper lifetime. */
  ghost predicate MadeFor(f: Foreign, h: Config.Host, l: Config.Listener, ps: seq<Config.Principal>,
                          p: Config.Principal, c: Claim, u: Url, sig: Text, exp: int, issued: int) {
    && u.query == Unsigned(c)[SIGNATURE := [sig]] && |sig| == 64 && f.hexDecode(sig).Some?
    && h.splitHostPort(l.listen).Some? && u.host == f.joinHostPort(l.hostname, h.splitHostPort(l.listen).value.1)
    && '/' !in c.key && '/' !in c.day && '/' !in c.region && |c.day| == 8 && c.region == l.region
    && ByAccessKey(ps, c.key) == Some(p) && p.awsSecretKey != ""
    && f.atoi(c.expires) == Some(exp) && 1 <= exp <= 900 && f.parseTime(c.day + c.time) == Some(issued)
  }

  lemma CredentialParts(c: Claim, v: Values)
    requires '/' !in c.key && '/' !in c.day && '/' !in c.region
    requires Get(v, CREDENTIAL) == JoinOn([c.key, c.day, c.region, "rds-db", "aws4_request"], '/')
    ensures CredentialOf(v) == [c.key, c.day, c.region, "rds-db", "aws4_request"]
  {
    hide JoinOn, SplitOn, Get;
    var fs: seq<Text> := [c.key, c.day, c.region, "rds-db", "aws4_request"];
    assert '/' !in "rds-db" && '/' !in "aws4_request";
    SplitUndoesJoin(fs, '/');
  }

  lemma RequestIs(query: string, host: string)
    ensures CanonicalRequest(query, host) == "GET\n/\n" + query + "\nhost:" + host + "\n\nhost\n" + EMPTY_BODY
  {
    assert "\nhost:" == "\n" + "host:";
    Regroup("GET\n/\n" + query, "\n", "host:", host, "\n\nhost\n", EMPTY_BODY);
  }

  lemma Regroup(a: string, b: string, c: string, d: string, e: string, g: string)
    ensures a + b + (c + d + e + g) == a + (b + c) + d + e + g
  {
  }

  lemma ScopeIs(cred: seq<Text>, day: string, region: string)
    requires |cred| == 5 && cred[1..] == [day, region, "rds-db", "aws4_request"]
    ensures Scope(cred) == day + "/" + region + "/rds-db/aws4_request"
  {
    assert cred[1] == cred[1..][0] && cred[2] == cred[1..][1] && cred[3] == cred[1..][2] && cred[4] == cred[1..][3];
    assert "/" + "rds-db" + "/" + "aws4_request" == "/rds-db/aws4_request";
    Tail(day + "/" + region, "/", "rds-db", "/", "aws4_request");
  }

  lemma Tail(a: string, b: string, c: string, d: string, e: string)
    ensures a + b + c + d + e == a + (b + c + d + e)
  {
  }

  lemma SignedIsExpected(f: Foreign, l: Config.Listener, p: Config.Principal, c: Claim, u: Url, query: Text)
    requires CredentialOf(u.query) == [c.key, c.day, c.region, "rds-db", "aws4_request"]
    requires DateOf(u.query) == c.day + c.time
    ensures Expected(f, l, u, p, query) == Signed(f, p.awsSecretKey, c, query, u.host)
  {
    hide CredentialOf, DateOf, CanonicalRequest, Scope;
    RequestIs(query, u.host);
    ScopeIs(CredentialOf(u.query), c.day, c.region);
  }

  /** Such a token is accepted exactly with the principal's session token, from five minutes before it was
      issued until it expires, and with the signature that the principal's secret gives. */
  lemma ClientTokenIsAcceptedIff(f: Foreign, h: Config.Host, l: Config.Listener, ps: seq<Config.Principal>,
                                 p: Config.Principal, c: Claim, u: Url, sig: Text, exp: int, issued: int,
                                 qs: seq<Pair>, now: int)
    requires MadeFor(f, h, l, ps, p, c, u, sig, exp, issued) && Lists(Unsigned(c), qs)
    ensures Verdict(f, h, l, ps, c.user, now, u, Canonical(qs)) ==
              if && c.session == p.awsSessionToken && issued - 300 <= now < issued + exp
                 && f.hexDecode(sig) == Some(Signed(f, p.awsSecretKey, c, Canonical(qs), u.host))
              then Some(p) else None
  {
    hide Unsigned, Get, SplitOn, Canonical, Lists, JoinOn, Signed, Expected;
    ParametersAreGot(c, sig);
    CredentialParts(c, u.query);
    SignedIsExpected(f, l, p, c, u, Canonical(qs));
    assert (c.day + c.time)[..8] == c.day;
  }
}
