/** What the configuration check decides: exactness against the pairwise specification, and independence of order. */
module ConfigVerdict {
  import opened Common
  import opened Config

  /** No listener name goes on, after a NUL, to another listener name. */
  predicate NoNulExtension(ls: seq<Listener>) {
    forall a, b :: a in ls && b in ls ==> !(a.name + NUL <= b.name)
  }

  lemma ShorterNameIsExtended(g: string, name: string, g': string, name': string)
    requires Key(g, name) == Key(g', name') && |g| < |g'|
    ensures g + NUL <= g'
  {
    assert Key(g, name)[..|g| + 1] == g + NUL;
    assert Key(g', name')[..|g| + 1] == g'[..|g| + 1];
  }

  lemma KeysAreFaithful(g: string, name: string, g': string, name': string)
    requires Key(g, name) == Key(g', name') && !(g + NUL <= g') && !(g' + NUL <= g)
    ensures g == g' && name == name'
  {
    if |g| < |g'| {
      ShorterNameIsExtended(g, name, g', name');
    } else if |g'| < |g| {
      ShorterNameIsExtended(g', name', g, name);
    } else {
      assert Key(g, name)[..|g|] == g && Key(g', name')[..|g'|] == g';
      assert Key(g, name)[|g| + 1..] == name && Key(g', name')[|g'| + 1..] == name';
    }
  }

  /** Whatever the names, an accepted configuration has no shared names. */
  lemma AcceptedIsValid(h: Host, s: Settings)
    requires Accepts(h, s)
    ensures Valid(h, s)
  {
    forall k: Kind
      ensures Unshared(h, s.listeners, s.principals, k)
    {
      assert NoSharedKey(h, s.listeners, s.principals, k);
      forall p, q, g | p in s.principals && q in s.principals
          && Goes(s.listeners, k, p, g) && Goes(s.listeners, k, q, g)
          && NameOf(h, k, ByName(s.listeners, g), p) == NameOf(h, k, ByName(s.listeners, g), q)
        ensures p.id == q.id
      {
        assert Claim(h, s.listeners, k, p, g).0 == Claim(h, s.listeners, k, q, g).0;
      }
    }
  }

  lemma ValidIsAccepted(h: Host, s: Settings)
    requires Valid(h, s) && NoNulExtension(s.listeners)
    ensures Accepts(h, s)
  {
    forall k: Kind
      ensures NoSharedKey(h, s.listeners, s.principals, k)
    {
      assert Unshared(h, s.listeners, s.principals, k);
      forall p, q, g, g' | p in s.principals && q in s.principals
          && Goes(s.listeners, k, p, g) && Goes(s.listeners, k, q, g')
          && Claim(h, s.listeners, k, p, g).0 == Claim(h, s.listeners, k, q, g').0
        ensures p.id == q.id
      {
        var (a, b) := (ByName(s.listeners, g), ByName(s.listeners, g'));
        assert !(a.name + NUL <= b.name) && !(b.name + NUL <= a.name);
        KeysAreFaithful(g, NameOf(h, k, a, p), g', NameOf(h, k, b, q));
      }
    }
  }

  /** A principal with one grant. */
  function Plain(id: string, grant: string, user: string): Principal {
    Principal(id, "e", [], [grant], user, "pw", "", "", "", "")
  }

  lemma PlainIsOk(ls: seq<Listener>, id: string, l: Listener, user: string)
    requires l in ls && id != "" && user != ""
    ensures Named(ls, l.name) && PrincipalOk(ls, Plain(id, l.name, user))
  {
    var i :| 0 <= i < |ls| && ls[i] == l;
  }

  /** The principals that the check confuses although they share no listener. */
  function Confused(a: Listener, b: Listener): seq<Principal>
    requires a.name + NUL <= b.name
  {
    [Plain("1", a.name, b.name[|a.name| + 1..] + NUL + "u"), Plain("2", b.name, "u")]
  }

  lemma ConfusedIsValid(h: Host, ls: seq<Listener>, a: Listener, b: Listener)
    requires a in ls && b in ls && a.name + NUL <= b.name
    ensures PrincipalsOk(h, ls, Confused(a, b)) && forall k :: Unshared(h, ls, Confused(a, b), k)
  {
    PlainIsOk(ls, "1", a, b.name[|a.name| + 1..] + NUL + "u");
    PlainIsOk(ls, "2", b, "u");
  }

  lemma ConfusedSharesKey(h: Host, ls: seq<Listener>, a: Listener, b: Listener)
    requires a in ls && b in ls && a.name + NUL <= b.name
    ensures !NoSharedKey(h, ls, Confused(a, b), BackendUser)
  {
    var x := b.name[|a.name| + 1..];
    var p := Plain("1", a.name, x + NUL + "u");
    var q := Plain("2", b.name, "u");
    PlainIsOk(ls, "1", a, x + NUL + "u");
    PlainIsOk(ls, "2", b, "u");
    assert Goes(ls, BackendUser, p, a.name) && Goes(ls, BackendUser, q, b.name);
    assert b.name == a.name + NUL + x;
    assert Key(a.name, x + NUL + "u") == Key(b.name, "u");
    assert Claim(h, ls, BackendUser, p, a.name).0 == Claim(h, ls, BackendUser, q, b.name).0;
    assert p in Confused(a, b) && q in Confused(a, b);
  }

  lemma ConfusedIsRejected(h: Host, s: Settings, a: Listener, b: Listener)
    requires EndpointsOk(h, s) && ListenersOk(h, s) && a in s.listeners && b in s.listeners
    requires a.name + NUL <= b.name
    ensures Valid(h, s.(principals := Confused(a, b))) && !Accepts(h, s.(principals := Confused(a, b)))
  {
    ConfusedIsValid(h, s.listeners, a, b);
    ConfusedSharesKey(h, s.listeners, a, b);
  }

  /** For given good listeners the check decides the specification on every list of principals
      exactly when no listener name extends another by a NUL; names without NUL never do. */
  lemma CheckIsExactIff(h: Host, s: Settings)
    requires EndpointsOk(h, s) && ListenersOk(h, s)
    ensures (forall ps :: Accepts(h, s.(principals := ps)) <==> Valid(h, s.(principals := ps))) <==>
              NoNulExtension(s.listeners)
  {
    if NoNulExtension(s.listeners) {
      forall ps
        ensures Accepts(h, s.(principals := ps)) <==> Valid(h, s.(principals := ps))
      {
        var t := s.(principals := ps);
        if Accepts(h, t) { AcceptedIsValid(h, t); }
        if Valid(h, t) { ValidIsAccepted(h, t); }
      }
    } else {
      var a, b :| a in s.listeners && b in s.listeners && a.name + NUL <= b.name;
      ConfusedIsRejected(h, s, a, b);
    }
  }

  lemma ExtensionHasNul(g: string, g': string)
    requires g + NUL <= g'
    ensures '\0' in g'
  {
    assert g'[|g|] == (g + NUL)[|g|];
  }

  lemma NulFreeNamesDoNotExtend(ls: seq<Listener>)
    requires forall l :: l in ls ==> '\0' !in l.name
    ensures NoNulExtension(ls)
  {
    forall a, b | a in ls && b in ls
      ensures !(a.name + NUL <= b.name)
    {
      if a.name + NUL <= b.name { ExtensionHasNul(a.name, b.name); }
    }
  }

  // ---- order does not matter

  ghost predicate Pairwise<T(!new)>(s: seq<T>, r: (T, T) -> bool) {
    forall i, j :: 0 <= i < j < |s| ==> r(s[i], s[j])
  }

  ghost predicate Related<T(!new)>(m: multiset<T>, r: (T, T) -> bool) {
    && (forall x, y :: x in m && y in m && x != y ==> r(x, y))
    && (forall x :: m[x] >= 2 ==> r(x, x))
  }

  /** A symmetric relation between positions is one between the elements, counted. */
  lemma {:induction false} PairwiseByCount<T(!new)>(s: seq<T>, r: (T, T) -> bool)
    requires forall x, y :: r(x, y) <==> r(y, x)
    ensures Pairwise(s, r) <==> Related(multiset(s), r)
  {
    if s != [] {
      var (rest, last) := (s[..|s| - 1], s[|s| - 1]);
      PairwiseByCount(rest, r);
      assert s == rest + [last];
      PairwiseSnoc(rest, last, r);
      RelatedSnoc(multiset(rest), last, r);
    }
  }

  lemma PairwiseSnoc<T(!new)>(s: seq<T>, x: T, r: (T, T) -> bool)
    ensures Pairwise(s + [x], r) <==> Pairwise(s, r) && forall y :: y in multiset(s) ==> r(y, x)
  {
    var t := s + [x];
    if Pairwise(t, r) {
      forall i, j | 0 <= i < j < |s| ensures r(s[i], s[j]) { assert r(t[i], t[j]); }
      forall y | y in multiset(s) ensures r(y, x) {
        var i :| 0 <= i < |s| && s[i] == y;
        assert r(t[i], t[|s|]);
      }
    }
  }

  lemma RelatedSnoc<T(!new)>(m: multiset<T>, x: T, r: (T, T) -> bool)
    requires forall x, y :: r(x, y) <==> r(y, x)
    ensures Related(m + multiset{x}, r) <==> Related(m, r) && forall y :: y in m ==> r(y, x)
  {
    var m' := m + multiset{x};
    if Related(m', r) {
      forall y | y in m ensures r(y, x) {
        if y == x { assert m'[y] >= 2; } else { assert y in m' && x in m'; }
      }
    }
  }

  lemma SameMembers<T>(s: seq<T>, s': seq<T>)
    requires multiset(s) == multiset(s')
    ensures forall x :: x in s <==> x in s'
    ensures |s| == |s'|
  {
    assert forall x :: x in s <==> x in multiset(s);
    assert forall x :: x in s' <==> x in multiset(s');
    assert |multiset(s)| == |s| && |multiset(s')| == |s'|;
  }

  lemma ListenersOkIgnoresOrder(h: Host, s: Settings, s': Settings)
    requires ListenersOk(h, s) && s' == s.(listeners := s'.listeners, principals := s'.principals)
    requires multiset(s.listeners) == multiset(s'.listeners)
    ensures ListenersOk(h, s')
  {
    SameMembers(s.listeners, s'.listeners);
    var r := (a: Listener, b: Listener) => Apart(h, a, b);
    PairwiseByCount(s.listeners, r);
    PairwiseByCount(s'.listeners, r);
    assert Pairwise(s.listeners, r);
  }

  lemma NamesAreSame(h: Host, s: Settings, s': Settings, g: string)
    requires ListenersOk(h, s) && ListenersOk(h, s') && multiset(s.listeners) == multiset(s'.listeners)
    ensures Named(s.listeners, g) <==> Named(s'.listeners, g)
    ensures Named(s.listeners, g) ==> ByName(s.listeners, g) == ByName(s'.listeners, g)
  {
    SameMembers(s.listeners, s'.listeners);
    if Named(s.listeners, g) {
      var l := ByName(s.listeners, g);
      assert l in s'.listeners;
      var j :| 0 <= j < |s'.listeners| && s'.listeners[j] == l;
      var l' := ByName(s'.listeners, g);
      OneOfAName(h, s', l, l');
    }
    if Named(s'.listeners, g) {
      var l := ByName(s'.listeners, g);
      assert l in s.listeners;
      var j :| 0 <= j < |s.listeners| && s.listeners[j] == l;
    }
  }

  lemma OneOfAName(h: Host, s: Settings, a: Listener, b: Listener)
    requires ListenersOk(h, s) && a in s.listeners && b in s.listeners && a.name == b.name
    ensures a == b
  {
    var i :| 0 <= i < |s.listeners| && s.listeners[i] == a;
    var j :| 0 <= j < |s.listeners| && s.listeners[j] == b;
    assert i < j ==> Apart(h, s.listeners[i], s.listeners[j]);
    assert j < i ==> Apart(h, s.listeners[j], s.listeners[i]);
  }

  lemma PrincipalsOkIgnoresOrder(h: Host, s: Settings, s': Settings)
    requires ListenersOk(h, s) && ListenersOk(h, s') && multiset(s.listeners) == multiset(s'.listeners)
    requires multiset(s.principals) == multiset(s'.principals)
    requires PrincipalsOk(h, s.listeners, s.principals)
    ensures PrincipalsOk(h, s'.listeners, s'.principals)
  {
    SameMembers(s.principals, s'.principals);
    var r := (a: Principal, b: Principal) => Unlike(a, b) && Unlike(b, a);
    PairwiseByCount(s.principals, r);
    PairwiseByCount(s'.principals, r);
    assert Pairwise(s.principals, r);
    forall p | p in s'.principals ensures PrincipalOk(s'.listeners, p) {
      assert PrincipalOk(s.listeners, p);
      forall g | g in p.grants ensures GrantOk(s'.listeners, p, g) {
        NamesAreSame(h, s, s', g);
      }
    }
  }

  lemma KeysIgnoreOrder(h: Host, s: Settings, s': Settings, k: Kind)
    requires ListenersOk(h, s) && ListenersOk(h, s') && multiset(s.listeners) == multiset(s'.listeners)
    requires multiset(s.principals) == multiset(s'.principals)
    requires NoSharedKey(h, s.listeners, s.principals, k)
    ensures NoSharedKey(h, s'.listeners, s'.principals, k)
  {
    SameMembers(s.principals, s'.principals);
    forall p, q, g, g' | p in s'.principals && q in s'.principals
        && Goes(s'.listeners, k, p, g) && Goes(s'.listeners, k, q, g')
        && Claim(h, s'.listeners, k, p, g).0 == Claim(h, s'.listeners, k, q, g').0
      ensures p.id == q.id
    {
      NamesAreSame(h, s, s', g);
      NamesAreSame(h, s, s', g');
      assert Goes(s.listeners, k, p, g) && Goes(s.listeners, k, q, g');
      assert Claim(h, s.listeners, k, p, g).0 == Claim(h, s.listeners, k, q, g').0;
    }
  }

  lemma AcceptsAnyOrder(h: Host, s: Settings, s': Settings)
    requires Accepts(h, s) && s' == s.(listeners := s'.listeners, principals := s'.principals)
    requires multiset(s.listeners) == multiset(s'.listeners) && multiset(s.principals) == multiset(s'.principals)
    ensures Accepts(h, s')
  {
    SameMembers(s.listeners, s'.listeners);
    ListenersOkIgnoresOrder(h, s, s');
    PrincipalsOkIgnoresOrder(h, s, s');
    forall k ensures NoSharedKey(h, s'.listeners, s'.principals, k) {
      KeysIgnoreOrder(h, s, s', k);
    }
  }

  /** The verdict depends on which listeners and principals there are, not on their order. */
  lemma VerdictIgnoresOrder(h: Host, s: Settings, s': Settings)
    requires s' == s.(listeners := s'.listeners, principals := s'.principals)
    requires multiset(s.listeners) == multiset(s'.listeners) && multiset(s.principals) == multiset(s'.principals)
    ensures Accepts(h, s) <==> Accepts(h, s')
  {
    if Accepts(h, s) { AcceptsAnyOrder(h, s, s'); }
    if Accepts(h, s') { AcceptsAnyOrder(h, s', s); }
  }

  /** Checking a checked configuration again changes nothing and gives the same verdict. */
  method CheckTwice(c: Config, h: Host) returns (first: bool, second: bool)
    modifies c`httpListen
    ensures first == second && c.State() == Effective(old(c.State()))
  {
    first := c.Validate(h);
    second := c.Validate(h);
  }
}
