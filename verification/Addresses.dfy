/**
 Host and port: Go's net.SplitHostPort, net.JoinHostPort and strconv, as servePostgres uses them on the
 upstream of a listener before it logs in (iamproxy/postgres.go).
 */
module Addresses {
  import opened Common
  import opened Wire

  type Text = seq<byte>

  const COLON: byte := ':' as int
  const OPEN: byte := '[' as int
  const CLOSE: byte := ']' as int
  const SLASH: byte := '/' as int
  const PLUS: byte := '+' as int
  const MINUS: byte := '-' as int
  const ZERO: byte := '0' as int

  /** The first position of c, or -1. */
  function First(s: Text, c: byte): (i: int)
    ensures -1 <= i < |s| && (i == -1 <==> c !in s)
    ensures i >= 0 ==> s[i] == c && c !in s[..i]
  {
    if s == [] then -1
    else if s[0] == c then 0
    else
      var i := First(s[1..], c);
      assert i >= 0 ==> s[..i + 1] == [s[0]] + s[1..][..i];
      if i < 0 then -1 else i + 1
  }

  /** The last position of c, or -1. */
  function Last(s: Text, c: byte): (i: int)
    ensures -1 <= i < |s| && (i == -1 <==> c !in s)
    ensures i >= 0 ==> s[i] == c && c !in s[i + 1..]
  {
    if s == [] then -1
    else if s[|s| - 1] == c then |s| - 1
    else
      var i := Last(s[..|s| - 1], c);
      if i < 0 then NotIn(s, c); -1 else AfterLast(s, i); i
  }

  lemma NotIn(s: Text, c: byte)
    requires s != [] && c !in s[..|s| - 1] && s[|s| - 1] != c
    ensures c !in s
  {
    assert s == s[..|s| - 1] + [s[|s| - 1]];
  }

  lemma AfterLast(s: Text, i: nat)
    requires i < |s| - 1
    ensures s[..|s| - 1][i] == s[i] && s[i + 1..] == s[..|s| - 1][i + 1..] + [s[|s| - 1]]
  {
  }

  function SplitHostPort(a: Text): Option<(Text, Text)> {
    var i := Last(a, COLON);
    if i < 0 then None
    else if a[0] == OPEN then
      var end := First(a, CLOSE);
      if end + 1 != i || OPEN in a[1..] || CLOSE in a[end + 1..] then None
      else Some((a[1..end], a[i + 1..]))
    else if COLON in a[..i] || OPEN in a || CLOSE in a then None
    else Some((a[..i], a[i + 1..]))
  }

  function JoinHostPort(host: Text, port: Text): Text {
    if COLON in host then [OPEN] + host + [CLOSE, COLON] + port else host + [COLON] + port
  }

  predicate NoBrackets(s: Text) {
    OPEN !in s && CLOSE !in s
  }

  predicate Bare(a: Text, host: Text, port: Text) {
    a == host + [COLON] + port && COLON !in host
  }

  predicate Bracketed(a: Text, host: Text, port: Text) {
    a == [OPEN] + host + [CLOSE, COLON] + port
  }

  lemma LastOf(before: Text, after: Text)
    requires COLON !in after
    ensures Last(before + [COLON] + after, COLON) == |before|
  {
    var s := before + [COLON] + after;
    assert s[|before|] == COLON && s[|before| + 1..] == after;
  }

  lemma FirstOf(before: Text, after: Text)
    requires CLOSE !in before
    ensures First(before + [CLOSE] + after, CLOSE) == |before|
  {
    var s := before + [CLOSE] + after;
    assert s[|before|] == CLOSE && s[..|before|] == before;
  }

  lemma SplitBare(host: Text, port: Text)
    requires COLON !in host && COLON !in port && NoBrackets(host) && NoBrackets(port)
    ensures SplitHostPort(host + [COLON] + port) == Some((host, port))
  {
    var a := host + [COLON] + port;
    LastOf(host, port);
    assert a[..|host|] == host && a[|host| + 1..] == port;
    assert NoBrackets(a);
    assert a[0] in a;
  }

  lemma SplitBracketed(host: Text, port: Text)
    requires COLON !in port && NoBrackets(host) && NoBrackets(port)
    ensures SplitHostPort([OPEN] + host + [CLOSE, COLON] + port) == Some((host, port))
  {
    hide Last, First;
    var a := [OPEN] + host + [CLOSE, COLON] + port;
    assert a == ([OPEN] + host + [CLOSE]) + [COLON] + port && a == ([OPEN] + host) + [CLOSE] + ([COLON] + port);
    LastOf([OPEN] + host + [CLOSE], port);
    FirstOf([OPEN] + host, [COLON] + port);
    assert a[1..] == host + [CLOSE, COLON] + port && a[|host| + 2..] == [COLON] + port;
    assert a[1..|host| + 1] == host && a[|host| + 3..] == port;
  }

  /** What the parts of a split address are. */
  lemma SplitGives(a: Text, host: Text, port: Text)
    requires SplitHostPort(a) == Some((host, port))
    ensures COLON !in port && NoBrackets(host) && NoBrackets(port)
    ensures if a[0] == OPEN then Bracketed(a, host, port) else Bare(a, host, port)
  {
    var i := Last(a, COLON);
    if a[0] == OPEN {
      var end := First(a, CLOSE);
      assert a == [a[0]] + a[1..end] + [a[end], a[i]] + a[i + 1..];
      assert forall x :: x in host ==> x in a[..end] && x in a[1..];
      assert forall x :: x in port ==> x in a[1..] && x in a[end + 1..];
    } else {
      assert a == a[..i] + [a[i]] + a[i + 1..];
    }
  }

  /** An address is split exactly when it is a bare host or a bracketed one, a colon and a port. */
  lemma SplitIsExact(a: Text, host: Text, port: Text)
    ensures SplitHostPort(a) == Some((host, port)) <==>
              && COLON !in port && NoBrackets(host) && NoBrackets(port)
              && (Bare(a, host, port) || Bracketed(a, host, port))
  {
    if SplitHostPort(a) == Some((host, port)) {
      SplitGives(a, host, port);
    }
    if COLON !in port && NoBrackets(host) && NoBrackets(port) {
      if Bare(a, host, port) { SplitBare(host, port); }
      if Bracketed(a, host, port) { SplitBracketed(host, port); }
    }
  }

  /** Joining what was split restores the address, unless brackets were put around a host that needs none. */
  lemma JoinOfSplit(a: Text, host: Text, port: Text)
    requires SplitHostPort(a) == Some((host, port))
    ensures JoinHostPort(host, port) == a <==> (a[0] == OPEN ==> COLON in host)
  {
    SplitGives(a, host, port);
    if a[0] == OPEN && COLON !in host {
      assert |JoinHostPort(host, port)| == |a| - 2;
    }
  }

  // ---- numbers

  predicate IsDigit(c: byte) {
    ZERO <= c < ZERO + 10
  }

  predicate AllDigits(s: Text) {
    forall c :: c in s ==> IsDigit(c)
  }

  /** strconv.Itoa of a natural number. */
  function Decimal(n: nat): (s: Text)
    ensures s != [] && AllDigits(s)
  {
    (if n < 10 then [] else Decimal(n / 10)) + [ZERO + n % 10]
  }

  function Number(s: Text): nat
    requires AllDigits(s)
  {
    if s == [] then 0
    else
      assert s[|s| - 1] in s;
      10 * Number(s[..|s| - 1]) + (s[|s| - 1] - ZERO)
  }

  /** strconv.Atoi; a number that does not fit an int is an error there and out of any port's range here. */
  function Atoi(s: Text): Option<int> {
    var digits := if s != [] && (s[0] == PLUS || s[0] == MINUS) then s[1..] else s;
    if digits == [] || !AllDigits(digits) then None
    else
      var n: int := Number(digits);
      Some(if s[0] == MINUS then -n else n)
  }

  lemma {:induction false} NumberOfDecimal(n: nat)
    ensures Number(Decimal(n)) == n && (n > 0 ==> Decimal(n)[0] != ZERO)
  {
    var s := Decimal(n);
    if n >= 10 {
      NumberOfDecimal(n / 10);
      assert s[..|s| - 1] == Decimal(n / 10);
    }
  }

  lemma {:induction false} DecimalOfNumber(s: Text)
    requires s != [] && AllDigits(s) && s[0] != ZERO
    ensures Number(s) > 0 && Decimal(Number(s)) == s
  {
    assert s[|s| - 1] in s && s[0] in s;
    var (front, last) := (s[..|s| - 1], s[|s| - 1]);
    assert s == front + [last];
    if front == [] {
      assert Number(front) == 0;
    } else {
      DecimalOfNumber(front);
      assert Number(s) / 10 == Number(front) && Number(s) % 10 == last - ZERO;
    }
  }

  // ---- the address of a PostgreSQL login

  /** The host and the port that servePostgres takes from an upstream. */
  function LoginTarget(upstream: Text): (r: Option<(Text, nat)>)
    ensures r.Some? ==> 1 <= r.value.1 <= 65535
  {
    match SplitHostPort(upstream)
    case None => None
    case Some((host, port)) =>
      match Atoi(port)
      case None => None
      case Some(n) => if 1 <= n <= 65535 then Some((host, n)) else None
  }

  /** A number of a port, perhaps with a plus sign and leading zeros. */
  predicate PortText(port: Text, n: nat) {
    var digits := if port != [] && port[0] == PLUS then port[1..] else port;
    digits != [] && AllDigits(digits) && Number(digits) == n && 1 <= n <= 65535
  }

  lemma PortTextIs(port: Text, n: nat)
    ensures PortText(port, n) <==> Atoi(port) == Some(n) && 1 <= n <= 65535
    ensures PortText(port, n) ==> COLON !in port && NoBrackets(port)
  {
    assert !IsDigit(COLON) && !IsDigit(OPEN) && !IsDigit(CLOSE) && !IsDigit(PLUS) && !IsDigit(MINUS);
    if port != [] {
      assert port[0] in port;
      assert port == [port[0]] + port[1..];
    }
  }

  /** A login has a target exactly when the upstream is a host, bare or in brackets, a colon and the number of
      a port. */
  lemma LoginTargetIsExact(upstream: Text, host: Text, n: nat)
    ensures LoginTarget(upstream) == Some((host, n)) <==>
              NoBrackets(host) && exists port :: PortText(port, n) && IsAddress(upstream, host, port)
  {
    hide SplitHostPort, Atoi, PortText, Bare, Bracketed;
    if LoginTarget(upstream) == Some((host, n)) {
      var port := SplitHostPort(upstream).value.1;
      SplitIsExact(upstream, host, port);
      PortTextIs(port, n);
      assert IsAddress(upstream, host, port);
    }
    if NoBrackets(host) && exists port :: PortText(port, n) && IsAddress(upstream, host, port) {
      var port :| PortText(port, n) && IsAddress(upstream, host, port);
      PortTextIs(port, n);
      SplitIsExact(upstream, host, port);
    }
  }

  predicate IsAddress(a: Text, host: Text, port: Text) {
    Bare(a, host, port) || Bracketed(a, host, port)
  }

  /** The hosts that the driver dials over TCP under their own name: no socket path, and nothing that the
      driver would split into another host and port. */
  predicate ByTcp(host: Text) {
    (host != [] ==> host[0] != SLASH) && SplitHostPort(host) == None
  }

  ghost predicate SplitsInto(a: Text, host: Text, port: Text) {
    COLON !in port && NoBrackets(host) && NoBrackets(port) && IsAddress(a, host, port)
  }

  lemma ByTcpIsExact(host: Text)
    ensures ByTcp(host) <==>
              (host == [] || host[0] != SLASH) && !exists h, p :: SplitsInto(host, h, p)
    ensures COLON !in host && (host == [] || host[0] != SLASH) ==> ByTcp(host)
  {
    hide SplitHostPort;
    match SplitHostPort(host)
    case Some((h, p)) =>
      SplitIsExact(host, h, p);
      assert SplitsInto(host, h, p);
    case None =>
      forall h, p ensures !SplitsInto(host, h, p) {
        SplitIsExact(host, h, p);
      }
  }

  /** How the driver spells the address it dials. */
  function Spelled(host: Text, port: nat): Text {
    JoinHostPort(host, Decimal(port))
  }

  /** A port without sign and leading zeros. */
  predicate PlainPort(port: Text) {
    port != [] && AllDigits(port) && port[0] != ZERO
  }

  lemma PlainPortIff(port: Text, n: nat)
    requires Atoi(port) == Some(n) && n > 0
    ensures Decimal(n) == port <==> PlainPort(port)
  {
    NumberOfDecimal(n);
    if PlainPort(port) {
      assert port[0] in port;
      DecimalOfNumber(port);
    }
  }

  lemma JoinEndsInPort(host: Text, port: Text)
    requires COLON !in port
    ensures var a := JoinHostPort(host, port);
            Last(a, COLON) >= 0 && a[Last(a, COLON) + 1..] == port
  {
    var a := JoinHostPort(host, port);
    var before := if COLON in host then [OPEN] + host + [CLOSE] else host;
    assert a == before + [COLON] + port;
    LastOf(before, port);
  }

  /** A login dials the upstream as it is spelled exactly when its port has no sign and no leading zero,
      and its host has no needless brackets. */
  lemma SpelledAsConfiguredIff(upstream: Text)
    requires LoginTarget(upstream).Some?
    ensures var (host, port) := SplitHostPort(upstream).value;
            Spelled(host, LoginTarget(upstream).value.1) == upstream <==>
              PlainPort(port) && (upstream[0] == OPEN ==> COLON in host)
  {
    var (host, port) := SplitHostPort(upstream).value;
    var n := LoginTarget(upstream).value.1;
    SplitGives(upstream, host, port);
    PlainPortIff(port, n);
    JoinOfSplit(upstream, host, port);
    if Spelled(host, n) == upstream {
      assert COLON !in Decimal(n) by {
        assert !IsDigit(COLON);
      }
      JoinEndsInPort(host, Decimal(n));
    }
  }

  const A_HOST: Text := Ascii("db")
  const A_PORT: Text := Ascii("05432")

  /** An upstream that logins dial under another spelling: "db:05432" becomes "db:5432". */
  lemma ARespelledUpstream()
    ensures var upstream := A_HOST + [COLON] + A_PORT;
            LoginTarget(upstream) == Some((A_HOST, 5432)) && Spelled(A_HOST, 5432) != upstream
  {
    hide SplitHostPort, Number, Spelled;
    assert A_PORT == [ZERO, ZERO + 5, ZERO + 4, ZERO + 3, ZERO + 2];
    SplitBare(A_HOST, A_PORT);
    Five(A_PORT);
    SpelledAsConfiguredIff(A_HOST + [COLON] + A_PORT);
  }

  lemma Five(p: Text)
    requires |p| == 5 && AllDigits(p)
    ensures var d := (i: int) requires 0 <= i < 5 => p[i] - ZERO;
            Number(p) == 10000 * d(0) + 1000 * d(1) + 100 * d(2) + 10 * d(3) + d(4)
  {
    assert p[..4][..3] == p[..3] && p[..3][..2] == p[..2] && p[..2][..1] == p[..1] && p[..1][..0] == [];
    assert Number(p[..1]) == p[0] - ZERO;
    assert Number(p[..2]) == 10 * (p[0] - ZERO) + p[1] - ZERO;
    assert Number(p[..3]) == 10 * Number(p[..2]) + p[2] - ZERO;
    assert Number(p[..4]) == 10 * Number(p[..3]) + p[3] - ZERO;
  }
}
