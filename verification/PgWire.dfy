/** PostgreSQL messages and the startup packet (iamproxy/postgres.go pgWrite, pgPassword, pgStartup). */
module PgWire {
  import opened Common
  import opened Wire

  const LIMIT: nat := 0x10_0000
  const PROTOCOL_3: nat := 196608
  const CANCEL_CODE: nat := 80877102
  const SSL_CODE: nat := 80877103
  const GSS_CODE: nat := 80877104

  const NO: seq<byte> := ['N' as int]
  const CANCEL_KEY: seq<byte> := Ascii("_cancel")
  const SSL_KEY: seq<byte> := Ascii("_ssl")

  type Text = seq<byte>
  type Params = map<Text, Text>

  lemma Powers()
    ensures Power256(4) == 0x1_0000_0000 && Power256(3) == 0x100_0000 && Power256(2) == 65536
    ensures Power256(1) == 256 && Power256(0) == 1
  {
    assert Power256(1) == 256;
    assert Power256(2) == 256 * Power256(1);
    assert Power256(3) == 256 * Power256(2);
    assert Power256(4) == 256 * Power256(3);
  }

  // ---- messages

  function Message(typ: byte, body: Text): Text {
    [typ] + BigEndian(4 + |body|, 4) + body
  }

  method PgWrite(c: Conn, typ: byte, body: Text) returns (ok: bool)
    modifies c`output, c`room
    ensures c.output == old(c.output) + Cut(Message(typ, body), old(c.room))
    ensures c.room == old(c.room) - |Cut(Message(typ, body), old(c.room))|
    ensures ok <==> |body| + 5 <= old(c.room)
  {
    var b := new byte[5 + |body|];
    b[0] := typ;
    var size := BigEndian(4 + |body|, 4);
    forall i | 0 <= i < 4 {
      b[1 + i] := size[i];
    }
    forall i | 0 <= i < |body| {
      b[5 + i] := body[i];
    }
    assert b[..] == Message(typ, body);
    ok := c.Write(b[..]);
  }

  /** What pgPassword returns on a stream, and what it leaves unread. */
  function Password(input: Text): (Option<Text>, Text) {
    if |input| < 5 then (None, [])
    else if input[0] != 'p' as int then (None, input[5..])
    else
      var n := FromBigEndian(input[1..5]);
      if n < 5 || n > LIMIT then (None, input[5..])
      else if |input| < n + 1 then (None, [])
      else if input[n] != 0 then (None, input[n + 1..])
      else (Some(input[5..n]), input[n + 1..])
  }

  lemma PasswordBody(input: Text, n: nat)
    requires 5 <= n && |input| >= n + 1
    ensures var b := input[5..][..n - 4];
            b[|b| - 1] == input[n] && b[..|b| - 1] == input[5..n] && input[5..][n - 4..] == input[n + 1..]
  {
  }

  method PgPassword(c: Conn) returns (r: Option<Text>)
    modifies c`input
    ensures (r, c.input) == Password(old(c.input))
  {
    var head := c.ReadFull(5);
    if head == None {
      return None;
    }
    if head.value[0] != 'p' as int {
      return None;
    }
    assert head.value[1..] == old(c.input)[1..5];
    var n := FromBigEndian(head.value[1..]);
    if n < 5 || n > LIMIT {
      return None;
    }
    var b := c.ReadFull(n - 4);
    if b == None {
      return None;
    }
    PasswordBody(old(c.input), n);
    if b.value[|b.value| - 1] != 0 {
      return None;
    }
    return Some(b.value[..|b.value| - 1]);
  }

  /** pgPassword accepts exactly the 'p' messages that pgWrite would send for a password and its NUL,
      within the limit, and leaves what follows on the stream. */
  lemma PasswordIsExact(input: Text, password: Text, rest: Text)
    ensures Password(input) == (Some(password), rest) <==>
              |password| + 5 <= LIMIT && input == Message('p' as int, password + [0]) + rest
  {
    Powers();
    if Password(input) == (Some(password), rest) {
      FromBigEndianRoundTrip(input[1..5]);
      var n := FromBigEndian(input[1..5]);
      assert input == [input[0]] + input[1..5] + (input[5..n] + [input[n]]) + input[n + 1..];
    }
    if |password| + 5 <= LIMIT && input == Message('p' as int, password + [0]) + rest {
      BigEndianRoundTrip(5 + |password|, 4);
      assert input[1..5] == BigEndian(5 + |password|, 4);
      assert input[5..|password| + 5] == password;
    }
  }

  // ---- startup parameters

  predicate NulFree(s: Text) {
    0 !in s
  }

  /** strings.Split(b, "\x00") */
  function Split(b: Text): (fs: seq<Text>)
    ensures |fs| >= 1
    ensures forall f :: f in fs ==> NulFree(f)
  {
    if b == [] then [[]]
    else if b[0] == 0 then [[]] + Split(b[1..])
    else
      var fs := Split(b[1..]);
      assert fs[0] in fs && NulFree([b[0]] + fs[0]);
      [[b[0]] + fs[0]] + fs[1..]
  }

  function Terminated(fs: seq<Text>): Text {
    if fs == [] then [] else fs[0] + [0] + Terminated(fs[1..])
  }

  lemma TerminatedOne()
    ensures Terminated([[]]) == [] + [0]
  {
  }

  lemma TerminatedEmpty(fs: seq<Text>)
    ensures Terminated([[]] + fs) == [0] + Terminated(fs)
  {
    assert ([[]] + fs)[1..] == fs;
  }

  lemma TerminatedLonger(x: byte, fs: seq<Text>)
    requires fs != []
    ensures Terminated([[x] + fs[0]] + fs[1..]) == [x] + Terminated(fs)
  {
    var gs := [[x] + fs[0]] + fs[1..];
    assert gs[1..] == fs[1..];
  }

  lemma {:induction false} SplitTerminates(b: Text)
    ensures Terminated(Split(b)) == b + [0]
  {
    hide Terminated;
    if b == [] {
      TerminatedOne();
    } else if b[0] == 0 {
      SplitTerminates(b[1..]);
      TerminatedEmpty(Split(b[1..]));
      assert b == [0] + b[1..];
    } else {
      SplitTerminates(b[1..]);
      TerminatedLonger(b[0], Split(b[1..]));
      assert b == [b[0]] + b[1..];
    }
  }

  lemma {:induction false} SplitOfTerminated(fs: seq<Text>, b: Text)
    requires fs != [] && (forall f :: f in fs ==> NulFree(f)) && Terminated(fs) == b + [0]
    ensures Split(b) == fs
    decreases |b|
  {
    if fs[0] == [] {
      assert Terminated(fs) == [0] + Terminated(fs[1..]);
      if |fs| == 1 {
        assert |b + [0]| == 1;
      } else {
        assert |Terminated(fs[1..])| > 0;
        assert b != [];
        assert b[0] == (b + [0])[0] == 0;
        assert Terminated(fs[1..]) == (b + [0])[1..] == b[1..] + [0];
        SplitOfTerminated(fs[1..], b[1..]);
      }
    } else {
      var f := fs[0];
      assert f[0] in f;
      assert |Terminated(fs)| >= |f| + 1;
      assert b[0] == (b + [0])[0] == f[0];
      var gs := [f[1..]] + fs[1..];
      assert gs[1..] == fs[1..];
      assert Terminated(fs) == [f[0]] + Terminated(gs);
      assert Terminated(gs) == (b + [0])[1..] == b[1..] + [0];
      forall g | g in gs ensures NulFree(g) {
        if g != f[1..] { assert g in fs; } else { assert forall x :: x in f[1..] ==> x in f; assert f in fs; }
      }
      SplitOfTerminated(gs, b[1..]);
      assert f == [f[0]] + f[1..];
    }
  }

  /** The pairs that consecutive fields make. */
  function Pairs(fs: seq<Text>): (ps: seq<(Text, Text)>)
    requires |fs| % 2 == 0
    ensures |ps| * 2 == |fs|
  {
    if fs == [] then [] else [(fs[0], fs[1])] + Pairs(fs[2..])
  }

  lemma {:induction false} PairsAt(fs: seq<Text>, i: nat)
    requires |fs| % 2 == 0 && i < |Pairs(fs)|
    ensures Pairs(fs)[i] == (fs[2 * i], fs[2 * i + 1])
  {
    if i > 0 {
      PairsAt(fs[2..], i - 1);
    }
  }

  function Flatten(ps: seq<(Text, Text)>): (fs: seq<Text>)
    ensures |fs| == 2 * |ps|
  {
    if ps == [] then [] else [ps[0].0, ps[0].1] + Flatten(ps[1..])
  }

  lemma {:induction false} FlattenAt(ps: seq<(Text, Text)>, i: nat)
    requires i < |ps|
    ensures Flatten(ps)[2 * i] == ps[i].0 && Flatten(ps)[2 * i + 1] == ps[i].1
  {
    if i > 0 {
      FlattenAt(ps[1..], i - 1);
    }
  }

  lemma {:induction false} FlattenPairs(fs: seq<Text>)
    requires |fs| % 2 == 0
    ensures Flatten(Pairs(fs)) == fs
  {
    if fs != [] {
      FlattenPairs(fs[2..]);
      assert Pairs(fs)[1..] == Pairs(fs[2..]);
      assert fs == [fs[0], fs[1]] + fs[2..];
    }
  }

  lemma {:induction false} PairsFlatten(ps: seq<(Text, Text)>)
    ensures Pairs(Flatten(ps)) == ps
  {
    if ps != [] {
      PairsFlatten(ps[1..]);
      assert Flatten(ps)[2..] == Flatten(ps[1..]);
      assert ps == [ps[0]] + ps[1..];
    }
  }

  /** A later value for a key replaces an earlier one. */
  function LastWins(ps: seq<(Text, Text)>): Params {
    if ps == [] then map[]
    else LastWins(ps[..|ps| - 1])[ps[|ps| - 1].0 := ps[|ps| - 1].1]
  }

  predicate KeysGiven(ps: seq<(Text, Text)>) {
    forall i :: 0 <= i < |ps| ==> ps[i].0 != []
  }

  /** The fields after the last one is dropped if it is empty. */
  function Fields(b: Text): seq<Text>
    requires b != []
  {
    var fs := Split(b[..|b| - 1]);
    if fs[|fs| - 1] == [] then fs[..|fs| - 1] else fs
  }

  function ParseParams(b: Text): Option<Params> {
    if b == [] || b[|b| - 1] != 0 then None
    else if |Fields(b)| % 2 != 0 || !KeysGiven(Pairs(Fields(b))) then None
    else Some(LastWins(Pairs(Fields(b))))
  }

  /** Pair i gives its key the value that counts: no later pair has that key. */
  predicate Gives(ps: seq<(Text, Text)>, i: nat, key: Text, value: Text) {
    i < |ps| && ps[i] == (key, value) && forall j :: i < j < |ps| ==> ps[j].0 != key
  }

  lemma {:induction false} LastWinsIs(ps: seq<(Text, Text)>, key: Text, value: Text)
    ensures key in LastWins(ps) && LastWins(ps)[key] == value <==> exists i: nat :: Gives(ps, i, key, value)
  {
    if ps != [] {
      var (rest, last) := (ps[..|ps| - 1], ps[|ps| - 1]);
      LastWinsIs(rest, key, value);
      if last.0 == key {
        assert Gives(ps, |ps| - 1, key, last.1);
      } else {
        if i: nat :| Gives(rest, i, key, value) {
          assert Gives(ps, i, key, value);
        }
        if i: nat :| Gives(ps, i, key, value) {
          assert Gives(rest, i, key, value);
        }
      }
    }
  }

  lemma LastWinsSnoc(ps: seq<(Text, Text)>, i: nat)
    requires i < |ps|
    ensures LastWins(ps[..i + 1]) == LastWins(ps[..i])[ps[i].0 := ps[i].1]
    ensures KeysGiven(ps[..i + 1]) <==> KeysGiven(ps[..i]) && ps[i].0 != []
  {
    assert ps[..i + 1][..i] == ps[..i];
    assert KeysGiven(ps[..i + 1]) ==> ps[..i + 1][i].0 != [];
    assert forall j :: 0 <= j < i ==> ps[..i + 1][j] == ps[..i][j];
  }

  method FillMap(fields: seq<Text>) returns (r: Option<Params>)
    requires |fields| % 2 == 0
    ensures r == if KeysGiven(Pairs(fields)) then Some(LastWins(Pairs(fields))) else None
  {
    ghost var ps := Pairs(fields);
    var m: Params := map[];
    var i := 0;
    while i < |fields|
      invariant 0 <= i <= |fields| && i % 2 == 0
      invariant KeysGiven(ps[..i / 2])
      invariant m == LastWins(ps[..i / 2])
      decreases |fields| - i
    {
      ghost var j := i / 2;
      PairsAt(fields, j);
      LastWinsSnoc(ps, j);
      if fields[i] == [] {
        return None;
      }
      m := m[fields[i] := fields[i + 1]];
      i := i + 2;
    }
    assert ps[..i / 2] == ps;
    return Some(m);
  }

  method PgParams(b: Text) returns (r: Option<Params>)
    ensures r == ParseParams(b)
  {
    if |b| == 0 || b[|b| - 1] != 0 {
      return None;
    }
    var fields := Split(b[..|b| - 1]);
    if fields[|fields| - 1] == [] {
      fields := fields[..|fields| - 1];
    }
    if |fields| % 2 != 0 {
      return None;
    }
    r := FillMap(fields);
  }

  /** The pairs as a client sends them. */
  function EncodeParams(ps: seq<(Text, Text)>): Text {
    if ps == [] then [] else ps[0].0 + [0] + ps[0].1 + [0] + EncodeParams(ps[1..])
  }

  predicate Sendable(ps: seq<(Text, Text)>) {
    forall i :: 0 <= i < |ps| ==> ps[i].0 != [] && NulFree(ps[i].0) && NulFree(ps[i].1)
  }

  lemma {:induction false} EncodeIsTerminated(ps: seq<(Text, Text)>)
    ensures EncodeParams(ps) == Terminated(Flatten(ps))
  {
    if ps != [] {
      EncodeIsTerminated(ps[1..]);
      var fs := Flatten(ps);
      assert fs[1..][1..] == Flatten(ps[1..]);
      assert Terminated(fs) == ps[0].0 + [0] + (ps[0].1 + [0] + Terminated(fs[1..][1..]));
    }
  }

  lemma {:induction false} TerminatedAppend(fs: seq<Text>, f: Text)
    ensures Terminated(fs + [f]) == Terminated(fs) + f + [0]
  {
    if fs == [] {
      assert fs + [f] == [f];
    } else {
      TerminatedAppend(fs[1..], f);
      assert (fs + [f])[1..] == fs[1..] + [f];
    }
  }

  lemma FlattenSendable(ps: seq<(Text, Text)>)
    requires Sendable(ps)
    ensures forall f :: f in Flatten(ps) ==> NulFree(f)
  {
    forall f | f in Flatten(ps) ensures NulFree(f) {
      var i :| 0 <= i < |Flatten(ps)| && Flatten(ps)[i] == f;
      FlattenAt(ps, i / 2);
      assert i == 2 * (i / 2) || i == 2 * (i / 2) + 1;
    }
  }

  /** The two ways a parameter list is spelled: closed by an empty field, as the protocol asks, or
      left open after a last value that is not empty. */
  predicate Spells(b: Text, ps: seq<(Text, Text)>) {
    || b == EncodeParams(ps) + [0]
    || (ps != [] && ps[|ps| - 1].1 != [] && b == EncodeParams(ps))
  }

  lemma SplitClosed(fs: seq<Text>, b: Text)
    requires (forall f :: f in fs ==> NulFree(f)) && b == Terminated(fs) + [0]
    ensures Split(b[..|b| - 1]) == fs + [[]] && Fields(b) == fs
  {
    TerminatedAppend(fs, []);
    assert b == b[..|b| - 1] + [0];
    assert Terminated(fs) + [] == Terminated(fs);
    SplitOfTerminated(fs + [[]], b[..|b| - 1]);
    assert (fs + [[]])[..|fs|] == fs;
  }

  lemma SplitOpen(fs: seq<Text>, b: Text)
    requires (forall f :: f in fs ==> NulFree(f)) && b == Terminated(fs)
    requires fs != [] && fs[|fs| - 1] != []
    ensures b != [] && b[|b| - 1] == 0
    ensures Split(b[..|b| - 1]) == fs && Fields(b) == fs
  {
    hide Terminated, Split;
    assert fs == fs[..|fs| - 1] + [fs[|fs| - 1]];
    TerminatedAppend(fs[..|fs| - 1], fs[|fs| - 1]);
    assert b == b[..|b| - 1] + [0];
    SplitOfTerminated(fs, b[..|b| - 1]);
  }

  lemma KeysAreGiven(ps: seq<(Text, Text)>)
    requires Sendable(ps)
    ensures KeysGiven(ps)
  {
  }

  lemma SpelledIsParsed(b: Text, ps: seq<(Text, Text)>)
    requires Sendable(ps) && Spells(b, ps)
    ensures ParseParams(b) == Some(LastWins(ps))
  {
    hide EncodeParams, LastWins, Split, Terminated, Pairs, Flatten, Sendable;
    EncodeIsTerminated(ps);
    FlattenSendable(ps);
    PairsFlatten(ps);
    KeysAreGiven(ps);
    if b == EncodeParams(ps) + [0] {
      SplitClosed(Flatten(ps), b);
    } else {
      FlattenAt(ps, |ps| - 1);
      SplitOpen(Flatten(ps), b);
    }
  }

  lemma FieldsTerminate(b: Text)
    requires b != [] && b[|b| - 1] == 0
    ensures var fs := Fields(b);
            && (forall f :: f in fs ==> NulFree(f))
            && (b == Terminated(fs) + [0] || (fs != [] && fs[|fs| - 1] != [] && b == Terminated(fs)))
  {
    var all := Split(b[..|b| - 1]);
    SplitTerminates(b[..|b| - 1]);
    assert b == b[..|b| - 1] + [0];
    if all[|all| - 1] == [] {
      assert all == Fields(b) + [[]];
      TerminatedAppend(Fields(b), []);
      assert Terminated(Fields(b)) + [] == Terminated(Fields(b));
    }
  }

  lemma ParsedIsSpelled(b: Text)
    requires ParseParams(b).Some?
    ensures var ps := Pairs(Fields(b));
            Sendable(ps) && Spells(b, ps) && ParseParams(b) == Some(LastWins(ps))
  {
    hide Fields, Terminated, EncodeParams, LastWins, Flatten;
    var fs := Fields(b);
    var ps := Pairs(fs);
    FieldsTerminate(b);
    FlattenPairs(fs);
    EncodeIsTerminated(ps);
    forall i | 0 <= i < |ps| ensures NulFree(ps[i].0) && NulFree(ps[i].1) {
      PairsAt(fs, i);
      assert fs[2 * i] in fs && fs[2 * i + 1] in fs;
    }
    if ps != [] {
      PairsAt(fs, |ps| - 1);
    }
  }

  /** The parameter list is accepted exactly when some pairs spell it, and later pairs win. */
  lemma ParamsAreExact(b: Text, m: Params)
    ensures ParseParams(b) == Some(m) <==> exists ps :: Sendable(ps) && Spells(b, ps) && m == LastWins(ps)
  {
    if ParseParams(b) == Some(m) {
      ParsedIsSpelled(b);
    }
    if exists ps :: Sendable(ps) && Spells(b, ps) && m == LastWins(ps) {
      var ps :| Sendable(ps) && Spells(b, ps) && m == LastWins(ps);
      SpelledIsParsed(b, ps);
    }
  }

  // ---- the startup loop

  /** What pgStartup returns, what it leaves unread and how many 'N' it wrote, on a connection that
      takes `room` bytes. */
  datatype Outcome = Outcome(params: Option<Params>, rest: Text, replies: nat)

  predicate IsGss(input: Text) {
    |input| >= 8 && FromBigEndian(input[..4]) == 8 && FromBigEndian(input[4..8]) == GSS_CODE
  }

  function Startup(input: Text, room: nat): Outcome
    decreases |input|
  {
    if IsGss(input) then
      if room == 0 then Outcome(None, input[8..], 0)
      else
        var o := Startup(input[8..], room - 1);
        o.(replies := o.replies + 1)
    else
      var (params, rest) := LastRound(input);
      Outcome(params, rest, 0)
  }

  /** The round that returns. */
  function LastRound(input: Text): (Option<Params>, Text) {
    if |input| < 8 then (None, [])
    else Round(FromBigEndian(input[..4]), FromBigEndian(input[4..8]), input[8..])
  }

  function Round(n: nat, code: nat, rest: Text): (Option<Params>, Text) {
    if n < 8 || n > LIMIT || code == GSS_CODE then (None, rest)
    else if code == CANCEL_CODE then
      if n != 16 then (None, rest)
      else if |rest| < 8 then (None, [])
      else (Some(map[CANCEL_KEY := rest[..8]]), rest[8..])
    else if code == SSL_CODE then (Some(map[SSL_KEY := Ascii("1")]), rest)
    else if code != PROTOCOL_3 then (None, rest)
    else if |rest| < n - 8 then (None, [])
    else (ParseParams(rest[..n - 8]), rest[n - 8..])
  }

  function Noes(n: nat): Text {
    seq(n, i => 'N' as int)
  }

  /** Each round uses up eight bytes of input, so the loop ends. */
  method PgStartup(c: Conn) returns (r: Option<Params>)
    modifies c
    ensures var o := Startup(old(c.input), old(c.room));
            && r == o.params && c.input == o.rest && o.replies <= old(c.room)
            && c.output == old(c.output) + Noes(o.replies)
  {
    ghost var replies := 0;
    while true
      invariant replies <= old(c.room) && c.room == old(c.room) - replies
      invariant c.output == old(c.output) + Noes(replies)
      invariant var (o, whole) := (Startup(c.input, c.room), Startup(old(c.input), old(c.room)));
                whole == o.(replies := o.replies + replies)
      decreases |c.input|
    {
      ghost var input := c.input;
      var head := c.ReadFull(8);
      if head == None {
        return None;
      }
      assert head.value[..4] == input[..4] && head.value[4..] == input[4..8];
      var n := FromBigEndian(head.value[..4]);
      var code := FromBigEndian(head.value[4..]);
      if n < 8 || n > LIMIT {
        return None;
      }
      if code == GSS_CODE {
        if n != 8 {
          return None;
        }
        var ok := c.Write(NO);
        if !ok {
          assert Cut(NO, 0) == [];
          return None;
        }
        assert Noes(replies + 1) == Noes(replies) + NO;
        replies := replies + 1;
        continue;
      }
      r := ReadBody(c, n, code);
      return;
    }
  }

  /** The branches of pgStartup that return. */
  method ReadBody(c: Conn, n: nat, code: nat) returns (r: Option<Params>)
    requires 8 <= n <= LIMIT && code != GSS_CODE
    modifies c`input
    ensures (r, c.input) == Round(n, code, old(c.input))
  {
    if code == CANCEL_CODE {
      if n != 16 {
        return None;
      }
      var key := c.ReadFull(8);
      if key == None {
        return None;
      }
      return Some(map[CANCEL_KEY := key.value]);
    }
    if code == SSL_CODE {
      return Some(map[SSL_KEY := Ascii("1")]);
    }
    if code != PROTOCOL_3 {
      return None;
    }
    var b := c.ReadFull(n - 8);
    if b == None {
      return None;
    }
    r := PgParams(b.value);
  }

  // ---- what clients send

  /** A length, a code and a body: the shape of everything sent before authentication. */
  function Untyped(n: nat, code: nat, body: Text): Text {
    BigEndian(n, 4) + BigEndian(code, 4) + body
  }

  function StartupPacket(body: Text): Text {
    Untyped(8 + |body|, PROTOCOL_3, body)
  }

  function CancelRequest(key: Text): Text {
    Untyped(8 + |key|, CANCEL_CODE, key)
  }

  function GssRequests(k: nat): Text {
    if k == 0 then [] else Untyped(8, GSS_CODE, []) + GssRequests(k - 1)
  }

  /** What PostgreSQL clients put on the wire before they log in. */
  lemma RequestsOnTheWire(key: Text, body: Text)
    requires 8 + |body| <= LIMIT && |key| == 8
    ensures Untyped(8, GSS_CODE, []) == [0, 0, 0, 8, 4, 210, 22, 48]
    ensures Untyped(8, SSL_CODE, []) == [0, 0, 0, 8, 4, 210, 22, 47]
    ensures CancelRequest(key) == [0, 0, 0, 16, 4, 210, 22, 46] + key
    ensures var n := 8 + |body|;
            StartupPacket(body) == [0, n / 65536, n / 256 % 256, n % 256, 0, 3, 0, 0] + body
  {
    hide BigEndian;
    FourBytes(8);
    FourBytes(16);
    FourBytes(8 + |body|);
    FourBytes(GSS_CODE);
    FourBytes(SSL_CODE);
    FourBytes(CANCEL_CODE);
    FourBytes(PROTOCOL_3);
  }

  lemma FourBytes(x: nat)
    ensures BigEndian(x, 4) == [x / 0x100_0000 % 256, x / 65536 % 256, x / 256 % 256, x % 256]
  {
    hide BigEndian;
    Powers();
    BigEndianAt(x, 4, 0);
    BigEndianAt(x, 4, 1);
    BigEndianAt(x, 4, 2);
    BigEndianAt(x, 4, 3);
  }

  lemma HeadOf(n: nat, code: nat, body: Text, rest: Text)
    requires n < 0x1_0000_0000 && code < 0x1_0000_0000
    ensures var input := Untyped(n, code, body) + rest;
            && |input| >= 8
            && FromBigEndian(input[..4]) == n && FromBigEndian(input[4..8]) == code && input[8..] == body + rest
  {
    hide BigEndian, FromBigEndian, Power256;
    Powers();
    BigEndianRoundTrip(n, 4);
    BigEndianRoundTrip(code, 4);
    var input := Untyped(n, code, body) + rest;
    assert input[..4] == BigEndian(n, 4) && input[4..8] == BigEndian(code, 4);
  }

  lemma GssStep(n: nat, code: nat, input: Text, room: nat)
    requires n == 8 && code == GSS_CODE && room > 0
    ensures Startup(Untyped(n, code, []) + input, room) ==
              Startup(input, room - 1).(replies := Startup(input, room - 1).replies + 1)
  {
    HeadOf(n, code, [], input);
    assert [] + input == input;
  }

  lemma {:induction false} GssIsAnswered(k: nat, input: Text, room: nat)
    requires k <= room
    ensures Startup(GssRequests(k) + input, room) ==
              Startup(input, room - k).(replies := Startup(input, room - k).replies + k)
  {
    hide Startup, Untyped, BigEndian;
    if k == 0 {
      assert GssRequests(k) + input == input;
    } else {
      Assoc(Untyped(8, GSS_CODE, []), GssRequests(k - 1), input);
      GssStep(8, GSS_CODE, GssRequests(k - 1) + input, room);
      GssIsAnswered(k - 1, input, room - 1);
    }
  }

  lemma LastRoundOf(n: nat, code: nat, body: Text, rest: Text, room: nat)
    requires n < 0x1_0000_0000 && code < 0x1_0000_0000 && code != GSS_CODE
    ensures Startup(Untyped(n, code, body) + rest, room) ==
              Outcome(Round(n, code, body + rest).0, Round(n, code, body + rest).1, 0)
  {
    HeadOf(n, code, body, rest);
  }

  /** Any number of GSS requests, then the parameters: one 'N' each, then the last-wins map, and the
      stream is left where the packet ends. */
  lemma StartupRoundTrip(k: nat, ps: seq<(Text, Text)>, body: Text, rest: Text, room: nat)
    requires Sendable(ps) && Spells(body, ps) && 8 + |body| <= LIMIT && k <= room
    ensures Startup(GssRequests(k) + (StartupPacket(body) + rest), room) == Outcome(Some(LastWins(ps)), rest, k)
  {
    hide Startup, GssRequests, Untyped, ParseParams, LastWins, Sendable, Spells;
    GssIsAnswered(k, StartupPacket(body) + rest, room);
    LastRoundOf(8 + |body|, PROTOCOL_3, body, rest, room - k);
    assert (body + rest)[..|body|] == body && (body + rest)[|body|..] == rest;
    SpelledIsParsed(body, ps);
  }

  lemma CancelRoundTrip(k: nat, key: Text, rest: Text, room: nat)
    requires |key| == 8 && k <= room
    ensures Startup(GssRequests(k) + (CancelRequest(key) + rest), room) ==
              Outcome(Some(map[CANCEL_KEY := key]), rest, k)
  {
    GssIsAnswered(k, CancelRequest(key) + rest, room);
    LastRoundOf(8 + |key|, CANCEL_CODE, key, rest, room - k);
    assert (key + rest)[..8] == key && (key + rest)[8..] == rest;
  }

  // ---- exactly what pgStartup accepts

  /** The stream begins with something that ends the loop well, and m is what it says.  The length of
      an SSL request is only checked for its range. */
  ghost predicate Asks(input: Text, m: Params, rest: Text) {
    || (exists key :: |key| == 8 && input == CancelRequest(key) + rest && m == map[CANCEL_KEY := key])
    || (exists n: nat :: 8 <= n <= LIMIT && input == Untyped(n, SSL_CODE, []) + rest && m == map[SSL_KEY := Ascii("1")])
    || (exists body, ps :: IsStartup(input, body, ps, rest) && m == LastWins(ps))
  }

  ghost predicate IsStartup(input: Text, body: Text, ps: seq<(Text, Text)>, rest: Text) {
    Sendable(ps) && Spells(body, ps) && 8 + |body| <= LIMIT && input == StartupPacket(body) + rest
  }

  lemma HeadGives(input: Text, i: nat)
    requires 8 <= i <= |input|
    ensures var (n, code) := (FromBigEndian(input[..4]), FromBigEndian(input[4..8]));
            && n < 0x1_0000_0000 && code < 0x1_0000_0000
            && input == Untyped(n, code, input[8..i]) + input[i..]
  {
    hide BigEndian, FromBigEndian, Power256;
    Powers();
    FromBigEndianRoundTrip(input[..4]);
    FromBigEndianRoundTrip(input[4..8]);
    assert input == input[..4] + input[4..8] + input[8..i] + input[i..];
  }

  lemma CancelGives(input: Text)
    requires |input| >= 16 && FromBigEndian(input[..4]) == 16 && FromBigEndian(input[4..8]) == CANCEL_CODE
    ensures input == CancelRequest(input[8..16]) + input[16..]
  {
    HeadGives(input, 16);
  }

  lemma SslGives(input: Text)
    requires |input| >= 8 && FromBigEndian(input[4..8]) == SSL_CODE
    ensures input == Untyped(FromBigEndian(input[..4]), SSL_CODE, []) + input[8..]
  {
    HeadGives(input, 8);
    assert input[8..8] == [];
  }

  lemma PacketGives(input: Text, n: nat)
    requires 8 <= n <= |input| && FromBigEndian(input[..4]) == n && FromBigEndian(input[4..8]) == PROTOCOL_3
    ensures input == StartupPacket(input[8..n]) + input[n..]
    ensures input[8..n] == input[8..][..n - 8] && input[n..] == input[8..][n - 8..]
  {
    HeadGives(input, n);
  }

  lemma GssGives(input: Text)
    requires IsGss(input)
    ensures |input| >= 8 && input == Untyped(8, GSS_CODE, []) + input[8..]
  {
    HeadGives(input, 8);
    assert input[8..8] == [];
  }

  lemma LastRoundGives(input: Text)
    requires LastRound(input).0.Some?
    ensures Asks(input, LastRound(input).0.value, LastRound(input).1)
  {
    hide FromBigEndian, ParseParams, Spells, Sendable, LastWins, Untyped, CancelRequest, StartupPacket;
    var (n, code) := (FromBigEndian(input[..4]), FromBigEndian(input[4..8]));
    if code == CANCEL_CODE {
      CancelGives(input);
      assert input[8..][..8] == input[8..16] && input[8..][8..] == input[16..];
    } else if code == SSL_CODE {
      SslGives(input);
    } else {
      PacketGives(input, n);
      var ps := Spelling(input[8..n]);
      assert IsStartup(input, input[8..n], ps, input[n..]);
    }
  }

  lemma Spelling(body: Text) returns (ps: seq<(Text, Text)>)
    requires ParseParams(body).Some?
    ensures Sendable(ps) && Spells(body, ps) && ParseParams(body) == Some(LastWins(ps))
  {
    ParsedIsSpelled(body);
    ps := Pairs(Fields(body));
  }

  lemma {:induction false} StartupGives(input: Text, room: nat) returns (tail: Text)
    requires Startup(input, room).params.Some?
    ensures var o := Startup(input, room);
            o.replies <= room && input == GssRequests(o.replies) + tail && Asks(tail, o.params.value, o.rest)
    decreases |input|
  {
    hide IsGss, Untyped, Asks, LastRound;
    if IsGss(input) {
      GssGives(input);
      tail := StartupGives(input[8..], room - 1);
      Assoc(Untyped(8, GSS_CODE, []), GssRequests(Startup(input[8..], room - 1).replies), tail);
    } else {
      LastRoundGives(input);
      tail := input;
      assert GssRequests(0) + input == input;
    }
  }

  lemma AsksIsAnswered(input: Text, room: nat, m: Params, rest: Text)
    requires Asks(input, m, rest)
    ensures Startup(input, room) == Outcome(Some(m), rest, 0)
  {
    hide Startup, Untyped, ParseParams, LastWins, Sendable, Spells;
    if key :| |key| == 8 && input == CancelRequest(key) + rest && m == map[CANCEL_KEY := key] {
      LastRoundOf(8 + |key|, CANCEL_CODE, key, rest, room);
      assert (key + rest)[..8] == key && (key + rest)[8..] == rest;
    } else if n: nat :| 8 <= n <= LIMIT && input == Untyped(n, SSL_CODE, []) + rest && m == map[SSL_KEY := Ascii("1")] {
      LastRoundOf(n, SSL_CODE, [], rest, room);
      assert [] + rest == rest;
    } else {
      var body, ps :| IsStartup(input, body, ps, rest) && m == LastWins(ps);
      LastRoundOf(8 + |body|, PROTOCOL_3, body, rest, room);
      assert (body + rest)[..|body|] == body && (body + rest)[|body|..] == rest;
      SpelledIsParsed(body, ps);
    }
  }

  /** pgStartup succeeds exactly on k GSS requests that can be answered followed by a cancel request,
      an SSL request or a packet that spells its parameters; it answers k times and stops there. */
  lemma StartupIsExact(input: Text, room: nat, m: Params, rest: Text, k: nat)
    ensures Startup(input, room) == Outcome(Some(m), rest, k) <==>
              k <= room && exists tail :: input == GssRequests(k) + tail && Asks(tail, m, rest)
  {
    if Startup(input, room) == Outcome(Some(m), rest, k) {
      var tail := StartupGives(input, room);
    }
    if tail :| k <= room && input == GssRequests(k) + tail && Asks(tail, m, rest) {
      GssIsAnswered(k, tail, room);
      AsksIsAnswered(tail, room - k, m, rest);
    }
  }
}
