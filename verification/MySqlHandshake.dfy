/** Parsing the client's HandshakeResponse41 (iamproxy/mysql.go myCString, myLenenc, myHandshakeResponse). */
module MySqlHandshake {
  import opened Common
  import opened Wire

  // capability flags of the MySQL protocol
  const CONNECT_WITH_DB: nat := 0x8
  const PROTOCOL_41: nat := 0x200
  const SECURE_CONNECTION: nat := 0x8000
  const PLUGIN_AUTH: nat := 0x8_0000
  const LENENC_CLIENT_DATA: nat := 0x20_0000

  const CLEAR_PASSWORD: seq<byte> := Ascii("mysql_clear_password")

  /** cap & flag != 0, for a flag of one bit. */
  predicate Has(cap: nat, flag: nat)
    requires flag > 0
  {
    cap / flag % 2 == 1
  }

  /** The bit of a flag is one: cap is an odd multiple of the flag, and less than the flag besides. */
  ghost predicate Flag(cap: nat, flag: nat) {
    exists hi: nat, lo: nat :: Odd(cap, flag, hi, lo)
  }

  predicate Odd(cap: nat, flag: nat, hi: nat, lo: nat) {
    lo < flag && cap == (2 * hi + 1) * flag + lo
  }

  /** The test of a flag reads exactly its bit. */
  lemma HasIsFlag(cap: nat, flag: nat)
    requires flag > 0
    ensures Has(cap, flag) <==> Flag(cap, flag)
  {
    if Has(cap, flag) {
      var q := cap / flag;
      assert q == 2 * (q / 2) + 1 && cap == q * flag + cap % flag;
      assert Odd(cap, flag, q / 2, cap % flag);
    }
    if hi: nat, lo: nat :| Odd(cap, flag, hi, lo) {
      DivIs(cap, flag, 2 * hi + 1, lo);
    }
  }

  lemma FlagsAreRead(cap: nat)
    ensures Supported(cap) <==> Flag(cap, PROTOCOL_41) && Flag(cap, PLUGIN_AUTH)
    ensures forall flag :: flag in {CONNECT_WITH_DB, SECURE_CONNECTION, LENENC_CLIENT_DATA} ==>
              (Has(cap, flag) <==> Flag(cap, flag))
  {
    hide Has, Flag;
    HasIsFlag(cap, PROTOCOL_41);
    HasIsFlag(cap, PLUGIN_AUTH);
    HasIsFlag(cap, CONNECT_WITH_DB);
    HasIsFlag(cap, SECURE_CONNECTION);
    HasIsFlag(cap, LENENC_CLIENT_DATA);
  }

  // ---- NUL-terminated strings

  /** The bytes before the first NUL, and those after it. */
  function CString(b: seq<byte>): Option<(seq<byte>, seq<byte>)> {
    if b == [] then None
    else if b[0] == 0 then Some(([], b[1..]))
    else
      match CString(b[1..])
      case None => None
      case Some((s, rest)) => Some(([b[0]] + s, rest))
  }

  lemma {:induction false} CStringOf(s: seq<byte>, rest: seq<byte>)
    requires 0 !in s
    ensures CString(s + [0] + rest) == Some((s, rest))
  {
    var b := s + [0] + rest;
    if s != [] {
      CStringOf(s[1..], rest);
      assert b[1..] == s[1..] + [0] + rest && s == [s[0]] + s[1..];
      assert b[0] == s[0] && s[0] in s;
    }
  }

  lemma {:induction false} CStringGives(b: seq<byte>)
    requires CString(b).Some?
    ensures var (s, rest) := CString(b).value; b == s + [0] + rest && 0 !in s
  {
    if b[0] != 0 {
      CStringGives(b[1..]);
      assert b == [b[0]] + b[1..];
    }
  }

  method MyCString(b: seq<byte>) returns (r: Option<(seq<byte>, seq<byte>)>)
    ensures r == CString(b)
  {
    var i := 0;
    while i < |b| && b[i] != 0
      invariant i <= |b| && 0 !in b[..i]
    {
      i := i + 1;
    }
    if i == |b| {
      assert b[..i] == b;
      NoCString(b);
      return None;
    }
    CStringOf(b[..i], b[i + 1..]);
    assert b == b[..i] + [0] + b[i + 1..];
    return Some((b[..i], b[i + 1..]));
  }

  lemma {:induction false} NoCString(b: seq<byte>)
    ensures CString(b) == None <==> 0 !in b
  {
    if b != [] {
      NoCString(b[1..]);
      assert 0 in b <==> b[0] == 0 || 0 in b[1..];
    }
  }

  // ---- length-encoded integers

  function Lenenc(b: seq<byte>): (r: Option<(nat, seq<byte>)>) {
    if b == [] then None
    else if b[0] == 0xfc then
      if |b| < 3 then None else Some((FromLittleEndian(b[1..3]), b[3..]))
    else if b[0] == 0xfd then
      if |b| < 4 then None else Some((FromLittleEndian(b[1..4]), b[4..]))
    else if b[0] == 0xfe then
      if |b| < 9 then None
      else if FromLittleEndian(b[1..9]) > 0x10_0000 then None
      else Some((FromLittleEndian(b[1..9]), b[9..]))
    else Some((b[0], b[1..]))
  }

  /** The shortest encoding of a number, as the protocol documents it. */
  function Canonical(n: nat): seq<byte>
    requires n < 0x1_0000_0000_0000_0000
  {
    if n < 251 then [n]
    else if n < 0x1_0000 then [0xfc] + LittleEndian(n, 2)
    else if n < 0x100_0000 then [0xfd] + LittleEndian(n, 3)
    else [0xfe] + LittleEndian(n, 8)
  }

  lemma Powers()
    ensures Power256(2) == 0x1_0000 && Power256(3) == 0x100_0000 && Power256(4) == 0x1_0000_0000
    ensures Power256(8) == 0x1_0000_0000_0000_0000
  {
    assert Power256(1) == 256;
    assert Power256(2) == 256 * Power256(1);
    assert Power256(3) == 256 * Power256(2);
    assert Power256(4) == 256 * Power256(3);
    assert Power256(5) == 256 * Power256(4);
    assert Power256(6) == 256 * Power256(5);
    assert Power256(7) == 256 * Power256(6);
    assert Power256(8) == 256 * Power256(7);
  }

  /** myLenenc undoes the canonical encoding below 2^24 and refuses it above. */
  lemma LenencOfCanonical(n: nat, rest: seq<byte>)
    requires n < 0x1_0000_0000_0000_0000
    ensures Lenenc(Canonical(n) + rest) == if n < 0x100_0000 then Some((n, rest)) else None
  {
    Powers();
    if 251 <= n < 0x1_0000 {
      LittleEndianRoundTrip(n, 2);
      assert (Canonical(n) + rest)[1..3] == LittleEndian(n, 2);
    } else if 0x1_0000 <= n < 0x100_0000 {
      LittleEndianRoundTrip(n, 3);
      assert (Canonical(n) + rest)[1..4] == LittleEndian(n, 3);
    } else if 0x100_0000 <= n {
      LittleEndianRoundTrip(n, 8);
      assert (Canonical(n) + rest)[1..9] == LittleEndian(n, 8);
    }
  }

  /** Whether the bytes `len` stand for n; they need not be the shortest that do. */
  predicate Encodes(len: seq<byte>, n: nat) {
    Lenenc(len) == Some((n, []))
  }

  lemma LenencTakesAPrefix(b: seq<byte>, n: nat, rest: seq<byte>)
    requires Lenenc(b) == Some((n, rest))
    ensures |rest| < |b| && b == b[..|b| - |rest|] + rest && Encodes(b[..|b| - |rest|], n)
  {
    var len := b[..|b| - |rest|];
    if b[0] == 0xfc {
      assert len[1..3] == b[1..3] && len[3..] == [];
    } else if b[0] == 0xfd {
      assert len[1..4] == b[1..4] && len[4..] == [];
    } else if b[0] == 0xfe {
      assert len[1..9] == b[1..9] && len[9..] == [];
    } else {
      assert len[1..] == [];
    }
  }

  lemma LenencIgnoresTheRest(len: seq<byte>, n: nat, rest: seq<byte>)
    requires Encodes(len, n)
    ensures Lenenc(len + rest) == Some((n, rest))
  {
    var b := len + rest;
    assert |len| >= 3 ==> len[1..3] == b[1..3];
    assert |len| >= 4 ==> len[1..4] == b[1..4];
    assert |len| >= 9 ==> len[1..9] == b[1..9];
  }

  /** The four ways to write a length: one byte that is no marker, or a marker and 2, 3 or 8 bytes; eight
      bytes are only read up to 2^20. */
  ghost predicate Writes(len: seq<byte>, n: nat) {
    || (n < 256 && n != 0xfc && n != 0xfd && n != 0xfe && len == [n])
    || (n < 0x1_0000 && len == [0xfc] + LittleEndian(n, 2))
    || (n < 0x100_0000 && len == [0xfd] + LittleEndian(n, 3))
    || (n <= 0x10_0000 && len == [0xfe] + LittleEndian(n, 8))
  }

  lemma WrittenIsRead(len: seq<byte>, n: nat)
    requires Writes(len, n)
    ensures Encodes(len, n)
  {
    hide Power256, FromLittleEndian, LittleEndian;
    Powers();
    if len[0] == 0xfc {
      LittleEndianRoundTrip(n, 2);
      assert len[1..3] == LittleEndian(n, 2) && len[3..] == [];
    } else if len[0] == 0xfd {
      LittleEndianRoundTrip(n, 3);
      assert len[1..4] == LittleEndian(n, 3) && len[4..] == [];
    } else if len[0] == 0xfe {
      LittleEndianRoundTrip(n, 8);
      assert len[1..9] == LittleEndian(n, 8) && len[9..] == [];
    } else {
      assert len[1..] == [];
    }
  }

  lemma ReadIsWritten(len: seq<byte>, n: nat)
    requires Encodes(len, n)
    ensures Writes(len, n)
  {
    hide Power256, FromLittleEndian, LittleEndian;
    Powers();
    if len[0] == 0xfc {
      FromLittleEndianRoundTrip(len[1..3]);
      assert len == [len[0]] + len[1..3];
    } else if len[0] == 0xfd {
      FromLittleEndianRoundTrip(len[1..4]);
      assert len == [len[0]] + len[1..4];
    } else if len[0] == 0xfe {
      FromLittleEndianRoundTrip(len[1..9]);
      assert len == [len[0]] + len[1..9];
    } else {
      assert len == [len[0]] + len[1..];
    }
  }

  /** A length is read exactly when it is written in one of the four ways, and what follows it is left. */
  lemma LenencIsExact(b: seq<byte>, n: nat, rest: seq<byte>)
    ensures Lenenc(b) == Some((n, rest)) <==> exists len :: Writes(len, n) && b == len + rest
  {
    hide Lenenc, Encodes, Writes;
    if Lenenc(b) == Some((n, rest)) {
      LenencTakesAPrefix(b, n, rest);
      ReadIsWritten(b[..|b| - |rest|], n);
    }
    if len :| Writes(len, n) && b == len + rest {
      WrittenIsRead(len, n);
      LenencIgnoresTheRest(len, n, rest);
    }
  }

  // ---- the response

  datatype Response = Response(cap: nat, username: seq<byte>, password: seq<byte>, database: seq<byte>)

  predicate Supported(cap: nat) {
    Has(cap, PROTOCOL_41) && Has(cap, PLUGIN_AUTH)
  }

  /** The length of the password field and the bytes from the password on, in each of the three layouts. */
  function PasswordField(cap: nat, rest: seq<byte>): Option<(nat, seq<byte>)> {
    if Has(cap, LENENC_CLIENT_DATA) then Lenenc(rest)
    else if Has(cap, SECURE_CONNECTION) then
      if rest == [] then None else Some((rest[0], rest[1..]))
    else
      match CString(rest)
      case None => None
      case Some((p, after)) => Some((|p|, p + after))
  }

  predicate CleartextPassword(p: seq<byte>) {
    p != [] && p[|p| - 1] == 0 && 0 !in p[..|p| - 1]
  }

  function Database(cap: nat, rest: seq<byte>): Option<(seq<byte>, seq<byte>)> {
    if Has(cap, CONNECT_WITH_DB) then CString(rest) else Some(([], rest))
  }

  function Parse(b: seq<byte>): Option<Response> {
    if |b| < 33 || !Supported(FromLittleEndian(b[..4])) then None
    else
      match CString(b[32..])
      case None => None
      case Some((user, rest)) => ParseFromPassword(FromLittleEndian(b[..4]), user, rest)
  }

  function ParseFromPassword(cap: nat, user: seq<byte>, rest: seq<byte>): Option<Response> {
    match PasswordField(cap, rest)
    case None => None
    case Some((n, field)) =>
      if n > |field| || !CleartextPassword(field[..n]) then None
      else
        match Database(cap, field[n..])
        case None => None
        case Some((db, after)) =>
          match CString(after)
          case None => None
          case Some((plugin, _)) =>
            if plugin == CLEAR_PASSWORD then Some(Response(cap, user, field[..n - 1], db)) else None
  }

  method MyHandshakeResponse(b: seq<byte>) returns (r: Option<Response>)
    ensures r == Parse(b)
  {
    if |b| < 33 {
      return None;
    }
    var cap := FromLittleEndian(b[..4]);
    if !Has(cap, PROTOCOL_41) || !Has(cap, PLUGIN_AUTH) {
      return None;
    }
    var rest := b[32..];
    var user := MyCString(rest);
    if user == None {
      return None;
    }
    rest := user.value.1;
    r := MyPassword(cap, user.value.0, rest);
  }

  /** The rest of myHandshakeResponse, from the password length on. */
  method MyPassword(cap: nat, username: seq<byte>, start: seq<byte>) returns (r: Option<Response>)
    requires Supported(cap)
    ensures r == ParseFromPassword(cap, username, start)
  {
    hide CString, Lenenc;
    var rest, n := start, 0;
    if Has(cap, LENENC_CLIENT_DATA) {
      var len := Lenenc(rest);
      if len == None {
        return None;
      }
      n, rest := len.value.0, len.value.1;
    } else if Has(cap, SECURE_CONNECTION) {
      if |rest| < 1 {
        return None;
      }
      n := rest[0];
      rest := rest[1..];
    } else {
      var p := MyCString(rest);
      if p == None {
        return None;
      }
      n := |p.value.0|;
      rest := p.value.0 + p.value.1;
    }
    assert PasswordField(cap, start) == Some((n, rest));
    if n > |rest| {
      return None;
    }
    var password := rest[..n];
    if !(n > 0 && password[n - 1] == 0) || 0 in password[..n - 1] {
      return None;
    }
    password := rest[..n - 1];
    rest := rest[n..];
    var database := [];
    if Has(cap, CONNECT_WITH_DB) {
      var db := MyCString(rest);
      if db == None {
        return None;
      }
      database, rest := db.value.0, db.value.1;
    }
    if Has(cap, PLUGIN_AUTH) {
      var plugin := MyCString(rest);
      if plugin == None || plugin.value.0 != CLEAR_PASSWORD {
        return None;
      }
    }
    return Some(Response(cap, username, password, database));
  }

  // ---- what is accepted

  /** `len` announces a password field of n bytes in one of the two length-prefixed layouts. */
  ghost predicate Announces(cap: nat, len: seq<byte>, n: nat) {
    if Flag(cap, LENENC_CLIENT_DATA) then Writes(len, n)
    else Flag(cap, SECURE_CONNECTION) && n < 256 && len == [n]
  }

  ghost function DatabaseField(r: Response): seq<byte> {
    if Flag(r.cap, CONNECT_WITH_DB) then r.database + [0] else []
  }

  /** The wire layout: 32 header bytes, user, password length and password, database, plugin, anything. */
  ghost function Layout(header: seq<byte>, len: seq<byte>, tail: seq<byte>, r: Response): seq<byte> {
    header + (r.username + [0] + (len + ((r.password + [0]) + (DatabaseField(r) + (CLEAR_PASSWORD + [0] + tail)))))
  }

  ghost predicate WellFormed(header: seq<byte>, len: seq<byte>, r: Response) {
    && |header| == 32 && r.cap == FromLittleEndian(header[..4])
    && Flag(r.cap, PROTOCOL_41) && Flag(r.cap, PLUGIN_AUTH)
    && 0 !in r.username && 0 !in r.password && 0 !in r.database
    && (!Flag(r.cap, CONNECT_WITH_DB) ==> r.database == [])
    && Announces(r.cap, len, |r.password| + 1)
  }

  ghost predicate LaidOut(b: seq<byte>, r: Response) {
    exists header, len, tail :: WellFormed(header, len, r) && b == Layout(header, len, tail, r)
  }

  lemma ClearPasswordHasNoNul()
    ensures 0 !in CLEAR_PASSWORD
  {
  }

  lemma ParseDatabase(r: Response, after: seq<byte>)
    requires 0 !in r.database && (!Flag(r.cap, CONNECT_WITH_DB) ==> r.database == [])
    ensures Database(r.cap, DatabaseField(r) + after) == Some((r.database, after))
  {
    hide Has, Flag, CString;
    FlagsAreRead(r.cap);
    if Has(r.cap, CONNECT_WITH_DB) {
      CStringOf(r.database, after);
    } else {
      assert DatabaseField(r) + after == after;
    }
  }

  lemma ParsePasswordField(cap: nat, len: seq<byte>, n: nat, rest: seq<byte>)
    requires Announces(cap, len, n)
    ensures PasswordField(cap, len + rest) == Some((n, rest))
  {
    hide Has, Flag, CString, Lenenc, Encodes, Writes;
    FlagsAreRead(cap);
    if Has(cap, LENENC_CLIENT_DATA) {
      WrittenIsRead(len, n);
      LenencIgnoresTheRest(len, n, rest);
    }
  }

  /** Whatever a client lays out in one of the length-prefixed layouts is parsed back to its fields. */
  lemma ParseLayout(header: seq<byte>, len: seq<byte>, tail: seq<byte>, r: Response)
    requires WellFormed(header, len, r)
    ensures Parse(Layout(header, len, tail, r)) == Some(r)
  {
    hide Has, Flag, Announces, DatabaseField, Lenenc, CString, PasswordField, Database;
    FlagsAreRead(r.cap);
    var b := Layout(header, len, tail, r);
    var plugin := CLEAR_PASSWORD + [0] + tail;
    var after := DatabaseField(r) + plugin;
    var field := (r.password + [0]) + after;
    CStringOf(r.username, len + field);
    ParsePasswordField(r.cap, len, |r.password| + 1, field);
    ParseDatabase(r, plugin);
    ClearPasswordHasNoNul();
    CStringOf(CLEAR_PASSWORD, tail);
    assert b[32..] == r.username + [0] + (len + field) && b[..4] == header[..4];
    assert field[..|r.password| + 1] == r.password + [0];
    assert field[|r.password| + 1..] == after && field[..|r.password|] == r.password;
  }

  lemma PasswordFieldTakesAPrefix(cap: nat, rest: seq<byte>, n: nat, field: seq<byte>)
    requires PasswordField(cap, rest) == Some((n, field)) && n <= |field| && CleartextPassword(field[..n])
    ensures |field| <= |rest| && rest == rest[..|rest| - |field|] + field
    ensures Announces(cap, rest[..|rest| - |field|], n)
  {
    hide Has, Flag, CString, Lenenc, Encodes, Writes;
    FlagsAreRead(cap);
    if Has(cap, LENENC_CLIENT_DATA) {
      LenencTakesAPrefix(rest, n, field);
      ReadIsWritten(rest[..|rest| - |field|], n);
    } else if Has(cap, SECURE_CONNECTION) {
      assert rest[..1] == [rest[0]];
    } else {
      CStringGives(rest);
      NulFreeIsNotCleartext(CString(rest).value.0, CString(rest).value.1);
    }
  }

  /** Why a NUL-terminated password never passes: its NUL is gone when the check asks for it. */
  lemma NulFreeIsNotCleartext(p: seq<byte>, after: seq<byte>)
    requires 0 !in p
    ensures !CleartextPassword((p + after)[..|p|])
  {
    assert (p + after)[..|p|] == p;
    assert p != [] ==> p[|p| - 1] in p;
  }

  lemma DatabaseGives(cap: nat, rest: seq<byte>, r: Response)
    requires r.cap == cap && Database(cap, rest).Some? && Database(cap, rest).value.0 == r.database
    ensures rest == DatabaseField(r) + Database(cap, rest).value.1 && 0 !in r.database
    ensures !Flag(cap, CONNECT_WITH_DB) ==> r.database == []
  {
    hide Has, Flag, CString;
    FlagsAreRead(cap);
    if Has(cap, CONNECT_WITH_DB) {
      CStringGives(rest);
    }
  }

  lemma SplitAt(b: seq<byte>, n: nat)
    requires n <= |b|
    ensures b == b[..n] + b[n..]
  {
  }

  lemma FieldsGive(cap: nat, user: seq<byte>, rest: seq<byte>) returns (len: seq<byte>, tail: seq<byte>)
    requires ParseFromPassword(cap, user, rest).Some?
    ensures var r := ParseFromPassword(cap, user, rest).value;
            && r.cap == cap && r.username == user && 0 !in r.password && 0 !in r.database
            && (!Flag(cap, CONNECT_WITH_DB) ==> r.database == [])
            && Announces(cap, len, |r.password| + 1)
            && rest == len + ((r.password + [0]) + (DatabaseField(r) + (CLEAR_PASSWORD + [0] + tail)))
  {
    hide Announces, PasswordField, Database, DatabaseField, CString, Has, Flag;
    var r := ParseFromPassword(cap, user, rest).value;
    var (n, field) := PasswordField(cap, rest).value;
    PasswordFieldTakesAPrefix(cap, rest, n, field);
    len := rest[..|rest| - |field|];
    DatabaseGives(cap, field[n..], r);
    var after := Database(cap, field[n..]).value.1;
    CStringGives(after);
    tail := CString(after).value.1;
    assert field[..n] == r.password + [0];
    SplitAt(field, n);
  }

  /** Everything accepted is laid out so, for every input; in particular the NUL-terminated password
      layout, whose NUL is stripped before it is demanded, is always refused. */
  lemma ParsedIsLaidOut(b: seq<byte>)
    requires Parse(b).Some?
    ensures LaidOut(b, Parse(b).value)
    ensures Flag(Parse(b).value.cap, LENENC_CLIENT_DATA) || Flag(Parse(b).value.cap, SECURE_CONNECTION)
  {
    hide Has, Flag, CString, Lenenc, Encodes, ParseFromPassword, DatabaseField, FromLittleEndian;
    FlagsAreRead(FromLittleEndian(b[..4]));
    var r := Parse(b).value;
    var header := b[..32];
    assert header[..4] == b[..4];
    CStringGives(b[32..]);
    var (user, rest) := CString(b[32..]).value;
    var len, tail := FieldsGive(FromLittleEndian(b[..4]), user, rest);
    assert WellFormed(header, len, r);
    assert b == header + (user + [0] + rest);
    assert b == Layout(header, len, tail, r);
  }

  /** The parser accepts exactly the well-formed responses, and reads each one way only. */
  lemma ParseIsExact(b: seq<byte>, r: Response)
    ensures Parse(b) == Some(r) <==> LaidOut(b, r)
  {
    if Parse(b) == Some(r) {
      ParsedIsLaidOut(b);
    }
    if LaidOut(b, r) {
      var header, len, tail :| WellFormed(header, len, r) && b == Layout(header, len, tail, r);
      ParseLayout(header, len, tail, r);
    }
  }
}
