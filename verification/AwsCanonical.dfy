/** The canonical query string of an RDS token (iamproxy/aws.go awsEncode, awsQuery). */
module AwsCanonical {
  import opened Common

  /** A Go string is a sequence of bytes; here a byte is a char below 256. */
  type bchar = c: char | c as int < 256 witness 'a'
  type Text = seq<bchar>

  // ---- percent-encoding, section 2.1 of RFC 3986

  const HEX: Text := "0123456789ABCDEF"

  predicate Unreserved(c: bchar) {
    'A' <= c <= 'Z' || 'a' <= c <= 'z' || '0' <= c <= '9' || c == '-' || c == '_' || c == '.' || c == '~'
  }

  function EncodeByte(c: bchar): Text {
    if Unreserved(c) then [c] else ['%', HEX[c as int / 16], HEX[c as int % 16]]
  }

  function Encode(s: Text): Text {
    if s == [] then [] else EncodeByte(s[0]) + Encode(s[1..])
  }

  lemma EncodeFrom(s: Text, i: nat, done: Text)
    requires i < |s|
    ensures done + Encode(s[i..]) == (done + EncodeByte(s[i])) + Encode(s[i + 1..])
  {
    assert s[i..][1..] == s[i + 1..];
  }

  lemma ThreeBytes(done: Text, x: bchar, y: bchar, z: bchar)
    ensures done + [x] + [y] + [z] == done + [x, y, z]
  {
  }

  /** A letter, a digit, or one of - . _ ~ (section 2.3 of RFC 3986), by their codes. */
  predicate Plain(c: bchar) {
    var n := c as int;
    65 <= n <= 90 || 97 <= n <= 122 || 48 <= n <= 57 || n == 45 || n == 46 || n == 95 || n == 126
  }

  /** How many bytes are not. */
  function Others(s: Text): nat {
    if s == [] then 0 else (if Plain(s[0]) then 0 else 1) + Others(s[1..])
  }

  /** The digit of n in upper-case hexadecimal. */
  function Digit(n: nat): bchar
    requires n < 16
  {
    if n < 10 then (48 + n) as bchar else (55 + n) as bchar
  }

  /** Plain bytes stay as they are, and every other byte becomes a percent sign and two digits. */
  lemma EncodeOne(c: bchar)
    ensures Encode([c]) == if Plain(c) then [c] else ['%', Digit(c as int / 16), Digit(c as int % 16)]
  {
    HexIsDigit(c as int / 16);
    HexIsDigit(c as int % 16);
    assert [c][1..] == [];
  }

  lemma HexIsDigit(n: nat)
    requires n < 16
    ensures HEX[n] == Digit(n)
  {
  }

  lemma {:induction false} EncodeConcat(s: Text, t: Text)
    ensures Encode(s + t) == Encode(s) + Encode(t)
  {
    hide EncodeByte;
    if s == [] {
      assert s + t == t;
    } else {
      EncodeConcat(s[1..], t);
      assert (s + t)[1..] == s[1..] + t;
      assert EncodeByte(s[0]) + (Encode(s[1..]) + Encode(t)) == Encode(s) + Encode(t);
    }
  }

  lemma {:induction false} EncodeGrows(s: Text)
    ensures |Encode(s)| == |s| + 2 * Others(s)
    ensures Others(s) == 0 <==> forall c :: c in s ==> Plain(c)
    ensures Others(s) == 0 ==> Encode(s) == s
  {
    if s != [] {
      EncodeGrows(s[1..]);
      EncodeOne(s[0]);
      EncodeConcat([s[0]], s[1..]);
      assert s == [s[0]] + s[1..];
    }
  }

  method AwsEncode(s: Text) returns (b: Text)
    ensures b == Encode(s)
    ensures b == s <==> forall c :: c in s ==> Plain(c)
    ensures |b| == |s| + 2 * Others(s)
  {
    hide Plain, Others, Unreserved;
    b := [];
    for i := 0 to |s|
      invariant b + Encode(s[i..]) == Encode(s)
    {
      var c := s[i];
      EncodeFrom(s, i, b);
      if Unreserved(c) {
        b := b + [c];
      } else {
        ThreeBytes(b, '%', HEX[c as int / 16], HEX[c as int % 16]);
        b := b + ['%'];
        b := b + [HEX[c as int / 16]];
        b := b + [HEX[c as int % 16]];
      }
    }
    assert b + [] == b;
    EncodeGrows(s);
  }

  function HexValue(c: bchar): Option<int> {
    if '0' <= c <= '9' then Some(c as int - '0' as int)
    else if 'A' <= c <= 'F' then Some(c as int - 'A' as int + 10)
    else None
  }

  /** Percent-decoding, the inverse. */
  function Decode(t: Text): Option<Text>
    decreases |t|
  {
    if t == [] then Some([])
    else if t[0] != '%' then
      (match Decode(t[1..])
       case None => None
       case Some(r) => Some([t[0]] + r))
    else if |t| < 3 || HexValue(t[1]) == None || HexValue(t[2]) == None then None
    else
      match Decode(t[3..])
      case None => None
      case Some(r) => Some([(16 * HexValue(t[1]).value + HexValue(t[2]).value) as bchar] + r)
  }

  lemma HexDigits(n: nat)
    requires n < 16
    ensures HexValue(HEX[n]) == Some(n)
    ensures HEX[n] != '&' && HEX[n] != '='
  {
  }

  lemma DecodeByte(c: bchar, t: Text)
    ensures Decode(EncodeByte(c) + t) == match Decode(t) { case None => None case Some(r) => Some([c] + r) }
  {
    var e := EncodeByte(c) + t;
    if Unreserved(c) {
      assert e[1..] == t;
    } else {
      HexDigits(c as int / 16);
      HexDigits(c as int % 16);
      assert e[3..] == t;
    }
  }

  lemma {:induction false} DecodeEncode(s: Text)
    ensures Decode(Encode(s)) == Some(s)
  {
    if s != [] {
      var c := s[0];
      DecodeEncode(s[1..]);
      DecodeByte(c, Encode(s[1..]));
      assert s == [c] + s[1..];
    }
  }

  lemma EncodeIsInjective(s: Text, t: Text)
    requires Encode(s) == Encode(t)
    ensures s == t
  {
    DecodeEncode(s);
    DecodeEncode(t);
  }

  /** Separators never occur in an encoded string. */
  lemma {:induction false} NoSeparators(s: Text)
    ensures '&' !in Encode(s) && '=' !in Encode(s)
  {
    if s != [] {
      NoSeparators(s[1..]);
      HexDigits(s[0] as int / 16);
      HexDigits(s[0] as int % 16);
    }
  }

  // ---- byte order and sorting

  predicate Leq(a: Text, b: Text) {
    a == [] || (b != [] && (a[0] < b[0] || (a[0] == b[0] && Leq(a[1..], b[1..]))))
  }

  /** One is the start of the other, or they first differ in a smaller byte. */
  ghost predicate Before(a: Text, b: Text) {
    a <= b || exists i: nat :: i < |a| && i < |b| && a[..i] == b[..i] && a[i] < b[i]
  }

  lemma {:induction false} LeqIsByteOrder(a: Text, b: Text)
    ensures Leq(a, b) <==> Before(a, b)
  {
    if a != [] && b != [] && a[0] == b[0] {
      LeqIsByteOrder(a[1..], b[1..]);
      assert a <= b <==> a[1..] <= b[1..] by {
        assert a == [a[0]] + a[1..] && b == [b[0]] + b[1..];
      }
      if i: nat :| i < |a[1..]| && i < |b[1..]| && a[1..][..i] == b[1..][..i] && a[1..][i] < b[1..][i] {
        assert a[..i + 1] == [a[0]] + a[1..][..i] && b[..i + 1] == [b[0]] + b[1..][..i];
        assert a[i + 1] < b[i + 1];
      }
      if i: nat :| i < |a| && i < |b| && a[..i] == b[..i] && a[i] < b[i] {
        assert i > 0;
        assert a[1..][..i - 1] == a[..i][1..] && b[1..][..i - 1] == b[..i][1..];
        assert a[1..][i - 1] < b[1..][i - 1];
      }
    } else if a != [] && b != [] {
      assert a[..0] == b[..0];
      assert forall i: nat :: 0 < i < |a| && i < |b| && a[..i] == b[..i] ==> a[..i][0] == b[..i][0];
    }
  }

  ghost predicate TotalOrder<T(!new)>(leq: (T, T) -> bool) {
    && (forall x, y :: leq(x, y) || leq(y, x))
    && (forall x, y :: leq(x, y) && leq(y, x) ==> x == y)
    && (forall x, y, z :: leq(x, y) && leq(y, z) ==> leq(x, z))
  }

  lemma {:induction false} LeqTotal(a: Text, b: Text)
    ensures Leq(a, b) || Leq(b, a)
  {
    if a != [] && b != [] { LeqTotal(a[1..], b[1..]); }
  }

  lemma {:induction false} LeqAntisymmetric(a: Text, b: Text)
    requires Leq(a, b) && Leq(b, a)
    ensures a == b
  {
    if a != [] && b != [] {
      LeqAntisymmetric(a[1..], b[1..]);
      assert a == [a[0]] + a[1..] && b == [b[0]] + b[1..];
    }
  }

  lemma {:induction false} LeqTransitive(a: Text, b: Text, c: Text)
    requires Leq(a, b) && Leq(b, c)
    ensures Leq(a, c)
  {
    if a != [] && b != [] && c != [] && a[0] == b[0] == c[0] { LeqTransitive(a[1..], b[1..], c[1..]); }
  }

  lemma LeqIsTotalOrder()
    ensures TotalOrder(Leq)
  {
    forall a, b ensures Leq(a, b) || Leq(b, a) { LeqTotal(a, b); }
    forall a, b | Leq(a, b) && Leq(b, a) ensures a == b { LeqAntisymmetric(a, b); }
    forall a, b, c | Leq(a, b) && Leq(b, c) ensures Leq(a, c) { LeqTransitive(a, b, c); }
  }

  ghost predicate Sorted<T(!new)>(s: seq<T>, leq: (T, T) -> bool) {
    forall i, j :: 0 <= i < j < |s| ==> leq(s[i], s[j])
  }

  function Insert<T>(x: T, s: seq<T>, leq: (T, T) -> bool): seq<T> {
    if s == [] || leq(x, s[0]) then [x] + s else [s[0]] + Insert(x, s[1..], leq)
  }

  /** sort.Strings, for any order. */
  function Sort<T>(s: seq<T>, leq: (T, T) -> bool): seq<T> {
    if s == [] then [] else Insert(s[0], Sort(s[1..], leq), leq)
  }

  lemma SortedTail<T(!new)>(a: seq<T>, leq: (T, T) -> bool)
    requires a != [] && Sorted(a, leq)
    ensures Sorted(a[1..], leq)
  {
  }

  lemma {:induction false} InsertSorts<T(!new)>(x: T, s: seq<T>, leq: (T, T) -> bool)
    requires TotalOrder(leq) && Sorted(s, leq)
    ensures Sorted(Insert(x, s, leq), leq)
    ensures multiset(Insert(x, s, leq)) == multiset(s) + multiset{x}
  {
    if s == [] || leq(x, s[0]) {
      forall j | 0 <= j < |s| ensures leq(x, s[j]) {
        if j > 0 { assert leq(s[0], s[j]); }
      }
      Prepend(x, s, leq);
    } else {
      SortedTail(s, leq);
      InsertSorts(x, s[1..], leq);
      assert s == [s[0]] + s[1..];
      LeastStaysLeast(x, s, Insert(x, s[1..], leq), leq);
      Prepend(s[0], Insert(x, s[1..], leq), leq);
    }
  }

  lemma Prepend<T(!new)>(x: T, s: seq<T>, leq: (T, T) -> bool)
    requires Sorted(s, leq) && forall j :: 0 <= j < |s| ==> leq(x, s[j])
    ensures Sorted([x] + s, leq)
  {
  }

  lemma LeastStaysLeast<T(!new)>(x: T, s: seq<T>, t: seq<T>, leq: (T, T) -> bool)
    requires s != [] && Sorted(s, leq) && leq(s[0], x) && multiset(t) == multiset(s[1..]) + multiset{x}
    ensures forall j :: 0 <= j < |t| ==> leq(s[0], t[j])
  {
    forall j | 0 <= j < |t| ensures leq(s[0], t[j]) {
      assert t[j] in multiset(t);
      assert t[j] == x || t[j] in s[1..];
      if t[j] in s[1..] {
        var m :| 0 <= m < |s[1..]| && s[1..][m] == t[j];
        assert leq(s[0], s[m + 1]);
      }
    }
  }

  lemma {:induction false} SortSorts<T(!new)>(s: seq<T>, leq: (T, T) -> bool)
    requires TotalOrder(leq)
    ensures Sorted(Sort(s, leq), leq) && multiset(Sort(s, leq)) == multiset(s)
  {
    if s != [] {
      SortSorts(s[1..], leq);
      InsertSorts(s[0], Sort(s[1..], leq), leq);
      assert s == [s[0]] + s[1..];
    }
  }

  lemma FirstIsLeast<T(!new)>(a: seq<T>, b: seq<T>, leq: (T, T) -> bool)
    requires TotalOrder(leq) && Sorted(a, leq) && Sorted(b, leq) && multiset(a) == multiset(b) && a != [] && b != []
    ensures a[0] == b[0]
  {
    assert a[0] in multiset(b) && b[0] in multiset(a);
    var i :| 0 <= i < |b| && b[i] == a[0];
    var j :| 0 <= j < |a| && a[j] == b[0];
    assert i > 0 ==> leq(b[0], b[i]);
    assert j > 0 ==> leq(a[0], a[j]);
  }

  lemma TailCount<T>(a: seq<T>)
    requires a != []
    ensures multiset(a[1..]) == multiset(a) - multiset{a[0]}
  {
    assert a == [a[0]] + a[1..];
  }

  /** A multiset has one sorted arrangement. */
  lemma {:induction false} SortedIsUnique<T(!new)>(a: seq<T>, b: seq<T>, leq: (T, T) -> bool)
    requires TotalOrder(leq) && Sorted(a, leq) && Sorted(b, leq) && multiset(a) == multiset(b)
    ensures a == b
  {
    hide TotalOrder, Sorted;
    assert |multiset(a)| == |a| && |multiset(b)| == |b|;
    if a != [] {
      SortedTail(a, leq);
      SortedTail(b, leq);
      FirstIsLeast(a, b, leq);
      TailCount(a);
      TailCount(b);
      SortedIsUnique(a[1..], b[1..], leq);
      assert a == [a[0]] + a[1..] && b == [b[0]] + b[1..];
    }
  }

  // ---- the canonical query

  type Pair = (Text, Text)

  function Joined(p: Pair): Text {
    Encode(p.0) + "=" + Encode(p.1)
  }

  function Map<A, B>(f: A -> B, s: seq<A>): (r: seq<B>)
    ensures |r| == |s| && forall i :: 0 <= i < |s| ==> r[i] == f(s[i])
  {
    seq(|s|, i requires 0 <= i < |s| => f(s[i]))
  }

  /** strings.Join(ss, "&") */
  function Join(ss: seq<Text>): Text {
    if ss == [] then [] else if |ss| == 1 then ss[0] else ss[0] + "&" + Join(ss[1..])
  }

  /** The query string for a list of key/value pairs. */
  function Canonical(ps: seq<Pair>): Text {
    Join(Sort(Map(Joined, ps), Leq))
  }

  /** ps lists the pairs of a url.Values, in some order. */
  ghost predicate Lists(v: map<Text, seq<Text>>, ps: seq<Pair>) {
    forall k, x :: multiset(ps)[(k, x)] == if k in v then multiset(v[k])[x] else 0
  }

  function Without<T>(t: seq<T>, i: nat): seq<T>
    requires i < |t|
  {
    t[..i] + t[i + 1..]
  }

  lemma WithoutCount<T>(t: seq<T>, i: nat)
    requires i < |t|
    ensures multiset(t) == multiset(Without(t, i)) + multiset{t[i]}
    ensures multiset(Without(t, i)) == multiset(t) - multiset{t[i]}
  {
    assert t == t[..i] + [t[i]] + t[i + 1..];
    assert multiset(t) == multiset(t[..i]) + multiset{t[i]} + multiset(t[i + 1..]);
  }

  lemma MapWithout<A, B>(f: A -> B, t: seq<A>, i: nat)
    requires i < |t|
    ensures Map(f, Without(t, i)) == Without(Map(f, t), i)
  {
  }

  lemma {:induction false} MapPermutes<A, B>(f: A -> B, s: seq<A>, t: seq<A>)
    requires multiset(s) == multiset(t)
    ensures multiset(Map(f, s)) == multiset(Map(f, t))
  {
    assert |multiset(s)| == |s| && |multiset(t)| == |t|;
    if s != [] {
      assert s[0] in multiset(t);
      var i :| 0 <= i < |t| && t[i] == s[0];
      WithoutCount(s, 0);
      WithoutCount(t, i);
      MapPermutes(f, Without(s, 0), Without(t, i));
      MapWithout(f, s, 0);
      MapWithout(f, t, i);
      WithoutCount(Map(f, s), 0);
      WithoutCount(Map(f, t), i);
    }
  }

  lemma CanonicalIgnoresOrder(ps: seq<Pair>, qs: seq<Pair>)
    requires multiset(ps) == multiset(qs)
    ensures Canonical(ps) == Canonical(qs)
  {
    LeqIsTotalOrder();
    MapPermutes(Joined, ps, qs);
    SortSorts(Map(Joined, ps), Leq);
    SortSorts(Map(Joined, qs), Leq);
    SortedIsUnique(Sort(Map(Joined, ps), Leq), Sort(Map(Joined, qs), Leq), Leq);
  }

  lemma ListsAgree(v: map<Text, seq<Text>>, ps: seq<Pair>, qs: seq<Pair>)
    requires Lists(v, ps) && Lists(v, qs)
    ensures multiset(ps) == multiset(qs)
  {
    forall p: Pair ensures multiset(ps)[p] == multiset(qs)[p] {
      assert p == (p.0, p.1);
    }
  }

  function PairsOf(k: Text, values: seq<Text>): seq<Pair> {
    Map(x => (k, x), values)
  }

  lemma {:induction false} PairsOfCount(k: Text, values: seq<Text>, k': Text, x: Text)
    ensures multiset(PairsOf(k, values))[(k', x)] == if k' == k then multiset(values)[x] else 0
  {
    if values != [] {
      var n := |values| - 1;
      PairsOfCount(k, values[..n], k', x);
      assert values == values[..n] + [values[n]];
      assert PairsOf(k, values) == PairsOf(k, values[..n]) + [(k, values[n])];
    }
  }

  /** The inner loop of awsQuery. */
  method AppendPairs(k: Text, values: seq<Text>, pairs: seq<Text>, ghost ps: seq<Pair>) returns (pairs': seq<Text>)
    requires pairs == Map(Joined, ps)
    ensures pairs' == Map(Joined, ps + PairsOf(k, values))
  {
    hide Plain, Others, Encode;
    pairs' := pairs;
    for i := 0 to |values|
      invariant pairs' == Map(Joined, ps + PairsOf(k, values[..i]))
    {
      var a := AwsEncode(k);
      var b := AwsEncode(values[i]);
      assert values[..i + 1] == values[..i] + [values[i]];
      assert PairsOf(k, values[..i + 1]) == PairsOf(k, values[..i]) + [(k, values[i])];
      pairs' := pairs' + [a + "=" + b];
    }
    assert values[..|values|] == values;
  }

  /** awsQuery: the keys come in whatever order the map yields them. */
  method AwsQuery(v: map<Text, seq<Text>>) returns (q: Text)
    ensures forall ps :: Lists(v, ps) ==> q == Canonical(ps)
  {
    var pairs: seq<Text> := [];
    ghost var ps: seq<Pair> := [];
    var keys := v.Keys;
    while keys != {}
      invariant keys <= v.Keys
      invariant pairs == Map(Joined, ps)
      invariant forall k, x :: multiset(ps)[(k, x)] == if k in v && k !in keys then multiset(v[k])[x] else 0
      decreases |keys|
    {
      var k :| k in keys;
      pairs := AppendPairs(k, v[k], pairs, ps);
      forall k', x
        ensures multiset(ps + PairsOf(k, v[k]))[(k', x)] ==
                  if k' in v && k' !in keys - {k} then multiset(v[k'])[x] else 0
      {
        PairsOfCount(k, v[k], k', x);
      }
      ps := ps + PairsOf(k, v[k]);
      keys := keys - {k};
    }
    pairs := Sort(pairs, Leq);
    q := Join(pairs);
    assert Lists(v, ps);
    forall qs | Lists(v, qs) ensures q == Canonical(qs) {
      ListsAgree(v, ps, qs);
      CanonicalIgnoresOrder(ps, qs);
    }
  }

  // ---- the query string determines the pairs

  lemma SeparatorInLonger(a: Text, c: bchar, rest: Text, a': Text, rest': Text)
    requires a + [c] + rest == a' + [c] + rest' && |a| < |a'|
    ensures c in a'
  {
    assert a'[|a|] == (a' + [c] + rest')[|a|] == (a + [c] + rest)[|a|];
  }

  lemma FirstSeparator(a: Text, c: bchar, rest: Text, a': Text, rest': Text)
    requires c !in a && c !in a' && a + [c] + rest == a' + [c] + rest'
    ensures a == a' && rest == rest'
  {
    var s := a + [c] + rest;
    assert s[..|a|] == a && s[..|a'|] == a';
    assert s[|a| + 1..] == rest && s[|a'| + 1..] == rest';
    if |a| < |a'| {
      SeparatorInLonger(a, c, rest, a', rest');
    } else if |a'| < |a| {
      SeparatorInLonger(a', c, rest', a, rest);
    }
  }

  lemma JoinedIsInjective(p: Pair, q: Pair)
    requires Joined(p) == Joined(q)
    ensures p == q
  {
    NoSeparators(p.0);
    NoSeparators(q.0);
    FirstSeparator(Encode(p.0), '=', Encode(p.1), Encode(q.0), Encode(q.1));
    EncodeIsInjective(p.0, q.0);
    EncodeIsInjective(p.1, q.1);
  }

  /** Pieces that Join can be undone on. */
  predicate Piece(s: Text) {
    s != [] && '&' !in s
  }

  lemma JoinedIsPiece(p: Pair)
    ensures Piece(Joined(p))
  {
    NoSeparators(p.0);
    NoSeparators(p.1);
  }

  lemma {:induction false} JoinIsInjective(a: seq<Text>, b: seq<Text>)
    requires (forall x :: x in a ==> Piece(x)) && (forall x :: x in b ==> Piece(x)) && Join(a) == Join(b)
    ensures a == b
  {
    JoinStart(a);
    JoinStart(b);
    if |a| >= 1 && |b| >= 1 {
      assert Piece(a[0]) && Piece(b[0]);
      if |a| > 1 && |b| > 1 {
        FirstSeparator(a[0], '&', Join(a[1..]), b[0], Join(b[1..]));
        JoinIsInjective(a[1..], b[1..]);
        assert a == [a[0]] + a[1..] && b == [b[0]] + b[1..];
      }
    }
  }

  lemma JoinStart(a: seq<Text>)
    requires forall x :: x in a ==> Piece(x)
    ensures Join(a) == [] <==> a == []
    ensures |a| > 1 ==> Join(a) == a[0] + ['&'] + Join(a[1..]) && '&' in Join(a)
    ensures |a| == 1 ==> '&' !in Join(a)
  {
    if a != [] { assert Piece(a[0]); }
    if |a| > 1 { assert Join(a)[|a[0]|] == '&'; }
  }

  lemma {:induction false} MapInjective(ps: seq<Pair>, qs: seq<Pair>)
    requires multiset(Map(Joined, ps)) == multiset(Map(Joined, qs))
    ensures multiset(ps) == multiset(qs)
  {
    assert |multiset(Map(Joined, ps))| == |ps| && |multiset(Map(Joined, qs))| == |qs|;
    if ps != [] {
      assert Map(Joined, ps)[0] in multiset(Map(Joined, qs));
      var i :| 0 <= i < |qs| && Map(Joined, qs)[i] == Map(Joined, ps)[0];
      JoinedIsInjective(ps[0], qs[i]);
      WithoutCount(Map(Joined, ps), 0);
      WithoutCount(Map(Joined, qs), i);
      MapWithout(Joined, ps, 0);
      MapWithout(Joined, qs, i);
      MapInjective(Without(ps, 0), Without(qs, i));
      WithoutCount(ps, 0);
      WithoutCount(qs, i);
    }
  }

  lemma SortedPieces(ps: seq<Pair>)
    ensures var ss := Sort(Map(Joined, ps), Leq);
            && Sorted(ss, Leq) && multiset(ss) == multiset(Map(Joined, ps)) && forall x :: x in ss ==> Piece(x)
  {
    LeqIsTotalOrder();
    SortSorts(Map(Joined, ps), Leq);
    var ss := Sort(Map(Joined, ps), Leq);
    forall x | x in ss ensures Piece(x) {
      assert x in multiset(ss);
      assert x in Map(Joined, ps);
      var i :| 0 <= i < |ps| && Map(Joined, ps)[i] == x;
      JoinedIsPiece(ps[i]);
    }
  }

  /** Two lists of pairs have the same query string exactly when they hold the same pairs equally often. */
  lemma CanonicalIsExact(ps: seq<Pair>, qs: seq<Pair>)
    ensures Canonical(ps) == Canonical(qs) <==> multiset(ps) == multiset(qs)
  {
    if Canonical(ps) == Canonical(qs) {
      SortedPieces(ps);
      SortedPieces(qs);
      JoinIsInjective(Sort(Map(Joined, ps), Leq), Sort(Map(Joined, qs), Leq));
      MapInjective(ps, qs);
    }
    if multiset(ps) == multiset(qs) {
      CanonicalIgnoresOrder(ps, qs);
    }
  }

  // ---- the order SigV4 asks for

  /** By encoded key, then by encoded value. */
  predicate PairLeq(p: Pair, q: Pair) {
    if p.0 == q.0 then Leq(Encode(p.1), Encode(q.1)) else Leq(Encode(p.0), Encode(q.0))
  }

  function SigV4(ps: seq<Pair>): Text {
    Join(Map(Joined, Sort(ps, PairLeq)))
  }

  /** Encoded key a is a proper prefix of b, and b goes on with a byte below '='. */
  predicate Undercuts(a: Text, b: Text) {
    var (x, y) := (Encode(a), Encode(b));
    x < y && y[|x|] < '='
  }

  lemma PairLeqIsTotalOrder()
    ensures TotalOrder(PairLeq)
  {
    LeqIsTotalOrder();
    forall p, q | PairLeq(p, q) && PairLeq(q, p) ensures p == q {
      if p.0 == q.0 { EncodeIsInjective(p.1, q.1); } else { EncodeIsInjective(p.0, q.0); }
    }
    forall p, q, r | PairLeq(p, q) && PairLeq(q, r) ensures PairLeq(p, r) {
      if p.0 != q.0 && q.0 != r.0 {
        if p.0 == r.0 { EncodeIsInjective(p.0, q.0); }
      }
    }
  }

  lemma LeqSameHead(c: bchar, a: Text, b: Text)
    ensures Leq([c] + a, [c] + b) <==> Leq(a, b)
  {
    assert ([c] + a)[1..] == a && ([c] + b)[1..] == b;
  }

  lemma {:induction false} LeqPrefix(x: Text, a: Text, b: Text)
    ensures Leq(x + a, x + b) <==> Leq(a, b)
  {
    hide Leq;
    if x == [] {
      assert x + a == a && x + b == b;
    } else {
      LeqPrefix(x[1..], a, b);
      LeqSameHead(x[0], x[1..] + a, x[1..] + b);
      assert x + a == [x[0]] + (x[1..] + a) && x + b == [x[0]] + (x[1..] + b);
    }
  }

  /** Two different keys without '=' compare as they are, or one extends the other and the next byte
      is compared with '='. */
  lemma {:induction false} JoinedOrder(x: Text, a: Text, y: Text, b: Text)
    requires '=' !in x && '=' !in y && x != y
    ensures Leq(x + "=" + a, y + "=" + b) <==>
              if x < y then '=' < y[|x|] else if y < x then x[|y|] < '=' else Leq(x, y)
  {
    if x == [] {
      assert y[0] in y;
      assert (x + "=" + a)[0] == '=' && (y + "=" + b)[0] == y[0];
    } else if y == [] {
      assert x[0] in x;
      assert (x + "=" + a)[0] == x[0] && (y + "=" + b)[0] == '=';
    } else {
      var (x', y') := (x[1..], y[1..]);
      assert x == [x[0]] + x' && y == [y[0]] + y';
      assert (x + "=" + a)[1..] == x' + "=" + a && (y + "=" + b)[1..] == y' + "=" + b;
      assert (x + "=" + a)[0] == x[0] && (y + "=" + b)[0] == y[0];
      if x[0] == y[0] {
        JoinedOrder(x', a, y', b);
        assert x < y <==> x' < y';
        assert y < x <==> y' < x';
      }
    }
  }

  lemma JoinedOrderSameKey(x: Text, a: Text, b: Text)
    ensures Leq(x + "=" + a, x + "=" + b) <==> Leq(a, b)
  {
    LeqPrefix(x + "=", a, b);
  }

  /** With keys x and y: the joined order is the order of the keys unless one undercuts the other. */
  lemma {:induction false} JoinedOrderOtherKey(x: Text, a: Text, y: Text, b: Text)
    requires '=' !in x && '=' !in y && x != y
    ensures (Leq(x + "=" + a, y + "=" + b) <==> Leq(x, y)) <==>
              !((x < y && y[|x|] < '=') || (y < x && x[|y|] < '='))
  {
    JoinedOrder(x, a, y, b);
    if x < y {
      PrefixIsLeq(x, y);
      assert y[|x|] in y;
    } else if y < x {
      PrefixIsLeq(y, x);
      assert x[|y|] in x;
    }
  }

  /** The two orders differ on two pairs exactly when one key undercuts the other. */
  lemma OrdersAgreeIff(p: Pair, q: Pair)
    ensures (Leq(Joined(p), Joined(q)) <==> PairLeq(p, q)) <==> !(Undercuts(p.0, q.0) || Undercuts(q.0, p.0))
  {
    if p.0 == q.0 {
      JoinedOrderSameKey(Encode(p.0), Encode(p.1), Encode(q.1));
    } else {
      NoSeparators(p.0);
      NoSeparators(q.0);
      if Encode(p.0) == Encode(q.0) { EncodeIsInjective(p.0, q.0); }
      JoinedOrderOtherKey(Encode(p.0), Encode(p.1), Encode(q.0), Encode(q.1));
    }
  }

  lemma {:induction false} PrefixIsLeq(x: Text, y: Text)
    requires x < y
    ensures Leq(x, y) && !Leq(y, x)
  {
    if x != [] {
      PrefixIsLeq(x[1..], y[1..]);
    }
  }

  ghost predicate NoUndercut(ps: seq<Pair>) {
    forall p, q :: p in ps && q in ps ==> !Undercuts(p.0, q.0)
  }

  lemma SortKeepsMembers(ps: seq<Pair>)
    ensures Sorted(Sort(ps, PairLeq), PairLeq) && multiset(Sort(ps, PairLeq)) == multiset(ps)
    ensures forall p :: p in Sort(ps, PairLeq) <==> p in ps
  {
    PairLeqIsTotalOrder();
    SortSorts(ps, PairLeq);
    assert forall p :: p in Sort(ps, PairLeq) <==> p in multiset(Sort(ps, PairLeq));
    assert forall p :: p in ps <==> p in multiset(ps);
  }

  lemma UndercutIsOutOfOrder(p: Pair, q: Pair)
    requires Undercuts(p.0, q.0)
    ensures PairLeq(p, q) && !PairLeq(q, p) && !Leq(Joined(p), Joined(q))
  {
    PrefixIsLeq(Encode(p.0), Encode(q.0));
    OrdersAgreeIff(p, q);
  }

  /** The query string is in the order SigV4 asks for exactly when no key undercuts another; keys of
      which none is a proper prefix of another never do. */
  lemma CanonicalIsSigV4Iff(ps: seq<Pair>)
    ensures Canonical(ps) == SigV4(ps) <==> NoUndercut(ps)
  {
    var sorted := Sort(ps, PairLeq);
    var joined := Map(Joined, sorted);
    SortKeepsMembers(ps);
    MapPermutes(Joined, sorted, ps);
    SortedPieces(ps);
    forall x | x in joined ensures Piece(x) {
      var i :| 0 <= i < |joined| && joined[i] == x;
      JoinedIsPiece(sorted[i]);
    }
    if NoUndercut(ps) {
      forall i, j | 0 <= i < j < |joined| ensures Leq(joined[i], joined[j]) {
        assert sorted[i] in ps && sorted[j] in ps;
        OrdersAgreeIff(sorted[i], sorted[j]);
      }
      LeqIsTotalOrder();
      SortedIsUnique(joined, Sort(Map(Joined, ps), Leq), Leq);
    }
    if Canonical(ps) == SigV4(ps) {
      JoinIsInjective(Sort(Map(Joined, ps), Leq), joined);
      forall p, q | p in ps && q in ps ensures !Undercuts(p.0, q.0) {
        if Undercuts(p.0, q.0) {
          UndercutIsOutOfOrder(p, q);
          LeqIsTotalOrder();
          PairLeqIsTotalOrder();
          InOrder(sorted, joined, p, q);
        }
      }
    }
  }

  lemma InOrder(sorted: seq<Pair>, joined: seq<Text>, p: Pair, q: Pair)
    requires p in sorted && q in sorted && joined == Map(Joined, sorted)
    requires Sorted(sorted, PairLeq) && Sorted(joined, Leq) && PairLeq(p, q) && !PairLeq(q, p)
    ensures Leq(Joined(p), Joined(q))
  {
    var i :| 0 <= i < |sorted| && sorted[i] == p;
    var j :| 0 <= j < |sorted| && sorted[j] == q;
    assert i != j && !(j < i);
    assert Leq(joined[i], joined[j]);
  }

  /** Two keys that do: "a" sorts before "a1", but "a=" sorts after "a1=". */
  lemma AnUndercut()
    ensures Undercuts("a", "a1")
  {
    assert Encode("a") == "a" && Encode("a1") == "a1" by {
      assert "a1"[1..] == "1";
      assert Encode("1") == "1";
    }
  }
}
