/** A net.Conn as the codecs see it, and the integers that travel on it. */
module Wire {
  import opened Common

  /** As much of s as fits. */
  function Cut(s: seq<byte>, room: nat): seq<byte> {
    s[..Min(|s|, room)]
  }

  lemma CutConcat(a: seq<byte>, b: seq<byte>, room: nat)
    ensures Cut(a + b, room) == Cut(a, room) + Cut(b, room - |Cut(a, room)|)
  {
    if room < |a| {
      assert (a + b)[..room] == a[..room];
    }
  }

  /** `input` is what the peer will have sent before it stops; `room` is how many more bytes it will
      take before writes to it fail. */
  class Conn {
    var input: seq<byte>
    var output: seq<byte>
    var room: nat

    constructor (input: seq<byte>, room: nat)
      ensures this.input == input && this.output == [] && this.room == room
    {
      this.input, this.output, this.room := input, [], room;
    }

    /** io.ReadFull: all n bytes, or an error that has used up what was left. */
    method ReadFull(n: nat) returns (b: Option<seq<byte>>)
      modifies this`input
      ensures n <= |old(input)| ==> b == Some(old(input)[..n]) && input == old(input)[n..]
      ensures n > |old(input)| ==> b == None && input == []
    {
      if n <= |input| {
        b := Some(input[..n]);
        input := input[n..];
      } else {
        b := None;
        input := [];
      }
    }

    method Write(b: seq<byte>) returns (ok: bool)
      modifies this`output, this`room
      ensures output == old(output) + Cut(b, old(room))
      ensures room == old(room) - |Cut(b, old(room))|
      ensures ok <==> |b| <= old(room)
    {
      var n := Min(|b|, room);
      output := output + b[..n];
      room := room - n;
      ok := n == |b|;
    }
  }

  /** The bytes of an ASCII literal. */
  function Ascii(s: string): (b: seq<byte>)
    requires forall i :: 0 <= i < |s| ==> s[i] as int < 128
    ensures |b| == |s| && forall i :: 0 <= i < |s| ==> b[i] == s[i] as int
  {
    seq(|s|, i requires 0 <= i < |s| => s[i] as int)
  }

  /** An unsigned number in n bytes, least significant first. */
  function LittleEndian(x: nat, n: nat): (b: seq<byte>)
    ensures |b| == n
  {
    if n == 0 then [] else [x % 256] + LittleEndian(x / 256, n - 1)
  }

  function FromLittleEndian(b: seq<byte>): nat {
    if b == [] then 0 else b[0] + 256 * FromLittleEndian(b[1..])
  }

  function Power256(n: nat): (p: nat)
    ensures p > 0
  {
    if n == 0 then 1 else 256 * Power256(n - 1)
  }

  /** Byte i is digit i to the base 256. */
  lemma {:induction false} LittleEndianAt(x: nat, n: nat, i: nat)
    requires i < n
    ensures LittleEndian(x, n)[i] == x / Power256(i) % 256
  {
    if i > 0 {
      LittleEndianAt(x / 256, n - 1, i - 1);
      DivTwice(x, Power256(i - 1));
    }
  }

  lemma DivTwice(x: nat, b: nat)
    requires b > 0
    ensures x / 256 / b == x / (256 * b)
  {
    var (q, r) := (x / 256 / b, x / 256 % b);
    Shift(q, b);
    assert x / 256 == q * b + r;
    DivIs(x, 256 * b, q, 256 * r + x % 256);
  }

  lemma Shift(q: int, b: int)
    ensures q * (256 * b) == 256 * (q * b)
  {
  }

  lemma DivIs(x: nat, d: nat, q: nat, r: nat)
    requires d > 0 && r < d && x == q * d + r
    ensures x / d == q
  {
    if x / d < q {
      Below(x / d, x % d, q, r, d);
    } else if q < x / d {
      Below(q, r, x / d, x % d, d);
    }
  }

  lemma Below(p: int, s: int, q: int, r: int, d: int)
    requires p < q && 0 <= s < d && 0 <= r
    ensures p * d + s < q * d + r
  {
    assert (q - p - 1) * d >= 0;
    assert q * d == (q - p - 1) * d + p * d + d;
  }

  lemma {:induction false} LittleEndianRoundTrip(x: nat, n: nat)
    requires x < Power256(n)
    ensures FromLittleEndian(LittleEndian(x, n)) == x
  {
    if n > 0 {
      LittleEndianRoundTrip(x / 256, n - 1);
      assert LittleEndian(x, n)[1..] == LittleEndian(x / 256, n - 1);
    }
  }

  lemma {:induction false} FromLittleEndianRoundTrip(b: seq<byte>)
    ensures FromLittleEndian(b) < Power256(|b|)
    ensures LittleEndian(FromLittleEndian(b), |b|) == b
  {
    if b != [] {
      FromLittleEndianRoundTrip(b[1..]);
      var x := FromLittleEndian(b);
      assert x / 256 == FromLittleEndian(b[1..]) && x % 256 == b[0];
      assert b == [b[0]] + b[1..];
    }
  }

  function Reverse(b: seq<byte>): (r: seq<byte>)
    ensures |r| == |b|
  {
    if b == [] then [] else Reverse(b[1..]) + [b[0]]
  }

  lemma {:induction false} ReverseTwice(b: seq<byte>)
    ensures Reverse(Reverse(b)) == b
  {
    if b != [] {
      ReverseTwice(b[1..]);
      ReverseSnoc(Reverse(b[1..]), b[0]);
    }
  }

  lemma {:induction false} ReverseSnoc(b: seq<byte>, x: byte)
    ensures Reverse(b + [x]) == [x] + Reverse(b)
  {
    if b != [] {
      ReverseSnoc(b[1..], x);
      assert (b + [x])[1..] == b[1..] + [x];
    }
  }

  /** Most significant first. */
  function BigEndian(x: nat, n: nat): (b: seq<byte>)
    ensures |b| == n
  {
    Reverse(LittleEndian(x, n))
  }

  function FromBigEndian(b: seq<byte>): nat {
    FromLittleEndian(Reverse(b))
  }

  lemma {:induction false} ReverseAt(b: seq<byte>, i: nat)
    requires i < |b|
    ensures Reverse(b)[i] == b[|b| - 1 - i]
  {
    if i < |b| - 1 {
      ReverseAt(b[1..], i);
    }
  }

  lemma BigEndianAt(x: nat, n: nat, i: nat)
    requires i < n
    ensures BigEndian(x, n)[i] == x / Power256(n - 1 - i) % 256
  {
    ReverseAt(LittleEndian(x, n), i);
    LittleEndianAt(x, n, n - 1 - i);
  }

  lemma BigEndianRoundTrip(x: nat, n: nat)
    requires x < Power256(n)
    ensures FromBigEndian(BigEndian(x, n)) == x
  {
    ReverseTwice(LittleEndian(x, n));
    LittleEndianRoundTrip(x, n);
  }

  lemma {:induction false} FromBigEndianRoundTrip(b: seq<byte>)
    ensures FromBigEndian(b) < Power256(|b|)
    ensures BigEndian(FromBigEndian(b), |b|) == b
  {
    FromLittleEndianRoundTrip(Reverse(b));
    ReverseTwice(b);
  }
}
