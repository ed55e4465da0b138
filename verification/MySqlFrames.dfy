/** MySQL packet framing (iamproxy/mysql.go myRead, myWrite, myRelay). */
module MySqlFrames {
  import opened Common
  import opened Wire

  const MAX_PACKET: nat := 0x10_0000
  const FRAME_LIMIT: nat := 0x100_0000
  const COM_CHANGE_USER: byte := 0x11

  datatype Frame = Frame(seqno: byte, payload: seq<byte>)

  predicate Fits(f: Frame) {
    |f.payload| < FRAME_LIMIT
  }

  function Header(n: nat, seqno: byte): (h: seq<byte>)
    requires n < FRAME_LIMIT
    ensures |h| == 4
  {
    [n % 256, n / 256 % 256, n / 65536, seqno]
  }

  function Size(h: seq<byte>): (n: nat)
    requires |h| >= 4
    ensures n < FRAME_LIMIT
  {
    Int24(h[0], h[1], h[2])
  }

  function Int24(low: int, mid: int, high: int): int {
    low + 256 * mid + 65536 * high
  }

  function Encode(f: Frame): seq<byte>
    requires Fits(f)
  {
    Header(|f.payload|, f.seqno) + f.payload
  }

  function EncodeAll(fs: seq<Frame>): seq<byte>
    requires forall f :: f in fs ==> Fits(f)
  {
    if fs == [] then [] else Encode(fs[0]) + EncodeAll(fs[1..])
  }

  predicate HasFrame(input: seq<byte>) {
    |input| >= 4 && |input| >= 4 + Size(input)
  }

  function FirstFrame(input: seq<byte>): (f: Frame)
    requires HasFrame(input)
    ensures Fits(f)
  {
    Frame(input[3], input[4..4 + Size(input)])
  }

  function AfterFrame(input: seq<byte>): (rest: seq<byte>)
    requires HasFrame(input)
    ensures |rest| < |input|
  {
    input[4 + Size(input)..]
  }

  /** The complete frames at the front of a byte stream. */
  function Frames(input: seq<byte>): (fs: seq<Frame>)
    ensures forall f :: f in fs ==> Fits(f)
    decreases |input|
  {
    if HasFrame(input) then [FirstFrame(input)] + Frames(AfterFrame(input)) else []
  }

  // ---- encoding and parsing are inverse

  lemma HeaderSize(n: nat, seqno: byte, rest: seq<byte>)
    requires n < FRAME_LIMIT
    ensures Size(Header(n, seqno) + rest) == n
  {
    assert n == n % 256 + 256 * (n / 256);
    assert n / 256 == n / 256 % 256 + 256 * (n / 65536);
  }

  lemma FirstOfEncoded(f: Frame, rest: seq<byte>)
    requires Fits(f)
    ensures HasFrame(Encode(f) + rest)
    ensures FirstFrame(Encode(f) + rest) == f && AfterFrame(Encode(f) + rest) == rest
  {
    HeaderSize(|f.payload|, f.seqno, f.payload + rest);
    assert Encode(f) + rest == Header(|f.payload|, f.seqno) + (f.payload + rest);
  }

  /** The header bytes are the length: a frame read from a stream encodes to the bytes it was read from. */
  lemma EncodeFirst(input: seq<byte>)
    requires HasFrame(input)
    ensures Encode(FirstFrame(input)) + AfterFrame(input) == input
    ensures Header(Size(input), input[3]) == input[..4]
  {
    var n := Size(input);
    var low: int := input[0];
    var mid: int := input[1];
    var high: int := input[2];
    assert n == low + 256 * (mid + 256 * high);
    assert n / 256 == mid + 256 * high && n / 65536 == high;
  }

  lemma {:induction false} ParseEncoded(fs: seq<Frame>, rest: seq<byte>)
    requires forall f :: f in fs ==> Fits(f)
    ensures Frames(EncodeAll(fs) + rest) == fs + Frames(rest)
  {
    hide Encode, Frames;
    if fs == [] {
      assert EncodeAll(fs) + rest == rest;
    } else {
      Assoc(Encode(fs[0]), EncodeAll(fs[1..]), rest);
      ParseOne(fs[0], EncodeAll(fs[1..]) + rest);
      ParseEncoded(fs[1..], rest);
      assert [fs[0]] + (fs[1..] + Frames(rest)) == fs + Frames(rest);
    }
  }

  lemma ParseOne(f: Frame, rest: seq<byte>)
    requires Fits(f)
    ensures Frames(Encode(f) + rest) == [f] + Frames(rest)
  {
    FirstOfEncoded(f, rest);
  }

  lemma ParseNone(f: Frame, room: nat)
    requires Fits(f) && room < |Encode(f)|
    ensures Frames(Cut(Encode(f), room)) == []
  {
    var c := Cut(Encode(f), room);
    HeaderSize(|f.payload|, f.seqno, f.payload);
    assert |c| >= 4 ==> Size(c) == Size(Encode(f));
  }

  /** What a stream parses to is, re-encoded, the stream up to an incomplete frame. */
  lemma {:induction false} EncodeParsed(input: seq<byte>)
    ensures EncodeAll(Frames(input)) <= input
    ensures !HasFrame(input[|EncodeAll(Frames(input))|..])
    decreases |input|
  {
    if HasFrame(input) {
      EncodeFirst(input);
      EncodeParsed(AfterFrame(input));
      var e := Encode(FirstFrame(input));
      var t := EncodeAll(Frames(AfterFrame(input)));
      assert Frames(input)[1..] == Frames(AfterFrame(input));
      assert EncodeAll(Frames(input)) == e + t;
      assert input[|e + t|..] == AfterFrame(input)[|t|..];
    }
  }

  lemma NoFrames()
    ensures Frames([]) == []
  {
  }

  /** A stream cut anywhere parses to the first of its frames. */
  lemma {:induction false} ParseCut(fs: seq<Frame>, room: nat)
    requires forall f :: f in fs ==> Fits(f)
    ensures Frames(Cut(EncodeAll(fs), room)) <= fs
  {
    hide Encode, Frames;
    NoFrames();
    if fs != [] {
      var e := Encode(fs[0]);
      var rest := EncodeAll(fs[1..]);
      if room >= |e| {
        CutShort(e, rest, room);
        ParseCut(fs[1..], room - |e|);
        ParseOne(fs[0], Cut(rest, room - |e|));
      } else {
        CutInside(e, rest, room);
        ParseNone(fs[0], room);
      }
    }
  }

  // ---- myRead and myWrite

  datatype Packet = Packet(payload: seq<byte>, seqno: byte) | TooLarge | Short

  /** What myRead returns on a stream, and what it leaves unread. */
  function ReadPacket(input: seq<byte>): (Packet, seq<byte>) {
    if |input| < 4 then (Short, [])
    else if Size(input) > MAX_PACKET then (TooLarge, input[4..])
    else if !HasFrame(input) then (Short, [])
    else (Packet(FirstFrame(input).payload, input[3]), AfterFrame(input))
  }

  method MyRead(c: Conn) returns (p: Packet)
    modifies c`input
    ensures (p, c.input) == ReadPacket(old(c.input))
  {
    var h := c.ReadFull(4);
    if h == None {
      return Short;
    }
    var n := Int24(h.value[0], h.value[1], h.value[2]);
    if n > MAX_PACKET {
      return TooLarge;
    }
    var b := c.ReadFull(n);
    if b == None {
      return Short;
    }
    TwoReads(old(c.input));
    p := Packet(b.value, h.value[3]);
  }

  /** A frame read as four bytes and then the rest. */
  lemma TwoReads(input: seq<byte>)
    requires HasFrame(input)
    ensures input[4..][..Size(input)] == FirstFrame(input).payload
    ensures input[4..][Size(input)..] == AfterFrame(input)
  {
  }

  method MyWrite(c: Conn, seqno: byte, b: seq<byte>) returns (ok: bool)
    modifies c`output, c`room
    ensures |b| > MAX_PACKET ==> !ok && c.output == old(c.output) && c.room == old(c.room)
    ensures |b| <= MAX_PACKET ==>
              && c.output == old(c.output) + Cut(Encode(Frame(seqno, b)), old(c.room))
              && c.room == old(c.room) - |Cut(Encode(Frame(seqno, b)), old(c.room))|
              && (ok <==> |b| + 4 <= old(c.room))
  {
    if |b| > MAX_PACKET {
      return false;
    }
    var n := |b|;
    var h := [n % 256, n / 256 % 256, n / 65536 % 256, seqno];
    assert h == Header(n, seqno);
    CutConcat(h, b, c.room);
    ok := c.Write(h);
    if !ok {
      return false;
    }
    ok := c.Write(b);
  }

  /** myRead called until it fails, at most k times. */
  function ReadPackets(input: seq<byte>, k: nat): (seq<Packet>, seq<byte>)
    decreases k
  {
    if k == 0 then ([], input)
    else
      var (p, rest) := ReadPacket(input);
      var (ps, left) := ReadPackets(rest, k - 1);
      ([p] + ps, left)
  }

  function PacketOf(f: Frame): Packet {
    if |f.payload| <= MAX_PACKET then Packet(f.payload, f.seqno) else TooLarge
  }

  /** Whatever follows it on the stream, a written packet is read back with its payload and sequence
      number exactly when it is within the limit. */
  lemma PacketRoundTrip(f: Frame, rest: seq<byte>)
    requires Fits(f)
    ensures ReadPacket(Encode(f) + rest).0 == PacketOf(f)
    ensures |f.payload| <= MAX_PACKET ==> ReadPacket(Encode(f) + rest).1 == rest
  {
    FirstOfEncoded(f, rest);
    HeaderSize(|f.payload|, f.seqno, f.payload + rest);
    assert Encode(f) + rest == Header(|f.payload|, f.seqno) + (f.payload + rest);
  }

  /** The header is the length in three bytes, least significant first, and the sequence number. */
  lemma HeaderIs(n: nat, seqno: byte)
    requires n < FRAME_LIMIT
    ensures Header(n, seqno) == LittleEndian(n, 3) + [seqno]
  {
    assert LittleEndian(n / 256 / 256, 1) == [n / 256 / 256 % 256] + LittleEndian(n / 256 / 256 / 256, 0);
    assert LittleEndian(n / 256, 2) == [n / 256 % 256] + LittleEndian(n / 256 / 256, 1);
    assert LittleEndian(n, 3) == [n % 256] + LittleEndian(n / 256, 2);
    assert n / 65536 == n / 256 / 256 && n / 256 / 256 < 256;
  }

  /** A packet is read exactly when the stream starts with its length, sequence number and payload. */
  lemma PacketIsExact(input: seq<byte>, p: seq<byte>, seqno: byte, rest: seq<byte>)
    ensures ReadPacket(input) == (Packet(p, seqno), rest) <==>
              |p| <= 0x10_0000 && input == LittleEndian(|p|, 3) + [seqno] + p + rest
  {
    hide LittleEndian;
    if ReadPacket(input) == (Packet(p, seqno), rest) {
      EncodeFirst(input);
      HeaderIs(|p|, seqno);
    }
    if |p| <= 0x10_0000 && input == LittleEndian(|p|, 3) + [seqno] + p + rest {
      HeaderIs(|p|, seqno);
      PacketRoundTrip(Frame(seqno, p), rest);
      assert input == Encode(Frame(seqno, p)) + rest;
      HeaderSize(|p|, seqno, p + rest);
    }
  }

  lemma {:induction false} PacketsRoundTrip(fs: seq<Frame>, rest: seq<byte>)
    requires forall f :: f in fs ==> |f.payload| <= MAX_PACKET
    ensures var (ps, left) := ReadPackets(EncodeAll(fs) + rest, |fs|);
            && left == rest && |ps| == |fs|
            && forall i :: 0 <= i < |fs| ==> ps[i] == Packet(fs[i].payload, fs[i].seqno)
  {
    if fs == [] {
      assert EncodeAll(fs) + rest == rest;
    } else {
      assert EncodeAll(fs) + rest == Encode(fs[0]) + (EncodeAll(fs[1..]) + rest);
      PacketRoundTrip(fs[0], EncodeAll(fs[1..]) + rest);
      PacketsRoundTrip(fs[1..], rest);
    }
  }

  // ---- myRelay, client to backend

  predicate ChangesUser(f: Frame) {
    f.seqno == 0 && f.payload != [] && f.payload[0] == COM_CHANGE_USER
  }

  /** The frames a backend may see. */
  function Keep(fs: seq<Frame>): (ks: seq<Frame>)
    ensures forall f :: f in ks ==> f in fs && !ChangesUser(f)
    ensures |ks| <= |fs|
  {
    if fs == [] then []
    else if ChangesUser(fs[0]) then Keep(fs[1..])
    else [fs[0]] + Keep(fs[1..])
  }

  lemma {:induction false} KeepConcat(fs: seq<Frame>, gs: seq<Frame>)
    ensures Keep(fs + gs) == Keep(fs) + Keep(gs)
  {
    hide Keep, ChangesUser;
    if fs == [] {
      KeepNone();
      assert fs + gs == gs;
    } else {
      KeepConcat(fs[1..], gs);
      KeepCons(fs[0], fs[1..]);
      KeepCons(fs[0], fs[1..] + gs);
      assert fs == [fs[0]] + fs[1..] && fs + gs == [fs[0]] + (fs[1..] + gs);
    }
  }

  lemma KeepNone()
    ensures Keep([]) == []
  {
  }

  lemma KeepCons(f: Frame, fs: seq<Frame>)
    ensures Keep([f] + fs) == (if ChangesUser(f) then [] else [f]) + Keep(fs)
  {
    assert ([f] + fs)[1..] == fs;
  }

  /** Frame by frame: dropped are those of number 0 whose first byte is 0x11. */
  lemma KeepOne(f: Frame)
    ensures Keep([f]) == if f.seqno == 0 && |f.payload| > 0 && f.payload[0] == 0x11 then [] else [f]
  {
    assert [f][1..] == [];
  }

  /** What the backend is sent of a client stream. */
  function Relayed(input: seq<byte>): seq<byte> {
    EncodeAll(Keep(Frames(input)))
  }

  function Dropped(input: seq<byte>): nat {
    |Frames(input)| - |Keep(Frames(input))|
  }

  function Repeat(b: seq<byte>, n: nat): seq<byte> {
    if n == 0 then [] else b + Repeat(b, n - 1)
  }

  lemma {:induction false} RepeatSnoc(b: seq<byte>, n: nat)
    ensures Repeat(b, n + 1) == Repeat(b, n) + b
  {
    if n > 0 {
      RepeatSnoc(b, n - 1);
    }
  }

  const REJECTION_TEXT: seq<byte> := Ascii("#28000change user is unsupported")
  const REJECTION: seq<byte> := [0xff, 1045 % 256, 1045 / 256] + REJECTION_TEXT

  function Rejection(): seq<byte> {
    Encode(Frame(1, REJECTION))
  }

  method MyError(c: Conn, seqno: byte, body: seq<byte>)
    requires |body| <= MAX_PACKET
    modifies c`output, c`room
    ensures c.output == old(c.output) + Cut(Encode(Frame(seqno, body)), old(c.room))
    ensures c.room == old(c.room) - |Cut(Encode(Frame(seqno, body)), old(c.room))|
  {
    var _ := MyWrite(c, seqno, body);
  }

  /** One frame forward: what it adds to the relayed stream. */
  lemma RelayedStep(input: seq<byte>)
    requires HasFrame(input)
    ensures Relayed(input) ==
              (if ChangesUser(FirstFrame(input)) then [] else Encode(FirstFrame(input))) + Relayed(AfterFrame(input))
    ensures Dropped(input) == (if ChangesUser(FirstFrame(input)) then 1 else 0) + Dropped(AfterFrame(input))
  {
    assert Frames(input)[1..] == Frames(AfterFrame(input));
    if !ChangesUser(FirstFrame(input)) {
      assert Keep(Frames(input))[1..] == Keep(Frames(AfterFrame(input)));
    }
  }

  /** The two reads of the relay loop, for frames of any size. */
  method ReadFrame(c: Conn) returns (f: Option<Frame>)
    modifies c`input
    ensures HasFrame(old(c.input)) ==> f == Some(FirstFrame(old(c.input))) && c.input == AfterFrame(old(c.input))
    ensures !HasFrame(old(c.input)) ==> f == None && c.input == []
  {
    var h := c.ReadFull(4);
    if h == None {
      return None;
    }
    var n := Int24(h.value[0], h.value[1], h.value[2]);
    if n > FRAME_LIMIT - 1 {
      return None;
    }
    var b := c.ReadFull(n);
    if b == None {
      return None;
    }
    TwoReads(old(c.input));
    f := Some(Frame(h.value[3], b.value));
  }

  /** Its two writes: the header as it was read, then the payload. */
  method WriteFrame(c: Conn, f: Frame) returns (ok: bool)
    requires Fits(f)
    modifies c`output, c`room
    ensures c.output == old(c.output) + Cut(Encode(f), old(c.room))
    ensures c.room == old(c.room) - |Cut(Encode(f), old(c.room))|
    ensures ok <==> |Encode(f)| <= old(c.room)
  {
    var h := Header(|f.payload|, f.seqno);
    CutConcat(h, f.payload, c.room);
    ok := c.Write(h);
    if ok {
      ok := c.Write(f.payload);
    }
  }

  lemma CutShort(a: seq<byte>, b: seq<byte>, room: nat)
    requires |a| <= room
    ensures Cut(a + b, room) == a + Cut(b, room - |a|)
  {
  }

  lemma CutInside(a: seq<byte>, b: seq<byte>, room: nat)
    requires |a| > room
    ensures Cut(a + b, room) == Cut(a, room)
  {
  }

  /** One turn of the loop: false when it breaks. */
  method RelayFrame(front: Conn, back: Conn) returns (more: bool)
    requires front != back
    modifies front, back
    ensures back.input == old(back.input)
    ensures !HasFrame(old(front.input)) ==>
              !more && front.input == [] && unchanged(front`output, front`room) && unchanged(back)
    ensures HasFrame(old(front.input)) ==> front.input == AfterFrame(old(front.input))
    ensures HasFrame(old(front.input)) && ChangesUser(FirstFrame(old(front.input))) ==>
              && more && unchanged(back)
              && front.output == old(front.output) + Cut(Rejection(), old(front.room))
              && front.room == old(front.room) - |Cut(Rejection(), old(front.room))|
    ensures HasFrame(old(front.input)) && !ChangesUser(FirstFrame(old(front.input))) ==>
              var e := Encode(FirstFrame(old(front.input)));
              && unchanged(front`output, front`room)
              && back.output == old(back.output) + Cut(e, old(back.room))
              && back.room == old(back.room) - |Cut(e, old(back.room))|
              && (more <==> |e| <= old(back.room))
  {
    var f := ReadFrame(front);
    if f == None {
      return false;
    }
    if f.value.seqno == 0 && |f.value.payload| > 0 && f.value.payload[0] == COM_CHANGE_USER {
      MyError(front, 1, REJECTION);
      return true;
    }
    more := WriteFrame(back, f.value);
  }

  /** `sent` is the part of the relayed stream that the frames before `unread` account for. */
  predicate Sent(start: seq<byte>, unread: seq<byte>, sent: seq<byte>, room: nat) {
    sent + Relayed(unread) == Relayed(start) && |sent| <= room
  }

  lemma SendFrame(start: seq<byte>, unread: seq<byte>, sent: seq<byte>, room: nat)
    requires HasFrame(unread) && !ChangesUser(FirstFrame(unread)) && Sent(start, unread, sent, room)
    ensures var e := Encode(FirstFrame(unread));
            if |e| <= room - |sent| then
              Sent(start, AfterFrame(unread), sent + e, room) && Cut(e, room - |sent|) == e
            else
              |Relayed(start)| > room && sent + Cut(e, room - |sent|) == Cut(Relayed(start), room)
  {
    hide Relayed, Encode, HasFrame;
    RelayedStep(unread);
    var e := Encode(FirstFrame(unread));
    assert sent + (e + Relayed(AfterFrame(unread))) == (sent + e) + Relayed(AfterFrame(unread));
    if |e| > room - |sent| {
      CutShort(sent, e + Relayed(AfterFrame(unread)), room);
      CutInside(e, Relayed(AfterFrame(unread)), room - |sent|);
    }
  }

  /** Where the loop stands after a turn: `drops` frames were refused, `more` turns follow. */
  predicate Standing(start: seq<byte>, unread: seq<byte>, sent: seq<byte>, room: nat, drops: nat, more: bool) {
    if more then Sent(start, unread, sent, room) && drops + Dropped(unread) == Dropped(start)
    else
      && sent == Cut(Relayed(start), room)
      && (|Relayed(start)| > room || (unread == [] && drops == Dropped(start)))
  }

  lemma TurnKeepsStanding(start: seq<byte>, unread: seq<byte>, sent: seq<byte>, room: nat, drops: nat)
    requires Standing(start, unread, sent, room, drops, true)
    ensures if !HasFrame(unread) then Standing(start, [], sent, room, drops, false)
            else if ChangesUser(FirstFrame(unread)) then
              Standing(start, AfterFrame(unread), sent, room, drops + 1, true)
            else
              var e := Encode(FirstFrame(unread));
              Standing(start, AfterFrame(unread), sent + Cut(e, room - |sent|), room, drops, |e| <= room - |sent|)
  {
    if !HasFrame(unread) {
      assert Relayed(unread) == [] && sent + [] == sent;
    } else {
      RelayedStep(unread);
      if !ChangesUser(FirstFrame(unread)) {
        SendFrame(start, unread, sent, room);
      }
    }
  }

  function Rejections(n: nat): seq<byte> {
    Repeat(Rejection(), n)
  }

  lemma RejectOnce(n: nat, room: nat)
    ensures Cut(Rejections(n + 1), room) ==
              Cut(Rejections(n), room) + Cut(Rejection(), room - |Cut(Rejections(n), room)|)
  {
    RepeatSnoc(Rejection(), n);
    CutConcat(Rejections(n), Rejection(), room);
  }

  /** The pump of myRelay that reads the client.  The backend gets the encoding of the complete
      frames without the change-user ones, as far as its writes succeed. */
  method RelayFrames(front: Conn, back: Conn)
    requires front != back
    modifies front, back
    ensures back.output == old(back.output) + Cut(Relayed(old(front.input)), old(back.room))
    ensures back.input == old(back.input)
    ensures |Relayed(old(front.input))| <= old(back.room) ==>
              && front.input == []
              && front.output == old(front.output) + Cut(Rejections(Dropped(old(front.input))), old(front.room))
  {
    hide Relayed, Encode, HasFrame, Dropped;
    ghost var start, room, others := front.input, back.room, front.room;
    ghost var sent, told, drops := [], [], 0;
    var more := true;
    while more
      invariant back.input == old(back.input)
      invariant Standing(start, front.input, sent, room, drops, more)
      invariant back.output == old(back.output) + sent && back.room == room - |sent|
      invariant told == Cut(Rejections(drops), others)
      invariant front.output == old(front.output) + told && front.room == others - |told|
      decreases if more then |front.input| + 1 else 0
    {
      ghost var unread := front.input;
      TurnKeepsStanding(start, unread, sent, room, drops);
      RejectOnce(drops, others);
      more := RelayFrame(front, back);
      if HasFrame(unread) {
        if ChangesUser(FirstFrame(unread)) {
          Assoc(old(front.output), told, Cut(Rejection(), others - |told|));
          told := told + Cut(Rejection(), others - |told|);
          drops := drops + 1;
        } else {
          Assoc(old(back.output), sent, Cut(Encode(FirstFrame(unread)), room - |sent|));
          sent := sent + Cut(Encode(FirstFrame(unread)), room - |sent|);
        }
      }
    }
  }

  /** What reached the backend, however little of it got through, parses to the first of the kept
      frames: it carries no change-user frame and nothing that was not a frame of the client. */
  lemma BackendSeesKeptFrames(input: seq<byte>, room: nat)
    ensures Frames(Cut(Relayed(input), room)) <= Keep(Frames(input))
    ensures |Relayed(input)| <= room ==> Frames(Cut(Relayed(input), room)) == Keep(Frames(input))
    ensures forall f :: f in Frames(Cut(Relayed(input), room)) ==>
              f in Frames(input) && !(f.seqno == 0 && |f.payload| > 0 && f.payload[0] == 0x11)
  {
    var ks := Keep(Frames(input));
    ParseCut(ks, room);
    if |Relayed(input)| <= room {
      ParseEncoded(ks, []);
      assert Cut(Relayed(input), room) == EncodeAll(ks) + [];
    }
  }

  /** A client that never changes user is relayed byte for byte, up to an incomplete frame. */
  lemma OtherwiseTransparent(input: seq<byte>)
    requires forall f :: f in Frames(input) ==> !ChangesUser(f)
    ensures Relayed(input) <= input && !HasFrame(input[|Relayed(input)|..])
  {
    KeepAll(Frames(input));
    EncodeParsed(input);
  }

  lemma {:induction false} KeepAll(fs: seq<Frame>)
    requires forall f :: f in fs ==> !ChangesUser(f)
    ensures Keep(fs) == fs
  {
    if fs != [] {
      assert fs[0] in fs;
      KeepAll(fs[1..]);
    }
  }
}
