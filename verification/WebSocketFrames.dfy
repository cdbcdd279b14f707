/** RFC 6455 framing: what a frame looks like on the wire (section 5.2), what the client's receive loop makes of a byte
    stream, and what the standard says it should. */
module WebSocketFrames {
  import opened Basics

  // ----- Masking (section 5.3) -----

  function Pow2(n: nat): nat {
    if n == 0 then 1 else 2 * Pow2(n - 1)
  }

  /** Bitwise exclusive or of the lowest `n` bits. */
  function XorBits(a: nat, b: nat, n: nat): (r: nat)
    ensures r < Pow2(n)
  {
    if n == 0 then 0 else (a + b) % 2 + 2 * XorBits(a / 2, b / 2, n - 1)
  }

  function Xor(a: Byte, b: Byte): Byte {
    assert Pow2(8) == 256 by {
      assert Pow2(4) == 16 && Pow2(6) == 64;
    }
    XorBits(a, b, 8)
  }

  lemma LowBitTwice(a: nat, k: nat, high: nat)
    ensures ((a + k) % 2 + 2 * high) / 2 == high
    ensures ((a + k) % 2 + 2 * high + k) % 2 == a % 2
  {
    var m, n := a / 2, k / 2;
    assert a == 2 * m + a % 2 && k == 2 * n + k % 2;
    if a % 2 == k % 2 {
      assert (a + k) % 2 == 0;
    } else {
      assert (a + k) % 2 == 1;
    }
  }

  lemma {:induction false} XorBitsTwice(a: nat, k: nat, n: nat)
    requires a < Pow2(n)
    ensures XorBits(XorBits(a, k, n), k, n) == a
  {
    if n > 0 {
      LowBitTwice(a, k, XorBits(a / 2, k / 2, n - 1));
      XorBitsTwice(a / 2, k / 2, n - 1);
    }
  }

  lemma XorTwice(a: Byte, k: Byte)
    ensures Xor(Xor(a, k), k) == a
  {
    assert Pow2(8) == 256 by {
      assert Pow2(4) == 16 && Pow2(6) == 64;
    }
    XorBitsTwice(a, k, 8);
  }

  /** Bit `i` of a number, the lowest being bit 0. */
  function Bit(a: nat, i: nat): nat {
    if i == 0 then a % 2 else Bit(a / 2, i - 1)
  }

  lemma HalvesOf(low: nat, rest: nat)
    requires low < 2
    ensures (low + 2 * rest) / 2 == rest && (low + 2 * rest) % 2 == low
  {
  }

  lemma SumIsOdd(a: nat, b: nat)
    ensures (a + b) % 2 == if a % 2 == b % 2 then 0 else 1
  {
  }

  lemma XorBitsHalves(a: nat, b: nat, n: nat)
    requires n > 0
    ensures XorBits(a, b, n) / 2 == XorBits(a / 2, b / 2, n - 1)
    ensures XorBits(a, b, n) % 2 == if a % 2 == b % 2 then 0 else 1
  {
    hide Pow2;
    HalvesOf((a + b) % 2, XorBits(a / 2, b / 2, n - 1));
    SumIsOdd(a, b);
  }

  lemma {:induction false} XorBitsBit(a: nat, b: nat, n: nat, i: nat)
    requires i < n
    ensures Bit(XorBits(a, b, n), i) == if Bit(a, i) == Bit(b, i) then 0 else 1
  {
    XorBitsHalves(a, b, n);
    if i > 0 {
      XorBitsBit(a / 2, b / 2, n - 1, i - 1);
    }
    hide XorBits;
  }

  /** It is exclusive or: every bit of the result is set exactly when it is set in one operand and not in the other. */
  lemma XorIsExclusiveOr(a: Byte, b: Byte, i: nat)
    requires i < 8
    ensures Bit(Xor(a, b), i) == if Bit(a, i) == Bit(b, i) then 0 else 1
  {
    XorBitsBit(a, b, 8, i);
  }

  type MaskKey = k: Bytes | |k| == 4 witness [0, 0, 0, 0]

  function Mask(payload: Bytes, key: MaskKey): (r: Bytes)
    ensures |r| == |payload|
    ensures forall i :: 0 <= i < |r| ==> r[i] == Xor(payload[i], key[i % 4])
  {
    seq(|payload|, i requires 0 <= i < |payload| => Xor(payload[i], key[i % 4]))
  }

  /** Unmasking is masking again. */
  lemma MaskTwice(payload: Bytes, key: MaskKey)
    ensures Mask(Mask(payload, key), key) == payload
  {
    forall i | 0 <= i < |payload|
      ensures Mask(Mask(payload, key), key)[i] == payload[i]
    {
      XorTwice(payload[i], key[i % 4]);
    }
  }

  // ----- Lengths -----

  function BigEndian(n: nat, width: nat): (r: Bytes)
    ensures |r| == width
  {
    if width == 0 then [] else BigEndian(n / 256, width - 1) + [n % 256]
  }

  function FromBigEndian(b: Bytes): nat {
    if b == [] then 0 else FromBigEndian(b[..|b| - 1]) * 256 + b[|b| - 1]
  }

  function Pow256(width: nat): nat {
    if width == 0 then 1 else 256 * Pow256(width - 1)
  }

  lemma {:induction false} BigEndianInverse(n: nat, width: nat)
    requires n < Pow256(width)
    ensures FromBigEndian(BigEndian(n, width)) == n
  {
    if width > 0 {
      BigEndianInverse(n / 256, width - 1);
      assert BigEndian(n, width)[..width - 1] == BigEndian(n / 256, width - 1);
    }
  }

  // ----- Frames (section 5.2) -----

  /** `extended` is the number of extended length bytes the sender chose: 0, 2 or 8. */
  datatype Frame = Frame(fin: bool, reserved: nat, opcode: nat, extended: nat, key: Option<MaskKey>, payload: Bytes) {
    predicate Valid() {
      && reserved < 8 && opcode < 16
      && (extended == 0 || extended == 2 || extended == 8)
      && (extended == 0 ==> |payload| <= 125)
      && |payload| < Pow256(8) && (extended == 2 ==> |payload| < Pow256(2))
    }

    predicate Control() { opcode >= 8 }

    predicate TextPart() { opcode == 0 || opcode == 1 }
  }

  function HeaderLength(f: Frame): nat {
    if f.extended == 0 then |f.payload| else if f.extended == 2 then 126 else 127
  }

  function Encode(f: Frame): Bytes
    requires f.Valid()
  {
    [(if f.fin then 128 else 0) + f.reserved * 16 + f.opcode, (if f.key.Some? then 128 else 0) + HeaderLength(f)]
    + BigEndian(|f.payload|, f.extended)
    + (if f.key.Some? then f.key.value + Mask(f.payload, f.key.value) else f.payload)
  }

  function EncodeAll(frames: seq<Frame>): Bytes
    requires forall f <- frames :: f.Valid()
  {
    if frames == [] then [] else Encode(frames[0]) + EncodeAll(frames[1..])
  }

  // ----- Receiving -----

  const MAX_FRAME_PAYLOAD: nat := 10 * 1024 * 1024

  /** One frame taken off a stream: `Starved` when the bytes ran out, with what was left after the last complete
      piece. */
  datatype Parsed =
    | Starved(rest: Bytes)
    | TooBig(rest: Bytes)
    | Got(fin: bool, opcode: nat, payload: Bytes, rest: Bytes)

  function ExtendedBytes(lengthField: nat): nat {
    if lengthField == 126 then 2 else if lengthField == 127 then 8 else 0
  }

  /** The payload, once the length is known. */
  function ParseBody(fin: bool, opcode: nat, masked: bool, len: nat, b: Bytes): Parsed {
    if masked && |b| < 4 then Starved(b)
    else
      var rest := if masked then b[4..] else b;
      if |rest| < len then Starved(rest)
      else Got(fin, opcode, if masked then Mask(rest[..len], b[..4]) else rest[..len], rest[len..])
  }

  function ParseFrame(b: Bytes, assembled: nat): Parsed {
    if |b| < 2 then Starved(b)
    else
      var extended := ExtendedBytes(b[1] % 128);
      if |b| - 2 < extended then Starved(b[2..])
      else
        var len := if extended == 0 then b[1] % 128 else FromBigEndian(b[2..2 + extended]);
        if len > MAX_FRAME_PAYLOAD || assembled + len > MAX_FRAME_PAYLOAD then TooBig(b[2 + extended..])
        else ParseBody(b[0] >= 128, b[0] % 16, b[1] >= 128, len, b[2 + extended..])
  }

  lemma GotConsumes(b: Bytes, assembled: nat)
    ensures var p := ParseFrame(b, assembled); p.Got? ==> |p.rest| + 2 <= |b| && p.opcode < 16
  {
  }

  function PongFrame(payload: Bytes, key: MaskKey): Bytes {
    [138]
    + (if |payload| <= 125 then [128 + |payload|] else [254, |payload| / 256 % 256, |payload| % 256])
    + key + Mask(payload, key)
  }

  function CloseFrame(key: MaskKey): Bytes {
    [136, 128] + key
  }

  /** How a call to receive a message ends: with a message; with no more bytes, when `partial` tells whether a frame was
      cut short and `assembled` is what had been collected; or with the connection given up. `sent` are all frames
      ever sent. */
  datatype Outcome =
    | Message(text: Bytes, rest: Bytes, sent: seq<Bytes>)
    | OutOfBytes(partial: bool, assembled: Bytes, rest: Bytes, sent: seq<Bytes>)
    | GivenUp(rest: Bytes, sent: seq<Bytes>)

  /** The receive loop over the bytes still to come. `keys` gives the random mask of each frame sent. */
  function Receive(b: Bytes, assembled: Bytes, sent: seq<Bytes>, keys: nat -> MaskKey): Outcome
    decreases |b|
  {
    GotConsumes(b, |assembled|);
    match ParseFrame(b, |assembled|)
    case Starved(rest) => OutOfBytes(|b| >= 2, assembled, rest, sent)
    case TooBig(rest) => GivenUp(rest, sent)
    case Got(fin, opcode, payload, rest) =>
      if opcode == 9 then Receive(rest, assembled, sent + [PongFrame(payload, keys(|sent|))], keys)
      else if opcode == 8 then GivenUp(rest, sent + [CloseFrame(keys(|sent|))])
      else if opcode == 0 || opcode == 1 then
        if fin then Message(assembled + payload, rest, sent) else Receive(rest, assembled + payload, sent, keys)
      else Receive(rest, assembled, sent, keys)
  }

  // ----- The decoder inverts the encoder -----

  lemma EncodeParts(f: Frame)
    requires f.Valid()
    ensures var b := Encode(f);
      && |b| >= 2 + f.extended && (b[0] >= 128) == f.fin && b[0] % 16 == f.opcode
      && (b[1] >= 128) == f.key.Some? && b[1] % 128 == HeaderLength(f) && ExtendedBytes(b[1] % 128) == f.extended
      && b[2..2 + f.extended] == BigEndian(|f.payload|, f.extended)
      && b[2 + f.extended..] == if f.key.Some? then f.key.value + Mask(f.payload, f.key.value) else f.payload
  {
    hide BigEndian, Mask;
    assert Pow256(2) == 65536;
  }

  lemma ParseHeader(b: Bytes, e: nat, len: nat, body: Bytes, assembled: nat)
    requires 2 + e <= |b| && e == ExtendedBytes(b[1] % 128) && body == b[2 + e..]
    requires len == if e == 0 then b[1] % 128 else FromBigEndian(b[2..2 + e])
    ensures ParseFrame(b, assembled) ==
      if len > MAX_FRAME_PAYLOAD || assembled + len > MAX_FRAME_PAYLOAD then TooBig(body)
      else ParseBody(b[0] >= 128, b[0] % 16, b[1] >= 128, len, body)
  {
    hide FromBigEndian, ParseBody;
  }

  lemma BodyInverts(f: Frame, tail: Bytes)
    ensures ParseBody(f.fin, f.opcode, f.key.Some?, |f.payload|,
                      (if f.key.Some? then f.key.value + Mask(f.payload, f.key.value) else f.payload) + tail)
            == Got(f.fin, f.opcode, f.payload, tail)
  {
    hide Mask;
    if f.key.Some? {
      var key, hidden := f.key.value, Mask(f.payload, f.key.value);
      var body := key + hidden + tail;
      MaskTwice(f.payload, key);
      assert body[..4] == key && body[4..] == hidden + tail;
      assert (hidden + tail)[..|f.payload|] == hidden && (hidden + tail)[|f.payload|..] == tail;
    } else {
      assert (f.payload + tail)[..|f.payload|] == f.payload && (f.payload + tail)[|f.payload|..] == tail;
    }
  }

  /** Reading an encoded frame off a stream gives the frame and what follows it, unless the size cap stops it. */
  lemma ParseInvertsEncode(f: Frame, tail: Bytes, assembled: nat)
    requires f.Valid()
    ensures var p := ParseFrame(Encode(f) + tail, assembled);
      if assembled + |f.payload| > MAX_FRAME_PAYLOAD then p.TooBig? else p == Got(f.fin, f.opcode, f.payload, tail)
  {
    hide BigEndian, FromBigEndian, Mask, Pow256, Encode, ParseFrame, ParseBody;
    EncodeParts(f);
    var b, all, e := Encode(f), Encode(f) + tail, f.extended;
    assert all[2..2 + e] == b[2..2 + e] && all[2 + e..] == b[2 + e..] + tail;
    assert all[0] == b[0] && all[1] == b[1];
    if e > 0 {
      BigEndianInverse(|f.payload|, e);
    }
    ParseHeader(all, e, |f.payload|, all[2 + e..], assembled);
    BodyInverts(f, tail);
  }

  lemma ShortPongEchoes(payload: Bytes, key: MaskKey, tail: Bytes)
    requires |payload| <= 65535
    ensures ParseFrame(PongFrame(payload, key) + tail, 0) == Got(true, 10, payload, tail)
  {
    hide Mask, ParseFrame, BigEndian, FromBigEndian;
    assert Pow256(2) == 65536 && Pow256(8) >= Pow256(4) >= Pow256(2);
    var f := Frame(true, 0, 10, if |payload| <= 125 then 0 else 2, Some(key), payload);
    TwoBytes(|payload|);
    NoBytes(|payload|);
    assert Encode(f) == PongFrame(payload, key);
    ParseInvertsEncode(f, tail, 0);
  }

  lemma NoBytes(n: nat)
    ensures BigEndian(n, 0) == []
  {
  }

  lemma CutToTwoBytes(n: nat)
    ensures n % 65536 / 256 % 256 == n / 256 % 256 && n % 65536 % 256 == n % 256
  {
    var q := n / 65536;
    assert n == 65536 * q + n % 65536;
    assert n / 256 == 256 * q + n % 65536 / 256;
  }

  lemma LongPongIsCut(payload: Bytes, key: MaskKey, tail: Bytes)
    requires |payload| > 65535
    ensures var p := ParseFrame(PongFrame(payload, key) + tail, 0); p.Got? ==> |p.payload| == |payload| % 65536
  {
    hide Mask, ParseFrame, BigEndian, FromBigEndian;
    var b, n := PongFrame(payload, key) + tail, |payload| % 65536;
    TwoBytes(n);
    CutToTwoBytes(|payload|);
    assert b[2..4] == [n / 256 % 256, n % 256];
    ParseHeader(b, 2, n, b[4..], 0);
  }

  /** A pong decodes back to the ping's payload exactly when that has at most 65535 bytes: a longer one is announced
      with its length cut to 16 bits. */
  lemma PongEchoes(payload: Bytes, key: MaskKey, tail: Bytes)
    ensures ParseFrame(PongFrame(payload, key) + tail, 0) == Got(true, 10, payload, tail) <==> |payload| <= 65535
  {
    hide ParseFrame, PongFrame;
    if |payload| <= 65535 {
      ShortPongEchoes(payload, key, tail);
    } else {
      LongPongIsCut(payload, key, tail);
    }
  }

  /** A pong byte by byte: its first byte is 138, its second the length with the mask bit, or 254 and the length in two
      bytes; then come the key and as many bytes as the payload has, each of which differs from the payload's in exactly
      the bits set in the key's byte at its place. */
  lemma PongIsMasked(payload: Bytes, key: MaskKey, i: nat, bit: nat)
    requires |payload| <= 65535 && i < |payload| && bit < 8
    ensures var pong, head := PongFrame(payload, key), if |payload| <= 125 then 2 else 4;
      && |pong| == head + 4 + |payload|
      && pong[0] == 138 && pong[head..head + 4] == key
      && (|payload| <= 125 ==> pong[1] == 128 + |payload|)
      && (|payload| > 125 ==> pong[1] == 254 && pong[2] as int * 256 + pong[3] == |payload|)
      && (Bit(pong[head + 4 + i], bit) == 1 <==> Bit(payload[i], bit) != Bit(key[i % 4], bit))
  {
    hide Xor, Bit;
    XorIsExclusiveOr(payload[i], key[i % 4], bit);
    BitRange(payload[i], bit);
    BitRange(key[i % 4], bit);
    var pong, head := PongFrame(payload, key), if |payload| <= 125 then 2 else 4;
    assert pong[head + 4 + i] == Mask(payload, key)[i];
    assert |payload| / 256 % 256 * 256 + |payload| % 256 == |payload|;
  }

  lemma {:induction false} BitRange(a: nat, i: nat)
    ensures Bit(a, i) == 0 || Bit(a, i) == 1
    decreases i
  {
    if i > 0 {
      BitRange(a / 2, i - 1);
    }
  }

  lemma TwoBytes(n: nat)
    requires n < 65536
    ensures BigEndian(n, 2) == [n / 256 % 256, n % 256] && FromBigEndian([n / 256 % 256, n % 256]) == n
  {
    assert BigEndian(n / 256 / 256, 0) == [] && BigEndian(n / 256, 1) == [n / 256 % 256];
    assert Pow256(2) == 65536;
    BigEndianInverse(n, 2);
  }

  // ----- Whole messages -----

  /** The receive loop, told in frames: the message and how many frames it took, if one is completed. */
  datatype FrameOutcome =
    | Completed(text: Bytes, used: nat, sent: seq<Bytes>)
    | Waiting(assembled: Bytes, sent: seq<Bytes>)
    | Refused

  function Later(o: FrameOutcome): FrameOutcome {
    if o.Completed? then o.(used := o.used + 1) else o
  }

  function OnFrames(frames: seq<Frame>, assembled: Bytes, sent: seq<Bytes>, keys: nat -> MaskKey): (o: FrameOutcome)
    ensures o.Completed? ==> o.used <= |frames|
  {
    if frames == [] then Waiting(assembled, sent)
    else
      var f := frames[0];
      if |assembled| + |f.payload| > MAX_FRAME_PAYLOAD || f.opcode == 8 then Refused
      else if f.opcode == 9 then
        Later(OnFrames(frames[1..], assembled, sent + [PongFrame(f.payload, keys(|sent|))], keys))
      else if f.TextPart() then
        if f.fin then Completed(assembled + f.payload, 1, sent)
        else Later(OnFrames(frames[1..], assembled + f.payload, sent, keys))
      else Later(OnFrames(frames[1..], assembled, sent, keys))
  }

  /** On the wire image of any frames, with any masks, length forms and reserved bits, the loop does what it does on the
      frames: a completed message leaves the stream exactly behind the frames it took, whatever follows. */
  lemma {:induction false} ReceiveDecodesFrames(frames: seq<Frame>, tail: Bytes, assembled: Bytes, sent: seq<Bytes>,
                                                keys: nat -> MaskKey)
    requires forall f <- frames :: f.Valid()
    ensures var r := Receive(EncodeAll(frames) + tail, assembled, sent, keys);
      match OnFrames(frames, assembled, sent, keys)
      case Completed(text, used, pongs) => r == Message(text, EncodeAll(frames[used..]) + tail, pongs)
      case Waiting(collected, pongs) => r == Receive(tail, collected, pongs, keys)
      case Refused => r.GivenUp?
  {
    hide ParseFrame, Encode, PongFrame, Receive, Later;
    if frames == [] {
      assert EncodeAll(frames) + tail == tail;
    } else {
      var f, rest := frames[0], frames[1..];
      assert f in frames && forall g <- rest :: g in frames;
      var after := EncodeAll(rest) + tail;
      assert EncodeAll(frames) + tail == Encode(f) + after;
      ParseInvertsEncode(f, after, |assembled|);
      ReceiveOne(Encode(f) + after, assembled, sent, keys);
      if |assembled| + |f.payload| <= MAX_FRAME_PAYLOAD && f.opcode != 8 {
        if f.TextPart() && f.fin {
          assert frames[1..] == rest;
        } else {
          var pongs := if f.opcode == 9 then sent + [PongFrame(f.payload, keys(|sent|))] else sent;
          var collected := if f.TextPart() then assembled + f.payload else assembled;
          OnFramesSkips(frames, assembled, sent, keys);
          ReceiveDecodesFrames(rest, tail, collected, pongs, keys);
          LaterIs(OnFrames(rest, collected, pongs, keys), frames);
        }
      }
    }
  }

  lemma LaterIs(o: FrameOutcome, frames: seq<Frame>)
    requires frames != [] && (o.Completed? ==> o.used <= |frames| - 1)
    ensures if o.Completed? then
      && Later(o) == Completed(o.text, o.used + 1, o.sent) && frames[1..][o.used..] == frames[o.used + 1..]
    else Later(o) == o
  {
  }

  lemma ReceiveOne(b: Bytes, assembled: Bytes, sent: seq<Bytes>, keys: nat -> MaskKey)
    ensures var p, r := ParseFrame(b, |assembled|), Receive(b, assembled, sent, keys);
      && (p.TooBig? || (p.Got? && p.opcode == 8) ==> r.GivenUp?)
      && (p.Got? && p.opcode != 8 ==>
            if (p.opcode == 0 || p.opcode == 1) && p.fin then r == Message(assembled + p.payload, p.rest, sent)
            else r == Receive(p.rest, if p.opcode == 0 || p.opcode == 1 then assembled + p.payload else assembled,
                              if p.opcode == 9 then sent + [PongFrame(p.payload, keys(|sent|))] else sent, keys))
  {
    hide ParseFrame, PongFrame, CloseFrame;
  }

  lemma OnFramesSkips(frames: seq<Frame>, assembled: Bytes, sent: seq<Bytes>, keys: nat -> MaskKey)
    requires frames != [] && |assembled| + |frames[0].payload| <= MAX_FRAME_PAYLOAD
    requires frames[0].opcode != 8 && !(frames[0].TextPart() && frames[0].fin)
    ensures var f := frames[0];
      OnFrames(frames, assembled, sent, keys)
      == Later(OnFrames(frames[1..], if f.TextPart() then assembled + f.payload else assembled,
                        if f.opcode == 9 then sent + [PongFrame(f.payload, keys(|sent|))] else sent, keys))
  {
    hide PongFrame, Later;
  }

  // ----- What the standard says (section 5.4) -----

  datatype Kind = Between | InText | InBinary

  /** A data message is one opcode-1 or -2 frame and its continuations; control frames may come between and are never
      fragmented. What follows a close frame does not count. */
  predicate WellFormed(frames: seq<Frame>, kind: Kind) {
    frames == [] ||
    var f := frames[0];
    if f.opcode == 8 then f.fin && |f.payload| <= 125
    else if f.Control() then
      (f.opcode == 9 || f.opcode == 10) && f.fin && |f.payload| <= 125 && WellFormed(frames[1..], kind)
    else if f.opcode == 0 then kind != Between && WellFormed(frames[1..], if f.fin then Between else kind)
    else
      && kind == Between && (f.opcode == 1 || f.opcode == 2)
      && WellFormed(frames[1..], if f.fin then Between else if f.opcode == 1 then InText else InBinary)
  }

  function OneMore(r: Option<(Bytes, nat)>): Option<(Bytes, nat)> {
    if r.Some? then Some((r.value.0, r.value.1 + 1)) else None
  }

  /** The first text message completed in the frames before the connection is closed, and the number of frames up to its
      end. */
  function FirstText(frames: seq<Frame>, kind: Kind, collected: Bytes): Option<(Bytes, nat)> {
    if frames == [] || frames[0].opcode == 8 then None
    else
      var f := frames[0];
      if f.Control() then OneMore(FirstText(frames[1..], kind, collected))
      else
        var current := if f.opcode == 1 then InText else if f.opcode == 2 then InBinary else kind;
        if current != InText then OneMore(FirstText(frames[1..], if f.fin then Between else InBinary, []))
        else if f.fin then Some((collected + f.payload, 1))
        else OneMore(FirstText(frames[1..], InText, collected + f.payload))
  }

  /** A fragmented binary message is completed before any text message is, and before the connection is closed. */
  predicate BinaryFragmentsEnd(frames: seq<Frame>, kind: Kind) {
    frames != [] && frames[0].opcode != 8 &&
    var f := frames[0];
    if f.Control() then BinaryFragmentsEnd(frames[1..], kind)
    else if f.opcode == 0 && kind == InBinary then f.fin || BinaryFragmentsEnd(frames[1..], kind)
    else if f.opcode == 2 then BinaryFragmentsEnd(frames[1..], if f.fin then Between else InBinary)
    else !f.fin && BinaryFragmentsEnd(frames[1..], InText)
  }

  function TotalPayload(frames: seq<Frame>): nat {
    if frames == [] then 0 else |frames[0].payload| + TotalPayload(frames[1..])
  }

  function CompletedMessage(o: FrameOutcome): Option<(Bytes, nat)> {
    if o.Completed? then Some((o.text, o.used)) else None
  }

  lemma LaterIsOneMore(o: FrameOutcome, r: Option<(Bytes, nat)>)
    ensures CompletedMessage(Later(o)) == OneMore(r) <==> CompletedMessage(o) == r
  {
  }

  /** On every well-formed frame sequence within the size cap, the client's loop delivers the first text message, at
      its own place, exactly when no fragmented binary message is completed before it: the loop takes a binary message's
      continuations for text. */
  lemma {:induction false} DeliversFirstTextExactly(frames: seq<Frame>, kind: Kind, assembled: Bytes, collected: Bytes,
                                                    sent: seq<Bytes>, keys: nat -> MaskKey)
    requires WellFormed(frames, kind) && |assembled| + TotalPayload(frames) <= MAX_FRAME_PAYLOAD
    requires kind != InBinary ==> assembled == collected
    requires kind == Between ==> assembled == []
    requires kind != InText ==> collected == []
    ensures CompletedMessage(OnFrames(frames, assembled, sent, keys)) == FirstText(frames, kind, collected)
            <==> !BinaryFragmentsEnd(frames, kind)
  {
    hide PongFrame, Later, OneMore, OnFrames, CompletedMessage;
    if frames == [] {
      NothingYet(assembled, sent, keys);
    } else {
      var f, rest := frames[0], frames[1..];
      if f.opcode == 8 {
        NothingAfterClose(frames, assembled, sent, keys);
      } else if f.TextPart() && f.fin {
        FinalPart(frames, assembled, sent, keys);
        FirstTextTakesAFrame(rest, Between, []);
      } else {
        var pongs := if f.opcode == 9 then sent + [PongFrame(f.payload, keys(|sent|))] else sent;
        var next := if f.TextPart() then assembled + f.payload else assembled;
        OnFramesSkips(frames, assembled, sent, keys);
        if f.Control() {
          DeliversFirstTextExactly(rest, kind, assembled, collected, pongs, keys);
          LaterIsOneMore(OnFrames(rest, next, pongs, keys), FirstText(rest, kind, collected));
        } else if f.opcode == 2 || kind == InBinary {
          var then' := if f.fin then Between else InBinary;
          DeliversFirstTextExactly(rest, then', next, [], pongs, keys);
          LaterIsOneMore(OnFrames(rest, next, pongs, keys), FirstText(rest, then', []));
        } else {
          DeliversFirstTextExactly(rest, InText, next, collected + f.payload, pongs, keys);
          LaterIsOneMore(OnFrames(rest, next, pongs, keys), FirstText(rest, InText, collected + f.payload));
        }
      }
    }
  }

  lemma NothingAfterClose(frames: seq<Frame>, assembled: Bytes, sent: seq<Bytes>, keys: nat -> MaskKey)
    requires frames != [] && frames[0].opcode == 8
    ensures CompletedMessage(OnFrames(frames, assembled, sent, keys)) == None
  {
  }

  lemma NothingYet(assembled: Bytes, sent: seq<Bytes>, keys: nat -> MaskKey)
    ensures CompletedMessage(OnFrames([], assembled, sent, keys)) == None
  {
  }

  lemma FinalPart(frames: seq<Frame>, assembled: Bytes, sent: seq<Bytes>, keys: nat -> MaskKey)
    requires frames != [] && |assembled| + |frames[0].payload| <= MAX_FRAME_PAYLOAD
    requires frames[0].TextPart() && frames[0].fin
    ensures CompletedMessage(OnFrames(frames, assembled, sent, keys)) == Some((assembled + frames[0].payload, 1))
  {
  }

  lemma {:induction false} FirstTextTakesAFrame(frames: seq<Frame>, kind: Kind, collected: Bytes)
    ensures FirstText(frames, kind, collected).Some? ==> FirstText(frames, kind, collected).value.1 >= 1
    ensures OneMore(FirstText(frames, kind, collected)).Some? ==>
        OneMore(FirstText(frames, kind, collected)).value.1 >= 2
  {
    if frames != [] {
      var f := frames[0];
      if f.Control() {
        FirstTextTakesAFrame(frames[1..], kind, collected);
      }
    }
  }

  /** Every ping among the frames a message took is answered, in order, with its own payload. */
  function Pings(frames: seq<Frame>): seq<Bytes> {
    if frames == [] then []
    else if frames[0].opcode == 9 then [frames[0].payload] + Pings(frames[1..])
    else Pings(frames[1..])
  }

  function Pongs(pings: seq<Bytes>, first: nat, keys: nat -> MaskKey): seq<Bytes> {
    if pings == [] then [] else [PongFrame(pings[0], keys(first))] + Pongs(pings[1..], first + 1, keys)
  }

  lemma {:induction false} EveryPingIsAnswered(frames: seq<Frame>, assembled: Bytes, sent: seq<Bytes>,
                                               keys: nat -> MaskKey)
    ensures var o := OnFrames(frames, assembled, sent, keys);
      o.Completed? ==> o.sent == sent + Pongs(Pings(frames[..o.used]), |sent|, keys)
  {
    hide PongFrame;
    var o := OnFrames(frames, assembled, sent, keys);
    if o.Completed? {
      var f, rest := frames[0], frames[1..];
      assert o.used >= 1 by {
        if !(f.TextPart() && f.fin) {
        }
      }
      assert frames[..o.used][0] == f && frames[..o.used][1..] == rest[..o.used - 1];
      if f.TextPart() && f.fin {
        assert Pings(rest[..0]) == [];
      } else {
        var pongs := if f.opcode == 9 then sent + [PongFrame(f.payload, keys(|sent|))] else sent;
        EveryPingIsAnswered(rest, if f.TextPart() then assembled + f.payload else assembled, pongs, keys);
      }
    }
  }

  // ----- Timeouts -----

  lemma BodyResumes(fin: bool, opcode: nat, masked: bool, len: nat, b: Bytes, more: Bytes)
    ensures var p := ParseBody(fin, opcode, masked, len, b);
      p.Got? ==> ParseBody(fin, opcode, masked, len, b + more) == p.(rest := p.rest + more)
    ensures !ParseBody(fin, opcode, masked, len, b).TooBig?
  {
    hide Mask;
    if masked && |b| >= 4 {
      assert (b + more)[..4] == b[..4] && (b + more)[4..] == b[4..] + more;
    }
    if !(masked && |b| < 4) {
      var rest := if masked then b[4..] else b;
      if |rest| >= len {
        assert (rest + more)[..len] == rest[..len] && (rest + more)[len..] == rest[len..] + more;
      }
    }
  }

  lemma ParseResumes(b: Bytes, more: Bytes, assembled: nat)
    ensures var p := ParseFrame(b, assembled);
      && (p.Got? ==> ParseFrame(b + more, assembled) == p.(rest := p.rest + more))
      && (p.Starved? && |b| < 2 ==> p.rest == b)
  {
    hide FromBigEndian, ParseBody;
    if |b| >= 2 {
      var e := ExtendedBytes(b[1] % 128);
      assert (b + more)[0] == b[0] && (b + more)[1] == b[1];
      if |b| - 2 >= e {
        var len := if e == 0 then b[1] % 128 else FromBigEndian(b[2..2 + e]);
        assert (b + more)[2..2 + e] == b[2..2 + e] && (b + more)[2 + e..] == b[2 + e..] + more;
        BodyResumes(b[0] >= 128, b[0] % 16, b[1] >= 128, len, b[2 + e..], more);
        ParseHeader(b + more, e, len, b[2 + e..] + more, assembled);
      }
    }
  }

  /** Running out of bytes between two frames with nothing collected loses nothing: a later call, when more has come,
      continues as if it all had been there. */
  lemma {:induction false} TimeoutBetweenMessagesIsHarmless(b: Bytes, more: Bytes, assembled: Bytes, sent: seq<Bytes>,
                                                           keys: nat -> MaskKey)
    ensures match Receive(b, assembled, sent, keys)
      case OutOfBytes(partial, collected, rest, pongs) =>
        !partial ==> Receive(b + more, assembled, sent, keys) == Receive(rest + more, collected, pongs, keys)
      case _ => true
    decreases |b|
  {
    hide ParseFrame, PongFrame;
    ParseResumes(b, more, |assembled|);
    GotConsumes(b, |assembled|);
    match ParseFrame(b, |assembled|)
    case Got(fin, opcode, payload, rest) =>
      if opcode == 9 {
        TimeoutBetweenMessagesIsHarmless(rest, more, assembled, sent + [PongFrame(payload, keys(|sent|))], keys);
      } else if (opcode == 0 || opcode == 1) && !fin {
        TimeoutBetweenMessagesIsHarmless(rest, more, assembled + payload, sent, keys);
      } else if opcode != 0 && opcode != 1 && opcode != 8 {
        TimeoutBetweenMessagesIsHarmless(rest, more, assembled, sent, keys);
      }
    case _ =>
  }

  lemma ParseShrinks(b: Bytes, assembled: nat)
    ensures match ParseFrame(b, assembled)
      case Starved(rest) => |rest| < 2 || |rest| + 2 <= |b|
      case Got(_, _, payload, rest) => |payload| + |rest| + 2 <= |b|
      case TooBig(_) => true
    ensures ParseFrame(b, assembled).Starved? ==> if |b| < 2 then ParseFrame(b, assembled).rest == b
                                                  else |ParseFrame(b, assembled).rest| + 2 <= |b|
  {
  }

  /** Headers are never part of a message, and what a cut-short frame already lost is at least its header. */
  lemma {:induction false} OutcomeShrinks(b: Bytes, assembled: Bytes, sent: seq<Bytes>, keys: nat -> MaskKey)
    ensures match Receive(b, assembled, sent, keys)
      case Message(text, rest, _) => |text| + |rest| + 2 <= |assembled| + |b|
      case OutOfBytes(partial, _, rest, _) => if partial then |rest| + 2 <= |b| else |rest| < 2 && |rest| <= |b|
      case GivenUp(_, _) => true
    decreases |b|
  {
    hide ParseFrame, PongFrame, CloseFrame;
    ParseShrinks(b, |assembled|);
    match ParseFrame(b, |assembled|)
    case Got(fin, opcode, payload, rest) =>
      if opcode == 9 {
        OutcomeShrinks(rest, assembled, sent + [PongFrame(payload, keys(|sent|))], keys);
      } else if (opcode == 0 || opcode == 1) && !fin {
        OutcomeShrinks(rest, assembled + payload, sent, keys);
      } else if opcode != 0 && opcode != 1 && opcode != 8 {
        OutcomeShrinks(rest, assembled, sent, keys);
      }
    case _ =>
  }

  // ----- Examples of the standard (section 5.7) -----

  lemma UnmaskedBody(fin: bool, opcode: nat, payload: Bytes, rest: Bytes)
    ensures ParseBody(fin, opcode, false, |payload|, payload + rest) == Got(fin, opcode, payload, rest)
  {
    hide Mask;
    assert (payload + rest)[..|payload|] == payload && (payload + rest)[|payload|..] == rest;
  }

  lemma ShortHeader(b: Bytes, assembled: nat)
    requires |b| >= 2 && b[1] <= 125 && assembled <= 1000
    ensures ParseFrame(b, assembled) == ParseBody(b[0] >= 128, b[0] % 16, false, b[1], b[2..])
  {
    hide FromBigEndian, ParseBody;
    assert b[1] % 128 == b[1];
  }

  lemma UnmaskedFrame(x: Byte, payload: Bytes, rest: Bytes, assembled: nat)
    requires |payload| <= 125 && assembled <= 1000
    ensures ParseFrame([x, |payload|] + payload + rest, assembled) == Got(x >= 128, x % 16, payload, rest)
  {
    hide ParseFrame, ParseBody;
    var b := [x, |payload|] + payload + rest;
    assert b[0] == x && b[1] == |payload| && b[2..] == payload + rest;
    ShortHeader(b, assembled);
    UnmaskedBody(x >= 128, x % 16, payload, rest);
  }

  const HELLO: Bytes := [72, 101, 108, 108, 111]

  lemma HelloInOne(sent: seq<Bytes>, keys: nat -> MaskKey)
    ensures Receive([129, 5] + HELLO, [], sent, keys) == Message(HELLO, [], sent)
  {
    hide Receive, ParseFrame;
    UnmaskedFrame(129, HELLO, [], 0);
    assert [129, 5] + HELLO + [] == [129, 5] + HELLO && [] + HELLO == HELLO;
    ReceiveOne([129, 5] + HELLO, [], sent, keys);
  }

  lemma HelloInTwo(keys: nat -> MaskKey)
    ensures Receive([1, 3, 72, 101, 108] + [128, 2, 108, 111], [], [], keys) == Message(HELLO, [], [])
  {
    hide Receive, ParseFrame;
    var hel: Bytes, lo: Bytes := [72, 101, 108], [108, 111];
    UnmaskedFrame(1, hel, [128, 2, 108, 111], 0);
    assert [1, 3] + hel + [128, 2, 108, 111] == [1, 3, 72, 101, 108] + [128, 2, 108, 111] && [] + hel == hel;
    ReceiveOne([1, 3, 72, 101, 108] + [128, 2, 108, 111], [], [], keys);
    UnmaskedFrame(128, lo, [], 3);
    assert [128, 2] + lo + [] == [128, 2, 108, 111] && hel + lo == HELLO;
    ReceiveOne([128, 2, 108, 111], hel, [], keys);
  }

  /** "Hello" in one frame; in two fragments, the second a continuation; and behind a ping of that content, which is
      answered. */
  lemma StandardExamples(keys: nat -> MaskKey)
    ensures HELLO == [72, 101, 108, 108, 111]
    ensures Receive([129, 5] + HELLO, [], [], keys) == Message(HELLO, [], [])
    ensures Receive([1, 3, 72, 101, 108] + [128, 2, 108, 111], [], [], keys) == Message(HELLO, [], [])
    ensures Receive([137, 5] + HELLO + ([129, 5] + HELLO), [], [], keys)
            == Message(HELLO, [], [PongFrame(HELLO, keys(0))])
  {
    hide Receive, ParseFrame, PongFrame;
    HelloInOne([], keys);
    HelloInTwo(keys);
    var none: seq<Bytes> := [];
    HelloInOne(none + [PongFrame(HELLO, keys(|none|))], keys);
    assert none + [PongFrame(HELLO, keys(|none|))] == [PongFrame(HELLO, keys(0))];
    UnmaskedFrame(137, HELLO, [129, 5] + HELLO, 0);
    ReceiveOne([137, 5] + HELLO + ([129, 5] + HELLO), [], [], keys);
  }

  /** The size cap is ten mebibytes, of one frame and of the text so far together with it; a close is answered, or sent,
      with an empty masked close frame. */
  lemma CapAndClose(b: Bytes, assembled: nat, key: MaskKey)
    ensures MAX_FRAME_PAYLOAD == 10485760
    ensures CloseFrame(key) == [136, 128, key[0], key[1], key[2], key[3]]
    ensures 2 <= |b| && b[1] % 128 < 126 && assembled <= 10485760 - 125 ==> !ParseFrame(b, assembled).TooBig?
    ensures 4 <= |b| && b[1] % 128 == 126 ==>
              (ParseFrame(b, assembled).TooBig? <==> assembled + b[2] as int * 256 + b[3] > 10485760)
    ensures 10 <= |b| && b[1] % 128 == 127 ==>
              (ParseFrame(b, assembled).TooBig? <==> assembled + FromBigEndian(b[2..10]) > 10485760)
  {
    hide Mask;
    if 4 <= |b| && b[1] % 128 == 126 {
      assert b[2..4] == [b[2], b[3]];
      TwoByteNumber(b[2], b[3]);
    }
  }

  lemma TwoByteNumber(a: Byte, b: Byte)
    ensures FromBigEndian([a, b]) == a * 256 + b
  {
    assert [a, b][..1] == [a] && [a][..0] == [];
    assert FromBigEndian([a]) == a;
  }
}
