/** What a receive call that runs out of bytes does to the calls after it. A call starts with nothing collected, and
    what a timed-out call has taken off the stream is gone. */
module WebSocketTimeouts {
  import opened Basics
  import opened WebSocketFrames

  // ----- Every frame the receiver accepts is the encoding of one -----

  lemma {:induction false} BigEndianOf(b: Bytes)
    ensures FromBigEndian(b) < Pow256(|b|) && BigEndian(FromBigEndian(b), |b|) == b
  {
    if b != [] {
      var init, last := b[..|b| - 1], b[|b| - 1];
      BigEndianOf(init);
      var n := FromBigEndian(init);
      assert (n * 256 + last) / 256 == n && (n * 256 + last) % 256 == last;
    }
  }

  /** The frame whose encoding the receiver has just taken off the stream. */
  function FrameAt(b: Bytes, payload: Bytes): Frame
    requires |b| >= 2 && |b| >= 2 + ExtendedBytes(b[1] % 128) + (if b[1] >= 128 then 4 else 0)
  {
    var e := ExtendedBytes(b[1] % 128);
    Frame(b[0] >= 128, b[0] % 128 / 16, b[0] % 16, e, if b[1] >= 128 then Some(b[2 + e..6 + e]) else None, payload)
  }

  lemma SplitAt(b: Bytes, n: nat)
    requires n <= |b|
    ensures b == b[..n] + b[n..]
  {
  }

  lemma BodyOf(fin: bool, opcode: nat, masked: bool, len: nat, b: Bytes)
    ensures var p := ParseBody(fin, opcode, masked, len, b);
      p.Got? ==>
        && p.fin == fin && p.opcode == opcode && |p.payload| == len && (masked ==> |b| >= 4)
        && b == (if masked then b[..4] + Mask(p.payload, b[..4]) else p.payload) + p.rest
  {
    hide Mask;
    var p := ParseBody(fin, opcode, masked, len, b);
    if p.Got? {
      var rest := if masked then b[4..] else b;
      SplitAt(rest, len);
      if masked {
        SplitAt(b, 4);
        MaskTwice(rest[..len], b[..4]);
        assert b == b[..4] + Mask(p.payload, b[..4]) + p.rest;
      }
    }
  }

  lemma ByteParts(x: Byte)
    ensures (if x >= 128 then 128 else 0) + x % 128 / 16 * 16 + x % 16 == x
    ensures (if x >= 128 then 128 else 0) + x % 128 == x
  {
  }

  lemma HeaderOf(b: Bytes, f: Frame)
    requires |b| >= 2 && f.Valid() && f.fin == (b[0] >= 128) && f.reserved == b[0] % 128 / 16 && f.opcode == b[0] % 16
    requires f.key.Some? == (b[1] >= 128) && HeaderLength(f) == b[1] % 128
    requires BigEndian(|f.payload|, f.extended) <= b[2..]
    ensures Encode(f) == b[..2 + f.extended] +
            if f.key.Some? then f.key.value + Mask(f.payload, f.key.value) else f.payload
  {
    hide Frame.Valid;
    var wire := if f.key.Some? then f.key.value + Mask(f.payload, f.key.value) else f.payload;
    var head :=
      [(if f.fin then 128 else 0) + f.reserved * 16 + f.opcode, (if f.key.Some? then 128 else 0) + HeaderLength(f)];
    ByteParts(b[0]);
    ByteParts(b[1]);
    hide HeaderLength, BigEndian, Mask;
    assert head == b[..2];
    assert b[..2 + f.extended] == b[..2] + BigEndian(|f.payload|, f.extended);
    assert Encode(f) == head + BigEndian(|f.payload|, f.extended) + wire;
  }

  lemma FrameFits(b: Bytes, payload: Bytes)
    requires |b| >= 2 && |b| >= 2 + ExtendedBytes(b[1] % 128) + (if b[1] >= 128 then 4 else 0)
    requires var e := ExtendedBytes(b[1] % 128);
      |payload| == (if e == 0 then b[1] % 128 else FromBigEndian(b[2..2 + e])) <= MAX_FRAME_PAYLOAD
    ensures var f := FrameAt(b, payload);
      f.Valid() && HeaderLength(f) == b[1] % 128 && BigEndian(|f.payload|, f.extended) == b[2..2 + f.extended]
  {
    hide FromBigEndian, BigEndian, Pow256;
    var e := ExtendedBytes(b[1] % 128);
    BigEndianOf(b[2..2 + e]);
    LengthFits(e, |payload|);
    if e == 0 {
      NoBytes(|payload|);
    }
  }

  lemma GotHasBody(b: Bytes, assembled: nat)
    requires ParseFrame(b, assembled).Got?
    ensures |b| >= 2
    ensures var e := ExtendedBytes(b[1] % 128);
      && |b| >= 2 + e && |b| >= 2 + e + (if b[1] >= 128 then 4 else 0)
      && var len := if e == 0 then b[1] % 128 else FromBigEndian(b[2..2 + e]);
         && assembled + len <= MAX_FRAME_PAYLOAD
         && ParseFrame(b, assembled) == ParseBody(b[0] >= 128, b[0] % 16, b[1] >= 128, len, b[2 + e..])
  {
    hide FromBigEndian, Mask;
  }

  lemma GotPayload(b: Bytes, assembled: nat)
    requires ParseFrame(b, assembled).Got?
    ensures |b| >= 2
    ensures var p, e := ParseFrame(b, assembled), ExtendedBytes(b[1] % 128);
      && |b| >= 2 + e + (if b[1] >= 128 then 4 else 0)
      && |p.payload| == (if e == 0 then b[1] % 128 else FromBigEndian(b[2..2 + e])) <= MAX_FRAME_PAYLOAD - assembled
      && p.fin == (b[0] >= 128) && p.opcode == b[0] % 16
      && var body := b[2 + e..];
         body == (if b[1] >= 128 then body[..4] + Mask(p.payload, body[..4]) else p.payload) + p.rest
  {
    hide ParseFrame, ParseBody, FromBigEndian, Mask;
    GotHasBody(b, assembled);
    var e := ExtendedBytes(b[1] % 128);
    BodyOf(b[0] >= 128, b[0] % 16, b[1] >= 128, if e == 0 then b[1] % 128 else FromBigEndian(b[2..2 + e]), b[2 + e..]);
  }

  lemma GotIsEncoded(b: Bytes, assembled: nat)
    requires ParseFrame(b, assembled).Got?
    ensures var p := ParseFrame(b, assembled);
      && assembled + |p.payload| <= MAX_FRAME_PAYLOAD
      && |b| >= 2 && |b| >= 2 + ExtendedBytes(b[1] % 128) + (if b[1] >= 128 then 4 else 0)
      && var f := FrameAt(b, p.payload);
         f.Valid() && f.fin == p.fin && f.opcode == p.opcode && b == Encode(f) + p.rest
  {
    hide ParseFrame, FromBigEndian, BigEndian, Mask, Encode, HeaderLength;
    hide Frame.Valid;
    GotPayload(b, assembled);
    var p := ParseFrame(b, assembled);
    FrameFits(b, p.payload);
    EncodedWithRest(b, FrameAt(b, p.payload), p.rest);
  }

  lemma EncodedWithRest(b: Bytes, f: Frame, rest: Bytes)
    requires |b| >= 2 && |b| >= 2 + ExtendedBytes(b[1] % 128) + (if b[1] >= 128 then 4 else 0)
    requires f == FrameAt(b, f.payload) && f.Valid() && HeaderLength(f) == b[1] % 128
    requires BigEndian(|f.payload|, f.extended) == b[2..2 + f.extended]
    requires var body := b[2 + f.extended..];
      body == (if f.key.Some? then body[..4] + Mask(f.payload, body[..4]) else f.payload) + rest
    ensures b == Encode(f) + rest
  {
    hide BigEndian, Mask, Encode, HeaderLength;
    hide Frame.Valid;
    var e, body := f.extended, b[2 + f.extended..];
    assert b[2..][..e] == b[2..2 + e];
    assert f.key.Some? ==> body[..4] == b[2 + e..6 + e] == f.key.value;
    HeaderOf(b, f);
    assert b == b[..2 + e] + body;
  }

  lemma LengthFits(e: nat, len: nat)
    requires (e == 0 || e == 2 || e == 8) && len <= MAX_FRAME_PAYLOAD && (e == 2 ==> len < Pow256(2))
    ensures len < Pow256(8)
  {
    assert Pow256(4) == 256 * 256 * 256 * 256;
    assert Pow256(8) >= Pow256(4);
  }

  // ----- Where a call stopped -----

  ghost predicate AllValid(frames: seq<Frame>) {
    forall f <- frames :: f.Valid()
  }

  /** The bytes are whole frames, which complete no message and leave `collected`, and a cut-short rest. */
  ghost predicate CutAt(b: Bytes, frames: seq<Frame>, cut: Bytes, assembled: Bytes, collected: Bytes, sent: seq<Bytes>,
                        pongs: seq<Bytes>, keys: nat -> MaskKey)
  {
    AllValid(frames) && b == EncodeAll(frames) + cut &&
        OnFrames(frames, assembled, sent, keys) == Waiting(collected, pongs)
  }

  lemma OneFrameEarlier(b: Bytes, f: Frame, frames: seq<Frame>, cut: Bytes, assembled: Bytes, next: Bytes,
                        collected: Bytes, sent: seq<Bytes>, more: seq<Bytes>, pongs: seq<Bytes>, keys: nat -> MaskKey)
    requires f.Valid() && f.opcode != 8 && !(f.TextPart() && f.fin) && |assembled| + |f.payload| <= MAX_FRAME_PAYLOAD
    requires next == if f.TextPart() then assembled + f.payload else assembled
    requires more == if f.opcode == 9 then sent + [PongFrame(f.payload, keys(|sent|))] else sent
    requires CutAt(b, frames, cut, next, collected, more, pongs, keys)
    ensures CutAt(Encode(f) + b, [f] + frames, cut, assembled, collected, sent, pongs, keys)
  {
    hide PongFrame, Encode;
    assert ([f] + frames)[1..] == frames;
    OnFramesSkips([f] + frames, assembled, sent, keys);
    assert Encode(f) + EncodeAll(frames) + cut == Encode(f) + (EncodeAll(frames) + cut);
  }

  /** A call that ran out of bytes took whole frames and stopped in a rest too short for one. */
  lemma {:induction false} CutPoint(b: Bytes, assembled: Bytes, sent: seq<Bytes>, keys: nat -> MaskKey)
    returns (frames: seq<Frame>, cut: Bytes)
    requires Receive(b, assembled, sent, keys).OutOfBytes?
    ensures var o := Receive(b, assembled, sent, keys);
      && CutAt(b, frames, cut, assembled, o.assembled, sent, o.sent, keys)
      && ParseFrame(cut, |o.assembled|) == Starved(o.rest) && o.partial == (|cut| >= 2)
    decreases |b|
  {
    hide ParseFrame, PongFrame, CloseFrame, Encode;
    var p := ParseFrame(b, |assembled|);
    if p.Starved? {
      frames, cut := [], b;
      assert EncodeAll(frames) + cut == b;
    } else {
      GotConsumes(b, |assembled|);
      GotIsEncoded(b, |assembled|);
      var f := FrameAt(b, p.payload);
      var next := if f.TextPart() then assembled + p.payload else assembled;
      var pongs := if p.opcode == 9 then sent + [PongFrame(p.payload, keys(|sent|))] else sent;
      var later;
      later, cut := CutPoint(p.rest, next, pongs, keys);
      frames := [f] + later;
      var o := Receive(b, assembled, sent, keys);
      assert o == Receive(p.rest, next, pongs, keys);
      OneFrameEarlier(p.rest, f, later, cut, assembled, next, o.assembled, sent, pongs, o.sent, keys);
    }
  }

  lemma GoesOnFromCut(b: Bytes, frames: seq<Frame>, cut: Bytes, assembled: Bytes, collected: Bytes, sent: seq<Bytes>,
                      pongs: seq<Bytes>, keys: nat -> MaskKey, more: Bytes)
    requires CutAt(b, frames, cut, assembled, collected, sent, pongs, keys)
    ensures Receive(b + more, assembled, sent, keys) == Receive(cut + more, collected, pongs, keys)
  {
    hide Receive, OnFrames, EncodeAll;
    ReceiveDecodesFrames(frames, cut + more, assembled, sent, keys);
    assert b + more == EncodeAll(frames) + (cut + more);
  }

  lemma {:induction false} WaitingIsCapped(frames: seq<Frame>, assembled: Bytes, sent: seq<Bytes>, keys: nat -> MaskKey)
    requires |assembled| <= MAX_FRAME_PAYLOAD
    ensures var o := OnFrames(frames, assembled, sent, keys); o.Waiting? ==> |o.assembled| <= MAX_FRAME_PAYLOAD
  {
    hide PongFrame;
    if frames != [] {
      var f := frames[0];
      if |assembled| + |f.payload| <= MAX_FRAME_PAYLOAD && f.opcode != 8 {
        var pongs := if f.opcode == 9 then sent + [PongFrame(f.payload, keys(|sent|))] else sent;
        WaitingIsCapped(frames[1..], if f.TextPart() then assembled + f.payload else assembled, pongs, keys);
      }
    }
  }

  // ----- What a caller sees -----

  /** The code, the message, the bytes left on a connection that goes on, and the frames sent. */
  datatype Seen =
    | Delivered(text: Bytes, rest: Bytes, sent: seq<Bytes>)
    | RanOut(rest: Bytes, sent: seq<Bytes>)
    | Failed(sent: seq<Bytes>)

  function Shown(o: Outcome): Seen {
    match o
    case Message(text, rest, sent) => Delivered(text, rest, sent)
    case OutOfBytes(_, _, rest, sent) => RanOut(rest, sent)
    case GivenUp(_, sent) => Failed(sent)
  }

  /** Such more bytes tell the two calls apart: one that gets everything at once, and one after a timeout. */
  ghost predicate Tells(more: Bytes, cut: Bytes, collected: Bytes, rest: Bytes, sent: seq<Bytes>,
                        keys: nat -> MaskKey)
  {
    Shown(Receive(cut + more, collected, sent, keys)) != Shown(Receive(rest + more, [], sent, keys))
  }

  lemma Starves(b: Bytes, assembled: Bytes, sent: seq<Bytes>, keys: nat -> MaskKey)
    ensures var p, seen := ParseFrame(b, |assembled|), Shown(Receive(b, assembled, sent, keys));
      && (p.Starved? ==> seen == RanOut(p.rest, sent))
      && (p.TooBig? ==> seen == Failed(sent))
      && (p.Got? && p.opcode == 8 ==> seen == Failed(sent + [CloseFrame(keys(|sent|))]))
  {
    hide ParseFrame, CloseFrame, PongFrame;
  }

  /** A frame with a short length and no mask. */
  lemma ShortFrame(x: Byte, n: Byte, s: Bytes, assembled: nat)
    requires n <= 125 && assembled <= MAX_FRAME_PAYLOAD - 125
    ensures ParseFrame([x, n] + s, assembled) ==
      if |s| < n then Starved(s) else Got(x >= 128, x % 16, s[..n], s[n..])
  {
    hide FromBigEndian, Mask;
    assert ([x, n] + s)[2..] == s;
  }

  lemma EmptyFrame(x: Byte, s: Bytes, assembled: nat)
    requires assembled <= MAX_FRAME_PAYLOAD
    ensures ParseFrame([x, 0] + s, assembled) == Got(x >= 128, x % 16, [], s)
  {
    hide FromBigEndian, Mask;
    assert ([x, 0] + s)[2..] == s && s[0..] == s;
  }

  predicate FinalText(x: Byte) {
    x >= 128 && (x % 16 == 0 || x % 16 == 1)
  }

  /** The second call takes what is left for a header and what comes for an empty frame. */
  lemma EmptyFrameFirst(x: Byte, s: Bytes, collected: Bytes, sent: seq<Bytes>, keys: nat -> MaskKey)
    requires |collected| <= MAX_FRAME_PAYLOAD
    ensures var o := Receive([x, 0] + s, collected, sent, keys);
      && (FinalText(x) ==> o == Message(collected, s, sent))
      && (x % 16 == 8 ==> Shown(o) == Failed(sent + [CloseFrame(keys(|sent|))]))
      && (!FinalText(x) && x % 16 != 8 ==> exists pongs :: o == Receive(s, collected, pongs, keys))
  {
    hide ParseFrame, PongFrame, CloseFrame;
    EmptyFrame(x, s, |collected|);
    Starves([x, 0] + s, collected, sent, keys);
    ReceiveOne([x, 0] + s, collected, sent, keys);
    assert collected + [] == collected;
    if !FinalText(x) && x % 16 != 8 {
      var pongs := if x % 16 == 9 then sent + [PongFrame([], keys(|sent|))] else sent;
      assert Receive([x, 0] + s, collected, sent, keys) == Receive(s, collected, pongs, keys);
    }
  }

  lemma EmptyText(y: Byte, collected: Bytes, sent: seq<Bytes>, keys: nat -> MaskKey)
    requires (y == 128 || y == 129) && |collected| <= MAX_FRAME_PAYLOAD
    ensures Receive([y, 0], collected, sent, keys) == Message(collected, [], sent)
  {
    hide Receive;
    EmptyFrameFirst(y, [], collected, sent, keys);
    assert [y, 0] + [] == [y, 0];
  }

  /** So an empty final text frame behind it delivers an empty message, at the latest. */
  lemma EmptyTextSecond(x: Byte, y: Byte, collected: Bytes, sent: seq<Bytes>, keys: nat -> MaskKey)
    requires x % 16 != 8 && (y == 128 || y == 129) && |collected| <= MAX_FRAME_PAYLOAD
    ensures var o := Receive([x, 0, y, 0], collected, sent, keys);
      o.Message? && o.text == collected && o.rest == if FinalText(x) then [y, 0] else []
  {
    hide Receive;
    EmptyFrameFirst(x, [y, 0], collected, sent, keys);
    assert [x, 0] + [y, 0] == [x, 0, y, 0];
    if !FinalText(x) {
      var pongs :| Receive([x, 0] + [y, 0], collected, sent, keys) == Receive([y, 0], collected, pongs, keys);
      EmptyText(y, collected, pongs, keys);
    }
  }

  // ----- A cut-short frame -----

  /** Too few bytes for an extended length and the payload it announces. */
  lemma LengthNeedsMore(cut: Bytes, more: Bytes, collected: Bytes, sent: seq<Bytes>, keys: nat -> MaskKey)
    requires 2 <= |cut| && ExtendedBytes(cut[1] % 128) > 0
    requires var e, s := ExtendedBytes(cut[1] % 128), cut[2..] + more;
      |s| < e || |s| - e < FromBigEndian(s[..e])
    ensures var seen := Shown(Receive(cut + more, collected, sent, keys)); seen.RanOut? || seen == Failed(sent)
  {
    hide FromBigEndian, Mask, Receive;
    Starves(cut + more, collected, sent, keys);
    var e, s := ExtendedBytes(cut[1] % 128), cut[2..] + more;
    assert (cut + more)[2..] == s && (cut + more)[1] == cut[1];
    if |s| >= e {
      assert (cut + more)[2..2 + e] == s[..e];
    }
  }

  /** Stopped inside the extended length. */
  lemma LengthTells(cut: Bytes, collected: Bytes, rest: Bytes, sent: seq<Bytes>, keys: nat -> MaskKey)
    returns (more: Bytes)
    requires 2 <= |cut| && rest == cut[2..] && |rest| < 2 && ExtendedBytes(cut[1] % 128) > 0
    ensures Tells(more, cut, collected, rest, sent, keys)
  {
    hide Receive, ParseFrame;
    var e := ExtendedBytes(cut[1] % 128);
    if rest == [] {
      more := [129, 0];
      EmptyText(129, [], sent, keys);
    } else {
      var x := rest[0];
      if x % 16 == 8 {
        more := [0];
        EmptyFrameFirst(x, [], [], sent, keys);
        assert rest + more == [x, 0] + [];
      } else if x == 0 {
        more := [126, 0, 0, 128, 0];
        assert rest + more == [0, 126, 0, 0, 128, 0];
        LongEmptyFrame(sent, keys);
      } else {
        more := [0, 129, 0];
        EmptyTextSecond(x, 129, [], sent, keys);
        assert rest + more == [x, 0, 129, 0];
      }
    }
    assert [] + more == more;
    if e == 2 {
      TwoByteNumber((rest + more)[0], (rest + more)[1]);
      assert (rest + more)[..2] == [(rest + more)[0], (rest + more)[1]];
    }
    LengthNeedsMore(cut, more, collected, sent, keys);
  }

  /** An empty fragment with its length in two bytes, and an empty final one. */
  lemma LongEmptyFrame(sent: seq<Bytes>, keys: nat -> MaskKey)
    ensures Receive([0, 126, 0, 0, 128, 0], [], sent, keys) == Message([], [], sent)
  {
    hide Receive, PongFrame;
    var b: Bytes := [0, 126, 0, 0, 128, 0];
    assert ParseFrame(b, 0) == Got(false, 0, [], [128, 0]) by {
      assert b[2..4] == [0, 0] && b[4..] == [128, 0] && [128, 0][0..] == [128, 0];
      TwoByteNumber(0, 0);
    }
    ReceiveOne(b, [], sent, keys);
    var none: Bytes := [];
    assert none + none == none;
    assert Receive(b, [], sent, keys) == Receive([128, 0], [], sent, keys);
    EmptyText(128, [], sent, keys);
  }

  /** What the first call does once the frame it is in has come in whole. */
  lemma FrameArrives(b: Bytes, collected: Bytes, sent: seq<Bytes>, keys: nat -> MaskKey)
    requires ParseFrame(b, |collected|).Got?
    ensures var p, o := ParseFrame(b, |collected|), Receive(b, collected, sent, keys);
      var text := p.opcode == 0 || p.opcode == 1;
      && (p.opcode == 8 ==> Shown(o) == Failed(sent + [CloseFrame(keys(|sent|))]))
      && (text && p.fin ==> o == Message(collected + p.payload, p.rest, sent))
      && (p.opcode != 8 && !(text && p.fin) ==>
            exists next: Bytes, pongs :: |next| <= MAX_FRAME_PAYLOAD && o == Receive(p.rest, next, pongs, keys))
  {
    hide ParseFrame, PongFrame, CloseFrame, Encode;
    var p := ParseFrame(b, |collected|);
    GotIsEncoded(b, |collected|);
    Starves(b, collected, sent, keys);
    ReceiveOne(b, collected, sent, keys);
    if p.opcode != 8 && !((p.opcode == 0 || p.opcode == 1) && p.fin) {
      var next := if p.opcode == 0 || p.opcode == 1 then collected + p.payload else collected;
      var pongs := if p.opcode == 9 then sent + [PongFrame(p.payload, keys(|sent|))] else sent;
      assert Receive(b, collected, sent, keys) == Receive(p.rest, next, pongs, keys);
    }
  }

  lemma ShortIsKept(b: Bytes, collected: Bytes, sent: seq<Bytes>, keys: nat -> MaskKey)
    requires |b| < 2
    ensures Receive(b, collected, sent, keys) == OutOfBytes(false, collected, b, sent)
  {
  }

  /** What comes of a frame that leaves less than a header behind it: its own text, or no message. */
  lemma LastFrame(b: Bytes, collected: Bytes, sent: seq<Bytes>, keys: nat -> MaskKey)
    requires ParseFrame(b, |collected|).Got? && |ParseFrame(b, |collected|).rest| < 2
    ensures var p, o := ParseFrame(b, |collected|), Receive(b, collected, sent, keys);
      if (p.opcode == 0 || p.opcode == 1) && p.fin then o == Message(collected + p.payload, p.rest, sent)
      else if p.opcode == 8 then Shown(o) == Failed(sent + [CloseFrame(keys(|sent|))])
      else Shown(o).RanOut?
  {
    hide ParseFrame, Receive, CloseFrame;
    var p := ParseFrame(b, |collected|);
    FrameArrives(b, collected, sent, keys);
    if p.opcode != 8 && !((p.opcode == 0 || p.opcode == 1) && p.fin) {
      var next: Bytes, pongs :| |next| <= MAX_FRAME_PAYLOAD &&
          Receive(b, collected, sent, keys) == Receive(p.rest, next, pongs, keys);
      ShortIsKept(p.rest, next, pongs, keys);
    }
  }

  ghost predicate InsideMask(cut: Bytes, collected: Bytes, rest: Bytes, len: nat) {
    2 <= |cut| &&
    forall s: Bytes :: ParseFrame(cut + s, |collected|) == ParseBody(cut[0] >= 128, cut[0] % 16, true, len, rest + s)
  }

  lemma MaskArrives(cut: Bytes, collected: Bytes, rest: Bytes, len: nat, more: Bytes, sent: seq<Bytes>,
                    keys: nat -> MaskKey)
    requires InsideMask(cut, collected, rest, len) && |rest + more| <= 4
    ensures var o := Receive(cut + more, collected, sent, keys);
      if |rest + more| < 4 || len > 0 then Shown(o).RanOut?
      else if FinalText(cut[0]) then o == Message(collected, [], sent)
      else !o.Message?
  {
    hide Receive, ParseFrame, Mask, CloseFrame;
    var s := rest + more;
    assert ParseFrame(cut + more, |collected|) == ParseBody(cut[0] >= 128, cut[0] % 16, true, len, s);
    Starves(cut + more, collected, sent, keys);
    if |s| == 4 && len == 0 {
      assert s[4..] == [] && collected + [] == collected;
      LastFrame(cut + more, collected, sent, keys);
    }
  }

  /** Stopped inside the mask, with a payload of `len` bytes to come. */
  lemma MaskTells(cut: Bytes, collected: Bytes, rest: Bytes, len: nat, sent: seq<Bytes>, keys: nat -> MaskKey)
    returns (more: Bytes)
    requires 2 <= |cut| && InsideMask(cut, collected, rest, len) && |rest| < 2
    ensures Tells(more, cut, collected, rest, sent, keys)
  {
    hide Receive, InsideMask, CloseFrame;
    if rest == [] {
      more := [129, 0];
      assert rest + more == [129, 0];
      EmptyText(129, [], sent, keys);
      MaskArrives(cut, collected, rest, len, more, sent, keys);
    } else if rest[0] % 16 == 8 {
      more := [0];
      assert rest + more == [rest[0], 0] + [];
      EmptyFrameFirst(rest[0], [], [], sent, keys);
      MaskArrives(cut, collected, rest, len, more, sent, keys);
    } else if len == 0 && FinalText(cut[0]) {
      more := [0, 129, 1];
      assert rest + more == [rest[0], 0] + [129, 1];
      EmptyFrameFirst(rest[0], [129, 1], [], sent, keys);
      ShortFrameStarves(sent, keys);
      MaskArrives(cut, collected, rest, len, more, sent, keys);
    } else {
      more := [0, 129, 0];
      assert rest + more == [rest[0], 0, 129, 0];
      EmptyTextSecond(rest[0], 129, [], sent, keys);
      MaskArrives(cut, collected, rest, len, more, sent, keys);
    }
  }

  lemma ShortFrameStarves(sent: seq<Bytes>, keys: nat -> MaskKey)
    ensures forall pongs :: Receive([129, 1], [], pongs, keys).OutOfBytes?
  {
    hide Receive;
    forall pongs
      ensures Receive([129, 1], [], pongs, keys).OutOfBytes?
    {
      ShortFrame(129, 1, [], 0);
      assert [129, 1] + [] == [129, 1];
      Starves([129, 1], [], pongs, keys);
    }
  }

  ghost predicate InsidePayload(cut: Bytes, collected: Bytes, rest: Bytes, len: nat) {
    2 <= |cut| && |rest| < len && forall s: Bytes :: PayloadParsed(cut, collected, rest, len, s)
  }

  ghost predicate PayloadParsed(cut: Bytes, collected: Bytes, rest: Bytes, len: nat, s: Bytes)
    requires 2 <= |cut|
  {
    var p := ParseFrame(cut + s, |collected|);
    if |rest + s| < len then p.Starved?
    else
      && p.Got? && p.fin == (cut[0] >= 128) && p.opcode == cut[0] % 16
      && |p.payload| == len && p.rest == (rest + s)[len..]
  }

  lemma PayloadArrives(cut: Bytes, collected: Bytes, rest: Bytes, len: nat, more: Bytes, sent: seq<Bytes>,
                       keys: nat -> MaskKey)
    requires 2 <= |cut| && InsidePayload(cut, collected, rest, len)
    ensures var o := Receive(cut + more, collected, sent, keys);
      && (|rest + more| < len ==> Shown(o).RanOut?)
      && (|rest + more| >= len && FinalText(cut[0]) ==> o.Message? && |o.text| >= len)
      && (|rest + more| >= len && cut[0] % 16 == 8 ==> Shown(o).Failed?)
      && (len <= |rest + more| < len + 2 && !FinalText(cut[0]) && cut[0] % 16 != 8 ==> Shown(o).RanOut?)
      && (|rest + more| >= len && !FinalText(cut[0]) && cut[0] % 16 != 8 ==>
            exists next: Bytes, pongs ::
              |next| <= MAX_FRAME_PAYLOAD && o == Receive((rest + more)[len..], next, pongs, keys))
  {
    hide Receive, ParseFrame, CloseFrame;
    assert PayloadParsed(cut, collected, rest, len, more);
    var b := cut + more;
    Starves(b, collected, sent, keys);
    if |rest + more| >= len {
      FrameArrives(b, collected, sent, keys);
      if |rest + more| < len + 2 {
        LastFrame(b, collected, sent, keys);
      }
    }
  }

  lemma OneByteFrame(x: Byte, sent: seq<Bytes>, keys: nat -> MaskKey)
    ensures Shown(Receive([x, 1], [], sent, keys)).RanOut?
    ensures x % 16 != 8 ==>
      var seen := Shown(Receive([x, 1, 129, 0], [], sent, keys)); seen.RanOut? || (seen.Delivered? && seen.rest == [0])
  {
    hide Receive, ParseFrame, CloseFrame;
    ShortFrame(x, 1, [], 0);
    assert [x, 1] + [] == [x, 1];
    Starves([x, 1], [], sent, keys);
    ShortFrame(x, 1, [129, 0], 0);
    assert [x, 1] + [129, 0] == [x, 1, 129, 0];
    LastFrame([x, 1, 129, 0], [], sent, keys);
  }

  /** Stopped inside the payload. */
  lemma PayloadTells(cut: Bytes, collected: Bytes, rest: Bytes, len: nat, sent: seq<Bytes>, keys: nat -> MaskKey)
    returns (more: Bytes)
    requires 2 <= |cut| && InsidePayload(cut, collected, rest, len) && |rest| < 2 && |rest| < len
    ensures Tells(more, cut, collected, rest, sent, keys)
  {
    hide Receive, InsidePayload, CloseFrame;
    if rest == [] {
      more := [129, 0];
      assert rest + more == [129, 0];
      EmptyText(129, [], sent, keys);
      PayloadArrives(cut, collected, rest, len, more, sent, keys);
    } else if rest[0] % 16 == 8 {
      if len == 2 && cut[0] % 16 == 8 {
        more := [1];
        assert rest + more == [rest[0], 1];
        OneByteFrame(rest[0], sent, keys);
      } else {
        more := [0];
        assert rest + more == [rest[0], 0] + [];
        EmptyFrameFirst(rest[0], [], [], sent, keys);
      }
      PayloadArrives(cut, collected, rest, len, more, sent, keys);
    } else if len == 2 && !FinalText(cut[0]) && cut[0] % 16 != 8 {
      more := [1, 129, 0];
      assert rest + more == [rest[0], 1, 129, 0] && (rest + more)[2..] == [129, 0];
      OneByteFrame(rest[0], sent, keys);
      PayloadArrives(cut, collected, rest, len, more, sent, keys);
      var next: Bytes, pongs :| |next| <= MAX_FRAME_PAYLOAD &&
        Receive(cut + more, collected, sent, keys) == Receive((rest + more)[len..], next, pongs, keys);
      EmptyText(129, next, pongs, keys);
    } else {
      more := [0, 129, 0];
      assert rest + more == [rest[0], 0, 129, 0];
      EmptyTextSecond(rest[0], 129, [], sent, keys);
      PayloadArrives(cut, collected, rest, len, more, sent, keys);
    }
  }

  lemma LengthIsKnown(cut: Bytes, s: Bytes, assembled: nat)
    requires 2 <= |cut| && ExtendedBytes(cut[1] % 128) <= |cut| - 2 && ParseFrame(cut, assembled).Starved?
    ensures ParseFrame(cut, assembled) == BodyAfter(cut, [])
    ensures ParseFrame(cut + s, assembled) == BodyAfter(cut, s)
  {
    hide FromBigEndian, ParseBody;
    var e := ExtendedBytes(cut[1] % 128);
    assert (cut + s)[2..2 + e] == cut[2..2 + e] && (cut + s)[2 + e..] == cut[2 + e..] + s;
    assert cut[2 + e..] + [] == cut[2 + e..];
  }

  /** What is made of the bytes behind a length that has come in whole. */
  function BodyAfter(cut: Bytes, s: Bytes): Parsed
    requires 2 <= |cut| && ExtendedBytes(cut[1] % 128) <= |cut| - 2
  {
    ParseBody(cut[0] >= 128, cut[0] % 16, cut[1] >= 128, LengthIn(cut), cut[2 + ExtendedBytes(cut[1] % 128)..] + s)
  }

  function LengthIn(cut: Bytes): nat
    requires 2 <= |cut| && ExtendedBytes(cut[1] % 128) <= |cut| - 2
  {
    var e := ExtendedBytes(cut[1] % 128);
    if e == 0 then cut[1] % 128 else FromBigEndian(cut[2..2 + e])
  }

  lemma BodyStages(fin: bool, opcode: nat, masked: bool, len: nat, body: Bytes, rest: Bytes, s: Bytes)
    requires ParseBody(fin, opcode, masked, len, body) == Starved(rest) && !(masked && |body| < 4)
    ensures |rest| < len
    ensures var p := ParseBody(fin, opcode, masked, len, body + s);
      if |rest + s| < len then p.Starved?
      else p.Got? && p.fin == fin && p.opcode == opcode && |p.payload| == len && p.rest == (rest + s)[len..]
  {
    hide Mask;
    if masked {
      assert (body + s)[4..] == rest + s;
    }
  }

  /** Where a frame of at least a header stopped. */
  lemma Stages(cut: Bytes, collected: Bytes, rest: Bytes)
    requires 2 <= |cut| && ParseFrame(cut, |collected|) == Starved(rest)
    ensures (ExtendedBytes(cut[1] % 128) > |cut| - 2 && rest == cut[2..]) ||
            (exists len: nat :: InsideMask(cut, collected, rest, len) || InsidePayload(cut, collected, rest, len))
  {
    if ExtendedBytes(cut[1] % 128) <= |cut| - 2 {
      hide ParseFrame, FromBigEndian, Mask, LengthIn;
      var len, body := LengthIn(cut), cut[2 + ExtendedBytes(cut[1] % 128)..];
      assert body + [] == body;
      forall s: Bytes
        ensures ParseFrame(cut + s, |collected|) == BodyAfter(cut, s)
        ensures ParseFrame(cut, |collected|) == BodyAfter(cut, [])
      {
        LengthIsKnown(cut, s, |collected|);
      }
      assert ParseFrame(cut + [], |collected|) == BodyAfter(cut, []);
      if cut[1] >= 128 && |body| < 4 {
        assert InsideMask(cut, collected, rest, len);
      } else {
        forall s: Bytes
          ensures |rest| < len && PayloadParsed(cut, collected, rest, len, s)
        {
          BodyStages(cut[0] >= 128, cut[0] % 16, cut[1] >= 128, len, body, rest, s);
        }
        assert |rest| < len && PayloadParsed(cut, collected, rest, len, []);
        assert InsidePayload(cut, collected, rest, len);
      }
    }
  }

  /** A frame cut short always tells. */
  lemma CutFrameTells(cut: Bytes, collected: Bytes, rest: Bytes, sent: seq<Bytes>, keys: nat -> MaskKey)
    returns (more: Bytes)
    requires 2 <= |cut| && ParseFrame(cut, |collected|) == Starved(rest)
    ensures Tells(more, cut, collected, rest, sent, keys)
  {
    hide Receive, ParseFrame, InsideMask, InsidePayload;
    Stages(cut, collected, rest);
    if |rest| >= 2 {
      more := [];
      assert cut + [] == cut && rest + [] == rest;
      Starves(cut, collected, sent, keys);
      OutcomeShrinks(rest, [], sent, keys);
    } else if ExtendedBytes(cut[1] % 128) > |cut| - 2 && rest == cut[2..] {
      more := LengthTells(cut, collected, rest, sent, keys);
    } else {
      var len: nat :| InsideMask(cut, collected, rest, len) || InsidePayload(cut, collected, rest, len);
      if InsideMask(cut, collected, rest, len) {
        more := MaskTells(cut, collected, rest, len, sent, keys);
      } else {
        assert |rest| < len by {
          InsideIsShort(cut, collected, rest, len);
        }
        more := PayloadTells(cut, collected, rest, len, sent, keys);
      }
    }
  }

  lemma InsideIsShort(cut: Bytes, collected: Bytes, rest: Bytes, len: nat)
    requires InsidePayload(cut, collected, rest, len)
    ensures |rest| < len
  {
  }

  // ----- An open fragment -----

  /** Between frames, with text collected: the second call has forgotten it. */
  lemma OpenFragmentTells(collected: Bytes, rest: Bytes, sent: seq<Bytes>, keys: nat -> MaskKey)
    returns (more: Bytes)
    requires |rest| < 2 && 0 < |collected| <= MAX_FRAME_PAYLOAD
    ensures Tells(more, rest, collected, rest, sent, keys)
    ensures rest == [] || rest[0] % 16 != 8 ==>
              var (one, two) := (Receive(rest + more, collected, sent, keys), Receive(rest + more, [], sent, keys));
              one.Message? && one.text == collected && two.Message? && two.text == []
  {
    hide Receive, ParseFrame, CloseFrame;
    if rest == [] {
      more := [128, 0];
      assert rest + more == more;
      EmptyText(128, collected, sent, keys);
      EmptyText(128, [], sent, keys);
    } else if rest[0] % 16 != 8 {
      more := [0, 128, 0];
      assert rest + more == [rest[0], 0, 128, 0];
      EmptyTextSecond(rest[0], 128, collected, sent, keys);
      EmptyTextSecond(rest[0], 128, [], sent, keys);
    } else {
      var len := MAX_FRAME_PAYLOAD - |collected| + 1;
      more := [127] + BigEndian(len, 8);
      assert rest + more == [rest[0], 127] + BigEndian(len, 8);
      LongLength(rest[0], len, |collected|);
      LongLength(rest[0], len, 0);
      Starves(rest + more, collected, sent, keys);
      Starves(rest + more, [], sent, keys);
    }
  }

  lemma LongLength(x: Byte, len: nat, assembled: nat)
    requires 0 < len <= MAX_FRAME_PAYLOAD
    ensures ParseFrame([x, 127] + BigEndian(len, 8), assembled) ==
            if assembled + len > MAX_FRAME_PAYLOAD then TooBig([]) else Starved([])
  {
    hide FromBigEndian, BigEndian, Mask;
    LengthFits(8, len);
    BigEndianInverse(len, 8);
    var b := [x, 127] + BigEndian(len, 8);
    assert b[2..10] == BigEndian(len, 8) && b[10..] == [];
  }

  // ----- The exact condition -----

  /** The bytes so far are whole frames and less than a header, and the frames leave no text bytes collected. */
  ghost predicate BetweenMessages(b: Bytes, sent: seq<Bytes>, keys: nat -> MaskKey) {
    exists frames: seq<Frame>, rest: Bytes :: WholeFrames(b, frames, rest, sent, keys)
  }

  ghost predicate WholeFrames(b: Bytes, frames: seq<Frame>, rest: Bytes, sent: seq<Bytes>, keys: nat -> MaskKey) {
    && |rest| < 2 && AllValid(frames) && b == EncodeAll(frames) + rest
    && OnFrames(frames, [], sent, keys).Waiting? && OnFrames(frames, [], sent, keys).assembled == []
  }

  /** A call that runs out of bytes is harmless exactly when they were whole frames, less than a header of the next, and
      no text bytes had been collected: then, and only then, does the next call show with every continuation what one
      call would have shown with everything. */
  lemma TimeoutIsHarmlessExactly(b: Bytes, sent: seq<Bytes>, keys: nat -> MaskKey)
    requires Receive(b, [], sent, keys).OutOfBytes?
    ensures var o := Receive(b, [], sent, keys);
      BetweenMessages(b, sent, keys) <==>
      forall more: Bytes ::
        Shown(Receive(b + more, [], sent, keys)) == Shown(Receive(o.rest + more, [], o.sent, keys))
  {
    hide Receive, ParseFrame, EncodeAll, OnFrames, Shown;
    var o := Receive(b, [], sent, keys);
    var frames, cut := CutPoint(b, [], sent, keys);
    if !o.partial {
      ShortIsStarved(cut, |o.assembled|);
      if o.assembled == [] {
        assert WholeFrames(b, frames, cut, sent, keys);
      }
    }
    if BetweenMessages(b, sent, keys) {
      var whole: seq<Frame>, rest: Bytes :| WholeFrames(b, whole, rest, sent, keys);
      var pongs := OnFrames(whole, [], sent, keys).sent;
      assert b + [] == b && rest + [] == rest;
      GoesOnFromCut(b, whole, rest, [], [], sent, pongs, keys, []);
      ShortIsKept(rest, [], pongs, keys);
      forall more: Bytes
        ensures Receive(b + more, [], sent, keys) == Receive(o.rest + more, [], o.sent, keys)
      {
        GoesOnFromCut(b, whole, rest, [], [], sent, pongs, keys, more);
      }
    } else {
      var more;
      if o.partial {
        more := CutFrameTells(cut, o.assembled, o.rest, o.sent, keys);
      } else {
        WaitingIsCapped(frames, [], sent, keys);
        more := OpenFragmentTells(o.assembled, o.rest, o.sent, keys);
      }
      GoesOnFromCut(b, frames, cut, [], o.assembled, sent, o.sent, keys, more);
    }
  }

  lemma ShortIsStarved(b: Bytes, assembled: nat)
    requires |b| < 2
    ensures ParseFrame(b, assembled) == Starved(b)
  {
  }

  // ----- What is lost -----

  /** Call `n` of a series, each on what the one before left and the next piece to arrive. After the connection has been
      given up there is nothing more. */
  function NthCall(stream: Bytes, sent: seq<Bytes>, pieces: seq<Bytes>, n: nat, keys: nat -> MaskKey): Outcome
    requires n < |pieces|
  {
    if n == 0 then Receive(stream + pieces[0], [], sent, keys)
    else match NthCall(stream, sent, pieces, n - 1, keys)
      case Message(_, rest, pongs) => Receive(rest + pieces[n], [], pongs, keys)
      case OutOfBytes(_, _, rest, pongs) => Receive(rest + pieces[n], [], pongs, keys)
      case GivenUp(rest, pongs) => GivenUp(rest, pongs)
  }

  lemma {:induction false} CallsShrink(stream: Bytes, sent: seq<Bytes>, pieces: seq<Bytes>, n: nat,
                                       keys: nat -> MaskKey)
    requires n < |pieces|
    ensures var o, come := NthCall(stream, sent, pieces, n, keys), |stream| + |Flatten(pieces[..n + 1])|;
      && (o.Message? ==> |o.text| + |o.rest| + 2 <= come)
      && (o.OutOfBytes? ==> |o.rest| <= come)
  {
    hide Receive;
    assert pieces[..n + 1] == pieces[..n] + [pieces[n]];
    FlattenConcat(pieces[..n], [pieces[n]]);
    FlattenOne(pieces[n]);
    if n == 0 {
      assert pieces[..0] == [];
      OutcomeShrinks(stream + pieces[0], [], sent, keys);
    } else {
      CallsShrink(stream, sent, pieces, n - 1, keys);
      var before := NthCall(stream, sent, pieces, n - 1, keys);
      if before.Message? {
        OutcomeShrinks(before.rest + pieces[n], [], before.sent, keys);
      } else if before.OutOfBytes? {
        OutcomeShrinks(before.rest + pieces[n], [], before.sent, keys);
      }
    }
  }

  /** A frame's payload as it is sent, and what is sent before it. */
  function Wire(f: Frame): Bytes {
    if f.key.Some? then Mask(f.payload, f.key.value) else f.payload
  }

  function Head(f: Frame): Bytes
    requires f.Valid()
  {
    var all := Encode(f);
    EncodeLength(f);
    all[..|all| - |f.payload|]
  }

  lemma EncodeLength(f: Frame)
    requires f.Valid()
    ensures |Encode(f)| == 2 + f.extended + (if f.key.Some? then 4 else 0) + |f.payload|
  {
  }

  lemma HeadIs(f: Frame)
    requires f.Valid()
    ensures |Head(f)| >= 2 && Encode(f) == Head(f) + Wire(f)
    ensures Encode(f)[2 + f.extended..] == (if f.key.Some? then f.key.value else []) + Wire(f)
    ensures Head(f)[2 + f.extended..] == if f.key.Some? then f.key.value else []
  {
    EncodeLength(f);
    EncodeParts(f);
    hide Encode, Mask, BigEndian;
    CutInThree(Encode(f), 2 + f.extended, if f.key.Some? then f.key.value else [], Wire(f));
  }

  lemma CutInThree(all: Bytes, n: nat, key: Bytes, wire: Bytes)
    requires n <= |all| && all[n..] == key + wire
    ensures n + |key| == |all| - |wire|
    ensures all == all[..n + |key|] + wire && all[..n + |key|][n..] == key
  {
    assert all[..n + |key|][n..] == all[n..][..|key|];
    assert all == all[..n] + all[n..];
  }

  lemma BehindHeader(head: Bytes, n: nat, more: Bytes)
    requires n <= |head|
    ensures (head + more)[n..] == head[n..] + more
  {
  }

  lemma CutPayloadStarves(fin: bool, opcode: nat, f: Frame, k: nat)
    requires k < |f.payload|
    ensures ParseBody(fin, opcode, f.key.Some?, |f.payload|, (if f.key.Some? then f.key.value else []) + Wire(f)[..k])
            == Starved(Wire(f)[..k])
  {
    hide Mask;
    if f.key.Some? {
      assert (f.key.value + Wire(f)[..k])[4..] == Wire(f)[..k];
    } else {
      assert [] + Wire(f)[..k] == Wire(f)[..k];
    }
  }

  lemma HeaderSurvives(f: Frame, b: Bytes)
    requires f.Valid() && Head(f) <= b && |b| <= |Encode(f)| && b <= Encode(f)
    ensures 2 + f.extended <= |b| && b[0] == Encode(f)[0] && b[1] == Encode(f)[1]
    ensures b[2..2 + f.extended] == Encode(f)[2..2 + f.extended]
  {
    EncodeLength(f);
    hide Encode;
  }

  lemma CutIsPrefix(head: Bytes, wire: Bytes, k: nat)
    requires k <= |wire|
    ensures head <= head + wire[..k] <= head + wire
  {
  }

  lemma HeadLength(f: Frame)
    requires f.Valid()
    ensures |Head(f)| == 2 + f.extended + if f.key.Some? then 4 else 0
  {
    EncodeLength(f);
    hide Encode;
  }

  lemma WireLength(f: Frame)
    ensures |Wire(f)| == |f.payload|
  {
  }

  lemma CutFrameStarves(f: Frame, k: nat)
    requires f.Valid() && k < |f.payload| <= MAX_FRAME_PAYLOAD
    ensures ParseFrame(Head(f) + Wire(f)[..k], 0) == Starved(Wire(f)[..k])
  {
    WireLength(f);
    var b, e := Head(f) + Wire(f)[..k], f.extended;
    EncodeParts(f);
    EncodeLength(f);
    HeadIs(f);
    HeadLength(f);
    hide Encode, Mask, BigEndian, FromBigEndian, ParseFrame, ParseBody, Head, Wire;
    CutIsPrefix(Head(f), Wire(f), k);
    HeaderSurvives(f, b);
    BehindHeader(Head(f), 2 + e, Wire(f)[..k]);
    LengthOf(f);
    ParseHeader(b, e, |f.payload|, b[2 + e..], 0);
    CutPayloadStarves(b[0] >= 128, b[0] % 16, f, k);
  }

  /** The announced length is the payload's. */
  lemma LengthOf(f: Frame)
    requires f.Valid()
    ensures var b := Encode(f);
      |b| >= 2 + f.extended &&
      |f.payload| == if f.extended == 0 then b[1] % 128 else FromBigEndian(b[2..2 + f.extended])
  {
    EncodeParts(f);
    hide Encode, BigEndian, FromBigEndian, Pow256;
    if f.extended > 0 {
      BigEndianInverse(|f.payload|, f.extended);
    }
  }

  /** Whatever one-frame text message it is, with any mask and any form of length: a call that gets its header and only
      part of its payload loses it. However the rest and what is sent later arrives, and however many calls follow, none
      delivers the message in its place, with what was sent later still to come. */
  lemma TimeoutInsideFrameLosesIt(f: Frame, k: nat, later: Bytes, pieces: seq<Bytes>, n: nat, sent: seq<Bytes>,
                                  keys: nat -> MaskKey)
    requires f.Valid() && f.TextPart() && f.fin && k < |f.payload|
    requires n < |pieces| && Flatten(pieces) == Wire(f)[k..] + later
    ensures |f.payload| <= MAX_FRAME_PAYLOAD ==>
              && Receive(Encode(f) + later, [], sent, keys) == Message(f.payload, later, sent)
              && Receive(Head(f) + Wire(f)[..k], [], sent, keys) == OutOfBytes(true, [], Wire(f)[..k], sent)
    ensures var o := NthCall(Wire(f)[..k], sent, pieces, n, keys);
      !(o.Message? && o.text == f.payload && o.rest + Flatten(pieces[n + 1..]) == later)
  {
    hide ParseFrame, PongFrame, CloseFrame, NthCall, Encode;
    if |f.payload| <= MAX_FRAME_PAYLOAD {
      ParseInvertsEncode(f, later, 0);
      ReceiveOne(Encode(f) + later, [], sent, keys);
      CutFrameStarves(f, k);
      HeadIs(f);
      StarvedCall(Head(f) + Wire(f)[..k], sent, keys);
    }
    CallsShrink(Wire(f)[..k], sent, pieces, n, keys);
    FlattenConcat(pieces[..n + 1], pieces[n + 1..]);
    assert pieces[..n + 1] + pieces[n + 1..] == pieces;
    assert [] + f.payload == f.payload;
  }

  lemma PongIsSkipped(n: Byte, s: Bytes, sent: seq<Bytes>, keys: nat -> MaskKey)
    requires n <= 125 && n <= |s|
    ensures Receive([138, n] + s, [], sent, keys) == Receive(s[n..], [], sent, keys)
  {
    hide ParseFrame, PongFrame, CloseFrame;
    ShortFrame(138, n, s, 0);
    ReceiveOne([138, n] + s, [], sent, keys);
  }

  /** Yet a frame cut short need not change any message: a pong that begins with bytes which look like the beginning
      of a shorter pong is made up for by any next byte. Only a second timeout before it would tell. */
  lemma CutPongMayGoUnnoticed(c: Byte, y: Byte, later: Bytes, sent: seq<Bytes>, keys: nat -> MaskKey)
    ensures Receive([138, 4, 138, 2, c], [], sent, keys) == OutOfBytes(true, [], [138, 2, c], sent)
    ensures Receive([138, 4, 138, 2, c, y] + later, [], sent, keys) == Receive([138, 2, c, y] + later, [], sent, keys)
  {
    hide Receive, ParseFrame;
    ShortFrame(138, 4, [138, 2, c], 0);
    assert [138, 4] + [138, 2, c] == [138, 4, 138, 2, c];
    StarvedCall([138, 4, 138, 2, c], sent, keys);
    PongIsSkipped(4, [138, 2, c, y] + later, sent, keys);
    PongIsSkipped(2, [c, y] + later, sent, keys);
    assert [138, 4] + ([138, 2, c, y] + later) == [138, 4, 138, 2, c, y] + later;
    assert [138, 2] + ([c, y] + later) == [138, 2, c, y] + later;
    assert ([138, 2, c, y] + later)[4..] == later && ([c, y] + later)[2..] == later;
  }

  lemma StarvedCall(b: Bytes, sent: seq<Bytes>, keys: nat -> MaskKey)
    ensures ParseFrame(b, 0).Starved? ==>
              Receive(b, [], sent, keys) == OutOfBytes(|b| >= 2, [], ParseFrame(b, 0).rest, sent)
  {
    hide ParseFrame;
  }
}
