/** The receiving half of the WebSocket client: a compacting buffer over a stream that arrives in arbitrary pieces, and
    the loop that takes one text message off it. */
module WebSocketClient {
  import opened Basics
  import opened WebSocketFrames

  class WebSocketClient {
    var recvBuffer: Bytes
    var recvPos: nat
    /** What the socket will still deliver, piece by piece. */
    var chunks: seq<Bytes>
    /** What reading the socket gives when nothing is left: 0 for a timeout, -1 for an error or a close. */
    var whenDrained: int
    var sent: seq<Bytes>

    ghost predicate Valid()
      reads this
    {
      recvPos <= |recvBuffer| && (whenDrained == 0 || whenDrained == -1) && forall c <- chunks :: c != []
    }

    /** The bytes not consumed yet, buffered or still to come, however they are cut into pieces. */
    ghost function Pending(): Bytes
      reads this
      requires Valid()
    {
      recvBuffer[recvPos..] + Flatten(chunks)
    }

    constructor (chunks: seq<Bytes>, whenDrained: int)
      requires (whenDrained == 0 || whenDrained == -1) && forall c <- chunks :: c != []
      ensures Valid() && Pending() == Flatten(chunks) && sent == [] && this.whenDrained == whenDrained
    {
      recvBuffer, recvPos, this.chunks, this.whenDrained, sent := [], 0, chunks, whenDrained, [];
    }

    method FillBuffer() returns (r: int)
      requires Valid()
      modifies this`recvBuffer, this`chunks
      ensures Valid() && Pending() == old(Pending())
      ensures r == (if old(chunks) == [] then whenDrained else 1)
      ensures if old(chunks) == [] then recvBuffer == old(recvBuffer) && chunks == [] else
        chunks == old(chunks)[1..] && recvBuffer == old(recvBuffer) + old(chunks)[0]
    {
      if chunks == [] {
        return whenDrained;
      }
      FlattenFirst(chunks);
      assert forall c <- chunks[1..] :: c in chunks;
      assert (recvBuffer + chunks[0])[recvPos..] == recvBuffer[recvPos..] + chunks[0];
      recvBuffer, chunks := recvBuffer + chunks[0], chunks[1..];
      return 1;
    }

    /** Takes exactly `len` bytes off the stream, or none when there are not that many. Consumed bytes never make up
        more than half of the buffer afterwards. */
    method ReadExact(len: nat) returns (r: int, out: Bytes)
      requires Valid()
      modifies this`recvBuffer, this`recvPos, this`chunks
      ensures Valid()
      ensures r == 1 <==> len <= |old(Pending())|
      ensures r == 1 ==> out == old(Pending())[..len] && Pending() == old(Pending())[len..]
      ensures r == 1 ==> 2 * recvPos <= |recvBuffer|
      ensures r != 1 ==> r == whenDrained && Pending() == old(Pending()) && chunks == []
    {
      out := [];
      while |recvBuffer| - recvPos < len
        invariant Valid() && Pending() == old(Pending())
        decreases |chunks|
      {
        var filled := FillBuffer();
        if filled <= 0 {
          assert Flatten(chunks) == [];
          return filled, [];
        }
      }
      ghost var before := Pending();
      out := recvBuffer[recvPos..recvPos + len];
      recvPos := recvPos + len;
      assert Pending() == before[len..];
      if recvPos > 0 && recvPos * 2 > |recvBuffer| {
        recvBuffer := recvBuffer[recvPos..];
        recvPos := 0;
      }
      return 1, out;
    }

    method SendPong(payload: Bytes, key: MaskKey)
      modifies this`sent
      ensures sent == old(sent) + [PongFrame(payload, key)]
    {
      var frame := [0x80 + 0x0A];
      if |payload| <= 125 {
        frame := frame + [0x80 + |payload|];
      } else {
        frame := frame + [0x80 + 126, |payload| / 256 % 256, |payload| % 256];
      }
      frame := frame + key;
      ghost var head := frame;
      for i := 0 to |payload|
        invariant frame == head + Mask(payload, key)[..i]
      {
        frame := frame + [Xor(payload[i], key[i % 4])];
      }
      assert Mask(payload, key)[..|payload|] == Mask(payload, key);
      sent := sent + [frame];
    }

    /** Reads one frame; the codes are those of ReadExact, with -1 for an oversized one. */
    method ReadFrame(assembled: nat) returns (r: int, fin: bool, opcode: nat, payload: Bytes)
      requires Valid()
      modifies this`recvBuffer, this`recvPos, this`chunks
      ensures Valid()
      ensures match ParseFrame(old(Pending()), assembled)
        case Got(f, o, p, rest) => r == 1 && (fin, opcode, payload) == (f, o, p) && Pending() == rest
        case Starved(rest) => r == whenDrained && Pending() == rest
        case TooBig(rest) => r == -1 && Pending() == rest
    {
      hide Flatten, Mask, ParseFrame, ParseBody;
      fin, opcode, payload := false, 0, [];
      ghost var all := Pending();
      var header: Bytes;
      r, header := ReadExact(2);
      if r <= 0 {
        StarvedInHeader(all, assembled);
        return;
      }
      var masked, len := header[1] >= 128, header[1] % 128;
      var extended := ExtendedBytes(len);
      if extended > 0 {
        var ext;
        r, ext := ReadExact(extended);
        if r <= 0 {
          StarvedInHeader(all, assembled);
          return;
        }
        assert all[2..][..extended] == all[2..2 + extended] && all[2..][extended..] == all[2 + extended..];
        len := 0;
        for i := 0 to extended
          invariant len == FromBigEndian(ext[..i]) && Valid() && Pending() == all[2 + extended..]
        {
          BigEndianStep(ext, i);
          len := len * 256 + ext[i];
        }
        assert ext[..extended] == ext;
      } else {
        assert all[2..] == all[2 + extended..];
      }
      ghost var body := Pending();
      ParseHeader(all, extended, len, body, assembled);
      if len > MAX_FRAME_PAYLOAD || assembled + len > MAX_FRAME_PAYLOAD {
        return -1, false, 0, [];
      }
      r, payload := ReadBody(masked, len);
      BodyPayload(header[0] >= 128, header[0] % 16, masked, len, body);
      fin, opcode := header[0] >= 128, header[0] % 16;
    }

    method ReadBody(masked: bool, len: nat) returns (r: int, payload: Bytes)
      requires Valid()
      modifies this`recvBuffer, this`recvPos, this`chunks
      ensures Valid()
      ensures match ParseBody(true, 0, masked, len, old(Pending()))
        case Got(_, _, p, rest) => r == 1 && payload == p && Pending() == rest
        case Starved(rest) => r == whenDrained && Pending() == rest
        case TooBig(_) => false
    {
      hide Flatten;
      var maskKey: MaskKey := [0, 0, 0, 0];
      payload := [];
      if masked {
        var key;
        r, key := ReadExact(4);
        if r <= 0 {
          return;
        }
        maskKey := key;
      }
      r := 1;
      if len > 0 {
        r, payload := ReadExact(len);
        if r <= 0 {
          return;
        }
        if masked {
          ghost var wire, rest := payload, Pending();
          for i := 0 to |payload|
            invariant |payload| == |wire| && Valid() && Pending() == rest
            invariant forall j :: 0 <= j < i ==> payload[j] == Xor(wire[j], maskKey[j % 4])
            invariant forall j :: i <= j < |wire| ==> payload[j] == wire[j]
          {
            payload := payload[i := Xor(payload[i], maskKey[i % 4])];
          }
          assert payload == Mask(wire, maskKey);
        }
      }
    }

    /** One text message, or the reason there is none. However the stream was cut into pieces, the result is that of the
        loop on the bytes themselves. */
    method ReceiveTextMessage(keys: nat -> MaskKey) returns (r: int, message: Bytes)
      requires Valid()
      modifies this`recvBuffer, this`recvPos, this`chunks, this`sent
      ensures Valid()
      ensures match Receive(old(Pending()), [], old(sent), keys)
        case Message(text, rest, pongs) => r == 1 && message == text && Pending() == rest && sent == pongs
        case OutOfBytes(_, _, rest, pongs) => r == whenDrained && Pending() == rest && sent == pongs
        case GivenUp(rest, pongs) => r == -1 && Pending() == rest && sent == pongs
    {
      hide ParseFrame, PongFrame, CloseFrame, Flatten;
      message := [];
      var assembled: Bytes := [];
      while true
        invariant Valid()
        invariant Receive(old(Pending()), [], old(sent), keys) == Receive(Pending(), assembled, sent, keys)
        decreases |Pending()|
      {
        GotConsumes(Pending(), |assembled|);
        var fin, opcode, payload;
        r, fin, opcode, payload := ReadFrame(|assembled|);
        if r <= 0 {
          return;
        }
        if opcode == 9 {
          SendPong(payload, keys(|sent|));
        } else if opcode == 8 {
          sent := sent + [CloseFrame(keys(|sent|))];
          return -1, [];
        } else if opcode == 0 || opcode == 1 {
          assembled := assembled + payload;
          if fin {
            return 1, assembled;
          }
        }
      }
    }
  }

  lemma StarvedInHeader(b: Bytes, assembled: nat)
    requires |b| < 2 || |b| - 2 < ExtendedBytes(b[1] % 128)
    ensures ParseFrame(b, assembled) == Starved(if |b| < 2 then b else b[2..])
  {
  }

  lemma BigEndianStep(b: Bytes, i: nat)
    requires i < |b|
    ensures FromBigEndian(b[..i + 1]) == FromBigEndian(b[..i]) * 256 + b[i]
  {
    assert b[..i + 1][..i] == b[..i];
  }

  lemma BodyPayload(fin: bool, opcode: nat, masked: bool, len: nat, b: Bytes)
    ensures ParseBody(fin, opcode, masked, len, b)
            == match ParseBody(true, 0, masked, len, b)
               case Got(_, _, payload, rest) => Got(fin, opcode, payload, rest)
               case other => other
  {
  }

  /** A session: messages sent one after the other, each as frames that complete one text, arrive one per call. */
  lemma MessageAfterMessage(first: seq<Frame>, later: seq<Frame>, sent: seq<Bytes>, keys: nat -> MaskKey)
    requires forall f <- first + later :: f.Valid()
    requires OnFrames(first, [], sent, keys).Completed? && OnFrames(first, [], sent, keys).used == |first|
    ensures var o := OnFrames(first, [], sent, keys);
      Receive(EncodeAll(first) + EncodeAll(later), [], sent, keys) == Message(o.text, EncodeAll(later), o.sent)
  {
    assert (forall f <- first :: f in first + later) && forall f <- later :: f in first + later;
    ReceiveDecodesFrames(first, EncodeAll(later), [], sent, keys);
    assert first[|first|..] == [] && EncodeAll([]) + EncodeAll(later) == EncodeAll(later);
  }
}
