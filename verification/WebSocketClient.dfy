/** The framing object: it fills its buffers in place from a transport that may deliver any positive
    number of bytes per call.  Mask keys, random in the source, are parameters. */
module WebSocketClients {
  import opened Options
  import opened ByteOrder
  import opened WebSockets

  lemma {:induction false} BEStep(bytes: Bytes, b: byte)
    ensures BE(bytes + [b]) == 256 * BE(bytes) + b && BE([]) == 0
  {
    assert (bytes + [b])[..|bytes|] == bytes;
  }

  /** A chunk of n bytes received behind the first `total`. */
  lemma MoreReceived(before: Bytes, after: Bytes, all: Bytes, at: nat, total: nat, n: nat)
    requires |before| == |after| && at + total + n <= |after| && total + n <= |all|
    requires before[at..at + total] == all[..total]
    requires after[..at + total] == before[..at + total]
    requires after[at + total..at + total + n] == all[total..][..n]
    ensures after[..at] == before[..at] && after[at..at + total + n] == all[..total + n]
    ensures all[total..][n..] == all[total + n..]
  {
    assert after[..at + total][..at] == before[..at + total][..at];
    assert after[..at + total][at..] == before[..at + total][at..];
    assert after[at..at + total + n] == after[at..at + total] + after[at + total..at + total + n];
  }

  class WebSocket {
    const recvBuf: array<byte>
    var sendBuf: Bytes
    /** Bytes the peer has sent and the transport has not delivered; bytes written to the transport. */
    var incoming: Bytes
    var outgoing: Bytes

    ghost predicate Valid() {
      recvBuf.Length == MAX_FRAME_SIZE
    }

    constructor (stream: Bytes)
      ensures Valid() && incoming == stream && outgoing == [] && fresh(recvBuf)
    {
      recvBuf := new byte[MAX_FRAME_SIZE](_ => 0);
      sendBuf, incoming, outgoing := [], stream, [];
    }

    /** tls.recv: some positive number of bytes, at most len, or 0 at the end of the stream.  The buffer
        must have room for the bytes that come, not for len bytes. */
    method TlsRecv(dst: array<byte>, at: nat, len: nat) returns (n: nat)
      requires len > 0 && at + Min(len, |incoming|) <= dst.Length
      modifies this`incoming, dst
      ensures n <= len && n <= |old(incoming)| && (n == 0 <==> old(incoming) == [])
      ensures incoming == old(incoming)[n..]
      ensures dst[..at] == old(dst[..at]) && dst[at..at + n] == old(incoming)[..n]
    {
      if incoming == [] { return 0; }
      var k :| 1 <= k <= len && k <= |incoming|;
      n := k;
      forall i | 0 <= i < n { dst[at + i] := incoming[i]; }
      incoming := incoming[n..];
    }

    /** Whatever the chunk sizes: exactly len bytes, or everything there was and failure. */
    method RecvExact(dst: array<byte>, at: nat, len: nat) returns (ok: bool)
      requires at + Min(len, |incoming|) <= dst.Length
      modifies this`incoming, dst
      ensures ok <==> len <= |old(incoming)|
      ensures dst[..at] == old(dst[..at])
      ensures ok ==> dst[at..at + len] == old(incoming)[..len] && incoming == old(incoming)[len..]
      ensures !ok ==> incoming == []
    {
      ghost var all, front := incoming, dst[..at];
      ghost var room := at + Min(len, |all|);
      var total := 0;
      while total < len
        invariant 0 <= total <= len && total <= |all| && at + total <= room <= dst.Length
        invariant incoming == all[total..]
        invariant dst[..at] == front && dst[at..at + total] == all[..total]
      {
        ghost var before := dst[..];
        var n := TlsRecv(dst, at + total, len - total);
        if n <= 0 { return false; }
        MoreReceived(before, dst[..], all, at, total, n);
        total := total + n;
      }
      return true;
    }

    /** mask_payload: in place. */
    method MaskPayload(data: array<byte>, at: nat, len: nat, mask: array<byte>)
      requires mask.Length == 4 && at + len <= data.Length && data != mask
      modifies data
      ensures data[at..at + len] == Masked(old(data[at..at + len]), mask[..])
    {
      hide Xor;
      ghost var raw := data[at..at + len];
      for i := 0 to len
        invariant data[at..at + i] == Masked(raw, mask[..])[..i]
        invariant data[at + i..at + len] == raw[i..]
      {
        assert data[at + i] == data[at + i..at + len][0] == raw[i];
        ghost var done, left := data[at..at + i], data[at + i + 1..at + len];
        assert left == data[at + i..at + len][1..];
        data[at + i] := Xor(data[at + i], mask[i % 4]);
        assert data[at..at + i + 1] == done + [data[at + i]];
        assert data[at + i + 1..at + len] == left;
      }
    }

    /** The masked copy both senders append to their header. */
    method AppendMasked(payload: Bytes, mask: Bytes)
      requires |mask| == 4
      modifies this`sendBuf
      ensures sendBuf == old(sendBuf) + mask + Masked(payload, mask)
    {
      hide Xor;
      sendBuf := sendBuf + mask;
      ghost var head := sendBuf;
      for i := 0 to |payload|
        invariant sendBuf == head + Masked(payload, mask)[..i]
      {
        sendBuf := sendBuf + [Xor(payload[i], mask[i % 4])];
      }
      assert Masked(payload, mask)[..|payload|] == Masked(payload, mask);
    }

    method SendFrame(payload: Bytes, opcode: byte, mask: Bytes)
      requires |mask| == 4
      modifies this`sendBuf, this`outgoing
      ensures outgoing == old(outgoing) + EncodeFrame(opcode, payload, mask)
    {
      hide Masked, BEBytes;
      var len := |payload|;
      sendBuf := [0x80 + opcode % 16];
      if len <= 125 {
        sendBuf := sendBuf + [0x80 + len];
      } else if len <= 65535 {
        sendBuf := sendBuf + [0x80 + 126];
        sendBuf := sendBuf + BEBytes(len, 2);
      } else {
        sendBuf := sendBuf + [0x80 + 127];
        sendBuf := sendBuf + BEBytes(len, 8);
      }
      assert sendBuf == [0x80 + opcode % 16] + LengthField(len, true);
      AppendMasked(payload, mask);
      outgoing := outgoing + sendBuf;
    }

    method SendControlFrame(payload: Bytes, opcode: byte, mask: Bytes) returns (sent: bool)
      requires |mask| == 4
      modifies this`sendBuf, this`outgoing
      ensures sent <==> |payload| <= 125
      ensures outgoing == old(outgoing) + ControlFrame(opcode, payload, mask)
    {
      hide Masked;
      sendBuf := [0x80 + opcode % 16];
      if |payload| > 125 { return false; }
      sendBuf := sendBuf + [0x80 + |payload|];
      assert sendBuf == [0x80 + opcode % 16] + LengthField(|payload|, true);
      AppendMasked(payload, mask);
      outgoing := outgoing + sendBuf;
      return true;
    }

    /** The header, read piecewise into the front of the buffer. */
    method RecvHeader() returns (h: Header)
      requires Valid()
      modifies this`incoming, recvBuf
      ensures h == ReadHeader(old(incoming))
      ensures incoming == if h.Cut? then [] else old(incoming)[h.offset..]
    {
      hide BE;
      ghost var s := incoming;
      BEStep([], 0);
      var ok := RecvExact(recvBuf, 0, 2);
      if !ok { return Cut; }
      var byte1, byte2 := recvBuf[..2][0], recvBuf[..2][1];
      assert byte1 == s[..2][0] && byte2 == s[..2][1];
      var fin, opcode, masked := byte1 >= 128, byte1 % 16, byte2 >= 128;
      var len7: nat := byte2 % 128;
      var payloadLen: nat, offset: nat := len7, 2;
      if len7 == 126 {
        ok := RecvExact(recvBuf, 2, 2);
        if !ok { return Cut; }
        payloadLen, offset := BE(recvBuf[2..4]), 4;
        assert s[2..][..2] == s[2..4];
      } else if len7 == 127 {
        ok := RecvExact(recvBuf, 2, 8);
        if !ok { return Cut; }
        ghost var got := recvBuf[2..10];
        assert s[2..][..8] == s[2..10] && s[2..][8..] == s[10..];
        payloadLen, offset := 0, 10;
        for i := 0 to 8
          invariant recvBuf[2..10] == got && incoming == s[10..]
          invariant payloadLen == BE(got[..i])
        {
          assert got[i] == recvBuf[2..10][i] == recvBuf[2 + i];
          BEStep(got[..i], got[i]);
          assert got[..i] + [got[i]] == got[..i + 1];
          payloadLen := payloadLen * 256 + recvBuf[2 + i];
        }
        assert got[..8] == got;
      }
      h := Header(fin, opcode, masked, offset, payloadLen);
    }

    /** Mask key and payload; the payload is unmasked in place. */
    method RecvPayload(h: Header) returns (ok: bool)
      requires Valid() && h.Header?
      requires var from := if h.masked then 4 else 0;
               |incoming| < from || h.offset + Min(h.len, |incoming| - from) <= recvBuf.Length
      modifies this`incoming, recvBuf
      ensures var from := if h.masked then 4 else 0;
              && ok == (from + h.len <= |old(incoming)|)
              && incoming == (if ok then old(incoming)[from + h.len..] else [])
              && (ok ==>
                    recvBuf[h.offset..h.offset + h.len] ==
                    if h.masked then Masked(old(incoming)[4..4 + h.len], old(incoming)[..4]) else old(incoming)[..h.len])
    {
      hide Masked;
      ghost var s := incoming;
      var mask := new byte[4](_ => 0);
      if h.masked {
        ok := RecvExact(mask, 0, 4);
        if !ok { return false; }
        assert mask[..] == mask[0..4] == s[..4];
      }
      ghost var from := if h.masked then 4 else 0;
      ok := RecvExact(recvBuf, h.offset, h.len);
      if !ok { return false; }
      assert s[from..][..h.len] == s[from..from + h.len] && s[from..][h.len..] == s[from + h.len..];
      if h.masked {
        MaskPayload(recvBuf, h.offset, h.len, mask);
      }
    }

    /** read_frame: the payload it returns is a stretch of the receive buffer. */
    method ReadFrame(pongMask: Bytes) returns (frame: Option<Frame>, start: nat)
      requires Valid() && |pongMask| == 4 && !ReadSpec(incoming, pongMask).Overrun?
      modifies this, recvBuf
      ensures frame == ReadSpec(old(incoming), pongMask).frame
      ensures incoming == ReadSpec(old(incoming), pongMask).rest
      ensures outgoing == old(outgoing) + ReadSpec(old(incoming), pongMask).reply
      ensures frame.Some? ==> start + |frame.value.payload| <= recvBuf.Length
                              && recvBuf[start..start + |frame.value.payload|] == frame.value.payload
    {
      hide ReadHeader, Masked, ControlFrame;
      ghost var s := incoming;
      var h := RecvHeader();
      if h.Cut? || h.len > MAX_FRAME_SIZE { return None, 0; }
      PartsOfRest(s, h.offset, if h.masked then 4 else 0, h.len);
      var ok := RecvPayload(h);
      if !ok { return None, 0; }
      var payload := recvBuf[h.offset..h.offset + h.len];
      if h.opcode == PING {
        var sent := SendControlFrame(payload, PONG, pongMask);
        return None, 0;
      }
      return Some(Frame(h.fin, h.opcode, payload)), h.offset;
    }
  }

  lemma PartsOfRest(s: Bytes, offset: nat, skip: nat, len: nat)
    requires offset <= |s|
    ensures offset + skip + len <= |s| ==>
              && s[offset..][..skip] == s[offset..offset + skip]
              && s[offset..][skip..skip + len] == s[offset + skip..offset + skip + len]
              && s[offset..][skip + len..] == s[offset + skip + len..]
  {
  }
}
