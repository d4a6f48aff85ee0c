/** WebSocket framing (sections 5.2, 5.3, 5.5.2 and 5.5.3 of RFC 6455) over a transport that delivers
    bytes in chunks of any positive size. */
module WebSockets {
  import opened Options
  import opened ByteOrder
  import opened ModArith

  const MAX_FRAME_SIZE: nat := 8192
  const PING: byte := 0x9
  const PONG: byte := 0xA

  // ----- bytes -----

  /** Bitwise exclusive or of the low n bits. */
  function XorBits(a: nat, b: nat, n: nat): (x: nat)
    ensures x < Pow2(n)
  {
    if n == 0 then 0 else (if a % 2 == b % 2 then 0 else 1) + 2 * XorBits(a / 2, b / 2, n - 1)
  }

  function Xor(a: byte, b: byte): byte {
    assert Pow2(8) == 256 by { assert Pow2(4) == 16; }
    XorBits(a, b, 8)
  }

  lemma {:induction false} XorBitsTwice(a: nat, b: nat, n: nat)
    requires a < Pow2(n)
    ensures XorBits(XorBits(a, b, n), b, n) == a
  {
    if n > 0 {
      XorBitsTwice(a / 2, b / 2, n - 1);
      var x := XorBits(a, b, n);
      assert x / 2 == XorBits(a / 2, b / 2, n - 1) && x % 2 == if a % 2 == b % 2 then 0 else 1;
    }
  }

  lemma XorTwice(a: byte, b: byte)
    ensures Xor(Xor(a, b), b) == a
  {
    assert Pow2(8) == 256 by { assert Pow2(4) == 16; }
    XorBitsTwice(a, b, 8);
  }

  /** Network byte order. */
  function BE(bytes: Bytes): nat {
    if bytes == [] then 0 else 256 * BE(bytes[..|bytes| - 1]) + bytes[|bytes| - 1]
  }

  function BEBytes(x: nat, w: nat): (bytes: Bytes)
    ensures |bytes| == w
  {
    if w == 0 then [] else BEBytes(x / 256, w - 1) + [x % 256]
  }

  lemma {:induction false} BERoundTrip(x: nat, w: nat)
    requires x < Pow256(w)
    ensures BE(BEBytes(x, w)) == x
  {
    if w > 0 {
      BERoundTrip(x / 256, w - 1);
      assert BEBytes(x, w)[..w - 1] == BEBytes(x / 256, w - 1);
    }
  }

  /** Masking: octet i is combined with octet i modulo 4 of the key. */
  function Masked(data: Bytes, mask: Bytes): (m: Bytes)
    requires |mask| == 4
    ensures |m| == |data|
  {
    seq(|data|, i requires 0 <= i < |data| => Xor(data[i], mask[i % 4]))
  }

  lemma MaskingIsAnInvolution(data: Bytes, mask: Bytes)
    requires |mask| == 4
    ensures Masked(Masked(data, mask), mask) == data
  {
    hide Xor;
    forall i | 0 <= i < |data| ensures Masked(Masked(data, mask), mask)[i] == data[i] {
      XorTwice(data[i], mask[i % 4]);
    }
  }

  // ----- frames -----

  /** The length in its shortest form, after the mask bit. */
  function LengthField(len: nat, masked: bool): Bytes {
    var bit := if masked then 0x80 else 0;
    if len <= 125 then [bit + len]
    else if len <= 65535 then [bit + 126] + BEBytes(len, 2)
    else [bit + 127] + BEBytes(len, 8)
  }

  function EncodeFrame(opcode: byte, payload: Bytes, mask: Bytes): Bytes
    requires |mask| == 4
  {
    [0x80 + opcode % 16] + LengthField(|payload|, true) + mask + Masked(payload, mask)
  }

  datatype Frame = Frame(fin: bool, opcode: byte, payload: Bytes)
  /** What reading one frame does to the stream of incoming bytes: the frame handed out, the bytes left,
      and the frame written in answer (none, or one pong).  `Overrun` is the case in which more
      payload arrives than there is room for behind the header in the receive buffer: the source writes
      past the buffer's end and nothing is promised. */
  datatype Read = Read(frame: Option<Frame>, rest: Bytes, reply: Bytes) | Overrun

  function ExtraLen(len7: nat): nat { if len7 == 126 then 2 else if len7 == 127 then 8 else 0 }

  /** Header as far as the payload length. */
  datatype Header = Cut | Header(fin: bool, opcode: byte, masked: bool, offset: nat, len: nat)

  function ReadHeader(s: Bytes): (h: Header)
    ensures h.Header? ==> 2 <= h.offset <= |s|
  {
    if |s| < 2 then Cut
    else
      var len7 := s[1] % 128;
      var offset := 2 + ExtraLen(len7);
      if |s| < offset then Cut
      else Header(s[0] >= 128, s[0] % 16, s[1] >= 128, offset, if len7 < 126 then len7 else BE(s[2..offset]))
  }

  /** A pong is sent only when its payload fits a control frame. */
  function ControlFrame(opcode: byte, payload: Bytes, mask: Bytes): Bytes
    requires |mask| == 4
  {
    if |payload| > 125 then [] else EncodeFrame(opcode, payload, mask)
  }

  function Min(a: nat, b: nat): nat { if a <= b then a else b }

  function ReadSpec(s: Bytes, pongMask: Bytes): Read
    requires |pongMask| == 4
  {
    var h := ReadHeader(s);
    if h.Cut? then Read(None, [], [])
    else if h.len > MAX_FRAME_SIZE then Read(None, s[h.offset..], [])
    else
      var start := h.offset + (if h.masked then 4 else 0);
      if |s| < start then Read(None, [], [])
      else if h.offset + Min(h.len, |s| - start) > MAX_FRAME_SIZE then Overrun
      else if |s| < start + h.len then Read(None, [], [])
      else
        var raw := s[start..start + h.len];
        var payload := if h.masked then Masked(raw, s[h.offset..h.offset + 4]) else raw;
        if h.opcode == PING then Read(None, s[start + h.len..], ControlFrame(PONG, payload, pongMask))
        else Read(Some(Frame(h.fin, h.opcode, payload)), s[start + h.len..], [])
  }

  /** Header (without mask key) and payload of a frame, which the source writes one behind the other into
      its receive buffer, checking the payload alone against MAX_FRAME_SIZE. */
  function BufferUse(len: nat, masked: bool): nat { 1 + |LengthField(len, masked)| + len }

  // ----- round trips -----

  /** Each of the three length forms is read back. */
  lemma LengthRead(first: byte, len: nat, masked: bool, tail: Bytes)
    requires len < Pow256(8)
    ensures ReadHeader([first] + LengthField(len, masked) + tail)
            == Header(first >= 128, first % 16, masked, 1 + |LengthField(len, masked)|, len)
  {
    var s := [first] + LengthField(len, masked) + tail;
    if len <= 125 {
      assert s[1] == (if masked then 0x80 else 0) + len;
    } else if len <= 65535 {
      assert Pow256(2) == 65536 by { assert Pow256(1) == 256; }
      ExtendedLengthRead(first, 126, len, masked, 2, tail);
    } else {
      ExtendedLengthRead(first, 127, len, masked, 8, tail);
    }
  }

  lemma {:induction false} ExtendedLengthRead(first: byte, form: byte, len: nat, masked: bool, w: nat, tail: Bytes)
    requires len < Pow256(w) && ((form == 126 && w == 2) || (form == 127 && w == 8))
    ensures ReadHeader([first] + ([(if masked then 0x80 else 0) + form] + BEBytes(len, w)) + tail)
            == Header(first >= 128, first % 16, masked, 2 + w, len)
  {
    hide BE, BEBytes, Pow256;
    var second: byte := (if masked then 0x80 else 0) + form;
    var ext := BEBytes(len, w);
    var s := [first] + ([second] + ext) + tail;
    assert s == [first, second] + ext + tail;
    assert s[2..2 + w] == ext;
    BERoundTrip(len, w);
  }

  /** An unmasked frame, as a server sends it. */
  function ServerFrame(fin: bool, opcode: byte, payload: Bytes): Bytes {
    [(if fin then 0x80 else 0) + opcode % 16] + LengthField(|payload|, false) + payload
  }

  lemma ServerHeader(fin: bool, opcode: byte, payload: Bytes, rest: Bytes)
    requires |payload| < Pow256(8)
    ensures var s := ServerFrame(fin, opcode, payload) + rest;
            var n := 1 + |LengthField(|payload|, false)|;
            && |s| == n + |payload| + |rest| && |ServerFrame(fin, opcode, payload)| >= n
            && ReadHeader(s) == Header(fin, opcode % 16, false, n, |payload|)
            && s[n..n + |payload|] == payload && s[n + |payload|..] == rest
  {
    hide ReadHeader, LengthField, Pow256;
    var first: byte := (if fin then 0x80 else 0) + opcode % 16;
    var head := [first] + LengthField(|payload|, false);
    assert ServerFrame(fin, opcode, payload) + rest == head + (payload + rest);
    LengthRead(first, |payload|, false, payload + rest);
    PartsOfFrame(head, payload, rest);
  }

  /** A server's frame, first, middle or last of a message and not a ping, is read back exactly when
      header and payload together fit the buffer; a payload that fits it only alone overruns it. */
  lemma ServerFrameRead(fin: bool, opcode: byte, payload: Bytes, rest: Bytes, pongMask: Bytes)
    requires |pongMask| == 4 && opcode % 16 != PING && |payload| < Pow256(8)
    ensures var r := ReadSpec(ServerFrame(fin, opcode, payload) + rest, pongMask);
            && (BufferUse(|payload|, false) <= MAX_FRAME_SIZE
                <==> r == Read(Some(Frame(fin, opcode % 16, payload)), rest, []))
            && (|payload| <= MAX_FRAME_SIZE < BufferUse(|payload|, false) <==> r == Overrun)
  {
    hide ReadHeader, LengthField, Pow256, ServerFrame;
    ServerHeader(fin, opcode, payload, rest);
  }

  lemma PartsOfFrame(head: Bytes, payload: Bytes, rest: Bytes)
    ensures var s := head + (payload + rest);
            s[|head|..|head| + |payload|] == payload && s[|head| + |payload|..] == rest
  {
  }

  lemma EncodedHeader(opcode: byte, payload: Bytes, mask: Bytes, rest: Bytes)
    requires |mask| == 4 && |payload| < Pow256(8)
    ensures var s := EncodeFrame(opcode, payload, mask) + rest;
            var n := 1 + |LengthField(|payload|, true)|;
            && |s| == n + 4 + |payload| + |rest|
            && ReadHeader(s) == Header(true, opcode % 16, true, n, |payload|)
            && s[n..n + 4] == mask && s[n + 4..n + 4 + |payload|] == Masked(payload, mask)
            && s[n + 4 + |payload|..] == rest
  {
    hide Masked, ReadHeader, LengthField, Pow256;
    var first: byte := 0x80 + opcode % 16;
    var field := LengthField(|payload|, true);
    var tail := mask + Masked(payload, mask) + rest;
    var s := EncodeFrame(opcode, payload, mask) + rest;
    assert s == [first] + field + tail;
    LengthRead(first, |payload|, true, tail);
    var n := 1 + |field|;
    assert |[first] + field| == n;
    assert s[n..] == tail;
    assert s[n..n + 4] == tail[..4] == mask;
    assert s[n + 4..n + 4 + |payload|] == tail[4..4 + |payload|] == Masked(payload, mask);
    assert s[n + 4 + |payload|..] == tail[4 + |payload|..] == rest;
  }

  /** A frame written by send_frame, not a ping, is read back whole, whatever follows it, exactly when
      header and payload together fit the buffer.  The source compares the payload alone with the
      buffer's size: the few lengths in between overrun it. */
  lemma FrameRoundTrip(opcode: byte, payload: Bytes, mask: Bytes, rest: Bytes, pongMask: Bytes)
    requires |mask| == 4 && |pongMask| == 4 && opcode % 16 != PING && |payload| < Pow256(8)
    ensures var r := ReadSpec(EncodeFrame(opcode, payload, mask) + rest, pongMask);
            && (BufferUse(|payload|, true) <= MAX_FRAME_SIZE
                <==> r == Read(Some(Frame(true, opcode % 16, payload)), rest, []))
            && (|payload| <= MAX_FRAME_SIZE < BufferUse(|payload|, true) <==> r == Overrun)
  {
    hide Masked, EncodeFrame, ReadHeader, Pow256, LengthField;
    EncodedHeader(opcode, payload, mask, rest);
    MaskingIsAnInvolution(payload, mask);
  }

  /** The lengths that pass the source's check and do not fit. */
  lemma OverrunningLengths(len: nat, masked: bool)
    ensures len <= MAX_FRAME_SIZE < BufferUse(len, masked) <==> 8189 <= len <= 8192
    ensures BufferUse(len, masked) <= MAX_FRAME_SIZE <==> len <= 8188
  {
  }

  /** A ping is answered: no frame is handed out, and the reply, read by the other end, is a pong with
      the ping's payload, exactly when that payload fits a control frame.  A ping is subject to the same
      overrun as any frame. */
  lemma PingIsAnswered(payload: Bytes, mask: Bytes, rest: Bytes, pongMask: Bytes, otherMask: Bytes)
    requires |mask| == 4 && |pongMask| == 4 && |otherMask| == 4 && |payload| < Pow256(8)
    ensures var r := ReadSpec(EncodeFrame(PING, payload, mask) + rest, pongMask);
            && (|payload| <= MAX_FRAME_SIZE < BufferUse(|payload|, true) <==> r == Overrun)
            && (r.Read? ==> r.frame == None)
            && (BufferUse(|payload|, true) <= MAX_FRAME_SIZE ==> r.Read? && r.rest == rest)
            && (|payload| <= 125
                <==> r.Read? && ReadSpec(r.reply, otherMask) == Read(Some(Frame(true, PONG, payload)), [], []))
  {
    hide Masked, EncodeFrame, ReadHeader, LengthField, Pow256;
    EncodedHeader(PING, payload, mask, rest);
    MaskingIsAnInvolution(payload, mask);
    FrameRoundTrip(PONG, payload, pongMask, [], otherMask);
    assert EncodeFrame(PONG, payload, pongMask) + [] == EncodeFrame(PONG, payload, pongMask);
    NothingToRead(otherMask);
    OverrunningLengths(|payload|, true);
  }

  lemma NothingToRead(mask: Bytes)
    requires |mask| == 4
    ensures ReadSpec([], mask) == Read(None, [], [])
  {
  }

  // ----- streams -----

  type Mask = m: Bytes | |m| == 4 witness [0, 0, 0, 0]

  /** A frame on the wire: masked, as send_frame writes it (with the fin bit set), or not, as a server
      sends it. */
  datatype Sent = Sent(fin: bool, opcode: byte, payload: Bytes, mask: Option<Mask>)

  function Wire(f: Sent): Bytes {
    match f.mask
    case Some(mask) => EncodeFrame(f.opcode, f.payload, mask)
    case None => ServerFrame(f.fin, f.opcode, f.payload)
  }

  function HeaderSize(f: Sent): nat { 1 + |LengthField(|f.payload|, f.mask.Some?)| }
  ghost predicate Fits(f: Sent) { BufferUse(|f.payload|, f.mask.Some?) <= MAX_FRAME_SIZE }
  predicate IsPing(f: Sent) { f.opcode % 16 == PING }

  function Received(f: Sent): Frame { Frame(f.mask.Some? || f.fin, f.opcode % 16, f.payload) }

  function Reply(f: Sent, pongMask: Bytes): Bytes
    requires |pongMask| == 4
  {
    if IsPing(f) then ControlFrame(PONG, f.payload, pongMask) else []
  }

  /** One read of a frame, pings included: handed out or answered if it fits the buffer; written past the
      buffer's end if only its payload does; refused if not even that, and then reading goes on inside
      the frame, with its mask key and payload taken for frames. */
  lemma ReadOne(f: Sent, rest: Bytes, pongMask: Bytes)
    requires |pongMask| == 4 && |f.payload| < Pow256(8)
    ensures |Wire(f)| >= HeaderSize(f)
    ensures var r := ReadSpec(Wire(f) + rest, pongMask);
            if Fits(f) then r == Read(if IsPing(f) then None else Some(Received(f)), rest, Reply(f, pongMask))
            else if |f.payload| <= MAX_FRAME_SIZE then r == Overrun
            else r == Read(None, Wire(f)[HeaderSize(f)..] + rest, [])
  {
    hide Masked, EncodeFrame, ServerFrame, ReadHeader, Pow256, LengthField, ControlFrame;
    match f.mask
    case Some(mask) =>
      EncodedHeader(f.opcode, f.payload, mask, rest);
      MaskingIsAnInvolution(f.payload, mask);
      DropFront(Wire(f), rest, HeaderSize(f));
    case None =>
      ServerHeader(f.fin, f.opcode, f.payload, rest);
      DropFront(Wire(f), rest, HeaderSize(f));
  }

  lemma DropFront(s: Bytes, rest: Bytes, n: nat)
    requires n <= |s|
    ensures (s + rest)[n..] == s[n..] + rest
  {
  }

  function Stream(frames: seq<Sent>): Bytes {
    if frames == [] then [] else Wire(frames[0]) + Stream(frames[1..])
  }

  /** What k reads in a row, as the ingester makes them, hand out, answer and leave; a read that hands out
      nothing does not end them. */
  datatype Session = Session(frames: seq<Frame>, replies: Bytes, rest: Bytes) | Broken

  function ReadMany(s: Bytes, k: nat, pongMask: Bytes): Session
    requires |pongMask| == 4
    decreases k
  {
    if k == 0 then Session([], [], s)
    else
      match ReadSpec(s, pongMask)
      case Overrun => Broken
      case Read(frame, rest, reply) =>
        match ReadMany(rest, k - 1, pongMask)
        case Broken => Broken
        case Session(frames, replies, left) =>
          Session((if frame.Some? then [frame.value] else []) + frames, reply + replies, left)
  }

  /** Everything but the pings, and the answers to those. */
  function AllReceived(frames: seq<Sent>): seq<Frame> {
    if frames == [] then []
    else (if IsPing(frames[0]) then [] else [Received(frames[0])]) + AllReceived(frames[1..])
  }

  function AllReplies(frames: seq<Sent>, pongMask: Bytes): Bytes
    requires |pongMask| == 4
  {
    if frames == [] then [] else Reply(frames[0], pongMask) + AllReplies(frames[1..], pongMask)
  }

  /** Any sequence of frames that fit the buffer, masked or not, pings among them or not: the reads hand
      out every frame that is not a ping, in order and unchanged, answer every ping, and leave what
      follows the frames untouched. */
  lemma {:induction false} StreamRoundTrip(frames: seq<Sent>, tail: Bytes, pongMask: Bytes)
    requires |pongMask| == 4 && forall i :: 0 <= i < |frames| ==> Fits(frames[i])
    ensures ReadMany(Stream(frames) + tail, |frames|, pongMask)
            == Session(AllReceived(frames), AllReplies(frames, pongMask), tail)
    decreases |frames|
  {
    hide Wire, ReadSpec, Pow256, Reply;
    if frames == [] {
      assert [] + tail == tail;
    } else {
      EightBytes();
      assert Fits(frames[0]);
      ReadOne(frames[0], Stream(frames[1..]) + tail, pongMask);
      assert Stream(frames) + tail == Wire(frames[0]) + (Stream(frames[1..]) + tail);
      StreamRoundTrip(frames[1..], tail, pongMask);
    }
  }

  const BINARY: byte := 0x2

  /** What the ingester passes on to the parser: the payload of every binary frame, whatever its fin bit. */
  function BinaryPayloads(frames: seq<Frame>): seq<Bytes> {
    if frames == [] then []
    else (if frames[0].opcode == BINARY then [frames[0].payload] else []) + BinaryPayloads(frames[1..])
  }

  function SentPayloads(frames: seq<Sent>): seq<Bytes> {
    if frames == [] then []
    else (if frames[0].opcode % 16 == 2 then [frames[0].payload] else []) + SentPayloads(frames[1..])
  }

  /** The parser gets exactly the payloads of the binary frames sent, in order. */
  lemma {:induction false} PayloadsReachParser(frames: seq<Sent>, tail: Bytes, pongMask: Bytes)
    requires |pongMask| == 4 && forall i :: 0 <= i < |frames| ==> Fits(frames[i])
    ensures var session := ReadMany(Stream(frames) + tail, |frames|, pongMask);
            session.Session? && BinaryPayloads(session.frames) == SentPayloads(frames)
  {
    StreamRoundTrip(frames, tail, pongMask);
    OnlyPingsMissing(frames);
  }

  lemma {:induction false} OnlyPingsMissing(frames: seq<Sent>)
    ensures BinaryPayloads(AllReceived(frames)) == SentPayloads(frames)
    decreases |frames|
  {
    if frames != [] {
      OnlyPingsMissing(frames[1..]);
      var rest := AllReceived(frames[1..]);
      assert ([Received(frames[0])] + rest)[1..] == rest && [] + rest == rest;
    }
  }

  lemma EightBytes()
    ensures Pow256(8) > MAX_FRAME_SIZE
  {
    assert Pow256(1) == 0x100 && Pow256(2) == 0x1_0000 && Pow256(3) == 0x100_0000 && Pow256(4) == 0x1_0000_0000;
    assert Pow256(5) > MAX_FRAME_SIZE && Pow256(6) > MAX_FRAME_SIZE && Pow256(7) > MAX_FRAME_SIZE;
  }

  /** At the first frame that does not fit: everything before it is delivered, and the next read either
      overruns the buffer or refuses the frame and leaves the stream inside it. */
  lemma {:induction false} StreamStopsAt(frames: seq<Sent>, i: nat, pongMask: Bytes)
    requires |pongMask| == 4 && i < |frames| && !Fits(frames[i]) && |frames[i].payload| < Pow256(8)
    requires forall k :: 0 <= k < i ==> Fits(frames[k])
    ensures ReadMany(Stream(frames), i, pongMask)
            == Session(AllReceived(frames[..i]), AllReplies(frames[..i], pongMask), Stream(frames[i..]))
    ensures var r := ReadSpec(Stream(frames[i..]), pongMask);
            if |frames[i].payload| <= MAX_FRAME_SIZE then r == Overrun
            else r == Read(None, Wire(frames[i])[HeaderSize(frames[i])..] + Stream(frames[i + 1..]), [])
  {
    hide Wire, ReadSpec, Fits;
    StreamSplits(frames, i);
    StreamRoundTrip(frames[..i], Stream(frames[i..]), pongMask);
    assert frames[i..][0] == frames[i] && frames[i..][1..] == frames[i + 1..];
    ReadOne(frames[i], Stream(frames[i + 1..]), pongMask);
  }

  lemma {:induction false} StreamSplits(frames: seq<Sent>, i: nat)
    requires i <= |frames|
    ensures Stream(frames) == Stream(frames[..i]) + Stream(frames[i..])
    decreases i
  {
    hide Wire;
    if i == 0 {
      assert frames[..0] == [] && frames[0..] == frames;
    } else {
      StreamSplits(frames[1..], i - 1);
      assert frames[..i][1..] == frames[1..][..i - 1] && frames[1..][i - 1..] == frames[i..];
    }
  }

  // ----- a stream that ends inside a frame -----

  /** A header is read the same from a longer stream. */
  lemma HeaderAppended(s: Bytes, more: Bytes)
    requires ReadHeader(s).Header?
    ensures ReadHeader(s + more) == ReadHeader(s)
  {
    var offset := ReadHeader(s).offset;
    assert (s + more)[2..offset] == s[2..offset];
  }

  /** When the stream ends anywhere inside a frame that fits the buffer, nothing is handed out and nothing
      is sent, and the stream is used up. */
  lemma CutFrame(f: Sent, n: nat, pongMask: Bytes)
    requires |pongMask| == 4 && Fits(f) && n < |Wire(f)|
    ensures ReadSpec(Wire(f)[..n], pongMask) == Read(None, [], [])
  {
    hide ReadHeader, LengthField, Pow256, EncodeFrame, ServerFrame, Masked;
    EightBytes();
    var s, cut := Wire(f)[..n], Wire(f)[n..];
    assert s + cut == Wire(f) && Wire(f) + [] == Wire(f);
    match f.mask {
      case Some(mask) => EncodedHeader(f.opcode, f.payload, mask, []);
      case None => ServerHeader(f.fin, f.opcode, f.payload, []);
    }
    if ReadHeader(s).Header? { HeaderAppended(s, cut); }
  }

  // ----- bytes -----

  /** Bit k of an exclusive or, for the eight bits of a byte: 1 exactly when the two bits differ. */
  function Bit(x: nat, k: nat): nat {
    if k == 0 then x % 2 else Bit(x / 2, k - 1)
  }

  lemma {:induction false} XorBit(a: nat, b: nat, n: nat, k: nat)
    requires k < n
    ensures Bit(XorBits(a, b, n), k) == if Bit(a, k) == Bit(b, k) then 0 else 1
    decreases k
  {
    var d := if a % 2 == b % 2 then 0 else 1;
    var rest := XorBits(a / 2, b / 2, n - 1);
    assert XorBits(a, b, n) == d + 2 * rest && XorBits(a, b, n) / 2 == rest;
    if k > 0 { XorBit(a / 2, b / 2, n - 1, k - 1); }
  }

  lemma {:induction false} MaskedBit(data: Bytes, mask: Bytes, i: nat, k: nat)
    requires |mask| == 4 && i < |data| && k < 8
    ensures Bit(Masked(data, mask)[i], k) == if Bit(data[i], k) == Bit(mask[i % 4], k) then 0 else 1
  {
    XorBit(data[i], mask[i % 4], 8, k);
  }

  /** The three length forms, in network byte order. */
  lemma LengthForms(len: nat)
    ensures len <= 125 ==> LengthField(len, false) == [len] && LengthField(len, true) == [128 + len]
    ensures 125 < len <= 65535 ==>
              && LengthField(len, false) == [126, len / 256, len % 256]
              && LengthField(len, true) == [254, len / 256, len % 256]
    ensures 65535 < len < 0x1_0000_0000 ==>
              LengthField(len, true) == [255, 0, 0, 0, 0] + [len / 0x100_0000, len / 0x1_0000 % 256, len / 256 % 256, len % 256]
  {
    hide BEBytes;
    if 125 < len <= 65535 { TwoBytes(len); }
    if 65535 < len < 0x1_0000_0000 {
      EightBytesOf(len);
      assert [255] + ([0, 0, 0, 0] + [len / 0x100_0000, len / 0x1_0000 % 256, len / 256 % 256, len % 256])
          == [255, 0, 0, 0, 0] + [len / 0x100_0000, len / 0x1_0000 % 256, len / 256 % 256, len % 256];
    }
  }

  lemma {:induction false} TwoBytes(x: nat)
    requires x < 0x1_0000
    ensures BEBytes(x, 2) == [x / 256, x % 256]
  {
    assert BEBytes(x / 256, 1) == BEBytes(x / 256 / 256, 0) + [x / 256 % 256];
  }

  lemma {:induction false} EightBytesOf(x: nat)
    requires x < 0x1_0000_0000
    ensures BEBytes(x, 8) == [0, 0, 0, 0] + [x / 0x100_0000, x / 0x1_0000 % 256, x / 256 % 256, x % 256]
  {
    var a, b, c := x / 256, x / 256 / 256, x / 256 / 256 / 256;
    assert a == x / 256 && b == x / 0x1_0000 && c == x / 0x100_0000 && c / 256 == 0;
    ZeroBytes(4);
    assert BEBytes(c, 5) == BEBytes(0, 4) + [c];
    assert BEBytes(b, 6) == BEBytes(c, 5) + [b % 256] && BEBytes(a, 7) == BEBytes(b, 6) + [a % 256];
    assert BEBytes(x, 8) == BEBytes(a, 7) + [x % 256];
  }

  lemma {:induction false} ZeroBytes(n: nat)
    ensures BEBytes(0, n) == seq(n, _ => 0)
  {
    if n > 0 { ZeroBytes(n - 1); }
  }

  const HELLO: Bytes := [0x48, 0x65, 0x6c, 0x6c, 0x6f]
  const SAMPLE_MASK: Bytes := [0x37, 0xfa, 0x21, 0x3d]

  /** The examples of section 5.7 of RFC 6455: "Hello" in an unmasked and in a masked text frame. */
  lemma TextExamples()
    ensures ServerFrame(true, 0x1, HELLO) == [0x81, 0x05, 0x48, 0x65, 0x6c, 0x6c, 0x6f]
    ensures EncodeFrame(0x1, HELLO, SAMPLE_MASK) == [0x81, 0x85, 0x37, 0xfa, 0x21, 0x3d, 0x7f, 0x9f, 0x4d, 0x51, 0x58]
    ensures EncodeFrame(0xA, HELLO, SAMPLE_MASK) == [0x8a, 0x85, 0x37, 0xfa, 0x21, 0x3d, 0x7f, 0x9f, 0x4d, 0x51, 0x58]
  {
    hide Masked, BEBytes;
    HelloMasked();
    LengthForms(5);
    assert |HELLO| == 5;
  }

  /** And as an unmasked ping, with the masked pong that answers it. */
  lemma PingExample()
    ensures ReadSpec([0x89, 0x05, 0x48, 0x65, 0x6c, 0x6c, 0x6f], SAMPLE_MASK)
            == Read(None, [], [0x8a, 0x85, 0x37, 0xfa, 0x21, 0x3d, 0x7f, 0x9f, 0x4d, 0x51, 0x58])
  {
    hide EncodeFrame, ReadSpec, Pow256, BEBytes;
    TextExamples();
    EightBytes();
    LengthForms(5);
    var ping := Sent(true, 0x9, HELLO, None);
    assert Wire(ping) == [0x89, 0x05, 0x48, 0x65, 0x6c, 0x6c, 0x6f];
    ReadOne(ping, [], SAMPLE_MASK);
    assert Wire(ping) + [] == Wire(ping);
  }

  /** A number from its bits, the lowest first. */
  function FromBits(bits: seq<bool>): nat {
    if bits == [] then 0 else (if bits[0] then 1 else 0) + 2 * FromBits(bits[1..])
  }

  lemma {:induction false} XorOfBits(x: seq<bool>, y: seq<bool>)
    requires |x| == |y|
    ensures XorBits(FromBits(x), FromBits(y), |x|) == FromBits(seq(|x|, i requires 0 <= i < |x| => x[i] != y[i]))
    decreases |x|
  {
    if x != [] {
      XorOfBits(x[1..], y[1..]);
      var z := seq(|x|, i requires 0 <= i < |x| => x[i] != y[i]);
      assert z[1..] == seq(|x| - 1, i requires 0 <= i < |x| - 1 => x[1..][i] != y[1..][i]);
      var a, b := FromBits(x), FromBits(y);
      assert a / 2 == FromBits(x[1..]) && b / 2 == FromBits(y[1..]);
      assert a % 2 == (if x[0] then 1 else 0) && b % 2 == (if y[0] then 1 else 0);
    }
  }

  lemma {:induction false} EightBits(b: seq<bool>)
    requires |b| == 8
    ensures FromBits(b) ==
            (if b[0] then 1 else 0) + (if b[1] then 2 else 0) + (if b[2] then 4 else 0) + (if b[3] then 8 else 0)
            + (if b[4] then 16 else 0) + (if b[5] then 32 else 0) + (if b[6] then 64 else 0) + (if b[7] then 128 else 0)
  {
    FourBits(b);
    FourBits(b[4..]);
    assert b[4..][4..] == [];
  }

  lemma {:induction false} FourBits(b: seq<bool>)
    requires |b| >= 4
    ensures FromBits(b) == (if b[0] then 1 else 0) + (if b[1] then 2 else 0) + (if b[2] then 4 else 0)
                           + (if b[3] then 8 else 0) + 16 * FromBits(b[4..])
  {
    assert b[1..][1..] == b[2..] && b[2..][1..] == b[3..] && b[3..][1..] == b[4..];
    assert FromBits(b[2..]) == (if b[2] then 1 else 0) + 2 * FromBits(b[3..]);
    assert FromBits(b[3..]) == (if b[3] then 1 else 0) + 2 * FromBits(b[4..]);
  }

  lemma {:induction false} XorOfBytes(x: seq<bool>, y: seq<bool>, z: seq<bool>)
    requires |x| == |y| == |z| == 8 && forall i :: 0 <= i < 8 ==> z[i] == (x[i] != y[i])
    ensures XorBits(FromBits(x), FromBits(y), 8) == FromBits(z)
  {
    XorOfBits(x, y);
    assert z == seq(|x|, i requires 0 <= i < |x| => x[i] != y[i]);
  }

  /** The five bytes of "Hello" under the sample mask. */
  lemma HelloBytes()
    ensures XorBits(0x48, 0x37, 8) == 0x7f && XorBits(0x65, 0xfa, 8) == 0x9f && XorBits(0x6c, 0x21, 8) == 0x4d
    ensures XorBits(0x6c, 0x3d, 8) == 0x51 && XorBits(0x6f, 0x37, 8) == 0x58
  {
    hide XorBits, FromBits;
    var h, e, l, o := [false, false, false, true, false, false, true, false], [true, false, true, false, false, true, true, false],
                      [false, false, true, true, false, true, true, false], [true, true, true, true, false, true, true, false];
    var m0, m1, m2, m3 := [true, true, true, false, true, true, false, false], [false, true, false, true, true, true, true, true],
                          [true, false, false, false, false, true, false, false], [true, false, true, true, true, true, false, false];
    EightBits(h); EightBits(e); EightBits(l); EightBits(o);
    EightBits(m0); EightBits(m1); EightBits(m2); EightBits(m3);
    var zh := [true, true, true, true, true, true, true, false];
    XorOfBytes(h, m0, zh);
    EightBits(zh);
    var ze := [true, true, true, true, true, false, false, true];
    XorOfBytes(e, m1, ze);
    EightBits(ze);
    var zl := [true, false, true, true, false, false, true, false];
    XorOfBytes(l, m2, zl);
    EightBits(zl);
    var zm := [true, false, false, false, true, false, true, false];
    XorOfBytes(l, m3, zm);
    EightBits(zm);
    var zo := [false, false, false, true, true, false, true, false];
    XorOfBytes(o, m0, zo);
    EightBits(zo);
  }

  lemma HelloMasked()
    ensures Masked(HELLO, SAMPLE_MASK) == [0x7f, 0x9f, 0x4d, 0x51, 0x58]
  {
    hide XorBits;
    HelloBytes();
  }
}
