/** The dispatch loop over one frame, and the round trip: parsing a frame made of well-formed messages
    gives back exactly their levels. */
module SbeFraming {
  import opened CInt
  import opened ByteOrder
  import opened MarketData
  import opened LFQueues
  import opened SbeDecoder
  import opened SbeAppend

  type Schemas = map<nat, MessageSchema>

  /** One turn of the dispatch loop: bytes consumed (0 ends the frame), what is enqueued, and whether
      the message was decoded rather than skipped. */
  datatype Turn = Turn(consumed: nat, updates: seq<MarketUpdate>, decoded: bool)

  function TurnSpec(payload: Bytes, schemas: Schemas, symbols: Symbols, stamp: int): Turn {
    if |payload| < 4 || ReadUnsigned(payload, 2, 2) !in schemas then Turn(0, [], false)
    else
      var schema := schemas[ReadUnsigned(payload, 2, 2)];
      if schema.skip then Turn(MeasureSpec(payload, schema), [], false)
      else
        var d := DecodeSpec(payload, schema, symbols, stamp);
        Turn(d.consumed, d.updates, true)
  }

  /** What one frame enqueues.  `clock(k)` is the time stamp taken by the k-th decoded message. */
  function ParseSpec(payload: Bytes, schemas: Schemas, symbols: Symbols, clock: nat -> int, k: nat): seq<MarketUpdate>
    decreases |payload|
  {
    var t := TurnSpec(payload, schemas, symbols, clock(k));
    if t.consumed == 0 || t.consumed > |payload| then t.updates
    else t.updates + ParseSpec(payload[t.consumed..], schemas, symbols, clock, if t.decoded then k + 1 else k)
  }

  lemma {:induction false} ParseNothing(schemas: Schemas, symbols: Symbols, clock: nat -> int, k: nat)
    ensures ParseSpec([], schemas, symbols, clock, k) == []
  {
  }

  method ParseTurn(payload: Bytes, cursor: nat, q: LFQueue<MarketUpdate>, schemas: Schemas, symbols: Symbols, stamp: int)
    returns (consumed: nat, decoded: bool)
    requires cursor <= |payload| && HasRoom(q, |TurnSpec(payload[cursor..], schemas, symbols, stamp).updates|)
    modifies q`nextWriteIndex, q`numElements, q.store
    ensures var t := TurnSpec(payload[cursor..], schemas, symbols, stamp);
            && q.Valid() && q.Contents() == old(q.Contents()) + t.updates
            && q.numElements == old(q.numElements) + |t.updates|
            && consumed == t.consumed && decoded == t.decoded
  {
    hide Cells, Cell, MeasureSpec, DecodeSpec, ReadUnsigned;
    ReadDropped(payload, cursor, 2, 2);
    if cursor + 4 > |payload| { return 0, false; }
    var templateId := ReadUnsigned(payload, cursor + 2, 2);
    if templateId !in schemas { return 0, false; }
    var schema := schemas[templateId];
    decoded := !schema.skip;
    if schema.skip {
      consumed := Measure(payload[cursor..], schema);
    } else {
      consumed := Decode(payload[cursor..], schema, q, symbols, stamp);
    }
  }

  method Parse(payload: Bytes, q: LFQueue<MarketUpdate>, schemas: Schemas, symbols: Symbols, clock: nat -> int)
    requires HasRoom(q, |ParseSpec(payload, schemas, symbols, clock, 0)|)
    modifies q`nextWriteIndex, q`numElements, q.store
    ensures q.Valid()
    ensures q.Contents() == old(q.Contents()) + ParseSpec(payload, schemas, symbols, clock, 0)
  {
    hide Cells, Cell, TurnSpec, ParseSpec;
    var cursor: nat := 0;
    var k: nat := 0;
    ghost var all := ParseSpec(payload, schemas, symbols, clock, 0);
    ghost var before, room, done: seq<MarketUpdate> := q.Contents(), q.store.Length, [];
    ghost var todo, rest := all, payload;
    while cursor < |payload|
      invariant q.Valid() && q.Contents() == before + done
      invariant q.numElements + |todo| <= room
      invariant all == done + todo
      invariant cursor <= |payload| ==> rest == payload[cursor..] && todo == ParseSpec(rest, schemas, symbols, clock, k)
      invariant cursor > |payload| ==> todo == []
      decreases |payload| - cursor
    {
      assert payload[cursor..] == rest;
      ghost var t := TurnSpec(rest, schemas, symbols, clock(k));
      ParseStep(rest, schemas, symbols, clock, k);
      var consumed, decoded := ParseTurn(payload, cursor, q, schemas, symbols, clock(k));
      k := if decoded then k + 1 else k;
      rest := if consumed > |rest| then [] else rest[consumed..];
      todo := if consumed == 0 || cursor + consumed > |payload| then [] else ParseSpec(rest, schemas, symbols, clock, k);
      MoreDone(before, done, t.updates, todo);
      done := done + t.updates;
      if consumed == 0 { break; }
      cursor := cursor + consumed;
    }
    ParseNothing(schemas, symbols, clock, k);
    assert todo == [];
  }

  lemma MoreDone(before: seq<MarketUpdate>, done: seq<MarketUpdate>, now: seq<MarketUpdate>, todo: seq<MarketUpdate>)
    ensures (before + done) + now == before + (done + now)
    ensures done + (now + todo) == (done + now) + todo
  {
  }

  lemma ParseStep(payload: Bytes, schemas: Schemas, symbols: Symbols, clock: nat -> int, k: nat)
    ensures var t := TurnSpec(payload, schemas, symbols, clock(k));
            ParseSpec(payload, schemas, symbols, clock, k) ==
            t.updates + (if t.consumed == 0 || t.consumed > |payload| then []
                         else ParseSpec(payload[t.consumed..], schemas, symbols, clock, if t.decoded then k + 1 else k))
  {
    var t := TurnSpec(payload, schemas, symbols, clock(k));
    assert t.updates + [] == t.updates;
  }

  // ----- encoding -----

  datatype DepthMessage = DepthMessage(
    header: Bytes, fixed: Bytes, bidLen: nat, bids: seq<Bytes>, askLen: nat, asks: seq<Bytes>, symbol: Bytes)

  function Join(blocks: seq<Bytes>): Bytes {
    if blocks == [] then [] else blocks[0] + Join(blocks[1..])
  }

  function EncodeGroup(blockLen: nat, blocks: seq<Bytes>): Bytes {
    LEBytes(blockLen, 2) + LEBytes(|blocks|, 2) + Join(blocks)
  }

  function Encode(m: DepthMessage): Bytes
    requires |m.symbol| < 256
  {
    (m.header + m.fixed) + EncodeGroup(m.bidLen, m.bids) + EncodeGroup(m.askLen, m.asks) + ([|m.symbol|] + m.symbol)
  }

  /** Blocks of the length and number their group header says. */
  ghost predicate GroupSized(blockLen: nat, blocks: seq<Bytes>) {
    && blockLen < 0x1_0000 && |blocks| < 0x1_0000
    && forall i :: 0 <= i < |blocks| ==> |blocks[i]| == blockLen
  }

  ghost predicate Sized(m: DepthMessage, schema: MessageSchema) {
    && |m.header| == 8 && |m.fixed| == schema.fixedBlockSize && |m.symbol| < 256
    && GroupSized(m.bidLen, m.bids) && GroupSized(m.askLen, m.asks)
  }

  ghost predicate GroupOk(blockLen: nat, blocks: seq<Bytes>, schema: MessageSchema) {
    && GroupSized(blockLen, blocks)
    && (blocks != [] ==> FieldEnd(schema.priceField) <= blockLen && FieldEnd(schema.qtyField) <= blockLen)
  }

  ghost predicate WellFormed(m: DepthMessage, schema: MessageSchema) {
    && |m.header| == 8 && |m.fixed| == schema.fixedBlockSize && |m.symbol| < 256
    && schema.eventTimeOffset + 8 <= |m.fixed| && schema.priceExpOffset < |m.fixed| && schema.qtyExpOffset < |m.fixed|
    && GroupOk(m.bidLen, m.bids, schema) && GroupOk(m.askLen, m.asks, schema)
  }

  /** The levels of one group, each block read on its own. */
  function BlockUpdates(blocks: seq<Bytes>, schema: MessageSchema, side: Side, st: Stamp): seq<MarketUpdate> {
    if blocks == [] then []
    else [LevelUpdate(blocks[0], 0, schema, side, st)] + BlockUpdates(blocks[1..], schema, side, st)
  }

  function MessageStamp(m: DepthMessage, schema: MessageSchema, id: int, recvTsc: int): Stamp {
    StampOf(m.header + m.fixed, schema, id, recvTsc)
  }

  /** Bids then asks, in wire order, all with the message's id, exponents and time. */
  function MessageUpdates(m: DepthMessage, schema: MessageSchema, id: int, recvTsc: int): seq<MarketUpdate> {
    var st := MessageStamp(m, schema, id, recvTsc);
    BlockUpdates(m.bids, schema, BUY, st) + BlockUpdates(m.asks, schema, SELL, st)
  }

  lemma {:induction false} JoinLength(blockLen: nat, blocks: seq<Bytes>)
    requires forall i :: 0 <= i < |blocks| ==> |blocks[i]| == blockLen
    ensures |Join(blocks)| == Times(blockLen, |blocks|)
  {
    hide Times;
    TimesSplit(blockLen, 0, 0);
    if blocks != [] {
      JoinLength(blockLen, blocks[1..]);
      TimesSplit(blockLen, 1, |blocks[1..]|);
    }
  }

  lemma {:induction false} ReadLE16(pre: Bytes, x: nat, post: Bytes)
    requires x < 0x1_0000
    ensures ReadUnsigned(pre + LEBytes(x, 2) + post, |pre|, 2) == x
  {
    ReadMiddle(pre, LEBytes(x, 2), post, 0, 2);
    assert Pow256(2) == 0x1_0000 by { assert Pow256(1) == 256; }
    LERoundTrip(x, 2);
    assert LEBytes(x, 2)[0..2] == LEBytes(x, 2);
  }

  lemma GroupHeader(pre: Bytes, blockLen: nat, blocks: seq<Bytes>, post: Bytes)
    requires blockLen < 0x1_0000 && |blocks| < 0x1_0000
    ensures ReadUnsigned(pre + EncodeGroup(blockLen, blocks) + post, |pre|, 2) == blockLen
    ensures ReadUnsigned(pre + EncodeGroup(blockLen, blocks) + post, |pre| + 2, 2) == |blocks|
  {
    var buf := pre + EncodeGroup(blockLen, blocks) + post;
    var a, b, c := LEBytes(blockLen, 2), LEBytes(|blocks|, 2), Join(blocks);
    assert buf == pre + a + (b + c + post);
    ReadLE16(pre, blockLen, b + c + post);
    assert buf == (pre + a) + b + (c + post);
    ReadLE16(pre + a, |blocks|, c + post);
  }

  /** A level read at its place in the message is the level read from its own block. */
  lemma LevelInPlace(buf: Bytes, offset: nat, block: Bytes, schema: MessageSchema, side: Side, st: Stamp)
    requires offset + |block| <= |buf| && buf[offset..offset + |block|] == block
    requires FieldEnd(schema.priceField) <= |block| && FieldEnd(schema.qtyField) <= |block|
    ensures LevelUpdate(buf, offset, schema, side, st) == LevelUpdate(block, 0, schema, side, st)
  {
    var pre, post := buf[..offset], buf[offset + |block|..];
    assert buf == pre + block + post;
    ReadMiddle(pre, block, post, schema.priceField.offset, Width(schema.priceField.rawType));
    ReadMiddle(pre, block, post, schema.qtyField.offset, Width(schema.qtyField.rawType));
  }

  lemma {:induction false} GroupInPlace(buf: Bytes, offset: nat, blockLen: nat, blocks: seq<Bytes>,
                                        schema: MessageSchema, side: Side, st: Stamp)
    requires GroupOk(blockLen, blocks, schema)
    requires offset + |Join(blocks)| <= |buf| && buf[offset..offset + |Join(blocks)|] == Join(blocks)
    ensures GroupUpdates(buf, offset, blockLen, |blocks|, schema, side, st) == BlockUpdates(blocks, schema, side, st)
    decreases |blocks|
  {
    hide LevelUpdate;
    if blocks != [] {
      var first, rest := blocks[0], blocks[1..];
      assert Join(blocks) == first + Join(rest);
      assert buf[offset..offset + blockLen] == Join(blocks)[..blockLen] == first;
      assert buf[offset + blockLen..offset + blockLen + |Join(rest)|] == Join(blocks)[blockLen..] == Join(rest);
      LevelInPlace(buf, offset, first, schema, side, st);
      GroupInPlace(buf, offset + blockLen, blockLen, rest, schema, side, st);
    }
  }

  /** The layout the decoder finds in an encoded message. */
  ghost function LayoutOf(m: DepthMessage): Layout {
    var bidsEnd := |m.header| + |m.fixed| + 4 + |Join(m.bids)|;
    Layout(m.bidLen, |m.bids|, bidsEnd, m.askLen, |m.asks|, bidsEnd + 4 + |Join(m.asks)|, |m.symbol|)
  }

  lemma EncodedLayout(m: DepthMessage, schema: MessageSchema)
    requires WellFormed(m, schema)
    ensures FindLayout(Encode(m), schema) == LayoutOf(m)
    ensures LayoutOf(m).Total() == |Encode(m)|
    ensures SymbolOf(Encode(m), schema) == m.symbol
  {
    LayoutFound(m, schema);
    hide FindLayout, Join, EncodeGroup;
    EncodedTail(m);
  }

  lemma EncodedTail(m: DepthMessage)
    requires |m.symbol| < 256
    ensures LayoutOf(m).Total() == |Encode(m)| && LayoutOf(m).asksEnd < |Encode(m)|
    ensures Encode(m)[LayoutOf(m).asksEnd] == |m.symbol|
    ensures Encode(m)[LayoutOf(m).asksEnd + 1..] == m.symbol
  {
    var g := (m.header + m.fixed) + EncodeGroup(m.bidLen, m.bids) + EncodeGroup(m.askLen, m.asks);
    assert Encode(m) == g + ([|m.symbol|] + m.symbol);
    assert |g| == LayoutOf(m).asksEnd;
    assert Encode(m)[|g|..] == [|m.symbol|] + m.symbol;
  }

  lemma LayoutFound(m: DepthMessage, schema: MessageSchema)
    requires Sized(m, schema)
    ensures FindLayout(Encode(m), schema) == LayoutOf(m)
  {
    hide Times, Join, ReadUnsigned;
    var a, g1, g2, s := m.header + m.fixed, EncodeGroup(m.bidLen, m.bids), EncodeGroup(m.askLen, m.asks), [|m.symbol|] + m.symbol;
    var msg := Encode(m);
    assert msg == a + g1 + (g2 + s);
    assert msg == (a + g1) + g2 + s;
    GroupHeader(a, m.bidLen, m.bids, g2 + s);
    GroupHeader(a + g1, m.askLen, m.asks, s);
    JoinLength(m.bidLen, m.bids);
    JoinLength(m.askLen, m.asks);
    EncodedTail(m);
  }

  lemma {:induction false} EncodedGroups(m: DepthMessage, schema: MessageSchema, st: Stamp)
    requires WellFormed(m, schema)
    ensures var l := LayoutOf(m);
            && GroupUpdates(Encode(m), 8 + schema.fixedBlockSize + 4, l.bidLen, l.numBids, schema, BUY, st)
               == BlockUpdates(m.bids, schema, BUY, st)
            && GroupUpdates(Encode(m), l.bidsEnd + 4, l.askLen, l.numAsks, schema, SELL, st)
               == BlockUpdates(m.asks, schema, SELL, st)
  {
    hide Join, GroupUpdates, BlockUpdates;
    var a, g1, g2, s := m.header + m.fixed, EncodeGroup(m.bidLen, m.bids), EncodeGroup(m.askLen, m.asks), [|m.symbol|] + m.symbol;
    var msg := Encode(m);
    var bids, asks := |a| + 4, |a| + |g1| + 4;
    assert msg[bids..bids + |Join(m.bids)|] == Join(m.bids);
    assert msg[asks..asks + |Join(m.asks)|] == Join(m.asks);
    GroupInPlace(msg, bids, m.bidLen, m.bids, schema, BUY, st);
    GroupInPlace(msg, asks, m.askLen, m.asks, schema, SELL, st);
  }

  lemma EncodedStamp(m: DepthMessage, schema: MessageSchema, id: int, recvTsc: int)
    requires WellFormed(m, schema)
    ensures StampOf(Encode(m), schema, id, recvTsc) == MessageStamp(m, schema, id, recvTsc)
  {
    hide ReadUnsigned;
    var a := m.header + m.fixed;
    var rest := EncodeGroup(m.bidLen, m.bids) + EncodeGroup(m.askLen, m.asks) + ([|m.symbol|] + m.symbol);
    assert Encode(m) == a + rest;
    ReadAppended(a, rest, 8 + schema.eventTimeOffset, 8);
    ReadAppended(a, rest, 8 + schema.priceExpOffset, 1);
    ReadAppended(a, rest, 8 + schema.qtyExpOffset, 1);
  }

  lemma EncodedReadsFit(m: DepthMessage, schema: MessageSchema)
    requires WellFormed(m, schema)
    ensures FindLayout(Encode(m), schema).Layout? && AllReadsFit(Encode(m), schema)
  {
    hide Times, Join, FindLayout;
    EncodedLayout(m, schema);
    JoinLength(m.bidLen, m.bids);
    JoinLength(m.askLen, m.asks);
    forall i: nat | i < |m.bids| ensures Times(m.bidLen, i) + m.bidLen <= Times(m.bidLen, |m.bids|) {
      TimesSplit(m.bidLen, i, 1);
      TimesSplit(m.bidLen, i + 1, |m.bids| - i - 1);
    }
    forall i: nat | i < |m.asks| ensures Times(m.askLen, i) + m.askLen <= Times(m.askLen, |m.asks|) {
      TimesSplit(m.askLen, i, 1);
      TimesSplit(m.askLen, i + 1, |m.asks| - i - 1);
    }
  }

  /** One message, whatever follows it. */
  lemma DecodeEncoded(m: DepthMessage, rest: Bytes, schema: MessageSchema, symbols: Symbols, recvTsc: int)
    requires WellFormed(m, schema) && m.symbol in symbols
    ensures DecodeSpec(Encode(m) + rest, schema, symbols, recvTsc)
            == Decoded(|Encode(m)|, MessageUpdates(m, schema, symbols[m.symbol], recvTsc))
  {
    hide Encode, FindLayout, SymbolOf, AllReadsFit, GroupUpdates, BlockUpdates, DecodeSpec, StampOf, Join;
    var msg := Encode(m);
    EncodedLayout(m, schema);
    EncodedReadsFit(m, schema);
    EncodedStamp(m, schema, symbols[m.symbol], recvTsc);
    EncodedGroups(m, schema, MessageStamp(m, schema, symbols[m.symbol], recvTsc));
    DecodeParts(msg, schema, symbols, recvTsc);
    FitsIsEnough(msg, rest, schema, symbols, recvTsc);
  }

  // ----- skipped messages -----

  lemma {:induction false} GroupsAppended(msg: Bytes, extra: Bytes, offset: nat, groups: nat, e: GroupNumEncoding)
    requires MeasureGroups(msg, offset, groups, e).At?
    ensures MeasureGroups(msg + extra, offset, groups, e) == MeasureGroups(msg, offset, groups, e)
    decreases groups
  {
    hide ReadUnsigned;
    if groups > 0 {
      ReadAppended(msg, extra, offset, 2);
      ReadAppended(msg, extra, offset + 2, 2);
      if e == GROUP32 { ReadAppended(msg, extra, offset + 2, 4); }
      var blockLen := ReadUnsigned(msg, offset, 2);
      var count := if e == GROUP32 then ReadUnsigned(msg, offset + 2, 4) else ReadUnsigned(msg, offset + 2, 2);
      GroupsAppended(msg, extra, offset + (if e == GROUP32 then 6 else 4) + Times(blockLen, count), groups - 1, e);
    }
  }

  lemma {:induction false} VardataAppended(msg: Bytes, extra: Bytes, offset: nat, fields: nat)
    requires MeasureVardata(msg, offset, fields).At?
    ensures MeasureVardata(msg + extra, offset, fields) == MeasureVardata(msg, offset, fields)
    decreases fields
  {
    if fields > 0 {
      assert (msg + extra)[offset] == msg[offset];
      VardataAppended(msg, extra, offset + 1 + msg[offset], fields - 1);
    }
  }

  /** A measured length does not depend on what follows. */
  lemma MeasureAppended(msg: Bytes, extra: Bytes, schema: MessageSchema)
    requires MeasureSpec(msg, schema) > 0
    ensures MeasureSpec(msg + extra, schema) == MeasureSpec(msg, schema)
  {
    GroupsAppended(msg, extra, 8 + schema.fixedBlockSize, schema.numGroups, schema.groupNumEncoding);
    VardataAppended(msg, extra,
      MeasureGroups(msg, 8 + schema.fixedBlockSize, schema.numGroups, schema.groupNumEncoding).offset, schema.numVardata);
  }

  // ----- a message that reads on -----

  /** A depth message whose only level block is one byte long: its fields end behind the message. */
  function ShortLevel(): DepthMessage {
    DepthMessage(Zeros(8), Zeros(26), 1, [[0]], 0, [], [])
  }

  function Zeros(n: nat): Bytes { seq(n, _ => 0) }

  /** It is decoded, and what it means depends on the bytes that follow it. */
  lemma ShortLevelReadsOn()
    ensures var msg, symbols := Encode(ShortLevel()), map[[] := 7];
            && FindLayout(msg, DEPTH_DIFF).Layout?
            && DecodeSpec(msg, DEPTH_DIFF, symbols, 0).consumed == |msg|
            && !AllReadsFit(msg, DEPTH_DIFF)
            && exists extra: Bytes :: DecodeSpec(msg + extra, DEPTH_DIFF, symbols, 0) != DecodeSpec(msg, DEPTH_DIFF, symbols, 0)
  {
    hide DecodeSpec, FindLayout, SymbolOf, Encode, EncodeGroup, Times;
    var m := ShortLevel();
    var msg, symbols := Encode(m), map[[] := 7];
    LayoutFound(m, DEPTH_DIFF);
    EncodedTail(m);
    assert Join([[0]]) == [0] && Join([]) == [] by { JoinOne([0]); }
    assert |msg| == 44;
    DecodeParts(msg, DEPTH_DIFF, symbols, 0);
    assert SymbolOf(msg, DEPTH_DIFF) == [] by { SymbolFound(m); }
    TimesSplit(1, 0, 0);
    assert !FieldsFit(msg, 38 + Times(1, 0), DEPTH_DIFF);
    SameWhateverFollows(msg, DEPTH_DIFF, symbols, 0);
  }

  lemma JoinOne(block: Bytes)
    ensures Join([block]) == block && Join([]) == []
  {
    assert [block][1..] == [] && block + [] == block;
  }

  lemma SymbolFound(m: DepthMessage)
    requires |m.symbol| < 256 && FindLayout(Encode(m), DEPTH_DIFF) == LayoutOf(m)
    ensures SymbolOf(Encode(m), DEPTH_DIFF) == m.symbol
  {
    hide Encode, FindLayout;
    EncodedTail(m);
  }

  // ----- whole frames -----

  datatype Item = Depth(m: DepthMessage) | Skipped(bytes: Bytes)

  ghost predicate ItemOk(item: Item, schemas: Schemas, symbols: Symbols) {
    match item
    case Depth(m) =>
      |m.header| == 8 && ReadUnsigned(m.header, 2, 2) in schemas &&
      var schema := schemas[ReadUnsigned(m.header, 2, 2)];
      !schema.skip && WellFormed(m, schema) && m.symbol in symbols
    case Skipped(bytes) =>
      |bytes| >= 8 && ReadUnsigned(bytes, 2, 2) in schemas &&
      var schema := schemas[ReadUnsigned(bytes, 2, 2)];
      schema.skip && MeasureSpec(bytes, schema) == |bytes|
  }

  ghost function ItemBytes(item: Item): Bytes {
    match item
    case Depth(m) => if |m.symbol| < 256 then Encode(m) else []
    case Skipped(bytes) => bytes
  }

  ghost function FrameBytes(items: seq<Item>): Bytes {
    if items == [] then [] else ItemBytes(items[0]) + FrameBytes(items[1..])
  }

  /** The levels of the depth messages in order, the k-th one stamped clock(k); nothing for the rest. */
  ghost function FrameUpdates(items: seq<Item>, schemas: Schemas, symbols: Symbols, clock: nat -> int, k: nat): seq<MarketUpdate>
    requires forall i :: 0 <= i < |items| ==> ItemOk(items[i], schemas, symbols)
  {
    if items == [] then []
    else
      assert ItemOk(items[0], schemas, symbols);
      match items[0]
      case Depth(m) =>
        MessageUpdates(m, schemas[ReadUnsigned(m.header, 2, 2)], symbols[m.symbol], clock(k))
        + FrameUpdates(items[1..], schemas, symbols, clock, k + 1)
      case Skipped(_) => FrameUpdates(items[1..], schemas, symbols, clock, k)
  }

  lemma {:induction false} ParseDepth(m: DepthMessage, rest: Bytes, schemas: Schemas, symbols: Symbols, clock: nat -> int, k: nat)
    requires ItemOk(Depth(m), schemas, symbols)
    ensures ParseSpec(Encode(m) + rest, schemas, symbols, clock, k)
            == MessageUpdates(m, schemas[ReadUnsigned(m.header, 2, 2)], symbols[m.symbol], clock(k))
               + ParseSpec(rest, schemas, symbols, clock, k + 1)
  {
    hide Encode, DecodeSpec, MessageUpdates, ReadUnsigned, ParseSpec;
    ParseStep(Encode(m) + rest, schemas, symbols, clock, k);
    var schema := schemas[ReadUnsigned(m.header, 2, 2)];
    DecodeEncoded(m, rest, schema, symbols, clock(k));
    EncodeStartsWithHeader(m);
    var tail := Encode(m)[8..];
    assert Encode(m) + rest == m.header + (tail + rest);
    ReadAppended(m.header, tail + rest, 2, 2);
    assert (Encode(m) + rest)[|Encode(m)|..] == rest;
  }

  lemma EncodeStartsWithHeader(m: DepthMessage)
    requires |m.symbol| < 256 && |m.header| == 8
    ensures |Encode(m)| > 8 && Encode(m)[..8] == m.header && Encode(m) == m.header + Encode(m)[8..]
  {
    hide EncodeGroup;
    assert Encode(m) == m.header + (m.fixed + EncodeGroup(m.bidLen, m.bids) + EncodeGroup(m.askLen, m.asks) + ([|m.symbol|] + m.symbol));
  }

  lemma {:induction false} ParseSkipped(bytes: Bytes, rest: Bytes, schemas: Schemas, symbols: Symbols, clock: nat -> int, k: nat)
    requires ItemOk(Skipped(bytes), schemas, symbols)
    ensures ParseSpec(bytes + rest, schemas, symbols, clock, k) == ParseSpec(rest, schemas, symbols, clock, k)
  {
    hide MeasureSpec, ReadUnsigned, ParseSpec;
    ParseStep(bytes + rest, schemas, symbols, clock, k);
    ReadAppended(bytes, rest, 2, 2);
    MeasureAppended(bytes, rest, schemas[ReadUnsigned(bytes, 2, 2)]);
    assert (bytes + rest)[|bytes|..] == rest;
  }

  /** Round trip through framing. */
  lemma {:induction false} ParseFrame(items: seq<Item>, schemas: Schemas, symbols: Symbols, clock: nat -> int, k: nat)
    requires forall i :: 0 <= i < |items| ==> ItemOk(items[i], schemas, symbols)
    ensures ParseSpec(FrameBytes(items), schemas, symbols, clock, k) == FrameUpdates(items, schemas, symbols, clock, k)
    decreases |items|
  {
    hide Encode, MessageUpdates, TurnSpec, ParseSpec;
    ParseNothing(schemas, symbols, clock, k);
    if items != [] {
      var rest := items[1..];
      assert ItemOk(items[0], schemas, symbols);
      match items[0] {
        case Depth(m) =>
          ParseFrame(rest, schemas, symbols, clock, k + 1);
          ParseDepth(m, FrameBytes(rest), schemas, symbols, clock, k);
        case Skipped(bytes) =>
          ParseFrame(rest, schemas, symbols, clock, k);
          ParseSkipped(bytes, FrameBytes(rest), schemas, symbols, clock, k);
      }
    }
  }

  // ----- the Binance depth messages -----

  const DEPTH_DIFF := MessageSchema(10003, 26, 0, MICROSECONDS, 24, 25,
    ScaledField(0, INT64), ScaledField(8, INT64), 2, GROUP16, 1, false)
  const DEPTH_SNAPSHOT := MessageSchema(10002, 18, 0, MICROSECONDS, 16, 17,
    ScaledField(0, INT64), ScaledField(8, INT64), 2, GROUP16, 1, false)

  function LevelBlock(price: int, quantity: int, extra: Bytes): Bytes
    requires -Pow256Half() <= price < Pow256Half() && -Pow256Half() <= quantity < Pow256Half()
  {
    HalfIsHalf();
    SignedBytes(price, 8) + SignedBytes(quantity, 8) + extra
  }

  function Pow256Half(): int { 0x8000_0000_0000_0000 }

  lemma HalfIsHalf()
    ensures Pow256(8) == 2 * Pow256Half()
  {
    assert Pow256(1) == 0x100 && Pow256(2) == 0x1_0000 && Pow256(3) == 0x100_0000 && Pow256(4) == 0x1_0000_0000;
    assert Pow256(5) == 0x100_0000_0000 && Pow256(6) == 0x1_0000_0000_0000 && Pow256(7) == 0x100_0000_0000_0000;
  }

  /** A 16-byte level (or longer) of two int64 fields carries exactly its price and quantity; the other
      six fields of the update are its side and the message's. */
  lemma BinanceLevel(price: int, quantity: int, extra: Bytes, schema: MessageSchema, side: Side, st: Stamp)
    requires schema == DEPTH_DIFF || schema == DEPTH_SNAPSHOT
    requires -Pow256Half() <= price < Pow256Half() && -Pow256Half() <= quantity < Pow256Half()
    ensures var u := LevelUpdate(LevelBlock(price, quantity, extra), 0, schema, side, st);
            && u.price == price && u.quantity == quantity && u.side == side && u.instrumentId == st.instrumentId
            && u.priceExp == st.priceExp && u.qtyExp == st.qtyExp
            && u.timestamp == st.timestamp && u.recvTsc == st.recvTsc
  {
    hide Pow256, LEBytes, LE, Signed;
    HalfIsHalf();
    var p, q := SignedBytes(price, 8), SignedBytes(quantity, 8);
    SignedRoundTrip(price, 8);
    SignedRoundTrip(quantity, 8);
    assert LevelBlock(price, quantity, extra)[0..8] == p;
    assert LevelBlock(price, quantity, extra)[8..16] == q;
  }

  /** The fixed block of the two depth messages: event time, update ids, the two exponents. */
  function FixedBlock(eventTime: int, ids: Bytes, priceExp: int, qtyExp: int): Bytes
    requires -Pow256Half() <= eventTime < Pow256Half() && -128 <= priceExp < 128 && -128 <= qtyExp < 128
  {
    HalfIsHalf();
    assert Pow256(1) == 256;
    SignedBytes(eventTime, 8) + ids + SignedBytes(priceExp, 1) + SignedBytes(qtyExp, 1)
  }

  /** The stamp of a depth message carries exactly its event time and exponents. */
  lemma BinanceStamp(m: DepthMessage, eventTime: int, ids: Bytes, priceExp: int, qtyExp: int,
                     schema: MessageSchema, id: int, recvTsc: int)
    requires (schema == DEPTH_DIFF && |ids| == 16) || (schema == DEPTH_SNAPSHOT && |ids| == 8)
    requires -Pow256Half() <= eventTime < Pow256Half() && -128 <= priceExp < 128 && -128 <= qtyExp < 128
    requires |m.header| == 8 && m.fixed == FixedBlock(eventTime, ids, priceExp, qtyExp)
    ensures |m.fixed| == schema.fixedBlockSize
    ensures MessageStamp(m, schema, id, recvTsc) == Stamp(id, priceExp, qtyExp, eventTime, recvTsc)
  {
    hide LEBytes, LE, Signed;
    HalfIsHalf();
    assert Pow256(1) == 256;
    var t, p, q := SignedBytes(eventTime, 8), SignedBytes(priceExp, 1), SignedBytes(qtyExp, 1);
    SignedRoundTrip(eventTime, 8);
    SignedRoundTrip(priceExp, 1);
    SignedRoundTrip(qtyExp, 1);
    var buf := m.header + m.fixed;
    assert buf == m.header + t + (ids + p + q);
    assert buf == (m.header + t + ids) + p + q;
    assert buf[8..16] == t && buf[16 + |ids|..17 + |ids|] == p && buf[17 + |ids|..18 + |ids|] == q;
  }

  /** One instant written in milliseconds, microseconds or nanoseconds decodes to the same number of
      microseconds; in nanoseconds anything below a microsecond is cut off. */
  lemma TimeUnitsAgree(msg: Bytes, ms: MessageSchema, us: MessageSchema, ns: MessageSchema, t: int, extra: int)
    requires ms.eventTimeUnit == MILLISECONDS && us.eventTimeUnit == MICROSECONDS && ns.eventTimeUnit == NANOSECONDS
    requires ReadSigned(msg, 8 + ms.eventTimeOffset, 8) == t && ReadSigned(msg, 8 + us.eventTimeOffset, 8) == 1000 * t
    requires ReadSigned(msg, 8 + ns.eventTimeOffset, 8) == 1_000_000 * t + extra && t >= 0 && 0 <= extra < 1000
    ensures EventTime(msg, ms) == EventTime(msg, us) == EventTime(msg, ns) == 1000 * t
  {
    CDivBounds(1_000_000 * t + extra, 1000, 1000 * t, 1000 * t + 1);
    assert (1_000_000 * t + extra) / 1000 == 1000 * t;
  }
}
