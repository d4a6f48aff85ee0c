/** The messages of the exchange, byte by byte, and what the decoder makes of them. */
module SbeBinance {
  import opened ByteOrder
  import opened MarketData
  import opened SbeDecoder
  import opened SbeFraming
  import opened SbeSkip
  import opened BookSpec
  import opened OrderBooks
  import opened BookTheorems

  // ----- numbers on the wire -----

  function Two(x: nat): Bytes
    requires x < 0x1_0000
  {
    [x % 256, x / 256]
  }

  function Four(x: nat): Bytes
    requires x < 0x1_0000_0000
  {
    [x % 256, x / 256 % 256, x / 0x1_0000 % 256, x / 0x100_0000]
  }

  function One(x: int): Bytes
    requires -128 <= x < 128
  {
    [if x < 0 then x + 256 else x]
  }

  function Eight(x: int): Bytes
    requires -0x8000_0000_0000_0000 <= x < 0x8000_0000_0000_0000
  {
    var u: nat := if x < 0 then x + 0x1_0000_0000_0000_0000 else x;
    Four(u % 0x1_0000_0000) + Four(u / 0x1_0000_0000)
  }

  lemma {:induction false} OneDigit(x: nat)
    ensures LEBytes(x, 0) == [] && LEBytes(x, 1) == [x % 256]
  {
  }

  lemma {:induction false} TwoIsLE(x: nat)
    requires x < 0x1_0000
    ensures LEBytes(x, 2) == Two(x)
  {
    OneDigit(x / 256);
    assert LEBytes(x, 2) == [x % 256] + LEBytes(x / 256, 1);
  }

  lemma {:induction false} FourDigits(x: nat)
    ensures LEBytes(x, 4) == Four(x % 0x1_0000_0000)
  {
    OneDigit(x / 256 / 256 / 256);
    assert LEBytes(x / 256 / 256, 2) == [x / 256 / 256 % 256] + LEBytes(x / 256 / 256 / 256, 1);
    assert LEBytes(x / 256, 3) == [x / 256 % 256] + LEBytes(x / 256 / 256, 2);
    assert LEBytes(x, 4) == [x % 256] + LEBytes(x / 256, 3);
    FourQuotients(x);
  }

  lemma FourQuotients(x: nat)
    ensures var y := x % 0x1_0000_0000;
            && x % 256 == y % 256 && x / 256 % 256 == y / 256 % 256
            && x / 256 / 256 % 256 == y / 0x1_0000 % 256 && x / 256 / 256 / 256 % 256 == y / 0x100_0000
    ensures x / 256 / 256 / 256 / 256 == x / 0x1_0000_0000
  {
    var a, b, c := x / 256, x / 256 / 256, x / 256 / 256 / 256;
    FromDigits(x % 256, a % 256, b % 256, c % 256, c / 256);
  }

  /** A number from its four low digits and the rest. */
  lemma FromDigits(d0: nat, d1: nat, d2: nat, d3: nat, q: nat)
    requires d0 < 256 && d1 < 256 && d2 < 256 && d3 < 256
    ensures var y := d0 + 256 * d1 + 0x1_0000 * d2 + 0x100_0000 * d3; var x := y + 0x1_0000_0000 * q;
            && x % 0x1_0000_0000 == y && x / 0x1_0000_0000 == q
            && y % 256 == d0 && y / 256 % 256 == d1 && y / 0x1_0000 % 256 == d2 && y / 0x100_0000 == d3
  {
    var y := d0 + 256 * d1 + 0x1_0000 * d2 + 0x100_0000 * d3;
    assert y / 256 == d1 + 256 * d2 + 0x1_0000 * d3;
    assert y / 0x1_0000 == d2 + 256 * d3;
    assert y / 0x100_0000 == d3;
  }

  lemma {:induction false} FourIsLE(x: nat)
    requires x < 0x1_0000_0000
    ensures LEBytes(x, 4) == Four(x)
  {
    FourDigits(x);
  }

  /** The low and the high half. */
  lemma {:induction false} Halves(x: nat)
    ensures LEBytes(x, 8) == LEBytes(x, 4) + LEBytes(x / 0x1_0000_0000, 4)
  {
    var a, b, c, d := x / 256, x / 256 / 256, x / 256 / 256 / 256, x / 256 / 256 / 256 / 256;
    FourQuotients(x);
    assert LEBytes(x, 8) == [x % 256] + LEBytes(a, 7) && LEBytes(a, 7) == [a % 256] + LEBytes(b, 6);
    assert LEBytes(b, 6) == [b % 256] + LEBytes(c, 5) && LEBytes(c, 5) == [c % 256] + LEBytes(d, 4);
    assert LEBytes(x, 4) == [x % 256] + LEBytes(a, 3) && LEBytes(a, 3) == [a % 256] + LEBytes(b, 2);
    OneDigit(c);
    assert LEBytes(b, 2) == [b % 256] + LEBytes(c, 1);
  }

  lemma EightIsSigned(x: int)
    requires -0x8000_0000_0000_0000 <= x < 0x8000_0000_0000_0000
    ensures 0 <= 2 * x + Pow256(8) && 2 * x < Pow256(8) && SignedBytes(x, 8) == Eight(x)
  {
    hide LEBytes;
    HalfIsHalf();
    var u: nat := if x < 0 then x + 0x1_0000_0000_0000_0000 else x;
    Halves(u);
    FourDigits(u);
    FourIsLE(u / 0x1_0000_0000);
  }

  lemma OneIsSigned(x: int)
    requires -128 <= x < 128
    ensures 0 <= 2 * x + Pow256(1) && 2 * x < Pow256(1) && SignedBytes(x, 1) == One(x)
  {
    assert Pow256(1) == 256;
    OneDigit(if x >= 0 then x else x + 256);
  }

  // ----- the eight encodings of a scaled field -----

  lemma {:induction false} WholeField(x: nat, w: nat)
    requires x < Pow256(w)
    ensures ReadUnsigned(LEBytes(x, w), 0, w) == x
  {
    LERoundTrip(x, w);
    assert LEBytes(x, w)[0..w] == LEBytes(x, w);
  }

  /** Unsigned fields of 1, 2 and 4 bytes are read as they are; one of 8 bytes as an int64. */
  lemma {:induction false} UnsignedFields(x: nat)
    ensures x < 0x100 ==> ReadScaled(LEBytes(x, 1), 0, UINT8) == x
    ensures x < 0x1_0000 ==> ReadScaled(LEBytes(x, 2), 0, UINT16) == x
    ensures x < 0x1_0000_0000 ==> ReadScaled(LEBytes(x, 4), 0, UINT32) == x
    ensures x < 0x1_0000_0000_0000_0000 ==>
              ReadScaled(LEBytes(x, 8), 0, UINT64) == if x < 0x8000_0000_0000_0000 then x else x - 0x1_0000_0000_0000_0000
  {
    hide ReadUnsigned, LEBytes;
    Powers();
    if x < Pow256(1) { WholeField(x, 1); }
    if x < Pow256(2) { WholeField(x, 2); }
    if x < Pow256(4) { WholeField(x, 4); }
    if x < Pow256(8) { WholeField(x, 8); }
  }

  /** Signed fields of 1, 2, 4 and 8 bytes. */
  lemma SignedFields(x: int)
    ensures Pow256(1) == 0x100 && Pow256(2) == 0x1_0000 && Pow256(4) == 0x1_0000_0000 && Pow256(8) == 0x1_0000_0000_0000_0000
    ensures -0x80 <= x < 0x80 ==> ReadScaled(SignedBytes(x, 1), 0, INT8) == x
    ensures -0x8000 <= x < 0x8000 ==> ReadScaled(SignedBytes(x, 2), 0, INT16) == x
    ensures -0x8000_0000 <= x < 0x8000_0000 ==> ReadScaled(SignedBytes(x, 4), 0, INT32) == x
    ensures -0x8000_0000_0000_0000 <= x < 0x8000_0000_0000_0000 ==> ReadScaled(SignedBytes(x, 8), 0, INT64) == x
  {
    hide ReadUnsigned, LEBytes, Pow256;
    Powers();
    if -0x80 <= x < 0x80 { WholeField(Unsigned(x, 1), 1); }
    if -0x8000 <= x < 0x8000 { WholeField(Unsigned(x, 2), 2); }
    if -0x8000_0000 <= x < 0x8000_0000 { WholeField(Unsigned(x, 4), 4); }
    if Int64(x) { WholeField(Unsigned(x, 8), 8); }
  }

  lemma Powers()
    ensures Pow256(1) == 0x100 && Pow256(2) == 0x1_0000 && Pow256(4) == 0x1_0000_0000 && Pow256(8) == 0x1_0000_0000_0000_0000
  {
    HalfIsHalf();
    assert Pow256(1) == 0x100 && Pow256(2) == 0x1_0000 && Pow256(3) == 0x100_0000;
  }

  // ----- a depth message -----

  datatype Level = Level(price: int, quantity: int, extra: Bytes)

  /** A depth message: an update with two ids and template 10003, or a snapshot with one and 10002. */
  datatype Wire = Wire(snapshot: bool, blockLength: nat, schemaId: nat, version: nat,
                       eventTime: int, firstId: int, lastId: int, priceExp: int, qtyExp: int,
                       bidLen: nat, bids: seq<Level>, askLen: nat, asks: seq<Level>, symbol: Bytes)

  predicate Int64(x: int) { -0x8000_0000_0000_0000 <= x < 0x8000_0000_0000_0000 }

  ghost predicate LevelsOk(len: nat, levels: seq<Level>) {
    && 16 <= len < 0x1_0000 && |levels| < 0x1_0000
    && forall i :: 0 <= i < |levels| ==>
         Int64(levels[i].price) && Int64(levels[i].quantity) && |levels[i].extra| == len - 16
  }

  ghost predicate WireOk(w: Wire) {
    && w.blockLength < 0x1_0000 && w.schemaId < 0x1_0000 && w.version < 0x1_0000
    && Int64(w.eventTime) && Int64(w.firstId) && Int64(w.lastId)
    && -128 <= w.priceExp < 128 && -128 <= w.qtyExp < 128
    && LevelsOk(w.bidLen, w.bids) && LevelsOk(w.askLen, w.asks) && |w.symbol| < 256
  }

  ghost function LevelBytes(l: Level): Bytes {
    if Int64(l.price) && Int64(l.quantity) then Eight(l.price) + Eight(l.quantity) + l.extra else []
  }

  ghost function GroupBytes(levels: seq<Level>): Bytes {
    if levels == [] then [] else LevelBytes(levels[0]) + GroupBytes(levels[1..])
  }

  ghost function HeaderBytes(w: Wire): Bytes
    requires WireOk(w)
  {
    Two(w.blockLength) + Two(if w.snapshot then 10002 else 10003) + Two(w.schemaId) + Two(w.version)
  }

  ghost function FixedBytes(w: Wire): Bytes
    requires WireOk(w)
  {
    Eight(w.eventTime) + (if w.snapshot then Eight(w.lastId) else Eight(w.firstId) + Eight(w.lastId))
    + One(w.priceExp) + One(w.qtyExp)
  }

  ghost function WireBytes(w: Wire): Bytes
    requires WireOk(w)
  {
    (HeaderBytes(w) + FixedBytes(w))
    + (Two(w.bidLen) + Two(|w.bids|) + GroupBytes(w.bids))
    + (Two(w.askLen) + Two(|w.asks|) + GroupBytes(w.asks))
    + ([|w.symbol|] + w.symbol)
  }

  /** One update per level, with all eight fields: the symbol's id, the side, the level's price and
      quantity, the message's exponents and event time, and the time of decoding. */
  function SideUpdates(levels: seq<Level>, side: Side, w: Wire, id: int, recvTsc: int): seq<MarketUpdate> {
    seq(|levels|, i requires 0 <= i < |levels| =>
      MarketUpdate(id, side, levels[i].price, levels[i].quantity, w.priceExp, w.qtyExp, w.eventTime, recvTsc))
  }

  function WireUpdates(w: Wire, id: int, recvTsc: int): seq<MarketUpdate> {
    SideUpdates(w.bids, BUY, w, id, recvTsc) + SideUpdates(w.asks, SELL, w, id, recvTsc)
  }

  // ----- as the message of the frame round trip -----

  ghost function Blocks(levels: seq<Level>): (blocks: seq<Bytes>)
    ensures |blocks| == |levels|
  {
    seq(|levels|, i requires 0 <= i < |levels| => LevelBytes(levels[i]))
  }

  ghost function MessageOf(w: Wire): DepthMessage
    requires WireOk(w)
  {
    DepthMessage(HeaderBytes(w), FixedBytes(w), w.bidLen, Blocks(w.bids), w.askLen, Blocks(w.asks), w.symbol)
  }

  function SchemaOf(w: Wire): MessageSchema { if w.snapshot then DEPTH_SNAPSHOT else DEPTH_DIFF }

  lemma {:induction false} JoinedBlocks(levels: seq<Level>)
    ensures Join(Blocks(levels)) == GroupBytes(levels)
    decreases |levels|
  {
    hide LevelBytes;
    if levels != [] {
      assert Blocks(levels)[1..] == Blocks(levels[1..]);
      JoinedBlocks(levels[1..]);
    }
  }

  lemma SameBytes(w: Wire)
    requires WireOk(w)
    ensures Encode(MessageOf(w)) == WireBytes(w)
  {
    hide HeaderBytes, FixedBytes, Join, GroupBytes, Two, LEBytes;
    TwoIsLE(w.bidLen);
    TwoIsLE(|w.bids|);
    TwoIsLE(w.askLen);
    TwoIsLE(|w.asks|);
    JoinedBlocks(w.bids);
    JoinedBlocks(w.asks);
  }

  lemma WireIsItem(w: Wire, symbols: Symbols)
    requires WireOk(w) && w.symbol in symbols
    ensures ItemOk(Depth(MessageOf(w)), BINANCE, symbols) && MessageOf(w).symbol == w.symbol
    ensures ReadUnsigned(MessageOf(w).header, 2, 2) == (if w.snapshot then 10002 else 10003)
    ensures BINANCE[if w.snapshot then 10002 else 10003] == SchemaOf(w)
  {
    hide Eight, One, LevelBytes, WellFormed;
    var m, template := MessageOf(w), if w.snapshot then 10002 else 10003;
    TwoIsLE(template);
    ReadLE16(Two(w.blockLength), template, Two(w.schemaId) + Two(w.version));
    assert m.header == Two(w.blockLength) + Two(template) + (Two(w.schemaId) + Two(w.version));
    FixedSize(w);
    BlocksSized(w.bidLen, w.bids);
    BlocksSized(w.askLen, w.asks);
    BinanceDepthIsItem(m, symbols);
  }

  lemma FixedSize(w: Wire)
    requires WireOk(w)
    ensures |FixedBytes(w)| == if w.snapshot then 18 else 26
  {
  }

  lemma BlocksSized(len: nat, levels: seq<Level>)
    requires LevelsOk(len, levels)
    ensures forall i :: 0 <= i < |Blocks(levels)| ==> |Blocks(levels)[i]| == len
  {
  }

  lemma LevelRead(l: Level, schema: MessageSchema, side: Side, st: Stamp)
    requires Int64(l.price) && Int64(l.quantity) && (schema == DEPTH_DIFF || schema == DEPTH_SNAPSHOT)
    ensures LevelUpdate(LevelBytes(l), 0, schema, side, st)
            == MarketUpdate(st.instrumentId, side, l.price, l.quantity, st.priceExp, st.qtyExp, st.timestamp, st.recvTsc)
  {
    hide LevelUpdate, Eight;
    EightIsSigned(l.price);
    EightIsSigned(l.quantity);
    assert LevelBytes(l) == LevelBlock(l.price, l.quantity, l.extra);
    BinanceLevel(l.price, l.quantity, l.extra, schema, side, st);
  }

  lemma {:induction false} BlocksRead(len: nat, levels: seq<Level>, schema: MessageSchema, side: Side, st: Stamp, w: Wire)
    requires LevelsOk(len, levels) && (schema == DEPTH_DIFF || schema == DEPTH_SNAPSHOT)
    requires st.priceExp == w.priceExp && st.qtyExp == w.qtyExp && st.timestamp == w.eventTime
    ensures BlockUpdates(Blocks(levels), schema, side, st) == SideUpdates(levels, side, w, st.instrumentId, st.recvTsc)
    decreases |levels|
  {
    hide LevelUpdate, LevelBytes;
    if levels != [] {
      assert Blocks(levels)[1..] == Blocks(levels[1..]);
      LevelRead(levels[0], schema, side, st);
      BlocksRead(len, levels[1..], schema, side, st, w);
    }
  }

  lemma StampRead(w: Wire, id: int, recvTsc: int)
    requires WireOk(w)
    ensures MessageStamp(MessageOf(w), SchemaOf(w), id, recvTsc) == Stamp(id, w.priceExp, w.qtyExp, w.eventTime, recvTsc)
  {
    hide Eight, One, StampOf, SignedBytes;
    EightIsSigned(w.eventTime);
    OneIsSigned(w.priceExp);
    OneIsSigned(w.qtyExp);
    var ids := if w.snapshot then Eight(w.lastId) else Eight(w.firstId) + Eight(w.lastId);
    assert |ids| == if w.snapshot then 8 else 16 by { IdSizes(w); }
    assert FixedBytes(w) == FixedBlock(w.eventTime, ids, w.priceExp, w.qtyExp);
    BinanceStamp(MessageOf(w), w.eventTime, ids, w.priceExp, w.qtyExp, SchemaOf(w), id, recvTsc);
  }

  lemma IdSizes(w: Wire)
    requires WireOk(w)
    ensures |Eight(w.lastId)| == 8 && |Eight(w.firstId)| == 8
  {
  }

  lemma UpdatesRead(w: Wire, id: int, recvTsc: int)
    requires WireOk(w)
    ensures MessageUpdates(MessageOf(w), SchemaOf(w), id, recvTsc) == WireUpdates(w, id, recvTsc)
  {
    hide BlockUpdates, MessageStamp, SideUpdates;
    StampRead(w, id, recvTsc);
    var st := Stamp(id, w.priceExp, w.qtyExp, w.eventTime, recvTsc);
    BlocksRead(w.bidLen, w.bids, SchemaOf(w), BUY, st, w);
    BlocksRead(w.askLen, w.asks, SchemaOf(w), SELL, st, w);
  }

  // ----- results -----

  /** A depth message decodes to one update per level, bids then asks, equal in all eight fields to what
      the message says, whatever follows it. */
  lemma WireDecoded(w: Wire, rest: Bytes, symbols: Symbols, recvTsc: int)
    requires WireOk(w) && w.symbol in symbols
    ensures DecodeSpec(WireBytes(w) + rest, SchemaOf(w), symbols, recvTsc)
            == Decoded(|WireBytes(w)|, WireUpdates(w, symbols[w.symbol], recvTsc))
  {
    hide WireBytes, MessageOf, WireUpdates, DecodeSpec, Encode, MessageUpdates, WireOk, ReadUnsigned;
    WireIsItem(w, symbols);
    SameBytes(w);
    DecodeEncoded(MessageOf(w), rest, SchemaOf(w), symbols, recvTsc);
    UpdatesRead(w, symbols[w.symbol], recvTsc);
  }

  ghost function WireFrame(ws: seq<Wire>): Bytes
    requires forall i :: 0 <= i < |ws| ==> WireOk(ws[i])
  {
    if ws == [] then [] else WireBytes(ws[0]) + WireFrame(ws[1..])
  }

  ghost function FrameLevels(ws: seq<Wire>, symbols: Symbols, clock: nat -> int, k: nat): seq<MarketUpdate>
    requires forall i :: 0 <= i < |ws| ==> ws[i].symbol in symbols
  {
    if ws == [] then [] else WireUpdates(ws[0], symbols[ws[0].symbol], clock(k)) + FrameLevels(ws[1..], symbols, clock, k + 1)
  }

  /** A frame of depth messages under the schemas registered at start-up. */
  lemma {:induction false} WireFrameParsed(ws: seq<Wire>, symbols: Symbols, clock: nat -> int, k: nat)
    requires forall i :: 0 <= i < |ws| ==> WireOk(ws[i]) && ws[i].symbol in symbols
    ensures ParseSpec(WireFrame(ws), BINANCE, symbols, clock, k) == FrameLevels(ws, symbols, clock, k)
    decreases |ws|
  {
    hide ParseSpec, WireBytes, WireUpdates, WireOk, MessageOf, ItemOk, MessageUpdates, ReadUnsigned, Encode;
    ParseNothing(BINANCE, symbols, clock, k);
    if ws != [] {
      var w := ws[0];
      assert WireOk(w);
      WireIsItem(w, symbols);
      SameBytes(w);
      ParseDepth(MessageOf(w), WireFrame(ws[1..]), BINANCE, symbols, clock, k);
      UpdatesRead(w, symbols[w.symbol], clock(k));
      WireFrameParsed(ws[1..], symbols, clock, k + 1);
    }
  }

  /** A book whose first update comes from such a message has the message's two exponents, for good. */
  lemma {:induction false} WireExponents(w: Wire, id: int, recvTsc: int, more: seq<MarketUpdate>)
    requires w.bids != [] || w.asks != []
    ensures var b := RunBook(EMPTY_BOOK, WireUpdates(w, id, recvTsc) + more);
            b.priceExp == w.priceExp && b.qtyExp == w.qtyExp
  {
    hide RunBook;
    var us := WireUpdates(w, id, recvTsc) + more;
    assert us[0].priceExp == w.priceExp && us[0].qtyExp == w.qtyExp;
    SidesAreIndependent(EMPTY_BOOK, us);
  }

  // ----- skipped messages -----

  /** A best bid and ask message: template 10001, a fixed block of 50 bytes and the symbol, 59 bytes and
      the symbol's length in all. */
  lemma BestBidAskSkipped(blockLength: nat, schemaId: nat, version: nat, fixed: Bytes, symbol: Bytes, symbols: Symbols)
    requires blockLength < 0x1_0000 && schemaId < 0x1_0000 && version < 0x1_0000
    requires |fixed| == 50 && |symbol| < 256
    ensures var msg := Two(blockLength) + Two(10001) + Two(schemaId) + Two(version) + fixed + ([|symbol|] + symbol);
            |msg| == 59 + |symbol| && ItemOk(Skipped(msg), BINANCE, symbols)
  {
    hide Two, LEBytes, ItemOk, ReadUnsigned;
    var header := Two(blockLength) + Two(10001) + (Two(schemaId) + Two(version));
    TemplateRead(blockLength, 10001, schemaId, version);
    OneField(symbol);
    assert EncodeGroups([], GROUP16) == [];
    EncodedIsItem(header, fixed, [], [symbol], BINANCE, symbols);
    assert Two(blockLength) + Two(10001) + Two(schemaId) + Two(version) + fixed + ([|symbol|] + symbol)
        == header + fixed + [] + ([|symbol|] + symbol);
  }

  lemma TemplateRead(blockLength: nat, template: nat, schemaId: nat, version: nat)
    requires blockLength < 0x1_0000 && template < 0x1_0000 && schemaId < 0x1_0000 && version < 0x1_0000
    ensures |Two(blockLength) + Two(template) + (Two(schemaId) + Two(version))| == 8
    ensures ReadUnsigned(Two(blockLength) + Two(template) + (Two(schemaId) + Two(version)), 2, 2) == template
  {
    TwoIsLE(template);
    ReadLE16(Two(blockLength), template, Two(schemaId) + Two(version));
  }

  lemma OneField(symbol: Bytes)
    requires |symbol| < 256
    ensures EncodeVardata([symbol]) == [|symbol|] + symbol
  {
    assert [symbol][1..] == [] && EncodeVardata([]) == [];
    assert [|symbol|] + symbol + [] == [|symbol|] + symbol;
  }

  /** A trade message: template 10000, 18 bytes, one group with a 16-bit block length and a 32-bit count,
      and the symbol. */
  lemma {:induction false} TradesSkipped(blockLength: nat, schemaId: nat, version: nat, fixed: Bytes, len: nat, blocks: seq<Bytes>,
                      symbol: Bytes, symbols: Symbols)
    requires blockLength < 0x1_0000 && schemaId < 0x1_0000 && version < 0x1_0000
    requires |fixed| == 18 && |symbol| < 256 && len < 0x1_0000 && |blocks| < 0x1_0000_0000
    requires forall i :: 0 <= i < |blocks| ==> |blocks[i]| == len
    ensures var msg := Two(blockLength) + Two(10000) + Two(schemaId) + Two(version) + fixed
                       + (Two(len) + Four(|blocks|) + Join(blocks)) + ([|symbol|] + symbol);
            |msg| == 33 + |blocks| * len + |symbol| && ItemOk(Skipped(msg), BINANCE, symbols)
  {
    hide Two, Four, LEBytes, ItemOk, ReadUnsigned, Join;
    var header := Two(blockLength) + Two(10000) + (Two(schemaId) + Two(version));
    var group := Two(len) + Four(|blocks|) + Join(blocks);
    TemplateRead(blockLength, 10000, schemaId, version);
    OneField(symbol);
    OneGroup(len, blocks);
    EncodedIsItem(header, fixed, [Group(len, blocks)], [symbol], BINANCE, symbols);
    assert Two(blockLength) + Two(10000) + Two(schemaId) + Two(version) + fixed + group + ([|symbol|] + symbol)
        == header + fixed + group + ([|symbol|] + symbol);
  }

  lemma {:induction false} OneGroup(len: nat, blocks: seq<Bytes>)
    requires len < 0x1_0000 && |blocks| < 0x1_0000_0000 && forall i :: 0 <= i < |blocks| ==> |blocks[i]| == len
    ensures EncodeGroups([Group(len, blocks)], GROUP32) == Two(len) + Four(|blocks|) + Join(blocks)
    ensures GroupFitsEncoding(Group(len, blocks), GROUP32)
    ensures |Two(len) + Four(|blocks|) + Join(blocks)| == 6 + |blocks| * len
  {
    hide LEBytes, Join;
    TwoIsLE(len);
    FourIsLE(|blocks|);
    JoinLength(len, blocks);
    var groups := [Group(len, blocks)];
    assert groups[1..] == [] && EncodeGroups([], GROUP32) == [];
    assert Pow256(2) == 0x1_0000 && Pow256(4) == 0x1_0000_0000 by { assert Pow256(1) == 256; }
  }
}
