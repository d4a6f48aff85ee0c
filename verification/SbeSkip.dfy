/** Messages the parser steps over: any number of repeating groups, counted in 16 or 32 bits, and any
    number of length-prefixed fields. */
module SbeSkip {
  import opened ByteOrder
  import opened SbeDecoder
  import opened SbeFraming

  datatype Group = Group(blockLen: nat, blocks: seq<Bytes>)

  function CountWidth(e: GroupNumEncoding): nat { if e == GROUP32 then 4 else 2 }

  function EncodeGroups(groups: seq<Group>, e: GroupNumEncoding): Bytes {
    if groups == [] then []
    else LEBytes(groups[0].blockLen, 2) + LEBytes(|groups[0].blocks|, CountWidth(e)) + Join(groups[0].blocks)
         + EncodeGroups(groups[1..], e)
  }

  function EncodeVardata(fields: seq<Bytes>): Bytes {
    if fields == [] then []
    else [if |fields[0]| < 256 then |fields[0]| else 0] + fields[0] + EncodeVardata(fields[1..])
  }

  ghost predicate GroupFitsEncoding(g: Group, e: GroupNumEncoding) {
    && g.blockLen < Pow256(2) && |g.blocks| < Pow256(CountWidth(e))
    && forall i :: 0 <= i < |g.blocks| ==> |g.blocks[i]| == g.blockLen
  }

  lemma {:induction false} ReadField(pre: Bytes, x: nat, w: nat, post: Bytes)
    requires x < Pow256(w)
    ensures ReadUnsigned(pre + LEBytes(x, w) + post, |pre|, w) == x
  {
    ReadMiddle(pre, LEBytes(x, w), post, 0, w);
    LERoundTrip(x, w);
    assert LEBytes(x, w)[0..w] == LEBytes(x, w);
  }

  lemma GroupHeaderRead(pre: Bytes, g: Group, e: GroupNumEncoding, post: Bytes)
    requires GroupFitsEncoding(g, e)
    ensures var buf := pre + (LEBytes(g.blockLen, 2) + LEBytes(|g.blocks|, CountWidth(e)) + Join(g.blocks) + post);
            && ReadUnsigned(buf, |pre|, 2) == g.blockLen
            && ReadUnsigned(buf, |pre| + 2, CountWidth(e)) == |g.blocks|
            && |buf| >= |pre| + 2 + CountWidth(e)
  {
    hide Join, LEBytes, Pow256, ReadUnsigned;
    var a, b, c := LEBytes(g.blockLen, 2), LEBytes(|g.blocks|, CountWidth(e)), Join(g.blocks);
    var buf := pre + (a + b + c + post);
    assert buf == pre + a + (b + c + post) && buf == (pre + a) + b + (c + post);
    ReadField(pre, g.blockLen, 2, b + c + post);
    ReadField(pre + a, |g.blocks|, CountWidth(e), c + post);
  }

  lemma {:induction false} GroupsMeasured(pre: Bytes, groups: seq<Group>, e: GroupNumEncoding, tail: Bytes)
    requires forall i :: 0 <= i < |groups| ==> GroupFitsEncoding(groups[i], e)
    ensures MeasureGroups(pre + EncodeGroups(groups, e) + tail, |pre|, |groups|, e) == At(|pre| + |EncodeGroups(groups, e)|)
    decreases |groups|
  {
    hide ReadUnsigned, LEBytes, Join, Times, GroupFitsEncoding;
    if groups != [] {
      var g := groups[0];
      assert GroupFitsEncoding(g, e);
      var head := LEBytes(g.blockLen, 2) + LEBytes(|g.blocks|, CountWidth(e)) + Join(g.blocks);
      var rest := EncodeGroups(groups[1..], e);
      var buf := pre + EncodeGroups(groups, e) + tail;
      assert buf == pre + (head + (rest + tail));
      assert buf == (pre + head) + rest + tail;
      GroupHeaderRead(pre, g, e, rest + tail);
      BlocksLength(g, e);
      GroupsMeasured(pre + head, groups[1..], e, tail);
    }
  }

  lemma BlocksLength(g: Group, e: GroupNumEncoding)
    requires GroupFitsEncoding(g, e)
    ensures |Join(g.blocks)| == Times(g.blockLen, |g.blocks|)
  {
    JoinLength(g.blockLen, g.blocks);
  }

  lemma {:induction false} VardataMeasured(pre: Bytes, fields: seq<Bytes>, tail: Bytes)
    requires forall i :: 0 <= i < |fields| ==> |fields[i]| < 256
    ensures MeasureVardata(pre + EncodeVardata(fields) + tail, |pre|, |fields|) == At(|pre| + |EncodeVardata(fields)|)
    decreases |fields|
  {
    if fields != [] {
      var head := [|fields[0]|] + fields[0];
      var rest := EncodeVardata(fields[1..]);
      var buf := pre + EncodeVardata(fields) + tail;
      assert buf == (pre + head) + rest + tail;
      assert buf[|pre|] == |fields[0]|;
      VardataMeasured(pre + head, fields[1..], tail);
    }
  }

  /** measure returns exactly the encoded length, for any schema and whatever follows the message. */
  lemma {:induction false} MeasureEncoded(header: Bytes, fixed: Bytes, groups: seq<Group>, fields: seq<Bytes>, rest: Bytes, schema: MessageSchema)
    requires |header| == 8 && |fixed| == schema.fixedBlockSize
    requires |groups| == schema.numGroups && |fields| == schema.numVardata
    requires forall i :: 0 <= i < |groups| ==> GroupFitsEncoding(groups[i], schema.groupNumEncoding)
    requires forall i :: 0 <= i < |fields| ==> |fields[i]| < 256
    ensures var msg := header + fixed + EncodeGroups(groups, schema.groupNumEncoding) + EncodeVardata(fields);
            MeasureSpec(msg + rest, schema) == |msg|
  {
    var e := schema.groupNumEncoding;
    var pre, gs, vs := header + fixed, EncodeGroups(groups, e), EncodeVardata(fields);
    var buf := pre + gs + vs + rest;
    assert buf == pre + gs + (vs + rest);
    GroupsMeasured(pre, groups, e, vs + rest);
    VardataMeasured(pre + gs, fields, rest);
  }

  /** So it is one of the messages the frame round trip is about. */
  lemma {:induction false} EncodedIsItem(header: Bytes, fixed: Bytes, groups: seq<Group>, fields: seq<Bytes>, schemas: Schemas, symbols: Symbols)
    requires |header| == 8 && ReadUnsigned(header, 2, 2) in schemas
    requires var schema := schemas[ReadUnsigned(header, 2, 2)];
             && schema.skip && |fixed| == schema.fixedBlockSize
             && |groups| == schema.numGroups && |fields| == schema.numVardata
             && forall i :: 0 <= i < |groups| ==> GroupFitsEncoding(groups[i], schema.groupNumEncoding)
    requires forall i :: 0 <= i < |fields| ==> |fields[i]| < 256
    ensures var schema := schemas[ReadUnsigned(header, 2, 2)];
            ItemOk(Skipped(header + fixed + EncodeGroups(groups, schema.groupNumEncoding) + EncodeVardata(fields)), schemas, symbols)
  {
    hide MeasureSpec, ReadUnsigned, EncodeGroups, EncodeVardata;
    var schema := schemas[ReadUnsigned(header, 2, 2)];
    var tail := fixed + EncodeGroups(groups, schema.groupNumEncoding) + EncodeVardata(fields);
    var msg := header + fixed + EncodeGroups(groups, schema.groupNumEncoding) + EncodeVardata(fields);
    assert msg == header + tail && msg + [] == msg;
    ReadAppended(header, tail, 2, 2);
    MeasureEncoded(header, fixed, groups, fields, [], schema);
  }

  const BEST_BID_ASK := MessageSchema(10001, 50, 0, MICROSECONDS, 16, 17,
    ScaledField(0, INT64), ScaledField(8, INT64), 0, GROUP16, 1, true)
  const TRADES := MessageSchema(10000, 18, 0, MICROSECONDS, 16, 17,
    ScaledField(8, INT64), ScaledField(16, INT64), 1, GROUP32, 1, true)

  /** The four schemas registered at start-up. */
  const BINANCE: Schemas := map[10003 := DEPTH_DIFF, 10002 := DEPTH_SNAPSHOT, 10001 := BEST_BID_ASK, 10000 := TRADES]

  /** A depth message of either kind with level blocks of 16 bytes or more is well formed for them. */
  lemma BinanceDepthIsItem(m: DepthMessage, symbols: Symbols)
    requires |m.header| == 8 && |m.symbol| < 256 && m.symbol in symbols
    requires var id := ReadUnsigned(m.header, 2, 2);
             (id == 10003 && |m.fixed| == 26) || (id == 10002 && |m.fixed| == 18)
    requires 16 <= m.bidLen < 0x1_0000 && 16 <= m.askLen < 0x1_0000 && |m.bids| < 0x1_0000 && |m.asks| < 0x1_0000
    requires forall i :: 0 <= i < |m.bids| ==> |m.bids[i]| == m.bidLen
    requires forall i :: 0 <= i < |m.asks| ==> |m.asks[i]| == m.askLen
    ensures ItemOk(Depth(m), BINANCE, symbols)
    ensures IsDepthSchema(DEPTH_DIFF) && IsDepthSchema(DEPTH_SNAPSHOT)
  {
    hide ReadUnsigned;
  }
}
