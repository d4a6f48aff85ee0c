/** The schema-driven decoder of one SBE message and the independent length computation. */
module SbeDecoder {
  import opened CInt
  import opened ByteOrder
  import opened MarketData
  import opened LFQueues

  datatype IntEncoding = INT8 | INT16 | INT32 | INT64 | UINT8 | UINT16 | UINT32 | UINT64
  datatype TimestampUnit = MICROSECONDS | MILLISECONDS | NANOSECONDS
  datatype GroupNumEncoding = GROUP16 | GROUP32
  datatype ScaledField = ScaledField(offset: nat, rawType: IntEncoding)

  datatype MessageSchema = MessageSchema(
    templateId: nat,
    fixedBlockSize: nat, eventTimeOffset: nat, eventTimeUnit: TimestampUnit,
    priceExpOffset: nat, qtyExpOffset: nat,
    priceField: ScaledField, qtyField: ScaledField,
    numGroups: byte, groupNumEncoding: GroupNumEncoding, numVardata: byte, skip: bool)

  /** Symbols known for one venue; a missing symbol is the registry's exception. */
  type Symbols = map<Bytes, int>

  function Width(e: IntEncoding): (w: nat)
    ensures w > 0
  {
    match e
    case INT8 | UINT8 => 1
    case INT16 | UINT16 => 2
    case INT32 | UINT32 => 4
    case INT64 | UINT64 => 8
  }

  /** Every encoding is widened to int64; the cast from uint64 reads the top bit as a sign. */
  function ReadScaled(buf: Bytes, offset: nat, e: IntEncoding): int {
    match e
    case UINT8 | UINT16 | UINT32 => ReadUnsigned(buf, offset, Width(e))
    case _ => ReadSigned(buf, offset, Width(e))
  }

  function FieldEnd(f: ScaledField): nat { f.offset + Width(f.rawType) }

  datatype Decoded = Decoded(consumed: nat, updates: seq<MarketUpdate>)

  const NOTHING := Decoded(0, [])

  /** What the message says once for all its levels. */
  datatype Stamp = Stamp(instrumentId: int, priceExp: int, qtyExp: int, timestamp: int, recvTsc: int)

  function LevelUpdate(msg: Bytes, offset: nat, schema: MessageSchema, side: Side, st: Stamp): MarketUpdate {
    MarketUpdate(st.instrumentId, side,
                 ReadScaled(msg, offset + schema.priceField.offset, schema.priceField.rawType),
                 ReadScaled(msg, offset + schema.qtyField.offset, schema.qtyField.rawType),
                 st.priceExp, st.qtyExp, st.timestamp, st.recvTsc)
  }

  /** One repeating group: `count` blocks of blockLen bytes, stopping where a block leaves the buffer. */
  function GroupUpdates(msg: Bytes, offset: nat, blockLen: nat, count: nat,
                        schema: MessageSchema, side: Side, st: Stamp): (us: seq<MarketUpdate>)
    decreases count
  {
    if count == 0 || offset + blockLen > |msg| then []
    else [LevelUpdate(msg, offset, schema, side, st)]
         + GroupUpdates(msg, offset + blockLen, blockLen, count - 1, schema, side, st)
  }

  function EventTime(msg: Bytes, schema: MessageSchema): int {
    var raw := ReadSigned(msg, 8 + schema.eventTimeOffset, 8);
    match schema.eventTimeUnit
    case MICROSECONDS => raw
    case MILLISECONDS => raw * 1000
    case NANOSECONDS => CDiv(raw, 1000)
  }

  /** Where the parts of a two-group message lie, when it is long enough to say. */
  datatype Layout = TooShort | Layout(bidLen: nat, numBids: nat, bidsEnd: nat, askLen: nat, numAsks: nat,
                                      asksEnd: nat, symLen: nat)
  {
    function Total(): nat requires Layout? { asksEnd + 1 + symLen }
  }

  function FindLayout(msg: Bytes, schema: MessageSchema): Layout {
    var offset := 8 + schema.fixedBlockSize;
    if |msg| < 8 || offset > |msg| || offset + 4 > |msg| then TooShort
    else
      var bidLen, numBids := ReadUnsigned(msg, offset, 2), ReadUnsigned(msg, offset + 2, 2);
      var bidsEnd := offset + 4 + Times(bidLen, numBids);
      if bidsEnd + 4 > |msg| then TooShort
      else
        var askLen, numAsks := ReadUnsigned(msg, bidsEnd, 2), ReadUnsigned(msg, bidsEnd + 2, 2);
        var asksEnd := bidsEnd + 4 + Times(askLen, numAsks);
        if asksEnd >= |msg| || asksEnd + 1 + msg[asksEnd] > |msg| then TooShort
        else Layout(bidLen, numBids, bidsEnd, askLen, numAsks, asksEnd, msg[asksEnd])
  }

  function StampOf(msg: Bytes, schema: MessageSchema, id: int, recvTsc: int): Stamp {
    Stamp(id, ReadSigned(msg, 8 + schema.priceExpOffset, 1), ReadSigned(msg, 8 + schema.qtyExpOffset, 1),
          EventTime(msg, schema), recvTsc)
  }

  function DecodeSpec(msg: Bytes, schema: MessageSchema, symbols: Symbols, recvTsc: int): Decoded {
    var l := FindLayout(msg, schema);
    if l.TooShort? then NOTHING
    else
      var symbol := SymbolOf(msg, schema);
      if symbol !in symbols then NOTHING
      else
        var st := StampOf(msg, schema, symbols[symbol], recvTsc);
        Decoded(l.Total(),
                GroupUpdates(msg, 8 + schema.fixedBlockSize + 4, l.bidLen, l.numBids, schema, BUY, st)
                + GroupUpdates(msg, l.bidsEnd + 4, l.askLen, l.numAsks, schema, SELL, st))
  }

  function SymbolOf(msg: Bytes, schema: MessageSchema): Bytes
    requires FindLayout(msg, schema).Layout?
  {
    var l := FindLayout(msg, schema);
    msg[l.asksEnd + 1..l.Total()]
  }

  /** Enough free slots in the queue for everything this message will write. */
  ghost predicate HasRoom(q: LFQueue<MarketUpdate>, n: nat)
    reads q
  {
    q.Valid() && q.numElements + n <= q.store.Length
  }

  method EnqueueGroup(msg: Bytes, start: nat, blockLen: nat, count: nat, schema: MessageSchema,
                      side: Side, st: Stamp, q: LFQueue<MarketUpdate>) returns (offset: nat)
    requires HasRoom(q, |GroupUpdates(msg, start, blockLen, count, schema, side, st)|)
    modifies q`nextWriteIndex, q`numElements, q.store
    ensures q.Valid()
    ensures q.Contents() == old(q.Contents()) + GroupUpdates(msg, start, blockLen, count, schema, side, st)
    ensures q.numElements == old(q.numElements) + |GroupUpdates(msg, start, blockLen, count, schema, side, st)|
    ensures start + Times(blockLen, count) <= |msg| ==> offset == start + Times(blockLen, count)
  {
    hide LevelUpdate, Cells, Cell, Times;
    offset := start;
    ghost var all := GroupUpdates(msg, start, blockLen, count, schema, side, st);
    ghost var done: seq<MarketUpdate> := [];
    TimesSplit(blockLen, 0, 0);
    var i := 0;
    while i < count
      invariant 0 <= i <= count && offset == start + Times(blockLen, i)
      invariant q.Valid() && q.Contents() == old(q.Contents()) + done
      invariant q.numElements == old(q.numElements) + |done|
      invariant all == done + GroupUpdates(msg, offset, blockLen, count - i, schema, side, st)
    {
      if offset + blockLen > |msg| {
        TimesSplit(blockLen, i, count - i);
        TimesSplit(blockLen, 1, count - i - 1);
        break;
      }
      var u := LevelUpdate(msg, offset, schema, side, st);
      GroupStep(msg, offset, blockLen, count - i, schema, side, st);
      assert done + ([u] + GroupUpdates(msg, offset + blockLen, blockLen, count - i - 1, schema, side, st))
          == (done + [u]) + GroupUpdates(msg, offset + blockLen, blockLen, count - i - 1, schema, side, st);
      q.Write(u);
      done := done + [u];
      TimesSplit(blockLen, i, 1);
      offset := offset + blockLen;
      i := i + 1;
    }
    assert i == count || offset + blockLen > |msg|;
  }

  lemma GroupStep(msg: Bytes, offset: nat, blockLen: nat, count: nat, schema: MessageSchema, side: Side, st: Stamp)
    requires count > 0 && offset + blockLen <= |msg|
    ensures GroupUpdates(msg, offset, blockLen, count, schema, side, st)
            == [LevelUpdate(msg, offset, schema, side, st)]
               + GroupUpdates(msg, offset + blockLen, blockLen, count - 1, schema, side, st)
  {
  }

  method Decode(msg: Bytes, schema: MessageSchema, q: LFQueue<MarketUpdate>, symbols: Symbols, recvTsc: int)
    returns (consumed: nat)
    requires HasRoom(q, |DecodeSpec(msg, schema, symbols, recvTsc).updates|)
    modifies q`nextWriteIndex, q`numElements, q.store
    ensures q.Valid()
    ensures consumed == DecodeSpec(msg, schema, symbols, recvTsc).consumed
    ensures q.Contents() == old(q.Contents()) + DecodeSpec(msg, schema, symbols, recvTsc).updates
    ensures q.numElements == old(q.numElements) + |DecodeSpec(msg, schema, symbols, recvTsc).updates|
  {
    hide GroupUpdates, Cells, Cell, Times, ReadUnsigned, ReadSigned, CDiv;
    if |msg| < 8 { return 0; }
    var fixedStart := 8;
    if fixedStart + schema.fixedBlockSize > |msg| { return 0; }
    var rawTs := ReadSigned(msg, fixedStart + schema.eventTimeOffset, 8);
    var eventTimeUs := rawTs;
    if schema.eventTimeUnit == MILLISECONDS {
      eventTimeUs := rawTs * 1000;
    } else if schema.eventTimeUnit == NANOSECONDS {
      eventTimeUs := CDiv(rawTs, 1000);
    }
    var priceExp := ReadSigned(msg, fixedStart + schema.priceExpOffset, 1);
    var qtyExp := ReadSigned(msg, fixedStart + schema.qtyExpOffset, 1);
    var offset := fixedStart + schema.fixedBlockSize;
    if offset + 4 > |msg| { return 0; }
    var bidBlockLen := ReadUnsigned(msg, offset, 2);
    var numBids := ReadUnsigned(msg, offset + 2, 2);
    var bidsEnd := offset + 4 + Times(bidBlockLen, numBids);
    if bidsEnd + 4 > |msg| { return 0; }
    var askBlockLen := ReadUnsigned(msg, bidsEnd, 2);
    var numAsks := ReadUnsigned(msg, bidsEnd + 2, 2);
    var asksEnd := bidsEnd + 4 + Times(askBlockLen, numAsks);
    if asksEnd >= |msg| { return 0; }
    var symLen := msg[asksEnd];
    if asksEnd + 1 + symLen > |msg| { return 0; }
    var symbol := msg[asksEnd + 1..asksEnd + 1 + symLen];
    if symbol !in symbols { return 0; }
    var st := Stamp(symbols[symbol], priceExp, qtyExp, eventTimeUs, recvTsc);
    assert st == StampOf(msg, schema, symbols[symbol], recvTsc);
    offset := offset + 4;
    offset := EnqueueGroup(msg, offset, bidBlockLen, numBids, schema, BUY, st, q);
    offset := offset + 4;
    offset := EnqueueGroup(msg, offset, askBlockLen, numAsks, schema, SELL, st, q);
    consumed := asksEnd + 1 + symLen;
  }

  // ----- measure -----

  /** The end of the repeating groups, or None where a group header leaves the buffer. */
  datatype Measured = Short | At(offset: nat)

  function MeasureGroups(msg: Bytes, offset: nat, groups: nat, e: GroupNumEncoding): Measured
    decreases groups
  {
    if groups == 0 then At(offset)
    else if offset + 4 > |msg| || (e == GROUP32 && offset + 6 > |msg|) then Short
    else
      var blockLen := ReadUnsigned(msg, offset, 2);
      var count := if e == GROUP32 then ReadUnsigned(msg, offset + 2, 4) else ReadUnsigned(msg, offset + 2, 2);
      var hdr := if e == GROUP32 then 6 else 4;
      MeasureGroups(msg, offset + hdr + Times(blockLen, count), groups - 1, e)
  }

  function MeasureVardata(msg: Bytes, offset: nat, fields: nat): Measured
    decreases fields
  {
    if fields == 0 then At(offset)
    else if offset >= |msg| then Short
    else MeasureVardata(msg, offset + 1 + msg[offset], fields - 1)
  }

  function MeasureSpec(msg: Bytes, schema: MessageSchema): nat {
    if |msg| < 8 then 0
    else
      var groups := MeasureGroups(msg, 8 + schema.fixedBlockSize, schema.numGroups, schema.groupNumEncoding);
      if groups.Short? then 0
      else
        var end := MeasureVardata(msg, groups.offset, schema.numVardata);
        if end.Short? then 0 else end.offset
  }

  method Measure(msg: Bytes, schema: MessageSchema) returns (consumed: nat)
    ensures consumed == MeasureSpec(msg, schema)
  {
    if |msg| < 8 { return 0; }
    var offset: nat := 8 + schema.fixedBlockSize;
    var g: nat := 0;
    while g < schema.numGroups
      invariant 0 <= g <= schema.numGroups
      invariant MeasureGroups(msg, 8 + schema.fixedBlockSize, schema.numGroups, schema.groupNumEncoding)
                == MeasureGroups(msg, offset, schema.numGroups - g, schema.groupNumEncoding)
    {
      if offset + 4 > |msg| { return 0; }
      var blockLen := ReadUnsigned(msg, offset, 2);
      var count: nat, hdr: nat;
      if schema.groupNumEncoding == GROUP32 {
        if offset + 6 > |msg| { return 0; }
        count, hdr := ReadUnsigned(msg, offset + 2, 4), 6;
      } else {
        count, hdr := ReadUnsigned(msg, offset + 2, 2), 4;
      }
      offset := offset + hdr + Times(blockLen, count);
      g := g + 1;
    }
    ghost var start: nat := offset;
    var v: nat := 0;
    while v < schema.numVardata
      invariant 0 <= v <= schema.numVardata
      invariant MeasureVardata(msg, start, schema.numVardata) == MeasureVardata(msg, offset, schema.numVardata - v)
    {
      if offset >= |msg| { return 0; }
      offset := offset + 1 + msg[offset];
      v := v + 1;
    }
    return offset;
  }

  // ----- results -----

  lemma {:induction false} GroupIsWhole(msg: Bytes, offset: nat, blockLen: nat, count: nat,
                                        schema: MessageSchema, side: Side, st: Stamp)
    requires offset + Times(blockLen, count) <= |msg|
    ensures |GroupUpdates(msg, offset, blockLen, count, schema, side, st)| == count
    decreases count
  {
    if count > 0 {
      TimesSplit(blockLen, 1, count - 1);
      GroupIsWhole(msg, offset + blockLen, blockLen, count - 1, schema, side, st);
    }
  }

  /** A decode either does nothing at all or enqueues every level of both groups: the loops' early
      exits are never taken. */
  lemma DecodeIsAllOrNothing(msg: Bytes, schema: MessageSchema, symbols: Symbols, recvTsc: int)
    ensures var d := DecodeSpec(msg, schema, symbols, recvTsc);
            if d.consumed == 0 then d.updates == []
            else
              var l := FindLayout(msg, schema);
              d.consumed <= |msg| && l.Layout? && |d.updates| == l.numBids + l.numAsks
  {
    var l := FindLayout(msg, schema);
    if l.Layout? && SymbolOf(msg, schema) in symbols {
      var st := StampOf(msg, schema, symbols[SymbolOf(msg, schema)], recvTsc);
      GroupIsWhole(msg, 8 + schema.fixedBlockSize + 4, l.bidLen, l.numBids, schema, BUY, st);
      GroupIsWhole(msg, l.bidsEnd + 4, l.askLen, l.numAsks, schema, SELL, st);
    }
  }

  ghost predicate IsDepthSchema(schema: MessageSchema) {
    schema.numGroups == 2 && schema.groupNumEncoding == GROUP16 && schema.numVardata == 1
  }

  /** The two independent length computations agree. */
  lemma DecodeAgreesWithMeasure(msg: Bytes, schema: MessageSchema, symbols: Symbols, recvTsc: int)
    requires IsDepthSchema(schema)
    ensures var d, m := DecodeSpec(msg, schema, symbols, recvTsc), MeasureSpec(msg, schema);
            && (d.consumed > 0 ==> d.consumed == m)
            && (0 < m <= |msg| <==> FindLayout(msg, schema).Layout?)
            && (d.consumed > 0 <==> 0 < m <= |msg| && SymbolOf(msg, schema) in symbols)
  {
    MeasureTwoGroups(msg, schema);
  }

  lemma MeasureTwoGroups(msg: Bytes, schema: MessageSchema)
    requires IsDepthSchema(schema)
    ensures var l := FindLayout(msg, schema);
            if l.Layout? then MeasureSpec(msg, schema) == l.Total()
            else MeasureSpec(msg, schema) == 0 || MeasureSpec(msg, schema) > |msg|
  {
    var offset := 8 + schema.fixedBlockSize;
    if |msg| >= 8 && offset + 4 <= |msg| {
      var bidLen, numBids := ReadUnsigned(msg, offset, 2), ReadUnsigned(msg, offset + 2, 2);
      var bidsEnd := offset + 4 + Times(bidLen, numBids);
      assert MeasureGroups(msg, offset, 2, GROUP16) == MeasureGroups(msg, bidsEnd, 1, GROUP16);
      if bidsEnd + 4 <= |msg| {
        var askLen, numAsks := ReadUnsigned(msg, bidsEnd, 2), ReadUnsigned(msg, bidsEnd + 2, 2);
        var asksEnd := bidsEnd + 4 + Times(askLen, numAsks);
        assert MeasureGroups(msg, bidsEnd, 1, GROUP16) == At(asksEnd);
        if asksEnd < |msg| {
          assert MeasureVardata(msg, asksEnd, 1) == At(asksEnd + 1 + msg[asksEnd]);
        }
      }
    }
  }
}
