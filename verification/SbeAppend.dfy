/** When does a message decode the same whatever bytes follow it in the frame? */
module SbeAppend {
  import opened CInt
  import opened ByteOrder
  import opened MarketData
  import opened SbeDecoder

  ghost predicate FieldsFit(msg: Bytes, offset: nat, schema: MessageSchema) {
    offset + FieldEnd(schema.priceField) <= |msg| && offset + FieldEnd(schema.qtyField) <= |msg|
  }

  ghost predicate GroupFits(msg: Bytes, offset: nat, blockLen: nat, count: nat, schema: MessageSchema) {
    forall i: nat :: i < count ==> FieldsFit(msg, offset + Times(blockLen, i), schema)
  }

  /** Every read the decoder makes for this message ends inside it. */
  ghost predicate AllReadsFit(msg: Bytes, schema: MessageSchema)
    requires FindLayout(msg, schema).Layout?
  {
    var l := FindLayout(msg, schema);
    && (l.numBids + l.numAsks > 0 ==>
          && 8 + schema.eventTimeOffset + 8 <= |msg|
          && 8 + schema.priceExpOffset + 1 <= |msg| && 8 + schema.qtyExpOffset + 1 <= |msg|)
    && GroupFits(msg, 8 + schema.fixedBlockSize + 4, l.bidLen, l.numBids, schema)
    && GroupFits(msg, l.bidsEnd + 4, l.askLen, l.numAsks, schema)
  }

  lemma LayoutAppended(msg: Bytes, extra: Bytes, schema: MessageSchema)
    requires FindLayout(msg, schema).Layout?
    ensures FindLayout(msg + extra, schema) == FindLayout(msg, schema)
    ensures SymbolOf(msg + extra, schema) == SymbolOf(msg, schema)
  {
    SameLayout(msg, extra, schema);
    hide FindLayout;
    var l := FindLayout(msg, schema);
    LayoutBounds(msg, schema);
    assert (msg + extra)[l.asksEnd + 1..l.Total()] == msg[l.asksEnd + 1..l.Total()];
  }

  lemma SameLayout(msg: Bytes, extra: Bytes, schema: MessageSchema)
    requires FindLayout(msg, schema).Layout?
    ensures FindLayout(msg + extra, schema) == FindLayout(msg, schema)
  {
    hide ReadUnsigned, Times;
    var l := FindLayout(msg, schema);
    var offset := 8 + schema.fixedBlockSize;
    ReadAppended(msg, extra, offset, 2);
    ReadAppended(msg, extra, offset + 2, 2);
    ReadAppended(msg, extra, l.bidsEnd, 2);
    ReadAppended(msg, extra, l.bidsEnd + 2, 2);
    assert (msg + extra)[l.asksEnd] == msg[l.asksEnd];
  }

  lemma LevelAppended(msg: Bytes, extra: Bytes, offset: nat, schema: MessageSchema, side: Side, st: Stamp)
    requires FieldsFit(msg, offset, schema)
    ensures LevelUpdate(msg + extra, offset, schema, side, st) == LevelUpdate(msg, offset, schema, side, st)
  {
    ReadAppended(msg, extra, offset + schema.priceField.offset, Width(schema.priceField.rawType));
    ReadAppended(msg, extra, offset + schema.qtyField.offset, Width(schema.qtyField.rawType));
  }

  lemma {:induction false} GroupAt(msg: Bytes, offset: nat, blockLen: nat, count: nat, schema: MessageSchema,
                                   side: Side, st: Stamp, i: nat)
    requires i < count && offset + Times(blockLen, count) <= |msg|
    ensures |GroupUpdates(msg, offset, blockLen, count, schema, side, st)| == count
    ensures GroupUpdates(msg, offset, blockLen, count, schema, side, st)[i]
            == LevelUpdate(msg, offset + Times(blockLen, i), schema, side, st)
    decreases count
  {
    hide LevelUpdate, Times;
    GroupIsWhole(msg, offset, blockLen, count, schema, side, st);
    TimesSplit(blockLen, 1, count - 1);
    TimesSplit(blockLen, 0, 0);
    GroupStep(msg, offset, blockLen, count, schema, side, st);
    if i > 0 {
      TimesSplit(blockLen, 1, i - 1);
      GroupAt(msg, offset + blockLen, blockLen, count - 1, schema, side, st, i - 1);
    }
  }

  lemma {:induction false} GroupAppended(msg: Bytes, extra: Bytes, offset: nat, blockLen: nat, count: nat, schema: MessageSchema,
                      side: Side, st: Stamp)
    requires offset + Times(blockLen, count) <= |msg| && GroupFits(msg, offset, blockLen, count, schema)
    ensures GroupUpdates(msg + extra, offset, blockLen, count, schema, side, st)
            == GroupUpdates(msg, offset, blockLen, count, schema, side, st)
  {
    hide LevelUpdate, Times, GroupUpdates;
    var a, b := GroupUpdates(msg + extra, offset, blockLen, count, schema, side, st),
                GroupUpdates(msg, offset, blockLen, count, schema, side, st);
    GroupIsWhole(msg, offset, blockLen, count, schema, side, st);
    GroupIsWhole(msg + extra, offset, blockLen, count, schema, side, st);
    forall i: nat | i < count ensures a[i] == b[i] {
      GroupAt(msg, offset, blockLen, count, schema, side, st, i);
      GroupAt(msg + extra, offset, blockLen, count, schema, side, st, i);
      assert FieldsFit(msg, offset + Times(blockLen, i), schema);
      LevelAppended(msg, extra, offset + Times(blockLen, i), schema, side, st);
    }
  }

  /** A read past the end gives 0; followed by bytes 0x7F it does not. */
  function Filler(n: nat): Bytes { seq(n, _ => 0x7F) }

  lemma {:induction false} LastByteCounts(bytes: Bytes)
    requires bytes != []
    ensures LE(bytes) >= bytes[|bytes| - 1] * Pow256(|bytes| - 1)
    decreases |bytes|
  {
    if |bytes| > 1 {
      LastByteCounts(bytes[1..]);
      var p := Pow256(|bytes| - 2);
      assert bytes[|bytes| - 1] * (256 * p) == 256 * (bytes[|bytes| - 1] * p);
    }
  }

  lemma {:induction false} FilledRead(msg: Bytes, n: nat, offset: nat, w: nat)
    requires w > 0 && |msg| < offset + w <= |msg| + n
    ensures ReadUnsigned(msg, offset, w) == 0
    ensures ReadUnsigned(msg + Filler(n), offset, w) >= 127 * Pow256(w - 1)
    ensures ReadSigned(msg, offset, w) == 0
    ensures ReadSigned(msg + Filler(n), offset, w) >= 127 * Pow256(w - 1)
  {
    var buf := msg + Filler(n);
    LastByteCounts(buf[offset..offset + w]);
    LEBound(buf[offset..offset + w]);
    TopByteIsPositive(buf[offset..offset + w]);
  }

  /** A number whose top byte is below 0x80 reads as non-negative. */
  lemma {:induction false} TopByteIsPositive(bytes: Bytes)
    requires bytes != [] && bytes[|bytes| - 1] < 128
    ensures 2 * LE(bytes) < Pow256(|bytes|)
    decreases |bytes|
  {
    if |bytes| > 1 {
      TopByteIsPositive(bytes[1..]);
    }
  }

  lemma FilledScaled(msg: Bytes, n: nat, offset: nat, e: IntEncoding)
    requires |msg| < offset + Width(e) <= |msg| + n
    ensures ReadScaled(msg, offset, e) == 0 && ReadScaled(msg + Filler(n), offset, e) > 0
  {
    FilledRead(msg, n, offset, Width(e));
  }

  lemma FilledTime(msg: Bytes, n: nat, schema: MessageSchema)
    requires |msg| < 8 + schema.eventTimeOffset + 8 <= |msg| + n
    ensures EventTime(msg, schema) == 0 && EventTime(msg + Filler(n), schema) > 0
  {
    FilledRead(msg, n, 8 + schema.eventTimeOffset, 8);
    assert Pow256(7) >= 256 by {
      assert Pow256(1) == 256 && Pow256(2) >= 256 && Pow256(3) >= 256 && Pow256(4) >= 256;
      assert Pow256(5) >= 256 && Pow256(6) >= 256;
    }
    var raw := ReadSigned(msg + Filler(n), 8 + schema.eventTimeOffset, 8);
    assert raw >= 1000;
    CDivBounds(raw, 1000, 1, raw);
  }

  lemma {:induction false} DecodeParts(msg: Bytes, schema: MessageSchema, symbols: Symbols, recvTsc: int)
    ensures DecodeSpec(msg, schema, symbols, recvTsc).consumed > 0
            <==> FindLayout(msg, schema).Layout? && SymbolOf(msg, schema) in symbols
    ensures DecodeSpec(msg, schema, symbols, recvTsc).consumed > 0 ==>
              var l := FindLayout(msg, schema);
              var st := StampOf(msg, schema, symbols[SymbolOf(msg, schema)], recvTsc);
              && 8 + schema.fixedBlockSize + 4 + Times(l.bidLen, l.numBids) <= |msg|
              && l.bidsEnd + 4 + Times(l.askLen, l.numAsks) <= |msg|
              && DecodeSpec(msg, schema, symbols, recvTsc) ==
                 Decoded(l.Total(),
                   GroupUpdates(msg, 8 + schema.fixedBlockSize + 4, l.bidLen, l.numBids, schema, BUY, st)
                   + GroupUpdates(msg, l.bidsEnd + 4, l.askLen, l.numAsks, schema, SELL, st))
  {
    hide GroupUpdates, ReadUnsigned, Times, StampOf;
    LayoutBounds(msg, schema);
  }

  lemma LayoutBounds(msg: Bytes, schema: MessageSchema)
    ensures var l := FindLayout(msg, schema);
            l.Layout? ==>
              && l.bidsEnd == 8 + schema.fixedBlockSize + 4 + Times(l.bidLen, l.numBids)
              && l.asksEnd == l.bidsEnd + 4 + Times(l.askLen, l.numAsks) && l.Total() <= |msg|
  {
    hide ReadUnsigned, Times;
  }

  lemma FitsIsEnough(msg: Bytes, extra: Bytes, schema: MessageSchema, symbols: Symbols, recvTsc: int)
    requires DecodeSpec(msg, schema, symbols, recvTsc).consumed > 0 && AllReadsFit(msg, schema)
    ensures DecodeSpec(msg + extra, schema, symbols, recvTsc) == DecodeSpec(msg, schema, symbols, recvTsc)
  {
    hide DecodeSpec, FindLayout, SymbolOf, LevelUpdate, GroupUpdates, Times, ReadUnsigned;
    DecodeParts(msg, schema, symbols, recvTsc);
    DecodeParts(msg + extra, schema, symbols, recvTsc);
    LayoutAppended(msg, extra, schema);
    var l := FindLayout(msg, schema);
    var id := symbols[SymbolOf(msg, schema)];
    var st, st' := StampOf(msg, schema, id, recvTsc), StampOf(msg + extra, schema, id, recvTsc);
    var bids, asks := 8 + schema.fixedBlockSize + 4, l.bidsEnd + 4;
    if l.numBids + l.numAsks > 0 {
      ReadAppended(msg, extra, 8 + schema.eventTimeOffset, 8);
      ReadAppended(msg, extra, 8 + schema.priceExpOffset, 1);
      ReadAppended(msg, extra, 8 + schema.qtyExpOffset, 1);
      assert st == st';
      GroupAppended(msg, extra, bids, l.bidLen, l.numBids, schema, BUY, st);
      GroupAppended(msg, extra, asks, l.askLen, l.numAsks, schema, SELL, st);
    } else {
      NoLevels(msg, bids, l.bidLen, schema, BUY, st);
      NoLevels(msg, asks, l.askLen, schema, SELL, st);
      NoLevels(msg + extra, bids, l.bidLen, schema, BUY, st');
      NoLevels(msg + extra, asks, l.askLen, schema, SELL, st');
    }
  }

  lemma {:induction false} NoLevels(msg: Bytes, offset: nat, blockLen: nat, schema: MessageSchema, side: Side, st: Stamp)
    ensures GroupUpdates(msg, offset, blockLen, 0, schema, side, st) == []
  {
  }

  /** The i-th update of a whole decode. */
  lemma UpdateAt(msg: Bytes, schema: MessageSchema, symbols: Symbols, recvTsc: int, bid: bool, i: nat)
    requires DecodeSpec(msg, schema, symbols, recvTsc).consumed > 0
    requires var l := FindLayout(msg, schema); i < if bid then l.numBids else l.numAsks
    ensures var l := FindLayout(msg, schema); var us := DecodeSpec(msg, schema, symbols, recvTsc).updates;
            var st := StampOf(msg, schema, symbols[SymbolOf(msg, schema)], recvTsc);
            && |us| == l.numBids + l.numAsks
            && (if bid then us[i] == LevelUpdate(msg, 8 + schema.fixedBlockSize + 4 + Times(l.bidLen, i), schema, BUY, st)
                else us[l.numBids + i] == LevelUpdate(msg, l.bidsEnd + 4 + Times(l.askLen, i), schema, SELL, st))
  {
    hide DecodeSpec, FindLayout, SymbolOf, StampOf, LevelUpdate, GroupUpdates, Times;
    DecodeParts(msg, schema, symbols, recvTsc);
    var l := FindLayout(msg, schema);
    var st := StampOf(msg, schema, symbols[SymbolOf(msg, schema)], recvTsc);
    GroupIsWhole(msg, 8 + schema.fixedBlockSize + 4, l.bidLen, l.numBids, schema, BUY, st);
    GroupIsWhole(msg, l.bidsEnd + 4, l.askLen, l.numAsks, schema, SELL, st);
    if bid { GroupAt(msg, 8 + schema.fixedBlockSize + 4, l.bidLen, l.numBids, schema, BUY, st, i); }
    else { GroupAt(msg, l.bidsEnd + 4, l.askLen, l.numAsks, schema, SELL, st, i); }
  }

  lemma StampMisfit(msg: Bytes, schema: MessageSchema, symbols: Symbols, recvTsc: int, bid: bool)
    requires DecodeSpec(msg, schema, symbols, recvTsc).consumed > 0
    requires var l := FindLayout(msg, schema); 0 < if bid then l.numBids else l.numAsks
    requires 8 + schema.eventTimeOffset + 8 > |msg| || 8 + schema.priceExpOffset + 1 > |msg|
          || 8 + schema.qtyExpOffset + 1 > |msg|
    ensures exists extra: Bytes :: DecodeSpec(msg + extra, schema, symbols, recvTsc) != DecodeSpec(msg, schema, symbols, recvTsc)
  {
    hide DecodeSpec, FindLayout, SymbolOf, GroupUpdates, Times, ReadUnsigned;
    DecodeParts(msg, schema, symbols, recvTsc);
    var n := 8 + schema.eventTimeOffset + 8 + schema.priceExpOffset + schema.qtyExpOffset;
    LayoutAppended(msg, Filler(n), schema);
    DecodeParts(msg + Filler(n), schema, symbols, recvTsc);
    UpdateAt(msg, schema, symbols, recvTsc, bid, 0);
    UpdateAt(msg + Filler(n), schema, symbols, recvTsc, bid, 0);
    if 8 + schema.eventTimeOffset + 8 > |msg| { FilledTime(msg, n, schema); }
    else if 8 + schema.priceExpOffset + 1 > |msg| { FilledRead(msg, n, 8 + schema.priceExpOffset, 1); }
    else { FilledRead(msg, n, 8 + schema.qtyExpOffset, 1); }
    assert DecodeSpec(msg + Filler(n), schema, symbols, recvTsc) != DecodeSpec(msg, schema, symbols, recvTsc);
  }

  lemma LevelMisfit(msg: Bytes, schema: MessageSchema, symbols: Symbols, recvTsc: int, bid: bool, i: nat)
    requires DecodeSpec(msg, schema, symbols, recvTsc).consumed > 0
    requires var l := FindLayout(msg, schema);
             if bid then i < l.numBids && !FieldsFit(msg, 8 + schema.fixedBlockSize + 4 + Times(l.bidLen, i), schema)
             else i < l.numAsks && !FieldsFit(msg, l.bidsEnd + 4 + Times(l.askLen, i), schema)
    ensures exists extra: Bytes :: DecodeSpec(msg + extra, schema, symbols, recvTsc) != DecodeSpec(msg, schema, symbols, recvTsc)
  {
    hide DecodeSpec, FindLayout, SymbolOf, StampOf, GroupUpdates, Times, ReadUnsigned;
    DecodeParts(msg, schema, symbols, recvTsc);
    var l := FindLayout(msg, schema);
    var offset := if bid then 8 + schema.fixedBlockSize + 4 + Times(l.bidLen, i) else l.bidsEnd + 4 + Times(l.askLen, i);
    var n := offset + FieldEnd(schema.priceField) + FieldEnd(schema.qtyField);
    LayoutAppended(msg, Filler(n), schema);
    DecodeParts(msg + Filler(n), schema, symbols, recvTsc);
    UpdateAt(msg, schema, symbols, recvTsc, bid, i);
    UpdateAt(msg + Filler(n), schema, symbols, recvTsc, bid, i);
    if offset + FieldEnd(schema.priceField) > |msg| {
      FilledScaled(msg, n, offset + schema.priceField.offset, schema.priceField.rawType);
    } else {
      FilledScaled(msg, n, offset + schema.qtyField.offset, schema.qtyField.rawType);
    }
    assert DecodeSpec(msg + Filler(n), schema, symbols, recvTsc) != DecodeSpec(msg, schema, symbols, recvTsc);
  }

  /** The exact condition: a decoded message means the same whatever follows it in the frame if and
      only if every read it makes ends inside it. */
  lemma SameWhateverFollows(msg: Bytes, schema: MessageSchema, symbols: Symbols, recvTsc: int)
    requires DecodeSpec(msg, schema, symbols, recvTsc).consumed > 0
    ensures AllReadsFit(msg, schema)
            <==> forall extra: Bytes ::
                   DecodeSpec(msg + extra, schema, symbols, recvTsc) == DecodeSpec(msg, schema, symbols, recvTsc)
  {
    hide DecodeSpec, Times, FindLayout;
    DecodeParts(msg, schema, symbols, recvTsc);
    var l := FindLayout(msg, schema);
    if AllReadsFit(msg, schema) {
      forall extra: Bytes
        ensures DecodeSpec(msg + extra, schema, symbols, recvTsc) == DecodeSpec(msg, schema, symbols, recvTsc)
      {
        FitsIsEnough(msg, extra, schema, symbols, recvTsc);
      }
    } else if !GroupFits(msg, 8 + schema.fixedBlockSize + 4, l.bidLen, l.numBids, schema) {
      var i: nat :| i < l.numBids && !FieldsFit(msg, 8 + schema.fixedBlockSize + 4 + Times(l.bidLen, i), schema);
      LevelMisfit(msg, schema, symbols, recvTsc, true, i);
    } else if !GroupFits(msg, l.bidsEnd + 4, l.askLen, l.numAsks, schema) {
      var i: nat :| i < l.numAsks && !FieldsFit(msg, l.bidsEnd + 4 + Times(l.askLen, i), schema);
      LevelMisfit(msg, schema, symbols, recvTsc, false, i);
    } else {
      StampMisfit(msg, schema, symbols, recvTsc, l.numBids > 0);
    }
  }
}
