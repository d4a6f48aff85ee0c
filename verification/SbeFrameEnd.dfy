/** How a frame ends: what the parser makes of bytes it cannot use. */
module SbeFrameEnd {
  import opened ByteOrder
  import opened MarketData
  import opened SbeDecoder
  import opened SbeAppend
  import opened SbeFraming

  /** How many of the items are decoded: each takes a time stamp of its own. */
  function DepthCount(items: seq<Item>): nat {
    if items == [] then 0 else (if items[0].Depth? then 1 else 0) + DepthCount(items[1..])
  }

  ghost function ItemUpdates(item: Item, schemas: Schemas, symbols: Symbols, stamp: int): seq<MarketUpdate>
    requires ItemOk(item, schemas, symbols)
  {
    match item
    case Depth(m) => MessageUpdates(m, schemas[ReadUnsigned(m.header, 2, 2)], symbols[m.symbol], stamp)
    case Skipped(_) => []
  }

  function After(item: Item, k: nat): nat { if item.Depth? then k + 1 else k }

  lemma {:induction false} FirstItem(items: seq<Item>, schemas: Schemas, symbols: Symbols, clock: nat -> int, k: nat)
    requires items != [] && forall i :: 0 <= i < |items| ==> ItemOk(items[i], schemas, symbols)
    ensures FrameUpdates(items, schemas, symbols, clock, k)
            == ItemUpdates(items[0], schemas, symbols, clock(k)) + FrameUpdates(items[1..], schemas, symbols, clock, After(items[0], k))
    ensures DepthCount(items) + k == DepthCount(items[1..]) + After(items[0], k)
  {
    hide MessageUpdates, ItemOk;
    var us := FrameUpdates(items[1..], schemas, symbols, clock, k);
    assert [] + us == us;
  }

  lemma {:induction false} ItemThen(item: Item, tail: Bytes, schemas: Schemas, symbols: Symbols, clock: nat -> int, k: nat)
    requires ItemOk(item, schemas, symbols)
    ensures ParseSpec(ItemBytes(item) + tail, schemas, symbols, clock, k)
            == ItemUpdates(item, schemas, symbols, clock(k)) + ParseSpec(tail, schemas, symbols, clock, After(item, k))
  {
    hide MessageUpdates, ParseSpec, Encode;
    match item {
      case Depth(m) => ParseDepth(m, tail, schemas, symbols, clock, k);
      case Skipped(bytes) =>
        ParseSkipped(bytes, tail, schemas, symbols, clock, k);
        var us := ParseSpec(tail, schemas, symbols, clock, k);
        assert [] + us == us;
    }
  }

  /** Whatever follows the items is parsed as if it stood alone. */
  lemma {:induction false} ItemsThen(items: seq<Item>, tail: Bytes, schemas: Schemas, symbols: Symbols, clock: nat -> int, k: nat)
    requires forall i :: 0 <= i < |items| ==> ItemOk(items[i], schemas, symbols)
    ensures ParseSpec(FrameBytes(items) + tail, schemas, symbols, clock, k)
            == FrameUpdates(items, schemas, symbols, clock, k) + ParseSpec(tail, schemas, symbols, clock, k + DepthCount(items))
    decreases |items|
  {
    hide ParseSpec, ItemOk, ItemBytes, ItemUpdates;
    if items == [] {
      assert [] + tail == tail;
      var us := ParseSpec(tail, schemas, symbols, clock, k);
      assert [] + us == us;
    } else {
      hide FrameUpdates, DepthCount;
      assert ItemOk(items[0], schemas, symbols);
      FirstItem(items, schemas, symbols, clock, k);
      assert FrameBytes(items) + tail == ItemBytes(items[0]) + (FrameBytes(items[1..]) + tail);
      ItemThen(items[0], FrameBytes(items[1..]) + tail, schemas, symbols, clock, k);
      ItemsThen(items[1..], tail, schemas, symbols, clock, After(items[0], k));
    }
  }

  /** The frame enqueues its items' levels and nothing for `bad`. */
  ghost predicate EndsAt(items: seq<Item>, bad: Bytes, schemas: Schemas, symbols: Symbols, clock: nat -> int)
    requires forall i :: 0 <= i < |items| ==> ItemOk(items[i], schemas, symbols)
  {
    ParseSpec(FrameBytes(items) + bad, schemas, symbols, clock, 0) == FrameUpdates(items, schemas, symbols, clock, 0)
  }

  lemma {:induction false} NothingMore(items: seq<Item>, bad: Bytes, schemas: Schemas, symbols: Symbols, clock: nat -> int)
    requires forall i :: 0 <= i < |items| ==> ItemOk(items[i], schemas, symbols)
    requires ParseSpec(bad, schemas, symbols, clock, DepthCount(items)) == []
    ensures EndsAt(items, bad, schemas, symbols, clock)
  {
    hide ParseSpec, FrameUpdates;
    ItemsThen(items, bad, schemas, symbols, clock, 0);
    assert FrameUpdates(items, schemas, symbols, clock, 0) + [] == FrameUpdates(items, schemas, symbols, clock, 0);
  }

  /** Fewer than four bytes are left, or the template they name is not registered: nothing of them is
      used, whatever follows the template. */
  lemma UnknownTemplateEndsFrame(items: seq<Item>, bad: Bytes, schemas: Schemas, symbols: Symbols, clock: nat -> int)
    requires forall i :: 0 <= i < |items| ==> ItemOk(items[i], schemas, symbols)
    requires |bad| < 4 || TemplateOf(bad) !in schemas
    ensures EndsAt(items, bad, schemas, symbols, clock)
  {
    hide FrameUpdates, FrameBytes, EndsAt;
    if |bad| >= 4 { TemplateAt(bad); }
    NothingMore(items, bad, schemas, symbols, clock);
  }

  /** The template id of a message: two bytes from the third on, the low one first. */
  function TemplateOf(bytes: Bytes): nat
    requires |bytes| >= 4
  {
    var low: nat, high: nat := bytes[2], bytes[3];
    low + 256 * high
  }

  lemma TemplateAt(bytes: Bytes)
    requires |bytes| >= 4
    ensures ReadUnsigned(bytes, 2, 2) == TemplateOf(bytes)
  {
    var two := bytes[2..4];
    assert two == [bytes[2], bytes[3]] && two[1..] == [bytes[3]] && two[1..][1..] == [];
    assert LE(two[1..]) == bytes[3];
  }

  /** A depth message for a symbol the venue does not have ends the frame, whatever follows it. */
  lemma UnknownSymbolEndsFrame(items: seq<Item>, m: DepthMessage, after: Bytes, schemas: Schemas, symbols: Symbols, clock: nat -> int)
    requires forall i :: 0 <= i < |items| ==> ItemOk(items[i], schemas, symbols)
    requires |m.header| == 8 && TemplateOf(m.header) in schemas
    requires var schema := schemas[TemplateOf(m.header)];
             !schema.skip && Sized(m, schema) && m.symbol !in symbols
    ensures EndsAt(items, Encode(m) + after, schemas, symbols, clock)
  {
    hide FrameUpdates, FrameBytes, EndsAt, FindLayout, Encode;
    var schema := schemas[TemplateOf(m.header)];
    var bad := Encode(m) + after;
    HeaderFirst(m, after);
    SizedLayout(m, schema);
    LayoutAppended(Encode(m), after, schema);
    NothingMore(items, bad, schemas, symbols, clock);
  }

  lemma HeaderFirst(m: DepthMessage, after: Bytes)
    requires |m.header| == 8 && |m.symbol| < 256
    ensures |Encode(m) + after| >= 8 && ReadUnsigned(Encode(m) + after, 2, 2) == TemplateOf(m.header)
  {
    hide Encode;
    EncodeStartsWithHeader(m);
    var bytes := Encode(m) + after;
    assert Encode(m)[..8] == m.header;
    assert bytes[2] == Encode(m)[..8][2] && bytes[3] == Encode(m)[..8][3];
    TemplateAt(bytes);
  }

  lemma SizedLayout(m: DepthMessage, schema: MessageSchema)
    requires Sized(m, schema)
    ensures FindLayout(Encode(m), schema) == LayoutOf(m) && LayoutOf(m).Total() == |Encode(m)|
    ensures SbeDecoder.SymbolOf(Encode(m), schema) == m.symbol
  {
    hide FindLayout, Encode;
    LayoutFound(m, schema);
    EncodedTail(m);
  }

  /** A depth message cut off anywhere ends the frame with nothing of it enqueued. */
  lemma CutMessageEndsFrame(items: seq<Item>, m: DepthMessage, n: nat, schemas: Schemas, symbols: Symbols, clock: nat -> int)
    requires forall i :: 0 <= i < |items| ==> ItemOk(items[i], schemas, symbols)
    requires |m.header| == 8 && TemplateOf(m.header) in schemas
    requires var schema := schemas[TemplateOf(m.header)];
             !schema.skip && Sized(m, schema) && n < |Encode(m)|
    ensures EndsAt(items, Encode(m)[..n], schemas, symbols, clock)
  {
    hide FrameUpdates, FrameBytes, EndsAt, FindLayout, Encode, ReadUnsigned;
    var schema := schemas[TemplateOf(m.header)];
    var bad := Encode(m)[..n];
    if n >= 4 { CutHeader(m, n); }
    CutLayout(m, n, schema);
    NothingMore(items, bad, schemas, symbols, clock);
  }

  lemma CutHeader(m: DepthMessage, n: nat)
    requires |m.header| == 8 && |m.symbol| < 256 && 4 <= n <= |Encode(m)|
    ensures ReadUnsigned(Encode(m)[..n], 2, 2) == TemplateOf(m.header)
  {
    hide Encode, ReadUnsigned;
    var bad := Encode(m)[..n];
    EncodeStartsWithHeader(m);
    assert Encode(m)[..8] == m.header;
    assert bad[2] == Encode(m)[..8][2] && bad[3] == Encode(m)[..8][3];
    TemplateAt(bad);
  }

  lemma CutLayout(m: DepthMessage, n: nat, schema: MessageSchema)
    requires Sized(m, schema) && n < |Encode(m)|
    ensures FindLayout(Encode(m)[..n], schema).TooShort?
  {
    hide Encode, FindLayout;
    var bad, cut := Encode(m)[..n], Encode(m)[n..];
    SizedLayout(m, schema);
    LayoutBounds(bad, schema);
    assert bad + cut == Encode(m);
    if FindLayout(bad, schema).Layout? { LayoutAppended(bad, cut, schema); }
  }

  /** So does a skipped message cut off anywhere. */
  lemma CutSkippedEndsFrame(items: seq<Item>, bytes: Bytes, n: nat, schemas: Schemas, symbols: Symbols, clock: nat -> int)
    requires forall i :: 0 <= i < |items| ==> ItemOk(items[i], schemas, symbols)
    requires ItemOk(Skipped(bytes), schemas, symbols) && n < |bytes|
    ensures EndsAt(items, bytes[..n], schemas, symbols, clock)
  {
    hide FrameUpdates, FrameBytes, EndsAt, MeasureSpec, ReadUnsigned;
    var bad, schema := bytes[..n], schemas[ReadUnsigned(bytes, 2, 2)];
    assert bad + bytes[n..] == bytes;
    if n >= 4 { ReadAppended(bad, bytes[n..], 2, 2); }
    if MeasureSpec(bad, schema) > 0 { MeasureAppended(bad, bytes[n..], schema); }
    NothingMore(items, bad, schemas, symbols, clock);
  }
}
