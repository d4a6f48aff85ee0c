/** From the exchange's bytes to a book: the whole path for depth messages written byte by byte. */
module WirePipeline {
  import opened ByteOrder
  import opened MarketData
  import opened BookSpec
  import opened OrderBooks
  import opened BookTheorems
  import opened VenueRegistries
  import opened SbeDecoder
  import opened SbeFraming
  import opened SbeSkip
  import opened SbeBinance
  import opened OrderBookManagers
  import opened Pipeline

  /** Every frame of the feed is a sequence of depth messages for known symbols. */
  ghost predicate Carries(feed: Feed, wires: seq<seq<Wire>>, symbols: Symbols) {
    && feed.schemas == BINANCE && |wires| == |feed.frames|
    && forall f :: 0 <= f < |wires| ==> AllOk(wires[f], symbols) && feed.frames[f].payload == WireFrame(wires[f])
  }

  ghost predicate AllOk(ws: seq<Wire>, symbols: Symbols) {
    forall i :: 0 <= i < |ws| ==> WireOk(ws[i]) && ws[i].symbol in symbols
  }

  /** The updates a message contributes to the book of one symbol. */
  function Part(w: Wire, symbol: Bytes, id: int, stamp: int): seq<MarketUpdate> {
    if w.symbol == symbol then WireUpdates(w, id, stamp) else []
  }

  function FrameParts(ws: seq<Wire>, symbol: Bytes, id: int, clock: nat -> int, k: nat): seq<MarketUpdate> {
    if ws == [] then [] else Part(ws[0], symbol, id, clock(k)) + FrameParts(ws[1..], symbol, id, clock, k + 1)
  }

  function FeedParts(frames: seq<Received>, wires: seq<seq<Wire>>, symbol: Bytes, id: int): seq<MarketUpdate>
    requires |wires| == |frames|
  {
    if wires == [] then []
    else FrameParts(wires[0], symbol, id, frames[0].clock, 0) + FeedParts(frames[1..], wires[1..], symbol, id)
  }

  lemma {:induction false} OwnPart(w: Wire, id: int, other: int, stamp: int)
    ensures Own(WireUpdates(w, other, stamp), id) == if id == other then WireUpdates(w, id, stamp) else []
  {
    OwnOfOneId(WireUpdates(w, other, stamp), id, other);
  }

  lemma {:induction false} OwnOfFrame(ws: seq<Wire>, symbols: Symbols, symbol: Bytes, clock: nat -> int, k: nat)
    requires symbol in symbols && AllOk(ws, symbols)
    requires forall s :: s in symbols && symbols[s] == symbols[symbol] ==> s == symbol
    ensures Own(FrameLevels(ws, symbols, clock, k), symbols[symbol]) == FrameParts(ws, symbol, symbols[symbol], clock, k)
    decreases |ws|
  {
    hide WireUpdates, Own, WireOk;
    OwnOfOneId([], symbols[symbol], 0);
    if ws != [] {
      var w := ws[0];
      OwnPart(w, symbols[symbol], symbols[w.symbol], clock(k));
      OwnOfFrame(ws[1..], symbols, symbol, clock, k + 1);
      OwnAppend(WireUpdates(w, symbols[w.symbol], clock(k)), FrameLevels(ws[1..], symbols, clock, k + 1), symbols[symbol]);
    }
  }

  lemma {:induction false} OwnOfWires(frames: seq<Received>, wires: seq<seq<Wire>>, symbols: Symbols, symbol: Bytes)
    requires symbol in symbols && Carries(Feed(BINANCE, frames), wires, symbols)
    requires forall s :: s in symbols && symbols[s] == symbols[symbol] ==> s == symbol
    ensures Own(FeedUpdates(frames, BINANCE, symbols), symbols[symbol]) == FeedParts(frames, wires, symbol, symbols[symbol])
    decreases |wires|
  {
    hide Own, ParseSpec, FrameLevels, FrameParts, WireFrame, WireOk;
    OwnOfOneId([], symbols[symbol], 0);
    if wires != [] {
      assert AllOk(wires[0], symbols);
      WireFrameParsed(wires[0], symbols, frames[0].clock, 0);
      OwnOfFrame(wires[0], symbols, symbol, frames[0].clock, 0);
      OwnOfWires(frames[1..], wires[1..], symbols, symbol);
      OwnAppend(ParseSpec(frames[0].payload, BINANCE, symbols, frames[0].clock, 0),
                FeedUpdates(frames[1..], BINANCE, symbols), symbols[symbol]);
    }
  }

  /** The venue of a configured row sends frames of depth messages, and its queue is drained.  Then the book
      of the row is the fold of one update per level of the messages for the row's symbol, with the
      fields the messages say, bids before asks. */
  lemma {:induction false} WiresReachBook(rows: seq<StreamRow>, queues: nat, feeds: map<Bytes, Feed>, events: seq<Event>, j: nat,
                       wires: seq<seq<Wire>>)
    requires Configured(rows) && FromFeeds(events, rows, feeds) && j < |rows| && rows[j].exchange in feeds
    requires VenueIndex(rows, rows[j].exchange) < queues
    requires Carries(feeds[rows[j].exchange], wires, SymbolTable(Build(rows), rows[j].exchange))
    requires DoAll(Fresh(Start(rows), queues), events).queues[VenueIndex(rows, rows[j].exchange)] == []
    ensures RowKey(rows[j]) in Build(rows).instruments
    ensures var id, end := IdAt(rows, j), DoAll(Fresh(Start(rows), queues), events).routing;
            && id in end.index
            && end.books[end.index[id]]
               == RunBook(EMPTY_BOOK, FeedParts(feeds[rows[j].exchange].frames, wires, rows[j].symbol, id))
  {
    hide Build, Configured, DoAll, RunBook, Own, RegisterAll, FromFeeds, FeedUpdates, EMPTY_BOOK, VenueIndex, FeedParts, AllOk;
    BooksFollowFeeds(rows, queues, feeds, events, j);
    RowInTable(rows, j);
    OwnOfWires(feeds[rows[j].exchange].frames, wires, SymbolTable(Build(rows), rows[j].exchange), rows[j].symbol);
  }

  // ----- exponents -----

  ghost predicate Exponents(ws: seq<Wire>, symbol: Bytes, priceExp: int, qtyExp: int) {
    forall i :: 0 <= i < |ws| && ws[i].symbol == symbol ==> ws[i].priceExp == priceExp && ws[i].qtyExp == qtyExp
  }

  ghost predicate UpdatesScaled(us: seq<MarketUpdate>, priceExp: int, qtyExp: int) {
    forall i :: 0 <= i < |us| ==> us[i].priceExp == priceExp && us[i].qtyExp == qtyExp
  }

  lemma {:induction false} FrameScaled(ws: seq<Wire>, symbol: Bytes, id: int, clock: nat -> int, k: nat, priceExp: int, qtyExp: int)
    requires Exponents(ws, symbol, priceExp, qtyExp)
    ensures UpdatesScaled(FrameParts(ws, symbol, id, clock, k), priceExp, qtyExp)
    decreases |ws|
  {
    if ws != [] { FrameScaled(ws[1..], symbol, id, clock, k + 1, priceExp, qtyExp); }
  }

  lemma {:induction false} FeedScaled(frames: seq<Received>, wires: seq<seq<Wire>>, symbol: Bytes, id: int, priceExp: int, qtyExp: int)
    requires |wires| == |frames| && forall f :: 0 <= f < |wires| ==> Exponents(wires[f], symbol, priceExp, qtyExp)
    ensures UpdatesScaled(FeedParts(frames, wires, symbol, id), priceExp, qtyExp)
    decreases |wires|
  {
    hide FrameParts, Exponents;
    if wires != [] {
      FrameScaled(wires[0], symbol, id, frames[0].clock, 0, priceExp, qtyExp);
      FeedScaled(frames[1..], wires[1..], symbol, id, priceExp, qtyExp);
    }
  }

  /** And when all messages for the symbol have the same two exponents, as a venue's messages do, the book
      has exactly those once any level has arrived. */
  lemma {:induction false} WiresSetExponents(frames: seq<Received>, wires: seq<seq<Wire>>, symbol: Bytes, id: int, priceExp: int, qtyExp: int)
    requires |wires| == |frames| && forall f :: 0 <= f < |wires| ==> Exponents(wires[f], symbol, priceExp, qtyExp)
    requires FeedParts(frames, wires, symbol, id) != []
    ensures var b := RunBook(EMPTY_BOOK, FeedParts(frames, wires, symbol, id));
            b.priceExp == priceExp && b.qtyExp == qtyExp && b.expSet
  {
    hide RunBook, FeedParts, Exponents;
    var us := FeedParts(frames, wires, symbol, id);
    FeedScaled(frames, wires, symbol, id, priceExp, qtyExp);
    SidesAreIndependent(EMPTY_BOOK, us);
    ExponentsStay(us);
  }

  lemma {:induction false} ExponentsStay(us: seq<MarketUpdate>)
    requires us != []
    ensures RunBook(EMPTY_BOOK, us).expSet
  {
    KeepsSet(ApplyUpdate(EMPTY_BOOK, us[0]), us[1..]);
  }

  lemma {:induction false} KeepsSet(b: Book, us: seq<MarketUpdate>)
    requires b.Shape() && b.expSet
    ensures RunBook(b, us).expSet
    decreases |us|
  {
    if us != [] { KeepsSet(ApplyUpdate(b, us[0]), us[1..]); }
  }
}
