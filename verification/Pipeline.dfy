/** From the bytes of a frame to the best price: the parts put together. */
module Pipeline {
  import opened ByteOrder
  import opened MarketData
  import opened BookSpec
  import opened BookRuns
  import opened OrderBooks
  import opened BookTheorems
  import opened SbeDecoder
  import opened SbeFraming
  import opened VenueRegistries
  import opened OrderBookManagers

  /** The start-up loop: one registration per configured row. */
  function RegisterAll(ids: seq<int>): (r: Routing)
    ensures InRange(r) && |r.books| == |ids|
  {
    if ids == [] then Routing(map[], [])
    else
      var before := RegisterAll(ids[..|ids| - 1]);
      ShapesKept(before, ids[|ids| - 1]);
      Register(before, ids[|ids| - 1])
  }

  /** Up to 65536 rows, repeated or not, every configured id gets an empty book of its own. */
  lemma {:induction false} StartupIsSound(ids: seq<int>)
    requires |ids| <= INDEX_LIMIT
    ensures var r := RegisterAll(ids);
            && Sound(r) && |r.books| == |ids|
            && (forall id :: id in ids <==> id in r.index)
            && (forall i :: 0 <= i < |r.books| ==> r.books[i] == EMPTY_BOOK)
    decreases |ids|
  {
    hide EMPTY_BOOK;
    if ids != [] {
      var prefix, id := ids[..|ids| - 1], ids[|ids| - 1];
      assert ids == prefix + [id];
      StartupIsSound(prefix);
      RegisterKeepsSound(RegisterAll(prefix), id);
    }
  }

  /** For pairwise different ids: who gets which book. */
  lemma {:induction false} StartupIndices(ids: seq<int>)
    requires forall i, j :: 0 <= i < j < |ids| ==> ids[i] != ids[j]
    ensures var r := RegisterAll(ids);
            forall i :: 0 <= i < |ids| ==> ids[i] in r.index && r.index[ids[i]] == i % INDEX_LIMIT
    decreases |ids|
  {
    hide EMPTY_BOOK;
    if ids != [] {
      var prefix, id := ids[..|ids| - 1], ids[|ids| - 1];
      StartupIndices(prefix);
      forall i | 0 <= i < |ids|
        ensures ids[i] in RegisterAll(ids).index && RegisterAll(ids).index[ids[i]] == i % INDEX_LIMIT
      {
        if i < |prefix| { assert prefix[i] == ids[i] != id; }
      }
    }
  }

  /** Start-up with pairwise different ids is sound if and only if there are at most 65536 of them. */
  lemma {:induction false} StartupIsSoundExactly(ids: seq<int>)
    requires forall i, j :: 0 <= i < j < |ids| ==> ids[i] != ids[j]
    ensures Sound(RegisterAll(ids)) <==> |ids| <= 65536
  {
    hide RegisterAll;
    StartupIndices(ids);
    if |ids| <= INDEX_LIMIT {
      StartupIsSound(ids);
    } else {
      assert RegisterAll(ids).index[ids[0]] == 0 == RegisterAll(ids).index[ids[INDEX_LIMIT]];
    }
  }

  // ----- from the configured rows -----

  function Owner(id: int): nat { if id >= 0 then VenueOf(id) else 0 }

  /** The ids main.cpp registers, one per configured row. */
  ghost function RowIds(rows: seq<StreamRow>): (ids: seq<int>)
    ensures |ids| == |rows|
  {
    KeysPresent(rows);
    seq(|rows|, j requires 0 <= j < |rows| => IdAt(rows, j))
  }

  ghost function Start(rows: seq<StreamRow>): (r: Routing)
    ensures InRange(r)
  {
    RegisterAll(RowIds(rows))
  }

  ghost function VenueIndex(rows: seq<StreamRow>, exchange: Bytes): nat {
    if exchange in Build(rows).venueIds then Build(rows).venueIds[exchange] else 0
  }

  /** A frame as it arrives, with the time stamps its messages get; everything one venue sends. */
  datatype Received = Received(payload: Bytes, clock: nat -> int)
  datatype Feed = Feed(schemas: Schemas, frames: seq<Received>)

  function FeedUpdates(frames: seq<Received>, schemas: Schemas, symbols: Symbols): seq<MarketUpdate> {
    if frames == [] then []
    else ParseSpec(frames[0].payload, schemas, symbols, frames[0].clock, 0) + FeedUpdates(frames[1..], schemas, symbols)
  }

  ghost function VenueUpdates(rows: seq<StreamRow>, exchange: Bytes, feed: Feed): seq<MarketUpdate> {
    FeedUpdates(feed.frames, feed.schemas, SymbolTable(Build(rows), exchange))
  }

  /** Each venue's ingester pushes to its own queue what its parser makes of its frames, and nothing else
      is pushed. */
  ghost predicate FromFeeds(events: seq<Event>, rows: seq<StreamRow>, feeds: map<Bytes, Feed>) {
    && feeds.Keys == Exchanges(rows)
    && (forall i :: 0 <= i < |events| && events[i].Push? ==> exists e :: e in feeds && VenueIndex(rows, e) == events[i].q)
    && (forall e :: e in feeds ==> Pushed(events, VenueIndex(rows, e)) == VenueUpdates(rows, e, feeds[e]))
  }

  // ----- whose updates they are -----

  ghost predicate IdsFrom(us: seq<MarketUpdate>, symbols: Symbols) {
    forall i :: 0 <= i < |us| ==> us[i].instrumentId in symbols.Values
  }

  lemma {:induction false} GroupIds(msg: Bytes, offset: nat, blockLen: nat, count: nat,
                                    schema: MessageSchema, side: Side, st: Stamp)
    ensures forall i :: 0 <= i < |GroupUpdates(msg, offset, blockLen, count, schema, side, st)| ==>
              GroupUpdates(msg, offset, blockLen, count, schema, side, st)[i].instrumentId == st.instrumentId
    decreases count
  {
    if count > 0 && offset + blockLen <= |msg| {
      GroupIds(msg, offset + blockLen, blockLen, count - 1, schema, side, st);
    }
  }

  lemma DecodedIds(msg: Bytes, schema: MessageSchema, symbols: Symbols, recvTsc: int)
    ensures IdsFrom(DecodeSpec(msg, schema, symbols, recvTsc).updates, symbols)
  {
    hide GroupUpdates, FindLayout, ReadSigned, EventTime;
    var l := FindLayout(msg, schema);
    if l.Layout? && SbeDecoder.SymbolOf(msg, schema) in symbols {
      var symbol := SbeDecoder.SymbolOf(msg, schema);
      var st := StampOf(msg, schema, symbols[symbol], recvTsc);
      assert symbols[symbol] in symbols.Values;
      GroupIds(msg, 8 + schema.fixedBlockSize + 4, l.bidLen, l.numBids, schema, BUY, st);
      GroupIds(msg, l.bidsEnd + 4, l.askLen, l.numAsks, schema, SELL, st);
    }
  }

  /** Whatever bytes a venue sends, every update made of them carries an id of that venue's table. */
  lemma {:induction false} ParsedIds(payload: Bytes, schemas: Schemas, symbols: Symbols, clock: nat -> int, k: nat)
    ensures IdsFrom(ParseSpec(payload, schemas, symbols, clock, k), symbols)
    decreases |payload|
  {
    hide DecodeSpec, MeasureSpec, ReadUnsigned;
    var t := TurnSpec(payload, schemas, symbols, clock(k));
    if |payload| >= 4 && ReadUnsigned(payload, 2, 2) in schemas {
      DecodedIds(payload, schemas[ReadUnsigned(payload, 2, 2)], symbols, clock(k));
    }
    if 0 < t.consumed <= |payload| {
      ParsedIds(payload[t.consumed..], schemas, symbols, clock, if t.decoded then k + 1 else k);
    }
  }

  lemma {:induction false} FeedIds(frames: seq<Received>, schemas: Schemas, symbols: Symbols)
    ensures IdsFrom(FeedUpdates(frames, schemas, symbols), symbols)
  {
    hide ParseSpec;
    if frames != [] {
      ParsedIds(frames[0].payload, schemas, symbols, frames[0].clock, 0);
      FeedIds(frames[1..], schemas, symbols);
    }
  }

  /** The ids a venue's lookups return have that venue's index in their upper half. */
  lemma {:induction false} VenueOwnsItsIds(rows: seq<StreamRow>, exchange: Bytes, id: int)
    requires Configured(rows) && exchange in Exchanges(rows) && id in SymbolTable(Build(rows), exchange).Values
    ensures Owner(id) == VenueIndex(rows, exchange)
  {
    hide Build, Configured, Exchanges;
    var m := SymbolTable(Build(rows), exchange);
    var symbol :| symbol in m && m[symbol] == id;
    LookupFindsOwnRow(rows, exchange, symbol);
    var j :| 0 <= j < |rows| && rows[j] == StreamRow(exchange, symbol);
  }

  lemma {:induction false} PushedHolds(events: seq<Event>, i: nat)
    requires i < |events| && events[i].Push?
    ensures events[i].u in Pushed(events, events[i].q)
    decreases |events|
  {
    if i > 0 { PushedHolds(events[1..], i - 1); }
  }

  /** So the registry's numbering gives every instrument to one queue. */
  lemma FeedsAreOwned(rows: seq<StreamRow>, feeds: map<Bytes, Feed>, events: seq<Event>)
    requires Configured(rows) && FromFeeds(events, rows, feeds)
    ensures forall i :: 0 <= i < |events| ==> EventOwned(events[i], Owner)
  {
    hide Build, Configured, Exchanges, Owner, VenueIndex, FeedUpdates, Pushed;
    forall i | 0 <= i < |events| ensures EventOwned(events[i], Owner) {
      if events[i].Push? {
        var e :| e in feeds && VenueIndex(rows, e) == events[i].q;
        PushedHolds(events, i);
        FeedIds(feeds[e].frames, feeds[e].schemas, SymbolTable(Build(rows), e));
        assert e in Exchanges(rows);
        VenueOwnsItsIds(rows, e, events[i].u.instrumentId);
      }
    }
  }

  lemma {:induction false} ConfiguredStart(rows: seq<StreamRow>, j: nat)
    requires Configured(rows) && j < |rows|
    ensures RowKey(rows[j]) in Build(rows).instruments
    ensures Sound(Start(rows)) && IdAt(rows, j) in Start(rows).index
    ensures Start(rows).books[Start(rows).index[IdAt(rows, j)]] == EMPTY_BOOK
  {
    hide Build, RegisterAll, EMPTY_BOOK;
    KeysPresent(rows);
    StartupIsSound(RowIds(rows));
    assert RowIds(rows)[j] == IdAt(rows, j);
  }

  /** The book of a configured row, once its venue's queue has been drained: the fold of that
      instrument's own updates among all its venue has sent, whatever bytes the venues send and however
      pushes and polls of all queues interleave. */
  lemma {:induction false} BooksFollowFeeds(rows: seq<StreamRow>, queues: nat, feeds: map<Bytes, Feed>, events: seq<Event>, j: nat)
    requires Configured(rows) && FromFeeds(events, rows, feeds) && j < |rows|
    requires VenueIndex(rows, rows[j].exchange) < queues
    requires DoAll(Fresh(Start(rows), queues), events).queues[VenueIndex(rows, rows[j].exchange)] == []
    ensures RowKey(rows[j]) in Build(rows).instruments && rows[j].exchange in feeds
    ensures var id, end := IdAt(rows, j), DoAll(Fresh(Start(rows), queues), events).routing;
            && id in end.index
            && end.books[end.index[id]] == RunBook(EMPTY_BOOK, Own(VenueUpdates(rows, rows[j].exchange, feeds[rows[j].exchange]), id))
  {
    hide Build, Configured, Exchanges, DoAll, RunBook, Own, Pushed, EventOwned, RegisterAll, VenueUpdates, EMPTY_BOOK;
    ConfiguredStart(rows, j);
    var e, id := rows[j].exchange, IdAt(rows, j);
    assert e in feeds by { NoExchanges(rows); }
    RowIsOwned(rows, j);
    FeedsAreOwned(rows, feeds, events);
    OneRun(Start(rows), queues, Owner, events, id);
  }

  lemma {:induction false} RowIsOwned(rows: seq<StreamRow>, j: nat)
    requires Configured(rows) && j < |rows| && RowKey(rows[j]) in Build(rows).instruments
    ensures Owner(IdAt(rows, j)) == VenueIndex(rows, rows[j].exchange)
  {
    hide Build, Configured, Exchanges;
    NoExchanges(rows);
    LookupFindsOwnRow(rows, rows[j].exchange, rows[j].symbol);
  }

  /** The result does not depend on the schedule: two runs fed by the same venues' frames, in any
      interleaving that ends with the queue drained, leave the row's book in the same state. */
  lemma {:induction false} SchedulesAgree(rows: seq<StreamRow>, queues: nat, feeds: map<Bytes, Feed>, one: seq<Event>, two: seq<Event>, j: nat)
    requires Configured(rows) && FromFeeds(one, rows, feeds) && FromFeeds(two, rows, feeds) && j < |rows|
    requires VenueIndex(rows, rows[j].exchange) < queues
    requires DoAll(Fresh(Start(rows), queues), one).queues[VenueIndex(rows, rows[j].exchange)] == []
    requires DoAll(Fresh(Start(rows), queues), two).queues[VenueIndex(rows, rows[j].exchange)] == []
    ensures RowKey(rows[j]) in Build(rows).instruments
    ensures var id := IdAt(rows, j);
            var a, b := DoAll(Fresh(Start(rows), queues), one).routing, DoAll(Fresh(Start(rows), queues), two).routing;
            id in a.index && id in b.index && a.books[a.index[id]] == b.books[b.index[id]]
  {
    hide Build, Configured, Exchanges, DoAll, RunBook, Own, Pushed, EventOwned, RegisterAll, VenueUpdates, EMPTY_BOOK;
    ConfiguredStart(rows, j);
    RowIsOwned(rows, j);
    FeedsAreOwned(rows, feeds, one);
    FeedsAreOwned(rows, feeds, two);
    assert rows[j].exchange in feeds by { NoExchanges(rows); }
    InterleavingIndependence(Start(rows), queues, Owner, one, two, IdAt(rows, j));
  }

  // ----- frames of well-formed messages -----

  /** The levels of the messages for one symbol, in wire order. */
  ghost function SymbolLevels(items: seq<Item>, schemas: Schemas, symbols: Symbols, symbol: Bytes, clock: nat -> int, k: nat): seq<MarketUpdate>
    requires symbol in symbols && forall i :: 0 <= i < |items| ==> ItemOk(items[i], schemas, symbols)
  {
    if items == [] then []
    else
      assert ItemOk(items[0], schemas, symbols);
      match items[0]
      case Depth(m) =>
        (if m.symbol == symbol then MessageUpdates(m, schemas[ReadUnsigned(m.header, 2, 2)], symbols[symbol], clock(k)) else [])
        + SymbolLevels(items[1..], schemas, symbols, symbol, clock, k + 1)
      case Skipped(_) => SymbolLevels(items[1..], schemas, symbols, symbol, clock, k)
  }

  lemma {:induction false} OwnAppend(us: seq<MarketUpdate>, vs: seq<MarketUpdate>, id: int)
    ensures Own(us + vs, id) == Own(us, id) + Own(vs, id)
    decreases |vs|
  {
    if vs == [] {
      assert us + vs == us;
    } else {
      var init, last := vs[..|vs| - 1], vs[|vs| - 1];
      assert us + vs == (us + init) + [last] && vs == init + [last];
      OwnSnoc(us + init, last, id);
      OwnSnoc(init, last, id);
      OwnAppend(us, init, id);
    }
  }

  lemma {:induction false} OwnOfOneId(us: seq<MarketUpdate>, id: int, other: int)
    requires forall i :: 0 <= i < |us| ==> us[i].instrumentId == other
    ensures Own(us, id) == if id == other then us else []
    decreases |us|
  {
    if us != [] {
      var init, last := us[..|us| - 1], us[|us| - 1];
      assert us == init + [last];
      OwnSnoc(init, last, id);
      OwnOfOneId(init, id, other);
    }
  }

  lemma {:induction false} BlockIds(blocks: seq<Bytes>, schema: MessageSchema, side: Side, st: Stamp)
    ensures forall i :: 0 <= i < |BlockUpdates(blocks, schema, side, st)| ==>
              BlockUpdates(blocks, schema, side, st)[i].instrumentId == st.instrumentId
  {
    if blocks != [] { BlockIds(blocks[1..], schema, side, st); }
  }

  lemma {:induction false} OwnOfMessage(m: DepthMessage, schema: MessageSchema, id: int, other: int, recvTsc: int)
    ensures Own(MessageUpdates(m, schema, other, recvTsc), id)
            == if id == other then MessageUpdates(m, schema, other, recvTsc) else []
  {
    hide BlockUpdates, Own;
    var st := MessageStamp(m, schema, other, recvTsc);
    BlockIds(m.bids, schema, BUY, st);
    BlockIds(m.asks, schema, SELL, st);
    OwnOfOneId(MessageUpdates(m, schema, other, recvTsc), id, other);
  }

  /** With different ids for different symbols, an instrument's own updates are those of its symbol. */
  lemma {:induction false} OwnIsBySymbol(items: seq<Item>, schemas: Schemas, symbols: Symbols, symbol: Bytes, clock: nat -> int, k: nat)
    requires symbol in symbols && forall i :: 0 <= i < |items| ==> ItemOk(items[i], schemas, symbols)
    requires forall s :: s in symbols && symbols[s] == symbols[symbol] ==> s == symbol
    ensures Own(FrameUpdates(items, schemas, symbols, clock, k), symbols[symbol])
            == SymbolLevels(items, schemas, symbols, symbol, clock, k)
    decreases |items|
  {
    hide MessageUpdates, Own, ReadUnsigned;
    OwnOfOneId([], symbols[symbol], 0);
    if items != [] {
      assert ItemOk(items[0], schemas, symbols);
      match items[0] {
        case Depth(m) =>
          var schema := schemas[ReadUnsigned(m.header, 2, 2)];
          OwnIsBySymbol(items[1..], schemas, symbols, symbol, clock, k + 1);
          OwnOfMessage(m, schema, symbols[symbol], symbols[m.symbol], clock(k));
          OwnAppend(MessageUpdates(m, schema, symbols[m.symbol], clock(k)),
                    FrameUpdates(items[1..], schemas, symbols, clock, k + 1), symbols[symbol]);
        case Skipped(_) =>
          OwnIsBySymbol(items[1..], schemas, symbols, symbol, clock, k);
      }
    }
  }

  /** The frames of a feed are made of well-formed messages. */
  ghost predicate Encodes(feed: Feed, contents: seq<seq<Item>>, symbols: Symbols) {
    |contents| == |feed.frames| &&
    forall f :: 0 <= f < |contents| ==>
      && feed.frames[f].payload == FrameBytes(contents[f])
      && forall i :: 0 <= i < |contents[f]| ==> ItemOk(contents[f][i], feed.schemas, symbols)
  }

  /** The levels of one symbol in all frames of a feed. */
  ghost function FeedLevels(feed: Feed, contents: seq<seq<Item>>, symbols: Symbols, symbol: Bytes): seq<MarketUpdate>
    requires symbol in symbols && Encodes(feed, contents, symbols)
    decreases |contents|
  {
    if contents == [] then []
    else
      SymbolLevels(contents[0], feed.schemas, symbols, symbol, feed.frames[0].clock, 0)
      + FeedLevels(feed.(frames := feed.frames[1..]), contents[1..], symbols, symbol)
  }

  lemma {:induction false} OwnOfFeed(feed: Feed, contents: seq<seq<Item>>, symbols: Symbols, symbol: Bytes)
    requires symbol in symbols && Encodes(feed, contents, symbols)
    requires forall s :: s in symbols && symbols[s] == symbols[symbol] ==> s == symbol
    ensures Own(FeedUpdates(feed.frames, feed.schemas, symbols), symbols[symbol]) == FeedLevels(feed, contents, symbols, symbol)
    decreases |contents|
  {
    hide Own, ParseSpec, FrameUpdates, SymbolLevels, FrameBytes, ItemOk;
    OwnOfOneId([], symbols[symbol], 0);
    if contents != [] {
      var first, rest := feed.frames[0], feed.(frames := feed.frames[1..]);
      ParseFrame(contents[0], feed.schemas, symbols, first.clock, 0);
      OwnIsBySymbol(contents[0], feed.schemas, symbols, symbol, first.clock, 0);
      OwnOfFeed(rest, contents[1..], symbols, symbol);
      OwnAppend(ParseSpec(first.payload, feed.schemas, symbols, first.clock, 0),
                FeedUpdates(rest.frames, feed.schemas, symbols), symbols[symbol]);
    }
  }

  /** The registry's table for a row's venue knows the row's symbol, and no other symbol has its id. */
  lemma {:induction false} RowInTable(rows: seq<StreamRow>, j: nat)
    requires Configured(rows) && j < |rows|
    ensures RowKey(rows[j]) in Build(rows).instruments
    ensures var symbols := SymbolTable(Build(rows), rows[j].exchange);
            && rows[j].symbol in symbols && symbols[rows[j].symbol] == IdAt(rows, j)
            && forall s :: s in symbols && symbols[s] == IdAt(rows, j) ==> s == rows[j].symbol
  {
    hide Build, Exchanges, RowKey;
    var e := rows[j].exchange;
    NoExchanges(rows);
    LookupFindsOwnRow(rows, e, rows[j].symbol);
    KeysPresent(rows);
    var symbols := SymbolTable(Build(rows), e);
    forall s | s in symbols && symbols[s] == IdAt(rows, j) ensures s == rows[j].symbol {
      LookupFindsOwnRow(rows, e, s);
      var i :| 0 <= i < |rows| && rows[i] == StreamRow(e, s);
      SameIdSameRow(rows, i, j);
    }
  }

  /** From bytes to books: the venue sends frames of well-formed messages, all venues' parsers push to
      their queues, pushes and polls interleave in any way until the venue's queue is empty.  Then the
      book of each of its rows is the fold of the levels of that row's symbol, in wire order. */
  lemma {:induction false} FrameReachesBook(rows: seq<StreamRow>, queues: nat, feeds: map<Bytes, Feed>, events: seq<Event>, j: nat,
                         contents: seq<seq<Item>>)
    requires Configured(rows) && FromFeeds(events, rows, feeds) && j < |rows| && rows[j].exchange in feeds
    requires VenueIndex(rows, rows[j].exchange) < queues
    requires Encodes(feeds[rows[j].exchange], contents, SymbolTable(Build(rows), rows[j].exchange))
    requires DoAll(Fresh(Start(rows), queues), events).queues[VenueIndex(rows, rows[j].exchange)] == []
    ensures RowKey(rows[j]) in Build(rows).instruments
    ensures rows[j].symbol in SymbolTable(Build(rows), rows[j].exchange)
    ensures var id, end := IdAt(rows, j), DoAll(Fresh(Start(rows), queues), events).routing;
            && id in end.index
            && end.books[end.index[id]]
               == RunBook(EMPTY_BOOK, FeedLevels(feeds[rows[j].exchange], contents,
                                                 SymbolTable(Build(rows), rows[j].exchange), rows[j].symbol))
  {
    hide Build, Configured, DoAll, RunBook, Own, RegisterAll, FromFeeds, Encodes, FeedUpdates, EMPTY_BOOK, VenueIndex;
    BooksFollowFeeds(rows, queues, feeds, events, j);
    RowInTable(rows, j);
    OwnOfFeed(feeds[rows[j].exchange], contents, SymbolTable(Build(rows), rows[j].exchange), rows[j].symbol);
  }

  /** And when those levels are clean for both sides, the book shows exactly the two maps: sizes, least
      ask and greatest bid with their quantities, and the mid price of the best levels. */
  lemma {:induction false} FrameReachesBestPrices(rows: seq<StreamRow>, queues: nat, feeds: map<Bytes, Feed>, events: seq<Event>, j: nat,
                               contents: seq<seq<Item>>, levels: seq<MarketUpdate>)
    requires Configured(rows) && FromFeeds(events, rows, feeds) && j < |rows| && rows[j].exchange in feeds
    requires VenueIndex(rows, rows[j].exchange) < queues
    requires Encodes(feeds[rows[j].exchange], contents, SymbolTable(Build(rows), rows[j].exchange))
    requires DoAll(Fresh(Start(rows), queues), events).queues[VenueIndex(rows, rows[j].exchange)] == []
    requires rows[j].symbol in SymbolTable(Build(rows), rows[j].exchange)
    requires levels == FeedLevels(feeds[rows[j].exchange], contents, SymbolTable(Build(rows), rows[j].exchange), rows[j].symbol)
    requires CleanRun(EMPTY_SIDE, SideQuotes(levels, true)) && CleanRun(EMPTY_SIDE, SideQuotes(levels, false))
    ensures RowKey(rows[j]) in Build(rows).instruments
    ensures var id, end := IdAt(rows, j), DoAll(Fresh(Start(rows), queues), events).routing;
            && id in end.index
            && ShowsMaps(end.books[end.index[id]], BookSpec.Run(EMPTY_SIDE, SideQuotes(levels, true)),
                         BookSpec.Run(EMPTY_SIDE, SideQuotes(levels, false)))
  {
    hide Build, Configured, DoAll, RunBook, Own, RegisterAll, FromFeeds, Encodes, FeedLevels, EMPTY_BOOK, VenueIndex, CleanRun, SideQuotes, ShowsMaps;
    FrameReachesBook(rows, queues, feeds, events, j, contents);
    BookFollowsMaps(levels);
  }
}
