/** The integer arithmetic of two strategies. */
module Strategies {
  import opened CInt
  import opened MarketData
  import opened BookSpec
  import opened BookRing
  import opened BookRefinement
  import opened BookRuns
  import opened BookMid
  import opened OrderBooks
  import opened BookTheorems

  function Clamp(x: int, lo: int, hi: int): int {
    if x < lo then lo else if x > hi then hi else x
  }

  // ----- order book imbalance -----

  /** The volume-weighted best price. */
  function MicroPrice(bid: int, bidQty: int, ask: int, askQty: int): int
    requires bidQty + askQty != 0
  {
    CDiv(ask * bidQty + bid * askQty, bidQty + askQty)
  }

  function ImbalanceSignal(bid: int, bidQty: int, ask: int, askQty: int, mid: int): (signal: int)
    ensures -1000 <= signal <= 1000
  {
    if bidQty + askQty == 0 then 0
    else SignalOfMicro(MicroPrice(bid, bidQty, ask, askQty), bid, ask, mid)
  }

  function SignalOfMicro(micro: int, bid: int, ask: int, mid: int): (signal: int)
    ensures -1000 <= signal <= 1000
  {
    if ask - bid <= 0 then 0 else Clamp(CDiv((micro - mid) * 1000, 3 * (ask - bid)), -1000, 1000)
  }

  /** What the strategy makes of a book: its two best slots, which may be stale, and its mid price. */
  ghost function BookSignal(b: Book): int
    requires b.Shape()
  {
    ImbalanceSignal(b.bids.slots[b.bids.best].price, b.bids.slots[b.bids.best].quantity,
                    b.asks.slots[b.asks.best].price, b.asks.slots[b.asks.best].quantity,
                    Mid(Walk(b.bids, b.bids.best, 0, 0), Walk(b.asks, b.asks.best, 0, 0)))
  }

  class OrderBookImbalance {
    const orderBook: OrderBook

    constructor (book: OrderBook)
      ensures orderBook == book
    {
      orderBook := book;
    }

    method OnMarketData() returns (signal: int)
      requires orderBook.Valid()
      ensures signal == BookSignal(orderBook.State())
    {
      hide Walk, Mid, CDiv;
      var askPrice := orderBook.GetBestAskRaw();
      var askQty := orderBook.GetBestAskQtyRaw();
      var bidPrice := orderBook.GetBestBidRaw();
      var bidQty := orderBook.GetBestBidQtyRaw();
      var denom := bidQty + askQty;
      if denom == 0 { return 0; }
      var microPrice := CDiv(askPrice * bidQty + bidPrice * askQty, denom);
      var midPrice := orderBook.GetMidRaw();
      var spread := askPrice - bidPrice;
      if spread <= 0 { return 0; }
      return Clamp(CDiv((microPrice - midPrice) * 1000, 3 * spread), -1000, 1000);
    }
  }

  lemma MulCommutes(a: int, b: int)
    ensures a * b == b * a
  {
  }

  /** The micro-price lies in the spread. */
  lemma MicroInSpread(bid: int, bidQty: int, ask: int, askQty: int)
    requires bid < ask && bidQty >= 0 && askQty >= 0 && bidQty + askQty > 0
    ensures bid <= MicroPrice(bid, bidQty, ask, askQty) <= ask
  {
    MulMono(bid, ask, bidQty);
    MulMono(bid, ask, askQty);
    Distribute(bid, bidQty, askQty);
    Distribute(ask, bidQty, askQty);
    CDivBounds(ask * bidQty + bid * askQty, bidQty + askQty, bid, ask);
  }

  /** Truncated quotients keep the order of the exact ones. */
  lemma QuotientsOrdered(n: nat, d: int, n': nat, d': int)
    requires d > 0 && d' > 0 && n * d' <= n' * d
    ensures n / d <= n' / d'
  {
    var q := n / d;
    assert q * d <= n;
    MulMono(q * d, n, d');
    assert (q * d) * d' == (q * d') * d by { Reorder(q, d, d'); }
    if q * d' > n' {
      MulMono(n' + 1, q * d', d);
      Distribute(d, n', 1);
    }
    QuotientAtLeast(n', d', q);
  }

  lemma Reorder(a: int, b: int, c: int)
    ensures (a * b) * c == (a * c) * b
  {
  }

  lemma QuotientAtLeast(n: nat, d: int, q: int)
    requires d > 0 && q * d <= n
    ensures q <= n / d
  {
    var r := n / d;
    assert n < (r + 1) * d;
    if r + 1 <= q { MulMono(r + 1, q, d); }
  }

  lemma CDivOrdered(x: int, d: int, x': int, d': int)
    requires d > 0 && d' > 0 && x * d' <= x' * d
    ensures CDiv(x, d) <= CDiv(x', d')
  {
    if x >= 0 {
      assert x * d' >= 0;
      assert x' < 0 ==> x' * d < 0;
      QuotientsOrdered(x, d, x', d');
    } else if x' < 0 {
      assert (-x') * d <= (-x) * d';
      QuotientsOrdered(-x', d', -x, d);
    } else {
      QuotientAtLeast(x', d', 0);
      QuotientAtLeast(-x, d, 0);
    }
  }

  lemma MicroCross(bid: int, ask: int, b: int, a: int, b': int, a': int)
    requires bid <= ask && b + a > 0 && b' + a' > 0 && b * a' <= b' * a
    ensures MicroPrice(bid, b, ask, a) <= MicroPrice(bid, b', ask, a')
  {
    Cross(bid, ask, b, a, b', a');
    CDivOrdered(ask * b + bid * a, b + a, ask * b' + bid * a', b' + a');
  }

  /** More bid volume moves it up, more ask volume down. */
  lemma MicroIsMonotone(bid: int, bidQty: int, ask: int, askQty: int, moreBid: int, moreAsk: int)
    requires bid < ask && 0 <= bidQty <= moreBid && 0 <= askQty <= moreAsk && bidQty + askQty > 0
    ensures MicroPrice(bid, bidQty, ask, askQty) <= MicroPrice(bid, moreBid, ask, askQty)
    ensures MicroPrice(bid, bidQty, ask, moreAsk) <= MicroPrice(bid, bidQty, ask, askQty)
  {
    hide MicroPrice;
    MulMono(bidQty, moreBid, askQty);
    MicroCross(bid, ask, bidQty, askQty, moreBid, askQty);
    MulMono(askQty, moreAsk, bidQty);
    MulCommutes(askQty, bidQty);
    MulCommutes(moreAsk, bidQty);
    MicroCross(bid, ask, bidQty, moreAsk, bidQty, askQty);
  }

  /** Cross-multiplied comparison of two weighted averages of lo and hi. */
  lemma Cross(lo: int, hi: int, b: int, a: int, b': int, a': int)
    requires lo <= hi && b * a' <= b' * a
    ensures (hi * b + lo * a) * (b' + a') <= (hi * b' + lo * a') * (b + a)
  {
    var left, right := (hi * b + lo * a) * (b' + a'), (hi * b' + lo * a') * (b + a);
    assert right - left == (hi - lo) * (b' * a - b * a') by { CrossDifference(lo, hi, b, a, b', a'); }
    assert (hi - lo) * (b' * a - b * a') >= 0;
  }

  lemma CrossDifference(lo: int, hi: int, b: int, a: int, b': int, a': int)
    ensures (hi * b' + lo * a') * (b + a) - (hi * b + lo * a) * (b' + a') == (hi - lo) * (b' * a - b * a')
  {
    Expand(hi, b', lo, a', b, a);
    Expand(hi, b, lo, a, b', a');
    var x, y := b' * a, b * a';
    assert hi * b' * b == hi * b * b' && lo * a' * a == lo * a * a' by {
      Reorder(hi, b', b);
      Reorder(lo, a', a);
    }
    assert hi * b' * a == hi * x && hi * b * a' == hi * y by { Assoc(hi, b', a); Assoc(hi, b, a'); }
    assert lo * a' * b == lo * y && lo * a * b' == lo * x by {
      Assoc(lo, a', b); Assoc(lo, a, b'); MulCommutes(a', b); MulCommutes(a, b');
    }
    Distribute(hi - lo, x, -y);
    Distribute(x, hi, -lo);
    Distribute(y, hi, -lo);
  }

  lemma Assoc(a: int, b: int, c: int)
    ensures a * b * c == a * (b * c)
  {
  }

  lemma Expand(p: int, q: int, r: int, s: int, u: int, v: int)
    ensures (p * q + r * s) * (u + v) == p * q * u + p * q * v + r * s * u + r * s * v
  {
    Distribute(p * q + r * s, u, v);
    Distribute(u, p * q, r * s);
    Distribute(v, p * q, r * s);
  }

  /** The signal saturates exactly when the micro-price is three spreads or more away from the mid, and
      otherwise has the direction of the difference. */
  lemma SignalMeaning(bid: int, bidQty: int, ask: int, askQty: int, mid: int)
    requires bid < ask && bidQty + askQty != 0
    ensures var micro := MicroPrice(bid, bidQty, ask, askQty);
            var signal := ImbalanceSignal(bid, bidQty, ask, askQty, mid);
            && (signal == 1000 <==> micro - mid >= 3 * (ask - bid))
            && (signal == -1000 <==> mid - micro >= 3 * (ask - bid))
            && (signal > 0 ==> micro > mid) && (signal < 0 ==> micro < mid)
  {
    hide MicroPrice, CDiv;
    var d, n := 3 * (ask - bid), (MicroPrice(bid, bidQty, ask, askQty) - mid) * 1000;
    QuotientReaches(n, d, 1000);
    QuotientSigns(n, d);
  }

  lemma QuotientReaches(n: int, d: int, k: int)
    requires d > 0 && k > 0
    ensures CDiv(n, d) >= k <==> n >= k * d
    ensures CDiv(n, d) <= -k <==> -n >= k * d
  {
    if n >= 0 {
      if n >= k * d { QuotientAtLeast(n, d, k); }
      else { assert (n / d) * d <= n; if n / d >= k { MulMono(k, n / d, d); } }
      QuotientAtLeast(n, d, 0);
      assert k * d > 0;
    } else {
      if -n >= k * d { QuotientAtLeast(-n, d, k); }
      else { assert ((-n) / d) * d <= -n; if (-n) / d >= k { MulMono(k, (-n) / d, d); } }
      QuotientAtLeast(-n, d, 0);
      assert k * d > 0;
    }
  }

  lemma QuotientSigns(n: int, d: int)
    requires d > 0
    ensures CDiv(n, d) > 0 ==> n > 0
    ensures CDiv(n, d) < 0 ==> n < 0
  {
    if n >= 0 { QuotientAtLeast(n, d, 0); } else { QuotientAtLeast(-n, d, 0); }
  }

  /** What the signal is, without naming a division: 0 without volume or spread; otherwise the micro-price
      is the ask weighted with the bid volume and the bid weighted with the ask volume, over the volume,
      and short of saturation the signal is the distance of micro-price and mid in thousandths of three
      spreads, both cut off toward 0. */
  lemma SignalIsQuotient(bid: int, bidQty: int, ask: int, askQty: int, mid: int)
    ensures var signal := ImbalanceSignal(bid, bidQty, ask, askQty, mid);
            if bidQty + askQty == 0 || bid >= ask then signal == 0
            else
              var micro := MicroPrice(bid, bidQty, ask, askQty);
              var n, d := (micro - mid) * 1000, 3 * (ask - bid);
              && Quotient(ask * bidQty + bid * askQty, bidQty + askQty, micro)
              && (-1000 * d <= n <= 1000 * d ==> Quotient(n, d, signal))
              && (n > 1000 * d ==> signal == 1000) && (n < -1000 * d ==> signal == -1000)
  {
    hide CDiv, Quotient;
    if bidQty + askQty != 0 && bid < ask {
      CDivIs(ask * bidQty + bid * askQty, bidQty + askQty);
      var n, d := (MicroPrice(bid, bidQty, ask, askQty) - mid) * 1000, 3 * (ask - bid);
      CDivIs(n, d);
      if -1000 * d <= n <= 1000 * d { CDivBounds(n, d, -1000, 1000); }
      QuotientReaches(n, d, 1000);
    }
  }

  /** 30 bid at 100 and 10 asked at 110 with the mid at 104: the micro-price is 107, the signal 100. */
  lemma SignalExample()
    ensures MicroPrice(100, 30, 110, 10) == 107 && ImbalanceSignal(100, 30, 110, 10, 104) == 100
  {
    CDivIs(110 * 30 + 100 * 10, 40);
    CDivIs(3000, 30);
  }

  /** The difference scaled by 1000 fits int64 for prices below 2^53. */
  lemma ScaledDifferenceFits(bid: int, bidQty: int, ask: int, askQty: int, mid: int)
    requires 0 <= bid < ask < 0x20_0000_0000_0000 && bidQty >= 0 && askQty >= 0 && bidQty + askQty > 0
    requires 0 <= mid < 0x20_0000_0000_0000
    ensures INT64_MIN <= (MicroPrice(bid, bidQty, ask, askQty) - mid) * 1000 <= INT64_MAX
  {
    MicroInSpread(bid, bidQty, ask, askQty);
  }

  /** What it should make of two maps, both non-empty. */
  ghost function MapSignal(bids: SideBook, asks: SideBook): int
    requires bids.levels.Keys != {} && asks.levels.Keys != {}
  {
    var bid, ask := Greatest(bids.levels.Keys), Least(asks.levels.Keys);
    ImbalanceSignal(bid, bids.levels[bid], ask, asks.levels[ask],
                    Mid(TopLevels(bids.levels, true, MID_PRICE_N), TopLevels(asks.levels, false, MID_PRICE_N)))
  }

  /** For every book that tracks two non-empty maps the signal is that of the maps. */
  lemma SignalOfTrackedBook(b: Book, bids: SideBook, asks: SideBook)
    requires b.Shape() && Tracks(b.bids, bids) && Tracks(b.asks, asks)
    requires bids.levels.Keys != {} && asks.levels.Keys != {}
    ensures BookSignal(b) == MapSignal(bids, asks)
  {
    hide Walk, Mid, TopLevels, Tracks, ImbalanceSignal;
    BestOfTracked(b.bids, bids);
    BestOfTracked(b.asks, asks);
    WalkOfTracked(b.bids, bids);
    WalkOfTracked(b.asks, asks);
  }

  const PRICE_LIMIT: int := 0x20_0000_0000_0000

  ghost predicate Traded(updates: seq<MarketUpdate>, most: int) {
    forall i :: 0 <= i < |updates| ==> 0 <= updates[i].price < PRICE_LIMIT && 0 <= updates[i].quantity <= most
  }

  lemma CountedWithin(asks: SideBook, bids: SideBook, lo: int, hi: int, most: int)
    requires LevelsWithin(asks.levels, lo, hi, most) && LevelsWithin(bids.levels, lo, hi, most)
    ensures forall p :: p in PricesOf(Counted(asks, bids)) ==> lo <= p <= hi
  {
    hide TopLevels;
    TopWithin(asks.levels, false, lo, hi, most);
    TopWithin(bids.levels, true, lo, hi, most);
  }

  /** For every clean run of non-negative prices below 2^53 and non-negative quantities that leaves both
      sides non-empty, the signal is that of the two maps; when the best bid is below the best ask, the
      micro-price lies between them and the difference scaled by 1000 fits int64. */
  lemma {:induction false} SignalOfCleanRun(updates: seq<MarketUpdate>, most: int)
    requires CleanRun(EMPTY_SIDE, SideQuotes(updates, true)) && CleanRun(EMPTY_SIDE, SideQuotes(updates, false))
    requires Traded(updates, most)
    requires Run(EMPTY_SIDE, SideQuotes(updates, true)).levels.Keys != {}
    requires Run(EMPTY_SIDE, SideQuotes(updates, false)).levels.Keys != {}
    ensures var asks, bids := Run(EMPTY_SIDE, SideQuotes(updates, true)), Run(EMPTY_SIDE, SideQuotes(updates, false));
            BookSignal(RunBook(EMPTY_BOOK, updates)) == MapSignal(bids, asks)
    ensures var asks, bids := Run(EMPTY_SIDE, SideQuotes(updates, true)), Run(EMPTY_SIDE, SideQuotes(updates, false));
            var bid, ask := Greatest(bids.levels.Keys), Least(asks.levels.Keys);
            var mid := Mid(TopLevels(bids.levels, true, MID_PRICE_N), TopLevels(asks.levels, false, MID_PRICE_N));
            bid < ask ==>
              && bids.levels[bid] > 0 && asks.levels[ask] > 0
              && bid <= MicroPrice(bid, bids.levels[bid], ask, asks.levels[ask]) <= ask
              && INT64_MIN <= (MicroPrice(bid, bids.levels[bid], ask, asks.levels[ask]) - mid) * 1000 <= INT64_MAX
  {
    hide CleanRun, SideQuotes, Run, RunBook, Walk, Mid, TopLevels, EMPTY_SIDE, Tracks, Counted, MicroPrice, ImbalanceSignal;
    var asks, bids := Run(EMPTY_SIDE, SideQuotes(updates, true)), Run(EMPTY_SIDE, SideQuotes(updates, false));
    BookFollowsMaps(updates);
    SignalOfTrackedBook(RunBook(EMPTY_BOOK, updates), bids, asks);
    MidOfCleanRun(updates, most);
    RunsWithin(updates, 0, PRICE_LIMIT - 1, most);
    CountedWithin(asks, bids, 0, PRICE_LIMIT - 1, most);
    var bid, ask := Greatest(bids.levels.Keys), Least(asks.levels.Keys);
    assert bid in bids.levels && ask in asks.levels;
    var mid := Mid(TopLevels(bids.levels, true, MID_PRICE_N), TopLevels(asks.levels, false, MID_PRICE_N));
    assert 0 <= mid < PRICE_LIMIT;
    if bid < ask {
      MicroInSpread(bid, bids.levels[bid], ask, asks.levels[ask]);
      ScaledDifferenceFits(bid, bids.levels[bid], ask, asks.levels[ask], mid);
    }
  }

  lemma {:induction false} RunsWithin(updates: seq<MarketUpdate>, lo: int, hi: int, most: int)
    requires forall i :: 0 <= i < |updates| ==> lo <= updates[i].price <= hi && 0 <= updates[i].quantity <= most
    ensures LevelsWithin(Run(EMPTY_SIDE, SideQuotes(updates, true)).levels, lo, hi, most)
    ensures LevelsWithin(Run(EMPTY_SIDE, SideQuotes(updates, false)).levels, lo, hi, most)
  {
    hide Run, SideQuotes;
    SideWithin(updates, true, lo, hi, most);
    SideWithin(updates, false, lo, hi, most);
    RunWithin(EMPTY_SIDE, SideQuotes(updates, true), lo, hi, most);
    RunWithin(EMPTY_SIDE, SideQuotes(updates, false), lo, hi, most);
  }

  // ----- one side empty -----

  /** With no ask the "micro-price" is whatever price the best ask slot last held, and with no bid the one
      the best bid slot last held; with neither there is no signal. */
  lemma OneSidedSignal(b: Book, bids: SideBook, asks: SideBook)
    requires b.Shape() && Tracks(b.bids, bids) && Tracks(b.asks, asks)
    ensures var bid, ask := b.bids.slots[b.bids.best], b.asks.slots[b.asks.best];
            var mid := Mid(Walk(b.bids, b.bids.best, 0, 0), Walk(b.asks, b.asks.best, 0, 0));
            && (asks.levels.Keys == {} && bids.levels.Keys == {} ==> BookSignal(b) == 0)
            && (asks.levels.Keys == {} && bid.quantity > 0 ==>
                  BookSignal(b) == SignalOfMicro(ask.price, bid.price, ask.price, mid))
            && (bids.levels.Keys == {} && ask.quantity > 0 ==>
                  BookSignal(b) == SignalOfMicro(bid.price, bid.price, ask.price, mid))
  {
    hide Walk, Mid, Tracks, SignalOfMicro;
    BestOfTracked(b.bids, bids);
    BestOfTracked(b.asks, asks);
    var bid, ask := b.bids.slots[b.bids.best], b.asks.slots[b.asks.best];
    if bid.quantity > 0 { OneSidedMicro(bid.price, ask.price, bid.quantity); }
    if ask.quantity > 0 { OneSidedMicro(bid.price, ask.price, ask.quantity); }
  }

  lemma OneSidedMicro(bid: int, ask: int, q: int)
    requires q > 0
    ensures MicroPrice(bid, q, ask, 0) == ask && MicroPrice(bid, 0, ask, q) == bid
  {
    hide CDiv;
    CDivBounds(ask * q + bid * 0, q + 0, ask, ask);
    CDivBounds(ask * 0 + bid * q, 0 + q, bid, bid);
  }

  // ----- the same maps, two signals -----

  const BID_100 := MarketUpdate(0, BUY, 100, 1, 0, 0, 0, 0)
  const ASK_256 := MarketUpdate(0, SELL, 256, 1, 0, 0, 0, 0)
  const ASK_GONE := MarketUpdate(0, SELL, 256, 0, 0, 0, 0, 0)

  /** A bid, alone and after an ask has come and gone. */
  function OneBid(): seq<MarketUpdate> { [BID_100] }
  function AskThenBid(): seq<MarketUpdate> { [ASK_256, ASK_GONE, BID_100] }

  lemma TheirQuotes()
    ensures SideQuotes(OneBid(), false) == SideQuotes(AskThenBid(), false) == [Quote(100, 1)]
    ensures SideQuotes(OneBid(), true) == [] && SideQuotes(AskThenBid(), true) == [Quote(256, 1), Quote(256, 0)]
  {
    assert OneBid()[1..] == [] && AskThenBid()[1..] == [ASK_GONE, BID_100] && AskThenBid()[2..] == [BID_100];
    assert AskThenBid()[1..][1..] == [BID_100] && AskThenBid()[1..][1..][1..] == [];
  }

  lemma OneBidSide()
    ensures CleanRun(EMPTY_SIDE, [Quote(100, 1)])
    ensures Run(EMPTY_SIDE, [Quote(100, 1)]).levels == map[100 := 1]
  {
    RunStep(EMPTY_SIDE, Quote(100, 1), []);
    assert [Quote(100, 1)] + [] == [Quote(100, 1)];
    assert Step(EMPTY_SIDE, 100, 1).levels == map[100 := 1];
  }

  lemma GoneAskSide()
    ensures CleanRun(EMPTY_SIDE, [Quote(256, 1), Quote(256, 0)]) && CleanRun(EMPTY_SIDE, [])
    ensures Run(EMPTY_SIDE, [Quote(256, 1), Quote(256, 0)]).levels == map[] == Run(EMPTY_SIDE, []).levels
    ensures var r := RunRing(EmptyRing(false), [Quote(256, 1), Quote(256, 0)]);
            r.best == 0 && r.slots[0] == PriceLevel(256, 0, false)
    ensures RunRing(EmptyRing(false), []) == EmptyRing(false)
  {
    var quotes := [Quote(256, 1), Quote(256, 0)];
    assert quotes[1..] == [Quote(256, 0)] && quotes[1..][1..] == [];
    var s := Step(EMPTY_SIDE, 256, 1);
    assert s.levels == map[256 := 1] && Step(s, 256, 0).levels == map[];
    assert Residue(256) == 0;
    var r := Apply(EmptyRing(false), 256, 1);
    assert r.best == 0 && r.slots[0] == PriceLevel(256, 1, true) && r.count == 1;
  }

  lemma TopOfOne()
    ensures TopLevels(map[100 := 1], true, MID_PRICE_N) == [Quote(100, 1)]
    ensures TopLevels(map[], false, MID_PRICE_N) == []
    ensures Mid([Quote(100, 1)], []) == 100
  {
    var m := map[100 := 1];
    assert m.Keys == {100} && m - {100} == map[];
  }

  /** The signal is not a function of the two maps: with a bid at 100 and no ask it is 0 in a fresh book
      and 333 after an ask at 256 has come and gone. */
  lemma StaleAskMovesSignal()
    ensures forall asks :: CleanRun(EMPTY_SIDE, SideQuotes(OneBid(), asks)) && CleanRun(EMPTY_SIDE, SideQuotes(AskThenBid(), asks))
    ensures forall asks :: Run(EMPTY_SIDE, SideQuotes(OneBid(), asks)).levels == Run(EMPTY_SIDE, SideQuotes(AskThenBid(), asks)).levels
    ensures BookSignal(RunBook(EMPTY_BOOK, OneBid())) == 0
    ensures BookSignal(RunBook(EMPTY_BOOK, AskThenBid())) == 333
  {
    hide CleanRun, SideQuotes, Run, RunBook, RunRing, Walk, Mid, TopLevels, Tracks, OneBid, AskThenBid;
    TheirQuotes();
    OneBidSide();
    GoneAskSide();
    TopOfOne();
    SignalWithOneBid(OneBid(), RunRing(EmptyRing(false), []));
    SignalWithOneBid(AskThenBid(), RunRing(EmptyRing(false), [Quote(256, 1), Quote(256, 0)]));
  }

  lemma {:induction false} SignalWithOneBid(updates: seq<MarketUpdate>, asks: Ring)
    requires SideQuotes(updates, false) == [Quote(100, 1)] && CleanRun(EMPTY_SIDE, SideQuotes(updates, true))
    requires Run(EMPTY_SIDE, SideQuotes(updates, true)).levels == map[]
    requires asks == RunRing(EmptyRing(false), SideQuotes(updates, true))
    ensures var ask := asks.slots[asks.best].price;
            BookSignal(RunBook(EMPTY_BOOK, updates)) == SignalOfMicro(ask, 100, ask, 100)
  {
    hide CleanRun, SideQuotes, Run, RunBook, RunRing, Walk, Mid, TopLevels, Tracks;
    OneBidSide();
    TopOfOne();
    SidesAreIndependent(EMPTY_BOOK, updates);
    BookFollowsMaps(updates);
    var bids := Run(EMPTY_SIDE, [Quote(100, 1)]);
    assert bids.levels.Keys == {100};
    GreatestIs(bids.levels.Keys, 100);
    OneSidedSignal(RunBook(EMPTY_BOOK, updates), bids, Run(EMPTY_SIDE, SideQuotes(updates, true)));
  }

  // ----- micro momentum -----

  const MOMENTUM_WINDOW: nat := 20

  /** Buys minus everything else. */
  function Balance(sides: seq<Side>): (n: int)
    ensures -|sides| <= n <= |sides|
  {
    if sides == [] then 0
    else Balance(sides[..|sides| - 1]) + (if sides[|sides| - 1] == BUY then 1 else -1)
  }

  /** The updates since the last multiple of the window length before the n-th one. */
  function Window(sides: seq<Side>): seq<Side>
    requires sides != []
  {
    sides[(|sides| - 1) / MOMENTUM_WINDOW * MOMENTUM_WINDOW..]
  }

  class MicroMomentum {
    var aggBids: nat
    var aggAsks: nat
    var windowCount: nat
    /** Every update seen, in order. */
    ghost var history: seq<Side>

    ghost predicate Valid()
      reads this
    {
      && windowCount < MOMENTUM_WINDOW && windowCount == |history| % MOMENTUM_WINDOW
      && aggBids + aggAsks == windowCount
      && aggBids - aggAsks == Balance(history[|history| - windowCount..])
    }

    constructor ()
      ensures Valid() && history == []
    {
      aggBids, aggAsks, windowCount, history := 0, 0, 0, [];
    }

    /** Each signal is exactly 50 times the balance of the current window: the division leaves no
        remainder and the clamp changes nothing. */
    method OnMarketData(side: Side) returns (signal: int)
      requires Valid()
      modifies this
      ensures Valid() && history == old(history) + [side]
      ensures signal == 50 * Balance(Window(history))
    {
      hide CDiv, Balance, Window;
      ghost var before, earlier := history[|history| - windowCount..], history;
      if side == BUY { aggBids := aggBids + 1; } else { aggAsks := aggAsks + 1; }
      windowCount := windowCount + 1;
      history := history + [side];
      WindowGrows(earlier, side, windowCount);
      BalanceSnoc(before, side);
      var net := aggBids - aggAsks;
      FiftyTimes(net);
      signal := Clamp(CDiv(net * 1000, MOMENTUM_WINDOW), -1000, 1000);
      if windowCount >= MOMENTUM_WINDOW {
        aggBids, aggAsks, windowCount := 0, 0, 0;
      }
    }
  }

  /** One more update: the window it falls in, and what is left of it for the next one. */
  lemma WindowGrows(earlier: seq<Side>, side: Side, k: nat)
    requires 1 <= k <= MOMENTUM_WINDOW && k - 1 == |earlier| % MOMENTUM_WINDOW
    ensures k - 1 <= |earlier|
    ensures Window(earlier + [side]) == earlier[|earlier| - (k - 1)..] + [side]
    ensures var all := earlier + [side]; var left := if k == MOMENTUM_WINDOW then 0 else k;
            && left == |all| % MOMENTUM_WINDOW
            && all[|all| - left..] == if left == 0 then [] else Window(all)
  {
    WindowStart(|earlier| + 1, k);
  }

  lemma {:induction false} BalanceSnoc(sides: seq<Side>, side: Side)
    ensures Balance(sides + [side]) == Balance(sides) + (if side == BUY then 1 else -1)
    ensures Balance([]) == 0
  {
    assert (sides + [side])[..|sides|] == sides;
  }

  lemma WindowStart(n: nat, k: nat)
    requires 1 <= k <= MOMENTUM_WINDOW && k <= n && (k - 1) == (n - 1) % MOMENTUM_WINDOW
    ensures n - k == (n - 1) / MOMENTUM_WINDOW * MOMENTUM_WINDOW
    ensures k == MOMENTUM_WINDOW ==> n % MOMENTUM_WINDOW == 0
    ensures k < MOMENTUM_WINDOW ==> n % MOMENTUM_WINDOW == k
  {
  }

  lemma FiftyTimes(net: int)
    ensures CDiv(net * 1000, MOMENTUM_WINDOW) == 50 * net
  {
    var m := Abs(net);
    assert Abs(net * 1000) == m * 1000;
    assert m * 1000 == (50 * m) * 20;
    assert (m * 1000) / 20 == 50 * m;
  }
}
