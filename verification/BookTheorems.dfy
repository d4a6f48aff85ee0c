/** Whole-book results: the two sides of a book follow two plain maps, and concrete runs on which
    the circular arrays part from the map. */
module BookTheorems {
  import opened CInt
  import opened BookSpec
  import opened BookRing
  import opened BookRefinement
  import opened BookRuns
  import opened BookMid
  import opened MarketData
  import opened OrderBooks

  function RunBook(b: Book, updates: seq<MarketUpdate>): (b': Book)
    requires b.Shape()
    ensures b'.Shape()
    decreases |updates|
  {
    if updates == [] then b else RunBook(ApplyUpdate(b, updates[0]), updates[1..])
  }

  /** The updates of one side, in order.  Everything that is not SELL goes to the bids. */
  function SideQuotes(updates: seq<MarketUpdate>, asks: bool): seq<Quote> {
    if updates == [] then []
    else
      var rest := SideQuotes(updates[1..], asks);
      if (updates[0].side == SELL) == asks then [Quote(updates[0].price, updates[0].quantity)] + rest
      else rest
  }

  /** Each side depends on its own updates only, and the exponents are those of the first update. */
  lemma {:induction false} SidesAreIndependent(b: Book, updates: seq<MarketUpdate>)
    requires b.Shape()
    ensures RunBook(b, updates).asks == RunRing(b.asks, SideQuotes(updates, true))
    ensures RunBook(b, updates).bids == RunRing(b.bids, SideQuotes(updates, false))
    ensures !b.expSet && updates != [] ==>
              RunBook(b, updates).priceExp == updates[0].priceExp && RunBook(b, updates).qtyExp == updates[0].qtyExp
    ensures b.expSet ==>
              RunBook(b, updates).priceExp == b.priceExp && RunBook(b, updates).qtyExp == b.qtyExp
    decreases |updates|
  {
    if updates != [] {
      var u, rest := updates[0], updates[1..];
      SidesAreIndependent(ApplyUpdate(b, u), rest);
      var asks := u.side == SELL;
      var tail := SideQuotes(rest, asks);
      assert ([Quote(u.price, u.quantity)] + tail)[1..] == tail;
    }
  }

  /** Both sides hold exactly their maps, the counters are the maps' sizes, the best getters show the
      least ask and the greatest bid with their quantities, and the mid price averages the best
      MID_PRICE_N levels of each side. */
  ghost predicate ShowsMaps(b: Book, asks: SideBook, bids: SideBook) {
    && b.Shape() && Tracks(b.asks, asks) && Tracks(b.bids, bids)
    && b.asks.count == |asks.levels| && b.bids.count == |bids.levels|
    && (asks.levels.Keys != {} ==>
          && b.asks.slots[b.asks.best].price == Least(asks.levels.Keys)
          && b.asks.slots[b.asks.best].quantity == asks.levels[Least(asks.levels.Keys)])
    && (bids.levels.Keys != {} ==>
          && b.bids.slots[b.bids.best].price == Greatest(bids.levels.Keys)
          && b.bids.slots[b.bids.best].quantity == bids.levels[Greatest(bids.levels.Keys)])
    && Mid(Walk(b.bids, b.bids.best, 0, 0), Walk(b.asks, b.asks.best, 0, 0))
       == Mid(TopLevels(bids.levels, true, MID_PRICE_N), TopLevels(asks.levels, false, MID_PRICE_N))
  }

  /** Every book whose two runs of updates are clean shows the two maps. */
  lemma {:induction false} BookFollowsMaps(updates: seq<MarketUpdate>)
    requires CleanRun(EMPTY_SIDE, SideQuotes(updates, true)) && CleanRun(EMPTY_SIDE, SideQuotes(updates, false))
    ensures ShowsMaps(RunBook(EMPTY_BOOK, updates), Run(EMPTY_SIDE, SideQuotes(updates, true)),
                      Run(EMPTY_SIDE, SideQuotes(updates, false)))
  {
    var b := RunBook(EMPTY_BOOK, updates);
    SidesAreIndependent(EMPTY_BOOK, updates);
    SideFollowsMap(false, SideQuotes(updates, true));
    SideFollowsMap(true, SideQuotes(updates, false));
    BestOfTracked(b.asks, Run(EMPTY_SIDE, SideQuotes(updates, true)));
    BestOfTracked(b.bids, Run(EMPTY_SIDE, SideQuotes(updates, false)));
    WalkOfTracked(b.asks, Run(EMPTY_SIDE, SideQuotes(updates, true)));
    WalkOfTracked(b.bids, Run(EMPTY_SIDE, SideQuotes(updates, false)));
  }

  lemma {:induction false} SideFollowsMap(bid: bool, quotes: seq<Quote>)
    requires CleanRun(EMPTY_SIDE, quotes)
    ensures Tracks(RunRing(EmptyRing(bid), quotes), Run(EMPTY_SIDE, quotes))
  {
    EmptyTracks(bid);
    RunRefines(EmptyRing(bid), quotes);
    assert quotes[..|quotes|] == quotes;
  }

  // ----- the mid price of a run -----

  ghost predicate QuantitiesWithin(updates: seq<MarketUpdate>, most: int) {
    forall i :: 0 <= i < |updates| ==> 0 <= updates[i].quantity <= most
  }

  ghost predicate PricesFit(updates: seq<MarketUpdate>) {
    forall i :: 0 <= i < |updates| ==> INT64_MIN <= updates[i].price <= INT64_MAX
  }

  ghost predicate QuotesWithin(quotes: seq<Quote>, lo: int, hi: int, most: int) {
    forall i :: 0 <= i < |quotes| ==> lo <= quotes[i].price <= hi && 0 <= quotes[i].quantity <= most
  }

  ghost predicate LevelsWithin(levels: map<int, int>, lo: int, hi: int, most: int) {
    forall p :: p in levels ==> lo <= p <= hi && 0 < levels[p] <= most
  }

  lemma {:induction false} SideWithin(updates: seq<MarketUpdate>, asks: bool, lo: int, hi: int, most: int)
    requires forall i :: 0 <= i < |updates| ==> lo <= updates[i].price <= hi && 0 <= updates[i].quantity <= most
    ensures QuotesWithin(SideQuotes(updates, asks), lo, hi, most)
  {
    if updates != [] { SideWithin(updates[1..], asks, lo, hi, most); }
  }

  /** A run of updates in range leaves levels in range, and none with quantity 0. */
  lemma {:induction false} RunWithin(s: SideBook, quotes: seq<Quote>, lo: int, hi: int, most: int)
    requires LevelsWithin(s.levels, lo, hi, most) && QuotesWithin(quotes, lo, hi, most)
    ensures LevelsWithin(Run(s, quotes).levels, lo, hi, most)
    decreases |quotes|
  {
    hide Accepts;
    if quotes != [] {
      assert lo <= quotes[0].price <= hi;
      RunWithin(Step(s, quotes[0].price, quotes[0].quantity), quotes[1..], lo, hi, most);
    }
  }

  ghost function PricesOf(quotes: seq<Quote>): set<int> {
    set i | 0 <= i < |quotes| :: quotes[i].price
  }

  lemma {:induction false} PositiveVolume(quotes: seq<Quote>)
    requires forall i :: 0 <= i < |quotes| ==> quotes[i].quantity > 0
    ensures Volume(quotes) >= |quotes|
  {
    if quotes != [] { PositiveVolume(quotes[1..]); }
  }

  /** The levels the mid price counts. */
  ghost function Counted(asks: SideBook, bids: SideBook): seq<Quote> {
    TopLevels(bids.levels, true, MID_PRICE_N) + TopLevels(asks.levels, false, MID_PRICE_N)
  }

  lemma {:induction false} TopWithin(levels: map<int, int>, bid: bool, lo: int, hi: int, most: int)
    requires LevelsWithin(levels, lo, hi, most)
    ensures var top := TopLevels(levels, bid, MID_PRICE_N);
            && |top| <= MID_PRICE_N && (top == [] <==> levels.Keys == {})
            && PricedWithin(top, lo, hi) && SizedWithin(top, 1, most)
  {
    hide TopLevels;
    TopLevelsSize(levels, bid, MID_PRICE_N);
    assert |levels| == |levels.Keys|;
  }

  lemma MidOfLevels(bids: seq<Quote>, asks: seq<Quote>)
    requires forall i :: 0 <= i < |bids| ==> bids[i].quantity > 0
    requires forall i :: 0 <= i < |asks| ==> asks[i].quantity > 0
    ensures var prices := PricesOf(bids + asks);
            if bids + asks == [] then Mid(bids, asks) == 0
            else prices != {} && Least(prices) <= Mid(bids, asks) <= Greatest(prices)
  {
    var all := bids + asks;
    var prices := PricesOf(all);
    PositiveVolume(bids);
    PositiveVolume(asks);
    if all != [] {
      assert all[0].price in prices;
      assert forall i :: 0 <= i < |bids| ==> bids[i] == all[i] && all[i].price in prices;
      assert forall i :: 0 <= i < |asks| ==> asks[i] == all[|bids| + i] && all[|bids| + i].price in prices;
      MidIsBetween(bids, asks, Least(prices), Greatest(prices));
    }
  }

  /** After every clean run without negative quantities the book's mid price is 0 when the book is empty
      and otherwise lies between the lowest and the highest of the prices it counts, the book's own best
      levels; with quantities up to MAX_QUANTITY its sums fit their machine words. */
  lemma {:induction false} MidOfCleanRun(updates: seq<MarketUpdate>, most: int)
    requires CleanRun(EMPTY_SIDE, SideQuotes(updates, true)) && CleanRun(EMPTY_SIDE, SideQuotes(updates, false))
    requires QuantitiesWithin(updates, most) && PricesFit(updates)
    ensures var b := RunBook(EMPTY_BOOK, updates);
            var asks, bids := Run(EMPTY_SIDE, SideQuotes(updates, true)), Run(EMPTY_SIDE, SideQuotes(updates, false));
            var walkB, walkA := Walk(b.bids, b.bids.best, 0, 0), Walk(b.asks, b.asks.best, 0, 0);
            && (asks.levels.Keys == {} && bids.levels.Keys == {} ==> Mid(walkB, walkA) == 0)
            && (asks.levels.Keys != {} || bids.levels.Keys != {} ==>
                  var prices := PricesOf(Counted(asks, bids));
                  prices != {} && Least(prices) <= Mid(walkB, walkA) <= Greatest(prices))
            && (most <= MAX_QUANTITY ==>
                  && 0 <= Volume(walkB) + Volume(walkA) <= INT64_MAX
                  && -INT128_MAX <= Value(walkB) + Value(walkA) <= INT128_MAX)
  {
    hide CleanRun, SideQuotes, Run, RunBook, Walk, Mid, TopLevels, Volume, Value, EMPTY_SIDE, Tracks;
    var asks, bids := Run(EMPTY_SIDE, SideQuotes(updates, true)), Run(EMPTY_SIDE, SideQuotes(updates, false));
    var b := RunBook(EMPTY_BOOK, updates);
    BookFollowsMaps(updates);
    WalkOfTracked(b.asks, asks);
    WalkOfTracked(b.bids, bids);
    assert LevelsWithin(EMPTY_SIDE.levels, INT64_MIN, INT64_MAX, most) by { EmptyWithin(most); }
    SideWithin(updates, true, INT64_MIN, INT64_MAX, most);
    SideWithin(updates, false, INT64_MIN, INT64_MAX, most);
    RunWithin(EMPTY_SIDE, SideQuotes(updates, true), INT64_MIN, INT64_MAX, most);
    RunWithin(EMPTY_SIDE, SideQuotes(updates, false), INT64_MIN, INT64_MAX, most);
    TopWithin(asks.levels, false, INT64_MIN, INT64_MAX, most);
    TopWithin(bids.levels, true, INT64_MIN, INT64_MAX, most);
    var topB, topA := TopLevels(bids.levels, true, MID_PRICE_N), TopLevels(asks.levels, false, MID_PRICE_N);
    MidOfLevels(topB, topA);
    if most <= MAX_QUANTITY { MidFitsMachineWords(topB, topA); }
  }

  lemma EmptyWithin(most: int)
    ensures LevelsWithin(EMPTY_SIDE.levels, INT64_MIN, INT64_MAX, most)
  {
  }

  // ----- concrete runs on which the arrays part from the map -----

  /** Adding 10 and removing 266, which shares its slot, empties the side: the level at 10 is lost. */
  lemma ForeignRemoval()
    ensures var quotes := [Quote(10, 5), Quote(266, 0)];
            && RunRing(EmptyRing(false), quotes).count == 0
            && Run(EMPTY_SIDE, quotes).levels == map[10 := 5]
  {
    var quotes := [Quote(10, 5), Quote(266, 0)];
    assert quotes[1..] == [Quote(266, 0)] && quotes[1..][1..] == [];
    var r := Apply(EmptyRing(false), 10, 5);
    assert Residue(10) == 10 && r.best == 10 && r.slots[10] == PriceLevel(10, 5, true);
    assert PriceToIndex(r, 266) == Residue(266) == 10;
    var s := Step(EMPTY_SIDE, 10, 5);
    assert s.levels == map[10 := 5];
    assert Step(s, 266, 0).levels == map[10 := 5];
  }

  ghost function TwoLevels(lo: int, hi: int): (s: SideBook)
    ensures s.levels.Keys == {lo, hi}
  {
    SideBook(map[lo := 1, hi := 1], 0)
  }

  lemma TwoLevelsEnds(lo: int, hi: int)
    requires lo < hi
    ensures Least(TwoLevels(lo, hi).levels.Keys) == lo && Greatest(TwoLevels(lo, hi).levels.Keys) == hi
  {
    LeastIs(TwoLevels(lo, hi).levels.Keys, lo);
    GreatestIs(TwoLevels(lo, hi).levels.Keys, hi);
  }

  /** A reachable window that wraps.  After 255 and 256 (slots 255 and 0) three extensions reach
      down to 63; an ask at 0 then passes both guards and lands on the slot of 256. */
  lemma WrappedOverrun()
    ensures var quotes := [Quote(255, 1), Quote(256, 1), Quote(191, 1), Quote(127, 1), Quote(63, 1)];
            var s := Run(EMPTY_SIDE, quotes);
            && CleanRun(EMPTY_SIDE, quotes)
            && 256 in s.levels && Slot(s, 0) == Slot(s, 256)
            && Accepts(s, 0) && !Clean(s, 0, 1)
  {
    var s1 := FirstStep(255);
    hide Step, Clean, Run, CleanRun, Accepts;
    RunStep(EMPTY_SIDE, Quote(255, 1), [Quote(256, 1), Quote(191, 1), Quote(127, 1), Quote(63, 1)]);
    Extend(s1, 255, 255, 256);
    var s2 := Step(s1, 256, 1);
    RunStep(s1, Quote(256, 1), [Quote(191, 1), Quote(127, 1), Quote(63, 1)]);
    Extend(s2, 255, 256, 191);
    var s3 := Step(s2, 191, 1);
    RunStep(s2, Quote(191, 1), [Quote(127, 1), Quote(63, 1)]);
    Extend(s3, 191, 256, 127);
    var s4 := Step(s3, 127, 1);
    RunStep(s3, Quote(127, 1), [Quote(63, 1)]);
    Extend(s4, 127, 256, 63);
    RunStep(s4, Quote(63, 1), []);
    LastStraw(Step(s4, 63, 1));
    assert [Quote(63, 1)] + [] == [Quote(63, 1)];
  }

  lemma FirstStep(price: int) returns (s: SideBook)
    requires 0 <= price
    ensures s == Step(EMPTY_SIDE, price, 1) && s.levels.Keys == {price} && s.phase == 0
    ensures Least(s.levels.Keys) == price && Greatest(s.levels.Keys) == price
    ensures Clean(EMPTY_SIDE, price, 1)
  {
    s := Step(EMPTY_SIDE, price, 1);
    assert s.levels == map[price := 1];
    LeastIs(s.levels.Keys, price);
    GreatestIs(s.levels.Keys, price);
  }

  lemma {:induction false} RunStep(s: SideBook, u: Quote, rest: seq<Quote>)
    ensures Run(s, [u] + rest) == Run(Step(s, u.price, u.quantity), rest)
    ensures CleanRun(s, [u] + rest) <==> Clean(s, u.price, u.quantity) && CleanRun(Step(s, u.price, u.quantity), rest)
    ensures Run(s, []) == s && CleanRun(s, [])
    ensures Run(Step(s, u.price, u.quantity), []) == Step(s, u.price, u.quantity)
    ensures CleanRun(Step(s, u.price, u.quantity), [])
  {
    assert ([u] + rest)[1..] == rest;
  }

  lemma LastStraw(s: SideBook)
    requires s.levels.Keys != {} && s.phase == 0
    requires Least(s.levels.Keys) == 63 && Greatest(s.levels.Keys) == 256
    ensures 256 in s.levels && Slot(s, 0) == Slot(s, 256) && Accepts(s, 0) && !Clean(s, 0, 1)
  {
    assert Residue(63) == 63 && Residue(256) == 0;
  }

  lemma Extend(s: SideBook, lo: int, hi: int, price: int)
    requires s.levels.Keys != {} && Least(s.levels.Keys) == lo && Greatest(s.levels.Keys) == hi && s.phase == 0
    requires (lo == hi && Abs(price - lo) <= MAX_SHIFT_STEP)
          || (lo < hi && 0 < lo - price <= MAX_SHIFT_STEP <= lo < LOB_DEPTH && hi - price < LOB_DEPTH)
    ensures Clean(s, price, 1)
    ensures var s' := Step(s, price, 1);
            && s'.levels.Keys == s.levels.Keys + {price} && s'.phase == 0
            && Least(s'.levels.Keys) == (if price < lo then price else lo)
            && Greatest(s'.levels.Keys) == (if price > hi then price else hi)
  {
    var s' := Step(s, price, 1);
    assert s'.levels.Keys == s.levels.Keys + {price};
    LeastIs(s'.levels.Keys, if price < lo then price else lo);
    GreatestIs(s'.levels.Keys, if price > hi then price else hi);
  }

  /** Two neighbouring prices are added one after the other. */
  lemma TwoLevelRun(lo: int)
    requires 0 <= lo
    ensures var quotes := [Quote(lo, 1), Quote(lo + 1, 1)];
            CleanRun(EMPTY_SIDE, quotes) && Run(EMPTY_SIDE, quotes) == TwoLevels(lo, lo + 1)
  {
    hide Run, CleanRun, Clean;
    var s := FirstStep(lo);
    Extend(s, lo, lo, lo + 1);
    RunStep(EMPTY_SIDE, Quote(lo, 1), [Quote(lo + 1, 1)]);
    RunStep(s, Quote(lo + 1, 1), []);
    assert [Quote(lo + 1, 1)] + [] == [Quote(lo + 1, 1)];
    assert [Quote(lo, 1)] + [Quote(lo + 1, 1)] == [Quote(lo, 1), Quote(lo + 1, 1)];
    assert s.levels == map[lo := 1];
  }

  /** After 10 and 11 a distance of exactly 2^32 narrows to zero and passes the guard, although the map
      drops the price. */
  lemma NarrowedDistance()
    ensures var s := Run(EMPTY_SIDE, [Quote(10, 1), Quote(11, 1)]);
            CleanRun(EMPTY_SIDE, [Quote(10, 1), Quote(11, 1)]) && s == TwoLevels(10, 11)
    ensures !Accepts(TwoLevels(10, 11), 11 + 0x1_0000_0000)
    ensures !Clean(TwoLevels(10, 11), 11 + 0x1_0000_0000, 1)
  {
    TwoLevelRun(10);
    TwoLevelsEnds(10, 11);
    assert Residue(11) == 11;
    assert Narrow32(0x1_0000_0000) == 0;
  }

  /** After 254 and 255 the price 256 is dropped, one tick away and far below MAX_SHIFT_STEP. */
  lemma NearPriceDropped()
    ensures var s := Run(EMPTY_SIDE, [Quote(254, 1), Quote(255, 1)]);
            CleanRun(EMPTY_SIDE, [Quote(254, 1), Quote(255, 1)]) && s == TwoLevels(254, 255) && !Accepts(s, 256)
  {
    TwoLevelRun(254);
    TwoLevelsEnds(254, 255);
    assert Residue(255) == 255;
  }
}
