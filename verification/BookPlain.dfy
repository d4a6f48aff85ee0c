/** The book in plain numbers: which prices are stored, dropped and removed, on maps alone, without
    slots, phases or named limits. */
module BookPlain {
  import opened CInt
  import opened BookSpec
  import opened BookRing
  import opened BookRefinement
  import opened BookRuns
  import opened MarketData
  import opened OrderBooks
  import opened BookTheorems

  /** For every side with a single level at p, however it lies in the array: another price is stored if
      and only if it is at most 64 ticks away. */
  lemma SecondLevel(r: Ring, p: int, q: int, quantity: int)
    requires Valid(r) && Levels(r).Keys == {p} && quantity != 0 && -0x8000_0000 < q - p < 0x8000_0000
    ensures Valid(Apply(r, q, quantity))
    ensures Levels(Apply(r, q, quantity)) == if -64 <= q - p <= 64 then Levels(r)[q := quantity] else Levels(r)
  {
    hide Apply, Levels;
    var s := Abstract(r);
    assert s.levels == Levels(r);
    LeastIs(s.levels.Keys, p);
    GreatestIs(s.levels.Keys, p);
    StepRefines(r, q, quantity);
  }

  /** What an update does to the levels of an unwrapped, direct-mapped side, quantity 0 being a removal. */
  ghost function PlainStep(m: map<int, int>, price: int, quantity: int): map<int, int> {
    if quantity == 0 then m - {price}
    else if m.Keys == {} then map[price := quantity]
    else
      var lo, hi := Least(m.Keys), Greatest(m.Keys);
      if (lo == hi && lo - 64 <= price <= lo + 64)
         || (lo != hi && lo - 64 <= price <= hi + 64 && price / 256 == lo / 256)
      then m[price := quantity]
      else m
  }

  /** Distances fit 32 bits, no removal names a price 256 or more ticks from a level with the same
      remainder, and a second level lies in the 256-tick block of the first. */
  ghost predicate PlainTame(m: map<int, int>, price: int, quantity: int) {
    if quantity == 0 then forall x :: x in m && x % 256 == price % 256 ==> x == price
    else
      && (forall x :: x in m ==> -0x8000_0000 < price - x < 0x8000_0000)
      && (m.Keys != {} && Least(m.Keys) == Greatest(m.Keys) && -64 <= price - Least(m.Keys) <= 64 ==>
            price / 256 == Least(m.Keys) / 256)
  }

  ghost function PlainRun(m: map<int, int>, updates: seq<Quote>): map<int, int>
    decreases |updates|
  {
    if updates == [] then m else PlainRun(PlainStep(m, updates[0].price, updates[0].quantity), updates[1..])
  }

  ghost predicate PlainTameRun(m: map<int, int>, updates: seq<Quote>)
    decreases |updates|
  {
    updates == [] ||
    (PlainTame(m, updates[0].price, updates[0].quantity)
     && PlainTameRun(PlainStep(m, updates[0].price, updates[0].quantity), updates[1..]))
  }

  lemma DirectSlots(s: SideBook, price: int)
    requires s.phase == 0
    ensures Slot(s, price) == price % 256
  {
    ResidueIsMod(price);
  }

  lemma PlainClean(s: SideBook, price: int, quantity: int)
    requires Unwrapped(s) && s.phase == 0 && PlainTame(s.levels, price, quantity)
    ensures Clean(s, price, quantity) && !Wraps(s, price, quantity)
  {
    if quantity == 0 {
      forall x | x in s.levels && Residue(x) == Residue(price) ensures x == price {
        ResidueIsMod(x);
        ResidueIsMod(price);
      }
    } else {
      UnwrappedAddIsClean(s, price, quantity);
      if s.levels.Keys != {} { DirectSlots(s, Least(s.levels.Keys)); }
    }
  }

  lemma PlainMapStep(s: SideBook, price: int, quantity: int)
    requires Unwrapped(s) && s.phase == 0 && price >= 0
    ensures Step(s, price, quantity) == SideBook(PlainStep(s.levels, price, quantity), 0)
  {
    if quantity != 0 && s.levels.Keys == {} {
      assert s.levels == map[];
      assert Residue(0) == 0;
    } else if quantity != 0 {
      ConfinedToBlock(s, price);
    }
  }

  /** One update of an unwrapped direct-mapped side is the plain step. */
  lemma SideUpdate(r: Ring, price: int, quantity: int)
    requires Valid(r) && Unwrapped(Abstract(r)) && Abstract(r).phase == 0
    requires price >= 0 && PlainTame(Levels(r), price, quantity)
    ensures Valid(Apply(r, price, quantity)) && Levels(Apply(r, price, quantity)) == PlainStep(Levels(r), price, quantity)
    ensures Unwrapped(Abstract(Apply(r, price, quantity))) && Abstract(Apply(r, price, quantity)).phase == 0
  {
    hide Apply, Levels, PlainStep, PlainTame, Unwrapped, Step, Clean;
    var s := Abstract(r);
    assert s.levels == Levels(r);
    PlainClean(s, price, quantity);
    StepRefines(r, price, quantity);
    PlainMapStep(s, price, quantity);
    UnwrappedStep(s, price, quantity);
    assert Abstract(Apply(r, price, quantity)).levels == Levels(Apply(r, price, quantity));
  }

  lemma {:induction false} SideRun(r: Ring, updates: seq<Quote>)
    requires Valid(r) && Unwrapped(Abstract(r)) && Abstract(r).phase == 0
    requires NonNegative(updates) && PlainTameRun(Levels(r), updates)
    ensures Levels(RunRing(r, updates)) == PlainRun(Levels(r), updates)
    decreases |updates|
  {
    hide Apply, Levels, PlainStep, PlainTame, Unwrapped, Abstract, Valid;
    assert r.Shape() by { ValidHasShape(r); }
    if updates != [] {
      assert updates[0].price >= 0;
      SideUpdate(r, updates[0].price, updates[0].quantity);
      SideRun(Apply(r, updates[0].price, updates[0].quantity), updates[1..]);
    }
  }

  lemma ValidHasShape(r: Ring)
    requires Valid(r)
    ensures r.Shape()
  {
  }

  // ----- whole books -----

  /** An ask update changes the asks only and any other update the bids only: from an empty book the two
      sides are the plain runs of the SELL and of the other updates. */
  lemma {:induction false} PlainBook(updates: seq<MarketUpdate>, asks: seq<Quote>, bids: seq<Quote>)
    requires forall i :: 0 <= i < |updates| ==> updates[i].price >= 0
    requires asks == Quotes(updates, {SELL}) && bids == Quotes(updates, {BUY, INVALID})
    requires PlainTameRun(map[], asks) && PlainTameRun(map[], bids)
    ensures Levels(RunBook(EMPTY_BOOK, updates).asks) == PlainRun(map[], asks)
    ensures Levels(RunBook(EMPTY_BOOK, updates).bids) == PlainRun(map[], bids)
  {
    hide Levels, PlainRun, PlainTameRun, RunBook, RunRing, Abstract, Unwrapped;
    SidesAreIndependent(EMPTY_BOOK, updates);
    QuotesAreSides(updates);
    EmptySides(false);
    EmptySides(true);
    NonNegativeQuotes(updates, {SELL});
    NonNegativeQuotes(updates, {BUY, INVALID});
    SideRun(EmptyRing(false), asks);
    SideRun(EmptyRing(true), bids);
  }

  /** The updates whose side is one of `sides`, in order. */
  function Quotes(updates: seq<MarketUpdate>, sides: set<Side>): seq<Quote> {
    if updates == [] then []
    else (if updates[0].side in sides then [Quote(updates[0].price, updates[0].quantity)] else []) + Quotes(updates[1..], sides)
  }

  lemma {:induction false} QuotesAreSides(updates: seq<MarketUpdate>)
    ensures SideQuotes(updates, true) == Quotes(updates, {SELL})
    ensures SideQuotes(updates, false) == Quotes(updates, {BUY, INVALID})
  {
    if updates != [] { QuotesAreSides(updates[1..]); }
  }

  lemma {:induction false} NonNegativeQuotes(updates: seq<MarketUpdate>, sides: set<Side>)
    requires forall i :: 0 <= i < |updates| ==> updates[i].price >= 0
    ensures NonNegative(Quotes(updates, sides))
  {
    if updates != [] { NonNegativeQuotes(updates[1..], sides); }
  }

  lemma EmptySides(bid: bool)
    ensures Valid(EmptyRing(bid)) && Levels(EmptyRing(bid)) == map[]
    ensures Unwrapped(Abstract(EmptyRing(bid))) && Abstract(EmptyRing(bid)).phase == 0
  {
    EmptyTracks(bid);
  }

  /** One update of a whole book: SELL is for the asks, anything else for the bids, and the other side
      stays as it is. */
  lemma BookUpdate(b: Book, u: MarketUpdate)
    requires b.Shape()
    requires var r := if u.side == SELL then b.asks else b.bids;
             Valid(r) && Unwrapped(Abstract(r)) && Abstract(r).phase == 0 && u.price >= 0 && PlainTame(Levels(r), u.price, u.quantity)
    ensures var b' := ApplyUpdate(b, u);
            if u.side == SELL then b'.bids == b.bids && Levels(b'.asks) == PlainStep(Levels(b.asks), u.price, u.quantity)
            else b'.asks == b.asks && Levels(b'.bids) == PlainStep(Levels(b.bids), u.price, u.quantity)
  {
    hide Apply, Levels, PlainStep, PlainTame, Unwrapped, Abstract, Valid;
    SideUpdate(if u.side == SELL then b.asks else b.bids, u.price, u.quantity);
  }

  /** After an ask at 1000 an ask at 1080 is dropped and one at 1064 is stored. */
  lemma SecondAsk()
    ensures var ask := MarketUpdate(0, SELL, 1000, 1, 0, 0, 0, 0);
            && Levels(RunBook(EMPTY_BOOK, [ask, ask.(price := 1080)]).asks) == map[1000 := 1]
            && Levels(RunBook(EMPTY_BOOK, [ask, ask.(price := 1064)]).asks) == map[1000 := 1, 1064 := 1]
  {
    hide Apply, Levels, Abstract, Valid, Unwrapped;
    var ask := MarketUpdate(0, SELL, 1000, 1, 0, 0, 0, 0);
    var r0 := EmptyRing(false);
    EmptySides(false);
    SideUpdate(r0, 1000, 1);
    var r1 := Apply(r0, 1000, 1);
    assert Levels(r1).Keys == {1000};
    SecondLevel(r1, 1000, 1080, 1);
    SecondLevel(r1, 1000, 1064, 1);
    TwoAsks(ask, 1080);
    TwoAsks(ask, 1064);
  }

  lemma TwoAsks(ask: MarketUpdate, price: int)
    requires ask.side == SELL
    ensures RunBook(EMPTY_BOOK, [ask, ask.(price := price)]).asks
            == Apply(Apply(EmptyRing(false), ask.price, ask.quantity), price, ask.quantity)
  {
    hide Apply;
    var us, b1 := [ask, ask.(price := price)], ApplyUpdate(EMPTY_BOOK, ask);
    assert us[1..] == [us[1]] && us[1..][1..] == [];
    assert RunBook(EMPTY_BOOK, us) == RunBook(b1, [us[1]]);
    assert RunBook(b1, [us[1]]) == RunBook(ApplyUpdate(b1, us[1]), [us[1]][1..]) == ApplyUpdate(b1, us[1]);
  }
}
