/** The order book object: two circular arrays updated in place, proved against the value-level
    functions of BookRing. */
module OrderBooks {
  import opened CInt
  import opened BookSpec
  import opened BookRing
  import opened BookRefinement
  import opened BookRuns
  import opened BookMid
  import opened MarketData

  /** The state of a book as a value. */
  datatype Book = Book(bids: Ring, asks: Ring, priceExp: int, qtyExp: int, expSet: bool) {
    predicate Shape() {
      bids.Shape() && bids.bid && asks.Shape() && !asks.bid
    }
  }

  const EMPTY_BOOK: Book := Book(EmptyRing(true), EmptyRing(false), 0, 0, false)

  function ApplyUpdate(b: Book, u: MarketUpdate): (b': Book)
    requires b.Shape()
    ensures b'.Shape()
  {
    var b1 := if b.expSet then b else b.(priceExp := u.priceExp, qtyExp := u.qtyExp, expSet := true);
    if u.side == SELL then b1.(asks := Apply(b.asks, u.price, u.quantity))
    else b1.(bids := Apply(b.bids, u.price, u.quantity))
  }

  lemma ScanStep(slots: seq<PriceLevel>, from: int, up: bool, i: int)
    requires |slots| == LOB_DEPTH && 0 <= from < LOB_DEPTH && 1 <= i < LOB_DEPTH
    ensures At(from, if up then i else -i) == (if up then from + i else from - i + LOB_DEPTH) % LOB_DEPTH
    ensures Scan(slots, from, up, i) ==
            if slots[At(from, if up then i else -i)].active then At(from, if up then i else -i)
            else Scan(slots, from, up, i + 1)
  {
  }

  lemma {:induction false} ScanEnd(slots: seq<PriceLevel>, from: int, up: bool)
    requires |slots| == LOB_DEPTH && 0 <= from < LOB_DEPTH
    ensures Scan(slots, from, up, LOB_DEPTH) == from
  {
  }

  /** One iteration of the mid-price loops. */
  lemma WalkSums(r: Ring, index: int, levels: nat, steps: nat)
    requires r.Shape() && 0 <= index < LOB_DEPTH
    ensures var level := r.slots[index]; var next := At(index, if r.bid then -1 else 1);
            var walk := Walk(r, index, levels, steps);
            if levels >= MID_PRICE_N || steps >= LOB_DEPTH then Value(walk) == 0 && Volume(walk) == 0
            else
              var rest := Walk(r, next, if level.active then levels + 1 else levels, steps + 1);
              && Value(walk) == (if level.active then level.price * level.quantity else 0) + Value(rest)
              && Volume(walk) == (if level.active then level.quantity else 0) + Volume(rest)
  {
  }

  class OrderBook {
    const bids: array<PriceLevel>
    const asks: array<PriceLevel>
    var bestBidIndex: int
    var worstBidIndex: int
    var bestAskIndex: int
    var worstAskIndex: int
    var numOfBids: int
    var numOfAsks: int
    var priceExp: int
    var qtyExp: int
    var expSet: bool

    ghost predicate Valid()
      reads this
    {
      && bids != asks && bids.Length == LOB_DEPTH && asks.Length == LOB_DEPTH
      && 0 <= bestBidIndex < LOB_DEPTH && 0 <= worstBidIndex < LOB_DEPTH
      && 0 <= bestAskIndex < LOB_DEPTH && 0 <= worstAskIndex < LOB_DEPTH
    }

    ghost function Bids(): (r: Ring)
      reads this, bids
      requires Valid()
      ensures r.Shape()
    {
      Ring(true, bids[..], bestBidIndex, worstBidIndex, numOfBids)
    }

    ghost function Asks(): (r: Ring)
      reads this, asks
      requires Valid()
      ensures r.Shape()
    {
      Ring(false, asks[..], bestAskIndex, worstAskIndex, numOfAsks)
    }

    ghost function State(): (b: Book)
      reads this, bids, asks
      requires Valid()
      ensures b.Shape()
    {
      Book(Bids(), Asks(), priceExp, qtyExp, expSet)
    }

    constructor ()
      ensures Valid() && State() == EMPTY_BOOK
      ensures fresh(bids) && fresh(asks)
    {
      bids := new PriceLevel[LOB_DEPTH](_ => PriceLevel(0, 0, false));
      asks := new PriceLevel[LOB_DEPTH](_ => PriceLevel(0, 0, false));
      bestBidIndex, worstBidIndex, bestAskIndex, worstAskIndex := 0, 0, 0, 0;
      numOfBids, numOfAsks := 0, 0;
      priceExp, qtyExp, expSet := 0, 0, false;
      new;
      assert bids[..] == EmptyRing(true).slots;
      assert asks[..] == EmptyRing(false).slots;
    }

    function PriceToIndex(price: int, isBid: bool): (index: int)
      reads this, bids, asks
      requires Valid()
      ensures 0 <= index < LOB_DEPTH
      ensures index == BookRing.PriceToIndex(if isBid then Bids() else Asks(), price)
    {
      var best := if isBid then bids[bestBidIndex].price else asks[bestAskIndex].price;
      var diff := CDiv(price - best, TICK_UNITS);
      var raw := (if isBid then bestBidIndex else bestAskIndex) + diff;
      ShiftedRem(raw);
      ResidueIsMod(raw);
      CRem(CRem(raw, LOB_DEPTH) + LOB_DEPTH, LOB_DEPTH)
    }

    /** The two endpoint scans; a side with no other active slot keeps the index it had. */
    static method ScanUp(levels: array<PriceLevel>, index: int) returns (found: int)
      requires levels.Length == LOB_DEPTH && 0 <= index < LOB_DEPTH
      ensures found == Scan(levels[..], index, true, 1)
    {
      hide Scan;
      found := index;
      for i := 1 to LOB_DEPTH
        invariant found == index
        invariant Scan(levels[..], index, true, 1) == Scan(levels[..], index, true, i)
      {
        var c := (index + i) % LOB_DEPTH;
        ScanStep(levels[..], index, true, i);
        if levels[c].active { found := c; break; }
      }
      ScanEnd(levels[..], index, true);
    }

    static method ScanDown(levels: array<PriceLevel>, index: int) returns (found: int)
      requires levels.Length == LOB_DEPTH && 0 <= index < LOB_DEPTH
      ensures found == Scan(levels[..], index, false, 1)
    {
      hide Scan;
      found := index;
      for i := 1 to LOB_DEPTH
        invariant found == index
        invariant Scan(levels[..], index, false, 1) == Scan(levels[..], index, false, i)
      {
        var c := (index - i + LOB_DEPTH) % LOB_DEPTH;
        ScanStep(levels[..], index, false, i);
        if levels[c].active { found := c; break; }
      }
      ScanEnd(levels[..], index, false);
    }

    method RemoveAsk(price: int)
      requires Valid()
      modifies this`bestAskIndex, this`worstAskIndex, this`numOfAsks, asks
      ensures Valid() && Asks() == Remove(old(Asks()), price)
    {
      hide PriceToIndex, BookRing.PriceToIndex, Residue, Narrow32, Scan;
      if numOfAsks == 0 { return; }
      var index := PriceToIndex(price, false);
      if !asks[index].active { return; }
      asks[index] := asks[index].(active := false, quantity := 0);
      numOfAsks := numOfAsks - 1;
      if numOfAsks == 0 {
        bestAskIndex, worstAskIndex := 0, 0;
        return;
      }
      if index == bestAskIndex {
        bestAskIndex := ScanUp(asks, index);
      } else if index == worstAskIndex {
        worstAskIndex := ScanDown(asks, index);
      }
    }

    method AddAsk(price: int, quantity: int)
      requires Valid()
      modifies this`bestAskIndex, this`worstAskIndex, this`numOfAsks, asks
      ensures Valid() && Asks() == Add(old(Asks()), price, quantity)
    {
      hide PriceToIndex, BookRing.PriceToIndex, Residue, Narrow32, Scan;
      if numOfAsks == 0 {
        var index := CRem(Abs(price), LOB_DEPTH);
        ResidueIsMod(Abs(price));
        asks[index] := PriceLevel(price, quantity, true);
        bestAskIndex, worstAskIndex := index, index;
        numOfAsks := numOfAsks + 1;
      } else if bestAskIndex == worstAskIndex {
        var step := Narrow32(Abs(price - asks[bestAskIndex].price));
        if step > MAX_SHIFT_STEP { return; }
        var index := PriceToIndex(price, false);
        if price > asks[bestAskIndex].price {
          worstAskIndex := index;
        } else if price < asks[bestAskIndex].price {
          bestAskIndex := index;
        }
        asks[index] := PriceLevel(price, quantity, true);
        if price != asks[if bestAskIndex == index then worstAskIndex else bestAskIndex].price {
          numOfAsks := numOfAsks + 1;
        }
      } else if price >= asks[bestAskIndex].price && price <= asks[worstAskIndex].price {
        var index := PriceToIndex(price, false);
        if !asks[index].active { numOfAsks := numOfAsks + 1; }
        asks[index] := PriceLevel(price, quantity, true);
      } else if price < asks[bestAskIndex].price {
        var step := Narrow32(asks[bestAskIndex].price - price);
        if step > MAX_SHIFT_STEP || bestAskIndex - step < 0 { return; }
        var index := PriceToIndex(price, false);
        bestAskIndex := index;
        asks[index] := PriceLevel(price, quantity, true);
        numOfAsks := numOfAsks + 1;
      } else {
        var step := Narrow32(price - asks[worstAskIndex].price);
        if step > MAX_SHIFT_STEP || worstAskIndex + step >= LOB_DEPTH { return; }
        var index := PriceToIndex(price, false);
        worstAskIndex := index;
        asks[index] := PriceLevel(price, quantity, true);
        numOfAsks := numOfAsks + 1;
      }
    }

    method RemoveBid(price: int)
      requires Valid()
      modifies this`bestBidIndex, this`worstBidIndex, this`numOfBids, bids
      ensures Valid() && Bids() == Remove(old(Bids()), price)
    {
      hide PriceToIndex, BookRing.PriceToIndex, Residue, Narrow32, Scan;
      if numOfBids == 0 { return; }
      var index := PriceToIndex(price, true);
      if !bids[index].active { return; }
      bids[index] := bids[index].(active := false, quantity := 0);
      numOfBids := numOfBids - 1;
      if numOfBids == 0 {
        bestBidIndex, worstBidIndex := 0, 0;
        return;
      }
      if index == bestBidIndex {
        bestBidIndex := ScanDown(bids, index);
      } else if index == worstBidIndex {
        worstBidIndex := ScanUp(bids, index);
      }
    }

    method AddBid(price: int, quantity: int)
      requires Valid()
      modifies this`bestBidIndex, this`worstBidIndex, this`numOfBids, bids
      ensures Valid() && Bids() == Add(old(Bids()), price, quantity)
    {
      hide PriceToIndex, BookRing.PriceToIndex, Residue, Narrow32, Scan;
      if numOfBids == 0 {
        var index := CRem(Abs(price), LOB_DEPTH);
        ResidueIsMod(Abs(price));
        bids[index] := PriceLevel(price, quantity, true);
        bestBidIndex, worstBidIndex := index, index;
        numOfBids := numOfBids + 1;
      } else if bestBidIndex == worstBidIndex {
        var step := Narrow32(Abs(price - bids[bestBidIndex].price));
        if step > MAX_SHIFT_STEP { return; }
        var index := PriceToIndex(price, true);
        if price > bids[bestBidIndex].price {
          bestBidIndex := index;
        } else if price < bids[bestBidIndex].price {
          worstBidIndex := index;
        }
        bids[index] := PriceLevel(price, quantity, true);
        if price != bids[if bestBidIndex == index then worstBidIndex else bestBidIndex].price {
          numOfBids := numOfBids + 1;
        }
      } else if price <= bids[bestBidIndex].price && price >= bids[worstBidIndex].price {
        var index := PriceToIndex(price, true);
        if !bids[index].active { numOfBids := numOfBids + 1; }
        bids[index] := PriceLevel(price, quantity, true);
      } else if price > bids[bestBidIndex].price {
        var step := Narrow32(price - bids[bestBidIndex].price);
        if step > MAX_SHIFT_STEP || bestBidIndex + step >= LOB_DEPTH { return; }
        var index := PriceToIndex(price, true);
        bestBidIndex := index;
        bids[index] := PriceLevel(price, quantity, true);
        numOfBids := numOfBids + 1;
      } else {
        var step := Narrow32(bids[worstBidIndex].price - price);
        if step > MAX_SHIFT_STEP || worstBidIndex - step < 0 { return; }
        var index := PriceToIndex(price, true);
        worstBidIndex := index;
        bids[index] := PriceLevel(price, quantity, true);
        numOfBids := numOfBids + 1;
      }
    }

    method AddUpdate(update: MarketUpdate)
      requires Valid()
      modifies this, bids, asks
      ensures Valid() && State() == ApplyUpdate(old(State()), update)
    {
      if !expSet {
        priceExp, qtyExp, expSet := update.priceExp, update.qtyExp, true;
      }
      if update.side == SELL {
        if update.quantity == 0 { RemoveAsk(update.price); } else { AddAsk(update.price, update.quantity); }
      } else {
        if update.quantity == 0 { RemoveBid(update.price); } else { AddBid(update.price, update.quantity); }
      }
    }

    method GetMidRaw() returns (mid: int)
      requires Valid()
      ensures mid == Mid(Walk(Bids(), bestBidIndex, 0, 0), Walk(Asks(), bestAskIndex, 0, 0))
    {
      hide Walk, Value, Volume;
      var bidsSum, bidsVol, asksSum, asksVol := 0, 0, 0, 0;
      ghost var all := Walk(Bids(), bestBidIndex, 0, 0);
      var idx, levels, steps := bestBidIndex, 0, 0;
      while levels < MID_PRICE_N && steps < LOB_DEPTH
        invariant 0 <= idx < LOB_DEPTH && 0 <= levels && 0 <= steps
        invariant bidsSum + Value(Walk(Bids(), idx, levels, steps)) == Value(all)
        invariant bidsVol + Volume(Walk(Bids(), idx, levels, steps)) == Volume(all)
        decreases LOB_DEPTH - steps
      {
        WalkSums(Bids(), idx, levels, steps);
        if bids[idx].active {
          bidsSum := bidsSum + bids[idx].price * bids[idx].quantity;
          bidsVol := bidsVol + bids[idx].quantity;
          levels := levels + 1;
        }
        idx := CRem(idx - 1 + LOB_DEPTH, LOB_DEPTH);
        steps := steps + 1;
      }
      WalkSums(Bids(), idx, levels, steps);
      ghost var allAsks := Walk(Asks(), bestAskIndex, 0, 0);
      idx, levels, steps := bestAskIndex, 0, 0;
      while levels < MID_PRICE_N && steps < LOB_DEPTH
        invariant 0 <= idx < LOB_DEPTH && 0 <= levels && 0 <= steps
        invariant asksSum + Value(Walk(Asks(), idx, levels, steps)) == Value(allAsks)
        invariant asksVol + Volume(Walk(Asks(), idx, levels, steps)) == Volume(allAsks)
        decreases LOB_DEPTH - steps
      {
        WalkSums(Asks(), idx, levels, steps);
        if asks[idx].active {
          asksSum := asksSum + asks[idx].price * asks[idx].quantity;
          asksVol := asksVol + asks[idx].quantity;
          levels := levels + 1;
        }
        idx := CRem(idx + 1, LOB_DEPTH);
        steps := steps + 1;
      }
      WalkSums(Asks(), idx, levels, steps);
      var totalVol := bidsVol + asksVol;
      if totalVol == 0 { return 0; }
      mid := CDiv(bidsSum + asksSum, totalVol);
    }

    /** The least price of whatever map the ask array holds; with no ask, a stale price. */
    method GetBestAskRaw() returns (p: int)
      requires Valid()
      ensures forall s :: Tracks(Asks(), s) && s.levels.Keys != {} ==> p == Least(s.levels.Keys)
      ensures p == Asks().slots[Asks().best].price
    {
      p := asks[bestAskIndex].price;
      forall s | Tracks(Asks(), s) { BestOfTracked(Asks(), s); }
    }

    /** The quantity at the least ask, 0 with no ask. */
    method GetBestAskQtyRaw() returns (q: int)
      requires Valid()
      ensures forall s :: Tracks(Asks(), s) ==>
                q == if s.levels.Keys == {} then 0 else s.levels[Least(s.levels.Keys)]
      ensures q == Asks().slots[Asks().best].quantity
    {
      q := asks[bestAskIndex].quantity;
      forall s | Tracks(Asks(), s) { BestOfTracked(Asks(), s); }
    }

    /** The greatest price of whatever map the bid array holds; with no bid, a stale price. */
    method GetBestBidRaw() returns (p: int)
      requires Valid()
      ensures forall s :: Tracks(Bids(), s) && s.levels.Keys != {} ==> p == Greatest(s.levels.Keys)
      ensures p == Bids().slots[Bids().best].price
    {
      p := bids[bestBidIndex].price;
      forall s | Tracks(Bids(), s) { BestOfTracked(Bids(), s); }
    }

    /** The quantity at the greatest bid, 0 with no bid. */
    method GetBestBidQtyRaw() returns (q: int)
      requires Valid()
      ensures forall s :: Tracks(Bids(), s) ==>
                q == if s.levels.Keys == {} then 0 else s.levels[Greatest(s.levels.Keys)]
      ensures q == Bids().slots[Bids().best].quantity
    {
      q := bids[bestBidIndex].quantity;
      forall s | Tracks(Bids(), s) { BestOfTracked(Bids(), s); }
    }
  }
}
