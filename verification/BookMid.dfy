/** The volume-weighted mid price: the walk over the slots against the best levels of the map. */
module BookMid {
  import opened CInt
  import opened BookSpec
  import opened BookRing
  import opened BookRefinement
  import opened BookRuns

  /** The levels met by walking the circle from `index` away from the best price, until
      MID_PRICE_N have been counted or the whole circle has been stepped over. */
  function Walk(r: Ring, index: int, levels: nat, steps: nat): (quotes: seq<Quote>)
    requires r.Shape() && 0 <= index < LOB_DEPTH
    decreases LOB_DEPTH - steps
  {
    if levels >= MID_PRICE_N || steps >= LOB_DEPTH then []
    else
      var next := At(index, if r.bid then -1 else 1);
      if r.slots[index].active then
        [Quote(r.slots[index].price, r.slots[index].quantity)] + Walk(r, next, levels + 1, steps + 1)
      else Walk(r, next, levels, steps + 1)
  }

  function Value(quotes: seq<Quote>): int {
    if quotes == [] then 0 else quotes[0].price * quotes[0].quantity + Value(quotes[1..])
  }

  function Volume(quotes: seq<Quote>): int {
    if quotes == [] then 0 else quotes[0].quantity + Volume(quotes[1..])
  }

  function Mid(bids: seq<Quote>, asks: seq<Quote>): int {
    if Volume(bids) + Volume(asks) == 0 then 0
    else CDiv(Value(bids) + Value(asks), Volume(bids) + Volume(asks))
  }

  /** The n best levels of a map, best first. */
  ghost function TopLevels(m: map<int, int>, bid: bool, n: nat): seq<Quote>
    decreases n
  {
    if n == 0 || m.Keys == {} then []
    else
      var p := if bid then Greatest(m.Keys) else Least(m.Keys);
      [Quote(p, m[p])] + TopLevels(m - {p}, bid, n - 1)
  }

  ghost function Away(bid: bool, best: int, p: int): int {
    if bid then best - p else p - best
  }

  /** The levels at least `steps` ticks away from the best price. */
  ghost function Farther(m: map<int, int>, bid: bool, best: int, steps: int): map<int, int> {
    map p | p in m && Away(bid, best, p) >= steps :: m[p]
  }

  ghost function WalkSlot(r: Ring, steps: int): int {
    At(r.best, if r.bid then -steps else steps)
  }

  /** The rest of the walk once it has taken `steps` steps. */
  ghost function WalkFrom(r: Ring, levels: nat, steps: nat): seq<Quote>
    requires r.Shape() && steps <= LOB_DEPTH
  {
    if steps == LOB_DEPTH then [] else Walk(r, WalkSlot(r, steps), levels, steps)
  }

  lemma WalkStep(r: Ring, levels: nat, steps: nat)
    requires r.Shape() && levels < MID_PRICE_N && steps < LOB_DEPTH
    ensures var level := r.slots[WalkSlot(r, steps)];
            WalkFrom(r, levels, steps) ==
            if level.active then [Quote(level.price, level.quantity)] + WalkFrom(r, levels + 1, steps + 1)
            else WalkFrom(r, levels, steps + 1)
  {
    var next := At(WalkSlot(r, steps), if r.bid then -1 else 1);
    assert steps + 1 < LOB_DEPTH ==> next == WalkSlot(r, steps + 1);
    assert steps + 1 == LOB_DEPTH ==> Walk(r, next, levels + 1, steps + 1) == [] && Walk(r, next, levels, steps + 1) == [];
  }

  lemma WalkSlotPrice(r: Ring, steps: nat)
    requires Valid(r) && r.count > 0 && steps < LOB_DEPTH
    ensures 0 <= WalkSlot(r, steps) < LOB_DEPTH
    ensures r.slots[WalkSlot(r, steps)].active ==>
              Away(r.bid, r.slots[r.best].price, r.slots[WalkSlot(r, steps)].price) == steps
  {
    OffAt(r.Lo(), 0, r.Hi());
  }

  /** A level exactly `steps` away can only sit in the slot the walk looks at. */
  lemma LevelAtStep(r: Ring, p: int, steps: nat)
    requires Valid(r) && r.count > 0 && p in Levels(r) && steps < LOB_DEPTH
    requires Away(r.bid, r.slots[r.best].price, p) == steps
    ensures r.slots[WalkSlot(r, steps)].active && r.slots[WalkSlot(r, steps)].price == p
  {
    var i := SlotOfLevel(r, p);
    LevelOfSlot(r, i);
    OffAt(r.Lo(), 0, i);
    OffAt(r.Lo(), 0, r.Hi());
  }

  /** What the rest of the walk should be: the best levels at least `steps` away. */
  ghost function TopFrom(r: Ring, levels: nat, steps: nat): seq<Quote>
    requires r.Shape() && levels <= MID_PRICE_N
  {
    TopLevels(Farther(Levels(r), r.bid, r.slots[r.best].price, steps), r.bid, MID_PRICE_N - levels)
  }

  lemma TopStep(r: Ring, levels: nat, steps: nat)
    requires Valid(r) && r.count > 0 && levels < MID_PRICE_N && steps < LOB_DEPTH
    ensures var level := r.slots[WalkSlot(r, steps)];
            TopFrom(r, levels, steps) ==
            if level.active then [Quote(level.price, level.quantity)] + TopFrom(r, levels + 1, steps + 1)
            else TopFrom(r, levels, steps + 1)
  {
    if r.slots[WalkSlot(r, steps)].active {
      NearestFirst(r, steps, MID_PRICE_N - levels);
    } else {
      SkipInactive(r, steps);
    }
  }

  lemma {:induction false} WalkIsTop(r: Ring, levels: nat, steps: nat)
    requires Valid(r) && r.count > 0 && levels <= MID_PRICE_N && steps <= LOB_DEPTH
    ensures WalkFrom(r, levels, steps) == TopFrom(r, levels, steps)
    decreases LOB_DEPTH - steps
  {
    hide WalkFrom, TopFrom;
    if steps == LOB_DEPTH || levels == MID_PRICE_N {
      WalkEnds(r, levels, steps);
    } else {
      WalkStep(r, levels, steps);
      TopStep(r, levels, steps);
      assert 0 <= WalkSlot(r, steps) < LOB_DEPTH;
      if r.slots[WalkSlot(r, steps)].active {
        WalkIsTop(r, levels + 1, steps + 1);
      } else {
        WalkIsTop(r, levels, steps + 1);
      }
    }
  }

  lemma WalkEnds(r: Ring, levels: nat, steps: nat)
    requires Valid(r) && r.count > 0 && levels <= MID_PRICE_N && steps <= LOB_DEPTH
    requires steps == LOB_DEPTH || levels == MID_PRICE_N
    ensures WalkFrom(r, levels, steps) == TopFrom(r, levels, steps)
  {
    if steps == LOB_DEPTH {
      NothingBeyondTheCircle(r);
    }
  }

  lemma NothingBeyondTheCircle(r: Ring)
    requires Valid(r) && r.count > 0
    ensures Farther(Levels(r), r.bid, r.slots[r.best].price, LOB_DEPTH).Keys == {}
  {
    forall p | p in Levels(r) ensures Away(r.bid, r.slots[r.best].price, p) < LOB_DEPTH {
      var i := SlotOfLevel(r, p);
      LevelOfSlot(r, i);
    }
  }

  lemma {:induction false} NearestFirst(r: Ring, steps: nat, n: nat)
    requires Valid(r) && r.count > 0 && steps < LOB_DEPTH && r.slots[WalkSlot(r, steps)].active && n > 0
    ensures var best := r.slots[r.best].price; var level := r.slots[WalkSlot(r, steps)];
            TopLevels(Farther(Levels(r), r.bid, best, steps), r.bid, n)
            == [Quote(level.price, level.quantity)] + TopLevels(Farther(Levels(r), r.bid, best, steps + 1), r.bid, n - 1)
  {
    var best, level := r.slots[r.best].price, r.slots[WalkSlot(r, steps)];
    WalkSlotPrice(r, steps);
    LevelOfSlot(r, WalkSlot(r, steps));
    FartherSplit(Levels(r), r.bid, best, steps, level.price);
  }

  lemma FartherSplit(m: map<int, int>, bid: bool, best: int, steps: int, p: int)
    requires p in m && Away(bid, best, p) == steps
    ensures var far := Farther(m, bid, best, steps);
            && p in far && p == (if bid then Greatest(far.Keys) else Least(far.Keys))
            && far - {p} == Farther(m, bid, best, steps + 1)
  {
    var far := Farther(m, bid, best, steps);
    assert p in far;
    if bid { GreatestIs(far.Keys, p); } else { LeastIs(far.Keys, p); }
  }

  lemma SkipInactive(r: Ring, steps: nat)
    requires Valid(r) && r.count > 0 && steps < LOB_DEPTH && !r.slots[WalkSlot(r, steps)].active
    ensures var best := r.slots[r.best].price;
            Farther(Levels(r), r.bid, best, steps) == Farther(Levels(r), r.bid, best, steps + 1)
  {
    var best := r.slots[r.best].price;
    forall p | p in Levels(r) && Away(r.bid, best, p) == steps ensures false {
      LevelAtStep(r, p, steps);
    }
  }

  lemma {:induction false} WalkOfNothing(r: Ring, index: int, levels: nat, steps: nat)
    requires r.Shape() && 0 <= index < LOB_DEPTH
    requires forall i :: 0 <= i < LOB_DEPTH ==> !r.slots[i].active
    ensures Walk(r, index, levels, steps) == []
    decreases LOB_DEPTH - steps
  {
    if levels < MID_PRICE_N && steps < LOB_DEPTH {
      WalkOfNothing(r, At(index, if r.bid then -1 else 1), levels, steps + 1);
    }
  }

  /** The walk counts exactly the best min(MID_PRICE_N, size) levels of the map, best first. */
  lemma {:induction false} WalkOfTracked(r: Ring, s: SideBook)
    requires Tracks(r, s)
    ensures Walk(r, r.best, 0, 0) == TopLevels(s.levels, r.bid, MID_PRICE_N)
  {
    EmptyLevels(r);
    if r.count == 0 {
      WalkOfNothing(r, r.best, 0, 0);
    } else {
      WalkIsTop(r, 0, 0);
      AllAway(r);
    }
  }

  lemma AllAway(r: Ring)
    requires Valid(r) && r.count > 0
    ensures Farther(Levels(r), r.bid, r.slots[r.best].price, 0) == Levels(r)
  {
    forall p | p in Levels(r) ensures Away(r.bid, r.slots[r.best].price, p) >= 0 {
      var i := SlotOfLevel(r, p);
      LevelOfSlot(r, i);
    }
  }

  lemma {:induction false} TopLevelsSize(m: map<int, int>, bid: bool, n: nat)
    ensures |TopLevels(m, bid, n)| == if |m| < n then |m| else n
    ensures forall i :: 0 <= i < |TopLevels(m, bid, n)| ==>
              TopLevels(m, bid, n)[i].price in m && m[TopLevels(m, bid, n)[i].price] == TopLevels(m, bid, n)[i].quantity
    decreases n
  {
    assert |m| == |m.Keys|;
    if n > 0 && m.Keys != {} {
      var p := if bid then Greatest(m.Keys) else Least(m.Keys);
      TopLevelsSize(m - {p}, bid, n - 1);
      assert (m - {p}).Keys == m.Keys - {p};
      assert |m - {p}| == |(m - {p}).Keys|;
    }
  }

  // ----- bounds -----

  ghost predicate PricedWithin(quotes: seq<Quote>, lo: int, hi: int) {
    forall i :: 0 <= i < |quotes| ==> lo <= quotes[i].price <= hi
  }

  ghost predicate SizedWithin(quotes: seq<Quote>, lo: int, hi: int) {
    forall i :: 0 <= i < |quotes| ==> lo <= quotes[i].quantity <= hi
  }

  lemma {:induction false} ValueBounds(quotes: seq<Quote>, lo: int, hi: int)
    requires PricedWithin(quotes, lo, hi) && forall i :: 0 <= i < |quotes| ==> quotes[i].quantity >= 0
    ensures lo * Volume(quotes) <= Value(quotes) <= hi * Volume(quotes)
  {
    if quotes != [] {
      var q, v := quotes[0], Volume(quotes[1..]);
      ValueBounds(quotes[1..], lo, hi);
      MulMono(lo, q.price, q.quantity);
      MulMono(q.price, hi, q.quantity);
      Distribute(lo, q.quantity, v);
      Distribute(hi, q.quantity, v);
    }
  }

  lemma {:induction false} VolumeBounds(quotes: seq<Quote>, most: nat)
    requires SizedWithin(quotes, 0, most)
    ensures 0 <= Volume(quotes) <= |quotes| * most
  {
    if quotes != [] {
      VolumeBounds(quotes[1..], most);
      Distribute(most, 1, |quotes[1..]|);
    }
  }

  /** With non-negative quantities and some volume the mid lies between the counted prices. */
  lemma {:induction false} MidIsBetween(bids: seq<Quote>, asks: seq<Quote>, lo: int, hi: int)
    requires PricedWithin(bids, lo, hi) && PricedWithin(asks, lo, hi)
    requires forall i :: 0 <= i < |bids| ==> bids[i].quantity >= 0
    requires forall i :: 0 <= i < |asks| ==> asks[i].quantity >= 0
    requires Volume(bids) + Volume(asks) > 0
    ensures lo <= Mid(bids, asks) <= hi
  {
    ValueBounds(bids, lo, hi);
    ValueBounds(asks, lo, hi);
    Distribute(lo, Volume(bids), Volume(asks));
    Distribute(hi, Volume(bids), Volume(asks));
    CDivBounds(Value(bids) + Value(asks), Volume(bids) + Volume(asks), lo, hi);
  }

  const INT64_MIN: int := -0x8000_0000_0000_0000
  const INT64_MAX: int := 0x7FFF_FFFF_FFFF_FFFF
  const MAX_QUANTITY: int := 922_337_203_685_477_580
  const INT128_MAX: int := 0x7FFF_FFFF_FFFF_FFFF_FFFF_FFFF_FFFF_FFFF

  /** The accumulators fit their types when every quantity is at most (2^63 - 1) / 10. */
  lemma {:induction false} MidFitsMachineWords(bids: seq<Quote>, asks: seq<Quote>)
    requires |bids| <= MID_PRICE_N && |asks| <= MID_PRICE_N
    requires PricedWithin(bids, INT64_MIN, INT64_MAX) && PricedWithin(asks, INT64_MIN, INT64_MAX)
    requires SizedWithin(bids, 0, MAX_QUANTITY) && SizedWithin(asks, 0, MAX_QUANTITY)
    ensures 0 <= Volume(bids) + Volume(asks) <= INT64_MAX
    ensures -INT128_MAX <= Value(bids) + Value(asks) <= INT128_MAX
  {
    VolumeBounds(bids, MAX_QUANTITY);
    VolumeBounds(asks, MAX_QUANTITY);
    ValueBounds(bids, INT64_MIN, INT64_MAX);
    ValueBounds(asks, INT64_MIN, INT64_MAX);
  }
}
