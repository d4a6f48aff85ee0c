/** The circular arrays of one side refine the plain map: invariant, abstraction and the exact
    condition under which one update keeps both. */
module BookRefinement {
  import opened CInt
  import opened BookSpec
  import opened BookRing

  ghost function ActiveSlots(slots: seq<PriceLevel>): set<int> {
    set i | 0 <= i < |slots| && slots[i].active
  }

  /** The arc invariant.  Going up the circle from the lowest level, price offset equals slot
      offset, and every active slot is met no later than the highest level. */
  ghost predicate Valid(r: Ring) {
    && r.Shape()
    && r.count == |ActiveSlots(r.slots)|
    && (forall i :: 0 <= i < LOB_DEPTH && !r.slots[i].active ==> r.slots[i].quantity == 0)
    && (r.count == 0 ==> r.best == 0 && r.worst == 0)
    && (r.count > 0 ==>
          && r.slots[r.Lo()].active && r.slots[r.Hi()].active
          && forall i :: 0 <= i < LOB_DEPTH && r.slots[i].active ==>
               && r.slots[i].price == r.slots[r.Lo()].price + Off(r.Lo(), i)
               && Off(r.Lo(), i) <= Off(r.Lo(), r.Hi()))
  }

  ghost function LoPrice(r: Ring): int requires r.Shape() { r.slots[r.Lo()].price }
  ghost function HiPrice(r: Ring): int requires r.Shape() { r.slots[r.Hi()].price }

  /** The active slots read as a map. */
  ghost function Prices(slots: seq<PriceLevel>): set<int> {
    set i | i in ActiveSlots(slots) :: slots[i].price
  }

  ghost function QuantityAt(slots: seq<PriceLevel>, price: int): int
    requires price in Prices(slots)
  {
    var i :| i in ActiveSlots(slots) && slots[i].price == price;
    slots[i].quantity
  }

  ghost function Levels(r: Ring): map<int, int> {
    map p | p in Prices(r.slots) :: QuantityAt(r.slots, p)
  }

  ghost function Abstract(r: Ring): SideBook
    requires r.Shape()
  {
    SideBook(Levels(r), if r.count == 0 then 0 else Residue(r.Lo() - LoPrice(r)))
  }

  /** On a valid side, the level of slot i is the map entry at its price, and the price fixes the slot. */
  lemma LevelOfSlot(r: Ring, i: int)
    requires Valid(r) && 0 <= i < LOB_DEPTH && r.slots[i].active
    ensures r.slots[i].price in Levels(r) && Levels(r)[r.slots[i].price] == r.slots[i].quantity
    ensures LoPrice(r) <= r.slots[i].price <= HiPrice(r) < LoPrice(r) + LOB_DEPTH
    ensures forall j :: 0 <= j < LOB_DEPTH && r.slots[j].active && r.slots[j].price == r.slots[i].price ==> j == i
  {
    assert i in ActiveSlots(r.slots);
    assert r.count == 0 ==> ActiveSlots(r.slots) == {};
  }

  lemma SlotOfLevel(r: Ring, p: int) returns (i: int)
    requires r.Shape() && p in Levels(r)
    ensures 0 <= i < LOB_DEPTH && r.slots[i].active && r.slots[i].price == p
  {
    i :| i in ActiveSlots(r.slots) && r.slots[i].price == p;
  }

  /** The endpoints are the least and greatest keys. */
  lemma Endpoints(r: Ring)
    requires Valid(r) && r.count > 0
    ensures Levels(r).Keys != {}
    ensures Least(Levels(r).Keys) == LoPrice(r) && Greatest(Levels(r).Keys) == HiPrice(r)
    ensures r.best == r.worst <==> LoPrice(r) == HiPrice(r)
  {
    LevelOfSlot(r, r.Lo());
    LevelOfSlot(r, r.Hi());
    var a, b := Least(Levels(r).Keys), Greatest(Levels(r).Keys);
    var i := SlotOfLevel(r, a);
    var j := SlotOfLevel(r, b);
    LevelOfSlot(r, i);
    LevelOfSlot(r, j);
  }

  lemma EmptyLevels(r: Ring)
    requires Valid(r)
    ensures r.count == 0 <==> Levels(r).Keys == {}
    ensures r.count == 0 ==> forall i :: 0 <= i < LOB_DEPTH ==> !r.slots[i].active
  {
    if r.count == 0 {
      forall i | 0 <= i < LOB_DEPTH ensures !r.slots[i].active {
        assert i !in ActiveSlots(r.slots);
      }
      assert Prices(r.slots) == {};
    } else {
      LevelOfSlot(r, r.Lo());
    }
  }

  /** The code's index computation, seen from the lowest level. */
  lemma {:induction false} IndexFromLo(r: Ring, price: int)
    requires Valid(r) && r.count > 0
    ensures PriceToIndex(r, price) == At(r.Lo(), Residue(price - LoPrice(r)))
  {
    AtResidue(r.Lo(), price - LoPrice(r));
    if r.bid {
      AtResidue(r.best, price - HiPrice(r));
      HiToLo(r.Lo(), r.Hi(), price - LoPrice(r));
    }
  }

  lemma {:induction false} AtResidue(i: int, d: int)
    requires 0 <= i < LOB_DEPTH
    ensures At(i, Residue(d)) == Residue(i + d)
  {
    ResidueSum(i, d);
  }

  lemma HiToLo(lo: int, hi: int, d: int)
    requires 0 <= lo < LOB_DEPTH && 0 <= hi < LOB_DEPTH
    ensures Residue(hi + d - Off(lo, hi)) == Residue(lo + d)
  {
    ResidueIsMod(hi + d - Off(lo, hi));
    ResidueIsMod(lo + d);
  }

  // ----- one level written -----

  /** Writing one level whose slot is free or already holds that price. */
  ghost predicate Writes(r: Ring, r': Ring, index: int, price: int, quantity: int) {
    && r.Shape() && r'.Shape() && 0 <= index < LOB_DEPTH
    && r'.slots == r.slots[index := PriceLevel(price, quantity, true)]
    && r'.count == (if r.slots[index].active then r.count else r.count + 1)
  }

  lemma WritesCount(r: Ring, r': Ring, index: int, price: int, quantity: int)
    requires Writes(r, r', index, price, quantity) && r.count == |ActiveSlots(r.slots)|
    ensures ActiveSlots(r'.slots) == ActiveSlots(r.slots) + {index}
    ensures r'.count == |ActiveSlots(r'.slots)|
  {
    assert ActiveSlots(r'.slots) == ActiveSlots(r.slots) + {index};
  }

  lemma WritesLevels(r: Ring, r': Ring, index: int, price: int, quantity: int)
    requires Writes(r, r', index, price, quantity) && Valid(r) && Valid(r')
    requires r.slots[index].active ==> r.slots[index].price == price
    ensures Levels(r') == Levels(r)[price := quantity]
  {
    var want := Levels(r)[price := quantity];
    forall p ensures p in Levels(r') <==> p in want
    {
      if p in Levels(r') {
        var i := SlotOfLevel(r', p);
        if i != index { LevelOfSlot(r, i); }
      }
      if p in want {
        if p == price { LevelOfSlot(r', index); }
        else {
          var i := SlotOfLevel(r, p);
          LevelOfSlot(r', i);
        }
      }
    }
    forall p | p in want ensures p in Levels(r') && Levels(r')[p] == want[p]
    {
      if p == price { LevelOfSlot(r', index); }
      else {
        var i := SlotOfLevel(r, p);
        LevelOfSlot(r, i);
        LevelOfSlot(r', i);
      }
    }
  }

  /** Writing a price that leaves fewer than LOB_DEPTH ticks end to end keeps the arc invariant. */
  ghost predicate Puts(r: Ring, r': Ring, index: int, price: int, quantity: int) {
    && Valid(r) && r.count > 0 && Writes(r, r', index, price, quantity) && r'.bid == r.bid
    && HiPrice(r) - LOB_DEPTH < price < LoPrice(r) + LOB_DEPTH
    && index == At(r.Lo(), price - LoPrice(r))
    && r'.Lo() == (if price < LoPrice(r) then index else r.Lo())
    && r'.Hi() == (if price > HiPrice(r) then index else r.Hi())
  }

  lemma OffAt(a: int, o: int, i: int)
    requires 0 <= a < LOB_DEPTH && 0 <= i < LOB_DEPTH
    ensures 0 <= o < LOB_DEPTH ==> Off(a, At(a, o)) == o
    ensures -LOB_DEPTH < o < 0 && Off(a, i) - o < LOB_DEPTH ==> Off(At(a, o), i) == Off(a, i) - o
    ensures 0 <= At(a, Off(a, i)) < LOB_DEPTH && At(a, Off(a, i)) == i
  {
  }

  lemma PutKeepsArc(r: Ring, r': Ring, index: int, price: int, quantity: int)
    requires Puts(r, r', index, price, quantity)
    ensures Valid(r')
    ensures Levels(r') == Levels(r)[price := quantity]
    ensures Abstract(r').phase == Abstract(r).phase
  {
    hide Levels, Residue;
    WritesCount(r, r', index, price, quantity);
    PutSlotFree(r, r', index, price, quantity);
    assert Valid(r') by { PutArc(r, r', index, price, quantity); }
    WritesLevels(r, r', index, price, quantity);
    PutPhase(r, r', index, price, quantity);
  }

  lemma PutPhase(r: Ring, r': Ring, index: int, price: int, quantity: int)
    requires Puts(r, r', index, price, quantity)
    ensures Residue(r'.Lo() - LoPrice(r')) == Residue(r.Lo() - LoPrice(r))
  {
    PhaseOfAt(r.Lo(), LoPrice(r), price);
    if r'.Lo() != r.Lo() { assert LoPrice(r') == price; }
    else { PutSlotFree(r, r', index, price, quantity); }
  }

  lemma PhaseOfAt(lo: int, loPrice: int, price: int)
    requires 0 <= lo < LOB_DEPTH && -LOB_DEPTH < price - loPrice < LOB_DEPTH
    ensures Residue(At(lo, price - loPrice) - price) == Residue(lo - loPrice)
  {
    ResidueIsMod(At(lo, price - loPrice) - price);
    ResidueIsMod(lo - loPrice);
  }

  lemma PutSlotFree(r: Ring, r': Ring, index: int, price: int, quantity: int)
    requires Puts(r, r', index, price, quantity)
    ensures r.slots[index].active ==> r.slots[index].price == price
  {
    if r.slots[index].active {
      OffAt(r.Lo(), price - LoPrice(r), index);
      OffAt(r.Lo(), price - LoPrice(r), r.Hi());
      LevelOfSlot(r, index);
    }
  }

  lemma PutArc(r: Ring, r': Ring, index: int, price: int, quantity: int)
    requires Puts(r, r', index, price, quantity)
    ensures r'.slots[r'.Lo()].active && r'.slots[r'.Hi()].active
    ensures forall i :: 0 <= i < LOB_DEPTH && r'.slots[i].active ==>
              && r'.slots[i].price == r'.slots[r'.Lo()].price + Off(r'.Lo(), i)
              && Off(r'.Lo(), i) <= Off(r'.Lo(), r'.Hi())
  {
    var o := price - LoPrice(r);
    OffAt(r.Lo(), o, index);
    OffAt(r.Lo(), o, r.Hi());
    forall i | 0 <= i < LOB_DEPTH && r'.slots[i].active
      ensures r'.slots[i].price == r'.slots[r'.Lo()].price + Off(r'.Lo(), i)
      ensures Off(r'.Lo(), i) <= Off(r'.Lo(), r'.Hi())
    {
      if i != index {
        assert r.slots[i].active;
        OffAt(r.Lo(), o, i);
      }
    }
  }

  // ----- the add branches -----

  ghost predicate Refines(r: Ring, r': Ring, price: int, quantity: int)
    requires r.Shape()
  {
    Valid(r') && Abstract(r') == Step(Abstract(r), price, quantity)
  }

  lemma {:induction false} PhaseOfFirst(price: int)
    ensures Residue(Residue(Abs(price)) - price) == Residue(Abs(price) - price)
  {
    ResidueSum(-price, Abs(price));
  }

  lemma AddToEmpty(r: Ring, price: int, quantity: int)
    requires Valid(r) && r.count == 0 && quantity != 0
    ensures Refines(r, Add(r, price, quantity), price, quantity)
  {
    var r' := Add(r, price, quantity);
    var index := Residue(Abs(price));
    EmptyLevels(r);
    assert !r.slots[index].active;
    WritesCount(r, r', index, price, quantity);
    assert forall i :: 0 <= i < LOB_DEPTH && r'.slots[i].active ==> i == index;
    assert Valid(r');
    WritesLevels(r, r', index, price, quantity);
    PhaseOfFirst(price);
  }

  /** The map's own view of acceptance and of the slots its endpoints occupy. */
  lemma ViewSlots(r: Ring)
    requires Valid(r) && r.count > 0
    ensures Slot(Abstract(r), LoPrice(r)) == r.Lo() && Slot(Abstract(r), HiPrice(r)) == r.Hi()
  {
    assert HiPrice(r) == LoPrice(r) + Off(r.Lo(), r.Hi());
    SlotOfEndpoint(r.Lo(), LoPrice(r), 0);
    SlotOfEndpoint(r.Lo(), LoPrice(r), Off(r.Lo(), r.Hi()));
  }

  lemma View(r: Ring, price: int)
    requires Valid(r) && r.count > 0
    ensures Accepts(Abstract(r), price) ==
            if r.best == r.worst then Abs(price - LoPrice(r)) <= MAX_SHIFT_STEP
            else if LoPrice(r) <= price <= HiPrice(r) then true
            else if price < LoPrice(r) then LoPrice(r) - price <= MAX_SHIFT_STEP && r.Lo() - (LoPrice(r) - price) >= 0
            else price - HiPrice(r) <= MAX_SHIFT_STEP && r.Hi() + (price - HiPrice(r)) < LOB_DEPTH
  {
    Endpoints(r);
    ViewSlots(r);
    AcceptsBetween(Abstract(r), price, LoPrice(r), HiPrice(r));
  }

  /** For a price outside lo..hi: do the code's guards, which see the distance narrowed to 32 bits,
      let it through; how far outside is it really; how long is the side with it. */
  ghost predicate GuardsPass(price: int, lo: int, hi: int, loSlot: int, hiSlot: int) {
    if price < lo then Narrow32(lo - price) <= MAX_SHIFT_STEP && loSlot - Narrow32(lo - price) >= 0
    else Narrow32(price - hi) <= MAX_SHIFT_STEP && hiSlot + Narrow32(price - hi) < LOB_DEPTH
  }

  ghost function Beyond(price: int, lo: int, hi: int): int {
    if price < lo then lo - price else price - hi
  }

  ghost function SpanWith(price: int, lo: int, hi: int): int {
    if price < lo then hi - price else price - lo
  }

  ghost predicate Taken32(r: Ring, price: int)
    requires r.Shape()
  {
    GuardsPass(price, LoPrice(r), HiPrice(r), r.Lo(), r.Hi())
  }

  ghost function Gap(r: Ring, price: int): int
    requires r.Shape()
  {
    Beyond(price, LoPrice(r), HiPrice(r))
  }

  ghost function NewSpan(r: Ring, price: int): int
    requires r.Shape()
  {
    SpanWith(price, LoPrice(r), HiPrice(r))
  }

  lemma AcceptsBetween(s: SideBook, price: int, lo: int, hi: int)
    requires s.levels.Keys != {} && lo == Least(s.levels.Keys) && hi == Greatest(s.levels.Keys)
    ensures Accepts(s, price) ==
            if lo == hi then Abs(price - lo) <= MAX_SHIFT_STEP
            else if lo <= price <= hi then true
            else if price < lo then lo - price <= MAX_SHIFT_STEP && Slot(s, lo) - (lo - price) >= 0
            else price - hi <= MAX_SHIFT_STEP && Slot(s, hi) + (price - hi) < LOB_DEPTH
  {
  }

  lemma CleanOutside(s: SideBook, price: int, quantity: int, lo: int, hi: int)
    requires s.levels.Keys != {} && lo == Least(s.levels.Keys) && hi == Greatest(s.levels.Keys)
    requires lo != hi && quantity != 0 && !(lo <= price <= hi)
    ensures Clean(s, price, quantity) <==>
            (GuardsPass(price, lo, hi, Slot(s, lo), Slot(s, hi)) ==>
               Beyond(price, lo, hi) <= MAX_SHIFT_STEP && SpanWith(price, lo, hi) < LOB_DEPTH)
  {
  }

  lemma SlotOfEndpoint(lo: int, loPrice: int, o: int)
    requires 0 <= lo < LOB_DEPTH && 0 <= o < LOB_DEPTH
    ensures Residue(loPrice + o + Residue(lo - loPrice)) == At(lo, o)
  {
    ResidueSum(loPrice + o, lo - loPrice);
  }

  lemma Dropped(r: Ring, price: int, quantity: int)
    requires Valid(r) && quantity != 0 && !Accepts(Abstract(r), price)
    ensures Refines(r, r, price, quantity)
  {
  }

  lemma Taken(r: Ring, r': Ring, price: int, quantity: int)
    requires Valid(r) && r.count > 0 && quantity != 0 && Accepts(Abstract(r), price)
    requires Valid(r') && r'.count > 0 && Levels(r') == Levels(r)[price := quantity]
    requires Abstract(r').phase == Abstract(r).phase
    ensures Refines(r, r', price, quantity)
  {
    EmptyLevels(r);
  }

  lemma AddToSingle(r: Ring, price: int, quantity: int)
    requires Valid(r) && r.count > 0 && r.best == r.worst && quantity != 0
    ensures Clean(Abstract(r), price, quantity) <==> Refines(r, Add(r, price, quantity), price, quantity)
  {
    var d := Abs(price - LoPrice(r));
    if d <= MAX_SHIFT_STEP {
      SingleNear(r, price, quantity);
    } else if Narrow32(d) <= MAX_SHIFT_STEP {
      SingleFar(r, price, quantity);
    } else {
      SingleDropped(r, price, quantity);
    }
  }

  lemma SingleNear(r: Ring, price: int, quantity: int)
    requires Valid(r) && r.count > 0 && r.best == r.worst && quantity != 0
    requires Abs(price - LoPrice(r)) <= MAX_SHIFT_STEP
    ensures Clean(Abstract(r), price, quantity) <==> Refines(r, Add(r, price, quantity), price, quantity)
  {
    SinglePut(r, price, quantity);
    assert Accepts(Abstract(r), price) by { View(r, price); }
    Taken(r, Add(r, price, quantity), price, quantity);
    Endpoints(r);
  }

  lemma SingleFar(r: Ring, price: int, quantity: int)
    requires Valid(r) && r.count > 0 && r.best == r.worst && quantity != 0
    requires Narrow32(Abs(price - LoPrice(r))) <= MAX_SHIFT_STEP < Abs(price - LoPrice(r))
    ensures Clean(Abstract(r), price, quantity) <==> Refines(r, Add(r, price, quantity), price, quantity)
  {
    hide Residue, Narrow32, Add;
    var r' := Add(r, price, quantity);
    var index := PriceToIndex(r, price);
    SingleStores(r, price, quantity);
    assert !Accepts(Abstract(r), price) by { View(r, price); }
    NotDropped(r, r', index, price, quantity);
    assert !Clean(Abstract(r), price, quantity) by { Endpoints(r); }
  }

  lemma SingleStores(r: Ring, price: int, quantity: int)
    requires r.Shape() && r.count > 0 && r.best == r.worst
    requires Narrow32(Abs(price - LoPrice(r))) <= MAX_SHIFT_STEP
    ensures Add(r, price, quantity).slots == r.slots[PriceToIndex(r, price) := PriceLevel(price, quantity, true)]
  {
  }

  lemma OutsideStores(r: Ring, price: int, quantity: int)
    requires r.Shape() && r.count > 0 && r.best != r.worst && !(LoPrice(r) <= price <= HiPrice(r))
    requires LoPrice(r) <= HiPrice(r)
    requires Taken32(r, price)
    ensures var r' := Add(r, price, quantity);
            && r'.slots == r.slots[PriceToIndex(r, price) := PriceLevel(price, quantity, true)]
            && r'.count == r.count + 1
            && r'.Lo() == (if price < LoPrice(r) then PriceToIndex(r, price) else r.Lo())
            && r'.Hi() == (if price < LoPrice(r) then r.Hi() else PriceToIndex(r, price))
  {
  }

  lemma SingleDropped(r: Ring, price: int, quantity: int)
    requires Valid(r) && r.count > 0 && r.best == r.worst && quantity != 0
    requires Narrow32(Abs(price - LoPrice(r))) > MAX_SHIFT_STEP && Abs(price - LoPrice(r)) > MAX_SHIFT_STEP
    ensures Clean(Abstract(r), price, quantity) <==> Refines(r, Add(r, price, quantity), price, quantity)
  {
    assert !Accepts(Abstract(r), price) by { View(r, price); }
    Dropped(r, price, quantity);
    Endpoints(r);
  }

  lemma SinglePut(r: Ring, price: int, quantity: int)
    requires Valid(r) && r.count > 0 && r.best == r.worst && Abs(price - LoPrice(r)) <= MAX_SHIFT_STEP
    ensures Valid(Add(r, price, quantity))
    ensures Levels(Add(r, price, quantity)) == Levels(r)[price := quantity]
    ensures Abstract(Add(r, price, quantity)).phase == Abstract(r).phase && Add(r, price, quantity).count > 0
  {
    SingleSlot(r, price);
    PutKeepsArc(r, Add(r, price, quantity), PriceToIndex(r, price), price, quantity);
  }

  lemma SingleSlot(r: Ring, price: int)
    requires Valid(r) && r.count > 0 && r.best == r.worst
    requires Abs(price - LoPrice(r)) <= MAX_SHIFT_STEP
    ensures PriceToIndex(r, price) == At(r.best, price - LoPrice(r))
    ensures r.slots[PriceToIndex(r, price)].active <==> price == LoPrice(r)
    ensures PriceToIndex(r, price) == r.best <==> price == LoPrice(r)
  {
    IndexFromLo(r, price);
    AtResidue(r.best, price - LoPrice(r));
  }

  /** If the map drops an update whose price was nevertheless stored, the two disagree. */
  lemma NotDropped(r: Ring, r': Ring, index: int, price: int, quantity: int)
    requires Valid(r) && r.count > 0 && !(LoPrice(r) <= price <= HiPrice(r))
    requires r'.Shape() && 0 <= index < LOB_DEPTH && r'.slots[index] == PriceLevel(price, quantity, true)
    requires quantity != 0 && !Accepts(Abstract(r), price)
    ensures !Refines(r, r', price, quantity)
  {
    assert price !in Levels(r) by { Endpoints(r); }
    assert Step(Abstract(r), price, quantity) == Abstract(r);
    if Valid(r') { LevelOfSlot(r', index); }
  }

  lemma AddInside(r: Ring, price: int, quantity: int)
    requires Valid(r) && r.count > 0 && r.best != r.worst && quantity != 0
    requires LoPrice(r) <= price <= HiPrice(r)
    ensures Clean(Abstract(r), price, quantity) && Refines(r, Add(r, price, quantity), price, quantity)
  {
    var r' := Add(r, price, quantity);
    assert Accepts(Abstract(r), price) by { View(r, price); }
    assert Clean(Abstract(r), price, quantity) by { Endpoints(r); }
    IndexFromLo(r, price);
    PutKeepsArc(r, r', PriceToIndex(r, price), price, quantity);
    Taken(r, r', price, quantity);
  }

  /** The slot the code picks just outside the window, and that it is free. */
  lemma OutsideSlot(r: Ring, price: int)
    requires Valid(r) && r.count > 0 && !(LoPrice(r) <= price <= HiPrice(r))
    requires HiPrice(r) - LOB_DEPTH < price < LoPrice(r) + LOB_DEPTH
    ensures PriceToIndex(r, price) == At(r.Lo(), price - LoPrice(r))
    ensures !r.slots[PriceToIndex(r, price)].active
  {
    var index := PriceToIndex(r, price);
    IndexFromLo(r, price);
    AtResidue(r.Lo(), price - LoPrice(r));
    AtWrap(r.Lo(), price - LoPrice(r));
    if r.slots[index].active {
      LevelOfSlot(r, index);
      OffAt(r.Lo(), price - LoPrice(r), r.Hi());
      OffAt(r.Lo(), price - LoPrice(r), r.Lo());
    }
  }

  lemma {:induction false} AtWrap(i: int, d: int)
    requires 0 <= i < LOB_DEPTH && -LOB_DEPTH < d < LOB_DEPTH
    ensures At(i, d) == Residue(i + d)
  {
  }

  lemma ValidSpan(r: Ring)
    requires Valid(r) && r.count > 0
    ensures 0 <= HiPrice(r) - LoPrice(r) < LOB_DEPTH
    ensures r.best == r.worst ==> r.count == 1
  {
    if r.best == r.worst {
      forall i | i in ActiveSlots(r.slots) ensures i == r.best {
        OffAt(r.best, Off(r.best, i), i);
      }
      assert ActiveSlots(r.slots) == {r.best};
    }
  }

  /** An extension past LOB_DEPTH ticks cannot leave a valid ring. */
  lemma OverlongIsInvalid(r: Ring, r': Ring, index: int, price: int)
    requires Valid(r) && r.count > 0 && r'.Shape() && r'.count > 1
    requires 0 <= index < LOB_DEPTH && r'.slots[index].price == price
    requires forall i :: 0 <= i < LOB_DEPTH && i != index ==> r'.slots[i] == r.slots[i]
    requires (price <= HiPrice(r) - LOB_DEPTH && r'.Lo() == index && r'.Hi() == r.Hi())
          || (price >= LoPrice(r) + LOB_DEPTH && r'.Hi() == index && r'.Lo() == r.Lo())
    ensures !Valid(r')
  {
    if Valid(r') { ValidSpan(r'); }
  }

  ghost predicate Outside(r: Ring, price: int) {
    Valid(r) && r.count > 0 && r.best != r.worst && !(LoPrice(r) <= price <= HiPrice(r))
  }

  lemma OutsideView(r: Ring, price: int, quantity: int)
    requires Outside(r, price) && quantity != 0
    ensures Clean(Abstract(r), price, quantity) <==>
            (Taken32(r, price) ==> Gap(r, price) <= MAX_SHIFT_STEP && NewSpan(r, price) < LOB_DEPTH)
    ensures Accepts(Abstract(r), price) ==> Gap(r, price) <= MAX_SHIFT_STEP
    ensures Gap(r, price) <= MAX_SHIFT_STEP ==> (Accepts(Abstract(r), price) <==> Taken32(r, price))
  {
    View(r, price);
    CleanView(r, price, quantity);
  }

  lemma CleanView(r: Ring, price: int, quantity: int)
    requires Outside(r, price) && quantity != 0
    ensures Clean(Abstract(r), price, quantity) <==>
            (Taken32(r, price) ==> Gap(r, price) <= MAX_SHIFT_STEP && NewSpan(r, price) < LOB_DEPTH)
  {
    Endpoints(r);
    ViewSlots(r);
    CleanOutside(Abstract(r), price, quantity, LoPrice(r), HiPrice(r));
  }

  lemma OutsideKeeps(r: Ring, price: int, quantity: int)
    requires r.Shape() && r.count > 0 && r.best != r.worst && !(LoPrice(r) <= price <= HiPrice(r))
    requires LoPrice(r) <= HiPrice(r) && !Taken32(r, price)
    ensures Add(r, price, quantity) == r
  {
  }

  lemma OutsideDropped(r: Ring, price: int, quantity: int)
    requires Outside(r, price) && quantity != 0 && !Taken32(r, price)
    ensures Clean(Abstract(r), price, quantity) <==> Refines(r, Add(r, price, quantity), price, quantity)
  {
    OutsideView(r, price, quantity);
    OutsideKeeps(r, price, quantity);
    Dropped(r, price, quantity);
  }

  lemma OutsideFar(r: Ring, price: int, quantity: int)
    requires Outside(r, price) && quantity != 0 && Taken32(r, price) && Gap(r, price) > MAX_SHIFT_STEP
    ensures Clean(Abstract(r), price, quantity) <==> Refines(r, Add(r, price, quantity), price, quantity)
  {
    OutsideView(r, price, quantity);
    var r' := Add(r, price, quantity);
    var index := PriceToIndex(r, price);
    OutsideStores(r, price, quantity);
    NotDropped(r, r', index, price, quantity);
  }

  lemma OutsidePut(r: Ring, price: int, quantity: int)
    requires Outside(r, price) && quantity != 0 && Taken32(r, price)
    requires Gap(r, price) <= MAX_SHIFT_STEP && NewSpan(r, price) < LOB_DEPTH
    ensures Clean(Abstract(r), price, quantity) <==> Refines(r, Add(r, price, quantity), price, quantity)
  {
    OutsideView(r, price, quantity);
    OutsideSlot(r, price);
    PutKeepsArc(r, Add(r, price, quantity), PriceToIndex(r, price), price, quantity);
    Taken(r, Add(r, price, quantity), price, quantity);
  }

  lemma OutsideOverlong(r: Ring, price: int, quantity: int)
    requires Outside(r, price) && quantity != 0 && Taken32(r, price)
    requires Gap(r, price) <= MAX_SHIFT_STEP && NewSpan(r, price) >= LOB_DEPTH
    ensures Clean(Abstract(r), price, quantity) <==> Refines(r, Add(r, price, quantity), price, quantity)
  {
    OutsideView(r, price, quantity);
    var r' := Add(r, price, quantity);
    var index := PriceToIndex(r, price);
    OutsideStores(r, price, quantity);
    OverlongIsInvalid(r, r', index, price);
  }

  lemma AddOutside(r: Ring, price: int, quantity: int)
    requires Outside(r, price) && quantity != 0
    ensures Clean(Abstract(r), price, quantity) <==> Refines(r, Add(r, price, quantity), price, quantity)
  {
    if !Taken32(r, price) { OutsideDropped(r, price, quantity); }
    else if Gap(r, price) > MAX_SHIFT_STEP { OutsideFar(r, price, quantity); }
    else if NewSpan(r, price) < LOB_DEPTH { OutsidePut(r, price, quantity); }
    else { OutsideOverlong(r, price, quantity); }
  }

  // ----- the remove branch -----

  ghost function Steps(from: int, to: int, up: bool): int {
    if up then Off(from, to) else Off(to, from)
  }

  /** The scan stops at the nearest active slot in its direction. */
  lemma {:induction false} ScanFindsNearest(slots: seq<PriceLevel>, from: int, up: bool, i: int)
    requires |slots| == LOB_DEPTH && 0 <= from < LOB_DEPTH && 1 <= i <= LOB_DEPTH
    requires ActiveSlots(slots) != {} && from !in ActiveSlots(slots)
    requires forall j :: j in ActiveSlots(slots) ==> i <= Steps(from, j, up)
    ensures Scan(slots, from, up, i) in ActiveSlots(slots)
    ensures forall j :: j in ActiveSlots(slots) ==> Steps(from, Scan(slots, from, up, i), up) <= Steps(from, j, up)
    decreases LOB_DEPTH - i
  {
    SomeMember(ActiveSlots(slots));
    var some :| some in ActiveSlots(slots);
    assert Steps(from, some, up) < LOB_DEPTH;
    var c := At(from, if up then i else -i);
    assert Steps(from, c, up) == i;
    if !slots[c].active {
      forall j | j in ActiveSlots(slots) ensures i + 1 <= Steps(from, j, up) {
        assert j != c;
      }
      ScanFindsNearest(slots, from, up, i + 1);
    }
  }

  /** Deactivating one slot. */
  ghost predicate Erases(r: Ring, r': Ring, index: int) {
    && r.Shape() && r'.Shape() && r'.bid == r.bid && 0 <= index < LOB_DEPTH && r.slots[index].active
    && r'.slots == r.slots[index := r.slots[index].(active := false, quantity := 0)]
    && r'.count == r.count - 1
  }

  lemma ErasesCount(r: Ring, r': Ring, index: int)
    requires Erases(r, r', index) && r.count == |ActiveSlots(r.slots)|
    ensures ActiveSlots(r'.slots) == ActiveSlots(r.slots) - {index}
    ensures r'.count == |ActiveSlots(r'.slots)|
  {
    assert ActiveSlots(r'.slots) == ActiveSlots(r.slots) - {index};
  }

  lemma ErasesLevels(r: Ring, r': Ring, index: int)
    requires Erases(r, r', index) && Valid(r) && Valid(r')
    ensures Levels(r') == Levels(r) - {r.slots[index].price}
  {
    hide ActiveSlots;
    var want := Levels(r) - {r.slots[index].price};
    LevelOfSlot(r, index);
    forall p ensures p in Levels(r') <==> p in want
    {
      if p in Levels(r') {
        var i := SlotOfLevel(r', p);
        LevelOfSlot(r, i);
      }
      if p in want {
        var i := SlotOfLevel(r, p);
        LevelOfSlot(r', i);
      }
    }
    forall p | p in want ensures p in Levels(r') && Levels(r')[p] == want[p]
    {
      var i := SlotOfLevel(r, p);
      LevelOfSlot(r, i);
      LevelOfSlot(r', i);
    }
  }

  lemma RemoveErases(r: Ring, price: int)
    requires r.Shape() && r.count > 0 && r.slots[PriceToIndex(r, price)].active
    ensures Erases(r, Remove(r, price), PriceToIndex(r, price))
  {
  }

  lemma RemoveLast(r: Ring, price: int)
    requires Valid(r) && r.count == 1 && r.slots[PriceToIndex(r, price)].active
    ensures Valid(Remove(r, price))
  {
    var r' := Remove(r, price);
    RemoveErases(r, price);
    ErasesCount(r, r', PriceToIndex(r, price));
    assert ActiveSlots(r'.slots) == {};
  }

  lemma RemoveKeepsArc(r: Ring, price: int)
    requires Valid(r) && r.count > 1 && r.slots[PriceToIndex(r, price)].active
    ensures Valid(Remove(r, price))
    ensures Abstract(Remove(r, price)).phase == Abstract(r).phase
  {
    RemoveErases(r, price);
    RemoveEndpoints(r, price);
    ErasedKeepsArc(r, Remove(r, price), PriceToIndex(r, price));
  }

  lemma {:induction false} ErasedKeepsArc(r: Ring, r': Ring, index: int)
    requires Valid(r) && r.count > 1 && Erases(r, r', index)
    requires r'.best == if index == r.best then Scan(r'.slots, index, !r.bid, 1) else r.best
    requires r'.worst == if index != r.best && index == r.worst then Scan(r'.slots, index, r.bid, 1) else r.worst
    ensures Valid(r')
    ensures Abstract(r').phase == Abstract(r).phase
  {
    ErasedEndpoints(r, r', index);
    ErasedArc(r, r', index);
    PhaseOfAt(r.Lo(), LoPrice(r), LoPrice(r'));
  }

  lemma RemoveEndpoints(r: Ring, price: int)
    requires r.Shape() && r.count > 1 && r.slots[PriceToIndex(r, price)].active
    ensures var r' := Remove(r, price); var index := PriceToIndex(r, price);
            && r'.best == (if index == r.best then Scan(r'.slots, index, !r.bid, 1) else r.best)
            && r'.worst == (if index != r.best && index == r.worst then Scan(r'.slots, index, r.bid, 1) else r.worst)
  {
  }

  /** Where the endpoints land: unchanged, or the nearest remaining level. */
  ghost predicate EndsAfter(r: Ring, r': Ring, index: int)
    requires r.Shape() && r'.Shape()
  {
    && r'.Lo() in ActiveSlots(r'.slots) && r'.Hi() in ActiveSlots(r'.slots)
    && (index != r.Lo() ==> r'.Lo() == r.Lo())
    && (index != r.Hi() ==> r'.Hi() == r.Hi())
    && (index == r.Lo() ==> forall j :: j in ActiveSlots(r'.slots) ==> Off(index, r'.Lo()) <= Off(index, j))
    && (index == r.Hi() ==> forall j :: j in ActiveSlots(r'.slots) ==> Off(r'.Hi(), index) <= Off(j, index))
  }

  lemma {:induction false} ErasedEndpoints(r: Ring, r': Ring, index: int)
    requires Valid(r) && r.count > 1 && Erases(r, r', index)
    requires r'.best == if index == r.best then Scan(r'.slots, index, !r.bid, 1) else r.best
    requires r'.worst == if index != r.best && index == r.worst then Scan(r'.slots, index, r.bid, 1) else r.worst
    ensures EndsAfter(r, r', index)
  {
    ErasesCount(r, r', index);
    ValidSpan(r);
    assert r.best != r.worst by { if r.best == r.worst { ValidSpan(r); } }
    assert r.best in ActiveSlots(r.slots) && r.worst in ActiveSlots(r.slots);
    assert ActiveSlots(r'.slots) != {};
    ScanFindsNearest(r'.slots, index, true, 1);
    ScanFindsNearest(r'.slots, index, false, 1);
    assert forall j :: Steps(index, j, true) == Off(index, j) && Steps(index, j, false) == Off(j, index);
  }

  lemma ErasedArc(r: Ring, r': Ring, index: int)
    requires Valid(r) && r.count > 1 && Erases(r, r', index) && EndsAfter(r, r', index)
    ensures Valid(r')
    ensures LoPrice(r') == LoPrice(r) + Off(r.Lo(), r'.Lo()) && r'.Lo() == At(r.Lo(), LoPrice(r') - LoPrice(r))
  {
    hide Levels;
    ErasesCount(r, r', index);
    forall i | 0 <= i < LOB_DEPTH && r'.slots[i].active
      ensures r'.slots[i].price == r'.slots[r'.Lo()].price + Off(r'.Lo(), i)
      ensures Off(r'.Lo(), i) <= Off(r'.Lo(), r'.Hi())
    {
      assert i in ActiveSlots(r'.slots);
      assert r.slots[i] == r'.slots[i] && r.slots[r'.Lo()].active && r.slots[r'.Hi()].active;
    }
    OffAt(r.Lo(), 0, r'.Lo());
  }

  lemma ResidueShift(k: int, x: int, y: int)
    ensures Residue(k + x) == Residue(k + y) <==> Residue(x) == Residue(y)
  {
    ResidueSum(k, x);
    ResidueSum(k, y);
    ResidueSum(-k, k + x);
    ResidueSum(-k, k + y);
    assert -k + (k + x) == x && -k + (k + y) == y;
  }

  /** A map price shares the removed price's residue exactly when it sits in the slot the code looks at. */
  lemma {:induction false} SameSlot(r: Ring, i: int, price: int)
    requires Valid(r) && 0 <= i < LOB_DEPTH && r.slots[i].active
    ensures r.count > 0
    ensures Residue(r.slots[i].price) == Residue(price) <==> i == PriceToIndex(r, price)
  {
    hide Levels, PriceToIndex, Residue;
    LevelOfSlot(r, i);
    EmptyLevels(r);
    var x := r.slots[i].price;
    IndexFromLo(r, price);
    AtResidue(r.Lo(), price - LoPrice(r));
    AtWrap(r.Lo(), x - LoPrice(r));
    OffAt(r.Lo(), 0, i);
    assert i == Residue((r.Lo() - LoPrice(r)) + x);
    assert PriceToIndex(r, price) == Residue((r.Lo() - LoPrice(r)) + price);
    ResidueShift(r.Lo() - LoPrice(r), x, price);
  }

  lemma RemoveNothing(r: Ring, price: int)
    requires Valid(r) && r.count > 0 && !r.slots[PriceToIndex(r, price)].active
    ensures Clean(Abstract(r), price, 0) <==> Refines(r, Remove(r, price), price, 0)
  {
    forall x | x in Levels(r) ensures Residue(x) != Residue(price) {
      var i := SlotOfLevel(r, x);
      SameSlot(r, i, price);
    }
    EmptyLevels(r);
    assert Levels(r) - {price} == Levels(r);
  }

  lemma RemoveHit(r: Ring, price: int)
    requires Valid(r) && r.count > 0
    requires r.slots[PriceToIndex(r, price)].active && r.slots[PriceToIndex(r, price)].price == price
    ensures Clean(Abstract(r), price, 0) <==> Refines(r, Remove(r, price), price, 0)
  {
    var index := PriceToIndex(r, price);
    forall x | x in Levels(r) && Residue(x) == Residue(price) ensures x == price {
      var i := SlotOfLevel(r, x);
      SameSlot(r, i, price);
    }
    RemoveErases(r, price);
    if r.count == 1 { RemoveLast(r, price); } else { RemoveKeepsArc(r, price); }
    ErasesLevels(r, Remove(r, price), index);
    EmptyLevels(Remove(r, price));
  }

  /** Removing a price whose slot is held by another one deletes the wrong level. */
  lemma RemoveAliased(r: Ring, price: int)
    requires Valid(r) && r.count > 0
    requires r.slots[PriceToIndex(r, price)].active && r.slots[PriceToIndex(r, price)].price != price
    ensures !Clean(Abstract(r), price, 0) && !Refines(r, Remove(r, price), price, 0)
  {
    var r' := Remove(r, price);
    var index := PriceToIndex(r, price);
    var x := r.slots[index].price;
    LevelOfSlot(r, index);
    SameSlot(r, index, price);
    RemoveErases(r, price);
    if Valid(r') { ErasesLevels(r, r', index); }
  }

  /** The exact condition under which one update of the circular arrays is one step of the map. */
  lemma StepRefines(r: Ring, price: int, quantity: int)
    requires Valid(r)
    ensures Clean(Abstract(r), price, quantity)
            <==> Valid(Apply(r, price, quantity))
                 && Abstract(Apply(r, price, quantity)) == Step(Abstract(r), price, quantity)
  {
    EmptyLevels(r);
    if quantity == 0 {
      if r.count == 0 {
        assert Levels(r) - {price} == Levels(r);
      } else if !r.slots[PriceToIndex(r, price)].active { RemoveNothing(r, price); }
      else if r.slots[PriceToIndex(r, price)].price == price { RemoveHit(r, price); }
      else { RemoveAliased(r, price); }
    } else if r.count == 0 { AddToEmpty(r, price, quantity); }
    else if r.best == r.worst { AddToSingle(r, price, quantity); }
    else if LoPrice(r) <= price <= HiPrice(r) { AddInside(r, price, quantity); }
    else { AddOutside(r, price, quantity); }
  }
}
