/** Whole runs of updates: when the circular arrays follow the plain map, and which runs need no
    condition on the price span. */
module BookRuns {
  import opened CInt
  import opened BookSpec
  import opened BookRing
  import opened BookRefinement

  function RunRing(r: Ring, updates: seq<Quote>): (r': Ring)
    requires r.Shape()
    ensures r'.Shape() && r'.bid == r.bid
    decreases |updates|
  {
    if updates == [] then r
    else RunRing(Apply(r, updates[0].price, updates[0].quantity), updates[1..])
  }

  ghost predicate Tracks(r: Ring, s: SideBook) {
    Valid(r) && Abstract(r) == s
  }

  lemma EmptyTracks(bid: bool)
    ensures Tracks(EmptyRing(bid), EMPTY_SIDE)
  {
    assert ActiveSlots(EmptyRing(bid).slots) == {};
    assert Levels(EmptyRing(bid)) == map[];
  }

  /** After every prefix of a run the arrays keep the arc invariant and hold exactly the map, if and only
      if every update is clean for the map state it meets. */
  lemma {:induction false} RunRefines(r: Ring, updates: seq<Quote>)
    requires Valid(r)
    ensures CleanRun(Abstract(r), updates)
            <==> forall n :: 0 <= n <= |updates| ==>
                   Tracks(RunRing(r, updates[..n]), Run(Abstract(r), updates[..n]))
    decreases |updates|
  {
    hide Apply, Step, Clean, Levels, ActiveSlots;
    if updates == [] {
      assert forall n :: 0 <= n <= |updates| ==> updates[..n] == [];
    } else {
      var u, rest := updates[0], updates[1..];
      var r1, s1 := Apply(r, u.price, u.quantity), Step(Abstract(r), u.price, u.quantity);
      StepRefines(r, u.price, u.quantity);
      forall n | 0 <= n <= |rest|
        ensures RunRing(r, updates[..n + 1]) == RunRing(r1, rest[..n])
        ensures Run(Abstract(r), updates[..n + 1]) == Run(s1, rest[..n])
      {
        assert updates[..n + 1][1..] == rest[..n];
      }
      if Clean(Abstract(r), u.price, u.quantity) {
        RunRefines(r1, rest);
        PrefixesShift(r, r1, s1, updates);
      } else {
        assert rest[..0] == [];
        assert !Tracks(RunRing(r, updates[..1]), Run(Abstract(r), updates[..1]));
      }
    }
  }

  lemma PrefixesShift(r: Ring, r1: Ring, s1: SideBook, updates: seq<Quote>)
    requires Valid(r) && r1.Shape() && updates != []
    requires forall n :: 0 <= n <= |updates| - 1 ==>
               && RunRing(r, updates[..n + 1]) == RunRing(r1, updates[1..][..n])
               && Run(Abstract(r), updates[..n + 1]) == Run(s1, updates[1..][..n])
    ensures (forall n :: 0 <= n <= |updates| ==>
               Tracks(RunRing(r, updates[..n]), Run(Abstract(r), updates[..n])))
            <==> (forall n :: 0 <= n <= |updates| - 1 ==>
                    Tracks(RunRing(r1, updates[1..][..n]), Run(s1, updates[1..][..n])))
  {
    hide Apply, Step, Levels, ActiveSlots;
    if forall n :: 0 <= n <= |updates| - 1 ==> Tracks(RunRing(r1, updates[1..][..n]), Run(s1, updates[1..][..n])) {
      forall n | 0 <= n <= |updates|
        ensures Tracks(RunRing(r, updates[..n]), Run(Abstract(r), updates[..n]))
      {
        if n > 0 {
          var k := n - 1;
          assert Tracks(RunRing(r1, updates[1..][..k]), Run(s1, updates[1..][..k]));
          assert updates[..k + 1] == updates[..n];
        }
      }
    }
    if forall n :: 0 <= n <= |updates| ==> Tracks(RunRing(r, updates[..n]), Run(Abstract(r), updates[..n])) {
      forall n | 0 <= n <= |updates| - 1
        ensures Tracks(RunRing(r1, updates[1..][..n]), Run(s1, updates[1..][..n]))
      {
        var k := n + 1;
        assert Tracks(RunRing(r, updates[..k]), Run(Abstract(r), updates[..k]));
        assert updates[..n + 1] == updates[..k];
      }
    }
  }

  /** What the getters show of a tracked side: its size and its extreme level. */
  lemma BestOfTracked(r: Ring, s: SideBook)
    requires Tracks(r, s)
    ensures r.count == |s.levels|
    ensures s.levels.Keys == {} ==> r.slots[r.best].quantity == 0
    ensures s.levels.Keys != {} ==>
              && r.slots[r.best].price == (if r.bid then Greatest(s.levels.Keys) else Least(s.levels.Keys))
              && r.slots[r.worst].price == (if r.bid then Least(s.levels.Keys) else Greatest(s.levels.Keys))
              && r.slots[r.best].quantity == s.levels[r.slots[r.best].price]
  {
    EmptyLevels(r);
    if r.count > 0 {
      Endpoints(r);
      LevelOfSlot(r, r.best);
    }
    CountIsSize(r, ActiveSlots(r.slots));
    assert Levels(r).Keys == Prices(r.slots);
    assert |Levels(r)| == |Levels(r).Keys|;
  }

  lemma {:induction false} CountIsSize(r: Ring, some: set<int>)
    requires Valid(r) && some <= ActiveSlots(r.slots)
    ensures |set i | i in some :: r.slots[i].price| == |some|
    decreases some
  {
    var image := set i | i in some :: r.slots[i].price;
    if some == {} {
      assert image == {};
    } else {
      SomeMember(some);
      var x :| x in some;
      CountIsSize(r, some - {x});
      var rest := set i | i in some - {x} :: r.slots[i].price;
      LevelOfSlot(r, x);
      assert r.slots[x].price !in rest;
      assert image == rest + {r.slots[x].price};
    }
  }

  // ----- runs that stay in an unwrapped window -----

  /** The window does not cross the end of the slot array. */
  ghost predicate Unwrapped(s: SideBook) {
    s.levels.Keys != {} ==>
      Slot(s, Least(s.levels.Keys)) + (Greatest(s.levels.Keys) - Least(s.levels.Keys)) < LOB_DEPTH
  }

  /** An accepted second level whose slot lies past an end of the array. */
  ghost predicate Wraps(s: SideBook, price: int, quantity: int) {
    quantity != 0 && s.levels.Keys != {} &&
    var lo, hi := Least(s.levels.Keys), Greatest(s.levels.Keys);
    lo == hi && Accepts(s, price) && !(0 <= Slot(s, lo) + (price - lo) < LOB_DEPTH)
  }

  ghost predicate NarrowIsExact(s: SideBook, price: int) {
    forall x :: x in s.levels ==> Abs(price - x) < 0x8000_0000
  }

  lemma {:induction false} LeastIs(s: set<int>, m: int)
    requires m in s && forall x :: x in s ==> m <= x
    ensures Least(s) == m
  {
  }

  lemma {:induction false} GreatestIs(s: set<int>, m: int)
    requires m in s && forall x :: x in s ==> x <= m
    ensures Greatest(s) == m
  {
  }

  /** In an unwrapped window consecutive prices take consecutive slots. */
  lemma SlotsInOrder(s: SideBook, lo: int, x: int)
    requires 0 <= x - lo && Slot(s, lo) + (x - lo) < LOB_DEPTH
    ensures Slot(s, x) == Slot(s, lo) + (x - lo)
  {
    ResidueSum(x - lo, lo + s.phase);
    assert x - lo + (lo + s.phase) == x + s.phase;
  }

  lemma SlotBelow(s: SideBook, lo: int, d: int)
    requires 0 <= d <= Slot(s, lo)
    ensures Slot(s, lo - d) == Slot(s, lo) - d
  {
    ResidueSum(-d, lo + s.phase);
    assert -d + (lo + s.phase) == lo - d + s.phase;
  }

  /** The linear edge guards alone keep an unwrapped window shorter than LOB_DEPTH. */
  lemma UnwrappedAddIsClean(s: SideBook, price: int, quantity: int)
    requires Unwrapped(s) && quantity != 0 && NarrowIsExact(s, price)
    ensures Clean(s, price, quantity)
  {
    if s.levels.Keys != {} {
      var lo, hi := Least(s.levels.Keys), Greatest(s.levels.Keys);
      assert lo in s.levels && hi in s.levels;
      SlotsInOrder(s, lo, hi);
    }
  }

  /** Unwrappedness is lost by exactly one kind of step. */
  lemma UnwrappedStep(s: SideBook, price: int, quantity: int)
    requires Unwrapped(s)
    ensures Unwrapped(Step(s, price, quantity)) <==> !Wraps(s, price, quantity)
  {
    if quantity == 0 { UnwrappedRemove(s, price); }
    else if s.levels.Keys == {} { FirstLevel(s, price, quantity); }
    else if Accepts(s, price) { UnwrappedAdd(s, price, quantity); }
  }

  lemma FirstLevel(s: SideBook, price: int, quantity: int)
    requires s.levels.Keys == {} && quantity != 0
    ensures Unwrapped(Step(s, price, quantity))
  {
    var s' := Step(s, price, quantity);
    assert s'.levels.Keys == {price};
    LeastIs(s'.levels.Keys, price);
    GreatestIs(s'.levels.Keys, price);
  }

  lemma UnwrappedRemove(s: SideBook, price: int)
    requires Unwrapped(s)
    ensures Unwrapped(Step(s, price, 0))
  {
    var s' := Step(s, price, 0);
    if s'.levels.Keys != {} {
      var lo, hi := Least(s.levels.Keys), Greatest(s.levels.Keys);
      var lo', hi' := Least(s'.levels.Keys), Greatest(s'.levels.Keys);
      assert lo' in s.levels && hi' in s.levels;
      SlotsInOrder(s, lo, lo');
    }
  }

  lemma UnwrappedAdd(s: SideBook, price: int, quantity: int)
    requires Unwrapped(s) && quantity != 0 && s.levels.Keys != {} && Accepts(s, price)
    ensures Unwrapped(Step(s, price, quantity)) <==> !Wraps(s, price, quantity)
  {
    var s' := Step(s, price, quantity);
    var lo, hi := Least(s.levels.Keys), Greatest(s.levels.Keys);
    assert s'.levels.Keys == s.levels.Keys + {price};
    LeastIs(s'.levels.Keys, if price < lo then price else lo);
    GreatestIs(s'.levels.Keys, if price > hi then price else hi);
    SlotsInOrder(s, lo, hi);
    if price < lo {
      if lo - price <= Slot(s, lo) { SlotBelow(s, lo, lo - price); }
      else { SlotWrapsBelow(s, lo, lo - price); }
    }
  }

  lemma SlotWrapsBelow(s: SideBook, lo: int, d: int)
    requires Slot(s, lo) < d <= MAX_SHIFT_STEP
    ensures Slot(s, lo - d) == Slot(s, lo) - d + LOB_DEPTH
  {
    ResidueSum(-d, lo + s.phase);
    assert -d + (lo + s.phase) == lo - d + s.phase;
  }

  /** Conditions that mention no price span: removals name no foreign slot, distances fit 32 bits,
      and no second level wraps. */
  ghost predicate TameRun(s: SideBook, updates: seq<Quote>)
    decreases |updates|
  {
    updates == [] ||
    var u := updates[0];
    && (u.quantity == 0 ==> Clean(s, u.price, 0))
    && (u.quantity != 0 ==> NarrowIsExact(s, u.price))
    && !Wraps(s, u.price, u.quantity)
    && TameRun(Step(s, u.price, u.quantity), updates[1..])
  }

  lemma {:induction false} TameRunIsClean(s: SideBook, updates: seq<Quote>)
    requires Unwrapped(s) && TameRun(s, updates)
    ensures CleanRun(s, updates) && Unwrapped(Run(s, updates))
    decreases |updates|
  {
    if updates != [] {
      var u := updates[0];
      if u.quantity != 0 { UnwrappedAddIsClean(s, u.price, u.quantity); }
      UnwrappedStep(s, u.price, u.quantity);
      TameRunIsClean(Step(s, u.price, u.quantity), updates[1..]);
    }
  }

  // ----- non-negative prices -----

  ghost predicate NonNegative(updates: seq<Quote>) {
    forall i :: 0 <= i < |updates| ==> updates[i].price >= 0
  }

  /** With non-negative prices the side is direct-mapped: the slot of a price is its residue. */
  lemma {:induction false} PhaseStaysZero(s: SideBook, updates: seq<Quote>)
    requires s.phase == 0 && NonNegative(updates)
    ensures Run(s, updates).phase == 0
    decreases |updates|
  {
    if updates != [] {
      assert updates[0].price >= 0;
      PhaseStaysZero(Step(s, updates[0].price, updates[0].quantity), updates[1..]);
    }
  }

  lemma DirectMapped(r: Ring, s: SideBook, i: int)
    requires Tracks(r, s) && 0 <= i < LOB_DEPTH && r.slots[i].active
    ensures i == Slot(s, r.slots[i].price)
    ensures s.phase == 0 ==> i == r.slots[i].price % LOB_DEPTH
  {
    LevelOfSlot(r, i);
    EmptyLevels(r);
    OffAt(r.Lo(), 0, i);
    SlotOfEndpoint(r.Lo(), LoPrice(r), Off(r.Lo(), i));
    ResidueIsMod(r.slots[i].price);
  }

  /** The price blocks [256 b, 256 b + 255].  An unwrapped direct-mapped side lies in one block, and
      with two levels or more it takes a price exactly when the price is at most 64 ticks outside the
      levels and in that block. */
  lemma ConfinedToBlock(s: SideBook, price: int)
    requires Unwrapped(s) && s.phase == 0 && s.levels.Keys != {}
    ensures Least(s.levels.Keys) / 256 == Greatest(s.levels.Keys) / 256
    ensures var lo, hi := Least(s.levels.Keys), Greatest(s.levels.Keys);
            lo != hi ==>
              (Accepts(s, price)
               <==> lo - 64 <= price <= hi + 64 && price / 256 == lo / 256)
  {
    var lo, hi := Least(s.levels.Keys), Greatest(s.levels.Keys);
    ResidueIsMod(lo);
    ResidueIsMod(hi);
    SlotsInOrder(s, lo, hi);
  }

  /** Put together for a side that starts empty and sees only non-negative prices. */
  lemma {:induction false} TameNonNegativeRun(bid: bool, updates: seq<Quote>)
    requires NonNegative(updates) && TameRun(EMPTY_SIDE, updates)
    ensures var r, s := RunRing(EmptyRing(bid), updates), Run(EMPTY_SIDE, updates);
            && Tracks(r, s)
            && (forall i :: 0 <= i < LOB_DEPTH && r.slots[i].active ==> i == r.slots[i].price % LOB_DEPTH)
            && (s.levels.Keys != {} ==> Least(s.levels.Keys) / LOB_DEPTH == Greatest(s.levels.Keys) / LOB_DEPTH)
  {
    var r, s := RunRing(EmptyRing(bid), updates), Run(EMPTY_SIDE, updates);
    EmptyTracks(bid);
    TameRunIsClean(EMPTY_SIDE, updates);
    RunRefines(EmptyRing(bid), updates);
    assert updates[..|updates|] == updates;
    PhaseStaysZero(EMPTY_SIDE, updates);
    forall i | 0 <= i < LOB_DEPTH && r.slots[i].active ensures i == r.slots[i].price % LOB_DEPTH {
      DirectMapped(r, s, i);
    }
    if s.levels.Keys != {} { ConfinedToBlock(s, 0); }
  }
}
