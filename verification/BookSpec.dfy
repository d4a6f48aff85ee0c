/** The reference model of one side of the order book: a plain map from price to quantity.
    `phase` records where the circular window was last anchored: while the side is non-empty,
    price p lives in slot (p + phase) modulo LOB_DEPTH. */
module BookSpec {
  import opened CInt

  const LOB_DEPTH: int := 256
  const TICK_UNITS: int := 1
  const MID_PRICE_N: int := 5
  const MAX_SHIFT_STEP: int := LOB_DEPTH / 4

  /** x modulo LOB_DEPTH. */
  function Residue(x: int): (i: int)
    ensures 0 <= i < LOB_DEPTH
    decreases x < 0, Abs(x)
  {
    if x >= LOB_DEPTH then Residue(x - LOB_DEPTH)
    else if x < 0 then Residue(x + LOB_DEPTH)
    else x
  }

  lemma {:induction false} ResidueIsMod(x: int)
    ensures Residue(x) == x % LOB_DEPTH
    decreases x < 0, Abs(x)
  {
    if x >= LOB_DEPTH { ResidueIsMod(x - LOB_DEPTH); }
    else if x < 0 { ResidueIsMod(x + LOB_DEPTH); }
  }

  lemma ResidueSum(x: int, y: int)
    ensures Residue(x + Residue(y)) == Residue(x + y)
  {
    ResidueIsMod(x + Residue(y));
    ResidueIsMod(y);
    ResidueIsMod(x + y);
  }

  datatype SideBook = SideBook(levels: map<int, int>, phase: int)

  const EMPTY_SIDE := SideBook(map[], 0)

  lemma SomeMember(s: set<int>)
    ensures s == {} || exists x :: x in s
  {
    if forall x :: x !in s {
      assert s == {};
    }
  }

  ghost function Least(s: set<int>): (m: int)
    requires s != {}
    ensures m in s
    ensures forall x :: x in s ==> m <= x
  {
    SomeMember(s);
    var x :| x in s;
    var rest := s - {x};
    assert forall y :: y in s ==> y == x || y in rest;
    if rest == {} then x
    else
      var y := Least(rest);
      if x < y then x else y
  }

  ghost function Greatest(s: set<int>): (m: int)
    requires s != {}
    ensures m in s
    ensures forall x :: x in s ==> x <= m
  {
    SomeMember(s);
    var x :| x in s;
    var rest := s - {x};
    assert forall y :: y in s ==> y == x || y in rest;
    if rest == {} then x
    else
      var y := Greatest(rest);
      if x > y then x else y
  }

  ghost function Slot(s: SideBook, price: int): (i: int) {
    Residue(price + s.phase)
  }

  /** Is an update to `price` with a non-zero quantity taken, or silently dropped? */
  ghost predicate Accepts(s: SideBook, price: int) {
    if s.levels.Keys == {} then true
    else
      var lo, hi := Least(s.levels.Keys), Greatest(s.levels.Keys);
      if lo == hi then Abs(price - lo) <= MAX_SHIFT_STEP
      else if lo <= price <= hi then true
      else if price < lo then lo - price <= MAX_SHIFT_STEP && Slot(s, lo) - (lo - price) >= 0
      else price - hi <= MAX_SHIFT_STEP && Slot(s, hi) + (price - hi) < LOB_DEPTH
  }

  /** What one update should do to the map: quantity zero deletes, an accepted quantity sets. */
  ghost function Step(s: SideBook, price: int, quantity: int): SideBook {
    if quantity == 0 then
      var levels := s.levels - {price};
      SideBook(levels, if levels.Keys == {} then 0 else s.phase)
    else if !Accepts(s, price) then s
    else
      SideBook(s.levels[price := quantity],
               if s.levels.Keys == {} then Residue(Abs(price) - price) else s.phase)
  }

  /** The condition, on the map and the update alone, under which the circular array keeps up
      with the map.  A removal must not name a slot held by another price; an add that the code's
      guards let through must really be within MAX_SHIFT_STEP ticks of the side (the guards look at
      a difference narrowed to 32 bits) and must leave fewer than LOB_DEPTH ticks end to end. */
  ghost predicate Clean(s: SideBook, price: int, quantity: int) {
    if quantity == 0 then
      forall x :: x in s.levels && Residue(x) == Residue(price) ==> x == price
    else if s.levels.Keys == {} then true
    else
      var lo, hi := Least(s.levels.Keys), Greatest(s.levels.Keys);
      if lo == hi then
        Narrow32(Abs(price - lo)) <= MAX_SHIFT_STEP ==> Abs(price - lo) <= MAX_SHIFT_STEP
      else if lo <= price <= hi then true
      else if price < lo then
        var step := Narrow32(lo - price);
        step <= MAX_SHIFT_STEP && Slot(s, lo) - step >= 0 ==>
          lo - price <= MAX_SHIFT_STEP && hi - price < LOB_DEPTH
      else
        var step := Narrow32(price - hi);
        step <= MAX_SHIFT_STEP && Slot(s, hi) + step < LOB_DEPTH ==>
          price - hi <= MAX_SHIFT_STEP && price - lo < LOB_DEPTH
  }

  datatype Quote = Quote(price: int, quantity: int)

  ghost function Run(s: SideBook, updates: seq<Quote>): SideBook
    decreases |updates|
  {
    if updates == [] then s
    else Run(Step(s, updates[0].price, updates[0].quantity), updates[1..])
  }

  ghost predicate CleanRun(s: SideBook, updates: seq<Quote>)
    decreases |updates|
  {
    updates == [] ||
    (Clean(s, updates[0].price, updates[0].quantity) &&
     CleanRun(Step(s, updates[0].price, updates[0].quantity), updates[1..]))
  }
}
