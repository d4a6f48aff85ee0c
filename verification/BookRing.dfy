/** One side of the order book as the source stores it: LOB_DEPTH slots used circularly, two
    endpoint indices and a count.  The same functions serve both sides; `bid` says which endpoint
    is the best one. */
module BookRing {
  import opened CInt
  import opened BookSpec

  datatype PriceLevel = PriceLevel(price: int, quantity: int, active: bool)

  datatype Ring = Ring(bid: bool, slots: seq<PriceLevel>, best: int, worst: int, count: int) {
    /** Slot of the lowest and of the highest price. */
    function Lo(): int { if bid then worst else best }
    function Hi(): int { if bid then best else worst }

    predicate Shape() {
      |slots| == LOB_DEPTH && 0 <= best < LOB_DEPTH && 0 <= worst < LOB_DEPTH
    }
  }

  /** The slot `o` steps up the circle from `i`, and the number of steps from one slot up to another. */
  function At(i: int, o: int): int {
    if i + o >= LOB_DEPTH then i + o - LOB_DEPTH
    else if i + o < 0 then i + o + LOB_DEPTH
    else i + o
  }

  function Off(from: int, to: int): int {
    if to >= from then to - from else to - from + LOB_DEPTH
  }

  /** The slot of a price, relative to the best one. */
  function PriceToIndex(r: Ring, price: int): (index: int)
    requires r.Shape()
    ensures 0 <= index < LOB_DEPTH
  {
    Residue(r.best + (price - r.slots[r.best].price))
  }

  /** The endpoint scan after a removal: the first active slot 1, 2, ... steps from `from`,
      upward or downward; `from` itself when there is none. */
  function Scan(slots: seq<PriceLevel>, from: int, up: bool, i: int): (index: int)
    requires |slots| == LOB_DEPTH && 0 <= from < LOB_DEPTH && 1 <= i <= LOB_DEPTH
    ensures 0 <= index < LOB_DEPTH
    decreases LOB_DEPTH - i
  {
    if i == LOB_DEPTH then from
    else
      var c := At(from, if up then i else -i);
      if slots[c].active then c else Scan(slots, from, up, i + 1)
  }

  function Remove(r: Ring, price: int): (r': Ring)
    requires r.Shape()
    ensures r'.Shape() && r'.bid == r.bid
  {
    if r.count == 0 then r
    else
      var index := PriceToIndex(r, price);
      if !r.slots[index].active then r
      else
        var slots := r.slots[index := r.slots[index].(active := false, quantity := 0)];
        var r1 := r.(slots := slots, count := r.count - 1);
        if r1.count == 0 then r1.(best := 0, worst := 0)
        else if index == r.best then r1.(best := Scan(slots, index, !r.bid, 1))
        else if index == r.worst then r1.(worst := Scan(slots, index, r.bid, 1))
        else r1
  }

  function Add(r: Ring, price: int, quantity: int): (r': Ring)
    requires r.Shape()
    ensures r'.Shape() && r'.bid == r.bid
  {
    var level := PriceLevel(price, quantity, true);
    if r.count == 0 then
      var index := Residue(Abs(price));
      r.(slots := r.slots[index := level], best := index, worst := index, count := r.count + 1)
    else if r.best == r.worst then
      var step := Narrow32(Abs(price - r.slots[r.best].price));
      if step > MAX_SHIFT_STEP then r
      else
        var index := PriceToIndex(r, price);
        var r1 := if price > r.slots[r.best].price then (if r.bid then r.(best := index) else r.(worst := index))
                  else if price < r.slots[r.best].price then (if r.bid then r.(worst := index) else r.(best := index))
                  else r;
        var slots := r.slots[index := level];
        var other := if r1.best == index then r1.worst else r1.best;
        r1.(slots := slots, count := if price != slots[other].price then r.count + 1 else r.count)
    else if r.slots[r.Lo()].price <= price <= r.slots[r.Hi()].price then
      var index := PriceToIndex(r, price);
      r.(slots := r.slots[index := level],
         count := if r.slots[index].active then r.count else r.count + 1)
    else if (if r.bid then price <= r.slots[r.Hi()].price else price < r.slots[r.Lo()].price) then
      var step := Narrow32(r.slots[r.Lo()].price - price);
      if step > MAX_SHIFT_STEP || r.Lo() - step < 0 then r
      else
        var index := PriceToIndex(r, price);
        var r1 := r.(slots := r.slots[index := level], count := r.count + 1);
        if r.bid then r1.(worst := index) else r1.(best := index)
    else
      var step := Narrow32(price - r.slots[r.Hi()].price);
      if step > MAX_SHIFT_STEP || r.Hi() + step >= LOB_DEPTH then r
      else
        var index := PriceToIndex(r, price);
        var r1 := r.(slots := r.slots[index := level], count := r.count + 1);
        if r.bid then r1.(best := index) else r1.(worst := index)
  }

  function Apply(r: Ring, price: int, quantity: int): (r': Ring)
    requires r.Shape()
    ensures r'.Shape() && r'.bid == r.bid
  {
    if quantity == 0 then Remove(r, price) else Add(r, price, quantity)
  }

  function EmptyRing(bid: bool): (r: Ring)
    ensures r.Shape()
  {
    Ring(bid, seq(LOB_DEPTH, _ => PriceLevel(0, 0, false)), 0, 0, 0)
  }
}
