/** The single-producer single-consumer ring: the object as one thread sees it. */
module LFQueues {
  import opened ModArith

  /** The cell `k` places after cell `i`. */
  function Cell(i: nat, k: nat, size: nat): (c: nat)
    requires size > 0
    ensures c < size
  {
    (i + k) % size
  }

  lemma CellAfter(i: nat, j: nat, k: nat, size: nat)
    requires size > 0
    ensures Cell(Cell(i, j, size), k, size) == Cell(i, j + k, size)
  {
    ModAdd(i + j, k, size);
  }

  lemma CellsDistinct(i: nat, j: nat, k: nat, size: nat)
    requires size > 0 && j < k < j + size
    ensures Cell(i, j, size) != Cell(i, k, size)
  {
    ModDistinct(i + j, i + k, size);
  }

  /** The `n` cells of the ring from index `i` on, in order. */
  function Cells<T>(store: seq<T>, i: nat, n: nat): (s: seq<T>)
    requires |store| > 0
    ensures |s| == n
  {
    seq(n, k requires 0 <= k < n => store[Cell(i, k, |store|)])
  }

  function Filled<T>(store: seq<T>, slot: nat, x: T): (s: seq<T>)
    requires slot < |store|
  {
    store[slot := x]
  }

  /** Dropping the oldest element. */
  lemma RingTail<T>(store: seq<T>, i: nat, n: nat)
    requires |store| > 0 && n > 0
    ensures Cells(store, Cell(i, 1, |store|), n - 1) == Cells(store, i, n)[1..]
  {
    hide Cell;
    var rest, all := Cells(store, Cell(i, 1, |store|), n - 1), Cells(store, i, n);
    forall k: nat | k < n - 1 ensures rest[k] == all[k + 1] {
      CellAfter(i, 1, k, |store|);
    }
  }

  /** Writing the cell just past the contents does not touch them. */
  lemma RingUntouched<T>(store: seq<T>, i: nat, n: nat, x: T)
    requires |store| > 0 && n < |store|
    ensures Cells(Filled(store, Cell(i, n, |store|), x), i, n) == Cells(store, i, n)
  {
    hide Cell;
    forall k: nat | k < n ensures Cell(i, k, |store|) != Cell(i, n, |store|) {
      CellsDistinct(i, k, n, |store|);
    }
  }

  lemma FullRing(i: nat, size: nat)
    requires size > 0
    ensures Cell(i, size, size) == Cell(i, 0, size)
  {
    ModAdd(size, i, size);
  }

  class LFQueue<T(0)> {
    const store: array<T>
    var nextWriteIndex: nat
    var nextReadIndex: nat
    var numElements: nat

    /** No write has overrun the ring. */
    ghost predicate Valid()
      reads this
    {
      && store.Length > 0 && nextReadIndex < store.Length
      && numElements <= store.Length
      && nextWriteIndex == Cell(nextReadIndex, numElements, store.Length)
    }

    ghost function Contents(): (s: seq<T>)
      reads this, store
      requires Valid()
    {
      Cells(store[..], nextReadIndex, numElements)
    }

    constructor (numElems: nat)
      requires numElems > 0
      ensures Valid() && Contents() == [] && store.Length == numElems && fresh(store)
    {
      store := new T[numElems];
      nextWriteIndex, nextReadIndex, numElements := 0, 0, 0;
      ModSmall(0, numElems);
    }

    /** The slot just past the contents: below capacity, filling it disturbs none of them, and on a full
        ring it is the slot of the oldest element. */
    method GetNextToWriteTo() returns (slot: nat)
      requires Valid()
      ensures slot < store.Length && slot == Cell(nextReadIndex, numElements, store.Length)
      ensures numElements < store.Length ==>
                forall x :: Cells(Filled(store[..], slot, x), nextReadIndex, numElements) == Contents()
      ensures numElements == store.Length ==> store[slot] == Contents()[0]
    {
      hide Cell;
      slot := nextWriteIndex;
      if numElements < store.Length {
        forall x ensures Cells(Filled(store[..], slot, x), nextReadIndex, numElements) == Contents() {
          RingUntouched(store[..], nextReadIndex, numElements, x);
        }
      } else {
        FullRing(nextReadIndex, store.Length);
      }
    }

    method UpdateWriteIndex()
      requires Valid() && numElements < store.Length
      modifies this`nextWriteIndex, this`numElements
      ensures Valid() && Contents() == old(Contents()) + [store[old(nextWriteIndex)]]
    {
      hide Cell;
      CellAfter(nextReadIndex, numElements, 1, store.Length);
      nextWriteIndex := Cell(nextWriteIndex, 1, store.Length);
      numElements := numElements + 1;
    }

    method GetNextToRead() returns (slot: int)
      requires Valid()
      ensures slot == -1 <==> Contents() == []
      ensures slot != -1 ==> 0 <= slot < store.Length && store[slot] == Contents()[0]
    {
      ModSmall(nextReadIndex, store.Length);
      slot := if Size() != 0 then nextReadIndex else -1;
    }

    method UpdateReadIndex()
      requires Valid() && Contents() != []
      modifies this`nextReadIndex, this`numElements
      ensures Valid() && Contents() == old(Contents())[1..]
    {
      hide Cell;
      RingTail(store[..], nextReadIndex, numElements);
      CellAfter(nextReadIndex, 1, numElements - 1, store.Length);
      nextReadIndex := Cell(nextReadIndex, 1, store.Length);
      numElements := numElements - 1;
    }

    function Size(): nat
      reads this
    {
      numElements
    }

    /** The producer's three calls in a row: take the slot, fill it, publish it. */
    method Write(x: T)
      requires Valid() && numElements < store.Length
      modifies this`nextWriteIndex, this`numElements, store
      ensures Valid() && Contents() == old(Contents()) + [x]
      ensures numElements == old(numElements) + 1
    {
      hide Cell;
      var slot := GetNextToWriteTo();
      store[slot] := x;
      assert store[..] == Filled(old(store[..]), slot, x);
      UpdateWriteIndex();
    }
  }
}
