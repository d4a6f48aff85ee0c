/** The memory pool: a free flag per block and a cursor that must always name a free block. */
module MemPools {
  import opened Options

  /** The pool's bookkeeping as a value; `aborted` is the ASSERT that ends the process. */
  datatype Pool = Pool(free: seq<bool>, next: nat, aborted: bool)

  function Succ(i: nat, n: nat): nat {
    if i + 1 == n then 0 else i + 1
  }

  /** Steps from i to the next visit of `start`: a full circle when they coincide. */
  function Dist(i: nat, start: nat, n: nat): int {
    if i < start then start - i else start - i + n
  }

  /** updateNextFreeIndex: move on until a free block, giving up on the way back to the start. */
  function Search(free: seq<bool>, start: nat, cur: nat): (r: Option<nat>)
    requires start < |free| && cur < |free|
    ensures r.Some? ==> r.value < |free| && free[r.value]
    decreases Dist(cur, start, |free|)
  {
    if free[cur] then Some(cur)
    else
      var next := Succ(cur, |free|);
      if next == start then None else Search(free, start, next)
  }

  ghost predicate Ready(p: Pool) {
    !p.aborted && p.next < |p.free| && p.free[p.next]
  }

  function Allocate(p: Pool): (p': Pool)
    requires !p.aborted && p.next < |p.free|
    ensures |p'.free| == |p.free|
  {
    if !p.free[p.next] then p.(aborted := true)
    else
      var free := p.free[p.next := false];
      match Search(free, p.next, p.next)
      case Some(i) => Pool(free, i, false)
      case None => Pool(free, p.next, true)
  }

  function Deallocate(p: Pool, i: int): (p': Pool)
    ensures |p'.free| == |p.free|
  {
    if !(0 <= i < |p.free|) || p.free[i] then p.(aborted := true)
    else p.(free := p.free[i := true])
  }

  ghost function FreeBlocks(free: seq<bool>): set<int> { set i | 0 <= i < |free| && free[i] }
  ghost function LiveBlocks(free: seq<bool>): set<int> { set i | 0 <= i < |free| && !free[i] }

  /** The search passes over used blocks only, and gives up only when there is no free one. */
  lemma {:induction false} SearchIsExact(free: seq<bool>, start: nat, cur: nat)
    requires start < |free| && cur < |free|
    ensures match Search(free, start, cur)
            case Some(i) => forall j :: 0 <= j < |free| && Dist(i, start, |free|) < Dist(j, start, |free|) <= Dist(cur, start, |free|) ==> !free[j]
            case None => forall j :: 0 <= j < |free| && Dist(j, start, |free|) <= Dist(cur, start, |free|) ==> !free[j]
    decreases Dist(cur, start, |free|)
  {
    var n := |free|;
    if !free[cur] {
      var next := Succ(cur, n);
      assert forall j :: 0 <= j < n && Dist(j, start, n) == Dist(cur, start, n) ==> j == cur;
      if next != start {
        assert Dist(next, start, n) == Dist(cur, start, n) - 1;
        SearchIsExact(free, start, next);
      } else {
        assert Dist(cur, start, n) == 1;
      }
    }
  }

  /** From a pool whose cursor names a free block: the block handed out was free, it alone changes, the
      cursor again names a free block (the nearest one going round), and the call survives if and only
      if at least two blocks were free. */
  lemma AllocateIsExact(p: Pool)
    requires Ready(p)
    ensures var p' := Allocate(p);
            && p'.free == p.free[p.next := false]
            && (!p'.aborted ==> Ready(p'))
            && (!p'.aborted <==> |FreeBlocks(p.free)| >= 2)
            && (!p'.aborted ==> forall j :: 0 <= j < |p.free| && p'.free[j] ==>
                  Dist(j, p.next, |p.free|) <= Dist(p'.next, p.next, |p.free|))
  {
    var free := p.free[p.next := false];
    SearchIsExact(free, p.next, p.next);
    assert FreeBlocks(p.free) == FreeBlocks(free) + {p.next};
    assert Search(free, p.next, p.next) == None ==> FreeBlocks(free) == {};
    if Search(free, p.next, p.next).Some? {
      assert Search(free, p.next, p.next).value in FreeBlocks(free);
    }
  }

  /** A pool of N blocks therefore never has N live objects: taking the last block ends the process. */
  lemma LastBlockIsUnusable(p: Pool)
    requires Ready(p) && |LiveBlocks(p.free)| == |p.free| - 1
    ensures Allocate(p).aborted
  {
    AllocateIsExact(p);
    BlocksAddUp(p.free);
  }

  lemma {:induction false} BlocksAddUp(free: seq<bool>)
    ensures |FreeBlocks(free)| + |LiveBlocks(free)| == |free|
    decreases |free|
  {
    if free == [] {
      assert FreeBlocks(free) == {} && LiveBlocks(free) == {};
    } else {
      var n := |free| - 1;
      var rest := free[..n];
      BlocksAddUp(rest);
      if free[n] {
        assert FreeBlocks(free) == FreeBlocks(rest) + {n} && LiveBlocks(free) == LiveBlocks(rest);
      } else {
        assert FreeBlocks(free) == FreeBlocks(rest) && LiveBlocks(free) == LiveBlocks(rest) + {n};
      }
    }
  }

  // ----- runs -----

  datatype Op = Alloc | Dealloc(i: int)

  function Apply(p: Pool, op: Op): Pool
    requires !p.aborted && p.next < |p.free|
  {
    match op
    case Alloc => Allocate(p)
    case Dealloc(i) => Deallocate(p, i)
  }

  /** The caller's own account of the handles given out and not yet returned. */
  ghost function Handles(p: Pool, live: set<int>, op: Op): set<int> {
    match op
    case Alloc => live + {p.next}
    case Dealloc(i) => live - {i}
  }

  /** The state and the handles after a run; the run ends where the process does. */
  ghost function Run(p: Pool, live: set<int>, ops: seq<Op>): (Pool, set<int>)
    decreases |ops|
  {
    if ops == [] || !Ready(p) then (p, live)
    else Run(Apply(p, ops[0]), Handles(p, live, ops[0]), ops[1..])
  }

  /** No allocation of the run hands out a handle that is already out. */
  ghost predicate NeverTwice(p: Pool, live: set<int>, ops: seq<Op>)
    decreases |ops|
  {
    ops == [] || !Ready(p) ||
    ((ops[0].Alloc? ==> p.next !in live) && NeverTwice(Apply(p, ops[0]), Handles(p, live, ops[0]), ops[1..]))
  }

  /** Over every run: live handles are pairwise different; in each state that has not ended the process
      the cursor names a free block, the handles out are exactly the used blocks, and free plus used
      blocks make up the pool. */
  lemma {:induction false} RunAgrees(p: Pool, live: set<int>, ops: seq<Op>)
    requires Ready(p) && live == LiveBlocks(p.free)
    ensures NeverTwice(p, live, ops)
    ensures var (p', live') := Run(p, live, ops);
            && |p'.free| == |p.free|
            && (!p'.aborted ==>
                  Ready(p') && live' == LiveBlocks(p'.free) && |FreeBlocks(p'.free)| + |live'| == |p.free|)
    decreases |ops|
  {
    BlocksAddUp(p.free);
    if ops != [] {
      var p1, live1 := Apply(p, ops[0]), Handles(p, live, ops[0]);
      if ops[0].Alloc? { AllocateIsExact(p); }
      if !p1.aborted {
        assert live1 == LiveBlocks(p1.free);
        RunAgrees(p1, live1, ops[1..]);
      }
    }
  }

  /** Returning a block ends the process if and only if it is not one that is out; otherwise it alone
      becomes free and the cursor stays. */
  lemma DeallocateIsExact(p: Pool, i: int)
    requires Ready(p)
    ensures var p' := Deallocate(p, i);
            && (p'.aborted <==> i !in LiveBlocks(p.free))
            && (!p'.aborted ==> p'.next == p.next && p'.free == p.free[i := true] && LiveBlocks(p'.free) == LiveBlocks(p.free) - {i})
  {
  }

  /** The caller's rule for a pool of n blocks: allocate only while at most n - 2 handles are out, return
      only handles that are out.  Which handle an allocation gives is the pool's choice. */
  ghost predicate WithinRule(p: Pool, live: set<int>, ops: seq<Op>)
    requires Ready(p)
    decreases |ops|
  {
    ops == [] ||
    var p1, live1 := Apply(p, ops[0]), Handles(p, live, ops[0]);
    && (match ops[0]
        case Alloc => |live| + 2 <= |p.free|
        case Dealloc(i) => i in live)
    && (Ready(p1) ==> WithinRule(p1, live1, ops[1..]))
  }

  /** A run ends the process if and only if the caller breaks the rule. */
  lemma {:induction false} RunSurvivesExactly(p: Pool, live: set<int>, ops: seq<Op>)
    requires Ready(p) && live == LiveBlocks(p.free)
    ensures !Run(p, live, ops).0.aborted <==> WithinRule(p, live, ops)
    decreases |ops|
  {
    hide Search;
    BlocksAddUp(p.free);
    if ops != [] {
      var op, p1, live1 := ops[0], Apply(p, ops[0]), Handles(p, live, ops[0]);
      match op
      case Alloc =>
        AllocateIsExact(p);
        if !p1.aborted {
          assert live1 == LiveBlocks(p1.free);
          RunSurvivesExactly(p1, live1, ops[1..]);
        } else {
          EndedRun(p1, live1, ops[1..]);
        }
      case Dealloc(i) =>
        DeallocateIsExact(p, i);
        if !p1.aborted {
          RunSurvivesExactly(p1, live1, ops[1..]);
        } else {
          EndedRun(p1, live1, ops[1..]);
        }
    }
  }

  lemma {:induction false} EndedRun(p: Pool, live: set<int>, ops: seq<Op>)
    requires p.aborted
    ensures Run(p, live, ops).0.aborted
  {
  }

  // ----- the object -----

  class MemPool<T(0)> {
    const objects: array<T>
    const isFree: array<bool>
    var nextFreeIndex: nat
    var aborted: bool

    ghost predicate Valid()
      reads this
    {
      objects.Length == isFree.Length && objects as object != isFree && nextFreeIndex < isFree.Length
    }

    ghost function State(): Pool
      reads this, isFree
    {
      Pool(isFree[..], nextFreeIndex, aborted)
    }

    constructor (numElems: nat)
      requires numElems > 0
      ensures Valid() && Ready(State()) && LiveBlocks(State().free) == {} && |State().free| == numElems
      ensures fresh(objects) && fresh(isFree)
    {
      objects := new T[numElems];
      isFree := new bool[numElems](_ => true);
      nextFreeIndex, aborted := 0, false;
    }

    method AllocateObject(x: T) returns (handle: nat)
      requires Valid() && !aborted
      modifies this, objects, isFree
      ensures Valid() && State() == Allocate(old(State()))
      ensures handle == old(nextFreeIndex)
      ensures old(isFree[nextFreeIndex]) ==> objects[..] == old(objects[..])[handle := x]
    {
      handle := nextFreeIndex;
      if !isFree[nextFreeIndex] { aborted := true; return; }
      objects[handle] := x;
      isFree[handle] := false;
      assert isFree[..] == old(isFree[..])[handle := false];
      assert objects[..] == old(objects[..])[handle := x];
      UpdateNextFreeIndex();
    }

    method UpdateNextFreeIndex()
      requires Valid() && !aborted
      modifies this`nextFreeIndex, this`aborted
      ensures Valid()
      ensures match Search(isFree[..], old(nextFreeIndex), old(nextFreeIndex))
              case Some(i) => nextFreeIndex == i && !aborted
              case None => nextFreeIndex == old(nextFreeIndex) && aborted
    {
      var initial := nextFreeIndex;
      while !isFree[nextFreeIndex]
        invariant nextFreeIndex < isFree.Length && !aborted
        invariant Search(isFree[..], initial, nextFreeIndex) == Search(isFree[..], initial, initial)
        decreases Dist(nextFreeIndex, initial, isFree.Length)
      {
        nextFreeIndex := nextFreeIndex + 1;
        if nextFreeIndex == isFree.Length { nextFreeIndex := 0; }
        if initial == nextFreeIndex { aborted := true; return; }
      }
    }

    method DeallocateObject(elem: int)
      requires Valid() && !aborted
      modifies this`aborted, isFree
      ensures Valid() && State() == Deallocate(old(State()), elem)
    {
      if !(0 <= elem < isFree.Length) || isFree[elem] { aborted := true; return; }
      isFree[elem] := true;
      assert isFree[..] == old(isFree[..])[elem := true];
    }
  }
}
