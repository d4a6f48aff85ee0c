/** Routing: updates from per-venue queues into per-instrument books. */
module OrderBookManagers {
  import opened MarketData
  import opened BookRing
  import opened BookSpec
  import opened OrderBooks
  import opened BookTheorems
  import opened LFQueues

  const INDEX_LIMIT: nat := 0x1_0000

  /** The routing table and the books, as values. */
  datatype Routing = Routing(index: map<int, nat>, books: seq<Book>)

  /** register_instrument: the index is the current number of books, cut to 16 bits. */
  function Register(r: Routing, id: int): Routing {
    Routing(r.index[id := |r.books| % INDEX_LIMIT], r.books + [EMPTY_BOOK])
  }

  ghost predicate InRange(r: Routing) {
    && (forall id :: id in r.index ==> r.index[id] < |r.books|)
    && (forall i :: 0 <= i < |r.books| ==> r.books[i].Shape())
  }

  /** Each index is a book, and no two ids share one. */
  ghost predicate Sound(r: Routing) {
    InRange(r) &&
    forall id, jd :: id in r.index && jd in r.index && r.index[id] == r.index[jd] ==> id == jd
  }

  /** Registration keeps the table sound while fewer than 65536 books exist. */
  lemma RegisterKeepsSound(r: Routing, id: int)
    requires Sound(r) && |r.books| < INDEX_LIMIT
    ensures Sound(Register(r, id)) && id in Register(r, id).index
    ensures Register(r, id).books[Register(r, id).index[id]] == EMPTY_BOOK
  {
    var r' := Register(r, id);
    assert r'.index[id] == |r.books|;
    assert forall i :: 0 <= i < |r.books| ==> r'.books[i] == r.books[i];
  }

  /** One registration keeps the table sound exactly when the index it takes, which wraps at 65536, is no
      other instrument's. */
  lemma RegisterIsSoundExactly(r: Routing, id: int)
    requires Sound(r)
    ensures Sound(Register(r, id))
            <==> forall jd :: jd in r.index && jd != id ==> r.index[jd] != |r.books| % INDEX_LIMIT
  {
    hide EMPTY_BOOK;
    var r' := Register(r, id);
    assert |r.books| % INDEX_LIMIT <= |r.books|;
    forall jd | jd in r.index && jd != id ensures jd in r'.index && r'.index[jd] == r.index[jd] {
    }
    assert id in r'.index && r'.index[id] == |r.books| % INDEX_LIMIT;
    assert InRange(r') by { ShapesKept(r, id); }
  }

  lemma ShapesKept(r: Routing, id: int)
    requires InRange(r)
    ensures InRange(Register(r, id))
  {
    var r' := Register(r, id);
    assert |r.books| % INDEX_LIMIT <= |r.books|;
    assert forall i :: 0 <= i < |r.books| ==> r'.books[i] == r.books[i];
  }

  /** passUpdateToOrderbook: an unknown id is ignored. */
  function Route(r: Routing, u: MarketUpdate): (r': Routing)
    requires InRange(r)
    ensures InRange(r') && (Sound(r) ==> Sound(r')) && r'.index == r.index && |r'.books| == |r.books|
  {
    if u.instrumentId !in r.index then r
    else
      var i := r.index[u.instrumentId];
      r.(books := r.books[i := ApplyUpdate(r.books[i], u)])
  }

  // ----- schedules -----

  /** The queues with what is still in them and what has been taken from them. */
  datatype Net = Net(routing: Routing, queues: seq<seq<MarketUpdate>>, taken: seq<seq<MarketUpdate>>)

  datatype Event = Push(q: nat, u: MarketUpdate) | Poll(q: nat)

  function Do(n: Net, e: Event): (n': Net)
    requires InRange(n.routing) && |n.queues| == |n.taken|
    ensures InRange(n'.routing) && (Sound(n.routing) ==> Sound(n'.routing)) && |n'.queues| == |n'.taken| == |n.queues|
    ensures n'.routing.index == n.routing.index && |n'.routing.books| == |n.routing.books|
  {
    if e.q >= |n.queues| then n
    else match e
      case Push(q, u) => n.(queues := n.queues[q := n.queues[q] + [u]])
      case Poll(q) =>
        if n.queues[q] == [] then n
        else
          var u := n.queues[q][0];
          Net(Route(n.routing, u), n.queues[q := n.queues[q][1..]], n.taken[q := n.taken[q] + [u]])
  }

  function DoAll(n: Net, events: seq<Event>): (n': Net)
    requires InRange(n.routing) && |n.queues| == |n.taken|
    ensures InRange(n'.routing) && (Sound(n.routing) ==> Sound(n'.routing)) && |n'.queues| == |n'.taken| == |n.queues|
    ensures n'.routing.index == n.routing.index && |n'.routing.books| == |n.routing.books|
    decreases |events|
  {
    if events == [] then n else DoAll(Do(n, events[0]), events[1..])
  }

  /** The updates of one instrument, in order. */
  function Own(us: seq<MarketUpdate>, id: int): seq<MarketUpdate> {
    if us == [] then []
    else Own(us[..|us| - 1], id) + (if us[|us| - 1].instrumentId == id then [us[|us| - 1]] else [])
  }

  lemma {:induction false} OwnSnoc(us: seq<MarketUpdate>, u: MarketUpdate, id: int)
    ensures Own(us + [u], id) == Own(us, id) + (if u.instrumentId == id then [u] else [])
  {
    assert (us + [u])[..|us|] == us;
  }

  lemma {:induction false} RunSnoc(b: Book, us: seq<MarketUpdate>, u: MarketUpdate)
    requires b.Shape()
    ensures RunBook(b, us + [u]) == ApplyUpdate(RunBook(b, us), u)
    decreases |us|
  {
    hide ApplyUpdate;
    if us == [] {
      assert ([] + [u])[1..] == [];
    } else {
      assert (us + [u])[1..] == us[1..] + [u];
      RunSnoc(ApplyUpdate(b, us[0]), us[1..], u);
    }
  }

  /** Every instrument's updates come through one queue only. */
  ghost predicate Owned(n: Net, owner: int -> nat) {
    forall q, i :: 0 <= q < |n.queues| && 0 <= i < |n.queues[q]| ==> owner(n.queues[q][i].instrumentId) == q
  }

  ghost predicate EventOwned(e: Event, owner: int -> nat) {
    e.Push? ==> owner(e.u.instrumentId) == e.q
  }

  /** Each book is the fold of its own instrument's updates over what its queue has delivered. */
  ghost predicate Folded(n: Net, start: Routing, owner: int -> nat) {
    && Sound(start) && Sound(n.routing) && |n.queues| == |n.taken|
    && n.routing.index == start.index && |n.routing.books| == |start.books|
    && forall id :: id in start.index && owner(id) < |n.taken| ==>
         n.routing.books[start.index[id]] == RunBook(start.books[start.index[id]], Own(n.taken[owner(id)], id))
  }

  lemma DoKeepsFolded(n: Net, start: Routing, owner: int -> nat, e: Event)
    requires Folded(n, start, owner) && Owned(n, owner) && EventOwned(e, owner)
    ensures Folded(Do(n, e), start, owner) && Owned(Do(n, e), owner)
  {
    hide ApplyUpdate, RunBook, Own;
    var n' := Do(n, e);
    if e.q < |n.queues| && e.Poll? && n.queues[e.q] != [] {
      var u := n.queues[e.q][0];
      assert owner(u.instrumentId) == e.q;
      forall id | id in start.index && owner(id) < |n.taken|
        ensures n'.routing.books[start.index[id]] == RunBook(start.books[start.index[id]], Own(n'.taken[owner(id)], id))
      {
        OwnSnoc(n.taken[e.q], u, id);
        if id == u.instrumentId {
          RunSnoc(start.books[start.index[id]], Own(n.taken[e.q], id), u);
        } else {
          assert Own(n.taken[e.q], id) + [] == Own(n.taken[e.q], id);
        }
      }
    }
  }

  lemma {:induction false} DoAllKeepsFolded(n: Net, start: Routing, owner: int -> nat, events: seq<Event>)
    requires Folded(n, start, owner) && Owned(n, owner)
    requires forall i :: 0 <= i < |events| ==> EventOwned(events[i], owner)
    ensures Folded(DoAll(n, events), start, owner)
    decreases |events|
  {
    hide Do, Folded, Owned, EventOwned;
    assert Sound(n.routing) && |n.queues| == |n.taken| by { FoldedShape(n, start, owner); }
    if events != [] {
      assert EventOwned(events[0], owner);
      DoKeepsFolded(n, start, owner, events[0]);
      DoAllKeepsFolded(Do(n, events[0]), start, owner, events[1..]);
    }
  }

  lemma FoldedShape(n: Net, start: Routing, owner: int -> nat)
    requires Folded(n, start, owner)
    ensures Sound(n.routing) && |n.queues| == |n.taken|
  {
  }

  /** What was pushed to a queue is what has been taken from it followed by what is left in it. */
  function Pushed(events: seq<Event>, q: nat): seq<MarketUpdate>
    decreases |events|
  {
    if events == [] then []
    else (if events[0].Push? && events[0].q == q then [events[0].u] else []) + Pushed(events[1..], q)
  }

  lemma {:induction false} NothingLost(n: Net, events: seq<Event>, q: nat)
    requires InRange(n.routing) && |n.queues| == |n.taken| && q < |n.queues|
    ensures DoAll(n, events).taken[q] + DoAll(n, events).queues[q] == n.taken[q] + n.queues[q] + Pushed(events, q)
    decreases |events|
  {
    hide Route;
    if events != [] {
      var n1 := Do(n, events[0]);
      NothingLost(n1, events[1..], q);
      var head := if events[0].Push? && events[0].q == q then [events[0].u] else [];
      assert n1.taken[q] + n1.queues[q] == n.taken[q] + n.queues[q] + head;
      assert (n.taken[q] + n.queues[q] + head) + Pushed(events[1..], q)
          == n.taken[q] + n.queues[q] + (head + Pushed(events[1..], q));
    }
  }

  function Fresh(start: Routing, queues: nat): Net {
    Net(start, seq(queues, _ => []), seq(queues, _ => []))
  }

  /** For any assignment of instruments to queues: two runs that push the same updates to an instrument's
      queue in the same order and end with that queue empty leave its book in the same state, however
      pushes and polls were interleaved, the fold of addUpdate over its own updates. */
  lemma {:induction false} InterleavingIndependence(start: Routing, queues: nat, owner: int -> nat, one: seq<Event>, two: seq<Event>, id: int)
    requires Sound(start) && id in start.index && owner(id) < queues
    requires forall i :: 0 <= i < |one| ==> EventOwned(one[i], owner)
    requires forall i :: 0 <= i < |two| ==> EventOwned(two[i], owner)
    requires Pushed(one, owner(id)) == Pushed(two, owner(id))
    requires DoAll(Fresh(start, queues), one).queues[owner(id)] == []
    requires DoAll(Fresh(start, queues), two).queues[owner(id)] == []
    ensures var i := start.index[id];
            && DoAll(Fresh(start, queues), one).routing.books[i] == DoAll(Fresh(start, queues), two).routing.books[i]
            && DoAll(Fresh(start, queues), one).routing.books[i]
               == RunBook(start.books[i], Own(Pushed(one, owner(id)), id))
  {
    OneRun(start, queues, owner, one, id);
    OneRun(start, queues, owner, two, id);
  }

  lemma {:induction false} OneRun(start: Routing, queues: nat, owner: int -> nat, events: seq<Event>, id: int)
    requires Sound(start) && id in start.index && owner(id) < queues
    requires forall i :: 0 <= i < |events| ==> EventOwned(events[i], owner)
    requires DoAll(Fresh(start, queues), events).queues[owner(id)] == []
    ensures DoAll(Fresh(start, queues), events).routing.books[start.index[id]]
            == RunBook(start.books[start.index[id]], Own(Pushed(events, owner(id)), id))
  {
    hide DoAll, RunBook, EventOwned, Pushed;
    var n := Fresh(start, queues);
    FreshIsFolded(start, queues, owner);
    DoAllKeepsFolded(n, start, owner, events);
    NothingLost(n, events, owner(id));
    var end := DoAll(n, events);
    assert end.taken[owner(id)] + end.queues[owner(id)] == end.taken[owner(id)];
    assert n.taken[owner(id)] + n.queues[owner(id)] + Pushed(events, owner(id)) == Pushed(events, owner(id));
  }

  lemma FreshIsFolded(start: Routing, queues: nat, owner: int -> nat)
    requires Sound(start)
    ensures Folded(Fresh(start, queues), start, owner) && Owned(Fresh(start, queues), owner)
  {
  }

  // ----- the manager object -----

  /** One pass of run()'s inner loop: every queue is polled once, in order. */
  function Round(k: nat): (events: seq<Event>)
    ensures |events| == k && forall i :: 0 <= i < k ==> events[i] == Poll(i)
  {
    seq(k, i requires 0 <= i < k => Poll(i))
  }

  lemma {:induction false} DoAllSnoc(n: Net, events: seq<Event>, e: Event)
    requires InRange(n.routing) && |n.queues| == |n.taken|
    ensures DoAll(n, events + [e]) == Do(DoAll(n, events), e)
    decreases |events|
  {
    hide Do;
    if events == [] {
      assert ([] + [e])[1..] == [];
    } else {
      assert (events + [e])[1..] == events[1..] + [e];
      DoAllSnoc(Do(n, events[0]), events[1..], e);
    }
  }

  class OrderBookManager {
    var orderBooks: seq<Book>
    var idToIndex: map<int, nat>
    /** The contents of the per-venue queues. */
    var updateQueues: seq<seq<MarketUpdate>>
    var updateCount: nat
    /** What each queue has delivered so far. */
    ghost var taken: seq<seq<MarketUpdate>>

    ghost predicate Valid()
      reads this
    {
      InRange(Routing(idToIndex, orderBooks)) && |taken| == |updateQueues|
    }

    ghost function State(): Net
      reads this
    {
      Net(Routing(idToIndex, orderBooks), updateQueues, taken)
    }

    constructor ()
      ensures Valid() && State() == Net(Routing(map[], []), [], []) && updateCount == 0
    {
      orderBooks, idToIndex, updateQueues, updateCount, taken := [], map[], [], 0, [];
    }

    method RegisterInstrument(id: int)
      requires Valid()
      modifies this`orderBooks, this`idToIndex
      ensures Valid() && State().routing == Register(old(State().routing), id)
    {
      idToIndex := idToIndex[id := |orderBooks| % INDEX_LIMIT];
      orderBooks := orderBooks + [EMPTY_BOOK];
      assert |orderBooks| > 0 && (|orderBooks| - 1) % INDEX_LIMIT <= |orderBooks| - 1;
    }

    method AddQueue()
      requires Valid()
      modifies this`updateQueues, this`taken
      ensures Valid() && updateQueues == old(updateQueues) + [[]] && taken == old(taken) + [[]]
    {
      updateQueues := updateQueues + [[]];
      taken := taken + [[]];
    }

    method PassUpdateToOrderbook(update: MarketUpdate)
      requires Valid()
      modifies this`orderBooks
      ensures Valid() && State().routing == Route(old(State().routing), update)
    {
      if update.instrumentId !in idToIndex { return; }
      var i := idToIndex[update.instrumentId];
      orderBooks := orderBooks[i := ApplyUpdate(orderBooks[i], update)];
    }

    /** One pass over all queues: at most one update is taken from each. */
    method RunRound()
      requires Valid()
      modifies this
      ensures Valid() && State() == DoAll(old(State()), Round(|old(updateQueues)|))
      ensures |updateQueues| == |old(updateQueues)|
    {
      hide Route, DoAll;
      ghost var start := State();
      assert DoAll(start, Round(0)) == start by { NoEvents(start); assert Round(0) == []; }
      for q := 0 to |updateQueues|
        invariant Valid() && |updateQueues| == |start.queues|
        invariant State() == DoAll(start, Round(q))
      {
        ghost var before := State();
        if updateQueues[q] != [] {
          var update := updateQueues[q][0];
          PassUpdateToOrderbook(update);
          updateQueues := updateQueues[q := updateQueues[q][1..]];
          taken := taken[q := taken[q] + [update]];
          updateCount := updateCount + 1;
        }
        assert State() == Do(before, Poll(q));
        DoAllSnoc(start, Round(q), Poll(q));
        assert Round(q) + [Poll(q)] == Round(q + 1);
      }
    }
  }

  lemma {:induction false} NoEvents(n: Net)
    requires InRange(n.routing) && |n.queues| == |n.taken|
    ensures DoAll(n, []) == n
  {
  }
}
