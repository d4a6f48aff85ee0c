/** The rings under the router: every interleaving of the atomic steps of all producers and of the
    router's thread is a sequence of pushes and polls on plain queues. */
module RingRefinement {
  import opened ByteOrder
  import opened MarketData
  import opened BookSpec
  import opened OrderBooks
  import opened BookTheorems
  import opened VenueRegistries
  import opened OrderBookManagers
  import opened Pipeline
  import opened Schedules
  import QI = QueueInterleaving

  type Ring = QI.State<MarketUpdate>

  /** One ring for each queue, and the books. */
  datatype System = System(routing: Routing, rings: seq<Ring>)

  /** One atomic access of one ring. */
  datatype Access = Access(q: nat, step: QI.Step<MarketUpdate>)

  predicate Enabled(s: System, x: Access) {
    x.q < |s.rings| && QI.Enabled(s.rings[x.q], x.step)
  }

  /** The router passes an element on to its book while it holds the element's slot. */
  function Next(s: System, x: Access): (s': System)
    requires InRange(s.routing) && Enabled(s, x)
    ensures InRange(s'.routing) && |s'.rings| == |s.rings|
  {
    var ring := s.rings[x.q];
    System(if x.step.Poll? && ring.num != 0 then Route(s.routing, ring.store[ring.nextRead]) else s.routing,
           s.rings[x.q := QI.Next(ring, x.step)])
  }

  /** How many elements the router has taken, the one it holds included. */
  function Gone(ring: Ring): nat { |ring.consumed| + (if ring.consumer.Holding? then 1 else 0) }

  ghost predicate Inv(s: System) {
    InRange(s.routing) && forall q :: 0 <= q < |s.rings| ==> QI.Inv(s.rings[q])
  }

  lemma GoneIsWithin(ring: Ring)
    requires QI.Inv(ring)
    ensures Gone(ring) <= |ring.produced|
  {
  }

  /** The plain queue a ring stands for, and what has been taken from it. */
  ghost function Queue(ring: Ring): seq<MarketUpdate> {
    if Gone(ring) <= |ring.produced| then ring.produced[Gone(ring)..] else []
  }

  ghost function Taken(ring: Ring): seq<MarketUpdate> {
    if Gone(ring) <= |ring.produced| then ring.produced[..Gone(ring)] else []
  }

  ghost function Plain(s: System): (n: Net)
    ensures |n.queues| == |n.taken| == |s.rings|
  {
    Net(s.routing, seq(|s.rings|, q requires 0 <= q < |s.rings| => Queue(s.rings[q])),
        seq(|s.rings|, q requires 0 <= q < |s.rings| => Taken(s.rings[q])))
  }

  /** A publication is a push and a load of the counter a poll; the other accesses are not seen. */
  function Seen(s: System, x: Access): seq<Event>
    requires Enabled(s, x)
  {
    match x.step
    case Publish => [Push(x.q, s.rings[x.q].producer.value)]
    case Poll => [Poll(x.q)]
    case _ => []
  }

  /** What one access does to its ring's queue. */
  ghost predicate QueueStep(ring: Ring, ring': Ring, step: QI.Step<MarketUpdate>)
    requires QI.Enabled(ring, step)
  {
    match step
    case Publish =>
      && Queue(ring') == Queue(ring) + [ring.producer.value] && Taken(ring') == Taken(ring)
      && ring'.produced == ring.produced + [ring.producer.value]
    case Poll =>
      && ring'.produced == ring.produced
      && (if ring.num == 0 then ring' == ring && Queue(ring) == []
          else
            && Queue(ring) != [] && Queue(ring)[0] == ring.store[ring.nextRead]
            && Queue(ring') == Queue(ring)[1..] && Taken(ring') == Taken(ring) + [Queue(ring)[0]])
    case _ => Queue(ring') == Queue(ring) && Taken(ring') == Taken(ring) && ring'.produced == ring.produced
  }

  lemma RingStep(ring: Ring, step: QI.Step<MarketUpdate>)
    requires QI.Inv(ring) && QI.Enabled(ring, step)
    ensures QI.Inv(QI.Next(ring, step)) && QueueStep(ring, QI.Next(ring, step), step)
  {
    hide QI.Inv;
    QI.StepInv(ring, step);
    GoneIsWithin(ring);
    GoneIsWithin(QI.Next(ring, step));
    if step.Poll? {
      PollStep(ring);
      if ring.num != 0 { TakenGrows(ring.produced, Gone(ring)); }
    } else if step.Publish? {
      QueueGrows(ring.produced, ring.producer.value, Gone(ring));
    }
  }

  lemma TakenGrows(us: seq<MarketUpdate>, n: nat)
    requires n < |us|
    ensures us[n..][0] == us[n] && us[n..][1..] == us[n + 1..] && us[..n + 1] == us[..n] + [us[n]]
  {
  }

  lemma QueueGrows(us: seq<MarketUpdate>, u: MarketUpdate, n: nat)
    requires n <= |us|
    ensures (us + [u])[n..] == us[n..] + [u] && (us + [u])[..n] == us[..n]
  {
  }

  lemma PollStep(ring: Ring)
    requires QI.Inv(ring) && QI.Enabled(ring, QI.Poll)
    ensures ring.num == 0 ==> Queue(ring) == []
    ensures ring.num != 0 ==> Gone(ring) < |ring.produced| && ring.store[ring.nextRead] == ring.produced[Gone(ring)]
  {
    if ring.num != 0 {
      var n := |ring.store|;
      assert ring.store[|ring.consumed| % n] == ring.produced[|ring.consumed|];
    }
  }

  lemma StepIsSchedule(s: System, x: Access)
    requires Inv(s) && Enabled(s, x)
    ensures Inv(Next(s, x)) && Plain(Next(s, x)) == DoAll(Plain(s), Seen(s, x))
    ensures forall q: nat :: q < |s.rings| ==>
              Next(s, x).rings[q].produced == s.rings[q].produced + Pushed(Seen(s, x), q)
  {
    hide QI.Inv, Queue, Taken, Route;
    var s' := Next(s, x);
    var ring, ring' := s.rings[x.q], s'.rings[x.q];
    assert QI.Inv(ring);
    RingStep(ring, x.step);
    assert forall q :: 0 <= q < |s.rings| && q != x.q ==> s'.rings[q] == s.rings[q];
    var n, n' := Plain(s), Plain(s');
    assert n'.queues == n.queues[x.q := Queue(ring')] && n'.taken == n.taken[x.q := Taken(ring')];
    if x.step.Publish? || x.step.Poll? {
      OneEvent(n, Seen(s, x)[0]);
      forall q: nat | q < |s.rings| ensures Pushed(Seen(s, x), q) == if x.step.Publish? && q == x.q then [ring.producer.value] else [] {
        OnePush(Seen(s, x)[0], q);
      }
    } else {
      NoEvents(n);
      assert forall q: nat :: Pushed([], q) == [];
    }
  }

  lemma {:induction false} OneEvent(n: Net, e: Event)
    requires InRange(n.routing) && |n.queues| == |n.taken|
    ensures DoAll(n, [e]) == Do(n, e)
  {
    assert [e] == [] + [e];
    DoAllSnoc(n, [], e);
    NoEvents(n);
  }

  lemma {:induction false} OnePush(e: Event, q: nat)
    ensures Pushed([e], q) == if e.Push? && e.q == q then [e.u] else []
  {
    assert [e][1..] == [];
  }

  // ----- whole runs -----

  ghost predicate IsRun(s: System, xs: seq<Access>)
    requires InRange(s.routing)
    decreases |xs|
  {
    xs == [] || (Enabled(s, xs[0]) && IsRun(Next(s, xs[0]), xs[1..]))
  }

  ghost function Final(s: System, xs: seq<Access>): (s': System)
    requires InRange(s.routing) && IsRun(s, xs)
    ensures |s'.rings| == |s.rings|
    decreases |xs|
  {
    if xs == [] then s else Final(Next(s, xs[0]), xs[1..])
  }

  ghost function AllSeen(s: System, xs: seq<Access>): seq<Event>
    requires InRange(s.routing) && IsRun(s, xs)
    decreases |xs|
  {
    if xs == [] then [] else Seen(s, xs[0]) + AllSeen(Next(s, xs[0]), xs[1..])
  }

  lemma {:induction false} RunIsSchedule(s: System, xs: seq<Access>)
    requires Inv(s) && IsRun(s, xs)
    ensures Inv(Final(s, xs)) && Plain(Final(s, xs)) == DoAll(Plain(s), AllSeen(s, xs))
    ensures forall q: nat :: q < |s.rings| ==>
              Final(s, xs).rings[q].produced == s.rings[q].produced + Pushed(AllSeen(s, xs), q)
    decreases |xs|
  {
    hide Plain, Inv, Seen, Next, Enabled;
    PlainRouting(s);
    if xs == [] {
      NoEvents(Plain(s));
      NothingPushed();
      assert forall q: nat :: q < |s.rings| ==> s.rings[q].produced + [] == s.rings[q].produced;
    } else {
      var s1, rest := Next(s, xs[0]), xs[1..];
      StepIsSchedule(s, xs[0]);
      RunIsSchedule(s1, rest);
      DoAllAppend(Plain(s), Seen(s, xs[0]), AllSeen(s1, rest));
      forall q: nat | q < |s.rings|
        ensures Final(s, xs).rings[q].produced == s.rings[q].produced + Pushed(AllSeen(s, xs), q)
      {
        PushedAppend(Seen(s, xs[0]), AllSeen(s1, rest), q);
        assert (s.rings[q].produced + Pushed(Seen(s, xs[0]), q)) + Pushed(AllSeen(s1, rest), q)
            == s.rings[q].produced + (Pushed(Seen(s, xs[0]), q) + Pushed(AllSeen(s1, rest), q));
      }
    }
  }

  lemma PlainRouting(s: System)
    requires Inv(s)
    ensures InRange(s.routing) && Plain(s).routing == s.routing
  {
  }

  lemma NothingPushed()
    ensures forall q: nat :: Pushed([], q) == []
  {
  }

  /** Empty rings of any sizes. */
  ghost function FreshRings(stores: seq<seq<MarketUpdate>>): (rings: seq<Ring>)
    ensures |rings| == |stores|
  {
    seq(|stores|, q requires 0 <= q < |stores| => QI.Init(stores[q]))
  }

  lemma FreshSystem(start: Routing, stores: seq<seq<MarketUpdate>>)
    requires InRange(start) && forall q :: 0 <= q < |stores| ==> |stores[q]| > 0
    ensures Inv(System(start, FreshRings(stores)))
    ensures Plain(System(start, FreshRings(stores))) == Fresh(start, |stores|)
  {
    forall q | 0 <= q < |stores| ensures QI.Inv(QI.Init(stores[q])) { QI.InitInv(stores[q]); }
  }

  /** Every run of the rings, each with one producer that starts a write only below capacity, leaves the
      books as the pushes and polls seen in it do, and each queue with what its ring still holds. */
  lemma {:induction false} RingsAreQueues(start: Routing, stores: seq<seq<MarketUpdate>>, xs: seq<Access>)
    requires InRange(start) && forall q :: 0 <= q < |stores| ==> |stores[q]| > 0
    requires IsRun(System(start, FreshRings(stores)), xs)
    ensures var init := System(start, FreshRings(stores));
            var end, events := Final(init, xs), AllSeen(init, xs);
            && Plain(end) == DoAll(Fresh(start, |stores|), events)
            && forall q: nat :: q < |stores| ==>
                 && end.rings[q].produced == Pushed(events, q)
                 && (end.rings[q].num == 0 && end.rings[q].consumer.Waiting? ==> Plain(end).queues[q] == [])
  {
    hide Plain, IsRun, Final, AllSeen;
    var init := System(start, FreshRings(stores));
    FreshSystem(start, stores);
    RunIsSchedule(init, xs);
    var end := Final(init, xs);
    forall q: nat | q < |stores|
      ensures end.rings[q].produced == Pushed(AllSeen(init, xs), q)
      ensures end.rings[q].num == 0 && end.rings[q].consumer.Waiting? ==> Plain(end).queues[q] == []
    {
      assert init.rings[q].produced == [];
      assert [] + Pushed(AllSeen(init, xs), q) == Pushed(AllSeen(init, xs), q);
      if end.rings[q].num == 0 && end.rings[q].consumer.Waiting? { DrainedRing(end, q); }
    }
  }

  lemma DrainedRing(s: System, q: nat)
    requires Inv(s) && q < |s.rings| && s.rings[q].num == 0 && s.rings[q].consumer.Waiting?
    ensures Plain(s).queues[q] == []
  {
    assert QI.Inv(s.rings[q]);
  }

  /** Each venue's producer has published what its parser makes of its frames, and nobody anything else. */
  ghost predicate Published(s: System, rows: seq<StreamRow>, feeds: map<Bytes, Feed>) {
    && feeds.Keys == Exchanges(rows)
    && (forall e :: e in feeds ==>
          VenueIndex(rows, e) < |s.rings| && s.rings[VenueIndex(rows, e)].produced == VenueUpdates(rows, e, feeds[e]))
    && (forall q: nat :: q < |s.rings| && s.rings[q].produced != [] ==> exists e :: e in feeds && VenueIndex(rows, e) == q)
  }

  /** The whole path at the level of atomic accesses: when the venues have published their updates and the
      counter of a venue's ring is back at 0 with nothing held, the book of each of its rows is the fold
      of that instrument's own updates, under every interleaving of all threads. */
  lemma {:induction false} RingsReachBooks(rows: seq<StreamRow>, stores: seq<seq<MarketUpdate>>, feeds: map<Bytes, Feed>, xs: seq<Access>, j: nat)
    requires Configured(rows) && j < |rows| && forall q :: 0 <= q < |stores| ==> |stores[q]| > 0
    requires IsRun(System(Start(rows), FreshRings(stores)), xs)
    requires Published(Final(System(Start(rows), FreshRings(stores)), xs), rows, feeds)
    requires VenueIndex(rows, rows[j].exchange) < |stores|
    requires var ring := Final(System(Start(rows), FreshRings(stores)), xs).rings[VenueIndex(rows, rows[j].exchange)];
             ring.num == 0 && ring.consumer.Waiting?
    ensures RowKey(rows[j]) in Build(rows).instruments && rows[j].exchange in feeds
    ensures var id, end := IdAt(rows, j), Final(System(Start(rows), FreshRings(stores)), xs).routing;
            && id in end.index && end.index[id] < |end.books|
            && end.books[end.index[id]] == RunBook(EMPTY_BOOK, Own(VenueUpdates(rows, rows[j].exchange, feeds[rows[j].exchange]), id))
  {
    hide Build, Configured, Exchanges, DoAll, RunBook, Own, RegisterAll, VenueUpdates, EMPTY_BOOK, IsRun, Final, AllSeen, VenueIndex, Start;
    var init := System(Start(rows), FreshRings(stores));
    var end, events := Final(init, xs), AllSeen(init, xs);
    RingsAreQueues(Start(rows), stores, xs);
    assert end.routing == Plain(end).routing;
    assert FromFeeds(events, rows, feeds) by { PublishedIsFed(init, xs, rows, feeds, |stores|); }
    BooksFollowFeeds(rows, |stores|, feeds, events, j);
  }

  lemma {:induction false} PublishedIsFed(init: System, xs: seq<Access>, rows: seq<StreamRow>, feeds: map<Bytes, Feed>, n: nat)
    requires InRange(init.routing) && IsRun(init, xs) && |init.rings| == n && Published(Final(init, xs), rows, feeds)
    requires forall q: nat :: q < n ==> Final(init, xs).rings[q].produced == Pushed(AllSeen(init, xs), q)
    ensures FromFeeds(AllSeen(init, xs), rows, feeds)
  {
    hide Final, Exchanges, VenueUpdates, VenueIndex, Pushed;
    var events := AllSeen(init, xs);
    forall i | 0 <= i < |events| && events[i].Push?
      ensures exists e :: e in feeds && VenueIndex(rows, e) == events[i].q
    {
      SeenInRange(init, xs, i);
      PushedHolds(events, i);
    }
  }

  /** Only existing rings are seen. */
  lemma {:induction false} SeenInRange(s: System, xs: seq<Access>, i: nat)
    requires InRange(s.routing) && IsRun(s, xs) && i < |AllSeen(s, xs)|
    ensures AllSeen(s, xs)[i].q < |s.rings|
    decreases |xs|
  {
    hide Next;
    if i >= |Seen(s, xs[0])| { SeenInRange(Next(s, xs[0]), xs[1..], i - |Seen(s, xs[0])|); }
  }
}
