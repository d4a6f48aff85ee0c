/** Schedules exist: whatever the venues send, the round-robin loop delivers all of it. */
module Schedules {
  import opened ByteOrder
  import opened MarketData
  import opened VenueRegistries
  import opened OrderBookManagers
  import opened Pipeline

  // ----- pushing -----

  function PushAll(us: seq<MarketUpdate>, q: nat): seq<Event> {
    if us == [] then [] else [Push(q, us[0])] + PushAll(us[1..], q)
  }

  lemma {:induction false} PushedAll(us: seq<MarketUpdate>, q: nat, other: nat)
    ensures Pushed(PushAll(us, q), other) == if other == q then us else []
    ensures forall i :: 0 <= i < |PushAll(us, q)| ==> PushAll(us, q)[i].Push? && PushAll(us, q)[i].q == q
  {
    if us != [] {
      PushedAll(us[1..], q, other);
      assert PushAll(us, q)[1..] == PushAll(us[1..], q);
      assert us == [us[0]] + us[1..];
    }
  }

  lemma {:induction false} PushedAppend(a: seq<Event>, b: seq<Event>, q: nat)
    ensures Pushed(a + b, q) == Pushed(a, q) + Pushed(b, q)
    decreases |a|
  {
    if a == [] {
      assert [] + b == b;
    } else {
      assert (a + b)[1..] == a[1..] + b;
      PushedAppend(a[1..], b, q);
    }
  }

  lemma {:induction false} PushedAtMost(events: seq<Event>, q: nat)
    ensures |Pushed(events, q)| <= |events|
    decreases |events|
  {
    if events != [] { PushedAtMost(events[1..], q); }
  }

  ghost predicate OnlyPushes(events: seq<Event>, rows: seq<StreamRow>, feeds: map<Bytes, Feed>) {
    forall i :: 0 <= i < |events| ==> events[i].Push? && exists e :: e in feeds && VenueIndex(rows, e) == events[i].q
  }

  lemma VenueIndicesDiffer(rows: seq<StreamRow>, e: Bytes, f: Bytes)
    requires Configured(rows) && e in Exchanges(rows) && f in Exchanges(rows) && VenueIndex(rows, e) == VenueIndex(rows, f)
    ensures e == f
  {
    hide Build, Exchanges;
    ConfiguredIsUsable(rows);
    InvHolds(rows);
  }

  lemma VenueIndexBelow(rows: seq<StreamRow>, e: Bytes)
    requires Configured(rows) && e in Exchanges(rows)
    ensures VenueIndex(rows, e) < |Exchanges(rows)|
  {
    hide Build, Exchanges;
    ConfiguredIsUsable(rows);
    InvHolds(rows);
    assert |Build(rows).venueIds| == |Build(rows).venueIds.Keys|;
  }

  /** The events push all updates of the venues in `es` and nothing else. */
  ghost predicate Loads(events: seq<Event>, rows: seq<StreamRow>, feeds: map<Bytes, Feed>, es: set<Bytes>) {
    && OnlyPushes(events, rows, feeds)
    && forall e :: e in feeds ==>
         Pushed(events, VenueIndex(rows, e)) == if e in es then VenueUpdates(rows, e, feeds[e]) else []
  }

  lemma LoadOne(rows: seq<StreamRow>, feeds: map<Bytes, Feed>, es: set<Bytes>, e: Bytes, rest: seq<Event>)
    requires Configured(rows) && feeds.Keys == Exchanges(rows) && e in feeds && e !in es && Loads(rest, rows, feeds, es)
    ensures Loads(PushAll(VenueUpdates(rows, e, feeds[e]), VenueIndex(rows, e)) + rest, rows, feeds, es + {e})
  {
    hide Configured, VenueIndex, VenueUpdates, Exchanges, OnlyPushes, PushAll;
    var q, us := VenueIndex(rows, e), VenueUpdates(rows, e, feeds[e]);
    var first := PushAll(us, q);
    OnlyPushesMore(rows, feeds, e, us, rest);
    forall f | f in feeds
      ensures Pushed(first + rest, VenueIndex(rows, f)) == if f in es + {e} then VenueUpdates(rows, f, feeds[f]) else []
    {
      PushedAppend(first, rest, VenueIndex(rows, f));
      PushedAll(us, q, VenueIndex(rows, f));
      if VenueIndex(rows, f) == q {
        VenueIndicesDiffer(rows, e, f);
        assert us + [] == us;
      } else {
        assert [] + Pushed(rest, VenueIndex(rows, f)) == Pushed(rest, VenueIndex(rows, f));
      }
    }
  }

  lemma {:induction false} OnlyPushesMore(rows: seq<StreamRow>, feeds: map<Bytes, Feed>, e: Bytes, us: seq<MarketUpdate>, rest: seq<Event>)
    requires e in feeds && OnlyPushes(rest, rows, feeds)
    ensures OnlyPushes(PushAll(us, VenueIndex(rows, e)) + rest, rows, feeds)
  {
    hide VenueIndex, PushAll;
    var first := PushAll(us, VenueIndex(rows, e));
    PushedAll(us, VenueIndex(rows, e), 0);
    forall i | 0 <= i < |first + rest|
      ensures (first + rest)[i].Push? && exists f :: f in feeds && VenueIndex(rows, f) == (first + rest)[i].q
    {
      if i < |first| {
        assert (first + rest)[i] == first[i];
      } else {
        assert (first + rest)[i] == rest[i - |first|];
      }
    }
  }

  /** All updates of the venues in `es`, one venue after the other. */
  lemma {:induction false} PushVenues(rows: seq<StreamRow>, feeds: map<Bytes, Feed>, es: set<Bytes>) returns (events: seq<Event>)
    requires Configured(rows) && feeds.Keys == Exchanges(rows) && es <= feeds.Keys
    ensures Loads(events, rows, feeds, es)
    decreases |es|
  {
    hide Configured, VenueIndex, VenueUpdates, Exchanges, Loads, PushAll;
    if e :| e in es {
      var rest := PushVenues(rows, feeds, es - {e});
      events := PushAll(VenueUpdates(rows, e, feeds[e]), VenueIndex(rows, e)) + rest;
      LoadOne(rows, feeds, es - {e}, e, rest);
      assert es - {e} + {e} == es;
    } else {
      events := [];
      NothingLoaded(rows, feeds, es);
    }
  }

  lemma NothingLoaded(rows: seq<StreamRow>, feeds: map<Bytes, Feed>, es: set<Bytes>)
    requires forall e :: e !in es
    ensures Loads([], rows, feeds, es)
  {
  }

  // ----- polling in rounds -----

  /** m passes of run()'s inner loop over k queues. */
  function Rounds(k: nat, m: nat): (events: seq<Event>)
    ensures forall i :: 0 <= i < |events| ==> events[i].Poll?
  {
    if m == 0 then [] else Round(k) + Rounds(k, m - 1)
  }

  lemma {:induction false} PollsPushNothing(events: seq<Event>, q: nat)
    requires forall i :: 0 <= i < |events| ==> events[i].Poll?
    ensures Pushed(events, q) == []
    decreases |events|
  {
    if events != [] { PollsPushNothing(events[1..], q); }
  }

  lemma {:induction false} DoAllAppend(n: Net, a: seq<Event>, b: seq<Event>)
    requires InRange(n.routing) && |n.queues| == |n.taken|
    ensures DoAll(n, a + b) == DoAll(DoAll(n, a), b)
    decreases |a|
  {
    hide Do;
    if a == [] {
      assert [] + b == b;
    } else {
      assert (a + b)[1..] == a[1..] + b;
      DoAllAppend(Do(n, a[0]), a[1..], b);
    }
  }

  function DropOne(us: seq<MarketUpdate>): seq<MarketUpdate> {
    if us == [] then [] else us[1..]
  }

  /** A pass over the first k queues takes one update from each of them that has one. */
  lemma {:induction false} RoundTakesOne(n: Net, k: nat, q: nat)
    requires InRange(n.routing) && |n.queues| == |n.taken| && k <= |n.queues| && q < |n.queues|
    ensures DoAll(n, Round(k)).queues[q] == if q < k then DropOne(n.queues[q]) else n.queues[q]
    decreases k
  {
    hide Route, DoAll;
    if k == 0 {
      assert Round(0) == [];
      NoEvents(n);
    } else {
      assert Round(k) == Round(k - 1) + [Poll(k - 1)];
      DoAllSnoc(n, Round(k - 1), Poll(k - 1));
      RoundTakesOne(n, k - 1, q);
    }
  }

  lemma {:induction false} RoundsDrain(n: Net, m: nat, q: nat)
    requires InRange(n.routing) && |n.queues| == |n.taken| && q < |n.queues| && |n.queues[q]| <= m
    ensures DoAll(n, Rounds(|n.queues|, m)).queues[q] == []
    decreases m
  {
    hide DoAll, Round;
    if m == 0 {
      NoEvents(n);
    } else {
      var k := |n.queues|;
      RoundTakesOne(n, k, q);
      DoAllAppend(n, Round(k), Rounds(k, m - 1));
      RoundsDrain(DoAll(n, Round(k)), m - 1, q);
    }
  }

  /** For every configuration and whatever the venues send there is a schedule that delivers all of it:
      push everything, then poll in rounds as run() does. */
  lemma FeedsCanBeDrained(rows: seq<StreamRow>, queues: nat, feeds: map<Bytes, Feed>) returns (pushes: seq<Event>, m: nat)
    requires Configured(rows) && feeds.Keys == Exchanges(rows) && |Exchanges(rows)| <= queues
    ensures forall i :: 0 <= i < |pushes| ==> pushes[i].Push?
    ensures FromFeeds(pushes + Rounds(queues, m), rows, feeds)
    ensures forall e :: e in feeds ==> VenueIndex(rows, e) < queues
    ensures forall q :: 0 <= q < queues ==> DoAll(Fresh(Start(rows), queues), pushes + Rounds(queues, m)).queues[q] == []
  {
    hide Configured, VenueIndex, VenueUpdates, Exchanges, Start, DoAll, Rounds;
    pushes := PushVenues(rows, feeds, feeds.Keys);
    m := |pushes|;
    var events := pushes + Rounds(queues, m);
    forall e | e in feeds
      ensures VenueIndex(rows, e) < queues && Pushed(events, VenueIndex(rows, e)) == VenueUpdates(rows, e, feeds[e])
    {
      VenueIndexBelow(rows, e);
      PushedAppend(pushes, Rounds(queues, m), VenueIndex(rows, e));
      PollsPushNothing(Rounds(queues, m), VenueIndex(rows, e));
    }
    var n := Fresh(Start(rows), queues);
    var loaded := DoAll(n, pushes);
    forall q | 0 <= q < queues ensures DoAll(n, events).queues[q] == [] {
      NothingLost(n, pushes, q);
      assert n.taken[q] + n.queues[q] + Pushed(pushes, q) == Pushed(pushes, q);
      PushedAtMost(pushes, q);
      DoAllAppend(n, pushes, Rounds(queues, m));
      RoundsDrain(loaded, m, q);
    }
  }
}
