/** What the mid price is, by sums over the best five levels of each map. */
module MidMeaning {
  import opened CInt
  import opened BookSpec
  import opened BookRing
  import opened BookRefinement
  import opened BookRuns
  import opened BookMid
  import opened MarketData
  import opened OrderBooks
  import opened BookTheorems

  /** The levels with fewer than n better ones on their side. */
  ghost function Better(m: map<int, int>, bid: bool, p: int): set<int> {
    set x | x in m && (if bid then x > p else x < p)
  }

  ghost function Best(m: map<int, int>, bid: bool, n: nat): map<int, int> {
    map p | p in m && |Better(m, bid, p)| < n :: m[p]
  }

  /** The sum of all quantities and that of price times quantity. */
  ghost function TotalQuantity(m: map<int, int>): int
    decreases |m.Keys|
  {
    if m.Keys == {} then 0 else var p := Least(m.Keys); m[p] + TotalQuantity(m - {p})
  }

  ghost function TotalValue(m: map<int, int>): int
    decreases |m.Keys|
  {
    if m.Keys == {} then 0 else var p := Least(m.Keys); p * m[p] + TotalValue(m - {p})
  }

  /** Any level may be taken out first. */
  lemma {:induction false} TakeOut(m: map<int, int>, p: int)
    requires p in m
    ensures TotalQuantity(m) == m[p] + TotalQuantity(m - {p})
    ensures TotalValue(m) == p * m[p] + TotalValue(m - {p})
    decreases |m.Keys|
  {
    var l := Least(m.Keys);
    if p != l {
      TakeOut(m - {l}, p);
      LeastStays(m, p);
    }
  }

  lemma LeastStays(m: map<int, int>, p: int)
    requires p in m && p != Least(m.Keys)
    ensures (m - {p}).Keys != {} && Least((m - {p}).Keys) == Least(m.Keys)
    ensures (m - {Least(m.Keys)}) - {p} == (m - {p}) - {Least(m.Keys)}
  {
    var l := Least(m.Keys);
    assert l in (m - {p}).Keys;
    LeastIs((m - {p}).Keys, l);
  }

  /** The best n levels are the best one and the best n - 1 of the others. */
  lemma BestFirst(m: map<int, int>, bid: bool, n: nat)
    requires n > 0 && m.Keys != {}
    ensures var p := if bid then Greatest(m.Keys) else Least(m.Keys);
            p in Best(m, bid, n) && Best(m, bid, n) - {p} == Best(m - {p}, bid, n - 1)
  {
    hide Better;
    var p := if bid then Greatest(m.Keys) else Least(m.Keys);
    NoneBetter(m, bid, p);
    forall x | x in m && x != p ensures |Better(m, bid, x)| == |Better(m - {p}, bid, x)| + 1 {
      OneBetter(m, bid, p, x);
    }
  }

  lemma NoneBetter(m: map<int, int>, bid: bool, p: int)
    requires m.Keys != {} && p == if bid then Greatest(m.Keys) else Least(m.Keys)
    ensures |Better(m, bid, p)| == 0
  {
    assert Better(m, bid, p) == {};
  }

  lemma OneBetter(m: map<int, int>, bid: bool, p: int, x: int)
    requires x in m && x != p && p == if bid then Greatest(m.Keys) else Least(m.Keys)
    ensures |Better(m, bid, x)| == |Better(m - {p}, bid, x)| + 1
  {
    assert Better(m, bid, x) == Better(m - {p}, bid, x) + {p};
  }

  lemma {:induction false} NoBest(m: map<int, int>, bid: bool, n: nat)
    requires n == 0 || m.Keys == {}
    ensures Best(m, bid, n) == map[]
  {
  }

  /** The list the mid price is computed from has the sums of the best levels. */
  lemma {:induction false} TopSums(m: map<int, int>, bid: bool, n: nat)
    ensures Volume(TopLevels(m, bid, n)) == TotalQuantity(Best(m, bid, n))
    ensures Value(TopLevels(m, bid, n)) == TotalValue(Best(m, bid, n))
    decreases n
  {
    hide Best;
    if n == 0 || m.Keys == {} {
      NoBest(m, bid, n);
    } else {
      var p := if bid then Greatest(m.Keys) else Least(m.Keys);
      BestFirst(m, bid, n);
      TakeOut(Best(m, bid, n), p);
      BestValue(m, bid, n, p);
      TopSums(m - {p}, bid, n - 1);
      var rest := TopLevels(m - {p}, bid, n - 1);
      assert ([Quote(p, m[p])] + rest)[1..] == rest;
    }
  }

  lemma BestValue(m: map<int, int>, bid: bool, n: nat, p: int)
    requires p in Best(m, bid, n)
    ensures p in m && Best(m, bid, n)[p] == m[p]
  {
  }

  /** For every book that tracks two maps: with V the total quantity and S the total of price times
      quantity over the best five bids and the best five asks, the mid price is 0 if V is 0 and otherwise
      S divided by V, cut off toward 0. */
  lemma MidOfTrackedBook(b: Book, asks: SideBook, bids: SideBook)
    requires ShowsMaps(b, asks, bids)
    ensures var mid := Mid(Walk(b.bids, b.bids.best, 0, 0), Walk(b.asks, b.asks.best, 0, 0));
            var v := TotalQuantity(Best(bids.levels, true, 5)) + TotalQuantity(Best(asks.levels, false, 5));
            var s := TotalValue(Best(bids.levels, true, 5)) + TotalValue(Best(asks.levels, false, 5));
            if v == 0 then mid == 0 else Quotient(s, v, mid)
  {
    hide Walk, Best, TopLevels, Mid, ShowsMaps, Quotient, TotalQuantity, TotalValue, Value, Volume;
    ShownMid(b, asks, bids);
    TopSums(bids.levels, true, 5);
    TopSums(asks.levels, false, 5);
    MidIsQuotient(TopLevels(bids.levels, true, 5), TopLevels(asks.levels, false, 5));
  }

  lemma {:induction false} MidIsQuotient(bids: seq<Quote>, asks: seq<Quote>)
    ensures var v, s := Volume(bids) + Volume(asks), Value(bids) + Value(asks);
            if v == 0 then Mid(bids, asks) == 0 else Quotient(s, v, Mid(bids, asks))
  {
    hide CDiv, Quotient;
    var v, s := Volume(bids) + Volume(asks), Value(bids) + Value(asks);
    if v != 0 { CDivIs(s, v); }
  }

  lemma ShownMid(b: Book, asks: SideBook, bids: SideBook)
    requires ShowsMaps(b, asks, bids)
    ensures b.Shape()
    ensures Mid(Walk(b.bids, b.bids.best, 0, 0), Walk(b.asks, b.asks.best, 0, 0))
            == Mid(TopLevels(bids.levels, true, 5), TopLevels(asks.levels, false, 5))
  {
    hide Walk, TopLevels, Mid, Tracks;
  }

  /** So it is after every clean run. */
  lemma {:induction false} MidAfterRun(updates: seq<MarketUpdate>)
    requires CleanRun(EMPTY_SIDE, SideQuotes(updates, true)) && CleanRun(EMPTY_SIDE, SideQuotes(updates, false))
    ensures var b := RunBook(EMPTY_BOOK, updates);
            var asks := Run(EMPTY_SIDE, SideQuotes(updates, true)).levels;
            var bids := Run(EMPTY_SIDE, SideQuotes(updates, false)).levels;
            var mid := Mid(Walk(b.bids, b.bids.best, 0, 0), Walk(b.asks, b.asks.best, 0, 0));
            var v := TotalQuantity(Best(bids, true, 5)) + TotalQuantity(Best(asks, false, 5));
            var s := TotalValue(Best(bids, true, 5)) + TotalValue(Best(asks, false, 5));
            && Levels(b.asks) == asks && Levels(b.bids) == bids
            && if v == 0 then mid == 0 else Quotient(s, v, mid)
  {
    hide ShowsMaps, CleanRun, SideQuotes, Run, RunBook, Walk, Mid, Best, Quotient, EMPTY_SIDE, Levels, TotalQuantity, TotalValue;
    BookFollowsMaps(updates);
    var asks, bids := Run(EMPTY_SIDE, SideQuotes(updates, true)), Run(EMPTY_SIDE, SideQuotes(updates, false));
    MidOfTrackedBook(RunBook(EMPTY_BOOK, updates), asks, bids);
    ShownLevels(RunBook(EMPTY_BOOK, updates), asks, bids);
  }

  lemma ShownLevels(b: Book, asks: SideBook, bids: SideBook)
    requires ShowsMaps(b, asks, bids)
    ensures b.Shape() && Levels(b.asks) == asks.levels && Levels(b.bids) == bids.levels
  {
  }

  /** One bid of quantity 1 at 100 and one ask of quantity 9 at 110: the ask weighs nine times as much. */
  lemma WeightedExample()
    ensures Mid([Quote(100, 1)], [Quote(110, 9)]) == 109
  {
    CDivIs(1090, 10);
  }
}
