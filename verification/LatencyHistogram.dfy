/** The log2 latency histogram: its percentile scan against sorting the samples. */
module LatencyHistograms {
  import opened ModArith

  const BUCKETS: nat := 64

  /** 63 - clz(cycles), with 0 filed under bucket 0. */
  function BucketOf(cycles: nat): nat {
    if cycles < 2 then 0 else 1 + BucketOf(cycles / 2)
  }

  /** Bucket 0 is {0, 1}; bucket b > 0 is [2^b, 2^(b+1)). */
  lemma {:induction false} BucketRange(c: nat)
    ensures c < Pow2(BucketOf(c) + 1) && (BucketOf(c) > 0 ==> Pow2(BucketOf(c)) <= c)
  {
    if c >= 2 { BucketRange(c / 2); }
  }

  lemma {:induction false} BucketBound(c: nat, n: nat)
    requires c < Pow2(n) && n > 0
    ensures BucketOf(c) < n
    decreases n
  {
    assert Pow2(1) == 2;
    if c >= 2 {
      BucketBound(c / 2, n - 1);
    }
  }

  lemma {:induction false} BucketMonotone(c: nat, d: nat)
    requires c <= d
    ensures BucketOf(c) <= BucketOf(d)
    decreases d
  {
    if c >= 2 { BucketMonotone(c / 2, d / 2); }
  }

  // ----- counting -----

  /** Samples in buckets lo up to but not including hi. */
  function CountIn(samples: seq<nat>, lo: nat, hi: nat): (n: nat)
    ensures n <= |samples|
  {
    if samples == [] then 0
    else CountIn(samples[1..], lo, hi) + (if lo <= BucketOf(samples[0]) < hi then 1 else 0)
  }

  function InBucket(samples: seq<nat>, b: nat): nat { CountIn(samples, b, b + 1) }

  lemma {:induction false} CountSplit(samples: seq<nat>, lo: nat, mid: nat, hi: nat)
    requires lo <= mid <= hi
    ensures CountIn(samples, lo, hi) == CountIn(samples, lo, mid) + CountIn(samples, mid, hi)
    decreases |samples|
  {
    if samples != [] { CountSplit(samples[1..], lo, mid, hi); }
  }

  lemma {:induction false} CountConcat(a: seq<nat>, b: seq<nat>, lo: nat, hi: nat)
    ensures CountIn(a + b, lo, hi) == CountIn(a, lo, hi) + CountIn(b, lo, hi)
    decreases |a|
  {
    if a == [] {
      assert a + b == b;
    } else {
      assert (a + b)[1..] == a[1..] + b;
      CountConcat(a[1..], b, lo, hi);
    }
  }

  lemma RemoveOne(rest: seq<nat>, front: seq<nat>, x: nat, back: seq<nat>)
    requires multiset([x] + rest) == multiset(front + ([x] + back))
    ensures multiset(rest) == multiset(front + back)
  {
    assert multiset([x] + rest) == multiset{x} + multiset(rest);
    assert multiset(front + ([x] + back)) == multiset{x} + multiset(front + back);
    assert multiset(rest) == (multiset{x} + multiset(rest)) - multiset{x};
    assert multiset(front + back) == (multiset{x} + multiset(front + back)) - multiset{x};
  }

  lemma {:induction false} CountPermuted(a: seq<nat>, b: seq<nat>, lo: nat, hi: nat)
    requires multiset(a) == multiset(b)
    ensures CountIn(a, lo, hi) == CountIn(b, lo, hi)
    decreases |a|
  {
    if a == [] {
      assert |multiset(b)| == 0;
      assert |b| == 0;
    } else {
      var x := a[0];
      assert x in multiset(a);
      assert x in b;
      var j :| 0 <= j < |b| && b[j] == x;
      var front, back := b[..j], b[j + 1..];
      assert b == front + ([x] + back);
      assert a == [x] + a[1..];
      RemoveOne(a[1..], front, x, back);
      CountPermuted(a[1..], front + back, lo, hi);
      CountConcat(front, back, lo, hi);
      CountConcat(front, [x] + back, lo, hi);
      assert ([x] + back)[1..] == back;
    }
  }

  lemma {:induction false} CountAll(samples: seq<nat>, lo: nat, hi: nat)
    requires forall i :: 0 <= i < |samples| ==> lo <= BucketOf(samples[i]) < hi
    ensures CountIn(samples, lo, hi) == |samples|
    decreases |samples|
  {
    if samples != [] { CountAll(samples[1..], lo, hi); }
  }

  lemma {:induction false} CountNone(samples: seq<nat>, lo: nat, hi: nat)
    requires forall i :: 0 <= i < |samples| ==> !(lo <= BucketOf(samples[i]) < hi)
    ensures CountIn(samples, lo, hi) == 0
    decreases |samples|
  {
    if samples != [] { CountNone(samples[1..], lo, hi); }
  }

  // ----- the object -----

  class LatencyHistogram {
    const buckets: array<nat>
    var totalSamples: nat
    /** Everything recorded since construction or the last reset. */
    ghost var samples: seq<nat>

    ghost predicate Valid()
      reads this, buckets
    {
      && buckets.Length == BUCKETS && totalSamples == |samples|
      && (forall i :: 0 <= i < |samples| ==> BucketOf(samples[i]) < BUCKETS)
      && (forall b :: 0 <= b < BUCKETS ==> buckets[b] == InBucket(samples, b))
    }

    constructor ()
      ensures Valid() && samples == [] && fresh(buckets)
    {
      buckets := new nat[BUCKETS](_ => 0);
      totalSamples, samples := 0, [];
    }

    method Record(cycles: nat)
      requires Valid() && cycles < Pow2(BUCKETS)
      modifies this, buckets
      ensures Valid() && samples == old(samples) + [cycles]
    {
      BucketBound(cycles, BUCKETS);
      forall b | 0 <= b < BUCKETS
        ensures InBucket(samples + [cycles], b) == InBucket(samples, b) + (if BucketOf(cycles) == b then 1 else 0)
      {
        CountConcat(samples, [cycles], b, b + 1);
        assert [cycles][1..] == [];
      }
      var bucket := BucketOf(cycles);
      buckets[bucket] := buckets[bucket] + 1;
      totalSamples := totalSamples + 1;
      samples := samples + [cycles];
    }

    method Reset()
      requires Valid()
      modifies this, buckets
      ensures Valid() && samples == []
    {
      forall i | 0 <= i < BUCKETS { buckets[i] := 0; }
      totalSamples, samples := 0, [];
    }

    /** The scan of report(): the first bucket at which the running count reaches the rank. */
    method PercentileBucket(rank: nat) returns (bucket: int)
      requires Valid()
      ensures bucket == -1 <==> rank > totalSamples
      ensures bucket != -1 ==> 0 <= bucket < BUCKETS && rank <= CountIn(samples, 0, bucket + 1)
      ensures bucket > 0 ==> CountIn(samples, 0, bucket) < rank
    {
      var acc := 0;
      CountNone(samples, 0, 0);
      for b := 0 to BUCKETS
        invariant acc == CountIn(samples, 0, b)
        invariant b > 0 ==> acc < rank
      {
        CountSplit(samples, 0, b, b + 1);
        CountSplit(samples, 0, b + 1, BUCKETS);
        CountAll(samples, 0, BUCKETS);
        acc := acc + buckets[b];
        if acc >= rank { return b; }
      }
      CountAll(samples, 0, BUCKETS);
      return -1;
    }
  }

  ghost predicate Sorted(s: seq<nat>) {
    forall i, j :: 0 <= i < j < |s| ==> s[i] <= s[j]
  }

  /** The scan agrees with sorting: for every rank its bucket is the bucket of the rank-th smallest
      sample, and no other bucket satisfies what the scan promises. */
  lemma PercentileIsRank(samples: seq<nat>, sorted: seq<nat>, rank: nat, bucket: nat)
    requires multiset(samples) == multiset(sorted) && Sorted(sorted) && 1 <= rank <= |sorted|
    ensures CountIn(samples, 0, bucket) < rank <= CountIn(samples, 0, bucket + 1)
            <==> bucket == BucketOf(sorted[rank - 1])
  {
    CountPermuted(samples, sorted, 0, bucket);
    CountPermuted(samples, sorted, 0, bucket + 1);
    var at := BucketOf(sorted[rank - 1]);
    PrefixCount(sorted, rank, bucket);
    PrefixCount(sorted, rank, bucket + 1);
  }

  lemma {:induction false} PrefixCount(sorted: seq<nat>, rank: nat, hi: nat)
    requires Sorted(sorted) && 1 <= rank <= |sorted|
    ensures CountIn(sorted, 0, hi) >= rank <==> BucketOf(sorted[rank - 1]) < hi
  {
    var low, high := sorted[..rank], sorted[rank..];
    assert sorted == low + high;
    CountConcat(low, high, 0, hi);
    if BucketOf(sorted[rank - 1]) < hi {
      forall i | 0 <= i < |low| ensures BucketOf(low[i]) < hi {
        BucketMonotone(low[i], sorted[rank - 1]);
      }
      CountAll(low, 0, hi);
    } else {
      var low', high' := sorted[..rank - 1], sorted[rank - 1..];
      assert sorted == low' + high';
      CountConcat(low', high', 0, hi);
      forall i | 0 <= i < |high'| ensures BucketOf(high'[i]) >= hi {
        assert sorted[rank - 1] <= high'[i];
        BucketMonotone(sorted[rank - 1], high'[i]);
      }
      CountNone(high', 0, hi);
    }
  }
}
