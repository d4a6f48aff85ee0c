/** The same ring under every interleaving of one producer and one consumer, one atomic access at a
    time.  `produced` and `consumed` record the published and the retired elements. */
module QueueInterleaving {
  import opened ModArith

  datatype Producer<T> = Idle | Filling | Advanced(value: T)
  datatype Consumer<T> = Waiting | Holding(value: T) | Retiring

  datatype State<T> = State(
    store: seq<T>, nextWrite: nat, nextRead: nat, num: nat,
    producer: Producer<T>, consumer: Consumer<T>,
    produced: seq<T>, consumed: seq<T>)
  {
    /** Elements published but not yet released by the consumer. */
    function Unretired(): int { |produced| - |consumed| }
  }

  /** The atomic accesses of getNextToWriteTo/updateWriteIndex and getNextToRead/updateReadIndex. */
  datatype Step<T> = StartWrite | Store(value: T) | AdvanceWrite | Publish | Poll | AdvanceRead | Release

  function Init<T>(store: seq<T>): State<T> {
    State(store, 0, 0, 0, Idle, Waiting, [], [])
  }

  /** Can the step be taken here?  Only StartWrite carries an assumption on the environment: the ring
      itself has no full check. */
  predicate Enabled<T>(s: State<T>, step: Step<T>) {
    |s.store| > 0 && s.nextWrite < |s.store| && s.nextRead < |s.store| &&
    match step
    case StartWrite => s.producer.Idle? && s.Unretired() < |s.store|
    case Store(_) => s.producer.Filling?
    case AdvanceWrite => s.producer.Filling?
    case Publish => s.producer.Advanced?
    case Poll => s.consumer.Waiting?
    case AdvanceRead => s.consumer.Holding?
    case Release => s.consumer.Retiring? && s.num != 0
  }

  function Next<T>(s: State<T>, step: Step<T>): State<T>
    requires Enabled(s, step)
  {
    match step
    case StartWrite => s.(producer := Filling)
    case Store(v) => s.(store := s.store[s.nextWrite := v])
    case AdvanceWrite =>
      s.(nextWrite := (s.nextWrite + 1) % |s.store|, producer := Advanced(s.store[s.nextWrite]))
    case Publish => s.(num := s.num + 1, producer := Idle, produced := s.produced + [s.producer.value])
    case Poll => if s.num == 0 then s else s.(consumer := Holding(s.store[s.nextRead]))
    case AdvanceRead =>
      s.(nextRead := (s.nextRead + 1) % |s.store|, consumer := Retiring, consumed := s.consumed + [s.consumer.value])
    case Release => s.(num := s.num - 1, consumer := Waiting)
  }

  ghost predicate Inv<T>(s: State<T>) {
    var n := |s.store|;
    && n > 0
    && s.consumed <= s.produced
    && s.Unretired() <= n
    && (s.producer != Idle ==> s.Unretired() < n)
    && s.nextRead == |s.consumed| % n
    && s.nextWrite == (|s.produced| + (if s.producer.Advanced? then 1 else 0)) % n
    && s.num == s.Unretired() + (if s.consumer.Retiring? then 1 else 0)
    && (forall k :: |s.consumed| <= k < |s.produced| ==> s.store[k % n] == s.produced[k])
    && (s.producer.Advanced? ==> s.store[|s.produced| % n] == s.producer.value)
    && (s.consumer.Holding? ==> s.Unretired() > 0 && s.consumer.value == s.produced[|s.consumed|])
  }

  lemma InitInv<T>(store: seq<T>)
    requires |store| > 0
    ensures Inv(Init(store))
  {
  }

  lemma StepInv<T>(s: State<T>, step: Step<T>)
    requires Inv(s) && Enabled(s, step)
    ensures Inv(Next(s, step))
  {
    var n := |s.store|;
    match step
    case StartWrite =>
    case Store(v) =>
      forall k | |s.consumed| <= k < |s.produced| ensures k % n != s.nextWrite {
        ModDistinct(k, |s.produced|, n);
      }
    case AdvanceWrite =>
      ModAdd(|s.produced|, 1, n);
    case Publish =>
      var s' := Next(s, step);
      forall k | |s'.consumed| <= k < |s'.produced| ensures s'.store[k % n] == s'.produced[k] {
      }
    case Poll =>
      if s.num != 0 { assert s.store[|s.consumed| % n] == s.produced[|s.consumed|]; }
    case AdvanceRead =>
      ModAdd(|s.consumed|, 1, n);
      assert s.produced[..|s.consumed| + 1] == s.produced[..|s.consumed|] + [s.produced[|s.consumed|]];
    case Release =>
  }

  ghost predicate IsRun<T>(s: State<T>, steps: seq<Step<T>>)
    decreases |steps|
  {
    steps == [] || (Enabled(s, steps[0]) && IsRun(Next(s, steps[0]), steps[1..]))
  }

  ghost function Final<T>(s: State<T>, steps: seq<Step<T>>): State<T>
    requires IsRun(s, steps)
    decreases |steps|
  {
    if steps == [] then s else Final(Next(s, steps[0]), steps[1..])
  }

  lemma {:induction false} RunInv<T>(s: State<T>, steps: seq<Step<T>>)
    requires Inv(s) && IsRun(s, steps)
    ensures Inv(Final(s, steps))
    decreases |steps|
  {
    if steps != [] {
      StepInv(s, steps[0]);
      RunInv(Next(s, steps[0]), steps[1..]);
    }
  }

  /** In every reachable state: what was consumed is a prefix of what was produced, the element the
      consumer holds is the next one and still sits unchanged in its slot, and the counter the code
      asserts to be non-zero is so. */
  lemma {:induction false} FifoUnderEveryInterleaving<T>(store: seq<T>, steps: seq<Step<T>>)
    requires |store| > 0 && IsRun(Init(store), steps)
    ensures var s := Final(Init(store), steps);
            && s.consumed <= s.produced
            && s.nextRead < |s.store|
            && (s.consumer.Holding? ==>
                  && |s.consumed| < |s.produced| && s.consumer.value == s.produced[|s.consumed|]
                  && s.store[s.nextRead] == s.consumer.value)
            && (s.consumer.Retiring? ==> s.num != 0)
            && (s.consumer.Waiting? && s.num == 0 ==> s.consumed == s.produced)
  {
    InitInv(store);
    RunInv(Init(store), steps);
    var s := Final(Init(store), steps);
    if s.consumer.Holding? {
      assert s.store[|s.consumed| % |s.store|] == s.produced[|s.consumed|];
    }
  }

  // ----- progress -----

  /** A waiting consumer whose load of the counter is not 0 gets the oldest unretired element; with 0 it
      goes on waiting, and nothing has been published that it has not consumed. */
  lemma PollTakes<T>(s: State<T>)
    requires Inv(s) && s.consumer.Waiting?
    ensures Enabled(s, Poll)
    ensures if s.num != 0 then |s.consumed| < |s.produced| && Next(s, Poll) == s.(consumer := Holding(s.produced[|s.consumed|]))
            else Next(s, Poll) == s && s.consumed == s.produced
  {
    if s.num != 0 {
      assert s.store[|s.consumed| % |s.store|] == s.produced[|s.consumed|];
    }
  }

  /** The consumer's turn from there is never blocked and consumes exactly that element. */
  lemma {:induction false} ConsumerTurn<T>(s: State<T>)
    requires Inv(s) && s.consumer.Waiting? && s.num != 0
    ensures |s.consumed| < |s.produced| && IsRun(s, [Poll, AdvanceRead, Release])
    ensures var s' := Final(s, [Poll, AdvanceRead, Release]);
            && s'.consumed == s.consumed + [s.produced[|s.consumed|]] && s'.produced == s.produced
            && s'.consumer.Waiting? && s'.num == s.num - 1 && s'.store == s.store
  {
    PollTakes(s);
    var s1 := Next(s, Poll);
    StepInv(s, Poll);
    var s2 := Next(s1, AdvanceRead);
    StepInv(s1, AdvanceRead);
    ThreeSteps(s, Poll, AdvanceRead, Release);
  }

  /** And below capacity the producer's turn is never blocked and publishes exactly what it wrote. */
  lemma {:induction false} ProducerTurn<T>(s: State<T>, v: T)
    requires Inv(s) && s.producer.Idle? && s.Unretired() < |s.store|
    ensures IsRun(s, [StartWrite, Store(v), AdvanceWrite, Publish])
    ensures var s' := Final(s, [StartWrite, Store(v), AdvanceWrite, Publish]);
            && s'.produced == s.produced + [v] && s'.consumed == s.consumed
            && s'.producer.Idle? && s'.num == s.num + 1
  {
    var s1 := Next(s, StartWrite);
    StepInv(s, StartWrite);
    var s2 := Next(s1, Store(v));
    StepInv(s1, Store(v));
    var s3 := Next(s2, AdvanceWrite);
    StepInv(s2, AdvanceWrite);
    ThreeSteps(s1, Store(v), AdvanceWrite, Publish);
    var steps: seq<Step<T>> := [StartWrite, Store(v), AdvanceWrite, Publish];
    assert steps[1..] == [Store(v), AdvanceWrite, Publish];
  }

  lemma {:induction false} ThreeSteps<T>(s: State<T>, a: Step<T>, b: Step<T>, c: Step<T>)
    requires Enabled(s, a) && Enabled(Next(s, a), b) && Enabled(Next(Next(s, a), b), c)
    ensures IsRun(s, [a, b, c]) && Final(s, [a, b, c]) == Next(Next(Next(s, a), b), c)
  {
    hide Enabled, Next;
    var s1, s2 := Next(s, a), Next(Next(s, a), b);
    var steps := [a, b, c];
    assert steps[1..] == [b, c] && steps[1..][1..] == [c] && steps[1..][1..][1..] == [];
    assert IsRun(s2, [c]) && Final(s2, [c]) == Next(s2, c) by { assert [c][1..] == []; }
    assert IsRun(s1, [b, c]) && Final(s1, [b, c]) == Final(s2, [c]);
  }

  /** The environment assumption is exact: the slot the next write would use still carries an
      unretired element if and only if the ring is full. */
  lemma OverrunExactlyWhenFull<T>(s: State<T>)
    requires Inv(s) && s.producer.Idle?
    ensures (exists k :: |s.consumed| <= k < |s.produced| && k % |s.store| == s.nextWrite)
            <==> s.Unretired() == |s.store|
  {
    var n := |s.store|;
    if s.Unretired() == n {
      ModPlus(|s.consumed|, n);
      assert |s.consumed| % n == s.nextWrite;
    } else {
      forall k | |s.consumed| <= k < |s.produced| ensures k % n != s.nextWrite {
        ModDistinct(k, |s.produced|, n);
      }
    }
  }

  /** A check the producer could make on the shared counter implies the assumption. */
  lemma CounterCheckSuffices<T>(s: State<T>)
    requires Inv(s) && s.num < |s.store|
    ensures s.Unretired() < |s.store|
  {
  }
}
