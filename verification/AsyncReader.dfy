/** The background reader under every interleaving of its worker with the line reader.  Each step is
    one critical section: the mutex is held throughout, also while the worker reads the source. */
module AsyncReaders {
  import opened ByteOrder

  /** The client alternates start_read and finish_read. */
  datatype Client = Idle | InFlight

  datatype State = State(
    remaining: Bytes,        // what the byte source has left
    block: Bytes,            // what the last read put into the third block
    desired: int,            // desired_byte_count, -1 when no read is requested
    readCount: int,          // read_byte_count, -1 when no result is ready
    running: bool,           // the worker thread has not returned
    terminating: bool,       // termination_requested
    client: Client,
    results: seq<Bytes>)     // what the finish_read calls have delivered so far

  datatype Step = WorkerRead | WorkerStop | Start(n: nat) | Finish | Terminate

  function Init(input: Bytes): State {
    State(input, [], -1, -1, true, false, Idle, [])
  }

  /** Did some finish_read deliver nothing? */
  ghost predicate SawEnd(s: State) {
    exists i :: 0 <= i < |s.results| && s.results[i] == []
  }

  predicate Enabled(s: State, step: Step) {
    match step
    case WorkerRead => s.running && !s.terminating && s.desired != -1
    case WorkerStop => s.running && s.terminating
    case Start(_) => s.client.Idle? && !s.terminating
    case Finish => s.client.InFlight? && s.readCount != -1
    case Terminate => true
  }

  function Next(s: State, step: Step): State
    requires Enabled(s, step)
  {
    match step
    case WorkerRead =>
      var block := Chunk(s.remaining, s.desired);
      s.(block := block, remaining := Rest(s.remaining, s.desired), readCount := |block|, desired := -1,
         running := block != [])
    case WorkerStop => s.(running := false)
    case Start(n) => s.(desired := n, readCount := -1, client := InFlight)
    case Finish =>
      s.(client := Idle, results := s.results + [s.block[..if 0 <= s.readCount <= |s.block| then s.readCount else 0]])
    case Terminate => s.(terminating := true)
  }

  // ----- the synchronous reader -----

  /** One read of at most n bytes: what it delivers and what it leaves. */
  function Chunk(input: Bytes, n: int): Bytes {
    if n < 0 then [] else if |input| < n then input else input[..n]
  }

  function Rest(input: Bytes, n: int): Bytes {
    if n < 0 then input else if |input| < n then [] else input[n..]
  }

  /** The results of m rounds of start_read(n) and finish_read() on the synchronous reader. */
  function SyncResults(input: Bytes, n: nat, m: nat): (rs: seq<Bytes>)
    ensures |rs| == m
    decreases m
  {
    if m == 0 then [] else [Chunk(input, n)] + SyncResults(Rest(input, n), n, m - 1)
  }

  function SyncRest(input: Bytes, n: nat, m: nat): Bytes
    decreases m
  {
    if m == 0 then input else SyncRest(Rest(input, n), n, m - 1)
  }

  lemma {:induction false} SyncExtend(input: Bytes, n: nat, m: nat)
    ensures SyncResults(input, n, m + 1) == SyncResults(input, n, m) + [Chunk(SyncRest(input, n, m), n)]
    ensures SyncRest(input, n, m + 1) == Rest(SyncRest(input, n, m), n)
    decreases m
  {
    hide Chunk, Rest;
    if m > 0 {
      SyncExtend(Rest(input, n), n, m - 1);
      var tail := SyncResults(Rest(input, n), n, m - 1);
      var c := Chunk(SyncRest(input, n, m), n);
      assert [Chunk(input, n)] + (tail + [c]) == ([Chunk(input, n)] + tail) + [c];
    }
  }

  // ----- all interleavings -----

  /** The line reader's discipline: every request is for one block of n > 0 bytes, and it does not ask
      for another result after one that was empty. */
  ghost predicate Disciplined(s: State, step: Step, n: nat) {
    && Enabled(s, step)
    && (step.Start? ==> step.n == n)
    && (step.Finish? ==> !SawEnd(s))
  }

  ghost predicate Inv(s: State, input: Bytes, n: nat) {
    && s.results == SyncResults(input, n, |s.results|)
    && (s.client.Idle? ==> s.desired == -1 && s.remaining == SyncRest(input, n, |s.results|))
    && (s.client.InFlight? ==>
          if s.readCount == -1 then
            s.desired == n && s.remaining == SyncRest(input, n, |s.results|)
          else
            && s.desired == -1 && s.readCount == |s.block|
            && s.results + [s.block] == SyncResults(input, n, |s.results| + 1)
            && s.remaining == SyncRest(input, n, |s.results| + 1))
    && (!s.running ==> s.terminating || SawEnd(s) || (s.client.InFlight? && s.readCount == 0))
    && (SawEnd(s) && s.client.InFlight? ==> s.readCount == -1)
    && (SawEnd(s) || (s.client.InFlight? && s.readCount == 0) ==> !s.running)
  }

  lemma FinishInv(s: State, input: Bytes, n: nat)
    requires n > 0 && Inv(s, input, n) && Disciplined(s, Finish, n)
    ensures Inv(Next(s, Finish), input, n)
  {
    hide SyncResults, SyncRest;
    var s' := Next(s, Finish);
    assert s.block[..s.readCount] == s.block;
    assert s'.results == s.results + [s.block];
    assert s'.results[|s.results|] == s.block;
    assert forall i :: 0 <= i < |s.results| ==> s'.results[i] == s.results[i];
    assert SawEnd(s') <==> s.block == [];
  }

  lemma ReadInv(s: State, input: Bytes, n: nat)
    requires n > 0 && Inv(s, input, n) && Disciplined(s, WorkerRead, n)
    ensures Inv(Next(s, WorkerRead), input, n)
  {
    hide SyncResults, SyncRest;
    SyncExtend(input, n, |s.results|);
    var s' := Next(s, WorkerRead);
    assert SawEnd(s') <==> SawEnd(s);
  }

  lemma StepInv(s: State, step: Step, input: Bytes, n: nat)
    requires n > 0 && Inv(s, input, n) && Disciplined(s, step, n)
    ensures Inv(Next(s, step), input, n)
  {
    if step.Finish? { FinishInv(s, input, n); }
    else if step.WorkerRead? { ReadInv(s, input, n); }
    else { OtherInv(s, step, input, n); }
  }

  lemma OtherInv(s: State, step: Step, input: Bytes, n: nat)
    requires n > 0 && Inv(s, input, n) && Disciplined(s, step, n) && !step.Finish? && !step.WorkerRead?
    ensures Inv(Next(s, step), input, n)
  {
    hide SyncResults, SyncRest;
    assert Next(s, step).results == s.results;
    assert SawEnd(Next(s, step)) <==> SawEnd(s);
  }

  ghost predicate IsRun(s: State, steps: seq<Step>, n: nat)
    decreases |steps|
  {
    steps == [] || (Disciplined(s, steps[0], n) && IsRun(Next(s, steps[0]), steps[1..], n))
  }

  ghost function Final(s: State, steps: seq<Step>, n: nat): State
    requires IsRun(s, steps, n)
    decreases |steps|
  {
    if steps == [] then s else Final(Next(s, steps[0]), steps[1..], n)
  }

  lemma {:induction false} RunInv(s: State, steps: seq<Step>, input: Bytes, n: nat)
    requires n > 0 && Inv(s, input, n) && IsRun(s, steps, n)
    ensures Inv(Final(s, steps, n), input, n)
    decreases |steps|
  {
    if steps != [] {
      StepInv(s, steps[0], input, n);
      RunInv(Next(s, steps[0]), steps[1..], input, n);
    }
  }

  /** In every reachable state: the results so far are those of the synchronous reader; the worker can
      touch the block only while a read is in flight; and a client waiting for its first empty result
      or an earlier one is never stuck unless it is being destroyed. */
  lemma {:induction false} AsyncMatchesSync(input: Bytes, steps: seq<Step>, n: nat)
    requires n > 0 && IsRun(Init(input), steps, n)
    ensures var s := Final(Init(input), steps, n);
            && s.results == SyncResults(input, n, |s.results|)
            && (Enabled(s, WorkerRead) ==> s.client.InFlight?)
            && (s.client.InFlight? && !SawEnd(s) && !s.terminating ==> Enabled(s, Finish) || Enabled(s, WorkerRead))
            && (s.terminating && s.running ==> Enabled(s, WorkerStop))
  {
    RunInv(Init(input), steps, input, n);
  }

  /** Why the discipline matters: once a result was empty the worker is gone, and a client that starts
      another read and waits for it would wait for ever. */
  lemma {:induction false} FinishAfterEndHangs(input: Bytes, steps: seq<Step>, n: nat)
    requires n > 0 && IsRun(Init(input), steps, n)
    ensures var s := Final(Init(input), steps, n);
            SawEnd(s) && s.client.InFlight? ==> !Enabled(s, Finish) && !Enabled(s, WorkerRead) && !Enabled(s, WorkerStop)
  {
    RunInv(Init(input), steps, input, n);
  }
}
