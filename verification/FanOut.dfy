/** fetchMissingChunks of internal/p2p/sync.go: one goroutine per missing chunk behind a counting semaphore. */
module FanOut {
  import opened Prelude

  /** A spawned goroutine: waiting for the semaphore, inside FetchChunk, past its release, past wg.Done. */
  datatype Worker = Acquiring | Fetching | Released | Finished

  /** The spawning loop has visited `visited` of `total` chunks; `sem` and `wg` are the semaphore and wait group. */
  datatype State = State(total: nat, visited: nat, workers: seq<Worker>, sem: nat, wg: nat, returned: bool)

  datatype Action =
    | Visit(hit: bool)         // look at the next chunk; a miss spawns a goroutine
    | Acquire(worker: nat)
    | Release(worker: nat)     // FetchChunk returned, by data, timeout or cancellation
    | SignalDone(worker: nat)
    | Return                   // wg.Wait lets the caller go

  predicate Is(s: State, k: nat, w: Worker) { k < |s.workers| && s.workers[k] == w }

  predicate Enabled(max: nat, s: State, a: Action)
  {
    match a
    case Visit(_) => s.visited < s.total
    case Acquire(k) => Is(s, k, Acquiring) && s.sem < max
    case Release(k) => Is(s, k, Fetching) && s.sem > 0
    case SignalDone(k) => Is(s, k, Released) && s.wg > 0
    case Return => s.visited == s.total && s.wg == 0 && !s.returned
  }

  function Step(max: nat, s: State, a: Action): (s': State)
    requires Enabled(max, s, a)
  {
    match a
    case Visit(hit) =>
      if hit then s.(visited := s.visited + 1)
      else s.(visited := s.visited + 1, workers := s.workers + [Acquiring], wg := s.wg + 1)
    case Acquire(k) => s.(workers := s.workers[k := Fetching], sem := s.sem + 1)
    case Release(k) => s.(workers := s.workers[k := Released], sem := s.sem - 1)
    case SignalDone(k) => s.(workers := s.workers[k := Finished], wg := s.wg - 1)
    case Return => s.(returned := true)
  }

  predicate Runs(max: nat, s: State, acts: seq<Action>)
    decreases |acts|
  {
    acts == [] || (Enabled(max, s, acts[0]) && Runs(max, Step(max, s, acts[0]), acts[1..]))
  }

  function Final(max: nat, s: State, acts: seq<Action>): (s': State)
    requires Runs(max, s, acts)
    decreases |acts|
  {
    if acts == [] then s else Final(max, Step(max, s, acts[0]), acts[1..])
  }

  function Init(total: nat): State { State(total, 0, [], 0, 0, false) }

  /** The hashes for which the loop starts a goroutine: one per occurrence of a hash that is missing when visited. */
  function Spawned(max: nat, s: State, acts: seq<Action>, chunks: seq<string>): (hashes: seq<string>)
    requires Runs(max, s, acts) && s.total == |chunks|
    decreases |acts|
  {
    if acts == [] then []
    else
      (if acts[0] == Visit(false) then [chunks[s.visited]] else [])
      + Spawned(max, Step(max, s, acts[0]), acts[1..], chunks)
  }

  /** They come from the part of the list not yet visited, so a list without repetition gives no hash twice. */
  lemma {:induction false} SpawnedFrom(max: nat, s: State, acts: seq<Action>, chunks: seq<string>)
    requires Runs(max, s, acts) && s.total == |chunks| && s.visited <= s.total
    ensures forall h :: h in Spawned(max, s, acts, chunks) ==> h in chunks[s.visited..]
    ensures Distinct(chunks) ==> Distinct(Spawned(max, s, acts, chunks))
    decreases |acts|
  {
    if acts != [] {
      var next := Step(max, s, acts[0]);
      SpawnedFrom(max, next, acts[1..], chunks);
      var rest := Spawned(max, next, acts[1..], chunks);
      forall h | h in chunks[next.visited..] ensures h in chunks[s.visited..] {
        var i :| next.visited <= i < |chunks| && chunks[i] == h;
        assert chunks[s.visited..][i - s.visited] == h;
      }
      if acts[0] == Visit(false) {
        assert chunks[s.visited..][0] == chunks[s.visited];
        if Distinct(chunks) { assert chunks[s.visited] !in chunks[next.visited..]; }
      }
    }
  }

  /** A snapshot that lists a missing hash twice starts two goroutines for it. */
  lemma RepeatedHashSpawnsTwice(max: nat, h: string)
    ensures var acts := [Visit(false), Visit(false)];
      Runs(max, Init(2), acts) && Spawned(max, Init(2), acts, [h, h]) == [h, h]
  {
    var acts := [Visit(false), Visit(false)];
    var one := Step(max, Init(2), Visit(false));
    assert acts[1..] == [Visit(false)] && acts[1..][1..] == [];
    assert Runs(max, one, acts[1..]);
    assert Spawned(max, one, acts[1..], [h, h]) == [h];
  }

  // ---- Counting ----

  function Count(ws: seq<Worker>, w: Worker): (n: nat)
  {
    if ws == [] then 0 else Count(ws[1..], w) + if ws[0] == w then 1 else 0
  }

  lemma {:induction false} CountUpdate(ws: seq<Worker>, k: nat, v: Worker, w: Worker)
    requires k < |ws|
    ensures Count(ws[k := v], w) + (if ws[k] == w then 1 else 0) == Count(ws, w) + if v == w then 1 else 0
  {
    if k > 0 {
      CountUpdate(ws[1..], k - 1, v, w);
      assert ws[k := v][1..] == ws[1..][k - 1 := v];
    } else {
      assert ws[k := v][1..] == ws[1..];
    }
  }

  lemma {:induction false} CountSpawn(ws: seq<Worker>, v: Worker, w: Worker)
    ensures Count(ws + [v], w) == Count(ws, w) + if v == w then 1 else 0
  {
    if ws == [] {
      assert ws + [v] == [v] && [v][1..] == [];
    } else {
      CountSpawn(ws[1..], v, w);
      assert (ws + [v])[1..] == ws[1..] + [v];
    }
  }

  lemma {:induction false} CountWitness(ws: seq<Worker>, w: Worker) returns (k: nat)
    requires Count(ws, w) > 0
    ensures k < |ws| && ws[k] == w
  {
    if ws[0] == w { k := 0; } else { k := CountWitness(ws[1..], w); k := k + 1; }
  }

  lemma {:induction false} CountTotal(ws: seq<Worker>)
    ensures Count(ws, Acquiring) + Count(ws, Fetching) + Count(ws, Released) + Count(ws, Finished) == |ws|
  {
    if ws != [] { CountTotal(ws[1..]); }
  }

  // ---- Invariant ----

  predicate Inv(max: nat, s: State)
  {
    && s.visited <= s.total && |s.workers| <= s.visited
    && s.sem == Count(s.workers, Fetching) && s.sem <= max
    && s.wg == |s.workers| - Count(s.workers, Finished)
    && (s.returned ==> s.visited == s.total && s.wg == 0)
  }

  lemma CountStep(max: nat, s: State, a: Action, w: Worker)
    requires Enabled(max, s, a)
    ensures var n, n' := Count(s.workers, w), Count(Step(max, s, a).workers, w);
      match a
      case Visit(hit) => n' == n + if !hit && w == Acquiring then 1 else 0
      case Acquire(_) => n' == n + (if w == Fetching then 1 else 0) - (if w == Acquiring then 1 else 0)
      case Release(_) => n' == n + (if w == Released then 1 else 0) - (if w == Fetching then 1 else 0)
      case SignalDone(_) => n' == n + (if w == Finished then 1 else 0) - (if w == Released then 1 else 0)
      case Return => n' == n
  {
    match a
    case Visit(_) => CountSpawn(s.workers, Acquiring, w);
    case Acquire(k) => CountUpdate(s.workers, k, Fetching, w);
    case Release(k) => CountUpdate(s.workers, k, Released, w);
    case SignalDone(k) => CountUpdate(s.workers, k, Finished, w);
    case Return =>
  }

  lemma StepKeepsInv(max: nat, s: State, a: Action)
    requires Enabled(max, s, a) && Inv(max, s)
    ensures Inv(max, Step(max, s, a))
  {
    CountStep(max, s, a, Fetching);
    CountStep(max, s, a, Finished);
    CountTotal(s.workers);
  }

  lemma {:induction false} RunKeepsInv(max: nat, s: State, acts: seq<Action>)
    requires Runs(max, s, acts) && Inv(max, s)
    ensures Inv(max, Final(max, s, acts))
    decreases |acts|
  {
    if acts != [] {
      StepKeepsInv(max, s, acts[0]);
      RunKeepsInv(max, Step(max, s, acts[0]), acts[1..]);
    }
  }

  /** In every interleaving at most `max` goroutines of one sync are inside FetchChunk. */
  lemma BoundedFanOut(max: nat, total: nat, acts: seq<Action>)
    requires Runs(max, Init(total), acts)
    ensures Count(Final(max, Init(total), acts).workers, Fetching) <= max
  {
    RunKeepsInv(max, Init(total), acts);
  }

  // ---- Completion ----

  /** Work left: each unvisited chunk can cost a visit and three moves of a goroutine; the caller returns once. */
  function Measure(s: State): nat
    requires s.visited <= s.total
  {
    4 * (s.total - s.visited) + 3 * Count(s.workers, Acquiring) + 2 * Count(s.workers, Fetching)
      + Count(s.workers, Released) + if s.returned then 0 else 1
  }

  lemma StepDecreases(max: nat, s: State, a: Action)
    requires Enabled(max, s, a) && Inv(max, s)
    ensures Inv(max, Step(max, s, a)) && Measure(Step(max, s, a)) < Measure(s)
  {
    StepKeepsInv(max, s, a);
    CountStep(max, s, a, Acquiring);
    CountStep(max, s, a, Fetching);
    CountStep(max, s, a, Released);
  }

  lemma {:induction false} RunIsBounded(max: nat, s: State, acts: seq<Action>)
    requires Runs(max, s, acts) && Inv(max, s)
    ensures |acts| <= Measure(s)
    decreases |acts|
  {
    if acts != [] {
      StepDecreases(max, s, acts[0]);
      RunIsBounded(max, Step(max, s, acts[0]), acts[1..]);
    }
  }

  /** The one way to be stuck: a semaphore of capacity zero with a goroutine waiting for it. */
  ghost predicate Starved(max: nat, s: State)
  {
    max == 0 && s.visited == s.total && Count(s.workers, Acquiring) > 0 && Count(s.workers, Released) == 0
  }

  /** Before the caller has returned, some move is possible exactly when the state is not starved. */
  lemma ProgressIff(max: nat, s: State)
    requires Inv(max, s) && !s.returned
    ensures (exists a :: Enabled(max, s, a)) <==> !Starved(max, s)
  {
    CountTotal(s.workers);
    if s.visited < s.total {
      assert Enabled(max, s, Visit(true));
    } else if Count(s.workers, Fetching) > 0 {
      var k := CountWitness(s.workers, Fetching);
      assert Enabled(max, s, Release(k));
    } else if Count(s.workers, Released) > 0 {
      var k := CountWitness(s.workers, Released);
      assert Enabled(max, s, SignalDone(k));
    } else if Count(s.workers, Acquiring) > 0 {
      var k := CountWitness(s.workers, Acquiring);
      if max > 0 {
        assert Enabled(max, s, Acquire(k));
      } else if exists a :: Enabled(max, s, a) {
        var a :| Enabled(max, s, a);
        if a.SignalDone? { CountPositive(s.workers, a.worker, Released); }
      }
    } else {
      assert Enabled(max, s, Return);
    }
  }

  lemma {:induction false} CountPositive(ws: seq<Worker>, k: nat, w: Worker)
    requires k < |ws| && ws[k] == w
    ensures Count(ws, w) > 0
  {
    if k > 0 { CountPositive(ws[1..], k - 1, w); }
  }

  /**
   * With at least one permit, every run is at most 4n + 1 moves long, and a run that cannot be continued has
   * let the caller return after every goroutine finished.
   */
  lemma SyncCompletes(max: nat, total: nat, acts: seq<Action>)
    requires max >= 1 && Runs(max, Init(total), acts)
    ensures |acts| <= 4 * total + 1
    ensures var s := Final(max, Init(total), acts);
      (forall a :: !Enabled(max, s, a)) ==> s.returned && Count(s.workers, Finished) == |s.workers| && s.sem == 0
  {
    RunIsBounded(max, Init(total), acts);
    RunKeepsInv(max, Init(total), acts);
    var s := Final(max, Init(total), acts);
    CountTotal(s.workers);
    if !s.returned { ProgressIff(max, s); }
  }

  /** Without a permit, one missing chunk leaves the caller waiting forever. */
  lemma ZeroPermitsStarve()
    ensures Runs(0, Init(1), [Visit(false)]) && Starved(0, Final(0, Init(1), [Visit(false)]))
  {
    var s := Step(0, Init(1), Visit(false));
    assert [Visit(false)][1..] == [];
    assert s.workers == [Acquiring] && [Acquiring][1..] == [];
    assert Count([Acquiring], Acquiring) == 1 && Count([Acquiring], Released) == 0;
  }
}
