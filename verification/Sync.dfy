/** The sync of a snapshot over the fetch protocol: when the calls it makes never share a hash. */
module Sync {
  import opened Prelude
  import opened Store
  import FanOut
  import FetchProtocol

  type System = FetchProtocol.System
  type State = FetchProtocol.State
  type Action = FetchProtocol.Action

  /** The hashes of the calls that begin during the run, in order. */
  function Begun(acts: seq<Action>): seq<string>
  {
    if acts == [] then [] else (if acts[0].Begin? then [acts[0].hash] else []) + Begun(acts[1..])
  }

  /** The calls made so far and those still to come are all for different hashes. */
  ghost predicate Fresh(s: State, later: seq<string>)
  {
    && Distinct(later)
    && (forall f, g :: f in s.fetches && g in s.fetches && f != g ==> s.fetches[f].hash != s.fetches[g].hash)
    && (forall f :: f in s.fetches ==> s.fetches[f].hash !in later)
  }

  lemma FreshStep(sys: System, s: State, a: Action, later: seq<string>)
    requires FetchProtocol.Enabled(sys, s, a) && Fresh(s, (if a.Begin? then [a.hash] else []) + later)
    ensures Fresh(FetchProtocol.Step(sys, s, a), later)
  {
    var s' := FetchProtocol.Step(sys, s, a);
    var now := (if a.Begin? then [a.hash] else []) + later;
    SameHashes(sys, s, a);
    if a.Begin? {
      assert now[0] == a.hash && now[1..] == later;
      assert forall i :: 0 <= i < |later| ==> now[i + 1] == later[i];
    } else {
      assert now == later;
    }
  }

  /** A call keeps its hash, and only its beginning adds one. */
  lemma SameHashes(sys: System, s: State, a: Action)
    requires FetchProtocol.Enabled(sys, s, a)
    ensures var s' := FetchProtocol.Step(sys, s, a);
      && (forall f :: f in s.fetches ==> f in s'.fetches && s'.fetches[f].hash == s.fetches[f].hash)
      && (forall f :: f in s'.fetches && f !in s.fetches ==> a.Begin? && s'.fetches[f].hash == a.hash && f == a.fetch)
  {
  }

  lemma {:induction false} FreshRun(sys: System, s: State, acts: seq<Action>, later: seq<string>)
    requires FetchProtocol.Runs(sys, s, acts) && Fresh(s, Begun(acts) + later)
    ensures FetchProtocol.AlwaysUnique(sys, s, acts) && Fresh(FetchProtocol.Final(sys, s, acts), later)
    decreases |acts|
  {
    hide FetchProtocol.Step, FetchProtocol.Enabled;
    if acts == [] {
      assert Begun(acts) + later == later;
    } else {
      var first := if acts[0].Begin? then [acts[0].hash] else [];
      assert Begun(acts) + later == first + (Begun(acts[1..]) + later);
      FreshStep(sys, s, acts[0], Begun(acts[1..]) + later);
      FreshRun(sys, FetchProtocol.Step(sys, s, acts[0]), acts[1..], later);
    }
  }

  lemma {:induction false} DistinctIffOnce(xs: seq<string>)
    ensures Distinct(xs) <==> forall x :: multiset(xs)[x] <= 1
  {
    if xs != [] {
      var n := |xs| - 1;
      DistinctIffOnce(xs[..n]);
      assert xs == xs[..n] + [xs[n]];
      if xs[n] in xs[..n] {
        var k :| 0 <= k < n && xs[k] == xs[n];
        assert multiset(xs)[xs[n]] >= 2;
      } else {
        assert multiset(xs[..n])[xs[n]] == 0;
        assert Distinct(xs) <==> Distinct(xs[..n]);
        assert forall x :: multiset(xs)[x] <= 1 <==> multiset(xs[..n])[x] <= 1;
      }
    }
  }

  /** A run from the start in which calls are made for these hashes, at most one for each occurrence. */
  predicate CallsFor(sys: System, blocks: Blocks, acts: seq<Action>, hashes: seq<string>)
  {
    FetchProtocol.Runs(sys, FetchProtocol.Init(blocks), acts) && multiset(Begun(acts)) <= multiset(hashes)
  }

  /**
   * If calls are made for these hashes, one call each at most, then no two live calls ever share a hash, whatever the
   * interleaving, if and only if the hashes are pairwise different. They are those a sync starts goroutines for, and
   * those that anybody else fetches.
   */
  lemma UniqueIffDistinct(sys: System, blocks: Blocks, hashes: seq<string>)
    requires forall h :: h in hashes ==> h !in blocks
    ensures (forall acts :: CallsFor(sys, blocks, acts, hashes) ==>
              FetchProtocol.AlwaysUnique(sys, FetchProtocol.Init(blocks), acts))
       <==> Distinct(hashes)
  {
    if Distinct(hashes) {
      forall acts | CallsFor(sys, blocks, acts, hashes)
        ensures FetchProtocol.AlwaysUnique(sys, FetchProtocol.Init(blocks), acts)
      {
        DistinctIffOnce(hashes);
        DistinctIffOnce(Begun(acts));
        assert Begun(acts) + [] == Begun(acts);
        FreshRun(sys, FetchProtocol.Init(blocks), acts, []);
      }
    } else {
      DistinctIffOnce(hashes);
      var h :| multiset(hashes)[h] > 1;
      assert h in hashes;
      TwoCallsShare(sys, blocks, h);
      assert CallsFor(sys, blocks, BothCall(h), hashes);
    }
  }

  function BothCall(h: string): seq<Action>
  {
    FetchProtocol.CallThen(0, h, true, FetchProtocol.CallThen(1, h, true, []))
  }

  /** Two calls for one missing hash can be live at the same time. */
  lemma TwoCallsShare(sys: System, blocks: Blocks, h: string)
    requires h !in blocks
    ensures var acts, s := BothCall(h), FetchProtocol.Init(blocks);
      && FetchProtocol.Runs(sys, s, acts) && multiset(Begun(acts)) == multiset{h, h}
      && !FetchProtocol.AlwaysUnique(sys, s, acts)
  {
    hide FetchProtocol.Step, FetchProtocol.Enabled, FetchProtocol.Runs, FetchProtocol.Final, FetchProtocol.AlwaysUnique;
    var s := FetchProtocol.Init(blocks);
    var one := FetchProtocol.Called(s, 0, h, true);
    var two := FetchProtocol.Called(one, 1, h, true);
    FetchProtocol.Nothing(sys, two);
    FetchProtocol.CallRuns(sys, one, 1, h, true, []);
    FetchProtocol.CallRuns(sys, s, 0, h, true, FetchProtocol.CallThen(1, h, true, []));
    BegunByCall(0, h, FetchProtocol.CallThen(1, h, true, []));
    BegunByCall(1, h, []);
    assert !FetchProtocol.UniqueLive(two) by {
      assert two.fetches[0].hash == two.fetches[1].hash;
      assert FetchProtocol.Live(two.fetches[0].stage) && FetchProtocol.Live(two.fetches[1].stage);
    }
    if FetchProtocol.AlwaysUnique(sys, s, BothCall(h)) { FetchProtocol.UniqueMeansAllOwn(sys, s, BothCall(h)); }
  }

  lemma BegunByCall(f: int, h: string, rest: seq<Action>)
    ensures Begun(FetchProtocol.CallThen(f, h, true, rest)) == [h] + Begun(rest)
  {
    var last := [FetchProtocol.Publish(f, true)] + rest;
    var third := [FetchProtocol.Register(f)] + last;
    var second := [FetchProtocol.CheckLocal(f)] + third;
    var first := [FetchProtocol.Begin(f, h)] + second;
    assert last[1..] == rest && third[1..] == last && second[1..] == third && first[1..] == second;
    assert Begun(last) == Begun(rest) && Begun(third) == Begun(last) && Begun(second) == Begun(third);
  }

  /**
   * A sync of a snapshot without repeated hashes, none of which anybody else fetches, asks for different hashes
   * only.
   */
  lemma SyncHashesDistinct(max: nat, chunks: seq<string>, acts: seq<FanOut.Action>, others: seq<string>)
    requires FanOut.Runs(max, FanOut.Init(|chunks|), acts)
    requires Distinct(chunks) && Distinct(others) && forall h :: h in others ==> h !in chunks
    ensures Distinct(FanOut.Spawned(max, FanOut.Init(|chunks|), acts, chunks) + others)
  {
    FanOut.SpawnedFrom(max, FanOut.Init(|chunks|), acts, chunks);
    var mine := FanOut.Spawned(max, FanOut.Init(|chunks|), acts, chunks);
    assert chunks[0..] == chunks;
    forall i, j | 0 <= i < j < |mine + others| ensures (mine + others)[i] != (mine + others)[j] {
      if i < |mine| <= j { assert mine[i] in mine && others[j - |mine|] in others; }
    }
  }

  /**
   * So in a run whose calls are all for different hashes no wake-up is lost: any response committed while a call is
   * registered has filled its channel once the handler is done, if the call still waits then.
   */
  lemma DistinctCallsAreWoken(sys: System, blocks: Blocks, first: seq<Action>, rest: seq<Action>, k: int, f: int,
                              h: string)
    requires FetchProtocol.Runs(sys, FetchProtocol.Init(blocks), first)
    requires var s := FetchProtocol.Final(sys, FetchProtocol.Init(blocks), first);
      && FetchProtocol.InFlight(s, f, h) && k in s.handlers && s.handlers[k].Verified? && s.handlers[k].hash == h
      && var committed := FetchProtocol.Step(sys, s, FetchProtocol.CommitPut(k, true));
         && FetchProtocol.Runs(sys, committed, rest)
         && var s' := FetchProtocol.Final(sys, committed, rest);
            FetchProtocol.Awaiting(s', f, h) && k in s'.handlers && s'.handlers[k].Finished?
    requires Distinct(Begun(first) + Begun(rest))
    ensures var s := FetchProtocol.Final(sys, FetchProtocol.Init(blocks), first);
      var committed := FetchProtocol.Step(sys, s, FetchProtocol.CommitPut(k, true));
      FetchProtocol.Final(sys, committed, rest).fetches[f].slot.Some?
  {
    FreshRun(sys, FetchProtocol.Init(blocks), first, Begun(rest));
    var s := FetchProtocol.Final(sys, FetchProtocol.Init(blocks), first);
    var committed := FetchProtocol.Step(sys, s, FetchProtocol.CommitPut(k, true));
    assert Begun(rest) + [] == Begun(rest);
    assert Fresh(committed, Begun(rest) + []);
    FreshRun(sys, committed, rest, []);
    FetchProtocol.UniqueFetchIsWoken(sys, blocks, first, rest, k, f, h);
  }
}
