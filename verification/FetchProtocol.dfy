/**
 * internal/p2p/sync.go as a transition system: any number of FetchChunk calls and response handlers run
 * concurrently over the shared pending map, the store and one-place channels, while the topic may lose,
 * duplicate and reorder messages and other components write the store.
 */
module FetchProtocol {
  import opened Prelude
  import opened Crypto
  import opened Store
  import opened Messages
  import opened ChunkFetcher

  datatype FetchResult = Local(data: Bytes) | FromPeer(data: Bytes) | Failed

  /** Where a FetchChunk call stands; each call owns one channel, whose place is `slot`. */
  datatype Stage =
    | Checking             // about to look into the local store
    | Missed               // not stored locally; request being built
    | Registered           // channel put into the pending map
    | Waiting              // request published
    | Exiting(result: FetchResult)    // deferred removal from the pending map still to run
    | Done(result: FetchResult)

  datatype Fetch = Fetch(hash: string, stage: Stage, slot: Option<Bytes>)

  /** Where a response handler stands after its checks have passed. */
  datatype Handler =
    | Verified(hash: string, data: Bytes)
    | Stored(hash: string, data: Bytes)
    | Loaded(hash: string, data: Bytes, channel: int)
    | Finished

  /** `puts` remembers every blob a handler has committed under a hash. */
  datatype State = State(
    blocks: Blocks, pending: map<string, int>, fetches: map<int, Fetch>,
    handlers: map<int, Handler>, puts: set<(string, Bytes)>)

  datatype Action =
    | Begin(fetch: int, hash: string)
    | CheckLocal(fetch: int)
    | Register(fetch: int)
    | Publish(fetch: int, ok: bool)
    | Take(fetch: int)
    | GiveUp(fetch: int)               // timeout or cancelled context
    | Exit(fetch: int)
    | Arrive(handler: int, resp: ChunkResponse)
    | CommitPut(handler: int, ok: bool)
    | Load(handler: int)
    | Send(handler: int)
    | LocalPut(plaintext: Bytes, env: WriteEnv)
    | LocalDelete(hash: string)

  datatype System = System(crypto: Suite, key: Bytes, signer: Signer)

  predicate At(s: State, f: int, stage: Stage) { f in s.fetches && s.fetches[f].stage == stage }

  predicate Enabled(sys: System, s: State, a: Action)
  {
    match a
    case Begin(f, _) => f !in s.fetches
    case CheckLocal(f) => At(s, f, Checking)
    case Register(f) => At(s, f, Missed)
    case Publish(f, _) => At(s, f, Registered)
    case Take(f) => At(s, f, Waiting) && s.fetches[f].slot.Some?
    case GiveUp(f) => At(s, f, Waiting)
    case Exit(f) => f in s.fetches && s.fetches[f].stage.Exiting?
    case Arrive(k, resp) => k !in s.handlers && CheckResponse(sys.crypto, sys.signer, resp).Ok?
    case CommitPut(k, _) => k in s.handlers && s.handlers[k].Verified?
    case Load(k) => k in s.handlers && s.handlers[k].Stored?
    case Send(k) => k in s.handlers && s.handlers[k].Loaded? && s.handlers[k].channel in s.fetches
    case LocalPut(_, _) => true
    case LocalDelete(_) => true
  }

  function Move(s: State, f: int, stage: Stage): State
    requires f in s.fetches
  {
    s.(fetches := s.fetches[f := s.fetches[f].(stage := stage)])
  }

  function Step(sys: System, s: State, a: Action): (s': State)
    requires Enabled(sys, s, a)
  {
    match a
    case Begin(f, h) => s.(fetches := s.fetches[f := Fetch(h, Checking, None)])
    case CheckLocal(f) =>
      var h := s.fetches[f].hash;
      Move(s, f, if h in s.blocks then Done(Local(s.blocks[h])) else Missed)
    case Register(f) => Move(s, f, Registered).(pending := s.pending[s.fetches[f].hash := f])
    case Publish(f, ok) => Move(s, f, if ok then Waiting else Exiting(Failed))
    case Take(f) =>
      var call := s.fetches[f];
      s.(fetches := s.fetches[f := call.(stage := Exiting(FromPeer(call.slot.value)), slot := None)])
    case GiveUp(f) => Move(s, f, Exiting(Failed))
    case Exit(f) => Move(s, f, Done(s.fetches[f].stage.result)).(pending := s.pending - {s.fetches[f].hash})
    case Arrive(k, resp) =>
      s.(handlers := s.handlers[k := Verified(resp.hash, CheckResponse(sys.crypto, sys.signer, resp).value)])
    case CommitPut(k, ok) =>
      var Verified(h, data) := s.handlers[k];
      if !ok then s.(handlers := s.handlers[k := Finished])
      else s.(blocks := s.blocks[h := data], handlers := s.handlers[k := Stored(h, data)], puts := s.puts + {(h, data)})
    case Load(k) =>
      var Stored(h, data) := s.handlers[k];
      s.(handlers := s.handlers[k := if h in s.pending then Loaded(h, data, s.pending[h]) else Finished])
    case Send(k) =>
      var Loaded(h, data, f) := s.handlers[k];
      s.(fetches := s.fetches[f := s.fetches[f].(slot := Offered(s.fetches[f].slot, data))],
         handlers := s.handlers[k := Finished])
    case LocalPut(p, env) => s.(blocks := Written(sys.crypto, sys.key, s.blocks, p, env))
    case LocalDelete(h) => s.(blocks := s.blocks - {h})
  }

  predicate Runs(sys: System, s: State, acts: seq<Action>)
    decreases |acts|
  {
    acts == [] || (Enabled(sys, s, acts[0]) && Runs(sys, Step(sys, s, acts[0]), acts[1..]))
  }

  function Final(sys: System, s: State, acts: seq<Action>): (s': State)
    requires Runs(sys, s, acts)
    decreases |acts|
  {
    if acts == [] then s else Final(sys, Step(sys, s, acts[0]), acts[1..])
  }

  // ---- The global invariant ----

  /** The call's channel can be in the pending map: between registration and the deferred removal. */
  predicate Live(stage: Stage) { stage.Registered? || stage.Waiting? || stage.Exiting? }

  /** `data` hashes to `h` and has been committed under `h`. */
  predicate Sound(sys: System, s: State, h: string, data: Bytes)
  {
    sys.crypto.hash(data) == h && (h, data) in s.puts
  }

  ghost predicate PendingOk(s: State)
  {
    forall h :: h in s.pending ==>
      s.pending[h] in s.fetches && s.fetches[s.pending[h]].hash == h && Live(s.fetches[s.pending[h]].stage)
  }

  predicate FetchOk(sys: System, s: State, call: Fetch)
  {
    && (call.slot.Some? ==> Sound(sys, s, call.hash, call.slot.value))
    && (call.stage.Exiting? && call.stage.result.FromPeer? ==> Sound(sys, s, call.hash, call.stage.result.data))
    && (call.stage.Done? && call.stage.result.FromPeer? ==> Sound(sys, s, call.hash, call.stage.result.data))
  }

  predicate HandlerOk(sys: System, s: State, k: Handler)
  {
    match k
    case Verified(h, data) => sys.crypto.hash(data) == h
    case Stored(h, data) => Sound(sys, s, h, data)
    case Loaded(h, data, f) => Sound(sys, s, h, data) && f in s.fetches && s.fetches[f].hash == h
    case Finished => true
  }

  ghost predicate Inv(sys: System, s: State)
  {
    && PendingOk(s)
    && (forall f :: f in s.fetches ==> FetchOk(sys, s, s.fetches[f]))
    && (forall k :: k in s.handlers ==> HandlerOk(sys, s, s.handlers[k]))
  }

  function Init(blocks: Blocks): State { State(blocks, map[], map[], map[], {}) }

  lemma StepKeepsPending(sys: System, s: State, a: Action)
    requires Enabled(sys, s, a) && PendingOk(s)
    ensures PendingOk(Step(sys, s, a))
  {
  }

  lemma StepKeepsFetch(sys: System, s: State, a: Action, f: int)
    requires Enabled(sys, s, a) && Inv(sys, s) && f in Step(sys, s, a).fetches
    ensures FetchOk(sys, Step(sys, s, a), Step(sys, s, a).fetches[f])
  {
    if f in s.fetches { assert FetchOk(sys, s, s.fetches[f]); }
    if a.Send? { assert HandlerOk(sys, s, s.handlers[a.handler]); }
  }

  lemma StepKeepsHandler(sys: System, s: State, a: Action, k: int)
    requires Enabled(sys, s, a) && Inv(sys, s) && k in Step(sys, s, a).handlers
    ensures HandlerOk(sys, Step(sys, s, a), Step(sys, s, a).handlers[k])
  {
    if k in s.handlers { assert HandlerOk(sys, s, s.handlers[k]); }
  }

  lemma StepKeepsInv(sys: System, s: State, a: Action)
    requires Enabled(sys, s, a) && Inv(sys, s)
    ensures Inv(sys, Step(sys, s, a))
  {
    hide Step, FetchOk, HandlerOk;
    StepKeepsPending(sys, s, a);
    var s' := Step(sys, s, a);
    forall f | f in s'.fetches ensures FetchOk(sys, s', s'.fetches[f]) { StepKeepsFetch(sys, s, a, f); }
    forall k | k in s'.handlers ensures HandlerOk(sys, s', s'.handlers[k]) { StepKeepsHandler(sys, s, a, k); }
  }

  lemma {:induction false} RunKeepsInv(sys: System, s: State, acts: seq<Action>)
    requires Runs(sys, s, acts) && Inv(sys, s)
    ensures Inv(sys, Final(sys, s, acts))
    decreases |acts|
  {
    if acts != [] {
      StepKeepsInv(sys, s, acts[0]);
      RunKeepsInv(sys, Step(sys, s, acts[0]), acts[1..]);
    }
  }

  /** In every run, what FetchChunk(h) returns from its channel hashes to h and had been stored under h. */
  lemma DeliverySafety(sys: System, blocks: Blocks, acts: seq<Action>, f: int)
    requires Runs(sys, Init(blocks), acts)
    ensures var s := Final(sys, Init(blocks), acts);
      f in s.fetches && s.fetches[f].stage.Done? && s.fetches[f].stage.result.FromPeer? ==>
        Sound(sys, s, s.fetches[f].hash, s.fetches[f].stage.result.data)
  {
    RunKeepsInv(sys, Init(blocks), acts);
    var s := Final(sys, Init(blocks), acts);
    if f in s.fetches { assert FetchOk(sys, s, s.fetches[f]); }
  }

  /** In every run, an entry under h belongs to a live fetch of h; with no fetch live the map is empty. */
  lemma PendingMapInvariant(sys: System, blocks: Blocks, acts: seq<Action>)
    requires Runs(sys, Init(blocks), acts)
    ensures PendingOk(Final(sys, Init(blocks), acts))
    ensures var s := Final(sys, Init(blocks), acts);
      (forall f :: f in s.fetches ==> !Live(s.fetches[f].stage)) ==> s.pending == map[]
  {
    RunKeepsInv(sys, Init(blocks), acts);
    var s := Final(sys, Init(blocks), acts);
    if forall f :: f in s.fetches ==> !Live(s.fetches[f].stage) {
      forall h ensures h !in s.pending {
      }
    }
  }

  // ---- What a call answers, and why ----

  /** The answer of call `f`, once it has one. */
  function Answer(s: State, f: int): Option<FetchResult>
  {
    if f in s.fetches && (s.fetches[f].stage.Exiting? || s.fetches[f].stage.Done?) then Some(s.fetches[f].stage.result)
    else None
  }

  /**
   * What this action makes call `f` answer, if it settles it: the local block the check finds, the value taken from
   * the channel, or failure when publishing fails or the wait is given up.
   */
  function Settles(s: State, a: Action, f: int): Option<FetchResult>
  {
    if a == CheckLocal(f) && f in s.fetches && s.fetches[f].hash in s.blocks
    then Some(Local(s.blocks[s.fetches[f].hash]))
    else if a == Take(f) && f in s.fetches && s.fetches[f].slot.Some? then Some(FromPeer(s.fetches[f].slot.value))
    else if a == Publish(f, false) || a == GiveUp(f) then Some(Failed)
    else None
  }

  predicate SettledBy(sys: System, s: State, acts: seq<Action>, f: int, r: FetchResult)
    requires Runs(sys, s, acts)
    decreases |acts|
  {
    acts != [] && (Settles(s, acts[0], f) == Some(r) || SettledBy(sys, Step(sys, s, acts[0]), acts[1..], f, r))
  }

  lemma AnswerStep(sys: System, s: State, a: Action, f: int)
    requires Enabled(sys, s, a)
    ensures Answer(s, f).Some? ==> Settles(s, a, f) == None && Answer(Step(sys, s, a), f) == Answer(s, f)
    ensures Answer(s, f).None? ==> Answer(Step(sys, s, a), f) == Settles(s, a, f)
  {
  }

  lemma {:induction false} AnswerStays(sys: System, s: State, acts: seq<Action>, f: int)
    requires Runs(sys, s, acts) && Answer(s, f).Some?
    ensures Answer(Final(sys, s, acts), f) == Answer(s, f) && forall r :: !SettledBy(sys, s, acts, f, r)
    decreases |acts|
  {
    hide Step, Enabled, Settles, Answer;
    if acts != [] {
      AnswerStep(sys, s, acts[0], f);
      AnswerStays(sys, Step(sys, s, acts[0]), acts[1..], f);
    }
  }

  /** A call answers `r` exactly when some action of the run settles it with `r`. */
  lemma {:induction false} AnswersIff(sys: System, s: State, acts: seq<Action>, f: int, r: FetchResult)
    requires Runs(sys, s, acts) && Answer(s, f).None?
    ensures Answer(Final(sys, s, acts), f) == Some(r) <==> SettledBy(sys, s, acts, f, r)
    decreases |acts|
  {
    hide Step, Enabled, Settles, Answer;
    if acts != [] {
      var mid := Step(sys, s, acts[0]);
      AnswerStep(sys, s, acts[0], f);
      if Answer(mid, f).Some? { AnswerStays(sys, mid, acts[1..], f); } else { AnswersIff(sys, mid, acts[1..], f, r); }
    }
  }

  lemma {:induction false} SettledFailedIff(sys: System, s: State, acts: seq<Action>, f: int)
    requires Runs(sys, s, acts)
    ensures SettledBy(sys, s, acts, f, Failed) <==> GiveUp(f) in acts || Publish(f, false) in acts
    decreases |acts|
  {
    hide Step, Enabled;
    if acts != [] {
      SettledFailedIff(sys, Step(sys, s, acts[0]), acts[1..], f);
      assert acts == [acts[0]] + acts[1..];
    }
  }

  /** In every run a call ends in failure exactly when its publication failed or its wait was given up. */
  lemma FailsIff(sys: System, blocks: Blocks, acts: seq<Action>, f: int)
    requires Runs(sys, Init(blocks), acts)
    ensures Answer(Final(sys, Init(blocks), acts), f) == Some(Failed)
       <==> GiveUp(f) in acts || Publish(f, false) in acts
  {
    AnswersIff(sys, Init(blocks), acts, f, Failed);
    SettledFailedIff(sys, Init(blocks), acts, f);
  }

  // ---- Calls always come to an end ----

  /** How far a call is from its end. */
  function CallRank(stage: Stage): nat
  {
    match stage
    case Checking => 5 case Missed => 4 case Registered => 3 case Waiting => 2 case Exiting(_) => 1 case Done(_) => 0
  }

  /** Whatever everybody else is doing, a call that is not over can move, and every move of its own brings it closer. */
  lemma CallNeverStuck(sys: System, s: State, f: int) returns (a: Action)
    requires f in s.fetches && !s.fetches[f].stage.Done?
    ensures Enabled(sys, s, a) && CallRank(Step(sys, s, a).fetches[f].stage) < CallRank(s.fetches[f].stage)
    ensures s.fetches[f].stage.Waiting? ==> a == GiveUp(f)
  {
    match s.fetches[f].stage
    case Checking => a := CheckLocal(f);
    case Missed => a := Register(f);
    case Registered => a := Publish(f, true);
    case Waiting => a := GiveUp(f);
    case Exiting(_) => a := Exit(f);
  }

  /** At any time other components may write and delete, and any response that passes the checks may arrive. */
  lemma EnvironmentIsFree(sys: System, s: State, p: Bytes, env: WriteEnv, h: string, k: int, resp: ChunkResponse)
    ensures Enabled(sys, s, LocalPut(p, env)) && Enabled(sys, s, LocalDelete(h))
    ensures k !in s.handlers && CheckResponse(sys.crypto, sys.signer, resp).Ok? ==> Enabled(sys, s, Arrive(k, resp))
  {
  }

  // ---- Handlers never block ----

  function NextMove(s: State, k: int): Action
    requires k in s.handlers && !s.handlers[k].Finished?
  {
    match s.handlers[k]
    case Verified(_, _) => CommitPut(k, true)
    case Stored(_, _) => Load(k)
    case Loaded(_, _, _) => Send(k)
  }

  function HandlerRank(k: Handler): nat
  {
    match k case Verified(_, _) => 3 case Stored(_, _) => 2 case Loaded(_, _, _) => 1 case Finished => 0
  }

  /** Whatever everybody else is doing, an unfinished handler can move, and gets closer to its end. */
  lemma HandlerNeverBlocks(sys: System, s: State, k: int)
    requires Inv(sys, s) && k in s.handlers && !s.handlers[k].Finished?
    ensures Enabled(sys, s, NextMove(s, k))
    ensures HandlerRank(Step(sys, s, NextMove(s, k)).handlers[k]) < HandlerRank(s.handlers[k])
  {
    assert HandlerOk(sys, s, s.handlers[k]);
  }

  /** A handler whose write fails is done and leaves nothing behind. */
  lemma FailedCommitEnds(sys: System, s: State, k: int)
    requires k in s.handlers && s.handlers[k].Verified?
    ensures var s' := Step(sys, s, CommitPut(k, false));
      s'.handlers[k] == Finished && s'.blocks == s.blocks && s'.fetches == s.fetches && s'.puts == s.puts
  {
  }

  // ---- What the runs do to the store ----

  /** The store operation an action stands for, if any. */
  function OpOf(s: State, a: Action): seq<StoreOp>
  {
    match a
    case CommitPut(k, ok) =>
      if k in s.handlers && s.handlers[k].Verified? then [AcceptResponse(s.handlers[k].hash, s.handlers[k].data, ok)]
      else []
    case LocalPut(p, env) => [PutPlain(p, env)]
    case LocalDelete(h) => [DeleteKey(h, true)]
    case _ => []
  }

  function OpsOf(sys: System, s: State, acts: seq<Action>): (ops: seq<StoreOp>)
    requires Runs(sys, s, acts)
    decreases |acts|
  {
    if acts == [] then [] else OpOf(s, acts[0]) + OpsOf(sys, Step(sys, s, acts[0]), acts[1..])
  }

  lemma StoreStep(sys: System, s: State, a: Action)
    requires Enabled(sys, s, a) && Inv(sys, s)
    ensures Step(sys, s, a).blocks == ApplyOps(sys.crypto, sys.key, s.blocks, OpOf(s, a))
  {
    if a.CommitPut? { assert HandlerOk(sys, s, s.handlers[a.handler]); }
    if OpOf(s, a) != [] { assert OpOf(s, a)[1..] == []; }
  }

  /** Whatever is going on, the store is what the writers' operations, in the order of the run, make of it. */
  lemma {:induction false} RunIsStoreOps(sys: System, s: State, acts: seq<Action>)
    requires Runs(sys, s, acts) && Inv(sys, s)
    ensures Final(sys, s, acts).blocks == ApplyOps(sys.crypto, sys.key, s.blocks, OpsOf(sys, s, acts))
    decreases |acts|
  {
    hide Step, Enabled, Inv, OpOf;
    if acts != [] {
      var mid := Step(sys, s, acts[0]);
      StepKeepsInv(sys, s, acts[0]);
      StoreStep(sys, s, acts[0]);
      RunIsStoreOps(sys, mid, acts[1..]);
      OpsInTurn(sys.crypto, sys.key, s.blocks, OpOf(s, acts[0]), OpsOf(sys, mid, acts[1..]));
    }
  }

  lemma {:induction false} OpsInTurn(c: Suite, key: Bytes, blocks: Blocks, first: seq<StoreOp>, rest: seq<StoreOp>)
    ensures ApplyOps(c, key, blocks, first + rest) == ApplyOps(c, key, ApplyOps(c, key, blocks, first), rest)
    decreases |first|
  {
    hide ApplyOp;
    if first == [] {
      assert first + rest == rest;
    } else {
      assert (first + rest)[1..] == first[1..] + rest;
      OpsInTurn(c, key, ApplyOp(c, key, blocks, first[0]), first[1..], rest);
    }
  }

  /** Undisturbed, the three moves of a handler do what HandleChunkResponse does in one call. */
  lemma HandlerMovesCompose(sys: System, s: State, k: int)
    requires Inv(sys, s) && k in s.handlers && s.handlers[k].Verified?
    ensures var Verified(h, data) := s.handlers[k];
      var stored := Step(sys, s, CommitPut(k, true));
      var loaded := Step(sys, stored, Load(k));
      && stored.blocks == s.blocks[h := data]
      && (h !in s.pending ==> loaded.handlers[k].Finished? && loaded.fetches == s.fetches)
      && (h in s.pending ==>
            && Enabled(sys, loaded, Send(k))
            && var f := s.pending[h];
               var call := s.fetches[f];
               Step(sys, loaded, Send(k)).fetches == s.fetches[f := call.(slot := Offered(call.slot, data))])
  {
  }

  // ---- Who keeps the entry ----

  /** Another call for the same hash overwrites or removes the entry of `f`. */
  predicate Interferes(s: State, a: Action, f: int, h: string)
  {
    match a
    case Register(g) => g != f && g in s.fetches && s.fetches[g].hash == h
    case Exit(g) => g != f && g in s.fetches && s.fetches[g].hash == h
    case _ => false
  }

  predicate Interfered(sys: System, s: State, acts: seq<Action>, f: int, h: string)
    requires Runs(sys, s, acts)
    decreases |acts|
  {
    acts != [] && (Interferes(s, acts[0], f, h) || Interfered(sys, Step(sys, s, acts[0]), acts[1..], f, h))
  }

  predicate Owns(s: State, f: int, h: string) { h in s.pending && s.pending[h] == f }

  /** `f` is a registered fetch of `h` whose deferred removal has not run. */
  predicate InFlight(s: State, f: int, h: string)
  {
    f in s.fetches && s.fetches[f].hash == h && Live(s.fetches[f].stage)
  }

  lemma OwnershipStep(sys: System, s: State, a: Action, f: int, h: string)
    requires Enabled(sys, s, a) && InFlight(s, f, h) && InFlight(Step(sys, s, a), f, h)
    ensures Owns(Step(sys, s, a), f, h) <==> Owns(s, f, h) && !Interferes(s, a, f, h)
  {
  }

  /** Once a call has run its deferred removal it is over; it never becomes live again. */
  lemma {:induction false} StaysOver(sys: System, s: State, acts: seq<Action>, f: int)
    requires Runs(sys, s, acts) && f in s.fetches && s.fetches[f].stage.Done?
    ensures f in Final(sys, s, acts).fetches && Final(sys, s, acts).fetches[f].stage.Done?
    decreases |acts|
  {
    if acts != [] { StaysOver(sys, Step(sys, s, acts[0]), acts[1..], f); }
  }

  /**
   * While a fetch is in flight, it owns its entry exactly as long as no other call for its hash registered or
   * exited.
   */
  lemma {:induction false} EntryKeptIff(sys: System, s: State, acts: seq<Action>, f: int, h: string)
    requires Runs(sys, s, acts) && InFlight(s, f, h) && InFlight(Final(sys, s, acts), f, h)
    ensures Owns(Final(sys, s, acts), f, h) <==> Owns(s, f, h) && !Interfered(sys, s, acts, f, h)
    decreases |acts|
  {
    if acts != [] {
      var mid := Step(sys, s, acts[0]);
      if acts[0] == Exit(f) { StaysOver(sys, mid, acts[1..], f); }
      OwnershipStep(sys, s, acts[0], f, h);
      EntryKeptIff(sys, mid, acts[1..], f, h);
    }
  }

  /** A handler that has stored `h` picks the channel of `f` exactly when no other call for the hash interfered. */
  lemma ResponseReachesIff(sys: System, s: State, acts: seq<Action>, k: int, f: int, h: string, data: Bytes)
    requires Runs(sys, s, acts) && InFlight(s, f, h) && Owns(s, f, h) && InFlight(Final(sys, s, acts), f, h)
    requires k in Final(sys, s, acts).handlers && Final(sys, s, acts).handlers[k] == Stored(h, data)
    ensures Step(sys, Final(sys, s, acts), Load(k)).handlers[k] == Loaded(h, data, f)
       <==> !Interfered(sys, s, acts, f, h)
  {
    EntryKeptIff(sys, s, acts, f, h);
  }

  ghost predicate UniqueLive(s: State)
  {
    forall f, g :: f in s.fetches && g in s.fetches && f != g && Live(s.fetches[f].stage) && Live(s.fetches[g].stage)
      ==> s.fetches[f].hash != s.fetches[g].hash
  }

  ghost predicate AlwaysUnique(sys: System, s: State, acts: seq<Action>)
    requires Runs(sys, s, acts)
    decreases |acts|
  {
    UniqueLive(s) && (acts == [] || AlwaysUnique(sys, Step(sys, s, acts[0]), acts[1..]))
  }

  /** If no two live fetches ever share a hash, nobody disturbs a fetch in flight. */
  lemma {:induction false} UniqueMeansUndisturbed(sys: System, s: State, acts: seq<Action>, f: int, h: string)
    requires Runs(sys, s, acts) && InFlight(s, f, h) && InFlight(Final(sys, s, acts), f, h)
    requires AlwaysUnique(sys, s, acts)
    ensures !Interfered(sys, s, acts, f, h)
    decreases |acts|
  {
    if acts != [] {
      var mid := Step(sys, s, acts[0]);
      if acts[0] == Exit(f) { StaysOver(sys, mid, acts[1..], f); }
      assert UniqueLive(s) && UniqueLive(mid);
      if acts[0].Register? && acts[0].fetch != f {
        assert Live(mid.fetches[acts[0].fetch].stage) && Live(mid.fetches[f].stage);
      }
      UniqueMeansUndisturbed(sys, mid, acts[1..], f, h);
    }
  }

  // ---- No lost wake-up ----

  /** `f` is still waiting for its chunk. */
  predicate Awaiting(s: State, f: int, h: string)
  {
    f in s.fetches && s.fetches[f].hash == h && (s.fetches[f].stage.Registered? || s.fetches[f].stage.Waiting?)
  }

  /** Handler `k`, having stored `h`, will fill the channel of `f` or has done so. */
  predicate WillWake(s: State, k: int, f: int, h: string)
  {
    && k in s.handlers && f in s.fetches
    && match s.handlers[k]
       case Verified(_, _) => false
       case Stored(hash, _) => hash == h && Owns(s, f, h)
       case Loaded(hash, _, channel) => hash == h && channel == f
       case Finished => s.fetches[f].slot.Some?
  }

  lemma WakeStep(sys: System, s: State, a: Action, k: int, f: int, h: string)
    requires Enabled(sys, s, a) && WillWake(s, k, f, h) && !Interferes(s, a, f, h)
    requires Awaiting(s, f, h) && Awaiting(Step(sys, s, a), f, h)
    ensures WillWake(Step(sys, s, a), k, f, h)
  {
    OwnershipStep(sys, s, a, f, h);
  }

  /** Leaving the wait is final. */
  lemma {:induction false} WaitedBefore(sys: System, s: State, acts: seq<Action>, f: int, h: string)
    requires Runs(sys, s, acts) && InFlight(s, f, h) && Awaiting(Final(sys, s, acts), f, h)
    ensures Awaiting(s, f, h)
    decreases |acts|
  {
    if acts != [] {
      var mid := Step(sys, s, acts[0]);
      if acts[0] == Exit(f) { StaysOver(sys, mid, acts[1..], f); }
      WaitedBefore(sys, mid, acts[1..], f, h);
    }
  }

  /**
   * A response stored while `f` owns its entry reaches `f`: when the handler is done, the channel of `f` is
   * full if `f` is still waiting, provided no other call for the same hash registered or exited meanwhile.
   */
  lemma {:induction false} NoLostWakeup(sys: System, s: State, acts: seq<Action>, k: int, f: int, h: string)
    requires Runs(sys, s, acts) && WillWake(s, k, f, h) && InFlight(s, f, h)
    requires !Interfered(sys, s, acts, f, h)
    requires Awaiting(Final(sys, s, acts), f, h)
    ensures WillWake(Final(sys, s, acts), k, f, h)
    ensures Final(sys, s, acts).handlers[k].Finished? ==> Final(sys, s, acts).fetches[f].slot.Some?
    decreases |acts|
  {
    WaitedBefore(sys, s, acts, f, h);
    if acts != [] {
      var mid := Step(sys, s, acts[0]);
      WaitedBefore(sys, mid, acts[1..], f, h);
      WakeStep(sys, s, acts[0], k, f, h);
      NoLostWakeup(sys, mid, acts[1..], k, f, h);
    }
  }

  /** Every fetch in flight owns the entry of its hash. */
  ghost predicate AllOwn(s: State)
  {
    forall f :: f in s.fetches && Live(s.fetches[f].stage) ==> Owns(s, f, s.fetches[f].hash)
  }

  lemma OwnStep(sys: System, s: State, a: Action)
    requires Enabled(sys, s, a) && AllOwn(s) && UniqueLive(s) && UniqueLive(Step(sys, s, a))
    ensures AllOwn(Step(sys, s, a))
  {
    var s' := Step(sys, s, a);
    forall f | f in s'.fetches && Live(s'.fetches[f].stage)
      ensures Owns(s', f, s'.fetches[f].hash)
    {
      if f in s.fetches && Live(s.fetches[f].stage) {
        var h := s.fetches[f].hash;
        assert InFlight(s, f, h) && InFlight(s', f, h);
        if a.Register? && a.fetch != f { assert Live(s'.fetches[a.fetch].stage); }
        OwnershipStep(sys, s, a, f, h);
      }
    }
  }

  lemma {:induction false} UniqueMeansAllOwn(sys: System, s: State, acts: seq<Action>)
    requires Runs(sys, s, acts) && AlwaysUnique(sys, s, acts) && AllOwn(s)
    ensures AllOwn(Final(sys, s, acts)) && UniqueLive(Final(sys, s, acts))
    decreases |acts|
  {
    hide Step, Enabled, AllOwn, UniqueLive;
    if acts != [] {
      var mid := Step(sys, s, acts[0]);
      assert AlwaysUnique(sys, mid, acts[1..]);
      OwnStep(sys, s, acts[0]);
      UniqueMeansAllOwn(sys, mid, acts[1..]);
    }
  }

  /**
   * The whole promise: if no two live fetches ever share a hash, then any response for `h` that is committed while
   * `f` is registered for `h` has filled the channel of `f` once its handler is done, if `f` still waits then.
   */
  lemma UniqueFetchIsWoken(sys: System, blocks: Blocks, first: seq<Action>, rest: seq<Action>, k: int, f: int,
                           h: string)
    requires Runs(sys, Init(blocks), first) && AlwaysUnique(sys, Init(blocks), first)
    requires InFlight(Final(sys, Init(blocks), first), f, h)
    requires var s := Final(sys, Init(blocks), first);
      && k in s.handlers && s.handlers[k].Verified? && s.handlers[k].hash == h
      && var committed := Step(sys, s, CommitPut(k, true));
         && Runs(sys, committed, rest) && AlwaysUnique(sys, committed, rest)
         && var s' := Final(sys, committed, rest); Awaiting(s', f, h) && k in s'.handlers && s'.handlers[k].Finished?
    ensures Final(sys, Step(sys, Final(sys, Init(blocks), first), CommitPut(k, true)), rest).fetches[f].slot.Some?
  {
    UniqueMeansAllOwn(sys, Init(blocks), first);
    var s := Final(sys, Init(blocks), first);
    var committed := Step(sys, s, CommitPut(k, true));
    assert Owns(s, f, h) && WillWake(committed, k, f, h) && InFlight(committed, f, h);
    UniqueMeansUndisturbed(sys, committed, rest, f, h);
    NoLostWakeup(sys, committed, rest, k, f, h);
  }

  lemma Prepend(sys: System, s: State, a: Action, rest: seq<Action>)
    requires Enabled(sys, s, a) && Runs(sys, Step(sys, s, a), rest)
    ensures Runs(sys, s, [a] + rest) && Final(sys, s, [a] + rest) == Final(sys, Step(sys, s, a), rest)
  {
    assert ([a] + rest)[1..] == rest;
  }

  /** Two live calls for one hash: the second one's exit removes the entry, and the response passes the first one by. */
  lemma SharedHashLosesWakeup(sys: System, h: string, data: Bytes, blocks: Blocks)
    requires sys.crypto.hash(data) == h
    ensures var s := TwoCalls(h, data, blocks);
      var acts := [Exit(1)] + ([CommitPut(7, true)] + ([Load(7)] + []));
      && Inv(sys, s) && Runs(sys, s, acts)
      && var s' := Final(sys, s, acts);
         && 7 in s'.handlers && s'.handlers[7].Finished? && h in s'.blocks
         && At(s', 0, Waiting) && s'.fetches[0].slot == None
  {
    hide Runs, Final, Inv;
    var s := TwoCalls(h, data, blocks);
    TwoCallsInv(sys, h, data, blocks);
    var zero, one := Fetch(h, Waiting, None), Fetch(h, Done(Failed), None);
    var calls, puts := map[0 := zero, 1 := one], {(h, data)};
    var s1 := State(blocks, map[], calls, map[7 := Verified(h, data)], {});
    assert Step(sys, s, Exit(1)) == s1;
    var s2 := State(blocks[h := data], map[], calls, map[7 := Stored(h, data)], puts);
    assert Step(sys, s1, CommitPut(7, true)) == s2;
    var s3 := State(blocks[h := data], map[], calls, map[7 := Finished], puts);
    assert Step(sys, s2, Load(7)) == s3;
    Nothing(sys, s3);
    Prepend(sys, s2, Load(7), []);
    Prepend(sys, s1, CommitPut(7, true), [Load(7)] + []);
    Prepend(sys, s, Exit(1), [CommitPut(7, true)] + ([Load(7)] + []));
  }

  lemma TwoCallsInv(sys: System, h: string, data: Bytes, blocks: Blocks)
    requires sys.crypto.hash(data) == h
    ensures Inv(sys, TwoCalls(h, data, blocks))
  {
  }

  /** Call 0 waits for `h`; call 1 for the same hash registered after it and is about to leave; a response is in. */
  function TwoCalls(h: string, data: Bytes, blocks: Blocks): State
  {
    State(blocks, map[h := 1], map[0 := Fetch(h, Waiting, None), 1 := Fetch(h, Exiting(Failed), None)],
          map[7 := Verified(h, data)], {})
  }

  /** A call for `h` up to the publication of its request, followed by `rest`. */
  function CallThen(f: int, h: string, published: bool, rest: seq<Action>): seq<Action>
  {
    [Begin(f, h)] + ([CheckLocal(f)] + ([Register(f)] + ([Publish(f, published)] + rest)))
  }

  function Called(s: State, f: int, h: string, published: bool): State
  {
    s.(pending := s.pending[h := f],
       fetches := s.fetches[f := Fetch(h, if published then Waiting else Exiting(Failed), None)])
  }

  lemma LastMoves(sys: System, s: State, f: int, h: string, published: bool, rest: seq<Action>)
    requires Runs(sys, Called(s, f, h, published), rest)
    ensures var missed := s.(fetches := s.fetches[f := Fetch(h, Missed, None)]);
      var acts := [Register(f)] + ([Publish(f, published)] + rest);
      Runs(sys, missed, acts) && Final(sys, missed, acts) == Final(sys, Called(s, f, h, published), rest)
  {
    hide Runs, Final;
    var missed := s.(fetches := s.fetches[f := Fetch(h, Missed, None)]);
    var registered := Step(sys, missed, Register(f));
    assert Step(sys, registered, Publish(f, published)) == Called(s, f, h, published);
    Prepend(sys, registered, Publish(f, published), rest);
    Prepend(sys, missed, Register(f), [Publish(f, published)] + rest);
  }

  lemma CallRuns(sys: System, s: State, f: int, h: string, published: bool, rest: seq<Action>)
    requires f !in s.fetches && h !in s.blocks && Runs(sys, Called(s, f, h, published), rest)
    ensures Runs(sys, s, CallThen(f, h, published, rest))
    ensures Final(sys, s, CallThen(f, h, published, rest)) == Final(sys, Called(s, f, h, published), rest)
  {
    hide Runs, Final;
    var begun := Step(sys, s, Begin(f, h));
    var missed := Step(sys, begun, CheckLocal(f));
    assert missed == s.(fetches := s.fetches[f := Fetch(h, Missed, None)]);
    LastMoves(sys, s, f, h, published, rest);
    Prepend(sys, begun, CheckLocal(f), [Register(f)] + ([Publish(f, published)] + rest));
    Prepend(sys, s, Begin(f, h), [CheckLocal(f)] + ([Register(f)] + ([Publish(f, published)] + rest)));
  }

  /** From the initial state, two calls for one hash and a response do reach the state of that loss. */
  lemma SharedHashIsReachable(sys: System, resp: ChunkResponse, blocks: Blocks)
    requires CheckResponse(sys.crypto, sys.signer, resp).Ok? && resp.hash !in blocks
    ensures var h, data := resp.hash, CheckResponse(sys.crypto, sys.signer, resp).value;
      var acts := CallThen(0, h, true, CallThen(1, h, false, [Arrive(7, resp)] + []));
      && Runs(sys, Init(blocks), acts)
      && Final(sys, Init(blocks), acts) == TwoCalls(h, data, blocks)
  {
    hide Runs, Final;
    var h, data := resp.hash, CheckResponse(sys.crypto, sys.signer, resp).value;
    var one := Called(Init(blocks), 0, h, true);
    var two := Called(one, 1, h, false);
    var end := Step(sys, two, Arrive(7, resp));
    assert end == TwoCalls(h, data, blocks);
    Nothing(sys, end);
    Prepend(sys, two, Arrive(7, resp), []);
    CallRuns(sys, one, 1, h, false, [Arrive(7, resp)] + []);
    CallRuns(sys, Init(blocks), 0, h, true, CallThen(1, h, false, [Arrive(7, resp)] + []));
  }

  /** From the loaded channel to the end of the call that waits on it. */
  function HandOver(): seq<Action> { [Send(7)] + ([Take(0)] + ([Exit(0)] + [])) }

  /** What happens from the arrival of a response to the end of the call that waits for it. */
  function Delivery(resp: ChunkResponse): seq<Action>
  {
    [Arrive(7, resp)] + ([CommitPut(7, true)] + ([Load(7)] + HandOver()))
  }

  lemma HandOverRuns(sys: System, h: string, data: Bytes, blocks: Blocks, puts: set<(string, Bytes)>)
    ensures var s := State(blocks, map[h := 0], map[0 := Fetch(h, Waiting, None)], map[7 := Loaded(h, data, 0)], puts);
      var call := Fetch(h, Done(FromPeer(data)), None);
      && Runs(sys, s, HandOver())
      && Final(sys, s, HandOver()) == State(blocks, map[], map[0 := call], map[7 := Finished], puts)
  {
    hide Runs, Final;
    var s := State(blocks, map[h := 0], map[0 := Fetch(h, Waiting, None)], map[7 := Loaded(h, data, 0)], puts);
    var s1 := State(blocks, map[h := 0], map[0 := Fetch(h, Waiting, Some(data))], map[7 := Finished], puts);
    assert Step(sys, s, Send(7)) == s1;
    var s2 := State(blocks, map[h := 0], map[0 := Fetch(h, Exiting(FromPeer(data)), None)], map[7 := Finished], puts);
    assert Step(sys, s1, Take(0)) == s2;
    var s3 := State(blocks, map[], map[0 := Fetch(h, Done(FromPeer(data)), None)], map[7 := Finished], puts);
    assert Step(sys, s2, Exit(0)) == s3;
    Nothing(sys, s3);
    Prepend(sys, s2, Exit(0), []);
    Prepend(sys, s1, Take(0), [Exit(0)] + []);
    Prepend(sys, s, Send(7), [Take(0)] + ([Exit(0)] + []));
  }

  lemma DeliveryRuns(sys: System, resp: ChunkResponse, blocks: Blocks)
    requires CheckResponse(sys.crypto, sys.signer, resp).Ok?
    ensures var h, data := resp.hash, CheckResponse(sys.crypto, sys.signer, resp).value;
      var s, call := Called(Init(blocks), 0, h, true), Fetch(h, Done(FromPeer(data)), None);
      && Runs(sys, s, Delivery(resp))
      && Final(sys, s, Delivery(resp)) ==
           State(blocks[h := data], map[], map[0 := call], map[7 := Finished], {(h, data)})
  {
    hide Runs, Final, CheckResponse;
    var h, data := resp.hash, CheckResponse(sys.crypto, sys.signer, resp).value;
    var calls, after, puts := map[0 := Fetch(h, Waiting, None)], blocks[h := data], {(h, data)};
    var s := State(blocks, map[h := 0], calls, map[], {});
    assert Called(Init(blocks), 0, h, true) == s;
    var s1 := State(blocks, map[h := 0], calls, map[7 := Verified(h, data)], {});
    assert Step(sys, s, Arrive(7, resp)) == s1;
    var s2 := State(after, map[h := 0], calls, map[7 := Stored(h, data)], puts);
    assert Step(sys, s1, CommitPut(7, true)) == s2;
    var s3 := State(after, map[h := 0], calls, map[7 := Loaded(h, data, 0)], puts);
    assert Step(sys, s2, Load(7)) == s3;
    HandOverRuns(sys, h, data, after, puts);
    Prepend(sys, s2, Load(7), HandOver());
    Prepend(sys, s1, CommitPut(7, true), [Load(7)] + HandOver());
    Prepend(sys, s, Arrive(7, resp), [CommitPut(7, true)] + ([Load(7)] + HandOver()));
  }

  /**
   * A call for a missing chunk that a valid response reaches returns its data, stores it and cleans up after
   * itself.
   */
  lemma FetchDelivers(sys: System, resp: ChunkResponse, blocks: Blocks)
    requires CheckResponse(sys.crypto, sys.signer, resp).Ok? && resp.hash !in blocks
    ensures var h, data := resp.hash, CheckResponse(sys.crypto, sys.signer, resp).value;
      var acts := CallThen(0, h, true, Delivery(resp));
      && Runs(sys, Init(blocks), acts)
      && var s := Final(sys, Init(blocks), acts);
         && s.blocks == blocks[h := data] && s.pending == map[]
         && 0 in s.fetches && s.fetches[0].stage == Done(FromPeer(data))
  {
    hide Runs, Final, CheckResponse, Step;
    DeliveryRuns(sys, resp, blocks);
    CallRuns(sys, Init(blocks), 0, resp.hash, true, Delivery(resp));
  }

  /** A chunk that is stored is answered from the store, without a request. */
  lemma LocalIsAnswered(sys: System, h: string, blocks: Blocks)
    requires h in blocks
    ensures var acts := [Begin(0, h)] + ([CheckLocal(0)] + []);
      && Runs(sys, Init(blocks), acts)
      && var s := Final(sys, Init(blocks), acts); 0 in s.fetches && s.fetches[0].stage == Done(Local(blocks[h]))
  {
    hide Runs, Final;
    var begun := Step(sys, Init(blocks), Begin(0, h));
    Nothing(sys, Step(sys, begun, CheckLocal(0)));
    Prepend(sys, begun, CheckLocal(0), []);
    Prepend(sys, Init(blocks), Begin(0, h), [CheckLocal(0)] + []);
  }

  lemma Nothing(sys: System, s: State)
    ensures Runs(sys, s, []) && Final(sys, s, []) == s
  {
  }
}
