/**
 * internal/gc/collector.go interleaved, one bolt transaction at a time, with backups, incoming responses
 * and other collector runs. The API starts all of these concurrently (internal/api/server.go).
 */
module CollectorRace {
  import opened Prelude
  import opened Crypto
  import opened Store
  import opened Versioning
  import Collector
  import Restore
  import opened Backup

  /** Where one collector run stands between two of its transactions. */
  datatype Phase =
    | Idle
    | Pruning(expired: set<string>)                                    // IDs listed as too old, not yet handled
    | Marked(refs: set<string>)                                       // references collected, chunks not yet listed
    | Sweeping(refs: set<string>, todo: set<string>)                  // listed keys not yet looked at
    | Removing(refs: set<string>, todo: set<string>, chunk: string)   // size of `chunk` read, deletion pending

  datatype State = State(blocks: Blocks, snaps: Snapshots, runs: map<int, Phase>)

  datatype Action =
    | Start(run: int, cutoff: int)
    | Prune(run: int, id: string, ok: bool)
    | Mark(run: int)
    | ListChunks(run: int)
    | Inspect(run: int, chunk: string, readable: bool)
    | Remove(run: int, ok: bool)
    | Finish(run: int)
    | Abort(run: int)
    | PutChunk(plaintext: Bytes, env: WriteEnv)
    | Accept(chunk: string, data: Bytes)
    | Save(snap: Snapshot)

  datatype System = System(crypto: Suite, key: Bytes, parse: Collector.Parser)

  /** The loops of a run take the listed keys in ascending order. */
  predicate Enabled(sys: System, s: State, a: Action)
  {
    match a
    case Start(g, _) => g !in s.runs || s.runs[g].Idle?
    case Prune(g, id, _) => g in s.runs && s.runs[g].Pruning? && IsLeast(id, s.runs[g].expired)
    case Mark(g) => g in s.runs && s.runs[g] == Pruning({})
    case ListChunks(g) => g in s.runs && s.runs[g].Marked?
    case Inspect(g, h, _) => g in s.runs && s.runs[g].Sweeping? && IsLeast(h, s.runs[g].todo)
    case Remove(g, _) => g in s.runs && s.runs[g].Removing?
    case Finish(g) => g in s.runs && s.runs[g].Sweeping? && s.runs[g].todo == {}
    case Abort(g) => g in s.runs
    case PutChunk(_, _) => true
    case Accept(h, data) => sys.crypto.hash(data) == h
    case Save(_) => true
  }

  function Step(sys: System, s: State, a: Action): (s': State)
    requires Enabled(sys, s, a)
  {
    match a
    case Start(g, cutoff) =>
      s.(runs := s.runs[g := Pruning(set id | id in s.snaps && Collector.Expired(s.snaps[id], cutoff, sys.parse))])
    case Prune(g, id, ok) =>
      s.(runs := s.runs[g := Pruning(s.runs[g].expired - {id})], snaps := if ok then s.snaps - {id} else s.snaps)
    case Mark(g) => s.(runs := s.runs[g := Marked(Collector.References(s.snaps))])
    case ListChunks(g) => s.(runs := s.runs[g := Sweeping(s.runs[g].refs, s.blocks.Keys)])
    case Inspect(g, h, readable) =>
      var Sweeping(refs, todo) := s.runs[g];
      s.(runs := s.runs[g := if h !in refs && readable && h in s.blocks then Removing(refs, todo - {h}, h)
                             else Sweeping(refs, todo - {h})])
    case Remove(g, ok) =>
      var Removing(refs, todo, h) := s.runs[g];
      s.(runs := s.runs[g := Sweeping(refs, todo)], blocks := if ok then s.blocks - {h} else s.blocks)
    case Finish(g) => s.(runs := s.runs[g := Idle])
    case Abort(g) => s.(runs := s.runs[g := Idle])
    case PutChunk(p, env) => s.(blocks := Written(sys.crypto, sys.key, s.blocks, p, env))
    case Accept(h, data) => s.(blocks := s.blocks[h := data])
    case Save(snap) => s.(snaps := s.snaps[snap.id := snap])
  }

  predicate Runs(sys: System, s: State, acts: seq<Action>)
    decreases |acts|
  {
    acts == [] || (Enabled(sys, s, acts[0]) && Runs(sys, Step(sys, s, acts[0]), acts[1..]))
  }

  function Final(sys: System, s: State, acts: seq<Action>): (s': State)
    requires Runs(sys, s, acts)
    decreases |acts|
  {
    if acts == [] then s else Final(sys, Step(sys, s, acts[0]), acts[1..])
  }

  /** At any time a run may end early, a backup may write and save, and a matching response may be accepted. */
  lemma OthersAreFree(sys: System, s: State, g: int, p: Bytes, env: WriteEnv, snap: Snapshot, data: Bytes)
    ensures g in s.runs ==> Enabled(sys, s, Abort(g)) && Step(sys, s, Abort(g)) == s.(runs := s.runs[g := Idle])
    ensures Enabled(sys, s, PutChunk(p, env)) && Enabled(sys, s, Save(snap))
    ensures Enabled(sys, s, Accept(sys.crypto.hash(data), data))
  {
  }

  /** `snap` is stored under its ID in every state of the run: never deleted, never overwritten. */
  predicate Stays(sys: System, s: State, acts: seq<Action>, snap: Snapshot)
    requires Runs(sys, s, acts)
    decreases |acts|
  {
    && snap.id in s.snaps && s.snaps[snap.id] == snap
    && (acts == [] || Stays(sys, Step(sys, s, acts[0]), acts[1..], snap))
  }

  /** A run in this phase may still delete `h` without another mark. */
  predicate Threatens(phase: Phase, h: string)
  {
    match phase
    case Idle => false
    case Pruning(_) => false
    case Marked(refs) => h !in refs
    case Sweeping(refs, todo) => h in todo && h !in refs
    case Removing(refs, todo, chunk) => h == chunk || (h in todo && h !in refs)
  }

  ghost predicate Threatened(s: State, h: string)
  {
    exists g :: g in s.runs && Threatens(s.runs[g], h)
  }

  ghost predicate Accepted(acts: seq<Action>, h: string, data: Bytes)
  {
    exists i :: 0 <= i < |acts| && acts[i] == Accept(h, data)
  }

  predicate Holds(s: State, snap: Snapshot) { snap.id in s.snaps && s.snaps[snap.id] == snap }

  /** A run marks while no stored snapshot references `h`. */
  predicate BlindMark(s: State, a: Action, h: string) { a.Mark? && h !in Collector.References(s.snaps) }

  predicate NoBlindMark(sys: System, s: State, acts: seq<Action>, h: string)
    requires Runs(sys, s, acts)
    decreases |acts|
  {
    acts == [] || (!BlindMark(s, acts[0], h) && NoBlindMark(sys, Step(sys, s, acts[0]), acts[1..], h))
  }

  /** One transaction of anybody, blind marks aside: an unthreatened key stays unthreatened, and its block stays. */
  lemma UnthreatenedStep(sys: System, s: State, a: Action, h: string)
    requires Enabled(sys, s, a) && !Threatened(s, h) && !BlindMark(s, a, h)
    ensures var s' := Step(sys, s, a);
      && !Threatened(s', h)
      && (h in s.blocks ==> h in s'.blocks && (s'.blocks[h] == s.blocks[h] || a == Accept(h, s'.blocks[h])))
  {
    var s' := Step(sys, s, a);
    forall g | g in s'.runs
      ensures !Threatens(s'.runs[g], h)
    {
      assert g in s.runs ==> !Threatens(s.runs[g], h);
    }
  }

  /** A write threatens nothing, and its key is taken afterwards. */
  lemma UnthreatenedWrite(sys: System, s: State, p: Bytes, env: WriteEnv, h: string)
    requires !Threatened(s, h) && h == sys.crypto.hash(p) && WriteSucceeds(sys.crypto, s.blocks, p, env)
    ensures var s' := Step(sys, s, PutChunk(p, env)); !Threatened(s', h) && h in s'.blocks
  {
    UnthreatenedStep(sys, s, PutChunk(p, env), h);
  }

  /** A mark starts a threat to an unthreatened key exactly when it is blind to it. */
  lemma MarkThreatensIff(sys: System, s: State, g: int, h: string)
    requires Enabled(sys, s, Mark(g)) && !Threatened(s, h)
    ensures Threatened(Step(sys, s, Mark(g)), h) <==> BlindMark(s, Mark(g), h)
  {
    if BlindMark(s, Mark(g), h) {
      assert Threatens(Step(sys, s, Mark(g)).runs[g], h);
    } else {
      UnthreatenedStep(sys, s, Mark(g), h);
    }
  }

  /** One transaction of anybody: a stored snapshot's unthreatened chunk stays present and unthreatened. */
  lemma StepKeepsChunk(sys: System, s: State, a: Action, snap: Snapshot, h: string)
    requires Enabled(sys, s, a) && h in snap.chunks && h in s.blocks && !Threatened(s, h)
    requires snap.id in s.snaps && s.snaps[snap.id] == snap
    ensures var s' := Step(sys, s, a);
      h in s'.blocks && !Threatened(s', h) && (s'.blocks[h] == s.blocks[h] || a == Accept(h, s'.blocks[h]))
  {
    assert h in Collector.References(s.snaps);
    UnthreatenedStep(sys, s, a, h);
  }

  /**
   * A chunk need not be referenced yet: between its write and the save of its snapshot it keeps its block and
   * stays unthreatened over any interleaving in which no run marks blindly, unless a response replaces the block.
   */
  lemma {:induction false} WindowKeepsChunk(sys: System, s: State, acts: seq<Action>, h: string)
    requires Runs(sys, s, acts) && NoBlindMark(sys, s, acts, h)
    requires h in s.blocks && !Threatened(s, h)
    ensures var s' := Final(sys, s, acts);
      h in s'.blocks && !Threatened(s', h) && (s'.blocks[h] == s.blocks[h] || Accepted(acts, h, s'.blocks[h]))
    decreases |acts|
  {
    hide Threatened, BlindMark;
    if acts != [] {
      UnthreatenedStep(sys, s, acts[0], h);
      var mid := Step(sys, s, acts[0]);
      WindowKeepsChunk(sys, mid, acts[1..], h);
      var s' := Final(sys, s, acts);
      if s'.blocks[h] == mid.blocks[h] {
        if s'.blocks[h] != s.blocks[h] { assert acts[0] == Accept(h, s'.blocks[h]); }
      } else {
        var i :| 0 <= i < |acts[1..]| && acts[1..][i] == Accept(h, s'.blocks[h]);
        assert acts[i + 1] == Accept(h, s'.blocks[h]);
      }
    }
  }

  /** While a snapshot is stored no mark is blind to its chunks. */
  lemma {:induction false} StaysSighted(sys: System, s: State, acts: seq<Action>, snap: Snapshot, h: string)
    requires Runs(sys, s, acts) && Stays(sys, s, acts, snap) && h in snap.chunks
    ensures NoBlindMark(sys, s, acts, h)
    decreases |acts|
  {
    if acts != [] {
      assert h in Collector.References(s.snaps);
      StaysSighted(sys, Step(sys, s, acts[0]), acts[1..], snap, h);
    }
  }

  /**
   * Over any interleaving, the chunks of a snapshot that stays stored stay too, unless a run already threatened
   * them.
   */
  lemma StoredSnapshotKeepsChunk(sys: System, s: State, acts: seq<Action>, snap: Snapshot, h: string)
    requires Runs(sys, s, acts) && Stays(sys, s, acts, snap)
    requires h in snap.chunks && h in s.blocks && !Threatened(s, h)
    ensures var s' := Final(sys, s, acts);
      h in s'.blocks && !Threatened(s', h) && (s'.blocks[h] == s.blocks[h] || Accepted(acts, h, s'.blocks[h]))
  {
    StaysSighted(sys, s, acts, snap, h);
    WindowKeepsChunk(sys, s, acts, h);
  }

  lemma Unfold(sys: System, s: State, a: Action, rest: seq<Action>)
    requires Enabled(sys, s, a) && Runs(sys, Step(sys, s, a), rest)
    ensures Runs(sys, s, [a] + rest) && Final(sys, s, [a] + rest) == Final(sys, Step(sys, s, a), rest)
    ensures forall snap :: Stays(sys, s, [a] + rest, snap)
              <==> snap.id in s.snaps && s.snaps[snap.id] == snap && Stays(sys, Step(sys, s, a), rest, snap)
    ensures forall h :: NoBlindMark(sys, s, [a] + rest, h)
              <==> !BlindMark(s, a, h) && NoBlindMark(sys, Step(sys, s, a), rest, h)
  {
    assert ([a] + rest)[1..] == rest;
  }

  /** A step of run `g` on its way through the sweep, none of its transactions failing. */
  predicate Sweeps(a: Action, g: int)
  {
    a == ListChunks(g) || (a.Inspect? && a.run == g && a.readable) || a == Remove(g, true)
  }

  /** What run `g` does next when it has marked and nothing fails. */
  lemma NextSweep(s: State, g: int) returns (a: Action)
    requires g in s.runs && (s.runs[g].Marked? || s.runs[g].Removing? || (s.runs[g].Sweeping? && s.runs[g].todo != {}))
    ensures Sweeps(a, g) && (forall sys :: Enabled(sys, s, a)) && (s.runs[g].Removing? ==> a == Remove(g, true))
  {
    match s.runs[g]
    case Marked(_) => a := ListChunks(g);
    case Removing(_, _, _) => a := Remove(g, true);
    case Sweeping(_, todo) =>
      LeastExists(todo);
      var k :| IsLeast(k, todo);
      a := Inspect(g, k, true);
  }

  /**
   * A run that threatens `h` carries the threat out by simply going on without a failure. It needs no other party:
   * every snapshot stays stored and nobody marks meanwhile.
   */
  lemma StrikeDeletes(sys: System, s: State, g: int, h: string) returns (acts: seq<Action>)
    requires g in s.runs && Threatens(s.runs[g], h) && h in s.blocks
    ensures forall i :: 0 <= i < |acts| ==> Sweeps(acts[i], g)
    ensures Runs(sys, s, acts) && NoBlindMark(sys, s, acts, h) && h !in Final(sys, s, acts).blocks
    ensures forall snap :: Holds(s, snap) ==> Stays(sys, s, acts, snap)
    decreases s.runs[g].Marked?, if s.runs[g].Marked? then {} else s.runs[g].todo, s.runs[g].Removing?
  {
    var a := NextSweep(s, g);
    var next := Step(sys, s, a);
    assert forall snap :: Holds(s, snap) ==> Holds(next, snap);
    if s.runs[g].Removing? && s.runs[g].chunk == h {
      acts := [a] + [];
      Unfold(sys, s, a, []);
    } else {
      var rest := StrikeDeletes(sys, next, g, h);
      acts := [a] + rest;
      Unfold(sys, s, a, rest);
    }
  }

  /**
   * The exact condition for a written chunk, referenced or not, to be safe until some later point: it survives
   * every future without a blind mark if and only if no run in flight threatens it.
   */
  lemma WindowSafeIff(sys: System, s: State, h: string)
    requires h in s.blocks
    ensures (forall acts :: Runs(sys, s, acts) && NoBlindMark(sys, s, acts, h) ==> h in Final(sys, s, acts).blocks)
       <==> !Threatened(s, h)
  {
    if Threatened(s, h) {
      var g :| g in s.runs && Threatens(s.runs[g], h);
      var acts := StrikeDeletes(sys, s, g, h);
    } else {
      forall acts | Runs(sys, s, acts) && NoBlindMark(sys, s, acts, h)
        ensures h in Final(sys, s, acts).blocks
      {
        WindowKeepsChunk(sys, s, acts, h);
      }
    }
  }

  /**
   * The exact condition for a stored snapshot's chunk to be safe from now on: it survives every future in
   * which the snapshot stays stored if and only if no run in flight threatens it.
   */
  lemma SafeForeverIff(sys: System, s: State, snap: Snapshot, h: string)
    requires snap.id in s.snaps && s.snaps[snap.id] == snap
    requires h in snap.chunks && h in s.blocks
    ensures (forall acts :: Runs(sys, s, acts) && Stays(sys, s, acts, snap) ==> h in Final(sys, s, acts).blocks)
       <==> !Threatened(s, h)
  {
    if Threatened(s, h) {
      var g :| g in s.runs && Threatens(s.runs[g], h);
      var acts := StrikeDeletes(sys, s, g, h);
      assert Holds(s, snap);
    } else {
      forall acts | Runs(sys, s, acts) && Stays(sys, s, acts, snap)
        ensures h in Final(sys, s, acts).blocks
      {
        StoredSnapshotKeepsChunk(sys, s, acts, snap, h);
      }
    }
  }

  /** Every hash of the snapshot reads back as the chunk at its position. */
  ghost predicate RestoresTo(sys: System, s: State, snap: Snapshot, chunks: seq<Bytes>)
    requires |snap.chunks| == |chunks|
  {
    forall i :: 0 <= i < |chunks| ==> Read(sys.crypto, sys.key, s.blocks, snap.chunks[i]) == Ok(chunks[i])
  }

  /** No response lands on a hash of the snapshot. */
  ghost predicate Quiet(acts: seq<Action>, snap: Snapshot)
  {
    forall i :: 0 <= i < |acts| && acts[i].Accept? ==> acts[i].chunk !in snap.chunks
  }

  /**
   * The exact condition for a whole stored snapshot: it restores in every future in which it stays stored and no
   * response lands on its hashes if and only if it restores now and no run in flight threatens any of its chunks.
   */
  lemma RestoresForeverIff(sys: System, s: State, snap: Snapshot, chunks: seq<Bytes>)
    requires Holds(s, snap) && |snap.chunks| == |chunks|
    ensures (forall acts :: Runs(sys, s, acts) && Stays(sys, s, acts, snap) && Quiet(acts, snap) ==>
              RestoresTo(sys, Final(sys, s, acts), snap, chunks))
       <==> RestoresTo(sys, s, snap, chunks) && forall h :: h in snap.chunks ==> !Threatened(s, h)
  {
    if RestoresTo(sys, s, snap, chunks) && forall h :: h in snap.chunks ==> !Threatened(s, h) {
      forall acts | Runs(sys, s, acts) && Stays(sys, s, acts, snap) && Quiet(acts, snap)
        ensures RestoresTo(sys, Final(sys, s, acts), snap, chunks)
      {
        StillRestores(sys, s, acts, snap, chunks);
      }
    } else if !RestoresTo(sys, s, snap, chunks) {
      var none: seq<Action> := [];
      assert Runs(sys, s, none) && Stays(sys, s, none, snap) && Quiet(none, snap) && Final(sys, s, none) == s;
    } else {
      var h :| h in snap.chunks && Threatened(s, h);
      ThreatBreaks(sys, s, snap, chunks, h);
    }
  }

  lemma StillRestores(sys: System, s: State, acts: seq<Action>, snap: Snapshot, chunks: seq<Bytes>)
    requires Runs(sys, s, acts) && Stays(sys, s, acts, snap) && Quiet(acts, snap) && |snap.chunks| == |chunks|
    requires RestoresTo(sys, s, snap, chunks) && forall h :: h in snap.chunks ==> !Threatened(s, h)
    ensures RestoresTo(sys, Final(sys, s, acts), snap, chunks)
  {
    var s' := Final(sys, s, acts);
    forall i | 0 <= i < |chunks|
      ensures Read(sys.crypto, sys.key, s'.blocks, snap.chunks[i]) == Ok(chunks[i])
    {
      var h := snap.chunks[i];
      assert Read(sys.crypto, sys.key, s.blocks, h) == Ok(chunks[i]);
      StoredSnapshotKeepsChunk(sys, s, acts, snap, h);
      assert !Accepted(acts, h, s'.blocks[h]);
    }
  }

  lemma ThreatBreaks(sys: System, s: State, snap: Snapshot, chunks: seq<Bytes>, h: string)
    requires Holds(s, snap) && |snap.chunks| == |chunks| && RestoresTo(sys, s, snap, chunks)
    requires h in snap.chunks && Threatened(s, h)
    ensures exists acts :: Runs(sys, s, acts) && Stays(sys, s, acts, snap) && Quiet(acts, snap)
              && !RestoresTo(sys, Final(sys, s, acts), snap, chunks)
  {
    var i :| 0 <= i < |snap.chunks| && snap.chunks[i] == h;
    assert Read(sys.crypto, sys.key, s.blocks, snap.chunks[i]) == Ok(chunks[i]);
    var g :| g in s.runs && Threatens(s.runs[g], h);
    var acts := StrikeDeletes(sys, s, g, h);
    assert Quiet(acts, snap);
    assert Read(sys.crypto, sys.key, Final(sys, s, acts).blocks, snap.chunks[i]).Err?;
  }

  // ---- Runs that marked while the snapshot was stored ----

  /** The snapshot restores to the same bytes in both states, and as far. */
  ghost predicate SameRestore(sys: System, s: State, s': State, snap: Snapshot)
  {
    var (c, key, hs) := (sys.crypto, sys.key, snap.chunks);
    && Restore.Plains(c, key, s'.blocks, hs) == Restore.Plains(c, key, s.blocks, hs)
    && Restore.Readable(c, key, s'.blocks, hs) == Restore.Readable(c, key, s.blocks, hs)
  }

  /** A run that marked while the snapshot was stored never threatens it: its references include the chunks. */
  ghost predicate MarkedWith(phase: Phase, snap: Snapshot)
  {
    match phase
    case Idle => true
    case Pruning(_) => true
    case Marked(refs) => forall h :: h in snap.chunks ==> h in refs
    case Sweeping(refs, _) => forall h :: h in snap.chunks ==> h in refs
    case Removing(refs, _, chunk) => (forall h :: h in snap.chunks ==> h in refs) && chunk !in refs
  }

  ghost predicate RunMarkedWith(s: State, g: int, snap: Snapshot) { g in s.runs ==> MarkedWith(s.runs[g], snap) }

  /** Run `g` was not past its mark at first, or it ended meanwhile; if it is past a mark now, it marked since. */
  ghost predicate MarkedSince(s: State, acts: seq<Action>, g: int)
  {
    || g !in s.runs || s.runs[g].Idle? || s.runs[g].Pruning?
    || exists i :: 0 <= i < |acts| && (acts[i] == Finish(g) || acts[i] == Abort(g))
  }

  lemma MarkStep(sys: System, s: State, a: Action, snap: Snapshot, g: int)
    requires Enabled(sys, s, a) && Holds(s, snap) && RunMarkedWith(s, g, snap)
    ensures RunMarkedWith(Step(sys, s, a), g, snap)
  {
    assert forall h :: h in snap.chunks ==> h in Collector.References(s.snaps);
  }

  lemma {:induction false} StaysMarkedWith(sys: System, s: State, acts: seq<Action>, snap: Snapshot, g: int)
    requires Runs(sys, s, acts) && Stays(sys, s, acts, snap) && RunMarkedWith(s, g, snap)
    ensures RunMarkedWith(Final(sys, s, acts), g, snap)
    decreases |acts|
  {
    if acts != [] {
      MarkStep(sys, s, acts[0], snap, g);
      StaysMarkedWith(sys, Step(sys, s, acts[0]), acts[1..], snap, g);
    }
  }

  /** A run whose mark fell into the time the snapshot has been stored holds references to all its chunks. */
  lemma {:induction false} MarkedSinceIsMarkedWith(sys: System, s: State, acts: seq<Action>, snap: Snapshot, g: int)
    requires Runs(sys, s, acts) && Stays(sys, s, acts, snap) && MarkedSince(s, acts, g)
    ensures RunMarkedWith(Final(sys, s, acts), g, snap)
    decreases |acts|
  {
    if g !in s.runs || s.runs[g].Idle? || s.runs[g].Pruning? {
      StaysMarkedWith(sys, s, acts, snap, g);
    } else {
      var i :| 0 <= i < |acts| && (acts[i] == Finish(g) || acts[i] == Abort(g));
      var next := Step(sys, s, acts[0]);
      if i == 0 {
        StaysMarkedWith(sys, next, acts[1..], snap, g);
      } else {
        assert acts[1..][i - 1] == acts[i];
        MarkedSinceIsMarkedWith(sys, next, acts[1..], snap, g);
      }
    }
  }

  /**
   * If every run in flight that is past its mark marked at a time when the snapshot was already stored, the
   * snapshot restores to the same bytes from then on. `before` is what happened since it was stored.
   */
  lemma RestoreUnchanged(sys: System, s: State, before: seq<Action>, acts: seq<Action>, snap: Snapshot)
    requires Runs(sys, s, before) && Stays(sys, s, before, snap)
    requires Runs(sys, Final(sys, s, before), acts) && Stays(sys, Final(sys, s, before), acts, snap)
    requires forall g :: g in Final(sys, s, before).runs ==> MarkedSince(s, before, g)
    requires forall h :: h in snap.chunks ==> h in Final(sys, s, before).blocks
    requires Quiet(acts, snap)
    ensures var mid, s' := Final(sys, s, before), Final(sys, Final(sys, s, before), acts);
      SameRestore(sys, mid, s', snap)
  {
    var mid := Final(sys, s, before);
    forall g | g in mid.runs
      ensures MarkedWith(mid.runs[g], snap)
    {
      MarkedSinceIsMarkedWith(sys, s, before, snap, g);
    }
    MarkedRunsKeepRestore(sys, mid, acts, snap);
  }

  /**
   * If the references of every run past its mark include the chunks, the snapshot restores to the same bytes ever
   * after.
   */
  lemma MarkedRunsKeepRestore(sys: System, s: State, acts: seq<Action>, snap: Snapshot)
    requires Runs(sys, s, acts) && Stays(sys, s, acts, snap)
    requires forall g :: g in s.runs ==> MarkedWith(s.runs[g], snap)
    requires forall h :: h in snap.chunks ==> h in s.blocks
    requires Quiet(acts, snap)
    ensures var s' := Final(sys, s, acts);
      SameRestore(sys, s, s', snap)
  {
    var s' := Final(sys, s, acts);
    forall h | h in snap.chunks
      ensures h in s'.blocks && s'.blocks[h] == s.blocks[h]
    {
      assert forall g :: g in s.runs && Threatens(s.runs[g], h) ==> MarkedWith(s.runs[g], snap);
      StoredSnapshotKeepsChunk(sys, s, acts, snap, h);
      assert !Accepted(acts, h, s'.blocks[h]);
    }
    SameReads(sys.crypto, sys.key, s.blocks, s'.blocks, snap.chunks);
  }

  lemma {:induction false} SameReads(c: Suite, key: Bytes, blocks: Blocks, blocks': Blocks, hs: seq<string>)
    requires forall h :: h in hs ==> h in blocks && h in blocks' && blocks[h] == blocks'[h]
    ensures Restore.Plains(c, key, blocks, hs) == Restore.Plains(c, key, blocks', hs)
    ensures Restore.Readable(c, key, blocks, hs) == Restore.Readable(c, key, blocks', hs)
  {
    if hs != [] {
      SameReads(c, key, blocks, blocks', hs[1..]);
      assert hs[0] in hs;
      assert Read(c, key, blocks, hs[0]) == Read(c, key, blocks', hs[0]);
      forall i | 0 <= i < |hs| ensures Read(c, key, blocks, hs[i]) == Read(c, key, blocks', hs[i]) {
        assert hs[i] in hs;
      }
    }
  }

  /**
   * The promise fails for a backup that overlaps a sweep: a chunk deduplicated against a block that a run has
   * already listed as unreferenced is deleted, and the snapshot saved meanwhile keeps a dangling reference.
   */
  lemma BackupDuringSweepDangles(sys: System, p: Bytes, blob: Bytes, snap: Snapshot)
    requires snap.chunks == [sys.crypto.hash(p)]
    ensures var h, env := sys.crypto.hash(p), WriteEnv(None, true);
      var s := State(map[h := blob], map[], map[0 := Marked({})]);
      var strike := [Inspect(0, h, true)] + ([Remove(0, true)] + []);
      var acts := [ListChunks(0)] + ([PutChunk(p, env)] + ([Save(snap)] + strike));
      && WriteSucceeds(sys.crypto, s.blocks, p, env)
      && Runs(sys, s, acts)
      && var s' := Final(sys, s, acts); snap.id in s'.snaps && s'.snaps[snap.id] == snap && h !in s'.blocks
  {
    var h, env := sys.crypto.hash(p), WriteEnv(None, true);
    var s := State(map[h := blob], map[], map[0 := Marked({})]);
    var listed := Step(sys, s, ListChunks(0));
    assert listed.runs[0] == Sweeping({}, {h});
    var put := Step(sys, listed, PutChunk(p, env));
    assert put == listed;
    var saved := Step(sys, put, Save(snap));
    var looked := Step(sys, saved, Inspect(0, h, true));
    var strike := [Inspect(0, h, true)] + ([Remove(0, true)] + []);
    Nil(sys, Step(sys, looked, Remove(0, true)));
    Unfold(sys, looked, Remove(0, true), []);
    Unfold(sys, saved, Inspect(0, h, true), [Remove(0, true)] + []);
    Unfold(sys, put, Save(snap), strike);
    Unfold(sys, listed, PutChunk(p, env), [Save(snap)] + strike);
    Unfold(sys, s, ListChunks(0), [PutChunk(p, env)] + ([Save(snap)] + strike));
  }

  /** The state that race starts from is reached by an ordinary run over a repository without snapshots. */
  lemma RaceIsReachable(sys: System, blocks: Blocks, cutoff: int)
    ensures var s := State(blocks, map[], map[]);
      var acts := [Start(0, cutoff)] + ([Mark(0)] + []);
      Runs(sys, s, acts) && Final(sys, s, acts) == State(blocks, map[], map[0 := Marked({})])
  {
    var s := State(blocks, map[], map[]);
    var started := Step(sys, s, Start(0, cutoff));
    assert started.runs[0] == Pruning({});
    var marked := Step(sys, started, Mark(0));
    assert Collector.References(map[]) == {};
    assert marked == State(blocks, map[], map[0 := Marked({})]);
    Unfold(sys, started, Mark(0), []);
    Unfold(sys, s, Start(0, cutoff), [Mark(0)] + []);
  }

  /** The rest of run 0 after a blind mark over a single block, followed by a save. */
  function SweepThenSave(h: string, snap: Snapshot): seq<Action>
  {
    [ListChunks(0)] + ([Inspect(0, h, true)] + ([Remove(0, true)] + ([Finish(0)] + ([Save(snap)] + []))))
  }

  lemma SweepThenSaveRuns(sys: System, h: string, blob: Bytes, snap: Snapshot)
    ensures var s := State(map[h := blob], map[], map[0 := Marked({})]);
      && Runs(sys, s, SweepThenSave(h, snap))
      && Final(sys, s, SweepThenSave(h, snap)) == State(map[], map[snap.id := snap], map[0 := Idle])
  {
    hide Runs, Final, Stays, NoBlindMark, BlindMark;
    var s := State(map[h := blob], map[], map[0 := Marked({})]);
    var listed := State(s.blocks, map[], map[0 := Sweeping({}, {h})]);
    assert s.blocks.Keys == {h} && s.runs[0 := Sweeping({}, {h})] == listed.runs;
    assert Step(sys, s, ListChunks(0)) == listed;
    var looked := State(s.blocks, map[], map[0 := Removing({}, {}, h)]);
    assert {h} - {h} == {} && Step(sys, listed, Inspect(0, h, true)) == looked;
    var removed := State(map[], map[], map[0 := Sweeping({}, {})]);
    assert Step(sys, looked, Remove(0, true)) == removed;
    var finished := State(map[], map[], map[0 := Idle]);
    assert Step(sys, removed, Finish(0)) == finished;
    Nil(sys, Step(sys, finished, Save(snap)));
    Unfold(sys, finished, Save(snap), []);
    Unfold(sys, removed, Finish(0), [Save(snap)] + []);
    Unfold(sys, looked, Remove(0, true), [Finish(0)] + ([Save(snap)] + []));
    Unfold(sys, listed, Inspect(0, h, true), [Remove(0, true)] + ([Finish(0)] + ([Save(snap)] + [])));
    Unfold(sys, s, ListChunks(0), [Inspect(0, h, true)] + ([Remove(0, true)] + ([Finish(0)] + ([Save(snap)] + []))));
  }

  /**
   * A whole collector run between the write of a chunk and the save of its snapshot has the same effect: it marks
   * blindly, so the snapshot saved afterwards, with no run in flight any more, has a dangling reference.
   */
  lemma CollectionBeforeSaveDangles(sys: System, p: Bytes, nonce: Bytes, snap: Snapshot, cutoff: int)
    requires snap.chunks == [sys.crypto.hash(p)]
    ensures var h, env := sys.crypto.hash(p), WriteEnv(Some(nonce), true);
      var s := State(map[], map[], map[]);
      var acts := [PutChunk(p, env)] + (([Start(0, cutoff)] + ([Mark(0)] + [])) + SweepThenSave(h, snap));
      && WriteSucceeds(sys.crypto, s.blocks, p, env)
      && Runs(sys, s, acts)
      && Final(sys, s, acts) == State(map[], map[snap.id := snap], map[0 := Idle])
  {
    hide Runs, Final, Stays, NoBlindMark, BlindMark;
    var h, env := sys.crypto.hash(p), WriteEnv(Some(nonce), true);
    var s := State(map[], map[], map[]);
    var blob := Blob(sys.crypto, sys.key, p, nonce);
    var put := State(map[h := blob], map[], map[]);
    assert Step(sys, s, PutChunk(p, env)) == put;
    RaceIsReachable(sys, put.blocks, cutoff);
    SweepThenSaveRuns(sys, h, blob, snap);
    Join(sys, put, [Start(0, cutoff)] + ([Mark(0)] + []), SweepThenSave(h, snap));
    Unfold(sys, s, PutChunk(p, env), ([Start(0, cutoff)] + ([Mark(0)] + [])) + SweepThenSave(h, snap));
  }

  // ---- Responses on the keys of a snapshot ----

  /** A block that is the plaintext itself does not read back as that plaintext: what is sealed is longer. */
  lemma RawBlockUnreadable(c: Suite, key: Bytes, blocks: Blocks, h: string, p: Bytes)
    requires Lawful(c) && Authentic(c) && |key| == KEY_SIZE && h in blocks && blocks[h] == p
    ensures Read(c, key, blocks, h) != Ok(p)
  {
    if |p| >= NONCE_SIZE {
      var nonce, sealed := p[..NONCE_SIZE], p[NONCE_SIZE..];
      assert c.open(sealed, key, nonce) == Some(p) ==> sealed == c.seal(p, key, nonce);
    }
  }

  /**
   * What a response on the key of a backed-up chunk does: it can only carry the plaintext itself, which replaces
   * the encrypted block, and from then on the chunk no longer reads back.
   */
  lemma ResponseReplacesBlock(sys: System, s: State, p: Bytes, data: Bytes)
    requires Lawful(sys.crypto) && Authentic(sys.crypto) && |sys.key| == KEY_SIZE
    requires Enabled(sys, s, Accept(sys.crypto.hash(p), data)) && CollisionFree(sys.crypto, {p, data})
    ensures var h := sys.crypto.hash(p);
      var s' := Step(sys, s, Accept(h, data));
      data == p && s'.blocks == s.blocks[h := p] && Read(sys.crypto, sys.key, s'.blocks, h) != Ok(p)
  {
    var h := sys.crypto.hash(p);
    assert data == p;
    RawBlockUnreadable(sys.crypto, sys.key, Step(sys, s, Accept(h, data)).blocks, h, p);
  }

  /** The data of all responses accepted during the run. */
  function AcceptedData(acts: seq<Action>): set<Bytes>
  {
    set i | 0 <= i < |acts| && acts[i].Accept? :: acts[i].data
  }

  lemma AcceptedDataTail(c: Suite, acts: seq<Action>, p: Bytes)
    requires acts != [] && CollisionFree(c, {p} + AcceptedData(acts))
    ensures CollisionFree(c, {p} + AcceptedData(acts[1..]))
    ensures acts[0].Accept? && c.hash(acts[0].data) == c.hash(p) ==> acts[0].data == p
  {
    assert AcceptedData(acts[1..]) <= AcceptedData(acts) by {
      forall d | d in AcceptedData(acts[1..]) ensures d in AcceptedData(acts) {
        var i :| 0 <= i < |acts[1..]| && acts[1..][i].Accept? && acts[1..][i].data == d;
        assert acts[i + 1] == acts[1..][i];
      }
    }
    if acts[0].Accept? { assert acts[0].data in AcceptedData(acts); }
  }

  /** Once the plaintext lies raw under the key of a stored snapshot's chunk, it lies there ever after. */
  lemma {:induction false} RawStays(sys: System, s: State, acts: seq<Action>, snap: Snapshot, p: Bytes)
    requires Runs(sys, s, acts) && Stays(sys, s, acts, snap) && sys.crypto.hash(p) in snap.chunks
    requires CollisionFree(sys.crypto, {p} + AcceptedData(acts)) && !Threatened(s, sys.crypto.hash(p))
    requires sys.crypto.hash(p) in s.blocks && s.blocks[sys.crypto.hash(p)] == p
    ensures var s', h := Final(sys, s, acts), sys.crypto.hash(p); h in s'.blocks && s'.blocks[h] == p
    decreases |acts|
  {
    hide Threatened, CollisionFree, AcceptedData;
    if acts != [] {
      var h := sys.crypto.hash(p);
      AcceptedDataTail(sys.crypto, acts, p);
      StepKeepsChunk(sys, s, acts[0], snap, h);
      RawStays(sys, Step(sys, s, acts[0]), acts[1..], snap, p);
    }
  }

  /** A response on the key at any point of the run leaves the raw plaintext there. */
  lemma {:induction false} ResponseLeavesRaw(sys: System, s: State, acts: seq<Action>, snap: Snapshot, p: Bytes, i: nat)
    requires Runs(sys, s, acts) && Stays(sys, s, acts, snap) && sys.crypto.hash(p) in snap.chunks
    requires CollisionFree(sys.crypto, {p} + AcceptedData(acts)) && !Threatened(s, sys.crypto.hash(p))
    requires sys.crypto.hash(p) in s.blocks
    requires i < |acts| && acts[i].Accept? && acts[i].chunk == sys.crypto.hash(p)
    ensures var s', h := Final(sys, s, acts), sys.crypto.hash(p); h in s'.blocks && s'.blocks[h] == p
    decreases |acts|
  {
    hide Threatened, CollisionFree, AcceptedData;
    var h := sys.crypto.hash(p);
    AcceptedDataTail(sys.crypto, acts, p);
    StepKeepsChunk(sys, s, acts[0], snap, h);
    var mid := Step(sys, s, acts[0]);
    if i == 0 {
      RawStays(sys, mid, acts[1..], snap, p);
    } else {
      assert acts[1..][i - 1] == acts[i];
      ResponseLeavesRaw(sys, mid, acts[1..], snap, p, i - 1);
    }
  }

  /**
   * The exact condition on the responses of a run: a stored, unthreatened snapshot that restores now still restores
   * at the end of any run in which it stays stored if and only if no response lands on one of its hashes.
   */
  lemma RestoresIffQuiet(sys: System, s: State, acts: seq<Action>, snap: Snapshot, chunks: seq<Bytes>)
    requires Lawful(sys.crypto) && Authentic(sys.crypto) && |sys.key| == KEY_SIZE
    requires Runs(sys, s, acts) && Stays(sys, s, acts, snap) && snap.chunks == HashesOf(sys.crypto, chunks)
    requires RestoresTo(sys, s, snap, chunks) && forall h :: h in snap.chunks ==> !Threatened(s, h)
    requires CollisionFree(sys.crypto, Elements(chunks) + AcceptedData(acts))
    ensures RestoresTo(sys, Final(sys, s, acts), snap, chunks) <==> Quiet(acts, snap)
  {
    hide Runs, Final, Stays, Threatened, CollisionFree, AcceptedData, RestoresTo;
    if Quiet(acts, snap) {
      StillRestores(sys, s, acts, snap, chunks);
    } else {
      var k :| 0 <= k < |acts| && acts[k].Accept? && acts[k].chunk in snap.chunks;
      var i :| 0 <= i < |snap.chunks| && snap.chunks[i] == acts[k].chunk;
      ResponseBreaks(sys, s, acts, snap, chunks, i, k);
    }
  }

  lemma ResponseBreaks(sys: System, s: State, acts: seq<Action>, snap: Snapshot, chunks: seq<Bytes>, i: nat, k: nat)
    requires Lawful(sys.crypto) && Authentic(sys.crypto) && |sys.key| == KEY_SIZE
    requires Runs(sys, s, acts) && Stays(sys, s, acts, snap) && snap.chunks == HashesOf(sys.crypto, chunks)
    requires RestoresTo(sys, s, snap, chunks) && forall h :: h in snap.chunks ==> !Threatened(s, h)
    requires CollisionFree(sys.crypto, Elements(chunks) + AcceptedData(acts))
    requires i < |chunks| && k < |acts| && acts[k].Accept? && acts[k].chunk == snap.chunks[i]
    ensures !RestoresTo(sys, Final(sys, s, acts), snap, chunks)
  {
    hide Runs, Final, Stays, Threatened, AcceptedData, HashesOf;
    var p, h := chunks[i], snap.chunks[i];
    assert p in Elements(chunks) && h in snap.chunks && Read(sys.crypto, sys.key, s.blocks, h) == Ok(p);
    ResponseLeavesRaw(sys, s, acts, snap, p, k);
    RawBlockUnreadable(sys.crypto, sys.key, Final(sys, s, acts).blocks, h, p);
  }

  // ---- The steps without interference are the sequential collector ----

  lemma Nil(sys: System, s: State)
    ensures Runs(sys, s, []) && Final(sys, s, []) == s
  {
  }

  lemma {:induction false} Join(sys: System, s: State, first: seq<Action>, second: seq<Action>)
    requires Runs(sys, s, first) && Runs(sys, Final(sys, s, first), second)
    ensures Runs(sys, s, first + second) && Final(sys, s, first + second) == Final(sys, Final(sys, s, first), second)
    decreases |first|
  {
    hide Step, Enabled;
    if first == [] {
      assert first + second == second;
    } else {
      Join(sys, Step(sys, s, first[0]), first[1..], second);
      Unfold(sys, s, first[0], first[1..] + second);
      assert [first[0]] + (first[1..] + second) == first + second;
    }
  }

  function Pruned(s: State, g: int, ids: set<string>, f: Collector.Faults): State
  {
    s.(runs := s.runs[g := Pruning({})],
       snaps := map id | id in s.snaps && !(id in ids && !f.deleteSnapshot(id)) :: s.snaps[id])
  }

  lemma {:induction false} PruneAll(sys: System, s: State, g: int, f: Collector.Faults) returns (acts: seq<Action>)
    requires g in s.runs && s.runs[g].Pruning?
    ensures Runs(sys, s, acts) && Final(sys, s, acts) == Pruned(s, g, s.runs[g].expired, f)
    decreases |s.runs[g].expired|
  {
    hide Runs, Final;
    var ids := s.runs[g].expired;
    if ids == {} {
      acts := [];
      Nil(sys, s);
      assert s.runs[g := Pruning({})] == s.runs;
      assert Pruned(s, g, ids, f) == s;
    } else {
      LeastExists(ids);
      var id :| IsLeast(id, ids);
      var a := Prune(g, id, !f.deleteSnapshot(id));
      var next := Step(sys, s, a);
      var rest := PruneAll(sys, next, g, f);
      Unfold(sys, s, a, rest);
      acts := [a] + rest;
      PruneStep(sys, s, g, id, f);
    }
  }

  lemma PruneStep(sys: System, s: State, g: int, id: string, f: Collector.Faults)
    requires g in s.runs && s.runs[g].Pruning? && IsLeast(id, s.runs[g].expired)
    ensures var next, ids := Step(sys, s, Prune(g, id, !f.deleteSnapshot(id))), s.runs[g].expired;
      Pruned(next, g, ids - {id}, f) == Pruned(s, g, ids, f)
  {
  }

  function Cleaned(s: State, g: int, refs: set<string>, todo: set<string>, f: Collector.Faults): State
  {
    s.(runs := s.runs[g := Sweeping(refs, {})],
       blocks := map h | h in s.blocks && !(h in todo && Collector.Doomed(h, refs, f)) :: s.blocks[h])
  }

  lemma {:induction false} SweepAll(sys: System, s: State, g: int, f: Collector.Faults) returns (acts: seq<Action>)
    requires g in s.runs && s.runs[g].Sweeping?
    ensures Runs(sys, s, acts) && Final(sys, s, acts) == Cleaned(s, g, s.runs[g].refs, s.runs[g].todo, f)
    decreases |s.runs[g].todo|
  {
    hide Runs, Final, Cleaned, Collector.Doomed;
    var Sweeping(refs, todo) := s.runs[g];
    if todo == {} {
      acts := [];
      Nil(sys, s);
      CleanedNothing(s, g, f);
    } else {
      LeastExists(todo);
      var h :| IsLeast(h, todo);
      var look := Inspect(g, h, !f.getChunk(h));
      var mid := Step(sys, s, look);
      if mid.runs[g].Removing? {
        var cut := Remove(g, !f.deleteChunk(h));
        var next := Step(sys, mid, cut);
        var rest := SweepAll(sys, next, g, f);
        Unfold(sys, mid, cut, rest);
        Unfold(sys, s, look, [cut] + rest);
        acts := [look] + ([cut] + rest);
        CleanStep(sys, s, g, h, f);
      } else {
        var rest := SweepAll(sys, mid, g, f);
        Unfold(sys, s, look, rest);
        acts := [look] + rest;
        CleanStep(sys, s, g, h, f);
      }
    }
  }

  lemma CleanedNothing(s: State, g: int, f: Collector.Faults)
    requires g in s.runs && s.runs[g].Sweeping? && s.runs[g].todo == {}
    ensures Cleaned(s, g, s.runs[g].refs, {}, f) == s
  {
    assert s.runs[g := Sweeping(s.runs[g].refs, {})] == s.runs;
  }

  lemma CleanStep(sys: System, s: State, g: int, h: string, f: Collector.Faults)
    requires g in s.runs && s.runs[g].Sweeping? && IsLeast(h, s.runs[g].todo)
    ensures var Sweeping(refs, todo) := s.runs[g];
      var mid := Step(sys, s, Inspect(g, h, !f.getChunk(h)));
      var next := if mid.runs[g].Removing? then Step(sys, mid, Remove(g, !f.deleteChunk(h))) else mid;
      Cleaned(next, g, refs, todo - {h}, f) == Cleaned(s, g, refs, todo, f)
  {
  }

  /** Scheduled alone, the transactions of a run compose to the sequential Collector.Run with the same faults. */
  lemma UninterruptedRunIsSequential(sys: System, s: State, g: int, cutoff: int, f: Collector.Faults)
    returns (acts: seq<Action>)
    requires g in s.runs && s.runs[g].Idle?
    requires !f.listOld && !f.listLive && !f.listChunks
    ensures Runs(sys, s, acts)
    ensures var (snaps', blocks') := Collector.Collected(s.snaps, s.blocks, cutoff, sys.parse, f);
      Final(sys, s, acts) == State(blocks', snaps', s.runs)
  {
    var started := Step(sys, s, Start(g, cutoff));
    var prune := PruneAll(sys, started, g, f);
    var pruned := Final(sys, started, prune);
    assert pruned.snaps == Collector.Kept(s.snaps, cutoff, sys.parse, f);
    var marked := Step(sys, pruned, Mark(g));
    var listed := Step(sys, marked, ListChunks(g));
    var sweep := SweepAll(sys, listed, g, f);
    var swept := Final(sys, listed, sweep);
    assert swept.blocks == Collector.Swept(s.blocks, Collector.References(pruned.snaps), f);
    Unfold(sys, swept, Finish(g), []);
    Join(sys, listed, sweep, [Finish(g)] + []);
    var tail := sweep + ([Finish(g)] + []);
    Unfold(sys, marked, ListChunks(g), tail);
    Unfold(sys, pruned, Mark(g), [ListChunks(g)] + tail);
    var mid := [Mark(g)] + ([ListChunks(g)] + tail);
    Join(sys, started, prune, mid);
    Unfold(sys, s, Start(g, cutoff), prune + mid);
    acts := [Start(g, cutoff)] + (prune + mid);
    assert Final(sys, s, acts).runs == s.runs;
  }
}
