/** What the components promise together: a backup, the collector and everybody else, then a restore. */
module EndToEnd {
  import opened Prelude
  import opened Crypto
  import opened Store
  import opened Versioning
  import Backup
  import Restore
  import Decimal
  import CollectorRace

  type System = CollectorRace.System
  type State = CollectorRace.State
  type Action = CollectorRace.Action

  // ---- A backup and its restore, call by call ----

  /**
   * A snapshot is created and then restored from the very record the creation returned, to a disk that takes every
   * write: the file holds the chunks of the walk in order, and those are the contents of its files exactly when
   * nothing was lost in chunking.
   */
  method BackupThenRestore(walk: seq<Backup.WalkEntry>, source: string, store: Store, who: Backup.Identity,
                           parent: string,
                           min: int, max: nat, unixNow: nat, timestamp: string, envs: nat -> WriteEnv)
    returns (r: Result<Snapshot, Backup.BackupError>, out: Bytes, err: Option<Restore.RestoreError>)
    requires Backup.ValidWalk(walk, max)
    requires Lawful(store.crypto) && |store.key| == KEY_SIZE && Backup.ValidEnvs(envs)
    requires CollisionFree(store.crypto, Elements(Backup.WalkSource(walk, min).chunks))
    requires Restore.Compatible(store.crypto, store.key, store.blocks, Backup.WalkSource(walk, min).chunks)
    modifies store
    ensures r.Ok? ==> err == None && out == Flatten(Backup.WalkSource(walk, min).chunks)
    ensures r.Ok? ==> (out == Restore.WalkContent(walk) <==> !Restore.WalkLoses(walk, min))
  {
    ghost var before, chunks := store.blocks, Backup.WalkSource(walk, min).chunks;
    r := Backup.CreateSnapshot(walk, source, store, who, parent, min, max, unixNow, timestamp, envs);
    if r.Err? { return r, [], None; }
    assert r.value.chunks == Backup.HashesOf(store.crypto, chunks);
    Restore.RoundTrip(store.crypto, store.key, before, chunks, envs);
    Restore.BackupLosslessIff(walk, min);
    out, err := Restore.RestoreFile(store, r.value.chunks, _ => None);
    assert r.value.chunks[..|r.value.chunks|] == r.value.chunks;
  }

  // ---- A backup inside an interleaved run ----

  /** The state before action number `k` of a run. */
  function StateAt(sys: System, s: State, acts: seq<Action>, k: nat): State
    requires CollectorRace.Runs(sys, s, acts) && k <= |acts|
    decreases k
  {
    if k == 0 then s else StateAt(sys, CollectorRace.Step(sys, s, acts[0]), acts[1..], k - 1)
  }

  lemma {:induction false} StateAtNext(sys: System, s: State, acts: seq<Action>, k: nat)
    requires CollectorRace.Runs(sys, s, acts) && k < |acts|
    ensures CollectorRace.Enabled(sys, StateAt(sys, s, acts, k), acts[k])
    ensures StateAt(sys, s, acts, k + 1) == CollectorRace.Step(sys, StateAt(sys, s, acts, k), acts[k])
    decreases k
  {
    hide CollectorRace.Step, CollectorRace.Enabled;
    if k > 0 {
      assert acts[1..][k - 1] == acts[k];
      StateAtNext(sys, CollectorRace.Step(sys, s, acts[0]), acts[1..], k - 1);
    }
  }

  lemma {:induction false} StateAtEnd(sys: System, s: State, acts: seq<Action>)
    requires CollectorRace.Runs(sys, s, acts)
    ensures StateAt(sys, s, acts, |acts|) == CollectorRace.Final(sys, s, acts)
    decreases |acts|
  {
    hide CollectorRace.Step, CollectorRace.Enabled;
    if acts != [] { StateAtEnd(sys, CollectorRace.Step(sys, s, acts[0]), acts[1..]); }
  }

  /** Action `w` writes `p`, successfully, at a moment when no run threatens its key. */
  ghost predicate WritesSafely(sys: System, s: State, acts: seq<Action>, p: Bytes, w: nat)
    requires CollectorRace.Runs(sys, s, acts) && w < |acts|
  {
    && acts[w].PutChunk? && acts[w].plaintext == p
    && WriteSucceeds(sys.crypto, StateAt(sys, s, acts, w).blocks, p, acts[w].env)
    && !CollectorRace.Threatened(StateAt(sys, s, acts, w), sys.crypto.hash(p))
  }

  /** From action `w` up to action `save` no run marks while the key is unreferenced. */
  ghost predicate NoBlindMarkBetween(sys: System, s: State, acts: seq<Action>, h: string, w: nat, save: nat)
    requires CollectorRace.Runs(sys, s, acts) && save <= |acts|
  {
    forall k :: w <= k < save ==> !CollectorRace.BlindMark(StateAt(sys, s, acts, k), acts[k], h)
  }

  /**
   * A backup of `chunks` within the run: write i is action `at[i]`, in order, and the save of `snap` is action
   * `save`; anything may happen in between, except that no run marks blindly between a write and the save.
   */
  ghost predicate BackupWithin(sys: System, s: State, acts: seq<Action>, chunks: seq<Bytes>, at: seq<nat>, save: nat,
                               snap: Snapshot)
    requires CollectorRace.Runs(sys, s, acts)
  {
    && save < |acts| && acts[save] == CollectorRace.Save(snap) && snap.chunks == Backup.HashesOf(sys.crypto, chunks)
    && |at| == |chunks| && (forall i, j :: 0 <= i < j < |at| ==> at[i] < at[j])
    && (forall i :: 0 <= i < |at| ==> at[i] < save)
    && (forall i :: 0 <= i < |at| ==> WritesSafely(sys, s, acts, chunks[i], at[i]))
    && (forall i :: 0 <= i < |at| ==> NoBlindMarkBetween(sys, s, acts, snap.chunks[i], at[i], save))
  }

  /** The simplest such run: a chunk is written while no run threatens its key, and its snapshot saved at once. */
  lemma WriteThenSave(sys: System, s: State, p: Bytes, env: WriteEnv, snap: Snapshot)
    requires WriteSucceeds(sys.crypto, s.blocks, p, env) && !CollectorRace.Threatened(s, sys.crypto.hash(p))
    requires snap.chunks == [sys.crypto.hash(p)]
    ensures var acts := [CollectorRace.PutChunk(p, env), CollectorRace.Save(snap)];
      && CollectorRace.Runs(sys, s, acts) && BackupWithin(sys, s, acts, [p], [0], 1, snap)
      && StaysAfter(sys, s, acts, 1, snap)
  {
    var acts := [CollectorRace.PutChunk(p, env), CollectorRace.Save(snap)];
    var put := CollectorRace.Step(sys, s, acts[0]);
    assert acts[1..] == [acts[1]] && acts[1..][1..] == [];
    assert CollectorRace.Runs(sys, put, acts[1..]);
    assert StateAt(sys, s, acts, 0) == s && StateAt(sys, s, acts, 1) == put;
    StateAtNext(sys, s, acts, 1);
    assert StateAt(sys, s, acts, 2) == CollectorRace.Step(sys, put, acts[1]);
    assert Backup.HashesOf(sys.crypto, [p]) == snap.chunks;
  }

  /** Once saved, the snapshot is neither deleted nor overwritten. */
  ghost predicate StaysAfter(sys: System, s: State, acts: seq<Action>, save: nat, snap: Snapshot)
    requires CollectorRace.Runs(sys, s, acts)
  {
    forall k :: save < k <= |acts| ==> CollectorRace.Holds(StateAt(sys, s, acts, k), snap)
  }

  /** The plaintexts all backups of the run write. */
  function Plaintexts(acts: seq<Action>): set<Bytes>
  {
    set i | 0 <= i < |acts| && acts[i].PutChunk? :: acts[i].plaintext
  }

  ghost predicate ValidWrites(acts: seq<Action>)
  {
    forall i :: 0 <= i < |acts| && acts[i].PutChunk? ==> ValidEnv(acts[i].env)
  }

  /** If the key of `p` is taken, its block opens to `p`. */
  predicate Opens(sys: System, s: State, p: Bytes)
  {
    var h := sys.crypto.hash(p);
    h in s.blocks ==> OpenBlob(sys.crypto, sys.key, s.blocks[h]) == Ok(p)
  }

  lemma OpensStep(sys: System, s: State, a: Action, p: Bytes)
    requires Lawful(sys.crypto) && |sys.key| == KEY_SIZE
    requires CollectorRace.Enabled(sys, s, a) && Opens(sys, s, p)
    requires a.PutChunk? ==> ValidEnv(a.env) && CollisionFree(sys.crypto, {p, a.plaintext})
    requires a.Accept? ==> a.chunk != sys.crypto.hash(p)
    ensures Opens(sys, CollectorRace.Step(sys, s, a), p)
  {
    if a.PutChunk? && WriteSucceeds(sys.crypto, s.blocks, a.plaintext, a.env) {
      PutChunkReadsBackIff(sys.crypto, sys.key, s.blocks, a.plaintext, a.env);
    }
  }

  /** Whoever writes, the block under the key of `p` keeps opening to `p`. */
  lemma {:induction false} OpensAlways(sys: System, s: State, acts: seq<Action>, p: Bytes, k: nat)
    requires Lawful(sys.crypto) && |sys.key| == KEY_SIZE
    requires CollectorRace.Runs(sys, s, acts) && k <= |acts| && ValidWrites(acts) && Opens(sys, s, p)
    requires CollisionFree(sys.crypto, {p} + Plaintexts(acts))
    requires forall i :: 0 <= i < |acts| && acts[i].Accept? ==> acts[i].chunk != sys.crypto.hash(p)
    ensures Opens(sys, StateAt(sys, s, acts, k), p)
    decreases k
  {
    hide CollectorRace.Step, CollectorRace.Enabled, Opens, StateAt;
    if k == 0 {
      AtStart(sys, s, acts);
    } else {
      OpensAlways(sys, s, acts, p, k - 1);
      StateAtNext(sys, s, acts, k - 1);
      var a := acts[k - 1];
      if a.PutChunk? { assert a.plaintext in Plaintexts(acts); }
      OpensStep(sys, StateAt(sys, s, acts, k - 1), a, p);
    }
  }

  lemma AtStart(sys: System, s: State, acts: seq<Action>)
    requires CollectorRace.Runs(sys, s, acts)
    ensures StateAt(sys, s, acts, 0) == s
  {
  }

  /** From one point of a run to a later one, an unthreatened block stays if no mark in between is blind. */
  lemma {:induction false} Guarded(sys: System, s: State, acts: seq<Action>, h: string, lo: nat, hi: nat)
    requires CollectorRace.Runs(sys, s, acts) && lo <= hi <= |acts|
    requires h in StateAt(sys, s, acts, lo).blocks && !CollectorRace.Threatened(StateAt(sys, s, acts, lo), h)
    requires NoBlindMarkBetween(sys, s, acts, h, lo, hi)
    ensures h in StateAt(sys, s, acts, hi).blocks && !CollectorRace.Threatened(StateAt(sys, s, acts, hi), h)
    decreases hi
  {
    hide CollectorRace.Step, CollectorRace.Enabled, CollectorRace.Threatened, CollectorRace.BlindMark, StateAt;
    if lo < hi {
      Guarded(sys, s, acts, h, lo, hi - 1);
      StateAtNext(sys, s, acts, hi - 1);
      CollectorRace.UnthreatenedStep(sys, StateAt(sys, s, acts, hi - 1), acts[hi - 1], h);
    }
  }

  /** A chunk of the backup is there at the end of the run. */
  lemma WrittenChunkStays(sys: System, s: State, acts: seq<Action>, p: Bytes, w: nat, save: nat, snap: Snapshot)
    requires CollectorRace.Runs(sys, s, acts) && w < save < |acts| && acts[save] == CollectorRace.Save(snap)
    requires WritesSafely(sys, s, acts, p, w) && NoBlindMarkBetween(sys, s, acts, sys.crypto.hash(p), w, save)
    requires StaysAfter(sys, s, acts, save, snap) && sys.crypto.hash(p) in snap.chunks
    ensures sys.crypto.hash(p) in StateAt(sys, s, acts, |acts|).blocks
  {
    hide StateAt;
    var h := sys.crypto.hash(p);
    StateAtNext(sys, s, acts, w);
    CollectorRace.UnthreatenedWrite(sys, StateAt(sys, s, acts, w), p, acts[w].env, h);
    SightedToEnd(sys, s, acts, p, w, save, snap);
    Guarded(sys, s, acts, h, w + 1, |acts|);
  }

  /** What the theorems below assume of the run around the backup. */
  ghost predicate Undisturbed(sys: System, s: State, acts: seq<Action>, chunks: seq<Bytes>, save: nat, snap: Snapshot)
    requires CollectorRace.Runs(sys, s, acts)
  {
    && ValidWrites(acts) && CollectorRace.Quiet(acts, snap) && StaysAfter(sys, s, acts, save, snap)
    && Restore.Compatible(sys.crypto, sys.key, s.blocks, chunks)
    && CollisionFree(sys.crypto, Elements(chunks) + Plaintexts(acts))
  }

  /**
   * Writes, save, collector runs, other backups and responses in any order: a snapshot that stays stored restores
   * to exactly the chunks of its backup, provided each was written unthreatened, no run marked blindly before the
   * save, and no response lands on its hashes.
   */
  lemma SavedBackupRestores(sys: System, s: State, acts: seq<Action>, chunks: seq<Bytes>, at: seq<nat>, save: nat,
                            snap: Snapshot)
    requires Lawful(sys.crypto) && |sys.key| == KEY_SIZE
    requires CollectorRace.Runs(sys, s, acts) && BackupWithin(sys, s, acts, chunks, at, save, snap)
    requires Undisturbed(sys, s, acts, chunks, save, snap)
    ensures var s' := CollectorRace.Final(sys, s, acts);
      && Restore.Readable(sys.crypto, sys.key, s'.blocks, snap.chunks) == |snap.chunks|
      && Restore.Plains(sys.crypto, sys.key, s'.blocks, snap.chunks) == chunks
  {
    hide StateAt, CollectorRace.Step, CollectorRace.Enabled;
    var s' := CollectorRace.Final(sys, s, acts);
    StateAtEnd(sys, s, acts);
    forall i | 0 <= i < |chunks|
      ensures Read(sys.crypto, sys.key, s'.blocks, snap.chunks[i]) == Ok(chunks[i])
    {
      ChunkReadsBack(sys, s, acts, chunks, at, save, snap, i);
    }
    assert Restore.Plains(sys.crypto, sys.key, s'.blocks, snap.chunks) == chunks;
  }

  lemma ChunkReadsBack(sys: System, s: State, acts: seq<Action>, chunks: seq<Bytes>, at: seq<nat>, save: nat,
                       snap: Snapshot, i: nat)
    requires Lawful(sys.crypto) && |sys.key| == KEY_SIZE
    requires CollectorRace.Runs(sys, s, acts) && BackupWithin(sys, s, acts, chunks, at, save, snap)
    requires Undisturbed(sys, s, acts, chunks, save, snap) && i < |chunks|
    ensures Read(sys.crypto, sys.key, StateAt(sys, s, acts, |acts|).blocks, snap.chunks[i]) == Ok(chunks[i])
  {
    hide StateAt, CollectorRace.Step, CollectorRace.Enabled;
    var p := chunks[i];
    assert snap.chunks[i] == sys.crypto.hash(p) && p in Elements(chunks);
    WrittenChunkStays(sys, s, acts, p, at[i], save, snap);
    OpensAlways(sys, s, acts, p, |acts|);
  }

  // ---- The exact condition, responses included ----

  /** From action `lo` up to action `hi` no response lands on `h`. */
  ghost predicate NoResponse(acts: seq<Action>, h: string, lo: nat, hi: nat)
    requires hi <= |acts|
  {
    forall k :: lo <= k < hi ==> !(acts[k].Accept? && acts[k].chunk == h)
  }

  /** While its key is guarded, a block stays as it is until a response replaces it by the plaintext. */
  lemma {:induction false} BlockSince(sys: System, s: State, acts: seq<Action>, p: Bytes, blob: Bytes, lo: nat, hi: nat)
    requires CollectorRace.Runs(sys, s, acts) && lo <= hi <= |acts|
    requires var h, t := sys.crypto.hash(p), StateAt(sys, s, acts, lo);
      h in t.blocks && t.blocks[h] == blob && !CollectorRace.Threatened(t, h)
    requires NoBlindMarkBetween(sys, s, acts, sys.crypto.hash(p), lo, hi)
    requires CollisionFree(sys.crypto, {p} + CollectorRace.AcceptedData(acts))
    ensures var h, t := sys.crypto.hash(p), StateAt(sys, s, acts, hi);
      && h in t.blocks && !CollectorRace.Threatened(t, h)
      && t.blocks[h] == if NoResponse(acts, h, lo, hi) then blob else p
    decreases hi
  {
    hide StateAt, CollectorRace.Threatened, CollectorRace.BlindMark;
    if lo < hi {
      var h, a := sys.crypto.hash(p), acts[hi - 1];
      BlockSince(sys, s, acts, p, blob, lo, hi - 1);
      StateAtNext(sys, s, acts, hi - 1);
      CollectorRace.UnthreatenedStep(sys, StateAt(sys, s, acts, hi - 1), a, h);
      if a.Accept? && a.chunk == h { assert a.data in CollectorRace.AcceptedData(acts) && a.data == p; }
    }
  }

  /**
   * A write leaves under the key a block that opens to the chunk exactly when the key was free or held such a
   * block.
   */
  lemma WriteOpensIff(sys: System, s: State, p: Bytes, env: WriteEnv)
    requires Lawful(sys.crypto) && |sys.key| == KEY_SIZE && ValidEnv(env)
    requires WriteSucceeds(sys.crypto, s.blocks, p, env)
    ensures var h, s' := sys.crypto.hash(p), CollectorRace.Step(sys, s, CollectorRace.PutChunk(p, env));
      h in s'.blocks && (OpenBlob(sys.crypto, sys.key, s'.blocks[h]) == Ok(p) <==> Opens(sys, s, p))
  {
    PutChunkReadsBackIff(sys.crypto, sys.key, s.blocks, p, env);
  }

  /**
   * A chunk of a backup reads back at the end exactly when its key was free or held a block of that chunk at the
   * write, and no response has landed on it since.
   */
  lemma ChunkReadsBackIff(sys: System, s: State, acts: seq<Action>, chunks: seq<Bytes>, at: seq<nat>, save: nat,
                          snap: Snapshot, i: nat)
    requires Lawful(sys.crypto) && Authentic(sys.crypto) && |sys.key| == KEY_SIZE
    requires CollectorRace.Runs(sys, s, acts) && BackupWithin(sys, s, acts, chunks, at, save, snap)
    requires ValidWrites(acts) && StaysAfter(sys, s, acts, save, snap) && i < |chunks|
    requires CollisionFree(sys.crypto, Elements(chunks) + CollectorRace.AcceptedData(acts))
    ensures Read(sys.crypto, sys.key, StateAt(sys, s, acts, |acts|).blocks, snap.chunks[i]) == Ok(chunks[i])
       <==> && Opens(sys, StateAt(sys, s, acts, at[i]), chunks[i])
            && NoResponse(acts, snap.chunks[i], at[i], |acts|)
  {
    hide StateAt, Opens, NoResponse, CollectorRace.AcceptedData, StaysAfter, ValidWrites, CollectorRace.Runs;
    var p := chunks[i];
    assert snap.chunks[i] == sys.crypto.hash(p) && p in Elements(chunks) && snap.chunks[i] in snap.chunks;
    WrittenReadsBackIff(sys, s, acts, p, at[i], save, snap);
  }

  lemma WrittenReadsBackIff(sys: System, s: State, acts: seq<Action>, p: Bytes, w: nat, save: nat, snap: Snapshot)
    requires Lawful(sys.crypto) && Authentic(sys.crypto) && |sys.key| == KEY_SIZE
    requires CollectorRace.Runs(sys, s, acts) && w < save < |acts| && acts[save] == CollectorRace.Save(snap)
    requires WritesSafely(sys, s, acts, p, w) && NoBlindMarkBetween(sys, s, acts, sys.crypto.hash(p), w, save)
    requires ValidWrites(acts) && StaysAfter(sys, s, acts, save, snap) && sys.crypto.hash(p) in snap.chunks
    requires CollisionFree(sys.crypto, {p} + CollectorRace.AcceptedData(acts))
    ensures Read(sys.crypto, sys.key, StateAt(sys, s, acts, |acts|).blocks, sys.crypto.hash(p)) == Ok(p)
       <==> && Opens(sys, StateAt(sys, s, acts, w), p)
            && NoResponse(acts, sys.crypto.hash(p), w, |acts|)
  {
    hide StateAt, Opens, OpenBlob, CollectorRace.Threatened, CollectorRace.BlindMark, CollectorRace.AcceptedData,
         CollectorRace.Step, CollectorRace.Enabled, CollectorRace.Runs, StaysAfter, NoBlindMarkBetween;
    var h, before, after := sys.crypto.hash(p), StateAt(sys, s, acts, w), StateAt(sys, s, acts, w + 1);
    StateAtNext(sys, s, acts, w);
    assert acts[w] == CollectorRace.PutChunk(p, acts[w].env);
    CollectorRace.UnthreatenedWrite(sys, before, p, acts[w].env, h);
    WriteOpensIff(sys, before, p, acts[w].env);
    SightedToEnd(sys, s, acts, p, w, save, snap);
    BlockSince(sys, s, acts, p, after.blocks[h], w + 1, |acts|);
    if NoResponse(acts, h, w + 1, |acts|) {
      assert NoResponse(acts, h, w, |acts|);
    } else {
      CollectorRace.RawBlockUnreadable(sys.crypto, sys.key, StateAt(sys, s, acts, |acts|).blocks, h, p);
    }
  }

  lemma SightedToEnd(sys: System, s: State, acts: seq<Action>, p: Bytes, w: nat, save: nat, snap: Snapshot)
    requires CollectorRace.Runs(sys, s, acts) && w < save < |acts| && acts[save] == CollectorRace.Save(snap)
    requires NoBlindMarkBetween(sys, s, acts, sys.crypto.hash(p), w, save)
    requires StaysAfter(sys, s, acts, save, snap) && sys.crypto.hash(p) in snap.chunks
    ensures NoBlindMarkBetween(sys, s, acts, sys.crypto.hash(p), w + 1, |acts|)
  {
    hide StateAt;
    var h := sys.crypto.hash(p);
    forall k | w + 1 <= k < |acts|
      ensures !CollectorRace.BlindMark(StateAt(sys, s, acts, k), acts[k], h)
    {
      if k > save { assert CollectorRace.Holds(StateAt(sys, s, acts, k), snap); }
    }
  }

  /**
   * The same theorem as an equivalence: the backup restores at the end of the run if and only if each of its chunks
   * found its key free or holding that chunk when it was written, and no response has landed on its key since.
   */
  lemma SavedBackupRestoresIff(sys: System, s: State, acts: seq<Action>, chunks: seq<Bytes>, at: seq<nat>, save: nat,
                               snap: Snapshot)
    requires Lawful(sys.crypto) && Authentic(sys.crypto) && |sys.key| == KEY_SIZE
    requires CollectorRace.Runs(sys, s, acts) && BackupWithin(sys, s, acts, chunks, at, save, snap)
    requires ValidWrites(acts) && StaysAfter(sys, s, acts, save, snap)
    requires CollisionFree(sys.crypto, Elements(chunks) + CollectorRace.AcceptedData(acts))
    ensures CollectorRace.RestoresTo(sys, CollectorRace.Final(sys, s, acts), snap, chunks)
       <==> forall i :: 0 <= i < |chunks| ==>
              && Opens(sys, StateAt(sys, s, acts, at[i]), chunks[i])
              && NoResponse(acts, snap.chunks[i], at[i], |acts|)
  {
    hide StateAt, Opens, NoResponse;
    StateAtEnd(sys, s, acts);
    forall i | 0 <= i < |chunks|
      ensures Read(sys.crypto, sys.key, CollectorRace.Final(sys, s, acts).blocks, snap.chunks[i]) == Ok(chunks[i])
         <==> && Opens(sys, StateAt(sys, s, acts, at[i]), chunks[i])
              && NoResponse(acts, snap.chunks[i], at[i], |acts|)
    {
      ChunkReadsBackIff(sys, s, acts, chunks, at, save, snap, i);
    }
  }

  /**
   * And the restored bytes are the files of the walk, byte for byte, exactly when no position before the end of
   * a read of any of them satisfies the cut test and none of their readers stalls.
   */
  lemma SavedBackupIsFilesIff(sys: System, s: State, acts: seq<Action>, walk: seq<Backup.WalkEntry>, min: int,
                              at: seq<nat>, save: nat, snap: Snapshot)
    requires Lawful(sys.crypto) && |sys.key| == KEY_SIZE && Backup.WalkSource(walk, min).readable
    requires CollectorRace.Runs(sys, s, acts)
    requires BackupWithin(sys, s, acts, Backup.WalkSource(walk, min).chunks, at, save, snap)
    requires Undisturbed(sys, s, acts, Backup.WalkSource(walk, min).chunks, save, snap)
    ensures var s' := CollectorRace.Final(sys, s, acts);
      var restored := Flatten(Restore.Plains(sys.crypto, sys.key, s'.blocks, snap.chunks));
      restored == Restore.WalkContent(walk) <==> !Restore.WalkLoses(walk, min)
  {
    SavedBackupRestores(sys, s, acts, Backup.WalkSource(walk, min).chunks, at, save, snap);
    Restore.BackupLosslessIff(walk, min);
  }

  // ---- Several backups ----

  lemma SameIdIffSameSecond(t: nat, u: nat)
    ensures Backup.SnapshotId(t) == Backup.SnapshotId(u) <==> t == u
  {
    Decimal.PrintInjective(t, u);
    assert Backup.SnapshotId(t)[5..] == Decimal.Print(t) && Backup.SnapshotId(u)[5..] == Decimal.Print(u);
  }

  /** Of n backups saved one after the other, all n remain listed exactly when no two were taken in the same second. */
  lemma BackupsRemainIff(recs: seq<Snapshot>, times: seq<nat>)
    requires |recs| == |times| && forall i :: 0 <= i < |recs| ==> recs[i].id == Backup.SnapshotId(times[i])
    ensures |SaveAll(map[], recs)| == |recs| <==> Distinct(times)
  {
    AllSavesSurviveIff(recs);
    forall i, j | 0 <= i < j < |recs|
      ensures IdsOf(recs)[i] == IdsOf(recs)[j] <==> times[i] == times[j]
    {
      SameIdIffSameSecond(times[i], times[j]);
    }
  }
}
