/** internal/snapshots/snapshot.go: chunking a directory walk into the store, and the signed snapshot record. */
module Backup {
  import opened Prelude
  import opened Crypto
  import opened Store
  import opened Chunker
  import opened Versioning
  import Messages
  import Base64
  import Decimal

  // ---- Creating a snapshot ----

  /** What filepath.Walk reports, in walk order; an unopenable file is `RegularFile(false, _)`. */
  datatype WalkEntry = WalkFailed | NotRegular | RegularFile(opens: bool, script: Script)

  ghost predicate ValidWalk(walk: seq<WalkEntry>, max: nat)
  {
    forall i :: 0 <= i < |walk| && walk[i].RegularFile? ==> FitsBuffer(walk[i].script, max)
  }

  /** The chunks one file contributes, and whether reading it ended without an error. */
  datatype Source = Source(chunks: seq<Bytes>, readable: bool)

  /** The chunks Next produces until EOF, an error, or the first empty chunk, which is still kept. */
  function FileSource(script: Script, min: int): (r: Source)
    decreases |script|
  {
    match NextAnswer(script, min)
    case Err(e) => Source([], e == EOF)
    case Ok(chunk) =>
      if chunk == [] then Source([chunk], true)
      else var rest := FileSource(Advance(script), min); Source([chunk] + rest.chunks, rest.readable)
  }

  /** The chunks of a walk up to its first failure. */
  function WalkSource(walk: seq<WalkEntry>, min: int): (r: Source)
  {
    if walk == [] then Source([], true)
    else match walk[0]
      case WalkFailed => Source([], false)
      case NotRegular => WalkSource(walk[1..], min)
      case RegularFile(opens, script) =>
        if !opens then Source([], false)
        else
          var file := FileSource(script, min);
          if !file.readable then file
          else var rest := WalkSource(walk[1..], min); Source(file.chunks + rest.chunks, rest.readable)
  }

  /** The bucket after PutChunk on each chunk in order, write number i running in `envs(i)`. */
  function WrittenAll(c: Suite, key: Bytes, blocks: Blocks, chunks: seq<Bytes>, envs: nat -> WriteEnv): (r: Blocks)
    decreases |chunks|
  {
    if chunks == [] then blocks
    else
      var n := |chunks| - 1;
      Written(c, key, WrittenAll(c, key, blocks, chunks[..n], envs), chunks[n], envs(n))
  }

  predicate AllWritesSucceed(c: Suite, key: Bytes, blocks: Blocks, chunks: seq<Bytes>, envs: nat -> WriteEnv)
    decreases |chunks|
  {
    chunks == [] ||
    var n := |chunks| - 1;
    && AllWritesSucceed(c, key, blocks, chunks[..n], envs)
    && WriteSucceeds(c, WrittenAll(c, key, blocks, chunks[..n], envs), chunks[n], envs(n))
  }

  ghost predicate ValidEnvs(envs: nat -> WriteEnv)
  {
    forall i: nat :: ValidEnv(envs(i))
  }

  function HashesOf(c: Suite, chunks: seq<Bytes>): (hs: seq<string>)
    ensures |hs| == |chunks| && forall i :: 0 <= i < |chunks| ==> hs[i] == c.hash(chunks[i])
  {
    seq(|chunks|, i requires 0 <= i < |chunks| => c.hash(chunks[i]))
  }

  datatype BackupError = WalkError | ChunkStoreError

  /** The store holds `before` with exactly `chunks` written on top, every write having succeeded. */
  ghost predicate Holds(store: Store, before: Blocks, chunks: seq<Bytes>, envs: nat -> WriteEnv)
    reads store
  {
    && store.blocks == WrittenAll(store.crypto, store.key, before, chunks, envs)
    && AllWritesSucceed(store.crypto, store.key, before, chunks, envs)
  }

  /** How far storing `whole` got, and why it stopped. */
  ghost predicate Outcome(store: Store, before: Blocks, whole: seq<Bytes>, readable: bool, envs: nat -> WriteEnv,
                          stored: seq<Bytes>, err: Option<BackupError>)
    reads store
  {
    && stored <= whole
    && Holds(store, before, stored, envs)
    && match err
       case None => stored == whole && readable
       case Some(WalkError) => stored == whole && !readable
       case Some(ChunkStoreError) =>
         |stored| < |whole| && !AllWritesSucceed(store.crypto, store.key, before, whole[..|stored| + 1], envs)
  }

  lemma FileStep(script: Script, min: int)
    ensures match NextAnswer(script, min)
      case Err(e) => FileSource(script, min) == Source([], e == EOF)
      case Ok(chunk) =>
        && (chunk == [] ==> FileSource(script, min) == Source([chunk], true))
        && (chunk != [] ==> var rest := FileSource(Advance(script), min);
                            script != [] && FileSource(script, min) == Source([chunk] + rest.chunks, rest.readable))
  {
  }

  lemma WriteStep(c: Suite, key: Bytes, blocks: Blocks, chunks: seq<Bytes>, chunk: Bytes, envs: nat -> WriteEnv)
    ensures var before := WrittenAll(c, key, blocks, chunks, envs);
      && WrittenAll(c, key, blocks, chunks + [chunk], envs) == Written(c, key, before, chunk, envs(|chunks|))
      && (AllWritesSucceed(c, key, blocks, chunks + [chunk], envs)
          <==> AllWritesSucceed(c, key, blocks, chunks, envs) && WriteSucceeds(c, before, chunk, envs(|chunks|)))
  {
    assert (chunks + [chunk])[..|chunks|] == chunks;
  }

  /**
   * The inner loop: chunk one open file, store what comes out and note the hashes. `done` are the chunks stored so far
   * and `soFar` their hashes.
   */
  method StoreFile(store: Store, chunker: Chunker, envs: nat -> WriteEnv, soFar: seq<string>,
                   ghost done: seq<Bytes>, ghost before: Blocks, ghost file: Source)
    returns (hashes: seq<string>, ghost stored: seq<Bytes>, err: Option<BackupError>)
    requires chunker.Valid() && Holds(store, before, done, envs) && soFar == HashesOf(store.crypto, done)
    requires file == FileSource(chunker.script, chunker.min)
    modifies store, chunker
    ensures Outcome(store, before, done + file.chunks, file.readable, envs, stored, err)
    ensures hashes == HashesOf(store.crypto, stored)
  {
    hide FileSource, NextAnswer, WrittenAll, AllWritesSucceed, Written, WriteSucceeds;
    hashes, stored := soFar, done;
    ghost var todo := file;
    while true
      invariant chunker.Valid() && Holds(store, before, stored, envs) && hashes == HashesOf(store.crypto, stored)
      invariant todo == FileSource(chunker.script, chunker.min)
      invariant done + file.chunks == stored + todo.chunks && todo.readable == file.readable
      decreases |chunker.script|
    {
      FileStep(chunker.script, chunker.min);
      var next := chunker.Next();
      if next == Err(EOF) { return hashes, stored, None; }
      if next.Err? { return hashes, stored, Some(WalkError); }
      var chunk := next.value;
      var put := store.PutChunk(chunk, envs(|hashes|));
      WriteStep(store.crypto, store.key, before, stored, chunk, envs);
      if put.Err? {
        assert (done + file.chunks)[..|stored| + 1] == stored + [chunk];
        return hashes, stored, Some(ChunkStoreError);
      }
      hashes, stored := hashes + [put.value], stored + [chunk];
      if |chunk| == 0 { return hashes, stored, None; }
      todo := FileSource(chunker.script, chunker.min);
    }
  }

  /** Everything was stored, and the walk ends here, readable or not. */
  lemma Stopped(store: Store, before: Blocks, all: Source, envs: nat -> WriteEnv, stored: seq<Bytes>,
                err: Option<BackupError>)
    requires Holds(store, before, stored, envs) && stored == all.chunks
    requires if all.readable then err == None else err == Some(WalkError)
    ensures Outcome(store, before, all.chunks, all.readable, envs, stored, err)
  {
  }

  /** The outcome of one file is the outcome of the walk if it failed, and otherwise the walk goes on. */
  lemma Passed(store: Store, before: Blocks, done: seq<Bytes>, file: Source, all: Source, rest: Source,
               envs: nat -> WriteEnv, stored: seq<Bytes>, err: Option<BackupError>)
    requires Outcome(store, before, done + file.chunks, file.readable, envs, stored, err)
    requires all.chunks == done + (if file.readable then file.chunks + rest.chunks else file.chunks)
    requires all.readable == (file.readable && rest.readable)
    ensures err.Some? ==> Outcome(store, before, all.chunks, all.readable, envs, stored, err)
    ensures err.None? ==> file.readable && Holds(store, before, stored, envs) && all.chunks == stored + rest.chunks
  {
    var whole := done + file.chunks;
    assert whole <= all.chunks;
    if err == Some(ChunkStoreError) {
      assert all.chunks[..|stored| + 1] == whole[..|stored| + 1];
    }
  }

  lemma WalkStep(walk: seq<WalkEntry>, i: nat, min: int)
    requires i < |walk|
    ensures walk[i].NotRegular? ==> WalkSource(walk[i..], min) == WalkSource(walk[i + 1..], min)
    ensures walk[i].WalkFailed? || (walk[i].RegularFile? && !walk[i].opens) ==>
      WalkSource(walk[i..], min) == Source([], false)
    ensures walk[i].RegularFile? && walk[i].opens ==>
      var file, rest := FileSource(walk[i].script, min), WalkSource(walk[i + 1..], min);
      WalkSource(walk[i..], min) == if file.readable then Source(file.chunks + rest.chunks, rest.readable) else file
  {
    assert walk[i..][1..] == walk[i + 1..] && walk[i..][0] == walk[i];
  }

  lemma WalkEnd(walk: seq<WalkEntry>, min: int)
    ensures WalkSource(walk[|walk|..], min) == Source([], true)
  {
  }

  lemma NothingWritten(store: Store, envs: nat -> WriteEnv)
    ensures Holds(store, store.blocks, [], envs)
  {
  }

  /** The walk: every regular file is opened and stored; the first failure ends it. */
  method StoreWalk(walk: seq<WalkEntry>, store: Store, min: int, max: nat, envs: nat -> WriteEnv)
    returns (hashes: seq<string>, ghost stored: seq<Bytes>, err: Option<BackupError>)
    requires ValidWalk(walk, max)
    modifies store
    ensures var all := WalkSource(walk, min);
      Outcome(store, old(store.blocks), all.chunks, all.readable, envs, stored, err)
    ensures hashes == HashesOf(store.crypto, stored)
  {
    hide FileSource, WalkSource, Holds, Outcome;
    ghost var all, before := WalkSource(walk, min), store.blocks;
    hashes, stored := [], [];
    NothingWritten(store, envs);
    assert walk[0..] == walk;
    var i := 0;
    while i < |walk|
      invariant 0 <= i <= |walk| && Holds(store, before, stored, envs) && hashes == HashesOf(store.crypto, stored)
      invariant all.chunks == stored + WalkSource(walk[i..], min).chunks
      invariant all.readable == WalkSource(walk[i..], min).readable
    {
      WalkStep(walk, i, min);
      if walk[i].WalkFailed? || (walk[i].RegularFile? && !walk[i].opens) {
        Stopped(store, before, all, envs, stored, Some(WalkError));
        return hashes, stored, Some(WalkError);
      }
      if walk[i].RegularFile? {
        var chunker := new Chunker(walk[i].script, min, max);
        ghost var done, file := stored, FileSource(walk[i].script, min);
        hashes, stored, err := StoreFile(store, chunker, envs, hashes, done, before, file);
        Passed(store, before, done, file, all, WalkSource(walk[i + 1..], min), envs, stored, err);
        if err.Some? { return; }
      }
      i := i + 1;
    }
    WalkEnd(walk, min);
    Stopped(store, before, all, envs, stored, None);
    return hashes, stored, None;
  }

  /** Appending chunks never undoes the success of the earlier writes. */
  lemma {:induction false} SuccessOfPrefix(c: Suite, key: Bytes, blocks: Blocks, chunks: seq<Bytes>, n: nat,
                                           envs: nat -> WriteEnv)
    requires n <= |chunks| && AllWritesSucceed(c, key, blocks, chunks, envs)
    ensures AllWritesSucceed(c, key, blocks, chunks[..n], envs)
    decreases |chunks|
  {
    if n < |chunks| {
      SuccessOfPrefix(c, key, blocks, chunks[..|chunks| - 1], n, envs);
      assert chunks[..|chunks| - 1][..n] == chunks[..n];
    } else {
      assert chunks[..n] == chunks;
    }
  }

  /** Snapshot IDs have a granularity of one second. */
  function SnapshotId(unixNow: nat): string { "snap-" + Decimal.Print(unixNow) }

  /** Who signs a snapshot, and how a record is serialised for it. */
  datatype Identity = Identity(signer: Signer, marshal: Snapshot -> string, pub: Bytes, priv: Bytes)

  /** The record of a backup whose chunks have these hashes, taken at `unixNow`, before it is signed. */
  function Unsigned(who: Identity, hashes: seq<string>, source: string, parent: string,
                    unixNow: nat, timestamp: string): Snapshot
  {
    Snapshot(SnapshotId(unixNow), parent, timestamp, hashes, map["source" := source], Base64.Encode(who.pub), "")
  }

  function Record(who: Identity, hashes: seq<string>, source: string, parent: string,
                  unixNow: nat, timestamp: string): Snapshot
  {
    Messages.SignSnapshot(who.signer, who.marshal, Unsigned(who, hashes, source, parent, unixNow, timestamp), who.priv)
  }

  /** What the record says, field by field. */
  lemma RecordContents(who: Identity, hashes: seq<string>, source: string, parent: string, unixNow: nat,
                       timestamp: string)
    ensures var snap := Record(who, hashes, source, parent, unixNow, timestamp);
      && snap.chunks == hashes && snap.parent == parent && snap.timestamp == timestamp
      && snap.id == "snap-" + Decimal.Print(unixNow)
      && snap.meta.Keys == {"source"} && snap.meta["source"] == source
      && Base64.Decode(snap.signerPub) == Some(who.pub)
      && Base64.Decode(snap.signature) == Some(who.signer.sign(who.marshal(snap.(signature := "")), who.priv))
  {
    var unsigned := Unsigned(who, hashes, source, parent, unixNow, timestamp);
    Base64.RoundTrip(who.pub);
    Base64.RoundTrip(who.signer.sign(who.marshal(unsigned), who.priv));
    assert Record(who, hashes, source, parent, unixNow, timestamp).(signature := "") == unsigned;
  }

  /** Storing the whole walk ends without an error exactly when the walk is readable and every write succeeds. */
  lemma Judged(store: Store, before: Blocks, all: Source, envs: nat -> WriteEnv, stored: seq<Bytes>,
               err: Option<BackupError>)
    requires Outcome(store, before, all.chunks, all.readable, envs, stored, err)
    ensures err.None? <==> all.readable && AllWritesSucceed(store.crypto, store.key, before, all.chunks, envs)
    ensures err.None? ==> stored == all.chunks && Holds(store, before, all.chunks, envs)
  {
    if err == Some(ChunkStoreError) && AllWritesSucceed(store.crypto, store.key, before, all.chunks, envs) {
      SuccessOfPrefix(store.crypto, store.key, before, all.chunks, |stored| + 1, envs);
    }
  }

  /**
   * CreateSnapshot: stores every chunk of the walk in order, records their hashes and signs the record. It
   * succeeds exactly when the walk is readable and every write commits; a failure leaves a prefix stored.
   */
  method CreateSnapshot(walk: seq<WalkEntry>, source: string, store: Store, who: Identity, parent: string,
                        min: int, max: nat, unixNow: nat, timestamp: string, envs: nat -> WriteEnv)
    returns (r: Result<Snapshot, BackupError>)
    requires ValidWalk(walk, max)
    modifies store
    ensures var all := WalkSource(walk, min);
      && (r.Ok? <==> all.readable && AllWritesSucceed(store.crypto, store.key, old(store.blocks), all.chunks, envs))
      && (r.Ok? ==> Holds(store, old(store.blocks), all.chunks, envs))
      && (r.Err? ==> exists stored ::
            Outcome(store, old(store.blocks), all.chunks, all.readable, envs, stored, Some(r.error)))
    ensures r.Ok? ==> var (all, snap) := (WalkSource(walk, min).chunks, r.value);
      && |snap.chunks| == |all| && (forall i :: 0 <= i < |all| ==> snap.chunks[i] == store.crypto.hash(all[i]))
      && snap.id == "snap-" + Decimal.Print(unixNow) && snap.parent == parent && snap.timestamp == timestamp
      && snap.meta == map["source" := source] && Base64.Decode(snap.signerPub) == Some(who.pub)
      && Base64.Decode(snap.signature) == Some(who.signer.sign(who.marshal(snap.(signature := "")), who.priv))
    ensures r.Ok? ==> r.value == Record(who, r.value.chunks, source, parent, unixNow, timestamp)
  {
    hide Record, Base64.Decode, Outcome, WalkSource, AllWritesSucceed, WrittenAll;
    var hashes, stored, err := StoreWalk(walk, store, min, max, envs);
    ghost var all := WalkSource(walk, min);
    Judged(store, old(store.blocks), all, envs, stored, err);
    if err.Some? { return Err(err.value); }
    RecordContents(who, hashes, source, parent, unixNow, timestamp);
    return Ok(Record(who, hashes, source, parent, unixNow, timestamp));
  }

  /** A peer that receives the announcement of such a record finds its signature valid. */
  lemma RecordAnnounces(who: Identity, hashes: seq<string>, source: string, parent: string, unixNow: nat,
                        timestamp: string)
    requires KeyPair(who.signer, who.pub, who.priv)
    ensures var snap := Record(who, hashes, source, parent, unixNow, timestamp);
      Messages.ValidateAnnouncement(who.signer, who.marshal, snap) == Messages.Valid
  {
    var unsigned := Unsigned(who, hashes, source, parent, unixNow, timestamp);
    Messages.OwnMessagesValidate(who.signer, who.marshal, who.pub, who.priv, "", "", [], unsigned);
  }
}
