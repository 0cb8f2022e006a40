/** The restore loop of cmd/backup-agent-restore/main.go, and the backup/restore round trip. */
module Restore {
  import opened Prelude
  import opened Crypto
  import opened Store
  import opened Chunker
  import opened Backup

  /** How many leading hashes can be read: the restore loop stops at the first that cannot. */
  function Readable(c: Suite, key: Bytes, blocks: Blocks, hs: seq<string>): (n: nat)
    ensures n <= |hs|
    ensures forall i :: 0 <= i < n ==> Read(c, key, blocks, hs[i]).Ok?
    ensures n < |hs| ==> Read(c, key, blocks, hs[n]).Err?
  {
    if hs == [] || Read(c, key, blocks, hs[0]).Err? then 0 else 1 + Readable(c, key, blocks, hs[1..])
  }

  function Plain(c: Suite, key: Bytes, blocks: Blocks, h: string): Bytes
  {
    var r := Read(c, key, blocks, h);
    if r.Ok? then r.value else []
  }

  function Plains(c: Suite, key: Bytes, blocks: Blocks, hs: seq<string>): (ps: seq<Bytes>)
    ensures |ps| == |hs| && forall i :: 0 <= i < |hs| ==> ps[i] == Plain(c, key, blocks, hs[i])
  {
    seq(|hs|, i requires 0 <= i < |hs| => Plain(c, key, blocks, hs[i]))
  }

  datatype RestoreError = GetFailed(error: StoreError) | WriteFailed

  /** What the disk does with write number i: takes it all, or fails after so many bytes. */
  type Disk = nat -> Option<nat>

  /** How many of the first `n` writes succeed before one fails. */
  function Writable(disk: Disk, n: nat): (k: nat)
    ensures k <= n && (forall i :: 0 <= i < k ==> disk(i).None?) && (k < n ==> disk(k).Some?)
  {
    if n == 0 then 0
    else var k := Writable(disk, n - 1); if k == n - 1 && disk(k).None? then n else k
  }

  /** What a failing write of `data` leaves in the file. */
  function Partial(data: Bytes, outcome: Option<nat>): (left: Bytes)
    ensures left <= data && |left| == if outcome.Some? then Min(outcome.value, |data|) else |data|
  {
    if outcome.Some? && outcome.value < |data| then data[..outcome.value] else data
  }

  /**
   * Writes the decrypted chunks in order and stops at the first hash that cannot be read or write that fails; the
   * file keeps what was written until then.
   */
  method RestoreFile(store: Store, hs: seq<string>, disk: Disk) returns (out: Bytes, err: Option<RestoreError>)
    ensures var n := Readable(store.crypto, store.key, store.blocks, hs);
      var w := Writable(disk, n);
      && (err.None? <==> w == |hs|)
      && (w == n ==> out == Flatten(Plains(store.crypto, store.key, store.blocks, hs[..n])))
      && (w == n < |hs| ==> Read(store.crypto, store.key, store.blocks, hs[n]).Err?
                            && err == Some(GetFailed(Read(store.crypto, store.key, store.blocks, hs[n]).error)))
      && (w < n ==> err == Some(WriteFailed)
                    && out == Flatten(Plains(store.crypto, store.key, store.blocks, hs[..w]))
                              + Partial(Plain(store.crypto, store.key, store.blocks, hs[w]), disk(w)))
  {
    hide Read, OpenBlob, Writable, Partial;
    out := [];
    for i := 0 to |hs|
      invariant out == Flatten(Plains(store.crypto, store.key, store.blocks, hs[..i]))
      invariant Readable(store.crypto, store.key, store.blocks, hs) >= i
      invariant forall k :: 0 <= k < i ==> disk(k).None?
    {
      var data := store.GetChunk(hs[i]);
      if data.Err? { return out, Some(GetFailed(data.error)); }
      if disk(i).Some? { return out + Partial(data.value, disk(i)), Some(WriteFailed); }
      var ps := Plains(store.crypto, store.key, store.blocks, hs[..i]);
      assert Plains(store.crypto, store.key, store.blocks, hs[..i + 1]) == ps + [data.value];
      FlattenSnoc(ps, data.value);
      out := out + data.value;
    }
    assert hs[..|hs|] == hs;
    return out, None;
  }

  // ---- Round trip ----

  /** Each chunk whose key is already taken finds a block that decrypts to that very chunk. */
  ghost predicate Compatible(c: Suite, key: Bytes, blocks: Blocks, chunks: seq<Bytes>)
  {
    forall p :: p in chunks && c.hash(p) in blocks ==> OpenBlob(c, key, blocks[c.hash(p)]) == Ok(p)
  }

  /** Old blocks stay as they were; each new key reads back as some chunk that was written. */
  lemma {:induction false} WrittenAllContents(c: Suite, key: Bytes, blocks: Blocks, chunks: seq<Bytes>,
                                              envs: nat -> WriteEnv)
    requires Lawful(c) && |key| == KEY_SIZE && ValidEnvs(envs)
    ensures var after := WrittenAll(c, key, blocks, chunks, envs);
      && (forall h :: h in blocks ==> h in after && after[h] == blocks[h])
      && (forall h :: h in after && h !in blocks ==>
            exists p :: p in chunks && h == c.hash(p) && Read(c, key, after, h) == Ok(p))
      && (AllWritesSucceed(c, key, blocks, chunks, envs) ==> forall p :: p in chunks ==> c.hash(p) in after)
    decreases |chunks|
  {
    if chunks != [] {
      var n := |chunks| - 1;
      var init, last := chunks[..n], chunks[n];
      WrittenAllContents(c, key, blocks, init, envs);
      var mid := WrittenAll(c, key, blocks, init, envs);
      var after := WrittenAll(c, key, blocks, chunks, envs);
      assert forall p :: p in chunks <==> p in init || p == last;
      if WriteSucceeds(c, mid, last, envs(n)) && c.hash(last) !in mid {
        FreshBlockReadsBack(c, key, mid, last, envs(n));
      }
      forall h | h in after && h !in blocks
        ensures exists p :: p in chunks && h == c.hash(p) && Read(c, key, after, h) == Ok(p)
      {
        if h in mid {
          var p :| p in init && h == c.hash(p) && Read(c, key, mid, h) == Ok(p);
          assert p in chunks && Read(c, key, after, h) == Ok(p);
        } else {
          assert last in chunks && Read(c, key, after, h) == Ok(last);
        }
      }
    }
  }

  /** After a complete backup, every chunk reads back as itself exactly when the old store was compatible. */
  lemma ChunksReadBackIff(c: Suite, key: Bytes, blocks: Blocks, chunks: seq<Bytes>, envs: nat -> WriteEnv)
    requires Lawful(c) && |key| == KEY_SIZE && ValidEnvs(envs)
    requires AllWritesSucceed(c, key, blocks, chunks, envs)
    requires CollisionFree(c, Elements(chunks))
    ensures (forall p :: p in chunks ==> Read(c, key, WrittenAll(c, key, blocks, chunks, envs), c.hash(p)) == Ok(p))
       <==> Compatible(c, key, blocks, chunks)
  {
    WrittenAllContents(c, key, blocks, chunks, envs);
    var after := WrittenAll(c, key, blocks, chunks, envs);
    forall p | p in chunks && c.hash(p) !in blocks
      ensures Read(c, key, after, c.hash(p)) == Ok(p)
    {
      var q :| q in chunks && c.hash(p) == c.hash(q) && Read(c, key, after, c.hash(p)) == Ok(q);
      assert p in Elements(chunks) && q in Elements(chunks);
    }
    if forall p :: p in chunks ==> Read(c, key, after, c.hash(p)) == Ok(p) {
      forall p | p in chunks && c.hash(p) in blocks
        ensures OpenBlob(c, key, blocks[c.hash(p)]) == Ok(p)
      {
        assert after[c.hash(p)] == blocks[c.hash(p)];
        assert Read(c, key, after, c.hash(p)) == Ok(p);
      }
    }
  }

  /** Restoring what a walk backed up yields the chunks of the walk, in order, whatever was deduplicated. */
  lemma RoundTrip(c: Suite, key: Bytes, blocks: Blocks, chunks: seq<Bytes>, envs: nat -> WriteEnv)
    requires Lawful(c) && |key| == KEY_SIZE && ValidEnvs(envs)
    requires AllWritesSucceed(c, key, blocks, chunks, envs)
    requires CollisionFree(c, Elements(chunks)) && Compatible(c, key, blocks, chunks)
    ensures var after, hs := WrittenAll(c, key, blocks, chunks, envs), HashesOf(c, chunks);
      Readable(c, key, after, hs) == |hs| && Flatten(Plains(c, key, after, hs)) == Flatten(chunks)
  {
    ChunksReadBackIff(c, key, blocks, chunks, envs);
    var after, hs := WrittenAll(c, key, blocks, chunks, envs), HashesOf(c, chunks);
    forall i | 0 <= i < |chunks|
      ensures Read(c, key, after, hs[i]) == Ok(chunks[i])
    {
      assert chunks[i] in chunks;
    }
    assert Plains(c, key, after, hs) == chunks;
  }

  /** The plaintexts a store filled by PutChunk under one key holds. */
  ghost function PlaintextsOf(c: Suite, key: Bytes, blocks: Blocks): set<Bytes>
  {
    set h | h in blocks :: Plain(c, key, blocks, h)
  }

  /** A store whose every block was written by PutChunk under this key is compatible with any new backup. */
  lemma OneKeyStoreIsCompatible(c: Suite, key: Bytes, blocks: Blocks, chunks: seq<Bytes>)
    requires forall h :: h in blocks ==> PlainAddressed(c, key, h, blocks[h])
    requires CollisionFree(c, PlaintextsOf(c, key, blocks) + Elements(chunks))
    ensures Compatible(c, key, blocks, chunks)
  {
    forall p | p in chunks && c.hash(p) in blocks
      ensures OpenBlob(c, key, blocks[c.hash(p)]) == Ok(p)
    {
      var h := c.hash(p);
      assert PlainAddressed(c, key, h, blocks[h]);
      assert Plain(c, key, blocks, h) in PlaintextsOf(c, key, blocks);
      assert p in Elements(chunks);
    }
  }

  /** Later backups never change what an earlier snapshot restores to. */
  lemma LaterBackupsKeepRestores(c: Suite, key: Bytes, blocks: Blocks, later: seq<Bytes>, envs: nat -> WriteEnv,
                                 hs: seq<string>)
    requires Lawful(c) && |key| == KEY_SIZE && ValidEnvs(envs)
    requires Readable(c, key, blocks, hs) == |hs|
    ensures var after := WrittenAll(c, key, blocks, later, envs);
      Readable(c, key, after, hs) == |hs| && Plains(c, key, after, hs) == Plains(c, key, blocks, hs)
  {
    WrittenAllContents(c, key, blocks, later, envs);
    forall i | 0 <= i < |hs|
      ensures Read(c, key, WrittenAll(c, key, blocks, later, envs), hs[i]) == Read(c, key, blocks, hs[i])
    {
      assert Read(c, key, blocks, hs[i]).Ok?;
    }
  }

  // ---- Against the files themselves ----

  /** The bytes of all regular files, in walk order. */
  function WalkContent(walk: seq<WalkEntry>): (whole: Bytes)
  {
    if walk == [] then []
    else (if walk[0].RegularFile? then Content(walk[0].script) else []) + WalkContent(walk[1..])
  }

  ghost predicate WalkLoses(walk: seq<WalkEntry>, min: int)
  {
    exists i :: 0 <= i < |walk| && walk[i].RegularFile? && Loses(walk[i].script, min)
  }

  /** A stored file is the stream the chunker returned, possibly with one empty chunk at its end. */
  lemma {:induction false} FileSourceBytes(script: Script, min: int)
    requires FileSource(script, min).readable
    ensures Flatten(FileSource(script, min).chunks) == Flatten(Returned(script, min))
    decreases |script|
  {
    if script != [] && script[0].data != [] {
      FileSourceBytes(script[1..], min);
      assert FileSource(script, min).chunks[1..] == FileSource(script[1..], min).chunks;
      assert Returned(script, min)[1..] == Returned(script[1..], min);
    } else if script != [] && script[0].err.None? {
      var empty: Bytes := [];
      assert FileSource(script, min).chunks == [empty];
      assert Flatten([empty]) == empty + Flatten<bv8>([]);
    }
  }

  /** A successful backup restores to exactly the bytes of the files if and only if no cut falls inside a read. */
  lemma {:induction false} BackupLosslessIff(walk: seq<WalkEntry>, min: int)
    requires WalkSource(walk, min).readable
    ensures |Flatten(WalkSource(walk, min).chunks)| <= |WalkContent(walk)|
    ensures |Flatten(WalkSource(walk, min).chunks)| == |WalkContent(walk)| <==> !WalkLoses(walk, min)
    ensures Flatten(WalkSource(walk, min).chunks) == WalkContent(walk) <==> !WalkLoses(walk, min)
  {
    if walk != [] {
      var rest := walk[1..];
      BackupLosslessIff(rest, min);
      var all := WalkSource(walk, min);
      WalkLosesStep(walk, min);
      if walk[0].RegularFile? {
        var script := walk[0].script;
        FileSourceBytes(script, min);
        LosslessIff(script, min);
        FlattenAppend(FileSource(script, min).chunks, WalkSource(rest, min).chunks);
        assert all.chunks == FileSource(script, min).chunks + WalkSource(rest, min).chunks;
      }
    }
  }

  lemma WalkLosesStep(walk: seq<WalkEntry>, min: int)
    requires walk != []
    ensures WalkLoses(walk, min)
       <==> (walk[0].RegularFile? && Loses(walk[0].script, min)) || WalkLoses(walk[1..], min)
  {
    if WalkLoses(walk, min) {
      var i :| 0 <= i < |walk| && walk[i].RegularFile? && Loses(walk[i].script, min);
      assert i > 0 ==> walk[1..][i - 1] == walk[i];
    }
    if WalkLoses(walk[1..], min) {
      var i :| 0 <= i < |walk[1..]| && walk[1..][i].RegularFile? && Loses(walk[1..][i].script, min);
      assert walk[i + 1] == walk[1..][i];
    }
  }

  // ---- A restore process derives its own key ----

  /** What the key of chunk `p` reads as under `other` once `p` has been backed up under `key` over `blocks`. */
  function ReadAfter(c: Suite, key: Bytes, other: Bytes, blocks: Blocks, p: Bytes): Result<Bytes, StoreError>
  {
    if c.hash(p) in blocks then Read(c, other, blocks, c.hash(p))
    else if other == key then Ok(p)
    else Err(DecryptFailed)
  }

  /**
   * What a restore under `other` reads after a backup under `key`: what was stored before reads as before, and a
   * new block reads as its chunk under the backup's key and not at all under a key separated from it.
   */
  lemma ReadsUnderOther(c: Suite, key: Bytes, other: Bytes, blocks: Blocks, chunks: seq<Bytes>, envs: nat -> WriteEnv,
                        p: Bytes)
    requires Lawful(c) && |key| == KEY_SIZE && ValidEnvs(envs) && (other != key ==> Separates(c, key, other))
    requires AllWritesSucceed(c, key, blocks, chunks, envs) && CollisionFree(c, Elements(chunks)) && p in chunks
    ensures var after := WrittenAll(c, key, blocks, chunks, envs);
      Read(c, other, after, c.hash(p)) == ReadAfter(c, key, other, blocks, p)
  {
    var after, h := WrittenAll(c, key, blocks, chunks, envs), c.hash(p);
    WrittenAllContents(c, key, blocks, chunks, envs);
    if h !in blocks {
      var q :| q in chunks && h == c.hash(q) && Read(c, key, after, h) == Ok(q);
      assert p in Elements(chunks) && q in Elements(chunks);
      NewBlocksAreBackups(c, key, blocks, chunks, envs);
      if other != key { SealedElsewhere(c, key, other, Elements(chunks), after, h); }
    }
  }

  /**
   * Over any repository, a restore under `other` recovers the whole backup made under `key` exactly when: under the
   * same key, the old blocks were compatible; under a key separated from it, every chunk was already there, readable
   * under that key.
   */
  lemma RestoreKeyIff(c: Suite, key: Bytes, other: Bytes, blocks: Blocks, chunks: seq<Bytes>, envs: nat -> WriteEnv)
    requires Lawful(c) && |key| == KEY_SIZE && ValidEnvs(envs) && (other != key ==> Separates(c, key, other))
    requires AllWritesSucceed(c, key, blocks, chunks, envs) && CollisionFree(c, Elements(chunks))
    ensures (forall p :: p in chunks ==> Read(c, other, WrittenAll(c, key, blocks, chunks, envs), c.hash(p)) == Ok(p))
       <==> Compatible(c, other, blocks, chunks) && (other == key || forall p :: p in chunks ==> c.hash(p) in blocks)
  {
    var after := WrittenAll(c, key, blocks, chunks, envs);
    forall p | p in chunks
      ensures Read(c, other, after, c.hash(p)) == ReadAfter(c, key, other, blocks, p)
    {
      ReadsUnderOther(c, key, other, blocks, chunks, envs, p);
    }
  }

  /** From an empty repository, a restore under `other` recovers a non-empty snapshot iff it is the backup's key. */
  lemma FreshRestoreKeyIff(c: Suite, key: Bytes, other: Bytes, chunks: seq<Bytes>, envs: nat -> WriteEnv)
    requires Lawful(c) && |key| == KEY_SIZE && ValidEnvs(envs) && (other != key ==> Separates(c, key, other))
    requires AllWritesSucceed(c, key, map[], chunks, envs) && CollisionFree(c, Elements(chunks))
    requires chunks != []
    ensures var after, hs := WrittenAll(c, key, map[], chunks, envs), HashesOf(c, chunks);
      Readable(c, other, after, hs) == (if other == key then |hs| else 0)
  {
    var after, hs := WrittenAll(c, key, map[], chunks, envs), HashesOf(c, chunks);
    if other == key {
      RoundTrip(c, key, map[], chunks, envs);
    } else {
      assert chunks[0] in chunks;
      ReadsUnderOther(c, key, other, map[], chunks, envs, chunks[0]);
    }
  }

  /** A block some backup wrote under `key` cannot be read under a key the suite separates from it. */
  lemma SealedElsewhere(c: Suite, key: Bytes, other: Bytes, plain: set<Bytes>, blocks: Blocks, h: string)
    requires Separates(c, key, other) && h in blocks && BackupBlock(c, key, plain, h, blocks[h])
    ensures Read(c, other, blocks, h) == Err(DecryptFailed)
  {
    var p, nonce :| p in plain && |nonce| == NONCE_SIZE && h == c.hash(p) && blocks[h] == Blob(c, key, p, nonce);
    assert blocks[h][..NONCE_SIZE] == nonce && blocks[h][NONCE_SIZE..] == c.seal(p, key, nonce);
  }

  /** `blob` is what PutChunk stores under `h` for one of the given plaintexts. */
  ghost predicate BackupBlock(c: Suite, key: Bytes, plain: set<Bytes>, h: string, blob: Bytes)
  {
    exists p, nonce :: p in plain && |nonce| == NONCE_SIZE && h == c.hash(p) && blob == Blob(c, key, p, nonce)
  }

  /** Every block a backup adds to a repository is one of its own encryptions. */
  lemma {:induction false} NewBlocksAreBackups(c: Suite, key: Bytes, blocks: Blocks, chunks: seq<Bytes>,
                                               envs: nat -> WriteEnv)
    requires ValidEnvs(envs)
    ensures var after := WrittenAll(c, key, blocks, chunks, envs);
      forall h :: h in after && h !in blocks ==> BackupBlock(c, key, Elements(chunks), h, after[h])
    decreases |chunks|
  {
    if chunks != [] {
      var n := |chunks| - 1;
      NewBlocksAreBackups(c, key, blocks, chunks[..n], envs);
      assert ValidEnv(envs(n)) && chunks[n] in Elements(chunks) && Elements(chunks[..n]) <= Elements(chunks);
      var mid, after := WrittenAll(c, key, blocks, chunks[..n], envs), WrittenAll(c, key, blocks, chunks, envs);
      forall h | h in after && h !in blocks
        ensures BackupBlock(c, key, Elements(chunks), h, after[h])
      {
        if h in mid && after[h] == mid[h] {
          assert BackupBlock(c, key, Elements(chunks[..n]), h, mid[h]);
        } else {
          assert after[h] == Blob(c, key, chunks[n], envs(n).nonce.value) && h == c.hash(chunks[n]);
        }
      }
    }
  }
}
