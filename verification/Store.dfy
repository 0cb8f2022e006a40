/** internal/storage/store.go: the content-addressed block store over one bolt bucket. */
module Store {
  import opened Prelude
  import opened Crypto

  type Blocks = map<string, Bytes>

  datatype StoreError = BadKeySize | ChunkNotFound | Malformed | DecryptFailed | EncryptFailed | TxFailed

  /** What the environment decides about one write: the random nonce, if any, and whether bolt commits. */
  datatype WriteEnv = WriteEnv(nonce: Option<Bytes>, commits: bool)

  ghost predicate ValidEnv(env: WriteEnv)
  {
    env.nonce.Some? ==> |env.nonce.value| == NONCE_SIZE
  }

  /** What PutChunk stores for `p`: the nonce followed by the ciphertext. */
  function Blob(c: Suite, key: Bytes, p: Bytes, nonce: Bytes): Bytes
  {
    nonce + c.seal(p, key, nonce)
  }

  /** The blob `nonce || ciphertext` split and decrypted; a blob shorter than a nonce is malformed. */
  function OpenBlob(c: Suite, key: Bytes, blob: Bytes): (r: Result<Bytes, StoreError>)
  {
    if |blob| < NONCE_SIZE then Err(Malformed)
    else match c.open(blob[NONCE_SIZE..], key, blob[..NONCE_SIZE])
      case None => Err(DecryptFailed)
      case Some(p) => Ok(p)
  }

  /** What GetChunk answers for `h` when the bucket holds `blocks`. */
  function Read(c: Suite, key: Bytes, blocks: Blocks, h: string): (r: Result<Bytes, StoreError>)
  {
    if h in blocks then OpenBlob(c, key, blocks[h]) else Err(ChunkNotFound)
  }

  /** A PutChunk transaction succeeds unless bolt fails, or a new block finds no randomness. */
  predicate WriteSucceeds(c: Suite, blocks: Blocks, p: Bytes, env: WriteEnv)
  {
    env.commits && (c.hash(p) in blocks || env.nonce.Some?)
  }

  /** The bucket after PutChunk(p): a present key is left alone, an absent one gets a fresh encryption. */
  function Written(c: Suite, key: Bytes, blocks: Blocks, p: Bytes, env: WriteEnv): (r: Blocks)
  {
    if WriteSucceeds(c, blocks, p, env) && c.hash(p) !in blocks
    then blocks[c.hash(p) := Blob(c, key, p, env.nonce.value)]
    else blocks
  }

  class Store {
    const crypto: Suite
    const key: Bytes
    var blocks: Blocks

    constructor (crypto: Suite, key: Bytes, bucket: Blocks)
      ensures this.crypto == crypto && this.key == key && blocks == bucket
    {
      this.crypto, this.key, this.blocks := crypto, key, bucket;
    }

    /** storage.New over what the database holds: refuses a master key that is not 32 bytes long. */
    static method Open(crypto: Suite, key: Bytes, bucket: Blocks) returns (r: Result<Store, StoreError>)
      ensures r.Ok? <==> |key| == 32
      ensures r.Ok? ==> fresh(r.value) && r.value.key == key && r.value.crypto == crypto && r.value.blocks == bucket
      ensures r.Err? ==> r.error == BadKeySize
    {
      if |key| != KEY_SIZE {
        return Err(BadKeySize);
      }
      var s := new Store(crypto, key, bucket);
      return Ok(s);
    }

    method PutChunk(plaintext: Bytes, env: WriteEnv) returns (r: Result<string, StoreError>)
      modifies this
      ensures blocks == Written(crypto, key, old(blocks), plaintext, env)
      ensures r.Ok? <==> WriteSucceeds(crypto, old(blocks), plaintext, env)
      ensures r.Ok? ==> r.value == crypto.hash(plaintext) && r.value in blocks
      ensures r.Err? ==> blocks == old(blocks)
      ensures r.Err? ==>
        r.error == if crypto.hash(plaintext) in old(blocks) || env.nonce.Some? then TxFailed else EncryptFailed
      ensures forall h :: h in old(blocks) ==> h in blocks && blocks[h] == old(blocks)[h]
    {
      var h := crypto.hash(plaintext);
      if h in blocks {
        if env.commits { return Ok(h); } else { return Err(TxFailed); }
      }
      match env.nonce {
        case None => return Err(EncryptFailed);
        case Some(nonce) =>
          var enc := crypto.seal(plaintext, key, nonce);
          if !env.commits { return Err(TxFailed); }
          blocks := blocks[h := nonce + enc];
          return Ok(h);
      }
    }

    method GetChunk(h: string) returns (r: Result<Bytes, StoreError>)
      ensures r == Read(crypto, key, blocks, h)
    {
      if h !in blocks { return Err(ChunkNotFound); }
      var stored := blocks[h];
      if |stored| < NONCE_SIZE { return Err(Malformed); }
      var nonce, ciphertext := stored[..NONCE_SIZE], stored[NONCE_SIZE..];
      match crypto.open(ciphertext, key, nonce) {
        case None => return Err(DecryptFailed);
        case Some(p) => return Ok(p);
      }
    }

    method Get(h: string) returns (r: Result<Bytes, StoreError>)
      ensures r == if h in blocks then Ok(blocks[h]) else Err(ChunkNotFound)
    {
      if h in blocks { return Ok(blocks[h]); }
      return Err(ChunkNotFound);
    }

    method Put(h: string, data: Bytes, commits: bool) returns (ok: bool)
      modifies this
      ensures ok == commits
      ensures blocks == if commits then old(blocks)[h := data] else old(blocks)
    {
      if commits { blocks := blocks[h := data]; }
      return commits;
    }

    method Delete(h: string, commits: bool) returns (ok: bool)
      modifies this
      ensures ok == commits
      ensures blocks == if commits then old(blocks) - {h} else old(blocks)
    {
      if commits { blocks := blocks - {h}; }
      return commits;
    }

    /** Every key exactly once, in ascending order. */
    method ListAll() returns (keys: seq<string>)
      ensures Distinct(keys) && Elements(keys) == blocks.Keys && Ascending(keys)
    {
      keys := InOrder(blocks.Keys);
    }

    method Exists(h: string) returns (b: bool)
      ensures b <==> h in blocks
    {
      return h in blocks;
    }
  }

  // ---- What PutChunk and GetChunk promise together ----

  /** A freshly written block reads back as its plaintext and is 28 bytes longer. */
  lemma FreshBlockReadsBack(c: Suite, key: Bytes, blocks: Blocks, p: Bytes, env: WriteEnv)
    requires Lawful(c) && |key| == KEY_SIZE && ValidEnv(env)
    requires WriteSucceeds(c, blocks, p, env) && c.hash(p) !in blocks
    ensures var after := Written(c, key, blocks, p, env);
      && Read(c, key, after, c.hash(p)) == Ok(p)
      && |after[c.hash(p)]| == |p| + 28
  {
    var nonce := env.nonce.value;
    var blob := Blob(c, key, p, nonce);
    assert blob[..NONCE_SIZE] == nonce && blob[NONCE_SIZE..] == c.seal(p, key, nonce);
  }

  /** The exact condition under which a successful PutChunk(p) can be read back as `p`. */
  lemma PutChunkReadsBackIff(c: Suite, key: Bytes, blocks: Blocks, p: Bytes, env: WriteEnv)
    requires Lawful(c) && |key| == KEY_SIZE && ValidEnv(env)
    requires WriteSucceeds(c, blocks, p, env)
    ensures Read(c, key, Written(c, key, blocks, p, env), c.hash(p)) == Ok(p)
       <==> (c.hash(p) in blocks ==> OpenBlob(c, key, blocks[c.hash(p)]) == Ok(p))
  {
    if c.hash(p) !in blocks {
      FreshBlockReadsBack(c, key, blocks, p, env);
    }
  }

  // ---- The two address disciplines ----

  predicate PlainAddressed(c: Suite, key: Bytes, h: string, blob: Bytes)
  {
    var text := OpenBlob(c, key, blob);
    text.Ok? && c.hash(text.value) == h
  }

  predicate BlobAddressed(c: Suite, h: string, blob: Bytes)
  {
    c.hash(blob) == h
  }

  ghost predicate DualAddressed(c: Suite, key: Bytes, blocks: Blocks)
  {
    forall h :: h in blocks ==> PlainAddressed(c, key, h, blocks[h]) || BlobAddressed(c, h, blocks[h])
  }

  /** The writers of the bucket: the backup path, an incoming response, and the collector. */
  datatype StoreOp =
    | PutPlain(plaintext: Bytes, env: WriteEnv)
    | AcceptResponse(hash: string, data: Bytes, commits: bool)
    | DeleteKey(hash: string, commits: bool)

  function ApplyOp(c: Suite, key: Bytes, blocks: Blocks, op: StoreOp): (r: Blocks)
  {
    match op
    case PutPlain(p, env) => Written(c, key, blocks, p, env)
    case AcceptResponse(h, data, commits) => if commits && c.hash(data) == h then blocks[h := data] else blocks
    case DeleteKey(h, commits) => if commits then blocks - {h} else blocks
  }

  function ApplyOps(c: Suite, key: Bytes, blocks: Blocks, ops: seq<StoreOp>): (r: Blocks)
    decreases |ops|
  {
    if ops == [] then blocks else ApplyOps(c, key, ApplyOp(c, key, blocks, ops[0]), ops[1..])
  }

  /** What each writer does through the store's own operations; a response is put only if its data hashes to its key. */
  method Perform(store: Store, op: StoreOp)
    modifies store
    ensures store.blocks == ApplyOp(store.crypto, store.key, old(store.blocks), op)
  {
    match op
    case PutPlain(p, env) =>
      var _ := store.PutChunk(p, env);
    case AcceptResponse(h, data, commits) =>
      if store.crypto.hash(data) == h { var _ := store.Put(h, data, commits); }
    case DeleteKey(h, commits) =>
      var _ := store.Delete(h, commits);
  }

  ghost predicate ValidOps(ops: seq<StoreOp>)
  {
    forall i :: 0 <= i < |ops| && ops[i].PutPlain? ==> ValidEnv(ops[i].env)
  }

  /** Whatever the writers do, in any order, every key keeps being one of the two hashes of its block. */
  lemma {:induction false} DualAddressInvariant(c: Suite, key: Bytes, blocks: Blocks, ops: seq<StoreOp>)
    requires Lawful(c) && |key| == KEY_SIZE && ValidOps(ops)
    requires DualAddressed(c, key, blocks)
    ensures DualAddressed(c, key, ApplyOps(c, key, blocks, ops))
    decreases |ops|
  {
    if ops != [] {
      var op := ops[0];
      if op.PutPlain? && WriteSucceeds(c, blocks, op.plaintext, op.env) && c.hash(op.plaintext) !in blocks {
        FreshBlockReadsBack(c, key, blocks, op.plaintext, op.env);
      }
      DualAddressInvariant(c, key, ApplyOp(c, key, blocks, op), ops[1..]);
    }
  }

  lemma DualAddressFromEmpty(c: Suite, key: Bytes, ops: seq<StoreOp>)
    requires Lawful(c) && |key| == KEY_SIZE && ValidOps(ops)
    ensures DualAddressed(c, key, ApplyOps(c, key, map[], ops))
  {
    DualAddressInvariant(c, key, map[], ops);
  }

  /**
   * The disciplines exclude each other: a block written by PutChunk never also matches the hash of its
   * stored bytes, because the stored bytes are longer than the plaintext.
   */
  lemma DisciplinesExclude(c: Suite, key: Bytes, h: string, p: Bytes, nonce: Bytes)
    requires Lawful(c) && |key| == KEY_SIZE && |nonce| == NONCE_SIZE
    requires h == c.hash(p)
    requires CollisionFree(c, {p, Blob(c, key, p, nonce)})
    ensures PlainAddressed(c, key, h, Blob(c, key, p, nonce))
    ensures !BlobAddressed(c, h, Blob(c, key, p, nonce))
  {
    var blob := Blob(c, key, p, nonce);
    assert blob[..NONCE_SIZE] == nonce && blob[NONCE_SIZE..] == c.seal(p, key, nonce);
    assert |blob| == |p| + NONCE_SIZE + TAG_SIZE;
  }
}
