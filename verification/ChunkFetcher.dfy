/** internal/p2p/sync.go: the two message handlers of a ChunkFetcher, and a transfer between two peers. */
module ChunkFetcher {
  import opened Prelude
  import opened Crypto
  import opened Store
  import opened Messages
  import Base64

  /** A one-place buffer after a send that gives up when the place is taken. */
  function Offered(slot: Option<Bytes>, data: Bytes): Option<Bytes>
  {
    if slot.None? then Some(data) else slot
  }

  /** A Go channel of capacity one. */
  class Channel {
    var slot: Option<Bytes>

    constructor ()
      ensures slot == None
    {
      slot := None;
    }

    /** `select { case ch <- data: default: }` */
    method TrySend(data: Bytes)
      modifies this
      ensures slot == Offered(old(slot), data)
    {
      if slot.None? { slot := Some(data); }
    }
  }

  datatype HandlerError = Invalid(verdict: Verdict) | DataUndecodable | HashMismatch | PutFailed | PublishFailed

  /** How a handler call ends: ed25519 panics on a public key of the wrong length, and then nothing is returned. */
  datatype Ending<T> = Returned(result: Result<T, HandlerError>) | Panicked

  /** The checks HandleChunkResponse makes before it touches the store. */
  function CheckResponse(c: Suite, sg: Signer, resp: ChunkResponse): (r: Result<Bytes, HandlerError>)
    ensures r.Ok? ==> c.hash(r.value) == resp.hash && resp.Validate(sg) == Valid
  {
    if resp.Validate(sg) != Valid then Err(Invalid(resp.Validate(sg)))
    else
      var data := Base64.Decode(resp.data);
      if data.None? then Err(DataUndecodable)
      else if c.hash(data.value) != resp.hash then Err(HashMismatch)
      else Ok(data.value)
  }

  /** The reply to a request, if there is one: silence when the chunk is not stored. */
  function Reply(sg: Signer, pub: Bytes, priv: Bytes, blocks: Blocks,
                 req: ChunkRequest): (r: Result<Option<ChunkResponse>, HandlerError>)
  {
    if req.Validate(sg) != Valid then Err(Invalid(req.Validate(sg)))
    else if req.hash in blocks then Ok(Some(NewResponse(sg, req.hash, blocks[req.hash], pub, priv)))
    else Ok(None)
  }

  /**
   * A response passes the checks exactly when its signature verifies, its data decodes, and the data hashes to its
   * key.
   */
  lemma PassesIff(c: Suite, sg: Signer, resp: ChunkResponse, data: Bytes)
    ensures CheckResponse(c, sg, resp) == Ok(data) <==>
      && (exists sig, pub :: Base64.Decode(resp.signature) == Some(sig) && Base64.Decode(resp.signerPub) == Some(pub)
                             && |pub| == 32 && sg.verify(resp.hash + "|" + resp.data, sig, pub))
      && Base64.Decode(resp.data) == Some(data) && c.hash(data) == resp.hash
  {
    ResponseValidIff(sg, resp);
  }

  /**
   * A request is answered exactly when its signature verifies and the block is stored; the answer then carries the
   * block under the requested hash. It fails exactly when the signature does not verify.
   */
  lemma AnsweredIff(sg: Signer, pub: Bytes, priv: Bytes, blocks: Blocks, req: ChunkRequest)
    ensures var r := Reply(sg, pub, priv, blocks, req);
      var signed := exists sig, key ::
        Base64.Decode(req.signature) == Some(sig) && Base64.Decode(req.signerPub) == Some(key)
        && |key| == 32 && sg.verify(req.hash + "|" + req.requestor, sig, key);
      && (r.Ok? <==> signed)
      && (r.Ok? ==> (r.value.Some? <==> req.hash in blocks))
      && (r.Ok? && r.value.Some? ==>
            r.value.value.hash == req.hash && Base64.Decode(r.value.value.data) == Some(blocks[req.hash]))
  {
    RequestValidIff(sg, req);
    if req.hash in blocks { Base64.RoundTrip(blocks[req.hash]); }
  }

  class ChunkFetcher {
    const store: Store
    const signer: Signer
    const pub: Bytes
    const priv: Bytes
    var pending: map<string, Channel>

    constructor (store: Store, signer: Signer, pub: Bytes, priv: Bytes)
      ensures this.store == store && this.signer == signer && this.pub == pub && this.priv == priv && pending == map[]
    {
      this.store, this.signer, this.pub, this.priv, pending := store, signer, pub, priv, map[];
    }

    method HandleChunkResponse(resp: ChunkResponse, commits: bool) returns (r: Ending<()>)
      modifies store, if resp.hash in pending then {pending[resp.hash]} else {}
      ensures r.Panicked? <==> resp.Validate(signer) == Panics
      ensures r == Returned(Ok(())) <==> CheckResponse(store.crypto, signer, resp).Ok? && commits
      ensures r.Returned? && r.result.Err? ==>
        var check := CheckResponse(store.crypto, signer, resp);
        r.result.error == if check.Err? then check.error else PutFailed
      ensures r != Returned(Ok(())) ==> store.blocks == old(store.blocks)
      ensures r != Returned(Ok(())) && resp.hash in pending ==> pending[resp.hash].slot == old(pending[resp.hash].slot)
      ensures r == Returned(Ok(())) ==>
        var data := CheckResponse(store.crypto, signer, resp).value;
        && store.blocks == old(store.blocks)[resp.hash := data]
        && (resp.hash in pending ==> pending[resp.hash].slot == Offered(old(pending[resp.hash].slot), data))
    {
      var verdict := resp.Validate(signer);
      if verdict == Panics { return Panicked; }
      if verdict != Valid { return Returned(Err(Invalid(verdict))); }
      var data := Base64.Decode(resp.data);
      if data.None? { return Returned(Err(DataUndecodable)); }
      if store.crypto.hash(data.value) != resp.hash { return Returned(Err(HashMismatch)); }
      var ok := store.Put(resp.hash, data.value, commits);
      if !ok { return Returned(Err(PutFailed)); }
      if resp.hash in pending { pending[resp.hash].TrySend(data.value); }
      return Returned(Ok(()));
    }

    method HandleChunkRequest(req: ChunkRequest, publishes: bool) returns (r: Ending<Option<ChunkResponse>>)
      ensures r.Panicked? <==> req.Validate(signer) == Panics
      ensures var reply := Reply(signer, pub, priv, store.blocks, req);
        r.Returned? ==> r.result == if reply.Ok? && reply.value.Some? && !publishes then Err(PublishFailed) else reply
    {
      var verdict := req.Validate(signer);
      if verdict == Panics { return Panicked; }
      if verdict != Valid { return Returned(Err(Invalid(verdict))); }
      var data := store.Get(req.hash);
      if data.Err? { return Returned(Ok(None)); }
      var resp := NewResponse(signer, req.hash, data.value, pub, priv);
      if !publishes { return Returned(Err(PublishFailed)); }
      return Returned(Ok(Some(resp)));
    }
  }

  // ---- One request travelling to a peer and its reply travelling back ----

  datatype Peer = Peer(pub: Bytes, priv: Bytes, blocks: Blocks)

  /** The requester's bucket after the reply, if any, has been handled. */
  function AfterTransfer(c: Suite, sg: Signer, requester: Peer, responder: Peer, h: string,
                         name: string): (blocks: Blocks)
  {
    var req := NewRequest(sg, h, name, requester.pub, requester.priv);
    var reply := Reply(sg, responder.pub, responder.priv, responder.blocks, req);
    if reply.Ok? && reply.value.Some? then
      var checked := CheckResponse(c, sg, reply.value.value);
      if checked.Ok? then requester.blocks[reply.value.value.hash := checked.value] else requester.blocks
    else requester.blocks
  }

  /** Request and reply validate; the block arrives, byte for byte, exactly when it hashes to the requested key. */
  lemma TransferIff(c: Suite, sg: Signer, requester: Peer, responder: Peer, h: string, name: string)
    requires KeyPair(sg, requester.pub, requester.priv) && KeyPair(sg, responder.pub, responder.priv)
    ensures var blocks := AfterTransfer(c, sg, requester, responder, h, name);
      if h in responder.blocks && BlobAddressed(c, h, responder.blocks[h])
      then blocks == requester.blocks[h := responder.blocks[h]]
      else blocks == requester.blocks
  {
    var req := NewRequest(sg, h, name, requester.pub, requester.priv);
    SignedValidates(sg, req.Payload(), requester.pub, requester.priv);
    if h in responder.blocks {
      var resp := NewResponse(sg, h, responder.blocks[h], responder.pub, responder.priv);
      SignedValidates(sg, resp.Payload(), responder.pub, responder.priv);
      Base64.RoundTrip(responder.blocks[h]);
      assert CheckResponse(c, sg, resp) ==
        if c.hash(responder.blocks[h]) == h then Ok(responder.blocks[h]) else Err(HashMismatch);
    }
  }

  /** So a block that the responder's own backup wrote, keyed by its plaintext, never reaches the requester. */
  lemma BackupBlocksDoNotTransfer(c: Suite, sg: Signer, key: Bytes, requester: Peer, responder: Peer, p: Bytes,
                                  nonce: Bytes, name: string)
    requires KeyPair(sg, requester.pub, requester.priv) && KeyPair(sg, responder.pub, responder.priv)
    requires Lawful(c) && |key| == KEY_SIZE && |nonce| == NONCE_SIZE
    requires c.hash(p) in responder.blocks && responder.blocks[c.hash(p)] == Blob(c, key, p, nonce)
    requires CollisionFree(c, {p, Blob(c, key, p, nonce)})
    ensures AfterTransfer(c, sg, requester, responder, c.hash(p), name) == requester.blocks
  {
    TransferIff(c, sg, requester, responder, c.hash(p), name);
    DisciplinesExclude(c, key, c.hash(p), p, nonce);
  }

  /** Blocks that did arrive travel on: from peer to peer the bytes under a key stay the same. */
  lemma TransferredBlocksTravelOn(c: Suite, sg: Signer, first: Peer, second: Peer, third: Peer, h: string, n: string,
                                  n': string)
    requires KeyPair(sg, first.pub, first.priv) && KeyPair(sg, second.pub, second.priv)
    requires KeyPair(sg, third.pub, third.priv)
    requires h in first.blocks && BlobAddressed(c, h, first.blocks[h])
    ensures var got := second.(blocks := AfterTransfer(c, sg, second, first, h, n));
      var last := AfterTransfer(c, sg, third, got, h, n');
      h in last && last[h] == first.blocks[h]
  {
    TransferIff(c, sg, second, first, h, n);
    TransferIff(c, sg, third, second.(blocks := AfterTransfer(c, sg, second, first, h, n)), h, n');
  }
}
