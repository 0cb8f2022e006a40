/** internal/protocol/messages.go: the signed gossip messages and their validation. */
module Messages {
  import opened Prelude
  import opened Crypto
  import opened Versioning
  import Base64

  /** How a Validate call ends; ed25519 panics on a public key of the wrong length. */
  datatype Verdict = Valid | Undecodable | BadSignature | Panics

  function ValidateSigned(sg: Signer, payload: string, signature: string, signerPub: string): (v: Verdict)
  {
    var sig, pub := Base64.Decode(signature), Base64.Decode(signerPub);
    if sig.None? || pub.None? then Undecodable
    else if |pub.value| != PUBLIC_KEY_SIZE then Panics
    else if sg.verify(payload, sig.value, pub.value) then Valid
    else BadSignature
  }

  /** How validation ends, case by case: `sig` and `pub` are what signature and key decode to. */
  lemma ValidationCases(sg: Signer, payload: string, signature: string, signerPub: string)
    ensures var v := ValidateSigned(sg, payload, signature, signerPub);
      var sig, pub := Base64.Decode(signature), Base64.Decode(signerPub);
      && (v == Undecodable <==> sig == None || pub == None)
      && (v == Panics <==> sig.Some? && pub.Some? && |pub.value| != 32)
      && (v == Valid <==> sig.Some? && pub.Some? && |pub.value| == 32 && sg.verify(payload, sig.value, pub.value))
  {
  }

  /** What a signer attaches to a payload always validates under the key pair. */
  lemma SignedValidates(sg: Signer, payload: string, pub: Bytes, priv: Bytes)
    requires KeyPair(sg, pub, priv)
    ensures ValidateSigned(sg, payload, Base64.Encode(sg.sign(payload, priv)), Base64.Encode(pub)) == Valid
  {
    Base64.RoundTrip(sg.sign(payload, priv));
    Base64.RoundTrip(pub);
  }

  /** The signed payload: two fields with a separator between them. */
  function Frame(h: string, x: string): string { h + "|" + x }

  datatype ChunkRequest = ChunkRequest(hash: string, requestor: string, signerPub: string, signature: string)
  {
    function Payload(): string { Frame(hash, requestor) }

    function Validate(sg: Signer): Verdict { ValidateSigned(sg, Payload(), signature, signerPub) }
  }

  datatype ChunkResponse = ChunkResponse(hash: string, data: string, signerPub: string, signature: string)
  {
    function Payload(): string { Frame(hash, data) }

    function Validate(sg: Signer): Verdict { ValidateSigned(sg, Payload(), signature, signerPub) }
  }

  /** The request FetchChunk publishes. */
  function NewRequest(sg: Signer, hash: string, peer: string, pub: Bytes, priv: Bytes): (req: ChunkRequest)
  {
    var unsigned := ChunkRequest(hash, peer, Base64.Encode(pub), "");
    unsigned.(signature := Base64.Encode(sg.sign(unsigned.Payload(), priv)))
  }

  /** The response HandleChunkRequest publishes. */
  function NewResponse(sg: Signer, hash: string, blob: Bytes, pub: Bytes, priv: Bytes): (resp: ChunkResponse)
  {
    var unsigned := ChunkResponse(hash, Base64.Encode(blob), Base64.Encode(pub), "");
    unsigned.(signature := Base64.Encode(sg.sign(unsigned.Payload(), priv)))
  }

  /** Signing a snapshot covers the record with an empty signature. */
  function SignSnapshot(sg: Signer, marshal: Snapshot -> string, snap: Snapshot, priv: Bytes): Snapshot
  {
    snap.(signature := Base64.Encode(sg.sign(marshal(snap.(signature := "")), priv)))
  }

  function ValidateAnnouncement(sg: Signer, marshal: Snapshot -> string, snap: Snapshot): Verdict
  {
    ValidateSigned(sg, marshal(snap.(signature := "")), snap.signature, snap.signerPub)
  }

  /** Everything a node signs itself is valid for its peers: requests, responses and announcements. */
  lemma OwnMessagesValidate(sg: Signer, marshal: Snapshot -> string, pub: Bytes, priv: Bytes,
                            hash: string, peer: string, blob: Bytes, snap: Snapshot)
    requires KeyPair(sg, pub, priv) && snap.signerPub == Base64.Encode(pub)
    ensures NewRequest(sg, hash, peer, pub, priv).Validate(sg) == Valid
    ensures NewResponse(sg, hash, blob, pub, priv).Validate(sg) == Valid
    ensures ValidateAnnouncement(sg, marshal, SignSnapshot(sg, marshal, snap, priv)) == Valid
    ensures var req := NewRequest(sg, hash, peer, pub, priv);
      req.hash == hash && req.requestor == peer && Base64.Decode(req.signerPub) == Some(pub)
    ensures var resp := NewResponse(sg, hash, blob, pub, priv);
      resp.hash == hash && Base64.Decode(resp.data) == Some(blob) && Base64.Decode(resp.signerPub) == Some(pub)
    ensures SignSnapshot(sg, marshal, snap, priv).(signature := "") == snap.(signature := "")
  {
    var req, resp := NewRequest(sg, hash, peer, pub, priv), NewResponse(sg, hash, blob, pub, priv);
    Base64.RoundTrip(pub);
    Base64.RoundTrip(blob);
    SignedValidates(sg, req.Payload(), pub, priv);
    SignedValidates(sg, resp.Payload(), pub, priv);
    SignedValidates(sg, marshal(snap.(signature := "")), pub, priv);
    assert SignSnapshot(sg, marshal, snap, priv).(signature := "") == snap.(signature := "");
  }

  // ---- What a payload says about the fields ----

  /** No other pair of fields has the same payload. */
  ghost predicate Determined(h: string, x: string)
  {
    forall h', x' :: Frame(h', x') == Frame(h, x) ==> h' == h && x' == x
  }

  /** If neither `x` nor `x'` contains a separator, the last separator of the payload ends the first field. */
  lemma LastSeparator(h: string, x: string, h': string, x': string)
    requires '|' !in x && '|' !in x' && Frame(h, x) == Frame(h', x')
    ensures h == h' && x == x'
  {
    var p := Frame(h, x);
    assert p[|h|] == '|' && p[|h'|] == '|';
    assert p[|h| + 1..] == x && p[|h'| + 1..] == x';
    assert |h| == |h'|;
    assert p[..|h|] == h && p[..|h'|] == h';
  }

  /** If neither `h` nor `h'` does, the first one ends it. */
  lemma FirstSeparator(h: string, x: string, h': string, x': string)
    requires '|' !in h && '|' !in h' && Frame(h, x) == Frame(h', x')
    ensures h == h' && x == x'
  {
    var p := Frame(h, x);
    assert p[|h|] == '|' && p[|h'|] == '|';
    assert |h| == |h'|;
    assert p[..|h|] == h && p[..|h'|] == h';
    assert p[|h| + 1..] == x && p[|h'| + 1..] == x';
  }

  /**
   * Among messages whose hashes contain no separator, and hexadecimal never does, the payload determines the
   * fields.
   */
  lemma PayloadInjective(a: ChunkRequest, b: ChunkRequest, c: ChunkResponse, d: ChunkResponse)
    requires '|' !in a.hash && '|' !in b.hash && '|' !in c.hash && '|' !in d.hash
    ensures a.Payload() == b.Payload() ==> a.hash == b.hash && a.requestor == b.requestor
    ensures c.Payload() == d.Payload() ==> c.hash == d.hash && c.data == d.data
  {
    if a.Payload() == b.Payload() { FirstSeparator(a.hash, a.requestor, b.hash, b.requestor); }
    if c.Payload() == d.Payload() { FirstSeparator(c.hash, c.data, d.hash, d.data); }
  }

  /** The separator may be read as a character of a field, and a character of a field as the separator. */
  lemma FramingAmbiguous(h: string, m: string, x: string)
    ensures Frame(h + "|" + m, x) == Frame(h, m + "|" + x) && h + "|" + m != h && m + "|" + x != x
    ensures !Determined(h + "|" + m, x) && !Determined(h, m + "|" + x)
  {
    assert h + "|" + m + "|" + x == h + "|" + (m + "|" + x);
    assert |h + "|" + m| > |h| && |m + "|" + x| > |x|;
  }

  /** A payload determines its fields exactly when neither of them contains a separator. */
  lemma DeterminedIff(h: string, x: string)
    ensures Determined(h, x) <==> '|' !in h && '|' !in x
  {
    if '|' in h {
      var i :| 0 <= i < |h| && h[i] == '|';
      FramingAmbiguous(h[..i], h[i + 1..], x);
      assert h == h[..i] + "|" + h[i + 1..];
    } else if '|' in x {
      var i :| 0 <= i < |x| && x[i] == '|';
      FramingAmbiguous(h, x[..i], x[i + 1..]);
      assert x == x[..i] + "|" + x[i + 1..];
    } else {
      forall h', x' | Frame(h', x') == Frame(h, x)
        ensures h' == h && x' == x
      {
        OneSeparator(h, x, h', x');
        LastSeparator(h, x, h', x');
      }
    }
  }

  /** A payload with a single separator leaves none for the second field of any other reading. */
  lemma OneSeparator(h: string, x: string, h': string, x': string)
    requires '|' !in h && '|' !in x && Frame(h', x') == Frame(h, x)
    ensures '|' !in x'
  {
    var p := Frame(h, x);
    assert forall k :: 0 <= k < |p| && p[k] == '|' ==> k == |h|;
    assert p[|h'|] == '|';
    forall k | 0 <= k < |x'| ensures x'[k] != '|' { assert p[|h'| + 1 + k] == x'[k]; }
  }

  /** The signed payload of a request determines its fields exactly when neither contains a separator. */
  lemma RequestDeterminedIff(req: ChunkRequest)
    ensures (forall r: ChunkRequest :: r.Payload() == req.Payload() ==>
              r.hash == req.hash && r.requestor == req.requestor)
       <==> '|' !in req.hash && '|' !in req.requestor
  {
    DeterminedIff(req.hash, req.requestor);
    if forall r: ChunkRequest :: r.Payload() == req.Payload() ==> r.hash == req.hash && r.requestor == req.requestor {
      forall h', x' | Frame(h', x') == Frame(req.hash, req.requestor)
        ensures h' == req.hash && x' == req.requestor
      {
        assert ChunkRequest(h', x', "", "").Payload() == req.Payload();
      }
    }
  }

  lemma DecodableNoSeparator(s: string)
    requires Base64.Decode(s).Some?
    ensures '|' !in s
  {
    Base64.DecodableInAlphabet(s);
    assert !Base64.InAlphabet('|');
  }

  /** For a response whose data decodes, the condition is on the hash alone. */
  lemma ResponseDeterminedIff(resp: ChunkResponse)
    requires Base64.Decode(resp.data).Some?
    ensures (forall r: ChunkResponse :: r.Payload() == resp.Payload() ==> r.hash == resp.hash && r.data == resp.data)
       <==> '|' !in resp.hash
  {
    DecodableNoSeparator(resp.data);
    DeterminedIff(resp.hash, resp.data);
    if forall r: ChunkResponse :: r.Payload() == resp.Payload() ==> r.hash == resp.hash && r.data == resp.data {
      forall h', x' | Frame(h', x') == Frame(resp.hash, resp.data)
        ensures h' == resp.hash && x' == resp.data
      {
        assert ChunkResponse(h', x', "", "").Payload() == resp.Payload();
      }
    }
  }

  /** Among responses whose data decodes, and no other is ever accepted, the payload always determines both fields. */
  lemma DecodableResponsesDetermined(a: ChunkResponse, b: ChunkResponse)
    requires Base64.Decode(a.data).Some? && Base64.Decode(b.data).Some? && a.Payload() == b.Payload()
    ensures a.hash == b.hash && a.data == b.data
  {
    DecodableNoSeparator(a.data);
    DecodableNoSeparator(b.data);
    LastSeparator(a.hash, a.data, b.hash, b.data);
  }

  // ---- What a valid message proves ----

  /** A request is valid exactly when its signature verifies, under the key it names, for its hash and requestor. */
  lemma RequestValidIff(sg: Signer, req: ChunkRequest)
    ensures req.Validate(sg) == Valid <==>
      exists sig, pub :: Base64.Decode(req.signature) == Some(sig) && Base64.Decode(req.signerPub) == Some(pub)
                         && |pub| == 32 && sg.verify(req.hash + "|" + req.requestor, sig, pub)
  {
    ValidationCases(sg, req.Payload(), req.signature, req.signerPub);
  }

  lemma ResponseValidIff(sg: Signer, resp: ChunkResponse)
    ensures resp.Validate(sg) == Valid <==>
      exists sig, pub :: Base64.Decode(resp.signature) == Some(sig) && Base64.Decode(resp.signerPub) == Some(pub)
                         && |pub| == 32 && sg.verify(resp.hash + "|" + resp.data, sig, pub)
  {
    ValidationCases(sg, resp.Payload(), resp.signature, resp.signerPub);
  }

  /** An announcement is valid exactly when its signature verifies for the record without the signature. */
  lemma AnnouncementValidIff(sg: Signer, marshal: Snapshot -> string, snap: Snapshot)
    ensures ValidateAnnouncement(sg, marshal, snap) == Valid <==>
      exists sig, pub :: Base64.Decode(snap.signature) == Some(sig) && Base64.Decode(snap.signerPub) == Some(pub)
                         && |pub| == 32 && sg.verify(marshal(snap.(signature := "")), sig, pub)
  {
    ValidationCases(sg, marshal(snap.(signature := "")), snap.signature, snap.signerPub);
  }

  /**
   * If nothing verifies under a key but what its owner signed, a valid response that names the key and whose data
   * decodes is, in hash and data, one the owner made, or its payload is that of some other message the owner signed.
   */
  lemma ValidResponseIsGenuine(sg: Signer, pub: Bytes, made: set<ChunkResponse>, others: set<string>,
                               resp: ChunkResponse)
    requires Unforgeable(sg, pub, (set r | r in made :: r.hash + "|" + r.data) + others)
    requires forall r :: r in made ==> Base64.Decode(r.data).Some?
    requires resp.Validate(sg) == Valid && Base64.Decode(resp.signerPub) == Some(pub) && Base64.Decode(resp.data).Some?
    ensures || (exists r :: r in made && r.hash == resp.hash && r.data == resp.data)
            || resp.hash + "|" + resp.data in others
  {
    ResponseValidIff(sg, resp);
    if resp.hash + "|" + resp.data !in others {
      var r :| r in made && r.hash + "|" + r.data == resp.hash + "|" + resp.data;
      DecodableResponsesDetermined(r, resp);
    }
  }
}
