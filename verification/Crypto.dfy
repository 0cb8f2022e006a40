/** The primitives of internal/crypto as parameters, with the laws the rest of the system relies on. */
module Crypto {
  import opened Prelude

  const KEY_SIZE := 32
  const NONCE_SIZE := 12
  const TAG_SIZE := 16
  const PUBLIC_KEY_SIZE := 32

  /**
   * `hash` is the hexadecimal SHA-256 of its argument; `seal` and `open` are AES-256-GCM without
   * additional data, taking the text, the key and the nonce in that order.
   */
  datatype Suite = Suite(
    hash: Bytes -> string,
    seal: (Bytes, Bytes, Bytes) -> Bytes,
    open: (Bytes, Bytes, Bytes) -> Option<Bytes>)

  /** Sealing adds a 16-byte tag, and opening under the same key and nonce undoes it. */
  ghost predicate Lawful(c: Suite)
  {
    forall p, key, nonce :: |key| == KEY_SIZE && |nonce| == NONCE_SIZE ==>
      |c.seal(p, key, nonce)| == |p| + TAG_SIZE && c.open(c.seal(p, key, nonce), key, nonce) == Some(p)
  }

  /** Opening accepts nothing but what sealing produces. */
  ghost predicate Authentic(c: Suite)
  {
    forall x, p, key, nonce :: |key| == KEY_SIZE && |nonce| == NONCE_SIZE && c.open(x, key, nonce) == Some(p) ==>
      x == c.seal(p, key, nonce)
  }

  /** No two distinct members of `inPlay` have the same hash. */
  ghost predicate CollisionFree(c: Suite, inPlay: set<Bytes>)
  {
    forall x, y :: x in inPlay && y in inPlay && c.hash(x) == c.hash(y) ==> x == y
  }

  /** Nothing sealed under `key` opens under `other`. */
  ghost predicate Separates(c: Suite, key: Bytes, other: Bytes)
  {
    forall p, nonce :: |nonce| == NONCE_SIZE ==> c.open(c.seal(p, key, nonce), other, nonce) == None
  }

  /** Ed25519: `sign` takes the message and the private key, `verify` the message, signature and public key. */
  datatype Signer = Signer(
    sign: (string, Bytes) -> Bytes,
    verify: (string, Bytes, Bytes) -> bool)

  ghost predicate KeyPair(s: Signer, pub: Bytes, priv: Bytes)
  {
    && |pub| == PUBLIC_KEY_SIZE
    && forall m :: s.verify(m, s.sign(m, priv), pub)
  }

  /** Nothing verifies under `pub` but the messages that its owner has signed. */
  ghost predicate Unforgeable(s: Signer, pub: Bytes, signed: set<string>)
  {
    forall m, sig :: s.verify(m, sig, pub) ==> m in signed
  }

  // ---- The laws can be met ----

  /** A toy suite: the hash spells out its argument, and the appended tag tells `special` from all other keys. */
  function ToySuite(special: Bytes): Suite
  {
    Suite((b: Bytes) => seq(|b|, i requires 0 <= i < |b| => (b[i] as int) as char),
          (p, key, nonce) => p + ToyTag(key == special),
          (c: Bytes, key, nonce) =>
            if |c| < TAG_SIZE || c[|c| - TAG_SIZE..] != ToyTag(key == special) then None else Some(c[..|c| - TAG_SIZE]))
  }

  function ToyTag(isSpecial: bool): (tag: Bytes)
    ensures |tag| == TAG_SIZE
  {
    seq(TAG_SIZE, _ => if isSpecial then 1 else 0)
  }

  function ToySigner(): Signer
  {
    Signer((m, priv) => [], (m, sig, pub) => true)
  }

  /** So the assumptions made of the primitives are consistent, all of them at once. */
  lemma LawsHaveAModel(inPlay: set<Bytes>, key: Bytes, other: Bytes, pub: Bytes, priv: Bytes)
    requires other != key && |pub| == PUBLIC_KEY_SIZE
    ensures Lawful(ToySuite(key)) && CollisionFree(ToySuite(key), inPlay) && Separates(ToySuite(key), key, other)
    ensures Authentic(ToySuite(key)) && KeyPair(ToySigner(), pub, priv)
  {
    var c := ToySuite(key);
    forall p: Bytes, k: Bytes, nonce: Bytes
      ensures |c.seal(p, k, nonce)| == |p| + TAG_SIZE && c.open(c.seal(p, k, nonce), k, nonce) == Some(p)
    {
      var sealed := p + ToyTag(k == key);
      assert sealed[..|p|] == p && sealed[|p|..] == ToyTag(k == key);
    }
    forall x: Bytes, p: Bytes, k: Bytes, nonce: Bytes | c.open(x, k, nonce) == Some(p)
      ensures x == c.seal(p, k, nonce)
    {
      assert x == x[..|x| - TAG_SIZE] + x[|x| - TAG_SIZE..];
    }
    forall p: Bytes, nonce: Bytes
      ensures c.open(c.seal(p, key, nonce), other, nonce) == None
    {
      var sealed := p + ToyTag(true);
      assert sealed[|p|..][0] == 1 && ToyTag(false)[0] == 0;
    }
    forall x: Bytes, y | c.hash(x) == c.hash(y)
      ensures x == y
    {
      assert |x| == |c.hash(x)| && |y| == |c.hash(y)|;
      forall i | 0 <= i < |x| ensures x[i] == y[i] {
        assert c.hash(x)[i] == (x[i] as int) as char && c.hash(y)[i] == (y[i] as int) as char;
      }
    }
  }

  /** A signer whose signatures verify only for the messages in `signed`, and only with the signature it makes. */
  function SetSigner(signed: set<string>): Signer
  {
    Signer((m, priv) => [1], (m, sig, pub) => m in signed && sig == [1])
  }

  lemma UnforgeabilityHasAModel(signed: set<string>, pub: Bytes, priv: Bytes)
    ensures Unforgeable(SetSigner(signed), pub, signed)
    ensures forall m :: m in signed ==> SetSigner(signed).verify(m, SetSigner(signed).sign(m, priv), pub)
  {
  }
}
