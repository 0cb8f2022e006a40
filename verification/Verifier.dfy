/** internal/verification/verifier.go: chunk verification, the quick check and repair. */
module Verifier {
  import opened Prelude
  import opened Crypto
  import opened Store
  import opened Versioning
  import Backup
  import Restore

  datatype Status = Good | Missing | Corrupt

  /** verifyChunk: present, its stored bytes hash to the key, and it decrypts. */
  function StatusOf(c: Suite, key: Bytes, blocks: Blocks, h: string): Status
  {
    if h !in blocks then Missing
    else if c.hash(blocks[h]) != h then Corrupt
    else if OpenBlob(c, key, blocks[h]).Err? then Corrupt
    else Good
  }

  /** The hashes with a given status, in snapshot order. */
  function With(c: Suite, key: Bytes, blocks: Blocks, hs: seq<string>, status: Status): (r: seq<string>)
    decreases |hs|
  {
    if hs == [] then []
    else
      var n := |hs| - 1;
      var before := With(c, key, blocks, hs[..n], status);
      if StatusOf(c, key, blocks, hs[n]) == status then before + [hs[n]] else before
  }

  /** The hashes that are not good, each with its status, in snapshot order. */
  function Problems(c: Suite, key: Bytes, blocks: Blocks, hs: seq<string>): (ps: seq<(string, Status)>)
    decreases |hs|
  {
    if hs == [] then []
    else
      var n := |hs| - 1;
      var before, status := Problems(c, key, blocks, hs[..n]), StatusOf(c, key, blocks, hs[n]);
      if status == Good then before else before + [(hs[n], status)]
  }

  datatype VerificationResult = VerificationResult(
    id: string, total: nat, verified: nat, missing: seq<string>, corrupted: seq<string>,
    signatureValid: bool, errors: seq<(string, Status)>, success: bool)

  /** What VerifySnapshot reports about the chunks `hs`. */
  ghost predicate Reports(c: Suite, key: Bytes, blocks: Blocks, hs: seq<string>, r: VerificationResult)
  {
    && r.total == |hs|
    && r.verified == |With(c, key, blocks, hs, Good)|
    && r.missing == With(c, key, blocks, hs, Missing)
    && r.corrupted == With(c, key, blocks, hs, Corrupt)
    && r.errors == Problems(c, key, blocks, hs)
    && r.signatureValid
    && (r.success <==> r.missing == [] && r.corrupted == [])
  }

  class Verifier {
    const db: SnapshotDB
    const store: Store

    constructor (db: SnapshotDB, store: Store)
      ensures this.db == db && this.store == store
    {
      this.db, this.store := db, store;
    }

    method VerifyChunk(h: string) returns (r: Status)
      ensures r == StatusOf(store.crypto, store.key, store.blocks, h)
    {
      var data := store.Get(h);
      if data.Err? { return Missing; }
      if store.crypto.hash(data.value) != h { return Corrupt; }
      var plain := store.GetChunk(h);
      if plain.Err? { return Corrupt; }
      return Good;
    }

    /** The signature check of the source always answers true. */
    method VerifySnapshot(id: string) returns (r: Option<VerificationResult>)
      requires db.Valid()
      ensures r.Some? <==> id in db.snapshots
      ensures r.Some? ==>
        r.value.id == id && Reports(store.crypto, store.key, store.blocks, db.snapshots[id].chunks, r.value)
    {
      hide StatusOf;
      var snapshot := db.LoadSnapshot(id);
      if snapshot.None? { return None; }
      var hs := snapshot.value.chunks;
      var verified: nat, missing, corrupted, errors := 0, [], [], [];
      for i := 0 to |hs|
        invariant verified == |With(store.crypto, store.key, store.blocks, hs[..i], Good)|
        invariant missing == With(store.crypto, store.key, store.blocks, hs[..i], Missing)
        invariant corrupted == With(store.crypto, store.key, store.blocks, hs[..i], Corrupt)
        invariant errors == Problems(store.crypto, store.key, store.blocks, hs[..i])
      {
        assert hs[..i + 1][..i] == hs[..i];
        var status := VerifyChunk(hs[i]);
        if status != Good {
          if status == Missing { missing := missing + [hs[i]]; } else { corrupted := corrupted + [hs[i]]; }
          errors := errors + [(hs[i], status)];
        } else {
          verified := verified + 1;
        }
      }
      assert hs[..|hs|] == hs;
      var success := |missing| == 0 && |corrupted| == 0;
      return Some(VerificationResult(id, |hs|, verified, missing, corrupted, true, errors, success));
    }

    method QuickCheck(id: string) returns (r: Option<bool>)
      requires db.Valid()
      ensures r.Some? <==> id in db.snapshots
      ensures r.Some? ==> (r.value <==> forall h :: h in db.snapshots[id].chunks ==> h in store.blocks)
    {
      var snapshot := db.LoadSnapshot(id);
      if snapshot.None? { return None; }
      var hs := snapshot.value.chunks;
      for i := 0 to |hs|
        invariant forall k :: 0 <= k < i ==> hs[k] in store.blocks
      {
        var there := store.Exists(hs[i]);
        if !there { return Some(false); }
      }
      return Some(true);
    }

    /** Verifies, asks `fetch` for each missing chunk in order, and verifies again. */
    method RepairSnapshot(id: string, fetch: (Blocks, string) -> Blocks) returns (r: Option<VerificationResult>)
      requires db.Valid()
      modifies store
      ensures r.Some? <==> id in db.snapshots
      ensures r.Some? ==>
        r.value.id == id && Reports(store.crypto, store.key, store.blocks, db.snapshots[id].chunks, r.value)
      ensures store.blocks ==
        if r.None? then old(store.blocks)
        else
          var hs := db.snapshots[id].chunks;
          Fetched(fetch, old(store.blocks), With(store.crypto, store.key, old(store.blocks), hs, Missing))
    {
      var first := VerifySnapshot(id);
      if first.None? { return None; }
      if first.value.success { return first; }
      var todo := first.value.missing;
      ghost var before := store.blocks;
      for i := 0 to |todo|
        invariant store.blocks == Fetched(fetch, before, todo[..i])
      {
        assert todo[..i + 1][..i] == todo[..i];
        store.blocks := fetch(store.blocks, todo[i]);
      }
      assert todo[..|todo|] == todo;
      r := VerifySnapshot(id);
    }
  }

  /** The store after the fetch function has been called for each hash in turn. */
  function Fetched(fetch: (Blocks, string) -> Blocks, blocks: Blocks, hs: seq<string>): (r: Blocks)
    decreases |hs|
  {
    if hs == [] then blocks else fetch(Fetched(fetch, blocks, hs[..|hs| - 1]), hs[|hs| - 1])
  }

  // ---- Accounting ----

  /** Every chunk is counted once: verified, missing and corrupted add up to the total. */
  lemma {:induction false} CountsAddUp(c: Suite, key: Bytes, blocks: Blocks, hs: seq<string>)
    ensures |With(c, key, blocks, hs, Good)| + |With(c, key, blocks, hs, Missing)|
              + |With(c, key, blocks, hs, Corrupt)| == |hs|
    decreases |hs|
  {
    if hs != [] { CountsAddUp(c, key, blocks, hs[..|hs| - 1]); }
  }

  lemma {:induction false} ProblemsAddUp(c: Suite, key: Bytes, blocks: Blocks, hs: seq<string>)
    ensures |Problems(c, key, blocks, hs)| + |With(c, key, blocks, hs, Good)| == |hs|
    decreases |hs|
  {
    if hs != [] { ProblemsAddUp(c, key, blocks, hs[..|hs| - 1]); }
  }

  lemma {:induction false} WithMembers(c: Suite, key: Bytes, blocks: Blocks, hs: seq<string>, status: Status)
    ensures forall h :: h in With(c, key, blocks, hs, status) <==> h in hs && StatusOf(c, key, blocks, h) == status
    decreases |hs|
  {
    if hs != [] {
      WithMembers(c, key, blocks, hs[..|hs| - 1], status);
      assert hs == hs[..|hs| - 1] + [hs[|hs| - 1]];
    }
  }

  /** A report succeeds exactly when every chunk was verified, and its numbers add up. */
  lemma ReportTotals(c: Suite, key: Bytes, blocks: Blocks, hs: seq<string>, r: VerificationResult)
    requires Reports(c, key, blocks, hs, r)
    ensures r.verified + |r.missing| + |r.corrupted| == r.total && |r.errors| == r.total - r.verified
    ensures r.success <==> r.verified == r.total
  {
    CountsAddUp(c, key, blocks, hs);
    ProblemsAddUp(c, key, blocks, hs);
  }

  /** QuickCheck's answer is "nothing missing" in the full report on the same state. */
  lemma QuickCheckAgrees(c: Suite, key: Bytes, blocks: Blocks, hs: seq<string>, r: VerificationResult)
    requires Reports(c, key, blocks, hs, r)
    ensures (forall h :: h in hs ==> h in blocks) <==> r.missing == []
  {
    WithMembers(c, key, blocks, hs, Missing);
    if r.missing != [] { assert r.missing[0] in r.missing; }
    assert forall h :: h in hs && h !in blocks ==> h in r.missing;
  }

  /**
   * A chunk is good exactly when the bytes under its key hash to the key and are what sealing some text under the
   * store's key gives.
   */
  lemma GoodIff(c: Suite, key: Bytes, blocks: Blocks, h: string)
    requires Lawful(c) && Authentic(c) && |key| == KEY_SIZE
    ensures StatusOf(c, key, blocks, h) == Good <==>
      && h in blocks && c.hash(blocks[h]) == h
      && exists p, nonce :: |nonce| == 12 && blocks[h] == nonce + c.seal(p, key, nonce)
  {
    if h in blocks {
      var blob := blocks[h];
      if OpenBlob(c, key, blob).Ok? {
        var nonce, p := blob[..12], OpenBlob(c, key, blob).value;
        assert blob == nonce + blob[12..] && blob[12..] == c.seal(p, key, nonce);
      }
      if exists p, nonce :: |nonce| == 12 && blob == nonce + c.seal(p, key, nonce) {
        var p, nonce :| |nonce| == 12 && blob == nonce + c.seal(p, key, nonce);
        assert blob[..12] == nonce && blob[12..] == c.seal(p, key, nonce);
      }
    }
  }

  /** So a plaintext that lies raw under its own hash is not verified if it is shorter than 28 bytes. */
  lemma ShortRawIsCorrupt(c: Suite, key: Bytes, blocks: Blocks, p: Bytes)
    requires Lawful(c) && Authentic(c) && |key| == KEY_SIZE
    requires c.hash(p) in blocks && blocks[c.hash(p)] == p && |p| < 28
    ensures StatusOf(c, key, blocks, c.hash(p)) == Corrupt
  {
    GoodIff(c, key, blocks, c.hash(p));
  }

  /** `at` are, in order, exactly the positions whose chunk has a status in `which`. */
  ghost predicate PositionsOf(c: Suite, key: Bytes, blocks: Blocks, hs: seq<string>, which: set<Status>, at: seq<nat>)
  {
    && (forall k :: 0 <= k < |at| ==> at[k] < |hs| && StatusOf(c, key, blocks, hs[at[k]]) in which)
    && (forall k, l :: 0 <= k < l < |at| ==> at[k] < at[l])
    && (forall i :: 0 <= i < |hs| && StatusOf(c, key, blocks, hs[i]) in which ==> i in at)
  }

  /** The errors are the unverified chunks, each with its status, in snapshot order, and nothing else. */
  lemma {:induction false} ProblemsExact(c: Suite, key: Bytes, blocks: Blocks, hs: seq<string>) returns (at: seq<nat>)
    ensures PositionsOf(c, key, blocks, hs, {Missing, Corrupt}, at)
    ensures var ps := Problems(c, key, blocks, hs);
      |ps| == |at| && forall k :: 0 <= k < |at| ==> ps[k] == (hs[at[k]], StatusOf(c, key, blocks, hs[at[k]]))
    decreases |hs|
  {
    hide StatusOf;
    at := [];
    if hs != [] {
      var n := |hs| - 1;
      at := ProblemsExact(c, key, blocks, hs[..n]);
      assert forall i :: 0 <= i < n ==> hs[..n][i] == hs[i];
      if StatusOf(c, key, blocks, hs[n]) != Good { at := at + [n]; }
    }
  }

  /** The lists of missing and of corrupted chunks are those chunks in snapshot order, and nothing else. */
  lemma {:induction false} WithExact(c: Suite, key: Bytes, blocks: Blocks, hs: seq<string>, status: Status)
    returns (at: seq<nat>)
    ensures PositionsOf(c, key, blocks, hs, {status}, at)
    ensures var xs := With(c, key, blocks, hs, status); |xs| == |at| && forall k :: 0 <= k < |at| ==> xs[k] == hs[at[k]]
    decreases |hs|
  {
    hide StatusOf;
    at := [];
    if hs != [] {
      var n := |hs| - 1;
      at := WithExact(c, key, blocks, hs[..n], status);
      assert forall i :: 0 <= i < n ==> hs[..n][i] == hs[i];
      if StatusOf(c, key, blocks, hs[n]) == status { at := at + [n]; }
    }
  }

  // ---- Repair ----

  /** A fetch function that only adds blobs matching their hash, and only under absent keys. */
  ghost predicate AddsMatching(c: Suite, fetch: (Blocks, string) -> Blocks)
  {
    forall blocks, h :: Extends(c, blocks, fetch(blocks, h))
  }

  ghost predicate Extends(c: Suite, blocks: Blocks, blocks': Blocks)
  {
    && (forall k :: k in blocks ==> k in blocks' && blocks'[k] == blocks[k])
    && (forall k :: k in blocks' && k !in blocks ==> BlobAddressed(c, k, blocks'[k]))
  }

  lemma {:induction false} FetchedExtends(c: Suite, fetch: (Blocks, string) -> Blocks, blocks: Blocks, hs: seq<string>)
    requires AddsMatching(c, fetch)
    ensures Extends(c, blocks, Fetched(fetch, blocks, hs))
    decreases |hs|
  {
    if hs != [] {
      var n := |hs| - 1;
      FetchedExtends(c, fetch, blocks, hs[..n]);
      assert Extends(c, Fetched(fetch, blocks, hs[..n]), fetch(Fetched(fetch, blocks, hs[..n]), hs[n]));
    }
  }

  lemma {:induction false} SubsequenceSnoc<T>(t: seq<T>, s: seq<T>, x: T)
    requires Subsequence(t, s)
    ensures Subsequence(t, s + [x]) && Subsequence(t + [x], s + [x])
    decreases |s|
  {
    if s != [] {
      assert (s + [x])[1..] == s[1..] + [x];
      if t != [] && t[0] == s[0] {
        SubsequenceSnoc(t[1..], s[1..], x);
        assert (t + [x])[1..] == t[1..] + [x];
      } else {
        SubsequenceSnoc(t, s[1..], x);
        if t == [] {
          assert t + [x] == [x];
          SubsequenceTail([x], s[1..] + [x], s[0]);
          assert [s[0]] + (s[1..] + [x]) == s + [x];
        }
      }
    } else {
      assert t == [] && t + [x] == [x] && s + [x] == [x];
      assert [x][1..] == [];
    }
  }

  /** A subsequence has no element that the whole does not have, and none more often. */
  lemma {:induction false} SubsequenceCounts<T>(t: seq<T>, s: seq<T>)
    requires Subsequence(t, s)
    ensures |t| <= |s| && multiset(t) <= multiset(s)
    decreases |s|
  {
    if t != [] {
      assert s == [s[0]] + s[1..] && t == [t[0]] + t[1..];
      if t[0] == s[0] { SubsequenceCounts(t[1..], s[1..]); } else { SubsequenceCounts(t, s[1..]); }
    }
  }

  /** One more element in front cannot hurt. */
  lemma {:induction false} SubsequenceTail<T>(t: seq<T>, s: seq<T>, x: T)
    requires Subsequence(t, s)
    ensures Subsequence(t, [x] + s)
    decreases |s|, 1
  {
    assert ([x] + s)[1..] == s;
    if t != [] && t[0] == x {
      DropFirst(t, s);
    }
  }

  lemma {:induction false} DropFirst<T>(t: seq<T>, s: seq<T>)
    requires t != [] && Subsequence(t, s)
    ensures Subsequence(t[1..], s)
    decreases |s|, 0
  {
    if t[0] == s[0] {
      SubsequenceTail(t[1..], s[1..], s[0]);
      assert [s[0]] + s[1..] == s;
    } else {
      DropFirst(t, s[1..]);
      SubsequenceTail(t[1..], s[1..], s[0]);
      assert [s[0]] + s[1..] == s;
    }
  }

  /** Adding matching blobs under absent keys only ever moves chunks out of "missing". */
  lemma {:induction false} ExtensionEffect(c: Suite, key: Bytes, blocks: Blocks, blocks': Blocks, hs: seq<string>)
    requires Extends(c, blocks, blocks')
    ensures |With(c, key, blocks, hs, Good)| <= |With(c, key, blocks', hs, Good)|
    ensures Subsequence(With(c, key, blocks', hs, Missing), With(c, key, blocks, hs, Missing))
    ensures Subsequence(With(c, key, blocks, hs, Corrupt), With(c, key, blocks', hs, Corrupt))
    decreases |hs|
  {
    if hs != [] {
      var n := |hs| - 1;
      ExtensionEffect(c, key, blocks, blocks', hs[..n]);
      SubsequenceSnoc(With(c, key, blocks', hs[..n], Missing), With(c, key, blocks, hs[..n], Missing), hs[n]);
      SubsequenceSnoc(With(c, key, blocks, hs[..n], Corrupt), With(c, key, blocks', hs[..n], Corrupt), hs[n]);
    }
  }

  /** Repair never loses a verified chunk, only shortens the list of missing ones, and cures no corrupted chunk. */
  lemma RepairMonotone(c: Suite, key: Bytes, blocks: Blocks, fetch: (Blocks, string) -> Blocks, hs: seq<string>,
                       before: VerificationResult, after: VerificationResult)
    requires AddsMatching(c, fetch)
    requires Reports(c, key, blocks, hs, before)
    requires Reports(c, key, Fetched(fetch, blocks, before.missing), hs, after)
    ensures before.verified <= after.verified
    ensures Subsequence(after.missing, before.missing)
    ensures Subsequence(before.corrupted, after.corrupted)
    ensures after.success ==> before.corrupted == []
  {
    FetchedExtends(c, fetch, blocks, before.missing);
    ExtensionEffect(c, key, blocks, Fetched(fetch, blocks, before.missing), hs);
  }

  // ---- A snapshot straight out of a backup ----

  /**
   * The verifier compares each key with the hash of the stored bytes, while a backup keys blocks by their
   * plaintext. So after a complete backup a chunk has the status it had before, except that a chunk which was
   * missing is now corrupted.
   */
  lemma StatusAfterBackup(c: Suite, key: Bytes, blocks: Blocks, chunks: seq<Bytes>, envs: nat -> WriteEnv, p: Bytes)
    requires Lawful(c) && |key| == KEY_SIZE && Backup.ValidEnvs(envs)
    requires Backup.AllWritesSucceed(c, key, blocks, chunks, envs) && p in chunks
    requires CollisionFree(c, Elements(chunks) + Backup.WrittenAll(c, key, blocks, chunks, envs).Values)
    ensures var was := StatusOf(c, key, blocks, c.hash(p));
      var now := StatusOf(c, key, Backup.WrittenAll(c, key, blocks, chunks, envs), c.hash(p));
      now == if was == Missing then Corrupt else was
  {
    var after, h := Backup.WrittenAll(c, key, blocks, chunks, envs), c.hash(p);
    Restore.WrittenAllContents(c, key, blocks, chunks, envs);
    if h !in blocks {
      Restore.NewBlocksAreBackups(c, key, blocks, chunks, envs);
      assert Restore.BackupBlock(c, key, Elements(chunks), h, after[h]);
      var q, nonce :|
        q in Elements(chunks) && |nonce| == NONCE_SIZE && h == c.hash(q) && after[h] == Blob(c, key, q, nonce);
      assert after[h] in after.Values && |after[h]| == |q| + NONCE_SIZE + TAG_SIZE;
    }
  }

  /**
   * Verification right after a complete backup, over any old contents: nothing is missing, and it succeeds if and
   * only if every chunk of the snapshot was already stored and good before the backup.
   */
  lemma VerifiesAfterBackupIff(c: Suite, key: Bytes, blocks: Blocks, chunks: seq<Bytes>, envs: nat -> WriteEnv,
                               r: VerificationResult)
    requires Lawful(c) && |key| == KEY_SIZE && Backup.ValidEnvs(envs)
    requires Backup.AllWritesSucceed(c, key, blocks, chunks, envs)
    requires CollisionFree(c, Elements(chunks) + Backup.WrittenAll(c, key, blocks, chunks, envs).Values)
    requires Reports(c, key, Backup.WrittenAll(c, key, blocks, chunks, envs), Backup.HashesOf(c, chunks), r)
    ensures r.missing == []
    ensures r.success <==> forall p :: p in chunks ==> StatusOf(c, key, blocks, c.hash(p)) == Good
  {
    hide StatusOf, With, Backup.WrittenAll, Backup.AllWritesSucceed;
    var after, hs := Backup.WrittenAll(c, key, blocks, chunks, envs), Backup.HashesOf(c, chunks);
    forall i | 0 <= i < |hs|
      ensures var was := StatusOf(c, key, blocks, hs[i]);
        StatusOf(c, key, after, hs[i]) == if was == Missing then Corrupt else was
    {
      assert chunks[i] in chunks;
      StatusAfterBackup(c, key, blocks, chunks, envs, chunks[i]);
    }
    SuccessIffAllGood(c, key, after, hs, r);
    if forall i :: 0 <= i < |hs| ==> StatusOf(c, key, after, hs[i]) == Good {
      forall p | p in chunks ensures StatusOf(c, key, blocks, c.hash(p)) == Good {
        var i :| 0 <= i < |chunks| && chunks[i] == p;
        assert hs[i] == c.hash(p);
      }
    }
    if forall p :: p in chunks ==> StatusOf(c, key, blocks, c.hash(p)) == Good {
      forall i | 0 <= i < |hs| ensures StatusOf(c, key, after, hs[i]) == Good { assert chunks[i] in chunks; }
    }
  }

  lemma SuccessIffAllGood(c: Suite, key: Bytes, blocks: Blocks, hs: seq<string>, r: VerificationResult)
    requires Reports(c, key, blocks, hs, r) && forall i :: 0 <= i < |hs| ==> StatusOf(c, key, blocks, hs[i]) != Missing
    ensures r.missing == [] && (r.success <==> forall i :: 0 <= i < |hs| ==> StatusOf(c, key, blocks, hs[i]) == Good)
  {
    hide StatusOf, With;
    WithMembers(c, key, blocks, hs, Missing);
    WithMembers(c, key, blocks, hs, Corrupt);
    NoMembers(r.missing);
    NoMembers(r.corrupted);
    assert forall i :: 0 <= i < |hs| ==> hs[i] in hs;
  }

  lemma NoMembers(xs: seq<string>)
    ensures xs == [] <==> forall x :: x !in xs
  {
    if xs != [] { assert xs[0] in xs; }
  }

  /** In particular, right after a complete backup into an empty store every chunk is reported corrupted. */
  lemma FreshBackupReportedCorrupt(c: Suite, key: Bytes, chunks: seq<Bytes>, envs: nat -> WriteEnv,
                                   r: VerificationResult)
    requires Lawful(c) && |key| == KEY_SIZE && Backup.ValidEnvs(envs)
    requires Backup.AllWritesSucceed(c, key, map[], chunks, envs)
    requires CollisionFree(c, Elements(chunks) + Backup.WrittenAll(c, key, map[], chunks, envs).Values)
    requires Reports(c, key, Backup.WrittenAll(c, key, map[], chunks, envs), Backup.HashesOf(c, chunks), r)
    ensures r.verified == 0 && r.missing == [] && r.corrupted == Backup.HashesOf(c, chunks)
  {
    var after, hs := Backup.WrittenAll(c, key, map[], chunks, envs), Backup.HashesOf(c, chunks);
    forall i | 0 <= i < |hs|
      ensures StatusOf(c, key, after, hs[i]) == Corrupt
    {
      assert chunks[i] in chunks;
      StatusAfterBackup(c, key, map[], chunks, envs, chunks[i]);
    }
    AllOneStatus(c, key, after, hs, Corrupt);
    CountsAddUp(c, key, after, hs);
  }

  lemma {:induction false} AllOneStatus(c: Suite, key: Bytes, blocks: Blocks, hs: seq<string>, status: Status)
    requires forall i :: 0 <= i < |hs| ==> StatusOf(c, key, blocks, hs[i]) == status
    ensures With(c, key, blocks, hs, status) == hs
    decreases |hs|
  {
    if hs != [] {
      AllOneStatus(c, key, blocks, hs[..|hs| - 1], status);
      assert hs == hs[..|hs| - 1] + [hs[|hs| - 1]];
    }
  }
}
