/** internal/gc/collector.go, run without interference: delete old snapshots, mark, sweep. */
module Collector {
  import opened Prelude
  import opened Store
  import opened Versioning

  /** RFC 3339 parsing is a parameter: it yields a point in time or nothing. */
  type Parser = string -> Option<int>

  /** Which database operations fail; each key is handled at most once per run. */
  datatype Faults = Faults(
    listOld: bool, listLive: bool, listChunks: bool,
    deleteSnapshot: string -> bool, getChunk: string -> bool, deleteChunk: string -> bool)

  predicate Expired(snap: Snapshot, cutoff: int, parse: Parser)
  {
    parse(snap.timestamp).Some? && parse(snap.timestamp).value < cutoff
  }

  function References(snaps: Snapshots): (refs: set<string>)
  {
    set id, h | id in snaps && h in snaps[id].chunks :: h
  }

  /** The snapshots a run with these faults leaves behind. */
  function Kept(snaps: Snapshots, cutoff: int, parse: Parser, f: Faults): (r: Snapshots)
  {
    map id | id in snaps && !(Expired(snaps[id], cutoff, parse) && !f.deleteSnapshot(id)) :: snaps[id]
  }

  /** The blocks a sweep with these faults leaves behind. */
  function Swept(blocks: Blocks, refs: set<string>, f: Faults): (r: Blocks)
  {
    map h | h in blocks && (h in refs || f.getChunk(h) || f.deleteChunk(h)) :: blocks[h]
  }

  ghost function TotalBytes(blocks: Blocks): nat
  {
    if blocks == map[] then 0
    else var h :| h in blocks; |blocks[h]| + TotalBytes(blocks - {h})
  }

  lemma {:induction false} TotalBytesRemove(blocks: Blocks, k: string)
    requires k in blocks
    ensures TotalBytes(blocks) == |blocks[k]| + TotalBytes(blocks - {k})
    decreases |blocks|
  {
    var h :| h in blocks && TotalBytes(blocks) == |blocks[h]| + TotalBytes(blocks - {h});
    if h != k {
      TotalBytesRemove(blocks - {h}, k);
      TotalBytesRemove(blocks - {k}, h);
      assert blocks - {h} - {k} == blocks - {k} - {h};
    }
  }

  datatype GcError = ListSnapshotsFailed | MarkFailed | ListChunksFailed

  datatype Report = Report(deletedSnapshots: nat, deletedChunks: nat, bytesFreed: nat)

  predicate Deletable(snap: Snapshot, cutoff: int, parse: Parser, f: Faults)
  {
    Expired(snap, cutoff, parse) && !f.deleteSnapshot(snap.id)
  }

  /** The bucket after the deletion loop has passed over `recs`. */
  function DeletedThrough(snaps: Snapshots, recs: seq<Snapshot>, cutoff: int, parse: Parser, f: Faults): (r: Snapshots)
    decreases |recs|
  {
    if recs == [] then snaps
    else
      var n := |recs| - 1;
      var before := DeletedThrough(snaps, recs[..n], cutoff, parse, f);
      if Deletable(recs[n], cutoff, parse, f) then before - {recs[n].id} else before
  }

  lemma {:induction false} DeletedThroughContents(snaps: Snapshots, recs: seq<Snapshot>, cutoff: int, parse: Parser,
                                                  f: Faults)
    requires forall i :: 0 <= i < |recs| ==> recs[i].id in snaps && snaps[recs[i].id] == recs[i]
    requires KeyedById(snaps)
    ensures var left := DeletedThrough(snaps, recs, cutoff, parse, f);
      && left.Keys <= snaps.Keys && (forall id :: id in left ==> left[id] == snaps[id])
      && (forall id :: id in snaps ==> (id in left <==> !(snaps[id] in recs && Deletable(snaps[id], cutoff, parse, f))))
    decreases |recs|
  {
    if recs != [] {
      DeletedThroughContents(snaps, recs[..|recs| - 1], cutoff, parse, f);
      assert recs == recs[..|recs| - 1] + [recs[|recs| - 1]];
    }
  }

  lemma DeleteStep(snaps: Snapshots, recs: seq<Snapshot>, i: nat, cutoff: int, parse: Parser, f: Faults)
    requires forall k :: 0 <= k < |recs| ==> recs[k].id in snaps && snaps[recs[k].id] == recs[k]
    requires forall j, k :: 0 <= j < k < |recs| ==> recs[j].id != recs[k].id
    requires KeyedById(snaps) && i < |recs|
    ensures var before := DeletedThrough(snaps, recs[..i], cutoff, parse, f);
      && recs[i].id in before && KeyedById(before)
      && DeletedThrough(snaps, recs[..i + 1], cutoff, parse, f)
         == (if Deletable(recs[i], cutoff, parse, f) then before - {recs[i].id} else before)
      && |before - {recs[i].id}| == |before| - 1
  {
    var before := DeletedThrough(snaps, recs[..i], cutoff, parse, f);
    assert recs[..i + 1][..i] == recs[..i];
    DeletedThroughContents(snaps, recs[..i], cutoff, parse, f);
    assert recs[i] !in recs[..i];
    assert (before - {recs[i].id}).Keys == before.Keys - {recs[i].id};
  }

  lemma NothingDeleted(snaps: Snapshots, recs: seq<Snapshot>, cutoff: int, parse: Parser, f: Faults)
    ensures DeletedThrough(snaps, recs[..0], cutoff, parse, f) == snaps
  {
  }

  method DeleteOldSnapshots(db: SnapshotDB, cutoff: int, parse: Parser, f: Faults) returns (r: Result<nat, GcError>)
    requires db.Valid()
    modifies db
    ensures db.Valid()
    ensures r.Err? <==> f.listOld
    ensures r.Err? ==> db.snapshots == old(db.snapshots) && r.error == ListSnapshotsFailed
    ensures r.Ok? ==> db.snapshots == Kept(old(db.snapshots), cutoff, parse, f)
    ensures r.Ok? ==> |old(db.snapshots)| == |db.snapshots| + r.value
  {
    hide Kept, DeletedThrough;
    if f.listOld { return Err(ListSnapshotsFailed); }
    var all := db.ListAllSnapshots();
    var deleted := 0;
    ghost var snaps := db.snapshots;
    NothingDeleted(snaps, all, cutoff, parse, f);
    for i := 0 to |all|
      invariant db.Valid()
      invariant db.snapshots == DeletedThrough(snaps, all[..i], cutoff, parse, f)
      invariant |snaps| == |db.snapshots| + deleted
    {
      var snap := all[i];
      DeleteStep(snaps, all, i, cutoff, parse, f);
      if parse(snap.timestamp).Some? && parse(snap.timestamp).value < cutoff {
        var ok := db.DeleteSnapshot(snap.id, !f.deleteSnapshot(snap.id));
        if ok { deleted := deleted + 1; }
      }
    }
    assert all[..|all|] == all;
    AllDeletedIsKept(snaps, all, cutoff, parse, f);
    return Ok(deleted);
  }

  lemma AllDeletedIsKept(snaps: Snapshots, recs: seq<Snapshot>, cutoff: int, parse: Parser, f: Faults)
    requires forall i :: 0 <= i < |recs| ==> recs[i].id in snaps && snaps[recs[i].id] == recs[i]
    requires KeyedById(snaps) && forall id :: id in snaps ==> snaps[id] in recs
    ensures DeletedThrough(snaps, recs, cutoff, parse, f) == Kept(snaps, cutoff, parse, f)
  {
    DeletedThroughContents(snaps, recs, cutoff, parse, f);
  }

  method FindReferencedChunks(db: SnapshotDB, f: Faults) returns (r: Result<set<string>, GcError>)
    requires db.Valid()
    ensures r == if f.listLive then Err(MarkFailed) else Ok(References(db.snapshots))
  {
    if f.listLive { return Err(MarkFailed); }
    var all := db.ListAllSnapshots();
    var referenced: set<string> := {};
    for i := 0 to |all|
      invariant forall h :: h in referenced <==> exists k :: 0 <= k < i && h in all[k].chunks
    {
      var chunks := all[i].chunks;
      ghost var before := referenced;
      for j := 0 to |chunks|
        invariant referenced == before + Elements(chunks[..j])
      {
        assert chunks[..j + 1] == chunks[..j] + [chunks[j]];
        referenced := referenced + {chunks[j]};
      }
      assert chunks[..|chunks|] == chunks;
    }
    forall h ensures h in referenced <==> h in References(db.snapshots)
    {
      if h in References(db.snapshots) {
        var id :| id in db.snapshots && h in db.snapshots[id].chunks;
        var k :| 0 <= k < |all| && all[k] == db.snapshots[id];
        assert h in all[k].chunks;
      }
      if h in referenced {
        var k :| 0 <= k < |all| && h in all[k].chunks;
        assert all[k].id in db.snapshots;
      }
    }
    assert referenced == References(db.snapshots);
    return Ok(referenced);
  }

  predicate Doomed(h: string, referenced: set<string>, f: Faults)
  {
    h !in referenced && !f.getChunk(h) && !f.deleteChunk(h)
  }

  /** The blocks after the sweep has passed over `keys`. */
  function SweptThrough(blocks: Blocks, keys: seq<string>, referenced: set<string>, f: Faults): (r: Blocks)
    decreases |keys|
  {
    if keys == [] then blocks
    else
      var n := |keys| - 1;
      var before := SweptThrough(blocks, keys[..n], referenced, f);
      if Doomed(keys[n], referenced, f) then before - {keys[n]} else before
  }

  lemma {:induction false} SweptThroughContents(blocks: Blocks, keys: seq<string>, referenced: set<string>, f: Faults)
    ensures var left := SweptThrough(blocks, keys, referenced, f);
      && (forall h :: h in left <==> h in blocks && !(h in keys && Doomed(h, referenced, f)))
      && (forall h :: h in left ==> left[h] == blocks[h])
    decreases |keys|
  {
    if keys != [] {
      SweptThroughContents(blocks, keys[..|keys| - 1], referenced, f);
      assert keys == keys[..|keys| - 1] + [keys[|keys| - 1]];
    }
  }

  lemma AllSweptIsSwept(blocks: Blocks, keys: seq<string>, referenced: set<string>, f: Faults)
    requires Elements(keys) == blocks.Keys
    ensures SweptThrough(blocks, keys, referenced, f) == Swept(blocks, referenced, f)
  {
    SweptThroughContents(blocks, keys, referenced, f);
    assert forall h :: h in keys <==> h in Elements(keys);
  }

  method DeleteUnreferencedChunks(store: Store, referenced: set<string>, f: Faults)
    returns (r: Result<(nat, nat), GcError>)
    modifies store
    ensures r.Err? <==> f.listChunks
    ensures r.Err? ==> store.blocks == old(store.blocks) && r.error == ListChunksFailed
    ensures r.Ok? ==> store.blocks == Swept(old(store.blocks), referenced, f)
    ensures r.Ok? ==> |old(store.blocks)| == |store.blocks| + r.value.0
    ensures r.Ok? ==> TotalBytes(old(store.blocks)) == TotalBytes(store.blocks) + r.value.1
  {
    hide Swept, TotalBytes;
    if f.listChunks { return Err(ListChunksFailed); }
    var all := store.ListAll();
    var deleted: nat, freed: nat := 0, 0;
    ghost var blocks := store.blocks;
    for i := 0 to |all|
      invariant store.blocks == SweptThrough(blocks, all[..i], referenced, f)
      invariant |blocks| == |store.blocks| + deleted
      invariant TotalBytes(blocks) == TotalBytes(store.blocks) + freed
    {
      var h := all[i];
      assert all[..i + 1][..i] == all[..i];
      SweptThroughContents(blocks, all[..i], referenced, f);
      assert h in Elements(all);
      if h !in referenced && !f.getChunk(h) {
        var data := store.Get(h);
        TotalBytesRemove(store.blocks, h);
        var ok := store.Delete(h, !f.deleteChunk(h));
        if ok { deleted, freed := deleted + 1, freed + |data.value|; }
      }
    }
    assert all[..|all|] == all;
    AllSweptIsSwept(blocks, all, referenced, f);
    return Ok((deleted, freed));
  }

  /** The whole cycle; an early listing error leaves the later phases undone. */
  method Run(db: SnapshotDB, store: Store, cutoff: int, parse: Parser, f: Faults) returns (r: Result<Report, GcError>)
    requires db.Valid()
    modifies db, store
    ensures db.Valid()
    ensures (db.snapshots, store.blocks) == Collected(old(db.snapshots), old(store.blocks), cutoff, parse, f)
    ensures r.Ok? <==> !f.listOld && !f.listLive && !f.listChunks
    ensures r.Err? ==>
      r.error == if f.listOld then ListSnapshotsFailed else if f.listLive then MarkFailed else ListChunksFailed
    ensures r.Ok? ==> && |old(db.snapshots)| == |db.snapshots| + r.value.deletedSnapshots
                      && |old(store.blocks)| == |store.blocks| + r.value.deletedChunks
                      && TotalBytes(old(store.blocks)) == TotalBytes(store.blocks) + r.value.bytesFreed
  {
    var deletedSnapshots := DeleteOldSnapshots(db, cutoff, parse, f);
    if deletedSnapshots.Err? { return Err(deletedSnapshots.error); }
    var referenced := FindReferencedChunks(db, f);
    if referenced.Err? { return Err(referenced.error); }
    var swept := DeleteUnreferencedChunks(store, referenced.value, f);
    if swept.Err? { return Err(swept.error); }
    return Ok(Report(deletedSnapshots.value, swept.value.0, swept.value.1));
  }

  /** Both buckets after a run. */
  function Collected(snaps: Snapshots, blocks: Blocks, cutoff: int, parse: Parser, f: Faults): (r: (Snapshots, Blocks))
  {
    if f.listOld then (snaps, blocks)
    else
      var kept := Kept(snaps, cutoff, parse, f);
      (kept, if f.listLive || f.listChunks then blocks else Swept(blocks, References(kept), f))
  }

  // ---- What a run guarantees ----

  ghost predicate NoFaults(f: Faults)
  {
    && !f.listOld && !f.listLive && !f.listChunks
    && forall k :: !f.deleteSnapshot(k) && !f.getChunk(k) && !f.deleteChunk(k)
  }

  /** Without database errors: exactly the unexpired snapshots, exactly the blocks they reference. */
  lemma CollectionIsExact(snaps: Snapshots, blocks: Blocks, cutoff: int, parse: Parser, f: Faults)
    requires NoFaults(f)
    ensures var (snaps', blocks') := Collected(snaps, blocks, cutoff, parse, f);
      && (forall id :: id in snaps' <==>
            id in snaps && (parse(snaps[id].timestamp).Some? ==> cutoff <= parse(snaps[id].timestamp).value))
      && (forall id :: id in snaps' ==> snaps'[id] == snaps[id])
      && (forall h :: h in blocks' <==> h in blocks && exists id :: id in snaps' && h in snaps'[id].chunks)
      && (forall h :: h in blocks' ==> blocks'[h] == blocks[h])
  {
  }

  lemma CollectionIsIdempotent(snaps: Snapshots, blocks: Blocks, cutoff: int, parse: Parser, f: Faults)
    requires NoFaults(f)
    ensures var (snaps', blocks') := Collected(snaps, blocks, cutoff, parse, f);
      Collected(snaps', blocks', cutoff, parse, f) == (snaps', blocks')
  {
    var (snaps', blocks') := Collected(snaps, blocks, cutoff, parse, f);
    assert Kept(snaps', cutoff, parse, f) == snaps';
    assert Swept(blocks', References(snaps'), f) == blocks';
  }

  /**
   * Under any pattern of failures, a reference of a surviving snapshot that resolved keeps resolving, to the same
   * block.
   */
  lemma NoReferenceBroken(snaps: Snapshots, blocks: Blocks, cutoff: int, parse: Parser, f: Faults, id: string,
                          h: string)
    requires id in Collected(snaps, blocks, cutoff, parse, f).0
    requires h in snaps[id].chunks && h in blocks
    ensures var (snaps', blocks') := Collected(snaps, blocks, cutoff, parse, f);
      snaps'[id] == snaps[id] && h in blocks' && blocks'[h] == blocks[h]
  {
    if !f.listOld {
      assert h in References(Kept(snaps, cutoff, parse, f));
    }
  }

  /** Retrying after failures loses nothing: a faultless run afterwards ends where a faultless run alone would. */
  lemma FaultsOnlyDelay(snaps: Snapshots, blocks: Blocks, cutoff: int, parse: Parser, faulty: Faults, clean: Faults)
    requires NoFaults(clean)
    ensures var (snaps', blocks') := Collected(snaps, blocks, cutoff, parse, faulty);
      Collected(snaps', blocks', cutoff, parse, clean) == Collected(snaps, blocks, cutoff, parse, clean)
  {
    var (snaps', blocks') := Collected(snaps, blocks, cutoff, parse, faulty);
    var final := Kept(snaps, cutoff, parse, clean);
    assert Kept(snaps', cutoff, parse, clean) == final;
    assert References(final) <= References(snaps');
    assert Swept(blocks', References(final), clean) == Swept(blocks, References(final), clean);
  }
}
