/** internal/versioning/version.go: the snapshots bucket, keyed by snapshot ID. */
module Versioning {
  import opened Prelude

  /** `meta` maps metadata names to values; records are stored and loaded whole. */
  datatype Snapshot = Snapshot(
    id: string, parent: string, timestamp: string, chunks: seq<string>,
    meta: map<string, string>, signerPub: string, signature: string)

  type Snapshots = map<string, Snapshot>

  /** SaveSnapshot is the only writer, so each record sits under its own ID. */
  ghost predicate KeyedById(snaps: Snapshots)
  {
    forall id :: id in snaps ==> snaps[id].id == id
  }

  class SnapshotDB {
    var snapshots: Snapshots

    ghost predicate Valid()
      reads this
    {
      KeyedById(snapshots)
    }

    constructor ()
      ensures Valid() && snapshots == map[]
    {
      snapshots := map[];
    }

    method SaveSnapshot(snap: Snapshot, commits: bool) returns (ok: bool)
      requires Valid()
      modifies this
      ensures Valid() && ok == commits
      ensures snapshots == if commits then old(snapshots)[snap.id := snap] else old(snapshots)
    {
      if commits { snapshots := snapshots[snap.id := snap]; }
      return commits;
    }

    method LoadSnapshot(id: string) returns (r: Option<Snapshot>)
      requires Valid()
      ensures r.Some? <==> id in snapshots
      ensures r.Some? ==> r.value == snapshots[id] && r.value.id == id
    {
      if id in snapshots { return Some(snapshots[id]); }
      return None;
    }

    /** Every stored record exactly once, in ascending order of the IDs. */
    method ListAllSnapshots() returns (all: seq<Snapshot>)
      requires Valid()
      ensures forall i :: 0 <= i < |all| ==> all[i].id in snapshots && snapshots[all[i].id] == all[i]
      ensures forall i, j :: 0 <= i < j < |all| ==> all[i].id != all[j].id
      ensures forall id :: id in snapshots ==> snapshots[id] in all
      ensures Ascending(IdsOf(all))
    {
      hide Ascending;
      var ids := InOrder(snapshots.Keys);
      all := [];
      for i := 0 to |ids|
        invariant |all| == i && forall k :: 0 <= k < i ==> ids[k] in snapshots && all[k] == snapshots[ids[k]]
      {
        assert ids[i] in ids;
        all := all + [snapshots[ids[i]]];
      }
      assert IdsOf(all) == ids;
      forall id | id in snapshots ensures snapshots[id] in all {
        var k :| 0 <= k < |ids| && ids[k] == id;
        assert all[k] == snapshots[id];
      }
    }

    method DeleteSnapshot(id: string, commits: bool) returns (ok: bool)
      requires Valid()
      modifies this
      ensures Valid() && ok == commits
      ensures snapshots == if commits then old(snapshots) - {id} else old(snapshots)
    {
      if commits { snapshots := snapshots - {id}; }
      return commits;
    }
  }

  // ---- Saving several snapshots: IDs have one-second granularity ----

  /** The bucket after saving the records in order; a later record replaces an earlier one with its ID. */
  function SaveAll(snaps: Snapshots, recs: seq<Snapshot>): (r: Snapshots)
    decreases |recs|
  {
    if recs == [] then snaps
    else var before := SaveAll(snaps, recs[..|recs| - 1]); before[recs[|recs| - 1].id := recs[|recs| - 1]]
  }

  function IdsOf(recs: seq<Snapshot>): (ids: seq<string>)
    ensures |ids| == |recs| && forall i :: 0 <= i < |recs| ==> ids[i] == recs[i].id
  {
    seq(|recs|, i requires 0 <= i < |recs| => recs[i].id)
  }

  lemma {:induction false} SaveAllContents(recs: seq<Snapshot>)
    ensures SaveAll(map[], recs).Keys == Elements(IdsOf(recs))
    ensures KeyedById(SaveAll(map[], recs))
    decreases |recs|
  {
    if recs != [] {
      var n := |recs| - 1;
      SaveAllContents(recs[..n]);
      assert IdsOf(recs) == IdsOf(recs[..n]) + [recs[n].id];
    }
  }

  /** The last record saved under an ID is the one that stays. */
  lemma {:induction false} LastSaveWins(recs: seq<Snapshot>, i: nat)
    requires i < |recs| && forall j :: i < j < |recs| ==> recs[j].id != recs[i].id
    ensures recs[i].id in SaveAll(map[], recs) && SaveAll(map[], recs)[recs[i].id] == recs[i]
    decreases |recs|
  {
    if i < |recs| - 1 { LastSaveWins(recs[..|recs| - 1], i); }
  }

  lemma {:induction false} DistinctIffSize(ids: seq<string>)
    ensures |Elements(ids)| <= |ids|
    ensures |Elements(ids)| == |ids| <==> Distinct(ids)
  {
    if ids != [] {
      var n := |ids| - 1;
      var init, last := ids[..n], ids[n];
      DistinctIffSize(init);
      assert ids == init + [last];
      if last in init {
        var k :| 0 <= k < n && init[k] == last;
        assert ids[k] == ids[n];
        assert Elements(ids) == Elements(init);
      } else {
        assert Elements(ids) == Elements(init) + {last};
        assert Distinct(ids) <==> Distinct(init);
      }
    }
  }

  /** n saves leave n records exactly when no two of the records share an ID. */
  lemma AllSavesSurviveIff(recs: seq<Snapshot>)
    ensures |SaveAll(map[], recs)| == |recs| <==> Distinct(IdsOf(recs))
  {
    SaveAllContents(recs);
    DistinctIffSize(IdsOf(recs));
    assert |SaveAll(map[], recs)| == |SaveAll(map[], recs).Keys|;
  }
}
