/**
 The block-storage snapshot reaper: list the account's own snapshots and
 delete each completed one whose source volume is confirmed gone, or that
 names no volume at all. An inconclusive volume lookup never leads to a
 deletion.
 */
module SnapshotReaper {
  import opened Provider
  import opened Sweep

  /** The only `State` in which a snapshot may be deleted. */
  const CompletedState := "completed"

  /** The one error code of the volume lookup that confirms the volume no longer exists. */
  const VolumeNotFoundCode := "InvalidVolume.NotFound"

  /** The answer to looking up a snapshot's source volume. */
  datatype VolumeProbe = VolumeExists | VolumeLookupFailed(code: string)

  /**
   A listed snapshot: its id, the optional `State` and `VolumeId` fields, and
   the provider's answers to the volume lookup and the delete call, which are
   only consulted when the reaper sends those calls.
   */
  datatype Snapshot = Snapshot(
    id: string,
    state: Option<string>,
    volumeId: Option<string>,
    volumeProbe: VolumeProbe,
    deletion: Outcome)

  datatype SnapshotListing = SnapshotListFailed(code: string) | SnapshotsListed(snapshots: seq<Snapshot>)

  predicate Completed(s: Snapshot) {
    s.state == Some(CompletedState)
  }

  /** The snapshot's volume is looked up exactly when it is completed and names a (non-empty) volume. */
  predicate Probed(s: Snapshot) {
    Completed(s) && Truthy(s.volumeId)
  }

  /** Nothing ties the snapshot to a live volume: it names none, or the lookup said "not found". */
  predicate Orphaned(s: Snapshot) {
    !Truthy(s.volumeId) || s.volumeProbe == VolumeLookupFailed(VolumeNotFoundCode)
  }

  /** The rule: delete exactly the completed, orphaned snapshots. */
  function Target(s: Snapshot): (t: Option<Call>)
    ensures t.Some? ==> t.value == DeleteSnapshot(s.id)
    ensures !Completed(s) ==> t.None?
    ensures Probed(s) && s.volumeProbe.VolumeExists? ==> t.None?
    ensures Probed(s) && s.volumeProbe.VolumeLookupFailed? && s.volumeProbe.code != VolumeNotFoundCode ==> t.None?
  {
    if Completed(s) && Orphaned(s) then Some(DeleteSnapshot(s.id)) else None
  }

  /**
   One iteration of the snapshot loop: the state check, the volume lookup with
   its own `except` that lets only "not found" through, and the delete call
   inside the item's outer `try`.
   */
  function SnapshotStep(s: Snapshot): (r: Step)
    ensures Destructive(r.calls) == AsSeq(Target(s))
    ensures Probed(s) ==> |r.calls| >= 1 && r.calls[0] == DescribeVolume(s.volumeId.value)
    ensures !Probed(s) ==> forall c :: c in r.calls ==> !c.DescribeVolume?
    ensures !Completed(s) ==> r.calls == [] && r.disposition == Skipped(SnapshotNotCompleted)
    ensures r.disposition == Reaped <==> Target(s).Some? && s.deletion == Ok
    ensures Probed(s) && s.volumeProbe.VolumeLookupFailed? && s.volumeProbe.code != VolumeNotFoundCode
            ==> r.disposition == Failed(s.volumeProbe.code)
    ensures Probed(s) && s.volumeProbe.VolumeExists? ==> r.disposition == Skipped(VolumeInUse)
    ensures forall c :: c in r.calls ==> c.DescribeVolume? || c.DeleteSnapshot?
  {
    var delete := DeleteSnapshot(s.id);
    DestructiveOne(delete);
    if !Completed(s) then
      Step([], Skipped(SnapshotNotCompleted))
    else if Truthy(s.volumeId) then
      var probe := DescribeVolume(s.volumeId.value);
      DestructiveOne(probe);
      match s.volumeProbe
      case VolumeExists => Step([probe], Skipped(VolumeInUse))
      case VolumeLookupFailed(code) =>
        if code == VolumeNotFoundCode then
          DestructivePair(probe, delete);
          Step([probe, delete], Settle(s.deletion))
        else
          Step([probe], Failed(code))
    else
      Step([delete], Settle(s.deletion))
  }

  function Listed(listing: SnapshotListing): Option<seq<Snapshot>> {
    match listing
    case SnapshotListFailed(_) => None
    case SnapshotsListed(ss) => Some(ss)
  }

  /** The calls the snapshot reaper may send: snapshot listing, volume lookups and snapshot deletes. */
  predicate OwnCall(c: Call) {
    c.DescribeSnapshots? || c.DescribeVolume? || c.DeleteSnapshot?
  }

  /** The whole reaper: the listing call, then one step per snapshot; a listing error ends it quietly. */
  function ReapSnapshots(listing: SnapshotListing): (r: Report)
    ensures |r.calls| >= 1 && r.calls[0] == DescribeSnapshots
    ensures forall c :: c in r.calls ==> OwnCall(c)
    ensures listing.SnapshotListFailed? ==> r.calls == [DescribeSnapshots] && r.dispositions == []
    ensures listing.SnapshotsListed? ==> Destructive(r.calls) == Somes(MapSeq(listing.snapshots, Target))
  {
    DestructiveOne(DescribeSnapshots);
    ReapCallsWithin(DescribeSnapshots, Listed(listing), SnapshotStep, OwnCall);
    if listing.SnapshotsListed? then
      ReapFollowsRule(DescribeSnapshots, listing.snapshots, SnapshotStep, Target);
      Reap(DescribeSnapshots, Listed(listing), SnapshotStep)
    else
      Reap(DescribeSnapshots, Listed(listing), SnapshotStep)
  }

  /** No two listed snapshots share an id, as the compute service guarantees. */
  predicate DistinctIds(ss: seq<Snapshot>) {
    forall j, k :: 0 <= j < |ss| && 0 <= k < |ss| && j != k ==> ss[j].id != ss[k].id
  }

  /**
   A listed snapshot gets exactly one delete call when it is completed and
   either names no volume or its volume lookup failed with "not found"; in
   every other case (not completed, volume found, any other lookup error) it
   gets none.
   */
  lemma DeletedOnceIffCompletedOrphan(ss: seq<Snapshot>, i: nat)
    requires i < |ss|
    requires DistinctIds(ss)
    ensures multiset(ReapSnapshots(SnapshotsListed(ss)).calls)[DeleteSnapshot(ss[i].id)]
         == (if Completed(ss[i]) && Orphaned(ss[i]) then 1 else 0)
  {
    var c := DeleteSnapshot(ss[i].id);
    ReapCount(DescribeSnapshots, ss, SnapshotStep, Target, i, c);
  }

  /**
   Every destructive call the snapshot reaper sends deletes a listed
   snapshot that is completed and either names no volume or whose volume
   lookup answered "not found".
   */
  lemma OnlyCompletedOrphansDeleted(ss: seq<Snapshot>, c: Call)
    requires c in ReapSnapshots(SnapshotsListed(ss)).calls && IsDestructive(c)
    ensures exists i :: (0 <= i < |ss| && c == DeleteSnapshot(ss[i].id) && Completed(ss[i])
                          && (!Truthy(ss[i].volumeId) || ss[i].volumeProbe == VolumeLookupFailed(VolumeNotFoundCode)))
  {
    ReapOnlyTargets(DescribeSnapshots, ss, SnapshotStep, Target, c);
  }

  /**
   Fail-closed: a completed snapshot whose volume lookup raised any error
   other than "not found" is never deleted, and is reported as that error.
   */
  lemma FailClosedOnLookupError(ss: seq<Snapshot>, i: nat)
    requires i < |ss|
    requires DistinctIds(ss)
    requires Probed(ss[i])
    requires ss[i].volumeProbe.VolumeLookupFailed? && ss[i].volumeProbe.code != VolumeNotFoundCode
    ensures multiset(ReapSnapshots(SnapshotsListed(ss)).calls)[DeleteSnapshot(ss[i].id)] == 0
    ensures ReapSnapshots(SnapshotsListed(ss)).dispositions[i] == Failed(ss[i].volumeProbe.code)
  {
    DeletedOnceIffCompletedOrphan(ss, i);
  }

  /**
   A completed snapshot that names no volume (the field missing or empty) is
   deleted exactly once and its volume is never looked up.
   */
  lemma NoVolumeDeletedWithoutLookup(ss: seq<Snapshot>, i: nat)
    requires i < |ss|
    requires DistinctIds(ss)
    requires Completed(ss[i]) && !Truthy(ss[i].volumeId)
    ensures multiset(ReapSnapshots(SnapshotsListed(ss)).calls)[DeleteSnapshot(ss[i].id)] == 1
    ensures SnapshotStep(ss[i]).calls == [DeleteSnapshot(ss[i].id)]
  {
    DeletedOnceIffCompletedOrphan(ss, i);
  }

  /**
   A failed lookup or delete on snapshot `i` changes nothing for the other
   snapshots: the calls sent for them and their dispositions stay the same.
   */
  lemma SnapshotFailureIsolated(ss: seq<Snapshot>, i: nat, s: Snapshot)
    requires i < |ss|
    ensures ReapSnapshots(SnapshotsListed(ss[i := s])).calls
         == [DescribeSnapshots] + (RunAll(ss[..i], SnapshotStep).calls + SnapshotStep(s).calls
                                   + RunAll(ss[i + 1..], SnapshotStep).calls)
    ensures ReapSnapshots(SnapshotsListed(ss[i := s])).dispositions
         == ReapSnapshots(SnapshotsListed(ss)).dispositions[i := SnapshotStep(s).disposition]
  {
    ReapIsolated(DescribeSnapshots, ss, SnapshotStep, i, s);
  }
}
