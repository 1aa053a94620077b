/**
 The entry point: run the bucket, snapshot and address reapers in that order
 and report success. Each reaper swallows its own errors, so the response is
 the same whatever the provider answered.
 */
module Handler {
  import opened Provider
  import opened Sweep
  import BucketReaper
  import SnapshotReaper
  import AddressReaper

  const OkStatus := 200
  const CompletionMessage :=
    "Cleanup of empty S3 buckets, unused EBS snapshots, and unused Elastic IPs completed successfully."

  datatype Response = Response(statusCode: int, body: string)

  /** Everything the provider will answer during one invocation: the three listings with their per-item answers. */
  datatype Account = Account(
    buckets: BucketReaper.BucketListing,
    snapshots: SnapshotReaper.SnapshotListing,
    addresses: AddressReaper.AddressListing)

  /** The calls one invocation sends, in order, and what it returns. */
  datatype Invocation = Invocation(calls: seq<Call>, response: Response)

  /** Which reaper sends a call: 0 for buckets, 1 for snapshots, 2 for addresses. */
  function Phase(c: Call): nat {
    match c
    case ListBuckets => 0
    case ListObjects(_) => 0
    case DeleteBucket(_) => 0
    case DescribeSnapshots => 1
    case DescribeVolume(_) => 1
    case DeleteSnapshot(_) => 1
    case DescribeAddresses => 2
    case ReleaseByAllocation(_) => 2
    case ReleaseByIp(_) => 2
  }

  /**
   One invocation: the three reapers one after the other, each whatever the
   others met with, then the fixed success response. Its destructive calls
   are those of the bucket, snapshot and address reapers, in that order.
   */
  function Handle(acc: Account): (r: Invocation)
    ensures r.response.statusCode == OkStatus && r.response.body == CompletionMessage
    ensures Destructive(r.calls)
         == Destructive(BucketReaper.ReapBuckets(acc.buckets).calls)
          + Destructive(SnapshotReaper.ReapSnapshots(acc.snapshots).calls)
          + Destructive(AddressReaper.ReleaseAddresses(acc.addresses).calls)
  {
    var b := BucketReaper.ReapBuckets(acc.buckets).calls;
    var s := SnapshotReaper.ReapSnapshots(acc.snapshots).calls;
    var a := AddressReaper.ReleaseAddresses(acc.addresses).calls;
    DestructiveAppend(b + s, a);
    DestructiveAppend(b, s);
    Invocation(b + s + a, Response(OkStatus, CompletionMessage))
  }

  /**
   The reapers never interleave: every bucket call comes before every
   snapshot call, which comes before every address call.
   */
  lemma ReapersRunInOrder(acc: Account)
    ensures var calls := Handle(acc).calls;
      forall i, j :: 0 <= i < j < |calls| ==> Phase(calls[i]) <= Phase(calls[j])
  {
    var b := BucketReaper.ReapBuckets(acc.buckets).calls;
    var s := SnapshotReaper.ReapSnapshots(acc.snapshots).calls;
    var a := AddressReaper.ReleaseAddresses(acc.addresses).calls;
    PhasesOrdered(b, s, a);
    assert Handle(acc).calls == b + s + a;
  }

  lemma PhasesOrdered(b: seq<Call>, s: seq<Call>, a: seq<Call>)
    requires forall c :: c in b ==> BucketReaper.OwnCall(c)
    requires forall c :: c in s ==> SnapshotReaper.OwnCall(c)
    requires forall c :: c in a ==> AddressReaper.OwnCall(c)
    ensures forall i, j :: 0 <= i < j < |b + s + a| ==> Phase((b + s + a)[i]) <= Phase((b + s + a)[j])
  {
    var t := b + s + a;
    forall k | 0 <= k < |t|
      ensures Phase(t[k]) == (if k < |b| then 0 else if k < |b| + |s| then 1 else 2)
    {
      if k < |b| {
        assert t[k] == b[k] && b[k] in b;
      } else if k < |b| + |s| {
        assert t[k] == s[k - |b|] && s[k - |b|] in s;
      } else {
        assert t[k] == a[k - |b| - |s|] && a[k - |b| - |s|] in a;
      }
    }
  }

  /**
   With all three listings answered, one invocation destroys exactly the
   empty buckets, then the completed orphaned snapshots, then the
   unassociated addresses, each group in listing order.
   */
  lemma HandlerDestroysExactlyTargets(
    bs: seq<BucketReaper.Bucket>, ss: seq<SnapshotReaper.Snapshot>, addrs: seq<AddressReaper.Address>)
    ensures Destructive(Handle(Account(
              BucketReaper.BucketsListed(Some(bs)),
              SnapshotReaper.SnapshotsListed(ss),
              AddressReaper.AddressesListed(addrs))).calls)
         == Somes(MapSeq(bs, BucketReaper.Target))
          + Somes(MapSeq(ss, SnapshotReaper.Target))
          + Somes(MapSeq(addrs, AddressReaper.Target))
  {
  }

  /**
   A failed listing stops nothing else: with the bucket listing failed, the
   invocation sends that one listing call and then exactly the calls the
   snapshot and address reapers send on their own, and still reports success.
   */
  lemma BucketListFailureStopsNothingElse(
    code: string, snapshots: SnapshotReaper.SnapshotListing, addresses: AddressReaper.AddressListing)
    ensures var r := Handle(Account(BucketReaper.BucketListFailed(code), snapshots, addresses));
      && r.calls == [ListBuckets] + SnapshotReaper.ReapSnapshots(snapshots).calls
                    + AddressReaper.ReleaseAddresses(addresses).calls
      && r.response == Response(OkStatus, CompletionMessage)
  {
    assert BucketReaper.ReapBuckets(BucketReaper.BucketListFailed(code)).calls == [ListBuckets];
  }
}
