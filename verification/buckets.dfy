/**
 The storage bucket reaper: list every bucket, look at the first page of each
 bucket's object listing, and delete the bucket when that listing has no
 `Contents` key at all.
 */
module BucketReaper {
  import opened Provider
  import opened Sweep

  /**
   The answer to one bucket's object listing. Emptiness is decided by whether
   the `Contents` key is missing, so a listing whose `Contents` is present but
   holds no object is not empty.
   */
  datatype ObjectListing =
    | ContentsAbsent
    | ContentsPresent(keys: seq<string>)
    | ListObjectsFailed(code: string)

  /** A listed bucket, with the provider's answers to the two calls that concern it. */
  datatype Bucket = Bucket(name: string, objects: ObjectListing, deletion: Outcome)

  /**
   The answer to the bucket listing: a `ClientError`, or a response whose
   `Buckets` key may be missing (read as no buckets).
   */
  datatype BucketListing =
    | BucketListFailed(code: string)
    | BucketsListed(buckets: Option<seq<Bucket>>)

  /** The rule: a bucket is deleted exactly when its listing carries no `Contents`. */
  function Target(b: Bucket): (t: Option<Call>)
    ensures t.Some? ==> t.value == DeleteBucket(b.name)
    ensures b.objects.ContentsPresent? ==> t.None?
    ensures b.objects.ListObjectsFailed? ==> t.None?
  {
    if b.objects.ContentsAbsent? then Some(DeleteBucket(b.name)) else None
  }

  /** One iteration of the bucket loop, with its `try`/`except ClientError` around both calls. */
  function BucketStep(b: Bucket): (s: Step)
    ensures |s.calls| >= 1 && s.calls[0] == ListObjects(b.name)
    ensures Destructive(s.calls) == AsSeq(Target(b))
    ensures s.disposition == Reaped <==> Target(b).Some? && b.deletion == Ok
    ensures s.disposition.Skipped? <==> b.objects.ContentsPresent?
    ensures b.objects.ListObjectsFailed? ==> s.calls == [ListObjects(b.name)] && s.disposition == Failed(b.objects.code)
    ensures forall c :: c in s.calls ==> c.ListObjects? || c.DeleteBucket?
  {
    match b.objects
    case ListObjectsFailed(code) =>
      DestructiveOne(ListObjects(b.name));
      Step([ListObjects(b.name)], Failed(code))
    case ContentsPresent(_) =>
      DestructiveOne(ListObjects(b.name));
      Step([ListObjects(b.name)], Skipped(BucketNotEmpty))
    case ContentsAbsent =>
      DestructivePair(ListObjects(b.name), DeleteBucket(b.name));
      DestructiveOne(ListObjects(b.name));
      DestructiveOne(DeleteBucket(b.name));
      Step([ListObjects(b.name), DeleteBucket(b.name)], Settle(b.deletion))
  }

  /** The buckets a listing yields, or `None` when the listing raised; a response without `Buckets` yields none. */
  function Listed(listing: BucketListing): (r: Option<seq<Bucket>>)
    ensures r.None? <==> listing.BucketListFailed?
    ensures listing == BucketsListed(None) ==> r == Some([])
    ensures listing.BucketsListed? && listing.buckets.Some? ==> r == listing.buckets
  {
    match listing
    case BucketListFailed(_) => None
    case BucketsListed(None) => Some([])
    case BucketsListed(Some(bs)) => Some(bs)
  }

  /** The calls the bucket reaper may send: all of them go to the storage service. */
  predicate OwnCall(c: Call) {
    c.ListBuckets? || c.ListObjects? || c.DeleteBucket?
  }

  /** The whole reaper: the listing call, then one step per bucket; a listing error ends it quietly. */
  function ReapBuckets(listing: BucketListing): (r: Report)
    ensures |r.calls| >= 1 && r.calls[0] == ListBuckets
    ensures forall c :: c in r.calls ==> OwnCall(c)
    ensures listing.BucketListFailed? ==> r.calls == [ListBuckets] && r.dispositions == []
    ensures listing == BucketsListed(None) ==> Destructive(r.calls) == [] && r.dispositions == []
    ensures listing.BucketsListed? && listing.buckets.Some? ==>
      Destructive(r.calls) == Somes(MapSeq(listing.buckets.value, Target))
  {
    DestructiveOne(ListBuckets);
    ReapCallsWithin(ListBuckets, Listed(listing), BucketStep, OwnCall);
    if listing.BucketsListed? && listing.buckets.Some? then
      ReapFollowsRule(ListBuckets, listing.buckets.value, BucketStep, Target);
      Reap(ListBuckets, Listed(listing), BucketStep)
    else
      Reap(ListBuckets, Listed(listing), BucketStep)
  }

  /** No two listed buckets share a name, as the storage service guarantees. */
  predicate DistinctNames(bs: seq<Bucket>) {
    forall j, k :: 0 <= j < |bs| && 0 <= k < |bs| && j != k ==> bs[j].name != bs[k].name
  }

  /**
   A listed bucket gets exactly one delete call when its object listing has
   no `Contents` key, and none otherwise, even when `Contents` is present but
   empty or the listing raised an error.
   */
  lemma DeletedOnceIffNoContents(bs: seq<Bucket>, i: nat)
    requires i < |bs|
    requires DistinctNames(bs)
    ensures multiset(ReapBuckets(BucketsListed(Some(bs))).calls)[DeleteBucket(bs[i].name)]
         == (if bs[i].objects.ContentsAbsent? then 1 else 0)
  {
    var c := DeleteBucket(bs[i].name);
    ReapCount(ListBuckets, bs, BucketStep, Target, i, c);
  }

  /**
   Every destructive call the bucket reaper sends deletes a listed bucket
   whose object listing had no `Contents` key.
   */
  lemma OnlyEmptyBucketsDeleted(bs: seq<Bucket>, c: Call)
    requires c in ReapBuckets(BucketsListed(Some(bs))).calls && IsDestructive(c)
    ensures exists i :: 0 <= i < |bs| && c == DeleteBucket(bs[i].name) && bs[i].objects.ContentsAbsent?
  {
    ReapOnlyTargets(ListBuckets, bs, BucketStep, Target, c);
  }

  /**
   A probe or delete error on bucket `i` changes nothing for the other
   buckets: the calls sent for them and their dispositions stay the same.
   */
  lemma BucketFailureIsolated(bs: seq<Bucket>, i: nat, b: Bucket)
    requires i < |bs|
    ensures ReapBuckets(BucketsListed(Some(bs[i := b]))).calls
         == [ListBuckets] + (RunAll(bs[..i], BucketStep).calls + BucketStep(b).calls
                             + RunAll(bs[i + 1..], BucketStep).calls)
    ensures ReapBuckets(BucketsListed(Some(bs[i := b]))).dispositions
         == ReapBuckets(BucketsListed(Some(bs))).dispositions[i := BucketStep(b).disposition]
  {
    ReapIsolated(ListBuckets, bs, BucketStep, i, b);
  }
}
