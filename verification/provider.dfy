/**
 The cloud provider as the cleanup function sees it: optional descriptor fields,
 the outcome of one API call, and the calls themselves. Nothing here talks to a
 network; every answer the provider would give is supplied as data.
 */
module Provider {

  /** A descriptor field read with `dict.get`: absent or present. */
  datatype Option<+T> = None | Some(value: T)

  /** Python truthiness of an optional string field: `None` and `""` are both false. */
  predicate Truthy(s: Option<string>) {
    s.Some? && s.value != ""
  }

  /** What one API call did: it returned, or it raised a `ClientError` carrying an error code. */
  datatype Outcome = Ok | ClientError(code: string)

  /** Every request the cleanup function can send to the storage (S3) or compute (EC2) service. */
  datatype Call =
    | ListBuckets
    | ListObjects(bucket: string)
    | DeleteBucket(bucket: string)
    | DescribeSnapshots
    | DescribeVolume(volumeId: string)
    | DeleteSnapshot(snapshotId: string)
    | DescribeAddresses
    | ReleaseByAllocation(allocationId: string)
    | ReleaseByIp(publicIp: string)

  /** The calls that destroy or give up a resource; all others only read. */
  predicate IsDestructive(c: Call) {
    c.DeleteBucket? || c.DeleteSnapshot? || c.ReleaseByAllocation? || c.ReleaseByIp?
  }

  /** The destructive calls of a trace, in the order they were sent. */
  function Destructive(calls: seq<Call>): (d: seq<Call>)
    ensures forall c :: c in d ==> IsDestructive(c)
  {
    if |calls| == 0 then []
    else
      assert calls == [calls[0]] + calls[1..];
      (if IsDestructive(calls[0]) then [calls[0]] else []) + Destructive(calls[1..])
  }

  lemma {:induction false} DestructiveAppend(a: seq<Call>, b: seq<Call>)
    ensures Destructive(a + b) == Destructive(a) + Destructive(b)
  {
    if |a| == 0 {
      assert a + b == b;
    } else {
      assert (a + b)[1..] == a[1..] + b;
      DestructiveAppend(a[1..], b);
    }
  }

  /** A trace sends each destructive call as often as its destructive part holds it. */
  lemma {:induction false} DestructiveCount(calls: seq<Call>, c: Call)
    requires IsDestructive(c)
    ensures multiset(Destructive(calls))[c] == multiset(calls)[c]
  {
    if |calls| > 0 {
      DestructiveCount(calls[1..], c);
      assert calls == [calls[0]] + calls[1..];
    }
  }

  /** A destructive call that was sent is among the destructive calls. */
  lemma {:induction false} DestructiveKeeps(calls: seq<Call>, c: Call)
    requires c in calls && IsDestructive(c)
    ensures c in Destructive(calls)
  {
    if calls[0] != c {
      DestructiveKeeps(calls[1..], c);
    }
  }

  lemma DestructiveOne(c: Call)
    ensures Destructive([c]) == (if IsDestructive(c) then [c] else [])
  {
  }

  lemma DestructivePair(c: Call, d: Call)
    ensures Destructive([c, d]) == Destructive([c]) + Destructive([d])
  {
  }
}
