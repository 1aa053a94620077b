/**
 The public address reaper: list every allocated address and release each
 one that is not associated with anything, by its allocation id when it has
 one and by its public IP otherwise.
 */
module AddressReaper {
  import opened Provider
  import opened Sweep

  /**
   A listed address: the optional `AllocationId`, `AssociationId` and
   `PublicIp` fields, and the provider's answer to the release call.
   */
  datatype AddressRecord = AddressRecord(
    allocationId: Option<string>,
    associationId: Option<string>,
    publicIp: Option<string>,
    release: Outcome)

  /**
   An address the reaper can handle: when it would be released without an
   allocation id, it has a public IP to be released by.
   */
  predicate HasReleaseKey(a: AddressRecord) {
    Truthy(a.associationId) || Truthy(a.allocationId) || a.publicIp.Some?
  }

  type Address = a: AddressRecord | HasReleaseKey(a) witness AddressRecord(None, None, Some(""), Ok)

  datatype AddressListing = AddressListFailed(code: string) | AddressesListed(addresses: seq<Address>)

  /** `c` releases `a` by one of its keys: its (non-empty) allocation id, or its public IP. */
  predicate Keyed(a: Address, c: Call) {
    || (Truthy(a.allocationId) && c == ReleaseByAllocation(a.allocationId.value))
    || (a.publicIp.Some? && c == ReleaseByIp(a.publicIp.value))
  }

  /**
   The rule: release exactly the unassociated addresses, preferring the
   allocation id as the key and falling back to the public IP.
   */
  function Target(a: Address): (t: Option<Call>)
    ensures t.Some? ==> Keyed(a, t.value)
  {
    if Truthy(a.associationId) then None
    else if Truthy(a.allocationId) then Some(ReleaseByAllocation(a.allocationId.value))
    else Some(ReleaseByIp(a.publicIp.value))
  }

  /** One iteration of the address loop, with its `try`/`except ClientError` around the release. */
  function AddressStep(a: Address): (s: Step)
    ensures Destructive(s.calls) == AsSeq(Target(a))
    ensures |s.calls| <= 1
    ensures Truthy(a.associationId) <==> s.disposition == Skipped(AddressInUse)
    ensures s.disposition == Reaped <==> !Truthy(a.associationId) && a.release == Ok
    ensures forall c :: c in s.calls ==> Keyed(a, c)
  {
    if Truthy(a.associationId) then
      Step([], Skipped(AddressInUse))
    else
      var release :=
        if Truthy(a.allocationId) then ReleaseByAllocation(a.allocationId.value)
        else ReleaseByIp(a.publicIp.value);
      DestructiveOne(release);
      Step([release], Settle(a.release))
  }

  function Listed(listing: AddressListing): Option<seq<Address>> {
    match listing
    case AddressListFailed(_) => None
    case AddressesListed(addrs) => Some(addrs)
  }

  /** The calls the address reaper may send: the address listing and releases. */
  predicate OwnCall(c: Call) {
    c.DescribeAddresses? || c.ReleaseByAllocation? || c.ReleaseByIp?
  }

  /** The whole reaper: the listing call, then one step per address; a listing error ends it quietly. */
  function ReleaseAddresses(listing: AddressListing): (r: Report)
    ensures |r.calls| >= 1 && r.calls[0] == DescribeAddresses
    ensures forall c :: c in r.calls ==> OwnCall(c)
    ensures listing.AddressListFailed? ==> r.calls == [DescribeAddresses] && r.dispositions == []
    ensures listing.AddressesListed? ==> Destructive(r.calls) == Somes(MapSeq(listing.addresses, Target))
  {
    DestructiveOne(DescribeAddresses);
    ReapCallsWithin(DescribeAddresses, Listed(listing), AddressStep, OwnCall);
    if listing.AddressesListed? then
      ReapFollowsRule(DescribeAddresses, listing.addresses, AddressStep, Target);
      Reap(DescribeAddresses, Listed(listing), AddressStep)
    else
      Reap(DescribeAddresses, Listed(listing), AddressStep)
  }

  /** Allocation ids and public IPs are unique among listed addresses, as the compute service guarantees. */
  predicate DistinctKeys(addrs: seq<Address>) {
    forall j, k :: 0 <= j < |addrs| && 0 <= k < |addrs| && j != k ==>
      && (Truthy(addrs[j].allocationId) ==> addrs[j].allocationId != addrs[k].allocationId)
      && (addrs[j].publicIp.Some? ==> addrs[j].publicIp != addrs[k].publicIp)
  }

  /** With unique keys, a release call keyed to address `i` is picked for no other address. */
  lemma OnlyOwnerPicks(addrs: seq<Address>, i: nat, c: Call)
    requires i < |addrs| && DistinctKeys(addrs)
    requires Keyed(addrs[i], c)
    ensures forall j :: 0 <= j < |addrs| && j != i ==> Target(addrs[j]) != Some(c)
  {
  }

  /**
   An unassociated address gets exactly one release call, keyed by its
   allocation id when that is non-empty and by its public IP otherwise; an
   associated address gets no release call by either key.
   */
  lemma ReleasedOnceIffUnassociated(addrs: seq<Address>, i: nat)
    requires i < |addrs| && DistinctKeys(addrs)
    ensures var calls := ReleaseAddresses(AddressesListed(addrs)).calls;
      && (!Truthy(addrs[i].associationId) && Truthy(addrs[i].allocationId) ==>
            multiset(calls)[ReleaseByAllocation(addrs[i].allocationId.value)] == 1)
      && (!Truthy(addrs[i].associationId) && !Truthy(addrs[i].allocationId) ==>
            multiset(calls)[ReleaseByIp(addrs[i].publicIp.value)] == 1)
      && (Truthy(addrs[i].associationId) && Truthy(addrs[i].allocationId) ==>
            multiset(calls)[ReleaseByAllocation(addrs[i].allocationId.value)] == 0)
      && (Truthy(addrs[i].associationId) && addrs[i].publicIp.Some? ==>
            multiset(calls)[ReleaseByIp(addrs[i].publicIp.value)] == 0)
  {
    var a := addrs[i];
    if Truthy(a.allocationId) {
      var c := ReleaseByAllocation(a.allocationId.value);
      OnlyOwnerPicks(addrs, i, c);
      ReapCount(DescribeAddresses, addrs, AddressStep, Target, i, c);
    }
    if a.publicIp.Some? {
      var c := ReleaseByIp(a.publicIp.value);
      OnlyOwnerPicks(addrs, i, c);
      ReapCount(DescribeAddresses, addrs, AddressStep, Target, i, c);
    }
  }

  /**
   An address with a non-empty allocation id is never released by its public
   IP, whether it is associated or not.
   */
  lemma AllocationIdPreferred(addrs: seq<Address>, i: nat)
    requires i < |addrs| && DistinctKeys(addrs)
    requires Truthy(addrs[i].allocationId) && addrs[i].publicIp.Some?
    ensures multiset(ReleaseAddresses(AddressesListed(addrs)).calls)[ReleaseByIp(addrs[i].publicIp.value)] == 0
  {
    var c := ReleaseByIp(addrs[i].publicIp.value);
    OnlyOwnerPicks(addrs, i, c);
    ReapCount(DescribeAddresses, addrs, AddressStep, Target, i, c);
  }

  /**
   Every destructive call the address reaper sends releases a listed,
   unassociated address, by its allocation id when that is non-empty and by
   its public IP otherwise.
   */
  lemma OnlyUnassociatedReleased(addrs: seq<Address>, c: Call)
    requires c in ReleaseAddresses(AddressesListed(addrs)).calls && IsDestructive(c)
    ensures exists i :: (0 <= i < |addrs| && !Truthy(addrs[i].associationId)
                          && (Truthy(addrs[i].allocationId) ==> c == ReleaseByAllocation(addrs[i].allocationId.value))
                          && (!Truthy(addrs[i].allocationId) ==> c == ReleaseByIp(addrs[i].publicIp.value)))
  {
    ReapOnlyTargets(DescribeAddresses, addrs, AddressStep, Target, c);
  }

  /**
   A failed release of address `i` changes nothing for the other addresses:
   the calls sent for them and their dispositions stay the same.
   */
  lemma AddressFailureIsolated(addrs: seq<Address>, i: nat, a: Address)
    requires i < |addrs|
    ensures ReleaseAddresses(AddressesListed(addrs[i := a])).calls
         == [DescribeAddresses] + (RunAll(addrs[..i], AddressStep).calls + AddressStep(a).calls
                                   + RunAll(addrs[i + 1..], AddressStep).calls)
    ensures ReleaseAddresses(AddressesListed(addrs[i := a])).dispositions
         == ReleaseAddresses(AddressesListed(addrs)).dispositions[i := AddressStep(a).disposition]
  {
    ReapIsolated(DescribeAddresses, addrs, AddressStep, i, a);
  }
}
