# Cloud cost-cleanup function: a Dafny model of its decision rules

When invoked, the function does three kinds of cleanup in one cloud account:

- it deletes empty storage buckets;
- it deletes block-storage snapshots whose source volume is gone;
- it releases public (elastic) IP addresses that nothing is associated with.

It then reports success. This project models the rules that choose what gets
destroyed. It also models the error isolation around those rules: every
`ClientError` is caught per item or per listing, so no such error aborts the
run. Other exceptions are not caught; see "Left out".

Every provider answer is an input. Each reaper takes a listing outcome
(`*ListFailed(code)` or the listed items). Each listed item carries the answers
the provider would give to the calls made about it: the object listing, the
volume lookup, the delete or release. The reaper returns a `Report`, which
holds two things:

- the ordered trace of every call it sends: listings, probes and destructive
  calls;
- one `Disposition` per item: `Reaped`, `Skipped(reason)` or `Failed(code)`.
  A `Failed(code)` stands for a `ClientError` that was caught and logged.

`Provider.Destructive` keeps only the destructive calls of a trace.

Modules:

- `Provider` (provider.dfy) holds the shared types: `Option`, Python
  truthiness of optional string fields (`Truthy`), call outcomes, and calls.
- `Sweep` (sweep.dfy) holds the shape all three reapers share. `RunAll` is the
  per-item loop, and no item's outcome stops it. `Reap` sends the listing call
  and runs the loop over what was listed. If the listing raised, it stops there
  quietly. Generic lemmas cover rule-following, exact counts, safety and
  isolation.
- `BucketReaper`, `SnapshotReaper` and `AddressReaper` each define a
  reference rule `Target(item)`: the destructive call the item should get, if
  any. Each also has a `*Step` function that follows the source's
  branch-by-branch control flow, and lemmas that connect the two.
- `Handler` (handler.dfy) holds the entry point.

Python semantics are kept where they decide anything:

- `if volume_id:` and `if not association_id:` treat `""` like a missing field.
- `if allocation_id:` falls back to `PublicIp` when `AllocationId` is `""`.
- A bucket is empty only when the `Contents` key is missing (`is None`). A
  listing that has `Contents` with no objects in it counts as not empty.
- A missing `Buckets` key counts as an empty list (`get('Buckets', [])`).
- A missing `State` is never `'completed'`; `State` is compared with the
  string `'completed'`.
- `PublicIp` is read with `.get`, so it may be missing; see
  `AddressReaper.Address`.

## Model

| member | source | states |
|---|---|---|
| BucketReaper.Target | lambda_function.py:20-22 | The bucket rule only ever picks deleting this bucket itself, and never picks a bucket whose listing has a `Contents` key (even an empty one) or whose listing raised. |
| BucketReaper.Listed | lambda_function.py:12-13 | A raised bucket listing yields nothing to loop over; a response without `Buckets` yields the empty list; otherwise the listed buckets. |
| BucketReaper.BucketStep | lambda_function.py:15-27 | One bucket: the object listing is always sent first. The bucket's only destructive call is `DeleteBucket(name)`, sent exactly when the listing has no `Contents` key. The item is `Reaped` iff that delete was sent and succeeded. It is `Skipped` iff `Contents` is present. A raised object listing sends only that call and gives `Failed(code)`. Only storage calls are sent. |
| BucketReaper.ReapBuckets | lambda_function.py:10-29 | A failed bucket listing produces only the listing call and no dispositions, and raises nothing. A response without `Buckets` deletes nothing. Otherwise the destructive calls are exactly the rule's picks, in listing order. All calls go to the storage service. |
| BucketReaper.DeletedOnceIffNoContents | lambda_function.py:19-25 | With distinct bucket names, bucket `i` gets exactly one delete call if its listing lacks `Contents`, and none otherwise. This includes a listing whose `Contents` is present but empty, and a listing that raised. |
| BucketReaper.OnlyEmptyBucketsDeleted | lambda_function.py:19-22 | Every destructive call the bucket reaper sends deletes a listed bucket whose listing had no `Contents`. |
| BucketReaper.BucketFailureIsolated | lambda_function.py:17-27 | Replacing bucket `i` with one whose probe or delete fails changes only that bucket's own calls and disposition. Every other bucket's calls and disposition stay the same. |
| SnapshotReaper.Target | lambda_function.py:42-59 | The snapshot rule only ever picks deleting this snapshot itself. It never picks a snapshot that is not completed, one whose volume lookup found the volume, or one whose lookup raised any code other than `InvalidVolume.NotFound`. |
| SnapshotReaper.SnapshotStep | lambda_function.py:37-65 | One snapshot: the destructive call is `DeleteSnapshot(id)`, sent exactly when the rule picks it. The volume is looked up, as the first call, exactly when the snapshot is completed and names a non-empty volume. A snapshot that is not completed gets no call at all. A lookup that finds the volume gives `Skipped(VolumeInUse)`. A lookup error other than not-found gives `Failed(code)`. `Reaped` iff the delete was sent and succeeded. |
| SnapshotReaper.ReapSnapshots | lambda_function.py:33-67 | A failed snapshot listing produces only the listing call and no dispositions. Otherwise the destructive calls are exactly the completed, orphaned snapshots, in listing order. Only snapshot, volume-lookup and snapshot-delete calls are sent. |
| SnapshotReaper.DeletedOnceIffCompletedOrphan | lambda_function.py:42-65 | With distinct ids, snapshot `i` gets exactly one delete call iff it is completed and either names no volume or its lookup failed with `InvalidVolume.NotFound`. Otherwise it gets none. |
| SnapshotReaper.OnlyCompletedOrphansDeleted | lambda_function.py:42-59 | Every destructive call the snapshot reaper sends deletes a listed, completed snapshot. That snapshot names no volume, or its lookup answered not-found. |
| SnapshotReaper.FailClosedOnLookupError | lambda_function.py:50-56 | A completed snapshot whose volume lookup raised any code other than `InvalidVolume.NotFound` gets no delete call. It is reported as that error. |
| SnapshotReaper.NoVolumeDeletedWithoutLookup | lambda_function.py:45-59 | A completed snapshot with a missing or empty `VolumeId` gets exactly one delete call. Its step sends only that call, so there is no volume lookup. |
| SnapshotReaper.SnapshotFailureIsolated | lambda_function.py:43-63 | A failed lookup or delete on snapshot `i` leaves every other snapshot's calls and disposition unchanged. |
| AddressReaper.Target | lambda_function.py:82-91 | The rule's pick, when there is one, releases the address by one of its own keys. |
| AddressReaper.AddressStep | lambda_function.py:75-95 | One address: the only possible call is the release the rule picks. The address is `Skipped(AddressInUse)` iff `AssociationId` is truthy. It is `Reaped` iff it is unassociated and the release succeeded. Every call it sends is keyed to this address. |
| AddressReaper.ReleaseAddresses | lambda_function.py:72-97 | A failed address listing produces only the listing call and no dispositions. Otherwise the destructive calls are exactly the rule's picks, in listing order. Only address calls are sent. |
| AddressReaper.ReleasedOnceIffUnassociated | lambda_function.py:77-95 | With unique keys, an unassociated address gets exactly one release call. The call uses `ReleaseByAllocation` when `AllocationId` is truthy, and `ReleaseByIp` otherwise. An associated address gets no release call by either key. |
| AddressReaper.AllocationIdPreferred | lambda_function.py:85-91 | An address with a truthy `AllocationId` is never released by its public IP. |
| AddressReaper.OnlyUnassociatedReleased | lambda_function.py:82-91 | Every destructive call the address reaper sends releases a listed, unassociated address by its preferred key. |
| AddressReaper.AddressFailureIsolated | lambda_function.py:83-93 | A failed release of address `i` leaves every other address's calls and disposition unchanged. |
| Sweep.RunAll | lambda_function.py:15-27 | The per-item loop (shown for buckets; the snapshot and address loops have the same shape): every listed item gets exactly one disposition, so no item's outcome stops the loop. |
| Sweep.RunAllDisposition | lambda_function.py:75-95 | Item `i`'s disposition in the loop is exactly the one its own step gives it, whatever the other items are. |
| Sweep.Reap | lambda_function.py:72-97 | The list-then-loop shape: the listing call comes first. If the listing raised, nothing else is sent and there are no dispositions. Otherwise there is one disposition per listed item, and each is the one that item's own step gives it. |
| Handler.Handle | lambda_function.py:99-113 | The response is always status 200 with the fixed completion message. The destructive calls are those of the bucket, snapshot and address reapers, concatenated in that order. |
| Handler.ReapersRunInOrder | lambda_function.py:106-108 | In one invocation's trace, every bucket call comes before every snapshot call, and every snapshot call comes before every address call. |
| Handler.HandlerDestroysExactlyTargets | lambda_function.py:106-108 | When all three listings succeed, the invocation destroys exactly three groups, each in listing order: first the empty buckets, then the completed orphaned snapshots, then the unassociated addresses. |
| Handler.BucketListFailureStopsNothingElse | lambda_function.py:106-113 | When the bucket listing fails, the invocation sends that one call, then exactly the snapshot and address reapers' own calls, and still returns the success response. |

## Left out

- Building the storage and compute clients (lambda_function.py:1-6) and the real network calls are out of the model. Every provider answer is input data.
- Log lines (`print`) are out of the model. A per-item `Disposition` stands in for them.
- Pagination is out of the model. Every listing, including `list_objects_v2`, is one response.
- Credentials, region, and the `OwnerIds=['self']` filter are out of the model. The snapshot listing is whatever the provider returns for it.
- The unused `event` and `context` arguments are out of the model.
- Two invocations running at the same time and racing on the same resources are out of the model. The code does nothing about this.
- Exceptions other than `ClientError` escape the function in the source, so they are excluded rather than modelled; when one is raised the later reapers never run and no response is returned. The client library's network errors (`EndpointConnectionError`, `ConnectTimeoutError`, `ReadTimeoutError`) and parameter validation errors are such exceptions, and every `Outcome` in the model is either success or a `ClientError`. A missing `Name`, `SnapshotId`, `Snapshots` or `Addresses` key, or an error without `Error.Code`, would raise them too, so those fields are non-optional in the datatypes.
- An unassociated address with no truthy `AllocationId` and no `PublicIp` is excluded. The call `release_address(PublicIp=None)` would raise a parameter validation error, which is not a `ClientError`. The subset type `AddressReaper.Address` leaves such addresses out.
- BucketReaper.DeletedOnceIffNoContents: counts calls by bucket name, so it assumes listed names are distinct, as the storage service guarantees. The positional statement in `ReapBuckets` needs no such assumption.
- SnapshotReaper.DeletedOnceIffCompletedOrphan: counts calls by snapshot id, so it assumes listed ids are distinct. `FailClosedOnLookupError` and `NoVolumeDeletedWithoutLookup` inherit this assumption.
- AddressReaper.ReleasedOnceIffUnassociated: counts calls by key, so it assumes truthy allocation ids and present public IPs are unique. `AllocationIdPreferred` inherits this assumption.
