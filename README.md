# Blob-store adapters of the bits-service, in Dafny

This project models the S3 and the Google Cloud Storage (GCS) adapters of
the bits-service blob store, and proves properties of them. The adapters
present one contract over two vendor SDKs: exists, get, get-or-redirect,
put, copy, delete, prefix deletion and URL signing. Each normalises the
vendor's failures into "not found" or a wrapped permanent error.

The vendor SDKs become an abstract service over a `Store`, which maps
bucket names to buckets and a bucket maps object keys to bytes. Every SDK
call in the model takes an injected failure (`fault`). A call with a
failure reports it and leaves the store unchanged. A call without one acts
on the store as follows; the SDK clients are not part of this model, so
these answers are the model's own reading of the services:

- S3 (module `S3Api`): a missing bucket is `NoSuchBucket` for GET, PUT,
  COPY and DELETE. A missing key is `NoSuchKey` for GET and COPY. HEAD
  answers `NotFound` for a missing bucket or a missing key (a HEAD response
  has no body to carry a code). Deleting a missing key succeeds.
- GCS (module `GcsApi`): object `Attrs`, `NewReader` and `Delete` report
  `ErrObjectNotExist` for a missing object, or for any object of a missing
  bucket. The object writer reports a different error for a missing bucket.
  The copier is assumed to report `ErrObjectNotExist` for a missing source.
  Only the bucket-level `Attrs` call reports `ErrBucketNotExist`.

Presigning (S3) and `storage.SignedURL` (GCS) are oracle functions passed
in by the caller.

Files:

- `blob_types.dfy` (`BlobTypes`): the store, the SDK errors, the errors the
  adapters return, and the aggregation of deletion failures.
- `s3_api.dfy` (`S3Api`) and `gcs_api.dfy` (`GcsApi`): the abstract vendor
  services.
- `s3_blobstore.dfy` (`S3Blobstore`): covers `blobstores/s3/s3_blobstore.go`:
  - the pure-redirect store, the no-redirect store and the legacy facade;
  - `DeletePrefix` as an imperative method with nested loops;
  - the properties proved about them.
- `gcp_blobstore.dfy` (`GcpBlobstore`): covers
  `blobstores/gcp/gcp_blobstore.go`:
  - construction;
  - the retry loop, as a method proved equal to the recursive function `RetryRun`;
  - error classification;
  - the single-object operations;
  - `DeleteDir` as an imperative method over the iterator's steps;
  - `Sign`.
- `gcp_properties.dfy` (`GcpProperties`): the GCS adapter's properties:
  - the retry policy;
  - round trips over the store;
  - what `DeleteDir` removes, keeps and reports;
  - the two-object directory scenario of the contract integration test.

Retries follow `backoff.Retry(f, backoff.WithMaxRetries(backoff.NewExponentialBackOff(), n))`:

- `f` is called until it returns nil or a permanent error, or until no retry
  is left.
- The retries granted are the smaller of `n` and `clock`, where `clock` is
  the number of waits the exponential policy's own elapsed-time limit allows.
  A `clock` is given to each operation.
- The deadline context of Exists, Copy and Delete
  (blobstores/gcp/gcp_blobstore.go:71, 131, 145) is not a separate input.
  Once it expires, every later attempt fails at once with a timeout, and the
  loop goes on until its retries run out. That is one of the failure patterns
  the per-attempt `attemptFault` of `Env` can inject.
- An `n` of 0 sets no limit of its own.
- `TimeoutOrPermanent(nil)` is `backoff.Permanent(nil)`, which `Retry` treats
  as success.

Points of the code that the model keeps as written:

- `Sign` accepts "get" in any case but "put" only in lower case, so "PUT"
  panics (blobstores/gcp/gcp_blobstore.go:183).
- `GetOrRedirect` returns the signer's error unwrapped
  (blobstores/gcp/gcp_blobstore.go:97-104).
- The S3 no-redirect store treats `NoSuchBucket` as NotFound
  (blobstores/s3/s3_blobstore.go:251-256). The GCS adapter checks the bucket
  before it reports NotFound (blobstores/gcp/gcp_blobstore.go:210-219).
- The S3 `DeletePrefix` returns a listing failure together with the
  deletion failures collected up to then (blobstores/s3/s3_blobstore.go:242-244).
  The GCS `DeleteDir` aborts as soon as the iterator fails
  (blobstores/gcp/gcp_blobstore.go:166-168).

## Model

| member | source | states |
|---|---|---|
| BlobTypes.Kept | blobstores/s3/s3_blobstore.go:233-238 | a delete's result adds nothing to the failures exactly when it is nil or NotFoundError, and otherwise adds just that error |
| BlobTypes.CollectEmpty | blobstores/s3/s3_blobstore.go:245-248 | no failure is collected from a run of deletes exactly when every delete returned nil or NotFoundError |
| S3Api.SplitJoined | blobstores/s3/s3_blobstore.go:184 | a copy source built as bucket + "/" + key names that bucket and that key, as bucket names hold no '/' |
| S3Blobstore.IsS3NotFoundError | blobstores/s3/s3_blobstore.go:251-258 | true exactly for an AWS error whose code is NoSuchBucket, NoSuchKey or NotFound; false for every other code and every non-AWS error |
| S3Blobstore.NewPureRedirectBlobstore | blobstores/s3/s3_blobstore.go:63-68 | the store works on the configured bucket |
| S3Blobstore.NewNoRedirectBlobStore | blobstores/s3/s3_blobstore.go:130-135 | the store works on the configured bucket |
| S3Blobstore.NewLegacyBlobstore | blobstores/s3/s3_blobstore.go:23-28 | both inner stores work on the configured bucket |
| S3Blobstore.SignedURLFrom | blobstores/s3/s3_blobstore.go:105-112 | no error exactly when presigning succeeded, and then the URL is the presigned one; a presigning failure gives "" and the failure wrapped with "Bucket/Path bucket/path" |
| S3Blobstore.PureRedirectGet | blobstores/s3/s3_blobstore.go:70-77 | never a body; the location and error of a one-hour presigned GET of the path |
| S3Blobstore.PureRedirectHead | blobstores/s3/s3_blobstore.go:79-86 | answers with a one-hour presigned GET request, not a HEAD request |
| S3Blobstore.PureRedirectPut | blobstores/s3/s3_blobstore.go:88-94 | answers with a one-hour presigned PUT of the path and never reads the source |
| S3Blobstore.PureRedirectCopy | blobstores/s3/s3_blobstore.go:96-103 | presigns a COPY with the source as given and the key dest; a failure names dest |
| S3Blobstore.PureRedirectDelete | blobstores/s3/s3_blobstore.go:114-123 | the store the S3 delete leaves; no error exactly when the delete succeeded; any failure, not-found codes included, wrapped with "Path path" |
| S3Blobstore.Translate | blobstores/s3/s3_blobstore.go:143-147 | NotFoundError exactly for a not-found code; otherwise the error wrapped with the context |
| S3Blobstore.NoRedirectGet | blobstores/s3/s3_blobstore.go:137-150 | empty redirect; a body exactly when there is no error, and it is the stored object; a failure is classified by Translate |
| S3Blobstore.NoRedirectHead | blobstores/s3/s3_blobstore.go:152-165 | empty redirect; no error exactly when HEAD succeeds; a failure is classified by Translate |
| S3Blobstore.NoRedirectPut | blobstores/s3/s3_blobstore.go:167-178 | the store the S3 put leaves; no error exactly when the put succeeded; a failure wrapped with "Path path" |
| S3Blobstore.NoRedirectCopy | blobstores/s3/s3_blobstore.go:180-194 | copies from bucket + "/" + src to dest in the same bucket; not-found codes become NotFoundError, other failures are wrapped with the copy context |
| S3Blobstore.NoRedirectExists | blobstores/s3/s3_blobstore.go:196-208 | success gives (true, nil); a not-found code gives (false, nil); any other failure gives (false, failure wrapped with "Failed to check for bucket/path") |
| S3Blobstore.NoRedirectDelete | blobstores/s3/s3_blobstore.go:210-222 | the store the S3 delete leaves; not-found codes become NotFoundError, other failures are wrapped with "Path path" |
| S3Blobstore.PrefixOutcome | blobstores/s3/s3_blobstore.go:242-248 | nil exactly when the listing succeeded and nothing was collected; a listing failure is reported together with the collected failures |
| S3Blobstore.DeleteKeysStep | blobstores/s3/s3_blobstore.go:232-238 | one more listed key extends the deletion by that key's delete against the store left so far |
| S3Blobstore.DeletePrefix | blobstores/s3/s3_blobstore.go:224-249 | every key of every page is deleted, in listing order; the new store and the error are those of DeleteKeys over the flattened pages and PrefixOutcome |
| S3Blobstore.LegacyGet | blobstores/s3/s3_blobstore.go:30-32 | answered by the pure-redirect store |
| S3Blobstore.LegacyHead | blobstores/s3/s3_blobstore.go:34-36 | answered by the pure-redirect store |
| S3Blobstore.LegacyPut | blobstores/s3/s3_blobstore.go:38-40 | answered by the no-redirect store |
| S3Blobstore.LegacyCopy | blobstores/s3/s3_blobstore.go:42-44 | answered by the no-redirect store |
| S3Blobstore.LegacyExists | blobstores/s3/s3_blobstore.go:46-48 | answered by the no-redirect store |
| S3Blobstore.LegacyDelete | blobstores/s3/s3_blobstore.go:50-52 | answered by the no-redirect store |
| S3Blobstore.LegacyDeletePrefix | blobstores/s3/s3_blobstore.go:54-56 | the no-redirect store's prefix deletion: the same store and error as DeleteKeys and PrefixOutcome |
| S3Blobstore.GetReflectsStore | blobstores/s3/s3_blobstore.go:137-150 | when nothing fails, Get returns exactly the stored contents, and NotFoundError for a missing object or bucket |
| S3Blobstore.ExistsReflectsStore | blobstores/s3/s3_blobstore.go:196-208 | when nothing fails, Exists answers whether the object is stored, and never errs |
| S3Blobstore.PutThenGet | blobstores/s3/s3_blobstore.go:167-178 | Put into an existing bucket succeeds; a later Get returns exactly the contents put, and Exists is true |
| S3Blobstore.DeleteThenAbsent | blobstores/s3/s3_blobstore.go:210-222 | Delete in an existing bucket succeeds; after it, Exists is false and Get reports NotFoundError |
| S3Blobstore.CopyCopies | blobstores/s3/s3_blobstore.go:180-194 | a stored src is copied to dest and nothing else changes; a missing src gives NotFoundError and an unchanged store |
| S3Blobstore.LegacyReadsRedirectWritesDirect | blobstores/s3/s3_blobstore.go:30-44 | the legacy Get never returns a body, and has the same location and error as Head (a presigned GET); legacy Put and Copy never redirect |
| S3Blobstore.DeleteErrors | blobstores/s3/s3_blobstore.go:233 | one error per listed key: that key's delete judged against the original store |
| S3Blobstore.DeleteKeysErrors | blobstores/s3/s3_blobstore.go:231-241 | the failures DeleteKeys, the deletes of the page loop, collects are those of each key's delete judged alone, in listing order |
| S3Blobstore.DeleteKeysBuckets | blobstores/s3/s3_blobstore.go:231-241 | the deletes of the page loop add or drop no bucket |
| S3Blobstore.DeleteSameBuckets | blobstores/s3/s3_blobstore.go:210-222 | a delete's error depends only on which buckets exist, and no delete changes that |
| S3Blobstore.DeletePrefixSucceedsIff | blobstores/s3/s3_blobstore.go:224-249 | nil exactly when the listing succeeded and every listed key's delete returned nil or NotFoundError |
| S3Blobstore.DeleteKeysStore | blobstores/s3/s3_blobstore.go:231-241 | after DeleteKeys, other buckets are untouched; a key stays exactly when every one of its deletes failed, and keeps its contents |
| S3Blobstore.DeletePrefixCleansPrefix | blobstores/s3/s3_blobstore.go:224-249 | with no failures and a listing of exactly the keys under the prefix, DeletePrefix succeeds, removes every key under the prefix and keeps all other keys and buckets |
| GcpBlobstore.NewBlobstore | blobstores/gcp/gcp_blobstore.go:31-60 | panics unless bucket, email, private key, key id and token URL are all non-empty, then if the client fails; otherwise uses the configured bucket, a JWT config with full-control scope, and the retry timeout in seconds (0 becomes 5) |
| GcpBlobstore.TimeoutOrPermanent | blobstores/gcp/gcp_blobstore.go:203-208 | an error stays retryable exactly when it reports a timeout; every other result, nil included, is permanent and wraps the same error |
| GcpBlobstore.RetryCap | blobstores/gcp/gcp_blobstore.go:199-201 | the retries granted are the smaller of numRetries and the clock's when numRetries is non-zero, and the clock's alone when it is 0 |
| GcpBlobstore.RetryRun | blobstores/gcp/gcp_blobstore.go:199-201 | 1 to cap + 1 calls; every call before the last was retryable; returns the last call's nil or permanent error, or its timeout after all cap + 1 calls |
| GcpBlobstore.Retries | blobstores/gcp/gcp_blobstore.go:74-77 | a call retried with 4 retries makes one to five attempts, and its error is the last attempt's own |
| GcpBlobstore.WithRetries | blobstores/gcp/gcp_blobstore.go:199-201 | the attempt loop returns the error and makes the number of calls RetryRun gives for the granted retries |
| GcpBlobstore.BucketExists | blobstores/gcp/gcp_blobstore.go:221-227 | nil exactly when the bucket attributes can be read; otherwise the failure wrapped with the bucket-check context |
| GcpBlobstore.HandleError | blobstores/gcp/gcp_blobstore.go:210-219 | NotFoundError exactly for ErrObjectNotExist with a passing bucket check; a failing check returns the check's error; any other error is wrapped with the context |
| GcpBlobstore.Exists | blobstores/gcp/gcp_blobstore.go:70-86 | a retried Attrs; success gives (true, nil); a failure that becomes NotFoundError gives (false, nil); any other gives (false, handled error) |
| GcpBlobstore.Get | blobstores/gcp/gcp_blobstore.go:88-95 | one unretried read; a body exactly when there is no error, and it is the stored object; a failure goes through HandleError with "Path path" |
| GcpBlobstore.GetOrRedirect | blobstores/gcp/gcp_blobstore.go:97-105 | never a body; signs a GET with the configured credentials, expiring one hour after now; a signing failure is returned unwrapped with an empty location |
| GcpBlobstore.Put | blobstores/gcp/gcp_blobstore.go:107-126 | a failing bucket check is returned and nothing is written; otherwise the write's store, with a failure wrapped with "Path path" |
| GcpBlobstore.Copy | blobstores/gcp/gcp_blobstore.go:128-142 | a retried server-side copy; success leaves the copied store; a failure goes through HandleError with the copy context and changes nothing |
| GcpBlobstore.Delete | blobstores/gcp/gcp_blobstore.go:144-156 | a retried delete; success removes the object; a failure goes through HandleError with "Path path" and changes nothing |
| GcpBlobstore.DeleteDirOutcome | blobstores/gcp/gcp_blobstore.go:158-180 | DeleteDir over the iterator's steps: an iterator failure is the error, wrapped with "Prefix prefix"; otherwise any error is a report of at least one failure |
| GcpBlobstore.DirOutcome | blobstores/gcp/gcp_blobstore.go:166-179 | nil exactly when the iterator did not fail and nothing was collected; an iterator failure is wrapped with "Prefix prefix"; otherwise the collected failures are reported |
| GcpBlobstore.DeleteKeysStep | blobstores/gcp/gcp_blobstore.go:169-174 | one more iterated name extends the deletion by that name's Delete against the store left so far |
| GcpBlobstore.ListingPrefix | blobstores/gcp/gcp_blobstore.go:161-168 | ListedNames are the names of the steps up to the first failure; ListingError is None exactly when no step failed, and otherwise the first failing step's error |
| GcpBlobstore.ListingStep | blobstores/gcp/gcp_blobstore.go:161-168 | an object step yields its name and goes on; a failing step yields nothing more and is the listing's error |
| GcpBlobstore.ListingFinished | blobstores/gcp/gcp_blobstore.go:163-165 | at iterator.Done, every name has been yielded and there was no listing failure |
| GcpBlobstore.ListingAborted | blobstores/gcp/gcp_blobstore.go:166-168 | at a failing step, every name has been yielded and that step's failure is the listing's error |
| GcpBlobstore.ListingAdvanced | blobstores/gcp/gcp_blobstore.go:162-169 | an object step adds its name to the names yielded so far |
| GcpBlobstore.DeleteDir | blobstores/gcp/gcp_blobstore.go:158-180 | deletes every iterated name in order until the iterator ends or fails; the error and the new store are those of DirOutcome over DeleteKeys |
| GcpBlobstore.ToLower | blobstores/gcp/gcp_blobstore.go:183 | the same length, each ASCII capital letter lowered |
| GcpBlobstore.ToUpper | blobstores/gcp/gcp_blobstore.go:189 | the same length, each ASCII small letter raised |
| GcpBlobstore.Sign | blobstores/gcp/gcp_blobstore.go:182-197 | panics exactly when the method is neither "get" in some case nor "put" in lower case; otherwise signs the upper-cased method with the expiration unchanged, and panics if signing fails |
| GcpBlobstore.LowerGet | blobstores/gcp/gcp_blobstore.go:183 | lower-casing gives "get" exactly for "get" in any mix of cases |
| GcpProperties.RetriesOnlyTimeouts | blobstores/gcp/gcp_blobstore.go:199-208 | every attempt before the last timed out; the result is the last attempt's error; the last one is a timeout only when the cap is spent |
| GcpProperties.RetrySucceedsAfterTimeouts | blobstores/gcp/gcp_blobstore.go:199-208 | k timeouts, then a success, with k within the cap, succeed after k + 1 calls |
| GcpProperties.RetryStopsOnPermanent | blobstores/gcp/gcp_blobstore.go:199-208 | a first result that is not a timeout is returned after one call |
| GcpProperties.RetryGivesUp | blobstores/gcp/gcp_blobstore.go:199-208 | when every attempt times out, cap + 1 calls are made and the last timeout is returned |
| GcpProperties.RetryRunCongruent | blobstores/gcp/gcp_blobstore.go:199-201 | calls that agree on every attempt give the same retry result |
| GcpProperties.CalmRetries | blobstores/gcp/gcp_blobstore.go:74-77 | when the first attempt is not a timeout, it is the result |
| GcpProperties.ExistsReflectsStore | blobstores/gcp/gcp_blobstore.go:70-86 | when nothing fails, Exists answers whether the object is stored; a missing bucket gives false together with the bucket check's error, not (false, nil) |
| GcpProperties.GetReflectsStore | blobstores/gcp/gcp_blobstore.go:88-95 | when nothing fails, Get returns the stored contents; a missing object of an existing bucket is NotFoundError; a missing bucket is the bucket check's error |
| GcpProperties.PutThenGet | blobstores/gcp/gcp_blobstore.go:107-126 | Put into an existing bucket stores exactly the contents; Get returns them and Exists is true |
| GcpProperties.PutIntoMissingBucket | blobstores/gcp/gcp_blobstore.go:107-111 | Put into a missing bucket writes nothing and reports the bucket check's error |
| GcpProperties.CopyCopies | blobstores/gcp/gcp_blobstore.go:128-142 | when nothing fails, a stored src is copied to dest; a missing src is NotFoundError and changes nothing |
| GcpProperties.DeleteThenAbsent | blobstores/gcp/gcp_blobstore.go:144-156 | when nothing fails, Delete removes a stored object; a missing object is NotFoundError; a missing bucket is the bucket check's error |
| GcpProperties.DeleteEffect | blobstores/gcp/gcp_blobstore.go:144-156 | a Delete either changes nothing or removes just that object |
| GcpProperties.DeleteKeysFrame | blobstores/gcp/gcp_blobstore.go:161-175 | DeleteKeys, the deletes of the loop, adds or drops no bucket and touch no other bucket; the bucket loses only given keys, and keeps every other key with its contents |
| GcpProperties.DeleteDirKeepsUnlisted | blobstores/gcp/gcp_blobstore.go:158-180 | DeleteDir leaves every object it was not given untouched |
| GcpProperties.CalmDeleteKeysRemove | blobstores/gcp/gcp_blobstore.go:161-175 | when nothing fails, nothing is collected and every given key is gone |
| GcpProperties.CalmDeleteStep | blobstores/gcp/gcp_blobstore.go:169-174 | a Delete where nothing fails keeps no failure and removes the key |
| GcpProperties.CalmDeleteKeys | blobstores/gcp/gcp_blobstore.go:161-175 | when nothing fails, nothing is collected and the bucket keeps exactly its keys that were not given, with their contents |
| GcpProperties.DeleteDirCleansPrefix | blobstores/gcp/gcp_blobstore.go:158-180 | when nothing fails and the iterator yields exactly the keys under the prefix, DeleteDir succeeds and leaves exactly the other keys |
| GcpProperties.PrefixCleaned | blobstores/gcp/gcp_blobstore.go:158-180 | dropping exactly the listed keys, which are the keys under the prefix, leaves the store without the prefix |
| GcpProperties.DeleteCongruent | blobstores/gcp/gcp_blobstore.go:144-156 | a Delete's error depends on the store only through whether the bucket and the object exist |
| GcpProperties.AttemptAgrees | blobstores/gcp/gcp_blobstore.go:148-151 | a delete attempt's classified result depends only on whether the object exists |
| GcpProperties.HandleErrorCongruent | blobstores/gcp/gcp_blobstore.go:210-227 | the handled error depends on the store only through whether the bucket exists |
| GcpProperties.DeleteErrors | blobstores/gcp/gcp_blobstore.go:169 | one error per name: that name's Delete judged against the original store |
| GcpProperties.DeleteKeysErrors | blobstores/gcp/gcp_blobstore.go:161-175 | with distinct names, the failures DeleteKeys collects are, in order, those among each name's Delete judged alone against the original store that are neither nil nor NotFoundError |
| GcpProperties.DeletesSucceedIff | blobstores/gcp/gcp_blobstore.go:169-176 | deletes of distinct names collect nothing exactly when each one, judged against the original store, returned nil or NotFoundError |
| GcpProperties.LastDeleteAgrees | blobstores/gcp/gcp_blobstore.go:169 | the last of distinct names meets its object as it was before the deletion began |
| GcpProperties.DirectoryScenario | blobstores/contract_integ_test/blobstore_integ_test.go:82-107 | in an empty bucket, Put "one" and "two" makes both exist; DeleteDir("") then succeeds and neither exists |
| GcpProperties.DeleteDirSucceedsIff | blobstores/gcp/gcp_blobstore.go:158-180 | over distinct names, nil exactly when the iterator did not fail and every Delete returned nil or NotFoundError |
| GcpProperties.SignMethodCases | blobstores/gcp/gcp_blobstore.go:183-185 | "PUT", "Put" and "DELETE" panic; "put", "GET" and "Get" do not |
| GcpProperties.SignedMethodUpperCase | blobstores/gcp/gcp_blobstore.go:186-191 | an accepted method is always signed as "GET" or "PUT" |

## Left out

- The vendor SDKs are not part of this model: the AWS and GCS clients, HTTP transport, presign cryptography (SigV4 and GCS V2 signing) and the OAuth/JWT token source. Services are the abstract store with injected failures; presigning and signing are functions given by the caller.
- `newS3Client`, `storage.NewClient` and the `validate` package are not part of this model. The client's failure is a parameter of `NewBlobstore`, and an empty field makes `NewBlobstore` return a panic value.
- Panics are modelled as `Err` values of type `Panic`, and they do not unwind.
- Logging calls are left out: they have no effect on results.
- Streams are modelled as whole byte sequences. A partially read source or partially written object, `io.Copy` and `SafeCloser` are not modelled; in GCS `Put` a failure to copy or to close the writer is one injected `writeFault`.
- Time is not modelled. The exponential back-off's waits and its elapsed-time limit become the `clock`, the number of waits allowed. The `context.WithTimeout` deadline is not an input of its own: the timeouts it causes are injected through `attemptFault`. `time.Now` is the parameter `now` of `GetOrRedirect`, and expirations are seconds.
- `Blobstore.retryTimeout` is computed by `NewBlobstore` and carried, but no operation of the model reads it, because the deadline it sets is modelled through `attemptFault`.
- A timed-out or failed attempt is assumed to change nothing. A GCS delete or copy that took effect on the server while the client timed out is not modelled.
- GcpBlobstore.NewBlobstore: does not model the int64 overflow of `time.Duration(seconds) * time.Second`.
- GcpBlobstore.ToLower: does not model the Unicode case mapping of `strings.ToLower` beyond ASCII, because only ASCII letters matter for the methods that `Sign` accepts.
- GcpBlobstore.ToUpper: does not model the Unicode case mapping of `strings.ToUpper` beyond ASCII, because it is only applied to the methods `Sign` accepts, which are ASCII.
- The text of the aggregate errors (`errors.Errorf("Prefix %v, errors from deleting: %v", …)`) is modelled as the value `DeletionFailed(prefix, listing error, failures)`.
- S3 `ListObjectsPages` is modelled as a given `Listing`: the pages it hands to the callback, then its error. GCS `Objects(...).Next()` is modelled as a given sequence of iterator steps. Which keys a listing returns is a parameter, not derived from the store.
- GcpProperties.DeleteDirSucceedsIff: requires distinct names, as an iterator lists each object once. With a repeated name, a later delete meets the state an earlier one left.
- Concurrent use of an adapter by several callers is not modelled.
- GcpProperties.CopyCopies: its NotFoundError case rests on the assumption that the GCS copier reports `ErrObjectNotExist` for a missing source. The storage client is not part of this model. If the copier passes on another error instead, `handleError` wraps it and Copy of a missing source is not NotFoundError.
- S3 `CopyObject` of an object onto itself (`dest == src`, nothing else changed) is modelled as a successful no-op. S3 refuses such a copy with an error.
- S3Blobstore.CopyCopies: the copy source is sent as `bucket + "/" + src` without URL encoding (blobstores/s3/s3_blobstore.go:184). S3 decodes that header, so a key holding '%' or '?' names another object there. `S3Api.Copy` reads the copy source raw, and the lemma's correct copy holds only for keys that the decoding leaves unchanged. URL decoding is not modelled.
