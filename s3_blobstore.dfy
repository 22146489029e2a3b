/** The S3 adapters of blobstores/s3/s3_blobstore.go: a pure-redirect store
    that answers with presigned URLs, a no-redirect store that moves bytes
    through the service, and the legacy facade that routes each operation to
    one of them. The AWS client is the abstract service of module S3Api; the
    presigner is a function given by the caller. */
module S3Blobstore {
  import opened BlobTypes
  import S3Api

  /** time.Hour, the lifetime of every presigned URL, in seconds. */
  const PresignLifetime: int := 3600

  /** The AWS error codes the adapters treat as "not found". */
  const NotFoundCodes: set<string> := {"NoSuchBucket", "NoSuchKey", "NotFound"}

  datatype S3BlobstoreConfig = S3BlobstoreConfig(
    bucket: string, region: string, accessKeyID: string, secretAccessKey: string)

  /** The client is the abstract service; what is left is the bucket. */
  datatype PureRedirectBlobStore = PureRedirectBlobStore(bucket: string)

  datatype NoRedirectBlobStore = NoRedirectBlobStore(bucket: string)

  datatype LegacyBlobStore = LegacyBlobStore(
    pureRedirect: PureRedirectBlobStore, noRedirect: NoRedirectBlobStore)

  /** (body, redirectLocation, err) of the Get operations. */
  datatype GetResult = GetResult(body: Option<Bytes>, redirectLocation: string, err: Option<Error>)

  /** (redirectLocation, err) of Head and of the pure-redirect Put and Copy. */
  datatype RedirectResult = RedirectResult(redirectLocation: string, err: Option<Error>)

  datatype ExistsResult = ExistsResult(present: bool, err: Option<Error>)

  /** (redirectLocation, err) of the no-redirect Put and Copy, with the store after them. */
  datatype WriteResult = WriteResult(redirectLocation: string, err: Option<Error>, store: Store)

  /** request.Presign(lifetime): a URL, or the failure of signing. */
  type Presigner = (S3Api.Request, int) -> Result<string, SdkError>

  /** What ListObjectsPages delivers: the pages it hands to the callback, in
      order, then the error it returns (None when every page was listed). */
  datatype Listing = Listing(pages: seq<seq<string>>, err: Option<SdkError>)

  // ---------------------------------------------------------------------
  // Error classification

  function IsS3NotFoundError(e: SdkError): (r: bool)
    ensures r <==> e.AwsError? && e.code in NotFoundCodes
  {
    if e.AwsError? then e.code == "NoSuchBucket" || e.code == "NoSuchKey" || e.code == "NotFound"
    else false
  }

  // ---------------------------------------------------------------------
  // Construction

  function NewPureRedirectBlobstore(config: S3BlobstoreConfig): (b: PureRedirectBlobStore)
    ensures b.bucket == config.bucket
  {
    PureRedirectBlobStore(config.bucket)
  }

  function NewNoRedirectBlobStore(config: S3BlobstoreConfig): (b: NoRedirectBlobStore)
    ensures b.bucket == config.bucket
  {
    NoRedirectBlobStore(config.bucket)
  }

  function NewLegacyBlobstore(config: S3BlobstoreConfig): (l: LegacyBlobStore)
    ensures l.pureRedirect.bucket == config.bucket && l.noRedirect.bucket == config.bucket
  {
    LegacyBlobStore(NewPureRedirectBlobstore(config), NewNoRedirectBlobStore(config))
  }

  // ---------------------------------------------------------------------
  // Pure-redirect store

  /** A presigned URL, or the signing failure wrapped with the bucket and path. */
  function SignedURLFrom(presigned: Result<string, SdkError>, bucket: string, path: string): (r: RedirectResult)
    ensures r.err.None? <==> presigned.Ok?
    ensures presigned.Ok? ==> r.redirectLocation == presigned.value
    ensures presigned.Err? ==>
      r.redirectLocation == "" && r.err == Some(Wrapped(presigned.error, "Bucket/Path " + bucket + "/" + path))
  {
    match presigned
    case Ok(url) => RedirectResult(url, None)
    case Err(e) => RedirectResult("", Some(Wrapped(e, "Bucket/Path " + bucket + "/" + path)))
  }

  function PureRedirectGet(b: PureRedirectBlobStore, path: string, presign: Presigner): (r: GetResult)
    ensures r.body.None?
    ensures var signed := presign(S3Api.GetObject(b.bucket, path), PresignLifetime);
      r.redirectLocation == SignedURLFrom(signed, b.bucket, path).redirectLocation
      && r.err == SignedURLFrom(signed, b.bucket, path).err
  {
    var signed := SignedURLFrom(presign(S3Api.GetObject(b.bucket, path), PresignLifetime), b.bucket, path);
    GetResult(None, signed.redirectLocation, signed.err)
  }

  /** Head presigns a GET request, not a HEAD request. */
  function PureRedirectHead(b: PureRedirectBlobStore, path: string, presign: Presigner): (r: RedirectResult)
    ensures r == SignedURLFrom(presign(S3Api.GetObject(b.bucket, path), PresignLifetime), b.bucket, path)
  {
    SignedURLFrom(presign(S3Api.GetObject(b.bucket, path), PresignLifetime), b.bucket, path)
  }

  /** Put presigns a PUT of `path`; the source is never read. */
  function PureRedirectPut(b: PureRedirectBlobStore, path: string, src: Bytes, presign: Presigner): (r: RedirectResult)
    ensures r == SignedURLFrom(presign(S3Api.PutObject(b.bucket, path), PresignLifetime), b.bucket, path)
  {
    SignedURLFrom(presign(S3Api.PutObject(b.bucket, path), PresignLifetime), b.bucket, path)
  }

  /** Copy presigns a COPY whose copy source is `src` as given (without the
      bucket name) and whose key is `dest`; failures name `dest`. */
  function PureRedirectCopy(b: PureRedirectBlobStore, src: string, dest: string, presign: Presigner): (r: RedirectResult)
    ensures r == SignedURLFrom(presign(S3Api.CopyObject(b.bucket, dest, src), PresignLifetime), b.bucket, dest)
  {
    SignedURLFrom(presign(S3Api.CopyObject(b.bucket, dest, src), PresignLifetime), b.bucket, dest)
  }

  /** The pure-redirect Delete deletes directly and, unlike the no-redirect
      one, never reports NotFoundError. */
  function PureRedirectDelete(b: PureRedirectBlobStore, path: string, store: Store, fault: Option<SdkError>): (r: Update)
    ensures r.store == S3Api.Delete(store, b.bucket, path, fault).store
    ensures r.err.None? <==> S3Api.Delete(store, b.bucket, path, fault).err.None?
    ensures r.err.Some? ==> r.err.value == Wrapped(S3Api.Delete(store, b.bucket, path, fault).err.value, "Path " + path)
  {
    var resp := S3Api.Delete(store, b.bucket, path, fault);
    match resp.err
    case None => Update(None, resp.store)
    case Some(e) => Update(Some(Wrapped(e, "Path " + path)), resp.store)
  }

  // ---------------------------------------------------------------------
  // No-redirect store

  /** A failed SDK call as the no-redirect store reports it: NotFoundError
      for a not-found code, otherwise the error wrapped with `context`. */
  function Translate(e: SdkError, context: string): (r: Error)
    ensures r.NotFoundError? <==> IsS3NotFoundError(e)
    ensures !r.NotFoundError? ==> r == Wrapped(e, context)
  {
    if IsS3NotFoundError(e) then NotFoundError else Wrapped(e, context)
  }

  function NoRedirectGet(b: NoRedirectBlobStore, path: string, store: Store, fault: Option<SdkError>): (r: GetResult)
    ensures r.redirectLocation == ""
    ensures r.body.Some? <==> r.err.None?
    ensures var resp := S3Api.Get(store, b.bucket, path, fault);
      (resp.Ok? ==> r.body == Some(resp.value)) &&
      (resp.Err? ==> r.err == Some(Translate(resp.error, "Path " + path)))
  {
    match S3Api.Get(store, b.bucket, path, fault)
    case Ok(body) => GetResult(Some(body), "", None)
    case Err(e) => GetResult(None, "", Some(Translate(e, "Path " + path)))
  }

  function NoRedirectHead(b: NoRedirectBlobStore, path: string, store: Store, fault: Option<SdkError>): (r: RedirectResult)
    ensures r.redirectLocation == ""
    ensures var resp := S3Api.Head(store, b.bucket, path, fault);
      (resp.None? <==> r.err.None?) &&
      (resp.Some? ==> r.err == Some(Translate(resp.value, "Path " + path)))
  {
    match S3Api.Head(store, b.bucket, path, fault)
    case None => RedirectResult("", None)
    case Some(e) => RedirectResult("", Some(Translate(e, "Path " + path)))
  }

  function NoRedirectPut(b: NoRedirectBlobStore, path: string, src: Bytes, store: Store, fault: Option<SdkError>): (r: WriteResult)
    ensures r.redirectLocation == ""
    ensures var resp := S3Api.Put(store, b.bucket, path, src, fault);
      r.store == resp.store &&
      (resp.err.None? <==> r.err.None?) &&
      (resp.err.Some? ==> r.err == Some(Wrapped(resp.err.value, "Path " + path)))
  {
    var resp := S3Api.Put(store, b.bucket, path, src, fault);
    match resp.err
    case None => WriteResult("", None, resp.store)
    case Some(e) => WriteResult("", Some(Wrapped(e, "Path " + path)), resp.store)
  }

  function CopyContext(b: NoRedirectBlobStore, src: string, dest: string): string {
    "Error while trying to copy src " + src + " to dest " + dest + " in bucket " + b.bucket
  }

  /** Copy within the bucket: the copy source is bucket + "/" + src, the key is dest. */
  function NoRedirectCopy(b: NoRedirectBlobStore, src: string, dest: string, store: Store, fault: Option<SdkError>): (r: WriteResult)
    ensures r.redirectLocation == ""
    ensures var resp := S3Api.Copy(store, b.bucket, dest, b.bucket + "/" + src, fault);
      r.store == resp.store &&
      (resp.err.None? <==> r.err.None?) &&
      (resp.err.Some? ==> r.err == Some(Translate(resp.err.value, CopyContext(b, src, dest))))
  {
    var resp := S3Api.Copy(store, b.bucket, dest, b.bucket + "/" + src, fault);
    match resp.err
    case None => WriteResult("", None, resp.store)
    case Some(e) => WriteResult("", Some(Translate(e, CopyContext(b, src, dest))), resp.store)
  }

  /** Exists probes with HEAD; a not-found code answers false without error. */
  function NoRedirectExists(b: NoRedirectBlobStore, path: string, store: Store, fault: Option<SdkError>): (r: ExistsResult)
    ensures var resp := S3Api.Head(store, b.bucket, path, fault);
      (resp.None? ==> r == ExistsResult(true, None)) &&
      (resp.Some? && IsS3NotFoundError(resp.value) ==> r == ExistsResult(false, None)) &&
      (resp.Some? && !IsS3NotFoundError(resp.value) ==>
        r == ExistsResult(false, Some(Wrapped(resp.value, "Failed to check for " + b.bucket + "/" + path))))
  {
    match S3Api.Head(store, b.bucket, path, fault)
    case None => ExistsResult(true, None)
    case Some(e) =>
      if IsS3NotFoundError(e) then ExistsResult(false, None)
      else ExistsResult(false, Some(Wrapped(e, "Failed to check for " + b.bucket + "/" + path)))
  }

  function NoRedirectDelete(b: NoRedirectBlobStore, path: string, store: Store, fault: Option<SdkError>): (r: Update)
    ensures var resp := S3Api.Delete(store, b.bucket, path, fault);
      r.store == resp.store &&
      (resp.err.None? <==> r.err.None?) &&
      (resp.err.Some? ==> r.err == Some(Translate(resp.err.value, "Path " + path)))
  {
    var resp := S3Api.Delete(store, b.bucket, path, fault);
    match resp.err
    case None => Update(None, resp.store)
    case Some(e) => Update(Some(Translate(e, "Path " + path)), resp.store)
  }

  // ---------------------------------------------------------------------
  // Prefix deletion

  /** The deletes DeletePrefix performs for `keys`, one after the other; the
      i-th delete meets the injected failure faults(i). */
  function DeleteKeys(b: NoRedirectBlobStore, keys: seq<string>, store: Store, faults: nat -> Option<SdkError>): (d: Deletion)
    decreases |keys|
  {
    if keys == [] then Deletion([], store)
    else
      var prev := DeleteKeys(b, keys[..|keys| - 1], store, faults);
      var r := NoRedirectDelete(b, keys[|keys| - 1], prev.store, faults(|keys| - 1));
      Deletion(prev.errs + Kept(r.err), r.store)
  }

  /** The error DeletePrefix returns once the listing is over. */
  function PrefixOutcome(prefix: string, listingErr: Option<SdkError>, errs: seq<Error>): (r: Option<Error>)
    ensures r.None? <==> listingErr.None? && errs == []
    ensures listingErr.Some? ==> r == Some(DeletionFailed(prefix, listingErr, errs))
    ensures listingErr.None? && errs != [] ==> r == Some(DeletionFailed(prefix, None, errs))
  {
    if listingErr.Some? then Some(DeletionFailed(prefix, listingErr, errs))
    else if errs != [] then Some(DeletionFailed(prefix, None, errs))
    else None
  }

  /** One more delete extends the deletion by that delete. */
  lemma DeleteKeysStep(b: NoRedirectBlobStore, done: seq<string>, key: string, store: Store, faults: nat -> Option<SdkError>)
    ensures var prev := DeleteKeys(b, done, store, faults);
      var r := NoRedirectDelete(b, key, prev.store, faults(|done|));
      DeleteKeys(b, done + [key], store, faults) == Deletion(prev.errs + Kept(r.err), r.store)
  {
    assert (done + [key])[..|done|] == done;
  }

  /** The keys deleted so far, extended by the j-th key of the page. */
  lemma ExtendDone(before: seq<string>, contents: seq<string>, j: nat)
    requires j < |contents|
    ensures before + contents[..j] + [contents[j]] == before + contents[..j + 1]
  {
    Snoc(contents, j);
    assert before + contents[..j] + [contents[j]] == before + (contents[..j] + [contents[j]]);
  }

  lemma FlattenStep(pages: seq<seq<string>>, p: nat)
    requires p < |pages|
    ensures Flatten(pages[..p + 1]) == Flatten(pages[..p]) + pages[p]
  {
    assert pages[..p + 1][..p] == pages[..p];
  }

  /** DeletePrefix: delete every key of every listed page, in listing order,
      keeping every failure other than NotFoundError. */
  method DeletePrefix(b: NoRedirectBlobStore, prefix: string, listing: Listing, store: Store, faults: nat -> Option<SdkError>)
    returns (err: Option<Error>, store': Store)
    ensures var d := DeleteKeys(b, Flatten(listing.pages), store, faults);
      store' == d.store && err == PrefixOutcome(prefix, listing.err, d.errs)
  {
    var deletionErrs: seq<Error> := [];
    store' := store;
    ghost var done: seq<string> := [];
    var n: nat := 0;
    for p := 0 to |listing.pages|
      invariant done == Flatten(listing.pages[..p]) && n == |done|
      invariant DeleteKeys(b, done, store, faults) == Deletion(deletionErrs, store')
    {
      var contents := listing.pages[p];
      ghost var before := done;
      for j := 0 to |contents|
        invariant done == before + contents[..j] && n == |done|
        invariant DeleteKeys(b, done, store, faults) == Deletion(deletionErrs, store')
      {
        var r := NoRedirectDelete(b, contents[j], store', faults(n));
        assert DeleteKeys(b, done + [contents[j]], store, faults) == Deletion(deletionErrs + Kept(r.err), r.store) by {
          DeleteKeysStep(b, done, contents[j], store, faults);
        }
        ExtendDone(before, contents, j);
        deletionErrs := deletionErrs + Kept(r.err);
        store' := r.store;
        done := done + [contents[j]];
        n := n + 1;
      }
      FlattenStep(listing.pages, p);
      assert contents[..|contents|] == contents;
    }
    assert listing.pages[..|listing.pages|] == listing.pages;
    if listing.err.Some? {
      err := Some(DeletionFailed(prefix, listing.err, deletionErrs));
    } else if |deletionErrs| != 0 {
      err := Some(DeletionFailed(prefix, None, deletionErrs));
    } else {
      err := None;
    }
  }

  // ---------------------------------------------------------------------
  // Legacy dual-mode facade: reads redirect, writes go through the service

  function LegacyGet(l: LegacyBlobStore, path: string, presign: Presigner): (r: GetResult)
    ensures r == PureRedirectGet(l.pureRedirect, path, presign)
  {
    PureRedirectGet(l.pureRedirect, path, presign)
  }

  function LegacyHead(l: LegacyBlobStore, path: string, presign: Presigner): (r: RedirectResult)
    ensures r == PureRedirectHead(l.pureRedirect, path, presign)
  {
    PureRedirectHead(l.pureRedirect, path, presign)
  }

  function LegacyPut(l: LegacyBlobStore, path: string, src: Bytes, store: Store, fault: Option<SdkError>): (r: WriteResult)
    ensures r == NoRedirectPut(l.noRedirect, path, src, store, fault)
  {
    NoRedirectPut(l.noRedirect, path, src, store, fault)
  }

  function LegacyCopy(l: LegacyBlobStore, src: string, dest: string, store: Store, fault: Option<SdkError>): (r: WriteResult)
    ensures r == NoRedirectCopy(l.noRedirect, src, dest, store, fault)
  {
    NoRedirectCopy(l.noRedirect, src, dest, store, fault)
  }

  function LegacyExists(l: LegacyBlobStore, path: string, store: Store, fault: Option<SdkError>): (r: ExistsResult)
    ensures r == NoRedirectExists(l.noRedirect, path, store, fault)
  {
    NoRedirectExists(l.noRedirect, path, store, fault)
  }

  function LegacyDelete(l: LegacyBlobStore, path: string, store: Store, fault: Option<SdkError>): (r: Update)
    ensures r == NoRedirectDelete(l.noRedirect, path, store, fault)
  {
    NoRedirectDelete(l.noRedirect, path, store, fault)
  }

  method LegacyDeletePrefix(l: LegacyBlobStore, prefix: string, listing: Listing, store: Store, faults: nat -> Option<SdkError>)
    returns (err: Option<Error>, store': Store)
    ensures var d := DeleteKeys(l.noRedirect, Flatten(listing.pages), store, faults);
      store' == d.store && err == PrefixOutcome(prefix, listing.err, d.errs)
  {
    err, store' := DeletePrefix(l.noRedirect, prefix, listing, store, faults);
  }

  // ---------------------------------------------------------------------
  // Properties of the no-redirect store over the abstract service

  /** Without injected failures, Get returns exactly what is stored and
      NotFoundError for anything else. */
  lemma GetReflectsStore(b: NoRedirectBlobStore, path: string, store: Store)
    ensures var r := NoRedirectGet(b, path, store, None);
      (Present(store, b.bucket, path) ==> r == GetResult(Some(store[b.bucket][path]), "", None)) &&
      (!Present(store, b.bucket, path) ==> r == GetResult(None, "", Some(NotFoundError)))
  {
  }

  /** Without injected failures, Exists answers whether the object is stored
      and never fails. */
  lemma ExistsReflectsStore(b: NoRedirectBlobStore, path: string, store: Store)
    ensures NoRedirectExists(b, path, store, None) == ExistsResult(Present(store, b.bucket, path), None)
  {
  }

  /** Put then Get yields exactly the content put, and Exists is true. */
  lemma PutThenGet(b: NoRedirectBlobStore, path: string, data: Bytes, store: Store)
    requires b.bucket in store
    ensures var w := NoRedirectPut(b, path, data, store, None);
      w.err.None? &&
      NoRedirectGet(b, path, w.store, None) == GetResult(Some(data), "", None) &&
      NoRedirectExists(b, path, w.store, None) == ExistsResult(true, None)
  {
  }

  /** After Delete, Exists is false and Get reports NotFoundError. */
  lemma DeleteThenAbsent(b: NoRedirectBlobStore, path: string, store: Store)
    requires b.bucket in store
    ensures var d := NoRedirectDelete(b, path, store, None);
      d.err.None? &&
      NoRedirectExists(b, path, d.store, None) == ExistsResult(false, None) &&
      NoRedirectGet(b, path, d.store, None).err == Some(NotFoundError)
  {
  }

  /** Copy copies src to dest within the bucket and changes nothing else; a
      missing src is NotFoundError and changes nothing. */
  lemma CopyCopies(b: NoRedirectBlobStore, src: string, dest: string, store: Store)
    requires forall i :: 0 <= i < |b.bucket| ==> b.bucket[i] != '/'
    requires b.bucket in store
    ensures var r := NoRedirectCopy(b, src, dest, store, None);
      (src in store[b.bucket] ==>
        r.err.None? && r.store == store[b.bucket := store[b.bucket][dest := store[b.bucket][src]]]) &&
      (src !in store[b.bucket] ==> r.err == Some(NotFoundError) && r.store == store)
  {
    S3Api.SplitJoined(b.bucket, src);
  }

  /** The legacy facade never streams a body on reads: Get and Head both
      answer with a presigned GET URL. Writes go through the service and
      never answer with a redirect. */
  lemma LegacyReadsRedirectWritesDirect(l: LegacyBlobStore, path: string, src: string, data: Bytes,
                                        store: Store, fault: Option<SdkError>, presign: Presigner)
    ensures LegacyGet(l, path, presign).body.None?
    ensures LegacyGet(l, path, presign).redirectLocation == LegacyHead(l, path, presign).redirectLocation
    ensures LegacyGet(l, path, presign).err == LegacyHead(l, path, presign).err
    ensures LegacyPut(l, path, data, store, fault).redirectLocation == ""
    ensures LegacyCopy(l, src, path, store, fault).redirectLocation == ""
  {
  }

  // ---------------------------------------------------------------------
  // Properties of prefix deletion

  /** The error each listed key's delete reports when judged on its own
      against the store as it was before the deletion began. */
  function DeleteErrors(b: NoRedirectBlobStore, keys: seq<string>, store: Store, faults: nat -> Option<SdkError>): (es: seq<Option<Error>>)
    ensures |es| == |keys|
    ensures forall i :: 0 <= i < |keys| ==> es[i] == NoRedirectDelete(b, keys[i], store, faults(i)).err
  {
    seq(|keys|, i requires 0 <= i < |keys| => NoRedirectDelete(b, keys[i], store, faults(i)).err)
  }

  /** No delete changes which buckets exist, so no earlier delete changes the
      outcome of a later one: the failures collected are those of the keys
      judged one by one, in listing order. */
  lemma {:induction false} DeleteKeysErrors(b: NoRedirectBlobStore, keys: seq<string>, store: Store, faults: nat -> Option<SdkError>)
    ensures DeleteKeys(b, keys, store, faults).errs == Collect(DeleteErrors(b, keys, store, faults))
  {
    if keys != [] {
      var init := keys[..|keys| - 1];
      var last := keys[|keys| - 1];
      DeleteKeysErrors(b, init, store, faults);
      DeleteKeysBuckets(b, init, store, faults);
      var prev := DeleteKeys(b, init, store, faults);
      DeleteSameBuckets(b, last, prev.store, store, faults(|keys| - 1));
      var es := DeleteErrors(b, keys, store, faults);
      assert es[..|es| - 1] == DeleteErrors(b, init, store, faults);
      assert Collect(es) == Collect(es[..|es| - 1]) + Kept(es[|es| - 1]);
    }
  }

  /** No delete adds or drops a bucket. */
  lemma {:induction false} DeleteKeysBuckets(b: NoRedirectBlobStore, keys: seq<string>, store: Store, faults: nat -> Option<SdkError>)
    ensures DeleteKeys(b, keys, store, faults).store.Keys == store.Keys
  {
    if keys != [] {
      var init := keys[..|keys| - 1];
      DeleteKeysBuckets(b, init, store, faults);
      var prev := DeleteKeys(b, init, store, faults);
      DeleteSameBuckets(b, keys[|keys| - 1], prev.store, store, faults(|keys| - 1));
    }
  }

  /** A delete's error depends on the store only through which buckets
      exist, and a delete adds or drops no bucket. */
  lemma DeleteSameBuckets(b: NoRedirectBlobStore, key: string, s1: Store, s2: Store, fault: Option<SdkError>)
    requires s1.Keys == s2.Keys
    ensures NoRedirectDelete(b, key, s1, fault).err == NoRedirectDelete(b, key, s2, fault).err
    ensures NoRedirectDelete(b, key, s1, fault).store.Keys == s1.Keys
  {
  }

  /** DeletePrefix succeeds exactly when the listing succeeded and every
      listed key was deleted or already gone. */
  lemma DeletePrefixSucceedsIff(b: NoRedirectBlobStore, prefix: string, listing: Listing, store: Store, faults: nat -> Option<SdkError>)
    ensures var keys := Flatten(listing.pages);
      PrefixOutcome(prefix, listing.err, DeleteKeys(b, keys, store, faults).errs).None? <==>
        listing.err.None? &&
        forall i :: 0 <= i < |keys| ==>
          NoRedirectDelete(b, keys[i], store, faults(i)).err.None? ||
          NoRedirectDelete(b, keys[i], store, faults(i)).err.value.NotFoundError?
  {
    var keys := Flatten(listing.pages);
    DeleteKeysErrors(b, keys, store, faults);
    CollectEmpty(DeleteErrors(b, keys, store, faults));
  }

  /** Every delete of `key` among `keys` met an injected failure. */
  predicate Survives(keys: seq<string>, faults: nat -> Option<SdkError>, key: string) {
    forall i :: 0 <= i < |keys| && keys[i] == key ==> faults(i).Some?
  }

  /** The store after the deletes: other buckets are untouched, and a key of
      the bucket is gone exactly when one of its deletes went through. */
  lemma {:induction false} DeleteKeysStore(b: NoRedirectBlobStore, keys: seq<string>, store: Store, faults: nat -> Option<SdkError>)
    ensures var s := DeleteKeys(b, keys, store, faults).store;
      s.Keys == store.Keys &&
      (forall x :: x in store && x != b.bucket ==> s[x] == store[x]) &&
      (b.bucket in store ==>
        (forall k :: k in s[b.bucket] <==> k in store[b.bucket] && Survives(keys, faults, k)) &&
        (forall k :: k in s[b.bucket] ==> s[b.bucket][k] == store[b.bucket][k]))
  {
    if keys != [] {
      var init := keys[..|keys| - 1];
      DeleteKeysStore(b, init, store, faults);
      assert forall i :: 0 <= i < |init| ==> init[i] == keys[i];
      var last := keys[|keys| - 1];
      forall k
        ensures Survives(keys, faults, k) <==> Survives(init, faults, k) && (last == k ==> faults(|keys| - 1).Some?)
      {
        if Survives(init, faults, k) && (last == k ==> faults(|keys| - 1).Some?) {
          forall i | 0 <= i < |keys| && keys[i] == k ensures faults(i).Some? {
            if i < |init| { assert init[i] == k; }
          }
        }
      }
    }
  }

  /** With no injected failures and a listing of exactly the keys under the
      prefix, DeletePrefix succeeds, removes every key under the prefix and
      leaves every other key and bucket untouched. */
  lemma DeletePrefixCleansPrefix(b: NoRedirectBlobStore, prefix: string, listing: Listing, store: Store, faults: nat -> Option<SdkError>)
    requires b.bucket in store && listing.err.None?
    requires forall i :: faults(i).None?
    requires forall k :: k in Flatten(listing.pages) <==> k in store[b.bucket] && HasPrefix(k, prefix)
    ensures var d := DeleteKeys(b, Flatten(listing.pages), store, faults);
      PrefixOutcome(prefix, listing.err, d.errs).None? &&
      d.store == store[b.bucket := map k | k in store[b.bucket] && !HasPrefix(k, prefix) :: store[b.bucket][k]]
  {
    var keys := Flatten(listing.pages);
    var d := DeleteKeys(b, keys, store, faults);
    NothingFails(b, keys, store, faults);
    DeleteKeysStore(b, keys, store, faults);
    SurvivesNothing(keys, faults);
    UnlistedRemain(store[b.bucket], d.store[b.bucket], keys, prefix);
    assert d.store == store[b.bucket := d.store[b.bucket]];
  }

  /** Without injected failures in an existing bucket, no delete fails. */
  lemma NothingFails(b: NoRedirectBlobStore, keys: seq<string>, store: Store, faults: nat -> Option<SdkError>)
    requires b.bucket in store
    requires forall i :: faults(i).None?
    ensures DeleteKeys(b, keys, store, faults).errs == []
  {
    DeleteKeysErrors(b, keys, store, faults);
    var es := DeleteErrors(b, keys, store, faults);
    assert forall i :: 0 <= i < |es| ==> es[i].None?;
    CollectEmpty(es);
  }

  /** Without injected failures, only unlisted keys survive. */
  lemma SurvivesNothing(keys: seq<string>, faults: nat -> Option<SdkError>)
    requires forall i :: faults(i).None?
    ensures forall k :: Survives(keys, faults, k) <==> k !in keys
  {
    forall k | k in keys ensures !Survives(keys, faults, k) {
      var i :| 0 <= i < |keys| && keys[i] == k;
      assert faults(i).None?;
    }
  }
}
