/** The GCS adapter of blobstores/gcp/gcp_blobstore.go: construction with
    validation and defaults, the retry loop laid over every network call,
    the classification of errors into retryable and permanent, the
    translation of "object does not exist" into NotFoundError after a bucket
    check, the single-object operations, directory deletion and URL signing.
    The storage client is the abstract service of module GcsApi. */
module GcpBlobstore {
  import opened BlobTypes
  import GcsApi

  /** storage.ScopeFullControl */
  const ScopeFullControl: string := "https://www.googleapis.com/auth/devstorage.full_control"

  const DefaultRetryTimeoutSeconds: int := 5

  /** time.Second, in nanoseconds: the unit of time.Duration. */
  const NanosPerSecond: int := 1_000_000_000

  /** The retries every operation asks WithRetries for. */
  const OperationRetries: nat := 4

  /** time.Hour, the lifetime of a GetOrRedirect URL, in seconds. */
  const RedirectLifetime: int := 3600

  datatype GCPBlobstoreConfig = GCPBlobstoreConfig(
    bucket: string, email: string, privateKey: string, privateKeyID: string,
    tokenURL: string, retryTimeoutSeconds: int)

  datatype JwtConfig = JwtConfig(
    email: string, privateKey: string, privateKeyID: string, scopes: seq<string>, tokenURL: string)

  /** The client is the abstract service; `retryTimeout` is a time.Duration in nanoseconds. */
  datatype Blobstore = Blobstore(jwtConfig: JwtConfig, bucket: string, retryTimeout: int)

  /** The ways the adapter panics. */
  datatype Panic =
    | EmptyConfigValue             // validate.NotEmpty on an empty field
    | ClientFailed(cause: SdkError)  // storage.NewClient failed
    | UnsupportedMethod            // Sign with a method it refuses
    | SigningFailed(cause: SdkError) // storage.SignedURL failed in Sign

  // ---------------------------------------------------------------------
  // Construction

  predicate ConfigComplete(config: GCPBlobstoreConfig) {
    config.bucket != "" && config.email != "" && config.privateKey != "" &&
    config.privateKeyID != "" && config.tokenURL != ""
  }

  /** NewBlobstore; `clientErr` is what storage.NewClient reports. */
  function NewBlobstore(config: GCPBlobstoreConfig, clientErr: Option<SdkError>): (r: Result<Blobstore, Panic>)
    ensures r.Ok? <==> ConfigComplete(config) && clientErr.None?
    ensures !ConfigComplete(config) ==> r == Err(EmptyConfigValue)
    ensures ConfigComplete(config) && clientErr.Some? ==> r == Err(ClientFailed(clientErr.value))
    ensures r.Ok? ==>
      r.value.bucket == config.bucket &&
      r.value.jwtConfig == JwtConfig(config.email, config.privateKey, config.privateKeyID, [ScopeFullControl], config.tokenURL) &&
      (config.retryTimeoutSeconds == 0 ==> r.value.retryTimeout == 5 * NanosPerSecond) &&
      (config.retryTimeoutSeconds != 0 ==> r.value.retryTimeout == config.retryTimeoutSeconds * NanosPerSecond)
  {
    if config.bucket == "" || config.email == "" || config.privateKey == "" ||
       config.privateKeyID == "" || config.tokenURL == "" then
      Err(EmptyConfigValue)
    else if clientErr.Some? then
      Err(ClientFailed(clientErr.value))
    else
      var seconds := if config.retryTimeoutSeconds == 0 then DefaultRetryTimeoutSeconds else config.retryTimeoutSeconds;
      Ok(Blobstore(
        JwtConfig(config.email, config.privateKey, config.privateKeyID, [ScopeFullControl], config.tokenURL),
        config.bucket,
        seconds * NanosPerSecond))
  }

  // ---------------------------------------------------------------------
  // Retries

  /** What an operation handed to WithRetries returns: nil, an error wrapped
      by backoff.Permanent (which may wrap nil), or any other error. */
  datatype OpResult = Nil | PermanentError(err: Option<SdkError>) | RetryableError(cause: SdkError)

  /** TimeoutOrPermanent: an error whose Timeout() is true stays retryable;
      everything else, nil included, is marked permanent. */
  function TimeoutOrPermanent(e: Option<SdkError>): (r: OpResult)
    ensures !r.Nil?
    ensures r.RetryableError? <==> e.Some? && IsTimeout(e.value)
    ensures r.RetryableError? ==> r.cause == e.value
    ensures r.PermanentError? ==> r.err == e
  {
    if e.Some? && IsTimeout(e.value) then RetryableError(e.value) else PermanentError(e)
  }

  /** The retries backoff.WithMaxRetries(backoff.NewExponentialBackOff(),
      numRetries) grants, when the exponential policy's own elapsed-time
      limit allows `clock` more waits. A numRetries of 0 sets no limit. */
  function RetryCap(numRetries: nat, clock: nat): (cap: nat)
    ensures cap <= clock
    ensures numRetries > 0 ==> cap <= numRetries
    ensures numRetries == 0 ==> cap == clock
    ensures cap == clock || cap == numRetries
  {
    if numRetries > 0 && numRetries < clock then numRetries else clock
  }

  /** The error backoff.Retry returns and the number of calls it made. */
  datatype Retried = Retried(err: Option<SdkError>, calls: nat)

  /** backoff.Retry from call number i on, `cap` retries being granted in
      all: it calls f until f returns nil or a permanent error, or until no
      retry is left, and it retries nothing else. */
  function RetryRun(f: nat -> OpResult, cap: nat, i: nat): (r: Retried)
    requires i <= cap
    decreases cap - i
    ensures 1 <= r.calls <= cap - i + 1
    ensures forall j :: i <= j < i + r.calls - 1 ==> f(j).RetryableError?
    ensures f(i + r.calls - 1).Nil? ==> r.err.None?
    ensures f(i + r.calls - 1).PermanentError? ==> r.err == f(i + r.calls - 1).err
    ensures f(i + r.calls - 1).RetryableError? ==>
      r.calls == cap - i + 1 && r.err == Some(f(i + r.calls - 1).cause)
  {
    match f(i)
    case Nil => Retried(None, 1)
    case PermanentError(e) => Retried(e, 1)
    case RetryableError(e) =>
      if i == cap then Retried(Some(e), 1)
      else
        var rest := RetryRun(f, cap, i + 1);
        Retried(rest.err, rest.calls + 1)
  }

  /** WithRetries: the attempt loop of backoff.Retry. */
  method WithRetries(numRetries: nat, clock: nat, f: nat -> OpResult) returns (e: Option<SdkError>, ghost calls: nat)
    ensures e == RetryRun(f, RetryCap(numRetries, clock), 0).err
    ensures calls == RetryRun(f, RetryCap(numRetries, clock), 0).calls
  {
    ghost var cap := RetryCap(numRetries, clock);
    var tries: nat := 0;
    while true
      invariant tries <= cap
      invariant RetryRun(f, cap, 0).err == RetryRun(f, cap, tries).err
      invariant RetryRun(f, cap, 0).calls == tries + RetryRun(f, cap, tries).calls
      decreases cap - tries
    {
      var r := f(tries);
      if r.Nil? {
        return None, tries + 1;
      }
      if r.PermanentError? {
        return r.err, tries + 1;
      }
      // NextBackOff: the retry limit, then the exponential policy's clock
      if (numRetries > 0 && tries >= numRetries) || tries >= clock {
        return Some(r.cause), tries + 1;
      }
      tries := tries + 1;
    }
  }

  /** The operation an adapter hands to WithRetries: one SDK call, its error
      classified by TimeoutOrPermanent. */
  function Classified(raw: nat -> Option<SdkError>): nat -> OpResult {
    (i: nat) => TimeoutOrPermanent(raw(i))
  }

  /** WithRetries(4, …) over SDK calls whose i-th attempt reports raw(i):
      one to five attempts, and the error is the last attempt's own. */
  function Retries(raw: nat -> Option<SdkError>, clock: nat): (r: Retried)
    ensures 1 <= r.calls <= OperationRetries + 1
    ensures r.err == raw(r.calls - 1)
  {
    var run := RetryRun(Classified(raw), RetryCap(OperationRetries, clock), 0);
    assert Classified(raw)(run.calls - 1) == TimeoutOrPermanent(raw(run.calls - 1));
    run
  }

  // ---------------------------------------------------------------------
  // Error handling

  /** The environment of one operation: the failure injected into each
      attempt, the waits the exponential policy's clock allows, and the
      failure injected into the follow-up bucket check. */
  datatype Env = Env(attemptFault: nat -> Option<SdkError>, clock: nat, bucketFault: Option<SdkError>)

  /** An environment that injects no failure. */
  ghost predicate Calm(env: Env) {
    (forall i :: env.attemptFault(i).None?) && env.bucketFault.None?
  }

  function BucketCheckContext(b: Blobstore): string {
    "Error while checking for bucket existence. Bucket '" + b.bucket + "'"
  }

  /** bucketExists: nil, or the bucket's Attrs failure wrapped. */
  function BucketExists(b: Blobstore, store: Store, fault: Option<SdkError>): (r: Option<Error>)
    ensures r.None? <==> GcsApi.BucketAttrs(store, b.bucket, fault).None?
    ensures r.Some? ==> r.value == Wrapped(GcsApi.BucketAttrs(store, b.bucket, fault).value, BucketCheckContext(b))
  {
    match GcsApi.BucketAttrs(store, b.bucket, fault)
    case None => None
    case Some(e) => Some(Wrapped(e, BucketCheckContext(b)))
  }

  /** handleError: ErrObjectNotExist becomes NotFoundError only when a
      second check finds the bucket; a failing check is returned instead.
      Every other error is wrapped with the context. */
  function HandleError(b: Blobstore, e: SdkError, context: string, store: Store, bucketFault: Option<SdkError>): (r: Error)
    ensures r.NotFoundError? <==> e == ObjectNotExist && BucketExists(b, store, bucketFault).None?
    ensures e == ObjectNotExist && BucketExists(b, store, bucketFault).Some? ==>
      r == BucketExists(b, store, bucketFault).value
    ensures e != ObjectNotExist ==> r == Wrapped(e, context)
  {
    if e == ObjectNotExist then
      match BucketExists(b, store, bucketFault)
      case Some(bucketErr) => bucketErr
      case None => NotFoundError
    else
      Wrapped(e, context)
  }

  // ---------------------------------------------------------------------
  // Single-object operations

  datatype ExistsResult = ExistsResult(present: bool, err: Option<Error>)

  /** (body, err) of Get. */
  datatype BodyResult = BodyResult(body: Option<Bytes>, err: Option<Error>)

  /** (body, redirectLocation, err) of GetOrRedirect. */
  datatype RedirectBody = RedirectBody(body: Option<Bytes>, redirectLocation: string, err: Option<Error>)

  function ExistsContext(b: Blobstore, path: string): string {
    "Failed to check for " + b.bucket + "/" + path
  }

  function AttrsAttempts(b: Blobstore, path: string, store: Store, env: Env): nat -> Option<SdkError> {
    (i: nat) => GcsApi.ObjectAttrs(store, b.bucket, path, env.attemptFault(i))
  }

  /** Exists: true on success; a classified NotFoundError is false without
      error; any other error is false with that error. */
  function Exists(b: Blobstore, path: string, store: Store, env: Env): (r: ExistsResult)
    ensures var e := Retries(AttrsAttempts(b, path, store, env), env.clock).err;
      (e.None? ==> r == ExistsResult(true, None)) &&
      (e.Some? ==>
        var h := HandleError(b, e.value, ExistsContext(b, path), store, env.bucketFault);
        !r.present && (h.NotFoundError? ==> r.err.None?) && (!h.NotFoundError? ==> r.err == Some(h)))
  {
    var e := Retries(AttrsAttempts(b, path, store, env), env.clock).err;
    if e.None? then ExistsResult(true, None)
    else
      var h := HandleError(b, e.value, ExistsContext(b, path), store, env.bucketFault);
      if h.NotFoundError? then ExistsResult(false, None) else ExistsResult(false, Some(h))
  }

  /** Get: one NewReader call, without retries. */
  function Get(b: Blobstore, path: string, store: Store, fault: Option<SdkError>, bucketFault: Option<SdkError>): (r: BodyResult)
    ensures r.body.Some? <==> r.err.None?
    ensures var resp := GcsApi.NewReader(store, b.bucket, path, fault);
      (resp.Ok? ==> r.body == Some(resp.value)) &&
      (resp.Err? ==> r.err == Some(HandleError(b, resp.error, "Path " + path, store, bucketFault)))
  {
    match GcsApi.NewReader(store, b.bucket, path, fault)
    case Ok(body) => BodyResult(Some(body), None)
    case Err(e) => BodyResult(None, Some(HandleError(b, e, "Path " + path, store, bucketFault)))
  }

  /** GetOrRedirect: never a body; a GET URL expiring one hour after `now`.
      A signing failure is passed on unwrapped. */
  function GetOrRedirect(b: Blobstore, path: string, now: int, signer: GcsApi.Signer): (r: RedirectBody)
    ensures r.body.None?
    ensures var resp := signer(b.bucket, path,
        GcsApi.SignedURLOptions(b.jwtConfig.email, b.jwtConfig.privateKey, "GET", now + RedirectLifetime));
      (resp.Ok? ==> r.redirectLocation == resp.value && r.err.None?) &&
      (resp.Err? ==> r.redirectLocation == "" && r.err == Some(Unwrapped(resp.error)))
  {
    var options := GcsApi.SignedURLOptions(b.jwtConfig.email, b.jwtConfig.privateKey, "GET", now + RedirectLifetime);
    match signer(b.bucket, path, options)
    case Ok(url) => RedirectBody(None, url, None)
    case Err(e) => RedirectBody(None, "", Some(Unwrapped(e)))
  }

  /** Put: checks the bucket first and, if that fails, returns its error
      and writes nothing; then writes the object. `writeFault` is the
      failure of copying the source in or of closing the writer. */
  function Put(b: Blobstore, path: string, src: Bytes, store: Store,
               bucketFault: Option<SdkError>, writeFault: Option<SdkError>): (r: Update)
    ensures BucketExists(b, store, bucketFault).Some? ==> r == Update(BucketExists(b, store, bucketFault), store)
    ensures BucketExists(b, store, bucketFault).None? ==>
      var w := GcsApi.Write(store, b.bucket, path, src, writeFault);
      r.store == w.store &&
      (w.err.None? <==> r.err.None?) &&
      (w.err.Some? ==> r.err == Some(Wrapped(w.err.value, "Path " + path)))
  {
    var bucketErr := BucketExists(b, store, bucketFault);
    if bucketErr.Some? then Update(bucketErr, store)
    else
      var w := GcsApi.Write(store, b.bucket, path, src, writeFault);
      match w.err
      case None => Update(None, w.store)
      case Some(e) => Update(Some(Wrapped(e, "Path " + path)), w.store)
  }

  function CopyContext(b: Blobstore, src: string, dest: string): string {
    "Error while trying to copy src " + src + " to dest " + dest + " in bucket " + b.bucket
  }

  function CopyAttempts(b: Blobstore, src: string, dest: string, store: Store, env: Env): nat -> Option<SdkError> {
    (i: nat) => GcsApi.CopierRun(store, b.bucket, src, dest, env.attemptFault(i)).err
  }

  /** Copy: retried server-side copy within the bucket. Failed attempts
      change nothing, so the store is the one the last attempt leaves. */
  function Copy(b: Blobstore, src: string, dest: string, store: Store, env: Env): (r: Update)
    ensures var run := Retries(CopyAttempts(b, src, dest, store, env), env.clock);
      (run.err.None? ==> r == Update(None, GcsApi.CopierRun(store, b.bucket, src, dest, None).store)) &&
      (run.err.Some? ==> r == Update(Some(HandleError(b, run.err.value, CopyContext(b, src, dest), store, env.bucketFault)), store))
  {
    var run := Retries(CopyAttempts(b, src, dest, store, env), env.clock);
    var last := GcsApi.CopierRun(store, b.bucket, src, dest, env.attemptFault(run.calls - 1));
    if run.err.None? then Update(None, last.store)
    else Update(Some(HandleError(b, run.err.value, CopyContext(b, src, dest), store, env.bucketFault)), last.store)
  }

  function DeleteAttempts(b: Blobstore, path: string, store: Store, env: Env): nat -> Option<SdkError> {
    (i: nat) => GcsApi.DeleteObject(store, b.bucket, path, env.attemptFault(i)).err
  }

  /** Delete: retried delete; a missing object is NotFoundError when the
      bucket check passes. */
  function Delete(b: Blobstore, path: string, store: Store, env: Env): (r: Update)
    ensures var run := Retries(DeleteAttempts(b, path, store, env), env.clock);
      (run.err.None? ==> r == Update(None, GcsApi.DeleteObject(store, b.bucket, path, None).store)) &&
      (run.err.Some? ==> r == Update(Some(HandleError(b, run.err.value, "Path " + path, store, env.bucketFault)), store))
  {
    var run := Retries(DeleteAttempts(b, path, store, env), env.clock);
    var last := GcsApi.DeleteObject(store, b.bucket, path, env.attemptFault(run.calls - 1));
    if run.err.None? then Update(None, last.store)
    else Update(Some(HandleError(b, run.err.value, "Path " + path, store, env.bucketFault)), last.store)
  }

  // ---------------------------------------------------------------------
  // Directory deletion

  /** One result of the object iterator's Next(): an object, or a failure.
      The end of the sequence is iterator.Done. */
  datatype IterStep = Next(name: string) | IterFailed(err: SdkError)

  /** The names the iterator yields before its first failure. */
  function ListedNames(steps: seq<IterStep>): seq<string>
    decreases |steps|
  {
    if steps == [] || steps[0].IterFailed? then [] else [steps[0].name] + ListedNames(steps[1..])
  }

  /** The iterator's first failure, if any. */
  function ListingError(steps: seq<IterStep>): Option<SdkError>
    decreases |steps|
  {
    if steps == [] then None
    else if steps[0].IterFailed? then Some(steps[0].err)
    else ListingError(steps[1..])
  }

  /** The names listed are the objects of the steps up to the first failure;
      the listing fails exactly when a failing step comes, and with its error. */
  lemma {:induction false} ListingPrefix(steps: seq<IterStep>)
    ensures var names := ListedNames(steps);
      |names| <= |steps| &&
      (forall i :: 0 <= i < |names| ==> steps[i] == Next(names[i])) &&
      (ListingError(steps).None? <==> |names| == |steps|) &&
      (ListingError(steps).Some? ==> steps[|names|] == IterFailed(ListingError(steps).value))
    decreases |steps|
  {
    if steps != [] && steps[0].Next? {
      ListingPrefix(steps[1..]);
      var rest := ListedNames(steps[1..]);
      assert ListedNames(steps) == [steps[0].name] + rest;
      forall i | 1 <= i < |rest| + 1
        ensures steps[i] == Next(ListedNames(steps)[i])
      {
        assert steps[i] == steps[1..][i - 1];
      }
    }
  }

  /** The deletes DeleteDir performs for `keys`, one after the other; the
      i-th delete runs in environment envs(i). */
  function DeleteKeys(b: Blobstore, keys: seq<string>, store: Store, envs: nat -> Env): (d: Deletion)
    decreases |keys|
  {
    if keys == [] then Deletion([], store)
    else
      var prev := DeleteKeys(b, keys[..|keys| - 1], store, envs);
      var r := Delete(b, keys[|keys| - 1], prev.store, envs(|keys| - 1));
      Deletion(prev.errs + Kept(r.err), r.store)
  }

  /** What DeleteDir returns once the deletes `d` are over: an iterator
      failure aborts with that failure wrapped; otherwise the collected
      failures, if any. */
  function DirOutcome(prefix: string, listingErr: Option<SdkError>, d: Deletion): (r: Update)
    ensures r.store == d.store
    ensures r.err.None? <==> listingErr.None? && d.errs == []
    ensures listingErr.Some? ==> r.err == Some(Wrapped(listingErr.value, "Prefix " + prefix))
    ensures listingErr.None? && d.errs != [] ==> r.err == Some(DeletionFailed(prefix, None, d.errs))
  {
    if listingErr.Some? then Update(Some(Wrapped(listingErr.value, "Prefix " + prefix)), d.store)
    else if d.errs != [] then Update(Some(DeletionFailed(prefix, None, d.errs)), d.store)
    else Update(None, d.store)
  }

  /** DeleteDir over the iterator's `steps`: an iterator failure is the
      error; otherwise any error reports at least one failure. */
  function DeleteDirOutcome(b: Blobstore, prefix: string, steps: seq<IterStep>, store: Store, envs: nat -> Env): (r: Update)
    ensures ListingError(steps).Some? ==> r.err == Some(Wrapped(ListingError(steps).value, "Prefix " + prefix))
    ensures ListingError(steps).None? && r.err.Some? ==>
      r.err.value.DeletionFailed? && r.err.value.failures != []
  {
    DirOutcome(prefix, ListingError(steps), DeleteKeys(b, ListedNames(steps), store, envs))
  }

  lemma DeleteKeysStep(b: Blobstore, done: seq<string>, key: string, store: Store, envs: nat -> Env)
    ensures var prev := DeleteKeys(b, done, store, envs);
      var r := Delete(b, key, prev.store, envs(|done|));
      DeleteKeys(b, done + [key], store, envs) == Deletion(prev.errs + Kept(r.err), r.store)
  {
    assert (done + [key])[..|done|] == done;
  }

  lemma ListingStep(steps: seq<IterStep>, i: nat)
    requires i < |steps|
    ensures steps[i].Next? ==>
      ListedNames(steps[i..]) == [steps[i].name] + ListedNames(steps[i + 1..]) &&
      ListingError(steps[i..]) == ListingError(steps[i + 1..])
    ensures steps[i].IterFailed? ==>
      ListedNames(steps[i..]) == [] && ListingError(steps[i..]) == Some(steps[i].err)
  {
    assert steps[i..][1..] == steps[i + 1..];
  }

  /** The iterator was exhausted after yielding `done`. */
  lemma ListingFinished(steps: seq<IterStep>, done: seq<string>)
    requires done + ListedNames(steps[|steps|..]) == ListedNames(steps)
    requires ListingError(steps[|steps|..]) == ListingError(steps)
    ensures done == ListedNames(steps) && ListingError(steps).None?
  {
    assert steps[|steps|..] == [];
  }

  /** The iterator failed at step i after yielding `done`. */
  lemma ListingAborted(steps: seq<IterStep>, i: nat, done: seq<string>)
    requires i < |steps| && steps[i].IterFailed?
    requires done + ListedNames(steps[i..]) == ListedNames(steps)
    requires ListingError(steps[i..]) == ListingError(steps)
    ensures done == ListedNames(steps) && ListingError(steps) == Some(steps[i].err)
  {
    ListingStep(steps, i);
  }

  /** Step i yields one more name. */
  lemma ListingAdvanced(steps: seq<IterStep>, i: nat, done: seq<string>)
    requires i < |steps| && steps[i].Next?
    requires done + ListedNames(steps[i..]) == ListedNames(steps)
    requires ListingError(steps[i..]) == ListingError(steps)
    ensures (done + [steps[i].name]) + ListedNames(steps[i + 1..]) == ListedNames(steps)
    ensures ListingError(steps[i + 1..]) == ListingError(steps)
  {
    ListingStep(steps, i);
  }

  /** DeleteDir: delete every object the iterator yields, in order, keeping
      every failure other than NotFoundError; abort on an iterator failure. */
  method DeleteDir(b: Blobstore, prefix: string, steps: seq<IterStep>, store: Store, envs: nat -> Env)
    returns (err: Option<Error>, store': Store)
    ensures Update(err, store') == DeleteDirOutcome(b, prefix, steps, store, envs)
  {
    var deletionErrs: seq<Error> := [];
    store' := store;
    ghost var done: seq<string> := [];
    var i := 0;
    assert steps[0..] == steps;
    while i < |steps|
      invariant 0 <= i <= |steps| && |done| == i
      invariant done + ListedNames(steps[i..]) == ListedNames(steps)
      invariant ListingError(steps[i..]) == ListingError(steps)
      invariant DeleteKeys(b, done, store, envs) == Deletion(deletionErrs, store')
    {
      if steps[i].IterFailed? {
        ListingAborted(steps, i, done);
        return Some(Wrapped(steps[i].err, "Prefix " + prefix)), store';
      }
      var name := steps[i].name;
      ListingAdvanced(steps, i, done);
      var r := Delete(b, name, store', envs(i));
      DeleteKeysStep(b, done, name, store, envs);
      deletionErrs := deletionErrs + Kept(r.err);
      store' := r.store;
      done := done + [name];
      i := i + 1;
    }
    ListingFinished(steps, done);
    if |deletionErrs| != 0 {
      err := Some(DeletionFailed(prefix, None, deletionErrs));
    } else {
      err := None;
    }
  }

  // ---------------------------------------------------------------------
  // Signing

  function LowerChar(c: char): char {
    if 'A' <= c <= 'Z' then (c as int + 32) as char else c
  }

  function UpperChar(c: char): char {
    if 'a' <= c <= 'z' then (c as int - 32) as char else c
  }

  /** strings.ToLower, on ASCII letters. */
  function ToLower(s: string): (r: string)
    ensures |r| == |s| && forall i :: 0 <= i < |s| ==> r[i] == LowerChar(s[i])
  {
    seq(|s|, i requires 0 <= i < |s| => LowerChar(s[i]))
  }

  /** strings.ToUpper, on ASCII letters. */
  function ToUpper(s: string): (r: string)
    ensures |r| == |s| && forall i :: 0 <= i < |s| ==> r[i] == UpperChar(s[i])
  {
    seq(|s|, i requires 0 <= i < |s| => UpperChar(s[i]))
  }

  /** The options Sign hands to the signer. */
  function SignOptions(b: Blobstore, verb: string, expiration: int): GcsApi.SignedURLOptions {
    GcsApi.SignedURLOptions(b.jwtConfig.email, b.jwtConfig.privateKey, ToUpper(verb), expiration)
  }

  /** "get" in any mix of cases. */
  predicate IsGetAnyCase(verb: string) {
    |verb| == 3 && (verb[0] == 'g' || verb[0] == 'G') && (verb[1] == 'e' || verb[1] == 'E') &&
    (verb[2] == 't' || verb[2] == 'T')
  }

  /** Sign: panics unless the lower-cased method is "get" or the method is
      exactly "put"; signs the upper-cased method with the expiration as
      given, and panics if signing fails. */
  function Sign(b: Blobstore, resource: string, verb: string, expiration: int, signer: GcsApi.Signer): (r: Result<string, Panic>)
    ensures r == Err(UnsupportedMethod) <==> !(IsGetAnyCase(verb) || verb == "put")
    ensures IsGetAnyCase(verb) || verb == "put" ==>
      var resp := signer(b.bucket, resource, SignOptions(b, verb, expiration));
      (resp.Ok? ==> r == Ok(resp.value)) && (resp.Err? ==> r == Err(SigningFailed(resp.error)))
  {
    LowerGet(verb);
    if ToLower(verb) != "get" && verb != "put" then Err(UnsupportedMethod)
    else
      match signer(b.bucket, resource, SignOptions(b, verb, expiration))
      case Ok(url) => Ok(url)
      case Err(e) => Err(SigningFailed(e))
  }

  /** Lower-casing gives "get" exactly for "get" in any mix of cases. */
  lemma LowerGet(verb: string)
    ensures ToLower(verb) == "get" <==> IsGetAnyCase(verb)
  {
    if IsGetAnyCase(verb) {
      assert ToLower(verb) == "get";
    }
    if ToLower(verb) == "get" {
      assert ToLower(verb)[0] == 'g' && ToLower(verb)[1] == 'e' && ToLower(verb)[2] == 't';
    }
  }
}
