/** Properties of the GCS adapter: the retry policy, what each operation
    does to the store when nothing fails, and what DeleteDir leaves behind. */
module GcpProperties {
  import opened BlobTypes
  import GcsApi
  import opened GcpBlobstore

  predicate TimedOut(e: Option<SdkError>) {
    e.Some? && IsTimeout(e.value)
  }

  /** Retries give back the first result that is not a timeout, if one
      comes within the cap, and otherwise the last timeout; they retry
      timeouts and nothing else. */
  lemma RetriesOnlyTimeouts(raw: nat -> Option<SdkError>, cap: nat)
    ensures var run := RetryRun(Classified(raw), cap, 0);
      (forall j :: 0 <= j < run.calls - 1 ==> TimedOut(raw(j))) &&
      run.err == raw(run.calls - 1) &&
      (run.calls - 1 < cap ==> !TimedOut(raw(run.calls - 1))) &&
      (TimedOut(raw(run.calls - 1)) ==> run.calls == cap + 1)
  {
    var run := RetryRun(Classified(raw), cap, 0);
    var f := Classified(raw);
    forall j | 0 <= j < run.calls - 1
      ensures TimedOut(raw(j))
    {
      assert f(j) == TimeoutOrPermanent(raw(j));
    }
    assert f(run.calls - 1) == TimeoutOrPermanent(raw(run.calls - 1));
  }

  /** k timeouts followed by a success, within the cap: success after k + 1 calls. */
  lemma RetrySucceedsAfterTimeouts(raw: nat -> Option<SdkError>, cap: nat, k: nat)
    requires k <= cap
    requires forall j :: 0 <= j < k ==> TimedOut(raw(j))
    requires raw(k).None?
    ensures RetryRun(Classified(raw), cap, 0) == Retried(None, k + 1)
  {
    RetriesOnlyTimeouts(raw, cap);
  }

  /** A first result that is not a timeout is final. */
  lemma RetryStopsOnPermanent(raw: nat -> Option<SdkError>, cap: nat)
    requires !TimedOut(raw(0))
    ensures RetryRun(Classified(raw), cap, 0) == Retried(raw(0), 1)
  {
    RetriesOnlyTimeouts(raw, cap);
  }

  /** When every call times out, the cap is spent and the last timeout returned. */
  lemma RetryGivesUp(raw: nat -> Option<SdkError>, cap: nat)
    requires forall j :: 0 <= j <= cap ==> TimedOut(raw(j))
    ensures RetryRun(Classified(raw), cap, 0) == Retried(raw(cap), cap + 1)
  {
    RetriesOnlyTimeouts(raw, cap);
  }

  /** Calls that agree on every attempt retry alike. */
  lemma {:induction false} RetryRunCongruent(f: nat -> OpResult, g: nat -> OpResult, cap: nat, i: nat)
    requires i <= cap
    requires forall j :: f(j) == g(j)
    ensures RetryRun(f, cap, i) == RetryRun(g, cap, i)
    decreases cap - i
  {
    if i < cap {
      RetryRunCongruent(f, g, cap, i + 1);
    }
  }

  /** In a calm environment the first attempt already succeeds or fails for good. */
  lemma CalmRetries(raw: nat -> Option<SdkError>, clock: nat, first: Option<SdkError>)
    requires raw(0) == first && !TimedOut(first)
    ensures Retries(raw, clock) == Retried(first, 1)
  {
    RetryStopsOnPermanent(raw, RetryCap(OperationRetries, clock));
  }

  function MissingBucketError(b: Blobstore): Error {
    Wrapped(BucketNotExist, BucketCheckContext(b))
  }

  /** Exists reports whether the object is stored; a missing bucket is an
      error, not a missing object. */
  lemma ExistsReflectsStore(b: Blobstore, path: string, store: Store, env: Env)
    requires Calm(env)
    ensures Exists(b, path, store, env) ==
      if b.bucket in store then ExistsResult(path in store[b.bucket], None)
      else ExistsResult(false, Some(MissingBucketError(b)))
  {
    var raw := AttrsAttempts(b, path, store, env);
    CalmRetries(raw, env.clock, GcsApi.ObjectAttrs(store, b.bucket, path, None));
  }

  /** Get returns the stored contents, NotFoundError for a missing object of
      an existing bucket, and the bucket check's error for a missing bucket. */
  lemma GetReflectsStore(b: Blobstore, path: string, store: Store)
    ensures Get(b, path, store, None, None) ==
      if Present(store, b.bucket, path) then BodyResult(Some(store[b.bucket][path]), None)
      else if b.bucket in store then BodyResult(None, Some(NotFoundError))
      else BodyResult(None, Some(MissingBucketError(b)))
  {
  }

  /** Put into an existing bucket stores the contents; Get and Exists see them. */
  lemma PutThenGet(b: Blobstore, path: string, data: Bytes, store: Store, env: Env)
    requires b.bucket in store && Calm(env)
    ensures var p := Put(b, path, data, store, None, None);
      p == Update(None, store[b.bucket := store[b.bucket][path := data]]) &&
      Get(b, path, p.store, None, None) == BodyResult(Some(data), None) &&
      Exists(b, path, p.store, env) == ExistsResult(true, None)
  {
    var p := Put(b, path, data, store, None, None);
    ExistsReflectsStore(b, path, p.store, env);
  }

  /** Put into a missing bucket writes nothing and reports the bucket check. */
  lemma PutIntoMissingBucket(b: Blobstore, path: string, data: Bytes, store: Store, writeFault: Option<SdkError>)
    requires b.bucket !in store
    ensures Put(b, path, data, store, None, writeFault) == Update(Some(MissingBucketError(b)), store)
  {
  }

  /** Copy of a stored object duplicates its contents under `dest`; copy of
      a missing object of an existing bucket is NotFoundError. */
  lemma CopyCopies(b: Blobstore, src: string, dest: string, store: Store, env: Env)
    requires Calm(env) && b.bucket in store
    ensures var c := Copy(b, src, dest, store, env);
      (src in store[b.bucket] ==> c == Update(None, store[b.bucket := store[b.bucket][dest := store[b.bucket][src]]])) &&
      (src !in store[b.bucket] ==> c == Update(Some(NotFoundError), store))
  {
    var raw := CopyAttempts(b, src, dest, store, env);
    CalmRetries(raw, env.clock, GcsApi.CopierRun(store, b.bucket, src, dest, None).err);
  }

  /** Delete removes a stored object; a missing object of an existing bucket
      is NotFoundError and a missing bucket the bucket check's error. */
  lemma DeleteThenAbsent(b: Blobstore, path: string, store: Store, env: Env)
    requires Calm(env)
    ensures var d := Delete(b, path, store, env);
      (Present(store, b.bucket, path) ==> d == Update(None, store[b.bucket := store[b.bucket] - {path}])) &&
      (b.bucket in store && path !in store[b.bucket] ==> d == Update(Some(NotFoundError), store)) &&
      (b.bucket !in store ==> d == Update(Some(MissingBucketError(b)), store))
  {
    var raw := DeleteAttempts(b, path, store, env);
    CalmRetries(raw, env.clock, GcsApi.DeleteObject(store, b.bucket, path, None).err);
  }

  /** One Delete either changes nothing or removes `path` from the bucket. */
  lemma DeleteEffect(b: Blobstore, path: string, store: Store, env: Env)
    ensures var d := Delete(b, path, store, env);
      d.store == store || (b.bucket in store && d.store == store[b.bucket := store[b.bucket] - {path}])
  {
  }

  /** The store after DeleteDir's deletes: no bucket is added or dropped,
      other buckets are untouched, and the bucket only loses listed keys. */
  lemma {:induction false} DeleteKeysFrame(b: Blobstore, keys: seq<string>, store: Store, envs: nat -> Env)
    ensures var s := DeleteKeys(b, keys, store, envs).store;
      s.Keys == store.Keys &&
      (forall x :: x in store && x != b.bucket ==> s[x] == store[x]) &&
      (b.bucket in store ==>
        (forall k :: k in s[b.bucket] ==> k in store[b.bucket] && s[b.bucket][k] == store[b.bucket][k]) &&
        (forall k :: k in store[b.bucket] && k !in keys ==> k in s[b.bucket]))
  {
    if keys != [] {
      var init := keys[..|keys| - 1];
      var last := keys[|keys| - 1];
      DeleteKeysFrame(b, init, store, envs);
      Snoc(keys, |keys| - 1);
      DeleteKeysStep(b, init, last, store, envs);
      var prev := DeleteKeys(b, init, store, envs);
      DeleteEffect(b, last, prev.store, envs(|keys| - 1));
      FramedStep(store, prev.store, Delete(b, last, prev.store, envs(|keys| - 1)).store, b.bucket, init, last);
    }
  }

  /** `s` is `store` with no bucket added or dropped, other buckets as they
      were, and the bucket holding only its old objects, among them every
      one not in `keys`. */
  predicate Framed(store: Store, s: Store, bucket: string, keys: seq<string>) {
    s.Keys == store.Keys &&
    (forall x :: x in store && x != bucket ==> s[x] == store[x]) &&
    (bucket in store ==>
      (forall k :: k in s[bucket] ==> k in store[bucket] && s[bucket][k] == store[bucket][k]) &&
      (forall k :: k in store[bucket] && k !in keys ==> k in s[bucket]))
  }

  /** Removing one more key, or nothing, keeps a store framed. */
  lemma FramedStep(store: Store, prev: Store, after: Store, bucket: string, keys: seq<string>, key: string)
    requires Framed(store, prev, bucket, keys)
    requires after == prev || (bucket in prev && after == prev[bucket := prev[bucket] - {key}])
    ensures Framed(store, after, bucket, keys + [key])
  {
    assert forall k :: k !in keys + [key] ==> k !in keys && k != key;
  }

  /** DeleteDir leaves every object it was not given untouched. */
  lemma DeleteDirKeepsUnlisted(b: Blobstore, prefix: string, steps: seq<IterStep>, store: Store, envs: nat -> Env, key: string)
    requires b.bucket in store && key in store[b.bucket] && key !in ListedNames(steps)
    ensures var s := DeleteDirOutcome(b, prefix, steps, store, envs).store;
      b.bucket in s && key in s[b.bucket] && s[b.bucket][key] == store[b.bucket][key]
  {
    DeleteKeysFrame(b, ListedNames(steps), store, envs);
  }

  /** With no failure injected, the deletes report nothing and remove every
      given key of the bucket, duplicates included. */
  lemma {:induction false} CalmDeleteKeysRemove(b: Blobstore, keys: seq<string>, store: Store, envs: nat -> Env)
    requires b.bucket in store
    requires forall i :: Calm(envs(i))
    ensures var d := DeleteKeys(b, keys, store, envs);
      d.errs == [] && b.bucket in d.store && forall k :: k in keys ==> k !in d.store[b.bucket]
  {
    if keys != [] {
      var init := keys[..|keys| - 1];
      var last := keys[|keys| - 1];
      CalmDeleteKeysRemove(b, init, store, envs);
      Snoc(keys, |keys| - 1);
      DeleteKeysStep(b, init, last, store, envs);
      var prev := DeleteKeys(b, init, store, envs);
      CalmDeleteStep(b, last, prev.store, envs(|keys| - 1));
    }
  }

  /** One calm delete in an existing bucket keeps no failure and removes the key. */
  lemma CalmDeleteStep(b: Blobstore, key: string, store: Store, env: Env)
    requires Calm(env) && b.bucket in store
    ensures var r := Delete(b, key, store, env);
      Kept(r.err) == [] && b.bucket in r.store && r.store[b.bucket] == store[b.bucket] - {key}
  {
    DeleteThenAbsent(b, key, store, env);
  }

  /** With no failure injected, DeleteDir's deletes report nothing, and the
      bucket keeps exactly its keys that were not given, with their contents. */
  lemma CalmDeleteKeys(b: Blobstore, keys: seq<string>, store: Store, envs: nat -> Env)
    requires b.bucket in store
    requires forall i :: Calm(envs(i))
    ensures var d := DeleteKeys(b, keys, store, envs);
      d.errs == [] && d.store.Keys == store.Keys &&
      (forall x :: x in store && x != b.bucket ==> d.store[x] == store[x]) &&
      (forall k :: k in d.store[b.bucket] <==> k in store[b.bucket] && k !in keys) &&
      (forall k :: k in d.store[b.bucket] ==> d.store[b.bucket][k] == store[b.bucket][k])
  {
    DeleteKeysFrame(b, keys, store, envs);
    CalmDeleteKeysRemove(b, keys, store, envs);
  }

  /** A DeleteDir given exactly the bucket's keys under the prefix, with no
      failure injected, succeeds and leaves only the other keys. */
  lemma DeleteDirCleansPrefix(b: Blobstore, prefix: string, steps: seq<IterStep>, store: Store, envs: nat -> Env)
    requires b.bucket in store && ListingError(steps).None?
    requires forall i :: Calm(envs(i))
    requires forall k :: k in ListedNames(steps) <==> k in store[b.bucket] && HasPrefix(k, prefix)
    ensures DeleteDirOutcome(b, prefix, steps, store, envs) ==
      Update(None, store[b.bucket := map k | k in store[b.bucket] && !HasPrefix(k, prefix) :: store[b.bucket][k]])
  {
    var keys := ListedNames(steps);
    CalmDeleteKeys(b, keys, store, envs);
    var d := DeleteKeys(b, keys, store, envs);
    PrefixCleaned(store, d.store, b.bucket, keys, prefix);
  }

  /** A store that differs from `store` only in having dropped the bucket's
      listed keys, when those are the keys under the prefix, is `store`
      without the prefix. */
  lemma PrefixCleaned(store: Store, after: Store, bucket: string, keys: seq<string>, prefix: string)
    requires bucket in store && after.Keys == store.Keys
    requires forall x :: x in store && x != bucket ==> after[x] == store[x]
    requires forall k :: k in after[bucket] <==> k in store[bucket] && k !in keys
    requires forall k :: k in after[bucket] ==> after[bucket][k] == store[bucket][k]
    requires forall k :: k in keys <==> k in store[bucket] && HasPrefix(k, prefix)
    ensures after == store[bucket := map k | k in store[bucket] && !HasPrefix(k, prefix) :: store[bucket][k]]
  {
    UnlistedRemain(store[bucket], after[bucket], keys, prefix);
  }

  /** A delete's outcome depends on the store only through the presence of
      the bucket and of the object. */
  lemma DeleteCongruent(b: Blobstore, path: string, s1: Store, s2: Store, env: Env)
    requires b.bucket in s1 <==> b.bucket in s2
    requires Present(s1, b.bucket, path) <==> Present(s2, b.bucket, path)
    ensures Delete(b, path, s1, env).err == Delete(b, path, s2, env).err
  {
    var f := Classified(DeleteAttempts(b, path, s1, env));
    var g := Classified(DeleteAttempts(b, path, s2, env));
    forall j: nat
      ensures f(j) == g(j)
    {
      AttemptAgrees(b, path, s1, s2, env, j);
    }
    RetryRunCongruent(f, g, RetryCap(OperationRetries, env.clock), 0);
    var run := Retries(DeleteAttempts(b, path, s1, env), env.clock);
    if run.err.Some? {
      HandleErrorCongruent(b, run.err.value, "Path " + path, s1, s2, env.bucketFault);
    }
  }

  lemma AttemptAgrees(b: Blobstore, path: string, s1: Store, s2: Store, env: Env, j: nat)
    requires Present(s1, b.bucket, path) <==> Present(s2, b.bucket, path)
    ensures Classified(DeleteAttempts(b, path, s1, env))(j) == Classified(DeleteAttempts(b, path, s2, env))(j)
  {
    assert DeleteAttempts(b, path, s1, env)(j) == GcsApi.DeleteObject(s1, b.bucket, path, env.attemptFault(j)).err;
    assert DeleteAttempts(b, path, s2, env)(j) == GcsApi.DeleteObject(s2, b.bucket, path, env.attemptFault(j)).err;
  }

  lemma HandleErrorCongruent(b: Blobstore, e: SdkError, context: string, s1: Store, s2: Store, bucketFault: Option<SdkError>)
    requires b.bucket in s1 <==> b.bucket in s2
    ensures HandleError(b, e, context, s1, bucketFault) == HandleError(b, e, context, s2, bucketFault)
  {
  }

  /** The error of each delete, had it run against the original store. */
  function DeleteErrors(b: Blobstore, keys: seq<string>, store: Store, envs: nat -> Env): (es: seq<Option<Error>>)
    ensures |es| == |keys|
    ensures forall i :: 0 <= i < |keys| ==> es[i] == Delete(b, keys[i], store, envs(i)).err
  {
    seq(|keys|, i requires 0 <= i < |keys| => Delete(b, keys[i], store, envs(i)).err)
  }

  /** With distinct keys, every delete meets its object as it was before
      DeleteDir began, so the failures collected are those of the deletes
      run one by one against the original store. */
  lemma {:induction false} DeleteKeysErrors(b: Blobstore, keys: seq<string>, store: Store, envs: nat -> Env)
    requires Distinct(keys)
    ensures DeleteKeys(b, keys, store, envs).errs == Collect(DeleteErrors(b, keys, store, envs))
  {
    if keys != [] {
      var init := keys[..|keys| - 1];
      DistinctSnoc(keys);
      DeleteKeysErrors(b, init, store, envs);
      LastDeleteAgrees(b, keys, store, envs);
      var es := DeleteErrors(b, keys, store, envs);
      assert es[..|es| - 1] == DeleteErrors(b, init, store, envs);
      assert Collect(es) == Collect(es[..|es| - 1]) + Kept(es[|es| - 1]);
    }
  }

  /** The last of distinct keys meets its object as it was at the start. */
  lemma LastDeleteAgrees(b: Blobstore, keys: seq<string>, store: Store, envs: nat -> Env)
    requires Distinct(keys) && |keys| > 0
    ensures var prev := DeleteKeys(b, keys[..|keys| - 1], store, envs);
      Delete(b, keys[|keys| - 1], prev.store, envs(|keys| - 1)).err ==
      Delete(b, keys[|keys| - 1], store, envs(|keys| - 1)).err
  {
    DistinctSnoc(keys);
    DeleteKeysFrame(b, keys[..|keys| - 1], store, envs);
    var prev := DeleteKeys(b, keys[..|keys| - 1], store, envs);
    DeleteCongruent(b, keys[|keys| - 1], prev.store, store, envs(|keys| - 1));
  }

  lemma DistinctSnoc(keys: seq<string>)
    requires Distinct(keys) && |keys| > 0
    ensures Distinct(keys[..|keys| - 1]) && keys[|keys| - 1] !in keys[..|keys| - 1]
  {
  }

  /** A delete that DeleteDir does not report: nil or NotFoundError. */
  predicate DeleteOk(b: Blobstore, key: string, store: Store, env: Env) {
    Delete(b, key, store, env).err.None? || Delete(b, key, store, env).err.value.NotFoundError?
  }

  /** DeleteDir over distinct names returns nil exactly when the listing
      did not fail and every delete succeeded or found nothing. */
  lemma DeleteDirSucceedsIff(b: Blobstore, prefix: string, steps: seq<IterStep>, store: Store, envs: nat -> Env)
    requires Distinct(ListedNames(steps))
    ensures var keys := ListedNames(steps);
      DeleteDirOutcome(b, prefix, steps, store, envs).err.None? <==>
        ListingError(steps).None? &&
        forall i :: 0 <= i < |keys| ==> DeleteOk(b, keys[i], store, envs(i))
  {
    var keys := ListedNames(steps);
    var d := DeleteKeys(b, keys, store, envs);
    var r := DeleteDirOutcome(b, prefix, steps, store, envs);
    assert r.err.None? <==> ListingError(steps).None? && d.errs == [] by {
      assert r == DirOutcome(prefix, ListingError(steps), d);
    }
    DeletesSucceedIff(b, keys, store, envs);
  }

  /** Distinct keys' deletes collect nothing exactly when each one, judged
      against the original store, returned nil or NotFoundError. */
  lemma DeletesSucceedIff(b: Blobstore, keys: seq<string>, store: Store, envs: nat -> Env)
    requires Distinct(keys)
    ensures DeleteKeys(b, keys, store, envs).errs == [] <==>
      forall i :: 0 <= i < |keys| ==> DeleteOk(b, keys[i], store, envs(i))
  {
    DeleteKeysErrors(b, keys, store, envs);
    CollectEmpty(DeleteErrors(b, keys, store, envs));
  }

  /** Two objects written, both found, the directory deleted, neither found. */
  lemma DirectoryScenario(b: Blobstore, one: Bytes, two: Bytes, env: Env, envs: nat -> Env)
    requires Calm(env) && forall i :: Calm(envs(i))
    ensures var store: Store := map[b.bucket := map[]];
      var s1 := Put(b, "one", one, store, None, None).store;
      var s2 := Put(b, "two", two, s1, None, None).store;
      var d := DeleteDirOutcome(b, "", [Next("one"), Next("two")], s2, envs);
      Exists(b, "one", s2, env) == ExistsResult(true, None) &&
      Exists(b, "two", s2, env) == ExistsResult(true, None) &&
      d.err.None? &&
      Exists(b, "one", d.store, env) == ExistsResult(false, None) &&
      Exists(b, "two", d.store, env) == ExistsResult(false, None)
  {
    var store: Store := map[b.bucket := map[]];
    var s1 := Put(b, "one", one, store, None, None).store;
    var s2 := Put(b, "two", two, s1, None, None).store;
    var steps := [Next("one"), Next("two")];
    assert ListedNames(steps) == ["one", "two"] by {
      assert steps[1..] == [Next("two")];
      assert steps[1..][1..] == [];
    }
    assert ListingError(steps).None? by {
      assert steps[1..] == [Next("two")];
      assert steps[1..][1..] == [];
    }
    ExistsReflectsStore(b, "one", s2, env);
    ExistsReflectsStore(b, "two", s2, env);
    CalmDeleteKeys(b, ["one", "two"], s2, envs);
    var d := DeleteDirOutcome(b, "", steps, s2, envs);
    ExistsReflectsStore(b, "one", d.store, env);
    ExistsReflectsStore(b, "two", d.store, env);
  }

  /** Sign accepts "get" in any case but "put" only in lower case. */
  lemma SignMethodCases(b: Blobstore, resource: string, expiration: int, signer: GcsApi.Signer)
    ensures Sign(b, resource, "PUT", expiration, signer) == Err(UnsupportedMethod)
    ensures Sign(b, resource, "Put", expiration, signer) == Err(UnsupportedMethod)
    ensures Sign(b, resource, "DELETE", expiration, signer) == Err(UnsupportedMethod)
    ensures Sign(b, resource, "put", expiration, signer) != Err(UnsupportedMethod)
    ensures Sign(b, resource, "GET", expiration, signer) != Err(UnsupportedMethod)
    ensures Sign(b, resource, "Get", expiration, signer) != Err(UnsupportedMethod)
  {
    assert !IsGetAnyCase("PUT") && !IsGetAnyCase("Put") && !IsGetAnyCase("DELETE");
    assert IsGetAnyCase("GET") && IsGetAnyCase("Get");
  }

  /** The method Sign has signed is always "GET" or "PUT". */
  lemma SignedMethodUpperCase(b: Blobstore, verb: string, expiration: int)
    requires IsGetAnyCase(verb) || verb == "put"
    ensures SignOptions(b, verb, expiration).httpMethod == "GET" || SignOptions(b, verb, expiration).httpMethod == "PUT"
  {
    var m := SignOptions(b, verb, expiration).httpMethod;
    if verb == "put" {
      assert m == "PUT";
    } else {
      assert m == "GET";
    }
  }
}
