/** The S3 service as the adapter sees it: each SDK call of the AWS client
    acts on the abstract store, unless the environment injects a failure
    into it (`fault`), in which case it reports that failure and changes
    nothing. Error codes follow the S3 REST API: a missing bucket is
    "NoSuchBucket" for GET, PUT, COPY and DELETE, a missing key is
    "NoSuchKey" for GET and COPY, HEAD answers "NotFound" for a missing
    bucket or a missing key (a HEAD response has no body to carry a code),
    and deleting a missing key succeeds. A copy of an object onto itself is a
    successful no-op here, although S3 refuses a copy that changes
    nothing. The copy source is read raw: S3's URL decoding of it is not
    modelled. */
module S3Api {
  import opened BlobTypes

  /** A request the SDK can send or presign. */
  datatype Request =
    | GetObject(bucket: string, key: string)
    | HeadObject(bucket: string, key: string)
    | PutObject(bucket: string, key: string)
    | CopyObject(bucket: string, key: string, copySource: string)
    | DeleteObject(bucket: string, key: string)

  function Get(store: Store, bucket: string, key: string, fault: Option<SdkError>): Result<Bytes, SdkError> {
    if fault.Some? then Err(fault.value)
    else if bucket !in store then Err(AwsError("NoSuchBucket"))
    else if key !in store[bucket] then Err(AwsError("NoSuchKey"))
    else Ok(store[bucket][key])
  }

  function Head(store: Store, bucket: string, key: string, fault: Option<SdkError>): Option<SdkError> {
    if fault.Some? then fault
    else if bucket !in store || key !in store[bucket] then Some(AwsError("NotFound"))
    else None
  }

  function Put(store: Store, bucket: string, key: string, body: Bytes, fault: Option<SdkError>): Effect {
    if fault.Some? then Effect(fault, store)
    else if bucket !in store then Effect(Some(AwsError("NoSuchBucket")), store)
    else Effect(None, store[bucket := store[bucket][key := body]])
  }

  /** Index of the first '/' in `s`, or |s| when there is none. */
  function Slash(s: string): (n: nat)
    ensures n <= |s|
    ensures forall i :: 0 <= i < n ==> s[i] != '/'
    ensures n < |s| ==> s[n] == '/'
  {
    if s == [] || s[0] == '/' then 0 else 1 + Slash(s[1..])
  }

  /** A copy source "bucket/key" split into its bucket and its key. */
  function SplitCopySource(s: string): (string, string) {
    var n := Slash(s);
    (s[..n], if n < |s| then s[n + 1..] else "")
  }

  function Copy(store: Store, bucket: string, key: string, copySource: string, fault: Option<SdkError>): Effect {
    var (srcBucket, srcKey) := SplitCopySource(copySource);
    if fault.Some? then Effect(fault, store)
    else if bucket !in store || srcBucket !in store then Effect(Some(AwsError("NoSuchBucket")), store)
    else if srcKey !in store[srcBucket] then Effect(Some(AwsError("NoSuchKey")), store)
    else Effect(None, store[bucket := store[bucket][key := store[srcBucket][srcKey]]])
  }

  function Delete(store: Store, bucket: string, key: string, fault: Option<SdkError>): Effect {
    if fault.Some? then Effect(fault, store)
    else if bucket !in store then Effect(Some(AwsError("NoSuchBucket")), store)
    else Effect(None, store[bucket := store[bucket] - {key}])
  }

  /** A copy source built as bucket + "/" + key splits back into the two,
      since bucket names cannot contain '/'. */
  lemma SplitJoined(bucket: string, key: string)
    requires forall i :: 0 <= i < |bucket| ==> bucket[i] != '/'
    ensures SplitCopySource(bucket + "/" + key) == (bucket, key)
  {
    var s := bucket + "/" + key;
    var n := Slash(s);
    assert s[|bucket|] == '/';
    assert n == |bucket|;
    assert s[..n] == bucket;
    assert s[n + 1..] == key;
  }
}
