/** Values shared by the S3 and GCS adapters: the abstract object store that
    stands for a provider's buckets, the errors the vendor SDKs report, and
    the errors the adapters hand back to their callers. */
module BlobTypes {

  datatype Option<+T> = None | Some(value: T)

  datatype Result<+T, +E> = Ok(value: T) | Err(error: E)

  type Bytes = seq<bv8>

  /** One bucket: object keys to object contents. */
  type Bucket = map<string, Bytes>

  /** A provider's state: bucket names to buckets. */
  type Store = map<string, Bucket>

  /** A failure reported by a vendor SDK call. */
  datatype SdkError =
    | AwsError(code: string)       // an awserr.Error; `code` is what Code() returns
    | NetError(timeout: bool)      // a transport error with a Timeout() method
    | ObjectNotExist               // storage.ErrObjectNotExist
    | BucketNotExist               // storage.ErrBucketNotExist
    | OtherError(message: string)  // any other error

  /** The error exposes `Timeout() bool` and that method returns true. */
  predicate IsTimeout(e: SdkError) {
    e.NetError? && e.timeout
  }

  /** An error an adapter returns to its caller. */
  datatype Error =
    | NotFoundError                              // routes.NotFoundError / bitsgo.NotFoundError
    | Wrapped(cause: SdkError, context: string)  // errors.Wrapf(cause, context)
    | Unwrapped(cause: SdkError)                 // an SDK error passed on as it is
    | DeletionFailed(prefix: string, listing: Option<SdkError>, failures: seq<Error>)
      // the prefix-deletion report: the listing error it wraps, if any, and
      // every per-key failure in the order the keys were deleted

  /** What one SDK call reports, with the store it leaves behind. */
  datatype Effect = Effect(err: Option<SdkError>, store: Store)

  /** What one adapter operation returns, with the store it leaves behind. */
  datatype Update = Update(err: Option<Error>, store: Store)

  /** The state of a prefix deletion: the failures collected so far and the store. */
  datatype Deletion = Deletion(errs: seq<Error>, store: Store)

  /** The failures a prefix deletion keeps from one delete: everything except
      nil and NotFoundError. */
  function Kept(e: Option<Error>): (r: seq<Error>)
    ensures r == [] <==> e.None? || e.value.NotFoundError?
    ensures r != [] ==> r == [e.value]
  {
    if e.Some? && !e.value.NotFoundError? then [e.value] else []
  }

  predicate HasPrefix(s: string, prefix: string) {
    |prefix| <= |s| && s[..|prefix|] == prefix
  }

  /** The keys of a paginated listing, page after page. */
  function Flatten(pages: seq<seq<string>>): seq<string>
    decreases |pages|
  {
    if pages == [] then [] else Flatten(pages[..|pages| - 1]) + pages[|pages| - 1]
  }

  /** The object `name` is stored in `bucket`. */
  predicate Present(store: Store, bucket: string, name: string) {
    bucket in store && name in store[bucket]
  }

  /** The first j + 1 elements are the first j followed by the j-th. */
  lemma Snoc<T>(s: seq<T>, j: nat)
    requires j < |s|
    ensures s[..j + 1] == s[..j] + [s[j]]
  {
  }

  predicate Distinct(keys: seq<string>) {
    forall i, j :: 0 <= i < j < |keys| ==> keys[i] != keys[j]
  }

  /** The failures kept from a sequence of deletes, in order. */
  function Collect(es: seq<Option<Error>>): seq<Error>
    decreases |es|
  {
    if es == [] then [] else Collect(es[..|es| - 1]) + Kept(es[|es| - 1])
  }

  /** Nothing is collected exactly when every delete reported nil or NotFoundError. */
  lemma {:induction false} CollectEmpty(es: seq<Option<Error>>)
    ensures Collect(es) == [] <==> forall i :: 0 <= i < |es| ==> es[i].None? || es[i].value.NotFoundError?
  {
    if es != [] {
      var init := es[..|es| - 1];
      CollectEmpty(init);
      assert forall i :: 0 <= i < |init| ==> init[i] == es[i];
    }
  }

  /** A bucket that kept exactly the unlisted keys, with their contents, of
      a bucket whose listed keys are those under the prefix, is that bucket
      without the prefix. */
  lemma UnlistedRemain(before: Bucket, after: Bucket, keys: seq<string>, prefix: string)
    requires forall k :: k in after <==> k in before && k !in keys
    requires forall k :: k in after ==> after[k] == before[k]
    requires forall k :: k in keys <==> k in before && HasPrefix(k, prefix)
    ensures after == map k | k in before && !HasPrefix(k, prefix) :: before[k]
  {
  }
}
