/** The Google Cloud Storage service as the adapter sees it: each call of
    the storage client acts on the abstract store, unless the environment
    injects a failure into it (`fault`), in which case it reports that
    failure and changes nothing. Object Attrs, NewReader and Delete report
    a missing object, or an object of a missing bucket, as
    ErrObjectNotExist; the writer reports a missing bucket as another
    error. The copier is assumed to report a missing source as
    ErrObjectNotExist (the storage client is not part of this model). Only
    the bucket-level Attrs call reports ErrBucketNotExist. */
module GcsApi {
  import opened BlobTypes

  /** ObjectHandle.Attrs */
  function ObjectAttrs(store: Store, bucket: string, name: string, fault: Option<SdkError>): Option<SdkError> {
    if fault.Some? then fault
    else if Present(store, bucket, name) then None
    else Some(ObjectNotExist)
  }

  /** BucketHandle.Attrs */
  function BucketAttrs(store: Store, bucket: string, fault: Option<SdkError>): Option<SdkError> {
    if fault.Some? then fault
    else if bucket in store then None
    else Some(BucketNotExist)
  }

  /** ObjectHandle.NewReader, with the object's contents as the stream. */
  function NewReader(store: Store, bucket: string, name: string, fault: Option<SdkError>): Result<Bytes, SdkError> {
    if fault.Some? then Err(fault.value)
    else if Present(store, bucket, name) then Ok(store[bucket][name])
    else Err(ObjectNotExist)
  }

  /** ObjectHandle.NewWriter, the whole source copied in, then closed. */
  function Write(store: Store, bucket: string, name: string, data: Bytes, fault: Option<SdkError>): Effect {
    if fault.Some? then Effect(fault, store)
    else if bucket !in store then Effect(Some(OtherError("bucket does not exist")), store)
    else Effect(None, store[bucket := store[bucket][name := data]])
  }

  /** ObjectHandle(dest).CopierFrom(ObjectHandle(src)).Run, within one bucket. */
  function CopierRun(store: Store, bucket: string, src: string, dest: string, fault: Option<SdkError>): Effect {
    if fault.Some? then Effect(fault, store)
    else if !Present(store, bucket, src) then Effect(Some(ObjectNotExist), store)
    else Effect(None, store[bucket := store[bucket][dest := store[bucket][src]]])
  }

  /** ObjectHandle.Delete */
  function DeleteObject(store: Store, bucket: string, name: string, fault: Option<SdkError>): Effect {
    if fault.Some? then Effect(fault, store)
    else if !Present(store, bucket, name) then Effect(Some(ObjectNotExist), store)
    else Effect(None, store[bucket := store[bucket] - {name}])
  }

  /** storage.SignedURLOptions; `expires` is a point in time, in seconds. */
  datatype SignedURLOptions = SignedURLOptions(
    googleAccessID: string, privateKey: string, httpMethod: string, expires: int)

  /** storage.SignedURL(bucket, name, options): a URL, or the failure of signing. */
  type Signer = (string, string, SignedURLOptions) -> Result<string, SdkError>
}
