/**
 * The blob container the upload page talks to, reduced to what the page
 * relies on: a map from blob name to stored blob, the three calls the page
 * makes (exists, delete-if-exists, upload), and a log of every call made.
 * Whether a call succeeds is not decided here: the caller passes in the
 * outcome chosen ahead of time by its environment.
 */
module BlobStore {
  import opened Options

  newtype byte = b: int | 0 <= b < 256

  /** Blob metadata as the page builds it: keys to possibly-null values. */
  type Metadata = map<string, Option<string>>

  datatype Blob = Blob(content: seq<byte>, contentType: string, metadata: Metadata)

  /** The container's blobs, keyed by blob name. */
  type Store = map<string, Blob>

  /** One request sent to the container. */
  datatype Call =
    | ExistsCall(name: string)
    | DeleteCall(name: string)
    | UploadCall(name: string, content: seq<byte>, contentType: string, metadata: Metadata)

  /**
   * How a call ends: it succeeds, or it throws a request failure whose error
   * code is AuthorizationPermissionMismatch, or one with any other code.
   */
  datatype CallOutcome = Succeeds | PermissionMismatch | OtherFailure

  /**
   * The container's blobs after call `c` ends with outcome `o`. A failed call
   * changes nothing; a delete of an absent blob is not an error.
   */
  function Apply(store: Store, c: Call, o: CallOutcome): (s: Store)
    ensures s - {c.name} == store - {c.name}
    ensures o != Succeeds ==> s == store
    ensures c.ExistsCall? ==> s == store
    ensures c.name in s <==> (c.name in store && !(o == Succeeds && c.DeleteCall?)) || (o == Succeeds && c.UploadCall?)
    ensures o == Succeeds && c.UploadCall? ==> s[c.name] == Blob(c.content, c.contentType, c.metadata)
  {
    if o != Succeeds then store
    else match c
      case ExistsCall(_) => store
      case DeleteCall(n) => store - {n}
      case UploadCall(n, content, contentType, metadata) => store[n := Blob(content, contentType, metadata)]
  }

  /** The container as a mutable object: its blobs and the calls made on it so far. */
  class BlobContainer {
    var blobs: Store
    var calls: seq<Call>

    constructor (initial: Store)
      ensures blobs == initial && calls == []
    {
      blobs := initial;
      calls := [];
    }

    /** ExistsAsync: reports whether a blob with this name is stored. */
    method Exists(name: string, injected: CallOutcome) returns (outcome: CallOutcome, found: bool)
      modifies this
      ensures outcome == injected
      ensures found <==> injected == Succeeds && name in old(blobs)
      ensures blobs == old(blobs)
      ensures calls == old(calls) + [ExistsCall(name)]
    {
      outcome := injected;
      found := injected == Succeeds && name in blobs;
      calls := calls + [ExistsCall(name)];
    }

    /** DeleteIfExistsAsync: removes the blob with this name, if there is one. */
    method DeleteIfExists(name: string, injected: CallOutcome) returns (outcome: CallOutcome)
      modifies this
      ensures outcome == injected
      ensures blobs == Apply(old(blobs), DeleteCall(name), injected)
      ensures calls == old(calls) + [DeleteCall(name)]
    {
      outcome := injected;
      if injected == Succeeds {
        blobs := blobs - {name};
      }
      calls := calls + [DeleteCall(name)];
    }

    /** UploadAsync: stores the content under this name with its content type and metadata. */
    method Upload(name: string, content: seq<byte>, contentType: string, metadata: Metadata, injected: CallOutcome)
      returns (outcome: CallOutcome)
      modifies this
      ensures outcome == injected
      ensures blobs == Apply(old(blobs), UploadCall(name, content, contentType, metadata), injected)
      ensures calls == old(calls) + [UploadCall(name, content, contentType, metadata)]
    {
      outcome := injected;
      if injected == Succeeds {
        blobs := blobs[name := Blob(content, contentType, metadata)];
      }
      calls := calls + [UploadCall(name, content, contentType, metadata)];
    }
  }
}
