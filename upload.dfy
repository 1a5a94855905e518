/**
 * What `UploadModel.OnPostAsync` does to one batch, stated as functions: the
 * metadata built from the user's claims, the decision taken for each file
 * (exists, then skip, delete-and-upload or upload), the fold of those
 * decisions over the batch, and the page result the request ends with.
 */
module Upload {
  import opened Options
  import opened BlobStore
  import opened Summary

  const EmptyBatchMessage := "Please select at least one file to upload."
  const PermissionMessage := "You do not have permission to upload files. Please contact the administrator."
  const UpnKey := "userprincipalname"
  const ObjectIdKey := "objectid"

  /** One posted form file: its name (used verbatim as the blob name), content type and bytes. */
  datatype FilePayload = FilePayload(name: string, contentType: string, content: seq<byte>)

  /**
   * The bound form fields `Files` and `Overwrite`, and the two claim values
   * read from the signed-in user (absent when the claim is missing).
   */
  datatype Request = Request(
    files: seq<FilePayload>,
    overwrite: bool,
    principalName: Option<string>,
    objectId: Option<string>)

  /** The outcomes the environment has chosen for one file's exists, delete and upload calls. */
  datatype Faults = Faults(onExists: CallOutcome, onDelete: CallOutcome, onUpload: CallOutcome)

  const NoFaults := Faults(Succeeds, Succeeds, Succeeds)

  /** The outcomes for the file at position `i`; files past the end of the plan meet no faults. */
  function FaultsAt(plan: seq<Faults>, i: nat): Faults
  {
    if i < |plan| then plan[i] else NoFaults
  }

  /**
   * How the request ends: `Page()` with a model-state error on `Files`;
   * `Page()` with the permission failure in TempData; an exception that
   * leaves the handler; or `RedirectToPage()` with the success and failure
   * texts (absent when not set).
   */
  datatype PageResult =
    | ValidationError(field: string, message: string)
    | PermissionAbort(notice: string)
    | Uncaught
    | Redirect(success: Option<string>, failure: Option<string>)

  /** Whether the loop goes on: still running, returned on a permission error, or left by an exception. */
  datatype Status = Running | Aborted | Escaped

  /** The loop's state: the two name lists, the container's blobs and the calls made so far. */
  datatype Batch = Batch(
    status: Status,
    succeeded: seq<string>,
    failed: seq<string>,
    store: Store,
    calls: seq<Call>)

  /** What one request leaves behind: its page result, the container's blobs and the calls it made. */
  datatype PostResult = PostResult(page: PageResult, store: Store, calls: seq<Call>)

  predicate IsNullOrEmpty(v: Option<string>)
  {
    v.None? || v.value == ""
  }

  /**
   * The metadata dictionary: both keys are put in with the claim values
   * (null allowed), then each is assigned again when its value is neither
   * null nor empty. The second assignments store the value already there,
   * so the dictionary always maps exactly the two keys to the two claims.
   */
  function BuildMetadata(principalName: Option<string>, objectId: Option<string>): (m: Metadata)
    ensures m.Keys == {UpnKey, ObjectIdKey}
    ensures m[UpnKey] == principalName && m[ObjectIdKey] == objectId
  {
    var initial := map[UpnKey := principalName, ObjectIdKey := objectId];
    var withUpn := if !IsNullOrEmpty(principalName) then initial[UpnKey := principalName] else initial;
    if !IsNullOrEmpty(objectId) then withUpn[ObjectIdKey := objectId] else withUpn
  }

  function MetadataOf(req: Request): Metadata
  {
    BuildMetadata(req.principalName, req.objectId)
  }

  /** Sends call `c` to the container with outcome `o` and logs it. */
  function Perform(b: Batch, c: Call, o: CallOutcome): Batch
  {
    b.(store := Apply(b.store, c, o), calls := b.calls + [c])
  }

  /**
   * One pass of the `foreach` body for file `f`. First try block: the exists
   * call, then either the skip (name recorded as failed) or, when
   * overwriting, the delete; only a permission error is caught there, any
   * other failure escapes. Second try block: the upload; a permission error
   * stops the batch, any other failure records the name as failed.
   */
  function Step(b: Batch, f: FilePayload, x: Faults, overwrite: bool, meta: Metadata): Batch
    requires b.status == Running
  {
    var checked := Perform(b, ExistsCall(f.name), x.onExists);
    if x.onExists == PermissionMismatch then checked.(status := Aborted)
    else if x.onExists == OtherFailure then checked.(status := Escaped)
    else if f.name in b.store && !overwrite then checked.(failed := b.failed + [f.name])
    else
      var cleared := if f.name in b.store then Perform(checked, DeleteCall(f.name), x.onDelete) else checked;
      if f.name in b.store && x.onDelete == PermissionMismatch then cleared.(status := Aborted)
      else if f.name in b.store && x.onDelete == OtherFailure then cleared.(status := Escaped)
      else
        var uploaded := Perform(cleared, UploadCall(f.name, f.content, f.contentType, meta), x.onUpload);
        match x.onUpload
        case Succeeds => uploaded.(succeeded := b.succeeded + [f.name])
        case PermissionMismatch => uploaded.(status := Aborted)
        case OtherFailure => uploaded.(failed := b.failed + [f.name])
  }

  /** The loop's state after the first `n` files, starting from the container's blobs `store`. */
  function Run(req: Request, plan: seq<Faults>, store: Store, n: nat): Batch
    requires n <= |req.files|
    decreases n
  {
    if n == 0 then Batch(Running, [], [], store, [])
    else
      var prev := Run(req, plan, store, n - 1);
      if prev.status == Running
      then Step(prev, req.files[n - 1], FaultsAt(plan, n - 1), req.overwrite, MetadataOf(req))
      else prev
  }

  /**
   * The whole handler: an empty batch is rejected before any call is made;
   * otherwise every file is processed in turn and the result is read off the
   * loop's final state.
   */
  function Post(req: Request, plan: seq<Faults>, store: Store): (r: PostResult)
    ensures r.page.ValidationError? <==> req.files == []
    ensures req.files == [] ==> r.store == store && r.calls == []
    ensures req.files == [] ==> r.page.message == EmptyBatchMessage
  {
    if |req.files| == 0 then PostResult(ValidationError("Files", EmptyBatchMessage), store, [])
    else
      var b := Run(req, plan, store, |req.files|);
      var page := match b.status
        case Aborted => PermissionAbort(PermissionMessage)
        case Escaped => Uncaught
        case Running => Redirect(SuccessMessage(b.succeeded), FailureMessage(b.failed));
      PostResult(page, b.store, b.calls)
  }
}
