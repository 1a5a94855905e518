# Batch upload to a blob container, modelled in Dafny

An ASP.NET Core page lets a signed-in user post a batch of files to an
Azure Blob Storage container. `UploadModel.OnPostAsync` handles the post.
An empty batch is rejected with a validation error. Otherwise each file is
taken in turn:

- its name is checked against the container;
- an existing name is skipped and reported as failed, unless overwriting is
  on, in which case the existing blob is deleted first;
- the file is then uploaded with a two-key provenance metadata dictionary
  (`userprincipalname`, `objectid`) and its own content type.

An `AuthorizationPermissionMismatch` error from any of these calls ends the
request at once, with a fixed "contact the administrator" notice. Any other
upload error is recorded as a failure and the loop goes on. At the end, the
names that were uploaded and the names that failed are each turned into one
summary text, joined with `<br/>`.

The model has six modules:

- `BlobStore` (blob_store.dfy): the container. It is a map from blob name
  to blob (bytes, content type, metadata), plus a log of every call made on
  it. `Apply` is what one call does to the map. `BlobContainer` is the same
  container as a mutable object with the three calls the page makes. The
  environment decides, ahead of time, whether each call succeeds, fails with
  a permission mismatch, or fails some other way; the caller passes that
  outcome in.
- `Summary` (summary.dfy): `string.Join("<br/>", …)`, the two summary
  texts, and `Split`, which reads the names back out of a text.
- `Upload` (upload.dfy): the handler as functions. `BuildMetadata` builds
  the metadata dictionary. `Step` is one pass of the `foreach` body. `Run`
  folds `Step` over the first n files. `Post` is the whole request.
- `UploadProperties` (upload_properties.dfy): lemmas about `Step`, `Run`
  and `Post`.
- `UploadPage` (upload_page.dfy): the `UploadModel` class. `OnPost` is the
  handler's loop written step by step over the mutable container and the two
  name lists. `ProcessFile` is one pass of its body. Both are proved to do
  exactly what `Step` and `Post` say.
- `Options` (options.dfy): `Option`, standing for a C# value that may be
  null.

Inputs of the model:

- The form fields `Files` and `Overwrite`.
- The two claim values. Each is `None` when the claim is missing.
- A plan of call outcomes, one `Faults` record per file position. Positions
  past the end of the plan meet no faults.
- The container's initial blobs.

Three behaviours of the code are easy to misread:

- **Metadata keys.** One might expect a missing identity value to be left
  out of the metadata. The code always puts both keys in, with the claim
  value, null or empty, as it is (Pages/Upload.cshtml.cs:58-62). The
  `IsNullOrEmpty` blocks that follow only store the value already there.
  `BuildMetadata` states this: exactly the two keys, mapped to the two claim
  values.
- **Duplicate names.** One might expect a name to be in at most one of the
  two lists, and a batch of new names with overwriting off to end with every
  file uploaded. Both hold only when the batch has no duplicate names. The
  code does not deduplicate: a second file of the same name sees the first
  one's upload. `DuplicateNameLandsInBothLists` shows such a name
  ending up in both lists. `FreshBatchAllSucceed` proves the "every file
  uploaded" property under the added assumption of distinct names.
- **Escaping errors.** Exists and delete failures other than a permission
  mismatch are not caught, so they leave the handler as an exception
  (`PageResult.Uncaught`). Blobs written before that point stay in the
  container.

## Model

| member | source | states |
|---|---|---|
| `BlobStore.Apply` | Pages/Upload.cshtml.cs:83-115 | A call changes no blob but the one it names. A failed call changes nothing, and neither does an exists call. A successful upload stores exactly the sent bytes, content type and metadata under the name. After a call, the name is present exactly when it was there and was not deleted, or was just uploaded. |
| `BlobStore.BlobContainer.Exists` | Pages/Upload.cshtml.cs:83 | Reports the blob as found exactly when the call succeeds and the name is stored. Changes no blob and logs one exists call. |
| `BlobStore.BlobContainer.DeleteIfExists` | Pages/Upload.cshtml.cs:95 | The new blobs are `Apply` of a delete call with the given outcome. A missing blob is not an error. Logs the call. |
| `BlobStore.BlobContainer.Upload` | Pages/Upload.cshtml.cs:112-115 | The new blobs are `Apply` of the upload call (bytes, content type, metadata) with the given outcome. Logs the call. |
| `Summary.Listing` | Pages/Upload.cshtml.cs:131-139 | A text exists exactly when the list is non-empty (the `Any()` test), and it starts with the header. |
| `Summary.SplitJoin` | Pages/Upload.cshtml.cs:133 | Cutting the `<br/>`-joined names at each `<br/>` gives back the same names in the same order, when no name contains `<`. |
| `Summary.JoinSplit` | Pages/Upload.cshtml.cs:133 | Joining the pieces of any text with `<br/>` gives back the text. |
| `Summary.Join` | Pages/Upload.cshtml.cs:133 | The joined text starts with the first name. `SplitJoin` and `JoinSplit` state what it means: it is the inverse of cutting at `<br/>`. |
| `Summary.SuccessMessage` | Pages/Upload.cshtml.cs:131-134 | The success text exists exactly when some file was uploaded. It starts with the header. When no name contains `<`, a reader finds exactly the uploaded names, in order. |
| `Summary.FailureMessage` | Pages/Upload.cshtml.cs:136-139 | The failure text exists exactly when some file failed. It starts with the header. When no name contains `<`, a reader finds exactly the failed names, in order. |
| `Summary.ListingIsReadBack` | Pages/Upload.cshtml.cs:131-139 | When no name contains `<`, a reader of a success or failure text finds exactly the listed names, in order. With no names, there is no text and nothing is found. |
| `Upload.BuildMetadata` | Pages/Upload.cshtml.cs:57-73 | The metadata has exactly the keys `userprincipalname` and `objectid`, mapped to the two claim values, which may be null or empty. The re-assignments leave it unchanged. |
| `Upload.IsNullOrEmpty` | Pages/Upload.cshtml.cs:64-72 | No contract of its own: `string.IsNullOrEmpty` on a claim value. `BuildMetadata` states that the re-assignments it guards leave the metadata unchanged. |
| `Upload.Step` | Pages/Upload.cshtml.cs:77-128 | No contract of its own: one pass of the `foreach` body. `StepShape`, `StepAbortsOnPermissionMismatch` and the three per-file lemmas state what it does. |
| `Upload.Run` | Pages/Upload.cshtml.cs:75-129 | No contract of its own: `Step` folded over the first n files. `RunPartitionsFiles`, `StoppedBatchStaysStopped`, `StoppedAtSomeFile` and `CleanRun` state what it does. |
| `Upload.Post` | Pages/Upload.cshtml.cs:34-142 | The request ends with the validation error exactly when no file was posted. It then carries the fixed message, makes no calls and leaves the container unchanged. |
| `UploadProperties.StepTouchesOwnBlob` | Pages/Upload.cshtml.cs:75-129 | One file's pass changes no blob but its own. If its own blob is still there afterwards, it is either the old one or the file's upload with the batch's metadata. (A successful delete followed by a failed upload leaves no blob of that name.) |
| `UploadProperties.StepCallsOwnName` | Pages/Upload.cshtml.cs:78-115 | One file's pass makes one to three calls, the exists call first. Every call names the file. An upload sends the file's bytes and content type with the batch's metadata. |
| `UploadProperties.StepRecordsOnce` | Pages/Upload.cshtml.cs:85-128 | When the loop goes on after a file, its name was added to exactly one of the two lists. When the loop stops, neither list changed. |
| `UploadProperties.StepShape` | Pages/Upload.cshtml.cs:75-129 | The three facts above bundled in one statement, which the batch-level lemmas use. It adds nothing new. |
| `UploadProperties.StepAbortsOnPermissionMismatch` | Pages/Upload.cshtml.cs:99-125 | A file's pass aborts the batch exactly when its exists call, its delete, or its upload meets a permission mismatch. |
| `UploadProperties.ExistingNameWithoutOverwriteIsSkipped` | Pages/Upload.cshtml.cs:85-108 | An existing name with overwriting off, when the exists call succeeds: the name is added to the failed list. Only the exists call is made, and the container and the success list are unchanged. |
| `UploadProperties.ExistingNameWithOverwriteIsReplaced` | Pages/Upload.cshtml.cs:85-128 | An existing name with overwriting on, when the exists and delete calls succeed: the calls are exists, delete, then upload. On success, the new blob is stored and the name joins the success list. On another upload error, the name joins the failed list, the old blob stays deleted, and the loop goes on. |
| `UploadProperties.NewNameIsUploadedWithoutDelete` | Pages/Upload.cshtml.cs:110-128 | A name not yet stored, when the exists call succeeds: the calls are exists, then upload, with no delete. On success, the blob is stored and the name joins the success list. On another upload error, the name joins the failed list, the container is unchanged, and the loop goes on. |
| `UploadProperties.StoppedBatchStaysStopped` | Pages/Upload.cshtml.cs:99-125 | Once a file has stopped the batch, later files change nothing and make no calls. |
| `UploadProperties.StoppedAtSomeFile` | Pages/Upload.cshtml.cs:75-129 | A stopped batch was stopped by one file. Its final state is the state right after that file. |
| `UploadProperties.RunPartitionsFiles` | Pages/Upload.cshtml.cs:75-129 | While the batch runs, the files done so far are interleaved into the success and failure lists. Each file gives exactly one entry, both lists keep batch order, and the two lengths add up to the number of files. |
| `UploadProperties.StoppedBatchEndsRequest` | Pages/Upload.cshtml.cs:99-125 | A batch stopped at file k ends the request with the permission notice (if aborted) or the exception (otherwise). The blobs and calls are those right after file k. |
| `UploadProperties.PermissionAbortEndsBatch` | Pages/Upload.cshtml.cs:99-125 | On a permission abort at file k, the page shows the fixed notice and no list texts. No call is made for a later file. The lists hold exactly the outcomes of files before k. Every blob except file k's own is as it was before file k. |
| `UploadProperties.GatewayErrorEscapes` | Pages/Upload.cshtml.cs:80-103 | A non-permission failure of the exists or delete call leaves the handler as an exception. The calls made so far stand. |
| `UploadProperties.UploadsCarryRequestMetadata` | Pages/Upload.cshtml.cs:57-114 | Every upload sends the request's metadata with one posted file's name, bytes and content type. Every blob in the container is either untouched since before the request or was written with that metadata. |
| `UploadProperties.CleanRun` | Pages/Upload.cshtml.cs:75-129 | With no faults, and either overwriting on or all names new and distinct: every name is in the success list, in order, and the failed list is empty. Each name holds the last file posted under it. |
| `UploadProperties.FreshBatchAllSucceed` | Pages/Upload.cshtml.cs:75-141 | New, distinct names and no faults: the page redirects with every name in the success text and no failure text. |
| `UploadProperties.RerunWithOverwriteIsIdempotent` | Pages/Upload.cshtml.cs:85-117 | Posting the same batch twice, with overwriting on and no faults, gives the same blobs and the same page both times. |
| `UploadProperties.DuplicateNameLandsInBothLists` | Pages/Upload.cshtml.cs:78-117 | Any two files with the same new name, overwriting off and no faults, with any claim values and any stored blobs: the batch runs on, the first copy is uploaded and the second fails, so the name is in both lists. |
| `UploadProperties.RedirectReportsEveryFileOnce` | Pages/Upload.cshtml.cs:131-141 | A redirect's two texts name every posted file exactly once, in batch order, and at least one of the texts is present. |
| `UploadPage.UploadModel.constructor` | Pages/Upload.cshtml.cs:22-32 | The page model holds the container and the bound `Files` and `Overwrite` values. |
| `UploadPage.UploadModel.ProcessFile` | Pages/Upload.cshtml.cs:75-128 | One pass of the loop body leaves the list texts, the container and its call log exactly as `Step` says, with the status that decides whether the handler returns. |
| `UploadPage.UploadModel.OnPost` | Pages/Upload.cshtml.cs:34-142 | The handler's page result, the container's final blobs, and the calls appended to its log are exactly those of `Post`. |

## Left out

- Program.cs is not part of this model. It holds service registration,
  OpenID Connect and cookie sign-in, and middleware setup, with no logic of
  its own.
- The Azure SDK clients (`BlobServiceClient`, `GetBlobContainerClient`,
  `GetBlobClient`) and their retries. `BlobContainer` stands in for them,
  and each call's outcome is an input.
- The container name read from configuration (line 42). The model has one
  container.
- The claim lookup in `User.Claims` and the debug dump of every claim
  (lines 47-55). The two claim values are inputs.
- `async`/`await` and streams. File contents are an immutable byte
  sequence, and each call is one atomic step. The model has no concurrent
  writers to the container.
- `ModelState`, `TempData`, `Page()`, `RedirectToPage()` and rendering.
  They are fields of `PageResult`. The `+=` at line 138 appends to a
  `Failure` value left from an earlier request. The model starts each
  request with no such value.
- BlobStore.Apply: a call that fails changes nothing in the model. A delete
  or upload that the service carried out before its error came back cannot
  be expressed.
- What the storage service does with a null metadata value. The upload's
  outcome is an input either way.
- Exceptions from `UploadAsync` that are not `RequestFailedException`.
  Such an exception would escape the handler. The model's upload failures
  are all request failures.
- Summary.ListingIsReadBack: stated only for names without `<`. A name
  `<br/>` reads back as two empty names.
- Summary.SuccessMessage: its read-back clause holds only for names
  without `<`, for the same reason.
- Summary.FailureMessage: its read-back clause holds only for names
  without `<`, for the same reason.
- Summary.SplitJoin: the round trip is stated only for names without `<`.
  A name containing `<br/>` makes the joined text ambiguous.
- UploadProperties.RedirectReportsEveryFileOnce: stated only for names
  without `<`, for the same reason.
- UploadProperties.FreshBatchAllSucceed: assumes distinct names, which the
  code does not check (see `DuplicateNameLandsInBothLists`).
