/**
 * The page model itself: the bound form fields, the blob container it
 * writes to, and `OnPost`, the handler's loop written step by step over the
 * mutable container and the two name lists, proved to do what `Post` says.
 */
module UploadPage {
  import opened Options
  import opened BlobStore
  import opened Summary
  import opened Upload
  import opened UploadProperties

  class UploadModel {
    const container: BlobContainer
    var files: seq<FilePayload>
    var overwrite: bool

    /** The page model after model binding has filled in `Files` and `Overwrite`. */
    constructor (container: BlobContainer, files: seq<FilePayload>, overwrite: bool)
      ensures this.container == container && this.files == files && this.overwrite == overwrite
    {
      this.container := container;
      this.files := files;
      this.overwrite := overwrite;
    }

    /**
     * OnPostAsync, given the user's two claim values and the outcomes the
     * container's calls will have. The page result, the container's blobs
     * and the calls made on it are those of `Post`.
     */
    method OnPost(principalName: Option<string>, objectId: Option<string>, plan: seq<Faults>)
      returns (page: PageResult)
      modifies container
      ensures var r := Post(Request(files, overwrite, principalName, objectId), plan, old(container.blobs));
        && page == r.page
        && container.blobs == r.store
        && container.calls == old(container.calls) + r.calls
    {
      ghost var req := Request(files, overwrite, principalName, objectId);
      ghost var store0 := container.blobs;
      ghost var calls0 := container.calls;
      if |files| == 0 {
        page := ValidationError("Files", EmptyBatchMessage);
        return;
      }
      var successfulUploads: seq<string> := [];
      var failedUploads: seq<string> := [];
      var metadata := BuildMetadata(principalName, objectId);

      for i := 0 to |files|
        invariant var b := Run(req, plan, store0, i);
          && b.status == Running
          && b.succeeded == successfulUploads
          && b.failed == failedUploads
          && b.store == container.blobs
          && container.calls == calls0 + b.calls
      {
        ghost var before := Run(req, plan, store0, i);
        ghost var after := Step(before, files[i], FaultsAt(plan, i), overwrite, metadata);
        assert Run(req, plan, store0, i + 1) == after;
        StepKeepsEarlierCalls(before, calls0, files[i], FaultsAt(plan, i), overwrite, metadata);
        var status;
        status, successfulUploads, failedUploads :=
          ProcessFile(files[i], FaultsAt(plan, i), metadata, successfulUploads, failedUploads);
        assert status == after.status && container.blobs == after.store && container.calls == calls0 + after.calls;
        if status == Aborted {
          page := PermissionAbort(PermissionMessage);
          StoppedBatchEndsRequest(req, plan, store0, i);
          return;
        }
        if status == Escaped {
          page := Uncaught;
          StoppedBatchEndsRequest(req, plan, store0, i);
          return;
        }
      }

      page := Redirect(SuccessMessage(successfulUploads), FailureMessage(failedUploads));
    }

    /**
     * One pass of the `foreach` body for `file`: its exists check, skip or
     * delete, and upload, appending its name to one of the two lists. The
     * status says whether the handler goes on, returns on a permission
     * error, or is left by an exception.
     */
    method ProcessFile(file: FilePayload, faults: Faults, metadata: Metadata,
                       succeeded: seq<string>, failed: seq<string>)
      returns (status: Status, successfulUploads: seq<string>, failedUploads: seq<string>)
      modifies container
      ensures var r := Step(Batch(Running, succeeded, failed, old(container.blobs), old(container.calls)),
                            file, faults, overwrite, metadata);
        && status == r.status
        && successfulUploads == r.succeeded
        && failedUploads == r.failed
        && container.blobs == r.store
        && container.calls == r.calls
    {
      successfulUploads, failedUploads := succeeded, failed;
      var skip := false;

      // First try block: the exists check and, when overwriting, the delete.
      var outcome, found := container.Exists(file.name, faults.onExists);
      if outcome == Succeeds && found {
        if !overwrite {
          failedUploads := failedUploads + [file.name];
          skip := true;
        } else {
          outcome := container.DeleteIfExists(file.name, faults.onDelete);
        }
      }
      if outcome == PermissionMismatch {
        return Aborted, successfulUploads, failedUploads;
      }
      if outcome == OtherFailure {
        // not caught by the permission filter: the exception leaves the handler
        return Escaped, successfulUploads, failedUploads;
      }
      if skip {
        return Running, successfulUploads, failedUploads;
      }

      // Second try block: the upload.
      outcome := container.Upload(file.name, file.content, file.contentType, metadata, faults.onUpload);
      if outcome == PermissionMismatch {
        return Aborted, successfulUploads, failedUploads;
      }
      if outcome == Succeeds {
        successfulUploads := successfulUploads + [file.name];
      } else {
        failedUploads := failedUploads + [file.name];
      }
      status := Running;
    }
  }
}
