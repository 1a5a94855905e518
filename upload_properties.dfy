/**
 * Properties of the batch upload: what each file's decision does to the
 * container and the two lists, how a permission error ends the batch, how
 * the lists of a finished batch account for every file, what metadata the
 * stored blobs carry, and what happens when a batch is posted twice.
 */
module UploadProperties {
  import opened Options
  import opened BlobStore
  import opened Summary
  import opened Upload

  /** The names of the files, in batch order. */
  function Names(fs: seq<FilePayload>): seq<string>
  {
    if fs == [] then [] else Names(fs[..|fs| - 1]) + [fs[|fs| - 1].name]
  }

  /**
   * `names` is an interleaving of `s` and `f`: each name goes to exactly one
   * of the two lists, and both lists keep the order of `names`.
   */
  predicate Interleaves(names: seq<string>, s: seq<string>, f: seq<string>)
    decreases |names|
  {
    if names == [] then s == [] && f == []
    else
      var last := names[|names| - 1];
      var rest := names[..|names| - 1];
      || (s != [] && s[|s| - 1] == last && Interleaves(rest, s[..|s| - 1], f))
      || (f != [] && f[|f| - 1] == last && Interleaves(rest, s, f[..|f| - 1]))
  }

  /** No fault is planned for the first `n` files. */
  predicate FaultFree(plan: seq<Faults>, n: nat)
  {
    forall i :: 0 <= i < n ==> FaultsAt(plan, i) == NoFaults
  }

  /** No two files share a name and no name is already stored. */
  predicate FreshNames(fs: seq<FilePayload>, store: Store)
  {
    && (forall i :: 0 <= i < |fs| ==> fs[i].name !in store)
    && (forall i, j :: 0 <= i < j < |fs| ==> fs[i].name != fs[j].name)
  }

  /** The blobs a run without faults writes: each name gets the last file of that name. */
  function Writes(fs: seq<FilePayload>, meta: Metadata): Store
  {
    if fs == [] then map[]
    else
      var last := fs[|fs| - 1];
      Writes(fs[..|fs| - 1], meta)[last.name := Blob(last.content, last.contentType, meta)]
  }

  // ---------------------------------------------------------------------
  // Helpers about names, interleavings and writes

  lemma {:induction false} NamesAt(fs: seq<FilePayload>)
    ensures |Names(fs)| == |fs|
    ensures forall i :: 0 <= i < |fs| ==> Names(fs)[i] == fs[i].name
  {
    if fs != [] {
      NamesAt(fs[..|fs| - 1]);
    }
  }

  lemma {:induction false} InterleavesLength(names: seq<string>, s: seq<string>, f: seq<string>)
    requires Interleaves(names, s, f)
    ensures |s| + |f| == |names|
    decreases |names|
  {
    if names != [] {
      var rest := names[..|names| - 1];
      if s != [] && s[|s| - 1] == names[|names| - 1] && Interleaves(rest, s[..|s| - 1], f) {
        InterleavesLength(rest, s[..|s| - 1], f);
      } else {
        InterleavesLength(rest, s, f[..|f| - 1]);
      }
    }
  }

  lemma {:induction false} InterleavesKeepsPlain(names: seq<string>, s: seq<string>, f: seq<string>)
    requires Interleaves(names, s, f)
    requires forall i :: 0 <= i < |names| ==> Plain(names[i])
    ensures forall i :: 0 <= i < |s| ==> Plain(s[i])
    ensures forall i :: 0 <= i < |f| ==> Plain(f[i])
    decreases |names|
  {
    if names != [] {
      var rest := names[..|names| - 1];
      assert forall i :: 0 <= i < |rest| ==> Plain(rest[i]) by {
        forall i | 0 <= i < |rest| ensures Plain(rest[i]) { assert rest[i] == names[i]; }
      }
      if s != [] && s[|s| - 1] == names[|names| - 1] && Interleaves(rest, s[..|s| - 1], f) {
        InterleavesKeepsPlain(rest, s[..|s| - 1], f);
        forall i | 0 <= i < |s| ensures Plain(s[i]) {
          if i < |s| - 1 { assert s[i] == s[..|s| - 1][i]; }
        }
      } else {
        InterleavesKeepsPlain(rest, s, f[..|f| - 1]);
        forall i | 0 <= i < |f| ensures Plain(f[i]) {
          if i < |f| - 1 { assert f[i] == f[..|f| - 1][i]; }
        }
      }
    }
  }

  lemma {:induction false} WritesKeys(fs: seq<FilePayload>, meta: Metadata)
    ensures Writes(fs, meta).Keys == set i | 0 <= i < |fs| :: fs[i].name
  {
    if fs != [] {
      var init := fs[..|fs| - 1];
      WritesKeys(init, meta);
      var s := set i | 0 <= i < |fs| :: fs[i].name;
      var t := set i | 0 <= i < |init| :: init[i].name;
      assert s == t + {fs[|fs| - 1].name} by {
        forall k | k in s ensures k in t + {fs[|fs| - 1].name} {
          var i :| 0 <= i < |fs| && fs[i].name == k;
          if i < |init| { assert init[i] == fs[i]; }
        }
        forall k | k in t ensures k in s {
          var i :| 0 <= i < |init| && init[i].name == k;
          assert fs[i] == init[i];
        }
      }
    }
  }

  lemma NamesOfPrefix(fs: seq<FilePayload>, n: nat)
    requires 0 < n <= |fs|
    ensures Names(fs[..n]) == Names(fs[..n - 1]) + [fs[n - 1].name]
  {
    assert fs[..n][..n - 1] == fs[..n - 1];
  }

  lemma InterleavesSnoc(names: seq<string>, s: seq<string>, f: seq<string>, x: string)
    requires Interleaves(names, s, f)
    ensures Interleaves(names + [x], s + [x], f)
    ensures Interleaves(names + [x], s, f + [x])
  {
    assert (names + [x])[..|names|] == names;
    assert (s + [x])[..|s|] == s;
    assert (f + [x])[..|f|] == f;
  }

  lemma WritesOfPrefix(fs: seq<FilePayload>, n: nat, store: Store, meta: Metadata)
    requires 0 < n <= |fs|
    ensures store + Writes(fs[..n], meta)
         == (store + Writes(fs[..n - 1], meta))[fs[n - 1].name := Blob(fs[n - 1].content, fs[n - 1].contentType, meta)]
  {
    assert fs[..n][..n - 1] == fs[..n - 1];
  }

  lemma FreshNameNotWritten(fs: seq<FilePayload>, n: nat, store: Store, meta: Metadata)
    requires 0 < n <= |fs|
    requires FreshNames(fs[..n], store)
    ensures FreshNames(fs[..n - 1], store)
    ensures fs[n - 1].name !in store + Writes(fs[..n - 1], meta)
  {
    var init := fs[..n - 1];
    forall i | 0 <= i < |init| ensures init[i] == fs[..n][i] { }
    assert fs[..n][n - 1] == fs[n - 1];
    WritesKeys(init, meta);
  }

  // ---------------------------------------------------------------------
  // One file

  /** One file's pass changes at most the blob of its own name, and only to that file's upload. */
  lemma StepTouchesOwnBlob(b: Batch, f: FilePayload, x: Faults, overwrite: bool, meta: Metadata)
    requires b.status == Running
    ensures var r := Step(b, f, x, overwrite, meta);
      && r.store - {f.name} == b.store - {f.name}
      && (f.name in r.store ==>
            (f.name in b.store && r.store[f.name] == b.store[f.name])
            || r.store[f.name] == Blob(f.content, f.contentType, meta))
  {
  }

  /**
   * One file's pass makes one to three calls, the exists call first, all
   * naming the file, and any upload among them sends the file's own bytes,
   * content type and the batch's metadata.
   */
  lemma StepCallsOwnName(b: Batch, f: FilePayload, x: Faults, overwrite: bool, meta: Metadata)
    requires b.status == Running
    ensures var r := Step(b, f, x, overwrite, meta);
      && |b.calls| < |r.calls| <= |b.calls| + 3
      && r.calls[..|b.calls|] == b.calls
      && r.calls[|b.calls|] == ExistsCall(f.name)
      && (forall j :: |b.calls| <= j < |r.calls| ==> r.calls[j].name == f.name)
      && (forall j :: |b.calls| <= j < |r.calls| && r.calls[j].UploadCall? ==>
            r.calls[j] == UploadCall(f.name, f.content, f.contentType, meta))
  {
  }

  /** When the loop goes on after a file, its name is in exactly one of the lists; when it stops, in neither. */
  lemma StepRecordsOnce(b: Batch, f: FilePayload, x: Faults, overwrite: bool, meta: Metadata)
    requires b.status == Running
    ensures var r := Step(b, f, x, overwrite, meta);
      && (r.status != Running ==> r.succeeded == b.succeeded && r.failed == b.failed)
      && (r.status == Running ==>
            || (r.succeeded == b.succeeded + [f.name] && r.failed == b.failed)
            || (r.succeeded == b.succeeded && r.failed == b.failed + [f.name]))
  {
  }

  /**
   * A bundle of StepTouchesOwnBlob, StepCallsOwnName and StepRecordsOnce in
   * one statement, for the batch-level proofs that need all three at once.
   */
  lemma StepShape(b: Batch, f: FilePayload, x: Faults, overwrite: bool, meta: Metadata)
    requires b.status == Running
    ensures var r := Step(b, f, x, overwrite, meta);
      && r.store - {f.name} == b.store - {f.name}
      && |b.calls| < |r.calls| <= |b.calls| + 3
      && r.calls[..|b.calls|] == b.calls
      && r.calls[|b.calls|] == ExistsCall(f.name)
      && (forall j :: |b.calls| <= j < |r.calls| ==> r.calls[j].name == f.name)
      && (forall j :: |b.calls| <= j < |r.calls| && r.calls[j].UploadCall? ==>
            r.calls[j] == UploadCall(f.name, f.content, f.contentType, meta))
      && (f.name in r.store ==>
            (f.name in b.store && r.store[f.name] == b.store[f.name])
            || r.store[f.name] == Blob(f.content, f.contentType, meta))
      && (r.status != Running ==> r.succeeded == b.succeeded && r.failed == b.failed)
      && (r.status == Running ==>
            || (r.succeeded == b.succeeded + [f.name] && r.failed == b.failed)
            || (r.succeeded == b.succeeded && r.failed == b.failed + [f.name]))
  {
    StepTouchesOwnBlob(b, f, x, overwrite, meta);
    StepCallsOwnName(b, f, x, overwrite, meta);
    StepRecordsOnce(b, f, x, overwrite, meta);
  }

  /** Calls logged before a file's pass stay in front of the calls it makes. */
  lemma StepKeepsEarlierCalls(b: Batch, pre: seq<Call>, f: FilePayload, x: Faults, overwrite: bool, meta: Metadata)
    requires b.status == Running
    ensures var r := Step(b, f, x, overwrite, meta);
      Step(b.(calls := pre + b.calls), f, x, overwrite, meta) == r.(calls := pre + r.calls)
  {
    var c1 := ExistsCall(f.name);
    var c2 := DeleteCall(f.name);
    var c3 := UploadCall(f.name, f.content, f.contentType, meta);
    assert (pre + b.calls) + [c1] == pre + (b.calls + [c1]);
    assert (pre + b.calls) + [c1] + [c2] == pre + (b.calls + [c1] + [c2]);
    assert (pre + b.calls) + [c1] + [c3] == pre + (b.calls + [c1] + [c3]);
    assert (pre + b.calls) + [c1] + [c2] + [c3] == pre + (b.calls + [c1] + [c2] + [c3]);
  }

  /**
   * A file's pass stops the batch with the permission notice exactly when
   * one of the calls it makes meets AuthorizationPermissionMismatch.
   */
  lemma StepAbortsOnPermissionMismatch(b: Batch, f: FilePayload, x: Faults, overwrite: bool, meta: Metadata)
    requires b.status == Running
    ensures var deletes := f.name in b.store && overwrite;
      var uploads := f.name !in b.store || overwrite;
      Step(b, f, x, overwrite, meta).status == Aborted <==>
        || x.onExists == PermissionMismatch
        || (x.onExists == Succeeds && deletes && x.onDelete == PermissionMismatch)
        || (x.onExists == Succeeds && uploads && (deletes ==> x.onDelete == Succeeds)
            && x.onUpload == PermissionMismatch)
  {
  }

  /**
   * The name is stored and overwriting is off: the file is recorded as
   * failed after the exists call alone; nothing is deleted or uploaded and
   * the container is unchanged.
   */
  lemma ExistingNameWithoutOverwriteIsSkipped(req: Request, plan: seq<Faults>, store0: Store, i: nat)
    requires i < |req.files|
    requires Run(req, plan, store0, i).status == Running
    requires req.files[i].name in Run(req, plan, store0, i).store
    requires FaultsAt(plan, i).onExists == Succeeds && !req.overwrite
    ensures var b := Run(req, plan, store0, i);
      var name := req.files[i].name;
      Run(req, plan, store0, i + 1) == b.(failed := b.failed + [name], calls := b.calls + [ExistsCall(name)])
  {
  }

  /**
   * The name is stored and overwriting is on: the blob is deleted before the
   * upload. A successful upload stores the new bytes and records success;
   * any other upload failure records the name as failed, the old blob stays
   * deleted, and the loop goes on.
   */
  lemma ExistingNameWithOverwriteIsReplaced(req: Request, plan: seq<Faults>, store0: Store, i: nat)
    requires i < |req.files|
    requires Run(req, plan, store0, i).status == Running
    requires req.files[i].name in Run(req, plan, store0, i).store
    requires req.overwrite
    requires FaultsAt(plan, i).onExists == Succeeds && FaultsAt(plan, i).onDelete == Succeeds
    ensures var b := Run(req, plan, store0, i);
      var r := Run(req, plan, store0, i + 1);
      var f := req.files[i];
      var o := FaultsAt(plan, i).onUpload;
      && r.calls == b.calls + [ExistsCall(f.name), DeleteCall(f.name),
                               UploadCall(f.name, f.content, f.contentType, MetadataOf(req))]
      && (o == Succeeds ==>
            && r.status == Running
            && r.store == b.store[f.name := Blob(f.content, f.contentType, MetadataOf(req))]
            && r.succeeded == b.succeeded + [f.name] && r.failed == b.failed)
      && (o == OtherFailure ==>
            && r.status == Running
            && r.store == b.store - {f.name}
            && r.succeeded == b.succeeded && r.failed == b.failed + [f.name])
  {
    var b := Run(req, plan, store0, i);
    var f := req.files[i];
    var blob := Blob(f.content, f.contentType, MetadataOf(req));
    assert (b.store - {f.name})[f.name := blob] == b.store[f.name := blob];
  }

  /**
   * The name is not stored: the file is uploaded with no delete call. A
   * successful upload stores it and records success; any other upload failure
   * records the name as failed, leaves the container as it was, and the loop
   * goes on.
   */
  lemma NewNameIsUploadedWithoutDelete(req: Request, plan: seq<Faults>, store0: Store, i: nat)
    requires i < |req.files|
    requires Run(req, plan, store0, i).status == Running
    requires req.files[i].name !in Run(req, plan, store0, i).store
    requires FaultsAt(plan, i).onExists == Succeeds
    ensures var b := Run(req, plan, store0, i);
      var r := Run(req, plan, store0, i + 1);
      var f := req.files[i];
      var o := FaultsAt(plan, i).onUpload;
      && r.calls == b.calls + [ExistsCall(f.name), UploadCall(f.name, f.content, f.contentType, MetadataOf(req))]
      && (o == Succeeds ==>
            && r.status == Running
            && r.store == b.store[f.name := Blob(f.content, f.contentType, MetadataOf(req))]
            && r.succeeded == b.succeeded + [f.name] && r.failed == b.failed)
      && (o == OtherFailure ==>
            && r.status == Running
            && r.store == b.store
            && r.succeeded == b.succeeded && r.failed == b.failed + [f.name])
  {
  }

  // ---------------------------------------------------------------------
  // The batch

  /** Once a file stops the batch, later files are never looked at. */
  lemma {:induction false} StoppedBatchStaysStopped(req: Request, plan: seq<Faults>, store0: Store, m: nat, n: nat)
    requires m <= n <= |req.files|
    requires Run(req, plan, store0, m).status != Running
    ensures Run(req, plan, store0, n) == Run(req, plan, store0, m)
    decreases n
  {
    if n > m {
      StoppedBatchStaysStopped(req, plan, store0, m, n - 1);
    }
  }

  /** A stopped batch was stopped by one file, and its state is the state right after that file. */
  lemma {:induction false} StoppedAtSomeFile(req: Request, plan: seq<Faults>, store0: Store, n: nat)
    requires n <= |req.files|
    requires Run(req, plan, store0, n).status != Running
    ensures exists k :: 0 <= k < n && Run(req, plan, store0, k).status == Running
                        && Run(req, plan, store0, k + 1) == Run(req, plan, store0, n)
    decreases n
  {
    if Run(req, plan, store0, n - 1).status == Running {
      assert Run(req, plan, store0, (n - 1) + 1) == Run(req, plan, store0, n);
    } else {
      StoppedAtSomeFile(req, plan, store0, n - 1);
    }
  }

  /**
   * While the batch runs, the files processed so far are split between the
   * success and failure lists, one entry each, both in batch order.
   */
  lemma {:induction false} RunPartitionsFiles(req: Request, plan: seq<Faults>, store0: Store, n: nat)
    requires n <= |req.files|
    requires Run(req, plan, store0, n).status == Running
    ensures var b := Run(req, plan, store0, n);
      Interleaves(Names(req.files[..n]), b.succeeded, b.failed) && |b.succeeded| + |b.failed| == n
    decreases n
  {
    var b := Run(req, plan, store0, n);
    if n > 0 {
      var prev := Run(req, plan, store0, n - 1);
      RunPartitionsFiles(req, plan, store0, n - 1);
      StepShape(prev, req.files[n - 1], FaultsAt(plan, n - 1), req.overwrite, MetadataOf(req));
      NamesOfPrefix(req.files, n);
      InterleavesSnoc(Names(req.files[..n - 1]), prev.succeeded, prev.failed, req.files[n - 1].name);
    }
    NamesAt(req.files[..n]);
    InterleavesLength(Names(req.files[..n]), b.succeeded, b.failed);
  }

  /**
   * A batch stopped by file `k` ends the request there: with the permission
   * notice when it was aborted, with the exception otherwise, and with the
   * blobs and calls as they were right after file `k`.
   */
  lemma StoppedBatchEndsRequest(req: Request, plan: seq<Faults>, store0: Store, k: nat)
    requires k < |req.files|
    requires Run(req, plan, store0, k + 1).status != Running
    ensures var b := Run(req, plan, store0, k + 1);
      Post(req, plan, store0)
        == PostResult(if b.status == Aborted then PermissionAbort(PermissionMessage) else Uncaught, b.store, b.calls)
  {
    StoppedBatchStaysStopped(req, plan, store0, k + 1, |req.files|);
  }

  /**
   * A permission error in file `k`'s calls ends the request with the fixed
   * notice and no list texts. No call is made for any later file, the lists
   * hold exactly the outcomes of the files before `k`, and every upload done
   * before the abort stays in the container: only file `k`'s own blob can
   * differ from the state before it.
   */
  lemma PermissionAbortEndsBatch(req: Request, plan: seq<Faults>, store0: Store, k: nat)
    requires k < |req.files|
    requires Run(req, plan, store0, k).status == Running
    requires Run(req, plan, store0, k + 1).status == Aborted
    ensures var before := Run(req, plan, store0, k);
      var after := Run(req, plan, store0, |req.files|);
      var r := Post(req, plan, store0);
      var name := req.files[k].name;
      && r.page == PermissionAbort(PermissionMessage)
      && after == Run(req, plan, store0, k + 1)
      && r.calls == after.calls
      && after.succeeded == before.succeeded && after.failed == before.failed
      && Interleaves(Names(req.files[..k]), after.succeeded, after.failed)
      && |before.calls| < |r.calls| <= |before.calls| + 3
      && r.calls[..|before.calls|] == before.calls
      && (forall j :: |before.calls| <= j < |r.calls| ==> r.calls[j].name == name)
      && r.store - {name} == before.store - {name}
  {
    StoppedBatchStaysStopped(req, plan, store0, k + 1, |req.files|);
    StepShape(Run(req, plan, store0, k), req.files[k], FaultsAt(plan, k), req.overwrite, MetadataOf(req));
    RunPartitionsFiles(req, plan, store0, k);
  }

  /**
   * A failure of the exists call, or of the delete call, with any error code
   * other than AuthorizationPermissionMismatch is not caught: the request
   * ends with the exception, after the calls made so far.
   */
  lemma GatewayErrorEscapes(req: Request, plan: seq<Faults>, store0: Store, k: nat)
    requires k < |req.files|
    requires Run(req, plan, store0, k).status == Running
    requires || FaultsAt(plan, k).onExists == OtherFailure
             || (&& FaultsAt(plan, k).onExists == Succeeds && req.overwrite
                 && req.files[k].name in Run(req, plan, store0, k).store
                 && FaultsAt(plan, k).onDelete == OtherFailure)
    ensures var r := Post(req, plan, store0);
      && r.page == Uncaught
      && r.store == Run(req, plan, store0, k + 1).store
      && r.calls == Run(req, plan, store0, k + 1).calls
  {
    StoppedBatchStaysStopped(req, plan, store0, k + 1, |req.files|);
  }

  /**
   * Every upload sends the request's metadata with the bytes and content
   * type of one of the files, and every blob in the container is either one
   * that was there before the request or one written with that metadata.
   */
  lemma {:induction false} UploadsCarryRequestMetadata(req: Request, plan: seq<Faults>, store0: Store, n: nat)
    requires n <= |req.files|
    ensures var b := Run(req, plan, store0, n);
      && (forall c :: c in b.calls && c.UploadCall? ==>
            && c.metadata == MetadataOf(req)
            && exists i :: 0 <= i < n && req.files[i] == FilePayload(c.name, c.contentType, c.content))
      && (forall key :: key in b.store ==>
            (key in store0 && b.store[key] == store0[key]) || b.store[key].metadata == MetadataOf(req))
    decreases n
  {
    if n > 0 {
      var prev := Run(req, plan, store0, n - 1);
      UploadsCarryRequestMetadata(req, plan, store0, n - 1);
      if prev.status == Running {
        var f := req.files[n - 1];
        var b := Run(req, plan, store0, n);
        StepShape(prev, f, FaultsAt(plan, n - 1), req.overwrite, MetadataOf(req));
        forall c | c in b.calls && c.UploadCall?
          ensures c.metadata == MetadataOf(req)
          ensures exists i :: 0 <= i < n && req.files[i] == FilePayload(c.name, c.contentType, c.content)
        {
          var j :| 0 <= j < |b.calls| && b.calls[j] == c;
          if j < |prev.calls| {
            assert c in prev.calls by { assert prev.calls[j] == b.calls[..|prev.calls|][j]; }
          } else {
            assert req.files[n - 1] == FilePayload(c.name, c.contentType, c.content);
          }
        }
        forall key | key in b.store
          ensures (key in store0 && b.store[key] == store0[key]) || b.store[key].metadata == MetadataOf(req)
        {
          if key != f.name {
            assert key in b.store - {f.name};
            assert key in prev.store - {f.name};
            assert b.store[key] == (b.store - {f.name})[key] == (prev.store - {f.name})[key] == prev.store[key];
          }
        }
      }
    }
  }

  /** A file with no faults whose name is new, or that may overwrite, is stored and recorded as uploaded. */
  lemma CleanStep(b: Batch, f: FilePayload, overwrite: bool, meta: Metadata)
    requires b.status == Running
    requires overwrite || f.name !in b.store
    ensures var r := Step(b, f, NoFaults, overwrite, meta);
      && r.status == Running
      && r.succeeded == b.succeeded + [f.name]
      && r.failed == b.failed
      && r.store == b.store[f.name := Blob(f.content, f.contentType, meta)]
  {
    var blob := Blob(f.content, f.contentType, meta);
    assert (b.store - {f.name})[f.name := blob] == b.store[f.name := blob];
  }

  /**
   * With no faults, and either overwriting on or every name new and
   * distinct, every file is uploaded: all names in the success list in batch
   * order, none failed, and each name holds the last file of that name.
   */
  lemma {:induction false} CleanRun(req: Request, plan: seq<Faults>, store0: Store, n: nat)
    requires n <= |req.files|
    requires FaultFree(plan, n)
    requires req.overwrite || FreshNames(req.files[..n], store0)
    ensures var b := Run(req, plan, store0, n);
      && b.status == Running
      && b.succeeded == Names(req.files[..n])
      && b.failed == []
      && b.store == store0 + Writes(req.files[..n], MetadataOf(req))
    decreases n
  {
    if n > 0 {
      var meta := MetadataOf(req);
      if !req.overwrite {
        FreshNameNotWritten(req.files, n, store0, meta);
      }
      assert FaultFree(plan, n - 1);
      CleanRun(req, plan, store0, n - 1);
      assert FaultsAt(plan, n - 1) == NoFaults;
      CleanStep(Run(req, plan, store0, n - 1), req.files[n - 1], req.overwrite, meta);
      NamesOfPrefix(req.files, n);
      WritesOfPrefix(req.files, n, store0, meta);
    }
  }

  /**
   * With no existing names, no duplicates and no faults, every file ends in
   * the success list and no failure text is produced.
   */
  lemma FreshBatchAllSucceed(req: Request, plan: seq<Faults>, store0: Store)
    requires |req.files| > 0
    requires FaultFree(plan, |req.files|)
    requires FreshNames(req.files, store0)
    ensures var r := Post(req, plan, store0);
      && r.page == Redirect(SuccessMessage(Names(req.files)), None)
      && r.store == store0 + Writes(req.files, MetadataOf(req))
  {
    assert req.files[..|req.files|] == req.files;
    CleanRun(req, plan, store0, |req.files|);
  }

  /**
   * Posting the same batch twice with overwriting on and no faults leaves the
   * same blobs in the container and reports the same uploads both times.
   */
  lemma RerunWithOverwriteIsIdempotent(req: Request, plan: seq<Faults>, store0: Store)
    requires req.overwrite
    requires FaultFree(plan, |req.files|)
    ensures var first := Post(req, plan, store0);
      var second := Post(req, plan, first.store);
      second.store == first.store && second.page == first.page
  {
    if |req.files| > 0 {
      var n := |req.files|;
      var w := Writes(req.files[..n], MetadataOf(req));
      CleanRun(req, plan, store0, n);
      CleanRun(req, plan, store0 + w, n);
      assert (store0 + w) + w == store0 + w;
    }
  }

  /**
   * A name posted twice in one batch, with overwriting off and the name not
   * yet stored: the first copy is uploaded and the second sees it and is
   * recorded as failed, so the name is in both lists.
   */
  lemma DuplicateNameLandsInBothLists(f1: FilePayload, f2: FilePayload, principalName: Option<string>,
                                      objectId: Option<string>, plan: seq<Faults>, store0: Store)
    requires f1.name == f2.name && f1.name !in store0
    requires FaultFree(plan, 2)
    ensures var b := Run(Request([f1, f2], false, principalName, objectId), plan, store0, 2);
      b.status == Running && b.succeeded == [f1.name] && b.failed == [f1.name]
  {
    assert FaultsAt(plan, 0) == NoFaults;
    assert FaultsAt(plan, 1) == NoFaults;
  }

  /**
   * A request that ends with a redirect reports each posted file exactly
   * once across the success and failure texts, in batch order, and produces
   * at least one of the two texts (names with no '<' in them).
   */
  lemma RedirectReportsEveryFileOnce(req: Request, plan: seq<Faults>, store0: Store)
    requires forall i :: 0 <= i < |req.files| ==> Plain(req.files[i].name)
    requires Post(req, plan, store0).page.Redirect?
    ensures var p := Post(req, plan, store0).page;
      && Interleaves(Names(req.files), Reported(SuccessHeader, p.success), Reported(FailureHeader, p.failure))
      && (p.success.Some? || p.failure.Some?)
  {
    var n := |req.files|;
    var b := Run(req, plan, store0, n);
    assert req.files[..n] == req.files;
    RunPartitionsFiles(req, plan, store0, n);
    NamesAt(req.files);
    InterleavesKeepsPlain(Names(req.files), b.succeeded, b.failed);
    ListingIsReadBack(SuccessHeader, b.succeeded);
    ListingIsReadBack(FailureHeader, b.failed);
  }
}
