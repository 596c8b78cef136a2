/** `_process_task` after the entry lookup: resolve the choice, download,
    split an oversize file, and send the pieces. The downloader, `split`, the
    file system and the host are inputs (`World`); status edits, captions and
    the thumbnail are left out because they never change the outcome. */
module Pipeline {
  import opened Wrappers
  import opened Selection
  import opened Resolution
  import opened Splitter
  import opened Delivery

  /** How the collaborators behave during one job. */
  datatype World = World(
    downloadOk: bool,           // the downloader returned without raising
    produced: Option<nat>,      // size of the file under the caption name, if it exists
    splitOk: bool,              // `split` exited with status 0
    partsFound: bool,           // the part files were found after splitting
    accepts: nat -> bool,       // the host accepts the i-th send
    forwards: nat -> bool)      // forwarding the i-th sent message to the log channel works

  /** Each failure `_process_task` reports before returning `False`. */
  datatype JobError =
    | NoTaskInfo
    | Unresolved(cause: TaskError)
    | DownloadFailed
    | FileMissing
    | SplitFailed
    | NoPartsFound
    | PartSendFailed
    | SendFailed

  /** What one job did: the request handed to the downloader (if any), the
      part size handed to `split` (if the file was split), the pieces the
      host accepted, how many were forwarded, and the failure, if any. */
  datatype Job = Job(
    plan: Option<TaskPlan>,
    partSize: Option<nat>,
    delivered: seq<nat>,
    forwarded: nat,
    error: Option<JobError>)

  /** The sizes of what is sent for a downloaded file of `size` bytes: the file
      itself up to the ceiling, else the pieces `split` writes. Either way
      nothing sent exceeds the ceiling and the pieces add up to the file. A split
      file gives every piece but the last the part size handed to `split -b`,
      and as many pieces as that size fits into the file, rounded up. */
  function Pieces(size: nat, equal: bool): (r: seq<nat>)
    ensures Sum(r) == size
    ensures forall i :: 0 <= i < |r| ==> r[i] <= MaxFileSize
    ensures |r| >= 1
    ensures NeedsSplit(size) <==> |r| >= 2
    ensures !NeedsSplit(size) ==> r == [size]
    ensures NeedsSplit(size) ==>
      && (forall i :: 0 <= i < |r| - 1 ==> r[i] == PartSize(size, MaxFileSize, equal))
      && |r| == CeilDiv(size, PartSize(size, MaxFileSize, equal))
      && |r| == CeilDiv(size, MaxFileSize)
  {
    if NeedsSplit(size) then
      var p := PartSize(size, MaxFileSize, equal);
      ChunkCount(size, p);
      ChunkSizes(size, p)
    else [size]
  }

  /** The send loop is reached: the entry exists, the choice resolves, the
      download produces the file, and an oversize file was split and its
      parts found. */
  predicate DeliveryReached(entry: Option<Entry>, kind: string, selection: string, w: World) {
    && entry.Some?
    && ResolveTask(entry.value, kind, selection).Success?
    && w.downloadOk && w.produced.Some?
    && (NeedsSplit(w.produced.value) ==> w.splitOk && w.partsFound)
  }

  /** The job succeeds iff the entry exists, the choice resolves, the
      download produces the file, splitting (when needed) works and finds its
      parts, and the host accepts every piece. Nothing is downloaded unless the
      choice resolved, splitting happens exactly above the ceiling, and on
      success the delivered pieces are the whole file, none above the ceiling. */
  method ProcessTask(entry: Option<Entry>, kind: string, selection: string, equalSplit: bool, w: World)
    returns (job: Job)
    ensures job.error.None? <==>
      && entry.Some?
      && ResolveTask(entry.value, kind, selection).Success?
      && w.downloadOk && w.produced.Some?
      && (NeedsSplit(w.produced.value) ==> w.splitOk && w.partsFound)
      && forall i :: 0 <= i < |Pieces(w.produced.value, equalSplit)| ==> w.accepts(i)
    ensures job.error == Some(NoTaskInfo) <==> entry.None?
    ensures entry.None? ==> job.plan.None?
    ensures (job.error.Some? && job.error.value.Unresolved?) <==>
      entry.Some? && ResolveTask(entry.value, kind, selection).Failure?
    ensures entry.Some? ==>
      var resolved := ResolveTask(entry.value, kind, selection);
      && (resolved.Success? ==> job.plan == Some(resolved.value))
      && (resolved.Failure? ==> job.plan.None? && job.error == Some(Unresolved(resolved.error)))
    ensures job.error == Some(DownloadFailed) <==> job.plan.Some? && !w.downloadOk
    ensures job.error == Some(FileMissing) <==> job.plan.Some? && w.downloadOk && w.produced.None?
    ensures job.partSize.Some? <==>
      job.plan.Some? && w.downloadOk && w.produced.Some? && NeedsSplit(w.produced.value)
    ensures job.partSize.Some? ==> job.partSize.value == PartSize(w.produced.value, MaxFileSize, equalSplit)
    ensures job.error == Some(SplitFailed) <==> job.partSize.Some? && !w.splitOk
    ensures job.error == Some(NoPartsFound) <==> job.partSize.Some? && w.splitOk && !w.partsFound
    ensures DeliveryReached(entry, kind, selection, w) ==>
      var pieces := Pieces(w.produced.value, equalSplit);
      && job.delivered == pieces[..FirstRejected(w.accepts, |pieces|)]
      && job.forwarded == CountTrue(w.forwards, |job.delivered|)
    ensures !DeliveryReached(entry, kind, selection, w) ==> job.delivered == [] && job.forwarded == 0
    ensures job.error == Some(PartSendFailed) <==>
      && DeliveryReached(entry, kind, selection, w) && job.partSize.Some?
      && FirstRejected(w.accepts, |Pieces(w.produced.value, equalSplit)|) < |Pieces(w.produced.value, equalSplit)|
    ensures job.error == Some(SendFailed) <==>
      && DeliveryReached(entry, kind, selection, w) && job.partSize.None?
      && FirstRejected(w.accepts, |Pieces(w.produced.value, equalSplit)|) < |Pieces(w.produced.value, equalSplit)|
    ensures job.delivered != [] ==>
      && w.produced.Some?
      && |job.delivered| <= |Pieces(w.produced.value, equalSplit)|
      && job.delivered == Pieces(w.produced.value, equalSplit)[..|job.delivered|]
    ensures job.error.None? ==>
      job.delivered == Pieces(w.produced.value, equalSplit) && Sum(job.delivered) == w.produced.value
    ensures forall i :: 0 <= i < |job.delivered| ==> job.delivered[i] <= MaxFileSize
    ensures job.forwarded <= |job.delivered|
  {
    if entry.None? {
      return Job(None, None, [], 0, Some(NoTaskInfo));
    }
    var resolved := ResolveTask(entry.value, kind, selection);
    if resolved.Failure? {
      return Job(None, None, [], 0, Some(Unresolved(resolved.error)));
    }
    var plan := Some(resolved.value);
    if !w.downloadOk {
      return Job(plan, None, [], 0, Some(DownloadFailed));
    }
    if w.produced.None? {
      return Job(plan, None, [], 0, Some(FileMissing));
    }
    var size := w.produced.value;
    var pieces := Pieces(size, equalSplit);
    var partSize: Option<nat> := None;
    if NeedsSplit(size) {
      partSize := Some(PartSize(size, MaxFileSize, equalSplit));
      if !w.splitOk {
        return Job(plan, partSize, [], 0, Some(SplitFailed));
      }
      if !w.partsFound {
        return Job(plan, partSize, [], 0, Some(NoPartsFound));
      }
    }
    var rep := DeliverParts(pieces, w.accepts, w.forwards);
    var error: Option<JobError> := None;
    if !rep.ok {
      error := if partSize.Some? then Some(PartSendFailed) else Some(SendFailed);
    }
    job := Job(plan, partSize, rep.delivered, rep.forwarded, error);
  }
}
