/** The state of `FileUploadComponent` (frontend/src/components/FileUploadComponent.tsx):
    `visible`, `fileList` and `uploading`, and the handlers and effects that change
    them. React's state setters become assignments to the fields; each updater runs
    on the list current when it runs. Requests, toasts and timers are not part of
    the model: a handler is called with what its event delivers. */
module UploadComponent {
  import opened Wrappers
  import opened UploadFile
  import opened UploadMetrics

  /** The request `handleUpload` sends for entry `index`: the `file` parts of its form
      data, empty when the entry has no `originFileObj`. */
  datatype UploadRequest = UploadRequest(index: nat, fileParts: seq<string>)

  /** The request for one entry. */
  function RequestFor(index: nat, f: FileRec): (r: UploadRequest)
    ensures r.index == index
    ensures |r.fileParts| <= 1 && (|r.fileParts| == 1 <==> f.originFile.Some?)
    ensures f.originFile.Some? ==> r.fileParts == [f.originFile.value]
  {
    UploadRequest(index, if f.originFile.Some? then [f.originFile.value] else [])
  }

  class FileUploadComponent {
    var visible: bool
    var fileList: seq<FileRec>
    var uploading: bool

    /** The invariant every handler keeps. */
    predicate Valid()
      reads this
    {
      Consistent(fileList)
    }

    /** `useState(false)`, `useState([])`, `useState(false)`. */
    constructor ()
      ensures Valid() && !visible && fileList == [] && !uploading
    {
      visible, fileList, uploading := false, [], false;
    }

    /** The "Upload CSV Files" button. */
    method Open()
      modifies this
      ensures visible && fileList == old(fileList) && uploading == old(uploading)
    {
      visible := true;
    }

    /** `handleChange`: the selection replaces the list, every entry reset. */
    method HandleChange(files: seq<FileRec>)
      modifies this
      ensures Valid()
      ensures fileList == Selected(files) && visible == old(visible) && uploading == old(uploading)
    {
      SelectedConsistent(files);
      fileList := Selected(files);
    }

    /** The completion effect: `uploading` is cleared once every entry is at 100. */
    method SyncUploading()
      modifies this
      ensures uploading == (old(uploading) && !AllProcessingComplete(fileList))
      ensures fileList == old(fileList) && visible == old(visible)
    {
      var allProcessingComplete := AllProcessingComplete(fileList);
      if allProcessingComplete && uploading {
        uploading := false;
      }
    }

    /** `handleUpload`: start one request per entry, in list order. */
    method HandleUpload() returns (requests: seq<UploadRequest>)
      modifies this
      ensures uploading && fileList == old(fileList) && visible == old(visible)
      ensures |requests| == |fileList|
      ensures forall i :: 0 <= i < |fileList| ==> requests[i] == RequestFor(i, fileList[i])
    {
      uploading := true;
      requests := [];
      for index := 0 to |fileList|
        invariant |requests| == index
        invariant forall i :: 0 <= i < index ==> requests[i] == RequestFor(i, fileList[i])
      {
        var fileObj := fileList[index];
        var fileParts: seq<string> := [];
        if fileObj.originFile.Some? {
          fileParts := fileParts + [fileObj.originFile.value];
        }
        requests := requests + [UploadRequest(index, fileParts)];
      }
    }

    /** `xhr.upload.onprogress` for entry `index`: with a computable length the
        updater copies the list and updates that entry's upload fields in place. */
    method OnUploadProgress(index: nat, lengthComputable: bool, loaded: nat, total: nat, now: Timestamp)
      requires index < |fileList| && (lengthComputable ==> total > 0)
      requires Valid()
      modifies this
      ensures Valid()
      ensures fileList == if lengthComputable
                          then UploadProgressed(old(fileList), index, (loaded as real) / (total as real) * 100.0, now)
                          else old(fileList)
      ensures visible == old(visible) && uploading == old(uploading)
    {
      if lengthComputable {
        var uploadProgress := (loaded as real) / (total as real) * 100.0;
        UploadProgressedConsistent(fileList, index, uploadProgress, now);
        var newFileList := fileList;
        var fObj := newFileList[index];
        fObj := fObj.(uploadProgress := uploadProgress);
        if fObj.uploadStartTime.None? {
          fObj := fObj.(uploadStartTime := Some(now));
        }
        if uploadProgress == 100.0 && fObj.uploadEndTime.None? {
          fObj := fObj.(uploadEndTime := Some(now));
        }
        newFileList := newFileList[index := fObj];
        fileList := newFileList;
      }
    }

    /** `xhr.onload` for entry `index`: a 2xx status queues the file-id updater,
        any other status clears `uploading`. */
    method OnLoad(index: nat, status: int, body: LoadBody, now: Timestamp)
      requires index < |fileList| && Valid()
      modifies this
      ensures Valid()
      ensures 200 <= status < 300 ==> fileList == Loaded(old(fileList), index, body, now) && uploading == old(uploading)
      ensures !(200 <= status < 300) ==> fileList == old(fileList) && !uploading
      ensures visible == old(visible)
    {
      if 200 <= status < 300 {
        var fileId := ResponseFileId(body);
        if fileId.Some? {
          LoadedConsistent(fileList, index, body, now);
          var newFileList := fileList;
          var fObj := newFileList[index];
          fObj := fObj.(fileId := Some(fileId.value));
          fObj := fObj.(processingStartTime := Some(now));
          newFileList := newFileList[index := fObj];
          fileList := newFileList;
        }
      } else {
        uploading := false;
      }
    }

    /** `xhr.onerror`: a network error clears `uploading`. */
    method OnError()
      modifies this
      ensures !uploading && fileList == old(fileList) && visible == old(visible)
    {
      uploading := false;
    }

    /** A polling tick's answer: the merge updater. */
    method OnProgressPoll(data: seq<ProgressData>, now: Timestamp)
      requires Valid()
      modifies this
      ensures Valid()
      ensures fileList == Merged(old(fileList), data, now)
      ensures visible == old(visible) && uploading == old(uploading)
    {
      MergedConsistent(fileList, data, now);
      fileList := Merged(fileList, data, now);
    }

    /** `handleModalClose`: refused while uploading; otherwise the modal closes and
        the list is emptied. */
    method HandleModalClose()
      modifies this
      ensures old(uploading) ==> visible == old(visible) && fileList == old(fileList) && uploading
      ensures !old(uploading) ==> !visible && fileList == [] && !uploading
    {
      if !uploading {
        visible := false;
        fileList := [];
      }
    }
  }

  /** What the invariant buys the metrics: in a state the handlers keep, a file that
      finished uploading has an upload start and a file that finished processing has
      a processing start, so neither span is measured from a missing start. */
  lemma ValidSpansStarted(c: FileUploadComponent)
    requires c.Valid()
    ensures AnySet(c.fileList, UploadEnd) ==> AnySet(c.fileList, UploadStart)
    ensures AnySet(c.fileList, ProcessingEnd) ==> AnySet(c.fileList, ProcessingStart)
  {
    if AnySet(c.fileList, UploadEnd) {
      var i :| 0 <= i < |c.fileList| && TimeOf(c.fileList[i], UploadEnd).Some?;
      assert ConsistentEntry(c.fileList[i]);
      assert TimeOf(c.fileList[i], UploadStart).Some?;
    }
    if AnySet(c.fileList, ProcessingEnd) {
      var i :| 0 <= i < |c.fileList| && TimeOf(c.fileList[i], ProcessingEnd).Some?;
      assert ConsistentEntry(c.fileList[i]);
      assert TimeOf(c.fileList[i], ProcessingStart).Some?;
    }
  }
}
