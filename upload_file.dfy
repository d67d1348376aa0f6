/** The per-file record `CustomUploadFile` of
    frontend/src/components/FileUploadComponent.tsx and the transitions the
    component's handlers apply to the list of them. Times are `Date.now()` readings
    passed in by the caller; JavaScript's truthiness tests treat 0 and the empty
    string as unset, so stored times are positive and stored file ids non-empty. */
module UploadFile {
  import opened Wrappers

  /** A stored `Date.now()` reading. */
  type Timestamp = t: int | t > 0 witness 1

  /** A stored server file id. */
  type FileId = s: string | |s| > 0 witness "f"

  /** `CustomUploadFile`: of Ant Design's `UploadFile` the model keeps `uid`, `name`
      and `originFileObj` (the selected file's content), then the fields the
      component adds. */
  datatype FileRec = FileRec(
    uid: string,
    name: string,
    originFile: Option<string>,
    uploadProgress: real,
    processProgress: int,
    uploadStartTime: Option<Timestamp>,
    uploadEndTime: Option<Timestamp>,
    processingStartTime: Option<Timestamp>,
    processingEndTime: Option<Timestamp>,
    fileId: Option<FileId>,
    recordsProcessed: int)

  /** `a` and `b` agree on everything Ant Design owns. */
  predicate SameFile(a: FileRec, b: FileRec)
  {
    a.uid == b.uid && a.name == b.name && a.originFile == b.originFile
  }

  // ---------------------------------------------------------------------------
  // handleChange

  /** One entry of the fresh list `handleChange` builds: the file with every
      tracking field back at its start. */
  function Reset(f: FileRec): (r: FileRec)
    ensures SameFile(r, f) && r.fileId.None? && r.uploadProgress == 0.0 && r.processProgress == 0
    ensures r.uploadStartTime.None? && r.uploadEndTime.None? && r.processingStartTime.None? && r.processingEndTime.None?
  {
    f.(uploadProgress := 0.0, processProgress := 0,
       uploadStartTime := None, uploadEndTime := None,
       processingStartTime := None, processingEndTime := None,
       fileId := None, recordsProcessed := 0)
  }

  /** The list `handleChange` stores for the files Ant Design reports as selected. */
  function Selected(files: seq<FileRec>): (r: seq<FileRec>)
    ensures |r| == |files| && forall i :: 0 <= i < |r| ==> SameFile(r[i], files[i])
  {
    seq(|files|, i requires 0 <= i < |files| => Reset(files[i]))
  }

  /** The fresh list has one entry per selected file, in order, each the same file
      with both progresses and the record count at 0 and no times and no file id. */
  lemma SelectedEntries(files: seq<FileRec>)
    ensures |Selected(files)| == |files|
    ensures forall i :: 0 <= i < |files| ==>
      var f := Selected(files)[i];
      SameFile(f, files[i]) && f.uploadProgress == 0.0 && f.processProgress == 0 &&
      f.recordsProcessed == 0 && f.fileId.None? &&
      f.uploadStartTime.None? && f.uploadEndTime.None? &&
      f.processingStartTime.None? && f.processingEndTime.None?
  {
  }

  /** Selecting the same files again changes nothing. */
  lemma SelectedIdempotent(files: seq<FileRec>)
    ensures Selected(Selected(files)) == Selected(files)
  {
  }

  // ---------------------------------------------------------------------------
  // The upload-progress updater

  /** The updater `xhr.upload.onprogress` queues for entry `index` with the event's
      percentage `value`: the progress is overwritten, the start time is set if it is
      unset, and the end time is set when the value is exactly 100 and it is unset. */
  function UploadProgressed(list: seq<FileRec>, index: nat, value: real, now: Timestamp): (r: seq<FileRec>)
    requires index < |list|
    ensures |r| == |list| && forall j :: 0 <= j < |list| && j != index ==> r[j] == list[j]
    ensures SameFile(r[index], list[index]) && r[index].uploadProgress == value
  {
    var f := list[index];
    var started := f.(uploadProgress := value,
                      uploadStartTime := if f.uploadStartTime.None? then Some(now) else f.uploadStartTime);
    var ended := if value == 100.0 && started.uploadEndTime.None? then started.(uploadEndTime := Some(now)) else started;
    list[index := ended]
  }

  /** Only entry `index` changes, and of it only the three upload fields: the
      progress takes the new value, a set start time stays and an unset one becomes
      `now`, and the end time becomes `now` exactly when it was unset and the value
      is 100. */
  lemma UploadProgressedEntries(list: seq<FileRec>, index: nat, value: real, now: Timestamp)
    requires index < |list|
    ensures var r := UploadProgressed(list, index, value, now);
      |r| == |list| && (forall j :: 0 <= j < |list| && j != index ==> r[j] == list[j]) &&
      r[index] == list[index].(uploadProgress := value, uploadStartTime := r[index].uploadStartTime,
                               uploadEndTime := r[index].uploadEndTime) &&
      r[index].uploadProgress == value &&
      r[index].uploadStartTime == (if list[index].uploadStartTime.Some? then list[index].uploadStartTime else Some(now)) &&
      (r[index].uploadEndTime != list[index].uploadEndTime <==> list[index].uploadEndTime.None? && value == 100.0) &&
      (r[index].uploadEndTime != list[index].uploadEndTime ==> r[index].uploadEndTime == Some(now))
  {
  }

  /** One `onprogress` event with a computable length: the percentage and the time
      it was handled. */
  datatype ProgressEvent = ProgressEvent(value: real, time: Timestamp)

  /** A run of upload-progress events for entry `index`, applied in delivery order. */
  function UploadEvents(list: seq<FileRec>, index: nat, events: seq<ProgressEvent>): (r: seq<FileRec>)
    requires index < |list|
    ensures |r| == |list|
    decreases |events|
  {
    if events == [] then list
    else
      var last := events[|events| - 1];
      UploadProgressed(UploadEvents(list, index, events[..|events| - 1]), index, last.value, last.time)
  }

  /** The time of the first event whose value is exactly 100. */
  function FirstHundred(events: seq<ProgressEvent>): (t: Option<Timestamp>)
    ensures t.None? <==> forall k :: 0 <= k < |events| ==> events[k].value != 100.0
    ensures t.Some? ==> exists k :: 0 <= k < |events| && events[k].value == 100.0 && events[k].time == t.value &&
                                   forall k' :: 0 <= k' < k ==> events[k'].value != 100.0
  {
    if events == [] then None
    else if events[0].value == 100.0 then Some(events[0].time)
    else
      var t := FirstHundred(events[1..]);
      assert forall k :: 1 <= k < |events| ==> events[k] == events[1..][k - 1];
      t
  }

  lemma FirstHundredSnoc(events: seq<ProgressEvent>, e: ProgressEvent)
    ensures FirstHundred(events + [e]) ==
      if FirstHundred(events).Some? then FirstHundred(events) else if e.value == 100.0 then Some(e.time) else None
  {
    var all := events + [e];
    assert all[..|events|] == events;
    if FirstHundred(events).Some? {
      var k :| 0 <= k < |events| && events[k].value == 100.0 && events[k].time == FirstHundred(events).value &&
               forall k' :: 0 <= k' < k ==> events[k'].value != 100.0;
      assert all[k] == events[k];
      FirstHundredIs(all, k);
    } else if e.value == 100.0 {
      assert all[|events|] == e;
      FirstHundredIs(all, |events|);
    }
  }

  /** The first event valued 100 determines `FirstHundred`. */
  lemma FirstHundredIs(events: seq<ProgressEvent>, k: nat)
    requires k < |events| && events[k].value == 100.0
    requires forall k' :: 0 <= k' < k ==> events[k'].value != 100.0
    ensures FirstHundred(events) == Some(events[k].time)
  {
    var t := FirstHundred(events);
    if t.Some? {
      var m :| 0 <= m < |events| && events[m].value == 100.0 && events[m].time == t.value &&
               forall k' :: 0 <= k' < m ==> events[k'].value != 100.0;
      assert m == k;
    }
  }

  /** `a` is `b` apart from the three upload fields. */
  predicate SameButUpload(a: FileRec, b: FileRec)
  {
    a == b.(uploadProgress := a.uploadProgress, uploadStartTime := a.uploadStartTime, uploadEndTime := a.uploadEndTime)
  }

  /** After a run of events every other entry is as it was, and of entry `index`
      only the upload fields may differ. */
  lemma {:induction false} UploadEventsFrame(list: seq<FileRec>, index: nat, events: seq<ProgressEvent>)
    requires index < |list|
    ensures forall j :: 0 <= j < |list| && j != index ==> UploadEvents(list, index, events)[j] == list[j]
    ensures SameButUpload(UploadEvents(list, index, events)[index], list[index])
    decreases |events|
  {
    if events != [] {
      var front := events[..|events| - 1];
      var last := events[|events| - 1];
      UploadEventsFrame(list, index, front);
      UploadProgressedEntries(UploadEvents(list, index, front), index, last.value, last.time);
    }
  }

  /** After a run of events the progress is the last event's value (a later, lower
      value overwrites a higher one), and the start time is the one already set or
      else the first event's time. */
  lemma {:induction false} UploadEventsStart(list: seq<FileRec>, index: nat, events: seq<ProgressEvent>)
    requires index < |list|
    ensures var r := UploadEvents(list, index, events)[index];
      (events != [] ==> r.uploadProgress == events[|events| - 1].value) &&
      r.uploadStartTime ==
        (if list[index].uploadStartTime.Some? || events == [] then list[index].uploadStartTime else Some(events[0].time))
    decreases |events|
  {
    if events != [] {
      var front := events[..|events| - 1];
      var last := events[|events| - 1];
      UploadEventsStart(list, index, front);
      UploadProgressedEntries(UploadEvents(list, index, front), index, last.value, last.time);
      if front != [] {
        assert front[0] == events[0];
      }
    }
  }

  /** After a run of events the end time is the one already set or else the time of
      the first event valued 100, unset when there was none: the first write wins. */
  lemma {:induction false} UploadEventsEnd(list: seq<FileRec>, index: nat, events: seq<ProgressEvent>)
    requires index < |list|
    ensures UploadEvents(list, index, events)[index].uploadEndTime ==
      (if list[index].uploadEndTime.Some? then list[index].uploadEndTime else FirstHundred(events))
    decreases |events|
  {
    if events != [] {
      var front := events[..|events| - 1];
      var last := events[|events| - 1];
      UploadEventsEnd(list, index, front);
      UploadProgressedEntries(UploadEvents(list, index, front), index, last.value, last.time);
      assert events == front + [last];
      FirstHundredSnoc(front, last);
    }
  }

  // ---------------------------------------------------------------------------
  // The onload updater

  /** The body of a 2xx response: text that is not JSON, or a JSON value with its
      `file_id` member if it has one. */
  datatype LoadBody = Unparsable | Json(fileId: Option<string>)

  /** `const { file_id } = response || {}` followed by `if (file_id)`. */
  function ResponseFileId(body: LoadBody): (r: Option<FileId>)
    ensures r.Some? <==> body.Json? && body.fileId.Some? && body.fileId.value != ""
    ensures r.Some? ==> r.value == body.fileId.value
  {
    if body.Json? && body.fileId.Some? && body.fileId.value != "" then Some(body.fileId.value) else None
  }

  /** The updater a 2xx `onload` queues: with a file id in the body, entry `index`
      takes it and starts processing at `now`; without one, nothing is queued. */
  function Loaded(list: seq<FileRec>, index: nat, body: LoadBody, now: Timestamp): (r: seq<FileRec>)
    requires index < |list|
    ensures |r| == |list| && forall j :: 0 <= j < |list| && j != index ==> r[j] == list[j]
    ensures SameFile(r[index], list[index]) && r[index].uploadProgress == list[index].uploadProgress
  {
    match ResponseFileId(body)
    case None => list
    case Some(id) => list[index := list[index].(fileId := Some(id), processingStartTime := Some(now))]
  }

  /** A body without a usable `file_id` leaves the list as it is; with one, only
      entry `index` changes, and of it only the file id and the processing start. */
  lemma LoadedEntries(list: seq<FileRec>, index: nat, body: LoadBody, now: Timestamp)
    requires index < |list|
    ensures ResponseFileId(body).None? ==> Loaded(list, index, body, now) == list
    ensures ResponseFileId(body).Some? ==>
      var r := Loaded(list, index, body, now);
      |r| == |list| && (forall j :: 0 <= j < |list| && j != index ==> r[j] == list[j]) &&
      r[index].fileId == Some(body.fileId.value) && r[index].processingStartTime == Some(now) &&
      r[index] == list[index].(fileId := r[index].fileId, processingStartTime := r[index].processingStartTime)
  {
  }

  // ---------------------------------------------------------------------------
  // The polling merge

  /** One element of the `/api/grades/progress` answer. */
  datatype ProgressData = ProgressData(fileId: string, recordsProcessed: int, progress: int)

  /** `data.find(d => d.file_id === id)`: the first element with that id. */
  function Find(data: seq<ProgressData>, id: string): (r: Option<ProgressData>)
    ensures r.None? <==> forall k :: 0 <= k < |data| ==> data[k].fileId != id
    ensures r.Some? ==> exists k :: 0 <= k < |data| && data[k] == r.value && r.value.fileId == id &&
                                   forall k' :: 0 <= k' < k ==> data[k'].fileId != id
  {
    if data == [] then None
    else if data[0].fileId == id then Some(data[0])
    else
      var r := Find(data[1..], id);
      assert forall k :: 1 <= k < |data| ==> data[k] == data[1..][k - 1];
      r
  }

  /** The merge of one entry: an entry with a file id that the answer mentions takes
      the progress and the record count of the first mention, and its processing end
      time becomes `now` when the progress is 100 and it is unset. */
  function MergeEntry(f: FileRec, data: seq<ProgressData>, now: Timestamp): FileRec
  {
    if f.fileId.None? then f
    else
      match Find(data, f.fileId.value)
      case None => f
      case Some(d) =>
        var g := f.(processProgress := d.progress, recordsProcessed := d.recordsProcessed);
        if d.progress == 100 && g.processingEndTime.None? then g.(processingEndTime := Some(now)) else g
  }

  /** The updater a polling answer queues: `prevFileList.map(...)`. */
  function Merged(list: seq<FileRec>, data: seq<ProgressData>, now: Timestamp): (r: seq<FileRec>)
    ensures |r| == |list| && forall i :: 0 <= i < |r| ==> SameFile(r[i], list[i]) && r[i].fileId == list[i].fileId
  {
    seq(|list|, i requires 0 <= i < |list| => MergeEntry(list[i], data, now))
  }

  /** The merge keeps the length; an entry without a file id or without a match is
      unchanged; a matched entry takes the first match's progress and record count,
      its processing end time changes exactly when it was unset and the progress is
      100, and nothing else of it changes. */
  lemma MergedEntries(list: seq<FileRec>, data: seq<ProgressData>, now: Timestamp)
    ensures |Merged(list, data, now)| == |list|
    ensures forall i :: 0 <= i < |list| && (list[i].fileId.None? || Find(data, list[i].fileId.value).None?) ==>
      Merged(list, data, now)[i] == list[i]
    ensures forall i :: 0 <= i < |list| && list[i].fileId.Some? && Find(data, list[i].fileId.value).Some? ==>
      var r := Merged(list, data, now)[i]; var d := Find(data, list[i].fileId.value).value;
      r.processProgress == d.progress && r.recordsProcessed == d.recordsProcessed &&
      (r.processingEndTime != list[i].processingEndTime <==> list[i].processingEndTime.None? && d.progress == 100) &&
      (r.processingEndTime != list[i].processingEndTime ==> r.processingEndTime == Some(now)) &&
      r == list[i].(processProgress := r.processProgress, recordsProcessed := r.recordsProcessed,
                    processingEndTime := r.processingEndTime)
  {
  }

  /** Applying the same answer twice is applying it once, whenever the second
      application happens. */
  lemma MergedIdempotent(list: seq<FileRec>, data: seq<ProgressData>, now: Timestamp, later: Timestamp)
    ensures Merged(Merged(list, data, now), data, later) == Merged(list, data, now)
  {
    var once := Merged(list, data, now);
    forall i | 0 <= i < |list|
      ensures MergeEntry(once[i], data, later) == once[i]
    {
      assert once[i].fileId == list[i].fileId;
    }
  }

  // ---------------------------------------------------------------------------
  // Polling eligibility and completion

  /** The `filesToPoll` test: a file id and a processing progress other than 100. */
  predicate NeedsPolling(f: FileRec)
  {
    f.fileId.Some? && f.processProgress != 100
  }

  /** `fileList.filter(...)` with that test. */
  function FilesToPoll(list: seq<FileRec>): (r: seq<FileRec>)
    ensures |r| <= |list|
    ensures forall f :: f in r <==> f in list && NeedsPolling(f)
  {
    if list == [] then []
    else (if NeedsPolling(list[0]) then [list[0]] else []) + FilesToPoll(list[1..])
  }

  /** Whether the polling effect arms its timer. */
  predicate ShouldPoll(list: seq<FileRec>)
  {
    |FilesToPoll(list)| > 0
  }

  /** Polling runs exactly when some entry has a file id and is not at 100. */
  lemma ShouldPollIff(list: seq<FileRec>)
    ensures ShouldPoll(list) <==> exists i :: 0 <= i < |list| && NeedsPolling(list[i])
  {
    if ShouldPoll(list) {
      var r := FilesToPoll(list);
      assert r[0] in r;
    } else if exists i :: 0 <= i < |list| && NeedsPolling(list[i]) {
      var i :| 0 <= i < |list| && NeedsPolling(list[i]);
      assert list[i] in list;
    }
  }

  /** `fileList.every(f => f.processProgress === 100)`. */
  predicate AllProcessingComplete(list: seq<FileRec>)
  {
    forall i :: 0 <= i < |list| ==> list[i].processProgress == 100
  }

  /** Once every entry is at 100 nothing is polled; an empty list is complete. */
  lemma CompleteStopsPolling(list: seq<FileRec>)
    ensures AllProcessingComplete(list) ==> !ShouldPoll(list)
    ensures AllProcessingComplete([])
  {
    ShouldPollIff(list);
  }

  /** A fresh selection polls nothing and is complete only when it is empty. */
  lemma SelectedIdle(files: seq<FileRec>)
    ensures !ShouldPoll(Selected(files))
    ensures AllProcessingComplete(Selected(files)) <==> files == []
  {
    ShouldPollIff(Selected(files));
    if files != [] {
      assert Selected(files)[0].processProgress == 0;
    }
  }

  /** An entry whose import failed (the server reports -1) or stopped short of 100
      keeps the list incomplete and keeps the polling timer armed: `uploading` is not
      cleared, so the modal cannot be closed. */
  lemma UnfinishedEntryKeepsPolling(list: seq<FileRec>, i: nat)
    requires i < |list| && list[i].fileId.Some? && list[i].processProgress != 100
    ensures !AllProcessingComplete(list) && ShouldPoll(list)
  {
    ShouldPollIff(list);
  }

  // ---------------------------------------------------------------------------
  // An invariant the handlers keep

  /** An upload end implies an upload start, a processing end implies a file id,
      and a file id implies a processing start. */
  predicate ConsistentEntry(f: FileRec)
  {
    (f.uploadEndTime.Some? ==> f.uploadStartTime.Some?) &&
    (f.processingEndTime.Some? ==> f.fileId.Some?) &&
    (f.fileId.Some? ==> f.processingStartTime.Some?)
  }

  predicate Consistent(list: seq<FileRec>)
  {
    forall i :: 0 <= i < |list| ==> ConsistentEntry(list[i])
  }

  /** A fresh selection is consistent. */
  lemma SelectedConsistent(files: seq<FileRec>)
    ensures Consistent(Selected(files))
  {
  }

  /** An upload-progress event keeps the list consistent: the start time is set no
      later than the end time. */
  lemma UploadProgressedConsistent(list: seq<FileRec>, index: nat, value: real, now: Timestamp)
    requires Consistent(list) && index < |list|
    ensures Consistent(UploadProgressed(list, index, value, now))
  {
    assert ConsistentEntry(list[index]);
  }

  /** A file id comes with its processing start. */
  lemma LoadedConsistent(list: seq<FileRec>, index: nat, body: LoadBody, now: Timestamp)
    requires Consistent(list) && index < |list|
    ensures Consistent(Loaded(list, index, body, now))
  {
    assert ConsistentEntry(list[index]);
  }

  /** Only an entry with a file id gets a processing end. */
  lemma MergedConsistent(list: seq<FileRec>, data: seq<ProgressData>, now: Timestamp)
    requires Consistent(list)
    ensures Consistent(Merged(list, data, now))
  {
  }
}
