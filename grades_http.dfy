/** The upload handler `UploadGradesCSV` of backend/http/grades.go: it accepts the
    first file of the `file` form field, answers with a fresh file id, and then, in the
    background, converts the file, hands the grades to `InsertGrades` and turns every
    value that comes back on the progress channel into the `Progress` percentage of
    the file's `FileProcessingInfo`. The background work is modelled as running to
    completion when the upload is accepted. */
module GradesHttp {
  import opened Wrappers
  import opened Models
  import GradesCsv
  import GradesQuery
  import GradesRepository

  // ---------------------------------------------------------------------------
  // The progress percentage

  /** `int(math.Ceil(float64(n) / float64(total) * 100))` in exact arithmetic: the
      least integer that is at least `100 * n / total`. */
  function Percent(inserted: int, total: int): (p: int)
    requires total > 0
    ensures (p - 1) * total < 100 * inserted <= p * total
  {
    (100 * inserted + total - 1) / total
  }

  lemma MulMono(a: int, b: int, t: int)
    requires a <= b && t > 0
    ensures a * t <= b * t
  {
  }

  /** The percentage is the only integer with the ceiling property. */
  lemma PercentIs(inserted: int, total: int, p: int)
    requires total > 0
    requires (p - 1) * total < 100 * inserted <= p * total
    ensures Percent(inserted, total) == p
  {
    var q := Percent(inserted, total);
    if q < p {
      MulMono(q, p - 1, total);
    } else if q > p {
      MulMono(p, q - 1, total);
    }
  }

  /** For a count between 0 and the total the percentage lies between 0 and 100, is
      0 exactly for no grade, and 100 once every grade is in; for at most 100 grades,
      100 means every grade is in. */
  lemma PercentBounds(inserted: int, total: int)
    requires total > 0 && 0 <= inserted <= total
    ensures 0 <= Percent(inserted, total) <= 100
    ensures Percent(inserted, total) == 0 <==> inserted == 0
    ensures inserted == total ==> Percent(inserted, total) == 100
    ensures total <= 100 ==> (Percent(inserted, total) == 100 <==> inserted == total)
  {
    var p := Percent(inserted, total);
    if p < 0 {
      MulMono(p, -1, total);
    }
    if p > 100 {
      MulMono(100, p - 1, total);
    }
    if inserted == 0 {
      PercentIs(0, total, 0);
    }
    if inserted == total {
      PercentIs(total, total, 100);
    }
  }

  /** The repository reports a failed batch by sending -1, and the percentage of -1
      is 0 for more than 100 grades, -1 for 51 to 100 grades, and below -1 for at
      most 50. */
  lemma PercentOfFailureSentinel(total: int)
    requires total > 0
    ensures total > 100 ==> Percent(-1, total) == 0
    ensures 50 < total <= 100 ==> Percent(-1, total) == -1
    ensures total <= 50 ==> Percent(-1, total) < -1
    ensures Percent(-1, total) >= -100
  {
    var p := Percent(-1, total);
    if p < -100 {
      MulMono(p, -101, total);
    }
    if total > 100 {
      PercentIs(-1, total, 0);
    } else if total > 50 {
      PercentIs(-1, total, -1);
    } else if p >= -1 {
      MulMono(-2, p - 1, total);
    }
  }

  /** With more than 100 grades the percentage is already 100 while the last grade
      is still to be inserted: for instance 200 of 201. */
  lemma PercentHundredEarly(total: int)
    requires total > 100
    ensures Percent(total - 1, total) == 100
  {
    PercentIs(total - 1, total, 100);
  }

  /** The progress stored for a channel value: -1 for the failure sentinel, and the
      percentage capped at 99 until the last grade is in. */
  function ProgressFor(value: int, total: int): (p: int)
    requires total > 0
    ensures value < 0 ==> p == -1
    ensures value < total ==> p != 100
    ensures 0 <= value && Percent(value, total) != 100 ==> p == Percent(value, total)
  {
    if value < 0 then -1
    else if value < total && Percent(value, total) == 100 then 99
    else Percent(value, total)
  }

  /** The stored progress is -1 after a failure; for a count between 0 and the total
      it lies between 0 and 100, is 0 exactly for no grade and 100 exactly when every
      grade is in; below 100 it is the source's percentage. */
  lemma ProgressForBounds(value: int, total: int)
    requires total > 0
    ensures value < 0 ==> ProgressFor(value, total) == -1
    ensures 0 <= value <= total ==> 0 <= ProgressFor(value, total) <= 100
    ensures 0 <= value <= total ==> (ProgressFor(value, total) == 0 <==> value == 0)
    ensures 0 <= value <= total ==> (ProgressFor(value, total) == 100 <==> value == total)
    ensures 0 <= value && Percent(value, total) < 100 ==> ProgressFor(value, total) == Percent(value, total)
  {
    if 0 <= value <= total {
      PercentBounds(value, total);
    }
  }

  // ---------------------------------------------------------------------------
  // FileProcessingInfo

  /** The fields of a `FileProcessingInfo` (without `LastUpdated`). */
  datatype Info = Info(id: string, noOfInsertedGrades: int, totalGrades: int, progress: int)

  /** One turn of the loop over the progress channel. */
  function Update(info: Info, value: int): (r: Info)
    requires info.totalGrades > 0
    ensures r.id == info.id && r.totalGrades == info.totalGrades && r.noOfInsertedGrades == value
    ensures value < 0 ==> r.progress == -1
    ensures value < info.totalGrades ==> r.progress != 100
  {
    info.(noOfInsertedGrades := value, progress := ProgressFor(value, info.totalGrades))
  }

  /** The loop over the whole channel: every value overwrites the count and the
      progress, so the last value decides them, and nothing else changes. */
  function Absorb(info: Info, values: seq<int>): (r: Info)
    requires info.totalGrades > 0 || values == []
    ensures r.id == info.id && r.totalGrades == info.totalGrades
    ensures values == [] ==> r == info
    ensures values != [] ==> r.noOfInsertedGrades == values[|values| - 1]
    ensures values != [] ==> r.progress == ProgressFor(values[|values| - 1], info.totalGrades)
    decreases |values|
  {
    if values == [] then info
    else Update(Absorb(info, values[..|values| - 1]), values[|values| - 1])
  }

  /** One turn of the loop over the progress channel as line 119 writes it: the
      percentage of whatever value arrives, the failure value -1 included. */
  function UpdateAsWritten(info: Info, value: int): (r: Info)
    requires info.totalGrades > 0
    ensures r.id == info.id && r.totalGrades == info.totalGrades && r.noOfInsertedGrades == value
    ensures (r.progress - 1) * info.totalGrades < 100 * value <= r.progress * info.totalGrades
  {
    info.(noOfInsertedGrades := value, progress := Percent(value, info.totalGrades))
  }

  /** The loop over the whole channel as written: the last value decides the count,
      and its percentage the progress. */
  function AbsorbAsWritten(info: Info, values: seq<int>): (r: Info)
    requires info.totalGrades > 0 || values == []
    ensures r.id == info.id && r.totalGrades == info.totalGrades
    ensures values == [] ==> r == info
    ensures values != [] ==> r.noOfInsertedGrades == values[|values| - 1]
    ensures values != [] ==> r.progress == Percent(values[|values| - 1], info.totalGrades)
    decreases |values|
  {
    if values == [] then info
    else UpdateAsWritten(AbsorbAsWritten(info, values[..|values| - 1]), values[|values| - 1])
  }

  /** No grades, no work: `InsertGrades` sends nothing. */
  lemma NoGradesNothingSent(grades: seq<StudentGrade>, outcomes: seq<GradesRepository.TxOutcome>)
    ensures |grades| == 0 ==> GradesRepository.Sent(GradesRepository.Trace(grades, outcomes)) == []
  {
  }

  /** What the background goroutine leaves in the info: a conversion error or an
      error starting the inserter sets the progress to -1; otherwise the total is
      recorded and the channel's values are absorbed. */
  function Processed(info: Info, file: Option<seq<GradesCsv.CsvLine>>, startFails: bool,
                     outcomes: seq<GradesRepository.TxOutcome>): (r: Info)
    ensures r.id == info.id
    ensures GradesCsv.Convert(file).Failure? ==> r.totalGrades == info.totalGrades && r.progress == -1
    ensures GradesCsv.Convert(file).Success? ==> r.totalGrades == |GradesCsv.Convert(file).value|
    ensures GradesCsv.Convert(file).Success? && startFails ==> r.progress == -1
  {
    match GradesCsv.Convert(file)
    case Failure(_) => info.(progress := -1)
    case Success(grades) =>
      var counted := info.(totalGrades := |grades|);
      if startFails then counted.(progress := -1)
      else
        NoGradesNothingSent(grades, outcomes);
        Absorb(counted, GradesRepository.Sent(GradesRepository.Trace(grades, outcomes)))
  }

  /** What the background goroutine leaves in the info as the source writes it:
      the same as `Processed`, except that every channel value, the failure value
      included, goes through the percentage of line 119. */
  function ProcessedAsWritten(info: Info, file: Option<seq<GradesCsv.CsvLine>>, startFails: bool,
                              outcomes: seq<GradesRepository.TxOutcome>): (r: Info)
    ensures r.id == info.id
    ensures GradesCsv.Convert(file).Failure? ==> r.totalGrades == info.totalGrades && r.progress == -1
    ensures GradesCsv.Convert(file).Success? ==> r.totalGrades == |GradesCsv.Convert(file).value|
    ensures GradesCsv.Convert(file).Success? && startFails ==> r.progress == -1
  {
    match GradesCsv.Convert(file)
    case Failure(_) => info.(progress := -1)
    case Success(grades) =>
      var counted := info.(totalGrades := |grades|);
      if startFails then counted.(progress := -1)
      else
        NoGradesNothingSent(grades, outcomes);
        AbsorbAsWritten(counted, GradesRepository.Sent(GradesRepository.Trace(grades, outcomes)))
  }

  /** Each value is -1 or a grade count between 1 and `n`. */
  predicate ProgressValues(s: seq<int>, n: nat)
  {
    forall i :: 0 <= i < |s| ==> s[i] == -1 || 1 <= s[i] <= n
  }

  lemma RangeValues(s: seq<int>, r: nat, n: nat, failed: bool)
    requires r <= n
    requires s == GradesQuery.Range(1, r + 1) + (if failed then [-1] else [])
    ensures ProgressValues(s, n)
    ensures failed ==> |s| > 0 && s[|s| - 1] == -1
  {
  }

  lemma SuccessValues(grades: seq<StudentGrade>, outcomes: seq<GradesRepository.TxOutcome>)
    requires GradesRepository.AllCommit(grades, outcomes)
    ensures ProgressValues(GradesRepository.Sent(GradesRepository.Trace(grades, outcomes)), |grades|)
    ensures GradesRepository.Sent(GradesRepository.Trace(grades, outcomes)) == GradesQuery.Range(1, |grades| + 1)
  {
    GradesRepository.SentOnSuccess(grades, outcomes);
    RangeValues(GradesRepository.Sent(GradesRepository.Trace(grades, outcomes)), |grades|, |grades|, false);
  }

  lemma ReachedWithin(grades: seq<StudentGrade>, outcomes: seq<GradesRepository.TxOutcome>, f: nat)
    requires GradesRepository.FirstFailure(grades, outcomes, f)
    ensures GradesRepository.ReachedBeforeFailure(grades, outcomes, f) <= |grades|
  {
  }

  lemma FailureValues(grades: seq<StudentGrade>, outcomes: seq<GradesRepository.TxOutcome>, f: nat)
    requires GradesRepository.FirstFailure(grades, outcomes, f)
    ensures ProgressValues(GradesRepository.Sent(GradesRepository.Trace(grades, outcomes)), |grades|)
    ensures |GradesRepository.Sent(GradesRepository.Trace(grades, outcomes))| > 0
    ensures GradesRepository.Sent(GradesRepository.Trace(grades, outcomes))[|GradesRepository.Sent(GradesRepository.Trace(grades, outcomes))| - 1] == -1
  {
    var s := GradesRepository.Sent(GradesRepository.Trace(grades, outcomes));
    var r := GradesRepository.ReachedBeforeFailure(grades, outcomes, f);
    ReachedWithin(grades, outcomes, f);
    GradesRepository.SentOnFailure(grades, outcomes, f);
    RangeValues(s, r, |grades|, true);
  }

  /** Whatever the database does, each value on the channel is -1 or a grade count
      between 1 and the number of grades; a run in which some batch fails sends -1
      last. */
  lemma SentValues(grades: seq<StudentGrade>, outcomes: seq<GradesRepository.TxOutcome>)
    ensures ProgressValues(GradesRepository.Sent(GradesRepository.Trace(grades, outcomes)), |grades|)
    ensures GradesRepository.AllCommit(grades, outcomes) ==> GradesRepository.Sent(GradesRepository.Trace(grades, outcomes)) == GradesQuery.Range(1, |grades| + 1)
    ensures !GradesRepository.AllCommit(grades, outcomes) ==>
      var s := GradesRepository.Sent(GradesRepository.Trace(grades, outcomes)); |s| > 0 && s[|s| - 1] == -1
  {
    GradesRepository.FailureOrAllCommit(grades, outcomes);
    if GradesRepository.AllCommit(grades, outcomes) {
      SuccessValues(grades, outcomes);
    } else {
      var f :| GradesRepository.FirstFailure(grades, outcomes, f);
      FailureValues(grades, outcomes, f);
    }
  }

  // ---------------------------------------------------------------------------
  // What processing leaves in the info

  /** A file that cannot be opened or converted marks the info failed and leaves
      its counts alone. */
  lemma ProcessedConversionFails(info: Info, file: Option<seq<GradesCsv.CsvLine>>, startFails: bool,
                                 outcomes: seq<GradesRepository.TxOutcome>)
    requires GradesCsv.Convert(file).Failure?
    ensures var r := Processed(info, file, startFails, outcomes);
      r.progress == -1 && r.id == info.id && r.totalGrades == info.totalGrades &&
      r.noOfInsertedGrades == info.noOfInsertedGrades
  {
  }

  /** An inserter that fails to start marks the info failed once the total is set. */
  lemma ProcessedStartFails(info: Info, file: Option<seq<GradesCsv.CsvLine>>,
                            outcomes: seq<GradesRepository.TxOutcome>)
    requires GradesCsv.Convert(file).Success?
    ensures var r := Processed(info, file, true, outcomes);
      r.progress == -1 && r.id == info.id && r.totalGrades == |GradesCsv.Convert(file).value| &&
      r.noOfInsertedGrades == info.noOfInsertedGrades
  {
  }

  /** When every batch commits, the info ends with every grade counted and the
      progress at 100. */
  lemma ProcessedAllInserted(info: Info, file: Option<seq<GradesCsv.CsvLine>>,
                             outcomes: seq<GradesRepository.TxOutcome>)
    requires GradesCsv.Convert(file).Success? && |GradesCsv.Convert(file).value| > 0
    requires GradesRepository.AllCommit(GradesCsv.Convert(file).value, outcomes)
    ensures var r := Processed(info, file, false, outcomes); var n := |GradesCsv.Convert(file).value|;
      r.progress == 100 && r.noOfInsertedGrades == n && r.totalGrades == n && r.id == info.id
  {
    var grades := GradesCsv.Convert(file).value;
    var n := |grades|;
    var values := GradesRepository.Sent(GradesRepository.Trace(grades, outcomes));
    SuccessValues(grades, outcomes);
    assert values[|values| - 1] == n;
    ProgressForBounds(n, n);
  }

  /** When a batch fails, the last value on the channel is -1: the info ends failed,
      with the count -1 as well. */
  lemma ProcessedInsertFails(info: Info, file: Option<seq<GradesCsv.CsvLine>>,
                             outcomes: seq<GradesRepository.TxOutcome>, f: nat)
    requires GradesCsv.Convert(file).Success?
    requires GradesRepository.FirstFailure(GradesCsv.Convert(file).value, outcomes, f)
    ensures var r := Processed(info, file, false, outcomes);
      r.progress == -1 && r.noOfInsertedGrades == -1 &&
      r.totalGrades == |GradesCsv.Convert(file).value| && r.id == info.id
  {
    var grades := GradesCsv.Convert(file).value;
    FailureValues(grades, outcomes, f);
    ProgressForBounds(-1, |grades|);
  }

  /** A file with a header and no records converts to no grades; nothing is sent,
      so the progress stays where it was, 0 for a fresh info, for good. */
  lemma ProcessedHeaderOnly(info: Info, header: seq<string>, outcomes: seq<GradesRepository.TxOutcome>)
    ensures Processed(info, Some([GradesCsv.Fields(header)]), false, outcomes) == info.(totalGrades := 0)
  {
    GradesCsv.HeaderOnlySucceeds(header);
  }

  /** Whatever the file and the database do, a fresh info ends with a progress of -1
      or between 0 and 100, and at 100 exactly when there were grades and every one
      of them was inserted. */
  lemma ProcessedProgress(id: string, file: Option<seq<GradesCsv.CsvLine>>, startFails: bool,
                          outcomes: seq<GradesRepository.TxOutcome>)
    ensures var r := Processed(Info(id, 0, 0, 0), file, startFails, outcomes);
      r.id == id && (r.progress == -1 || 0 <= r.progress <= 100) &&
      (r.progress == 100 <==> r.totalGrades > 0 && r.noOfInsertedGrades == r.totalGrades)
  {
    var info := Info(id, 0, 0, 0);
    if GradesCsv.Convert(file).Success? && !startFails {
      var grades := GradesCsv.Convert(file).value;
      GradesRepository.FailureOrAllCommit(grades, outcomes);
      if |grades| == 0 {
        NoGradesNothingSent(grades, outcomes);
      } else if GradesRepository.AllCommit(grades, outcomes) {
        ProcessedAllInserted(info, file, outcomes);
      } else {
        var f :| GradesRepository.FirstFailure(grades, outcomes, f);
        ProcessedInsertFails(info, file, outcomes, f);
      }
    }
  }

  // ---------------------------------------------------------------------------
  // What processing as written leaves in the info

  /** As written, a failed batch leaves the count -1 and the progress at the
      percentage of -1: 0 for more than 100 grades, -1 for 51 to 100, and down to
      -100 for fewer; so for more than 100 grades a failed import reads as not yet
      started, and for at most 50 as an out-of-range value. */
  lemma ProcessedAsWrittenInsertFails(info: Info, file: Option<seq<GradesCsv.CsvLine>>,
                                      outcomes: seq<GradesRepository.TxOutcome>, f: nat)
    requires GradesCsv.Convert(file).Success?
    requires GradesRepository.FirstFailure(GradesCsv.Convert(file).value, outcomes, f)
    ensures var r := ProcessedAsWritten(info, file, false, outcomes); var n := |GradesCsv.Convert(file).value|;
      r.progress == Percent(-1, n) && r.noOfInsertedGrades == -1 && r.totalGrades == n && r.id == info.id &&
      (n > 100 ==> r.progress == 0) && (50 < n <= 100 ==> r.progress == -1) &&
      (n <= 50 ==> -100 <= r.progress < -1)
  {
    var grades := GradesCsv.Convert(file).value;
    FailureValues(grades, outcomes, f);
    PercentOfFailureSentinel(|grades|);
  }

  /** The source and the corrected handler leave the same record unless a batch
      fails: they differ only in the progress after a failed insert. */
  lemma ProcessedAsWrittenAgrees(info: Info, file: Option<seq<GradesCsv.CsvLine>>, startFails: bool,
                                 outcomes: seq<GradesRepository.TxOutcome>)
    requires GradesCsv.Convert(file).Failure? || startFails ||
             GradesRepository.AllCommit(GradesCsv.Convert(file).value, outcomes)
    ensures ProcessedAsWritten(info, file, startFails, outcomes) == Processed(info, file, startFails, outcomes)
  {
    if GradesCsv.Convert(file).Success? && !startFails {
      var grades := GradesCsv.Convert(file).value;
      if |grades| == 0 {
        NoGradesNothingSent(grades, outcomes);
      } else {
        SuccessValues(grades, outcomes);
        PercentBounds(|grades|, |grades|);
      }
    }
  }

  /** As written, a fresh record ends with a progress between -100 and 100, and at
      100 exactly when there were grades and every one was inserted. */
  lemma ProcessedAsWrittenProgress(id: string, file: Option<seq<GradesCsv.CsvLine>>, startFails: bool,
                                   outcomes: seq<GradesRepository.TxOutcome>)
    ensures var r := ProcessedAsWritten(Info(id, 0, 0, 0), file, startFails, outcomes);
      r.id == id && -100 <= r.progress <= 100 &&
      (r.progress == 100 <==> r.totalGrades > 0 && r.noOfInsertedGrades == r.totalGrades)
  {
    var info := Info(id, 0, 0, 0);
    if GradesCsv.Convert(file).Success? && !startFails {
      var grades := GradesCsv.Convert(file).value;
      GradesRepository.FailureOrAllCommit(grades, outcomes);
      if |grades| == 0 {
        NoGradesNothingSent(grades, outcomes);
      } else if GradesRepository.AllCommit(grades, outcomes) {
        ProcessedAsWrittenAgrees(info, file, false, outcomes);
        ProcessedAllInserted(info, file, outcomes);
      } else {
        var f :| GradesRepository.FirstFailure(grades, outcomes, f);
        ProcessedAsWrittenInsertFails(info, file, outcomes, f);
      }
    }
  }

  /** The shared processing record of one uploaded file; the handler's goroutine
      updates its fields in place. */
  class FileProcessingInfo {
    var id: string
    var noOfInsertedGrades: int
    var totalGrades: int
    var progress: int

    function State(): Info
      reads this
    {
      Info(id, noOfInsertedGrades, totalGrades, progress)
    }

    /** The record the handler stores before answering: nothing counted, progress 0. */
    constructor (fileId: string)
      ensures State() == Info(fileId, 0, 0, 0)
    {
      id, noOfInsertedGrades, totalGrades, progress := fileId, 0, 0, 0;
    }

    /** The background goroutine: convert, record the total, insert, and follow the
        progress channel to its end. */
    method Process(file: Option<seq<GradesCsv.CsvLine>>, startFails: bool,
                   outcomes: seq<GradesRepository.TxOutcome>)
      modifies this
      ensures State() == Processed(old(State()), file, startFails, outcomes)
    {
      var grades, err := GradesCsv.ConvertCsvToStudentGrades(file);
      if err.Some? {
        progress := -1;
        return;
      }
      totalGrades := |grades|;
      if startFails {
        progress := -1;
        return;
      }
      var trace := GradesRepository.InsertGrades(grades, outcomes);
      NoGradesNothingSent(grades, outcomes);
      Follow(GradesRepository.Sent(trace));
    }

    /** The `for` loop over the progress channel: each value received becomes the
        count of inserted grades and decides the progress. */
    method Follow(values: seq<int>)
      requires totalGrades > 0 || values == []
      modifies this
      ensures State() == Absorb(old(State()), values)
    {
      ghost var counted := State();
      for i := 0 to |values|
        invariant State() == Absorb(counted, values[..i])
      {
        var noOfInserted := values[i];
        var percentage := ProgressFor(noOfInserted, totalGrades);
        noOfInsertedGrades := noOfInserted;
        progress := percentage;
        assert values[..i + 1][..i] == values[..i];
      }
      assert values[..|values|] == values;
    }
  }

  // ---------------------------------------------------------------------------
  // The upload handler

  /** Why the handler answers 400 Bad Request. */
  datatype Rejection = FormUnparsable | NoFileProvided

  /** A multipart request: whether `ParseMultipartForm` succeeds and the uploaded
      files by form field; a file's content is `None` when it cannot be opened. */
  datatype Request = Request(formParses: bool, files: map<string, seq<Option<seq<GradesCsv.CsvLine>>>>)

  /** The file the handler processes: the first of the `file` field; a form that
      does not parse or has no `file` part is rejected. */
  function UploadedFile(request: Request): (r: Result<Option<seq<GradesCsv.CsvLine>>, Rejection>)
    ensures r == Failure(FormUnparsable) <==> !request.formParses
    ensures r == Failure(NoFileProvided) <==>
      request.formParses && ("file" !in request.files || |request.files["file"]| == 0)
    ensures r.Success? ==>
      ("file" in request.files && |request.files["file"]| > 0 && r.value == request.files["file"][0])
  {
    if !request.formParses then Failure(FormUnparsable)
    else
      var fileHeaders := if "file" in request.files then request.files["file"] else [];
      if |fileHeaders| == 0 then Failure(NoFileProvided)
      else Success(fileHeaders[0])
  }

  /** `UploadGradesCSV` with the id `uuid.New` would draw passed in: a rejected request
      gets its 400 and no record; an accepted one gets the file id, and the new record
      ends as processing the first file leaves it. */
  method UploadGradesCsv(request: Request, fileId: string, startFails: bool,
                         outcomes: seq<GradesRepository.TxOutcome>)
    returns (response: Result<string, Rejection>, info: FileProcessingInfo?)
    ensures response.Failure? <==> UploadedFile(request).Failure?
    ensures response.Failure? ==> response.error == UploadedFile(request).error && info == null
    ensures response.Success? ==> response.value == fileId && info != null && fresh(info)
    ensures response.Success? && info != null ==>
      info.State() == Processed(Info(fileId, 0, 0, 0), UploadedFile(request).value, startFails, outcomes)
  {
    var file := UploadedFile(request);
    if file.Failure? {
      return Failure(file.error), null;
    }
    info := new FileProcessingInfo(fileId);
    response := Success(fileId);
    info.Process(file.value, startFails, outcomes);
  }
}

