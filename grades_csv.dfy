/** `convertCSVFileHeaderToStudentGrades` of backend/http/grades.go: the header row
    names the columns, every further record becomes one `StudentGrade`, and the first
    error of any kind fails the whole conversion with no grades. */
module GradesCsv {
  import opened Wrappers
  import opened Models
  import Decimal

  /** One line as `csv.Reader.Read` delivers it: the split fields, or a line the
      reader rejects (a bare quote, an unterminated quoted field, ...). */
  datatype CsvLine = Fields(fields: seq<string>) | BadLine

  /** The error paths of the conversion, in the order the source checks them. */
  datatype ConvError =
    | OpenFailed
    | HeaderUnreadable
    | RecordUnreadable
    | MissingColumn(column: string)
    | InvalidGrade(value: string)

  const RequiredColumns: seq<string> := ["student_id", "student_name", "subject", "grade"]

  /** Position of the last occurrence of `name` in `headers`, the position the
      column-index map ends up holding for it. */
  function LastIndex(headers: seq<string>, name: string): (r: Option<nat>)
    ensures r.None? <==> name !in headers
    ensures r.Some? ==> r.value < |headers| && headers[r.value] == name
    ensures r.Some? ==> forall j :: r.value < j < |headers| ==> headers[j] != name
  {
    if |headers| == 0 then None
    else if headers[|headers| - 1] == name then Some(|headers| - 1)
    else LastIndex(headers[..|headers| - 1], name)
  }

  /** The `columnIndex` loop: every header name maps to a position holding it, and a
      repeated name keeps the position of its last occurrence. */
  method ColumnIndex(headers: seq<string>) returns (columns: map<string, nat>)
    ensures forall name :: name in columns <==> name in headers
    ensures forall name :: name in columns ==> LastIndex(headers, name) == Some(columns[name])
  {
    columns := map[];
    for i := 0 to |headers|
      invariant forall name :: name in columns <==> name in headers[..i]
      invariant forall name :: name in columns ==> LastIndex(headers[..i], name) == Some(columns[name])
    {
      assert headers[..i + 1][..i] == headers[..i];
      columns := columns[headers[i] := i];
    }
    assert headers[..|headers|] == headers;
  }

  /** What `reader.Read` yields for a data line: the record, or the read error
      (a rejected line, or a field count that differs from the header's, which the
      default reader enforces). */
  function ReadRecord(header: seq<string>, line: CsvLine): (r: Result<seq<string>, ConvError>)
    ensures r.Success? ==> |r.value| == |header|
  {
    match line
    case BadLine => Failure(RecordUnreadable)
    case Fields(fields) => if |fields| != |header| then Failure(RecordUnreadable) else Success(fields)
  }

  /** The body of the record loop for one record already read: student_id,
      student_name, subject and grade are looked up in that order. */
  function MapRecord(header: seq<string>, record: seq<string>): (r: Result<StudentGrade, ConvError>)
    requires |record| == |header|
    ensures r.Failure? ==> r.error.MissingColumn? || r.error.InvalidGrade?
    ensures r.Success? <==>
      LastIndex(header, "student_id").Some? && LastIndex(header, "student_name").Some? &&
      LastIndex(header, "subject").Some? && LastIndex(header, "grade").Some? &&
      Decimal.Atoi(record[LastIndex(header, "grade").value]).Some?
  {
    match LastIndex(header, "student_id")
    case None => Failure(MissingColumn("student_id"))
    case Some(idIdx) =>
      match LastIndex(header, "student_name")
      case None => Failure(MissingColumn("student_name"))
      case Some(nameIdx) =>
        match LastIndex(header, "subject")
        case None => Failure(MissingColumn("subject"))
        case Some(subjectIdx) =>
          match LastIndex(header, "grade")
          case None => Failure(MissingColumn("grade"))
          case Some(gradeIdx) =>
            match Decimal.Atoi(record[gradeIdx])
            case None => Failure(InvalidGrade(record[gradeIdx]))
            case Some(g) => Success(StudentGrade(record[idIdx], record[subjectIdx], g, record[nameIdx]))
  }

  function ConvertLine(header: seq<string>, line: CsvLine): Result<StudentGrade, ConvError>
  {
    match ReadRecord(header, line)
    case Failure(e) => Failure(e)
    case Success(record) => MapRecord(header, record)
  }

  /** The record loop, from the first data line to the end of the file. */
  function ConvertLines(header: seq<string>, lines: seq<CsvLine>): (r: Result<seq<StudentGrade>, ConvError>)
    ensures r.Success? ==> |r.value| == |lines|
    ensures r.Failure? ==> |lines| > 0
  {
    if |lines| == 0 then Success([])
    else
      match ConvertLine(header, lines[0])
      case Failure(e) => Failure(e)
      case Success(g) =>
        match ConvertLines(header, lines[1..])
        case Failure(e) => Failure(e)
        case Success(rest) => Success([g] + rest)
  }

  /** The whole conversion; `None` is a file that could not be opened. */
  function Convert(file: Option<seq<CsvLine>>): (r: Result<seq<StudentGrade>, ConvError>)
    ensures file.None? ==> r == Failure(OpenFailed)
    ensures file.Some? && (|file.value| == 0 || file.value[0].BadLine?) ==> r == Failure(HeaderUnreadable)
    ensures r.Success? ==> file.Some? && |file.value| > 0 && |r.value| == |file.value| - 1
  {
    match file
    case None => Failure(OpenFailed)
    case Some(lines) =>
      if |lines| == 0 || lines[0].BadLine? then Failure(HeaderUnreadable)
      else ConvertLines(lines[0].fields, lines[1..])
  }

  /** `Prepend(done, r)`: the outcome of the whole loop once `done` is converted and
      `r` is the outcome for the remaining lines. */
  function Prepend(done: seq<StudentGrade>, r: Result<seq<StudentGrade>, ConvError>): Result<seq<StudentGrade>, ConvError>
  {
    match r
    case Failure(e) => Failure(e)
    case Success(rest) => Success(done + rest)
  }

  /** The per-record block of the loop (student_id, student_name, subject, grade),
      looking the columns up in the map `ColumnIndex` built. */
  method ParseRecord(columnIndex: map<string, nat>, header: seq<string>, record: seq<string>)
      returns (grade: StudentGrade, err: Option<ConvError>)
    requires |record| == |header|
    requires forall name :: name in columnIndex <==> name in header
    requires forall name :: name in columnIndex ==> LastIndex(header, name) == Some(columnIndex[name])
    ensures err.None? <==> MapRecord(header, record).Success?
    ensures err.None? ==> grade == MapRecord(header, record).value
    ensures err.Some? ==> err.value == MapRecord(header, record).error
  {
    grade := StudentGrade("", "", 0, "");
    if "student_id" !in columnIndex {
      return grade, Some(MissingColumn("student_id"));
    }
    var id := record[columnIndex["student_id"]];
    if "student_name" !in columnIndex {
      return grade, Some(MissingColumn("student_name"));
    }
    var name := record[columnIndex["student_name"]];
    if "subject" !in columnIndex {
      return grade, Some(MissingColumn("subject"));
    }
    var subject := record[columnIndex["subject"]];
    if "grade" !in columnIndex {
      return grade, Some(MissingColumn("grade"));
    }
    var gradeStr := record[columnIndex["grade"]];
    var gradeInt := Decimal.Atoi(gradeStr);
    if gradeInt.None? {
      return grade, Some(InvalidGrade(gradeStr));
    }
    grade, err := StudentGrade(id, subject, gradeInt.value, name), None;
  }

  /** The conversion as the source runs it, returning Go's `(grades, err)` pair:
      on every error path the grades are nil, so nothing from earlier records leaks. */
  method ConvertCsvToStudentGrades(file: Option<seq<CsvLine>>) returns (grades: seq<StudentGrade>, err: Option<ConvError>)
    ensures err.Some? ==> grades == []
    ensures err.None? <==> Convert(file).Success?
    ensures err.None? ==> grades == Convert(file).value
    ensures err.Some? ==> err.value == Convert(file).error
  {
    if file.None? {
      return [], Some(OpenFailed);
    }
    var lines := file.value;
    if |lines| == 0 || lines[0].BadLine? {
      return [], Some(HeaderUnreadable);
    }
    var header := lines[0].fields;
    assert Convert(file) == ConvertLines(header, lines[1..]);
    var columnIndex := ColumnIndex(header);
    grades, err := [], None;
    var k := 1;
    PrependEmpty(ConvertLines(header, lines[1..]));
    while k < |lines|
      invariant 1 <= k <= |lines|
      invariant Prepend(grades, ConvertLines(header, lines[k..])) == ConvertLines(header, lines[1..])
    {
      ConvertLinesStep(header, lines, k);
      var line := lines[k];
      if line.BadLine? || |line.fields| != |header| {
        return [], Some(RecordUnreadable);
      }
      var record := line.fields;
      var grade, recordErr := ParseRecord(columnIndex, header, record);
      if recordErr.Some? {
        return [], recordErr;
      }
      PrependPrepend(grades, [grade], ConvertLines(header, lines[k + 1..]));
      grades := grades + [grade];
      k := k + 1;
    }
    assert lines[k..] == [];
  }

  lemma PrependEmpty(r: Result<seq<StudentGrade>, ConvError>)
    ensures Prepend([], r) == r
  {
    if r.Success? {
      assert [] + r.value == r.value;
    }
  }

  lemma PrependPrepend(a: seq<StudentGrade>, b: seq<StudentGrade>, r: Result<seq<StudentGrade>, ConvError>)
    ensures Prepend(a, Prepend(b, r)) == Prepend(a + b, r)
  {
    if r.Success? {
      assert a + (b + r.value) == (a + b) + r.value;
    }
  }

  /** One turn of the record loop. */
  lemma ConvertLinesStep(header: seq<string>, lines: seq<CsvLine>, k: nat)
    requires k < |lines|
    ensures ConvertLines(header, lines[k..]) ==
      match ConvertLine(header, lines[k])
      case Failure(e) => Failure(e)
      case Success(g) => Prepend([g], ConvertLines(header, lines[k + 1..]))
  {
    assert lines[k..][0] == lines[k];
    assert lines[k..][1..] == lines[k + 1..];
  }

  // ---------------------------------------------------------------------------
  // What the conversion promises

  /** A data line the conversion accepts, given that all four columns exist. */
  predicate RecordOk(header: seq<string>, line: CsvLine)
  {
    line.Fields? && |line.fields| == |header| &&
    (forall c :: c in RequiredColumns ==> c in header) &&
    Decimal.Atoi(line.fields[LastIndex(header, "grade").value]).Some?
  }

  /** The conversion succeeds exactly when every data line is read, all four columns
      are in the header (which only matters once there is a data line) and every
      grade parses. */
  lemma {:induction false} ConvertLinesSucceedsIff(header: seq<string>, lines: seq<CsvLine>)
    ensures ConvertLines(header, lines).Success? <==> forall k :: 0 <= k < |lines| ==> RecordOk(header, lines[k])
  {
    if |lines| > 0 {
      ConvertLinesSucceedsIff(header, lines[1..]);
      assert forall k :: 1 <= k < |lines| ==> lines[1..][k - 1] == lines[k];
    }
  }

  /** `g` is the grade a data line denotes: ID, name and subject copied verbatim from
      their columns and the grade parsed from its own. */
  predicate GradeOf(header: seq<string>, line: CsvLine, g: StudentGrade)
  {
    line.Fields? && |line.fields| == |header| &&
    (forall c :: c in RequiredColumns ==> c in header) &&
    g.id == line.fields[LastIndex(header, "student_id").value] &&
    g.studentName == line.fields[LastIndex(header, "student_name").value] &&
    g.subject == line.fields[LastIndex(header, "subject").value] &&
    Decimal.Atoi(line.fields[LastIndex(header, "grade").value]) == Some(g.grade)
  }

  /** What one accepted data line converts to. */
  lemma ConvertLineContents(header: seq<string>, line: CsvLine)
    requires ConvertLine(header, line).Success?
    ensures GradeOf(header, line, ConvertLine(header, line).value)
  {
  }

  /** On success there is one grade per data line, in line order, each the grade its
      line denotes. */
  lemma {:induction false} ConvertLinesContents(header: seq<string>, lines: seq<CsvLine>)
    requires ConvertLines(header, lines).Success?
    ensures |ConvertLines(header, lines).value| == |lines|
    ensures forall k :: 0 <= k < |lines| ==> GradeOf(header, lines[k], ConvertLines(header, lines).value[k])
  {
    if |lines| > 0 {
      ConvertLinesContents(header, lines[1..]);
      ConvertLineContents(header, lines[0]);
      var grades := ConvertLines(header, lines).value;
      var rest := ConvertLines(header, lines[1..]).value;
      assert grades == [grades[0]] + rest;
      forall k | 0 <= k < |lines|
        ensures GradeOf(header, lines[k], grades[k])
      {
        if k > 0 {
          assert lines[1..][k - 1] == lines[k] && grades[k] == rest[k - 1];
        }
      }
    }
  }

  /** A header-only file converts to no grades, whatever its columns. */
  lemma HeaderOnlySucceeds(header: seq<string>)
    ensures Convert(Some([Fields(header)])) == Success([])
  {
    assert [Fields(header)][1..] == [];
  }

  /** A file with at least one data line whose header lacks a required column fails. */
  lemma MissingColumnFails(header: seq<string>, lines: seq<CsvLine>, column: string)
    requires |lines| > 0 && column in RequiredColumns && column !in header
    ensures Convert(Some([Fields(header)] + lines)).Failure?
  {
    assert ([Fields(header)] + lines)[1..] == lines;
    ConvertLinesSucceedsIff(header, lines);
    assert !RecordOk(header, lines[0]);
  }

  /** One data line whose grade field does not parse fails the whole file. */
  lemma InvalidGradeFails(header: seq<string>, lines: seq<CsvLine>, k: nat)
    requires k < |lines| && lines[k].Fields? && |lines[k].fields| == |header|
    requires "grade" in header
    requires Decimal.Atoi(lines[k].fields[LastIndex(header, "grade").value]).None?
    ensures Convert(Some([Fields(header)] + lines)).Failure?
  {
    assert ([Fields(header)] + lines)[1..] == lines;
    ConvertLinesSucceedsIff(header, lines);
    assert !RecordOk(header, lines[k]);
  }
}
