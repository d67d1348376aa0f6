# CSV grade import: upload tracker, upload handler and batch inserter

This project models, in Dafny, the three parts of the grade-import application
that carry its logic:

- **The upload modal** (`FileUploadComponent`). The user selects CSV files and
  starts the import. The component uploads every file with its own request and
  tracks each file's upload progress, its server file id and its processing
  progress, which it polls from the server. It also records four timestamps per
  file and derives overall upload, processing and total times from them. The modal
  cannot be closed while `uploading` is set. That flag is cleared once every file
  reports a processing progress of 100, and also when an upload answers with a
  status outside 2xx or fails with a network error.
- **The upload handler** (`UploadGradesCSV`). It takes the first file of the
  multipart field `file` and answers with a fresh file id. In the background it
  converts the CSV into student grades and hands them to the inserter. It turns
  each value the inserter reports into the file's `FileProcessingInfo`: a count of
  inserted grades and a progress percentage, with -1 meaning failure.
- **The batch inserter** (`InsertGrades`). It cuts the grades into batches of
  200. Each batch becomes one transaction with one `INSERT ... ON CONFLICT`
  upsert whose `VALUES` list uses numbered placeholders `$1, $2, ...`. The
  inserter sends one progress value per grade. A failing begin, exec or commit
  sends -1 and stops.

Modules, one per file:

| module | file | models |
|---|---|---|
| `Wrappers` | wrappers.dfy | `Option`, `Result` |
| `Models` | models.dfy | `StudentGrade` |
| `Decimal` | decimal.dfy | `strconv.Atoi` (64-bit) and `%d` formatting |
| `GradesCsv` | grades_csv.dfy | `convertCSVFileHeaderToStudentGrades` |
| `GradesQuery` | grades_query.dfy | the batches and the upsert text of `InsertGrades` |
| `GradesRepository` | grades_repository.dfy | the `InsertGrades` loop, its transactions and its progress channel |
| `GradesHttp` | grades_http.dfy | the progress percentage, `FileProcessingInfo`, `UploadGradesCSV` |
| `ProgressOrder` | progress_order.dfy | what a poller of the record can see during a run of `InsertGrades`, and a corrected send order |
| `UploadFile` | upload_file.dfy | `CustomUploadFile` and the list updaters of the component |
| `UploadMetrics` | upload_metrics.dfy | the overall metrics |
| `UploadComponent` | upload_component.dfy | the component's state (`visible`, `fileList`, `uploading`) and its handlers |

How the outside world is modelled:

- **Database.** `InsertGrades` returns the trace of what it does: begin, the
  progress sends, the exec with its query and arguments, rollback and commit.
  Whether each begin, exec and commit succeeds is a parameter: one `TxOutcome`
  per batch.
- **Upload events.** The component's handlers are methods on a class holding its
  three state variables. Each handler takes what its event delivers: loaded and
  total bytes, the HTTP status and body, the polled progress list, and the
  `Date.now()` reading.
- **CSV reader.** A file reaches the model as the sequence of lines
  `csv.Reader.Read` would deliver, each either the split fields or a read error.
- **Background work.** The goroutine is modelled as running to completion before
  the handler returns (`FileProcessingInfo.Process`).
- **Polling during a run.** A poller reads the record as the handler leaves it
  after the values sent by some prefix of the inserter's trace (`RecordAfter`).
  The corrected order is stated for any statement a batch executes; the source's
  upsert is one of them.

## Model

| member | source | states |
|---|---|---|
| Decimal.Atoi | backend/http/grades.go:208-214 | only a value within the 64-bit range is accepted; the empty string and a lone `+` or `-` are rejected |
| Decimal.AtoiItoa | backend/http/grades.go:210 | every 64-bit integer written in decimal parses back to itself |
| Decimal.AtoiRejectsForeignChar | backend/http/grades.go:210-213 | any character other than a digit or a leading sign makes the grade invalid; spaces are not trimmed |
| Decimal.AtoiAcceptsDigits | backend/http/grades.go:210 | an optional sign followed by digits parses to its value when that value fits, leading zeros included |
| Decimal.AtoiRejectsOutOfRange | backend/http/grades.go:210-213 | an optional sign followed by digits whose value does not fit in 64 bits is rejected, never clamped to a bound, so the grade is invalid |
| Decimal.FormatNat | backend/repository/grades.go:56 | `%d` of a natural number is a non-empty digit string with no leading zero |
| Decimal.ValueOfFormatNat | backend/repository/grades.go:56 | reading the digits of `%d` back gives the number |
| GradesCsv.LastIndex | backend/http/grades.go:165-168 | the column map holds a header name exactly when it occurs, at the position of its last occurrence |
| GradesCsv.ColumnIndex | backend/http/grades.go:165-168 | the loop builds a map whose keys are exactly the header names, each mapped to its last position |
| GradesCsv.MapRecord | backend/http/grades.go:186-217 | a record fails only for a missing column or an invalid grade, and succeeds exactly when all four columns exist and the grade parses |
| GradesCsv.ConvertLines | backend/http/grades.go:173-220 | on success there is one grade per data line; no data lines is a success |
| GradesCsv.Convert | backend/http/grades.go:147-222 | a file that cannot be opened fails with the open error, a missing or unreadable header with the header error; on success there is one grade per data line |
| GradesCsv.ReadRecord | backend/http/grades.go:174-181 | a record that is read has as many fields as the header |
| GradesCsv.ParseRecord | backend/http/grades.go:186-217 | looks up student_id, student_name, subject and grade in that order; fails exactly where the reference conversion of a record fails, with the same error |
| GradesCsv.ConvertCsvToStudentGrades | backend/http/grades.go:147-223 | agrees with the reference conversion on success, on failure and on the error kind; every error path returns no grades |
| GradesCsv.ConvertLinesSucceedsIff | backend/http/grades.go:173-222 | the conversion succeeds if and only if every data line is read, the header has all four columns and every grade parses |
| GradesCsv.ConvertLinesContents | backend/http/grades.go:184-219 | on success there is one grade per data line, line by line, with ID, name and subject copied from their columns and the grade parsed from its own |
| GradesCsv.ConvertLineContents | backend/http/grades.go:184-219 | `ConvertLine`, one data line's conversion: an accepted data line yields the grade its fields denote |
| GradesCsv.HeaderOnlySucceeds | backend/http/grades.go:159-222 | a file holding only a header converts to no grades, whatever its columns |
| GradesCsv.MissingColumnFails | backend/http/grades.go:187-217 | with at least one data line, a header lacking a required column fails the conversion |
| GradesCsv.InvalidGradeFails | backend/http/grades.go:208-213 | a single data line whose grade does not parse fails the whole file |
| GradesQuery.BatchesPartition | backend/repository/grades.go:31-36 | the batches are contiguous slices that cover every grade once, in order; each holds 200 grades except the last, which holds 1 to 200 |
| GradesQuery.ValuesList | backend/repository/grades.go:50-57 | a non-empty `VALUES` list starts with a placeholder tuple |
| GradesQuery.BatchQueryShape | backend/repository/grades.go:46-72 | every batch query starts with the `INSERT` prefix and ends with the `ON CONFLICT` clause |
| GradesQuery.Args | backend/repository/grades.go:48-60 | a batch's argument list holds four values per grade |
| GradesQuery.ArgsIndex | backend/repository/grades.go:55-60 | arguments 4i to 4i+3 are grade i's id, subject, grade and name |
| GradesQuery.PlaceholderTupleScan | backend/repository/grades.go:55-56 | a tuple for `argIdx` names the placeholders argIdx+1 to argIdx+4, in order |
| GradesQuery.ValuesListScan | backend/repository/grades.go:50-57 | the `VALUES` list of k grades names exactly the placeholders $1 to $4k, in order |
| GradesQuery.PlaceholderBinding | backend/repository/grades.go:50-75 | placeholder j+1 binds argument j, which is column j mod 4 of grade j div 4; no placeholder lacks an argument |
| GradesRepository.BatchTraceEnds | backend/repository/grades.go:39-90 | a batch begins its transaction first and ends with -1 exactly when it does not commit |
| GradesRepository.TraceStarts | backend/repository/grades.go:32-39 | a run does nothing exactly when there are no grades; otherwise it begins a transaction first |
| GradesRepository.BuildBatch | backend/repository/grades.go:46-72 | the inner loop builds the batch's query text, its argument list and one progress send per grade, numbered from batchStart+1 |
| GradesRepository.AddGrade | backend/repository/grades.go:51-63 | one turn of the inner loop adds the next placeholder tuple, that grade's four arguments and its progress value |
| GradesRepository.InsertBatch | backend/repository/grades.go:38-89 | one batch: begin; then the sends, the exec and the commit; a failing begin, exec or commit sends -1 (after a rollback for exec) and ends the batch |
| GradesRepository.RunBatch | backend/repository/grades.go:31-89 | the loop body cuts out the batch starting at batchStart and reports whether its transaction committed |
| GradesRepository.InsertGrades | backend/repository/grades.go:24-94 | the batch loop produces exactly the reference trace: batches in order, stopping after the first failed one |
| GradesRepository.SentOnSuccess | backend/repository/grades.go:31-64 | when every batch commits, the channel carries 1, 2, ..., n, and never -1 |
| GradesRepository.SentOnFailure | backend/repository/grades.go:38-90 | when batch f fails first, the channel carries 1 up to the last grade reached, then -1, and f+1 transactions are begun |
| GradesRepository.ExecutedOnSuccess | backend/repository/grades.go:46-75 | when every batch commits, one upsert is executed per batch, in order, each with its own query and arguments |
| GradesRepository.FailureOrAllCommit | backend/repository/grades.go:31-90 | either every batch the loop reaches commits, or there is a first failing batch |
| GradesHttp.Percent | backend/http/grades.go:119 | the percentage is the least integer at least 100·n/total, the ceiling the source takes |
| GradesHttp.PercentBounds | backend/http/grades.go:119 | for a count from 0 to the total the percentage is between 0 and 100, is 0 only for no grade and is 100 once all are in; for at most 100 grades, 100 means all are in |
| GradesHttp.PercentOfFailureSentinel | backend/http/grades.go:117-122 | the percentage of the sentinel -1 is 0 above 100 grades, -1 for 51 to 100, and below -1 for at most 50 |
| GradesHttp.PercentHundredEarly | backend/http/grades.go:119 | above 100 grades, the percentage is already 100 one grade before the end |
| GradesHttp.ProgressFor | backend/http/grades.go:117-122 | the corrected stored progress: -1 after the failure value, never 100 below the total, and otherwise line 119's percentage |
| GradesHttp.ProgressForBounds | backend/http/grades.go:117-125 | the stored progress is -1 after the failure value; for a count from 0 to the total it is in [0, 100], is 0 only for no grade and is 100 only when every grade is in; below 100 it equals the source's percentage |
| GradesHttp.Update | backend/http/grades.go:119-124 | one turn of the channel loop records the value as the count and keeps the id and the total; the corrected progress is -1 after the failure value and never 100 below the total |
| GradesHttp.UpdateAsWritten | backend/http/grades.go:119-124 | one turn as written: the value becomes the count, and the progress is the least integer at least 100·value/total, for the failure value too |
| GradesHttp.Absorb | backend/http/grades.go:117-125 | the channel loop leaves the id and the total alone; the last value received decides the count and the corrected progress |
| GradesHttp.AbsorbAsWritten | backend/http/grades.go:117-125 | the channel loop as written: the last value received decides the count, and line 119's percentage of it is the progress |
| GradesHttp.SentValues | backend/repository/grades.go:31-90 | every value on the channel is -1 or a count from 1 to n; when all commit they are 1 to n; when a batch fails, -1 comes last |
| GradesHttp.Processed | backend/http/grades.go:94-125 | the record keeps its id; a file that cannot be converted sets the progress to -1 and keeps the total; a converted one records its number of grades; a failing start sets -1 |
| GradesHttp.ProcessedAsWritten | backend/http/grades.go:94-125 | the goroutine as written: the same conversion and start paths, then the channel loop with line 119's percentage |
| GradesHttp.ProcessedAsWrittenInsertFails | backend/http/grades.go:117-125 | as written, when a batch fails the record ends with count -1 and the percentage of -1: 0 above 100 grades, -1 for 51 to 100, between -100 and -2 for at most 50 |
| GradesHttp.ProcessedAsWrittenAgrees | backend/http/grades.go:94-125 | unless a batch fails, the source and the corrected processing leave the same record |
| GradesHttp.ProcessedAsWrittenProgress | backend/http/grades.go:69-125 | as written, a fresh record ends between -100 and 100, and at 100 exactly when there were grades and all were inserted |
| GradesHttp.ProcessedConversionFails | backend/http/grades.go:94-101 | a file that cannot be converted sets the progress to -1 and changes no count |
| GradesHttp.ProcessedStartFails | backend/http/grades.go:103-115 | a failure to start the inserter sets the progress to -1 after recording the total |
| GradesHttp.ProcessedAllInserted | backend/http/grades.go:103-125 | when every batch commits, the record ends with every grade counted and the progress at 100 |
| GradesHttp.ProcessedInsertFails | backend/http/grades.go:117-125 | when a batch fails, the record ends with progress -1 and the count -1 |
| GradesHttp.ProcessedHeaderOnly | backend/http/grades.go:103-125 | a header-only file records a total of 0 and nothing else changes, so a fresh record stays at progress 0 |
| GradesHttp.ProcessedProgress | backend/http/grades.go:69-125 | a fresh record ends at -1 or between 0 and 100, and at 100 exactly when there were grades and all were inserted |
| GradesHttp.FileProcessingInfo.constructor | backend/http/grades.go:69-73 | the new record holds the file id, no counts and progress 0 |
| GradesHttp.FileProcessingInfo.Process | backend/http/grades.go:94-125 | the goroutine leaves the record as the reference processing says |
| GradesHttp.FileProcessingInfo.Follow | backend/http/grades.go:117-125 | the loop over the channel leaves the record as the channel loop's function says |
| GradesHttp.UploadedFile | backend/http/grades.go:51-63 | a form that does not parse, or has no `file` part, is rejected for that reason; otherwise the first file is taken |
| GradesHttp.UploadGradesCsv | backend/http/grades.go:49-127 | a rejected request gets its error and no record; an accepted one gets the file id and a fresh record that ends as processing leaves it |
| UploadFile.Reset | frontend/src/components/FileUploadComponent.tsx:37-47 | an entry keeps its file and loses its file id, both progresses and all four times |
| UploadFile.Selected | frontend/src/components/FileUploadComponent.tsx:35-49 | one entry per selected file, the same file at each position |
| UploadFile.SelectedEntries | frontend/src/components/FileUploadComponent.tsx:35-49 | the new list has one entry per selected file, in order, with the same file, both progresses at 0, no times and no file id |
| UploadFile.SelectedIdempotent | frontend/src/components/FileUploadComponent.tsx:35-49 | selecting the same files again changes nothing |
| UploadFile.UploadProgressed | frontend/src/components/FileUploadComponent.tsx:83-97 | only the indexed entry changes; it keeps its file and takes the new upload progress |
| UploadFile.UploadProgressedEntries | frontend/src/components/FileUploadComponent.tsx:83-97 | only the indexed entry changes, and only its upload fields: the progress is overwritten, a start time is kept or set, and the end time is set exactly when unset and the value is 100 |
| UploadFile.FirstHundred | frontend/src/components/FileUploadComponent.tsx:93-95 | the time of the first event valued exactly 100, or none if there is none |
| UploadFile.UploadEventsFrame | frontend/src/components/FileUploadComponent.tsx:83-97 | after a run of events the other entries and the other fields are as they were |
| UploadFile.UploadEventsStart | frontend/src/components/FileUploadComponent.tsx:87-91 | after a run of events the progress is the last event's value, even if it is lower, and the start time is the old one or else the first event's |
| UploadFile.UploadEventsEnd | frontend/src/components/FileUploadComponent.tsx:92-95 | after a run of events the end time is the old one or else the time of the first event valued 100 |
| UploadFile.ResponseFileId | frontend/src/components/FileUploadComponent.tsx:106-113 | a file id is taken exactly when the body is JSON with a non-empty `file_id` |
| UploadFile.Loaded | frontend/src/components/FileUploadComponent.tsx:113-122 | only the indexed entry changes; it keeps its file and its upload progress |
| UploadFile.LoadedEntries | frontend/src/components/FileUploadComponent.tsx:112-122 | without a file id nothing changes; with one only the indexed entry takes it and its processing start |
| UploadFile.Find | frontend/src/components/FileUploadComponent.tsx:161-163 | the first element of the answer with that file id, or none if none has it |
| UploadFile.Merged | frontend/src/components/FileUploadComponent.tsx:158-185 | the merge keeps the length, and every entry keeps its file and its file id |
| UploadFile.MergedEntries | frontend/src/components/FileUploadComponent.tsx:158-185 | `MergeEntry`, applied to each entry: entries without a file id or a match are unchanged; a matched one takes the first match's progress and count, and its end time is set exactly when unset and the progress is 100 |
| UploadFile.MergedIdempotent | frontend/src/components/FileUploadComponent.tsx:158-185 | applying the same answer twice equals applying it once |
| UploadFile.FilesToPoll | frontend/src/components/FileUploadComponent.tsx:147-149 | the entries polled are exactly those with a file id and a progress other than 100 |
| UploadFile.ShouldPollIff | frontend/src/components/FileUploadComponent.tsx:147-151 | `ShouldPoll` and `NeedsPolling`: the timer is armed exactly when some entry has a file id and is not at 100 |
| UploadFile.CompleteStopsPolling | frontend/src/components/FileUploadComponent.tsx:53-55 | `AllProcessingComplete`: once every entry is at 100 nothing is polled; an empty list counts as complete |
| UploadFile.SelectedIdle | frontend/src/components/FileUploadComponent.tsx:35-55 | a fresh selection polls nothing and is complete only when empty |
| UploadFile.UnfinishedEntryKeepsPolling | frontend/src/components/FileUploadComponent.tsx:53-59 | an entry with a file id whose progress is not 100, a failed one at -1 included, keeps the list incomplete and polling armed |
| UploadFile.SelectedConsistent | frontend/src/components/FileUploadComponent.tsx:35-49 | a fresh selection satisfies the timestamp invariant |
| UploadFile.UploadProgressedConsistent | frontend/src/components/FileUploadComponent.tsx:83-97 | the upload updater keeps the invariant: an upload end comes with an upload start |
| UploadFile.LoadedConsistent | frontend/src/components/FileUploadComponent.tsx:113-122 | the file-id updater keeps the invariant: a file id comes with a processing start |
| UploadFile.MergedConsistent | frontend/src/components/FileUploadComponent.tsx:158-185 | the merge keeps the invariant: only an entry with a file id gets a processing end |
| UploadMetrics.DefinedTimes | frontend/src/components/FileUploadComponent.tsx:220-234 | the filtered times are exactly the set ones |
| UploadMetrics.Min | frontend/src/components/FileUploadComponent.tsx:238 | the minimum is in the list and below all others |
| UploadMetrics.Max | frontend/src/components/FileUploadComponent.tsx:242 | the maximum is in the list and above all others |
| UploadMetrics.TimesIn | frontend/src/components/FileUploadComponent.tsx:220-234 | a time is in the list of one kind exactly when some entry has it |
| UploadMetrics.Span | frontend/src/components/FileUploadComponent.tsx:252-262 | a span is 0 unless some entry has its start time and some entry its end time |
| UploadMetrics.SpanIs | frontend/src/components/FileUploadComponent.tsx:252-262 | `Span`, hence `TotalUploadTime` and `TotalProcessingTime`: a span is 0 unless both sides have a time; then it is the latest end minus the earliest start |
| UploadMetrics.TotalOverallTime | frontend/src/components/FileUploadComponent.tsx:237-249 | the overall time, computed through two optional values, follows the same rule from upload start to processing end |
| UploadMetrics.ShowSummary | frontend/src/components/FileUploadComponent.tsx:430 | the summary is shown only when some file has an upload start and some file a processing end |
| UploadMetrics.ShowSummaryIff | frontend/src/components/FileUploadComponent.tsx:430 | the summary is shown exactly when some file finished processing after some file started uploading |
| UploadMetrics.UploadTimeNonNegative | frontend/src/components/FileUploadComponent.tsx:252-255 | `TotalUploadTime`: when every upload end comes no earlier than its own start, the upload time is not negative |
| UploadMetrics.SelectedMetrics | frontend/src/components/FileUploadComponent.tsx:220-262 | a fresh selection shows upload, processing and total times of 0 and no summary |
| UploadComponent.RequestFor | frontend/src/components/FileUploadComponent.tsx:65-71 | an entry's request carries its file under `file` exactly when it has one |
| UploadComponent.FileUploadComponent.constructor | frontend/src/components/FileUploadComponent.tsx:30-32 | the modal starts hidden, with an empty list, not uploading |
| UploadComponent.FileUploadComponent.Open | frontend/src/components/FileUploadComponent.tsx:280 | the button shows the modal and changes nothing else |
| UploadComponent.FileUploadComponent.HandleChange | frontend/src/components/FileUploadComponent.tsx:35-49 | the selection replaces the list with its reset entries and keeps the invariant |
| UploadComponent.FileUploadComponent.SyncUploading | frontend/src/components/FileUploadComponent.tsx:51-60 | `uploading` stays set only while some entry is not at 100 |
| UploadComponent.FileUploadComponent.HandleUpload | frontend/src/components/FileUploadComponent.tsx:62-71 | sets `uploading` and issues one request per entry, in list order |
| UploadComponent.FileUploadComponent.OnUploadProgress | frontend/src/components/FileUploadComponent.tsx:75-99 | with a computable length the indexed entry takes loaded/total·100 through the upload updater; without one nothing changes |
| UploadComponent.FileUploadComponent.OnLoad | frontend/src/components/FileUploadComponent.tsx:102-130 | a 2xx status applies the file-id updater; any other status clears `uploading` and leaves the list |
| UploadComponent.FileUploadComponent.OnError | frontend/src/components/FileUploadComponent.tsx:132-137 | a network error clears `uploading` |
| UploadComponent.FileUploadComponent.OnProgressPoll | frontend/src/components/FileUploadComponent.tsx:152-186 | a polling answer is merged into the list and the invariant is kept |
| UploadComponent.ValidSpansStarted | frontend/src/components/FileUploadComponent.tsx:83-185 | in every state the handlers keep, a file that finished uploading means some upload start exists, and a file that finished processing means some processing start exists |
| UploadComponent.FileUploadComponent.HandleModalClose | frontend/src/components/FileUploadComponent.tsx:207-217 | while uploading, nothing changes; otherwise the modal hides and the list empties |
| ProgressOrder.HundredBeforeExec | backend/repository/grades.go:51-90 | one grade whose exec fails: its count is sent before the exec, so after the first two effects the record reads 100 under either progress rule, with nothing committed, and the run then ends with -1 |
| ProgressOrder.CorrectedBatchTrace | backend/repository/grades.go:39-90 | the corrected batch begins first and, when it does not commit, sends -1 last |
| ProgressOrder.CorrectedSendRange | backend/repository/grades.go:32-90 | every value the corrected loop from batch b sends is -1 or a count from 200b+1 to n |
| ProgressOrder.CorrectedFinalSend | backend/repository/grades.go:32-90 | under the corrected order the count n is sent only when every batch the loop reaches has committed |
| ProgressOrder.CorrectedFinalCommits | backend/repository/grades.go:32-90 | under the corrected order every commit of the run, one per batch, comes before the count n is sent |
| ProgressOrder.CorrectedHundredMeansCommitted | backend/repository/grades.go:32-90 | under the corrected order and the capped progress, a record that reads 100 after any prefix of the run means every batch has committed, each commit within that prefix |
| ProgressOrder.ReorderAloneInsufficient | backend/http/grades.go:119 | the corrected order alone is not enough: with line 119's percentage, 201 grades whose second batch fails read 100 once the first batch has committed |
| ProgressOrder.CorrectedLastSent | backend/repository/grades.go:32-90 | the corrected loop's last value is n when every batch commits and -1 otherwise |
| ProgressOrder.CorrectedSameEnd | backend/http/grades.go:117-125 | the corrected order leaves the handler's record where the source's order does |

## Left out

- Floating point is left out. The upload progress is an exact real, `loaded / total * 100`. The processing percentage is the exact ceiling of `100·n / total`, while the source computes `math.Ceil` of a float64 quotient; rounding there can raise a value by one (7 of 100 grades gives 7.000000000000001 before the ceiling). `toFixed` display rounding is not modelled either.
- UploadComponent.FileUploadComponent.OnUploadProgress: an event with a computable length and a total of 0 is excluded by its precondition. In the source that division gives NaN.
- Requests, timers and toasts are not modelled: `XMLHttpRequest`, `fetch`, the 750 ms `setInterval` and its cleanup, and `message.error`/`message.warning`. Each handler receives what its event delivers. A fetch or JSON failure during polling only logs, so it is an absent answer. A `null` polling body, which would throw inside the updater, is not modelled.
- React scheduling is not modelled. Each updater is applied to the list current when it runs. The source's updaters copy the array and then write into the shared element object; the model replaces the element at its index instead, so aliasing between an old and a new list is not captured. An updater for an index past the end of a list replaced in the meantime (the source would throw) is excluded by the preconditions.
- Rendering is left out: the JSX and `formatDuration`. Only the condition for showing the summary at line 430 is modelled.
- Concurrency is left out: the goroutine, the mutex, the channel's blocking hand-over and the global `fileProcessingInfoMap`. Processing runs to completion inside `UploadGradesCsv`. `LastUpdated`, the one-hour deletion timer and `GetProcessingProgress`, which only copies the map's fields into the answer, are not modelled. The polled answer is a parameter of `OnProgressPoll`.
- The start error of `InsertGrades` is a parameter (`startFails`). The repository in this code always returns a nil error, so only a different inserter could produce it.
- Database calls are reduced to their outcome per batch: `pgxpool`, the context and the log lines are not modelled, and a failed rollback is only logged.
- CSV tokenisation (quotes, separators, skipped blank lines) is not modelled: the reader's output is the input, and a field-count mismatch is a read error.
- Decimal.Atoi merges Go's syntax error and range error into one `None`, because the handler treats both the same.
- Routing, `main`, the use-case layer (a pass-through to the repository), `page.tsx` and the other context files are not modelled.
- The handler's record is modelled with the corrected progress value (see Findings). The source's line 119 is modelled beside it, in `GradesHttp.UpdateAsWritten`, `GradesHttp.AbsorbAsWritten` and `GradesHttp.ProcessedAsWritten`, with what it stores proved in `GradesHttp.ProcessedAsWrittenInsertFails` and `GradesHttp.ProcessedAsWrittenProgress`.
- GradesHttp.Absorb: stores the corrected progress, not line 119's ceiling; the source's loop is `GradesHttp.AbsorbAsWritten`.
- GradesHttp.FileProcessingInfo.Process: stores the corrected progress, not line 119's ceiling; what the source's goroutine leaves is `GradesHttp.ProcessedAsWritten`.
- GradesHttp.FileProcessingInfo.Follow: stores the corrected progress, not line 119's ceiling.
- GradesHttp.UploadGradesCsv: the record it ends with carries the corrected progress, not line 119's ceiling.
- GradesHttp.ProcessedInsertFails: states the corrected -1; the source stores the percentage of -1, as `GradesHttp.ProcessedAsWrittenInsertFails` states.
- GradesHttp.ProcessedProgress: the range -1 or 0 to 100 holds for the corrected value; the source's record ends anywhere from -100 to 100, as `GradesHttp.ProcessedAsWrittenProgress` states.
- GradesRepository.InsertGrades keeps the source's order, sending each count before its batch is executed and committed; the corrected order exists only in `ProgressOrder`, and `ProgressOrder.CorrectedSameEnd` shows that the record a run ends with is the same under both orders.
- UploadFile.UploadProgressed: one `now` stands for both `Date.now()` readings at lines 90 and 94, so a first event at 100 gets equal start and end times, where the source may read two different clock values.
- UploadFile.Merged: one `now` stands for the `Date.now()` read separately for each matched entry at line 178, so entries that reach 100 in one answer get equal processing end times, where the source may read different clock values; `MergedEntries`, `OnProgressPoll` and the metrics rest on this.

## Findings

| source | as written | input that shows it | evidently intended | confidence | as-written member | corrected member |
|---|---|---|---|---|---|---|
| backend/http/grades.go:119 | the failure value -1 from the channel goes through the same percentage computation as a count | 201 grades whose first batch fails to begin: the channel sends only -1, and ceil(-100/201) stores progress 0, not -1; 10 grades store -10 | any failure leaves progress -1, as the other error paths at lines 97 and 111 do | not executed; high | GradesHttp.ProcessedAsWrittenInsertFails | GradesHttp.ProcessedInsertFails |
| backend/http/grades.go:119 | the ceiling reaches 100 before the last grade is inserted once there are more than 100 grades | 201 grades: once the channel has sent 200, ceil(100·200/201) is 100; the frontend then stops polling, records the processing end and clears `uploading` while grade 201 is not yet inserted and its batch may yet fail | progress 100 only when every grade is inserted | not executed; medium | GradesHttp.PercentHundredEarly | GradesHttp.ProgressForBounds |
| backend/repository/grades.go:63 | each grade's count is sent while the query is built, before the batch is executed (line 75) and committed (line 86) | one grade whose exec fails: after the begin and the send of 1 the record reads 100, so the frontend stops polling and clears `uploading`; the -1 sent after the rollback is never polled | progress 100 only once every batch has committed, which needs both the later send and the capped progress (`ProgressOrder.ReorderAloneInsufficient`) | not executed; medium | ProgressOrder.HundredBeforeExec | ProgressOrder.CorrectedHundredMeansCommitted |
