/** The overall metrics of frontend/src/components/FileUploadComponent.tsx: for each
    of the four times, the defined values over the list, and the spans from the
    earliest start to the latest end, 0 when either side has no value. */
module UploadMetrics {
  import opened Wrappers
  import opened UploadFile

  /** The four times of an entry. */
  datatype Moment = UploadStart | UploadEnd | ProcessingStart | ProcessingEnd

  function TimeOf(f: FileRec, m: Moment): Option<Timestamp>
  {
    match m
    case UploadStart => f.uploadStartTime
    case UploadEnd => f.uploadEndTime
    case ProcessingStart => f.processingStartTime
    case ProcessingEnd => f.processingEndTime
  }

  /** `.filter((time): time is number => !!time)`: the set times, in list order. */
  function DefinedTimes(ts: seq<Option<Timestamp>>): (r: seq<int>)
    ensures |r| <= |ts|
    ensures forall i :: 0 <= i < |ts| && ts[i].Some? ==> ts[i].value as int in r
    ensures forall t :: t in r ==> exists i :: 0 <= i < |ts| && ts[i].Some? && ts[i].value == t
  {
    if ts == [] then []
    else
      var rest := DefinedTimes(ts[1..]);
      assert forall i :: 1 <= i < |ts| ==> ts[i] == ts[1..][i - 1];
      (if ts[0].Some? then [ts[0].value as int] else []) + rest
  }

  /** `fileList.map(file => file.<moment>).filter(...)`. */
  function Times(list: seq<FileRec>, m: Moment): seq<int>
  {
    DefinedTimes(seq(|list|, i requires 0 <= i < |list| => TimeOf(list[i], m)))
  }

  /** `Math.min(...s)` of a non-empty list. */
  function Min(s: seq<int>): (r: int)
    requires |s| > 0
    ensures r in s && forall x :: x in s ==> r <= x
  {
    if |s| == 1 then s[0]
    else
      var m := Min(s[1..]);
      assert forall x :: x in s ==> x == s[0] || x in s[1..];
      if s[0] <= m then s[0] else m
  }

  /** `Math.max(...s)` of a non-empty list. */
  function Max(s: seq<int>): (r: int)
    requires |s| > 0
    ensures r in s && forall x :: x in s ==> x <= r
  {
    if |s| == 1 then s[0]
    else
      var m := Max(s[1..]);
      assert forall x :: x in s ==> x == s[0] || x in s[1..];
      if s[0] >= m then s[0] else m
  }

  /** The latest `to` time minus the earliest `from` time when both exist, else 0. */
  function Span(list: seq<FileRec>, from: Moment, to: Moment): (r: int)
    ensures r != 0 ==> AnySet(list, from) && AnySet(list, to)
  {
    TimesIn(list, from);
    TimesIn(list, to);
    var starts := Times(list, from);
    var ends := Times(list, to);
    if |starts| > 0 && |ends| > 0 then Max(ends) - Min(starts) else 0
  }

  /** `totalUploadTime`. */
  function TotalUploadTime(list: seq<FileRec>): int
  {
    Span(list, UploadStart, UploadEnd)
  }

  /** `totalProcessingTime`. */
  function TotalProcessingTime(list: seq<FileRec>): int
  {
    Span(list, ProcessingStart, ProcessingEnd)
  }

  /** `totalOverallTime`, through `overallStartTime` and `overallEndTime`, which are
      undefined when there is no value to take the minimum or maximum of. */
  function TotalOverallTime(list: seq<FileRec>): (r: int)
    ensures r == Span(list, UploadStart, ProcessingEnd)
  {
    var starts := Times(list, UploadStart);
    var ends := Times(list, ProcessingEnd);
    var overallStart: Option<int> := if |starts| > 0 then Some(Min(starts)) else None;
    var overallEnd: Option<int> := if |ends| > 0 then Some(Max(ends)) else None;
    if overallStart.Some? && overallEnd.Some? then overallEnd.value - overallStart.value else 0
  }

  /** The summary block is rendered only for a positive overall time. */
  predicate ShowSummary(list: seq<FileRec>): (r: bool)
    ensures r ==> AnySet(list, UploadStart) && AnySet(list, ProcessingEnd)
  {
    TotalOverallTime(list) > 0
  }

  /** `Times` holds exactly the set times of the list. */
  lemma TimesIn(list: seq<FileRec>, m: Moment)
    ensures forall i :: 0 <= i < |list| && TimeOf(list[i], m).Some? ==> TimeOf(list[i], m).value as int in Times(list, m)
    ensures forall t :: t in Times(list, m) ==> exists i :: 0 <= i < |list| && TimeOf(list[i], m).Some? && TimeOf(list[i], m).value == t
    ensures |Times(list, m)| > 0 <==> exists i :: 0 <= i < |list| && TimeOf(list[i], m).Some?
  {
    var ts := seq(|list|, i requires 0 <= i < |list| => TimeOf(list[i], m));
    assert forall i :: 0 <= i < |list| ==> ts[i] == TimeOf(list[i], m);
    if |Times(list, m)| > 0 {
      assert Times(list, m)[0] in Times(list, m);
    }
  }

  /** Whether some entry has its `m` time set. */
  predicate AnySet(list: seq<FileRec>, m: Moment)
  {
    exists i :: 0 <= i < |list| && TimeOf(list[i], m).Some?
  }

  /** The entries holding the earliest `from` time and the latest `to` time. */
  lemma Extremes(list: seq<FileRec>, from: Moment, to: Moment) returns (a: nat, b: nat)
    requires AnySet(list, from) && AnySet(list, to)
    ensures a < |list| && b < |list| && TimeOf(list[a], from).Some? && TimeOf(list[b], to).Some?
    ensures Span(list, from, to) == TimeOf(list[b], to).value - TimeOf(list[a], from).value
    ensures forall i :: 0 <= i < |list| && TimeOf(list[i], from).Some? ==> TimeOf(list[a], from).value <= TimeOf(list[i], from).value
    ensures forall i :: 0 <= i < |list| && TimeOf(list[i], to).Some? ==> TimeOf(list[i], to).value <= TimeOf(list[b], to).value
  {
    TimesIn(list, from);
    TimesIn(list, to);
    var lo := Min(Times(list, from));
    var hi := Max(Times(list, to));
    a :| 0 <= a < |list| && TimeOf(list[a], from).Some? && TimeOf(list[a], from).value == lo;
    b :| 0 <= b < |list| && TimeOf(list[b], to).Some? && TimeOf(list[b], to).value == hi;
  }

  /** A span is 0 unless some entry has a `from` time and some entry a `to` time;
      then it is the latest `to` time minus the earliest `from` time. */
  lemma SpanIs(list: seq<FileRec>, from: Moment, to: Moment)
    ensures !AnySet(list, from) || !AnySet(list, to) ==> Span(list, from, to) == 0
    ensures AnySet(list, from) && AnySet(list, to) ==>
      exists a, b :: 0 <= a < |list| && 0 <= b < |list| &&
        TimeOf(list[a], from).Some? && TimeOf(list[b], to).Some? &&
        Span(list, from, to) == TimeOf(list[b], to).value - TimeOf(list[a], from).value &&
        (forall i :: 0 <= i < |list| && TimeOf(list[i], from).Some? ==> TimeOf(list[a], from).value <= TimeOf(list[i], from).value) &&
        (forall i :: 0 <= i < |list| && TimeOf(list[i], to).Some? ==> TimeOf(list[i], to).value <= TimeOf(list[b], to).value)
  {
    if AnySet(list, from) && AnySet(list, to) {
      var a, b := Extremes(list, from, to);
    } else {
      TimesIn(list, from);
      TimesIn(list, to);
    }
  }

  /** The summary is shown exactly when some file finished processing after some
      file started uploading. */
  lemma ShowSummaryIff(list: seq<FileRec>)
    ensures ShowSummary(list) <==>
      exists a, b :: 0 <= a < |list| && 0 <= b < |list| &&
        list[a].uploadStartTime.Some? && list[b].processingEndTime.Some? &&
        list[a].uploadStartTime.value < list[b].processingEndTime.value
  {
    TimesIn(list, UploadStart);
    TimesIn(list, ProcessingEnd);
    if ShowSummary(list) {
      var a, b := Extremes(list, UploadStart, ProcessingEnd);
      assert list[a].uploadStartTime.value < list[b].processingEndTime.value;
    } else if exists a, b :: (0 <= a < |list| && 0 <= b < |list| &&
        list[a].uploadStartTime.Some? && list[b].processingEndTime.Some? &&
        list[a].uploadStartTime.value < list[b].processingEndTime.value) {
      var a, b :| 0 <= a < |list| && 0 <= b < |list| &&
        list[a].uploadStartTime.Some? && list[b].processingEndTime.Some? &&
        list[a].uploadStartTime.value < list[b].processingEndTime.value;
      assert TimeOf(list[a], UploadStart).value as int in Times(list, UploadStart);
      assert TimeOf(list[b], ProcessingEnd).value as int in Times(list, ProcessingEnd);
    }
  }

  /** When every entry with an upload end started uploading no later, the upload
      time is not negative. */
  lemma UploadTimeNonNegative(list: seq<FileRec>)
    requires forall i :: 0 <= i < |list| && list[i].uploadEndTime.Some? ==>
      list[i].uploadStartTime.Some? && list[i].uploadStartTime.value <= list[i].uploadEndTime.value
    ensures TotalUploadTime(list) >= 0
  {
    if AnySet(list, UploadStart) && AnySet(list, UploadEnd) {
      var a, b := Extremes(list, UploadStart, UploadEnd);
      assert TimeOf(list[b], UploadStart).Some?;
    }
  }

  /** A fresh selection shows no times and no summary. */
  lemma SelectedMetrics(files: seq<FileRec>)
    ensures TotalUploadTime(Selected(files)) == 0
    ensures TotalProcessingTime(Selected(files)) == 0
    ensures TotalOverallTime(Selected(files)) == 0
    ensures !ShowSummary(Selected(files))
  {
    var list := Selected(files);
    TimesIn(list, UploadStart);
    TimesIn(list, ProcessingStart);
    SpanIs(list, UploadStart, UploadEnd);
    SpanIs(list, ProcessingStart, ProcessingEnd);
  }
}
