/** When, during a run of `InsertGrades` (backend/repository/grades.go), the record
    of the upload handler (backend/http/grades.go) reads 100. A poller sees the
    record as the handler left it after taking the values sent by some prefix of the
    run's trace. `InsertGrades` sends a grade's count while it builds the batch's
    query, before the batch is executed and committed, so the record can read 100
    while the last batch may still fail; the corrected order below sends a batch's
    counts only once it has committed. */
module ProgressOrder {
  import opened Models
  import opened GradesQuery
  import opened GradesRepository
  import GradesHttp

  /** The number of `Commit` calls in a trace. */
  function Commits(trace: seq<Effect>): nat
  {
    if |trace| == 0 then 0 else (if trace[0].Commit? then 1 else 0) + Commits(trace[1..])
  }

  lemma {:induction false} CommitsAppend(a: seq<Effect>, b: seq<Effect>)
    ensures Commits(a + b) == Commits(a) + Commits(b)
    decreases |a|
  {
    if |a| == 0 {
      assert a + b == b;
    } else {
      assert (a + b)[1..] == a[1..] + b;
      CommitsAppend(a[1..], b);
    }
  }

  lemma {:induction false} CommitsNone(s: seq<Effect>)
    requires forall i :: 0 <= i < |s| ==> !s[i].Commit?
    ensures Commits(s) == 0
    decreases |s|
  {
    if |s| > 0 {
      CommitsNone(s[1..]);
    }
  }

  /** A prefix commits no more than the whole trace, and no less than a shorter prefix. */
  lemma CommitsPrefix(t: seq<Effect>, j: nat, k: nat)
    requires j <= k <= |t|
    ensures Commits(t[..j]) <= Commits(t[..k]) <= Commits(t)
  {
    assert t[..k] == t[..j] + t[j..k];
    assert t == t[..k] + t[k..];
    CommitsAppend(t[..j], t[j..k]);
    CommitsAppend(t[..k], t[k..]);
  }

  /** The last value a trace sends is sent at some position of it. */
  lemma {:induction false} SentLastAt(t: seq<Effect>) returns (j: nat)
    requires Sent(t) != []
    ensures j < |t| && t[j] == Send(Sent(t)[|Sent(t)| - 1])
    decreases |t|
  {
    var head: seq<int> := if t[0].Send? then [t[0].value] else [];
    assert Sent(t) == head + Sent(t[1..]);
    if Sent(t[1..]) == [] {
      assert Sent(t) == head;
      j := 0;
    } else {
      var j' := SentLastAt(t[1..]);
      j := j' + 1;
    }
  }

  /** The record a poller reads once the handler has taken what the first `k`
      effects of `trace` sent, with the corrected progress. */
  function RecordAfter(info: GradesHttp.Info, trace: seq<Effect>, k: nat): GradesHttp.Info
    requires info.totalGrades > 0 && k <= |trace|
  {
    GradesHttp.Absorb(info, Sent(trace[..k]))
  }

  /** The same with line 119's percentage. */
  function RecordAfterAsWritten(info: GradesHttp.Info, trace: seq<Effect>, k: nat): GradesHttp.Info
    requires info.totalGrades > 0 && k <= |trace|
  {
    GradesHttp.AbsorbAsWritten(info, Sent(trace[..k]))
  }

  // ---------------------------------------------------------------------------
  // The order as written

  /** One grade whose batch fails to execute: once the handler has taken the count
      sent while the query was built, the record reads 100 under either progress
      rule, although nothing has been executed or committed and the run ends with
      -1. */
  lemma HundredBeforeExec(g: StudentGrade, id: string)
    ensures var t := Trace([g], [ExecFails]); var info := GradesHttp.Info(id, 0, 1, 0);
      |t| == 5 && t[..2] == [BeginTx, Send(1)] && t[2].Exec? && t[3] == Rollback && t[4] == Send(-1) &&
      RecordAfter(info, t, 2).progress == 100 && RecordAfterAsWritten(info, t, 2).progress == 100 &&
      Commits(t[..2]) == 0 && !AllCommit([g], [ExecFails])
  {
    OneGradeExecFails(g, Statement);
    var p := Trace([g], [ExecFails])[..2];
    SentOfBeginSend(p);
    HundredOfOne(GradesHttp.Info(id, 0, 1, 0));
  }

  /** A begin followed by the first count sends that count and commits nothing. */
  lemma SentOfBeginSend(p: seq<Effect>)
    requires p == [BeginTx, Send(1)]
    ensures Sent(p) == [1] && Commits(p) == 0
  {
    assert p == [BeginTx] + [Send(1)];
    SentAppend([BeginTx], [Send(1)]);
    SingleEffects(BeginTx);
    SingleEffects(Send(1));
    CommitsAppend([BeginTx], [Send(1)]);
    assert [BeginTx][1..] == [] && [Send(1)][1..] == [];
  }

  /** For a single grade, the count 1 reads 100 under either progress rule. */
  lemma HundredOfOne(info: GradesHttp.Info)
    requires info.totalGrades == 1
    ensures GradesHttp.Absorb(info, [1]).progress == 100 && GradesHttp.AbsorbAsWritten(info, [1]).progress == 100
  {
    GradesHttp.ProgressForBounds(1, 1);
  }

  /** The run over one grade whose batch fails to execute. */
  lemma OneGradeExecFails(g: StudentGrade, statement: seq<StudentGrade> -> Effect)
    ensures TraceFrom([g], [ExecFails], statement, 0) == [BeginTx, Send(1), statement([g]), Rollback, Send(-1)]
  {
    var grades := [g];
    assert BatchAt(grades, 0) == grades;
    assert Sends(0, 1) == [Send(1)];
    assert TraceFrom(grades, [ExecFails], statement, 0) == BatchTrace(1, 0, ExecFails, statement(grades));
  }

  // ---------------------------------------------------------------------------
  // The corrected order

  /** A batch under the corrected order: begin, execute, commit, and only then send
      the count of each of its grades; a failing call sends -1 as before. */
  function CorrectedBatchTrace(k: nat, start: nat, outcome: TxOutcome, exec: Effect): (r: seq<Effect>)
    ensures |r| >= 2 && r[0] == BeginTx
    ensures outcome != Committed ==> r[|r| - 1] == Send(-1)
  {
    match outcome
    case BeginFails => [BeginTx, Send(-1)]
    case ExecFails => [BeginTx, exec, Rollback, Send(-1)]
    case CommitFails => [BeginTx, exec, Commit, Send(-1)]
    case Committed => [BeginTx, exec, Commit] + Sends(start, k)
  }

  /** The corrected loop from batch `b` on. */
  function CorrectedTraceFrom(grades: seq<StudentGrade>, outcomes: seq<TxOutcome>,
                              statement: seq<StudentGrade> -> Effect, b: nat): seq<Effect>
    decreases |grades| - BatchSize * b
  {
    if BatchSize * b >= |grades| then []
    else
      var batch := BatchAt(grades, b);
      var bt := CorrectedBatchTrace(|batch|, BatchSize * b, OutcomeOf(outcomes, b), statement(batch));
      if OutcomeOf(outcomes, b) == Committed then bt + CorrectedTraceFrom(grades, outcomes, statement, b + 1) else bt
  }

  /** The corrected run, each batch executing `statement` of itself (the source's
      upsert is `Statement`; the order of the effects does not depend on it). */
  function CorrectedTrace(grades: seq<StudentGrade>, outcomes: seq<TxOutcome>,
                          statement: seq<StudentGrade> -> Effect): seq<Effect>
  {
    CorrectedTraceFrom(grades, outcomes, statement, 0)
  }

  /** Every batch from `b` on that the loop reaches commits. */
  predicate CommitsFrom(grades: seq<StudentGrade>, outcomes: seq<TxOutcome>, b: nat)
  {
    forall c :: b <= c < |outcomes| && BatchSize * c < |grades| ==> outcomes[c] == Committed
  }

  /** A send of a corrected batch: -1 when the batch fails; otherwise one of its own
      grade counts, its last count only at its last position. */
  lemma CorrectedBatchSend(k: nat, start: nat, outcome: TxOutcome, exec: Effect, j: nat)
    requires exec.Exec? && j < |CorrectedBatchTrace(k, start, outcome, exec)|
    requires CorrectedBatchTrace(k, start, outcome, exec)[j].Send?
    ensures var bt := CorrectedBatchTrace(k, start, outcome, exec); var v := bt[j].value;
      (outcome != Committed ==> v == -1) &&
      (outcome == Committed ==> 3 <= j && v == start + j - 2 && start + 1 <= v <= start + k &&
                                (v == start + k ==> j == |bt| - 1))
  {
    if outcome == Committed {
      var bt := CorrectedBatchTrace(k, start, outcome, exec);
      assert bt[..3] == [BeginTx, exec, Commit];
      assert j >= 3;
      assert bt[j] == Sends(start, k)[j - 3];
    }
  }

  /** A committed corrected batch commits once, at its third step. */
  lemma CorrectedBatchCommits(k: nat, start: nat, exec: Effect, j: nat)
    requires exec.Exec? && 3 <= j <= |CorrectedBatchTrace(k, start, Committed, exec)|
    ensures Commits(CorrectedBatchTrace(k, start, Committed, exec)[..j]) == 1
    ensures Commits(CorrectedBatchTrace(k, start, Committed, exec)) == 1
  {
    var bt := CorrectedBatchTrace(k, start, Committed, exec);
    var head := [BeginTx, exec, Commit];
    assert bt[..j] == head + bt[3..j];
    assert bt == head + bt[3..];
    CommitsAppend(head, bt[3..j]);
    CommitsAppend(head, bt[3..]);
    CommitsNone(bt[3..j]);
    CommitsNone(bt[3..]);
    HeadCommits(exec);
  }

  lemma HeadCommits(exec: Effect)
    requires exec.Exec?
    ensures Commits([BeginTx, exec, Commit]) == 1
  {
    assert [BeginTx, exec, Commit] == [BeginTx] + [exec] + [Commit];
    CommitsAppend([BeginTx] + [exec], [Commit]);
    CommitsAppend([BeginTx], [exec]);
    assert [BeginTx][1..] == [] && [exec][1..] == [] && [Commit][1..] == [];
  }

  /** One turn of `CorrectedTraceFrom`, unfolded. */
  lemma CorrectedStep(grades: seq<StudentGrade>, outcomes: seq<TxOutcome>, statement: seq<StudentGrade> -> Effect, b: nat)
    requires BatchSize * b < |grades|
    ensures var batch := BatchAt(grades, b);
      var bt := CorrectedBatchTrace(|batch|, BatchSize * b, OutcomeOf(outcomes, b), statement(batch));
      CorrectedTraceFrom(grades, outcomes, statement, b)
      == if OutcomeOf(outcomes, b) == Committed then bt + CorrectedTraceFrom(grades, outcomes, statement, b + 1) else bt
    ensures |BatchAt(grades, b)| == BatchEnd(BatchSize * b, |grades|) - BatchSize * b
  {
  }

  /** A committed batch that is the last one the loop visits. */
  lemma LastBatchFacts(grades: seq<StudentGrade>, outcomes: seq<TxOutcome>, statement: seq<StudentGrade> -> Effect, b: nat)
    requires BatchSize * b < |grades| && BatchEnd(BatchSize * b, |grades|) == |grades|
    requires OutcomeOf(outcomes, b) == Committed
    ensures CorrectedTraceFrom(grades, outcomes, statement, b + 1) == []
    ensures CommitsFrom(grades, outcomes, b)
    ensures |BatchesFrom(grades, BatchSize * b)| == 1
  {
    assert BatchSize * (b + 1) >= |grades|;
    BatchesFromStep(grades, b);
    assert forall c :: b < c ==> BatchSize * c >= BatchSize * (b + 1);
  }

  /** A committed batch followed by more batches. */
  lemma NextBatchFacts(grades: seq<StudentGrade>, outcomes: seq<TxOutcome>, b: nat)
    requires BatchSize * b < |grades| && OutcomeOf(outcomes, b) == Committed
    ensures CommitsFrom(grades, outcomes, b + 1) <==> CommitsFrom(grades, outcomes, b)
    ensures |BatchesFrom(grades, BatchSize * b)| == 1 + |BatchesFrom(grades, BatchSize * (b + 1))|
  {
    BatchesFromStep(grades, b);
  }

  /** A batch that fails is the run's last, and not every batch commits. */
  lemma FailedBatchFacts(grades: seq<StudentGrade>, outcomes: seq<TxOutcome>, b: nat)
    requires BatchSize * b < |grades| && OutcomeOf(outcomes, b) != Committed
    ensures !CommitsFrom(grades, outcomes, b)
  {
    assert b < |outcomes| && outcomes[b] != Committed;
  }

  /** A position past the first part of a joined trace. */
  lemma JoinedAt(bt: seq<Effect>, rest: seq<Effect>, j: nat)
    requires |bt| <= j < |bt| + |rest| && Commits(bt) == 1
    ensures (bt + rest)[j] == rest[j - |bt|]
    ensures Commits((bt + rest)[..j]) == 1 + Commits(rest[..j - |bt|])
    ensures Commits(bt + rest) == 1 + Commits(rest)
  {
    assert (bt + rest)[..j] == bt + rest[..j - |bt|];
    CommitsAppend(bt, rest[..j - |bt|]);
    CommitsAppend(bt, rest);
  }

  /** The sends of a committed batch `b` come first in the corrected loop from `b`;
      what follows is the loop from `b + 1`. */
  lemma CommittedJoin(grades: seq<StudentGrade>, outcomes: seq<TxOutcome>, statement: seq<StudentGrade> -> Effect, b: nat, j: nat) returns (len: nat)
    requires BatchSize * b < |grades| && OutcomeOf(outcomes, b) == Committed
    requires j < |CorrectedTraceFrom(grades, outcomes, statement, b)|
    ensures var batch := BatchAt(grades, b);
      len == |CorrectedBatchTrace(|batch|, BatchSize * b, Committed, statement(batch))|
    ensures var t := CorrectedTraceFrom(grades, outcomes, statement, b); var rest := CorrectedTraceFrom(grades, outcomes, statement, b + 1);
      len <= j ==> j - len < |rest| && t[j] == rest[j - len]
  {
    var batch := BatchAt(grades, b);
    len := |CorrectedBatchTrace(|batch|, BatchSize * b, Committed, statement(batch))|;
    CorrectedStep(grades, outcomes, statement, b);
  }

  /** The same join, counting commits: the batch commits once. */
  lemma CommittedJoinCommits(grades: seq<StudentGrade>, outcomes: seq<TxOutcome>, statement: seq<StudentGrade> -> Effect, b: nat, j: nat, len: nat)
    requires Executes(statement) && BatchSize * b < |grades| && OutcomeOf(outcomes, b) == Committed
    requires j < |CorrectedTraceFrom(grades, outcomes, statement, b)|
    requires len == |CorrectedBatchTrace(|BatchAt(grades, b)|, BatchSize * b, Committed, statement(BatchAt(grades, b)))| <= j
    ensures var t := CorrectedTraceFrom(grades, outcomes, statement, b); var rest := CorrectedTraceFrom(grades, outcomes, statement, b + 1);
      Commits(t[..j]) == 1 + Commits(rest[..j - len]) && Commits(t) == 1 + Commits(rest)
  {
    var start := BatchSize * b;
    var batch := BatchAt(grades, b);
    var bt := CorrectedBatchTrace(|batch|, start, Committed, statement(batch));
    var rest := CorrectedTraceFrom(grades, outcomes, statement, b + 1);
    CorrectedStep(grades, outcomes, statement, b);
    CorrectedBatchCommits(|batch|, start, statement(batch), |bt|);
    assert bt[..|bt|] == bt;
    JoinedAt(bt, rest, j);
  }

  /** A send inside batch `b` of the corrected loop. */
  lemma SendInBatch(grades: seq<StudentGrade>, outcomes: seq<TxOutcome>, statement: seq<StudentGrade> -> Effect, b: nat, j: nat)
    requires Executes(statement) && BatchSize * b < |grades|
    requires j < |CorrectedTraceFrom(grades, outcomes, statement, b)| && CorrectedTraceFrom(grades, outcomes, statement, b)[j].Send?
    requires OutcomeOf(outcomes, b) == Committed
    requires j < |CorrectedBatchTrace(|BatchAt(grades, b)|, BatchSize * b, Committed, statement(BatchAt(grades, b)))|
    ensures var v := CorrectedTraceFrom(grades, outcomes, statement, b)[j].value;
      BatchSize * b + 1 <= v <= |grades|
    ensures var v := CorrectedTraceFrom(grades, outcomes, statement, b)[j].value;
      v == |grades| ==> BatchEnd(BatchSize * b, |grades|) == |grades| &&
                        j == |CorrectedBatchTrace(|BatchAt(grades, b)|, BatchSize * b, Committed, statement(BatchAt(grades, b)))| - 1
  {
    var start := BatchSize * b;
    var batch := BatchAt(grades, b);
    var bt := CorrectedBatchTrace(|batch|, start, Committed, statement(batch));
    var t := CorrectedTraceFrom(grades, outcomes, statement, b);
    CorrectedStep(grades, outcomes, statement, b);
    assert t[j] == bt[j];
    CorrectedBatchSend(|batch|, start, Committed, statement(batch), j);
  }

  /** The last send of the last batch, when that batch commits: every batch from `b`
      on commits, once, before it. */
  lemma SendLastInBatch(grades: seq<StudentGrade>, outcomes: seq<TxOutcome>, statement: seq<StudentGrade> -> Effect, b: nat, j: nat)
    requires Executes(statement) && BatchSize * b < |grades| && BatchEnd(BatchSize * b, |grades|) == |grades|
    requires OutcomeOf(outcomes, b) == Committed
    requires j == |CorrectedBatchTrace(|BatchAt(grades, b)|, BatchSize * b, Committed, statement(BatchAt(grades, b)))| - 1
    ensures var t := CorrectedTraceFrom(grades, outcomes, statement, b);
      CommitsFrom(grades, outcomes, b) &&
      Commits(t[..j]) == |BatchesFrom(grades, BatchSize * b)| && Commits(t) == |BatchesFrom(grades, BatchSize * b)|
  {
    var start := BatchSize * b;
    var batch := BatchAt(grades, b);
    var bt := CorrectedBatchTrace(|batch|, start, Committed, statement(batch));
    CorrectedStep(grades, outcomes, statement, b);
    LastBatchFacts(grades, outcomes, statement, b);
    assert CorrectedTraceFrom(grades, outcomes, statement, b) == bt;
    CorrectedBatchCommits(|batch|, start, statement(batch), j);
  }

  /** The count `n` sent inside a committed batch `b`: that batch is the last, and
      every commit comes before it. */
  lemma FinalInBatch(grades: seq<StudentGrade>, outcomes: seq<TxOutcome>, statement: seq<StudentGrade> -> Effect, b: nat, j: nat)
    requires Executes(statement) && BatchSize * b < |grades| && OutcomeOf(outcomes, b) == Committed
    requires j < |CorrectedTraceFrom(grades, outcomes, statement, b)|
    requires CorrectedTraceFrom(grades, outcomes, statement, b)[j] == Send(|grades|)
    requires j < |CorrectedBatchTrace(|BatchAt(grades, b)|, BatchSize * b, Committed, statement(BatchAt(grades, b)))|
    ensures var t := CorrectedTraceFrom(grades, outcomes, statement, b);
      CommitsFrom(grades, outcomes, b) &&
      Commits(t[..j]) == |BatchesFrom(grades, BatchSize * b)| && Commits(t) == |BatchesFrom(grades, BatchSize * b)|
  {
    SendInBatch(grades, outcomes, statement, b, j);
    SendLastInBatch(grades, outcomes, statement, b, j);
  }

  /** A send inside a failed batch `b` of the corrected loop: the batch is the
      run's last and sends only -1. */
  lemma SendInFailed(grades: seq<StudentGrade>, outcomes: seq<TxOutcome>, statement: seq<StudentGrade> -> Effect, b: nat, j: nat)
    requires Executes(statement) && BatchSize * b < |grades| && OutcomeOf(outcomes, b) != Committed
    requires j < |CorrectedTraceFrom(grades, outcomes, statement, b)| && CorrectedTraceFrom(grades, outcomes, statement, b)[j].Send?
    ensures CorrectedTraceFrom(grades, outcomes, statement, b)[j].value == -1
  {
    var batch := BatchAt(grades, b);
    CorrectedStep(grades, outcomes, statement, b);
    CorrectedBatchSend(|batch|, BatchSize * b, OutcomeOf(outcomes, b), statement(batch), j);
  }

  /** Each value the corrected loop from batch `b` sends is -1 or a count from
      `200 b + 1` to `n`. */
  lemma {:induction false} CorrectedSendRange(grades: seq<StudentGrade>, outcomes: seq<TxOutcome>, statement: seq<StudentGrade> -> Effect, b: nat, j: nat)
    requires Executes(statement) && j < |CorrectedTraceFrom(grades, outcomes, statement, b)| && CorrectedTraceFrom(grades, outcomes, statement, b)[j].Send?
    ensures var v := CorrectedTraceFrom(grades, outcomes, statement, b)[j].value;
      v == -1 || BatchSize * b + 1 <= v <= |grades|
    decreases |grades| - BatchSize * b
  {
    assert BatchSize * b < |grades|;
    if OutcomeOf(outcomes, b) != Committed {
      SendInFailed(grades, outcomes, statement, b, j);
    } else {
      var len := CommittedJoin(grades, outcomes, statement, b, j);
      if j < len {
        SendInBatch(grades, outcomes, statement, b, j);
      } else {
        CorrectedSendRange(grades, outcomes, statement, b + 1, j - len);
      }
    }
  }

  /** The count `n` is sent by the corrected loop from batch `b` only once every
      batch from `b` on has committed. */
  lemma {:induction false} CorrectedFinalSend(grades: seq<StudentGrade>, outcomes: seq<TxOutcome>, statement: seq<StudentGrade> -> Effect, b: nat, j: nat)
    requires Executes(statement) && j < |CorrectedTraceFrom(grades, outcomes, statement, b)|
    requires CorrectedTraceFrom(grades, outcomes, statement, b)[j] == Send(|grades|)
    ensures CommitsFrom(grades, outcomes, b)
    decreases |grades| - BatchSize * b
  {
    FinalNotFailed(grades, outcomes, statement, b, j);
    var len := CommittedJoin(grades, outcomes, statement, b, j);
    if j < len {
      FinalInBatch(grades, outcomes, statement, b, j);
    } else {
      CorrectedFinalSend(grades, outcomes, statement, b + 1, j - len);
      NextBatchFacts(grades, outcomes, b);
    }
  }

  /** The count `n` is never sent by a batch that fails. */
  lemma FinalNotFailed(grades: seq<StudentGrade>, outcomes: seq<TxOutcome>, statement: seq<StudentGrade> -> Effect, b: nat, j: nat)
    requires Executes(statement) && j < |CorrectedTraceFrom(grades, outcomes, statement, b)|
    requires CorrectedTraceFrom(grades, outcomes, statement, b)[j] == Send(|grades|)
    ensures BatchSize * b < |grades| && OutcomeOf(outcomes, b) == Committed
  {
    assert BatchSize * b < |grades|;
    if OutcomeOf(outcomes, b) != Committed {
      SendInFailed(grades, outcomes, statement, b, j);
    }
  }

  /** Every commit of the corrected loop from batch `b`, one per batch, comes
      before it sends the count `n`. */
  lemma {:induction false} CorrectedFinalCommits(grades: seq<StudentGrade>, outcomes: seq<TxOutcome>, statement: seq<StudentGrade> -> Effect, b: nat, j: nat)
    requires Executes(statement) && j < |CorrectedTraceFrom(grades, outcomes, statement, b)|
    requires CorrectedTraceFrom(grades, outcomes, statement, b)[j] == Send(|grades|)
    ensures var t := CorrectedTraceFrom(grades, outcomes, statement, b);
      Commits(t[..j]) == |BatchesFrom(grades, BatchSize * b)| && Commits(t) == |BatchesFrom(grades, BatchSize * b)|
    decreases |grades| - BatchSize * b
  {
    FinalNotFailed(grades, outcomes, statement, b, j);
    var len := CommittedJoin(grades, outcomes, statement, b, j);
    if j < len {
      FinalInBatch(grades, outcomes, statement, b, j);
    } else {
      CorrectedFinalCommits(grades, outcomes, statement, b + 1, j - len);
      FinalCommitsStep(grades, outcomes, statement, b, j, len);
    }
  }

  /** The commits of a committed batch and of what follows it add up. */
  lemma FinalCommitsStep(grades: seq<StudentGrade>, outcomes: seq<TxOutcome>, statement: seq<StudentGrade> -> Effect,
                         b: nat, j: nat, len: nat)
    requires Executes(statement) && BatchSize * b < |grades| && OutcomeOf(outcomes, b) == Committed
    requires j < |CorrectedTraceFrom(grades, outcomes, statement, b)|
    requires len == |CorrectedBatchTrace(|BatchAt(grades, b)|, BatchSize * b, Committed, statement(BatchAt(grades, b)))| <= j
    requires j - len < |CorrectedTraceFrom(grades, outcomes, statement, b + 1)|
    requires Commits(CorrectedTraceFrom(grades, outcomes, statement, b + 1)[..j - len]) == |BatchesFrom(grades, BatchSize * (b + 1))|
    requires Commits(CorrectedTraceFrom(grades, outcomes, statement, b + 1)) == |BatchesFrom(grades, BatchSize * (b + 1))|
    ensures var t := CorrectedTraceFrom(grades, outcomes, statement, b);
      Commits(t[..j]) == |BatchesFrom(grades, BatchSize * b)| && Commits(t) == |BatchesFrom(grades, BatchSize * b)|
  {
    CommittedJoinCommits(grades, outcomes, statement, b, j, len);
    NextBatchFacts(grades, outcomes, b);
  }

  /** The record reads 100 only once a value has come whose progress is 100. */
  lemma RecordHundred(info: GradesHttp.Info, s: seq<int>)
    requires info.totalGrades > 0 && info.progress != 100
    requires GradesHttp.Absorb(info, s).progress == 100
    ensures s != [] && GradesHttp.ProgressFor(s[|s| - 1], info.totalGrades) == 100
  {
  }

  /** Under the corrected order and with the capped progress, a poller that reads
      100 at any point of the run reads it only once every batch has committed:
      the prefix already holds every one of the run's commits, one per batch. */
  lemma CorrectedHundredMeansCommitted(grades: seq<StudentGrade>, outcomes: seq<TxOutcome>,
                                       statement: seq<StudentGrade> -> Effect, id: string, k: nat)
    requires Executes(statement) && |grades| > 0 && k <= |CorrectedTrace(grades, outcomes, statement)|
    ensures var t := CorrectedTrace(grades, outcomes, statement);
      RecordAfter(GradesHttp.Info(id, 0, |grades|, 0), t, k).progress == 100 ==>
        AllCommit(grades, outcomes) && Commits(t[..k]) == |Batches(grades)| && Commits(t) == |Batches(grades)|
  {
    var t := CorrectedTrace(grades, outcomes, statement);
    var info := GradesHttp.Info(id, 0, |grades|, 0);
    var p := t[..k];
    if RecordAfter(info, t, k).progress == 100 {
      RecordHundred(info, Sent(p));
      var v := Sent(p)[|Sent(p)| - 1];
      var j := SentLastAt(p);
      assert t[j] == p[j];
      CorrectedSendRange(grades, outcomes, statement, 0, j);
      GradesHttp.ProgressForBounds(v, |grades|);
      assert v == |grades|;
      CorrectedFinalSend(grades, outcomes, statement, 0, j);
      CorrectedFinalCommits(grades, outcomes, statement, 0, j);
      CommitsPrefix(t, j, k);
      assert t[..j] == p[..j];
    }
  }

  /** What a committed corrected batch sends, and what a failed one sends. */
  lemma CorrectedBatchSent(k: nat, start: nat, outcome: TxOutcome, exec: Effect)
    requires exec.Exec?
    ensures outcome == Committed ==>
      Sent(CorrectedBatchTrace(k, start, outcome, exec)) == Range(start + 1, start + k + 1)
    ensures outcome != Committed ==> Sent(CorrectedBatchTrace(k, start, outcome, exec)) == [-1]
  {
    SingleEffects(BeginTx);
    SingleEffects(exec);
    if outcome == Committed {
      CommittedBatchSent(k, start, exec);
    } else {
      FailedBatchSent(k, start, outcome, exec);
    }
  }

  lemma CommittedBatchSent(k: nat, start: nat, exec: Effect)
    requires exec.Exec? && Sent([BeginTx]) == [] && Sent([exec]) == []
    ensures Sent(CorrectedBatchTrace(k, start, Committed, exec)) == Range(start + 1, start + k + 1)
  {
    SingleEffects(Commit);
    assert CorrectedBatchTrace(k, start, Committed, exec) == [BeginTx] + [exec] + [Commit] + Sends(start, k);
    SentAppend([BeginTx] + [exec] + [Commit], Sends(start, k));
    SentAppend([BeginTx] + [exec], [Commit]);
    SentAppend([BeginTx], [exec]);
    SendsEffects(start, k);
  }

  lemma FailedBatchSent(k: nat, start: nat, outcome: TxOutcome, exec: Effect)
    requires exec.Exec? && outcome != Committed && Sent([BeginTx]) == [] && Sent([exec]) == []
    ensures Sent(CorrectedBatchTrace(k, start, outcome, exec)) == [-1]
  {
    var bt := CorrectedBatchTrace(k, start, outcome, exec);
    SingleEffects(Send(-1));
    match outcome {
      case BeginFails =>
        assert bt == [BeginTx] + [Send(-1)];
        SentAppend([BeginTx], [Send(-1)]);
      case ExecFails =>
        SingleEffects(Rollback);
        assert bt == [BeginTx] + [exec] + [Rollback] + [Send(-1)];
        SentAppend([BeginTx] + [exec] + [Rollback], [Send(-1)]);
        SentAppend([BeginTx] + [exec], [Rollback]);
        SentAppend([BeginTx], [exec]);
      case CommitFails =>
        SingleEffects(Commit);
        assert bt == [BeginTx] + [exec] + [Commit] + [Send(-1)];
        SentAppend([BeginTx] + [exec] + [Commit], [Send(-1)]);
        SentAppend([BeginTx] + [exec], [Commit]);
        SentAppend([BeginTx], [exec]);
    }
  }

  /** The first 203 effects of the corrected loop over 201 grades whose first batch
      commits: that batch's trace, which sends the counts 1 to 200. */
  lemma FirstBatchOf201(grades: seq<StudentGrade>, outcomes: seq<TxOutcome>, statement: seq<StudentGrade> -> Effect)
    requires Executes(statement) && |grades| == 201 && |outcomes| > 0 && outcomes[0] == Committed
    ensures var t := CorrectedTraceFrom(grades, outcomes, statement, 0);
      |t| >= 203 && Sent(t[..203]) != [] && Sent(t[..203])[|Sent(t[..203])| - 1] == 200
  {
    CorrectedStep(grades, outcomes, statement, 0);
    var batch := BatchAt(grades, 0);
    assert |batch| == 200;
    var bt := CorrectedBatchTrace(200, 0, Committed, statement(batch));
    var t := CorrectedTraceFrom(grades, outcomes, statement, 0);
    assert t == bt + CorrectedTraceFrom(grades, outcomes, statement, 1);
    assert t[..203] == bt;
    CorrectedBatchSent(200, 0, Committed, statement(batch));
    assert Sent(t[..203]) == Range(1, 201);
  }

  /** The reordering alone is not enough: with line 119's percentage, 201 grades
      whose second batch fails read 100 once the first batch has committed and sent
      its 200 counts. */
  lemma ReorderAloneInsufficient(grades: seq<StudentGrade>, statement: seq<StudentGrade> -> Effect, id: string)
    requires Executes(statement) && |grades| == 201
    ensures var t := CorrectedTrace(grades, [Committed, ExecFails], statement);
      |t| >= 203 && RecordAfterAsWritten(GradesHttp.Info(id, 0, 201, 0), t, 203).progress == 100 &&
      !AllCommit(grades, [Committed, ExecFails])
  {
    var outcomes := [Committed, ExecFails];
    FirstBatchOf201(grades, outcomes, statement);
    GradesHttp.PercentHundredEarly(201);
    assert outcomes[1] == ExecFails && BatchSize * 1 < |grades|;
  }

  // ---------------------------------------------------------------------------
  // The corrected order ends where the source does

  lemma LastOfJoin(a: seq<int>, b: seq<int>)
    requires b != []
    ensures (a + b)[|a + b| - 1] == b[|b| - 1]
  {
  }

  /** The values the corrected loop from batch `b` sends end with the number of
      grades when every batch from `b` on commits, and with -1 otherwise. */
  lemma {:induction false} CorrectedLastSent(grades: seq<StudentGrade>, outcomes: seq<TxOutcome>, statement: seq<StudentGrade> -> Effect, b: nat)
    requires Executes(statement) && BatchSize * b < |grades|
    ensures var s := Sent(CorrectedTraceFrom(grades, outcomes, statement, b));
      s != [] && s[|s| - 1] == (if CommitsFrom(grades, outcomes, b) then |grades| else -1)
    decreases |grades| - BatchSize * b
  {
    if OutcomeOf(outcomes, b) != Committed {
      FailedLastSent(grades, outcomes, statement, b);
    } else if BatchEnd(BatchSize * b, |grades|) == |grades| {
      LastCommittedSent(grades, outcomes, statement, b);
    } else {
      assert BatchSize * (b + 1) == BatchSize * b + BatchSize;
      CorrectedLastSent(grades, outcomes, statement, b + 1);
      CommittedMoreSent(grades, outcomes, statement, b);
    }
  }

  /** A failed batch sends -1 last, and not every batch commits. */
  lemma FailedLastSent(grades: seq<StudentGrade>, outcomes: seq<TxOutcome>, statement: seq<StudentGrade> -> Effect, b: nat)
    requires Executes(statement) && BatchSize * b < |grades| && OutcomeOf(outcomes, b) != Committed
    ensures var s := Sent(CorrectedTraceFrom(grades, outcomes, statement, b));
      s == [-1] && !CommitsFrom(grades, outcomes, b)
  {
    var batch := BatchAt(grades, b);
    CorrectedStep(grades, outcomes, statement, b);
    CorrectedBatchSent(|batch|, BatchSize * b, OutcomeOf(outcomes, b), statement(batch));
    FailedBatchFacts(grades, outcomes, b);
  }

  /** The last batch, committed, sends the counts up to `n`. */
  lemma LastCommittedSent(grades: seq<StudentGrade>, outcomes: seq<TxOutcome>, statement: seq<StudentGrade> -> Effect, b: nat)
    requires Executes(statement) && BatchSize * b < |grades| && BatchEnd(BatchSize * b, |grades|) == |grades|
    requires OutcomeOf(outcomes, b) == Committed
    ensures var s := Sent(CorrectedTraceFrom(grades, outcomes, statement, b));
      s != [] && s[|s| - 1] == |grades| && CommitsFrom(grades, outcomes, b)
  {
    var start := BatchSize * b;
    var batch := BatchAt(grades, b);
    var bt := CorrectedBatchTrace(|batch|, start, Committed, statement(batch));
    CorrectedStep(grades, outcomes, statement, b);
    LastBatchFacts(grades, outcomes, statement, b);
    assert CorrectedTraceFrom(grades, outcomes, statement, b) == bt + [];
    assert bt + [] == bt;
    CorrectedBatchSent(|batch|, start, Committed, statement(batch));
  }

  /** A committed batch with more to follow: the values end as the rest's do. */
  lemma CommittedMoreSent(grades: seq<StudentGrade>, outcomes: seq<TxOutcome>, statement: seq<StudentGrade> -> Effect, b: nat)
    requires Executes(statement) && BatchSize * b < |grades| && BatchEnd(BatchSize * b, |grades|) < |grades|
    requires OutcomeOf(outcomes, b) == Committed
    requires var s := Sent(CorrectedTraceFrom(grades, outcomes, statement, b + 1));
      s != [] && s[|s| - 1] == (if CommitsFrom(grades, outcomes, b + 1) then |grades| else -1)
    ensures var s := Sent(CorrectedTraceFrom(grades, outcomes, statement, b));
      s != [] && s[|s| - 1] == (if CommitsFrom(grades, outcomes, b) then |grades| else -1)
  {
    var batch := BatchAt(grades, b);
    var bt := CorrectedBatchTrace(|batch|, BatchSize * b, Committed, statement(batch));
    var rest := CorrectedTraceFrom(grades, outcomes, statement, b + 1);
    CorrectedStep(grades, outcomes, statement, b);
    SentAppend(bt, rest);
    NextBatchFacts(grades, outcomes, b);
    LastOfJoin(Sent(bt), Sent(rest));
  }

  /** Two value sequences ending alike leave the same record. */
  lemma AbsorbSameLast(info: GradesHttp.Info, s: seq<int>, u: seq<int>)
    requires info.totalGrades > 0 && s != [] && u != [] && s[|s| - 1] == u[|u| - 1]
    ensures GradesHttp.Absorb(info, s) == GradesHttp.Absorb(info, u)
  {
  }

  /** Moving the counts after the commit changes only what a poller sees on the way:
      the record the handler ends with is the one the source's order leaves. */
  lemma CorrectedSameEnd(grades: seq<StudentGrade>, outcomes: seq<TxOutcome>, info: GradesHttp.Info)
    requires info.totalGrades == |grades|
    ensures GradesHttp.Absorb(info, Sent(CorrectedTrace(grades, outcomes, Statement)))
         == GradesHttp.Absorb(info, Sent(Trace(grades, outcomes)))
  {
    if |grades| == 0 {
      GradesHttp.NoGradesNothingSent(grades, outcomes);
    } else {
      SameLastSent(grades, outcomes);
      AbsorbSameLast(info, Sent(CorrectedTrace(grades, outcomes, Statement)), Sent(Trace(grades, outcomes)));
    }
  }

  /** Both orders send a last value, and the same one. */
  lemma SameLastSent(grades: seq<StudentGrade>, outcomes: seq<TxOutcome>)
    requires |grades| > 0
    ensures var c := Sent(CorrectedTrace(grades, outcomes, Statement)); var s := Sent(Trace(grades, outcomes));
      c != [] && s != [] && c[|c| - 1] == s[|s| - 1]
  {
    CorrectedEndsAs(grades, outcomes, Statement);
    SourceEndsAs(grades, outcomes);
  }

  /** The corrected run's last value is `n` when every batch commits, -1 otherwise. */
  lemma CorrectedEndsAs(grades: seq<StudentGrade>, outcomes: seq<TxOutcome>, statement: seq<StudentGrade> -> Effect)
    requires Executes(statement) && |grades| > 0
    ensures var c := Sent(CorrectedTrace(grades, outcomes, statement));
      c != [] && c[|c| - 1] == (if AllCommit(grades, outcomes) then |grades| else -1)
  {
    CorrectedLastSent(grades, outcomes, statement, 0);
    CommitsFromStart(grades, outcomes);
  }

  /** The source's run ends the same way. */
  lemma SourceEndsAs(grades: seq<StudentGrade>, outcomes: seq<TxOutcome>)
    requires |grades| > 0
    ensures var s := Sent(Trace(grades, outcomes));
      s != [] && s[|s| - 1] == (if AllCommit(grades, outcomes) then |grades| else -1)
  {
    GradesHttp.SentValues(grades, outcomes);
    if AllCommit(grades, outcomes) {
      var s := Sent(Trace(grades, outcomes));
      assert s[|s| - 1] == |grades|;
    }
  }

  lemma CommitsFromStart(grades: seq<StudentGrade>, outcomes: seq<TxOutcome>)
    ensures CommitsFrom(grades, outcomes, 0) == AllCommit(grades, outcomes)
  {
  }
}
