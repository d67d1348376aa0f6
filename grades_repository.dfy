/** `InsertGrades` of backend/repository/grades.go with the database and the progress
    channel replaced by a returned trace: one transaction per batch, a progress value
    sent per grade, and a failing database call sends -1 and stops. */
module GradesRepository {
  import opened Models
  import opened GradesQuery

  /** What the database does with one batch's transaction. */
  datatype TxOutcome = Committed | BeginFails | ExecFails | CommitFails

  /** The observable steps of `InsertGrades`: calls on the pool or the transaction,
      and values sent on the progress channel. */
  datatype Effect = BeginTx | Send(value: int) | Exec(query: string, args: seq<Arg>) | Rollback | Commit

  // ---------------------------------------------------------------------------
  // The trace

  /** The progress values sent for `k` grades of a batch starting at `start`. */
  function Sends(start: nat, k: nat): seq<Effect>
  {
    seq(k, i requires 0 <= i < k => Send(start + i + 1))
  }

  /** The database's outcome for batch `b`; batches past the end of `outcomes` commit. */
  function OutcomeOf(outcomes: seq<TxOutcome>, b: nat): TxOutcome
  {
    if b < |outcomes| then outcomes[b] else Committed
  }

  /** The upsert a batch executes. */
  function Statement(batch: seq<StudentGrade>): Effect
  {
    Exec(BatchQuery(|batch|), Args(batch))
  }

  /** One turn of the `batchStart` loop for a batch of `k` grades starting at grade
      `start` that executes `exec`: begin, build the query while sending one progress
      value per grade, execute, commit; a failing call sends -1. */
  function BatchTrace(k: nat, start: nat, outcome: TxOutcome, exec: Effect): seq<Effect>
  {
    if outcome == BeginFails then [BeginTx, Send(-1)]
    else [BeginTx] + Sends(start, k) + [exec] + Ending(outcome)
  }

  /** A batch begins its transaction first, and ends with -1 exactly when it does
      not commit. */
  lemma BatchTraceEnds(k: nat, start: nat, outcome: TxOutcome, exec: Effect)
    requires exec.Exec?
    ensures var r := BatchTrace(k, start, outcome, exec);
      |r| >= 2 && r[0] == BeginTx && (r[|r| - 1] == Send(-1) <==> outcome != Committed)
  {
  }

  /** What follows a batch's `Exec`. */
  function Ending(outcome: TxOutcome): seq<Effect>
  {
    match outcome
    case ExecFails => [Rollback, Send(-1)]
    case CommitFails => [Commit, Send(-1)]
    case _ => [Commit]
  }

  /** The batch of `grades` starting at grade `BatchSize * b`. */
  function BatchAt(grades: seq<StudentGrade>, b: nat): seq<StudentGrade>
    requires BatchSize * b < |grades|
  {
    grades[BatchSize * b..BatchEnd(BatchSize * b, |grades|)]
  }

  /** The loop from batch `b` on, each batch executing `statement` of itself; a
      failed batch is the last one. */
  function TraceFrom(grades: seq<StudentGrade>, outcomes: seq<TxOutcome>,
                     statement: seq<StudentGrade> -> Effect, b: nat): seq<Effect>
    decreases |grades| - BatchSize * b
  {
    if BatchSize * b >= |grades| then []
    else
      var batch := BatchAt(grades, b);
      var bt := BatchTrace(|batch|, BatchSize * b, OutcomeOf(outcomes, b), statement(batch));
      if OutcomeOf(outcomes, b) == Committed then bt + TraceFrom(grades, outcomes, statement, b + 1) else bt
  }

  /** Everything `InsertGrades` does, given the database's outcome for each batch. */
  function Trace(grades: seq<StudentGrade>, outcomes: seq<TxOutcome>): seq<Effect>
  {
    TraceFrom(grades, outcomes, Statement, 0)
  }

  /** A run is empty exactly when there are no grades; otherwise it starts by
      beginning the first batch's transaction. */
  lemma TraceStarts(grades: seq<StudentGrade>, outcomes: seq<TxOutcome>)
    ensures Trace(grades, outcomes) == [] <==> |grades| == 0
    ensures Trace(grades, outcomes) != [] ==> Trace(grades, outcomes)[0] == BeginTx
  {
    TraceFromStarts(grades, outcomes, Statement);
  }

  lemma TraceFromStarts(grades: seq<StudentGrade>, outcomes: seq<TxOutcome>, statement: seq<StudentGrade> -> Effect)
    ensures TraceFrom(grades, outcomes, statement, 0) == [] <==> |grades| == 0
    ensures TraceFrom(grades, outcomes, statement, 0) != [] ==> TraceFrom(grades, outcomes, statement, 0)[0] == BeginTx
  {
    if |grades| > 0 {
      var batch := BatchAt(grades, 0);
      var bt := BatchTrace(|batch|, 0, OutcomeOf(outcomes, 0), statement(batch));
      assert TraceFrom(grades, outcomes, statement, 0)[0] == bt[0];
    }
  }

  /** The values sent on the progress channel, in order. */
  function Sent(trace: seq<Effect>): seq<int>
  {
    if |trace| == 0 then []
    else (if trace[0].Send? then [trace[0].value] else []) + Sent(trace[1..])
  }

  /** The number of transactions begun. */
  function Begins(trace: seq<Effect>): nat
  {
    if |trace| == 0 then 0 else (if trace[0].BeginTx? then 1 else 0) + Begins(trace[1..])
  }

  /** The statements executed, in order. */
  function Executed(trace: seq<Effect>): seq<Effect>
  {
    if |trace| == 0 then []
    else (if trace[0].Exec? then [trace[0]] else []) + Executed(trace[1..])
  }

  /** One turn of the inner loop extends the query by the next placeholder tuple. */
  lemma QueryStep(query: string, i: nat)
    requires query == InsertPrefix + ValuesList(i)
    ensures query + (if i > 0 then ", " else "") + PlaceholderTuple(4 * i) == InsertPrefix + ValuesList(i + 1)
  {
    ValuesListStep(i);
  }

  lemma ValuesListStep(i: nat)
    ensures InsertPrefix + ValuesList(i) + (if i > 0 then ", " else "") + PlaceholderTuple(4 * i)
         == InsertPrefix + ValuesList(i + 1)
  {
    if i > 0 {
      assert ValuesList(i + 1) == ValuesList(i) + ", " + PlaceholderTuple(4 * i);
      Assoc(InsertPrefix, ValuesList(i), ", ");
      Assoc(InsertPrefix, ValuesList(i) + ", ", PlaceholderTuple(4 * i));
    } else {
      assert ValuesList(1) == PlaceholderTuple(0);
      assert InsertPrefix + ValuesList(0) == InsertPrefix;
    }
  }

  lemma ArgsStep(batch: seq<StudentGrade>, i: nat)
    requires i < |batch|
    ensures Args(batch[..i]) + Row(batch[i]) == Args(batch[..i + 1])
  {
    assert batch[..i + 1][..i] == batch[..i];
  }

  lemma SendsStep(start: nat, i: nat)
    ensures Sends(start, i) + [Send(start + i + 1)] == Sends(start, i + 1)
  {
  }

  /** The inner loop of `InsertGrades`: the batch's query, its arguments and the
      progress values it sends, one per grade. */
  method BuildBatch(batch: seq<StudentGrade>, batchStart: nat)
    returns (query: string, args: seq<Arg>, sends: seq<Effect>)
    ensures query == BatchQuery(|batch|)
    ensures args == Args(batch)
    ensures sends == Sends(batchStart, |batch|)
  {
    query := InsertPrefix;
    args := [];
    sends := [];
    for i := 0 to |batch|
      invariant query == InsertPrefix + ValuesList(i)
      invariant args == Args(batch[..i])
      invariant sends == Sends(batchStart, i)
    {
      query, args, sends := AddGrade(query, args, sends, batch, batchStart, i);
    }
    query := query + UpsertClause;
    assert batch[..|batch|] == batch;
  }

  /** One turn of the inner loop: grade `i` gets its placeholder tuple, its four
      arguments and its progress value. */
  method AddGrade(query: string, args: seq<Arg>, sends: seq<Effect>,
                  batch: seq<StudentGrade>, batchStart: nat, i: nat)
    returns (query': string, args': seq<Arg>, sends': seq<Effect>)
    requires i < |batch|
    requires query == InsertPrefix + ValuesList(i)
    requires args == Args(batch[..i])
    requires sends == Sends(batchStart, i)
    ensures query' == InsertPrefix + ValuesList(i + 1)
    ensures args' == Args(batch[..i + 1])
    ensures sends' == Sends(batchStart, i + 1)
  {
    QueryStep(query, i);
    var separator := if i > 0 then ", " else "";
    var argIdx := i * 4;
    query' := query + separator + PlaceholderTuple(argIdx);
    ArgsStep(batch, i);
    args' := args + Row(batch[i]);
    SendsStep(batchStart, i);
    sends' := sends + [Send(batchStart + i + 1)];
  }

  /** One turn of the `batchStart` loop of `InsertGrades`: what it does to the
      database and the progress channel, given the database's outcome. */
  method InsertBatch(batch: seq<StudentGrade>, batchStart: nat, outcome: TxOutcome)
    returns (effects: seq<Effect>)
    ensures effects == BatchTrace(|batch|, batchStart, outcome, Statement(batch))
  {
    effects := [BeginTx];
    if outcome == BeginFails {
      effects := effects + [Send(-1)];
      return;
    }
    var query, args, sends := BuildBatch(batch, batchStart);
    effects := effects + sends + [Exec(query, args)];
    if outcome == ExecFails {
      effects := effects + [Rollback, Send(-1)];
      return;
    }
    effects := effects + [Commit];
    if outcome == CommitFails {
      effects := effects + [Send(-1)];
      Assoc(effects[..|effects| - 1], [Commit], [Send(-1)]);
      assert effects[..|effects| - 2] + [Commit] == effects[..|effects| - 1];
      return;
    }
  }

  /** One turn of `TraceFrom`, unfolded. */
  lemma TraceFromStep(grades: seq<StudentGrade>, outcomes: seq<TxOutcome>,
                      statement: seq<StudentGrade> -> Effect, b: nat)
    requires BatchSize * b < |grades|
    ensures OutcomeOf(outcomes, b) == Committed ==>
      TraceFrom(grades, outcomes, statement, b)
      == BatchTrace(|BatchAt(grades, b)|, BatchSize * b, Committed, statement(BatchAt(grades, b)))
         + TraceFrom(grades, outcomes, statement, b + 1)
    ensures OutcomeOf(outcomes, b) != Committed ==>
      TraceFrom(grades, outcomes, statement, b)
      == BatchTrace(|BatchAt(grades, b)|, BatchSize * b, OutcomeOf(outcomes, b), statement(BatchAt(grades, b)))
  {
  }

  /** The body of the `batchStart` loop: cut out the batch starting at `batchStart`
      (the `b`-th) and run its transaction. */
  method RunBatch(grades: seq<StudentGrade>, outcomes: seq<TxOutcome>, batchStart: nat, ghost b: nat)
    returns (effects: seq<Effect>, committed: bool)
    requires batchStart == BatchSize * b < |grades|
    ensures committed <==> OutcomeOf(outcomes, b) == Committed
    ensures effects == BatchTrace(|BatchAt(grades, b)|, batchStart, OutcomeOf(outcomes, b), Statement(BatchAt(grades, b)))
  {
    var batchEnd := batchStart + BatchSize;
    if batchEnd > |grades| {
      batchEnd := |grades|;
    }
    var batch := grades[batchStart..batchEnd];
    var outcome := OutcomeOf(outcomes, batchStart / BatchSize);
    assert batchStart / BatchSize == b;
    assert batch == BatchAt(grades, b);
    effects := InsertBatch(batch, batchStart, outcome);
    committed := outcome == Committed;
  }

  /** What one turn of the `InsertGrades` loop does to the trace built so far. */
  lemma LoopStep(grades: seq<StudentGrade>, outcomes: seq<TxOutcome>,
                 trace: seq<Effect>, effects: seq<Effect>, b: nat)
    requires BatchSize * b < |grades|
    requires trace + TraceFrom(grades, outcomes, Statement, b) == Trace(grades, outcomes)
    requires effects == BatchTrace(|BatchAt(grades, b)|, BatchSize * b, OutcomeOf(outcomes, b), Statement(BatchAt(grades, b)))
    ensures OutcomeOf(outcomes, b) == Committed ==>
      (trace + effects) + TraceFrom(grades, outcomes, Statement, b + 1) == Trace(grades, outcomes)
    ensures OutcomeOf(outcomes, b) != Committed ==> trace + effects == Trace(grades, outcomes)
  {
    TraceFromStep(grades, outcomes, Statement, b);
    Assoc(trace, effects, TraceFrom(grades, outcomes, Statement, b + 1));
  }

  /** `InsertGrades`, returning what it does instead of doing it. */
  method InsertGrades(grades: seq<StudentGrade>, outcomes: seq<TxOutcome>) returns (trace: seq<Effect>)
    ensures trace == Trace(grades, outcomes)
  {
    trace := [];
    var numGrades := |grades|;
    var batchStart := 0;
    ghost var b: nat := 0;
    while batchStart < numGrades
      invariant batchStart == BatchSize * b
      invariant trace + TraceFrom(grades, outcomes, Statement, b) == Trace(grades, outcomes)
      decreases numGrades - batchStart
    {
      var effects, committed := RunBatch(grades, outcomes, batchStart, b);
      LoopStep(grades, outcomes, trace, effects, b);
      trace := trace + effects;
      if !committed {
        return;
      }
      batchStart := batchStart + BatchSize;
      b := b + 1;
    }
    assert TraceFrom(grades, outcomes, Statement, b) == [];
    assert trace + [] == trace;
  }

  // ---------------------------------------------------------------------------
  // What the trace sends, begins and executes

  lemma {:induction false} SentAppend(a: seq<Effect>, b: seq<Effect>)
    ensures Sent(a + b) == Sent(a) + Sent(b)
    decreases |a|
  {
    if |a| == 0 {
      assert a + b == b;
    } else {
      assert (a + b)[1..] == a[1..] + b;
      SentAppend(a[1..], b);
      Assoc(if a[0].Send? then [a[0].value] else [], Sent(a[1..]), Sent(b));
    }
  }

  lemma {:induction false} BeginsAppend(a: seq<Effect>, b: seq<Effect>)
    ensures Begins(a + b) == Begins(a) + Begins(b)
    decreases |a|
  {
    if |a| == 0 {
      assert a + b == b;
    } else {
      assert (a + b)[1..] == a[1..] + b;
      BeginsAppend(a[1..], b);
    }
  }

  lemma {:induction false} ExecutedAppend(a: seq<Effect>, b: seq<Effect>)
    ensures Executed(a + b) == Executed(a) + Executed(b)
    decreases |a|
  {
    if |a| == 0 {
      assert a + b == b;
    } else {
      assert (a + b)[1..] == a[1..] + b;
      ExecutedAppend(a[1..], b);
      Assoc(if a[0].Exec? then [a[0]] else [], Executed(a[1..]), Executed(b));
    }
  }

  lemma SingleEffects(e: Effect)
    ensures Sent([e]) == if e.Send? then [e.value] else []
    ensures Begins([e]) == if e.BeginTx? then 1 else 0
    ensures Executed([e]) == if e.Exec? then [e] else []
  {
    assert [e][1..] == [];
  }

  /** The per-grade progress values of a batch are `start + 1` to `start + k`; they
      begin no transaction and execute nothing. */
  lemma {:induction false} SendsEffects(start: nat, k: nat)
    ensures Sent(Sends(start, k)) == Range(start + 1, start + k + 1)
    ensures Begins(Sends(start, k)) == 0
    ensures Executed(Sends(start, k)) == []
    decreases k
  {
    if k > 0 {
      SendsEffects(start, k - 1);
      SendsStep(start, k - 1);
      SingleEffects(Send(start + k));
      SentAppend(Sends(start, k - 1), [Send(start + k)]);
      BeginsAppend(Sends(start, k - 1), [Send(start + k)]);
      ExecutedAppend(Sends(start, k - 1), [Send(start + k)]);
      RangeSplit(start + 1, start + k, start + k + 1);
    } else {
      assert Sends(start, 0) == [];
    }
  }

  lemma EndingEffects(outcome: TxOutcome)
    requires outcome != BeginFails
    ensures Sent(Ending(outcome)) == if outcome == Committed then [] else [-1]
    ensures Begins(Ending(outcome)) == 0
    ensures Executed(Ending(outcome)) == []
  {
    SingleEffects(Commit);
    SingleEffects(Rollback);
    SingleEffects(Send(-1));
    if outcome == ExecFails {
      assert Ending(outcome) == [Rollback] + [Send(-1)];
      SentAppend([Rollback], [Send(-1)]);
      BeginsAppend([Rollback], [Send(-1)]);
      ExecutedAppend([Rollback], [Send(-1)]);
    } else if outcome == CommitFails {
      assert Ending(outcome) == [Commit] + [Send(-1)];
      SentAppend([Commit], [Send(-1)]);
      BeginsAppend([Commit], [Send(-1)]);
      ExecutedAppend([Commit], [Send(-1)]);
    }
  }

  /** One batch of `k` grades begins one transaction; unless `Begin` fails it sends
      the progress of each of its grades and executes its statement; it sends -1
      exactly when a call fails. */
  lemma BatchEffects(k: nat, start: nat, outcome: TxOutcome, exec: Effect)
    requires exec.Exec?
    ensures outcome == Committed ==> Sent(BatchTrace(k, start, outcome, exec)) == Range(start + 1, start + k + 1)
    ensures outcome == BeginFails ==> Sent(BatchTrace(k, start, outcome, exec)) == [-1]
    ensures outcome == ExecFails || outcome == CommitFails ==>
      Sent(BatchTrace(k, start, outcome, exec)) == Range(start + 1, start + k + 1) + [-1]
    ensures Begins(BatchTrace(k, start, outcome, exec)) == 1
    ensures Executed(BatchTrace(k, start, outcome, exec)) == if outcome == BeginFails then [] else [exec]
  {
    SingleEffects(BeginTx);
    if outcome != BeginFails {
      var sends := Sends(start, k);
      var tail := Ending(outcome);
      SendsEffects(start, k);
      EndingEffects(outcome);
      SingleEffects(exec);
      SentAppend([BeginTx] + sends + [exec], tail);
      SentAppend([BeginTx] + sends, [exec]);
      SentAppend([BeginTx], sends);
      BeginsAppend([BeginTx] + sends + [exec], tail);
      BeginsAppend([BeginTx] + sends, [exec]);
      BeginsAppend([BeginTx], sends);
      ExecutedAppend([BeginTx] + sends + [exec], tail);
      ExecutedAppend([BeginTx] + sends, [exec]);
      ExecutedAppend([BeginTx], sends);
      assert [] + Range(start + 1, start + k + 1) + [] == Range(start + 1, start + k + 1);
      assert Range(start + 1, start + k + 1) + [] == Range(start + 1, start + k + 1);
    } else {
      assert BatchTrace(k, start, outcome, exec) == [BeginTx] + [Send(-1)];
      SingleEffects(Send(-1));
      SentAppend([BeginTx], [Send(-1)]);
      BeginsAppend([BeginTx], [Send(-1)]);
      ExecutedAppend([BeginTx], [Send(-1)]);
    }
  }

  /** The database commits every batch the loop reaches. */
  predicate AllCommit(grades: seq<StudentGrade>, outcomes: seq<TxOutcome>)
  {
    forall b :: 0 <= b < |outcomes| && BatchSize * b < |grades| ==> outcomes[b] == Committed
  }

  /** The statement every executed effect is. */
  ghost predicate Executes(statement: seq<StudentGrade> -> Effect)
  {
    forall batch :: statement(batch).Exec?
  }

  /** A committed batch `b`: its progress values, its transaction and its statement,
      then the rest of the run. */
  lemma CommittedStep(grades: seq<StudentGrade>, outcomes: seq<TxOutcome>,
                      statement: seq<StudentGrade> -> Effect, b: nat)
    requires Executes(statement) && BatchSize * b < |grades| && OutcomeOf(outcomes, b) == Committed
    ensures Sent(TraceFrom(grades, outcomes, statement, b))
         == Range(BatchSize * b + 1, BatchEnd(BatchSize * b, |grades|) + 1) + Sent(TraceFrom(grades, outcomes, statement, b + 1))
    ensures Begins(TraceFrom(grades, outcomes, statement, b)) == 1 + Begins(TraceFrom(grades, outcomes, statement, b + 1))
    ensures Executed(TraceFrom(grades, outcomes, statement, b))
         == [statement(BatchAt(grades, b))] + Executed(TraceFrom(grades, outcomes, statement, b + 1))
  {
    var start := BatchSize * b;
    var batch := BatchAt(grades, b);
    var bt := BatchTrace(|batch|, start, Committed, statement(batch));
    var rest := TraceFrom(grades, outcomes, statement, b + 1);
    TraceFromStep(grades, outcomes, statement, b);
    BatchEffects(|batch|, start, Committed, statement(batch));
    assert |batch| == BatchEnd(start, |grades|) - start;
    SentAppend(bt, rest);
    BeginsAppend(bt, rest);
    ExecutedAppend(bt, rest);
  }

  /** A committed batch followed by a run that sends the rest of the grades. */
  lemma SentSuccessStep(grades: seq<StudentGrade>, outcomes: seq<TxOutcome>,
                        statement: seq<StudentGrade> -> Effect, b: nat, restSent: seq<int>)
    requires Executes(statement) && BatchSize * b < |grades| && OutcomeOf(outcomes, b) == Committed
    requires restSent == Sent(TraceFrom(grades, outcomes, statement, b + 1))
    requires BatchSize * (b + 1) <= |grades| ==> restSent == Range(BatchSize * (b + 1) + 1, |grades| + 1)
    ensures Sent(TraceFrom(grades, outcomes, statement, b)) == Range(BatchSize * b + 1, |grades| + 1)
  {
    var start := BatchSize * b;
    var end := BatchEnd(start, |grades|);
    CommittedStep(grades, outcomes, statement, b);
    if end == |grades| {
      assert TraceFrom(grades, outcomes, statement, b + 1) == [];
    } else {
      assert BatchSize * (b + 1) == end;
    }
    RangeSplit(start + 1, end + 1, |grades| + 1);
  }

  lemma {:induction false} SentFromOnSuccess(grades: seq<StudentGrade>, outcomes: seq<TxOutcome>,
                                             statement: seq<StudentGrade> -> Effect, b: nat)
    requires AllCommit(grades, outcomes) && Executes(statement)
    requires BatchSize * b <= |grades|
    ensures Sent(TraceFrom(grades, outcomes, statement, b)) == Range(BatchSize * b + 1, |grades| + 1)
    decreases |grades| - BatchSize * b
  {
    if BatchSize * b < |grades| {
      var restSent := Sent(TraceFrom(grades, outcomes, statement, b + 1));
      if BatchSize * (b + 1) <= |grades| {
        SentFromOnSuccess(grades, outcomes, statement, b + 1);
      }
      assert OutcomeOf(outcomes, b) == Committed;
      SentSuccessStep(grades, outcomes, statement, b, restSent);
    }
  }

  /** When every batch commits, the channel carries 1, 2, ..., n: one value per grade,
      in order, the last one the number of grades, and never -1. */
  lemma SentOnSuccess(grades: seq<StudentGrade>, outcomes: seq<TxOutcome>)
    requires AllCommit(grades, outcomes)
    ensures Sent(Trace(grades, outcomes)) == Range(1, |grades| + 1)
    ensures -1 !in Sent(Trace(grades, outcomes))
  {
    SentFromOnSuccess(grades, outcomes, Statement, 0);
  }

  /** The statements of a sequence of batches. */
  function Statements(batches: seq<seq<StudentGrade>>, statement: seq<StudentGrade> -> Effect): (r: seq<Effect>)
    ensures |r| == |batches|
    ensures forall j :: 0 <= j < |r| ==> r[j] == statement(batches[j])
  {
    if |batches| == 0 then []
    else [statement(batches[0])] + Statements(batches[1..], statement)
  }

  lemma BatchesFromStep(grades: seq<StudentGrade>, b: nat)
    requires BatchSize * b < |grades|
    ensures BatchesFrom(grades, BatchSize * b) == [BatchAt(grades, b)] + BatchesFrom(grades, BatchSize * (b + 1))
  {
    assert BatchSize * (b + 1) == BatchSize * b + BatchSize;
  }

  lemma {:induction false} ExecutedFromOnSuccess(grades: seq<StudentGrade>, outcomes: seq<TxOutcome>,
                                                 statement: seq<StudentGrade> -> Effect, b: nat)
    requires AllCommit(grades, outcomes) && Executes(statement)
    ensures Executed(TraceFrom(grades, outcomes, statement, b))
         == Statements(BatchesFrom(grades, BatchSize * b), statement)
    decreases |grades| - BatchSize * b
  {
    if BatchSize * b < |grades| {
      assert OutcomeOf(outcomes, b) == Committed;
      CommittedStep(grades, outcomes, statement, b);
      BatchesFromStep(grades, b);
      ExecutedFromOnSuccess(grades, outcomes, statement, b + 1);
      var bs := BatchesFrom(grades, BatchSize * b);
      assert bs[1..] == BatchesFrom(grades, BatchSize * (b + 1));
    }
  }

  /** When every batch commits, the run executes exactly one upsert per batch, in
      order, each with its own batch's query and arguments. */
  lemma ExecutedOnSuccess(grades: seq<StudentGrade>, outcomes: seq<TxOutcome>)
    requires AllCommit(grades, outcomes)
    ensures |Executed(Trace(grades, outcomes))| == |Batches(grades)|
    ensures forall j :: 0 <= j < |Batches(grades)| ==>
      Executed(Trace(grades, outcomes))[j] == Exec(BatchQuery(|Batches(grades)[j]|), Args(Batches(grades)[j]))
  {
    ExecutedFromOnSuccess(grades, outcomes, Statement, 0);
  }

  /** Batch `f` is the first batch the database fails. */
  predicate FirstFailure(grades: seq<StudentGrade>, outcomes: seq<TxOutcome>, f: nat)
  {
    f < |outcomes| && BatchSize * f < |grades| && outcomes[f] != Committed &&
    forall b :: 0 <= b < f ==> outcomes[b] == Committed
  }

  /** The last grade whose progress is sent before a failure in batch `f`: the end of
      the batch, or of the batch before it when `Begin` fails. */
  function ReachedBeforeFailure(grades: seq<StudentGrade>, outcomes: seq<TxOutcome>, f: nat): nat
    requires f < |outcomes|
  {
    if outcomes[f] == BeginFails then BatchSize * f else BatchEnd(BatchSize * f, |grades|)
  }

  /** The failing batch itself. */
  lemma FailingBatch(grades: seq<StudentGrade>, outcomes: seq<TxOutcome>,
                     statement: seq<StudentGrade> -> Effect, f: nat)
    requires FirstFailure(grades, outcomes, f) && Executes(statement)
    ensures BatchSize * f <= ReachedBeforeFailure(grades, outcomes, f)
    ensures Sent(TraceFrom(grades, outcomes, statement, f))
         == Range(BatchSize * f + 1, ReachedBeforeFailure(grades, outcomes, f) + 1) + [-1]
    ensures Begins(TraceFrom(grades, outcomes, statement, f)) == 1
  {
    var start := BatchSize * f;
    var batch := BatchAt(grades, f);
    var outcome := outcomes[f];
    TraceFromStep(grades, outcomes, statement, f);
    BatchEffects(|batch|, start, outcome, statement(batch));
    assert |batch| == BatchEnd(start, |grades|) - start;
    if outcome == BeginFails {
      assert Range(start + 1, start + 1) + [-1] == [-1];
    }
  }

  /** A committed batch `b` before the failing batch `f`, joined to what follows it. */
  lemma CommittedBeforeFailure(grades: seq<StudentGrade>, outcomes: seq<TxOutcome>,
                               statement: seq<StudentGrade> -> Effect, f: nat, b: nat)
    requires FirstFailure(grades, outcomes, f) && Executes(statement)
    requires b < f
    requires BatchSize * (b + 1) <= ReachedBeforeFailure(grades, outcomes, f)
    requires Sent(TraceFrom(grades, outcomes, statement, b + 1))
          == Range(BatchSize * (b + 1) + 1, ReachedBeforeFailure(grades, outcomes, f) + 1) + [-1]
    requires Begins(TraceFrom(grades, outcomes, statement, b + 1)) == f - b
    ensures BatchSize * b <= ReachedBeforeFailure(grades, outcomes, f)
    ensures Sent(TraceFrom(grades, outcomes, statement, b))
         == Range(BatchSize * b + 1, ReachedBeforeFailure(grades, outcomes, f) + 1) + [-1]
    ensures Begins(TraceFrom(grades, outcomes, statement, b)) == f - b + 1
  {
    var start := BatchSize * b;
    var next := start + BatchSize;
    var reached := ReachedBeforeFailure(grades, outcomes, f);
    assert BatchSize * (b + 1) == next;
    assert BatchSize * f >= next;
    assert OutcomeOf(outcomes, b) == Committed;
    CommittedStep(grades, outcomes, statement, b);
    assert BatchEnd(start, |grades|) == next;
    RangeSplit(start + 1, next + 1, reached + 1);
    Assoc(Range(start + 1, next + 1), Range(next + 1, reached + 1), [-1]);
  }

  lemma {:induction false} FromOnFailure(grades: seq<StudentGrade>, outcomes: seq<TxOutcome>,
                                         statement: seq<StudentGrade> -> Effect, f: nat, b: nat)
    requires FirstFailure(grades, outcomes, f) && Executes(statement)
    requires b <= f
    ensures BatchSize * b <= ReachedBeforeFailure(grades, outcomes, f)
    ensures Sent(TraceFrom(grades, outcomes, statement, b))
         == Range(BatchSize * b + 1, ReachedBeforeFailure(grades, outcomes, f) + 1) + [-1]
    ensures Begins(TraceFrom(grades, outcomes, statement, b)) == f - b + 1
    decreases f - b
  {
    if b == f {
      FailingBatch(grades, outcomes, statement, f);
    } else {
      FromOnFailure(grades, outcomes, statement, f, b + 1);
      var reached := ReachedBeforeFailure(grades, outcomes, f);
      var rest := TraceFrom(grades, outcomes, statement, b + 1);
      assert Sent(rest) == Range(BatchSize * (b + 1) + 1, reached + 1) + [-1];
      assert Begins(rest) == f - b;
      CommittedBeforeFailure(grades, outcomes, statement, f, b);
    }
  }

  /** When batch `f` is the first to fail, the channel carries 1, 2, ... up to the last
      grade reached and then -1, which is the last value sent; exactly `f + 1`
      transactions are begun, so no batch after the failing one is attempted. */
  lemma SentOnFailure(grades: seq<StudentGrade>, outcomes: seq<TxOutcome>, f: nat)
    requires FirstFailure(grades, outcomes, f)
    ensures Sent(Trace(grades, outcomes)) == Range(1, ReachedBeforeFailure(grades, outcomes, f) + 1) + [-1]
    ensures Begins(Trace(grades, outcomes)) == f + 1
  {
    FromOnFailure(grades, outcomes, Statement, f, 0);
  }

  /** Scanning from batch `b`, with every batch before it committed and a failing
      batch ahead, finds the first failure. */
  lemma {:induction false} FirstFailureFrom(grades: seq<StudentGrade>, outcomes: seq<TxOutcome>, b: nat)
    requires b <= |outcomes| && forall c :: 0 <= c < b ==> outcomes[c] == Committed
    requires exists c :: b <= c < |outcomes| && BatchSize * c < |grades| && outcomes[c] != Committed
    ensures exists f :: FirstFailure(grades, outcomes, f)
    decreases |outcomes| - b
  {
    if BatchSize * b < |grades| && outcomes[b] != Committed {
      assert FirstFailure(grades, outcomes, b);
    } else {
      FirstFailureFrom(grades, outcomes, b + 1);
    }
  }

  /** Every run either commits every batch it reaches or has a first failing batch. */
  lemma FailureOrAllCommit(grades: seq<StudentGrade>, outcomes: seq<TxOutcome>)
    ensures AllCommit(grades, outcomes) || exists f :: FirstFailure(grades, outcomes, f)
  {
    if !AllCommit(grades, outcomes) {
      FirstFailureFrom(grades, outcomes, 0);
    }
  }
}
