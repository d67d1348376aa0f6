/** The batches and the upsert text of `InsertGrades` in backend/repository/grades.go:
    the grades are cut into batches of 200, and each batch becomes one upsert whose
    `VALUES` list holds one numbered placeholder tuple per grade, bound to the batch's
    arguments in order. */
module GradesQuery {
  import opened Models
  import Decimal

  const BatchSize: nat := 200

  const InsertPrefix: string := "INSERT INTO student_grades (id, subject, grade, student_name) VALUES "

  /** The `ON CONFLICT` clause, byte for byte as the source's raw string literal. */
  const UpsertClause: string :=
    "\n                ON CONFLICT (id) DO UPDATE\n                SET subject = EXCLUDED.subject,\n"
    + "                    grade = EXCLUDED.grade,\n                    student_name = EXCLUDED.student_name\n            "

  /** A query argument (Go passes them as `interface{}`). */
  datatype Arg = Text(text: string) | Number(number: int)

  /** `lo, lo + 1, ..., hi - 1`. */
  function Range(lo: nat, hi: nat): (r: seq<int>)
    requires lo <= hi
    ensures |r| == hi - lo && forall i :: 0 <= i < |r| ==> r[i] == lo + i
  {
    seq(hi - lo, i requires 0 <= i < hi - lo => lo + i)
  }

  lemma RangeSplit(lo: nat, mid: nat, hi: nat)
    requires lo <= mid <= hi
    ensures Range(lo, mid) + Range(mid, hi) == Range(lo, hi)
  {
  }

  lemma Assoc<T>(a: seq<T>, b: seq<T>, c: seq<T>)
    ensures a + b + c == a + (b + c)
  {
  }

  // ---------------------------------------------------------------------------
  // Batches

  /** `batchEnd`: the batch starting at `start` ends 200 grades later or at the end. */
  function BatchEnd(start: nat, n: nat): nat
  {
    if start + BatchSize > n then n else start + BatchSize
  }

  /** The batches the `batchStart` loop visits from `start` on. */
  function BatchesFrom(grades: seq<StudentGrade>, start: nat): seq<seq<StudentGrade>>
    decreases |grades| - start
  {
    if start >= |grades| then []
    else [grades[start..BatchEnd(start, |grades|)]] + BatchesFrom(grades, start + BatchSize)
  }

  function Batches(grades: seq<StudentGrade>): seq<seq<StudentGrade>>
  {
    BatchesFrom(grades, 0)
  }

  function Flatten(batches: seq<seq<StudentGrade>>): seq<StudentGrade>
  {
    if |batches| == 0 then [] else batches[0] + Flatten(batches[1..])
  }

  lemma {:induction false} BatchesFromFlatten(grades: seq<StudentGrade>, start: nat)
    requires start <= |grades|
    ensures Flatten(BatchesFrom(grades, start)) == grades[start..]
    decreases |grades| - start
  {
    if start < |grades| {
      var end := BatchEnd(start, |grades|);
      var bs := BatchesFrom(grades, start);
      assert bs[1..] == BatchesFrom(grades, start + BatchSize);
      if end == |grades| {
        assert BatchesFrom(grades, start + BatchSize) == [];
      } else {
        BatchesFromFlatten(grades, start + BatchSize);
        assert grades[start..] == grades[start..end] + grades[end..];
      }
    }
  }

  lemma {:induction false} BatchesFromSizes(grades: seq<StudentGrade>, start: nat)
    ensures forall j :: 0 <= j < |BatchesFrom(grades, start)| ==> 0 < |BatchesFrom(grades, start)[j]| <= BatchSize
    ensures forall j :: 0 <= j < |BatchesFrom(grades, start)| - 1 ==> |BatchesFrom(grades, start)[j]| == BatchSize
    decreases |grades| - start
  {
    if start < |grades| {
      var bs := BatchesFrom(grades, start);
      var first := grades[start..BatchEnd(start, |grades|)];
      var rest := BatchesFrom(grades, start + BatchSize);
      BatchesFromSizes(grades, start + BatchSize);
      assert bs == [first] + rest;
      assert 0 < |first| <= BatchSize;
      assert |rest| > 0 ==> |first| == BatchSize;
      forall j | 0 <= j < |bs|
        ensures 0 < |bs[j]| <= BatchSize
        ensures j < |bs| - 1 ==> |bs[j]| == BatchSize
      {
        if j == 0 {
          assert bs[0] == first;
        } else {
          assert bs[j] == rest[j - 1];
          assert 0 < |rest[j - 1]| <= BatchSize;
          assert j - 1 < |rest| - 1 ==> |rest[j - 1]| == BatchSize;
        }
      }
    }
  }

  lemma {:induction false} BatchesFromIndex(grades: seq<StudentGrade>, start: nat, j: nat)
    requires j < |BatchesFrom(grades, start)|
    ensures start + BatchSize * j < |grades|
    ensures BatchesFrom(grades, start)[j] == grades[start + BatchSize * j..BatchEnd(start + BatchSize * j, |grades|)]
    decreases j
  {
    if j > 0 {
      BatchesFromIndex(grades, start + BatchSize, j - 1);
      assert start + BatchSize + BatchSize * (j - 1) == start + BatchSize * j;
    }
  }

  /** The batches are contiguous slices of the grades, in order, that together cover
      every grade once; each holds 200 grades except the last, which holds 1 to 200;
      no grades give no batches. */
  lemma BatchesPartition(grades: seq<StudentGrade>)
    ensures var bs := Batches(grades);
      Flatten(bs) == grades &&
      (|grades| == 0 <==> |bs| == 0) &&
      (forall j :: 0 <= j < |bs| ==> 0 < |bs[j]| <= BatchSize) &&
      (forall j :: 0 <= j < |bs| - 1 ==> |bs[j]| == BatchSize) &&
      (forall j :: 0 <= j < |bs| ==>
        BatchSize * j < |grades| && bs[j] == grades[BatchSize * j..BatchEnd(BatchSize * j, |grades|)])
  {
    BatchesFromFlatten(grades, 0);
    BatchesFromSizes(grades, 0);
    forall j | 0 <= j < |Batches(grades)|
      ensures BatchSize * j < |grades|
      ensures Batches(grades)[j] == grades[BatchSize * j..BatchEnd(BatchSize * j, |grades|)]
    {
      BatchesFromIndex(grades, 0, j);
    }
  }

  // ---------------------------------------------------------------------------
  // The query of one batch

  function Placeholder(n: nat): string
  {
    "$" + Decimal.FormatNat(n)
  }

  /** `fmt.Sprintf("($%d, $%d, $%d, $%d)", argIdx+1, argIdx+2, argIdx+3, argIdx+4)`. */
  function PlaceholderTuple(argIdx: nat): string
  {
    "(" + Placeholder(argIdx + 1) + ", " + Placeholder(argIdx + 2) + ", "
    + Placeholder(argIdx + 3) + ", " + Placeholder(argIdx + 4) + ")"
  }

  /** The `VALUES` list of a batch of `k` grades: tuple `i` uses `argIdx = 4 * i`, and
      the tuples are joined by ", ". */
  function ValuesList(k: nat): (s: string)
    ensures k > 0 ==> |s| > 0 && s[0] == '('
  {
    if k == 0 then ""
    else if k == 1 then PlaceholderTuple(0)
    else ValuesList(k - 1) + ", " + PlaceholderTuple(4 * (k - 1))
  }

  /** The query of a batch of `k` grades. */
  function BatchQuery(k: nat): string
  {
    InsertPrefix + ValuesList(k) + UpsertClause
  }

  /** Every batch query starts with the `INSERT` prefix and ends with the upsert clause. */
  lemma BatchQueryShape(k: nat)
    ensures |BatchQuery(k)| >= |InsertPrefix| + |UpsertClause|
    ensures BatchQuery(k)[..|InsertPrefix|] == InsertPrefix
    ensures BatchQuery(k)[|BatchQuery(k)| - |UpsertClause|..] == UpsertClause
  {
  }

  /** The four arguments of one grade, in the column order of the `INSERT`. */
  function Row(g: StudentGrade): seq<Arg>
  {
    [Text(g.id), Text(g.subject), Number(g.grade), Text(g.studentName)]
  }

  /** The flattened `args` of a batch: the rows of its grades, one after another. */
  function Args(batch: seq<StudentGrade>): (r: seq<Arg>)
    ensures |r| == 4 * |batch|
  {
    if |batch| == 0 then [] else Args(batch[..|batch| - 1]) + Row(batch[|batch| - 1])
  }

  /** Positions 4i .. 4i+3 of a batch's `args` hold grade i's columns. */
  lemma {:induction false} ArgsIndex(batch: seq<StudentGrade>)
    ensures forall j :: 0 <= j < |Args(batch)| ==> Args(batch)[j] == Row(batch[j / 4])[j % 4]
  {
    if |batch| > 0 {
      var front := batch[..|batch| - 1];
      var r := Args(batch);
      ArgsIndex(front);
      assert r == Args(front) + Row(batch[|front|]);
      forall j | 0 <= j < |r|
        ensures r[j] == Row(batch[j / 4])[j % 4]
      {
        if j < 4 * |front| {
          assert r[j] == Args(front)[j];
          assert front[j / 4] == batch[j / 4];
        } else {
          assert j / 4 == |front|;
          assert r[j] == Row(batch[|front|])[j - 4 * |front|];
        }
      }
    }
  }

  // ---------------------------------------------------------------------------
  // Placeholder numbers of a query text

  function DigitRun(s: string): (d: string)
    ensures |d| <= |s| && d == s[..|d|] && Decimal.AllDigits(d)
    ensures |d| < |s| ==> !Decimal.IsDigit(s[|d|])
  {
    if |s| > 0 && Decimal.IsDigit(s[0]) then [s[0]] + DigitRun(s[1..]) else []
  }

  /** The numbers of the `$n` placeholders in `s`, left to right, as PostgreSQL reads
      them: a `$` followed by a maximal run of digits. */
  function Placeholders(s: string): seq<nat>
    decreases |s|
  {
    if |s| == 0 then []
    else if s[0] == '$' && |s| > 1 && Decimal.IsDigit(s[1]) then
      var d := DigitRun(s[1..]);
      [Decimal.Value(d)] + Placeholders(s[1 + |d|..])
    else Placeholders(s[1..])
  }

  lemma {:induction false} DigitRunAppend(x: string, b: string)
    requires |b| == 0 || !Decimal.IsDigit(b[0])
    ensures DigitRun(x + b) == DigitRun(x)
  {
    if |x| == 0 {
      assert x + b == b;
    } else {
      assert (x + b)[0] == x[0];
      assert (x + b)[1..] == x[1..] + b;
      DigitRunAppend(x[1..], b);
    }
  }

  lemma {:induction false} DigitRunAll(s: string)
    requires Decimal.AllDigits(s)
    ensures DigitRun(s) == s
  {
    if |s| > 0 {
      DigitRunAll(s[1..]);
    }
  }

  /** Text that does not start with a digit cannot extend a placeholder before it. */
  lemma {:induction false} PlaceholdersAppend(a: string, b: string)
    requires |b| == 0 || !Decimal.IsDigit(b[0])
    ensures Placeholders(a + b) == Placeholders(a) + Placeholders(b)
    decreases |a|, 1
  {
    if |a| == 0 {
      assert a + b == b;
    } else if a[0] == '$' && |a| > 1 && Decimal.IsDigit(a[1]) {
      PlaceholdersAppendAtDollar(a, b);
    } else {
      var s := a + b;
      assert !(s[0] == '$' && |s| > 1 && Decimal.IsDigit(s[1]));
      assert s[1..] == a[1..] + b;
      PlaceholdersAppend(a[1..], b);
    }
  }

  lemma {:induction false} PlaceholdersAppendAtDollar(a: string, b: string)
    requires |b| == 0 || !Decimal.IsDigit(b[0])
    requires |a| > 1 && a[0] == '$' && Decimal.IsDigit(a[1])
    ensures Placeholders(a + b) == Placeholders(a) + Placeholders(b)
    decreases |a|, 0
  {
    var s := a + b;
    var d := DigitRun(a[1..]);
    assert s[0] == '$' && s[1] == a[1];
    assert s[1..] == a[1..] + b;
    DigitRunAppend(a[1..], b);
    assert s[1 + |d|..] == a[1 + |d|..] + b;
    PlaceholdersAppend(a[1 + |d|..], b);
    Assoc([Decimal.Value(d)], Placeholders(a[1 + |d|..]), Placeholders(b));
  }

  lemma {:induction false} PlaceholdersNone(s: string)
    requires '$' !in s
    ensures Placeholders(s) == []
    decreases |s|
  {
    if |s| > 0 {
      assert s[0] != '$';
      assert forall i :: 0 <= i < |s| - 1 ==> s[1..][i] == s[i + 1];
      PlaceholdersNone(s[1..]);
    }
  }

  lemma PlaceholderScan(n: nat)
    ensures Placeholders(Placeholder(n)) == [n]
  {
    var f := Decimal.FormatNat(n);
    var s := Placeholder(n);
    assert s[1..] == f;
    DigitRunAll(f);
    Decimal.ValueOfFormatNat(n);
    assert s[1 + |f|..] == [];
  }

  lemma PlaceholderAfter(acc: string, sep: string, n: nat)
    requires '$' !in sep && |sep| > 0 && !Decimal.IsDigit(sep[0])
    ensures Placeholders(acc + sep + Placeholder(n)) == Placeholders(acc) + [n]
  {
    PlaceholdersNone(sep);
    PlaceholderScan(n);
    PlaceholdersAppend(acc, sep);
    PlaceholdersAppend(acc + sep, Placeholder(n));
  }

  lemma PlaceholderTupleScan(argIdx: nat)
    ensures Placeholders(PlaceholderTuple(argIdx)) == [argIdx + 1, argIdx + 2, argIdx + 3, argIdx + 4]
  {
    var s1 := "(" + Placeholder(argIdx + 1);
    PlaceholdersNone("");
    assert "" + "(" == "(";
    PlaceholderAfter("", "(", argIdx + 1);
    var s2 := s1 + ", " + Placeholder(argIdx + 2);
    PlaceholderAfter(s1, ", ", argIdx + 2);
    var s3 := s2 + ", " + Placeholder(argIdx + 3);
    PlaceholderAfter(s2, ", ", argIdx + 3);
    var s4 := s3 + ", " + Placeholder(argIdx + 4);
    PlaceholderAfter(s3, ", ", argIdx + 4);
    PlaceholdersNone(")");
    PlaceholdersAppend(s4, ")");
  }

  /** The placeholders of the `VALUES` list of `k` grades are exactly $1 .. $4k, in
      increasing order. */
  lemma {:induction false} ValuesListScan(k: nat)
    ensures Placeholders(ValuesList(k)) == Range(1, 4 * k + 1)
  {
    if k == 0 {
      assert Placeholders(ValuesList(0)) == [];
    } else if k == 1 {
      ValuesListScanFirst(k);
    } else {
      ValuesListScan(k - 1);
      ValuesListScanStep(k);
    }
  }

  lemma ValuesListScanFirst(k: nat)
    requires k == 1
    ensures Placeholders(ValuesList(k)) == Range(1, 4 * k + 1)
  {
    var m := 4 * (k - 1);
    assert ValuesList(k) == PlaceholderTuple(m);
    PlaceholderTupleScan(m);
    RangeFour(m);
  }

  lemma ValuesListScanStep(k: nat)
    requires k > 1
    requires Placeholders(ValuesList(k - 1)) == Range(1, 4 * (k - 1) + 1)
    ensures Placeholders(ValuesList(k)) == Range(1, 4 * k + 1)
  {
    var m := 4 * (k - 1);
    assert 4 * k + 1 == m + 5;
    assert ValuesList(k) == ValuesList(k - 1) + ", " + PlaceholderTuple(m);
    PlaceholderTupleScan(m);
    ScanJoin(ValuesList(k - 1), PlaceholderTuple(m), m);
  }

  lemma RangeFour(a: nat)
    ensures Range(a + 1, a + 5) == [a + 1, a + 2, a + 3, a + 4]
  {
  }

  lemma ScanJoin(front: string, tuple: string, m: nat)
    requires Placeholders(front) == Range(1, m + 1)
    requires |tuple| > 0 && tuple[0] == '('
    requires Placeholders(tuple) == [m + 1, m + 2, m + 3, m + 4]
    ensures Placeholders(front + ", " + tuple) == Range(1, m + 5)
  {
    PlaceholdersAppend(front + ", ", tuple);
    SeparatorScan(front);
    RangeFour(m);
    RangeSplit(1, m + 1, m + 5);
  }

  lemma SeparatorScan(front: string)
    ensures Placeholders(front + ", ") == Placeholders(front)
  {
    PlaceholdersNone(", ");
    PlaceholdersAppend(front, ", ");
  }

  /** Placeholder number j of a batch's `VALUES` list binds argument j - 1, which is
      column (j - 1) % 4 of grade (j - 1) / 4: every placeholder binds the right
      grade's field, and the list uses exactly as many placeholders as there are
      arguments. */
  lemma PlaceholderBinding(batch: seq<StudentGrade>, j: nat)
    requires j < 4 * |batch|
    ensures var ps := Placeholders(ValuesList(|batch|));
      j < |ps| && ps[j] == j + 1 && ps[j] <= |Args(batch)| &&
      Args(batch)[ps[j] - 1] == Row(batch[j / 4])[j % 4]
  {
    ValuesListScan(|batch|);
    ArgsIndex(batch);
  }
}
