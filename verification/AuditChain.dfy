/** The audit hash chain: the writer that appends to it and the checker that verifies it. */
module AuditChain {
  import opened Common

  /** A row of audit_trail. Hashes are opaque texts; prev is NULL on the first row of a batch. The step
      column is nullable, although the writer always fills it. */
  datatype AuditRow = AuditRow(batch: nat, step: Option<int>, input: string, output: string, prev: Option<string>)

  function OfBatch(rows: seq<AuditRow>, batch: nat): seq<AuditRow> {
    if rows == [] then []
    else
      var last := rows[|rows| - 1];
      OfBatch(rows[..|rows| - 1], batch) + (if last.batch == batch then [last] else [])
  }

  /** The order of step_number DESC: NULL comes before every number. */
  predicate NotAfter(x: AuditRow, r: AuditRow) {
    r.step.None? || (x.step.Some? && x.step.value <= r.step.value)
  }

  /** ORDER BY step_number DESC LIMIT 1 among the batch's rows. */
  predicate IsLatest(rows: seq<AuditRow>, r: AuditRow) {
    r in rows && forall x :: x in rows ==> NotAfter(x, r)
  }

  lemma {:induction false} LatestExists(rows: seq<AuditRow>) returns (r: AuditRow)
    requires rows != []
    ensures IsLatest(rows, r)
  {
    var front, last := rows[..|rows| - 1], rows[|rows| - 1];
    assert forall x :: x in rows <==> x in front || x == last;
    if front == [] {
      r := last;
    } else {
      var m := LatestExists(front);
      r := if NotAfter(m, last) then last else m;
    }
  }

  /** What _write_audit inserts after the batch's latest row (none: the first row). When that row has no
      step number the addition fails, and the wrapper only logs it. */
  function NextRows(latest: Option<AuditRow>, batch: nat, input: string, output: string): seq<AuditRow> {
    match latest
    case None => [AuditRow(batch, Some(1), input, output, None)]
    case Some(r) =>
      if r.step.None? then [] else [AuditRow(batch, Some(r.step.value + 1), input, output, Some(r.output))]
  }

  ghost predicate Appends(before: seq<AuditRow>, batch: nat, input: string, output: string, after: seq<AuditRow>) {
    var own := OfBatch(before, batch);
    if own == [] then after == before + NextRows(None, batch, input, output)
    else exists r :: IsLatest(own, r) && after == before + NextRows(Some(r), batch, input, output)
  }

  // ---- What one write appends ----

  lemma {:induction false} InBatch(rows: seq<AuditRow>, batch: nat, x: AuditRow)
    ensures x in OfBatch(rows, batch) <==> x in rows && x.batch == batch
  {
    if rows != [] {
      var front, last := rows[..|rows| - 1], rows[|rows| - 1];
      InBatch(front, batch, x);
      assert x in rows <==> x in front || x == last;
    }
  }

  /** A row of the batch with the greatest number; every row of the batch has one. */
  ghost predicate Greatest(rows: seq<AuditRow>, batch: nat, last: AuditRow) {
    && last in rows && last.batch == batch && last.step.Some?
    && forall x :: x in rows && x.batch == batch ==> x.step.Some? && x.step.value <= last.step.value
  }

  /**
   One write, on any table: the first row of its batch has number 1 and no previous hash; a later one
   follows a row of the same batch with the greatest number, and takes over its output hash. A row of the
   batch without a number blocks every later write of the batch.
   */
  lemma WriteIsExact(before: seq<AuditRow>, batch: nat, input: string, output: string, after: seq<AuditRow>)
    requires Appends(before, batch, input, output, after)
    ensures (forall x :: x in before ==> x.batch != batch) ==>
              after == before + [AuditRow(batch, Some(1), input, output, None)]
    ensures (exists x :: x in before && x.batch == batch && x.step.None?) ==> after == before
    ensures (exists x :: x in before && x.batch == batch)
            && (forall x :: x in before && x.batch == batch ==> x.step.Some?) ==>
              exists last ::
                && Greatest(before, batch, last)
                && after == before + [AuditRow(batch, Some(last.step.value + 1), input, output, Some(last.output))]
  {
    hide OfBatch, IsLatest, Greatest;
    var own := OfBatch(before, batch);
    if own == [] {
      forall x | x in before ensures x.batch != batch {
        InBatch(before, batch, x);
      }
    } else {
      InBatch(before, batch, own[0]);
      var last :| IsLatest(own, last) && after == before + NextRows(Some(last), batch, input, output);
      LatestInTable(before, batch, last);
      if last.step.None? {
        assert after == before + [] == before;
      } else {
        assert Greatest(before, batch, last);
        assert after == before + [AuditRow(batch, Some(last.step.value + 1), input, output, Some(last.output))];
      }
    }
  }

  lemma LatestInTable(rows: seq<AuditRow>, batch: nat, last: AuditRow)
    requires IsLatest(OfBatch(rows, batch), last)
    ensures last in rows && last.batch == batch
    ensures last.step.None? <==> exists x :: x in rows && x.batch == batch && x.step.None?
    ensures last.step.Some? ==> Greatest(rows, batch, last)
  {
    hide OfBatch;
    forall x ensures x in OfBatch(rows, batch) <==> x in rows && x.batch == batch {
      InBatch(rows, batch, x);
    }
    forall x | x in rows && x.batch == batch ensures NotAfter(x, last) {
      assert x in OfBatch(rows, batch);
    }
  }

  class AuditTrail {
    var rows: seq<AuditRow>

    constructor ()
      ensures rows == []
    {
      rows := [];
    }

    /** _write_audit; without a batch id nothing is recorded. */
    method Write(batch: Option<nat>, input: string, output: string)
      modifies this
      ensures batch.None? ==> rows == old(rows)
      ensures batch.Some? ==> Appends(old(rows), batch.value, input, output, rows)
    {
      if batch.None? {
        return;
      }
      var own := OfBatch(rows, batch.value);
      var latest: Option<AuditRow> := None;
      if own != [] {
        ghost var some := LatestExists(own);
        var r :| r in own && forall x :: x in own ==> NotAfter(x, r);
        assert IsLatest(own, r);
        latest := Some(r);
      }
      rows := rows + NextRows(latest, batch.value, input, output);
    }
  }

  // ---- The checker ----

  datatype Reason = FirstNotNull | PrevMismatch

  datatype Break = Break(step: Option<int>, expected: Option<string>, actual: Option<string>, reason: Reason)

  datatype Warning = Duplicate(step: int) | Gap(step: int)

  datatype Verification = Verification(total: nat, valid: bool, breaks: seq<Break>, warnings: seq<Warning>)

  datatype Error = BatchNotFound

  /** Whether row i of the listed chain is linked to the row before it. */
  predicate Linked(chain: seq<AuditRow>, i: nat)
    requires i < |chain|
  {
    chain[i].prev == if i == 0 then None else Some(chain[i - 1].output)
  }

  /** The bad links, in order. */
  function BadLinks(chain: seq<AuditRow>): seq<Break> {
    if chain == [] then []
    else
      var n := |chain| - 1;
      BadLinks(chain[..n])
      + (if Linked(chain, n) then []
         else if n == 0 then [Break(chain[0].step, None, chain[0].prev, FirstNotNull)]
         else [Break(chain[n].step, Some(chain[n - 1].output), chain[n].prev, PrevMismatch)])
  }

  /** The step numbers that are present. */
  function Steps(chain: seq<AuditRow>): seq<int> {
    if chain == [] then []
    else
      var n := |chain| - 1;
      Steps(chain[..n]) + (if chain[n].step.Some? then [chain[n].step.value] else [])
  }

  /** The warnings, in order: a number seen before, then a number that does not follow the last. */
  function StepWarnings(steps: seq<int>): seq<Warning> {
    if steps == [] then []
    else
      var n := |steps| - 1;
      StepWarnings(steps[..n])
      + (if steps[n] in steps[..n] then [Duplicate(steps[n])] else [])
      + (if n > 0 && steps[n] != steps[n - 1] + 1 then [Gap(steps[n])] else [])
  }

  lemma BreakStep(chain: seq<AuditRow>, i: nat)
    requires i < |chain|
    ensures BadLinks(chain[..i + 1])
            == BadLinks(chain[..i])
               + (if Linked(chain, i) then []
                  else if i == 0 then [Break(chain[0].step, None, chain[0].prev, FirstNotNull)]
                  else [Break(chain[i].step, Some(chain[i - 1].output), chain[i].prev, PrevMismatch)])
    ensures Steps(chain[..i + 1]) == Steps(chain[..i]) + (if chain[i].step.Some? then [chain[i].step.value] else [])
  {
    assert chain[..i + 1][..i] == chain[..i];
  }

  lemma WarnStep(steps: seq<int>, step: int)
    ensures StepWarnings(steps + [step])
            == StepWarnings(steps) + (if step in steps then [Duplicate(step)] else [])
               + (if steps != [] && step != steps[|steps| - 1] + 1 then [Gap(step)] else [])
  {
    var longer := steps + [step];
    assert longer != [] && longer[|steps|] == step && longer[..|steps|] == steps;
    assert steps != [] ==> longer[|steps| - 1] == steps[|steps| - 1];
  }

  lemma NothingChecked()
    ensures BadLinks([]) == [] && Steps([]) == [] && StepWarnings([]) == []
  {
  }

  /** verify_chain on the rows of one batch as listed. */
  method VerifyChain(batchExists: bool, chain: seq<AuditRow>) returns (r: Result<Verification, Error>)
    ensures r.Err? <==> !batchExists
    ensures r.Ok? ==>
              && r.value.total == |chain|
              && r.value.breaks == BadLinks(chain) && r.value.warnings == StepWarnings(Steps(chain))
              && (r.value.valid <==> forall i: nat :: i < |chain| ==> Linked(chain, i))
  {
    hide BadLinks, Steps, StepWarnings;
    if !batchExists {
      return Err(BatchNotFound);
    }
    NothingChecked();
    var breaks, warnings := [], [];
    var prevOutput: Option<string> := None;
    var expected: Option<int> := None;
    var seen: set<int> := {};
    ghost var steps: seq<int> := [];
    var i := 0;
    while i < |chain|
      invariant i <= |chain| && breaks == BadLinks(chain[..i])
      invariant prevOutput == if i == 0 then None else Some(chain[i - 1].output)
      invariant steps == Steps(chain[..i]) && warnings == StepWarnings(steps)
      invariant expected == if steps == [] then None else Some(steps[|steps| - 1] + 1)
      invariant seen == set x | x in steps
    {
      var row := chain[i];
      BreakStep(chain, i);
      if i == 0 {
        if row.prev != None {
          breaks := breaks + [Break(row.step, None, row.prev, FirstNotNull)];
        }
      } else if row.prev != prevOutput {
        breaks := breaks + [Break(row.step, prevOutput, row.prev, PrevMismatch)];
      }
      prevOutput := Some(row.output);
      if row.step.Some? {
        var step := row.step.value;
        WarnStep(steps, step);
        if step in seen {
          warnings := warnings + [Duplicate(step)];
        }
        seen := seen + {step};
        if expected.Some? && step != expected.value {
          warnings := warnings + [Gap(step)];
        }
        expected := Some(step + 1);
        steps := steps + [step];
      }
      i := i + 1;
    }
    assert chain[..i] == chain;
    ValidIff(chain);
    r := Ok(Verification(|chain|, breaks == [], breaks, warnings));
  }

  /** The number of breaks is the number of bad links; the chain is valid iff every link is good. */
  function BadCount(chain: seq<AuditRow>): nat {
    |set i: nat | i < |chain| && !Linked(chain, i)|
  }

  lemma {:induction false} ValidIff(chain: seq<AuditRow>)
    ensures BadLinks(chain) == [] <==> forall i: nat :: i < |chain| ==> Linked(chain, i)
    ensures |BadLinks(chain)| == BadCount(chain)
  {
    hide Linked;
    if chain != [] {
      var n: nat := |chain| - 1;
      ValidIff(chain[..n]);
      PrefixLinks(chain, n);
      var before := set i: nat | i < n && !Linked(chain[..n], i);
      var all := set i: nat | i < |chain| && !Linked(chain, i);
      if Linked(chain, n) {
        assert all == before;
      } else {
        assert all == before + {n};
      }
    }
  }

  lemma PrefixLinks(chain: seq<AuditRow>, n: nat)
    requires n <= |chain|
    ensures forall i: nat :: i < n ==> (Linked(chain[..n], i) <==> Linked(chain, i))
  {
  }

  // ---- Writer and checker agree ----

  datatype WriteCall = WriteCall(batch: nat, input: string, output: string)

  ghost predicate IsHistory(tables: seq<seq<AuditRow>>, calls: seq<WriteCall>) {
    && |tables| == |calls| + 1
    && tables[0] == []
    && forall i, j {:trigger tables[i], tables[j]} :: 0 <= i && j == i + 1 && j < |tables| ==>
         Appends(tables[i], calls[i].batch, calls[i].input, calls[i].output, tables[j])
  }

  ghost predicate AllLinked(chain: seq<AuditRow>) {
    forall i: nat :: i < |chain| ==> Linked(chain, i)
  }

  /** Steps 1..n, each row linked to the one before. */
  ghost predicate WellFormed(chain: seq<AuditRow>) {
    && AllLinked(chain)
    && forall i: nat :: i < |chain| ==> chain[i].step == Some(i + 1)
  }

  lemma LatestIsLast(chain: seq<AuditRow>, r: AuditRow)
    requires WellFormed(chain) && IsLatest(chain, r)
    ensures r == chain[|chain| - 1] && r.step == Some(|chain|)
  {
    hide Linked;
    var n: nat := |chain| - 1;
    assert chain[n] in chain && chain[n].step == Some(n + 1);
    assert NotAfter(chain[n], r);
    var k: nat :| k < |chain| && chain[k] == r;
    assert chain[k].step == Some(k + 1);
  }

  lemma AppendLinked(chain: seq<AuditRow>, row: AuditRow)
    requires WellFormed(chain) && row.step == Some(|chain| + 1)
    requires row.prev == if chain == [] then None else Some(chain[|chain| - 1].output)
    ensures WellFormed(chain + [row])
  {
    var longer := chain + [row];
    forall i: nat | i < |longer| ensures Linked(longer, i) {
      if i < |chain| {
        assert Linked(chain, i);
      }
    }
  }

  lemma AppendKeeps(before: seq<AuditRow>, call: WriteCall, after: seq<AuditRow>, batch: nat)
    requires Appends(before, call.batch, call.input, call.output, after)
    requires WellFormed(OfBatch(before, call.batch)) && WellFormed(OfBatch(before, batch))
    ensures WellFormed(OfBatch(after, batch))
  {
    hide WellFormed, IsLatest;
    var own := OfBatch(before, call.batch);
    if own != [] {
      var r :| IsLatest(own, r) && after == before + NextRows(Some(r), call.batch, call.input, call.output);
      LatestIsLast(own, r);
    }
    var row := after[|after| - 1];
    assert after == before + [row] && after[..|after| - 1] == before;
    if call.batch != batch {
      assert OfBatch(before, batch) + [] == OfBatch(before, batch);
    } else {
      AppendLinked(own, row);
    }
  }

  /** After any history of writes, interleaved over batches in any way, each batch has steps 1..n and
      verifies without a break or a warning. */
  lemma {:induction false} HistoriesVerify(tables: seq<seq<AuditRow>>, calls: seq<WriteCall>, n: nat, batch: nat)
    requires IsHistory(tables, calls) && n <= |calls|
    ensures
      var chain := OfBatch(tables[n], batch);
      WellFormed(chain) && BadLinks(chain) == [] && StepWarnings(Steps(chain)) == []
  {
    if n > 0 {
      HistoriesVerify(tables, calls, n - 1, batch);
      HistoriesVerify(tables, calls, n - 1, calls[n - 1].batch);
      assert Appends(tables[n - 1], calls[n - 1].batch, calls[n - 1].input, calls[n - 1].output, tables[n]);
      AppendKeeps(tables[n - 1], calls[n - 1], tables[n], batch);
    }
    ValidIff(OfBatch(tables[n], batch));
    NoWarnings(OfBatch(tables[n], batch));
  }

  /** Call i is the last one before call k for the same batch. */
  ghost predicate IsPrevious(calls: seq<WriteCall>, i: nat, k: nat)
    requires k < |calls|
  {
    i < k && calls[i].batch == calls[k].batch && forall j :: i < j < k ==> calls[j].batch != calls[k].batch
  }

  /** The row of call k: its number counts the earlier calls of the same batch, and its previous hash is
      the output of the last of them. */
  ghost predicate WrittenBy(row: AuditRow, calls: seq<WriteCall>, k: nat)
    requires k < |calls|
  {
    && row.batch == calls[k].batch && row.input == calls[k].input && row.output == calls[k].output
    && row.step == Some(|set i: nat | i < k && calls[i].batch == calls[k].batch| + 1)
    && (row.prev.None? <==> forall i: nat :: i < k ==> calls[i].batch != calls[k].batch)
    && (forall i: nat :: IsPrevious(calls, i, k) ==> row.prev == Some(calls[i].output))
  }

  /** The table after any history of writes: one row per call, in call order, each written as WrittenBy
      says from the calls alone. */
  lemma {:induction false} HistoryIsExact(tables: seq<seq<AuditRow>>, calls: seq<WriteCall>, n: nat)
    requires IsHistory(tables, calls) && n <= |calls|
    ensures |tables[n]| == n && forall k: nat :: k < n ==> WrittenBy(tables[n][k], calls, k)
  {
    hide WrittenBy, Appends;
    if n > 0 {
      var before, call := tables[n - 1], calls[n - 1];
      HistoryIsExact(tables, calls, n - 1);
      assert Appends(before, call.batch, call.input, call.output, tables[n]);
      HistoriesVerify(tables, calls, n - 1, call.batch);
      LastRow(before, call, tables[n]);
      NewRow(before, calls, n - 1, tables[n][n - 1]);
    }
  }

  lemma NewRow(before: seq<AuditRow>, calls: seq<WriteCall>, k: nat, row: AuditRow)
    requires |before| == k < |calls| && forall i: nat :: i < k ==> WrittenBy(before[i], calls, i)
    requires Follows(row, before, calls[k])
    ensures WrittenBy(row, calls, k)
  {
    forall i: nat | i < k ensures before[i].batch == calls[i].batch && before[i].output == calls[i].output {
      assert WrittenBy(before[i], calls, i);
    }
    RowFromCalls(before, calls, k, row);
  }

  lemma RowFromCalls(before: seq<AuditRow>, calls: seq<WriteCall>, k: nat, row: AuditRow)
    requires |before| == k < |calls|
    requires forall i: nat :: i < k ==> before[i].batch == calls[i].batch && before[i].output == calls[i].output
    requires Follows(row, before, calls[k])
    ensures WrittenBy(row, calls, k)
  {
    var places := Places(before, calls[k].batch);
    assert places == set i: nat | i < k && calls[i].batch == calls[k].batch;
    forall i: nat | i < k && calls[i].batch == calls[k].batch ensures places != {} {
      assert i in places;
    }
    forall i: nat | IsPrevious(calls, i, k) ensures row.prev == Some(calls[i].output) {
      assert i in places;
      var j: nat :| LastPlace(before, calls[k].batch, j) && row.prev == Some(before[j].output);
      assert i == j;
    }
  }

  function Places(rows: seq<AuditRow>, batch: nat): set<nat> {
    set i: nat | i < |rows| && rows[i].batch == batch
  }

  ghost predicate LastPlace(rows: seq<AuditRow>, batch: nat, i: nat) {
    i < |rows| && rows[i].batch == batch && forall j :: i < j < |rows| ==> rows[j].batch != batch
  }

  lemma {:induction false} BatchSize(rows: seq<AuditRow>, batch: nat)
    ensures |OfBatch(rows, batch)| == |Places(rows, batch)|
  {
    if rows != [] {
      var n: nat := |rows| - 1;
      BatchSize(rows[..n], batch);
      if rows[n].batch == batch {
        assert Places(rows, batch) == Places(rows[..n], batch) + {n};
      } else {
        assert Places(rows, batch) == Places(rows[..n], batch);
      }
    }
  }

  lemma {:induction false} LastOfBatch(rows: seq<AuditRow>, batch: nat) returns (i: nat)
    requires OfBatch(rows, batch) != []
    ensures LastPlace(rows, batch, i) && OfBatch(rows, batch)[|OfBatch(rows, batch)| - 1] == rows[i]
  {
    var n: nat := |rows| - 1;
    if rows[n].batch == batch {
      i := n;
    } else {
      i := LastOfBatch(rows[..n], batch);
    }
  }

  /** The row a call appends to a table, told from the places of its batch in the table. */
  ghost predicate Follows(row: AuditRow, before: seq<AuditRow>, call: WriteCall) {
    && row.batch == call.batch && row.input == call.input && row.output == call.output
    && row.step == Some(|Places(before, call.batch)| + 1)
    && (row.prev.None? <==> Places(before, call.batch) == {})
    && (Places(before, call.batch) != {} ==>
          exists i: nat :: LastPlace(before, call.batch, i) && row.prev == Some(before[i].output))
  }

  lemma RowShape(before: seq<AuditRow>, call: WriteCall, after: seq<AuditRow>)
    requires Appends(before, call.batch, call.input, call.output, after)
    requires WellFormed(OfBatch(before, call.batch))
    ensures
      var own := OfBatch(before, call.batch);
      after == before + [AuditRow(call.batch, Some(|own| + 1), call.input, call.output,
                                  if own == [] then None else Some(own[|own| - 1].output))]
  {
    hide WellFormed, IsLatest, OfBatch;
    var own := OfBatch(before, call.batch);
    if own != [] {
      var r :| IsLatest(own, r) && after == before + NextRows(Some(r), call.batch, call.input, call.output);
      LatestIsLast(own, r);
    }
  }

  lemma LastRow(before: seq<AuditRow>, call: WriteCall, after: seq<AuditRow>)
    requires Appends(before, call.batch, call.input, call.output, after)
    requires WellFormed(OfBatch(before, call.batch))
    ensures |after| == |before| + 1 && after[..|before|] == before && Follows(after[|before|], before, call)
  {
    hide WellFormed, OfBatch, Places, Appends, LastPlace;
    RowShape(before, call, after);
    BatchSize(before, call.batch);
    if OfBatch(before, call.batch) != [] {
      var i := LastOfBatch(before, call.batch);
    }
  }

  lemma NoWarnings(chain: seq<AuditRow>)
    requires WellFormed(chain)
    ensures StepWarnings(Steps(chain)) == []
  {
    StepsNumbered(chain, (k: nat) => k + 1);
    InSequence(Steps(chain));
  }

  lemma {:induction false} InSequence(steps: seq<int>)
    requires forall k: nat :: k < |steps| ==> steps[k] == k + 1
    ensures StepWarnings(steps) == []
  {
    if steps != [] {
      InSequence(steps[..|steps| - 1]);
    }
  }

  lemma {:induction false} StepsNumbered(chain: seq<AuditRow>, number: nat -> int)
    requires forall k: nat :: k < |chain| ==> chain[k].step == Some(number(k))
    ensures |Steps(chain)| == |chain| && forall k: nat :: k < |chain| ==> Steps(chain)[k] == number(k)
  {
    if chain != [] {
      StepsNumbered(chain[..|chain| - 1], number);
    }
  }

  // ---- Tampering with a written chain ----

  function Without(chain: seq<AuditRow>, i: nat): seq<AuditRow>
    requires i < |chain|
  {
    chain[..i] + chain[i + 1..]
  }

  /** Deleting one row goes unnoticed by the link check iff it is the last row, or an inner row that has
      the same output hash as the row before it. */
  lemma DeletionPassesIff(chain: seq<AuditRow>, i: nat)
    requires WellFormed(chain) && i < |chain|
    ensures AllLinked(Without(chain, i))
            <==> i == |chain| - 1 || (i > 0 && chain[i].output == chain[i - 1].output)
  {
    var cut := Without(chain, i);
    if i < |chain| - 1 {
      assert Linked(chain, i + 1);
      assert cut[i] == chain[i + 1];
      assert i > 0 ==> cut[i - 1] == chain[i - 1];
      if i > 0 && chain[i].output == chain[i - 1].output {
        forall k: nat | k < |cut| ensures Linked(cut, k) {
          CutLink(chain, i, k);
        }
      } else {
        assert !Linked(cut, i);
      }
    } else {
      forall k: nat | k < |cut| ensures Linked(cut, k) {
        assert Linked(chain, k);
      }
    }
  }

  lemma CutLink(chain: seq<AuditRow>, i: nat, k: nat)
    requires WellFormed(chain) && 0 < i < |chain| - 1 && chain[i].output == chain[i - 1].output
    requires k < |chain| - 1
    ensures Linked(Without(chain, i), k)
  {
    assert Linked(chain, k) && Linked(chain, k + 1);
  }

  /** No deletion of a row before the last escapes both checks: the link check or the step numbers of the
      remaining rows show it. */
  lemma DeletionIsSeen(chain: seq<AuditRow>, i: nat)
    requires WellFormed(chain) && i < |chain| - 1
    ensures BadLinks(Without(chain, i)) != [] || StepWarnings(Steps(Without(chain, i))) != []
  {
    ValidIff(Without(chain, i));
    DeletionPassesIff(chain, i);
    if i > 0 {
      StepsWithout(chain, i);
      GapIsListed(Steps(Without(chain, i)), i);
    }
  }

  lemma StepsWithout(chain: seq<AuditRow>, i: nat)
    requires WellFormed(chain) && 0 < i < |chain| - 1
    ensures
      var steps := Steps(Without(chain, i));
      |steps| == |chain| - 1 && steps[i - 1] == i && steps[i] == i + 2
  {
    StepsNumbered(Without(chain, i), (k: nat) => if k < i then k + 1 else k + 2);
  }

  lemma {:induction false} GapIsListed(steps: seq<int>, i: nat)
    requires 0 < i < |steps| && steps[i] != steps[i - 1] + 1
    ensures StepWarnings(steps) != []
  {
    if i < |steps| - 1 {
      GapIsListed(steps[..|steps| - 1], i);
    }
  }

  /** Rewriting one row in place goes unnoticed iff its link to the row before is kept, and so is its
      output hash, unless it is the last row. The input hash is never checked. */
  lemma EditPassesIff(chain: seq<AuditRow>, i: nat, row: AuditRow)
    requires WellFormed(chain) && i < |chain|
    ensures AllLinked(chain[i := row])
            <==> row.prev == chain[i].prev && (i == |chain| - 1 || row.output == chain[i].output)
  {
    var edited := chain[i := row];
    assert Linked(chain, i);
    if i < |chain| - 1 {
      assert Linked(chain, i + 1);
      assert edited[i + 1] == chain[i + 1];
    }
    if row.prev == chain[i].prev && (i == |chain| - 1 || row.output == chain[i].output) {
      forall k: nat | k < |edited| ensures Linked(edited, k) {
        assert Linked(chain, k);
      }
    } else if row.prev != chain[i].prev {
      assert !Linked(edited, i);
    } else {
      assert !Linked(edited, i + 1);
    }
  }
}
