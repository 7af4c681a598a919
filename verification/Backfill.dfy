/**
 Two-tier storage and the backfill: blobs of the old filesystem tree are copied into the object
 store while downloads keep reading the object store first and the tree second.
 */
module Backfill {
  import opened Common
  import opened Download

  type Key = string

  type Blobs = map<Key, Bytes>

  /** An attachment row; storage keys are unique and sizes positive. */
  datatype Row = Row(key: Key, size: nat)

  /** How the object store treats one row: which calls raise, and how many bytes an upload leaves. */
  datatype Attempt = Attempt(existsRaises: bool, uploadRaises: bool, stored: nat, sizeRaises: bool, deleteRaises: bool)

  datatype Verdict = Copied | SkippedExisting | MissingSource | SizeMismatch | Failed

  /** What a download of a key reads. */
  function ReadView(objects: Blobs, legacy: Blobs, key: Key): Option<Bytes> {
    if key in objects then Some(objects[key])
    else if key in legacy then Some(legacy[key])
    else None
  }

  predicate UniqueKeys(rows: seq<Row>) {
    forall i, j :: 0 <= i < j < |rows| ==> rows[i].key != rows[j].key
  }

  /** A row the loop tries to copy: not in the object store, in the tree with its recorded size. */
  predicate Eligible(objects: Blobs, source: Blobs, row: Row) {
    row.key !in objects && row.key in source && |source[row.key]| == row.size
  }

  /** What an upload leaves in the object store. */
  function Uploaded(objects: Blobs, key: Key, content: Bytes, attempt: Attempt): Blobs {
    if attempt.uploadRaises then objects
    else objects[key := if attempt.stored < |content| then content[..attempt.stored] else content]
  }

  /** One round of the loop. No verdict means that an unguarded call raised and ended the command. */
  function Visit(objects: Blobs, source: Blobs, row: Row, dryRun: bool, attempt: Attempt): (Blobs, Option<Verdict>) {
    if attempt.existsRaises then (objects, None)
    else if row.key in objects then (objects, Some(SkippedExisting))
    else if row.key !in source then (objects, Some(MissingSource))
    else if |source[row.key]| != row.size then (objects, Some(SizeMismatch))
    else if dryRun then (objects, Some(Copied))
    else
      var after := Uploaded(objects, row.key, source[row.key], attempt);
      if attempt.uploadRaises || attempt.sizeRaises then (after, Some(Failed))
      else if |after[row.key]| == row.size then (after, Some(Copied))
      else if attempt.deleteRaises then (after, None)
      else (after - {row.key}, Some(Failed))
  }

  /** The whole command: the object store afterwards and the verdicts of the rows it finished. */
  function Pass(objects: Blobs, source: Blobs, rows: seq<Row>, dryRun: bool, attempts: seq<Attempt>): (r: (Blobs, seq<Verdict>))
    requires |attempts| == |rows|
    ensures |r.1| <= |rows|
    decreases |rows|
  {
    if rows == [] then (objects, [])
    else
      var (after, verdict) := Visit(objects, source, rows[0], dryRun, attempts[0]);
      if verdict.None? then (after, [])
      else
        var (final, rest) := Pass(after, source, rows[1..], dryRun, attempts[1..]);
        (final, [verdict.value] + rest)
  }

  // ----- Every row is decided by the stores before the run -----

  /** A visit touches nothing but its own key. */
  lemma VisitIsLocal(objects: Blobs, source: Blobs, row: Row, dryRun: bool, attempt: Attempt, key: Key)
    requires key != row.key
    ensures var after := Visit(objects, source, row, dryRun, attempt).0;
            (key in after <==> key in objects) && (key in objects ==> after[key] == objects[key])
  {
  }

  /** What a row finds and leaves at its key depends on that key alone. */
  lemma VisitAtKey(objects: Blobs, objects': Blobs, source: Blobs, row: Row, dryRun: bool, attempt: Attempt)
    requires row.key in objects <==> row.key in objects'
    requires row.key in objects ==> objects[row.key] == objects'[row.key]
    ensures var (a, v) := Visit(objects, source, row, dryRun, attempt);
            var (a', v') := Visit(objects', source, row, dryRun, attempt);
            v == v' && (row.key in a <==> row.key in a') && (row.key in a ==> a[row.key] == a'[row.key])
  {
  }

  /** Keys no row names keep their object. */
  lemma {:induction false} OtherKeysStay(objects: Blobs, source: Blobs, rows: seq<Row>, dryRun: bool, attempts: seq<Attempt>, key: Key)
    requires |attempts| == |rows|
    requires forall i :: 0 <= i < |rows| ==> rows[i].key != key
    ensures var final := Pass(objects, source, rows, dryRun, attempts).0;
            (key in final <==> key in objects) && (key in objects ==> final[key] == objects[key])
    decreases |rows|
  {
    if rows != [] {
      VisitIsLocal(objects, source, rows[0], dryRun, attempts[0], key);
      var (after, verdict) := Visit(objects, source, rows[0], dryRun, attempts[0]);
      if verdict.Some? {
        OtherKeysStay(after, source, rows[1..], dryRun, attempts[1..], key);
      }
    }
  }

  /** How many rows a run reaches: all of them, or up to the one that ended the command. */
  function Reached(rows: seq<Row>, verdicts: seq<Verdict>): nat {
    if |verdicts| < |rows| then |verdicts| + 1 else |rows|
  }

  /** The loop refines a row-by-row table: each row's verdict and object follow from the start alone. */
  lemma {:induction false} RowsAreIndependent(objects: Blobs, source: Blobs, rows: seq<Row>, dryRun: bool,
                                              attempts: seq<Attempt>, i: nat)
    requires |attempts| == |rows| && UniqueKeys(rows)
    requires i < Reached(rows, Pass(objects, source, rows, dryRun, attempts).1)
    ensures var (final, verdicts) := Pass(objects, source, rows, dryRun, attempts);
            var (own, verdict) := Visit(objects, source, rows[i], dryRun, attempts[i]);
            && i < |rows|
            && verdict == (if i < |verdicts| then Some(verdicts[i]) else None)
            && (rows[i].key in final <==> rows[i].key in own)
            && (rows[i].key in own ==> final[rows[i].key] == own[rows[i].key])
    decreases |rows|
  {
    hide Visit;
    var (after, first) := Visit(objects, source, rows[0], dryRun, attempts[0]);
    if i == 0 {
      if first.Some? {
        OtherKeysStay(after, source, rows[1..], dryRun, attempts[1..], rows[0].key);
      }
    } else {
      RowsAreIndependent(after, source, rows[1..], dryRun, attempts[1..], i - 1);
      VisitIsLocal(objects, source, rows[0], dryRun, attempts[0], rows[i].key);
      VisitAtKey(after, objects, source, rows[i], dryRun, attempts[i]);
    }
  }

  // ----- The read view -----

  /** The store keeps a truncated object: the upload was cut short and nothing could remove it. */
  predicate LeavesTruncated(objects: Blobs, source: Blobs, row: Row, dryRun: bool, attempt: Attempt) {
    && !attempt.existsRaises && Eligible(objects, source, row) && !dryRun
    && !attempt.uploadRaises && attempt.stored < row.size
    && (attempt.sizeRaises || attempt.deleteRaises)
  }

  lemma VisitKeepsViewExactly(objects: Blobs, legacy: Blobs, row: Row, dryRun: bool, attempt: Attempt)
    ensures var after := Visit(objects, legacy, row, dryRun, attempt).0;
            ReadView(after, legacy, row.key) == ReadView(objects, legacy, row.key) <==>
            !LeavesTruncated(objects, legacy, row, dryRun, attempt)
  {
  }

  // ----- How far a run gets -----

  /** An unguarded call raises: looking the key up, or deleting a truncated object. */
  predicate Stops(objects: Blobs, source: Blobs, row: Row, dryRun: bool, attempt: Attempt) {
    || attempt.existsRaises
    || (&& Eligible(objects, source, row) && !dryRun
        && !attempt.uploadRaises && !attempt.sizeRaises && attempt.stored < row.size && attempt.deleteRaises)
  }

  /** No row before this one stops the command, judging by the stores before the run. */
  predicate Visited(objects: Blobs, source: Blobs, rows: seq<Row>, dryRun: bool, attempts: seq<Attempt>, i: nat)
    requires |attempts| == |rows| && i <= |rows|
  {
    forall j :: 0 <= j < i ==> !Stops(objects, source, rows[j], dryRun, attempts[j])
  }

  lemma StopsExactly(objects: Blobs, source: Blobs, row: Row, dryRun: bool, attempt: Attempt)
    ensures Visit(objects, source, row, dryRun, attempt).1.None? <==> Stops(objects, source, row, dryRun, attempt)
  {
  }

  /** The run gets to a row exactly when no row before it stops it, and finishes exactly when none does. */
  lemma ReachedExactly(objects: Blobs, source: Blobs, rows: seq<Row>, dryRun: bool, attempts: seq<Attempt>, i: nat)
    requires |attempts| == |rows| && UniqueKeys(rows) && i <= |rows|
    ensures var verdicts := Pass(objects, source, rows, dryRun, attempts).1;
            && (Visited(objects, source, rows, dryRun, attempts, i) <==> i <= |verdicts|)
            && (i < Reached(rows, verdicts) <==> i < |rows| && Visited(objects, source, rows, dryRun, attempts, i))
  {
    var verdicts := Pass(objects, source, rows, dryRun, attempts).1;
    forall j | 0 <= j < |rows| && j <= |verdicts|
      ensures j < |verdicts| <==> !Stops(objects, source, rows[j], dryRun, attempts[j])
    {
      RowsAreIndependent(objects, source, rows, dryRun, attempts, j);
      StopsExactly(objects, source, rows[j], dryRun, attempts[j]);
      hide Visit, Stops;
    }
    hide Pass, Stops, UniqueKeys;
    if |verdicts| < i {
      assert Stops(objects, source, rows[|verdicts|], dryRun, attempts[|verdicts|]);
    }
  }

  // ----- The read view over a run -----

  /**
   Downloads of every key read the same after the command as before, exactly when no row it gets to
   leaves a truncated object: an upload cut short is harmless when its size is read and it is
   deleted, and so is an upload that raises.
   */
  lemma ReadViewIsKeptExactly(objects: Blobs, legacy: Blobs, rows: seq<Row>, dryRun: bool, attempts: seq<Attempt>)
    requires |attempts| == |rows| && UniqueKeys(rows)
    ensures (forall key :: ReadView(Pass(objects, legacy, rows, dryRun, attempts).0, legacy, key) == ReadView(objects, legacy, key))
            <==> forall i :: 0 <= i < |rows| && Visited(objects, legacy, rows, dryRun, attempts, i) ==>
                   !LeavesTruncated(objects, legacy, rows[i], dryRun, attempts[i])
  {
    var (final, verdicts) := Pass(objects, legacy, rows, dryRun, attempts);
    var reached := Reached(rows, verdicts);
    forall i | 0 <= i < |rows| ensures i < reached <==> Visited(objects, legacy, rows, dryRun, attempts, i) {
      ReachedExactly(objects, legacy, rows, dryRun, attempts, i);
    }
    forall i | 0 <= i < reached
      ensures ReadView(final, legacy, rows[i].key) == ReadView(objects, legacy, rows[i].key) <==>
              !LeavesTruncated(objects, legacy, rows[i], dryRun, attempts[i])
    {
      RowsAreIndependent(objects, legacy, rows, dryRun, attempts, i);
      VisitKeepsViewExactly(objects, legacy, rows[i], dryRun, attempts[i]);
      hide Visit, LeavesTruncated;
    }
    forall key | forall i :: 0 <= i < reached ==> rows[i].key != key
      ensures ReadView(final, legacy, key) == ReadView(objects, legacy, key)
    {
      UnreachedKeysStay(objects, legacy, rows, dryRun, attempts, key);
    }
    hide Pass, ReadView, LeavesTruncated, Visited;
    if forall i :: 0 <= i < reached ==> !LeavesTruncated(objects, legacy, rows[i], dryRun, attempts[i]) {
      forall key ensures ReadView(final, legacy, key) == ReadView(objects, legacy, key) {
        if i :| 0 <= i < reached && rows[i].key == key {
        }
      }
    }
  }

  /** A download that changes: half a file was stored and reading its size raised. */
  lemma TruncatedObjectStays()
    ensures var legacy := map["a" := [1 as Byte, 2]];
            var attempts := [Attempt(false, false, 1, true, false)];
            var (final, verdicts) := Pass(map[], legacy, [Row("a", 2)], false, attempts);
            && verdicts == [Failed]
            && ReadView(map[], legacy, "a") == Some([1, 2]) && ReadView(final, legacy, "a") == Some([1])
  {
    var content := [1 as Byte, 2];
    var legacy := map["a" := content];
    var rows, attempts := [Row("a", 2)], [Attempt(false, false, 1, true, false)];
    assert content[..1] == [1];
    assert Visit(map[], legacy, rows[0], false, attempts[0]) == (map["a" := [1 as Byte]], Some(Failed));
    assert rows[1..] == [] && attempts[1..] == [];
  }

  lemma {:induction false} UnreachedKeysStay(objects: Blobs, source: Blobs, rows: seq<Row>, dryRun: bool,
                                             attempts: seq<Attempt>, key: Key)
    requires |attempts| == |rows|
    requires forall i :: 0 <= i < Reached(rows, Pass(objects, source, rows, dryRun, attempts).1) ==> rows[i].key != key
    ensures var final := Pass(objects, source, rows, dryRun, attempts).0;
            (key in final <==> key in objects) && (key in objects ==> final[key] == objects[key])
    decreases |rows|
  {
    if rows != [] {
      VisitIsLocal(objects, source, rows[0], dryRun, attempts[0], key);
      var (after, verdict) := Visit(objects, source, rows[0], dryRun, attempts[0]);
      if verdict.Some? {
        hide Visit;
        var rest := Pass(after, source, rows[1..], dryRun, attempts[1..]).1;
        forall i | 0 <= i < Reached(rows[1..], rest) ensures rows[1..][i].key != key {
          assert rows[1..][i] == rows[i + 1];
        }
        UnreachedKeysStay(after, source, rows[1..], dryRun, attempts[1..], key);
      }
    }
  }

  // ----- The verdicts -----

  /** Every row a real run counts as copied is in the object store with its recorded size and content. */
  lemma CopiedMeansPresent(objects: Blobs, source: Blobs, rows: seq<Row>, attempts: seq<Attempt>, i: nat)
    requires |attempts| == |rows| && UniqueKeys(rows)
    requires i < |Pass(objects, source, rows, false, attempts).1|
    ensures var (final, verdicts) := Pass(objects, source, rows, false, attempts);
            verdicts[i] == Copied ==>
              && rows[i].key in final && rows[i].key in source
              && final[rows[i].key] == source[rows[i].key]
              && |final[rows[i].key]| == rows[i].size
  {
    RowsAreIndependent(objects, source, rows, false, attempts, i);
  }

  /** A dry run changes nothing. */
  lemma {:induction false} DryRunChangesNothing(objects: Blobs, source: Blobs, rows: seq<Row>, attempts: seq<Attempt>)
    requires |attempts| == |rows|
    ensures Pass(objects, source, rows, true, attempts).0 == objects
    decreases |rows|
  {
    if rows != [] {
      DryRunChangesNothing(objects, source, rows[1..], attempts[1..]);
    }
  }

  predicate FailureFree(attempt: Attempt, size: nat) {
    !attempt.existsRaises && !attempt.uploadRaises && attempt.stored >= size && !attempt.sizeRaises
  }

  lemma DryVisitForecasts(objects: Blobs, source: Blobs, row: Row, attempt: Attempt)
    requires FailureFree(attempt, row.size)
    ensures Visit(objects, source, row, true, attempt).1 == Visit(objects, source, row, false, attempt).1
    ensures Visit(objects, source, row, true, attempt).1.Some?
  {
  }

  /** A dry run reports what a run without failures then does, row by row. */
  lemma DryRunForecasts(objects: Blobs, source: Blobs, rows: seq<Row>, attempts: seq<Attempt>)
    requires |attempts| == |rows| && UniqueKeys(rows)
    requires forall i :: 0 <= i < |rows| ==> FailureFree(attempts[i], rows[i].size)
    ensures Pass(objects, source, rows, true, attempts).1 == Pass(objects, source, rows, false, attempts).1
    ensures |Pass(objects, source, rows, false, attempts).1| == |rows|
  {
    hide Pass, Visit, FailureFree;
    var dry, actual := Pass(objects, source, rows, true, attempts).1, Pass(objects, source, rows, false, attempts).1;
    forall i | 0 <= i < |rows|
      ensures Visit(objects, source, rows[i], true, attempts[i]).1 == Visit(objects, source, rows[i], false, attempts[i]).1
      ensures Visit(objects, source, rows[i], true, attempts[i]).1.Some?
    {
      DryVisitForecasts(objects, source, rows[i], attempts[i]);
    }
    if |dry| < |rows| {
      RowsAreIndependent(objects, source, rows, true, attempts, |dry|);
    }
    if |actual| < |rows| {
      RowsAreIndependent(objects, source, rows, false, attempts, |actual|);
    }
    forall i | 0 <= i < |rows| ensures dry[i] == actual[i] {
      RowsAreIndependent(objects, source, rows, true, attempts, i);
      RowsAreIndependent(objects, source, rows, false, attempts, i);
    }
  }

  lemma RevisitOnlyRetriesFailures(objects: Blobs, final: Blobs, source: Blobs, row: Row, attempt: Attempt, again: Attempt)
    requires var own := Visit(objects, source, row, false, attempt).0;
             (row.key in final <==> row.key in own) && (row.key in own ==> final[row.key] == own[row.key])
    requires Visit(objects, source, row, false, attempt).1.Some?
    ensures Visit(final, source, row, false, again).1 == Some(Copied) ==>
            Visit(objects, source, row, false, attempt).1 == Some(Failed)
  {
  }

  /** A later run copies, among the rows the earlier one finished, only those it reported as failed. */
  lemma RerunOnlyRetriesFailures(objects: Blobs, source: Blobs, rows: seq<Row>, attempts: seq<Attempt>,
                                 again: seq<Attempt>, i: nat)
    requires |attempts| == |rows| == |again| && UniqueKeys(rows)
    requires i < |Pass(objects, source, rows, false, attempts).1|
    requires i < |Pass(Pass(objects, source, rows, false, attempts).0, source, rows, false, again).1|
    ensures Pass(Pass(objects, source, rows, false, attempts).0, source, rows, false, again).1[i] == Copied ==>
            Pass(objects, source, rows, false, attempts).1[i] == Failed
  {
    hide Pass, Visit, UniqueKeys;
    var final := Pass(objects, source, rows, false, attempts).0;
    RowsAreIndependent(objects, source, rows, false, attempts, i);
    RowsAreIndependent(final, source, rows, false, again, i);
    RevisitOnlyRetriesFailures(objects, final, source, rows[i], attempts[i], again[i]);
  }

  /** After a pass that finished without a failure, a second one copies nothing and changes nothing. */
  lemma RerunAfterSuccessIsIdle(objects: Blobs, source: Blobs, rows: seq<Row>, attempts: seq<Attempt>, again: seq<Attempt>)
    requires |attempts| == |rows| == |again| && UniqueKeys(rows)
    requires var verdicts := Pass(objects, source, rows, false, attempts).1;
             |verdicts| == |rows| && Failed !in verdicts
    ensures var final := Pass(objects, source, rows, false, attempts).0;
            var (final', second) := Pass(final, source, rows, false, again);
            final' == final && Copied !in second
  {
    var (final, verdicts) := Pass(objects, source, rows, false, attempts);
    forall i | 0 <= i < |rows| ensures !Eligible(final, source, rows[i]) {
      RowsAreIndependent(objects, source, rows, false, attempts, i);
      assert verdicts[i] != Failed;
    }
    NothingEligibleIsIdle(final, source, rows, again);
  }

  lemma {:induction false} NothingEligibleIsIdle(objects: Blobs, source: Blobs, rows: seq<Row>, attempts: seq<Attempt>)
    requires |attempts| == |rows|
    requires forall i :: 0 <= i < |rows| ==> !Eligible(objects, source, rows[i])
    ensures Pass(objects, source, rows, false, attempts).0 == objects
    ensures Copied !in Pass(objects, source, rows, false, attempts).1
    decreases |rows|
  {
    if rows != [] {
      assert !Eligible(objects, source, rows[0]);
      forall i | 0 <= i < |rows[1..]| ensures !Eligible(objects, source, rows[1..][i]) {
        assert rows[1..][i] == rows[i + 1];
      }
      NothingEligibleIsIdle(objects, source, rows[1..], attempts[1..]);
    }
  }

  // ----- What the verdicts mean -----

  /** Each verdict, over the whole run, by the stores before it and the store's behaviour for that row. */
  lemma VerdictsMeanWhatTheySay(objects: Blobs, source: Blobs, rows: seq<Row>, dryRun: bool, attempts: seq<Attempt>, i: nat)
    requires |attempts| == |rows| && UniqueKeys(rows)
    requires i < |Pass(objects, source, rows, dryRun, attempts).1|
    ensures
      var verdict := Pass(objects, source, rows, dryRun, attempts).1[i];
      var key := rows[i].key;
      && (verdict == SkippedExisting <==> key in objects)
      && (verdict == MissingSource <==> key !in objects && key !in source)
      && (verdict == SizeMismatch <==> key !in objects && key in source && |source[key]| != rows[i].size)
      && (verdict == Copied <==> Eligible(objects, source, rows[i]) && (dryRun || FailureFree(attempts[i], rows[i].size)))
      && (verdict == Failed ==> !dryRun && Eligible(objects, source, rows[i]) && !FailureFree(attempts[i], rows[i].size))
  {
    RowsAreIndependent(objects, source, rows, dryRun, attempts, i);
    hide Pass, UniqueKeys;
  }
}
