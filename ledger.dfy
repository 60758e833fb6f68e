/**
 * The RCA remark ledger: the table of remarks keyed by pandas row label, the
 * per-AWB capacity rule and the bulk "Submit RCA" loop.
 *
 * The table is a map from row label to record, and its length is the size of
 * the map. A new record is always written at the label equal to the current
 * length; when an eviction has removed a label other than the last one, that
 * label already exists and the write replaces the row stored there.
 */
module Ledger {
  import opened Tables

  /** At most this many remarks are kept per AWB. */
  const MaxRemarksPerAwb: nat := 10

  /** At most this many pasted lines are processed by one submit. */
  const MaxBatchLines: nat := 10000

  // ---------------------------------------------------------------------
  // Specification of the table and of one insertion
  // ---------------------------------------------------------------------

  /** The labels of the rows whose AWB is `awb`. */
  function AwbLabels(rows: map<int, Rca>, awb: string): set<int>
  {
    set k | k in rows && rows[k].awb == awb
  }

  /** The number of rows whose AWB is `awb`. */
  function CountAwb(rows: map<int, Rca>, awb: string): nat
  {
    |AwbLabels(rows, awb)|
  }

  /** Label `k` holds a row of `awb` whose timestamp is the least among that AWB's rows. */
  predicate IsOldest(rows: map<int, Rca>, awb: string, k: int)
  {
    && k in rows
    && rows[k].awb == awb
    && forall j :: j in rows && rows[j].awb == awb ==> rows[k].updatedOn <= rows[j].updatedOn
  }

  /**
   * What the capacity rule allows before a record for `awb` is written: no
   * eviction while the AWB has fewer than MaxRemarksPerAwb rows, otherwise the
   * eviction of one of its oldest rows (the sort is not stable, so any of
   * several rows with the least timestamp may be chosen).
   */
  predicate ValidEviction(rows: map<int, Rca>, awb: string, evicted: Option<int>)
  {
    if CountAwb(rows, awb) < MaxRemarksPerAwb then evicted == None
    else evicted.Some? && IsOldest(rows, awb, evicted.value)
  }

  /** The table after removing the evicted label, if any. */
  function Drop(rows: map<int, Rca>, evicted: Option<int>): map<int, Rca>
  {
    if evicted.Some? then rows - {evicted.value} else rows
  }

  /** One iteration of the submit loop: drop, then write `rec` at label `len(table)`. */
  function Step(rows: map<int, Rca>, rec: Rca, evicted: Option<int>): map<int, Rca>
  {
    var kept := Drop(rows, evicted);
    kept[|kept| := rec]
  }

  /** Rows labelled exactly 0 .. |rows|-1, as a table freshly read from CSV is. */
  ghost predicate Contiguous(rows: map<int, Rca>)
  {
    forall k :: k in rows <==> 0 <= k < |rows|
  }

  /** The table as loaded from a file: row i gets label i. */
  function {:induction false} TableRows(table: seq<Rca>): (rows: map<int, Rca>)
    ensures Contiguous(rows)
    ensures |rows| == |table|
    ensures forall i :: 0 <= i < |table| ==> i in rows && rows[i] == table[i]
    decreases |table|
  {
    if table == [] then map[]
    else
      var init := TableRows(table[..|table| - 1]);
      assert |table| - 1 !in init;
      init[|table| - 1 := table[|table| - 1]]
  }

  /** Every AWB has at most MaxRemarksPerAwb rows. */
  ghost predicate WithinCap(rows: map<int, Rca>)
  {
    forall awb :: CountAwb(rows, awb) <= MaxRemarksPerAwb
  }

  // ---------------------------------------------------------------------
  // Specification of a whole submit
  // ---------------------------------------------------------------------

  /** The number of pasted lines one submit processes. */
  function Processed(lines: seq<string>): (n: nat)
    ensures n <= MaxBatchLines && n <= |lines|
    ensures n == |lines| || n == MaxBatchLines
  {
    if |lines| <= MaxBatchLines then |lines| else MaxBatchLines
  }

  /**
   * The records a submit writes, one per processed line, in order: every
   * processed line (blank or repeated ones included) gives one record with the
   * shared form fields, the session's email and the clock reading taken for it.
   */
  function Batch(lines: seq<string>, form: RcaForm, email: string, clock: nat -> Time): (recs: seq<Rca>)
    ensures |recs| == Processed(lines)
    ensures forall i :: 0 <= i < |recs| ==>
      recs[i] == Rca(lines[i], form.scName, form.rcaType, form.emailSubject, form.remark, email, clock(i))
  {
    seq(Processed(lines), i requires 0 <= i < Processed(lines) =>
      Rca(lines[i], form.scName, form.rcaType, form.emailSubject, form.remark, email, clock(i)))
  }

  /** The table after writing `recs` one after another with the given evictions. */
  function Run(rows: map<int, Rca>, recs: seq<Rca>, evictions: seq<Option<int>>): map<int, Rca>
    requires |recs| == |evictions|
    decreases |recs|
  {
    if recs == [] then rows
    else Run(Step(rows, recs[0], evictions[0]), recs[1..], evictions[1..])
  }

  /** Each eviction of the run is one the capacity rule allows in the table the run has reached. */
  ghost predicate ValidRun(rows: map<int, Rca>, recs: seq<Rca>, evictions: seq<Option<int>>)
    decreases |recs|
  {
    && |recs| == |evictions|
    && (recs != [] ==>
         && ValidEviction(rows, recs[0].awb, evictions[0])
         && ValidRun(Step(rows, recs[0], evictions[0]), recs[1..], evictions[1..]))
  }

  // ---------------------------------------------------------------------
  // Lemmas
  // ---------------------------------------------------------------------

  lemma SubsetCard(a: set<int>, b: set<int>)
    requires a <= b
    ensures |a| <= |b|
  {
    assert b == a + (b - a);
    assert a * (b - a) == {};
  }

  /**
   * What one iteration does to the table: the new record is at label
   * len(table) taken after the drop; every other row keeps its label and
   * contents, except the evicted one, and no other label appears.
   */
  lemma StepFrame(rows: map<int, Rca>, rec: Rca, evicted: Option<int>)
    ensures var target := |Drop(rows, evicted)|;
      && target in Step(rows, rec, evicted)
      && Step(rows, rec, evicted)[target] == rec
      && (forall j :: j in Step(rows, rec, evicted) ==> j in rows || j == target)
      && (forall j :: j in rows && evicted != Some(j) && j != target ==>
            j in Step(rows, rec, evicted) && Step(rows, rec, evicted)[j] == rows[j])
      && (evicted.Some? && evicted.value != target ==> evicted.value !in Step(rows, rec, evicted))
  {
  }

  /**
   * On a table labelled 0 .. n-1: without an eviction the record is appended
   * at the fresh label n; evicting the last label puts the record back at that
   * label; evicting any other label makes the write replace the row at label
   * n-1, so that row is lost and the table shrinks by one.
   */
  lemma StepOnContiguous(rows: map<int, Rca>, rec: Rca, evicted: Option<int>)
    requires Contiguous(rows)
    requires evicted.Some? ==> evicted.value in rows
    ensures evicted.None? ==>
      && Contiguous(Step(rows, rec, evicted))
      && |Step(rows, rec, evicted)| == |rows| + 1
    ensures evicted == Some(|rows| - 1) ==>
      && Contiguous(Step(rows, rec, evicted))
      && |Step(rows, rec, evicted)| == |rows|
    ensures evicted.Some? && evicted.value != |rows| - 1 ==>
      && |Step(rows, rec, evicted)| == |rows| - 1
      && Step(rows, rec, evicted).Keys == rows.Keys - {evicted.value}
      && Step(rows, rec, evicted)[|rows| - 1] == rec
  {
    if evicted.Some? {
      var k := evicted.value;
      var kept := rows - {k};
      assert kept.Keys == rows.Keys - {k};
      assert |kept| == |rows| - 1;
      if k != |rows| - 1 {
        assert |rows| - 1 in kept;
        assert Step(rows, rec, evicted).Keys == kept.Keys;
      } else {
        assert |rows| - 1 !in kept;
      }
    } else {
      assert |rows| !in rows;
    }
  }

  /** One iteration changes each AWB's count by the capacity rule's bound. */
  lemma StepCount(rows: map<int, Rca>, rec: Rca, evicted: Option<int>, awb: string)
    requires ValidEviction(rows, rec.awb, evicted)
    ensures awb != rec.awb ==> CountAwb(Step(rows, rec, evicted), awb) <= CountAwb(rows, awb)
    ensures awb == rec.awb && CountAwb(rows, awb) < MaxRemarksPerAwb ==>
      CountAwb(Step(rows, rec, evicted), awb) <= CountAwb(rows, awb) + 1
    ensures awb == rec.awb && CountAwb(rows, awb) >= MaxRemarksPerAwb ==>
      CountAwb(Step(rows, rec, evicted), awb) <= CountAwb(rows, awb)
  {
    var kept := Drop(rows, evicted);
    var target := |kept|;
    var after := Step(rows, rec, evicted);
    var before := AwbLabels(rows, awb);
    var mid := AwbLabels(kept, awb);
    var last := AwbLabels(after, awb);
    assert mid <= before;
    SubsetCard(mid, before);
    if awb == rec.awb {
      assert last <= mid + {target};
      SubsetCard(last, mid + {target});
      if CountAwb(rows, awb) >= MaxRemarksPerAwb {
        var k := evicted.value;
        assert mid == before - {k};
        assert before == mid + {k};
      }
    } else {
      assert last <= mid;
      SubsetCard(last, mid);
    }
  }

  lemma {:induction false} RunSnoc(rows: map<int, Rca>, recs: seq<Rca>, evictions: seq<Option<int>>,
                                   rec: Rca, evicted: Option<int>)
    requires |recs| == |evictions|
    ensures Run(rows, recs + [rec], evictions + [evicted]) == Step(Run(rows, recs, evictions), rec, evicted)
    decreases |recs|
  {
    if recs == [] {
      assert (recs + [rec])[1..] == [];
    } else {
      assert (recs + [rec])[1..] == recs[1..] + [rec];
      assert (evictions + [evicted])[1..] == evictions[1..] + [evicted];
      RunSnoc(Step(rows, recs[0], evictions[0]), recs[1..], evictions[1..], rec, evicted);
    }
  }

  lemma {:induction false} ValidRunSnoc(rows: map<int, Rca>, recs: seq<Rca>, evictions: seq<Option<int>>,
                                        rec: Rca, evicted: Option<int>)
    requires ValidRun(rows, recs, evictions)
    requires ValidEviction(Run(rows, recs, evictions), rec.awb, evicted)
    ensures ValidRun(rows, recs + [rec], evictions + [evicted])
    decreases |recs|
  {
    if recs == [] {
      assert (recs + [rec])[1..] == [];
      assert (evictions + [evicted])[1..] == [];
    } else {
      assert (recs + [rec])[1..] == recs[1..] + [rec];
      assert (evictions + [evicted])[1..] == evictions[1..] + [evicted];
      ValidRunSnoc(Step(rows, recs[0], evictions[0]), recs[1..], evictions[1..], rec, evicted);
    }
  }

  /**
   * Over a whole submit, an AWB ends with at most the larger of its starting
   * count and MaxRemarksPerAwb rows: an AWB at or under the cap stays under it,
   * and one already above the cap never grows.
   */
  lemma {:induction false} RunCountBound(rows: map<int, Rca>, recs: seq<Rca>, evictions: seq<Option<int>>,
                                         awb: string)
    requires ValidRun(rows, recs, evictions)
    ensures CountAwb(Run(rows, recs, evictions), awb) <= Max(CountAwb(rows, awb), MaxRemarksPerAwb)
    decreases |recs|
  {
    if recs != [] {
      var next := Step(rows, recs[0], evictions[0]);
      StepCount(rows, recs[0], evictions[0], awb);
      RunCountBound(next, recs[1..], evictions[1..], awb);
    }
  }

  /** A submit on a table within the cap leaves it within the cap. */
  lemma SubmitKeepsCap(rows: map<int, Rca>, recs: seq<Rca>, evictions: seq<Option<int>>)
    requires ValidRun(rows, recs, evictions)
    requires WithinCap(rows)
    ensures WithinCap(Run(rows, recs, evictions))
  {
    forall awb ensures CountAwb(Run(rows, recs, evictions), awb) <= MaxRemarksPerAwb {
      RunCountBound(rows, recs, evictions, awb);
    }
  }

  /** Label `k` is in `found` and no label of `found` has an earlier timestamp. */
  predicate IsOldestAmong(rows: map<int, Rca>, found: set<int>, k: int)
  {
    && k in found
    && k in rows
    && forall j :: j in found && j in rows ==> rows[k].updatedOn <= rows[j].updatedOn
  }

  /** One step of the scan over the labels still to visit. */
  lemma ScanStep(rows: map<int, Rca>, awb: string, todo: set<int>, found: set<int>, k: int)
    requires found == AwbLabels(rows, awb) - todo
    requires k in todo
    ensures k in rows && rows[k].awb == awb ==>
      && AwbLabels(rows, awb) - (todo - {k}) == found + {k}
      && |found + {k}| == |found| + 1
    ensures !(k in rows && rows[k].awb == awb) ==> AwbLabels(rows, awb) - (todo - {k}) == found
  {
  }

  function Max(a: nat, b: nat): nat
  {
    if a < b then b else a
  }

  // ---------------------------------------------------------------------
  // The ledger object
  // ---------------------------------------------------------------------

  /** The RCA table and the deleted-remarks table held in memory by one page run. */
  class RcaLedger {
    var rows: map<int, Rca>
    var deleted: seq<DeletedRca>

    /** Both tables as read from their files. */
    constructor Load(table: seq<Rca>, deletedTable: seq<DeletedRca>)
      ensures rows == TableRows(table) && deleted == deletedTable
    {
      rows := TableRows(table);
      deleted := deletedTable;
    }

    /**
     * The rows of one AWB: how many there are and the label of one with the
     * least timestamp (None exactly when there are none).
     */
    method Existing(awb: string) returns (count: nat, oldest: Option<int>)
      ensures count == CountAwb(rows, awb)
      ensures oldest.None? <==> count == 0
      ensures oldest.Some? ==> IsOldest(rows, awb, oldest.value)
    {
      var table := rows;
      count, oldest := 0, None;
      var todo := table.Keys;
      ghost var found: set<int> := {};
      while todo != {}
        invariant todo <= table.Keys
        invariant found == AwbLabels(table, awb) - todo
        invariant count == |found|
        invariant oldest.None? <==> count == 0
        invariant oldest.Some? ==> IsOldestAmong(table, found, oldest.value)
        decreases todo
      {
        // Names an element of `todo`, the witness the choice below needs.
        ghost var some := Pick(todo);
        var k :| k in todo;
        ScanStep(table, awb, todo, found, k);
        if table[k].awb == awb {
          if oldest.None? || table[k].updatedOn < table[oldest.value].updatedOn {
            oldest := Some(k);
          }
          found := found + {k};
          count := count + 1;
        }
        todo := todo - {k};
      }
      assert found == AwbLabels(table, awb);
    }

    /**
     * One iteration of the submit loop: evict one oldest row of the AWB when it
     * already has MaxRemarksPerAwb or more, then write `rec` at label len(table).
     */
    method Insert(rec: Rca) returns (evicted: Option<int>)
      modifies this`rows
      ensures ValidEviction(old(rows), rec.awb, evicted)
      ensures rows == Step(old(rows), rec, evicted)
    {
      var count, oldest := Existing(rec.awb);
      evicted := None;
      if count >= MaxRemarksPerAwb {
        evicted := oldest;
        rows := rows - {oldest.value};
      }
      rows := rows[|rows| := rec];
    }

    /**
     * "Submit RCA": one insertion per processed line, in order, each seeing the
     * table as the earlier ones left it. `clock(i)` is the time read for the
     * i-th line. The deleted-remarks table is not touched.
     */
    method Submit(lines: seq<string>, form: RcaForm, email: string, clock: nat -> Time)
      returns (evictions: seq<Option<int>>)
      modifies this`rows
      ensures |evictions| == Processed(lines)
      ensures ValidRun(old(rows), Batch(lines, form, email, clock), evictions)
      ensures rows == Run(old(rows), Batch(lines, form, email, clock), evictions)
      ensures deleted == old(deleted)
    {
      var n := Processed(lines);
      ghost var batch := Batch(lines, form, email, clock);
      evictions := [];
      for i := 0 to n
        invariant |evictions| == i
        invariant ValidRun(old(rows), batch[..i], evictions)
        invariant rows == Run(old(rows), batch[..i], evictions)
      {
        var rec := Rca(lines[i], form.scName, form.rcaType, form.emailSubject, form.remark, email, clock(i));
        assert batch[..i + 1] == batch[..i] + [rec];
        var evicted := Insert(rec);
        RunSnoc(old(rows), batch[..i], evictions, rec, evicted);
        ValidRunSnoc(old(rows), batch[..i], evictions, rec, evicted);
        evictions := evictions + [evicted];
      }
      assert batch[..n] == batch;
    }
  }
}
