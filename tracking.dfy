/**
 * The "Track" page: for each entered line, the RCA rows of that AWB, newest
 * first, or the "No RCA found" notice when there are none. The table is the
 * one read from the RCA file, in file order.
 */
module Tracking {
  import opened Tables

  /** What the page shows for one entered line. */
  datatype TrackOutcome = NoRcaFound | Found(rows: seq<Rca>)

  /** The rows of `awb`, in table order (the boolean-mask filter). */
  function RowsOf(table: seq<Rca>, awb: string): seq<Rca>
  {
    if table == [] then []
    else (if table[0].awb == awb then [table[0]] else []) + RowsOf(table[1..], awb)
  }

  /** Timestamps never increase along `s`. */
  predicate NewestFirst(s: seq<Rca>)
  {
    forall i, j :: 0 <= i < j < |s| ==> s[i].updatedOn >= s[j].updatedOn
  }

  /** Puts `x` into the newest-first sequence `s` before the first row not newer than it. */
  function InsertNewestFirst(x: Rca, s: seq<Rca>): (r: seq<Rca>)
    requires NewestFirst(s)
    ensures NewestFirst(r)
    ensures multiset(r) == multiset(s) + multiset{x}
  {
    if s == [] || x.updatedOn >= s[0].updatedOn then [x] + s
    else
      var rest := InsertNewestFirst(x, s[1..]);
      assert s == [s[0]] + s[1..];
      HeadStaysFirst(s[0], x, s[1..], rest);
      [s[0]] + rest
  }

  lemma HeadStaysFirst(head: Rca, x: Rca, tail: seq<Rca>, rest: seq<Rca>)
    requires NewestFirst([head] + tail)
    requires head.updatedOn > x.updatedOn
    requires NewestFirst(rest)
    requires multiset(rest) == multiset(tail) + multiset{x}
    ensures NewestFirst([head] + rest)
  {
    forall j | 0 <= j < |rest| ensures head.updatedOn >= rest[j].updatedOn {
      assert rest[j] in multiset(rest);
      if rest[j] != x {
        assert rest[j] in multiset(tail);
        assert rest[j] in tail;
        var k :| 0 <= k < |tail| && tail[k] == rest[j];
        assert ([head] + tail)[0] == head && ([head] + tail)[k + 1] == tail[k];
      }
    }
  }

  /**
   * Sorting by updated_on descending. The library sort is not stable, so the
   * contract fixes only the order of the timestamps and the rows present.
   */
  function SortNewestFirst(s: seq<Rca>): (r: seq<Rca>)
    ensures NewestFirst(r)
    ensures multiset(r) == multiset(s)
  {
    if s == [] then []
    else
      assert s == [s[0]] + s[1..];
      InsertNewestFirst(s[0], SortNewestFirst(s[1..]))
  }

  /** Tracking one line: the AWB's rows sorted newest first, or the notice if it has none. */
  function TrackAwb(table: seq<Rca>, awb: string): (out: TrackOutcome)
    ensures out.NoRcaFound? <==> forall i :: 0 <= i < |table| ==> table[i].awb != awb
    ensures out.Found? ==>
      && NewestFirst(out.rows)
      && multiset(out.rows) == multiset(RowsOf(table, awb))
      && forall r :: r in out.rows ==> r.awb == awb
  {
    var rows := RowsOf(table, awb);
    RowsOfExact(table, awb);
    if rows == [] then
      assert forall i :: 0 <= i < |table| ==> table[i] !in multiset(rows);
      NoRcaFound
    else
      var sorted := SortNewestFirst(rows);
      assert forall r :: r in sorted ==> r in multiset(rows);
      Found(sorted)
  }

  /** The "Track" button: one outcome per entered line, in order, blank and repeated lines included. */
  function TrackAll(table: seq<Rca>, lines: seq<string>): (out: seq<(string, TrackOutcome)>)
    ensures |out| == |lines|
    ensures forall i :: 0 <= i < |lines| ==> out[i] == (lines[i], TrackAwb(table, lines[i]))
  {
    seq(|lines|, i requires 0 <= i < |lines| => (lines[i], TrackAwb(table, lines[i])))
  }

  /**
   * The filter keeps exactly the rows of `awb`, each as often as the table
   * holds it, and no others.
   */
  lemma {:induction false} RowsOfExact(table: seq<Rca>, awb: string)
    ensures forall r :: multiset(RowsOf(table, awb))[r] == if r.awb == awb then multiset(table)[r] else 0
  {
    if table != [] {
      RowsOfExact(table[1..], awb);
      assert table == [table[0]] + table[1..];
    }
  }
}
