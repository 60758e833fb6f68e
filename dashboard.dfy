/**
 * The read-only figures of the "Dashboard" page: the per-service-centre RCA
 * summary and the users who never logged in. Every table is the one read
 * from its file, in file order.
 */
module Dashboard {
  import opened Tables

  // ---------------------------------------------------------------------
  // SC-wise RCA summary
  // ---------------------------------------------------------------------

  /** One line of the summary: RCA_Count and Users_Active. */
  datatype ScStats = ScStats(rcaCount: nat, usersActive: nat)

  /** What the grouping accumulates for one sc_name: its rows and its distinct updaters. */
  datatype ScGroup = ScGroup(count: nat, users: set<string>)

  /** The distinct sc_name values of the table. */
  function ScNames(table: seq<Rca>): set<string>
  {
    set i | 0 <= i < |table| :: table[i].scName
  }

  /** The number of rows whose sc_name is `sc`. */
  function CountSc(table: seq<Rca>, sc: string): nat
  {
    if table == [] then 0
    else CountSc(table[..|table| - 1], sc) + (if table[|table| - 1].scName == sc then 1 else 0)
  }

  /** The distinct updated_by values among the rows whose sc_name is `sc`. */
  function UsersOf(table: seq<Rca>, sc: string): set<string>
  {
    set i | 0 <= i < |table| && table[i].scName == sc :: table[i].updatedBy
  }

  /** One pass over the table, accumulating each row into the group of its sc_name. */
  function Groups(table: seq<Rca>): map<string, ScGroup>
  {
    if table == [] then map[]
    else
      var groups := Groups(table[..|table| - 1]);
      var row := table[|table| - 1];
      var g := if row.scName in groups then groups[row.scName] else ScGroup(0, {});
      groups[row.scName := ScGroup(g.count + 1, g.users + {row.updatedBy})]
  }

  /**
   * The summary: one entry per distinct sc_name, holding how many rows have
   * it and how many distinct users updated them.
   */
  function ScSummary(table: seq<Rca>): (summary: map<string, ScStats>)
    ensures summary.Keys == ScNames(table)
    ensures forall sc :: sc in summary ==>
      summary[sc] == ScStats(CountSc(table, sc), |UsersOf(table, sc)|)
  {
    GroupsMeaning(table);
    var groups := Groups(table);
    map sc | sc in groups :: ScStats(groups[sc].count, |groups[sc].users|)
  }

  /** The single pass computes, per group, exactly the rows and updaters of that sc_name. */
  lemma {:induction false} GroupsMeaning(table: seq<Rca>)
    ensures Groups(table).Keys == ScNames(table)
    ensures forall sc :: sc in Groups(table) ==>
      Groups(table)[sc] == ScGroup(CountSc(table, sc), UsersOf(table, sc))
    decreases |table|
  {
    if table != [] {
      var init := table[..|table| - 1];
      var row := table[|table| - 1];
      assert table == init + [row];
      GroupsMeaning(init);
      SnocSets(init, row);
      forall sc | sc in Groups(table)
        ensures Groups(table)[sc] == ScGroup(CountSc(table, sc), UsersOf(table, sc))
      {
        if sc == row.scName && sc !in Groups(init) {
          CountScAbsent(init, sc);
        }
      }
    }
  }

  /** How the sc_names and the updaters of a group grow when a row is appended. */
  lemma SnocSets(init: seq<Rca>, row: Rca)
    ensures ScNames(init + [row]) == ScNames(init) + {row.scName}
    ensures UsersOf(init + [row], row.scName) == UsersOf(init, row.scName) + {row.updatedBy}
    ensures forall sc :: sc != row.scName ==> UsersOf(init + [row], sc) == UsersOf(init, sc)
    ensures row.scName !in ScNames(init) ==> UsersOf(init, row.scName) == {}
  {
    var table := init + [row];
    assert forall i :: 0 <= i < |init| ==> table[i] == init[i];
    assert table[|init|] == row;
    forall sc | sc != row.scName ensures UsersOf(table, sc) == UsersOf(init, sc) {
    }
  }

  lemma {:induction false} CountScAbsent(table: seq<Rca>, sc: string)
    requires sc !in ScNames(table)
    ensures CountSc(table, sc) == 0
    decreases |table|
  {
    if table != [] {
      var init := table[..|table| - 1];
      assert forall i :: 0 <= i < |init| ==> init[i] == table[i];
      assert table[|table| - 1].scName in ScNames(table);
      assert ScNames(init) <= ScNames(table);
      CountScAbsent(init, sc);
    }
  }

  /** The sum of `f` over a finite set of sc_names. */
  ghost function SumOver(keys: set<string>, f: string -> nat): nat
    decreases keys
  {
    if keys == {} then 0
    else
      NonEmptyHasElement(keys);
      var k :| k in keys;
      f(k) + SumOver(keys - {k}, f)
  }

  /** The sum does not depend on the order in which keys are taken out. */
  lemma {:induction false} SumOverRemove(keys: set<string>, f: string -> nat, x: string)
    requires x in keys
    ensures SumOver(keys, f) == f(x) + SumOver(keys - {x}, f)
    decreases keys
  {
    var k :| k in keys && SumOver(keys, f) == f(k) + SumOver(keys - {k}, f);
    if k != x {
      SumOverRemove(keys - {k}, f, x);
      SumOverRemove(keys - {x}, f, k);
      assert keys - {k} - {x} == keys - {x} - {k};
    }
  }

  lemma {:induction false} SumOverAgree(keys: set<string>, f: string -> nat, g: string -> nat)
    requires forall k :: k in keys ==> f(k) == g(k)
    ensures SumOver(keys, f) == SumOver(keys, g)
    decreases keys
  {
    if keys != {} {
      NonEmptyHasElement(keys);
      var k :| k in keys;
      SumOverRemove(keys, f, k);
      SumOverRemove(keys, g, k);
      SumOverAgree(keys - {k}, f, g);
    }
  }

  /** The RCA_Count column of a summary, as a function of sc_name. */
  function RcaCountOf(summary: map<string, ScStats>): string -> nat
  {
    sc => if sc in summary then summary[sc].rcaCount else 0
  }

  lemma {:induction false} SumRowsEmpty(keys: set<string>)
    ensures SumOver(keys, sc => CountSc([], sc)) == 0
    decreases keys
  {
    if keys != {} {
      NonEmptyHasElement(keys);
      var k :| k in keys;
      SumOverRemove(keys, sc => CountSc([], sc), k);
      SumRowsEmpty(keys - {k});
    }
  }

  lemma {:induction false} SumRowsSnoc(table: seq<Rca>, row: Rca, keys: set<string>)
    ensures SumOver(keys, sc => CountSc(table + [row], sc))
         == SumOver(keys, sc => CountSc(table, sc)) + (if row.scName in keys then 1 else 0)
    decreases keys
  {
    if keys != {} {
      NonEmptyHasElement(keys);
      var k :| k in keys;
      SumOverRemove(keys, sc => CountSc(table + [row], sc), k);
      SumOverRemove(keys, sc => CountSc(table, sc), k);
      assert (table + [row])[..|table|] == table;
      SumRowsSnoc(table, row, keys - {k});
    }
  }

  lemma {:induction false} SumRowsCovers(table: seq<Rca>, keys: set<string>)
    requires ScNames(table) <= keys
    ensures SumOver(keys, sc => CountSc(table, sc)) == |table|
    decreases |table|
  {
    if table == [] {
      SumRowsEmpty(keys);
    } else {
      var init := table[..|table| - 1];
      var row := table[|table| - 1];
      assert table == init + [row];
      assert forall i :: 0 <= i < |init| ==> init[i] == table[i];
      assert ScNames(init) <= ScNames(table);
      assert row.scName in ScNames(table);
      SumRowsCovers(init, keys);
      SumRowsSnoc(init, row, keys);
    }
  }

  /** Every row is counted in exactly one group: the RCA_Count column sums to the table length. */
  lemma SummaryCountsSumToLength(table: seq<Rca>)
    ensures SumOver(ScSummary(table).Keys, RcaCountOf(ScSummary(table))) == |table|
  {
    var summary := ScSummary(table);
    SumOverAgree(summary.Keys, RcaCountOf(summary), sc => CountSc(table, sc));
    SumRowsCovers(table, summary.Keys);
  }

  // ---------------------------------------------------------------------
  // Users who never logged in
  // ---------------------------------------------------------------------

  /** The emails that appear in the login audit. */
  function LoggedEmails(audit: seq<AuditEntry>): set<string>
  {
    set i | 0 <= i < |audit| :: audit[i].email
  }

  /**
   * The users whose email is absent from the login audit, in user-table
   * order: each such row as often as the user table holds it, no other row.
   */
  function NeverLogged(users: seq<User>, audit: seq<AuditEntry>): (out: seq<User>)
    ensures forall u :: multiset(out)[u] == if u.email in LoggedEmails(audit) then 0 else multiset(users)[u]
    ensures |out| <= |users|
  {
    if users == [] then []
    else
      assert users == [users[0]] + users[1..];
      (if users[0].email in LoggedEmails(audit) then [] else [users[0]]) + NeverLogged(users[1..], audit)
  }
}
