/** The cascade reset run before a save: the columns of the parent's table
    that held a value before but whose locations are no longer selected are
    cleared for the person, and so, recursively, is every table named after
    a cleared column. Every database failure the reset meets is caught and
    ends only the branch it happened in; which statements fail is given as
    a set of statements. */
module CascadeReset {
  import opened Wrappers
  import opened RawValues
  import opened Schema
  import opened SelectionStore

  /** The statements of the reset that can fail without aborting it. */
  datatype Stmt =
    | Count(table: string, column: string)   // SELECT COUNT(*) ... WHERE [column] IS NOT NULL
    | Probe(table: string)                   // the column lookup of a descendant table
    | Update(table: string)                  // UPDATE [table] SET ... = DEFAULT WHERE personId = ...

  /** The columns the schema query lists for a table: none for a missing
      table, and never the two reserved ones. */
  function ColumnsOf(db: Db, t: string): (r: seq<string>)
    ensures t !in db ==> r == []
    ensures forall c | c in r :: t in db && HasColumn(db[t], c) && !IsReserved(c)
  {
    if t in db then DataColumns(db[t].columns) else []
  }

  /** Some person's row holds a non-NULL value in the column. */
  predicate NonNullSomewhere(table: Table, c: string) {
    exists p | p in table.rows :: c in table.rows[p] && table.rows[p][c] != NullV
  }

  /** `GetColumnsNotNullAsync`: the table's columns that hold a value in
      any row, of any person; a count that fails reads as -1 and leaves its
      column out. */
  function ColumnsNotNull(db: Db, t: string, faults: set<Stmt>): (r: seq<string>)
    ensures forall c :: c in r <==> c in ColumnsOf(db, t) && Count(t, c) !in faults && NonNullSomewhere(db[t], c)
  {
    Keep(db, t, ColumnsOf(db, t), faults)
  }

  function Keep(db: Db, t: string, cols: seq<string>, faults: set<Stmt>): (r: seq<string>)
    requires t in db || |cols| == 0
    ensures forall c :: c in r <==> c in cols && Count(t, c) !in faults && NonNullSomewhere(db[t], c)
  {
    if |cols| == 0 then []
    else
      var c := cols[0];
      assert forall x | x in cols :: x == c || x in cols[1..];
      (if Count(t, c) !in faults && NonNullSomewhere(db[t], c) then [c] else []) + Keep(db, t, cols[1..], faults)
  }

  /** `GetSelectedLocation`: the names of the locations whose ids the
      current selection lists, in taxonomy order. */
  function SelectedNames(tax: seq<Location>, current: seq<(int, int)>): (r: seq<string>)
    ensures forall n :: n in r <==> exists l | l in tax :: l.name == n && exists k | 0 <= k < |current| :: current[k].1 == l.id
  {
    if |tax| == 0 then []
    else
      var l := tax[0];
      assert forall x | x in tax :: x == l || x in tax[1..];
      (if exists k | 0 <= k < |current| :: current[k].1 == l.id then [l.name] else []) + SelectedNames(tax[1..], current)
  }

  /** `r` holds each entry of `xs` that is not in `ys` as often as `xs`
      does, and no entry of `ys`. */
  ghost predicate KeepsCounts(xs: seq<string>, ys: seq<string>, r: seq<string>) {
    forall x :: multiset(r)[x] == if x in ys then 0 else multiset(xs)[x]
  }

  /** The `Where(... !Contains ...)` filter: the entries of `xs` not in
      `ys`, in their order, each as often as it occurs in `xs`. */
  function Without(xs: seq<string>, ys: seq<string>): (r: seq<string>)
    ensures forall x :: x in r <==> x in xs && x !in ys
    ensures KeepsCounts(xs, ys, r)
  {
    if |xs| == 0 then []
    else
      assert forall x | x in xs :: x == xs[0] || x in xs[1..];
      assert xs == [xs[0]] + xs[1..];
      (if xs[0] in ys then [] else [xs[0]]) + Without(xs[1..], ys)
  }

  /** The filter keeps order: filtering a concatenation filters each part
      and concatenates the results. */
  lemma {:induction false} WithoutAppend(xs: seq<string>, zs: seq<string>, ys: seq<string>)
    ensures Without(xs + zs, ys) == Without(xs, ys) + Without(zs, ys)
    decreases |xs|
  {
    if |xs| == 0 {
      assert xs + zs == zs;
    } else {
      var head := if xs[0] in ys then [] else [xs[0]];
      SplitHead(xs, zs);
      WithoutAppend(xs[1..], zs, ys);
      Associative(head, Without(xs[1..], ys), Without(zs, ys));
    }
  }

  lemma SplitHead(xs: seq<string>, zs: seq<string>)
    requires |xs| > 0
    ensures (xs + zs)[0] == xs[0]
    ensures (xs + zs)[1..] == xs[1..] + zs
  {
  }

  lemma Associative(a: seq<string>, b: seq<string>, c: seq<string>)
    ensures a + (b + c) == (a + b) + c
  {
  }

  /** The stale set: columns that held a value before and whose locations
      are not selected now. */
  function StaleColumns(db: Db, tax: seq<Location>, t: string, current: seq<(int, int)>, faults: set<Stmt>): (r: seq<string>)
    ensures forall c :: c in r <==> c in ColumnsNotNull(db, t, faults) && c !in SelectedNames(tax, current)
  {
    Without(ColumnsNotNull(db, t, faults), SelectedNames(tax, current))
  }

  lemma StaleAreColumns(db: Db, tax: seq<Location>, t: string, current: seq<(int, int)>, faults: set<Stmt>)
    ensures forall c | c in StaleColumns(db, tax, t, current, faults) :: c in ColumnsOf(db, t)
  {
    var stale := StaleColumns(db, tax, t, current, faults);
    assert forall c | c in stale :: c in ColumnsNotNull(db, t, faults);
  }

  // ---------------------------------------------------------------- clearing one row

  /** The person's row after `SET [c] = DEFAULT` for each listed column
      (no column declares a default, so each becomes NULL). */
  function ClearRow(row: Row, cols: seq<string>): (r: Row)
    ensures r.Keys == row.Keys
    ensures forall c | c in row :: r[c] == (if c in cols then NullV else row[c])
  {
    map c | c in row :: if c in cols then NullV else row[c]
  }

  /** `UPDATE [t] SET ... WHERE personId = person`: only that person's row
      of that table changes, and in it only the listed columns. */
  function Clear(db: Db, t: string, person: int, cols: seq<string>): (r: Db)
    ensures SameSchema(db, r)
    ensures forall u | u in db && u != t :: r[u] == db[u]
    ensures forall u | u in db :: r[u].rows.Keys == db[u].rows.Keys
    ensures forall u, p | u in db && p in db[u].rows && p != person :: r[u].rows[p] == db[u].rows[p]
    ensures t in db && person in db[t].rows ==> r[t].rows[person] == ClearRow(db[t].rows[person], cols)
    ensures t !in db || person !in db[t].rows ==> r == db
  {
    if t in db && person in db[t].rows then
      db[t := Table(db[t].columns, db[t].rows[person := ClearRow(db[t].rows[person], cols)])]
    else db
  }

  // ---------------------------------------------------------------- the recursion

  /** A termination witness: every column of a table that names a table
      names one of lower rank. On data where a table reaches itself through
      its columns, the source recurses without end. */
  predicate Ordered(db: Db, rank: map<string, nat>) {
    forall t | t in db :: t in rank && forall c | c in ColumnsOf(db, t) && c in db :: c in rank && rank[c] < rank[t]
  }

  function Height(db: Db, rank: map<string, nat>, t: string): nat {
    if t in db && t in rank then rank[t] + 1 else 0
  }

  lemma OrderedSameSchema(a: Db, b: Db, rank: map<string, nat>)
    requires SameSchema(a, b) && Ordered(a, rank)
    ensures Ordered(b, rank)
    ensures forall t :: Height(a, rank, t) == Height(b, rank, t)
  {
    assert forall t | t in a :: ColumnsOf(a, t) == ColumnsOf(b, t);
  }

  lemma ColumnIsLower(db: Db, rank: map<string, nat>, t: string, c: string)
    requires Ordered(db, rank) && c in ColumnsOf(db, t)
    ensures Height(db, rank, c) < Height(db, rank, t)
  {
  }

  /** `ResetTableFilteredColumnsAsync`. With known columns, those are
      cleared; without, the table's columns are looked up, and a missing
      table, a table without columns or a failed lookup ends the branch. A
      failed UPDATE ends it before any recursion; otherwise each cleared
      column is reset in turn as a table of its own, with no known
      columns. */
  function ResetFiltered(db: Db, rank: map<string, nat>, person: int, t: string, known: seq<string>, faults: set<Stmt>): (r: Db)
    requires Ordered(db, rank)
    requires forall c | c in known :: c in ColumnsOf(db, t)
    ensures SameSchema(db, r)
    ensures forall u | u in db :: r[u].rows.Keys == db[u].rows.Keys
    ensures forall u, p | u in db && p in db[u].rows && p != person :: r[u].rows[p] == db[u].rows[p]
    ensures Update(t) in faults ==> r == db
    ensures |known| == 0 && Probe(t) in faults ==> r == db
    decreases Height(db, rank, t), 1
  {
    var cols := if |known| > 0 then known else ColumnsOf(db, t);
    if |cols| == 0 || (|known| == 0 && Probe(t) in faults) then db
    else if Update(t) in faults || t !in db then db
    else
      var cleared := Clear(db, t, person, cols);
      OrderedSameSchema(db, cleared, rank);
      ResetEach(cleared, rank, person, t, cols, faults)
  }

  /** The recursive loop over the cleared columns of table `t`. */
  function ResetEach(db: Db, rank: map<string, nat>, person: int, t: string, cols: seq<string>, faults: set<Stmt>): (r: Db)
    requires Ordered(db, rank)
    requires forall c | c in cols :: c in ColumnsOf(db, t)
    ensures SameSchema(db, r)
    ensures forall u | u in db :: r[u].rows.Keys == db[u].rows.Keys
    ensures forall u, p | u in db && p in db[u].rows && p != person :: r[u].rows[p] == db[u].rows[p]
    decreases Height(db, rank, t), 0, |cols|
  {
    if |cols| == 0 then db
    else
      ColumnIsLower(db, rank, t, cols[0]);
      var first := ResetFiltered(db, rank, person, cols[0], [], faults);
      OrderedSameSchema(db, first, rank);
      assert forall c | c in cols[1..] :: c in ColumnsOf(first, t) by {
        assert forall c | c in cols[1..] :: c in cols;
        assert ColumnsOf(first, t) == ColumnsOf(db, t);
      }
      ResetEach(first, rank, person, t, cols[1..], faults)
  }

  /** `ResetTableColumnsAsync`: clear the stale columns of the parent's
      table, and below them; nothing when none is stale. */
  function ResetTableColumns(db: Db, rank: map<string, nat>, tax: seq<Location>, parent: string, current: seq<(int, int)>, person: int, faults: set<Stmt>): (r: Db)
    requires Ordered(db, rank)
    ensures SameSchema(db, r)
    ensures forall u | u in db :: r[u].rows.Keys == db[u].rows.Keys
    ensures forall u, p | u in db && p in db[u].rows && p != person :: r[u].rows[p] == db[u].rows[p]
    ensures |StaleColumns(db, tax, parent, current, faults)| == 0 ==> r == db
  {
    var stale := StaleColumns(db, tax, parent, current, faults);
    StaleAreColumns(db, tax, parent, current, faults);
    if |stale| > 0 then ResetFiltered(db, rank, person, parent, stale, faults) else db
  }

  /** With known columns and an UPDATE that runs, the reset is the clear
      followed by the loop over those columns. */
  lemma ResetFilteredKnown(db: Db, rank: map<string, nat>, person: int, t: string, known: seq<string>, faults: set<Stmt>)
    requires Ordered(db, rank) && |known| > 0 && t in db && Update(t) !in faults
    requires forall c | c in known :: c in ColumnsOf(db, t)
    ensures var cleared := Clear(db, t, person, known);
      Ordered(cleared, rank) &&
      ResetFiltered(db, rank, person, t, known, faults) == ResetEach(cleared, rank, person, t, known, faults)
  {
    OrderedSameSchema(db, Clear(db, t, person, known), rank);
  }

  // ---------------------------------------------------------------- what the reset touches

  /** Table `u` is `t` or lies below one of `t`'s columns, read as tables. */
  predicate Within(db: Db, rank: map<string, nat>, t: string, u: string)
    requires Ordered(db, rank)
    decreases Height(db, rank, t)
  {
    t == u || (t in db && exists c | c in ColumnsOf(db, t) :: Within(db, rank, c, u))
  }

  /** Which tables lie below which depends only on the schema. */
  lemma {:induction false} WithinSameSchema(a: Db, b: Db, rank: map<string, nat>, t: string, u: string)
    requires SameSchema(a, b) && Ordered(a, rank)
    ensures Ordered(b, rank)
    ensures Within(a, rank, t, u) == Within(b, rank, t, u)
    decreases Height(a, rank, t)
  {
    OrderedSameSchema(a, b, rank);
    if t in a {
      assert ColumnsOf(a, t) == ColumnsOf(b, t);
      forall c | c in ColumnsOf(a, t)
        ensures Within(a, rank, c, u) == Within(b, rank, c, u)
      {
        ColumnIsLower(a, rank, t, c);
        WithinSameSchema(a, b, rank, c, u);
      }
    }
  }

  lemma {:induction false} WithinLower(db: Db, rank: map<string, nat>, t: string, u: string)
    requires Ordered(db, rank) && Within(db, rank, t, u)
    ensures Height(db, rank, u) <= Height(db, rank, t)
    decreases Height(db, rank, t)
  {
    if t != u {
      var c :| c in ColumnsOf(db, t) && Within(db, rank, c, u);
      ColumnIsLower(db, rank, t, c);
      WithinLower(db, rank, c, u);
    }
  }

  /** Every cell survives with its value, except that a data column of
      `person`'s row may have become NULL: other persons, the reserved
      columns and the row sets are left alone. */
  predicate ClearsOnly(a: Db, b: Db, person: int) {
    SameSchema(a, b) &&
    (forall u | u in a :: b[u].rows.Keys == a[u].rows.Keys) &&
    forall u, p | u in a && p in a[u].rows ::
      b[u].rows[p].Keys == a[u].rows[p].Keys &&
      forall c | c in a[u].rows[p] ::
        b[u].rows[p][c] == a[u].rows[p][c] || (p == person && !IsReserved(c) && b[u].rows[p][c] == NullV)
  }

  /** Clearing keeps every row's columns, so `SELECT *` rows still fit. */
  lemma ClearsOnlyWellFormed(a: Db, b: Db, person: int)
    requires ClearsOnly(a, b, person) && WellFormed(a)
    ensures WellFormed(b)
  {
    forall t | t in b
      ensures RowsFit(b[t])
    {
      assert RowKeys(b[t]) == RowKeys(a[t]);
    }
  }

  lemma ClearsOnlyRefl(db: Db, person: int)
    ensures ClearsOnly(db, db, person)
  {
  }

  lemma ClearsOnlyTrans(a: Db, b: Db, c: Db, person: int)
    requires ClearsOnly(a, b, person) && ClearsOnly(b, c, person)
    ensures ClearsOnly(a, c, person)
  {
  }

  lemma ClearClearsOnly(db: Db, t: string, person: int, cols: seq<string>)
    requires forall c | c in cols :: !IsReserved(c)
    ensures ClearsOnly(db, Clear(db, t, person, cols), person)
  {
  }

  lemma {:induction false} ResetFilteredClearsOnly(db: Db, rank: map<string, nat>, person: int, t: string, known: seq<string>, faults: set<Stmt>)
    requires Ordered(db, rank)
    requires forall c | c in known :: c in ColumnsOf(db, t)
    ensures ClearsOnly(db, ResetFiltered(db, rank, person, t, known, faults), person)
    decreases Height(db, rank, t), 2, 0
  {
    var cols := if |known| > 0 then known else ColumnsOf(db, t);
    if |cols| == 0 || (|known| == 0 && Probe(t) in faults) || Update(t) in faults || t !in db {
      ClearsOnlyRefl(db, person);
    } else {
      ClearThenEachClearsOnly(db, rank, person, t, cols, faults);
    }
  }

  lemma {:induction false} ClearThenEachClearsOnly(db: Db, rank: map<string, nat>, person: int, t: string, cols: seq<string>, faults: set<Stmt>)
    requires Ordered(db, rank)
    requires forall c | c in cols :: c in ColumnsOf(db, t)
    ensures ClearsOnly(db, ResetEach(Clear(db, t, person, cols), rank, person, t, cols, faults), person)
    decreases Height(db, rank, t), 1, 0
  {
    var cleared := Clear(db, t, person, cols);
    ClearClearsOnly(db, t, person, cols);
    OrderedSameSchema(db, cleared, rank);
    assert ColumnsOf(cleared, t) == ColumnsOf(db, t);
    var r := ResetEach(cleared, rank, person, t, cols, faults);
    ResetEachClearsOnly(cleared, rank, person, t, cols, faults);
    ClearsOnlyTrans(db, cleared, r, person);
  }

  lemma {:induction false} ResetEachClearsOnly(db: Db, rank: map<string, nat>, person: int, t: string, cols: seq<string>, faults: set<Stmt>)
    requires Ordered(db, rank)
    requires forall c | c in cols :: c in ColumnsOf(db, t)
    ensures ClearsOnly(db, ResetEach(db, rank, person, t, cols, faults), person)
    decreases Height(db, rank, t), 0, |cols|
  {
    if |cols| > 0 {
      ColumnIsLower(db, rank, t, cols[0]);
      var first := ResetFiltered(db, rank, person, cols[0], [], faults);
      ResetFilteredClearsOnly(db, rank, person, cols[0], [], faults);
      OrderedSameSchema(db, first, rank);
      assert ColumnsOf(first, t) == ColumnsOf(db, t);
      ResetEachClearsOnly(first, rank, person, t, cols[1..], faults);
      ClearsOnlyTrans(db, first, ResetEach(first, rank, person, t, cols[1..], faults), person);
    }
  }

  /** A reset starting at `t` changes no table outside `t`'s subtree. */
  lemma {:induction false} ResetFilteredFrame(db: Db, rank: map<string, nat>, person: int, t: string, known: seq<string>, faults: set<Stmt>, u: string)
    requires Ordered(db, rank)
    requires forall c | c in known :: c in ColumnsOf(db, t)
    requires u in db && !Within(db, rank, t, u)
    ensures ResetFiltered(db, rank, person, t, known, faults)[u] == db[u]
    decreases Height(db, rank, t), 1
  {
    var cols := if |known| > 0 then known else ColumnsOf(db, t);
    if |cols| == 0 || (|known| == 0 && Probe(t) in faults) || Update(t) in faults || t !in db {
    } else {
      var cleared := Clear(db, t, person, cols);
      OrderedSameSchema(db, cleared, rank);
      forall c | c in cols
        ensures !Within(cleared, rank, c, u)
      {
        WithinSameSchema(db, cleared, rank, c, u);
      }
      ResetEachFrame(cleared, rank, person, t, cols, faults, u);
    }
  }

  lemma {:induction false} ResetEachFrame(db: Db, rank: map<string, nat>, person: int, t: string, cols: seq<string>, faults: set<Stmt>, u: string)
    requires Ordered(db, rank)
    requires forall c | c in cols :: c in ColumnsOf(db, t)
    requires u in db && forall c | c in cols :: !Within(db, rank, c, u)
    ensures ResetEach(db, rank, person, t, cols, faults)[u] == db[u]
    decreases Height(db, rank, t), 0, |cols|
  {
    if |cols| > 0 {
      ColumnIsLower(db, rank, t, cols[0]);
      var first := ResetFiltered(db, rank, person, cols[0], [], faults);
      ResetFilteredFrame(db, rank, person, cols[0], [], faults, u);
      OrderedSameSchema(db, first, rank);
      assert ColumnsOf(first, t) == ColumnsOf(db, t);
      forall c | c in cols[1..]
        ensures !Within(first, rank, c, u)
      {
        WithinSameSchema(db, first, rank, c, u);
      }
      ResetEachFrame(first, rank, person, t, cols[1..], faults, u);
    }
  }

  /** Every data column of `person`'s row of table `u` is NULL. */
  predicate Cleared(db: Db, u: string, person: int) {
    u in db && person in db[u].rows ==>
      forall c | c in ColumnsOf(db, u) && c in db[u].rows[person] :: db[u].rows[person][c] == NullV
  }

  lemma ClearedStays(a: Db, b: Db, u: string, person: int)
    requires ClearsOnly(a, b, person) && Cleared(a, u, person)
    ensures Cleared(b, u, person)
  {
    if u in a && person in a[u].rows {
      assert ColumnsOf(a, u) == ColumnsOf(b, u);
      forall c | c in ColumnsOf(b, u) && c in b[u].rows[person]
        ensures b[u].rows[person][c] == NullV
      {
        assert c in a[u].rows[person];
      }
    }
  }

  /** No column lookup and no UPDATE fails for `t` or any table below it. */
  ghost predicate FaultFree(db: Db, rank: map<string, nat>, t: string, faults: set<Stmt>)
    requires Ordered(db, rank)
  {
    forall u | Within(db, rank, t, u) :: Probe(u) !in faults && Update(u) !in faults
  }

  lemma FaultFreeSameSchema(a: Db, b: Db, rank: map<string, nat>, t: string, faults: set<Stmt>)
    requires SameSchema(a, b) && Ordered(a, rank) && FaultFree(a, rank, t, faults)
    ensures Ordered(b, rank) && FaultFree(b, rank, t, faults)
  {
    OrderedSameSchema(a, b, rank);
    forall u | Within(b, rank, t, u)
      ensures Probe(u) !in faults && Update(u) !in faults
    {
      WithinSameSchema(a, b, rank, t, u);
    }
  }

  lemma FaultFreeBelow(db: Db, rank: map<string, nat>, t: string, c: string, faults: set<Stmt>)
    requires Ordered(db, rank) && FaultFree(db, rank, t, faults) && c in ColumnsOf(db, t)
    ensures FaultFree(db, rank, c, faults)
  {
    forall u | Within(db, rank, c, u)
      ensures Probe(u) !in faults && Update(u) !in faults
    {
      assert Within(db, rank, t, u);
    }
  }

  /** A reset of a table with no known columns leaves the person's row NULL
      in every data column of every table in its subtree, as long as no
      statement of that subtree fails: failures elsewhere do not matter. */
  lemma {:induction false} ResetFilteredClearsSubtree(db: Db, rank: map<string, nat>, person: int, t: string, u: string, faults: set<Stmt>)
    requires Ordered(db, rank) && Within(db, rank, t, u) && FaultFree(db, rank, t, faults)
    ensures Cleared(ResetFiltered(db, rank, person, t, [], faults), u, person)
    decreases Height(db, rank, t), 1
  {
    var r := ResetFiltered(db, rank, person, t, [], faults);
    var cols := ColumnsOf(db, t);
    assert Within(db, rank, t, t);
    if t !in db || |cols| == 0 {
      assert u == t;
    } else {
      var cleared := Clear(db, t, person, cols);
      OrderedSameSchema(db, cleared, rank);
      ResetEachClearsOnly(cleared, rank, person, t, cols, faults);
      if u == t {
        assert Cleared(cleared, t, person);
        ClearedStays(cleared, r, t, person);
      } else {
        var c :| c in cols && Within(db, rank, c, u);
        FaultFreeBelow(db, rank, t, c, faults);
        FaultFreeSameSchema(db, cleared, rank, c, faults);
        WithinSameSchema(db, cleared, rank, c, u);
        ResetEachClearsSubtree(cleared, rank, person, t, cols, c, u, faults);
      }
    }
  }

  /** In the loop over `t`'s columns, a column whose subtree has no failing
      statement ends cleared below, whatever fails under its siblings. */
  lemma {:induction false} ResetEachClearsSubtree(db: Db, rank: map<string, nat>, person: int, t: string, cols: seq<string>, c: string, u: string, faults: set<Stmt>)
    requires Ordered(db, rank)
    requires forall x | x in cols :: x in ColumnsOf(db, t)
    requires c in cols && Within(db, rank, c, u) && FaultFree(db, rank, c, faults)
    ensures Cleared(ResetEach(db, rank, person, t, cols, faults), u, person)
    decreases Height(db, rank, t), 0, |cols|
  {
    ColumnIsLower(db, rank, t, cols[0]);
    var first := ResetFiltered(db, rank, person, cols[0], [], faults);
    var r := ResetEach(first, rank, person, t, cols[1..], faults);
    OrderedSameSchema(db, first, rank);
    assert ColumnsOf(first, t) == ColumnsOf(db, t);
    if c == cols[0] {
      ResetFilteredClearsSubtree(db, rank, person, c, u, faults);
      ResetEachClearsOnly(first, rank, person, t, cols[1..], faults);
      ClearedStays(first, r, u, person);
    } else {
      FaultFreeSameSchema(db, first, rank, c, faults);
      WithinSameSchema(db, first, rank, c, u);
      ResetEachClearsSubtree(first, rank, person, t, cols[1..], c, u, faults);
    }
  }

  // ---------------------------------------------------------------- the reset as a whole

  /** The person's row of the parent's table after the reset: the stale
      columns are NULL if the UPDATE ran, every other cell is as before. */
  predicate ParentRowReset(db: Db, r: Db, parent: string, person: int, stale: seq<string>, updated: bool) {
    parent in db && person in db[parent].rows ==>
      parent in r && person in r[parent].rows &&
      forall c | c in db[parent].rows[person] ::
        c in r[parent].rows[person] &&
        r[parent].rows[person][c] == (if c in stale && updated then NullV else db[parent].rows[person][c])
  }

  /** With known columns and an UPDATE that runs, the reset table's own row
      ends with exactly those columns NULL: the recursion below never comes
      back to it. */
  lemma KnownRowCleared(db: Db, rank: map<string, nat>, person: int, t: string, known: seq<string>, faults: set<Stmt>)
    requires Ordered(db, rank) && |known| > 0 && t in db && Update(t) !in faults
    requires forall c | c in known :: c in ColumnsOf(db, t)
    ensures ParentRowReset(db, ResetFiltered(db, rank, person, t, known, faults), t, person, known, true)
  {
    var cleared := Clear(db, t, person, known);
    ResetFilteredKnown(db, rank, person, t, known, faults);
    forall c | c in known
      ensures !Within(cleared, rank, c, t)
    {
      ColumnIsLower(db, rank, t, c);
      if Within(cleared, rank, c, t) {
        WithinLower(cleared, rank, c, t);
      }
    }
    ResetEachFrame(cleared, rank, person, t, known, faults, t);
  }

  /** The parent's row: the stale columns become NULL unless the UPDATE
      fails, and every other column, the still selected ones among them,
      keeps its value. */
  lemma ResetClearsStale(db: Db, rank: map<string, nat>, tax: seq<Location>, parent: string, current: seq<(int, int)>, person: int, faults: set<Stmt>)
    requires Ordered(db, rank)
    requires parent in db && person in db[parent].rows
    ensures ParentRowReset(db, ResetTableColumns(db, rank, tax, parent, current, person, faults), parent, person,
                           StaleColumns(db, tax, parent, current, faults), Update(parent) !in faults)
  {
    var stale := StaleColumns(db, tax, parent, current, faults);
    StaleAreColumns(db, tax, parent, current, faults);
    if |stale| > 0 && Update(parent) !in faults {
      KnownRowCleared(db, rank, person, parent, stale, faults);
    }
  }

  /** Only the parent's table and the subtrees of the stale columns can
      change, and in them only the person's data cells, and only to NULL. */
  lemma ResetStaysBelowStale(db: Db, rank: map<string, nat>, tax: seq<Location>, parent: string, current: seq<(int, int)>, person: int, faults: set<Stmt>)
    requires Ordered(db, rank)
    ensures var r := ResetTableColumns(db, rank, tax, parent, current, person, faults);
            ClearsOnly(db, r, person) &&
            forall u | u in db && u != parent && forall c | c in StaleColumns(db, tax, parent, current, faults) :: !Within(db, rank, c, u) ::
              r[u] == db[u]
  {
    var stale := StaleColumns(db, tax, parent, current, faults);
    StaleAreColumns(db, tax, parent, current, faults);
    if |stale| > 0 {
      ResetFilteredClearsOnly(db, rank, person, parent, stale, faults);
      if Update(parent) !in faults && parent in db {
        var cleared := Clear(db, parent, person, stale);
        ResetFilteredKnown(db, rank, person, parent, stale, faults);
        forall u | u in db && u != parent && forall c | c in stale :: !Within(db, rank, c, u)
          ensures ResetTableColumns(db, rank, tax, parent, current, person, faults)[u] == db[u]
        {
          forall c | c in stale
            ensures !Within(cleared, rank, c, u)
          {
            WithinSameSchema(db, cleared, rank, c, u);
          }
          ResetEachFrame(cleared, rank, person, parent, stale, faults, u);
        }
      }
    }
  }

  /** When the parent's UPDATE runs, every table below a stale column
      whose subtree has no failing statement ends with the person's row
      NULL in all its data columns, whatever fails under the other stale
      columns. */
  lemma ResetClearsBelowStale(db: Db, rank: map<string, nat>, tax: seq<Location>, parent: string, current: seq<(int, int)>, person: int, faults: set<Stmt>, c: string, u: string)
    requires Ordered(db, rank) && parent in db && Update(parent) !in faults
    requires c in StaleColumns(db, tax, parent, current, faults) && Within(db, rank, c, u) && FaultFree(db, rank, c, faults)
    ensures Cleared(ResetTableColumns(db, rank, tax, parent, current, person, faults), u, person)
  {
    var stale := StaleColumns(db, tax, parent, current, faults);
    StaleAreColumns(db, tax, parent, current, faults);
    var cleared := Clear(db, parent, person, stale);
    OrderedSameSchema(db, cleared, rank);
    ResetFilteredKnown(db, rank, person, parent, stale, faults);
    assert ResetTableColumns(db, rank, tax, parent, current, person, faults) == ResetFiltered(db, rank, person, parent, stale, faults);
    FaultFreeSameSchema(db, cleared, rank, c, faults);
    WithinSameSchema(db, cleared, rank, c, u);
    ResetEachClearsSubtree(cleared, rank, person, parent, stale, c, u, faults);
  }
}
