/** The write half of the selection store (`SaveLocationAsync`): each
    selected parent's child list is encoded into one mask, the mask is
    written as decimal text into the column named after the parent in the
    table named after the grandparent, and the person's row is marked live
    again (`IsDeleted = 0`). */
module SelectionStore {
  import opened Wrappers
  import opened RawValues
  import opened Bitmask
  import opened Schema

  /** The cell a `SELECT` would return, if the table, the person's row and
      the column all exist. */
  function Cell(db: Db, table: string, person: int, column: string): (r: Option<RawValue>)
    ensures r.Some? <==> table in db && person in db[table].rows && column in db[table].rows[person]
  {
    if table in db && person in db[table].rows && column in db[table].rows[person] then
      Some(db[table].rows[person][column])
    else None
  }

  // ---------------------------------------------------------------- upsert

  /** One `UPDATE … SET [column] = @Bitmask` or `INSERT` statement. */
  datatype Write = Write(table: string, column: string, mask: nat)

  /** Whether the statement can run against an existing table: the parent
      column exists, it is not one of the two reserved columns, and the
      table has the `IsDeleted` column the statement also sets. */
  predicate Writable(t: Table, column: string) {
    HasColumn(t, column) && !IsReserved(column) && HasColumn(t, IsDeletedColumn)
  }

  /** The person's row as the statement finds it: the stored row, or for an
      INSERT the all-NULL row it starts from. */
  function BaseRow(table: Table, person: int): (r: Row)
    ensures RowsFit(table) ==> r.Keys == RowKeys(table)
  {
    if person in table.rows then table.rows[person] else NullRow(table)
  }

  /** The person's row after the statement: the column holds the mask's
      decimal text and the row is live. */
  function WrittenRow(base: Row, w: Write): Row {
    base[w.column := StrV(FormatInteger(w.mask))][IsDeletedColumn := BoolV(false)]
  }

  /** The table after the statement ran against it. */
  function Written(table: Table, person: int, w: Write): Table {
    table.(rows := table.rows[person := WrittenRow(BaseRow(table, person), w)])
  }

  /** The `IF OBJECT_ID … IF EXISTS … UPDATE … ELSE INSERT` statement for one
      parent. A missing table makes it a no-op; a column the table cannot
      take makes the database reject it, and nothing catches that. */
  function Upsert(db: Db, person: int, w: Write): (r: Result<Db>)
    ensures w.table !in db ==> r == Ok(db)
    ensures w.table in db ==> (r.Ok? <==> Writable(db[w.table], w.column))
    ensures r.Ok? ==> SameSchema(db, r.value)
    ensures r.Ok? ==> forall t | t in db && t != w.table :: r.value[t] == db[t]
  {
    if w.table !in db then Ok(db)
    else if !Writable(db[w.table], w.column) then Err(SqlError)
    else Ok(db[w.table := Written(db[w.table], person, w)])
  }

  /** Inside the written table only the person's row changes (it is
      inserted if missing). In it the column holds the mask's text, the row
      is live again, and every other column keeps what the row held, or
      NULL for an inserted row. */
  lemma UpsertEffect(db: Db, person: int, w: Write)
    requires w.table in db && Upsert(db, person, w).Ok?
    ensures var before := db[w.table];
      var after := Upsert(db, person, w).value[w.table];
      var base := if person in before.rows then before.rows[person] else NullRow(before);
      var row := after.rows[person];
      && after.rows.Keys == before.rows.Keys + {person}
      && (forall q | q in before.rows && q != person :: after.rows[q] == before.rows[q])
      && row.Keys == base.Keys + {w.column, IsDeletedColumn}
      && row[w.column] == StrV(FormatInteger(w.mask))
      && row[IsDeletedColumn] == BoolV(false)
      && (forall c | c in base && c != w.column && c != IsDeletedColumn :: row[c] == base[c])
  {
  }

  /** A written row still carries exactly the table's non-key columns. */
  lemma WrittenFits(table: Table, person: int, w: Write)
    requires RowsFit(table) && Writable(table, w.column)
    ensures RowsFit(Written(table, person, w))
  {
  }

  lemma UpsertKeepsWellFormed(db: Db, person: int, w: Write)
    requires WellFormed(db) && Upsert(db, person, w).Ok?
    ensures WellFormed(Upsert(db, person, w).value)
  {
    if w.table in db {
      WrittenFits(db[w.table], person, w);
    }
  }

  /** A write reads back: the cell holds the mask, and decoding it gives the
      mask again. */
  lemma UpsertReadBack(db: Db, person: int, w: Write)
    requires w.table in db && Upsert(db, person, w).Ok?
    ensures Cell(Upsert(db, person, w).value, w.table, person, w.column) == Some(StrV(FormatInteger(w.mask)))
    ensures TryGetBitmask(StrV(FormatInteger(w.mask))) == (true, w.mask)
  {
    StoredMaskDecodes(w.mask);
  }

  // ---------------------------------------------------------------- a run of writes

  predicate Touches(ws: seq<Write>, t: string) {
    exists i | 0 <= i < |ws| :: ws[i].table == t
  }

  lemma TouchesCons(w: Write, rest: seq<Write>, t: string)
    ensures Touches([w] + rest, t) <==> w.table == t || Touches(rest, t)
  {
    var ws := [w] + rest;
    if w.table == t {
      assert ws[0].table == t;
    }
    if Touches(rest, t) {
      var i :| 0 <= i < |rest| && rest[i].table == t;
      assert ws[i + 1].table == t;
    }
    if Touches(ws, t) && w.table != t {
      var i :| 0 <= i < |ws| && ws[i].table == t;
      assert rest[i - 1].table == t;
    }
  }

  /** Every write aimed at an existing table can run there. */
  predicate AllWritable(db: Db, ws: seq<Write>) {
    forall i | 0 <= i < |ws| && ws[i].table in db :: Writable(db[ws[i].table], ws[i].column)
  }

  /** Whether a run of writes can run depends only on the schema. */
  lemma WritableDependsOnSchema(a: Db, b: Db, ws: seq<Write>)
    requires SameSchema(a, b)
    ensures AllWritable(a, ws) <==> AllWritable(b, ws)
  {
    assert forall t, c | t in a :: Writable(a[t], c) == Writable(b[t], c);
  }

  /** The statements of one save, in order. The first rejected statement
      ends the save. The model returns only the error; in the source the
      earlier statements stay applied. */
  function SaveWrites(db: Db, person: int, ws: seq<Write>): (r: Result<Db>)
    ensures r.Ok? <==> AllWritable(db, ws)
    ensures r.Ok? ==> SameSchema(db, r.value)
    decreases |ws|
  {
    if |ws| == 0 then Ok(db)
    else
      match Upsert(db, person, ws[0])
      case Err(e) => Err(e)
      case Ok(next) =>
        WritableDependsOnSchema(db, next, ws[1..]);
        assert AllWritable(db, ws) <==> AllWritable(db, ws[1..]) by {
          assert forall i | 1 <= i < |ws| :: ws[i] == ws[1..][i - 1];
        }
        SaveWrites(next, person, ws[1..])
  }

  /** The mask the last write to a cell put there, if any write did. */
  function LastWrite(ws: seq<Write>, t: string, c: string): (r: Option<nat>)
    ensures r.None? <==> forall i | 0 <= i < |ws| :: !(ws[i].table == t && ws[i].column == c)
    ensures r.Some? ==> exists i | 0 <= i < |ws| ::
      ws[i] == Write(t, c, r.value) && forall j | i < j < |ws| :: !(ws[j].table == t && ws[j].column == c)
    decreases |ws|
  {
    if |ws| == 0 then None
    else
      var rest := LastWrite(ws[1..], t, c);
      assert forall j | 1 <= j < |ws| :: ws[j] == ws[1..][j - 1];
      if rest.Some? then
        var i :| 0 <= i < |ws[1..]| && ws[1..][i] == Write(t, c, rest.value)
          && forall j | i < j < |ws[1..]| :: !(ws[1..][j].table == t && ws[1..][j].column == c);
        assert ws[i + 1] == Write(t, c, rest.value);
        rest
      else if ws[0].table == t && ws[0].column == c then
        assert ws[0] == Write(t, c, ws[0].mask);
        Some(ws[0].mask)
      else None
  }

  lemma LastWriteCons(w: Write, rest: seq<Write>, t: string, c: string)
    ensures LastWrite([w] + rest, t, c) ==
      if LastWrite(rest, t, c).Some? then LastWrite(rest, t, c)
      else if w.table == t && w.column == c then Some(w.mask)
      else None
  {
    assert ([w] + rest)[1..] == rest;
  }

  /** One cell of the person's row in table `t` after a whole run of
      writes: the last mask written to it, else false for `IsDeleted`,
      else what the row held before. */
  function SavedValue(base: Row, ws: seq<Write>, t: string, c: string): RawValue
    requires c in base
  {
    match LastWrite(ws, t, c)
    case Some(m) => StrV(FormatInteger(m))
    case None => if c == IsDeletedColumn then BoolV(false) else base[c]
  }

  function SavedRow(base: Row, ws: seq<Write>, t: string): (r: Row)
    ensures r.Keys == base.Keys
  {
    map c | c in base :: SavedValue(base, ws, t, c)
  }

  /** The table `t` after a whole run of writes. */
  function SavedTable(table: Table, person: int, ws: seq<Write>, t: string): Table {
    if Touches(ws, t) then table.(rows := table.rows[person := SavedRow(BaseRow(table, person), ws, t)])
    else table
  }

  /** The database a whole save leaves behind, stated without running the
      statements one by one: each table some write names gets the person's
      `SavedRow`, every other table and every other person's row is kept. */
  function Applied(db: Db, person: int, ws: seq<Write>): Db {
    map t | t in db :: SavedTable(db[t], person, ws, t)
  }

  /** One step of the closed form, on the row of the first write: saving
      the written row with the rest is saving the old row with all. */
  lemma SavedRowAfterWrite(base: Row, w: Write, rest: seq<Write>)
    requires w.column in base && IsDeletedColumn in base && w.column != IsDeletedColumn
    ensures SavedRow(WrittenRow(base, w), rest, w.table) == SavedRow(base, [w] + rest, w.table)
  {
    var a := SavedRow(WrittenRow(base, w), rest, w.table);
    var b := SavedRow(base, [w] + rest, w.table);
    assert a.Keys == b.Keys;
    forall c | c in base
      ensures a[c] == b[c]
    {
      SavedValueAfterWrite(base, w, rest, c);
    }
  }

  lemma SavedValueAfterWrite(base: Row, w: Write, rest: seq<Write>, c: string)
    requires c in base && w.column != IsDeletedColumn
    ensures SavedValue(WrittenRow(base, w), rest, w.table, c) == SavedValue(base, [w] + rest, w.table, c)
  {
    LastWriteCons(w, rest, w.table, c);
    var written := WrittenRow(base, w);
    if LastWrite(rest, w.table, c).None? && c != IsDeletedColumn {
      assert written[c] == if c == w.column then StrV(FormatInteger(w.mask)) else base[c];
    }
  }

  /** When no later write names the table, the first write is the last
      one for its own column and none other in that table. */
  lemma LastWriteOfLone(w: Write, rest: seq<Write>, c: string)
    requires !Touches(rest, w.table)
    ensures LastWrite([w] + rest, w.table, c) == if c == w.column then Some(w.mask) else None
  {
    LastWriteCons(w, rest, w.table, c);
  }

  /** One step of the closed form, on the row of the first write, when no
      later write touches that table: the written row is already final. */
  lemma SavedRowOfLastWrite(base: Row, w: Write, rest: seq<Write>)
    requires w.column in base && IsDeletedColumn in base && w.column != IsDeletedColumn
    requires !Touches(rest, w.table)
    ensures WrittenRow(base, w) == SavedRow(base, [w] + rest, w.table)
  {
    var a := WrittenRow(base, w);
    var b := SavedRow(base, [w] + rest, w.table);
    forall c | c in base
      ensures a[c] == b[c]
    {
      LastWriteOfLone(w, rest, c);
    }
    assert a.Keys == b.Keys;
  }

  /** One step of the closed form, in a table the first write does not name. */
  lemma SavedRowPastOtherWrite(base: Row, w: Write, rest: seq<Write>, t: string)
    requires t != w.table
    ensures SavedRow(base, rest, t) == SavedRow(base, [w] + rest, t)
  {
    var a := SavedRow(base, rest, t);
    var b := SavedRow(base, [w] + rest, t);
    forall c | c in base
      ensures a[c] == b[c]
    {
      LastWriteCons(w, rest, t, c);
    }
  }

  lemma UpdateTwice<K, V>(m: map<K, V>, k: K, a: V, b: V)
    ensures m[k := a][k := b] == m[k := b]
  {
  }

  /** A writable column, and `IsDeleted`, are keys of every row of a
      well-formed table. */
  lemma WritableInBase(table: Table, person: int, w: Write)
    requires RowsFit(table) && Writable(table, w.column)
    ensures var base := BaseRow(table, person);
      w.column in base && IsDeletedColumn in base && w.column != IsDeletedColumn
  {
    assert w.column in RowKeys(table);
    assert IsDeletedColumn in RowKeys(table);
  }

  /** One step of the closed form, for the table of the first write. */
  lemma SavedTableAfterWrite(table: Table, person: int, w: Write, rest: seq<Write>)
    requires RowsFit(table) && Writable(table, w.column)
    ensures SavedTable(Written(table, person, w), person, rest, w.table) == SavedTable(table, person, [w] + rest, w.table)
  {
    var base := BaseRow(table, person);
    WritableInBase(table, person, w);
    TouchesCons(w, rest, w.table);
    var written := Written(table, person, w);
    assert BaseRow(written, person) == WrittenRow(base, w);
    if Touches(rest, w.table) {
      SavedRowAfterWrite(base, w, rest);
      var row := SavedRow(base, [w] + rest, w.table);
      UpdateTwice(table.rows, person, WrittenRow(base, w), row);
    } else {
      SavedRowOfLastWrite(base, w, rest);
    }
  }

  /** One step of the closed form, for a table the first write does not name. */
  lemma SavedTablePastOtherWrite(table: Table, person: int, w: Write, rest: seq<Write>, t: string)
    requires t != w.table
    ensures SavedTable(table, person, rest, t) == SavedTable(table, person, [w] + rest, t)
  {
    TouchesCons(w, rest, t);
    if Touches(rest, t) {
      SavedRowPastOtherWrite(BaseRow(table, person), w, rest, t);
    }
  }

  lemma SavedTableAfterUpsert(db: Db, person: int, w: Write, rest: seq<Write>, t: string)
    requires WellFormed(db) && t in db
    requires Upsert(db, person, w).Ok?
    ensures SavedTable(Upsert(db, person, w).value[t], person, rest, t) == SavedTable(db[t], person, [w] + rest, t)
  {
    if w.table == t {
      SavedTableAfterWrite(db[t], person, w, rest);
    } else {
      SavedTablePastOtherWrite(db[t], person, w, rest, t);
    }
  }

  /** Writing `w` and then the rest is the closed form of the whole run. */
  lemma AppliedAfterUpsert(db: Db, person: int, w: Write, rest: seq<Write>)
    requires WellFormed(db)
    requires Upsert(db, person, w).Ok?
    ensures WellFormed(Upsert(db, person, w).value)
    ensures Applied(Upsert(db, person, w).value, person, rest) == Applied(db, person, [w] + rest)
  {
    UpsertKeepsWellFormed(db, person, w);
    var a := Applied(Upsert(db, person, w).value, person, rest);
    var b := Applied(db, person, [w] + rest);
    forall t | t in db
      ensures a[t] == b[t]
    {
      SavedTableAfterUpsert(db, person, w, rest, t);
    }
    assert a.Keys == b.Keys;
  }

  /** The closed form of a save: running the statements one by one gives
      `Applied`, whatever order the writes came in. */
  lemma {:induction false} SaveWritesClosedForm(db: Db, person: int, ws: seq<Write>)
    requires WellFormed(db)
    requires AllWritable(db, ws)
    ensures SaveWrites(db, person, ws) == Ok(Applied(db, person, ws))
    decreases |ws|
  {
    if |ws| == 0 {
      assert Applied(db, person, ws) == db;
    } else {
      var w := ws[0];
      var rest := ws[1..];
      assert ws == [w] + rest;
      AppliedAfterUpsert(db, person, w, rest);
      var next := Upsert(db, person, w).value;
      WritableDependsOnSchema(db, next, rest);
      assert AllWritable(next, rest) by {
        assert forall i | 0 <= i < |rest| :: rest[i] == ws[i + 1];
      }
      SaveWritesClosedForm(next, person, rest);
    }
  }

  /** `Applied` changes only the person's rows, and only in tables some
      write names. */
  lemma AppliedFrame(db: Db, person: int, ws: seq<Write>)
    ensures var r := Applied(db, person, ws);
      && r.Keys == db.Keys
      && (forall t | t in db && !Touches(ws, t) :: r[t] == db[t])
      && (forall t | t in db && Touches(ws, t) ::
            r[t].columns == db[t].columns
            && r[t].rows.Keys == db[t].rows.Keys + {person}
            && forall q | q in db[t].rows && q != person :: r[t].rows[q] == db[t].rows[q])
  {
  }

  /** A save changes only the person's rows, and only in tables some write
      names: every other person's row, and every other table, is kept. */
  lemma SaveWritesFrame(db: Db, person: int, ws: seq<Write>)
    requires WellFormed(db)
    requires SaveWrites(db, person, ws).Ok?
    ensures var r := SaveWrites(db, person, ws).value;
      && (forall t | t in db && !Touches(ws, t) :: r[t] == db[t])
      && (forall t | t in db && Touches(ws, t) ::
            r[t].rows.Keys == db[t].rows.Keys + {person}
            && forall q | q in db[t].rows && q != person :: r[t].rows[q] == db[t].rows[q])
  {
    SaveWritesClosedForm(db, person, ws);
    AppliedFrame(db, person, ws);
  }

  /** Re-applying a run of writes to the row it produced reproduces it. */
  lemma SavedRowStable(base: Row, ws: seq<Write>, t: string)
    ensures SavedRow(SavedRow(base, ws, t), ws, t) == SavedRow(base, ws, t)
  {
    var once := SavedRow(base, ws, t);
    var twice := SavedRow(once, ws, t);
    forall c | c in base
      ensures twice[c] == once[c]
    {
    }
  }

  lemma SavedTableStable(table: Table, person: int, ws: seq<Write>, t: string)
    ensures SavedTable(SavedTable(table, person, ws, t), person, ws, t) == SavedTable(table, person, ws, t)
  {
    if Touches(ws, t) {
      SavedRowStable(BaseRow(table, person), ws, t);
    }
  }

  lemma AppliedKeepsWellFormed(db: Db, person: int, ws: seq<Write>)
    requires WellFormed(db)
    ensures WellFormed(Applied(db, person, ws))
  {
  }

  lemma AppliedIdempotent(db: Db, person: int, ws: seq<Write>)
    ensures Applied(Applied(db, person, ws), person, ws) == Applied(db, person, ws)
  {
    var once := Applied(db, person, ws);
    var twice := Applied(once, person, ws);
    forall t | t in db
      ensures twice[t] == once[t]
    {
      SavedTableStable(db[t], person, ws, t);
    }
    assert twice.Keys == once.Keys;
  }

  /** Saving the same selection twice leaves the store as saving it once. */
  lemma SaveWritesIdempotent(db: Db, person: int, ws: seq<Write>)
    requires WellFormed(db)
    requires SaveWrites(db, person, ws).Ok?
    ensures SaveWrites(SaveWrites(db, person, ws).value, person, ws) == SaveWrites(db, person, ws)
  {
    SaveWritesClosedForm(db, person, ws);
    var once := Applied(db, person, ws);
    AppliedIdempotent(db, person, ws);
    AppliedKeepsWellFormed(db, person, ws);
    AppliedFrame(db, person, ws);
    assert SameSchema(db, once);
    WritableDependsOnSchema(db, once, ws);
    SaveWritesClosedForm(once, person, ws);
  }

  /** After a save, the cell of every write that no later write overrides
      holds that write's mask. */
  lemma SaveWritesReadBack(db: Db, person: int, ws: seq<Write>, i: nat)
    requires WellFormed(db)
    requires SaveWrites(db, person, ws).Ok?
    requires i < |ws| && ws[i].table in db
    requires forall j | i < j < |ws| :: !(ws[j].table == ws[i].table && ws[j].column == ws[i].column)
    ensures Cell(SaveWrites(db, person, ws).value, ws[i].table, person, ws[i].column) == Some(StrV(FormatInteger(ws[i].mask)))
  {
    var w := ws[i];
    assert Touches(ws, w.table);
    SaveWritesClosedForm(db, person, ws);
    var m := LastWrite(ws, w.table, w.column);
    assert m == Some(w.mask) by {
      var k :| 0 <= k < |ws| && ws[k] == Write(w.table, w.column, m.value)
        && forall j | k < j < |ws| :: !(ws[j].table == w.table && ws[j].column == w.column);
      assert k == i;
    }
    assert Writable(db[w.table], w.column);
  }

  /** A cell that every write to it sets to the same mask holds that mask
      after the save. */
  lemma SaveWritesReadBackAgreed(db: Db, person: int, ws: seq<Write>, t: string, c: string, m: nat)
    requires WellFormed(db)
    requires SaveWrites(db, person, ws).Ok?
    requires t in db && Write(t, c, m) in ws
    requires forall i | 0 <= i < |ws| && ws[i].table == t && ws[i].column == c :: ws[i].mask == m
    ensures Cell(SaveWrites(db, person, ws).value, t, person, c) == Some(StrV(FormatInteger(m)))
  {
    var last := LastWrite(ws, t, c);
    var i :| 0 <= i < |ws| && ws[i] == Write(t, c, last.value)
      && forall j | i < j < |ws| :: !(ws[j].table == t && ws[j].column == c);
    SaveWritesReadBack(db, person, ws, i);
  }
}
