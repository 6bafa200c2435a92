/** The taxonomy and the storage layout derived from it. Every location at
    level five or less gets a table named after it, keyed by
    `PersonId`, with one column per direct child and a tombstone column
    `IsDeleted`. The database is a map from table name to table; each table
    keeps its declared columns and its rows by person id, so the primary key
    on `PersonId` is part of the type. */
module Schema {
  import opened Wrappers
  import opened RawValues

  /** One row of the `Locations` table. */
  datatype Location = Location(
    id: int,
    name: string,
    nameTypeId: Option<int>,
    typeName: string,
    parentId: Option<int>,
    childId: int,
    level: int)

  const PersonIdColumn: string := "PersonId"
  const IsDeletedColumn: string := "IsDeleted"

  /** The deepest level that still gets a table. */
  const MaxTableLevel: int := 5

  predicate IsReserved(name: string) {
    name == PersonIdColumn || name == IsDeletedColumn
  }

  datatype Column = Column(name: string, sqlType: string)

  /** A row by column name; the person id is the key the row is stored under. */
  type Row = map<string, RawValue>

  datatype Table = Table(columns: seq<Column>, rows: map<int, Row>)

  type Db = map<string, Table>

  function ColumnNames(cols: seq<Column>): (r: seq<string>)
    ensures |r| == |cols| && forall i | 0 <= i < |cols| :: r[i] == cols[i].name
  {
    if |cols| == 0 then [] else [cols[0].name] + ColumnNames(cols[1..])
  }

  predicate HasColumn(t: Table, name: string) {
    name in ColumnNames(t.columns)
  }

  /** The column names other than the two reserved ones, in declared order. */
  function DataColumns(cols: seq<Column>): (r: seq<string>)
    ensures forall c :: c in r <==> c in ColumnNames(cols) && !IsReserved(c)
    ensures |r| <= |cols|
  {
    if |cols| == 0 then []
    else if IsReserved(cols[0].name) then DataColumns(cols[1..])
    else [cols[0].name] + DataColumns(cols[1..])
  }

  /** The row an INSERT creates before its listed values are applied: every
      column but the key holds NULL (no column declares a default). */
  function NullRow(t: Table): (r: Row)
    ensures forall c :: c in r <==> HasColumn(t, c) && c != PersonIdColumn
    ensures forall c | c in r :: r[c] == NullV
  {
    map c | c in ColumnNames(t.columns) && c != PersonIdColumn :: NullV
  }

  /** The keys of every stored row: each declared column but the key. */
  function RowKeys(t: Table): (r: set<string>)
    ensures forall c :: c in r <==> HasColumn(t, c) && c != PersonIdColumn
  {
    set c | c in ColumnNames(t.columns) && c != PersonIdColumn
  }

  /** A `SELECT *` row carries every declared column: each stored row has
      exactly the table's non-key columns. */
  predicate RowsFit(t: Table) {
    forall p | p in t.rows :: t.rows[p].Keys == RowKeys(t)
  }

  predicate WellFormed(db: Db) {
    forall t | t in db :: RowsFit(db[t])
  }

  /** Two databases with the same tables and the same declared columns;
      only row contents may differ. */
  predicate SameSchema(a: Db, b: Db) {
    a.Keys == b.Keys && forall t | t in a :: a[t].columns == b[t].columns
  }

  // ---------------------------------------------------------------- names

  predicate IsIdentifierChar(c: char) {
    'a' <= c <= 'z' || 'A' <= c <= 'Z' || '0' <= c <= '9' || c == '_'
  }

  /** `Regex.Replace(name, "[^a-zA-Z0-9_]", "_")`, used for constraint names. */
  function Sanitize(name: string): (r: string)
    ensures |r| == |name|
    ensures forall i | 0 <= i < |r| :: IsIdentifierChar(r[i])
    ensures forall i | 0 <= i < |r| :: r[i] == if IsIdentifierChar(name[i]) then name[i] else '_'
  {
    if |name| == 0 then []
    else [if IsIdentifierChar(name[0]) then name[0] else '_'] + Sanitize(name[1..])
  }

  /** Sanitizing twice changes nothing more. */
  lemma SanitizeIdempotent(name: string)
    ensures Sanitize(Sanitize(name)) == Sanitize(name)
  {
  }

  /** A name made only of identifier characters is its own sanitized form. */
  lemma SanitizeKeepsIdentifiers(name: string)
    requires forall i | 0 <= i < |name| :: IsIdentifierChar(name[i])
    ensures Sanitize(name) == name
  {
  }

  /** `string.ToUpper()` on the letters A to Z; other characters are kept. */
  function ToUpperAscii(s: string): (r: string)
    ensures |r| == |s|
    ensures forall i | 0 <= i < |s| :: r[i] == if 'a' <= s[i] <= 'z' then (s[i] as int - 32) as char else s[i]
  {
    if |s| == 0 then []
    else [if 'a' <= s[0] <= 'z' then (s[0] as int - 32) as char else s[0]] + ToUpperAscii(s[1..])
  }

  // ---------------------------------------------------------------- layout

  /** `locations.Where(x => x.ParentId == id)`, in list order. */
  function ChildrenOf(tax: seq<Location>, id: int): (r: seq<Location>)
    ensures |r| <= |tax|
    ensures forall l :: l in r <==> l in tax && l.parentId == Some(id)
  {
    if |tax| == 0 then []
    else (if tax[0].parentId == Some(id) then [tax[0]] else []) + ChildrenOf(tax[1..], id)
  }

  function ChildColumns(kids: seq<Location>): (r: seq<Column>)
    ensures |r| == |kids|
    ensures forall i | 0 <= i < |kids| :: r[i] == Column(kids[i].name, ToUpperAscii(kids[i].typeName))
  {
    if |kids| == 0 then [] else [Column(kids[0].name, ToUpperAscii(kids[0].typeName))] + ChildColumns(kids[1..])
  }

  /** The CREATE TABLE statement for one location, as the table it makes:
      the key first, one column per child, the tombstone last, no rows. */
  function TableFor(tax: seq<Location>, loc: Location): (r: Table)
    ensures r.rows == map[]
    ensures |r.columns| == |ChildrenOf(tax, loc.id)| + 2
    ensures r.columns[0] == Column(PersonIdColumn, "INT")
    ensures r.columns[|r.columns| - 1] == Column(IsDeletedColumn, "BIT")
  {
    Table([Column(PersonIdColumn, "INT")] + ChildColumns(ChildrenOf(tax, loc.id)) + [Column(IsDeletedColumn, "BIT")], map[])
  }

  predicate DistinctNames(names: seq<string>) {
    forall i, j | 0 <= i < j < |names| :: names[i] != names[j]
  }

  /** `CreateTables`: one table per location at level five or less, in list
      order. A statement fails, and with it the whole start-up, when the
      table name is taken, when two columns of the table share a name, or
      when the sanitized name repeats an earlier one (the primary and
      foreign key constraint names would clash). `used` holds the sanitized
      names of the tables made so far. */
  function CreateTablesFrom(tax: seq<Location>, i: nat, db: Db, used: set<string>): (r: Result<Db>)
    requires i <= |tax|
    ensures r.Ok? ==> db.Keys <= r.value.Keys
    ensures r.Ok? ==> forall t | t in db :: r.value[t] == db[t]
    ensures r.Ok? && WellFormed(db) ==> WellFormed(r.value)
    decreases |tax| - i
  {
    if i == |tax| then Ok(db)
    else
      var loc := tax[i];
      if loc.level > MaxTableLevel then CreateTablesFrom(tax, i + 1, db, used)
      else
        var t := TableFor(tax, loc);
        if loc.name in db || !DistinctNames(ColumnNames(t.columns)) || Sanitize(loc.name) in used then Err(SqlError)
        else
          var next := db[loc.name := t];
          AddEmptyTable(db, loc.name, t);
          CreateTablesFrom(tax, i + 1, next, used + {Sanitize(loc.name)})
  }

  /** Table `x` of `db` is the table of a location from `i` on, of level
      five or less, named `x` and built by `TableFor`. */
  predicate MadeFrom(tax: seq<Location>, i: nat, db: Db, x: string)
    requires x in db
  {
    exists j | i <= j < |tax| :: tax[j].name == x && tax[j].level <= MaxTableLevel && db[x] == TableFor(tax, tax[j])
  }

  /** What a run of CREATE TABLE statements adds: a table for every
      location from `i` on of level five or less, and nothing else. */
  lemma CreateTablesFromLayout(tax: seq<Location>, i: nat, db: Db, used: set<string>)
    requires i <= |tax|
    ensures var r := CreateTablesFrom(tax, i, db, used);
      r.Ok? ==> forall t | t in r.value && t !in db :: MadeFrom(tax, i, r.value, t)
    ensures var r := CreateTablesFrom(tax, i, db, used);
      r.Ok? ==> forall j | i <= j < |tax| && tax[j].level <= MaxTableLevel :: tax[j].name in r.value
  {
    LayoutSound(tax, i, db, used);
    LayoutComplete(tax, i, db, used);
  }

  lemma {:induction false} LayoutSound(tax: seq<Location>, i: nat, db: Db, used: set<string>)
    requires i <= |tax|
    ensures var r := CreateTablesFrom(tax, i, db, used);
      r.Ok? ==> forall t | t in r.value && t !in db :: MadeFrom(tax, i, r.value, t)
    decreases |tax| - i
  {
    if i < |tax| {
      var loc := tax[i];
      var r := CreateTablesFrom(tax, i, db, used);
      if loc.level > MaxTableLevel {
        LayoutSound(tax, i + 1, db, used);
        if r.Ok? {
          forall x | x in r.value && x !in db
            ensures MadeFrom(tax, i, r.value, x)
          {
            MadeFromWiden(tax, i, r.value, x);
          }
        }
      } else {
        var t := TableFor(tax, loc);
        if !(loc.name in db || !DistinctNames(ColumnNames(t.columns)) || Sanitize(loc.name) in used) {
          var next := db[loc.name := t];
          LayoutSound(tax, i + 1, next, used + {Sanitize(loc.name)});
          if r.Ok? {
            forall x | x in r.value && x !in db
              ensures MadeFrom(tax, i, r.value, x)
            {
              if x == loc.name {
                assert r.value[x] == next[x];
                assert tax[i].name == x && r.value[x] == TableFor(tax, tax[i]);
              } else {
                MadeFromWiden(tax, i, r.value, x);
              }
            }
          }
        }
      }
    }
  }

  lemma MadeFromWiden(tax: seq<Location>, i: nat, db: Db, x: string)
    requires x in db && MadeFrom(tax, i + 1, db, x)
    ensures MadeFrom(tax, i, db, x)
  {
    var j :| i + 1 <= j < |tax| && tax[j].name == x && tax[j].level <= MaxTableLevel && db[x] == TableFor(tax, tax[j]);
  }

  lemma {:induction false} LayoutComplete(tax: seq<Location>, i: nat, db: Db, used: set<string>)
    requires i <= |tax|
    ensures var r := CreateTablesFrom(tax, i, db, used);
      r.Ok? ==> forall j | i <= j < |tax| && tax[j].level <= MaxTableLevel :: tax[j].name in r.value
    decreases |tax| - i
  {
    if i < |tax| {
      var loc := tax[i];
      if loc.level > MaxTableLevel {
        LayoutComplete(tax, i + 1, db, used);
      } else {
        var t := TableFor(tax, loc);
        if !(loc.name in db || !DistinctNames(ColumnNames(t.columns)) || Sanitize(loc.name) in used) {
          var next := db[loc.name := t];
          LayoutComplete(tax, i + 1, next, used + {Sanitize(loc.name)});
          assert loc.name in next;
        }
      }
    }
  }

  /** The statements for the locations from `i` on all succeed: each
      such table's columns are distinct, its sanitized name is not in
      `used`, and no two of them share a sanitized name. */
  predicate CreatableFrom(tax: seq<Location>, i: nat, used: set<string>) {
    (forall j | i <= j < |tax| && tax[j].level <= MaxTableLevel ::
       Sanitize(tax[j].name) !in used && DistinctNames(ColumnNames(TableFor(tax, tax[j]).columns)))
    && (forall j, k | i <= j < k < |tax| && tax[j].level <= MaxTableLevel && tax[k].level <= MaxTableLevel ::
          Sanitize(tax[j].name) != Sanitize(tax[k].name))
  }

  /** A run of CREATE TABLE statements succeeds exactly when the remaining
      locations are creatable, provided every table made so far has its
      sanitized name in `used`. */
  lemma {:induction false} CreateTablesFromOk(tax: seq<Location>, i: nat, db: Db, used: set<string>)
    requires i <= |tax|
    requires forall t | t in db :: Sanitize(t) in used
    ensures CreateTablesFrom(tax, i, db, used).Ok? <==> CreatableFrom(tax, i, used)
    decreases |tax| - i
  {
    if i < |tax| {
      var loc := tax[i];
      CreatableStep(tax, i, used);
      if loc.level > MaxTableLevel {
        CreateTablesFromOk(tax, i + 1, db, used);
      } else {
        var t := TableFor(tax, loc);
        if !(loc.name in db || !DistinctNames(ColumnNames(t.columns)) || Sanitize(loc.name) in used) {
          CreateTablesFromOk(tax, i + 1, db[loc.name := t], used + {Sanitize(loc.name)});
        }
      }
    }
  }

  /** Creatability from `i` in terms of creatability from `i + 1`. */
  lemma CreatableStep(tax: seq<Location>, i: nat, used: set<string>)
    requires i < |tax|
    ensures tax[i].level > MaxTableLevel ==> (CreatableFrom(tax, i, used) <==> CreatableFrom(tax, i + 1, used))
    ensures tax[i].level <= MaxTableLevel ==>
      (CreatableFrom(tax, i, used) <==>
         Sanitize(tax[i].name) !in used && DistinctNames(ColumnNames(TableFor(tax, tax[i]).columns)) &&
         CreatableFrom(tax, i + 1, used + {Sanitize(tax[i].name)}))
  {
    if tax[i].level > MaxTableLevel {
      CreatableSkip(tax, i, used);
    } else {
      var name := Sanitize(tax[i].name);
      if CreatableFrom(tax, i, used) {
        CreatableTake(tax, i, used);
      }
      if name !in used && DistinctNames(ColumnNames(TableFor(tax, tax[i]).columns)) && CreatableFrom(tax, i + 1, used + {name}) {
        CreatableGive(tax, i, used);
      }
    }
  }

  lemma CreatableSkip(tax: seq<Location>, i: nat, used: set<string>)
    requires i < |tax| && tax[i].level > MaxTableLevel
    ensures CreatableFrom(tax, i, used) <==> CreatableFrom(tax, i + 1, used)
  {
    if CreatableFrom(tax, i + 1, used) {
      forall j, k | i <= j < k < |tax| && tax[j].level <= MaxTableLevel && tax[k].level <= MaxTableLevel
        ensures Sanitize(tax[j].name) != Sanitize(tax[k].name)
      {
        assert j != i;
      }
    }
  }

  lemma CreatableTake(tax: seq<Location>, i: nat, used: set<string>)
    requires i < |tax| && tax[i].level <= MaxTableLevel && CreatableFrom(tax, i, used)
    ensures Sanitize(tax[i].name) !in used && DistinctNames(ColumnNames(TableFor(tax, tax[i]).columns))
    ensures CreatableFrom(tax, i + 1, used + {Sanitize(tax[i].name)})
  {
    var name := Sanitize(tax[i].name);
    forall j | i + 1 <= j < |tax| && tax[j].level <= MaxTableLevel
      ensures Sanitize(tax[j].name) !in used + {name}
    {
      assert name != Sanitize(tax[j].name);
    }
  }

  lemma CreatableGive(tax: seq<Location>, i: nat, used: set<string>)
    requires i < |tax| && tax[i].level <= MaxTableLevel
    requires Sanitize(tax[i].name) !in used && DistinctNames(ColumnNames(TableFor(tax, tax[i]).columns))
    requires CreatableFrom(tax, i + 1, used + {Sanitize(tax[i].name)})
    ensures CreatableFrom(tax, i, used)
  {
    var name := Sanitize(tax[i].name);
    forall j, k | i <= j < k < |tax| && tax[j].level <= MaxTableLevel && tax[k].level <= MaxTableLevel
      ensures Sanitize(tax[j].name) != Sanitize(tax[k].name)
    {
      if j == i {
        assert Sanitize(tax[k].name) !in used + {name};
      }
    }
  }

  /** Adding a table with no rows keeps every stored row fitting. */
  lemma AddEmptyTable(db: Db, name: string, t: Table)
    requires t.rows == map[]
    ensures WellFormed(db) ==> WellFormed(db[name := t])
  {
  }

  /** The stems of the key constraints a database already holds: every
      table `t` has its primary key `PK_t`, and a location table also its
      foreign key `FK_t_Persons`, with `t` sanitized. */
  function Stems(db: Db): (r: set<string>)
    ensures forall t | t in db :: Sanitize(t) in r
  {
    set t | t in db :: Sanitize(t)
  }

  /** `CreateTables` run on the database start-up finds: the tables the
      migration made, and those an earlier start-up made. The result keeps
      them and adds exactly one table per location of level five or less,
      named with the raw location name and built by `TableFor`; deeper
      locations get none. */
  function CreateTables(tax: seq<Location>, existing: Db): (r: Result<Db>)
    ensures r.Ok? ==> forall j | 0 <= j < |tax| && tax[j].level <= MaxTableLevel :: tax[j].name in r.value
    ensures r.Ok? ==> forall t | t in existing :: t in r.value && r.value[t] == existing[t]
    ensures r.Ok? ==> forall t | t in r.value && t !in existing :: MadeFrom(tax, 0, r.value, t)
    ensures r.Ok? && WellFormed(existing) ==> WellFormed(r.value)
    ensures r.Ok? <==> ColumnsDistinct(tax) && SanitizedDistinct(tax) && NoneTaken(tax, Stems(existing))
    ensures r.Ok? ==> forall j | 0 <= j < |tax| && tax[j].level <= MaxTableLevel :: tax[j].name !in existing
    ensures r.Ok? ==> forall j, k | 0 <= j < k < |tax| && tax[j].level <= MaxTableLevel && tax[k].level <= MaxTableLevel ::
      tax[j].name != tax[k].name
  {
    CreateTablesFromStart(tax, existing);
    CreateTablesFrom(tax, 0, existing, Stems(existing))
  }

  /** The statements run from the first location on the existing database. */
  lemma CreateTablesFromStart(tax: seq<Location>, existing: Db)
    ensures var r := CreateTablesFrom(tax, 0, existing, Stems(existing));
      && (r.Ok? ==> forall j | 0 <= j < |tax| && tax[j].level <= MaxTableLevel :: tax[j].name in r.value)
      && (r.Ok? ==> forall t | t in r.value && t !in existing :: MadeFrom(tax, 0, r.value, t))
      && (r.Ok? <==> ColumnsDistinct(tax) && SanitizedDistinct(tax) && NoneTaken(tax, Stems(existing)))
      && (r.Ok? ==> forall j | 0 <= j < |tax| && tax[j].level <= MaxTableLevel :: tax[j].name !in existing)
      && (r.Ok? ==> forall j, k | 0 <= j < k < |tax| && tax[j].level <= MaxTableLevel && tax[k].level <= MaxTableLevel ::
            tax[j].name != tax[k].name)
  {
    var used := Stems(existing);
    CreateTablesFromOk(tax, 0, existing, used);
    CreatableFromStart(tax, used);
    CreateTablesFromLayout(tax, 0, existing, used);
  }

  /** Every table of a location of level five or less has distinct column names. */
  predicate ColumnsDistinct(tax: seq<Location>) {
    forall j | 0 <= j < |tax| && tax[j].level <= MaxTableLevel :: DistinctNames(ColumnNames(TableFor(tax, tax[j]).columns))
  }

  /** No two locations of level five or less share a sanitized name. */
  predicate SanitizedDistinct(tax: seq<Location>) {
    forall j, k | 0 <= j < k < |tax| && tax[j].level <= MaxTableLevel && tax[k].level <= MaxTableLevel ::
      Sanitize(tax[j].name) != Sanitize(tax[k].name)
  }

  /** No location of level five or less has a sanitized name in `used`. */
  predicate NoneTaken(tax: seq<Location>, used: set<string>) {
    forall j | 0 <= j < |tax| && tax[j].level <= MaxTableLevel :: Sanitize(tax[j].name) !in used
  }

  /** Creatability from the start is the three conditions above, and it
      makes the raw table names distinct as well. */
  lemma CreatableFromStart(tax: seq<Location>, used: set<string>)
    ensures CreatableFrom(tax, 0, used) <==> ColumnsDistinct(tax) && SanitizedDistinct(tax) && NoneTaken(tax, used)
    ensures SanitizedDistinct(tax) ==> forall j, k | 0 <= j < k < |tax| && tax[j].level <= MaxTableLevel && tax[k].level <= MaxTableLevel ::
      tax[j].name != tax[k].name
  {
    if SanitizedDistinct(tax) {
      forall j, k | 0 <= j < k < |tax| && tax[j].level <= MaxTableLevel && tax[k].level <= MaxTableLevel
        ensures tax[j].name != tax[k].name
      {
        assert Sanitize(tax[j].name) != Sanitize(tax[k].name);
      }
    }
  }

  /** A second start-up on the database the first one made fails as soon
      as the taxonomy has a location of level five or less: its table is
      already there. */
  lemma RepeatedStartUpFails(tax: seq<Location>, existing: Db, j: nat)
    requires CreateTables(tax, existing).Ok?
    requires j < |tax| && tax[j].level <= MaxTableLevel
    ensures CreateTables(tax, CreateTables(tax, existing).value).Err?
  {
    var second := CreateTables(tax, existing).value;
    assert tax[j].name in second;
    assert Sanitize(tax[j].name) in Stems(second);
    assert !NoneTaken(tax, Stems(second));
  }

  /** When no child takes a reserved name, the data columns of a created
      table are exactly the children's names, in list order. */
  lemma TableForDataColumns(tax: seq<Location>, loc: Location)
    requires forall l | l in ChildrenOf(tax, loc.id) :: !IsReserved(l.name)
    ensures DataColumns(TableFor(tax, loc).columns) == ColumnNames(ChildColumns(ChildrenOf(tax, loc.id)))
  {
    var kids := ChildrenOf(tax, loc.id);
    var cols := ChildColumns(kids);
    assert forall i | 0 <= i < |cols| :: cols[i].name == kids[i].name && kids[i] in kids;
    DataColumnsAppend([Column(PersonIdColumn, "INT")] + cols, [Column(IsDeletedColumn, "BIT")]);
    DataColumnsAppend([Column(PersonIdColumn, "INT")], cols);
    DataColumnsOfPlain(cols);
  }

  lemma {:induction false} DataColumnsAppend(a: seq<Column>, b: seq<Column>)
    ensures DataColumns(a + b) == DataColumns(a) + DataColumns(b)
  {
    if |a| == 0 {
      assert a + b == b;
    } else {
      assert (a + b)[0] == a[0];
      assert (a + b)[1..] == a[1..] + b;
      DataColumnsAppend(a[1..], b);
    }
  }

  lemma {:induction false} DataColumnsOfPlain(cols: seq<Column>)
    requires forall i | 0 <= i < |cols| :: !IsReserved(cols[i].name)
    ensures DataColumns(cols) == ColumnNames(cols)
  {
    if |cols| > 0 {
      DataColumnsOfPlain(cols[1..]);
    }
  }

  /** A later location whose name is already a table makes creation fail. */
  lemma {:induction false} CreatedKeysKept(tax: seq<Location>, i: nat, db: Db, used: set<string>, k: nat)
    requires i <= k < |tax|
    requires tax[k].level <= MaxTableLevel && tax[k].name in db
    ensures CreateTablesFrom(tax, i, db, used).Err?
    decreases |tax| - i
  {
    var loc := tax[i];
    if i < k {
      if loc.level > MaxTableLevel {
        CreatedKeysKept(tax, i + 1, db, used, k);
      } else {
        var t := TableFor(tax, loc);
        if !(loc.name in db || !DistinctNames(ColumnNames(t.columns)) || Sanitize(loc.name) in used) {
          CreatedKeysKept(tax, i + 1, db[loc.name := t], used + {Sanitize(loc.name)}, k);
        }
      }
    }
  }
}
