/** The read half of the selection store (`GetLocationViewModelsAsync`):
    for the requested parents, list every child with the parent's stored
    mask decoded into `IsSelected`. */
module SelectionView {
  import opened Wrappers
  import opened RawValues
  import opened Bitmask
  import opened Schema
  import opened SelectionStore
  import opened IdLists
  import opened LocationSave

  // ---------------------------------------------------------------- mapping rows

  /** One row of `GetChildParentGrandparent`. */
  datatype MappingRow = MappingRow(
    parentNode: string,
    grandparentNode: string,
    childNode: Option<string>,
    childId: int,
    childLocationId: int,
    nameTypeId: Option<int>,
    parentId: int)

  /** The row for parent `p`, its parent `g` and its child `c`. */
  function ChildRow(p: Location, g: Location, c: Location): MappingRow {
    MappingRow(p.name, g.name, Some(c.name), c.childId, c.id, c.nameTypeId, p.id)
  }

  /** The row the `LEFT OUTER JOIN` yields for a parent without children:
      the child columns are NULL, and the row mapper skips NULL columns, so
      the C# defaults remain (no child name, ids zero, no name type). */
  function ChildlessRow(p: Location, g: Location): MappingRow {
    MappingRow(p.name, g.name, None, 0, 0, None, p.id)
  }

  function ChildRows(p: Location, g: Location, kids: seq<Location>): (r: seq<MappingRow>)
    ensures |r| == |kids| && forall i | 0 <= i < |kids| :: r[i] == ChildRow(p, g, kids[i])
  {
    if |kids| == 0 then [] else [ChildRow(p, g, kids[0])] + ChildRows(p, g, kids[1..])
  }

  /** The rows of one (parent, grandparent) pair: one per child, in list
      order, or the single childless row. */
  function RowsOfPair(tax: seq<Location>, p: Location, g: Location): seq<MappingRow> {
    var kids := ChildrenOf(tax, p.id);
    if |kids| == 0 then [ChildlessRow(p, g)] else ChildRows(p, g, kids)
  }

  /** Row `row` belongs to parent `p`, a listed location whose parent
      location is `g`: it is the row of one of `p`'s children, or `p` has
      none and it is the childless row. */
  predicate MappingSource(tax: seq<Location>, ids: seq<Int32>, p: Location, g: Location, row: MappingRow) {
    p in tax && g in tax && p.id in ids && p.parentId == Some(g.id)
    && row.parentId == p.id && row.parentNode == p.name && row.grandparentNode == g.name
    && (row.childNode.Some? || ChildrenOf(tax, p.id) == [])
  }

  /** The rows of parent `p` with each grandparent row in `gs` it joins. */
  function RowsOfParent(tax: seq<Location>, p: Location, gs: seq<Location>): seq<MappingRow> {
    if |gs| == 0 then []
    else (if p.parentId == Some(gs[0].id) then RowsOfPair(tax, p, gs[0]) else []) + RowsOfParent(tax, p, gs[1..])
  }

  lemma {:induction false} RowsOfParentSource(tax: seq<Location>, ids: seq<Int32>, p: Location, gs: seq<Location>, row: MappingRow)
    requires p in tax && p.id in ids && forall g | g in gs :: g in tax
    requires row in RowsOfParent(tax, p, gs)
    ensures exists g :: MappingSource(tax, ids, p, g, row)
  {
    var here := if p.parentId == Some(gs[0].id) then RowsOfPair(tax, p, gs[0]) else [];
    if row in here {
      assert MappingSource(tax, ids, p, gs[0], row);
    } else {
      RowsOfParentSource(tax, ids, p, gs[1..], row);
    }
  }

  /** The mapping query over the parent rows `ps`, in taxonomy order. */
  function MappingFrom(tax: seq<Location>, ids: seq<Int32>, ps: seq<Location>): seq<MappingRow> {
    if |ps| == 0 then []
    else (if ps[0].id in ids then RowsOfParent(tax, ps[0], tax) else []) + MappingFrom(tax, ids, ps[1..])
  }

  lemma {:induction false} MappingFromSource(tax: seq<Location>, ids: seq<Int32>, ps: seq<Location>, row: MappingRow)
    requires forall p | p in ps :: p in tax
    requires row in MappingFrom(tax, ids, ps)
    ensures exists p, g :: MappingSource(tax, ids, p, g, row)
  {
    var here := if ps[0].id in ids then RowsOfParent(tax, ps[0], tax) else [];
    if row in here {
      RowsOfParentSource(tax, ids, ps[0], tax, row);
    } else {
      MappingFromSource(tax, ids, ps[1..], row);
    }
  }

  lemma {:induction false} MappingFromComplete(tax: seq<Location>, ids: seq<Int32>, ps: seq<Location>, p: Location, g: Location, row: MappingRow)
    requires p in ps && g in tax && p.id in ids && p.parentId == Some(g.id)
    requires row in RowsOfPair(tax, p, g)
    ensures row in MappingFrom(tax, ids, ps)
  {
    if p == ps[0] {
      RowsOfParentComplete(tax, p, tax, g, row);
    } else {
      MappingFromComplete(tax, ids, ps[1..], p, g, row);
    }
  }

  lemma {:induction false} RowsOfParentComplete(tax: seq<Location>, p: Location, gs: seq<Location>, g: Location, row: MappingRow)
    requires g in gs && p.parentId == Some(g.id)
    requires row in RowsOfPair(tax, p, g)
    ensures row in RowsOfParent(tax, p, gs)
  {
    if g != gs[0] {
      RowsOfParentComplete(tax, p, gs[1..], g, row);
    }
  }

  /** The parent / grandparent / child query for a list of parent ids. */
  function MappingQuery(tax: seq<Location>, ids: seq<Int32>): seq<MappingRow> {
    MappingFrom(tax, ids, tax)
  }

  /** Every mapping row belongs to a listed parent that has a parent
      location, with that location's name as the grandparent. */
  lemma MappingQuerySound(tax: seq<Location>, ids: seq<Int32>, row: MappingRow)
    requires row in MappingQuery(tax, ids)
    ensures exists p, g :: MappingSource(tax, ids, p, g, row)
  {
    MappingFromSource(tax, ids, tax, row);
  }

  /** And every child of such a parent gets its row; a parent without
      children gets the childless row. */
  lemma MappingQueryComplete(tax: seq<Location>, ids: seq<Int32>, p: Location, g: Location)
    requires p in tax && g in tax && p.id in ids && p.parentId == Some(g.id)
    ensures forall c | c in tax && c.parentId == Some(p.id) :: ChildRow(p, g, c) in MappingQuery(tax, ids)
    ensures ChildrenOf(tax, p.id) == [] ==> ChildlessRow(p, g) in MappingQuery(tax, ids)
  {
    var kids := ChildrenOf(tax, p.id);
    forall c | c in tax && c.parentId == Some(p.id)
      ensures ChildRow(p, g, c) in MappingQuery(tax, ids)
    {
      assert c in kids;
      var i :| 0 <= i < |kids| && kids[i] == c;
      assert RowsOfPair(tax, p, g)[i] == ChildRow(p, g, c);
      MappingFromComplete(tax, ids, tax, p, g, ChildRow(p, g, c));
    }
    if kids == [] {
      assert RowsOfPair(tax, p, g) == [ChildlessRow(p, g)];
      MappingFromComplete(tax, ids, tax, p, g, ChildlessRow(p, g));
    }
  }

  /** `GetChildParentGrandparent(selectedLocationIds)`: a null or empty
      list asks for the children of location 1; otherwise the list is
      converted piece by piece, and a piece SQL cannot convert fails the
      query. */
  function ChildParentGrandparent(tax: seq<Location>, selectedIds: Option<string>): (r: Result<seq<MappingRow>>)
    ensures (selectedIds.None? || selectedIds == Some("")) ==> r == Ok(MappingQuery(tax, [1]))
    ensures selectedIds.Some? && selectedIds != Some("") ==>
      (r.Ok? <==> SqlIdList(selectedIds.value).Ok?)
      && (r.Ok? ==> r.value == MappingQuery(tax, SqlIdList(selectedIds.value).value))
  {
    if selectedIds.None? || selectedIds == Some("") then Ok(MappingQuery(tax, [1]))
    else
      var ids :- SqlIdList(selectedIds.value);
      Ok(MappingQuery(tax, ids))
  }

  // ---------------------------------------------------------------- grandparent tables

  /** LINQ `Distinct`: the first occurrence of each name, in order. */
  function Distinct(xs: seq<string>): (r: seq<string>)
    ensures forall x :: x in r <==> x in xs
    ensures DistinctNames(r)
  {
    if |xs| == 0 then []
    else
      var front := Distinct(xs[..|xs| - 1]);
      var last := xs[|xs| - 1];
      assert xs == xs[..|xs| - 1] + [last];
      if last in front then front else front + [last]
  }

  /** The named columns the row holds, in the order given, with their
      values. */
  function RowPairs(row: Row, cols: seq<string>): (r: seq<(string, RawValue)>)
    ensures forall i | 0 <= i < |r| :: r[i].0 in cols && r[i].0 in row && r[i].1 == row[r[i].0]
  {
    if |cols| == 0 then []
    else (if cols[0] in row then [(cols[0], row[cols[0]])] else []) + RowPairs(row, cols[1..])
  }

  lemma {:induction false} RowPairsComplete(row: Row, cols: seq<string>, c: string)
    requires c in cols && c in row
    ensures (c, row[c]) in RowPairs(row, cols)
  {
    if cols[0] != c {
      RowPairsComplete(row, cols[1..], c);
    }
  }

  /** `SELECT * FROM [gp] WHERE PersonId = person` with the two reserved
      columns dropped, in declared order. A missing table (the `OBJECT_ID`
      guard) and a missing row both give no columns. */
  function TableColumns(db: Db, person: int, gp: string): (r: seq<(string, RawValue)>)
    ensures gp !in db || person !in db[gp].rows ==> r == []
    ensures forall i | 0 <= i < |r| :: Cell(db, gp, person, r[i].0) == Some(r[i].1) && !IsReserved(r[i].0)
  {
    if gp in db && person in db[gp].rows then RowPairs(db[gp].rows[person], DataColumns(db[gp].columns))
    else []
  }

  /** A column the table declares and the person's row holds is listed. */
  lemma TableColumnsComplete(db: Db, person: int, gp: string, c: string)
    requires gp in db && person in db[gp].rows && c in db[gp].rows[person]
    requires HasColumn(db[gp], c) && !IsReserved(c)
    ensures (c, db[gp].rows[person][c]) in TableColumns(db, person, gp)
  {
    RowPairsComplete(db[gp].rows[person], DataColumns(db[gp].columns), c);
  }

  function FetchTables(db: Db, person: int, gps: seq<string>): (r: seq<(string, seq<(string, RawValue)>)>)
    ensures |r| == |gps| && forall i | 0 <= i < |gps| :: r[i] == (gps[i], TableColumns(db, person, gps[i]))
  {
    if |gps| == 0 then [] else [(gps[0], TableColumns(db, person, gps[0]))] + FetchTables(db, person, gps[1..])
  }

  function GrandparentNodes(rows: seq<MappingRow>): (r: seq<string>)
    ensures |r| == |rows| && forall i | 0 <= i < |rows| :: r[i] == rows[i].grandparentNode
  {
    if |rows| == 0 then [] else [rows[0].grandparentNode] + GrandparentNodes(rows[1..])
  }

  function ParentNodes(rows: seq<MappingRow>): (r: seq<string>)
    ensures |r| == |rows| && forall i | 0 <= i < |rows| :: r[i] == rows[i].parentNode
  {
    if |rows| == 0 then [] else [rows[0].parentNode] + ParentNodes(rows[1..])
  }

  /** `GetGrandparentTableColumns`: one entry per distinct grandparent, in
      first-occurrence order, holding the person's columns of that table. */
  function GrandparentTableColumns(db: Db, person: int, rows: seq<MappingRow>): (r: seq<(string, seq<(string, RawValue)>)>)
    ensures forall gp :: gp in Firsts(r) <==> gp in GrandparentNodes(rows)
    ensures DistinctNames(Firsts(r))
    ensures forall i | 0 <= i < |r| :: r[i].1 == TableColumns(db, person, r[i].0)
  {
    var gps := Distinct(GrandparentNodes(rows));
    var r := FetchTables(db, person, gps);
    assert Firsts(r) == gps;
    r
  }

  // ---------------------------------------------------------------- parent lookup

  /** The pairs whose name is requested, in order. */
  function Requested(pairs: seq<(string, RawValue)>, parents: seq<string>): (r: seq<(string, RawValue)>)
    ensures forall x :: x in r <==> x in pairs && x.0 in parents
  {
    if |pairs| == 0 then []
    else
      assert forall x | x in pairs[1..] :: x in pairs;
      assert forall x | x in pairs && x != pairs[0] :: x in pairs[1..];
      (if pairs[0].0 in parents then [pairs[0]] else []) + Requested(pairs[1..], parents)
  }

  /** `SelectMany` over the fetched tables of the requested columns. */
  function RequestedColumns(tables: seq<(string, seq<(string, RawValue)>)>, parents: seq<string>): (r: seq<(string, RawValue)>)
    ensures forall x | x in r :: x.0 in parents && exists i | 0 <= i < |tables| :: x in tables[i].1
  {
    if |tables| == 0 then []
    else
      var rest := RequestedColumns(tables[1..], parents);
      assert forall i | 1 <= i < |tables| :: tables[i] == tables[1..][i - 1];
      Requested(tables[0].1, parents) + rest
  }

  lemma FirstsAppend<V>(a: seq<(string, V)>, b: seq<(string, V)>)
    ensures Firsts(a + b) == Firsts(a) + Firsts(b)
  {
    assert forall i | 0 <= i < |b| :: (a + b)[|a| + i] == b[i];
  }

  lemma RepeatAcross<V>(a: seq<(string, V)>, b: seq<(string, V)>, c: string)
    requires c in Firsts(a) && c in Firsts(b)
    ensures !DistinctNames(Firsts(a + b))
  {
    FirstsAppend(a, b);
    var i :| 0 <= i < |a| && Firsts(a)[i] == c;
    var j :| 0 <= j < |b| && Firsts(b)[j] == c;
    assert Firsts(a + b)[i] == Firsts(a + b)[|a| + j];
  }

  lemma RepeatInSuffix<V>(a: seq<(string, V)>, b: seq<(string, V)>)
    requires !DistinctNames(Firsts(b))
    ensures !DistinctNames(Firsts(a + b))
  {
    var i, j :| 0 <= i < j < |b| && Firsts(b)[i] == Firsts(b)[j];
    var ab := a + b;
    assert ab[|a| + i] == b[i] && ab[|a| + j] == b[j];
    assert Firsts(ab)[|a| + i] == Firsts(ab)[|a| + j];
  }

  lemma RequestedName(pairs: seq<(string, RawValue)>, parents: seq<string>, c: string)
    requires c in parents && c in Firsts(pairs)
    ensures c in Firsts(Requested(pairs, parents))
  {
    var i :| 0 <= i < |pairs| && pairs[i].0 == c;
    var r := Requested(pairs, parents);
    assert pairs[i] in r;
    var k :| 0 <= k < |r| && r[k] == pairs[i];
    assert Firsts(r)[k] == c;
  }

  lemma {:induction false} RequestedColumnsName(tables: seq<(string, seq<(string, RawValue)>)>, parents: seq<string>, j: nat, c: string)
    requires j < |tables| && c in parents && c in Firsts(tables[j].1)
    ensures c in Firsts(RequestedColumns(tables, parents))
  {
    var here := Requested(tables[0].1, parents);
    var rest := RequestedColumns(tables[1..], parents);
    FirstsAppend(here, rest);
    if j == 0 {
      RequestedName(tables[0].1, parents, c);
    } else {
      RequestedColumnsName(tables[1..], parents, j - 1, c);
    }
  }

  /** Two tables that both hold a requested column of the same name put
      that name twice into the requested list. */
  lemma {:induction false} RequestedColumnsRepeat(tables: seq<(string, seq<(string, RawValue)>)>, parents: seq<string>, i: nat, j: nat, c: string)
    requires i < j < |tables| && c in parents && c in Firsts(tables[i].1) && c in Firsts(tables[j].1)
    ensures !DistinctNames(Firsts(RequestedColumns(tables, parents)))
  {
    var here := Requested(tables[0].1, parents);
    var rest := RequestedColumns(tables[1..], parents);
    assert RequestedColumns(tables, parents) == here + rest;
    if i == 0 {
      RequestedName(tables[0].1, parents, c);
      RequestedColumnsName(tables[1..], parents, j - 1, c);
      RepeatAcross(here, rest, c);
    } else {
      RequestedColumnsRepeat(tables[1..], parents, i - 1, j - 1, c);
      RepeatInSuffix(here, rest);
    }
  }

  lemma {:induction false} RequestedColumnsHas(tables: seq<(string, seq<(string, RawValue)>)>, parents: seq<string>, i: nat, x: (string, RawValue))
    requires i < |tables| && x in tables[i].1 && x.0 in parents
    ensures x in RequestedColumns(tables, parents)
  {
    if i > 0 {
      RequestedColumnsHas(tables[1..], parents, i - 1, x);
    }
  }

  lemma DistinctNamesCons<V>(xs: seq<(string, V)>)
    requires |xs| > 0
    ensures DistinctNames(Firsts(xs)) <==> xs[0].0 !in Firsts(xs[1..]) && DistinctNames(Firsts(xs[1..]))
  {
    var n := Firsts(xs);
    assert n == [xs[0].0] + Firsts(xs[1..]);
    if xs[0].0 in Firsts(xs[1..]) {
      var k :| 0 <= k < |xs| - 1 && Firsts(xs[1..])[k] == xs[0].0;
      assert n[0] == n[k + 1];
    }
    if !DistinctNames(Firsts(xs[1..])) {
      var a, b :| 0 <= a < b < |xs| - 1 && Firsts(xs[1..])[a] == Firsts(xs[1..])[b];
      assert n[a + 1] == n[b + 1];
    }
  }

  /** `ToDictionary(x => x.TableName, x => x.ColumnValue)`: a repeated key
      throws; otherwise every pair is in the map and nothing else is. */
  function ToDictionary(pairs: seq<(string, RawValue)>): (r: Result<map<string, RawValue>>)
    ensures r.Ok? <==> DistinctNames(Firsts(pairs))
    ensures r.Err? ==> r == Err(DuplicateKey)
    ensures r.Ok? ==> forall k :: k in r.value <==> k in Firsts(pairs)
    ensures r.Ok? ==> forall i | 0 <= i < |pairs| :: r.value[pairs[i].0] == pairs[i].1
  {
    if |pairs| == 0 then Ok(map[])
    else
      var first := pairs[0];
      var tail := pairs[1..];
      assert Firsts(pairs) == [first.0] + Firsts(tail);
      assert forall i | 1 <= i < |pairs| :: pairs[i] == tail[i - 1];
      DistinctNamesCons(pairs);
      match ToDictionary(tail)
      case Err(e) => Err(e)
      case Ok(rest) =>
        if first.0 in rest then Err(DuplicateKey)
        else Ok(rest[first.0 := first.1])
  }

  /** `GetSelectedParentsAndBitmap` as written: the requested parents'
      columns of all fetched tables, keyed by column name alone. */
  function SelectedParentsAndBitmap(rows: seq<MappingRow>, tables: seq<(string, seq<(string, RawValue)>)>): Result<map<string, RawValue>> {
    ToDictionary(RequestedColumns(tables, Distinct(ParentNodes(rows))))
  }

  /** The first value stored under a name. */
  function Lookup<V>(xs: seq<(string, V)>, k: string): (r: Option<V>)
    ensures r.None? <==> k !in Firsts(xs)
    ensures r.Some? ==> (k, r.value) in xs
  {
    if |xs| == 0 then None
    else if xs[0].0 == k then Some(xs[0].1)
    else
      assert Firsts(xs) == [xs[0].0] + Firsts(xs[1..]);
      Lookup(xs[1..], k)
  }

  /** The corrected lookup: parent column `c` in the fetched table of
      grandparent `gp`. */
  function ColumnIn(tables: seq<(string, seq<(string, RawValue)>)>, gp: string, c: string): Option<RawValue> {
    match Lookup(tables, gp)
    case None => None
    case Some(cols) => Lookup(cols, c)
  }

  /** `IsSelected` as written: the parent's name is a key of the lookup and
      its value decodes to a mask with the child's bit set. */
  predicate SelectedAsWritten(lookup: map<string, RawValue>, row: MappingRow) {
    row.parentNode in lookup && IsSelectedBit(lookup[row.parentNode], row.childId)
  }

  /** `IsSelected` on the corrected lookup. */
  predicate SelectedIn(tables: seq<(string, seq<(string, RawValue)>)>, row: MappingRow) {
    var v := ColumnIn(tables, row.grandparentNode, row.parentNode);
    v.Some? && IsSelectedBit(v.value, row.childId)
  }

  // ---------------------------------------------------------------- views

  /** One `LocationViewModel`. `PersonId` is never set by the builder and
      is left out. */
  datatype LocationView = LocationView(
    childId: int,
    childLocationId: int,
    childNode: Option<string>,
    parentId: int,
    parentNode: string,
    nameTypeName: string,
    isSelected: bool)

  const UnknownNameType: string := "Unknown NameType"

  /** The name-type join with `DefaultIfEmpty`: the name of the row's name
      type, or the fallback when there is none. */
  function NameTypeName(nameTypes: map<int, string>, id: Option<int>): (r: string)
    ensures id.Some? && id.value in nameTypes ==> r == nameTypes[id.value]
    ensures r == UnknownNameType <==> id.None? || id.value !in nameTypes || nameTypes[id.value] == UnknownNameType
  {
    if id.Some? && id.value in nameTypes then nameTypes[id.value] else UnknownNameType
  }

  /** `BuildLocationViewModels`: one view per mapping row, in row order,
      with the given selection flags. */
  function BuildViews(rows: seq<MappingRow>, nameTypes: map<int, string>, selected: seq<bool>): (r: seq<LocationView>)
    requires |selected| == |rows|
    ensures |r| == |rows|
    ensures forall i | 0 <= i < |rows| ::
      && r[i].childId == rows[i].childId && r[i].childLocationId == rows[i].childLocationId
      && r[i].childNode == rows[i].childNode && r[i].parentId == rows[i].parentId
      && r[i].parentNode == rows[i].parentNode && r[i].isSelected == selected[i]
      && r[i].nameTypeName == NameTypeName(nameTypes, rows[i].nameTypeId)
  {
    if |rows| == 0 then []
    else
      var row := rows[0];
      [LocationView(row.childId, row.childLocationId, row.childNode, row.parentId, row.parentNode,
                    NameTypeName(nameTypes, row.nameTypeId), selected[0])]
      + BuildViews(rows[1..], nameTypes, selected[1..])
  }

  function FlagsAsWritten(rows: seq<MappingRow>, lookup: map<string, RawValue>): (r: seq<bool>)
    ensures |r| == |rows| && forall i | 0 <= i < |rows| :: r[i] == SelectedAsWritten(lookup, rows[i])
  {
    if |rows| == 0 then [] else [SelectedAsWritten(lookup, rows[0])] + FlagsAsWritten(rows[1..], lookup)
  }

  function Flags(rows: seq<MappingRow>, tables: seq<(string, seq<(string, RawValue)>)>): (r: seq<bool>)
    ensures |r| == |rows| && forall i | 0 <= i < |rows| :: r[i] == SelectedIn(tables, rows[i])
  {
    if |rows| == 0 then [] else [SelectedIn(tables, rows[0])] + Flags(rows[1..], tables)
  }

  /** `GetLocationViewModelsAsync` as written. */
  function LocationViewModelsAsWritten(db: Db, tax: seq<Location>, nameTypes: map<int, string>, person: int, selectedIds: Option<string>): (r: Result<seq<LocationView>>)
    ensures ChildParentGrandparent(tax, selectedIds) == Ok([]) ==> r == Ok([])
    ensures r.Ok? ==> ChildParentGrandparent(tax, selectedIds).Ok? && |r.value| == |ChildParentGrandparent(tax, selectedIds).value|
    ensures var m := ChildParentGrandparent(tax, selectedIds);
      r.Ok? <==> m.Ok? && (m.value == [] || SelectedParentsAndBitmap(m.value, GrandparentTableColumns(db, person, m.value)).Ok?)
    ensures var m := ChildParentGrandparent(tax, selectedIds);
      r.Ok? && m.Ok? && m.value != [] ==>
        var lookup := SelectedParentsAndBitmap(m.value, GrandparentTableColumns(db, person, m.value)).value;
        forall i | 0 <= i < |r.value| ::
          && r.value[i].isSelected == SelectedAsWritten(lookup, m.value[i])
          && r.value[i].childId == m.value[i].childId
          && r.value[i].parentNode == m.value[i].parentNode
  {
    var rows :- ChildParentGrandparent(tax, selectedIds);
    if |rows| == 0 then Ok([])
    else
      var lookup :- SelectedParentsAndBitmap(rows, GrandparentTableColumns(db, person, rows));
      Ok(BuildViews(rows, nameTypes, FlagsAsWritten(rows, lookup)))
  }

  /** `GetLocationViewModelsAsync` with the corrected lookup: it fails only
      when the id list does not convert, and gives one view per mapping
      row (none for no rows). */
  function LocationViewModels(db: Db, tax: seq<Location>, nameTypes: map<int, string>, person: int, selectedIds: Option<string>): (r: Result<seq<LocationView>>)
    ensures r.Ok? <==> ChildParentGrandparent(tax, selectedIds).Ok?
    ensures r.Ok? ==> |r.value| == |ChildParentGrandparent(tax, selectedIds).value|
  {
    var rows :- ChildParentGrandparent(tax, selectedIds);
    if |rows| == 0 then Ok([])
    else Ok(BuildViews(rows, nameTypes, Flags(rows, GrandparentTableColumns(db, person, rows))))
  }

  // ---------------------------------------------------------------- what a view shows

  /** The stored cell of parent column `c` in table `t` holds a mask whose
      bit for `child` is set. */
  predicate CellSelected(db: Db, t: string, person: int, c: string, child: int) {
    var v := Cell(db, t, person, c);
    v.Some? && IsSelectedBit(v.value, child)
  }

  /** The fetched columns of a grandparent of the mapping are that table's
      columns for the person. */
  lemma FetchedTableOf(db: Db, person: int, rows: seq<MappingRow>, i: nat)
    requires i < |rows|
    ensures Lookup(GrandparentTableColumns(db, person, rows), rows[i].grandparentNode)
      == Some(TableColumns(db, person, rows[i].grandparentNode))
  {
    var tables := GrandparentTableColumns(db, person, rows);
    var gp := rows[i].grandparentNode;
    assert GrandparentNodes(rows)[i] == gp;
    var cols := Lookup(tables, gp).value;
    var k :| 0 <= k < |tables| && tables[k] == (gp, cols);
  }

  /** Soundness of the corrected flag: a view is marked selected only when
      its own grandparent table holds the person's row, that row has the
      parent's column, and the stored value decodes to a mask with the
      child's bit. A missing table, row or column, or a value that does not
      decode, leaves it unselected. */
  lemma SelectedInSound(db: Db, person: int, rows: seq<MappingRow>, i: nat)
    requires i < |rows|
    ensures SelectedIn(GrandparentTableColumns(db, person, rows), rows[i]) ==>
      CellSelected(db, rows[i].grandparentNode, person, rows[i].parentNode, rows[i].childId)
  {
    FetchedTableOf(db, person, rows, i);
  }

  /** On well-formed tables, a non-reserved column the person's row holds
      is among the fetched columns. */
  lemma ColumnStored(db: Db, person: int, gp: string, c: string)
    requires WellFormed(db) && !IsReserved(c) && Cell(db, gp, person, c).Some?
    ensures c in Firsts(TableColumns(db, person, gp))
  {
    assert RowsFit(db[gp]);
    assert c in RowKeys(db[gp]);
    TableColumnsComplete(db, person, gp, c);
    var cols := TableColumns(db, person, gp);
    var k :| 0 <= k < |cols| && cols[k] == (c, db[gp].rows[person][c]);
    assert Firsts(cols)[k] == c;
  }

  /** Completeness of the corrected flag on well-formed tables, for a
      parent that is not named like a reserved column. */
  lemma SelectedInComplete(db: Db, person: int, rows: seq<MappingRow>, i: nat)
    requires i < |rows| && WellFormed(db) && !IsReserved(rows[i].parentNode)
    ensures CellSelected(db, rows[i].grandparentNode, person, rows[i].parentNode, rows[i].childId) ==>
      SelectedIn(GrandparentTableColumns(db, person, rows), rows[i])
  {
    var gp := rows[i].grandparentNode;
    var c := rows[i].parentNode;
    FetchedTableOf(db, person, rows, i);
    if Cell(db, gp, person, c).Some? {
      ColumnStored(db, person, gp, c);
    }
  }

  /** The view the corrected builder returns for a mapping row: the row's
      identity, and a selection flag that is the stored bit of the row's
      own grandparent cell. */
  lemma ViewSelection(db: Db, tax: seq<Location>, nameTypes: map<int, string>, person: int, selectedIds: Option<string>, i: nat)
    requires LocationViewModels(db, tax, nameTypes, person, selectedIds).Ok?
    requires i < |LocationViewModels(db, tax, nameTypes, person, selectedIds).value|
    ensures var row := ChildParentGrandparent(tax, selectedIds).value[i];
      var v := LocationViewModels(db, tax, nameTypes, person, selectedIds).value[i];
      && v.parentId == row.parentId && v.parentNode == row.parentNode && v.childId == row.childId
      && (v.isSelected ==> CellSelected(db, row.grandparentNode, person, row.parentNode, row.childId))
      && (WellFormed(db) && !IsReserved(row.parentNode) && CellSelected(db, row.grandparentNode, person, row.parentNode, row.childId) ==> v.isSelected)
  {
    var rows := ChildParentGrandparent(tax, selectedIds).value;
    SelectedInSound(db, person, rows, i);
    if WellFormed(db) && !IsReserved(rows[i].parentNode) {
      SelectedInComplete(db, person, rows, i);
    }
  }

  // ---------------------------------------------------------------- the parent-name lookup

  /** Where a mapping row's grandparent sits among the fetched tables, and
      that its parent's stored column is among them. */
  lemma TableIndex(db: Db, person: int, rows: seq<MappingRow>, i: nat) returns (k: nat)
    requires i < |rows| && WellFormed(db) && !IsReserved(rows[i].parentNode)
    requires Cell(db, rows[i].grandparentNode, person, rows[i].parentNode).Some?
    ensures var tables := GrandparentTableColumns(db, person, rows);
      k < |tables| && tables[k].0 == rows[i].grandparentNode && rows[i].parentNode in Firsts(tables[k].1)
  {
    var tables := GrandparentTableColumns(db, person, rows);
    var gp := rows[i].grandparentNode;
    var cols := TableColumns(db, person, gp);
    FetchedTableOf(db, person, rows, i);
    assert (gp, cols) in tables;
    k :| 0 <= k < |tables| && tables[k] == (gp, cols);
    ColumnStored(db, person, gp, rows[i].parentNode);
  }

  /** As written, two mapping rows whose parents share a name under two
      different grandparents, with the person's row in both tables holding
      that column, make the lookup's `ToDictionary` throw. */
  lemma SharedParentNameDuplicates(db: Db, person: int, rows: seq<MappingRow>, i: nat, j: nat)
    requires WellFormed(db) && i < |rows| && j < |rows|
    requires rows[i].parentNode == rows[j].parentNode && !IsReserved(rows[i].parentNode)
    requires rows[i].grandparentNode != rows[j].grandparentNode
    requires Cell(db, rows[i].grandparentNode, person, rows[i].parentNode).Some?
    requires Cell(db, rows[j].grandparentNode, person, rows[j].parentNode).Some?
    ensures SelectedParentsAndBitmap(rows, GrandparentTableColumns(db, person, rows)) == Err(DuplicateKey)
  {
    var tables := GrandparentTableColumns(db, person, rows);
    var c := rows[i].parentNode;
    var parents := Distinct(ParentNodes(rows));
    assert ParentNodes(rows)[i] == c;
    var a := TableIndex(db, person, rows, i);
    var b := TableIndex(db, person, rows, j);
    if a < b {
      RequestedColumnsRepeat(tables, parents, a, b, c);
    } else {
      RequestedColumnsRepeat(tables, parents, b, a, c);
    }
  }

  /** The same at the level of the whole builder: the as-written view
      fails, while the corrected builder returns the views. */
  lemma AsWrittenFailsOnSharedParentName(db: Db, tax: seq<Location>, nameTypes: map<int, string>, person: int, selectedIds: Option<string>, i: nat, j: nat)
    requires WellFormed(db)
    requires ChildParentGrandparent(tax, selectedIds).Ok?
    requires var rows := ChildParentGrandparent(tax, selectedIds).value;
      && i < |rows| && j < |rows|
      && rows[i].parentNode == rows[j].parentNode && !IsReserved(rows[i].parentNode)
      && rows[i].grandparentNode != rows[j].grandparentNode
      && Cell(db, rows[i].grandparentNode, person, rows[i].parentNode).Some?
      && Cell(db, rows[j].grandparentNode, person, rows[j].parentNode).Some?
    ensures LocationViewModelsAsWritten(db, tax, nameTypes, person, selectedIds) == Err(DuplicateKey)
    ensures LocationViewModels(db, tax, nameTypes, person, selectedIds).Ok?
  {
    SharedParentNameDuplicates(db, person, ChildParentGrandparent(tax, selectedIds).value, i, j);
  }

  /** A concrete input for the silent case: parent `X` under `G` is
      requested, and `G` has no stored `X`, but table `H` (fetched for
      requested parent `Y`) has a column `X` holding mask 1. As written the
      view of child 0 under `X` shows selected; the corrected lookup does
      not. */
  lemma AsWrittenReadsOtherTable()
    ensures var rows := [MappingRow("X", "G", None, 0, 0, None, 2), MappingRow("Y", "H", None, 0, 0, None, 3)];
      var tables := [("G", []), ("H", [("X", IntV(1)), ("Y", IntV(0))])];
      var lookup := SelectedParentsAndBitmap(rows, tables);
      && lookup.Ok? && SelectedAsWritten(lookup.value, rows[0])
      && !SelectedIn(tables, rows[0])
  {
    var rows := [MappingRow("X", "G", None, 0, 0, None, 2), MappingRow("Y", "H", None, 0, 0, None, 3)];
    var cols: seq<(string, RawValue)> := [("X", IntV(1)), ("Y", IntV(0))];
    var tables: seq<(string, seq<(string, RawValue)>)> := [("G", []), ("H", cols)];
    OtherTableRequests();
    assert Firsts(cols) == ["X", "Y"];
    var lookup := ToDictionary(cols).value;
    assert lookup["X"] == IntV(1);
    assert Lookup(tables, "G") == Some([]);
  }

  lemma OtherTableRequests()
    ensures RequestedColumns([("G", []), ("H", [("X", IntV(1)), ("Y", IntV(0))])],
      Distinct(ParentNodes([MappingRow("X", "G", None, 0, 0, None, 2), MappingRow("Y", "H", None, 0, 0, None, 3)])))
      == [("X", IntV(1)), ("Y", IntV(0))]
  {
    var rows := [MappingRow("X", "G", None, 0, 0, None, 2), MappingRow("Y", "H", None, 0, 0, None, 3)];
    var cols: seq<(string, RawValue)> := [("X", IntV(1)), ("Y", IntV(0))];
    var tables: seq<(string, seq<(string, RawValue)>)> := [("G", []), ("H", cols)];
    var parents := ["X", "Y"];
    assert ParentNodes(rows) == parents;
    assert Distinct(parents) == parents by {
      assert parents[..1] == ["X"];
      assert Distinct(["X"]) == ["X"];
    }
    assert Requested(cols, parents) == cols by {
      assert cols[1..] == [("Y", IntV(0))];
    }
    var last := tables[1..];
    assert last == [("H", cols)] && last[1..] == [];
    assert RequestedColumns(last, parents) == cols + RequestedColumns([], parents);
    assert Requested(tables[0].1, parents) == [];
  }

  lemma NameOfMember<V>(xs: seq<(string, V)>, x: (string, V))
    requires x in xs
    ensures x.0 in Firsts(xs)
  {
    var k :| 0 <= k < |xs| && xs[k] == x;
    assert Firsts(xs)[k] == x.0;
  }

  lemma SameNameSameEntry<V>(xs: seq<(string, V)>, x: (string, V), y: (string, V))
    requires DistinctNames(Firsts(xs)) && x in xs && y in xs && x.0 == y.0
    ensures x == y
  {
    var a :| 0 <= a < |xs| && xs[a] == x;
    var b :| 0 <= b < |xs| && xs[b] == y;
    assert Firsts(xs)[a] == Firsts(xs)[b];
  }

  /** No fetched table other than the row's own grandparent's holds a
      column named like the row's parent. */
  predicate NoForeignColumn(tables: seq<(string, seq<(string, RawValue)>)>, row: MappingRow) {
    forall k | 0 <= k < |tables| && tables[k].0 != row.grandparentNode :: row.parentNode !in Firsts(tables[k].1)
  }

  /** A value the corrected lookup finds is the one the as-written lookup
      holds under the parent's name, whenever the latter does not throw. */
  lemma OwnValueInLookup(rows: seq<MappingRow>, tables: seq<(string, seq<(string, RawValue)>)>, i: nat)
    requires i < |rows| && SelectedParentsAndBitmap(rows, tables).Ok?
    requires ColumnIn(tables, rows[i].grandparentNode, rows[i].parentNode).Some?
    ensures var lookup := SelectedParentsAndBitmap(rows, tables).value;
      rows[i].parentNode in lookup
      && lookup[rows[i].parentNode] == ColumnIn(tables, rows[i].grandparentNode, rows[i].parentNode).value
  {
    var c := rows[i].parentNode;
    var gp := rows[i].grandparentNode;
    var parents := Distinct(ParentNodes(rows));
    assert ParentNodes(rows)[i] == c;
    var req := RequestedColumns(tables, parents);
    var found := ColumnIn(tables, gp, c).value;
    var cols := Lookup(tables, gp).value;
    var k :| 0 <= k < |tables| && tables[k] == (gp, cols);
    RequestedColumnsHas(tables, parents, k, (c, found));
    var a :| 0 <= a < |req| && req[a] == (c, found);
    assert Firsts(req)[a] == c;
  }

  /** Under an unambiguous name, a parent the as-written lookup holds is
      found by the corrected one too. */
  lemma LookupFromOwnTable(rows: seq<MappingRow>, tables: seq<(string, seq<(string, RawValue)>)>, i: nat)
    requires i < |rows| && DistinctNames(Firsts(tables))
    requires SelectedParentsAndBitmap(rows, tables).Ok?
    requires NoForeignColumn(tables, rows[i])
    requires rows[i].parentNode in SelectedParentsAndBitmap(rows, tables).value
    ensures ColumnIn(tables, rows[i].grandparentNode, rows[i].parentNode).Some?
  {
    var c := rows[i].parentNode;
    var gp := rows[i].grandparentNode;
    var req := RequestedColumns(tables, Distinct(ParentNodes(rows)));
    var a :| 0 <= a < |req| && Firsts(req)[a] == c;
    var k :| 0 <= k < |tables| && req[a] in tables[k].1;
    NameOfMember(tables[k].1, req[a]);
    NameOfMember(tables, tables[k]);
    var cols := Lookup(tables, gp).value;
    var k' :| 0 <= k' < |tables| && tables[k'] == (gp, cols);
    SameNameSameEntry(tables, tables[k], tables[k']);
  }

  /** Where the parent's name is unambiguous among the fetched tables, the
      as-written lookup gives the same flag as the corrected one. */
  lemma LookupAgreesWhenUnambiguous(rows: seq<MappingRow>, tables: seq<(string, seq<(string, RawValue)>)>, i: nat)
    requires i < |rows| && DistinctNames(Firsts(tables))
    requires SelectedParentsAndBitmap(rows, tables).Ok?
    requires NoForeignColumn(tables, rows[i])
    ensures SelectedAsWritten(SelectedParentsAndBitmap(rows, tables).value, rows[i]) == SelectedIn(tables, rows[i])
  {
    if ColumnIn(tables, rows[i].grandparentNode, rows[i].parentNode).Some? {
      OwnValueInLookup(rows, tables, i);
    } else if rows[i].parentNode in SelectedParentsAndBitmap(rows, tables).value {
      LookupFromOwnTable(rows, tables, i);
    }
  }

  lemma FlagsAgreeWhenUnambiguous(rows: seq<MappingRow>, tables: seq<(string, seq<(string, RawValue)>)>)
    requires DistinctNames(Firsts(tables)) && SelectedParentsAndBitmap(rows, tables).Ok?
    requires forall i | 0 <= i < |rows| :: NoForeignColumn(tables, rows[i])
    ensures FlagsAsWritten(rows, SelectedParentsAndBitmap(rows, tables).value) == Flags(rows, tables)
  {
    var lookup := SelectedParentsAndBitmap(rows, tables).value;
    forall i | 0 <= i < |rows|
      ensures FlagsAsWritten(rows, lookup)[i] == Flags(rows, tables)[i]
    {
      LookupAgreesWhenUnambiguous(rows, tables, i);
    }
  }

  /** When every mapping row's parent name is unambiguous among the fetched
      tables and the as-written lookup does not throw, the as-written
      builder gives exactly the corrected views. */
  lemma AsWrittenAgreesWhenUnambiguous(db: Db, tax: seq<Location>, nameTypes: map<int, string>, person: int, selectedIds: Option<string>)
    requires LocationViewModelsAsWritten(db, tax, nameTypes, person, selectedIds).Ok?
    requires var rows := ChildParentGrandparent(tax, selectedIds).value;
      forall i | 0 <= i < |rows| :: NoForeignColumn(GrandparentTableColumns(db, person, rows), rows[i])
    ensures LocationViewModelsAsWritten(db, tax, nameTypes, person, selectedIds) == LocationViewModels(db, tax, nameTypes, person, selectedIds)
  {
    var rows := ChildParentGrandparent(tax, selectedIds).value;
    if |rows| > 0 {
      FlagsAgreeWhenUnambiguous(rows, GrandparentTableColumns(db, person, rows));
    }
  }

  // ---------------------------------------------------------------- save, then view

  /** The locations a mapping row was built from. */
  predicate RowOf(tax: seq<Location>, p: Location, g: Location, row: MappingRow) {
    p in tax && g in tax && p.parentId == Some(g.id)
    && row.parentId == p.id && row.parentNode == p.name && row.grandparentNode == g.name
  }

  lemma MappingRowOrigin(tax: seq<Location>, selectedIds: Option<string>, i: nat)
    requires ChildParentGrandparent(tax, selectedIds).Ok?
    requires i < |ChildParentGrandparent(tax, selectedIds).value|
    ensures exists p, g :: RowOf(tax, p, g, ChildParentGrandparent(tax, selectedIds).value[i])
  {
    var rows := ChildParentGrandparent(tax, selectedIds).value;
    var ids := if selectedIds.None? || selectedIds == Some("") then [1] else SqlIdList(selectedIds.value).value;
    assert rows == MappingQuery(tax, ids);
    MappingQuerySound(tax, ids, rows[i]);
    var p, g :| MappingSource(tax, ids, p, g, rows[i]);
    assert RowOf(tax, p, g, rows[i]);
  }

  /** The round trip of the page: after a save of selection `sel`, every
      view of a parent saved in entry `k` (whose cell no other entry
      writes) shows a child as selected exactly when the child's id was
      among the ids selected for that parent. */
  lemma SavedSelectionShown(db: Db, tax: seq<Location>, nameTypes: map<int, string>, person: int, sel: Selection,
                            selectedIds: Option<string>, k: nat, p: Location, g: Location, i: nat)
    requires WellFormed(db) && UniqueIds(tax)
    requires SaveLocation(db, tax, person, sel).Ok?
    requires k < |sel| && p in tax && g in tax && p.id == sel[k].0 && p.parentId == Some(g.id) && g.name in db
    requires SoleEntryForCell(tax, sel, k, g.name, p.name)
    requires var saved := SaveLocation(db, tax, person, sel).value.0;
      && LocationViewModels(saved, tax, nameTypes, person, selectedIds).Ok?
      && i < |LocationViewModels(saved, tax, nameTypes, person, selectedIds).value|
      && LocationViewModels(saved, tax, nameTypes, person, selectedIds).value[i].parentId == p.id
    ensures var v := LocationViewModels(SaveLocation(db, tax, person, sel).value.0, tax, nameTypes, person, selectedIds).value[i];
      v.isSelected <==> v.childId >= 0 && v.childId in sel[k].1
  {
    var saved := SaveLocation(db, tax, person, sel).value.0;
    var ws := PlannedWrites(tax, sel);
    var rows := ChildParentGrandparent(tax, selectedIds).value;
    var v := LocationViewModels(saved, tax, nameTypes, person, selectedIds).value[i];
    MappingRowOrigin(tax, selectedIds, i);
    var p', g' :| RowOf(tax, p', g', rows[i]);
    ViewSelection(saved, tax, nameTypes, person, selectedIds, i);
    assert p' == p && g' == g;
    PlannedWriteOf(tax, sel, k, p, g);
    var w :| w in ws && w == Write(g.name, p.name, BitmaskedDictionary(sel)[k].1);
    var x :| 0 <= x < |ws| && ws[x] == w;
    assert Writable(db[g.name], p.name);
    SaveWritesClosedForm(db, person, ws);
    AppliedKeepsWellFormed(db, person, ws);
    SaveLocationSelects(db, tax, person, sel, k, p, g, v.childId);
  }
}
