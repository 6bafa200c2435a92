/** The summary report: every selected location as a hierarchy path
    `A > B > C`, found by a queue-driven walk over the per-person tables
    starting from the root table. */
module PathReport {
  import opened Wrappers
  import opened RawValues
  import opened Bitmask
  import opened Schema
  import opened SelectionStore

  // ---------------------------------------------------------------- hierarchy rows

  /** One row of the recursive hierarchy query. */
  datatype NodeRow = NodeRow(
    id: int,
    childId: int,
    name: string,
    parentName: Option<string>,
    path: string,
    level: int)

  const PathSeparator: string := " > "

  /** SQL Server's default recursion cap for a common table expression: the
      statement fails once the recursive member would run a 101st time. */
  const MaxRecursion: nat := 100

  /** The anchor member: the locations without a parent, each its own path. */
  function RootRows(tax: seq<Location>): (r: seq<NodeRow>)
    ensures forall x | x in r ::
      (x.parentName.None? && x.path == x.name
       && exists l | l in tax :: l.parentId.None? && x == NodeRow(l.id, l.childId, l.name, None, l.name, l.level))
  {
    if |tax| == 0 then []
    else
      var l := tax[0];
      assert forall x | x in tax[1..] :: x in tax;
      (if l.parentId.None? then [NodeRow(l.id, l.childId, l.name, None, l.name, l.level)] else [])
      + RootRows(tax[1..])
  }

  /** The row of location `l` under the hierarchy row `q` of its parent:
      the parent's path, the separator and the location's name. */
  function ChildNode(l: Location, q: NodeRow): NodeRow {
    NodeRow(l.id, l.childId, l.name, Some(q.name), q.path + PathSeparator + l.name, l.level)
  }

  /** Row `x` is location `l` under the hierarchy row `q` of its parent. */
  predicate ChildRowOf(l: Location, q: NodeRow, x: NodeRow) {
    l.parentId == Some(q.id) && x == ChildNode(l, q)
  }

  /** The rows of location `l` joined with the previous layer. */
  function JoinParents(l: Location, prev: seq<NodeRow>): (r: seq<NodeRow>)
    ensures forall x | x in r :: exists q | q in prev :: ChildRowOf(l, q, x)
    ensures forall q | q in prev && l.parentId == Some(q.id) :: ChildNode(l, q) in r
  {
    if |prev| == 0 then []
    else
      var q := prev[0];
      assert forall y | y in prev :: y == q || y in prev[1..];
      var here := if l.parentId == Some(q.id) then [ChildNode(l, q)] else [];
      assert forall x | x in here :: ChildRowOf(l, q, x);
      here + JoinParents(l, prev[1..])
  }

  /** One run of the recursive member: `Locations l INNER JOIN` the previous
      layer on `l.ParentId = r.Id`. */
  function ChildLayer(tax: seq<Location>, prev: seq<NodeRow>): (r: seq<NodeRow>)
    ensures forall x | x in r :: exists l, q | l in tax && q in prev :: ChildRowOf(l, q, x)
    ensures forall l, q | l in tax && q in prev && l.parentId == Some(q.id) :: ChildNode(l, q) in r
  {
    if |tax| == 0 then []
    else
      assert forall y | y in tax :: y == tax[0] || y in tax[1..];
      JoinParents(tax[0], prev) + ChildLayer(tax[1..], prev)
  }

  /** The rows the recursive member produces on its `k`-th run after
      `layer`; run zero is `layer` itself. */
  function Layer(tax: seq<Location>, layer: seq<NodeRow>, k: nat): seq<NodeRow>
    decreases k
  {
    if k == 0 then layer else Layer(tax, ChildLayer(tax, layer), k - 1)
  }

  /** An empty layer has no successors. */
  lemma {:induction false} EmptyLayerStays(tax: seq<Location>, layer: seq<NodeRow>, k: nat)
    requires layer == []
    ensures Layer(tax, layer, k) == []
    decreases k
  {
    if k > 0 {
      assert ChildLayer(tax, layer) == [] by {
        if ChildLayer(tax, layer) != [] {
          assert ChildLayer(tax, layer)[0] in ChildLayer(tax, layer);
        }
      }
      EmptyLayerStays(tax, ChildLayer(tax, layer), k - 1);
    }
  }

  /** Run `k + 1` is the recursive member applied to run `k`. */
  lemma {:induction false} LayerSucc(tax: seq<Location>, layer: seq<NodeRow>, k: nat)
    ensures Layer(tax, layer, k + 1) == ChildLayer(tax, Layer(tax, layer, k))
    decreases k
  {
    if k > 0 {
      LayerSucc(tax, ChildLayer(tax, layer), k - 1);
    }
  }

  /** Once a run is empty, every later run is empty. */
  lemma {:induction false} EmptyLayerAfter(tax: seq<Location>, layer: seq<NodeRow>, k: nat, j: nat)
    requires k <= j && Layer(tax, layer, k) == []
    ensures Layer(tax, layer, j) == []
    decreases k
  {
    if k == 0 {
      EmptyLayerStays(tax, layer, j);
    } else {
      EmptyLayerAfter(tax, ChildLayer(tax, layer), k - 1, j - 1);
    }
  }

  /** The layers from `layer` down, the recursive member having run `depth`
      times so far. The statement fails exactly when the run past the cap
      would still produce rows. */
  function CteFrom(tax: seq<Location>, layer: seq<NodeRow>, depth: nat): (r: Result<seq<NodeRow>>)
    requires depth <= MaxRecursion + 1
    ensures r.Err? <==> Layer(tax, layer, MaxRecursion + 1 - depth) != []
    ensures r.Err? ==> r.error == SqlError
    ensures r.Ok? ==> forall x | x in layer :: x in r.value
    decreases MaxRecursion + 1 - depth
  {
    if |layer| == 0 then
      EmptyLayerStays(tax, layer, MaxRecursion + 1 - depth);
      Ok([])
    else if depth > MaxRecursion then Err(SqlError)
    else
      var rest :- CteFrom(tax, ChildLayer(tax, layer), depth + 1);
      Ok(layer + rest)
  }

  /** Row `x` comes from one of the runs `0..bound` after `layer`. */
  predicate InRun(tax: seq<Location>, layer: seq<NodeRow>, bound: int, x: NodeRow) {
    exists k: nat :: k <= bound && x in Layer(tax, layer, k)
  }

  /** On success the result holds exactly the rows of the runs up to the
      cap. */
  lemma {:induction false} CteFromLayers(tax: seq<Location>, layer: seq<NodeRow>, depth: nat)
    requires depth <= MaxRecursion + 1
    requires CteFrom(tax, layer, depth).Ok?
    ensures forall k: nat, x | k <= MaxRecursion + 1 - depth && x in Layer(tax, layer, k) :: x in CteFrom(tax, layer, depth).value
    ensures forall x | x in CteFrom(tax, layer, depth).value :: InRun(tax, layer, MaxRecursion - depth, x)
    decreases MaxRecursion + 1 - depth
  {
    var r := CteFrom(tax, layer, depth).value;
    if |layer| == 0 {
      assert r == [];
      forall k: nat | k <= MaxRecursion + 1 - depth
        ensures Layer(tax, layer, k) == []
      {
        EmptyLayerStays(tax, layer, k);
      }
    } else {
      var next := ChildLayer(tax, layer);
      var rest := CteFrom(tax, next, depth + 1).value;
      assert r == layer + rest;
      CteFromLayers(tax, next, depth + 1);
      forall k: nat, x | k <= MaxRecursion + 1 - depth && x in Layer(tax, layer, k)
        ensures x in r
      {
        if k > 0 {
          assert Layer(tax, layer, k) == Layer(tax, next, k - 1);
          assert x in rest;
        }
      }
      forall x | x in r
        ensures InRun(tax, layer, MaxRecursion - depth, x)
      {
        assert depth <= MaxRecursion;
        if x in layer {
          assert Layer(tax, layer, 0) == layer;
          assert 0 <= MaxRecursion - depth && x in Layer(tax, layer, 0);
        } else {
          assert x in rest;
          var k: nat :| k <= MaxRecursion - (depth + 1) && x in Layer(tax, next, k);
          assert Layer(tax, layer, k + 1) == Layer(tax, next, k);
          assert k + 1 <= MaxRecursion - depth && x in Layer(tax, layer, k + 1);
        }
      }
    }
  }

  /** The recursive hierarchy query, before its `ORDER BY`: it fails, with
      the recursion cap's error, exactly when the run past the cap would
      still produce rows. */
  function Cte(tax: seq<Location>): (r: Result<seq<NodeRow>>)
    ensures r.Err? <==> Layer(tax, RootRows(tax), MaxRecursion + 1) != []
    ensures r.Err? ==> r.error == SqlError
  {
    CteFrom(tax, RootRows(tax), 0)
  }

  /** The result is closed under the recursive member: every location under
      a row of the result is itself a row, with its parent's path extended. */
  lemma CteClosed(tax: seq<Location>, q: NodeRow, l: Location)
    requires Cte(tax).Ok? && q in Cte(tax).value
    requires l in tax && l.parentId == Some(q.id)
    ensures ChildNode(l, q) in Cte(tax).value
  {
    var roots := RootRows(tax);
    CteFromLayers(tax, roots, 0);
    assert InRun(tax, roots, MaxRecursion, q);
    var k: nat :| k <= MaxRecursion && q in Layer(tax, roots, k);
    LayerSucc(tax, roots, k);
    assert ChildNode(l, q) in Layer(tax, roots, k + 1);
  }

  /** The path shape of the hierarchy query: a row is either a root, whose
      path is its name, or a location under the row of its parent, whose
      path is that row's path, the separator and its name. */
  predicate PathShaped(tax: seq<Location>, rows: seq<NodeRow>, x: NodeRow) {
    (x.parentName.None? && x.path == x.name && exists l | l in tax :: l.parentId.None? && l.id == x.id && l.name == x.name)
    || (exists l, q | l in tax && q in rows :: ChildRowOf(l, q, x))
  }

  /** The path shape survives more rows after the ones it refers to. */
  lemma ShapedGrows(tax: seq<Location>, done: seq<NodeRow>, more: seq<NodeRow>, x: NodeRow)
    requires PathShaped(tax, done, x)
    ensures PathShaped(tax, done + more, x)
  {
    if !(x.parentName.None? && x.path == x.name && exists l | l in tax :: l.parentId.None? && l.id == x.id && l.name == x.name) {
      var l, q :| l in tax && q in done && ChildRowOf(l, q, x);
      assert q in done + more;
    }
  }

  /** The next layer is shaped over the rows up to the current one. */
  lemma NextLayerShaped(tax: seq<Location>, done: seq<NodeRow>, layer: seq<NodeRow>)
    ensures forall y | y in ChildLayer(tax, layer) :: PathShaped(tax, done + layer, y)
  {
    forall y | y in ChildLayer(tax, layer)
      ensures PathShaped(tax, done + layer, y)
    {
      var l, q :| l in tax && q in layer && ChildRowOf(l, q, y);
      assert q in done + layer;
    }
  }

  lemma {:induction false} CteFromShaped(tax: seq<Location>, layer: seq<NodeRow>, depth: nat, done: seq<NodeRow>, x: NodeRow)
    requires depth <= MaxRecursion + 1
    requires CteFrom(tax, layer, depth).Ok?
    requires forall y | y in layer :: PathShaped(tax, done, y)
    requires x in CteFrom(tax, layer, depth).value
    ensures PathShaped(tax, done + CteFrom(tax, layer, depth).value, x)
    decreases MaxRecursion + 1 - depth
  {
    var next := ChildLayer(tax, layer);
    var rest := CteFrom(tax, next, depth + 1).value;
    assert CteFrom(tax, layer, depth).value == layer + rest;
    assert done + (layer + rest) == (done + layer) + rest;
    if x in layer {
      ShapedGrows(tax, done, layer + rest, x);
    } else {
      NextLayerShaped(tax, done, layer);
      CteFromShaped(tax, next, depth + 1, done + layer, x);
    }
  }

  /** Every row of the hierarchy query has the path shape: a root's path is
      its name, a child's is its parent's path, " > " and its name. */
  lemma CtePathShape(tax: seq<Location>, x: NodeRow)
    requires Cte(tax).Ok? && x in Cte(tax).value
    ensures PathShaped(tax, Cte(tax).value, x)
  {
    forall y | y in RootRows(tax)
      ensures PathShaped(tax, [], y)
    {
      var l :| l in tax && l.parentId.None? && y == NodeRow(l.id, l.childId, l.name, None, l.name, l.level);
    }
    CteFromShaped(tax, RootRows(tax), 0, [], x);
    assert [] + Cte(tax).value == Cte(tax).value;
  }

  /** Every root location is a row of the hierarchy query, its path its name. */
  lemma CteHasRoots(tax: seq<Location>, l: Location)
    requires Cte(tax).Ok? && l in tax && l.parentId.None?
    ensures NodeRow(l.id, l.childId, l.name, None, l.name, l.level) in Cte(tax).value
  {
    RootRowsComplete(tax, l);
  }

  lemma {:induction false} RootRowsComplete(tax: seq<Location>, l: Location)
    requires l in tax && l.parentId.None?
    ensures NodeRow(l.id, l.childId, l.name, None, l.name, l.level) in RootRows(tax)
  {
    if tax[0] != l {
      RootRowsComplete(tax[1..], l);
    }
  }

  // ---------------------------------------------------------------- ORDER BY Level, HierarchyPath

  /** Ordinal string order. */
  predicate StrLe(a: string, b: string) {
    |a| == 0 || (|b| > 0 && (a[0] < b[0] || (a[0] == b[0] && StrLe(a[1..], b[1..]))))
  }

  lemma {:induction false} StrLeTotal(a: string, b: string)
    ensures StrLe(a, b) || StrLe(b, a)
  {
    if |a| > 0 && |b| > 0 && a[0] == b[0] {
      StrLeTotal(a[1..], b[1..]);
    }
  }

  lemma {:induction false} StrLeTrans(a: string, b: string, c: string)
    requires StrLe(a, b) && StrLe(b, c)
    ensures StrLe(a, c)
  {
    if |a| > 0 && a[0] == b[0] && b[0] == c[0] {
      StrLeTrans(a[1..], b[1..], c[1..]);
    }
  }

  predicate RowLe(a: NodeRow, b: NodeRow) {
    a.level < b.level || (a.level == b.level && StrLe(a.path, b.path))
  }

  predicate SortedRows(s: seq<NodeRow>) {
    forall i, j | 0 <= i < j < |s| :: RowLe(s[i], s[j])
  }

  /** Insertion of one row before the first row it does not follow. */
  function Insert(x: NodeRow, s: seq<NodeRow>): (r: seq<NodeRow>)
    ensures multiset(r) == multiset(s) + multiset{x}
  {
    if |s| == 0 then [x]
    else if RowLe(x, s[0]) then [x] + s
    else
      assert s == [s[0]] + s[1..];
      [s[0]] + Insert(x, s[1..])
  }

  lemma {:induction false} InsertSorted(x: NodeRow, s: seq<NodeRow>)
    requires SortedRows(s)
    ensures SortedRows(Insert(x, s))
  {
    if |s| == 0 {
    } else if RowLe(x, s[0]) {
      forall j | 0 < j < |s|
        ensures RowLe(x, s[j])
      {
        if x.level == s[0].level && s[0].level == s[j].level {
          StrLeTrans(x.path, s[0].path, s[j].path);
        }
      }
    } else {
      StrLeTotal(x.path, s[0].path);
      var rest := Insert(x, s[1..]);
      InsertSorted(x, s[1..]);
      forall y | y in rest
        ensures RowLe(s[0], y)
      {
        assert y in multiset(rest);
        if y != x {
          assert y in s[1..];
        }
      }
      ConsSorted(s[0], rest);
    }
  }

  lemma ConsSorted(h: NodeRow, rest: seq<NodeRow>)
    requires SortedRows(rest) && forall y | y in rest :: RowLe(h, y)
    ensures SortedRows([h] + rest)
  {
    var r := [h] + rest;
    forall i, j | 0 <= i < j < |r|
      ensures RowLe(r[i], r[j])
    {
      if i > 0 {
        assert r[i] == rest[i - 1] && r[j] == rest[j - 1];
      } else {
        assert r[j] in rest;
      }
    }
  }

  /** The `ORDER BY Level, HierarchyPath` of the hierarchy query, stable on
      ties. */
  function SortRows(rows: seq<NodeRow>): (r: seq<NodeRow>)
    ensures SortedRows(r)
    ensures multiset(r) == multiset(rows)
  {
    if |rows| == 0 then []
    else
      assert rows == [rows[0]] + rows[1..];
      var rest := SortRows(rows[1..]);
      assert SortedRows(Insert(rows[0], rest)) by {
        InsertSorted(rows[0], rest);
      }
      Insert(rows[0], rest)
  }

  // ---------------------------------------------------------------- caches

  /** Levels from this one down are leaves: they have no table, and their
      rows are grouped under their parent's name. */
  const LeafLevel: int := 6

  /** The node cache: every name of the query mapped to a row of that name. */
  function NodeCache(rows: seq<NodeRow>): (r: map<string, NodeRow>)
    ensures forall n :: n in r <==> exists x | x in rows :: x.name == n
    ensures forall n | n in r :: r[n] in rows && r[n].name == n
  {
    if |rows| == 0 then map[]
    else
      assert forall x | x in rows :: x == rows[0] || x in rows[1..];
      assert forall x | x in rows[1..] :: x in rows;
      NodeCache(rows[1..])[rows[0].name := rows[0]]
  }

  /** First wins: the cached row of a name is its first row in query order. */
  lemma {:induction false} NodeCacheFirst(rows: seq<NodeRow>, i: nat)
    requires i < |rows| && forall j | 0 <= j < i :: rows[j].name != rows[i].name
    ensures NodeCache(rows)[rows[i].name] == rows[i]
  {
    if i > 0 {
      NodeCacheFirst(rows[1..], i - 1);
    }
  }

  /** The rows at leaf level whose parent is named `k`, in query order. */
  function LeavesUnder(rows: seq<NodeRow>, k: string): (r: seq<NodeRow>)
    ensures forall x :: x in r <==> x in rows && x.level >= LeafLevel && x.parentName == Some(k)
  {
    if |rows| == 0 then []
    else
      assert forall x | x in rows :: x == rows[0] || x in rows[1..];
      (if rows[0].level >= LeafLevel && rows[0].parentName == Some(k) then [rows[0]] else [])
      + LeavesUnder(rows[1..], k)
  }

  /** The leaf-children cache: each parent name mapped to its leaf-level
      rows in query order, no entry for a name without any. Reading the
      parent name of a leaf-level root fails. */
  function ChildrenCache(rows: seq<NodeRow>): (r: Result<map<string, seq<NodeRow>>>)
    ensures r.Ok? <==> forall i | 0 <= i < |rows| && rows[i].level >= LeafLevel :: rows[i].parentName.Some?
    ensures r.Err? ==> r == Err(NullParentName)
  {
    if |rows| == 0 then Ok(map[])
    else
      assert forall i | 1 <= i < |rows| :: rows[i] == rows[1..][i - 1];
      var x := rows[0];
      match ChildrenCache(rows[1..])
      case Err(e) => Err(e)
      case Ok(m) =>
        if x.level < LeafLevel then Ok(m)
        else if x.parentName.None? then Err(NullParentName)
        else
          var k := x.parentName.value;
          Ok(m[k := [x] + (if k in m then m[k] else [])])
  }

  /** What the leaf-children cache holds: an entry exactly for the names
      with leaf-level rows under them, and each entry is those rows in
      query order. */
  lemma {:induction false} ChildrenCacheContents(rows: seq<NodeRow>)
    requires ChildrenCache(rows).Ok?
    ensures var m := ChildrenCache(rows).value;
      forall k :: (k in m <==> LeavesUnder(rows, k) != []) && (k in m ==> m[k] == LeavesUnder(rows, k))
  {
    if |rows| > 0 {
      ChildrenCacheContents(rows[1..]);
      var m := ChildrenCache(rows[1..]).value;
      var x := rows[0];
      forall k
        ensures LeavesUnder(rows, k) == (if x.level >= LeafLevel && x.parentName == Some(k) then [x] else []) + LeavesUnder(rows[1..], k)
      {
      }
    }
  }

  /** The column cache: every table with a `PersonId` column mapped to its
      other columns but `IsDeleted`; a table with no such column gets no
      entry, as the metadata query returns no row for it. */
  function ColumnCache(db: Db): (r: map<string, seq<string>>)
    ensures forall t | t in r :: t in db && HasColumn(db[t], PersonIdColumn) && |r[t]| > 0
    ensures forall t, c | t in r :: c in r[t] <==> HasColumn(db[t], c) && !IsReserved(c)
    ensures forall t | t in db && HasColumn(db[t], PersonIdColumn) && |DataColumns(db[t].columns)| > 0 :: t in r
  {
    map t | t in db && HasColumn(db[t], PersonIdColumn) && |DataColumns(db[t].columns)| > 0 :: DataColumns(db[t].columns)
  }

  /** The value cache: for each cached table where the person has a row,
      the row's values of the cached columns. */
  function ValueCache(db: Db, person: int, columns: map<string, seq<string>>): (r: map<string, map<string, RawValue>>)
    ensures forall t | t in r :: t in columns && t in db && person in db[t].rows
    ensures forall t | t in columns && t in db && person in db[t].rows :: t in r
    ensures forall t, c | t in r && c in r[t] :: c in columns[t] && Cell(db, t, person, c) == Some(r[t][c])
    ensures forall t, c | t in r && c in columns[t] && c in db[t].rows[person] :: c in r[t]
  {
    map t | t in columns && t in db && person in db[t].rows ::
      (map c | c in columns[t] && c in db[t].rows[person] :: db[t].rows[person][c])
  }

  datatype Caches = Caches(
    columns: map<string, seq<string>>,
    nodes: map<string, NodeRow>,
    children: map<string, seq<NodeRow>>,
    values: map<string, map<string, RawValue>>)

  /** `InitializeCachesAsync`, in its order: column metadata, the hierarchy
      query read twice, then the person's values. */
  function InitializeCaches(db: Db, tax: seq<Location>, person: int): (r: Result<Caches>)
    ensures r.Ok? <==> Cte(tax).Ok? && ChildrenCache(SortRows(Cte(tax).value)).Ok?
    ensures r.Ok? ==> r.value.columns == ColumnCache(db) && r.value.values == ValueCache(db, person, ColumnCache(db))
    ensures r.Ok? ==> (r.value.nodes == NodeCache(SortRows(Cte(tax).value))
                       && r.value.children == ChildrenCache(SortRows(Cte(tax).value)).value)
  {
    var rows :- Cte(tax);
    var sorted := SortRows(rows);
    var children :- ChildrenCache(sorted);
    var columns := ColumnCache(db);
    Ok(Caches(columns, NodeCache(sorted), children, ValueCache(db, person, columns)))
  }

  // ---------------------------------------------------------------- processing one table

  /** The children of `column` whose bit the value has, in cache order. */
  function Matching(xs: seq<NodeRow>, v: RawValue): (r: seq<NodeRow>)
    ensures forall x :: x in r <==> x in xs && LeafMatch(v, x.childId)
  {
    if |xs| == 0 then []
    else
      assert forall x | x in xs :: x == xs[0] || x in xs[1..];
      (if LeafMatch(v, xs[0].childId) then [xs[0]] else []) + Matching(xs[1..], v)
  }

  /** `GetLeafNodes`: the cached leaf children of the column that the value
      selects; none when the column has no cached children. */
  function LeafNodes(c: Caches, column: string, v: RawValue): (r: seq<NodeRow>)
    ensures forall x :: x in r <==> column in c.children && x in c.children[column] && LeafMatch(v, x.childId)
  {
    if column in c.children then Matching(c.children[column], v) else []
  }

  function LeafPaths(c: Caches, column: string, v: RawValue): set<string> {
    set x | x in LeafNodes(c, column, v) :: x.path
  }

  /** The person has a cached value for the column of the table. */
  predicate HasValue(c: Caches, t: string, column: string) {
    t in c.values && column in c.values[t]
  }

  /** Processing the column enqueues it as the next table. */
  predicate Enqueues(c: Caches, t: string, column: string) {
    HasValue(c, t, column) && column in c.nodes && c.nodes[column].level < LeafLevel
  }

  /** Path `p` is contributed by the column of the table: the column's own
      path when its value is a zero marker, or, at leaf level, the path of a
      leaf child the value selects. */
  predicate ColumnPath(c: Caches, t: string, column: string, p: string) {
    HasValue(c, t, column) && column in c.nodes
    && ((IsZeroMarker(c.values[t][column]) && p == c.nodes[column].path)
        || (c.nodes[column].level >= LeafLevel && p in LeafPaths(c, column, c.values[t][column])))
  }

  /** One pass of the column loop of `ProcessItemAsync`. */
  function ProcessColumn(c: Caches, t: string, column: string): (r: Result<(set<string>, seq<string>)>)
    ensures r.Err? <==> HasValue(c, t, column) && column !in c.nodes
    ensures r.Err? ==> r.error == MissingNode
    ensures r.Ok? ==> forall p :: p in r.value.0 <==> ColumnPath(c, t, column, p)
    ensures r.Ok? ==> r.value.1 == if Enqueues(c, t, column) then [column] else []
  {
    if !HasValue(c, t, column) then Ok(({}, []))
    else if column !in c.nodes then Err(MissingNode)
    else
      var v := c.values[t][column];
      var node := c.nodes[column];
      var own: set<string> := if IsZeroMarker(v) then {node.path} else {};
      if node.level < LeafLevel then Ok((own, [column]))
      else Ok((own + LeafPaths(c, column, v), []))
  }

  function ProcessColumns(c: Caches, t: string, columns: seq<string>): (r: Result<(set<string>, seq<string>)>)
    ensures r.Ok? <==> forall i | 0 <= i < |columns| :: ProcessColumn(c, t, columns[i]).Ok?
    ensures r.Err? ==> r.error == MissingNode
    ensures r.Ok? ==> forall p | p in r.value.0 :: exists i | 0 <= i < |columns| :: ColumnPath(c, t, columns[i], p)
    ensures r.Ok? ==> forall q | q in r.value.1 :: q in columns && Enqueues(c, t, q)
  {
    if |columns| == 0 then Ok(({}, []))
    else
      assert forall i | 1 <= i < |columns| :: columns[i] == columns[1..][i - 1];
      var here :- ProcessColumn(c, t, columns[0]);
      var rest :- ProcessColumns(c, t, columns[1..]);
      Ok((here.0 + rest.0, here.1 + rest.1))
  }

  /** Every column's contribution reaches the result of the loop. */
  lemma {:induction false} ProcessColumnsComplete(c: Caches, t: string, columns: seq<string>, i: nat)
    requires ProcessColumns(c, t, columns).Ok? && i < |columns|
    ensures forall p | ColumnPath(c, t, columns[i], p) :: p in ProcessColumns(c, t, columns).value.0
    ensures Enqueues(c, t, columns[i]) ==> columns[i] in ProcessColumns(c, t, columns).value.1
  {
    assert ProcessColumn(c, t, columns[0]).Ok?;
    if i > 0 {
      assert forall k | 1 <= k < |columns| :: columns[k] == columns[1..][k - 1];
      ProcessColumnsComplete(c, t, columns[1..], i - 1);
    }
  }

  /** `ProcessItemAsync`: the paths the table's columns contribute and the
      tables to visit next. A table without cached columns contributes
      nothing. */
  function ProcessItem(c: Caches, t: string): (r: Result<(set<string>, seq<string>)>)
    ensures t !in c.columns ==> r == Ok(({}, []))
    ensures r.Err? ==> r.error == MissingNode
    ensures r.Ok? ==> forall q | q in r.value.1 :: t in c.columns && q in c.columns[t] && Enqueues(c, t, q)
    ensures r.Ok? ==> forall p | p in r.value.0 :: t in c.columns && exists i | 0 <= i < |c.columns[t]| :: ColumnPath(c, t, c.columns[t][i], p)
  {
    if t !in c.columns then Ok(({}, [])) else ProcessColumns(c, t, c.columns[t])
  }

  // ---------------------------------------------------------------- the walk

  /** The first table the walk visits. */
  const RootTable: string := "ContinentGrandparent"

  /** The level of the node a table is named after; a table that is no
      node's name ranks as level zero. */
  function Rank(c: Caches, t: string): int {
    if t in c.nodes then c.nodes[t].level else 0
  }

  /** Every column a table enqueues names a node deeper than the table:
      the levels along the queue increase, so the walk ends. On data where
      a table would reach itself again the source never stops. */
  predicate LevelsIncrease(c: Caches) {
    forall t, q | t in c.columns && q in c.columns[t] && Enqueues(c, t, q) :: c.nodes[q].level > Rank(c, t)
  }

  /** How many levels lie between a table and the leaf level. */
  function Height(c: Caches, t: string): nat {
    if Rank(c, t) >= LeafLevel then 0 else LeafLevel - Rank(c, t)
  }

  lemma NextIsLower(c: Caches, t: string, next: seq<string>)
    requires LevelsIncrease(c)
    requires forall q | q in next :: t in c.columns && q in c.columns[t] && Enqueues(c, t, q)
    ensures forall i | 0 <= i < |next| :: Height(c, next[i]) < Height(c, t)
  {
    forall i | 0 <= i < |next|
      ensures Height(c, next[i]) < Height(c, t)
    {
      assert next[i] in next;
    }
  }

  /** What the walk collects from table `t` and everything it enqueues. */
  function Walk(c: Caches, t: string): (r: Result<set<string>>)
    requires LevelsIncrease(c)
    ensures r.Err? ==> r.error == MissingNode
    ensures r.Ok? ==> ProcessItem(c, t).Ok? && ProcessItem(c, t).value.0 <= r.value
    decreases Height(c, t), 1
  {
    var step :- ProcessItem(c, t);
    NextIsLower(c, t, step.1);
    var below :- WalkAll(c, t, step.1);
    Ok(step.0 + below)
  }

  function WalkAll(c: Caches, t: string, items: seq<string>): (r: Result<set<string>>)
    requires LevelsIncrease(c)
    ensures r.Err? ==> r.error == MissingNode
    requires forall i | 0 <= i < |items| :: Height(c, items[i]) < Height(c, t)
    decreases Height(c, t), 0, |items|
  {
    if |items| == 0 then Ok({})
    else
      var first :- Walk(c, items[0]);
      var rest :- WalkAll(c, t, items[1..]);
      Ok(first + rest)
  }

  /** The walk over a queue of tables, front to back. */
  function QueueWalk(c: Caches, items: seq<string>): (r: Result<set<string>>)
    requires LevelsIncrease(c)
    ensures r.Err? ==> r.error == MissingNode
  {
    if |items| == 0 then Ok({})
    else
      var first :- Walk(c, items[0]);
      var rest :- QueueWalk(c, items[1..]);
      Ok(first + rest)
  }

  /** The walk's size: the number of tables it processes. */
  function Size(c: Caches, t: string): nat
    requires LevelsIncrease(c)
    decreases Height(c, t), 1
  {
    match ProcessItem(c, t)
    case Err(_) => 1
    case Ok(step) =>
      NextIsLower(c, t, step.1);
      1 + SizeAll(c, t, step.1)
  }

  function SizeAll(c: Caches, t: string, items: seq<string>): nat
    requires LevelsIncrease(c)
    requires forall i | 0 <= i < |items| :: Height(c, items[i]) < Height(c, t)
    decreases Height(c, t), 0, |items|
  {
    if |items| == 0 then 0 else Size(c, items[0]) + SizeAll(c, t, items[1..])
  }

  function QueueSize(c: Caches, items: seq<string>): nat
    requires LevelsIncrease(c)
  {
    if |items| == 0 then 0 else Size(c, items[0]) + QueueSize(c, items[1..])
  }

  lemma {:induction false} WalkAllIsQueueWalk(c: Caches, t: string, items: seq<string>)
    requires LevelsIncrease(c)
    requires forall i | 0 <= i < |items| :: Height(c, items[i]) < Height(c, t)
    ensures WalkAll(c, t, items) == QueueWalk(c, items)
    ensures SizeAll(c, t, items) == QueueSize(c, items)
  {
    if |items| > 0 {
      WalkAllIsQueueWalk(c, t, items[1..]);
    }
  }

  /** Pending paths combined with the walk of the queue still to run. */
  function Combine(paths: set<string>, r: Result<set<string>>): Result<set<string>> {
    match r
    case Err(e) => Err(e)
    case Ok(s) => Ok(paths + s)
  }

  /** Two walks one after the other: the first failure, or both sets. */
  function Then(a: Result<set<string>>, b: Result<set<string>>): Result<set<string>> {
    match a
    case Err(e) => Err(e)
    case Ok(x) => Combine(x, b)
  }

  lemma {:induction false} QueueWalkAppend(c: Caches, a: seq<string>, b: seq<string>)
    requires LevelsIncrease(c)
    ensures QueueWalk(c, a + b) == Then(QueueWalk(c, a), QueueWalk(c, b))
    ensures QueueSize(c, a + b) == QueueSize(c, a) + QueueSize(c, b)
  {
    if |a| > 0 {
      assert (a + b)[0] == a[0] && (a + b)[1..] == a[1..] + b;
      QueueWalkAppend(c, a[1..], b);
      var first := Walk(c, a[0]);
      if first.Ok? && QueueWalk(c, a[1..]).Ok? && QueueWalk(c, b).Ok? {
        var x, y, z := first.value, QueueWalk(c, a[1..]).value, QueueWalk(c, b).value;
        assert x + (y + z) == (x + y) + z;
      }
    } else {
      assert a + b == b;
      if QueueWalk(c, b).Ok? {
        assert {} + QueueWalk(c, b).value == QueueWalk(c, b).value;
      }
    }
  }

  /** Processing the front of the queue moves its paths into the result
      and its next tables to the back, without changing what remains to
      be collected. */
  lemma StepPreservesPending(c: Caches, paths: set<string>, queue: seq<string>, found: set<string>, next: seq<string>)
    requires LevelsIncrease(c) && |queue| > 0
    requires ProcessItem(c, queue[0]) == Ok((found, next))
    requires forall i | 0 <= i < |next| :: Height(c, next[i]) < Height(c, queue[0])
    requires WalkAll(c, queue[0], next) == QueueWalk(c, next)
    requires QueueWalk(c, queue[1..] + next) == Then(QueueWalk(c, queue[1..]), QueueWalk(c, next))
    ensures Combine(paths, QueueWalk(c, queue)) == Combine(paths + found, QueueWalk(c, queue[1..] + next))
  {
    var t := queue[0];
    assert Walk(c, t) == Combine(found, QueueWalk(c, next));
    if QueueWalk(c, next).Ok? && QueueWalk(c, queue[1..]).Ok? {
      var x, y := QueueWalk(c, next).value, QueueWalk(c, queue[1..]).value;
      assert paths + ((found + x) + y) == (paths + found) + (y + x);
    }
  }

  /** `GetPathsAsync` on built caches: the queue starts with the root table
      and runs until it is empty; the result is the set of paths the walk
      collects from the root. */
  method GetPaths(c: Caches) returns (r: Result<set<string>>)
    requires LevelsIncrease(c)
    ensures r == Walk(c, RootTable)
  {
    var queue := [RootTable];
    var paths: set<string> := {};
    assert [RootTable][1..] == [];
    if Walk(c, RootTable).Ok? {
      assert {} + Walk(c, RootTable).value == Walk(c, RootTable).value + {};
    }
    while |queue| > 0
      invariant Combine(paths, QueueWalk(c, queue)) == Walk(c, RootTable)
      decreases QueueSize(c, queue)
    {
      var t := queue[0];
      var step := ProcessItem(c, t);
      if step.Err? {
        return Err(step.error);
      }
      var next := step.value.1;
      NextIsLower(c, t, next);
      WalkAllIsQueueWalk(c, t, next);
      QueueWalkAppend(c, queue[1..], next);
      assert QueueSize(c, queue) == Size(c, t) + QueueSize(c, queue[1..]);
      assert Size(c, t) == 1 + QueueSize(c, next);
      StepPreservesPending(c, paths, queue, step.value.0, next);
      paths := paths + step.value.0;
      queue := queue[1..] + next;
    }
    return Ok(paths);
  }

  /** Path `p` is contributed by some column of some cached table. */
  predicate Contributed(c: Caches, p: string) {
    exists u, i | u in c.columns && 0 <= i < |c.columns[u]| :: ColumnPath(c, u, c.columns[u][i], p)
  }

  /** Soundness of the walk: every path it reports is a zero-marker path or
      a selected leaf's path of a column the person has a value for. */
  lemma WalkSound(c: Caches, t: string, p: string)
    requires LevelsIncrease(c) && Walk(c, t).Ok? && p in Walk(c, t).value
    ensures Contributed(c, p)
    decreases Height(c, t), 1
  {
    var step := ProcessItem(c, t).value;
    if p !in step.0 {
      NextIsLower(c, t, step.1);
      WalkAllSound(c, t, step.1, p);
    }
  }

  lemma WalkAllSound(c: Caches, t: string, items: seq<string>, p: string)
    requires LevelsIncrease(c)
    requires forall i | 0 <= i < |items| :: Height(c, items[i]) < Height(c, t)
    requires WalkAll(c, t, items).Ok? && p in WalkAll(c, t, items).value
    ensures Contributed(c, p)
    decreases Height(c, t), 0, |items|
  {
    if p in Walk(c, items[0]).value {
      WalkSound(c, items[0], p);
    } else {
      WalkAllSound(c, t, items[1..], p);
    }
  }

  lemma {:induction false} WalkAllHas(c: Caches, t: string, items: seq<string>, k: nat)
    requires LevelsIncrease(c)
    requires forall i | 0 <= i < |items| :: Height(c, items[i]) < Height(c, t)
    requires WalkAll(c, t, items).Ok? && k < |items|
    ensures Walk(c, items[k]).Ok? && Walk(c, items[k]).value <= WalkAll(c, t, items).value
    decreases |items|
  {
    if k > 0 {
      WalkAllHas(c, t, items[1..], k - 1);
    }
  }

  /** Closure of the walk: a successful walk from `t` holds every path a
      column of `t` contributes, and everything the walk from each table
      that a column of `t` enqueues collects. */
  lemma WalkCloses(c: Caches, t: string, i: nat)
    requires LevelsIncrease(c) && Walk(c, t).Ok?
    requires t in c.columns && i < |c.columns[t]|
    ensures forall p | ColumnPath(c, t, c.columns[t][i], p) :: p in Walk(c, t).value
    ensures Enqueues(c, t, c.columns[t][i]) ==>
      Walk(c, c.columns[t][i]).Ok? && Walk(c, c.columns[t][i]).value <= Walk(c, t).value
  {
    var q := c.columns[t][i];
    var step := ProcessItem(c, t).value;
    ProcessColumnsComplete(c, t, c.columns[t], i);
    if Enqueues(c, t, q) {
      NextIsLower(c, t, step.1);
      var k :| 0 <= k < |step.1| && step.1[k] == q;
      WalkAllHas(c, t, step.1, k);
    }
  }

  /** `GetPathsAsync`: build the caches, then walk from the root table. */
  method GetPathsOf(db: Db, tax: seq<Location>, person: int) returns (r: Result<set<string>>)
    requires InitializeCaches(db, tax, person).Ok? ==> LevelsIncrease(InitializeCaches(db, tax, person).value)
    ensures InitializeCaches(db, tax, person).Err? ==> r == Err(InitializeCaches(db, tax, person).error)
    ensures InitializeCaches(db, tax, person).Ok? ==> r == Walk(InitializeCaches(db, tax, person).value, RootTable)
  {
    var caches := InitializeCaches(db, tax, person);
    if caches.Err? {
      return Err(caches.error);
    }
    r := GetPaths(caches.value);
  }
}
