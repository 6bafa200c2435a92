# PBFD location selections, modelled in Dafny

VisitorLog_PBFD records, for each person, which locations of a fixed
taxonomy they have visited. The taxonomy runs from continent down to
station. A selection is not stored one row per location. Instead, the
children selected under a parent are packed into one arbitrary-precision
bitmask: bit `i` is set when the child with `ChildId == i` is selected. That
mask is stored in the table named after the parent's own parent (the
grandparent), in the column named after the parent, in the person's row.

The model covers the parts of the system that follow from that layout:

- `Schema` (schema.dfy): the layout rule of `CreateTables`. Every location
  of level five or less gets a table with `PersonId`, one column per child
  and `IsDeleted`. The statements run on the database start-up finds,
  which already holds the migration's tables and any location tables an
  earlier start-up made. It also models the constraint-name sanitiser.
- `Bitmask` and `RawValues` (bitmask.dfy, values.dfy): the codec.
  - It encodes a child list as an OR of `1 << id`.
  - It tests a bit with two's-complement `BigInteger` semantics, and with
    C#'s masked shift counts on `int` and `long`.
  - `TryGetBitmask` normalises a stored value, and the report's zero test
    is modelled too.
  - Integers are formatted and parsed as decimal text with .NET's default
    integer style.
- `IdLists` (idlist.dfy): comma-joined id lists. On the C# side they come
  from `string.Join`; on the SQL side `STRING_SPLIT` reads them back with
  an implicit conversion to `INT`.
- `SelectionStore` and `LocationSave` (store.dfy, save.dfy):
  `SaveLocationAsync`.
  - It builds one mask per parent.
  - It resolves each parent's grandparent with a join over the taxonomy
    and `FirstOrDefault`.
  - For each found parent it runs one `UPDATE`/`INSERT` that writes the
    mask's decimal text and sets `IsDeleted = 0`.
- `SelectionView` (view.dfy): `GetLocationViewModelsAsync`.
  - It runs the parent/grandparent/child mapping query and fetches each
    grandparent table for the person.
  - It looks up the requested parent columns and builds the view records
    with `IsSelected`.
  - The lookup is modelled both as written and corrected (see Findings).
- `PathReport` (report.dfy): `GetPathsAsync`.
  - It models the recursive hierarchy query with its recursion cap, the
    `ORDER BY`, and the node, leaf-children, column and value caches.
  - `ProcessItemAsync` processes one table.
  - The queue-driven walk from `ContinentGrandparent` collects the set of
    hierarchy paths.
- `CascadeReset` (reset.dfy): `ResetTableColumnsAsync`.
  - A stale column held a value in some row before, and its location is no
    longer selected.
  - The stale columns are cleared for the person, and so is every table
    below them.
  - A database failure ends only the branch it happens in.
- `LocationsPost` (controller.dfy): the POST `Index` action.
  - It parses the `childId|childLocationId` tokens.
  - An empty form redirects to the summary.
  - Otherwise it resets, then saves, and redirects with the comma-joined
    next ids.

The database is a map from table name to a table. Each table holds its
declared columns and its rows keyed by person id, so the primary key on
`PersonId` is part of the type. A cell is a `RawValue`:

- `IntV` and `LongV` for 32- and 64-bit integers;
- `StrV` for text;
- `BoolV` for a `BIT`;
- `NullV` for SQL NULL;
- `OtherV` for anything else the driver may hand back.

Exceptions the code lets escape are the `Err` side of a `Result`. The
reset's caught failures are chosen by a parameter `faults`, the set of
statements that fail.

## Model

| member | source | states |
|---|---|---|
| Wrappers.MapAll | Controllers/LocationsController.cs:63-74 | mapping a throwing conversion over a list succeeds exactly when every element converts, keeps the order, and otherwise fails with the first element's error |
| RawValues.FormatInteger | Services/LocationSaveService.cs:242 | `ToString()` of an integer: non-empty, ending in a digit, a leading '-' exactly for negatives, and the decimal digits of the value for non-negatives |
| RawValues.ParseInteger | Services/LocationSaveService.cs:158 | `BigInteger.TryParse`: a digit string parses to the number it denotes; text that is all white space does not parse |
| RawValues.ParseFormatRoundTrip | Services/LocationSaveService.cs:156-159 | parsing recovers every integer from its `ToString()` text |
| RawValues.ParseInt32 | Controllers/LocationsController.cs:71 | `int.Parse`: succeeds exactly on integer text within 32 bits and returns that integer; text that is not an integer is a format error |
| RawValues.TryGetBitmask | Services/LocationSaveService.cs:142-162 | an `int` or `long` succeeds with its own value; a string succeeds exactly when `BigInteger.TryParse` does, with the parsed value, and a failed parse leaves zero; NULL and other types fail with zero |
| RawValues.StoredMaskDecodes | Services/LocationSaveService.cs:242 | a mask written as its decimal text decodes back to the same mask |
| RawValues.ZeroMarkerAgreesWithDecoding | Services/LocationReportService.cs:248-268 | the report's zero test agrees with decoding to zero on integers and on every stored mask text, and a NULL cell is never zero |
| Bitmask.Or | Services/LocationSaveService.cs:195 | each bit of `a \| b` is set exactly when it is set in `a` or in `b` |
| Bitmask.ShiftOne | Services/LocationSaveService.cs:195 | `BigInteger.One << c` has bit `c` and no other; a negative count gives no bit |
| Bitmask.Encode | Services/LocationSaveService.cs:193-196 | bit `i` of the encoded mask is set exactly when `i` is among the selected child ids |
| Bitmask.EncodeEmpty | Services/LocationSaveService.cs:193-196 | an empty child list encodes as zero |
| Bitmask.EncodeDependsOnlyOnIdSet | Services/LocationSaveService.cs:193-196 | the mask depends only on which non-negative ids occur, not on order or repetition |
| Bitmask.EncodeTestAgreement | Services/LocationSaveService.cs:136-138 | the selection test on an encoded list holds exactly for the non-negative ids in the list |
| Bitmask.LeafMatchAgreesWithView | Services/LocationReportService.cs:279-288 | the report's leaf test equals the view's selection test on strings, and on `int`/`long` within the native width |
| Bitmask.LeafMatchWrapsShiftCount | Services/LocationReportService.cs:283-284 | on an `int` cell the shift count wraps modulo 32, so child 32 reads bit 0 |
| Bitmask.LeafMatchOnStoredEncoding | Services/LocationReportService.cs:281-282 | a stored encoded list matches exactly the leaves it lists |
| Schema.Sanitize | Program.cs:109 | same length, only identifier characters, each non-identifier character replaced by '_' |
| Schema.SanitizeIdempotent | Program.cs:109 | sanitising twice equals sanitising once |
| Schema.SanitizeKeepsIdentifiers | Program.cs:109 | a name of identifier characters is its own sanitised form |
| Schema.ChildrenOf | Program.cs:95 | exactly the locations whose parent is the given id |
| Schema.ToUpperAscii | Program.cs:104 | the child's type upper-cased letter by letter, same length |
| Schema.TableFor | Program.cs:99-113 | a new table has no rows, `PersonId INT` first, one column per child, `IsDeleted BIT` last |
| Schema.TableForDataColumns | Program.cs:102-105 | when no child takes a reserved name, the data columns are exactly the children's names in list order |
| Schema.CreateTables | Program.cs:58-118 | in the model, where every child type text is accepted, start-up on an existing database succeeds exactly when the new tables have distinct column names, pairwise distinct sanitized names, and no sanitized name of an existing table; on success the existing tables are kept, every location of level five or less has a table under its raw name built by the layout rule, no other table is added, no such location was already a table, and stored rows fit their tables |
| Schema.RepeatedStartUpFails | Program.cs:71-79 | a second start-up on the database the first one made fails whenever the taxonomy has a location of level five or less, since the location tables are never dropped |
| Schema.CreateTablesFromLayout | Program.cs:90-117 | the statements from position `i` on add exactly the tables of the remaining locations of level five or less |
| Schema.CreateTablesFromOk | Program.cs:90-117 | in the model, where every child type text is accepted, the statements from position `i` on all succeed exactly when each remaining table's columns are distinct, its sanitized name is not taken, and no two remaining sanitized names clash |
| Schema.CreatedKeysKept | Program.cs:99 | a location of level five or less whose name is already a table makes the run of statements fail |
| Schema.NullRow | Services/LocationSaveService.cs:235-236 | the row an INSERT starts from holds NULL in every declared column except the key |
| SelectionStore.Cell | Services/LocationSaveService.cs:90 | a cell is read exactly when the table, the person's row and the column all exist |
| SelectionStore.Upsert | Services/LocationSaveService.cs:224-244 | a missing table leaves the store unchanged; an existing table succeeds exactly when it can take the column; the schema and every other table are kept |
| SelectionStore.UpsertEffect | Services/LocationSaveService.cs:227-236 | only the person's row changes, and it is inserted if missing; the column holds the mask text and `IsDeleted` is false; every other column keeps its value, or NULL for an inserted row |
| SelectionStore.UpsertKeepsWellFormed | Services/LocationSaveService.cs:224-238 | after a write every row still carries exactly its table's non-key columns |
| SelectionStore.UpsertReadBack | Services/LocationSaveService.cs:241-244 | the written cell holds the mask's text, which decodes to the mask |
| SelectionStore.SaveWrites | Services/LocationSaveService.cs:208-246 | a run of statements succeeds exactly when every statement on an existing table can take its column, and keeps the schema |
| SelectionStore.LastWrite | Services/LocationSaveService.cs:208-246 | the mask a cell holds after the run comes from the last statement naming that cell, or none names it |
| SelectionStore.SaveWritesClosedForm | Services/LocationSaveService.cs:208-246 | running the statements one by one equals the closed form: each named table gets the person's row with the last mask per column |
| SelectionStore.SaveWritesFrame | Services/LocationSaveService.cs:227-236 | a save changes only the person's rows and only in tables some statement names; every other person's row is kept |
| SelectionStore.SaveWritesIdempotent | Services/LocationSaveService.cs:224-238 | saving the same statements twice leaves the store as saving them once |
| SelectionStore.SaveWritesReadBack | Services/LocationSaveService.cs:208-246 | after a save, the cell of each statement that no later statement overrides holds that statement's mask |
| IdLists.JoinIds | Services/LocationSaveService.cs:173 | the joined text is empty exactly when the id list is |
| IdLists.Split | Services/LocationSaveService.cs:257 | the pieces between separators: at least one, none holding the separator, and joined back with the separator they give the original text |
| IdLists.SqlIdList | Services/LocationSaveService.cs:257 | the list converts exactly when every piece does, and then holds one id per piece, each the converted piece |
| IdLists.ConvertPiece | Services/LocationSaveService.cs:257 | SQL's conversion of a piece: empty text is 0, other text converts exactly when it is a 32-bit integer |
| IdLists.SplitJoin | Services/LocationSaveService.cs:257 | splitting a joined list at commas gives each id's decimal text, one piece per id |
| IdLists.SqlIdListOfJoin | Services/LocationSaveService.cs:257 | a non-empty joined list of 32-bit ids converts back to exactly that list |
| IdLists.SqlIdListOfEmpty | Services/LocationSaveService.cs:257 | an empty joined list is one empty piece, which converts to id zero |
| LocationSave.BitmaskedDictionary | Services/LocationSaveService.cs:184-200 | one mask per parent, same keys in the same order, whose bits are exactly the non-negative selected child ids |
| LocationSave.BitmaskedDictionaryCanonical | Services/LocationSaveService.cs:184-200 | selections naming the same ids per parent give the same masks |
| LocationSave.ParentAndGrandparentNodes | Services/LocationSaveService.cs:251-265 | every row of the join is a listed parent with the name of its parent location |
| LocationSave.ParentAndGrandparentNodesComplete | Services/LocationSaveService.cs:251-265 | every listed parent that has a parent location gives a row |
| LocationSave.FindLink | Services/LocationSaveService.cs:214-216 | `FirstOrDefault`: nothing exactly when no row has the parent id, else a row with that id |
| LocationSave.FindLinkIsFirst | Services/LocationSaveService.cs:214-216 | the row found is the first with the parent id |
| LocationSave.FindLinkInTaxonomy | Services/LocationSaveService.cs:205-221 | with unique location ids the lookup finds the parent's own grandparent when the parent was listed, and nothing otherwise |
| LocationSave.ResolveWrites | Services/LocationSaveService.cs:208-246 | at most one statement per entry, each the statement an entry's found parent yields, carrying that entry's mask |
| LocationSave.PlannedWriteOf | Services/LocationSaveService.cs:218-238 | an entry whose parent and grandparent exist gets the statement writing its mask to the grandparent's table under the parent's name |
| LocationSave.PlannedWriteSource | Services/LocationSaveService.cs:208-238 | every statement carries some entry's mask to the cell of that entry's parent in its grandparent's table |
| LocationSave.Flatten | Services/LocationSaveService.cs:178 | the flattened ids are exactly the ids selected under some parent |
| LocationSave.ChildIdsText | Services/LocationSaveService.cs:178 | the returned text is empty exactly when no child id was selected |
| LocationSave.ChildIdsRoundTrip | Services/LocationSaveService.cs:178 | the returned text converts back to every selected child id in order |
| LocationSave.SaveLocation | Services/LocationSaveService.cs:164-182 | the save succeeds exactly when every planned statement on an existing table can take its column; it then returns the database after the statements and the child id text |
| LocationSave.PlannedWritesSelect | Services/LocationSaveService.cs:208-246 | after the statements, a selected parent's cell exists and its bit test holds for exactly the ids selected for it |
| LocationSave.SaveLocationSelects | Services/LocationSaveService.cs:164-182 | after a save, a selected parent's cell exists and its bit test holds for exactly the ids selected for it |
| SelectionView.ChildParentGrandparent | Services/LocationSaveService.cs:38-44 | a null or empty id list asks for the children of location 1; otherwise the list must convert and the query runs for its ids |
| SelectionView.MappingQuerySound | Services/LocationSaveService.cs:59-76 | every mapping row belongs to a listed parent that has a parent location |
| SelectionView.MappingQueryComplete | Services/LocationSaveService.cs:61-68 | every child of such a parent gets a row, and a parent without children gets its single outer-join row |
| SelectionView.Distinct | Services/LocationSaveService.cs:84-86 | the same names without repetition |
| SelectionView.TableColumns | Services/LocationSaveService.cs:90-96 | the person's stored cells of the table without the reserved columns; nothing for a missing table or row |
| SelectionView.TableColumnsComplete | Services/LocationSaveService.cs:93-96 | every declared non-reserved column of the person's row is listed |
| SelectionView.GrandparentTableColumns | Services/LocationSaveService.cs:79-100 | one entry per distinct grandparent of the mapping, holding that table's columns for the person |
| SelectionView.Requested | Services/LocationSaveService.cs:113 | exactly the columns whose name is a requested parent |
| SelectionView.RequestedColumns | Services/LocationSaveService.cs:111-114 | every collected column is a requested parent's name from some fetched table |
| SelectionView.ToDictionary | Services/LocationSaveService.cs:115 | `ToDictionary` succeeds exactly on distinct names, otherwise throws on the duplicate key |
| SelectionView.RequestedColumnsRepeat | Services/LocationSaveService.cs:111-115 | two fetched tables holding the same requested name put that name twice into the lookup |
| SelectionView.NameTypeName | Services/LocationSaveService.cs:124-135 | the name of the location's name type when the id is present and known, and "Unknown NameType" exactly when it is absent, unknown, or itself that text |
| SelectionView.BuildViews | Services/LocationSaveService.cs:119-140 | one view per mapping row in order, carrying the row's ids and names, its name type and its flag |
| SelectionView.LocationViewModelsAsWritten | Services/LocationSaveService.cs:18-35 | the builder as written succeeds exactly when the id list converts and, for a non-empty mapping, the lookup keyed by column name has no duplicate key; it then gives one view per mapping row, each flagged exactly when the lookup's value under the parent's name has the child's bit |
| SelectionView.LocationViewModels | Services/LocationSaveService.cs:18-35 | with the corrected lookup the builder fails only on an id list that does not convert, and gives one view per mapping row |
| SelectionView.SelectedInSound | Services/LocationSaveService.cs:136-138 | a view is flagged selected only when its own grandparent's cell for its parent holds a mask with the child's bit |
| SelectionView.SelectedInComplete | Services/LocationSaveService.cs:136-138 | on well-formed tables such a cell always flags the view selected |
| SelectionView.ViewSelection | Services/LocationSaveService.cs:128-138 | a view carries its row's ids, and its flag holds exactly when its own cell's mask has the child's bit |
| SelectionView.SharedParentNameDuplicates | Services/LocationSaveService.cs:111-115 | two requested parents with the same name under different grandparents with stored rows make the lookup throw |
| SelectionView.AsWrittenFailsOnSharedParentName | Services/LocationSaveService.cs:111-115 | in that case the builder as written throws while the corrected one returns the views |
| SelectionView.AsWrittenReadsOtherTable | Services/LocationSaveService.cs:111-115 | a concrete input where, as written, a child shows selected from another grandparent's column of the same name |
| SelectionView.LookupAgreesWhenUnambiguous | Services/LocationSaveService.cs:103-116 | when no other fetched table holds the parent's name, the lookup as written and the corrected one agree |
| SelectionView.AsWrittenAgreesWhenUnambiguous | Services/LocationSaveService.cs:18-35 | when every parent name is unambiguous and the lookup does not throw, both builders return the same views |
| SelectionView.MappingRowOrigin | Services/LocationSaveService.cs:45-76 | every mapping row comes from a taxonomy parent and its parent location |
| SelectionView.SavedSelectionShown | Services/LocationSaveService.cs:119-140 | after a save, each view under a saved parent shows its child selected exactly when the child's id was saved for that parent |
| PathReport.RootRows | Services/LocationReportService.cs:93-103 | the anchor rows are the locations without a parent, each with no parent name and its name as its path |
| PathReport.JoinParents | Services/LocationReportService.cs:107-116 | the join of one location with the previous rows: exactly one row per previous row of its parent, each with parent name that row's name and path that row's path + " > " + name |
| PathReport.ChildLayer | Services/LocationReportService.cs:107-116 | the recursive member: every row is a location under a row of the previous layer, and every location under a row of the previous layer is a row |
| PathReport.CteFrom | Services/LocationReportService.cs:92-117 | the query fails with a SQL error exactly when the recursion would still produce rows past the hundredth level; otherwise it keeps every row of the layer it starts from |
| PathReport.CteFromLayers | Services/LocationReportService.cs:92-117 | a successful query holds exactly the rows of the layers from its start up to the recursion limit: every row of those layers, and only those |
| PathReport.Cte | Services/LocationReportService.cs:92-117 | the hierarchy query fails, with a SQL error, exactly when the 101st recursion from the roots is non-empty |
| PathReport.CteClosed | Services/LocationReportService.cs:107-116 | a successful result is closed under the recursive member: every location under a row is a row, with its parent's path extended |
| PathReport.CtePathShape | Services/LocationReportService.cs:93-116 | every row is a root whose path is its name, or a location under a row of its parent whose path extends that row's path |
| PathReport.CteHasRoots | Services/LocationReportService.cs:93-103 | every root location is a row with its name as its path |
| PathReport.Insert | Services/LocationReportService.cs:127 | inserting keeps the rows plus the new one |
| PathReport.InsertSorted | Services/LocationReportService.cs:127 | inserting into sorted rows keeps them sorted |
| PathReport.SortRows | Services/LocationReportService.cs:127 | `ORDER BY Level, HierarchyPath`: sorted, and a permutation of the query's rows |
| PathReport.NodeCache | Services/LocationReportService.cs:137-156 | every name of the query is cached, mapped to a row of that name |
| PathReport.NodeCacheFirst | Services/LocationReportService.cs:153-154 | the cached row of a name is its first row in query order |
| PathReport.LeavesUnder | Services/LocationReportService.cs:164-181 | the rows at level six or deeper whose parent has the given name |
| PathReport.ChildrenCache | Services/LocationReportService.cs:158-184 | the cache builds exactly when every row at level six or deeper has a parent name, else `GetString` on NULL throws |
| PathReport.ChildrenCacheContents | Services/LocationReportService.cs:158-184 | a name has an entry exactly when leaf-level rows lie under it, and the entry is those rows in query order |
| PathReport.ColumnCache | Services/LocationReportService.cs:62-87 | exactly the tables with a `PersonId` column and some other data column, each with its non-reserved columns |
| PathReport.ValueCache | Services/LocationReportService.cs:187-210 | values exactly for cached tables where the person has a row, each the stored cell of a cached column |
| PathReport.InitializeCaches | Services/LocationReportService.cs:51-59 | the caches build exactly when the hierarchy query and the children cache do, and hold the column, node, children and value caches |
| PathReport.Matching | Services/LocationReportService.cs:277-292 | exactly the children whose bit the value has |
| PathReport.LeafNodes | Services/LocationReportService.cs:271-293 | exactly the cached leaf children of the column that the value selects; none without cached children |
| PathReport.ProcessColumn | Services/LocationReportService.cs:218-245 | a column holding a value whose node is unknown throws; otherwise its paths are its own path on a zero marker plus, at leaf level, the selected leaves' paths; a column holding a value at a level below six is enqueued, zero or not |
| PathReport.ProcessColumns | Services/LocationReportService.cs:218-245 | the loop fails exactly when some column does; every path and every next table comes from some column |
| PathReport.ProcessColumnsComplete | Services/LocationReportService.cs:218-245 | every column's paths and next table reach the loop's result |
| PathReport.ProcessItem | Services/LocationReportService.cs:213-246 | a table without cached columns contributes nothing; otherwise only its columns' paths and next tables |
| PathReport.NextIsLower | Services/LocationReportService.cs:231-235 | every enqueued table lies strictly closer to the leaf level |
| PathReport.WalkAllIsQueueWalk | Services/LocationReportService.cs:41-45 | the walk of a table's successors equals the walk of the queue holding them |
| PathReport.Walk | Services/LocationReportService.cs:41-45 | the walk from one table fails only on a value whose node is unknown, and on success holds that table's own column paths |
| PathReport.QueueWalkAppend | Services/LocationReportService.cs:41-45 | walking a queue `a + b` is walking `a` and then `b` |
| PathReport.StepPreservesPending | Services/LocationReportService.cs:41-45 | one dequeue moves the front table's paths into the result and appends its successors, without changing what remains to be found |
| PathReport.GetPaths | Services/LocationReportService.cs:30-48 | the queue loop from `ContinentGrandparent` returns exactly the walk's result |
| PathReport.WalkSound | Services/LocationReportService.cs:30-48 | every reported path is the zero-marker path or a selected leaf's path of some cached column |
| PathReport.WalkAllSound | Services/LocationReportService.cs:41-45 | every path found below a table's successors is contributed by some cached column |
| PathReport.WalkAllHas | Services/LocationReportService.cs:41-45 | each successor's own walk succeeds and is part of the combined result |
| PathReport.WalkCloses | Services/LocationReportService.cs:218-245 | a successful walk holds every path each column of a visited table contributes, and the walk of every enqueued table |
| PathReport.GetPathsOf | Services/LocationReportService.cs:30-48 | cache errors surface unchanged; otherwise the result is the walk from the root table |
| CascadeReset.ColumnsOf | Services/LocationResetService.cs:131 | the listed columns of a table are declared, non-reserved columns; none for a missing table |
| CascadeReset.Keep | Services/LocationResetService.cs:83-93 | exactly the columns whose count succeeds and finds a non-NULL value |
| CascadeReset.ColumnsNotNull | Services/LocationResetService.cs:73-96 | exactly the table's columns holding a non-NULL value in any person's row, less those whose count failed |
| CascadeReset.SelectedNames | Services/LocationResetService.cs:27-37 | exactly the names of the locations whose id the current selection lists |
| CascadeReset.Without | Services/LocationResetService.cs:20-22 | the result holds each name of the first list that is not in the second, as many times as the first list holds it, and no other name |
| CascadeReset.WithoutAppend | Services/LocationResetService.cs:20-22 | filtering keeps the first list's order: the filter of a concatenation is the concatenation of the filters |
| CascadeReset.StaleColumns | Services/LocationResetService.cs:17-22 | exactly the previously non-NULL columns whose locations are not selected now |
| CascadeReset.ClearRow | Services/LocationResetService.cs:176-183 | the listed columns become NULL, every other column is kept |
| CascadeReset.Clear | Services/LocationResetService.cs:186-191 | only the person's row of that table changes, and only in the listed columns; a missing table or row changes nothing |
| CascadeReset.ResetFiltered | Services/LocationResetService.cs:124-204 | the schema, every table's set of rows and every other person's rows are kept; a failed UPDATE, or a failed column lookup when no columns are known, leaves the database as it was |
| CascadeReset.ResetEach | Services/LocationResetService.cs:199-203 | the loop over the columns keeps the schema, the row sets and every other person's rows |
| CascadeReset.ResetTableColumns | Services/LocationResetService.cs:15-26 | the schema and other persons are kept, and an empty stale set changes nothing |
| CascadeReset.ResetFilteredKnown | Services/LocationResetService.cs:169-203 | with known columns and an UPDATE that runs, the reset is the clear followed by the loop over those columns |
| CascadeReset.OrderedSameSchema | Services/LocationResetService.cs:199-203 | clearing keeps the tables reachable from each table, so the recursion still descends |
| CascadeReset.ClearsOnlyWellFormed | Services/LocationResetService.cs:186-191 | clearing keeps every row's columns, so rows still fit their tables |
| CascadeReset.ClearClearsOnly | Services/LocationResetService.cs:186-191 | one clear only turns the person's listed data cells to NULL |
| CascadeReset.ResetFilteredClearsOnly | Services/LocationResetService.cs:124-204 | the recursive reset only turns the person's data cells to NULL; reserved columns and other persons are untouched |
| CascadeReset.ResetEachClearsOnly | Services/LocationResetService.cs:199-203 | the same for the loop over a table's columns |
| CascadeReset.ResetFilteredFrame | Services/LocationResetService.cs:124-204 | no table outside the reset table's subtree changes |
| CascadeReset.ResetEachFrame | Services/LocationResetService.cs:199-203 | no table outside the subtrees of the looped columns changes |
| CascadeReset.ClearedStays | Services/LocationResetService.cs:186-191 | a row already NULL in every data column stays so under further clearing |
| CascadeReset.FaultFreeSameSchema | Services/LocationResetService.cs:186-191 | clearing does not change which tables lie below a table, so a subtree without failing statements stays so |
| CascadeReset.FaultFreeBelow | Services/LocationResetService.cs:199-203 | the subtree of a column lies inside its table's subtree, so it has no failing statement when that one has none |
| CascadeReset.ResetFilteredClearsSubtree | Services/LocationResetService.cs:128-168 | every table below a table reset without known columns ends NULL in all the person's data columns, provided no lookup or UPDATE of that subtree fails |
| CascadeReset.ResetEachClearsSubtree | Services/LocationResetService.cs:199-203 | every table below a looped column whose own subtree has no failing statement ends cleared, whatever fails under the other columns |
| CascadeReset.KnownRowCleared | Services/LocationResetService.cs:169-203 | with known columns and an UPDATE that runs, the table's own row ends with exactly those columns NULL; the recursion below never returns to it |
| CascadeReset.ResetClearsStale | Services/LocationResetService.cs:15-26 | in the parent's row the stale columns become NULL unless the UPDATE fails, and every other column, the still-selected ones included, keeps its value |
| CascadeReset.ResetStaysBelowStale | Services/LocationResetService.cs:15-26 | only the person's data cells change, and only in the parent's table and below stale columns; still-selected children's tables are untouched |
| CascadeReset.ResetClearsBelowStale | Services/LocationResetService.cs:15-26 | when the parent's UPDATE runs, every table below a stale column whose subtree has no failing statement ends NULL in all the person's data columns, whatever fails under the other stale columns |
| LocationsPost.ParseParts | Controllers/LocationsController.cs:70-71 | a token parses exactly when its first two parts are 32-bit integers; a token without a second part fails on the index |
| LocationsPost.NonEmpty | Controllers/LocationsController.cs:66 | exactly the values that are not null or empty |
| LocationsPost.ParsePayload | Controllers/LocationsController.cs:63-74 | parsing succeeds exactly when every entry's non-empty tokens parse, giving the same keys in the same order |
| LocationsPost.TokenRoundTrip | Controllers/LocationsController.cs:70-71 | a checkbox token `childId\|childLocationId` parses back to that pair |
| LocationsPost.ParseToken | Controllers/LocationsController.cs:70-71 | a token parses exactly when its `Split('\|')` has at least two parts that are both 32-bit integers, and then gives those two integers; a token without a '\|', the empty one included, never parses |
| LocationsPost.EmptyValueIgnored | Controllers/LocationsController.cs:66 | an empty value anywhere among a parent's values changes nothing |
| LocationsPost.PayloadRoundTrip | Controllers/LocationsController.cs:63-74 | parsing a rendered form recovers every parent id with its children in order |
| LocationsPost.ChildIds | Controllers/LocationsController.cs:81 | each child's `ChildId`, in token order |
| LocationsPost.SaveMap | Controllers/LocationsController.cs:79-82 | the map passed to the save has the parsed keys in order, each with its child ids in token order |
| LocationsPost.LocationIds | Controllers/LocationsController.cs:87 | exactly the posted `ChildLocationId`s |
| LocationsPost.NextIds | Controllers/LocationsController.cs:87 | the redirect's id list is empty exactly when no child location id was posted |
| LocationsPost.NextIdsRoundTrip | Controllers/LocationsController.cs:87 | the next-id list converts, in the view's query, to exactly the posted location ids |
| LocationsPost.NameOf | Controllers/LocationsController.cs:102 | `First()`: the name of a location with that id, and an exception when there is none |
| LocationsPost.ResetUnchecked | Controllers/LocationsController.cs:94-105 | resetting every parent only turns the person's data cells to NULL, and fails exactly when some parent id has no location |
| LocationsPost.Post | Controllers/LocationsController.cs:47-91 | a null or all-empty form redirects to the summary with nothing changed; a parse failure changes nothing; otherwise a failed reset ends the request with the reset's database and error, a failed save with the reset's database and the save's error, and a save that succeeds always redirects to the locations page with the posted location ids on the saved database |
| LocationsPost.PostSavesSelection | Controllers/LocationsController.cs:76-84 | after a POST that resets and saves, a posted parent's cell shows exactly its posted child ids as selected, whatever the reset cleared |

## Left out

- Connections, `async`/`await`, SQL text building and ADO.NET row mapping
  are replaced by map reads and updates. The row mapper is modelled only
  as far as it matters: a `SELECT *` row carries every column, and the
  list mapper skips NULL columns, which gives the outer-join row its
  defaults. Location names are spliced into that text unescaped, inside
  `[...]` and `OBJECT_ID('...')`; a name holding `]` or `'` (such as
  `Côte d'Ivoire`) makes the statement malformed and the view or save
  throw in the source, while the model treats it as an ordinary table or
  column name. The "exactly when" contracts of `SelectionStore.Upsert`,
  `SelectionStore.SaveWrites`, `LocationSave.SaveLocation` and
  `SelectionView.LocationViewModels` do not cover that failure.
- `Schema.CreateTables`: the constraints the database already holds are
  modelled as the sanitized names of its tables, one `PK_` per table. A
  migration constraint of another shape is not compared with the new
  `FK_..._Persons` names.
- `Schema.CreateTables`: its success condition does not cover three
  failures of the source. (a) `child.Type.ToUpper()` and the raw names
  are spliced into the DDL, so a type text SQL Server rejects, or a name
  holding `]`, makes that `CREATE TABLE` throw; the model accepts any
  text. (b) Each statement runs on its own, with no transaction, and
  nothing catches the exception: when statement `k` fails, the tables of
  the statements before it stay in the database. The model returns only
  the error, not that partial database. (c) `Regex.Replace` works on
  UTF-16 code units, so a character outside the Basic Multilingual Plane
  becomes `__`, while `Sanitize` works on characters and gives `_`. Two
  names can then clash on `PK_...` in the source and not in the model.
- Entity Framework, the migration, host setup, the HTTP client and the
  JSON load in `CreateDatabase` are not modelled. Name types are a
  `map<int, string>`.
- The GET `Index` action and the reports controller are left out. Each
  only hands a service's result to a view; the report controller also
  sorts the paths.
- Names are compared exactly. SQL Server's default collation compares
  table and column names case-insensitively. The reserved-column filter
  `NOT IN ('personId', 'isDeleted')` relies on that and is modelled as
  excluding `PersonId` and `IsDeleted`.
- `PathReport.SortRows`: orders paths by ordinal character order, not by
  the database collation, and breaks ties by insertion. The database's
  tie order is unspecified.
- `PathReport.GetPaths` and `PathReport.Walk` require the levels to grow
  along the queue. On data where a table is reached from itself again,
  the source loops forever; that case is not modelled.
- `CascadeReset.ResetFiltered` requires a rank under which every column
  names a lower table. On cyclic data the source recurses without end;
  that case is not modelled.
- `CascadeReset.ColumnsNotNull`: the column-name lookup of
  `GetColumnsNotNullAsync` is never allowed to fail. Only the per-column
  counts can fail. A failed lookup in the source swallows the exception
  and returns the names read so far.
- Which reset statements fail is a parameter. The model does not say why
  a statement fails.
- `SelectionStore.Upsert`: the person is assumed to exist. Each created
  table has a foreign key from `PersonId` to `Persons`, so an `INSERT` for
  an unknown person fails in the source; the model has no `Persons` table.
- `SelectionStore.SaveWrites`: the person is assumed to exist, for the same
  foreign key.
- `LocationSave.SaveLocation`: the person is assumed to exist, for the same
  foreign key.
- `LocationsPost.Post`: the person is assumed to exist, for the same
  foreign key.
- `Schema.ToUpperAscii`: upper-cases only the letters `a` to `z`. C#'s
  `ToUpper()` follows the current culture and also maps other letters;
  the type names of the taxonomy are plain ASCII.
- `SelectionStore.Upsert`: stores the mask's decimal text whatever SQL
  type the column declares. The database's implicit conversion into an
  `INT` or `BIGINT` column, and its overflow error, are not modelled.
- `SelectionStore.SaveWrites`: on a rejected statement it returns only
  the error. In the source the statements before it stay applied.
- `LocationsPost.Post`: after a rejected save statement, its database is
  the one after the reset. The source keeps the save statements that ran
  before the failing one.
- `IdLists.ConvertPiece`: models SQL Server's conversion of a split piece
  to `INT` as `int.Parse` with the empty piece as zero. Its other
  differences in white-space and sign handling are not modelled.
- A posted dictionary cannot repeat a key. The model's association lists
  can, and no lemma relies on repeated keys.
- `LocationView` has no `PersonId`; the builder never sets it.
- Statements that the save and the view do not catch end the request.
  These are a rejected save statement, the lookup's duplicate key, a NULL
  parent name in the report and an unknown parent id. The model returns
  the error; no later work of that request is done.
- The reset's previously-selected check counts non-NULL values in every
  person's rows, not only in the requesting person's.
- The reset clears the stale columns in the parent's own table.
  Recursively, it clears every column of each table below.
- Tables are named with the raw location name; only the constraint names
  are sanitised.
- Children are listed in taxonomy list order, not sorted by `ChildId`.

## Findings

| source | as written | input that shows it | evidently intended | confidence | as-written member | corrected member |
|---|---|---|---|---|---|---|
| Services/LocationSaveService.cs:111-115 | The parent-to-mask lookup takes every column, from every fetched grandparent table, whose name equals a requested parent's name. It keys the result by that name alone. | Two requested parents share a name under two grandparents, and the person has a row in both tables: `ToDictionary` throws. Or the requested parent `X` under `G` has no stored value, while the fetched table `H` has a column `X` holding 1: child 0 of `X` shows as selected. | Each parent's mask is read from its own grandparent's table, under its own name. | medium, not executed | SelectionView.AsWrittenFailsOnSharedParentName, SelectionView.AsWrittenReadsOtherTable | SelectionView.LocationViewModels, SelectionView.ViewSelection |
