/** The POST action of the locations page: the checked boxes arrive as
    `childId|childLocationId` tokens per parent id; an empty form goes to
    the summary; otherwise every parent is reset, the selection saved, and
    the page reloads for the children just selected. */
module LocationsPost {
  import opened Wrappers
  import opened RawValues
  import opened Schema
  import opened IdLists
  import opened Bitmask
  import opened SelectionStore
  import opened LocationSave
  import opened CascadeReset

  /** The bound `Dictionary<int, string[]>` in enumeration order. A `null`
      array element is treated exactly like `""` everywhere in the action,
      so it is written as `""` here. */
  type Payload = seq<(Int32, seq<string>)>

  /** A parsed token: `(ChildId, ChildLocationId)`. */
  type Child = (Int32, Int32)

  /** The payload after parsing: each parent id with its children. */
  type Parsed = seq<(Int32, seq<Child>)>

  datatype Response =
    | ToSummary(personId: int)
    | ToLocations(personId: int, selectedLocationIds: string)

  /** The database after the request, and the redirect it answers with or
      the exception it ends with. */
  datatype Outcome = Outcome(db: Db, response: Result<Response>)

  // ---------------------------------------------------------------- parsing

  /** The text a checkbox posts for a child. */
  function Token(c: Child): string {
    FormatInteger(c.0) + "|" + FormatInteger(c.1)
  }

  /** The two `int.Parse` calls on the parts of `value.Split('|')`, the
      first before the second part is indexed: text that is not an integer
      fails, and so does a token without a `|`; parts after the second are
      ignored. */
  function ParseParts(parts: seq<string>): (r: Result<Child>)
    requires |parts| >= 1
    ensures r.Ok? <==> |parts| >= 2 && ParseInt32(parts[0]).Ok? && ParseInt32(parts[1]).Ok?
    ensures r.Ok? ==> r.value == (ParseInt32(parts[0]).value, ParseInt32(parts[1]).value)
    ensures ParseInt32(parts[0]).Ok? && |parts| < 2 ==> r == Err(IndexOutOfRange)
  {
    var childId :- ParseInt32(parts[0]);
    if |parts| < 2 then Err(IndexOutOfRange)
    else
      var locationId :- ParseInt32(parts[1]);
      Ok((childId, locationId))
  }

  /** `int.Parse(parts[0])` and `int.Parse(parts[1])` on `value.Split('|')`:
      a token without a `|` never parses, the empty one included. */
  function ParseToken(token: string): (r: Result<Child>)
    ensures '|' !in token ==> r.Err?
    ensures r.Ok? ==> var parts := Split(token, '|');
      |parts| >= 2 && ParseInt32(parts[0]) == Ok(r.value.0) && ParseInt32(parts[1]) == Ok(r.value.1)
    ensures var parts := Split(token, '|');
      |parts| >= 2 && ParseInt32(parts[0]).Ok? && ParseInt32(parts[1]).Ok? ==> r.Ok?
  {
    assert '|' !in token ==> Split(token, '|') == [token] by {
      if '|' !in token {
        SplitNoSeparator(token, '|');
      }
    }
    ParseParts(Split(token, '|'))
  }

  /** `.Where(value => !string.IsNullOrEmpty(value))`. */
  function NonEmpty(tokens: seq<string>): (r: seq<string>)
    ensures forall t :: t in r <==> t in tokens && t != ""
  {
    if |tokens| == 0 then []
    else
      assert forall t | t in tokens :: t == tokens[0] || t in tokens[1..];
      (if tokens[0] == "" then [] else [tokens[0]]) + NonEmpty(tokens[1..])
  }

  /** One dictionary entry: its non-empty tokens parsed, in order. */
  function ParseEntry(entry: (Int32, seq<string>)): Result<(Int32, seq<Child>)> {
    var children :- MapAll(ParseToken, NonEmpty(entry.1));
    Ok((entry.0, children))
  }

  /** The `ToDictionary` that builds `parsedLocations`: the same keys in
      the same order, each with its non-empty tokens parsed; the first
      token that does not parse ends the request. */
  function ParsePayload(p: Payload): (r: Result<Parsed>)
    ensures r.Ok? <==> forall i | 0 <= i < |p| :: ParseEntry(p[i]).Ok?
    ensures r.Ok? ==> |r.value| == |p| && forall i | 0 <= i < |p| :: r.value[i] == ParseEntry(p[i]).value
  {
    MapAll(ParseEntry, p)
  }

  /** Every posted value is null or empty (vacuously so for an empty
      dictionary). */
  predicate AllEmpty(p: Payload) {
    forall i, k | 0 <= i < |p| && 0 <= k < |p[i].1| :: p[i].1[k] == ""
  }

  // ---------------------------------------------------------------- what is passed on

  function ChildIds(cs: seq<Child>): (r: seq<Int32>)
    ensures |r| == |cs| && forall k | 0 <= k < |cs| :: r[k] == cs[k].0
  {
    if |cs| == 0 then [] else [cs[0].0] + ChildIds(cs[1..])
  }

  /** `childIdDictionary`: each parent id with its child ids. */
  function SaveMap(parsed: Parsed): (r: Selection)
    ensures |r| == |parsed| && forall i | 0 <= i < |parsed| :: r[i] == (parsed[i].0, ChildIds(parsed[i].1))
  {
    if |parsed| == 0 then [] else [(parsed[0].0, ChildIds(parsed[0].1))] + SaveMap(parsed[1..])
  }

  /** Every posted `ChildLocationId`, parent by parent, in order. */
  function LocationIds(parsed: Parsed): (r: seq<Int32>)
    ensures forall x :: x in r <==> exists i, k | 0 <= i < |parsed| && 0 <= k < |parsed[i].1| :: parsed[i].1[k].1 == x
  {
    if |parsed| == 0 then []
    else
      var own := Seconds(parsed[0].1);
      assert forall i | 1 <= i < |parsed| :: parsed[i] == parsed[1..][i - 1];
      own + LocationIds(parsed[1..])
  }

  function Seconds(cs: seq<Child>): (r: seq<Int32>)
    ensures |r| == |cs| && forall k | 0 <= k < |cs| :: r[k] == cs[k].1
  {
    if |cs| == 0 then [] else [cs[0].1] + Seconds(cs[1..])
  }

  /** `nextSelectedLocationIds`. */
  function NextIds(parsed: Parsed): (r: string)
    ensures r == "" <==> LocationIds(parsed) == []
  {
    JoinIds(LocationIds(parsed))
  }

  // ---------------------------------------------------------------- resetting

  /** `Locations.Where(l => l.Id == id).Select(l => l.Name).First()`. */
  function NameOf(tax: seq<Location>, id: int): (r: Result<string>)
    ensures r.Ok? <==> exists l | l in tax :: l.id == id
    ensures r.Ok? ==> exists l | l in tax :: l.id == id && l.name == r.value
    ensures r.Err? ==> r.error == NoSuchLocation
  {
    if |tax| == 0 then Err(NoSuchLocation)
    else if tax[0].id == id then Ok(tax[0].name)
    else
      assert forall l | l in tax :: l == tax[0] || l in tax[1..];
      NameOf(tax[1..], id)
  }

  /** `ResetUncheckedLocations`: each parent in turn is looked up by id and
      its table reset against the children now checked. A parent id with no
      location throws; the resets before it stay applied. */
  function ResetUnchecked(db: Db, rank: map<string, nat>, tax: seq<Location>, person: int, parsed: Parsed, faults: set<Stmt>): (r: (Db, Option<Error>))
    requires Ordered(db, rank)
    ensures ClearsOnly(db, r.0, person)
    ensures r.1.Some? <==> exists i | 0 <= i < |parsed| :: NameOf(tax, parsed[i].0).Err?
    ensures r.1.Some? ==> r.1.value == NoSuchLocation
  {
    if |parsed| == 0 then
      ClearsOnlyRefl(db, person);
      (db, None)
    else
      match NameOf(tax, parsed[0].0)
      case Err(e) =>
        ClearsOnlyRefl(db, person);
        (db, Some(e))
      case Ok(name) =>
        var next := ResetTableColumns(db, rank, tax, name, parsed[0].1, person, faults);
        ResetStaysBelowStale(db, rank, tax, name, parsed[0].1, person, faults);
        OrderedSameSchema(db, next, rank);
        var rest := ResetUnchecked(next, rank, tax, person, parsed[1..], faults);
        ClearsOnlyTrans(db, next, rest.0, person);
        assert forall i | 1 <= i < |parsed| :: parsed[i] == parsed[1..][i - 1];
        rest
  }

  // ---------------------------------------------------------------- the action

  /** `Index(personId, selectedLocations)` on POST. The save runs
      synchronously and its returned text is discarded; a statement the
      database rejects during it ends the request with that error. */
  function Post(db: Db, rank: map<string, nat>, tax: seq<Location>, person: int, payload: Option<Payload>, faults: set<Stmt>): (r: Outcome)
    requires Ordered(db, rank)
    ensures payload.None? || AllEmpty(payload.value) ==> r == Outcome(db, Ok(ToSummary(person)))
    ensures payload.Some? && !AllEmpty(payload.value) && ParsePayload(payload.value).Err? ==>
              r == Outcome(db, Err(ParsePayload(payload.value).error))
    ensures r.response.Ok? && r.response.value.ToLocations? ==>
              payload.Some? && ParsePayload(payload.value).Ok? &&
              r.response.value == ToLocations(person, NextIds(ParsePayload(payload.value).value)) &&
              ResetUnchecked(db, rank, tax, person, ParsePayload(payload.value).value, faults).1.None? &&
              SaveLocation(ResetUnchecked(db, rank, tax, person, ParsePayload(payload.value).value, faults).0,
                           tax, person, SaveMap(ParsePayload(payload.value).value)) == Ok((r.db, ChildIdsText(SaveMap(ParsePayload(payload.value).value))))
    ensures payload.Some? && !AllEmpty(payload.value) && ParsePayload(payload.value).Ok? ==>
              var parsed := ParsePayload(payload.value).value;
              var reset := ResetUnchecked(db, rank, tax, person, parsed, faults);
              var saved := SaveLocation(reset.0, tax, person, SaveMap(parsed));
              && (reset.1.Some? ==> r == Outcome(reset.0, Err(reset.1.value)))
              && (reset.1.None? && saved.Err? ==> r == Outcome(reset.0, Err(saved.error)))
              && (reset.1.None? && saved.Ok? ==> r == Outcome(saved.value.0, Ok(ToLocations(person, NextIds(parsed)))))
  {
    if payload.None? || AllEmpty(payload.value) then Outcome(db, Ok(ToSummary(person)))
    else match ParsePayload(payload.value)
      case Err(e) => Outcome(db, Err(e))
      case Ok(parsed) =>
        var (reset, failure) := ResetUnchecked(db, rank, tax, person, parsed, faults);
        if failure.Some? then Outcome(reset, Err(failure.value))
        else
          match SaveLocation(reset, tax, person, SaveMap(parsed))
          case Err(e) => Outcome(reset, Err(e))
          case Ok(saved) => Outcome(saved.0, Ok(ToLocations(person, NextIds(parsed))))
  }

  // ---------------------------------------------------------------- properties

  /** The tokens a form posts for a parent's checked children. */
  function Tokens(cs: seq<Child>): (r: seq<string>)
    ensures |r| == |cs| && forall k | 0 <= k < |cs| :: r[k] == Token(cs[k])
  {
    if |cs| == 0 then [] else [Token(cs[0])] + Tokens(cs[1..])
  }

  /** The form a parsed payload came from. */
  function Render(parsed: Parsed): (r: Payload)
    ensures |r| == |parsed| && forall i | 0 <= i < |parsed| :: r[i] == (parsed[i].0, Tokens(parsed[i].1))
  {
    if |parsed| == 0 then [] else [(parsed[0].0, Tokens(parsed[0].1))] + Render(parsed[1..])
  }

  /** A checkbox's token parses back to the child it was made from. */
  lemma TokenRoundTrip(c: Child)
    ensures ParseToken(Token(c)) == Ok(c)
  {
    var a := FormatInteger(c.0);
    var b := FormatInteger(c.1);
    NoSeparatorInNumber(c.0, '|');
    NoSeparatorInNumber(c.1, '|');
    assert Token(c) == a + ['|'] + b;
    SplitAfterPiece(a, '|', b);
    SplitNoSeparator(b, '|');
    var parts := Split(Token(c), '|');
    assert parts == [a, b];
    ParseFormatRoundTrip(c.0);
    ParseFormatRoundTrip(c.1);
    assert ParseInt32(a) == Ok(c.0);
    assert ParseInt32(b) == Ok(c.1);
    assert ParseParts(parts) == Ok(c);
  }

  lemma {:induction false} NonEmptyAppend(a: seq<string>, b: seq<string>)
    ensures NonEmpty(a + b) == NonEmpty(a) + NonEmpty(b)
    decreases |a|
  {
    if |a| > 0 {
      assert (a + b)[1..] == a[1..] + b;
      NonEmptyAppend(a[1..], b);
    } else {
      assert a + b == b;
    }
  }

  /** An empty or null value anywhere among a parent's values changes
      nothing. */
  lemma EmptyValueIgnored(entry: (Int32, seq<string>), i: nat)
    requires i <= |entry.1|
    ensures ParseEntry((entry.0, entry.1[..i] + [""] + entry.1[i..])) == ParseEntry(entry)
  {
    var ts := entry.1;
    var padded := ts[..i] + [""] + ts[i..];
    NonEmptyAppend(ts[..i] + [""], ts[i..]);
    NonEmptyAppend(ts[..i], [""]);
    NonEmptyAppend(ts[..i], ts[i..]);
    assert NonEmpty([""]) == [];
    assert ts[..i] + ts[i..] == ts;
    assert NonEmpty(padded) == NonEmpty(ts);
    assert MapAll(ParseToken, NonEmpty(padded)) == MapAll(ParseToken, NonEmpty(ts));
  }

  lemma {:induction false} NonEmptyOfTokens(cs: seq<Child>)
    ensures NonEmpty(Tokens(cs)) == Tokens(cs)
    decreases |cs|
  {
    if |cs| > 0 {
      NonEmptyOfTokens(cs[1..]);
      assert Tokens(cs) == [Token(cs[0])] + Tokens(cs[1..]);
      NonEmptyAppend([Token(cs[0])], Tokens(cs[1..]));
      assert NonEmpty([Token(cs[0])]) == [Token(cs[0])];
    }
  }

  /** Parsing the form recovers every parent id with its children, in
      order. */
  lemma PayloadRoundTrip(parsed: Parsed)
    ensures ParsePayload(Render(parsed)) == Ok(parsed)
  {
    var p := Render(parsed);
    forall i | 0 <= i < |p|
      ensures ParseEntry(p[i]) == Ok(parsed[i])
    {
      var cs := parsed[i].1;
      NonEmptyOfTokens(cs);
      forall k | 0 <= k < |cs|
        ensures ParseToken(Tokens(cs)[k]) == Ok(cs[k])
      {
        TokenRoundTrip(cs[k]);
      }
      var m := MapAll(ParseToken, Tokens(cs));
      assert m.Ok?;
      assert m.value == cs;
    }
    var r := ParsePayload(p);
    assert r.Ok?;
    assert r.value == parsed;
  }

  /** The page reloads with a list whose conversion, in the view's query,
      is exactly the posted location ids. */
  lemma NextIdsRoundTrip(parsed: Parsed)
    requires LocationIds(parsed) != []
    ensures SqlIdList(NextIds(parsed)) == Ok(LocationIds(parsed))
  {
    SqlIdListOfJoin(LocationIds(parsed));
  }

  /** End to end: after a POST that resets and saves, the cell of a posted
      parent shows exactly that parent's posted child ids as selected,
      whatever the reset cleared before. */
  lemma PostSavesSelection(db: Db, rank: map<string, nat>, tax: seq<Location>, person: int, payload: Payload, faults: set<Stmt>,
                           k: nat, p: Location, g: Location, c: int)
    requires Ordered(db, rank) && WellFormed(db) && UniqueIds(tax) && !AllEmpty(payload)
    requires ParsePayload(payload).Ok?
    requires ResetUnchecked(db, rank, tax, person, ParsePayload(payload).value, faults).1.None?
    requires SaveLocation(ResetUnchecked(db, rank, tax, person, ParsePayload(payload).value, faults).0, tax, person, SaveMap(ParsePayload(payload).value)).Ok?
    requires k < |payload| && p in tax && g in tax && p.id == payload[k].0 && p.parentId == Some(g.id) && g.name in db
    requires SoleEntryForCell(tax, SaveMap(ParsePayload(payload).value), k, g.name, p.name)
    ensures var v := Cell(Post(db, rank, tax, person, Some(payload), faults).db, g.name, person, p.name);
      v.Some? && (IsSelectedBit(v.value, c) <==> c >= 0 && c in ChildIds(ParsePayload(payload).value[k].1))
  {
    var parsed := ParsePayload(payload).value;
    var reset := ResetUnchecked(db, rank, tax, person, parsed, faults).0;
    ClearsOnlyWellFormed(db, reset, person);
    var sel := SaveMap(parsed);
    assert Post(db, rank, tax, person, Some(payload), faults).db == SaveLocation(reset, tax, person, sel).value.0;
    SaveLocationSelects(reset, tax, person, sel, k, p, g, c);
  }
}
