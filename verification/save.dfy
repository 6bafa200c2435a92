/** `SaveLocationAsync`: the posted selection (parent id to the selected
    child ids) becomes one mask per parent; the parent and its grandparent
    are looked up in the taxonomy by a join; each mask is written into the
    grandparent's table under the parent's column. */
module LocationSave {
  import opened Wrappers
  import opened RawValues
  import opened Bitmask
  import opened Schema
  import opened SelectionStore
  import opened IdLists

  /** A `Dictionary<int, int[]>` in enumeration order: parent id to the
      selected child ids. Its keys never repeat. */
  type Selection = seq<(Int32, seq<Int32>)>

  /** `Location.Id` is the primary key of `Locations`. */
  predicate UniqueIds(tax: seq<Location>) {
    forall a, b | a in tax && b in tax && a.id == b.id :: a == b
  }

  // ---------------------------------------------------------------- masks

  /** `GetBitmaskedDictionary`: the same keys in the same order, each with
      a mask whose set bits are exactly the non-negative selected ids. */
  function BitmaskedDictionary(sel: Selection): (r: seq<(Int32, nat)>)
    ensures |r| == |sel|
    ensures forall i | 0 <= i < |sel| :: r[i].0 == sel[i].0
    ensures forall i, c | 0 <= i < |sel| :: BigTest(r[i].1, c) <==> c >= 0 && c in sel[i].1
  {
    if |sel| == 0 then []
    else
      assert forall c :: BigTest(Encode(sel[0].1), c) <==> c >= 0 && c in sel[0].1 by {
        forall c {
          EncodeTestAgreement(sel[0].1, c);
        }
      }
      [(sel[0].0, Encode(sel[0].1))] + BitmaskedDictionary(sel[1..])
  }

  /** Two selections of the same ids give the same masks, whatever the
      order or repetition of the ids. */
  lemma BitmaskedDictionaryCanonical(a: Selection, b: Selection)
    requires |a| == |b|
    requires forall i | 0 <= i < |a| :: a[i].0 == b[i].0 && forall c: nat :: c in a[i].1 <==> c in b[i].1
    ensures BitmaskedDictionary(a) == BitmaskedDictionary(b)
  {
    var ra := BitmaskedDictionary(a);
    var rb := BitmaskedDictionary(b);
    forall i | 0 <= i < |a|
      ensures ra[i] == rb[i]
    {
      forall c: nat
        ensures Bit(ra[i].1, c) == Bit(rb[i].1, c)
      {
        assert BigTest(ra[i].1, c) <==> c in a[i].1;
        assert BigTest(rb[i].1, c) <==> c in b[i].1;
      }
      BitsDetermine(ra[i].1, rb[i].1);
    }
  }

  // ---------------------------------------------------------------- the join

  /** One row of `GetParentAndGrandparentNodes`. */
  datatype ParentLink = ParentLink(parentId: int, parentNode: string, grandparentNode: string)

  /** `INNER JOIN Locations grandparent ON parent.ParentId = grandparent.Id`
      for one parent row. */
  function LinksOf(p: Location, gs: seq<Location>): (r: seq<ParentLink>)
    ensures forall l :: l in r <==> exists g | g in gs :: p.parentId == Some(g.id) && l == ParentLink(p.id, p.name, g.name)
  {
    if |gs| == 0 then []
    else
      var rest := LinksOf(p, gs[1..]);
      assert forall g | g in gs[1..] :: g in gs;
      assert forall g | g in gs && g != gs[0] :: g in gs[1..];
      (if p.parentId == Some(gs[0].id) then [ParentLink(p.id, p.name, gs[0].name)] else []) + rest
  }

  /** A row the join can produce: a listed parent with its own parent. */
  predicate JoinRow(tax: seq<Location>, ids: seq<Int32>, p: Location, g: Location, l: ParentLink) {
    p in tax && g in tax && p.id in ids && p.parentId == Some(g.id) && l == ParentLink(p.id, p.name, g.name)
  }

  /** The join over the parent rows `ps`, keeping the parents whose id is
      in the converted id list. Rows come in taxonomy order. */
  function JoinFrom(ps: seq<Location>, tax: seq<Location>, ids: seq<Int32>): (r: seq<ParentLink>)
    requires forall p | p in ps :: p in tax
    ensures forall l | l in r :: exists p, g :: JoinRow(tax, ids, p, g, l)
  {
    if |ps| == 0 then []
    else
      var here := if ps[0].id in ids then LinksOf(ps[0], tax) else [];
      assert forall l | l in here :: exists p, g :: JoinRow(tax, ids, p, g, l) by {
        forall l | l in here
          ensures exists p, g :: JoinRow(tax, ids, p, g, l)
        {
          var g :| g in tax && ps[0].parentId == Some(g.id) && l == ParentLink(ps[0].id, ps[0].name, g.name);
          assert JoinRow(tax, ids, ps[0], g, l);
        }
      }
      here + JoinFrom(ps[1..], tax, ids)
  }

  lemma {:induction false} JoinFromComplete(ps: seq<Location>, tax: seq<Location>, ids: seq<Int32>, p: Location, g: Location)
    requires forall q | q in ps :: q in tax
    requires p in ps && JoinRow(tax, ids, p, g, ParentLink(p.id, p.name, g.name))
    ensures ParentLink(p.id, p.name, g.name) in JoinFrom(ps, tax, ids)
  {
    if p != ps[0] {
      JoinFromComplete(ps[1..], tax, ids, p, g);
    } else {
      assert ParentLink(p.id, p.name, g.name) in LinksOf(ps[0], tax);
    }
  }

  /** `GetParentAndGrandparentNodes(selectedLocationIds)`, once the id
      list is converted: every row is a listed parent with its parent
      location's name. */
  function ParentAndGrandparentNodes(tax: seq<Location>, ids: seq<Int32>): (r: seq<ParentLink>)
    ensures forall l | l in r :: exists p, g :: JoinRow(tax, ids, p, g, l)
  {
    JoinFrom(tax, tax, ids)
  }

  /** And every listed parent that has a parent location gives a row. */
  lemma ParentAndGrandparentNodesComplete(tax: seq<Location>, ids: seq<Int32>, p: Location, g: Location)
    requires JoinRow(tax, ids, p, g, ParentLink(p.id, p.name, g.name))
    ensures ParentLink(p.id, p.name, g.name) in ParentAndGrandparentNodes(tax, ids)
  {
    JoinFromComplete(tax, tax, ids, p, g);
  }

  /** `FirstOrDefault(t => t.ParentId == parentId)`. */
  function FindLink(links: seq<ParentLink>, pid: int): (r: Option<ParentLink>)
    ensures r.None? <==> forall l | l in links :: l.parentId != pid
    ensures r.Some? ==> r.value in links && r.value.parentId == pid
  {
    if |links| == 0 then None
    else if links[0].parentId == pid then Some(links[0])
    else
      assert forall l | l in links && l != links[0] :: l in links[1..];
      FindLink(links[1..], pid)
  }

  /** The row found is the first row for the parent id. */
  lemma {:induction false} FindLinkIsFirst(links: seq<ParentLink>, pid: int, i: nat)
    requires i < |links| && links[i].parentId == pid
    ensures FindLink(links, pid).Some?
    ensures (forall j | 0 <= j < i :: links[j].parentId != pid) ==> FindLink(links, pid) == Some(links[i])
  {
    if links[0].parentId != pid {
      assert links[1..][i - 1] == links[i];
      FindLinkIsFirst(links[1..], pid, i - 1);
    }
  }

  /** With unique location ids the join has at most one row per parent:
      the row of the parent's own parent. So `FirstOrDefault` finds it
      whatever order the rows come in, and finds nothing for an id that is
      not in the list, has no location, or has no parent location. */
  lemma FindLinkInTaxonomy(tax: seq<Location>, ids: seq<Int32>, p: Location, g: Location)
    requires UniqueIds(tax) && p in tax && g in tax && p.parentId == Some(g.id)
    ensures FindLink(ParentAndGrandparentNodes(tax, ids), p.id) ==
      if p.id in ids then Some(ParentLink(p.id, p.name, g.name)) else None
  {
    var links := ParentAndGrandparentNodes(tax, ids);
    var r := FindLink(links, p.id);
    if p.id in ids {
      ParentAndGrandparentNodesComplete(tax, ids, p, g);
      var p', g' :| JoinRow(tax, ids, p', g', r.value);
      assert p' == p;
      assert g' == g;
    }
  }

  // ---------------------------------------------------------------- the writes

  /** The statement one dictionary entry leads to, if its parent was found. */
  function WriteFor(links: seq<ParentLink>, entry: (Int32, nat)): (r: Option<Write>)
    ensures r.Some? <==> FindLink(links, entry.0).Some?
    ensures r.Some? ==> (r.value.mask == entry.1 && ParentLink(entry.0, r.value.column, r.value.table) in links)
  {
    match FindLink(links, entry.0)
    case None => None
    case Some(l) => Some(Write(l.grandparentNode, l.parentNode, entry.1))
  }

  /** The loop of `UpdateParentBitmapInGrandparentTable`: one statement per
      entry whose parent was found, in dictionary order; the others are
      skipped. */
  function ResolveWrites(links: seq<ParentLink>, dict: seq<(Int32, nat)>): (r: seq<Write>)
    ensures |r| <= |dict|
    ensures forall w | w in r :: exists j | 0 <= j < |dict| :: WriteFor(links, dict[j]) == Some(w)
  {
    if |dict| == 0 then []
    else
      var rest := ResolveWrites(links, dict[1..]);
      assert forall j | 1 <= j < |dict| :: dict[j] == dict[1..][j - 1];
      match WriteFor(links, dict[0])
      case None => rest
      case Some(w) => [w] + rest
  }

  /** Everything a save will write, before any statement runs. */
  function PlannedWrites(tax: seq<Location>, sel: Selection): seq<Write> {
    var dict := BitmaskedDictionary(sel);
    ResolveWrites(ParentAndGrandparentNodes(tax, Firsts(dict)), dict)
  }

  /** `selectedLocations.SelectMany(entry => entry.Value)`. */
  function Flatten(sel: Selection): (r: seq<Int32>)
    ensures forall c :: c in r <==> exists i | 0 <= i < |sel| :: c in sel[i].1
  {
    if |sel| == 0 then []
    else
      assert forall i | 1 <= i < |sel| :: sel[i] == sel[1..][i - 1];
      sel[0].1 + Flatten(sel[1..])
  }

  /** The text the save returns, `string.Join(",", selectedLocations
      .SelectMany(entry => entry.Value))`: empty exactly when no child id
      was selected. */
  function ChildIdsText(sel: Selection): (s: string)
    ensures s == "" <==> forall i | 0 <= i < |sel| :: sel[i].1 == []
  {
    var all := Flatten(sel);
    assert all == [] <==> forall i | 0 <= i < |sel| :: sel[i].1 == [] by {
      if all != [] {
        assert all[0] in all;
      }
      if exists i | 0 <= i < |sel| :: sel[i].1 != [] {
        var i :| 0 <= i < |sel| && sel[i].1 != [];
        assert sel[i].1[0] in all;
      }
    }
    JoinIds(all)
  }

  /** The returned text converts back to every selected child id, in
      order. */
  lemma ChildIdsRoundTrip(sel: Selection)
    requires exists i | 0 <= i < |sel| :: sel[i].1 != []
    ensures SqlIdList(ChildIdsText(sel)) == Ok(Flatten(sel))
  {
    var i :| 0 <= i < |sel| && sel[i].1 != [];
    assert sel[i].1[0] in Flatten(sel);
    SqlIdListOfJoin(Flatten(sel));
  }

  /** `SaveLocationAsync(personId, selectedLocations)`: the database after
      the statements, and the child id text. The parent ids travel to the
      join as comma-joined text and convert back to the dictionary's keys
      (an empty dictionary sends one empty piece, which converts to id
      zero and writes nothing); the save fails exactly when some
      statement meets an existing table that cannot take its column. */
  function SaveLocation(db: Db, tax: seq<Location>, person: int, sel: Selection): (r: Result<(Db, string)>)
    ensures r.Ok? <==> AllWritable(db, PlannedWrites(tax, sel))
    ensures r.Ok? ==> SaveWrites(db, person, PlannedWrites(tax, sel)) == Ok(r.value.0) && r.value.1 == ChildIdsText(sel)
  {
    var dict := BitmaskedDictionary(sel);
    var keys := Firsts(dict);
    assert SqlIdList(JoinIds(keys)) == Ok(if |keys| == 0 then [0] else keys) by {
      if |keys| == 0 {
        SqlIdListOfEmpty();
      } else {
        SqlIdListOfJoin(keys);
      }
    }
    match SqlIdList(JoinIds(keys))
    case Err(e) => Err(e)
    case Ok(ids) =>
      assert ResolveWrites(ParentAndGrandparentNodes(tax, ids), dict) == PlannedWrites(tax, sel);
      var after :- SaveWrites(db, person, PlannedWrites(tax, sel));
      Ok((after, ChildIdsText(sel)))
  }

  /** The statement for an entry whose parent and grandparent exist writes
      that entry's mask into the grandparent's table under the parent's
      name. */
  lemma PlannedWriteOf(tax: seq<Location>, sel: Selection, k: nat, p: Location, g: Location)
    requires UniqueIds(tax) && k < |sel|
    requires p in tax && g in tax && p.id == sel[k].0 && p.parentId == Some(g.id)
    ensures Write(g.name, p.name, BitmaskedDictionary(sel)[k].1) in PlannedWrites(tax, sel)
  {
    var dict := BitmaskedDictionary(sel);
    assert p.id in Firsts(dict) by {
      assert Firsts(dict)[k] == p.id;
    }
    FindLinkInTaxonomy(tax, Firsts(dict), p, g);
    ResolvedWriteComplete(ParentAndGrandparentNodes(tax, Firsts(dict)), dict, k);
  }

  /** No entry whose parent was found is skipped. */
  lemma {:induction false} ResolvedWriteComplete(links: seq<ParentLink>, dict: seq<(Int32, nat)>, j: nat)
    requires j < |dict| && WriteFor(links, dict[j]).Some?
    ensures WriteFor(links, dict[j]).value in ResolveWrites(links, dict)
  {
    if j > 0 {
      assert dict[1..][j - 1] == dict[j];
      ResolvedWriteComplete(links, dict[1..], j - 1);
    }
  }

  /** A resolved statement carries the mask of some entry to the cell of a
      join row for that entry's parent. */
  lemma ResolvedWriteSource(links: seq<ParentLink>, dict: seq<(Int32, nat)>, w: Write)
    requires w in ResolveWrites(links, dict)
    ensures exists k | 0 <= k < |dict| :: w.mask == dict[k].1 && ParentLink(dict[k].0, w.column, w.table) in links
  {
    var k :| 0 <= k < |dict| && WriteFor(links, dict[k]) == Some(w);
  }

  /** Statement `w` is entry `k`'s mask written to the cell of `p`, a
      location with that id, in the table of `g`, its parent location. */
  predicate WriteSource(tax: seq<Location>, sel: Selection, w: Write, k: nat, p: Location, g: Location) {
    k < |sel| && p in tax && g in tax && p.id == sel[k].0 && p.parentId == Some(g.id)
    && w == Write(g.name, p.name, BitmaskedDictionary(sel)[k].1)
  }

  /** Every planned statement comes from some entry and carries that
      entry's mask to the cell of that entry's parent. */
  lemma {:induction false} PlannedWriteSource(tax: seq<Location>, sel: Selection, w: Write)
    requires w in PlannedWrites(tax, sel)
    ensures exists k, p, g :: WriteSource(tax, sel, w, k, p, g)
  {
    var dict := BitmaskedDictionary(sel);
    var links := ParentAndGrandparentNodes(tax, Firsts(dict));
    ResolvedWriteSource(links, dict, w);
    var k :| 0 <= k < |dict| && w.mask == dict[k].1 && ParentLink(dict[k].0, w.column, w.table) in links;
    var p, g :| JoinRow(tax, Firsts(dict), p, g, ParentLink(dict[k].0, w.column, w.table));
    assert WriteSource(tax, sel, w, k, p, g);
  }

  /** No selected parent other than entry `k`'s lands in cell `(t, c)`. */
  predicate SoleEntryForCell(tax: seq<Location>, sel: Selection, k: nat, t: string, c: string) {
    forall j, q, h | 0 <= j < |sel| && j != k && q in tax && h in tax && q.id == sel[j].0 && q.parentId == Some(h.id) ::
      !(h.name == t && q.name == c)
  }

  /** Every planned statement for the cell of a sole entry carries that
      entry's mask. */
  lemma PlannedMaskOfSoleEntry(tax: seq<Location>, sel: Selection, k: nat, t: string, c: string, w: Write)
    requires k < |sel| && SoleEntryForCell(tax, sel, k, t, c)
    requires w in PlannedWrites(tax, sel) && w.table == t && w.column == c
    ensures w.mask == BitmaskedDictionary(sel)[k].1
  {
    PlannedWriteSource(tax, sel, w);
    var k', q, h :| WriteSource(tax, sel, w, k', q, h);
    assert k' == k;
  }

  /** The point of the save: when a selected parent and its grandparent
      exist, the grandparent's table exists, and no other selected parent
      lands in the same cell, the person's cell afterwards exists and the
      editing view's selection test on it holds for exactly the selected
      child ids. */
  lemma {:induction false} PlannedWritesSelect(db: Db, tax: seq<Location>, person: int, sel: Selection, k: nat, p: Location, g: Location, c: int)
    requires WellFormed(db) && UniqueIds(tax)
    requires SaveWrites(db, person, PlannedWrites(tax, sel)).Ok?
    requires k < |sel| && p in tax && g in tax && p.id == sel[k].0 && p.parentId == Some(g.id)
    requires g.name in db
    requires SoleEntryForCell(tax, sel, k, g.name, p.name)
    ensures var v := Cell(SaveWrites(db, person, PlannedWrites(tax, sel)).value, g.name, person, p.name);
      v.Some? && (IsSelectedBit(v.value, c) <==> c >= 0 && c in sel[k].1)
  {
    var dict := BitmaskedDictionary(sel);
    var ws := PlannedWrites(tax, sel);
    var m := dict[k].1;
    PlannedWriteOf(tax, sel, k, p, g);
    forall i | 0 <= i < |ws| && ws[i].table == g.name && ws[i].column == p.name
      ensures ws[i].mask == m
    {
      PlannedMaskOfSoleEntry(tax, sel, k, g.name, p.name, ws[i]);
    }
    SaveWritesReadBackAgreed(db, person, ws, g.name, p.name, m);
    StoredMaskDecodes(m);
  }

  /** The same, for the save as a whole. */
  lemma SaveLocationSelects(db: Db, tax: seq<Location>, person: int, sel: Selection, k: nat, p: Location, g: Location, c: int)
    requires WellFormed(db) && UniqueIds(tax)
    requires SaveLocation(db, tax, person, sel).Ok?
    requires k < |sel| && p in tax && g in tax && p.id == sel[k].0 && p.parentId == Some(g.id)
    requires g.name in db
    requires SoleEntryForCell(tax, sel, k, g.name, p.name)
    ensures var v := Cell(SaveLocation(db, tax, person, sel).value.0, g.name, person, p.name);
      v.Some? && (IsSelectedBit(v.value, c) <==> c >= 0 && c in sel[k].1)
  {
    PlannedWritesSelect(db, tax, person, sel, k, p, g, c);
  }
}
