/** Comma-separated id lists: `string.Join(",", ids)` on the C# side and
    `STRING_SPLIT(@ids, ',')` on the SQL side, whose pieces are compared
    with integer ids after conversion. */
module IdLists {
  import opened Wrappers
  import opened RawValues

  /** `string.Join(",", ids)`. */
  function JoinIds(ids: seq<int>): (s: string)
    ensures |ids| == 0 <==> s == ""
  {
    if |ids| == 0 then ""
    else if |ids| == 1 then FormatInteger(ids[0])
    else FormatInteger(ids[0]) + "," + JoinIds(ids[1..])
  }

  /** The pieces between separators, empty ones included; even the empty
      string yields one (empty) piece. Both `STRING_SPLIT(s, ',')` and C#'s
      `s.Split('|')` split this way. */
  function Split(s: string, sep: char): (r: seq<string>)
    ensures |r| >= 1
    ensures Intercalate(r, sep) == s
    ensures forall k | 0 <= k < |r| :: sep !in r[k]
    decreases |s|
  {
    if |s| == 0 then [""]
    else
      var rest := Split(s[1..], sep);
      assert s == [s[0]] + s[1..];
      if s[0] == sep then
        assert forall k | 1 <= k < |[""] + rest| :: ([""] + rest)[k] == rest[k - 1];
        [""] + rest
      else
        var r := [[s[0]] + rest[0]] + rest[1..];
        assert forall k | 1 <= k < |r| :: r[k] == rest[k];
        IntercalateExtendFirst(s[0], rest, sep);
        r
  }

  /** The pieces joined back with the separator between them: the inverse
      of `Split`. */
  function Intercalate(pieces: seq<string>, sep: char): string
    requires |pieces| >= 1
  {
    if |pieces| == 1 then pieces[0] else pieces[0] + [sep] + Intercalate(pieces[1..], sep)
  }

  /** Prefixing the first piece prefixes the joined text. */
  lemma IntercalateExtendFirst(c: char, pieces: seq<string>, sep: char)
    requires |pieces| >= 1
    ensures Intercalate([[c] + pieces[0]] + pieces[1..], sep) == [c] + Intercalate(pieces, sep)
  {
    var r := [[c] + pieces[0]] + pieces[1..];
    if |pieces| > 1 {
      assert r[1..] == pieces[1..];
    }
  }

  /** SQL Server's conversion of one piece to `INT`: the empty string
      converts to zero; other text must spell an integer within 32 bits,
      or the statement fails. */
  function ConvertPiece(piece: string): (r: Result<Int32>)
    ensures piece == "" ==> r == Ok(0)
    ensures piece != "" ==> (r.Ok? <==> ParseInteger(piece).Some? && -0x8000_0000 <= ParseInteger(piece).value < 0x8000_0000)
    ensures piece != "" && r.Ok? ==> r.value == ParseInteger(piece).value
  {
    if piece == "" then Ok(0) else ParseInt32(piece)
  }

  /** Every piece converts. */
  predicate AllConvert(pieces: seq<string>) {
    forall k | 0 <= k < |pieces| :: ConvertPiece(pieces[k]).Ok?
  }

  function ConvertPieces(pieces: seq<string>): (r: Result<seq<Int32>>)
    ensures r.Ok? <==> AllConvert(pieces)
    ensures r.Ok? ==> |r.value| == |pieces| && forall k | 0 <= k < |pieces| :: r.value[k] == ConvertPiece(pieces[k]).value
  {
    if |pieces| == 0 then Ok([])
    else
      assert forall k | 1 <= k < |pieces| :: pieces[k] == pieces[1..][k - 1];
      var first :- ConvertPiece(pieces[0]);
      var rest :- ConvertPieces(pieces[1..]);
      Ok([first] + rest)
  }

  /** `SELECT value FROM STRING_SPLIT(s, ',')` compared with an `INT`
      column: the ids the list denotes, or the conversion error. */
  function SqlIdList(s: string): (r: Result<seq<Int32>>)
    ensures r.Ok? <==> AllConvert(Split(s, ','))
    ensures r.Ok? ==> |r.value| == |Split(s, ',')|
    ensures r.Ok? ==> forall k | 0 <= k < |r.value| :: r.value[k] == ConvertPiece(Split(s, ',')[k]).value
  {
    ConvertPieces(Split(s, ','))
  }

  lemma {:induction false} SplitNoSeparator(p: string, sep: char)
    requires sep !in p
    ensures Split(p, sep) == [p]
    decreases |p|
  {
    if |p| > 0 {
      SplitNoSeparator(p[1..], sep);
      assert [p[0]] + p[1..] == p;
    }
  }

  lemma {:induction false} SplitAfterPiece(p: string, sep: char, q: string)
    requires sep !in p
    ensures Split(p + [sep] + q, sep) == [p] + Split(q, sep)
    decreases |p|
  {
    if |p| == 0 {
      assert p + [sep] + q == [sep] + q;
      assert (p + [sep] + q)[1..] == q;
    } else {
      var s := p + [sep] + q;
      assert s[0] == p[0];
      assert s[1..] == p[1..] + [sep] + q;
      SplitAfterPiece(p[1..], sep, q);
      assert [p[0]] + p[1..] == p;
    }
  }

  /** The decimal text of an integer holds no separator. */
  lemma NoSeparatorInNumber(n: int, sep: char)
    requires !IsDigit(sep) && sep != '-'
    ensures sep !in FormatInteger(n)
  {
    var s := FormatInteger(n);
    if n >= 0 {
      assert forall k | 0 <= k < |s| :: IsDigit(s[k]);
    } else {
      assert s == "-" + NatDigits(-n);
      assert forall k | 1 <= k < |s| :: s[k] == NatDigits(-n)[k - 1];
    }
  }

  /** Splitting a joined list gives back the decimal spelling of each id. */
  lemma {:induction false} SplitJoin(ids: seq<int>)
    requires |ids| > 0
    ensures |Split(JoinIds(ids), ',')| == |ids|
    ensures forall k | 0 <= k < |ids| :: Split(JoinIds(ids), ',')[k] == FormatInteger(ids[k])
  {
    NoSeparatorInNumber(ids[0], ',');
    if |ids| == 1 {
      SplitNoSeparator(FormatInteger(ids[0]), ',');
    } else {
      SplitJoin(ids[1..]);
      assert JoinIds(ids) == FormatInteger(ids[0]) + [','] + JoinIds(ids[1..]);
      SplitAfterPiece(FormatInteger(ids[0]), ',', JoinIds(ids[1..]));
    }
  }

  /** The round trip the save and the view rely on: a non-empty joined
      list of 32-bit ids converts back to exactly that list. */
  lemma SqlIdListOfJoin(ids: seq<Int32>)
    requires |ids| > 0
    ensures SqlIdList(JoinIds(ids)) == Ok(ids)
  {
    SplitJoin(ids);
    var pieces := Split(JoinIds(ids), ',');
    forall k | 0 <= k < |ids|
      ensures ConvertPiece(pieces[k]) == Ok(ids[k])
    {
      ParseFormatRoundTrip(ids[k]);
    }
    var r := ConvertPieces(pieces);
    assert r.Ok?;
    assert r.value == ids;
  }

  /** An empty list is one empty piece, which converts to id zero. */
  lemma SqlIdListOfEmpty()
    ensures SqlIdList(JoinIds([])) == Ok([0])
  {
    var s := JoinIds([]);
    assert s == "";
    var pieces := Split(s, ',');
    assert pieces == [""];
    assert ConvertPiece(pieces[0]) == Ok(0);
    var r := ConvertPieces(pieces);
    assert r.Ok?;
    assert |r.value| == 1 && r.value[0] == 0;
    assert r.value == [0];
  }
}
