/** Values as the database driver hands them back, and the text forms the
    code converts them through: `BigInteger.ToString()`,
    `BigInteger.TryParse` and `int.Parse` with the default integer style
    (optional surrounding white space, an optional leading sign, decimal
    digits). */
module RawValues {
  import opened Wrappers

  /** C# `int` and SQL `INT`. */
  type Int32 = x: int | -0x8000_0000 <= x < 0x8000_0000

  /** C# `long` and SQL `BIGINT`. */
  type Int64 = x: int | -0x8000_0000_0000_0000 <= x < 0x8000_0000_0000_0000

  /** One cell of a result row, by the runtime type of the object the
      reader returns: `int`, `long`, `string`, `bool` (a BIT column),
      `DBNull` for SQL NULL, or anything else (a `decimal`, say). */
  datatype RawValue =
    | IntV(i: Int32)
    | LongV(l: Int64)
    | StrV(s: string)
    | BoolV(b: bool)
    | NullV
    | OtherV

  // ---------------------------------------------------------------- digits

  predicate IsDigit(c: char) {
    '0' <= c <= '9'
  }

  predicate AllDigits(s: string) {
    forall i | 0 <= i < |s| :: IsDigit(s[i])
  }

  function DigitValue(c: char): nat
    requires IsDigit(c)
  {
    c as int - '0' as int
  }

  function DigitChar(d: nat): (c: char)
    requires d < 10
    ensures IsDigit(c) && DigitValue(c) == d
  {
    ('0' as int + d) as char
  }

  /** The number a string of decimal digits denotes, most significant first. */
  function DigitsValue(s: string): nat
    requires AllDigits(s)
    decreases |s|
  {
    if |s| == 0 then 0 else 10 * DigitsValue(s[..|s| - 1]) + DigitValue(s[|s| - 1])
  }

  /** The shortest decimal spelling of `n`. */
  function NatDigits(n: nat): (s: string)
    ensures |s| > 0 && AllDigits(s)
    ensures DigitsValue(s) == n
    ensures (s[0] == '0') == (n == 0)
    decreases n
  {
    if n < 10 then [DigitChar(n)]
    else
      var front := NatDigits(n / 10);
      var s := front + [DigitChar(n % 10)];
      assert s[..|s| - 1] == front;
      s
  }

  /** `BigInteger.ToString()`: a '-' for negative values, then the digits. */
  function FormatInteger(n: int): (s: string)
    ensures |s| > 0 && IsDigit(s[|s| - 1])
    ensures (s[0] == '-') == (n < 0)
    ensures n >= 0 ==> AllDigits(s) && DigitsValue(s) == n
  {
    if n < 0 then "-" + NatDigits(-n) else NatDigits(n)
  }

  // ---------------------------------------------------------------- parsing

  /** The white space the integer number style skips: U+0009 to U+000D and
      the space. */
  predicate IsWhite(c: char) {
    c == ' ' || '\t' <= c <= '\r'
  }

  function TrimStart(s: string): (t: string)
    ensures |t| <= |s| && t == s[|s| - |t|..]
    ensures |t| > 0 ==> !IsWhite(t[0])
    ensures forall i | 0 <= i < |s| - |t| :: IsWhite(s[i])
  {
    if |s| > 0 && IsWhite(s[0]) then TrimStart(s[1..]) else s
  }

  function TrimEnd(s: string): (t: string)
    ensures |t| <= |s| && t == s[..|t|]
    ensures |t| > 0 ==> !IsWhite(t[|t| - 1])
    ensures forall i | |t| <= i < |s| :: IsWhite(s[i])
  {
    if |s| > 0 && IsWhite(s[|s| - 1]) then TrimEnd(s[..|s| - 1]) else s
  }

  /** Sign and digits once the surrounding white space is gone. */
  function ParseSigned(t: string): Option<int> {
    if |t| > 0 && (t[0] == '-' || t[0] == '+') then
      var body := t[1..];
      if |body| > 0 && AllDigits(body) then
        var v: int := DigitsValue(body);
        Some(if t[0] == '-' then -v else v)
      else None
    else if |t| > 0 && AllDigits(t) then Some(DigitsValue(t))
    else None
  }

  /** `BigInteger.TryParse(s, out v)`: `Some(v)` on success. */
  function ParseInteger(s: string): (r: Option<int>)
    ensures |s| > 0 && AllDigits(s) ==> r == Some(DigitsValue(s))
    ensures (forall i | 0 <= i < |s| :: IsWhite(s[i])) ==> r == None
  {
    assert |s| > 0 && AllDigits(s) ==> TrimEnd(TrimStart(s)) == s by {
      if |s| > 0 && AllDigits(s) {
        assert TrimStart(s) == s;
        assert TrimEnd(s) == s;
      }
    }
    ParseSigned(TrimEnd(TrimStart(s)))
  }

  lemma NoWhiteAtEnds(s: string)
    requires |s| > 0 && !IsWhite(s[0]) && !IsWhite(s[|s| - 1])
    ensures TrimEnd(TrimStart(s)) == s
  {
  }

  /** Parsing recovers every integer from its `ToString()` form. */
  lemma {:induction false} ParseFormatRoundTrip(n: int)
    ensures ParseInteger(FormatInteger(n)) == Some(n)
  {
    var s := FormatInteger(n);
    NoWhiteAtEnds(s);
    if n < 0 {
      var body := NatDigits(-n);
      assert s == "-" + body;
      assert s[1..] == body;
      assert ParseSigned(s) == Some(n);
    } else {
      assert s[0] != '-' && s[0] != '+';
      assert ParseSigned(s) == Some(n);
    }
  }

  /** `int.Parse(s)`: a format error for text that is not an integer and
      an overflow error for an integer outside 32 bits. */
  function ParseInt32(s: string): (r: Result<Int32>)
    ensures r.Ok? <==> ParseInteger(s).Some? && -0x8000_0000 <= ParseInteger(s).value < 0x8000_0000
    ensures r.Ok? ==> r.value == ParseInteger(s).value
    ensures ParseInteger(s).None? ==> r == Err(FormatError)
  {
    match ParseInteger(s)
    case None => Err(FormatError)
    case Some(n) => if -0x8000_0000 <= n < 0x8000_0000 then Ok(n) else Err(Overflow)
  }

  // ---------------------------------------------------------------- decoding

  /** `TryGetBitmask(value, out bitmask)`: the returned flag and the out
      value. `int` and `long` convert as they are, a string goes through
      `BigInteger.TryParse` (which leaves zero behind when it fails), and
      every other runtime type fails with zero. */
  function TryGetBitmask(v: RawValue): (r: (bool, int))
    ensures !r.0 ==> r.1 == 0
    ensures v.IntV? ==> r == (true, v.i as int)
    ensures v.LongV? ==> r == (true, v.l as int)
    ensures v.StrV? ==> r == (ParseInteger(v.s).Some?, ParseInteger(v.s).GetOr(0))
    ensures !(v.IntV? || v.LongV? || v.StrV?) ==> r == (false, 0)
  {
    match v
    case IntV(i) => (true, i)
    case LongV(l) => (true, l)
    case StrV(s) =>
      (match ParseInteger(s)
       case Some(m) => (true, m)
       case None => (false, 0))
    case _ => (false, 0)
  }

  /** A mask written as its decimal text decodes to itself. */
  lemma StoredMaskDecodes(m: int)
    ensures TryGetBitmask(StrV(FormatInteger(m))) == (true, m)
  {
    ParseFormatRoundTrip(m);
  }

  /** The report's zero test, `NodeSelectedButNotChildrenSelected`: an
      `int` or `long` zero, or the strings "" and "0". Everything else,
      NULL included, is not zero. */
  predicate IsZeroMarker(v: RawValue) {
    match v
    case IntV(i) => i == 0
    case LongV(l) => l == 0
    case StrV(s) => s == "" || s == "0"
    case _ => false
  }

  /** On the integer types and on every string the save writes, the zero
      test agrees with decoding to zero; a NULL cell is never zero. */
  lemma ZeroMarkerAgreesWithDecoding(v: RawValue, m: int)
    requires v.IntV? || v.LongV? || v == StrV(FormatInteger(m))
    ensures IsZeroMarker(v) <==> TryGetBitmask(v) == (true, 0)
    ensures !IsZeroMarker(NullV)
  {
    if v.StrV? {
      StoredMaskDecodes(m);
      var s := FormatInteger(m);
      if m == 0 {
        assert s == "0";
      } else if m > 0 {
        assert s[0] != '0';
      } else {
        assert s[0] == '-';
      }
    }
  }
}
