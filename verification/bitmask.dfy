/** The selection codec. A parent's selected children are packed into one
    arbitrary-precision integer whose bit `i` is set when the child with
    `ChildId == i` is selected. Bits are those of the two's complement
    representation, as `System.Numerics.BigInteger` uses for `&`. */
module Bitmask {
  import opened Wrappers
  import opened RawValues

  function Pow2(n: nat): (r: nat)
    ensures r > 0
  {
    if n == 0 then 1 else 2 * Pow2(n - 1)
  }

  /** Bit `i` of `m` in two's complement. Dafny's division by a positive
      number rounds toward minus infinity, which is the arithmetic shift
      `BigInteger` performs, so negative values are covered too. */
  predicate Bit(m: int, i: nat)
    decreases i
  {
    if i == 0 then m % 2 == 1 else Bit(m / 2, i - 1)
  }

  lemma {:induction false} ZeroHasNoBits(i: nat)
    ensures !Bit(0, i)
  {
    if i > 0 {
      ZeroHasNoBits(i - 1);
    }
  }

  lemma BitOfDouble(x: int, e: int, i: nat)
    requires e == 0 || e == 1
    ensures Bit(2 * x + e, i) == if i == 0 then e == 1 else Bit(x, i - 1)
  {
    assert (2 * x + e) % 2 == e;
    assert (2 * x + e) / 2 == x;
  }

  lemma {:induction false} Pow2HasOneBit(n: nat, i: nat)
    ensures Bit(Pow2(n), i) <==> i == n
  {
    if n == 0 {
      BitOfDouble(0, 1, i);
      if i > 0 {
        ZeroHasNoBits(i - 1);
      }
    } else {
      BitOfDouble(Pow2(n - 1), 0, i);
      if i > 0 {
        Pow2HasOneBit(n - 1, i - 1);
      }
    }
  }

  /** A natural number is determined by its bits. */
  lemma {:induction false} BitsDetermine(a: nat, b: nat)
    requires forall i: nat :: Bit(a, i) == Bit(b, i)
    ensures a == b
    decreases a + b
  {
    if a != 0 || b != 0 {
      assert Bit(a, 0) == Bit(b, 0);
      assert a % 2 == b % 2;
      forall i: nat
        ensures Bit(a / 2, i) == Bit(b / 2, i)
      {
        assert Bit(a, i + 1) == Bit(b, i + 1);
      }
      BitsDetermine(a / 2, b / 2);
    }
  }

  /** `a | b` on non-negative values. */
  function Or(a: nat, b: nat): (r: nat)
    ensures forall i: nat :: Bit(r, i) == (Bit(a, i) || Bit(b, i))
    decreases a + b
  {
    if a == 0 && b == 0 then
      assert forall i: nat :: !Bit(0, i) by {
        forall i: nat {
          ZeroHasNoBits(i);
        }
      }
      0
    else
      var low := if a % 2 == 1 || b % 2 == 1 then 1 else 0;
      var high := Or(a / 2, b / 2);
      var r := 2 * high + low;
      assert forall i: nat :: Bit(r, i) == (Bit(a, i) || Bit(b, i)) by {
        forall i: nat
          ensures Bit(r, i) == (Bit(a, i) || Bit(b, i))
        {
          BitOfDouble(high, low, i);
          BitOfDouble(a / 2, a % 2, i);
          BitOfDouble(b / 2, b % 2, i);
        }
      }
      r
  }

  /** `BigInteger.One << c`. A negative count shifts right instead, and one
      shifted right is zero. */
  function ShiftOne(c: int): (r: nat)
    ensures forall i: nat :: Bit(r, i) <==> i == c
  {
    if c >= 0 then
      assert forall i: nat :: Bit(Pow2(c), i) <==> i == c by {
        forall i: nat {
          Pow2HasOneBit(c, i);
        }
      }
      Pow2(c)
    else
      assert forall i: nat :: !Bit(0, i) by {
        forall i: nat {
          ZeroHasNoBits(i);
        }
      }
      0
  }

  /** `GetBitmaskedDictionary` for one parent: `childIds.Aggregate(0,
      (acc, id) => acc | (One << id))`. */
  function Encode(childIds: seq<int>): (r: nat)
    ensures forall i: nat :: Bit(r, i) <==> i in childIds
  {
    if |childIds| == 0 then
      assert forall i: nat :: !Bit(0, i) by {
        forall i: nat {
          ZeroHasNoBits(i);
        }
      }
      0
    else
      var front := childIds[..|childIds| - 1];
      var last := childIds[|childIds| - 1];
      assert childIds == front + [last];
      Or(Encode(front), ShiftOne(last))
  }

  /** An empty selection encodes as zero. */
  lemma EncodeEmpty()
    ensures Encode([]) == 0
  {
  }

  /** The encoding depends only on which non-negative ids occur: order,
      repetition and negative ids make no difference. */
  lemma EncodeDependsOnlyOnIdSet(xs: seq<int>, ys: seq<int>)
    requires forall i: nat :: i in xs <==> i in ys
    ensures Encode(xs) == Encode(ys)
  {
    BitsDetermine(Encode(xs), Encode(ys));
  }

  /** `(mask & (BigInteger.One << childId)) != 0`. */
  predicate BigTest(mask: int, childId: int) {
    childId >= 0 && Bit(mask, childId)
  }

  /** The selection test on an encoded list is membership in the list. */
  lemma EncodeTestAgreement(childIds: seq<int>, c: int)
    ensures BigTest(Encode(childIds), c) <==> c >= 0 && c in childIds
  {
  }

  /** The leaf test of the report, `GetLeafNodes`. A string goes through
      `BigInteger`; an `int` or `long` uses the native shift, whose count
      C# masks to its low five or six bits (Dafny's `%` by a positive
      number equals that mask for negative counts too). */
  predicate LeafMatch(v: RawValue, childId: int) {
    match v
    case StrV(s) =>
      (match ParseInteger(s)
       case Some(m) => BigTest(m, childId)
       case None => false)
    case IntV(x) => Bit(x, childId % 32)
    case LongV(x) => Bit(x, childId % 64)
    case _ => false
  }

  /** The selection test of the editing view on a stored cell. */
  predicate IsSelectedBit(v: RawValue, childId: int) {
    TryGetBitmask(v).0 && BigTest(TryGetBitmask(v).1, childId)
  }

  /** The report's leaf test and the view's selection test agree on strings
      always, and on integers for every child id inside the native width. */
  lemma LeafMatchAgreesWithView(v: RawValue, c: int)
    requires v.StrV? || (v.IntV? && 0 <= c < 32) || (v.LongV? && 0 <= c < 64)
    ensures LeafMatch(v, c) == IsSelectedBit(v, c)
  {
  }

  /** Outside the native width the shift count wraps around: child 32 of an
      `int` cell is tested against bit 0. */
  lemma LeafMatchWrapsShiftCount(x: Int32, c: int)
    ensures LeafMatch(IntV(x), c + 32) == LeafMatch(IntV(x), c)
  {
    assert (c + 32) % 32 == c % 32;
  }

  /** A stored encoded list matches exactly the leaves it lists. */
  lemma LeafMatchOnStoredEncoding(childIds: seq<int>, c: int)
    ensures LeafMatch(StrV(FormatInteger(Encode(childIds))), c) <==> c >= 0 && c in childIds
  {
    ParseFormatRoundTrip(Encode(childIds));
  }
}
