/** Comparison of doubles (binary64 of IEEE 754), given by the eight bytes that represent them. */
module Doubles {
  import opened Bytes
  import opened LittleEndian

  /** The magnitude bits of infinity; larger ones are not a number. */
  const INFINITE: nat := 0x7FF0_0000_0000_0000

  predicate Negative(bits: seq<byte>) { LeValue(bits) >= 0x8000_0000_0000_0000 }

  /** Exponent and fraction. */
  function Magnitude(bits: seq<byte>): nat { LeValue(bits) % 0x8000_0000_0000_0000 }

  predicate IsNan(bits: seq<byte>) { Magnitude(bits) > INFINITE }

  /** The absolute value as a multiple of 2^-1074; infinity comes out above all numbers. */
  function Absolute(m: nat): nat {
    var e, f := m / 0x10_0000_0000_0000, m % 0x10_0000_0000_0000;
    if e == 0 then f else (0x10_0000_0000_0000 + f) * Pow2(e - 1)
  }

  function Number(bits: seq<byte>): int {
    if Negative(bits) then 0 - Absolute(Magnitude(bits)) else Absolute(Magnitude(bits))
  }

  /** What sign, exponent and fraction mean: from 1 on the exponent doubles the number and adds
      a leading bit to the fraction; the largest one marks infinity and what is not a number. */
  lemma FieldsMean(bits: seq<byte>, sign: nat, e: nat, f: nat)
    requires sign < 2 && e < 2048 && f < 0x10_0000_0000_0000
    requires LeValue(bits) == sign * 0x8000_0000_0000_0000 + e * 0x10_0000_0000_0000 + f
    ensures var n := if e == 0 then f else (0x10_0000_0000_0000 + f) * Pow2(e - 1);
            Number(bits) == if sign == 1 then 0 - n else n
    ensures IsNan(bits) <==> e == 2047 && f != 0
  {
    SplitsAs(e * 0x10_0000_0000_0000 + f, e, f);
    assert Magnitude(bits) == e * 0x10_0000_0000_0000 + f;
  }

  /** Every eight bytes have a sign, an exponent and a fraction. */
  lemma HasFields(bits: seq<byte>) returns (sign: nat, e: nat, f: nat)
    requires |bits| == 8
    ensures sign < 2 && e < 2048 && f < 0x10_0000_0000_0000
    ensures LeValue(bits) == sign * 0x8000_0000_0000_0000 + e * 0x10_0000_0000_0000 + f
  {
    LeBound(bits);
    Widths();
    var v := LeValue(bits);
    sign, e, f := v / 0x8000_0000_0000_0000, v % 0x8000_0000_0000_0000 / 0x10_0000_0000_0000, v % 0x10_0000_0000_0000;
  }

  /** Magnitudes are ordered like the numbers they stand for. */
  lemma {:induction false} AbsoluteIsMonotonic(m: nat, n: nat)
    ensures m < n <==> Absolute(m) < Absolute(n)
  {
    if m < n {
      Increases(m, n);
    } else if n < m {
      Increases(n, m);
    }
  }

  lemma {:induction false} Increases(m: nat, n: nat)
    requires m < n
    ensures Absolute(m) < Absolute(n)
  {
    NextIsLarger(n - 1);
    if m < n - 1 {
      Increases(m, n - 1);
    }
  }

  lemma NextIsLarger(m: nat)
    ensures Absolute(m) < Absolute(m + 1)
  {
    var e, f := m / 0x10_0000_0000_0000, m % 0x10_0000_0000_0000;
    assert m == e * 0x10_0000_0000_0000 + f;
    if f + 1 < 0x10_0000_0000_0000 {
      SplitsAs(m + 1, e, f + 1);
      if e > 0 {
        LargerBy(0x10_0000_0000_0000 + f, Pow2(e - 1));
      }
    } else {
      SplitsAs(m + 1, e + 1, 0);
      if e > 0 {
        LargerBy(0x1F_FFFF_FFFF_FFFF, Pow2(e - 1));
        assert Pow2(e) == 2 * Pow2(e - 1);
        Doubling(Pow2(e - 1));
      }
    }
  }

  lemma SplitsAs(m: nat, e: nat, f: nat)
    requires m == e * 0x10_0000_0000_0000 + f && f < 0x10_0000_0000_0000
    ensures m / 0x10_0000_0000_0000 == e && m % 0x10_0000_0000_0000 == f
  {
  }

  lemma LargerBy(a: nat, p: nat)
    requires p > 0
    ensures a * p < (a + 1) * p
  {
  }

  lemma Doubling(p: nat)
    ensures 0x20_0000_0000_0000 * p == 0x10_0000_0000_0000 * (2 * p)
  {
  }

  /** Two doubles are the same number exactly if they have the same bits or are the two zeros. */
  lemma SameNumberIff(a: seq<byte>, b: seq<byte>)
    requires |a| == |b| == 8
    ensures Number(a) == Number(b) <==> a == b || Magnitude(a) == Magnitude(b) == 0
  {
    var x, y := Magnitude(a), Magnitude(b);
    AbsoluteIsMonotonic(x, y);
    AbsoluteIsMonotonic(y, x);
    AbsoluteIsMonotonic(0, x);
    AbsoluteIsMonotonic(0, y);
    assert Absolute(0) == 0;
    LeBound(a);
    LeBound(b);
    Widths();
    if x == y && Negative(a) == Negative(b) {
      LeInjective(a, b);
    }
  }
}
