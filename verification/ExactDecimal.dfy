/** The exact value m * 10^e of a decimal numeral, as a ratio of naturals in units of 2^-1074, and
    what correct rounding makes of it. */
module ExactDecimal {
  import opened Powers
  import opened Rounding

  function Positive(e: int): nat { if e > 0 then e else 0 }

  ghost function UnitsPerOne(): nat { Pow(2, 1074) }

  ghost function UnitsNumerator(m: nat, e: int): nat {
    hide Pow;
    PowStep(10, Positive(e));
    m * (Pow(10, Positive(e)) * UnitsPerOne())
  }

  ghost function UnitsDenominator(e: int): (d: nat)
    ensures d > 0
  {
    PowStep(10, Positive(-e));
    Pow(10, Positive(-e))
  }

  /** The correctly rounded magnitude of a rational, in units. */
  ghost function Rounded(x: nat, y: nat): (u: nat)
    requires 0 < y
    ensures RoundsTo(x, y, u)
  {
    assert exists u: nat :: RoundsTo(x, y, u) by {
      var u := RoundingExists(x, y);
    }
    var u: nat :| RoundsTo(x, y, u);
    u
  }

  /** The correctly rounded magnitude of m * 10^e. */
  ghost function RoundedDecimal(m: nat, e: int): nat {
    Rounded(UnitsNumerator(m, e), UnitsDenominator(e))
  }

  /** Neither overflows nor vanishes when rounded. */
  ghost predicate RoundsToNonzeroFinite(m: nat, e: int) {
    0 < RoundedDecimal(m, e) < OverflowUnits()
  }

  lemma RoundedIs(x: nat, y: nat, u: nat)
    requires 0 < y && RoundsTo(x, y, u)
    ensures Rounded(x, y) == u
  {
    RoundingUnique(x, y, u, Rounded(x, y));
  }

  lemma RoundedSameRatio(x: nat, y: nat, x': nat, y': nat)
    requires 0 < y && 0 < y' && x * y' == x' * y
    ensures Rounded(x, y) == Rounded(x', y')
  {
    SameRatioRounding(x, y, x', y', Rounded(x, y));
    RoundedIs(x', y', Rounded(x, y));
  }

  /** Moving trailing zeros between coefficient and exponent changes nothing. */
  lemma RoundedMoveZeros(c: nat, e: int, d: nat)
    ensures RoundedDecimal(c * Pow(10, d), e - d) == RoundedDecimal(c, e)
  {
    MoveZerosRatio(c, e, d);
    hide *;
    RoundedMoveRatio(c, e, c * Pow(10, d), e - d);
  }

  lemma RoundedMoveRatio(m: nat, e: int, m': nat, e': int)
    requires UnitsNumerator(m, e) * UnitsDenominator(e') == UnitsNumerator(m', e') * UnitsDenominator(e)
    ensures RoundedDecimal(m', e') == RoundedDecimal(m, e)
  {
    hide UnitsNumerator;
    hide UnitsDenominator;
    RoundedSameRatio(UnitsNumerator(m, e), UnitsDenominator(e), UnitsNumerator(m', e'), UnitsDenominator(e'));
  }

  lemma MoveZerosRatio(c: nat, e: int, d: nat)
    ensures c * Pow(10, d) >= 0
    ensures UnitsNumerator(c, e) * UnitsDenominator(e - d) == UnitsNumerator(c * Pow(10, d), e - d) * UnitsDenominator(e)
  {
    PowersBalance(e, d);
    hide Pow;
    hide UnitsPerOne;
    PowStep(10, d);
    CrossProducts(c, UnitsPerOne(), Pow(10, Positive(e)), UnitsDenominator(e - d), Pow(10, d), Pow(10, Positive(e - d)),
                  UnitsDenominator(e));
  }

  lemma PowersBalance(e: int, d: nat)
    ensures Pow(10, Positive(e)) * Pow(10, Positive(d - e)) == (Pow(10, d) * Pow(10, Positive(e - d))) * Pow(10, Positive(-e))
  {
    hide Pow;
    PowAdd(10, Positive(e), Positive(d - e));
    PowAdd(10, d, Positive(e - d));
    PowAdd(10, d + Positive(e - d), Positive(-e));
  }

  lemma CrossProducts(c: nat, one: nat, a: nat, t: nat, p: nat, s: nat, b: nat)
    requires a * t == (p * s) * b
    ensures (c * (a * one)) * t == ((c * p) * (s * one)) * b
  {
    calc {
      (c * (a * one)) * t;
    ==  { MulAssoc(c, a * one, t); MulAssoc(a, one, t); MulAssoc(a, t, one); }
      c * ((a * t) * one);
    ==
      c * (((p * s) * b) * one);
    ==  { MulAssoc(p * s, b, one); MulAssoc(p * s, one, b); MulAssoc(p, s, one); }
      c * ((p * (s * one)) * b);
    ==  { MulAssoc(p, s * one, b); MulAssoc(c, p, (s * one) * b); MulAssoc(c * p, s * one, b); }
      ((c * p) * (s * one)) * b;
    }
  }

  /** m * 10^e with decimal order at least 309 overflows. */
  lemma LargeOrderOverflows(m: nat, e: int, order: int)
    requires order >= 309 && 0 <= order - e && Pow(10, order - e) <= m
    ensures OverflowUnits() <= RoundedDecimal(m, e)
  {
    hide Pow;
    hide UnitsPerOne;
    hide OverflowUnits;
    var one: nat, p: nat := UnitsPerOne(), Pow(10, order);
    var a: nat, b: nat := Pow(10, Positive(e)), UnitsDenominator(e);
    assert OverflowUnits() * b <= m * (a * one) by {
      PowAdd(10, order, Positive(-e));
      PowAdd(10, order - e, Positive(e));
      MulMonotone(Pow(10, order - e), m, a);
      OverflowBelowPowerOfTen(order);
      MulMonotone(OverflowUnits(), p * one, b);
      MulMonotone(p * b, m * a, one);
      MulAssoc(p, one, b);
      MulAssoc(p, b, one);
      MulAssoc(m, a, one);
    }
    OverflowIsRepresentable();
    RoundsAtLeast(UnitsNumerator(m, e), UnitsDenominator(e), OverflowUnits(), RoundedDecimal(m, e));
  }

  lemma OverflowIsRepresentable()
    ensures Representable(OverflowUnits())
  {
    assert Scaled(OverflowUnits(), 1, 2098);
  }

  /** 2^1024 <= 10^309, from 2^93 < 10^28 and 2^3 < 10. */
  lemma OverflowBelowPowerOfTen(order: nat)
    requires order >= 309
    ensures OverflowUnits() <= Pow(10, order) * UnitsPerOne()
  {
    hide Pow;
    TenToTwentyEight(11);
    PowAdd(10, 28 * 11, 1);
    PowMonotone(10, 309, order);
    PowAdd(2, 93 * 11, 3);
    PowMonotone(2, 1024, 1026);
    PowAdd(2, 1024, 1074);
    SmallPowers();
    MulMonotone2(Pow(2, 1023), Pow(10, 308), 8, 10);
    MulMonotone(Pow(2, 1024), Pow(10, order), UnitsPerOne());
  }

  /** 10^28 > 2^93, raised to a power. */
  lemma TenToTwentyEight(n: nat)
    ensures Pow(2, 93 * n) <= Pow(10, 28 * n)
  {
    hide Pow;
    PowOfPow(2, 93, n);
    PowOfPow(10, 28, n);
    TwentyEightDigits();
    PowBaseMonotone(Pow(2, 93), Pow(10, 28), n);
  }

  lemma TwentyEightDigits()
    ensures Pow(2, 93) <= Pow(10, 28)
    ensures Pow(2, 53) <= Pow(10, 16)
  {
    hide Pow;
    PowTwoValues();
    SmallPowers();
    PowAdd(2, 32, 32);
    PowAdd(2, 64, 16);
    PowAdd(2, 80, 8);
    PowAdd(2, 88, 5);
    PowAdd(2, 32, 16);
    PowAdd(2, 48, 5);
    PowAdd(10, 4, 4);
    PowAdd(10, 8, 8);
    PowAdd(10, 16, 8);
    PowAdd(10, 24, 4);
  }

  /** m * 10^e below 10^-324 rounds to zero. */
  lemma SmallOrderVanishes(m: nat, e: int, order: int)
    requires order <= -325 && 0 <= order + 1 - e && m < Pow(10, order + 1 - e)
    ensures RoundedDecimal(m, e) == 0
  {
    hide Pow;
    hide UnitsPerOne;
    var one, b: nat, top: nat, p: nat := UnitsPerOne(), UnitsDenominator(e), Pow(10, order + 1 - e), Pow(10, -order - 1);
    assert 2 * (m * one) < b by {
      PowAdd(10, order + 1 - e, -order - 1);
      TwiceUnitBelowPowerOfTen(-order - 1);
      MulStrict(m, top, 2 * one);
      MulMonotone(2 * one, p, top);
    }
    PowZero(10);
    RoundsToZero(UnitsNumerator(m, e), UnitsDenominator(e), RoundedDecimal(m, e));
  }

  /** 2^1075 <= 10^324, from 2^93 < 10^28 and 2^53 < 10^16. */
  lemma TwiceUnitBelowPowerOfTen(order: nat)
    requires order >= 324
    ensures 2 * UnitsPerOne() <= Pow(10, order)
    ensures 0 < UnitsPerOne()
  {
    hide Pow;
    TenToTwentyEight(11);
    TwentyEightDigits();
    PowAdd(10, 28 * 11, 16);
    PowMonotone(10, 324, order);
    PowAdd(2, 93 * 11, 53);
    PowMonotone(2, 1075, 1076);
    PowStep(2, 1074);
    MulMonotone2(Pow(2, 1023), Pow(10, 308), Pow(2, 53), Pow(10, 16));
  }
}
