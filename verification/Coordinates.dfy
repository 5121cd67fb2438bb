/** Coordinates: written as decimal degrees with six places, read back as the nearest datum. */
module Coordinates {
  import opened Wrappers
  import opened Powers
  import opened Rounding
  import opened Binary64
  import opened ExactDecimal
  import opened Ascii
  import opened DecimalDigits
  import opened DecimalExponents
  import opened DecimalText
  import opened ParseDouble

  /** The whole text is a numeral in double range and denotes this datum. */
  ghost predicate Reads(text: string, bits: Bits64) {
    var scanned := Scan(text, true);
    scanned.Some? && InDoubleRange(scanned.value) && AllSpaces(text[scanned.value.end..]) && Parses(scanned.value, bits)
  }

  lemma ReadsUnique(text: string, a: Bits64, b: Bits64)
    requires Reads(text, a) && Reads(text, b)
    ensures a == b
  {
    hide Magnitude;
    hide InDoubleRange;
    hide Scan;
    DatumUnique(a, b);
  }

  /** The datum a text denotes, if it denotes one. */
  ghost function DoubleOf(text: string): (r: Option<Bits64>)
    ensures r.Some? ==> Reads(text, r.value)
  {
    if exists b: Bits64 :: Reads(text, b) then
      var b: Bits64 :| Reads(text, b);
      Some(b)
    else None
  }

  lemma DoubleOfRead(text: string, bits: Bits64)
    requires Reads(text, bits)
    ensures DoubleOf(text) == Some(bits)
  {
    hide Reads;
    ReadsUnique(text, bits, DoubleOf(text).value);
  }

  const NINETY: Bits64 := 0x4056_8000_0000_0000
  const ONE_EIGHTY: Bits64 := 0x4066_8000_0000_0000

  /** No farther from zero than a number of degrees. */
  ghost predicate Within(bits: Bits64, degrees: nat) { Magnitude(bits) <= degrees * UnitsPerOne() }

  /** The comparison with both limits at once: a datum lies between -limit and limit. */
  predicate AtMost(bits: Bits64, limit: Bits64) { bits % SIGN_BIT <= limit }

  lemma NinetyDegrees()
    ensures Finite(NINETY) && !Negative(NINETY) && Magnitude(NINETY) == 90 * UnitsPerOne()
  {
    LimitMagnitude(NINETY, 90 * Scale46(), 1029);
  }

  lemma OneEightyDegrees()
    ensures Finite(ONE_EIGHTY) && !Negative(ONE_EIGHTY) && Magnitude(ONE_EIGHTY) == 180 * UnitsPerOne()
  {
    hide Pow;
    LimitMagnitude(ONE_EIGHTY, 90 * Scale46(), 1030);
    DoubleNinety(1074);
  }

  lemma DoubleNinety(k: nat)
    ensures 90 * Pow(2, k + 1) == 180 * Pow(2, k)
  {
  }

  function Scale46(): nat { 0x4000_0000_0000 }

  lemma LimitMagnitude(bits: Bits64, significand: nat, field: nat)
    requires significand == 90 * Scale46() && 1029 <= field < 2047
    requires bits == field * FRACTION_LIMIT + (significand - FRACTION_LIMIT)
    ensures Finite(bits) && !Negative(bits) && Magnitude(bits) == 90 * Pow(2, field + 45)
  {
    FieldsOf(field, significand - FRACTION_LIMIT, false);
    hide Pow;
    Scale46Is();
    PowAdd(2, 46, field - 1);
    MulAssoc(90, Pow(2, 46), Pow(2, field - 1));
  }

  lemma Scale46Is()
    ensures Scale46() == Pow(2, 46)
  {
    PowTwoValues();
    assert Pow(2, 14) == 0x4000 by {
      assert Pow(2, 7) == 0x80;
      PowAdd(2, 7, 7);
    }
    PowAdd(2, 32, 14);
  }

  lemma LimitsOrdered(a: Bits64, b: Bits64)
    requires a < SIGN_BIT && b < SIGN_BIT && Finite(a) && Finite(b)
    ensures a <= b <==> Magnitude(a) <= Magnitude(b)
  {
    if a < b { SmallerBits(a, b); }
    if b < a { SmallerBits(b, a); }
  }

  lemma SmallerBits(a: Bits64, b: Bits64)
    requires a < b < SIGN_BIT && Finite(a) && Finite(b)
    ensures Magnitude(a) < Magnitude(b)
  {
    Fields(a);
    Fields(b);
    FieldsOrdered(a, b);
    var e := ExponentField(a);
    if e < ExponentField(b) {
      SmallerField(a, b);
    } else if e > 0 {
      hide Pow;
      PowStep(2, e - 1);
      MulStrict(FRACTION_LIMIT + Fraction(a), FRACTION_LIMIT + Fraction(b), Pow(2, e - 1));
    }
  }

  lemma FieldsOrdered(a: Bits64, b: Bits64)
    requires a <= b < SIGN_BIT
    ensures ExponentField(a) <= ExponentField(b)
  {
  }

  lemma Fields(bits: Bits64)
    requires bits < SIGN_BIT
    ensures bits == ExponentField(bits) * FRACTION_LIMIT + Fraction(bits) && Fraction(bits) < FRACTION_LIMIT
  {
    Decompose(bits);
  }

  lemma WithoutSign(bits: Bits64)
    ensures Finite(bits % SIGN_BIT) == Finite(bits) && Magnitude(bits % SIGN_BIT) == Magnitude(bits)
  {
    Decompose(bits);
    var field, fraction := ExponentField(bits), Fraction(bits);
    DivModUnique(bits, SIGN_BIT, if Negative(bits) then 1 else 0, field * FRACTION_LIMIT + fraction);
    FieldsOf(field, fraction, false);
  }

  /** The comparison of the bits is the comparison of the values. */
  lemma AtMostIsWithin(bits: Bits64)
    requires Finite(bits)
    ensures AtMost(bits, NINETY) <==> Within(bits, 90)
    ensures AtMost(bits, ONE_EIGHTY) <==> Within(bits, 180)
  {
    WithoutSign(bits);
    NinetyDegrees();
    OneEightyDegrees();
    hide Magnitude;
    hide UnitsPerOne;
    LimitsOrdered(bits % SIGN_BIT, NINETY);
    LimitsOrdered(bits % SIGN_BIT, ONE_EIGHTY);
  }

  /** What infiltratr_parse_double_range accepts for limits -degrees and degrees. */
  ghost function CoordinateOf(text: string, degrees: nat): Option<Bits64> {
    var d := DoubleOf(text);
    if d.Some? && Within(d.value, degrees) then d else None
  }

  /** infiltratr_parse_double_range with the limits of a latitude or a longitude. */
  method ParseCoordinate(text: string, latitude: bool) returns (r: Option<Bits64>)
    requires |text| <= TEXT_LIMIT && '\0' !in text
    ensures r == CoordinateOf(text, if latitude then 90 else 180)
  {
    var ok, bits := ParseDoubleText(text, 0);
    if !ok {
      NothingRead(text);
      return None;
    }
    assert Reads(text, bits) && Finite(bits);
    DoubleOfRead(text, bits);
    hide *;
    AtMostIsWithin(bits);
    CoordinateIs(text, if latitude then 90 else 180, bits);
    if AtMost(bits, if latitude then NINETY else ONE_EIGHTY) {
      r := Some(bits);
    } else {
      r := None;
    }
  }

  lemma NothingRead(text: string)
    requires var scanned := Scan(text, true);
      !(scanned.Some? && InDoubleRange(scanned.value) && AllSpaces(text[scanned.value.end..]))
    ensures DoubleOf(text).None?
  {
    hide Parses;
    hide InDoubleRange;
    hide Scan;
  }

  lemma CoordinateIs(text: string, degrees: nat, bits: Bits64)
    requires DoubleOf(text) == Some(bits)
    ensures CoordinateOf(text, degrees) == if Within(bits, degrees) then Some(bits) else None
  {
    hide DoubleOf;
    hide Within;
  }

  /** The datum nearest to a number of millionths of a degree. */
  ghost predicate IsMicro(bits: Bits64, micro: int) {
    Denotes(bits, micro < 0, RoundedDecimal(Absolute(micro), -6))
  }

  function DigitChar(d: Digit): char { ('0' as int + d) as char }

  /** The decimal digits of a natural. */
  function Decimal(n: nat): (s: string)
    ensures s != "" && AllDigits(s)
  {
    if n < 10 then [DigitChar(n)] else Decimal(n / 10) + [DigitChar(n % 10)]
  }

  /** The same with leading zeros to a width. */
  function Padded(n: nat, width: nat): (s: string)
    ensures |s| == width && AllDigits(s)
  {
    if width == 0 then "" else Padded(n / 10, width - 1) + [DigitChar(n % 10)]
  }

  lemma DigitsSnoc(s: string, d: Digit)
    ensures DecimalValue(DigitsOf(s + [DigitChar(d)])) == 10 * DecimalValue(DigitsOf(s)) + d
  {
    assert DigitsOf(s + [DigitChar(d)]) == DigitsOf(s) + [d];
    PushDigit(DigitsOf(s), d);
  }

  lemma {:induction false} DecimalReads(n: nat)
    ensures DecimalValue(DigitsOf(Decimal(n))) == n
  {
    if n < 10 {
      DigitsSnoc("", n);
      assert "" + [DigitChar(n)] == [DigitChar(n)];
      assert DigitsOf("") == [];
    } else {
      DecimalReads(n / 10);
      DigitsSnoc(Decimal(n / 10), n % 10);
    }
  }

  lemma {:induction false} PaddedReads(n: nat, width: nat)
    requires n < Pow(10, width)
    ensures DecimalValue(DigitsOf(Padded(n, width))) == n
  {
    if width == 0 {
      assert DigitsOf("") == [];
    } else {
      PaddedReads(n / 10, width - 1);
      DigitsSnoc(Padded(n / 10, width - 1), n % 10);
    }
  }

  lemma {:induction false} DecimalLength(n: nat, width: nat)
    requires n < Pow(10, width) && width > 0
    ensures |Decimal(n)| <= width
  {
    if n >= 10 {
      DecimalLength(n / 10, width - 1);
    }
  }

  /** A number of millionths written out as degrees with six places. */
  function MicroText(micro: int): string {
    var m := Absolute(micro);
    (if micro < 0 then "-" else "") + Decimal(m / 1000000) + "." + Padded(m % 1000000, 6)
  }

  ghost function MicroSpelling(micro: int): Spelling {
    var m := Absolute(micro);
    Spelling("", if micro < 0 then "-" else "", Decimal(m / 1000000), true, Padded(m % 1000000, 6), None)
  }

  lemma MicroSpelled(micro: int)
    ensures var p := MicroSpelling(micro); p.Text() == MicroText(micro) && p.WellFormed(true) && p.EndsBefore('\0')
  {
    hide Decimal;
    hide Padded;
    var p := MicroSpelling(micro);
    assert p.Text() == MicroText(micro);
  }

  /** The numeral's exact value is the number of millionths. */
  lemma MicroMeans(micro: int)
    ensures var t := MicroSpelling(micro).Meaning();
      t.negative == (micro < 0) && t.Coefficient() == Absolute(micro) && t.Exponent() == -6
  {
    var m := Absolute(micro);
    DecimalReads(m / 1000000);
    TenToSix();
    PaddedReads(m % 1000000, 6);
    hide *;
    MeaningOf(MicroSpelling(micro), micro, Decimal(m / 1000000), Padded(m % 1000000, 6), m / 1000000, m % 1000000);
  }

  lemma MeaningOf(p: Spelling, micro: int, whole: string, fraction: string, w: nat, f: nat)
    requires p == MicroSpelling(micro) && AllDigits(whole) && AllDigits(fraction) && |fraction| == 6
    requires whole == Decimal(Absolute(micro) / 1000000) && fraction == Padded(Absolute(micro) % 1000000, 6)
    requires DecimalValue(DigitsOf(whole)) == w && DecimalValue(DigitsOf(fraction)) == f && w * 1000000 + f == Absolute(micro)
    ensures var t := p.Meaning();
      t.negative == (micro < 0) && t.Coefficient() == Absolute(micro) && t.Exponent() == -6
  {
    hide Decimal;
    hide Padded;
    TenToSix();
    hide Pow;
    DecimalConcat(DigitsOf(whole), DigitsOf(fraction));
    assert DigitsOf("") == [];
    assert DecimalValue([]) == 0;
    hide DecimalValue;
    hide DigitsOf;
  }

  lemma TenToSix()
    ensures Pow(10, 6) == 1000000
  {
    assert Pow(10, 3) == 1000;
    PowAdd(10, 3, 3);
  }

  /** A rounded coordinate is positive unless it is zero, and far from overflowing. */
  lemma MicroInRange(bits: Bits64, micro: int)
    requires IsMicro(bits, micro) && Within(bits, 180)
    ensures Absolute(micro) == 0 || RoundsToNonzeroFinite(Absolute(micro), -6)
  {
    var m := Absolute(micro);
    if m > 0 {
      MicroNotTiny(m);
      hide Pow;
      UnitsBelowOverflow(180);
      hide UnitsPerOne;
      hide OverflowUnits;
      hide RoundedDecimal;
      hide Magnitude;
    }
  }

  lemma MicroNotTiny(m: nat)
    requires m > 0
    ensures RoundedDecimal(m, -6) >= 1
  {
    TenToSix();
    UnitsAboveMillion(1074);
    hide Pow;
    var x, y := UnitsNumerator(m, -6), UnitsDenominator(-6);
    PowZero(10);
    MulMonotone(1, m, UnitsPerOne());
    ScaledRepresentable(1, 1, 0);
    PowZero(2);
    RoundsAtLeast(x, y, 1, Rounded(x, y));
  }

  lemma UnitsAboveMillion(k: nat)
    requires k >= 20
    ensures Pow(2, k) >= 1000000
  {
    PowTwoValues();
    assert Pow(2, 20) == 0x10_0000 by { assert Pow(2, 4) == 16; PowAdd(2, 16, 4); }
    PowMonotone(2, 20, k);
  }

  lemma UnitsBelowOverflow(degrees: nat)
    requires degrees <= 255
    ensures degrees * UnitsPerOne() < OverflowUnits()
  {
    hide Pow;
    BelowPower(degrees, 1074, 2098);
  }

  lemma BelowPower(degrees: nat, k: nat, j: nat)
    requires degrees <= 255 && k + 8 <= j
    ensures degrees * Pow(2, k) < Pow(2, j)
  {
    PowTwoValues();
    hide Pow;
    PowAdd(2, 8, k);
    PowStep(2, k);
    PowMonotone(2, 8 + k, j);
    MulStrict(degrees, 256, Pow(2, k));
  }

  /** What is written for a coordinate in whole millionths reads back as that very datum. */
  lemma CoordinateRoundTrip(bits: Bits64, micro: int, degrees: nat)
    requires IsMicro(bits, micro) && Within(bits, degrees) && degrees <= 180
    ensures CoordinateOf(MicroText(micro), degrees) == Some(bits)
  {
    var text, p := MicroText(micro), MicroSpelling(micro);
    MicroSpelled(micro);
    MicroMeans(micro);
    WithinMore(bits, degrees, 180);
    MicroInRange(bits, micro);
    hide *;
    ScanReadsSpelling(p, "", true);
    ReadsMicro(text, p, bits, micro);
    DoubleOfRead(text, bits);
    CoordinateIs(text, degrees, bits);
  }

  lemma WithinMore(bits: Bits64, degrees: nat, more: nat)
    requires Within(bits, degrees) && degrees <= more
    ensures Within(bits, more)
  {
    MulMonotone(degrees, more, UnitsPerOne());
  }

  lemma ReadsMicro(text: string, p: Spelling, bits: Bits64, micro: int)
    requires p.Text() == text && Scan(p.Text() + "", true) == Some(p.Meaning()) && IsMicro(bits, micro)
    requires var t := p.Meaning(); t.negative == (micro < 0) && t.Coefficient() == Absolute(micro) && t.Exponent() == -6
    requires Absolute(micro) == 0 || RoundsToNonzeroFinite(Absolute(micro), -6)
    requires p.Meaning().end == |p.Text()|
    ensures Reads(text, bits)
  {
    assert text + "" == text;
    hide Scan;
    hide RoundsToNonzeroFinite;
    hide Denotes;
    hide RoundedDecimal;
    assert text[|text|..] == "";
  }

  /** Coordinates in range are short to write. */
  lemma MicroTextShort(bits: Bits64, micro: int)
    requires IsMicro(bits, micro) && Within(bits, 180)
    ensures |MicroText(micro)| <= 11
  {
    MicroBelow(bits, micro);
    TenToSix();
    assert Pow(10, 3) == 1000;
    DecimalLength(Absolute(micro) / 1000000, 3);
  }

  lemma MicroBelow(bits: Bits64, micro: int)
    requires IsMicro(bits, micro) && Within(bits, 180)
    ensures Absolute(micro) < 181 * 1000000
  {
    hide Magnitude;
    var m := Absolute(micro);
    if m >= 181 * 1000000 {
      MicroAbove(m);
      UnitsPositive();
      hide UnitsPerOne;
      hide RoundedDecimal;
      Distribute(180, 1, UnitsPerOne());
      assert false;
    }
  }

  lemma UnitsPositive()
    ensures UnitsPerOne() > 0
  {
    hide Pow;
    PowStep(2, 1074);
  }

  lemma MicroAbove(m: nat)
    requires m >= 181 * 1000000
    ensures RoundedDecimal(m, -6) >= 181 * UnitsPerOne()
  {
    TenToSix();
    hide Pow;
    UnitsPositive();
    var one: nat := UnitsPerOne();
    var x, y := UnitsNumerator(m, -6), UnitsDenominator(-6);
    PowZero(10);
    assert x == m * one && y == 1000000;
    MulMonotone(181 * 1000000, m, one);
    assert Scaled(181 * one, 181, 1074);
    assert Representable(181 * one);
    hide UnitsPerOne;
    RoundsAtLeast(x, y, 181 * one, Rounded(x, y));
  }
}
