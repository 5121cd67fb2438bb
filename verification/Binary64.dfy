/** The binary64 interchange format (section 3.4 of IEEE 754-2019), read as integers. */
module Binary64 {
  import opened Powers
  import opened Rounding

  const FRACTION_LIMIT: nat := MIN_NORMAL_SIGNIFICAND
  const SIGN_BIT: nat := 0x8000_0000_0000_0000
  const EXPONENT_FIELDS: nat := 2048

  type Bits64 = b: nat | b < 0x1_0000_0000_0000_0000

  predicate Negative(bits: Bits64) { bits / SIGN_BIT == 1 }

  function ExponentField(bits: Bits64): nat { (bits / FRACTION_LIMIT) % EXPONENT_FIELDS }

  function Fraction(bits: Bits64): nat { bits % FRACTION_LIMIT }

  predicate Finite(bits: Bits64) { ExponentField(bits) != 2047 }

  /** The magnitude of a finite datum in units of 2^-1074. */
  ghost function Magnitude(bits: Bits64): nat {
    if ExponentField(bits) == 0 then Fraction(bits)
    else (FRACTION_LIMIT + Fraction(bits)) * Pow(2, ExponentField(bits) - 1)
  }

  /** The parameters of the format in table 3.5 of IEEE 754-2019: a sign bit, 11 exponent bits, 52 fraction
      bits. */
  lemma FormatWidths()
    ensures FRACTION_LIMIT == Pow(2, 52) && EXPONENT_FIELDS == Pow(2, 11) && SIGN_BIT == Pow(2, 63)
    ensures SIGNIFICAND_LIMIT == Pow(2, 53)
  {
    PowTwoValues();
    assert Pow(2, 4) == 16 && Pow(2, 3) == 8 && Pow(2, 1) == 2;
    hide Pow;
    PowAdd(2, 8, 3);
    PowAdd(2, 32, 16);
    PowAdd(2, 48, 4);
    PowAdd(2, 52, 1);
    PowAdd(2, 32, 31);
  }

  /** Its bias: the datum with exponent field 1023 and no fraction is one, 2^1074 least subnormals. */
  lemma OneIsOne()
    ensures Finite(0x3FF0_0000_0000_0000) && !Negative(0x3FF0_0000_0000_0000)
    ensures Magnitude(0x3FF0_0000_0000_0000) == Pow(2, 1074)
  {
    hide Pow;
    FieldsOf(1023, 0, false);
    OneMagnitude(1022);
  }

  lemma OneMagnitude(k: nat)
    ensures FRACTION_LIMIT * Pow(2, k) == Pow(2, k + 52)
  {
    FormatWidths();
    hide Pow;
    PowAdd(2, 52, k);
  }

  /** bits is the datum with the given sign and magnitude. */
  ghost predicate Denotes(bits: Bits64, negative: bool, units: nat) {
    Finite(bits) && Negative(bits) == negative && Magnitude(bits) == units
  }

  function Signed(negative: bool): nat { if negative then SIGN_BIT else 0 }

  lemma FieldsOf(field: nat, fraction: nat, negative: bool)
    requires field < EXPONENT_FIELDS && fraction < FRACTION_LIMIT
    ensures var bits := Signed(negative) + field * FRACTION_LIMIT + fraction;
      && bits < 2 * SIGN_BIT
      && ExponentField(bits) == field && Fraction(bits) == fraction && Negative(bits) == negative
  {
    var top := if negative then EXPONENT_FIELDS + field else field;
    var bits := Signed(negative) + field * FRACTION_LIMIT + fraction;
    assert bits == top * FRACTION_LIMIT + fraction;
    DivModUnique(bits, FRACTION_LIMIT, top, fraction);
    DivModUnique(top, EXPONENT_FIELDS, if negative then 1 else 0, field);
  }

  /** A significand at binade k is stored as k * 2^52 + m, whether it is normal, subnormal, or has
      carried into the next binade. */
  lemma SignificandAtBinade(k: nat, m: nat, negative: bool)
    requires m <= SIGNIFICAND_LIMIT && (k == 0 || MIN_NORMAL_SIGNIFICAND <= m)
    requires k < 2045 || (k == 2045 && m < SIGNIFICAND_LIMIT)
    ensures var bits := Signed(negative) + k * FRACTION_LIMIT + m;
      bits < 2 * SIGN_BIT && Denotes(bits, negative, m * Pow(2, k))
  {
    hide Pow;
    hide Representable;
    hide ExponentField;
    hide Fraction;
    hide Negative;
    DoubleUnit(k);
    PowStep(2, k);
    PowZero(2);
    if m < MIN_NORMAL_SIGNIFICAND {
      FieldsOf(0, m, negative);
    } else if m < SIGNIFICAND_LIMIT {
      FieldsOf(k + 1, m - MIN_NORMAL_SIGNIFICAND, negative);
    } else {
      FieldsOf(k + 2, 0, negative);
    }
  }

  /** A datum is determined by its sign and magnitude. */
  lemma DatumUnique(a: Bits64, b: Bits64)
    requires Finite(a) && Finite(b)
    requires Negative(a) == Negative(b) && Magnitude(a) == Magnitude(b)
    ensures a == b
  {
    var e, f := ExponentField(a), ExponentField(b);
    if e != f {
      var low, high := if e < f then a else b, if e < f then b else a;
      SmallerField(low, high);
    } else if e > 0 {
      MulCancel(FRACTION_LIMIT + Fraction(a), FRACTION_LIMIT + Fraction(b), Pow(2, e - 1));
    }
    Decompose(a);
    Decompose(b);
  }

  lemma Decompose(bits: Bits64)
    ensures bits == Signed(Negative(bits)) + ExponentField(bits) * FRACTION_LIMIT + Fraction(bits)
  {
    var top := bits / FRACTION_LIMIT;
    assert top == (top / EXPONENT_FIELDS) * EXPONENT_FIELDS + ExponentField(bits);
    var sign := top / EXPONENT_FIELDS;
    assert sign < 2;
    DivModUnique(bits, SIGN_BIT, sign, ExponentField(bits) * FRACTION_LIMIT + Fraction(bits));
  }

  lemma SmallerField(low: Bits64, high: Bits64)
    requires ExponentField(low) < ExponentField(high)
    ensures Magnitude(low) < Magnitude(high)
  {
    var e, f := ExponentField(low), ExponentField(high);
    if e == 0 {
      MulMonotone2(MIN_NORMAL_SIGNIFICAND, FRACTION_LIMIT + Fraction(high), 1, Pow(2, f - 1));
    } else {
      PowMonotone(2, e, f - 1);
      MulStrict(FRACTION_LIMIT + Fraction(low), 2 * FRACTION_LIMIT, Pow(2, e - 1));
      MulAssoc(FRACTION_LIMIT, 2, Pow(2, e - 1));
      MulMonotone2(FRACTION_LIMIT, FRACTION_LIMIT + Fraction(high), Pow(2, e), Pow(2, f - 1));
    }
  }

  /** Every finite datum has a canonical significand, whose low bit is the low bit of the datum. */
  lemma CanonicalDatum(bits: Bits64) returns (m: nat, k: nat)
    requires Finite(bits)
    ensures Canonical(Magnitude(bits), m, k) && m % 2 == bits % 2
  {
    LowBit(bits);
    var e := ExponentField(bits);
    m, k := if e == 0 then Fraction(bits) else FRACTION_LIMIT + Fraction(bits), if e == 0 then 0 else e - 1;
    hide Pow;
    PowZero(2);
    assert Scaled(Magnitude(bits), m, k);
  }

  lemma LowBit(bits: Bits64)
    ensures Fraction(bits) % 2 == bits % 2
    ensures (FRACTION_LIMIT + Fraction(bits)) % 2 == bits % 2
  {
    var top, f := bits / FRACTION_LIMIT, Fraction(bits);
    var half := FRACTION_LIMIT / 2;
    assert bits == 2 * (top * half) + f;
    DivModUnique(bits, 2, top * half + f / 2, f % 2);
  }

  lemma CanonicalUnique(u: nat, m: nat, k: nat, n: nat, j: nat)
    requires Canonical(u, m, k) && Canonical(u, n, j)
    ensures m == n
  {
    hide Pow;
    PowStep(2, k);
    PowStep(2, j);
    if j < k {
      StrictlyCoarser(m, k, n, j);
    } else if k < j {
      StrictlyCoarser(n, j, m, k);
    } else {
      MulCancel(m, n, Pow(2, k));
    }
  }

  lemma StrictlyCoarser(m: nat, k: nat, n: nat, j: nat)
    requires j < k && MIN_NORMAL_SIGNIFICAND <= m && n < SIGNIFICAND_LIMIT
    ensures n * Pow(2, j) < m * Pow(2, k)
  {
    hide Pow;
    PowStep(2, j);
    CoarserIsLarger(m, k, n, j);
    MulStrict(n, SIGNIFICAND_LIMIT, Pow(2, j));
    PowMonotone(2, j, k - 1);
    PowStep(2, k - 1);
    MulMonotone2(SIGNIFICAND_LIMIT, 2 * m, Pow(2, j), Pow(2, k - 1));
    MulAssoc(m, 2, Pow(2, k - 1));
  }

  /** IEEE 754-2019 section 4.3.1, in terms of data: the datum that rounding gives is at least as
      near to x / y as any finite datum, and is even whenever another one is as near. */
  lemma RoundedDatumIsNearest(bits: Bits64, x: nat, y: nat, other: Bits64)
    requires Finite(bits) && Finite(other) && RoundsTo(x, y, Magnitude(bits))
    ensures Distance(Magnitude(bits) * y, x) <= Distance(Magnitude(other) * y, x)
    ensures Magnitude(other) != Magnitude(bits) && Distance(Magnitude(bits) * y, x) == Distance(Magnitude(other) * y, x)
      ==> bits % 2 == 0
  {
    hide Pow;
    hide Magnitude;
    var n, j := CanonicalDatum(other);
    var m, k := CanonicalDatum(bits);
    assert Representable(Magnitude(other));
    if Magnitude(other) != Magnitude(bits) && Distance(Magnitude(bits) * y, x) == Distance(Magnitude(other) * y, x) {
      assert Nearest(x, y, Magnitude(other));
      var m': nat, k': nat :| Canonical(Magnitude(bits), m', k') && m' % 2 == 0;
      CanonicalUnique(Magnitude(bits), m, k, m', k');
    }
  }
}
