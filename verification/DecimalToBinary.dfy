/** Conversion of a decimal coefficient and exponent to binary64. */
module DecimalToBinary {
  import opened Wrappers
  import opened Powers
  import opened Limbs
  import opened Rounding
  import opened Binary64
  import opened DecimalDigits
  import opened DecimalExponents
  import opened BigUIntWorkspace
  import opened BigRatio
  import opened ExactDecimal
  import opened Scaling

  const KEPT_DIGITS: nat := 800

  /** coefficient stands for m / 10^d with a sticky bit for the dropped remainder. */
  ghost predicate Truncates(coefficient: nat, sticky: bool, m: nat, d: nat) {
    var unit := Pow(10, d);
    coefficient == m / unit && (sticky <==> m % unit != 0)
  }

  /** The decimal order of the coefficient passes the gate, so every size below is bounded. */
  predicate InGate(count: nat, e: int) {
    1 <= count <= KEPT_DIGITS && -324 <= e + count - 1 <= 308
  }

  /** Numerator and denominator before scaling: c * 5^e or c / 5^-e. */
  ghost predicate FiveRatio(num: nat, den: nat, c: nat, e: int) {
    num == c * FivesUp(e) && den == FivesUp(-e)
  }

  /** Sizes of the unscaled ratio. */
  lemma FiveRatioBits(num: nat, den: nat, c: nat, e: int, count: nat)
    requires InGate(count, e) && FiveRatio(num, den, c, e)
    requires Pow(10, count - 1) <= c < Pow(10, count)
    ensures 0 < num && 0 < den
    ensures BitLength(num) <= 2670 && BitLength(den) <= 2625
  {
    hide Pow;
    hide BitLength;
    CrudePowers(375);
    PowStep(10, count - 1);
    PowStep(5, Positive(e));
    PowStep(5, Positive(-e));
    MulMonotone2(1, c, 1, FivesUp(e));
    PowMonotone(5, Positive(-e), 1123);
    PowStrictlyBelow(5, 1123, 1125);
    BitsAtMost(den, 2625);
    NumeratorBelow(c, e, count);
    BitsAtMost(num, 2670);
  }

  lemma NumeratorBelow(c: nat, e: int, count: nat)
    requires InGate(count, e) && c < Pow(10, count)
    ensures c * FivesUp(e) < Pow(2, 2670)
  {
    hide Pow;
    var up := Positive(e);
    CoefficientTimesFives(c, count, up);
    PowBelowBits(count + up, 267);
  }

  lemma CoefficientTimesFives(c: nat, count: nat, up: nat)
    requires c < Pow(10, count)
    ensures c * Pow(5, up) < Pow(10, count + up)
  {
    hide Pow;
    PowStep(5, up);
    PowStep(10, count);
    PowBaseMonotone(5, 10, up);
    PowAdd(10, count, up);
    MulStrict(c, Pow(10, count), Pow(5, up));
    MulMonotone2(Pow(10, count), Pow(10, count), Pow(5, up), Pow(10, up));
  }

  lemma PowBelowBits(n: nat, thirds: nat)
    requires n <= 3 * thirds
    ensures Pow(10, n) <= Pow(2, 10 * thirds)
  {
    hide Pow;
    CrudePowers(thirds);
    PowMonotone(10, n, 3 * thirds);
  }

  lemma PowStrictlyBelow(b: nat, m: nat, n: nat)
    requires 1 < b && m < n
    ensures Pow(b, m) < Pow(b, n)
  {
    PowMonotone(b, m + 1, n);
    PowStep(b, m);
    hide Pow;
    MulStrict(1, b, Pow(b, m));
  }

  /** The scaled ratio the code divides, and the binade it was scaled for. */
  ghost predicate AtBinade(num: nat, den: nat, e: int, scale: int, k: nat) {
    var n, d := ScaledUp(num, scale), ScaledUp(den, -scale);
    && 0 < d
    && scale + k == e + 1074
    && n / d < SIGNIFICAND_LIMIT
    && (k == 0 || MIN_NORMAL_SIGNIFICAND <= n / d)
  }

  /** Normal numbers: scaling by 52 minus the binary order gives a full-width significand. */
  lemma NormalBinade(num: nat, den: nat, e: int, order: int)
    requires 0 < num && 0 < den
    requires AtLeastPowerTwo(num, den, order) && !AtLeastPowerTwo(num, den, order + 1)
    requires order + e >= -1022
    ensures var scale := 52 - order;
      var n, d := ScaledUp(num, scale), ScaledUp(den, -scale);
      0 < d && MIN_NORMAL_SIGNIFICAND <= n / d < SIGNIFICAND_LIMIT
  {
    var scale := 52 - order;
    hide Pow;
    hide AtLeastPowerTwo;
    ScaledPositive(den, -scale);
    ShiftThreshold(num, den, order, scale);
    ShiftThreshold(num, den, order + 1, scale);
    QuotientFromThresholds(ScaledUp(num, scale), ScaledUp(den, -scale), 52);
    QuotientFromThresholds(ScaledUp(num, scale), ScaledUp(den, -scale), 53);
    SignificandPowers();
  }

  /** Subnormal numbers: the fixed scaling leaves the quotient below the normal range. */
  lemma SubnormalBinade(num: nat, den: nat, e: int, order: int)
    requires 0 < num && 0 < den
    requires !AtLeastPowerTwo(num, den, order + 1)
    requires order + e < -1022
    ensures var scale := e + 1074;
      var n, d := ScaledUp(num, scale), ScaledUp(den, -scale);
      0 < d && n / d < MIN_NORMAL_SIGNIFICAND
  {
    var scale := e + 1074;
    hide Pow;
    hide AtLeastPowerTwo;
    ScaledPositive(den, -scale);
    if AtLeastPowerTwo(num, den, 52 - scale) {
      ThresholdMonotone(num, den, 52 - scale, order + 1);
    }
    ShiftThreshold(num, den, 52 - scale, scale);
    QuotientFromThresholds(ScaledUp(num, scale), ScaledUp(den, -scale), 52);
    SignificandPowers();
  }

  /** Dividing the scaled ratio and rounding half to even rounds c * 10^e correctly. */
  lemma ExactCoefficient(num: nat, den: nat, c: nat, e: int, scale: int, k: nat)
    requires FiveRatio(num, den, c, e) && AtBinade(num, den, e, scale, k)
    ensures RoundedDecimal(c, e) == AtScale(RoundedQuotient(ScaledUp(num, scale), ScaledUp(den, -scale)), k)
  {
    hide Pow;
    ExactRatio(num, den, c, e, scale, k);
    hide UnitsPerOne;
    hide RoundedQuotient;
    var n, d := ScaledUp(num, scale), ScaledUp(den, -scale);
    RoundAt(n, d, k);
    RoundedFromRatio(AtScale(n, k), d, c, e, AtScale(RoundedQuotient(n, d), k));
  }

  lemma RoundedFromRatio(x: nat, y: nat, m: nat, e: int, u: nat)
    requires 0 < y && RoundsTo(x, y, u)
    requires UnitsNumerator(m, e) * y == x * UnitsDenominator(e)
    ensures RoundedDecimal(m, e) == u
  {
    hide UnitsNumerator;
    hide UnitsDenominator;
    SameRatioRounding(x, y, UnitsNumerator(m, e), UnitsDenominator(e), u);
    RoundedIs(UnitsNumerator(m, e), UnitsDenominator(e), u);
  }

  lemma ExactRatio(num: nat, den: nat, c: nat, e: int, scale: int, k: nat)
    requires FiveRatio(num, den, c, e) && scale + k == e + 1074
    ensures UnitsNumerator(c, e) * ScaledUp(den, -scale) == AtScale(ScaledUp(num, scale), k) * UnitsDenominator(e)
  {
    hide Pow;
    hide UnitsPerOne;
    UnitIdentity(e, scale, k);
    var s, p := Pow(2, Positive(scale)), Pow(2, k);
    MulAssoc(c, UnitsNumerator(1, e), ScaledUp(den, -scale));
    assert UnitsNumerator(c, e) == c * UnitsNumerator(1, e);
    MulAssoc(c, FivesUp(e), s);
    MulAssoc(c, FivesUp(e) * s, p);
    MulAssoc(c, (FivesUp(e) * s) * p, UnitsDenominator(e));
  }

  /** With all 800 digits kept, the ratio is always divided by an even, up-scaled denominator: the
      midpoints and binades of the format are multiples of the last kept digit's unit. */
  lemma FullCoefficientScalesDown(num: nat, den: nat, c: nat, e: int, scale: int, k: nat)
    requires InGate(KEPT_DIGITS, e) && Pow(10, KEPT_DIGITS - 1) <= c
    requires FiveRatio(num, den, c, e) && AtBinade(num, den, e, scale, k)
    ensures scale < 0 && e < 0
  {
    hide Pow;
    hide ScaledUp;
    if scale >= 0 {
      PowZero(5);
      assert num == c && ScaledUp(den, -scale) == den;
      KeptDigitsDominate(c, den, e);
      ScaledNotSmaller(num, scale);
      MulCancel(SIGNIFICAND_LIMIT, ScaledUp(num, scale) / den + 1, den);
    }
  }

  lemma ScaledNotSmaller(v: nat, s: int)
    ensures v <= ScaledUp(v, s)
  {
    hide Pow;
    PowStep(2, Positive(s));
    MulMonotone(1, Pow(2, Positive(s)), v);
  }

  lemma KeptDigitsDominate(c: nat, den: nat, e: int)
    requires Pow(10, KEPT_DIGITS - 1) <= c && -1074 <= e && den == FivesUp(-e)
    ensures SIGNIFICAND_LIMIT * den <= c
  {
    hide Pow;
    CrudePowers(358);
    TenToTwentyEight(28);
    SignificandPowers();
    PowMonotone(10, 784, 799);
    PowMonotone(5, Positive(-e), 1074);
    PowAdd(2, 53, 2506);
    PowMonotone(2, 2559, 2604);
    MulMonotone(den, Pow(2, 2506), SIGNIFICAND_LIMIT);
  }

  /** The decision the code makes on a truncated coefficient: any remainder of at least half. */
  function RoundedSticky(a: nat, b: nat): nat
    requires 0 < b
  {
    a / b + if 2 * (a % b) >= b then 1 else 0
  }

  /** Below an even denominator a nonzero tail never creates or resolves a tie: the full digit
      string rounds like the truncated coefficient with its sticky bit. */
  lemma TailDecidesNothing(m: nat, unit: nat, b: nat)
    requires 0 < unit && 0 < b && b % 2 == 0 && m % unit != 0
    ensures b * unit > 0
    ensures RoundedQuotient(m, b * unit) == RoundedSticky(m / unit, b)
  {
    var c, f := m / unit, m % unit;
    var q, r := c / b, c % b;
    assert m == (q * (b * unit)) + (r * unit + f) by {
      assert m == c * unit + f;
      Distribute(q * b, r, unit);
      MulAssoc(q, b, unit);
    }
    MulStrict(0, b, unit);
    Distribute(r, 1, unit);
    MulMonotone(r + 1, b, unit);
    DivModUnique(m, b * unit, q, r * unit + f);
    var half := b / 2;
    MulAssoc(2, half, unit);
    if r >= half {
      MulMonotone(half, r, unit);
    } else {
      MulMonotone(r + 1, half, unit);
    }
  }

  /** The sticky coefficient rounds to the correct rounding of all the digits. */
  lemma StickyCoefficient(num: nat, den: nat, e: int, scale: int, k: nat, m: nat, d: nat)
    requires FiveRatio(num, den, m / Pow(10, d), e) && AtBinade(num, den, e, scale, k)
    requires scale < 0 && e < 0 && m % Pow(10, d) != 0
    ensures ScaledUp(num, scale) == num
    ensures RoundedDecimal(m, e - d) == AtScale(RoundedSticky(num, ScaledUp(den, -scale)), k)
  {
    hide Pow;
    PowZero(5);
    PowStep(10, d);
    var b, unit := ScaledUp(den, -scale), Pow(10, d);
    EvenScaled(den, -scale);
    TailDecidesNothing(m, unit, b);
    StickyQuotient(m, unit, b);
    StickyRatio(den, e, scale, k, m, d);
    hide UnitsPerOne;
    hide RoundedQuotient;
    hide RoundedSticky;
    RoundAt(m, b * unit, k);
    RoundedFromRatio(AtScale(m, k), b * unit, m, e - d, AtScale(RoundedQuotient(m, b * unit), k));
  }

  lemma StickyQuotient(m: nat, unit: nat, b: nat)
    requires 0 < unit && 0 < b
    ensures b * unit > 0 && m / (b * unit) == (m / unit) / b
  {
    var c, f := m / unit, m % unit;
    var q, r := c / b, c % b;
    assert m == (q * (b * unit)) + (r * unit + f) by {
      assert m == c * unit + f;
      Distribute(q * b, r, unit);
      MulAssoc(q, b, unit);
    }
    MulStrict(0, b, unit);
    Distribute(r, 1, unit);
    MulMonotone(r + 1, b, unit);
    DivModUnique(m, b * unit, q, r * unit + f);
  }

  lemma EvenScaled(v: nat, s: int)
    requires s > 0
    ensures ScaledUp(v, s) % 2 == 0
  {
    hide Pow;
    PowStep(2, s - 1);
    MulAssoc(v, 2, Pow(2, s - 1));
    assert ScaledUp(v, s) == 2 * (v * Pow(2, s - 1));
  }

  lemma StickyRatio(den: nat, e: int, scale: int, k: nat, m: nat, d: nat)
    requires e < 0 && scale < 0 && den == FivesUp(-e) && scale + k == e + 1074
    ensures ScaledUp(den, -scale) * Pow(10, d) >= 0
    ensures UnitsNumerator(m, e - d) * (ScaledUp(den, -scale) * Pow(10, d)) == AtScale(m, k) * UnitsDenominator(e - d)
  {
    hide Pow;
    hide UnitsPerOne;
    PowZero(5);
    PowZero(10);
    PowStep(10, d);
    ExactRatio(1, den, 1, e, scale, k);
    PowAdd(10, d, -e);
    var one: nat, b: nat, unit: nat := UnitsPerOne(), ScaledUp(den, -scale), Pow(10, d);
    var p: nat, ten: nat := Pow(2, k), Pow(10, -e);
    MulMonotone2(0, b, 0, unit);
    StickyProduct(m, one, b, unit, p, ten);
  }

  lemma StickyProduct(m: nat, one: nat, b: nat, unit: nat, p: nat, ten: nat)
    requires one * b == p * ten
    ensures (m * (1 * one)) * (b * unit) == (m * p) * (unit * ten)
  {
    calc {
      (m * (1 * one)) * (b * unit);
    ==  { MulAssoc(m, one, b * unit); MulAssoc(one, b, unit); }
      m * ((one * b) * unit);
    ==
      m * ((p * ten) * unit);
    ==  { MulAssoc(p, ten, unit); MulAssoc(m, p, ten * unit); }
      (m * p) * (unit * ten);
    }
  }

  /** The range check and bit assembly at the end of the conversion. */
  function Assemble(normal: bool, exponent2: int, significand: nat, negative: bool): (r: Option<Bits64>)
    requires significand <= SIGNIFICAND_LIMIT
    requires if normal then -1022 <= exponent2 && MIN_NORMAL_SIGNIFICAND <= significand
             else significand <= MIN_NORMAL_SIGNIFICAND
    ensures var k: nat := if normal then exponent2 + 1022 else 0;
      && (r.Some? <==> 0 < significand && (k < 2045 || (k == 2045 && significand < SIGNIFICAND_LIMIT)))
      && (r.Some? ==> r.value == Signed(negative) + k * FRACTION_LIMIT + significand)
  {
    if normal then
      var carried := significand == SIGNIFICAND_LIMIT;
      var s := if carried then significand / 2 else significand;
      var e := if carried then exponent2 + 1 else exponent2;
      if e > 1023 || s < MIN_NORMAL_SIGNIFICAND || s >= SIGNIFICAND_LIMIT then None
      else Some(Signed(negative) + (e + 1023) * FRACTION_LIMIT + (s - MIN_NORMAL_SIGNIFICAND))
    else if significand == 0 then None
    else Some(Signed(negative) + significand)
  }

  /** What Assemble accepts is exactly what is nonzero and finite, and the bits denote it. */
  lemma AssembleMeaning(k: nat, significand: nat, negative: bool)
    requires significand <= SIGNIFICAND_LIMIT && (k == 0 || MIN_NORMAL_SIGNIFICAND <= significand)
    ensures 0 < AtScale(significand, k) < OverflowUnits()
      <==> 0 < significand && (k < 2045 || (k == 2045 && significand < SIGNIFICAND_LIMIT))
    ensures 0 < AtScale(significand, k) < OverflowUnits() ==>
      var bits: nat := Signed(negative) + k * FRACTION_LIMIT + significand;
      bits < 2 * SIGN_BIT && Denotes(bits, negative, AtScale(significand, k))
  {
    hide Pow;
    hide Denotes;
    PowStep(2, k);
    SignificandPowers();
    if significand > 0 {
      MulStrict(0, significand, Pow(2, k));
    }
    if k > 2045 {
      PowAdd(2, 52, 2046);
      PowMonotone(2, 2046, k);
      MulMonotone2(MIN_NORMAL_SIGNIFICAND, significand, Pow(2, 2046), Pow(2, k));
    } else {
      PowAdd(2, 53, 2045);
      if k == 2045 {
        MulCancel(significand, SIGNIFICAND_LIMIT, Pow(2, k));
        if significand < SIGNIFICAND_LIMIT {
          MulStrict(significand, SIGNIFICAND_LIMIT, Pow(2, k));
        }
      } else {
        PowStep(2, 2044);
        PowMonotone(2, k, 2044);
        MulMonotone2(significand, SIGNIFICAND_LIMIT, Pow(2, k), Pow(2, 2044));
      }
      if k < 2045 || significand < SIGNIFICAND_LIMIT {
        SignificandAtBinade(k, significand, negative);
      }
    }
  }

  lemma FitsWorkspace(v: nat, bits: nat, limbs: nat)
    requires v < Pow(2, bits) && bits <= 5120 && limbs == LIMB_CAPACITY
    ensures v < Pow(BASE, limbs)
  {
    hide Pow;
    LimbPower(limbs);
    PowMonotone(2, bits, 32 * limbs);
  }

  lemma BitsFit(v: nat, limbs: nat)
    requires BitLength(v) <= 5120 && limbs == LIMB_CAPACITY
    ensures v < Pow(BASE, limbs)
  {
    BitLengthBounds(v);
    FitsWorkspace(v, BitLength(v), limbs);
  }

  lemma CoefficientFits(s: seq<Digit>, e: int, limbs: nat)
    requires InGate(|s|, e) && s[0] != 0 && limbs == LIMB_CAPACITY
    ensures var c, up, down := DecimalValue(s), FivesUp(e), FivesUp(-e);
      && 0 < c <= c * up < Pow(BASE, limbs) && 0 < down < Pow(BASE, limbs)
      && BitLength(c * up) <= 2670 && BitLength(down) <= 2625
  {
    hide Pow;
    hide DecimalValue;
    hide BitLength;
    var c := DecimalValue(s);
    DecimalAtLeast(s);
    DecimalBelow(s);
    PowStep(5, Positive(e));
    PowStep(10, |s| - 1);
    MulMonotone(1, FivesUp(e), c);
    FiveRatioBits(c * FivesUp(e), FivesUp(-e), c, e, |s|);
    BitsFit(c * FivesUp(e), limbs);
    BitsFit(FivesUp(-e), limbs);
  }

  /** The unscaled ratio: the workspace is never exhausted for a coefficient inside the gate. */
  method BuildRatio(digits: array<Digit>, count: nat, e: int) returns (numerator: BigUInt, denominator: BigUInt)
    requires count <= digits.Length && InGate(count, e) && digits[0] != 0
    ensures numerator.Valid() && denominator.Valid()
    ensures fresh(numerator) && fresh(numerator.limbs) && fresh(denominator) && fresh(denominator.limbs)
    ensures numerator != denominator && numerator.limbs != denominator.limbs
    ensures FiveRatio(numerator.Value(), denominator.Value(), DecimalValue(digits[..count]), e)
    ensures BitLength(numerator.Value()) <= 2670 && BitLength(denominator.Value()) <= 2625
    ensures 0 < numerator.Value() && 0 < denominator.Value()
  {
    hide Pow;
    hide ValueOf;
    hide DecimalValue;
    hide BitLength;
    numerator := new BigUInt();
    denominator := new BigUInt();
    PowZero(5);
    CoefficientFits(digits[..count], e, numerator.limbs.Length);
    var ok := FromDecimalDigits(numerator, digits, count);
    assert ok;
    denominator.SetOne();
    if e >= 0 {
      ok := MultiplyByPowerOfFive(numerator, e);
    } else {
      ok := PowerFive(denominator, -e);
    }
    assert ok;
  }

  /** The binary order of the ratio: 2^order <= numerator / denominator < 2^(order + 1). */
  method BinaryOrder(numerator: BigUInt, denominator: BigUInt) returns (order: int)
    requires numerator.Valid() && denominator.Valid()
    requires 0 < numerator.Value() && 0 < denominator.Value()
    requires BitLength(numerator.Value()) <= 2670 && BitLength(denominator.Value()) <= 2670
    ensures AtLeastPowerTwo(numerator.Value(), denominator.Value(), order)
    ensures !AtLeastPowerTwo(numerator.Value(), denominator.Value(), order + 1)
    ensures BitLength(numerator.Value()) - BitLength(denominator.Value()) - 1 <= order
    ensures order <= BitLength(numerator.Value()) - BitLength(denominator.Value())
  {
    hide BitLength;
    hide AtLeastPowerTwo;
    hide ValueOf;
    var numeratorBits: int := numerator.BitCount();
    var denominatorBits: int := denominator.BitCount();
    var difference := numeratorBits - denominatorBits;
    LengthFromBits(numerator.limbs[..numerator.length]);
    LengthFromBits(denominator.limbs[..denominator.length]);
    BitDifference(numerator.Value(), denominator.Value());
    var atCandidate := RatioAtLeastPowerTwo(numerator, denominator, difference);
    order := if atCandidate then difference else difference - 1;
  }

  /** Scale by 2^scale, upwards on one side of the ratio. */
  method ScaleRatio(numerator: BigUInt, denominator: BigUInt, scale: int) returns (n: BigUInt, d: BigUInt)
    requires numerator.Valid() && denominator.Valid()
    requires BitLength(numerator.Value()) + Positive(scale) <= 4800
    requires BitLength(denominator.Value()) + Positive(-scale) <= 4800
    ensures n.Valid() && d.Valid() && fresh(n) && fresh(n.limbs) && fresh(d) && fresh(d.limbs)
    ensures n != d && n.limbs != d.limbs
    ensures n.Value() == ScaledUp(numerator.Value(), scale)
    ensures d.Value() == ScaledUp(denominator.Value(), -scale)
  {
    hide BitLength;
    hide ValueOf;
    hide Pow;
    PowZero(2);
    LengthFromBits(numerator.limbs[..numerator.length]);
    LengthFromBits(denominator.limbs[..denominator.length]);
    n := new BigUInt.Copy(numerator);
    d := new BigUInt.Copy(denominator);
    var ok;
    if scale >= 0 {
      ok := n.ShiftLeft(scale);
    } else {
      ok := d.ShiftLeft(-scale);
    }
    assert ok;
  }

  lemma QuotientBits(n: nat, d: nat)
    requires 0 < d && n / d < SIGNIFICAND_LIMIT
    ensures BitLength(n) <= BitLength(d) + 53
  {
    BitLengthBounds(d);
    hide Pow;
    hide BitLength;
    SignificandPowers();
    PowAdd(2, 53, BitLength(d));
    MulMonotone(n / d + 1, SIGNIFICAND_LIMIT, d);
    Distribute(n / d, 1, d);
    MulStrict(d, Pow(2, BitLength(d)), SIGNIFICAND_LIMIT);
    BitsAtMost(n, BitLength(d) + 53);
  }

  /** Divide and round to nearest, ties to even, a sticky tail counting as more than a tie. */
  method RoundDivide(n: BigUInt, d: BigUInt, sticky: bool) returns (significand: nat)
    requires n.Valid() && d.Valid() && n != d && n.limbs != d.limbs
    requires 0 < d.Value() && n.Value() / d.Value() < SIGNIFICAND_LIMIT
    requires BitLength(d.Value()) <= 4800
    ensures significand == Significand(n.Value(), d.Value(), sticky)
  {
    hide Pow;
    hide BitLength;
    hide ValueOf;
    QuotientBits(n.Value(), d.Value());
    LengthFromBits(d.limbs[..d.length]);
    var remainder := new BigUInt();
    var ok, quotient := DivideU64(n, d, remainder);
    assert ok;
    ghost var rest := remainder.Value();
    DivModUnique(n.Value(), d.Value(), quotient, rest);
    var twice := new BigUInt.Copy(remainder);
    TwiceFits(rest, d.Value(), twice.limbs.Length);
    ok := twice.MultiplyAddSmall(2, 0);
    assert ok;
    var midpoint := twice.Compare(d);
    significand := quotient;
    if midpoint > 0 || (midpoint == 0 && (quotient % 2 == 1 || sticky)) {
      significand := quotient + 1;
    }
  }

  lemma TwiceFits(rest: nat, d: nat, limbs: nat)
    requires rest < d && BitLength(d) <= 4800 && limbs == LIMB_CAPACITY
    ensures rest * 2 + 0 < Pow(BASE, limbs)
  {
    BitLengthBounds(d);
    hide Pow;
    hide BitLength;
    PowStep(2, BitLength(d));
    FitsWorkspace(rest * 2, BitLength(d) + 1, limbs);
  }

  /** The scaling the code picks, as a function of the binary order of the unscaled ratio. */
  function ScaleFor(order: int, e: int): int {
    if order + e >= -1022 then 52 - order else e + 1074
  }

  function BinadeFor(order: int, e: int): nat {
    if order + e >= -1022 then order + e + 1022 else 0
  }

  /** The chosen scaling puts the quotient in its binade, and fits the workspace. */
  lemma ScalingWorks(num: nat, den: nat, e: int, order: int)
    requires 0 < num && 0 < den && -1123 <= e <= 308
    requires BitLength(num) <= 2670 && BitLength(den) <= 2625
    requires AtLeastPowerTwo(num, den, order) && !AtLeastPowerTwo(num, den, order + 1)
    requires BitLength(num) - BitLength(den) - 1 <= order <= BitLength(num) - BitLength(den)
    ensures var scale, k := ScaleFor(order, e), BinadeFor(order, e);
      && BitLength(num) + Positive(scale) <= 4800
      && BitLength(den) + Positive(-scale) <= 4800
      && BitLength(ScaledUp(den, -scale)) <= 4800
      && AtBinade(num, den, e, scale, k)
      && (order + e >= -1022 <==> MIN_NORMAL_SIGNIFICAND <= ScaledUp(num, scale) / ScaledUp(den, -scale))
  {
    hide BitLength;
    hide AtLeastPowerTwo;
    hide ScaledUp;
    BitsOfScaled(den, -ScaleFor(order, e));
    if order + e >= -1022 {
      NormalBinade(num, den, e, order);
    } else {
      SubnormalBinade(num, den, e, order);
    }
  }

  lemma TruncationBounds(c: nat, sticky: bool, m: nat, d: nat)
    requires Truncates(c, sticky, m, d)
    ensures c * Pow(10, d) <= m < (c + 1) * Pow(10, d)
    ensures !sticky ==> m == c * Pow(10, d)
    ensures sticky ==> c == m / Pow(10, d) && m % Pow(10, d) != 0
  {
    hide Pow;
    PowStep(10, d);
    Distribute(c, 1, Pow(10, d));
  }

  /** Beyond the gate the value overflows, whatever was truncated. */
  lemma AboveGate(s: seq<Digit>, sticky: bool, e: int, m: nat, d: nat)
    requires |s| > 0 && s[0] != 0 && Truncates(DecimalValue(s), sticky, m, d)
    requires e + |s| - 1 > 308
    ensures OverflowUnits() <= RoundedDecimal(m, e - d)
  {
    hide Pow;
    hide OverflowUnits;
    hide RoundedDecimal;
    hide DecimalValue;
    hide Truncates;
    DecimalAtLeast(s);
    TruncationBounds(DecimalValue(s), sticky, m, d);
    PowStep(10, d);
    PowAdd(10, |s| - 1, d);
    MulMonotone(Pow(10, |s| - 1), DecimalValue(s), Pow(10, d));
    LargeOrderOverflows(m, e - d, e + |s| - 1);
  }

  /** Below the gate the value rounds to zero, whatever was truncated. */
  lemma BelowGate(s: seq<Digit>, sticky: bool, e: int, m: nat, d: nat)
    requires |s| > 0 && s[0] != 0 && Truncates(DecimalValue(s), sticky, m, d)
    requires e + |s| - 1 < -324
    ensures RoundedDecimal(m, e - d) == 0
  {
    hide Pow;
    hide RoundedDecimal;
    hide DecimalValue;
    hide Truncates;
    DecimalBelow(s);
    TruncationBounds(DecimalValue(s), sticky, m, d);
    PowStep(10, d);
    PowAdd(10, |s|, d);
    MulMonotone(DecimalValue(s) + 1, Pow(10, |s|), Pow(10, d));
    SmallOrderVanishes(m, e - d, e + |s| - 1);
  }

  /** Inside the gate, the rounded quotient at its binade is the correct rounding of all digits. */
  lemma QuotientIsRounding(num: nat, den: nat, s: seq<Digit>, sticky: bool, e: int, scale: int, k: nat, m: nat, d: nat)
    requires InGate(|s|, e) && s[0] != 0 && Truncates(DecimalValue(s), sticky, m, d)
    requires sticky ==> |s| == KEPT_DIGITS
    requires FiveRatio(num, den, DecimalValue(s), e) && AtBinade(num, den, e, scale, k)
    ensures var a, b := ScaledUp(num, scale), ScaledUp(den, -scale);
      RoundedDecimal(m, e - d) == AtScale(if sticky then RoundedSticky(a, b) else RoundedQuotient(a, b), k)
  {
    hide Pow;
    hide RoundedDecimal;
    hide ScaledUp;
    hide DecimalValue;
    hide Truncates;
    hide FiveRatio;
    hide AtBinade;
    TruncationBounds(DecimalValue(s), sticky, m, d);
    if sticky {
      DecimalAtLeast(s);
      FullCoefficientScalesDown(num, den, DecimalValue(s), e, scale, k);
      StickyCoefficient(num, den, e, scale, k, m, d);
    } else {
      ExactCoefficient(num, den, DecimalValue(s), e, scale, k);
      RoundedMoveZeros(DecimalValue(s), e, d);
    }
  }

  /** binary64_from_decimal.  The caller's digits stand for the whole coefficient m truncated by d
      digits; the result is the correct rounding of the whole. */
  method Binary64FromDecimal(digits: array<Digit>, count: nat, sticky: bool, exponent: DecimalExponent, negative: bool,
                             ghost m: nat, ghost d: nat)
    returns (r: Option<Bits64>)
    requires count <= digits.Length && count <= KEPT_DIGITS && exponent.Canonical()
    requires count > 0 ==> digits[0] != 0
    requires Truncates(DecimalValue(digits[..count]), sticky, m, d)
    requires sticky ==> count == KEPT_DIGITS
    ensures count == 0 ==> r.None?
    ensures count > 0 ==> (r.Some? <==> RoundsToNonzeroFinite(m, exponent.Value() - d))
    ensures r.Some? ==> Denotes(r.value, negative, RoundedDecimal(m, exponent.Value() - d))
  {
    hide Pow;
    hide RoundedDecimal;
    hide OverflowUnits;
    hide BitLength;
    hide DecimalValue;
    hide Denotes;
    hide AtScale;
    hide Truncates;
    if count == 0 {
      return None;
    }
    ghost var s: seq<Digit> := digits[..count];
    var order := AddPositive(exponent, count - 1);
    if order.None? {
      AboveGate(s, sticky, exponent.Value(), m, d);
      return None;
    }
    if (!order.value.negative && order.value.magnitude > 308) || (order.value.negative && order.value.magnitude > 324) {
      if order.value.negative {
        BelowGate(s, sticky, exponent.Value(), m, d);
      } else {
        AboveGate(s, sticky, exponent.Value(), m, d);
      }
      return None;
    }
    assert exponent.magnitude <= 1123;
    r := ConvertInGate(digits, count, sticky, exponent.Value(), negative, m, d);
  }

  /** What RoundDivide computes. */
  function Significand(a: nat, b: nat, sticky: bool): (m: nat)
    requires 0 < b
    ensures a / b <= m <= a / b + 1
  {
    if sticky then RoundedSticky(a, b) else RoundedQuotient(a, b)
  }

  /** From the ratio and its binary order to the assembled result, all in naturals. */
  lemma ConversionCorrect(num: nat, den: nat, s: seq<Digit>, sticky: bool, e: int, order: int, negative: bool, m: nat, d: nat)
    requires InGate(|s|, e) && s[0] != 0 && Truncates(DecimalValue(s), sticky, m, d)
    requires sticky ==> |s| == KEPT_DIGITS
    requires FiveRatio(num, den, DecimalValue(s), e) && 0 < num && 0 < den
    requires BitLength(num) <= 2670 && BitLength(den) <= 2625
    requires AtLeastPowerTwo(num, den, order) && !AtLeastPowerTwo(num, den, order + 1)
    requires BitLength(num) - BitLength(den) - 1 <= order <= BitLength(num) - BitLength(den)
    ensures var scale := ScaleFor(order, e);
      var a, b := ScaledUp(num, scale), ScaledUp(den, -scale);
      && BitLength(num) + Positive(scale) <= 4800 && BitLength(den) + Positive(-scale) <= 4800
      && 0 < b && BitLength(b) <= 4800 && a / b < SIGNIFICAND_LIMIT
      && AssembledRight(order + e >= -1022, order + e, Significand(a, b, sticky), negative, m, e - d)
  {
    hide Pow;
    hide RoundedDecimal;
    hide OverflowUnits;
    hide BitLength;
    hide DecimalValue;
    hide AtLeastPowerTwo;
    hide Denotes;
    hide AtScale;
    hide FiveRatio;
    hide Truncates;
    hide ScaledUp;
    hide RoundedSticky;
    hide RoundedQuotient;
    ScalingWorks(num, den, e, order);
    var scale, k := ScaleFor(order, e), BinadeFor(order, e);
    var significand := Significand(ScaledUp(num, scale), ScaledUp(den, -scale), sticky);
    QuotientIsRounding(num, den, s, sticky, e, scale, k, m, d);
    AssembleMeaning(k, significand, negative);
  }

  ghost predicate AssembledRight(normal: bool, exponent2: int, significand: nat, negative: bool, m: nat, e: int) {
    && significand <= SIGNIFICAND_LIMIT
    && (if normal then -1022 <= exponent2 && MIN_NORMAL_SIGNIFICAND <= significand
        else significand <= MIN_NORMAL_SIGNIFICAND)
    && var r := Assemble(normal, exponent2, significand, negative);
       && (r.Some? <==> RoundsToNonzeroFinite(m, e))
       && (r.Some? ==> Denotes(r.value, negative, RoundedDecimal(m, e)))
  }

  method ConvertInGate(digits: array<Digit>, count: nat, sticky: bool, e: int, negative: bool, ghost m: nat, ghost d: nat)
    returns (r: Option<Bits64>)
    requires count <= digits.Length && InGate(count, e) && digits[0] != 0
    requires Truncates(DecimalValue(digits[..count]), sticky, m, d)
    requires sticky ==> count == KEPT_DIGITS
    ensures r.Some? <==> RoundsToNonzeroFinite(m, e - d)
    ensures r.Some? ==> Denotes(r.value, negative, RoundedDecimal(m, e - d))
  {
    hide Pow;
    hide ValueOf;
    hide NormalForm;
    hide DecimalValue;
    hide BitLength;
    hide AtLeastPowerTwo;
    hide ScaledUp;
    hide FiveRatio;
    hide Truncates;
    hide Denotes;
    hide RoundsToNonzeroFinite;
    hide RoundedDecimal;
    hide Assemble;
    hide Significand;
    ghost var s: seq<Digit> := digits[..count];
    var numerator, denominator := BuildRatio(digits, count, e);
    var order := BinaryOrder(numerator, denominator);
    ConversionCorrect(numerator.Value(), denominator.Value(), s, sticky, e, order, negative, m, d);
    var exponent2 := order + e;
    var normal := exponent2 >= -1022;
    var scale := if normal then e + 52 - exponent2 else e + 1074;
    var scaledNumerator, scaledDenominator := ScaleRatio(numerator, denominator, scale);
    var significand := RoundDivide(scaledNumerator, scaledDenominator, sticky);
    r := Assemble(normal, exponent2, significand, negative);
  }
}
