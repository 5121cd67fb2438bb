/** The number theory of the conversion: scaling a ratio by a power of two so that its integer
    quotient is a significand, and the sizes of everything on the way. */
module Scaling {
  import opened Powers
  import opened Limbs
  import opened BigUIntWorkspace
  import opened BigRatio
  import opened Rounding
  import opened ExactDecimal

  /** numerator * 2^s / denominator, with the power on whichever side keeps it integral. */
  ghost function ScaledUp(v: nat, s: int): (r: nat)
    ensures s <= 0 ==> r == v
  {
    hide Pow;
    PowStep(2, Positive(s));
    PowZero(2);
    v * Pow(2, Positive(s))
  }

  lemma ScaledPositive(v: nat, s: int)
    requires v > 0
    ensures ScaledUp(v, s) > 0
  {
    hide Pow;
    PowStep(2, Positive(s));
    MulStrict(0, v, Pow(2, Positive(s)));
  }

  lemma AtLeastAsScaled(n: nat, d: nat, p: int)
    ensures AtLeastPowerTwo(n, d, p) <==> ScaledUp(d, p) <= ScaledUp(n, -p)
  {
    hide Pow;
    PowZero(2);
  }

  /** Scaling the ratio by 2^s moves the power-of-two threshold by s. */
  lemma ShiftThreshold(n: nat, d: nat, p: int, s: int)
    ensures AtLeastPowerTwo(ScaledUp(n, s), ScaledUp(d, -s), p + s) <==> AtLeastPowerTwo(n, d, p)
  {
    hide Pow;
    hide AtLeastPowerTwo;
    AtLeastAsScaled(n, d, p);
    AtLeastAsScaled(ScaledUp(n, s), ScaledUp(d, -s), p + s);
    ScaledTwice(d, -s, p + s);
    ScaledTwice(n, s, -(p + s));
    var up, down := Positive(-s) + Positive(p + s), Positive(s) + Positive(-p - s);
    assert up - Positive(p) == down - Positive(-p);
    if up >= Positive(p) {
      CommonPower(d, n, Positive(p), Positive(-p), up - Positive(p));
    } else {
      CommonPower(d, n, up, down, Positive(p) - up);
    }
  }

  lemma ScaledTwice(v: nat, s: int, t: int)
    ensures ScaledUp(ScaledUp(v, s), t) == v * Pow(2, Positive(s) + Positive(t))
  {
    hide Pow;
    PowAdd(2, Positive(s), Positive(t));
    MulAssoc(v, Pow(2, Positive(s)), Pow(2, Positive(t)));
  }

  lemma CommonPower(a: nat, b: nat, i: nat, j: nat, c: nat)
    ensures a * Pow(2, i) <= b * Pow(2, j) <==> a * Pow(2, i + c) <= b * Pow(2, j + c)
  {
    hide Pow;
    PowAdd(2, i, c);
    PowAdd(2, j, c);
    PowStep(2, c);
    MulAssoc(a, Pow(2, i), Pow(2, c));
    MulAssoc(b, Pow(2, j), Pow(2, c));
    MulCancel(a * Pow(2, i), b * Pow(2, j), Pow(2, c));
    if a * Pow(2, i) <= b * Pow(2, j) {
      MulMonotone(a * Pow(2, i), b * Pow(2, j), Pow(2, c));
    }
  }

  lemma ThresholdMonotone(n: nat, d: nat, p: int, p': int)
    requires p' <= p && AtLeastPowerTwo(n, d, p)
    ensures AtLeastPowerTwo(n, d, p')
  {
    hide Pow;
    AtLeastAsScaled(n, d, p);
    AtLeastAsScaled(n, d, p');
    PowMonotone(2, Positive(p'), Positive(p));
    PowMonotone(2, Positive(-p), Positive(-p'));
    MulMonotone(Pow(2, Positive(p')), Pow(2, Positive(p)), d);
    MulMonotone(Pow(2, Positive(-p)), Pow(2, Positive(-p')), n);
  }

  /** The difference of bit lengths is the binary order of a ratio, or one too large. */
  lemma BitDifference(n: nat, d: nat)
    requires 0 < n && 0 < d
    ensures AtLeastPowerTwo(n, d, BitLength(n) - BitLength(d) - 1)
    ensures !AtLeastPowerTwo(n, d, BitLength(n) - BitLength(d) + 1)
  {
    var a, b := BitLength(n), BitLength(d);
    BitLengthBounds(n);
    BitLengthBounds(d);
    hide Pow;
    hide BitLength;
    var p := a - b - 1;
    AtLeastAsScaled(n, d, p);
    AtLeastAsScaled(n, d, p + 2);
    // d * 2^max(p,0) < 2^(b + max(p,0)) = 2^(a-1 + max(-p,0)) <= n * 2^max(-p,0)
    PowAdd(2, b, Positive(p));
    PowAdd(2, a - 1, Positive(-p));
    assert b + Positive(p) == a - 1 + Positive(-p);
    MulMonotone(d, Pow(2, b), Pow(2, Positive(p)));
    MulMonotone(Pow(2, a - 1), n, Pow(2, Positive(-p)));
    // n * 2^max(-q,0) < 2^(a + max(-q,0)) = 2^(b-1 + max(q,0)) <= d * 2^max(q,0), q = p + 2
    var q := p + 2;
    PowAdd(2, a, Positive(-q));
    PowAdd(2, b - 1, Positive(q));
    PowStep(2, Positive(-q));
    PowStep(2, Positive(q));
    assert a + Positive(-q) == b - 1 + Positive(q);
    MulStrict(n, Pow(2, a), Pow(2, Positive(-q)));
    MulMonotone(Pow(2, b - 1), d, Pow(2, Positive(q)));
  }

  /** Thresholds at a natural power bound the integer quotient. */
  lemma QuotientFromThresholds(n: nat, d: nat, p: nat)
    requires 0 < d
    ensures AtLeastPowerTwo(n, d, p) <==> Pow(2, p) <= n / d
  {
    hide Pow;
    var t: nat := Pow(2, p);
    assert n == (n / d) * d + n % d;
    if t * d <= n {
      MulCancel(t, n / d + 1, d);
      Distribute(n / d, 1, d);
    } else if t <= n / d {
      MulMonotone(t, n / d, d);
    }
  }

  lemma SignificandPowers()
    ensures Pow(2, 52) == MIN_NORMAL_SIGNIFICAND && Pow(2, 53) == SIGNIFICAND_LIMIT
  {
    hide Pow;
    PowTwoValues();
    SmallPowers();
    PowAdd(2, 32, 16);
    PowAdd(2, 48, 5);
    PowStep(2, 52);
  }

  /** Powers of five on the numerator or the denominator, as the decimal exponent requires. */
  ghost function FivesUp(e: int): nat { Pow(5, Positive(e)) }

  lemma TenIsTwiceFive(e: nat)
    ensures Pow(10, e) == Pow(5, e) * Pow(2, e)
  {
    PowOfProduct(5, 2, e);
  }

  /** The identity behind the scaling: (5^e 2^scale) * 2^k, over its denominator, is 10^e in
      units of 2^-1074, whenever scale + k = e + 1074. */
  lemma UnitIdentity(e: int, scale: int, k: nat)
    requires scale + k == e + 1074
    ensures UnitsNumerator(1, e) * ScaledUp(FivesUp(-e), -scale)
      == ScaledUp(FivesUp(e), scale) * Pow(2, k) * UnitsDenominator(e)
  {
    hide Pow;
    var up, down := Positive(e), Positive(-e);
    var s, t := Positive(scale), Positive(-scale);
    TenIsTwiceFive(up);
    TenIsTwiceFive(down);
    PowAdd(2, up, 1074);
    PowAdd(2, up + 1074, t);
    PowAdd(2, s, k);
    PowAdd(2, s + k, down);
    assert up + 1074 + t == s + k + down;
    var one: nat := UnitsPerOne();
    assert one == Pow(2, 1074);
    RegroupLeft(Pow(5, up), Pow(2, up), one, Pow(5, down), Pow(2, t));
    RegroupRight(Pow(5, up), Pow(2, s), Pow(2, k), Pow(5, down), Pow(2, down));
  }

  lemma RegroupLeft(f: int, u: int, one: int, g: int, t: int)
    ensures (1 * ((f * u) * one)) * (g * t) == (f * g) * ((u * one) * t)
  {
    MulAssoc(f, u, one);
    MulAssoc(f, u * one, g * t);
    MulAssoc(u * one, g, t);
    MulAssoc(g, u * one, t);
    MulAssoc(f, g, (u * one) * t);
  }

  lemma RegroupRight(f: int, s: int, k: int, g: int, d: int)
    ensures ((f * s) * k) * (g * d) == (f * g) * ((s * k) * d)
  {
    MulAssoc(f, s, k);
    MulAssoc(f, s * k, g * d);
    MulAssoc(s * k, g, d);
    MulAssoc(g, s * k, d);
    MulAssoc(f, g, (s * k) * d);
  }

  /** Limbs needed for a value of a given bit length. */
  lemma LengthFromBits(s: seq<Limb>)
    requires NormalForm(s)
    ensures 32 * |s| <= BitLength(ValueOf(s)) + 31
  {
    if |s| > 0 {
      BitLengthByTop(s);
    }
  }

  lemma BitsAtMost(n: nat, bits: nat)
    requires n < Pow(2, bits)
    ensures BitLength(n) <= bits
  {
    BitLengthBounds(n);
    if n > 0 && bits < BitLength(n) {
      PowMonotone(2, bits, BitLength(n) - 1);
    }
  }

  lemma BitsOfScaled(v: nat, s: int)
    ensures BitLength(ScaledUp(v, s)) <= BitLength(v) + Positive(s)
  {
    BitLengthBounds(v);
    hide Pow;
    PowAdd(2, BitLength(v), Positive(s));
    PowStep(2, Positive(s));
    MulStrict(v, Pow(2, BitLength(v)), Pow(2, Positive(s)));
    BitsAtMost(ScaledUp(v, s), BitLength(v) + Positive(s));
  }

  /** 10^(3n) < 2^(10n) and 5^(3n) < 2^(7n). */
  lemma CrudePowers(n: nat)
    ensures Pow(10, 3 * n) <= Pow(2, 10 * n)
    ensures Pow(5, 3 * n) <= Pow(2, 7 * n)
  {
    assert Pow(10, 3) == 1000 && Pow(2, 10) == 1024 && Pow(5, 3) == 125 && Pow(2, 7) == 128;
    hide Pow;
    PowOfPow(10, 3, n);
    PowOfPow(2, 10, n);
    PowOfPow(5, 3, n);
    PowOfPow(2, 7, n);
    PowBaseMonotone(1000, 1024, n);
    PowBaseMonotone(125, 128, n);
  }
}
