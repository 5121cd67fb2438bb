/** Building and dividing workspace integers. */
module BigRatio {
  import opened Powers
  import opened Limbs
  import opened DecimalDigits
  import opened BigUIntWorkspace

  const U64_LIMIT: nat := 0x1_0000_0000_0000_0000

  /** Load a digit string; fails when it does not fit, or is zero. */
  method FromDecimalDigits(value: BigUInt, digits: array<Digit>, count: nat) returns (ok: bool)
    requires value.limbs.Length == LIMB_CAPACITY
    requires count <= digits.Length
    modifies value, value.limbs
    ensures ok <==> 0 < DecimalValue(digits[..count]) < Pow(BASE, value.limbs.Length)
    ensures ok ==> value.Valid() && value.Value() == DecimalValue(digits[..count])
  {
    hide Pow;
    hide ValueOf;
    hide DecimalValue;
    ghost var all := digits[..count];
    Clear(value);
    EmptyDigits();
    var i := 0;
    while i < count
      invariant 0 <= i <= count
      invariant value.Valid() && value.Value() == DecimalValue(all[..i])
    {
      PrefixDigit(all, i);
      PrefixNotLarger(all, i + 1);
      var more := value.MultiplyAddSmall(10, digits[i]);
      if !more {
        return false;
      }
      i := i + 1;
    }
    assert all[..i] == all;
    EmptyIffZero(value.limbs[..value.length]);
    NoCarryFits(value.limbs[..value.length], value.limbs.Length);
    return value.length != 0;
  }

  method Clear(value: BigUInt)
    requires value.limbs.Length == LIMB_CAPACITY
    modifies value, value.limbs
    ensures value.Valid() && value.Value() == 0
  {
    forall i | 0 <= i < LIMB_CAPACITY {
      value.limbs[i] := 0;
    }
    value.length := 0;
  }

  lemma EmptyDigits()
    ensures DecimalValue([]) == 0
  {
  }

  lemma EmptyIffZero(s: seq<Limb>)
    requires NormalForm(s)
    ensures ValueOf(s) == 0 <==> |s| == 0
  {
    if |s| > 0 {
      NormalFormIff(s);
    }
  }

  /** Multiply by 5^exponent, one factor at a time. */
  method MultiplyByPowerOfFive(value: BigUInt, exponent: nat) returns (ok: bool)
    requires value.Valid() && value.Value() > 0
    modifies value, value.limbs
    ensures ok <==> old(value.Value()) * Pow(5, exponent) < Pow(BASE, value.limbs.Length)
    ensures ok ==> value.Valid() && value.Value() == old(value.Value()) * Pow(5, exponent)
  {
    hide Pow;
    hide ValueOf;
    ghost var start := value.Value();
    PowZero(5);
    NoCarryFits(value.limbs[..value.length], value.limbs.Length);
    var i := 0;
    while i < exponent
      invariant 0 <= i <= exponent
      invariant value.Valid() && value.Value() == start * Pow(5, i)
      invariant start * Pow(5, i) < Pow(BASE, value.limbs.Length)
    {
      FiveStep(start, i, exponent);
      var more := value.MultiplyAddSmall(5, 0);
      if !more {
        return false;
      }
      i := i + 1;
    }
    return true;
  }

  lemma FiveStep(start: nat, i: nat, exponent: nat)
    requires i < exponent
    ensures start * Pow(5, i + 1) == (start * Pow(5, i)) * 5 + 0
    ensures start * Pow(5, i + 1) <= start * Pow(5, exponent)
  {
    PowMonotone(5, i + 1, exponent);
    MulMonotone(Pow(5, i + 1), Pow(5, exponent), start);
  }

  method PowerFive(value: BigUInt, exponent: nat) returns (ok: bool)
    requires value.limbs.Length == LIMB_CAPACITY
    modifies value, value.limbs
    ensures ok <==> Pow(5, exponent) < Pow(BASE, value.limbs.Length)
    ensures ok ==> value.Valid() && value.Value() == Pow(5, exponent)
  {
    value.SetOne();
    ok := MultiplyByPowerOfFive(value, exponent);
  }

  /** numerator / denominator >= 2^power, without leaving the integers. */
  ghost predicate AtLeastPowerTwo(numerator: nat, denominator: nat, power: int) {
    if power >= 0 then denominator * Pow(2, power) <= numerator
    else denominator <= numerator * Pow(2, -power)
  }

  /** A shift that does not fit the workspace is reported as "less than". */
  method RatioAtLeastPowerTwo(numerator: BigUInt, denominator: BigUInt, power: int) returns (r: bool)
    requires numerator.Valid() && denominator.Valid()
    ensures var shifted := if power >= 0 then denominator else numerator;
      r <==> (ShiftFits(shifted.length, if power >= 0 then power else -power)
              && AtLeastPowerTwo(numerator.Value(), denominator.Value(), power))
  {
    if power >= 0 {
      var shifted := new BigUInt.Copy(denominator);
      var ok := shifted.ShiftLeft(power);
      if !ok {
        return false;
      }
      var order := numerator.Compare(shifted);
      return order >= 0;
    }
    var shifted := new BigUInt.Copy(numerator);
    var ok := shifted.ShiftLeft(-power);
    if !ok {
      return false;
    }
    var order := shifted.Compare(denominator);
    return order >= 0;
  }

  /** How far the denominator is shifted before the division starts. */
  ghost function InitialShift(n: nat, d: nat): nat {
    if BitLength(d) <= BitLength(n) then BitLength(n) - BitLength(d) else 0
  }

  /** Restoring division with a quotient of at most 64 bits. */
  method DivideU64(numerator: BigUInt, denominator: BigUInt, remainder: BigUInt) returns (ok: bool, quotient: nat)
    requires numerator.Valid() && denominator.Valid() && remainder.limbs.Length == LIMB_CAPACITY
    requires remainder != numerator && remainder != denominator
    requires remainder.limbs != numerator.limbs && remainder.limbs != denominator.limbs
    modifies remainder, remainder.limbs
    ensures var n, d := numerator.Value(), denominator.Value();
      ok <==> d > 0 && (n < d || (InitialShift(n, d) < 64 && ShiftFits(denominator.length, InitialShift(n, d))))
    ensures ok ==> remainder.Valid() && remainder.Value() < denominator.Value()
    ensures ok ==> numerator.Value() == quotient * denominator.Value() + remainder.Value() && quotient < U64_LIMIT
  {
    hide Pow;
    hide ValueOf;
    hide BitLength;
    EmptyIffZero(denominator.limbs[..denominator.length]);
    if denominator.length == 0 {
      return false, 0;
    }
    remainder.Assign(numerator);
    quotient := 0;
    var order := remainder.Compare(denominator);
    if order < 0 {
      return true, 0;
    }
    var numeratorBits := remainder.BitCount();
    var denominatorBits := denominator.BitCount();
    BitLengthMonotone(denominator.Value(), numerator.Value());
    var shift: nat := numeratorBits - denominatorBits;
    if shift >= 64 {
      return false, 0;
    }
    var divisor := new BigUInt.Copy(denominator);
    var fits := divisor.ShiftLeft(shift);
    if !fits {
      return false, 0;
    }
    DivisionStarts(numerator.Value(), denominator.Value(), shift);
    quotient := DivideLoop(remainder, divisor, shift, denominator.Value());
    return true, quotient;
  }

  /** One quotient bit per round, from bit `shift` down; the divisor is halved exactly each time. */
  method DivideLoop(remainder: BigUInt, divisor: BigUInt, shift: nat, ghost d: nat) returns (quotient: nat)
    requires remainder.Valid() && divisor.Valid() && shift < 64
    requires remainder != divisor && remainder.limbs != divisor.limbs
    requires divisor.Value() == d * Pow(2, shift) && remainder.Value() < d * Pow(2, shift + 1)
    modifies remainder, remainder.limbs, divisor, divisor.limbs
    ensures remainder.Valid() && remainder.Value() < d
    ensures old(remainder.Value()) == quotient * d + remainder.Value() && quotient < U64_LIMIT
  {
    hide Pow;
    hide ValueOf;
    hide Dividing;
    ghost var n := remainder.Value();
    quotient := 0;
    DividingStarts(n, d, shift);
    var bit: nat := shift;
    while true
      invariant remainder.Valid() && divisor.Valid() && bit <= shift
      invariant Dividing(n, d, quotient, remainder.Value(), bit + 1, shift)
      invariant divisor.Value() == d * Pow(2, bit)
      decreases bit
    {
      var order := remainder.Compare(divisor);
      DivisionStep(n, d, quotient, remainder.Value(), bit, shift);
      if order >= 0 {
        remainder.Subtract(divisor);
        quotient := quotient + PowerOfTwoBit(bit);
      }
      if bit == 0 {
        break;
      }
      ExactHalf(d, bit);
      divisor.ShiftRightOne();
      bit := bit - 1;
    }
    DivisionEnds(n, d, quotient, remainder.Value(), shift);
  }

  function PowerOfTwoBit(bit: nat): (p: nat)
    requires bit < 64
    ensures p == Pow(2, bit)
  {
    Pow(2, bit)
  }

  /** The invariant of the division loop before bit - 1 is decided.  The quotient so far is a
      multiple of 2^bit, so setting a lower bit is an addition. */
  ghost predicate Dividing(n: nat, d: nat, quotient: nat, rest: nat, bit: nat, shift: nat) {
    && n == quotient * d + rest && rest < d * Pow(2, bit)
    && quotient % Pow(2, bit) == 0 && quotient + Pow(2, bit) <= Pow(2, shift + 1)
  }

  lemma DivisionStarts(n: nat, d: nat, shift: nat)
    requires 0 < d <= n && shift == BitLength(n) - BitLength(d)
    ensures n < d * Pow(2, shift + 1)
  {
    BitLengthBounds(n);
    BitLengthBounds(d);
    PowAdd(2, BitLength(d) - 1, shift + 1);
    MulMonotone(Pow(2, BitLength(d) - 1), d, Pow(2, shift + 1));
  }

  lemma DividingStarts(n: nat, d: nat, shift: nat)
    requires n < d * Pow(2, shift + 1)
    ensures Dividing(n, d, 0, n, shift + 1, shift)
  {
  }

  lemma DivisionStep(n: nat, d: nat, quotient: nat, rest: nat, bit: nat, shift: nat)
    requires Dividing(n, d, quotient, rest, bit + 1, shift)
    ensures rest < d * Pow(2, bit) ==> Dividing(n, d, quotient, rest, bit, shift)
    ensures rest >= d * Pow(2, bit) ==>
      Dividing(n, d, quotient + Pow(2, bit), rest - d * Pow(2, bit), bit, shift)
  {
    hide Pow;
    PowStep(2, bit);
    MultipleOfHalf(quotient, Pow(2, bit));
    Distribute(quotient, Pow(2, bit), d);
    Distribute(Pow(2, bit), Pow(2, bit), d);
    assert Pow(2, bit + 1) == Pow(2, bit) + Pow(2, bit);
  }

  lemma MultipleOfHalf(q: nat, p: nat)
    requires 0 < p && q % (2 * p) == 0
    ensures q % p == 0 && (q + p) % p == 0
  {
    var t := q / (2 * p);
    assert q == t * (2 * p) == (2 * t) * p;
    DivModUnique(q, p, 2 * t, 0);
    Distribute(2 * t, 1, p);
    DivModUnique(q + p, p, 2 * t + 1, 0);
  }

  lemma ExactHalf(d: nat, bit: nat)
    requires bit > 0
    ensures d * Pow(2, bit) / 2 == d * Pow(2, bit - 1)
  {
    PowStep(2, bit - 1);
    MulAssoc(d, 2, Pow(2, bit - 1));
    assert d * Pow(2, bit) == 2 * (d * Pow(2, bit - 1));
  }

  lemma DivisionEnds(n: nat, d: nat, quotient: nat, rest: nat, shift: nat)
    requires Dividing(n, d, quotient, rest, 0, shift) && shift < 64
    ensures n == quotient * d + rest && rest < d && quotient < U64_LIMIT
  {
    PowMonotone(2, shift + 1, 64);
    PowTwoValues();
    PowAdd(2, 32, 32);
  }
}
