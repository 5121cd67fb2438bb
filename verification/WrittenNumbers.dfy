/** What a written number is worth, read off its characters: the digits as one natural, times ten to
    the exponent as it is written, divided by ten once for every fraction digit. */
module WrittenNumbers {
  import opened Wrappers
  import opened Powers
  import opened Rounding
  import opened Binary64
  import opened ExactDecimal
  import opened Texts
  import opened Ascii
  import opened DecimalDigits
  import opened DecimalExponents
  import opened DecimalText
  import opened ParseDouble

  /** All digits before the exponent, as one natural. */
  ghost function WrittenDigits(p: Spelling): nat { DecimalValue(DigitsOf(p.whole + p.fraction)) }

  /** How many places a written exponent moves the point to the right. */
  ghost function PlacesRight(p: Spelling): nat {
    match p.exponent
    case None => 0
    case Some((_, sign, digits)) => if sign == "-" then 0 else DecimalValue(DigitsOf(digits))
  }

  /** How many places it moves the point to the left, the fraction digits included. */
  ghost function PlacesLeft(p: Spelling): nat {
    |p.fraction| + match p.exponent
                   case None => 0
                   case Some((_, sign, digits)) => if sign == "-" then DecimalValue(DigitsOf(digits)) else 0
  }

  /** Numerator and denominator of the written value, in units of 2^-1074. */
  ghost function WrittenUnits(p: Spelling): nat {
    hide Pow;
    PowStep(10, PlacesRight(p));
    WrittenDigits(p) * (Pow(10, PlacesRight(p)) * UnitsPerOne())
  }

  ghost function WrittenDivisor(p: Spelling): (d: nat)
    ensures d > 0
  {
    hide Pow;
    PowStep(10, PlacesLeft(p));
    Pow(10, PlacesLeft(p))
  }

  lemma DigitsJoin(a: string, b: string)
    ensures DigitsOf(a + b) == DigitsOf(a) + DigitsOf(b)
  {
  }

  lemma MeaningOfParts(p: Spelling)
    requires p.WellFormed(true)
    ensures p.Meaning().Coefficient() == WrittenDigits(p)
    ensures p.Meaning().Exponent() == PlacesRight(p) - PlacesLeft(p)
    ensures p.Meaning().negative == (p.sign == "-") && p.Meaning().end == |p.Text()|
  {
    DigitsJoin(p.whole, p.fraction);
    assert DigitsOf("") == [];
    assert DecimalValue([]) == 0;
    hide DecimalValue;
    hide DigitsOf;
    hide Spelling.Text;
  }

  /** The same ratio, with the powers of ten on the side they are written on. */
  lemma SameValue(p: Spelling)
    requires p.WellFormed(true)
    ensures var t := p.Meaning();
      UnitsNumerator(t.Coefficient(), t.Exponent()) * WrittenDivisor(p) == WrittenUnits(p) * UnitsDenominator(t.Exponent())
  {
    MeaningOfParts(p);
    hide *;
    SameRatio(WrittenDigits(p), PlacesRight(p), PlacesLeft(p), p);
  }

  lemma SameRatio(m: nat, right: nat, left: nat, p: Spelling)
    requires m == WrittenDigits(p) && right == PlacesRight(p) && left == PlacesLeft(p)
    ensures UnitsNumerator(m, right - left) * WrittenDivisor(p) == WrittenUnits(p) * UnitsDenominator(right - left)
  {
    hide Pow;
    hide UnitsPerOne;
    hide WrittenDigits;
    hide PlacesRight;
    hide PlacesLeft;
    var e := right - left;
    PowAdd(10, Positive(e), left);
    PowAdd(10, right, Positive(-e));
    var one, a, t, s, b := UnitsPerOne(), Pow(10, Positive(e)), Pow(10, left), Pow(10, right), Pow(10, Positive(-e));
    PowStep(10, right);
    CrossProducts(m, one, a, t, 1, s, b);
  }

  lemma FiniteBelowOverflow(bits: Bits64)
    requires Finite(bits)
    ensures Magnitude(bits) < OverflowUnits()
  {
    var m, k := CanonicalDatum(bits);
    var field := ExponentField(bits);
    hide Pow;
    PowZero(2);
    MagnitudeBelow(if field == 0 then Fraction(bits) else FRACTION_LIMIT + Fraction(bits), if field == 0 then 0 else field - 1);
  }

  lemma MagnitudeBelow(m: nat, k: nat)
    requires m < SIGNIFICAND_LIMIT && k <= 2045
    ensures m * Pow(2, k) < OverflowUnits()
  {
    FiftyThree();
    hide Pow;
    PowStep(2, k);
    PowAdd(2, 53, k);
    PowMonotone(2, 53 + k, 2098);
    MulStrict(m, SIGNIFICAND_LIMIT, Pow(2, k));
  }

  lemma FiftyThree()
    ensures SIGNIFICAND_LIMIT == Pow(2, 53)
  {
    PowTwoValues();
    SmallPowers();
    hide Pow;
    PowAdd(2, 32, 16);
    PowAdd(2, 48, 5);
  }

  /** The whole contract on the characters: a written number is read as a datum exactly when the datum
      is finite, has the written sign, is the correct rounding of the written value, and is not a zero
      standing for something else. */
  lemma WrittenIsRounded(p: Spelling, rest: string, allowSign: bool, bits: Bits64)
    requires p.WellFormed(allowSign) && p.EndsBefore(At(rest, 0))
    ensures PrefixReads(p.Text() + rest, allowSign, |p.Text()|, bits) <==>
      && Finite(bits) && (Negative(bits) <==> p.sign == "-")
      && RoundsTo(WrittenUnits(p), WrittenDivisor(p), Magnitude(bits))
      && (WrittenDigits(p) == 0 || Magnitude(bits) > 0)
  {
    ScanReadsSpelling(p, rest, allowSign);
    MeaningOfParts(p);
    SameValue(p);
    if Finite(bits) {
      FiniteBelowOverflow(bits);
    }
    hide Scan;
    hide Spelling.Meaning;
    hide Spelling.Text;
    hide Magnitude;
    hide *;
    ReadsRounded(p, p.Text() + rest, allowSign, bits);
  }

  lemma ReadsRounded(p: Spelling, text: string, allowSign: bool, bits: Bits64)
    requires Scan(text, allowSign) == Some(p.Meaning())
    requires p.Meaning().Coefficient() == WrittenDigits(p) && p.Meaning().negative == (p.sign == "-")
    requires p.Meaning().end == |p.Text()|
    requires var t := p.Meaning();
      UnitsNumerator(t.Coefficient(), t.Exponent()) * WrittenDivisor(p) == WrittenUnits(p) * UnitsDenominator(t.Exponent())
    requires Finite(bits) ==> Magnitude(bits) < OverflowUnits()
    ensures PrefixReads(text, allowSign, |p.Text()|, bits) <==>
      && Finite(bits) && (Negative(bits) <==> p.sign == "-")
      && RoundsTo(WrittenUnits(p), WrittenDivisor(p), Magnitude(bits))
      && (WrittenDigits(p) == 0 || Magnitude(bits) > 0)
  {
    var t := p.Meaning();
    var x, y := WrittenUnits(p), WrittenDivisor(p);
    var u := RoundedDecimal(t.Coefficient(), t.Exponent());
    RoundedSameRatio(UnitsNumerator(t.Coefficient(), t.Exponent()), UnitsDenominator(t.Exponent()), x, y);
    assert u == Rounded(x, y);
    RoundedRounds(x, y);
    if RoundsTo(x, y, Magnitude(bits)) {
      RoundedIs(x, y, Magnitude(bits));
    }
    hide Scan;
    hide Magnitude;
    hide Finite;
    hide Negative;
    hide WrittenDigits;
    hide WrittenUnits;
    hide WrittenDivisor;
    hide RoundedDecimal;
    hide OverflowUnits;
    hide RoundsTo;
    hide Token.Coefficient;
    hide Token.Exponent;
    hide Spelling.Meaning;
    hide Spelling.Text;
  }

  lemma RoundedRounds(x: nat, y: nat)
    requires y > 0
    ensures RoundsTo(x, y, Rounded(x, y))
  {
    hide RoundsTo;
  }

  /** The datum is at least as near to x / y as another one, and is even when both are as near. */
  ghost predicate NoFarther(bits: Bits64, other: Bits64, x: nat, y: nat) {
    var mine, theirs := Distance(Magnitude(bits) * y, x), Distance(Magnitude(other) * y, x);
    mine <= theirs && (mine == theirs && Magnitude(other) != Magnitude(bits) ==> bits % 2 == 0)
  }

  /** So no finite datum is nearer to the written value, and on a tie the datum is the even one. */
  lemma WrittenIsNearest(p: Spelling, rest: string, allowSign: bool, bits: Bits64, other: Bits64)
    requires p.WellFormed(allowSign) && p.EndsBefore(At(rest, 0)) && Finite(other)
    requires PrefixReads(p.Text() + rest, allowSign, |p.Text()|, bits)
    ensures NoFarther(bits, other, WrittenUnits(p), WrittenDivisor(p))
  {
    WrittenIsRounded(p, rest, allowSign, bits);
    RoundedDatumIsNearest(bits, WrittenUnits(p), WrittenDivisor(p), other);
    hide PrefixReads;
    hide WrittenUnits;
    hide WrittenDivisor;
    hide Magnitude;
  }

  function Zeros(n: nat): (s: string)
    ensures |s| == n && AllDigits(s)
  {
    seq(n, i => '0')
  }

  /** q is p without its exponent: the point moved as far as the exponent says, zeros filled in. */
  ghost predicate WrittenOut(p: Spelling, q: Spelling) {
    && p.exponent.Some? && q.exponent.None? && q.sign == p.sign
    && var (_, sign, digits) := p.exponent.value;
    var n := DecimalValue(DigitsOf(digits));
    if sign == "-" then q.whole + q.fraction == Zeros(n) + (p.whole + p.fraction) && |q.whole| == |p.whole|
    else q.whole + q.fraction == (p.whole + p.fraction) + Zeros(n) && |q.whole| == |p.whole| + n
  }

  lemma ZerosAround(s: string, n: nat)
    ensures DecimalValue(DigitsOf(Zeros(n) + s)) == DecimalValue(DigitsOf(s))
    ensures DecimalValue(DigitsOf(s + Zeros(n))) == DecimalValue(DigitsOf(s)) * Pow(10, n)
  {
    var zeros: seq<Digit> := DigitsOf(Zeros(n));
    DigitsJoin(Zeros(n), s);
    DigitsJoin(s, Zeros(n));
    assert forall i :: 0 <= i < n ==> zeros[i] == 0;
    LeadingZeros(zeros, DigitsOf(s));
    DecimalConcat(DigitsOf(s), zeros);
    DecimalZero(zeros);
    hide Pow;
  }

  /** What writing an exponent out does to the parts of the value. */
  lemma WrittenOutParts(p: Spelling, q: Spelling)
    requires WrittenOut(p, q)
    ensures PlacesRight(q) == 0 && PlacesLeft(q) == PlacesLeft(p)
    ensures WrittenDigits(q) == WrittenDigits(p) * Pow(10, PlacesRight(p))
  {
    var (_, sign, digits) := p.exponent.value;
    var n := DecimalValue(DigitsOf(digits));
    ZerosAround(p.whole + p.fraction, n);
    assert |q.whole + q.fraction| == |p.whole + p.fraction| + n;
    hide Pow;
    PowZero(10);
    hide DecimalValue;
    hide DigitsOf;
    hide Zeros;
  }

  /** A written exponent moves the point: to the right without a sign or with a plus, to the left with a
      minus.  The number with the point moved is read as the same datum, or rejected alike. */
  lemma ExponentMovesPoint(p: Spelling, q: Spelling, rest: string, allowSign: bool, bits: Bits64)
    requires p.WellFormed(allowSign) && q.WellFormed(allowSign) && WrittenOut(p, q)
    requires p.EndsBefore(At(rest, 0)) && q.EndsBefore(At(rest, 0))
    ensures PrefixReads(p.Text() + rest, allowSign, |p.Text()|, bits)
      <==> PrefixReads(q.Text() + rest, allowSign, |q.Text()|, bits)
  {
    WrittenIsRounded(p, rest, allowSign, bits);
    WrittenIsRounded(q, rest, allowSign, bits);
    WrittenOutParts(p, q);
    assert q.sign == p.sign;
    hide *;
    SameWritten(p, q);
  }

  lemma SameWritten(p: Spelling, q: Spelling)
    requires PlacesRight(q) == 0 && PlacesLeft(q) == PlacesLeft(p)
    requires WrittenDigits(q) == WrittenDigits(p) * Pow(10, PlacesRight(p))
    ensures WrittenUnits(q) == WrittenUnits(p) && WrittenDivisor(q) == WrittenDivisor(p)
    ensures WrittenDigits(q) == 0 <==> WrittenDigits(p) == 0
  {
    hide Pow;
    hide WrittenDigits;
    hide PlacesRight;
    hide PlacesLeft;
    hide UnitsPerOne;
    PowZero(10);
    PowStep(10, PlacesRight(p));
    MulAssoc(WrittenDigits(p), Pow(10, PlacesRight(p)), UnitsPerOne());
    if WrittenDigits(p) > 0 {
      MulStrict(0, WrittenDigits(p), Pow(10, PlacesRight(p)));
    }
  }

  /** The whole text is a number that is read as this datum. */
  ghost predicate NumberReads(text: string, bits: Bits64) { PrefixReads(text, true, |text|, bits) }

  /** An exponent without a sign or with a plus appends zeros to whole digits. */
  lemma RaisedWhole(w: string, mark: char, sign: string, digits: string, bits: Bits64)
    requires w != "" && AllDigits(w) && digits != "" && AllDigits(digits) && (mark == 'e' || mark == 'E')
    requires sign == "" || sign == "+"
    ensures NumberReads(w + [mark] + sign + digits, bits)
      <==> NumberReads(w + Zeros(DecimalValue(DigitsOf(digits))), bits)
  {
    var whole := w + Zeros(DecimalValue(DigitsOf(digits)));
    assert whole + "" == whole;
    PointMoved(w, mark, sign, digits, whole, false, "", bits);
    hide *;
  }

  /** An exponent with a minus puts the point that many places into the digits, zeros in front. */
  lemma LoweredWhole(w: string, mark: char, digits: string, whole: string, fraction: string, bits: Bits64)
    requires w != "" && AllDigits(w) && digits != "" && AllDigits(digits) && (mark == 'e' || mark == 'E')
    requires whole + fraction == Zeros(DecimalValue(DigitsOf(digits))) + w && |whole| == |w|
    ensures NumberReads(w + [mark] + "-" + digits, bits) <==> NumberReads(whole + "." + fraction, bits)
  {
    BothDigits(whole, fraction);
    assert AllDigits(Zeros(DecimalValue(DigitsOf(digits))) + w);
    PointMoved(w, mark, "-", digits, whole, true, fraction, bits);
    hide *;
    Assoc(whole, ".", fraction);
  }

  lemma BothDigits(a: string, b: string)
    requires AllDigits(a + b)
    ensures AllDigits(a) && AllDigits(b)
  {
    assert forall i :: 0 <= i < |a| ==> a[i] == (a + b)[i];
    assert forall i :: 0 <= i < |b| ==> b[i] == (a + b)[|a| + i];
  }

  lemma PointMoved(w: string, mark: char, sign: string, digits: string, whole: string, point: bool, fraction: string,
                   bits: Bits64)
    requires w != "" && AllDigits(w) && digits != "" && AllDigits(digits) && (mark == 'e' || mark == 'E')
    requires sign == "" || sign == "+" || sign == "-"
    requires whole != "" && AllDigits(whole) && AllDigits(fraction) && (!point ==> fraction == "")
    requires var n := DecimalValue(DigitsOf(digits));
      if sign == "-" then whole + fraction == Zeros(n) + w && |whole| == |w|
      else whole + fraction == w + Zeros(n) && |whole| == |w| + n
    ensures NumberReads(w + [mark] + sign + digits, bits)
      <==> NumberReads(whole + (if point then "." + fraction else ""), bits)
  {
    var p := Spelling("", "", w, false, "", Some((mark, sign, digits)));
    var q := Spelling("", "", whole, point, fraction, None);
    assert w + "" == w;
    ExponentMovesPoint(p, q, "", true, bits);
    assert p.Text() + "" == p.Text() && q.Text() + "" == q.Text();
    PlainTexts(p, q, w + [mark] + sign + digits, whole + (if point then "." + fraction else ""));
    hide *;
    hide NumberReads;
    NumberIs(p.Text(), bits);
    NumberIs(q.Text(), bits);
  }

  lemma NumberIs(text: string, bits: Bits64)
    ensures NumberReads(text, bits) <==> PrefixReads(text, true, |text|, bits)
  {
  }

  lemma PlainTexts(p: Spelling, q: Spelling, a: string, b: string)
    requires p.spaces == p.sign == "" && !p.point && p.exponent.Some?
    requires q.spaces == q.sign == "" && q.exponent.None?
    requires var (mark, sign, digits) := p.exponent.value; a == p.whole + [mark] + sign + digits
    requires b == q.whole + (if q.point then "." + q.fraction else "")
    ensures p.Text() == a && q.Text() == b
  {
    var (mark, sign, digits) := p.exponent.value;
    Assoc([mark], sign, digits);
    Assoc(p.whole, [mark], sign + digits);
    Assoc(p.whole + [mark], sign, digits);
    PlainText(p, "" + p.whole);
    PlainText(q, "" + q.whole);
    hide *;
  }

  lemma PlainText(p: Spelling, whole: string)
    requires p.spaces == p.sign == "" && whole == "" + p.whole
    ensures p.Text() == whole + (if p.point then "." + p.fraction else "") + p.ExponentText()
    ensures whole == p.whole
    ensures p.exponent.None? ==> p.Text() == whole + (if p.point then "." + p.fraction else "")
    ensures !p.point ==> p.Text() == whole + p.ExponentText()
  {
    assert p.exponent.None? ==> p.ExponentText() == "";
    hide Spelling.ExponentText;
    assert "" + "" == "";
  }
}
