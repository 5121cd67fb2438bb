/** What a written quantity is worth, read off its characters. */
module WrittenQuantities {
  import opened Wrappers
  import opened Powers
  import opened MachineIntegers
  import opened Ascii
  import opened Texts
  import opened DecimalDigits
  import opened DecimalText
  import opened ExactDecimal
  import opened WrittenNumbers
  import opened Quantity

  /** A number as a quantity takes it: no spaces in front, no minus sign. */
  ghost predicate Unsigned(p: Spelling) { p.WellFormed(true) && p.spaces == "" && p.sign != "-" }

  lemma UnsignedReads(p: Spelling)
    requires Unsigned(p)
    ensures ReadNumber(p.Text()) == Some(p.Meaning())
  {
    ScanReadsSpelling(p, "", true);
    MeaningOfParts(p);
    FirstCharacter(p);
    hide Scan;
    hide Spelling.Meaning;
    assert p.Text() + "" == p.Text();
    hide Spelling.Text;
  }

  lemma FirstCharacter(p: Spelling)
    requires Unsigned(p)
    ensures !IsSpace(At(p.Text(), 0)) && At(p.Text(), 0) != '-'
  {
    var dotted := if p.point then "." + p.fraction else "";
    var rest := p.whole + dotted;
    assert p.Text() == p.sign + (rest + p.ExponentText()) by {
      Assoc(p.sign, p.whole, dotted);
      Assoc(p.sign, rest, p.ExponentText());
      assert "" + p.sign == p.sign;
    }
    assert rest != "" by {
      assert p.whole == "" ==> p.point;
    }
    FirstOfRest(p, rest);
    if p.sign == "" {
      assert p.Text() == rest + p.ExponentText();
      assert p.Text()[0] == rest[0];
    } else {
      assert p.Text()[0] == p.sign[0] == '+';
    }
  }

  lemma FirstOfRest(p: Spelling, rest: string)
    requires p.WellFormed(true) && rest != "" && rest == p.whole + if p.point then "." + p.fraction else ""
    ensures IsDigit(rest[0]) || rest[0] == '.'
  {
    if p.whole != "" {
      assert rest[0] == p.whole[0];
    }
  }

  /** What the quantity is worth: digits * 1024^power * 10^right == v * 10^left. */
  ghost predicate Worth(p: Spelling, power: nat, v: nat) {
    WrittenDigits(p) * Pow(1024, power) * Pow(10, PlacesRight(p)) == v * Pow(10, PlacesLeft(p))
  }

  lemma WorthIs(p: Spelling, power: nat, v: nat)
    requires p.WellFormed(true)
    ensures Reading(p.Meaning(), power).Is(v) <==> Worth(p, power, v)
  {
    MeaningOfParts(p);
    hide *;
    hide Spelling.Meaning;
    WorthOf(Reading(p.Meaning(), power), p, power, v);
  }

  lemma WorthOf(r: Reading, p: Spelling, power: nat, v: nat)
    requires r.power == power && r.number.Coefficient() == WrittenDigits(p)
    requires r.number.Exponent() == PlacesRight(p) - PlacesLeft(p)
    ensures r.Is(v) <==> Worth(p, power, v)
  {
    hide WrittenDigits;
    hide PlacesRight;
    hide PlacesLeft;
    hide Token.Coefficient;
    hide Token.Exponent;
    ExactByParts(ScaledCoefficient(WrittenDigits(p), power), PlacesRight(p), PlacesLeft(p), v);
    hide Pow;
    hide ExactInteger;
  }

  /** Powers of ten common to both sides cancel. */
  lemma ExactByParts(n: nat, right: nat, left: nat, v: nat)
    ensures ExactInteger(n, right - left, v) <==> n * Pow(10, right) == v * Pow(10, left)
  {
    hide *;
    if right < left {
      MoreLeft(n, right, left - right, v);
    } else {
      MoreRight(n, right - left, left, v);
    }
  }

  lemma MoreLeft(n: nat, right: nat, d: nat, v: nat)
    ensures ExactInteger(n, -(d as int), v) <==> n * Pow(10, right) == v * Pow(10, right + d)
  {
    hide Pow;
    PowZero(10);
    PowStep(10, d);
    PowAdd(10, d, right);
    PowStep(10, right);
    CommonFactor(n, v, 1, Pow(10, d), Pow(10, right));
  }

  lemma MoreRight(n: nat, d: nat, left: nat, v: nat)
    ensures ExactInteger(n, d, v) <==> n * Pow(10, left + d) == v * Pow(10, left)
  {
    hide Pow;
    PowZero(10);
    PowStep(10, d);
    PowAdd(10, d, left);
    PowStep(10, left);
    CommonFactor(n, v, Pow(10, d), 1, Pow(10, left));
  }

  lemma CommonFactor(n: nat, v: nat, x: nat, y: nat, c: nat)
    requires c > 0
    ensures n * x == v * y <==> n * (x * c) == v * (y * c)
  {
    MulAssoc(n, x, c);
    MulAssoc(v, y, c);
    MulCancel(n * x, v * y, c);
  }

  /** The whole contract on the characters: a number with an optional suffix is read as v exactly when v
      fits and is what digits, exponent and suffix are worth. */
  lemma WrittenIsWorth(before: string, p: Spelling, gap: string, suffix: string, after: string, power: nat, v: nat)
    requires AllSpaces(before) && AllSpaces(gap) && AllSpaces(after) && Unsigned(p)
    requires AllAlpha(suffix) && StandsFor(Lowered(suffix), power)
    ensures QuantityReads(before + (p.Text() + (gap + (suffix + after))), v) <==> v <= U64_MAX && Worth(p, power, v)
  {
    UnsignedReads(p);
    SuffixMeans(suffix, power);
    WorthIs(p, power, v);
    hide *;
    hide Spelling.Text;
    hide Spelling.Meaning;
    ReadRecovers(before, p.Text(), gap, suffix, after);
    ReadsWorth(before + (p.Text() + (gap + (suffix + after))), p, power, v);
  }

  lemma ReadsWorth(text: string, p: Spelling, power: nat, v: nat)
    requires Read(text) == Some(Reading(p.Meaning(), power))
    requires Reading(p.Meaning(), power).Is(v) <==> Worth(p, power, v)
    ensures QuantityReads(text, v) <==> v <= U64_MAX && Worth(p, power, v)
  {
    hide Read;
    hide Worth;
    hide Reading.Is;
    hide Spelling.Meaning;
  }

  /** And nothing else is read: whatever is accepted is written that way. */
  lemma ReadsOnlyWritten(text: string, v: nat)
    returns (before: string, p: Spelling, gap: string, suffix: string, after: string, power: nat)
    requires QuantityReads(text, v)
    ensures AllSpaces(before) && AllSpaces(gap) && AllSpaces(after) && Unsigned(p)
    ensures AllAlpha(suffix) && StandsFor(Lowered(suffix), power)
    ensures text == before + (p.Text() + (gap + (suffix + after)))
  {
    hide Read;
    var number;
    before, number, gap, suffix, after := ReadIsWritten(text);
    p := NumberIsSpelling(number);
    power := SuffixPower(suffix, 0).value;
    SuffixMeans(suffix, power);
    hide SuffixPower;
    hide StandsFor;
    hide Lowered;
    NumberUnsigned(p, number);
  }

  lemma NumberUnsigned(p: Spelling, number: string)
    requires p.WellFormed(true) && p.Text() == number && ReadNumber(number).Some?
    ensures Unsigned(p)
  {
    LeadingParts(p);
    hide Scan;
    hide Spelling.Text;
  }

  lemma LeadingParts(p: Spelling)
    ensures p.spaces != "" ==> p.Text() != "" && p.Text()[0] == p.spaces[0]
    ensures p.spaces == "" && p.sign != "" ==> p.Text() != "" && p.Text()[0] == p.sign[0]
  {
    hide Spelling.ExponentText;
  }

  /** In particular n with a suffix of power p is n * 1024^p, accepted whenever that fits. */
  lemma WholeWithSuffix(w: string, suffix: string, power: nat, v: nat)
    requires w != "" && AllDigits(w) && AllAlpha(suffix) && StandsFor(Lowered(suffix), power)
    ensures QuantityReads(w + suffix, v) <==> v <= U64_MAX && v == DecimalValue(DigitsOf(w)) * Pow(1024, power)
  {
    var p := Spelling("", "", w, false, "", None);
    PlainText(p, w);
    assert "" + w == w && w + "" == w;
    hide *;
    WrittenIsWorth("", p, "", suffix, "", power, v);
    WholeWorth(p, w, power, v);
    NoGaps(w, suffix);
  }

  lemma NoGaps(w: string, suffix: string)
    ensures "" + (w + ("" + (suffix + ""))) == w + suffix
  {
  }

  lemma WholeWorth(p: Spelling, w: string, power: nat, v: nat)
    requires p.whole == w && p.fraction == "" && p.exponent.None?
    ensures Worth(p, power, v) <==> v == DecimalValue(DigitsOf(w)) * Pow(1024, power)
  {
    assert w + "" == w;
    hide Pow;
    hide DecimalValue;
    hide DigitsOf;
    PowZero(10);
  }

  /** A written exponent moves the point, whatever suffix follows. */
  lemma ExponentMovesPoint(before: string, p: Spelling, q: Spelling, gap: string, suffix: string, after: string,
                           power: nat, v: nat)
    requires AllSpaces(before) && AllSpaces(gap) && AllSpaces(after) && Unsigned(p) && Unsigned(q) && WrittenOut(p, q)
    requires AllAlpha(suffix) && StandsFor(Lowered(suffix), power)
    ensures QuantityReads(before + (p.Text() + (gap + (suffix + after))), v)
      <==> QuantityReads(before + (q.Text() + (gap + (suffix + after))), v)
  {
    WrittenIsWorth(before, p, gap, suffix, after, power, v);
    WrittenIsWorth(before, q, gap, suffix, after, power, v);
    WrittenOutParts(p, q);
    hide *;
    WorthMoved(p, q, power, v);
  }

  lemma WorthMoved(p: Spelling, q: Spelling, power: nat, v: nat)
    requires PlacesRight(q) == 0 && PlacesLeft(q) == PlacesLeft(p)
    requires WrittenDigits(q) == WrittenDigits(p) * Pow(10, PlacesRight(p))
    ensures Worth(p, power, v) <==> Worth(q, power, v)
  {
    hide Pow;
    hide WrittenDigits;
    hide PlacesRight;
    hide PlacesLeft;
    PowZero(10);
    MulAssoc(WrittenDigits(p), Pow(10, PlacesRight(p)), Pow(1024, power));
    MulAssoc(WrittenDigits(p), Pow(1024, power), Pow(10, PlacesRight(p)));
  }
}
