/** Correctly rounded parsing of decimal text of any length. */
module ParseDouble {
  import opened Wrappers
  import opened Powers
  import opened Ascii
  import opened Rounding
  import opened Binary64
  import opened DecimalDigits
  import opened DecimalExponents
  import opened DecimalText
  import opened ExactDecimal
  import opened DecimalToBinary

  /** The largest object C can hold. */
  const TEXT_LIMIT: nat := 0x7FFF_FFFF_FFFF_FFFF

  /** The first 800 significant digits, and what became of the others. */
  class DigitBuffer {
    const digits: array<Digit>
    var kept: nat
    var significant: nat
    var discardedNonzero: bool
    var sawNonzero: bool

    /** The buffer summarises the digits read so far. */
    ghost predicate Summarises(read: seq<Digit>)
      reads this, digits
    {
      var s := Significant(read);
      && digits.Length == KEPT_DIGITS
      && significant == |s|
      && kept == (if |s| < KEPT_DIGITS then |s| else KEPT_DIGITS)
      && digits[..kept] == s[..kept]
      && (sawNonzero <==> s != [])
      && (discardedNonzero <==> DecimalValue(s[kept..]) != 0)
    }

    constructor ()
      ensures Summarises([]) && fresh(digits)
    {
      digits := new Digit[KEPT_DIGITS](_ => 0);
      kept, significant, discardedNonzero, sawNonzero := 0, 0, false, false;
    }

    method Accept(digit: Digit, ghost read: seq<Digit>)
      requires Summarises(read)
      modifies this, digits
      ensures Summarises(read + [digit])
    {
      ghost var s := Significant(read);
      SignificantPush(read, digit);
      if !sawNonzero && digit != 0 {
        sawNonzero := true;
      }
      if sawNonzero {
        significant := significant + 1;
        if kept < KEPT_DIGITS {
          digits[kept] := digit;
          kept := kept + 1;
          assert (s + [digit])[..kept] == s + [digit] && (s + [digit])[kept..] == [];
        } else {
          if digit != 0 {
            discardedNonzero := true;
          }
          assert (s + [digit])[kept..] == s[kept..] + [digit];
          PushDigit(s[kept..], digit);
          assert (s + [digit])[..kept] == s[..kept];
        }
      }
    }

    /** Consume a run of digits; the cursor stops where the run ends. */
    method ConsumeDigits(text: string, start: nat, ghost read: seq<Digit>) returns (cursor: nat)
      requires start <= |text| && Summarises(read)
      modifies this, digits
      ensures cursor == DigitEnd(text, start)
      ensures Summarises(read + DigitsOf(text[start..cursor]))
    {
      hide Summarises;
      cursor := start;
      assert read + DigitsOf(text[start..cursor]) == read;
      while IsDigit(At(text, cursor))
        invariant start <= cursor <= |text|
        invariant DigitEnd(text, cursor) == DigitEnd(text, start)
        invariant Summarises(read + DigitsOf(text[start..cursor]))
        decreases |text| - cursor
      {
        var digit := DigitValue(At(text, cursor));
        ghost var before := read + DigitsOf(text[start..cursor]);
        Accept(digit, before);
        cursor := cursor + 1;
        assert read + DigitsOf(text[start..cursor]) == before + [digit];
      }
    }

    /** Strip trailing zeros off the kept digits. */
    method StripTrailingZeros() returns (stripped: nat)
      requires digits.Length == KEPT_DIGITS && kept <= KEPT_DIGITS
      modifies this`kept
      ensures kept + stripped == old(kept)
      ensures old(kept) > 0 && digits[0] != 0 ==> kept > 0
      ensures digits[..kept] == old(digits[..kept])[..kept]
      ensures DecimalValue(old(digits[..kept])) == DecimalValue(digits[..kept]) * Pow(10, stripped)
    {
      hide Pow;
      PowZero(10);
      stripped := 0;
      ghost var all: seq<Digit> := digits[..kept];
      assert digits[..kept] == all;
      while kept > 0 && digits[kept - 1] == 0
        invariant kept <= KEPT_DIGITS && kept + stripped == |all|
        invariant |all| > 0 && digits[0] != 0 ==> kept > 0
        invariant digits[..kept] == all[..kept]
        invariant DecimalValue(all) == DecimalValue(digits[..kept]) * Pow(10, stripped)
      {
        StripOne(digits[..kept], stripped);
        assert digits[..kept][..kept - 1] == digits[..kept - 1];
        kept := kept - 1;
        stripped := stripped + 1;
      }
    }
  }

  lemma StripOne(s: seq<Digit>, stripped: nat)
    requires |s| > 0 && s[|s| - 1] == 0
    ensures DecimalValue(s) * Pow(10, stripped) == DecimalValue(s[..|s| - 1]) * Pow(10, stripped + 1)
  {
    MulAssoc(DecimalValue(s[..|s| - 1]), 10, Pow(10, stripped));
  }

  /** The exponent part: its digits are all consumed, however large the magnitude. */
  method ParseDecimalExponent(text: string, start: nat)
    returns (ok: bool, negative: bool, magnitude: Size, overflowed: bool, cursor: nat)
    requires start <= |text|
    ensures ok <==> ScanExponent(text, start).Some?
    ensures ok ==>
      var (n, digits, end) := ScanExponent(text, start).value;
      && negative == n && cursor == end
      && (overflowed <==> DecimalValue(DigitsOf(digits)) > SIZE_MAX)
      && (!overflowed ==> magnitude == DecimalValue(DigitsOf(digits)))
  {
    cursor := start;
    negative, magnitude, overflowed := false, 0, false;
    if At(text, cursor) != 'e' && At(text, cursor) != 'E' {
      assert DigitsOf("") == [];
      return true, negative, magnitude, overflowed, cursor;
    }
    cursor := cursor + 1;
    if At(text, cursor) == '+' || At(text, cursor) == '-' {
      negative := At(text, cursor) == '-';
      cursor := cursor + 1;
    }
    if !IsDigit(At(text, cursor)) {
      return false, negative, magnitude, overflowed, cursor;
    }
    negative, magnitude, overflowed, cursor := ConsumeExponentDigits(text, cursor, negative);
    ok := true;
  }

  /** The magnitude of the exponent digits read so far, or that it exceeds a size_t. */
  ghost predicate Tracks(read: seq<Digit>, magnitude: Size, overflowed: bool) {
    && (overflowed <==> DecimalValue(read) > SIZE_MAX)
    && (!overflowed ==> magnitude == DecimalValue(read))
  }

  method ConsumeExponentDigits(text: string, first: nat, negativeIn: bool)
    returns (negative: bool, magnitude: Size, overflowed: bool, cursor: nat)
    requires first <= |text|
    ensures negative == negativeIn && cursor == DigitEnd(text, first)
    ensures Tracks(DigitsOf(text[first..cursor]), magnitude, overflowed)
  {
    hide Tracks;
    negative, magnitude, overflowed, cursor := negativeIn, 0, false, first;
    assert DigitsOf(text[first..cursor]) == [];
    hide DigitsOf;
    hide DigitEnd;
    hide DigitValue;
    TracksEmpty();
    while IsDigit(At(text, cursor))
      invariant first <= cursor <= |text|
      invariant DigitEnd(text, cursor) == DigitEnd(text, first)
      invariant Tracks(DigitsOf(text[first..cursor]), magnitude, overflowed)
      decreases |text| - cursor
    {
      var digit := DigitValue(At(text, cursor));
      ghost var before := DigitsOf(text[first..cursor]);
      DigitEndStep(text, cursor);
      NextDigit(text, first, cursor);
      TracksStep(before, digit, magnitude, overflowed);
      if !overflowed {
        if magnitude > (SIZE_MAX - digit) / 10 {
          overflowed := true;
        } else {
          magnitude := magnitude * 10 + digit;
        }
      }
      cursor := cursor + 1;
    }
    DigitEndStep(text, cursor);
  }

  lemma DigitEndStep(text: string, i: nat)
    requires i <= |text|
    ensures DigitEnd(text, i) == if IsDigit(At(text, i)) then DigitEnd(text, i + 1) else i
    ensures IsDigit(At(text, i)) ==> i < |text|
  {
  }

  lemma NextDigit(text: string, first: nat, i: nat)
    requires first <= i < |text|
    ensures DigitsOf(text[first..i + 1]) == DigitsOf(text[first..i]) + [DigitValue(At(text, i))]
  {
  }

  lemma TracksEmpty()
    ensures Tracks([], 0, false)
  {
  }

  lemma TracksStep(read: seq<Digit>, digit: Digit, magnitude: Size, overflowed: bool)
    requires Tracks(read, magnitude, overflowed)
    ensures overflowed || magnitude > (SIZE_MAX - digit) / 10 ==> Tracks(read + [digit], magnitude, true)
    ensures !overflowed && magnitude <= (SIZE_MAX - digit) / 10 ==>
      magnitude * 10 + digit <= SIZE_MAX && Tracks(read + [digit], magnitude * 10 + digit, false)
  {
    PushDigit(read, digit);
  }

  /** A nonzero value whose exponent is out of any size_t's reach, given text that fits in memory,
      over- or underflows. */
  lemma ExponentOutOfReach(m: nat, digits: nat, e: int, slack: nat)
    requires 0 < m < Pow(10, digits) && digits <= TEXT_LIMIT && slack <= TEXT_LIMIT
    requires e + slack > SIZE_MAX || e + TEXT_LIMIT + 400 < 0
    ensures !RoundsToNonzeroFinite(m, e)
  {
    hide Pow;
    hide RoundedDecimal;
    hide OverflowUnits;
    PowZero(10);
    if e + slack > SIZE_MAX {
      LargeOrderOverflows(m, e, e);
    } else {
      SmallOrderVanishes(m, e, e + digits - 1);
    }
  }

  lemma ZeroRounds(e: int)
    ensures RoundedDecimal(0, e) == 0
  {
    hide Pow;
    hide UnitsPerOne;
    RoundsToZero(0, UnitsDenominator(e), RoundedDecimal(0, e));
  }

  /** What the text denotes, when it denotes anything. */
  ghost predicate Parses(t: Token, bits: Bits64) {
    Denotes(bits, t.negative, RoundedDecimal(t.Coefficient(), t.Exponent()))
  }

  /** Zero, or a value that rounds to a nonzero finite datum. */
  ghost predicate InDoubleRange(t: Token) {
    t.Coefficient() == 0 || RoundsToNonzeroFinite(t.Coefficient(), t.Exponent())
  }

  /** The numeral at the front of a text ends there and is read as this datum. */
  ghost predicate PrefixReads(text: string, allowSign: bool, end: nat, bits: Bits64) {
    var scanned := Scan(text, allowSign);
    scanned.Some? && scanned.value.end == end && InDoubleRange(scanned.value) && Parses(scanned.value, bits)
  }

  /** Cutting the significant digits after the kept ones is a truncation with a sticky tail. */
  lemma TruncateSignificant(s: seq<Digit>, kept: nat, sticky: bool)
    requires kept <= |s| && (sticky <==> DecimalValue(s[kept..]) != 0)
    ensures Truncates(DecimalValue(s[..kept]), sticky, DecimalValue(s), |s| - kept)
  {
    hide Pow;
    assert s == s[..kept] + s[kept..];
    DecimalConcat(s[..kept], s[kept..]);
    DecimalBelow(s[kept..]);
    DivModUnique(DecimalValue(s), Pow(10, |s| - kept), DecimalValue(s[..kept]), DecimalValue(s[kept..]));
  }

  /** Without a tail, zeros can be stripped off the truncated coefficient as well. */
  lemma TruncateZeros(c: nat, c': nat, m: nat, d: nat, z: nat)
    requires Truncates(c, false, m, d) && c == c' * Pow(10, z)
    ensures Truncates(c', false, m, d + z)
  {
    hide Pow;
    TruncationBounds(c, false, m, d);
    PowStep(10, d);
    PowStep(10, d + z);
    PowAdd(10, z, d);
    MulAssoc(c', Pow(10, z), Pow(10, d));
    DivModUnique(m, Pow(10, d + z), c', 0);
  }

  /** The parsed datum is at least as near to the text's exact value, coefficient * 10^exponent, as
      any finite datum, and is the even one on a tie. */
  lemma ParsedIsNearest(t: Token, bits: Bits64, other: Bits64)
    requires Parses(t, bits) && Finite(other)
    ensures Finite(bits) && Negative(bits) == t.negative
    ensures var x, y := UnitsNumerator(t.Coefficient(), t.Exponent()), UnitsDenominator(t.Exponent());
      var mine, theirs := Distance(Magnitude(bits) * y, x), Distance(Magnitude(other) * y, x);
      mine <= theirs && (mine == theirs && Magnitude(other) != Magnitude(bits) ==> bits % 2 == 0)
  {
    hide Pow;
    hide UnitsNumerator;
    hide UnitsDenominator;
    hide Magnitude;
    RoundedDatumIsNearest(bits, UnitsNumerator(t.Coefficient(), t.Exponent()), UnitsDenominator(t.Exponent()), other);
  }

  method SkipSpaces(text: string, start: nat) returns (cursor: nat)
    requires start <= |text|
    ensures cursor == SpaceEnd(text, start)
  {
    cursor := start;
    while IsSpace(At(text, cursor))
      invariant start <= cursor <= |text| && SpaceEnd(text, cursor) == SpaceEnd(text, start)
      decreases |text| - cursor
    {
      cursor := cursor + 1;
    }
  }

  /** The scanning half of parse_double_prefix. */
  method ReadNumeral(text: string, allowSign: bool, buffer: DigitBuffer)
    returns (ok: bool, negative: bool, fractionalDigits: nat, exponentNegative: bool,
             exponentMagnitude: Size, exponentOverflowed: bool, end: nat)
    requires buffer.Summarises([])
    modifies buffer, buffer.digits
    ensures ok <==> Scan(text, allowSign).Some?
    ensures ok ==>
      var t := Scan(text, allowSign).value;
      && buffer.Summarises(t.Digits())
      && negative == t.negative && fractionalDigits == |t.fraction| && end == t.end
      && exponentNegative == t.exponentNegative
      && Tracks(DigitsOf(t.exponentDigits), exponentMagnitude, exponentOverflowed)
  {
    hide SpaceEnd;
    hide DigitEnd;
    hide Scan;
    hide ScanExponent;
    hide DigitsOf;
    var i := SkipSpaces(text, 0);
    ok, negative, fractionalDigits := false, false, 0;
    exponentNegative, exponentMagnitude, exponentOverflowed, end := false, 0, false, 0;
    var w := i;
    var signed := At(text, i) == '+' || At(text, i) == '-';
    if signed {
      negative := At(text, i) == '-';
      w := i + 1;
    }
    var we, f, fe := ReadDigits(text, w, buffer);
    ScanFromStops(text, allowSign, i, w, we, f, fe);
    if (signed && !allowSign) || (we == w && fe == f) {
      return;
    }
    fractionalDigits := fe - f;
    ok, exponentNegative, exponentMagnitude, exponentOverflowed, end := ParseDecimalExponent(text, fe);
  }

  /** Whole and fractional digits. */
  method ReadDigits(text: string, w: nat, buffer: DigitBuffer) returns (we: nat, f: nat, fe: nat)
    requires w <= |text| && buffer.Summarises([])
    modifies buffer, buffer.digits
    ensures w <= we <= f <= fe <= |text|
    ensures we == DigitEnd(text, w)
    ensures f == if At(text, we) == '.' then we + 1 else we
    ensures fe == if At(text, we) == '.' then DigitEnd(text, f) else we
    ensures buffer.Summarises(DigitsOf(text[w..we]) + DigitsOf(text[f..fe]))
  {
    hide DigitEnd;
    we := buffer.ConsumeDigits(text, w, []);
    ghost var whole := DigitsOf(text[w..we]);
    assert [] + whole == whole;
    f, fe := we, we;
    if At(text, we) == '.' {
      f := we + 1;
      fe := buffer.ConsumeDigits(text, f, whole);
    } else {
      assert DigitsOf(text[f..fe]) == [];
      assert whole + [] == whole;
    }
  }

  /** parse_double_prefix: accepts exactly the numerals of the grammar that are zero or round to a
      nonzero finite datum, consumes exactly the numeral, and rounds all its digits correctly. */
  method ParseDoublePrefix(text: string, allowSign: bool) returns (r: Option<(nat, Bits64)>)
    requires |text| <= TEXT_LIMIT
    ensures r.Some? <==> Scan(text, allowSign).Some? && InDoubleRange(Scan(text, allowSign).value)
    ensures r.Some? ==> r.value.0 == Scan(text, allowSign).value.end && Parses(Scan(text, allowSign).value, r.value.1)
    ensures r.Some? ==> PrefixReads(text, allowSign, r.value.0, r.value.1)
    ensures r.None? ==> forall end, bits :: !PrefixReads(text, allowSign, end, bits)
  {
    var buffer := new DigitBuffer();
    var ok, negative, fractionalDigits, exponentNegative, exponentMagnitude, exponentOverflowed, end :=
      ReadNumeral(text, allowSign, buffer);
    if !ok {
      return None;
    }
    TokenFits(text, allowSign);
    hide *;
    var bits := ConvertDigits(buffer, Scan(text, allowSign).value, negative, fractionalDigits,
                              exponentNegative, exponentMagnitude, exponentOverflowed);
    if bits.None? {
      return None;
    }
    return Some((end, bits.value));
  }

  lemma TokenFits(text: string, allowSign: bool)
    requires Scan(text, allowSign).Some? && |text| <= TEXT_LIMIT
    ensures |Scan(text, allowSign).value.Digits()| <= TEXT_LIMIT
    ensures |Scan(text, allowSign).value.fraction| <= TEXT_LIMIT
  {
  }

  /** From the summarised digits and the exponent to the datum. */
  method ConvertDigits(buffer: DigitBuffer, ghost t: Token, negative: bool, fractionalDigits: Size,
                       exponentNegative: bool, exponentMagnitude: Size, exponentOverflowed: bool)
    returns (r: Option<Bits64>)
    requires buffer.Summarises(t.Digits()) && |t.Digits()| <= TEXT_LIMIT
    requires negative == t.negative && fractionalDigits == |t.fraction| && exponentNegative == t.exponentNegative
    requires Tracks(DigitsOf(t.exponentDigits), exponentMagnitude, exponentOverflowed)
    modifies buffer
    ensures r.Some? <==> InDoubleRange(t)
    ensures r.Some? ==> Parses(t, r.value)
  {
    hide Pow;
    hide RoundedDecimal;
    hide OverflowUnits;
    hide DecimalValue;
    hide Truncates;
    hide Denotes;
    ghost var s := Significant(t.Digits());
    ghost var m, e := t.Coefficient(), t.Exponent();
    SignificantValue(t.Digits());
    if !buffer.sawNonzero {
      EmptyValue();
      ZeroRounds(e);
      ZeroDatum(negative);
      return Some(if negative then SIGN_BIT else 0);
    }
    DecimalAtLeast(s);
    DecimalBelow(s);
    PowStep(10, |s| - 1);
    if exponentOverflowed {
      ExponentOutOfReach(m, |s|, e, fractionalDigits);
      return None;
    }
    var sticky := buffer.discardedNonzero;
    var positiveAdjustment := TruncateTail(buffer, t.Digits());
    var exponent := Combine(exponentNegative, exponentMagnitude, fractionalDigits, positiveAdjustment);
    if exponent.None? {
      assert e + positiveAdjustment > SIZE_MAX || e + positiveAdjustment + SIZE_MAX < 0;
      ExponentOutOfReach(m, |s|, e, positiveAdjustment);
      return None;
    }
    r := Binary64FromDecimal(buffer.digits, buffer.kept, sticky, exponent.value, negative, m, positiveAdjustment);
  }

  /** How many digits the kept ones leave out: those discarded, and the trailing zeros stripped off
      when nothing nonzero was discarded. */
  method TruncateTail(buffer: DigitBuffer, ghost read: seq<Digit>) returns (positiveAdjustment: nat)
    requires buffer.Summarises(read) && buffer.sawNonzero
    modifies buffer`kept
    ensures 0 < buffer.kept <= KEPT_DIGITS == buffer.digits.Length
    ensures buffer.digits[0] != 0
    ensures positiveAdjustment <= |Significant(read)|
    ensures Truncates(DecimalValue(buffer.digits[..buffer.kept]), buffer.discardedNonzero,
                      DecimalValue(Significant(read)), positiveAdjustment)
    ensures buffer.discardedNonzero ==> buffer.kept == KEPT_DIGITS
  {
    hide Pow;
    hide DecimalValue;
    hide Truncates;
    ghost var s := Significant(read);
    EmptyValue();
    assert |s| <= KEPT_DIGITS ==> s[buffer.kept..] == [];
    assert buffer.digits[0] == buffer.digits[..buffer.kept][0] == s[0];
    TruncateSignificant(s, buffer.kept, buffer.discardedNonzero);
    positiveAdjustment := buffer.significant - buffer.kept;
    if !buffer.discardedNonzero {
      ghost var c := DecimalValue(buffer.digits[..buffer.kept]);
      var stripped := buffer.StripTrailingZeros();
      TruncateZeros(c, DecimalValue(buffer.digits[..buffer.kept]), DecimalValue(s), positiveAdjustment, stripped);
      positiveAdjustment := positiveAdjustment + stripped;
    }
  }

  lemma EmptyValue()
    ensures DecimalValue([]) == 0
  {
  }

  lemma ZeroDatum(negative: bool)
    ensures Denotes(if negative then SIGN_BIT else 0, negative, 0)
  {
    FieldsOf(0, 0, negative);
  }

  /** infiltratr_parse_double_token: on success the cursor moves past the numeral; on failure cursor
      and value are what they were. */
  method ParseDoubleToken(text: string, cursorIn: nat, valueIn: Bits64, allowSign: bool)
    returns (ok: bool, cursor: nat, value: Bits64)
    requires cursorIn <= |text| <= TEXT_LIMIT
    ensures var scanned := Scan(text[cursorIn..], allowSign);
      ok <==> scanned.Some? && InDoubleRange(scanned.value)
    ensures ok ==> var t := Scan(text[cursorIn..], allowSign).value; cursor == cursorIn + t.end && Parses(t, value)
    ensures !ok ==> cursor == cursorIn && value == valueIn
  {
    hide Parses;
    hide InDoubleRange;
    hide Scan;
    ok, cursor, value := false, cursorIn, valueIn;
    var parsed := ParseDoublePrefix(text[cursorIn..], allowSign);
    if parsed.Some? {
      ok, cursor, value := true, cursorIn + parsed.value.0, parsed.value.1;
    }
  }

  /** infiltratr_parse_double: the whole text is one numeral between spaces. */
  method ParseDoubleText(text: string, valueIn: Bits64) returns (ok: bool, value: Bits64)
    requires |text| <= TEXT_LIMIT && '\0' !in text
    ensures var scanned := Scan(text, true);
      ok <==> (scanned.Some? && InDoubleRange(scanned.value) && AllSpaces(text[scanned.value.end..]))
    ensures ok ==> Parses(Scan(text, true).value, value)
    ensures !ok ==> value == valueIn
  {
    hide Parses;
    hide InDoubleRange;
    hide Scan;
    ok, value := false, valueIn;
    var parsed := ParseDoublePrefix(text, true);
    if parsed.None? {
      return;
    }
    var end := SkipSpaces(text, parsed.value.0);
    SpaceEndUniqueAtEnd(text, parsed.value.0);
    if At(text, end) != '\0' {
      return;
    }
    ok, value := true, parsed.value.1;
  }

  lemma SpaceEndUniqueAtEnd(text: string, start: nat)
    requires start <= |text| && '\0' !in text
    ensures At(text, SpaceEnd(text, start)) == '\0' <==> AllSpaces(text[start..])
  {
    var e := SpaceEnd(text, start);
    if e == |text| {
      assert text[start..e] == text[start..];
    } else {
      assert text[start..][e - start] == text[e];
    }
  }
}
