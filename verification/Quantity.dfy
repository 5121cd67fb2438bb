/** Exact parsing of binary quantities such as "1.5 KiB" into whole bytes. */
module Quantity {
  import opened Wrappers
  import opened Powers
  import opened Ascii
  import opened MachineIntegers
  import opened DecimalDigits
  import opened DecimalExponents
  import opened DecimalText
  import opened DecimalIntegers
  import opened ExactDecimal
  import opened ParseDouble

  const MAX_POWER: nat := 6

  const SHORT_NAMES: seq<string> := ["", "k", "m", "g", "t", "p", "e"]
  const BYTE_NAMES: seq<string> := ["b", "kb", "mb", "gb", "tb", "pb", "eb"]
  const IEC_NAMES: seq<string> := ["b", "kib", "mib", "gib", "tib", "pib", "eib"]

  /** The power of 1024 a suffix stands for, case-insensitively. */
  function SuffixPower(suffix: string, from: nat): (p: Option<nat>)
    requires from <= 7
    ensures p.Some? ==> p.value <= MAX_POWER
    decreases 7 - from
  {
    if from == 7 then None
    else if Lowered(suffix) == SHORT_NAMES[from] || Lowered(suffix) == BYTE_NAMES[from] || Lowered(suffix) == IEC_NAMES[from]
    then Some(from)
    else SuffixPower(suffix, from + 1)
  }

  /** A lower-case suffix for a power of 1024: nothing or "b" for bytes, else one of the letters k to e
      alone or followed by "b" or "ib". */
  predicate StandsFor(s: string, power: nat) {
    if power == 0 then s == "" || s == "b"
    else power <= 6 && s != "" && s[0] == "kmgtpe"[power - 1] && (s[1..] == "" || s[1..] == "b" || s[1..] == "ib")
  }

  lemma NamesStandFor(s: string, i: nat)
    requires i <= 6
    ensures s == SHORT_NAMES[i] || s == BYTE_NAMES[i] || s == IEC_NAMES[i] <==> StandsFor(s, i)
  {
    if i > 0 {
      var c := "kmgtpe"[i - 1];
      assert SHORT_NAMES[i] == [c] && BYTE_NAMES[i] == [c] + "b" && IEC_NAMES[i] == [c] + "ib" by {
        NameLetters(i);
      }
      hide *;
      LetterThenRest(s, c);
    } else {
      assert SHORT_NAMES[0] == "" && BYTE_NAMES[0] == "b" && IEC_NAMES[0] == "b";
    }
  }

  lemma NameLetters(i: nat)
    requires 0 < i <= 6
    ensures var c := "kmgtpe"[i - 1];
      SHORT_NAMES[i] == [c] && BYTE_NAMES[i] == [c] + "b" && IEC_NAMES[i] == [c] + "ib"
  {
  }

  lemma LetterThenRest(s: string, c: char)
    ensures s == [c] || s == [c] + "b" || s == [c] + "ib"
      <==> s != "" && s[0] == c && (s[1..] == "" || s[1..] == "b" || s[1..] == "ib")
  {
    if s != "" {
      assert s == [s[0]] + s[1..];
      assert ([c] + "b")[1..] == "b" && ([c] + "ib")[1..] == "ib";
    }
  }

  /** The powers of the suffixes, without the tables: the p-th letter of k, m, g, t, p, e in either case,
      optionally followed by b or ib, stands for 1024^p, and nothing else does. */
  lemma SuffixMeans(suffix: string, power: nat)
    ensures SuffixPower(suffix, 0) == Some(power) <==> StandsFor(Lowered(suffix), power)
  {
    SuffixFrom(suffix, 0);
    if StandsFor(Lowered(suffix), power) {
      OnePower(Lowered(suffix), power, SuffixPower(suffix, 0).value);
    }
  }

  lemma OnePower(s: string, p: nat, q: nat)
    requires StandsFor(s, p) && StandsFor(s, q)
    ensures p == q
  {
  }

  lemma {:induction false} SuffixFrom(suffix: string, from: nat)
    requires from <= 7
    ensures var p := SuffixPower(suffix, from);
      && (p.Some? ==> StandsFor(Lowered(suffix), p.value))
      && (p.None? ==> forall k :: from <= k <= 6 ==> !StandsFor(Lowered(suffix), k))
    decreases 7 - from
  {
    if from < 7 {
      NamesStandFor(Lowered(suffix), from);
      SuffixFrom(suffix, from + 1);
      hide StandsFor;
      hide Lowered;
    }
  }

  lemma SliceLast(s: string, e: nat, end: nat)
    requires e < end <= |s|
    ensures s[e..end] == s[e..end - 1] + [s[end - 1]]
  {
  }

  /** Where the text ends once trailing spaces are trimmed. */
  function TrimEnd(s: string, start: nat, end: nat): (e: nat)
    requires start <= end <= |s|
    ensures start <= e <= end && AllSpaces(s[e..end]) && (e == start || !IsSpace(s[e - 1]))
  {
    if end > start && IsSpace(s[end - 1]) then
      var e := TrimEnd(s, start, end - 1);
      SliceLast(s, e, end);
      e
    else end
  }

  /** Where the alphabetic run that ends at `end` begins. */
  function AlphaStart(s: string, start: nat, end: nat): (e: nat)
    requires start <= end <= |s|
    ensures start <= e <= end && AllAlpha(s[e..end]) && (e == start || !IsAlpha(s[e - 1]))
  {
    if end > start && IsAlpha(s[end - 1]) then
      var e := AlphaStart(s, start, end - 1);
      SliceLast(s, e, end);
      e
    else end
  }

  /** A number: the numeral grammar without spaces or a minus sign, and nothing after it. */
  function ReadNumber(s: string): (t: Option<Token>)
    ensures t.Some? ==> t.value.end == |s|
  {
    var t := Scan(s, true);
    if IsSpace(At(s, 0)) || At(s, 0) == '-' || t.None? || t.value.end != |s| then None else t
  }

  datatype Reading = Reading(number: Token, power: nat) {

    /** The value before the decimal exponent. */
    ghost function Scaled(): nat {
      ScaledCoefficient(number.Coefficient(), power)
    }

    /** v is exactly the denoted quantity, (coefficient * 1024^power) * 10^exponent. */
    ghost predicate Is(v: nat) {
      ExactInteger(Scaled(), number.Exponent(), v)
    }

    ghost predicate Fits() {
      HasU64(Scaled(), number.Exponent())
    }
  }

  ghost function ScaledCoefficient(m: nat, power: nat): nat {
    hide Pow;
    PowStep(1024, power);
    m * Pow(1024, power)
  }

  /** n * 10^e == v, without leaving the integers. */
  ghost predicate ExactInteger(n: nat, e: int, v: nat) {
    n * Pow(10, Positive(e)) == v * Pow(10, Positive(-e))
  }

  /** n * 10^e is an integer of at most 64 bits. */
  ghost predicate HasU64(n: nat, e: int) {
    exists v: nat :: v <= U64_MAX && ExactInteger(n, e, v)
  }

  /** How a text splits into a number and a suffix, with optional spaces around either. */
  function Read(text: string): Option<Reading> {
    var start := SpaceEnd(text, 0);
    var end := TrimEnd(text, start, |text|);
    if end == start then None
    else
      var suffix := AlphaStart(text, start, end);
      var power := SuffixPower(text[suffix..end], 0);
      if power.None? then None
      else
        var numberEnd := TrimEnd(text, start, suffix);
        if numberEnd == start then None
        else
          var number := ReadNumber(text[start..numberEnd]);
          if number.None? then None else Some(Reading(number.value, power.value))
  }

  /** The text is accepted and denotes v. */
  ghost predicate QuantityReads(text: string, v: nat) {
    v <= U64_MAX && Read(text).Some? && Read(text).value.Is(v)
  }

  lemma {:induction false} TrimEndUnique(s: string, start: nat, end: nat, e: nat)
    requires start <= e <= end <= |s| && AllSpaces(s[e..end]) && (e == start || !IsSpace(s[e - 1]))
    ensures TrimEnd(s, start, end) == e
    decreases end - e
  {
    if e < end {
      assert s[end - 1] == s[e..end][end - 1 - e];
      assert s[e..end - 1] == s[e..end][..end - 1 - e];
      TrimEndUnique(s, start, end - 1, e);
    }
  }

  lemma {:induction false} AlphaStartUnique(s: string, start: nat, end: nat, e: nat)
    requires start <= e <= end <= |s| && AllAlpha(s[e..end]) && (e == start || !IsAlpha(s[e - 1]))
    ensures AlphaStart(s, start, end) == e
    decreases end - e
  {
    if e < end {
      assert s[end - 1] == s[e..end][end - 1 - e];
      assert s[e..end - 1] == s[e..end][..end - 1 - e];
      AlphaStartUnique(s, start, end - 1, e);
    }
  }

  /** A number never ends in a letter, so the suffix is the maximal alphabetic run. */
  lemma NumberEnds(s: string)
    requires ReadNumber(s).Some?
    ensures |s| > 0 && !IsSpace(s[0]) && !IsSpace(s[|s| - 1]) && !IsAlpha(s[|s| - 1])
  {
    var p := NumberIsSpelling(s);
    hide ReadNumber;
    LastCharacter(p);
  }

  lemma NumberIsSpelling(s: string) returns (p: Spelling)
    requires ReadNumber(s).Some?
    ensures p.WellFormed(true) && p.Text() == s && !IsSpace(At(s, 0))
  {
    p := ScannedIsSpelling(s, true);
    hide Scan;
    assert |p.Text()| == p.Meaning().end == |s|;
    assert s[..|s|] == s;
  }

  lemma LastCharacter(p: Spelling)
    requires p.WellFormed(true)
    ensures p.Text() != ""
    ensures var c := p.Text()[|p.Text()| - 1]; IsDigit(c) || c == '.'
  {
    var body := p.spaces + p.sign + p.whole;
    var dotted := if p.point then "." + p.fraction else "";
    match p.exponent
    case None =>
      assert p.Text() == body + dotted;
      if !p.point {
        assert p.Text() == body && body[|body| - 1] == p.whole[|p.whole| - 1];
      } else if p.fraction == "" {
        assert p.Text()[|p.Text()| - 1] == '.';
      } else {
        assert p.Text()[|p.Text()| - 1] == p.fraction[|p.fraction| - 1];
      }
    case Some((mark, sign, digits)) =>
      assert p.Text() == body + dotted + ([mark] + sign + digits);
      assert p.Text()[|p.Text()| - 1] == digits[|digits| - 1];
  }

  /** Reading recovers number and suffix from any way of writing them together. */
  lemma ReadRecovers(before: string, number: string, gap: string, suffix: string, after: string)
    requires AllSpaces(before) && AllSpaces(gap) && AllSpaces(after) && AllAlpha(suffix)
    requires ReadNumber(number).Some? && SuffixPower(suffix, 0).Some?
    ensures Read(before + (number + (gap + (suffix + after))))
      == Some(Reading(ReadNumber(number).value, SuffixPower(suffix, 0).value))
  {
    NumberEnds(number);
    RecoverPositions(before, number, gap, suffix, after, suffix + after, gap + (suffix + after),
                     number + (gap + (suffix + after)));
  }

  lemma RecoverPositions(before: string, number: string, gap: string, suffix: string, after: string,
                         t3: string, t2: string, t1: string)
    requires AllSpaces(before) && AllSpaces(gap) && AllSpaces(after) && AllAlpha(suffix)
    requires ReadNumber(number).Some? && SuffixPower(suffix, 0).Some?
    requires |number| > 0 && !IsSpace(number[0]) && !IsSpace(number[|number| - 1]) && !IsAlpha(number[|number| - 1])
    requires t3 == suffix + after && t2 == gap + t3 && t1 == number + t2
    ensures Read(before + t1) == Some(Reading(ReadNumber(number).value, SuffixPower(suffix, 0).value))
  {
    var s := before + t1;
    var i := |before|;
    var n := i + |number|;
    var g := n + |gap|;
    var e := g + |suffix|;
    hide *;
    PeelAll(before, number, gap, suffix, after, t3, t2, t1, s);
    assert s[i] == s[i..n][0] && s[n - 1] == s[i..n][|number| - 1];
    ReadAtPositions(s, i, n, g, e);
  }

  lemma PeelAll(before: string, number: string, gap: string, suffix: string, after: string,
                t3: string, t2: string, t1: string, s: string)
    requires s == before + t1 && t1 == number + t2 && t2 == gap + t3 && t3 == suffix + after
    ensures var (i, n) := (|before|, |before| + |number|);
      var (g, e) := (n + |gap|, n + |gap| + |suffix|);
      && e <= |s| && s[0..i] == before && s[i..n] == number && s[n..g] == gap && s[g..e] == suffix && s[e..] == after
  {
    hide *;
    assert s[0..] == s;
    Peel(s, 0, before, t1);
    Peel(s, |before|, number, t2);
    Peel(s, |before| + |number|, gap, t3);
    Peel(s, |before| + |number| + |gap|, suffix, after);
  }

  lemma ReadAtPositions(s: string, i: nat, n: nat, g: nat, e: nat)
    requires i < n <= g <= e <= |s|
    requires AllSpaces(s[0..i]) && AllSpaces(s[n..g]) && AllAlpha(s[g..e]) && AllSpaces(s[e..])
    requires !IsSpace(s[i]) && !IsSpace(s[n - 1]) && !IsAlpha(s[n - 1])
    requires ReadNumber(s[i..n]).Some? && SuffixPower(s[g..e], 0).Some?
    ensures Read(s) == Some(Reading(ReadNumber(s[i..n]).value, SuffixPower(s[g..e], 0).value))
  {
    hide ReadNumber;
    hide SuffixPower;
    SpaceEndUnique(s, 0, i);
    SuffixPositions(s, i, n, g, e);
    if g == e {
      assert s[n..n] == s[g..e];
    }
  }

  /** Where trimming and the alphabetic run stop; an empty suffix merges the two gaps. */
  lemma SuffixPositions(s: string, i: nat, n: nat, g: nat, e: nat)
    requires i < n <= g <= e <= |s|
    requires AllSpaces(s[n..g]) && AllAlpha(s[g..e]) && AllSpaces(s[e..])
    requires !IsSpace(s[n - 1]) && !IsAlpha(s[n - 1])
    ensures var end, start := if g < e then e else n, if g < e then g else n;
      TrimEnd(s, i, |s|) == end && AlphaStart(s, i, end) == start && TrimEnd(s, i, start) == n
  {
    assert s[e..|s|] == s[e..];
    if g < e {
      assert s[e - 1] == s[g..e][e - 1 - g];
      if n < g {
        assert s[g - 1] == s[n..g][g - 1 - n];
      }
      TrimEndUnique(s, i, |s|, e);
      AlphaStartUnique(s, i, e, g);
      TrimEndUnique(s, i, g, n);
    } else {
      assert s[n..|s|] == s[n..g] + s[e..];
      TrimEndUnique(s, i, |s|, n);
      AlphaStartUnique(s, i, n, n);
      TrimEndUnique(s, i, n, n);
    }
  }

  /** Conversely, whatever reads is written that way. */
  lemma ReadIsWritten(text: string) returns (before: string, number: string, gap: string, suffix: string, after: string)
    requires Read(text).Some?
    ensures AllSpaces(before) && AllSpaces(gap) && AllSpaces(after) && AllAlpha(suffix)
    ensures ReadNumber(number).Some? && SuffixPower(suffix, 0).Some?
    ensures Read(text).value == Reading(ReadNumber(number).value, SuffixPower(suffix, 0).value)
    ensures text == before + (number + (gap + (suffix + after)))
  {
    var start := SpaceEnd(text, 0);
    var end := TrimEnd(text, start, |text|);
    var suffixStart := AlphaStart(text, start, end);
    var numberEnd := TrimEnd(text, start, suffixStart);
    before, number, gap := text[0..start], text[start..numberEnd], text[numberEnd..suffixStart];
    suffix, after := text[suffixStart..end], text[end..|text|];
    hide ReadNumber;
    hide SuffixPower;
    Concat5(text, start, numberEnd, suffixStart, end);
  }

  lemma Concat5(s: string, a: nat, b: nat, c: nat, d: nat)
    requires a <= b <= c <= d <= |s|
    ensures s == s[0..a] + (s[a..b] + (s[b..c] + (s[c..d] + s[d..|s|])))
  {
    assert s[c..d] + s[d..|s|] == s[c..];
    assert s[b..c] + s[c..] == s[b..];
    assert s[a..b] + s[b..] == s[a..];
    assert s[0..a] + s[a..] == s;
  }

  /** The shift the decimal exponent and fraction digits amount to; absent when a size_t cannot
      hold it. */
  function DecimalShift(exponentNegative: bool, exponentMagnitude: Size, fractionalDigits: Size): (r: Option<(bool, Size)>)
    ensures var v := SignedSize(exponentNegative, exponentMagnitude) - fractionalDigits;
      (r.Some? <==> InRange(v)) && (r.Some? ==> SignedSize(r.value.0, r.value.1) == v)
  {
    if exponentNegative then
      if exponentMagnitude > SIZE_MAX - fractionalDigits then None
      else Some((true, fractionalDigits + exponentMagnitude))
    else if exponentMagnitude >= fractionalDigits then Some((false, exponentMagnitude - fractionalDigits))
    else Some((true, fractionalDigits - exponentMagnitude))
  }

  /** Removing low digits that are not all zero, or leaving none or too many, is no integer. */
  lemma ShiftDownExact(digits: seq<Digit>, low: nat, v: nat)
    requires 0 < LittleEndian(digits)
    ensures ExactInteger(LittleEndian(digits), SignedSize(true, low), v)
      <==> (low < |digits| && LittleEndian(digits[..low]) == 0 && v == LittleEndian(digits[low..]))
  {
    hide Pow;
    hide LittleEndian;
    PowZero(10);
    PowStep(10, low);
    if low < |digits| {
      var unit := Pow(10, low);
      assert digits == digits[..low] + digits[low..];
      LittleEndianConcat(digits[..low], digits[low..]);
      LittleEndianBelow(digits[..low]);
      var n := LittleEndian(digits);
      DivModUnique(n, unit, LittleEndian(digits[low..]), LittleEndian(digits[..low]));
      if n == v * unit {
        DivModUnique(n, unit, v, 0);
      }
    } else {
      LittleEndianBelow(digits);
      PowMonotone(10, |digits|, low);
      if v > 0 {
        MulMonotone(1, v, Pow(10, low));
      }
    }
  }

  lemma HasU64Down(digits: seq<Digit>, low: nat)
    requires 0 < LittleEndian(digits)
    ensures HasU64(LittleEndian(digits), SignedSize(true, low))
      <==> (low < |digits| && LittleEndian(digits[..low]) == 0 && LittleEndian(digits[low..]) <= U64_MAX)
    ensures low < |digits| && LittleEndian(digits[..low]) == 0
      ==> ExactInteger(LittleEndian(digits), SignedSize(true, low), LittleEndian(digits[low..]))
  {
    hide LittleEndian;
    hide ExactInteger;
    if low < |digits| {
      ShiftDownExact(digits, low, LittleEndian(digits[low..]));
    }
    if HasU64(LittleEndian(digits), SignedSize(true, low)) {
      var v: nat :| v <= U64_MAX && ExactInteger(LittleEndian(digits), SignedSize(true, low), v);
      ShiftDownExact(digits, low, v);
    }
  }

  lemma HasU64Up(n: nat, up: nat)
    ensures n * Pow(10, up) >= 0
    ensures HasU64(n, SignedSize(false, up)) <==> n * Pow(10, up) <= U64_MAX
    ensures ExactInteger(n, SignedSize(false, up), n * Pow(10, up))
  {
    hide Pow;
    PowZero(10);
    PowStep(10, up);
    MulMonotone2(0, n, 0, Pow(10, up));
    var v: nat := n * Pow(10, up);
    assert ExactInteger(n, SignedSize(false, up), v);
  }

  /** A nonzero quantity whose decimal exponent is out of a size_t's reach is no 64-bit integer,
      whatever its suffix. */
  lemma ExponentTooFar(n: nat, digits: nat, e: int)
    requires 0 < n < Pow(10, digits) && digits <= TEXT_LIMIT + 24
    requires e >= 20 || e + TEXT_LIMIT + 24 < 0
    ensures !HasU64(n, e)
  {
    hide Pow;
    PowZero(10);
    if e >= 20 {
      TooFarToShift(n, e);
      HasU64Up(n, e);
    } else {
      PowMonotone(10, digits, -e);
      if HasU64(n, e) {
        var v: nat :| v <= U64_MAX && ExactInteger(n, e, v);
        MulMonotone(if v == 0 then 0 else 1, v, Pow(10, -e));
      }
    }
  }

  lemma TwentyDigits()
    ensures Pow(10, 20) > U64_MAX
  {
    hide Pow;
    SmallPowers();
    PowAdd(10, 4, 4);
    PowAdd(10, 8, 8);
    PowAdd(10, 16, 4);
  }

  /** The digits, fraction count and exponent of a number; the digits end up little-endian. */
  method ParseDecimalInteger(text: string, integer: DecimalInteger)
    returns (ok: bool, fractionalDigits: nat, exponentNegative: bool, exponentMagnitude: Size, exponentOverflowed: bool)
    requires |text| <= TEXT_LIMIT
    requires integer.Valid() && integer.Contents() == []
    modifies integer, integer.digits
    ensures integer.Valid() && (integer.digits == old(integer.digits) || fresh(integer.digits))
    ensures ok <==> ReadNumber(text).Some?
    ensures ok ==>
      var t := ReadNumber(text).value;
      && integer.Contents() == Reversed(Significant(t.Digits())) && |t.Digits()| <= TEXT_LIMIT
      && fractionalDigits == |t.fraction| <= TEXT_LIMIT && exponentNegative == t.exponentNegative
      && Tracks(DigitsOf(t.exponentDigits), exponentMagnitude, exponentOverflowed)
  {
    hide Scan;
    hide DigitEnd;
    hide ScanExponent;
    ok, fractionalDigits, exponentNegative, exponentMagnitude, exponentOverflowed := false, 0, false, 0, false;
    var w := 0;
    if At(text, 0) == '+' {
      w := 1;
    } else if At(text, 0) == '-' {
      return;
    }
    var we, f, fe := AppendDigits(text, w, integer);
    NumberFromStops(text, w, we, f, fe);
    if we == w && fe == f {
      return;
    }
    fractionalDigits := fe - f;
    var end;
    ok, exponentNegative, exponentMagnitude, exponentOverflowed, end := ParseDecimalExponent(text, fe);
    ok := ok && end == |text|;
    if ok {
      integer.NormaliseToLittleEndian();
    }
  }

  lemma NumberFromStops(text: string, w: nat, we: nat, f: nat, fe: nat)
    requires At(text, 0) != '-' && w == (if At(text, 0) == '+' then 1 else 0)
    requires w <= we <= f <= fe <= |text| && we == DigitEnd(text, w)
    requires f == if At(text, we) == '.' then we + 1 else we
    requires fe == if At(text, we) == '.' then DigitEnd(text, f) else we
    ensures ReadNumber(text).Some? <==>
      (w < we || f < fe) && ScanExponent(text, fe).Some? && ScanExponent(text, fe).value.2 == |text|
    ensures ReadNumber(text).Some? ==>
      var t, x := ReadNumber(text).value, ScanExponent(text, fe).value;
      && t.whole == text[w..we] && t.fraction == text[f..fe] && t.exponentNegative == x.0 && t.exponentDigits == x.1
      && t.Digits() == DigitsOf(text[w..we]) + DigitsOf(text[f..fe])
  {
    hide DigitEnd;
    hide ScanExponent;
    hide Scan;
    if IsSpace(At(text, 0)) {
      DigitEndUnique(text, 0, 0);
    } else {
      SpaceEndUnique(text, 0, 0);
      ScanFromStops(text, true, 0, w, we, f, fe);
    }
  }

  method AppendRun(text: string, start: nat, integer: DecimalInteger) returns (cursor: nat)
    requires start <= |text| <= TEXT_LIMIT && integer.Valid() && integer.length <= start
    modifies integer, integer.digits
    ensures integer.Valid() && cursor == DigitEnd(text, start) && integer.length <= cursor
    ensures integer.Contents() == old(integer.Contents()) + DigitsOf(text[start..cursor])
    ensures integer.digits == old(integer.digits) || fresh(integer.digits)
  {
    cursor := start;
    ghost var before := integer.Contents();
    assert before + DigitsOf(text[start..cursor]) == before;
    while IsDigit(At(text, cursor))
      invariant start <= cursor <= |text| && integer.Valid() && integer.length <= cursor
      invariant DigitEnd(text, cursor) == DigitEnd(text, start)
      invariant integer.Contents() == before + DigitsOf(text[start..cursor])
      invariant integer.digits == old(integer.digits) || fresh(integer.digits)
      decreases |text| - cursor
    {
      var digit := DigitValue(At(text, cursor));
      integer.AppendForward(digit);
      AppendedDigit(before, text, start, cursor, digit);
      cursor := cursor + 1;
    }
  }

  lemma AppendedDigit(before: seq<Digit>, text: string, start: nat, cursor: nat, digit: Digit)
    requires start <= cursor < |text| && digit == DigitValue(text[cursor])
    ensures before + DigitsOf(text[start..cursor + 1]) == (before + DigitsOf(text[start..cursor])) + [digit]
  {
  }

  method AppendDigits(text: string, w: nat, integer: DecimalInteger) returns (we: nat, f: nat, fe: nat)
    requires w <= |text| <= TEXT_LIMIT && integer.Valid() && integer.Contents() == []
    modifies integer, integer.digits
    ensures integer.Valid() && (integer.digits == old(integer.digits) || fresh(integer.digits))
    ensures w <= we <= f <= fe <= |text| && we == DigitEnd(text, w)
    ensures f == if At(text, we) == '.' then we + 1 else we
    ensures fe == if At(text, we) == '.' then DigitEnd(text, f) else we
    ensures integer.Contents() == DigitsOf(text[w..we]) + DigitsOf(text[f..fe])
  {
    hide DigitEnd;
    we := AppendRun(text, w, integer);
    assert integer.Contents() == DigitsOf(text[w..we]);
    f, fe := we, we;
    if At(text, we) == '.' {
      f := we + 1;
      fe := AppendRun(text, f, integer);
    } else {
      assert DigitsOf(text[f..fe]) == [];
    }
  }

  /** Multiply by 1024 once for every step of the suffix. */
  method MultiplyByPower(integer: DecimalInteger, power: nat)
    requires integer.Valid() && power <= MAX_POWER && integer.length <= TEXT_LIMIT
    modifies integer, integer.digits
    ensures integer.Valid() && integer.length <= TEXT_LIMIT + 24
    ensures LittleEndian(integer.Contents()) == ScaledCoefficient(LittleEndian(old(integer.Contents())), power)
  {
    hide Pow;
    hide LittleEndian;
    PowZero(1024);
    ghost var start := LittleEndian(integer.Contents());
    var i := 0;
    while i < power
      invariant i <= power && integer.Valid() && integer.length <= TEXT_LIMIT + 4 * i
      invariant LittleEndian(integer.Contents()) == start * Pow(1024, i)
      invariant integer.digits == old(integer.digits) || fresh(integer.digits)
    {
      PowStep(1024, i);
      MulAssoc(start, Pow(1024, i), 1024);
      integer.MultiplySmall(1024);
      i := i + 1;
    }
  }

  /** The digits, shifted by the decimal exponent, as a 64-bit integer if they are one. */
  method ShiftToU64(integer: DecimalInteger, negative: bool, magnitude: Size) returns (ok: bool, value: U64)
    requires integer.Valid() && LittleEndian(integer.Contents()) > 0
    ensures ok <==> HasU64(LittleEndian(integer.Contents()), SignedSize(negative, magnitude))
    ensures ok ==> ExactInteger(LittleEndian(integer.Contents()), SignedSize(negative, magnitude), value)
  {
    hide LittleEndian;
    hide ExactInteger;
    hide HasU64;
    ghost var s := integer.Contents();
    ghost var n := LittleEndian(s);
    if negative {
      HasU64Down(s, magnitude);
      ok, value := integer.ToU64(magnitude);
      return;
    }
    HasU64Up(n, magnitude);
    assert s[0..] == s && s[..0] == [];
    EmptyLittleEndian();
    ok, value := integer.ToU64(0);
    EmptyNotPositive(s);
    if !ok {
      TooBigToShift(n, magnitude);
      return;
    }
    if magnitude > 19 {
      TooFarToShift(n, magnitude);
      return false, 0;
    }
    ok, value := MultiplyByTens(value, magnitude);
  }

  lemma EmptyNotPositive(s: seq<Digit>)
    requires LittleEndian(s) > 0
    ensures |s| > 0
  {
  }

  lemma TooBigToShift(n: nat, up: nat)
    requires n > U64_MAX
    ensures n * Pow(10, up) > U64_MAX
  {
    MulMonotone(1, Pow(10, up), n);
  }

  lemma TooFarToShift(n: nat, up: nat)
    requires n > 0 && up > 19
    ensures n * Pow(10, up) > U64_MAX
  {
    hide Pow;
    TwentyDigits();
    PowMonotone(10, 20, up);
    MulMonotone(1, n, Pow(10, up));
  }

  method MultiplyByTens(start: U64, count: nat) returns (ok: bool, value: U64)
    ensures ok <==> start * Pow(10, count) <= U64_MAX
    ensures ok ==> value == start * Pow(10, count)
  {
    hide Pow;
    PowZero(10);
    value := start;
    var i := 0;
    while i < count
      invariant i <= count && value == start * Pow(10, i)
    {
      PowStep(10, i);
      MulAssoc(start, Pow(10, i), 10);
      var more := U64MultiplyChecked(value, 10);
      if more.None? {
        PowMonotone(10, i + 1, count);
        MulMonotone(Pow(10, i + 1), Pow(10, count), start);
        return false, 0;
      }
      value := more.value;
      i := i + 1;
    }
    return true, value;
  }

  /** infiltratr_parse_binary_quantity_u64: accepts exactly the texts of the grammar whose exact value
      is an integer of at most 64 bits, and returns it. */
  method ParseBinaryQuantity(text: string, bytesIn: U64) returns (ok: bool, bytes: U64)
    requires |text| <= TEXT_LIMIT && '\0' !in text
    ensures ok <==> Read(text).Some? && Read(text).value.Fits()
    ensures ok ==> Read(text).value.Is(bytes) && QuantityReads(text, bytes)
    ensures !ok ==> bytes == bytesIn && forall v :: !QuantityReads(text, v)
  {
    hide ReadNumber;
    hide SuffixPower;
    hide SpaceEnd;
    hide TrimEnd;
    hide AlphaStart;
    ok, bytes := false, bytesIn;
    var start := SkipSpaces(text, 0);
    var end := TrimEnd(text, start, |text|);
    if end == start {
      return;
    }
    var suffixStart := AlphaStart(text, start, end);
    var power := SuffixPower(text[suffixStart..end], 0);
    if power.None? {
      return;
    }
    var numberEnd := TrimEnd(text, start, suffixStart);
    if numberEnd == start {
      return;
    }
    ok, bytes := ConvertNumber(text[start..numberEnd], power.value, bytesIn);
  }

  method ConvertNumber(number: string, power: nat, bytesIn: U64) returns (ok: bool, bytes: U64)
    requires |number| <= TEXT_LIMIT && power <= MAX_POWER
    ensures ok <==> ReadNumber(number).Some? && Reading(ReadNumber(number).value, power).Fits()
    ensures ok ==> Reading(ReadNumber(number).value, power).Is(bytes)
    ensures !ok ==> bytes == bytesIn
  {
    hide ReadNumber;
    hide ExactInteger;
    hide HasU64;
    hide LittleEndian;
    hide DecimalValue;
    hide ScaledCoefficient;
    ok, bytes := false, bytesIn;
    var integer := new DecimalInteger();
    var parsed, fractionalDigits, exponentNegative, exponentMagnitude, exponentOverflowed := ParseDecimalInteger(number, integer);
    if !parsed {
      return;
    }
    ghost var t := ReadNumber(number).value;
    ghost var s := Significant(t.Digits());
    ghost var reading := Reading(t, power);
    SignificantValue(t.Digits());
    ReversedValue(s);
    if integer.length == 0 {
      ZeroQuantity(t, power, s);
      return true, 0;
    }
    ScaledBelow(s, power);
    if exponentOverflowed {
      ExponentTooFar(reading.Scaled(), |s| + 24, t.Exponent());
      return;
    }
    MultiplyByPower(integer, power);
    var shift := DecimalShift(exponentNegative, exponentMagnitude, fractionalDigits);
    if shift.None? {
      ExponentTooFar(reading.Scaled(), |s| + 24, t.Exponent());
      return;
    }
    var exact, value := ShiftToU64(integer, shift.value.0, shift.value.1);
    if !exact {
      return;
    }
    return true, value;
  }

  lemma ZeroQuantity(t: Token, power: nat, s: seq<Digit>)
    requires s == [] && t.Coefficient() == DecimalValue(s)
    ensures Reading(t, power).Is(0) && Reading(t, power).Fits()
  {
    hide Pow;
    assert ExactInteger(Reading(t, power).Scaled(), t.Exponent(), 0);
  }

  lemma ScaledBelow(s: seq<Digit>, power: nat)
    requires |s| > 0 && s[0] != 0 && power <= MAX_POWER
    ensures 0 < ScaledCoefficient(DecimalValue(s), power) < Pow(10, |s| + 24)
  {
    hide Pow;
    hide DecimalValue;
    DecimalAtLeast(s);
    DecimalBelow(s);
    PowStep(10, |s| - 1);
    PowStep(1024, power);
    PowTwentyFour(power);
    PowAdd(10, |s|, 24);
    MulStrict(0, DecimalValue(s), Pow(1024, power));
    MulStrict(DecimalValue(s), Pow(10, |s|), Pow(1024, power));
    MulMonotone(Pow(1024, power), Pow(10, 24), Pow(10, |s|));
  }

  lemma PowTwentyFour(power: nat)
    requires power <= MAX_POWER
    ensures Pow(1024, power) <= Pow(10, 24)
  {
    hide Pow;
    SmallPowers();
    PowBaseMonotone(1024, 10000, power);
    PowOfPow(10, 4, power);
    PowMonotone(10, 4 * power, 24);
  }

  /** A text denotes at most one integer. */
  lemma QuantityUnique(r: Reading, v: nat, w: nat)
    requires r.Is(v) && r.Is(w)
    ensures v == w
  {
    hide Pow;
    PowStep(10, Positive(-r.number.Exponent()));
    MulCancel(v, w, Pow(10, Positive(-r.number.Exponent())));
  }
}
