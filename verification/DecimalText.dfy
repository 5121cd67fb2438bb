/** The decimal floating-point grammar: scanning a numeral off the front of a text, and the
    independent description of what it scans. */
module DecimalText {
  import opened Wrappers
  import opened Texts
  import opened Ascii
  import opened DecimalDigits
  import opened DecimalExponents

  /** A scanned numeral.  An absent exponent part has no exponent digits. */
  datatype Token = Token(negative: bool, whole: string, fraction: string,
                         exponentNegative: bool, exponentDigits: string, end: nat) {

    function Digits(): seq<Digit> { DigitsOf(whole) + DigitsOf(fraction) }

    /** All digits read as one natural. */
    ghost function Coefficient(): nat { DecimalValue(Digits()) }

    /** The power of ten the coefficient is multiplied by. */
    ghost function Exponent(): int {
      SignedSize(exponentNegative, DecimalValue(DigitsOf(exponentDigits))) - |fraction|
    }
  }

  predicate IsSign(c: char) { c == '+' || c == '-' }

  predicate IsExponentMark(c: char) { c == 'e' || c == 'E' }

  /** The exponent part at i: its sign, digits and end; absent digits after the mark are an error. */
  function ScanExponent(s: string, i: nat): (r: Option<(bool, string, nat)>)
    requires i <= |s|
    ensures r.Some? ==> i <= r.value.2 <= |s|
  {
    if IsExponentMark(At(s, i)) then
      var j := if IsSign(At(s, i + 1)) then i + 2 else i + 1;
      var e := DigitEnd(s, j);
      if e == j then None else Some((At(s, i + 1) == '-', s[j..e], e))
    else Some((false, "", i))
  }

  /** The numeral at the front of s. */
  function Scan(s: string, allowSign: bool): (r: Option<Token>)
    ensures r.Some? ==> r.value.end <= |s|
  {
    var i := SpaceEnd(s, 0);
    var signed := IsSign(At(s, i));
    if signed && !allowSign then None
    else
      var w := if signed then i + 1 else i;
      var we := DigitEnd(s, w);
      var point := At(s, we) == '.';
      var f := if point then we + 1 else we;
      var fe := if point then DigitEnd(s, f) else we;
      if w == we && f == fe then None
      else
        var x := ScanExponent(s, fe);
        if x.None? then None
        else Some(Token(At(s, i) == '-', s[w..we], s[f..fe], x.value.0, x.value.1, x.value.2))
  }

  /** The parts a numeral is written from. */
  datatype Spelling = Spelling(spaces: string, sign: string, whole: string, point: bool, fraction: string,
                               exponent: Option<(char, string, string)>) {

    function ExponentText(): string {
      match exponent
      case None => ""
      case Some((mark, sign, digits)) => [mark] + sign + digits
    }

    function Text(): string {
      spaces + sign + whole + (if point then "." + fraction else "") + ExponentText()
    }

    predicate WellFormed(allowSign: bool) {
      && AllSpaces(spaces)
      && (sign == "" || (allowSign && (sign == "+" || sign == "-")))
      && AllDigits(whole) && AllDigits(fraction)
      && (!point ==> fraction == "")
      && |whole| + |fraction| > 0
      && match exponent
         case None => true
         case Some((mark, sign, digits)) =>
           && (mark == 'e' || mark == 'E') && (sign == "" || sign == "+" || sign == "-")
           && digits != "" && AllDigits(digits)
    }

    /** What follows does not continue the numeral. */
    predicate EndsBefore(next: char) {
      && !IsDigit(next)
      && (exponent.None? ==> next != 'e' && next != 'E' && (!point ==> next != '.'))
    }

    function Meaning(): Token {
      match exponent
      case None => Token(sign == "-", whole, fraction, false, "", |Text()|)
      case Some((_, sign', digits)) => Token(sign == "-", whole, fraction, sign' == "-", digits, |Text()|)
    }
  }

  /** The positions Scan stops at, as one condition. */
  ghost predicate Stops(s: string, i: nat, w: nat, we: nat, f: nat, fe: nat) {
    && i <= w <= we <= f <= fe <= |s|
    && SpaceEnd(s, 0) == i
    && w == (if IsSign(At(s, i)) then i + 1 else i)
    && DigitEnd(s, w) == we
    && f == (if At(s, we) == '.' then we + 1 else we)
    && fe == (if At(s, we) == '.' then DigitEnd(s, f) else we)
  }

  lemma ScanFromStops(s: string, allowSign: bool, i: nat, w: nat, we: nat, f: nat, fe: nat)
    requires Stops(s, i, w, we, f, fe)
    ensures (w > i && !allowSign) || (w == we && f == fe) || ScanExponent(s, fe).None? <==> Scan(s, allowSign).None?
    ensures Scan(s, allowSign).Some? ==>
      var x := ScanExponent(s, fe).value;
      Scan(s, allowSign).value == Token(At(s, i) == '-', s[w..we], s[f..fe], x.0, x.1, x.2)
  {
    hide SpaceEnd;
    hide DigitEnd;
    hide ScanExponent;
  }

  /** Scanning recovers the parts from any spelling: the grammar is read exactly, and uniquely. */
  lemma ScanReadsSpelling(p: Spelling, rest: string, allowSign: bool)
    requires p.WellFormed(allowSign) && p.EndsBefore(At(rest, 0))
    ensures Scan(p.Text() + rest, allowSign) == Some(p.Meaning())
  {
    var s := p.Text() + rest;
    var dotted := if p.point then "." + p.fraction else "";
    var tail := p.ExponentText() + rest;
    var i := |p.spaces|;
    var w := i + |p.sign|;
    var we := w + |p.whole|;
    var fe := we + |dotted|;
    var f := fe - |p.fraction|;
    SpellingStops(p, rest, s, tail, i, w, we, f, fe);
    assert |p.Text()| == fe + |p.ExponentText()|;
    hide SpaceEnd;
    hide DigitEnd;
    hide Scan;
    hide ScanExponent;
    SpellingTail(p, rest, s, fe);
    ScanFromStops(s, allowSign, i, w, we, f, fe);
  }

  /** Peeling one piece off the front of what remains from position i. */
  lemma Peel(s: string, i: nat, piece: string, after: string)
    requires i <= |s| && s[i..] == piece + after
    ensures i + |piece| <= |s| && s[i..i + |piece|] == piece
    ensures s[i + |piece|..] == after && At(s, i + |piece|) == At(after, 0)
  {
    assert s[i..][..|piece|] == piece;
    assert s[i..][|piece|..] == after;
  }

  lemma SpellingStops(p: Spelling, rest: string, s: string, tail: string, i: nat, w: nat, we: nat, f: nat, fe: nat)
    requires p.WellFormed(true) && p.EndsBefore(At(rest, 0))
    requires s == p.Text() + rest && tail == p.ExponentText() + rest
    requires i == |p.spaces| && w == i + |p.sign| && we == w + |p.whole|
    requires f == (if p.point then we + 1 else we) && fe == f + |p.fraction|
    ensures Stops(s, i, w, we, f, fe)
    ensures s[w..we] == p.whole && s[f..fe] == p.fraction && s[fe..] == tail
    ensures p.sign == "-" <==> At(s, i) == '-'
    ensures p.sign == "" <==> !IsSign(At(s, i))
  {
    var point := if p.point then "." else "";
    SpellingNested(p, rest);
    hide *;
    var s4 := p.fraction + tail;
    var s3 := point + s4;
    var s2 := p.whole + s3;
    StopsFromSuffixes(p, rest, s, p.sign + s2, s2, s3, s4, tail, i, w, we, f, fe);
  }

  lemma StopsFromSuffixes(p: Spelling, rest: string, s: string, s1: string, s2: string, s3: string, s4: string, tail: string,
                          i: nat, w: nat, we: nat, f: nat, fe: nat)
    requires p.WellFormed(true) && p.EndsBefore(At(rest, 0)) && tail == p.ExponentText() + rest
    requires s == p.spaces + s1 && s1 == p.sign + s2 && s2 == p.whole + s3 && s4 == p.fraction + tail
    requires s3 == (if p.point then "." else "") + s4
    requires i == |p.spaces| && w == i + |p.sign| && we == w + |p.whole|
    requires f == (if p.point then we + 1 else we) && fe == f + |p.fraction|
    ensures Stops(s, i, w, we, f, fe)
    ensures s[w..we] == p.whole && s[f..fe] == p.fraction && s[fe..] == tail
    ensures p.sign == "-" <==> At(s, i) == '-'
    ensures p.sign == "" <==> !IsSign(At(s, i))
  {
    hide *;
    assert s[0..] == s;
    Peel(s, 0, p.spaces, s1);
    Peel(s, i, p.sign, s2);
    Peel(s, w, p.whole, s3);
    Peel(s, we, if p.point then "." else "", s4);
    Peel(s, f, p.fraction, tail);
    StopsFromPieces(p, rest, s, s1, s2, s3, s4, tail, i, w, we, f, fe);
  }

  lemma SpellingNested(p: Spelling, rest: string)
    requires p.WellFormed(true)
    ensures var point := if p.point then "." else "";
      p.Text() + rest
      == p.spaces + (p.sign + (p.whole + (point + (p.fraction + (p.ExponentText() + rest)))))
  {
    var point := if p.point then "." else "";
    var xt := p.ExponentText();
    var dotted := if p.point then "." + p.fraction else "";
    assert dotted == point + p.fraction;
    Assoc(p.spaces + p.sign + p.whole + dotted, xt, rest);
    Assoc(p.spaces + p.sign + p.whole, dotted, xt + rest);
    Assoc(point, p.fraction, xt + rest);
    Assoc(p.spaces + p.sign, p.whole, dotted + (xt + rest));
    Assoc(p.spaces, p.sign, p.whole + (dotted + (xt + rest)));
  }

  lemma StopsFromPieces(p: Spelling, rest: string, s: string, s1: string, s2: string, s3: string, s4: string, tail: string,
                        i: nat, w: nat, we: nat, f: nat, fe: nat)
    requires p.WellFormed(true) && p.EndsBefore(At(rest, 0)) && tail == p.ExponentText() + rest
    requires s1 == p.sign + s2 && s2 == p.whole + s3 && s4 == p.fraction + tail
    requires s3 == (if p.point then "." else "") + s4
    requires i <= w <= we <= f <= fe <= |s| && w == i + |p.sign|
    requires f == if p.point then we + 1 else we
    requires s[0..i] == p.spaces && s[w..we] == p.whole && s[f..fe] == p.fraction
    requires At(s, i) == At(s1, 0) && At(s, w) == At(s2, 0) && At(s, we) == At(s3, 0) && At(s, fe) == At(tail, 0)
    ensures Stops(s, i, w, we, f, fe)
    ensures p.sign == "-" <==> At(s, i) == '-'
    ensures p.sign == "" <==> !IsSign(At(s, i))
  {
    hide SpaceEnd;
    hide DigitEnd;
    TailStart(p, rest);
    SignPiece(p, s1, s2, s3, s4, tail);
    FirstOfPieces(p, s2, s3, s4, tail);
    hide IsSign;
    hide IsExponentMark;
    hide Spelling.ExponentText;
    SpaceEndUnique(s, 0, i);
    DigitEndUnique(s, w, we);
    if p.point {
      DigitEndUnique(s, f, fe);
    }
  }

  /** The sign, or a character that is none, starts the part after the spaces. */
  lemma SignPiece(p: Spelling, s1: string, s2: string, s3: string, s4: string, tail: string)
    requires p.WellFormed(true)
    requires s1 == p.sign + s2 && s2 == p.whole + s3 && s4 == p.fraction + tail
    requires s3 == (if p.point then "." else "") + s4
    ensures p.sign == "-" <==> At(s1, 0) == '-'
    ensures p.sign == "" <==> !IsSign(At(s1, 0))
    ensures !IsSpace(At(s1, 0))
  {
    assert p.whole != "" ==> At(s2, 0) == p.whole[0];
    assert p.sign != "" ==> At(s1, 0) == p.sign[0];
    assert p.sign == "" ==> s1 == s2;
    assert p.whole == "" ==> s2 == s3;
    assert p.point ==> At(s3, 0) == '.';
    hide Spelling.ExponentText;
  }

  /** The digits stop where the next part starts. */
  lemma FirstOfPieces(p: Spelling, s2: string, s3: string, s4: string, tail: string)
    requires p.WellFormed(true) && !IsDigit(At(tail, 0)) && (p.point || At(tail, 0) != '.')
    requires s2 == p.whole + s3 && s4 == p.fraction + tail && s3 == (if p.point then "." else "") + s4
    ensures p.point <==> At(s3, 0) == '.'
    ensures !IsDigit(At(s3, 0))
  {
    assert p.point ==> At(s3, 0) == '.';
    assert !p.point ==> s3 == s4 == tail;
    hide Spelling.ExponentText;
  }

  lemma TailStart(p: Spelling, rest: string)
    requires p.WellFormed(true) && p.EndsBefore(At(rest, 0))
    ensures var c := At(p.ExponentText() + rest, 0); !IsDigit(c) && (!p.point ==> c != '.')
  {
  }

  lemma SpellingTail(p: Spelling, rest: string, s: string, fe: nat)
    requires p.WellFormed(true) && p.EndsBefore(At(rest, 0))
    requires fe <= |s| && s[fe..] == p.ExponentText() + rest
    ensures var t := p.Meaning();
      ScanExponent(s, fe) == Some((t.exponentNegative, t.exponentDigits, fe + |p.ExponentText()|))
  {
    hide DigitEnd;
    match p.exponent
    case None =>
      assert At(s, fe) == At(s[fe..], 0);
    case Some((mark, sign, digits)) =>
      Assoc([mark], sign, digits);
      Assoc([mark], sign + digits, rest);
      Assoc(sign, digits, rest);
      ExponentSuffixes(s, fe, mark, sign, digits, rest, sign + (digits + rest), digits + rest);
  }

  lemma ExponentSuffixes(s: string, fe: nat, mark: char, sign: string, digits: string, rest: string, t1: string, t2: string)
    requires IsExponentMark(mark) && (sign == "" || sign == "+" || sign == "-") && digits != "" && AllDigits(digits)
    requires !IsDigit(At(rest, 0))
    requires fe <= |s| && s[fe..] == [mark] + t1 && t1 == sign + t2 && t2 == digits + rest
    ensures ScanExponent(s, fe) == Some((sign == "-", digits, fe + 1 + |sign| + |digits|))
  {
    hide DigitEnd;
    hide ScanExponent;
    var j, e := fe + 1 + |sign|, fe + 1 + |sign| + |digits|;
    Peel(s, fe, [mark], t1);
    Peel(s, fe + 1, sign, t2);
    Peel(s, j, digits, rest);
    assert At(s, fe) == s[fe..][0] == mark;
    assert At(t2, 0) == digits[0];
    assert sign != "" ==> At(t1, 0) == sign[0];
    assert sign == "" ==> t1 == t2;
    DigitEndUnique(s, j, e);
    ExponentFromParts(s, fe, sign, digits);
  }

  lemma ExponentFromParts(s: string, fe: nat, sign: string, digits: string)
    requires sign == "" || sign == "+" || sign == "-"
    requires digits != "" && fe + 1 + |sign| + |digits| <= |s| && IsExponentMark(At(s, fe))
    requires if sign == "" then !IsSign(At(s, fe + 1)) else At(s, fe + 1) == sign[0]
    requires var j := fe + 1 + |sign|; DigitEnd(s, j) == j + |digits| && s[j..j + |digits|] == digits
    ensures ScanExponent(s, fe) == Some((sign == "-", digits, fe + 1 + |sign| + |digits|))
  {
    hide DigitEnd;
    hide ScanExponent;
    var j := if IsSign(At(s, fe + 1)) then fe + 2 else fe + 1;
    SignCases(sign, At(s, fe + 1));
    assert j == fe + 1 + |sign|;
    hide IsSign;
    hide IsExponentMark;
    ScanExponentAt(s, fe, j);
  }

  lemma SignCases(sign: string, c: char)
    requires sign == "" || sign == "+" || sign == "-"
    requires if sign == "" then !IsSign(c) else c == sign[0]
    ensures |sign| == if IsSign(c) then 1 else 0
    ensures sign == "-" <==> c == '-'
  {
  }

  lemma ScanExponentAt(s: string, fe: nat, j: nat)
    requires fe < |s| && j <= |s| && IsExponentMark(At(s, fe))
    requires j == if IsSign(At(s, fe + 1)) then fe + 2 else fe + 1
    requires DigitEnd(s, j) != j
    ensures ScanExponent(s, fe) == Some((At(s, fe + 1) == '-', s[j..DigitEnd(s, j)], DigitEnd(s, j)))
  {
    hide DigitEnd;
    hide IsSign;
    hide IsExponentMark;
  }

  /** Whatever is scanned is a spelling: nothing outside the grammar is accepted. */
  lemma ScannedIsSpelling(s: string, allowSign: bool) returns (p: Spelling)
    requires Scan(s, allowSign).Some?
    ensures p.WellFormed(allowSign) && Scan(s, allowSign).value == p.Meaning()
    ensures |p.Text()| <= |s| && s[..|p.Text()|] == p.Text() && p.EndsBefore(At(s, |p.Text()|))
  {
    var i := SpaceEnd(s, 0);
    var w := if IsSign(At(s, i)) then i + 1 else i;
    var we := DigitEnd(s, w);
    var point := At(s, we) == '.';
    var f := if point then we + 1 else we;
    var fe := if point then DigitEnd(s, f) else we;
    hide SpaceEnd;
    hide DigitEnd;
    hide Scan;
    ScanFromStops(s, allowSign, i, w, we, f, fe);
    var exponent := ScannedExponent(s, fe);
    var end := ScanExponent(s, fe).value.2;
    p := SpellingOfSlices(s, i, w, we, f, fe, end, point, exponent);
    hide ScanExponent;
    hide Ascii.At;
    assert p.ExponentText() == s[fe..end];
    ScannedWellFormed(p, s, allowSign, i, w, we, f, fe, end);
  }

  lemma ScannedWellFormed(p: Spelling, s: string, allowSign: bool, i: nat, w: nat, we: nat, f: nat, fe: nat, end: nat)
    requires Stops(s, i, w, we, f, fe) && fe <= end <= |s| && (w > i ==> allowSign) && (w < we || f < fe)
    requires p.spaces == s[0..i] && p.sign == s[i..w] && p.whole == s[w..we] && p.fraction == s[f..fe]
    requires p.point <==> At(s, we) == '.'
    requires match p.exponent
             case None => !IsExponentMark(At(s, fe)) && end == fe
             case Some((mark, sign, digits)) =>
               && IsExponentMark(mark) && (sign == "" || sign == "+" || sign == "-")
               && digits != "" && AllDigits(digits) && !IsDigit(At(s, end))
    ensures p.WellFormed(allowSign) && p.EndsBefore(At(s, end))
    ensures p.sign == "-" <==> At(s, i) == '-'
  {
  }

  lemma SpellingOfSlices(s: string, i: nat, w: nat, we: nat, f: nat, fe: nat, end: nat, point: bool,
                         exponent: Option<(char, string, string)>) returns (p: Spelling)
    requires i <= w <= we <= f <= fe <= end <= |s|
    requires f == (if point then we + 1 else we) && (point ==> s[we] == '.') && (!point ==> fe == f)
    ensures p == Spelling(s[0..i], s[i..w], s[w..we], point, s[f..fe], exponent)
    ensures p.ExponentText() == s[fe..end] ==> p.Text() == s[..end]
  {
    p := Spelling(s[0..i], s[i..w], s[w..we], point, s[f..fe], exponent);
    JoinSlices(s, i, w, we, f, fe, end, point);
  }

  lemma JoinSlices(s: string, i: nat, w: nat, we: nat, f: nat, fe: nat, end: nat, point: bool)
    requires i <= w <= we <= f <= fe <= end <= |s|
    requires f == (if point then we + 1 else we) && (point ==> s[we] == '.') && (!point ==> fe == f)
    ensures s[0..i] + s[i..w] + s[w..we] + (if point then "." + s[f..fe] else "") + s[fe..end] == s[..end]
  {
    assert s[0..i] + s[i..w] == s[..w];
    assert s[..w] + s[w..we] == s[..we];
    assert s[..we] + (if point then "." + s[f..fe] else "") == s[..fe];
    assert s[..fe] + s[fe..end] == s[..end];
  }

  lemma ScannedExponent(s: string, i: nat) returns (x: Option<(char, string, string)>)
    requires i <= |s| && ScanExponent(s, i).Some?
    ensures var (negative, digits, end) := ScanExponent(s, i).value;
      match x
      case None => !IsExponentMark(At(s, i)) && !negative && digits == "" && end == i
      case Some((mark, sign, digits')) =>
        && IsExponentMark(mark) && (sign == "" || sign == "+" || sign == "-") && digits' == digits
        && digits != "" && AllDigits(digits) && negative == (sign == "-")
        && s[i..end] == [mark] + sign + digits && !IsDigit(At(s, end))
  {
    hide DigitEnd;
    if IsExponentMark(At(s, i)) {
      var j := if IsSign(At(s, i + 1)) then i + 2 else i + 1;
      var e := DigitEnd(s, j);
      x := Some((s[i], s[i + 1..j], s[j..e]));
      assert s[i..e] == [s[i]] + s[i + 1..j] + s[j..e];
    } else {
      x := None;
    }
  }
}
