/** Locale-independent character classes, and C strings read one character at a time. */
module Ascii {
  import opened DecimalDigits

  predicate IsSpace(c: char) {
    c == ' ' || c == '\t' || c == '\r' || c == '\n' || c == '\U{000C}' || c == '\U{000B}'
  }

  predicate IsDigit(c: char) { '0' <= c <= '9' }

  predicate IsUpper(c: char) { 'A' <= c <= 'Z' }

  predicate IsLower(c: char) { 'a' <= c <= 'z' }

  predicate IsAlpha(c: char) { IsUpper(c) || IsLower(c) }

  function ToLower(c: char): char {
    if IsUpper(c) then ((c as int) + 32) as char else c
  }

  function ToUpper(c: char): char {
    if IsLower(c) then ((c as int) - 32) as char else c
  }

  function DigitValue(c: char): Digit {
    if IsDigit(c) then (c as int) - ('0' as int) else 0
  }

  /** The character at a position, or the terminator past the end. */
  function At(s: string, i: nat): char {
    if i < |s| then s[i] else '\0'
  }

  predicate IsAlnum(c: char) { IsAlpha(c) || IsDigit(c) }

  predicate AllAlpha(s: string) { forall i :: 0 <= i < |s| ==> IsAlpha(s[i]) }

  function Lowered(s: string): (r: string)
    ensures |r| == |s| && forall i :: 0 <= i < |s| ==> r[i] == ToLower(s[i])
  {
    seq(|s|, i requires 0 <= i < |s| => ToLower(s[i]))
  }

  predicate AllDigits(s: string) { forall i :: 0 <= i < |s| ==> IsDigit(s[i]) }

  predicate AllSpaces(s: string) { forall i :: 0 <= i < |s| ==> IsSpace(s[i]) }

  function DigitsOf(s: string): (d: seq<Digit>)
    ensures |d| == |s|
  {
    seq(|s|, i requires 0 <= i < |s| => DigitValue(s[i]))
  }

  /** Where the run of spaces from i ends. */
  function SpaceEnd(s: string, i: nat): (e: nat)
    requires i <= |s|
    ensures i <= e <= |s| && AllSpaces(s[i..e]) && !IsSpace(At(s, e))
    decreases |s| - i
  {
    if IsSpace(At(s, i)) then
      var e := SpaceEnd(s, i + 1);
      assert s[i..e] == [s[i]] + s[i + 1..e];
      e
    else i
  }

  /** Where the run of digits from i ends. */
  function DigitEnd(s: string, i: nat): (e: nat)
    requires i <= |s|
    ensures i <= e <= |s| && AllDigits(s[i..e]) && !IsDigit(At(s, e))
    decreases |s| - i
  {
    if IsDigit(At(s, i)) then
      var e := DigitEnd(s, i + 1);
      assert s[i..e] == [s[i]] + s[i + 1..e];
      e
    else i
  }

  lemma {:induction false} DigitEndUnique(s: string, i: nat, e: nat)
    requires i <= e <= |s| && AllDigits(s[i..e]) && !IsDigit(At(s, e))
    ensures DigitEnd(s, i) == e
    decreases e - i
  {
    if i < e {
      assert s[i] == s[i..e][0];
      assert s[i + 1..e] == s[i..e][1..];
      DigitEndUnique(s, i + 1, e);
    }
  }

  lemma {:induction false} SpaceEndUnique(s: string, i: nat, e: nat)
    requires i <= e <= |s| && AllSpaces(s[i..e]) && !IsSpace(At(s, e))
    ensures SpaceEnd(s, i) == e
    decreases e - i
  {
    if i < e {
      assert s[i] == s[i..e][0];
      assert s[i + 1..e] == s[i..e][1..];
      SpaceEndUnique(s, i + 1, e);
    }
  }

  const DIGITS: string := "0123456789"
  const LOWER: string := "abcdefghijklmnopqrstuvwxyz"
  const UPPER: string := "ABCDEFGHIJKLMNOPQRSTUVWXYZ"

  /** The digits by their characters. */
  lemma DigitsByCharacter(c: char, d: nat)
    requires d < 10
    ensures IsDigit(c) && DigitValue(c) == d <==> c == DIGITS[d]
  {
    assert DIGITS[d] == '0' + d as char;
  }

  /** The letters by their characters, and their two cases. */
  lemma LettersByCharacter(i: nat)
    requires i < 26
    ensures ToLower(UPPER[i]) == LOWER[i] == ToLower(LOWER[i]) && ToUpper(LOWER[i]) == UPPER[i] == ToUpper(UPPER[i])
    ensures IsUpper(UPPER[i]) && IsLower(LOWER[i])
  {
    UpperAt(i);
    LowerAt(i);
    hide UPPER;
    hide LOWER;
  }

  lemma UpperAt(i: nat)
    requires i < 26
    ensures |UPPER| == 26 && UPPER[i] == 'A' + i as char
  {
  }

  lemma LowerAt(i: nat)
    requires i < 26
    ensures |LOWER| == 26 && LOWER[i] == 'a' + i as char
  {
  }

  /** No other characters are letters or change with the case. */
  lemma LettersOnly(c: char)
    ensures IsUpper(c) ==> c in UPPER
    ensures IsLower(c) ==> c in LOWER
    ensures !IsUpper(c) ==> ToLower(c) == c
    ensures !IsLower(c) ==> ToUpper(c) == c
  {
    if IsUpper(c) {
      UpperAt(c as int - 'A' as int);
    }
    if IsLower(c) {
      LowerAt(c as int - 'a' as int);
    }
    hide UPPER;
    hide LOWER;
  }

  /** The spaces are the blank and the five control characters from tab to carriage return. */
  lemma SpacesByCode(c: char)
    ensures IsSpace(c) <==> c as int == 32 || 9 <= c as int <= 13
  {
  }
}
