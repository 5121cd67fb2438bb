/** Little-endian sequences of 32-bit limbs and the naturals they stand for. */
module Limbs {
  import opened Powers

  const BASE: nat := 0x1_0000_0000

  type Limb = x: nat | x < 0x1_0000_0000

  /** Truncation to 32 bits. */
  function Low32(x: int): Limb { x % BASE }

  /** The part truncation drops. */
  function High32(x: nat): nat { x / BASE }

  ghost function ValueOf(s: seq<Limb>): nat {
    if |s| == 0 then 0 else ValueOf(s[..|s| - 1]) + s[|s| - 1] * Pow(BASE, |s| - 1)
  }

  /** No leading zero limb. */
  ghost predicate NormalForm(s: seq<Limb>) {
    |s| == 0 || s[|s| - 1] != 0
  }

  lemma PushValue(s: seq<Limb>, x: Limb)
    ensures ValueOf(s + [x]) == ValueOf(s) + x * Pow(BASE, |s|)
  {
    assert (s + [x])[..|s|] == s;
  }

  lemma PrefixValue(s: seq<Limb>, i: nat)
    requires i < |s|
    ensures ValueOf(s[..i + 1]) == ValueOf(s[..i]) + s[i] * Pow(BASE, i)
  {
    assert s[..i + 1] == s[..i] + [s[i]];
    PushValue(s[..i], s[i]);
  }

  lemma {:induction false} ConcatValue(s: seq<Limb>, t: seq<Limb>)
    ensures ValueOf(s + t) == ValueOf(s) + ValueOf(t) * Pow(BASE, |s|)
    decreases |t|
  {
    if |t| == 0 {
      assert s + t == s;
    } else {
      var t', x := t[..|t| - 1], t[|t| - 1];
      assert s + t == (s + t') + [x];
      ConcatValue(s, t');
      PushValue(s + t', x);
      PowAdd(BASE, |t'|, |s|);
      MulAssoc(x, Pow(BASE, |t'|), Pow(BASE, |s|));
      Distribute(ValueOf(t'), x * Pow(BASE, |t'|), Pow(BASE, |s|));
    }
  }

  lemma SuffixValue(s: seq<Limb>, i: nat)
    requires i < |s|
    ensures ValueOf(s[i..]) == s[i] + ValueOf(s[i + 1..]) * BASE
  {
    assert s[i..] == [s[i]] + s[i + 1..];
    ConcatValue([s[i]], s[i + 1..]);
    assert ValueOf([s[i]]) == s[i];
    assert Pow(BASE, 1) == BASE;
  }

  lemma DigitBelow(low: nat, digit: nat, bound: nat, unit: nat)
    requires low < unit && digit < bound
    ensures low + digit * unit < bound * unit
  {
    MulMonotone(digit + 1, bound, unit);
    Distribute(digit, 1, unit);
  }

  lemma {:induction false} ValueBelow(s: seq<Limb>)
    ensures ValueOf(s) < Pow(BASE, |s|)
  {
    if |s| > 0 {
      ValueBelow(s[..|s| - 1]);
      DigitBelow(ValueOf(s[..|s| - 1]), s[|s| - 1], BASE, Pow(BASE, |s| - 1));
    }
  }

  /** Normal form is exactly the form whose length cannot shrink. */
  lemma NormalFormIff(s: seq<Limb>)
    requires |s| > 0
    ensures NormalForm(s) <==> Pow(BASE, |s| - 1) <= ValueOf(s)
  {
    ValueBelow(s[..|s| - 1]);
    if NormalForm(s) {
      MulMonotone(1, s[|s| - 1], Pow(BASE, |s| - 1));
    }
  }

  lemma {:induction false} ZeroValue(s: seq<Limb>)
    requires forall i :: 0 <= i < |s| ==> s[i] == 0
    ensures ValueOf(s) == 0
  {
    if |s| > 0 {
      ZeroValue(s[..|s| - 1]);
    }
  }

  /** Dropping a leading zero limb keeps the value. */
  lemma DropLeadingZero(s: seq<Limb>)
    requires |s| > 0 && s[|s| - 1] == 0
    ensures ValueOf(s[..|s| - 1]) == ValueOf(s)
  {
  }

  lemma SplitAt(s: seq<Limb>, i: nat)
    requires i < |s|
    ensures ValueOf(s) == ValueOf(s[..i]) + s[i] * Pow(BASE, i) + ValueOf(s[i + 1..]) * Pow(BASE, i + 1)
  {
    assert s == s[..i + 1] + s[i + 1..];
    ConcatValue(s[..i + 1], s[i + 1..]);
    PrefixValue(s, i);
  }

  /** The first differing limb from the top decides the order. */
  lemma TopDifferenceDecides(s: seq<Limb>, t: seq<Limb>, i: nat)
    requires |s| == |t| && i < |s|
    requires s[i] < t[i] && s[i + 1..] == t[i + 1..]
    ensures ValueOf(s) < ValueOf(t)
  {
    SplitAt(s, i);
    SplitAt(t, i);
    ValueBelow(s[..i]);
    DigitBelow(ValueOf(s[..i]), s[i], t[i], Pow(BASE, i));
  }

  lemma LongerIsLarger(s: seq<Limb>, t: seq<Limb>)
    requires |s| < |t| && NormalForm(t)
    ensures ValueOf(s) < ValueOf(t)
  {
    ValueBelow(s);
    NormalFormIff(t);
    PowMonotone(BASE, |s|, |t| - 1);
  }

  /** One limb of a multiply-and-carry pass. */
  lemma MultiplyStep(low: nat, oldLow: nat, limb: nat, factor: nat, carry: nat, addend: nat, unit: nat)
    requires low + carry * unit == oldLow * factor + addend
    ensures var product := limb * factor + carry;
      (low + Low32(product) * unit) + High32(product) * (BASE * unit) == (oldLow + limb * unit) * factor + addend
  {
    var product := limb * factor + carry;
    assert product == (product / BASE) * BASE + product % BASE;
    calc {
      (low + (product % BASE) * unit) + (product / BASE) * (BASE * unit);
    ==  { MulAssoc(product / BASE, BASE, unit); }
      low + (product % BASE) * unit + ((product / BASE) * BASE) * unit;
    ==  { assert ((product / BASE) * BASE) * unit + (product % BASE) * unit == product * unit; }
      low + product * unit;
    ==  { assert product * unit == (limb * factor) * unit + carry * unit; }
      oldLow * factor + addend + (limb * factor) * unit;
    ==  { assert (limb * factor) * unit == (limb * unit) * factor; }
      (oldLow + limb * unit) * factor + addend;
    }
  }

  /** One limb of a subtract-with-borrow pass. */
  lemma SubtractStep(low: int, left: int, right: int, l: int, r: int, borrow: int, unit: int, d: int, b: int)
    requires low + right == left + borrow * unit
    requires d - b * BASE == l - (r + borrow)
    ensures (low + d * unit) + (right + r * unit) == (left + l * unit) + b * (BASE * unit)
  {
    assert d * unit == (l - r - borrow + b * BASE) * unit;
    assert (l - r - borrow + b * BASE) * unit == l * unit - r * unit - borrow * unit + (b * BASE) * unit;
    MulAssoc(b, BASE, unit);
  }

  lemma LimbPower(n: nat)
    ensures Pow(BASE, n) == Pow(2, 32 * n)
  {
    PowTwoValues();
    PowOfPow(2, 32, n);
  }

  /** The bit length is 32 for every lower limb plus the bits of the top limb. */
  lemma BitLengthByTop(s: seq<Limb>)
    requires |s| > 0 && NormalForm(s)
    ensures BitLength(ValueOf(s)) == 32 * (|s| - 1) + BitLength(s[|s| - 1])
  {
    var n, top := |s| - 1, s[|s| - 1];
    var bits, unit := BitLength(top), Pow(BASE, n);
    ValueBelow(s[..n]);
    BitLengthBounds(top);
    LimbPower(n);
    PowAdd(2, bits, 32 * n);
    PowAdd(2, bits - 1, 32 * n);
    MulMonotone(Pow(2, bits - 1), top, unit);
    DigitBelow(ValueOf(s[..n]), top, Pow(2, bits), unit);
    BitLengthUnique(ValueOf(s), 32 * n + bits);
  }

  /** Moving the limbs up by whole words. */
  lemma WordShiftValue(zeros: seq<Limb>, s: seq<Limb>)
    requires forall i :: 0 <= i < |zeros| ==> zeros[i] == 0
    ensures ValueOf(zeros + s) == ValueOf(s) * Pow(2, 32 * |zeros|)
  {
    ZeroValue(zeros);
    ConcatValue(zeros, s);
    LimbPower(|zeros|);
  }

  /** Value of the first i limbs of a number that is shorter than i limbs, reading zeros above. */
  ghost function PaddedPrefix(s: seq<Limb>, i: nat): nat {
    ValueOf(s[..if i < |s| then i else |s|])
  }

  function LimbOrZero(s: seq<Limb>, i: nat): Limb {
    if i < |s| then s[i] else 0
  }

  lemma PaddedStep(s: seq<Limb>, i: nat)
    ensures PaddedPrefix(s, i + 1) == PaddedPrefix(s, i) + LimbOrZero(s, i) * Pow(BASE, i)
  {
    if i < |s| {
      PrefixValue(s, i);
    }
  }

  /** One limb of a right shift by one bit, from the top: `done` is the shifted upper part. */
  lemma HalveStep(limb: Limb, upper: nat, done: nat, carry: nat)
    requires upper == 2 * done + carry && carry < 2
    ensures limb / 2 + carry * 0x8000_0000 < BASE
    ensures limb + upper * BASE == 2 * ((limb / 2 + carry * 0x8000_0000) + done * BASE) + limb % 2
  {
  }
}
