/** Most-significant-first decimal digit sequences and the naturals they spell. */
module DecimalDigits {
  import opened Powers

  type Digit = d: nat | d < 10

  ghost function DecimalValue(s: seq<Digit>): nat {
    if |s| == 0 then 0 else DecimalValue(s[..|s| - 1]) * 10 + s[|s| - 1]
  }

  lemma PushDigit(s: seq<Digit>, d: Digit)
    ensures DecimalValue(s + [d]) == DecimalValue(s) * 10 + d
  {
    assert (s + [d])[..|s|] == s;
  }

  lemma {:induction false} DecimalConcat(s: seq<Digit>, t: seq<Digit>)
    ensures DecimalValue(s + t) == DecimalValue(s) * Pow(10, |t|) + DecimalValue(t)
  {
    if |t| == 0 {
      assert s + t == s;
    } else {
      var t', d := t[..|t| - 1], t[|t| - 1];
      assert s + t == (s + t') + [d];
      DecimalConcat(s, t');
      PushDigit(s + t', d);
      assert Pow(10, |t|) == 10 * Pow(10, |t'|);
      MulAssoc(DecimalValue(s), Pow(10, |t'|), 10);
      Distribute(DecimalValue(s) * Pow(10, |t'|), DecimalValue(t'), 10);
    }
  }

  lemma {:induction false} DecimalBelow(s: seq<Digit>)
    ensures DecimalValue(s) < Pow(10, |s|)
  {
    if |s| > 0 {
      DecimalBelow(s[..|s| - 1]);
    }
  }

  /** A nonzero leading digit fixes the decimal order. */
  lemma DecimalAtLeast(s: seq<Digit>)
    requires |s| > 0 && s[0] != 0
    ensures Pow(10, |s| - 1) <= DecimalValue(s)
  {
    assert s == [s[0]] + s[1..];
    DecimalConcat([s[0]], s[1..]);
    assert DecimalValue([s[0]]) == s[0];
    MulMonotone(1, s[0], Pow(10, |s| - 1));
  }

  lemma {:induction false} DecimalZero(s: seq<Digit>)
    ensures DecimalValue(s) == 0 <==> forall i :: 0 <= i < |s| ==> s[i] == 0
  {
    if |s| > 0 {
      DecimalZero(s[..|s| - 1]);
      assert forall i :: 0 <= i < |s| - 1 ==> s[..|s| - 1][i] == s[i];
    }
  }

  lemma LeadingZeros(zeros: seq<Digit>, s: seq<Digit>)
    requires forall i :: 0 <= i < |zeros| ==> zeros[i] == 0
    ensures DecimalValue(zeros + s) == DecimalValue(s)
  {
    DecimalZero(zeros);
    DecimalConcat(zeros, s);
  }

  lemma PrefixDigit(s: seq<Digit>, i: nat)
    requires i < |s|
    ensures DecimalValue(s[..i + 1]) == DecimalValue(s[..i]) * 10 + s[i]
  {
    assert s[..i + 1] == s[..i] + [s[i]];
    PushDigit(s[..i], s[i]);
  }

  lemma {:induction false} PrefixNotLarger(s: seq<Digit>, i: nat)
    requires i <= |s|
    ensures DecimalValue(s[..i]) <= DecimalValue(s)
    decreases |s| - i
  {
    if i < |s| {
      PrefixDigit(s, i);
      PrefixNotLarger(s, i + 1);
    } else {
      assert s[..i] == s;
    }
  }

  /** The digits from the first nonzero one on. */
  ghost function Significant(s: seq<Digit>): (r: seq<Digit>)
    ensures |r| <= |s|
    ensures r != [] ==> r[0] != 0
  {
    if |s| == 0 then [] else if s[0] == 0 then Significant(s[1..]) else s
  }

  lemma {:induction false} SignificantValue(s: seq<Digit>)
    ensures DecimalValue(Significant(s)) == DecimalValue(s)
  {
    if |s| > 0 && s[0] == 0 {
      SignificantValue(s[1..]);
      assert s == [s[0]] + s[1..];
      LeadingZeros([s[0]], s[1..]);
    }
  }

  lemma {:induction false} SignificantPush(s: seq<Digit>, d: Digit)
    ensures Significant(s + [d]) == if Significant(s) == [] && d == 0 then [] else Significant(s) + [d]
  {
    if |s| == 0 {
      assert s + [d] == [d];
      assert [d][1..] == [];
    } else if s[0] == 0 {
      SignificantPush(s[1..], d);
      assert (s + [d])[1..] == s[1..] + [d];
    }
  }
}
