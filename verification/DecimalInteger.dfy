/** A growable decimal integer, read most significant digit first and then turned in place into
    little-endian digits for carrying arithmetic. */
module DecimalIntegers {
  import opened Powers
  import opened DecimalDigits
  import opened DecimalExponents
  import opened MachineIntegers

  function Reversed<T>(s: seq<T>): (r: seq<T>)
    ensures |r| == |s|
    ensures forall i :: 0 <= i < |s| ==> r[i] == s[|s| - 1 - i]
  {
    seq(|s|, i requires 0 <= i < |s| => s[|s| - 1 - i])
  }

  /** The value of little-endian digits. */
  ghost function LittleEndian(s: seq<Digit>): nat {
    if |s| == 0 then 0 else LittleEndian(s[..|s| - 1]) + s[|s| - 1] * Pow(10, |s| - 1)
  }

  lemma {:induction false} ReversedValue(s: seq<Digit>)
    ensures LittleEndian(Reversed(s)) == DecimalValue(s)
  {
    if |s| > 0 {
      var head, tail := s[0], s[1..];
      ReversedValue(tail);
      assert Reversed(s)[..|s| - 1] == Reversed(tail);
      assert s == [head] + tail;
      DecimalConcat([head], tail);
      assert DecimalValue([head]) == head;
    }
  }

  lemma ReversedByIndex(before: seq<Digit>, now: seq<Digit>)
    requires |now| == |before| && forall i :: 0 <= i < |before| ==> now[i] == before[|before| - 1 - i]
    ensures now == Reversed(before)
  {
  }

  lemma PushTop(s: seq<Digit>, d: Digit)
    ensures LittleEndian(s + [d]) == LittleEndian(s) + d * Pow(10, |s|)
  {
    assert (s + [d])[..|s|] == s;
  }

  lemma {:induction false} LittleEndianBelow(s: seq<Digit>)
    ensures LittleEndian(s) < Pow(10, |s|)
  {
    if |s| > 0 {
      LittleEndianBelow(s[..|s| - 1]);
      var top: nat := s[|s| - 1];
      MulMonotone(top + 1, 10, Pow(10, |s| - 1));
      Distribute(top, 1, Pow(10, |s| - 1));
    }
  }

  lemma {:induction false} LittleEndianConcat(s: seq<Digit>, t: seq<Digit>)
    ensures LittleEndian(s + t) == LittleEndian(s) + LittleEndian(t) * Pow(10, |s|)
    decreases |t|
  {
    if |t| == 0 {
      assert s + t == s;
    } else {
      var t', d := t[..|t| - 1], t[|t| - 1];
      assert s + t == (s + t') + [d];
      LittleEndianConcat(s, t');
      PushTop(s + t', d);
      PowAdd(10, |t'|, |s|);
      MulAssoc(d, Pow(10, |t'|), Pow(10, |s|));
      Distribute(LittleEndian(t'), d * Pow(10, |t'|), Pow(10, |s|));
    }
  }

  lemma {:induction false} LittleEndianZero(s: seq<Digit>)
    ensures LittleEndian(s) == 0 <==> forall i :: 0 <= i < |s| ==> s[i] == 0
  {
    if |s| > 0 {
      LittleEndianZero(s[..|s| - 1]);
      assert forall i :: 0 <= i < |s| - 1 ==> s[..|s| - 1][i] == s[i];
      MulMonotone2(0, s[|s| - 1], 0, Pow(10, |s| - 1));
      if s[|s| - 1] > 0 {
        MulMonotone2(1, s[|s| - 1], 1, Pow(10, |s| - 1));
      }
    }
  }

  /** The invariant of a carry pass. */
  ghost predicate CarryPass(done: seq<Digit>, prefix: seq<Digit>, factor: nat, carry: nat) {
    carry <= factor && LittleEndian(done) + carry * Pow(10, |done|) == LittleEndian(prefix) * factor
  }

  lemma CarryStep(done: seq<Digit>, before: seq<Digit>, factor: nat, carry: nat)
    requires |done| < |before| && factor > 0
    requires CarryPass(done, before[..|done|], factor, carry)
    ensures var product := before[|done|] * factor + carry;
      CarryPass(done + [product % 10], before[..|done| + 1], factor, product / 10)
  {
    var i := |done|;
    var digit: nat, unit: nat := before[i], Pow(10, i);
    var product := digit * factor + carry;
    MulMonotone(digit, 9, factor);
    PushTop(done, product % 10);
    assert before[..i + 1] == before[..i] + [digit];
    PushTop(before[..i], digit);
    PowStep(10, i);
    hide Pow;
    hide LittleEndian;
    CarryArithmetic(LittleEndian(done), LittleEndian(before[..i]), digit, factor, carry, unit);
  }

  lemma CarryArithmetic(low: nat, oldLow: nat, digit: nat, factor: nat, carry: nat, unit: nat)
    requires low + carry * unit == oldLow * factor
    ensures var product := digit * factor + carry;
      (low + (product % 10) * unit) + (product / 10) * (10 * unit) == (oldLow + digit * unit) * factor
  {
    var product := digit * factor + carry;
    assert product == (product / 10) * 10 + product % 10;
    MulAssoc(product / 10, 10, unit);
    Distribute((product / 10) * 10, product % 10, unit);
    Distribute(digit * factor, carry, unit);
    Distribute(oldLow, digit * unit, factor);
    assert (digit * factor) * unit == (digit * unit) * factor;
  }

  lemma CarrySpill(done: seq<Digit>, carry: nat, total: nat)
    requires LittleEndian(done) + carry * Pow(10, |done|) == total
    ensures LittleEndian(done + [carry % 10]) + (carry / 10) * Pow(10, |done| + 1) == total
  {
    PushTop(done, carry % 10);
    PowStep(10, |done|);
    hide Pow;
    hide LittleEndian;
    SpillArithmetic(carry, Pow(10, |done|));
  }

  lemma SpillArithmetic(carry: nat, unit: nat)
    ensures carry % 10 * unit + carry / 10 * (10 * unit) == carry * unit
  {
    var q, r := carry / 10, carry % 10;
    assert carry == q * 10 + r;
    MulAssoc(q, 10, unit);
    Distribute(q * 10, r, unit);
  }

  class DecimalInteger {
    var digits: array<Digit>
    var length: nat

    ghost predicate Valid()
      reads this, digits
    {
      length <= digits.Length
    }

    ghost function Contents(): seq<Digit>
      requires Valid()
      reads this, digits
    {
      digits[..length]
    }

    constructor ()
      ensures Valid() && Contents() == [] && fresh(digits)
    {
      digits := new Digit[0];
      length := 0;
    }

    /** Grow geometrically from an initial capacity of 32; the contents move to the new storage. */
    method Reserve(required: nat)
      requires Valid() && required <= SIZE_MAX
      modifies this`digits
      ensures Valid() && digits.Length >= required && Contents() == old(Contents())
      ensures digits == old(digits) || fresh(digits)
      ensures required <= old(digits.Length) ==> digits == old(digits)
      ensures required > old(digits.Length) ==>
        (digits.Length >= 2 * old(digits.Length) || digits.Length == required)
        && (digits.Length <= 2 * required || digits.Length == 32)
    {
      if required <= digits.Length {
        return;
      }
      var next := if digits.Length == 0 then 32 else digits.Length;
      while next < required
        invariant 0 < next && digits.Length <= next
        invariant next == digits.Length || next >= 2 * digits.Length
        invariant next == digits.Length || next == 32 || next <= 2 * required
        decreases if next < required then required - next else 0
      {
        if next > SIZE_MAX / 2 {
          next := required;
          break;
        }
        next := next * 2;
      }
      var grown := new Digit[next](i requires 0 <= i < next reads this, digits => if i < digits.Length then digits[i] else 0);
      assert grown[..length] == digits[..length];
      digits := grown;
    }

    method AppendForward(digit: Digit)
      requires Valid() && length < SIZE_MAX
      modifies this, digits
      ensures Valid() && Contents() == old(Contents()) + [digit]
      ensures digits == old(digits) || fresh(digits)
    {
      Reserve(length + 1);
      digits[length] := digit;
      length := length + 1;
      assert digits[..length] == old(Contents()) + [digit];
    }

    /** Drop leading zeros and reverse, in place. */
    method NormaliseToLittleEndian()
      requires Valid()
      modifies this`length, digits
      ensures Valid() && Contents() == Reversed(Significant(old(Contents())))
    {
      StripLeading();
      Reverse();
    }

    method StripLeading()
      requires Valid()
      modifies this`length, digits
      ensures Valid() && Contents() == Significant(old(Contents()))
    {
      var first := 0;
      assert digits[..length][first..] == digits[..length];
      while first < length && digits[first] == 0
        invariant first <= length
        invariant Significant(digits[..length][first..]) == Significant(digits[..length])
      {
        assert digits[..length][first..][1..] == digits[..length][first + 1..];
        first := first + 1;
      }
      ghost var kept := digits[..length][first..];
      assert first < length ==> kept[0] == digits[first];
      if first != 0 {
        length := length - first;
        forall i | 0 <= i < length {
          digits[i] := digits[first + i];
        }
      }
      assert digits[..length] == kept;
    }

    method Reverse()
      requires Valid()
      modifies digits
      ensures Contents() == Reversed(old(Contents()))
    {
      ghost var before := digits[..length];
      var left, right := 0, length;
      while left < right
        invariant 0 <= left <= right == length - left
        invariant forall i :: left <= i < right ==> digits[i] == before[i]
        invariant forall i :: 0 <= i < left ==> digits[i] == before[length - 1 - i]
        invariant forall i :: right <= i < length ==> digits[i] == before[length - 1 - i]
        decreases right - left
      {
        right := right - 1;
        if left >= right {
          break;
        }
        digits[left], digits[right] := digits[right], digits[left];
        left := left + 1;
      }
      ReversedByIndex(before, digits[..length]);
    }

    /** Multiply in place, carrying upwards. */
    method MultiplySmall(factor: nat)
      requires Valid() && 0 < factor <= 1024 && length + 4 <= SIZE_MAX
      modifies this, digits
      ensures Valid() && LittleEndian(Contents()) == LittleEndian(old(Contents())) * factor
      ensures length <= old(length) + 4
      ensures digits == old(digits) || fresh(digits)
    {
      hide Pow;
      hide LittleEndian;
      ghost var before := digits[..length];
      var carry: nat := MultiplyPass(factor);
      ghost var total := LittleEndian(before) * factor;
      var spilled := 0;
      while carry != 0
        invariant Valid() && length == old(length) + spilled
        invariant LittleEndian(Contents()) + carry * Pow(10, length) == total
        invariant spilled <= 4
        invariant carry <= (if spilled == 0 then 1024 else if spilled == 1 then 102 else if spilled == 2 then 10
                            else if spilled == 3 then 1 else 0)
        invariant digits == old(digits) || fresh(digits)
        decreases carry
      {
        CarrySpill(Contents(), carry, total);
        AppendForward(carry % 10);
        carry := carry / 10;
        spilled := spilled + 1;
      }
    }

    method MultiplyPass(factor: nat) returns (carry: nat)
      requires Valid() && 0 < factor
      modifies digits
      ensures carry <= factor
      ensures LittleEndian(Contents()) + carry * Pow(10, length) == LittleEndian(old(Contents())) * factor
    {
      hide Pow;
      hide LittleEndian;
      hide CarryPass;
      ghost var before := digits[..length];
      ghost var done: seq<Digit> := [];
      carry := 0;
      var i := 0;
      CarryStart(before[..0], factor);
      while i < length
        invariant i <= length && |done| == i
        invariant digits[..length] == done + before[i..]
        invariant CarryPass(done, before[..i], factor, carry)
      {
        var digit: nat := digits[i];
        assert digit == digits[..length][i] == before[i];
        CarryStep(done, before, factor, carry);
        var low, next := CarryDigit(digit, factor, carry);
        Store(i, low);
        ReplaceDigit(done, before, i, low);
        done := done + [low];
        carry := next;
        i := i + 1;
      }
      assert before[..i] == before && digits[..length] == done;
      CarryEnd(done, before, factor, carry);
    }

    method Store(i: nat, digit: Digit)
      requires Valid() && i < length
      modifies digits
      ensures digits[..length] == old(digits[..length])[i := digit]
    {
      digits[i] := digit;
    }

    /** Read the value with low digits removed: fails unless those are all zero, at least one digit
        is left, and the rest fits 64 bits. */
    method ToU64(low: nat) returns (ok: bool, value: U64)
      requires Valid()
      ensures ok <==> low < length && LittleEndian(Contents()[..low]) == 0 && LittleEndian(Contents()[low..]) <= U64_MAX
      ensures ok ==> value == LittleEndian(Contents()[low..])
    {
      if low >= length {
        return false, 0;
      }
      ghost var all: seq<Digit> := digits[..length];
      LittleEndianZero(all[..low]);
      var i := 0;
      while i < low
        invariant i <= low
        invariant forall j :: 0 <= j < i ==> all[j] == 0
      {
        if digits[i] != 0 {
          assert all[..low][i] != 0;
          return false, 0;
        }
        i := i + 1;
      }
      ok, value := Accumulate(low);
    }

    method Accumulate(low: nat) returns (ok: bool, value: U64)
      requires Valid() && low < length
      ensures ok <==> LittleEndian(Contents()[low..]) <= U64_MAX
      ensures ok ==> value == LittleEndian(Contents()[low..])
    {
      hide Pow;
      hide LittleEndian;
      ghost var all: seq<Digit> := digits[..length];
      value := 0;
      var i := length;
      EmptyLittleEndian();
      assert all[i..] == [];
      while i > low
        invariant low <= i <= length
        invariant value == LittleEndian(all[i..])
      {
        i := i - 1;
        var digit: nat := digits[i];
        assert all[i..] == [all[i]] + all[i + 1..];
        PrependLow(all[i], all[i + 1..]);
        if value > (U64_MAX - digit) / 10 {
          HighPartDominates(all, low, i);
          return false, 0;
        }
        value := value * 10 + digit;
      }
      return true, value;
    }
  }

  /** One digit of a carry pass: what stays and what is carried. */
  method CarryDigit(digit: nat, factor: nat, carry: nat) returns (low: Digit, next: nat)
    ensures low == (digit * factor + carry) % 10 && next == (digit * factor + carry) / 10
  {
    MulMonotone2(0, digit, 0, factor);
    var product: nat := digit * factor + carry;
    return product % 10, product / 10;
  }

  lemma ReplaceDigit(done: seq<Digit>, before: seq<Digit>, i: nat, digit: Digit)
    requires |done| == i < |before|
    ensures (done + before[i..])[i := digit] == (done + [digit]) + before[i + 1..]
  {
  }

  lemma CarryStart(prefix: seq<Digit>, factor: nat)
    requires prefix == []
    ensures CarryPass([], prefix, factor, 0)
  {
  }

  lemma CarryEnd(done: seq<Digit>, before: seq<Digit>, factor: nat, carry: nat)
    requires CarryPass(done, before, factor, carry)
    ensures carry <= factor && LittleEndian(done) + carry * Pow(10, |done|) == LittleEndian(before) * factor
  {
  }

  lemma EmptyLittleEndian()
    ensures LittleEndian([]) == 0
  {
  }

  lemma PrependLow(d: Digit, s: seq<Digit>)
    ensures LittleEndian([d] + s) == d + 10 * LittleEndian(s)
  {
    LittleEndianConcat([d], s);
    assert LittleEndian([d]) == d;
    assert Pow(10, 1) == 10;
  }

  lemma HighPartDominates(s: seq<Digit>, low: nat, i: nat)
    requires low <= i <= |s|
    ensures LittleEndian(s[i..]) <= LittleEndian(s[low..])
  {
    hide Pow;
    hide LittleEndian;
    PowStep(10, i - low);
    assert s[low..] == s[low..i] + s[i..];
    LittleEndianConcat(s[low..i], s[i..]);
    MulMonotone(1, Pow(10, i - low), LittleEndian(s[i..]));
  }
}
