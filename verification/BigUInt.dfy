/** The fixed-capacity unsigned integer workspace behind decimal conversion.

    Each method is proved against the natural number the limbs stand for.  The workspace can run
    out: the methods that may fail say exactly when they do. */
module BigUIntWorkspace {
  import opened Powers
  import opened Limbs

  const LIMB_CAPACITY: nat := 160

  /** The largest left shift of an n-limb value that the capacity check admits. */
  predicate ShiftFits(length: nat, bits: nat) {
    length == 0 || bits == 0 || length + bits / 32 + (if bits % 32 != 0 then 1 else 0) <= LIMB_CAPACITY
  }

  class BigUInt {
    const limbs: array<Limb>
    var length: nat

    ghost predicate Valid()
      reads this, limbs
    {
      limbs.Length == LIMB_CAPACITY && length <= LIMB_CAPACITY && NormalForm(limbs[..length])
    }

    ghost function Digits(): seq<Limb>
      requires length <= limbs.Length
      reads this, limbs
    {
      limbs[..length]
    }

    ghost function Value(): nat
      requires length <= limbs.Length
      reads this, limbs
    {
      ValueOf(limbs[..length])
    }

    constructor ()
      ensures Valid() && Value() == 0 && fresh(limbs)
    {
      limbs := new Limb[LIMB_CAPACITY](_ => 0);
      length := 0;
    }

    /** Structure assignment. */
    constructor Copy(source: BigUInt)
      requires source.Valid()
      ensures Valid() && Digits() == source.Digits() && Value() == source.Value() && fresh(limbs)
    {
      limbs := new Limb[LIMB_CAPACITY](
        i requires 0 <= i < LIMB_CAPACITY && source.Valid() reads source, source.limbs => source.limbs[i]);
      length := source.length;
      new;
      assert limbs[..length] == source.limbs[..source.length];
    }

    /** Structure assignment into an existing object. */
    method Assign(source: BigUInt)
      requires limbs.Length == LIMB_CAPACITY
      requires source.Valid() && source != this && source.limbs != limbs
      modifies this, limbs
      ensures Valid() && Digits() == source.Digits() && Value() == source.Value()
    {
      forall i | 0 <= i < LIMB_CAPACITY {
        limbs[i] := source.limbs[i];
      }
      length := source.length;
      assert limbs[..length] == source.limbs[..source.length];
    }

    method Normalise()
      requires limbs.Length == LIMB_CAPACITY && length <= LIMB_CAPACITY
      modifies this`length
      ensures Valid() && Value() == old(Value())
    {
      while length > 0 && limbs[length - 1] == 0
        invariant length <= LIMB_CAPACITY
        invariant Value() == old(Value())
      {
        DropLeadingZero(limbs[..length]);
        assert limbs[..length][..length - 1] == limbs[..length - 1];
        length := length - 1;
      }
    }

    /** Multiply by one limb and add one limb; fails exactly when the result does not fit the
        capacity. */
    method MultiplyAddSmall(multiplier: Limb, addend: Limb) returns (ok: bool)
      requires Valid() && multiplier > 0
      modifies this, limbs
      ensures ok <==> old(Value()) * multiplier + addend < Pow(BASE, limbs.Length)
      ensures ok ==> Valid() && Value() == old(Value()) * multiplier + addend
      ensures limbs.Length == LIMB_CAPACITY && length <= LIMB_CAPACITY
    {
      hide Pow;
      hide ValueOf;
      hide WithCarry;
      ghost var before := limbs[..length];
      ghost var total := Value() * multiplier + addend;
      var carry: nat := MultiplyPass(0, multiplier, addend);
      MultiplyKeepsTop(before, limbs[..length], multiplier, addend, carry);
      while carry != 0
        invariant carry < BASE
        invariant limbs.Length == LIMB_CAPACITY && length <= LIMB_CAPACITY
        invariant carry == 0 ==> NormalForm(limbs[..length])
        invariant WithCarry(limbs[..length], carry) == total
        decreases carry
      {
        if length >= LIMB_CAPACITY {
          CarryOverflows(limbs[..length], carry);
          return false;
        }
        AppendCarry(limbs[..length], carry);
        Append(Low32(carry));
        carry := High32(carry);
      }
      NoCarryFits(limbs[..length], limbs.Length);
      return true;
    }

    /** Overwrite one limb below the length. */
    method Store(i: nat, limb: Limb)
      requires limbs.Length == LIMB_CAPACITY && i < length <= LIMB_CAPACITY
      modifies limbs
      ensures limbs[..length] == old(limbs[..length])[i := limb]
    {
      limbs[i] := limb;
    }

    /** Store one more limb on top. */
    method Append(limb: Limb)
      requires limbs.Length == LIMB_CAPACITY && length < LIMB_CAPACITY
      modifies this, limbs
      ensures length == old(length) + 1
      ensures limbs[..length] == old(limbs[..length]) + [limb]
    {
      limbs[length] := limb;
      length := length + 1;
    }

    /** The carry loop over limbs[from..length]; the limbs below `from` must be zero. */
    method MultiplyPass(from: nat, multiplier: Limb, addend: Limb) returns (carry: nat)
      requires limbs.Length == LIMB_CAPACITY && from <= length <= LIMB_CAPACITY
      requires forall i :: 0 <= i < from ==> limbs[i] == 0
      requires from > 0 ==> addend == 0
      modifies limbs
      ensures carry < BASE
      ensures WithCarry(limbs[..length], carry) == old(Value()) * multiplier + addend
    {
      hide Pow;
      hide ValueOf;
      hide Partial;
      ghost var before := limbs[..length];
      ghost var done: seq<Limb> := limbs[..from];
      carry := addend;
      PartialStart(done, before[..from], multiplier, addend);
      var i := from;
      while i < length
        invariant from <= i <= length && |done| == i
        invariant limbs[..length] == done + before[i..]
        invariant Partial(done, before[..i], multiplier, addend, carry)
        invariant carry < BASE
      {
        var product := limbs[i] * multiplier + carry;
        PartialStep(done, before, i, multiplier, addend, carry);
        var digit := Low32(product);
        Store(i, digit);
        ReplaceFirst(done, before, i, digit);
        done := done + [digit];
        carry := High32(product);
        i := i + 1;
      }
      assert before[..i] == before && limbs[..length] == done;
      PartialEnd(done, before, multiplier, addend, carry);
    }

    method SetOne()
      requires limbs.Length == LIMB_CAPACITY
      modifies this, limbs
      ensures Valid() && Value() == 1
    {
      forall i | 0 <= i < LIMB_CAPACITY {
        limbs[i] := 0;
      }
      limbs[0] := 1;
      length := 1;
      OneValue();
      assert limbs[..1] == [1];
    }

    method BitCount() returns (bits: nat)
      requires Valid()
      ensures bits == BitLength(Value())
    {
      if length == 0 {
        return 0;
      }
      var top: nat := limbs[length - 1];
      bits := (length - 1) * 32;
      BitLengthByTop(limbs[..length]);
      while top != 0
        invariant bits + BitLength(top) == BitLength(Value())
      {
        bits := bits + 1;
        top := top / 2;
      }
    }

    /** -1, 0 or 1 as this is less than, equal to or greater than the other value. */
    method Compare(right: BigUInt) returns (order: int)
      requires Valid() && right.Valid()
      ensures -1 <= order <= 1
      ensures order < 0 <==> Value() < right.Value()
      ensures order > 0 <==> Value() > right.Value()
    {
      hide ValueOf;
      if length != right.length {
        if length < right.length {
          LongerIsLarger(limbs[..length], right.limbs[..right.length]);
          return -1;
        }
        LongerIsLarger(right.limbs[..right.length], limbs[..length]);
        return 1;
      }
      ghost var l, r := limbs[..length], right.limbs[..length];
      var i := length;
      while i > 0
        invariant 0 <= i <= length
        invariant l[i..] == r[i..]
      {
        i := i - 1;
        if limbs[i] != right.limbs[i] {
          if limbs[i] < right.limbs[i] {
            TopDifferenceDecides(l, r, i);
            return -1;
          }
          TopDifferenceDecides(r, l, i);
          return 1;
        }
        assert l[i..] == [l[i]] + l[i + 1..] && r[i..] == [r[i]] + r[i + 1..];
      }
      assert l == l[0..] && r == r[0..];
      return 0;
    }

    /** Multiply by 2^bits; fails exactly when the capacity check refuses the shift. */
    method ShiftLeft(bits: nat) returns (ok: bool)
      requires Valid()
      modifies this, limbs
      ensures ok <==> ShiftFits(old(length), bits)
      ensures Valid()
      ensures ok ==> Value() == old(Value()) * Pow(2, bits)
      ensures !ok ==> Value() == old(Value())
    {
      hide Pow;
      hide ValueOf;
      hide WithCarry;
      if length == 0 || bits == 0 {
        ShiftTrivial(limbs[..length], bits);
        return true;
      }
      var words, remainder := bits / 32, bits % 32;
      var oldLength := length;
      var extra := if remainder != 0 then 1 else 0;
      if words > LIMB_CAPACITY - oldLength || extra > LIMB_CAPACITY - oldLength - words {
        return false;
      }
      ghost var before := limbs[..length];
      MoveWords(words);
      if remainder != 0 {
        ghost var moved := limbs[..length];
        var factor := PowerOfTwoLimb(remainder);
        var carry: nat := MultiplyPass(words, factor, 0);
        MultiplyKeepsTop(moved, limbs[..length], factor, 0, carry);
        if carry != 0 {
          AppendCarry(limbs[..length], carry);
          Append(carry);
        }
        NoCarryFits(limbs[..length], length);
      }
      ShiftSplits(ValueOf(before), words, remainder);
      return true;
    }

    /** The block move of a left shift: the limbs go up by whole words over zeros. */
    method MoveWords(words: nat)
      requires Valid() && length > 0 && length + words <= LIMB_CAPACITY
      modifies this, limbs
      ensures Valid() && length == old(length) + words
      ensures forall i :: 0 <= i < words ==> limbs[i] == 0
      ensures Value() == old(Value()) * Pow(2, 32 * words)
    {
      hide Pow;
      hide ValueOf;
      ghost var before := limbs[..length];
      BlockMove(words);
      SliceOfTail(limbs[..], words, length);
      ZeroFill(words);
      ghost var zeros := limbs[..words];
      JoinWords(limbs[..], words, zeros, before);
      length := length + words;
      WordShiftValue(zeros, before);
    }

    method BlockMove(words: nat)
      requires length + words <= LIMB_CAPACITY == limbs.Length
      modifies limbs
      ensures limbs[words..words + length] == old(limbs[..length])
    {
      forall i | 0 <= i < length {
        limbs[words + i] := limbs[i];
      }
    }

    method ZeroFill(words: nat)
      requires words <= LIMB_CAPACITY == limbs.Length
      modifies limbs
      ensures forall i :: 0 <= i < words ==> limbs[i] == 0
      ensures limbs[words..] == old(limbs[words..])
    {
      forall i | 0 <= i < words {
        limbs[i] := 0;
      }
    }

    /** Halve, dropping the low bit. */
    method ShiftRightOne()
      requires Valid()
      modifies this, limbs
      ensures Valid() && Value() == old(Value()) / 2
    {
      hide Pow;
      hide ValueOf;
      ghost var before := limbs[..length];
      ghost var done: seq<Limb> := [];
      var carry: nat := 0;
      var i := length;
      assert before[i..] == [];
      EmptyValue();
      while i > 0
        invariant 0 <= i <= length == |before| && |done| == length - i && carry < 2
        invariant limbs[..length] == before[..i] + done
        invariant ValueOf(before[i..]) == 2 * ValueOf(done) + carry
      {
        i := i - 1;
        var limb := limbs[i];
        assert limb == limbs[..length][i] == before[i];
        HalveTop(before, i, done, carry);
        var digit := limb / 2 + carry * 0x8000_0000;
        Store(i, digit);
        ReplaceLast(before, done, i, digit);
        done := [digit] + done;
        carry := limb % 2;
      }
      assert before[0..] == before && limbs[..length] == done;
      Normalise();
    }

    /** Subtract a value that is not larger. */
    method Subtract(right: BigUInt)
      requires Valid() && right.Valid() && right != this && right.limbs != limbs
      requires right.Value() <= Value()
      modifies this, limbs
      ensures Valid() && Value() == old(Value()) - right.Value()
    {
      ghost var before := limbs[..length];
      ghost var borrow := SubtractPass(right);
      DifferenceEnd(limbs[..length], before, right.limbs[..right.length], borrow);
      Normalise();
    }

    /** The borrow loop. */
    method SubtractPass(right: BigUInt) returns (ghost carriedOut: nat)
      requires limbs.Length == LIMB_CAPACITY && length <= LIMB_CAPACITY
      requires right.Valid() && right.limbs != limbs
      modifies limbs
      ensures carriedOut < 2
      ensures Difference(limbs[..length], old(limbs[..length]), right.limbs[..right.length], carriedOut)
    {
      hide Difference;
      hide Low32;
      hide NormalForm;
      ghost var before, subtrahend := limbs[..length], right.limbs[..right.length];
      ghost var done: seq<Limb> := [];
      var borrow: nat := 0;
      var i := 0;
      DifferenceStart(before, subtrahend);
      while i < length
        invariant i <= length && |done| == i && borrow < 2
        invariant limbs[..length] == done + before[i..]
        invariant Difference(done, before, subtrahend, borrow)
      {
        var minuend: nat := limbs[i];
        assert minuend == limbs[..length][i] == before[i];
        var taken: nat := (if i < right.length then right.limbs[i] else 0) + borrow;
        DifferenceStep(done, before, subtrahend, borrow);
        assert taken == LimbOrZero(subtrahend, i) + borrow;
        var digit := Low32(minuend - taken);
        Store(i, digit);
        ReplaceFirst(done, before, i, digit);
        done := done + [digit];
        borrow := if minuend < taken then 1 else 0;
        i := i + 1;
      }
      assert limbs[..length] == done;
      carriedOut := borrow;
    }
  }

  lemma SliceOfTail(all: seq<Limb>, words: nat, n: nat)
    requires words + n <= |all|
    ensures all[words..words + n] == all[words..][..n]
  {
  }

  lemma JoinWords(all: seq<Limb>, words: nat, zeros: seq<Limb>, before: seq<Limb>)
    requires words + |before| <= |all| && all[..words] == zeros && all[words..][..|before|] == before
    ensures all[..words + |before|] == zeros + before
  {
    SliceOfTail(all, words, |before|);
  }

  lemma ReplaceFirst(done: seq<Limb>, before: seq<Limb>, i: nat, limb: Limb)
    requires |done| == i < |before|
    ensures (done + before[i..])[i := limb] == (done + [limb]) + before[i + 1..]
  {
  }

  lemma ReplaceLast(before: seq<Limb>, done: seq<Limb>, i: nat, limb: Limb)
    requires i < |before|
    ensures (before[..i + 1] + done)[i := limb] == before[..i] + ([limb] + done)
  {
  }

  /** A power of two below the limb base. */
  function PowerOfTwoLimb(e: nat): (p: Limb)
    requires e < 32
    ensures p == Pow(2, e) && p > 0
  {
    PowMonotone(2, e, 31);
    PowTwoValues();
    Pow(2, e)
  }

  lemma OneValue()
    ensures ValueOf([1]) == 1
  {
  }

  lemma EmptyValue()
    ensures ValueOf([]) == 0
  {
  }

  lemma ShiftTrivial(s: seq<Limb>, bits: nat)
    requires |s| == 0 || bits == 0
    ensures ValueOf(s) * Pow(2, bits) == ValueOf(s)
  {
  }

  lemma ShiftSplits(v: nat, words: nat, remainder: nat)
    ensures v * Pow(2, 32 * words + remainder) == (v * Pow(2, 32 * words)) * Pow(2, remainder)
    ensures Pow(2, 0) == 1
  {
    PowAdd(2, 32 * words, remainder);
    MulAssoc(v, Pow(2, 32 * words), Pow(2, remainder));
  }

  lemma HalveTop(before: seq<Limb>, i: nat, done: seq<Limb>, carry: nat)
    requires i < |before| && carry < 2
    requires ValueOf(before[i + 1..]) == 2 * ValueOf(done) + carry
    ensures before[i] / 2 + carry * 0x8000_0000 < BASE
    ensures ValueOf(before[i..]) == 2 * ValueOf([before[i] / 2 + carry * 0x8000_0000] + done) + before[i] % 2
  {
    hide ValueOf;
    SuffixValue(before, i);
    HalveStep(before[i], ValueOf(before[i + 1..]), ValueOf(done), carry);
    var top: Limb := before[i] / 2 + carry * 0x8000_0000;
    assert ([top] + done)[0..] == [top] + done && ([top] + done)[1..] == done;
    SuffixValue([top] + done, 0);
  }

  /** The invariant of the borrow loop, written with additions only. */
  ghost predicate Difference(done: seq<Limb>, left: seq<Limb>, right: seq<Limb>, borrow: nat) {
    && |done| <= |left|
    && ValueOf(done) + PaddedPrefix(right, |done|) == ValueOf(left[..|done|]) + borrow * Pow(BASE, |done|)
  }

  lemma DifferenceStart(left: seq<Limb>, right: seq<Limb>)
    ensures Difference([], left, right, 0)
  {
  }

  lemma DifferenceStep(done: seq<Limb>, left: seq<Limb>, right: seq<Limb>, borrow: nat)
    requires Difference(done, left, right, borrow) && |done| < |left| && borrow < 2
    ensures var i, taken: nat := |done|, LimbOrZero(right, |done|) + borrow;
      Difference(done + [Low32(left[i] - taken)], left, right, if left[i] < taken then 1 else 0)
  {
    var i := |done|;
    var l: nat, r: nat := left[i], LimbOrZero(right, i);
    var taken := r + borrow;
    var d, b := Low32(l - taken), if l < taken then 1 else 0;
    DivModUnique(l - taken, BASE, -b, l - taken + b * BASE);
    PushValue(done, d);
    PaddedStep(right, i);
    PrefixValue(left, i);
    SubtractStep(ValueOf(done), ValueOf(left[..i]), PaddedPrefix(right, i), l, r, borrow, Pow(BASE, i), d, b);
  }

  lemma DifferenceEnd(done: seq<Limb>, left: seq<Limb>, right: seq<Limb>, borrow: nat)
    requires Difference(done, left, right, borrow) && |done| == |left| && borrow < 2
    requires NormalForm(right) && ValueOf(right) <= ValueOf(left)
    ensures ValueOf(done) == ValueOf(left) - ValueOf(right)
  {
    if |left| < |right| {
      LongerIsLarger(left, right);
    }
    assert left[..|left|] == left && right[..|right|] == right;
    ValueBelow(done);
    BorrowExcluded(ValueOf(done), ValueOf(right), ValueOf(left), borrow, Pow(BASE, |done|));
  }

  lemma BorrowExcluded(d: nat, r: nat, l: nat, borrow: nat, unit: nat)
    requires d + r == l + borrow * unit && d < unit && r <= l
    ensures borrow * unit == 0
  {
    if borrow > 0 {
      MulMonotone(1, borrow, unit);
    }
  }

  ghost function WithCarry(low: seq<Limb>, carry: nat): nat {
    ValueOf(low) + carry * Pow(BASE, |low|)
  }

  lemma CarryOverflows(low: seq<Limb>, carry: nat)
    requires carry > 0
    ensures Pow(BASE, |low|) <= WithCarry(low, carry)
  {
    MulMonotone(1, carry, Pow(BASE, |low|));
  }

  lemma NoCarryFits(s: seq<Limb>, n: nat)
    requires |s| <= n
    ensures ValueOf(s) == WithCarry(s, 0) < Pow(BASE, n)
  {
    ValueBelow(s);
    PowMonotone(BASE, |s|, n);
  }

  lemma AppendCarry(low: seq<Limb>, carry: nat)
    requires 0 < carry < BASE
    ensures WithCarry(low + [Low32(carry)], High32(carry)) == WithCarry(low, carry)
    ensures High32(carry) == 0 && NormalForm(low + [Low32(carry)])
  {
    DivModUnique(carry, BASE, 0, carry);
    PushValue(low, Low32(carry));
  }

  /** The invariant of the carry loop: `done` is the product so far, with `carry` still to place. */
  ghost predicate Partial(done: seq<Limb>, prefix: seq<Limb>, multiplier: Limb, addend: Limb, carry: nat) {
    carry < BASE && WithCarry(done, carry) == ValueOf(prefix) * multiplier + addend
  }

  lemma PartialStart(done: seq<Limb>, prefix: seq<Limb>, multiplier: Limb, addend: Limb)
    requires done == prefix && (forall i :: 0 <= i < |done| ==> done[i] == 0)
    requires |done| > 0 ==> addend == 0
    ensures Partial(done, prefix, multiplier, addend, addend)
  {
    ZeroValue(done);
  }

  lemma PartialEnd(done: seq<Limb>, before: seq<Limb>, multiplier: Limb, addend: Limb, carry: nat)
    requires Partial(done, before, multiplier, addend, carry)
    ensures WithCarry(done, carry) == ValueOf(before) * multiplier + addend
  {
  }

  lemma PartialStep(done: seq<Limb>, before: seq<Limb>, i: nat, multiplier: Limb, addend: Limb, carry: nat)
    requires |done| == i < |before|
    requires Partial(done, before[..i], multiplier, addend, carry)
    ensures var product := before[i] * multiplier + carry;
      Partial(done + [Low32(product)], before[..i + 1], multiplier, addend, High32(product))
      && product >= 0 && High32(product) < BASE
  {
    var product := before[i] * multiplier + carry;
    var unit := Pow(BASE, i);
    PrefixValue(before, i);
    MultiplyStep(ValueOf(done), ValueOf(before[..i]), before[i], multiplier, carry, addend, unit);
    ProductBelow(before[i], multiplier, carry);
    PushValue(done, Low32(product));
  }

  lemma ProductBelow(a: Limb, b: Limb, c: nat)
    requires c < BASE
    ensures High32(a * b + c) < BASE
  {
    var top: nat := BASE - 1;
    MulMonotone2(a, top, b, top);
    QuotientBelow(a * b + c, BASE, BASE);
  }

  lemma QuotientBelow(a: nat, b: nat, bound: nat)
    requires 0 < b && a < bound * b
    ensures a / b < bound
  {
    assert (a / b) * b <= a;
    MulCancel(a / b, bound, b);
  }

  /** If nothing is carried out, a multiplication keeps the leading limb nonzero. */
  lemma MultiplyKeepsTop(before: seq<Limb>, after: seq<Limb>, multiplier: Limb, addend: Limb, carry: nat)
    requires |before| == |after| && NormalForm(before) && multiplier > 0
    requires WithCarry(after, carry) == ValueOf(before) * multiplier + addend
    ensures carry == 0 ==> NormalForm(after)
  {
    if |before| > 0 && carry == 0 {
      NormalFormIff(before);
      NormalFormIff(after);
      MulMonotone2(ValueOf(before), ValueOf(before), 1, multiplier);
    }
  }
}
