/** Exact a * b divided by d for 64-bit a, b and d, without a 128-bit product. */
module WideDivision {
  import opened Wrappers
  import opened Powers
  import opened MachineIntegers

  /** The loop invariant.  Two quotient/remainder pairs: the result so far and the value that the
      remaining bits of the factor still multiply. */
  ghost predicate Halfway(product: nat, d: nat, q: nat, r: nat, aq: nat, ar: nat, factor: nat) {
    r < d && ar < d && product == (q * d + r) + (aq * d + ar) * factor
  }

  /** The true quotient does not fit. */
  ghost predicate TooWide(product: nat, d: nat)
    requires d > 0
  {
    product / d > U64_MAX
  }

  lemma Starts(a: nat, b: nat, d: nat)
    requires d > 0
    ensures Halfway(a * b, d, 0, 0, a / d, a % d, b)
  {
    assert a == (a / d) * d + a % d;
  }

  /** Adding the addend pair into the result pair, the remainder carrying into the quotient. */
  lemma AddStep(product: nat, d: nat, q: nat, r: nat, aq: nat, ar: nat, factor: nat)
    requires Halfway(product, d, q, r, aq, ar, factor) && factor % 2 == 1
    ensures r + ar < d ==> Halfway(product, d, q + aq, r + ar, aq, ar, factor - 1)
    ensures r + ar >= d ==> Halfway(product, d, q + aq + 1, r + ar - d, aq, ar, factor - 1)
    ensures q + aq > U64_MAX ==> TooWide(product, d)
    ensures r + ar >= d && q + aq + 1 > U64_MAX ==> TooWide(product, d)
  {
    Distribute(q, aq, d);
    Distribute(q + aq, 1, d);
    Distribute(factor - 1, 1, aq * d + ar);
    MulMonotone2(0, aq, 0, d);
    MulMonotone2(0, aq * d + ar, 0, factor - 1);
    if q + aq > U64_MAX { TooLarge(product, d, q + aq); }
    if r + ar >= d && q + aq + 1 > U64_MAX { TooLarge(product, d, q + aq + 1); }
  }

  /** Doubling the addend pair. */
  lemma DoubleStep(product: nat, d: nat, q: nat, r: nat, aq: nat, ar: nat, half: nat)
    requires Halfway(product, d, q, r, aq, ar, 2 * half) && half > 0
    ensures 2 * ar < d ==> Halfway(product, d, q, r, 2 * aq, 2 * ar, half)
    ensures 2 * ar >= d ==> Halfway(product, d, q, r, 2 * aq + 1, 2 * ar - d, half)
    ensures 2 * aq > U64_MAX ==> TooWide(product, d)
    ensures 2 * ar >= d && 2 * aq + 1 > U64_MAX ==> TooWide(product, d)
  {
    MulAssoc(aq * d + ar, 2, half);
    MulAssoc(2, aq, d);
    Distribute(2 * aq, 1, d);
    DoubleBound(product, d, q, r, aq, ar, half);
    if 2 * aq > U64_MAX { TooLarge(product, d, 2 * aq); }
    if 2 * ar >= d && 2 * aq + 1 > U64_MAX { TooLarge(product, d, 2 * aq + 1); }
  }

  lemma DoubleBound(product: nat, d: nat, q: nat, r: nat, aq: nat, ar: nat, half: nat)
    requires Halfway(product, d, q, r, aq, ar, 2 * half) && half > 0
    ensures (2 * aq) * d <= product
    ensures 2 * ar >= d ==> (2 * aq + 1) * d <= product
  {
    var v := aq * d + ar;
    MulMonotone2(0, aq, 0, d);
    MulMonotone2(0, q, 0, d);
    MulMonotone(2, 2 * half, v);
    MulAssoc(2, aq, d);
    Distribute(2 * aq, 1, d);
  }

  lemma Finishes(product: nat, d: nat, q: nat, r: nat, aq: nat, ar: nat)
    requires Halfway(product, d, q, r, aq, ar, 0)
    ensures product / d == q && product % d == r
    ensures q <= U64_MAX ==> !TooWide(product, d)
  {
    DivModUnique(product, d, q, r);
  }

  lemma TooLarge(product: nat, d: nat, q: nat)
    requires 0 < d && q * d <= product && q > U64_MAX
    ensures TooWide(product, d)
  {
    assert product < (product / d + 1) * d by { Distribute(product / d, 1, d); }
    MulCancel(q, product / d + 1, d);
  }

  /** u64_product_divmod.  A caller may want either result or both; asking for neither, or dividing
      by zero, is the only other failure than a quotient that does not fit. */
  method ProductDivMod(multiplicand: U64, multiplier: U64, divisor: U64, wantQuotient: bool, wantRemainder: bool)
    returns (ok: bool, quotient: U64, remainder: U64)
    ensures ok <==> divisor > 0 && (wantQuotient || wantRemainder) && (multiplicand * multiplier) / divisor <= U64_MAX
    ensures ok ==> quotient == (multiplicand * multiplier) / divisor && remainder == (multiplicand * multiplier) % divisor
  {
    if divisor == 0 || (!wantQuotient && !wantRemainder) {
      return false, 0, 0;
    }
    ghost var total := multiplicand * multiplier;
    var product := U64MultiplyChecked(multiplicand, multiplier);
    if product.Some? {
      SmallQuotient(product.value, divisor);
      return true, product.value / divisor, product.value % divisor;
    }
    ok, quotient, remainder := DivideByDoubling(multiplicand, multiplier, divisor);
  }

  lemma SmallQuotient(a: nat, b: nat)
    requires b > 0
    ensures 0 <= a / b <= a && 0 <= a % b < b
  {
    MulMonotone(1, b, a / b);
  }

  /** Adds the addend pair to the result pair; fails only when the true quotient does not fit. */
  method AddPair(ghost product: nat, d: U64, q: U64, r: U64, aq: U64, ar: U64, ghost factor: nat)
    returns (ok: bool, quotient: U64, remainder: U64)
    requires d > 0 && r < d && ar < d && factor % 2 == 1 && Halfway(product, d, q, r, aq, ar, factor)
    ensures !ok ==> TooWide(product, d)
    ensures ok ==> remainder < d && Halfway(product, d, quotient, remainder, aq, ar, factor - 1)
  {
    AddStep(product, d, q, r, aq, ar, factor);
    hide *;
    quotient, remainder := q, r;
    if quotient > U64_MAX - aq {
      return false, 0, 0;
    }
    quotient := quotient + aq;
    if ar != 0 && remainder >= d - ar {
      remainder := remainder - (d - ar);
      if quotient == U64_MAX {
        return false, 0, 0;
      }
      quotient := quotient + 1;
    } else {
      remainder := remainder + ar;
    }
    ok := true;
  }

  /** Doubles the addend pair for the next bit; fails only when the true quotient does not fit. */
  method DoublePair(ghost product: nat, d: U64, ghost q: nat, ghost r: nat, aq: U64, ar: U64, ghost half: nat)
    returns (ok: bool, addQuotient: U64, addRemainder: U64)
    requires d > 0 && ar < d && half > 0 && Halfway(product, d, q, r, aq, ar, 2 * half)
    ensures !ok ==> TooWide(product, d)
    ensures ok ==> addRemainder < d && Halfway(product, d, q, r, addQuotient, addRemainder, half)
  {
    DoubleStep(product, d, q, r, aq, ar, half);
    hide *;
    addQuotient, addRemainder := aq, ar;
    var carry := 0;
    if addRemainder != 0 && addRemainder >= d - addRemainder {
      addRemainder := addRemainder - (d - addRemainder);
      carry := 1;
    } else {
      addRemainder := addRemainder + addRemainder;
    }
    if addQuotient > (U64_MAX - carry) / 2 {
      return false, 0, 0;
    }
    addQuotient := addQuotient * 2 + carry;
    ok := true;
  }

  method DivideByDoubling(multiplicand: U64, multiplier: U64, divisor: U64) returns (ok: bool, quotient: U64, remainder: U64)
    requires divisor > 0
    ensures ok <==> (multiplicand * multiplier) / divisor <= U64_MAX
    ensures ok ==> quotient == (multiplicand * multiplier) / divisor && remainder == (multiplicand * multiplier) % divisor
  {
    hide Halfway;
    ghost var product: nat := multiplicand * multiplier;
    Starts(multiplicand, multiplier, divisor);
    SmallQuotient(multiplicand, divisor);
    ok, quotient, remainder := DoublingLoop(product, divisor, multiplicand / divisor, multiplicand % divisor, multiplier);
  }

  /** The loop over the bits of the factor. */
  method DoublingLoop(ghost product: nat, divisor: U64, startQuotient: U64, startRemainder: U64, multiplier: U64)
    returns (ok: bool, quotient: U64, remainder: U64)
    requires divisor > 0 && startRemainder < divisor
    requires Halfway(product, divisor, 0, 0, startQuotient, startRemainder, multiplier)
    ensures ok <==> product / divisor <= U64_MAX
    ensures ok ==> quotient == product / divisor && remainder == product % divisor
  {
    hide Halfway;
    var addQuotient: U64, addRemainder: U64 := startQuotient, startRemainder;
    quotient, remainder := 0, 0;
    var factor: U64 := multiplier;
    while factor != 0
      invariant addRemainder < divisor && remainder < divisor
      invariant Halfway(product, divisor, quotient, remainder, addQuotient, addRemainder, factor)
    {
      if factor % 2 != 0 {
        ok, quotient, remainder := AddPair(product, divisor, quotient, remainder, addQuotient, addRemainder, factor);
        if !ok {
          return false, 0, 0;
        }
      }
      factor := factor / 2;
      if factor == 0 {
        break;
      }
      ok, addQuotient, addRemainder := DoublePair(product, divisor, quotient, remainder, addQuotient, addRemainder, factor);
      if !ok {
        return false, 0, 0;
      }
    }
    Finishes(product, divisor, quotient, remainder, addQuotient, addRemainder);
    ok := true;
  }
}
