/** Correct rounding to binary64, stated without floating point.

    Every finite binary64 magnitude is a natural number of units of 2^-1074, the least subnormal.
    A positive rational is given as x / y in the same unit.  The exponent range is unbounded
    upwards, as in sections 4.3.1 and 7.4 of IEEE 754-2019: a rounded magnitude of 2^1024 or more
    is an overflow. */
module Rounding {
  import opened Powers

  const MIN_NORMAL_SIGNIFICAND: nat := 0x10_0000_0000_0000
  const SIGNIFICAND_LIMIT: nat := 0x20_0000_0000_0000

  /** 2^1024 in units of 2^-1074. */
  ghost function OverflowUnits(): nat { Pow(2, 2098) }

  ghost predicate Scaled(u: nat, m: nat, k: nat) { u == m * Pow(2, k) }

  ghost predicate Representable(u: nat) {
    exists m: nat, k: nat :: m < SIGNIFICAND_LIMIT && Scaled(u, m, k)
  }

  /** m * 2^k with a full-width significand, or a subnormal (k = 0). */
  ghost predicate Canonical(u: nat, m: nat, k: nat) {
    m < SIGNIFICAND_LIMIT && Scaled(u, m, k) && (k == 0 || MIN_NORMAL_SIGNIFICAND <= m)
  }

  ghost predicate EvenSignificand(u: nat) {
    exists m: nat, k: nat :: Canonical(u, m, k) && m % 2 == 0
  }

  ghost function Distance(a: nat, b: nat): nat {
    if a < b then b - a else a - b
  }

  /** No representable magnitude is closer to x / y than u. */
  ghost predicate Nearest(x: nat, y: nat, u: nat) {
    && Representable(u)
    && forall v: nat :: Representable(v) ==> Distance(u * y, x) <= Distance(v * y, x)
  }

  /** roundTiesToEven: u is nearest, and has an even significand if another magnitude is as near. */
  ghost predicate RoundsTo(x: nat, y: nat, u: nat) {
    && Nearest(x, y, u)
    && forall v: nat :: Nearest(x, y, v) && v != u ==> EvenSignificand(u)
  }

  /** Nothing representable lies strictly between two neighbouring multiples of the local unit. */
  lemma NoneBetween(v: nat, q: nat, k: nat)
    requires Representable(v)
    requires k == 0 || MIN_NORMAL_SIGNIFICAND <= q
    ensures v <= q * Pow(2, k) || (q + 1) * Pow(2, k) <= v
  {
    var m: nat, j: nat :| m < SIGNIFICAND_LIMIT && Scaled(v, m, j);
    if j < k {
      PowMonotone(2, j, k - 1);
      MulMonotone2(m, SIGNIFICAND_LIMIT, Pow(2, j), Pow(2, k - 1));
      assert SIGNIFICAND_LIMIT * Pow(2, k - 1) == MIN_NORMAL_SIGNIFICAND * Pow(2, k);
      MulMonotone(MIN_NORMAL_SIGNIFICAND, q, Pow(2, k));
    } else {
      PowAdd(2, j - k, k);
      MulAssoc(m, Pow(2, j - k), Pow(2, k));
      var t := m * Pow(2, j - k);
      if t <= q {
        MulMonotone(t, q, Pow(2, k));
      } else {
        MulMonotone(q + 1, t, Pow(2, k));
      }
    }
  }

  lemma ScaledRepresentable(u: nat, m: nat, k: nat)
    requires m <= SIGNIFICAND_LIMIT && Scaled(u, m, k)
    ensures Representable(u)
  {
    if m == SIGNIFICAND_LIMIT {
      PowStep(2, k);
      MulAssoc(MIN_NORMAL_SIGNIFICAND, 2, Pow(2, k));
      assert Scaled(u, MIN_NORMAL_SIGNIFICAND, k + 1);
    }
  }

  /** Where the multiples below and above a / b stand relative to it, in units of 2^k / b. */
  lemma QuotientGaps(a: nat, b: nat, s: nat)
    requires 0 < b
    ensures a * s - (a / b) * s * b == (a % b) * s
    ensures (a / b + 1) * s * b - a * s == (b - a % b) * s
    ensures 0 <= (a % b) * s && 0 <= (b - a % b) * s
  {
    var q, r := a / b, a % b;
    assert a == q * b + r;
    assert a * s == (q * b) * s + r * s;
    assert (q * b) * s == q * s * b;
    assert (q + 1) * s == q * s + s;
    assert (q + 1) * s * b == q * s * b + s * b;
    assert (b - r) * s == s * b - r * s;
  }

  /** Distance from x grows with every step away from the interval [low, high] around it. */
  lemma FartherOut(x: nat, y: nat, low: nat, high: nat, v: nat)
    requires 0 < y && low * y <= x <= high * y
    ensures v <= low ==> Distance(low * y, x) <= Distance(v * y, x)
    ensures v < low ==> Distance(low * y, x) < Distance(v * y, x)
    ensures high <= v ==> Distance(high * y, x) <= Distance(v * y, x)
    ensures high < v ==> Distance(high * y, x) < Distance(v * y, x)
  {
    if v < low { MulStrict(v, low, y); }
    if high < v { MulStrict(high, v, y); }
  }

  predicate RoundUp(q: nat, r: nat, b: nat) {
    2 * r > b || (2 * r == b && q % 2 == 1)
  }

  /** Of two magnitudes enclosing x / y with nothing representable between, the nearer one is
      nearest; the other is as near only on a tie. */
  lemma NearerOfTwo(x: nat, y: nat, low: nat, high: nat, u: nat)
    requires 0 < y && low * y <= x < high * y
    requires Representable(low) && Representable(high)
    requires forall v: nat :: Representable(v) ==> v <= low || high <= v
    requires u == low || u == high
    requires Distance(u * y, x) <= Distance(low * y, x) && Distance(u * y, x) <= Distance(high * y, x)
    ensures Nearest(x, y, u)
    ensures forall v: nat :: Nearest(x, y, v) && v != u ==> Distance(low * y, x) == Distance(high * y, x)
  {
    forall v: nat | Representable(v)
      ensures Distance(u * y, x) <= Distance(v * y, x)
      ensures v != low && v != high ==> Distance(u * y, x) < Distance(v * y, x)
    {
      FartherOut(x, y, low, high, v);
    }
    forall v: nat | Nearest(x, y, v) && v != u
      ensures Distance(low * y, x) == Distance(high * y, x)
    {
      assert Distance(v * y, x) <= Distance(u * y, x);
    }
  }

  /** The multiple just past a full-width significand carries into the next binade. */
  lemma CanonicalNext(m: nat, k: nat, u: nat)
    requires m <= SIGNIFICAND_LIMIT && (k == 0 || MIN_NORMAL_SIGNIFICAND <= m) && Scaled(u, m, k)
    ensures Representable(u)
    ensures m % 2 == 0 ==> EvenSignificand(u)
  {
    hide Pow;
    hide Representable;
    hide EvenSignificand;
    if m == SIGNIFICAND_LIMIT {
      DoubleUnit(k);
      CanonicalAt(MIN_NORMAL_SIGNIFICAND, k + 1, u);
    } else {
      CanonicalAt(m, k, u);
    }
  }

  lemma DoubleUnit(k: nat)
    ensures SIGNIFICAND_LIMIT * Pow(2, k) == MIN_NORMAL_SIGNIFICAND * Pow(2, k + 1)
    ensures Pow(2, k + 1) == 2 * Pow(2, k)
  {
    PowStep(2, k);
  }

  lemma CanonicalAt(m: nat, k: nat, u: nat)
    requires m < SIGNIFICAND_LIMIT && (k == 0 || MIN_NORMAL_SIGNIFICAND <= m) && Scaled(u, m, k)
    ensures Representable(u)
    ensures m % 2 == 0 ==> EvenSignificand(u)
  {
    hide Scaled;
    assert Canonical(u, m, k);
  }

  lemma HalfComparison(r: nat, b: nat, s: nat)
    requires r < b && 0 < s
    ensures 2 * r <= b ==> r * s <= (b - r) * s
    ensures 2 * r >= b ==> (b - r) * s <= r * s
    ensures r * s == (b - r) * s ==> 2 * r == b
    ensures 0 < (b - r) * s
  {
    MulStrict(0, b - r, s);
    if 2 * r < b { MulStrict(r, b - r, s); }
    if 2 * r > b { MulStrict(b - r, r, s); }
  }

  /** The quotient, rounded half to even. */
  function RoundedQuotient(a: nat, b: nat): nat
    requires 0 < b
  {
    a / b + if RoundUp(a / b, a % b, b) then 1 else 0
  }

  /** A significand m at binade k. */
  ghost function AtScale(m: nat, k: nat): nat {
    hide Pow;
    PowStep(2, k);
    m * Pow(2, k)
  }

  /** Dividing at the right binade and rounding half to even is correct rounding. */
  lemma RoundAt(a: nat, b: nat, k: nat)
    requires 0 < b
    requires a / b < SIGNIFICAND_LIMIT
    requires k == 0 || MIN_NORMAL_SIGNIFICAND <= a / b
    ensures RoundsTo(AtScale(a, k), b, AtScale(RoundedQuotient(a, b), k))
  {
    hide Pow;
    PowStep(2, k);
    var q, r, s, u := a / b, a % b, Pow(2, k), AtScale(RoundedQuotient(a, b), k);
    RoundBetween(a, b, k, a * s, q * s, (q + 1) * s, u);
  }

  lemma RoundBetween(a: nat, b: nat, k: nat, x: nat, low: nat, high: nat, u: nat)
    requires 0 < b
    requires a / b < SIGNIFICAND_LIMIT
    requires k == 0 || MIN_NORMAL_SIGNIFICAND <= a / b
    requires x == a * Pow(2, k) && low == (a / b) * Pow(2, k) && high == (a / b + 1) * Pow(2, k)
    requires u == if RoundUp(a / b, a % b, b) then high else low
    ensures RoundsTo(x, b, u)
  {
    var q, r, s := a / b, a % b, Pow(2, k);
    QuotientGaps(a, b, s);
    HalfComparison(r, b, s);
    CanonicalNext(q, k, low);
    CanonicalNext(q + 1, k, high);
    forall v: nat | Representable(v)
      ensures v <= low || high <= v
    {
      NoneBetween(v, q, k);
    }
    NearerOfTwo(x, b, low, high, u);
  }

  /** A full-width significand at a coarser scale is at least as large as any finer magnitude. */
  lemma CoarserIsLarger(m: nat, k: nat, n: nat, j: nat)
    requires j < k && MIN_NORMAL_SIGNIFICAND <= m && n < SIGNIFICAND_LIMIT
    ensures n * Pow(2, j) <= m * Pow(2, k)
  {
    PowMonotone(2, j, k - 1);
    MulMonotone2(n, 2 * m, Pow(2, j), Pow(2, k - 1));
    MulAssoc(m, 2, Pow(2, k - 1));
  }

  lemma EvenMultiple(u: nat, m: nat, k: nat, j: nat) returns (t: nat)
    requires Scaled(u, m, k) && m % 2 == 0 && j <= k
    ensures u == t * Pow(2, j + 1)
  {
    t := (m / 2) * Pow(2, k - j);
    PowAdd(2, k - j, j + 1);
    assert m == (m / 2) * 2;
    assert Pow(2, k + 1) == 2 * Pow(2, k);
    MulAssoc(m / 2, 2, Pow(2, k));
    MulAssoc(m / 2, Pow(2, k - j), Pow(2, j + 1));
  }

  /** Two magnitudes with even significands are never neighbours. */
  lemma EvenGap(u: nat, v: nat)
    requires EvenSignificand(u) && EvenSignificand(v) && u < v
    ensures exists w: nat :: u < w < v && Representable(w)
  {
    var m: nat, k: nat :| Canonical(u, m, k) && m % 2 == 0;
    var n: nat, j: nat :| Canonical(v, n, j) && n % 2 == 0;
    assert k <= j by {
      if j < k {
        CoarserIsLarger(m, k, n, j);
      }
    }
    var s := EvenMultiple(u, m, k, k);
    var t := EvenMultiple(v, n, j, k);
    hide Pow;
    PowStep(2, k);
    var unit := Pow(2, k + 1);
    assert u + unit <= v by {
      MulCancel(s, t, unit);
      MulMonotone(s + 1, t, unit);
      Distribute(s, 1, unit);
    }
    var w: nat := u + Pow(2, k);
    Distribute(m, 1, Pow(2, k));
    assert Scaled(w, m + 1, k);
    ScaledRepresentable(w, m + 1, k);
  }

  lemma StrictlyBetweenIsCloser(x: nat, y: nat, u: nat, w: nat, v: nat)
    requires 0 < y && u < w < v
    ensures Distance(w * y, x) < Distance(u * y, x) || Distance(w * y, x) < Distance(v * y, x)
  {
    MulStrict(u, w, y);
    MulStrict(w, v, y);
  }

  /** Rounding is a function of the rational: at most one magnitude qualifies. */
  lemma RoundingUnique(x: nat, y: nat, u: nat, v: nat)
    requires 0 < y && RoundsTo(x, y, u) && RoundsTo(x, y, v)
    ensures u == v
  {
    if u != v {
      var low, high := if u < v then u else v, if u < v then v else u;
      EvenGap(low, high);
      var w: nat :| low < w < high && Representable(w);
      StrictlyBetweenIsCloser(x, y, low, w, high);
    }
  }

  /** Some binade accommodates every rational. */
  lemma {:induction false} BinadeExists(x: nat, y: nat, k: nat) returns (j: nat)
    requires 0 < y
    requires k == 0 || MIN_NORMAL_SIGNIFICAND * y * Pow(2, k) <= x
    ensures j == 0 || MIN_NORMAL_SIGNIFICAND * y * Pow(2, j) <= x
    ensures x < SIGNIFICAND_LIMIT * y * Pow(2, j)
    decreases x - k
  {
    assert SIGNIFICAND_LIMIT * y * Pow(2, k) == MIN_NORMAL_SIGNIFICAND * y * Pow(2, k + 1);
    if x < SIGNIFICAND_LIMIT * y * Pow(2, k) {
      j := k;
    } else {
      PowExceedsExponent(k + 1);
      MulMonotone(1, MIN_NORMAL_SIGNIFICAND * y, Pow(2, k + 1));
      j := BinadeExists(x, y, k + 1);
    }
  }

  lemma {:induction false} PowExceedsExponent(e: nat)
    ensures e < Pow(2, e)
  {
    if e > 0 {
      PowExceedsExponent(e - 1);
    }
  }

  lemma QuotientBounds(x: nat, b: nat, low: nat, high: nat)
    requires 0 < b && low * b <= x < high * b
    ensures low <= x / b < high
  {
    var q := x / b;
    assert q * b <= x < (q + 1) * b;
    MulCancel(q, high, b);
    MulCancel(low, q + 1, b);
  }

  /** Every rational rounds to some magnitude. */
  lemma RoundingExists(x: nat, y: nat) returns (u: nat)
    requires 0 < y
    ensures RoundsTo(x, y, u)
  {
    var k := BinadeExists(x, y, 0);
    hide Pow;
    PowStep(2, k);
    var s := Pow(2, k);
    var b: nat := y * s;
    MulStrict(0, y, s);
    MulAssoc(SIGNIFICAND_LIMIT, y, s);
    MulAssoc(MIN_NORMAL_SIGNIFICAND, y, s);
    QuotientBounds(x, b, if k == 0 then 0 else MIN_NORMAL_SIGNIFICAND, SIGNIFICAND_LIMIT);
    u := AtScale(RoundedQuotient(x, b), k);
    RoundAt(x, b, k);
    MulAssoc(x, s, y);
    SameRatioRounding(AtScale(x, k), b, x, y, u);
  }

  /** Rounding depends on the ratio only. */
  lemma SameRatioRounding(x: nat, y: nat, x': nat, y': nat, u: nat)
    requires 0 < y && 0 < y' && x * y' == x' * y
    requires RoundsTo(x, y, u)
    ensures RoundsTo(x', y', u)
  {
    NearestTransfers(x, y, x', y', u);
    forall v: nat | Nearest(x', y', v) && v != u
      ensures EvenSignificand(u)
    {
      NearestTransfers(x', y', x, y, v);
    }
  }

  lemma NearestTransfers(x: nat, y: nat, x': nat, y': nat, u: nat)
    requires 0 < y && 0 < y' && x * y' == x' * y
    requires Nearest(x, y, u)
    ensures Nearest(x', y', u)
  {
    forall v: nat | Representable(v)
      ensures Distance(u * y', x') <= Distance(v * y', x')
    {
      DistanceTransfers(x, y, x', y', u);
      DistanceTransfers(x, y, x', y', v);
      MulMonotone(Distance(u * y, x), Distance(v * y, x), y');
      MulCancel(Distance(u * y', x'), Distance(v * y', x'), y);
    }
  }

  lemma DistanceTransfers(x: nat, y: nat, x': nat, y': nat, u: nat)
    requires 0 < y && 0 < y' && x * y' == x' * y
    ensures Distance(u * y, x) * y' == Distance(u * y', x') * y
  {
    assert (u * y - x) * y' == (u * y' - x') * y by {
      assert (u * y) * y' == (u * y') * y;
    }
    assert (x - u * y) * y' == (x' - u * y') * y;
    MulCancel(u * y, x, y');
    MulCancel(u * y', x', y);
  }

  /** Rounding never crosses a representable magnitude from above. */
  lemma RoundsAtLeast(x: nat, y: nat, w: nat, u: nat)
    requires 0 < y && w * y <= x && Representable(w) && RoundsTo(x, y, u)
    ensures w <= u
  {
    if u < w {
      MulStrict(u, w, y);
    }
  }

  /** Anything below half the least subnormal rounds to zero. */
  lemma RoundsToZero(x: nat, y: nat, u: nat)
    requires 2 * x < y && RoundsTo(x, y, u)
    ensures u == 0
  {
    ZeroRepresentable();
    hide Representable;
    hide EvenSignificand;
    var zero: nat := 0;
    assert Distance(u * y, x) <= Distance(zero * y, x);
    if u > 0 {
      MulMonotone(1, u, y);
    }
  }

  lemma ZeroRepresentable()
    ensures Representable(0)
  {
    assert Scaled(0, 0, 0);
  }
}
