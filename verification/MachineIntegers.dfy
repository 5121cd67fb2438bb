/** 64-bit integers with their checked and saturating operations. */
module MachineIntegers {
  import opened Wrappers
  import opened Powers

  const U64_MAX: nat := 0xFFFF_FFFF_FFFF_FFFF
  const I64_MAX: int := 0x7FFF_FFFF_FFFF_FFFF
  const I64_MIN: int := -0x8000_0000_0000_0000

  type U64 = n: nat | n <= 0xFFFF_FFFF_FFFF_FFFF
  type I64 = i: int | -0x8000_0000_0000_0000 <= i <= 0x7FFF_FFFF_FFFF_FFFF

  /** The ranges by their widths: 64 bits without a sign, and with one. */
  lemma Widths()
    ensures U64_MAX + 1 == Pow(2, 64) && I64_MAX + 1 == Pow(2, 63) == -I64_MIN
  {
    PowTwoValues();
    PowAdd(2, 32, 32);
    PowAdd(2, 32, 31);
    hide Pow;
  }

  /** The overflow test divides, so that the product is formed only when it fits. */
  function U64MultiplyChecked(left: U64, right: U64): (r: Option<U64>)
    ensures r == if left * right <= U64_MAX then Some(left * right) else None
  {
    if left != 0 && right > U64_MAX / left then
      QuotientExceeded(U64_MAX, left, right);
      None
    else
      ProductFits(U64_MAX, left, right);
      Some(left * right)
  }

  /** The sum of two sizes on a 64-bit host, when it is one. */
  function SizeAddChecked(left: U64, right: U64): (r: Option<U64>)
    ensures r == if left + right <= U64_MAX then Some(left + right) else None
  {
    if right > U64_MAX - left then None else Some(left + right)
  }

  function U64AddSaturating(left: U64, right: U64): (r: U64)
    ensures r == if left + right <= U64_MAX then left + right else U64_MAX
  {
    if right > U64_MAX - left then U64_MAX else left + right
  }

  function U64MultiplySaturating(left: U64, right: U64): (r: U64)
    ensures r == if left * right <= U64_MAX then left * right else U64_MAX
  {
    if left != 0 && right > U64_MAX / left then
      QuotientExceeded(U64_MAX, left, right);
      U64_MAX
    else
      ProductFits(U64_MAX, left, right);
      left * right
  }

  lemma QuotientExceeded(limit: nat, left: nat, right: nat)
    requires left > 0 && right > limit / left
    ensures left * right > limit
  {
    MulMonotone(limit / left + 1, right, left);
    Distribute(limit / left, 1, left);
  }

  lemma ProductFits(limit: nat, left: nat, right: nat)
    requires left == 0 || right <= limit / left
    ensures 0 <= left * right <= limit
  {
    if left > 0 {
      MulMonotone(right, limit / left, left);
    }
  }

  function I64AddChecked(left: I64, right: I64): (r: Option<I64>)
    ensures r == if I64_MIN <= left + right <= I64_MAX then Some(left + right) else None
  {
    if right > 0 && left > I64_MAX - right then None
    else if right < 0 && left < I64_MIN - right then None
    else Some(left + right)
  }

  /** Division as the hardware does it, truncating towards zero. */
  function TruncatedQuotient(a: int, b: int): int
    requires b > 0
  {
    if a >= 0 then a / b else -(-a / b)
  }

  function TruncatedRemainder(a: int, b: int): int
    requires b > 0
  {
    a - TruncatedQuotient(a, b) * b
  }

  /** Floor division built from truncating division; fails only for a non-positive divisor. */
  function I64FloorDivMod(value: I64, divisor: I64): (r: Option<(int, int)>)
    ensures r == if divisor > 0 then Some((value / divisor, value % divisor)) else None
  {
    if divisor <= 0 then None
    else
      var q := TruncatedQuotient(value, divisor);
      var r := TruncatedRemainder(value, divisor);
      TruncationToFloor(value, divisor);
      if r < 0 then Some((q - 1, r + divisor)) else Some((q, r))
  }

  lemma TruncationToFloor(a: int, b: int)
    requires b > 0
    ensures var q, r := TruncatedQuotient(a, b), TruncatedRemainder(a, b);
      if r < 0 then q - 1 == a / b && r + b == a % b else q == a / b && r == a % b
  {
    var q, r := TruncatedQuotient(a, b), TruncatedRemainder(a, b);
    if a < 0 {
      var p, s := -a / b, -a % b;
      assert -a == p * b + s;
      assert q * b == -(p * b);
      if s == 0 {
        DivModUnique(a, b, -p, 0);
      } else {
        Distribute(-p, -1, b);
        DivModUnique(a, b, -p - 1, b - s);
      }
    }
  }

  /** Truncating division by a divisor of either sign. */
  function SignedQuotient(a: int, b: int): int
    requires b != 0
  {
    if b > 0 then TruncatedQuotient(a, b) else -TruncatedQuotient(a, -b)
  }

  lemma ProductLimit(p: nat, q: nat, limit: nat)
    requires q > 0
    ensures p > limit / q <==> p * q > limit
  {
    if p > limit / q {
      QuotientExceeded(limit, q, p);
    } else {
      ProductFits(limit, q, p);
    }
  }

  /** The overflow test divides the limit of the product's sign, so that the product is formed only when it fits. */
  function I64MultiplyChecked(left: I64, right: I64): (r: Option<I64>)
    ensures r == if I64_MIN <= left * right <= I64_MAX then Some(left * right) else None
  {
    if left == 0 || right == 0 then Some(0)
    else
      var p, q := Absolute(left), Absolute(right);
      var limit: nat := if (left > 0) == (right > 0) then I64_MAX else I64_MAX + 1;
      ProductLimit(p, q, limit);
      ProductLimit(q, p, limit);
      SignsOfProduct(left, right);
      if left > 0 then
        if right > 0 then
          if left > SignedQuotient(I64_MAX, right) then None else Some(left * right)
        else if right < SignedQuotient(I64_MIN, left) then None
        else Some(left * right)
      else if right > 0 then
        if left < SignedQuotient(I64_MIN, right) then None else Some(left * right)
      else if left < SignedQuotient(I64_MAX, right) then None
      else Some(left * right)
  }

  lemma SignsOfProduct(left: int, right: int)
    requires left != 0 && right != 0
    ensures var p, q := Absolute(left), Absolute(right);
      left * right == (if (left > 0) == (right > 0) then p * q else -(p * q)) && p * q == q * p > 0
  {
    MulMonotone2(1, Absolute(left), 1, Absolute(right));
  }

  function Clamped(v: int): I64 {
    if v < I64_MIN then I64_MIN else if v > I64_MAX then I64_MAX else v
  }

  function I64AddSaturating(left: I64, right: I64): (r: I64)
    ensures r == Clamped(left + right)
  {
    var sum := I64AddChecked(left, right);
    if sum.Some? then sum.value else if right >= 0 then I64_MAX else I64_MIN
  }

  function I64SubtractSaturating(left: I64, right: I64): (r: I64)
    ensures r == Clamped(left - right)
  {
    if right > 0 && left < I64_MIN + right then I64_MIN
    else if right < 0 && left > I64_MAX + right then I64_MAX
    else left - right
  }

  function I64MultiplySaturating(left: I64, right: I64): (r: I64)
    ensures r == Clamped(left * right)
  {
    var product := I64MultiplyChecked(left, right);
    if product.Some? then product.value
    else
      SignsOfProduct(left, right);
      if (left < 0) != (right < 0) then I64_MIN else I64_MAX
  }
}
