/** Powers of a natural base, bit lengths, and the few products and quotients the rest of the
    development reasons about. */
module Powers {

  function Pow(b: nat, e: nat): (p: nat)
    ensures b > 0 ==> p > 0
  {
    if e == 0 then 1 else b * Pow(b, e - 1)
  }

  lemma PowStep(b: nat, e: nat)
    ensures Pow(b, e + 1) == b * Pow(b, e)
    ensures Pow(b, e) >= 0
    ensures b > 0 ==> Pow(b, e) > 0
  {
  }

  lemma PowZero(b: nat)
    ensures Pow(b, 0) == 1
  {
  }

  lemma {:induction false} PowAdd(b: nat, m: nat, n: nat)
    ensures Pow(b, m + n) == Pow(b, m) * Pow(b, n)
  {
    if m > 0 {
      PowAdd(b, m - 1, n);
      assert Pow(b, m + n) == b * (Pow(b, m - 1) * Pow(b, n));
      MulAssoc(b, Pow(b, m - 1), Pow(b, n));
    }
  }

  lemma {:induction false} PowMonotone(b: nat, m: nat, n: nat)
    requires b > 0 && m <= n
    ensures Pow(b, m) <= Pow(b, n)
  {
    PowAdd(b, m, n - m);
    MulMonotone(1, Pow(b, n - m), Pow(b, m));
  }

  lemma {:induction false} PowOfProduct(a: nat, b: nat, e: nat)
    ensures Pow(a * b, e) == Pow(a, e) * Pow(b, e)
  {
    if e > 0 {
      PowOfProduct(a, b, e - 1);
      var x, y := Pow(a, e - 1), Pow(b, e - 1);
      assert (a * b) * (x * y) == (a * x) * (b * y) by {
        MulAssoc(a, b, x * y);
        MulAssoc(b, x, y);
        MulAssoc(x, b, y);
        MulAssoc(a, x, b * y);
      }
    }
  }

  lemma {:induction false} PowBaseMonotone(a: nat, b: nat, e: nat)
    requires a <= b
    ensures Pow(a, e) <= Pow(b, e)
  {
    if e > 0 {
      PowBaseMonotone(a, b, e - 1);
      MulMonotone2(a, b, Pow(a, e - 1), Pow(b, e - 1));
    }
  }

  lemma {:induction false} PowOfPow(b: nat, m: nat, n: nat)
    ensures Pow(Pow(b, m), n) == Pow(b, m * n)
  {
    if n == 0 {
      assert m * n == 0;
    } else {
      PowOfPow(b, m, n - 1);
      assert m * n == m + m * (n - 1);
      PowAdd(b, m, m * (n - 1));
    }
  }

  function Absolute(v: int): nat { if v < 0 then -v else v }

  lemma MulAssoc(a: int, b: int, c: int)
    ensures a * (b * c) == (a * b) * c
  {
  }

  lemma Distribute(a: int, b: int, c: int)
    ensures (a + b) * c == a * c + b * c
  {
  }

  lemma MulMonotone(a: int, b: int, c: int)
    requires a <= b && 0 <= c
    ensures a * c <= b * c
  {
  }

  lemma MulStrict(a: int, b: int, c: int)
    requires a < b && 0 < c
    ensures a * c < b * c
  {
  }

  lemma MulMonotone2(a: nat, b: nat, c: nat, d: nat)
    requires a <= b && c <= d
    ensures a * c <= b * d
  {
    MulMonotone(a, b, c);
    MulMonotone(c, d, b);
  }

  /** Cancelling a positive common factor. */
  lemma MulCancel(a: int, b: int, c: int)
    requires 0 < c
    ensures a * c == b * c ==> a == b
    ensures a * c <= b * c ==> a <= b
    ensures a * c < b * c ==> a < b
  {
    if a < b { MulStrict(a, b, c); }
    if b < a { MulStrict(b, a, c); }
  }

  /** Quotient and remainder are determined by the division identity. */
  lemma DivModUnique(a: int, b: int, q: int, r: int)
    requires 0 <= r < b
    requires a == q * b + r
    ensures a / b == q && a % b == r
  {
    var p := a / b - q;
    assert a == (a / b) * b + a % b;
    assert p * b == r - a % b;
    if p > 0 { MulMonotone(1, p, b); }
    if p < 0 { MulMonotone(p, -1, b); }
  }

  /** The number of binary digits of n; zero has none. */
  ghost function BitLength(n: nat): nat {
    if n == 0 then 0 else 1 + BitLength(n / 2)
  }

  lemma {:induction false} BitLengthBounds(n: nat)
    ensures n < Pow(2, BitLength(n))
    ensures n > 0 ==> BitLength(n) > 0 && Pow(2, BitLength(n) - 1) <= n
  {
    if n > 0 {
      BitLengthBounds(n / 2);
    }
  }

  lemma {:induction false} BitLengthMonotone(m: nat, n: nat)
    requires m <= n
    ensures BitLength(m) <= BitLength(n)
  {
    if m > 0 {
      BitLengthMonotone(m / 2, n / 2);
    }
  }

  lemma {:induction false} BitLengthUnique(n: nat, bits: nat)
    requires n < Pow(2, bits)
    requires bits == 0 || Pow(2, bits - 1) <= n
    ensures BitLength(n) == bits
  {
    BitLengthBounds(n);
    if BitLength(n) < bits {
      PowMonotone(2, BitLength(n), bits - 1);
    } else if bits < BitLength(n) {
      PowMonotone(2, bits, BitLength(n) - 1);
    }
  }

  lemma PowTwoValues()
    ensures Pow(2, 8) == 0x100 && Pow(2, 16) == 0x1_0000 && Pow(2, 32) == 0x1_0000_0000
    ensures Pow(2, 31) == 0x8000_0000
  {
    assert Pow(2, 4) == 16;
    PowAdd(2, 4, 4);
    PowAdd(2, 8, 8);
    PowAdd(2, 16, 16);
    PowStep(2, 31);
  }

  lemma SmallPowers()
    ensures Pow(2, 3) == 8 && Pow(2, 5) == 32 && Pow(10, 1) == 10 && Pow(10, 4) == 10000
  {
  }
}
