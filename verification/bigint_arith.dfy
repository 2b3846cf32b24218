/** Arbitrary-precision integer operations as the JSBI library performs them:
    powers, and `JSBI.remainder`, whose sign follows the dividend (truncated
    division, like the `%` operator of JavaScript). Dafny's own `%` is
    Euclidean, so the two are related by lemmas here. */
module BigIntArith {

  /** |m| */
  function Magnitude(m: int): (r: nat)
    ensures r == m || r == -m
  {
    if m < 0 then -m else m
  }

  /** x raised to the e-th power. */
  function Pow(x: int, e: nat): int
    decreases e
  {
    if e == 0 then 1 else x * Pow(x, e - 1)
  }

  /** `JSBI.remainder(x, m)`: truncated remainder, zero or of the sign of x,
      smaller than m in magnitude and congruent to x modulo m. */
  function TRem(x: int, m: int): (r: int)
    requires m != 0
    ensures Magnitude(r) < Magnitude(m)
    ensures x >= 0 ==> r >= 0
    ensures x <= 0 ==> r <= 0
  {
    var M := Magnitude(m);
    if x >= 0 then x % M else -((-x) % M)
  }

  /** The truncated remainder is congruent to the dividend modulo m. */
  lemma TRemCongruent(x: int, m: int)
    requires m != 0
    ensures TRem(x, m) % Magnitude(m) == x % Magnitude(m)
  {
    var M := Magnitude(m);
    if x < 0 {
      var q, r := (-x) / M, (-x) % M;
      assert -x == q * M + r;
      ModShift(-r, -q, M);
      assert -r + (-q) * M == x;
    }
  }

  /** The value `modPow(base, e, m)` of the kangaroo engine computes: the loop
      never runs for e <= 0, leaving the unreduced 1; otherwise the truncated
      remainder of the power. */
  function PowRem(base: int, e: int, m: int): (r: int)
    requires m != 0
    ensures Magnitude(m) >= 2 ==> Magnitude(r) < Magnitude(m)
    ensures e <= 0 ==> r == 1
  {
    if e <= 0 then 1 else TRem(Pow(base, e), m)
  }

  /** modPow's value is congruent to the power modulo m. */
  lemma PowRemCongruent(base: int, e: nat, m: int)
    requires m != 0
    ensures PowRem(base, e, m) % Magnitude(m) == Pow(base, e) % Magnitude(m)
  {
    if e > 0 {
      TRemCongruent(Pow(base, e), m);
    }
  }

  // ---------------------------------------------------------------------------
  // Euclidean remainder facts

  /** A non-zero multiple of M is at least M in magnitude. */
  lemma MultipleBounds(d: int, M: int)
    requires M > 0
    ensures d >= 1 ==> d * M >= M
    ensures d <= -1 ==> d * M <= -M
  {
  }

  /** Euclidean division by M is unique. */
  lemma ModUnique(x: int, q: int, r: int, M: int)
    requires M > 0 && 0 <= r < M && x == q * M + r
    ensures x % M == r && x / M == q
  {
    var q0, r0 := x / M, x % M;
    assert (q - q0) * M == r0 - r;
    MultipleBounds(q - q0, M);
  }

  /** Adding a multiple of M does not change the remainder. */
  lemma ModShift(x: int, k: int, M: int)
    requires M > 0
    ensures (x + k * M) % M == x % M
  {
    var q := x / M;
    assert x + k * M == (q + k) * M + x % M;
    ModUnique(x + k * M, q + k, x % M, M);
  }

  /** Congruence modulo M is preserved by multiplication. */
  lemma ModMulCongruent(a: int, a': int, c: int, M: int)
    requires M > 0 && a % M == a' % M
    ensures (a * c) % M == (a' * c) % M
  {
    var k := a / M - a' / M;
    assert a == a' + k * M;
    assert a * c == a' * c + (k * c) * M;
    ModShift(a' * c, k * c, M);
  }

  /** Two-sided form of ModMulCongruent. */
  lemma ModMulCongruent2(a: int, a': int, c: int, c': int, M: int)
    requires M > 0 && a % M == a' % M && c % M == c' % M
    ensures (a * c) % M == (a' * c') % M
  {
    ModMulCongruent(a, a', c, M);
    ModMulCongruent(c, c', a', M);
    assert c * a' == a' * c && c' * a' == a' * c';
  }

  // ---------------------------------------------------------------------------
  // Truncated remainder facts

  /** For a non-negative dividend and a positive divisor the truncated and the
      Euclidean remainder coincide. */
  lemma TRemNonNegative(x: int, m: int)
    requires x >= 0 && m > 0
    ensures TRem(x, m) == x % m
  {
  }

  /** The truncated remainder is determined by the sign of the dividend and
      the Euclidean remainder of its magnitude. */
  lemma TRemBySign(x: int, m: int)
    requires m != 0
    ensures x >= 0 ==> TRem(x, m) == x % Magnitude(m)
    ensures x < 0 ==> TRem(x, m) == -((-x) % Magnitude(m))
  {
  }

  /** Negating the dividend negates the truncated remainder. */
  lemma TRemNegate(x: int, m: int)
    requires m != 0
    ensures TRem(-x, m) == -TRem(x, m)
  {
  }

  /** TRemMulLeft for non-negative factors, where it is a fact about the
      Euclidean remainder. */
  lemma TRemMulLeftNonNegative(x: nat, y: nat, m: int)
    requires m != 0
    ensures TRem(TRem(x, m) * y, m) == TRem(x * y, m)
  {
    var M := Magnitude(m);
    var rx := x % M;
    assert TRem(x, m) == rx;
    MulNonNegative(rx, y);
    MulNonNegative(x, y);
    TRemBySign(rx * y, m);
    TRemBySign(x * y, m);
    ModUnique(rx, 0, rx, M);
    ModMulCongruent(rx, x, y, M);
  }

  /** The product of two non-negative numbers is non-negative. */
  lemma MulNonNegative(x: int, y: int)
    requires x >= 0 && y >= 0
    ensures x * y >= 0
  {
  }

  /** Reducing one factor first does not change the truncated remainder of a
      product: the sign of the product is kept, and its magnitude reduced. */
  lemma TRemMulLeft(x: int, y: int, m: int)
    requires m != 0
    ensures TRem(TRem(x, m) * y, m) == TRem(x * y, m)
  {
    if x >= 0 && y >= 0 {
      TRemMulLeftNonNegative(x, y, m);
    } else if x < 0 && y >= 0 {
      TRemMulLeftNegated(-x, y, m);
    } else if x >= 0 && y < 0 {
      TRemMulLeftNonNegative(x, -y, m);
      TRemMulNegateRight(TRem(x, m), -y, m);
      TRemMulNegateRight(x, -y, m);
    } else {
      TRemMulLeftNegated(-x, -y, m);
      TRemMulNegateRight(TRem(x, m), -y, m);
      TRemMulNegateRight(x, -y, m);
    }
  }

  /** Negating one factor negates the truncated remainder of a product. */
  lemma TRemMulNegateRight(x: int, y: int, m: int)
    requires m != 0
    ensures TRem(x * -y, m) == -TRem(x * y, m)
  {
    assert x * -y == -(x * y);
    TRemNegate(x * y, m);
  }

  /** TRemMulLeft for a negative left factor -x. */
  lemma TRemMulLeftNegated(x: int, y: int, m: int)
    requires x >= 0 && m != 0
    ensures TRem(TRem(-x, m) * y, m) == TRem(-x * y, m)
  {
    var r := TRem(x, m);
    TRemNegate(x, m);
    assert TRem(-x, m) == -r;
    assert -r * y == -(r * y);
    TRemNegate(r * y, m);
    assert -x * y == -(x * y);
    TRemNegate(x * y, m);
    if y >= 0 {
      TRemMulLeftNonNegative(x, y, m);
    } else {
      TRemMulLeftNonNegative(x, -y, m);
      TRemMulNegateRight(r, -y, m);
      TRemMulNegateRight(x, -y, m);
    }
  }

  /** TRemMulLeft for the right factor. */
  lemma TRemMulRight(x: int, y: int, m: int)
    requires m != 0
    ensures TRem(x * TRem(y, m), m) == TRem(x * y, m)
  {
    TRemMulLeft(y, x, m);
    assert x * TRem(y, m) == TRem(y, m) * x;
    assert x * y == y * x;
  }

  /** Reducing a value twice is the same as reducing it once. */
  lemma TRemIdempotent(x: int, m: int)
    requires m != 0
    ensures TRem(TRem(x, m), m) == TRem(x, m)
  {
    TRemMulLeft(x, 1, m);
  }

  /** Reducing the base first does not change the truncated remainder of a
      power. */
  lemma {:induction false} TRemPow(x: int, e: nat, m: int)
    requires m != 0
    ensures TRem(Pow(TRem(x, m), e), m) == TRem(Pow(x, e), m)
  {
    if e > 0 {
      var rx := TRem(x, m);
      calc {
        TRem(Pow(rx, e), m);
        TRem(rx * Pow(rx, e - 1), m);
        { TRemMulLeft(x, Pow(rx, e - 1), m); }
        TRem(x * Pow(rx, e - 1), m);
        { TRemMulRight(x, Pow(rx, e - 1), m); }
        TRem(x * TRem(Pow(rx, e - 1), m), m);
        { TRemPow(x, e - 1, m); }
        TRem(x * TRem(Pow(x, e - 1), m), m);
        { TRemMulRight(x, Pow(x, e - 1), m); }
        TRem(x * Pow(x, e - 1), m);
      }
    }
  }

  // ---------------------------------------------------------------------------
  // Power facts

  /** x^(i+j) == x^i * x^j */
  lemma {:induction false} PowAdd(x: int, i: nat, j: nat)
    ensures Pow(x, i + j) == Pow(x, i) * Pow(x, j)
  {
    if i > 0 {
      PowAdd(x, i - 1, j);
      assert Pow(x, i + j) == x * Pow(x, i - 1 + j);
    }
  }

  /** (x*x)^k == x^(2k) */
  lemma {:induction false} PowSquare(x: int, k: nat)
    ensures Pow(x * x, k) == Pow(x, 2 * k)
  {
    if k > 0 {
      PowSquare(x, k - 1);
      PowAdd(x, 2, 2 * (k - 1));
      assert Pow(x, 2) == x * x;
    }
  }

  /** A power of a non-negative number is non-negative. */
  lemma {:induction false} PowNonNegative(x: int, e: nat)
    requires x >= 0
    ensures Pow(x, e) >= 0
  {
    if e > 0 {
      PowNonNegative(x, e - 1);
    }
  }

  /** Congruent bases have congruent powers. */
  lemma {:induction false} PowCongruent(x: int, y: int, e: nat, M: int)
    requires M > 0 && x % M == y % M
    ensures Pow(x, e) % M == Pow(y, e) % M
  {
    if e > 0 {
      PowCongruent(x, y, e - 1, M);
      ModMulCongruent2(x, y, Pow(x, e - 1), Pow(y, e - 1), M);
    }
  }

  /** x^e * y^e == (x*y)^e */
  lemma {:induction false} PowProduct(x: int, y: int, e: nat)
    ensures Pow(x, e) * Pow(y, e) == Pow(x * y, e)
  {
    if e > 0 {
      PowProduct(x, y, e - 1);
      var a, b := Pow(x, e - 1), Pow(y, e - 1);
      assert (x * a) * (y * b) == (x * y) * (a * b);
    }
  }

  /** 1^j == 1 */
  lemma {:induction false} PowOfOne(j: nat)
    ensures Pow(1, j) == 1
  {
    if j > 0 {
      PowOfOne(j - 1);
    }
  }

  /** When g^q leaves remainder 1 modulo P, adding q to the exponent does
      not change the power modulo P. */
  lemma PowAddPeriod(g: int, q: nat, P: int, e: nat)
    requires P >= 2 && Pow(g, q) % P == 1
    ensures Pow(g, e + q) % P == Pow(g, e) % P
  {
    PowAdd(g, e, q);
    ModUnique(1, 0, 1, P);
    ModMulCongruent(Pow(g, q), 1, Pow(g, e), P);
    assert Pow(g, e + q) == Pow(g, q) * Pow(g, e);
  }

  /** Adding any multiple d of q to the exponent does not change the power
      modulo P either. */
  lemma {:induction false} PowAddPeriods(g: int, q: nat, P: int, e: nat, d: nat)
    requires q >= 1 && P >= 2 && Pow(g, q) % P == 1 && d % q == 0
    ensures Pow(g, e + d) % P == Pow(g, e) % P
    decreases d
  {
    if d > 0 {
      MultipleBounds(d / q, q);
      assert d >= q;
      ModShift(d - q, 1, q);
      PowAddPeriods(g, q, P, e, d - q);
      PowAddPeriod(g, q, P, e + (d - q));
    }
  }

  /** When g^q leaves remainder 1 modulo P, powers of g depend only on the
      exponent modulo q. */
  lemma PowPeriodic(g: int, q: nat, P: int, e1: nat, e2: nat)
    requires q >= 1 && P >= 2 && Pow(g, q) % P == 1
    requires e1 % q == e2 % q
    ensures Pow(g, e1) % P == Pow(g, e2) % P
  {
    if e1 > e2 {
      PowPeriodic(g, q, P, e2, e1);
    } else {
      SameResidueDifference(e1, e2, q);
      PowAddPeriods(g, q, P, e1, e2 - e1);
    }
  }

  /** Two numbers with the same remainder modulo q differ by a multiple of q. */
  lemma SameResidueDifference(e1: int, e2: int, q: int)
    requires q >= 1 && e1 % q == e2 % q
    ensures (e2 - e1) % q == 0
  {
    var k := e2 / q - e1 / q;
    assert e2 - e1 == k * q;
    ModUnique(e2 - e1, k, 0, q);
  }

  /** A factor G with an inverse I modulo P can be cancelled. */
  lemma ModCancel(A: int, B: int, G: int, I: int, P: int)
    requires P > 0
    requires (A * G) % P == (B * G) % P
    requires (G * I) % P == 1 % P
    ensures A % P == B % P
  {
    ModMulCongruent(A * G, B * G, I, P);
    assert (A * G) * I == A * (G * I);
    assert (B * G) * I == B * (G * I);
    ModMulCongruent(G * I, 1, A, P);
    ModMulCongruent(G * I, 1, B, P);
    assert (G * I) * A == A * (G * I);
    assert (G * I) * B == B * (G * I);
  }

  /** One iteration of square-and-multiply keeps `result * b^e` unchanged
      modulo m (in the truncated sense): an odd exponent moves one factor b
      into the result, and the remaining even part is carried by b*b. */
  lemma SquareAndMultiplyStep(result: int, b: int, e: int, m: int)
    requires m != 0 && e > 0
    ensures var result' := if e % 2 != 0 then TRem(result * b, m) else result;
            TRem(result' * Pow(TRem(b * b, m), e / 2), m) == TRem(result * Pow(b, e), m)
  {
    var k := e / 2;
    var bb := TRem(b * b, m);
    PowSquare(b, k);
    calc {
      TRem(Pow(bb, k), m);
      { TRemPow(b * b, k, m); }
      TRem(Pow(b * b, k), m);
      TRem(Pow(b, 2 * k), m);
    }
    if e % 2 != 0 {
      var r' := TRem(result * b, m);
      assert e == 2 * k + 1;
      PowAdd(b, 1, 2 * k);
      assert Pow(b, 1) == b;
      calc {
        TRem(r' * Pow(bb, k), m);
        { TRemMulLeft(result * b, Pow(bb, k), m); }
        TRem((result * b) * Pow(bb, k), m);
        { TRemMulRight(result * b, Pow(bb, k), m); }
        TRem((result * b) * TRem(Pow(bb, k), m), m);
        TRem((result * b) * TRem(Pow(b, 2 * k), m), m);
        { TRemMulRight(result * b, Pow(b, 2 * k), m); }
        TRem((result * b) * Pow(b, 2 * k), m);
        { assert (result * b) * Pow(b, 2 * k) == result * (b * Pow(b, 2 * k)); }
        TRem(result * Pow(b, e), m);
      }
    } else {
      assert e == 2 * k;
      calc {
        TRem(result * Pow(bb, k), m);
        { TRemMulRight(result, Pow(bb, k), m); }
        TRem(result * TRem(Pow(bb, k), m), m);
        TRem(result * TRem(Pow(b, 2 * k), m), m);
        { TRemMulRight(result, Pow(b, 2 * k), m); }
        TRem(result * Pow(b, e), m);
      }
    }
  }

  /** For a non-negative base, a non-negative exponent and a modulus of at
      least 2, modPow's value is the ordinary modular power, in [0, m). */
  lemma PowRemIsModularPower(base: int, e: int, m: int)
    requires base >= 0 && e >= 0 && m >= 2
    ensures 0 <= PowRem(base, e, m) < m
    ensures PowRem(base, e, m) == Pow(base, e) % m
  {
    PowNonNegative(base, e);
    if e > 0 {
      TRemNonNegative(Pow(base, e), m);
    } else {
      ModUnique(1, 0, 1, m);
    }
  }
}
