/** The arithmetic helpers of `Helper.ts`: a second square-and-multiply
    modular power, which answers 0 for the modulus 1, and the absolute value
    of a big integer. */
module Helper {
  import opened BigIntArith

  /** `ModPow(base, exp, mod)`. The modulus 1 is answered with 0 before the
      loop; for every other modulus the result is the one `modPow` of the
      kangaroo engine computes (`PowRem`), so the two copies differ only at
      modulus 1 with a non-positive exponent. A modulus of 0 makes
      `JSBI.remainder` throw, so callers must not pass it. */
  method ModPow(base: int, exp: int, mod: int) returns (result: int)
    requires mod != 0
    ensures mod == 1 ==> result == 0
    ensures mod != 1 ==> result == PowRem(base, exp, mod)
    ensures mod != 1 && exp <= 0 ==> result == 1
    ensures mod >= 2 && base >= 0 && exp >= 0 ==> 0 <= result < mod && result == Pow(base, exp) % mod
  {
    if mod == 1 {
      return 0;
    }
    result := 1;
    var b := TRem(base, mod);
    var e := exp;
    if e > 0 {
      TRemPow(base, e, mod);
    }
    while e > 0
      invariant exp <= 0 ==> e == exp && result == 1
      invariant exp > 0 ==> e >= 0 && TRem(result * Pow(b, e), mod) == TRem(Pow(base, exp), mod)
      invariant exp > 0 && e == 0 ==> TRem(result, mod) == result
      decreases e
    {
      // `exp % 2` is a truncated remainder, the same as Euclidean for exp > 0
      assert TRem(e, 2) == e % 2;
      SquareAndMultiplyStep(result, b, e, mod);
      if TRem(e, 2) == 1 {
        result := TRem(result * b, mod);
        TRemIdempotent(result, mod);
      }
      e := e / 2;
      b := TRem(b * b, mod);
    }
    if mod >= 2 && base >= 0 && exp >= 0 {
      PowRemIsModularPower(base, exp, mod);
    }
  }

  /** `absolute(x)`: the magnitude of x. */
  function Absolute(x: int): (r: int)
    ensures r >= 0
    ensures r == x || r == -x
  {
    if x < 0 then -x else x
  }

  /** Taking the magnitude twice changes nothing. */
  lemma AbsoluteIdempotent(x: int)
    ensures Absolute(Absolute(x)) == Absolute(x)
  {
  }

  /** `absolute` agrees with the magnitude `JSBI.remainder` takes of its
      divisor. */
  lemma AbsoluteIsMagnitude(x: int)
    ensures Absolute(x) == Magnitude(x)
  {
  }

  /** x and -x have the same magnitude. */
  lemma AbsoluteNegate(x: int)
    ensures Absolute(-x) == Absolute(x)
  {
  }
}
