/** The kangaroo (Pollard lambda) discrete-logarithm engine of
    `PollardKangaroo.ts`: given g, h, p and an interval [a, b], look for x with
    g^x = h (mod p) by running a tame kangaroo ceil(sqrt(b - a)) jumps from
    g^b, then a wild kangaroo from h until it lands where the tame one
    stopped. */
module PollardKangaroo {
  import opened BigIntArith
  import opened Wrappers
  import opened KangarooWalk

  /** `KangarooResult`: both position-to-period maps, the recovered exponent
      and the position where the kangaroos met. */
  datatype KangarooResult = KangarooResult(
    tameMap: map<int, int>,
    wildMap: map<int, int>,
    result: int,
    collisionPosition: int)

  /** Why a call throws instead of returning. */
  datatype Failure =
    | InvalidInterval   // the explicit `throw` when b < a
    | DivisionByZero    // `JSBI.remainder` by zero: p == 0, or p - 1 == 0

  /** What `solvePollardKangaroo` settles to: a thrown error, `null`, or a
      `KangarooResult`. */
  datatype Outcome =
    | Rejected(reason: Failure)
    | NoSolution
    | Found(res: KangarooResult)

  // ---------------------------------------------------------------------------
  // modPow

  /** `modPow(base, exponent, modulus)`: square-and-multiply. The result
      starts as an unreduced 1, so a non-positive exponent returns exactly 1
      whatever the modulus (1 included); otherwise it is base^exponent
      reduced by the truncated remainder. A modulus of 0 makes
      `JSBI.remainder` throw, so callers must not pass it. */
  method ModPow(base: int, exponent: int, modulus: int) returns (result: int)
    requires modulus != 0
    ensures result == PowRem(base, exponent, modulus)
    ensures exponent <= 0 ==> result == 1
  {
    result := 1;
    var b := TRem(base, modulus);
    var e := exponent;
    if e > 0 {
      TRemPow(base, e, modulus);
    }
    while e > 0
      invariant exponent <= 0 ==> e == exponent && result == 1
      invariant exponent > 0 ==> e >= 0 && TRem(result * Pow(b, e), modulus) == TRem(Pow(base, exponent), modulus)
      invariant exponent > 0 && e == 0 ==> TRem(result, modulus) == result
      decreases e
    {
      SquareAndMultiplyStep(result, b, e, modulus);
      // `e & 1` is the low bit, e % 2, for e > 0
      if e % 2 != 0 {
        result := TRem(result * b, modulus);
        TRemIdempotent(result, modulus);
      }
      b := TRem(b * b, modulus);
      // `signedRightShift(e, 1)` halves a positive e
      e := e / 2;
    }
  }

  // ---------------------------------------------------------------------------
  // makeStepFunction

  /** The evaluator's number is usable as a step. */
  predicate IsNonNegativeInteger(v: real)
  {
    v >= 0.0 && v == v.Floor as real
  }

  /** The policy `makeStepFunction` wraps around the expression evaluator.
      `raw` is what the evaluator produced: `None` when it threw, or when its
      answer was not a finite number (NaN, an infinity, a value with no real
      part); otherwise the number (the real part of a complex answer). A
      non-negative integer is the step; anything else becomes 1. */
  function Sanitise(raw: Option<real>): (s: nat)
    ensures raw.Some? && IsNonNegativeInteger(raw.value) ==> s as real == raw.value
    ensures raw.None? || !IsNonNegativeInteger(raw.value) ==> s == 1
  {
    match raw
    case Some(v) => if v == v.Floor as real && v >= 0.0 then v.Floor else 1
    case None => 1
  }

  /** Every natural number the evaluator answers is passed through as the
      step unchanged. */
  lemma SanitiseKeepsNaturals(n: nat)
    ensures Sanitise(Some(n as real)) == n
  {
    assert (n as real).Floor == n;
  }

  /** A sanitised step is accepted as it is when sanitised again. */
  lemma SanitiseIdempotent(raw: Option<real>)
    ensures Sanitise(Some(Sanitise(raw) as real)) == Sanitise(raw)
  {
    SanitiseKeepsNaturals(Sanitise(raw));
  }

  /** `makeStepFunction`: the step w(n) from the evaluator's answer at n.
      (The conversion of n to a floating-point number for the evaluator is
      part of `eval`.) */
  function StepFunction(eval: int -> Option<real>): (w: int -> nat)
    ensures forall n :: eval(n).Some? && IsNonNegativeInteger(eval(n).value) ==> w(n) as real == eval(n).value
    ensures forall n :: eval(n).None? ==> w(n) == 1
  {
    n => Sanitise(eval(n))
  }

  /** An answer that is not a non-negative integer (a negative number, a
      fraction) makes the step 1, as a thrown error does. */
  lemma StepFunctionFallsBack(eval: int -> Option<real>, n: int)
    requires eval(n).Some? && !IsNonNegativeInteger(eval(n).value)
    ensures StepFunction(eval)(n) == 1
  {
  }

  // ---------------------------------------------------------------------------
  // The search bound and the exponent recovery

  /** N = ceil(sqrt(d)): the least natural number whose square reaches d. */
  function CeilSqrt(d: nat): (n: nat)
    ensures n * n >= d
    ensures n == 0 || (n - 1) * (n - 1) < d
  {
    CeilSqrtFrom(d, 0)
  }

  /** The least n >= k whose square reaches d, for k below the answer. */
  function CeilSqrtFrom(d: nat, k: nat): (n: nat)
    requires k == 0 || (k - 1) * (k - 1) < d
    ensures n * n >= d
    ensures n == 0 || (n - 1) * (n - 1) < d
    decreases d - k
  {
    if k * k >= d then k
    else
      assert k <= k * k by { SquareMonotone(1, k); }
      CeilSqrtFrom(d, k + 1)
  }

  /** Squaring is monotone on natural numbers. */
  lemma SquareMonotone(x: nat, y: nat)
    ensures x <= y ==> x * x <= y * y
  {
    if x <= y {
      assert x * x <= x * y <= y * y;
    }
  }

  /** No smaller natural number than CeilSqrt(d) has a square reaching d. */
  lemma CeilSqrtLeast(d: nat, m: nat)
    requires m * m >= d
    ensures CeilSqrt(d) <= m
  {
    var n := CeilSqrt(d);
    if n > 0 {
      SquareMonotone(m, n - 1);
    }
  }

  /** Lines that turn the difference of periods into x: a truncated
      remainder by the group order p - 1, lifted by one order when negative.
      For a positive order this is the Euclidean remainder, in [0, order). */
  function RecoverExponent(diff: int, order: int): (x: int)
    requires order != 0
    ensures order > 0 ==> 0 <= x < order && x == diff % order
  {
    var x := TRem(diff, order);
    TRemCongruent(diff, order);
    if x < 0 then
      assert order > 0 ==> x + order == diff % order by {
        if order > 0 {
          ModShift(x, 1, order);
          assert (x + order) % order == x % order;
          ModUnique(x + order, 0, x + order, order);
        }
      }
      x + order
    else
      assert order > 0 ==> x == diff % order by {
        if order > 0 {
          ModUnique(x, 0, x, order);
        }
      }
      x
  }

  /** The wild kangaroo gives up once it has taken more than 5 * N jumps
      without landing on the tame kangaroo's final position. */
  function WildCap(n: nat): nat
  {
    n * 5
  }

  // ---------------------------------------------------------------------------
  // solvePollardKangaroo

  /** What `solvePollardKangaroo(g, h, p, a, b, expr)` settles to, with w the
      step function built from expr: the tame kangaroo walks N =
      ceil(sqrt(b - a)) jumps from modPow(g, b, p) recording periods from b;
      the wild kangaroo walks from h recording periods from 0, and meets the
      tame one at the first jump count k <= 5 * N + 1 at which it stands on the
      tame final position; x comes from the two periods recorded there. */
  function Solution(g: int, h: int, p: int, a: int, b: int, w: int -> nat): Outcome
  {
    if b < a then Rejected(InvalidInterval)
    else if p == 0 then Rejected(DivisionByZero)
    else
      var n := CeilSqrt(b - a);
      var tameStart := PowRem(g, b, p);
      var tame := Walk(g, p, w, tameStart, n);
      match FirstHit(g, p, w, h, tame.pos, 0, WildCap(n) + 1)
      case None => NoSolution
      case Some(k) =>
        if p == 1 then Rejected(DivisionByZero)
        else
          var wild := Walk(g, p, w, h, k);
          Found(KangarooResult(
            Trail(g, p, w, tameStart, b, n),
            Trail(g, p, w, h, 0, k),
            RecoverExponent(b + tame.dist - wild.dist, p - 1),
            tame.pos))
  }

  /** Lines 147-174 of `solvePollardKangaroo`: the tame kangaroo starts at
      modPow(g, b, p) with period b and jumps exactly n times, writing every
      position it reaches into the tame map with period b + dT. */
  method RunTame(g: int, p: int, w: int -> nat, b: int, n: nat)
      returns (tamePos: int, dT: nat, tameMap: map<int, int>)
    requires p != 0
    ensures Walk(g, p, w, PowRem(g, b, p), n) == Kangaroo(tamePos, dT)
    ensures tameMap == Trail(g, p, w, PowRem(g, b, p), b, n)
    ensures tamePos in tameMap && tameMap[tamePos] == b + dT
  {
    tamePos := ModPow(g, b, p);
    ghost var tameStart := tamePos;
    dT := 0;
    tameMap := map[tamePos := b];
    var i := 0;
    while i < n
      invariant 0 <= i <= n
      invariant Walk(g, p, w, tameStart, i) == Kangaroo(tamePos, dT)
      invariant tameMap == Trail(g, p, w, tameStart, b, i)
      invariant tamePos in tameMap && tameMap[tamePos] == b + dT
    {
      ghost var before := Kangaroo(tamePos, dT);
      var s := w(tamePos);
      dT := dT + s;
      var gToS := ModPow(g, s, p);
      tamePos := TRem(tamePos * gToS, p);
      tameMap := tameMap[tamePos := b + dT];
      i := i + 1;
      assert Kangaroo(tamePos, dT) == Jump(g, p, w, before);
    }
  }

  /** Lines 189-214 of `solvePollardKangaroo`: the wild kangaroo starts at h
      with period 0 and jumps, writing every position it reaches into the wild
      map with period dW, until it stands on `target` (caught) or has already
      taken more than `maxWildSteps` jumps (not caught; the caller returns
      null). */
  method RunWild(g: int, p: int, w: int -> nat, h: int, target: int, maxWildSteps: nat)
      returns (caught: bool, stepsTaken: nat, wildPos: int, dW: nat, wildMap: map<int, int>)
    requires p != 0
    ensures caught <==> FirstHit(g, p, w, h, target, 0, maxWildSteps + 1) == Some(stepsTaken)
    ensures !caught <==> FirstHit(g, p, w, h, target, 0, maxWildSteps + 1) == None
    ensures !caught ==> stepsTaken == maxWildSteps + 1
    ensures Walk(g, p, w, h, stepsTaken) == Kangaroo(wildPos, dW)
    ensures wildMap == Trail(g, p, w, h, 0, stepsTaken)
    ensures wildPos in wildMap && wildMap[wildPos] == dW
  {
    wildPos := h;
    dW := 0;
    wildMap := map[wildPos := 0];
    stepsTaken := 0;
    while wildPos != target
      invariant 0 <= stepsTaken <= maxWildSteps + 1
      invariant Walk(g, p, w, h, stepsTaken) == Kangaroo(wildPos, dW)
      invariant wildMap == Trail(g, p, w, h, 0, stepsTaken)
      invariant wildPos in wildMap && wildMap[wildPos] == dW
      invariant forall j :: 0 <= j < stepsTaken ==> Walk(g, p, w, h, j).pos != target
      decreases maxWildSteps + 1 - stepsTaken
    {
      if stepsTaken > maxWildSteps {
        assert FirstHit(g, p, w, h, target, 0, maxWildSteps + 1) == None;
        return false, stepsTaken, wildPos, dW, wildMap;
      }
      ghost var before := Kangaroo(wildPos, dW);
      stepsTaken := stepsTaken + 1;
      var s := w(wildPos);
      dW := dW + s;
      var gToS := ModPow(g, s, p);
      wildPos := TRem(wildPos * gToS, p);
      wildMap := wildMap[wildPos := dW];
      assert Kangaroo(wildPos, dW) == Jump(g, p, w, before);
    }
    assert FirstHit(g, p, w, h, target, 0, maxWildSteps + 1) == Some(stepsTaken);
    caught := true;
  }

  /** `solvePollardKangaroo`, with the five decimal strings already parsed and
      the step expression given as its evaluator. */
  method Solve(g: int, h: int, p: int, a: int, b: int, eval: int -> Option<real>) returns (r: Outcome)
    ensures r == Solution(g, h, p, a, b, StepFunction(eval))
  {
    if b < a {
      return Rejected(InvalidInterval);
    }
    var w := StepFunction(eval);
    var n := CeilSqrt(b - a);
    if p == 0 {
      // modPow(g, b, p) reduces g by p first
      return Rejected(DivisionByZero);
    }
    var tameFinalPos, dT, tameMap := RunTame(g, p, w, b, n);
    var caught, stepsTaken, wildPos, dW, wildMap := RunWild(g, p, w, h, tameFinalPos, WildCap(n));
    if !caught {
      return NoSolution;
    }
    var tamePeriodAtCollision := tameMap[tameFinalPos];
    var wildPeriodAtCollision := wildMap[tameFinalPos];
    if p == 1 {
      // orderMinusOne is 0
      return Rejected(DivisionByZero);
    }
    var orderMinusOne := p - 1;
    var periodDiff := tamePeriodAtCollision - wildPeriodAtCollision;
    var x := RecoverExponent(periodDiff, orderMinusOne);
    return Found(KangarooResult(tameMap, wildMap, x, tameFinalPos));
  }
}
