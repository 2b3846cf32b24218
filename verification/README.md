# Pollard kangaroo discrete logarithm — a Dafny model

This project models the engine of the PollardKangaroo visualiser. Given a
generator g, a target h, a modulus p, an interval [a, b] and a step
expression, `solvePollardKangaroo` looks for x with g^x = h (mod p). It works
in four phases:

- The tame kangaroo starts at g^b mod p with period b. It makes exactly
  N = ceil(sqrt(b - a)) jumps. Each jump multiplies the position by g^s mod p,
  where s = w(position), and adds s to the period. Every position reached is
  recorded in the tame map.
- The wild kangaroo starts at h with period 0. It jumps the same way until it
  stands on the tame kangaroo's final position. It gives up (returns `null`)
  once it has taken more than 5·N jumps. Every position reached is recorded in
  the wild map.
- x is the difference of the two periods recorded at the meeting position,
  reduced modulo p - 1.
- The helpers are a square-and-multiply `modPow`, the step function's
  sanitiser, and the `ModPow` and `absolute` of `Helper.ts`.

The modules are:

- `BigIntArith` — big-integer arithmetic as JSBI performs it.
  - `Pow` is exact exponentiation.
  - `TRem` is `JSBI.remainder`: a truncated remainder whose sign follows the
    dividend.
  - `PowRem` is the value `modPow` computes.
  - The module also holds the congruence and periodicity lemmas the other
    proofs rest on.
- `Helper` — `Helper.ts`.
- `KangarooWalk` — one kangaroo's walk as pure functions:
  - `Jump` and `Walk` give the kangaroo after n jumps;
  - `Trail` is the map it has written;
  - `FirstHit` is the first jump count at which it lands on a position.
- `PollardKangaroo` — the engine itself:
  - `KangarooResult`;
  - `ModPow` (`modPow`);
  - the step sanitiser `Sanitise` and `StepFunction`;
  - `CeilSqrt` (N);
  - `RecoverExponent` (x from the period difference);
  - the specification function `Solution`;
  - the imperative loops `RunTame` and `RunWild`, and `Solve`, each proved
    against `Solution` and the walk functions.
- `KangarooProperties` — what a result guarantees, proved from `Solution`.
- `Wrappers` — `Option`.

The data of the engine:

- `PollardKangaroo.KangarooResult` (`PollardKangaroo.ts` lines 11-28) holds
  the tame map, the wild map, the exponent x and the collision position.
  The maps are `map<int, int>` from position to period.
- `PollardKangaroo.Outcome` covers the three ways a call ends:
  - `Rejected`, a thrown error. The reason is a `Failure`: the interval
    check at line 115, or a remainder by zero at lines 39 and 229.
  - `NoSolution`, the `null` of line 200.
  - `Found`, the `KangarooResult` built at line 234.
- `KangarooWalk.Kangaroo` is one walker's state: its position and the
  distance it has covered. These are `tamePos`/`dT` at lines 147-148 and
  `wildPos`/`dW` at lines 189-190.

Behaviour of the code worth knowing:

- **A revisited position is overwritten.** When a kangaroo lands on a
  position again, its map entry gets the later period; the first visit is
  not kept. This is an assignment to an object key (`TrailLastVisit`).
- **Equal bounds.** With a = b and h = modPow(g, b, p), N is 0 and the
  result is b mod (p - 1) (`EqualBounds`).
- **x need not lie in [a, b].** x is the period difference reduced modulo
  p - 1, whatever the interval. For g = 2, h = 1, p = 7 and [a, b] = [3, 4],
  x = 3 solves 2^x = 1 (mod 7) inside the interval. With the step 5 at
  position 1 and 1 elsewhere, the result is 0 (`ResultOutsideInterval`).
- **The wild kangaroo may make 5·N + 1 jumps.** The wild cap is tested
  before each jump with `>`, so the limit is one more than 5·N jumps
  (`NoSolutionMeansNoMeeting`, `FoundMapSizes`).

## Model

| member | source | states |
|---|---|---|
| BigIntArith.TRem | PollardKangaroo/src/core/PollardKangaroo.ts:39 | `JSBI.remainder`: the remainder is smaller in magnitude than the divisor and takes the dividend's sign |
| BigIntArith.TRemCongruent | PollardKangaroo/src/core/PollardKangaroo.ts:45 | the truncated remainder is congruent to the dividend modulo the divisor's magnitude |
| BigIntArith.TRemMulLeft | PollardKangaroo/src/core/PollardKangaroo.ts:45 | reducing a factor before multiplying does not change the reduced product |
| BigIntArith.TRemPow | PollardKangaroo/src/core/PollardKangaroo.ts:39-48 | reducing the base first (line 39) does not change the reduced power |
| BigIntArith.PowRem | PollardKangaroo/src/core/PollardKangaroo.ts:37-54 | the value of `modPow`: exactly 1 for a non-positive exponent, otherwise smaller in magnitude than a modulus of magnitude at least 2 |
| BigIntArith.PowRemCongruent | PollardKangaroo/src/core/PollardKangaroo.ts:37-54 | for a positive exponent, `modPow`'s value is congruent to base^exp modulo the modulus's magnitude |
| BigIntArith.SquareAndMultiplyStep | PollardKangaroo/src/core/PollardKangaroo.ts:42-51 | one square-and-multiply iteration keeps result · b^e unchanged modulo the modulus |
| BigIntArith.PowRemIsModularPower | PollardKangaroo/src/core/PollardKangaroo.ts:34-37 | for base ≥ 0, exponent ≥ 0 and modulus ≥ 2, `modPow` returns base^exp mod m, in [0, m) |
| BigIntArith.PowPeriodic | PollardKangaroo/src/core/PollardKangaroo.ts:223-229 | when g^q = 1 (mod P), g^e depends only on e mod q: why the periods are reduced mod p - 1 |
| PollardKangaroo.ModPow | PollardKangaroo/src/core/PollardKangaroo.ts:37-54 | the loop returns `PowRem(base, exponent, modulus)`; a non-positive exponent returns 1 |
| Helper.ModPow | PollardKangaroo/src/core/Helper.ts:3-15 | modulus 1 gives 0; otherwise the same value as the engine's `modPow`; for base ≥ 0, exp ≥ 0 and mod ≥ 2, base^exp mod mod in [0, mod) |
| Helper.Absolute | PollardKangaroo/src/core/Helper.ts:17-22 | the result is non-negative and is x or -x |
| Helper.AbsoluteIsMagnitude | PollardKangaroo/src/core/Helper.ts:17-22 | `absolute` equals the magnitude that the remainder operations reduce by |
| Helper.AbsoluteIdempotent | PollardKangaroo/src/core/Helper.ts:17-22 | applying `absolute` twice is applying it once |
| Helper.AbsoluteNegate | PollardKangaroo/src/core/Helper.ts:17-22 | x and -x have the same absolute value |
| PollardKangaroo.Sanitise | PollardKangaroo/src/core/PollardKangaroo.ts:68-77 | a non-negative integer answer is the step; a failed, non-numeric, negative or fractional answer gives 1 |
| PollardKangaroo.SanitiseKeepsNaturals | PollardKangaroo/src/core/PollardKangaroo.ts:71-74 | every natural-number answer passes through unchanged |
| PollardKangaroo.SanitiseIdempotent | PollardKangaroo/src/core/PollardKangaroo.ts:71-77 | a sanitised step is accepted unchanged when sanitised again |
| PollardKangaroo.StepFunction | PollardKangaroo/src/core/PollardKangaroo.ts:61-80 | w(n) is the evaluator's answer at n when that is a non-negative integer, and 1 when evaluation fails |
| PollardKangaroo.StepFunctionFallsBack | PollardKangaroo/src/core/PollardKangaroo.ts:71-77 | a negative or fractional answer makes w(n) equal to 1 |
| PollardKangaroo.CeilSqrt | PollardKangaroo/src/core/PollardKangaroo.ts:124-130 | N² ≥ b - a and (N - 1)² < b - a |
| PollardKangaroo.CeilSqrtLeast | PollardKangaroo/src/core/PollardKangaroo.ts:124-130 | N is the least natural number whose square reaches b - a |
| PollardKangaroo.RecoverExponent | PollardKangaroo/src/core/PollardKangaroo.ts:228-232 | for a positive order, x is the Euclidean remainder diff mod order, in [0, order) |
| PollardKangaroo.RunTame | PollardKangaroo/src/core/PollardKangaroo.ts:147-174 | after the N jumps, (tamePos, dT) is `Walk` after N jumps, the tame map is `Trail` of N jumps from period b, and it maps tamePos to b + dT |
| PollardKangaroo.RunWild | PollardKangaroo/src/core/PollardKangaroo.ts:189-214 | caught exactly when the first landing on the target comes within the cap, at stepsTaken; otherwise there is none and it gives up after exactly maxWildSteps + 1 jumps; the wild map is the trail of the jumps made |
| PollardKangaroo.IsNonNegativeInteger | PollardKangaroo/src/core/PollardKangaroo.ts:71 | the test a step must pass: an integer that is not negative |
| PollardKangaroo.WildCap | PollardKangaroo/src/core/PollardKangaroo.ts:194 | the wild kangaroo's step cap, 5 · N |
| PollardKangaroo.Solution | PollardKangaroo/src/core/PollardKangaroo.ts:99-240 | the outcome of a call. b < a throws; p = 0 throws; otherwise the tame walk runs N jumps from modPow(g, b, p), and the wild walk from h meets it at the first hit within 5·N + 1 jumps (none: null). On a hit, p = 1 throws; otherwise the result holds both trails, x recovered from the periods, and the tame final position |
| PollardKangaroo.Solve | PollardKangaroo/src/core/PollardKangaroo.ts:99-240 | the outcome equals the specification `Solution`: throws, null or the `KangarooResult` |
| KangarooWalk.Jump | PollardKangaroo/src/core/PollardKangaroo.ts:158-163 | a jump adds w(pos) to the distance and leaves a position smaller in magnitude than p |
| KangarooWalk.JumpCongruent | PollardKangaroo/src/core/PollardKangaroo.ts:162-163 | a jump multiplies the position by g^s modulo p |
| KangarooWalk.Walk | PollardKangaroo/src/core/PollardKangaroo.ts:156-163 | the walker after n jumps: the start with distance 0, then n applications of the jump the tame loop (lines 156-163) and the wild loop (lines 202-210) perform |
| KangarooWalk.Trail | PollardKangaroo/src/core/PollardKangaroo.ts:153-167 | the map a walker has written: the start with the base period (line 153; line 192 for the wild map), then each new position with base + distance (line 167; line 213), a later write replacing an earlier one |
| KangarooWalk.FirstHit | PollardKangaroo/src/core/PollardKangaroo.ts:197-201 | Some(k): k is in range, the walk is on the target after k jumps and not before; None: no jump count in range reaches it |
| KangarooWalk.WalkDistMonotone | PollardKangaroo/src/core/PollardKangaroo.ts:159-160 | the distance never decreases along the walk |
| KangarooWalk.WalkCongruent | PollardKangaroo/src/core/PollardKangaroo.ts:140-144 | position after n jumps = start · g^distance (mod p) |
| KangarooWalk.TrailHasVisited | PollardKangaroo/src/core/PollardKangaroo.ts:153-167 | every position visited is a key of the map |
| KangarooWalk.TrailOnlyVisited | PollardKangaroo/src/core/PollardKangaroo.ts:153-167 | every key of the map is a position visited |
| KangarooWalk.TrailLastVisit | PollardKangaroo/src/core/PollardKangaroo.ts:166-167 | a position maps to the period of its last visit (a revisit overwrites) |
| KangarooWalk.TrailCongruent | PollardKangaroo/src/core/PollardKangaroo.ts:165-167 | every entry pairs a position with a period ≥ base, the position being start · g^(period - base) (mod p) |
| KangarooWalk.TrailSize | PollardKangaroo/src/core/PollardKangaroo.ts:156-168 | a map of n jumps has at most n + 1 entries |
| KangarooWalk.MapUpdateSize | PollardKangaroo/src/core/PollardKangaroo.ts:167 | one key write adds at most one entry |
| KangarooProperties.FoundCollision | PollardKangaroo/src/core/PollardKangaroo.ts:216-239 | on success: a ≤ b; p is not 0 or 1; the meeting point is the tame final position and a key of both maps; it carries periods b + dT and dW; the wild kangaroo made the least number of jumps, at most 5·N + 1 |
| KangarooProperties.FoundExponent | PollardKangaroo/src/core/PollardKangaroo.ts:228-238 | x = (tameMap[c] - wildMap[c]) mod (p - 1), in [0, p - 1) |
| KangarooProperties.FoundPeriodsCongruent | PollardKangaroo/src/core/PollardKangaroo.ts:223-227 | g^tamePeriod = h · g^wildPeriod (mod p) at the meeting point |
| KangarooProperties.StartTimesPow | PollardKangaroo/src/core/PollardKangaroo.ts:147-153 | the tame start modPow(g, b, p) times g^d is g^(b + d) modulo p |
| KangarooProperties.TameTrailCongruent | PollardKangaroo/src/core/PollardKangaroo.ts:147-168 | every tame entry maps a position to a period t ≥ b with position = g^t (mod p) |
| KangarooProperties.FoundTrapMaps | PollardKangaroo/src/core/PollardKangaroo.ts:132-134 | on success every tame entry satisfies position = g^t and every wild entry position = h · g^u (mod p) |
| KangarooProperties.NoSolutionMeansNoMeeting | PollardKangaroo/src/core/PollardKangaroo.ts:194-201 | null means a ≤ b, p ≠ 0, and none of the wild kangaroo's first 5·N + 2 positions is the tame final position |
| KangarooProperties.InvalidIntervalRejected | PollardKangaroo/src/core/PollardKangaroo.ts:114-116 | the interval error is raised exactly when b < a |
| KangarooProperties.ImmediateCollision | PollardKangaroo/src/core/PollardKangaroo.ts:189-197 | when h is already the tame final position, the wild map is {h: 0} |
| KangarooProperties.EqualBounds | PollardKangaroo/src/core/PollardKangaroo.ts:124-130 | with a = b and h = modPow(g, b, p), the result is ({h: b}, {h: 0}, b mod (p - 1), h) |
| KangarooProperties.FoundMapSizes | PollardKangaroo/src/core/PollardKangaroo.ts:156 | on success the tame map has at most N + 1 entries and the wild map at most 5·N + 2 |
| KangarooProperties.ExponentShift | PollardKangaroo/src/core/PollardKangaroo.ts:226-229 | x = (t - u) mod q gives x + u = t (mod q) |
| KangarooProperties.PowInverse | PollardKangaroo/src/core/PollardKangaroo.ts:224-225 | g^u is invertible modulo P when g^q = 1 (mod P) |
| KangarooProperties.DiscreteLogFromPeriods | PollardKangaroo/src/core/PollardKangaroo.ts:223-229 | g^t = h · g^u and x = (t - u) mod q, with g^q = 1, give g^x = h (mod P) |
| KangarooProperties.ResultOutsideInterval | PollardKangaroo/src/core/PollardKangaroo.ts:228-238 | for g = 2, h = 1, p = 7, [a, b] = [3, 4], where 2^3 = 1 (mod 7), and the step 5 at position 1 (1 elsewhere), a result is found with x = 0, outside [a, b] |
| KangarooProperties.FoundSolvesDiscreteLog | PollardKangaroo/src/core/PollardKangaroo.ts:84 | under Fermat's g^(p-1) = 1 (mod p), a returned x lies in [0, p - 1) and g^x = h (mod p) |

## Left out

- Parsing of the decimal strings (`JSBI.BigInt(str)`) is not modelled: `Solve` takes integers, and an unparsable string is not modelled.
- Map keys are the positions themselves. The source uses their decimal strings (`toString`), which is a one-to-one encoding.
- The step expression's evaluator (mathjs), and the conversion of n to a floating-point number for it, are not modelled. They are the parameter `eval`, which returns the real answer or `None` when evaluation throws or gives no finite number. `eval` is a function of n: the source evaluates the expression again at every jump, so an expression with side effects or randomness (mathjs `random()`) could give different steps at the same position. `Walk`, `Trail` and `FirstHit` do not model that.
- `Math.sqrt` and `Math.ceil` on floating point are modelled as the exact integer ceiling square root `CeilSqrt`. Rounding for huge intervals is not modelled.
- The `diffNum < 0` early return (lines 127-129) is not modelled. It cannot trigger after the `b < a` check, so it adds no behaviour.
- The `async` signature, the Promise, `console.warn` and the React interface are not modelled.
- Thrown errors are the `Rejected` outcome: `InvalidInterval`, or `DivisionByZero` for a remainder by zero (p = 0, or p = 1 once a collision is found).
- PollardKangaroo.ModPow: requires a non-zero modulus, because `JSBI.remainder` throws on 0. Its range and `Pow` mod m reading are proved separately, in `BigIntArith.PowRemIsModularPower`.
- Helper.ModPow: requires a non-zero modulus, because `JSBI.remainder` throws on 0.
- KangarooProperties.FoundSolvesDiscreteLog: does not promise x in [a, b], as the header comment at line 84 of `PollardKangaroo.ts` does, because the code does not deliver it: x is reduced modulo p - 1 only, and `ResultOutsideInterval` gives an input where h has a logarithm in [a, b] but the returned x falls outside it.
- KangarooProperties.FoundSolvesDiscreteLog: takes g^(p-1) = 1 (mod p) as a hypothesis. Fermat's little theorem (p prime, g not a multiple of p) is not proved here. It also assumes b ≥ 0, so that g^b is an integer power.
- KangarooProperties.FoundPeriodsCongruent: assumes b ≥ 0, because a negative b makes `modPow(g, b, p)` return 1 rather than a power of g.
