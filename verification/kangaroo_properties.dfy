/** What a result of `solvePollardKangaroo` guarantees, proved from its
    specification `Solution`: where the kangaroos met, what the two maps
    hold, what x is, and why a null result means no meeting within the cap. */
module KangarooProperties {
  import opened BigIntArith
  import opened Wrappers
  import opened KangarooWalk
  import opened PollardKangaroo

  /** On success: the bounds were ordered and p - 1 was usable; the meeting
      position is the tame kangaroo's final position, a key of both maps; the
      tame map gives it the tame period b + dT and the wild map the period
      dW of the wild kangaroo, which made the least number k <= 5 * N + 1 of
      jumps that lands it there; and x is the period difference reduced into
      [0, p - 1). */
  lemma FoundCollision(g: int, h: int, p: int, a: int, b: int, w: int -> nat, res: KangarooResult)
    requires Solution(g, h, p, a, b, w) == Found(res)
    ensures a <= b && p != 0 && p != 1
    ensures var n := CeilSqrt(b - a);
            var tame := Walk(g, p, w, PowRem(g, b, p), n);
            var hit := FirstHit(g, p, w, h, tame.pos, 0, WildCap(n) + 1);
            && res.collisionPosition == tame.pos
            && hit.Some? && hit.value <= WildCap(n) + 1
            && res.wildMap == Trail(g, p, w, h, 0, hit.value)
            && res.collisionPosition in res.tameMap && res.collisionPosition in res.wildMap
            && res.tameMap[res.collisionPosition] == b + tame.dist
            && res.wildMap[res.collisionPosition] == Walk(g, p, w, h, hit.value).dist
  {
    var n := CeilSqrt(b - a);
    var tameStart := PowRem(g, b, p);
    var tame := Walk(g, p, w, tameStart, n);
    var k := FirstHit(g, p, w, h, tame.pos, 0, WildCap(n) + 1).value;
    TrailLastVisit(g, p, w, tameStart, b, n, n);
    TrailLastVisit(g, p, w, h, 0, k, k);
  }

  /** On success with p >= 2, x is the difference of the two periods recorded
      at the meeting position, reduced into [0, p - 1). */
  lemma FoundExponent(g: int, h: int, p: int, a: int, b: int, w: int -> nat, res: KangarooResult)
    requires Solution(g, h, p, a, b, w) == Found(res) && p >= 2
    ensures var c := res.collisionPosition;
            c in res.tameMap && c in res.wildMap &&
            0 <= res.result < p - 1 && res.result == (res.tameMap[c] - res.wildMap[c]) % (p - 1)
  {
    FoundCollision(g, h, p, a, b, w, res);
  }

  /** On success with b >= 0, the recorded periods satisfy
      g^tamePeriod = h * g^wildPeriod (mod p): the equation x is solved from. */
  lemma FoundPeriodsCongruent(g: int, h: int, p: int, a: int, b: int, w: int -> nat, res: KangarooResult)
    requires Solution(g, h, p, a, b, w) == Found(res) && b >= 0
    ensures var c := res.collisionPosition;
            c in res.tameMap && c in res.wildMap && res.tameMap[c] >= 0 && res.wildMap[c] >= 0 &&
            Pow(g, res.tameMap[c]) % Magnitude(p) == (h * Pow(g, res.wildMap[c])) % Magnitude(p)
  {
    FoundCollision(g, h, p, a, b, w, res);
    var M := Magnitude(p);
    var n := CeilSqrt(b - a);
    var tameStart := PowRem(g, b, p);
    var tame := Walk(g, p, w, tameStart, n);
    var k := FirstHit(g, p, w, h, tame.pos, 0, WildCap(n) + 1).value;
    var wild := Walk(g, p, w, h, k);
    assert wild.pos == tame.pos;
    WalkCongruent(g, p, w, tameStart, n);
    WalkCongruent(g, p, w, h, k);
    StartTimesPow(g, p, b, tame.dist);
    assert tame.pos % M == Pow(g, b + tame.dist) % M;
  }

  /** The tame kangaroo's start, modPow(g, b, p), times g^d is congruent to
      g^(b + d) when b >= 0. */
  lemma StartTimesPow(g: int, p: int, b: int, d: nat)
    requires p != 0 && b >= 0
    ensures (PowRem(g, b, p) * Pow(g, d)) % Magnitude(p) == Pow(g, b + d) % Magnitude(p)
  {
    PowRemCongruent(g, b, p);
    ModMulCongruent(PowRem(g, b, p), Pow(g, b), Pow(g, d), Magnitude(p));
    PowAdd(g, b, d);
  }

  /** Every entry of the tame trail maps a position to a period t >= b with
      position = g^t (mod p), when b >= 0. */
  lemma TameTrailCongruent(g: int, p: int, w: int -> nat, b: int, n: nat)
    requires p != 0 && b >= 0
    ensures forall key :: key in Trail(g, p, w, PowRem(g, b, p), b, n) ==>
              Trail(g, p, w, PowRem(g, b, p), b, n)[key] >= b &&
              key % Magnitude(p) == Pow(g, Trail(g, p, w, PowRem(g, b, p), b, n)[key]) % Magnitude(p)
  {
    var tameStart := PowRem(g, b, p);
    var m := Trail(g, p, w, tameStart, b, n);
    TrailCongruent(g, p, w, tameStart, b, n);
    forall key | key in m
      ensures m[key] >= b && key % Magnitude(p) == Pow(g, m[key]) % Magnitude(p)
    {
      var d: nat := m[key] - b;
      StartTimesPow(g, p, b, d);
    }
  }

  /** Trap-map integrity on success: every tame entry maps a position to a
      period t >= b with position = g^t (mod p) (for b >= 0), and every wild
      entry maps a position to a period u >= 0 with position = h * g^u
      (mod p). No entry is unreachable from its kangaroo's start. */
  lemma FoundTrapMaps(g: int, h: int, p: int, a: int, b: int, w: int -> nat, res: KangarooResult)
    requires Solution(g, h, p, a, b, w) == Found(res)
    ensures b >= 0 ==> forall key :: key in res.tameMap ==>
              res.tameMap[key] >= b && key % Magnitude(p) == Pow(g, res.tameMap[key]) % Magnitude(p)
    ensures forall key :: key in res.wildMap ==>
              res.wildMap[key] >= 0 && key % Magnitude(p) == (h * Pow(g, res.wildMap[key])) % Magnitude(p)
  {
    var n := CeilSqrt(b - a);
    var tame := Walk(g, p, w, PowRem(g, b, p), n);
    var k := FirstHit(g, p, w, h, tame.pos, 0, WildCap(n) + 1).value;
    assert res.tameMap == Trail(g, p, w, PowRem(g, b, p), b, n);
    assert res.wildMap == Trail(g, p, w, h, 0, k);
    if b >= 0 {
      TameTrailCongruent(g, p, w, b, n);
    }
    TrailCongruent(g, p, w, h, 0, k);
  }

  /** A null result means the bounds were ordered, p was not 0, and none of
      the first 5 * N + 1 jumps of the wild kangaroo (nor its start) landed on
      the tame kangaroo's final position. */
  lemma NoSolutionMeansNoMeeting(g: int, h: int, p: int, a: int, b: int, w: int -> nat)
    requires Solution(g, h, p, a, b, w) == NoSolution
    ensures a <= b && p != 0
    ensures var n := CeilSqrt(b - a);
            var tame := Walk(g, p, w, PowRem(g, b, p), n);
            forall j :: 0 <= j <= WildCap(n) + 1 ==> Walk(g, p, w, h, j).pos != tame.pos
  {
    var n := CeilSqrt(b - a);
    var tame := Walk(g, p, w, PowRem(g, b, p), n);
    assert FirstHit(g, p, w, h, tame.pos, 0, WildCap(n) + 1) == None;
  }

  /** The call throws for an unordered interval, and only then with that
      reason; it never returns a result for it. */
  lemma InvalidIntervalRejected(g: int, h: int, p: int, a: int, b: int, w: int -> nat)
    ensures Solution(g, h, p, a, b, w) == Rejected(InvalidInterval) <==> b < a
  {
  }

  /** When h already is the tame kangaroo's final position, the wild kangaroo
      makes no jump: its map is {h: 0}. */
  lemma ImmediateCollision(g: int, h: int, p: int, a: int, b: int, w: int -> nat)
    requires a <= b && p >= 2
    requires h == Walk(g, p, w, PowRem(g, b, p), CeilSqrt(b - a)).pos
    ensures Solution(g, h, p, a, b, w).Found?
    ensures Solution(g, h, p, a, b, w).res.wildMap == map[h := 0]
  {
    var n := CeilSqrt(b - a);
    assert Walk(g, p, w, h, 0).pos == h;
    assert FirstHit(g, p, w, h, h, 0, WildCap(n) + 1) == Some(0);
  }

  /** With a == b, N is 0: the tame kangaroo does not jump, and if h is
      modPow(g, b, p) the search ends at once with x = b mod (p - 1). */
  lemma EqualBounds(g: int, h: int, p: int, b: int, w: int -> nat)
    requires p >= 2 && h == PowRem(g, b, p)
    ensures Solution(g, h, p, b, b, w) == Found(KangarooResult(map[h := b], map[h := 0], b % (p - 1), h))
  {
    assert CeilSqrt(0) == 0;
    assert Walk(g, p, w, h, 0).pos == h;
    assert FirstHit(g, p, w, h, h, 0, WildCap(0) + 1) == Some(0);
  }

  /** On success the tame map holds at most N + 1 entries and the wild map at
      most 5 * N + 2: the wild kangaroo made at most 5 * N + 1 jumps. */
  lemma FoundMapSizes(g: int, h: int, p: int, a: int, b: int, w: int -> nat, res: KangarooResult)
    requires Solution(g, h, p, a, b, w) == Found(res)
    ensures a <= b
    ensures |res.tameMap| <= CeilSqrt(b - a) + 1
    ensures |res.wildMap| <= WildCap(CeilSqrt(b - a)) + 2
  {
    var n := CeilSqrt(b - a);
    var tame := Walk(g, p, w, PowRem(g, b, p), n);
    var k := FirstHit(g, p, w, h, tame.pos, 0, WildCap(n) + 1).value;
    assert res.tameMap == Trail(g, p, w, PowRem(g, b, p), b, n);
    assert res.wildMap == Trail(g, p, w, h, 0, k);
    TrailSize(g, p, w, PowRem(g, b, p), b, n);
    TrailSize(g, p, w, h, 0, k);
  }

  /** If x is (t - u) mod q then x + u and t agree modulo q. */
  lemma ExponentShift(t: int, u: int, x: int, q: int)
    requires q >= 1 && x == (t - u) % q
    ensures (x + u) % q == t % q
  {
    var k := (t - u) / q;
    assert t - u == k * q + x;
    ModShift(x + u, k, q);
    assert t == x + u + k * q;
  }

  /** g^u has the inverse (g^(q-1))^u modulo P when g^q = 1 (mod P). */
  lemma PowInverse(g: int, q: nat, P: int, u: nat)
    requires q >= 1 && P >= 2 && Pow(g, q) % P == 1
    ensures (Pow(g, u) * Pow(Pow(g, q - 1), u)) % P == 1 % P
  {
    PowProduct(g, Pow(g, q - 1), u);
    assert g * Pow(g, q - 1) == Pow(g, q);
    ModUnique(1, 0, 1, P);
    PowCongruent(Pow(g, q), 1, u, P);
    PowOfOne(u);
  }

  /** With x + u = t (mod q) and g^q = 1 (mod P), g^x * g^u = g^t (mod P). */
  lemma ShiftedPowers(g: int, h: int, P: int, q: nat, t: nat, u: nat, x: nat)
    requires P >= 2 && q >= 1 && Pow(g, q) % P == 1
    requires Pow(g, t) % P == (h * Pow(g, u)) % P
    requires (x + u) % q == t % q
    ensures (Pow(g, x) * Pow(g, u)) % P == (h * Pow(g, u)) % P
  {
    PowPeriodic(g, q, P, x + u, t);
    PowAdd(g, x, u);
  }

  /** The arithmetic behind the recovery of x: if g^t = h * g^u (mod P),
      g^q = 1 (mod P) and x = (t - u) mod q, then g^x = h (mod P). */
  lemma DiscreteLogFromPeriods(g: int, h: int, P: int, q: nat, t: nat, u: nat, x: nat)
    requires P >= 2 && q >= 1 && Pow(g, q) % P == 1
    requires Pow(g, t) % P == (h * Pow(g, u)) % P
    requires x == (t - u) % q
    ensures Pow(g, x) % P == h % P
  {
    ExponentShift(t, u, x, q);
    ShiftedPowers(g, h, P, q, t, u, x);
    PowInverse(g, q, P, u);
    ModCancel(Pow(g, x), h, Pow(g, u), Pow(Pow(g, q - 1), u), P);
  }

  /** x is not confined to [a, b], even when h has a logarithm there: with
      g = 2, h = 1, p = 7 and [a, b] = [3, 4], 2^3 = 1 (mod 7) so x = 3
      solves the problem, yet with the step 5 at position 1 and 1 elsewhere
      the tame kangaroo goes 2 -> 4 (period 5), the wild one jumps once from
      1 to 4 (period 5), and x = 0. */
  lemma ResultOutsideInterval()
    ensures Pow(2, 3) % 7 == 1
    ensures var r := Solution(2, 1, 7, 3, 4, n => if n == 1 then 5 else 1);
            r.Found? && r.res.result == 0 && !(3 <= r.res.result <= 4)
  {
    var w: int -> nat := n => if n == 1 then 5 else 1;
    assert Pow(2, 3) == 8 by {
      assert Pow(2, 1) == 2;
      assert Pow(2, 2) == 4;
    }
    assert CeilSqrt(1) == 1 by {
      assert CeilSqrtFrom(1, 1) == 1;
      assert CeilSqrtFrom(1, 0) == CeilSqrtFrom(1, 1);
    }
    assert PowRem(2, 4, 7) == 2 by {
      assert Pow(2, 4) == 16;
    }
    assert PowRem(2, 1, 7) == 2 by {
      assert Pow(2, 1) == 2;
    }
    assert PowRem(2, 5, 7) == 4 by {
      assert Pow(2, 4) == 16;
      assert Pow(2, 5) == 32;
    }
    assert Walk(2, 7, w, 2, 0) == Kangaroo(2, 0);
    assert Walk(2, 7, w, 2, 1) == Kangaroo(4, 1);
    assert Walk(2, 7, w, 1, 0) == Kangaroo(1, 0);
    assert Walk(2, 7, w, 1, 1) == Kangaroo(4, 5);
    assert FirstHit(2, 7, w, 1, 4, 1, 6) == Some(1);
    assert FirstHit(2, 7, w, 1, 4, 0, 6) == Some(1);
    assert RecoverExponent(0, 6) == 0;
  }

  /** The returned x solves the discrete logarithm: g^x = h (mod p), when
      p >= 2, b >= 0 and g^(p-1) = 1 (mod p) (Fermat's little theorem, for p
      prime and g not a multiple of p). */
  lemma FoundSolvesDiscreteLog(g: int, h: int, p: int, a: int, b: int, w: int -> nat, res: KangarooResult)
    requires Solution(g, h, p, a, b, w) == Found(res)
    requires p >= 2 && b >= 0 && Pow(g, p - 1) % p == 1
    ensures 0 <= res.result < p - 1
    ensures Pow(g, res.result) % p == h % p
  {
    FoundExponent(g, h, p, a, b, w, res);
    FoundPeriodsCongruent(g, h, p, a, b, w, res);
    var c := res.collisionPosition;
    assert Magnitude(p) == p;
    DiscreteLogFromPeriods(g, h, p, p - 1, res.tameMap[c], res.wildMap[c], res.result);
  }
}
