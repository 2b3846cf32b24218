/** The kangaroo walk that `solvePollardKangaroo` runs twice, once from g^b
    (the tame kangaroo) and once from h (the wild one), stated as functions of
    the number of jumps made: where the kangaroo stands, how far it has gone,
    the position-to-period map it has written, and the first jump at which it
    lands on a given position. */
module KangarooWalk {
  import opened BigIntArith
  import opened Wrappers

  /** A kangaroo: its position (a residue modulo p) and the sum of the steps
      it has taken since it started. */
  datatype Kangaroo = Kangaroo(pos: int, dist: nat)

  /** One jump: s = w(pos); the position is multiplied by `modPow(g, s, p)`
      and reduced by `JSBI.remainder`, and the distance grows by s. */
  function Jump(g: int, p: int, w: int -> nat, k: Kangaroo): (k': Kangaroo)
    requires p != 0
    ensures k'.dist == k.dist + w(k.pos)
    ensures Magnitude(k'.pos) < Magnitude(p)
  {
    var s := w(k.pos);
    Kangaroo(TRem(k.pos * PowRem(g, s, p), p), k.dist + s)
  }

  /** A jump multiplies the position by g^s modulo p, s being the step taken. */
  lemma JumpCongruent(g: int, p: int, w: int -> nat, k: Kangaroo)
    requires p != 0
    ensures Jump(g, p, w, k).pos % Magnitude(p) == (k.pos * Pow(g, w(k.pos))) % Magnitude(p)
  {
    var s := w(k.pos);
    TRemCongruent(k.pos * PowRem(g, s, p), p);
    PowRemCongruent(g, s, p);
    ModMulCongruent(PowRem(g, s, p), Pow(g, s), k.pos, Magnitude(p));
    assert PowRem(g, s, p) * k.pos == k.pos * PowRem(g, s, p);
    assert Pow(g, s) * k.pos == k.pos * Pow(g, s);
  }

  /** The kangaroo after n jumps from `start` with distance 0. */
  function Walk(g: int, p: int, w: int -> nat, start: int, n: nat): Kangaroo
    requires p != 0
    decreases n
  {
    if n == 0 then Kangaroo(start, 0) else Jump(g, p, w, Walk(g, p, w, start, n - 1))
  }

  /** The map a kangaroo has written after n jumps: its start position with
      period `base`, then after every jump its new position with period
      `base + dist`. A later visit to a position overwrites the earlier
      period, as an assignment to an object key does. */
  function Trail(g: int, p: int, w: int -> nat, start: int, base: int, n: nat): map<int, int>
    requires p != 0
    decreases n
  {
    if n == 0 then map[start := base]
    else
      var k := Walk(g, p, w, start, n);
      Trail(g, p, w, start, base, n - 1)[k.pos := base + k.dist]
  }

  /** The first jump count in [i, cap] after which the kangaroo stands on
      `target`, if there is one. */
  function FirstHit(g: int, p: int, w: int -> nat, start: int, target: int, i: nat, cap: nat): (r: Option<nat>)
    requires p != 0
    ensures r.Some? ==> i <= r.value <= cap && Walk(g, p, w, start, r.value).pos == target
    ensures r.Some? ==> forall j :: i <= j < r.value ==> Walk(g, p, w, start, j).pos != target
    ensures r.None? ==> forall j :: i <= j <= cap ==> Walk(g, p, w, start, j).pos != target
    decreases cap + 1 - i
  {
    if i > cap then None
    else if Walk(g, p, w, start, i).pos == target then Some(i)
    else FirstHit(g, p, w, start, target, i + 1, cap)
  }

  // ---------------------------------------------------------------------------
  // Properties of the walk

  /** Distance never decreases: it is the sum of non-negative steps. */
  lemma {:induction false} WalkDistMonotone(g: int, p: int, w: int -> nat, start: int, i: nat, n: nat)
    requires p != 0 && i <= n
    ensures Walk(g, p, w, start, i).dist <= Walk(g, p, w, start, n).dist
    decreases n
  {
    if i < n {
      WalkDistMonotone(g, p, w, start, i, n - 1);
    }
  }

  /** Every position of the walk is congruent, modulo p, to the start position
      times g raised to the distance covered. */
  lemma {:induction false} WalkCongruent(g: int, p: int, w: int -> nat, start: int, n: nat)
    requires p != 0
    ensures Walk(g, p, w, start, n).pos % Magnitude(p)
         == (start * Pow(g, Walk(g, p, w, start, n).dist)) % Magnitude(p)
    decreases n
  {
    if n > 0 {
      var M := Magnitude(p);
      var k := Walk(g, p, w, start, n - 1);
      var s := w(k.pos);
      WalkCongruent(g, p, w, start, n - 1);
      JumpCongruent(g, p, w, k);
      PowAdd(g, k.dist, s);
      CongruentStep(k.pos, Walk(g, p, w, start, n).pos, start, Pow(g, k.dist), Pow(g, s), M);
    }
  }

  /** If pos is congruent to start * a, multiplying by b gives a value
      congruent to start * (a * b). */
  lemma CongruentStep(pos: int, pos': int, start: int, a: int, b: int, M: int)
    requires M > 0
    requires pos % M == (start * a) % M
    requires pos' % M == (pos * b) % M
    ensures pos' % M == (start * (a * b)) % M
  {
    ModMulCongruent(pos, start * a, b, M);
    assert (start * a) * b == start * (a * b);
  }

  /** Every position visited in jumps 0..n is a key of the trail. */
  lemma {:induction false} TrailHasVisited(g: int, p: int, w: int -> nat, start: int, base: int, n: nat)
    requires p != 0
    ensures forall i :: 0 <= i <= n ==> Walk(g, p, w, start, i).pos in Trail(g, p, w, start, base, n)
    decreases n
  {
    if n > 0 {
      TrailHasVisited(g, p, w, start, base, n - 1);
    }
  }

  /** Every key of the trail is a position visited in jumps 0..n: the trail
      holds no entry the kangaroo did not reach. */
  lemma {:induction false} TrailOnlyVisited(g: int, p: int, w: int -> nat, start: int, base: int, n: nat, key: int)
    requires p != 0 && key in Trail(g, p, w, start, base, n)
    ensures exists i :: 0 <= i <= n && Walk(g, p, w, start, i).pos == key
    decreases n
  {
    if n == 0 {
      assert Walk(g, p, w, start, 0).pos == key;
    } else if key == Walk(g, p, w, start, n).pos {
    } else {
      TrailOnlyVisited(g, p, w, start, base, n - 1, key);
    }
  }

  /** The period recorded for a position is that of its LAST visit: if the
      kangaroo stood on it after jump i and never again up to jump n, the
      trail maps it to base plus the distance after jump i. In particular the
      current position maps to the current period. */
  lemma {:induction false} TrailLastVisit(g: int, p: int, w: int -> nat, start: int, base: int, i: nat, n: nat)
    requires p != 0 && i <= n
    requires forall j :: i < j <= n ==> Walk(g, p, w, start, j).pos != Walk(g, p, w, start, i).pos
    ensures Walk(g, p, w, start, i).pos in Trail(g, p, w, start, base, n)
    ensures Trail(g, p, w, start, base, n)[Walk(g, p, w, start, i).pos] == base + Walk(g, p, w, start, i).dist
    decreases n
  {
    if i < n {
      TrailLastVisit(g, p, w, start, base, i, n - 1);
    }
  }

  /** Trap-map integrity: every entry of a trail pairs a position with a
      period no smaller than `base`, and the position is congruent modulo p
      to the start times g raised to the period minus `base`. */
  lemma {:induction false} TrailCongruent(g: int, p: int, w: int -> nat, start: int, base: int, n: nat)
    requires p != 0
    ensures forall key :: key in Trail(g, p, w, start, base, n) ==>
              Trail(g, p, w, start, base, n)[key] >= base &&
              key % Magnitude(p) == (start * Pow(g, Trail(g, p, w, start, base, n)[key] - base)) % Magnitude(p)
    decreases n
  {
    var k := Walk(g, p, w, start, n);
    WalkCongruent(g, p, w, start, n);
    if n > 0 {
      TrailCongruent(g, p, w, start, base, n - 1);
    }
  }

  /** A trail of n jumps has at most n + 1 entries. */
  lemma {:induction false} TrailSize(g: int, p: int, w: int -> nat, start: int, base: int, n: nat)
    requires p != 0
    ensures |Trail(g, p, w, start, base, n)| <= n + 1
    decreases n
  {
    if n > 0 {
      TrailSize(g, p, w, start, base, n - 1);
      var k := Walk(g, p, w, start, n);
      MapUpdateSize(Trail(g, p, w, start, base, n - 1), k.pos, base + k.dist);
    }
  }

  /** Writing one key adds at most one entry. */
  lemma MapUpdateSize(m: map<int, int>, key: int, v: int)
    ensures |m[key := v]| <= |m| + 1
  {
    if key in m {
      assert m[key := v].Keys == m.Keys;
    } else {
      assert m[key := v].Keys == m.Keys + {key};
    }
  }
}
