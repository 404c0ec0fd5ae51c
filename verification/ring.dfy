/** Positions on a circular array of `n` slots, as linear probing walks them:
    `At(h, j, n)` is the slot `j` steps after `h`, and `Dist(a, b, n)` is how
    many steps lead from `a` to `b`. Both are written without `%`, so the
    facts below are linear arithmetic. */
module Ring {

  function At(h: nat, j: nat, n: nat): (r: nat)
    requires h < n && j < n
    ensures r < n
  {
    if h + j < n then h + j else h + j - n
  }

  function Dist(a: nat, b: nat, n: nat): (r: nat)
    requires a < n && b < n
    ensures r < n
  {
    if a <= b then b - a else b + n - a
  }

  /** `(position + 1) % n` moves one step further round the ring. */
  lemma NextAt(h: nat, j: nat, n: nat)
    requires h < n && j + 1 < n
    ensures (At(h, j, n) + 1) % n == At(h, j + 1, n)
  {
  }

  /** Walking `Dist(h, x)` steps from `h` ends at `x`, and `j` steps from `h`
      is at distance `j`: the two views of a position agree. */
  lemma AtDist(h: nat, x: nat, n: nat)
    requires h < n && x < n
    ensures At(h, Dist(h, x, n), n) == x
  {
  }

  lemma DistAt(h: nat, j: nat, n: nat)
    requires h < n && j < n
    ensures Dist(h, At(h, j, n), n) == j
  {
  }

  /** Distinct step counts below `n` reach distinct slots. */
  lemma AtInjective(h: nat, i: nat, j: nat, n: nat)
    requires h < n && i < n && j < n && At(h, i, n) == At(h, j, n)
    ensures i == j
  {
  }

  /** A walk from `h` that passes `x` continues from `x`. */
  lemma AtSplit(h: nat, x: nat, m: nat, n: nat)
    requires h < n && x < n && Dist(h, x, n) + m < n
    ensures At(x, m, n) == At(h, Dist(h, x, n) + m, n)
    ensures Dist(x, At(x, m, n), n) == m
  {
  }

  /** Distances along the ring add up when the middle point comes first. */
  lemma DistSplit(h: nat, x: nat, z: nat, n: nat)
    requires h < n && x < n && z < n && Dist(h, x, n) <= Dist(h, z, n)
    ensures Dist(x, z, n) == Dist(h, z, n) - Dist(h, x, n)
  {
  }

  /** Seen from a base `p`: the walk from `h` to `x` (at offset `i` from `p`)
      that does not pass the slot `t` at offset `d > i` stays in the part of
      the ring that is not strictly between `x` and `t`, so every slot it
      visits has offset at most `i` or beyond `d`. */
  lemma {:induction false} AvoidingWalk(p: nat, h: nat, x: nat, t: nat, m: nat, n: nat)
    requires p < n && h < n && x < n && t < n
    requires Dist(p, x, n) < Dist(p, t, n)
    requires forall k :: 0 <= k < Dist(h, x, n) ==> At(h, k, n) != t
    requires m <= Dist(h, x, n)
    ensures Dist(p, At(h, m, n), n) <= Dist(p, x, n) || Dist(p, t, n) < Dist(p, At(h, m, n), n)
  {
    var s, i, d := Dist(p, h, n), Dist(p, x, n), Dist(p, t, n);
    if s <= i {
      DistSplit(p, h, x, n);
    } else if s <= d {
      DistSplit(p, h, t, n);
      AtDist(h, t, n);
      assert false;
    } else {
      assert Dist(h, x, n) == n - s + i;
    }
  }
}
