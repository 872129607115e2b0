/**
  Travel costs and the traffic model.

  A cost is either infinite (no route) or a finite number of minutes. The
  traffic factor of an ordered index pair (i, j) is a fixed function of the
  single integer seed + 10 * i + j; which value the pseudo-random generator
  produces for that integer is not modelled, only that it lies in
  [FactorLow, FactorHigh].
 */
module Traffic {

  /** A travel time in minutes, or infinity for "no route". */
  datatype Cost = Inf | Fin(v: real)

  /** Lightest traffic: the route is 10% faster than its base time. */
  const FactorLow: real := 0.9
  /** Heaviest traffic: the route takes two and a half times its base time. */
  const FactorHigh: real := 2.5

  /** Every value the traffic generator can produce lies in the configured range. */
  ghost predicate FactorInRange(factor: int -> real)
  {
    forall key :: FactorLow <= factor(key) <= FactorHigh
  }

  /** The integer that seeds the generator for the ordered pair (i, j). */
  function SeedKey(seed: int, i: int, j: int): int
  {
    seed + i * 10 + j
  }

  /**
    With fewer than ten facilities, distinct ordered pairs get distinct keys,
    so (i, j) and (j, i) are seeded separately.
   */
  lemma SeedKeyDistinct(seed: int, i: nat, j: nat, i': nat, j': nat)
    requires j < 10 && j' < 10
    ensures SeedKey(seed, i, j) == SeedKey(seed, i', j') <==> i == i' && j == j'
  {
    if i < i' {
      assert SeedKey(seed, i, j) < seed + (i + 1) * 10 <= SeedKey(seed, i', j');
    } else if i' < i {
      assert SeedKey(seed, i', j') < seed + (i' + 1) * 10 <= SeedKey(seed, i, j);
    }
  }

  /** From ten facilities on, different pairs can share a key, and so a traffic factor. */
  lemma SeedKeyCollision(seed: int)
    ensures SeedKey(seed, 0, 10) == SeedKey(seed, 1, 0)
  {
  }

  /** Strict comparison of costs, with infinity above every finite cost. */
  predicate Below(a: Cost, b: Cost)
  {
    match (a, b)
    case (Fin(x), Fin(y)) => x < y
    case (Fin(_), Inf) => true
    case (Inf, _) => false
  }

  /** `Below` is the strict order of the extended reals. */
  lemma BelowTotal(a: Cost, b: Cost, c: Cost)
    ensures Below(a, b) || Below(b, a) || a == b
    ensures !(Below(a, b) && Below(b, a))
    ensures Below(a, b) && Below(b, c) ==> Below(a, c)
  {
  }

  /**
    The traffic-adjusted cost of a base cost: infinite when there is no
    route, otherwise the base time scaled by the traffic factor.
   */
  function Adjusted(base: Cost, f: real): (c: Cost)
    requires FactorLow <= f <= FactorHigh
    ensures c.Inf? <==> base.Inf?
    ensures base.Fin? && base.v >= 0.0 ==> FactorLow * base.v <= c.v <= FactorHigh * base.v
  {
    if base.Inf? then Inf
    else
      var c := Fin(base.v * f);
      ScaleBounds(base.v, f, c.v);
      c
  }

  /** The product of two non-negative reals is non-negative. */
  lemma MulNonNeg(a: real, b: real)
    requires a >= 0.0 && b >= 0.0
    ensures a * b >= 0.0
  {
  }

  /** Scaling a non-negative time by a factor in range keeps it within the range's bounds. */
  lemma ScaleBounds(x: real, f: real, y: real)
    requires FactorLow <= f <= FactorHigh
    requires y == x * f
    ensures x >= 0.0 ==> FactorLow * x <= y <= FactorHigh * x
  {
    if x >= 0.0 {
      MulNonNeg(x, f - FactorLow);
      MulNonNeg(x, FactorHigh - f);
      assert y - FactorLow * x == x * (f - FactorLow);
      assert FactorHigh * x - y == x * (FactorHigh - f);
    }
  }

  /** The traffic-adjusted matrix of a base matrix under a seed and a traffic generator. */
  ghost function AdjustedMatrix(m: seq<seq<Cost>>, seed: int, factor: int -> real): (w: seq<seq<Cost>>)
    requires FactorInRange(factor)
    requires forall i :: 0 <= i < |m| ==> |m[i]| == |m|
    ensures |w| == |m|
    ensures forall i :: 0 <= i < |w| ==> |w[i]| == |w|
    ensures forall i, j :: 0 <= i < |m| && 0 <= j < |m| ==> (w[i][j].Inf? <==> m[i][j].Inf?)
    ensures forall i, j :: 0 <= i < |m| && 0 <= j < |m| && m[i][j].Fin? && m[i][j].v >= 0.0 ==>
      FactorLow * m[i][j].v <= w[i][j].v <= FactorHigh * m[i][j].v
  {
    seq(|m|, i requires 0 <= i < |m| =>
      seq(|m|, j requires 0 <= j < |m| => Adjusted(m[i][j], factor(SeedKey(seed, i, j)))))
  }
}
