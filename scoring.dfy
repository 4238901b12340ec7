/**
 * The closeness score of a feasible candidate.
 *
 * The distance is Euclidean in (vCPUs, GiB of memory, GPUs), memory being
 * MiB divided by 1024 on both sides before differencing. The model keeps no
 * square root and no division: `Score` is the square of the distance scaled
 * by 1024, an integer, and the lemmas below show that it is exactly that and
 * that it orders candidates as the distance itself does.
 */
module Scoring {
  import opened Tables

  function Square(x: int): int {
    x * x
  }

  /** (1024 * distance)^2: 1024^2 * (dv^2 + dg^2) + dm^2, dm in MiB. */
  function Score(s: Spec, req: Requirement): (d: int)
    ensures d >= 0
    ensures d == 0 <==> s.vcpus == req.vcpus && s.memoryMiB == req.memoryMiB && s.gpus == req.gpus
  {
    var dv, dm, dg := s.vcpus - req.vcpus, s.memoryMiB - req.memoryMiB, s.gpus - req.gpus;
    SquareNonNegative(dv);
    SquareNonNegative(dm);
    SquareNonNegative(dg);
    1048576 * (Square(dv) + Square(dg)) + Square(dm)
  }

  /** The source's squared distance, in exact real arithmetic, memory in GiB. */
  function DistanceSquared(s: Spec, req: Requirement): real {
    var dv := (s.vcpus - req.vcpus) as real;
    var dm := s.memoryMiB as real / 1024.0 - req.memoryMiB as real / 1024.0;
    var dg := (s.gpus - req.gpus) as real;
    dv * dv + dm * dm + dg * dg
  }

  lemma SquareNonNegative(x: int)
    ensures Square(x) >= 0
    ensures Square(x) == 0 <==> x == 0
  {
  }

  /** The integer score is the real squared distance times 1024^2. */
  lemma ScoreIsScaledDistance(s: Spec, req: Requirement)
    ensures Score(s, req) as real == 1048576.0 * DistanceSquared(s, req)
  {
  }

  lemma ProductPositive(a: real, b: real)
    requires a > 0.0 && b > 0.0
    ensures a * b > 0.0
  {
  }

  /** Squaring is strictly monotone on non-negative reals. */
  lemma SquareStrictlyMonotone(x: real, y: real)
    requires 0.0 <= y < x
    ensures y * y < x * x
  {
    ProductPositive(x - y, x + y);
    assert (x - y) * (x + y) == x * x - y * y;
  }

  /**
   * For any non-negative roots d1, d2 of the two squared distances (what the
   * source computes with a square root), comparing the integer scores decides
   * the same order as comparing d1 and d2. Ties coincide too.
   */
  lemma ScoreOrdersLikeDistance(s1: Spec, s2: Spec, req: Requirement, d1: real, d2: real)
    requires 0.0 <= d1 && d1 * d1 == DistanceSquared(s1, req)
    requires 0.0 <= d2 && d2 * d2 == DistanceSquared(s2, req)
    ensures Score(s1, req) <= Score(s2, req) <==> d1 <= d2
    ensures Score(s1, req) == Score(s2, req) <==> d1 == d2
  {
    ScoreIsScaledDistance(s1, req);
    ScoreIsScaledDistance(s2, req);
    if d1 < d2 {
      SquareStrictlyMonotone(d2, d1);
    } else if d2 < d1 {
      SquareStrictlyMonotone(d1, d2);
    }
  }
}
