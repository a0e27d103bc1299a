/**
 * `get_fractions`: the finite set of values the players may choose from, standing in
 * for the whole interval [0, 1].
 */
module Candidates {

  /** `eps = 1 / 10000000`. */
  const Eps: real := 1.0 / 10000000.0

  /** `num / denom`. */
  function Frac(k: int, d: int): (f: real)
    requires d != 0
    ensures f * d as real == k as real
  {
    k as real / d as real
  }

  /** `f` is `g` or `g` moved by `eps` to either side. */
  predicate Near(f: real, g: real) {
    f == g || f == g + Eps || f == g - Eps
  }

  /** The four values the set starts with (line 139). */
  predicate IsSeed(f: real) {
    f == 0.0 || f == 1.0 || f == Eps || f == 1.0 - Eps
  }

  /** `f` is k/d, k/d + eps or k/d - eps for some d in 2..6 and 1 <= k < d. */
  ghost predicate IsCandidate(f: real) {
    IsSeed(f) || exists d: int, k: int :: 2 <= d <= 6 && 1 <= k < d && Near(f, Frac(k, d))
  }

  /**
   * `get_fractions()`: exactly the seeds and every k/d, k/d + eps, k/d - eps
   * for the denominators 2 to 6; all of them lie in [0, 1].
   */
  method GetFractions() returns (fractions: set<real>)
    ensures forall f :: f in fractions <==> IsCandidate(f)
    ensures forall f :: f in fractions ==> 0.0 <= f <= 1.0
  {
    fractions := {0.0, 1.0, Eps, 1.0 - Eps};
    for denom := 2 to 7
      invariant forall f :: f in fractions <==>
        IsSeed(f) || exists d: int, k: int :: 2 <= d < denom && 1 <= k < d && Near(f, Frac(k, d))
    {
      for num := 1 to denom
        invariant forall f :: f in fractions <==>
          IsSeed(f) || exists d: int, k: int ::
            ((2 <= d < denom && 1 <= k < d) || (d == denom && 1 <= k < num)) && Near(f, Frac(k, d))
      {
        var f := Frac(num, denom);
        fractions := fractions + {f};
        fractions := fractions + {f + Eps};
        fractions := fractions + {f - Eps};
      }
    }
    forall f | f in fractions ensures 0.0 <= f <= 1.0 {
      CandidateInUnit(f);
    }
  }

  /** The fractions k/d with 2 <= d <= 6 and 1 <= k < d lie in [1/6, 5/6]. */
  lemma FracBounds(k: int, d: int)
    requires 2 <= d <= 6 && 1 <= k < d
    ensures 1.0 / 6.0 <= Frac(k, d) <= 5.0 / 6.0
  {
    if d == 2 {
    } else if d == 3 {
    } else if d == 4 {
    } else if d == 5 {
    } else {
    }
  }

  /** Every candidate lies in [0, 1]. */
  lemma CandidateInUnit(f: real)
    requires IsCandidate(f)
    ensures 0.0 <= f <= 1.0
  {
    if !IsSeed(f) {
      var d: int, k: int :| 2 <= d <= 6 && 1 <= k < d && Near(f, Frac(k, d));
      FracBounds(k, d);
    }
  }

  /** Two different fractions with denominators at most 6 are at least 1/36 apart. */
  lemma FracGap(k1: int, d1: int, k2: int, d2: int)
    requires 2 <= d1 <= 6 && 2 <= d2 <= 6
    requires Frac(k1, d1) < Frac(k2, d2)
    ensures Frac(k2, d2) - Frac(k1, d1) >= 1.0 / 36.0
  {
    var num := k2 * d1 - k1 * d2;
    var den := d1 * d2;
    assert Frac(k2, d2) - Frac(k1, d1) == num as real / den as real;
    assert num >= 1;
    assert den <= 36;
  }

  /**
   * `eps` is small enough that perturbing keeps the order: of two different points
   * k/d in [0, 1] with d in 2..6, the smaller moved up by `eps` stays below the
   * larger moved down by `eps`.
   */
  lemma EpsKeepsOrder(k1: int, d1: int, k2: int, d2: int)
    requires 2 <= d1 <= 6 && 0 <= k1 <= d1
    requires 2 <= d2 <= 6 && 0 <= k2 <= d2
    requires Frac(k1, d1) < Frac(k2, d2)
    ensures Frac(k1, d1) + Eps < Frac(k2, d2) - Eps
  {
    FracGap(k1, d1, k2, d2);
  }
}
