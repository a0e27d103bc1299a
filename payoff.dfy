/**
 * The payoff evaluator: the probability that one player's number is the closest
 * to a target drawn uniformly from [0, 1], given the other players' numbers
 * (`prob_win`), and the mean used to average it (`avg`).
 */
module Payoff {
  import opened Tables

  /** `min(s)`. */
  function Min(s: seq<real>): (m: real)
    requires |s| > 0
    ensures m in s
    ensures forall o :: o in s ==> m <= o
  {
    if |s| == 1 then s[0]
    else
      var rest := Min(s[1..]);
      assert s == [s[0]] + s[1..];
      if s[0] <= rest then s[0] else rest
  }

  /** `max(s)`. */
  function Max(s: seq<real>): (m: real)
    requires |s| > 0
    ensures m in s
    ensures forall o :: o in s ==> o <= m
  {
    if |s| == 1 then s[0]
    else
      var rest := Max(s[1..]);
      assert s == [s[0]] + s[1..];
      if s[0] >= rest then s[0] else rest
  }

  /** `[j for j in s if j < x]`. */
  function Below(s: seq<real>, x: real): (r: seq<real>)
    ensures forall o :: o in r <==> o in s && o < x
  {
    if |s| == 0 then [] else (if s[0] < x then [s[0]] else []) + Below(s[1..], x)
  }

  /** `[j for j in s if j > x]`. */
  function Above(s: seq<real>, x: real): (r: seq<real>)
    ensures forall o :: o in r <==> o in s && x < o
  {
    if |s| == 0 then [] else (if s[0] > x then [s[0]] else []) + Above(s[1..], x)
  }

  /**
   * `prob_win(x, others)`, in exact arithmetic (the source rounds to 10 digits).
   * When `x` equals the smallest or the largest of `others` no branch applies
   * and the initial value -2 is returned.
   */
  function ProbWin(x: real, others: seq<real>): (p: real)
    requires |others| > 0
  {
    var m := Min(others);
    var M := Max(others);
    if x < m then x + (m - x) / 2.0
    else if x > M then 1.0 - x + (x - M) / 2.0
    else if x > m && x < M then
      var less := Below(others, x);
      var greater := Above(others, x);
      assert m in less && M in greater;
      var left := Max(less);
      var right := Min(greater);
      (x - left) / 2.0 + (right - x) / 2.0
    else -2.0
  }

  /** `l` is the nearest value of `others` strictly below `x`. */
  ghost predicate IsLeftNeighbour(l: real, x: real, others: seq<real>) {
    l in others && l < x && forall o :: o in others && o < x ==> o <= l
  }

  /** `r` is the nearest value of `others` strictly above `x`. */
  ghost predicate IsRightNeighbour(r: real, x: real, others: seq<real>) {
    r in others && x < r && forall o :: o in others && x < o ==> r <= o
  }

  /**
   * Left of everything: `x` wins on [0, (x + r) / 2], everything up to the midpoint
   * between itself and its right neighbour `r`.
   */
  lemma ProbWinLeftmost(x: real, others: seq<real>, r: real)
    requires forall o :: o in others ==> x < o
    requires IsRightNeighbour(r, x, others)
    ensures ProbWin(x, others) == (x + r) / 2.0
  {
  }

  /** Right of everything: `x` wins on [(l + x) / 2, 1]. */
  lemma ProbWinRightmost(x: real, others: seq<real>, l: real)
    requires forall o :: o in others ==> o < x
    requires IsLeftNeighbour(l, x, others)
    ensures ProbWin(x, others) == 1.0 - (l + x) / 2.0
  {
  }

  /**
   * Strictly inside: `x` wins between the midpoints to its two neighbours,
   * an interval of length half the gap between them.
   */
  lemma ProbWinBetween(x: real, others: seq<real>, l: real, r: real)
    requires IsLeftNeighbour(l, x, others) && IsRightNeighbour(r, x, others)
    ensures ProbWin(x, others) == (r - l) / 2.0
  {
    var m, M := Min(others), Max(others);
    assert m <= l < x < r <= M;
    assert Max(Below(others, x)) == l;
    assert Min(Above(others, x)) == r;
  }

  /** A value lying on the smallest or the largest of `others` gets the sentinel -2. */
  lemma ProbWinOnExtreme(x: real, others: seq<real>)
    requires |others| > 0
    requires x == Min(others) || x == Max(others)
    ensures ProbWin(x, others) == -2.0
  {
  }

  /**
   * On the unit interval every other value is a genuine probability:
   * strictly positive (x owns a non-empty interval) and at most 1.
   */
  lemma ProbWinBounds(x: real, others: seq<real>)
    requires |others| > 0
    requires 0.0 <= x <= 1.0 && InUnit(others)
    requires x != Min(others) && x != Max(others)
    ensures 0.0 < ProbWin(x, others) <= 1.0
  {
    var m, M := Min(others), Max(others);
    assert 0.0 <= m <= 1.0 && 0.0 <= M <= 1.0 by {
      var i :| 0 <= i < |others| && others[i] == m;
      var j :| 0 <= j < |others| && others[j] == M;
    }
    if x > m && x < M {
      var left, right := Max(Below(others, x)), Min(Above(others, x));
      assert left in others && right in others;
    }
  }

  /** On the unit interval, the sentinel -2 comes back exactly when `x` lies on an extreme of `others`. */
  lemma ProbWinSentinel(x: real, others: seq<real>)
    requires |others| > 0
    requires 0.0 <= x <= 1.0 && InUnit(others)
    ensures ProbWin(x, others) == -2.0 <==> x == Min(others) || x == Max(others)
  {
    if x == Min(others) || x == Max(others) {
      ProbWinOnExtreme(x, others);
    } else {
      ProbWinBounds(x, others);
    }
  }

  /** `[1 - o for o in s]`: the mirror image of `s` under x -> 1 - x. */
  function Reflect(s: seq<real>): (r: seq<real>)
    ensures |r| == |s| && forall j :: 0 <= j < |s| ==> r[j] == 1.0 - s[j]
  {
    seq(|s|, j requires 0 <= j < |s| => 1.0 - s[j])
  }

  lemma ReflectMembers(s: seq<real>)
    ensures forall y :: y in Reflect(s) <==> 1.0 - y in s
  {
    forall y | 1.0 - y in s ensures y in Reflect(s) {
      var j :| 0 <= j < |s| && s[j] == 1.0 - y;
      assert Reflect(s)[j] == y;
    }
  }

  lemma MinOfReflect(s: seq<real>)
    requires |s| > 0
    ensures Min(Reflect(s)) == 1.0 - Max(s) && Max(Reflect(s)) == 1.0 - Min(s)
  {
    ReflectMembers(s);
    assert 1.0 - Max(s) in Reflect(s);
    assert 1.0 - Min(s) in Reflect(s);
  }

  /** Mirroring turns the left neighbour of `x` into the right neighbour of `1 - x`. */
  lemma MirrorLeftNeighbour(l: real, x: real, others: seq<real>)
    requires IsLeftNeighbour(l, x, others)
    ensures IsRightNeighbour(1.0 - l, 1.0 - x, Reflect(others))
  {
    ReflectMembers(others);
  }

  /** Mirroring turns the right neighbour of `x` into the left neighbour of `1 - x`. */
  lemma MirrorRightNeighbour(r: real, x: real, others: seq<real>)
    requires IsRightNeighbour(r, x, others)
    ensures IsLeftNeighbour(1.0 - r, 1.0 - x, Reflect(others))
  {
    ReflectMembers(others);
  }

  /**
   * Mirroring the whole game mirrors the payoff: choosing `x` against `others`
   * wins exactly as often as choosing `1 - x` against the reflected `others`.
   */
  lemma ProbWinReflection(x: real, others: seq<real>)
    requires |others| > 0
    ensures ProbWin(x, others) == ProbWin(1.0 - x, Reflect(others))
  {
    MinOfReflect(others);
    var m, M := Min(others), Max(others);
    if m < x < M {
      var less, greater := Below(others, x), Above(others, x);
      assert m in less && M in greater;
      ReflectionBetween(x, others, Max(less), Min(greater));
    }
  }

  /** Strictly inside, `x` and `1 - x` own intervals of the same length, between mirrored neighbours. */
  lemma ReflectionBetween(x: real, others: seq<real>, l: real, r: real)
    requires IsLeftNeighbour(l, x, others) && IsRightNeighbour(r, x, others)
    ensures ProbWin(x, others) == ProbWin(1.0 - x, Reflect(others))
  {
    ProbWinBetween(x, others, l, r);
    MirroredBetween(x, others, l, r);
  }

  lemma MirroredBetween(x: real, others: seq<real>, l: real, r: real)
    requires IsLeftNeighbour(l, x, others) && IsRightNeighbour(r, x, others)
    ensures ProbWin(1.0 - x, Reflect(others)) == (r - l) / 2.0
  {
    var mirrored := Reflect(others);
    MirrorLeftNeighbour(l, x, others);
    MirrorRightNeighbour(r, x, others);
    assert IsLeftNeighbour(1.0 - r, 1.0 - x, mirrored);
    assert IsRightNeighbour(1.0 - l, 1.0 - x, mirrored);
    ProbWinBetween(1.0 - x, mirrored, 1.0 - r, 1.0 - l);
  }

  /** `sum(s)`, adding from the left. */
  function Sum(s: seq<real>): (total: real) {
    if s == [] then 0.0 else Sum(s[..|s| - 1]) + s[|s| - 1]
  }

  /** `avg(s)`: the mean of a non-empty list (exact; the source rounds to 10 digits). */
  function Avg(s: seq<real>): (mean: real)
    requires |s| > 0
    ensures mean * |s| as real == Sum(s)
  {
    Sum(s) / |s| as real
  }

  lemma {:induction false} SumBounds(s: seq<real>, lo: real, hi: real)
    requires forall j :: 0 <= j < |s| ==> lo <= s[j] <= hi
    ensures |s| as real * lo <= Sum(s) <= |s| as real * hi
  {
    if s != [] {
      SumBounds(s[..|s| - 1], lo, hi);
    }
  }

  /** The mean lies between any lower and upper bound of the values. */
  lemma AvgBounds(s: seq<real>, lo: real, hi: real)
    requires |s| > 0
    requires forall j :: 0 <= j < |s| ==> lo <= s[j] <= hi
    ensures lo <= Avg(s) <= hi
  {
    SumBounds(s, lo, hi);
    var n := |s| as real;
    assert Avg(s) * n == Sum(s);
  }

  /** The mean of a list whose values are all `c` is `c`. */
  lemma AvgOfConstant(s: seq<real>, c: real)
    requires |s| > 0
    requires forall j :: 0 <= j < |s| ==> s[j] == c
    ensures Avg(s) == c
  {
    AvgBounds(s, c, c);
  }
}
