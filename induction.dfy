/**
 * `make_next_dict`: one step of the backward induction. For every history it scores
 * each candidate next choice, keeps every candidate whose score is the maximum
 * (ties included), and emits the continuations that start with a kept choice.
 */
module Induction {
  import opened Tables
  import opened Payoff
  import opened Regroup

  /** Every `prob_win` call made in scoring a candidate with these tails has someone to play against. */
  ghost predicate ScorableTails(prev: History, tails: Conts) {
    (tails == [] ==> |prev| > 0) && forall post :: post in tails ==> |prev| + |post| > 0
  }

  /** Every candidate of `inner` can be scored after `prev`. */
  ghost predicate Scorable(prev: History, inner: Dict<real, Conts>) {
    forall c :: c in inner.vals ==> ScorableTails(prev, inner.vals[c])
  }

  /** `[prob_win(c, prev + post) for post in tails]`. */
  function Payoffs(c: real, prev: History, tails: Conts): (ps: seq<real>)
    requires forall post :: post in tails ==> |prev| + |post| > 0
    ensures |ps| == |tails|
  {
    seq(|tails|, j requires 0 <= j < |tails| => ProbWin(c, prev + tails[j]))
  }

  /**
   * Lines 105-109: the payoff of choosing `c` after `prev` when `tails` are the
   * continuations still open after `c`: the plain payoff if nobody moves after
   * `c`, and otherwise the mean payoff over the open continuations.
   */
  function Score(c: real, prev: History, tails: Conts): (p: real)
    requires ScorableTails(prev, tails)
  {
    if |tails| == 0 then ProbWin(c, prev) else Avg(Payoffs(c, prev, tails))
  }

  /** The score of candidate `c` of `inner`. */
  function ScoreOf(prev: History, inner: Dict<real, Conts>, c: real): (p: real)
    requires Scorable(prev, inner) && c in inner.vals
  {
    Score(c, prev, inner.vals[c])
  }

  /**
   * The value of `optimal_P` after scoring the candidates `cs`: the largest of -1
   * (its initial value) and the scores of `cs`.
   */
  function Threshold(prev: History, inner: Dict<real, Conts>, cs: seq<real>): (t: real)
    requires Scorable(prev, inner)
    requires forall c :: c in cs ==> c in inner.vals
    ensures t >= -1.0
    ensures forall c :: c in cs ==> ScoreOf(prev, inner, c) <= t
    ensures t == -1.0 || exists c :: c in cs && ScoreOf(prev, inner, c) == t
  {
    if cs == [] then -1.0
    else
      var init := cs[..|cs| - 1];
      assert forall c :: c in cs <==> c in init || c == cs[|cs| - 1];
      var t0 := Threshold(prev, inner, init);
      var p := ScoreOf(prev, inner, cs[|cs| - 1]);
      if p > t0 then p else t0
  }

  /** The candidates of `cs` whose score is exactly `t`, in the order of `cs`. */
  function ScoringExactly(prev: History, inner: Dict<real, Conts>, cs: seq<real>, t: real): (r: seq<real>)
    requires Scorable(prev, inner)
    requires forall c :: c in cs ==> c in inner.vals
    ensures forall c :: c in r <==> c in cs && ScoreOf(prev, inner, c) == t
  {
    if cs == [] then []
    else
      var init := cs[..|cs| - 1];
      var c := cs[|cs| - 1];
      assert forall c' :: c' in cs <==> c' in init || c' == c;
      ScoringExactly(prev, inner, init, t) + if ScoreOf(prev, inner, c) == t then [c] else []
  }

  /** `optimal_choices` at line 121: the candidates, in key order, whose score equals the final `optimal_P`. */
  function Optimal(prev: History, inner: Dict<real, Conts>): (ocs: seq<real>)
    requires inner.Valid() && Scorable(prev, inner)
    ensures forall c :: c in ocs ==> c in inner.vals
  {
    ScoringExactly(prev, inner, inner.keys, Threshold(prev, inner, inner.keys))
  }

  /**
   * The kept candidates are exactly the best ones: nothing scoring less than another
   * candidate is kept, and every candidate whose score is the maximum is kept, ties
   * included, provided that maximum is not below the initial `optimal_P` of -1.
   */
  lemma OptimalIsArgmax(prev: History, inner: Dict<real, Conts>, c: real)
    requires inner.Valid() && Scorable(prev, inner)
    requires c in inner.vals
    ensures c in Optimal(prev, inner) ==>
              forall c' :: c' in inner.vals ==> ScoreOf(prev, inner, c') <= ScoreOf(prev, inner, c)
    ensures ScoreOf(prev, inner, c) >= -1.0
              && (forall c' :: c' in inner.vals ==> ScoreOf(prev, inner, c') <= ScoreOf(prev, inner, c))
            ==> c in Optimal(prev, inner)
  {
    var t := Threshold(prev, inner, inner.keys);
    if ScoreOf(prev, inner, c) >= -1.0
       && (forall c' :: c' in inner.vals ==> ScoreOf(prev, inner, c') <= ScoreOf(prev, inner, c))
    {
      if t != -1.0 {
        var w :| w in inner.keys && ScoreOf(prev, inner, w) == t;
        assert ScoreOf(prev, inner, w) <= ScoreOf(prev, inner, c);
      }
    }
  }

  /** When some candidate scores at least -1, at least one candidate is kept. */
  lemma OptimalNonEmpty(prev: History, inner: Dict<real, Conts>, c: real)
    requires inner.Valid() && Scorable(prev, inner)
    requires c in inner.vals && ScoreOf(prev, inner, c) >= -1.0
    ensures Optimal(prev, inner) != []
  {
    var t := Threshold(prev, inner, inner.keys);
    if t == -1.0 {
      assert ScoreOf(prev, inner, c) == t;
      assert c in Optimal(prev, inner);
    } else {
      var w :| w in inner.keys && ScoreOf(prev, inner, w) == t;
      assert w in Optimal(prev, inner);
    }
  }

  /** `[(c,) + post for post in tails]`. */
  function Prepend(c: real, tails: Conts): (r: Conts)
    ensures |r| == |tails|
  {
    seq(|tails|, j requires 0 <= j < |tails| => [c] + tails[j])
  }

  /**
   * Lines 123-129 as written: the continuations emitted for the kept choices `ocs`.
   * The test at line 124 reads `len(d[prev][choice])`, with `choice` the variable
   * left over from the loop at line 104, so `noTails` is whether the LAST candidate
   * has no tails, whatever `oc` is.
   */
  function EmitAsWritten(inner: Dict<real, Conts>, ocs: seq<real>, noTails: bool): (out: Conts)
    requires forall c :: c in ocs ==> c in inner.vals
    ensures forall s :: s in out ==> |s| > 0 && s[0] in ocs
  {
    if ocs == [] then []
    else
      var oc := ocs[|ocs| - 1];
      EmitAsWritten(inner, ocs[..|ocs| - 1], noTails) + if noTails then [[oc]] else Prepend(oc, inner.vals[oc])
  }

  /** The per-choice emission: `(oc,)` when `oc` itself has no tails, else `(oc,) + post` per tail. */
  function EmitIntended(inner: Dict<real, Conts>, ocs: seq<real>): (out: Conts)
    requires forall c :: c in ocs ==> c in inner.vals
    ensures forall s :: s in out ==> |s| > 0 && s[0] in ocs
  {
    if ocs == [] then []
    else
      var oc := ocs[|ocs| - 1];
      EmitIntended(inner, ocs[..|ocs| - 1]) + if inner.vals[oc] == [] then [[oc]] else Prepend(oc, inner.vals[oc])
  }

  /** Whether the leftover `choice` of line 124 has no tails (vacuous when `inner` is empty). */
  function LastHasNoTails(inner: Dict<real, Conts>): (noTails: bool)
    requires inner.Valid()
  {
    |inner.keys| == 0 || |inner.vals[inner.keys[|inner.keys| - 1]]| == 0
  }

  /** `next_dict[prev]` as `make_next_dict` builds it from `d[prev] == inner`. */
  function Solved(prev: History, inner: Dict<real, Conts>): (out: Conts)
    requires inner.Valid() && Scorable(prev, inner)
    ensures forall s :: s in out ==> |s| > 0 && s[0] in Optimal(prev, inner)
  {
    EmitAsWritten(inner, Optimal(prev, inner), LastHasNoTails(inner))
  }

  /** All candidates of `inner` have no tails, or all have some. */
  ghost predicate Uniform(inner: Dict<real, Conts>) {
    (forall c :: c in inner.vals ==> inner.vals[c] == [])
    || (forall c :: c in inner.vals ==> inner.vals[c] != [])
  }

  /** When every kept choice agrees with `noTails`, the test on the leftover `choice` is the intended test on `oc`. */
  lemma {:induction false} EmitAsWrittenIsIntended(inner: Dict<real, Conts>, ocs: seq<real>, noTails: bool)
    requires forall c :: c in ocs ==> c in inner.vals && (inner.vals[c] == []) == noTails
    ensures EmitAsWritten(inner, ocs, noTails) == EmitIntended(inner, ocs)
  {
    if ocs != [] {
      EmitAsWrittenIsIntended(inner, ocs[..|ocs| - 1], noTails);
    }
  }

  /** On a uniform table, the test of line 124 on the leftover `choice` agrees with testing `oc` itself. */
  lemma SolvedIsIntended(prev: History, inner: Dict<real, Conts>)
    requires inner.Valid() && Scorable(prev, inner) && Uniform(inner)
    ensures Solved(prev, inner) == EmitIntended(inner, Optimal(prev, inner))
  {
    var ocs := Optimal(prev, inner);
    if inner.keys != [] {
      var last := inner.keys[|inner.keys| - 1];
      assert last in inner.vals;
    }
    EmitAsWrittenIsIntended(inner, ocs, LastHasNoTails(inner));
  }

  /**
   * On a table that mixes a candidate without tails and one with tails, the test on
   * the leftover `choice` differs from the test on `oc`: after history [0], choosing
   * 0.25 (nobody follows) beats choosing 0.5 (followed by 0.75), but because the last
   * candidate 0.5 has tails, line 128 looks for tails of 0.25 and emits nothing.
   */
  lemma LeftoverChoiceMisfires()
    ensures var inner := MixedTable();
      && Optimal([0.0], inner) == [0.25]
      && Solved([0.0], inner) == []
      && EmitIntended(inner, Optimal([0.0], inner)) == [[0.25]]
  {
    var inner := MixedTable();
    MixedTableOptimal();
    assert !LastHasNoTails(inner);
  }

  /** The history [0] followed either by 0.25 (last mover) or by 0.5 and then 0.75. */
  function MixedTable(): (d: Dict<real, Conts>) {
    Dict([0.25, 0.5], map[0.25 := [], 0.5 := [[0.75]]])
  }

  lemma MixedTableScores()
    ensures Scorable([0.0], MixedTable())
    ensures ScoreOf([0.0], MixedTable(), 0.25) == 0.875
    ensures ScoreOf([0.0], MixedTable(), 0.5) == 0.375
  {
    assert ProbWin(0.25, [0.0]) == 0.875;
    assert Below([0.0, 0.75], 0.5) == [0.0] && Above([0.0, 0.75], 0.5) == [0.75];
    assert ProbWin(0.5, [0.0] + [0.75]) == 0.375;
    assert Payoffs(0.5, [0.0], [[0.75]]) == [0.375];
    assert Avg([0.375]) == 0.375;
  }

  /** Of two candidates, the one scoring strictly more (and at least -1) is the only one kept. */
  lemma FirstOfTwoWins(prev: History, inner: Dict<real, Conts>, a: real, b: real)
    requires inner.Valid() && Scorable(prev, inner) && inner.keys == [a, b]
    requires ScoreOf(prev, inner, a) >= -1.0 && ScoreOf(prev, inner, a) > ScoreOf(prev, inner, b)
    ensures Optimal(prev, inner) == [a]
  {
    var cs := inner.keys;
    assert cs[0] == a && cs[1] == b;
    assert cs[..0] == [] && cs[..2] == cs;
    ChooseStep(prev, inner, cs, 0);
    ChooseStep(prev, inner, cs, 1);
  }

  lemma MixedTableOptimal()
    ensures MixedTable().Valid() && Scorable([0.0], MixedTable())
    ensures Optimal([0.0], MixedTable()) == [0.25]
  {
    MixedTableScores();
    FirstOfTwoWins([0.0], MixedTable(), 0.25, 0.5);
  }

  /**
   * What the intended emission holds: `[oc]` for each kept `oc` without tails, and
   * `[oc] + post` for each tail `post` of each kept `oc` with tails, and nothing else.
   */
  lemma {:induction false} EmitIntendedMembers(inner: Dict<real, Conts>, ocs: seq<real>, s: seq<real>)
    requires forall c :: c in ocs ==> c in inner.vals
    ensures s in EmitIntended(inner, ocs) <==>
              exists oc :: oc in ocs &&
                ((inner.vals[oc] == [] && s == [oc]) || (|s| > 0 && s[0] == oc && s[1..] in inner.vals[oc]))
  {
    if ocs != [] {
      var init, oc := ocs[..|ocs| - 1], ocs[|ocs| - 1];
      assert forall c :: c in ocs <==> c in init || c == oc;
      EmitIntendedMembers(inner, init, s);
      var tails := inner.vals[oc];
      if tails != [] {
        PrependMembers(oc, tails, s);
      }
    }
  }

  lemma PrependMembers(c: real, tails: Conts, s: seq<real>)
    ensures s in Prepend(c, tails) <==> |s| > 0 && s[0] == c && s[1..] in tails
  {
    var r := Prepend(c, tails);
    if s in r {
      var j :| 0 <= j < |r| && r[j] == s;
      assert s[1..] == tails[j];
    }
    if |s| > 0 && s[0] == c && s[1..] in tails {
      var j :| 0 <= j < |tails| && tails[j] == s[1..];
      assert s == [c] + s[1..];
      assert r[j] == s;
    }
  }

  /**
   * Lines 101-118: score each candidate in key order, keeping a running maximum
   * `optimalP` (starting at -1) and the candidates that reach it.
   */
  method ChooseOptimal(prev: History, inner: Dict<real, Conts>) returns (optimalP: real, optimalChoices: seq<real>)
    requires inner.Valid() && Scorable(prev, inner)
    ensures optimalP == Threshold(prev, inner, inner.keys)
    ensures optimalChoices == Optimal(prev, inner)
  {
    optimalP, optimalChoices := -1.0, [];
    for j := 0 to |inner.keys|
      invariant optimalP == Threshold(prev, inner, inner.keys[..j])
      invariant optimalChoices == ScoringExactly(prev, inner, inner.keys[..j], optimalP)
    {
      var choice := inner.keys[j];
      ChooseStep(prev, inner, inner.keys, j);
      var pWin := Score(choice, prev, inner.vals[choice]);
      if pWin > optimalP {
        optimalP := pWin;
        optimalChoices := [choice];
      } else if pWin == optimalP {
        optimalChoices := optimalChoices + [choice];
      }
    }
    assert inner.keys[..|inner.keys|] == inner.keys;
  }

  /**
   * One iteration of lines 103-118 on the candidate `cs[j]`: a strictly better score
   * replaces the running maximum and the kept candidates, an equal one joins them.
   */
  lemma ChooseStep(prev: History, inner: Dict<real, Conts>, cs: seq<real>, j: nat)
    requires Scorable(prev, inner) && j < |cs|
    requires forall c :: c in cs ==> c in inner.vals
    ensures cs[j] in inner.vals
    ensures var t, p := Threshold(prev, inner, cs[..j]), ScoreOf(prev, inner, cs[j]);
            && Threshold(prev, inner, cs[..j + 1]) == (if p > t then p else t)
            && ScoringExactly(prev, inner, cs[..j + 1], if p > t then p else t) ==
               if p > t then [cs[j]]
               else if p == t then ScoringExactly(prev, inner, cs[..j], t) + [cs[j]]
               else ScoringExactly(prev, inner, cs[..j], t)
  {
    assert cs[j] in cs;
    var t, p := Threshold(prev, inner, cs[..j]), ScoreOf(prev, inner, cs[j]);
    assert cs[..j + 1][..j] == cs[..j];
    if p > t {
      NoneScoring(prev, inner, cs[..j], p);
    }
  }

  lemma NoneScoring(prev: History, inner: Dict<real, Conts>, cs: seq<real>, t: real)
    requires Scorable(prev, inner)
    requires forall c :: c in cs ==> c in inner.vals && ScoreOf(prev, inner, c) < t
    ensures ScoringExactly(prev, inner, cs, t) == []
  {
  }

  /** Lines 121-129: emit the continuations of the kept choices, with the test of line 124 as written. */
  method EmitChoices(inner: Dict<real, Conts>, optimalChoices: seq<real>, noTails: bool) returns (out: Conts)
    requires forall c :: c in optimalChoices ==> c in inner.vals
    ensures out == EmitAsWritten(inner, optimalChoices, noTails)
  {
    out := [];
    for j := 0 to |optimalChoices|
      invariant out == EmitAsWritten(inner, optimalChoices[..j], noTails)
    {
      var oc := optimalChoices[j];
      assert optimalChoices[..j + 1][..j] == optimalChoices[..j];
      if noTails {
        out := out + [[oc]];
      } else {
        var prefixed := PrependTails(oc, inner.vals[oc]);
        out := out + prefixed;
      }
    }
    assert optimalChoices[..|optimalChoices|] == optimalChoices;
  }

  /** Lines 128-129: append `(oc,) + post` for every tail `post`, in order. */
  method PrependTails(oc: real, tails: Conts) returns (out: Conts)
    ensures out == Prepend(oc, tails)
  {
    out := [];
    for t := 0 to |tails|
      invariant out == Prepend(oc, tails[..t])
    {
      assert Prepend(oc, tails[..t + 1]) == Prepend(oc, tails[..t]) + [[oc] + tails[t]];
      out := out + [[oc] + tails[t]];
    }
    assert tails[..|tails|] == tails;
  }

  /** After `n` iterations of `make_next_dict`'s loop: the first `n` histories are solved, in key order. */
  ghost predicate SolvedUpTo(d: Grouped, n: nat, next: Dict<History, Conts>)
    requires ValidGrouped(d) && n <= |d.keys|
    requires forall prev :: prev in d.vals ==> Scorable(prev, d.vals[prev])
  {
    && next.Valid() && next.keys == d.keys[..n]
    && forall prev :: prev in next.vals ==> prev in d.vals && next.vals[prev] == Solved(prev, d.vals[prev])
  }

  /** Storing the solution of the next history keeps `SolvedUpTo`. */
  lemma SolvedStep(d: Grouped, n: nat, next: Dict<History, Conts>)
    requires ValidGrouped(d) && n < |d.keys|
    requires forall prev :: prev in d.vals ==> Scorable(prev, d.vals[prev])
    requires SolvedUpTo(d, n, next)
    ensures d.keys[n] in d.vals
    ensures next.Valid() && d.keys[n] !in next.vals
    ensures SolvedUpTo(d, n + 1, next.Insert(d.keys[n], Solved(d.keys[n], d.vals[d.keys[n]])))
  {
    var prev := d.keys[n];
    assert d.keys[..n + 1] == d.keys[..n] + [prev];
    assert prev !in d.keys[..n];
  }

  /** `make_next_dict(d)`: lines 97-129 for every history `prev`, in key order. */
  method MakeNextDict(d: Grouped) returns (nextDict: Dict<History, Conts>)
    requires ValidGrouped(d)
    requires forall prev :: prev in d.vals ==> Scorable(prev, d.vals[prev])
    ensures nextDict.Valid() && nextDict.keys == d.keys
    ensures forall prev :: prev in d.vals ==> prev in nextDict.vals && nextDict.vals[prev] == Solved(prev, d.vals[prev])
  {
    nextDict := Empty();
    for n := 0 to |d.keys|
      invariant SolvedUpTo(d, n, nextDict)
    {
      var prev := d.keys[n];
      SolvedStep(d, n, nextDict);
      var inner := d.vals[prev];
      var _, optimalChoices := ChooseOptimal(prev, inner);
      var noTails := |inner.keys| == 0 || |inner.vals[inner.keys[|inner.keys| - 1]]| == 0;
      var out := EmitChoices(inner, optimalChoices, noTails);
      nextDict := nextDict.Insert(prev, out);
    }
    assert d.keys[..|d.keys|] == d.keys;
  }
}
