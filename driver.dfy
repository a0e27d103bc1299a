/**
 * Lines 160-163: starting from the table of all plays, apply `transform_dict` and
 * then `make_next_dict` once per player. Each round shortens the histories by one
 * and leaves under each history only the continuations in which the player who
 * moves next (and every later player) chooses optimally.
 */
module Driver {
  import opened Tables
  import opened Payoff
  import opened Regroup
  import opened Induction

  /**
   * The table of line 160 for more than one player (line 158): each key is a play
   * of `n` distinct values of [0, 1] (a permutation of `n` candidates) and carries
   * no continuations.
   */
  ghost predicate InitialTable(init: Dict<History, Conts>, n: nat) {
    1 < n && init.Valid() && forall k :: k in init.vals ==> |k| == n && Distinct(k) && InUnit(k) && init.vals[k] == []
  }

  /**
   * In the play `p`, the last mover's choice is a best reply: no choice that also
   * completes the same history to a play of the initial table wins more often.
   */
  ghost predicate LastMoveBest(init: Dict<History, Conts>, p: seq<real>) {
    |p| >= 2 && forall c :: p[..|p| - 1] + [c] in init.vals ==> ProbWin(c, p[..|p| - 1]) <= ProbWin(p[|p| - 1], p[..|p| - 1])
  }

  /**
   * The continuation `s` kept after history `h` starts with a choice of the player
   * who moves after `h` whose payoff (line 106 or 109, against the continuations `x`
   * lists for it) is the largest of all the choices `x` offers, and goes on with one
   * of those continuations.
   */
  ghost predicate KeptFrom(x: Dict<History, Conts>, h: History, s: seq<real>) {
    && |s| > 0 && h + [s[0]] in x.vals
    && (x.vals[h + [s[0]]] == [] ==> s == [s[0]])
    && (x.vals[h + [s[0]]] != [] ==> s[1..] in x.vals[h + [s[0]]])
    && ScorableTails(h, x.vals[h + [s[0]]])
    && forall c :: h + [c] in x.vals && ScorableTails(h, x.vals[h + [c]]) ==>
         Score(c, h, x.vals[h + [c]]) <= Score(s[0], h, x.vals[h + [s[0]]])
  }

  /** Every continuation of `y` was kept from `x` by a best choice of the new mover. */
  ghost predicate NewMoverBest(x: Dict<History, Conts>, y: Dict<History, Conts>) {
    forall h, s :: h in y.vals && s in y.vals[h] ==> KeptFrom(x, h, s)
  }

  /** Every key of `x` is a history of length `len`. */
  ghost predicate KeyLengths(x: Dict<History, Conts>, len: int) {
    x.Valid() && forall h :: h in x.vals ==> |h| == len
  }

  /** Every continuation listed under a history has length `i` and completes it to a play of `init`. */
  ghost predicate Lands(init: Dict<History, Conts>, i: nat, x: Dict<History, Conts>) {
    forall h, s :: h in x.vals && s in x.vals[h] ==> |s| == i && h + s in init.vals
  }

  /** Before the first round `X` is the initial table; after it, no history is left without a continuation. */
  ghost predicate Started(init: Dict<History, Conts>, i: nat, x: Dict<History, Conts>) {
    (i == 0 ==> x == init) && (0 < i ==> forall h :: h in x.vals ==> x.vals[h] != [])
  }

  /** After at least one round, every play of `init` still has its first n - i moves as a history of `x`. */
  ghost predicate Covering(init: Dict<History, Conts>, n: nat, i: nat, x: Dict<History, Conts>)
    requires InitialTable(init, n) && i <= n
  {
    0 < i ==> forall k :: k in init.vals ==> k[..n - i] in x.vals
  }

  /** After at least one round, in every listed play the last mover replies best. */
  ghost predicate BestReplies(init: Dict<History, Conts>, i: nat, x: Dict<History, Conts>) {
    0 < i ==> forall h, s :: h in x.vals && s in x.vals[h] ==> LastMoveBest(init, h + s)
  }

  /** What holds of `X` after `i` rounds of lines 162-163. */
  ghost predicate AfterRounds(init: Dict<History, Conts>, n: nat, i: nat, x: Dict<History, Conts>)
    requires InitialTable(init, n)
  {
    && i <= n
    && KeyLengths(x, n - i)
    && Lands(init, i, x)
    && Started(init, i, x)
    && Covering(init, n, i, x)
    && BestReplies(init, i, x)
  }

  /** `choice` is not among the values of `a + b` when `a + [choice] + b` has distinct values. */
  lemma DistinctSplit(a: seq<real>, choice: real, b: seq<real>)
    requires Distinct(a + [choice] + b) && InUnit(a + [choice] + b)
    ensures choice !in a + b && 0.0 <= choice <= 1.0 && InUnit(a + b)
  {
    var p := a + [choice] + b;
    assert p[|a|] == choice;
    forall j | 0 <= j < |a + b| ensures 0.0 <= (a + b)[j] <= 1.0 && (a + b)[j] != choice {
      if j < |a| {
        assert (a + b)[j] == p[j];
      } else {
        assert (a + b)[j] == p[j + 1];
      }
    }
  }

  /** In the initial table and in every later round, a candidate's payoff is a probability. */
  lemma ScoreInUnit(init: Dict<History, Conts>, prev: History, c: real, tails: Conts)
    requires forall post :: post in tails ==> prev + [c] + post in init.vals && |prev| + |post| > 0
    requires tails == [] ==> prev + [c] in init.vals && |prev| > 0
    requires forall k :: k in init.vals ==> Distinct(k) && InUnit(k)
    ensures ScorableTails(prev, tails)
    ensures 0.0 <= Score(c, prev, tails) <= 1.0
  {
    if tails == [] {
      assert prev + [c] + [] == prev + [c];
      DistinctSplit(prev, c, []);
      assert prev + [] == prev;
      ProbWinBounds(c, prev);
    } else {
      var ps := Payoffs(c, prev, tails);
      forall j | 0 <= j < |ps| ensures 0.0 <= ps[j] <= 1.0 {
        assert tails[j] in tails;
        DistinctSplit(prev, c, tails[j]);
        ProbWinBounds(c, prev + tails[j]);
      }
      AvgBounds(ps, 0.0, 1.0);
    }
  }

  /** After `i < n` rounds the keys are non-empty, so `transform_dict` can take their last component. */
  lemma KeysNonEmpty(init: Dict<History, Conts>, n: nat, i: nat, x: Dict<History, Conts>)
    requires InitialTable(init, n) && AfterRounds(init, n, i, x) && i < n
    ensures NonEmptyKeys(x.keys)
  {
  }

  /** Every history of the regrouped table is a prefix of length n - i - 1 and has a candidate. */
  lemma GroupedHistory(n: nat, i: nat, x: Dict<History, Conts>, g: Grouped, o: History)
    requires KeyLengths(x, n - i) && i < n
    requires NonEmptyKeys(x.keys) && IsRegroupingOf(g, x)
    requires o in g.vals
    ensures |o| == n - i - 1
    ensures exists c :: c in g.vals[o].vals
  {
    assert o in Outers(x.keys);
    var k :| k in x.keys && Prefix(k) == o;
    PrefixLast(k);
    assert o + [Last(k)] in x.vals;
  }

  /** Every candidate of the regrouped table can be scored, and its score is a probability. */
  lemma GroupedScore(init: Dict<History, Conts>, n: nat, i: nat, x: Dict<History, Conts>, g: Grouped, o: History, c: real)
    requires InitialTable(init, n) && i < n
    requires KeyLengths(x, n - i) && Lands(init, i, x) && Started(init, i, x)
    requires NonEmptyKeys(x.keys) && IsRegroupingOf(g, x)
    requires o in g.vals && c in g.vals[o].vals
    ensures o + [c] in x.vals && g.vals[o].vals[c] == x.vals[o + [c]]
    ensures ScorableTails(o, g.vals[o].vals[c])
    ensures 0.0 <= Score(c, o, g.vals[o].vals[c]) <= 1.0
    ensures i == 0 <==> g.vals[o].vals[c] == []
  {
    GroupedHistory(n, i, x, g, o);
    var h := o + [c];
    assert h in x.vals;
    TailsLand(init, n, i, x, o, c);
    ScoreInUnit(init, o, c, x.vals[h]);
  }

  /** The continuations listed under `o + [c]` complete `o + [c]` to plays of `init`. */
  lemma TailsLand(init: Dict<History, Conts>, n: nat, i: nat, x: Dict<History, Conts>, o: History, c: real)
    requires InitialTable(init, n) && i < n
    requires KeyLengths(x, n - i) && Lands(init, i, x) && Started(init, i, x)
    requires o + [c] in x.vals && |o| == n - i - 1
    ensures forall post :: post in x.vals[o + [c]] ==> o + [c] + post in init.vals && |o| + |post| > 0
    ensures x.vals[o + [c]] == [] ==> o + [c] in init.vals && |o| > 0
    ensures forall k :: k in init.vals ==> Distinct(k) && InUnit(k)
    ensures i == 0 <==> x.vals[o + [c]] == []
  {
    var h := o + [c];
    if i == 0 {
      assert x.vals[h] == [];
    } else {
      assert x.vals[h] != [];
      forall post | post in x.vals[h] ensures h + post in init.vals && |o| + |post| > 0 {
        assert |post| == i;
      }
    }
  }

  lemma RoundScorable(init: Dict<History, Conts>, n: nat, i: nat, x: Dict<History, Conts>, g: Grouped)
    requires InitialTable(init, n) && i < n
    requires KeyLengths(x, n - i) && Lands(init, i, x) && Started(init, i, x)
    requires NonEmptyKeys(x.keys) && IsRegroupingOf(g, x)
    ensures forall o :: o in g.vals ==> Scorable(o, g.vals[o]) && Uniform(g.vals[o])
  {
    forall o | o in g.vals ensures Scorable(o, g.vals[o]) && Uniform(g.vals[o]) {
      forall c | c in g.vals[o].vals ensures ScorableTails(o, g.vals[o].vals[c]) && (i == 0 <==> g.vals[o].vals[c] == []) {
        GroupedScore(init, n, i, x, g, o, c);
      }
    }
  }

  /** In the first round, a kept choice is a best reply to its history. */
  lemma FirstRoundBest(init: Dict<History, Conts>, n: nat, x: Dict<History, Conts>, g: Grouped, o: History, oc: real)
    requires InitialTable(init, n)
    requires KeyLengths(x, n) && Lands(init, 0, x) && Started(init, 0, x)
    requires NonEmptyKeys(x.keys) && IsRegroupingOf(g, x)
    requires o in g.vals && Scorable(o, g.vals[o]) && oc in Optimal(o, g.vals[o])
    ensures LastMoveBest(init, o + [oc])
  {
    var inner := g.vals[o];
    GroupedHistory(n, 0, x, g, o);
    var p := o + [oc];
    assert p[..|p| - 1] == o;
    forall c | o + [c] in init.vals ensures ProbWin(c, o) <= ProbWin(oc, o) {
      GroupedScore(init, n, 0, x, g, o, c);
      GroupedScore(init, n, 0, x, g, o, oc);
      OptimalIsArgmax(o, inner, oc);
    }
  }

  /** A continuation kept for `o` starts with one of the kept choices `oc`. */
  lemma KeptChoice(inner: Dict<real, Conts>, ocs: seq<real>, s: seq<real>) returns (oc: real)
    requires forall c :: c in ocs ==> c in inner.vals
    requires s in EmitIntended(inner, ocs)
    ensures oc in ocs && |s| > 0 && s[0] == oc
    ensures inner.vals[oc] == [] ==> s == [oc]
    ensures inner.vals[oc] != [] ==> s[1..] in inner.vals[oc]
  {
    EmitIntendedMembers(inner, ocs, s);
    oc :| oc in ocs &&
      ((inner.vals[oc] == [] && s == [oc]) || (|s| > 0 && s[0] == oc && s[1..] in inner.vals[oc]));
  }

  /** In a later round, a kept continuation extends one that was already a best reply. */
  lemma LaterRoundEntry(init: Dict<History, Conts>, i: nat, x: Dict<History, Conts>, o: History, s: seq<real>)
    requires 0 < i && Lands(init, i, x) && BestReplies(init, i, x)
    requires |s| > 0 && o + [s[0]] in x.vals && s[1..] in x.vals[o + [s[0]]]
    ensures |s| == i + 1 && o + s in init.vals && LastMoveBest(init, o + s)
  {
    var h, post := o + [s[0]], s[1..];
    assert s == [s[0]] + post;
    assert o + s == h + post;
  }

  /**
   * One continuation kept for history `o` in round i + 1 has length i + 1, completes
   * `o` to a play of the initial table, and its last mover replies best.
   */
  lemma RoundEntry(init: Dict<History, Conts>, n: nat, i: nat, x: Dict<History, Conts>, g: Grouped, o: History, s: seq<real>)
    requires InitialTable(init, n) && i < n
    requires KeyLengths(x, n - i) && Lands(init, i, x) && Started(init, i, x) && BestReplies(init, i, x)
    requires NonEmptyKeys(x.keys) && IsRegroupingOf(g, x)
    requires o in g.vals && Scorable(o, g.vals[o])
    requires s in EmitIntended(g.vals[o], Optimal(o, g.vals[o]))
    ensures |s| == i + 1 && o + s in init.vals && LastMoveBest(init, o + s)
  {
    var inner := g.vals[o];
    var oc := KeptChoice(inner, Optimal(o, inner), s);
    GroupedScore(init, n, i, x, g, o, oc);
    if i == 0 {
      FirstRoundBest(init, n, x, g, o, oc);
    } else {
      LaterRoundEntry(init, i, x, o, s);
    }
  }

  /** A continuation kept for `o` comes from a choice that no other choice of `x` beats. */
  lemma EntryBest(init: Dict<History, Conts>, n: nat, i: nat, x: Dict<History, Conts>, g: Grouped, o: History, s: seq<real>)
    requires InitialTable(init, n) && i < n
    requires KeyLengths(x, n - i) && Lands(init, i, x) && Started(init, i, x)
    requires NonEmptyKeys(x.keys) && IsRegroupingOf(g, x)
    requires o in g.vals && Scorable(o, g.vals[o])
    requires s in EmitIntended(g.vals[o], Optimal(o, g.vals[o]))
    ensures KeptFrom(x, o, s)
  {
    var inner := g.vals[o];
    var oc := KeptChoice(inner, Optimal(o, inner), s);
    GroupedScore(init, n, i, x, g, o, oc);
    forall c | o + [c] in x.vals && ScorableTails(o, x.vals[o + [c]])
      ensures Score(c, o, x.vals[o + [c]]) <= Score(oc, o, x.vals[o + [oc]])
    {
      assert c in inner.vals && inner.vals[c] == x.vals[o + [c]];
      OptimalIsArgmax(o, inner, oc);
    }
  }

  /** Each round keeps, for every history, only continuations that start with a best choice. */
  lemma RoundBest(init: Dict<History, Conts>, n: nat, i: nat, x: Dict<History, Conts>, g: Grouped, y: Dict<History, Conts>)
    requires InitialTable(init, n) && i < n
    requires KeyLengths(x, n - i) && Lands(init, i, x) && Started(init, i, x)
    requires NonEmptyKeys(x.keys) && IsRegroupingOf(g, x)
    requires forall o :: o in g.vals ==> Scorable(o, g.vals[o]) && Uniform(g.vals[o])
    requires y.Valid() && y.keys == g.keys
    requires forall o :: o in g.vals ==> o in y.vals && y.vals[o] == Solved(o, g.vals[o])
    ensures NewMoverBest(x, y)
  {
    forall o, s | o in y.vals && s in y.vals[o] ensures KeptFrom(x, o, s) {
      assert o in g.keys;
      SolvedIsIntended(o, g.vals[o]);
      EntryBest(init, n, i, x, g, o, s);
    }
  }

  /** Every history of `g` keeps at least one continuation. */
  lemma RoundNonEmpty(init: Dict<History, Conts>, n: nat, i: nat, x: Dict<History, Conts>, g: Grouped, o: History)
    requires InitialTable(init, n) && i < n
    requires KeyLengths(x, n - i) && Lands(init, i, x) && Started(init, i, x)
    requires NonEmptyKeys(x.keys) && IsRegroupingOf(g, x)
    requires o in g.vals && Scorable(o, g.vals[o])
    ensures EmitIntended(g.vals[o], Optimal(o, g.vals[o])) != []
  {
    var inner := g.vals[o];
    GroupedHistory(n, i, x, g, o);
    var c :| c in inner.vals;
    GroupedScore(init, n, i, x, g, o, c);
    OptimalNonEmpty(o, inner, c);
    var ocs := Optimal(o, inner);
    var oc := ocs[0];
    assert oc in ocs;
    var emitted := if inner.vals[oc] == [] then [oc] else [oc] + inner.vals[oc][0];
    if inner.vals[oc] != [] {
      assert inner.vals[oc][0] in inner.vals[oc];
      assert emitted[1..] == inner.vals[oc][0];
    }
    EmitIntendedMembers(inner, ocs, emitted);
  }

  /** The next table has the shape, the non-emptiness and the best replies of round i + 1. */
  lemma RoundShape(init: Dict<History, Conts>, n: nat, i: nat, x: Dict<History, Conts>, g: Grouped, y: Dict<History, Conts>)
    requires InitialTable(init, n) && i < n
    requires KeyLengths(x, n - i) && Lands(init, i, x) && Started(init, i, x) && BestReplies(init, i, x)
    requires NonEmptyKeys(x.keys) && IsRegroupingOf(g, x)
    requires forall o :: o in g.vals ==> Scorable(o, g.vals[o]) && Uniform(g.vals[o])
    requires y.Valid() && y.keys == g.keys
    requires forall o :: o in g.vals ==> o in y.vals && y.vals[o] == Solved(o, g.vals[o])
    ensures KeyLengths(y, n - (i + 1)) && Lands(init, i + 1, y) && Started(init, i + 1, y) && BestReplies(init, i + 1, y)
  {
    forall o | o in y.vals
      ensures |o| == n - (i + 1)
      ensures y.vals[o] != []
      ensures forall s :: s in y.vals[o] ==> |s| == i + 1 && o + s in init.vals && LastMoveBest(init, o + s)
    {
      assert o in g.keys;
      GroupedHistory(n, i, x, g, o);
      SolvedIsIntended(o, g.vals[o]);
      RoundNonEmpty(init, n, i, x, g, o);
      forall s | s in y.vals[o] ensures |s| == i + 1 && o + s in init.vals && LastMoveBest(init, o + s) {
        RoundEntry(init, n, i, x, g, o, s);
      }
    }
  }

  /** Every play of `init` keeps its first n - i - 1 moves as a history of the next table. */
  lemma RoundCovering(init: Dict<History, Conts>, n: nat, i: nat, x: Dict<History, Conts>, g: Grouped, y: Dict<History, Conts>)
    requires InitialTable(init, n) && i < n
    requires x.Valid() && Started(init, i, x) && Covering(init, n, i, x)
    requires NonEmptyKeys(x.keys) && IsRegroupingOf(g, x)
    requires y.Valid() && y.keys == g.keys
    ensures Covering(init, n, i + 1, y)
  {
    forall k | k in init.vals ensures k[..n - (i + 1)] in y.vals {
      var h := k[..n - i];
      if i == 0 {
        assert h == k;
      }
      assert h in x.keys;
      assert Prefix(h) == k[..n - (i + 1)];
      assert Prefix(h) in Outers(x.keys);
    }
  }

  /** Lines 162-163 keep `AfterRounds` from round i to round i + 1. */
  lemma RoundStep(init: Dict<History, Conts>, n: nat, i: nat, x: Dict<History, Conts>, g: Grouped, y: Dict<History, Conts>)
    requires InitialTable(init, n) && AfterRounds(init, n, i, x) && i < n
    requires NonEmptyKeys(x.keys) && IsRegroupingOf(g, x)
    requires y.Valid() && y.keys == g.keys
    requires forall o :: o in g.vals ==> o in y.vals && y.vals[o] == Solved(o, g.vals[o])
    ensures AfterRounds(init, n, i + 1, y)
  {
    RoundScorable(init, n, i, x, g);
    RoundShape(init, n, i, x, g, y);
    RoundCovering(init, n, i, x, g, y);
  }

  /** After the last round the empty history is the only one left, unless there was no play at all. */
  lemma Finished(init: Dict<History, Conts>, n: nat, x: Dict<History, Conts>)
    requires InitialTable(init, n) && AfterRounds(init, n, n, x)
    ensures forall h :: h in x.vals ==> h == []
    ensures [] in x.vals <==> init.keys != []
    ensures [] in x.vals ==> x.vals[[]] != []
    ensures forall s :: [] in x.vals && s in x.vals[[]] ==> |s| == n && s in init.vals && LastMoveBest(init, s)
  {
    if [] in x.vals {
      var s := x.vals[[]][0];
      assert s in x.vals[[]];
      assert [] + s in init.vals;
    }
    if init.keys != [] {
      var k := init.keys[0];
      assert k in init.vals;
      assert k[..0] == [];
    }
    forall s | [] in x.vals && s in x.vals[[]] ensures |s| == n && s in init.vals && LastMoveBest(init, s) {
      assert [] + s == s;
    }
  }

  /**
   * Line 163: one round, `X = make_next_dict(transform_dict(X))`. The histories get
   * one move shorter, and each one keeps only continuations that start with a choice
   * of the largest payoff for the player who moves after it.
   */
  method Round(init: Dict<History, Conts>, n: nat, i: nat, x: Dict<History, Conts>) returns (next: Dict<History, Conts>)
    requires InitialTable(init, n) && AfterRounds(init, n, i, x) && i < n
    ensures AfterRounds(init, n, i + 1, next)
    ensures NewMoverBest(x, next)
  {
    KeysNonEmpty(init, n, i, x);
    var grouped := TransformDict(x);
    RoundScorable(init, n, i, x, grouped);
    next := MakeNextDict(grouped);
    RoundStep(init, n, i, x, grouped, next);
    RoundBest(init, n, i, x, grouped, next);
  }

  /**
   * Lines 158-163 for `nPlayers` players, from the table `init` of all plays: the
   * result is keyed by the empty history alone (present when there is any play), lists at
   * least one play, and every play it lists is a play of `init` whose last mover
   * replies best.
   */
  method Solve(init: Dict<History, Conts>, nPlayers: nat) returns (x: Dict<History, Conts>)
    requires InitialTable(init, nPlayers)
    ensures x.Valid()
    ensures forall h :: h in x.vals ==> h == []
    ensures [] in x.vals <==> init.keys != []
    ensures [] in x.vals ==> x.vals[[]] != []
    ensures forall s :: [] in x.vals && s in x.vals[[]] ==> |s| == nPlayers && s in init.vals && LastMoveBest(init, s)
  {
    x := init;
    for i := 0 to nPlayers
      invariant AfterRounds(init, nPlayers, i, x)
    {
      x := Round(init, nPlayers, i, x);
    }
    Finished(init, nPlayers, x);
  }
}
