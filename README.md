# Backward induction for the "closest to a uniform draw" game

`QuantResearch.py` solves an N-player sequential game. Each player in turn picks a
number in [0, 1], all picks distinct. Then a target is drawn uniformly from [0, 1],
and the player whose number is closest to it wins. The program
discretises the strategy space into a finite candidate set (`get_fractions`). It
builds the table of all plays and solves it by backward induction. Each round
regroups the table by the last move (`transform_dict`). It then keeps, for every
history, only the moves of largest expected win probability together with their
surviving continuations (`make_next_dict`, scored by `prob_win` and `avg`).

This project models that core in Dafny and proves what it computes.

- `tables.dfy` (module `Tables`): Python's insertion-ordered `dict` as `Dict`, a
  key sequence plus a map. `Insert` models `d[k] = v`: a new key goes at the end,
  an existing key keeps its place.
- `payoff.dfy` (module `Payoff`): `prob_win` and `avg`, in exact real arithmetic.
  - The three branches of `prob_win` are characterised by the neighbours of `x`.
  - The -2 sentinel is returned exactly when `x` lies on an extreme of `others`.
  - The result is a probability in (0, 1].
  - The payoff is symmetric under the reflection x -> 1 - x.
- `regroup.dfy` (module `Regroup`): `transform_dict` as a loop over the keys.
  - The result lists the prefixes and last components in order of first appearance.
  - It is lossless in both directions.
  - Un-grouping it gives back the input.
- `induction.dfy` (module `Induction`): `make_next_dict`, with its running maximum
  (`ChooseOptimal`), its emission loops (`EmitChoices`) and the loop over
  histories (`MakeNextDict`).
  - The kept choices are exactly the maximisers, ties included.
  - The emitted continuations are exactly `(oc,) + post`, or `(oc,)` when there are
    no tails.
- `candidates.dfy` (module `Candidates`): `get_fractions` as its two nested loops.
  - The result is exactly the seeds plus k/d and k/d ± eps for d in 2..6.
  - Every candidate lies in [0, 1].
  - Eps is small enough not to reorder two fractions.
- `driver.dfy` (module `Driver`): lines 158-163, N rounds of
  `make_next_dict(transform_dict(X))`.
  - A round invariant carries the shape of `X` from round to round.
  - Each round keeps, under every history, only continuations that start with a
    choice of largest payoff for the player who moves next.
  - After N rounds only the empty history is left. Every play it lists is a play of
    the initial table in which the last mover replies best.

Line 124 tests `len(d[prev][choice])`, where `choice` is the variable left over
from the scoring loop, that is, the *last* candidate in key order, not `oc`. The
model reproduces this test as written (`Induction.EmitAsWritten`, fed by
`Induction.LastHasNoTails`).
- `Induction.SolvedIsIntended` proves it agrees with the per-choice test whenever
  a history's candidates are all tail-less or all tailed.
- `Driver.RoundScorable` proves that this holds in every round of the driver.
- `Induction.LeftoverChoiceMisfires` shows a mixed table on which the two tests
  differ.

Two details of the code that the model follows as written:
- Line 160 builds the initial table with every full play as a key and an empty
  continuation list. It does not key the table by the empty history.
- Lines 143-145 add every k/d, reduced or not; the set removes the duplicates.

## Model

| member | source | states |
|---|---|---|
| Tables.Dict.Insert | QuantResearch.py:85-88 | `d[k] = v` keeps the dictionary well formed, maps `k` to `v`, appends `k` to the key order when it is new and leaves the order unchanged otherwise |
| Tables.Empty | QuantResearch.py:79 | `{}` is a well-formed dictionary with no keys |
| Payoff.Min | QuantResearch.py:39 | `min(others)` is one of `others` and no element is smaller |
| Payoff.Max | QuantResearch.py:40 | `max(others)` is one of `others` and no element is larger |
| Payoff.Below | QuantResearch.py:49 | `others_less` holds exactly the values of `others` below `x` |
| Payoff.Above | QuantResearch.py:50 | `other_greater` holds exactly the values of `others` above `x` |
| Payoff.ProbWin | QuantResearch.py:30-57 | `prob_win(x, others)` in exact arithmetic: its three branches are stated by ProbWinLeftmost, ProbWinRightmost and ProbWinBetween, the -2 sentinel by ProbWinOnExtreme and ProbWinSentinel, its range by ProbWinBounds and its mirror symmetry by ProbWinReflection |
| Payoff.ProbWinLeftmost | QuantResearch.py:39-43 | left of every other value, `x` wins with probability (x + r) / 2, r its nearest neighbour |
| Payoff.ProbWinRightmost | QuantResearch.py:40-46 | right of every other value, `x` wins with probability 1 - (l + x) / 2, l its nearest neighbour |
| Payoff.ProbWinBetween | QuantResearch.py:48-55 | strictly between its neighbours l and r, `x` wins with probability (r - l) / 2 |
| Payoff.ProbWinOnExtreme | QuantResearch.py:37-48 | when `x` equals the minimum or the maximum of `others`, no branch applies and -2 is returned |
| Payoff.ProbWinSentinel | QuantResearch.py:37-57 | on [0, 1], the result is -2 exactly when `x` is the minimum or the maximum of `others` |
| Payoff.ProbWinBounds | QuantResearch.py:42-55 | on [0, 1] and off the extremes of `others`, the result is a probability in (0, 1] |
| Payoff.MirrorLeftNeighbour | QuantResearch.py:49-52 | the reflection of the left neighbour of `x` is the right neighbour of `1 - x` among the reflected values |
| Payoff.MirrorRightNeighbour | QuantResearch.py:50-53 | the reflection of the right neighbour of `x` is the left neighbour of `1 - x` among the reflected values |
| Payoff.ReflectionBetween | QuantResearch.py:48-55 | for `x` strictly inside, the payoff of `x` equals the payoff of `1 - x` against the reflected values |
| Payoff.ProbWinReflection | QuantResearch.py:39-57 | `prob_win(x, others) == prob_win(1 - x, [1 - o for o in others])` for every `x` and every non-empty `others` |
| Payoff.Sum | QuantResearch.py:27 | `sum(x)` added from the left; its bounds are stated by SumBounds |
| Payoff.Avg | QuantResearch.py:25-27 | the mean times the number of values is their sum; its bounds are stated by AvgBounds and AvgOfConstant |
| Payoff.SumBounds | QuantResearch.py:27 | the sum of n values between lo and hi lies between n * lo and n * hi |
| Payoff.AvgBounds | QuantResearch.py:25-27 | the mean lies between any lower and upper bound of the values |
| Payoff.AvgOfConstant | QuantResearch.py:25-27 | the mean of copies of one value is that value |
| Regroup.Prefix | QuantResearch.py:82 | `key[:-1]` is one component shorter than the key |
| Regroup.Last | QuantResearch.py:83 | `key[-1]` is a component of the key; PrefixLast puts the two halves back together |
| Regroup.PrefixLast | QuantResearch.py:82-83 | `key[:-1] + (key[-1],) == key` |
| Regroup.Outers | QuantResearch.py:82-86 | the outer keys are distinct and are exactly the prefixes `key[:-1]` of the input keys |
| Regroup.Lasts | QuantResearch.py:83-88 | the inner keys under `o` are exactly the `i` with `o + (i,)` an input key |
| Regroup.OutersSnoc | QuantResearch.py:85-86 | visiting one more key appends its prefix to the outer order only when the prefix is new |
| Regroup.LastsSnoc | QuantResearch.py:88 | visiting one more key appends its last component to the inner order under its own prefix only |
| Regroup.RegroupLossless | QuantResearch.py:81-88 | every input key `k` is found as `result[k[:-1]][k[-1]]`, holding `d[k]` |
| Regroup.RegroupRoundTrip | QuantResearch.py:77-90 | un-grouping a lossless regrouping gives back exactly the input table |
| Regroup.File | QuantResearch.py:85-88 | after filing a key, its last component is an inner key under its prefix, holding the key's entry; FileEntry states that nothing else changes |
| Regroup.FileEntry | QuantResearch.py:85-88 | filing one key adds exactly its (prefix, last) pair with its entry and leaves every other pair as it was |
| Regroup.FileStep | QuantResearch.py:81-88 | one iteration of the loop extends the partial regrouping of the first n keys to the first n + 1 |
| Regroup.FiledAll | QuantResearch.py:81-90 | after all keys are filed, the result is the regrouping of the whole input |
| Regroup.TransformDict | QuantResearch.py:77-90 | the result is the ordered, lossless regrouping of the input, and un-grouping it gives back the input |
| Induction.Payoffs | QuantResearch.py:109 | one payoff `prob_win(choice, prev + post)` per open continuation `post` |
| Induction.Score | QuantResearch.py:105-109 | `p_win`: the plain payoff without tails, the mean payoff over the tails otherwise; Driver.ScoreInUnit bounds it in [0, 1] |
| Induction.Threshold | QuantResearch.py:101-116 | the final `optimal_P` is at least -1, at least every candidate's score, and either -1 or some candidate's score |
| Induction.ScoringExactly | QuantResearch.py:112-118 | keeps exactly the candidates whose score equals the threshold |
| Induction.Optimal | QuantResearch.py:101-121 | `optimal_choices` at line 121: only candidates are kept; OptimalIsArgmax states that they are exactly the best ones |
| Induction.OptimalIsArgmax | QuantResearch.py:101-118 | a kept candidate scores at least as much as every candidate; every candidate with the maximal score (at least -1) is kept, ties included |
| Induction.OptimalNonEmpty | QuantResearch.py:101-118 | when some candidate scores at least -1, at least one candidate is kept |
| Induction.ChooseStep | QuantResearch.py:104-118 | a strictly larger score replaces the running maximum and the kept list; an equal score is appended; a smaller one changes nothing |
| Induction.NoneScoring | QuantResearch.py:112-115 | when every score so far is below `t`, no candidate so far scores exactly `t` |
| Induction.FirstOfTwoWins | QuantResearch.py:101-118 | of two candidates, the one scoring strictly more (and at least -1) is the only one kept |
| Induction.ChooseOptimal | QuantResearch.py:101-118 | the loop ends with `optimal_P` equal to the threshold and `optimal_choices` the maximisers in key order |
| Induction.Prepend | QuantResearch.py:128-129 | prefixing `oc` keeps one continuation per tail |
| Induction.PrependMembers | QuantResearch.py:128-129 | the prefixed continuations are exactly `(oc,) + post` for the tails `post` |
| Induction.EmitAsWritten | QuantResearch.py:123-129 | the emission loops with the test of line 124 on the leftover `choice`: every emitted continuation starts with a kept choice |
| Induction.EmitIntended | QuantResearch.py:123-129 | the emission with the test on `oc` itself: every emitted continuation starts with a kept choice; EmitIntendedMembers states its members exactly |
| Induction.LastHasNoTails | QuantResearch.py:124 | the value of `len(d[prev][choice]) == 0` with `choice` left over from the scoring loop, that is, for the last candidate in key order |
| Induction.Solved | QuantResearch.py:121-129 | `next_dict[prev]`: every continuation starts with a kept choice; SolvedIsIntended equates it with the per-choice emission on uniform tables |
| Induction.EmitIntendedMembers | QuantResearch.py:123-129 | with the per-choice test, the output is exactly `(oc,)` for each kept `oc` without tails and `(oc,) + post` for each tail of each kept `oc` with tails |
| Induction.EmitAsWrittenIsIntended | QuantResearch.py:123-129 | when every kept choice agrees with the leftover-choice test, the emission as written equals the per-choice emission |
| Induction.SolvedIsIntended | QuantResearch.py:121-129 | on a table whose candidates are all tail-less or all tailed, line 124 as written emits what the per-choice test would |
| Induction.LeftoverChoiceMisfires | QuantResearch.py:124 | on a mixed table where the last candidate has tails and the kept one has none, line 124 as written emits nothing while the per-choice test emits `(0.25,)` |
| Induction.MixedTableScores | QuantResearch.py:104-109 | in the mixed table, 0.25 scores 0.875 and 0.5 scores 0.375 |
| Induction.MixedTableOptimal | QuantResearch.py:101-118 | in the mixed table, only 0.25 is kept |
| Induction.EmitChoices | QuantResearch.py:121-129 | the emission loops produce the continuations of the kept choices in order, with the test of line 124 as written |
| Induction.PrependTails | QuantResearch.py:128-129 | the inner loop appends exactly `(oc,) + post` for every tail, in order (Prepend) |
| Induction.SolvedStep | QuantResearch.py:97-121 | storing the solved entry of the next history extends the partial result by that history, in key order |
| Induction.MakeNextDict | QuantResearch.py:93-131 | the result has exactly the input's histories, in the same order, each mapped to its solved continuations |
| Candidates.Frac | QuantResearch.py:145 | `num/denom` in exact arithmetic: the quotient times `denom` is `num` |
| Candidates.GetFractions | QuantResearch.py:135-151 | the set is exactly 0, 1, eps, 1 - eps and every k/d, k/d + eps, k/d - eps for d in 2..6 and 1 <= k < d; all of them lie in [0, 1] |
| Candidates.FracBounds | QuantResearch.py:143-145 | k/d with 2 <= d <= 6 and 1 <= k < d lies in [1/6, 5/6] |
| Candidates.CandidateInUnit | QuantResearch.py:138-151 | every candidate lies in [0, 1] |
| Candidates.FracGap | QuantResearch.py:143-145 | two different fractions with denominators at most 6 are at least 1/36 apart |
| Candidates.EpsKeepsOrder | QuantResearch.py:138-149 | moving two different such fractions towards each other by eps keeps them in order |
| Driver.ScoreInUnit | QuantResearch.py:105-109 | when the plays a candidate leads to are plays of the initial table, every `prob_win` call made in scoring it has opponents, and the score is in [0, 1] |
| Driver.GroupedHistory | QuantResearch.py:82-86 | after i rounds, every regrouped history has length N - i - 1 and at least one candidate |
| Driver.GroupedScore | QuantResearch.py:104-109 | every regrouped candidate can be scored, its score lies in [0, 1], and it has tails exactly after the first round |
| Driver.TailsLand | QuantResearch.py:104-109 | the continuations listed for a candidate complete it to plays of the initial table |
| Driver.RoundScorable | QuantResearch.py:104-109 | in every round, every `prob_win` call has opponents, and every history's candidates are all tail-less or all tailed |
| Driver.FirstRoundBest | QuantResearch.py:104-118 | in the first round, a kept choice wins at least as often as every other choice that completes the same history |
| Driver.KeptChoice | QuantResearch.py:123-129 | a kept continuation starts with a kept choice and goes on with one of its tails |
| Driver.LaterRoundEntry | QuantResearch.py:128-129 | in a later round, a kept continuation extends one kept in the round before |
| Driver.RoundEntry | QuantResearch.py:121-129 | each kept continuation is one move longer than before, completes its history to a play of the initial table, and its last mover replies best |
| Driver.EntryBest | QuantResearch.py:101-129 | each kept continuation starts with a choice whose payoff no other choice beats |
| Driver.RoundBest | QuantResearch.py:163 | one round keeps, under every history, only continuations that start with a best choice of the next mover |
| Driver.RoundNonEmpty | QuantResearch.py:121-129 | no history is left without a continuation |
| Driver.RoundShape | QuantResearch.py:163 | one round shortens every history by one and keeps every stated property of the continuations |
| Driver.RoundCovering | QuantResearch.py:82-86 | every play of the initial table keeps its prefix of the new length as a history |
| Driver.RoundStep | QuantResearch.py:162-163 | one round takes the invariant of round i to round i + 1 |
| Driver.Finished | QuantResearch.py:162-163 | after N rounds the only history left is the empty one, present exactly when there is some play, with at least one play listed under it; each listed play is a play of the initial table in which the last mover replies best |
| Driver.Round | QuantResearch.py:163 | one round keeps the invariant and keeps only continuations whose first choice is a best reply of the next mover |
| Driver.Solve | QuantResearch.py:158-163 | the result is well formed and keyed by the empty history only if there is any play. It then lists at least one play, each a play of the initial table whose last mover replies best |

## Left out

- Console input and output: `input` (line 156), the prints (lines 157, 165 and after) and `print_dict` (lines 60-74). The player count is the parameter of `Driver.Solve`. The `assert` of line 158 is its precondition, part of `Driver.InitialTable`.
- `round(..., 10)` (lines 27, 57) and floating point: the model computes in exact
  reals. The tie test of line 117 is therefore exact equality, and `eps` is exactly
  1/10000000.
- The enumeration `permutations(get_fractions(), n_players)` (line 160) is not computed. `Driver.Solve` takes any table of distinct-valued plays of length N in [0, 1] with empty continuation lists. So the order in which Python iterates the candidate set, which fixes the key order of the initial table, is not modelled. `Candidates.GetFractions` is therefore not connected to `Driver.Solve`.
- The unused imports `random.choice` and `Fraction` (lines 20, 22).
- `prob_win` with an empty `others` raises in Python (`min` of an empty tuple).
  `Payoff.ProbWin` requires non-empty `others`. `Driver.RoundScorable` proves that
  every call the driver makes meets this.
- `transform_dict` on a table with an empty key would fail at `key[-1]`.
  `Regroup.TransformDict` requires non-empty keys. `Driver.KeysNonEmpty` proves the
  driver meets this in every round.
- Driver.Solve: its own contract states optimality only for the last mover of each listed play. The optimality of the earlier movers is stated round by round by `Driver.Round` (`NewMoverBest`), against the continuations kept in later rounds, and is not chained into one statement over the whole play.
- The end-to-end results for two and three players (first player at 0.5, and so on) are not proved. They are statements about the concrete permutation table of the candidate set, which the model keeps abstract.
