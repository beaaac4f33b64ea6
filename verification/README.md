# Evol populations in Dafny

A functional model of the population core of the Evol evolutionary-optimisation library
(`evol/population.py`). A population is an ordered list of individuals. Each individual is a
chromosome with a cached fitness that may be unset. The population also records an intended size,
an optimisation direction (`maximize`), and how fitness is computed:

- **absolutely**, one chromosome at a time (`Population`);
- **by contest**, a randomised round-robin tournament (`ContestPopulation`).

The model covers these operations:

- **Selection** (`survive`): truncation to the k fittest by a stable sort, or k lucky draws with replacement.
- **Breeding** (`breed`): appends offspring until the intended size is reached. Parents come only from the individuals present before breeding began.
- **List transforms**: `map` and `filter`.
- **Extremes**: `min_individual` and `max_individual`.
- **Tournament scheduler**: `ContestPopulation.evaluate`.
- **Contest overrides**: `ContestPopulation` runs the base `map`, `filter` and `survive`, then invalidates every fitness.

Modules:

- `Wrappers` and `Errors`:
  - `Option`, and a `Result` that carries the exceptions the code raises.
- `Individuals`:
  - the `Individual` record;
  - fitness reset;
  - `Individual.evaluate` as the code uses it.
- `Ranking`:
  - Python's stable `sorted(key=fitness, reverse=maximize)`, as an insertion sort;
  - a proof that it is the only stable ranking;
  - the top-k prefix;
  - the first extreme element, as Python's `min`/`max` return it.
- `Tournament`:
  - the contest scheduler, round by round and match by match;
  - a closed form for the final fitness;
  - the counting argument that every individual fills exactly one slot per rotation per round.
- `Populations`:
  - the population record and its operations.
  - The two classes are one datatype with a tagged `Strategy` (`Absolute` or `Contest`).
  - Every operation returns the updated population instead of mutating it.
- `SurviveAsWritten`:
  - `survive` with its guard as written (see "## Findings").

Callables and randomness are parameters:

- Callables: the objective, the parent picker, the combiner, and the map and filter functions. The picker and the combiner also receive the index of the breeding step they serve.
- `draw(round, j)` is the `randint` offset for rotation `j` of a contest round.
- `pick(i)` is the `i`-th index drawn by `choices`.
- Both are reduced into range, so every in-range choice is reachable and nothing else is assumed about them.

Three behaviours of the code worth spelling out:

- **What the contest objective receives.** It gets the competing `Individual` objects (`eval_function(*competitors)`, line 149) rather than their chromosomes, so it can see their running fitness mid-evaluation. The closed-form theorems assume an objective that looks only at chromosomes (`Tournament.ChromosomeOnly`).
- **The `(1, 0)` scenario.** With two competitors per match and scores `(1, 0)` for every match, each individual ends with exactly the number of rounds, `max(0, matches_per_round)`, its anchor appearances; its second-rotation slot earns nothing (`Tournament.AnchorScoresCountRounds`).
- **Survivor order.** Truncation survivors come out best first (`Populations.SurviveKeepsTheFittest`): `survive(n=2)` on chromosomes `[1, 2, 3, 4]` with the identity objective keeps 4, then 3.

## Model

| member | source | states |
|---|---|---|
| Individuals.ResetFitness | evol/population.py:171-173 | every individual keeps its chromosome and its position, and every fitness becomes unset |
| Individuals.EvaluateIndividual | evol/population.py:61-62 | a cached fitness survives a lazy evaluation unchanged; otherwise the fitness becomes the objective's value on the chromosome; the chromosome never changes |
| Populations.Create | evol/population.py:11-16 | one unevaluated individual per chromosome, in order; the intended size is the number of chromosomes |
| Populations.EvaluateAbsolute | evol/population.py:54-63 | same chromosomes in the same order, all evaluated; cached fitness kept only under `lazy`, the rest recomputed from the objective |
| Populations.Evaluate | evol/population.py:54-63 | lazy evaluation always succeeds; evaluation fails exactly for a non-lazy contest on an empty population with at least one round and more than one competitor per match; a success keeps the chromosomes and every other field; an absolute population gets the objective's value on each chromosome, except that `lazy` keeps a cached fitness; a contest population gets the tournament's result |
| Populations.EvaluateThenLazyIsIdentity | evol/population.py:140-142 | after any successful evaluation, a lazy evaluation (with any random draws) returns the population unchanged |
| Populations.Evaluated | evol/population.py:32-38 | the lazy evaluation behind `min_individual`, `max_individual` and `survive`: same chromosomes in the same order, every fitness set; an already evaluated list comes back unchanged; on an absolute population each unset fitness becomes the objective's value on the chromosome and each set one is kept; on a contest population it is the lazy tournament's result |
| Populations.Extreme | evol/population.py:31-39 | on an empty population `min`/`max` raise; otherwise the population is left lazily evaluated and the result is an individual of it at least as good as everyone, strictly better than everyone before it (the first extreme) |
| Populations.MaxIndividual | evol/population.py:36-39 | raises exactly on an empty population; otherwise leaves the population lazily evaluated and returns a member of it whose fitness no member exceeds, and every member before it has strictly lower fitness |
| Populations.MinIndividual | evol/population.py:31-34 | raises exactly on an empty population; otherwise leaves the population lazily evaluated and returns a member of it whose fitness no member is below, and every member before it has strictly higher fitness |
| Populations.LoneSurvivorIsTheExtreme | evol/population.py:31-39 | `survive(n=1)` without luck keeps exactly the individual `max_individual` returns (`min_individual` when minimising) |
| Populations.MapBase | evol/population.py:69-72 | same length; the individual at each position is the function's image of the one there before; no other field changes |
| Populations.Keep | evol/population.py:74-77 | no longer than the input; every kept individual satisfies the predicate and comes from the input |
| Populations.KeepCounts | evol/population.py:74-77 | each individual satisfying the predicate is kept as often as it occurs; every other individual is dropped |
| Populations.KeepConcat | evol/population.py:74-77 | filtering a concatenation is the concatenation of the filtered parts, so the original order is kept |
| Populations.KeepIsIdempotent | evol/population.py:74-77 | filtering twice by the same predicate is filtering once |
| Populations.FilterBase | evol/population.py:74-77 | only the individual list changes; it gets no longer, and every individual satisfying the predicate keeps all its occurrences while every other individual disappears |
| Populations.Invalidated | evol/population.py:154-173 | on a contest population every fitness is unset afterwards and the chromosomes are untouched; an absolute population is left as it is |
| Populations.Map | evol/population.py:154-158 | same chromosomes as the base `map`; intended size, direction and strategy kept; on a contest population every fitness is unset afterwards; on an absolute population it is the base `map` |
| Populations.Filter | evol/population.py:160-164 | same chromosomes as the base `filter`; intended size, direction and strategy kept; on a contest population every fitness is unset afterwards; on an absolute population it is the base `filter` |
| Populations.RequestedSize | evol/population.py:86-93 | no size exactly when neither `fraction` nor `n` is given; otherwise the smaller of the given counts: no larger than either and equal to one of them |
| Populations.Draw | evol/population.py:99-101 | exactly `k` draws, each an element of the pre-survive list, duplicates allowed |
| Populations.SurviveBase | evol/population.py:84-105 | raises "everyone survives" when neither count is given; succeeds exactly when the count is positive and at most the population size; raises "no one survived" for a count of zero or less and "everyone survives" for one above the size; a success has exactly that many individuals, drawn from the evaluated list under `luck` and otherwise its stable-sorted top k; no other field changes |
| Populations.Survive | evol/population.py:166-169 | fails exactly when the base `survive` fails, with its error; on success keeps the base survivors' chromosomes and the intended size, direction and strategy; on a contest population every fitness is unset afterwards |
| Populations.SurviveKeepsTheFittest | evol/population.py:103-104 | truncation survivors are ranked best first; they are a sub-multiset of the population; every dropped individual ranks no higher than any survivor; survivors with equal fitness keep their original relative order |
| Populations.Child | evol/population.py:119-123 | an offspring is unevaluated and its chromosome is the combiner's answer, on that breeding step, to the chromosomes of the parents the picker chose on the same step, in the picker's order; a lone picked individual is a parent list of one |
| Populations.Grow | evol/population.py:117-123 | length becomes the larger of the current length and the target; existing individuals are untouched; each appended individual is the child of the corresponding picker call on the pre-breed prefix |
| Populations.Breed | evol/population.py:107-125 | the intended size changes only for a truthy (non-zero) `population_size`; length becomes the larger of the old length and the intended size; the old individuals are untouched; offspring number `c` is the `c`-th combiner call over the chromosomes the `c`-th picker call chose from the pre-breed individuals, unevaluated |
| Populations.BreedAgainChangesNothing | evol/population.py:114-118 | once bred up to size, breeding again without a new size appends nothing, whatever picker and combiner are given |
| Ranking.Insert | evol/population.py:103 | one longer, a permutation of the list plus the new element, headed by the new element or the old head |
| Ranking.InsertKeepsRanked | evol/population.py:103 | inserting into a ranked list keeps it ranked |
| Ranking.InsertKeepsTies | evol/population.py:103 | an inserted element lands ahead of every element of equal fitness already in the list, and their order is kept |
| Ranking.SortByFitness | evol/population.py:103 | same length, a permutation, ranked in the `maximize` direction, and for each fitness value the individuals with that value appear in their original order (stability) |
| Ranking.Fittest | evol/population.py:103-104 | exactly k individuals, ranked, a sub-multiset of the input |
| Ranking.WithScoreConcat | evol/population.py:103 | selecting one fitness class distributes over concatenation |
| Ranking.WithScoreMembers | evol/population.py:103 | every element of a fitness class has that fitness |
| Ranking.TruncationKeepsTheBest | evol/population.py:103-104 | every individual the top-k prefix drops ranks no higher than any individual it keeps |
| Ranking.TruncationKeepsTiesInOrder | evol/population.py:103-104 | within each fitness class the top-k survivors are a prefix of that class in original order |
| Ranking.StableRankingIsUnique | evol/population.py:103 | two ranked lists that agree as multisets and on the order within every fitness class are equal |
| Ranking.StableSortIsSortByFitness | evol/population.py:103 | any stable ranking of a list is the insertion-sorted one, so the model of `sorted` is the only possible one |
| Ranking.BestFrom | evol/population.py:31-39 | scanning from a running best, the result is at least as good as every element and strictly better than every earlier element |
| Ranking.BestLeadsRanking | evol/population.py:31-39 | the first extreme element is the head of the stable ranking in the same direction |
| Tournament.SlotIsCyclic | evol/population.py:147-148 | position `i` of the rotation starting at `offset` is `(i + offset) mod len` |
| Tournament.RoundOffsets | evol/population.py:146 | one offset per competitor, at least one; the first is 0; all lie in `[0, len)` |
| Tournament.Slots | evol/population.py:147-148 | one slot per rotation, each the cyclic position of match `i` in that rotation |
| Tournament.Competitors | evol/population.py:147-149 | one competitor per rotation, taken at that rotation's cyclic position; the anchor rotation contributes the individual at match index `i` |
| Tournament.AddScore | evol/population.py:151 | `competitor.fitness += score`: the fitness becomes set and grows by exactly the score; the chromosome is unchanged |
| Tournament.Zeroed | evol/population.py:143-144 | chromosomes stay in place and every fitness restarts at 0 |
| Tournament.PlayMatch | evol/population.py:149-151 | one match keeps every chromosome in place |
| Tournament.PlayRound | evol/population.py:148-151 | a round of matches keeps every chromosome in place |
| Tournament.PlayRounds | evol/population.py:145-151 | the rounds keep every chromosome in place |
| Tournament.Credit | evol/population.py:150-151 | crediting scores changes no chromosome and no position |
| Tournament.ContestEvaluate | evol/population.py:140-152 | under `lazy` a fully evaluated population is returned unchanged; fails exactly when a non-lazy evaluation of an empty population would call `randint(0, -1)`; a success keeps the chromosomes in place and sets every fitness |
| Tournament.CreditAddsScores | evol/population.py:150-151 | each individual's fitness grows by exactly the scores zipped to the slots it fills |
| Tournament.MatchAddsCredit | evol/population.py:149-151 | one match raises an individual's fitness by exactly the scores of the slots it fills in that match |
| Tournament.RoundAddsCredit | evol/population.py:148-151 | after a round each individual's fitness grows by the scores its slots earned in that round's matches |
| Tournament.RoundsAddCredit | evol/population.py:145-151 | after all rounds each individual's fitness grows by the scores its slots earned over every round |
| Tournament.ContestFitnessIsCreditedScore | evol/population.py:143-152 | a full evaluation ends with each fitness equal to the total score credited to that individual's slots over all rounds, starting from 0 |
| Tournament.Preimage | evol/population.py:147-148 | for every offset and individual, exactly one match of the rotation lands on that individual |
| Tournament.RotationVisitsOnce | evol/population.py:147-148 | over the `len` matches of a round, a rotation's slot lands on each individual exactly once |
| Tournament.FixedRoundTotals | evol/population.py:146-151 | when every match answers the same scores, a round credits each individual the sum of those scores, one per rotation |
| Tournament.AppearancesCount | evol/population.py:148-151 | the number of slots an individual fills in a round equals what all-ones scores credit it |
| Tournament.RoundAppearances | evol/population.py:146-148 | in every round each individual fills exactly one slot per rotation, so `max(1, individuals_per_match)` slots, whatever offsets were drawn |
| Tournament.FixedScoresCreditEveryoneEqually | evol/population.py:140-152 | if every match answers the same scores, every individual ends with the number of rounds, `max(0, matches_per_round)`, times the sum of the first `max(1, individuals_per_match)` scores |
| Tournament.UnitScoresCountAppearances | evol/population.py:140-152 | all-ones scores leave every individual with `max(0, matches_per_round) * max(1, individuals_per_match)`: rounds times rotations |
| Tournament.AnchorScoresCountRounds | evol/population.py:140-152 | with two competitors and scores `(1, 0)` every individual ends with exactly the number of rounds, `max(0, matches_per_round)` |
| SurviveAsWritten.PrefixSlice | evol/population.py:104 | Python's `xs[:k]`: the first `k` elements for non-negative `k`, all but the last `-k` for negative `k`, never fewer than none |
| SurviveAsWritten.SurviveByTruncationAsWritten | evol/population.py:84-105 | succeeds exactly when a count is given that is non-zero and at most the size; a negative count keeps all but the last `-k` of the ranking |
| SurviveAsWritten.NegativeCountSlipsThrough | evol/population.py:95-98 | `survive(n=-1)` on a non-empty population succeeds as written and drops one individual, while the corrected survival raises "no one survived" |
| SurviveAsWritten.AsWrittenAgreesOnNonNegativeCounts | evol/population.py:84-105 | for an absent or non-negative count the code as written and the corrected survival give the same result |

## Left out

- `evolve`, `generate`, `apply`, `update`, `mutate`, `__repr__`, `__iter__`/`__getitem__`/`__len__`, and the `generation` counter. They copy objects, call opaque step objects or user initialisers, or only forward to the list.
- `select_arguments` (keyword-argument introspection). The parent picker and combiner are plain functions, and keyword arguments are folded into them.
- Object identity and aliasing. After lucky survival the same `Individual` object can occur twice, and a later contest evaluation then credits both entries to one shared fitness. The model treats the entries as independent values.
- `Individual.evaluate` lives in `evol/individual.py`, which is not part of this model. `Individuals.EvaluateIndividual` models it as the caller relies on it: a cached fitness is kept only under `lazy`.
- `fraction` is a float. The model takes `round(fraction * len(individuals))` as the integer input `fractionCount`, so banker's rounding and floating point are not modelled.
- A failed `survive` still leaves the population lazily evaluated, because the evaluation precedes the size checks. The model returns only the error.
- Populations.Draw: ignores the fitness weights of `random.choices` and their distribution. It states only the range facts: `k` draws, each from the list. Errors from zero-sum or negative weights are not modelled.
- Tournament.RoundOffsets: draws the offsets through `draw`, reduced into range. The uniform distribution of `randint` is not modelled.
- Tournament.ContestFitnessIsCreditedScore: holds only for objectives that look at the competitors' chromosomes and not at their running fitness (`ChromosomeOnly`). The code passes the live individuals, so an objective that reads fitness mid-evaluation is not covered by the closed form.
- Populations.Extreme: the lazily evaluated population is returned next to the individual, since the code mutates `self` in place. Nothing is returned on failure, where the evaluation of an empty population changes nothing anyway.
- Tournament.PlayMatch: its contract keeps only the chromosomes. Its effect on fitness is stated by `Tournament.MatchAddsCredit`, and for rounds by `Tournament.RoundAddsCredit` and `Tournament.RoundsAddCredit`.
- Tournament.PlayRound: its contract keeps only the chromosomes; the fitness effect is `Tournament.RoundAddsCredit`.
- Tournament.PlayRounds: its contract keeps only the chromosomes; the fitness effect is `Tournament.RoundsAddCredit`.
- Tournament.RoundAddsCredit: requires an objective that looks only at chromosomes (`ChromosomeOnly`). An objective that reads the competitors' running fitness mid-round is not covered.
- Tournament.RoundsAddCredit: requires `ChromosomeOnly` too, for the same reason.
- Objectives, map functions and filter predicates are deterministic. `score`, `play`, the `map` function and the `filter` predicate are pure Dafny functions, so equal inputs always get equal answers. A stochastic or stateful `eval_function`, a random mutation passed to `map`, or a random cull passed to `filter` (for example `lambda i: random() < .5`, which can keep one of two equal individuals) is not modelled; `Populations.KeepCounts` speaks only of deterministic predicates. The parent picker and the combiner are the exception: both receive the breeding step's index, so their answers may differ from step to step.
- SurviveAsWritten.SurviveByTruncationAsWritten: covers only truncation survival. With `luck`, what `random.choices` does with a negative `k` depends on the weights and the Python version.
- Fitness is an unbounded integer; Python's floats and arbitrary numeric objects are not modelled.

## Findings

| source | as written | input that shows it | evidently intended | confidence | as-written member | corrected member |
|---|---|---|---|---|---|---|
| evol/population.py:95-96 | only `resulting_size == 0` raises "no one survived", so a negative count reaches `sorted_individuals[:resulting_size]`, which keeps all but the last `-resulting_size` | `survive(n=-1)` on a population of one individual returns an empty population without an error | every count of zero or less raises "no one survived" | high, not executed | SurviveAsWritten.SurviveByTruncationAsWritten | Populations.SurviveBase |
