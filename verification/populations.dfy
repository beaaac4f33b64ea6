/** `Population` and `ContestPopulation` as one record with a tagged evaluation strategy.

    The contest class differs from the base class only in `evaluate` (the round-robin scheduler of
    module `Tournament`) and in `map`, `filter` and `survive`, which run the base operation and then
    reset every fitness. Each operation returns the updated population instead of mutating it;
    raised exceptions are `Failure` results. */
module Populations {
  import opened Wrappers
  import opened Errors
  import opened Individuals
  import opened Ranking
  import opened Tournament

  /** How fitness is computed: absolutely, one chromosome at a time, or by contest. */
  datatype Strategy<!C> =
    | Absolute(score: C -> int)
    | Contest(play: seq<Individual<C>> -> seq<int>, matchesPerRound: int, individualsPerMatch: int)

  datatype Population<!C> = Population(
    individuals: seq<Individual<C>>,
    intendedSize: int,
    maximize: bool,
    strategy: Strategy<C>)

  /** The constructors: one unevaluated individual per chromosome; the intended size is their number. */
  function Create<C>(chromosomes: seq<C>, strategy: Strategy<C>, maximize: bool): (p: Population<C>)
    ensures Chromosomes(p.individuals) == chromosomes
    ensures AllUnevaluated(p.individuals)
    ensures p.intendedSize == |chromosomes|
    ensures p.maximize == maximize && p.strategy == strategy
  {
    Population(seq(|chromosomes|, i requires 0 <= i < |chromosomes| => Fresh(chromosomes[i])), |chromosomes|, maximize, strategy)
  }

  // ----- Evaluation -----

  /** `Population.evaluate`: `Individual.evaluate` on every individual. */
  function EvaluateAbsolute<C>(s: seq<Individual<C>>, score: C -> int, lazy: bool): (r: seq<Individual<C>>)
    ensures SameChromosomes(r, s) && AllEvaluated(r)
    ensures forall i :: 0 <= i < |s| && lazy && s[i].fitness.Some? ==> r[i] == s[i]
    ensures forall i :: 0 <= i < |s| && !(lazy && s[i].fitness.Some?) ==> r[i].fitness == Some(score(s[i].chromosome))
  {
    seq(|s|, i requires 0 <= i < |s| => EvaluateIndividual(s[i], score, lazy))
  }

  /** `evaluate(lazy)` of the population's class. `draw` supplies the contest's random offsets. */
  function Evaluate<C>(p: Population<C>, lazy: bool, draw: (nat, nat) -> nat): (r: Result<Population<C>, Error>)
    ensures lazy ==> r.Success?
    ensures r.Failure? <==> p.strategy.Contest? && !lazy && |p.individuals| == 0
                            && Rounds(p.strategy.matchesPerRound) > 0 && Rotations(p.strategy.individualsPerMatch) > 1
    ensures r.Success? ==> r.value == p.(individuals := r.value.individuals)
    ensures r.Success? ==> SameChromosomes(r.value.individuals, p.individuals) && AllEvaluated(r.value.individuals)
    ensures p.strategy.Absolute? ==> forall i :: 0 <= i < |p.individuals| ==>
      r.value.individuals[i].fitness
        == if lazy && p.individuals[i].fitness.Some? then p.individuals[i].fitness else Some(p.strategy.score(p.individuals[i].chromosome))
    ensures p.strategy.Contest? ==> var c := ContestEvaluate(p.individuals, lazy, p.strategy.matchesPerRound,
                                                             p.strategy.individualsPerMatch, draw, p.strategy.play);
      (r.Success? <==> c.Success?) && (r.Success? ==> r.value.individuals == c.value) && (r.Failure? ==> r.error == c.error)
  {
    match p.strategy
    case Absolute(score) => Success(p.(individuals := EvaluateAbsolute(p.individuals, score, lazy)))
    case Contest(play, rounds, perMatch) =>
      match ContestEvaluate(p.individuals, lazy, rounds, perMatch, draw, play)
      case Success(s) => Success(p.(individuals := s))
      case Failure(e) => Failure(e)
  }

  /** The individuals after `self.evaluate(lazy=True)`, which never raises. */
  function Evaluated<C>(p: Population<C>, draw: (nat, nat) -> nat): (r: seq<Individual<C>>)
    ensures SameChromosomes(r, p.individuals) && AllEvaluated(r)
    ensures AllEvaluated(p.individuals) ==> r == p.individuals
    ensures p.strategy.Absolute? ==> forall i :: 0 <= i < |p.individuals| ==>
      r[i].fitness == if p.individuals[i].fitness.Some? then p.individuals[i].fitness else Some(p.strategy.score(p.individuals[i].chromosome))
    ensures p.strategy.Contest? ==> r == ContestEvaluate(p.individuals, true, p.strategy.matchesPerRound,
                                                         p.strategy.individualsPerMatch, draw, p.strategy.play).value
  {
    assert p.strategy.Absolute? && AllEvaluated(p.individuals) ==>
      EvaluateAbsolute(p.individuals, p.strategy.score, true) == p.individuals;
    Evaluate(p, true, draw).value.individuals
  }

  /** After any successful evaluation, a lazy evaluation changes nothing. */
  lemma EvaluateThenLazyIsIdentity<C>(p: Population<C>, lazy: bool, draw: (nat, nat) -> nat, draw': (nat, nat) -> nat)
    requires Evaluate(p, lazy, draw).Success?
    ensures Evaluate(Evaluate(p, lazy, draw).value, true, draw') == Evaluate(p, lazy, draw)
  {
    var q := Evaluate(p, lazy, draw).value;
    if q.strategy.Absolute? {
      assert EvaluateAbsolute(q.individuals, q.strategy.score, true) == q.individuals;
    }
  }

  // ----- min_individual / max_individual -----

  /** `min_individual` / `max_individual`: `self.evaluate(lazy=True)` in place, then `max(self,
      key=fitness)` (or `min`), which returns the first extreme individual. The result pairs the
      lazily evaluated population with that individual; an empty population raises. */
  function Extreme<C>(p: Population<C>, draw: (nat, nat) -> nat, wantMax: bool): (r: Result<(Population<C>, Individual<C>), Error>)
    ensures r.Success? <==> |p.individuals| > 0
    ensures r.Failure? ==> r.error == EmptyPopulation
    ensures r.Success? ==> r.value.0 == p.(individuals := Evaluated(p, draw))
    ensures r.Success? ==> var s, x := r.value.0.individuals, r.value.1;
      exists b :: 0 <= b < |s| && x == s[b] && (forall j :: 0 <= j < b ==> Outranks(wantMax, FitnessKey(x), FitnessKey(s[j])))
    ensures r.Success? ==> var s, x := r.value.0.individuals, r.value.1;
      x.fitness.Some? && forall j :: 0 <= j < |s| ==> AtLeastAsGood(wantMax, FitnessKey(x), FitnessKey(s[j]))
  {
    var s := Evaluated(p, draw);
    if |s| == 0 then Failure(EmptyPopulation)
    else
      var b := BestIndex(s, wantMax);
      Success((p.(individuals := s), s[b]))
  }

  /** `max_individual`: the first individual of greatest fitness, after a lazy evaluation in place. */
  function MaxIndividual<C>(p: Population<C>, draw: (nat, nat) -> nat): (r: Result<(Population<C>, Individual<C>), Error>)
    ensures r.Success? <==> |p.individuals| > 0
    ensures r.Failure? ==> r.error == EmptyPopulation
    ensures r.Success? ==> r.value.0 == p.(individuals := Evaluated(p, draw))
    ensures r.Success? ==> var s, x := r.value.0.individuals, r.value.1;
      x in s && x.fitness.Some? && forall j :: 0 <= j < |s| ==> FitnessKey(s[j]) <= FitnessKey(x)
    ensures r.Success? ==> var s, x := r.value.0.individuals, r.value.1;
      exists b :: 0 <= b < |s| && x == s[b] && forall j :: 0 <= j < b ==> FitnessKey(s[j]) < FitnessKey(x)
  {
    Extreme(p, draw, true)
  }

  /** `min_individual`: the first individual of least fitness, after a lazy evaluation in place. */
  function MinIndividual<C>(p: Population<C>, draw: (nat, nat) -> nat): (r: Result<(Population<C>, Individual<C>), Error>)
    ensures r.Success? <==> |p.individuals| > 0
    ensures r.Failure? ==> r.error == EmptyPopulation
    ensures r.Success? ==> r.value.0 == p.(individuals := Evaluated(p, draw))
    ensures r.Success? ==> var s, x := r.value.0.individuals, r.value.1;
      x in s && x.fitness.Some? && forall j :: 0 <= j < |s| ==> FitnessKey(x) <= FitnessKey(s[j])
    ensures r.Success? ==> var s, x := r.value.0.individuals, r.value.1;
      exists b :: 0 <= b < |s| && x == s[b] && forall j :: 0 <= j < b ==> FitnessKey(x) < FitnessKey(s[j])
  {
    Extreme(p, draw, false)
  }

  // ----- map and filter -----

  /** `Population.map`: the function applied to every individual, in order. */
  function MapBase<C>(p: Population<C>, f: Individual<C> -> Individual<C>): (r: Population<C>)
    ensures |r.individuals| == |p.individuals|
    ensures forall i :: 0 <= i < |p.individuals| ==> r.individuals[i] == f(p.individuals[i])
    ensures r == p.(individuals := r.individuals)
  {
    p.(individuals := seq(|p.individuals|, i requires 0 <= i < |p.individuals| => f(p.individuals[i])))
  }

  /** The individuals satisfying `keep`, in their original order. */
  function Keep<C>(s: seq<Individual<C>>, keep: Individual<C> -> bool): (r: seq<Individual<C>>)
    ensures |r| <= |s|
    ensures forall i :: 0 <= i < |r| ==> keep(r[i]) && r[i] in s
  {
    if |s| == 0 then []
    else (if keep(s[0]) then [s[0]] else []) + Keep(s[1..], keep)
  }

  /** Filtering keeps every copy of each individual that satisfies the predicate and no other. */
  lemma {:induction false} KeepCounts<C>(s: seq<Individual<C>>, keep: Individual<C> -> bool, x: Individual<C>)
    ensures multiset(Keep(s, keep))[x] == if keep(x) then multiset(s)[x] else 0
  {
    if |s| > 0 {
      KeepCounts(s[1..], keep, x);
      assert s == [s[0]] + s[1..];
    }
  }

  /** `Population.filter`: exactly the individuals satisfying the predicate remain, every copy of each. */
  function FilterBase<C(!new)>(p: Population<C>, keep: Individual<C> -> bool): (r: Population<C>)
    ensures r == p.(individuals := r.individuals)
    ensures |r.individuals| <= |p.individuals|
    ensures forall x :: multiset(r.individuals)[x] == if keep(x) then multiset(p.individuals)[x] else 0
  {
    forall x ensures multiset(Keep(p.individuals, keep))[x] == if keep(x) then multiset(p.individuals)[x] else 0 {
      KeepCounts(p.individuals, keep, x);
    }
    p.(individuals := Keep(p.individuals, keep))
  }

  /** Filtering commutes with concatenation, so it keeps the original order. */
  lemma {:induction false} KeepConcat<C>(a: seq<Individual<C>>, b: seq<Individual<C>>, keep: Individual<C> -> bool)
    ensures Keep(a + b, keep) == Keep(a, keep) + Keep(b, keep)
  {
    if |a| == 0 {
      assert a + b == b;
    } else {
      KeepConcat(a[1..], b, keep);
      var head := if keep(a[0]) then [a[0]] else [];
      assert (a + b)[0] == a[0] && (a + b)[1..] == a[1..] + b;
      assert Keep(a + b, keep) == head + Keep(a[1..] + b, keep);
      assert Keep(a, keep) == head + Keep(a[1..], keep);
      assert head + (Keep(a[1..], keep) + Keep(b, keep)) == (head + Keep(a[1..], keep)) + Keep(b, keep);
    }
  }

  /** Filtering twice by the same predicate is filtering once. */
  lemma {:induction false} KeepIsIdempotent<C>(s: seq<Individual<C>>, keep: Individual<C> -> bool)
    ensures Keep(Keep(s, keep), keep) == Keep(s, keep)
  {
    if |s| > 0 {
      KeepIsIdempotent(s[1..], keep);
      var head := if keep(s[0]) then [s[0]] else [];
      KeepConcat(head, Keep(s[1..], keep), keep);
      if keep(s[0]) {
        assert Keep(head, keep) == [s[0]] by {
          assert head[1..] == [];
        }
      }
    }
  }

  /** The contest overrides: the base operation, then `reset_fitness`. */
  function Invalidated<C>(p: Population<C>): (r: Population<C>)
    ensures SameChromosomes(r.individuals, p.individuals)
    ensures p.strategy.Contest? ==> AllUnevaluated(r.individuals)
    ensures p.strategy.Absolute? ==> r == p
    ensures r == p.(individuals := r.individuals)
  {
    if p.strategy.Contest? then p.(individuals := ResetFitness(p.individuals)) else p
  }

  /** `map` of the population's class. */
  function Map<C>(p: Population<C>, f: Individual<C> -> Individual<C>): (r: Population<C>)
    ensures SameChromosomes(r.individuals, MapBase(p, f).individuals)
    ensures p.strategy.Contest? ==> AllUnevaluated(r.individuals)
    ensures p.strategy.Absolute? ==> r == MapBase(p, f)
    ensures r == MapBase(p, f).(individuals := r.individuals)
  {
    Invalidated(MapBase(p, f))
  }

  /** `filter` of the population's class. */
  function Filter<C(!new)>(p: Population<C>, keep: Individual<C> -> bool): (r: Population<C>)
    ensures SameChromosomes(r.individuals, Keep(p.individuals, keep))
    ensures p.strategy.Contest? ==> AllUnevaluated(r.individuals)
    ensures p.strategy.Absolute? ==> r == FilterBase(p, keep)
    ensures r == p.(individuals := r.individuals)
  {
    Invalidated(FilterBase(p, keep))
  }

  // ----- survive -----

  /** The survivor count: `n`, `round(fraction * len)`, or the smaller of the two when both are
      given; `None` when neither is. `fractionCount` stands for `round(fraction * len(individuals))`. */
  function RequestedSize(fractionCount: Option<int>, n: Option<int>): (r: Option<int>)
    ensures r.None? <==> fractionCount.None? && n.None?
    ensures r.Some? && fractionCount.Some? ==> r.value <= fractionCount.value
    ensures r.Some? && n.Some? ==> r.value <= n.value
    ensures r.Some? ==> (fractionCount.Some? && r.value == fractionCount.value) || (n.Some? && r.value == n.value)
  {
    if fractionCount.None? then n
    else if n.None? then fractionCount
    else if fractionCount.value <= n.value then fractionCount
    else n
  }

  /** `choices(s, k=k, weights=...)`: `k` independent draws with replacement. `pick(i)` is the
      `i`-th draw, reduced into range, so every sequence of indices is reachable. */
  function Draw<C>(s: seq<Individual<C>>, k: nat, pick: nat -> nat): (r: seq<Individual<C>>)
    requires |s| > 0
    ensures |r| == k
    ensures forall i :: 0 <= i < k ==> r[i] in s
  {
    seq(k, i requires 0 <= i < k => s[pick(i) % |s|])
  }

  /** `Population.survive`. The count is checked before the lazy evaluation for its absence and
      after it for its size; lucky survival draws `k` with replacement, otherwise the `k` fittest
      by a stable sort survive. A count of zero or less raises "no one survived". */
  function SurviveBase<C>(p: Population<C>, fractionCount: Option<int>, n: Option<int>, luck: bool,
                          pick: nat -> nat, draw: (nat, nat) -> nat): (r: Result<Population<C>, Error>)
    ensures RequestedSize(fractionCount, n).None? ==> r == Failure(Ambiguous)
    ensures var k := RequestedSize(fractionCount, n);
      r.Success? <==> k.Some? && 0 < k.value <= |p.individuals|
    ensures var k := RequestedSize(fractionCount, n);
      k.Some? && k.value <= 0 ==> r == Failure(NoSurvivors)
    ensures var k := RequestedSize(fractionCount, n);
      k.Some? && k.value > |p.individuals| ==> r == Failure(TooManySurvivors)
    ensures r.Success? ==> |r.value.individuals| == RequestedSize(fractionCount, n).value
    ensures r.Success? ==> r.value == p.(individuals := r.value.individuals)
    ensures r.Success? && luck ==> forall i :: 0 <= i < |r.value.individuals| ==> r.value.individuals[i] in Evaluated(p, draw)
    ensures r.Success? && !luck ==> r.value.individuals == Fittest(Evaluated(p, draw), p.maximize, RequestedSize(fractionCount, n).value)
  {
    match RequestedSize(fractionCount, n)
    case None => Failure(Ambiguous)
    case Some(k) =>
      var s := Evaluated(p, draw);
      if k <= 0 then Failure(NoSurvivors)
      else if k > |s| then Failure(TooManySurvivors)
      else if luck then Success(p.(individuals := Draw(s, k, pick)))
      else Success(p.(individuals := Fittest(s, p.maximize, k)))
  }

  /** `survive` of the population's class. */
  function Survive<C>(p: Population<C>, fractionCount: Option<int>, n: Option<int>, luck: bool,
                      pick: nat -> nat, draw: (nat, nat) -> nat): (r: Result<Population<C>, Error>)
    ensures r.Success? <==> SurviveBase(p, fractionCount, n, luck, pick, draw).Success?
    ensures r.Failure? ==> r == SurviveBase(p, fractionCount, n, luck, pick, draw)
    ensures r.Success? ==> SameChromosomes(r.value.individuals, SurviveBase(p, fractionCount, n, luck, pick, draw).value.individuals)
    ensures r.Success? && p.strategy.Contest? ==> AllUnevaluated(r.value.individuals)
    ensures p.strategy.Absolute? ==> r == SurviveBase(p, fractionCount, n, luck, pick, draw)
    ensures r.Success? ==> r.value == p.(individuals := r.value.individuals)
  {
    match SurviveBase(p, fractionCount, n, luck, pick, draw)
    case Success(q) => Success(Invalidated(q))
    case Failure(e) => Failure(e)
  }

  /** Truncation survival keeps the best, best first: survivors are ranked, whoever was dropped ranks
      no higher than any survivor, and equal fitnesses survive earliest-first in their original order. */
  lemma SurviveKeepsTheFittest<C>(p: Population<C>, fractionCount: Option<int>, n: Option<int>,
                                  pick: nat -> nat, draw: (nat, nat) -> nat)
    requires SurviveBase(p, fractionCount, n, false, pick, draw).Success?
    ensures var s, kept := Evaluated(p, draw), SurviveBase(p, fractionCount, n, false, pick, draw).value.individuals;
      && Ranked(kept, p.maximize)
      && multiset(kept) <= multiset(s)
      && (forall x, a :: multiset(kept)[x] < multiset(s)[x] && 0 <= a < |kept| ==> AtLeastAsGood(p.maximize, FitnessKey(kept[a]), FitnessKey(x)))
      && (forall v :: WithScore(kept, v) <= WithScore(s, v))
  {
    var k := RequestedSize(fractionCount, n).value;
    TruncationKeepsTheBest(Evaluated(p, draw), p.maximize, k);
    TruncationKeepsTiesInOrder(Evaluated(p, draw), p.maximize, k);
  }

  /** A single truncation survivor is the individual `max_individual` (or, when minimizing,
      `min_individual`) returns. */
  lemma LoneSurvivorIsTheExtreme<C>(p: Population<C>, pick: nat -> nat, draw: (nat, nat) -> nat)
    requires |p.individuals| > 0
    ensures var r := SurviveBase(p, None, Some(1), false, pick, draw);
      r.Success? && r.value.individuals == [Extreme(p, draw, p.maximize).value.1]
  {
    var s := Evaluated(p, draw);
    BestLeadsRanking(s, p.maximize);
  }

  // ----- breed -----

  /** What a parent picker returns: one individual, or a list of them. */
  datatype Picked<C> = One(individual: Individual<C>) | Several(individuals: seq<Individual<C>>)

  /** The parents, a lone individual wrapped as a one-element list. */
  function Parents<C>(picked: Picked<C>): (r: seq<Individual<C>>)
    ensures picked.One? ==> r == [picked.individual]
    ensures picked.Several? ==> r == picked.individuals
  {
    match picked
    case One(x) => [x]
    case Several(xs) => xs
  }

  /** The offspring of the `call`-th breeding step: the combiner over its parents' chromosomes, in
      order, as a new unevaluated individual. The picker sees the pre-breeding `snapshot`. Both the
      picker and the combiner receive `call`, which stands for whatever randomness or state makes
      their successive answers differ. */
  function Child<C>(snapshot: seq<Individual<C>>, picker: (seq<Individual<C>>, nat) -> Picked<C>,
                    combiner: (seq<C>, nat) -> C, call: nat): (r: Individual<C>)
    ensures r.fitness.None?
    ensures var parents := Parents(picker(snapshot, call));
      r.chromosome == combiner(seq(|parents|, i requires 0 <= i < |parents| => parents[i].chromosome), call)
  {
    Fresh(combiner(Chromosomes(Parents(picker(snapshot, call))), call))
  }

  /** The breeding loop: appends offspring until `target` is reached, each step's picker shown only
      the first `before` individuals. */
  function Grow<C>(individuals: seq<Individual<C>>, before: nat, target: int,
                   picker: (seq<Individual<C>>, nat) -> Picked<C>, combiner: (seq<C>, nat) -> C): (r: seq<Individual<C>>)
    requires before <= |individuals|
    ensures |r| == if target > |individuals| then target else |individuals|
    ensures r[..|individuals|] == individuals
    ensures forall j :: |individuals| <= j < |r| ==> r[j] == Child(individuals[..before], picker, combiner, j - before)
    decreases target - |individuals|
  {
    if |individuals| >= target then individuals
    else
      var parents := Parents(picker(individuals[..before], |individuals| - before));
      var grown := individuals + [Fresh(combiner(Chromosomes(parents), |individuals| - before))];
      assert grown[..before] == individuals[..before];
      Grow(grown, before, target, picker, combiner)
  }

  /** `breed`: a truthy (non-zero) `population_size` replaces the intended size; offspring are then
      appended up to it, every parent drawn from the individuals present before breeding began. */
  function Breed<C>(p: Population<C>, picker: (seq<Individual<C>>, nat) -> Picked<C>, combiner: (seq<C>, nat) -> C,
                    populationSize: Option<int>): (r: Population<C>)
    ensures r.intendedSize == if populationSize.Some? && populationSize.value != 0 then populationSize.value else p.intendedSize
    ensures |r.individuals| == if r.intendedSize > |p.individuals| then r.intendedSize else |p.individuals|
    ensures r.individuals[..|p.individuals|] == p.individuals
    ensures forall c :: 0 <= c < |r.individuals| - |p.individuals| ==>
      r.individuals[|p.individuals| + c] == Child(p.individuals, picker, combiner, c)
    ensures r.maximize == p.maximize && r.strategy == p.strategy
  {
    var target := if populationSize.Some? && populationSize.value != 0 then populationSize.value else p.intendedSize;
    assert p.individuals[..|p.individuals|] == p.individuals;
    p.(intendedSize := target, individuals := Grow(p.individuals, |p.individuals|, target, picker, combiner))
  }

  /** Breeding fills up once: breeding again without a new size appends nothing. */
  lemma BreedAgainChangesNothing<C>(p: Population<C>, picker: (seq<Individual<C>>, nat) -> Picked<C>, combiner: (seq<C>, nat) -> C,
                                    populationSize: Option<int>, picker': (seq<Individual<C>>, nat) -> Picked<C>, combiner': (seq<C>, nat) -> C)
    ensures var q := Breed(p, picker, combiner, populationSize);
      Breed(q, picker', combiner', None) == q
  {
    var q := Breed(p, picker, combiner, populationSize);
    assert q.individuals[..|q.individuals|] == q.individuals;
  }
}
