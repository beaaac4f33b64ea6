/** Individuals: a chromosome paired with a cached, invalidatable fitness. */
module Individuals {
  import opened Wrappers

  /** One candidate solution. `fitness` is `None` when it was never evaluated or was invalidated. */
  datatype Individual<C> = Individual(chromosome: C, fitness: Option<int>)

  /** A newly constructed individual: the constructor leaves its fitness unset. */
  function Fresh<C>(c: C): Individual<C>
  {
    Individual(c, None)
  }

  /** The fitness used as a ranking key. It is only consulted on evaluated individuals. */
  function FitnessKey<C>(x: Individual<C>): int
  {
    match x.fitness
    case Some(v) => v
    case None => 0
  }

  function Chromosomes<C>(s: seq<Individual<C>>): (r: seq<C>)
    ensures |r| == |s|
    ensures forall i :: 0 <= i < |s| ==> r[i] == s[i].chromosome
  {
    seq(|s|, i requires 0 <= i < |s| => s[i].chromosome)
  }

  /** Two lists holding the same chromosomes position by position; fitness may differ. */
  ghost predicate SameChromosomes<C>(a: seq<Individual<C>>, b: seq<Individual<C>>)
  {
    |a| == |b| && forall i :: 0 <= i < |a| ==> a[i].chromosome == b[i].chromosome
  }

  predicate AllEvaluated<C>(s: seq<Individual<C>>)
  {
    forall i :: 0 <= i < |s| ==> s[i].fitness.Some?
  }

  predicate AllUnevaluated<C>(s: seq<Individual<C>>)
  {
    forall i :: 0 <= i < |s| ==> s[i].fitness.None?
  }

  /** `ContestPopulation.reset_fitness`: every individual keeps its chromosome and loses its fitness. */
  function ResetFitness<C>(s: seq<Individual<C>>): (r: seq<Individual<C>>)
    ensures SameChromosomes(r, s)
    ensures AllUnevaluated(r)
  {
    seq(|s|, i requires 0 <= i < |s| => Fresh(s[i].chromosome))
  }

  /** `Individual.evaluate`: an individual whose fitness is cached keeps it under `lazy`; otherwise
      its fitness becomes the objective's value on its chromosome. */
  function EvaluateIndividual<C>(x: Individual<C>, score: C -> int, lazy: bool): (r: Individual<C>)
    ensures r.chromosome == x.chromosome
    ensures r.fitness.Some?
    ensures lazy && x.fitness.Some? ==> r == x
    ensures !(lazy && x.fitness.Some?) ==> r.fitness == Some(score(x.chromosome))
  {
    if lazy && x.fitness.Some? then x else x.(fitness := Some(score(x.chromosome)))
  }
}
