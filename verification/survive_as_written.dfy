/** `Population.survive` as written, where only a survivor count of exactly zero is rejected.

    A negative count, such as `n=-1`, passes both guards. Python then reads the slice
    `sorted_individuals[:n]` as "all but the last -n", so the population shrinks by -n instead of
    raising "no one survived". Module `Populations` rejects every count of zero or less
    (`SurviveBase`); the lemmas here show where the two agree and where they part. Only truncation
    survival is modelled: with `luck`, what `random.choices` does with a negative `k` depends on the
    weights and the Python version. */
module SurviveAsWritten {
  import opened Wrappers
  import opened Errors
  import opened Individuals
  import opened Ranking
  import opened Populations

  /** Python's `xs[:k]`: a negative `k` counts from the end, and the result is empty once it reaches the front. */
  function PrefixSlice<T>(xs: seq<T>, k: int): (r: seq<T>)
    ensures |r| == if k >= 0 then (if k <= |xs| then k else |xs|) else (if |xs| + k >= 0 then |xs| + k else 0)
    ensures r == xs[..|r|]
  {
    if k >= 0 then (if k <= |xs| then xs[..k] else xs)
    else if |xs| + k >= 0 then xs[..|xs| + k]
    else []
  }

  /** `Population.survive(fraction, n, luck=False)` with its guards as written. */
  function SurviveByTruncationAsWritten<C>(p: Population<C>, fractionCount: Option<int>, n: Option<int>,
                                           draw: (nat, nat) -> nat): (r: Result<Population<C>, Error>)
    ensures RequestedSize(fractionCount, n).None? ==> r == Failure(Ambiguous)
    ensures var k := RequestedSize(fractionCount, n);
      r.Success? <==> k.Some? && k.value != 0 && k.value <= |p.individuals|
    ensures r.Success? ==> r.value == p.(individuals := r.value.individuals)
    ensures r.Success? ==> var k := RequestedSize(fractionCount, n).value;
      |r.value.individuals| == if k > 0 then k else if |p.individuals| + k >= 0 then |p.individuals| + k else 0
    ensures r.Success? ==> var sorted := SortByFitness(Evaluated(p, draw), p.maximize);
      r.value.individuals == sorted[..|r.value.individuals|]
  {
    match RequestedSize(fractionCount, n)
    case None => Failure(Ambiguous)
    case Some(k) =>
      var s := Evaluated(p, draw);
      if k == 0 then Failure(NoSurvivors)
      else if k > |s| then Failure(TooManySurvivors)
      else Success(p.(individuals := PrefixSlice(SortByFitness(s, p.maximize), k)))
  }

  /** For every count that is absent or not negative, the code as written and the corrected survival agree. */
  lemma AsWrittenAgreesOnNonNegativeCounts<C>(p: Population<C>, fractionCount: Option<int>, n: Option<int>,
                                              pick: nat -> nat, draw: (nat, nat) -> nat)
    requires RequestedSize(fractionCount, n).None? || RequestedSize(fractionCount, n).value >= 0
    ensures SurviveByTruncationAsWritten(p, fractionCount, n, draw) == SurviveBase(p, fractionCount, n, false, pick, draw)
  {
  }

  /** `survive(n=-1)` on a non-empty population: the code as written silently drops the last-ranked
      individual, so a population of one becomes empty, while the corrected survival raises
      "no one survived". */
  lemma NegativeCountSlipsThrough<C>(p: Population<C>, pick: nat -> nat, draw: (nat, nat) -> nat)
    requires |p.individuals| >= 1
    ensures var r := SurviveByTruncationAsWritten(p, None, Some(-1), draw);
      r.Success? && |r.value.individuals| == |p.individuals| - 1
    ensures SurviveBase(p, None, Some(-1), false, pick, draw) == Failure(NoSurvivors)
  {
  }
}
