/** The round-robin scheduler of `ContestPopulation.evaluate`.

    A round zips `individualsPerMatch` cyclic rotations of the individuals for exactly `n` positions:
    match `i` of a round pits the individuals at positions `(i + offset_j) mod n` against each other,
    where `offset_0 = 0` (the anchor rotation) and every other offset is a uniform draw from `[0, n)`.
    The objective receives the competitors and answers one score per competitor; each score is
    added to that competitor's running fitness.

    The random draws are an input: `draw(round, j)` is the draw for rotation `j` of round `round`,
    reduced into `[0, n)`, so every sequence of in-range offsets is reachable. */
module Tournament {
  import opened Wrappers
  import opened Errors
  import opened Individuals

  /** Rotations zipped per round: the anchor plus one per further competitor, at least the anchor
      (`[0] + [randint(...) for _ in range(individuals_per_match - 1)]`). */
  function Rotations(individualsPerMatch: int): nat
  {
    if individualsPerMatch <= 1 then 1 else individualsPerMatch
  }

  /** Rounds played: `range(matches_per_round)` is empty for a non-positive count. */
  function Rounds(matchesPerRound: int): nat
  {
    if matchesPerRound <= 0 then 0 else matchesPerRound
  }

  ghost predicate InRange(offsets: seq<nat>, n: nat)
  {
    forall j :: 0 <= j < |offsets| ==> offsets[j] < n
  }

  /** Position `i` of the cyclic rotation that starts at `offset`, for in-range `i` and `offset`. */
  function Slot(i: nat, offset: nat, n: nat): (r: nat)
    requires i < n && offset < n
    ensures r < n
  {
    if i + offset < n then i + offset else i + offset - n
  }

  /** `islice(cycle(individuals), offset, None)` yields at position `i` the individual `(i + offset) mod n`. */
  lemma SlotIsCyclic(i: nat, offset: nat, n: nat)
    requires i < n && offset < n
    ensures Slot(i, offset, n) == (i + offset) % n
  {
    var x, r := i + offset, Slot(i, offset, n);
    if x >= n {
      assert x == n * 1 + r && 0 <= r < n;
    } else {
      assert x == n * 0 + r && 0 <= r < n;
    }
    ModUnique(x, n, if x >= n then 1 else 0, r);
  }

  /** Euclidean division is unique: a quotient and a remainder in `[0, n)` are `x / n` and `x % n`. */
  lemma ModUnique(x: int, n: int, q: int, r: int)
    requires n > 0 && x == n * q + r && 0 <= r < n
    ensures x % n == r
  {
    var q', r' := x / n, x % n;
    if q < q' {
      assert n * (q' - q) == r - r';
      MulAtLeast(n, q' - q);
    } else if q > q' {
      assert n * (q - q') == r' - r;
      MulAtLeast(n, q - q');
    }
  }

  lemma MulAtLeast(n: int, d: int)
    requires n > 0 && d >= 1
    ensures n * d >= n
  {
    assert n * d == n + n * (d - 1);
  }

  /** The rotation offsets of round `round` over `n` individuals: the anchor `0`, then the draws. */
  function RoundOffsets(n: nat, individualsPerMatch: int, draw: (nat, nat) -> nat, round: nat): (r: seq<nat>)
    requires n > 0
    ensures |r| == Rotations(individualsPerMatch)
    ensures r[0] == 0
    ensures InRange(r, n)
  {
    [0] + seq(Rotations(individualsPerMatch) - 1, j requires 0 <= j => draw(round, j + 1) % n)
  }

  /** The positions of the competitors of match `i`, one per rotation. */
  function Slots(offsets: seq<nat>, i: nat, n: nat): (r: seq<nat>)
    requires i < n && InRange(offsets, n)
    ensures |r| == |offsets|
    ensures forall j :: 0 <= j < |r| ==> r[j] == Slot(i, offsets[j], n)
  {
    if |offsets| == 0 then [] else [Slot(i, offsets[0], n)] + Slots(offsets[1..], i, n)
  }

  /** The competitors of match `i`: one individual per rotation, the anchor's first. */
  function Competitors<C>(pop: seq<Individual<C>>, offsets: seq<nat>, i: nat): (r: seq<Individual<C>>)
    requires i < |pop| && InRange(offsets, |pop|)
    ensures |r| == |offsets|
    ensures forall j :: 0 <= j < |r| ==> r[j] == pop[Slot(i, offsets[j], |pop|)]
    ensures |offsets| > 0 && offsets[0] == 0 ==> r[0] == pop[i]
  {
    var slots := Slots(offsets, i, |pop|);
    seq(|offsets|, j requires 0 <= j < |offsets| => pop[slots[j]])
  }

  /** `competitor.fitness += score`. */
  function AddScore<C>(x: Individual<C>, score: int): (r: Individual<C>)
    ensures r.chromosome == x.chromosome && r.fitness.Some?
    ensures FitnessKey(r) == FitnessKey(x) + score
  {
    x.(fitness := Some(FitnessKey(x) + score))
  }

  /** `for competitor, score in zip(competitors, scores)`: credits each score, in order, to the
      individual in the matching slot; surplus slots or scores are ignored, as `zip` stops early. */
  function Credit<C>(pop: seq<Individual<C>>, slots: seq<nat>, scores: seq<int>): (r: seq<Individual<C>>)
    requires forall j :: 0 <= j < |slots| ==> slots[j] < |pop|
    ensures SameChromosomes(r, pop)
    decreases |slots|
  {
    if |slots| == 0 || |scores| == 0 then pop
    else Credit(pop[slots[0] := AddScore(pop[slots[0]], scores[0])], slots[1..], scores[1..])
  }

  /** One match: the objective scores the competitors as they stand, and the scores are credited. */
  function PlayMatch<C>(pop: seq<Individual<C>>, offsets: seq<nat>, i: nat, play: seq<Individual<C>> -> seq<int>): (r: seq<Individual<C>>)
    requires i < |pop| && InRange(offsets, |pop|)
    ensures SameChromosomes(r, pop)
  {
    Credit(pop, Slots(offsets, i, |pop|), play(Competitors(pop, offsets, i)))
  }

  /** Matches `i`, `i + 1`, ..., `n - 1` of a round, in order. */
  function PlayRound<C>(pop: seq<Individual<C>>, offsets: seq<nat>, play: seq<Individual<C>> -> seq<int>, i: nat): (r: seq<Individual<C>>)
    requires InRange(offsets, |pop|)
    ensures SameChromosomes(r, pop)
    decreases |pop| - i
  {
    if i >= |pop| then pop else PlayRound(PlayMatch(pop, offsets, i, play), offsets, play, i + 1)
  }

  /** Rounds `round`, ..., `rounds - 1`, each with freshly drawn offsets. */
  function PlayRounds<C>(pop: seq<Individual<C>>, rounds: nat, individualsPerMatch: int, draw: (nat, nat) -> nat,
                         play: seq<Individual<C>> -> seq<int>, round: nat): (r: seq<Individual<C>>)
    requires |pop| > 0
    ensures SameChromosomes(r, pop)
    decreases rounds - round
  {
    if round >= rounds then pop
    else
      var offsets := RoundOffsets(|pop|, individualsPerMatch, draw, round);
      PlayRounds(PlayRound(pop, offsets, play, 0), rounds, individualsPerMatch, draw, play, round + 1)
  }

  /** Every fitness set to `0` before the first round. */
  function Zeroed<C>(pop: seq<Individual<C>>): (r: seq<Individual<C>>)
    ensures SameChromosomes(r, pop)
    ensures forall k :: 0 <= k < |r| ==> r[k].fitness == Some(0)
  {
    seq(|pop|, k requires 0 <= k < |pop| => pop[k].(fitness := Some(0)))
  }

  /** `ContestPopulation.evaluate`. Under `lazy` a fully evaluated population is left alone;
      otherwise every fitness restarts at `0` and the rounds are played. On an empty population the
      first random draw, `randint(0, -1)`, raises. */
  function ContestEvaluate<C>(pop: seq<Individual<C>>, lazy: bool, matchesPerRound: int, individualsPerMatch: int,
                              draw: (nat, nat) -> nat, play: seq<Individual<C>> -> seq<int>): (r: Result<seq<Individual<C>>, Error>)
    ensures lazy && AllEvaluated(pop) ==> r == Success(pop)
    ensures r.Failure? <==> !lazy && |pop| == 0 && Rounds(matchesPerRound) > 0 && Rotations(individualsPerMatch) > 1
    ensures r.Failure? ==> r.error == EmptyRange
    ensures r.Success? ==> SameChromosomes(r.value, pop) && AllEvaluated(r.value)
  {
    if lazy && AllEvaluated(pop) then Success(pop)
    else if |pop| == 0 then
      if Rounds(matchesPerRound) > 0 && Rotations(individualsPerMatch) > 1 then Failure(EmptyRange) else Success(pop)
    else
      var r := PlayRounds(Zeroed(pop), Rounds(matchesPerRound), individualsPerMatch, draw, play, 0);
      ContestKeepsEvaluated(Zeroed(pop), Rounds(matchesPerRound), individualsPerMatch, draw, play, 0);
      Success(r)
  }

  // ----- Keeping every fitness set -----

  lemma {:induction false} CreditKeepsEvaluated<C>(pop: seq<Individual<C>>, slots: seq<nat>, scores: seq<int>)
    requires forall j :: 0 <= j < |slots| ==> slots[j] < |pop|
    requires AllEvaluated(pop)
    ensures AllEvaluated(Credit(pop, slots, scores))
    decreases |slots|
  {
    if |slots| > 0 && |scores| > 0 {
      CreditKeepsEvaluated(pop[slots[0] := AddScore(pop[slots[0]], scores[0])], slots[1..], scores[1..]);
    }
  }

  lemma {:induction false} RoundKeepsEvaluated<C>(pop: seq<Individual<C>>, offsets: seq<nat>, play: seq<Individual<C>> -> seq<int>, i: nat)
    requires InRange(offsets, |pop|) && AllEvaluated(pop)
    ensures AllEvaluated(PlayRound(pop, offsets, play, i))
    decreases |pop| - i
  {
    if i < |pop| {
      CreditKeepsEvaluated(pop, Slots(offsets, i, |pop|), play(Competitors(pop, offsets, i)));
      RoundKeepsEvaluated(PlayMatch(pop, offsets, i, play), offsets, play, i + 1);
    }
  }

  lemma {:induction false} ContestKeepsEvaluated<C>(pop: seq<Individual<C>>, rounds: nat, individualsPerMatch: int,
                                                    draw: (nat, nat) -> nat, play: seq<Individual<C>> -> seq<int>, round: nat)
    requires |pop| > 0 && AllEvaluated(pop)
    ensures AllEvaluated(PlayRounds(pop, rounds, individualsPerMatch, draw, play, round))
    decreases rounds - round
  {
    if round < rounds {
      var offsets := RoundOffsets(|pop|, individualsPerMatch, draw, round);
      RoundKeepsEvaluated(pop, offsets, play, 0);
      ContestKeepsEvaluated(PlayRound(pop, offsets, play, 0), rounds, individualsPerMatch, draw, play, round + 1);
    }
  }

  // ----- Final fitness as the sum of the credited scores -----

  /** On competitor lists of length `arity`, the objective looks only at the chromosomes and not at
      the running fitness the competitors carry mid-evaluation. */
  ghost predicate ChromosomeOnly<C(!new)>(play: seq<Individual<C>> -> seq<int>, arity: nat)
  {
    forall xs, ys :: SameChromosomes(xs, ys) && |xs| == arity ==> play(xs) == play(ys)
  }

  /** What one match credits to individual `k`: the scores of the slots `k` fills. */
  function SlotCredit(slots: seq<nat>, scores: seq<int>, k: nat): int
    decreases |slots|
  {
    if |slots| == 0 || |scores| == 0 then 0
    else (if slots[0] == k then scores[0] else 0) + SlotCredit(slots[1..], scores[1..], k)
  }

  /** What matches `i`..`n-1` of a round credit to individual `k`, scored on `pop`'s chromosomes. */
  function RoundCredit<C>(pop: seq<Individual<C>>, offsets: seq<nat>, play: seq<Individual<C>> -> seq<int>, k: nat, i: nat): int
    requires InRange(offsets, |pop|)
    decreases |pop| - i
  {
    if i >= |pop| then 0
    else SlotCredit(Slots(offsets, i, |pop|), play(Competitors(pop, offsets, i)), k) + RoundCredit(pop, offsets, play, k, i + 1)
  }

  /** What rounds `round`..`rounds-1` credit to individual `k`. */
  function ContestCredit<C>(pop: seq<Individual<C>>, rounds: nat, individualsPerMatch: int, draw: (nat, nat) -> nat,
                            play: seq<Individual<C>> -> seq<int>, k: nat, round: nat): int
    requires |pop| > 0
    decreases rounds - round
  {
    if round >= rounds then 0
    else RoundCredit(pop, RoundOffsets(|pop|, individualsPerMatch, draw, round), play, k, 0)
         + ContestCredit(pop, rounds, individualsPerMatch, draw, play, k, round + 1)
  }

  lemma {:induction false} CreditAddsScores<C>(pop: seq<Individual<C>>, slots: seq<nat>, scores: seq<int>)
    requires forall j :: 0 <= j < |slots| ==> slots[j] < |pop|
    ensures forall k :: 0 <= k < |pop| ==> FitnessKey(Credit(pop, slots, scores)[k]) == FitnessKey(pop[k]) + SlotCredit(slots, scores, k)
    decreases |slots|
  {
    if |slots| > 0 && |scores| > 0 {
      CreditAddsScores(pop[slots[0] := AddScore(pop[slots[0]], scores[0])], slots[1..], scores[1..]);
    }
  }

  lemma {:induction false} RoundCreditSameChromosomes<C(!new)>(a: seq<Individual<C>>, b: seq<Individual<C>>, offsets: seq<nat>,
                                                         play: seq<Individual<C>> -> seq<int>, k: nat, i: nat)
    requires SameChromosomes(a, b) && InRange(offsets, |a|) && ChromosomeOnly(play, |offsets|)
    ensures RoundCredit(a, offsets, play, k, i) == RoundCredit(b, offsets, play, k, i)
    decreases |a| - i
  {
    if i < |a| {
      assert SameChromosomes(Competitors(a, offsets, i), Competitors(b, offsets, i));
      RoundCreditSameChromosomes(a, b, offsets, play, k, i + 1);
    }
  }

  lemma {:induction false} ContestCreditSameChromosomes<C(!new)>(a: seq<Individual<C>>, b: seq<Individual<C>>, rounds: nat, individualsPerMatch: int,
                                                           draw: (nat, nat) -> nat, play: seq<Individual<C>> -> seq<int>, k: nat, round: nat)
    requires |a| > 0 && SameChromosomes(a, b) && ChromosomeOnly(play, Rotations(individualsPerMatch))
    ensures ContestCredit(a, rounds, individualsPerMatch, draw, play, k, round) == ContestCredit(b, rounds, individualsPerMatch, draw, play, k, round)
    decreases rounds - round
  {
    if round < rounds {
      RoundCreditSameChromosomes(a, b, RoundOffsets(|a|, individualsPerMatch, draw, round), play, k, 0);
      ContestCreditSameChromosomes(a, b, rounds, individualsPerMatch, draw, play, k, round + 1);
    }
  }

  /** One match credits individual `k` exactly the scores of the slots it fills in that match. */
  lemma MatchAddsCredit<C>(pop: seq<Individual<C>>, offsets: seq<nat>, play: seq<Individual<C>> -> seq<int>, k: nat, i: nat)
    requires i < |pop| && InRange(offsets, |pop|) && k < |pop|
    ensures FitnessKey(PlayMatch(pop, offsets, i, play)[k])
            == FitnessKey(pop[k]) + SlotCredit(Slots(offsets, i, |pop|), play(Competitors(pop, offsets, i)), k)
  {
    CreditAddsScores(pop, Slots(offsets, i, |pop|), play(Competitors(pop, offsets, i)));
  }

  lemma {:induction false} RoundAddsCredit<C(!new)>(pop: seq<Individual<C>>, offsets: seq<nat>, play: seq<Individual<C>> -> seq<int>, k: nat, i: nat)
    requires InRange(offsets, |pop|) && ChromosomeOnly(play, |offsets|) && k < |pop|
    ensures FitnessKey(PlayRound(pop, offsets, play, i)[k]) == FitnessKey(pop[k]) + RoundCredit(pop, offsets, play, k, i)
    decreases |pop| - i
  {
    if i < |pop| {
      var next := PlayMatch(pop, offsets, i, play);
      MatchAddsCredit(pop, offsets, play, k, i);
      RoundAddsCredit(next, offsets, play, k, i + 1);
      RoundCreditSameChromosomes(next, pop, offsets, play, k, i + 1);
    }
  }

  lemma {:induction false} RoundsAddCredit<C(!new)>(pop: seq<Individual<C>>, rounds: nat, individualsPerMatch: int, draw: (nat, nat) -> nat,
                                                    play: seq<Individual<C>> -> seq<int>, k: nat, round: nat)
    requires |pop| > 0 && ChromosomeOnly(play, Rotations(individualsPerMatch)) && k < |pop|
    ensures FitnessKey(PlayRounds(pop, rounds, individualsPerMatch, draw, play, round)[k])
            == FitnessKey(pop[k]) + ContestCredit(pop, rounds, individualsPerMatch, draw, play, k, round)
    decreases rounds - round
  {
    if round < rounds {
      var offsets := RoundOffsets(|pop|, individualsPerMatch, draw, round);
      var next := PlayRound(pop, offsets, play, 0);
      RoundAddsCredit(pop, offsets, play, k, 0);
      RoundsAddCredit(next, rounds, individualsPerMatch, draw, play, k, round + 1);
      ContestCreditSameChromosomes(next, pop, rounds, individualsPerMatch, draw, play, k, round + 1);
    }
  }

  /** A full (non-skipped) contest evaluation leaves every individual with exactly the sum of the
      scores credited to the slots it filled, over all rounds, starting from `0`. */
  lemma ContestFitnessIsCreditedScore<C(!new)>(pop: seq<Individual<C>>, lazy: bool, matchesPerRound: int, individualsPerMatch: int,
                                         draw: (nat, nat) -> nat, play: seq<Individual<C>> -> seq<int>)
    requires |pop| > 0 && !(lazy && AllEvaluated(pop))
    requires ChromosomeOnly(play, Rotations(individualsPerMatch))
    ensures var r := ContestEvaluate(pop, lazy, matchesPerRound, individualsPerMatch, draw, play);
      r.Success? && |r.value| == |pop| &&
      forall k :: 0 <= k < |pop| ==> r.value[k].fitness == Some(ContestCredit(pop, Rounds(matchesPerRound), individualsPerMatch, draw, play, k, 0))
  {
    var zero := Zeroed(pop);
    var r := PlayRounds(zero, Rounds(matchesPerRound), individualsPerMatch, draw, play, 0);
    ContestKeepsEvaluated(zero, Rounds(matchesPerRound), individualsPerMatch, draw, play, 0);
    forall k | 0 <= k < |pop|
      ensures r[k].fitness == Some(ContestCredit(pop, Rounds(matchesPerRound), individualsPerMatch, draw, play, k, 0))
    {
      RoundsAddCredit(zero, Rounds(matchesPerRound), individualsPerMatch, draw, play, k, 0);
      ContestCreditSameChromosomes(zero, pop, Rounds(matchesPerRound), individualsPerMatch, draw, play, k, 0);
    }
  }

  // ----- Every rotation visits every individual exactly once per round -----

  /** `w[0] + ... + w[m-1]`, stopping early when `w` is shorter, as `zip` does. */
  function Total(w: seq<int>, m: nat): int
    decreases m
  {
    if m == 0 || |w| == 0 then 0 else w[0] + Total(w[1..], m - 1)
  }

  /** `m` scores of `1`. */
  function Ones(m: nat): (r: seq<int>)
    ensures |r| == m && forall j :: 0 <= j < m ==> r[j] == 1
  {
    seq(m, j => 1)
  }

  /** The match in which the rotation starting at `offset` puts individual `k`. */
  function Preimage(offset: nat, n: nat, k: nat): (r: nat)
    requires offset < n && k < n
    ensures r < n && Slot(r, offset, n) == k
    ensures forall i :: 0 <= i < n && Slot(i, offset, n) == k ==> i == r
  {
    if k >= offset then k - offset else k + n - offset
  }

  /** What the rotation starting at `offset` credits individual `k` over matches `i`..`n-1`
      when its slot always scores `w0`. */
  function RotationCredit(offset: nat, w0: int, n: nat, k: nat, i: nat): int
    requires offset < n
    decreases n - i
  {
    if i >= n then 0 else (if Slot(i, offset, n) == k then w0 else 0) + RotationCredit(offset, w0, n, k, i + 1)
  }

  lemma {:induction false} RotationVisitsOnce(offset: nat, w0: int, n: nat, k: nat, i: nat)
    requires offset < n && k < n && i <= n
    ensures RotationCredit(offset, w0, n, k, i) == if i <= Preimage(offset, n, k) then w0 else 0
    decreases n - i
  {
    if i < n {
      RotationVisitsOnce(offset, w0, n, k, i + 1);
    }
  }

  /** What matches `i`..`n-1` credit individual `k` when every match answers the scores `w`. */
  function FixedRoundCredit(offsets: seq<nat>, w: seq<int>, n: nat, k: nat, i: nat): int
    requires InRange(offsets, n)
    decreases n - i
  {
    if i >= n then 0 else SlotCredit(Slots(offsets, i, n), w, k) + FixedRoundCredit(offsets, w, n, k, i + 1)
  }

  lemma {:induction false} FixedRoundEmpty(offsets: seq<nat>, w: seq<int>, n: nat, k: nat, i: nat)
    requires InRange(offsets, n) && (|offsets| == 0 || |w| == 0)
    ensures FixedRoundCredit(offsets, w, n, k, i) == 0
    decreases n - i
  {
    if i < n {
      FixedRoundEmpty(offsets, w, n, k, i + 1);
    }
  }

  /** A round's fixed-score credit splits into the first rotation's and the rest's. */
  lemma {:induction false} FixedRoundSplits(offsets: seq<nat>, w: seq<int>, n: nat, k: nat, i: nat)
    requires InRange(offsets, n) && |offsets| > 0 && |w| > 0
    ensures FixedRoundCredit(offsets, w, n, k, i) == RotationCredit(offsets[0], w[0], n, k, i) + FixedRoundCredit(offsets[1..], w[1..], n, k, i)
    decreases n - i
  {
    if i < n {
      FixedRoundSplits(offsets, w, n, k, i + 1);
      var slots := Slots(offsets, i, n);
      assert slots[1..] == Slots(offsets[1..], i, n);
    }
  }

  /** Under fixed scores `w`, a round credits every individual with `w`'s first `|offsets|` scores,
      one per rotation: each rotation visits each individual exactly once. */
  lemma {:induction false} FixedRoundTotals(offsets: seq<nat>, w: seq<int>, n: nat, k: nat)
    requires InRange(offsets, n) && k < n
    ensures FixedRoundCredit(offsets, w, n, k, 0) == Total(w, |offsets|)
    decreases |offsets|
  {
    if |offsets| == 0 || |w| == 0 {
      FixedRoundEmpty(offsets, w, n, k, 0);
    } else {
      FixedRoundSplits(offsets, w, n, k, 0);
      RotationVisitsOnce(offsets[0], w[0], n, k, 0);
      FixedRoundTotals(offsets[1..], w[1..], n, k);
    }
  }

  /** How many of the slots hold individual `k`. */
  function Occurrences(slots: seq<nat>, k: nat): int
    decreases |slots|
  {
    if |slots| == 0 then 0 else (if slots[0] == k then 1 else 0) + Occurrences(slots[1..], k)
  }

  /** How many slots of the matches `i`..`n-1` of a round individual `k` fills. */
  function Appearances(offsets: seq<nat>, n: nat, k: nat, i: nat): int
    requires InRange(offsets, n)
    decreases n - i
  {
    if i >= n then 0 else Occurrences(Slots(offsets, i, n), k) + Appearances(offsets, n, k, i + 1)
  }

  /** All-ones scores credit a match's competitor once per slot it fills. */
  lemma {:induction false} SlotCreditCounts(slots: seq<nat>, k: nat)
    ensures SlotCredit(slots, Ones(|slots|), k) == Occurrences(slots, k)
    decreases |slots|
  {
    if |slots| > 0 {
      SlotCreditCounts(slots[1..], k);
      assert Ones(|slots|)[1..] == Ones(|slots| - 1);
    }
  }

  /** Over matches `i`..`n-1`, the slots `k` fills number what all-ones scores credit it. */
  lemma {:induction false} AppearancesCount(offsets: seq<nat>, n: nat, k: nat, i: nat)
    requires InRange(offsets, n)
    ensures Appearances(offsets, n, k, i) == FixedRoundCredit(offsets, Ones(|offsets|), n, k, i)
    decreases n - i
  {
    if i < n {
      var slots := Slots(offsets, i, n);
      AppearancesCount(offsets, n, k, i + 1);
      SlotCreditCounts(slots, k);
      assert |slots| == |offsets|;
    }
  }

  lemma {:induction false} TotalOnes(m: nat)
    ensures Total(Ones(m), m) == m
  {
    if m > 0 {
      assert Ones(m)[1..] == Ones(m - 1);
      TotalOnes(m - 1);
    }
  }

  /** In every round each individual fills exactly one slot per rotation, so as many slots as there
      are rotations, `max(1, individuals_per_match)`, whatever offsets were drawn. */
  lemma RoundAppearances(n: nat, individualsPerMatch: int, draw: (nat, nat) -> nat, round: nat, k: nat)
    requires k < n
    ensures Appearances(RoundOffsets(n, individualsPerMatch, draw, round), n, k, 0) == Rotations(individualsPerMatch)
  {
    var offsets := RoundOffsets(n, individualsPerMatch, draw, round);
    AppearancesCount(offsets, n, k, 0);
    FixedRoundTotals(offsets, Ones(|offsets|), n, k);
    TotalOnes(|offsets|);
  }

  // ----- Objectives that always answer the same scores -----

  /** One match of a round whose objective always answers `w` credits what `w` credits. */
  lemma RoundCreditFixedStep<C>(pop: seq<Individual<C>>, offsets: seq<nat>, play: seq<Individual<C>> -> seq<int>,
                                w: seq<int>, k: nat, i: nat)
    requires InRange(offsets, |pop|) && i < |pop|
    requires play(Competitors(pop, offsets, i)) == w
    ensures RoundCredit(pop, offsets, play, k, i) == SlotCredit(Slots(offsets, i, |pop|), w, k) + RoundCredit(pop, offsets, play, k, i + 1)
  {
  }

  lemma {:induction false} RoundCreditFixed<C>(pop: seq<Individual<C>>, offsets: seq<nat>, play: seq<Individual<C>> -> seq<int>,
                                               w: seq<int>, k: nat, i: nat)
    requires InRange(offsets, |pop|)
    requires forall xs :: |xs| == |offsets| ==> play(xs) == w
    ensures RoundCredit(pop, offsets, play, k, i) == FixedRoundCredit(offsets, w, |pop|, k, i)
    decreases |pop| - i
  {
    if i < |pop| {
      RoundCreditFixedStep(pop, offsets, play, w, k, i);
      RoundCreditFixed(pop, offsets, play, w, k, i + 1);
    }
  }

  lemma {:induction false} ContestCreditFixed<C>(pop: seq<Individual<C>>, rounds: nat, individualsPerMatch: int, draw: (nat, nat) -> nat,
                                                 play: seq<Individual<C>> -> seq<int>, w: seq<int>, k: nat, round: nat)
    requires |pop| > 0 && k < |pop| && round <= rounds
    requires forall xs :: |xs| == Rotations(individualsPerMatch) ==> play(xs) == w
    ensures ContestCredit(pop, rounds, individualsPerMatch, draw, play, k, round) == (rounds - round) * Total(w, Rotations(individualsPerMatch))
    decreases rounds - round
  {
    if round < rounds {
      var offsets := RoundOffsets(|pop|, individualsPerMatch, draw, round);
      RoundCreditFixed(pop, offsets, play, w, k, 0);
      FixedRoundTotals(offsets, w, |pop|, k);
      ContestCreditFixed(pop, rounds, individualsPerMatch, draw, play, w, k, round + 1);
      var t := Total(w, Rotations(individualsPerMatch));
      assert (rounds - round) * t == t + (rounds - (round + 1)) * t;
    }
  }

  /** When every match answers the same scores `w`, every individual ends with the number of rounds,
      `max(0, matches_per_round)`, times the sum of the first `max(1, individuals_per_match)` of
      them, whatever offsets were drawn: each rotation's slot visits each individual once per round. */
  lemma FixedScoresCreditEveryoneEqually<C(!new)>(pop: seq<Individual<C>>, lazy: bool, matchesPerRound: int, individualsPerMatch: int,
                                            draw: (nat, nat) -> nat, play: seq<Individual<C>> -> seq<int>, w: seq<int>)
    requires |pop| > 0 && !(lazy && AllEvaluated(pop))
    requires forall xs :: |xs| == Rotations(individualsPerMatch) ==> play(xs) == w
    ensures var r := ContestEvaluate(pop, lazy, matchesPerRound, individualsPerMatch, draw, play);
      r.Success? && |r.value| == |pop| &&
      forall k :: 0 <= k < |pop| ==> r.value[k].fitness == Some(Rounds(matchesPerRound) * Total(w, Rotations(individualsPerMatch)))
  {
    forall xs, ys | SameChromosomes(xs, ys) && |xs| == Rotations(individualsPerMatch)
      ensures play(xs) == play(ys)
    {
      assert play(xs) == w && play(ys) == w;
    }
    ContestFitnessIsCreditedScore(pop, lazy, matchesPerRound, individualsPerMatch, draw, play);
    forall k | 0 <= k < |pop|
      ensures ContestCredit(pop, Rounds(matchesPerRound), individualsPerMatch, draw, play, k, 0)
              == Rounds(matchesPerRound) * Total(w, Rotations(individualsPerMatch))
    {
      ContestCreditFixed(pop, Rounds(matchesPerRound), individualsPerMatch, draw, play, w, k, 0);
    }
  }

  /** An objective that gives every competitor `1` leaves every individual with the number of
      rounds times the number of rotations, `max(0, matches_per_round) * max(1, individuals_per_match)`. */
  lemma UnitScoresCountAppearances<C(!new)>(pop: seq<Individual<C>>, lazy: bool, matchesPerRound: int, individualsPerMatch: int,
                                      draw: (nat, nat) -> nat, play: seq<Individual<C>> -> seq<int>)
    requires |pop| > 0 && !(lazy && AllEvaluated(pop))
    requires forall xs :: |xs| == Rotations(individualsPerMatch) ==> play(xs) == Ones(Rotations(individualsPerMatch))
    ensures var r := ContestEvaluate(pop, lazy, matchesPerRound, individualsPerMatch, draw, play);
      r.Success? && forall k :: 0 <= k < |r.value| ==> r.value[k].fitness == Some(Rounds(matchesPerRound) * Rotations(individualsPerMatch))
  {
    FixedScoresCreditEveryoneEqually(pop, lazy, matchesPerRound, individualsPerMatch, draw, play, Ones(Rotations(individualsPerMatch)));
    TotalOnes(Rotations(individualsPerMatch));
  }

  /** Two competitors per match scored `(1, 0)`: only the anchor slot earns, so every individual ends
      with exactly the number of rounds, `max(0, matches_per_round)`, however often the random
      rotation also drew it. */
  lemma AnchorScoresCountRounds<C(!new)>(pop: seq<Individual<C>>, lazy: bool, matchesPerRound: int,
                                   draw: (nat, nat) -> nat, play: seq<Individual<C>> -> seq<int>)
    requires |pop| > 0 && !(lazy && AllEvaluated(pop))
    requires forall xs :: |xs| == 2 ==> play(xs) == [1, 0]
    ensures var r := ContestEvaluate(pop, lazy, matchesPerRound, 2, draw, play);
      r.Success? && forall k :: 0 <= k < |r.value| ==> r.value[k].fitness == Some(Rounds(matchesPerRound))
  {
    FixedScoresCreditEveryoneEqually(pop, lazy, matchesPerRound, 2, draw, play, [1, 0]);
    assert Total([1, 0], 2) == 1 by {
      assert [1, 0][1..] == [0];
      assert [0][1..] == [];
    }
  }
}
