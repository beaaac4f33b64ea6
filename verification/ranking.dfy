/** Ranking individuals by fitness: the stable sort behind truncation survival and the first-extreme
    scan behind `min_individual` / `max_individual`. */
module Ranking {
  import opened Individuals

  /** Fitness `a` ranks at least as high as `b`: higher is better when maximizing, lower otherwise. */
  predicate AtLeastAsGood(maximize: bool, a: int, b: int)
  {
    if maximize then a >= b else a <= b
  }

  /** Fitness `a` ranks strictly higher than `b`. */
  predicate Outranks(maximize: bool, a: int, b: int)
  {
    if maximize then a > b else a < b
  }

  /** Best first: no individual ranks below a later one. */
  ghost predicate Ranked<C>(s: seq<Individual<C>>, maximize: bool)
  {
    forall i, j :: 0 <= i < j < |s| ==> AtLeastAsGood(maximize, FitnessKey(s[i]), FitnessKey(s[j]))
  }

  /** The individuals of `s` whose fitness is `v`, in their order in `s`. */
  function WithScore<C>(s: seq<Individual<C>>, v: int): seq<Individual<C>>
  {
    if |s| == 0 then []
    else (if FitnessKey(s[0]) == v then [s[0]] else []) + WithScore(s[1..], v)
  }

  /** Places `x` in front of the first element of `t` that does not outrank it. */
  function Insert<C>(x: Individual<C>, t: seq<Individual<C>>, maximize: bool): (r: seq<Individual<C>>)
    ensures |r| == |t| + 1
    ensures multiset(r) == multiset(t) + multiset{x}
    ensures r[0] == x || (|t| > 0 && r[0] == t[0])
  {
    if |t| == 0 then [x]
    else if Outranks(maximize, FitnessKey(t[0]), FitnessKey(x)) then
      assert t == [t[0]] + t[1..];
      [t[0]] + Insert(x, t[1..], maximize)
    else [x] + t
  }

  lemma WithScoreCons<C>(x: Individual<C>, t: seq<Individual<C>>, v: int)
    ensures WithScore([x] + t, v) == (if FitnessKey(x) == v then [x] else []) + WithScore(t, v)
  {
    assert ([x] + t)[1..] == t;
  }

  lemma {:induction false} InsertKeepsRanked<C>(x: Individual<C>, t: seq<Individual<C>>, maximize: bool)
    requires Ranked(t, maximize)
    ensures Ranked(Insert(x, t, maximize), maximize)
  {
    if |t| > 0 && Outranks(maximize, FitnessKey(t[0]), FitnessKey(x)) {
      InsertKeepsRanked(x, t[1..], maximize);
    }
  }

  /** Insertion keeps ties in order: `x` lands in front of every element with its own fitness. */
  lemma {:induction false} InsertKeepsTies<C>(x: Individual<C>, t: seq<Individual<C>>, maximize: bool, v: int)
    ensures WithScore(Insert(x, t, maximize), v) == (if FitnessKey(x) == v then [x] else []) + WithScore(t, v)
  {
    if |t| == 0 {
      WithScoreCons(x, t, v);
    } else if Outranks(maximize, FitnessKey(t[0]), FitnessKey(x)) {
      InsertKeepsTies(x, t[1..], maximize, v);
      PassOverTies(x, t[0], t[1..], Insert(x, t[1..], maximize), v);
      assert t == [t[0]] + t[1..];
    } else {
      WithScoreCons(x, t, v);
    }
  }

  /** One step of insertion: `x` passes `y`, which has a different fitness. */
  lemma PassOverTies<C>(x: Individual<C>, y: Individual<C>, t: seq<Individual<C>>, rest: seq<Individual<C>>, v: int)
    requires FitnessKey(x) != FitnessKey(y)
    requires WithScore(rest, v) == (if FitnessKey(x) == v then [x] else []) + WithScore(t, v)
    ensures WithScore([y] + rest, v) == (if FitnessKey(x) == v then [x] else []) + WithScore([y] + t, v)
  {
    WithScoreCons(y, rest, v);
    WithScoreCons(y, t, v);
  }

  /** Python's `sorted(s, key=fitness, reverse=maximize)`: an insertion sort that keeps equal
      fitnesses in their original order. */
  function SortByFitness<C>(s: seq<Individual<C>>, maximize: bool): (r: seq<Individual<C>>)
    ensures |r| == |s|
    ensures multiset(r) == multiset(s)
    ensures Ranked(r, maximize)
    ensures forall v :: WithScore(r, v) == WithScore(s, v)
  {
    if |s| == 0 then []
    else
      var rest := SortByFitness(s[1..], maximize);
      InsertKeepsRanked(s[0], rest, maximize);
      assert s == [s[0]] + s[1..];
      forall v ensures WithScore(Insert(s[0], rest, maximize), v) == WithScore(s, v) {
        InsertKeepsTies(s[0], rest, maximize, v);
        WithScoreCons(s[0], s[1..], v);
      }
      Insert(s[0], rest, maximize)
  }

  /** The first `k` of the ranking: the survivors of truncation selection. */
  function Fittest<C>(s: seq<Individual<C>>, maximize: bool, k: nat): (r: seq<Individual<C>>)
    requires k <= |s|
    ensures |r| == k
    ensures Ranked(r, maximize)
    ensures multiset(r) <= multiset(s)
  {
    var sorted := SortByFitness(s, maximize);
    assert sorted == sorted[..k] + sorted[k..];
    sorted[..k]
  }

  lemma {:induction false} WithScoreConcat<C>(a: seq<Individual<C>>, b: seq<Individual<C>>, v: int)
    ensures WithScore(a + b, v) == WithScore(a, v) + WithScore(b, v)
  {
    if |a| > 0 {
      WithScoreConcat(a[1..], b, v);
      assert a + b == [a[0]] + (a[1..] + b);
      assert a == [a[0]] + a[1..];
      WithScoreCons(a[0], a[1..] + b, v);
      WithScoreCons(a[0], a[1..], v);
    } else {
      assert a + b == b;
    }
  }

  /** A nonempty list's first element heads its own fitness class. */
  lemma WithScoreHead<C>(s: seq<Individual<C>>)
    requires |s| > 0
    ensures WithScore(s, FitnessKey(s[0])) == [s[0]] + WithScore(s[1..], FitnessKey(s[0]))
  {
  }

  lemma {:induction false} WithScoreMembers<C>(s: seq<Individual<C>>, v: int)
    ensures forall y :: y in WithScore(s, v) ==> y in s && FitnessKey(y) == v
  {
    if |s| > 0 {
      WithScoreMembers(s[1..], v);
    }
  }

  /** Truncation selection keeps the best: whatever `Fittest` drops ranks no higher than any survivor. */
  lemma TruncationKeepsTheBest<C>(s: seq<Individual<C>>, maximize: bool, k: nat)
    requires k <= |s|
    ensures forall x, a :: multiset(Fittest(s, maximize, k))[x] < multiset(s)[x] && 0 <= a < k ==>
      AtLeastAsGood(maximize, FitnessKey(Fittest(s, maximize, k)[a]), FitnessKey(x))
  {
    var sorted := SortByFitness(s, maximize);
    var kept, dropped := sorted[..k], sorted[k..];
    assert sorted == kept + dropped;
    assert multiset(s) == multiset(kept) + multiset(dropped);
    forall x, a | multiset(kept)[x] < multiset(s)[x] && 0 <= a < k
      ensures AtLeastAsGood(maximize, FitnessKey(kept[a]), FitnessKey(x))
    {
      RankedHeadBeatsTail(sorted, maximize, k, x, a);
    }
  }

  /** In a ranked list, each of the first `k` is at least as good as anything after them. */
  lemma RankedHeadBeatsTail<C>(sorted: seq<Individual<C>>, maximize: bool, k: nat, x: Individual<C>, a: nat)
    requires Ranked(sorted, maximize) && a < k <= |sorted|
    requires multiset(sorted[k..])[x] > 0
    ensures AtLeastAsGood(maximize, FitnessKey(sorted[a]), FitnessKey(x))
  {
    var b :| 0 <= b < |sorted[k..]| && sorted[k..][b] == x;
    assert sorted[k + b] == x;
  }

  /** Among equal fitnesses the survivors of truncation are the earliest ones, in their original order. */
  lemma TruncationKeepsTiesInOrder<C>(s: seq<Individual<C>>, maximize: bool, k: nat)
    requires k <= |s|
    ensures forall v :: WithScore(Fittest(s, maximize, k), v) <= WithScore(s, v)
  {
    var sorted := SortByFitness(s, maximize);
    assert sorted == sorted[..k] + sorted[k..];
    forall v ensures WithScore(sorted[..k], v) <= WithScore(s, v) {
      WithScoreConcat(sorted[..k], sorted[k..], v);
    }
  }

  /** A ranked list is fixed by its fitness classes: two ranked lists with the same individuals of
      each fitness, in the same order, are equal. So `SortByFitness` is the one stable sort. */
  lemma {:induction false} StableRankingIsUnique<C>(a: seq<Individual<C>>, b: seq<Individual<C>>, maximize: bool)
    requires Ranked(a, maximize) && Ranked(b, maximize)
    requires forall v :: WithScore(a, v) == WithScore(b, v)
    ensures a == b
  {
    if |a| == 0 || |b| == 0 {
      if |a| > 0 {
        WithScoreHead(a);
        assert false;
      } else if |b| > 0 {
        WithScoreHead(b);
        assert false;
      }
    } else {
      var va, vb := FitnessKey(a[0]), FitnessKey(b[0]);
      assert a == [a[0]] + a[1..];
      assert b == [b[0]] + b[1..];
      WithScoreCons(a[0], a[1..], va);
      WithScoreCons(b[0], b[1..], vb);
      WithScoreMembers(b, va);
      WithScoreMembers(a, vb);
      assert a[0] in WithScore(b, va);
      assert b[0] in WithScore(a, vb);
      assert AtLeastAsGood(maximize, vb, va);
      assert AtLeastAsGood(maximize, va, vb);
      assert va == vb;
      assert a[0] == WithScore(a, va)[0] == WithScore(b, va)[0] == b[0];
      forall v ensures WithScore(a[1..], v) == WithScore(b[1..], v) {
        WithScoreCons(a[0], a[1..], v);
        WithScoreCons(b[0], b[1..], v);
        var head := if FitnessKey(a[0]) == v then [a[0]] else [];
        assert WithScore(a[1..], v) == (head + WithScore(a[1..], v))[|head|..];
        assert WithScore(b[1..], v) == (head + WithScore(b[1..], v))[|head|..];
      }
      StableRankingIsUnique(a[1..], b[1..], maximize);
    }
  }

  /** Any ranked rearrangement that keeps equal fitnesses in their original order is `SortByFitness`. */
  lemma StableSortIsSortByFitness<C>(s: seq<Individual<C>>, r: seq<Individual<C>>, maximize: bool)
    requires Ranked(r, maximize)
    requires forall v :: WithScore(r, v) == WithScore(s, v)
    ensures r == SortByFitness(s, maximize)
  {
    StableRankingIsUnique(r, SortByFitness(s, maximize), maximize);
  }

  /** Python's `max(s, key=fitness)` (or `min` when `wantMax` is false) scanning from index `i`:
      `best` is replaced only by a strictly better individual, so the first extreme one wins. */
  function BestFrom<C>(s: seq<Individual<C>>, wantMax: bool, best: nat, i: nat): (r: nat)
    requires best < i <= |s|
    requires forall j :: 0 <= j < i ==> AtLeastAsGood(wantMax, FitnessKey(s[best]), FitnessKey(s[j]))
    requires forall j :: 0 <= j < best ==> Outranks(wantMax, FitnessKey(s[best]), FitnessKey(s[j]))
    ensures r < |s|
    ensures forall j :: 0 <= j < |s| ==> AtLeastAsGood(wantMax, FitnessKey(s[r]), FitnessKey(s[j]))
    ensures forall j :: 0 <= j < r ==> Outranks(wantMax, FitnessKey(s[r]), FitnessKey(s[j]))
    decreases |s| - i
  {
    if i == |s| then best
    else if Outranks(wantMax, FitnessKey(s[i]), FitnessKey(s[best])) then
      assert forall j :: 0 <= j < i ==> Outranks(wantMax, FitnessKey(s[i]), FitnessKey(s[j])) by {
        forall j | 0 <= j < i ensures Outranks(wantMax, FitnessKey(s[i]), FitnessKey(s[j])) {
          assert AtLeastAsGood(wantMax, FitnessKey(s[best]), FitnessKey(s[j]));
        }
      }
      BestFrom(s, wantMax, i, i + 1)
    else BestFrom(s, wantMax, best, i + 1)
  }

  /** Index of the first individual of extreme fitness: highest when `wantMax`, lowest otherwise. */
  function BestIndex<C>(s: seq<Individual<C>>, wantMax: bool): (r: nat)
    requires |s| > 0
    ensures r < |s|
  {
    BestFrom(s, wantMax, 0, 1)
  }

  /** If `s[b]` is the first element of fitness `v`, it heads the fitness class `v`. */
  lemma {:induction false} FirstOfClass<C>(s: seq<Individual<C>>, b: nat, v: int)
    requires b < |s| && FitnessKey(s[b]) == v
    requires forall j :: 0 <= j < b ==> FitnessKey(s[j]) != v
    ensures |WithScore(s, v)| > 0 && WithScore(s, v)[0] == s[b]
  {
    if b > 0 {
      FirstOfClass(s[1..], b - 1, v);
    }
  }

  /** The extreme individual `max`/`min` returns is the one the stable ranking puts first:
      with ties, both pick the earliest. */
  lemma BestLeadsRanking<C>(s: seq<Individual<C>>, wantMax: bool)
    requires |s| > 0
    ensures s[BestIndex(s, wantMax)] == SortByFitness(s, wantMax)[0]
  {
    var b := BestIndex(s, wantMax);
    var v := FitnessKey(s[b]);
    var sorted := SortByFitness(s, wantMax);
    FirstOfClass(s, b, v);
    assert s[b] in multiset(sorted);
    var j :| 0 <= j < |sorted| && sorted[j] == s[b];
    assert sorted[0] in multiset(s);
    var i :| 0 <= i < |s| && s[i] == sorted[0];
    assert FitnessKey(sorted[0]) == v;
    WithScoreHead(sorted);
  }
}
