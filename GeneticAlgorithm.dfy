/**
 * Bubbles/GeneticAlgorithm.cs: a generational search over candidate circle
 * sets. A generation holds fifty candidates sorted by fitness (the reciprocal
 * of the reconstruction error); the next generation keeps the three best and
 * breeds the rest, each child taking the circles of two to four parents by
 * Voronoi ownership of random anchors, topped up with random circles to
 * exactly six hundred.
 *
 * The evaluator `CircleEvaluator.EvaluateCircles` is a parameter returning the
 * error and the segment count; every random draw is a parameter.
 */
module GeneticAlgorithm {
  import opened Common
  import opened Geometry

  const MaxRadius: real := 0.1
  const MinRadius: real := 0.01
  const NumCirclesPerCandidate: nat := 600
  const NumCandidatesPerGeneration: nat := 50
  const NumCirclesMutated: nat := 100
  const MaximalMutation: real := 0.01
  const NumCirclesRandomized: nat := 10
  const NumParentsMin: nat := 2
  const NumParentsMax: nat := 4
  const NumElitesKept: nat := 3

  /** A candidate: its circles, fitness, identifier, parent count and segment count. */
  datatype Candidate = Candidate(circles: seq<Circle>, fitness: real, id: int, numParents: int, numSegments: int)

  /** The sort key of `OrderByDescending(c => c.Fitness)`. */
  function Fitness(c: Candidate): real
  {
    c.fitness
  }

  /** The value of a slot of a fresh `Candidate[]` before it is filled (`null` in the source). */
  const Unfilled: Candidate := Candidate([], 0.0, -1, 0, 0)

  /** The evaluator: the reconstruction error of a circle set and its number of segments. */
  type Evaluator = seq<Circle> -> (real, int)

  /** The errors the evaluator reports are positive, so every fitness `1 / error` is defined and positive. */
  ghost predicate PositiveErrors(evaluate: Evaluator)
  {
    forall cs :: evaluate(cs).0 > 0.0
  }

  ghost predicate PositiveFitness(cs: seq<Candidate>)
  {
    forall i :: 0 <= i < |cs| ==> cs[i].fitness > 0.0
  }

  /** A candidate built from evaluated circles, `Fitness = 1.0f / EvaluateCircles(...)`. */
  function Evaluated(circles: seq<Circle>, evaluate: Evaluator, id: int, numParents: int): (c: Candidate)
    requires PositiveErrors(evaluate)
    ensures c.fitness > 0.0 && c.circles == circles && c.id == id && c.numParents == numParents
  {
    var e := evaluate(circles);
    Candidate(circles, 1.0 / e.0, id, numParents, e.1)
  }

  /* ---------------------------------------------------------------------- */
  /* Roulette-wheel table: Generation.NormalizeFitness                       */
  /* ---------------------------------------------------------------------- */

  function FitnessSum(cs: seq<Candidate>): real
  {
    if cs == [] then 0.0 else FitnessSum(cs[..|cs| - 1]) + cs[|cs| - 1].fitness
  }

  /** `sum_{k < |cs|} cs[k].Fitness / total`, the sum of the quotients the loop adds up. */
  function WeightSum(cs: seq<Candidate>, total: real): real
    requires total != 0.0
  {
    if cs == [] then 0.0 else WeightSum(cs[..|cs| - 1], total) + cs[|cs| - 1].fitness / total
  }

  /** Entry `c` of `fitnessSumForSampling`: the weight of candidates `0..c`. */
  function SamplingTable(cs: seq<Candidate>, total: real): (t: seq<real>)
    requires total != 0.0
    ensures |t| == |cs|
  {
    seq(|cs|, c requires 0 <= c < |cs| => WeightSum(cs[..c + 1], total))
  }

  /** The sum of the quotients is the quotient of the sum. */
  lemma {:induction false} WeightSumIsQuotient(cs: seq<Candidate>, total: real)
    requires total != 0.0
    ensures WeightSum(cs, total) == FitnessSum(cs) / total
  {
    if cs != [] {
      var n := |cs| - 1;
      WeightSumIsQuotient(cs[..n], total);
      assert FitnessSum(cs[..n]) / total + cs[n].fitness / total == (FitnessSum(cs[..n]) + cs[n].fitness) / total;
    }
  }

  lemma {:induction false} FitnessSumPositive(cs: seq<Candidate>)
    requires PositiveFitness(cs) && cs != []
    ensures FitnessSum(cs) > 0.0
  {
    var n := |cs| - 1;
    if n > 0 {
      FitnessSumPositive(cs[..n]);
    }
  }

  ghost predicate Nondecreasing(t: seq<real>)
  {
    forall i, j :: 0 <= i <= j < |t| ==> t[i] <= t[j]
  }

  ghost predicate StrictlyIncreasing(t: seq<real>)
  {
    forall i, j :: 0 <= i < j < |t| ==> t[i] < t[j]
  }

  /** With positive fitness the table rises strictly, starting above zero. */
  lemma SamplingTableRises(cs: seq<Candidate>, total: real)
    requires PositiveFitness(cs) && total > 0.0
    ensures var t := SamplingTable(cs, total);
      StrictlyIncreasing(t) && Nondecreasing(t) && (t != [] ==> t[0] > 0.0)
  {
    var t := SamplingTable(cs, total);
    forall i, j | 0 <= i <= j < |t|
      ensures t[i] <= t[j]
      ensures i < j ==> t[i] < t[j]
    {
      WeightSumGrows(cs, total, i + 1, j + 1);
    }
    if t != [] {
      WeightSumGrows(cs, total, 0, 1);
    }
  }

  /** Over the total fitness, the last entry of the table is exactly 1. */
  lemma SamplingTableEndsAtOne(cs: seq<Candidate>)
    requires PositiveFitness(cs) && cs != []
    ensures FitnessSum(cs) > 0.0
    ensures SamplingTable(cs, FitnessSum(cs))[|cs| - 1] == 1.0
  {
    FitnessSumPositive(cs);
    var total := FitnessSum(cs);
    assert cs[..|cs|] == cs;
    WeightSumIsQuotient(cs, total);
    DivideBySelf(total);
  }

  lemma DivideBySelf(x: real)
    requires x > 0.0
    ensures x / x == 1.0
  {
  }

  /** Adding candidates of positive fitness never lowers the weight. */
  lemma {:induction false} WeightSumGrows(cs: seq<Candidate>, total: real, i: nat, j: nat)
    requires PositiveFitness(cs) && total > 0.0 && i <= j <= |cs|
    ensures WeightSum(cs[..i], total) <= WeightSum(cs[..j], total)
    ensures i < j ==> WeightSum(cs[..i], total) < WeightSum(cs[..j], total)
    decreases j
  {
    if i < j {
      WeightSumGrows(cs, total, i, j - 1);
      assert cs[..j][..j - 1] == cs[..j - 1];
      assert cs[..j][j - 1] == cs[j - 1];
      assert cs[j - 1].fitness / total > 0.0;
    }
  }

  /* ---------------------------------------------------------------------- */
  /* Array.BinarySearch                                                      */
  /* ---------------------------------------------------------------------- */

  /**
   * The search `Array.BinarySearch` performs between `lo` and `hi`: probe the
   * middle, return it on a match, else continue in the half that can still
   * hold `key`; when the range is empty, the complement `-lo - 1` of the
   * insertion point.
   */
  function Search(t: seq<real>, key: real, lo: int, hi: int): int
    requires 0 <= lo <= hi + 1 <= |t|
    decreases hi - lo + 1
  {
    if lo > hi then -lo - 1
    else
      var mid := lo + (hi - lo) / 2;
      if t[mid] == key then mid
      else if t[mid] < key then Search(t, key, mid + 1, hi)
      else Search(t, key, lo, mid - 1)
  }

  /** What `Array.BinarySearch` promises for an ascending array. */
  ghost predicate SearchResult(t: seq<real>, key: real, idx: int)
  {
    (0 <= idx ==> idx < |t| && t[idx] == key)
    && (idx < 0 ==> (-idx - 1 <= |t|
      && (forall j :: 0 <= j < -idx - 1 ==> t[j] < key)
      && (forall j :: -idx - 1 <= j < |t| ==> t[j] > key)))
  }

  /**
   * On an ascending table the search finds an equal entry, or the first
   * entry above `key`, given that everything outside `lo..hi` is already on
   * the right side of `key`.
   */
  lemma {:induction false} SearchIsCorrect(t: seq<real>, key: real, lo: int, hi: int)
    requires 0 <= lo <= hi + 1 <= |t| && Nondecreasing(t)
    requires forall j :: 0 <= j < lo ==> t[j] < key
    requires forall j :: hi < j < |t| ==> t[j] > key
    ensures SearchResult(t, key, Search(t, key, lo, hi))
    decreases hi - lo + 1
  {
    if lo <= hi {
      var mid := lo + (hi - lo) / 2;
      if t[mid] < key {
        SearchIsCorrect(t, key, mid + 1, hi);
      } else if t[mid] > key {
        SearchIsCorrect(t, key, lo, mid - 1);
      }
    }
  }

  /** `Array.BinarySearch(a, key)`. */
  method BinarySearch(a: array<real>, key: real) returns (idx: int)
    ensures idx == Search(a[..], key, 0, a.Length - 1)
  {
    var lo, hi := 0, a.Length - 1;
    while lo <= hi
      invariant 0 <= lo <= hi + 1 <= a.Length
      invariant Search(a[..], key, lo, hi) == Search(a[..], key, 0, a.Length - 1)
      decreases hi - lo
    {
      var mid := lo + (hi - lo) / 2;
      if a[mid] == key {
        return mid;
      } else if a[mid] < key {
        lo := mid + 1;
      } else {
        hi := mid - 1;
      }
    }
    idx := -lo - 1;
  }

  /** The parent index `SelectParent` derives from a search result: the match, or the insertion point. */
  function ParentIndex(t: seq<real>, rnd: real): int
  {
    var idx := Search(t, rnd, 0, |t| - 1);
    if idx < 0 then -idx - 1 else idx
  }

  /**
   * On an ascending table, the parent index is an index whose entry equals
   * `rnd`, or the first index whose entry exceeds it (`|t|` when none does).
   */
  lemma ParentIndexSelects(t: seq<real>, rnd: real)
    requires Nondecreasing(t)
    ensures SelectsIndex(t, rnd, ParentIndex(t, rnd))
  {
    SearchIsCorrect(t, rnd, 0, |t| - 1);
  }

  /* ---------------------------------------------------------------------- */
  /* Generation                                                              */
  /* ---------------------------------------------------------------------- */

  /** A generation: fifty candidate slots and, once normalised, the roulette-wheel table. */
  class Generation {
    var normalized: bool
    var candidates: array<Candidate>
    var fitnessSumForSampling: array<real>

    /** The state after `NormalizeFitness` on fifty positively rated candidates. */
    ghost predicate Normalised()
      reads this, candidates, fitnessSumForSampling
    {
      normalized && candidates.Length == NumCandidatesPerGeneration && PositiveFitness(candidates[..])
      && FitnessSum(candidates[..]) > 0.0
      && fitnessSumForSampling[..] == SamplingTable(candidates[..], FitnessSum(candidates[..]))
    }

    /** `new Generation()`: fifty unfilled slots, no table yet. */
    constructor()
      ensures !normalized && fresh(candidates) && fresh(fitnessSumForSampling)
      ensures candidates.Length == NumCandidatesPerGeneration && fitnessSumForSampling.Length == 0
      ensures forall i :: 0 <= i < candidates.Length ==> candidates[i] == Unfilled
    {
      normalized := false;
      candidates := new Candidate[NumCandidatesPerGeneration](_ => Unfilled);
      fitnessSumForSampling := new real[0];
    }

    /**
     * `NormalizeFitness`: a fresh table whose entry `c` is the weight of the
     * candidates `0..c`, each fitness divided by the total fitness.
     */
    method NormalizeFitness()
      requires candidates.Length == NumCandidatesPerGeneration && PositiveFitness(candidates[..])
      modifies this
      ensures normalized && candidates == old(candidates) && fresh(fitnessSumForSampling)
      ensures FitnessSum(candidates[..]) > 0.0
      ensures fitnessSumForSampling[..] == SamplingTable(candidates[..], FitnessSum(candidates[..]))
      ensures Normalised()
    {
      var slots := candidates;
      ghost var cs := slots[..];
      FitnessSumPositive(cs);
      var fitnessSum := SumFitness(slots);
      var table := new real[NumCandidatesPerGeneration];
      var c := 0;
      while c < slots.Length
        invariant 0 <= c <= slots.Length == table.Length && slots[..] == cs && unchanged(this)
        invariant forall k :: 0 <= k < c ==> table[k] == WeightSum(cs[..k + 1], fitnessSum)
      {
        assert cs[..c + 1][..c] == cs[..c];
        table[c] := slots[c].fitness / fitnessSum + (if c > 0 then table[c - 1] else 0.0);
        c := c + 1;
      }
      assert forall k :: 0 <= k < table.Length ==> table[k] == SamplingTable(cs, fitnessSum)[k];
      assert table[..] == SamplingTable(cs, fitnessSum);
      fitnessSumForSampling := table;
      normalized := true;
    }

    /**
     * `SelectParent` for a draw `rnd`: throws (`None`) unless normalised,
     * otherwise the index `BinarySearch` finds, or its insertion point.
     */
    method SelectParent(rnd: real) returns (r: Option<int>)
      ensures r == if normalized then Some(ParentIndex(fitnessSumForSampling[..], rnd)) else None
    {
      if !normalized {
        return None;
      }
      var idx := BinarySearch(fitnessSumForSampling, rnd);
      r := Some(if idx < 0 then -idx - 1 else idx);
    }
  }

  /** `Candidates.Sum(c => c.Fitness)`. */
  method SumFitness(cs: array<Candidate>) returns (s: real)
    ensures s == FitnessSum(cs[..])
  {
    s := 0.0;
    var i := 0;
    while i < cs.Length
      invariant 0 <= i <= cs.Length && s == FitnessSum(cs[..i])
    {
      assert cs[..i + 1][..i] == cs[..i];
      s := s + cs[i].fitness;
      i := i + 1;
    }
    assert cs[..i] == cs[..];
  }

  /**
   * `i` is an index whose entry equals `rnd`, or the first index whose entry
   * exceeds it (`|t|` when none does).
   */
  ghost predicate SelectsIndex(t: seq<real>, rnd: real, i: int)
  {
    0 <= i <= |t|
    && ((i < |t| && t[i] == rnd)
        || ((forall j :: 0 <= j < i ==> t[j] < rnd) && (forall j :: i <= j < |t| ==> t[j] > rnd)))
  }

  /**
   * With a table rising to exactly 1 and a draw in [0, 1), the selected index
   * is a valid candidate index; with a last entry below the draw it would be
   * `|t|`, one past the end.
   */
  lemma SelectedIndexInRange(t: seq<real>, rnd: real, i: int)
    requires SelectsIndex(t, rnd, i) && t != [] && rnd < t[|t| - 1]
    ensures 0 <= i < |t|
  {
  }

  /* ---------------------------------------------------------------------- */
  /* Parent count and parent choice                                          */
  /* ---------------------------------------------------------------------- */

  /**
   * `(int)(NumParentsMin * (1.0 - progress) + (NumParentsMax + 1) * progress)`
   * with `progress = (child - NumElitesKept) / (NumCandidatesPerGeneration - NumElitesKept)`.
   */
  function NumParentsFor(child: int): int
  {
    var progress := (child - NumElitesKept) as real / (NumCandidatesPerGeneration - NumElitesKept) as real;
    Truncate(NumParentsMin as real * (1.0 - progress) + (NumParentsMax + 1) as real * progress)
  }

  /** Every bred child has between two and four parents, more for the later children. */
  lemma NumParentsInRange(child: int)
    requires NumElitesKept <= child < NumCandidatesPerGeneration
    ensures NumParentsMin <= NumParentsFor(child) <= NumParentsMax
  {
    var progress := (child - 3) as real / 47.0;
    assert 0.0 <= progress <= 46.0 / 47.0;
    var v := 2.0 * (1.0 - progress) + 5.0 * progress;
    assert v == 2.0 + 3.0 * progress;
    assert 2.0 <= v < 5.0;
  }

  /** The first and the last child: two parents for child 3, four for child 49. */
  lemma NumParentsAtEnds()
    ensures NumParentsFor(NumElitesKept) == NumParentsMin
    ensures NumParentsFor(NumCandidatesPerGeneration - 1) == NumParentsMax
  {
    assert 2.0 * (1.0 - 46.0 / 47.0) + 5.0 * (46.0 / 47.0) == 232.0 / 47.0;
  }

  /**
   * The parent list after the draws `rnds`: each draw picks `ParentIndex`,
   * which is appended unless already chosen, until `numParents` are chosen.
   */
  function Chosen(t: seq<real>, numParents: nat, rnds: seq<real>): seq<int>
  {
    if rnds == [] then []
    else
      var parents := Chosen(t, numParents, rnds[..|rnds| - 1]);
      var next := ParentIndex(t, rnds[|rnds| - 1]);
      if |parents| < numParents && next !in parents then parents + [next] else parents
  }

  ghost predicate Distinct(s: seq<int>)
  {
    forall i, j :: 0 <= i < j < |s| ==> s[i] != s[j]
  }

  /**
   * The chosen parents are distinct, at most `numParents`, and each is the
   * index some draw selects; on a table rising to 1 with draws in [0, 1),
   * every one is a valid candidate index.
   */
  lemma {:induction false} ChosenParents(t: seq<real>, numParents: nat, rnds: seq<real>)
    requires Nondecreasing(t)
    ensures var ps := Chosen(t, numParents, rnds);
      Distinct(ps) && |ps| <= numParents
      && forall k :: 0 <= k < |ps| ==> exists i :: 0 <= i < |rnds| && SelectsIndex(t, rnds[i], ps[k])
    ensures t != [] && (forall i :: 0 <= i < |rnds| ==> rnds[i] < t[|t| - 1]) ==>
      forall k :: 0 <= k < |Chosen(t, numParents, rnds)| ==> 0 <= Chosen(t, numParents, rnds)[k] < |t|
  {
    if rnds != [] {
      var n := |rnds| - 1;
      ChosenParents(t, numParents, rnds[..n]);
      ParentIndexSelects(t, rnds[n]);
      var ps := Chosen(t, numParents, rnds[..n]);
      forall k | 0 <= k < |ps|
        ensures exists i :: 0 <= i < |rnds| && SelectsIndex(t, rnds[i], ps[k])
      {
        var i :| 0 <= i < n && SelectsIndex(t, rnds[..n][i], ps[k]);
        assert rnds[i] == rnds[..n][i];
      }
      if t != [] && (forall i :: 0 <= i < |rnds| ==> rnds[i] < t[|t| - 1]) {
        SelectedIndexInRange(t, rnds[n], ParentIndex(t, rnds[n]));
      }
    }
  }

  /** Once `numParents` are chosen, later draws change nothing: the loop may stop there. */
  lemma {:induction false} ChosenStaysFull(t: seq<real>, numParents: nat, rnds: seq<real>, i: nat)
    requires i <= |rnds| && |Chosen(t, numParents, rnds[..i])| >= numParents
    ensures Chosen(t, numParents, rnds) == Chosen(t, numParents, rnds[..i])
    decreases |rnds|
  {
    if i < |rnds| {
      var n := |rnds| - 1;
      assert rnds[..n][..i] == rnds[..i];
      ChosenStaysFull(t, numParents, rnds[..n], i);
    } else {
      assert rnds[..i] == rnds;
    }
  }

  /* ---------------------------------------------------------------------- */
  /* Voronoi ownership                                                       */
  /* ---------------------------------------------------------------------- */

  function Center(c: Circle): Point
  {
    Point(c.x, c.y)
  }

  /**
   * The `Where` filter for parent `p`: scanning the anchors from `pC`, the
   * circle is dropped at the first other anchor strictly nearer to its centre
   * than anchor `p`. Distances are compared through their squares.
   */
  function NoNearerAnchor(c: Circle, p: nat, anchors: seq<Point>, pC: nat): bool
    requires p < |anchors|
    decreases |anchors| - pC
  {
    if pC >= |anchors| then true
    else if pC != p && DistanceSquared(Center(c), anchors[pC]) < DistanceSquared(Center(c), anchors[p]) then false
    else NoNearerAnchor(c, p, anchors, pC + 1)
  }

  /** The Voronoi cell of anchor `p`, ties included. */
  ghost predicate InCell(c: Circle, p: nat, anchors: seq<Point>)
    requires p < |anchors|
  {
    forall q :: 0 <= q < |anchors| && q != p ==>
      !(DistanceSquared(Center(c), anchors[q]) < DistanceSquared(Center(c), anchors[p]))
  }

  lemma {:induction false} NoNearerAnchorIff(c: Circle, p: nat, anchors: seq<Point>, pC: nat)
    requires p < |anchors|
    ensures NoNearerAnchor(c, p, anchors, pC) <==>
      forall q :: pC <= q < |anchors| && q != p ==>
        !(DistanceSquared(Center(c), anchors[q]) < DistanceSquared(Center(c), anchors[p]))
    decreases |anchors| - pC
  {
    if pC < |anchors| {
      NoNearerAnchorIff(c, p, anchors, pC + 1);
    }
  }

  /** The circles of parent `p` in the cell of anchor `p`, each tagged `p + 1`, order kept. */
  function OwnedFrom(circles: seq<Circle>, p: nat, anchors: seq<Point>): seq<Circle>
    requires p < |anchors|
  {
    if circles == [] then []
    else
      var tagged := circles[0].(color := p + 1);
      (if NoNearerAnchor(tagged, p, anchors, 0) then [tagged] else []) + OwnedFrom(circles[1..], p, anchors)
  }

  /** `SelectMany` over the parents: the owned circles of parent 0, then of parent 1, and so on. */
  function AllOwned(parentCircles: seq<seq<Circle>>, anchors: seq<Point>): seq<Circle>
    requires |parentCircles| <= |anchors|
  {
    if parentCircles == [] then []
    else
      var n := |parentCircles| - 1;
      AllOwned(parentCircles[..n], anchors) + OwnedFrom(parentCircles[n], n, anchors)
  }

  /**
   * A circle is inherited from parent `p` exactly when it is one of that
   * parent's circles, tagged `p + 1`, and no other anchor is strictly nearer
   * to its centre.
   */
  lemma {:induction false} OwnedFromIff(circles: seq<Circle>, p: nat, anchors: seq<Point>, x: Circle)
    requires p < |anchors|
    ensures x in OwnedFrom(circles, p, anchors) <==>
      exists k :: 0 <= k < |circles| && x == circles[k].(color := p + 1) && InCell(x, p, anchors)
  {
    if circles != [] {
      OwnedFromIff(circles[1..], p, anchors, x);
      NoNearerAnchorIff(circles[0].(color := p + 1), p, anchors, 0);
      if x in OwnedFrom(circles[1..], p, anchors) {
        var k :| 0 <= k < |circles[1..]| && x == circles[1..][k].(color := p + 1) && InCell(x, p, anchors);
        assert x == circles[k + 1].(color := p + 1);
      }
      if exists k :: 0 <= k < |circles| && x == circles[k].(color := p + 1) && InCell(x, p, anchors) {
        var k :| 0 <= k < |circles| && x == circles[k].(color := p + 1) && InCell(x, p, anchors);
        if k > 0 {
          assert x == circles[1..][k - 1].(color := p + 1);
        }
      }
    }
  }

  /** The inherited circles are those of some parent's own cell. */
  lemma {:induction false} AllOwnedIff(parentCircles: seq<seq<Circle>>, anchors: seq<Point>, x: Circle)
    requires |parentCircles| <= |anchors|
    ensures x in AllOwned(parentCircles, anchors) <==>
      exists p :: 0 <= p < |parentCircles| && x in OwnedFrom(parentCircles[p], p, anchors)
  {
    if parentCircles != [] {
      var n := |parentCircles| - 1;
      var init := parentCircles[..n];
      AllOwnedIff(init, anchors, x);
      var prefix := AllOwned(init, anchors);
      var last := OwnedFrom(parentCircles[n], n, anchors);
      assert AllOwned(parentCircles, anchors) == prefix + last;
      assert x in prefix + last <==> x in prefix || x in last;
      if x in prefix {
        var p :| 0 <= p < n && x in OwnedFrom(init[p], p, anchors);
        assert init[p] == parentCircles[p];
      }
      if exists p :: 0 <= p < |parentCircles| && x in OwnedFrom(parentCircles[p], p, anchors) {
        var p :| 0 <= p < |parentCircles| && x in OwnedFrom(parentCircles[p], p, anchors);
        if p < n {
          assert init[p] == parentCircles[p];
          assert x in prefix;
        }
      }
    }
  }

  /* ---------------------------------------------------------------------- */
  /* Child assembly                                                          */
  /* ---------------------------------------------------------------------- */

  /** The descending sort key that puts the smallest random key first. */
  function AscendingKey<T>(e: (T, int)): real
  {
    -(e.1 as real)
  }

  /**
   * `OrderBy(_ => random.Next())`: a stable ascending sort by one random key
   * per element, `key(i)` for element `i`.
   */
  function Shuffle<T>(items: seq<T>, key: nat -> int): (r: seq<T>)
    ensures |r| == |items|
  {
    var keyed := seq(|items|, i requires 0 <= i < |items| => (items[i], key(i)));
    var sorted := SortDesc(keyed, AscendingKey);
    seq(|sorted|, i requires 0 <= i < |sorted| => sorted[i].0)
  }

  /** Shuffling only reorders: every element of the result is an element of the input. */
  lemma ShuffleMembers<T>(items: seq<T>, key: nat -> int)
    ensures forall k :: 0 <= k < |items| ==> Shuffle(items, key)[k] in items
  {
    var keyed := seq(|items|, i requires 0 <= i < |items| => (items[i], key(i)));
    var sorted := SortDesc(keyed, AscendingKey);
    SortDescPermutes(keyed, AscendingKey);
    SortedElementsAreItems(items, keyed, sorted);
  }

  lemma SortedElementsAreItems<T>(items: seq<T>, keyed: seq<(T, int)>, sorted: seq<(T, int)>)
    requires |keyed| == |items| && forall i :: 0 <= i < |items| ==> keyed[i].0 == items[i]
    requires multiset(sorted) == multiset(keyed)
    ensures forall k :: 0 <= k < |sorted| ==> sorted[k].0 in items
  {
    forall k | 0 <= k < |sorted|
      ensures sorted[k].0 in items
    {
      assert sorted[k] in multiset(keyed);
      var i :| 0 <= i < |keyed| && keyed[i] == sorted[k];
      assert items[i] == sorted[k].0;
    }
  }

  function MaxInt(a: int, b: int): int
  {
    if a < b then b else a
  }

  function MinInt(a: int, b: int): int
  {
    if a < b then a else b
  }

  /** `Math.Max(NumCirclesRandomized, NumCirclesPerCandidate - inherited)`: at least ten new circles. */
  function NumToRandomize(inherited: nat): (n: nat)
    ensures n >= NumCirclesRandomized && n + inherited >= NumCirclesPerCandidate
  {
    MaxInt(NumCirclesRandomized, NumCirclesPerCandidate - inherited)
  }

  /** Each circle moved by the jitter offset drawn for its position. */
  function Jittered(cs: seq<Circle>, jitter: nat -> Offset): (r: seq<Circle>)
    ensures |r| == |cs|
  {
    if cs == [] then [] else Jittered(cs[..|cs| - 1], jitter) + [Add(cs[|cs| - 1], jitter(|cs| - 1))]
  }

  lemma {:induction false} JitteredEntry(cs: seq<Circle>, jitter: nat -> Offset, i: nat)
    requires i < |cs|
    ensures Jittered(cs, jitter)[i] == Add(cs[i], jitter(i))
  {
    var n := |cs| - 1;
    if i < n {
      JitteredEntry(cs[..n], jitter, i);
    }
  }

  /** The first `n` freshly drawn circles, in draw order. */
  function Spawned(n: nat, spawn: nat -> Circle): (r: seq<Circle>)
    ensures |r| == n
  {
    if n == 0 then [] else Spawned(n - 1, spawn) + [spawn(n - 1)]
  }

  lemma {:induction false} SpawnedEntry(n: nat, spawn: nat -> Circle, i: nat)
    requires i < n
    ensures Spawned(n, spawn)[i] == spawn(i)
  {
    if i < n - 1 {
      SpawnedEntry(n - 1, spawn, i);
    }
  }

  /**
   * The child's circles from the inherited ones: after shuffling, the first
   * `NumCirclesPerCandidate - numCirclesToRandomize` are kept, the first
   * hundred of those are moved by a jitter offset and placed after the
   * rest, and `numCirclesToRandomize` fresh random circles close the list.
   */
  function VoronoiChildCircles(inherited: seq<Circle>, key: nat -> int, jitter: nat -> Offset, spawn: nat -> Circle)
      : (circles: seq<Circle>)
    ensures |circles| == NumCirclesPerCandidate
  {
    var numCirclesToRandomize := NumToRandomize(|inherited|);
    var shuffled := Shuffle(inherited, key);
    var kept := shuffled[..MinInt(|shuffled|, NumCirclesPerCandidate - numCirclesToRandomize)];
    var untouched := if |kept| <= NumCirclesMutated then [] else kept[NumCirclesMutated..];
    untouched + Jittered(kept[..MinInt(NumCirclesMutated, |kept|)], jitter) + Spawned(numCirclesToRandomize, spawn)
  }

  /** The last `NumToRandomize` circles of a child are the fresh draws, in draw order. */
  lemma VoronoiChildSpawned(inherited: seq<Circle>, key: nat -> int, jitter: nat -> Offset, spawn: nat -> Circle)
    ensures var kept := NumCirclesPerCandidate - NumToRandomize(|inherited|);
      forall i :: kept <= i < NumCirclesPerCandidate ==> VoronoiChildCircles(inherited, key, jitter, spawn)[i] == spawn(i - kept)
  {
    var circles := VoronoiChildCircles(inherited, key, jitter, spawn);
    var r := NumToRandomize(|inherited|);
    var kept := Shuffle(inherited, key)[..NumCirclesPerCandidate - r];
    var m := MinInt(NumCirclesMutated, |kept|);
    var untouched := if |kept| <= NumCirclesMutated then [] else kept[NumCirclesMutated..];
    var front := untouched + Jittered(kept[..m], jitter);
    var spawned := Spawned(r, spawn);
    assert circles == front + spawned && |front| == |kept|;
    forall i | |kept| <= i < NumCirclesPerCandidate
      ensures circles[i] == spawn(i - |kept|)
    {
      SpawnedEntry(r, spawn, i - |kept|);
      assert circles[i] == spawned[i - |kept|];
    }
  }

  /**
   * Before the moved and the fresh circles come the kept inherited circles
   * past the first hundred, unchanged.
   */
  lemma VoronoiChildUntouched(inherited: seq<Circle>, key: nat -> int, jitter: nat -> Offset, spawn: nat -> Circle)
    ensures var kept := NumCirclesPerCandidate - NumToRandomize(|inherited|);
      kept <= |inherited|
      && forall i :: 0 <= i < kept - MinInt(NumCirclesMutated, kept) ==>
           VoronoiChildCircles(inherited, key, jitter, spawn)[i] in inherited
  {
    var circles := VoronoiChildCircles(inherited, key, jitter, spawn);
    var r := NumToRandomize(|inherited|);
    var shuffled := Shuffle(inherited, key);
    ShuffleMembers(inherited, key);
    var kept := shuffled[..NumCirclesPerCandidate - r];
    var m := MinInt(NumCirclesMutated, |kept|);
    var untouched := if |kept| <= NumCirclesMutated then [] else kept[NumCirclesMutated..];
    assert circles == untouched + (Jittered(kept[..m], jitter) + Spawned(r, spawn));
    assert |untouched| == |kept| - m;
    forall i | 0 <= i < |kept| - m
      ensures circles[i] in inherited
    {
      assert circles[i] == untouched[i] == shuffled[i + m];
    }
  }

  /** The hundred (or fewer) circles before the fresh ones are kept inherited circles moved by their jitter. */
  lemma VoronoiChildMoved(inherited: seq<Circle>, key: nat -> int, jitter: nat -> Offset, spawn: nat -> Circle)
    ensures var kept := NumCirclesPerCandidate - NumToRandomize(|inherited|);
      var m := MinInt(NumCirclesMutated, kept);
      forall i :: kept - m <= i < kept ==>
        exists o :: o in inherited && VoronoiChildCircles(inherited, key, jitter, spawn)[i] == Add(o, jitter(i - (kept - m)))
  {
    var circles := VoronoiChildCircles(inherited, key, jitter, spawn);
    var r := NumToRandomize(|inherited|);
    var shuffled := Shuffle(inherited, key);
    ShuffleMembers(inherited, key);
    var kept := shuffled[..NumCirclesPerCandidate - r];
    var m := MinInt(NumCirclesMutated, |kept|);
    var untouched := if |kept| <= NumCirclesMutated then [] else kept[NumCirclesMutated..];
    var moved := Jittered(kept[..m], jitter);
    assert circles == untouched + moved + Spawned(r, spawn);
    assert |untouched| == |kept| - m;
    forall i | |kept| - m <= i < |kept|
      ensures exists o :: o in inherited && circles[i] == Add(o, jitter(i - (|kept| - m)))
    {
      var j := i - (|kept| - m);
      JitteredEntry(kept[..m], jitter, j);
      assert circles[i] == moved[j];
      assert kept[j] == shuffled[j];
    }
  }


  /**
   * `GenerateChildRandomSelection`'s circles: circle `c % 600` of parent
   * `c / 600` for the first 590 of the shuffled indices, the first hundred
   * of them jittered and placed after the rest, then ten fresh circles.
   */
  function RandomSelectionChildCircles(parentCircles: seq<seq<Circle>>, key: nat -> int, jitter: nat -> Offset,
                                       spawn: nat -> Circle): (circles: seq<Circle>)
    requires forall p :: 0 <= p < |parentCircles| ==> |parentCircles[p]| == NumCirclesPerCandidate
  {
    var all := seq(|parentCircles| * NumCirclesPerCandidate, i => i);
    var shuffled := Shuffle(all, key);
    ShuffleMembers(all, key);
    var count := MinInt(|shuffled|, NumCirclesPerCandidate - NumCirclesRandomized);
    var selected := seq(count, i requires 0 <= i < count =>
      IndexInRange(all, shuffled[i], |parentCircles|);
      parentCircles[shuffled[i] / NumCirclesPerCandidate][shuffled[i] % NumCirclesPerCandidate]);
    var m := MinInt(NumCirclesMutated, |selected|);
    selected[m..] + Jittered(selected[..m], jitter) + Spawned(NumCirclesRandomized, spawn)
  }

  lemma IndexInRange(all: seq<int>, c: int, n: nat)
    requires |all| == n * NumCirclesPerCandidate && forall i :: 0 <= i < |all| ==> all[i] == i
    requires c in all
    ensures 0 <= c / NumCirclesPerCandidate < n && 0 <= c % NumCirclesPerCandidate < NumCirclesPerCandidate
  {
  }

  /** With at least one parent, the random-selection child also has exactly 600 circles. */
  lemma RandomSelectionChildSize(parentCircles: seq<seq<Circle>>, key: nat -> int, jitter: nat -> Offset, spawn: nat -> Circle)
    requires forall p :: 0 <= p < |parentCircles| ==> |parentCircles[p]| == NumCirclesPerCandidate
    requires |parentCircles| >= 1
    ensures |RandomSelectionChildCircles(parentCircles, key, jitter, spawn)| == NumCirclesPerCandidate
  {
    assert |parentCircles| * NumCirclesPerCandidate >= NumCirclesPerCandidate;
  }

  /* ---------------------------------------------------------------------- */
  /* Voronoi child                                                           */
  /* ---------------------------------------------------------------------- */

  /**
   * The random draws one Voronoi child consumes: the parent draws in [0, 1)
   * of the `SelectParent` loop, the anchor of each parent, the shuffle key of
   * each inherited circle, the jitter of each moved circle and the fresh
   * circles.
   */
  datatype ChildDraws = ChildDraws(parentRnds: seq<real>, anchor: nat -> Point, shuffleKey: nat -> int,
                                   jitter: nat -> Offset, spawn: nat -> Circle)

  ghost predicate UnitDraws(rnds: seq<real>)
  {
    forall i :: 0 <= i < |rnds| ==> 0.0 <= rnds[i] < 1.0
  }

  /** The table of a positively rated, non-empty generation rises to exactly 1. */
  lemma TableFacts(cands: seq<Candidate>)
    requires PositiveFitness(cands) && cands != []
    ensures FitnessSum(cands) > 0.0
    ensures var t := SamplingTable(cands, FitnessSum(cands));
      Nondecreasing(t) && |t| == |cands| && t[|t| - 1] == 1.0
  {
    SamplingTableEndsAtOne(cands);
    SamplingTableRises(cands, FitnessSum(cands));
  }

  /** With draws in [0, 1), every chosen parent is a valid candidate index. */
  lemma ChosenInRange(cands: seq<Candidate>, numParents: nat, rnds: seq<real>)
    requires PositiveFitness(cands) && cands != [] && UnitDraws(rnds)
    ensures FitnessSum(cands) > 0.0
    ensures IndicesIn(Chosen(SamplingTable(cands, FitnessSum(cands)), numParents, rnds), |cands|)
  {
    TableFacts(cands);
    ChosenParents(SamplingTable(cands, FitnessSum(cands)), numParents, rnds);
  }

  /** Every entry of `ps` indexes a sequence of length `n`. */
  ghost predicate IndicesIn(ps: seq<int>, n: int)
  {
    forall k :: 0 <= k < |ps| ==> 0 <= ps[k] < n
  }

  /** The circle lists of the chosen parents, in choice order. */
  function ParentCircles(cands: seq<Candidate>, parents: seq<int>): seq<seq<Circle>>
    requires IndicesIn(parents, |cands|)
  {
    seq(|parents|, p requires 0 <= p < |parents| => cands[parents[p]].circles)
  }

  /** `parentCenters`: one random anchor per parent. */
  function Anchors(numParents: nat, anchor: nat -> Point): seq<Point>
  {
    seq(numParents, p requires 0 <= p => anchor(p))
  }

  /** The child's circles once the parents are chosen: ownership, then assembly. */
  function ChildFromParents(cands: seq<Candidate>, parents: seq<int>, d: ChildDraws): seq<Circle>
    requires IndicesIn(parents, |cands|)
  {
    var inherited := AllOwned(ParentCircles(cands, parents), Anchors(|parents|, d.anchor));
    VoronoiChildCircles(inherited, d.shuffleKey, d.jitter, d.spawn)
  }

  /** `GenerateChildVoronoi`'s circles over a generation `cands` normalised for sampling. */
  function VoronoiCircles(cands: seq<Candidate>, numParents: nat, d: ChildDraws): seq<Circle>
    requires PositiveFitness(cands) && cands != [] && UnitDraws(d.parentRnds)
  {
    ChosenInRange(cands, numParents, d.parentRnds);
    ChildFromParents(cands, Chosen(SamplingTable(cands, FitnessSum(cands)), numParents, d.parentRnds), d)
  }

  /** `GenerateChildVoronoi`'s candidate: the evaluated child circles, numbered `id`. */
  function VoronoiChild(cands: seq<Candidate>, numParents: nat, d: ChildDraws, evaluate: Evaluator, id: int): (child: Candidate)
    requires PositiveFitness(cands) && cands != [] && UnitDraws(d.parentRnds) && PositiveErrors(evaluate)
  {
    Evaluated(VoronoiCircles(cands, numParents, d), evaluate, id, numParents)
  }

  /** Every inherited circle is a circle of a chosen parent `p`, tagged `p + 1`, inside the cell of anchor `p`. */
  lemma InheritedFromParent(cands: seq<Candidate>, parents: seq<int>, anchors: seq<Point>, x: Circle)
    requires IndicesIn(parents, |cands|)
    requires |parents| <= |anchors|
    requires x in AllOwned(ParentCircles(cands, parents), anchors)
    ensures exists p, k :: (0 <= p < |parents| && 0 <= k < |cands[parents[p]].circles|
      && x == cands[parents[p]].circles[k].(color := p + 1) && InCell(x, p, anchors))
  {
    var pcs := ParentCircles(cands, parents);
    AllOwnedIff(pcs, anchors, x);
    var p :| 0 <= p < |pcs| && x in OwnedFrom(pcs[p], p, anchors);
    OwnedFromIff(pcs[p], p, anchors, x);
  }

  /**
   * A child of the chosen `parents`: each of its unchanged inherited circles
   * is a circle of a parent `p`, retagged `p + 1` and lying in the cell of
   * anchor `p`.
   */
  lemma ChildInherits(cands: seq<Candidate>, parents: seq<int>, d: ChildDraws)
    requires IndicesIn(parents, |cands|)
    ensures var circles := ChildFromParents(cands, parents, d);
      var inherited := AllOwned(ParentCircles(cands, parents), Anchors(|parents|, d.anchor));
      var kept := NumCirclesPerCandidate - NumToRandomize(|inherited|);
      forall i :: 0 <= i < kept - MinInt(NumCirclesMutated, kept) ==>
           (exists p, k :: 0 <= p < |parents| && 0 <= k < |cands[parents[p]].circles|
             && circles[i] == cands[parents[p]].circles[k].(color := p + 1)
             && InCell(circles[i], p, Anchors(|parents|, d.anchor)))
  {
    var anchors := Anchors(|parents|, d.anchor);
    var inherited := AllOwned(ParentCircles(cands, parents), anchors);
    VoronoiChildUntouched(inherited, d.shuffleKey, d.jitter, d.spawn);
    var circles := ChildFromParents(cands, parents, d);
    var kept := NumCirclesPerCandidate - NumToRandomize(|inherited|);
    forall i | 0 <= i < kept - MinInt(NumCirclesMutated, kept)
      ensures exists p, k :: (0 <= p < |parents| && 0 <= k < |cands[parents[p]].circles|
        && circles[i] == cands[parents[p]].circles[k].(color := p + 1) && InCell(circles[i], p, anchors))
    {
      InheritedFromParent(cands, parents, anchors, circles[i]);
    }
  }

  /** With enough parent draws, a child has exactly `numParents` distinct parents. */
  lemma EnoughDrawsGiveAllParents(cands: seq<Candidate>, numParents: nat, rnds: seq<real>)
    requires PositiveFitness(cands) && cands != [] && UnitDraws(rnds)
    requires FitnessSum(cands) > 0.0 && |Chosen(SamplingTable(cands, FitnessSum(cands)), numParents, rnds)| >= numParents
    ensures var parents := Chosen(SamplingTable(cands, FitnessSum(cands)), numParents, rnds);
      |parents| == numParents && Distinct(parents)
  {
    TableFacts(cands);
    ChosenParents(SamplingTable(cands, FitnessSum(cands)), numParents, rnds);
  }

  /* ---------------------------------------------------------------------- */
  /* Loading and the next generation                                         */
  /* ---------------------------------------------------------------------- */

  /** Loading succeeds with at least fifty circle lists whose first fifty hold 600 circles each. */
  ghost predicate CompleteSeeds(allCircles: seq<seq<Circle>>)
  {
    |allCircles| >= NumCandidatesPerGeneration
    && forall c :: 0 <= c < NumCandidatesPerGeneration ==> |allCircles[c]| == NumCirclesPerCandidate
  }

  /** The first generation before sorting: list `c` evaluated, with identifier `c`. */
  function FirstGeneration(allCircles: seq<seq<Circle>>, evaluate: Evaluator): (cs: seq<Candidate>)
    requires |allCircles| >= NumCandidatesPerGeneration && PositiveErrors(evaluate)
    ensures |cs| == NumCandidatesPerGeneration
  {
    seq(NumCandidatesPerGeneration, c requires 0 <= c < NumCandidatesPerGeneration =>
      Evaluated(allCircles[c], evaluate, c, 0))
  }

  /** Seed `c` of the first generation is list `c`, numbered `c`, without parents. */
  lemma FirstGenerationSeeds(allCircles: seq<seq<Circle>>, evaluate: Evaluator)
    requires CompleteSeeds(allCircles) && PositiveErrors(evaluate)
    ensures var first := FirstGeneration(allCircles, evaluate);
      PositiveFitness(first)
      && forall x :: x in first ==>
           0 <= x.id < NumCandidatesPerGeneration && x.circles == allCircles[x.id]
           && |x.circles| == NumCirclesPerCandidate && x.numParents == 0
  {
  }

  /**
   * The loaded generation: fifty positively rated seeds in descending order
   * of fitness, each list `c` present as seed `c` with 600 circles and no
   * parents.
   */
  lemma FirstGenerationLoaded(allCircles: seq<seq<Circle>>, evaluate: Evaluator)
    requires CompleteSeeds(allCircles) && PositiveErrors(evaluate)
    ensures var sorted := SortDesc(FirstGeneration(allCircles, evaluate), Fitness);
      |sorted| == NumCandidatesPerGeneration && SortedDesc(sorted, Fitness) && PositiveFitness(sorted)
      && (forall i :: 0 <= i < |sorted| ==>
            0 <= sorted[i].id < NumCandidatesPerGeneration && sorted[i].circles == allCircles[sorted[i].id]
            && |sorted[i].circles| == NumCirclesPerCandidate && sorted[i].numParents == 0)
      && forall c :: 0 <= c < NumCandidatesPerGeneration ==> FirstGeneration(allCircles, evaluate)[c] in sorted
  {
    var first := FirstGeneration(allCircles, evaluate);
    FirstGenerationSeeds(allCircles, evaluate);
    SortDescMembers(first, Fitness);
    SortDescSorted(first, Fitness);
  }

  /** The bred children 3..49: child `j + 3` has `NumParentsFor(j + 3)` parents and identifier `firstId + j`. */
  function Children(cands: seq<Candidate>, draws: seq<ChildDraws>, evaluate: Evaluator, firstId: int): (kids: seq<Candidate>)
    requires PositiveFitness(cands) && cands != [] && PositiveErrors(evaluate)
    requires forall j :: 0 <= j < |draws| ==> UnitDraws(draws[j].parentRnds)
    requires |draws| == NumCandidatesPerGeneration - NumElitesKept
    ensures |kids| == |draws| && PositiveFitness(kids)
  {
    seq(|draws|, j requires 0 <= j < |draws| =>
      VoronoiChild(cands, ChildParents(j + NumElitesKept), draws[j], evaluate, firstId + j))
  }

  /** `NumParentsFor` of a bred child, as the natural number it is. */
  function ChildParents(child: int): nat
    requires NumElitesKept <= child < NumCandidatesPerGeneration
  {
    NumParentsInRange(child);
    NumParentsFor(child)
  }

  /** The children bred so far, extended by child `j`, are the first `j + 1` children. */
  lemma ChildrenGrow(cands: seq<Candidate>, draws: seq<ChildDraws>, evaluate: Evaluator, firstId: int, j: int,
                     done: seq<Candidate>)
    requires PositiveFitness(cands) && cands != [] && PositiveErrors(evaluate)
    requires forall j :: 0 <= j < |draws| ==> UnitDraws(draws[j].parentRnds)
    requires |draws| == NumCandidatesPerGeneration - NumElitesKept && 0 <= j < |draws|
    requires done == Children(cands, draws, evaluate, firstId)[..j]
    ensures done + [VoronoiChild(cands, ChildParents(j + NumElitesKept), draws[j], evaluate, firstId + j)]
      == Children(cands, draws, evaluate, firstId)[..j + 1]
  {
    PrefixSnoc(Children(cands, draws, evaluate, firstId), j);
  }

  /** `ToArray()`: a fresh array holding `s`. */
  method ToArray(s: seq<Candidate>) returns (a: array<Candidate>)
    ensures fresh(a) && a[..] == s
  {
    a := new Candidate[|s|](i requires 0 <= i < |s| => s[i]);
  }

  /**
   * Elitism: the sorted next generation starts with a candidate at least as
   * fit as the previous best, and all its candidates are positively rated.
   */
  lemma ElitismKeepsBest(cands: seq<Candidate>, kids: seq<Candidate>)
    requires |cands| >= NumElitesKept && PositiveFitness(cands) && PositiveFitness(kids)
    ensures var next := SortDesc(cands[..NumElitesKept] + kids, Fitness);
      next != [] && next[0].fitness >= cands[0].fitness && PositiveFitness(next)
  {
    var all := cands[..NumElitesKept] + kids;
    var next := SortDesc(all, Fitness);
    assert all[0] == cands[0];
    SortDescHeadIsMax(all, Fitness, cands[0]);
    assert PositiveFitness(all);
    SortKeepsPositive(all);
  }

  /** Sorting a generation by fitness keeps every fitness positive. */
  lemma SortKeepsPositive(cs: seq<Candidate>)
    requires PositiveFitness(cs)
    ensures PositiveFitness(SortDesc(cs, Fitness))
  {
    var sorted := SortDesc(cs, Fitness);
    SortDescPermutes(cs, Fitness);
    forall i | 0 <= i < |sorted|
      ensures sorted[i].fitness > 0.0
    {
      assert sorted[i] in multiset(cs);
      var k :| 0 <= k < |cs| && cs[k] == sorted[i];
    }
  }

  /** The driver: the current generation, the grey step and the identifier counter. */
  class GeneticAlgorithm {
    var currentGeneration: Generation?
    var greyScaleStep: int
    var maxID: int

    constructor()
      ensures currentGeneration == null && greyScaleStep == 0 && maxID == 0
    {
      currentGeneration := null;
      greyScaleStep := 0;
      maxID := 0;
    }

    /** `GetBestCandidate`: slot 0, the fittest candidate of a sorted generation. */
    function BestCandidate(): (best: Candidate)
      requires currentGeneration != null && currentGeneration.candidates.Length > 0
      requires SortedDesc(currentGeneration.candidates[..], Fitness)
      reads this, currentGeneration, currentGeneration.candidates
      ensures best in currentGeneration.candidates[..]
      ensures forall i :: 0 <= i < currentGeneration.candidates.Length ==>
        best.fitness >= currentGeneration.candidates[i].fitness
    {
      currentGeneration.candidates[0]
    }

    /**
     * `LoadFirstGeneration` over the circle lists already read from disk:
     * fails (throws) with fewer than fifty lists, before anything but the
     * grey step is set, or at the first of the fifty lists without 600
     * circles; otherwise the fifty seeds, sorted by descending fitness.
     */
    method LoadFirstGeneration(allCircles: seq<seq<Circle>>, step: int, evaluate: Evaluator) returns (ok: bool)
      requires PositiveErrors(evaluate)
      modifies this
      ensures greyScaleStep == step
      ensures ok <==> CompleteSeeds(allCircles)
      ensures |allCircles| < NumCandidatesPerGeneration ==>
        currentGeneration == old(currentGeneration) && maxID == old(maxID)
      ensures |allCircles| >= NumCandidatesPerGeneration && !ok ==>
        0 <= maxID < NumCandidatesPerGeneration && |allCircles[maxID]| != NumCirclesPerCandidate
        && forall k :: 0 <= k < maxID ==> |allCircles[k]| == NumCirclesPerCandidate
      ensures ok ==> (currentGeneration != null && fresh(currentGeneration) && fresh(currentGeneration.candidates)
        && !currentGeneration.normalized && maxID == NumCandidatesPerGeneration
        && currentGeneration.candidates[..] == SortDesc(FirstGeneration(allCircles, evaluate), Fitness))
    {
      greyScaleStep := step;
      if |allCircles| < NumCandidatesPerGeneration {
        return false;
      }
      maxID := 0;
      var gen := new Generation();
      currentGeneration := gen;
      var slots := gen.candidates;
      var c := 0;
      while c < NumCandidatesPerGeneration
        invariant 0 <= c <= NumCandidatesPerGeneration && maxID == c && greyScaleStep == step
        invariant currentGeneration == gen && gen.candidates == slots && !gen.normalized
        invariant fresh(gen) && fresh(slots) && slots.Length == NumCandidatesPerGeneration
        invariant forall k :: 0 <= k < c ==>
          |allCircles[k]| == NumCirclesPerCandidate && slots[k] == Evaluated(allCircles[k], evaluate, k, 0)
      {
        if |allCircles[c]| != NumCirclesPerCandidate {
          return false;
        }
        slots[c] := Evaluated(allCircles[c], evaluate, maxID, 0);
        maxID := maxID + 1;
        c := c + 1;
      }
      assert slots[..] == FirstGeneration(allCircles, evaluate);
      gen.candidates := ToArray(SortDesc(slots[..], Fitness));
      ok := true;
    }

    /**
     * `GenerateChildVoronoi`: draws parents with `SelectParent` until
     * `numParents` distinct ones are chosen (or the draws run out), then
     * assembles, evaluates and numbers the child.
     */
    method GenerateChildVoronoi(numParents: nat, d: ChildDraws, evaluate: Evaluator, ghost cands: seq<Candidate>)
        returns (child: Candidate)
      requires currentGeneration != null && currentGeneration.Normalised() && cands == currentGeneration.candidates[..]
      requires PositiveErrors(evaluate) && UnitDraws(d.parentRnds)
      modifies this`maxID
      ensures maxID == old(maxID) + 1
      ensures child == VoronoiChild(cands, numParents, d, evaluate, old(maxID))
    {
      var gen := currentGeneration;
      ghost var table := gen.fitnessSumForSampling[..];
      var rnds := d.parentRnds;
      var parents: seq<int> := [];
      var i := 0;
      while i < |rnds| && |parents| < numParents
        invariant 0 <= i <= |rnds| && parents == Chosen(table, numParents, rnds[..i]) && maxID == old(maxID)
      {
        var next := gen.SelectParent(rnds[i]);
        PrefixOfPrefix(rnds, i);
        if next.value !in parents {
          parents := parents + [next.value];
        }
        i := i + 1;
      }
      if i == |rnds| {
        assert rnds[..i] == rnds;
      } else {
        ChosenStaysFull(table, numParents, rnds, i);
      }
      assert table == SamplingTable(cands, FitnessSum(cands));
      ChosenInRange(cands, numParents, rnds);
      var circles := ChildFromParents(gen.candidates[..], parents, d);
      assert circles == VoronoiCircles(cands, numParents, d);
      child := Evaluated(circles, evaluate, maxID, numParents);
      maxID := maxID + 1;
    }

    /** The breeding loop of `GenerateNextGeneration`: child `j` goes to slot `j + 3`. */
    method BreedChildren(gen: Generation, draws: seq<ChildDraws>, evaluate: Evaluator) returns (children: seq<Candidate>)
      requires gen == currentGeneration && gen.Normalised() && PositiveErrors(evaluate)
      requires |draws| == NumCandidatesPerGeneration - NumElitesKept
      requires forall j :: 0 <= j < |draws| ==> UnitDraws(draws[j].parentRnds)
      modifies this`maxID
      ensures maxID == old(maxID) + |draws|
      ensures children == Children(gen.candidates[..], draws, evaluate, old(maxID))
    {
      ghost var cands := gen.candidates[..];
      ghost var kids := Children(cands, draws, evaluate, maxID);
      children := [];
      var j := 0;
      while j < |draws|
        invariant 0 <= j <= |draws| && maxID == old(maxID) + j
        invariant currentGeneration == gen && gen.Normalised() && gen.candidates[..] == cands
        invariant children == kids[..j]
      {
        var numParents := ChildParents(j + NumElitesKept);
        var c := GenerateChildVoronoi(numParents, draws[j], evaluate, cands);
        ChildrenGrow(cands, draws, evaluate, old(maxID), j, children);
        children := children + [c];
        j := j + 1;
      }
    }

    /**
     * `GenerateNextGeneration`: the top three are copied, the current
     * generation is normalised, children 3..49 are bred with a parent count
     * rising from two to four, and the new generation is sorted by
     * descending fitness. Returns the previous best fitness.
     */
    method GenerateNextGeneration(draws: seq<ChildDraws>, evaluate: Evaluator) returns (bestFitness: real)
      requires currentGeneration != null && currentGeneration.candidates.Length == NumCandidatesPerGeneration
      requires PositiveFitness(currentGeneration.candidates[..]) && PositiveErrors(evaluate)
      requires |draws| == NumCandidatesPerGeneration - NumElitesKept
      requires forall j :: 0 <= j < |draws| ==> UnitDraws(draws[j].parentRnds)
      modifies this, currentGeneration
      ensures bestFitness == old(currentGeneration.candidates[0].fitness)
      ensures currentGeneration != null && fresh(currentGeneration) && fresh(currentGeneration.candidates)
      ensures !currentGeneration.normalized && maxID == old(maxID) + |draws|
      ensures currentGeneration.candidates[..] == SortDesc(old(currentGeneration.candidates[..NumElitesKept])
        + Children(old(currentGeneration.candidates[..]), draws, evaluate, old(maxID)), Fitness)
      ensures currentGeneration.candidates.Length == NumCandidatesPerGeneration
      ensures PositiveFitness(currentGeneration.candidates[..]) && currentGeneration.candidates[0].fitness >= bestFitness
    {
      var gen := currentGeneration;
      ghost var cands := gen.candidates[..];
      var elites := gen.candidates[..NumElitesKept];
      bestFitness := gen.candidates[0].fitness;
      gen.NormalizeFitness();
      var children := BreedChildren(gen, draws, evaluate);
      ElitismKeepsBest(cands, children);
      var next := new Generation();
      next.candidates := ToArray(SortDesc(elites + children, Fitness));
      currentGeneration := next;
    }
  }
}
