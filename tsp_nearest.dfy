/** The nearest-neighbour TSP heuristic: from a start city, repeatedly move to
    the closest city not yet visited, then return to the start; the solver
    tries every start city and keeps the first shortest tour. */
module TspNearestNeighbor {
  import opened Wrappers
  import opened TspInstance
  import opened TspTours

  /** c is an unvisited city below k, no farther from `from` than any other
      unvisited city below k, and strictly nearer than every unvisited city
      with a lower number. */
  predicate NearestAmong(inst: TspInstance, from: nat, visited: seq<nat>, k: nat, c: nat)
    requires ValidInstance(inst) && from < inst.numCities && k <= inst.numCities
  {
    && c < k && c !in visited
    && (forall c': nat :: c' < k && c' !in visited ==>
          GetDistance(inst, from, c) <= GetDistance(inst, from, c'))
    && (forall c': nat :: c' < c && c' !in visited ==>
          GetDistance(inst, from, c) < GetDistance(inst, from, c'))
  }

  predicate AllVisitedBelow(visited: seq<nat>, k: nat)
  {
    forall c: nat :: c < k ==> c in visited
  }

  /** The unvisited city nearest to `from` among the cities below k, or None
      when all of them are visited. Candidates are scanned in increasing
      order and only a strictly shorter distance replaces the best so far,
      so ties go to the lowest-numbered city. */
  function NearestBelow(inst: TspInstance, from: nat, visited: seq<nat>, k: nat): (r: Option<nat>)
    requires ValidInstance(inst) && from < inst.numCities && k <= inst.numCities
    ensures r.Some? ==> r.value < k && r.value !in visited
    decreases k
  {
    if k == 0 then None
    else
      var best := NearestBelow(inst, from, visited, k - 1);
      var c := k - 1;
      if c !in visited && (best.None? || GetDistance(inst, from, c) < GetDistance(inst, from, best.value))
      then Some(c)
      else best
  }

  /** The scan finds nothing exactly when every city below k is visited, and
      what it finds is the first nearest unvisited city. */
  lemma {:induction false} NearestBelowMeaning(inst: TspInstance, from: nat, visited: seq<nat>, k: nat)
    requires ValidInstance(inst) && from < inst.numCities && k <= inst.numCities
    ensures NearestBelow(inst, from, visited, k).None? <==> AllVisitedBelow(visited, k)
    ensures NearestBelow(inst, from, visited, k).Some? ==>
      NearestAmong(inst, from, visited, k, NearestBelow(inst, from, visited, k).value)
  {
    if k > 0 {
      NearestBelowMeaning(inst, from, visited, k - 1);
    }
  }

  /** Nearest and first among the nearest leaves no choice. */
  lemma NearestIsUnique(inst: TspInstance, from: nat, visited: seq<nat>, k: nat, a: nat, b: nat)
    requires ValidInstance(inst) && from < inst.numCities && k <= inst.numCities
    requires NearestAmong(inst, from, visited, k, a) && NearestAmong(inst, from, visited, k, b)
    ensures a == b
  {
  }

  /** A sequence of distinct cities has at most n entries. */
  lemma DistinctBound(t: seq<nat>, n: nat)
    requires Distinct(t) && forall k :: 0 <= k < |t| ==> t[k] < n
    ensures |t| <= n
  {
    ElementsCount(t);
    CitiesFacts(n);
    SubsetSize(Elements(t), AllCities(n));
  }

  /** A sequence of distinct cities that visits every city has n entries. */
  lemma AllVisitedIsFull(t: seq<nat>, n: nat)
    requires Distinct(t) && forall k :: 0 <= k < |t| ==> t[k] < n
    requires AllVisitedBelow(t, n)
    ensures |t| == n
  {
    DistinctBound(t, n);
    ElementsCount(t);
    CitiesFacts(n);
    forall c: nat | c in AllCities(n)
      ensures c in Elements(t)
    {
      assert c in t;
    }
    SubsetSize(AllCities(n), Elements(t));
  }

  /** Continues a partial greedy tour until every city is visited. */
  function GreedyExtend(inst: TspInstance, tour: seq<nat>): (r: seq<nat>)
    requires ValidInstance(inst) && tour != [] && Distinct(tour)
    requires forall k :: 0 <= k < |tour| ==> tour[k] < inst.numCities
    ensures IsTour(r, inst.numCities)
    ensures |tour| <= |r| && r[..|tour|] == tour
    decreases inst.numCities - |tour|
  {
    DistinctBound(tour, inst.numCities);
    var next := NearestBelow(inst, tour[|tour| - 1], tour, inst.numCities);
    if next.None? then
      NearestBelowMeaning(inst, tour[|tour| - 1], tour, inst.numCities);
      AllVisitedIsFull(tour, inst.numCities);
      tour
    else
      var longer := tour + [next.value];
      DistinctBound(longer, inst.numCities);
      var r := GreedyExtend(inst, longer);
      assert r[..|tour|] == longer[..|tour|];
      r
  }

  /** When the scan finds nothing, the prefix is already complete. */
  lemma GreedyExtendDone(inst: TspInstance, tour: seq<nat>)
    requires ValidInstance(inst) && tour != [] && Distinct(tour)
    requires forall k :: 0 <= k < |tour| ==> tour[k] < inst.numCities
    requires NearestBelow(inst, tour[|tour| - 1], tour, inst.numCities).None?
    ensures GreedyExtend(inst, tour) == tour
  {
  }

  /** When the scan finds c, extending the prefix continues from prefix + [c]. */
  lemma GreedyExtendNext(inst: TspInstance, tour: seq<nat>, c: nat)
    requires ValidInstance(inst) && tour != [] && Distinct(tour)
    requires forall k :: 0 <= k < |tour| ==> tour[k] < inst.numCities
    requires NearestBelow(inst, tour[|tour| - 1], tour, inst.numCities) == Some(c)
    ensures Distinct(tour + [c]) && forall k :: 0 <= k < |tour| + 1 ==> (tour + [c])[k] < inst.numCities
    ensures GreedyExtend(inst, tour) == GreedyExtend(inst, tour + [c])
  {
  }

  /** The tour the heuristic builds from `start`. */
  function NearestTour(inst: TspInstance, start: nat): (r: seq<nat>)
    requires ValidInstance(inst) && start < inst.numCities
    ensures IsTour(r, inst.numCities) && r[0] == start
  {
    var r := GreedyExtend(inst, [start]);
    assert r[..1] == [start];
    r
  }

  /** City k of t is, among the cities t[..k] has not visited, the nearest to
      city k - 1, and the lowest-numbered such city. */
  predicate GreedyStep(inst: TspInstance, t: seq<nat>, k: nat)
    requires ValidInstance(inst) && IsTour(t, inst.numCities) && 1 <= k < |t|
  {
    NearestAmong(inst, t[k - 1], t[..k], inst.numCities, t[k])
  }

  predicate IsGreedyTour(inst: TspInstance, t: seq<nat>)
    requires ValidInstance(inst) && IsTour(t, inst.numCities)
  {
    forall k :: 1 <= k < |t| ==> GreedyStep(inst, t, k)
  }

  /** Every step taken while extending a prefix is greedy. */
  lemma {:induction false} GreedyExtendSteps(inst: TspInstance, tour: seq<nat>)
    requires ValidInstance(inst) && tour != [] && Distinct(tour)
    requires forall k :: 0 <= k < |tour| ==> tour[k] < inst.numCities
    ensures forall k :: |tour| <= k < inst.numCities ==> GreedyStep(inst, GreedyExtend(inst, tour), k)
    decreases inst.numCities - |tour|
  {
    var n := inst.numCities;
    var k := |tour|;
    var next := NearestBelow(inst, tour[k - 1], tour, n);
    NearestBelowMeaning(inst, tour[k - 1], tour, n);
    if next.None? {
      AllVisitedIsFull(tour, n);
    } else {
      var c := next.value;
      var longer := tour + [c];
      GreedyExtendNext(inst, tour, c);
      GreedyExtendSteps(inst, longer);
      var r := GreedyExtend(inst, longer);
      assert r[..k] == longer[..k] == tour;
      assert r[k - 1] == tour[k - 1] && r[k] == c;
      assert GreedyStep(inst, r, k);
    }
  }

  /** The tour from `start` is greedy at every step. */
  lemma NearestTourIsGreedy(inst: TspInstance, start: nat)
    requires ValidInstance(inst) && start < inst.numCities
    ensures IsGreedyTour(inst, NearestTour(inst, start))
  {
    GreedyExtendSteps(inst, [start]);
  }

  /** The greedy rule leaves no choice: a greedy tour from `start` is the one
      the heuristic builds. */
  lemma GreedyTourUnique(inst: TspInstance, t: seq<nat>)
    requires ValidInstance(inst) && IsTour(t, inst.numCities) && |t| >= 1
    requires IsGreedyTour(inst, t)
    ensures t == NearestTour(inst, t[0])
  {
    var u := NearestTour(inst, t[0]);
    NearestTourIsGreedy(inst, t[0]);
    GreedyToursAgree(inst, t, u, |t|);
    assert t == t[..|t|] && u == u[..|u|];
  }

  /** Two greedy tours from the same city agree on every prefix. */
  lemma {:induction false} GreedyToursAgree(inst: TspInstance, t: seq<nat>, u: seq<nat>, k: nat)
    requires ValidInstance(inst) && IsTour(t, inst.numCities) && IsTour(u, inst.numCities)
    requires IsGreedyTour(inst, t) && IsGreedyTour(inst, u)
    requires 1 <= k <= |t| && t[0] == u[0]
    ensures t[..k] == u[..k]
    decreases k
  {
    if k == 1 {
      assert t[..1] == [t[0]] && u[..1] == [u[0]];
    } else {
      var j := k - 1;
      GreedyToursAgree(inst, t, u, j);
      assert GreedyStep(inst, t, j) && GreedyStep(inst, u, j);
      assert t[j - 1] == t[..j][j - 1] == u[..j][j - 1] == u[j - 1];
      NearestIsUnique(inst, t[j - 1], t[..j], inst.numCities, t[j], u[j]);
      assert t[..k] == t[..j] + [t[j]] && u[..k] == u[..j] + [u[j]];
    }
  }

  /** 0 + 1 + ... + u. */
  function Triangle(u: nat): nat
  {
    if u == 0 then 0 else Triangle(u - 1) + u
  }

  lemma {:induction false} TriangleClosedForm(u: nat)
    ensures 2 * Triangle(u) == u * (u + 1)
  {
    if u > 0 {
      TriangleClosedForm(u - 1);
    }
  }

  /** The lookups one run of the heuristic makes over n cities: one per
      unvisited city at every step, plus the edge back, n(n-1)/2 + 1. */
  function LookupsPerRun(n: nat): nat
    requires n >= 1
  {
    Triangle(n - 1) + 1
  }

  lemma LookupsPerRunClosedForm(n: nat)
    requires n >= 1
    ensures 2 * LookupsPerRun(n) == n * (n - 1) + 2
  {
    TriangleClosedForm(n - 1);
  }

  /** The state of a run from `start` between steps: the cities visited so
      far, in order, with `unvisited` holding exactly the others, on the way
      to the greedy tour. */
  ghost predicate RunState(inst: TspInstance, start: nat, tour: seq<nat>, unvisited: set<nat>)
    requires ValidInstance(inst) && start < inst.numCities
  {
    && tour != [] && tour[0] == start
    && Distinct(tour) && (forall k :: 0 <= k < |tour| ==> tour[k] < inst.numCities)
    && (forall c: nat :: c in unvisited <==> c < inst.numCities && c !in tour)
    && |unvisited| + |tour| == inst.numCities
    && GreedyExtend(inst, tour) == NearestTour(inst, start)
  }

  /** Moving to the nearest unvisited city keeps the run on course. */
  lemma AdvanceRun(inst: TspInstance, start: nat, tour: seq<nat>, unvisited: set<nat>, c: nat)
    requires ValidInstance(inst) && start < inst.numCities
    requires RunState(inst, start, tour, unvisited)
    requires NearestBelow(inst, tour[|tour| - 1], tour, inst.numCities) == Some(c)
    ensures RunState(inst, start, tour + [c], unvisited - {c})
    ensures |unvisited - {c}| == |unvisited| - 1
  {
    DistinctBound(tour, inst.numCities);
    assert c in unvisited;
  }

  /** A run that has visited every city holds the greedy tour. */
  lemma FinishedRun(inst: TspInstance, start: nat, tour: seq<nat>)
    requires ValidInstance(inst) && start < inst.numCities
    requires RunState(inst, start, tour, {})
    ensures tour == NearestTour(inst, start)
  {
    var next := NearestBelow(inst, tour[|tour| - 1], tour, inst.numCities);
    NearestBelowMeaning(inst, tour[|tour| - 1], tour, inst.numCities);
    assert AllVisitedBelow(tour, inst.numCities) by {
      forall c: nat | c < inst.numCities
        ensures c in tour
      {
        assert c !in {};
      }
    }
  }

  /** A run starts with only `start` visited. */
  lemma StartRun(inst: TspInstance, start: nat)
    requires ValidInstance(inst) && start < inst.numCities
    ensures RunState(inst, start, [start], AllCities(inst.numCities) - {start})
  {
    CitiesFacts(inst.numCities);
  }

  /** `_nearest_neighbor_from_city`: builds the greedy tour from `start`,
      adding up the distances of the edges taken and the edge back to
      `start`, and counting every distance looked up. */
  method NearestFromCity(inst: TspInstance, start: nat) returns (tour: seq<nat>, total: real, calculations: nat)
    requires ValidInstance(inst) && start < inst.numCities
    ensures tour == NearestTour(inst, start)
    ensures total == TourDistance(inst, tour)
    ensures calculations == LookupsPerRun(inst.numCities)
  {
    tour, total, calculations := BuildGreedyPath(inst, start);
    var returnDistance := GetDistance(inst, tour[|tour| - 1], start);
    calculations := calculations + 1;
    total := total + returnDistance;
  }

  /** The `while unvisited` loop: visits the nearest unvisited city until
      none is left, adding up the edges taken and the lookups made. */
  method BuildGreedyPath(inst: TspInstance, start: nat) returns (tour: seq<nat>, total: real, calculations: nat)
    requires ValidInstance(inst) && start < inst.numCities
    ensures tour == NearestTour(inst, start)
    ensures total == PathLength(inst, tour)
    ensures calculations == Triangle(inst.numCities - 1)
  {
    var n := inst.numCities;
    StartRun(inst, start);
    var unvisited := AllCities(n) - {start};
    tour := [start];
    total := 0.0;
    calculations := 0;
    while unvisited != {}
      invariant RunState(inst, start, tour, unvisited)
      invariant total == PathLength(inst, tour)
      invariant calculations + Triangle(|unvisited|) == Triangle(n - 1)
      decreases |unvisited|
    {
      tour, unvisited, total, calculations := VisitNearest(inst, start, tour, unvisited, total, calculations);
    }
    FinishedRun(inst, start, tour);
  }

  /** One step of the outer loop: finds the nearest unvisited city, moves
      there, and adds the edge's length and the lookups made. */
  method VisitNearest(inst: TspInstance, start: nat, tour: seq<nat>, unvisited: set<nat>, total: real, calculations: nat)
    returns (tour': seq<nat>, unvisited': set<nat>, total': real, calculations': nat)
    requires ValidInstance(inst) && start < inst.numCities
    requires RunState(inst, start, tour, unvisited) && unvisited != {}
    requires total == PathLength(inst, tour)
    ensures RunState(inst, start, tour', unvisited')
    ensures |unvisited'| == |unvisited| - 1
    ensures total' == PathLength(inst, tour')
    ensures calculations' + Triangle(|unvisited'|) == calculations + Triangle(|unvisited|)
  {
    var current := tour[|tour| - 1];
    var nearest, nearestDistance, scanned := ScanUnvisited(inst, current, tour, unvisited);
    AdvanceRun(inst, start, tour, unvisited, nearest);
    PathLengthSnoc(inst, tour, nearest);
    assert Triangle(|unvisited|) == Triangle(|unvisited| - 1) + |unvisited|;
    tour' := tour + [nearest];
    unvisited' := unvisited - {nearest};
    total' := total + nearestDistance;
    calculations' := calculations + scanned;
  }

  /** One pass of the inner loop: looks up the distance from `current` to
      every unvisited city, in increasing order, keeping the first nearest. */
  method ScanUnvisited(inst: TspInstance, current: nat, tour: seq<nat>, unvisited: set<nat>)
    returns (nearest: nat, nearestDistance: real, calculations: nat)
    requires ValidInstance(inst) && current < inst.numCities
    requires forall c: nat :: c in unvisited <==> c < inst.numCities && c !in tour
    requires unvisited != {}
    ensures NearestBelow(inst, current, tour, inst.numCities) == Some(nearest)
    ensures nearestDistance == GetDistance(inst, current, nearest)
    ensures calculations == |unvisited|
  {
    var n := inst.numCities;
    var best: Option<nat> := None;
    var bestDistance: Option<real> := None;
    calculations := 0;
    ghost var scanned: set<nat> := {};
    for city := 0 to n
      invariant best == NearestBelow(inst, current, tour, city)
      invariant best.Some? ==> bestDistance == Some(GetDistance(inst, current, best.value))
      invariant best.None? ==> bestDistance.None?
      invariant scanned == set c | c in unvisited && c < city
      invariant calculations == |scanned|
    {
      if city in unvisited {
        var distance := GetDistance(inst, current, city);
        calculations := calculations + 1;
        if bestDistance.None? || distance < bestDistance.value {
          bestDistance := Some(distance);
          best := Some(city);
        }
        assert city !in scanned;
        scanned := scanned + {city};
      }
    }
    assert scanned == unvisited;
    var c :| c in unvisited;
    NearestBelowMeaning(inst, current, tour, n);
    assert !AllVisitedBelow(tour, n) by {
      assert c < n && c !in tour;
    }
    nearest := best.value;
    nearestDistance := bestDistance.value;
  }

  /** The length of the greedy tour from `start`. */
  function NearestDistance(inst: TspInstance, start: nat): real
    requires ValidInstance(inst) && start < inst.numCities
  {
    TourDistance(inst, NearestTour(inst, start))
  }

  /** Among the starts below `upTo`, `s0` gives the shortest tour, of length
      d, and every earlier start a strictly longer one. */
  predicate FirstShortest(inst: TspInstance, upTo: nat, s0: nat, d: real)
    requires ValidInstance(inst) && upTo <= inst.numCities
  {
    && s0 < upTo && d == NearestDistance(inst, s0)
    && (forall s :: 0 <= s < upTo ==> NearestDistance(inst, s) >= d)
    && (forall s :: 0 <= s < s0 ==> NearestDistance(inst, s) > d)
  }

  /** Start `upTo` takes the lead when it is the first or strictly shorter,
      and otherwise the leader stays. */
  lemma FirstShortestStep(inst: TspInstance, upTo: nat, s0: nat, d: real, first: bool)
    requires ValidInstance(inst) && upTo < inst.numCities
    requires first ==> upTo == 0
    requires !first ==> FirstShortest(inst, upTo, s0, d)
    ensures first || NearestDistance(inst, upTo) < d ==>
      FirstShortest(inst, upTo + 1, upTo, NearestDistance(inst, upTo))
    ensures !first && NearestDistance(inst, upTo) >= d ==> FirstShortest(inst, upTo + 1, s0, d)
  {
  }

  /** The loop of `TSPNearestNeighbor.solve` over the start cities 0 .. n-1:
      the first start whose tour is strictly shortest wins, and the lookups
      of all runs are added up. */
  method BestStart(inst: TspInstance) returns (bestStartingCity: nat, bestTour: seq<nat>, bestDistance: real, calculations: nat)
    requires ValidInstance(inst) && inst.numCities >= 1
    ensures bestStartingCity < inst.numCities
    ensures bestTour == NearestTour(inst, bestStartingCity)
    ensures bestDistance == NearestDistance(inst, bestStartingCity)
    ensures forall s :: 0 <= s < inst.numCities ==> NearestDistance(inst, s) >= bestDistance
    ensures forall s :: 0 <= s < bestStartingCity ==> NearestDistance(inst, s) > bestDistance
    ensures calculations == inst.numCities * LookupsPerRun(inst.numCities)
  {
    var n := inst.numCities;
    var best: Option<real> := None;
    bestTour := [];
    bestStartingCity := 0;
    calculations := 0;
    var perStart := LookupsPerRun(n);
    for start := 0 to n
      invariant best.None? <==> start == 0
      invariant best.Some? ==> FirstShortest(inst, start, bestStartingCity, best.value)
      invariant best.Some? ==> bestTour == NearestTour(inst, bestStartingCity)
      invariant calculations == start * perStart
    {
      var tour, distance, runCalculations := NearestFromCity(inst, start);
      OneMoreTimes(start + 1, perStart);
      FirstShortestStep(inst, start, bestStartingCity, if best.Some? then best.value else 0.0, best.None?);
      calculations := calculations + runCalculations;
      if best.None? || distance < best.value {
        best := Some(distance);
        bestTour := tour;
        bestStartingCity := start;
      }
    }
    bestDistance := best.value;
  }

  datatype NearestResult = NearestResult(
    tourFound: bool,
    bestTour: Option<seq<nat>>,
    bestDistance: Option<real>,
    startingCity: Option<nat>,
    distanceCalculations: nat)

  /** `TSPNearestNeighbor.solve`. Fewer than two cities: no tour. Two cities:
      the tour [0, 1] with two lookups. Otherwise the best of the greedy
      tours from every start city. */
  method SolveNearestNeighbor(inst: TspInstance) returns (r: NearestResult)
    requires ValidInstance(inst)
    ensures inst.numCities < 2 ==> r == NearestResult(false, None, None, None, 0)
    ensures inst.numCities == 2 ==>
      r == NearestResult(true, Some([0, 1]), Some(TourDistance(inst, [0, 1])), Some(0), 2)
    ensures inst.numCities >= 3 ==>
      && r.tourFound && r.bestTour.Some? && r.bestDistance.Some? && r.startingCity.Some?
      && r.startingCity.value < inst.numCities
      && r.bestTour.value == NearestTour(inst, r.startingCity.value)
      && r.bestDistance.value == NearestDistance(inst, r.startingCity.value)
      && (forall s :: 0 <= s < inst.numCities ==> NearestDistance(inst, s) >= r.bestDistance.value)
      && (forall s :: 0 <= s < r.startingCity.value ==> NearestDistance(inst, s) > r.bestDistance.value)
      && r.distanceCalculations == inst.numCities * LookupsPerRun(inst.numCities)
    ensures r.tourFound ==> IsTour(r.bestTour.value, inst.numCities)
    ensures r.tourFound ==> r.bestDistance == Some(TourDistance(inst, r.bestTour.value))
  {
    var n := inst.numCities;
    if n < 2 {
      return NearestResult(false, None, None, None, 0);
    }
    if n == 2 {
      var tour: seq<nat> := [0, 1];
      var d := CalculateTourDistance(inst, tour);
      return NearestResult(true, Some(tour), Some(d.value), Some(0), 2);
    }
    var start, tour, distance, calculations := BestStart(inst);
    return NearestResult(true, Some(tour), Some(distance), Some(start), calculations);
  }
}
