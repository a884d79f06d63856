/** The exhaustive TSP solver: city 0 is fixed first and every arrangement of
    the other cities is tried, in `itertools.permutations` order. */
module TspBruteForce {
  import opened Wrappers
  import opened TspInstance
  import opened TspTours

  /** `best_distance` is None where the solver reports infinity. */
  datatype BruteForceResult = BruteForceResult(
    tourFound: bool,
    bestTour: Option<seq<nat>>,
    bestDistance: Option<real>,
    toursTried: nat)

  /** The tours the solver enumerates: 0 followed by each arrangement of
      1 .. n-1. */
  function Candidates(n: nat): (r: seq<seq<nat>>)
    requires n >= 1
    ensures |r| == Factorial(n - 1)
    ensures forall k :: 0 <= k < |r| ==> IsTour(r[k], n) && r[k][0] == 0
  {
    var ps := Perms(Range(1, n));
    PermsCount(Range(1, n));
    PermsSound(Range(1, n));
    var r := Prepend(0, ps);
    assert forall k :: 0 <= k < |r| ==> IsTour(r[k], n) && r[k][0] == 0 by {
      forall k | 0 <= k < |r|
        ensures IsTour(r[k], n) && r[k][0] == 0
      {
        assert ps[k] in ps;
        TourFromZero(ps[k], n);
      }
    }
    r
  }

  /** Every tour that starts at city 0 is a candidate. */
  lemma CandidatesComplete(t: seq<nat>, n: nat)
    requires n >= 1 && IsTour(t, n) && t[0] == 0
    ensures t in Candidates(n)
  {
    var p := t[1..];
    assert t == [0] + p;
    TourFromZero(p, n);
    PermsComplete(Range(1, n), p);
    var k :| 0 <= k < |Perms(Range(1, n))| && Perms(Range(1, n))[k] == p;
    assert Candidates(n)[k] == t;
  }

  /** Rotating a tour keeps it a tour. */
  lemma RotatedTour(t: seq<nat>, n: nat, k: nat)
    requires IsTour(t, n) && k <= |t|
    ensures IsTour(t[k..] + t[..k], n)
  {
    assert t == t[..k] + t[k..];
    assert multiset(t[k..] + t[..k]) == multiset(t);
    RearrangedTour(t[k..] + t[..k], t, n);
  }

  /** A distance no longer than every candidate is no longer than every tour:
      each tour can be rotated to start at city 0 without changing its length. */
  lemma CandidatesSuffice(inst: TspInstance, best: real)
    requires ValidInstance(inst) && inst.numCities >= 1
    requires forall k :: 0 <= k < |Candidates(inst.numCities)| ==>
      TourDistance(inst, Candidates(inst.numCities)[k]) >= best
    ensures forall t :: IsTour(t, inst.numCities) ==> TourDistance(inst, t) >= best
  {
    var n := inst.numCities;
    forall t | IsTour(t, n)
      ensures TourDistance(inst, t) >= best
    {
      TourIffAllCities(t, n);
      CitiesFacts(n);
      assert 0 in Elements(t);
      var z :| 0 <= z < |t| && t[z] == 0;
      var rotated := t[z..] + t[..z];
      RotationKeepsDistance(inst, t, z);
      RotatedTour(t, n, z);
      CandidatesComplete(rotated, n);
      var k :| 0 <= k < |Candidates(n)| && Candidates(n)[k] == rotated;
    }
  }

  /** After measuring the first `k` candidates, the `b`-th is the first of
      the shortest ones so far and `d` is its length. */
  ghost predicate BestCandidateSoFar(inst: TspInstance, cs: seq<seq<nat>>, k: nat, b: nat, d: real)
    requires ValidInstance(inst) && k <= |cs|
    requires forall j :: 0 <= j < |cs| ==> Cities(inst, cs[j])
  {
    && b < k && d == TourDistance(inst, cs[b])
    && (forall j :: 0 <= j < k ==> TourDistance(inst, cs[j]) >= d)
    && (forall j :: 0 <= j < b ==> TourDistance(inst, cs[j]) > d)
  }

  /** Measuring candidate `k` either makes it the new best (it is the first
      one or strictly shorter) or keeps the best so far. */
  lemma BestCandidateStep(inst: TspInstance, cs: seq<seq<nat>>, k: nat, b: nat, d: real)
    requires ValidInstance(inst) && k < |cs|
    requires forall j :: 0 <= j < |cs| ==> Cities(inst, cs[j])
    requires k > 0 ==> BestCandidateSoFar(inst, cs, k, b, d)
    ensures k == 0 || TourDistance(inst, cs[k]) < d ==>
      BestCandidateSoFar(inst, cs, k + 1, k, TourDistance(inst, cs[k]))
    ensures k > 0 && TourDistance(inst, cs[k]) >= d ==> BestCandidateSoFar(inst, cs, k + 1, b, d)
  {
  }

  /** `TSPBruteForce.solve`. Fewer than two cities: no tour. Two cities: the
      tour [0, 1]. Otherwise every candidate is measured; a candidate replaces
      the best so far only when strictly shorter, so the first shortest one in
      enumeration order is kept. */
  method SolveBruteForce(inst: TspInstance) returns (r: BruteForceResult)
    requires ValidInstance(inst)
    ensures inst.numCities < 2 ==> r == BruteForceResult(false, None, None, 0)
    ensures inst.numCities == 2 ==>
      r == BruteForceResult(true, Some([0, 1]), Some(TourDistance(inst, [0, 1])), 1)
    ensures inst.numCities >= 3 ==>
      && r.tourFound && r.bestTour.Some? && r.bestDistance.Some?
      && r.toursTried == Factorial(inst.numCities - 1)
      && IsTour(r.bestTour.value, inst.numCities) && r.bestTour.value[0] == 0
      && r.bestDistance.value == TourDistance(inst, r.bestTour.value)
      && (exists k :: 0 <= k < |Candidates(inst.numCities)| && r.bestTour.value == Candidates(inst.numCities)[k]
            && forall k' :: 0 <= k' < k ==> TourDistance(inst, Candidates(inst.numCities)[k']) > r.bestDistance.value)
    ensures r.tourFound ==> forall t :: IsTour(t, inst.numCities) ==>
      TourDistance(inst, t) >= r.bestDistance.value
  {
    var n := inst.numCities;
    if n < 2 {
      return BruteForceResult(false, None, None, 0);
    }
    if n == 2 {
      var tour: seq<nat> := [0, 1];
      var d := CalculateTourDistance(inst, tour);
      TwoCityOptimal(inst);
      return BruteForceResult(true, Some(tour), Some(d.value), 1);
    }
    var candidates := Candidates(n);
    var bestTour: Option<seq<nat>> := None;
    var bestDistance: Option<real> := None;
    var toursTried := 0;
    ghost var bestIndex := 0;
    assert forall j :: 0 <= j < |candidates| ==> Cities(inst, candidates[j]);
    for k := 0 to |candidates|
      invariant toursTried == k
      invariant bestDistance.None? <==> k == 0
      invariant bestTour.None? <==> k == 0
      invariant k > 0 ==> bestIndex < k && bestTour == Some(candidates[bestIndex])
      invariant k > 0 ==> BestCandidateSoFar(inst, candidates, k, bestIndex, bestDistance.value)
    {
      toursTried := toursTried + 1;
      var tour := candidates[k];
      var d := CalculateTourDistance(inst, tour);
      BestCandidateStep(inst, candidates, k, bestIndex, if k == 0 then 0.0 else bestDistance.value);
      if bestDistance.None? || d.value < bestDistance.value {
        bestDistance := Some(d.value);
        bestTour := Some(tour);
        bestIndex := k;
      }
    }
    CandidatesSuffice(inst, bestDistance.value);
    return BruteForceResult(true, bestTour, bestDistance, toursTried);
  }

  /** With two cities the tour [0, 1] is as short as any. */
  lemma TwoCityOptimal(inst: TspInstance)
    requires ValidInstance(inst) && inst.numCities == 2
    ensures IsTour([0, 1], 2)
    ensures forall t :: IsTour(t, 2) ==> TourDistance(inst, t) >= TourDistance(inst, [0, 1])
  {
    assert IsTour([0, 1], 2);
    TwoCitySingleCandidate();
    CandidatesSuffice(inst, TourDistance(inst, [0, 1]));
  }

  /** With two cities, [0, 1] is the only tour that starts at city 0. */
  lemma TwoCitySingleCandidate()
    ensures Candidates(2) == [[0, 1]]
  {
    assert Range(1, 2) == [1];
    assert RemoveAt([1], 0) == [];
    assert PermsFrom([1], 1) == [];
    assert [1] + [] == [1];
    assert Prepend(1, [[]])[0] == [1];
    assert Prepend(1, [[]]) == [[1]];
    assert PermsFrom([1], 0) == [[1]];
    assert Prepend(0, [[1]])[0] == [0, 1];
    assert Prepend(0, [[1]]) == [[0, 1]];
  }
}
