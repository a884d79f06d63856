/** The utilities beside the TSP solvers: checking that a list of cities is a
    tour, and comparing the lengths of two tours. */
module TspChecks {
  import opened Wrappers
  import opened TspInstance
  import opened TspTours

  /** The `ValueError`s `verify_tsp_solution` raises. */
  datatype VerifyError = LengthMismatch | NotEveryCityOnce | DuplicateCities

  /** `verify_tsp_solution`: the length is checked first, then that the set
      of cities is exactly {0, .., n-1}, then that no city repeats. */
  function VerifyTour(inst: TspInstance, tour: seq<nat>): (r: Result<bool, VerifyError>)
    ensures r.Success? <==> IsTour(tour, inst.numCities)
    ensures r.Success? ==> r.value
    ensures r == Failure(LengthMismatch) <==> |tour| != inst.numCities
  {
    var n := inst.numCities;
    if |tour| != n then Failure(LengthMismatch)
    else if Elements(tour) != AllCities(n) then
      TourIffAllCities(tour, n);
      Failure(NotEveryCityOnce)
    else if |Elements(tour)| != |tour| then
      // cannot happen: the set is {0, .., n-1}, of size n = |tour|
      CitiesFacts(n);
      assert false;
      Failure(DuplicateCities)
    else
      TourIffAllCities(tour, n);
      Success(true)
  }

  /** The duplicate check can never fire: a list of n cities whose set is
      {0, .., n-1} has no repeats. */
  lemma DuplicateCheckUnreachable(inst: TspInstance, tour: seq<nat>)
    ensures VerifyTour(inst, tour) != Failure(DuplicateCities)
  {
    var n := inst.numCities;
    if |tour| == n && Elements(tour) == AllCities(n) {
      CitiesFacts(n);
      assert |Elements(tour)| == |tour|;
    }
  }

  /** The figures `calculate_tour_improvement` reports. */
  datatype Improvement = Improvement(
    originalDistance: real,
    improvedDistance: real,
    absoluteImprovement: real,
    relativeImprovementPercent: real,
    isImprovement: bool)

  /** The comparison of two tour lengths; the percentage is 0 when the
      original length is 0. */
  function Compare(original: real, improved: real): Improvement
  {
    var absolute := original - improved;
    var relative := if original > 0.0 then absolute / original * 100.0 else 0.0;
    Improvement(original, improved, absolute, relative, absolute > 0.0)
  }

  /** A shorter tour is an improvement, and then the percentage saved is
      positive and at most 100; otherwise the percentage is not positive. */
  lemma CompareMeaning(original: real, improved: real)
    requires original >= 0.0 && improved >= 0.0
    ensures Compare(original, improved).isImprovement <==> improved < original
    ensures Compare(original, improved).isImprovement <==> Compare(original, improved).relativeImprovementPercent > 0.0
    ensures Compare(original, improved).relativeImprovementPercent <= 100.0
    ensures Compare(original, improved).relativeImprovementPercent == 100.0 <==> original > 0.0 && improved == 0.0
  {
    var c := Compare(original, improved);
    if original > 0.0 {
      var frac := (original - improved) / original;
      assert frac * original == original - improved;
      assert c.relativeImprovementPercent == frac * 100.0;
      if improved < original {
        assert frac > 0.0;
      } else {
        assert frac <= 0.0;
      }
      assert frac <= 1.0;
      assert frac == 1.0 <==> improved == 0.0;
    }
  }

  /** `calculate_tour_improvement`: both lengths are measured with
      `calculate_tour_distance`, whose length error propagates. */
  method CalculateImprovement(inst: TspInstance, originalTour: seq<nat>, improvedTour: seq<nat>)
    returns (r: Result<Improvement, TourError>)
    requires ValidInstance(inst)
    requires |originalTour| == inst.numCities ==> Cities(inst, originalTour)
    requires |improvedTour| == inst.numCities ==> Cities(inst, improvedTour)
    ensures r.Failure? <==> |originalTour| != inst.numCities || |improvedTour| != inst.numCities
    ensures r.Success? ==> r.value == Compare(TourDistance(inst, originalTour), TourDistance(inst, improvedTour))
  {
    var original := CalculateTourDistance(inst, originalTour);
    if original.Failure? {
      return Failure(original.error);
    }
    var improved := CalculateTourDistance(inst, improvedTour);
    if improved.Failure? {
      return Failure(improved.error);
    }
    return Success(Compare(original.value, improved.value));
  }
}
