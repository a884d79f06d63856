/** A TSP instance: a number of cities and a matrix of distances between
    them; the length of a closed tour; and the validator that reports which
    properties a distance matrix has. */
module TspInstance {
  import opened Wrappers

  datatype TspInstance = TspInstance(numCities: nat, distanceMatrix: seq<seq<real>>)

  /** The matrix is numCities x numCities with non-negative entries. */
  predicate ValidInstance(inst: TspInstance)
  {
    && |inst.distanceMatrix| == inst.numCities
    && (forall r :: 0 <= r < inst.numCities ==> |inst.distanceMatrix[r]| == inst.numCities)
    && (forall r, c :: 0 <= r < inst.numCities && 0 <= c < inst.numCities ==> inst.distanceMatrix[r][c] >= 0.0)
  }

  /** Going from a to b costs as much as going from b to a. */
  predicate Symmetric(inst: TspInstance)
    requires ValidInstance(inst)
  {
    forall a, b :: 0 <= a < inst.numCities && 0 <= b < inst.numCities ==>
      inst.distanceMatrix[a][b] == inst.distanceMatrix[b][a]
  }

  /** Every entry of the sequence names a city. */
  predicate Cities(inst: TspInstance, t: seq<nat>)
  {
    forall k :: 0 <= k < |t| ==> t[k] < inst.numCities
  }

  /** The distance from city c1 to city c2. */
  function GetDistance(inst: TspInstance, c1: nat, c2: nat): (r: real)
    requires ValidInstance(inst)
    requires c1 < inst.numCities && c2 < inst.numCities
    ensures r >= 0.0
    ensures Symmetric(inst) ==> r == inst.distanceMatrix[c2][c1]
  {
    inst.distanceMatrix[c1][c2]
  }

  /** The length of the open path through the cities of s, in order. */
  function PathLength(inst: TspInstance, s: seq<nat>): (r: real)
    requires ValidInstance(inst) && Cities(inst, s)
    ensures r >= 0.0
  {
    if |s| <= 1 then 0.0
    else PathLength(inst, s[..|s| - 1]) + GetDistance(inst, s[|s| - 2], s[|s| - 1])
  }

  /** The length of the closed tour: the path plus the edge back to the
      first city. The empty tour has length 0. */
  function TourDistance(inst: TspInstance, t: seq<nat>): (r: real)
    requires ValidInstance(inst) && Cities(inst, t)
    ensures r >= 0.0
  {
    if t == [] then 0.0 else PathLength(inst, t) + GetDistance(inst, t[|t| - 1], t[0])
  }

  /** Appending one city adds one edge. */
  lemma PathLengthSnoc(inst: TspInstance, s: seq<nat>, x: nat)
    requires ValidInstance(inst) && Cities(inst, s) && x < inst.numCities && s != []
    ensures PathLength(inst, s + [x]) == PathLength(inst, s) + GetDistance(inst, s[|s| - 1], x)
  {
    assert (s + [x])[..|s|] == s;
  }

  /** Joining two paths adds the edge between them. */
  lemma {:induction false} PathLengthConcat(inst: TspInstance, a: seq<nat>, b: seq<nat>)
    requires ValidInstance(inst) && Cities(inst, a) && Cities(inst, b)
    requires a != [] && b != []
    ensures PathLength(inst, a + b) ==
      PathLength(inst, a) + GetDistance(inst, a[|a| - 1], b[0]) + PathLength(inst, b)
  {
    if |b| == 1 {
      assert a + b == a + [b[0]];
      PathLengthSnoc(inst, a, b[0]);
    } else {
      var init := b[..|b| - 1];
      PathLengthConcat(inst, a, init);
      assert a + b == (a + init) + [b[|b| - 1]];
      PathLengthSnoc(inst, a + init, b[|b| - 1]);
      assert (a + init)[|a + init| - 1] == b[|b| - 2];
    }
  }

  /** The sequence read backwards. */
  function Reverse(s: seq<nat>): (r: seq<nat>)
    ensures |r| == |s|
    ensures forall k :: 0 <= k < |s| ==> r[k] == s[|s| - 1 - k]
  {
    if s == [] then [] else [s[|s| - 1]] + Reverse(s[..|s| - 1])
  }

  /** On a symmetric matrix a path is as long backwards as forwards. */
  lemma {:induction false} PathLengthReverse(inst: TspInstance, s: seq<nat>)
    requires ValidInstance(inst) && Symmetric(inst) && Cities(inst, s)
    ensures Cities(inst, Reverse(s))
    ensures PathLength(inst, Reverse(s)) == PathLength(inst, s)
  {
    if |s| > 1 {
      var init := s[..|s| - 1];
      PathLengthReverse(inst, init);
      var r := Reverse(init);
      assert Reverse(s) == [s[|s| - 1]] + r;
      PathLengthConcat(inst, [s[|s| - 1]], r);
      assert PathLength(inst, [s[|s| - 1]]) == 0.0;
    }
  }

  /** A tour is as long from whichever of its cities it is read. */
  lemma RotationKeepsDistance(inst: TspInstance, t: seq<nat>, k: nat)
    requires ValidInstance(inst) && Cities(inst, t)
    requires k <= |t|
    ensures Cities(inst, t[k..] + t[..k])
    ensures TourDistance(inst, t[k..] + t[..k]) == TourDistance(inst, t)
  {
    if 0 < k < |t| {
      var a, b := t[..k], t[k..];
      assert t == a + b && t[k..] + t[..k] == b + a;
      PathLengthConcat(inst, a, b);
      PathLengthConcat(inst, b, a);
      assert (a + b)[|a + b| - 1] == b[|b| - 1] && (a + b)[0] == a[0];
      assert (b + a)[|b + a| - 1] == a[|a| - 1] && (b + a)[0] == b[0];
    } else {
      assert t[k..] + t[..k] == t;
    }
  }

  /** The two-city tour goes there and back. */
  lemma TwoCityTour(inst: TspInstance)
    requires ValidInstance(inst) && inst.numCities == 2
    ensures TourDistance(inst, [0, 1]) == inst.distanceMatrix[0][1] + inst.distanceMatrix[1][0]
  {
    assert [0, 1][..1] == [0];
    assert PathLength(inst, [0, 1]) == GetDistance(inst, 0, 1);
  }

  /** The first i terms of the source's sum: d(t[k], t[(k + 1) mod |t|]) for k < i. */
  function CycleSum(inst: TspInstance, t: seq<nat>, i: nat): real
    requires ValidInstance(inst) && Cities(inst, t) && i <= |t|
  {
    if i == 0 then 0.0 else CycleSum(inst, t, i - 1) + GetDistance(inst, t[i - 1], t[i % |t|])
  }

  /** Before the last term, the sum is the length of the path so far. */
  lemma {:induction false} CycleSumIsPathLength(inst: TspInstance, t: seq<nat>, i: nat)
    requires ValidInstance(inst) && Cities(inst, t)
    requires i < |t|
    ensures CycleSum(inst, t, i) == PathLength(inst, t[..i + 1])
  {
    if i > 0 {
      CycleSumIsPathLength(inst, t, i - 1);
      SmallMod(i, |t|);
      assert CycleSum(inst, t, i) == CycleSum(inst, t, i - 1) + GetDistance(inst, t[i - 1], t[i]);
      var p := t[..i];
      assert t[..i + 1] == p + [t[i]];
      PathLengthSnoc(inst, p, t[i]);
      assert p[|p| - 1] == t[i - 1];
    } else {
      assert PathLength(inst, t[..1]) == 0.0;
    }
  }

  lemma SmallMod(i: nat, n: nat)
    requires i < n
    ensures i % n == i
  {
  }

  /** Adding the edges with the index taken modulo the length gives the
      closed-tour distance. */
  lemma CycleSumIsTourDistance(inst: TspInstance, t: seq<nat>)
    requires ValidInstance(inst) && Cities(inst, t)
    ensures CycleSum(inst, t, |t|) == TourDistance(inst, t)
  {
    if t != [] {
      CycleSumIsPathLength(inst, t, |t| - 1);
      assert t[..|t|] == t;
    }
  }

  datatype TourError = TourLengthMismatch

  /** `calculate_tour_distance`: a tour of the wrong length is an error;
      otherwise the edges d(tour[i], tour[(i + 1) mod n]) are added up. */
  method CalculateTourDistance(inst: TspInstance, tour: seq<nat>) returns (r: Result<real, TourError>)
    requires ValidInstance(inst)
    requires |tour| == inst.numCities ==> Cities(inst, tour)
    ensures r.Failure? <==> |tour| != inst.numCities
    ensures r.Success? ==> r.value == TourDistance(inst, tour)
  {
    if |tour| != inst.numCities {
      return Failure(TourLengthMismatch);
    }
    var n := |tour|;
    var total := 0.0;
    for i := 0 to n
      invariant total == CycleSum(inst, tour, i)
    {
      var current := tour[i];
      var next := tour[(i + 1) % n];
      total := total + GetDistance(inst, current, next);
    }
    CycleSumIsTourDistance(inst, tour);
    return Success(total);
  }

  // ---------------------------------------------------------------------
  // Matrix validation

  function Abs(x: real): real
  {
    if x < 0.0 then -x else x
  }

  /** Every row is as long as the matrix has rows. */
  predicate IsSquare(m: seq<seq<real>>)
  {
    forall r :: 0 <= r < |m| ==> |m[r]| == |m|
  }

  predicate SymmetricWithin(m: seq<seq<real>>, tolerance: real)
    requires IsSquare(m)
  {
    forall i, j :: 0 <= i < |m| && 0 <= j < |m| ==> Abs(m[i][j] - m[j][i]) <= tolerance
  }

  predicate ZeroDiagonalWithin(m: seq<seq<real>>, tolerance: real)
    requires IsSquare(m)
  {
    forall i :: 0 <= i < |m| ==> Abs(m[i][i]) <= tolerance
  }

  /** m[i][k] <= m[i][j] + m[j][k] + tolerance for pairwise distinct i, j, k. */
  predicate TriangleWithin(m: seq<seq<real>>, tolerance: real)
    requires IsSquare(m)
  {
    forall i, j, k :: 0 <= i < |m| && 0 <= j < |m| && 0 <= k < |m| && i != j && j != k && i != k ==>
      m[i][k] <= m[i][j] + m[j][k] + tolerance
  }

  datatype MatrixReport = MatrixReport(
    isSquare: bool,
    isSymmetric: bool,
    hasZeroDiagonal: bool,
    satisfiesTriangleInequality: bool)

  /** `validate_distance_matrix`: a non-square matrix reports every flag
      false; otherwise each flag says whether its property holds within the
      tolerance, a parameter that `validate_distance_matrix` defaults to 1e-9. */
  method ValidateDistanceMatrix(m: seq<seq<real>>, tolerance: real) returns (r: MatrixReport)
    ensures r.isSquare <==> IsSquare(m)
    ensures !IsSquare(m) ==> r == MatrixReport(false, false, false, false)
    ensures IsSquare(m) ==>
      && (r.isSymmetric <==> SymmetricWithin(m, tolerance))
      && (r.hasZeroDiagonal <==> ZeroDiagonalWithin(m, tolerance))
      && (r.satisfiesTriangleInequality <==> TriangleWithin(m, tolerance))
  {
    var n := |m|;
    var isSquare := forall row | row in m :: |row| == n;
    assert isSquare <==> IsSquare(m) by {
      if !IsSquare(m) {
        var bad :| 0 <= bad < |m| && |m[bad]| != |m|;
        assert m[bad] in m;
      }
    }
    if !isSquare {
      return MatrixReport(false, false, false, false);
    }

    var isSymmetric := CheckSymmetric(m, tolerance);
    var hasZeroDiagonal := forall i | 0 <= i < n :: Abs(m[i][i]) <= tolerance;

    var satisfiesTriangle := CheckTriangle(m, tolerance);
    return MatrixReport(true, isSymmetric, hasZeroDiagonal, satisfiesTriangle);
  }

  /** The symmetry scan, leaving both loops at the first asymmetric pair. */
  method CheckSymmetric(m: seq<seq<real>>, tolerance: real) returns (isSymmetric: bool)
    requires IsSquare(m)
    ensures isSymmetric <==> SymmetricWithin(m, tolerance)
  {
    var n := |m|;
    isSymmetric := true;
    for i := 0 to n
      invariant isSymmetric <==>
        forall i', j :: 0 <= i' < i && 0 <= j < n ==> Abs(m[i'][j] - m[j][i']) <= tolerance
    {
      for j := 0 to n
        invariant isSymmetric <==>
          (forall i', j' :: 0 <= i' < i && 0 <= j' < n ==> Abs(m[i'][j'] - m[j'][i']) <= tolerance) &&
          (forall j' :: 0 <= j' < j ==> Abs(m[i][j'] - m[j'][i]) <= tolerance)
      {
        if Abs(m[i][j] - m[j][i]) > tolerance {
          isSymmetric := false;
          break;
        }
      }
      if !isSymmetric {
        break;
      }
    }

  }

  /** The triangle-inequality scan, leaving all three loops at the first
      violation. */
  method CheckTriangle(m: seq<seq<real>>, tolerance: real) returns (satisfiesTriangle: bool)
    requires IsSquare(m)
    ensures satisfiesTriangle <==> TriangleWithin(m, tolerance)
  {
    var n := |m|;
    satisfiesTriangle := true;
    for i := 0 to n
      invariant satisfiesTriangle <==> TriangleFrom(m, tolerance, i)
    {
      for j := 0 to n
        invariant satisfiesTriangle <==> TriangleFrom(m, tolerance, i) && TriangleRow(m, tolerance, i, j)
      {
        for k := 0 to n
          invariant satisfiesTriangle <==>
            TriangleFrom(m, tolerance, i) && TriangleRow(m, tolerance, i, j) && TriangleCell(m, tolerance, i, j, k)
        {
          if i != j && j != k && i != k {
            if m[i][k] > m[i][j] + m[j][k] + tolerance {
              satisfiesTriangle := false;
              break;
            }
          }
        }
        if !satisfiesTriangle {
          break;
        }
      }
      if !satisfiesTriangle {
        break;
      }
    }
  }

  /** The triangle inequality for every first city below i. */
  predicate TriangleFrom(m: seq<seq<real>>, tolerance: real, i: nat)
    requires IsSquare(m) && i <= |m|
  {
    forall i', j, k :: 0 <= i' < i && 0 <= j < |m| && 0 <= k < |m| && i' != j && j != k && i' != k ==>
      m[i'][k] <= m[i'][j] + m[j][k] + tolerance
  }

  /** ... for first city i and every middle city below j. */
  predicate TriangleRow(m: seq<seq<real>>, tolerance: real, i: nat, j: nat)
    requires IsSquare(m) && i < |m| && j <= |m|
  {
    forall j', k :: 0 <= j' < j && 0 <= k < |m| && i != j' && j' != k && i != k ==>
      m[i][k] <= m[i][j'] + m[j'][k] + tolerance
  }

  /** ... for first city i, middle city j and every last city below k. */
  predicate TriangleCell(m: seq<seq<real>>, tolerance: real, i: nat, j: nat, k: nat)
    requires IsSquare(m) && i < |m| && j < |m| && k <= |m|
  {
    forall k' :: 0 <= k' < k && i != j && j != k' && i != k' ==>
      m[i][k'] <= m[i][j] + m[j][k'] + tolerance
  }
}
