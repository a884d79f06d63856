/** Nearest neighbour followed by 2-opt local search: while some pair of
    edges can be exchanged for a shorter pair by reversing the segment
    between them, the first such exchange in scan order is made. */
module TspTwoOpt {
  import opened Wrappers
  import opened TspInstance
  import opened TspTours
  import opened TspNearestNeighbor

  /** An exchange must shorten the tour by more than this, 1e-10. */
  const Eps: real := 0.0000000001

  /** The pairs the scan examines: j at least two past i, leaving out the
      pair (0, n-1), whose edges share city 0. */
  predicate ValidPair(n: nat, i: nat, j: nat)
  {
    i + 2 <= j < n && !(i == 0 && j == n - 1)
  }

  /** The change in tour length the source computes for the pair (i, j):
      the edges (t[i], t[j]) and (t[i+1], t[j+1]) in place of (t[i], t[i+1])
      and (t[j], t[j+1]), with positions taken modulo n. */
  function Delta(inst: TspInstance, t: seq<nat>, i: nat, j: nat): real
    requires ValidInstance(inst) && Cities(inst, t)
    requires ValidPair(|t|, i, j)
  {
    var n := |t|;
    var currentEdge1 := GetDistance(inst, t[i], t[Succ(i, n)]);
    var currentEdge2 := GetDistance(inst, t[j], t[Succ(j, n)]);
    var newEdge1 := GetDistance(inst, t[i], t[j]);
    var newEdge2 := GetDistance(inst, t[Succ(i, n)], t[Succ(j, n)]);
    (newEdge1 + newEdge2) - (currentEdge1 + currentEdge2)
  }

  /** The position after k in a tour of n cities, (k + 1) mod n. */
  function Succ(k: nat, n: nat): (r: nat)
    requires k < n
    ensures r == if k + 1 == n then 0 else k + 1
  {
    (k + 1) % n
  }

  /** The exchange itself: the segment t[i+1..j] is reversed. */
  function TwoOptMove(t: seq<nat>, i: nat, j: nat): (r: seq<nat>)
    requires i < j < |t|
    ensures |r| == |t|
    ensures forall k :: 0 <= k < |t| ==> r[k] == if i < k <= j then t[i + 1 + j - k] else t[k]
  {
    var a, b, c := t[..i + 1], Reverse(t[i + 1..j + 1]), t[j + 1..];
    assert forall k :: 0 <= k < |b| ==> b[k] == t[j - k];
    a + b + c
  }

  /** No examined pair shortens the tour by more than Eps. */
  ghost predicate LocallyOptimal(inst: TspInstance, t: seq<nat>)
    requires ValidInstance(inst) && Cities(inst, t)
  {
    forall i: nat, j: nat :: ValidPair(|t|, i, j) ==> Delta(inst, t, i, j) >= -Eps
  }

  lemma {:induction false} ReverseMultiset(s: seq<nat>)
    ensures multiset(Reverse(s)) == multiset(s)
  {
    if s != [] {
      ReverseMultiset(s[..|s| - 1]);
      assert s == s[..|s| - 1] + [s[|s| - 1]];
    }
  }

  /** An exchange turns a tour into a tour that still starts at t[0]. */
  lemma MoveKeepsTour(t: seq<nat>, n: nat, i: nat, j: nat)
    requires IsTour(t, n) && i < j < n
    ensures IsTour(TwoOptMove(t, i, j), n)
    ensures TwoOptMove(t, i, j)[0] == t[0]
  {
    var a, b, c := t[..i + 1], t[i + 1..j + 1], t[j + 1..];
    assert t == a + b + c;
    ReverseMultiset(b);
    assert multiset(TwoOptMove(t, i, j)) == multiset(a) + multiset(b) + multiset(c);
    RearrangedTour(TwoOptMove(t, i, j), t, n);
  }

  /** On a symmetric matrix the computed change is exactly the change in
      tour length that the exchange makes. */
  lemma MoveDistance(inst: TspInstance, t: seq<nat>, i: nat, j: nat)
    requires ValidInstance(inst) && Symmetric(inst) && Cities(inst, t)
    requires ValidPair(|t|, i, j)
    ensures Cities(inst, TwoOptMove(t, i, j))
    ensures TourDistance(inst, TwoOptMove(t, i, j)) == TourDistance(inst, t) + Delta(inst, t, i, j)
  {
    var n := |t|;
    assert Succ(i, n) == i + 1;
    if j < n - 1 {
      assert Succ(j, n) == j + 1;
      MoveDistanceInside(inst, t, i, j);
    } else {
      assert Succ(j, n) == 0;
      MoveDistanceAtEnd(inst, t, i);
    }
  }

  /** Joining two lists of cities gives a list of cities. */
  lemma CitiesConcat(inst: TspInstance, a: seq<nat>, b: seq<nat>)
    requires Cities(inst, a) && Cities(inst, b)
    ensures Cities(inst, a + b)
  {
  }

  lemma LastOfConcat(a: seq<nat>, b: seq<nat>)
    requires b != []
    ensures (a + b)[|a + b| - 1] == b[|b| - 1]
  {
  }

  /** A path cut in three pieces: the pieces plus the two edges joining them. */
  lemma PathLengthThree(inst: TspInstance, a: seq<nat>, b: seq<nat>, c: seq<nat>)
    requires ValidInstance(inst) && Cities(inst, a) && Cities(inst, b) && Cities(inst, c)
    requires Cities(inst, a + b) && Cities(inst, a + b + c)
    requires a != [] && b != [] && c != []
    ensures PathLength(inst, a + b + c) ==
      PathLength(inst, a) + GetDistance(inst, a[|a| - 1], b[0]) + PathLength(inst, b)
      + GetDistance(inst, b[|b| - 1], c[0]) + PathLength(inst, c)
  {
    var ab := a + b;
    var pa, pb, pc := PathLength(inst, a), PathLength(inst, b), PathLength(inst, c);
    var front, whole := PathLength(inst, ab), PathLength(inst, ab + c);
    var d1, d2 := GetDistance(inst, a[|a| - 1], b[0]), GetDistance(inst, b[|b| - 1], c[0]);
    PathLengthConcat(inst, a, b);
    assert front == pa + d1 + pb;
    LastOfConcat(a, b);
    PathLengthConcat(inst, ab, c);
    assert whole == front + d2 + pc;
  }

  /** Reversing the middle one of three non-empty segments replaces the two
      edges around it and keeps its own length. */
  lemma ReverseMiddle(inst: TspInstance, a: seq<nat>, b: seq<nat>, c: seq<nat>)
    requires ValidInstance(inst) && Symmetric(inst)
    requires Cities(inst, a) && Cities(inst, b) && Cities(inst, c)
    requires a != [] && b != [] && c != []
    ensures Cities(inst, a + b + c) && Cities(inst, a + Reverse(b) + c)
    ensures PathLength(inst, a + Reverse(b) + c) ==
      PathLength(inst, a + b + c)
      + (GetDistance(inst, a[|a| - 1], b[|b| - 1]) + GetDistance(inst, b[0], c[0]))
      - (GetDistance(inst, a[|a| - 1], b[0]) + GetDistance(inst, b[|b| - 1], c[0]))
  {
    var r := Reverse(b);
    PathLengthReverse(inst, b);
    CitiesConcat(inst, a, b);
    CitiesConcat(inst, a + b, c);
    CitiesConcat(inst, a, r);
    CitiesConcat(inst, a + r, c);
    assert r[0] == b[|b| - 1] && r[|r| - 1] == b[0];
    PathLengthThree(inst, a, b, c);
    PathLengthThree(inst, a, r, c);
  }

  /** The reversed segment ends before the last city: the open path changes
      by the two replaced edges. */
  lemma MovePathInside(inst: TspInstance, t: seq<nat>, i: nat, j: nat)
    requires ValidInstance(inst) && Symmetric(inst) && Cities(inst, t)
    requires i + 2 <= j < |t| - 1
    ensures Cities(inst, TwoOptMove(t, i, j))
    ensures PathLength(inst, TwoOptMove(t, i, j)) ==
      PathLength(inst, t)
      + (GetDistance(inst, t[i], t[j]) + GetDistance(inst, t[i + 1], t[j + 1]))
      - (GetDistance(inst, t[i], t[i + 1]) + GetDistance(inst, t[j], t[j + 1]))
  {
    var a, b, c := t[..i + 1], t[i + 1..j + 1], t[j + 1..];
    assert t == a + b + c;
    assert TwoOptMove(t, i, j) == a + Reverse(b) + c;
    assert a[|a| - 1] == t[i] && b[0] == t[i + 1] && b[|b| - 1] == t[j] && c[0] == t[j + 1];
    ReverseMiddle(inst, a, b, c);
  }

  /** The reversed segment ends before the last city. */
  lemma MoveDistanceInside(inst: TspInstance, t: seq<nat>, i: nat, j: nat)
    requires ValidInstance(inst) && Symmetric(inst) && Cities(inst, t)
    requires i + 2 <= j < |t| - 1
    ensures Cities(inst, TwoOptMove(t, i, j))
    ensures TourDistance(inst, TwoOptMove(t, i, j)) ==
      TourDistance(inst, t)
      + (GetDistance(inst, t[i], t[j]) + GetDistance(inst, t[i + 1], t[j + 1]))
      - (GetDistance(inst, t[i], t[i + 1]) + GetDistance(inst, t[j], t[j + 1]))
  {
    var m := TwoOptMove(t, i, j);
    MovePathInside(inst, t, i, j);
    assert m[|m| - 1] == t[|t| - 1] && m[0] == t[0];
  }

  /** Reversing the tail of a closed tour replaces the edge into the tail
      and the edge closing the tour. */
  lemma ReverseTail(inst: TspInstance, a: seq<nat>, b: seq<nat>)
    requires ValidInstance(inst) && Symmetric(inst)
    requires Cities(inst, a) && Cities(inst, b) && a != [] && b != []
    ensures Cities(inst, a + b) && Cities(inst, a + Reverse(b))
    ensures TourDistance(inst, a + Reverse(b)) ==
      TourDistance(inst, a + b)
      + (GetDistance(inst, a[|a| - 1], b[|b| - 1]) + GetDistance(inst, b[0], a[0]))
      - (GetDistance(inst, a[|a| - 1], b[0]) + GetDistance(inst, b[|b| - 1], a[0]))
  {
    var r := Reverse(b);
    CitiesConcat(inst, a, b);
    CitiesConcat(inst, a, r);
    PathLengthReverse(inst, b);
    assert r[0] == b[|b| - 1] && r[|r| - 1] == b[0];
    PathLengthConcat(inst, a, b);
    PathLengthConcat(inst, a, r);
    LastOfConcat(a, b);
    LastOfConcat(a, r);
    assert (a + b)[0] == a[0] && (a + r)[0] == a[0];
  }

  /** The reversed segment runs to the last city. */
  lemma MoveDistanceAtEnd(inst: TspInstance, t: seq<nat>, i: nat)
    requires ValidInstance(inst) && Symmetric(inst) && Cities(inst, t)
    requires 1 <= i && i + 2 < |t|
    ensures Cities(inst, TwoOptMove(t, i, |t| - 1))
    ensures TourDistance(inst, TwoOptMove(t, i, |t| - 1)) ==
      TourDistance(inst, t)
      + (GetDistance(inst, t[i], t[|t| - 1]) + GetDistance(inst, t[i + 1], t[0]))
      - (GetDistance(inst, t[i], t[i + 1]) + GetDistance(inst, t[|t| - 1], t[0]))
  {
    var a, b := t[..i + 1], t[i + 1..];
    assert t == a + b;
    assert TwoOptMove(t, i, |t| - 1) == a + Reverse(b);
    assert a[0] == t[0] && a[|a| - 1] == t[i] && b[0] == t[i + 1] && b[|b| - 1] == t[|t| - 1];
    ReverseTail(inst, a, b);
  }

  // ---------------------------------------------------------------------
  // Counting the pairs the scan examines

  /** The number of valid pairs (i, j') with j' < j. */
  function PairsInRowBelow(n: nat, i: nat, j: nat): nat
  {
    if j <= i + 2 then 0
    else PairsInRowBelow(n, i, j - 1) + (if ValidPair(n, i, j - 1) then 1 else 0)
  }

  /** The number of valid pairs (i', j) with i' < i. */
  function PairsInRowsBelow(n: nat, i: nat): nat
  {
    if i == 0 then 0 else PairsInRowsBelow(n, i - 1) + PairsInRowBelow(n, i - 1, n)
  }

  /** The number of pairs one full scan examines. */
  function PairCount(n: nat): nat
  {
    PairsInRowsBelow(n, n)
  }

  lemma {:induction false} RowCount(n: nat, i: nat, j: nat)
    requires n >= 3 && i + 2 <= j <= n
    ensures PairsInRowBelow(n, i, j) == (j - i - 2) - (if i == 0 && j == n then 1 else 0)
    decreases j
  {
    if j > i + 2 {
      RowCount(n, i, j - 1);
    }
  }

  lemma {:induction false} RowsCount(n: nat, i: nat)
    requires n >= 3 && i <= n - 2
    ensures 2 * PairsInRowsBelow(n, i) == i * (2 * n - i - 3) - (if i > 0 then 2 else 0)
  {
    if i > 0 {
      var k := i - 1;
      RowsCount(n, k);
      RowCount(n, k, n);
      RowsStep(n, k);
    }
  }

  /** The arithmetic step of RowsCount: one more row of n - k - 2 pairs. */
  lemma RowsStep(n: int, k: int)
    ensures (k + 1) * (2 * n - k - 4) == k * (2 * n - k - 3) + 2 * (n - k - 2)
  {
    assert (k + 1) * (2 * n - k - 4) == k * (2 * n - k - 4) + (2 * n - k - 4);
    assert k * (2 * n - k - 4) == k * (2 * n - k - 3) - k;
  }

  lemma {:induction false} LastRowsEmpty(n: nat, i: nat)
    requires n >= 2 && n - 2 <= i <= n
    ensures PairsInRowsBelow(n, i) == PairsInRowsBelow(n, n - 2)
    decreases i
  {
    if i > n - 2 {
      LastRowsEmpty(n, i - 1);
    }
  }

  /** A full scan examines n(n-3)/2 pairs: one per diagonal of an n-gon. */
  lemma PairCountClosedForm(n: nat)
    requires n >= 3
    ensures 2 * PairCount(n) == n * (n - 3)
  {
    RowsCount(n, n - 2);
    LastRowsEmpty(n, n);
  }

  // ---------------------------------------------------------------------
  // The search

  datatype Exchange = Exchange(i: nat, j: nat, change: real)

  /** One pass of the nested `for` loops: the pairs are examined in order of
      i, then j, four distance lookups each, and the pass stops at the first
      pair whose change is below -Eps. */
  method ScanForImprovement(inst: TspInstance, tour: seq<nat>) returns (found: Option<Exchange>, calculations: nat)
    requires ValidInstance(inst) && Cities(inst, tour)
    ensures found.Some? ==> ValidPair(|tour|, found.value.i, found.value.j)
    ensures found.Some? ==> found.value.change == Delta(inst, tour, found.value.i, found.value.j) < -Eps
    ensures found.Some? ==> forall i: nat, j: nat :: ValidPair(|tour|, i, j) && (i < found.value.i || (i == found.value.i && j < found.value.j)) ==>
      Delta(inst, tour, i, j) >= -Eps
    ensures found.Some? ==> calculations == 4 * (PairsInRowsBelow(|tour|, found.value.i) + PairsInRowBelow(|tour|, found.value.i, found.value.j) + 1)
    ensures found.None? <==> LocallyOptimal(inst, tour)
    ensures found.None? ==> calculations == 4 * PairCount(|tour|)
  {
    var n := |tour|;
    calculations := 0;
    for i := 0 to n
      invariant calculations == 4 * PairsInRowsBelow(n, i)
      invariant forall i': nat, j: nat :: i' < i && ValidPair(n, i', j) ==> Delta(inst, tour, i', j) >= -Eps
    {
      var rowCalculations;
      found, rowCalculations := ScanRow(inst, tour, i);
      calculations := calculations + rowCalculations;
      if found.Some? {
        assert !LocallyOptimal(inst, tour) by {
          assert ValidPair(n, i, found.value.j);
        }
        return;
      }
      assert PairsInRowsBelow(n, i + 1) == PairsInRowsBelow(n, i) + PairsInRowBelow(n, i, n);
    }
    found := None;
  }

  /** The inner `for j` loop for one i: the pairs (i, j) in increasing j,
      skipping (0, n-1), up to the first whose change is below -Eps. */
  method ScanRow(inst: TspInstance, tour: seq<nat>, i: nat) returns (found: Option<Exchange>, calculations: nat)
    requires ValidInstance(inst) && Cities(inst, tour) && i < |tour|
    ensures found.Some? ==> found.value.i == i && ValidPair(|tour|, i, found.value.j)
    ensures found.Some? ==> found.value.change == Delta(inst, tour, i, found.value.j) < -Eps
    ensures found.Some? ==> forall j: nat :: j < found.value.j && ValidPair(|tour|, i, j) ==> Delta(inst, tour, i, j) >= -Eps
    ensures found.Some? ==> calculations == 4 * (PairsInRowBelow(|tour|, i, found.value.j) + 1)
    ensures found.None? ==> forall j: nat :: ValidPair(|tour|, i, j) ==> Delta(inst, tour, i, j) >= -Eps
    ensures found.None? ==> calculations == 4 * PairsInRowBelow(|tour|, i, |tour|)
  {
    var n := |tour|;
    calculations := 0;
    var j := i + 2;
    while j < n
      invariant i + 2 <= j
      invariant j <= n || j == i + 2
      invariant calculations == 4 * PairsInRowBelow(n, i, j)
      invariant forall j': nat :: j' < j && ValidPair(n, i, j') ==> Delta(inst, tour, i, j') >= -Eps
    {
      if j == n - 1 && i == 0 {
        j := j + 1;
        continue;
      }
      var currentEdge1 := GetDistance(inst, tour[i], tour[Succ(i, n)]);
      var currentEdge2 := GetDistance(inst, tour[j], tour[Succ(j, n)]);
      var newEdge1 := GetDistance(inst, tour[i], tour[j]);
      var newEdge2 := GetDistance(inst, tour[Succ(i, n)], tour[Succ(j, n)]);
      calculations := calculations + 4;
      var change := (newEdge1 + newEdge2) - (currentEdge1 + currentEdge2);
      if change < -Eps {
        found := Some(Exchange(i, j, change));
        return;
      }
      j := j + 1;
    }
    assert PairsInRowBelow(n, i, j) == PairsInRowBelow(n, i, n);
    found := None;
  }

  // ---------------------------------------------------------------------
  // Bounds on one pass

  lemma {:induction false} RowBelowGrows(n: nat, i: nat, j: nat, k: nat)
    requires j <= k
    ensures PairsInRowBelow(n, i, j) <= PairsInRowBelow(n, i, k)
    decreases k
  {
    if j < k {
      RowBelowGrows(n, i, j, k - 1);
    }
  }

  lemma {:induction false} RowsBelowGrow(n: nat, i: nat, k: nat)
    requires i <= k
    ensures PairsInRowsBelow(n, i) <= PairsInRowsBelow(n, k)
    decreases k
  {
    if i < k {
      RowsBelowGrow(n, i, k - 1);
    }
  }

  lemma RowsBelowStep(n: nat, i: nat)
    ensures PairsInRowsBelow(n, i + 1) == PairsInRowsBelow(n, i) + PairsInRowBelow(n, i, n)
  {
  }

  /** The pairs before a valid pair, with the pair itself, are among those a
      full pass examines. */
  lemma PairsBeforeBound(n: nat, i: nat, j: nat)
    requires ValidPair(n, i, j)
    ensures PairsInRowsBelow(n, i) + PairsInRowBelow(n, i, j) + 1 <= PairCount(n)
  {
    var before, inRow := PairsInRowsBelow(n, i), PairsInRowBelow(n, i, j);
    var row, through, all := PairsInRowBelow(n, i, n), PairsInRowsBelow(n, i + 1), PairCount(n);
    assert PairsInRowBelow(n, i, j + 1) == inRow + 1;
    RowBelowGrows(n, i, j + 1, n);
    assert inRow + 1 <= row;
    RowsBelowStep(n, i);
    assert through == before + row;
    RowsBelowGrow(n, i + 1, n);
    assert through <= all;
  }


  // ---------------------------------------------------------------------
  // The improvement loop

  /** A whole number of Eps units above a length: the exchanges, each saving
      more than Eps, are fewer than this. */
  lemma UnitsAbove(d: real) returns (units: nat)
    requires d >= 0.0
    ensures d * 10000000000.0 < units as real
  {
    units := (d * 10000000000.0).Floor + 1;
  }

  /** Making an exchange whose change is below -Eps keeps a tour a tour that
      starts at the same city, and shortens it by exactly that change. */
  lemma ExchangeStep(inst: TspInstance, t: seq<nat>, i: nat, j: nat)
    requires ValidInstance(inst) && Symmetric(inst) && IsTour(t, inst.numCities)
    requires ValidPair(|t|, i, j) && Delta(inst, t, i, j) < -Eps
    ensures IsTour(TwoOptMove(t, i, j), inst.numCities) && TwoOptMove(t, i, j)[0] == t[0]
    ensures TourDistance(inst, TwoOptMove(t, i, j)) == TourDistance(inst, t) + Delta(inst, t, i, j)
  {
    MoveKeepsTour(t, inst.numCities, i, j);
    MoveDistance(inst, t, i, j);
  }

  /** The first pair in scan order that shortens the tour by more than Eps. */
  ghost predicate FirstImprovement(inst: TspInstance, t: seq<nat>, i: nat, j: nat)
    requires ValidInstance(inst) && Cities(inst, t)
  {
    && ValidPair(|t|, i, j) && Delta(inst, t, i, j) < -Eps
    && forall i': nat, j': nat :: ValidPair(|t|, i', j') && (i' < i || (i' == i && j' < j)) ==>
         Delta(inst, t, i', j') >= -Eps
  }

  /** next is tour with its first improving exchange made. */
  ghost predicate FirstMoveMade(inst: TspInstance, tour: seq<nat>, next: seq<nat>)
    requires ValidInstance(inst) && Cities(inst, tour)
  {
    exists i: nat, j: nat :: FirstImprovement(inst, tour, i, j) && next == TwoOptMove(tour, i, j)
  }

  /** The scan as a recursive definition: the first pair at or after (i, j),
      in order of i and then j, whose change is below -Eps. */
  function FirstPairFrom(inst: TspInstance, t: seq<nat>, i: nat, j: nat): (r: Option<(nat, nat)>)
    requires ValidInstance(inst) && Cities(inst, t)
    ensures r.Some? ==> ValidPair(|t|, r.value.0, r.value.1) && Delta(inst, t, r.value.0, r.value.1) < -Eps
    decreases |t| - i, |t| - j
  {
    if i >= |t| then None
    else if j >= |t| then FirstPairFrom(inst, t, i + 1, i + 3)
    else if ValidPair(|t|, i, j) && Delta(inst, t, i, j) < -Eps then Some((i, j))
    else FirstPairFrom(inst, t, i, j + 1)
  }

  /** Started anywhere up to the first improving pair, the scan stops at it. */
  lemma {:induction false} FirstPairFound(inst: TspInstance, t: seq<nat>, i: nat, j: nat, i0: nat, j0: nat)
    requires ValidInstance(inst) && Cities(inst, t) && FirstImprovement(inst, t, i0, j0)
    requires i < i0 || (i == i0 && j <= j0)
    ensures FirstPairFrom(inst, t, i, j) == Some((i0, j0))
    decreases |t| - i, |t| - j
  {
    if j >= |t| {
      FirstPairFound(inst, t, i + 1, i + 3, i0, j0);
    } else if !(ValidPair(|t|, i, j) && Delta(inst, t, i, j) < -Eps) {
      FirstPairFound(inst, t, i, j + 1, i0, j0);
    }
  }

  /** On a locally optimal tour the scan finds nothing, wherever it starts. */
  lemma {:induction false} NoPairFound(inst: TspInstance, t: seq<nat>, i: nat, j: nat)
    requires ValidInstance(inst) && Cities(inst, t) && LocallyOptimal(inst, t)
    ensures FirstPairFrom(inst, t, i, j) == None
    decreases |t| - i, |t| - j
  {
    if i < |t| {
      if j >= |t| {
        NoPairFound(inst, t, i + 1, i + 3);
      } else {
        NoPairFound(inst, t, i, j + 1);
      }
    }
  }

  /** What the scan started at (i, j) returns is an improving pair at or after
      (i, j), and no valid pair from (i, j) up to it improves. */
  lemma {:induction false} FirstPairSound(inst: TspInstance, t: seq<nat>, i: nat, j: nat)
    requires ValidInstance(inst) && Cities(inst, t) && FirstPairFrom(inst, t, i, j).Some?
    ensures var (i0, j0) := FirstPairFrom(inst, t, i, j).value;
      && ValidPair(|t|, i0, j0) && Delta(inst, t, i0, j0) < -Eps
      && (i < i0 || (i == i0 && j <= j0))
      && forall i': nat, j': nat :: ValidPair(|t|, i', j') && (i < i' || (i == i' && j <= j')) && (i' < i0 || (i' == i0 && j' < j0)) ==>
           Delta(inst, t, i', j') >= -Eps
    decreases |t| - i, |t| - j
  {
    if j >= |t| {
      FirstPairSound(inst, t, i + 1, i + 3);
    } else if !(ValidPair(|t|, i, j) && Delta(inst, t, i, j) < -Eps) {
      FirstPairSound(inst, t, i, j + 1);
    }
  }

  /** When the scan started at (i, j) finds nothing, no valid pair from (i, j)
      on improves. */
  lemma {:induction false} FirstPairComplete(inst: TspInstance, t: seq<nat>, i: nat, j: nat)
    requires ValidInstance(inst) && Cities(inst, t) && FirstPairFrom(inst, t, i, j).None?
    ensures forall i': nat, j': nat :: ValidPair(|t|, i', j') && (i < i' || (i == i' && j <= j')) ==>
      Delta(inst, t, i', j') >= -Eps
    decreases |t| - i, |t| - j
  {
    if i < |t| {
      if j >= |t| {
        FirstPairComplete(inst, t, i + 1, i + 3);
      } else {
        FirstPairComplete(inst, t, i, j + 1);
      }
    }
  }

  /** The full scan finds nothing exactly when the tour is locally optimal. */
  lemma ScanFindsNothingIffOptimal(inst: TspInstance, t: seq<nat>)
    requires ValidInstance(inst) && Cities(inst, t)
    ensures FirstPairFrom(inst, t, 0, 0).None? <==> LocallyOptimal(inst, t)
  {
    if FirstPairFrom(inst, t, 0, 0).None? {
      FirstPairComplete(inst, t, 0, 0);
    } else {
      FirstPairSound(inst, t, 0, 0);
    }
  }

  /** next is t with the exchange made at the pair where the full scan stops;
      there is no such step from a tour on which the scan finds nothing. */
  predicate ImprovingStep(inst: TspInstance, t: seq<nat>, next: seq<nat>)
    requires ValidInstance(inst) && Cities(inst, t)
  {
    match FirstPairFrom(inst, t, 0, 0)
    case Some((i, j)) => next == TwoOptMove(t, i, j)
    case None => false
  }

  /** A step of the scan is exactly the first improving exchange. */
  lemma ImprovingStepIsFirstMove(inst: TspInstance, t: seq<nat>, next: seq<nat>)
    requires ValidInstance(inst) && Cities(inst, t)
    ensures ImprovingStep(inst, t, next) <==> FirstMoveMade(inst, t, next)
  {
    if FirstMoveMade(inst, t, next) {
      var i: nat, j: nat :| FirstImprovement(inst, t, i, j) && next == TwoOptMove(t, i, j);
      FirstPairFound(inst, t, 0, 0, i, j);
    } else if FirstPairFrom(inst, t, 0, 0).Some? {
      FirstPairSound(inst, t, 0, 0);
      var (i, j) := FirstPairFrom(inst, t, 0, 0).value;
      assert FirstImprovement(inst, t, i, j);
    }
  }

  /** The lookups one pass over t makes: four for each pair examined, up to
      and including the first improving pair, or for every pair when there
      is none. */
  function ScanCost(inst: TspInstance, t: seq<nat>): nat
    requires ValidInstance(inst) && Cities(inst, t)
  {
    match FirstPairFrom(inst, t, 0, 0)
    case Some((i, j)) => 4 * (PairsInRowsBelow(|t|, i) + PairsInRowBelow(|t|, i, j) + 1)
    case None => 4 * PairCount(|t|)
  }

  /** A pass that stops at the first improving pair (i, j) costs four lookups
      per pair up to it. */
  lemma ScanCostAt(inst: TspInstance, t: seq<nat>, i: nat, j: nat)
    requires ValidInstance(inst) && Cities(inst, t) && FirstImprovement(inst, t, i, j)
    ensures ScanCost(inst, t) == 4 * (PairsInRowsBelow(|t|, i) + PairsInRowBelow(|t|, i, j) + 1)
  {
    FirstPairFound(inst, t, 0, 0, i, j);
  }

  /** A pass over a locally optimal tour examines every pair. */
  lemma ScanCostOptimal(inst: TspInstance, t: seq<nat>)
    requires ValidInstance(inst) && Cities(inst, t) && LocallyOptimal(inst, t)
    ensures ScanCost(inst, t) == 4 * PairCount(|t|)
  {
    NoPairFound(inst, t, 0, 0);
  }

  /** The lookups of one pass over each of the first m tours of ts. */
  function ScanCosts(inst: TspInstance, ts: seq<seq<nat>>, m: nat): nat
    requires ValidInstance(inst) && m <= |ts| && forall k :: 0 <= k < |ts| ==> Cities(inst, ts[k])
  {
    if m == 0 then 0 else ScanCosts(inst, ts, m - 1) + ScanCost(inst, ts[m - 1])
  }

  /** Appending a tour leaves the lookups over the tours before it alone. */
  lemma {:induction false} ScanCostsAppend(inst: TspInstance, ts: seq<seq<nat>>, t: seq<nat>, m: nat)
    requires ValidInstance(inst) && m <= |ts| && Cities(inst, t)
    requires forall k :: 0 <= k < |ts| ==> Cities(inst, ts[k])
    ensures forall k :: 0 <= k < |ts + [t]| ==> Cities(inst, (ts + [t])[k])
    ensures ScanCosts(inst, ts + [t], m) == ScanCosts(inst, ts, m)
  {
    assert forall k :: 0 <= k < |ts| ==> (ts + [t])[k] == ts[k];
    if m > 0 {
      ScanCostsAppend(inst, ts, t, m - 1);
    }
  }

  /** What holds between passes: tour is a tour with the same first city as
      the initial tour, bestDistance is its length, and each of the
      iterations exchanges made so far saved more than Eps. */
  ghost predicate SearchState(inst: TspInstance, initialTour: seq<nat>, tour: seq<nat>, bestDistance: real, iterations: nat)
    requires ValidInstance(inst)
  {
    && IsTour(initialTour, inst.numCities) && IsTour(tour, inst.numCities)
    && (inst.numCities > 0 ==> tour[0] == initialTour[0])
    && bestDistance == TourDistance(inst, tour)
    && bestDistance <= TourDistance(inst, initialTour) - iterations as real / 10000000000.0
    && (iterations == 0 ==> tour == initialTour)
  }

  /** One pass of the `while improved` loop: scan, and make the first
      improving exchange found, counting it. */
  method ImprovePass(inst: TspInstance, ghost initialTour: seq<nat>, tour: seq<nat>, bestDistance: real, iterations: nat)
    returns (next: seq<nat>, nextDistance: real, nextIterations: nat, improved: bool, spent: nat)
    requires ValidInstance(inst) && Symmetric(inst)
    requires SearchState(inst, initialTour, tour, bestDistance, iterations)
    ensures SearchState(inst, initialTour, next, nextDistance, nextIterations)
    ensures improved ==> nextIterations == iterations + 1
    ensures improved ==> ImprovingStep(inst, tour, next)
    ensures improved ==> nextDistance < bestDistance - Eps
    ensures improved ==> 4 <= spent <= 4 * PairCount(inst.numCities)
    ensures spent == ScanCost(inst, tour)
    ensures !improved ==> next == tour && nextDistance == bestDistance && nextIterations == iterations
    ensures !improved ==> LocallyOptimal(inst, tour) && spent == 4 * PairCount(inst.numCities)
  {
    var found;
    found, spent := ScanForImprovement(inst, tour);
    match found {
      case None =>
        next, nextDistance, nextIterations, improved := tour, bestDistance, iterations, false;
        ScanCostOptimal(inst, tour);
      case Some(exchange) =>
        var i, j := exchange.i, exchange.j;
        PairsBeforeBound(inst.numCities, i, j);
        ExchangeStep(inst, tour, i, j);
        assert FirstImprovement(inst, tour, i, j);
        FirstPairFound(inst, tour, 0, 0, i, j);
        next := TwoOptMove(tour, i, j);
        nextDistance := bestDistance + exchange.change;
        nextIterations := iterations + 1;
        improved := true;
    }
  }

  /** trace runs from initialTour to tour in iterations steps, each of them
      the first improving exchange of the tour before it. */
  ghost predicate Trace(inst: TspInstance, initialTour: seq<nat>, trace: seq<seq<nat>>, tour: seq<nat>, iterations: nat)
    requires ValidInstance(inst)
  {
    && |trace| == iterations + 1 && trace[0] == initialTour && trace[iterations] == tour
    && (forall k :: 0 <= k < |trace| ==> Cities(inst, trace[k]))
    && (forall k :: 0 <= k < iterations ==> ImprovingStep(inst, trace[k], trace[k + 1]))
  }

  /** Making the first improving exchange of the last tour extends a trace
      by one step, and leaves the lookups of the passes before it alone. */
  lemma TraceStep(inst: TspInstance, initialTour: seq<nat>, trace: seq<seq<nat>>, tour: seq<nat>, iterations: nat, next: seq<nat>)
    requires ValidInstance(inst) && Trace(inst, initialTour, trace, tour, iterations)
    requires Cities(inst, next) && ImprovingStep(inst, tour, next)
    ensures Trace(inst, initialTour, trace + [next], next, iterations + 1)
    ensures ScanCosts(inst, trace + [next], iterations + 1) == ScanCosts(inst, trace, iterations + 1)
  {
    var extended := trace + [next];
    ScanCostsAppend(inst, trace, next, iterations + 1);
    forall k | 0 <= k < |extended|
      ensures Cities(inst, extended[k])
    {
      if k < |trace| {
        assert extended[k] == trace[k];
      }
    }
    forall k | 0 <= k < iterations + 1
      ensures ImprovingStep(inst, extended[k], extended[k + 1])
    {
      if k < iterations {
        assert extended[k] == trace[k] && extended[k + 1] == trace[k + 1];
      }
    }
  }

  /** What holds between passes of the loop, with the lookups counted so far:
      those of one pass over each tour of the trace but the last, which is
      still to be scanned while improved, and all of them once a pass found
      nothing. */
  ghost predicate LoopState(inst: TspInstance, initialTour: seq<nat>, tour: seq<nat>, bestDistance: real,
                            iterations: nat, improved: bool, calculations: nat, trace: seq<seq<nat>>)
    requires ValidInstance(inst)
  {
    && SearchState(inst, initialTour, tour, bestDistance, iterations)
    && Trace(inst, initialTour, trace, tour, iterations)
    && 4 * iterations <= calculations
    && (!improved ==> LocallyOptimal(inst, tour) && 4 * iterations + 4 * PairCount(inst.numCities) <= calculations)
    && calculations == ScanCosts(inst, trace, if improved then iterations else iterations + 1)
  }

  /** After a pass that made an exchange, the loop state holds for the new
      tour, with the exchange appended to the trace. */
  lemma ImprovedLoopState(inst: TspInstance, initialTour: seq<nat>, tour: seq<nat>, iterations: nat, trace: seq<seq<nat>>,
                          next: seq<nat>, nextDistance: real, calculations: nat)
    requires ValidInstance(inst) && Trace(inst, initialTour, trace, tour, iterations)
    requires SearchState(inst, initialTour, next, nextDistance, iterations + 1) && ImprovingStep(inst, tour, next)
    requires calculations == ScanCosts(inst, trace, iterations + 1) && 4 * (iterations + 1) <= calculations
    ensures LoopState(inst, initialTour, next, nextDistance, iterations + 1, true, calculations, trace + [next])
  {
    TraceStep(inst, initialTour, trace, tour, iterations, next);
  }

  /** After a pass that found nothing, the loop state holds with every tour
      of the trace scanned. */
  lemma FinalLoopState(inst: TspInstance, initialTour: seq<nat>, tour: seq<nat>, bestDistance: real, iterations: nat,
                       trace: seq<seq<nat>>, calculations: nat)
    requires ValidInstance(inst) && Trace(inst, initialTour, trace, tour, iterations)
    requires SearchState(inst, initialTour, tour, bestDistance, iterations) && LocallyOptimal(inst, tour)
    requires calculations == ScanCosts(inst, trace, iterations + 1) && 4 * iterations + 4 * PairCount(inst.numCities) <= calculations
    ensures LoopState(inst, initialTour, tour, bestDistance, iterations, false, calculations, trace)
  {
  }

  /** One pass of the loop with its bookkeeping: the lookups it makes are
      added, and the tour it produces, if any, is appended to the trace. */
  method CountedPass(inst: TspInstance, ghost initialTour: seq<nat>, tour: seq<nat>, bestDistance: real,
                     iterations: nat, calculations: nat, ghost trace: seq<seq<nat>>)
    returns (next: seq<nat>, nextDistance: real, nextIterations: nat, improved: bool, nextCalculations: nat,
             ghost nextTrace: seq<seq<nat>>)
    requires ValidInstance(inst) && Symmetric(inst)
    requires LoopState(inst, initialTour, tour, bestDistance, iterations, true, calculations, trace)
    ensures LoopState(inst, initialTour, next, nextDistance, nextIterations, improved, nextCalculations, nextTrace)
    ensures improved ==> nextIterations == iterations + 1
    ensures !improved ==> nextIterations == iterations
  {
    var spent;
    next, nextDistance, nextIterations, improved, spent := ImprovePass(inst, initialTour, tour, bestDistance, iterations);
    nextCalculations := calculations + spent;
    if improved {
      ImprovedLoopState(inst, initialTour, tour, iterations, trace, next, nextDistance, nextCalculations);
      nextTrace := trace + [next];
    } else {
      FinalLoopState(inst, initialTour, tour, bestDistance, iterations, trace, nextCalculations);
      nextTrace := trace;
    }
  }

  /** `_two_opt_improvement`. Passes are repeated while one finds an exchange;
      each exchange found is made at once and its change added to the
      running distance. Each exchange saves more than Eps (written out as
      1 / 10^10 below), which bounds the number of passes. The ghost trace
      lists the tour before each pass: every step is the first improving
      exchange of the tour before it, and the lookups are exactly those of
      one pass over each tour of the trace. */
  method TwoOptImprovement(inst: TspInstance, initialTour: seq<nat>)
    returns (tour: seq<nat>, bestDistance: real, iterations: nat, calculations: nat, ghost trace: seq<seq<nat>>)
    requires ValidInstance(inst) && Symmetric(inst) && IsTour(initialTour, inst.numCities)
    ensures IsTour(tour, inst.numCities)
    ensures inst.numCities > 0 ==> tour[0] == initialTour[0]
    ensures bestDistance == TourDistance(inst, tour)
    ensures bestDistance <= TourDistance(inst, initialTour) - iterations as real / 10000000000.0
    ensures LocallyOptimal(inst, tour)
    ensures iterations == 0 ==> tour == initialTour
    ensures 4 * PairCount(inst.numCities) + 4 * iterations <= calculations
    ensures |trace| == iterations + 1 && trace[0] == initialTour && trace[iterations] == tour
    ensures forall k :: 0 <= k < |trace| ==> Cities(inst, trace[k])
    ensures forall k :: 0 <= k < iterations ==> ImprovingStep(inst, trace[k], trace[k + 1])
    ensures forall k :: 0 <= k < iterations ==> FirstMoveMade(inst, trace[k], trace[k + 1])
    ensures calculations == ScanCosts(inst, trace, |trace|)
  {
    tour := initialTour;
    var measured := CalculateTourDistance(inst, tour);
    bestDistance := measured.value;
    iterations := 0;
    calculations := 0;
    var improved := true;
    trace := [tour];
    ghost var units := UnitsAbove(bestDistance);
    while improved
      invariant LoopState(inst, initialTour, tour, bestDistance, iterations, improved, calculations, trace)
      invariant iterations < units
      decreases units - iterations, improved
    {
      tour, bestDistance, iterations, improved, calculations, trace :=
        CountedPass(inst, initialTour, tour, bestDistance, iterations, calculations, trace);
    }
    forall k | 0 <= k < iterations
      ensures FirstMoveMade(inst, trace[k], trace[k + 1])
    {
      ImprovingStepIsFirstMove(inst, trace[k], trace[k + 1]);
    }
  }

  // ---------------------------------------------------------------------
  // The solver

  /** `best_distance` and `initial_distance` are None where the solver
      reports infinity. */
  datatype TwoOptResult = TwoOptResult(
    tourFound: bool,
    bestTour: Option<seq<nat>>,
    bestDistance: Option<real>,
    initialDistance: Option<real>,
    improvementIterations: nat,
    distanceCalculations: nat)

  /** `TSPTwoOpt.solve`. Fewer than two cities: no tour. Two cities: the tour
      [0, 1], with two lookups and no exchange. Otherwise the best nearest
      neighbour tour is improved by 2-opt, and the lookups of both stages are
      added up. */
  method SolveTwoOpt(inst: TspInstance) returns (r: TwoOptResult, ghost start: nat, ghost trace: seq<seq<nat>>)
    requires ValidInstance(inst) && Symmetric(inst)
    ensures inst.numCities < 2 ==> r == TwoOptResult(false, None, None, None, 0, 0)
    ensures inst.numCities == 2 ==>
      var d := TourDistance(inst, [0, 1]);
      r == TwoOptResult(true, Some([0, 1]), Some(d), Some(d), 0, 2)
    ensures inst.numCities >= 3 ==>
      && r.tourFound && r.bestTour.Some? && r.bestDistance.Some? && r.initialDistance.Some?
      && IsTour(r.bestTour.value, inst.numCities)
      && r.bestDistance.value == TourDistance(inst, r.bestTour.value)
      && LocallyOptimal(inst, r.bestTour.value)
      && (exists s :: 0 <= s < inst.numCities && r.initialDistance.value == NearestDistance(inst, s))
      && (forall s :: 0 <= s < inst.numCities ==> NearestDistance(inst, s) >= r.initialDistance.value)
      && r.bestDistance.value <= r.initialDistance.value - r.improvementIterations as real / 10000000000.0
      && inst.numCities * LookupsPerRun(inst.numCities) + 4 * PairCount(inst.numCities) + 4 * r.improvementIterations
           <= r.distanceCalculations
    ensures inst.numCities >= 3 ==>
      && start < inst.numCities
      && r.initialDistance == Some(NearestDistance(inst, start))
      && (forall s :: 0 <= s < start ==> NearestDistance(inst, s) > r.initialDistance.value)
      && |trace| == r.improvementIterations + 1
      && trace[0] == NearestTour(inst, start) && r.bestTour == Some(trace[r.improvementIterations])
      && (forall k :: 0 <= k < |trace| ==> Cities(inst, trace[k]))
      && (forall k :: 0 <= k < r.improvementIterations ==> ImprovingStep(inst, trace[k], trace[k + 1]))
      && r.distanceCalculations == inst.numCities * LookupsPerRun(inst.numCities) + ScanCosts(inst, trace, |trace|)
    ensures r.tourFound ==> IsTour(r.bestTour.value, inst.numCities)
  {
    var n := inst.numCities;
    if n < 2 {
      return TwoOptResult(false, None, None, None, 0, 0), 0, [];
    }
    if n == 2 {
      var tour: seq<nat> := [0, 1];
      var d := CalculateTourDistance(inst, tour);
      assert IsTour(tour, 2);
      return TwoOptResult(true, Some(tour), Some(d.value), Some(d.value), 0, 2), 0, [tour];
    }
    var nn := SolveNearestNeighbor(inst);
    var initialTour, initialDistance := nn.bestTour.value, nn.bestDistance.value;
    start := nn.startingCity.value;
    var tour, distance, iterations, additional;
    tour, distance, iterations, additional, trace := TwoOptImprovement(inst, initialTour);
    r := TwoOptResult(true, Some(tour), Some(distance), Some(initialDistance), iterations,
                      nn.distanceCalculations + additional);
  }
}
