/** Subset Sum: the exhaustive bitmask solver, the dynamic-programming table
    with backtracking reconstruction, the solution checker and the enumerator
    of all solutions. A subset is described by a choice vector: entry i says
    whether numbers[i] is taken. */
module SubsetSum {
  import opened Wrappers
  import opened Bitmask

  datatype Instance = Instance(numbers: seq<int>, target: int)

  /** `sum(s)`, adding from the left. */
  function Sum(s: seq<int>): int
  {
    if s == [] then 0 else Sum(s[..|s| - 1]) + s[|s| - 1]
  }

  /** The sum of the numbers a choice vector over a prefix of `numbers` takes. */
  function PrefixSum(numbers: seq<int>, b: seq<bool>): int
    requires |b| <= |numbers|
  {
    if b == [] then 0
    else PrefixSum(numbers, b[..|b| - 1]) + (if b[|b| - 1] then numbers[|b| - 1] else 0)
  }

  /** The numbers a choice vector takes, in index order. */
  function Picked(numbers: seq<int>, b: seq<bool>): seq<int>
    requires |b| <= |numbers|
  {
    if b == [] then []
    else Picked(numbers, b[..|b| - 1]) + (if b[|b| - 1] then [numbers[|b| - 1]] else [])
  }

  /** The indices a choice vector takes, in increasing order. */
  function Indices(b: seq<bool>): seq<nat>
  {
    if b == [] then []
    else Indices(b[..|b| - 1]) + (if b[|b| - 1] then [|b| - 1] else [])
  }

  /** Some subset of the numbers sums to the target. */
  ghost predicate Solvable(numbers: seq<int>, target: int)
  {
    exists b: seq<bool> :: |b| == |numbers| && PrefixSum(numbers, b) == target
  }

  /** Indices strictly increase and lie below `bound`. */
  predicate IncreasingBelow(indices: seq<nat>, bound: nat)
  {
    && (forall k :: 0 <= k < |indices| ==> indices[k] < bound)
    && (forall k, k' :: 0 <= k < k' < |indices| ==> indices[k] < indices[k'])
  }

  /** The reported subset lists exactly the numbers at the reported indices. */
  predicate Matches(numbers: seq<int>, subset: seq<int>, indices: seq<nat>)
  {
    |subset| == |indices| &&
    forall k :: 0 <= k < |indices| ==> indices[k] < |numbers| && subset[k] == numbers[indices[k]]
  }

  /** The indices a choice vector takes are increasing, below its length,
      and are exactly the positions it marks. */
  lemma {:induction false} IndicesFacts(b: seq<bool>)
    ensures IncreasingBelow(Indices(b), |b|)
    ensures forall i :: 0 <= i < |b| ==> (b[i] <==> i in Indices(b))
  {
    if b != [] {
      var init := b[..|b| - 1];
      IndicesFacts(init);
      assert forall i :: 0 <= i < |init| ==> init[i] == b[i];
    }
  }

  /** The numbers taken are the numbers at the indices taken. */
  lemma {:induction false} PickedMatches(numbers: seq<int>, b: seq<bool>)
    requires |b| <= |numbers|
    ensures Matches(numbers, Picked(numbers, b), Indices(b))
  {
    if b != [] {
      PickedMatches(numbers, b[..|b| - 1]);
    }
  }

  /** The numbers taken add up to the choice vector's sum. */
  lemma {:induction false} PickedSum(numbers: seq<int>, b: seq<bool>)
    requires |b| <= |numbers|
    ensures Sum(Picked(numbers, b)) == PrefixSum(numbers, b)
  {
    if b != [] {
      var init := b[..|b| - 1];
      PickedSum(numbers, init);
      var p := Picked(numbers, init);
      if b[|b| - 1] {
        var q := p + [numbers[|b| - 1]];
        assert Picked(numbers, b) == q;
        assert q[..|q| - 1] == p;
        assert Sum(q) == Sum(p) + numbers[|b| - 1];
      } else {
        assert Picked(numbers, b) == p;
      }
    }
  }

  /** The subset a choice vector describes: increasing indices, the numbers at
      those indices, and their sum is the choice vector's sum. */
  lemma SelectionFacts(numbers: seq<int>, b: seq<bool>)
    requires |b| <= |numbers|
    ensures IncreasingBelow(Indices(b), |b|)
    ensures Matches(numbers, Picked(numbers, b), Indices(b))
    ensures Sum(Picked(numbers, b)) == PrefixSum(numbers, b)
  {
    IndicesFacts(b);
    PickedMatches(numbers, b);
    PickedSum(numbers, b);
  }

  /** With non-negative numbers, no subset has a negative sum. */
  lemma {:induction false} PrefixSumNonNegative(numbers: seq<int>, b: seq<bool>)
    requires |b| <= |numbers|
    requires forall k :: 0 <= k < |numbers| ==> numbers[k] >= 0
    ensures PrefixSum(numbers, b) >= 0
  {
    if b != [] {
      PrefixSumNonNegative(numbers, b[..|b| - 1]);
    }
  }

  /** The choice vectors read off the counters 0 .. 2^n - 1 are all of them. */
  lemma SolvableIffSomeMask(numbers: seq<int>, target: int)
    ensures Solvable(numbers, target) <==>
      exists m :: 0 <= m < Pow2(|numbers|) && PrefixSum(numbers, Bits(m, |numbers|)) == target
  {
    var n := |numbers|;
    if Solvable(numbers, target) {
      var b: seq<bool> :| |b| == n && PrefixSum(numbers, b) == target;
      var m := FromBits(b);
      assert 0 <= m < Pow2(n) && PrefixSum(numbers, Bits(m, n)) == target;
      assert exists m' :: 0 <= m' < Pow2(|numbers|) && PrefixSum(numbers, Bits(m', |numbers|)) == target;
    }
  }

  /** Extending a choice vector by one entry, as the mask loops do. */
  lemma Extend(numbers: seq<int>, b: seq<bool>, i: nat)
    requires i < |b| <= |numbers|
    ensures b[..i + 1][..i] == b[..i]
    ensures PrefixSum(numbers, b[..i + 1]) == PrefixSum(numbers, b[..i]) + (if b[i] then numbers[i] else 0)
    ensures Picked(numbers, b[..i + 1]) == Picked(numbers, b[..i]) + (if b[i] then [numbers[i]] else [])
    ensures Indices(b[..i + 1]) == Indices(b[..i]) + (if b[i] then [i] else [])
  {
    assert b[..i + 1][..i] == b[..i];
  }

  /** The subset for counter m, built as the source does: bit i of m selects
      numbers[i]. Returns the subset, its indices and its sum. */
  method SubsetOfMask(numbers: seq<int>, mask: nat) returns (subset: seq<int>, indices: seq<nat>, sum: int)
    ensures var b := Bits(mask, |numbers|);
      && subset == Picked(numbers, b)
      && indices == Indices(b)
      && sum == PrefixSum(numbers, b)
  {
    var n := |numbers|;
    ghost var b := Bits(mask, n);
    subset, indices, sum := [], [], 0;
    for i := 0 to n
      invariant subset == Picked(numbers, b[..i])
      invariant indices == Indices(b[..i])
      invariant sum == PrefixSum(numbers, b[..i])
    {
      BitsAt(mask, n, i);
      Extend(numbers, b, i);
      if Bit(mask, i) {
        subset := subset + [numbers[i]];
        indices := indices + [i];
        sum := sum + numbers[i];
      }
    }
    assert b[..n] == b;
  }

  datatype SolveResult = SolveResult(
    solutionFound: bool,
    solutionSubset: Option<seq<int>>,
    solutionIndices: Option<seq<nat>>,
    subsetsTried: nat,
    target: int)

  /** A found solution: matching subset and indices, increasing indices, sum
      equal to the target. */
  predicate GoodSolution(numbers: seq<int>, target: int, r: SolveResult)
  {
    && r.solutionSubset.Some? && r.solutionIndices.Some?
    && Matches(numbers, r.solutionSubset.value, r.solutionIndices.value)
    && IncreasingBelow(r.solutionIndices.value, |numbers|)
    && Sum(r.solutionSubset.value) == target
  }

  /** Exhaustive search over the counters 0 .. 2^n - 1; the first counter whose
      subset sums to the target wins. */
  method SolveBruteForce(inst: Instance) returns (r: SolveResult)
    ensures r.target == inst.target
    ensures r.solutionFound ==>
      && 1 <= r.subsetsTried <= Pow2(|inst.numbers|)
      && r.solutionSubset == Some(Picked(inst.numbers, Bits(r.subsetsTried - 1, |inst.numbers|)))
      && r.solutionIndices == Some(Indices(Bits(r.subsetsTried - 1, |inst.numbers|)))
      && GoodSolution(inst.numbers, inst.target, r)
    ensures r.solutionFound ==> forall m :: 0 <= m < r.subsetsTried - 1 ==>
      PrefixSum(inst.numbers, Bits(m, |inst.numbers|)) != inst.target
    ensures !r.solutionFound ==>
      r.solutionSubset == None && r.solutionIndices == None && r.subsetsTried == Pow2(|inst.numbers|)
    ensures r.solutionFound <==> Solvable(inst.numbers, inst.target)
  {
    var numbers, target := inst.numbers, inst.target;
    var n := |numbers|;
    var subsetsTried := 0;
    var mask := 0;
    while mask < Pow2(n)
      invariant mask <= Pow2(n) && subsetsTried == mask
      invariant forall m :: 0 <= m < mask ==> PrefixSum(numbers, Bits(m, n)) != target
    {
      subsetsTried := subsetsTried + 1;
      var subset, indices, sum := SubsetOfMask(numbers, mask);
      if sum == target {
        SelectionFacts(numbers, Bits(mask, n));
        SolvableIffSomeMask(numbers, target);
        return SolveResult(true, Some(subset), Some(indices), subsetsTried, target);
      }
      mask := mask + 1;
    }
    SolvableIffSomeMask(numbers, target);
    return SolveResult(false, None, None, subsetsTried, target);
  }

  // ---------------------------------------------------------------------
  // Dynamic programming

  /** The meaning of table cell dp[i][j], as the fill loop computes it:
      row 0 is true only at j = 0, column 0 is always true, and otherwise a
      cell is the cell above, or the cell above shifted left by numbers[i-1]. */
  function Table(numbers: seq<int>, i: nat, j: nat): bool
    requires i <= |numbers|
    requires forall k :: 0 <= k < |numbers| ==> numbers[k] >= 0
  {
    if j == 0 then true
    else if i == 0 then false
    else Table(numbers, i - 1, j) || (numbers[i - 1] <= j && Table(numbers, i - 1, j - numbers[i - 1]))
  }

  /** dp[i][j] holds exactly when some subset of the first i numbers sums to j. */
  lemma {:induction false} TableMeaning(numbers: seq<int>, i: nat, j: nat)
    requires i <= |numbers|
    requires forall k :: 0 <= k < |numbers| ==> numbers[k] >= 0
    ensures Table(numbers, i, j) <==> exists b: seq<bool> :: |b| == i && PrefixSum(numbers, b) == j
  {
    if Table(numbers, i, j) {
      var b := TableWitness(numbers, i, j);
    }
    if b: seq<bool> :| |b| == i && PrefixSum(numbers, b) == j {
      TableComplete(numbers, b, j);
    }
  }

  /** The choice vector the backtracking finds for a true cell. */
  lemma {:induction false} TableWitness(numbers: seq<int>, i: nat, j: nat) returns (b: seq<bool>)
    requires i <= |numbers|
    requires forall k :: 0 <= k < |numbers| ==> numbers[k] >= 0
    requires Table(numbers, i, j)
    ensures |b| == i && PrefixSum(numbers, b) == j
  {
    if j == 0 {
      b := seq(i, k => false);
      AllFalseSumsToZero(numbers, b);
    } else if Table(numbers, i - 1, j) {
      var c := TableWitness(numbers, i - 1, j);
      b := c + [false];
      assert b[..i - 1] == c;
    } else {
      var c := TableWitness(numbers, i - 1, j - numbers[i - 1]);
      b := c + [true];
      assert b[..i - 1] == c;
    }
  }

  lemma {:induction false} AllFalseSumsToZero(numbers: seq<int>, b: seq<bool>)
    requires |b| <= |numbers|
    requires forall k :: 0 <= k < |b| ==> !b[k]
    ensures PrefixSum(numbers, b) == 0
  {
    if b != [] {
      AllFalseSumsToZero(numbers, b[..|b| - 1]);
    }
  }

  /** Every subset sum of the first |b| numbers is marked in the table. */
  lemma {:induction false} TableComplete(numbers: seq<int>, b: seq<bool>, j: nat)
    requires |b| <= |numbers|
    requires forall k :: 0 <= k < |numbers| ==> numbers[k] >= 0
    requires PrefixSum(numbers, b) == j
    ensures Table(numbers, |b|, j)
  {
    if j != 0 {
      var i := |b|;
      var c := b[..i - 1];
      PrefixSumNonNegative(numbers, c);
      if b[i - 1] {
        TableComplete(numbers, c, j - numbers[i - 1]);
      } else {
        TableComplete(numbers, c, j);
      }
    }
  }

  /** Fills the (n+1) x (target+1) table: column 0 first, then row by row. */
  method FillTable(numbers: seq<int>, target: nat) returns (dp: array2<bool>)
    requires forall k :: 0 <= k < |numbers| ==> numbers[k] >= 0
    ensures fresh(dp)
    ensures dp.Length0 == |numbers| + 1 && dp.Length1 == target + 1
    ensures forall i, j :: 0 <= i <= |numbers| && 0 <= j <= target ==> dp[i, j] == Table(numbers, i, j)
  {
    var n := |numbers|;
    dp := new bool[n + 1, target + 1]((i, j) => false);
    for i := 0 to n + 1
      invariant forall i', j' :: 0 <= i' < i && 0 <= j' <= target ==> dp[i', j'] == (j' == 0)
      invariant forall i', j' :: i <= i' <= n && 0 <= j' <= target ==> !dp[i', j']
    {
      dp[i, 0] := true;
    }
    for i := 1 to n + 1
      invariant forall i', j' :: 0 <= i' < i && 0 <= j' <= target ==> dp[i', j'] == Table(numbers, i', j')
      invariant forall i' :: i <= i' <= n ==> dp[i', 0]
    {
      FillRow(numbers, dp, i);
    }
  }

  /** The inner loop for row i: each cell from the row above. */
  method FillRow(numbers: seq<int>, dp: array2<bool>, i: nat)
    requires forall k :: 0 <= k < |numbers| ==> numbers[k] >= 0
    requires dp.Length0 == |numbers| + 1 && 1 <= i <= |numbers|
    requires forall i', j :: i' == i - 1 && 0 <= j < dp.Length1 ==> dp[i', j] == Table(numbers, i', j)
    requires dp.Length1 >= 1 && dp[i, 0]
    modifies dp
    ensures forall j :: 0 <= j < dp.Length1 ==> dp[i, j] == Table(numbers, i, j)
    ensures forall i', j :: 0 <= i' < dp.Length0 && 0 <= j < dp.Length1 && i' != i ==> dp[i', j] == old(dp[i', j])
  {
    for j := 1 to dp.Length1
      invariant forall j' :: 0 <= j' < j ==> dp[i, j'] == Table(numbers, i, j')
      invariant forall i', j' :: 0 <= i' < dp.Length0 && 0 <= j' < dp.Length1 && i' != i ==> dp[i', j'] == old(dp[i', j'])
    {
      dp[i, j] := dp[i - 1, j];
      if numbers[i - 1] <= j {
        dp[i, j] := dp[i, j] || dp[i - 1, j - numbers[i - 1]];
      }
    }
  }

  /** Backtracking from dp[n][target]: an element is taken when its row
      changes the cell's value. Appending and then reversing, as the source
      does, is written here as prepending. */
  method Reconstruct(numbers: seq<int>, target: nat, dp: array2<bool>) returns (subset: seq<int>, indices: seq<nat>)
    requires forall k :: 0 <= k < |numbers| ==> numbers[k] >= 0
    requires dp.Length0 == |numbers| + 1 && dp.Length1 == target + 1
    requires forall i, j :: 0 <= i <= |numbers| && 0 <= j <= target ==> dp[i, j] == Table(numbers, i, j)
    requires dp[|numbers|, target]
    ensures Matches(numbers, subset, indices)
    ensures IncreasingBelow(indices, |numbers|)
    ensures Sum(subset) == target
  {
    var i, j := |numbers|, target;
    subset, indices := [], [];
    while i > 0 && j > 0
      invariant 0 <= i <= |numbers| && 0 <= j <= target
      invariant dp[i, j]
      invariant Backtracked(numbers, target, i, j, subset, indices)
    {
      if dp[i, j] && !dp[i - 1, j] {
        BacktrackTake(numbers, target, i, j, subset, indices);
        subset := [numbers[i - 1]] + subset;
        indices := [i - 1] + indices;
        j := j - numbers[i - 1];
      }
      i := i - 1;
    }
  }

  /** The state of the backtracking at row i and column j: the elements
      taken so far come from rows i .. n, in increasing order, and sum to
      target - j. */
  ghost predicate Backtracked(numbers: seq<int>, target: int, i: nat, j: int, subset: seq<int>, indices: seq<nat>)
  {
    && Matches(numbers, subset, indices)
    && IncreasingBelow(indices, |numbers|)
    && (forall k :: 0 <= k < |indices| ==> i <= indices[k])
    && Sum(subset) + j == target
  }

  /** A cell that is true while the cell above is false takes numbers[i-1],
      which fits in j and leaves a true cell in the row above. */
  lemma BacktrackTake(numbers: seq<int>, target: int, i: nat, j: nat, subset: seq<int>, indices: seq<nat>)
    requires forall k :: 0 <= k < |numbers| ==> numbers[k] >= 0
    requires 0 < i <= |numbers| && 0 < j
    requires Table(numbers, i, j) && !Table(numbers, i - 1, j)
    requires Backtracked(numbers, target, i, j, subset, indices)
    ensures numbers[i - 1] <= j && Table(numbers, i - 1, j - numbers[i - 1])
    ensures Backtracked(numbers, target, i - 1, j - numbers[i - 1], [numbers[i - 1]] + subset, [i - 1] + indices)
  {
    SumPrepend(numbers[i - 1], subset);
  }

  lemma {:induction false} SumPrepend(x: int, s: seq<int>)
    ensures Sum([x] + s) == x + Sum(s)
  {
    if s != [] {
      var t := [x] + s;
      assert t[..|t| - 1] == [x] + s[..|s| - 1];
      SumPrepend(x, s[..|s| - 1]);
    }
  }

  datatype DpResult = DpResult(
    solutionFound: bool,
    solutionSubset: Option<seq<int>>,
    solutionIndices: Option<seq<nat>>,
    dpTableSize: int,
    target: int)

  /** The dynamic-programming solver, for non-negative numbers. */
  method SolveDp(inst: Instance) returns (r: DpResult)
    requires forall k :: 0 <= k < |inst.numbers| ==> inst.numbers[k] >= 0
    ensures r.target == inst.target
    ensures inst.target == 0 ==>
      r.solutionFound && r.solutionSubset == Some([]) && r.solutionIndices == Some([]) && r.dpTableSize == 0
    ensures inst.target < 0 ==>
      !r.solutionFound && r.solutionSubset == None && r.solutionIndices == None && r.dpTableSize == 0
    ensures inst.target > 0 ==> r.dpTableSize == (|inst.numbers| + 1) * (inst.target + 1)
    ensures r.solutionFound <==> Solvable(inst.numbers, inst.target)
    ensures r.solutionFound ==>
      && r.solutionSubset.Some? && r.solutionIndices.Some?
      && Matches(inst.numbers, r.solutionSubset.value, r.solutionIndices.value)
      && IncreasingBelow(r.solutionIndices.value, |inst.numbers|)
      && Sum(r.solutionSubset.value) == inst.target
    ensures !r.solutionFound ==> r.solutionSubset == None && r.solutionIndices == None
  {
    var numbers, target := inst.numbers, inst.target;
    var n := |numbers|;
    if target == 0 {
      AllFalseSumsToZero(numbers, seq(n, k => false));
      return DpResult(true, Some([]), Some([]), 0, target);
    }
    if target < 0 {
      if b: seq<bool> :| |b| == n && PrefixSum(numbers, b) == target {
        PrefixSumNonNegative(numbers, b);
      }
      return DpResult(false, None, None, 0, target);
    }
    var dp := FillTable(numbers, target);
    var size := (n + 1) * (target + 1);
    TableMeaning(numbers, n, target);
    if !dp[n, target] {
      return DpResult(false, None, None, size, target);
    }
    var subset, indices := Reconstruct(numbers, target, dp);
    return DpResult(true, Some(subset), Some(indices), size, target);
  }

  // ---------------------------------------------------------------------
  // Checker and enumerator

  datatype VerifyError = ElementNotInSet(element: int)

  /** The checker: the first element that does not occur among the numbers
      is an error; otherwise the verdict is whether the subset sums to the
      target. Only membership is checked, not multiplicity. */
  function VerifySubsetSumSolution(inst: Instance, subset: seq<int>): (r: Result<bool, VerifyError>)
    ensures r.Failure? <==> exists k :: 0 <= k < |subset| && subset[k] !in inst.numbers
    ensures r.Failure? ==> exists k :: (0 <= k < |subset| && subset[k] == r.error.element &&
      subset[k] !in inst.numbers && forall k' :: 0 <= k' < k ==> subset[k'] in inst.numbers)
    ensures r.Success? ==> (r.value <==> Sum(subset) == inst.target)
  {
    match FirstMissing(subset, inst.numbers, 0)
    case Some(e) => Failure(ElementNotInSet(e))
    case None => Success(Sum(subset) == inst.target)
  }

  /** The first element of s at or after position k that is not in numbers. */
  function FirstMissing(s: seq<int>, numbers: seq<int>, k: nat): (r: Option<int>)
    requires k <= |s|
    decreases |s| - k
    ensures r.None? <==> forall k' :: k <= k' < |s| ==> s[k'] in numbers
    ensures r.Some? ==> exists i :: (k <= i < |s| && s[i] == r.value && s[i] !in numbers &&
      forall k' :: k <= k' < i ==> s[k'] in numbers)
  {
    if k == |s| then None
    else if s[k] !in numbers then Some(s[k])
    else FirstMissing(s, numbers, k + 1)
  }

  /** Every subset of the numbers passes the checker with the verdict true
      exactly when it sums to the target. */
  lemma PickedPassesChecker(inst: Instance, b: seq<bool>)
    requires |b| == |inst.numbers|
    ensures VerifySubsetSumSolution(inst, Picked(inst.numbers, b)) ==
      Success(PrefixSum(inst.numbers, b) == inst.target)
  {
    SelectionFacts(inst.numbers, b);
  }

  /** The checker accepts an element twice when it occurs once: with numbers
      [1] and target 2 it confirms [1, 1], yet no subset of [1] sums to 2. */
  lemma MembershipCheckAcceptsRepeats()
    ensures VerifySubsetSumSolution(Instance([1], 2), [1, 1]) == Success(true)
    ensures !Solvable([1], 2)
  {
    assert Sum([1, 1]) == Sum([1]) + 1;
    forall b: seq<bool> | |b| == 1
      ensures PrefixSum([1], b) <= 1
    {
      assert b[..0] == [];
    }
  }

  /** The checker with multiplicity: every element must be matched by its own
      occurrence among the numbers. The first element used more often than it
      occurs is the error. */
  function VerifySubsetSumSolutionCounted(inst: Instance, subset: seq<int>): (r: Result<bool, VerifyError>)
    ensures r.Failure? <==> !(multiset(subset) <= multiset(inst.numbers))
    ensures r.Failure? ==> multiset(subset)[r.error.element] > multiset(inst.numbers)[r.error.element]
    ensures r.Success? ==> (r.value <==> Sum(subset) == inst.target)
  {
    match FirstOverused(subset, inst.numbers, 0)
    case Some(e) => Failure(ElementNotInSet(e))
    case None => Success(Sum(subset) == inst.target)
  }

  /** The first element of s, at or after position k, that s holds more
      copies of than numbers does. */
  function FirstOverused(s: seq<int>, numbers: seq<int>, k: nat): (r: Option<int>)
    requires k <= |s|
    decreases |s| - k
    ensures r.None? <==> forall k' :: k <= k' < |s| ==> multiset(s)[s[k']] <= multiset(numbers)[s[k']]
    ensures r.Some? ==> multiset(s)[r.value] > multiset(numbers)[r.value]
  {
    if k == |s| then None
    else if multiset(s)[s[k]] > multiset(numbers)[s[k]] then Some(s[k])
    else FirstOverused(s, numbers, k + 1)
  }

  lemma {:induction false} SumAppend(a: seq<int>, b: seq<int>)
    ensures Sum(a + b) == Sum(a) + Sum(b)
  {
    if b != [] {
      assert (a + b)[..|a + b| - 1] == a + b[..|b| - 1];
      SumAppend(a, b[..|b| - 1]);
    } else {
      assert a + b == a;
    }
  }

  /** A sub-multiset of the first i numbers is the subset of some choice
      vector over them, with the same sum. */
  lemma {:induction false} SubMultisetIsChoice(numbers: seq<int>, subset: seq<int>, i: nat) returns (b: seq<bool>)
    requires i <= |numbers|
    requires multiset(subset) <= multiset(numbers[..i])
    ensures |b| == i && PrefixSum(numbers, b) == Sum(subset)
  {
    if i == 0 {
      assert |multiset(subset)| == 0;
      assert subset == [];
      b := [];
    } else {
      var x := numbers[i - 1];
      assert numbers[..i] == numbers[..i - 1] + [x];
      if x in subset {
        var k :| 0 <= k < |subset| && subset[k] == x;
        var rest := subset[..k] + subset[k + 1..];
        assert subset == subset[..k] + [x] + subset[k + 1..];
        assert multiset(rest) == multiset(subset) - multiset{x};
        SumAppend(subset[..k] + [x], subset[k + 1..]);
        SumAppend(subset[..k], [x]);
        SumAppend(subset[..k], subset[k + 1..]);
        assert Sum([x]) == Sum([]) + x;
        var c := SubMultisetIsChoice(numbers, rest, i - 1);
        b := c + [true];
        assert b[..i - 1] == c;
      } else {
        assert multiset(subset)[x] == 0;
        assert multiset(subset) <= multiset(numbers[..i - 1]);
        var c := SubMultisetIsChoice(numbers, subset, i - 1);
        b := c + [false];
        assert b[..i - 1] == c;
      }
    }
  }

  /** The counted checker's verdict true means the instance is solvable. */
  lemma CountedCheckerSound(inst: Instance, subset: seq<int>)
    requires VerifySubsetSumSolutionCounted(inst, subset) == Success(true)
    ensures Solvable(inst.numbers, inst.target)
  {
    assert inst.numbers[..|inst.numbers|] == inst.numbers;
    var b := SubMultisetIsChoice(inst.numbers, subset, |inst.numbers|);
  }

  /** The subset of a choice vector is a sub-multiset of the numbers. */
  lemma {:induction false} PickedIsSubMultiset(numbers: seq<int>, b: seq<bool>)
    requires |b| <= |numbers|
    ensures multiset(Picked(numbers, b)) <= multiset(numbers[..|b|])
  {
    if b != [] {
      var i := |b|;
      PickedIsSubMultiset(numbers, b[..i - 1]);
      assert numbers[..i] == numbers[..i - 1] + [numbers[i - 1]];
    }
  }

  /** Every subset of the numbers passes the counted checker, with the verdict
      true exactly when it sums to the target. */
  lemma PickedPassesCountedChecker(inst: Instance, b: seq<bool>)
    requires |b| == |inst.numbers|
    ensures VerifySubsetSumSolutionCounted(inst, Picked(inst.numbers, b)) ==
      Success(PrefixSum(inst.numbers, b) == inst.target)
  {
    PickedIsSubMultiset(inst.numbers, b);
    assert inst.numbers[..|b|] == inst.numbers;
    PickedSum(inst.numbers, b);
  }

  /** The subsets for counters 0 .. k - 1 that sum to the target, in counter order. */
  function SolutionsBelow(numbers: seq<int>, target: int, k: nat): (r: seq<seq<int>>)
    ensures |r| <= k
  {
    if k == 0 then []
    else
      var b := Bits(k - 1, |numbers|);
      SolutionsBelow(numbers, target, k - 1) +
        (if PrefixSum(numbers, b) == target then [Picked(numbers, b)] else [])
  }

  /** s is the subset of some counter below k, and that subset sums to the target. */
  ghost predicate SolutionOfCounterBelow(numbers: seq<int>, target: int, k: nat, s: seq<int>)
  {
    exists m :: 0 <= m < k && PrefixSum(numbers, Bits(m, |numbers|)) == target && s == Picked(numbers, Bits(m, |numbers|))
  }

  /** Every listed subset comes from a counter below k and sums to the target,
      and every such counter's subset is listed. */
  lemma {:induction false} SolutionsBelowExact(numbers: seq<int>, target: int, k: nat)
    ensures forall s :: s in SolutionsBelow(numbers, target, k) ==> Sum(s) == target
    ensures forall s :: s in SolutionsBelow(numbers, target, k) <==> SolutionOfCounterBelow(numbers, target, k, s)
  {
    if k > 0 {
      var n := |numbers|;
      SolutionsBelowExact(numbers, target, k - 1);
      var b := Bits(k - 1, n);
      SelectionFacts(numbers, b);
      var prev := SolutionsBelow(numbers, target, k - 1);
      var all := SolutionsBelow(numbers, target, k);
      assert all == prev + (if PrefixSum(numbers, b) == target then [Picked(numbers, b)] else []);
      forall s
        ensures s in all <==> SolutionOfCounterBelow(numbers, target, k, s)
      {
        if s in prev {
          var m :| 0 <= m < k - 1 && PrefixSum(numbers, Bits(m, n)) == target && s == Picked(numbers, Bits(m, n));
          assert 0 <= m < k && PrefixSum(numbers, Bits(m, n)) == target && s == Picked(numbers, Bits(m, n));
        }
        if s in all && s !in prev {
          assert PrefixSum(numbers, b) == target;
          assert all == prev + [Picked(numbers, b)];
          assert s == Picked(numbers, b);
          assert 0 <= k - 1 < k && PrefixSum(numbers, Bits(k - 1, n)) == target && s == Picked(numbers, Bits(k - 1, n));
        }
        if m :| 0 <= m < k && PrefixSum(numbers, Bits(m, n)) == target && s == Picked(numbers, Bits(m, n)) {
          if m < k - 1 {
            assert s in prev;
          } else {
            assert all == prev + [s];
            assert all[|prev|] == s;
          }
        }
      }
      assert forall s :: s in all ==> Sum(s) == target;
    } else {
      assert SolutionsBelow(numbers, target, 0) == [];
    }
  }

  /** All subsets summing to the target, in counter order. */
  method FindAllSolutions(inst: Instance) returns (all: seq<seq<int>>)
    ensures all == SolutionsBelow(inst.numbers, inst.target, Pow2(|inst.numbers|))
    ensures forall s :: s in all ==> Sum(s) == inst.target
    ensures |all| > 0 <==> Solvable(inst.numbers, inst.target)
  {
    var numbers, target := inst.numbers, inst.target;
    var n := |numbers|;
    all := [];
    var mask := 0;
    while mask < Pow2(n)
      invariant mask <= Pow2(n)
      invariant all == SolutionsBelow(numbers, target, mask)
    {
      var subset, indices, sum := SubsetOfMask(numbers, mask);
      if sum == target {
        all := all + [subset];
      }
      mask := mask + 1;
    }
    AllSolutionsMeaning(numbers, target);
  }

  /** The full list holds only subsets summing to the target, and is empty
      exactly when no subset does. */
  lemma AllSolutionsMeaning(numbers: seq<int>, target: int)
    ensures forall s :: s in SolutionsBelow(numbers, target, Pow2(|numbers|)) ==> Sum(s) == target
    ensures |SolutionsBelow(numbers, target, Pow2(|numbers|))| > 0 <==> Solvable(numbers, target)
  {
    var n := |numbers|;
    var all := SolutionsBelow(numbers, target, Pow2(n));
    SolutionsBelowExact(numbers, target, Pow2(n));
    SolvableIffSomeMask(numbers, target);
    if Solvable(numbers, target) {
      var m :| 0 <= m < Pow2(n) && PrefixSum(numbers, Bits(m, n)) == target;
      assert SolutionOfCounterBelow(numbers, target, Pow2(n), Picked(numbers, Bits(m, n)));
    }
    if |all| > 0 {
      assert all[0] in all;
      assert SolutionOfCounterBelow(numbers, target, Pow2(n), all[0]);
    }
  }

  /** With positive numbers and target 0, the only solution is the empty subset. */
  lemma ZeroTargetOnlyEmpty(numbers: seq<int>)
    requires forall k :: 0 <= k < |numbers| ==> numbers[k] > 0
    ensures SolutionsBelow(numbers, 0, Pow2(|numbers|)) == [[]]
  {
    ZeroTargetBelow(numbers, Pow2(|numbers|));
  }

  lemma {:induction false} ZeroTargetBelow(numbers: seq<int>, k: nat)
    requires forall k :: 0 <= k < |numbers| ==> numbers[k] > 0
    requires 1 <= k <= Pow2(|numbers|)
    ensures SolutionsBelow(numbers, 0, k) == [[]]
  {
    var n := |numbers|;
    if k == 1 {
      ZeroHasNoBits(n);
      AllFalseSumsToZero(numbers, Bits(0, n));
      AllFalsePicksNothing(numbers, Bits(0, n));
    } else {
      ZeroTargetBelow(numbers, k - 1);
      var m := k - 1;
      if forall i :: 0 <= i < n ==> !Bit(m, i) {
        NoBitSetIsZero(m, n);
      }
      var i :| 0 <= i < n && Bit(m, i);
      BitsAt(m, n, i);
      TakenPositive(numbers, Bits(m, n), i);
    }
  }

  lemma {:induction false} ZeroHasNoBits(n: nat)
    ensures forall i :: 0 <= i < n ==> !Bits(0, n)[i]
  {
    if n > 0 {
      ZeroHasNoBits(n - 1);
      assert Bits(0, n) == [false] + Bits(0, n - 1);
    }
  }

  lemma {:induction false} AllFalsePicksNothing(numbers: seq<int>, b: seq<bool>)
    requires |b| <= |numbers|
    requires forall k :: 0 <= k < |b| ==> !b[k]
    ensures Picked(numbers, b) == []
  {
    if b != [] {
      AllFalsePicksNothing(numbers, b[..|b| - 1]);
    }
  }

  /** With positive numbers, taking any element makes the sum positive. */
  lemma {:induction false} TakenPositive(numbers: seq<int>, b: seq<bool>, i: nat)
    requires |b| <= |numbers|
    requires forall k :: 0 <= k < |numbers| ==> numbers[k] > 0
    requires i < |b| && b[i]
    ensures PrefixSum(numbers, b) > 0
  {
    var c := b[..|b| - 1];
    PrefixSumNonNegative(numbers, c);
    if i < |b| - 1 {
      TakenPositive(numbers, c, i);
    }
  }
}
