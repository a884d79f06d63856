/** Boolean formulas in conjunctive normal form, their meaning, the exhaustive
    truth-table solver and the independent solution checker. */
module SatSolver {
  import opened Wrappers
  import opened Bitmask

  /** A clause is a disjunction of literals; literal `v` means variable v is
      true, literal `-v` that it is false (variables are numbered from 1). */
  type Clause = seq<int>

  datatype Formula = Formula(numVariables: nat, clauses: seq<Clause>)

  /** A literal names one of the variables 1..n. */
  predicate LiteralInRange(l: int, n: nat)
  {
    l != 0 && -(n as int) <= l <= n
  }

  /** Every literal of every clause names one of the n variables. */
  predicate ClausesInRange(clauses: seq<Clause>, n: nat)
  {
    forall i, k :: 0 <= i < |clauses| && 0 <= k < |clauses[i]| ==> LiteralInRange(clauses[i][k], n)
  }

  predicate WellFormed(f: Formula)
  {
    ClausesInRange(f.clauses, f.numVariables)
  }

  /** The 0-based position of the variable a literal names. */
  function VarIndex(l: int): nat
    requires l != 0
  {
    if l > 0 then l - 1 else -l - 1
  }

  /** A literal is true when its sign matches its variable's value. */
  predicate LiteralTrue(a: seq<bool>, l: int)
    requires LiteralInRange(l, |a|)
  {
    if l > 0 then a[l - 1] else !a[-l - 1]
  }

  ghost predicate ClauseTrue(a: seq<bool>, c: Clause)
    requires forall k :: 0 <= k < |c| ==> LiteralInRange(c[k], |a|)
  {
    exists k :: 0 <= k < |c| && LiteralTrue(a, c[k])
  }

  /** Every clause holds a literal made true by the assignment. */
  ghost predicate Satisfies(a: seq<bool>, clauses: seq<Clause>)
    requires ClausesInRange(clauses, |a|)
  {
    forall i :: 0 <= i < |clauses| ==> ClauseTrue(a, clauses[i])
  }

  ghost predicate Satisfiable(f: Formula)
    requires WellFormed(f)
  {
    exists a :: |a| == f.numVariables && Satisfies(a, f.clauses)
  }

  /** The inner literal loop of the evaluator: does some literal hold? */
  function EvaluateClause(a: seq<bool>, c: Clause): (r: bool)
    requires forall k :: 0 <= k < |c| ==> LiteralInRange(c[k], |a|)
    ensures r <==> ClauseTrue(a, c)
    ensures c == [] ==> !r
  {
    if c == [] then false
    else if LiteralTrue(a, c[0]) then true
    else
      var r := EvaluateClause(a, c[1..]);
      assert r ==> exists k :: 0 <= k < |c| && LiteralTrue(a, c[k]) by {
        if r {
          var k :| 0 <= k < |c[1..]| && LiteralTrue(a, c[1..][k]);
          assert c[k + 1] == c[1..][k];
        }
      }
      assert ClauseTrue(a, c) ==> r by {
        if ClauseTrue(a, c) {
          var k :| 0 <= k < |c| && LiteralTrue(a, c[k]);
          assert k != 0;
          assert c[1..][k - 1] == c[k];
        }
      }
      r
  }

  /** Checks a full truth assignment against every clause, stopping at the
      first clause none of whose literals holds. */
  function EvaluateAssignment(a: seq<bool>, clauses: seq<Clause>): (r: bool)
    requires ClausesInRange(clauses, |a|)
    ensures r <==> Satisfies(a, clauses)
    ensures clauses == [] ==> r
    ensures (exists i :: 0 <= i < |clauses| && clauses[i] == []) ==> !r
  {
    if clauses == [] then true
    else if !EvaluateClause(a, clauses[0]) then false
    else
      var r := EvaluateAssignment(a, clauses[1..]);
      assert Satisfies(a, clauses) <==> r by {
        if r {
          forall i | 0 <= i < |clauses|
            ensures ClauseTrue(a, clauses[i])
          {
            if i > 0 {
              assert clauses[i] == clauses[1..][i - 1];
            }
          }
        }
        if Satisfies(a, clauses) {
          forall i | 0 <= i < |clauses[1..]|
            ensures ClauseTrue(a, clauses[1..][i])
          {
            assert clauses[1..][i] == clauses[i + 1];
          }
        }
      }
      r
  }

  /** Satisfiability is decided by the counters 0 .. 2^n - 1 read as bitmasks. */
  lemma {:induction false} SatisfiableIffSomeMask(f: Formula)
    requires WellFormed(f)
    ensures Satisfiable(f) <==>
      exists m :: 0 <= m < Pow2(f.numVariables) && EvaluateAssignment(Bits(m, f.numVariables), f.clauses)
  {
    var n := f.numVariables;
    if Satisfiable(f) {
      var a :| |a| == n && Satisfies(a, f.clauses);
      var m := FromBits(a);
      assert 0 <= m < Pow2(n) && EvaluateAssignment(Bits(m, n), f.clauses);
      assert exists m' :: 0 <= m' < Pow2(f.numVariables) && EvaluateAssignment(Bits(m', f.numVariables), f.clauses);
    } else {
      forall m | 0 <= m < Pow2(n)
        ensures !EvaluateAssignment(Bits(m, n), f.clauses)
      {
        var a := Bits(m, n);
        assert |a| == n;
      }
    }
  }

  datatype BruteForceResult = BruteForceResult(
    satisfiable: bool,
    assignment: Option<seq<bool>>,
    assignmentsTried: nat)

  /** Exhaustive search: counter c stands for the assignment whose variable
      i + 1 is bit i of c; the first counter whose assignment satisfies every
      clause wins. */
  method SolveBruteForce(f: Formula) returns (r: BruteForceResult)
    requires WellFormed(f)
    ensures r.satisfiable ==>
      && 1 <= r.assignmentsTried <= Pow2(f.numVariables)
      && r.assignment == Some(Bits(r.assignmentsTried - 1, f.numVariables))
      && Satisfies(r.assignment.value, f.clauses)
    ensures r.satisfiable ==>
      forall c :: 0 <= c < r.assignmentsTried - 1 ==> !Satisfies(Bits(c, f.numVariables), f.clauses)
    ensures !r.satisfiable ==>
      r.assignment == None && r.assignmentsTried == Pow2(f.numVariables)
    ensures r.satisfiable <==> Satisfiable(f)
  {
    var n := f.numVariables;
    var assignmentsTried := 0;
    var counter := 0;
    while counter < Pow2(n)
      invariant counter <= Pow2(n)
      invariant assignmentsTried == counter
      invariant forall c :: 0 <= c < counter ==> !Satisfies(Bits(c, n), f.clauses)
    {
      assignmentsTried := assignmentsTried + 1;
      var assignment := DecodeCounter(counter, n);
      if EvaluateAssignment(assignment, f.clauses) {
        SatisfiableIffSomeMask(f);
        return BruteForceResult(true, Some(assignment), assignmentsTried);
      }
      counter := counter + 1;
    }
    SatisfiableIffSomeMask(f);
    return BruteForceResult(false, None, assignmentsTried);
  }

  /** The inner loop: variable i + 1 takes bit i of the counter, lowest bit
      first. */
  method DecodeCounter(counter: nat, n: nat) returns (assignment: seq<bool>)
    ensures assignment == Bits(counter, n)
  {
    assignment := [];
    var temp: nat := counter;
    for k := 0 to n
      invariant assignment + Bits(temp, n - k) == Bits(counter, n)
    {
      assert Bits(temp, n - k) == [temp % 2 == 1] + Bits(temp / 2, n - k - 1);
      assignment := assignment + [temp % 2 == 1];
      temp := temp / 2;
    }
  }

  datatype VerifyError = AssignmentLengthMismatch

  /** The independent checker: a wrong-length assignment is an error, any
      other is judged clause by clause. */
  function VerifySatSolution(f: Formula, a: seq<bool>): (r: Result<bool, VerifyError>)
    requires WellFormed(f)
    ensures r.Failure? <==> |a| != f.numVariables
    ensures r.Success? ==> (r.value <==> Satisfies(a, f.clauses))
  {
    if |a| != f.numVariables then Failure(AssignmentLengthMismatch)
    else Success(EvaluateAssignment(a, f.clauses))
  }
}
