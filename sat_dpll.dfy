/** The DPLL solver: clause simplification under a partial assignment, unit
    propagation, pure-literal elimination and branching on the lowest
    unassigned variable, true first. */
module SatDpll {
  import opened Wrappers
  import opened Bitmask
  import opened SatSolver

  /** A partial assignment: None is an unassigned variable. */
  type Partial = seq<Option<bool>>

  /** The literal is made true by the partial assignment. */
  predicate TrueUnder(p: Partial, l: int)
    requires LiteralInRange(l, |p|)
  {
    p[VarIndex(l)] == Some(l > 0)
  }

  /** The literal's variable has no value yet. */
  predicate UnassignedUnder(p: Partial, l: int)
    requires LiteralInRange(l, |p|)
  {
    p[VarIndex(l)].None?
  }

  /** The full assignment a agrees with every value p fixes. */
  ghost predicate Extends(a: seq<bool>, p: Partial)
  {
    |a| == |p| && forall v :: 0 <= v < |p| && p[v].Some? ==> a[v] == p[v].value
  }

  /** The assignment reported to the caller: unassigned variables read as false. */
  function Complete(p: Partial): (a: seq<bool>)
    ensures Extends(a, p)
    ensures forall v :: 0 <= v < |p| && p[v].None? ==> !a[v]
  {
    seq(|p|, v requires 0 <= v < |p| => p[v] == Some(true))
  }

  /** Every variable unassigned: the starting point of a solve. */
  function AllUnassigned(n: nat): (p: Partial)
    ensures |p| == n && forall v :: 0 <= v < n ==> p[v].None?
  {
    seq(n, v => None)
  }

  /** Fix the literal's variable so that the literal holds. */
  function Assign(p: Partial, l: int): (q: Partial)
    requires LiteralInRange(l, |p|)
    ensures |q| == |p| && TrueUnder(q, l)
  {
    p[VarIndex(l) := Some(l > 0)]
  }

  /** One clause under the partial assignment: None when one of its literals
      already holds (the clause is dropped), otherwise the clause without its
      falsified literals. */
  function SimplifyClause(c: Clause, p: Partial): (r: Option<Clause>)
    requires forall k :: 0 <= k < |c| ==> LiteralInRange(c[k], |p|)
    ensures r.None? <==> exists k :: 0 <= k < |c| && TrueUnder(p, c[k])
    ensures r.Some? ==> forall l :: l in r.value <==> l in c && UnassignedUnder(p, l)
  {
    if c == [] then Some([])
    else
      var l := c[0];
      var rest := SimplifyClause(c[1..], p);
      assert forall k :: 1 <= k < |c| ==> c[k] == c[1..][k - 1];
      assert forall l' :: l' in c <==> l' == l || l' in c[1..];
      if UnassignedUnder(p, l) then
        (match rest
         case None => None
         case Some(tail) => Some([l] + tail))
      else if TrueUnder(p, l) then None
      else rest
  }

  /** The simplification step: clauses satisfied by the partial assignment are
      dropped, falsified literals are removed from the others. */
  function Simplify(clauses: seq<Clause>, p: Partial): (r: seq<Clause>)
    requires ClausesInRange(clauses, |p|)
    ensures |r| <= |clauses|
    ensures Residual(r, p)
  {
    if clauses == [] then []
    else
      var rest := Simplify(clauses[1..], p);
      assert ClausesInRange(clauses[1..], |p|) by {
        forall i, k | 0 <= i < |clauses[1..]| && 0 <= k < |clauses[1..][i]|
          ensures LiteralInRange(clauses[1..][i][k], |p|)
        {
          assert clauses[1..][i] == clauses[i + 1];
        }
      }
      match SimplifyClause(clauses[0], p)
      case None => rest
      case Some(c) =>
        assert forall k :: 0 <= k < |c| ==> c[k] in c;
        [c] + rest
  }

  /** A one-literal clause: dropped when the literal holds, kept when it is
      unassigned, emptied when it is false. */
  lemma SimplifyClauseSingle(l: int, p: Partial)
    requires LiteralInRange(l, |p|)
    ensures SimplifyClause([l], p) ==
      if TrueUnder(p, l) then None
      else if UnassignedUnder(p, l) then Some([l])
      else Some([])
  {
    assert [l][1..] == [];
    assert SimplifyClause([], p) == Some([]);
    assert [l] + [] == [l];
  }

  /** Simplifying a clause piece by piece: it is dropped when either piece
      holds a true literal, and otherwise keeps the kept literals of the first
      piece followed by those of the second, in order and with repeats. With
      SimplifyClauseSingle this fixes the result for every clause. */
  lemma {:induction false} SimplifyClauseConcat(c: Clause, d: Clause, p: Partial)
    requires forall k :: 0 <= k < |c| ==> LiteralInRange(c[k], |p|)
    requires forall k :: 0 <= k < |d| ==> LiteralInRange(d[k], |p|)
    ensures forall k :: 0 <= k < |c + d| ==> LiteralInRange((c + d)[k], |p|)
    ensures SimplifyClause(c + d, p) ==
      if SimplifyClause(c, p).None? || SimplifyClause(d, p).None? then None
      else Some(SimplifyClause(c, p).value + SimplifyClause(d, p).value)
  {
    assert forall k :: 0 <= k < |c + d| ==> (c + d)[k] == if k < |c| then c[k] else d[k - |c|];
    if c == [] {
      assert c + d == d;
      assert SimplifyClause(c, p) == Some([]);
      if SimplifyClause(d, p).Some? {
        assert [] + SimplifyClause(d, p).value == SimplifyClause(d, p).value;
      }
    } else {
      assert (c + d)[1..] == c[1..] + d;
      SimplifyClauseConcat(c[1..], d, p);
      match SimplifyClause(c[1..] + d, p)
      case None =>
      case Some(t) =>
        if SimplifyClause(c[1..], p).Some? && SimplifyClause(d, p).Some? {
          assert [c[0]] + (SimplifyClause(c[1..], p).value + SimplifyClause(d, p).value)
            == ([c[0]] + SimplifyClause(c[1..], p).value) + SimplifyClause(d, p).value;
        }
    }
  }

  /** A one-clause list: empty when the clause is dropped, otherwise its
      simplified clause. */
  lemma SimplifySingle(c: Clause, p: Partial)
    requires forall k :: 0 <= k < |c| ==> LiteralInRange(c[k], |p|)
    ensures ClausesInRange([c], |p|)
    ensures Simplify([c], p) == match SimplifyClause(c, p) case None => [] case Some(c') => [c']
  {
    assert [c][1..] == [];
  }

  /** Simplifying a clause list piece by piece: the surviving clauses of
      a + b are those of a followed by those of b, in order. With
      SimplifySingle this fixes the result for every clause list. */
  lemma {:induction false} SimplifyConcat(a: seq<Clause>, b: seq<Clause>, p: Partial)
    requires ClausesInRange(a, |p|) && ClausesInRange(b, |p|)
    ensures ClausesInRange(a + b, |p|)
    ensures Simplify(a + b, p) == Simplify(a, p) + Simplify(b, p)
  {
    assert ClausesInRange(a + b, |p|) by {
      forall i, k | 0 <= i < |a + b| && 0 <= k < |(a + b)[i]|
        ensures LiteralInRange((a + b)[i][k], |p|)
      {
        if i < |a| {
          assert (a + b)[i] == a[i];
        } else {
          assert (a + b)[i] == b[i - |a|];
        }
      }
    }
    if a == [] {
      assert a + b == b;
    } else {
      assert (a + b)[1..] == a[1..] + b;
      assert ClausesInRange(a[1..], |p|) by {
        forall i, k | 0 <= i < |a[1..]| && 0 <= k < |a[1..][i]|
          ensures LiteralInRange(a[1..][i][k], |p|)
        {
          assert a[1..][i] == a[i + 1];
        }
      }
      SimplifyConcat(a[1..], b, p);
      match SimplifyClause(a[0], p)
      case None =>
      case Some(c) =>
        assert [c] + (Simplify(a[1..], p) + Simplify(b, p)) == ([c] + Simplify(a[1..], p)) + Simplify(b, p);
    }
  }

  /** Every literal left in the clause list names a variable still unassigned. */
  predicate Residual(clauses: seq<Clause>, p: Partial)
  {
    && ClausesInRange(clauses, |p|)
    && forall i, k :: 0 <= i < |clauses| && 0 <= k < |clauses[i]| ==> UnassignedUnder(p, clauses[i][k])
  }

  /** `any(len(clause) == 0 ...)`: a clause has become empty. */
  predicate HasEmptyClause(clauses: seq<Clause>)
  {
    exists i | 0 <= i < |clauses| :: |clauses[i]| == 0
  }

  /** The sole literal of the first clause of length one. */
  function FindUnitLiteral(clauses: seq<Clause>): (r: Option<int>)
    ensures r.Some? ==> Occurs(clauses, r.value)
    ensures r.Some? ==>
      exists i :: 0 <= i < |clauses| && clauses[i] == [r.value] && (forall j :: 0 <= j < i ==> |clauses[j]| != 1)
    ensures r.None? <==> forall i :: 0 <= i < |clauses| ==> |clauses[i]| != 1
  {
    if clauses == [] then None
    else if |clauses[0]| == 1 then Some(clauses[0][0])
    else
      var r := FindUnitLiteral(clauses[1..]);
      assert forall i :: 1 <= i < |clauses| ==> clauses[i] == clauses[1..][i - 1];
      if r.Some? then
        var i :| 0 <= i < |clauses[1..]| && clauses[1..][i] == [r.value] &&
          forall j :: 0 <= j < i ==> |clauses[1..][j]| != 1;
        assert clauses[i + 1] == [r.value];
        r
      else r
  }

  /** The literal l occurs in some clause. */
  ghost predicate Occurs(clauses: seq<Clause>, l: int)
  {
    exists i, k :: 0 <= i < |clauses| && 0 <= k < |clauses[i]| && clauses[i][k] == l
  }

  /** A literal found in a simplified list names an unassigned variable. */
  lemma OccursUnassigned(s: seq<Clause>, p: Partial, l: int)
    requires Residual(s, p) && Occurs(s, l)
    ensures LiteralInRange(l, |p|) && p[VarIndex(l)].None?
  {
    var i, k :| 0 <= i < |s| && 0 <= k < |s[i]| && s[i][k] == l;
  }

  /** All literals, clause by clause, in order of appearance. */
  function Literals(clauses: seq<Clause>): (r: seq<int>)
    ensures forall l :: l in r <==> Occurs(clauses, l)
  {
    if clauses == [] then []
    else
      var rest := Literals(clauses[1..]);
      assert forall l :: Occurs(clauses[1..], l) ==> Occurs(clauses, l) by {
        forall l | Occurs(clauses[1..], l)
          ensures Occurs(clauses, l)
        {
          var i, k :| 0 <= i < |clauses[1..]| && 0 <= k < |clauses[1..][i]| && clauses[1..][i][k] == l;
          assert clauses[i + 1][k] == l;
        }
      }
      assert forall l :: Occurs(clauses, l) ==> l in clauses[0] || Occurs(clauses[1..], l) by {
        forall l | Occurs(clauses, l)
          ensures l in clauses[0] || Occurs(clauses[1..], l)
        {
          var i, k :| 0 <= i < |clauses| && 0 <= k < |clauses[i]| && clauses[i][k] == l;
          if i > 0 {
            assert clauses[1..][i - 1][k] == l;
          }
        }
      }
      assert forall l :: l in clauses[0] ==> Occurs(clauses, l) by {
        forall l | l in clauses[0]
          ensures Occurs(clauses, l)
        {
          var k :| 0 <= k < |clauses[0]| && clauses[0][k] == l;
        }
      }
      clauses[0] + rest
  }

  /** The first literal of `candidates` whose negation is not in `all`. */
  function FirstPure(candidates: seq<int>, all: seq<int>): (r: Option<int>)
    ensures r.Some? ==> r.value in candidates && -r.value !in all
    ensures r.None? <==> forall l :: l in candidates ==> -l in all
  {
    if candidates == [] then None
    else if -candidates[0] !in all then Some(candidates[0])
    else
      var r := FirstPure(candidates[1..], all);
      assert forall l :: l in candidates <==> l == candidates[0] || l in candidates[1..];
      r
  }

  /** A literal that occurs while its negation does not, or None when every
      occurring variable appears in both polarities. */
  function FindPureLiteral(clauses: seq<Clause>): (r: Option<int>)
    ensures r.Some? ==> Occurs(clauses, r.value) && !Occurs(clauses, -r.value)
    ensures r.None? <==> forall l :: Occurs(clauses, l) ==> Occurs(clauses, -l)
  {
    var lits := Literals(clauses);
    FirstPure(lits, lits)
  }

  /** The 1-based number of the lowest unassigned variable at or after index i. */
  function FirstUnassignedFrom(p: Partial, i: nat): (r: Option<nat>)
    requires i <= |p|
    decreases |p| - i
    ensures r.Some? ==> (i < r.value <= |p| && p[r.value - 1].None? &&
      forall v :: i <= v < r.value - 1 ==> p[v].Some?)
    ensures r.None? <==> forall v :: i <= v < |p| ==> p[v].Some?
  {
    if i == |p| then None
    else if p[i].None? then Some(i + 1)
    else FirstUnassignedFrom(p, i + 1)
  }

  /** The branching variable: the lowest-numbered unassigned one. */
  function ChooseBranchVariable(p: Partial): (r: Option<nat>)
    ensures r.Some? ==> (1 <= r.value <= |p| && p[r.value - 1].None? &&
      forall v :: 0 <= v < r.value - 1 ==> p[v].Some?)
    ensures r.None? <==> forall v :: 0 <= v < |p| ==> p[v].Some?
  {
    FirstUnassignedFrom(p, 0)
  }

  /** The number of unassigned variables: the termination measure. */
  function CountUnassigned(p: Partial): nat
  {
    if p == [] then 0 else (if p[0].None? then 1 else 0) + CountUnassigned(p[1..])
  }

  lemma {:induction false} FixingDecreasesCount(p: Partial, v: nat, b: bool)
    requires v < |p| && p[v].None?
    ensures CountUnassigned(p[v := Some(b)]) == CountUnassigned(p) - 1
  {
    if v > 0 {
      assert p[v := Some(b)][1..] == p[1..][v - 1 := Some(b)];
      FixingDecreasesCount(p[1..], v - 1, b);
    }
  }

  /** What one DPLL call returns and leaves behind: the verdict, the contents
      of its assignment list afterwards, and how much it adds to each counter. */
  datatype Outcome = Outcome(sat: bool, final: Partial, tried: nat, units: nat, pures: nat)

  /** What a DPLL call does with its simplified clause list, in the order
      the source tests the cases. */
  datatype Move = Conflict | AllSatisfied | Unit(lit: int) | Pure(lit: int) | Branch(variable: nat)

  /** The move for a simplified list. The source's fallback of answering true
      when no variable is left to branch on cannot be reached: a non-empty
      list without an empty clause still mentions an unassigned variable. */
  function NextMove(s: seq<Clause>, p: Partial): (m: Move)
    requires Residual(s, p)
    ensures m.Unit? ==> LiteralInRange(m.lit, |p|) && p[VarIndex(m.lit)].None?
    ensures m.Unit? ==> exists i :: 0 <= i < |s| && s[i] == [m.lit]
    ensures m.Pure? ==> LiteralInRange(m.lit, |p|) && p[VarIndex(m.lit)].None?
    ensures m.Pure? ==> Occurs(s, m.lit) && !Occurs(s, -m.lit)
    ensures m.Branch? ==> 1 <= m.variable <= |p| && p[m.variable - 1].None?
  {
    if HasEmptyClause(s) then Conflict
    else if |s| == 0 then AllSatisfied
    else match FindUnitLiteral(s)
      case Some(l) =>
        OccursUnassigned(s, p, l);
        Unit(l)
      case None =>
        match FindPureLiteral(s)
        case Some(l) =>
          OccursUnassigned(s, p, l);
          Pure(l)
        case None =>
          SomeVariableUnassigned(s, p);
          Branch(ChooseBranchVariable(p).value)
  }

  /** The recursive DPLL search on the clause list and partial assignment it
      receives. Unit and pure assignments are made on the caller's list;
      each branch works on a copy that is written back only if it succeeds. */
  ghost function Search(clauses: seq<Clause>, p: Partial): (o: Outcome)
    requires ClausesInRange(clauses, |p|)
    ensures |o.final| == |p|
    decreases CountUnassigned(p), 1
  {
    var s := Simplify(clauses, p);
    match NextMove(s, p)
    case Conflict => Outcome(false, p, 0, 0, 0)
    case AllSatisfied => Outcome(true, p, 0, 0, 0)
    case Unit(l) =>
      FixingDecreasesCount(p, VarIndex(l), l > 0);
      var o := Search(s, Assign(p, l));
      o.(units := o.units + 1)
    case Pure(l) =>
      FixingDecreasesCount(p, VarIndex(l), l > 0);
      var o := Search(s, Assign(p, l));
      o.(pures := o.pures + 1)
    case Branch(v) => SearchBranch(s, p, v)
  }

  /** Both branches on variable v, true first; the negative one only runs
      when the positive one fails. */
  ghost function SearchBranch(s: seq<Clause>, p: Partial, v: nat): (o: Outcome)
    requires ClausesInRange(s, |p|)
    requires 1 <= v <= |p| && p[v - 1].None?
    ensures |o.final| == |p|
    decreases CountUnassigned(p), 0
  {
    FixingDecreasesCount(p, v - 1, true);
    FixingDecreasesCount(p, v - 1, false);
    var pos := Search(s, p[v - 1 := Some(true)]);
    if pos.sat then Outcome(true, pos.final, pos.tried + 1, pos.units, pos.pures)
    else
      var neg := Search(s, p[v - 1 := Some(false)]);
      Outcome(neg.sat, if neg.sat then neg.final else p,
              pos.tried + neg.tried + 2, pos.units + neg.units, pos.pures + neg.pures)
  }

  // ---------------------------------------------------------------------
  // Correctness of the search

  /** A literal that a full assignment makes true is either already true
      under the partial assignment it extends, or unassigned there. */
  lemma TrueLiteralUnassigned(a: seq<bool>, p: Partial, l: int)
    requires LiteralInRange(l, |p|) && Extends(a, p)
    requires LiteralTrue(a, l)
    ensures TrueUnder(p, l) || UnassignedUnder(p, l)
  {
    var v := VarIndex(l);
    if p[v].Some? {
      assert a[v] == p[v].value;
    }
  }

  /** Simplifying one clause does not change its value under any full
      assignment that agrees with the partial one. */
  lemma SimplifyClauseKeepsMeaning(c: Clause, p: Partial, a: seq<bool>)
    requires forall k :: 0 <= k < |c| ==> LiteralInRange(c[k], |p|)
    requires Extends(a, p)
    ensures SimplifyClause(c, p).None? ==> ClauseTrue(a, c)
    ensures SimplifyClause(c, p).Some? ==>
      var c' := SimplifyClause(c, p).value;
      (forall k :: 0 <= k < |c'| ==> LiteralInRange(c'[k], |a|)) &&
      (ClauseTrue(a, c') <==> ClauseTrue(a, c))
  {
    var r := SimplifyClause(c, p);
    if r.None? {
      var k :| 0 <= k < |c| && TrueUnder(p, c[k]);
      assert LiteralTrue(a, c[k]);
    } else {
      var c' := r.value;
      forall k | 0 <= k < |c'|
        ensures c'[k] in c
      {
        var l := c'[k];
        assert l in c';
        assert l in c && UnassignedUnder(p, l);
      }
      if ClauseTrue(a, c) {
        var k :| 0 <= k < |c| && LiteralTrue(a, c[k]);
        assert forall j :: 0 <= j < |c| ==> !TrueUnder(p, c[j]);
        TrueLiteralUnassigned(a, p, c[k]);
        assert c[k] in c';
        var k' :| 0 <= k' < |c'| && c'[k'] == c[k];
      }
      if ClauseTrue(a, c') {
        var k' :| 0 <= k' < |c'| && LiteralTrue(a, c'[k']);
        assert c'[k'] in c;
        var k :| 0 <= k < |c| && c[k] == c'[k'];
      }
    }
  }

  /** A clause list headed by c is satisfied when c and the rest are. */
  lemma SatisfiesCons(a: seq<bool>, c: Clause, rest: seq<Clause>)
    requires forall k :: 0 <= k < |c| ==> LiteralInRange(c[k], |a|)
    requires ClausesInRange(rest, |a|)
    ensures ClausesInRange([c] + rest, |a|)
    ensures Satisfies(a, [c] + rest) <==> ClauseTrue(a, c) && Satisfies(a, rest)
  {
    var s := [c] + rest;
    assert forall i :: 0 <= i < |rest| ==> rest[i] == s[i + 1];
    assert ClausesInRange(s, |a|) by {
      forall i, k | 0 <= i < |s| && 0 <= k < |s[i]|
        ensures LiteralInRange(s[i][k], |a|)
      {
        if i > 0 {
          assert s[i] == rest[i - 1];
        }
      }
    }
    if ClauseTrue(a, c) && Satisfies(a, rest) {
      forall i | 0 <= i < |s|
        ensures ClauseTrue(a, s[i])
      {
        if i > 0 {
          assert s[i] == rest[i - 1];
        }
      }
    }
    if Satisfies(a, s) {
      assert ClauseTrue(a, s[0]);
      forall i | 0 <= i < |rest|
        ensures ClauseTrue(a, rest[i])
      {
        assert ClauseTrue(a, s[i + 1]);
      }
    }
  }

  /** Simplification preserves the meaning of the clause list for every full
      assignment that agrees with the partial one. */
  lemma {:induction false} SimplifyKeepsMeaning(clauses: seq<Clause>, p: Partial, a: seq<bool>)
    requires ClausesInRange(clauses, |p|)
    requires Extends(a, p)
    ensures Satisfies(a, Simplify(clauses, p)) <==> Satisfies(a, clauses)
  {
    if clauses != [] {
      var rest := clauses[1..];
      assert ClausesInRange(rest, |p|) by {
        forall i, k | 0 <= i < |rest| && 0 <= k < |rest[i]|
          ensures LiteralInRange(rest[i][k], |p|)
        {
          assert rest[i] == clauses[i + 1];
        }
      }
      SimplifyKeepsMeaning(rest, p, a);
      SimplifyClauseKeepsMeaning(clauses[0], p, a);
      assert clauses == [clauses[0]] + rest;
      SatisfiesCons(a, clauses[0], rest);
      var s := Simplify(clauses, p);
      var srest := Simplify(rest, p);
      match SimplifyClause(clauses[0], p)
      case None =>
        assert s == srest;
      case Some(c) =>
        assert s == [c] + srest;
        SatisfiesCons(a, c, srest);
    }
  }

  /** Setting a pure literal true keeps every clause satisfied. */
  lemma PureLiteralKeepsSatisfied(s: seq<Clause>, a: seq<bool>, l: int)
    requires ClausesInRange(s, |a|)
    requires LiteralInRange(l, |a|)
    requires !Occurs(s, -l)
    requires Satisfies(a, s)
    ensures Satisfies(a[VarIndex(l) := l > 0], s)
  {
    var a' := a[VarIndex(l) := l > 0];
    forall i | 0 <= i < |s|
      ensures ClauseTrue(a', s[i])
    {
      var k :| 0 <= k < |s[i]| && LiteralTrue(a, s[i][k]);
      var m := s[i][k];
      if VarIndex(m) == VarIndex(l) {
        assert m == l || m == -l;
        assert m == l;
      }
      assert LiteralTrue(a', m);
    }
  }

  /** The invariant carried down the recursion: the current clause list means
      the same as the original formula for every full assignment that agrees
      with the partial one. */
  ghost predicate Equivalent(original: seq<Clause>, clauses: seq<Clause>, p: Partial)
    requires ClausesInRange(original, |p|) && ClausesInRange(clauses, |p|)
  {
    forall a :: Extends(a, p) ==> (Satisfies(a, original) <==> Satisfies(a, clauses))
  }

  /** Fixing one more variable keeps the invariant: fewer full assignments
      agree with the narrower partial one. */
  lemma FixKeepsEquivalent(original: seq<Clause>, clauses: seq<Clause>, p: Partial, v: nat, b: bool)
    requires ClausesInRange(original, |p|) && ClausesInRange(clauses, |p|)
    requires v < |p| && p[v].None?
    requires Equivalent(original, clauses, p)
    ensures Equivalent(original, clauses, p[v := Some(b)])
  {
    forall a | Extends(a, p[v := Some(b)])
      ensures Extends(a, p)
    {
    }
  }

  /** The simplified list keeps the invariant under the same partial assignment. */
  lemma SimplifyKeepsEquivalent(original: seq<Clause>, clauses: seq<Clause>, p: Partial)
    requires ClausesInRange(original, |p|) && ClausesInRange(clauses, |p|)
    requires Equivalent(original, clauses, p)
    ensures Equivalent(original, Simplify(clauses, p), p)
  {
    forall a | Extends(a, p)
      ensures Satisfies(a, original) <==> Satisfies(a, Simplify(clauses, p))
    {
      SimplifyKeepsMeaning(clauses, p, a);
    }
  }

  /** What SearchCorrect states about one outcome reached from p. */
  ghost predicate CorrectOutcome(original: seq<Clause>, p: Partial, o: Outcome)
    requires ClausesInRange(original, |p|) && |o.final| == |p|
  {
    && (o.sat ==> Satisfies(Complete(o.final), original))
    && (!o.sat ==> forall a :: Extends(a, p) ==> !Satisfies(a, original))
  }

  /** DPLL is sound and complete: a success leaves an assignment list whose
      completion satisfies the original formula, and a failure means that no
      full assignment agreeing with the partial one satisfies it. */
  lemma {:induction false} SearchCorrect(original: seq<Clause>, clauses: seq<Clause>, p: Partial)
    requires ClausesInRange(original, |p|) && ClausesInRange(clauses, |p|)
    requires Equivalent(original, clauses, p)
    ensures CorrectOutcome(original, p, Search(clauses, p))
    decreases CountUnassigned(p), 1
  {
    var s := Simplify(clauses, p);
    SimplifyKeepsEquivalent(original, clauses, p);
    match NextMove(s, p)
    case Conflict =>
      var i :| 0 <= i < |s| && |s[i]| == 0;
      forall a | Extends(a, p)
        ensures !Satisfies(a, original)
      {
        assert !ClauseTrue(a, s[i]);
      }
    case AllSatisfied =>
      assert Satisfies(Complete(p), s);
    case Unit(l) =>
      UnitStepCorrect(original, s, p, l);
    case Pure(l) =>
      PureStepCorrect(original, s, p, l);
    case Branch(v) =>
      BranchStepCorrect(original, s, p, v);
  }

  /** A non-empty simplified list without an empty clause still mentions an
      unassigned variable, so DPLL always finds one to branch on. */
  lemma SomeVariableUnassigned(s: seq<Clause>, p: Partial)
    requires Residual(s, p) && |s| > 0 && !HasEmptyClause(s)
    ensures ChooseBranchVariable(p).Some?
  {
    assert |s[0]| > 0;
    assert UnassignedUnder(p, s[0][0]);
  }

  /** A unit literal must hold in every solution, so fixing it loses none. */
  lemma UnitStepCorrect(original: seq<Clause>, s: seq<Clause>, p: Partial, l: int)
    requires ClausesInRange(original, |p|) && Residual(s, p)
    requires Equivalent(original, s, p)
    requires exists i :: 0 <= i < |s| && s[i] == [l]
    ensures LiteralInRange(l, |p|)
    ensures CorrectOutcome(original, p, Search(s, Assign(p, l)))
    decreases CountUnassigned(p), 0
  {
    var i :| 0 <= i < |s| && s[i] == [l];
    assert s[i][0] == l;
    var q := Assign(p, l);
    FixKeepsEquivalent(original, s, p, VarIndex(l), l > 0);
    FixingDecreasesCount(p, VarIndex(l), l > 0);
    SearchCorrect(original, s, q);
    forall a | Extends(a, p) && Satisfies(a, original)
      ensures Extends(a, q)
    {
      assert ClauseTrue(a, s[i]);
    }
  }

  /** Setting a pure literal true turns any solution into one that extends
      the new partial assignment. */
  lemma PureStepCorrect(original: seq<Clause>, s: seq<Clause>, p: Partial, l: int)
    requires ClausesInRange(original, |p|) && Residual(s, p)
    requires Equivalent(original, s, p)
    requires Occurs(s, l) && !Occurs(s, -l)
    ensures LiteralInRange(l, |p|)
    ensures CorrectOutcome(original, p, Search(s, Assign(p, l)))
    decreases CountUnassigned(p), 0
  {
    OccursUnassigned(s, p, l);
    var q := Assign(p, l);
    FixKeepsEquivalent(original, s, p, VarIndex(l), l > 0);
    FixingDecreasesCount(p, VarIndex(l), l > 0);
    SearchCorrect(original, s, q);
    if !Search(s, q).sat {
      forall a | Extends(a, p)
        ensures !Satisfies(a, original)
      {
        if Satisfies(a, original) {
          PureLiteralKeepsSatisfied(s, a, l);
          var a' := a[VarIndex(l) := l > 0];
          assert Extends(a', q);
        }
      }
    }
  }

  /** Every solution sets the branching variable one way or the other. */
  lemma BranchStepCorrect(original: seq<Clause>, s: seq<Clause>, p: Partial, v: nat)
    requires ClausesInRange(original, |p|) && ClausesInRange(s, |p|)
    requires Equivalent(original, s, p)
    requires 1 <= v <= |p| && p[v - 1].None?
    ensures CorrectOutcome(original, p, SearchBranch(s, p, v))
    decreases CountUnassigned(p), 0
  {
    var pt := p[v - 1 := Some(true)];
    var pf := p[v - 1 := Some(false)];
    FixKeepsEquivalent(original, s, p, v - 1, true);
    FixKeepsEquivalent(original, s, p, v - 1, false);
    FixingDecreasesCount(p, v - 1, true);
    FixingDecreasesCount(p, v - 1, false);
    SearchCorrect(original, s, pt);
    SearchCorrect(original, s, pf);
    if !Search(s, pt).sat && !Search(s, pf).sat {
      forall a | Extends(a, p)
        ensures !Satisfies(a, original)
      {
        if a[v - 1] {
          assert Extends(a, pt);
        } else {
          assert Extends(a, pf);
        }
      }
    }
  }

  /** Started from the all-unassigned list, DPLL answers exactly when the
      formula is satisfiable, so it agrees with the exhaustive search over the
      counters 0 .. 2^n - 1, and its reported assignment passes the checker. */
  lemma DpllAgreesWithBruteForce(f: Formula)
    requires WellFormed(f)
    ensures var o := Search(f.clauses, AllUnassigned(f.numVariables));
      && (o.sat <==> exists m :: 0 <= m < Pow2(f.numVariables) &&
                               EvaluateAssignment(Bits(m, f.numVariables), f.clauses))
      && (o.sat ==> VerifySatSolution(f, Complete(o.final)) == Success(true))
  {
    var p := AllUnassigned(f.numVariables);
    SearchCorrect(f.clauses, f.clauses, p);
    SatisfiableIffSomeMask(f);
    var o := Search(f.clauses, p);
    if !o.sat {
      forall a | |a| == f.numVariables
        ensures !Satisfies(a, f.clauses)
      {
        assert Extends(a, p);
      }
    }
  }

  datatype DpllResult = DpllResult(
    satisfiable: bool,
    assignment: Option<seq<bool>>,
    assignmentsTried: nat,
    unitPropagations: nat,
    pureEliminations: nat)

  /** The solver object: its three counters are fields that every recursive
      call updates. */
  class DpllSolver {
    var assignmentsTried: nat
    var unitPropagations: nat
    var pureEliminations: nat

    constructor ()
      ensures assignmentsTried == 0 && unitPropagations == 0 && pureEliminations == 0
    {
      assignmentsTried, unitPropagations, pureEliminations := 0, 0, 0;
    }

    /** Resets the counters, runs the search from the all-unassigned list and
        reports the completed assignment (unassigned variables as false). */
    method Solve(f: Formula) returns (r: DpllResult)
      requires WellFormed(f)
      modifies this
      ensures var o := Search(f.clauses, AllUnassigned(f.numVariables));
        && r.satisfiable == o.sat
        && r.assignment == (if o.sat then Some(Complete(o.final)) else None)
        && r.assignmentsTried == assignmentsTried == o.tried
        && r.unitPropagations == unitPropagations == o.units
        && r.pureEliminations == pureEliminations == o.pures
      ensures r.satisfiable <==> Satisfiable(f)
      ensures r.satisfiable ==> VerifySatSolution(f, r.assignment.value) == Success(true)
    {
      assignmentsTried, unitPropagations, pureEliminations := 0, 0, 0;
      var n := f.numVariables;
      var assignment := new Option<bool>[n](v => None);
      assert assignment[..] == AllUnassigned(n);
      var sat := Dpll(f.clauses, assignment);
      DpllAgreesWithBruteForce(f);
      SatisfiableIffSomeMask(f);
      if sat {
        r := DpllResult(true, Some(Complete(assignment[..])), assignmentsTried, unitPropagations, pureEliminations);
      } else {
        r := DpllResult(false, None, assignmentsTried, unitPropagations, pureEliminations);
      }
    }

    /** One recursive call: simplifies, then propagates a unit literal or
        eliminates a pure one on `assignment` itself, or branches on copies. */
    method Dpll(clauses: seq<Clause>, assignment: array<Option<bool>>) returns (sat: bool)
      requires ClausesInRange(clauses, assignment.Length)
      modifies this, assignment
      decreases CountUnassigned(assignment[..]), 2
      ensures var o := Search(clauses, old(assignment[..]));
        && sat == o.sat
        && assignment[..] == o.final
        && assignmentsTried == old(assignmentsTried) + o.tried
        && unitPropagations == old(unitPropagations) + o.units
        && pureEliminations == old(pureEliminations) + o.pures
    {
      var p := assignment[..];
      var s := Simplify(clauses, p);
      var m := NextMove(s, p);
      if m.Conflict? || m.AllSatisfied? {
        assert Search(clauses, p) == Outcome(m.AllSatisfied?, p, 0, 0, 0);
        sat := m.AllSatisfied?;
      } else if m.Unit? || m.Pure? {
        sat := Propagate(clauses, assignment, m.lit);
      } else {
        var v := m.variable;
        assert Search(clauses, p) == SearchBranch(s, p, v);
        assert 1 <= v <= |p| && p[v - 1].None?;
        assert ClausesInRange(s, assignment.Length) && assignment[v - 1].None?;
        sat := Branch(s, assignment, v);
      }
    }

    /** The unit and pure cases: the literal's counter goes up, the literal
        is made true on `assignment` itself, and the search recurses. */
    method Propagate(clauses: seq<Clause>, assignment: array<Option<bool>>, l: int) returns (sat: bool)
      requires ClausesInRange(clauses, assignment.Length)
      requires var p := assignment[..]; NextMove(Simplify(clauses, p), p) in {Unit(l), Pure(l)}
      modifies this, assignment
      decreases CountUnassigned(assignment[..]), 1
      ensures var o := Search(clauses, old(assignment[..]));
        && sat == o.sat
        && assignment[..] == o.final
        && assignmentsTried == old(assignmentsTried) + o.tried
        && unitPropagations == old(unitPropagations) + o.units
        && pureEliminations == old(pureEliminations) + o.pures
    {
      var p := assignment[..];
      var s := Simplify(clauses, p);
      if NextMove(s, p).Unit? {
        unitPropagations := unitPropagations + 1;
      } else {
        pureEliminations := pureEliminations + 1;
      }
      assignment[VarIndex(l)] := Some(l > 0);
      assert assignment[..] == Assign(p, l);
      FixingDecreasesCount(p, VarIndex(l), l > 0);
      sat := Dpll(s, assignment);
    }

    /** The two branches on variable v, true first, each on a copy of the
        assignment list that is copied back only when its search succeeds. */
    method Branch(s: seq<Clause>, assignment: array<Option<bool>>, v: nat) returns (sat: bool)
      requires ClausesInRange(s, assignment.Length)
      requires 1 <= v <= assignment.Length && assignment[v - 1].None?
      modifies this, assignment
      decreases CountUnassigned(assignment[..]), 1
      ensures var o := SearchBranch(s, old(assignment[..]), v);
        && sat == o.sat
        && assignment[..] == o.final
        && assignmentsTried == old(assignmentsTried) + o.tried
        && unitPropagations == old(unitPropagations) + o.units
        && pureEliminations == old(pureEliminations) + o.pures
    {
      var p := assignment[..];
      FixingDecreasesCount(p, v - 1, true);
      FixingDecreasesCount(p, v - 1, false);

      assignmentsTried := assignmentsTried + 1;
      var copy := CopyOf(assignment);
      copy[v - 1] := Some(true);
      assert copy[..] == p[v - 1 := Some(true)];
      sat := Dpll(s, copy);
      if sat {
        CopyBack(assignment, copy);
        return;
      }

      assignmentsTried := assignmentsTried + 1;
      copy := CopyOf(assignment);
      copy[v - 1] := Some(false);
      assert copy[..] == p[v - 1 := Some(false)];
      sat := Dpll(s, copy);
      if sat {
        CopyBack(assignment, copy);
      }
    }
  }

  /** `assignment[:]`: a fresh list with the same contents. */
  method CopyOf(a: array<Option<bool>>) returns (c: array<Option<bool>>)
    ensures fresh(c) && c[..] == a[..]
  {
    c := new Option<bool>[a.Length](k requires 0 <= k < a.Length reads a => a[k]);
  }

  /** `assignment[:] = assignment_copy`: overwrite dst with src's contents. */
  method CopyBack(dst: array<Option<bool>>, src: array<Option<bool>>)
    requires dst.Length == src.Length && dst != src
    modifies dst
    ensures dst[..] == src[..] && src[..] == old(src[..])
  {
    forall k | 0 <= k < dst.Length {
      dst[k] := src[k];
    }
  }
}
