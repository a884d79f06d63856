/** Tours as sequences of cities, and the permutations the exhaustive TSP
    solver enumerates, in the order `itertools.permutations` yields them. */
module TspTours {

  /** No city appears twice. */
  predicate Distinct(t: seq<nat>)
  {
    forall i, j :: 0 <= i < j < |t| ==> t[i] != t[j]
  }

  /** A tour over n cities: every city 0 .. n-1 exactly once. */
  predicate IsTour(t: seq<nat>, n: nat)
  {
    |t| == n && (forall k :: 0 <= k < |t| ==> t[k] < n) && Distinct(t)
  }

  /** The cities lo, lo+1, ..., hi-1. */
  function Range(lo: nat, hi: nat): (r: seq<nat>)
    requires lo <= hi
    ensures |r| == hi - lo && forall k :: 0 <= k < |r| ==> r[k] == lo + k
  {
    seq(hi - lo, k requires 0 <= k < hi - lo => lo + k)
  }

  function Factorial(n: nat): (r: nat)
    ensures r >= 1
  {
    if n == 0 then 1 else n * Factorial(n - 1)
  }

  /** s without its entry at position i. */
  function RemoveAt(s: seq<nat>, i: nat): (r: seq<nat>)
    requires i < |s|
    ensures |r| == |s| - 1
  {
    s[..i] + s[i + 1..]
  }

  /** Puts x in front of every sequence of ps. */
  function Prepend(x: nat, ps: seq<seq<nat>>): (r: seq<seq<nat>>)
    ensures |r| == |ps| && forall k :: 0 <= k < |ps| ==> r[k] == [x] + ps[k]
  {
    seq(|ps|, k requires 0 <= k < |ps| => [x] + ps[k])
  }

  /** `itertools.permutations(s)`: for each position i in order, s[i]
      followed by every permutation of the remaining entries. */
  function Perms(s: seq<nat>): (r: seq<seq<nat>>)
    ensures forall k :: 0 <= k < |r| ==> |r[k]| == |s|
    decreases |s|, 1
  {
    if s == [] then [[]] else PermsFrom(s, 0)
  }

  /** The permutations whose first entry comes from position i or later. */
  function PermsFrom(s: seq<nat>, i: nat): (r: seq<seq<nat>>)
    requires i <= |s|
    ensures forall k :: 0 <= k < |r| ==> i < |s| == |r[k]| && r[k][0] in s[i..]
    decreases |s|, 0, |s| - i
  {
    if i == |s| then [] else Prepend(s[i], Perms(RemoveAt(s, i))) + PermsFrom(s, i + 1)
  }

  /** There are |s|! permutations. */
  lemma {:induction false} PermsCount(s: seq<nat>)
    ensures |Perms(s)| == Factorial(|s|)
    decreases |s|, 1
  {
    if s != [] {
      PermsFromCount(s, 0);
    }
  }

  lemma {:induction false} PermsFromCount(s: seq<nat>, i: nat)
    requires i <= |s| && s != []
    ensures |PermsFrom(s, i)| == (|s| - i) * Factorial(|s| - 1)
    decreases |s|, 0, |s| - i
  {
    if i < |s| {
      PermsCount(RemoveAt(s, i));
      PermsFromCount(s, i + 1);
      OneMoreTimes(|s| - i, Factorial(|s| - 1));
    }
  }

  /** m copies of f are f and m - 1 more copies. */
  lemma OneMoreTimes(m: nat, f: nat)
    requires m >= 1
    ensures m * f == f + (m - 1) * f
  {
  }

  lemma RemoveAtMultiset(s: seq<nat>, i: nat)
    requires i < |s|
    ensures multiset(s) == multiset(RemoveAt(s, i)) + multiset{s[i]}
  {
    assert s == s[..i] + [s[i]] + s[i + 1..];
  }

  /** Putting x in front of sequences that all hold the same entries adds x
      to those entries. */
  lemma PrependMultiset(x: nat, ps: seq<seq<nat>>, m: multiset<nat>)
    requires forall q: seq<nat> :: q in ps ==> multiset(q) == m
    ensures forall p: seq<nat> :: p in Prepend(x, ps) ==> multiset(p) == m + multiset{x}
  {
    forall p: seq<nat> | p in Prepend(x, ps)
      ensures multiset(p) == m + multiset{x}
    {
      var k :| 0 <= k < |ps| && Prepend(x, ps)[k] == p;
      assert ps[k] in ps;
    }
  }

  /** Every enumerated sequence is a rearrangement of s. */
  lemma {:induction false} PermsSound(s: seq<nat>)
    ensures forall p: seq<nat> :: p in Perms(s) ==> multiset(p) == multiset(s)
    decreases |s|, 1
  {
    if s != [] {
      PermsFromSound(s, 0);
    }
  }

  lemma {:induction false} PermsFromSound(s: seq<nat>, i: nat)
    requires i <= |s|
    ensures forall p: seq<nat> :: p in PermsFrom(s, i) ==> multiset(p) == multiset(s)
    decreases |s|, 0, |s| - i
  {
    if i < |s| {
      var rest := RemoveAt(s, i);
      PermsSound(rest);
      PermsFromSound(s, i + 1);
      RemoveAtMultiset(s, i);
      PrependMultiset(s[i], Perms(rest), multiset(rest));
    }
  }

  /** Later starting positions enumerate a tail of the earlier ones. */
  lemma {:induction false} PermsFromGrows(s: seq<nat>, i: nat, j: nat)
    requires i <= j <= |s|
    ensures forall p: seq<nat> :: p in PermsFrom(s, j) ==> p in PermsFrom(s, i)
    decreases j - i
  {
    if i < j {
      PermsFromGrows(s, i + 1, j);
    }
  }

  /** Every rearrangement of s is enumerated. */
  lemma {:induction false} PermsComplete(s: seq<nat>, p: seq<nat>)
    requires multiset(p) == multiset(s)
    ensures p in Perms(s)
    decreases |s|
  {
    assert |p| == |multiset(p)| == |multiset(s)| == |s|;
    if s != [] {
      assert p[0] in multiset(s);
      var i :| 0 <= i < |s| && s[i] == p[0];
      var rest := RemoveAt(s, i);
      RemoveAtMultiset(s, i);
      assert p == [p[0]] + p[1..];
      assert multiset(p) == multiset(p[1..]) + multiset{p[0]};
      assert multiset(p[1..]) == multiset(p) - multiset{p[0]};
      assert multiset(rest) == multiset(s) - multiset{s[i]};
      PermsComplete(rest, p[1..]);
      var k :| 0 <= k < |Perms(rest)| && Perms(rest)[k] == p[1..];
      assert Prepend(s[i], Perms(rest))[k] == p;
      assert p in PermsFrom(s, i);
      PermsFromGrows(s, 0, i);
    }
  }

  // ---------------------------------------------------------------------
  // Tours and rearrangements

  /** In a sequence without repeats every entry is counted once. */
  lemma {:induction false} DistinctMultiset(t: seq<nat>)
    requires Distinct(t)
    ensures forall x :: multiset(t)[x] == (if x in t then 1 else 0)
  {
    if t != [] {
      var init := t[..|t| - 1];
      DistinctMultiset(init);
      assert t == init + [t[|t| - 1]];
    }
  }

  /** A sequence counting every entry at most once has no repeats. */
  lemma {:induction false} CountedOnceIsDistinct(t: seq<nat>)
    requires forall x :: multiset(t)[x] <= 1
    ensures Distinct(t)
  {
    if t != [] {
      var init := t[..|t| - 1];
      var x := t[|t| - 1];
      assert t == init + [x];
      assert multiset(t) == multiset(init) + multiset{x};
      forall y ensures multiset(init)[y] <= 1 {
        assert multiset(init)[y] <= multiset(t)[y];
      }
      CountedOnceIsDistinct(init);
      assert x !in init by {
        assert multiset(init)[x] == multiset(t)[x] - 1 <= 0;
      }
    }
  }

  /** A rearrangement of a tour is a tour. */
  lemma RearrangedTour(p: seq<nat>, t: seq<nat>, n: nat)
    requires IsTour(t, n) && multiset(p) == multiset(t)
    ensures IsTour(p, n)
  {
    assert |p| == |multiset(p)| == |multiset(t)| == |t|;
    DistinctMultiset(t);
    CountedOnceIsDistinct(p);
    forall k | 0 <= k < |p|
      ensures p[k] < n
    {
      assert p[k] in multiset(t);
    }
  }

  /** The entries of a sequence, as a set. */
  function Elements(t: seq<nat>): set<nat>
  {
    set x | x in t
  }

  lemma {:induction false} ElementsCount(t: seq<nat>)
    ensures |Elements(t)| <= |t|
    ensures |Elements(t)| == |t| <==> Distinct(t)
  {
    if t != [] {
      var init := t[..|t| - 1];
      var x := t[|t| - 1];
      ElementsCount(init);
      assert Elements(t) == Elements(init) + {x};
      if x in init {
        assert Elements(t) == Elements(init);
        var i :| 0 <= i < |init| && init[i] == x;
        assert t[i] == t[|t| - 1];
      } else {
        assert Distinct(t) <==> Distinct(init);
      }
    }
  }

  /** The cities of an n-city instance, as a set. */
  function AllCities(n: nat): set<nat>
  {
    Elements(Range(0, n))
  }

  lemma CitiesFacts(n: nat)
    ensures |AllCities(n)| == n
    ensures forall c: nat :: c in AllCities(n) <==> c < n
  {
    ElementsCount(Range(0, n));
    forall c: nat | c < n
      ensures c in AllCities(n)
    {
      assert Range(0, n)[c] == c;
    }
    forall c | c in AllCities(n)
      ensures c < n
    {
      var k :| 0 <= k < n && Range(0, n)[k] == c;
    }
  }

  /** A tour visits exactly the cities 0 .. n-1; a sequence of length n that
      visits exactly those cities is a tour. */
  lemma TourIffAllCities(t: seq<nat>, n: nat)
    requires |t| == n
    ensures IsTour(t, n) <==> Elements(t) == AllCities(n)
  {
    CitiesFacts(n);
    ElementsCount(t);
    if IsTour(t, n) {
      assert Elements(t) <= AllCities(n);
      SubsetSameSizeEqual(Elements(t), AllCities(n));
    }
    if Elements(t) == AllCities(n) {
      forall k | 0 <= k < |t|
        ensures t[k] < n
      {
        assert t[k] in Elements(t);
      }
    }
  }

  lemma {:induction false} SubsetSameSizeEqual(a: set<nat>, b: set<nat>)
    requires a <= b && |a| == |b|
    ensures a == b
  {
    if a != b {
      var x :| x in b && x !in a;
      assert a <= b - {x};
      SubsetSize(a, b - {x});
    }
  }

  lemma {:induction false} SubsetSize(a: set<nat>, b: set<nat>)
    requires a <= b
    ensures |a| <= |b|
  {
    if a != {} {
      var x :| x in a;
      SubsetSize(a - {x}, b - {x});
    }
  }

  /** Two sequences without repeats that hold the same cities are
      rearrangements of each other. */
  lemma DistinctSameElements(t: seq<nat>, r: seq<nat>)
    requires Distinct(t) && Distinct(r) && Elements(t) == Elements(r)
    ensures multiset(t) == multiset(r)
  {
    DistinctMultiset(t);
    DistinctMultiset(r);
    forall x ensures multiset(t)[x] == multiset(r)[x] {
      assert x in t <==> x in Elements(t);
      assert x in r <==> x in Elements(r);
    }
  }

  /** The tours that start at city 0 are exactly 0 followed by a
      rearrangement of 1 .. n-1. */
  lemma TourFromZero(p: seq<nat>, n: nat)
    requires n >= 1
    ensures IsTour([0] + p, n) <==> multiset(p) == multiset(Range(1, n))
  {
    var t := [0] + p;
    var r := Range(0, n);
    assert r == [0] + Range(1, n);
    assert IsTour(r, n);
    assert multiset(t) == multiset{0} + multiset(p);
    assert multiset(r) == multiset{0} + multiset(Range(1, n));
    if IsTour(t, n) {
      TourIffAllCities(t, n);
      TourIffAllCities(r, n);
      DistinctSameElements(t, r);
      assert multiset(p) == multiset(t) - multiset{0};
      assert multiset(Range(1, n)) == multiset(r) - multiset{0};
    }
    if multiset(p) == multiset(Range(1, n)) {
      RearrangedTour(t, r, n);
    }
  }
}
