/** Completeness of the propagation search below the iteration cap. Forward
    checking x := c removes c only from the domains of x's neighbours, and a
    solution that gives x the colour c never gives a neighbour c, so every
    solution consistent with the bindings survives pruning. Hence, as long as
    no call reaches the cap, a colourable problem gets coloured. */
module PropagationCompleteness {
  import opened Csp
  import opened Propagation
  import Backtracking
  import PropagationSoundness

  /** s is a solution that agrees with a and that every open domain still admits. */
  predicate Admits(p: Problem, a: Assignment, d: Domains, s: Assignment) {
    && IsSolution(p, s)
    && Extends(s, a)
    && forall y :: 0 <= y < |d| && y !in a ==> y in s && d[y].Some? && s[y] in d[y].value
  }

  /** The fresh domains admit every solution. */
  lemma InitialAdmits(p: Problem, s: Assignment)
    requires IsSolution(p, s)
    ensures Shape(p, map[], GenerateCsp(p)) && Admits(p, map[], GenerateCsp(p), s)
  {
  }

  /** Two neighbours get different colours from any solution. */
  lemma NeighboursDiffer(p: Problem, s: Assignment, x: int, u: int)
    requires IsSolution(p, s) && u in GetNeighbours(p, x) && x in s && u in s
    ensures s[x] != s[u]
  {
    assert p.Adjacent(x, u);
    var i :| 0 <= i < |p.constraints| && Joins(p.constraints[i], x, u);
  }

  /** Binding x to its colour in an admitted solution passes forward checking:
      a neighbour left with the single colour s[x] would have to share it. */
  lemma StepPasses(p: Problem, a: Assignment, d: Domains, x: int, s: Assignment)
    requires Shape(p, a, d) && Admits(p, a, d, s) && 0 <= x < p.n && x !in a
    ensures x in s && ForwardCheck(p, x, a[x := s[x]], d[x := None]).0
  {
    var a', d1 := a[x := s[x]], d[x := None];
    forall u | 0 <= u < |d1| ensures !Wipes(GetNeighbours(p, x), a', s[x], u, d1[u]) {
      StepSpares(p, a, d, x, s, u);
    }
  }

  /** The same, for one variable u. */
  lemma StepSpares(p: Problem, a: Assignment, d: Domains, x: int, s: Assignment, u: int)
    requires Shape(p, a, d) && Admits(p, a, d, s) && 0 <= x < p.n && x !in a && 0 <= u < |d|
    ensures x in s && !Wipes(GetNeighbours(p, x), a[x := s[x]], s[x], u, d[x := None][u])
  {
    var c := s[x];
    var a', d1 := a[x := c], d[x := None];
    if Wipes(GetNeighbours(p, x), a', c, u, d1[u]) {
      assert d1[u] == d[u];
      var dom := d[u].value;
      assert |dom| == 1 && c in dom && s[u] in dom;
      NeighboursDiffer(p, s, x, u);
      assert false;
    }
  }

  /** After that step the new domains still admit the solution. */
  lemma StepAdmits(p: Problem, a: Assignment, d: Domains, x: int, s: Assignment)
    requires Shape(p, a, d) && Admits(p, a, d, s) && 0 <= x < p.n && x !in a
    ensures x in s && Admits(p, a[x := s[x]], ForwardCheck(p, x, a[x := s[x]], d[x := None]).1, s)
  {
    var a', d1 := a[x := s[x]], d[x := None];
    var r := ForwardCheck(p, x, a', d1).1;
    assert Extends(s, a') by {
      forall v | v in a' ensures v in s && s[v] == a'[v] {
        if v != x {
          assert v in a;
        }
      }
    }
    forall y | 0 <= y < |r| && y !in a' ensures y in s && r[y].Some? && s[y] in r[y].value {
      StepAdmitsAt(p, a, d, x, s, y);
    }
  }

  /** The same, for one open variable y. */
  lemma StepAdmitsAt(p: Problem, a: Assignment, d: Domains, x: int, s: Assignment, y: int)
    requires Shape(p, a, d) && Admits(p, a, d, s) && 0 <= x < p.n && x !in a
    requires 0 <= y < |d| && y != x && y !in a
    ensures x in s && y in s
    ensures var r := ForwardCheck(p, x, a[x := s[x]], d[x := None]).1;
      r[y].Some? && s[y] in r[y].value
  {
    var c := s[x];
    var a', d1 := a[x := c], d[x := None];
    var r := ForwardCheck(p, x, a', d1).1;
    assert d1[y] == d[y];
    if r[y] != d1[y] {
      NeighboursDiffer(p, s, x, y);
      assert s[y] in multiset(d[y].value);
      assert s[y] in multiset(r[y].value);
    }
  }

  /** A search call whose domains admit a solution returns a colouring unless
      the counter has reached the cap by the time it returns. */
  lemma {:induction false} SearchComplete(p: Problem, a: Assignment, d: Domains, it: nat, s: Assignment)
    requires Shape(p, a, d) && Admits(p, a, d, s)
    ensures Search(p, a, d, it).result.Some? || Search(p, a, d, it).iter >= IterationCap
    decreases p.n - |a|, 2, 0
  {
    SubsetOfVars(a.Keys, p.n);
    if |a| < p.n && it + 1 != IterationCap {
      SearchCompleteBranch(p, a, d, it, s);
    }
  }

  /** The branching case: some variable is open, so the most constrained
      choice is a candidate and its value ordering offers the solution's colour. */
  lemma {:induction false} SearchCompleteBranch(p: Problem, a: Assignment, d: Domains, it: nat, s: Assignment)
    requires Shape(p, a, d) && Admits(p, a, d, s)
    requires |a| < p.n && it + 1 != IterationCap
    ensures Search(p, a, d, it).result.Some? || Search(p, a, d, it).iter >= IterationCap
    decreases p.n - |a|, 1, 0
  {
    var x := OpenChoice(p, a, d, s);
    var vals := ValueOrdering(p, x, a, d);
    assert Search(p, a, d, it) == TryValues(p, a, d, x, vals, it + 1);
    TryValuesComplete(p, a, d, x, vals, it + 1, s);
  }

  /** With a variable open, the most constrained choice is a candidate whose
      ordering offers the solution's colour. */
  lemma OpenChoice(p: Problem, a: Assignment, d: Domains, s: Assignment) returns (x: int)
    requires Shape(p, a, d) && Admits(p, a, d, s) && |a| < p.n
    ensures x == MakeAssignment(a, d) && Candidate(a, d, x) && Live(d[x])
    ensures x in s && s[x] in ValueOrdering(p, x, a, d)
  {
    SubsetOfVars(a.Keys, p.n);
    VarsCard(p.n);
    assert a.Keys != Vars(p.n);
    var y :| y in Vars(p.n) && y !in a.Keys;
    assert Candidate(a, d, y);
    x := MakeAssignment(a, d);
    assert s[x] in multiset(ValueOrdering(p, x, a, d));
  }

  /** The value loop reaches the solution's colour for x unless an earlier
      value's subtree already answered or ran the counter to the cap. */
  lemma {:induction false} TryValuesComplete(p: Problem, a: Assignment, d: Domains, x: int, vals: seq<int>, it: nat, s: Assignment)
    requires Shape(p, a, d) && Admits(p, a, d, s) && 0 <= x < p.n && x !in a
    requires x in s && s[x] in vals
    ensures TryValues(p, a, d, x, vals, it).result.Some? || TryValues(p, a, d, x, vals, it).iter >= IterationCap
    decreases p.n - |a|, 0, |vals|
  {
    var c := vals[0];
    var a' := a[x := c];
    Bind(p, a, x, c);
    BindShape(p, a, d, x, c);
    var fc := ForwardCheck(p, x, a', d[x := None]);
    if c == s[x] {
      StepPasses(p, a, d, x, s);
      StepAdmits(p, a, d, x, s);
      SearchComplete(p, a', fc.1, it, s);
    } else {
      assert s[x] in vals[1..];
      if fc.0 {
        var child := Search(p, a', fc.1, it);
        if child.result.None? {
          TryValuesComplete(p, a, d, x, vals[1..], child.iter, s);
        }
      } else {
        TryValuesComplete(p, a, d, x, vals[1..], it, s);
      }
    }
  }

  /** Mode 1 colours every colourable problem on which it stays below the cap. */
  lemma SolvePlusComplete(p: Problem)
    requires exists s :: IsSolution(p, s)
    ensures SolvePlus(p).result.Some? || SolvePlus(p).iter >= IterationCap
  {
    var s :| IsSolution(p, s);
    InitialAdmits(p, s);
    SearchComplete(p, map[], GenerateCsp(p), 0, s);
  }

  /** Below the cap the two engines agree on whether a colouring exists. */
  lemma EnginesAgree(p: Problem)
    ensures p.WellFormed() && p.NoSelfPairs() && SolvePlus(p).iter < IterationCap ==>
      (SolvePlus(p).result.Some? <==> Backtracking.Backtrack(p, map[]).result.Some?)
  {
    if p.WellFormed() && p.NoSelfPairs() {
      Backtracking.BacktrackDecides(p);
      PropagationSoundness.SolvePlusSound(p);
      if Backtracking.Backtrack(p, map[]).result.Some? {
        SolvePlusComplete(p);
      }
    }
  }
}
