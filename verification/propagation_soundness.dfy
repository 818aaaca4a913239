/** Properties of the propagation search: the invariant forward checking keeps,
    soundness when no constraint is a self-pair, what the iteration cap does,
    the self-pair that forward checking never looks at, and an out-of-range
    endpoint that the search never reads. */
module PropagationSoundness {
  import opened Csp
  import opened Propagation
  import Backtracking

  /** An open domain lists distinct colours. */
  predicate DomainOk(p: Problem, s: seq<int>) {
    && (forall i, j :: 0 <= i < j < |s| ==> s[i] != s[j])
    && (forall i :: 0 <= i < |s| ==> p.IsColour(s[i]))
  }

  /** If x is assigned and y is not, y's domain no longer offers x's colour. */
  predicate Pruned(a: Assignment, d: Domains, x: int, y: int) {
    x in a && 0 <= y < |d| && y !in a ==> d[y].Some? && a[x] !in d[y].value
  }

  /** The invariant of the search: assigned variables carry colours and no
      clash, exactly the unassigned ones have a domain, and every domain has
      lost the colours of its assigned neighbours. */
  ghost predicate Inv(p: Problem, a: Assignment, d: Domains) {
    && Shape(p, a, d)
    && (forall v :: v in a ==> p.IsColour(a[v]))
    && (forall v :: 0 <= v < |d| && d[v].Some? ==> DomainOk(p, d[v].value))
    && NoClash(p, a)
    && (forall i :: 0 <= i < |p.constraints| ==>
          Pruned(a, d, p.constraints[i].0, p.constraints[i].1) &&
          Pruned(a, d, p.constraints[i].1, p.constraints[i].0))
  }

  /** The domains `generate_csp` builds meet the invariant with nothing assigned. */
  lemma InitialInv(p: Problem)
    ensures Inv(p, map[], GenerateCsp(p))
  {
    var d := GenerateCsp(p);
    forall v | 0 <= v < |d|
      ensures d[v].Some? && DomainOk(p, d[v].value)
    {
      assert d[v].value == Palette(p.k);
    }
  }

  lemma RemoveFirstOk(p: Problem, s: seq<int>, c: int)
    requires DomainOk(p, s) && c in s
    ensures DomainOk(p, RemoveFirst(s, c))
    ensures c !in RemoveFirst(s, c)
    ensures forall y :: y in RemoveFirst(s, c) ==> y in s
  {
    assert s == [s[0]] + s[1..];
    if s[0] != c {
      var t := RemoveFirst(s[1..], c);
      RemoveFirstOk(p, s[1..], c);
      assert RemoveFirst(s, c) == [s[0]] + t;
      assert s[0] !in t by {
        forall j | 0 <= j < |s[1..]| ensures s[1..][j] != s[0] {
          assert s[1..][j] == s[j + 1];
        }
      }
    }
  }

  /** Binding x to c and forward checking keeps the bookkeeping parts of the invariant. */
  lemma StepShape(p: Problem, a: Assignment, d: Domains, x: int, c: int)
    requires Inv(p, a, d) && 0 <= x < p.n && x !in a && c in d[x].value
    ensures var fc := ForwardCheck(p, x, a[x := c], d[x := None]);
      && Shape(p, a[x := c], fc.1)
      && p.IsColour(c)
      && (forall v :: 0 <= v < |fc.1| && fc.1[v].Some? ==> DomainOk(p, fc.1[v].value))
  {
    var a', d1 := a[x := c], d[x := None];
    var r := ForwardCheck(p, x, a', d1).1;
    Bind(p, a, x, c);
    assert DomainOk(p, d[x].value);
    forall v | 0 <= v < |r| && r[v].Some?
      ensures DomainOk(p, r[v].value)
    {
      if r[v] != d1[v] {
        RemoveFirstOk(p, d1[v].value, c);
      }
    }
  }

  /** The new binding clashes with no assigned neighbour: its colour was still
      in x's domain, which had lost theirs. */
  lemma StepNoClash(p: Problem, a: Assignment, d: Domains, x: int, c: int)
    requires p.NoSelfPairs() && Inv(p, a, d) && 0 <= x < p.n && x !in a && c in d[x].value
    ensures NoClash(p, a[x := c])
  {
    var a' := a[x := c];
    forall i | 0 <= i < |p.constraints| && p.constraints[i].0 in a' && p.constraints[i].1 in a'
      ensures a'[p.constraints[i].0] != a'[p.constraints[i].1]
    {
      var (u, v) := p.constraints[i];
      assert Pruned(a, d, u, v) && Pruned(a, d, v, u);
    }
  }

  /** After a successful forward check, every constraint from an assigned to an
      unassigned variable has had the assigned colour pruned. */
  lemma StepPruned(p: Problem, a: Assignment, d: Domains, x: int, c: int)
    requires p.WellFormed() && Inv(p, a, d) && 0 <= x < p.n && x !in a && c in d[x].value
    requires ForwardCheck(p, x, a[x := c], d[x := None]).0
    ensures var r := ForwardCheck(p, x, a[x := c], d[x := None]).1;
      forall i :: 0 <= i < |p.constraints| ==>
        Pruned(a[x := c], r, p.constraints[i].0, p.constraints[i].1) &&
        Pruned(a[x := c], r, p.constraints[i].1, p.constraints[i].0)
  {
    var a', d1 := a[x := c], d[x := None];
    var r := ForwardCheck(p, x, a', d1).1;
    var nb := GetNeighbours(p, x);
    forall i, u, v | 0 <= i < |p.constraints| &&
        ((u, v) == p.constraints[i] || (v, u) == p.constraints[i])
      ensures Pruned(a', r, u, v)
    {
      if u in a' && 0 <= v < |r| && v !in a' {
        assert Pruned(a, d, u, v);
        var s := d[v].value;
        assert d1[v] == d[v];
        if u == x {
          assert p.Adjacent(x, v);
          assert v in nb;
          if c in s {
            assert Prunable(nb, a', c, v, d1[v]);
            RemoveFirstOk(p, s, c);
          }
        } else if r[v] != d1[v] {
          RemoveFirstOk(p, s, c);
        }
      }
    }
  }

  lemma StepInv(p: Problem, a: Assignment, d: Domains, x: int, c: int)
    requires p.WellFormed() && p.NoSelfPairs() && Inv(p, a, d)
    requires 0 <= x < p.n && x !in a && c in d[x].value
    requires ForwardCheck(p, x, a[x := c], d[x := None]).0
    ensures Inv(p, a[x := c], ForwardCheck(p, x, a[x := c], d[x := None]).1)
  {
    StepShape(p, a, d, x, c);
    var a' := a[x := c];
    assert forall v :: v in a' ==> p.IsColour(a'[v]);
    StepNoClash(p, a, d, x, c);
    StepPruned(p, a, d, x, c);
  }

  /** With no self-pairs, whatever the search returns is a proper colouring. */
  lemma {:induction false} SearchSound(p: Problem, a: Assignment, d: Domains, it: nat)
    requires p.WellFormed() && p.NoSelfPairs() && Inv(p, a, d)
    ensures Search(p, a, d, it).result.Some? ==> IsSolution(p, Search(p, a, d, it).result.value)
    decreases p.n - |a|, 2, 0
  {
    SubsetOfVars(a.Keys, p.n);
    if |a| < p.n && it + 1 != IterationCap && Candidate(a, d, MakeAssignment(a, d)) {
      SearchBranchSound(p, a, d, it);
    } else {
      SearchEndSound(p, a, d, it);
    }
  }

  /** A search call that does not branch answers with the complete assignment
      it was given, or with nothing. */
  lemma SearchEndSound(p: Problem, a: Assignment, d: Domains, it: nat)
    requires p.WellFormed() && p.NoSelfPairs() && Inv(p, a, d)
    requires |a| == p.n || it + 1 == IterationCap || !Candidate(a, d, MakeAssignment(a, d))
    ensures Search(p, a, d, it).result.Some? ==> IsSolution(p, Search(p, a, d, it).result.value)
  {
    SubsetOfVars(a.Keys, p.n);
  }

  /** A search call that branches on x answers with what the loop over x's values answers. */
  lemma {:induction false} SearchBranchSound(p: Problem, a: Assignment, d: Domains, it: nat)
    requires p.WellFormed() && p.NoSelfPairs() && Inv(p, a, d)
    requires |a| < p.n && it + 1 != IterationCap && Candidate(a, d, MakeAssignment(a, d))
    ensures Search(p, a, d, it).result.Some? ==> IsSolution(p, Search(p, a, d, it).result.value)
    decreases p.n - |a|, 1, 0
  {
    SubsetOfVars(a.Keys, p.n);
    var x := MakeAssignment(a, d);
    OrderedFromDomain(p, x, a, d);
    TryValuesSound(p, a, d, x, ValueOrdering(p, x, a, d), it + 1);
  }

  /** The value ordering offers only colours from x's domain. */
  lemma OrderedFromDomain(p: Problem, x: int, a: Assignment, d: Domains)
    requires 0 <= x < |d| && d[x].Some?
    ensures forall c :: c in ValueOrdering(p, x, a, d) ==> c in d[x].value
  {
    var vals := ValueOrdering(p, x, a, d);
    forall c | c in vals ensures c in d[x].value {
      assert c in multiset(vals);
    }
  }

  lemma {:induction false} TryValuesSound(p: Problem, a: Assignment, d: Domains, x: int, vals: seq<int>, it: nat)
    requires p.WellFormed() && p.NoSelfPairs() && Inv(p, a, d)
    requires 0 <= x < p.n && x !in a
    requires forall c :: c in vals ==> c in d[x].value
    ensures TryValues(p, a, d, x, vals, it).result.Some? ==>
      IsSolution(p, TryValues(p, a, d, x, vals, it).result.value)
    decreases p.n - |a|, 0, |vals|
  {
    if |vals| > 0 {
      var a' := a[x := vals[0]];
      Bind(p, a, x, vals[0]);
      var fc := ForwardCheck(p, x, a', d[x := None]);
      if fc.0 {
        StepInv(p, a, d, x, vals[0]);
        SearchSound(p, a', fc.1, it);
        var child := Search(p, a', fc.1, it);
        if child.result.None? {
          TryValuesSound(p, child.state - {x}, d, x, vals[1..], child.iter);
        }
      } else {
        TryValuesSound(p, a' - {x}, d, x, vals[1..], it);
      }
    }
  }

  /** The solver in mode 1 is sound on problems without self-pairs. */
  lemma SolvePlusSound(p: Problem)
    requires p.WellFormed() && p.NoSelfPairs()
    ensures SolvePlus(p).result.Some? ==> IsSolution(p, SolvePlus(p).result.value)
  {
    InitialInv(p);
    SearchSound(p, map[], GenerateCsp(p), 0);
  }

  /** Both engines agree whenever propagation finds a colouring: plain
      backtracking then finds one too. */
  lemma PlusFoundImpliesBacktrackFound(p: Problem)
    requires p.WellFormed() && p.NoSelfPairs()
    requires SolvePlus(p).result.Some?
    ensures Backtracking.Backtrack(p, map[]).result.Some?
  {
    SolvePlusSound(p);
    Backtracking.BacktrackDecides(p);
  }

  // ---------------------------------------------------------------------------
  // The iteration cap

  /** The cap test is an equality, so it fires at most once: a call entered
      with the counter already at or past the cap goes on exactly as if there
      were no cap, and only the call that brings the counter to the cap gives up. */
  lemma CapFiresOnce(p: Problem, a: Assignment, d: Domains, it: nat)
    requires Shape(p, a, d) && |a| != p.n
    ensures it + 1 == IterationCap ==> Search(p, a, d, it) == PlusRun(None, a, it + 1)
    ensures it >= IterationCap && !Candidate(a, d, MakeAssignment(a, d)) ==>
      Search(p, a, d, it) == PlusRun(None, a, it + 1)
    ensures it >= IterationCap && Candidate(a, d, MakeAssignment(a, d)) ==>
      var x := MakeAssignment(a, d);
      Search(p, a, d, it) == TryValues(p, a, d, x, ValueOrdering(p, x, a, d), it + 1)
  {
    SubsetOfVars(a.Keys, p.n);
  }

  // ---------------------------------------------------------------------------
  // Self-pairs

  /** Adding an assigned variable to the neighbour set changes nothing:
      forward checking skips assigned neighbours. */
  lemma {:induction false} AssignedNeighbourSkipped(nbrs: set<int>, x: int, c: int, a: Assignment, d: Domains, i: nat)
    requires x in a && i <= |d|
    ensures ForwardCheckFrom(nbrs + {x}, c, a, d, i) == ForwardCheckFrom(nbrs, c, a, d, i)
    decreases |d| - i
  {
    if i < |d| {
      if i !in nbrs || i in a || !(Live(d[i]) && c in d[i].value) {
        AssignedNeighbourSkipped(nbrs, x, c, a, d, i + 1);
      } else if |d[i].value| != 1 {
        AssignedNeighbourSkipped(nbrs, x, c, a, d[i := Some(RemoveFirst(d[i].value, c))], i + 1);
      }
    }
  }

  /** A self-pair (x, x) is never checked: forward checking x, which is
      already assigned, gives the same verdict and domains without it. */
  lemma SelfPairNotForwardChecked(p: Problem, x: int, a: Assignment, d: Domains)
    requires x in a
    ensures var q := Problem(p.n, p.k, p.constraints + [(x, x)]);
      ForwardCheck(q, x, a, d) == ForwardCheck(p, x, a, d)
  {
    var q := Problem(p.n, p.k, p.constraints + [(x, x)]);
    assert q.constraints[..|q.constraints| - 1] == p.constraints;
    assert GetNeighbours(q, x) == GetNeighbours(p, x) + {x};
    AssignedNeighbourSkipped(GetNeighbours(p, x), x, a[x], a, d, 0);
  }

  /** The smallest instance showing it: one variable, one colour, constraint
      (0, 0). Mode 1 answers with colour 0, which violates the constraint;
      mode 0 answers that there is no solution. */
  lemma SelfPairAnsweredWrongly()
    ensures var p := Problem(1, 1, [(0, 0)]);
      && SolvePlus(p).result == Some(map[0 := 0])
      && !IsSolution(p, map[0 := 0])
      && Backtracking.Backtrack(p, map[]).result.None?
  {
    var p := Problem(1, 1, [(0, 0)]);
    SelfPairPlusAnswer();
    assert p.HasSelfPair(0);
    SelfPairUnsolvable(p, 0, map[0 := 0]);
    SelfPairPlainAnswer();
  }

  /** Mode 1 on the one-variable self-pair colours the variable 0. */
  lemma SelfPairPlusAnswer()
    ensures SolvePlus(Problem(1, 1, [(0, 0)])).result == Some(map[0 := 0])
  {
    var p := Problem(1, 1, [(0, 0)]);
    var d := GenerateCsp(p);
    SelfPairFirstStep();
    var a' := map[0 := 0];
    var fc := ForwardCheck(p, 0, a', d[0 := None]);
    assert Search(p, a', fc.1, 1).result == Some(a');
    assert TryValues(p, map[], d, 0, [0], 1).result == Some(a');
  }

  /** On the one-variable self-pair, mode 1 picks variable 0, tries colour 0
      first, and forward checking lets it through. */
  lemma SelfPairFirstStep()
    ensures var p := Problem(1, 1, [(0, 0)]);
      var d := GenerateCsp(p);
      && Candidate(map[], d, 0)
      && MakeAssignment(map[], d) == 0
      && ValueOrdering(p, 0, map[], d) == [0]
      && ForwardCheck(p, 0, map[0 := 0], d[0 := None]).0
  {
    var p := Problem(1, 1, [(0, 0)]);
    var d := GenerateCsp(p);
    assert d[0].value == Palette(1) == [0];
    assert Candidate(map[], d, 0);
    var vals := ValueOrdering(p, 0, map[], d);
    assert multiset(vals) == multiset{0};
    assert |vals| == 1 && vals[0] in multiset(vals);
    var a' := map[0 := 0];
    assert !Wipes(GetNeighbours(p, 0), a', 0, 0, d[0 := None][0]);
  }

  /** Mode 0 on the one-variable self-pair finds nothing. */
  lemma SelfPairPlainAnswer()
    ensures Backtracking.Backtrack(Problem(1, 1, [(0, 0)]), map[]).result.None?
  {
    var p := Problem(1, 1, [(0, 0)]);
    assert p.constraints[0] == (0, 0);
    Backtracking.BacktrackDecides(p);
    forall s | IsSolution(p, s) ensures false {
      assert 0 in s;
      SelfPairUnsolvable(p, 0, s);
    }
  }

  // ---------------------------------------------------------------------------
  // Out-of-range neighbours

  /** An out-of-range endpoint is harmless until its variable's values are
      ordered: on N = 2, K = 1, [(0, 1), (1, 5)], mode 1 answers None without
      ever reading the domain of variable 5. */
  lemma OutOfRangeNeverRead()
    ensures SolvePlus(Problem(2, 1, [(0, 1), (1, 5)])).result.None?
  {
    var p := Problem(2, 1, [(0, 1), (1, 5)]);
    var d := GenerateCsp(p);
    OutOfRangeFirstStep();
    OutOfRangeLoop();
    assert Search(p, map[], d, 0) == TryValues(p, map[], d, 0, [0], 1);
  }

  /** On that instance the value loop over [0] fails its only forward check. */
  lemma OutOfRangeLoop()
    ensures var p := Problem(2, 1, [(0, 1), (1, 5)]);
      TryValues(p, map[], GenerateCsp(p), 0, [0], 1).result.None?
  {
    var p := Problem(2, 1, [(0, 1), (1, 5)]);
    var d := GenerateCsp(p);
    OutOfRangeFirstStep();
    assert [0][1..] == [];
    assert map[0 := 0] - {0} == map[];
    assert TryValues(p, map[], d, 0, [0], 1) == TryValues(p, map[], d, 0, [], 1);
  }

  /** On that instance variable 0 is picked, colour 0 is its only value, and
      forward checking it empties variable 1's domain. */
  lemma OutOfRangeFirstStep()
    ensures var p := Problem(2, 1, [(0, 1), (1, 5)]);
      var d := GenerateCsp(p);
      && Candidate(map[], d, 0)
      && MakeAssignment(map[], d) == 0
      && ValueOrdering(p, 0, map[], d) == [0]
      && !ForwardCheck(p, 0, map[0 := 0], d[0 := None]).0
  {
    var p := Problem(2, 1, [(0, 1), (1, 5)]);
    var d := GenerateCsp(p);
    assert d[0].value == Palette(1) == [0];
    assert d[1].value == Palette(1) == [0];
    assert Candidate(map[], d, 0);
    var vals := ValueOrdering(p, 0, map[], d);
    assert multiset(vals) == multiset{0};
    assert |vals| == 1 && vals[0] in multiset(vals);
    assert p.constraints[0] == (0, 1);
    assert Wipes(GetNeighbours(p, 0), map[0 := 0], 0, 1, d[0 := None][1]);
  }
}
