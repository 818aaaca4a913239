/** Min-conflicts local search (minconflicts.py). A colouring is a list with one
    colour per variable. Every random draw of the source (the initial colourings,
    the choice among conflicted variables, the restart coin) is an oracle
    parameter, so each function below describes the run for one fixed outcome
    of those draws. */
module MinConflicts {
  import opened Csp

  // ---------------------------------------------------------------------------
  // The neighbour table

  /** What edge e appends to the list of variable i: b to a's list, then a to b's. */
  function Contribution(e: Edge, i: int): seq<int> {
    (if e.0 == i then [e.1] else []) + (if e.1 == i then [e.0] else [])
  }

  /** `neighbors[i]` after the first m edges have been processed. */
  function Adjacency(p: Problem, m: nat, i: int): (r: seq<int>)
    requires m <= |p.constraints|
    ensures |r| <= 2 * m
  {
    if m == 0 then [] else Adjacency(p, m - 1, i) + Contribution(p.constraints[m - 1], i)
  }

  /** t is the table built from all of p's edges. */
  predicate IsTable(p: Problem, t: seq<seq<int>>) {
    |t| == p.n && forall i :: 0 <= i < p.n ==> t[i] == Adjacency(p, |p.constraints|, i)
  }

  /** The loop that fills `neighbors`; an edge naming a missing variable would
      raise KeyError, hence the well-formedness requirement. */
  method BuildNeighbours(p: Problem) returns (t: seq<seq<int>>)
    requires p.WellFormed()
    ensures IsTable(p, t)
  {
    t := seq(p.n, i => []);
    var m := 0;
    while m < |p.constraints|
      invariant 0 <= m <= |p.constraints|
      invariant |t| == p.n
      invariant forall i :: 0 <= i < p.n ==> t[i] == Adjacency(p, m, i)
    {
      var (a, b) := p.constraints[m];
      t := t[a := t[a] + [b]];
      t := t[b := t[b] + [a]];
      m := m + 1;
    }
  }

  /** An edge among the first m that joins i and u puts u in i's list. */
  lemma {:induction false} AdjacencyHas(p: Problem, m: nat, i: int, u: int, k: nat)
    requires k < m <= |p.constraints| && Joins(p.constraints[k], i, u)
    ensures u in Adjacency(p, m, i)
  {
    var prev, here := Adjacency(p, m - 1, i), Contribution(p.constraints[m - 1], i);
    assert Adjacency(p, m, i) == prev + here;
    if k < m - 1 {
      AdjacencyHas(p, m - 1, i, u, k);
      assert u in prev;
    } else {
      assert u in here;
    }
  }

  /** Everything in i's list after m edges came from one of them that joins i and u. */
  lemma {:induction false} AdjacencySource(p: Problem, m: nat, i: int, u: int) returns (k: nat)
    requires m <= |p.constraints| && u in Adjacency(p, m, i)
    ensures k < m && Joins(p.constraints[k], i, u)
  {
    var prev, here := Adjacency(p, m - 1, i), Contribution(p.constraints[m - 1], i);
    assert Adjacency(p, m, i) == prev + here;
    if u in prev {
      k := AdjacencySource(p, m - 1, i, u);
    } else {
      assert u in here;
      k := m - 1;
    }
  }

  /** u is listed for i exactly when one of the first m edges joins i and u. */
  lemma AdjacencyMembership(p: Problem, m: nat, i: int, u: int)
    requires m <= |p.constraints|
    ensures u in Adjacency(p, m, i) <==>
      exists k :: 0 <= k < m && Joins(p.constraints[k], i, u)
  {
    if u in Adjacency(p, m, i) {
      var k := AdjacencySource(p, m, i, u);
    }
    if exists k :: 0 <= k < m && Joins(p.constraints[k], i, u) {
      var k :| 0 <= k < m && Joins(p.constraints[k], i, u);
      AdjacencyHas(p, m, i, u, k);
    }
  }

  /** The table lists exactly the constraint partners: v for u iff u for v. */
  lemma TableSymmetric(p: Problem, t: seq<seq<int>>, u: int, v: int)
    requires IsTable(p, t) && p.IsVar(u) && p.IsVar(v)
    ensures u in t[v] <==> p.Adjacent(v, u)
    ensures u in t[v] <==> v in t[u]
  {
    AdjacencyMembership(p, |p.constraints|, v, u);
    AdjacencyMembership(p, |p.constraints|, u, v);
  }

  /** Every index in nbrs is a position of c. */
  predicate Indexes(nbrs: seq<int>, c: seq<int>) {
    forall j :: 0 <= j < |nbrs| ==> 0 <= nbrs[j] < |c|
  }

  /** The table of a well-formed problem lists only variables. */
  lemma TableIndexes(p: Problem, t: seq<seq<int>>, c: seq<int>, v: int)
    requires p.WellFormed() && IsTable(p, t) && |c| == p.n && p.IsVar(v)
    ensures Indexes(t[v], c)
  {
    forall j | 0 <= j < |t[v]| ensures 0 <= t[v][j] < |c| {
      var u := t[v][j];
      AdjacencyMembership(p, |p.constraints|, v, u);
      var k :| 0 <= k < |p.constraints| && Joins(p.constraints[k], v, u);
    }
  }

  /** The setting every operation below works in. */
  predicate Fits(p: Problem, t: seq<seq<int>>, c: seq<int>) {
    p.WellFormed() && IsTable(p, t) && |c| == p.n
  }

  // ---------------------------------------------------------------------------
  // conflicting_vars

  /** Variable i has a listed neighbour holding its own colour. */
  predicate InConflict(t: seq<seq<int>>, c: seq<int>, i: int)
    requires 0 <= i < |t| && 0 <= i < |c|
  {
    exists j :: 0 <= j < |t[i]| && 0 <= t[i][j] < |c| && c[t[i][j]] == c[i]
  }

  /** The inner loop of `conflicting_vars` for variable i, from list position j on. */
  function ClashFrom(t: seq<seq<int>>, c: seq<int>, i: int, j: nat): (r: bool)
    requires 0 <= i < |t| && 0 <= i < |c| && Indexes(t[i], c) && j <= |t[i]|
    ensures r <==> exists l :: j <= l < |t[i]| && c[t[i][l]] == c[i]
    decreases |t[i]| - j
  {
    if j == |t[i]| then false
    else if c[t[i][j]] == c[i] then true
    else ClashFrom(t, c, i, j + 1)
  }

  /** Table and colouring fit together: one list per variable, naming variables. */
  predicate Compatible(t: seq<seq<int>>, c: seq<int>) {
    |t| == |c| && forall i :: 0 <= i < |t| ==> Indexes(t[i], c)
  }

  /** `conflicting_vars` over the variables 0..m-1. */
  function ConflictsBelow(t: seq<seq<int>>, c: seq<int>, m: nat): (r: seq<int>)
    requires Compatible(t, c) && m <= |t|
    ensures forall a, b :: 0 <= a < b < |r| ==> r[a] < r[b]
    ensures forall a :: 0 <= a < |r| ==> 0 <= r[a] < m
    ensures forall v :: v in r <==> 0 <= v < m && InConflict(t, c, v)
  {
    if m == 0 then []
    else
      var v := m - 1;
      ConflictsBelow(t, c, m - 1) + (if ClashFrom(t, c, v, 0) then [v] else [])
  }

  /** `conflicting_vars(assign)`: the conflicted variables, ascending, each once. */
  function ConflictingVars(t: seq<seq<int>>, c: seq<int>): (r: seq<int>)
    requires Compatible(t, c)
    ensures forall a, b :: 0 <= a < b < |r| ==> r[a] < r[b]
    ensures forall v :: v in r <==> 0 <= v < |c| && InConflict(t, c, v)
  {
    ConflictsBelow(t, c, |t|)
  }

  lemma FitsCompatible(p: Problem, t: seq<seq<int>>, c: seq<int>)
    requires Fits(p, t, c)
    ensures Compatible(t, c)
  {
    forall i | 0 <= i < |t| ensures Indexes(t[i], c) {
      TableIndexes(p, t, c, i);
    }
  }

  /** No variable is in conflict exactly when every constraint joins two
      different colours. */
  lemma NoConflictsIffProper(p: Problem, t: seq<seq<int>>, c: seq<int>)
    requires Fits(p, t, c)
    ensures Compatible(t, c)
    ensures ConflictingVars(t, c) == [] <==> Proper(p, c)
  {
    FitsCompatible(p, t, c);
    var bad := ConflictingVars(t, c);
    if bad != [] {
      assert bad[0] in bad;
      ConflictBreaksConstraint(p, t, c, bad[0]);
    }
    if !Proper(p, c) {
      var k :| 0 <= k < |p.constraints| && c[p.constraints[k].0] == c[p.constraints[k].1];
      BrokenConstraintConflicts(p, t, c, k);
    }
  }

  /** A variable in conflict shares its colour with a constraint partner. */
  lemma ConflictBreaksConstraint(p: Problem, t: seq<seq<int>>, c: seq<int>, v: int)
    requires Fits(p, t, c) && 0 <= v < p.n && InConflict(t, c, v)
    ensures !Proper(p, c)
  {
    var j :| 0 <= j < |t[v]| && 0 <= t[v][j] < |c| && c[t[v][j]] == c[v];
    var u := t[v][j];
    assert u in Adjacency(p, |p.constraints|, v);
    var k := AdjacencySource(p, |p.constraints|, v, u);
    assert c[p.constraints[k].0] == c[p.constraints[k].1];
  }

  /** The first end of a constraint whose ends share a colour is in conflict. */
  lemma BrokenConstraintConflicts(p: Problem, t: seq<seq<int>>, c: seq<int>, k: int)
    requires Fits(p, t, c) && 0 <= k < |p.constraints|
    requires c[p.constraints[k].0] == c[p.constraints[k].1]
    ensures Compatible(t, c)
    ensures p.constraints[k].0 in ConflictingVars(t, c)
  {
    FitsCompatible(p, t, c);
    var (a, b) := p.constraints[k];
    AdjacencyHas(p, |p.constraints|, a, b, k);
    var j :| 0 <= j < |t[a]| && t[a][j] == b;
    assert InConflict(t, c, a);
  }

  /** A self-loop (v, v) always puts v among the conflicted variables. */
  lemma SelfLoopConflicts(p: Problem, t: seq<seq<int>>, c: seq<int>, v: int)
    requires Fits(p, t, c) && p.IsVar(v) && p.HasSelfPair(v)
    ensures Compatible(t, c)
    ensures v in ConflictingVars(t, c)
  {
    FitsCompatible(p, t, c);
    AdjacencyMembership(p, |p.constraints|, v, v);
    var j :| 0 <= j < |t[v]| && t[v][j] == v;
    assert InConflict(t, c, v);
  }

  // ---------------------------------------------------------------------------
  // min_conflict_color

  /** How many entries of nbrs (counted with repetition) hold colour col. */
  function Count(nbrs: seq<int>, c: seq<int>, col: int): (r: nat)
    requires Indexes(nbrs, c)
    ensures r <= |nbrs|
  {
    if |nbrs| == 0 then 0
    else Count(nbrs[..|nbrs| - 1], c, col) + (if c[nbrs[|nbrs| - 1]] == col then 1 else 0)
  }

  /** A colour is counted exactly when some listed neighbour holds it. */
  lemma {:induction false} CountPositive(nbrs: seq<int>, c: seq<int>, col: int)
    requires Indexes(nbrs, c)
    ensures Count(nbrs, c, col) > 0 <==> exists j :: 0 <= j < |nbrs| && c[nbrs[j]] == col
  {
    if |nbrs| > 0 {
      var init := nbrs[..|nbrs| - 1];
      CountPositive(init, c, col);
      if exists j :: 0 <= j < |init| && c[init[j]] == col {
        var j :| 0 <= j < |init| && c[init[j]] == col;
        assert nbrs[j] == init[j];
      }
      if exists j :: 0 <= j < |nbrs| && c[nbrs[j]] == col {
        var j :| 0 <= j < |nbrs| && c[nbrs[j]] == col;
        if j < |init| {
          assert init[j] == nbrs[j];
        }
      }
    }
  }

  /** The loop `for c in range(K)` of `min_conflict_color` from colour col on,
      holding the best colour so far and its count; a colour replaces the best
      only with a strictly smaller count. */
  function Scan(nbrs: seq<int>, c: seq<int>, k: nat, col: nat, best: int, bestCount: int): (r: (int, int))
    requires Indexes(nbrs, c) && col <= k
    ensures r.1 <= bestCount
    ensures r.1 == bestCount ==> r.0 == best && forall x :: col <= x < k ==> Count(nbrs, c, x) >= bestCount
    ensures r.1 < bestCount ==>
      && col <= r.0 < k && r.1 == Count(nbrs, c, r.0)
      && (forall x :: col <= x < k ==> r.1 <= Count(nbrs, c, x))
      && (forall x :: col <= x < r.0 ==> r.1 < Count(nbrs, c, x))
    decreases k - col
  {
    if col == k then (best, bestCount)
    else
      var n := Count(nbrs, c, col);
      if n < bestCount then Scan(nbrs, c, k, col + 1, col, n)
      else Scan(nbrs, c, k, col + 1, best, bestCount)
  }

  /** r is the lowest colour in 0..k-1 with the fewest neighbours holding it. */
  predicate LowestArgmin(nbrs: seq<int>, c: seq<int>, k: nat, r: int)
    requires Indexes(nbrs, c)
  {
    && 0 <= r < k
    && (forall x :: 0 <= x < k ==> Count(nbrs, c, r) <= Count(nbrs, c, x))
    && (forall x :: 0 <= x < r ==> Count(nbrs, c, r) < Count(nbrs, c, x))
  }

  /** `min_conflict_color(var, assign)`: the scan starts from the current colour
      with the count N + 1, so it keeps the current colour only if every colour
      has more than N clashing neighbours. */
  function MinConflictColour(p: Problem, t: seq<seq<int>>, c: seq<int>, v: int): (r: int)
    requires Fits(p, t, c) && p.IsVar(v)
    ensures Indexes(t[v], c)
    ensures (forall x :: 0 <= x < p.k ==> Count(t[v], c, x) > p.n) ==> r == c[v]
    ensures (exists x :: 0 <= x < p.k && Count(t[v], c, x) <= p.n) ==>
      LowestArgmin(t[v], c, p.k, r) && Count(t[v], c, r) <= p.n
  {
    TableIndexes(p, t, c, v);
    Scan(t[v], c, p.k, 0, c[v], p.n + 1).0
  }

  /** With a colour available and degree at most N, the choice is the lowest
      colour minimising the clashes. */
  lemma MinConflictColourIsBest(p: Problem, t: seq<seq<int>>, c: seq<int>, v: int)
    requires Fits(p, t, c) && p.IsVar(v) && p.k >= 1 && |t[v]| <= p.n
    ensures Indexes(t[v], c) && LowestArgmin(t[v], c, p.k, MinConflictColour(p, t, c, v))
  {
    TableIndexes(p, t, c, v);
    assert Count(t[v], c, 0) <= p.n;
  }

  /** The repair never leaves the variable with more clashing neighbours than
      its current colour has. */
  lemma MinConflictColourNoWorse(p: Problem, t: seq<seq<int>>, c: seq<int>, v: int)
    requires Fits(p, t, c) && p.IsVar(v) && p.IsColour(c[v])
    ensures Indexes(t[v], c)
    ensures Count(t[v], c, MinConflictColour(p, t, c, v)) <= Count(t[v], c, c[v])
  {
    TableIndexes(p, t, c, v);
  }

  // ---------------------------------------------------------------------------
  // One repair step

  /** `random.choice(bad)`: the oracle value draw, reduced modulo |bad|, is the
      position chosen. */
  function Chosen(p: Problem, t: seq<seq<int>>, c: seq<int>, draw: nat): (v: int)
    requires Fits(p, t, c)
    requires Compatible(t, c) && ConflictingVars(t, c) != []
    ensures p.IsVar(v) && InConflict(t, c, v)
  {
    var bad := ConflictingVars(t, c);
    assert bad[draw % |bad|] in bad;
    bad[draw % |bad|]
  }

  /** `assign[var] = min_conflict_color(var, assign)` for a chosen conflicted var. */
  function Step(p: Problem, t: seq<seq<int>>, c: seq<int>, draw: nat): (r: seq<int>)
    requires Fits(p, t, c)
    requires Compatible(t, c) && ConflictingVars(t, c) != []
    ensures |r| == |c|
    ensures forall i :: 0 <= i < |c| && i != Chosen(p, t, c, draw) ==> r[i] == c[i]
    ensures IsColouring(p, c) ==> IsColouring(p, r)
  {
    var v := Chosen(p, t, c, draw);
    c[v := MinConflictColour(p, t, c, v)]
  }

  /** Locality: a step rewrites only the chosen variable, which was in conflict,
      and gives it a colour no worse than its old one. */
  lemma StepLocal(p: Problem, t: seq<seq<int>>, c: seq<int>, draw: nat)
    requires Fits(p, t, c) && IsColouring(p, c)
    requires Compatible(t, c) && ConflictingVars(t, c) != []
    ensures var v, r := Chosen(p, t, c, draw), Step(p, t, c, draw);
      && InConflict(t, c, v)
      && (forall i :: 0 <= i < |c| && r[i] != c[i] ==> i == v)
      && Indexes(t[v], c) && Count(t[v], c, r[v]) <= Count(t[v], c, c[v])
  {
    var v := Chosen(p, t, c, draw);
    MinConflictColourNoWorse(p, t, c, v);
  }

  // ---------------------------------------------------------------------------
  // min_conflicts_basic

  /** What the repair loop returns, and how many repairs it made. */
  datatype BasicRun = BasicRun(result: Option<seq<int>>, repairs: nat)

  /** The loop of `min_conflicts_basic` from pass s of range(maxSteps) on,
      with colouring c; pick(s) is the draw of pass s. Each pass either finds
      c conflict-free and returns it, or repairs it once. */
  function Basic(p: Problem, t: seq<seq<int>>, c: seq<int>, pick: nat -> nat, s: nat, maxSteps: nat): (r: BasicRun)
    requires p.WellFormed() && IsTable(p, t) && IsColouring(p, c) && s <= maxSteps
    ensures r.result.Some? ==> IsColouring(p, r.result.value) && Proper(p, r.result.value)
    ensures r.repairs <= maxSteps - s
    ensures r.result.None? <==> r.repairs == maxSteps - s
    decreases maxSteps - s
  {
    FitsCompatible(p, t, c);
    if s == maxSteps then BasicRun(None, 0)
    else if ConflictingVars(t, c) == [] then
      NoConflictsIffProper(p, t, c);
      BasicRun(Some(c), 0)
    else
      var rest := Basic(p, t, Step(p, t, c, pick(s)), pick, s + 1, maxSteps);
      BasicRun(rest.result, rest.repairs + 1)
  }

  /** `min_conflicts_basic(max_steps)` from the colouring init. */
  method MinConflictsBasic(p: Problem, t: seq<seq<int>>, init: seq<int>, pick: nat -> nat, maxSteps: nat)
    returns (r: Option<seq<int>>)
    requires p.WellFormed() && IsTable(p, t) && IsColouring(p, init)
    ensures r.Some? ==> IsColouring(p, r.value) && Proper(p, r.value)
    ensures r == Basic(p, t, init, pick, 0, maxSteps).result
  {
    var assign := init;
    var step := 0;
    while step < maxSteps
      invariant 0 <= step <= maxSteps && IsColouring(p, assign)
      invariant Basic(p, t, assign, pick, step, maxSteps).result == Basic(p, t, init, pick, 0, maxSteps).result
    {
      FitsCompatible(p, t, assign);
      var bad := ConflictingVars(t, assign);
      if bad == [] {
        return Some(assign);
      }
      // var = random.choice(bad); assign[var] = min_conflict_color(var, assign)
      assign := Step(p, t, assign, pick(step));
      step := step + 1;
    }
    return None;
  }

  // ---------------------------------------------------------------------------
  // min_conflicts_restart

  /** The shared repair budget `max_restart_steps` starts here. */
  const RestartBudget: nat := 500000

  /** The draws of one run: inits[i] is the colouring call i starts from;
      call i < |restartAt| sees the restart coin come up at pass restartAt[i]
      (if it gets that far), the last call never; pick(i, s) is the choice
      among conflicted variables at pass s of call i. */
  datatype Oracle = Oracle(inits: seq<seq<int>>, restartAt: seq<nat>, pick: (nat, nat) -> nat)

  predicate ValidOracle(p: Problem, o: Oracle) {
    |o.inits| == |o.restartAt| + 1 && forall i :: 0 <= i < |o.inits| ==> IsColouring(p, o.inits[i])
  }

  /** What a call returns, the shared budget it leaves, and the repairs made
      by it and the calls it restarted into. */
  datatype RestartRun = RestartRun(result: Option<seq<int>>, budget: nat, repairs: nat)

  /** Call number i of `min_conflicts_restart`, entered with the shared budget:
      the loop runs over range(budget), the budget fixed at entry. */
  function Restart(p: Problem, t: seq<seq<int>>, o: Oracle, i: nat, budget: nat): (r: RestartRun)
    requires p.WellFormed() && IsTable(p, t) && ValidOracle(p, o) && i <= |o.restartAt|
    ensures r.repairs + r.budget == budget
    ensures r.result.Some? ==> IsColouring(p, r.result.value) && Proper(p, r.result.value)
    decreases |o.restartAt| - i, 1, 0
  {
    Repairs(p, t, o, i, o.inits[i], 0, budget)
  }

  /** Pass s of the loop of call i over range(bound) with colouring c; the
      shared budget then stands at bound - s. */
  function Repairs(p: Problem, t: seq<seq<int>>, o: Oracle, i: nat, c: seq<int>, s: nat, bound: nat): (r: RestartRun)
    requires p.WellFormed() && IsTable(p, t) && ValidOracle(p, o) && i <= |o.restartAt|
    requires IsColouring(p, c) && s <= bound
    ensures r.repairs + r.budget == bound - s
    ensures r.result.Some? ==> IsColouring(p, r.result.value) && Proper(p, r.result.value)
    decreases |o.restartAt| - i, 0, bound - s
  {
    FitsCompatible(p, t, c);
    if s == bound then RestartRun(None, 0, 0)
    else if ConflictingVars(t, c) == [] then
      NoConflictsIffProper(p, t, c);
      RestartRun(Some(c), bound - s, 0)
    else if i < |o.restartAt| && o.restartAt[i] == s then
      Restart(p, t, o, i + 1, bound - s)
    else
      var rest := Repairs(p, t, o, i, Step(p, t, c, o.pick(i, s)), s + 1, bound);
      RestartRun(rest.result, rest.budget, rest.repairs + 1)
  }

  /** `min_conflicts_restart()` as first called, with the full budget: whatever
      the draws, it repairs at most 500000 times in all. */
  function MinConflictsRestart(p: Problem, t: seq<seq<int>>, o: Oracle): (r: RestartRun)
    requires p.WellFormed() && IsTable(p, t) && ValidOracle(p, o)
    ensures r.repairs <= RestartBudget
    ensures r.result.Some? ==> IsColouring(p, r.result.value) && Proper(p, r.result.value)
  {
    Restart(p, t, o, 0, RestartBudget)
  }

  /** The draws of call i, as a function of the pass. */
  function CallPicks(o: Oracle, i: nat): nat -> nat {
    s => o.pick(i, s)
  }

  /** Once no restart is left to fire, the restart loop is the basic loop:
      same result, and one repair per conflicted pass. */
  lemma {:induction false} LastCallIsBasic(p: Problem, t: seq<seq<int>>, o: Oracle, c: seq<int>, s: nat, bound: nat)
    requires p.WellFormed() && IsTable(p, t) && ValidOracle(p, o) && IsColouring(p, c) && s <= bound
    ensures var i := |o.restartAt|;
      var r, b := Repairs(p, t, o, i, c, s, bound), Basic(p, t, c, CallPicks(o, i), s, bound);
      r.result == b.result && r.repairs == b.repairs
    decreases bound - s
  {
    var i := |o.restartAt|;
    FitsCompatible(p, t, c);
    if s < bound && ConflictingVars(t, c) != [] {
      LastCallIsBasic(p, t, o, Step(p, t, c, o.pick(i, s)), s + 1, bound);
      assert CallPicks(o, i)(s) == o.pick(i, s);
    }
  }
}
