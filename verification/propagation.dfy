/** Backtracking with propagation (dfsb.py, mode 1): most-constrained-variable
    choice, least-constraining-value ordering and forward checking over a
    per-branch copy of the domain map, under a global call counter. */
module Propagation {
  import opened Csp
  import StableSort

  /** A variable's entry in the domain map: its remaining colours, or None once
      the branch has assigned it. */
  type Domain = Option<seq<int>>

  /** The domain map, indexed by variable. The source's dict gets keys 0..n-1
      inserted in that order and never gains another, so iterating it visits
      variables in index order. */
  type Domains = seq<Domain>

  /** Python truthiness of a domain entry: a non-empty list. */
  predicate Live(d: Domain) {
    d.Some? && |d.value| > 0
  }

  /** `[i for i in range(k)]`. */
  function Palette(k: nat): (s: seq<int>)
    ensures |s| == k
    ensures forall i :: 0 <= i < k ==> s[i] == i
    ensures forall c :: c in s <==> 0 <= c < k
  {
    var s := seq(k, i => i);
    assert forall c :: 0 <= c < k ==> c in s by {
      forall c | 0 <= c < k ensures c in s {
        assert s[c] == c;
      }
    }
    assert forall c :: c in s ==> 0 <= c < k by {
      forall c | c in s ensures 0 <= c < k {
        var i :| 0 <= i < |s| && s[i] == c;
      }
    }
    s
  }

  /** `generate_csp` applied to the empty dict, as the solver does. */
  function GenerateCsp(p: Problem): (d: Domains)
    ensures |d| == p.n
    ensures forall v :: 0 <= v < p.n ==> d[v].Some? && forall c :: c in d[v].value <==> p.IsColour(c)
    ensures forall v :: 0 <= v < p.n ==>
      |d[v].value| == p.k && forall i :: 0 <= i < p.k ==> d[v].value[i] == i
  {
    seq(p.n, v => Some(Palette(p.k)))
  }

  // ---------------------------------------------------------------------------
  // get_neighbors

  /** The loop of `get_neighbors(v)` over the constraint list cs. */
  function NeighboursIn(cs: seq<Edge>, v: int): (r: set<int>)
    ensures forall u :: u in r ==> exists i :: 0 <= i < |cs| && Joins(cs[i], v, u)
    ensures forall i :: 0 <= i < |cs| && cs[i].0 == v ==> cs[i].1 in r
    ensures forall i :: 0 <= i < |cs| && cs[i].1 == v ==> cs[i].0 in r
  {
    if |cs| == 0 then {}
    else
      var e := cs[|cs| - 1];
      var r' := NeighboursIn(cs[..|cs| - 1], v);
      r' + (if e.0 == v then {e.1} else if e.1 == v then {e.0} else {})
  }

  /** `get_neighbors(v)`: the variables sharing a constraint with v. */
  function GetNeighbours(p: Problem, v: int): (r: set<int>)
    ensures forall u :: u in r <==> p.Adjacent(v, u)
  {
    NeighboursIn(p.constraints, v)
  }

  /** Neighbourhood is symmetric. */
  lemma NeighboursSymmetric(p: Problem, u: int, v: int)
    ensures u in GetNeighbours(p, v) <==> v in GetNeighbours(p, u)
  {
    // Joins(e, v, u) and Joins(e, u, v) say the same thing
  }

  // ---------------------------------------------------------------------------
  // make_assignment (MCV)

  /** v is unassigned and has a non-empty domain. */
  predicate Candidate(a: Assignment, d: Domains, v: int) {
    0 <= v < |d| && v !in a && Live(d[v])
  }

  /** First loop of `make_assignment`: the first candidate from index i on, or 0. */
  function FirstCandidate(a: Assignment, d: Domains, i: nat): (r: int)
    requires i <= |d|
    ensures (exists v :: i <= v < |d| && Candidate(a, d, v)) ==>
      i <= r && Candidate(a, d, r) && forall v :: i <= v < r ==> !Candidate(a, d, v)
    ensures (forall v :: i <= v < |d| ==> !Candidate(a, d, v)) ==> r == 0
    decreases |d| - i
  {
    if i == |d| then 0
    else if Candidate(a, d, i) then i
    else FirstCandidate(a, d, i + 1)
  }

  /** Second loop of `make_assignment` from index i on, holding best so far:
      a candidate replaces it only with a strictly smaller domain. */
  function Narrowest(a: Assignment, d: Domains, i: nat, best: int): (r: int)
    requires i <= |d|
    requires Candidate(a, d, best) || forall v :: i <= v < |d| ==> !Candidate(a, d, v)
    ensures !Candidate(a, d, best) ==> r == best
    ensures Candidate(a, d, best) ==> Candidate(a, d, r) && |d[r].value| <= |d[best].value|
    ensures Candidate(a, d, best) ==>
      forall v :: i <= v < |d| && Candidate(a, d, v) ==> |d[r].value| <= |d[v].value|
    ensures r == best || (i <= r && |d[r].value| < |d[best].value| &&
      forall v :: i <= v < r && Candidate(a, d, v) ==> |d[r].value| < |d[v].value|)
    decreases |d| - i
  {
    if i == |d| then best
    else if !Candidate(a, d, i) then Narrowest(a, d, i + 1, best)
    else if |d[i].value| < |d[best].value| then Narrowest(a, d, i + 1, i)
    else Narrowest(a, d, i + 1, best)
  }

  /** `make_assignment(csp, a)`: the first unassigned variable of smallest
      non-empty domain, or 0 when there is none. */
  function MakeAssignment(a: Assignment, d: Domains): (r: int)
    ensures (exists v :: Candidate(a, d, v)) ==> Candidate(a, d, r)
    ensures forall v :: Candidate(a, d, v) ==> |d[r].value| <= |d[v].value|
    ensures forall v :: 0 <= v < r && Candidate(a, d, v) ==> |d[r].value| < |d[v].value|
    ensures (forall v :: !Candidate(a, d, v)) ==> r == 0
  {
    var first := FirstCandidate(a, d, 0);
    Narrowest(a, d, 0, first)
  }

  // ---------------------------------------------------------------------------
  // value_ordering (LCV)

  /** The LCV score of colour c for x: the unassigned neighbours of x whose
      domain still holds c. */
  function ConflictCount(p: Problem, x: int, a: Assignment, d: Domains, c: int): (r: nat)
    ensures r <= |d|
    ensures r > 0 <==> exists u :: 0 <= u < |d| && p.Adjacent(x, u) && u !in a && d[u].Some? && c in d[u].value
  {
    OfferingBounds(p, x, a, d, c);
    |Offering(p, x, a, d, c)|
  }

  /** The neighbours counted by the LCV score of c. */
  function Offering(p: Problem, x: int, a: Assignment, d: Domains, c: int): set<int> {
    set u | u in GetNeighbours(p, x) && 0 <= u < |d| && u !in a && d[u].Some? && c in d[u].value
  }

  lemma OfferingBounds(p: Problem, x: int, a: Assignment, d: Domains, c: int)
    ensures |Offering(p, x, a, d, c)| <= |d|
    ensures Offering(p, x, a, d, c) != {} <==>
      exists u :: 0 <= u < |d| && p.Adjacent(x, u) && u !in a && d[u].Some? && c in d[u].value
  {
    var s := Offering(p, x, a, d, c);
    assert s <= Vars(|d|);
    SubsetOfVars(s, |d|);
    OfferingMembers(p, x, a, d, c);
  }

  lemma OfferingMembers(p: Problem, x: int, a: Assignment, d: Domains, c: int)
    ensures Offering(p, x, a, d, c) != {} <==>
      exists u :: 0 <= u < |d| && p.Adjacent(x, u) && u !in a && d[u].Some? && c in d[u].value
  {
    var s := Offering(p, x, a, d, c);
    if exists u :: 0 <= u < |d| && p.Adjacent(x, u) && u !in a && d[u].Some? && c in d[u].value {
      var u :| 0 <= u < |d| && p.Adjacent(x, u) && u !in a && d[u].Some? && c in d[u].value;
      assert u in s;
    }
    if s != {} {
      var u :| u in s;
    }
  }

  function LcvKey(p: Problem, x: int, a: Assignment, d: Domains): int -> int {
    c => ConflictCount(p, x, a, d, c)
  }

  /** `value_ordering(x, a, csp)`: x's domain, stably sorted by LCV score. */
  function ValueOrdering(p: Problem, x: int, a: Assignment, d: Domains): (r: seq<int>)
    requires 0 <= x < |d| && d[x].Some?
    ensures multiset(r) == multiset(d[x].value)
    ensures StableSort.SortedBy(r, LcvKey(p, x, a, d))
  {
    StableSort.Sort(d[x].value, LcvKey(p, x, a, d))
  }

  /** Colours with equal LCV score keep their order in x's domain. */
  lemma ValueOrderingStable(p: Problem, x: int, a: Assignment, d: Domains, score: int)
    requires 0 <= x < |d| && d[x].Some?
    ensures StableSort.WithKey(ValueOrdering(p, x, a, d), LcvKey(p, x, a, d), score)
         == StableSort.WithKey(d[x].value, LcvKey(p, x, a, d), score)
  {
    StableSort.SortKeepsTies(d[x].value, LcvKey(p, x, a, d), score);
  }

  // ---------------------------------------------------------------------------
  // forward_check

  /** `list.remove(c)`: drops the first occurrence of c. */
  function RemoveFirst(s: seq<int>, c: int): (r: seq<int>)
    requires c in s
    ensures multiset(r) == multiset(s) - multiset{c}
    ensures |r| == |s| - 1
  {
    assert s == [s[0]] + s[1..];
    if s[0] == c then s[1..]
    else [s[0]] + RemoveFirst(s[1..], c)
  }

  /** What `list.remove` keeps: everything before the first occurrence of c and
      everything after it, both in their original order. */
  lemma {:induction false} RemoveFirstAt(s: seq<int>, c: int) returns (i: nat)
    requires c in s
    ensures i < |s| && s[i] == c && c !in s[..i]
    ensures RemoveFirst(s, c) == s[..i] + s[i + 1..]
  {
    assert s == [s[0]] + s[1..];
    if s[0] == c {
      i := 0;
      assert s[..0] + s[1..] == s[1..];
    } else {
      var t := s[1..];
      var j := RemoveFirstAt(t, c);
      i := j + 1;
      assert s[..i] == [s[0]] + t[..j];
      assert s[i + 1..] == t[j + 1..];
    }
  }

  /** Forward checking on c touches u: an unassigned neighbour whose domain holds c. */
  predicate Prunable(nbrs: set<int>, a: Assignment, c: int, u: int, du: Domain) {
    u in nbrs && u !in a && Live(du) && c in du.value
  }

  /** Pruning c leaves u's domain empty. */
  predicate Wipes(nbrs: set<int>, a: Assignment, c: int, u: int, du: Domain) {
    Prunable(nbrs, a, c, u, du) && |du.value| == 1
  }

  /** The loop of `forward_check` over the neighbours from index i on. */
  function ForwardCheckFrom(nbrs: set<int>, c: int, a: Assignment, d: Domains, i: nat): (r: (bool, Domains))
    requires i <= |d|
    ensures |r.1| == |d|
    decreases |d| - i
  {
    if i == |d| then (true, d)
    else if i !in nbrs || i in a then ForwardCheckFrom(nbrs, c, a, d, i + 1)
    else if Live(d[i]) && c in d[i].value then
      var pruned := RemoveFirst(d[i].value, c);
      var d' := d[i := Some(pruned)];
      if |pruned| == 0 then (false, d')
      else ForwardCheckFrom(nbrs, c, a, d', i + 1)
    else ForwardCheckFrom(nbrs, c, a, d, i + 1)
  }

  /** The loop only ever prunes c, and only from unassigned neighbours from i on holding it. */
  lemma {:induction false} ForwardCheckFromFrameAt(nbrs: set<int>, c: int, a: Assignment, d: Domains, i: nat, u: int)
    requires i <= |d| && 0 <= u < |d|
    ensures var r := ForwardCheckFrom(nbrs, c, a, d, i);
      r.1[u] == d[u] || (i <= u && Prunable(nbrs, a, c, u, d[u]) && r.1[u] == Some(RemoveFirst(d[u].value, c)))
    decreases |d| - i, 1
  {
    if i < |d| {
      if i !in nbrs || i in a || !(Live(d[i]) && c in d[i].value) {
        assert ForwardCheckFrom(nbrs, c, a, d, i) == ForwardCheckFrom(nbrs, c, a, d, i + 1);
        ForwardCheckFromFrameAt(nbrs, c, a, d, i + 1, u);
      } else {
        ForwardCheckFromFramePrune(nbrs, c, a, d, i, u);
      }
    }
  }

  /** The frame property when the neighbour at i loses c. */
  lemma {:induction false} ForwardCheckFromFramePrune(nbrs: set<int>, c: int, a: Assignment, d: Domains, i: nat, u: int)
    requires i < |d| && 0 <= u < |d| && Prunable(nbrs, a, c, i, d[i])
    ensures var r := ForwardCheckFrom(nbrs, c, a, d, i);
      r.1[u] == d[u] || (i <= u && Prunable(nbrs, a, c, u, d[u]) && r.1[u] == Some(RemoveFirst(d[u].value, c)))
    decreases |d| - i, 0
  {
    var r := ForwardCheckFrom(nbrs, c, a, d, i);
    var d' := d[i := Some(RemoveFirst(d[i].value, c))];
    if |d[i].value| == 1 {
      assert r == (false, d');
    } else {
      assert r == ForwardCheckFrom(nbrs, c, a, d', i + 1);
      ForwardCheckFromFrameAt(nbrs, c, a, d', i + 1, u);
      assert u != i ==> d'[u] == d[u];
    }
  }

  /** The loop succeeds exactly when no neighbour from i on is wiped out. */
  lemma {:induction false} ForwardCheckFromSucceeds(nbrs: set<int>, c: int, a: Assignment, d: Domains, i: nat)
    requires i <= |d|
    ensures ForwardCheckFrom(nbrs, c, a, d, i).0 <==> forall u :: i <= u < |d| ==> !Wipes(nbrs, a, c, u, d[u])
    decreases |d| - i
  {
    var r := ForwardCheckFrom(nbrs, c, a, d, i);
    if i == |d| {
    } else if i !in nbrs || i in a || !(Live(d[i]) && c in d[i].value) {
      assert r == ForwardCheckFrom(nbrs, c, a, d, i + 1);
      ForwardCheckFromSucceeds(nbrs, c, a, d, i + 1);
      assert !Wipes(nbrs, a, c, i, d[i]);
    } else {
      var d' := d[i := Some(RemoveFirst(d[i].value, c))];
      if |d[i].value| != 1 {
        assert r == ForwardCheckFrom(nbrs, c, a, d', i + 1);
        ForwardCheckFromSucceeds(nbrs, c, a, d', i + 1);
        assert !Wipes(nbrs, a, c, i, d[i]);
        forall u | i < u < |d| ensures Wipes(nbrs, a, c, u, d'[u]) == Wipes(nbrs, a, c, u, d[u]) {
          assert d'[u] == d[u];
        }
      } else {
        assert r == (false, d');
        assert Wipes(nbrs, a, c, i, d[i]);
      }
    }
  }

  /** On success an unassigned neighbour u from i on that held c has lost it. */
  lemma {:induction false} ForwardCheckFromPrunesAt(nbrs: set<int>, c: int, a: Assignment, d: Domains, i: nat, u: int)
    requires i <= u < |d| && Prunable(nbrs, a, c, u, d[u])
    requires ForwardCheckFrom(nbrs, c, a, d, i).0
    ensures ForwardCheckFrom(nbrs, c, a, d, i).1[u] == Some(RemoveFirst(d[u].value, c))
    decreases |d| - i
  {
    var r := ForwardCheckFrom(nbrs, c, a, d, i);
    if i !in nbrs || i in a || !(Live(d[i]) && c in d[i].value) {
      assert r == ForwardCheckFrom(nbrs, c, a, d, i + 1);
      ForwardCheckFromPrunesAt(nbrs, c, a, d, i + 1, u);
    } else {
      var d' := d[i := Some(RemoveFirst(d[i].value, c))];
      assert r == ForwardCheckFrom(nbrs, c, a, d', i + 1);
      if u == i {
        ForwardCheckFromFrameAt(nbrs, c, a, d', i + 1, u);
      } else {
        assert d'[u] == d[u];
        ForwardCheckFromPrunesAt(nbrs, c, a, d', i + 1, u);
      }
    }
  }

  /** On failure the loop stopped at the first wiped-out neighbour from i on,
      leaving every later domain as it was. */
  lemma {:induction false} ForwardCheckFromStops(nbrs: set<int>, c: int, a: Assignment, d: Domains, i: nat)
      returns (w: int)
    requires i <= |d|
    requires !ForwardCheckFrom(nbrs, c, a, d, i).0
    ensures i <= w < |d| && Wipes(nbrs, a, c, w, d[w])
    ensures forall u :: i <= u < w ==> !Wipes(nbrs, a, c, u, d[u])
    ensures forall u :: w < u < |d| ==> ForwardCheckFrom(nbrs, c, a, d, i).1[u] == d[u]
    decreases |d| - i
  {
    var r := ForwardCheckFrom(nbrs, c, a, d, i);
    if i !in nbrs || i in a || !(Live(d[i]) && c in d[i].value) {
      assert r == ForwardCheckFrom(nbrs, c, a, d, i + 1);
      w := ForwardCheckFromStops(nbrs, c, a, d, i + 1);
      assert !Wipes(nbrs, a, c, i, d[i]);
    } else {
      var d' := d[i := Some(RemoveFirst(d[i].value, c))];
      if |d[i].value| != 1 {
        assert r == ForwardCheckFrom(nbrs, c, a, d', i + 1);
        w := ForwardCheckFromStops(nbrs, c, a, d', i + 1);
        assert !Wipes(nbrs, a, c, i, d[i]);
        forall u | i < u < |d| ensures d'[u] == d[u] && Wipes(nbrs, a, c, u, d'[u]) == Wipes(nbrs, a, c, u, d[u]) {
          assert d'[u] == d[u];
        }
      } else {
        w := i;
        assert r == (false, d');
        forall u | i < u < |d| ensures r.1[u] == d[u] {
          assert d'[u] == d[u];
        }
      }
    }
  }

  lemma ForwardCheckFromFails(nbrs: set<int>, c: int, a: Assignment, d: Domains)
    ensures var r := ForwardCheckFrom(nbrs, c, a, d, 0);
      !r.0 ==>
        exists w :: 0 <= w < |d| && Wipes(nbrs, a, c, w, d[w]) &&
          (forall u :: 0 <= u < w ==> !Wipes(nbrs, a, c, u, d[u])) &&
          (forall u :: w < u < |d| ==> r.1[u] == d[u])
  {
    if !ForwardCheckFrom(nbrs, c, a, d, 0).0 {
      var w := ForwardCheckFromStops(nbrs, c, a, d, 0);
    }
  }

  /** `forward_check(x, a, csp)`, x already bound in a: prunes a[x] from the
      domains of x's unassigned neighbours, failing at the first one emptied. */
  function ForwardCheck(p: Problem, x: int, a: Assignment, d: Domains): (r: (bool, Domains))
    requires x in a
    ensures |r.1| == |d|
    ensures forall u :: 0 <= u < |d| ==>
      (r.1[u] == d[u] || (Prunable(GetNeighbours(p, x), a, a[x], u, d[u]) && r.1[u] == Some(RemoveFirst(d[u].value, a[x]))))
    ensures r.0 <==> forall u :: 0 <= u < |d| ==> !Wipes(GetNeighbours(p, x), a, a[x], u, d[u])
    ensures r.0 ==> forall u :: 0 <= u < |d| && Prunable(GetNeighbours(p, x), a, a[x], u, d[u]) ==>
      r.1[u] == Some(RemoveFirst(d[u].value, a[x]))
    ensures !r.0 ==>
      exists w :: 0 <= w < |d| && Wipes(GetNeighbours(p, x), a, a[x], w, d[w]) &&
        (forall u :: 0 <= u < w ==> !Wipes(GetNeighbours(p, x), a, a[x], u, d[u])) &&
        (forall u :: w < u < |d| ==> r.1[u] == d[u])
  {
    ForwardCheckFromSucceeds(GetNeighbours(p, x), a[x], a, d, 0);
    forall u | 0 <= u < |d|
      ensures var r := ForwardCheckFrom(GetNeighbours(p, x), a[x], a, d, 0);
        r.1[u] == d[u] || (Prunable(GetNeighbours(p, x), a, a[x], u, d[u]) && r.1[u] == Some(RemoveFirst(d[u].value, a[x])))
    {
      ForwardCheckFromFrameAt(GetNeighbours(p, x), a[x], a, d, 0, u);
    }
    forall u | ForwardCheckFrom(GetNeighbours(p, x), a[x], a, d, 0).0 &&
        0 <= u < |d| && Prunable(GetNeighbours(p, x), a, a[x], u, d[u])
      ensures ForwardCheckFrom(GetNeighbours(p, x), a[x], a, d, 0).1[u] == Some(RemoveFirst(d[u].value, a[x]))
    {
      ForwardCheckFromPrunesAt(GetNeighbours(p, x), a[x], a, d, 0, u);
    }
    ForwardCheckFromFails(GetNeighbours(p, x), a[x], a, d);
    ForwardCheckFrom(GetNeighbours(p, x), a[x], a, d, 0)
  }

  // ---------------------------------------------------------------------------
  // dfs_backtracking_plus

  /** The call at which the source's global counter equals this value gives up. */
  const IterationCap: nat := 500000

  /** What a call returns, the state it leaves the caller's assignment dict in,
      and the global counter afterwards. */
  datatype PlusRun = PlusRun(result: Option<Assignment>, state: Assignment, iter: nat)

  /** The domain map covers every variable, only variables are assigned, and
      exactly the assigned ones have their domain replaced by None. Every state
      the solver reaches from `SolvePlus` has this shape. */
  predicate Shape(p: Problem, a: Assignment, d: Domains) {
    && |d| == p.n
    && a.Keys <= Vars(p.n)
    && forall v :: 0 <= v < |d| ==> (d[v].None? <==> v in a)
  }

  /** `dfs_backtracking_plus(a, csp)` entered with the global counter at it. */
  function Search(p: Problem, a: Assignment, d: Domains, it: nat): (r: PlusRun)
    requires Shape(p, a, d)
    ensures r.iter > it
    ensures r.result.None? ==> r.state == a
    ensures r.result.Some? ==> r.state == r.result.value
    ensures r.result.Some? ==> Extends(r.result.value, a) && r.result.value.Keys == Vars(p.n)
    ensures it + 1 == IterationCap && a.Keys != Vars(p.n) ==> r == PlusRun(None, a, it + 1)
    decreases p.n - |a|, 1, 0
  {
    SubsetOfVars(a.Keys, p.n);
    var it' := it + 1;
    if |a| == p.n then PlusRun(Some(a), a, it')
    else if it' == IterationCap then PlusRun(None, a, it')
    else
      var x := MakeAssignment(a, d);
      if !Live(d[x]) then PlusRun(None, a, it')
      else TryValues(p, a, d, x, ValueOrdering(p, x, a, d), it')
  }

  /** The loop `for val in value_ordering(...)` of `dfs_backtracking_plus`,
      assigning x, over the colours still to try. */
  function TryValues(p: Problem, a: Assignment, d: Domains, x: int, vals: seq<int>, it: nat): (r: PlusRun)
    requires Shape(p, a, d) && 0 <= x < p.n && x !in a
    ensures r.iter >= it
    ensures r.result.None? ==> r.state == a
    ensures r.result.Some? ==> r.state == r.result.value
    ensures r.result.Some? ==> Extends(r.result.value, a) && r.result.value.Keys == Vars(p.n)
    decreases p.n - |a|, 0, |vals|
  {
    if |vals| == 0 then PlusRun(None, a, it)
    else
      var a' := a[x := vals[0]];
      Bind(p, a, x, vals[0]);
      BindShape(p, a, d, x, vals[0]);
      // a private copy of the domains in which x is marked assigned
      var fc := ForwardCheck(p, x, a', d[x := None]);
      if fc.0 then
        var child := Search(p, a', fc.1, it);
        if child.result.Some? then
          ExtendsStep(a, x, vals[0], child.result.value);
          child
        else
          TryValues(p, child.state - {x}, d, x, vals[1..], child.iter)
      else
        TryValues(p, a' - {x}, d, x, vals[1..], it)
  }

  /** Binding an unassigned variable grows the assignment by one; unbinding it restores it. */
  lemma Bind(p: Problem, a: Assignment, x: int, c: int)
    requires a.Keys <= Vars(p.n) && 0 <= x < p.n && x !in a
    ensures a[x := c].Keys <= Vars(p.n)
    ensures |a[x := c]| == |a| + 1 <= p.n
    ensures a[x := c] - {x} == a
  {
    SubsetOfVars(a[x := c].Keys, p.n);
    assert a[x := c] - {x} == a;
  }

  /** Binding x, marking it assigned and forward checking keeps the shape:
      pruning never turns a domain into None or back. */
  lemma BindShape(p: Problem, a: Assignment, d: Domains, x: int, c: int)
    requires Shape(p, a, d) && 0 <= x < p.n && x !in a
    ensures Shape(p, a[x := c], ForwardCheck(p, x, a[x := c], d[x := None]).1)
  {
    Bind(p, a, x, c);
    var a', d1 := a[x := c], d[x := None];
    var r := ForwardCheck(p, x, a', d1).1;
    forall v | 0 <= v < |r| ensures r[v].None? <==> v in a' {
      assert r[v].None? <==> d1[v].None?;
    }
  }

  lemma ExtendsStep(a: Assignment, x: int, c: int, s: Assignment)
    requires x !in a && Extends(s, a[x := c])
    ensures Extends(s, a)
  {
  }

  /** The solver's entry point: fresh domains, empty assignment, counter at 0. */
  function SolvePlus(p: Problem): (r: PlusRun)
    ensures r.result.Some? ==> r.result.value.Keys == Vars(p.n)
  {
    Search(p, map[], GenerateCsp(p), 0)
  }
}
