/** Plain depth-first backtracking (dfsb.py, mode 0): variables are assigned
    in index order 0, 1, ..., n-1 and colours are tried in order 0..k-1. The
    caller's assignment dict is mutated in place; a Run reports both the
    returned value and the state the dict is left in. */
module Backtracking {
  import opened Csp

  /** The colour endpoint v has under the proposal x = val on top of a. */
  function Resolve(v: int, x: int, val: int, a: Assignment): (r: Option<int>)
    ensures r.Some? <==> v in a[x := val]
    ensures r.Some? ==> r.value == a[x := val][v]
  {
    if v != x then (if v in a then Some(a[v]) else None) else Some(val)
  }

  /** Constraint e rejects the proposal: both ends resolve, to the same colour. */
  predicate Rejects(e: Edge, x: int, val: int, a: Assignment) {
    var l := Resolve(e.0, x, val, a);
    var r := Resolve(e.1, x, val, a);
    l.Some? && r.Some? && l.value == r.value
  }

  /** The scan of `consistent` over the constraints from position i on. */
  function ConsistentFrom(p: Problem, x: int, val: int, a: Assignment, i: nat): (r: bool)
    requires i <= |p.constraints|
    ensures r <==> forall j :: i <= j < |p.constraints| ==> !Rejects(p.constraints[j], x, val, a)
    decreases |p.constraints| - i
  {
    if i == |p.constraints| then true
    else if Rejects(p.constraints[i], x, val, a) then false
    else ConsistentFrom(p, x, val, a, i + 1)
  }

  /** `consistent(v, val, a)`: every constraint is inspected, not only those
      touching v, so a clash already present in a also makes it false. */
  function Consistent(p: Problem, x: int, val: int, a: Assignment): (r: bool)
    ensures r <==> NoClash(p, a[x := val])
    ensures p.HasSelfPair(x) ==> !r
  {
    SelfPairUnsolvable(p, x, a[x := val]);
    ConsistentFrom(p, x, val, a, 0)
  }

  /** The keys of a are exactly 0..|a|-1: the search fills variables in index order. */
  predicate IsPrefix(a: Assignment) {
    (forall v :: v in a ==> 0 <= v < |a|) && (forall v :: 0 <= v < |a| ==> v in a)
  }

  /** Binding the next variable keeps the prefix shape, one longer; unbinding restores it. */
  lemma PrefixStep(a: Assignment, c: int)
    requires IsPrefix(a)
    ensures |a| !in a
    ensures |a[|a| := c]| == |a| + 1 && IsPrefix(a[|a| := c])
    ensures a[|a| := c] - {|a|} == a
  {
    // |a| is not a key, since every key is below |a|
  }

  /** What a call returns, and the state it leaves the caller's dict in. */
  datatype Run = Run(result: Option<Assignment>, state: Assignment)

  /** `dfs_backtrack(a)`. */
  function Backtrack(p: Problem, a: Assignment): (r: Run)
    requires IsPrefix(a) && |a| <= p.n
    ensures r.result.None? ==> r.state == a
    ensures r.result.Some? ==> r.state == r.result.value
    ensures r.result.Some? ==> Extends(r.result.value, a) && r.result.value.Keys == Vars(p.n)
    ensures r.result.Some? ==> forall v :: v in r.result.value && v !in a ==> p.IsColour(r.result.value[v])
    ensures r.result.Some? && NoClash(p, a) ==> NoClash(p, r.result.value)
    decreases p.n - |a|, p.k + 1
  {
    if |a| == p.n then
      SubsetOfVars(a.Keys, p.n);
      Run(Some(a), a)
    else
      TryColours(p, a, 0)
  }

  /** The loop `for val in range(k)` of `dfs_backtrack`, from colour c on,
      with variable |a| the one being assigned. */
  function TryColours(p: Problem, a: Assignment, c: nat): (r: Run)
    requires IsPrefix(a) && |a| < p.n && c <= p.k
    ensures r.result.None? ==> r.state == a
    ensures r.result.Some? ==> r.state == r.result.value
    ensures r.result.Some? ==> Extends(r.result.value, a) && r.result.value.Keys == Vars(p.n)
    ensures r.result.Some? ==> forall v :: v in r.result.value && v !in a ==> p.IsColour(r.result.value[v])
    ensures r.result.Some? ==> NoClash(p, r.result.value)
    decreases p.n - |a|, p.k - c
  {
    var v := |a|;
    if c == p.k then Run(None, a)
    else if Consistent(p, v, c, a) then
      PrefixStep(a, c);
      var child := Backtrack(p, a[v := c]);
      if child.result.Some? then
        Grown(p, a, c, child.result.value);
        child
      else
        // backtrack: `del assignment[v]`
        TryColours(p, child.state - {v}, c + 1)
    else TryColours(p, a, c + 1)
  }

  /** A result grown from a[|a| := c], with c a colour, is grown from a. */
  lemma Grown(p: Problem, a: Assignment, c: nat, s: Assignment)
    requires IsPrefix(a) && c < p.k
    requires Extends(s, a[|a| := c])
    requires forall v :: v in s && v !in a[|a| := c] ==> p.IsColour(s[v])
    ensures Extends(s, a)
    ensures forall v :: v in s && v !in a ==> p.IsColour(s[v])
  {
    PrefixStep(a, c);
  }

  /** Bindings taken from a clash-free assignment are clash-free. */
  lemma NoClashBelow(p: Problem, a: Assignment, s: Assignment)
    requires NoClash(p, s) && Extends(s, a)
    ensures NoClash(p, a)
  {
    forall i | 0 <= i < |p.constraints| && p.constraints[i].0 in a && p.constraints[i].1 in a
      ensures a[p.constraints[i].0] != a[p.constraints[i].1]
    {
      var (x, y) := p.constraints[i];
      assert x in s && s[x] == a[x];
      assert y in s && s[y] == a[y];
    }
  }

  /** Completeness: a solution extending the prefix means the search succeeds. */
  lemma {:induction false} BacktrackComplete(p: Problem, a: Assignment, s: Assignment)
    requires IsPrefix(a) && |a| <= p.n
    requires IsSolution(p, s) && Extends(s, a)
    ensures Backtrack(p, a).result.Some?
    decreases p.n - |a|, p.k + 1
  {
    if |a| < p.n {
      assert |a| in s;
      TryColoursComplete(p, a, 0, s);
    }
  }

  lemma {:induction false} TryColoursComplete(p: Problem, a: Assignment, c: nat, s: Assignment)
    requires IsPrefix(a) && |a| < p.n && c <= p.k
    requires IsSolution(p, s) && Extends(s, a)
    requires |a| in s && c <= s[|a|]
    ensures TryColours(p, a, c).result.Some?
    decreases p.n - |a|, p.k - c
  {
    var v := |a|;
    PrefixStep(a, c);
    var a' := a[v := c];
    if c == s[v] {
      assert Extends(s, a');
      NoClashBelow(p, a', s);
      BacktrackComplete(p, a', s);
    } else {
      assert s[v] < p.k;
      TryColoursComplete(p, a, c + 1, s);
    }
  }

  /** `dfs_backtrack({})` succeeds exactly when the problem has a solution, and
      what it returns is one. */
  lemma BacktrackDecides(p: Problem)
    ensures Backtrack(p, map[]).result.Some? ==> IsSolution(p, Backtrack(p, map[]).result.value)
    ensures Backtrack(p, map[]).result.Some? <==> exists s :: IsSolution(p, s)
  {
    var r := Backtrack(p, map[]);
    if r.result.Some? {
      assert IsSolution(p, r.result.value);
    }
    if s :| IsSolution(p, s) {
      BacktrackComplete(p, map[], s);
    }
  }
}
