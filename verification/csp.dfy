/** The problem instance shared by both solvers: n variables, k colours and a
    list of pairwise inequality constraints, together with what it means to
    colour it. The systematic search colours with a map (a partial assignment),
    the local search with a sequence indexed by variable. */
module Csp {

  datatype Option<T> = None | Some(value: T)

  /** A constraint (a, b): variables a and b must not receive the same colour. */
  type Edge = (int, int)

  /** Constraint e joins u and v, in either orientation. */
  predicate Joins(e: Edge, u: int, v: int) {
    e == (u, v) || e == (v, u)
  }

  datatype Problem = Problem(n: nat, k: nat, constraints: seq<Edge>) {

    predicate IsVar(v: int) {
      0 <= v < n
    }

    predicate IsColour(c: int) {
      0 <= c < k
    }

    /** Every endpoint names one of the n variables (the input reader's duty). */
    predicate WellFormed() {
      forall i :: 0 <= i < |constraints| ==> IsVar(constraints[i].0) && IsVar(constraints[i].1)
    }

    /** The input contains the constraint (v, v). */
    predicate HasSelfPair(v: int) {
      exists i :: 0 <= i < |constraints| && constraints[i] == (v, v)
    }

    predicate NoSelfPairs() {
      forall i :: 0 <= i < |constraints| ==> constraints[i].0 != constraints[i].1
    }

    /** Some constraint joins u and v, in either orientation. */
    predicate Adjacent(u: int, v: int) {
      exists i :: 0 <= i < |constraints| && Joins(constraints[i], u, v)
    }
  }

  /** A partial assignment of the systematic search: variable -> colour. */
  type Assignment = map<int, int>

  /** The variables 0..n-1. */
  function Vars(n: nat): (vs: set<int>)
    ensures forall v :: v in vs <==> 0 <= v < n
  {
    if n == 0 then {} else Vars(n - 1) + {n - 1}
  }

  lemma {:induction false} VarsCard(n: nat)
    ensures |Vars(n)| == n
  {
    if n > 0 {
      VarsCard(n - 1);
    }
  }

  /** A set of variables has at most n members, and exactly n only when it is all of them. */
  lemma {:induction false} SubsetOfVars(s: set<int>, n: nat)
    requires s <= Vars(n)
    ensures |s| <= n
    ensures |s| == n ==> s == Vars(n)
  {
    if n > 0 {
      var s' := s - {n - 1};
      SubsetOfVars(s', n - 1);
      if n - 1 in s {
        assert s == s' + {n - 1};
      } else {
        assert s == s';
      }
    } else {
      assert s == {};
    }
  }

  /** a and b agree on every variable a assigns. */
  predicate Extends(b: Assignment, a: Assignment) {
    forall v :: v in a ==> v in b && b[v] == a[v]
  }

  /** No constraint has both ends assigned the same colour. A self-pair on an
      assigned variable always clashes. */
  predicate NoClash(p: Problem, a: Assignment) {
    forall i :: 0 <= i < |p.constraints| && p.constraints[i].0 in a && p.constraints[i].1 in a ==>
      a[p.constraints[i].0] != a[p.constraints[i].1]
  }

  /** A complete, proper colouring in map form. */
  predicate IsSolution(p: Problem, a: Assignment) {
    && a.Keys == Vars(p.n)
    && (forall v :: v in a ==> p.IsColour(a[v]))
    && NoClash(p, a)
  }

  /** A full colouring in list form: one colour in 0..k-1 per variable. */
  predicate IsColouring(p: Problem, c: seq<int>) {
    |c| == p.n && forall i :: 0 <= i < |c| ==> p.IsColour(c[i])
  }

  /** Every constraint has distinct endpoint colours under c. */
  predicate Proper(p: Problem, c: seq<int>)
    requires p.WellFormed() && |c| == p.n
  {
    forall i :: 0 <= i < |p.constraints| ==> c[p.constraints[i].0] != c[p.constraints[i].1]
  }

  /** A self-pair makes a problem uncolourable. */
  lemma SelfPairUnsolvable(p: Problem, v: int, a: Assignment)
    ensures p.HasSelfPair(v) && v in a ==> !NoClash(p, a)
  {
    if p.HasSelfPair(v) && v in a {
      var i :| 0 <= i < |p.constraints| && p.constraints[i] == (v, v);
    }
  }
}
