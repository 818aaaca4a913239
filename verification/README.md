# Graph-colouring CSP solvers, modelled in Dafny

The repository solves graph colouring as a constraint satisfaction problem:
N variables, K colours `0..K-1`, and a list of constraints `(a, b)` saying
that a and b must get different colours. It has two programs.

- `dfsb.py` is a systematic search with two modes.
  - Mode 0 is plain depth-first backtracking. It assigns variables in index
    order and tries colours in order.
  - Mode 1 adds the most-constrained-variable choice (`make_assignment`) and
    the least-constraining-value ordering (`value_ordering`).
  - Mode 1 also forward-checks (`forward_check`) over a per-branch copy of
    the domain map, under a global call counter capped at 500000.
- `minconflicts.py` is a min-conflicts local search.
  - It builds a neighbour table, lists the conflicted variables, and
    repairs one at a time with the colour of fewest clashes.
  - Mode 0 does this for up to 500000 steps.
  - Mode 1 may restart from a fresh random colouring, with a repair budget
    shared by all restarts.

The model is functional. Python's in-place updates become values:
- A search call returns a run record. It holds the returned value and the
  state the caller's assignment dict is left in (`Backtracking.Run`,
  `Propagation.PlusRun`).
- The global counters (`iter`, `max_restart_steps`) are threaded through as
  parameters and results.
- Every random draw is an oracle parameter, so each function describes the
  run for one fixed outcome of the draws. The draws are the initial
  colourings, the choice among conflicted variables, and the restart coin.

Modules:

| module | file | models |
|---|---|---|
| `Csp` | csp.dfy | problems, assignments, colourings, what a solution is |
| `Backtracking` | backtracking.dfy | `consistent`, `dfs_backtrack` |
| `StableSort` | stable_sort.dfy | Python's stable `sorted(xs, key=f)` |
| `Propagation` | propagation.dfy | `generate_csp`, `get_neighbors`, `make_assignment`, `value_ordering`, `forward_check`, `dfs_backtracking_plus` |
| `PropagationSoundness` | propagation_soundness.dfy | the pruning invariant, soundness of mode 1, the iteration cap, self-pairs |
| `PropagationCompleteness` | propagation_completeness.dfy | completeness of mode 1 below the iteration cap, and agreement of the two modes there |
| `MinConflicts` | min_conflicts.dfy | the neighbour table, `conflicting_vars`, `min_conflict_color`, `min_conflicts_basic`, `min_conflicts_restart` |

Three behaviours are modelled as the code has them.

- **`consistent` inspects every constraint** (`dfsb.py:42-46`), not only
  those that mention the proposed variable. So a clash already present in
  the assignment also makes it return false. On the prefixes the search
  builds there is never such a clash, so the extra checks never change the
  answer there.
- **The iteration cap is an equality test** (`dfsb.py:148`). Only the call
  that brings the counter to exactly 500000 gives up. Calls made after it,
  by callers that keep looping over their values, go on as if uncapped
  (`PropagationSoundness.CapFiresOnce`).
- **A self-pair constraint `(v, v)` is never forward-checked.** Variable v
  is already assigned when its neighbours are pruned, so it is skipped
  (`PropagationSoundness.SelfPairNotForwardChecked`).
  - Mode 1 therefore answers the problem N = 1, K = 1, constraints
    `[(0, 0)]` with colour 0, which breaks that constraint. Mode 0 answers
    "no solution" (`PropagationSoundness.SelfPairAnsweredWrongly`).
  - Soundness of mode 1 (`PropagationSoundness.SolvePlusSound`) is proved
    for problems without self-pairs.
  - Completeness of mode 1 needs no such condition. If the problem has a
    solution and the counter stays below 500000, mode 1 finds a colouring
    (`PropagationCompleteness.SolvePlusComplete`). So on well-formed
    problems without self-pairs, the two modes agree below the cap
    (`PropagationCompleteness.EnginesAgree`).
  - Mode 0 (`Backtracking.BacktrackDecides`) and the local search
    (`MinConflicts.SelfLoopConflicts`) handle self-pairs correctly.

## Model

| member | source | states |
|---|---|---|
| `Csp.SelfPairUnsolvable` | dfsb.py:42-46 | an assignment that binds v, where (v, v) is a constraint, always has a clash |
| `Backtracking.Resolve` | dfsb.py:43-44 | an endpoint resolves to a colour exactly when the assignment with the proposal laid over it binds the endpoint, and then to that colour; `assignment.get` yields None for any other endpoint, out-of-range ones included |
| `Backtracking.ConsistentFrom` | dfsb.py:42-47 | the scan from constraint i on answers true exactly when no constraint from i on has both ends resolved to the same colour, with the proposed variable resolving to the proposed colour |
| `Backtracking.Consistent` | dfsb.py:39-47 | `consistent(x, val, a)` is true exactly when binding x to val leaves no constraint with equal colours at both assigned ends; a self-pair on x makes it false |
| `Backtracking.PrefixStep` | dfsb.py:53-61 | binding the next variable `len(a)` keeps the keys a prefix 0..len-1, one longer, and `del` restores the dict |
| `Backtracking.Backtrack` | dfsb.py:49-62 | on None the dict is left as on entry; on success the dict is the result, which extends the entry dict, has keys exactly 0..N-1, colours in 0..K-1 for every new binding, and no clash when the entry had none |
| `Backtracking.TryColours` | dfsb.py:53-62 | the colour loop from colour c: None leaves the dict as on entry; a result extends it, covers 0..N-1 with colours and has no clash |
| `Backtracking.BacktrackComplete` | dfsb.py:49-62 | if some solution extends the prefix, the search succeeds; so None means no proper colouring extends the prefix |
| `Backtracking.TryColoursComplete` | dfsb.py:54-62 | if a solution extends the prefix and colours the next variable with a colour at least c, the loop from c succeeds |
| `Backtracking.BacktrackDecides` | dfsb.py:49-62 | `dfs_backtrack({})` returns a solution exactly when the problem has one, and what it returns is a solution |
| `StableSort.Insert` | dfsb.py:117 | inserting into a key-sorted list gives a key-sorted permutation of the list plus the element |
| `StableSort.Sort` | dfsb.py:117 | the result is sorted by key and is a permutation of the input |
| `StableSort.InsertKeepsTies` | dfsb.py:117 | insertion appends the new element after all elements of equal key, keeping their order |
| `StableSort.SortKeepsTies` | dfsb.py:117 | stability: the elements of each key appear in the output in their input order |
| `Propagation.Palette` | dfsb.py:71 | `[i for i in range(k)]` has length k, holds i at position i, and holds exactly the colours 0..k-1 |
| `Propagation.GenerateCsp` | dfsb.py:68-71 | every variable 0..N-1 gets a fresh domain that is the list 0, 1, ..., K-1 in ascending order, so it holds exactly the colours |
| `Propagation.NeighboursIn` | dfsb.py:75-82 | every neighbour found comes from a constraint joining it to v, and each constraint with v at either end contributes its other end |
| `Propagation.GetNeighbours` | dfsb.py:74-82 | u is a neighbour of v exactly when (v, u) or (u, v) is a constraint |
| `Propagation.NeighboursSymmetric` | dfsb.py:74-82 | u is a neighbour of v exactly when v is a neighbour of u |
| `Propagation.FirstCandidate` | dfsb.py:88-92 | the first loop finds the first unassigned variable with a non-empty domain from i on, or 0 when none exists |
| `Propagation.Narrowest` | dfsb.py:95-99 | the second loop ends on a candidate whose domain is no larger than any candidate's from i on, replacing its start only by a strictly smaller domain, so the earliest minimum wins |
| `Propagation.MakeAssignment` | dfsb.py:85-101 | if a candidate exists, the choice is one, with the smallest domain, and no earlier candidate has a domain as small; with no candidate it is 0 |
| `Propagation.ConflictCount` | dfsb.py:108-115 | the LCV score of a colour is at most the number of variables, and it is positive exactly when some unassigned constraint partner of x still has the colour in its domain |
| `Propagation.ValueOrdering` | dfsb.py:104-117 | the ordering is a permutation of x's domain, non-decreasing in the number of unassigned neighbours still offering each colour |
| `Propagation.ValueOrderingStable` | dfsb.py:117 | colours with equal score keep their order from the domain |
| `Propagation.RemoveFirst` | dfsb.py:130 | `list.remove(c)` takes out exactly one occurrence of c, leaving one element fewer |
| `Propagation.RemoveFirstAt` | dfsb.py:130 | the occurrence removed is the first one; everything before it and everything after it stay in their order |
| `Propagation.ForwardCheckFrom` | dfsb.py:124-134 | the loop over the neighbours, visited in ascending index order, keeps the map's length; the four lemmas below state what it does |
| `Propagation.ForwardCheckFromFrameAt` | dfsb.py:124-134 | the pruning loop changes a domain only by removing c, and only for an unassigned neighbour at or after i whose domain held c |
| `Propagation.ForwardCheckFromSucceeds` | dfsb.py:124-136 | the loop from i succeeds exactly when no neighbour from i on would have its domain emptied |
| `Propagation.ForwardCheckFromPrunesAt` | dfsb.py:128-130 | on success, every unassigned neighbour from i on that held c has lost it |
| `Propagation.ForwardCheckFromStops` | dfsb.py:132-134 | on failure, there is a first emptied neighbour w, and the domains after w are as they were |
| `Propagation.ForwardCheck` | dfsb.py:120-136 | only the assigned colour is pruned, and only from unassigned neighbours holding it; the result is false exactly when some neighbour is emptied, at the first of which the loop stops; on success every such neighbour is pruned |
| `Propagation.Search` | dfsb.py:141-155 | each call advances the counter; None leaves the dict as on entry; a result extends the entry assignment and covers 0..N-1; the call that brings the counter to 500000 on an incomplete assignment gives up; it requires that exactly the assigned variables have None as domain, which every state reached from the entry point meets |
| `Propagation.TryValues` | dfsb.py:157-172 | the value loop never moves the counter back; on None the tentative binding has been removed; a result extends the entry assignment and covers 0..N-1 |
| `Propagation.Bind` | dfsb.py:159-170 | binding an unassigned variable grows the dict by one within 0..N-1, and `del` restores it |
| `Propagation.BindShape` | dfsb.py:159-165 | after binding x, setting its copied domain to None and forward checking, exactly the assigned variables have None as domain |
| `Propagation.SolvePlus` | dfsb.py:189-191 | a result from mode 1 has keys exactly 0..N-1 |
| `PropagationSoundness.InitialInv` | dfsb.py:68-71 | the fresh domain map with nothing assigned meets the pruning invariant |
| `PropagationSoundness.RemoveFirstOk` | dfsb.py:130 | pruning a colour from a domain of distinct colours keeps it distinct, removes the colour, and adds nothing |
| `PropagationSoundness.StepShape` | dfsb.py:159-165 | binding and forward checking keep: exactly the unassigned variables have a domain, and domains hold distinct colours |
| `PropagationSoundness.StepNoClash` | dfsb.py:157-159 | without self-pairs, a colour taken from x's pruned domain clashes with no assigned neighbour |
| `PropagationSoundness.StepPruned` | dfsb.py:162-165 | after a successful forward check, every unassigned variable's domain lacks the colours of its assigned neighbours |
| `PropagationSoundness.StepInv` | dfsb.py:157-166 | binding a value from the domain and forward checking successfully preserves the whole invariant |
| `PropagationSoundness.SearchSound` | dfsb.py:141-172 | from a state meeting the invariant, without self-pairs, any assignment returned is a solution |
| `PropagationSoundness.SearchEndSound` | dfsb.py:144-155 | a call that returns without branching returns a solution or nothing |
| `PropagationSoundness.SearchBranchSound` | dfsb.py:151-157 | a call that branches on the chosen variable returns a solution or nothing |
| `PropagationSoundness.OrderedFromDomain` | dfsb.py:157 | the value loop only tries colours from x's domain |
| `PropagationSoundness.TryValuesSound` | dfsb.py:157-172 | the value loop returns a solution or nothing |
| `PropagationSoundness.SolvePlusSound` | dfsb.py:141-172 | mode 1 on a problem without self-pairs returns only proper colourings of all N variables |
| `PropagationSoundness.PlusFoundImpliesBacktrackFound` | dfsb.py:141-172 | without self-pairs, if mode 1 finds a colouring then mode 0 finds one too |
| `PropagationCompleteness.InitialAdmits` | dfsb.py:68-71 | the fresh domain map admits every solution |
| `PropagationCompleteness.NeighboursDiffer` | dfsb.py:74-82 | a solution gives any two neighbours different colours |
| `PropagationCompleteness.StepSpares` | dfsb.py:124-134 | binding x to its colour in an admitted solution empties no neighbour's domain |
| `PropagationCompleteness.StepPasses` | dfsb.py:159-165 | so forward checking that binding succeeds |
| `PropagationCompleteness.StepAdmitsAt` | dfsb.py:128-130 | each open domain still holds the solution's colour after pruning, because a neighbour's colour in the solution differs from x's |
| `PropagationCompleteness.StepAdmits` | dfsb.py:159-165 | after that step the new domains admit the same solution |
| `PropagationCompleteness.OpenChoice` | dfsb.py:151-157 | with a variable open, the chosen variable is a candidate and its value ordering offers the solution's colour |
| `PropagationCompleteness.SearchComplete` | dfsb.py:141-172 | a call whose domains admit a solution returns a colouring, or the counter has reached 500000 when it returns |
| `PropagationCompleteness.SearchCompleteBranch` | dfsb.py:151-172 | the same for a call that branches |
| `PropagationCompleteness.TryValuesComplete` | dfsb.py:157-172 | the value loop reaches the solution's colour for x unless an earlier value already answered or the counter reached 500000 |
| `PropagationCompleteness.SolvePlusComplete` | dfsb.py:189-191 | on a problem with a solution, mode 1 returns a colouring unless its counter reached 500000 |
| `PropagationCompleteness.EnginesAgree` | dfsb.py:179-191 | on a well-formed problem without self-pairs, whenever mode 1 stays below the cap, it finds a colouring exactly when mode 0 does |
| `PropagationSoundness.CapFiresOnce` | dfsb.py:142-149 | only the call that makes the counter exactly 500000 gives up; a call entered at or past the cap goes on as if there were none |
| `PropagationSoundness.AssignedNeighbourSkipped` | dfsb.py:124-126 | adding an assigned variable to the neighbour set does not change forward checking |
| `PropagationSoundness.SelfPairNotForwardChecked` | dfsb.py:120-126 | adding the self-pair (x, x) for the assigned x leaves forward checking's verdict and domains unchanged |
| `PropagationSoundness.SelfPairAnsweredWrongly` | dfsb.py:141-172 | on N = 1, K = 1, `[(0, 0)]`, mode 1 returns {0: 0}, which is not a solution, while mode 0 returns None |
| `PropagationSoundness.SelfPairFirstStep` | dfsb.py:151-165 | on that instance mode 1 picks variable 0, tries colour 0, and forward checking passes it |
| `PropagationSoundness.SelfPairPlusAnswer` | dfsb.py:141-168 | on that instance mode 1 returns {0: 0} |
| `PropagationSoundness.SelfPairPlainAnswer` | dfsb.py:49-62 | on that instance mode 0 returns None |
| `PropagationSoundness.OutOfRangeNeverRead` | dfsb.py:141-172 | on N = 2, K = 1, `[(0, 1), (1, 5)]`, mode 1 returns None, so the out-of-range endpoint 5 is never looked up |
| `PropagationSoundness.OutOfRangeFirstStep` | dfsb.py:151-165 | on that instance variable 0 is picked, its ordering is [0], and forward checking colour 0 empties variable 1's domain |
| `PropagationSoundness.OutOfRangeLoop` | dfsb.py:157-172 | on that instance the value loop over [0] ends with None |
| `MinConflicts.Adjacency` | minconflicts.py:29-32 | `neighbors[i]` after m edges has at most 2m entries, each edge adding at most two; `AdjacencyMembership` says which |
| `MinConflicts.BuildNeighbours` | minconflicts.py:29-32 | the loop fills `neighbors[i]` with one entry per edge end at i, in edge order |
| `MinConflicts.AdjacencyHas` | minconflicts.py:30-32 | an edge among the first m joining i and u puts u in i's list |
| `MinConflicts.AdjacencySource` | minconflicts.py:30-32 | every entry of i's list after m edges comes from one of those edges joining i and u |
| `MinConflicts.AdjacencyMembership` | minconflicts.py:29-32 | u is in i's list exactly when some edge is (i, u) or (u, i) |
| `MinConflicts.TableSymmetric` | minconflicts.py:29-32 | u is listed for v exactly when v and u are constrained, and exactly when v is listed for u |
| `MinConflicts.TableIndexes` | minconflicts.py:29-32 | on well-formed input every table entry is a variable |
| `MinConflicts.ClashFrom` | minconflicts.py:38-41 | the inner loop from position j finds a clash exactly when some later listed neighbour has i's colour |
| `MinConflicts.ConflictsBelow` | minconflicts.py:36-42 | the outer loop over 0..m-1 lists exactly the conflicted variables below m, strictly ascending |
| `MinConflicts.ConflictingVars` | minconflicts.py:34-42 | the result lists exactly the variables with a neighbour of the same colour, strictly ascending, so without duplicates |
| `MinConflicts.NoConflictsIffProper` | minconflicts.py:34-42 | no variable is in conflict exactly when every constraint has different colours at its ends |
| `MinConflicts.ConflictBreaksConstraint` | minconflicts.py:38-40 | a conflicted variable shares its colour with a constraint partner |
| `MinConflicts.BrokenConstraintConflicts` | minconflicts.py:37-41 | the first end of a constraint with equal colours at both ends is listed as conflicted |
| `MinConflicts.SelfLoopConflicts` | minconflicts.py:29-42 | a self-loop (v, v) always puts v among the conflicted variables |
| `MinConflicts.Count` | minconflicts.py:48 | the clash count for a colour is at most the list length, duplicates counted |
| `MinConflicts.CountPositive` | minconflicts.py:48 | the count for a colour is positive exactly when some listed neighbour holds it |
| `MinConflicts.Scan` | minconflicts.py:47-50 | the colour loop either keeps its start, when no colour beats its count, or ends on the lowest colour of minimum count, below the start count |
| `MinConflicts.MinConflictColour` | minconflicts.py:44-51 | if some colour has at most N clashes, the result is the lowest colour of fewest clashes; otherwise it is the current colour |
| `MinConflicts.MinConflictColourIsBest` | minconflicts.py:44-51 | with K at least 1 and degree at most N, the result is the lowest colour minimising the clashes |
| `MinConflicts.MinConflictColourNoWorse` | minconflicts.py:44-51 | the chosen colour never has more clashing neighbours than the current colour |
| `MinConflicts.Chosen` | minconflicts.py:61 | `random.choice(bad)` yields a variable that is in conflict |
| `MinConflicts.Step` | minconflicts.py:61-62 | a repair keeps the length, changes no position but the chosen one, and keeps every colour in 0..K-1 |
| `MinConflicts.StepLocal` | minconflicts.py:61-62 | the one position a repair may change belongs to a conflicted variable, whose clash count does not grow |
| `MinConflicts.Basic` | minconflicts.py:57-63 | a returned list is a full colouring with no conflict; the loop returns None exactly when it used every remaining pass on repairs |
| `MinConflicts.MinConflictsBasic` | minconflicts.py:54-63 | the loop as a method returns only full conflict-free colourings, and returns what `Basic` describes |
| `MinConflicts.Restart` | minconflicts.py:67-81 | a call's repairs and the budget it leaves add up to the budget it was entered with; a returned list is a full conflict-free colouring |
| `MinConflicts.Repairs` | minconflicts.py:70-81 | from pass s of range(bound), repairs made (here and in restarted calls) plus budget left equal bound - s; a returned list is a full conflict-free colouring |
| `MinConflicts.MinConflictsRestart` | minconflicts.py:66-81 | whatever the draws, all calls together repair at most 500000 times, and a returned list is a full conflict-free colouring |
| `MinConflicts.LastCallIsBasic` | minconflicts.py:70-81 | once no restart can fire, the restart loop returns what the basic loop returns, with the same number of repairs |

## Left out

- Argument parsing, reading the input file, writing the output file, and
  the "No answer." sentinel. These are I/O.
- The debug `print(assign)` in `min_conflicts_basic`.
- The random number generator.
  - The initial colourings are oracle inputs.
  - `random.choice(bad)` is an arbitrary draw reduced modulo `len(bad)`, which
    covers every possible choice.
  - The restart coin (`random_restart == random.randint(0, 100000)`) is a
    per-call pass at which it fires.
  - Nothing probabilistic is claimed. In particular there is no claim about
    how likely a restart is, or that the local search ends with a solution.
- The initial colourings exist only when K >= 1 or N = 0. With K = 0 and
  N > 0, `random.randint(0, -1)` raises an error. The oracle requires
  colourings, so that case is not modelled.
- `min_conflicts_restart` takes a `max_steps` argument and never uses it.
  The shared counter is what bounds the loop.
- Python's recursion limit. A deep search or a long chain of restarts
  would raise `RecursionError`. The model has no depth bound.
- Malformed input, that is an endpoint outside 0..N-1.
  - Mode 0 accepts it. `consistent` looks endpoints up with
    `assignment.get` (`dfsb.py:43-44`), so an out-of-range endpoint never
    resolves and never clashes. The model of mode 0 has no well-formedness
    requirement.
  - Mode 1 raises `KeyError` only once the search picks a variable with
    an out-of-range neighbour and orders its values: `value_ordering` then
    reads that neighbour's domain (`dfsb.py:112`). Until then such a
    constraint is never read, and the model answers as the source does.
    For example, on N = 2, K = 1, constraints `[(0, 1), (1, 5)]`, variable 0
    is picked, forward checking empties variable 1's domain, and the search
    returns None without reading `csp[5]`
    (`PropagationSoundness.OutOfRangeNeverRead`). Where the source raises, the
    model visits domain positions 0..N-1 only and ignores the neighbour.
    The soundness lemmas require well-formed problems.
  - The table construction raises `KeyError` at `neighbors[a]` or
    `neighbors[b]` (`minconflicts.py:31-32`). The table construction and
    the local search require well-formed problems.
- Iteration orders are modelled as ascending.
  - The domain map is a dict filled with keys 0..N-1 in order, so
    `make_assignment` visits variables in index order. The model is a
    sequence indexed by variable.
  - `forward_check` iterates a Python set; the model visits neighbours in
    ascending order. On success every neighbour is pruned independently.
    On failure the copied domain map is thrown away. So the order does not
    affect the result.
- PropagationSoundness.CapFiresOnce: it states one step at a time that the cap fires only when the counter reaches exactly 500000. It does not compare a whole capped run with an uncapped one, because a call's counter after the cap depends on every earlier sibling call.
- PropagationSoundness.PlusFoundImpliesBacktrackFound: only one direction holds for every run. Mode 1 can give up at the cap, so it does not find every solution that mode 0 finds. The converse is proved for runs that stay below the cap (`PropagationCompleteness.EnginesAgree`).
- MinConflicts.StepLocal: a repair changes at most one position, not exactly one. When the best colour is the current one, nothing changes.
