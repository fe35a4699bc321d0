# Directional-fiber root candidates, modelled in Dafny

This project models the candidate stage of `fiber_solver` in the
directional-fibers root finder (`dfibers/solvers.py`). After a fiber of the
augmented system `f(v) = alpha * c` has been traced, the solver looks at the
sequence of alpha coordinates of the traced points and marks the indices
where a root of `f` is plausible:

- both endpoints;
- every index whose alpha has a different numpy sign from the next one (zero
  is its own sign, so a zero beside a nonzero counts);
- optionally, every interior local minimum of |alpha|, judged with `<=`
  against both neighbours.

The mask is widened by one neighbour on each side in two passes. The marked
columns are taken in index order, alpha is stripped from each, and each may
be refined within the fiber. The solver reports the candidates, the
refinement traces and the marked indices (`np.flatnonzero`). The within-fiber
refinement uses a Newton-Raphson step rule, `compute_refine_step_amount`,
which is also modelled.

Modules:

- `Numeric` (`numeric.dfy`): numpy's three-valued `sign`, `fabs` and Python's
  `min`, over exact reals.
- `Candidates` (`candidates.dfy`): the mask. There is a specification
  (`IsSeed`, `SeedMask`, the two widening passes, and `Dilate` as an
  independent reference), lemmas about it, and `MarkCandidates`. That method
  builds the mask in place in an `array<bool>` the way the source does:
  allocate all-false, set the endpoints, OR in the sign changes, OR in the
  local minima, then run the two widening passes. Each widening pass reads a
  snapshot taken before it writes. This matches numpy, where
  `np.logical_or` builds a fresh array before the slice assignment.
- `Selection` (`selection.dfy`): `np.flatnonzero` as a loop (`FlatNonzero`)
  against the reference function `TrueIndices`, and the column selection
  `X[:, mask]`.
- `RefineStep` (`refine_step.dfy`): the within-fiber step rule as a pure
  function, with lemmas about its length, its direction and its effect on the
  linear prediction of alpha.
- `FiberSolver` (`fiber_solver.dfy`): the loop that assembles candidates and
  refinements (`CollectCandidates`), and `Solve`, which composes the stages on
  a traced fiber. `Solve` returns an error exactly where numpy would raise:
  no points, points of different lengths, points with no alpha coordinate,
  or final candidates of different lengths (which cannot be stacked into the
  "Fixed points" matrix).

Fiber traversal (`traverse_fiber`) lives in a file that is not part of this
model. So the traced points are an input of `Solve`. The refinement of a
candidate `v` is a function parameter `refine` that gives the points of the
refinement trace started at `v`.
The one thing assumed of it is that it returns at least one point: the
solver reads the last point of every refinement trace (`points[-1]` at
dfibers/solvers.py:179), which would raise on an empty trace.

Two consequences of the code worth stating:

- `compute_refine_step_amount` takes `min(|r|, fiber_step)` of the raw fiber
  step, not of its magnitude, and `RefineStepAmount` does the same. The
  lemmas about the step assume a non-negative fiber step, which is what the
  step-size controller of the recurrent-network example returns
  (`sv_min / (4*mu)`).
- A sign change between i and i+1 marks both indices
  (`SignChangeMarksBoth`), because the widening passes run after the marking.

## Model

| member | source | states |
|---|---|---|
| `Numeric.Sign` | dfibers/solvers.py:135 | numpy's sign is -1, 0 or 1, and is negative, zero or positive exactly when its argument is |
| `Numeric.Abs` | dfibers/solvers.py:138 | `np.fabs` is non-negative and equals its argument or its negation |
| `Numeric.Min` | dfibers/solvers.py:147-148 | the builtin `min` of two numbers is no larger than either and equals one of them |
| `Candidates.MarkSignChanges` | dfibers/solvers.py:135 | the in-place or-assignment marks exactly the indices `i < len(a)-1` whose sign differs from `i+1`, on top of the earlier marks |
| `Candidates.MarkLocalAbsMins` | dfibers/solvers.py:137-138 | the in-place or-assignment marks exactly the interior local minima of abs(alpha) under `<=`, on top of the earlier marks |
| `Candidates.WidenFromRightInPlace` | dfibers/solvers.py:140 | after the first widening pass, each entry is its old value OR its right neighbour's old value; the last entry is unchanged |
| `Candidates.WidenFromLeftInPlace` | dfibers/solvers.py:141 | after the second widening pass, each entry is its old value OR its left neighbour's old value; the first entry is unchanged |
| `Candidates.MarkCandidates` | dfibers/solvers.py:129-141 | the mask built in place has one entry per point and equals the candidate-mask specification |
| `Candidates.MaskLength` | dfibers/solvers.py:130-131 | the mask has exactly one entry per fiber point |
| `Candidates.WideningIsDilation` | dfibers/solvers.py:139-141 | the two widening passes together equal a symmetric one-step dilation: an entry ends up marked iff some index at distance at most one, inside the mask, was marked |
| `Candidates.WideningKeepsMarks` | dfibers/solvers.py:140-141 | widening never unmarks an index |
| `Candidates.CandidateIffNearSeed` | dfibers/solvers.py:131-141 | index j is a candidate iff an endpoint, a sign change or (when enabled) a local abs(alpha) minimum lies at distance at most one from j |
| `Candidates.EndpointsAreCandidates` | dfibers/solvers.py:133-141 | indices 0 and len(a)-1 are always candidates; a one-point trace is marked entirely |
| `Candidates.SignChangeMarksBoth` | dfibers/solvers.py:135-141 | a sign change between i and i+1 makes both i and i+1 candidates |
| `Candidates.ZeroBesideNonzeroMarksBoth` | dfibers/solvers.py:135 | a zero alpha next to a nonzero alpha counts as a sign change and marks both indices |
| `Candidates.LocalAbsMinMarksNeighbourhood` | dfibers/solvers.py:137-141 | with local minima enabled, an interior i with abs(a[i]) no larger than either neighbour's makes i-1, i and i+1 candidates |
| `Candidates.WithoutLocalAbsMinOnlyEndpointsAndSignChanges` | dfibers/solvers.py:131-141 | with local minima disabled, every candidate lies within one index of an endpoint or a sign change |
| `Candidates.LocalAbsMinOnlyAdds` | dfibers/solvers.py:137-138 | enabling local minima never removes a candidate |
| `Selection.TrueIndicesInRange` | dfibers/solvers.py:189 | every index reported by flatnonzero lies in [0, len(mask)) |
| `Selection.TrueIndicesIncreasing` | dfibers/solvers.py:189 | the reported indices are strictly increasing |
| `Selection.TrueIndicesMembership` | dfibers/solvers.py:189 | an index is reported iff the mask is true there |
| `Selection.TrueIndicesCount` | dfibers/solvers.py:189 | the number of reported indices equals the number of true mask entries |
| `Selection.FlatNonzero` | dfibers/solvers.py:189 | the left-to-right scan returns exactly the strictly increasing list of true positions, one per true entry |
| `Selection.SelectColumns` | dfibers/solvers.py:155 | `X[:, mask]` has one column per true entry, and its k-th column is the column at the k-th true position |
| `RefineStep.NewtonStep` | dfibers/solvers.py:145 | the Newton step r = -x_alpha / z_alpha brings the linear prediction of alpha exactly to zero |
| `RefineStep.RefineStepAmount` | dfibers/solvers.py:144-150 | the returned diagnostic data is exactly (r, fiber step, fiber step data) |
| `RefineStep.StepLengthIsMin` | dfibers/solvers.py:147-148 | for a non-negative fiber step, abs(step) is min(abs(r), fiber step), so it exceeds neither |
| `RefineStep.StepFollowsNewtonDirection` | dfibers/solvers.py:147-148 | the step is 0 when r is 0 or the fiber step is 0, and otherwise has the sign of r |
| `RefineStep.FullStepZeroesAlpha` | dfibers/solvers.py:145-148 | when the fiber step is at least abs(r), the step is r itself and the predicted alpha is zero |
| `RefineStep.StepNeverOvershoots` | dfibers/solvers.py:145-148 | for a non-negative fiber step, the predicted abs(alpha) never grows, and it shrinks strictly when alpha and the fiber step are nonzero |
| `RefineStep.NegativeFiberStepReverses` | dfibers/solvers.py:145-148 | a negative fiber step is taken as given, against the direction of r, and the predicted abs(alpha) grows |
| `FiberSolver.StripAlpha` | dfibers/solvers.py:160 | `x[:-1]` drops exactly the last (alpha) coordinate, and gives an empty vector for an empty one |
| `FiberSolver.FinalCandidate` | dfibers/solvers.py:160-179 | without refinement a candidate is its column with the alpha coordinate removed; with refinement it is the last point of its refinement trace with alpha removed; in both cases appending that alpha gives the point back |
| `FiberSolver.Alphas` | dfibers/solvers.py:129-130 | `X[-1,:]` has one entry per point, namely that point's last coordinate |
| `FiberSolver.CandidateStates` | dfibers/solvers.py:155-181 | there is one final candidate per marked index, and candidate k is the final candidate of the k-th marked point |
| `FiberSolver.UnrefinedCandidatesStack` | dfibers/solvers.py:155-187 | without refinement, all candidates of a well-formed trace have length N, so stacking them at line 187 cannot fail |
| `FiberSolver.DimensionKeepingRefinementStacks` | dfibers/solvers.py:162-187 | if every refinement trace keeps the dimension N+1 of its start, all refined candidates have length N and stack |
| `FiberSolver.CollectCandidates` | dfibers/solvers.py:155-181 | one candidate per selected column, in column order, as many as there are true mask entries; without refinement a candidate is its column minus alpha; with refinement, candidate k is the last refinement point of that state minus alpha, and refinement k is that state's trace |
| `FiberSolver.Solve` | dfibers/solvers.py:129-189 | fails exactly when the points cannot be stacked into a matrix with an alpha row, or the final candidates cannot be stacked into "Fixed points", naming the first failure; otherwise "Fixed points" is the list of final candidates, "Fixed index" is the flatnonzero of the candidate mask, candidate k comes from point "Fixed index"[k], and with refinement there is one refinement per candidate, the k-th being the trace started at candidate k's state |
| `FiberSolver.FixedIndexProperties` | dfibers/solvers.py:131-189 | "Fixed index" is strictly increasing, lies inside the trace, contains 0 and the last index, and has one entry per true mask entry |
| `FiberSolver.CandidatesAreMarkedStates` | dfibers/solvers.py:155-160 | without refinement, candidate k is the k-th marked point with its alpha coordinate removed |

## Left out

- `local_solver` (dfibers/solvers.py:9-73) is not modelled. It is a driver loop around wall-clock time, random numbers and `scipy.optimize.minimize`.
- Fiber traversal (`traverse_fiber`, dfibers/solvers.py:106-121 and 164-177) is not part of this model, because its source is not among the modelled files. The traced points are an input of `Solve`. Each refinement is the function parameter `refine`, which must return at least one point. Because `refine` is a function, equal candidates get equal refinement traces. The real traversal also depends on the wall clock through `stop_time`, so two refinements of the same candidate may differ there.
- The refinement termination predicate (dfibers/solvers.py:151-152) is not modelled. It combines `fx.is_fixed` with the caller's predicate, and `fixed_points.py` is not part of this model. It only affects the opaque refinement traces.
- The nested `compute_refine_step_amount` calls the caller's `compute_step_amount(trace)`. `RefineStepAmount` takes that call's two results, plus the alpha coordinates of the trace's point and tangent, as inputs.
- `RefineStepAmount` requires `z_alpha != 0`. In numpy, a zero tangent alpha gives an infinite or NaN step with a warning. Floating-point rounding, infinities and NaN are not modelled: alpha and steps are exact reals.
- Deduplication (`get_connected_components`, `get_unique_points`, `sanitize_points`) is not modelled: `fiber_solver` never calls it, and it lives in `fixed_points.py`, which is not part of this model.
- The "Fiber trace" entry of the solution dictionary (the traversal result passed through), logging and the wall-clock `stop_time` are not modelled.
- Points are vectors (`seq<real>`) rather than numpy `(N+1, 1)` column arrays. The candidate matrix "Fixed points" is the sequence of its columns.
