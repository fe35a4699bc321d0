/**
 * The candidate stage of `fiber_solver`: given the points of a traced fiber
 * (each an augmented point `[v; alpha]`), mark candidate roots, select their
 * columns in index order, strip alpha from each, optionally refine each one
 * within the fiber, and report the candidate indices.
 *
 * Fiber traversal is not modelled: the traced points are an input, and the
 * within-fiber refinement of a candidate `v` is a function `refine` giving
 * the points of the refinement trace started at `v`.
 */
module FiberSolver {
  import opened Candidates
  import opened Selection

  datatype Result<T, E> = Ok(value: T) | Err(error: E)

  /** Why the trace cannot be turned into a matrix with an alpha row. */
  datatype SolverError =
    | NoPoints             // `np.concatenate` of an empty list
    | MismatchedDimensions // points of different lengths cannot be stacked as columns
    | NoAlphaCoordinate    // zero-length points: `X[-1,:]` has no row to take
    | MismatchedCandidates // final candidates of different lengths cannot be stacked as columns

  /** The parts of the solution dictionary built from the candidates. */
  datatype Solution = Solution(
    fixedPoints: seq<seq<real>>,         // "Fixed points", one column per candidate
    refinements: seq<seq<seq<real>>>,    // "Refinements", one trace per candidate
    fixedIndex: seq<nat>)                // "Fixed index"

  /** `x[:-1]`: the state part of an augmented point (numpy gives [] for []). */
  function StripAlpha(x: seq<real>): (v: seq<real>)
    ensures |x| > 0 ==> |v| == |x| - 1 && v == x[..|x| - 1]
    ensures |x| == 0 ==> v == []
  {
    if |x| == 0 then [] else x[..|x| - 1]
  }

  /** The points stack into an (N+1) x M matrix with at least one row and column. */
  predicate WellFormedTrace(points: seq<seq<real>>)
  {
    |points| > 0 && |points[0]| > 0 && forall p :: p in points ==> |p| == |points[0]|
  }

  /** `X[-1,:]`: the alpha coordinate of every point. */
  function Alphas(points: seq<seq<real>>): (a: seq<real>)
    requires forall p :: p in points ==> |p| > 0
    ensures |a| == |points|
    ensures forall i :: 0 <= i < |points| ==> a[i] == points[i][|points[i]| - 1]
  {
    seq(|points|, i requires 0 <= i < |points| => points[i][|points[i]| - 1])
  }

  /**
   * What one selected column becomes: its state part, or, within the fiber,
   * the state part of the last point of the refinement trace started there.
   * Putting back the alpha coordinate that was stripped restores that point.
   */
  function FinalCandidate(col: seq<real>, withinFiber: bool, refine: seq<real> -> seq<seq<real>>): (r: seq<real>)
    requires withinFiber ==> refine(StripAlpha(col)) != []
    ensures !withinFiber && |col| > 0 ==> r + [col[|col| - 1]] == col
    ensures withinFiber ==> var trace := refine(StripAlpha(col));
      var last := trace[|trace| - 1];
      |last| > 0 ==> r + [last[|last| - 1]] == last
  {
    var candidate := StripAlpha(col);
    if withinFiber then StripAlpha(refine(candidate)[|refine(candidate)| - 1]) else candidate
  }

  /** All vectors in `cols` have the same length, so they stack as the columns of a matrix. */
  predicate SameLength(cols: seq<seq<real>>)
  {
    forall i, j :: 0 <= i < |cols| && 0 <= j < |cols| ==> |cols[i]| == |cols[j]|
  }

  /** The final candidate of every marked point of a well-formed trace, in index order. */
  function CandidateStates(points: seq<seq<real>>, localAbsMin: bool, withinFiber: bool,
                           refine: seq<real> -> seq<seq<real>>): (cs: seq<seq<real>>)
    requires WellFormedTrace(points)
    requires withinFiber ==> forall v :: refine(v) != []
    ensures var idx := TrueIndices(CandidateMask(Alphas(points), localAbsMin));
      |cs| == |idx|
      && forall k :: 0 <= k < |cs| ==>
           idx[k] < |points| && cs[k] == FinalCandidate(points[idx[k]], withinFiber, refine)
  {
    assert points[0] in points;
    var idx := TrueIndices(CandidateMask(Alphas(points), localAbsMin));
    TrueIndicesInRange(CandidateMask(Alphas(points), localAbsMin));
    seq(|idx|, k requires 0 <= k < |idx| => FinalCandidate(points[idx[k]], withinFiber, refine))
  }

  /** Without refinement the candidates of a well-formed trace always stack. */
  lemma UnrefinedCandidatesStack(points: seq<seq<real>>, localAbsMin: bool,
                                 refine: seq<real> -> seq<seq<real>>)
    requires WellFormedTrace(points)
    ensures SameLength(CandidateStates(points, localAbsMin, false, refine))
    ensures forall v :: v in CandidateStates(points, localAbsMin, false, refine) ==> |v| == |points[0]| - 1
  {
    var cs := CandidateStates(points, localAbsMin, false, refine);
    var idx := TrueIndices(CandidateMask(Alphas(points), localAbsMin));
    forall k | 0 <= k < |cs|
      ensures |cs[k]| == |points[0]| - 1
    {
      assert points[idx[k]] in points;
    }
  }

  /**
   * When every refinement trace keeps the dimension of the augmented point it
   * started from, the refined candidates always stack as well.
   */
  lemma DimensionKeepingRefinementStacks(points: seq<seq<real>>, localAbsMin: bool,
                                         refine: seq<real> -> seq<seq<real>>)
    requires WellFormedTrace(points)
    requires forall v :: refine(v) != []
    requires forall v, p :: p in refine(v) ==> |p| == |v| + 1
    ensures SameLength(CandidateStates(points, localAbsMin, true, refine))
    ensures forall v :: v in CandidateStates(points, localAbsMin, true, refine) ==> |v| == |points[0]| - 1
  {
    var cs := CandidateStates(points, localAbsMin, true, refine);
    var idx := TrueIndices(CandidateMask(Alphas(points), localAbsMin));
    forall k | 0 <= k < |cs|
      ensures |cs[k]| == |points[0]| - 1
    {
      var col := points[idx[k]];
      assert col in points;
      var trace := refine(StripAlpha(col));
      assert trace[|trace| - 1] in trace;
    }
  }

  /**
   * The loop over the selected columns: each becomes a candidate with alpha
   * stripped and, within the fiber, is replaced by the final state of its
   * refinement trace, which is kept as well.
   */
  method CollectCandidates(X: seq<seq<real>>, fixedIndex: array<bool>, withinFiber: bool,
                           refine: seq<real> -> seq<seq<real>>)
    returns (fixedPoints: seq<seq<real>>, refinements: seq<seq<seq<real>>>)
    requires |X| == fixedIndex.Length
    requires withinFiber ==> forall v :: refine(v) != []
    ensures var selected := SelectColumns(X, fixedIndex[..]);
      |fixedPoints| == |selected|
      && forall k :: 0 <= k < |selected| ==> fixedPoints[k] == FinalCandidate(selected[k], withinFiber, refine)
    ensures |fixedPoints| == multiset(fixedIndex[..])[true]
    ensures !withinFiber ==> refinements == []
    ensures withinFiber ==> var selected := SelectColumns(X, fixedIndex[..]);
      |refinements| == |selected|
      && forall k :: 0 <= k < |selected| ==> refinements[k] == refine(StripAlpha(selected[k]))
  {
    var selected := SelectColumns(X, fixedIndex[..]);
    refinements := [];
    fixedPoints := [];
    for i := 0 to |selected|
      invariant |fixedPoints| == i
      invariant forall k :: 0 <= k < i ==> fixedPoints[k] == FinalCandidate(selected[k], withinFiber, refine)
      invariant !withinFiber ==> refinements == []
      invariant withinFiber ==> |refinements| == i
      invariant withinFiber ==> forall k :: 0 <= k < i ==> refinements[k] == refine(StripAlpha(selected[k]))
    {
      var candidate := StripAlpha(selected[i]);
      if withinFiber {
        var refinement := refine(candidate);
        refinements := refinements + [refinement];
        candidate := StripAlpha(refinement[|refinement| - 1]);
      }
      fixedPoints := fixedPoints + [candidate];
    }
    TrueIndicesCount(fixedIndex[..]);
  }

  /**
   * The candidate stage of `fiber_solver` on a traced fiber: fails exactly
   * when the points cannot be stacked into a matrix with an alpha row, or the
   * final candidates cannot be stacked into the "Fixed points" matrix, and
   * otherwise returns one candidate per marked index, in index order.
   */
  method Solve(points: seq<seq<real>>, localAbsMin: bool, withinFiber: bool,
               refine: seq<real> -> seq<seq<real>>)
    returns (r: Result<Solution, SolverError>)
    requires withinFiber ==> forall v :: refine(v) != []
    ensures r.Err? <==>
      !WellFormedTrace(points) || !SameLength(CandidateStates(points, localAbsMin, withinFiber, refine))
    ensures r.Err? ==> r.error == (if |points| == 0 then NoPoints
                                   else if exists p :: p in points && |p| != |points[0]| then MismatchedDimensions
                                   else if |points[0]| == 0 then NoAlphaCoordinate
                                   else MismatchedCandidates)
    ensures r.Ok? ==>
      var mask := CandidateMask(Alphas(points), localAbsMin);
      var s := r.value;
      s.fixedPoints == CandidateStates(points, localAbsMin, withinFiber, refine)
      && s.fixedIndex == TrueIndices(mask)
      && |s.fixedPoints| == |s.fixedIndex|
      && (forall k :: 0 <= k < |s.fixedIndex| ==>
            s.fixedIndex[k] < |points|
            && s.fixedPoints[k] == FinalCandidate(points[s.fixedIndex[k]], withinFiber, refine))
      && (withinFiber ==> |s.refinements| == |s.fixedIndex|)
      && (withinFiber ==> forall k :: 0 <= k < |s.fixedIndex| ==>
            s.refinements[k] == refine(StripAlpha(points[s.fixedIndex[k]])))
      && (!withinFiber ==> s.refinements == [])
  {
    if |points| == 0 {
      return Err(NoPoints);
    }
    if exists p :: p in points && |p| != |points[0]| {
      return Err(MismatchedDimensions);
    }
    if |points[0]| == 0 {
      return Err(NoAlphaCoordinate);
    }
    var a := Alphas(points);
    var fixedIndex := MarkCandidates(a, localAbsMin);
    var fixedPoints, refinements := CollectCandidates(points, fixedIndex, withinFiber, refine);
    var index := FlatNonzero(fixedIndex);
    TrueIndicesCount(fixedIndex[..]);
    TrueIndicesInRange(fixedIndex[..]);
    assert fixedPoints == CandidateStates(points, localAbsMin, withinFiber, refine);
    if !SameLength(fixedPoints) {
      return Err(MismatchedCandidates);
    }
    return Ok(Solution(fixedPoints, refinements, index));
  }

  /**
   * The reported indices are strictly increasing, lie inside the trace,
   * always include both endpoints, and name exactly the marked points.
   */
  lemma FixedIndexProperties(points: seq<seq<real>>, localAbsMin: bool)
    requires WellFormedTrace(points)
    ensures var idx := TrueIndices(CandidateMask(Alphas(points), localAbsMin));
      (forall k, l :: 0 <= k < l < |idx| ==> idx[k] < idx[l])
      && (forall k :: 0 <= k < |idx| ==> idx[k] < |points|)
      && 0 in idx && |points| - 1 in idx
      && |idx| == multiset(CandidateMask(Alphas(points), localAbsMin))[true]
  {
    assert points[0] in points;
    var a := Alphas(points);
    var mask := CandidateMask(a, localAbsMin);
    TrueIndicesIncreasing(mask);
    TrueIndicesInRange(mask);
    TrueIndicesCount(mask);
    EndpointsAreCandidates(a, localAbsMin);
    TrueIndicesMembership(mask, 0);
    TrueIndicesMembership(mask, |a| - 1);
  }

  /**
   * Without refinement, candidate k is the k-th marked point with its alpha
   * coordinate removed.
   */
  lemma CandidatesAreMarkedStates(points: seq<seq<real>>, localAbsMin: bool, k: int,
                                  refine: seq<real> -> seq<seq<real>>)
    requires WellFormedTrace(points)
    requires 0 <= k < |TrueIndices(CandidateMask(Alphas(points), localAbsMin))|
    ensures var j := TrueIndices(CandidateMask(Alphas(points), localAbsMin))[k];
      0 <= j < |points| && CandidateMask(Alphas(points), localAbsMin)[j]
      && FinalCandidate(points[j], false, refine) == points[j][..|points[0]| - 1]
  {
    assert points[0] in points;
    var mask := CandidateMask(Alphas(points), localAbsMin);
    TrueIndicesInRange(mask);
    var j := TrueIndices(mask)[k];
    TrueIndicesMembership(mask, j);
    assert points[j] in points;
  }
}
