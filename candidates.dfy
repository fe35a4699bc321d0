/**
 * Candidate-root marking in `fiber_solver`: a boolean mask over the points of a
 * traced fiber, computed from the sequence `a` of their alpha coordinates.
 * An index is marked when it is an endpoint, when the sign of alpha changes
 * between it and the next point, or (optionally) when |alpha| is a local
 * minimum there; the mask is then widened by one neighbour on each side.
 */
module Candidates {
  import opened Numeric

  /** Index 0 or the last index: always a candidate. */
  predicate IsEndpoint(a: seq<real>, k: int)
  {
    k == 0 || k == |a| - 1
  }

  /** The sign of alpha differs between point k and point k + 1 (zero is its own sign). */
  predicate IsSignChange(a: seq<real>, k: int)
    requires 0 <= k < |a|
  {
    k < |a| - 1 && Sign(a[k]) != Sign(a[k + 1])
  }

  /** |alpha| at the interior point k is no larger than at either neighbour. */
  predicate IsLocalAbsMin(a: seq<real>, k: int)
    requires 0 <= k < |a|
  {
    0 < k < |a| - 1 && Abs(a[k]) <= Abs(a[k + 1]) && Abs(a[k]) <= Abs(a[k - 1])
  }

  /** Whether index k is marked before the neighbour widening. */
  predicate IsSeed(a: seq<real>, localAbsMin: bool, k: int)
    requires 0 <= k < |a|
  {
    IsEndpoint(a, k) || IsSignChange(a, k) || (localAbsMin && IsLocalAbsMin(a, k))
  }

  /** The mask before widening. */
  function SeedMask(a: seq<real>, localAbsMin: bool): seq<bool>
  {
    seq(|a|, k requires 0 <= k < |a| => IsSeed(a, localAbsMin, k))
  }

  /** First widening pass: each index also takes its right neighbour's mark. */
  function WidenFromRight(m: seq<bool>): seq<bool>
  {
    seq(|m|, j requires 0 <= j < |m| => m[j] || (j + 1 < |m| && m[j + 1]))
  }

  /** Second widening pass: each index also takes its left neighbour's mark. */
  function WidenFromLeft(m: seq<bool>): seq<bool>
  {
    seq(|m|, j requires 0 <= j < |m| => m[j] || (0 < j && m[j - 1]))
  }

  /** Some index within distance one of j, and inside the mask, is marked. */
  ghost predicate NearMarked(m: seq<bool>, j: int)
  {
    exists k :: 0 <= k < |m| && j - 1 <= k <= j + 1 && m[k]
  }

  /** Symmetric one-step dilation: the reference definition of the widening. */
  ghost function Dilate(m: seq<bool>): seq<bool>
  {
    seq(|m|, j => NearMarked(m, j))
  }

  /** The final candidate mask. */
  function CandidateMask(a: seq<real>, localAbsMin: bool): seq<bool>
  {
    WidenFromLeft(WidenFromRight(SeedMask(a, localAbsMin)))
  }

  /** The two widening passes together are exactly the symmetric dilation. */
  lemma WideningIsDilation(m: seq<bool>)
    ensures WidenFromLeft(WidenFromRight(m)) == Dilate(m)
  {
  }

  /** Widening never unmarks an index. */
  lemma WideningKeepsMarks(m: seq<bool>, j: int)
    requires 0 <= j < |m| && m[j]
    ensures WidenFromLeft(WidenFromRight(m))[j]
  {
  }

  /**
   * An index is a candidate exactly when a seed lies at distance at most one
   * from it, inside the trace.
   */
  lemma CandidateIffNearSeed(a: seq<real>, localAbsMin: bool, j: int)
    requires 0 <= j < |a|
    ensures CandidateMask(a, localAbsMin)[j]
        <==> exists k :: 0 <= k < |a| && j - 1 <= k <= j + 1 && IsSeed(a, localAbsMin, k)
  {
  }

  /** One mask entry per fiber point. */
  lemma MaskLength(a: seq<real>, localAbsMin: bool)
    ensures |CandidateMask(a, localAbsMin)| == |a|
  {
  }

  /** Both endpoints are always candidates; a one-point trace is fully marked. */
  lemma EndpointsAreCandidates(a: seq<real>, localAbsMin: bool)
    requires |a| > 0
    ensures CandidateMask(a, localAbsMin)[0] && CandidateMask(a, localAbsMin)[|a| - 1]
    ensures |a| == 1 ==> CandidateMask(a, localAbsMin) == [true]
  {
  }

  /** A sign change between i and i + 1 (a zero next to a nonzero included) marks both. */
  lemma SignChangeMarksBoth(a: seq<real>, localAbsMin: bool, i: int)
    requires 0 <= i < |a| - 1
    requires Sign(a[i]) != Sign(a[i + 1])
    ensures CandidateMask(a, localAbsMin)[i] && CandidateMask(a, localAbsMin)[i + 1]
  {
  }

  /** A zero alpha next to a nonzero one always produces a candidate pair. */
  lemma ZeroBesideNonzeroMarksBoth(a: seq<real>, localAbsMin: bool, i: int)
    requires 0 <= i < |a| - 1
    requires (a[i] == 0.0) != (a[i + 1] == 0.0)
    ensures CandidateMask(a, localAbsMin)[i] && CandidateMask(a, localAbsMin)[i + 1]
  {
  }

  /** With local minima enabled, a local |alpha| minimum marks itself and both neighbours. */
  lemma LocalAbsMinMarksNeighbourhood(a: seq<real>, i: int)
    requires 0 < i < |a| - 1
    requires Abs(a[i]) <= Abs(a[i - 1]) && Abs(a[i]) <= Abs(a[i + 1])
    ensures CandidateMask(a, true)[i - 1] && CandidateMask(a, true)[i] && CandidateMask(a, true)[i + 1]
  {
  }

  /**
   * With local minima disabled, every candidate lies next to an endpoint or a
   * sign change: a local minimum alone marks nothing.
   */
  lemma WithoutLocalAbsMinOnlyEndpointsAndSignChanges(a: seq<real>, j: int)
    requires 0 <= j < |a|
    requires CandidateMask(a, false)[j]
    ensures exists k :: 0 <= k < |a| && j - 1 <= k <= j + 1 && (IsEndpoint(a, k) || IsSignChange(a, k))
  {
  }

  /** Enabling local minima only adds candidates. */
  lemma LocalAbsMinOnlyAdds(a: seq<real>, j: int)
    requires 0 <= j < |a|
    requires CandidateMask(a, false)[j]
    ensures CandidateMask(a, true)[j]
  {
  }

  /** The mask with every sign-change index also marked. */
  function WithSignChanges(a: seq<real>, m: seq<bool>): seq<bool>
    requires |m| == |a|
  {
    seq(|m|, k requires 0 <= k < |m| => m[k] || IsSignChange(a, k))
  }

  /** The mask with every interior local |alpha| minimum also marked. */
  function WithLocalAbsMins(a: seq<real>, m: seq<bool>): seq<bool>
    requires |m| == |a|
  {
    seq(|m|, k requires 0 <= k < |m| => m[k] || IsLocalAbsMin(a, k))
  }

  /** Marks, in place, every index whose alpha differs in sign from the next point's. */
  method MarkSignChanges(a: seq<real>, fixedIndex: array<bool>)
    requires fixedIndex.Length == |a|
    modifies fixedIndex
    ensures fixedIndex[..] == WithSignChanges(a, old(fixedIndex[..]))
  {
    for i := 0 to if |a| == 0 then 0 else |a| - 1
      invariant forall k :: 0 <= k < i ==> fixedIndex[k] == (old(fixedIndex[k]) || IsSignChange(a, k))
      invariant forall k :: i <= k < |a| ==> fixedIndex[k] == old(fixedIndex[k])
    {
      fixedIndex[i] := fixedIndex[i] || Sign(a[i]) != Sign(a[i + 1]);
    }
  }

  /** Marks, in place, every interior index where |alpha| is no larger than at both neighbours. */
  method MarkLocalAbsMins(a: seq<real>, fixedIndex: array<bool>)
    requires fixedIndex.Length == |a|
    modifies fixedIndex
    ensures fixedIndex[..] == WithLocalAbsMins(a, old(fixedIndex[..]))
  {
    for i := 1 to if |a| < 2 then 1 else |a| - 1
      invariant forall k :: 0 <= k < i && k < |a| ==> fixedIndex[k] == (old(fixedIndex[k]) || IsLocalAbsMin(a, k))
      invariant forall k :: i <= k < |a| ==> fixedIndex[k] == old(fixedIndex[k])
    {
      fixedIndex[i] := fixedIndex[i] || (Abs(a[i]) <= Abs(a[i + 1]) && Abs(a[i]) <= Abs(a[i - 1]));
    }
  }

  /**
   * First widening pass, in place: every index but the last also takes its
   * right neighbour's mark. All new values are computed from the mask as it
   * was before the pass (numpy builds the OR into a fresh array before
   * assigning it), which the snapshot `before` models.
   */
  method WidenFromRightInPlace(fixedIndex: array<bool>)
    modifies fixedIndex
    ensures fixedIndex[..] == WidenFromRight(old(fixedIndex[..]))
  {
    var before := fixedIndex[..];
    ghost var widened := WidenFromRight(before);
    for j := 0 to if fixedIndex.Length == 0 then 0 else fixedIndex.Length - 1
      invariant forall k :: 0 <= k < j ==> fixedIndex[k] == widened[k]
      invariant forall k :: j <= k < fixedIndex.Length ==> fixedIndex[k] == before[k]
    {
      fixedIndex[j] := before[j] || before[j + 1];
    }
  }

  /** Second widening pass, in place: every index but the first also takes its left neighbour's mark, read from a snapshot likewise. */
  method WidenFromLeftInPlace(fixedIndex: array<bool>)
    modifies fixedIndex
    ensures fixedIndex[..] == WidenFromLeft(old(fixedIndex[..]))
  {
    var before := fixedIndex[..];
    ghost var widened := WidenFromLeft(before);
    for j := 1 to if fixedIndex.Length == 0 then 1 else fixedIndex.Length
      invariant forall k :: 0 <= k < j && k < fixedIndex.Length ==> fixedIndex[k] == widened[k]
      invariant forall k :: j <= k < fixedIndex.Length ==> fixedIndex[k] == before[k]
    {
      fixedIndex[j] := before[j] || before[j - 1];
    }
  }

  /**
   * Builds the candidate mask in place, step by step as `fiber_solver` does:
   * allocate all-false, mark the endpoints, or in the sign changes and (when
   * enabled) the local |alpha| minima, then the two widening passes.
   */
  method MarkCandidates(a: seq<real>, localAbsMin: bool) returns (fixedIndex: array<bool>)
    requires |a| > 0
    ensures fixedIndex.Length == |a|
    ensures fixedIndex[..] == CandidateMask(a, localAbsMin)
  {
    var n := |a|;
    fixedIndex := new bool[n](_ => false);
    fixedIndex[0] := true;
    fixedIndex[n - 1] := true;
    MarkSignChanges(a, fixedIndex);
    if localAbsMin {
      MarkLocalAbsMins(a, fixedIndex);
    }
    assert fixedIndex[..] == SeedMask(a, localAbsMin);
    WidenFromRightInPlace(fixedIndex);
    WidenFromLeftInPlace(fixedIndex);
  }
}
