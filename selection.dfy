/**
 * Reading a boolean mask back as positions: `np.flatnonzero(fixed_index)` and
 * the column selection `X[:, fixed_index]`.
 */
module Selection {

  /** The positions of the true entries of `m`, in increasing order. */
  function TrueIndices(m: seq<bool>): seq<nat>
  {
    if m == [] then []
    else TrueIndices(m[..|m| - 1]) + (if m[|m| - 1] then [|m| - 1] else [])
  }

  /** Every listed position lies inside the mask. */
  lemma {:induction false} TrueIndicesInRange(m: seq<bool>)
    ensures forall k :: 0 <= k < |TrueIndices(m)| ==> TrueIndices(m)[k] < |m|
  {
    if m != [] {
      TrueIndicesInRange(m[..|m| - 1]);
    }
  }

  /** The listed positions are strictly increasing. */
  lemma {:induction false} TrueIndicesIncreasing(m: seq<bool>)
    ensures forall k, l :: 0 <= k < l < |TrueIndices(m)| ==> TrueIndices(m)[k] < TrueIndices(m)[l]
  {
    if m != [] {
      var init := m[..|m| - 1];
      TrueIndicesIncreasing(init);
      TrueIndicesInRange(init);
    }
  }

  /** A position is listed exactly when the mask is true there. */
  lemma {:induction false} TrueIndicesMembership(m: seq<bool>, j: int)
    requires 0 <= j < |m|
    ensures m[j] <==> j in TrueIndices(m)
  {
    var init := m[..|m| - 1];
    TrueIndicesInRange(init);
    if j < |m| - 1 {
      TrueIndicesMembership(init, j);
    }
  }

  /** One position per true entry: the count of marked candidates. */
  lemma {:induction false} TrueIndicesCount(m: seq<bool>)
    ensures |TrueIndices(m)| == multiset(m)[true]
  {
    if m != [] {
      var init := m[..|m| - 1];
      TrueIndicesCount(init);
      assert m == init + [m[|m| - 1]];
    }
  }

  /** `np.flatnonzero`: the positions of the true entries, scanning left to right. */
  method FlatNonzero(m: array<bool>) returns (idx: seq<nat>)
    ensures idx == TrueIndices(m[..])
    ensures forall k, l :: 0 <= k < l < |idx| ==> idx[k] < idx[l]
    ensures forall k :: 0 <= k < |idx| ==> idx[k] < m.Length
    ensures forall j :: 0 <= j < m.Length ==> (m[j] <==> j in idx)
    ensures |idx| == multiset(m[..])[true]
  {
    idx := [];
    for j := 0 to m.Length
      invariant idx == TrueIndices(m[..j])
    {
      assert m[..j + 1][..j] == m[..j];
      if m[j] {
        idx := idx + [j];
      }
    }
    assert m[..] == m[..m.Length];
    TrueIndicesIncreasing(m[..]);
    TrueIndicesInRange(m[..]);
    TrueIndicesCount(m[..]);
    forall j | 0 <= j < m.Length
      ensures m[j] <==> j in idx
    {
      TrueIndicesMembership(m[..], j);
    }
  }

  /** `X[:, m]`: the columns of `X` whose mask entry is true, in index order. */
  function SelectColumns<T>(cols: seq<T>, m: seq<bool>): (r: seq<T>)
    requires |cols| == |m|
    ensures |r| == |TrueIndices(m)|
    ensures forall k :: 0 <= k < |r| ==> TrueIndices(m)[k] < |cols| && r[k] == cols[TrueIndices(m)[k]]
  {
    TrueIndicesInRange(m);
    seq(|TrueIndices(m)|, k requires 0 <= k < |TrueIndices(m)| => cols[TrueIndices(m)[k]])
  }
}
