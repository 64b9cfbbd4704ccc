/**
 * The periodic quotient graph: half-edges `[tail, head, cell]` stored in one flat sequence,
 * the inversion pairing, cell sums along walks and the adjacency by tail vertex.
 */
module PeriodicGraph {
  import opened Cells

  /** A directed edge from `tail` to the copy of `head` translated by `cell`. */
  datatype HalfEdge = HalfEdge(tail: nat, head: nat, cell: Cell)

  /** The half-edge that walks `h` backwards. */
  function Reverse(h: HalfEdge): HalfEdge {
    HalfEdge(h.head, h.tail, Neg(h.cell))
  }

  /** Every endpoint of every half-edge names one of `n` vertices. */
  predicate EndpointsBelow(hes: seq<HalfEdge>, n: nat) {
    forall h :: 0 <= h < |hes| ==> hes[h].tail < n && hes[h].head < n
  }

  /** Every entry of `s` is an index below `n`. */
  predicate IndicesBelow(s: seq<nat>, n: nat) {
    forall i :: 0 <= i < |s| ==> s[i] < n
  }

  /** No value occurs twice in `s`. */
  predicate Distinct(s: seq<nat>) {
    forall i, j :: 0 <= i < |s| && 0 <= j < |s| && i != j ==> s[i] != s[j]
  }

  /** `s`, read as a map on `0..|s|-1`, is a permutation of that range. */
  predicate IsPermutation(s: seq<nat>) {
    IndicesBelow(s, |s|) && Distinct(s)
  }

  /**
   * `inv` pairs every half-edge with its reverse twin: a fixed-point-free involution
   * under which tail and head swap and the cell is negated.
   */
  predicate IsPairing(hes: seq<HalfEdge>, inv: seq<nat>) {
    && |inv| == |hes|
    && IndicesBelow(inv, |inv|)
    && (forall h :: 0 <= h < |inv| ==> inv[inv[h]] == h && inv[h] != h)
    && (forall h :: 0 <= h < |inv| ==> hes[inv[h]] == Reverse(hes[h]))
  }

  lemma PairingIsPermutation(hes: seq<HalfEdge>, inv: seq<nat>)
    requires IsPairing(hes, inv)
    ensures IsPermutation(inv)
  {
    forall i, j | 0 <= i < |inv| && 0 <= j < |inv| && i != j
      ensures inv[i] != inv[j]
    {
      assert inv[inv[i]] == i && inv[inv[j]] == j;
    }
  }

  /**
   * Componentwise sum of the cells of the half-edges `hs`, accumulated from `[0, 0, 0]`
   * in walk order: the net lattice translation of the walk.
   */
  function CellSum(hes: seq<HalfEdge>, hs: seq<nat>): Cell
    requires IndicesBelow(hs, |hes|)
    decreases |hs|
  {
    if |hs| == 0 then Zero
    else Add(CellSum(hes, hs[..|hs| - 1]), hes[hs[|hs| - 1]].cell)
  }

  /** Extending a walk by one half-edge adds that half-edge's cell to the sum. */
  lemma CellSumSnoc(hes: seq<HalfEdge>, hs: seq<nat>, h: nat)
    requires IndicesBelow(hs, |hes|) && h < |hes|
    ensures IndicesBelow(hs + [h], |hes|)
    ensures CellSum(hes, hs + [h]) == Add(CellSum(hes, hs), hes[h].cell)
  {
    assert (hs + [h])[..|hs|] == hs;
  }

  /** Extending a prefix of a walk by one half-edge adds that half-edge's cell. */
  lemma CellSumPrefix(hes: seq<HalfEdge>, hs: seq<nat>, k: nat)
    requires IndicesBelow(hs, |hes|) && k < |hs|
    ensures CellSum(hes, hs[..k + 1]) == Add(CellSum(hes, hs[..k]), hes[hs[k]].cell)
  {
    assert hs[..k + 1][..k] == hs[..k];
  }

  /** When no half-edge crosses a cell boundary, every walk adds up to no translation. */
  lemma {:induction false} CellSumAllZero(hes: seq<HalfEdge>, hs: seq<nat>)
    requires IndicesBelow(hs, |hes|) && forall h :: 0 <= h < |hes| ==> IsZero(hes[h].cell)
    ensures CellSum(hes, hs) == Zero
    decreases |hs|
  {
    if |hs| > 0 {
      var n := |hs| - 1;
      assert IndicesBelow(hs[..n], |hes|);
      CellSumAllZero(hes, hs[..n]);
      assert IsZero(hes[hs[n]].cell);
    }
  }

  /**
   * The indices of the half-edges leaving `v`, in ascending order: the adjacency
   * list that appending each index to `adj[h[0]]` builds.
   */
  function TailIndices(hes: seq<HalfEdge>, v: nat): (r: seq<nat>)
    ensures forall i :: 0 <= i < |r| ==> r[i] < |hes| && hes[r[i]].tail == v
    ensures forall i, j :: 0 <= i < j < |r| ==> r[i] < r[j]
    ensures Distinct(r)
    decreases |hes|
  {
    if |hes| == 0 then []
    else
      var n := |hes| - 1;
      TailIndices(hes[..n], v) + (if hes[n].tail == v then [n] else [])
  }

  /** Every half-edge leaving `v` is listed in the adjacency of `v`. */
  lemma {:induction false} TailIndicesComplete(hes: seq<HalfEdge>, v: nat, h: nat)
    requires h < |hes| && hes[h].tail == v
    ensures h in TailIndices(hes, v)
    decreases |hes|
  {
    var n := |hes| - 1;
    if h < n {
      TailIndicesComplete(hes[..n], v, h);
    }
  }

  /** The position of `x` in `s`: its first occurrence. */
  function IndexOf(s: seq<nat>, x: nat): (r: nat)
    requires x in s
    ensures r < |s| && s[r] == x
    ensures forall j :: 0 <= j < r ==> s[j] != x
  {
    if s[0] == x then 0 else 1 + IndexOf(s[1..], x)
  }

  /** A sequence without repetitions of indices below `n` holds at most `n` of them. */
  lemma {:induction false} DistinctBound(s: seq<nat>, n: nat)
    requires IndicesBelow(s, n) && Distinct(s)
    ensures |s| <= n
    decreases n
  {
    if |s| > 0 {
      assert s[0] < n;
      // Drop the occurrence of n - 1, if any, and bound the rest by n - 1.
      var t: seq<nat>;
      if n - 1 in s {
        var k := IndexOf(s, n - 1);
        t := s[..k] + s[k + 1..];
        assert |t| == |s| - 1;
        forall i | 0 <= i < |t|
          ensures t[i] < n - 1
        {
          if i < k {
            assert t[i] == s[i];
          } else {
            assert t[i] == s[i + 1];
          }
        }
        forall i, j | 0 <= i < |t| && 0 <= j < |t| && i != j
          ensures t[i] != t[j]
        {
          var i' := if i < k then i else i + 1;
          var j' := if j < k then j else j + 1;
          assert t[i] == s[i'] && t[j] == s[j'];
        }
      } else {
        t := s;
        forall i | 0 <= i < |t|
          ensures t[i] < n - 1
        {
          assert s[i] != n - 1;
        }
      }
      DistinctBound(t, n - 1);
    }
  }
}
