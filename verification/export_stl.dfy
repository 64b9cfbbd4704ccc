/**
 * The combinatorial side of the STL export: the lattice offset of every corner of a face,
 * the flat/band classification of faces, the search for a window of a cyclic vertex list
 * that reappears reversed (`find_dup`), and the triangle fan of a polygon. Coordinates stay
 * abstract: a corner is a vertex index with its cell offset, and the tolerance test
 * `np.allclose` is a predicate supplied by the caller.
 */
module ExportStl {
  import opened Wrappers
  import opened Cells
  import opened PeriodicGraph
  import MakeFaces

  // ---------------------------------------------------------------------------------------
  // Corner offsets
  // ---------------------------------------------------------------------------------------

  /** A corner of a face: `vertices[vertex] + cell · periods`, kept as the pair it is computed from. */
  datatype Corner = Corner(vertex: nat, offset: Cell)

  /**
   * The corner loop of `draw_face`/`draw_band`: the `k`-th corner is the tail of the `k`-th
   * half-edge, shifted by the cells of the half-edges before it; `net` is the cell after the
   * whole face.
   */
  method FaceCorners(hes: seq<HalfEdge>, face: seq<nat>) returns (corners: seq<Corner>, net: Cell)
    requires IndicesBelow(face, |hes|)
    ensures |corners| == |face|
    ensures forall k :: 0 <= k < |face| ==> corners[k] == Corner(hes[face[k]].tail, CellSum(hes, face[..k]))
    ensures net == CellSum(hes, face)
  {
    var cell := Zero;
    corners := [];
    var k := 0;
    while k < |face|
      invariant 0 <= k <= |face| && |corners| == k
      invariant forall m :: 0 <= m < k ==> corners[m] == Corner(hes[face[m]].tail, CellSum(hes, face[..m]))
      invariant cell == CellSum(hes, face[..k])
    {
      var h := hes[face[k]];
      corners := corners + [Corner(h.tail, cell)];
      CellSumPrefix(hes, face, k);
      cell := Add(cell, h.cell);
      k := k + 1;
    }
    assert face[..|face|] == face;
    net := cell;
  }

  /** Half-edge `h` runs from corner `a` to corner `b`: it leaves `a`'s vertex and its cell carries `a` to `b`. */
  predicate Runs(hes: seq<HalfEdge>, h: nat, a: Corner, b: Corner)
    requires h < |hes|
  {
    a.vertex == hes[h].tail && b == Corner(hes[h].head, Add(a.offset, hes[h].cell))
  }

  /** One step of the corner walk: half-edge `k` of a tracer face runs from corner `k` to corner `k + 1`. */
  lemma CornerStep(hes: seq<HalfEdge>, face: seq<nat>, k: nat)
    requires IndicesBelow(face, |hes|) && k + 1 < |face|
    requires hes[face[k + 1]].tail == hes[face[k]].head
    ensures Runs(hes, face[k], Corner(hes[face[k]].tail, CellSum(hes, face[..k])),
                 Corner(hes[face[k + 1]].tail, CellSum(hes, face[..k + 1])))
  {
    CellSumPrefix(hes, face, k);
  }

  /**
   * On a face of the tracer, half-edge `k` runs from corner `k` to corner `k + 1`, and the last
   * one runs from the last corner to the first corner shifted by the net cell: the drawn
   * polygon closes exactly when the net cell is zero.
   */
  lemma CornersFollowFace(hes: seq<HalfEdge>, inv: seq<nat>, rot: seq<nat>, face: seq<nat>,
                          corners: seq<Corner>, net: Cell)
    requires IsPairing(hes, inv) && |rot| == |hes| && IndicesBelow(rot, |hes|)
    requires forall h :: 0 <= h < |hes| ==> hes[rot[h]].tail == hes[h].tail
    requires MakeFaces.IsOrbitWalk(inv, rot, face)
    requires |corners| == |face|
    requires forall k :: 0 <= k < |face| ==> corners[k] == Corner(hes[face[k]].tail, CellSum(hes, face[..k]))
    requires net == CellSum(hes, face)
    ensures forall k :: 0 <= k < |face| - 1 ==> Runs(hes, face[k], corners[k], corners[k + 1])
    ensures Runs(hes, face[|face| - 1], corners[|face| - 1], Corner(corners[0].vertex, Add(corners[0].offset, net)))
  {
    MakeFaces.OrbitWalkJoins(hes, inv, rot, face);
    var n := |face|;
    forall k | 0 <= k < n - 1
      ensures Runs(hes, face[k], corners[k], corners[k + 1])
    {
      assert MakeFaces.NextPosition(k, n) == k + 1;
      CornerStep(hes, face, k);
    }
    assert MakeFaces.NextPosition(n - 1, n) == 0;
    CornerClose(hes, face);
  }

  /** The closing step: the last half-edge of a face ends at the first corner shifted by the net cell. */
  lemma CornerClose(hes: seq<HalfEdge>, face: seq<nat>)
    requires IndicesBelow(face, |hes|) && |face| > 0
    requires hes[face[0]].tail == hes[face[|face| - 1]].head
    ensures var n := |face|;
            var first := Corner(hes[face[0]].tail, CellSum(hes, face[..0]));
            Runs(hes, face[n - 1], Corner(hes[face[n - 1]].tail, CellSum(hes, face[..n - 1])),
                 Corner(first.vertex, Add(first.offset, CellSum(hes, face))))
  {
    var n := |face|;
    assert face[..0] == [];
    CellSumPrefix(hes, face, n - 1);
    assert face[..n] == face;
  }

  // ---------------------------------------------------------------------------------------
  // Face classification
  // ---------------------------------------------------------------------------------------

  /** A face that closes in the unit cell is drawn as a polygon; one that wraps around is drawn as a band. */
  datatype FaceKind = Flat | Band

  /** The net cell of one face, summed half-edge by half-edge from zero. */
  method NetCell(hes: seq<HalfEdge>, face: seq<nat>) returns (cell: Cell)
    requires IndicesBelow(face, |hes|)
    ensures cell == CellSum(hes, face)
  {
    cell := Zero;
    var k := 0;
    while k < |face|
      invariant 0 <= k <= |face|
      invariant cell == CellSum(hes, face[..k])
    {
      CellSumPrefix(hes, face, k);
      cell := Add(cell, hes[face[k]].cell);
      k := k + 1;
    }
    assert face[..|face|] == face;
  }

  /** The classification loop: `draw_face` when all components of the net cell are zero, else `draw_band`. */
  method ClassifyFaces(hes: seq<HalfEdge>, faces: seq<seq<nat>>) returns (kinds: seq<FaceKind>)
    requires forall i :: 0 <= i < |faces| ==> IndicesBelow(faces[i], |hes|)
    ensures |kinds| == |faces|
    ensures forall i :: 0 <= i < |faces| ==> (kinds[i] == Flat <==> IsZero(CellSum(hes, faces[i])))
  {
    kinds := [];
    var i := 0;
    while i < |faces|
      invariant 0 <= i <= |faces| && |kinds| == i
      invariant forall m :: 0 <= m < i ==> (kinds[m] == Flat <==> IsZero(CellSum(hes, faces[m])))
    {
      var cell := NetCell(hes, faces[i]);
      kinds := kinds + [if IsZero(cell) then Flat else Band];
      i := i + 1;
    }
  }

  /** The export draws every face flat exactly when the tracer reported the faces trivial. */
  lemma ClassificationAgreesWithTracer(hes: seq<HalfEdge>, faces: seq<seq<nat>>, kinds: seq<FaceKind>)
    requires forall i :: 0 <= i < |faces| ==> IndicesBelow(faces[i], |hes|)
    requires |kinds| == |faces|
    requires forall i :: 0 <= i < |faces| ==> (kinds[i] == Flat <==> IsZero(CellSum(hes, faces[i])))
    ensures MakeFaces.TrivialFaces(hes, faces) <==> forall i :: 0 <= i < |kinds| ==> kinds[i] == Flat
  {
  }

  // ---------------------------------------------------------------------------------------
  // find_dup
  // ---------------------------------------------------------------------------------------

  /** The answer of `find_dup`: window `i1..j1` and window `i2..j2` (indices modulo `n`). */
  datatype Dup = Dup(i1: nat, j1: nat, i2: nat, j2: nat)

  /** Entry `k` of the window at `j` is close to entry `k` of the window at `i` read backwards. */
  predicate PairClose<T>(verts: seq<T>, close: (T, T) -> bool, length: nat, i: nat, j: nat, k: nat)
    requires |verts| > 0
  {
    close(verts[(j + k) % |verts|], verts[(i + length - 1 - k) % |verts|])
  }

  /**
   * The `length` entries starting at `j` match, one by one, the `length` entries starting at
   * `i` read backwards (indices modulo `n`).
   */
  predicate ReversedAt<T>(verts: seq<T>, close: (T, T) -> bool, length: nat, i: nat, j: nat)
    requires |verts| > 0
  {
    forall k: nat :: k < length ==> PairClose(verts, close, length, i, j, k)
  }

  /** A candidate `find_dup` accepts: a length in `2..n//2`, two different starts, a reversed match. */
  predicate IsDup<T>(verts: seq<T>, close: (T, T) -> bool, length: nat, i: nat, j: nat) {
    && 2 <= length <= |verts| / 2 && i < |verts| && j < |verts| && j != i
    && ReversedAt(verts, close, length, i, j)
  }

  /** `(l, i, j)` comes before `(l', i', j')` in the search order: length, then `i`, then `j`. */
  predicate SearchedBefore(l: nat, i: nat, j: nat, l': nat, i': nat, j': nat) {
    l < l' || (l == l' && (i < i' || (i == i' && j < j')))
  }

  /** The `length` entries starting at `i`, read cyclically. */
  function Window<T>(verts: seq<T>, length: nat, i: nat): (sub: seq<T>)
    requires |verts| > 0
    ensures |sub| == length && forall k :: 0 <= k < length ==> sub[k] == verts[(i + k) % |verts|]
  {
    seq(length, k requires 0 <= k < length => verts[(i + k) % |verts|])
  }

  /** The innermost loop: compare the window at `j` with `sub`, the window at `i`, read backwards. */
  method MatchesReversed<T>(verts: seq<T>, close: (T, T) -> bool, length: nat, i: nat, sub: seq<T>, j: nat)
    returns (matched: bool)
    requires |verts| > 0 && sub == Window(verts, length, i)
    ensures matched <==> ReversedAt(verts, close, length, i, j)
  {
    var n := |verts|;
    var k := 0;
    while k < length
      invariant 0 <= k <= length
      invariant forall m: nat :: m < k ==> PairClose(verts, close, length, i, j, m)
    {
      assert sub[length - 1 - k] == verts[(i + length - 1 - k) % n];
      if !close(verts[(j + k) % n], sub[length - 1 - k]) {
        assert !PairClose(verts, close, length, i, j, k);
        return false;
      }
      k := k + 1;
    }
    return true;
  }

  /** The `j` loop for one `(length, i)`: the first `j != i` whose window matches. */
  method FirstPartner<T>(verts: seq<T>, close: (T, T) -> bool, length: nat, i: nat) returns (r: Option<nat>)
    requires 2 <= length <= |verts| / 2 && i < |verts|
    ensures r.None? <==> forall j: nat :: !IsDup(verts, close, length, i, j)
    ensures r.Some? ==> IsDup(verts, close, length, i, r.value)
                        && forall j: nat :: j < r.value ==> !IsDup(verts, close, length, i, j)
  {
    var n := |verts|;
    var sub := Window(verts, length, i);
    var j := 0;
    while j < n
      invariant 0 <= j <= n
      invariant forall j': nat :: j' < j ==> !IsDup(verts, close, length, i, j')
    {
      if j != i {
        var matched := MatchesReversed(verts, close, length, i, sub, j);
        if matched {
          assert IsDup(verts, close, length, i, j);
          return Some(j);
        }
      }
      j := j + 1;
    }
    return None;
  }

  /** The `i` loop for one length: the first `i` with a partner, and that partner. */
  method FirstAtLength<T>(verts: seq<T>, close: (T, T) -> bool, length: nat) returns (r: Option<(nat, nat)>)
    requires 2 <= length <= |verts| / 2
    ensures r.None? <==> forall i: nat, j: nat :: !IsDup(verts, close, length, i, j)
    ensures r.Some? ==> IsDup(verts, close, length, r.value.0, r.value.1)
    ensures r.Some? ==> forall i: nat, j: nat :: IsDup(verts, close, length, i, j) ==>
                          !SearchedBefore(length, i, j, length, r.value.0, r.value.1)
  {
    var i := 0;
    while i < |verts|
      invariant 0 <= i <= |verts|
      invariant forall i': nat, j: nat :: i' < i ==> !IsDup(verts, close, length, i', j)
    {
      var partner := FirstPartner(verts, close, length, i);
      if partner.Some? {
        return Some((i, partner.value));
      }
      i := i + 1;
    }
    return None;
  }

  /**
   * `find_dup`: the first `(length, i, j)` in search order whose windows match reversed,
   * reported as `(i, (i+length-1)%n, j, (j+length-1)%n)`, or `None` when there is none.
   */
  method FindDup<T>(verts: seq<T>, close: (T, T) -> bool) returns (r: Option<Dup>, length: nat)
    ensures r.None? <==> forall l: nat, i: nat, j: nat :: !IsDup(verts, close, l, i, j)
    ensures r.Some? ==>
              && IsDup(verts, close, length, r.value.i1, r.value.i2)
              && r.value.j1 == (r.value.i1 + length - 1) % |verts|
              && r.value.j2 == (r.value.i2 + length - 1) % |verts|
    ensures r.Some? ==>
              forall l: nat, i: nat, j: nat :: IsDup(verts, close, l, i, j) ==>
                !SearchedBefore(l, i, j, length, r.value.i1, r.value.i2)
  {
    var n := |verts|;
    length := 2;
    while length <= n / 2
      invariant 2 <= length
      invariant forall l: nat, i: nat, j: nat :: l < length ==> !IsDup(verts, close, l, i, j)
    {
      var found := FirstAtLength(verts, close, length);
      if found.Some? {
        var (i, j) := found.value;
        return Some(Dup(i, (i + length - 1) % n, j, (j + length - 1) % n)), length;
      }
      length := length + 1;
    }
    return None, length;
  }

  /** With fewer than four entries there is no length to try, so `find_dup` finds nothing. */
  lemma NoDupBelowFour<T>(verts: seq<T>, close: (T, T) -> bool)
    requires |verts| < 4
    ensures forall l: nat, i: nat, j: nat :: !IsDup(verts, close, l, i, j)
  {
  }

  // ---------------------------------------------------------------------------------------
  // draw_polygon
  // ---------------------------------------------------------------------------------------

  datatype Triangle<T> = Triangle(a: T, b: T, c: T)

  /** The fan of `vlist` around `center`: triangle `i` is `[center, vlist[i], vlist[(i+1)%n]]`. */
  function Fan<T>(center: T, vlist: seq<T>): (fan: seq<Triangle<T>>)
    ensures |fan| == |vlist|
    ensures forall i :: 0 <= i < |vlist| ==> fan[i] == Triangle(center, vlist[i], vlist[(i + 1) % |vlist|])
  {
    seq(|vlist|, i requires 0 <= i < |vlist| => Triangle(center, vlist[i], vlist[(i + 1) % |vlist|]))
  }

  /**
   * `draw_polygon`: the triangles of the fan of `vlist` appended, one by one, to `triangles`;
   * `center` stands for the mean of `vlist`.
   */
  method DrawPolygon<T>(triangles: seq<Triangle<T>>, center: T, vlist: seq<T>) returns (triangles': seq<Triangle<T>>)
    ensures triangles' == triangles + Fan(center, vlist)
  {
    var n := |vlist|;
    var fan := Fan(center, vlist);
    triangles' := triangles;
    var i := 0;
    while i < n
      invariant 0 <= i <= n && triangles' == triangles + fan[..i]
    {
      triangles' := triangles' + [Triangle(center, vlist[i], vlist[(i + 1) % n])];
      assert fan[..i + 1] == fan[..i] + [fan[i]];
      i := i + 1;
    }
    assert fan[..n] == fan;
  }

  /**
   * The fan closes up: every triangle has the center as its apex, the next triangle starts
   * where this one ends, and the corners of the triangles are exactly the polygon's vertices.
   */
  lemma FanCloses<T>(center: T, vlist: seq<T>)
    requires |vlist| > 0
    ensures forall i :: 0 <= i < |vlist| ==> Fan(center, vlist)[i].a == center
    ensures forall i, i' :: 0 <= i < |vlist| && i' == (i + 1) % |vlist| ==>
              Fan(center, vlist)[i].c == Fan(center, vlist)[i'].b
    ensures forall v :: v in vlist <==> exists i :: 0 <= i < |vlist| && Fan(center, vlist)[i].b == v
  {
    var fan := Fan(center, vlist);
    forall v | v in vlist
      ensures exists i :: 0 <= i < |vlist| && fan[i].b == v
    {
      var i :| 0 <= i < |vlist| && vlist[i] == v;
      assert fan[i].b == v;
    }
  }
}
