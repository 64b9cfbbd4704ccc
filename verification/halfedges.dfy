/**
 * Half-edge construction from the edge list of the external crystallographic tool:
 * fractional endpoints are split into a lattice cell and a position inside the unit cell,
 * matched against the vertex list, and every kept edge becomes a pair of opposite
 * half-edges whose indices `2k` and `2k+1` are each other's inversion.
 */
module Halfedges {
  import opened Wrappers
  import opened Cells
  import opened PeriodicGraph

  /** A position in fractional (unit-cell) coordinates. */
  datatype Point = Point(x: real, y: real, z: real)

  /** An edge as listed by the tool: two endpoints in fractional coordinates, possibly outside the unit cell. */
  datatype Edge = Edge(from: Point, to: Point)

  /** Every coordinate of `p` lies in `[0, 1)`. */
  predicate InUnitCell(p: Point) {
    0.0 <= p.x < 1.0 && 0.0 <= p.y < 1.0 && 0.0 <= p.z < 1.0
  }

  /** `p + cell`, coordinate by coordinate. */
  function Translate(p: Point, cell: Cell): Point {
    Point(p.x + cell.a as real, p.y + cell.b as real, p.z + cell.c as real)
  }

  /** One coordinate split into `math.floor(x)` and the remainder `x - floor(x)`. */
  function SplitCoordinate(x: real): (r: (int, real))
    ensures 0.0 <= r.1 < 1.0
    ensures r.1 + r.0 as real == x
  {
    (x.Floor, x - x.Floor as real)
  }

  /** A fractional point split into the lattice cell holding it and its position inside that cell. */
  function SplitPoint(p: Point): (r: (Cell, Point))
    ensures InUnitCell(r.1)
    ensures Translate(r.1, r.0) == p
  {
    var (a, x) := SplitCoordinate(p.x);
    var (b, y) := SplitCoordinate(p.y);
    var (c, z) := SplitCoordinate(p.z);
    (Cell(a, b, c), Point(x, y, z))
  }

  /** A parsed coordinate kept when below `1.0`, replaced by `0.0` otherwise. */
  function ClampCoordinate(v: real): (r: real)
    ensures r < 1.0
    ensures v < 1.0 ==> r == v
    ensures v >= 1.0 ==> r == 0.0
  {
    if v < 1.0 then v else 0.0
  }

  function ClampVertex(p: Point): Point {
    Point(ClampCoordinate(p.x), ClampCoordinate(p.y), ClampCoordinate(p.z))
  }

  /**
   * The clamp applied to every parsed vertex position. The third ensures is the per-coordinate
   * rule below restated for whole vertices, kept as a convenience for callers.
   */
  function ClampVertices(vs: seq<Point>): (r: seq<Point>)
    ensures |r| == |vs|
    ensures forall i :: 0 <= i < |r| ==> r[i].x < 1.0 && r[i].y < 1.0 && r[i].z < 1.0
    ensures forall i :: 0 <= i < |r| && InUnitCell(vs[i]) ==> r[i] == vs[i]
    ensures forall i :: 0 <= i < |r| && vs[i].x >= 1.0 ==> r[i].x == 0.0
    ensures forall i :: 0 <= i < |r| && vs[i].y >= 1.0 ==> r[i].y == 0.0
    ensures forall i :: 0 <= i < |r| && vs[i].z >= 1.0 ==> r[i].z == 0.0
    ensures forall i :: 0 <= i < |r| && vs[i].x < 1.0 ==> r[i].x == vs[i].x
    ensures forall i :: 0 <= i < |r| && vs[i].y < 1.0 ==> r[i].y == vs[i].y
    ensures forall i :: 0 <= i < |r| && vs[i].z < 1.0 ==> r[i].z == vs[i].z
  {
    seq(|vs|, i requires 0 <= i < |vs| => ClampVertex(vs[i]))
  }

  /**
   * The first index at or after `from` whose vertex is close to `target`, or `None`.
   * `close(v, target)` stands for `np.allclose(v, target, atol=tol)`.
   */
  function FindVertexFrom(vs: seq<Point>, target: Point, close: (Point, Point) -> bool, from: nat): (r: Option<nat>)
    requires from <= |vs|
    ensures r.Some? ==> from <= r.value < |vs| && close(vs[r.value], target)
    ensures r.Some? ==> forall j :: from <= j < r.value ==> !close(vs[j], target)
    ensures r.None? <==> forall j :: from <= j < |vs| ==> !close(vs[j], target)
    decreases |vs| - from
  {
    if from == |vs| then None
    else if close(vs[from], target) then Some(from)
    else FindVertexFrom(vs, target, close, from + 1)
  }

  /** The smallest index whose vertex matches `target`; `None` iff no vertex matches. */
  function FindVertex(vs: seq<Point>, target: Point, close: (Point, Point) -> bool): (r: Option<nat>)
    ensures r.Some? ==> r.value < |vs| && close(vs[r.value], target)
    ensures r.Some? ==> forall j :: 0 <= j < r.value ==> !close(vs[j], target)
    ensures r.None? <==> forall j :: 0 <= j < |vs| ==> !close(vs[j], target)
  {
    FindVertexFrom(vs, target, close, 0)
  }

  /** The vertex index an edge endpoint resolves to, after removing its lattice cell. */
  function Endpoint(vs: seq<Point>, close: (Point, Point) -> bool, p: Point): Option<nat> {
    FindVertex(vs, SplitPoint(p).1, close)
  }

  /** The cell an edge crosses: the cell of its second endpoint minus that of its first. */
  function EdgeCell(e: Edge): Cell {
    Sub(SplitPoint(e.to).0, SplitPoint(e.from).0)
  }

  /** The filter keeping one representative per undirected edge: `v1 < v2`, or a loop that leaves the cell. */
  predicate Keeps(v1: nat, v2: nat, cell: Cell) {
    v1 < v2 || (v1 == v2 && !IsZero(cell))
  }

  /** `inv` maps `2k` to `2k+1` and `2k+1` to `2k`. */
  predicate AlternatingInversions(inv: seq<nat>) {
    && |inv| % 2 == 0
    && forall h :: 0 <= h < |inv| ==> inv[h] == if h % 2 == 0 then h + 1 else h - 1
  }

  /**
   * Appends the half-edge `h` and its reverse, each recorded as the other's inversion: the
   * new half-edge at index `n` gets inversion `n + 1` and its reverse gets `n`.
   */
  function AppendPair(hes: seq<HalfEdge>, inv: seq<nat>, h: HalfEdge): (r: (seq<HalfEdge>, seq<nat>))
    ensures |r.0| == |hes| + 2 && r.0[..|hes|] == hes
    ensures r.0[|hes|] == h && r.0[|hes| + 1] == Reverse(h)
    ensures |inv| == |hes| && AlternatingInversions(inv) ==> |r.1| == |r.0| && AlternatingInversions(r.1)
    ensures IsPairing(hes, inv) ==> IsPairing(r.0, r.1)
  {
    PairingExtends(hes, inv, h);
    (hes + [h, Reverse(h)], inv + [|hes| + 1, |hes|])
  }

  lemma PairingExtends(hes: seq<HalfEdge>, inv: seq<nat>, h: HalfEdge)
    ensures IsPairing(hes, inv) ==> IsPairing(hes + [h, Reverse(h)], inv + [|hes| + 1, |hes|])
  {
    if !IsPairing(hes, inv) {
      return;
    }
    var hes' := hes + [h, Reverse(h)];
    var inv' := inv + [|hes| + 1, |hes|];
    assert Reverse(Reverse(h)) == h;
    forall k | 0 <= k < |inv'|
      ensures inv'[k] < |inv'| && inv'[inv'[k]] == k && inv'[k] != k
      ensures hes'[inv'[k]] == Reverse(hes'[k])
    {
      if k < |hes| {
        assert inv'[k] == inv[k] && inv'[inv[k]] == inv[inv[k]];
        assert hes'[k] == hes[k] && hes'[inv[k]] == hes[inv[k]];
      }
    }
  }

  /** The two lists after one edge, and whether it raised the "vertex not found" error. */
  datatype EdgeStep = EdgeStep(halfedges: seq<HalfEdge>, inversions: seq<nat>, failed: bool)

  /** One iteration of the edge loop, with the `ValueError` caught and reported as `failed`. */
  function AddEdge(vs: seq<Point>, close: (Point, Point) -> bool, hes: seq<HalfEdge>, inv: seq<nat>, e: Edge): (r: EdgeStep)
    ensures r.failed <==> Endpoint(vs, close, e.from).None? || Endpoint(vs, close, e.to).None?
    ensures r.failed ==> r.halfedges == hes && r.inversions == inv
    ensures !r.failed && !Keeps(Endpoint(vs, close, e.from).value, Endpoint(vs, close, e.to).value, EdgeCell(e))
            ==> r.halfedges == hes && r.inversions == inv
    ensures !r.failed && Keeps(Endpoint(vs, close, e.from).value, Endpoint(vs, close, e.to).value, EdgeCell(e))
            ==> && |r.halfedges| == |hes| + 2 && r.halfedges[..|hes|] == hes
                && r.halfedges[|hes|] == HalfEdge(Endpoint(vs, close, e.from).value, Endpoint(vs, close, e.to).value, EdgeCell(e))
                && r.halfedges[|hes| + 1] == Reverse(r.halfedges[|hes|])
                && r.inversions == inv + [|hes| + 1, |hes|]
    ensures |inv| == |hes| && AlternatingInversions(inv) ==> |r.inversions| == |r.halfedges| && AlternatingInversions(r.inversions)
    ensures IsPairing(hes, inv) ==> IsPairing(r.halfedges, r.inversions)
    ensures EndpointsBelow(hes, |vs|) ==> EndpointsBelow(r.halfedges, |vs|)
  {
    var v1 := Endpoint(vs, close, e.from);
    var v2 := Endpoint(vs, close, e.to);
    var cell := EdgeCell(e);
    if v1.None? || v2.None? then
      EdgeStep(hes, inv, true)
    else if Keeps(v1.value, v2.value, cell) then
      var pair := AppendPair(hes, inv, HalfEdge(v1.value, v2.value, cell));
      EdgeStep(pair.0, pair.1, false)
    else
      EdgeStep(hes, inv, false)
  }

  /** The half-edge an edge contributes: `[v1, v2, cell]` when both endpoints resolve and the filter keeps it. */
  function EdgeHalfedge(vs: seq<Point>, close: (Point, Point) -> bool, e: Edge): Option<HalfEdge> {
    var v1 := Endpoint(vs, close, e.from);
    var v2 := Endpoint(vs, close, e.to);
    if v1.Some? && v2.Some? && Keeps(v1.value, v2.value, EdgeCell(e)) then Some(HalfEdge(v1.value, v2.value, EdgeCell(e)))
    else None
  }

  /** The half-edge list of a sequence of edges: each contributing edge adds its half-edge and then the reverse. */
  function KeptHalfedges(vs: seq<Point>, close: (Point, Point) -> bool, edges: seq<Edge>): seq<HalfEdge>
    decreases |edges|
  {
    if |edges| == 0 then []
    else
      var n := |edges| - 1;
      KeptHalfedges(vs, close, edges[..n]) + Contribution(vs, close, edges[n])
  }

  /** What one edge adds to the half-edge list: its half-edge and the reverse, or nothing. */
  function Contribution(vs: seq<Point>, close: (Point, Point) -> bool, e: Edge): seq<HalfEdge> {
    match EdgeHalfedge(vs, close, e)
    case Some(h) => [h, Reverse(h)]
    case None => []
  }

  /** What the last edge adds comes from the edges. */
  lemma FromLast(vs: seq<Point>, close: (Point, Point) -> bool, edges: seq<Edge>, x: HalfEdge)
    requires |edges| > 0 && x in Contribution(vs, close, edges[|edges| - 1])
    ensures FromSomeEdge(vs, close, edges, x)
  {
    var n := |edges| - 1;
    assert EdgeHalfedge(vs, close, edges[n]).Some?;
  }

  /** `x` is the half-edge of one of the `edges`, or its reverse. */
  ghost predicate FromSomeEdge(vs: seq<Point>, close: (Point, Point) -> bool, edges: seq<Edge>, x: HalfEdge) {
    exists e :: 0 <= e < |edges| && EdgeHalfedge(vs, close, edges[e]).Some?
                && (x == EdgeHalfedge(vs, close, edges[e]).value || x == Reverse(EdgeHalfedge(vs, close, edges[e]).value))
  }

  /** Every entry of the half-edge list is the half-edge of some edge, as written or reversed. */
  lemma {:induction false} KeptHalfedgesSound(vs: seq<Point>, close: (Point, Point) -> bool, edges: seq<Edge>, h: nat)
    requires h < |KeptHalfedges(vs, close, edges)|
    ensures FromSomeEdge(vs, close, edges, KeptHalfedges(vs, close, edges)[h])
    decreases |edges|
  {
    var n := |edges| - 1;
    var prefix := edges[..n];
    var before := KeptHalfedges(vs, close, prefix);
    var all := KeptHalfedges(vs, close, edges);
    if h < |before| {
      KeptHalfedgesSound(vs, close, prefix, h);
      assert all[h] == before[h];
      FromPrefix(vs, close, edges, n, before[h]);
    } else {
      assert all[h] == Contribution(vs, close, edges[n])[h - |before|];
      FromLast(vs, close, edges, all[h]);
    }
  }

  /** What comes from a prefix of the edges comes from the edges. */
  lemma FromPrefix(vs: seq<Point>, close: (Point, Point) -> bool, edges: seq<Edge>, n: nat, x: HalfEdge)
    requires n <= |edges| && FromSomeEdge(vs, close, edges[..n], x)
    ensures FromSomeEdge(vs, close, edges, x)
  {
    var e :| 0 <= e < n && EdgeHalfedge(vs, close, edges[..n][e]).Some?
             && (x == EdgeHalfedge(vs, close, edges[..n][e]).value || x == Reverse(EdgeHalfedge(vs, close, edges[..n][e]).value));
    assert edges[..n][e] == edges[e];
  }

  /** Every edge that contributes is listed in both directions. */
  lemma {:induction false} KeptHalfedgesComplete(vs: seq<Point>, close: (Point, Point) -> bool, edges: seq<Edge>)
    ensures forall e :: 0 <= e < |edges| && EdgeHalfedge(vs, close, edges[e]).Some? ==>
              && EdgeHalfedge(vs, close, edges[e]).value in KeptHalfedges(vs, close, edges)
              && Reverse(EdgeHalfedge(vs, close, edges[e]).value) in KeptHalfedges(vs, close, edges)
    decreases |edges|
  {
    if |edges| > 0 {
      var n := |edges| - 1;
      var prefix := edges[..n];
      KeptHalfedgesComplete(vs, close, prefix);
      var before := KeptHalfedges(vs, close, prefix);
      var all := KeptHalfedges(vs, close, edges);
      forall e | 0 <= e < |edges| && EdgeHalfedge(vs, close, edges[e]).Some?
        ensures EdgeHalfedge(vs, close, edges[e]).value in all
        ensures Reverse(EdgeHalfedge(vs, close, edges[e]).value) in all
      {
        var x := EdgeHalfedge(vs, close, edges[e]).value;
        assert all == before + Contribution(vs, close, edges[n]);
        if e < n {
          assert prefix[e] == edges[e];
          assert x in before && Reverse(x) in before;
        } else {
          assert Contribution(vs, close, edges[n]) == [x, Reverse(x)];
        }
      }
    }
  }

  /**
   * The edge loop: every edge goes through `AddEdge`; the indices of the edges whose
   * endpoints could not be resolved are collected in `failures` (Halfedges.py prints them).
   */
  method BuildHalfedges(vs: seq<Point>, close: (Point, Point) -> bool, edges: seq<Edge>)
    returns (hes: seq<HalfEdge>, inv: seq<nat>, failures: seq<nat>)
    ensures hes == KeptHalfedges(vs, close, edges)
    ensures |inv| == |hes| && AlternatingInversions(inv)
    ensures IsPairing(hes, inv)
    ensures EndpointsBelow(hes, |vs|)
    ensures forall e :: 0 <= e < |edges| ==>
              (e in failures <==> Endpoint(vs, close, edges[e].from).None? || Endpoint(vs, close, edges[e].to).None?)
    ensures forall i, j :: 0 <= i < j < |failures| ==> failures[i] < failures[j]
    ensures forall i :: 0 <= i < |failures| ==> failures[i] < |edges|
  {
    hes, inv, failures := EdgeLoop(vs, close, edges);
  }

  /** The loop itself, stated through the two invariants it establishes for all edges. */
  method EdgeLoop(vs: seq<Point>, close: (Point, Point) -> bool, edges: seq<Edge>)
    returns (hes: seq<HalfEdge>, inv: seq<nat>, failures: seq<nat>)
    ensures Built(vs, close, edges, hes, inv)
    ensures Failures(vs, close, edges, |edges|, failures)
  {
    hes, inv, failures := [], [], [];
    var e := 0;
    while e < |edges|
      invariant 0 <= e <= |edges|
      invariant Built(vs, close, edges[..e], hes, inv)
      invariant Failures(vs, close, edges, e, failures)
    {
      hes, inv, failures := EdgeIteration(vs, close, edges, e, hes, inv, failures);
      e := e + 1;
    }
    assert edges[..|edges|] == edges;
  }

  /** One pass of the loop body: edge `e` goes through `AddEdge` and is recorded when it failed. */
  method EdgeIteration(vs: seq<Point>, close: (Point, Point) -> bool, edges: seq<Edge>, e: nat,
                       hes: seq<HalfEdge>, inv: seq<nat>, failures: seq<nat>)
    returns (hes': seq<HalfEdge>, inv': seq<nat>, failures': seq<nat>)
    requires e < |edges| && Built(vs, close, edges[..e], hes, inv) && Failures(vs, close, edges, e, failures)
    ensures Built(vs, close, edges[..e + 1], hes', inv')
    ensures Failures(vs, close, edges, e + 1, failures')
  {
    var step := AddEdge(vs, close, hes, inv, edges[e]);
    BuiltStep(vs, close, edges, e, hes, inv);
    FailuresStep(vs, close, edges, e, failures, step.failed);
    hes', inv' := step.halfedges, step.inversions;
    failures' := if step.failed then failures + [e] else failures;
  }

  /** The lists built from `edges`: their half-edges, a paired alternating inversion list, endpoints in range. */
  ghost predicate Built(vs: seq<Point>, close: (Point, Point) -> bool, edges: seq<Edge>, hes: seq<HalfEdge>, inv: seq<nat>) {
    && hes == KeptHalfedges(vs, close, edges)
    && |inv| == |hes| && AlternatingInversions(inv)
    && IsPairing(hes, inv)
    && EndpointsBelow(hes, |vs|)
  }

  /** `failures` lists, in ascending order, exactly the edges below `e` with an unresolved endpoint. */
  ghost predicate Failures(vs: seq<Point>, close: (Point, Point) -> bool, edges: seq<Edge>, e: nat, failures: seq<nat>)
    requires e <= |edges|
  {
    && (forall k :: 0 <= k < e ==>
          (k in failures <==> Endpoint(vs, close, edges[k].from).None? || Endpoint(vs, close, edges[k].to).None?))
    && (forall i, j :: 0 <= i < j < |failures| ==> failures[i] < failures[j])
    && (forall i :: 0 <= i < |failures| ==> failures[i] < e)
  }

  /** One more edge through `AddEdge` keeps `Built`. */
  lemma BuiltStep(vs: seq<Point>, close: (Point, Point) -> bool, edges: seq<Edge>, e: nat, hes: seq<HalfEdge>, inv: seq<nat>)
    requires e < |edges| && Built(vs, close, edges[..e], hes, inv)
    ensures var step := AddEdge(vs, close, hes, inv, edges[e]);
            Built(vs, close, edges[..e + 1], step.halfedges, step.inversions)
  {
    assert edges[..e + 1][..e] == edges[..e];
  }

  /** One more edge, recorded when it failed, keeps `Failures`. */
  lemma FailuresStep(vs: seq<Point>, close: (Point, Point) -> bool, edges: seq<Edge>, e: nat, failures: seq<nat>, failed: bool)
    requires e < |edges| && Failures(vs, close, edges, e, failures)
    requires failed <==> Endpoint(vs, close, edges[e].from).None? || Endpoint(vs, close, edges[e].to).None?
    ensures Failures(vs, close, edges, e + 1, if failed then failures + [e] else failures)
  {
  }

  /** The inversion list the loop builds is a fixed-point-free involution. */
  lemma AlternatingIsInvolution(inv: seq<nat>)
    requires AlternatingInversions(inv)
    ensures forall h :: 0 <= h < |inv| ==> inv[h] < |inv| && inv[inv[h]] == h && inv[h] != h
  {
  }
}
