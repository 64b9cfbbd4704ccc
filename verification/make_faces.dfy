/**
 * The rotation system and the face tracer: adjacency by tail vertex, the cyclic successor of
 * every half-edge around its tail (from a given angular order), the face walk under
 * `h -> rotations[inversions[h]]` with per-walk cell bookkeeping, and the triviality verdict.
 */
module MakeFaces {
  import opened Wrappers
  import opened Cells
  import opened PeriodicGraph

  /** Every half-edge leaves one of `n` vertices. */
  predicate TailsBelow(hes: seq<HalfEdge>, n: nat) {
    forall h :: 0 <= h < |hes| ==> hes[h].tail < n
  }

  /** The adjacency loop: each half-edge index, in order, is appended to the list of its tail. */
  method BuildAdjacency(numVertices: nat, hes: seq<HalfEdge>) returns (adj: seq<seq<nat>>)
    requires TailsBelow(hes, numVertices)
    ensures |adj| == numVertices
    ensures forall v :: 0 <= v < numVertices ==> adj[v] == TailIndices(hes, v)
    ensures forall v, i :: 0 <= v < numVertices && 0 <= i < |adj[v]| ==> adj[v][i] < |hes| && hes[adj[v][i]].tail == v
    ensures forall v, i, j :: 0 <= v < numVertices && 0 <= i < j < |adj[v]| ==> adj[v][i] < adj[v][j]
  {
    adj := seq(numVertices, _ => []);
    var h := 0;
    while h < |hes|
      invariant 0 <= h <= |hes|
      invariant |adj| == numVertices
      invariant forall v :: 0 <= v < numVertices ==> adj[v] == TailIndices(hes[..h], v)
    {
      assert hes[..h + 1][..h] == hes[..h];
      var t := hes[h].tail;
      adj := adj[t := adj[t] + [h]];
      h := h + 1;
    }
    assert hes[..|hes|] == hes;
  }

  // ---------------------------------------------------------------------------------------
  // Rotation system
  // ---------------------------------------------------------------------------------------

  /**
   * `order` is a permutation of `0..k-1`, as sorting the positions `0..k-1` by any key returns;
   * that every position occurs is spelled out, as the proofs use it directly.
   */
  predicate IsOrderOf(order: seq<nat>, k: nat) {
    && |order| == k
    && IsPermutation(order)
    && forall p :: 0 <= p < k ==> p in order
  }

  /**
   * `orders[v]` is the angular order of the half-edges leaving `v`, as positions in
   * `adj[v]`; the angle key itself is floating-point and is not modelled.
   */
  predicate ValidOrders(hes: seq<HalfEdge>, orders: seq<seq<nat>>) {
    && TailsBelow(hes, |orders|)
    && forall v :: 0 <= v < |orders| ==> IsOrderOf(orders[v], |TailIndices(hes, v)|)
  }

  /** The number of half-edges leaving `v`. */
  function Degree(hes: seq<HalfEdge>, v: nat): nat {
    |TailIndices(hes, v)|
  }

  /** The half-edge at position `i` of the angular order around `v`: `halfedge_indices[order[i]]`. */
  function Around(hes: seq<HalfEdge>, orders: seq<seq<nat>>, v: nat, i: nat): (r: nat)
    requires ValidOrders(hes, orders) && v < |orders| && i < Degree(hes, v)
    ensures r < |hes| && hes[r].tail == v
  {
    TailIndices(hes, v)[orders[v][i]]
  }

  /** Distinct positions of the angular order name distinct half-edges. */
  lemma AroundInjective(hes: seq<HalfEdge>, orders: seq<seq<nat>>, v: nat, i: nat, j: nat)
    requires ValidOrders(hes, orders) && v < |orders| && i < Degree(hes, v) && j < Degree(hes, v)
    ensures Around(hes, orders, v, i) == Around(hes, orders, v, j) ==> i == j
  {
    var around := TailIndices(hes, v);
    var order := orders[v];
    assert IsOrderOf(order, |around|);
    if i != j {
      assert order[i] != order[j];
      assert around[order[i]] != around[order[j]];
    }
  }

  /** The position of half-edge `h` in the angular order around its tail. */
  function OrderPosition(hes: seq<HalfEdge>, orders: seq<seq<nat>>, h: nat): (i: nat)
    requires ValidOrders(hes, orders) && h < |hes|
    ensures hes[h].tail < |orders| && i < Degree(hes, hes[h].tail)
    ensures Around(hes, orders, hes[h].tail, i) == h
  {
    var v := hes[h].tail;
    var around := TailIndices(hes, v);
    TailIndicesComplete(hes, v, h);
    var p := IndexOf(around, h);
    assert IsOrderOf(orders[v], |around|);
    assert p in orders[v];
    IndexOf(orders[v], p)
  }

  /** Position `i` of the angular order around `v` is the order position of the half-edge there. */
  lemma OrderPositionOf(hes: seq<HalfEdge>, orders: seq<seq<nat>>, v: nat, i: nat)
    requires ValidOrders(hes, orders) && v < |orders| && i < Degree(hes, v)
    ensures OrderPosition(hes, orders, Around(hes, orders, v, i)) == i
  {
    var h := Around(hes, orders, v, i);
    AroundInjective(hes, orders, v, OrderPosition(hes, orders, h), i);
  }

  /** The cyclic successor `(i + 1) % k` of a position `i < k`. */
  function NextPosition(i: nat, k: nat): (r: nat)
    requires i < k
    ensures r < k
  {
    if i + 1 < k then i + 1 else 0
  }

  /** `NextPosition` is the `(i + 1) % len(order)` of MakeFaces.py. */
  lemma NextModulo(i: nat, k: nat)
    requires i < k
    ensures NextPosition(i, k) == (i + 1) % k
  {
  }

  /**
   * The rotation successor of `h`: the half-edge after `h` in the cyclic angular order
   * around its tail vertex.
   */
  function RotationSuccessor(hes: seq<HalfEdge>, orders: seq<seq<nat>>, h: nat): (r: nat)
    requires ValidOrders(hes, orders) && h < |hes|
    ensures r < |hes| && hes[r].tail == hes[h].tail
  {
    var v := hes[h].tail;
    Around(hes, orders, v, NextPosition(OrderPosition(hes, orders, h), Degree(hes, v)))
  }

  /** The rotation system: one successor for every half-edge. */
  function Rotations(hes: seq<HalfEdge>, orders: seq<seq<nat>>): (r: seq<nat>)
    requires ValidOrders(hes, orders)
    ensures |r| == |hes| && IndicesBelow(r, |hes|)
    ensures forall h :: 0 <= h < |hes| ==> hes[r[h]].tail == hes[h].tail
  {
    seq(|hes|, h requires 0 <= h < |hes| => RotationSuccessor(hes, orders, h))
  }

  /** One rotation step moves one position along the angular order. */
  lemma RotationStep(hes: seq<HalfEdge>, orders: seq<seq<nat>>, v: nat, i: nat)
    requires ValidOrders(hes, orders) && v < |orders| && i < Degree(hes, v)
    ensures Rotations(hes, orders)[Around(hes, orders, v, i)] == Around(hes, orders, v, NextPosition(i, Degree(hes, v)))
  {
    OrderPositionOf(hes, orders, v, i);
  }

  /**
   * The loop's assignment holds of `Rotations`: the half-edge at position `i` of the order
   * around `v` is followed by the one at position `(i + 1) % k`, for every vertex and position.
   */
  lemma RotationFollowsOrder(hes: seq<HalfEdge>, orders: seq<seq<nat>>, v: nat, i: nat)
    requires ValidOrders(hes, orders) && v < |orders| && i < Degree(hes, v)
    ensures var around := TailIndices(hes, v);
            var k := |around|;
            Rotations(hes, orders)[around[orders[v][i]]] == around[orders[v][(i + 1) % k]]
  {
    RotationStep(hes, orders, v, i);
    NextModulo(i, Degree(hes, v));
  }

  /** The rotation successor is a permutation of the half-edge indices. */
  lemma RotationsArePermutation(hes: seq<HalfEdge>, orders: seq<seq<nat>>)
    requires ValidOrders(hes, orders)
    ensures IsPermutation(Rotations(hes, orders))
  {
    var rot := Rotations(hes, orders);
    forall g, h | 0 <= g < |rot| && 0 <= h < |rot| && g != h
      ensures rot[g] != rot[h]
    {
      RotationsInjectiveAt(hes, orders, g, h);
    }
  }

  /** Two different half-edges have different rotation successors. */
  lemma RotationsInjectiveAt(hes: seq<HalfEdge>, orders: seq<seq<nat>>, g: nat, h: nat)
    requires ValidOrders(hes, orders) && g < |hes| && h < |hes| && g != h
    ensures Rotations(hes, orders)[g] != Rotations(hes, orders)[h]
  {
    var rot := Rotations(hes, orders);
    if hes[g].tail == hes[h].tail {
      var v := hes[g].tail;
      var k := Degree(hes, v);
      var ig := OrderPosition(hes, orders, g);
      var ih := OrderPosition(hes, orders, h);
      assert rot[g] == Around(hes, orders, v, NextPosition(ig, k));
      assert rot[h] == Around(hes, orders, v, NextPosition(ih, k));
      AroundInjective(hes, orders, v, NextPosition(ig, k), NextPosition(ih, k));
    }
  }

  /** `n` applications of the map `s` to `x`. */
  function Iterate(s: seq<nat>, x: nat, n: nat): (r: nat)
    requires IndicesBelow(s, |s|) && x < |s|
    ensures r < |s|
  {
    if n == 0 then x else s[Iterate(s, x, n - 1)]
  }

  /** `y` is among the first `n` points `x, s[x], s[s[x]], ...` of the orbit of `x` under `s`. */
  ghost predicate Reaches(s: seq<nat>, x: nat, y: nat, n: nat)
    requires IndicesBelow(s, |s|) && x < |s|
  {
    exists j: nat :: j < n && Iterate(s, x, j) == y
  }

  /** Position `i + j` on a cycle of length `k`, for `i < k` and `j <= k`. */
  function CyclePosition(i: nat, j: nat, k: nat): (r: nat)
    requires i < k && j <= k
    ensures r < k && (r == i <==> j == 0 || j == k)
  {
    if i + j < k then i + j else i + j - k
  }

  /** `s` maps every entry of `c` to the next one, cyclically. */
  predicate CyclesThrough(s: seq<nat>, c: seq<nat>)
    requires IndicesBelow(c, |s|)
  {
    forall p :: 0 <= p < |c| ==> s[c[p]] == c[NextPosition(p, |c|)]
  }

  /** Following a map that cycles through `c` for `j <= |c|` steps from `c[i]` lands at `c[i + j]`, cyclically. */
  lemma {:induction false} IterateAlongCycle(s: seq<nat>, c: seq<nat>, i: nat, j: nat)
    requires IndicesBelow(s, |s|) && IndicesBelow(c, |s|) && CyclesThrough(s, c)
    requires i < |c| && j <= |c|
    ensures Iterate(s, c[i], j) == c[CyclePosition(i, j, |c|)]
  {
    if j > 0 {
      IterateAlongCycle(s, c, i, j - 1);
      var m := CyclePosition(i, j - 1, |c|);
      assert s[c[m]] == c[NextPosition(m, |c|)];
    }
  }

  /**
   * A map that cycles through distinct entries `c` has, from each of them, an orbit of exactly `|c|`
   * steps that meets every entry of `c`.
   */
  lemma {:induction false} CycleOrbit(s: seq<nat>, c: seq<nat>, i: nat)
    requires IndicesBelow(s, |s|) && IndicesBelow(c, |s|) && Distinct(c) && CyclesThrough(s, c)
    requires i < |c|
    ensures Iterate(s, c[i], |c|) == c[i]
    ensures forall j :: 0 < j < |c| ==> Iterate(s, c[i], j) != c[i]
    ensures forall p :: 0 <= p < |c| ==> Reaches(s, c[i], c[p], |c|)
  {
    var k := |c|;
    IterateAlongCycle(s, c, i, k);
    forall j | 0 < j < k
      ensures Iterate(s, c[i], j) != c[i]
    {
      IterateAlongCycle(s, c, i, j);
      assert CyclePosition(i, j, k) != i;
    }
    forall p | 0 <= p < k
      ensures Reaches(s, c[i], c[p], k)
    {
      CycleReaches(s, c, i, p);
    }
  }

  /** From `c[i]`, the entry `c[p]` is reached after fewer than `|c|` steps. */
  lemma CycleReaches(s: seq<nat>, c: seq<nat>, i: nat, p: nat)
    requires IndicesBelow(s, |s|) && IndicesBelow(c, |s|) && CyclesThrough(s, c)
    requires i < |c| && p < |c|
    ensures Reaches(s, c[i], c[p], |c|)
  {
    var k := |c|;
    var j: nat := if i <= p then p - i else p + k - i;
    IterateAlongCycle(s, c, i, j);
    assert CyclePosition(i, j, k) == p;
  }

  /** The half-edges leaving `v` in angular order. */
  function AngularCycle(hes: seq<HalfEdge>, orders: seq<seq<nat>>, v: nat): (c: seq<nat>)
    requires ValidOrders(hes, orders) && v < |orders|
    ensures |c| == Degree(hes, v) && IndicesBelow(c, |hes|) && Distinct(c)
    ensures forall p :: 0 <= p < |c| ==> c[p] == Around(hes, orders, v, p)
  {
    var c := seq(Degree(hes, v), p requires 0 <= p < Degree(hes, v) => Around(hes, orders, v, p));
    forall p, q | 0 <= p < |c| && 0 <= q < |c| && p != q
      ensures c[p] != c[q]
    {
      AroundInjective(hes, orders, v, p, q);
    }
    c
  }

  /** The rotation cycles through the half-edges leaving `v` in angular order. */
  lemma RotationCyclesAround(hes: seq<HalfEdge>, orders: seq<seq<nat>>, v: nat)
    requires ValidOrders(hes, orders) && v < |orders|
    ensures CyclesThrough(Rotations(hes, orders), AngularCycle(hes, orders, v))
  {
    var c := AngularCycle(hes, orders, v);
    forall p | 0 <= p < |c|
      ensures Rotations(hes, orders)[c[p]] == c[NextPosition(p, |c|)]
    {
      RotationStep(hes, orders, v, p);
    }
  }

  /**
   * Around every vertex the rotation is a single cycle through all `deg(v)` half-edges
   * leaving it: `deg(v)` steps return to `h`, fewer do not, and every half-edge with the
   * same tail is reached within `deg(v)` steps.
   */
  lemma RotationSingleCycle(hes: seq<HalfEdge>, orders: seq<seq<nat>>, h: nat)
    requires ValidOrders(hes, orders) && h < |hes|
    ensures var k := Degree(hes, hes[h].tail);
            var rot := Rotations(hes, orders);
            && Iterate(rot, h, k) == h
            && (forall j :: 0 < j < k ==> Iterate(rot, h, j) != h)
            && (forall g :: 0 <= g < |hes| && hes[g].tail == hes[h].tail ==> Reaches(rot, h, g, k))
  {
    var v := hes[h].tail;
    var rot := Rotations(hes, orders);
    var c := AngularCycle(hes, orders, v);
    var i := OrderPosition(hes, orders, h);
    RotationCyclesAround(hes, orders, v);
    CycleOrbit(rot, c, i);
    assert c[i] == h;
    forall g | 0 <= g < |hes| && hes[g].tail == v
      ensures Reaches(rot, h, g, |c|)
    {
      var p := OrderPosition(hes, orders, g);
      assert c[p] == g;
    }
  }

  /** Building the rotation system aborts at the first vertex with no half-edge (`neighbors[0]` raises). */
  datatype RotationError = IsolatedVertex(vertex: nat)

  /**
   * The rotation loop: for every vertex in turn, every half-edge of its angular order gets
   * the next one (cyclically) as its successor.
   */
  method BuildRotations(hes: seq<HalfEdge>, orders: seq<seq<nat>>) returns (r: Result<seq<nat>, RotationError>)
    requires ValidOrders(hes, orders)
    ensures r.Failure? <==> exists v :: 0 <= v < |orders| && Degree(hes, v) == 0
    ensures r.Failure? ==> && r.error.vertex < |orders| && Degree(hes, r.error.vertex) == 0
                           && forall w :: 0 <= w < r.error.vertex ==> Degree(hes, w) > 0
    ensures r.Success? ==> r.value == Rotations(hes, orders) && IsPermutation(r.value)
  {
    var adj := BuildAdjacency(|orders|, hes);
    var rot, isolated := RotateAll(hes, orders, adj);
    if isolated.Some? {
      return Failure(IsolatedVertex(isolated.value));
    }
    var value := seq(|hes|, h requires 0 <= h < |hes| => rot[h].value);
    ghost var expected := Rotations(hes, orders);
    assert value == expected by {
      forall h | 0 <= h < |hes|
        ensures value[h] == expected[h]
      {
        assert hes[h].tail < |orders|;
      }
    }
    RotationsArePermutation(hes, orders);
    return Success(value);
  }

  /**
   * The loop over the vertices; `isolated` is the first vertex with no half-edge, where
   * MakeFaces.py raises and the loop stops.
   */
  method RotateAll(hes: seq<HalfEdge>, orders: seq<seq<nat>>, adj: seq<seq<nat>>)
    returns (rot: seq<Option<nat>>, isolated: Option<nat>)
    requires ValidOrders(hes, orders) && |adj| == |orders|
    requires forall v :: 0 <= v < |orders| ==> adj[v] == TailIndices(hes, v)
    ensures isolated.Some? ==> && isolated.value < |orders| && Degree(hes, isolated.value) == 0
                               && forall w :: 0 <= w < isolated.value ==> Degree(hes, w) > 0
    ensures isolated.None? ==> && (forall w :: 0 <= w < |orders| ==> Degree(hes, w) > 0)
                               && FilledBelow(hes, Rotations(hes, orders), rot, |orders|)
  {
    rot := seq(|hes|, _ => None);
    ghost var expected := Rotations(hes, orders);
    var v := 0;
    while v < |orders|
      invariant 0 <= v <= |orders|
      invariant forall w :: 0 <= w < v ==> |adj[w]| > 0
      invariant FilledBelow(hes, expected, rot, v)
    {
      var around := adj[v];
      if |around| == 0 {
        DegreesFromAdjacency(hes, adj, v);
        return rot, Some(v);
      }
      assert forall w :: 0 <= w < v + 1 ==> |adj[w]| > 0;
      rot := RotateVertex(hes, orders, v, around, rot, expected);
      v := v + 1;
    }
    DegreesFromAdjacency(hes, adj, v);
    return rot, None;
  }

  /** The adjacency lists give the degrees: nonempty lists below `v` are positive degrees. */
  lemma DegreesFromAdjacency(hes: seq<HalfEdge>, adj: seq<seq<nat>>, v: nat)
    requires forall w :: 0 <= w < |adj| ==> adj[w] == TailIndices(hes, w)
    requires v <= |adj| && forall w :: 0 <= w < v ==> |adj[w]| > 0
    ensures forall w :: 0 <= w < v ==> Degree(hes, w) > 0
    ensures v < |adj| ==> Degree(hes, v) == |adj[v]|
  {
  }

  /** `rot` holds the successor `expected[h]` of exactly the half-edges leaving vertices below `v`. */
  ghost predicate FilledBelow(hes: seq<HalfEdge>, expected: seq<nat>, rot: seq<Option<nat>>, v: nat) {
    && |expected| == |hes| && |rot| == |hes|
    && forall h {:trigger rot[h]} :: 0 <= h < |hes| ==> rot[h] == if hes[h].tail < v then Some(expected[h]) else None
  }

  /** `after` is `before` with the successor `expected[h]` filled in for every half-edge leaving `v`. */
  ghost predicate FilledVertex(hes: seq<HalfEdge>, expected: seq<nat>, before: seq<Option<nat>>, after: seq<Option<nat>>, v: nat) {
    && |expected| == |hes| && |before| == |hes| && |after| == |hes|
    && forall h {:trigger after[h]} :: 0 <= h < |hes| ==> after[h] == if hes[h].tail == v then Some(expected[h]) else before[h]
  }

  /** Filling in the half-edges leaving `v` extends `FilledBelow` from `v` to `v + 1`. */
  lemma FilledNext(hes: seq<HalfEdge>, expected: seq<nat>, before: seq<Option<nat>>, after: seq<Option<nat>>, v: nat)
    requires FilledBelow(hes, expected, before, v) && FilledVertex(hes, expected, before, after, v)
    ensures FilledBelow(hes, expected, after, v + 1)
  {
  }

  /** The inner rotation loop for vertex `v`: fills in the successor of every half-edge leaving `v`. */
  method RotateVertex(hes: seq<HalfEdge>, orders: seq<seq<nat>>, v: nat, around: seq<nat>, rot: seq<Option<nat>>,
                      ghost expected: seq<nat>)
    returns (rot': seq<Option<nat>>)
    requires ValidOrders(hes, orders) && v < |orders| && around == TailIndices(hes, v) && |rot| == |hes|
    requires expected == Rotations(hes, orders) && FilledBelow(hes, expected, rot, v)
    ensures FilledVertex(hes, expected, rot, rot', v)
    ensures FilledBelow(hes, expected, rot', v + 1)
  {
    var order := orders[v];
    assert IsOrderOf(order, |around|);
    rot' := rot;
    var i := 0;
    while i < |order|
      invariant 0 <= i <= |order|
      invariant FilledAround(hes, orders, expected, rot, rot', v, i)
    {
      var h := around[order[i]];
      var next := around[order[(i + 1) % |order|]];
      assert h == Around(hes, orders, v, i);
      FilledAroundNext(hes, orders, expected, rot, rot', v, i, next);
      rot' := rot'[h := Some(next)];
      i := i + 1;
    }
    FilledNext(hes, expected, rot, rot', v);
  }

  /** The inner loop's state: the successors of the first `i` half-edges around `v` are filled in. */
  ghost predicate FilledAround(hes: seq<HalfEdge>, orders: seq<seq<nat>>, expected: seq<nat>,
                               rot: seq<Option<nat>>, rot': seq<Option<nat>>, v: nat, i: nat)
    requires ValidOrders(hes, orders) && |expected| == |hes|
  {
    && |rot| == |hes| && |rot'| == |hes|
    && forall h {:trigger rot'[h]} :: 0 <= h < |hes| ==>
         rot'[h] == if hes[h].tail == v && OrderPosition(hes, orders, h) < i then Some(expected[h]) else rot[h]
  }

  /** Filling in the `i`-th half-edge around `v` with the next one in the order advances `FilledAround`. */
  lemma FilledAroundNext(hes: seq<HalfEdge>, orders: seq<seq<nat>>, expected: seq<nat>,
                         rot: seq<Option<nat>>, rot': seq<Option<nat>>, v: nat, i: nat, next: nat)
    requires ValidOrders(hes, orders) && expected == Rotations(hes, orders)
    requires v < |orders| && i < Degree(hes, v) && FilledAround(hes, orders, expected, rot, rot', v, i)
    requires next == TailIndices(hes, v)[orders[v][(i + 1) % Degree(hes, v)]]
    ensures FilledAround(hes, orders, expected, rot, rot'[Around(hes, orders, v, i) := Some(next)], v, i + 1)
  {
    RotationFollowsOrder(hes, orders, v, i);
    OrderPositionOf(hes, orders, v, i);
  }

  // ---------------------------------------------------------------------------------------
  // Face tracer
  // ---------------------------------------------------------------------------------------

  /** The inputs of the face tracer: inversions and rotations are permutations of the half-edges. */
  predicate FaceInputs(hes: seq<HalfEdge>, inv: seq<nat>, rot: seq<nat>) {
    |inv| == |hes| && |rot| == |hes| && IsPermutation(inv) && IsPermutation(rot)
  }

  /** The face successor `rotations[inversions[h]]`. */
  function FaceSuccessor(inv: seq<nat>, rot: seq<nat>, h: nat): nat
    requires |rot| == |inv| && IndicesBelow(inv, |rot|) && h < |inv|
  {
    rot[inv[h]]
  }

  /** `f` is the whole orbit of `f[0]` under the face successor, in walk order and without repeats. */
  predicate IsOrbitWalk(inv: seq<nat>, rot: seq<nat>, f: seq<nat>)
    requires |rot| == |inv| && IndicesBelow(inv, |rot|)
  {
    && |f| >= 1 && IndicesBelow(f, |inv|) && Distinct(f)
    && (forall k :: 0 <= k < |f| - 1 ==> f[k + 1] == FaceSuccessor(inv, rot, f[k]))
    && FaceSuccessor(inv, rot, f[|f| - 1]) == f[0]
  }

  /**
   * Along a face, each half-edge starts where the previous one ends: the face successor of `h`
   * leaves the head of `h`, because the inversion reverses `h` and the rotation keeps the tail.
   */
  lemma OrbitWalkJoins(hes: seq<HalfEdge>, inv: seq<nat>, rot: seq<nat>, f: seq<nat>)
    requires IsPairing(hes, inv) && |rot| == |hes| && IndicesBelow(rot, |hes|)
    requires forall h :: 0 <= h < |hes| ==> hes[rot[h]].tail == hes[h].tail
    requires IsOrbitWalk(inv, rot, f)
    ensures forall k :: 0 <= k < |f| ==> hes[f[NextPosition(k, |f|)]].tail == hes[f[k]].head
  {
    forall k | 0 <= k < |f|
      ensures hes[f[NextPosition(k, |f|)]].tail == hes[f[k]].head
    {
      var h := f[k];
      assert f[NextPosition(k, |f|)] == FaceSuccessor(inv, rot, h);
      assert hes[inv[h]] == Reverse(hes[h]);
    }
  }

  /** A face successor that does not close the walk is not already on it. */
  lemma SuccessorLeavesWalk(hes: seq<HalfEdge>, inv: seq<nat>, rot: seq<nat>, f: seq<nat>)
    requires FaceInputs(hes, inv, rot)
    requires |f| >= 1 && IndicesBelow(f, |hes|) && Distinct(f)
    requires forall k :: 0 <= k < |f| - 1 ==> f[k + 1] == FaceSuccessor(inv, rot, f[k])
    requires FaceSuccessor(inv, rot, f[|f| - 1]) != f[0]
    ensures FaceSuccessor(inv, rot, f[|f| - 1]) !in f
  {
    var last := |f| - 1;
    var next := FaceSuccessor(inv, rot, f[last]);
    forall j | 1 <= j < |f|
      ensures f[j] != next
    {
      assert f[j - 1] != f[last];
      assert inv[f[j - 1]] != inv[f[last]];
    }
  }

  /** The marking rule on the first `n` half-edges of walk `f`: visited, or reached with zero offset. */
  ghost predicate MarkedUpTo(hes: seq<HalfEdge>, before: seq<bool>, after: seq<bool>, f: seq<nat>, n: nat)
    requires n <= |f| && IndicesBelow(f, |hes|) && |before| == |hes| && |after| == |hes|
  {
    forall k :: 0 <= k < n ==> after[f[k]] == (before[f[k]] || IsZero(CellSum(hes, f[..k])))
  }

  /** Half-edges outside `s` keep their mark. */
  ghost predicate UnchangedOutside(before: seq<bool>, after: seq<bool>, s: seq<nat>)
    requires |before| == |after|
  {
    forall g :: 0 <= g < |before| && g !in s ==> after[g] == before[g]
  }

  /** Marking the last half-edge of the walk (when the offset before it is zero) extends the rule to the whole walk. */
  lemma MarkLast(hes: seq<HalfEdge>, before: seq<bool>, unmarked: seq<bool>, after: seq<bool>, f: seq<nat>)
    requires |f| >= 1 && IndicesBelow(f, |hes|) && Distinct(f)
    requires |before| == |hes| && |unmarked| == |hes| && |after| == |hes|
    requires MarkedUpTo(hes, before, unmarked, f, |f| - 1)
    requires UnchangedOutside(before, unmarked, f[..|f| - 1])
    requires after == if IsZero(CellSum(hes, f[..|f| - 1])) then unmarked[f[|f| - 1] := true] else unmarked
    ensures MarkedUpTo(hes, before, after, f, |f|)
    ensures UnchangedOutside(before, after, f)
  {
    var h := f[|f| - 1];
    assert h !in f[..|f| - 1];
    MarkLastRule(hes, before, unmarked, after, f);
    MarkLastOutside(before, unmarked, after, f);
  }

  /** The rule half of `MarkLast`: the earlier half-edges keep their marks, and the last one follows its offset. */
  lemma MarkLastRule(hes: seq<HalfEdge>, before: seq<bool>, unmarked: seq<bool>, after: seq<bool>, f: seq<nat>)
    requires |f| >= 1 && IndicesBelow(f, |hes|) && f[|f| - 1] !in f[..|f| - 1]
    requires |before| == |hes| && |unmarked| == |hes| && |after| == |hes|
    requires MarkedUpTo(hes, before, unmarked, f, |f| - 1)
    requires UnchangedOutside(before, unmarked, f[..|f| - 1])
    requires after[f[|f| - 1]] == (unmarked[f[|f| - 1]] || IsZero(CellSum(hes, f[..|f| - 1])))
    requires forall g :: 0 <= g < |after| && g != f[|f| - 1] ==> after[g] == unmarked[g]
    ensures MarkedUpTo(hes, before, after, f, |f|)
  {
    var n := |f| - 1;
    assert unmarked[f[n]] == before[f[n]];
    forall k | 0 <= k < n
      ensures after[f[k]] == unmarked[f[k]]
    {
      assert f[k] in f[..n];
    }
  }

  /** The frame half of `MarkLast`: half-edges off the walk keep their mark. */
  lemma MarkLastOutside(before: seq<bool>, unmarked: seq<bool>, after: seq<bool>, f: seq<nat>)
    requires |f| >= 1 && |unmarked| == |before| && |after| == |before|
    requires UnchangedOutside(before, unmarked, f[..|f| - 1])
    requires forall g :: 0 <= g < |before| && g != f[|f| - 1] ==> after[g] == unmarked[g]
    ensures UnchangedOutside(before, after, f)
  {
    forall g | 0 <= g < |before| && g !in f
      ensures after[g] == before[g]
    {
      assert g !in f[..|f| - 1] && g != f[|f| - 1];
    }
  }

  /** The marking rule on a walk survives appending a half-edge to the walk. */
  lemma MarkedExtend(hes: seq<HalfEdge>, before: seq<bool>, after: seq<bool>, f: seq<nat>, next: nat)
    requires IndicesBelow(f, |hes|) && next < |hes| && |before| == |hes| && |after| == |hes|
    requires MarkedUpTo(hes, before, after, f, |f|)
    requires UnchangedOutside(before, after, f)
    ensures IndicesBelow(f + [next], |hes|)
    ensures MarkedUpTo(hes, before, after, f + [next], |f|)
    ensures UnchangedOutside(before, after, (f + [next])[..|f|])
  {
    var f' := f + [next];
    assert f'[..|f|] == f;
    forall k | 0 <= k < |f|
      ensures after[f'[k]] == (before[f'[k]] || IsZero(CellSum(hes, f'[..k])))
    {
      assert f'[k] == f[k] && f'[..k] == f[..k];
    }
  }

  /** A walk from `start` along face successors that has not yet returned to `start`. */
  predicate WalkShape(hes: seq<HalfEdge>, inv: seq<nat>, rot: seq<nat>, start: nat, f: seq<nat>)
    requires FaceInputs(hes, inv, rot)
  {
    && 1 <= |f| <= |hes| && f[0] == start && IndicesBelow(f, |hes|) && Distinct(f)
    && (forall k :: 0 <= k < |f| - 1 ==> f[k + 1] == FaceSuccessor(inv, rot, f[k]))
  }

  /** The loop state of a face walk from `start`: the walk so far, the offset before its last half-edge, the marks. */
  ghost predicate WalkState(hes: seq<HalfEdge>, inv: seq<nat>, rot: seq<nat>, start: nat, visited: seq<bool>,
                            f: seq<nat>, cell: Cell, marks: seq<bool>)
    requires FaceInputs(hes, inv, rot)
  {
    && WalkShape(hes, inv, rot, start, f)
    && cell == CellSum(hes, f[..|f| - 1])
    && |visited| == |hes| && |marks| == |hes|
    && MarkedUpTo(hes, visited, marks, f, |f| - 1)
    && UnchangedOutside(visited, marks, f[..|f| - 1])
  }

  /** Appending a successor that does not close the walk keeps it a walk. */
  lemma WalkShapeExtends(hes: seq<HalfEdge>, inv: seq<nat>, rot: seq<nat>, start: nat, f: seq<nat>)
    requires FaceInputs(hes, inv, rot) && WalkShape(hes, inv, rot, start, f)
    requires FaceSuccessor(inv, rot, f[|f| - 1]) != f[0]
    ensures WalkShape(hes, inv, rot, start, f + [FaceSuccessor(inv, rot, f[|f| - 1])])
  {
    var next := FaceSuccessor(inv, rot, f[|f| - 1]);
    SuccessorLeavesWalk(hes, inv, rot, f);
    var f' := f + [next];
    assert IndicesBelow(f', |hes|);
    assert Distinct(f') by {
      forall i, j | 0 <= i < |f'| && 0 <= j < |f'| && i != j
        ensures f'[i] != f'[j]
      {
        if i < |f| && j < |f| {
          assert f'[i] == f[i] && f'[j] == f[j];
        }
      }
    }
    DistinctBound(f', |hes|);
  }

  /** Appending the successor extends the offset by the cell of the half-edge it leaves. */
  lemma WalkCellExtends(hes: seq<HalfEdge>, f: seq<nat>, next: nat, cell: Cell)
    requires |f| >= 1 && IndicesBelow(f, |hes|) && next < |hes|
    requires cell == CellSum(hes, f[..|f| - 1])
    ensures Add(cell, hes[f[|f| - 1]].cell) == CellSum(hes, (f + [next])[..|f|])
  {
    CellSumSnoc(hes, f[..|f| - 1], f[|f| - 1]);
    assert f[..|f| - 1] + [f[|f| - 1]] == f == (f + [next])[..|f|];
  }

  /** One more step of the walk: the last half-edge is marked as the rule says and the successor is appended. */
  lemma WalkAdvances(hes: seq<HalfEdge>, inv: seq<nat>, rot: seq<nat>, start: nat, visited: seq<bool>,
                     f: seq<nat>, cell: Cell, unmarked: seq<bool>, marks: seq<bool>)
    requires FaceInputs(hes, inv, rot) && WalkState(hes, inv, rot, start, visited, f, cell, unmarked)
    requires marks == if IsZero(cell) then unmarked[f[|f| - 1] := true] else unmarked
    requires FaceSuccessor(inv, rot, f[|f| - 1]) != f[0]
    ensures |f| + 1 <= |hes|
    ensures WalkState(hes, inv, rot, start, visited, f + [FaceSuccessor(inv, rot, f[|f| - 1])],
                      Add(cell, hes[f[|f| - 1]].cell), marks)
  {
    var next := FaceSuccessor(inv, rot, f[|f| - 1]);
    WalkShapeExtends(hes, inv, rot, start, f);
    WalkCellExtends(hes, f, next, cell);
    MarkLast(hes, visited, unmarked, marks, f);
    MarkedExtend(hes, visited, marks, f, next);
  }

  /** When the successor is the start, the walk is a whole orbit and every half-edge on it is marked by the rule. */
  lemma WalkCloses(hes: seq<HalfEdge>, inv: seq<nat>, rot: seq<nat>, start: nat, visited: seq<bool>,
                   f: seq<nat>, cell: Cell, unmarked: seq<bool>, marks: seq<bool>)
    requires FaceInputs(hes, inv, rot) && WalkState(hes, inv, rot, start, visited, f, cell, unmarked)
    requires marks == if IsZero(cell) then unmarked[f[|f| - 1] := true] else unmarked
    requires FaceSuccessor(inv, rot, f[|f| - 1]) == f[0]
    ensures IsOrbitWalk(inv, rot, f) && f[0] == start
    ensures |marks| == |visited|
    ensures forall k :: 0 <= k < |f| ==> marks[f[k]] == (visited[f[k]] || IsZero(CellSum(hes, f[..k])))
    ensures forall h :: 0 <= h < |hes| && h !in f ==> marks[h] == visited[h]
  {
    MarkLast(hes, visited, unmarked, marks, f);
  }

  /**
   * One face walk from `start`: follows the face successor until it returns to `start`,
   * marking a half-edge visited when the cells of the half-edges before it on this walk
   * sum to zero.
   */
  method WalkFace(hes: seq<HalfEdge>, inv: seq<nat>, rot: seq<nat>, start: nat, visited: seq<bool>)
    returns (f: seq<nat>, visited': seq<bool>)
    requires FaceInputs(hes, inv, rot) && start < |hes| && |visited| == |hes|
    ensures IsOrbitWalk(inv, rot, f) && f[0] == start
    ensures |visited'| == |visited|
    ensures forall k :: 0 <= k < |f| ==> visited'[f[k]] == (visited[f[k]] || IsZero(CellSum(hes, f[..k])))
    ensures forall h :: 0 <= h < |hes| && h !in f ==> visited'[h] == visited[h]
  {
    f := [start];
    var cell := Zero;
    visited' := visited;
    assert f[..0] == [];
    while true
      invariant WalkState(hes, inv, rot, start, visited, f, cell, visited')
      decreases |hes| - |f|
    {
      var h := f[|f| - 1];
      ghost var unmarked := visited';
      if IsZero(cell) {
        visited' := visited'[h := true];
      }
      var next := rot[inv[h]];
      if next == f[0] {
        WalkCloses(hes, inv, rot, start, visited, f, cell, unmarked, visited');
        break;
      }
      WalkAdvances(hes, inv, rot, start, visited, f, cell, unmarked, visited');
      f := f + [next];
      cell := Add(cell, hes[h].cell);
    }
  }

  /** Half-edge `h` occurs on one of the traced faces. */
  ghost predicate InSomeFace(faces: seq<seq<nat>>, h: nat) {
    exists i, k :: 0 <= i < |faces| && 0 <= k < |faces[i]| && faces[i][k] == h
  }

  /** The state of the outer face loop before `start`: whole orbits with ascending starts below `start`. */
  ghost predicate TraceState(hes: seq<HalfEdge>, inv: seq<nat>, rot: seq<nat>, faces: seq<seq<nat>>,
                             visited: seq<bool>, start: nat)
    requires FaceInputs(hes, inv, rot)
  {
    && start <= |hes| && |visited| == |hes|
    && (forall i :: 0 <= i < |faces| ==> IsOrbitWalk(inv, rot, faces[i]) && faces[i][0] < start)
    && (forall i, j :: 0 <= i < j < |faces| ==> |faces[i]| > 0 && |faces[j]| > 0 && faces[i][0] < faces[j][0])
    && (forall h :: 0 <= h < start ==> visited[h])
    && (forall h :: 0 <= h < |hes| && visited[h] ==> InSomeFace(faces, h))
  }

  /** The marking of one walk from `start`, as `WalkFace` promises it. */
  ghost predicate WalkMarks(hes: seq<HalfEdge>, f: seq<nat>, visited: seq<bool>, visited': seq<bool>)
    requires IndicesBelow(f, |hes|) && |visited| == |hes|
  {
    && |visited'| == |visited|
    && (forall k :: 0 <= k < |f| ==> visited'[f[k]] == (visited[f[k]] || IsZero(CellSum(hes, f[..k]))))
    && (forall h :: 0 <= h < |hes| && h !in f ==> visited'[h] == visited[h])
  }

  /** A walk keeps every mark, and marks its own start. */
  lemma WalkMarksMonotone(hes: seq<HalfEdge>, f: seq<nat>, visited: seq<bool>, visited': seq<bool>)
    requires |f| >= 1 && IndicesBelow(f, |hes|) && |visited| == |hes| && WalkMarks(hes, f, visited, visited')
    ensures visited'[f[0]]
    ensures forall h :: 0 <= h < |hes| && visited[h] ==> visited'[h]
  {
    assert f[..0] == [];
    forall h | 0 <= h < |hes| && visited[h]
      ensures visited'[h]
    {
      if h in f {
        var k := IndexOf(f, h);
        assert visited[f[k]];
      }
    }
  }

  /** Every half-edge the walk marks lies on the new face or on an earlier one. */
  lemma WalkCovers(hes: seq<HalfEdge>, faces: seq<seq<nat>>, f: seq<nat>, visited: seq<bool>, visited': seq<bool>)
    requires IndicesBelow(f, |hes|) && |visited| == |hes| && WalkMarks(hes, f, visited, visited')
    requires forall h :: 0 <= h < |hes| && visited[h] ==> InSomeFace(faces, h)
    ensures forall h :: 0 <= h < |hes| && visited'[h] ==> InSomeFace(faces + [f], h)
  {
    var faces' := faces + [f];
    forall h | 0 <= h < |hes| && visited'[h]
      ensures InSomeFace(faces', h)
    {
      if h in f {
        var k := IndexOf(f, h);
        assert faces'[|faces|][k] == h;
      } else {
        var i, k :| 0 <= i < |faces| && 0 <= k < |faces[i]| && faces[i][k] == h;
        assert faces'[i][k] == h;
      }
    }
  }

  /** A walk from an unvisited `start` adds its orbit as a face and marks `start`. */
  lemma TraceWalk(hes: seq<HalfEdge>, inv: seq<nat>, rot: seq<nat>, faces: seq<seq<nat>>,
                  visited: seq<bool>, start: nat, f: seq<nat>, visited': seq<bool>)
    requires FaceInputs(hes, inv, rot) && TraceState(hes, inv, rot, faces, visited, start)
    requires start < |hes| && !visited[start]
    requires IsOrbitWalk(inv, rot, f) && f[0] == start
    requires WalkMarks(hes, f, visited, visited')
    ensures TraceState(hes, inv, rot, faces + [f], visited', start + 1)
  {
    WalkMarksMonotone(hes, f, visited, visited');
    assert forall h :: 0 <= h < start + 1 ==> visited'[h];
    WalkCovers(hes, faces, f, visited, visited');
    FacesExtend(inv, rot, faces, start, f);
  }

  /** Appending an orbit that starts at `start` keeps the faces whole orbits with ascending starts. */
  lemma FacesExtend(inv: seq<nat>, rot: seq<nat>, faces: seq<seq<nat>>, start: nat, f: seq<nat>)
    requires |rot| == |inv| && IndicesBelow(inv, |rot|)
    requires forall i :: 0 <= i < |faces| ==> IsOrbitWalk(inv, rot, faces[i]) && faces[i][0] < start
    requires forall i, j :: 0 <= i < j < |faces| ==> |faces[i]| > 0 && |faces[j]| > 0 && faces[i][0] < faces[j][0]
    requires IsOrbitWalk(inv, rot, f) && f[0] == start
    ensures forall i :: 0 <= i < |faces + [f]| ==> IsOrbitWalk(inv, rot, (faces + [f])[i]) && (faces + [f])[i][0] < start + 1
    ensures forall i, j :: 0 <= i < j < |faces + [f]| ==>
              |(faces + [f])[i]| > 0 && |(faces + [f])[j]| > 0 && (faces + [f])[i][0] < (faces + [f])[j][0]
  {
    var faces' := faces + [f];
    assert forall i :: 0 <= i < |faces| ==> faces'[i] == faces[i];
    assert faces'[|faces|] == f;
  }

  // ---------------------------------------------------------------------------------------
  // Which half-edges start a face
  // ---------------------------------------------------------------------------------------

  /** Every face lists half-edge indices. */
  ghost predicate FacesBelow(faces: seq<seq<nat>>, n: nat) {
    forall i :: 0 <= i < |faces| ==> IndicesBelow(faces[i], n)
  }

  /** Some face starts at `h`. */
  ghost predicate StartsFace(faces: seq<seq<nat>>, h: nat) {
    exists i :: 0 <= i < |faces| && |faces[i]| > 0 && faces[i][0] == h
  }

  /** Some face reaches `h` with zero accumulated offset. */
  ghost predicate ZeroReached(hes: seq<HalfEdge>, faces: seq<seq<nat>>, h: nat)
    requires FacesBelow(faces, |hes|)
  {
    exists i, k :: 0 <= i < |faces| && 0 <= k < |faces[i]| && faces[i][k] == h && IsZero(CellSum(hes, faces[i][..k]))
  }

  /** A face starting below `h` reaches `h` with zero accumulated offset, so that walk marked `h`. */
  ghost predicate MarkedEarlier(hes: seq<HalfEdge>, faces: seq<seq<nat>>, h: nat)
    requires FacesBelow(faces, |hes|)
  {
    exists i, k :: 0 <= i < |faces| && 0 <= k < |faces[i]| && faces[i][0] < h && faces[i][k] == h
                   && IsZero(CellSum(hes, faces[i][..k]))
  }

  /** Every half-edge a face reaches with zero offset is marked. */
  ghost predicate ZeroMarked(hes: seq<HalfEdge>, faces: seq<seq<nat>>, visited: seq<bool>)
    requires FacesBelow(faces, |hes|) && |visited| == |hes|
  {
    forall i, k :: 0 <= i < |faces| && 0 <= k < |faces[i]| && IsZero(CellSum(hes, faces[i][..k])) ==> visited[faces[i][k]]
  }

  /** No face reaches the start of a later face with zero offset. */
  ghost predicate StartsUnmarked(hes: seq<HalfEdge>, faces: seq<seq<nat>>)
    requires FacesBelow(faces, |hes|)
  {
    forall i', i, k :: 0 <= i' < i < |faces| && 0 <= k < |faces[i']| && |faces[i]| > 0 && faces[i'][k] == faces[i][0]
                       ==> !IsZero(CellSum(hes, faces[i'][..k]))
  }

  /** The marking state of the outer face loop before `start`. */
  ghost predicate MarkState(hes: seq<HalfEdge>, faces: seq<seq<nat>>, visited: seq<bool>, start: nat) {
    && FacesBelow(faces, |hes|) && |visited| == |hes|
    && (forall i :: 0 <= i < |faces| ==> |faces[i]| > 0 && faces[i][0] < start)
    && ZeroMarked(hes, faces, visited)
    && (forall h :: 0 <= h < |hes| && visited[h] ==> ZeroReached(hes, faces, h))
    && (forall h :: 0 <= h < start ==> StartsFace(faces, h) || MarkedEarlier(hes, faces, h))
    && StartsUnmarked(hes, faces)
  }

  /** A walk from an unvisited `start` keeps the marking state, and `start` now starts a face. */
  lemma MarkWalk(hes: seq<HalfEdge>, faces: seq<seq<nat>>, visited: seq<bool>, start: nat, f: seq<nat>, visited': seq<bool>)
    requires MarkState(hes, faces, visited, start) && start < |hes| && !visited[start]
    requires |f| >= 1 && f[0] == start && IndicesBelow(f, |hes|) && WalkMarks(hes, f, visited, visited')
    ensures MarkState(hes, faces + [f], visited', start + 1)
  {
    var faces' := faces + [f];
    assert forall i :: 0 <= i < |faces| ==> faces'[i] == faces[i];
    assert faces'[|faces|] == f;
    WalkMarksMonotone(hes, f, visited, visited');
    MarkWalkZeroMarked(hes, faces, visited, f, visited');
    MarkWalkReached(hes, faces, visited, f, visited');
    MarkWalkStarts(hes, faces, start, f);
    MarkWalkUnmarked(hes, faces, visited, start, f);
  }

  lemma MarkWalkZeroMarked(hes: seq<HalfEdge>, faces: seq<seq<nat>>, visited: seq<bool>, f: seq<nat>, visited': seq<bool>)
    requires FacesBelow(faces, |hes|) && |visited| == |hes| && ZeroMarked(hes, faces, visited)
    requires IndicesBelow(f, |hes|) && WalkMarks(hes, f, visited, visited')
    requires forall h :: 0 <= h < |hes| && visited[h] ==> visited'[h]
    ensures FacesBelow(faces + [f], |hes|) && ZeroMarked(hes, faces + [f], visited')
  {
    var faces' := faces + [f];
    forall i, k | 0 <= i < |faces'| && 0 <= k < |faces'[i]| && IsZero(CellSum(hes, faces'[i][..k]))
      ensures visited'[faces'[i][k]]
    {
      if i < |faces| {
        assert faces'[i] == faces[i];
        assert visited[faces[i][k]];
      } else {
        assert faces'[i] == f;
      }
    }
  }

  lemma MarkWalkReached(hes: seq<HalfEdge>, faces: seq<seq<nat>>, visited: seq<bool>, f: seq<nat>, visited': seq<bool>)
    requires FacesBelow(faces, |hes|) && |visited| == |hes|
    requires forall h :: 0 <= h < |hes| && visited[h] ==> ZeroReached(hes, faces, h)
    requires IndicesBelow(f, |hes|) && WalkMarks(hes, f, visited, visited')
    ensures FacesBelow(faces + [f], |hes|)
    ensures forall h :: 0 <= h < |hes| && visited'[h] ==> ZeroReached(hes, faces + [f], h)
  {
    var faces' := faces + [f];
    forall h | 0 <= h < |hes| && visited'[h]
      ensures ZeroReached(hes, faces', h)
    {
      if h in f && !visited[h] {
        var k := IndexOf(f, h);
        assert faces'[|faces|][k] == h;
      } else {
        assert visited[h];
        var i, k :| 0 <= i < |faces| && 0 <= k < |faces[i]| && faces[i][k] == h && IsZero(CellSum(hes, faces[i][..k]));
        assert faces'[i] == faces[i];
      }
    }
  }

  lemma MarkWalkStarts(hes: seq<HalfEdge>, faces: seq<seq<nat>>, start: nat, f: seq<nat>)
    requires FacesBelow(faces, |hes|) && IndicesBelow(f, |hes|) && |f| >= 1 && f[0] == start
    requires forall h :: 0 <= h < start ==> StartsFace(faces, h) || MarkedEarlier(hes, faces, h)
    ensures FacesBelow(faces + [f], |hes|)
    ensures forall h :: 0 <= h < start + 1 ==> StartsFace(faces + [f], h) || MarkedEarlier(hes, faces + [f], h)
  {
    var faces' := faces + [f];
    assert faces'[|faces|] == f;
    forall h | 0 <= h < start + 1
      ensures StartsFace(faces', h) || MarkedEarlier(hes, faces', h)
    {
      if h < start {
        if StartsFace(faces, h) {
          var i :| 0 <= i < |faces| && |faces[i]| > 0 && faces[i][0] == h;
          assert faces'[i] == faces[i];
        } else {
          var i, k :| 0 <= i < |faces| && 0 <= k < |faces[i]| && faces[i][0] < h && faces[i][k] == h
                      && IsZero(CellSum(hes, faces[i][..k]));
          assert faces'[i] == faces[i];
        }
      }
    }
  }

  lemma MarkWalkUnmarked(hes: seq<HalfEdge>, faces: seq<seq<nat>>, visited: seq<bool>, start: nat, f: seq<nat>)
    requires FacesBelow(faces, |hes|) && |visited| == |hes| && ZeroMarked(hes, faces, visited) && StartsUnmarked(hes, faces)
    requires start < |hes| && !visited[start] && IndicesBelow(f, |hes|) && |f| >= 1 && f[0] == start
    ensures FacesBelow(faces + [f], |hes|) && StartsUnmarked(hes, faces + [f])
  {
    var faces' := faces + [f];
    forall i', i, k | 0 <= i' < i < |faces'| && 0 <= k < |faces'[i']| && |faces'[i]| > 0 && faces'[i'][k] == faces'[i][0]
      ensures !IsZero(CellSum(hes, faces'[i'][..k]))
    {
      assert faces'[i'] == faces[i'];
      if i < |faces| {
        assert faces'[i] == faces[i];
      } else {
        assert faces'[i] == f;
        assert !visited[faces[i'][k]];
      }
    }
  }

  /** Passing over a marked `start` keeps the marking state: an earlier walk marked it. */
  lemma MarkSkip(hes: seq<HalfEdge>, faces: seq<seq<nat>>, visited: seq<bool>, start: nat)
    requires MarkState(hes, faces, visited, start) && start < |hes| && visited[start]
    ensures MarkState(hes, faces, visited, start + 1)
  {
    var i, k :| 0 <= i < |faces| && 0 <= k < |faces[i]| && faces[i][k] == start && IsZero(CellSum(hes, faces[i][..k]));
    assert faces[i][0] < start;
    assert MarkedEarlier(hes, faces, start);
  }

  /** An orbit walk contains the face successor of each of its half-edges. */
  lemma OrbitClosed(inv: seq<nat>, rot: seq<nat>, f: seq<nat>, x: nat)
    requires |rot| == |inv| && IndicesBelow(inv, |rot|) && IsOrbitWalk(inv, rot, f) && x in f
    ensures FaceSuccessor(inv, rot, x) in f
  {
    var k := IndexOf(f, x);
    if k < |f| - 1 {
      assert f[k + 1] == FaceSuccessor(inv, rot, x);
    }
  }

  /** If an orbit walk `g` meets the orbit walk `f` at `g[b]`, then `f` also holds the start of `g`. */
  lemma {:induction false} OrbitMeetsStart(inv: seq<nat>, rot: seq<nat>, f: seq<nat>, g: seq<nat>, b: nat)
    requires |rot| == |inv| && IndicesBelow(inv, |rot|) && IsOrbitWalk(inv, rot, f) && IsOrbitWalk(inv, rot, g)
    requires b < |g| && g[b] in f
    ensures g[0] in f
    decreases |g| - b
  {
    OrbitClosed(inv, rot, f, g[b]);
    if b == |g| - 1 {
      assert FaceSuccessor(inv, rot, g[b]) == g[0];
    } else {
      assert g[b + 1] == FaceSuccessor(inv, rot, g[b]);
      OrbitMeetsStart(inv, rot, f, g, b + 1);
    }
  }

  /**
   * When no half-edge crosses a cell boundary, every walk marks its whole face, so the face
   * loop emits pairwise disjoint faces.
   */
  lemma FacesDisjointWhenCellsZero(hes: seq<HalfEdge>, inv: seq<nat>, rot: seq<nat>, faces: seq<seq<nat>>)
    requires FaceInputs(hes, inv, rot)
    requires forall i :: 0 <= i < |faces| ==> IsOrbitWalk(inv, rot, faces[i])
    requires FacesBelow(faces, |hes|) && StartsUnmarked(hes, faces)
    requires forall h :: 0 <= h < |hes| ==> IsZero(hes[h].cell)
    ensures forall i', i, a, b :: 0 <= i' < i < |faces| && 0 <= a < |faces[i']| && 0 <= b < |faces[i]|
              ==> faces[i'][a] != faces[i][b]
  {
    forall i', i, a, b | 0 <= i' < i < |faces| && 0 <= a < |faces[i']| && 0 <= b < |faces[i]|
      ensures faces[i'][a] != faces[i][b]
    {
      if faces[i'][a] == faces[i][b] {
        OrbitMeetsStart(inv, rot, faces[i'], faces[i], b);
        var k := IndexOf(faces[i'], faces[i][0]);
        CellSumAllZero(hes, faces[i'][..k]);
        assert false;
      }
    }
  }

  /**
   * The outer face loop: a walk starts at every half-edge still unvisited, in index order.
   * Every face is a whole orbit of the face successor, and every half-edge ends up
   * visited and on at least one face.
   */
  method TraceFaces(hes: seq<HalfEdge>, inv: seq<nat>, rot: seq<nat>) returns (faces: seq<seq<nat>>, visited: seq<bool>)
    requires FaceInputs(hes, inv, rot)
    ensures forall i :: 0 <= i < |faces| ==> IsOrbitWalk(inv, rot, faces[i])
    ensures forall i, j :: 0 <= i < j < |faces| ==> |faces[i]| > 0 && |faces[j]| > 0 && faces[i][0] < faces[j][0]
    ensures |visited| == |hes| && forall h :: 0 <= h < |hes| ==> visited[h]
    ensures forall h :: 0 <= h < |hes| ==> InSomeFace(faces, h)
    ensures FacesBelow(faces, |hes|)
    ensures StartsUnmarked(hes, faces)
    ensures forall h :: 0 <= h < |hes| ==> StartsFace(faces, h) || MarkedEarlier(hes, faces, h)
  {
    faces := [];
    visited := seq(|hes|, _ => false);
    var start := 0;
    while start < |hes|
      invariant TraceState(hes, inv, rot, faces, visited, start)
      invariant MarkState(hes, faces, visited, start)
    {
      faces, visited := TraceStep(hes, inv, rot, faces, visited, start);
      start := start + 1;
    }
  }

  /** One pass of the outer face loop: walk from `start` when it is still unvisited. */
  method TraceStep(hes: seq<HalfEdge>, inv: seq<nat>, rot: seq<nat>, faces: seq<seq<nat>>, visited: seq<bool>, start: nat)
    returns (faces': seq<seq<nat>>, visited': seq<bool>)
    requires FaceInputs(hes, inv, rot) && start < |hes|
    requires TraceState(hes, inv, rot, faces, visited, start) && MarkState(hes, faces, visited, start)
    ensures TraceState(hes, inv, rot, faces', visited', start + 1) && MarkState(hes, faces', visited', start + 1)
  {
    if !visited[start] {
      var f, marked := WalkFace(hes, inv, rot, start, visited);
      TraceWalk(hes, inv, rot, faces, visited, start, f, marked);
      MarkWalk(hes, faces, visited, start, f, marked);
      faces', visited' := faces + [f], marked;
    } else {
      MarkSkip(hes, faces, visited, start);
      faces', visited' := faces, visited;
      assert TraceState(hes, inv, rot, faces', visited', start + 1);
    }
  }

  /** `trivial_faces`: true iff every face's cells sum to `[0, 0, 0]`. */
  function TrivialFaces(hes: seq<HalfEdge>, faces: seq<seq<nat>>): (r: bool)
    requires forall i :: 0 <= i < |faces| ==> IndicesBelow(faces[i], |hes|)
    ensures r <==> forall i :: 0 <= i < |faces| ==> IsZero(CellSum(hes, faces[i]))
  {
    if |faces| == 0 then true
    else IsZero(CellSum(hes, faces[0])) && TrivialFaces(hes, faces[1..])
  }
}
