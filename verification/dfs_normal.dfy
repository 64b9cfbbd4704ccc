/**
 * Normal orientation by depth-first sign propagation: starting at vertex 0, every
 * neighbour whose normal points away (non-positive dot product) is negated before it is
 * visited, and a frame that meets such a neighbour already visited gives up on its
 * remaining neighbours. Normals are exact vectors supplied as input (they stand for the
 * SVD fit, which is not modelled).
 */
module DfsNormal {
  import opened Wrappers
  import opened Cells
  import opened PeriodicGraph

  /** A normal vector. */
  datatype Vec3 = Vec3(x: real, y: real, z: real)

  function Dot(a: Vec3, b: Vec3): real {
    a.x * b.x + a.y * b.y + a.z * b.z
  }

  function Negate(a: Vec3): Vec3 {
    Vec3(-a.x, -a.y, -a.z)
  }

  /** Negating one side negates the dot product. */
  lemma DotNegate(a: Vec3, b: Vec3)
    ensures Dot(a, Negate(b)) == -Dot(a, b)
  {
  }

  lemma DotSymmetric(a: Vec3, b: Vec3)
    ensures Dot(a, b) == Dot(b, a)
  {
  }

  /** An entry `(h[1], h[-1])` of the adjacency list: the head vertex and the cell of a half-edge. */
  datatype Neighbour = Neighbour(vertex: nat, cell: Cell)

  /** The `(head, cell)` pairs of the half-edges leaving `v`, in half-edge order. */
  function Neighbours(hes: seq<HalfEdge>, v: nat): seq<Neighbour>
    decreases |hes|
  {
    if |hes| == 0 then []
    else
      var n := |hes| - 1;
      Neighbours(hes[..n], v) + (if hes[n].tail == v then [Neighbour(hes[n].head, hes[n].cell)] else [])
  }

  /** `Neighbours` lists, position by position, the head and cell of the half-edges `TailIndices` lists. */
  lemma {:induction false} NeighboursFollowTails(hes: seq<HalfEdge>, v: nat)
    ensures |Neighbours(hes, v)| == |TailIndices(hes, v)|
    ensures forall i :: 0 <= i < |Neighbours(hes, v)| ==>
              var h := TailIndices(hes, v)[i];
              Neighbours(hes, v)[i] == Neighbour(hes[h].head, hes[h].cell)
    decreases |hes|
  {
    if |hes| > 0 {
      var n := |hes| - 1;
      NeighboursFollowTails(hes[..n], v);
      forall i | 0 <= i < |TailIndices(hes[..n], v)|
        ensures hes[..n][TailIndices(hes[..n], v)[i]] == hes[TailIndices(hes[..n], v)[i]]
      {
      }
    }
  }

  /** The adjacency of a graph on `|adj|` vertices: every neighbour is a vertex. */
  predicate ValidGraph(adj: seq<seq<Neighbour>>) {
    forall v, j :: 0 <= v < |adj| && 0 <= j < |adj[v]| ==> adj[v][j].vertex < |adj|
  }

  /** The adjacency loop: each half-edge, in order, appends its head and cell to the list of its tail. */
  method BuildNeighbours(numVertices: nat, hes: seq<HalfEdge>) returns (adj: seq<seq<Neighbour>>)
    requires EndpointsBelow(hes, numVertices)
    ensures |adj| == numVertices
    ensures forall v :: 0 <= v < numVertices ==> adj[v] == Neighbours(hes, v)
    ensures ValidGraph(adj)
  {
    adj := seq(numVertices, _ => []);
    var h := 0;
    while h < |hes|
      invariant 0 <= h <= |hes|
      invariant |adj| == numVertices
      invariant forall v :: 0 <= v < numVertices ==> adj[v] == Neighbours(hes[..h], v)
      invariant ValidGraph(adj)
    {
      assert hes[..h + 1][..h] == hes[..h];
      var t := hes[h].tail;
      adj := adj[t := adj[t] + [Neighbour(hes[h].head, hes[h].cell)]];
      h := h + 1;
    }
    assert hes[..|hes|] == hes;
  }

  // ---------------------------------------------------------------------------------------
  // The depth-first propagation
  // ---------------------------------------------------------------------------------------

  /** The number of `false` entries: the unvisited vertices. */
  function CountFalse(s: seq<bool>): (r: nat)
    ensures r <= |s|
  {
    if |s| == 0 then 0 else CountFalse(s[..|s| - 1]) + (if s[|s| - 1] then 0 else 1)
  }

  /** Marking an unvisited vertex leaves one fewer unvisited. */
  lemma {:induction false} CountFalseMark(s: seq<bool>, i: nat)
    requires i < |s| && !s[i]
    ensures CountFalse(s[i := true]) == CountFalse(s) - 1
    decreases |s|
  {
    var n := |s| - 1;
    assert s[i := true][..n] == if i < n then s[..n][i := true] else s[..n];
    if i < n {
      CountFalseMark(s[..n], i);
    }
  }

  /**
   * The program state the recursion threads through: `visited`, `normals`, the number of
   * `dfs` frames entered so far, and whether some frame met an already visited neighbour with
   * non-positive dot product — the event DFSNormal.py means to record in `success`.
   */
  datatype DfsState = DfsState(visited: seq<bool>, normals: seq<Vec3>, calls: nat, stopped: bool)

  /** The state fits a graph on `n` vertices. */
  predicate Fits(st: DfsState, n: nat) {
    |st.visited| == n && |st.normals| == n
  }

  /**
   * What a call may do to the state: visited vertices stay visited with their normals frozen;
   * a normal changes only by one negation, and only for a vertex that was unvisited and is now
   * visited; one frame per newly visited vertex; a recorded stop is never forgotten.
   */
  predicate Extends(st: DfsState, st': DfsState) {
    && |st'.visited| == |st.visited| && |st'.normals| == |st.normals|
    && (forall w :: 0 <= w < |st.visited| && st.visited[w] ==> st'.visited[w])
    && (forall w :: 0 <= w < |st.visited| && w < |st.normals| && st.visited[w] ==> st'.normals[w] == st.normals[w])
    && (forall w :: 0 <= w < |st.visited| && w < |st.normals| && st'.normals[w] != st.normals[w] ==>
          st'.visited[w] && st'.normals[w] == Negate(st.normals[w]))
    && CountFalse(st'.visited) <= CountFalse(st.visited)
    && st'.calls == st.calls + (CountFalse(st.visited) - CountFalse(st'.visited))
    && (st.stopped ==> st'.stopped)
  }

  /**
   * `dfs(v)`: mark `v`, read its normal once, and scan its neighbours. Only ever entered on
   * an unvisited vertex.
   */
  function Visit(adj: seq<seq<Neighbour>>, v: nat, st: DfsState): (st': DfsState)
    requires ValidGraph(adj) && v < |adj| && Fits(st, |adj|) && !st.visited[v]
    ensures Fits(st', |adj|) && Extends(st, st')
    ensures st'.visited[v] && st'.normals[v] == st.normals[v]
    ensures CountFalse(st'.visited) < CountFalse(st.visited)
    decreases CountFalse(st.visited), 0, 0
  {
    CountFalseMark(st.visited, v);
    var marked := st.(visited := st.visited[v := true], calls := st.calls + 1);
    Scan(adj, v, marked.normals[v], 0, marked)
  }

  /**
   * The neighbour loop of the frame of `v` from position `i`, with `vn` the normal
   * of `v` read on entry. A neighbour with `dot <= 0` that is already visited ends the frame;
   * an unvisited one is negated; every unvisited neighbour is then visited.
   */
  function Scan(adj: seq<seq<Neighbour>>, v: nat, vn: Vec3, i: nat, st: DfsState): (st': DfsState)
    requires ValidGraph(adj) && v < |adj| && i <= |adj[v]| && Fits(st, |adj|) && st.visited[v]
    ensures Fits(st', |adj|) && Extends(st, st')
    decreases CountFalse(st.visited), 1, |adj[v]| - i
  {
    if i == |adj[v]| then st
    else
      var u := adj[v][i].vertex;
      var un := st.normals[u];
      if Dot(vn, un) <= 0.0 && st.visited[u] then st.(stopped := true)
      else
        var flipped := if Dot(vn, un) <= 0.0 then st.(normals := st.normals[u := Negate(un)]) else st;
        var next := if !flipped.visited[u] then Visit(adj, u, flipped) else flipped;
        FlipThenVisit(st, flipped, next, u);
        var r := Scan(adj, v, vn, i + 1, next);
        ExtendsTransitive(st, next, r);
        r
  }

  /**
   * Meeting a visited neighbour with non-positive dot product ends the frame's scan: no later
   * neighbour is visited or flipped, and only the stop is recorded.
   */
  lemma ScanStopsAtClash(adj: seq<seq<Neighbour>>, v: nat, vn: Vec3, i: nat, st: DfsState)
    requires ValidGraph(adj) && v < |adj| && i < |adj[v]| && Fits(st, |adj|) && st.visited[v]
    requires st.visited[adj[v][i].vertex] && Dot(vn, st.normals[adj[v][i].vertex]) <= 0.0
    ensures var st' := Scan(adj, v, vn, i, st);
            st'.stopped && st'.visited == st.visited && st'.normals == st.normals && st'.calls == st.calls
  {
  }

  lemma ExtendsTransitive(a: DfsState, b: DfsState, c: DfsState)
    requires Extends(a, b) && Extends(b, c)
    ensures Extends(a, c)
  {
  }

  /** Negating the normal of an unvisited `u` and then visiting `u` is a legitimate extension. */
  lemma FlipThenVisit(st: DfsState, flipped: DfsState, next: DfsState, u: nat)
    requires u < |st.visited| == |st.normals|
    requires flipped == st || (!st.visited[u] && flipped == st.(normals := st.normals[u := Negate(st.normals[u])]))
    requires Extends(flipped, next)
    requires flipped != st ==> next.visited[u] && next.normals[u] == flipped.normals[u]
    ensures Extends(st, next)
  {
  }

  // ---------------------------------------------------------------------------------------
  // Reachability
  // ---------------------------------------------------------------------------------------

  /** Some entry of `adj[a]` names `b`. */
  ghost predicate IsEdge(adj: seq<seq<Neighbour>>, a: nat, b: nat) {
    a < |adj| && exists j :: 0 <= j < |adj[a]| && adj[a][j].vertex == b
  }

  /** `p` follows adjacency entries from `p[0]` to its last vertex. */
  ghost predicate IsPath(adj: seq<seq<Neighbour>>, p: seq<nat>) {
    |p| >= 1 && forall k :: 0 <= k < |p| - 1 ==> IsEdge(adj, p[k], p[k + 1])
  }

  ghost predicate Reachable(adj: seq<seq<Neighbour>>, a: nat, b: nat) {
    exists p :: IsPath(adj, p) && p[0] == a && p[|p| - 1] == b
  }

  lemma ReachableSelf(adj: seq<seq<Neighbour>>, a: nat)
    ensures Reachable(adj, a, a)
  {
    assert IsPath(adj, [a]);
  }

  lemma ReachablePrepend(adj: seq<seq<Neighbour>>, a: nat, b: nat, w: nat)
    requires IsEdge(adj, a, b) && Reachable(adj, b, w)
    ensures Reachable(adj, a, w)
  {
    var p :| IsPath(adj, p) && p[0] == b && p[|p| - 1] == w;
    var q := [a] + p;
    assert forall k :: 1 <= k < |q| ==> q[k] == p[k - 1];
    assert IsPath(adj, q);
  }

  /** Every vertex a frame of `dfs(v)` newly visits, its own or a nested one, is reachable from `v`. */
  lemma VisitReaches(adj: seq<seq<Neighbour>>, v: nat, st: DfsState)
    requires ValidGraph(adj) && v < |adj| && Fits(st, |adj|) && !st.visited[v]
    ensures forall w :: 0 <= w < |adj| && !st.visited[w] && Visit(adj, v, st).visited[w] ==> Reachable(adj, v, w)
    decreases CountFalse(st.visited), 0, 0
  {
    CountFalseMark(st.visited, v);
    var marked := st.(visited := st.visited[v := true], calls := st.calls + 1);
    assert Visit(adj, v, st) == Scan(adj, v, marked.normals[v], 0, marked);
    ScanReaches(adj, v, marked.normals[v], 0, marked);
    ReachableSelf(adj, v);
  }

  /** Every vertex the rest of the scan of `v` newly visits is reachable from `v`. */
  lemma ScanReaches(adj: seq<seq<Neighbour>>, v: nat, vn: Vec3, i: nat, st: DfsState)
    requires ValidGraph(adj) && v < |adj| && i <= |adj[v]| && Fits(st, |adj|) && st.visited[v]
    ensures forall w :: 0 <= w < |adj| && !st.visited[w] && Scan(adj, v, vn, i, st).visited[w] ==> Reachable(adj, v, w)
    decreases CountFalse(st.visited), 1, |adj[v]| - i
  {
    if i < |adj[v]| {
      var u := adj[v][i].vertex;
      var un := st.normals[u];
      if !(Dot(vn, un) <= 0.0 && st.visited[u]) {
        var flipped := if Dot(vn, un) <= 0.0 then st.(normals := st.normals[u := Negate(un)]) else st;
        var next := if !flipped.visited[u] then Visit(adj, u, flipped) else flipped;
        assert IsEdge(adj, v, u);
        if !flipped.visited[u] {
          VisitReaches(adj, u, flipped);
          forall w | 0 <= w < |adj| && !st.visited[w] && next.visited[w]
            ensures Reachable(adj, v, w)
          {
            ReachablePrepend(adj, v, u, w);
          }
        }
        ScanReaches(adj, v, vn, i + 1, next);
      }
    }
  }

  // ---------------------------------------------------------------------------------------
  // Consistency of the orientation
  // ---------------------------------------------------------------------------------------

  /**
   * Every neighbour of `w` is visited, and its normal does not point away from that of `w`:
   * the dot product is non-negative, and positive when `strict`.
   */
  ghost predicate Settled(adj: seq<seq<Neighbour>>, visited: seq<bool>, normals: seq<Vec3>, w: nat, strict: bool)
    requires ValidGraph(adj) && |visited| == |adj| && |normals| == |adj| && w < |adj|
  {
    forall j :: 0 <= j < |adj[w]| ==>
      && visited[adj[w][j].vertex]
      && Dot(normals[w], normals[adj[w][j].vertex]) >= 0.0
      && (strict ==> Dot(normals[w], normals[adj[w][j].vertex]) > 0.0)
  }

  /** Every adjacency entry has its converse: the lists come from paired half-edges. */
  ghost predicate Symmetric(adj: seq<seq<Neighbour>>) {
    forall w, j :: 0 <= w < |adj| && 0 <= j < |adj[w]| ==> IsEdge(adj, adj[w][j].vertex, w)
  }

  lemma SettledPersists(adj: seq<seq<Neighbour>>, st: DfsState, st': DfsState, w: nat, strict: bool)
    requires ValidGraph(adj) && Fits(st, |adj|) && Fits(st', |adj|) && w < |adj|
    requires st.visited[w] && Settled(adj, st.visited, st.normals, w, strict) && Extends(st, st')
    ensures Settled(adj, st'.visited, st'.normals, w, strict)
  {
  }

  /** Every vertex visited in `st'` but not in `st` is settled in `st'`. */
  ghost predicate NewlySettled(adj: seq<seq<Neighbour>>, st: DfsState, st': DfsState, strict: bool)
    requires ValidGraph(adj) && Fits(st, |adj|) && Fits(st', |adj|)
  {
    forall w :: 0 <= w < |adj| && !st.visited[w] && st'.visited[w] ==> Settled(adj, st'.visited, st'.normals, w, strict)
  }

  /** Settling composes along two successive extensions. */
  lemma NewlySettledCompose(adj: seq<seq<Neighbour>>, st: DfsState, mid: DfsState, st': DfsState, strict: bool)
    requires ValidGraph(adj) && Fits(st, |adj|) && Fits(mid, |adj|) && Fits(st', |adj|)
    requires NewlySettled(adj, st, mid, strict) && NewlySettled(adj, mid, st', strict) && Extends(mid, st')
    ensures NewlySettled(adj, st, st', strict)
  {
    forall w | 0 <= w < |adj| && !st.visited[w] && st'.visited[w]
      ensures Settled(adj, st'.visited, st'.normals, w, strict)
    {
      if mid.visited[w] {
        SettledPersists(adj, mid, st', w, strict);
      }
    }
  }

  /**
   * If no frame stopped, every vertex `dfs(v)` newly visits ends up settled; strictly so when
   * the adjacency is symmetric.
   */
  lemma VisitSettles(adj: seq<seq<Neighbour>>, v: nat, st: DfsState, strict: bool)
    requires ValidGraph(adj) && v < |adj| && Fits(st, |adj|) && !st.visited[v]
    requires strict ==> Symmetric(adj)
    ensures var st' := Visit(adj, v, st);
            !st'.stopped ==> NewlySettled(adj, st, st', strict)
    decreases CountFalse(st.visited), 0, 0
  {
    CountFalseMark(st.visited, v);
    var marked := st.(visited := st.visited[v := true], calls := st.calls + 1);
    var r := Scan(adj, v, marked.normals[v], 0, marked);
    assert Visit(adj, v, st) == r;
    ScanCovers(adj, v, marked.normals[v], 0, marked, strict);
    ScanSettles(adj, v, marked.normals[v], 0, marked, strict);
    if !r.stopped {
      assert r.normals[v] == marked.normals[v];
      assert Settled(adj, r.visited, r.normals, v, strict);
      forall w | 0 <= w < |adj| && !st.visited[w] && r.visited[w]
        ensures Settled(adj, r.visited, r.normals, w, strict)
      {
        if w != v {
          assert !marked.visited[w];
        }
      }
    }
  }

  /**
   * A frame whose remaining neighbours include an already visited vertex with a normal
   * pointing away from `un` stops, at that neighbour or earlier.
   */
  lemma {:induction false} ScanMeetsClash(adj: seq<seq<Neighbour>>, u: nat, un: Vec3, i: nat, st: DfsState, j: nat)
    requires ValidGraph(adj) && u < |adj| && i <= j < |adj[u]| && Fits(st, |adj|) && st.visited[u]
    requires st.visited[adj[u][j].vertex] && Dot(un, st.normals[adj[u][j].vertex]) <= 0.0
    ensures Scan(adj, u, un, i, st).stopped
    decreases j - i
  {
    var x := adj[u][i].vertex;
    var xn := st.normals[x];
    if i < j && !(Dot(un, xn) <= 0.0 && st.visited[x]) {
      var flipped := if Dot(un, xn) <= 0.0 then st.(normals := st.normals[x := Negate(xn)]) else st;
      var next := if !flipped.visited[x] then Visit(adj, x, flipped) else flipped;
      FlipThenVisit(st, flipped, next, x);
      ScanMeetsClash(adj, u, un, i + 1, next, j);
      assert Scan(adj, u, un, i, st) == Scan(adj, u, un, i + 1, next);
    }
  }

  /** `dfs(u)` stops when `u` has a visited neighbour `v` whose normal points away from that of `u`. */
  lemma VisitMeetsClash(adj: seq<seq<Neighbour>>, u: nat, v: nat, st: DfsState)
    requires ValidGraph(adj) && u < |adj| && v < |adj| && Fits(st, |adj|) && !st.visited[u] && st.visited[v]
    requires IsEdge(adj, u, v) && Dot(st.normals[u], st.normals[v]) <= 0.0
    ensures Visit(adj, u, st).stopped
  {
    CountFalseMark(st.visited, u);
    var marked := st.(visited := st.visited[u := true], calls := st.calls + 1);
    assert Visit(adj, u, st) == Scan(adj, u, marked.normals[u], 0, marked);
    var j :| 0 <= j < |adj[u]| && adj[u][j].vertex == v;
    ScanMeetsClash(adj, u, marked.normals[u], 0, marked, j);
  }

  /**
   * If no frame stopped, the rest of the scan of `v` leaves every remaining neighbour visited
   * with a normal not pointing away from `vn`.
   */
  lemma {:induction false} ScanCovers(adj: seq<seq<Neighbour>>, v: nat, vn: Vec3, i: nat, st: DfsState, strict: bool)
    requires ValidGraph(adj) && v < |adj| && i <= |adj[v]| && Fits(st, |adj|) && st.visited[v]
    requires vn == st.normals[v] && (strict ==> Symmetric(adj))
    ensures var st' := Scan(adj, v, vn, i, st);
            !st'.stopped ==>
              forall j :: i <= j < |adj[v]| ==>
                && st'.visited[adj[v][j].vertex]
                && Dot(vn, st'.normals[adj[v][j].vertex]) >= 0.0
                && (strict ==> Dot(vn, st'.normals[adj[v][j].vertex]) > 0.0)
    decreases |adj[v]| - i
  {
    if i < |adj[v]| {
      var u := adj[v][i].vertex;
      var un := st.normals[u];
      if !(Dot(vn, un) <= 0.0 && st.visited[u]) {
        var flipped := if Dot(vn, un) <= 0.0 then st.(normals := st.normals[u := Negate(un)]) else st;
        var next := if !flipped.visited[u] then Visit(adj, u, flipped) else flipped;
        DotNegate(vn, un);
        assert next.visited[u] && Dot(vn, next.normals[u]) >= 0.0;
        assert vn == next.normals[v];
        if strict && Dot(vn, flipped.normals[u]) == 0.0 {
          assert IsEdge(adj, u, v);
          DotSymmetric(vn, flipped.normals[u]);
          VisitMeetsClash(adj, u, v, flipped);
        }
        ScanCovers(adj, v, vn, i + 1, next, strict);
        var r := Scan(adj, v, vn, i + 1, next);
        assert Scan(adj, v, vn, i, st) == r;
        assert r.visited[u] && r.normals[u] == next.normals[u];
        if !r.stopped {
          forall j | i <= j < |adj[v]|
            ensures && r.visited[adj[v][j].vertex]
                    && Dot(vn, r.normals[adj[v][j].vertex]) >= 0.0
                    && (strict ==> Dot(vn, r.normals[adj[v][j].vertex]) > 0.0)
          {
            if j == i {
              assert adj[v][j].vertex == u;
            }
          }
        }
      }
    }
  }

  /** If no frame stopped, every vertex the rest of the scan of `v` newly visits ends up settled. */
  lemma ScanSettles(adj: seq<seq<Neighbour>>, v: nat, vn: Vec3, i: nat, st: DfsState, strict: bool)
    requires ValidGraph(adj) && v < |adj| && i <= |adj[v]| && Fits(st, |adj|) && st.visited[v]
    requires vn == st.normals[v] && (strict ==> Symmetric(adj))
    ensures var st' := Scan(adj, v, vn, i, st);
            !st'.stopped ==> NewlySettled(adj, st, st', strict)
    decreases CountFalse(st.visited), 1, |adj[v]| - i
  {
    if i < |adj[v]| {
      var u := adj[v][i].vertex;
      var un := st.normals[u];
      if !(Dot(vn, un) <= 0.0 && st.visited[u]) {
        var flipped := if Dot(vn, un) <= 0.0 then st.(normals := st.normals[u := Negate(un)]) else st;
        var next := if !flipped.visited[u] then Visit(adj, u, flipped) else flipped;
        if !flipped.visited[u] {
          VisitSettles(adj, u, flipped, strict);
        }
        assert vn == next.normals[v];
        ScanSettles(adj, v, vn, i + 1, next, strict);
        var r := Scan(adj, v, vn, i + 1, next);
        assert Scan(adj, v, vn, i, st) == r;
        if !r.stopped {
          assert !next.stopped;
          assert NewlySettled(adj, st, next, strict);
          NewlySettledCompose(adj, st, next, r, strict);
        }
      }
    }
  }

  /** Some visited vertex has a visited neighbour whose normal points away from its own. */
  ghost predicate Clash(adj: seq<seq<Neighbour>>, visited: seq<bool>, normals: seq<Vec3>)
    requires ValidGraph(adj) && |visited| == |adj| && |normals| == |adj|
  {
    exists w, j :: 0 <= w < |adj| && 0 <= j < |adj[w]| && visited[w] && visited[adj[w][j].vertex]
                   && Dot(normals[w], normals[adj[w][j].vertex]) <= 0.0
  }

  lemma ClashPersists(adj: seq<seq<Neighbour>>, st: DfsState, st': DfsState)
    requires ValidGraph(adj) && Fits(st, |adj|) && Fits(st', |adj|) && Clash(adj, st.visited, st.normals) && Extends(st, st')
    ensures Clash(adj, st'.visited, st'.normals)
  {
    var w, j :| 0 <= w < |adj| && 0 <= j < |adj[w]| && st.visited[w] && st.visited[adj[w][j].vertex]
                && Dot(st.normals[w], st.normals[adj[w][j].vertex]) <= 0.0;
    assert st'.visited[w] && st'.visited[adj[w][j].vertex];
  }

  /** A frame that stops has met a clash, and the clash is still there at the end. */
  lemma VisitStopClashes(adj: seq<seq<Neighbour>>, v: nat, st: DfsState)
    requires ValidGraph(adj) && v < |adj| && Fits(st, |adj|) && !st.visited[v]
    ensures var st' := Visit(adj, v, st);
            !st.stopped && st'.stopped ==> Clash(adj, st'.visited, st'.normals)
    decreases CountFalse(st.visited), 0, 0
  {
    CountFalseMark(st.visited, v);
    var marked := st.(visited := st.visited[v := true], calls := st.calls + 1);
    assert Visit(adj, v, st) == Scan(adj, v, marked.normals[v], 0, marked);
    ScanStopClashes(adj, v, marked.normals[v], 0, marked);
  }

  lemma ScanStopClashes(adj: seq<seq<Neighbour>>, v: nat, vn: Vec3, i: nat, st: DfsState)
    requires ValidGraph(adj) && v < |adj| && i <= |adj[v]| && Fits(st, |adj|) && st.visited[v]
    requires vn == st.normals[v]
    ensures var st' := Scan(adj, v, vn, i, st);
            !st.stopped && st'.stopped ==> Clash(adj, st'.visited, st'.normals)
    decreases CountFalse(st.visited), 1, |adj[v]| - i
  {
    if i < |adj[v]| {
      var u := adj[v][i].vertex;
      var un := st.normals[u];
      if Dot(vn, un) <= 0.0 && st.visited[u] {
        var st' := st.(stopped := true);
        assert st'.visited[v] && st'.visited[adj[v][i].vertex] && Dot(st'.normals[v], st'.normals[adj[v][i].vertex]) <= 0.0;
      } else {
        var flipped := if Dot(vn, un) <= 0.0 then st.(normals := st.normals[u := Negate(un)]) else st;
        var next := if !flipped.visited[u] then Visit(adj, u, flipped) else flipped;
        if !flipped.visited[u] {
          VisitStopClashes(adj, u, flipped);
        }
        ScanStopClashes(adj, v, vn, i + 1, next);
        var r := Scan(adj, v, vn, i + 1, next);
        if next.stopped && !st.stopped {
          ClashPersists(adj, next, r);
        }
      }
    }
  }

  // ---------------------------------------------------------------------------------------
  // The whole propagation `dfs(0)` and its verdict
  // ---------------------------------------------------------------------------------------

  /** `visited[0]` raises when there are no vertices. */
  datatype DfsError = NoVertices

  /**
   * The outcome of the propagation: the (re-oriented) normals, the visited flags, the number
   * of `dfs` frames entered, and the verdict printed at the end.
   */
  datatype Orientation = Orientation(normals: seq<Vec3>, visited: seq<bool>, frames: nat, verdict: bool)

  /** Nothing visited, nothing recorded. */
  function Initial(normals: seq<Vec3>): DfsState {
    DfsState(seq(|normals|, _ => false), normals, 0, false)
  }

  lemma {:induction false} CountFalseNone(s: seq<bool>)
    requires forall i :: 0 <= i < |s| ==> !s[i]
    ensures CountFalse(s) == |s|
    decreases |s|
  {
    if |s| > 0 {
      CountFalseNone(s[..|s| - 1]);
    }
  }

  /** `dfs(0)` from the initial state. */
  function Propagate(adj: seq<seq<Neighbour>>, normals: seq<Vec3>): (st: DfsState)
    requires ValidGraph(adj) && |normals| == |adj| && |adj| > 0
    ensures Fits(st, |adj|) && st.visited[0] && st.normals[0] == normals[0]
    ensures forall w :: 0 <= w < |adj| ==>
              st.normals[w] == normals[w] || (st.visited[w] && st.normals[w] == Negate(normals[w]))
    ensures st.calls == |adj| - CountFalse(st.visited)
  {
    CountFalseNone(Initial(normals).visited);
    Visit(adj, 0, Initial(normals))
  }

  /**
   * The propagation with the verdict the program evidently means: `true` unless some frame
   * met an already visited neighbour with non-positive dot product.
   */
  function Orient(adj: seq<seq<Neighbour>>, normals: seq<Vec3>): (r: Result<Orientation, DfsError>)
    requires ValidGraph(adj) && |normals| == |adj|
    ensures r.Failure? <==> |adj| == 0
    ensures r.Success? ==>
              && |r.value.normals| == |adj| && |r.value.visited| == |adj|
              && r.value.visited[0] && r.value.normals[0] == normals[0]
              && (forall w :: 0 <= w < |adj| ==>
                    r.value.normals[w] == normals[w] || (r.value.visited[w] && r.value.normals[w] == Negate(normals[w])))
              && r.value.frames == |adj| - CountFalse(r.value.visited) <= |adj|
  {
    if |adj| == 0 then Failure(NoVertices)
    else
      var st := Propagate(adj, normals);
      Success(Orientation(st.normals, st.visited, st.calls, !st.stopped))
  }

  /**
   * The propagation as written: the `success = False` inside `dfs` binds a local of the frame,
   * so the module-level flag tested afterwards is still `True` and the verdict never changes.
   */
  function OrientAsWritten(adj: seq<seq<Neighbour>>, normals: seq<Vec3>): (r: Result<Orientation, DfsError>)
    requires ValidGraph(adj) && |normals| == |adj|
    ensures r.Failure? <==> |adj| == 0
    ensures r.Success? ==> r.value.verdict
    ensures r.Success? ==> r.value == Orient(adj, normals).value.(verdict := true)
  {
    if |adj| == 0 then Failure(NoVertices)
    else
      var st := Propagate(adj, normals);
      Success(Orientation(st.normals, st.visited, st.calls, true))
  }

  /** Every visited vertex is reachable from vertex 0. */
  lemma OrientVisitsOnlyReachable(adj: seq<seq<Neighbour>>, normals: seq<Vec3>)
    requires ValidGraph(adj) && |normals| == |adj|
    ensures var r := Orient(adj, normals);
            r.Success? ==> forall w :: 0 <= w < |adj| && r.value.visited[w] ==> Reachable(adj, 0, w)
  {
    if |adj| > 0 {
      VisitReaches(adj, 0, Initial(normals));
    }
  }

  /** A path that starts at a visited vertex stays among visited vertices when every visited vertex is settled. */
  lemma {:induction false} PathStaysVisited(adj: seq<seq<Neighbour>>, visited: seq<bool>, normals: seq<Vec3>, p: seq<nat>, k: nat)
    requires ValidGraph(adj) && |visited| == |adj| && |normals| == |adj|
    requires forall w :: 0 <= w < |adj| && visited[w] ==> Settled(adj, visited, normals, w, false)
    requires IsPath(adj, p) && p[0] < |adj| && visited[p[0]] && k < |p|
    ensures p[k] < |adj| && visited[p[k]]
  {
    if k > 0 {
      PathStaysVisited(adj, visited, normals, p, k - 1);
      assert IsEdge(adj, p[k - 1], p[k]);
      var j :| 0 <= j < |adj[p[k - 1]]| && adj[p[k - 1]][j].vertex == p[k];
    }
  }

  /**
   * With the corrected verdict `true`, the propagation visits exactly the vertices reachable
   * from vertex 0, and along every adjacency entry leaving them the normals agree (non-negative
   * dot product).
   */
  lemma OrientSound(adj: seq<seq<Neighbour>>, normals: seq<Vec3>)
    requires ValidGraph(adj) && |normals| == |adj|
    ensures var r := Orient(adj, normals);
            r.Success? && r.value.verdict ==>
              forall w :: 0 <= w < |adj| ==>
                (r.value.visited[w] <==> Reachable(adj, 0, w))
                && (r.value.visited[w] ==> Settled(adj, r.value.visited, r.value.normals, w, false))
  {
    if |adj| > 0 {
      var st := Visit(adj, 0, Initial(normals));
      VisitSettles(adj, 0, Initial(normals), false);
      VisitReaches(adj, 0, Initial(normals));
      if !st.stopped {
        forall w | 0 <= w < |adj| && Reachable(adj, 0, w)
          ensures st.visited[w]
        {
          var p :| IsPath(adj, p) && p[0] == 0 && p[|p| - 1] == w;
          PathStaysVisited(adj, st.visited, st.normals, p, |p| - 1);
        }
      }
    }
  }

  /**
   * When every adjacency entry has its converse, the corrected verdict `true` means strictly
   * consistent normals: every entry leaving a visited vertex joins normals with a positive dot
   * product. A neighbour flipped onto a perpendicular normal meets its flipper in its own
   * frame and stops.
   */
  lemma OrientSoundSymmetric(adj: seq<seq<Neighbour>>, normals: seq<Vec3>)
    requires ValidGraph(adj) && |normals| == |adj| && Symmetric(adj)
    ensures var r := Orient(adj, normals);
            r.Success? && r.value.verdict ==>
              forall w :: 0 <= w < |adj| && r.value.visited[w] ==> Settled(adj, r.value.visited, r.value.normals, w, true)
  {
    if |adj| > 0 {
      VisitSettles(adj, 0, Initial(normals), true);
    }
  }

  /** The adjacency built from half-edges paired with their reverses has every entry's converse. */
  lemma PairedNeighboursSymmetric(hes: seq<HalfEdge>, inv: seq<nat>, adj: seq<seq<Neighbour>>)
    requires IsPairing(hes, inv) && EndpointsBelow(hes, |adj|)
    requires forall v :: 0 <= v < |adj| ==> adj[v] == Neighbours(hes, v)
    ensures Symmetric(adj)
  {
    forall w, j | 0 <= w < |adj| && 0 <= j < |adj[w]|
      ensures IsEdge(adj, adj[w][j].vertex, w)
    {
      NeighboursFollowTails(hes, w);
      var h := TailIndices(hes, w)[j];
      var u := hes[h].head;
      assert adj[w][j].vertex == u;
      var g := inv[h];
      assert hes[g] == Reverse(hes[h]);
      TailIndicesComplete(hes, u, g);
      var p := IndexOf(TailIndices(hes, u), g);
      NeighboursFollowTails(hes, u);
      assert adj[u][p].vertex == w;
    }
  }

  /** With the corrected verdict `false`, two visited neighbours end with normals that disagree. */
  lemma OrientFailureHasClash(adj: seq<seq<Neighbour>>, normals: seq<Vec3>)
    requires ValidGraph(adj) && |normals| == |adj|
    ensures var r := Orient(adj, normals);
            r.Success? && !r.value.verdict ==> Clash(adj, r.value.visited, r.value.normals)
  {
    if |adj| > 0 {
      VisitStopClashes(adj, 0, Initial(normals));
    }
  }

  /** Every adjacency entry joins normals with positive dot product: nothing for `dfs` to flip. */
  ghost predicate Consistent(adj: seq<seq<Neighbour>>, normals: seq<Vec3>)
    requires ValidGraph(adj) && |normals| == |adj|
  {
    forall w, j :: 0 <= w < |adj| && 0 <= j < |adj[w]| ==> Dot(normals[w], normals[adj[w][j].vertex]) > 0.0
  }

  /** On consistent normals `dfs(v)` flips nothing and never stops. */
  lemma VisitKeepsConsistent(adj: seq<seq<Neighbour>>, v: nat, st: DfsState)
    requires ValidGraph(adj) && v < |adj| && Fits(st, |adj|) && !st.visited[v]
    requires !st.stopped && Consistent(adj, st.normals)
    ensures Visit(adj, v, st).normals == st.normals && !Visit(adj, v, st).stopped
    decreases CountFalse(st.visited), 0, 0
  {
    CountFalseMark(st.visited, v);
    var marked := st.(visited := st.visited[v := true], calls := st.calls + 1);
    assert Visit(adj, v, st) == Scan(adj, v, marked.normals[v], 0, marked);
    ScanKeepsConsistent(adj, v, marked.normals[v], 0, marked);
  }

  /** On consistent normals the rest of the scan of `v` flips nothing and never stops. */
  lemma ScanKeepsConsistent(adj: seq<seq<Neighbour>>, v: nat, vn: Vec3, i: nat, st: DfsState)
    requires ValidGraph(adj) && v < |adj| && i <= |adj[v]| && Fits(st, |adj|) && st.visited[v]
    requires vn == st.normals[v] && !st.stopped && Consistent(adj, st.normals)
    ensures Scan(adj, v, vn, i, st).normals == st.normals && !Scan(adj, v, vn, i, st).stopped
    decreases CountFalse(st.visited), 1, |adj[v]| - i
  {
    if i < |adj[v]| {
      var u := adj[v][i].vertex;
      assert Dot(vn, st.normals[u]) > 0.0;
      var next := if !st.visited[u] then Visit(adj, u, st) else st;
      if !st.visited[u] {
        VisitKeepsConsistent(adj, u, st);
      }
      ScanKeepsConsistent(adj, v, vn, i + 1, next);
      assert Scan(adj, v, vn, i, st) == Scan(adj, v, vn, i + 1, next);
    }
  }

  /**
   * Orientation idempotence: on normals that are already consistent the propagation flips no
   * sign and the corrected verdict is `true`.
   */
  lemma OrientIdempotent(adj: seq<seq<Neighbour>>, normals: seq<Vec3>)
    requires ValidGraph(adj) && |normals| == |adj| && Consistent(adj, normals)
    ensures var r := Orient(adj, normals);
            r.Success? ==> r.value.normals == normals && r.value.verdict
  {
    if |adj| > 0 {
      VisitKeepsConsistent(adj, 0, Initial(normals));
    }
  }

  /**
   * Re-running the propagation on its own output: when the adjacency is symmetric and a `true`
   * verdict visited every vertex, the re-oriented normals are consistent, so a second run flips
   * nothing and again reports `true`.
   */
  lemma OrientTwice(adj: seq<seq<Neighbour>>, normals: seq<Vec3>)
    requires ValidGraph(adj) && |normals| == |adj| && Symmetric(adj)
    ensures var r := Orient(adj, normals);
            r.Success? && r.value.verdict && (forall w :: 0 <= w < |adj| ==> r.value.visited[w]) ==>
              && Orient(adj, r.value.normals).Success?
              && Orient(adj, r.value.normals).value.normals == r.value.normals
              && Orient(adj, r.value.normals).value.verdict
  {
    var r := Orient(adj, normals);
    if r.Success? && r.value.verdict && (forall w :: 0 <= w < |adj| ==> r.value.visited[w]) {
      OrientSoundSymmetric(adj, normals);
      assert Consistent(adj, r.value.normals) by {
        forall w, j | 0 <= w < |adj| && 0 <= j < |adj[w]|
          ensures Dot(r.value.normals[w], r.value.normals[adj[w][j].vertex]) > 0.0
        {
          assert Settled(adj, r.value.visited, r.value.normals, w, true);
        }
      }
      OrientIdempotent(adj, r.value.normals);
    }
  }

  /**
   * Two vertices joined both ways, with perpendicular unit normals: the frame of vertex 1 meets
   * vertex 0 (visited) with dot product 0 and stops, so the corrected verdict is `false`, yet the
   * program as written reports success.
   */
  lemma AsWrittenReportsClashAsSuccess()
    ensures var adj := [[Neighbour(1, Zero)], [Neighbour(0, Zero)]];
            var normals := [Vec3(1.0, 0.0, 0.0), Vec3(0.0, 1.0, 0.0)];
            && ValidGraph(adj)
            && OrientAsWritten(adj, normals).Success? && OrientAsWritten(adj, normals).value.verdict
            && Orient(adj, normals).Success? && !Orient(adj, normals).value.verdict
  {
    var adj := [[Neighbour(1, Zero)], [Neighbour(0, Zero)]];
    var normals := [Vec3(1.0, 0.0, 0.0), Vec3(0.0, 1.0, 0.0)];
    assert ValidGraph(adj);
    var s0 := Initial(normals);
    var s1 := s0.(visited := s0.visited[0 := true], calls := 1);
    var s2 := s1.(normals := s1.normals[1 := Negate(normals[1])]);
    var s3 := s2.(visited := s2.visited[1 := true], calls := 2);
    assert Scan(adj, 1, s3.normals[1], 0, s3) == s3.(stopped := true);
    assert Visit(adj, 1, s2) == s3.(stopped := true);
    assert Scan(adj, 0, normals[0], 1, s3.(stopped := true)) == s3.(stopped := true);
    assert Scan(adj, 0, normals[0], 0, s1) == s3.(stopped := true);
    assert Visit(adj, 0, s0) == s3.(stopped := true);
  }
}
