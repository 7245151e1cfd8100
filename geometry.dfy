/** Optional values, for `Edge.has_shared_vertex`, which returns a vertex or None. */
module Wrappers {
  datatype Option<+T> = None | Some(value: T)
}

/**
 * Points, directed edges and the edge predicates the triangulation uses.
 * Coordinates are compared exactly, as the source compares its float triples.
 */
module Geometry {
  import opened Wrappers

  /** A point, or a direction or normal vector, in space. */
  datatype Vec3 = Vec3(x: real, y: real, z: real)

  const Origin := Vec3(0.0, 0.0, 0.0)

  function Sub(a: Vec3, b: Vec3): (r: Vec3) {
    Vec3(a.x - b.x, a.y - b.y, a.z - b.z)
  }

  function Cross(a: Vec3, b: Vec3): (r: Vec3) {
    Vec3(a.y * b.z - a.z * b.y, a.z * b.x - a.x * b.z, a.x * b.y - a.y * b.x)
  }

  /** An edge from (x1, y1, z1) to (x2, y2, z2), with the fields the source reads. */
  datatype Edge = Edge(x1: real, y1: real, z1: real, x2: real, y2: real, z2: real) {
    function Start(): (p: Vec3) { Vec3(x1, y1, z1) }
    function End(): (p: Vec3) { Vec3(x2, y2, z2) }
    function Direction(): (d: Vec3) { Sub(End(), Start()) }
  }

  /** `Edge(a[0], a[1], a[2], b[0], b[1], b[2])`. */
  function EdgeBetween(a: Vec3, b: Vec3): (e: Edge)
    ensures e.Start() == a && e.End() == b
  {
    Edge(a.x, a.y, a.z, b.x, b.y, b.z)
  }

  predicate IsEndpoint(e: Edge, p: Vec3) {
    e.Start() == p || e.End() == p
  }

  /**
   * `Edge.same_edge` and `Edge.are_overlapping_edges`: the two edges join the
   * same two points, in either direction.
   */
  predicate SameEdge(a: Edge, b: Edge) {
    (a.Start() == b.Start() && a.End() == b.End()) ||
    (a.Start() == b.End() && a.End() == b.Start())
  }

  /** Edge equality is undirected: an edge and its reverse are the same edge. */
  lemma SameEdgeUndirected(a: Vec3, b: Vec3)
    ensures SameEdge(EdgeBetween(a, b), EdgeBetween(b, a))
  {
  }

  /** Two edges are the same edge exactly when they have the same set of endpoints. */
  lemma SameEdgeIffSameEndpoints(a: Edge, b: Edge)
    ensures SameEdge(a, b) <==> {a.Start(), a.End()} == {b.Start(), b.End()}
  {
    if {a.Start(), a.End()} == {b.Start(), b.End()} {
      assert a.Start() in {b.Start(), b.End()};
      assert a.End() in {b.Start(), b.End()};
      assert b.Start() in {a.Start(), a.End()};
      assert b.End() in {a.Start(), a.End()};
    }
  }

  /** SameEdge is an equivalence relation, so an edge list can be deduplicated by it. */
  lemma SameEdgeIsEquivalence()
    ensures forall a :: SameEdge(a, a)
    ensures forall a, b :: SameEdge(a, b) ==> SameEdge(b, a)
    ensures forall a, b, c :: SameEdge(a, b) && SameEdge(b, c) ==> SameEdge(a, c)
  {
  }

  /**
   * `Edge.has_shared_vertex(a, b)`: a vertex the two edges have in common, or
   * None. When both endpoints of `a` lie on `b`, the start of `a` is reported.
   */
  function SharedVertex(a: Edge, b: Edge): (r: Option<Vec3>)
    ensures r.Some? <==> IsEndpoint(b, a.Start()) || IsEndpoint(b, a.End())
    ensures r.Some? ==> IsEndpoint(a, r.value) && IsEndpoint(b, r.value)
    ensures IsEndpoint(b, a.Start()) ==> r == Some(a.Start())
  {
    if IsEndpoint(b, a.Start()) then Some(a.Start())
    else if IsEndpoint(b, a.End()) then Some(a.End())
    else None
  }

  /**
   * `Edge.are_parallel_or_anti_parallel`: the directions of the two edges are
   * collinear, i.e. their cross product is the zero vector.
   */
  predicate ParallelOrAntiParallel(a: Edge, b: Edge) {
    Cross(a.Direction(), b.Direction()) == Origin
  }

  /** Parallelism holds whenever one direction is a scalar multiple of the other, negative scalars included. */
  lemma ScaledDirectionIsParallel(a: Edge, b: Edge, k: real)
    requires b.Direction() == Vec3(k * a.Direction().x, k * a.Direction().y, k * a.Direction().z)
    ensures ParallelOrAntiParallel(a, b) && ParallelOrAntiParallel(b, a)
  {
    var d := a.Direction();
    assert d.y * (k * d.z) - d.z * (k * d.y) == 0.0;
    assert d.z * (k * d.x) - d.x * (k * d.z) == 0.0;
    assert d.x * (k * d.y) - d.y * (k * d.x) == 0.0;
  }

  /** With p non-zero, p * s == r * q makes s the multiple q / p of r. */
  lemma Scale(p: real, q: real, r: real, s: real)
    requires p != 0.0 && p * s == r * q
    ensures s == (q / p) * r
  {
    calc {
      (q / p) * r;
      == (r * q) / p;
      == (p * s) / p;
      == s;
    }
  }

  /**
   * The converse of ScaledDirectionIsParallel: the cross-product test accepts
   * nothing besides scalar multiples. When the first edge has a non-zero
   * direction and the test holds, the second direction is k times the first.
   */
  lemma ParallelIsScaled(a: Edge, b: Edge) returns (k: real)
    requires ParallelOrAntiParallel(a, b) && a.Direction() != Origin
    ensures b.Direction() == Vec3(k * a.Direction().x, k * a.Direction().y, k * a.Direction().z)
  {
    var d, e := a.Direction(), b.Direction();
    if d.x != 0.0 {
      k := e.x / d.x;
      Scale(d.x, e.x, d.x, e.x);
      Scale(d.x, e.x, d.y, e.y);
      Scale(d.x, e.x, d.z, e.z);
    } else if d.y != 0.0 {
      k := e.y / d.y;
      Scale(d.y, e.y, d.x, e.x);
      Scale(d.y, e.y, d.y, e.y);
      Scale(d.y, e.y, d.z, e.z);
    } else {
      k := e.z / d.z;
      Scale(d.z, e.z, d.x, e.x);
      Scale(d.z, e.z, d.y, e.y);
      Scale(d.z, e.z, d.z, e.z);
    }
  }
}
