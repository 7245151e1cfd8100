/**
 * `MeshTriangulation.step_2`: for every face, the edges of its triangles that
 * no other triangle of the face also has -- the outline of the face.
 *
 * The pairing loop records edge i of triangle m as shared when edge j of
 * triangle n is the same undirected edge, for every pair the test `m is not n`
 * lets through. That test compares the identity of two int objects; CPython
 * keeps a single object only for the ints -5 to 256, so for two equal indices
 * from 257 up it lets the pair through and a triangle is compared with itself.
 * The flag `asWritten` selects that reading of the test; `Step2` and the
 * outline property use the intended `m != n`.
 */
module BoundaryExtraction {
  import opened Geometry
  import opened UniqueEdges
  import opened Triangles
  import opened Faces

  /** `face.triangles[m].edges[i]`. */
  function EdgeOf(ts: seq<Triangle>, m: nat, i: nat): (e: Edge)
    requires m < |ts| && i < 3
  {
    ts[m].Edges()[i]
  }

  /** The largest int CPython keeps a single shared object for. */
  const LargestCachedInt := 256

  /**
   * The result of `m is not n` for two indices produced by two `range` loops:
   * as written, equal indices above the cached range are still different
   * objects; as intended, it is `m != n`.
   */
  predicate Compared(m: nat, n: nat, asWritten: bool) {
    m != n || (asWritten && m > LargestCachedInt)
  }

  /** The innermost test fires: the pair passes `m is not n` and edge i of m overlaps edge j of n. */
  predicate Hit(ts: seq<Triangle>, m: nat, n: nat, i: nat, j: nat, asWritten: bool)
    requires m < |ts| && n < |ts| && i < 3 && j < 3
  {
    Compared(m, n, asWritten) && SameEdge(EdgeOf(ts, m, i), EdgeOf(ts, n, j))
  }

  /** Edge i of m was added, and it is `e`, by one of the first `jj` values of j. */
  ghost predicate AddedInRow(ts: seq<Triangle>, m: nat, n: nat, i: nat, jj: nat, e: Edge, asWritten: bool)
    requires m < |ts| && n < |ts| && i < 3 && jj <= 3
  {
    (exists j | 0 <= j < jj :: Hit(ts, m, n, i, j, asWritten)) && SameEdge(EdgeOf(ts, m, i), e)
  }

  /** An edge the same as `e` was added while comparing triangle m with triangle n, during the first `ii` values of i. */
  ghost predicate AddedInPair(ts: seq<Triangle>, m: nat, n: nat, ii: nat, e: Edge, asWritten: bool)
    requires m < |ts| && n < |ts| && ii <= 3
  {
    exists i | 0 <= i < ii :: AddedInRow(ts, m, n, i, 3, e, asWritten)
  }

  /** ... while comparing triangle m with the first `nn` triangles. */
  ghost predicate AddedForTriangle(ts: seq<Triangle>, m: nat, nn: nat, e: Edge, asWritten: bool)
    requires m < |ts| && nn <= |ts|
  {
    exists n | 0 <= n < nn :: AddedInPair(ts, m, n, 3, e, asWritten)
  }

  /** ... while handling the first `mm` triangles as triangle m. */
  ghost predicate AddedBefore(ts: seq<Triangle>, mm: nat, e: Edge, asWritten: bool)
    requires mm <= |ts|
  {
    exists m | 0 <= m < mm :: AddedForTriangle(ts, m, |ts|, e, asWritten)
  }

  /** `shared_edges` covers `e` once the pairing loop is over. */
  ghost predicate IsShared(ts: seq<Triangle>, e: Edge, asWritten: bool) {
    AddedBefore(ts, |ts|, e, asWritten)
  }

  /** Flattened: `e` is shared when some edge the same as `e` passes the innermost test. */
  lemma IsSharedIff(ts: seq<Triangle>, e: Edge, asWritten: bool)
    ensures IsShared(ts, e, asWritten) <==>
      exists m, n, i, j | 0 <= m < |ts| && 0 <= n < |ts| && 0 <= i < 3 && 0 <= j < 3 ::
        Hit(ts, m, n, i, j, asWritten) && SameEdge(EdgeOf(ts, m, i), e)
  {
    if IsShared(ts, e, asWritten) {
      var m :| 0 <= m < |ts| && AddedForTriangle(ts, m, |ts|, e, asWritten);
      var n :| 0 <= n < |ts| && AddedInPair(ts, m, n, 3, e, asWritten);
      var i :| 0 <= i < 3 && AddedInRow(ts, m, n, i, 3, e, asWritten);
      var j :| 0 <= j < 3 && Hit(ts, m, n, i, j, asWritten);
      assert Hit(ts, m, n, i, j, asWritten) && SameEdge(EdgeOf(ts, m, i), e);
    }
    if exists m, n, i, j | 0 <= m < |ts| && 0 <= n < |ts| && 0 <= i < 3 && 0 <= j < 3 ::
        Hit(ts, m, n, i, j, asWritten) && SameEdge(EdgeOf(ts, m, i), e) {
      var m, n, i, j :| 0 <= m < |ts| && 0 <= n < |ts| && 0 <= i < 3 && 0 <= j < 3 &&
        Hit(ts, m, n, i, j, asWritten) && SameEdge(EdgeOf(ts, m, i), e);
      assert AddedInRow(ts, m, n, i, 3, e, asWritten);
      assert AddedInPair(ts, m, n, 3, e, asWritten);
      assert AddedForTriangle(ts, m, |ts|, e, asWritten);
    }
  }

  /** The edges of `a`, in order, that are shared. */
  ghost function SharedAmong(ts: seq<Triangle>, a: seq<Edge>, asWritten: bool): (r: seq<Edge>)
    ensures forall x :: x in r ==> x in a && IsShared(ts, x, asWritten)
    ensures forall x :: x in a && IsShared(ts, x, asWritten) ==> x in r
  {
    if a == [] then []
    else (if IsShared(ts, a[0], asWritten) then [a[0]] else []) + SharedAmong(ts, a[1..], asWritten)
  }

  /** A list covering exactly the shared edges: the edges of the face that are shared. */
  ghost function SharedList(ts: seq<Triangle>, asWritten: bool): (r: seq<Edge>) {
    SharedAmong(ts, AllEdges(ts), asWritten)
  }

  /** Whether an edge is shared depends only on the undirected edge. */
  lemma SharedIsUndirected(ts: seq<Triangle>, a: Edge, b: Edge, asWritten: bool)
    requires SameEdge(a, b) && IsShared(ts, a, asWritten)
    ensures IsShared(ts, b, asWritten)
  {
    IsSharedIff(ts, a, asWritten);
    IsSharedIff(ts, b, asWritten);
    SameEdgeIsEquivalence();
  }

  lemma SharedListCovers(ts: seq<Triangle>, asWritten: bool)
    ensures forall x :: Covers(SharedList(ts, asWritten), x) <==> IsShared(ts, x, asWritten)
  {
    var r := SharedList(ts, asWritten);
    forall x ensures Covers(r, x) <==> IsShared(ts, x, asWritten) {
      if Covers(r, x) {
        var k :| 0 <= k < |r| && SameEdge(r[k], x);
        SharedIsUndirected(ts, r[k], x, asWritten);
      }
      if IsShared(ts, x, asWritten) {
        IsSharedIff(ts, x, asWritten);
        var m, n, i, j :| 0 <= m < |ts| && 0 <= n < |ts| && 0 <= i < 3 && 0 <= j < 3 &&
          Hit(ts, m, n, i, j, asWritten) && SameEdge(EdgeOf(ts, m, i), x);
        var y := EdgeOf(ts, m, i);
        assert y in ts[m].Edges();
        assert y in AllEdges(ts);
        SameEdgeIsEquivalence();
        SharedIsUndirected(ts, x, y, asWritten);
        assert y in r;
        var k :| 0 <= k < |r| && r[k] == y;
      }
    }
  }

  /** The list `step_2` returns for one face: the face's edges that are not shared, each once. */
  ghost function Boundary(ts: seq<Triangle>, asWritten: bool): (r: seq<Edge>) {
    Difference(AllEdges(ts), SharedList(ts, asWritten))
  }

  /** Exactly one triangle of the face has edge `e`. */
  ghost predicate IsBoundaryEdge(ts: seq<Triangle>, e: Edge) {
    exists m | 0 <= m < |ts| :: Covers(ts[m].Edges(), e) &&
      forall n | 0 <= n < |ts| && n != m :: !Covers(ts[n].Edges(), e)
  }

  /**
   * What step 2 is for: with the intended test, the result holds each edge
   * that exactly one triangle of the face has, once, and nothing else.
   */
  lemma BoundaryIsOutline(ts: seq<Triangle>)
    ensures NoDuplicateEdges(Boundary(ts, false))
    ensures forall x :: x in Boundary(ts, false) ==> x in AllEdges(ts)
    ensures forall e :: Covers(Boundary(ts, false), e) <==> IsBoundaryEdge(ts, e)
  {
    SharedListCovers(ts, false);
    SameEdgeIsEquivalence();
    forall e ensures Covers(Boundary(ts, false), e) <==> IsBoundaryEdge(ts, e) {
      IsSharedIff(ts, e, false);
      if Covers(Boundary(ts, false), e) {
        assert Covers(AllEdges(ts), e) && !IsShared(ts, e, false);
        var m :| 0 <= m < |ts| && Covers(ts[m].Edges(), e);
        forall n | 0 <= n < |ts| && n != m
          ensures Covers(ts[n].Edges(), e) ==> IsShared(ts, e, false)
        {
          TwoTrianglesShare(ts, m, n, e);
        }
      }
      if IsBoundaryEdge(ts, e) {
        var m :| 0 <= m < |ts| && Covers(ts[m].Edges(), e) &&
          forall n | 0 <= n < |ts| && n != m :: !Covers(ts[n].Edges(), e);
        assert Covers(AllEdges(ts), e);
        BoundaryEdgeNotShared(ts, e);
      }
    }
  }

  /** An edge that two different triangles have is recorded as shared. */
  lemma TwoTrianglesShare(ts: seq<Triangle>, m: nat, n: nat, e: Edge)
    requires m < |ts| && n < |ts| && m != n
    ensures Covers(ts[m].Edges(), e) && Covers(ts[n].Edges(), e) ==> IsShared(ts, e, false)
  {
    if Covers(ts[m].Edges(), e) && Covers(ts[n].Edges(), e) {
      var i :| 0 <= i < 3 && SameEdge(ts[m].Edges()[i], e);
      var j :| 0 <= j < 3 && SameEdge(ts[n].Edges()[j], e);
      SameEdgeIsEquivalence();
      assert Hit(ts, m, n, i, j, false) && SameEdge(EdgeOf(ts, m, i), e);
      IsSharedIff(ts, e, false);
    }
  }

  /** An edge that only one triangle has is not recorded as shared by the intended test. */
  lemma BoundaryEdgeNotShared(ts: seq<Triangle>, e: Edge)
    requires IsBoundaryEdge(ts, e)
    ensures !IsShared(ts, e, false)
  {
    IsSharedIff(ts, e, false);
    forall m, n, i, j | 0 <= m < |ts| && 0 <= n < |ts| && 0 <= i < 3 && 0 <= j < 3 &&
      Hit(ts, m, n, i, j, false)
      ensures !SameEdge(EdgeOf(ts, m, i), e)
    {
      SameEdgeIsEquivalence();
      EdgeOfCovers(ts, m, i, e);
      EdgeOfCovers(ts, n, j, e);
    }
  }

  /** A triangle whose edge i is the same edge as `e` has `e`. */
  lemma EdgeOfCovers(ts: seq<Triangle>, m: nat, i: nat, e: Edge)
    requires m < |ts| && i < 3
    ensures SameEdge(EdgeOf(ts, m, i), e) ==> Covers(ts[m].Edges(), e)
  {
    assert ts[m].Edges()[i] == EdgeOf(ts, m, i);
  }

  /** One more value of j adds edge i of m exactly when the innermost test fires for it. */
  lemma AddedInRowStep(ts: seq<Triangle>, m: nat, n: nat, i: nat, j: nat, e: Edge, asWritten: bool)
    requires m < |ts| && n < |ts| && i < 3 && j < 3
    ensures AddedInRow(ts, m, n, i, j + 1, e, asWritten) <==>
      AddedInRow(ts, m, n, i, j, e, asWritten) ||
      (Hit(ts, m, n, i, j, asWritten) && SameEdge(EdgeOf(ts, m, i), e))
  {
  }

  /**
   * The two innermost loops of `step_2` for one pair (m, n) that passes the
   * intended test: every edge of m that overlaps an edge of n is added.
   */
  method AddSharedOfPair(ts: seq<Triangle>, m: nat, n: nat, sharedEdges: UniqueEdgeList)
    requires m < |ts| && n < |ts| && sharedEdges.Valid()
    modifies sharedEdges
    ensures sharedEdges.Valid()
    ensures forall e :: Covers(sharedEdges.edgeList, e) <==>
      Covers(old(sharedEdges.edgeList), e) || AddedInPair(ts, m, n, 3, e, false)
  {
    if m != n {
      for i := 0 to 3
        invariant sharedEdges.Valid()
        invariant forall e :: Covers(sharedEdges.edgeList, e) <==>
          Covers(old(sharedEdges.edgeList), e) || AddedInPair(ts, m, n, i, e, false)
      {
        for j := 0 to 3
          invariant sharedEdges.Valid()
          invariant forall e :: Covers(sharedEdges.edgeList, e) <==>
            Covers(old(sharedEdges.edgeList), e) || AddedInPair(ts, m, n, i, e, false) ||
            AddedInRow(ts, m, n, i, j, e, false)
        {
          if SameEdge(ts[m].Edges()[i], ts[n].Edges()[j]) {
            var _ := sharedEdges.Add(ts[m].Edges()[i]);
          }
          forall e ensures AddedInRow(ts, m, n, i, j + 1, e, false) <==>
            AddedInRow(ts, m, n, i, j, e, false) ||
            (Hit(ts, m, n, i, j, false) && SameEdge(EdgeOf(ts, m, i), e))
          {
            AddedInRowStep(ts, m, n, i, j, e, false);
          }
        }
      }
    }
  }

  /** The pairing loops of `step_2` over one face: a fresh `shared_edges` covering exactly the shared edges. */
  method SharedEdgesOf(ts: seq<Triangle>) returns (sharedEdges: UniqueEdgeList)
    ensures fresh(sharedEdges) && sharedEdges.Valid()
    ensures forall e :: Covers(sharedEdges.edgeList, e) <==> IsShared(ts, e, false)
  {
    sharedEdges := new UniqueEdgeList();
    for m := 0 to |ts|
      invariant fresh(sharedEdges) && sharedEdges.Valid()
      invariant forall e :: Covers(sharedEdges.edgeList, e) <==> AddedBefore(ts, m, e, false)
    {
      for n := 0 to |ts|
        invariant fresh(sharedEdges) && sharedEdges.Valid()
        invariant forall e :: Covers(sharedEdges.edgeList, e) <==>
          AddedBefore(ts, m, e, false) || AddedForTriangle(ts, m, n, e, false)
      {
        AddSharedOfPair(ts, m, n, sharedEdges);
      }
    }
  }

  /**
   * `step_2(faces)`: for each face, records its shared edges in a fresh
   * `UniqueEdgeList` and returns `set_difference(face.get_edges(), shared_edges)`.
   * The `m is not n` test is modelled as `m != n`.
   */
  method Step2(faces: seq<Face>) returns (output: seq<UniqueEdgeList>)
    ensures |output| == |faces|
    ensures forall k | 0 <= k < |faces| ::
      fresh(output[k]) && output[k].Valid() && output[k].edgeList == Boundary(faces[k].triangles, false)
    ensures forall k, l | 0 <= k < l < |output| :: output[k] != output[l]
  {
    output := [];
    for k := 0 to |faces|
      invariant |output| == k
      invariant forall l | 0 <= l < k ::
        fresh(output[l]) && output[l].Valid() && output[l].edgeList == Boundary(faces[l].triangles, false)
      invariant forall l, l' | 0 <= l < l' < k :: output[l] != output[l']
    {
      var face := faces[k];
      var sharedEdges := SharedEdgesOf(face.triangles);
      var allEdgesInFace := face.GetEdges();
      var boundary := UniqueEdgeList.SetDifference(allEdgesInFace, sharedEdges);
      SharedListCovers(face.triangles, false);
      DifferenceCongruent(allEdgesInFace, sharedEdges.edgeList, SharedList(face.triangles, false));
      // The running index and the placeholder list the source appends amount to appending the difference.
      output := output + [boundary];
    }
  }

  /** Triangle k of the counterexample face: corners (k, 0, 0), (k, 1, 0), (k, 0, 1). */
  function Slab(k: int): (t: Triangle) {
    var a, b, c := Vec3(k as real, 0.0, 0.0), Vec3(k as real, 1.0, 0.0), Vec3(k as real, 0.0, 1.0);
    Triangle(EdgeBetween(a, b), EdgeBetween(b, c), EdgeBetween(c, a), Vec3(1.0, 0.0, 0.0))
  }

  /** A face of 258 triangles, each in its own plane x = k, so no two of them share an edge. */
  function SlabFace(): (ts: seq<Triangle>)
    ensures |ts| == 258 && forall k | 0 <= k < 258 :: ts[k] == Slab(k)
  {
    seq(258, (k: int) => Slab(k))
  }

  /** The first edge of triangle 257 of the slab face belongs to that triangle alone. */
  lemma SlabEdgeIsBoundary()
    ensures IsBoundaryEdge(SlabFace(), Slab(257).edge1)
  {
    var ts, e := SlabFace(), Slab(257).edge1;
    forall n | 0 <= n < |ts| && n != 257 ensures !Covers(ts[n].Edges(), e) {
      assert ts[n] == Slab(n);
    }
    assert SameEdge(ts[257].Edges()[0], e);
  }

  /** Read as written, the pairing loop compares triangle 257 with itself and records its first edge. */
  lemma SlabEdgeSharedAsWritten()
    ensures IsShared(SlabFace(), Slab(257).edge1, true)
  {
    var ts, e := SlabFace(), Slab(257).edge1;
    IsSharedIff(ts, e, true);
    assert Hit(ts, 257, 257, 0, 0, true) && SameEdge(EdgeOf(ts, 257, 0), e);
  }

  /** The result of step 2 covers an edge of the face exactly when the edge is not recorded as shared. */
  lemma BoundaryCovers(ts: seq<Triangle>, e: Edge, asWritten: bool)
    ensures Covers(Boundary(ts, asWritten), e) <==> Covers(AllEdges(ts), e) && !IsShared(ts, e, asWritten)
  {
    SharedListCovers(ts, asWritten);
  }

  /**
   * As written, `step_2` drops a boundary edge of a face of 258 triangles:
   * the first edge of triangle 257 belongs to no other triangle, yet triangle
   * 257 is compared with itself and the edge is recorded as shared.
   */
  lemma AsWrittenDropsBoundaryEdge()
    ensures IsBoundaryEdge(SlabFace(), Slab(257).edge1)
    ensures Covers(Boundary(SlabFace(), false), Slab(257).edge1)
    ensures !Covers(Boundary(SlabFace(), true), Slab(257).edge1)
  {
    SlabEdgeIsBoundary();
    BoundaryIsOutline(SlabFace());
    SlabEdgeSharedAsWritten();
    BoundaryCovers(SlabFace(), Slab(257).edge1, true);
  }
}
