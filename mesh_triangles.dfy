/** `MeshTriangulation.get_mesh_triangles`: one triangle per mesh facet. */
module MeshTriangles {
  import opened Geometry
  import opened Triangles

  /** One entry of the mesh data: the facet normal and its three vertices in winding order. */
  datatype Facet = Facet(normal: Vec3, v1: Vec3, v2: Vec3, v3: Vec3)

  /** The triangle built from one facet: edges v1->v2, v2->v3, v3->v1 and the facet's normal. */
  function FacetTriangle(f: Facet): (t: Triangle)
    ensures IsClosedCycle(t)
    ensures Vertices(t) == [f.v1, f.v2, f.v3]
    ensures t.normal == f.normal
  {
    Triangle(EdgeBetween(f.v1, f.v2), EdgeBetween(f.v2, f.v3), EdgeBetween(f.v3, f.v1), f.normal)
  }

  /** The facet a triangle stands for: its corners in winding order and its normal. */
  function TriangleFacet(t: Triangle): (f: Facet) {
    var v := Vertices(t);
    Facet(t.normal, v[0], v[1], v[2])
  }

  /** A closed triangle is exactly the triangle of its own facet, so no information is lost either way. */
  lemma FacetTriangleRoundTrip(f: Facet, t: Triangle)
    ensures TriangleFacet(FacetTriangle(f)) == f
    ensures IsClosedCycle(t) ==> FacetTriangle(TriangleFacet(t)) == t
  {
  }

  /** `get_mesh_triangles`: appends the triangle of every facet, in facet order. */
  method GetMeshTriangles(mesh: seq<Facet>) returns (meshTriangles: seq<Triangle>)
    ensures |meshTriangles| == |mesh|
    ensures forall k | 0 <= k < |mesh| :: meshTriangles[k] == FacetTriangle(mesh[k])
    ensures forall k | 0 <= k < |mesh| :: IsClosedCycle(meshTriangles[k]) && TriangleFacet(meshTriangles[k]) == mesh[k]
  {
    meshTriangles := [];
    for k := 0 to |mesh|
      invariant |meshTriangles| == k
      invariant forall j | 0 <= j < k :: meshTriangles[j] == FacetTriangle(mesh[j])
    {
      var data := mesh[k];
      var edge1 := EdgeBetween(data.v1, data.v2);
      var edge2 := EdgeBetween(data.v2, data.v3);
      var edge3 := EdgeBetween(data.v3, data.v1);
      meshTriangles := meshTriangles + [Triangle(edge1, edge2, edge3, data.normal)];
    }
  }
}
