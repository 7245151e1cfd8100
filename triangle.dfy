/** Triangles as three edges in winding order plus a normal, and the faces that group them. */
module Triangles {
  import opened Geometry
  import opened UniqueEdges

  /** `Triangle(edge_1, edge_2, edge_3, normal=normal)`; `edges[i]` is edge number i + 1. */
  datatype Triangle = Triangle(edge1: Edge, edge2: Edge, edge3: Edge, normal: Vec3) {
    function Edges(): (es: seq<Edge>) { [edge1, edge2, edge3] }
  }

  /** The three edges form a closed 3-cycle: each edge ends where the next one begins. */
  predicate IsClosedCycle(t: Triangle) {
    t.edge1.End() == t.edge2.Start() &&
    t.edge2.End() == t.edge3.Start() &&
    t.edge3.End() == t.edge1.Start()
  }

  /** The corners of a triangle in winding order: the start of each edge. */
  function Vertices(t: Triangle): (vs: seq<Vec3>) {
    [t.edge1.Start(), t.edge2.Start(), t.edge3.Start()]
  }

  /** All edges of all triangles, triangle by triangle, in edge order (`Face.get_edges`). */
  function AllEdges(ts: seq<Triangle>): (r: seq<Edge>)
    ensures |r| == 3 * |ts|
    ensures forall x :: x in r <==> exists m | 0 <= m < |ts| :: x in ts[m].Edges()
    ensures forall x :: Covers(r, x) <==> exists m | 0 <= m < |ts| :: Covers(ts[m].Edges(), x)
  {
    if ts == [] then []
    else
      var rest := AllEdges(ts[1..]);
      var r := ts[0].Edges() + rest;
      assert forall m | 1 <= m < |ts| :: ts[m] == ts[1..][m - 1];
      assert forall x :: Covers(r, x) <==> Covers(ts[0].Edges(), x) || Covers(rest, x) by {
        forall x ensures Covers(r, x) <==> Covers(ts[0].Edges(), x) || Covers(rest, x) {
          if Covers(r, x) {
            var k :| 0 <= k < |r| && SameEdge(r[k], x);
            if k >= 3 { assert rest[k - 3] == r[k]; } else { assert ts[0].Edges()[k] == r[k]; }
          }
          if Covers(ts[0].Edges(), x) {
            var k :| 0 <= k < 3 && SameEdge(ts[0].Edges()[k], x);
            assert r[k] == ts[0].Edges()[k];
          }
          if Covers(rest, x) {
            var k :| 0 <= k < |rest| && SameEdge(rest[k], x);
            assert r[k + 3] == rest[k];
          }
        }
      }
      r
  }
}

module Faces {
  import opened Geometry
  import opened Triangles

  /** A face's triangles match a normal when the first of them has exactly that normal. */
  predicate MatchesNormal(triangles: seq<Triangle>, normal: Vec3) {
    |triangles| > 0 && triangles[0].normal == normal
  }

  /** A group of triangles believed to lie in one plane; `add_triangle` grows it in place. */
  class Face {
    var triangles: seq<Triangle>

    constructor (triangles: seq<Triangle>)
      ensures this.triangles == triangles
    {
      this.triangles := triangles;
    }

    /** `match_normal`: exact comparison with the normal of the face's first triangle. */
    predicate MatchNormal(normal: Vec3): (b: bool)
      reads this
      ensures b ==> |triangles| > 0
      ensures |triangles| > 0 ==> (b <==> triangles[0].normal == normal)
    {
      MatchesNormal(triangles, normal)
    }

    /** `add_triangle`: appends the triangle; the face's normal, that of its first triangle, does not change. */
    method AddTriangle(t: Triangle)
      modifies this
      ensures triangles == old(triangles) + [t]
      ensures |old(triangles)| > 0 ==> triangles[0] == old(triangles)[0]
    {
      triangles := triangles + [t];
    }

    function GetEdges(): (es: seq<Edge>)
      reads this
    {
      AllEdges(triangles)
    }
  }

  /** Appending to a non-empty face does not change which normals it matches. */
  lemma AddKeepsMatch(triangles: seq<Triangle>, t: Triangle, normal: Vec3)
    requires |triangles| > 0
    ensures MatchesNormal(triangles + [t], normal) <==> MatchesNormal(triangles, normal)
  {
    assert (triangles + [t])[0] == triangles[0];
  }
}
