/**
 * `MeshTriangulation.step_3` and `_step_3_recursive`: two different edges of
 * an outline that meet at a vertex and are parallel or anti-parallel are
 * replaced, in place, by one edge joining their far endpoints, until no such
 * pair is left.
 *
 * `_step_3_recursive` scans every (edge_outer, edge_inner) pair, merges the
 * first mergeable pair and calls itself again. This module models the intended
 * behaviour: the loop "find the first mergeable pair in scan order, merge it,
 * repeat", which stops at a fixed point. As written, each caller resumes its
 * scan after the recursive call returns, still holding the `edge_outer` it has
 * already removed; module `ChainAsWritten` models that and shows it either
 * ends at the same fixed point or raises `ValueError`.
 */
module ChainSimplification {
  import opened Wrappers
  import opened Geometry
  import opened UniqueEdges

  /** The merge condition: different edges, a shared vertex, and parallel or anti-parallel directions. */
  predicate Mergeable(inner: Edge, outer: Edge): (b: bool)
    ensures b <==> (!SameEdge(inner, outer) && ParallelOrAntiParallel(inner, outer) &&
                    exists v :: IsEndpoint(inner, v) && IsEndpoint(outer, v))
  {
    assert IsEndpoint(inner, inner.Start()) && IsEndpoint(inner, inner.End());
    !SameEdge(inner, outer) && SharedVertex(inner, outer).Some? && ParallelOrAntiParallel(inner, outer)
  }

  /**
   * The merge test sees edge_outer only as an undirected edge: replacing it by
   * the same edge, in either direction, does not change the outcome.
   */
  lemma MergeableCongruent(inner: Edge, outer: Edge, outer2: Edge)
    requires SameEdge(outer, outer2)
    ensures Mergeable(inner, outer) <==> Mergeable(inner, outer2)
  {
    SameEdgeIsEquivalence();
    var d, d2, e := outer.Direction(), outer2.Direction(), inner.Direction();
    if outer.Start() != outer2.Start() {
      assert d2 == Vec3(-d.x, -d.y, -d.z);
      assert Cross(e, d2) == Vec3(-Cross(e, d).x, -Cross(e, d).y, -Cross(e, d).z);
    }
  }

  /**
   * The edge that replaces a merged pair: it starts at the endpoint of `inner`
   * that is not the shared vertex and ends at the endpoint of `outer` that is
   * not. With the shared vertex, its start makes up the endpoints of `inner`
   * and its end makes up those of `outer`.
   */
  function MergedEdge(inner: Edge, outer: Edge): (r: Edge)
    requires SharedVertex(inner, outer).Some?
    ensures var v := SharedVertex(inner, outer).value;
      {r.Start(), v} == {inner.Start(), inner.End()} && {r.End(), v} == {outer.Start(), outer.End()}
  {
    var v := SharedVertex(inner, outer).value;
    var start := if inner.Start() == v then inner.End() else inner.Start();
    var end := if outer.Start() == v then outer.End() else outer.Start();
    EdgeBetween(start, end)
  }

  /** Merging does not bend the outline: the new edge lies along the direction of both merged edges. */
  lemma MergedEdgeIsCollinear(inner: Edge, outer: Edge)
    requires Mergeable(inner, outer)
    ensures ParallelOrAntiParallel(MergedEdge(inner, outer), inner)
    ensures ParallelOrAntiParallel(MergedEdge(inner, outer), outer)
  {
    var v := SharedVertex(inner, outer).value;
    var d1, d2 := inner.Direction(), outer.Direction();
    // The far endpoints sit at v + s1 * d1 and v + s2 * d2 with s1, s2 in {1, -1}.
    var s1: real := if inner.Start() == v then 1.0 else -1.0;
    var s2: real := if outer.Start() == v then 1.0 else -1.0;
    var m := MergedEdge(inner, outer);
    assert m.Direction() == Vec3(s2 * d2.x - s1 * d1.x, s2 * d2.y - s1 * d1.y, s2 * d2.z - s1 * d1.z);
    CrossOfCombination(d1, d2, s1, s2);
  }

  /** With d1 x d2 = 0, any combination s2 * d2 - s1 * d1 is parallel to both d1 and d2. */
  lemma CrossOfCombination(d1: Vec3, d2: Vec3, s1: real, s2: real)
    requires Cross(d1, d2) == Origin
    ensures var c := Vec3(s2 * d2.x - s1 * d1.x, s2 * d2.y - s1 * d1.y, s2 * d2.z - s1 * d1.z);
      Cross(c, d1) == Origin && Cross(c, d2) == Origin
  {
    var c := Vec3(s2 * d2.x - s1 * d1.x, s2 * d2.y - s1 * d1.y, s2 * d2.z - s1 * d1.z);
    assert c.y * d1.z - c.z * d1.y == -s2 * (d1.y * d2.z - d1.z * d2.y) - s1 * (d1.y * d1.z - d1.z * d1.y);
    assert c.z * d1.x - c.x * d1.z == -s2 * (d1.z * d2.x - d1.x * d2.z) - s1 * (d1.z * d1.x - d1.x * d1.z);
    assert c.x * d1.y - c.y * d1.x == -s2 * (d1.x * d2.y - d1.y * d2.x) - s1 * (d1.x * d1.y - d1.y * d1.x);
    assert c.y * d2.z - c.z * d2.y == s2 * (d2.y * d2.z - d2.z * d2.y) - s1 * (d1.y * d2.z - d1.z * d2.y);
    assert c.z * d2.x - c.x * d2.z == s2 * (d2.z * d2.x - d2.x * d2.z) - s1 * (d1.z * d2.x - d1.x * d2.z);
    assert c.x * d2.y - c.y * d2.x == s2 * (d2.x * d2.y - d2.y * d2.x) - s1 * (d1.x * d2.y - d1.y * d2.x);
  }

  /** No pair scanned before (o, i) -- outer index first, then inner index -- is mergeable. */
  ghost predicate NoMergeBefore(s: seq<Edge>, o: int, i: int) {
    forall p, q | 0 <= p < |s| && 0 <= q < |s| && (p < o || (p == o && q < i)) :: !Mergeable(s[q], s[p])
  }

  /** No two edges of `s` can be merged: the fixed point `_step_3_recursive` stops at. */
  ghost predicate IsFixedPoint(s: seq<Edge>) {
    forall p, q | 0 <= p < |s| && 0 <= q < |s| :: !Mergeable(s[q], s[p])
  }

  /** (o, i) is the first mergeable pair the scan meets: `s[o]` is edge_outer and `s[i]` is edge_inner. */
  ghost predicate IsFirstMerge(s: seq<Edge>, o: int, i: int) {
    0 <= o < |s| && 0 <= i < |s| && Mergeable(s[i], s[o]) && NoMergeBefore(s, o, i)
  }

  /** The scan continued from (o, i). */
  ghost function FirstMergeFrom(s: seq<Edge>, o: nat, i: nat): (r: Option<(nat, nat)>)
    requires o <= |s| && i <= |s| && NoMergeBefore(s, o, i)
    ensures r.None? ==> IsFixedPoint(s)
    ensures r.Some? ==> IsFirstMerge(s, r.value.0, r.value.1)
    decreases |s| - o, |s| - i
  {
    if o == |s| then None
    else if i == |s| then FirstMergeFrom(s, o + 1, 0)
    else if Mergeable(s[i], s[o]) then Some((o, i))
    else FirstMergeFrom(s, o, i + 1)
  }

  ghost function FirstMerge(s: seq<Edge>): (r: Option<(nat, nat)>)
    ensures r.None? <==> IsFixedPoint(s)
    ensures r.Some? ==> IsFirstMerge(s, r.value.0, r.value.1)
  {
    FirstMergeFrom(s, 0, 0)
  }

  /** The first mergeable pair is unique. */
  lemma FirstMergeUnique(s: seq<Edge>, o: int, i: int)
    requires IsFirstMerge(s, o, i)
    ensures FirstMerge(s) == Some((o, i))
  {
    var p := FirstMerge(s).value;
    assert !(p.0 < o || (p.0 == o && p.1 < i));
    assert !(o < p.0 || (o == p.0 && i < p.1));
  }

  /**
   * One merge as `_step_3_recursive` performs it: `edge_list.remove(edge_outer)`,
   * `edge_list.remove(edge_inner)`, then `add` of the merged edge. Both removes
   * succeed when `edge_outer` is in the list and `edge_inner` is too.
   */
  function Merged(s: seq<Edge>, outer: Edge, inner: Edge): (r: seq<Edge>)
    requires outer in s && inner in s && Mergeable(inner, outer)
    ensures |r| < |s|
  {
    assert SameEdge(outer, outer);
    var rest := RemoveFirst(RemoveFirst(s, outer), inner);
    Inserted(rest, MergedEdge(inner, outer))
  }

  /** The merge of the pair at positions o (edge_outer) and i (edge_inner). */
  function MergeAt(s: seq<Edge>, o: nat, i: nat): (r: seq<Edge>)
    requires o < |s| && i < |s| && Mergeable(s[i], s[o])
    ensures |r| < |s|
  {
    Merged(s, s[o], s[i])
  }

  /** The outline after `_step_3_recursive`: merges of first mergeable pairs until none is left. */
  ghost function Simplified(s: seq<Edge>): (r: seq<Edge>)
    ensures IsFixedPoint(r)
    ensures |r| <= |s|
    ensures NoDuplicateEdges(s) ==> NoDuplicateEdges(r)
    decreases |s|
  {
    match FirstMerge(s)
    case None => s
    case Some(p) => Simplified(MergeAt(s, p.0, p.1))
  }

  /** An outline is left as it is exactly when it is already a fixed point. */
  lemma SimplifiedUnchangedIff(s: seq<Edge>)
    ensures Simplified(s) == s <==> IsFixedPoint(s)
  {
  }

  /** Simplifying twice is simplifying once. */
  lemma SimplifiedIdempotent(s: seq<Edge>)
    ensures Simplified(Simplified(s)) == Simplified(s)
  {
    SimplifiedUnchangedIff(Simplified(s));
  }

  /** `s` with the entries at two different positions deleted, the others kept in order. */
  function WithoutTwo(s: seq<Edge>, a: nat, b: nat): (r: seq<Edge>)
    requires a < |s| && b < |s| && a != b
    ensures |r| == |s| - 2
    ensures forall k | 0 <= k < |s| && k != a && k != b :: s[k] in r
  {
    var lo, hi := if a < b then a else b, if a < b then b else a;
    var r := s[..lo] + s[lo + 1..hi] + s[hi + 1..];
    assert forall k | 0 <= k < lo :: r[k] == s[k];
    assert forall k | lo < k < hi :: r[k - 1] == s[k];
    assert forall k | hi < k < |s| :: r[k - 2] == s[k];
    r
  }

  /**
   * Each merge removes exactly the two merged edges, keeps every other edge in
   * its order, adds the merged edge unless an equal edge is already there, and
   * keeps the list free of duplicates.
   */
  lemma MergeStep(s: seq<Edge>, o: nat, i: nat)
    requires NoDuplicateEdges(s)
    requires o < |s| && i < |s| && Mergeable(s[i], s[o])
    ensures o != i
    ensures MergeAt(s, o, i) == Inserted(WithoutTwo(s, o, i), MergedEdge(s[i], s[o]))
    ensures forall k | 0 <= k < |s| && k != o && k != i :: s[k] in MergeAt(s, o, i)
    ensures Covers(MergeAt(s, o, i), MergedEdge(s[i], s[o]))
    ensures NoDuplicateEdges(MergeAt(s, o, i))
  {
    assert SameEdge(s[o], s[o]);
    RemoveBoth(s, o, i);
  }

  /** Removing edge_outer and then edge_inner deletes exactly their two positions. */
  lemma RemoveBoth(s: seq<Edge>, o: nat, i: nat)
    requires NoDuplicateEdges(s)
    requires o < |s| && i < |s| && o != i
    ensures s[i] in RemoveFirst(s, s[o])
    ensures RemoveFirst(RemoveFirst(s, s[o]), s[i]) == WithoutTwo(s, o, i)
  {
    RemoveFirstOfUnique(s, o);
    var s1 := s[..o] + s[o + 1..];
    var i1 := if i < o then i else i - 1;
    assert s1[i1] == s[i];
    NoDuplicatesAfterDelete(s, o);
    RemoveFirstOfUnique(s1, i1);
    DeleteTwice(s, o, i);
  }

  /** Deleting position o and then the position that i has moved to leaves `WithoutTwo(s, o, i)`. */
  lemma DeleteTwice(s: seq<Edge>, o: nat, i: nat)
    requires o < |s| && i < |s| && o != i
    ensures var s1, i1 := s[..o] + s[o + 1..], if i < o then i else i - 1;
      s1[..i1] + s1[i1 + 1..] == WithoutTwo(s, o, i)
  {
    var s1 := s[..o] + s[o + 1..];
    if o < i {
      assert s1[..i - 1] == s[..o] + s[o + 1..i];
      assert s1[i..] == s[i + 1..];
    } else {
      assert s1[..i] == s[..i];
      assert s1[i + 1..] == s[i + 1..o] + s[o + 1..];
    }
  }

  /** In a list without duplicates, `list.remove(s[k])` deletes position k. */
  lemma RemoveFirstOfUnique(s: seq<Edge>, k: nat)
    requires NoDuplicateEdges(s) && k < |s|
    ensures RemoveFirst(s, s[k]) == s[..k] + s[k + 1..]
  {
    IndexOfAtMost(s, k);
    assert SameEdge(s[k], s[k]);
  }

  /**
   * The search of `_step_3_recursive`: for edge_outer in the list, for
   * edge_inner in the list, the first pair that can be merged.
   */
  method FindMergePair(s: seq<Edge>) returns (found: bool, o: nat, i: nat)
    ensures found ==> IsFirstMerge(s, o, i)
    ensures !found ==> IsFixedPoint(s)
  {
    for p := 0 to |s|
      invariant NoMergeBefore(s, p, 0)
    {
      for q := 0 to |s|
        invariant NoMergeBefore(s, p, q)
      {
        if Mergeable(s[q], s[p]) {
          return true, p, q;
        }
      }
    }
    return false, 0, 0;
  }

  /** `_step_3_recursive(outline_edge_group)`: merges in place until the outline is a fixed point. */
  method Step3Recursive(outlineEdgeGroup: UniqueEdgeList)
    requires outlineEdgeGroup.Valid()
    modifies outlineEdgeGroup
    ensures outlineEdgeGroup.Valid()
    ensures outlineEdgeGroup.edgeList == Simplified(old(outlineEdgeGroup.edgeList))
  {
    while true
      invariant outlineEdgeGroup.Valid()
      invariant Simplified(outlineEdgeGroup.edgeList) == Simplified(old(outlineEdgeGroup.edgeList))
      decreases |outlineEdgeGroup.edgeList|
    {
      var edges := outlineEdgeGroup.edgeList;
      var found, o, i := FindMergePair(edges);
      if !found {
        return;
      }
      FirstMergeUnique(edges, o, i);
      MergeStep(edges, o, i);
      var edgeOuter, edgeInner := edges[o], edges[i];
      var sharedVertex := SharedVertex(edgeInner, edgeOuter).value;
      var startVertex := edgeInner.Start();
      if edgeInner.Start() == sharedVertex {
        startVertex := edgeInner.End();
      }
      var endVertex := edgeOuter.Start();
      if edgeOuter.Start() == sharedVertex {
        endVertex := edgeOuter.End();
      }
      assert SameEdge(edgeOuter, edgeOuter);
      outlineEdgeGroup.edgeList := RemoveFirst(outlineEdgeGroup.edgeList, edgeOuter);
      outlineEdgeGroup.edgeList := RemoveFirst(outlineEdgeGroup.edgeList, edgeInner);
      var _ := outlineEdgeGroup.Add(EdgeBetween(startVertex, endVertex));
      assert outlineEdgeGroup.edgeList == MergeAt(edges, o, i);
    }
  }

  /**
   * `step_3(grouped_edges)`: simplifies every group in place and returns the
   * same group objects, in order. A group object listed twice is simplified
   * twice, which changes nothing the second time.
   */
  method Step3(groupedEdges: seq<UniqueEdgeList>) returns (output: seq<UniqueEdgeList>)
    requires forall k | 0 <= k < |groupedEdges| :: groupedEdges[k].Valid()
    modifies set k | 0 <= k < |groupedEdges| :: groupedEdges[k]
    ensures output == groupedEdges
    ensures forall k | 0 <= k < |groupedEdges| ::
      groupedEdges[k].Valid() && groupedEdges[k].edgeList == Simplified(old(groupedEdges[k].edgeList))
  {
    output := [];
    // The group objects already simplified by an earlier iteration.
    ghost var done: set<UniqueEdgeList> := {};
    for k := 0 to |groupedEdges|
      invariant output == groupedEdges[..k]
      invariant forall j | 0 <= j < k :: groupedEdges[j] in done
      invariant forall j | 0 <= j < |groupedEdges| :: groupedEdges[j].Valid()
      invariant forall j | 0 <= j < |groupedEdges| ::
        groupedEdges[j].edgeList ==
          if groupedEdges[j] in done then Simplified(old(groupedEdges[j].edgeList)) else old(groupedEdges[j].edgeList)
    {
      var outlineEdgeGroup := groupedEdges[k];
      ghost var was := old(outlineEdgeGroup.edgeList);
      SimplifiedIdempotent(was);
      Step3Recursive(outlineEdgeGroup);
      done := done + {outlineEdgeGroup};
      output := output + [outlineEdgeGroup];
    }
  }
}
