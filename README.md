# Mesh triangulation: from STL facets to simplified face outlines

This project models the first half of the mesh-to-outline pipeline in
`MeshTriangulation` (`src/model_conversion/mesh_triangulation.py`) and proves
what each step promises:

1. `get_mesh_triangles` turns each mesh facet into a `Triangle` with three
   edges in winding order and the facet's normal (`MeshTriangles`).
2. `group_triangles_by_normals` partitions the triangles into `Face` groups.
   Each triangle joins the first face whose normal matches its own, and opens a
   new face when none does (`NormalGrouping`).
3. `step_2` removes shared edges. For every face it collects the edges that
   some other triangle of the face also has (intended `m != n`, see Findings),
   then returns the set difference of all the face's edges minus those
   (`BoundaryExtraction`).
4. `step_3` / `_step_3_recursive` simplify collinear chains. Two different
   edges of an outline that share a vertex and are parallel or anti-parallel
   are replaced, in place, by one edge joining their far endpoints, until no
   such pair is left (`ChainSimplification`).

The helpers `Edge`, `UniqueEdgeList`, `Triangle` and `Face` are imported by the
source but their files are not part of this model. They are modelled from how
`mesh_triangulation.py` uses them:

- **Edge.** An edge is six coordinates (`Geometry.Edge`). `same_edge` and
  `are_overlapping_edges` are both undirected endpoint equality
  (`Geometry.SameEdge`).
- **Shared vertex.** `has_shared_vertex(a, b)` returns the start of `a` when it
  is an endpoint of `b`, otherwise the end of `a` when it is, otherwise None.
- **Parallel.** `are_parallel_or_anti_parallel` holds when the cross product of
  the two directions is the zero vector.
- **UniqueEdgeList.** A class holding `edge_list` with the invariant that no
  two entries are the same undirected edge. `add` appends an edge unless an
  entry already covers it, and reports whether it appended.
- **set_difference(a, b).** A fresh list of the edges of `a`, in order, that no
  edge of `b` covers, each kept once.
- **Face.** A class holding `triangles`. `match_normal` compares exactly with
  the normal of the first triangle; `get_edges` lists every triangle's three
  edges, triangle by triangle.

The source compares coordinates exactly (`==` on floats), so coordinates are
`real` and compared exactly.

The model keeps the source's imperative form:

- `get_mesh_triangles` and `step_2` are loops appending to a list.
- `group_triangles_by_normals` keeps the `group_match` flag and the `break`,
  and builds `Face` objects that `AddTriangle` grows in place.
- `step_2` runs its four nested index loops over a `UniqueEdgeList` object.
- `_step_3_recursive` removes and adds entries of the group's `edgeList` in
  place.
- `step_3` simplifies every group object in place and returns the same
  objects.

Each method is proved against a specification function (`Grouped`,
`Boundary`, `Simplified`), and lemmas prove what the source promises about
those functions.

`_step_3_recursive` scans every (edge_outer, edge_inner) pair, merges the first
mergeable pair and calls itself. Its callers do not stop after the recursive
call: Python's `for` walks the changed list by index, so each caller resumes
its scan at the next index, still holding the `edge_outer` it has already
removed. `ChainAsWritten` models exactly that. It proves that the code as
written either ends at the fixed point the intended loop reaches or raises
`ValueError`, and that it raises on a square whose bottom side is split in two
(see Findings). `ChainSimplification` models the behaviour the docstring of
`step_3` describes: the loop "find the first mergeable pair in scan order,
merge, repeat", with the length of the list as the termination measure.
`Step3Recursive` and `Step3` are proved against that loop.

## Model

| member | source | states |
|---|---|---|
| MeshTriangles.FacetTriangle | src/model_conversion/mesh_triangulation.py:48-55 | the triangle of a facet is a closed 3-cycle whose corners are v1, v2, v3 in winding order and whose normal is the facet's normal |
| MeshTriangles.FacetTriangleRoundTrip | src/model_conversion/mesh_triangulation.py:48-55 | facet to triangle to facet is the identity, and every closed triangle is the triangle of its own facet |
| MeshTriangles.GetMeshTriangles | src/model_conversion/mesh_triangulation.py:46-56 | exactly one triangle per facet, in facet order, each a closed 3-cycle that gives back its facet |
| Faces.Face.MatchNormal | src/model_conversion/mesh_triangulation.py:69 | `match_normal` holds only for a non-empty face, and then exactly when its first triangle's normal equals the given one |
| Faces.Face.AddTriangle | src/model_conversion/mesh_triangulation.py:71 | `add_triangle` appends the triangle at the end and keeps the face's first triangle, hence its normal |
| Faces.AddKeepsMatch | src/model_conversion/mesh_triangulation.py:69-71 | after adding a triangle to a non-empty face, the face matches exactly the normals it matched before |
| NormalGrouping.FirstMatch | src/model_conversion/mesh_triangulation.py:68-72 | the index found is the first group matching the normal; no group before it matches, and it is the group count when none matches |
| NormalGrouping.GroupTrianglesByNormals | src/model_conversion/mesh_triangulation.py:65-76 | the faces returned are distinct new objects holding exactly `Grouped(triangles)`, group by group |
| NormalGrouping.GroupedIsPartition | src/model_conversion/mesh_triangulation.py:65-76 | the groups partition the input by normal: each group is non-empty and holds exactly the triangles with its normal, in input order; no two groups share a normal; every triangle's normal has a group; the groups appear in order of their normal's first occurrence |
| NormalGrouping.PlacePreservesOrder | src/model_conversion/mesh_triangulation.py:67-75 | one turn of the outer loop (join the first matching face, or open a new one) keeps the partition and first-occurrence order |
| NormalGrouping.GroupedKeepsEveryTriangle | src/model_conversion/mesh_triangulation.py:65-76 | the groups laid end to end are a permutation of the input, so the grouped count equals the input length |
| NormalGrouping.GroupedExactlyOnce | src/model_conversion/mesh_triangulation.py:65-76 | every input triangle lies in exactly one group |
| Geometry.SameEdgeIffSameEndpoints | src/model_conversion/mesh_triangulation.py:137-138 | two edges overlap exactly when they have the same set of two endpoints |
| Geometry.SharedVertex | src/model_conversion/mesh_triangulation.py:167-169 | a vertex is returned exactly when an endpoint of the first edge lies on the second; the vertex is an endpoint of both |
| Geometry.ScaledDirectionIsParallel | src/model_conversion/mesh_triangulation.py:168 | edges whose directions are scalar multiples of each other, negative scalars included, are parallel or anti-parallel in both argument orders |
| Geometry.ParallelIsScaled | src/model_conversion/mesh_triangulation.py:168 | the converse: when the first edge has a non-zero direction and the cross-product test holds, the second edge's direction is a scalar multiple k of the first, so the test accepts only collinear directions |
| UniqueEdges.Inserted | src/model_conversion/mesh_triangulation.py:139 | after `add(e)` the list covers e and exactly what it covered before; it stays free of duplicates, extends the old list, and grows by at most one |
| UniqueEdges.UniqueEdgeList.Add | src/model_conversion/mesh_triangulation.py:139 | `add` reports true exactly when no entry covered the edge, and the new list is `Inserted(old, e)` |
| UniqueEdges.RemoveFirst | src/model_conversion/mesh_triangulation.py:187-188 | `list.remove(x)` deletes the first entry equal to x and keeps the other entries in order; the list shortens by one, other values keep their membership, and no duplicates are introduced |
| UniqueEdges.Difference | src/model_conversion/mesh_triangulation.py:144 | the difference covers exactly the edges covered by `a` and not by `b`; its entries come from `a`, with no duplicates |
| UniqueEdges.DifferenceCongruent | src/model_conversion/mesh_triangulation.py:144 | the difference depends on `b` only through which edges `b` covers |
| UniqueEdges.UniqueEdgeList.SetDifference | src/model_conversion/mesh_triangulation.py:144 | `set_difference` returns a new valid list whose entries are `Difference(a, b.edge_list)` |
| Triangles.AllEdges | src/model_conversion/mesh_triangulation.py:143 | `get_edges` lists three edges per triangle; an edge is listed (or covered) exactly when some triangle has (or covers) it |
| BoundaryExtraction.IsSharedIff | src/model_conversion/mesh_triangulation.py:130-139 | an edge ends up in `shared_edges` exactly when some edge i of a triangle m overlaps some edge j of a triangle n that passes the `m is not n` test, and edge i is that edge |
| BoundaryExtraction.AddSharedOfPair | src/model_conversion/mesh_triangulation.py:132-139 | the i/j loops for one pair add exactly the edges of m that overlap an edge of n, and nothing when m == n (intended `m != n`, see Findings) |
| BoundaryExtraction.SharedEdgesOf | src/model_conversion/mesh_triangulation.py:128-139 | at the end of the m/n loops, `shared_edges` covers exactly the shared edges (intended `m != n`, see Findings) |
| BoundaryExtraction.SharedListCovers | src/model_conversion/mesh_triangulation.py:128-139 | the specification list of shared edges covers exactly the shared edges |
| BoundaryExtraction.BoundaryCovers | src/model_conversion/mesh_triangulation.py:141-144 | a face's result covers an edge exactly when the face has it and it is not shared |
| BoundaryExtraction.TwoTrianglesShare | src/model_conversion/mesh_triangulation.py:130-139 | an edge that two different triangles of the face have is recorded as shared |
| BoundaryExtraction.BoundaryEdgeNotShared | src/model_conversion/mesh_triangulation.py:130-139 | an edge that only one triangle has is not recorded as shared (intended `m != n`, see Findings) |
| BoundaryExtraction.BoundaryIsOutline | src/model_conversion/mesh_triangulation.py:130-144 | soundness and completeness: a face's result covers an edge exactly when exactly one triangle of the face has it; every entry is an edge of the face, with no duplicates |
| BoundaryExtraction.Step2 | src/model_conversion/mesh_triangulation.py:122-146 | one new valid edge list per face, at the face's index, each equal to `Boundary` of that face's triangles; the lists are distinct objects (intended `m != n`, see Findings) |
| BoundaryExtraction.SlabEdgeIsBoundary | src/model_conversion/mesh_triangulation.py:130-139 | in the 258-triangle counterexample face, the first edge of triangle 257 belongs to that triangle alone |
| BoundaryExtraction.SlabEdgeSharedAsWritten | src/model_conversion/mesh_triangulation.py:132 | read as written, `m is not n` passes for m = n = 257, so that edge is recorded as shared |
| BoundaryExtraction.AsWrittenDropsBoundaryEdge | src/model_conversion/mesh_triangulation.py:132 | that boundary edge is kept by the intended test and dropped by the test as written |
| ChainSimplification.Mergeable | src/model_conversion/mesh_triangulation.py:166-169 | two edges merge exactly when they are different undirected edges, have a common endpoint and are parallel or anti-parallel |
| ChainSimplification.MergeableCongruent | src/model_conversion/mesh_triangulation.py:166-169 | the test depends on edge_outer only as an undirected edge: an edge with the same endpoints, in either direction, gives the same answer |
| ChainSimplification.MergedEdge | src/model_conversion/mesh_triangulation.py:171-186 | the new edge's start and the shared vertex are the two endpoints of edge_inner; its end and the shared vertex are the two endpoints of edge_outer |
| ChainSimplification.MergedEdgeIsCollinear | src/model_conversion/mesh_triangulation.py:166-191 | the merged edge is parallel or anti-parallel to both edges it replaces |
| ChainSimplification.FirstMerge | src/model_conversion/mesh_triangulation.py:164-169 | there is no pair to merge exactly when the list is a fixed point; otherwise it returns the first mergeable pair in (outer, inner) scan order |
| ChainSimplification.FirstMergeUnique | src/model_conversion/mesh_triangulation.py:164-169 | the first mergeable pair in scan order is unique |
| ChainSimplification.FindMergePair | src/model_conversion/mesh_triangulation.py:164-169 | the nested scan finds a pair exactly when one exists, and the pair it finds is the first mergeable one |
| ChainSimplification.Merged | src/model_conversion/mesh_triangulation.py:187-191 | removing edge_outer and edge_inner and adding the merged edge strictly shortens the list |
| ChainSimplification.MergeAt | src/model_conversion/mesh_triangulation.py:187-191 | one merge of the pair at positions (o, i) strictly shortens the list, which makes the repetition terminate |
| ChainSimplification.RemoveBoth | src/model_conversion/mesh_triangulation.py:187-188 | the two `remove` calls delete exactly the positions of edge_outer and edge_inner and keep the rest in order |
| ChainSimplification.MergeStep | src/model_conversion/mesh_triangulation.py:187-191 | a merge removes both matched edges and keeps every other edge; the merged edge is added unless an equal one is already there; the list stays free of duplicates |
| ChainSimplification.Simplified | src/model_conversion/mesh_triangulation.py:149-153 | the outline the docstring of `step_3` promises, reached by merging the first mergeable pair until none is left: a fixed point, where no two distinct edges share a vertex and are parallel or anti-parallel; it is no longer than the input and keeps it free of duplicates |
| ChainSimplification.SimplifiedUnchangedIff | src/model_conversion/mesh_triangulation.py:163-192 | an outline is left unchanged exactly when it is already a fixed point |
| ChainSimplification.SimplifiedIdempotent | src/model_conversion/mesh_triangulation.py:157 | simplifying an already simplified outline changes nothing |
| ChainSimplification.Step3Recursive | src/model_conversion/mesh_triangulation.py:163-192 | corrected `_step_3_recursive` (see Findings): the group is simplified in place, its new list is `Simplified` of the old one and is still free of duplicates |
| ChainSimplification.Step3 | src/model_conversion/mesh_triangulation.py:154-161 | with the corrected `_step_3_recursive`: returns the input groups in order, each now holding `Simplified` of its old list, even when a group object is listed twice |
| ChainAsWritten.ScanOuter | src/model_conversion/mesh_triangulation.py:164 | the `for edge_outer` loop, over the list as it is at each index; when it finishes, the list is no longer than before |
| ChainAsWritten.ScanInner | src/model_conversion/mesh_triangulation.py:165-192 | the `for edge_inner` loop for one edge_outer, resuming after each recursive call; when it finishes, the list is no longer than before |
| ChainAsWritten.Step3RecursiveAsWritten | src/model_conversion/mesh_triangulation.py:163-192 | `_step_3_recursive` as written: when it returns without raising, the group holds `Simplified` of its old list, and a list that is already a fixed point is returned unchanged |
| ChainAsWritten.StaleLikeEntryNeverMerges | src/model_conversion/mesh_triangulation.py:166-169 | over a fixed point, an edge_outer that is the same undirected edge as some entry merges with no entry, so the `remove` at line 187 is never reached for it |
| ChainAsWritten.FixedPointInner | src/model_conversion/mesh_triangulation.py:165-192 | over a fixed point, an inner scan whose edge_outer is in the list finishes and changes nothing |
| ChainAsWritten.FixedPointStaleInner | src/model_conversion/mesh_triangulation.py:165-192 | over a fixed point, an inner scan with any edge_outer, even one no longer in the list, changes nothing or raises |
| ChainAsWritten.FixedPointOuter | src/model_conversion/mesh_triangulation.py:164-192 | over a fixed point, the scan finishes and changes nothing |
| ChainAsWritten.SkipColumns | src/model_conversion/mesh_triangulation.py:165-170 | inner positions with no mergeable entry leave the scan as it is |
| ChainAsWritten.SkipRows | src/model_conversion/mesh_triangulation.py:164-170 | outer positions before the first mergeable pair leave the scan as it is |
| ChainAsWritten.ScanReachesFirstMerge | src/model_conversion/mesh_triangulation.py:164-192 | the call reaches the first mergeable pair in scan order before it changes anything, then resumes from that pair |
| ChainAsWritten.RaiseAfterFirstMerge | src/model_conversion/mesh_triangulation.py:192 | a `ValueError` from the recursive call after the first merge propagates out of the call |
| ChainAsWritten.ResumeAfterFirstMerge | src/model_conversion/mesh_triangulation.py:164-192 | when the recursive call leaves a fixed point, the resumed scans keep it or raise |
| ChainAsWritten.AsWrittenSimplifiesOrRaises | src/model_conversion/mesh_triangulation.py:163-192 | as written, `_step_3_recursive` either leaves exactly `Simplified` of the input or raises `ValueError`; it never leaves any other list |
| ChainAsWritten.SplitSquareSimplified | src/model_conversion/mesh_triangulation.py:149-153 | the intended simplification joins the split bottom of the square and leaves its four sides |
| ChainAsWritten.StaleScanRaises | src/model_conversion/mesh_triangulation.py:187 | the resumed scan with the removed bottom-left piece as edge_outer meets the new bottom side, which merges with it, and `remove(edge_outer)` raises |
| ChainAsWritten.AsWrittenRaisesOnSplitSquare | src/model_conversion/mesh_triangulation.py:164-192 | on every square of side w split at 0 < u < w, the intended result is the four sides, and the code as written raises `ValueError` |

## Left out

- `regroup_by_neighbors` and `regroup` (lines 78-101) are not modelled. `regroup` takes one argument but is called with two, its body is empty, the `while` loop never shrinks the list it tests, and the result is always an empty list, so there is no behaviour to state.
- `group_triangles_triangulation` (lines 103-110) and `run` (lines 33-39) are not modelled. They only chain the steps, through `regroup_by_neighbors` and a method `_step_2` that does not exist.
- `_step_3_part_2`, `_step_3_part_2_recursive` (lines 194-238) and `_step_3_part_3` (lines 240-247) are not modelled. The first two fail at their first statements (`grouped_edges.edgeList`, `list.count()` without an argument, `add` on a list), and the last is a stub.
- The module-level script (lines 253-276) is not modelled: it loads an STL file, prints and plots.
- The `print` loop at the start of `step_2` (lines 124-125) is output only and is left out.
- `src/model_conversion/convert_job.py` is not part of this model: it is a threaded job wrapper with a singleton, float formatting and a numpy mesh.
- `edge.py`, `unique_edge_list.py`, `triangle.py` and `face.py` are not part of this model. Their members are modelled from their uses in the triangulation, as described above.
- Edge equality in `list.remove` is modelled as value equality. In a list without duplicate edges only one entry can match, so identity, value or undirected equality all remove the same entry. For the stale `edge_outer` that `ChainAsWritten` models, which is no longer an entry, the choice does not matter either: the resumed scans run over a fixed point, and since the merge test depends on edge_outer only as an undirected edge (`ChainSimplification.MergeableCongruent`), no entry can merge with it while some entry is the same undirected edge (`ChainAsWritten.StaleLikeEntryNeverMerges`), so a `remove` is reached only when no entry equals it under any of these notions.
- ChainSimplification.Step3Recursive: models the intended behaviour, not the `ValueError` the code as written can raise. The code as written is modelled separately, by `ChainAsWritten`, and the two are related in Findings.
- ChainSimplification.Step3Recursive: requires the group to be free of duplicate edges, which `UniqueEdgeList` maintains and `step_2` provides. It does not model a list built with duplicates by writing `edge_list` directly.
- ChainSimplification.Step3Recursive: does not model Python's recursion depth limit. The source recurses once per merge and would raise `RecursionError` on outlines needing about a thousand merges.
- `ChainAsWritten` works on list values: it models what each scan reads and leaves, not the in-place updates of the group object, which `ChainSimplification.Step3Recursive` models.
- BoundaryExtraction.Step2: models the intended test `m != n`, as do `AddSharedOfPair`, `SharedEdgesOf` and `BoundaryEdgeNotShared`. The test as written at line 132 is `Boundary(ts, true)`, which `AsWrittenDropsBoundaryEdge` shows dropping a boundary edge (see Findings).
- Floating point is not modelled: coordinates are exact reals. Rounding in the cross product of `are_parallel_or_anti_parallel` is therefore not captured.
- The mesh data type (`stl.Mesh`) is reduced to a sequence of facets, each a normal and three vertices.

## Findings

| source | as written | input that shows it | evidently intended | confidence | as-written member | corrected member |
|---|---|---|---|---|---|---|
| src/model_conversion/mesh_triangulation.py:132 | `if m is not n` tests object identity. CPython keeps a single object only for the ints -5 to 256, and `range` makes a new object for each larger int. So for m == n >= 257 the test passes, and a triangle is compared with itself: all its edges are recorded as shared and dropped from the outline. | a face of 258 triangles, triangle k with corners (k, 0, 0), (k, 1, 0), (k, 0, 1); the edge (257, 0, 0)-(257, 1, 0) of triangle 257 belongs to no other triangle but is missing from the result | `if m != n`: only different triangles are compared | medium (depends on CPython's small-int cache), not executed | BoundaryExtraction.AsWrittenDropsBoundaryEdge | BoundaryExtraction.BoundaryIsOutline |
| src/model_conversion/mesh_triangulation.py:164-192 | After the recursive call returns, the caller's `for edge_inner` goes on at the next index over the changed list, with its `edge_outer` already removed. If a later entry can merge with that stale edge, `remove(edge_outer)` raises `ValueError`, which `step_3` does not catch. | a square of side w with its bottom side split at (u, 0, 0), 0 < u < w, listed bottom-left piece, bottom-right piece, right, top, left; the merge of the two pieces adds the bottom side at the end, and the resumed top-level scan, still holding the bottom-left piece, meets it | stop the scan after the recursive call (`return`), so the outline ends at the fixed point of the docstring of `step_3` | high, not executed | ChainAsWritten.AsWrittenRaisesOnSplitSquare | ChainSimplification.Step3Recursive |
