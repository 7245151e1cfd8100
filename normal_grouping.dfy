/**
 * `MeshTriangulation.group_triangles_by_normals`: triangles are partitioned
 * into faces; each triangle joins the first face whose normal matches its own
 * and opens a new face when none does.
 */
module NormalGrouping {
  import opened Geometry
  import opened Triangles
  import opened Faces

  /** Index of the first group that matches normal `n`, or `|gs|` when no group does. */
  function FirstMatch(gs: seq<seq<Triangle>>, n: Vec3): (r: nat)
    ensures r <= |gs|
    ensures forall h | 0 <= h < r :: !MatchesNormal(gs[h], n)
    ensures r < |gs| ==> MatchesNormal(gs[r], n)
  {
    if gs == [] then 0
    else if MatchesNormal(gs[0], n) then 0
    else
      var r := 1 + FirstMatch(gs[1..], n);
      assert forall h | 1 <= h < |gs| :: gs[h] == gs[1..][h - 1];
      r
  }

  /** One turn of the outer loop: `t` joins the first matching group, or a new group `[t]` is appended. */
  function Place(gs: seq<seq<Triangle>>, t: Triangle): (r: seq<seq<Triangle>>) {
    var f := FirstMatch(gs, t.normal);
    if f < |gs| then gs[f := gs[f] + [t]] else gs + [[t]]
  }

  /** The groups, as triangle lists, after the loop has consumed `ts`. */
  function Grouped(ts: seq<Triangle>): (r: seq<seq<Triangle>>)
    decreases |ts|
  {
    if ts == [] then [] else Place(Grouped(ts[..|ts| - 1]), ts[|ts| - 1])
  }

  /** The triangles of `ts` whose normal is exactly `n`, in input order. */
  function WithNormal(ts: seq<Triangle>, n: Vec3): (r: seq<Triangle>)
    decreases |ts|
  {
    if ts == [] then []
    else WithNormal(ts[..|ts| - 1], n) + (if ts[|ts| - 1].normal == n then [ts[|ts| - 1]] else [])
  }

  /** `WithNormal(ts, n)` holds the triangles of `ts` with normal `n`, and only those. */
  lemma {:induction false} WithNormalMembers(ts: seq<Triangle>, n: Vec3)
    ensures forall t :: t in WithNormal(ts, n) <==> t in ts && t.normal == n
    decreases |ts|
  {
    if ts != [] {
      var init := ts[..|ts| - 1];
      assert ts == init + [ts[|ts| - 1]];
      WithNormalMembers(init, n);
    }
  }

  /** Position of the first triangle of `ts` with normal `n`, or `|ts|` when there is none. */
  function FirstWithNormal(ts: seq<Triangle>, n: Vec3): (k: nat)
    ensures k <= |ts|
    ensures forall j | 0 <= j < k :: ts[j].normal != n
    ensures k < |ts| ==> ts[k].normal == n
  {
    if ts == [] then 0
    else if ts[0].normal == n then 0
    else
      var k := 1 + FirstWithNormal(ts[1..], n);
      assert forall j | 1 <= j < |ts| :: ts[j] == ts[1..][j - 1];
      k
  }

  /**
   * `gs` partitions `ts` by normal: every group is non-empty and holds exactly
   * the triangles with its first triangle's normal, in input order; no two
   * groups share a normal; and every triangle's normal has a group.
   */
  ghost predicate IsNormalPartition(ts: seq<Triangle>, gs: seq<seq<Triangle>>) {
    (forall g | 0 <= g < |gs| :: |gs[g]| > 0 && gs[g] == WithNormal(ts, gs[g][0].normal)) &&
    (forall g, h | 0 <= g < h < |gs| :: gs[g][0].normal != gs[h][0].normal) &&
    (forall k | 0 <= k < |ts| :: exists g | 0 <= g < |gs| :: gs[g][0].normal == ts[k].normal)
  }

  /** The groups appear in the order in which their normals first occur in `ts`. */
  ghost predicate InFirstOccurrenceOrder(ts: seq<Triangle>, gs: seq<seq<Triangle>>)
    requires forall g | 0 <= g < |gs| :: |gs[g]| > 0
  {
    forall g, h | 0 <= g < h < |gs| ::
      FirstWithNormal(ts, gs[g][0].normal) < FirstWithNormal(ts, gs[h][0].normal)
  }

  /** All the groups laid end to end. */
  function Flatten(gs: seq<seq<Triangle>>): (r: seq<Triangle>) {
    if gs == [] then [] else gs[0] + Flatten(gs[1..])
  }

  lemma WithNormalAppend(ts: seq<Triangle>, t: Triangle, n: Vec3)
    ensures WithNormal(ts + [t], n) == WithNormal(ts, n) + (if t.normal == n then [t] else [])
  {
    assert (ts + [t])[..|ts|] == ts;
  }

  lemma FirstWithNormalAppend(ts: seq<Triangle>, t: Triangle, n: Vec3)
    requires FirstWithNormal(ts, n) < |ts|
    ensures FirstWithNormal(ts + [t], n) == FirstWithNormal(ts, n)
  {
    var k := FirstWithNormal(ts, n);
    assert (ts + [t])[k] == ts[k];
  }

  /** A triangle whose normal some group matches joins the first such group. */
  lemma PlaceJoinsPartition(ts: seq<Triangle>, gs: seq<seq<Triangle>>, t: Triangle)
    requires IsNormalPartition(ts, gs)
    requires FirstMatch(gs, t.normal) < |gs|
    ensures IsNormalPartition(ts + [t], Place(gs, t))
  {
    var ts': seq<Triangle>, gs': seq<seq<Triangle>> := ts + [t], Place(gs, t);
    var f := FirstMatch(gs, t.normal);
    assert gs' == gs[f := gs[f] + [t]];
    forall g: int | 0 <= g < |gs'| ensures |gs'[g]| > 0 && gs'[g] == WithNormal(ts', gs'[g][0].normal) {
      JoinedGroup(ts, gs, t, g);
    }
    forall g, h | 0 <= g < h < |gs'| ensures gs'[g][0].normal != gs'[h][0].normal {
      assert gs'[g][0] == gs[g][0] && gs'[h][0] == gs[h][0];
    }
    forall k | 0 <= k < |ts'| ensures exists g | 0 <= g < |gs'| :: gs'[g][0].normal == ts'[k].normal {
      if k == |ts| {
        assert gs'[f][0] == gs[f][0];
      } else {
        assert ts'[k] == ts[k];
        var g: int :| 0 <= g < |gs| && gs[g][0].normal == ts[k].normal;
        assert gs'[g][0] == gs[g][0];
      }
    }
  }

  lemma JoinedGroup(ts: seq<Triangle>, gs: seq<seq<Triangle>>, t: Triangle, g: nat)
    requires IsNormalPartition(ts, gs)
    requires FirstMatch(gs, t.normal) < |gs| && g < |gs|
    ensures var gs' := Place(gs, t); |gs'[g]| > 0 && gs'[g] == WithNormal(ts + [t], gs'[g][0].normal)
  {
    var f := FirstMatch(gs, t.normal);
    var gs' := gs[f := gs[f] + [t]];
    WithNormalAppend(ts, t, gs[g][0].normal);
    if g == f {
      assert gs'[g][0] == gs[g][0];
    } else {
      assert gs'[g] == gs[g];
      assert gs[g][0].normal != t.normal by {
        if g < f {
          assert !MatchesNormal(gs[g], t.normal);
        } else {
          assert gs[f][0].normal != gs[g][0].normal;
        }
      }
    }
  }

  /** A triangle whose normal no group matches opens a new group. */
  lemma PlaceOpensPartition(ts: seq<Triangle>, gs: seq<seq<Triangle>>, t: Triangle)
    requires IsNormalPartition(ts, gs)
    requires FirstMatch(gs, t.normal) == |gs|
    ensures IsNormalPartition(ts + [t], Place(gs, t))
  {
    var ts': seq<Triangle>, gs': seq<seq<Triangle>> := ts + [t], Place(gs, t);
    assert gs' == gs + [[t]];
    forall g: int | 0 <= g < |gs'| ensures |gs'[g]| > 0 && gs'[g] == WithNormal(ts', gs'[g][0].normal) {
      OpenedGroup(ts, gs, t, g);
    }
    forall g, h | 0 <= g < h < |gs'| ensures gs'[g][0].normal != gs'[h][0].normal {
      if h == |gs| {
        assert !MatchesNormal(gs[g], t.normal);
      } else {
        assert gs'[g] == gs[g] && gs'[h] == gs[h];
      }
    }
    forall k | 0 <= k < |ts'| ensures exists g | 0 <= g < |gs'| :: gs'[g][0].normal == ts'[k].normal {
      if k == |ts| {
        assert gs'[|gs|][0].normal == ts'[k].normal;
      } else {
        assert ts'[k] == ts[k];
        var g: int :| 0 <= g < |gs| && gs[g][0].normal == ts[k].normal;
        assert gs'[g] == gs[g];
      }
    }
  }

  lemma OpenedGroup(ts: seq<Triangle>, gs: seq<seq<Triangle>>, t: Triangle, g: nat)
    requires IsNormalPartition(ts, gs)
    requires FirstMatch(gs, t.normal) == |gs| && g <= |gs|
    ensures var gs' := Place(gs, t); |gs'[g]| > 0 && gs'[g] == WithNormal(ts + [t], gs'[g][0].normal)
  {
    var gs' := gs + [[t]];
    if g < |gs| {
      assert gs'[g] == gs[g];
      assert !MatchesNormal(gs[g], t.normal);
      WithNormalAppend(ts, t, gs[g][0].normal);
    } else {
      NoGroupNoTriangle(ts, gs, t.normal);
      WithNormalEmpty(ts, t.normal);
      WithNormalAppend(ts, t, t.normal);
    }
  }

  lemma PlacePreservesOrder(ts: seq<Triangle>, gs: seq<seq<Triangle>>, t: Triangle)
    requires IsNormalPartition(ts, gs) && InFirstOccurrenceOrder(ts, gs)
    ensures IsNormalPartition(ts + [t], Place(gs, t))
    ensures InFirstOccurrenceOrder(ts + [t], Place(gs, t))
  {
    if FirstMatch(gs, t.normal) < |gs| {
      PlaceJoinsPartition(ts, gs, t);
    } else {
      PlaceOpensPartition(ts, gs, t);
    }
    PlaceKeepsOrder(ts, gs, t);
  }

  lemma PlaceKeepsOrder(ts: seq<Triangle>, gs: seq<seq<Triangle>>, t: Triangle)
    requires IsNormalPartition(ts, gs) && InFirstOccurrenceOrder(ts, gs)
    requires forall g | 0 <= g < |Place(gs, t)| :: |Place(gs, t)[g]| > 0
    ensures InFirstOccurrenceOrder(ts + [t], Place(gs, t))
  {
    var ts': seq<Triangle>, gs': seq<seq<Triangle>> := ts + [t], Place(gs, t);
    forall g, h | 0 <= g < h < |gs'|
      ensures FirstWithNormal(ts', gs'[g][0].normal) < FirstWithNormal(ts', gs'[h][0].normal)
    {
      FirstPositionStays(ts, gs, t, g);
      if h < |gs| {
        FirstPositionStays(ts, gs, t, h);
      } else {
        NewNormalFirstPosition(ts, gs, t);
      }
    }
  }

  /** A group that already exists keeps its first triangle, whose position in the input does not move. */
  lemma FirstPositionStays(ts: seq<Triangle>, gs: seq<seq<Triangle>>, t: Triangle, g: nat)
    requires IsNormalPartition(ts, gs) && g < |gs|
    ensures |Place(gs, t)| >= |gs| && Place(gs, t)[g][0] == gs[g][0]
    ensures FirstWithNormal(ts + [t], gs[g][0].normal) == FirstWithNormal(ts, gs[g][0].normal) < |ts|
  {
    var u := gs[g][0];
    WithNormalMembers(ts, u.normal);
    assert u in WithNormal(ts, u.normal);
    FirstWithNormalAppend(ts, t, u.normal);
  }

  /** A group opened for `t` has a normal that first occurs at `t`, after every earlier one. */
  lemma NewNormalFirstPosition(ts: seq<Triangle>, gs: seq<seq<Triangle>>, t: Triangle)
    requires IsNormalPartition(ts, gs) && FirstMatch(gs, t.normal) == |gs|
    ensures Place(gs, t) == gs + [[t]]
    ensures FirstWithNormal(ts + [t], t.normal) == |ts|
  {
    var ts' := ts + [t];
    assert ts'[|ts|] == t;
    NoGroupNoTriangle(ts, gs, t.normal);
    assert forall j | 0 <= j < |ts| :: ts'[j] == ts[j];
  }

  /** In a partition, a normal that matches no group is the normal of no triangle. */
  lemma NoGroupNoTriangle(ts: seq<Triangle>, gs: seq<seq<Triangle>>, n: Vec3)
    requires IsNormalPartition(ts, gs) && FirstMatch(gs, n) == |gs|
    ensures forall k | 0 <= k < |ts| :: ts[k].normal != n
  {
    forall k | 0 <= k < |ts| ensures ts[k].normal != n {
      var g: int :| 0 <= g < |gs| && gs[g][0].normal == ts[k].normal;
      assert !MatchesNormal(gs[g], n);
    }
  }

  lemma {:induction false} WithNormalEmpty(ts: seq<Triangle>, n: Vec3)
    requires forall k | 0 <= k < |ts| :: ts[k].normal != n
    ensures WithNormal(ts, n) == []
    decreases |ts|
  {
    if ts != [] {
      WithNormalEmpty(ts[..|ts| - 1], n);
    }
  }

  /** The loop's invariant holds for every prefix: what step one promises about its groups. */
  lemma {:induction false} GroupedIsPartition(ts: seq<Triangle>)
    ensures IsNormalPartition(ts, Grouped(ts))
    ensures InFirstOccurrenceOrder(ts, Grouped(ts))
    decreases |ts|
  {
    if ts != [] {
      var init, last := ts[..|ts| - 1], ts[|ts| - 1];
      assert init + [last] == ts;
      assert Grouped(ts) == Place(Grouped(init), last);
      GroupedIsPartition(init);
      PlacePreservesOrder(init, Grouped(init), last);
    }
  }

  lemma {:induction false} FlattenAppend(gs: seq<seq<Triangle>>, g: seq<Triangle>)
    ensures Flatten(gs + [g]) == Flatten(gs) + g
  {
    if gs != [] {
      assert (gs + [g])[1..] == gs[1..] + [g];
      FlattenAppend(gs[1..], g);
    }
  }

  lemma {:induction false} FlattenUpdate(gs: seq<seq<Triangle>>, f: nat, t: Triangle)
    requires f < |gs|
    ensures multiset(Flatten(gs[f := gs[f] + [t]])) == multiset(Flatten(gs)) + multiset{t}
  {
    if f == 0 {
      assert gs[f := gs[f] + [t]][1..] == gs[1..];
    } else {
      assert gs[f := gs[f] + [t]][1..] == gs[1..][f - 1 := gs[f] + [t]];
      FlattenUpdate(gs[1..], f - 1, t);
    }
  }

  /** Grouping loses and duplicates nothing: the groups hold exactly the input triangles, counted with multiplicity. */
  lemma {:induction false} GroupedKeepsEveryTriangle(ts: seq<Triangle>)
    ensures multiset(Flatten(Grouped(ts))) == multiset(ts)
    ensures |Flatten(Grouped(ts))| == |ts|
    decreases |ts|
  {
    if ts != [] {
      var init, last := ts[..|ts| - 1], ts[|ts| - 1];
      assert init + [last] == ts;
      GroupedKeepsEveryTriangle(init);
      var gs := Grouped(init);
      var f := FirstMatch(gs, last.normal);
      if f < |gs| {
        FlattenUpdate(gs, f, last);
      } else {
        FlattenAppend(gs, [last]);
      }
    }
  }

  /** Each input triangle lies in exactly one group. */
  lemma GroupedExactlyOnce(ts: seq<Triangle>, t: Triangle)
    requires t in ts
    ensures exists g | 0 <= g < |Grouped(ts)| :: t in Grouped(ts)[g]
    ensures forall g, h | 0 <= g < |Grouped(ts)| && 0 <= h < |Grouped(ts)| && t in Grouped(ts)[g] && t in Grouped(ts)[h] :: g == h
  {
    GroupedIsPartition(ts);
    var gs: seq<seq<Triangle>> := Grouped(ts);
    var k: int :| 0 <= k < |ts| && ts[k] == t;
    var g: int :| 0 <= g < |gs| && gs[g][0].normal == ts[k].normal;
    WithNormalMembers(ts, gs[g][0].normal);
    assert t in WithNormal(ts, gs[g][0].normal);
    forall h | 0 <= h < |gs| && t in gs[h] ensures h == g {
      WithNormalMembers(ts, gs[h][0].normal);
    }
  }

  /** `group_triangles_by_normals`: the faces hold `Grouped(triangles)`, each in a new Face object. */
  method GroupTrianglesByNormals(triangles: seq<Triangle>) returns (facesGroups: seq<Face>)
    ensures |facesGroups| == |Grouped(triangles)|
    ensures forall g | 0 <= g < |facesGroups| :: fresh(facesGroups[g]) && facesGroups[g].triangles == Grouped(triangles)[g]
    ensures forall g, h | 0 <= g < h < |facesGroups| :: facesGroups[g] != facesGroups[h]
  {
    facesGroups := [];
    var groupMatch := false;
    for k := 0 to |triangles|
      invariant !groupMatch
      invariant |facesGroups| == |Grouped(triangles[..k])|
      invariant forall g | 0 <= g < |facesGroups| :: fresh(facesGroups[g]) && facesGroups[g].triangles == Grouped(triangles[..k])[g]
      invariant forall g, h | 0 <= g < h < |facesGroups| :: facesGroups[g] != facesGroups[h]
    {
      var triangle := triangles[k];
      ghost var before := Grouped(triangles[..k]);
      assert triangles[..k + 1][..k] == triangles[..k];
      ghost var at := 0;
      for g := 0 to |facesGroups|
        invariant !groupMatch
        invariant forall h | 0 <= h < g :: !MatchesNormal(before[h], triangle.normal)
        invariant forall h | 0 <= h < |facesGroups| :: facesGroups[h].triangles == before[h]
      {
        if facesGroups[g].MatchNormal(triangle.normal) {
          groupMatch := true;
          facesGroups[g].AddTriangle(triangle);
          at := g;
          break;
        }
      }
      if !groupMatch {
        var face := new Face([triangle]);
        facesGroups := facesGroups + [face];
      } else {
        assert at == FirstMatch(before, triangle.normal);
      }
      groupMatch := false;
    }
    assert triangles[..|triangles|] == triangles;
  }
}
