/**
 * Edge lists deduplicated by undirected edge equality (`UniqueEdgeList`), and
 * the Python list operations the triangulation applies to their `edge_list`.
 */
module UniqueEdges {
  import opened Geometry

  /** Some entry of `s` is the same undirected edge as `e`. */
  predicate Covers(s: seq<Edge>, e: Edge) {
    exists k | 0 <= k < |s| :: SameEdge(s[k], e)
  }

  /** No two entries of `s` are the same undirected edge: the invariant of a `UniqueEdgeList`. */
  predicate NoDuplicateEdges(s: seq<Edge>) {
    forall a, b | 0 <= a < b < |s| :: !SameEdge(s[a], s[b])
  }

  /** The edge list after `add(e)`: `e` is appended unless an entry already covers it. */
  function Inserted(s: seq<Edge>, e: Edge): (r: seq<Edge>)
    ensures Covers(r, e)
    ensures forall x :: Covers(r, x) <==> Covers(s, x) || SameEdge(e, x)
    ensures NoDuplicateEdges(s) ==> NoDuplicateEdges(r)
    ensures s <= r && |r| <= |s| + 1
    ensures forall x :: x in r ==> x in s || x == e
  {
    if Covers(s, e) then s
    else
      var r := s + [e];
      assert r[|s|] == e && SameEdge(e, e);
      assert forall k | 0 <= k < |s| :: r[k] == s[k];
      r
  }

  /** Position of the first entry equal to `x`, as `list.index(x)` finds it. */
  function IndexOf(s: seq<Edge>, x: Edge): (k: nat)
    requires x in s
    ensures k < |s| && s[k] == x && x !in s[..k]
  {
    if s[0] == x then 0 else 1 + IndexOf(s[1..], x)
  }

  /** The first occurrence of `s[k]` is at or before k. */
  lemma {:induction false} IndexOfAtMost(s: seq<Edge>, k: nat)
    requires k < |s|
    ensures IndexOf(s, s[k]) <= k
  {
    if s[0] != s[k] {
      assert s[1..][k - 1] == s[k];
      IndexOfAtMost(s[1..], k - 1);
    }
  }

  /**
   * `list.remove(x)`: deletes the first entry equal to `x`. Python raises
   * when `x` is absent, so a caller must pass an entry of the list.
   */
  function RemoveFirst(s: seq<Edge>, x: Edge): (r: seq<Edge>)
    requires x in s
    ensures |r| == |s| - 1
    ensures multiset(r) == multiset(s) - multiset{x}
    ensures forall y :: y != x ==> (y in r <==> y in s)
    ensures NoDuplicateEdges(s) ==> NoDuplicateEdges(r)
    ensures exists k | 0 <= k < |s| :: s[k] == x && x !in s[..k] && r == s[..k] + s[k + 1..]
  {
    var k := IndexOf(s, x);
    assert s == s[..k] + [x] + s[k + 1..];
    var r := s[..k] + s[k + 1..];
    NoDuplicatesAfterDelete(s, k);
    r
  }

  lemma NoDuplicatesAfterDelete(s: seq<Edge>, k: nat)
    requires k < |s|
    ensures NoDuplicateEdges(s) ==> NoDuplicateEdges(s[..k] + s[k + 1..])
  {
    var r := s[..k] + s[k + 1..];
    if NoDuplicateEdges(s) {
      forall a, b | 0 <= a < b < |r| ensures !SameEdge(r[a], r[b]) {
        var a' := if a < k then a else a + 1;
        var b' := if b < k then b else b + 1;
        assert r[a] == s[a'] && r[b] == s[b'];
      }
    }
  }

  /**
   * `UniqueEdgeList.set_difference(a, b)`: the edges of `a`, in order, that no
   * edge of `b` covers, each kept once (what adding them one by one yields).
   */
  function Difference(a: seq<Edge>, b: seq<Edge>): (r: seq<Edge>)
    ensures NoDuplicateEdges(r)
    ensures forall x :: x in r ==> x in a
    ensures forall x :: Covers(r, x) <==> Covers(a, x) && !Covers(b, x)
  {
    DifferenceInto([], a, b)
  }

  /** The list `acc` after each edge of `a` that `b` does not cover has been added to it. */
  function DifferenceInto(acc: seq<Edge>, a: seq<Edge>, b: seq<Edge>): (r: seq<Edge>)
    requires NoDuplicateEdges(acc)
    requires forall k | 0 <= k < |acc| :: !Covers(b, acc[k])
    ensures NoDuplicateEdges(r)
    ensures forall x :: x in r ==> x in acc || x in a
    ensures forall x :: Covers(r, x) <==> Covers(acc, x) || (Covers(a, x) && !Covers(b, x))
    decreases |a|
  {
    if a == [] then acc
    else
      var acc' := if Covers(b, a[0]) then acc else Inserted(acc, a[0]);
      assert forall k | 0 <= k < |acc'| :: !Covers(b, acc'[k]) by {
        forall k | 0 <= k < |acc'| ensures !Covers(b, acc'[k]) {
          if k >= |acc| { assert acc'[k] == a[0]; }
        }
      }
      var r := DifferenceInto(acc', a[1..], b);
      assert forall x :: Covers(a, x) <==> SameEdge(a[0], x) || Covers(a[1..], x) by {
        forall x ensures Covers(a, x) <==> SameEdge(a[0], x) || Covers(a[1..], x) {
          if Covers(a, x) {
            var k :| 0 <= k < |a| && SameEdge(a[k], x);
            if k > 0 { assert a[1..][k - 1] == a[k]; }
          }
          if Covers(a[1..], x) {
            var k :| 0 <= k < |a[1..]| && SameEdge(a[1..][k], x);
            assert a[k + 1] == a[1..][k];
          }
        }
      }
      assert forall x :: x in a[1..] ==> x in a;
      r
  }

  /** The difference depends on `b` only through which edges `b` covers. */
  lemma {:induction false} DifferenceIntoCongruent(acc: seq<Edge>, a: seq<Edge>, b1: seq<Edge>, b2: seq<Edge>)
    requires NoDuplicateEdges(acc)
    requires forall k | 0 <= k < |acc| :: !Covers(b1, acc[k])
    requires forall x :: Covers(b1, x) <==> Covers(b2, x)
    ensures DifferenceInto(acc, a, b1) == DifferenceInto(acc, a, b2)
    decreases |a|
  {
    if a != [] {
      var acc' := if Covers(b1, a[0]) then acc else Inserted(acc, a[0]);
      assert forall k | 0 <= k < |acc'| :: !Covers(b1, acc'[k]) by {
        forall k | 0 <= k < |acc'| ensures !Covers(b1, acc'[k]) {
          if k >= |acc| { assert acc'[k] == a[0]; }
        }
      }
      DifferenceIntoCongruent(acc', a[1..], b1, b2);
    }
  }

  lemma DifferenceCongruent(a: seq<Edge>, b1: seq<Edge>, b2: seq<Edge>)
    requires forall x :: Covers(b1, x) <==> Covers(b2, x)
    ensures Difference(a, b1) == Difference(a, b2)
  {
    DifferenceIntoCongruent([], a, b1, b2);
  }

  /**
   * A list of edges with no two the same undirected edge. `add` reports
   * whether the edge was new.
   */
  class UniqueEdgeList {
    var edgeList: seq<Edge>

    predicate Valid()
      reads this
    {
      NoDuplicateEdges(edgeList)
    }

    constructor ()
      ensures Valid() && edgeList == []
    {
      edgeList := [];
    }

    /** Membership up to undirected edge equality. */
    function Contains(e: Edge): (b: bool)
      reads this
    {
      Covers(edgeList, e)
    }

    method Add(e: Edge) returns (added: bool)
      requires Valid()
      modifies this
      ensures Valid()
      ensures added <==> !Covers(old(edgeList), e)
      ensures edgeList == Inserted(old(edgeList), e)
    {
      added := !Contains(e);
      if added {
        edgeList := edgeList + [e];
      }
    }

    /** `UniqueEdgeList.set_difference(a, b)`: a fresh list holding `Difference(a, b.edge_list)`. */
    static method SetDifference(a: seq<Edge>, b: UniqueEdgeList) returns (r: UniqueEdgeList)
      ensures fresh(r) && r.Valid()
      ensures r.edgeList == Difference(a, b.edgeList)
    {
      r := new UniqueEdgeList();
      for k := 0 to |a|
        invariant r.Valid()
        invariant forall t | 0 <= t < |r.edgeList| :: !Covers(b.edgeList, r.edgeList[t])
        invariant DifferenceInto(r.edgeList, a[k..], b.edgeList) == Difference(a, b.edgeList)
      {
        assert a[k..][1..] == a[k + 1..];
        if !b.Contains(a[k]) {
          var _ := r.Add(a[k]);
        }
      }
    }
  }
}
