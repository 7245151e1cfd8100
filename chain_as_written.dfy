/**
 * `_step_3_recursive` as written. Python's `for x in lst` walks `lst` by
 * index, reading the list as it is at each step. So when the recursive call
 * returns, the caller's `for edge_inner` goes on at the next index of the
 * changed list, and its `edge_outer` is still the edge it removed before the
 * call. If a later entry can merge with that stale edge, `remove(edge_outer)`
 * raises `ValueError`, which `step_3` passes on.
 */
module ChainAsWritten {
  import opened Wrappers
  import opened Geometry
  import opened UniqueEdges
  import opened ChainSimplification

  /** How a call of `_step_3_recursive` ends: with the list it leaves, or by raising `ValueError`. */
  datatype Outcome = Finished(edges: seq<Edge>) | RaisedValueError

  /** The `for edge_outer` loop from index p on, over the list as it currently is. */
  function ScanOuter(s: seq<Edge>, p: nat): (r: Outcome)
    ensures r.Finished? ==> |r.edges| <= |s|
    decreases |s|, 1, |s| - p
  {
    if p >= |s| then Finished(s)
    else
      match ScanInner(s, s[p], 0)
      case RaisedValueError => RaisedValueError
      case Finished(s') => ScanOuter(s', p + 1)
  }

  /**
   * The `for edge_inner` loop from index q on, for a fixed `edge_outer`.
   * On a mergeable pair it removes both edges, adds the merged edge, runs
   * the recursive call and then goes on with the next index.
   */
  function ScanInner(s: seq<Edge>, outer: Edge, q: nat): (r: Outcome)
    ensures r.Finished? ==> |r.edges| <= |s|
    decreases |s|, 0, |s| - q
  {
    if q >= |s| then Finished(s)
    else if Mergeable(s[q], outer) then
      if outer !in s then RaisedValueError
      else
        match ScanOuter(Merged(s, outer, s[q]), 0)
        case RaisedValueError => RaisedValueError
        case Finished(s') => ScanInner(s', outer, q + 1)
    else ScanInner(s, outer, q + 1)
  }


  /** Over a fixed point, an inner scan whose `edge_outer` is in the list changes nothing. */
  lemma {:induction false} FixedPointInner(s: seq<Edge>, outer: Edge, q: nat)
    requires IsFixedPoint(s) && outer in s
    ensures ScanInner(s, outer, q) == Finished(s)
    decreases |s| - q
  {
    if q < |s| {
      var k :| 0 <= k < |s| && s[k] == outer;
      assert !Mergeable(s[q], s[k]);
      FixedPointInner(s, outer, q + 1);
    }
  }

  /**
   * Over a fixed point, an edge_outer that is the same undirected edge as some
   * entry merges with no entry. So whether `remove` compares by identity, by
   * value or as undirected edges, it is reached only when no entry matches.
   */
  lemma StaleLikeEntryNeverMerges(s: seq<Edge>, outer: Edge, k: nat)
    requires IsFixedPoint(s) && k < |s| && SameEdge(s[k], outer)
    ensures forall q | 0 <= q < |s| :: !Mergeable(s[q], outer)
  {
    SameEdgeIsEquivalence();
    forall q | 0 <= q < |s|
      ensures !Mergeable(s[q], outer)
    {
      MergeableCongruent(s[q], s[k], outer);
    }
  }

  /** Over a fixed point, an inner scan with a stale `edge_outer` changes nothing or raises. */
  lemma {:induction false} FixedPointStaleInner(s: seq<Edge>, outer: Edge, q: nat)
    requires IsFixedPoint(s)
    ensures ScanInner(s, outer, q) in {Finished(s), RaisedValueError}
    decreases |s| - q
  {
    if outer in s {
      FixedPointInner(s, outer, q);
    } else if q < |s| && !Mergeable(s[q], outer) {
      FixedPointStaleInner(s, outer, q + 1);
    }
  }

  /** Over a fixed point, the outer scan changes nothing. */
  lemma {:induction false} FixedPointOuter(s: seq<Edge>, p: nat)
    requires IsFixedPoint(s)
    ensures ScanOuter(s, p) == Finished(s)
    decreases |s| - p
  {
    if p < |s| {
      FixedPointInner(s, s[p], 0);
      FixedPointOuter(s, p + 1);
    }
  }

  /** An inner scan that meets no mergeable entry from q on changes nothing. */
  lemma {:induction false} SkipColumns(s: seq<Edge>, outer: Edge, q: nat, i: nat)
    requires q <= i <= |s|
    requires forall k | q <= k < i :: !Mergeable(s[k], outer)
    ensures ScanInner(s, outer, q) == ScanInner(s, outer, i)
    decreases i - q
  {
    if q < i {
      SkipColumns(s, outer, q + 1, i);
    }
  }

  /** Rows before the first mergeable pair change nothing. */
  lemma {:induction false} SkipRows(s: seq<Edge>, p: nat, o: nat, i: nat)
    requires p <= o < |s| && i < |s| && NoMergeBefore(s, o, i)
    ensures ScanOuter(s, p) == ScanOuter(s, o)
    decreases o - p
  {
    if p < o {
      SkipColumns(s, s[p], 0, |s|);
      assert ScanInner(s, s[p], |s|) == Finished(s);
      SkipRows(s, p + 1, o, i);
    }
  }

  /** Up to the first mergeable pair, the scan changes nothing: it reaches the merge of (o, i) first. */
  lemma {:induction false} ScanReachesFirstMerge(s: seq<Edge>, o: nat, i: nat)
    requires IsFirstMerge(s, o, i)
    ensures ScanOuter(s, 0) == match ScanInner(s, s[o], i)
      case RaisedValueError => RaisedValueError
      case Finished(s') => ScanOuter(s', o + 1)
  {
    SkipRows(s, 0, o, i);
    SkipColumns(s, s[o], 0, i);
  }

  /** If the recursive call after the first merge raises, so does the whole call. */
  lemma RaiseAfterFirstMerge(s: seq<Edge>, o: nat, i: nat)
    requires IsFirstMerge(s, o, i) && ScanOuter(MergeAt(s, o, i), 0) == RaisedValueError
    ensures ScanOuter(s, 0) == RaisedValueError
  {
    ScanReachesFirstMerge(s, o, i);
  }

  /**
   * If the recursive call after the first merge leaves a fixed point, the
   * callers' resumed scans leave it unchanged or raise.
   */
  lemma ResumeAfterFirstMerge(s: seq<Edge>, o: nat, i: nat, s2: seq<Edge>)
    requires IsFirstMerge(s, o, i) && ScanOuter(MergeAt(s, o, i), 0) == Finished(s2) && IsFixedPoint(s2)
    ensures ScanOuter(s, 0) in {Finished(s2), RaisedValueError}
  {
    ScanReachesFirstMerge(s, o, i);
    FixedPointStaleInner(s2, s[o], i + 1);
    FixedPointOuter(s2, o + 1);
  }

  /**
   * As written, `_step_3_recursive` either leaves exactly the fixed point the
   * intended loop reaches, or raises `ValueError`.
   */
  lemma {:induction false} AsWrittenSimplifiesOrRaises(s: seq<Edge>)
    ensures ScanOuter(s, 0) in {Finished(Simplified(s)), RaisedValueError}
    decreases |s|
  {
    match FirstMerge(s)
    case None =>
      FixedPointOuter(s, 0);
    case Some(pair) =>
      var (o, i) := pair;
      var merged := MergeAt(s, o, i);
      AsWrittenSimplifiesOrRaises(merged);
      match ScanOuter(merged, 0)
      case RaisedValueError =>
        RaiseAfterFirstMerge(s, o, i);
      case Finished(s2) =>
        ResumeAfterFirstMerge(s, o, i, s2);
  }

  /**
   * `_step_3_recursive(outline_edge_group)` as written: when it returns, the
   * group holds the intended fixed point, and a list that is already a fixed
   * point is left as it is; otherwise it raises.
   */
  function Step3RecursiveAsWritten(s: seq<Edge>): (r: Outcome)
    ensures r.Finished? ==> r.edges == Simplified(s)
    ensures IsFixedPoint(s) ==> r == Finished(s)
  {
    AsWrittenSimplifiesOrRaises(s);
    FixedPointFinishes(s);
    ScanOuter(s, 0)
  }

  /** A fixed point passes through the whole scan unchanged. */
  lemma FixedPointFinishes(s: seq<Edge>)
    ensures IsFixedPoint(s) ==> ScanOuter(s, 0) == Finished(s)
  {
    if IsFixedPoint(s) {
      FixedPointOuter(s, 0);
    }
  }

  /** `list.remove` of the head entry drops the head. */
  lemma RemoveHead(s: seq<Edge>)
    requires |s| > 0
    ensures RemoveFirst(s, s[0]) == s[1..]
  {
    IndexOfAtMost(s, 0);
    assert s[..0] + s[1..] == s[1..];
  }

  /** Removing the first entry and then the new first entry drops both. */
  lemma RemoveTwoHeads(s: seq<Edge>)
    requires |s| >= 2
    ensures RemoveFirst(RemoveFirst(s, s[0]), s[1]) == s[2..]
  {
    RemoveHead(s);
    RemoveHead(s[1..]);
    assert s[1..][0] == s[1] && s[1..][1..] == s[2..];
  }

  /** `add` of an edge the list does not cover appends it. */
  lemma InsertedNew(s: seq<Edge>, e: Edge)
    requires !Covers(s, e)
    ensures Inserted(s, e) == s + [e]
  {
  }

  /** Merging the first two entries of a list into an edge it does not cover. */
  lemma MergeHeads(s: seq<Edge>, e: Edge)
    requires |s| >= 2 && Mergeable(s[1], s[0]) && MergedEdge(s[1], s[0]) == e && !Covers(s[2..], e)
    ensures MergeAt(s, 0, 1) == s[2..] + [e]
  {
    RemoveTwoHeads(s);
    InsertedNew(s[2..], e);
  }

  /*
   * The counterexample: a square of side w whose bottom side is split in two
   * at (u, 0, 0), listed bottom-left piece first and then anticlockwise.
   */

  function SquareRight(w: real): (e: Edge) { Edge(w, 0.0, 0.0, w, w, 0.0) }
  function SquareTop(w: real): (e: Edge) { Edge(w, w, 0.0, 0.0, w, 0.0) }
  function SquareLeft(w: real): (e: Edge) { Edge(0.0, w, 0.0, 0.0, 0.0, 0.0) }
  /** The bottom side, as merging the two pieces produces it. */
  function SquareBottom(w: real): (e: Edge) { Edge(w, 0.0, 0.0, 0.0, 0.0, 0.0) }

  function SplitSquare(u: real, w: real): (s: seq<Edge>)
    ensures |s| == 5
  {
    [Edge(0.0, 0.0, 0.0, u, 0.0, 0.0), Edge(u, 0.0, 0.0, w, 0.0, 0.0), SquareRight(w), SquareTop(w), SquareLeft(w)]
  }

  /** The square after joining its two bottom pieces. */
  function JoinedSquare(w: real): (t: seq<Edge>)
    ensures |t| == 4
  {
    [SquareRight(w), SquareTop(w), SquareLeft(w), SquareBottom(w)]
  }

  /** An edge never merges with an equal edge. */
  lemma NotMergeableWithItself(e: Edge)
    ensures !Mergeable(e, e)
  {
    assert SameEdge(e, e);
  }

  /** Edges without a common endpoint do not merge. */
  lemma NotMergeableApart(inner: Edge, outer: Edge)
    requires !IsEndpoint(outer, inner.Start()) && !IsEndpoint(outer, inner.End())
    ensures !Mergeable(inner, outer)
  {
  }

  /** An edge along the x axis and one along the y axis do not merge, in either role. */
  lemma NotMergeableAcross(inner: Edge, outer: Edge, a: real, b: real)
    requires a != 0.0 && b != 0.0
    requires (inner.Direction() == Vec3(a, 0.0, 0.0) && outer.Direction() == Vec3(0.0, b, 0.0)) ||
             (inner.Direction() == Vec3(0.0, a, 0.0) && outer.Direction() == Vec3(b, 0.0, 0.0))
    ensures !Mergeable(inner, outer)
  {
    assert Cross(inner.Direction(), outer.Direction()).z != 0.0;
  }

  /** No side of the joined square merges with its right side. */
  lemma NoneMergeableWithRight(w: real)
    requires w > 0.0
    ensures forall q | 0 <= q < 4 :: !Mergeable(JoinedSquare(w)[q], SquareRight(w))
  {
    NotMergeableWithItself(SquareRight(w));
    NotMergeableAcross(SquareTop(w), SquareRight(w), -w, w);
    NotMergeableApart(SquareLeft(w), SquareRight(w));
    NotMergeableAcross(SquareBottom(w), SquareRight(w), -w, w);
  }

  /** No side of the joined square merges with its top side. */
  lemma NoneMergeableWithTop(w: real)
    requires w > 0.0
    ensures forall q | 0 <= q < 4 :: !Mergeable(JoinedSquare(w)[q], SquareTop(w))
  {
    NotMergeableAcross(SquareRight(w), SquareTop(w), w, -w);
    NotMergeableWithItself(SquareTop(w));
    NotMergeableAcross(SquareLeft(w), SquareTop(w), -w, -w);
    NotMergeableApart(SquareBottom(w), SquareTop(w));
  }

  /** No side of the joined square merges with its left side. */
  lemma NoneMergeableWithLeft(w: real)
    requires w > 0.0
    ensures forall q | 0 <= q < 4 :: !Mergeable(JoinedSquare(w)[q], SquareLeft(w))
  {
    NotMergeableApart(SquareRight(w), SquareLeft(w));
    NotMergeableAcross(SquareTop(w), SquareLeft(w), -w, -w);
    NotMergeableWithItself(SquareLeft(w));
    NotMergeableAcross(SquareBottom(w), SquareLeft(w), -w, -w);
  }

  /** No side of the joined square merges with its bottom side. */
  lemma NoneMergeableWithBottom(w: real)
    requires w > 0.0
    ensures forall q | 0 <= q < 4 :: !Mergeable(JoinedSquare(w)[q], SquareBottom(w))
  {
    NotMergeableAcross(SquareRight(w), SquareBottom(w), w, -w);
    NotMergeableApart(SquareTop(w), SquareBottom(w));
    NotMergeableAcross(SquareLeft(w), SquareBottom(w), -w, -w);
    NotMergeableWithItself(SquareBottom(w));
  }

  /** The joined square is a fixed point: no two of its sides merge. */
  lemma JoinedSquareIsFixedPoint(w: real)
    requires w > 0.0
    ensures IsFixedPoint(JoinedSquare(w))
  {
    NoneMergeableWithRight(w);
    NoneMergeableWithTop(w);
    NoneMergeableWithLeft(w);
    NoneMergeableWithBottom(w);
    var t := JoinedSquare(w);
    forall p, q | 0 <= p < 4 && 0 <= q < 4
      ensures !Mergeable(t[q], t[p])
    {
      assert t[p] in {SquareRight(w), SquareTop(w), SquareLeft(w), SquareBottom(w)};
    }
  }

  /** The two bottom pieces merge into the bottom side. */
  lemma BottomPiecesMerge(u: real, w: real)
    requires 0.0 < u < w
    ensures Mergeable(SplitSquare(u, w)[1], SplitSquare(u, w)[0])
    ensures MergedEdge(SplitSquare(u, w)[1], SplitSquare(u, w)[0]) == SquareBottom(w)
  {
  }

  /** The scan meets the two bottom pieces first: the left one as edge_outer, the right one as edge_inner. */
  lemma SplitSquareFirstMerge(u: real, w: real)
    requires 0.0 < u < w
    ensures FirstMerge(SplitSquare(u, w)) == Some((0, 1))
  {
    var s := SplitSquare(u, w);
    BottomPiecesMerge(u, w);
    NotMergeableWithItself(s[0]);
    FirstMergeUnique(s, 0, 1);
  }

  /** The bottom side is not yet among the right, top and left sides. */
  lemma BottomIsNew(u: real, w: real)
    requires w > 0.0
    ensures !Covers(SplitSquare(u, w)[2..], SquareBottom(w))
  {
    assert SplitSquare(u, w)[2..] == [SquareRight(w), SquareTop(w), SquareLeft(w)];
  }

  /** Removing both bottom pieces and adding the bottom side gives the joined square. */
  lemma SplitSquareMerged(u: real, w: real)
    requires 0.0 < u < w
    ensures MergeAt(SplitSquare(u, w), 0, 1) == JoinedSquare(w)
  {
    BottomPiecesMerge(u, w);
    BottomIsNew(u, w);
    MergeHeads(SplitSquare(u, w), SquareBottom(w));
    JoinedFromSplit(u, w);
  }

  /** The joined square is the split square without its bottom pieces, with the bottom side appended. */
  lemma JoinedFromSplit(u: real, w: real)
    ensures SplitSquare(u, w)[2..] + [SquareBottom(w)] == JoinedSquare(w)
  {
  }

  /** The intended loop turns the split square into the joined square. */
  lemma SplitSquareSimplified(u: real, w: real)
    requires 0.0 < u < w
    ensures Simplified(SplitSquare(u, w)) == JoinedSquare(w)
  {
    SplitSquareFirstMerge(u, w);
    SplitSquareMerged(u, w);
    JoinedSquareIsFixedPoint(w);
    SimplifiedUnchangedIff(JoinedSquare(w));
  }

  /**
   * After the merge, the scan with the stale bottom-left piece as edge_outer
   * goes on at index 2 of the joined square, passes the left side and meets
   * the bottom side, which merges with it: `remove(edge_outer)` raises.
   */
  lemma StaleScanRaises(u: real, w: real)
    requires 0.0 < u < w
    ensures ScanInner(JoinedSquare(w), SplitSquare(u, w)[0], 2) == RaisedValueError
  {
    var t, stale := JoinedSquare(w), SplitSquare(u, w)[0];
    NotMergeableAcross(SquareLeft(w), stale, -w, u);
    assert Mergeable(SquareBottom(w), stale);
    assert stale !in t;
  }

  /** The first inner scan merges the bottom pieces, and the recursive call leaves the joined square. */
  lemma FirstRowReachesJoinedSquare(u: real, w: real)
    requires 0.0 < u < w
    ensures ScanInner(SplitSquare(u, w), SplitSquare(u, w)[0], 0) == ScanInner(JoinedSquare(w), SplitSquare(u, w)[0], 2)
  {
    var s, t := SplitSquare(u, w), JoinedSquare(w);
    BottomPiecesMerge(u, w);
    SplitSquareMerged(u, w);
    JoinedSquareIsFixedPoint(w);
    FixedPointOuter(t, 0);
    NotMergeableWithItself(s[0]);
    assert ScanOuter(Merged(s, s[0], s[1]), 0) == Finished(t);
  }

  /**
   * On the split square the intended simplification ends at the joined
   * square, but the code as written raises `ValueError`: the top-level scan
   * resumes with the removed bottom-left piece as edge_outer after the
   * recursive call has returned.
   */
  lemma AsWrittenRaisesOnSplitSquare(u: real, w: real)
    requires 0.0 < u < w
    ensures Simplified(SplitSquare(u, w)) == JoinedSquare(w)
    ensures Step3RecursiveAsWritten(SplitSquare(u, w)) == RaisedValueError
  {
    SplitSquareSimplified(u, w);
    FirstRowReachesJoinedSquare(u, w);
    StaleScanRaises(u, w);
  }
}
