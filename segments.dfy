/**
 * The segmenter of the white-template timeline builder
 * (create-white-video.py, `to_segments`): the boundary list
 * `[0.0] + cuts + [duration]`, and one `(start, end)` segment for every
 * consecutive pair of boundaries whose end lies strictly after its start.
 */
module Segments {
  import opened Dedupe

  datatype Segment = Segment(start: real, end: real)

  /** `[0.0] + cuts + [duration]`. */
  function Boundaries(cuts: seq<real>, duration: real): (p: seq<real>)
    ensures |p| == |cuts| + 2 && p[0] == 0.0 && p[|p| - 1] == duration
    ensures forall k :: 0 <= k < |cuts| ==> p[k + 1] == cuts[k]
  {
    [0.0] + cuts + [duration]
  }

  /**
   * The segments the `zip(points, points[1:])` loop emits, defined on the
   * last pair as the loop sees it. Only pairs that advance are emitted, so at
   * most one per pair.
   */
  function Pairs(points: seq<real>): (segs: seq<Segment>)
    ensures forall k :: 0 <= k < |segs| ==> segs[k].start < segs[k].end
    ensures |points| > 0 ==> |segs| < |points|
    decreases |points|
  {
    if |points| < 2 then []
    else
      var n := |points|;
      var segs := Pairs(points[..n - 1]);
      if points[n - 1] > points[n - 2] then segs + [Segment(points[n - 2], points[n - 1])] else segs
  }

  /** What `to_segments(cuts, duration)` returns. */
  function SegmentsOf(cuts: seq<real>, duration: real): (segs: seq<Segment>)
    ensures forall k :: 0 <= k < |segs| ==> segs[k].start < segs[k].end
    ensures |segs| <= |cuts| + 1
  {
    Pairs(Boundaries(cuts, duration))
  }

  /** `to_segments`: the loop over consecutive boundaries. */
  method ToSegments(cuts: seq<real>, duration: real) returns (segs: seq<Segment>)
    ensures segs == SegmentsOf(cuts, duration)
    ensures forall k :: 0 <= k < |segs| ==> segs[k].start < segs[k].end
    ensures |segs| <= |cuts| + 1
  {
    var points := [0.0] + cuts + [duration];
    segs := [];
    for i := 0 to |points| - 1
      invariant segs == Pairs(points[..i + 1])
    {
      var a, b := points[i], points[i + 1];
      assert points[..i + 2][..i + 1] == points[..i + 1];
      if b > a {
        segs := segs + [Segment(a, b)];
      }
    }
    assert points[..|points|] == points;
  }

  /** Segments that follow each other with no gap and no overlap. */
  predicate Contiguous(segs: seq<Segment>) {
    forall k :: 0 <= k < |segs| - 1 ==> segs[k].end == segs[k + 1].start
  }

  /**
   * On sorted boundaries the emitted segments are contiguous and run from
   * the first boundary to the last; none at all when those are equal.
   */
  lemma {:induction false} PairsOfSorted(points: seq<real>)
    requires |points| > 0 && Sorted(points)
    ensures var segs := Pairs(points);
      Contiguous(segs) &&
      (segs == [] <==> points[0] == points[|points| - 1]) &&
      (segs != [] ==> segs[0].start == points[0] && segs[|segs| - 1].end == points[|points| - 1])
    decreases |points|
  {
    var n := |points|;
    if n >= 2 {
      var p := points[..n - 1];
      assert Sorted(p);
      PairsOfSorted(p);
      assert p[0] == points[0] && p[n - 2] == points[n - 2];
    }
  }

  /** On strictly increasing boundaries every consecutive pair becomes a segment. */
  lemma {:induction false} PairsOfIncreasing(points: seq<real>)
    requires |points| > 0 && StrictlyIncreasing(points)
    ensures |Pairs(points)| == |points| - 1
    ensures forall k :: 0 <= k < |points| - 1 ==> Pairs(points)[k] == Segment(points[k], points[k + 1])
    decreases |points|
  {
    var n := |points|;
    if n >= 2 {
      var p := points[..n - 1];
      PairsOfIncreasing(p);
    }
  }

  /** Cut points as the segmenter expects them: strictly increasing and strictly inside the video. */
  predicate InteriorCuts(cuts: seq<real>, duration: real) {
    duration > 0.0 && StrictlyIncreasing(cuts) &&
    forall k :: 0 <= k < |cuts| ==> 0.0 < cuts[k] < duration
  }

  /**
   * Interior cuts give exactly one segment per cut plus one: the first
   * starts at 0, the last ends at the duration, and each segment ends where
   * the next starts, at a cut.
   */
  lemma SegmentsTile(cuts: seq<real>, duration: real)
    requires InteriorCuts(cuts, duration)
    ensures var segs := SegmentsOf(cuts, duration);
      |segs| == |cuts| + 1 &&
      segs[0].start == 0.0 && segs[|segs| - 1].end == duration &&
      Contiguous(segs) &&
      forall k :: 0 <= k < |cuts| ==> segs[k].end == cuts[k] && segs[k + 1].start == cuts[k]
  {
    var p := Boundaries(cuts, duration);
    assert StrictlyIncreasing(p) by {
      forall i, j | 0 <= i < j < |p|
        ensures p[i] < p[j]
      {
        if 0 < i && j < |p| - 1 {
          assert p[i] == cuts[i - 1] && p[j] == cuts[j - 1];
        } else if 0 < j < |p| - 1 {
          assert p[j] == cuts[j - 1];
        } else if 0 < i < |p| - 1 {
          assert p[i] == cuts[i - 1];
        }
      }
    }
    PairsOfIncreasing(p);
    var segs := Pairs(p);
    forall k | 0 <= k < |segs| - 1
      ensures segs[k].end == segs[k + 1].start
    {
      assert segs[k] == Segment(p[k], p[k + 1]) && segs[k + 1] == Segment(p[k + 1], p[k + 2]);
    }
    forall k | 0 <= k < |cuts|
      ensures segs[k].end == cuts[k] && segs[k + 1].start == cuts[k]
    {
      assert segs[k] == Segment(p[k], p[k + 1]) && segs[k + 1] == Segment(p[k + 1], p[k + 2]);
    }
    assert segs[0] == Segment(p[0], p[1]);
    assert segs[|segs| - 1] == Segment(p[|p| - 2], p[|p| - 1]);
  }

  /** Every instant of `[0, duration)` falls inside some segment. */
  lemma SegmentsCover(cuts: seq<real>, duration: real, t: real)
    requires InteriorCuts(cuts, duration) && 0.0 <= t < duration
    ensures exists k :: (0 <= k < |SegmentsOf(cuts, duration)| &&
      SegmentsOf(cuts, duration)[k].start <= t < SegmentsOf(cuts, duration)[k].end)
  {
    SegmentsTile(cuts, duration);
    var segs := SegmentsOf(cuts, duration);
    var k := FindSegment(segs, t);
  }

  /** The segment of a contiguous list that holds `t`, found by scanning from the end. */
  lemma {:induction false} FindSegment(segs: seq<Segment>, t: real) returns (k: nat)
    requires |segs| > 0 && Contiguous(segs)
    requires segs[0].start <= t < segs[|segs| - 1].end
    ensures k < |segs| && segs[k].start <= t < segs[k].end
    decreases |segs|
  {
    var n := |segs|;
    if segs[n - 1].start <= t {
      k := n - 1;
    } else {
      k := FindSegment(segs[..n - 1], t);
    }
  }

  /** The starts of all segments but the first: the cuts the segmentation came from. */
  function InnerStarts(segs: seq<Segment>): (cuts: seq<real>)
    ensures |segs| > 0 ==> |cuts| == |segs| - 1
    ensures forall k :: 0 <= k < |cuts| ==> k + 1 < |segs| && cuts[k] == segs[k + 1].start
  {
    if |segs| <= 1 then [] else seq(|segs| - 1, k requires 0 <= k < |segs| - 1 => segs[k + 1].start)
  }

  /**
   * The cuts are recovered from the segments, so segmenting again at the
   * segments' own boundaries gives the same segments.
   */
  lemma SegmentsRoundTrip(cuts: seq<real>, duration: real)
    requires InteriorCuts(cuts, duration)
    ensures InnerStarts(SegmentsOf(cuts, duration)) == cuts
    ensures SegmentsOf(InnerStarts(SegmentsOf(cuts, duration)), duration) == SegmentsOf(cuts, duration)
  {
    SegmentsTile(cuts, duration);
  }

  /**
   * Sorted cuts anywhere in `[0, duration]`, repeated values and cuts at 0 or
   * at the end included, still give contiguous segments from 0 to the
   * duration: the degenerate pairs are dropped, not emitted.
   */
  lemma SegmentsOfSortedCuts(cuts: seq<real>, duration: real)
    requires duration > 0.0 && Sorted(cuts)
    requires forall k :: 0 <= k < |cuts| ==> 0.0 <= cuts[k] <= duration
    ensures var segs := SegmentsOf(cuts, duration);
      |segs| > 0 && segs[0].start == 0.0 && segs[|segs| - 1].end == duration && Contiguous(segs)
  {
    var p := Boundaries(cuts, duration);
    assert Sorted(p) by {
      forall i, j | 0 <= i < j < |p|
        ensures p[i] <= p[j]
      {
        if 0 < i && j < |p| - 1 {
          assert p[i] == cuts[i - 1] && p[j] == cuts[j - 1];
        } else if 0 < j < |p| - 1 {
          assert p[j] == cuts[j - 1];
        } else if 0 < i < |p| - 1 {
          assert p[i] == cuts[i - 1];
        }
      }
    }
    PairsOfSorted(p);
  }

  /** The worked example: cuts at 2.01 s and 5 s in a 10 s video. */
  lemma SegmentsExample()
    ensures SegmentsOf([2.01, 5.0], 10.0) == [Segment(0.0, 2.01), Segment(2.01, 5.0), Segment(5.0, 10.0)]
  {
    SegmentsTile([2.01, 5.0], 10.0);
  }

  /**
   * Segmenting the de-duplicated cuts is not the same as segmenting them
   * after a second de-duplication: the second pass can drop a cut, and its
   * boundary with it.
   */
  lemma RededupeChangesSegments()
    ensures SegmentsOf(Deduped([0.0016, 0.0124], 0.0105), 1.0) ==
      [Segment(0.0, 0.002), Segment(0.002, 0.012), Segment(0.012, 1.0)]
    ensures SegmentsOf(Deduped(Deduped([0.0016, 0.0124], 0.0105), 0.0105), 1.0) ==
      [Segment(0.0, 0.002), Segment(0.002, 1.0)]
  {
    DedupedCanNarrow();
    SegmentsTile([0.002, 0.012], 1.0);
    SegmentsTile([0.002], 1.0);
  }
}
