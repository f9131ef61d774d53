/**
 * The cut de-duplicator of the white-template timeline builder
 * (create-white-video.py, `dedupe_cuts`). With a window `w <= 0` it only
 * rounds every cut to the millisecond and returns the distinct values in
 * ascending order. With `w > 0` it walks the cuts in the order given and keeps
 * a cut when it lies at least `w` after the last cut kept (the first cut of a
 * cluster wins), then rounds the kept cuts to the millisecond. That branch
 * does not sort: its caller hands it cuts already sorted.
 */
module Dedupe {
  import opened Rounding

  predicate Sorted(s: seq<real>) {
    forall i, j :: 0 <= i < j < |s| ==> s[i] <= s[j]
  }

  predicate StrictlyIncreasing(s: seq<real>) {
    forall i, j :: 0 <= i < j < |s| ==> s[i] < s[j]
  }

  /** Consecutive elements are at least `w` apart. */
  predicate Separated(s: seq<real>, w: real) {
    forall i :: 0 <= i < |s| - 1 ==> s[i + 1] - s[i] >= w
  }

  /** `s` is taken from `cuts` at the positions `idx`, in order. */
  predicate PickedAt(s: seq<real>, cuts: seq<real>, idx: seq<nat>) {
    |idx| == |s| &&
    (forall k :: 0 <= k < |idx| ==> idx[k] < |cuts| && s[k] == cuts[idx[k]]) &&
    (forall k :: 0 <= k < |idx| - 1 ==> idx[k] < idx[k + 1])
  }

  // ---------------------------------------------------------------------
  // The greedy merge (window w > 0), before rounding.

  /** The cuts the `w > 0` loop keeps from `cuts`: defined on the last cut, as the loop sees it. */
  function Merge(cuts: seq<real>, w: real): (kept: seq<real>)
    ensures |kept| <= |cuts|
    ensures kept == [] <==> cuts == []
    decreases |cuts|
  {
    if cuts == [] then []
    else
      var kept := Merge(cuts[..|cuts| - 1], w);
      var t := cuts[|cuts| - 1];
      if kept == [] || t - kept[|kept| - 1] >= w then kept + [t] else kept
  }

  /** `[round(t, 3) for t in s]`. */
  function RoundAll(s: seq<real>): (r: seq<real>)
    ensures |r| == |s|
    ensures forall i :: 0 <= i < |s| ==> IsMillis(r[i]) && -0.0005 <= r[i] - s[i] <= 0.0005
  {
    seq(|s|, i requires 0 <= i < |s| => Round3(s[i]))
  }

  /** The positions of `cuts` the greedy merge keeps, which witnesses that it keeps a subsequence. */
  function KeptIndices(cuts: seq<real>, w: real): (idx: seq<nat>)
    ensures PickedAt(Merge(cuts, w), cuts, idx)
    ensures |idx| <= |cuts|
    ensures |cuts| > 0 ==> |idx| > 0 && idx[0] == 0
    decreases |cuts|
  {
    if cuts == [] then []
    else
      var n := |cuts| - 1;
      var idx := KeptIndices(cuts[..n], w);
      var kept := Merge(cuts[..n], w);
      PickedAtExtend(kept, cuts, n, idx);
      if kept == [] || cuts[n] - kept[|kept| - 1] >= w then idx + [n] else idx
  }

  /** A pick from a prefix is a pick from the whole list, and stays one when the next element is added. */
  lemma PickedAtExtend(s: seq<real>, cuts: seq<real>, n: nat, idx: seq<nat>)
    requires n < |cuts| && PickedAt(s, cuts[..n], idx)
    ensures PickedAt(s, cuts, idx)
    ensures PickedAt(s + [cuts[n]], cuts, idx + [n])
  {
    assert forall k :: 0 <= k < |idx| ==> idx[k] < n && cuts[..n][idx[k]] == cuts[idx[k]];
  }

  /** The first cut is always kept. */
  lemma {:induction false} MergeKeepsFirst(cuts: seq<real>, w: real)
    requires |cuts| > 0
    ensures |Merge(cuts, w)| > 0 && Merge(cuts, w)[0] == cuts[0]
    decreases |cuts|
  {
    var n := |cuts| - 1;
    if n > 0 {
      MergeKeepsFirst(cuts[..n], w);
    }
  }

  /** Two consecutive kept cuts are at least the window apart, whatever the order of the input. */
  lemma {:induction false} MergeSeparated(cuts: seq<real>, w: real)
    ensures Separated(Merge(cuts, w), w)
    decreases |cuts|
  {
    if cuts != [] {
      MergeSeparated(cuts[..|cuts| - 1], w);
    }
  }

  /** With a positive step between neighbours, any two elements are at least one step apart. */
  lemma {:induction false} SeparatedPairwise(s: seq<real>, w: real)
    requires w > 0.0 && Separated(s, w)
    ensures forall i, j :: 0 <= i < j < |s| ==> s[j] - s[i] >= w
    decreases |s|
  {
    if |s| > 1 {
      var p := s[..|s| - 1];
      assert Separated(p, w);
      SeparatedPairwise(p, w);
      forall i | 0 <= i < |s| - 1
        ensures s[|s| - 1] - s[i] >= w
      {
        if i < |s| - 2 {
          assert s[|s| - 2] - s[i] >= w;
        }
      }
    }
  }

  /** The merge of a prefix is a prefix of the merge: kept cuts are never revisited. */
  lemma {:induction false} MergePrefix(cuts: seq<real>, i: nat, w: real)
    requires i <= |cuts|
    ensures |Merge(cuts[..i], w)| <= |Merge(cuts, w)|
    ensures Merge(cuts[..i], w) == Merge(cuts, w)[..|Merge(cuts[..i], w)|]
    decreases |cuts|
  {
    if i == |cuts| {
      assert cuts[..i] == cuts;
    } else {
      var p := cuts[..|cuts| - 1];
      assert p[..i] == cuts[..i];
      MergePrefix(p, i, w);
    }
  }

  /**
   * On sorted input every cut, kept or dropped, lies within one window after
   * a kept cut: each dropped cut was absorbed by the cluster's first cut.
   */
  lemma MergeAbsorbs(cuts: seq<real>, w: real, j: nat)
    requires Sorted(cuts) && w > 0.0 && j < |cuts|
    ensures exists k :: 0 <= k < |Merge(cuts, w)| && Merge(cuts, w)[k] <= cuts[j] < Merge(cuts, w)[k] + w
  {
    var p := cuts[..j + 1];
    var m := Merge(p, w);
    MergeKeepsFirst(p, w);
    var last := m[|m| - 1];
    var idx := KeptIndices(p, w);
    assert last == p[idx[|m| - 1]] == cuts[idx[|m| - 1]];
    assert last <= cuts[j];
    assert cuts[j] < last + w by {
      var before := Merge(p[..j], w);
      assert p[j] == cuts[j];
      assert last == cuts[j] || (m == before && cuts[j] - before[|before| - 1] < w);
    }
    MergePrefix(cuts, j + 1, w);
    var k := |m| - 1;
    assert Merge(cuts, w)[k] == last;
  }

  /** With a positive window, the merge keeps every cut of a list whose neighbours are a window apart. */
  lemma {:induction false} MergeKeepsSeparated(cuts: seq<real>, w: real)
    requires Separated(cuts, w)
    ensures Merge(cuts, w) == cuts
    decreases |cuts|
  {
    if cuts != [] {
      var n := |cuts|;
      var p := cuts[..n - 1];
      assert Separated(p, w) by {
        forall i | 0 <= i < |p| - 1
          ensures p[i + 1] - p[i] >= w
        {
          assert p[i + 1] == cuts[i + 1] && p[i] == cuts[i];
        }
      }
      MergeKeepsSeparated(p, w);
      if n >= 2 {
        assert p[n - 2] == cuts[n - 2];
        assert cuts[n - 1] - p[n - 2] >= w;
      }
      assert cuts == p + [cuts[n - 1]];
    }
  }

  // ---------------------------------------------------------------------
  // The sorted set of rounded cuts (window w <= 0).

  /** Inserts `x` into a strictly increasing list unless it is already there. */
  function InsertUnique(x: real, s: seq<real>): (r: seq<real>)
    requires StrictlyIncreasing(s)
    ensures StrictlyIncreasing(r)
    ensures forall y :: y in r <==> y == x || y in s
    decreases |s|
  {
    if s == [] then [x]
    else if x < s[0] then [x] + s
    else if x == s[0] then s
    else
      var rest := InsertUnique(x, s[1..]);
      assert forall y :: y in s[1..] ==> s[0] < y;
      assert forall j :: 0 <= j < |rest| ==> rest[j] in rest && s[0] < rest[j];
      [s[0]] + rest
  }

  /** `sorted(set(s))`: the distinct values of `s`, in ascending order. */
  function SortedUnique(s: seq<real>): (r: seq<real>)
    ensures StrictlyIncreasing(r)
    ensures forall y :: y in r <==> y in s
    decreases |s|
  {
    if s == [] then []
    else
      var r := InsertUnique(s[|s| - 1], SortedUnique(s[..|s| - 1]));
      assert forall y :: y in s <==> y in s[..|s| - 1] || y == s[|s| - 1];
      r
  }

  /** Inserting a value above every element appends it. */
  lemma {:induction false} InsertUniqueAtEnd(x: real, s: seq<real>)
    requires StrictlyIncreasing(s)
    requires forall k :: 0 <= k < |s| ==> s[k] < x
    ensures InsertUnique(x, s) == s + [x]
    decreases |s|
  {
    if s != [] {
      InsertUniqueAtEnd(x, s[1..]);
    }
  }

  /** A list that is already strictly increasing is its own sorted set. */
  lemma {:induction false} SortedUniqueOfIncreasing(s: seq<real>)
    requires StrictlyIncreasing(s)
    ensures SortedUnique(s) == s
    decreases |s|
  {
    if s != [] {
      var p := s[..|s| - 1];
      SortedUniqueOfIncreasing(p);
      InsertUniqueAtEnd(s[|s| - 1], p);
    }
  }

  // ---------------------------------------------------------------------
  // dedupe_cuts.

  /** What `dedupe_cuts(cuts, w)` returns. */
  function Deduped(cuts: seq<real>, w: real): (r: seq<real>)
    ensures forall k :: 0 <= k < |r| ==> IsMillis(r[k])
    ensures r == [] <==> cuts == []
  {
    var rounded := RoundAll(if w <= 0.0 then cuts else Merge(cuts, w));
    assert forall k :: 0 <= k < |rounded| ==> IsMillis(rounded[k]);
    if w <= 0.0 then
      var u := SortedUnique(rounded);
      assert forall k :: 0 <= k < |u| ==> IsMillis(u[k]) by {
        forall k | 0 <= k < |u|
          ensures IsMillis(u[k])
        {
          assert u[k] in rounded;
        }
      }
      assert cuts != [] ==> rounded[0] in u;
      u
    else
      rounded
  }

  /** `dedupe_cuts`: the set-and-sort branch, or the greedy loop over the cuts followed by rounding. */
  method DedupeCuts(cuts: seq<real>, w: real) returns (r: seq<real>)
    ensures r == Deduped(cuts, w)
    ensures |r| <= |cuts|
    ensures cuts == [] ==> r == []
  {
    if w <= 0.0 {
      r := SortedUnique(RoundAll(cuts));
      DedupedLength(cuts, w);
      return;
    }
    var merged: seq<real> := [];
    for i := 0 to |cuts|
      invariant merged == Merge(cuts[..i], w)
    {
      var t := cuts[i];
      assert cuts[..i + 1][..i] == cuts[..i];
      if merged == [] || t - merged[|merged| - 1] >= w {
        merged := merged + [t];
      }
    }
    assert cuts[..|cuts|] == cuts;
    r := RoundAll(merged);
    DedupedLength(cuts, w);
  }

  /** A sorted set is no longer than the list it came from. */
  lemma {:induction false} SortedUniqueLength(s: seq<real>)
    ensures |SortedUnique(s)| <= |s|
    decreases |s|
  {
    if s != [] {
      var p := s[..|s| - 1];
      SortedUniqueLength(p);
      var q := SortedUnique(p);
      var x := s[|s| - 1];
      InsertUniqueLength(x, q);
    }
  }

  /** Inserting adds at most one element. */
  lemma {:induction false} InsertUniqueLength(x: real, s: seq<real>)
    requires StrictlyIncreasing(s)
    ensures |InsertUnique(x, s)| <= |s| + 1
    decreases |s|
  {
    if s != [] && x > s[0] {
      InsertUniqueLength(x, s[1..]);
    }
  }

  /** The result is never longer than the input. */
  lemma DedupedLength(cuts: seq<real>, w: real)
    ensures |Deduped(cuts, w)| <= |cuts|
  {
    if w <= 0.0 {
      SortedUniqueLength(RoundAll(cuts));
    } else {
      var idx := KeptIndices(cuts, w);
    }
  }

  /**
   * With `w > 0` the result is the kept subsequence rounded to the
   * millisecond: position `k` holds the rounded cut at position `idx[k]`,
   * the first input cut comes first, and the cuts kept were a window apart
   * before rounding.
   */
  lemma DedupedWithWindow(cuts: seq<real>, w: real)
    requires w > 0.0
    ensures var r, idx := Deduped(cuts, w), KeptIndices(cuts, w);
      |idx| == |r| &&
      (forall k :: 0 <= k < |r| ==> idx[k] < |cuts| && r[k] == Round3(cuts[idx[k]])) &&
      (forall k :: 0 <= k < |r| - 1 ==> idx[k] < idx[k + 1]) &&
      (|cuts| > 0 ==> |r| > 0 && r[0] == Round3(cuts[0])) &&
      Separated(Merge(cuts, w), w)
  {
    if |cuts| > 0 {
      MergeKeepsFirst(cuts, w);
    }
    MergeSeparated(cuts, w);
  }

  /** With `w > 0` the result never decreases; it rises strictly once the window exceeds a millisecond. */
  lemma DedupedOrdered(cuts: seq<real>, w: real)
    requires w > 0.0
    ensures Sorted(Deduped(cuts, w))
    ensures w > 0.001 ==> StrictlyIncreasing(Deduped(cuts, w))
  {
    var m := Merge(cuts, w);
    MergeSeparated(cuts, w);
    SeparatedPairwise(m, w);
    var r := Deduped(cuts, w);
    forall i, j | 0 <= i < j < |r|
      ensures r[i] <= r[j]
      ensures w > 0.001 ==> r[i] < r[j]
    {
      Round3Monotone(m[i], m[j]);
    }
  }

  /**
   * With `w <= 0` the result is strictly increasing and holds exactly the
   * input cuts rounded to the millisecond.
   */
  lemma DedupedWithoutWindow(cuts: seq<real>, w: real)
    requires w <= 0.0
    ensures var r := Deduped(cuts, w);
      StrictlyIncreasing(r) &&
      (forall i :: 0 <= i < |cuts| ==> Round3(cuts[i]) in r) &&
      (forall y :: y in r ==> exists i :: 0 <= i < |cuts| && y == Round3(cuts[i]))
  {
    var rounded := RoundAll(cuts);
    forall i | 0 <= i < |cuts|
      ensures Round3(cuts[i]) in Deduped(cuts, w)
    {
      assert rounded[i] == Round3(cuts[i]);
    }
  }

  /** Without a window, de-duplicating twice is de-duplicating once. */
  lemma DedupedIdempotentWithoutWindow(cuts: seq<real>, w: real)
    requires w <= 0.0
    ensures Deduped(Deduped(cuts, w), w) == Deduped(cuts, w)
  {
    var d := Deduped(cuts, w);
    DedupedWithoutWindow(cuts, w);
    var rd := RoundAll(d);
    forall k | 0 <= k < |d|
      ensures rd[k] == d[k]
    {
      assert d[k] in d;
      var i :| 0 <= i < |cuts| && d[k] == Round3(cuts[i]);
    }
    assert rd == d;
    SortedUniqueOfIncreasing(d);
  }

  /**
   * With a positive window, a list of millisecond cuts whose neighbours are
   * a window apart is left as it is.
   */
  lemma DedupedFixpoint(cuts: seq<real>, w: real)
    requires w > 0.0 && Separated(cuts, w)
    requires forall i :: 0 <= i < |cuts| ==> IsMillis(cuts[i])
    ensures Deduped(cuts, w) == cuts
  {
    MergeKeepsSeparated(cuts, w);
  }

  /**
   * Rounding happens after the merge, so with a window below a millisecond
   * two kept cuts can round to the same value, and de-duplicating again
   * changes the result.
   */
  lemma DedupedCanRepeat()
    ensures Deduped([0.0001, 0.0004], 0.00025) == [0.0, 0.0]
    ensures Deduped([0.0, 0.0], 0.00025) == [0.0]
  {
    var cuts := [0.0001, 0.0004];
    assert cuts[..1] == [0.0001];
    assert Merge(cuts[..1], 0.00025) == [0.0001];
    assert Merge(cuts, 0.00025) == cuts;
    assert Round3(0.0001) == 0.0;
    assert Round3(0.0004) == 0.0;
    var z := [0.0, 0.0];
    assert z[..1] == [0.0];
    assert Merge(z[..1], 0.00025) == [0.0];
    assert Merge(z, 0.00025) == [0.0];
  }

  /**
   * Rounding can also pull two kept cuts closer than a window that is not a
   * whole number of milliseconds: 0.0016 and 0.0124 are 10.8 ms apart, their
   * roundings 0.002 and 0.012 only 10 ms, so a second pass with a 10.5 ms
   * window drops the later one.
   */
  lemma DedupedCanNarrow()
    ensures Deduped([0.0016, 0.0124], 0.0105) == [0.002, 0.012]
    ensures Deduped([0.002, 0.012], 0.0105) == [0.002]
  {
    var cuts := [0.0016, 0.0124];
    assert cuts[..1] == [0.0016];
    assert Merge(cuts[..1], 0.0105) == [0.0016];
    assert Merge(cuts, 0.0105) == cuts;
    RoundHalfEvenUnique(1.6, 2);
    RoundHalfEvenUnique(12.4, 12);
    assert Round3(0.0016) == 0.002;
    assert Round3(0.0124) == 0.012;
    var z := [0.002, 0.012];
    assert z[..1] == [0.002];
    assert Merge(z[..1], 0.0105) == [0.002];
    assert Merge(z, 0.0105) == [0.002];
    assert IsMillis(0.002);
  }

  /** The worked example: three raw cuts, a 50 ms window, two cuts kept. */
  lemma DedupedExample()
    ensures Deduped([2.01, 2.03, 5.0], 0.05) == [2.01, 5.0]
  {
    var cuts := [2.01, 2.03, 5.0];
    assert Deduped(cuts, 0.05) == RoundAll(Merge(cuts, 0.05));
    assert cuts[..1] == [2.01] && cuts[..2] == [2.01, 2.03];
    assert [2.01, 2.03][..1] == [2.01];
    assert Merge([2.01], 0.05) == [2.01];
    assert Merge([2.01, 2.03], 0.05) == [2.01];
    assert Merge(cuts, 0.05) == [2.01, 5.0];
    assert IsMillis(2.01) && IsMillis(5.0);
    assert RoundAll([2.01, 5.0]) == [2.01, 5.0];
  }
}
