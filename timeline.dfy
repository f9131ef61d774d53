/**
 * The edit-list and CSV renderers of the white-template timeline builder
 * and the order of work in its command (create-white-video.py,
 * `export_edl`, `export_csv`, the sort of the detected cuts and `main`).
 * Probing, scene detection and file writes are external; they appear here
 * only as the effects the command performs, in order.
 */
module Timeline {
  import opened Wrappers
  import opened Rounding
  import opened Text
  import opened Timecode
  import opened Dedupe
  import opened Segments

  const EDL_TITLE: string := "TITLE: WHITE_TEMPLATE_30FPS"
  const EDL_FCM: string := "FCM: NON-DROP FRAME"
  const SEGMENTS_CSV_HEADER: string := "index,start_sec,end_sec,duration_sec,start_tc,end_tc"

  /** The reel-name limit of the CMX 3600 convention. */
  const MAX_REEL_LENGTH: nat := 8

  // ---------------------------------------------------------------------
  // The sort the detector applies to the timestamps it scrapes.

  /** Inserts `x` before the first element it does not exceed. */
  function Insert(x: real, s: seq<real>): (r: seq<real>)
    ensures |r| == |s| + 1 && multiset(r) == multiset(s) + multiset{x}
    decreases |s|
  {
    if s == [] || x <= s[0] then [x] + s
    else
      assert s == [s[0]] + s[1..];
      [s[0]] + Insert(x, s[1..])
  }

  /** Inserting into a sorted list keeps it sorted. */
  lemma {:induction false} InsertSorted(x: real, s: seq<real>)
    requires Sorted(s)
    ensures Sorted(Insert(x, s))
    decreases |s|
  {
    if s == [] {
    } else if x <= s[0] {
      ConsSorted(x, s);
    } else {
      var t := s[1..];
      InsertSorted(x, t);
      InsertAtLeast(x, t, s[0]);
      ConsSorted(s[0], Insert(x, t));
    }
  }

  /** Inserting a value no smaller than a bound into a list above that bound stays above it. */
  lemma {:induction false} InsertAtLeast(x: real, s: seq<real>, lo: real)
    requires lo <= x && forall j :: 0 <= j < |s| ==> lo <= s[j]
    ensures forall j :: 0 <= j < |Insert(x, s)| ==> lo <= Insert(x, s)[j]
    decreases |s|
  {
    if s != [] && x > s[0] {
      InsertAtLeast(x, s[1..], lo);
    }
  }

  /** A sorted list stays sorted with a value no larger than any of its elements in front. */
  lemma ConsSorted(a: real, t: seq<real>)
    requires Sorted(t) && forall j :: 0 <= j < |t| ==> a <= t[j]
    ensures Sorted([a] + t)
  {
    var r := [a] + t;
    forall i, j | 0 <= i < j < |r|
      ensures r[i] <= r[j]
    {
      assert r[j] == t[j - 1];
      if i > 0 {
        assert r[i] == t[i - 1];
      }
    }
  }

  /** `cuts.sort()`: the same timestamps, ascending. */
  function SortCuts(s: seq<real>): (r: seq<real>)
    ensures Sorted(r) && multiset(r) == multiset(s)
    decreases |s|
  {
    if s == [] then []
    else
      var p := s[..|s| - 1];
      assert s == p + [s[|s| - 1]];
      var q := SortCuts(p);
      InsertSorted(s[|s| - 1], q);
      Insert(s[|s| - 1], q)
  }

  // ---------------------------------------------------------------------
  // export_edl.

  /** One event of the edit list. */
  datatype Event = Event(number: nat, reel: string, srcIn: int, srcOut: int, recIn: int, recOut: int)

  /**
   * The event for segment `seg` as the `number`-th entry: every clip is cut
   * from the white master and placed at the same time on the record side.
   */
  function EventOf(number: nat, reel: string, seg: Segment): (ev: Event)
    ensures ev.number == number && ev.reel == reel
    ensures ev.srcIn == ev.recIn && ev.srcOut == ev.recOut
    ensures ev.recIn == SecToFrames(seg.start) && ev.recOut == SecToFrames(seg.end)
  {
    var inFrame := SecToFrames(seg.start);
    var outFrame := SecToFrames(seg.end);
    Event(number, reel, inFrame, outFrame, inFrame, outFrame)
  }

  /** `f"{i:03d}  {reel:<8} V     C        {src_in} {src_out} {rec_in} {rec_out}"`. */
  function EventLine(ev: Event): string {
    EventHead(ev.number, ev.reel) + TcPair(ev.srcIn, ev.srcOut) + " " + TcPair(ev.recIn, ev.recOut)
  }

  /** The event number, the reel, the track and the transition: `f"{i:03d}  {reel:<8} V     C        "`. */
  function EventHead(number: nat, reel: string): string {
    ZeroPad(number, 3) + "  " + PadRight(reel, MAX_REEL_LENGTH) + " V     C        "
  }

  /** An in and an out timecode separated by a space. */
  function TcPair(inFrame: int, outFrame: int): string {
    FramesToTcString(inFrame) + " " + FramesToTcString(outFrame)
  }

  /** A line of the edit list: literal text, or an event line still to be laid out. */
  datatype EdlLine = Literal(text: string) | EventEntry(event: Event)

  /** The line as it appears in the file. */
  function Render(line: EdlLine): string {
    match line
    case Literal(t) => t
    case EventEntry(ev) => EventLine(ev)
  }

  /** The three lines of the `number`-th event: the event, its clip-name comment, a blank line. */
  function EventBlock(number: nat, reel: string, seg: Segment): seq<EdlLine> {
    [EventEntry(EventOf(number, reel, seg)), Literal("* FROM CLIP NAME: " + reel), Literal("")]
  }

  /** The lines `export_edl` joins and writes. */
  function EdlLines(segs: seq<Segment>, reel: string): (lines: seq<EdlLine>)
    ensures |lines| == 3 + 3 * |segs|
    decreases |segs|
  {
    if segs == [] then [Literal(EDL_TITLE), Literal(EDL_FCM), Literal("")]
    else EdlLines(segs[..|segs| - 1], reel) + EventBlock(|segs|, reel, segs[|segs| - 1])
  }

  /**
   * The layout of the edit list: the title, the timing mode and a blank line,
   * then three lines per segment, the `k`-th block numbered `k + 1`.
   */
  lemma {:induction false} EdlLayout(segs: seq<Segment>, reel: string)
    ensures var lines := EdlLines(segs, reel);
      lines[0] == Literal(EDL_TITLE) && lines[1] == Literal(EDL_FCM) && lines[2] == Literal("") &&
      forall k :: 0 <= k < |segs| ==>
        lines[3 + 3 * k] == EventEntry(EventOf(k + 1, reel, segs[k])) &&
        lines[4 + 3 * k] == Literal("* FROM CLIP NAME: " + reel) &&
        lines[5 + 3 * k] == Literal("")
    decreases |segs|
  {
    if segs != [] {
      var n := |segs| - 1;
      var p := segs[..n];
      EdlLayout(p, reel);
      var before, block := EdlLines(p, reel), EventBlock(n + 1, reel, segs[n]);
      AppendBlock(before, block);
      var lines := EdlLines(segs, reel);
      assert lines == before + block;
      forall k | 0 <= k < |segs|
        ensures lines[3 + 3 * k] == EventEntry(EventOf(k + 1, reel, segs[k]))
        ensures lines[4 + 3 * k] == Literal("* FROM CLIP NAME: " + reel)
        ensures lines[5 + 3 * k] == Literal("")
      {
        if k < n {
          assert p[k] == segs[k];
          assert lines[3 + 3 * k] == before[3 + 3 * k];
          assert lines[4 + 3 * k] == before[4 + 3 * k];
          assert lines[5 + 3 * k] == before[5 + 3 * k];
        }
      }
    }
  }

  /**
   * As written to the file: the title and the timing mode, then for each
   * segment its event line and its clip-name comment.
   */
  lemma EdlRendered(segs: seq<Segment>, reel: string)
    ensures var lines := EdlLines(segs, reel);
      Render(lines[0]) == EDL_TITLE && Render(lines[1]) == EDL_FCM && Render(lines[2]) == "" &&
      forall k :: 0 <= k < |segs| ==>
        Render(lines[3 + 3 * k]) == EventLine(EventOf(k + 1, reel, segs[k])) &&
        Render(lines[4 + 3 * k]) == "* FROM CLIP NAME: " + reel &&
        Render(lines[5 + 3 * k]) == ""
  {
    EdlLayout(segs, reel);
  }

  /** Appending a block of three lines keeps the lines before it and puts the block at the end. */
  lemma AppendBlock(before: seq<EdlLine>, block: seq<EdlLine>)
    requires |block| == 3
    ensures forall i :: 0 <= i < |before| ==> (before + block)[i] == before[i]
    ensures (before + block)[|before|] == block[0]
    ensures (before + block)[|before| + 1] == block[1]
    ensures (before + block)[|before| + 2] == block[2]
  {
  }

  /** `export_edl`: the header lines, then one block per segment, numbered from 1. */
  method ExportEdl(segs: seq<Segment>, reel: string) returns (lines: seq<EdlLine>)
    ensures lines == EdlLines(segs, reel)
    ensures |lines| == 3 + 3 * |segs|
  {
    lines := [Literal(EDL_TITLE), Literal(EDL_FCM), Literal("")];
    for i := 0 to |segs|
      invariant lines == EdlLines(segs[..i], reel)
    {
      assert segs[..i + 1][..i] == segs[..i];
      lines := lines + EventBlock(i + 1, reel, segs[i]);
    }
    assert segs[..|segs|] == segs;
    EdlLayout(segs, reel);
  }

  /**
   * The columns of an event line, for fewer than 1000 events, a reel name
   * of at most eight characters and times below 100 hours: the event
   * number in columns 0-2, the padded reel in 5-12, and the source in/out
   * timecodes (29-39, 41-51) repeated as the record in/out (53-63, 65-75).
   */
  lemma EventLineColumns(number: nat, reel: string, seg: Segment)
    requires number < 1000 && |reel| <= MAX_REEL_LENGTH
    requires 0 <= SecToFrames(seg.start) < 100 * FRAMES_PER_HOUR
    requires 0 <= SecToFrames(seg.end) < 100 * FRAMES_PER_HOUR
    ensures var line := EventLine(EventOf(number, reel, seg));
      |line| == 76 &&
      AllDigits(line[..3]) && DigitsValue(line[..3]) == number &&
      line[5..13] == PadRight(reel, MAX_REEL_LENGTH) &&
      line[29..40] == FramesToTcString(SecToFrames(seg.start)) &&
      line[41..52] == FramesToTcString(SecToFrames(seg.end)) &&
      line[53..64] == line[29..40] && line[65..76] == line[41..52]
  {
    var ev := EventOf(number, reel, seg);
    EventHeadColumns(number, reel);
    TcPairColumns(ev.srcIn, ev.srcOut);
    LineColumns(EventHead(number, reel), TcPair(ev.srcIn, ev.srcOut));
  }

  /** Where the pieces of a head, a pair, a space and the pair again start and end. */
  lemma LineColumns(head: string, pair: string)
    requires |head| == 29 && |pair| == 23
    ensures var line := head + pair + " " + pair;
      |line| == 76 && line[..3] == head[..3] && line[5..13] == head[5..13] &&
      line[29..40] == pair[..11] && line[41..52] == pair[12..] &&
      line[53..64] == pair[..11] && line[65..76] == pair[12..]
  {
    var line := head + pair + " " + pair;
    assert line[..29] == head;
    assert line[29..52] == pair && line[53..76] == pair;
  }

  /** The head of an event line: 29 characters, the number in columns 0-2 and the padded reel in 5-12. */
  lemma EventHeadColumns(number: nat, reel: string)
    requires number < 1000 && |reel| <= MAX_REEL_LENGTH
    ensures var head := EventHead(number, reel);
      |head| == 29 &&
      AllDigits(head[..3]) && DigitsValue(head[..3]) == number &&
      head[5..13] == PadRight(reel, MAX_REEL_LENGTH)
  {
    ThreeDigitField(number);
    var num, r := ZeroPad(number, 3), PadRight(reel, MAX_REEL_LENGTH);
    var head := EventHead(number, reel);
    assert head == num + "  " + r + " V     C        ";
    assert head[..3] == num;
    assert head[5..13] == r;
  }

  /** Below 100 hours an in/out pair is 23 characters, with the in timecode first and the out timecode last. */
  lemma TcPairColumns(inFrame: int, outFrame: int)
    requires 0 <= inFrame < 100 * FRAMES_PER_HOUR && 0 <= outFrame < 100 * FRAMES_PER_HOUR
    ensures var pair := TcPair(inFrame, outFrame);
      |pair| == 23 && pair[..11] == FramesToTcString(inFrame) && pair[12..] == FramesToTcString(outFrame)
  {
    TcStringLength(inFrame);
    TcStringLength(outFrame);
    var a, b := FramesToTcString(inFrame), FramesToTcString(outFrame);
    assert TcPair(inFrame, outFrame) == a + " " + b;
  }

  // ---------------------------------------------------------------------
  // export_csv.

  /**
   * The row for the `index`-th segment: its times, its length, and the frames
   * whose timecodes (`frames_to_tc`) the row shows.
   */
  function SegmentRow(index: nat, seg: Segment): (row: CsvLine<int>)
    ensures row.Row? && row.index == index && row.fromSec == seg.start && row.toSec == seg.end
    ensures row.lengthSec == row.toSec - row.fromSec
    ensures row.fromTc == SecToFrames(row.fromSec) && row.toTc == SecToFrames(row.toSec)
    ensures seg.start < seg.end ==> row.lengthSec > 0.0 && row.fromTc <= row.toTc
  {
    if seg.start < seg.end then
      SecToFramesMonotone(seg.start, seg.end);
      Row(index, seg.start, seg.end, seg.end - seg.start, SecToFrames(seg.start), SecToFrames(seg.end))
    else
      Row(index, seg.start, seg.end, seg.end - seg.start, SecToFrames(seg.start), SecToFrames(seg.end))
  }

  /** The lines `export_csv` joins and writes. */
  function CsvLines(segs: seq<Segment>): (lines: seq<CsvLine<int>>)
    ensures |lines| == |segs| + 1
    decreases |segs|
  {
    if segs == [] then [Header(SEGMENTS_CSV_HEADER)]
    else CsvLines(segs[..|segs| - 1]) + [SegmentRow(|segs|, segs[|segs| - 1])]
  }

  /** The CSV holds the header and then one row per segment, indexed from 1. */
  lemma {:induction false} CsvLayout(segs: seq<Segment>)
    ensures var lines := CsvLines(segs);
      |lines| == |segs| + 1 && lines[0] == Header(SEGMENTS_CSV_HEADER) &&
      forall k :: 0 <= k < |segs| ==> lines[k + 1] == SegmentRow(k + 1, segs[k])
    decreases |segs|
  {
    if segs != [] {
      var n := |segs| - 1;
      CsvLayout(segs[..n]);
      assert forall k :: 0 <= k < n ==> segs[..n][k] == segs[k];
    }
  }

  /** `export_csv`: the header row, then one row per segment, indexed from 1. */
  method ExportCsv(segs: seq<Segment>) returns (lines: seq<CsvLine<int>>)
    ensures lines == CsvLines(segs)
    ensures |lines| == |segs| + 1
  {
    lines := [Header(SEGMENTS_CSV_HEADER)];
    for i := 0 to |segs|
      invariant lines == CsvLines(segs[..i])
    {
      assert segs[..i + 1][..i] == segs[..i];
      lines := lines + [SegmentRow(i + 1, segs[i])];
    }
    assert segs[..|segs|] == segs;
    CsvLayout(segs);
  }

  /**
   * The two files agree: the timecodes of the `k`-th CSV row are the record
   * timecodes of the `k`-th edit-list event.
   */
  lemma CsvMatchesEdl(segs: seq<Segment>, reel: string, k: nat)
    requires k < |segs|
    ensures CsvLines(segs)[k + 1].Row?
    ensures CsvLines(segs)[k + 1].index == EventOf(k + 1, reel, segs[k]).number
    ensures CsvLines(segs)[k + 1].fromTc == EventOf(k + 1, reel, segs[k]).recIn
    ensures CsvLines(segs)[k + 1].toTc == EventOf(k + 1, reel, segs[k]).recOut
  {
    CsvLayout(segs);
  }

  // ---------------------------------------------------------------------
  // main.

  /** The command-line options the core uses. */
  datatype Options = Options(threshold: real, window: real, reel: string, noWhite: bool)

  /** What `ffprobe_size_duration` reports of the input video. */
  datatype Probe = Probe(width: int, height: int, duration: real)

  datatype TimelineError = ReelTooLong(reel: string)

  /** What the command does to the outside world, in order. */
  datatype Effect =
    | ProbeVideo
    | DetectCuts(threshold: real)
    | MakeWhiteMaster(duration: real, width: int, height: int)
    | WriteEdl(edlLines: seq<EdlLine>)
    | WriteCsv(csvLines: seq<CsvLine<int>>)

  /** The segments the command derives from the detector's raw timestamps. */
  function TimelineSegments(detected: seq<real>, window: real, duration: real): seq<Segment> {
    SegmentsOf(Deduped(SortCuts(detected), window), duration)
  }

  /**
   * The effects of a run that passed validation: probe, detect, the white
   * master unless it was switched off, then the edit list and the CSV.
   */
  function RunEffects(opts: Options, probe: Probe, segs: seq<Segment>): seq<Effect> {
    [ProbeVideo, DetectCuts(opts.threshold)] +
    (if opts.noWhite then [] else [MakeWhiteMaster(probe.duration, probe.width, probe.height)]) +
    [WriteEdl(EdlLines(segs, opts.reel)), WriteCsv(CsvLines(segs))]
  }

  /**
   * The probe comes first and the two files last, the edit list before the
   * CSV, and the white master is made exactly when it is not switched off.
   */
  lemma RunEffectsOrder(opts: Options, probe: Probe, segs: seq<Segment>)
    ensures var effects := RunEffects(opts, probe, segs);
      |effects| == (if opts.noWhite then 4 else 5) &&
      effects[0] == ProbeVideo && effects[1] == DetectCuts(opts.threshold) &&
      effects[|effects| - 2] == WriteEdl(EdlLines(segs, opts.reel)) &&
      effects[|effects| - 1] == WriteCsv(CsvLines(segs)) &&
      (MakeWhiteMaster(probe.duration, probe.width, probe.height) in effects <==> !opts.noWhite)
  {
    var effects := RunEffects(opts, probe, segs);
    if opts.noWhite {
      assert effects == [ProbeVideo, DetectCuts(opts.threshold), WriteEdl(EdlLines(segs, opts.reel)), WriteCsv(CsvLines(segs))];
    }
  }

  /** The cut list of the timeline: the detector's timestamps sorted, de-duplicated and segmented. */
  method PlanSegments(detected: seq<real>, window: real, duration: real) returns (segs: seq<Segment>)
    ensures segs == TimelineSegments(detected, window, duration)
  {
    var rawCuts := SortCuts(detected);
    var cuts := DedupeCuts(rawCuts, window);
    segs := ToSegments(cuts, duration);
  }

  /**
   * `main` after the tool and input-file checks: a reel name longer than
   * eight characters is refused before anything is probed or written;
   * otherwise the video is probed, the detected cuts are sorted,
   * de-duplicated and segmented, the white master is made unless switched
   * off, and the edit list and the CSV are written, both from the same
   * segments. What the probe and the detector report are inputs.
   */
  method BuildTimeline(opts: Options, probe: Probe, detected: seq<real>)
    returns (r: Result<seq<Effect>, TimelineError>)
    ensures r.Failure? <==> |opts.reel| > MAX_REEL_LENGTH
    ensures r.Failure? ==> r.error == ReelTooLong(opts.reel)
    ensures r.Success? ==> r.value == RunEffects(opts, probe, TimelineSegments(detected, opts.window, probe.duration))
  {
    if |opts.reel| > MAX_REEL_LENGTH {
      return Failure(ReelTooLong(opts.reel));
    }
    var effects := [ProbeVideo, DetectCuts(opts.threshold)];
    var segs := PlanSegments(detected, opts.window, probe.duration);
    if !opts.noWhite {
      effects := effects + [MakeWhiteMaster(probe.duration, probe.width, probe.height)];
    }
    var edl := ExportEdl(segs, opts.reel);
    var csv := ExportCsv(segs);
    effects := effects + [WriteEdl(edl), WriteCsv(csv)];
    r := Success(effects);
  }

  /**
   * The timeline can reach a duration that is not a whole number of
   * milliseconds: a cut at 5 s in a 10.0006 s video gives two segments, the
   * second ending exactly at 10.0006 s.
   */
  lemma TimelineEndsAtOddDuration()
    ensures TimelineSegments([5.0], 0.05, 10.0006) == [Segment(0.0, 5.0), Segment(5.0, 10.0006)]
  {
    assert [5.0][..0] == [];
    assert SortCuts([5.0]) == [5.0];
    assert Merge([5.0], 0.05) == [5.0];
    assert IsMillis(5.0) && Round3(5.0) == 5.0;
    assert Deduped([5.0], 0.05) == [5.0];
    var points := Boundaries([5.0], 10.0006);
    assert points == [0.0, 5.0, 10.0006];
    assert points[..2] == [0.0, 5.0] && points[..2][..1] == [0.0];
    assert Pairs(points[..2]) == [Segment(0.0, 5.0)];
  }

  /**
   * A cut that rounds up past the duration becomes the end of the last
   * segment, which then ends after the video: a cut at 10.0006 s in a
   * 10.0006 s video gives one segment, to 10.001 s.
   */
  lemma TimelineOverrunsDuration()
    ensures TimelineSegments([10.0006], 0.05, 10.0006) == [Segment(0.0, 10.001)]
  {
    assert [10.0006][..0] == [];
    assert SortCuts([10.0006]) == [10.0006];
    assert Merge([10.0006], 0.05) == [10.0006];
    RoundHalfEvenUnique(10000.6, 10001);
    assert Round3(10.0006) == 10.001;
    assert Deduped([10.0006], 0.05) == [10.001];
    var points := Boundaries([10.001], 10.0006);
    assert points == [0.0, 10.001, 10.0006];
    assert points[..2] == [0.0, 10.001] && points[..2][..1] == [0.0];
    assert Pairs(points[..2]) == [Segment(0.0, 10.001)];
  }

  /**
   * A detected cut past the duration is not clamped to it: a cut at 12 s in a
   * 10 s video gives the one segment `(0, 12)`, which ends after the video.
   */
  lemma TimelineCutPastDuration()
    ensures TimelineSegments([12.0], 0.05, 10.0) == [Segment(0.0, 12.0)]
  {
    assert [12.0][..0] == [];
    assert SortCuts([12.0]) == [12.0];
    assert Merge([12.0], 0.05) == [12.0];
    assert IsMillis(12.0) && Round3(12.0) == 12.0;
    assert Deduped([12.0], 0.05) == [12.0];
    var points := Boundaries([12.0], 10.0);
    assert points == [0.0, 12.0, 10.0];
    assert points[..2] == [0.0, 12.0] && points[..2][..1] == [0.0];
    assert Pairs(points[..2]) == [Segment(0.0, 12.0)];
  }

  /**
   * When every detected cut lies inside the video and the duration is a
   * whole number of milliseconds, the command's segments run contiguously
   * from 0 to the duration, whatever the window.
   */
  lemma TimelineTiles(detected: seq<real>, window: real, duration: real)
    requires duration > 0.0 && IsMillis(duration)
    requires forall k :: 0 <= k < |detected| ==> 0.0 <= detected[k] <= duration
    ensures var segs := TimelineSegments(detected, window, duration);
      |segs| > 0 && segs[0].start == 0.0 && segs[|segs| - 1].end == duration && Contiguous(segs)
  {
    var sorted := SortCuts(detected);
    forall k | 0 <= k < |sorted|
      ensures 0.0 <= Round3(sorted[k]) <= duration
    {
      assert sorted[k] in multiset(sorted);
      assert sorted[k] in multiset(detected);
      assert sorted[k] in detected;
      Round3Monotone(0.0, sorted[k]);
      Round3Monotone(sorted[k], duration);
      assert IsMillis(0.0);
    }
    var cuts := Deduped(sorted, window);
    if window <= 0.0 {
      DedupedWithoutWindow(sorted, window);
      forall k | 0 <= k < |cuts|
        ensures 0.0 <= cuts[k] <= duration
      {
        assert cuts[k] in cuts;
        var i :| 0 <= i < |sorted| && cuts[k] == Round3(sorted[i]);
      }
    } else {
      DedupedWithWindow(sorted, window);
      DedupedOrdered(sorted, window);
    }
    SegmentsOfSortedCuts(cuts, duration);
  }
}
