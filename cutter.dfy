/**
 * The highlight cutter (Cutter/cutter-video.py): its clock-time formatter
 * `fmt_tc`, the clamped in/out computation with optional pre- and
 * post-roll, the mark session the hotkey handlers update, and the plan
 * `export_highlights` carries out. The player's clock is an input (`now`),
 * the probed duration a constructor argument; the ffmpeg runs and the file
 * writes appear as the jobs and lines they would be given.
 */
module Cutter {
  import opened Wrappers
  import opened Rounding
  import opened Text

  /** The configuration the tool starts with. */
  const ROLL_ENABLED_DEFAULT: bool := true
  const PRE_ROLL_DEFAULT: real := 0.30
  const POST_ROLL_DEFAULT: real := 0.20
  const FAST_COPY_DEFAULT: bool := true

  /** How much one press of a roll-tuning key changes the pre- or post-roll. */
  const STEP: real := 0.10

  const HIGHLIGHTS_CSV_HEADER: string := "index,in_sec,out_sec,duration_sec,in_tc,out_tc"

  // ---------------------------------------------------------------------
  // clamp, compute_in, compute_out.

  /** `clamp(x, lo, hi)`, that is `max(lo, min(hi, x))`. */
  function Clamp(x: real, lo: real, hi: real): (r: real)
    ensures lo <= hi ==> lo <= r <= hi
    ensures lo <= x <= hi ==> r == x
    ensures x <= lo ==> r == lo
    ensures lo <= hi <= x ==> r == hi
    ensures hi < lo ==> r == lo
  {
    var m := if hi < x then hi else x;
    if lo < m then m else lo
  }

  /** Clamping never reverses the order of two values. */
  lemma ClampMonotone(x: real, y: real, lo: real, hi: real)
    requires x <= y
    ensures Clamp(x, lo, hi) <= Clamp(y, lo, hi)
  {
  }

  /** The roll settings: whether marks are rolled, and by how much before and after. */
  datatype RollSettings = RollSettings(enabled: bool, pre: real, post: real)

  const DEFAULT_ROLL: RollSettings := RollSettings(ROLL_ENABLED_DEFAULT, PRE_ROLL_DEFAULT, POST_ROLL_DEFAULT)

  /** `compute_in(now)`: the in-point, `pre` seconds early when rolling, kept inside the video. */
  function ComputeIn(roll: RollSettings, duration: real, now: real): (r: real)
    ensures 0.0 <= r && (duration >= 0.0 ==> r <= duration)
    ensures duration < 0.0 ==> r == 0.0
    ensures roll.enabled && 0.0 <= now - roll.pre <= duration ==> r == now - roll.pre
    ensures roll.enabled && now - roll.pre <= 0.0 ==> r == 0.0
    ensures roll.enabled && 0.0 <= duration <= now - roll.pre ==> r == duration
    ensures !roll.enabled && 0.0 <= now <= duration ==> r == now
    ensures !roll.enabled && now <= 0.0 ==> r == 0.0
    ensures !roll.enabled && 0.0 <= duration <= now ==> r == duration
  {
    if !roll.enabled then Clamp(now, 0.0, duration) else Clamp(now - roll.pre, 0.0, duration)
  }

  /** `compute_out(now)`: the out-point, `post` seconds late when rolling, kept inside the video. */
  function ComputeOut(roll: RollSettings, duration: real, now: real): (r: real)
    ensures 0.0 <= r && (duration >= 0.0 ==> r <= duration)
    ensures duration < 0.0 ==> r == 0.0
    ensures roll.enabled && 0.0 <= now + roll.post <= duration ==> r == now + roll.post
    ensures roll.enabled && now + roll.post <= 0.0 ==> r == 0.0
    ensures roll.enabled && 0.0 <= duration <= now + roll.post ==> r == duration
    ensures !roll.enabled && 0.0 <= now <= duration ==> r == now
    ensures !roll.enabled && now <= 0.0 ==> r == 0.0
    ensures !roll.enabled && 0.0 <= duration <= now ==> r == duration
  {
    if !roll.enabled then Clamp(now, 0.0, duration) else Clamp(now + roll.post, 0.0, duration)
  }

  /**
   * With non-negative rolls, the in-point computed at an instant never lies
   * after the out-point computed at the same or a later instant; they
   * coincide only where the clamp flattens both.
   */
  lemma InNotAfterOut(roll: RollSettings, duration: real, tIn: real, tOut: real)
    requires roll.pre >= 0.0 && roll.post >= 0.0 && tIn <= tOut
    ensures ComputeIn(roll, duration, tIn) <= ComputeOut(roll, duration, tOut)
  {
    if roll.enabled {
      ClampMonotone(tIn - roll.pre, tOut + roll.post, 0.0, duration);
    } else {
      ClampMonotone(tIn, tOut, 0.0, duration);
    }
  }

  /** With the default rolls of 0.3 s and 0.2 s, marks at 1 s in a 10 s video give 0.7 s and 1.2 s. */
  lemma RollExample()
    ensures ComputeIn(DEFAULT_ROLL, 10.0, 1.0) == 0.7
    ensures ComputeOut(DEFAULT_ROLL, 10.0, 1.0) == 1.2
  {
  }

  /** `max(0.0, v - STEP)`: a roll lowered by one step, never below zero. */
  function StepDown(v: real): (r: real)
    ensures r >= 0.0
    ensures v >= STEP ==> r == v - STEP
    ensures v <= STEP ==> r == 0.0
  {
    if v - STEP > 0.0 then v - STEP else 0.0
  }

  // ---------------------------------------------------------------------
  // fmt_tc.

  /** The four numbers `fmt_tc` prints: hours, minutes, seconds and milliseconds. */
  datatype ClockTime = ClockTime(h: int, m: int, s: int, ms: int)

  /** `max(0.0, sec)`. */
  function NonNegative(sec: real): (c: real)
    ensures c >= 0.0 && c >= sec
    ensures sec >= 0.0 ==> c == sec
  {
    if sec > 0.0 then sec else 0.0
  }

  /**
   * The fields `fmt_tc(sec)` formats. Negative times show as zero; the
   * whole seconds `int(sec)` (truncation, the floor of a non-negative
   * number) are split with `//` and `%`, and the milliseconds are the
   * fraction rounded on its own, which can reach 1000 although the whole
   * seconds were not carried.
   */
  function FmtTcFields(sec: real): (t: ClockTime)
    ensures 0 <= t.h && 0 <= t.m < 60 && 0 <= t.s < 60 && 0 <= t.ms <= 1000
    ensures t.h * 3600 + t.m * 60 + t.s == NonNegative(sec).Floor
    ensures -0.5 <= t.ms as real - (NonNegative(sec) - NonNegative(sec).Floor as real) * 1000.0 <= 0.5
    ensures sec <= 0.0 ==> t == ClockTime(0, 0, 0, 0)
  {
    var c := NonNegative(sec);
    var whole := c.Floor;
    var ms := RoundHalfEven((c - whole as real) * 1000.0);
    SplitSeconds(whole);
    ClockTime(whole / 3600, (whole / 60) % 60, whole % 60, ms)
  }

  /** Hours, minutes and seconds of a whole number of seconds add back up to it. */
  lemma SplitSeconds(n: int)
    requires n >= 0
    ensures n / 3600 * 3600 + (n / 60) % 60 * 60 + n % 60 == n
    ensures n / 60 / 60 == n / 3600
  {
    var q, r := n / 3600, n % 3600;
    assert n == q * 3600 + r && 0 <= r < 3600;
    assert n / 60 == q * 60 + r / 60;
    assert n / 60 / 60 == q;
  }

  /**
   * A time given in whole milliseconds is shown exactly: the milliseconds
   * field stays below 1000 and all four fields together denote the time.
   */
  lemma FmtTcOfMillis(sec: real, k: int)
    requires k >= 0 && sec == k as real / 1000.0
    ensures var t := FmtTcFields(sec);
      t.ms < 1000 && ((t.h * 60 + t.m) * 60 + t.s) * 1000 + t.ms == k
  {
    var q := k / 1000;
    assert q as real <= sec < q as real + 1.0;
    assert sec.Floor == q;
    var x := (sec - q as real) * 1000.0;
    assert x == (k - q * 1000) as real;
    assert x.Floor as real == x;
  }

  /** `fmt_tc(sec)`: `HH:MM:SS.mmm`, each field zero-padded. */
  function FmtTc(sec: real): string {
    var t := FmtTcFields(sec);
    ZeroPad(t.h, 2) + ":" + ZeroPad(t.m, 2) + ":" + ZeroPad(t.s, 2) + "." + ZeroPad(t.ms, 3)
  }

  /**
   * Below 100 hours and with a milliseconds field below 1000, `fmt_tc` is
   * twelve characters and each field reads back as the number it shows.
   */
  lemma FmtTcLayout(sec: real)
    requires sec < 360000.0 && FmtTcFields(sec).ms < 1000
    ensures var s, t := FmtTc(sec), FmtTcFields(sec);
      |s| == 12 && s[2] == ':' && s[5] == ':' && s[8] == '.' &&
      AllDigits(s[0..2]) && DigitsValue(s[0..2]) == t.h &&
      AllDigits(s[3..5]) && DigitsValue(s[3..5]) == t.m &&
      AllDigits(s[6..8]) && DigitsValue(s[6..8]) == t.s &&
      AllDigits(s[9..12]) && DigitsValue(s[9..12]) == t.ms
  {
    var t := FmtTcFields(sec);
    assert NonNegative(sec).Floor < 360000;
    assert t.h < 100;
    TwoDigitField(t.h);
    TwoDigitField(t.m);
    TwoDigitField(t.s);
    ThreeDigitField(t.ms);
    FieldsLayout(ZeroPad(t.h, 2), ":", ZeroPad(t.m, 2), ":", ZeroPad(t.s, 2), ".", ZeroPad(t.ms, 3));
  }

  /**
   * Below 100 hours and with a milliseconds field below 1000, the clock time
   * `fmt_tc` shows is the time: the hours, minutes and seconds shown add up
   * to its whole seconds (of zero for a negative time), and the milliseconds
   * shown are its fraction to within half a millisecond.
   */
  lemma FmtTcReadsBack(sec: real)
    requires sec < 360000.0 && FmtTcFields(sec).ms < 1000
    ensures var s := FmtTc(sec);
      |s| == 12 && AllDigits(s[0..2]) && AllDigits(s[3..5]) && AllDigits(s[6..8]) && AllDigits(s[9..12]) &&
      DigitsValue(s[0..2]) * 3600 + DigitsValue(s[3..5]) * 60 + DigitsValue(s[6..8]) == NonNegative(sec).Floor &&
      -0.5 <= DigitsValue(s[9..12]) as real - (NonNegative(sec) - NonNegative(sec).Floor as real) * 1000.0 <= 0.5
  {
    FmtTcLayout(sec);
  }

  /** One hour, two minutes and 3.5 seconds. */
  lemma FmtTcExample()
    ensures FmtTcFields(3723.5) == ClockTime(1, 2, 3, 500)
    ensures FmtTc(3723.5) == "01:02:03.500"
  {
    RoundHalfEvenUnique(500.0, 500);
    assert FmtTcFields(3723.5) == ClockTime(1, 2, 3, 500);
    OneDigitPad(1);
    OneDigitPad(2);
    OneDigitPad(3);
    assert ZeroPad(500, 3) == "500" by {
      assert Digits(5) == "5";
      assert Digits(50) == "50";
      assert Digits(500) == "500";
    }
  }

  /**
   * Just below a whole second the fraction rounds up to 1000 milliseconds
   * while the second is not carried: 0.9996 s shows as `00:00:00.1000`.
   */
  lemma FmtTcMillisOverflow()
    ensures FmtTcFields(0.9996) == ClockTime(0, 0, 0, 1000)
    ensures FmtTc(0.9996) == "00:00:00.1000"
  {
    assert NonNegative(0.9996) == 0.9996 && 0.9996.Floor == 0;
    assert (0.9996 - 0.0) * 1000.0 == 999.6;
    RoundHalfEvenUnique(999.6, 1000);
    assert FmtTcFields(0.9996) == ClockTime(0, 0, 0, 1000);
    OneDigitPad(0);
    assert ZeroPad(1000, 3) == "1000" by {
      assert Digits(1) == "1";
      assert Digits(10) == Digits(1) + [DigitChar(0)];
      assert Digits(100) == Digits(10) + [DigitChar(0)];
      assert Digits(1000) == Digits(100) + [DigitChar(0)];
      assert Digits(1000) == "1000";
      assert Repeat('0', 0) == [];
    }
  }

  // ---------------------------------------------------------------------
  // The mark session.

  /** A committed highlight, the `(in, out)` pair in seconds. */
  datatype Highlight = Highlight(start: real, end: real)

  /** What pressing the out key did. */
  datatype OutOutcome =
    | NoPendingIn
    | OutNotAfterIn(outPoint: real, inPoint: real)
    | Saved(number: nat, highlight: Highlight)

  /**
   * The state the hotkey handlers share: the pending in-point, the
   * committed highlights and the roll settings, for a video of a fixed
   * duration.
   */
  class MarkSession {
    const duration: real
    var inPoint: Option<real>
    var highlights: seq<Highlight>
    var rollEnabled: bool
    var preRoll: real
    var postRoll: real

    /**
     * Rolls are never negative, every committed highlight lies inside the
     * video and ends after it starts, and a pending in-point lies inside
     * the video.
     */
    predicate Valid()
      reads this
    {
      preRoll >= 0.0 && postRoll >= 0.0 &&
      (forall k :: 0 <= k < |highlights| ==> 0.0 <= highlights[k].start < highlights[k].end <= duration) &&
      (inPoint.Some? ==> 0.0 <= inPoint.value && (duration >= 0.0 ==> inPoint.value <= duration))
    }

    function Roll(): RollSettings
      reads this
    {
      RollSettings(rollEnabled, preRoll, postRoll)
    }

    /** A session on a video of `duration` seconds: nothing marked, the default roll settings. */
    constructor(duration: real)
      ensures Valid()
      ensures this.duration == duration && inPoint == None && highlights == [] && Roll() == DEFAULT_ROLL
    {
      this.duration := duration;
      inPoint := None;
      highlights := [];
      rollEnabled := ROLL_ENABLED_DEFAULT;
      preRoll := PRE_ROLL_DEFAULT;
      postRoll := POST_ROLL_DEFAULT;
    }

    /** `on_in`: the in-point becomes `compute_in(now)`, replacing any pending one. */
    method OnIn(now: real)
      requires Valid()
      modifies this
      ensures Valid()
      ensures inPoint == Some(ComputeIn(old(Roll()), duration, now))
      ensures highlights == old(highlights) && Roll() == old(Roll())
    {
      inPoint := Some(ComputeIn(Roll(), duration, now));
    }

    /**
     * `on_out`: without a pending in-point, or with an out-point
     * `compute_out(now)` not after it, nothing changes and the pending
     * in-point stays; otherwise the pair is appended and the in-point is
     * cleared.
     */
    method OnOut(now: real) returns (outcome: OutOutcome)
      requires Valid()
      modifies this
      ensures Valid() && Roll() == old(Roll())
      ensures old(inPoint).None? ==>
        outcome == NoPendingIn && inPoint == old(inPoint) && highlights == old(highlights)
      ensures old(inPoint).Some? && ComputeOut(old(Roll()), duration, now) <= old(inPoint).value ==>
        outcome == OutNotAfterIn(ComputeOut(old(Roll()), duration, now), old(inPoint).value) &&
        inPoint == old(inPoint) && highlights == old(highlights)
      ensures old(inPoint).Some? && ComputeOut(old(Roll()), duration, now) > old(inPoint).value ==>
        outcome == Saved(|highlights|, Highlight(old(inPoint).value, ComputeOut(old(Roll()), duration, now))) &&
        highlights == old(highlights) + [outcome.highlight] && inPoint == None
    {
      var outPoint := ComputeOut(Roll(), duration, now);
      if inPoint.None? {
        return NoPendingIn;
      }
      if outPoint <= inPoint.value {
        return OutNotAfterIn(outPoint, inPoint.value);
      }
      highlights := highlights + [Highlight(inPoint.value, outPoint)];
      outcome := Saved(|highlights|, Highlight(inPoint.value, outPoint));
      inPoint := None;
    }

    /** `on_undo`: the last highlight, if any, is removed and returned; the pending in-point is always cleared. */
    method OnUndo() returns (removed: Option<Highlight>)
      requires Valid()
      modifies this
      ensures Valid() && Roll() == old(Roll()) && inPoint == None
      ensures old(highlights) == [] ==> removed == None && highlights == []
      ensures old(highlights) != [] ==>
        removed == Some(old(highlights)[|old(highlights)| - 1]) &&
        highlights == old(highlights)[..|old(highlights)| - 1]
    {
      removed := None;
      if highlights != [] {
        removed := Some(highlights[|highlights| - 1]);
        highlights := highlights[..|highlights| - 1];
      }
      inPoint := None;
    }

    /** `on_toggle_roll`: rolling is switched on or off and the pending in-point is dropped. */
    method OnToggleRoll()
      requires Valid()
      modifies this
      ensures Valid()
      ensures rollEnabled == !old(rollEnabled) && preRoll == old(preRoll) && postRoll == old(postRoll)
      ensures inPoint == None && highlights == old(highlights)
    {
      rollEnabled := !rollEnabled;
      inPoint := None;
    }

    /** `on_pre_down`: the pre-roll drops by one step, not below zero. */
    method OnPreDown()
      requires Valid()
      modifies this
      ensures Valid()
      ensures preRoll == StepDown(old(preRoll))
      ensures rollEnabled == old(rollEnabled) && postRoll == old(postRoll)
      ensures inPoint == old(inPoint) && highlights == old(highlights)
    {
      preRoll := StepDown(preRoll);
    }

    /** `on_pre_up`: the pre-roll grows by one step, without an upper bound. */
    method OnPreUp()
      requires Valid()
      modifies this
      ensures Valid()
      ensures preRoll == old(preRoll) + STEP
      ensures rollEnabled == old(rollEnabled) && postRoll == old(postRoll)
      ensures inPoint == old(inPoint) && highlights == old(highlights)
    {
      preRoll := preRoll + STEP;
    }

    /** `on_post_down`: the post-roll drops by one step, not below zero. */
    method OnPostDown()
      requires Valid()
      modifies this
      ensures Valid()
      ensures postRoll == StepDown(old(postRoll))
      ensures rollEnabled == old(rollEnabled) && preRoll == old(preRoll)
      ensures inPoint == old(inPoint) && highlights == old(highlights)
    {
      postRoll := StepDown(postRoll);
    }

    /** `on_post_up`: the post-roll grows by one step, without an upper bound. */
    method OnPostUp()
      requires Valid()
      modifies this
      ensures Valid()
      ensures postRoll == old(postRoll) + STEP
      ensures rollEnabled == old(rollEnabled) && preRoll == old(preRoll)
      ensures inPoint == old(inPoint) && highlights == old(highlights)
    {
      postRoll := postRoll + STEP;
    }

    /** `on_export`: the export plan for the highlights committed so far. */
    method OnExport(fastCopy: bool) returns (r: ExportResult)
      ensures r == ExportOf(highlights, fastCopy)
    {
      r := ExportHighlights(highlights, fastCopy);
    }
  }

  // ---------------------------------------------------------------------
  // export_highlights.

  /** How ffmpeg cuts a clip: copying the streams (fast, keyframe-bound) or re-encoding them. */
  datatype CutMode = StreamCopy | Reencode

  /** One ffmpeg run: the clip's number, its output file name and the span it cuts. */
  datatype ClipJob = ClipJob(index: nat, fileName: string, start: real, end: real, mode: CutMode)

  /** A CSV line of the highlight index, with the clock times its two timecode columns show. */
  type HighlightLine = CsvLine<ClockTime>

  /** What `export_highlights` does: nothing for an empty list, otherwise its clips, its skips and its CSV. */
  datatype ExportResult =
    | NothingToExport
    | Exported(jobs: seq<ClipJob>, skipped: seq<nat>, csv: seq<HighlightLine>)

  /** `f"HL_{i:03d}.mp4"`: the prefix, the padded number and the extension. */
  function ClipName(index: nat): string {
    "HL_" + ZeroPad(index, 3) + ".mp4"
  }

  /** Below 1000 a clip name is ten characters and its three digits read back as the clip number. */
  lemma ClipNameDigits(index: nat)
    requires index < 1000
    ensures |ClipName(index)| == 10
    ensures AllDigits(ClipName(index)[3..6]) && DigitsValue(ClipName(index)[3..6]) == index
  {
    ThreeDigitField(index);
    MiddleOf("HL_", ZeroPad(index, 3), ".mp4");
  }

  function ModeOf(fastCopy: bool): CutMode {
    if fastCopy then StreamCopy else Reencode
  }

  /** The ffmpeg job for the `index`-th highlight. */
  function ClipOf(index: nat, h: Highlight, fastCopy: bool): ClipJob {
    ClipJob(index, ClipName(index), h.start, h.end, ModeOf(fastCopy))
  }

  /** The jobs of the cutting loop: one per highlight that ends after it starts, numbered by its position from 1. */
  function Jobs(hs: seq<Highlight>, fastCopy: bool): (jobs: seq<ClipJob>)
    ensures |jobs| <= |hs|
    decreases |hs|
  {
    if hs == [] then []
    else
      var n := |hs|;
      var rest := Jobs(hs[..n - 1], fastCopy);
      if hs[n - 1].end <= hs[n - 1].start then rest else rest + [ClipOf(n, hs[n - 1], fastCopy)]
  }

  /** The positions, from 1, of the highlights the cutting loop skips. */
  function Skipped(hs: seq<Highlight>): (skipped: seq<nat>)
    ensures |skipped| <= |hs|
    decreases |hs|
  {
    if hs == [] then []
    else
      var n := |hs|;
      var rest := Skipped(hs[..n - 1]);
      if hs[n - 1].end <= hs[n - 1].start then rest + [n] else rest
  }

  /** The CSV row of the `index`-th highlight. */
  function HighlightRow(index: nat, h: Highlight): (row: HighlightLine)
    ensures row.Row? && row.index == index && row.fromSec == h.start && row.toSec == h.end
    ensures row.lengthSec == row.toSec - row.fromSec
    ensures row.fromTc == FmtTcFields(row.fromSec) && row.toTc == FmtTcFields(row.toSec)
    ensures row.lengthSec <= 0.0 <==> h.end <= h.start
  {
    Row(index, h.start, h.end, h.end - h.start, FmtTcFields(h.start), FmtTcFields(h.end))
  }

  /** The lines of `highlights.csv`: the header, then a row for every highlight, skipped or not. */
  function HighlightsCsv(hs: seq<Highlight>): (lines: seq<HighlightLine>)
    ensures |lines| == |hs| + 1
    decreases |hs|
  {
    if hs == [] then [Header(HIGHLIGHTS_CSV_HEADER)]
    else HighlightsCsv(hs[..|hs| - 1]) + [HighlightRow(|hs|, hs[|hs| - 1])]
  }

  /** `export_highlights` as a value: nothing for no highlights, otherwise the jobs, the skips and the CSV. */
  function ExportOf(hs: seq<Highlight>, fastCopy: bool): (r: ExportResult)
    ensures r == NothingToExport <==> hs == []
  {
    if hs == [] then NothingToExport else Exported(Jobs(hs, fastCopy), Skipped(hs), HighlightsCsv(hs))
  }

  /** `export_highlights`: the cutting loop, then the CSV loop. */
  method ExportHighlights(highlights: seq<Highlight>, fastCopy: bool) returns (r: ExportResult)
    ensures r == ExportOf(highlights, fastCopy)
    ensures highlights == [] <==> r == NothingToExport
  {
    if highlights == [] {
      return NothingToExport;
    }
    var jobs: seq<ClipJob> := [];
    var skipped: seq<nat> := [];
    for i := 0 to |highlights|
      invariant jobs == Jobs(highlights[..i], fastCopy)
      invariant skipped == Skipped(highlights[..i])
    {
      assert highlights[..i + 1][..i] == highlights[..i];
      var h := highlights[i];
      if h.end <= h.start {
        skipped := skipped + [i + 1];
      } else {
        jobs := jobs + [ClipOf(i + 1, h, fastCopy)];
      }
    }
    var lines := [Header(HIGHLIGHTS_CSV_HEADER)];
    for i := 0 to |highlights|
      invariant lines == HighlightsCsv(highlights[..i])
    {
      assert highlights[..i + 1][..i] == highlights[..i];
      lines := lines + [HighlightRow(i + 1, highlights[i])];
    }
    assert highlights[..|highlights|] == highlights;
    r := Exported(jobs, skipped, lines);
  }

  /**
   * Every job cuts a highlight that ends after it starts, under that
   * highlight's number, in increasing order of number.
   */
  lemma {:induction false} JobsSound(hs: seq<Highlight>, fastCopy: bool)
    ensures forall j :: 0 <= j < |Jobs(hs, fastCopy)| ==> 1 <= Jobs(hs, fastCopy)[j].index <= |hs|
    ensures forall j :: 0 <= j < |Jobs(hs, fastCopy)| ==>
      var job := Jobs(hs, fastCopy)[j];
      hs[job.index - 1].start < hs[job.index - 1].end && job == ClipOf(job.index, hs[job.index - 1], fastCopy)
    ensures forall j1, j2 :: 0 <= j1 < j2 < |Jobs(hs, fastCopy)| ==> Jobs(hs, fastCopy)[j1].index < Jobs(hs, fastCopy)[j2].index
    decreases |hs|
  {
    if hs != [] {
      var n := |hs|;
      var p := hs[..n - 1];
      JobsSound(p, fastCopy);
      JobsIncreasing(hs, fastCopy);
      var rest, jobs := Jobs(p, fastCopy), Jobs(hs, fastCopy);
      forall j | 0 <= j < |jobs|
        ensures hs[jobs[j].index - 1].start < hs[jobs[j].index - 1].end
        ensures jobs[j] == ClipOf(jobs[j].index, hs[jobs[j].index - 1], fastCopy)
      {
        if j < |rest| {
          var k := rest[j].index - 1;
          assert jobs[j] == rest[j];
          assert k < n - 1 && hs[k] == p[k];
        } else {
          assert jobs[j] == ClipOf(n, hs[n - 1], fastCopy);
        }
      }
    }
  }

  /** The jobs come in the order of their highlights. */
  lemma {:induction false} JobsIncreasing(hs: seq<Highlight>, fastCopy: bool)
    ensures forall j :: 0 <= j < |Jobs(hs, fastCopy)| ==> 1 <= Jobs(hs, fastCopy)[j].index <= |hs|
    ensures forall j1, j2 :: 0 <= j1 < j2 < |Jobs(hs, fastCopy)| ==> Jobs(hs, fastCopy)[j1].index < Jobs(hs, fastCopy)[j2].index
    decreases |hs|
  {
    if hs != [] {
      var n := |hs|;
      var p := hs[..n - 1];
      JobsIncreasing(p, fastCopy);
      var rest, jobs := Jobs(p, fastCopy), Jobs(hs, fastCopy);
      assert forall j :: 0 <= j < |rest| ==> jobs[j] == rest[j];
      forall j1, j2 | 0 <= j1 < j2 < |jobs|
        ensures jobs[j1].index < jobs[j2].index
      {
        if j2 < |rest| {
          assert jobs[j1] == rest[j1] && jobs[j2] == rest[j2];
        } else {
          assert jobs[j1] == rest[j1] && jobs[j2].index == n;
        }
      }
    }
  }

  /** Every highlight that ends after it starts gets a job. */
  lemma {:induction false} JobsComplete(hs: seq<Highlight>, fastCopy: bool, i: nat)
    requires i < |hs| && hs[i].start < hs[i].end
    ensures exists j :: 0 <= j < |Jobs(hs, fastCopy)| && Jobs(hs, fastCopy)[j].index == i + 1
    decreases |hs|
  {
    var n := |hs|;
    var jobs := Jobs(hs, fastCopy);
    if i == n - 1 {
      assert jobs[|jobs| - 1].index == i + 1;
    } else {
      var p := hs[..n - 1];
      assert p[i] == hs[i];
      JobsComplete(p, fastCopy, i);
      var j :| 0 <= j < |Jobs(p, fastCopy)| && Jobs(p, fastCopy)[j].index == i + 1;
      assert jobs[j] == Jobs(p, fastCopy)[j];
    }
  }

  /**
   * The skipped numbers are exactly those of the highlights that do not end
   * after they start, and together with the jobs they account for every
   * highlight once.
   */
  lemma {:induction false} SkippedExactly(hs: seq<Highlight>, fastCopy: bool)
    ensures |Jobs(hs, fastCopy)| + |Skipped(hs)| == |hs|
    ensures forall i :: 1 <= i <= |hs| ==> (i in Skipped(hs) <==> hs[i - 1].end <= hs[i - 1].start)
    decreases |hs|
  {
    if hs != [] {
      var n := |hs|;
      var p := hs[..n - 1];
      SkippedExactly(p, fastCopy);
      assert forall i :: 0 <= i < n - 1 ==> p[i] == hs[i];
      SkippedBelow(p);
      assert n !in Skipped(p);
    }
  }

  /** Skipped numbers never exceed the number of highlights. */
  lemma {:induction false} SkippedBelow(hs: seq<Highlight>)
    ensures forall k :: 0 <= k < |Skipped(hs)| ==> 1 <= Skipped(hs)[k] <= |hs|
    decreases |hs|
  {
    if hs != [] {
      SkippedBelow(hs[..|hs| - 1]);
    }
  }

  /** Distinct clip numbers give distinct file names: no clip overwrites another. */
  lemma ClipNamesDistinct(i: nat, j: nat)
    requires i != j
    ensures ClipName(i) != ClipName(j)
  {
    ZeroPadValue(i, 3);
    ZeroPadValue(j, 3);
    MiddleOf("HL_", ZeroPad(i, 3), ".mp4");
    MiddleOf("HL_", ZeroPad(j, 3), ".mp4");
  }

  /** The CSV has the header and then the row of every highlight, in order, numbered from 1. */
  lemma {:induction false} HighlightsCsvLayout(hs: seq<Highlight>)
    ensures var lines := HighlightsCsv(hs);
      lines[0] == Header(HIGHLIGHTS_CSV_HEADER) &&
      forall k :: 0 <= k < |hs| ==> lines[k + 1] == HighlightRow(k + 1, hs[k])
    decreases |hs|
  {
    if hs != [] {
      var n := |hs| - 1;
      HighlightsCsvLayout(hs[..n]);
      assert forall k :: 0 <= k < n ==> hs[..n][k] == hs[k];
    }
  }

  // ---------------------------------------------------------------------
  // Sessions as the hotkeys drive them.

  /**
   * With the default rolls, in at 1 s and out at 1 s in a 10 s video saves
   * the highlight 0.7 s - 1.2 s as the first one.
   */
  method DefaultRollSession() returns (outcome: OutOutcome, hs: seq<Highlight>)
    ensures outcome == Saved(1, Highlight(0.7, 1.2)) && hs == [Highlight(0.7, 1.2)]
  {
    var session := new MarkSession(10.0);
    session.OnIn(1.0);
    outcome := session.OnOut(1.0);
    hs := session.highlights;
  }

  /**
   * With rolling off, an out-point before the in-point is refused and the
   * in-point is kept, so a later out-point still completes the highlight.
   */
  method RefusedOutKeepsIn() returns (first: OutOutcome, second: OutOutcome)
    ensures first == OutNotAfterIn(4.0, 5.0)
    ensures second == Saved(1, Highlight(5.0, 6.0))
  {
    var session := new MarkSession(10.0);
    session.OnToggleRoll();
    session.OnIn(5.0);
    first := session.OnOut(4.0);
    second := session.OnOut(6.0);
  }

  /** Toggling the roll drops a pending in-point, so the next out key does nothing. */
  method ToggleDropsPendingIn() returns (outcome: OutOutcome, hs: seq<Highlight>)
    ensures outcome == NoPendingIn && hs == []
  {
    var session := new MarkSession(10.0);
    session.OnIn(2.0);
    session.OnToggleRoll();
    outcome := session.OnOut(3.0);
    hs := session.highlights;
  }

  /** Undo after two saves removes the second highlight only. */
  method UndoRemovesLast() returns (removed: Option<Highlight>, hs: seq<Highlight>)
    ensures removed == Some(Highlight(3.0, 4.0)) && hs == [Highlight(1.0, 2.0)]
  {
    var session := new MarkSession(10.0);
    session.OnToggleRoll();
    session.OnIn(1.0);
    var o1 := session.OnOut(2.0);
    session.OnIn(3.0);
    var o2 := session.OnOut(4.0);
    removed := session.OnUndo();
    hs := session.highlights;
  }
}
