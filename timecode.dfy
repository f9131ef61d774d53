/**
 * Frame-accurate timecode of the white-template timeline builder: seconds to
 * frames at a fixed 30 frames per second, and frames to non-drop-frame
 * `HH:MM:SS:FF` (create-white-video.py, `sec_to_frames` and `frames_to_tc`).
 */
module Timecode {
  import opened Rounding
  import opened Text

  /** The template's fixed frame rate. */
  const FPS: int := 30

  const FRAMES_PER_MINUTE: int := 60 * FPS
  const FRAMES_PER_HOUR: int := 60 * FRAMES_PER_MINUTE

  /** `sec_to_frames`: the frame nearest to `t` seconds, Python `round` semantics. */
  function SecToFrames(t: real): (f: int)
    ensures -0.5 <= f as real - t * FPS as real <= 0.5
  {
    RoundHalfEven(t * FPS as real)
  }

  /** The start time of frame `k` maps back to frame `k`. */
  lemma SecToFramesOfFrameStart(k: int)
    ensures SecToFrames(k as real / FPS as real) == k
  {
    assert (k as real / FPS as real) * FPS as real == k as real;
  }

  /** A later time never gets an earlier frame. */
  lemma SecToFramesMonotone(s: real, t: real)
    requires s <= t
    ensures SecToFrames(s) <= SecToFrames(t)
  {
    RoundHalfEvenMonotone(s * FPS as real, t * FPS as real);
  }

  /** The four fields of a non-drop-frame timecode. Hours are unbounded, and negative for negative frames. */
  datatype Tc = Tc(hh: int, mm: int, ss: int, ff: int)

  /** The fields a timecode can have: each one below its base. */
  predicate WellFormed(tc: Tc) {
    0 <= tc.ff < FPS && 0 <= tc.ss < 60 && 0 <= tc.mm < 60
  }

  /** The frame count a timecode denotes. */
  function TotalFrames(tc: Tc): int {
    tc.hh * FRAMES_PER_HOUR + tc.mm * FRAMES_PER_MINUTE + tc.ss * FPS + tc.ff
  }

  /**
   * `frames_to_tc` before formatting: frames within the second, then
   * seconds, minutes and hours, with Python's flooring `//` and `%` (which
   * agree with Dafny's on a positive divisor).
   */
  function FramesToTc(frames: int): (tc: Tc)
    ensures WellFormed(tc)
    ensures TotalFrames(tc) == frames
    ensures frames >= 0 ==> tc.hh >= 0
  {
    var totalSeconds := frames / FPS;
    var totalMinutes := totalSeconds / 60;
    Tc(totalMinutes / 60, totalMinutes % 60, totalSeconds % 60, frames % FPS)
  }

  /** A well-formed timecode is recovered from the frame count it denotes. */
  lemma FramesToTcOfTotal(tc: Tc)
    requires WellFormed(tc)
    ensures FramesToTc(TotalFrames(tc)) == tc
  {
    var n := TotalFrames(tc);
    var totalSeconds := (tc.hh * 60 + tc.mm) * 60 + tc.ss;
    assert n == totalSeconds * FPS + tc.ff;
    assert n / FPS == totalSeconds && n % FPS == tc.ff;
    var totalMinutes := tc.hh * 60 + tc.mm;
    assert totalSeconds == totalMinutes * 60 + tc.ss;
    assert totalSeconds / 60 == totalMinutes && totalSeconds % 60 == tc.ss;
    assert totalMinutes / 60 == tc.hh && totalMinutes % 60 == tc.mm;
  }

  /** `f"{hh:02d}:{mm:02d}:{ss:02d}:{ff:02d}"`. */
  function TcString(tc: Tc): string {
    ZeroPad(tc.hh, 2) + ":" + ZeroPad(tc.mm, 2) + ":" + ZeroPad(tc.ss, 2) + ":" + ZeroPad(tc.ff, 2)
  }

  /** `frames_to_tc`. */
  function FramesToTcString(frames: int): string {
    TcString(FramesToTc(frames))
  }

  /**
   * Below 100 hours a timecode string is eleven characters, `HH:MM:SS:FF`,
   * and each two-digit field reads back as the field.
   */
  lemma TcStringFields(frames: int)
    requires 0 <= frames < 100 * FRAMES_PER_HOUR
    ensures var s, tc := FramesToTcString(frames), FramesToTc(frames);
      |s| == 11 && s[2] == ':' && s[5] == ':' && s[8] == ':' &&
      AllDigits(s[0..2]) && DigitsValue(s[0..2]) == tc.hh &&
      AllDigits(s[3..5]) && DigitsValue(s[3..5]) == tc.mm &&
      AllDigits(s[6..8]) && DigitsValue(s[6..8]) == tc.ss &&
      AllDigits(s[9..11]) && DigitsValue(s[9..11]) == tc.ff
  {
    var tc := FramesToTc(frames);
    assert 0 <= tc.hh < 100;
    TwoDigitField(tc.hh);
    TwoDigitField(tc.mm);
    TwoDigitField(tc.ss);
    TwoDigitField(tc.ff);
    assert FramesToTcString(frames) == TcString(tc);
    FieldsLayout(ZeroPad(tc.hh, 2), ":", ZeroPad(tc.mm, 2), ":", ZeroPad(tc.ss, 2), ":", ZeroPad(tc.ff, 2));
  }

  /**
   * Below 100 hours the timecode string reads back as the frame count: its
   * four fields, taken as hours, minutes, seconds and frames, denote it again.
   */
  lemma TcStringRoundTrip(frames: int)
    requires 0 <= frames < 100 * FRAMES_PER_HOUR
    ensures var s := FramesToTcString(frames);
      |s| == 11 && AllDigits(s[0..2]) && AllDigits(s[3..5]) && AllDigits(s[6..8]) && AllDigits(s[9..11]) &&
      TotalFrames(Tc(DigitsValue(s[0..2]), DigitsValue(s[3..5]), DigitsValue(s[6..8]), DigitsValue(s[9..11]))) == frames
  {
    TcStringFields(frames);
  }

  /** Below 100 hours a timecode string is eleven characters. */
  lemma TcStringLength(frames: int)
    requires 0 <= frames < 100 * FRAMES_PER_HOUR
    ensures |FramesToTcString(frames)| == 11
  {
    var tc := FramesToTc(frames);
    assert 0 <= tc.hh < 100;
    TwoDigitField(tc.hh);
    TwoDigitField(tc.mm);
    TwoDigitField(tc.ss);
    TwoDigitField(tc.ff);
  }

  /** 95 frames at 30 fps is 3 seconds and 5 frames. */
  lemma NinetyFiveFrames()
    ensures FramesToTc(95) == Tc(0, 0, 3, 5)
    ensures FramesToTcString(95) == "00:00:03:05"
  {
    assert FramesToTc(95) == Tc(0, 0, 3, 5);
    OneDigitPad(0);
    OneDigitPad(3);
    OneDigitPad(5);
  }
}
