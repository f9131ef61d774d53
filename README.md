# White-template timeline builder and highlight cutter, in Dafny

This project models the logic of two small video-editing tools and proves
properties of that model.

- `create-white-video.py` builds a white template timeline from a video's scene cuts:
  - it sorts the cut timestamps a scene detector reports;
  - it merges cuts that lie closer together than a window, and rounds them to milliseconds;
  - it turns the cuts into contiguous `(start, end)` segments;
  - it converts seconds to frames at 30 fps, and frames to non-drop-frame `HH:MM:SS:FF` timecode;
  - it writes a CMX 3600-style edit list and a CSV with one numbered event or row per segment;
  - it refuses a reel name longer than eight characters before it probes the video or writes anything (the earlier checks for ffmpeg, ffprobe and the input file are left out of the model).
- `Cutter/cutter-video.py` lets an operator mark highlights while a video plays:
  - an in key and an out key (with optional pre- and post-roll, clamped to the video) commit `(in, out)` ranges;
  - undo, roll toggling and roll tuning keys change the same state;
  - export cuts one clip per valid range and writes a CSV index of all ranges, with `HH:MM:SS.mmm` clock times.

Seconds are Dafny `real`s. Python's `round` is modelled exactly: round half to even.
Python's `//` and `%` by a positive constant agree with Dafny's `/` and `%`.

Modules, one per file:

- `Wrappers`: the `Option` and `Result` types.
- `Rounding`: `round(x)` and `round(t, 3)`.
- `Text`: `{n:0Wd}`, `{s:<W}` and the shape of a CSV line.
- `Timecode`: `sec_to_frames` and `frames_to_tc`.
- `Dedupe`: `dedupe_cuts`.
- `Segments`: `to_segments`.
- `Timeline`: the detector's sort, `export_edl`, `export_csv`, and the order of work in `main`.
- `Cutter`: `clamp`, `compute_in`/`compute_out`, `fmt_tc`, the `MarkSession` class with one method per hotkey handler, and `export_highlights`.

The loops of the source are methods with loop invariants. Each is proved equal to a
prefix-recursive specification function: `DedupeCuts`, `ToSegments`,
`ExportEdl`, `ExportCsv` and `ExportHighlights`. The lemmas state their properties about those functions.

The hotkey handlers mutate shared state, so they are methods of a class:

- `MarkSession` has the fields `inPoint`, `highlights`, `rollEnabled`, `preRoll` and `postRoll`.
- Every handler keeps the invariant `Valid()`:
  - the rolls are never negative;
  - every committed highlight satisfies `0 <= start < end <= duration`;
  - a pending in-point lies inside the video.
- Each handler also states its whole new state.

External inputs are parameters:

- the player's current position (`now`);
- the probed duration and frame size;
- the detector's raw timestamps.

## Model

| member | source | states |
|---|---|---|
| Rounding.RoundHalfEven | create-white-video.py:104 | `round(x)`: within 1/2 of `x`, an exact tie goes to the even integer, and an integer is its own rounding |
| Rounding.RoundHalfEvenMonotone | create-white-video.py:104 | rounding never reverses the order of two numbers |
| Rounding.Round3 | create-white-video.py:82 | `round(t, 3)`: within half a millisecond of `t`, a whole number of milliseconds, and `t` itself when `t` already is one |
| Rounding.MillisScale | create-white-video.py:82 | `k / 1000` is a whole number of milliseconds, times 1000 gives back `k`, and equals `t` when `k == t * 1000` |
| Rounding.Round3Monotone | create-white-video.py:90 | rounding to milliseconds keeps the order of two times |
| Rounding.Round3Idempotent | create-white-video.py:90 | rounding a rounded time changes nothing |
| Timeline.SortCuts | create-white-video.py:73 | `cuts.sort()`: the result is sorted and a permutation (same multiset) of the detected timestamps |
| Timeline.InsertSorted | create-white-video.py:73 | inserting a timestamp into a sorted list before the first element it does not exceed keeps the list sorted |
| Dedupe.Merge | create-white-video.py:84-87 | the greedy merge keeps no more cuts than it is given, and keeps none exactly when it is given none |
| Dedupe.RoundAll | create-white-video.py:90 | `[round(t, 3) for t in s]`: one value per input time, each a whole number of milliseconds and within half a millisecond of its input |
| Dedupe.KeptIndices | create-white-video.py:84-87 | the greedy merge keeps a subsequence of the input: the ascending positions it keeps, starting with position 0 |
| Dedupe.MergeKeepsFirst | create-white-video.py:84-87 | with any window, the first cut is always kept |
| Dedupe.MergeSeparated | create-white-video.py:84-87 | consecutive kept cuts, before rounding, are at least the window apart, whatever the input order |
| Dedupe.SeparatedPairwise | create-white-video.py:84-87 | with a positive window, any two kept cuts (not only neighbours) are a window apart |
| Dedupe.MergePrefix | create-white-video.py:84-87 | the merge of a prefix is a prefix of the merge: a kept cut is never revisited |
| Dedupe.MergeAbsorbs | create-white-video.py:84-87 | on sorted input every dropped cut lies within one window after some kept cut |
| Dedupe.MergeKeepsSeparated | create-white-video.py:84-87 | a list whose neighbours are already a window apart is kept whole |
| Dedupe.SortedUnique | create-white-video.py:82 | `sorted(set(s))`: strictly increasing, holding exactly the values of `s` |
| Dedupe.SortedUniqueOfIncreasing | create-white-video.py:82 | a strictly increasing list is its own sorted set |
| Dedupe.Deduped | create-white-video.py:76-90 | `dedupe_cuts` as a function: every result is a whole number of milliseconds, and the result is empty exactly when the input is |
| Dedupe.DedupeCuts | create-white-video.py:76-90 | the method computes the specification `Deduped`, returns no more cuts than it was given, and returns nothing for no cuts |
| Dedupe.DedupedLength | create-white-video.py:80-90 | in both branches the result is no longer than the input |
| Dedupe.DedupedWithWindow | create-white-video.py:84-90 | with `w > 0`, the result is the rounding of the cuts at ascending kept positions, the first cut is among them, and the kept cuts before rounding are a window apart |
| Dedupe.DedupedOrdered | create-white-video.py:84-90 | with `w > 0` the result is sorted; with `w` above one millisecond it is strictly increasing |
| Dedupe.DedupedWithoutWindow | create-white-video.py:80-82 | with `w <= 0` the result is strictly increasing, and a value is in it exactly when it is the rounding of some input cut |
| Dedupe.DedupedIdempotentWithoutWindow | create-white-video.py:80-82 | with `w <= 0`, de-duplicating twice equals de-duplicating once |
| Dedupe.DedupedFixpoint | create-white-video.py:84-90 | cuts already in whole milliseconds and a window apart are returned unchanged |
| Dedupe.DedupedCanRepeat | create-white-video.py:84-90 | counterexample to idempotence: with a 0.25 ms window, 0.1 ms and 0.4 ms are both kept, both round to 0, and a second pass gives one cut |
| Dedupe.DedupedCanNarrow | create-white-video.py:84-90 | counterexample to idempotence: rounding brings two kept cuts from 10.8 ms to 10 ms apart, so a second pass with a 10.5 ms window drops one |
| Dedupe.DedupedExample | create-white-video.py:84-90 | 2.01, 2.03 and 5.0 with a 50 ms window give 2.01 and 5.0 |
| Segments.Boundaries | create-white-video.py:96 | `[0.0] + cuts + [duration]`: its length, first and last element, and the cuts in between |
| Segments.Pairs | create-white-video.py:98-100 | every emitted pair ends strictly after it starts, and there are fewer pairs than boundaries |
| Segments.SegmentsOf | create-white-video.py:92-101 | `to_segments` as a function: every segment ends strictly after it starts, and there are at most `len(cuts) + 1` of them |
| Segments.ToSegments | create-white-video.py:92-101 | the method computes `SegmentsOf`, emits only non-degenerate segments, and emits at most `len(cuts) + 1` of them, for any cuts |
| Segments.PairsOfSorted | create-white-video.py:96-101 | on sorted boundaries the segments are contiguous and run from the first boundary to the last, or are absent when those are equal |
| Segments.PairsOfIncreasing | create-white-video.py:98-100 | on strictly increasing boundaries every consecutive pair becomes a segment |
| Segments.SegmentsTile | create-white-video.py:96-101 | strictly increasing cuts inside `(0, D)` give exactly `len(cuts) + 1` segments from 0 to `D`, each ending where the next starts, at a cut |
| Segments.SegmentsCover | create-white-video.py:96-101 | for such cuts every instant of `[0, D)` lies in some segment |
| Segments.FindSegment | create-white-video.py:96-101 | in contiguous segments, the segment holding a given instant |
| Segments.InnerStarts | create-white-video.py:98-100 | the starts of all segments but the first, one per remaining segment |
| Segments.SegmentsRoundTrip | create-white-video.py:96-101 | the cuts can be read back from the segments, and segmenting at the segments' own inner boundaries gives the same segments |
| Segments.SegmentsOfSortedCuts | create-white-video.py:96-101 | sorted cuts anywhere in `[0, D]`, duplicates and endpoints included, still give contiguous segments from 0 to `D` |
| Segments.SegmentsExample | create-white-video.py:96-101 | cuts at 2.01 s and 5 s in a 10 s video give three segments |
| Segments.RededupeChangesSegments | create-white-video.py:197-198 | counterexample: segmenting after a second de-duplication can lose a segment |
| Timecode.SecToFrames | create-white-video.py:103-104 | the frame number is within half a frame of `t * 30` |
| Timecode.SecToFramesOfFrameStart | create-white-video.py:103-104 | `sec_to_frames(k / 30) == k` for every integer `k` |
| Timecode.SecToFramesMonotone | create-white-video.py:103-104 | a later time never gets an earlier frame |
| Timecode.FramesToTc | create-white-video.py:106-115 | `ff < 30`, `ss < 60`, `mm < 60`, and `hh*108000 + mm*1800 + ss*30 + ff == frames`; `hh >= 0` for non-negative frames |
| Timecode.FramesToTcOfTotal | create-white-video.py:106-115 | round trip: converting a well-formed timecode's frame count gives back the timecode |
| Timecode.TcStringFields | create-white-video.py:116 | below 100 hours the timecode is `HH:MM:SS:FF`, eleven characters, each field reading back as its number |
| Timecode.TcString | create-white-video.py:116 | the `HH:MM:SS:FF` rendering; no contract of its own, its layout is stated by `Timecode.TcStringFields` |
| Timecode.FramesToTcString | create-white-video.py:106-116 | `frames_to_tc` as text; no contract of its own, its meaning is stated by `Timecode.TcStringRoundTrip` |
| Timecode.TcStringRoundTrip | create-white-video.py:106-116 | below 100 hours the text of `frames_to_tc(f)` is eleven characters whose four two-digit fields read back as a timecode of exactly `f` frames |
| Timecode.TcStringLength | create-white-video.py:116 | below 100 hours every timecode string is exactly eleven characters wide |
| Timecode.NinetyFiveFrames | create-white-video.py:106-116 | 95 frames give `00:00:03:05` |
| Text.Digits | create-white-video.py:116 | the decimal digits of a number: non-empty, all digits, with no leading zero unless the number is 0 |
| Text.ZeroPad | create-white-video.py:116 | `{n:0Wd}`; no contract of its own, its meaning is stated by `Text.ZeroPadValue` and `Text.ZeroPadNegative` |
| Text.ZeroPadValue | create-white-video.py:116 | `{n:0Wd}` of a non-negative number is all digits, as wide as `W` or the number, and reads back as `n` |
| Text.ZeroPadNegative | create-white-video.py:116 | `{n:0Wd}` of a negative number is a minus sign followed by the digits of its magnitude |
| Text.TwoDigitField | create-white-video.py:116 | a number below 100 pads to exactly two digits that read back as it |
| Text.ThreeDigitField | create-white-video.py:153 | a number below 1000 pads to exactly three digits that read back as it |
| Text.PadRight | create-white-video.py:153 | `{s:<W}` is `W` characters long, or as long as `s` when `s` is longer (it is not truncated) |
| Text.PadRightChars | create-white-video.py:153 | `{s:<W}` starts with `s` and continues with spaces only |
| Text.DigitsRoundTrip | create-white-video.py:116 | the decimal digits of `n` read back as `n` |
| Timeline.EventOf | create-white-video.py:145-155 | an event's source in/out equal its record in/out, which are the frames of the segment's start and end |
| Timeline.EventBlock | create-white-video.py:152-157 | the three lines appended per segment; no contract of its own, the lines are stated by `Timeline.EdlLayout` |
| Timeline.EdlLines | create-white-video.py:139-157 | the edit list has `3 + 3n` lines for `n` segments |
| Timeline.EdlLayout | create-white-video.py:139-157 | title, `FCM: NON-DROP FRAME` and a blank line, then for segment `k` its event numbered `k + 1`, `* FROM CLIP NAME: <reel>` and a blank line |
| Timeline.Render | create-white-video.py:152-157 | a line as written to the file; no contract of its own, the rendered file is stated by `Timeline.EdlRendered` |
| Timeline.EdlRendered | create-white-video.py:139-157 | rendered, the edit list is the title, `FCM: NON-DROP FRAME` and a blank line, then for segment `k` the event line of event `k + 1`, `* FROM CLIP NAME: <reel>` and a blank line |
| Timeline.ExportEdl | create-white-video.py:135-159 | the loop builds exactly the `EdlLines` layout |
| Timeline.EventLine | create-white-video.py:152-155 | the event line; no contract of its own, its columns are stated by `Timeline.EventLineColumns` |
| Timeline.EventHead | create-white-video.py:153 | number, reel and track part of the event line; no contract of its own, its columns are stated by `Timeline.EventHeadColumns` |
| Timeline.TcPair | create-white-video.py:154 | an in/out timecode pair; no contract of its own, its columns are stated by `Timeline.TcPairColumns` |
| Timeline.EventLineColumns | create-white-video.py:152-155 | an event line is 76 characters: the number in columns 0-2, the padded reel in 5-12, the source timecodes in 29-39 and 41-51, repeated as the record timecodes in 53-63 and 65-75 |
| Timeline.EventHeadColumns | create-white-video.py:153 | the head of an event line is 29 characters: the three-digit event number reading back as the number, then the reel padded to eight characters in columns 5-12 |
| Timeline.TcPairColumns | create-white-video.py:154 | below 100 hours an in/out timecode pair is 23 characters: the in timecode, one space, the out timecode |
| Timeline.CsvLines | create-white-video.py:162-166 | the CSV has one line more than there are segments |
| Timeline.SegmentRow | create-white-video.py:164-166 | the CSV row of a segment holds its number, start, end and length `end - start`, and the frames of start and end; a non-degenerate segment has a positive length and its frames in order |
| Timeline.CsvLayout | create-white-video.py:162-166 | the header, then row `k + 1` for segment `k`, holding its start, end, length and frames |
| Timeline.ExportCsv | create-white-video.py:161-167 | the loop builds exactly the `CsvLines` layout |
| Timeline.CsvMatchesEdl | create-white-video.py:164-165 | the `k`-th CSV row has the number and the record in/out frames of the `k`-th edit-list event |
| Timeline.RunEffects | create-white-video.py:194-217 | the effects of `main` once the reel check has passed; no contract of its own, their order is stated by `Timeline.RunEffectsOrder` |
| Timeline.RunEffectsOrder | create-white-video.py:194-217 | probe first, then cut detection, then the white master exactly when `--no-white` is absent, then the edit list and the CSV, last |
| Timeline.TimelineSegments | create-white-video.py:196-198 | segmenting the sorted, de-duplicated detections; no contract of its own, its behaviour is stated by `Timeline.TimelineTiles`, `Timeline.TimelineEndsAtOddDuration` and `Timeline.TimelineOverrunsDuration` |
| Timeline.PlanSegments | create-white-video.py:196-198 | the segments are those of the sorted, de-duplicated detector timestamps |
| Timeline.BuildTimeline | create-white-video.py:191-217 | fails, with the reel, exactly when the reel name exceeds eight characters, before any effect; otherwise performs `RunEffects` on the planned segments |
| Timeline.TimelineTiles | create-white-video.py:196-198 | detected cuts inside `[0, D]`, with `D > 0` in whole milliseconds, give contiguous segments from 0 to `D` for any window |
| Timeline.TimelineEndsAtOddDuration | create-white-video.py:90-100 | a cut at 5 s in a 10.0006 s video gives segments `(0, 5)` and `(5, 10.0006)`, ending exactly at a duration that is not whole milliseconds |
| Timeline.TimelineOverrunsDuration | create-white-video.py:90-100 | a cut at 10.0006 s in a 10.0006 s video rounds to 10.001 s and gives the one segment `(0, 10.001)`, which ends after the video |
| Timeline.TimelineCutPastDuration | create-white-video.py:90-100 | a detected cut at 12 s in a 10 s video is kept and gives the one segment `(0, 12)`, which ends after the video |
| Cutter.Clamp | Cutter/cutter-video.py:98-99 | lies in `[lo, hi]` when `lo <= hi`, is `x` when `x` is inside, `lo` below, `hi` above, and `lo` when the bounds cross |
| Cutter.ClampMonotone | Cutter/cutter-video.py:98-99 | clamping preserves order |
| Cutter.ComputeIn | Cutter/cutter-video.py:188-191 | the in-point lies in `[0, D]` (0 when `D < 0`); it is `now - pre` when rolling and `now` when not, whenever that lies inside; it is 0 when that lies at or below 0, and `D` when it lies at or above `D >= 0` |
| Cutter.ComputeOut | Cutter/cutter-video.py:193-196 | the out-point lies in `[0, D]` (0 when `D < 0`); it is `now + post` when rolling and `now` when not, whenever that lies inside; it is 0 when that lies at or below 0, and `D` when it lies at or above `D >= 0` |
| Cutter.InNotAfterOut | Cutter/cutter-video.py:188-196 | with non-negative rolls, an in-point never lies after an out-point computed at the same or a later instant |
| Cutter.RollExample | Cutter/cutter-video.py:188-196 | default rolls 0.3 s and 0.2 s, `D = 10`, `now = 1` give in 0.7 s and out 1.2 s |
| Cutter.StepDown | Cutter/cutter-video.py:271 | `max(0, v - STEP)` is never negative, is `v - STEP` from one step up, and 0 below |
| Cutter.NonNegative | Cutter/cutter-video.py:91 | `max(0.0, sec)` is non-negative, at least `sec`, and `sec` when `sec` is not negative |
| Cutter.FmtTcFields | Cutter/cutter-video.py:90-95 | `m < 60`, `s < 60`, `0 <= ms <= 1000`, `h*3600 + m*60 + s` is the whole seconds of `max(0, sec)`, `ms` is within 1/2 of the fraction times 1000, and a negative time shows as zero |
| Cutter.SplitSeconds | Cutter/cutter-video.py:93-95 | hours, minutes and seconds obtained by `//` and `%` add back up to the whole seconds |
| Cutter.FmtTcOfMillis | Cutter/cutter-video.py:90-95 | a time in whole milliseconds shows exactly: `ms < 1000` and the fields denote the time |
| Cutter.FmtTcLayout | Cutter/cutter-video.py:96 | below 100 hours and with `ms < 1000`, the text is `HH:MM:SS.mmm`, twelve characters, each field reading back as its number |
| Cutter.FmtTc | Cutter/cutter-video.py:90-96 | `fmt_tc`; no contract of its own, its meaning is stated by `Cutter.FmtTcReadsBack` and `Cutter.FmtTcLayout` |
| Cutter.FmtTcReadsBack | Cutter/cutter-video.py:90-96 | below 100 hours and with `ms < 1000`, the text is twelve characters whose fields read back as the whole seconds of `max(0, sec)` and a milliseconds value within 1/2 of the fraction times 1000 |
| Cutter.FmtTcExample | Cutter/cutter-video.py:90-96 | 3723.5 s shows as `01:02:03.500` |
| Cutter.FmtTcMillisOverflow | Cutter/cutter-video.py:92 | 0.9996 s shows as `00:00:00.1000`: the milliseconds reach 1000 without carrying into the seconds |
| Cutter.MarkSession.constructor | Cutter/cutter-video.py:198-199 | a new session has no pending in-point, no highlights, the default rolls, and is valid |
| Cutter.MarkSession.OnIn | Cutter/cutter-video.py:216-223 | the in-point becomes `compute_in(now)`; highlights and rolls are unchanged |
| Cutter.MarkSession.OnOut | Cutter/cutter-video.py:225-240 | without an in-point nothing changes; with `out <= in` nothing changes and the in-point is kept; otherwise exactly `(in, out)` is appended, the in-point is cleared and the result names the new highlight's number |
| Cutter.MarkSession.OnUndo | Cutter/cutter-video.py:242-249 | removes and returns only the last highlight, or returns nothing on an empty list; always clears the in-point |
| Cutter.MarkSession.OnToggleRoll | Cutter/cutter-video.py:263-268 | flips rolling, clears the in-point, keeps everything else |
| Cutter.MarkSession.OnPreDown | Cutter/cutter-video.py:270-272 | the pre-roll becomes `max(0, pre - STEP)`; nothing else changes |
| Cutter.MarkSession.OnPreUp | Cutter/cutter-video.py:274-276 | the pre-roll grows by `STEP`, without bound; nothing else changes |
| Cutter.MarkSession.OnPostDown | Cutter/cutter-video.py:278-280 | the post-roll becomes `max(0, post - STEP)`; nothing else changes |
| Cutter.MarkSession.OnPostUp | Cutter/cutter-video.py:282-284 | the post-roll grows by `STEP`, without bound; nothing else changes |
| Cutter.MarkSession.OnExport | Cutter/cutter-video.py:260-261 | the export plan of the committed highlights |
| Cutter.ClipOf | Cutter/cutter-video.py:132-154 | the ffmpeg job for a highlight; no contract of its own, what the jobs hold is stated by `Cutter.JobsSound` |
| Cutter.Jobs | Cutter/cutter-video.py:127-132 | there are no more clip jobs than highlights |
| Cutter.Skipped | Cutter/cutter-video.py:127-130 | there are no more skipped numbers than highlights |
| Cutter.HighlightsCsv | Cutter/cutter-video.py:164-166 | the CSV has one line more than there are highlights |
| Cutter.ExportOf | Cutter/cutter-video.py:122-166 | `export_highlights` as a function: it exports nothing exactly when there are no highlights |
| Cutter.ExportHighlights | Cutter/cutter-video.py:120-167 | the two loops compute `ExportOf`: nothing at all exactly for an empty list, otherwise the jobs, the skipped numbers and the CSV lines |
| Cutter.JobsSound | Cutter/cutter-video.py:127-154 | every job cuts, as `HL_<nnn>.mp4` in the chosen mode, a highlight that ends after it starts, under its 1-based number, in increasing order |
| Cutter.JobsIncreasing | Cutter/cutter-video.py:127-132 | the clip jobs carry 1-based highlight numbers in `1..n`, strictly increasing in the order of the highlights |
| Cutter.JobsComplete | Cutter/cutter-video.py:127-132 | every highlight that ends after it starts gets a job |
| Cutter.SkippedExactly | Cutter/cutter-video.py:127-130 | a number is skipped exactly when its highlight does not end after it starts, and jobs plus skips count every highlight once |
| Cutter.SkippedBelow | Cutter/cutter-video.py:127-130 | skipped numbers lie in `1..n` |
| Cutter.ClipName | Cutter/cutter-video.py:132 | `f"HL_{idx:03d}.mp4"`; no contract of its own, its meaning is stated by `Cutter.ClipNameDigits` and `Cutter.ClipNamesDistinct` |
| Cutter.ClipNameDigits | Cutter/cutter-video.py:132 | for a number below 1000 the name is ten characters whose characters 3-5 are digits reading back as the number |
| Cutter.ClipNamesDistinct | Cutter/cutter-video.py:132 | distinct clip numbers give distinct file names |
| Cutter.HighlightsCsvLayout | Cutter/cutter-video.py:164-166 | the header, then a row for every highlight in order, skipped or not, numbered from 1 |
| Cutter.HighlightRow | Cutter/cutter-video.py:164-166 | the CSV row of a highlight holds its number, in, out, length `out - in` and the clock fields of in and out; the length is not positive exactly when the highlight would be skipped |
| Cutter.DefaultRollSession | Cutter/cutter-video.py:216-240 | with default rolls, in and out at 1 s in a 10 s video save `(0.7, 1.2)` as highlight 1 |
| Cutter.RefusedOutKeepsIn | Cutter/cutter-video.py:233-240 | a refused out-point keeps the in-point, so a later out-point still saves the range |
| Cutter.ToggleDropsPendingIn | Cutter/cutter-video.py:263-268 | after a toggle, the next out key finds no in-point |
| Cutter.UndoRemovesLast | Cutter/cutter-video.py:242-249 | undo after two saves leaves only the first highlight |

## Where the code does not do what one would expect

The model follows the code in each case.

- **No sort in the windowed branch.** One would expect `dedupe_cuts` to sort its input in both branches.
  - It sorts only when the window is `<= 0`.
  - With a positive window it scans the list in the order given, and relies on the caller's sort (create-white-video.py:73).
  - `Dedupe.DedupeCuts` has no precondition. The lemmas that need sorted input require it.
- **The window test is `<= 0`.** The docstring (create-white-video.py:78) says a window of `0` disables merging; the code disables it for any `w <= 0`.
- **The output need not be strictly increasing.** One would expect de-duplicated cuts to be strictly increasing in both branches.
  - With a window of at most one millisecond, rounding after the merge can produce equal neighbours (`Dedupe.DedupedCanRepeat`).
  - Strict increase is proved only for windows above one millisecond (`Dedupe.DedupedOrdered`).
- **De-duplication is not idempotent**, even at the level of segments (`Dedupe.DedupedCanNarrow`, `Segments.RededupeChangesSegments`).
- **The renderers do not check for degenerate pairs.** One would expect each renderer to skip a pair with `end <= start`.
  - `export_edl` and `export_csv` check nothing. They rely on `to_segments`, which emits only pairs with `end > start`.
  - `export_highlights` skips only the clip of such a pair. Its CSV still lists every highlight.
- **Reel names are padded, not truncated.** One would expect the reel column to hold exactly eight characters.
  - `{reel:<8}` pads but never truncates (`Text.PadRight`).
  - Longer names are rejected earlier, by the reel check.
- **Milliseconds can reach 1000.** One would expect an `HH:MM:SS.mmm` clock time to carry a full second into the seconds field.
  - `fmt_tc` rounds the fraction of a second separately from the whole seconds, so the milliseconds field can be 1000 (`Cutter.FmtTcMillisOverflow`).
  - The field is proved below 1000 only for times in whole milliseconds (`Cutter.FmtTcOfMillis`).
- **The last segment can end after the video.** The cuts are rounded to milliseconds but the duration is not.
  - When the duration is a positive whole number of milliseconds and every detected cut lies within `[0, duration]`, the segments are proved to end exactly at it (`Timeline.TimelineTiles`).
  - Otherwise they still can, e.g. a cut at 5 s in a 10.0006 s video (`Timeline.TimelineEndsAtOddDuration`).
  - A cut past the duration, or one that rounds up past it, becomes the end of the last segment, which then ends after the video (`Timeline.TimelineCutPastDuration`, `Timeline.TimelineOverrunsDuration`). The detector can report such a cut, since nothing clamps its timestamps to the probed duration.

## Left out

- VLC discovery, loading and the 32/64-bit check.
- The media player, the playback-position query `get_time_sec` and its polling loop: the position is the `now` parameter of the handlers.
- The global keyboard hook and its callback threads: the handlers are modelled as sequential method calls.
- `on_print`, `on_quit` and every console message, including `status_roll`: console output only.
- The ffmpeg and ffprobe runs, in both tools: the subprocesses, their return codes, the `OK`/`FAIL` reports and the `RuntimeError` on a failed white master.
  - They appear only as the `ClipJob`s and `Effect`s they would be given.
  - The exact argument lists are not modelled. Only the cut span, the output name and copy versus re-encode are kept.
- Parsing of external output: the regex scrape of the detector's log and the parsing of ffprobe's output. The timestamps and the probe result are inputs.
- `require_tools`, argparse, the input-file existence checks, `ensure_inputs`/`mkdir`, and the joining of lines and `write_text`: these are CLI and file I/O. The model stops at the lines each file would hold.
- The `{x:.3f}` rendering of seconds in the CSV files and the ffmpeg arguments: CSV rows keep those columns as numbers.
- The text of the CSV rows: a row (`Text.CsvLine`) keeps its index as a number and its timecode columns as values.
  - In `segments.csv` these are frame numbers, which `Timecode.FramesToTcString` would render.
  - In `highlights.csv` they are `ClockTime` fields, which `Cutter.FmtTc` would render.
  - The comma-joined text of a row is not modelled.
- Floating point: seconds are exact reals, so the STEP changes and the roll subtractions carry no binary rounding error.
- Timeline.EventLineColumns: proved only for fewer than 1000 events, reel names of at most eight characters, and times below 100 hours. Beyond these, the fields widen and the columns shift.
- Cutter.FmtTcLayout, Cutter.FmtTcReadsBack: proved only below 100 hours and with a milliseconds field below 1000, for the same reason.
- Cutter.MarkSession: the handlers require the class invariant `Valid()`, which the constructor establishes and every handler keeps.
