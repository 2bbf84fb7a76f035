/**
 * Sample runs of the diagnostic-output handler: the max-wins duration rule and the
 * end-to-end progress computation on a sample progress line.
 */
module ProgressScenarios {
  import opened Wrappers
  import opened JsText
  import opened SizeTime
  import opened ProgressParse

  /** A text that is one timestamp and nothing else. */
  predicate IsTimestampText(ts: string) {
    IsTimestampAt(ts, 0) && TimestampLength(ts, 0) == |ts|
  }

  /** A chunk `Duration: ` + timestamp mentions `Duration:` and its first timestamp is that one. */
  lemma DurationChunk(c: string, ts: string)
    requires IsTimestampText(ts) && c == "Duration: " + ts
    ensures Contains(c, "Duration:")
    ensures FirstTimestamp(c, 0) == Some(10)
    ensures TimestampValue(c, 10) == TimestampValue(ts, 0)
  {
    assert OccursAt(c, "Duration:", 0);
    assert forall k :: 0 <= k < 10 ==> !IsDigit(c[k]);
    assert forall k :: 0 <= k < |ts| ==> c[10 + k] == ts[k];
    FirstTimestampAt(c, 0, 10);
    assert c[10..10 + TimestampLength(c, 10)] == ts;
    TimestampShift(c, 10, ts);
  }

  lemma {:induction false} FirstTimestampAt(s: string, from: nat, i: nat)
    requires from <= i && IsTimestampAt(s, i)
    requires forall k :: from <= k < i ==> !IsDigit(s[k])
    ensures FirstTimestamp(s, from) == Some(i)
    decreases i - from
  {
    if from < i { FirstTimestampAt(s, from + 1, i); }
  }

  /** A `Duration:` chunk keeps the larger of the known duration and its own timestamp. */
  lemma CaptureDuration(st: CaptureState, c: string, ts: string)
    requires IsTimestampText(ts) && c == "Duration: " + ts
    ensures Capture(st, c).armed == false
    ensures Capture(st, c).duration == Some(MaxOf(st.duration, TimestampValue(ts, 0)))
  {
    DurationChunk(c, ts);
  }

  /** Three `Duration:` lines in a row: the longest one wins, whatever the order. */
  lemma DurationMaxWins(c1: string, t1: string, c2: string, t2: string, c3: string, t3: string)
    requires IsTimestampText(t1) && c1 == "Duration: " + t1
    requires IsTimestampText(t2) && c2 == "Duration: " + t2
    requires IsTimestampText(t3) && c3 == "Duration: " + t3
    ensures CaptureAll(Start, [c1, c2, c3]) ==
      CaptureState(Some(MaxOf(Some(MaxOf(Some(TimestampValue(t1, 0)), TimestampValue(t2, 0))), TimestampValue(t3, 0))), false)
  {
    var s1 := Capture(Start, c1);
    var s2 := Capture(s1, c2);
    CaptureDuration(Start, c1, t1);
    CaptureDuration(s1, c2, t2);
    CaptureDuration(s2, c3, t3);
    assert [c1, c2, c3][1..] == [c2, c3];
    assert [c2, c3][1..] == [c3];
    assert CaptureAll(Start, [c1, c2, c3]) == CaptureAll(s1, [c2, c3]);
    assert CaptureAll(s1, [c2, c3]) == CaptureAll(s2, [c3]);
    assert CaptureAll(s2, [c3]) == CaptureAll(Capture(s2, c3), []);
  }

  /** `00:00:10.00` and `00:00:05.00` are ten and five seconds. */
  lemma SecondsTimestamp(ts: string, seconds: nat)
    requires (ts == "00:00:10.00" && seconds == 10) || (ts == "00:00:05.00" && seconds == 5)
    ensures IsTimestampText(ts) && TimestampValue(ts, 0) == seconds as real
    ensures ParseTime(ts) == Some(seconds as real)
  {
    assert IsTimestampAt(ts, 0);
    assert FirstTimestamp(ts, 0) == Some(0);
    TwoDigits(ts[0..2]);
    TwoDigits(ts[3..5]);
    TwoDigits(ts[6..8]);
    TwoDigits(ts[9..11]);
  }

  /** The fields of the sample progress line. */
  const ExampleFields: seq<string> := ["frame", "5", "fps", "25", "q", "0.0", "size", "100kB",
    "time", "00:00:05.00", "bitrate", "160.0kbits/s", "speed", "1.0x"]

  /** Its separators: `frame=  5 fps=25 q=0.0 size=100kB time=... bitrate=... speed=1.0x`. */
  const ExampleSeps: seq<string> := ["=  ", " ", "=", " ", "=", " ", "=", " ", "=", " ", "=", " ", "="]

  /** A character that no field or separator holds is not in the joined line. */
  lemma {:induction false} InterleaveLacks(fields: seq<string>, seps: seq<string>, c: char)
    requires |fields| == |seps| + 1
    requires forall i :: 0 <= i < |fields| ==> c !in fields[i]
    requires forall i :: 0 <= i < |seps| ==> c !in seps[i]
    ensures c !in Interleave(fields, seps)
    decreases |seps|
  {
    if seps != [] {
      InterleaveLacks(fields[1..], seps[1..], c);
    }
  }

  lemma ExampleFieldsClean()
    ensures forall i :: 0 <= i < |ExampleFields| ==> |ExampleFields[i]| > 0 && Clean(ExampleFields[i])
  {
  }

  lemma ExampleSepsValid()
    ensures forall i :: 0 <= i < |ExampleSeps| ==> IsSeparatorText(ExampleSeps[i])
  {
  }

  /** The joined line begins with its first field and first separator. */
  lemma InterleavePrefix(fields: seq<string>, seps: seq<string>)
    requires |fields| == |seps| + 1 && |seps| > 0
    ensures |fields[0] + seps[0]| <= |Interleave(fields, seps)|
    ensures Interleave(fields, seps)[..|fields[0] + seps[0]|] == fields[0] + seps[0]
  {
  }

  /** A line made of `frame`, a separator `=  ` and anything else starts with `frame=`. */
  lemma FrameHead(line: string, field: string, sep: string, rest: string, head: string)
    requires field == "frame" && sep == "=  " && line == field + sep + rest && head == "frame="
    ensures OccursAt(line, head, 0)
  {
    assert line[..6] == field + [sep[0]];
  }

  /** The example line starts with `frame=`. */
  lemma ExampleLineStart(line: string, head: string)
    requires line == Interleave(ExampleFields, ExampleSeps) && head == "frame="
    ensures OccursAt(line, head, 0)
  {
    FrameHead(line, ExampleFields[0], ExampleSeps[0], Interleave(ExampleFields[1..], ExampleSeps[1..]), head);
  }

  /** A text without the first character of a pattern does not contain the pattern. */
  lemma LacksFirstChar(s: string, pat: string)
    requires |pat| > 0 && pat[0] !in s
    ensures !Contains(s, pat)
  {
    forall j | 0 <= j && j + |pat| <= |s| ensures !OccursAt(s, pat, j) {
      assert s[j..j + |pat|][0] == s[j] && s[j] != pat[0];
    }
  }

  /** No `D` anywhere in the example line, so no `Duration:` either. */
  lemma ExampleLineLacksDuration(line: string, d: string)
    requires line == Interleave(ExampleFields, ExampleSeps) && d == "Duration:"
    ensures !Contains(line, d)
  {
    ExampleLacksD();
    InterleaveLacks(ExampleFields, ExampleSeps, 'D');
    LacksFirstChar(line, d);
  }

  lemma ExampleLacksD()
    ensures forall i :: 0 <= i < |ExampleFields| ==> 'D' !in ExampleFields[i]
    ensures forall i :: 0 <= i < |ExampleSeps| ==> 'D' !in ExampleSeps[i]
  {
  }

  /** The example line splits back into its fields and never mentions `Duration:`. */
  lemma ExampleLine(line: string)
    requires line == Interleave(ExampleFields, ExampleSeps)
    ensures IsProgressLine(line)
    ensures SplitFields(CutAtLineBreak(line)) == ExampleFields
    ensures !Contains(line, "Duration:")
  {
    ExampleFieldsClean();
    ExampleSepsValid();
    SplitInterleave(ExampleFields, ExampleSeps);
    ExampleLineStart(line, "frame=");
    ExampleLineLacksDuration(line, "Duration:");
  }

  /** The last four pairs of the example's tokens: size, time, bitrate and speed. */
  predicate ExampleTokens(tokens: seq<string>) {
    |tokens| == 14
    && tokens[6] == "size" && tokens[7] == "100kB"
    && tokens[8] == "time" && tokens[9] == "00:00:05.00"
    && tokens[10] == "bitrate" && tokens[11] == "160.0kbits/s"
    && tokens[12] == "speed"
  }

  lemma ExampleFieldsTokens()
    ensures ExampleTokens(ExampleFields)
  {
  }

  /** A pair whose key does not come back later keeps its value in `rawInfo`. */
  lemma PairLookup(tokens: seq<string>, j: nat)
    requires 2 * j + 1 < |tokens|
    requires forall j' :: j < j' < PairCount(tokens) ==> tokens[2 * j'] != tokens[2 * j]
    ensures Lookup(RawInfoOf(tokens), tokens[2 * j]) == Some(tokens[2 * j + 1])
  {
    RawInfoLastWins(tokens, PairCount(tokens));
    assert IsLastKey(tokens, PairCount(tokens), j);
  }

  /** The pairs of the example's tokens: size, time and bitrate each with its value. */
  lemma ExampleRawInfo(tokens: seq<string>)
    requires ExampleTokens(tokens)
    ensures Lookup(RawInfoOf(tokens), "time") == Some("00:00:05.00")
    ensures Lookup(RawInfoOf(tokens), "bitrate") == Some("160.0kbits/s")
    ensures Lookup(RawInfoOf(tokens), "size") == Some("100kB")
  {
    assert PairCount(tokens) == 7;
    PairLookup(tokens, 3);
    PairLookup(tokens, 4);
    PairLookup(tokens, 5);
  }

  /** `Duration: 00:00:10.00` sets the duration to ten seconds, and a chunk without `Duration:` leaves it there. */
  lemma ExampleCapture(d: string, ts: string, line: string)
    requires ts == "00:00:10.00" && d == "Duration: " + ts
    requires !Contains(line, "Duration:")
    ensures CaptureAll(Start, [d, line]) == CaptureState(Some(10.0), false)
  {
    SecondsTimestamp(ts, 10);
    CaptureDuration(Start, d, ts);
    var st := Capture(Start, d);
    CaptureQuiet(st, line);
    assert [d, line][1..] == [line];
  }

  /** A chunk without `Duration:` leaves a disarmed state alone. */
  lemma CaptureQuiet(st: CaptureState, line: string)
    requires !st.armed && !Contains(line, "Duration:")
    ensures CaptureAll(st, [line]) == st
  {
    assert Capture(st, line) == st;
    assert [line][1..] == [];
  }

  /** The sample read from the example's tokens: five seconds, 20 bytes per second, size 100. */
  lemma ExampleInfo(tokens: seq<string>)
    requires ExampleTokens(tokens)
    ensures InfoOf(RawInfoOf(tokens)).Some?
    ensures InfoOf(RawInfoOf(tokens)).value.time == 5.0
    ensures InfoOf(RawInfoOf(tokens)).value.bitrate == Some(20.0)
    ensures InfoOf(RawInfoOf(tokens)).value.size == Size(Some(100.0))
  {
    ExampleRawInfo(tokens);
    SampleOfLookups(RawInfoOf(tokens), "00:00:05.00", "160.0kbits/s", "100kB");
  }

  lemma SampleOfLookups(raw: RawInfo, time: string, bitrate: string, size: string)
    requires time == "00:00:05.00" && bitrate == "160.0kbits/s" && size == "100kB"
    requires Lookup(raw, "time") == Some(time)
    requires Lookup(raw, "bitrate") == Some(bitrate)
    requires Lookup(raw, "size") == Some(size)
    ensures InfoOf(raw).Some?
    ensures InfoOf(raw).value.time == 5.0
    ensures InfoOf(raw).value.bitrate == Some(20.0)
    ensures InfoOf(raw).value.size == Size(Some(100.0))
  {
    SecondsTimestamp(time, 5);
    ParseSizeKiloBits(bitrate);
    ParseSizeKiloBytes(size);
    assert SizeKey(raw) == "size";
  }

  /**
   * The end-to-end example: after `Duration: 00:00:10.00`, a progress line with the
   * example's tokens (such as the example line) gives progress one half, a bitrate of
   * 20 bytes per second and a size of 100 (the `k` ignored), and leaves the duration at
   * ten seconds.
   */
  lemma HalfwayProgress(d: string, ts: string, line: string)
    requires ts == "00:00:10.00" && d == "Duration: " + ts
    requires IsProgressLine(line) && !Contains(line, "Duration:")
    requires ExampleTokens(SplitFields(CutAtLineBreak(line)))
    ensures CaptureAll(Start, [d, line]) == CaptureState(Some(10.0), false)
    ensures ChunkUpdate(line, Some(10.0)).Update?
    ensures ChunkUpdate(line, Some(10.0)).update.progress == Ratio(0.5)
    ensures ChunkUpdate(line, Some(10.0)).update.info.time == 5.0
    ensures ChunkUpdate(line, Some(10.0)).update.info.bitrate == Some(20.0)
    ensures ChunkUpdate(line, Some(10.0)).update.info.size == Size(Some(100.0))
  {
    ExampleCapture(d, ts, line);
    ExampleInfo(SplitFields(CutAtLineBreak(line)));
  }

  /** A text without digits holds no timestamp. */
  lemma NoDigitNoTimestamp(s: string)
    requires forall k :: 0 <= k < |s| ==> !IsDigit(s[k])
    ensures FirstTimestamp(s, 0).None?
  {
    forall j | 0 <= j < |s| ensures !IsTimestampAt(s, j) {
      assert !IsDigit(s[j]);
    }
  }

  /** `Duration: N/A` (a live stream) arms capture without setting a duration. */
  lemma DurationNotAvailable(c: string)
    requires c == "Duration: N/A"
    ensures Capture(Start, c) == CaptureState(None, true)
  {
    assert OccursAt(c, "Duration:", 0);
    NoDigitNoTimestamp(c);
  }

  /**
   * Capture stays armed until some chunk holds a timestamp, and that chunk's first
   * timestamp becomes the duration, whatever it measures: after `Duration: N/A` the next
   * progress line's own `time=` is taken for the length of the media.
   */
  lemma {:induction false} ArmedTakesNextTimestamp(st: CaptureState, chunks: seq<string>, c: string)
    requires st.armed && st.duration.None?
    requires forall k :: 0 <= k < |chunks| ==> FirstTimestamp(chunks[k], 0).None?
    requires FirstTimestamp(c, 0).Some?
    ensures CaptureAll(st, chunks + [c]) == CaptureState(Some(TimestampValue(c, FirstTimestamp(c, 0).value)), false)
    decreases |chunks|
  {
    if chunks == [] {
      assert [c][1..] == [];
    } else {
      assert (chunks + [c])[1..] == chunks[1..] + [c];
      ArmedTakesNextTimestamp(Capture(st, chunks[0]), chunks[1..], c);
    }
  }
}
