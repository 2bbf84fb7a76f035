/**
 * The per-job handler of ffmpeg's diagnostic output (downloader.js:96-159): a two-field
 * state machine fed one chunk of text at a time. A chunk mentioning `Duration:` arms
 * duration capture; while armed, the first chunk holding a timestamp disarms it and
 * raises the known total duration (max wins). A chunk that starts with `frame=` is a
 * progress line: its first line is split into key/value tokens, the values are parsed
 * and one update with `progress = time / duration` is produced.
 */
module ProgressParse {
  import opened Wrappers
  import opened JsText
  import opened SizeTime

  // ---------------------------------------------------------------------------
  // Tokenising a progress line

  predicate IsLineBreak(c: char) { c == '\r' || c == '\n' }

  /** The first CR or LF at or after `from`. */
  function FirstLineBreak(s: string, from: nat): (r: Option<nat>)
    ensures r.Some? ==> from <= r.value < |s| && IsLineBreak(s[r.value])
    ensures r.Some? ==> forall k :: from <= k < r.value ==> !IsLineBreak(s[k])
    ensures r.None? ==> forall k :: from <= k < |s| ==> !IsLineBreak(s[k])
    decreases |s| - from
  {
    if from >= |s| then None
    else if IsLineBreak(s[from]) then Some(from)
    else FirstLineBreak(s, from + 1)
  }

  /**
   * `s.replace(/[\r\n]+[\s\S]+/g, '')`: everything from the first CR/LF on is dropped,
   * provided at least two characters start there; a lone line break at the very end stays.
   */
  function CutAtLineBreak(s: string): (r: string)
    ensures |r| <= |s| && r == s[..|r|]
    ensures |r| < |s| ==> |r| + 2 <= |s| && IsLineBreak(s[|r|])
    ensures |r| < |s| ==> forall k :: 0 <= k < |r| ==> !IsLineBreak(s[k])
    ensures |r| == |s| ==> forall k :: 0 <= k < |s| - 1 ==> !IsLineBreak(s[k])
  {
    match FirstLineBreak(s, 0)
    case None => s
    case Some(i) => if |s| - i >= 2 then s[..i] else s
  }

  /** A character that belongs to a match of the separator pattern `=\s*|\s+`. */
  predicate IsSeparatorChar(c: char) { c == '=' || IsSpace(c) }

  /** A token holds no separator character. */
  predicate Clean(t: string) { forall k :: 0 <= k < |t| ==> !IsSeparatorChar(t[k]) }

  /**
   * `s.split(/=\s*|\s+/)` scanning from `q`, with the current token starting at `p`:
   * at `=` the separator also swallows the white space after it, at white space it is
   * the whole run; the text between separators is a token (possibly empty).
   */
  function SplitFrom(s: string, p: nat, q: nat): (r: seq<string>)
    requires p <= q <= |s|
    requires Clean(s[p..q])
    ensures |r| >= 1
    ensures forall k :: 0 <= k < |r| ==> Clean(r[k])
    decreases |s| - q
  {
    if q == |s| then [s[p..q]]
    else if IsSeparatorChar(s[q]) then
      var e := SkipSpaces(s, q + 1);
      [s[p..q]] + SplitFrom(s, e, e)
    else
      assert s[p..q + 1] == s[p..q] + [s[q]];
      SplitFrom(s, p, q + 1)
  }

  /** `s.split(/=\s*|\s+/)`. */
  function SplitFields(s: string): seq<string> {
    SplitFrom(s, 0, 0)
  }

  /** The text with every separator character removed. */
  function WithoutSeparators(s: string): string {
    if s == [] then [] else (if IsSeparatorChar(s[0]) then [] else [s[0]]) + WithoutSeparators(s[1..])
  }

  function Concat(ts: seq<string>): string {
    if ts == [] then [] else ts[0] + Concat(ts[1..])
  }

  lemma {:induction false} WithoutSeparatorsAppend(a: string, b: string)
    ensures WithoutSeparators(a + b) == WithoutSeparators(a) + WithoutSeparators(b)
    decreases |a|
  {
    if a == [] {
      assert a + b == b;
    } else {
      assert (a + b)[0] == a[0];
      assert (a + b)[1..] == a[1..] + b;
      WithoutSeparatorsAppend(a[1..], b);
    }
  }

  lemma {:induction false} WithoutSeparatorsOfSeparators(s: string)
    requires forall k :: 0 <= k < |s| ==> IsSeparatorChar(s[k])
    ensures WithoutSeparators(s) == []
    decreases |s|
  {
    if s != [] { WithoutSeparatorsOfSeparators(s[1..]); }
  }

  lemma WithoutSeparatorsOfClean(s: string)
    requires Clean(s)
    ensures WithoutSeparators(s) == s
    decreases |s|
  {
    if s != [] { WithoutSeparatorsOfClean(s[1..]); }
  }

  /**
   * Splitting loses exactly the separator characters: the tokens, put back together,
   * are the text with every `=` and white space removed, in order.
   */
  lemma {:induction false} SplitKeepsText(s: string, p: nat, q: nat)
    requires p <= q <= |s| && Clean(s[p..q])
    ensures Concat(SplitFrom(s, p, q)) == s[p..q] + WithoutSeparators(s[q..])
    decreases |s| - q
  {
    if q == |s| {
      assert s[q..] == [];
    } else if IsSeparatorChar(s[q]) {
      var e := SkipSpaces(s, q + 1);
      SplitKeepsText(s, e, e);
      assert s[q..] == s[q..e] + s[e..];
      WithoutSeparatorsAppend(s[q..e], s[e..]);
      WithoutSeparatorsOfSeparators(s[q..e]);
      assert s[e..e] == [];
      assert Concat([s[p..q]] + SplitFrom(s, e, e)) == s[p..q] + Concat(SplitFrom(s, e, e));
    } else {
      assert s[p..q + 1] == s[p..q] + [s[q]];
      SplitKeepsText(s, p, q + 1);
      assert s[q..] == [s[q]] + s[q + 1..];
      WithoutSeparatorsAppend([s[q]], s[q + 1..]);
      assert WithoutSeparators([s[q]]) == [s[q]];
    }
  }

  /** Scanning over token characters does not change the split. */
  lemma {:induction false} SplitSkipsToken(s: string, p: nat, q: nat, q': nat)
    requires p <= q <= q' <= |s| && Clean(s[p..q'])
    ensures Clean(s[p..q])
    ensures SplitFrom(s, p, q) == SplitFrom(s, p, q')
    decreases q' - q
  {
    assert forall k :: p <= k < q' ==> s[k] == s[p..q'][k - p];
    if q < q' {
      assert !IsSeparatorChar(s[q]);
      assert Clean(s[p..q + 1]);
      SplitSkipsToken(s, p, q + 1, q');
    }
  }

  /** A text in front does not change how the rest splits. */
  lemma {:induction false} SplitShift(a: string, b: string, p: nat, q: nat)
    requires p <= q <= |b| && Clean(b[p..q])
    ensures (a + b)[|a| + p..|a| + q] == b[p..q]
    ensures SplitFrom(a + b, |a| + p, |a| + q) == SplitFrom(b, p, q)
    decreases |b| - q
  {
    var s := a + b;
    assert s[|a| + p..|a| + q] == b[p..q];
    if q < |b| {
      assert s[|a| + q] == b[q];
      if IsSeparatorChar(b[q]) {
        SkipSpacesShift(a, b, q + 1);
        var e := SkipSpaces(b, q + 1);
        assert b[e..e] == [];
        SplitShift(a, b, e, e);
      } else {
        assert b[p..q + 1] == b[p..q] + [b[q]];
        SplitShift(a, b, p, q + 1);
      }
    }
  }

  lemma {:induction false} SkipSpacesShift(a: string, b: string, i: nat)
    requires i <= |b|
    ensures SkipSpaces(a + b, |a| + i) == |a| + SkipSpaces(b, i)
    decreases |b| - i
  {
    if i < |b| {
      assert (a + b)[|a| + i] == b[i];
      SkipSpacesShift(a, b, i + 1);
    }
  }

  /** A separator as ffmpeg writes one: `=` or a space, followed by spaces. */
  predicate IsSeparatorText(sep: string) {
    |sep| > 0 && (sep[0] == '=' || sep[0] == ' ') && forall k :: 1 <= k < |sep| ==> sep[k] == ' '
  }

  /** Fields joined by separators, `fields[0] + seps[0] + fields[1] + ...`. */
  function Interleave(fields: seq<string>, seps: seq<string>): string
    requires |fields| == |seps| + 1
    decreases |seps|
  {
    if seps == [] then fields[0] else fields[0] + seps[0] + Interleave(fields[1..], seps[1..])
  }

  /**
   * Splitting undoes joining: non-empty fields free of separator characters, joined
   * by `=`/space separators, split back into exactly those fields, and the joined
   * line holds no line break for the cut to remove.
   */
  lemma {:induction false} SplitInterleave(fields: seq<string>, seps: seq<string>)
    requires |fields| == |seps| + 1
    requires forall i :: 0 <= i < |fields| ==> |fields[i]| > 0 && Clean(fields[i])
    requires forall i :: 0 <= i < |seps| ==> IsSeparatorText(seps[i])
    ensures FirstLineBreak(Interleave(fields, seps), 0).None?
    ensures CutAtLineBreak(Interleave(fields, seps)) == Interleave(fields, seps)
    ensures SplitFields(Interleave(fields, seps)) == fields
    decreases |seps|
  {
    var s := Interleave(fields, seps);
    if seps == [] {
      assert s[0..|s|] == s;
      SplitSkipsToken(s, 0, 0, |s|);
      assert forall k :: 0 <= k < |s| ==> !IsLineBreak(s[k]) by {
        forall k | 0 <= k < |s| ensures !IsLineBreak(s[k]) {
          assert !IsSeparatorChar(fields[0][k]);
        }
      }
      assert FirstLineBreak(s, 0).None?;
    } else {
      var t, sep, rest := fields[0], seps[0], Interleave(fields[1..], seps[1..]);
      SplitInterleave(fields[1..], seps[1..]);
      assert fields[1..][0] == fields[1];
      assert s == (t + sep) + rest;
      var e := |t| + |sep|;
      assert rest[0] == fields[1][0] by { InterleaveStart(fields[1..], seps[1..]); }
      SplitStep(t, sep, rest);
      assert fields == [t] + fields[1..];
      assert forall k :: e <= k < |s| ==> s[k] == rest[k - e];
      assert forall k :: 0 <= k < |s| ==> !IsLineBreak(s[k]) by {
        forall k | 0 <= k < |s| ensures !IsLineBreak(s[k]) {
          if k < |t| {
            assert s[k] == t[k] && !IsSeparatorChar(t[k]);
          } else if k >= e {
            assert s[k] == rest[k - e] && !IsLineBreak(rest[k - e]);
          }
        }
      }
      assert FirstLineBreak(s, 0).None?;
    }
  }

  /** A field, a separator and a text that starts a new field split as the field followed by the text's split. */
  lemma SplitStep(t: string, sep: string, rest: string)
    requires |t| > 0 && Clean(t) && IsSeparatorText(sep)
    requires |rest| > 0 && !IsSeparatorChar(rest[0])
    ensures SplitFields((t + sep) + rest) == [t] + SplitFields(rest)
  {
    var s := (t + sep) + rest;
    var e := |t| + |sep|;
    assert s[..|t|] == t;
    assert s[0..|t|] == t;
    assert forall k :: |t| <= k < e ==> s[k] == sep[k - |t|];
    assert s[e] == rest[0];
    SplitToken(s, 0, |t|, e);
    SplitShift(t + sep, rest, 0, 0);
    assert rest[0..0] == [];
  }

  lemma InterleaveStart(fields: seq<string>, seps: seq<string>)
    requires |fields| == |seps| + 1 && |fields[0]| > 0
    ensures |Interleave(fields, seps)| > 0 && Interleave(fields, seps)[0] == fields[0][0]
  {
  }

  /** A token ended by a separator whose match runs to `e`: the split goes on from `e`. */
  lemma SplitToken(s: string, p: nat, q: nat, e: nat)
    requires p <= q < |s| && Clean(s[p..q]) && IsSeparatorChar(s[q])
    requires q < e <= |s| && forall k :: q < k < e ==> IsSpace(s[k])
    requires e < |s| ==> !IsSpace(s[e])
    ensures SplitFrom(s, p, p) == [s[p..q]] + SplitFrom(s, e, e)
  {
    SplitSkipsToken(s, p, p, q);
    SkipSpacesAt(s, q + 1, e);
  }

  /** `SkipSpaces` stops exactly at the first character that is not white space. */
  lemma {:induction false} SkipSpacesAt(s: string, i: nat, n: nat)
    requires i <= n <= |s| && forall k :: i <= k < n ==> IsSpace(s[k])
    requires n < |s| ==> !IsSpace(s[n])
    ensures SkipSpaces(s, i) == n
    decreases n - i
  {
    if i < n { SkipSpacesAt(s, i + 1, n); }
  }

  // ---------------------------------------------------------------------------
  // rawInfo: keys at even positions, values at odd positions

  /** `rawInfo` as a dictionary; a key whose value token is missing maps to `undefined`. */
  type RawInfo = map<string, Option<string>>

  /** The key of the `j`-th pair. */
  function KeyAt(tokens: seq<string>, j: nat): string
    requires 2 * j < |tokens|
  {
    tokens[2 * j]
  }

  /** `splitInfo[i]`, or `undefined` past the end. */
  function ValueAt(tokens: seq<string>, i: nat): Option<string> {
    if i < |tokens| then Some(tokens[i]) else None
  }

  /** Number of iterations of `for (i = 0; i < length; i += 2)`. */
  function PairCount(tokens: seq<string>): nat { (|tokens| + 1) / 2 }

  /** `rawInfo` after the first `n` pairs have been stored. */
  function RawInfoPairs(tokens: seq<string>, n: nat): RawInfo
    requires n <= PairCount(tokens)
  {
    if n == 0 then map[]
    else RawInfoPairs(tokens, n - 1)[KeyAt(tokens, n - 1) := ValueAt(tokens, 2 * (n - 1) + 1)]
  }

  function RawInfoOf(tokens: seq<string>): RawInfo {
    RawInfoPairs(tokens, PairCount(tokens))
  }

  /** The loop that fills `rawInfo` (downloader.js:134-137). */
  method BuildRawInfo(tokens: seq<string>) returns (raw: RawInfo)
    ensures raw == RawInfoOf(tokens)
  {
    raw := map[];
    var i := 0;
    while i < |tokens|
      invariant i % 2 == 0 && i <= |tokens| + 1
      invariant raw == RawInfoPairs(tokens, i / 2)
    {
      raw := raw[tokens[i] := if i + 1 < |tokens| then Some(tokens[i + 1]) else None];
      i := i + 2;
    }
  }

  /** No later pair among the first `n` repeats the key of pair `j`. */
  predicate IsLastKey(tokens: seq<string>, n: nat, j: nat)
    requires j < n <= PairCount(tokens)
  {
    forall j' :: j < j' < n ==> KeyAt(tokens, j') != KeyAt(tokens, j)
  }

  /** The keys of `rawInfo` are exactly the tokens at even positions. */
  lemma {:induction false} RawInfoKeys(tokens: seq<string>, n: nat)
    requires n <= PairCount(tokens)
    ensures forall j :: 0 <= j < n ==> KeyAt(tokens, j) in RawInfoPairs(tokens, n)
    ensures forall key :: key in RawInfoPairs(tokens, n) ==> exists j :: 0 <= j < n && KeyAt(tokens, j) == key
  {
    if n > 0 {
      RawInfoKeys(tokens, n - 1);
      var last := KeyAt(tokens, n - 1);
      forall key | key in RawInfoPairs(tokens, n)
        ensures exists j :: 0 <= j < n && KeyAt(tokens, j) == key
      {
        if key == last {
          assert KeyAt(tokens, n - 1) == key;
        } else {
          assert key in RawInfoPairs(tokens, n - 1);
        }
      }
    }
  }

  /** Each key maps to the token after its last occurrence: a later duplicate key overwrites an earlier one. */
  lemma {:induction false} RawInfoLastWins(tokens: seq<string>, n: nat)
    requires n <= PairCount(tokens)
    ensures forall j :: 0 <= j < n && IsLastKey(tokens, n, j) ==>
      KeyAt(tokens, j) in RawInfoPairs(tokens, n) && RawInfoPairs(tokens, n)[KeyAt(tokens, j)] == ValueAt(tokens, 2 * j + 1)
  {
    if n > 0 {
      RawInfoLastWins(tokens, n - 1);
      forall j | 0 <= j < n - 1 && IsLastKey(tokens, n, j)
        ensures IsLastKey(tokens, n - 1, j)
      {
      }
    }
  }

  // ---------------------------------------------------------------------------
  // The parsed sample

  /** `info.size` or `info.Lsize`: exactly one of them is recorded. */
  datatype SizeReading = Size(size: Option<real>) | Lsize(lsize: Option<real>)

  /** `info`: absent numbers stand for NaN. */
  datatype FrameInfo = FrameInfo(
    frame: Option<int>, fps: Option<real>, q: Option<real>, time: real,
    bitrate: Option<real>, speed: Option<real>, size: SizeReading)

  /** `rawInfo[key]`: `undefined` when the key is missing or has no value token. */
  function Lookup(raw: RawInfo, key: string): Option<string> {
    if key in raw then raw[key] else None
  }

  /** JavaScript truthiness of a string that may be `undefined`. */
  predicate Truthy(v: Option<string>) { v.Some? && v.value != "" }

  /** `rawInfo.size ? 'size' : 'Lsize'` */
  function SizeKey(raw: RawInfo): string {
    if Truthy(Lookup(raw, "size")) then "size" else "Lsize"
  }

  /**
   * `info` built from `rawInfo` (downloader.js:139-148); absent when the handler throws,
   * which `parseTime` and `parseSize` do on `undefined` and `parseTime` does on text
   * without a timestamp. The other fields only become NaN.
   */
  function InfoOf(raw: RawInfo): (r: Option<FrameInfo>)
    ensures r.Some? <==>
      ParseTimeOf(Lookup(raw, "time")).Some? && Lookup(raw, "bitrate").Some? && Lookup(raw, SizeKey(raw)).Some?
    ensures r.Some? ==> r.value.time == TimestampValue(Lookup(raw, "time").value, FirstTimestamp(Lookup(raw, "time").value, 0).value)
    ensures r.Some? ==> (r.value.size.Size? <==> Truthy(Lookup(raw, "size")))
    ensures r.Some? && r.value.size.Size? ==> r.value.size.size == ParseSize(Lookup(raw, "size").value)
    ensures r.Some? && r.value.size.Lsize? ==> r.value.size.lsize == ParseSize(Lookup(raw, "Lsize").value)
    ensures r.Some? ==> r.value.bitrate == ParseSize(Lookup(raw, "bitrate").value)
    ensures r.Some? ==> r.value.frame == ParseIntOf(Lookup(raw, "frame")) && r.value.fps == ParseFloatOf(Lookup(raw, "fps"))
    ensures r.Some? ==> r.value.q == ParseFloatOf(Lookup(raw, "q")) && r.value.speed == ParseFloatOf(Lookup(raw, "speed"))
  {
    var time := ParseTimeOf(Lookup(raw, "time"));
    var bitrate := Lookup(raw, "bitrate");
    var sizeKey := SizeKey(raw);
    var sizeText := Lookup(raw, sizeKey);
    if time.None? || bitrate.None? || sizeText.None? then None
    else
      var sized := ParseSize(sizeText.value);
      Some(FrameInfo(
        ParseIntOf(Lookup(raw, "frame")), ParseFloatOf(Lookup(raw, "fps")), ParseFloatOf(Lookup(raw, "q")),
        time.value, ParseSize(bitrate.value), ParseFloatOf(Lookup(raw, "speed")),
        if sizeKey == "size" then Size(sized) else Lsize(sized)))
  }

  /** A JavaScript number that results from a division. */
  datatype Progress = Ratio(value: real) | NaN | PlusInfinity | MinusInfinity

  /** `time / duration`, where an unknown duration is NaN. */
  function Divide(time: real, duration: Option<real>): (p: Progress)
    ensures duration.None? ==> p == NaN
    ensures duration.Some? && duration.value != 0.0 ==> p == Ratio(time / duration.value)
    ensures duration == Some(0.0) ==> (p == NaN <==> time == 0.0)
  {
    match duration
    case None => NaN
    case Some(d) =>
      if d != 0.0 then Ratio(time / d)
      else if time > 0.0 then PlusInfinity
      else if time < 0.0 then MinusInfinity
      else NaN
  }

  /** The object passed with the `update` event. */
  datatype ProgressUpdate = ProgressUpdate(progress: Progress, info: FrameInfo, rawData: string, rawInfo: RawInfo)

  /** What one chunk produces: nothing, one update, or an exception. */
  datatype ChunkResult = NoUpdate | Update(update: ProgressUpdate) | Threw

  /** `strData.match(/^frame=/)` */
  predicate IsProgressLine(chunk: string) { OccursAt(chunk, "frame=", 0) }

  /** The progress part of the handler, given the duration known after this chunk's capture step. */
  function ChunkUpdate(chunk: string, duration: Option<real>): (r: ChunkResult)
    ensures r.NoUpdate? <==> !IsProgressLine(chunk)
    ensures r.Update? ==> r.update.rawData == chunk
    ensures r.Update? ==> r.update.progress == Divide(r.update.info.time, duration)
    ensures r.Update? ==> Some(r.update.info) == InfoOf(r.update.rawInfo)
    ensures r.Update? ==> r.update.rawInfo == RawInfoOf(SplitFields(CutAtLineBreak(chunk)))
    ensures r.Threw? <==> IsProgressLine(chunk) && InfoOf(RawInfoOf(SplitFields(CutAtLineBreak(chunk)))).None?
  {
    if !IsProgressLine(chunk) then NoUpdate
    else
      var raw := RawInfoOf(SplitFields(CutAtLineBreak(chunk)));
      match InfoOf(raw)
      case None => Threw
      case Some(info) => Update(ProgressUpdate(Divide(info.time, duration), info, chunk, raw))
  }

  // ---------------------------------------------------------------------------
  // Duration capture

  /** The handler's retained state: `duration` (absent for NaN) and `getDurMode`. */
  datatype CaptureState = CaptureState(duration: Option<real>, armed: bool)

  const Start := CaptureState(None, false)

  /** The larger of a known duration and a new reading; the reading when none is known. */
  function MaxOf(known: Option<real>, t: real): real {
    if known.None? || known.value < t then t else known.value
  }

  /** The duration-capture part of the handler (downloader.js:120-130) on one chunk. */
  function Capture(st: CaptureState, chunk: string): (r: CaptureState)
    ensures st.duration.Some? ==> r.duration.Some? && r.duration.value >= st.duration.value
    ensures r.armed <==> (st.armed || Contains(chunk, "Duration:")) && FirstTimestamp(chunk, 0).None?
    ensures r.duration != st.duration ==>
      (st.armed || Contains(chunk, "Duration:")) && FirstTimestamp(chunk, 0).Some?
      && r.duration == Some(TimestampValue(chunk, FirstTimestamp(chunk, 0).value))
      && (st.duration.None? || st.duration.value < r.duration.value)
    ensures (st.armed || Contains(chunk, "Duration:")) && FirstTimestamp(chunk, 0).Some? ==>
      r.duration == Some(MaxOf(st.duration, TimestampValue(chunk, FirstTimestamp(chunk, 0).value)))
  {
    var armed := st.armed || Contains(chunk, "Duration:");
    if !armed then st
    else
      match FirstTimestamp(chunk, 0)
      case None => CaptureState(st.duration, true)
      case Some(i) =>
        ParseTimeOfMatch(chunk, i);
        var t := ParseTime(chunk[i..i + TimestampLength(chunk, i)]).value;
        CaptureState(if st.duration.None? || st.duration.value < t then Some(t) else st.duration, false)
  }

  /** The capture state after a sequence of chunks. */
  function CaptureAll(st: CaptureState, chunks: seq<string>): CaptureState
    decreases |chunks|
  {
    if chunks == [] then st else CaptureAll(Capture(st, chunks[0]), chunks[1..])
  }

  /** Over any sequence of chunks, a known duration stays known and never decreases. */
  lemma {:induction false} DurationNeverDecreases(st: CaptureState, chunks: seq<string>)
    requires st.duration.Some?
    ensures CaptureAll(st, chunks).duration.Some?
    ensures CaptureAll(st, chunks).duration.value >= st.duration.value
    decreases |chunks|
  {
    if chunks != [] { DurationNeverDecreases(Capture(st, chunks[0]), chunks[1..]); }
  }

  // ---------------------------------------------------------------------------
  // The handler with its two fields

  class ProgressParser {
    var duration: Option<real>
    var getDurMode: bool

    constructor ()
      ensures duration == None && !getDurMode
    {
      duration := None;
      getDurMode := false;
    }

    /** One `'data'` event: capture first, then the progress line with the updated duration. */
    method Feed(chunk: string) returns (result: ChunkResult)
      modifies this
      ensures CaptureState(duration, getDurMode) == Capture(old(CaptureState(duration, getDurMode)), chunk)
      ensures result == ChunkUpdate(chunk, duration)
    {
      if Contains(chunk, "Duration:") {
        getDurMode := true;
      }
      if getDurMode {
        var found := FirstTimestamp(chunk, 0);
        if found.Some? {
          getDurMode := false;
          var i := found.value;
          ParseTimeOfMatch(chunk, i);
          var tmp := ParseTime(chunk[i..i + TimestampLength(chunk, i)]).value;
          if duration.None? || duration.value < tmp {
            duration := Some(tmp);
          }
        }
      }
      if IsProgressLine(chunk) {
        var tokens := SplitFields(CutAtLineBreak(chunk));
        var raw := BuildRawInfo(tokens);
        var info := InfoOf(raw);
        if info.None? {
          result := Threw;
        } else {
          result := Update(ProgressUpdate(Divide(info.value.time, duration), info.value, chunk, raw));
        }
      } else {
        result := NoUpdate;
      }
    }
  }
}
