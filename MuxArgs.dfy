/**
 * The ffmpeg command line of one download (downloader.js:42-45, 65-95): two named pipes
 * as inputs, stream copy, the additional options, the `-metadata` pairs and the output.
 */
module MuxArgs {
  import opened Wrappers
  import opened JsText
  import opened Catalog
  import opened Options

  // ---------------------------------------------------------------------------
  // Metadata arguments

  /** `"${key}"="${value}"`: quotes included, nothing escaped. */
  function MetaToken(key: string, value: string): string {
    "\"" + key + "\"=\"" + value + "\""
  }

  /** `options.metaData` in enumeration order: keys with a text or a function of `videoInfo`. */
  type MetaEntries = seq<(string, Setting<string>)>

  /** The arguments the loop pushes for the given entries. */
  function EntryArgs(entries: MetaEntries, info: VideoInfo): (r: seq<string>)
    ensures |r| == 2 * |entries|
    ensures forall j :: 0 <= j < |entries| ==>
      r[2 * j] == "-metadata" && r[2 * j + 1] == MetaToken(entries[j].0, Resolve(entries[j].1, info))
  {
    if entries == [] then []
    else
      var n := |entries| - 1;
      var prefix := EntryArgs(entries[..n], info);
      assert forall j :: 0 <= j < n ==> entries[..n][j] == entries[j];
      prefix + ["-metadata", MetaToken(entries[n].0, Resolve(entries[n].1, info))]
  }

  /** `metaDataForFFmpeg`: empty when there is no metadata option. */
  function MetadataArgs(meta: Option<MetaEntries>, info: VideoInfo): seq<string> {
    match meta
    case None => []
    case Some(entries) => EntryArgs(entries, info)
  }

  /** The metadata loop (downloader.js:65-72). */
  method BuildMetadataArgs(meta: Option<MetaEntries>, info: VideoInfo) returns (args: seq<string>)
    ensures args == MetadataArgs(meta, info)
  {
    args := [];
    if meta.Some? {
      var entries := meta.value;
      var i := 0;
      while i < |entries|
        invariant i <= |entries|
        invariant args == EntryArgs(entries[..i], info)
      {
        assert entries[..i + 1][..i] == entries[..i];
        args := args + ["-metadata"];
        var metaContent := Resolve(entries[i].1, info);
        args := args + [MetaToken(entries[i].0, metaContent)];
        i := i + 1;
      }
      assert entries[..i] == entries;
    }
  }

  /** Reads a token back: the key runs to the first quote after the opening one. */
  function ParseMetaToken(t: string): Option<(string, string)> {
    if |t| < 2 || t[0] != '"' then None
    else
      var k := 1 + FirstIndexOf(t[1..], '"');
      if k + 3 <= |t| - 1 && t[k + 1] == '=' && t[k + 2] == '"' && t[|t| - 1] == '"'
      then Some((t[1..k], t[k + 3..|t| - 1]))
      else None
  }

  /** A token whose key has no quote reads back as its key and value. */
  lemma ParseMetaTokenRoundTrip(key: string, value: string)
    requires '"' !in key
    ensures ParseMetaToken(MetaToken(key, value)) == Some((key, value))
  {
    var t := MetaToken(key, value);
    var k := |key| + 1;
    assert t[1..] == key + "\"=\"" + value + "\"";
    assert t[1..][..|key|] == key && t[1..][|key|] == '"';
    FirstIndexAt(t[1..], '"', |key|);
    assert t[1..k] == key;
    assert t[k + 3..|t| - 1] == value;
  }

  /** With a quote in a key, two different entries produce the same token. */
  lemma MetaTokenAmbiguous()
    ensures exists k1, v1, k2, v2 :: k1 != k2 && MetaToken(k1, v1) == MetaToken(k2, v2)
  {
    var k1, v1 := ['a', '"', '=', '"', 'b'], ['c'];
    var k2, v2 := ['a'], ['b', '"', '=', '"', 'c'];
    assert MetaToken(k1, v1) == MetaToken(k2, v2);
  }

  // ---------------------------------------------------------------------------
  // The argument list

  /** `options.additionalOptions || []` */
  function Additional(additional: Option<seq<string>>): seq<string> {
    if additional.Some? then additional.value else []
  }

  /** The ffmpeg argument list (downloader.js:74-95). */
  function FfmpegArgs(audioPipe: string, videoPipe: string, additional: Option<seq<string>>, metaArgs: seq<string>, outputPath: string): (r: seq<string>)
    ensures |r| == 7 + |Additional(additional)| + |metaArgs|
    ensures r[..6] == ["-i", audioPipe, "-i", videoPipe, "-c", "copy"]
    ensures r[6..6 + |Additional(additional)|] == Additional(additional)
    ensures r[6 + |Additional(additional)|..|r| - 1] == metaArgs
    ensures r[|r| - 1] == outputPath
  {
    ["-i", audioPipe, "-i", videoPipe] + ["-c", "copy"] + Additional(additional) + metaArgs + [outputPath] + []
  }

  /** The five parts of an argument list, given the lengths of the two variable parts. */
  function ArgParts(r: seq<string>, additionalCount: nat, metaCount: nat): (string, string, seq<string>, seq<string>, string)
    requires |r| == 7 + additionalCount + metaCount
  {
    (r[1], r[3], r[6..6 + additionalCount], r[6 + additionalCount..|r| - 1], r[|r| - 1])
  }

  /** The argument list determines the pipes, the options, the metadata and the output. */
  lemma FfmpegArgsParts(audioPipe: string, videoPipe: string, additional: Option<seq<string>>, metaArgs: seq<string>, outputPath: string)
    ensures ArgParts(FfmpegArgs(audioPipe, videoPipe, additional, metaArgs, outputPath), |Additional(additional)|, |metaArgs|)
      == (audioPipe, videoPipe, Additional(additional), metaArgs, outputPath)
  {
    var r := FfmpegArgs(audioPipe, videoPipe, additional, metaArgs, outputPath);
    assert r[1] == r[..6][1] && r[3] == r[..6][3];
  }

  // ---------------------------------------------------------------------------
  // Pipe paths

  /** `String(n)` for a non-negative integer. */
  function DecimalText(n: nat): (r: string)
    ensures |r| >= 1 && AllDigits(r)
  {
    var d := ['0' + (n % 10) as char];
    if n < 10 then d else DecimalText(n / 10) + d
  }

  /** The decimal text reads back as the number. */
  lemma {:induction false} DecimalTextValue(n: nat)
    ensures DigitsValue(DecimalText(n), 10) == n
  {
    var t := DecimalText(n);
    if n >= 10 {
      DecimalTextValue(n / 10);
      assert t[..|t| - 1] == DecimalText(n / 10);
    } else {
      assert t[..0] == [];
    }
  }

  /** `Math.random().toString().replace(/^0\./, '')` */
  function RandomDigits(random: string): string {
    if |random| >= 2 && random[0] == '0' && random[1] == '.' then random[2..] else random
  }

  /** `np_t${Date.now()}r${...}` */
  function PipeName(now: nat, random: string): string {
    "np_t" + DecimalText(now) + "r" + RandomDigits(random)
  }

  /** `path.join` of the platform's pipe directory and the name. */
  function PipePath(windows: bool, now: nat, random: string): string {
    (if windows then "\\\\?\\pipe\\" else "/tmp/pipe/") + PipeName(now, random)
  }

  /** Two pipe names agree only when the clock reading and the random digits do. */
  lemma PipeNameInjective(now1: nat, random1: string, now2: nat, random2: string)
    requires PipeName(now1, random1) == PipeName(now2, random2)
    ensures now1 == now2 && RandomDigits(random1) == RandomDigits(random2)
  {
    var a, x := DecimalText(now1), RandomDigits(random1);
    var b, y := DecimalText(now2), RandomDigits(random2);
    assert PipeName(now1, random1) == "np_t" + (a + "r" + x);
    assert PipeName(now2, random2) == "np_t" + (b + "r" + y);
    PrefixCancel("np_t", a + "r" + x, b + "r" + y);
    DigitsThenR(a, x, b, y);
    DecimalTextValue(now1);
    DecimalTextValue(now2);
  }

  /** Texts that agree after a common prefix agree. */
  lemma PrefixCancel(p: string, t1: string, t2: string)
    requires p + t1 == p + t2
    ensures t1 == t2
  {
    assert t1 == (p + t1)[|p|..];
  }

  /** A run of digits ended by `r` is determined by the text, and so is what follows the `r`. */
  lemma DigitsThenR(a: string, x: string, b: string, y: string)
    requires AllDigits(a) && AllDigits(b) && a + "r" + x == b + "r" + y
    ensures a == b && x == y
  {
    var s := a + "r" + x;
    FirstR(a, x);
    FirstR(b, y);
    assert |a| == |b|;
    assert a == s[..|a|] == b;
    assert x == s[|a| + 1..] == y;
  }

  /** In digits followed by `r`, the first `r` is the one after the digits. */
  lemma FirstR(a: string, x: string)
    requires AllDigits(a)
    ensures (a + "r" + x)[|a|] == 'r'
    ensures forall k :: 0 <= k < |a| ==> (a + "r" + x)[k] != 'r'
  {
    forall k | 0 <= k < |a| ensures (a + "r" + x)[k] != 'r' {
      assert (a + "r" + x)[k] == a[k] && IsDigit(a[k]);
    }
  }

  /** On one platform, two pipe paths agree only when their names do. */
  lemma PipePathInjective(windows: bool, now1: nat, random1: string, now2: nat, random2: string)
    requires PipePath(windows, now1, random1) == PipePath(windows, now2, random2)
    ensures now1 == now2 && RandomDigits(random1) == RandomDigits(random2)
  {
    var base := if windows then "\\\\?\\pipe\\" else "/tmp/pipe/";
    assert PipePath(windows, now1, random1)[|base|..] == PipeName(now1, random1);
    assert PipePath(windows, now2, random2)[|base|..] == PipeName(now2, random2);
    PipeNameInjective(now1, random1, now2, random2);
  }
}
