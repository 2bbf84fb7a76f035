/**
 * Source selection (downloader.js:240-246, 277-297): for each track type the candidates of
 * the target format are run through the filter, and a "best so far" replaces the incumbent
 * when the incumbent has no URL or the comparator says the candidate is better.
 */
module Selection {
  import opened Wrappers
  import opened JsText
  import opened Catalog

  /** The object handed to `formatFilter`; `bitrate` is `parseInt(source.bitrate)`, absent for NaN. */
  datatype FormatInfo = FormatInfo(trackType: string, format: string, codec: Option<string>, bitrate: Option<int>, source: Source)

  /** The options' two hooks; a falsy `formatFilter` lets every candidate through. */
  datatype Hooks = Hooks(filter: Option<FormatInfo -> bool>, compare: (Source, Source) -> bool)

  /** `sources[type] = {}`: the starting point, with no URL. */
  const NoSource := Source(FmtObj(None, None, None), None)

  /** `sources[type].url` is truthy: present and not the empty string. */
  predicate HasUrl(s: Source) { s.fmt.url.Some? && s.fmt.url.value != "" }

  /** `parseInt(source.bitrate)`, absent for NaN. */
  function Bitrate(s: Source): Option<int> { ParseIntOf(s.fmt.bitrate) }

  function InfoFor(trackType: string, format: string, s: Source): FormatInfo {
    FormatInfo(trackType, format, s.codec, Bitrate(s), s)
  }

  /** The default filter: every format except Vorbis audio in WebM. */
  predicate DefaultFilter(info: FormatInfo) {
    !(info.trackType == "audio" && info.format == "webm" && info.codec == Some("vorbis"))
  }

  /** The default comparator `parseInt(a.bitrate) < parseInt(b.bitrate)`: false whenever either side is NaN. */
  predicate DefaultCompare(a: Source, b: Source) {
    Bitrate(a).Some? && Bitrate(b).Some? && Bitrate(a).value < Bitrate(b).value
  }

  const DefaultHooks := Hooks(Some(DefaultFilter), DefaultCompare)

  /** The candidate passes the filter, or there is no filter. */
  predicate Survives(hooks: Hooks, trackType: string, format: string, s: Source) {
    hooks.filter.None? || hooks.filter.value(InfoFor(trackType, format, s))
  }

  /** One candidate considered against the incumbent. */
  function Step(hooks: Hooks, trackType: string, format: string, best: Source, s: Source): Source {
    if !Survives(hooks, trackType, format, s) then best
    else if !HasUrl(best) || hooks.compare(best, s) then s
    else best
  }

  /** `sources[type]` after the candidates have been considered in catalog order. */
  function Select(hooks: Hooks, trackType: string, format: string, cands: seq<Source>): Source {
    if cands == [] then NoSource
    else Step(hooks, trackType, format, Select(hooks, trackType, format, cands[..|cands| - 1]), cands[|cands| - 1])
  }

  /** The selection loop for one track type (downloader.js:279-296). */
  method SelectTrack(hooks: Hooks, trackType: string, format: string, cands: seq<Source>) returns (best: Source)
    ensures best == Select(hooks, trackType, format, cands)
  {
    best := NoSource;
    var i := 0;
    while i < |cands|
      invariant i <= |cands|
      invariant best == Select(hooks, trackType, format, cands[..i])
    {
      var source := cands[i];
      assert cands[..i + 1][..i] == cands[..i];
      if hooks.filter.Some? {
        var formatInfo := InfoFor(trackType, format, source);
        if !hooks.filter.value(formatInfo) {
          i := i + 1;
          continue;
        }
      }
      if !HasUrl(best) || hooks.compare(best, source) {
        best := source;
      }
      i := i + 1;
    }
    assert cands[..i] == cands;
  }

  /** The choice is `{}` when nothing survives the filter, and otherwise one of the surviving candidates. */
  lemma {:induction false} SelectSurvivor(hooks: Hooks, trackType: string, format: string, cands: seq<Source>)
    ensures (forall k :: 0 <= k < |cands| ==> !Survives(hooks, trackType, format, cands[k])) ==>
      Select(hooks, trackType, format, cands) == NoSource
    ensures (exists k :: 0 <= k < |cands| && Survives(hooks, trackType, format, cands[k])) ==>
      exists k :: 0 <= k < |cands| && Survives(hooks, trackType, format, cands[k]) && Select(hooks, trackType, format, cands) == cands[k]
  {
    if cands != [] {
      var n := |cands| - 1;
      var prefix := cands[..n];
      SelectSurvivor(hooks, trackType, format, prefix);
      assert forall k :: 0 <= k < n ==> prefix[k] == cands[k];
      if !Survives(hooks, trackType, format, cands[n]) {
        if exists k :: 0 <= k < |cands| && Survives(hooks, trackType, format, cands[k]) {
          var k :| 0 <= k < |cands| && Survives(hooks, trackType, format, cands[k]);
          assert Survives(hooks, trackType, format, prefix[k]);
        }
      }
    }
  }

  /** Every surviving candidate has a URL and a numeric bitrate. */
  predicate WellFormedSurvivors(hooks: Hooks, trackType: string, format: string, cands: seq<Source>) {
    forall k :: 0 <= k < |cands| && Survives(hooks, trackType, format, cands[k]) ==>
      HasUrl(cands[k]) && Bitrate(cands[k]).Some?
  }

  /** Candidate `i` has the highest bitrate among the survivors and no earlier survivor ties with it. */
  predicate EarliestMaximum(hooks: Hooks, trackType: string, format: string, cands: seq<Source>, i: nat)
    requires WellFormedSurvivors(hooks, trackType, format, cands)
  {
    i < |cands| && Survives(hooks, trackType, format, cands[i])
    && (forall k :: 0 <= k < |cands| && Survives(hooks, trackType, format, cands[k]) ==>
      Bitrate(cands[k]).value <= Bitrate(cands[i]).value)
    && (forall k :: 0 <= k < i && Survives(hooks, trackType, format, cands[k]) ==>
      Bitrate(cands[k]).value < Bitrate(cands[i]).value)
  }

  /**
   * With the default strict comparator, and survivors that all carry a URL and a numeric
   * bitrate, the choice is the surviving candidate of highest bitrate, the earliest one
   * on a tie.
   */
  lemma {:induction false} DefaultPicksEarliestMaximum(filter: Option<FormatInfo -> bool>, trackType: string, format: string, cands: seq<Source>)
    requires WellFormedSurvivors(Hooks(filter, DefaultCompare), trackType, format, cands)
    requires exists k :: 0 <= k < |cands| && Survives(Hooks(filter, DefaultCompare), trackType, format, cands[k])
    ensures exists i: nat :: (EarliestMaximum(Hooks(filter, DefaultCompare), trackType, format, cands, i)
      && Select(Hooks(filter, DefaultCompare), trackType, format, cands) == cands[i])
  {
    var hooks := Hooks(filter, DefaultCompare);
    var n := |cands| - 1;
    var prefix := cands[..n];
    assert forall k :: 0 <= k < n ==> prefix[k] == cands[k];
    assert WellFormedSurvivors(hooks, trackType, format, prefix);
    if exists k :: 0 <= k < n && Survives(hooks, trackType, format, cands[k]) {
      var k :| 0 <= k < n && Survives(hooks, trackType, format, cands[k]);
      assert Survives(hooks, trackType, format, prefix[k]);
      DefaultPicksEarliestMaximum(filter, trackType, format, prefix);
      var i: nat :| EarliestMaximum(hooks, trackType, format, prefix, i) && Select(hooks, trackType, format, prefix) == prefix[i];
      var j := DefaultStep(filter, trackType, format, cands, i);
    } else {
      SoleSurvivor(hooks, trackType, format, cands);
    }
  }

  /** When only the last candidate survives, it is the choice and the earliest maximum. */
  lemma SoleSurvivor(hooks: Hooks, trackType: string, format: string, cands: seq<Source>)
    requires |cands| > 0 && WellFormedSurvivors(hooks, trackType, format, cands)
    requires exists k :: 0 <= k < |cands| && Survives(hooks, trackType, format, cands[k])
    requires forall k :: 0 <= k < |cands| - 1 ==> !Survives(hooks, trackType, format, cands[k])
    ensures EarliestMaximum(hooks, trackType, format, cands, |cands| - 1)
    ensures Select(hooks, trackType, format, cands) == cands[|cands| - 1]
  {
    var n := |cands| - 1;
    var prefix := cands[..n];
    forall k | 0 <= k < n ensures !Survives(hooks, trackType, format, prefix[k]) {
      assert prefix[k] == cands[k];
    }
    SelectSurvivor(hooks, trackType, format, prefix);
    var k :| 0 <= k < |cands| && Survives(hooks, trackType, format, cands[k]);
    assert k == n;
  }

  /** One more candidate after a prefix whose choice is its earliest maximum. */
  lemma DefaultStep(filter: Option<FormatInfo -> bool>, trackType: string, format: string, cands: seq<Source>, i: nat)
    returns (j: nat)
    requires |cands| > 0 && WellFormedSurvivors(Hooks(filter, DefaultCompare), trackType, format, cands)
    requires WellFormedSurvivors(Hooks(filter, DefaultCompare), trackType, format, cands[..|cands| - 1])
    requires EarliestMaximum(Hooks(filter, DefaultCompare), trackType, format, cands[..|cands| - 1], i)
    requires Select(Hooks(filter, DefaultCompare), trackType, format, cands[..|cands| - 1]) == cands[..|cands| - 1][i]
    ensures EarliestMaximum(Hooks(filter, DefaultCompare), trackType, format, cands, j)
    ensures Select(Hooks(filter, DefaultCompare), trackType, format, cands) == cands[j]
  {
    var hooks := Hooks(filter, DefaultCompare);
    var n := |cands| - 1;
    var c := cands[n];
    assert cands[..n][i] == cands[i];
    assert Select(hooks, trackType, format, cands) == Step(hooks, trackType, format, cands[i], c);
    assert HasUrl(cands[i]);
    if Survives(hooks, trackType, format, c) && DefaultCompare(cands[i], c) {
      j := n;
      MaximumMoves(hooks, trackType, format, cands, i);
    } else {
      j := i;
      MaximumStays(hooks, trackType, format, cands, i);
    }
  }

  /** A surviving last candidate of strictly higher bitrate becomes the earliest maximum. */
  lemma MaximumMoves(hooks: Hooks, trackType: string, format: string, cands: seq<Source>, i: nat)
    requires |cands| > 0 && WellFormedSurvivors(hooks, trackType, format, cands)
    requires WellFormedSurvivors(hooks, trackType, format, cands[..|cands| - 1])
    requires EarliestMaximum(hooks, trackType, format, cands[..|cands| - 1], i)
    requires Survives(hooks, trackType, format, cands[|cands| - 1])
    requires Bitrate(cands[i]).value < Bitrate(cands[|cands| - 1]).value
    ensures EarliestMaximum(hooks, trackType, format, cands, |cands| - 1)
  {
    var n := |cands| - 1;
    assert cands[..n][i] == cands[i];
    forall k | 0 <= k < |cands| && Survives(hooks, trackType, format, cands[k])
      ensures Bitrate(cands[k]).value <= Bitrate(cands[n]).value
    {
      if k < n { assert cands[..n][k] == cands[k]; }
    }
    forall k | 0 <= k < n && Survives(hooks, trackType, format, cands[k])
      ensures Bitrate(cands[k]).value < Bitrate(cands[n]).value
    {
      assert cands[..n][k] == cands[k];
    }
  }

  /** A last candidate that is filtered out or not strictly better leaves the earliest maximum in place. */
  lemma MaximumStays(hooks: Hooks, trackType: string, format: string, cands: seq<Source>, i: nat)
    requires |cands| > 0 && WellFormedSurvivors(hooks, trackType, format, cands)
    requires WellFormedSurvivors(hooks, trackType, format, cands[..|cands| - 1])
    requires EarliestMaximum(hooks, trackType, format, cands[..|cands| - 1], i)
    requires Survives(hooks, trackType, format, cands[|cands| - 1]) ==>
      !DefaultCompare(cands[i], cands[|cands| - 1])
    ensures EarliestMaximum(hooks, trackType, format, cands, i)
  {
    var n := |cands| - 1;
    assert cands[..n][i] == cands[i];
    forall k | 0 <= k < |cands| && Survives(hooks, trackType, format, cands[k])
      ensures Bitrate(cands[k]).value <= Bitrate(cands[i]).value
    {
      if k < n { assert cands[..n][k] == cands[k]; }
    }
    forall k | 0 <= k < i && Survives(hooks, trackType, format, cands[k])
      ensures Bitrate(cands[k]).value < Bitrate(cands[i]).value
    {
      assert cands[..n][k] == cands[k];
    }
  }

  /**
   * A surviving candidate without a URL never holds its place: when the choice has no URL,
   * it is the last survivor (or `{}` when there is none).
   */
  lemma {:induction false} ChoiceWithoutUrlIsLast(hooks: Hooks, trackType: string, format: string, cands: seq<Source>)
    requires !HasUrl(Select(hooks, trackType, format, cands))
    ensures Select(hooks, trackType, format, cands) == NoSource ||
      exists k :: 0 <= k < |cands| && Survives(hooks, trackType, format, cands[k])
        && Select(hooks, trackType, format, cands) == cands[k]
        && forall j :: k < j < |cands| ==> !Survives(hooks, trackType, format, cands[j])
  {
    if cands != [] {
      var n := |cands| - 1;
      var prefix := cands[..n];
      var best := Select(hooks, trackType, format, prefix);
      if !Survives(hooks, trackType, format, cands[n]) {
        ChoiceWithoutUrlIsLast(hooks, trackType, format, prefix);
        if best != NoSource {
          var k :| 0 <= k < n && Survives(hooks, trackType, format, prefix[k]) && best == prefix[k]
            && forall j :: k < j < n ==> !Survives(hooks, trackType, format, prefix[j]);
          assert forall j :: k < j < n ==> prefix[j] == cands[j];
        }
      }
    }
  }

  /** Among Vorbis and Opus WebM audio, the default hooks take Opus: Vorbis never passes the filter. */
  lemma DefaultSkipsVorbis(vorbis: Source, opus: Source)
    requires vorbis.codec == Some("vorbis") && opus.codec == Some("opus")
    ensures Select(DefaultHooks, "audio", "webm", [vorbis, opus]) == opus
  {
    assert !DefaultFilter(InfoFor("audio", "webm", vorbis));
    assert DefaultFilter(InfoFor("audio", "webm", opus));
    assert [vorbis, opus][..1] == [vorbis];
    assert [vorbis][..0] == [];
    assert Select(DefaultHooks, "audio", "webm", [vorbis]) == NoSource;
  }

  /** The chosen audio and video sources. */
  datatype Sources = Sources(audio: Source, video: Source)

  /**
   * Both track types of one format, audio first; absent when a track type has no list,
   * where the source throws on `fmt[type].forEach`.
   */
  function SourcesFor(hooks: Hooks, format: string, fmt: map<string, seq<Source>>): (r: Option<Sources>)
    ensures r.Some? <==> "audio" in fmt && "video" in fmt
    ensures r.Some? ==> r.value == Sources(Select(hooks, "audio", format, fmt["audio"]), Select(hooks, "video", format, fmt["video"]))
  {
    if "audio" !in fmt || "video" !in fmt then None
    else Some(Sources(Select(hooks, "audio", format, fmt["audio"]), Select(hooks, "video", format, fmt["video"])))
  }

  /** `['audio', 'video'].forEach(...)` over one format's catalog entry (downloader.js:277-297). */
  method PickSources(hooks: Hooks, format: string, fmt: map<string, seq<Source>>) returns (r: Option<Sources>)
    ensures r == SourcesFor(hooks, format, fmt)
  {
    if "audio" !in fmt {
      return None;
    }
    var audio := SelectTrack(hooks, "audio", format, fmt["audio"]);
    if "video" !in fmt {
      return None;
    }
    var video := SelectTrack(hooks, "video", format, fmt["video"]);
    r := Some(Sources(audio, video));
  }
}
