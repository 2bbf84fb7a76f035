/**
 * The per-format part of `downloader` (downloader.js:18-25, 214-247, 270-336): for each
 * target format, pick the sources, build `videoInfo`, resolve the output path and the
 * options, and start a download; the emitters are kept by format name.
 */
module Jobs {
  import opened Wrappers
  import opened Catalog
  import opened Selection
  import opened Options
  import opened MuxArgs

  // ---------------------------------------------------------------------------
  // sanitize

  /** `s.replace(/\.+$/, '')`: the run of dots at the end is removed. */
  function TrimTrailingDots(s: string): (r: string)
    ensures |r| <= |s| && r == s[..|r|]
    ensures |r| == 0 || r[|r| - 1] != '.'
    ensures forall k :: |r| <= k < |s| ==> s[k] == '.'
  {
    if |s| > 0 && s[|s| - 1] == '.' then TrimTrailingDots(s[..|s| - 1]) else s
  }

  /** The three properties of `TrimTrailingDots` single out its result. */
  lemma TrimTrailingDotsUnique(s: string, t: string)
    requires |t| <= |s| && t == s[..|t|]
    requires |t| == 0 || t[|t| - 1] != '.'
    requires forall k :: |t| <= k < |s| ==> s[k] == '.'
    ensures t == TrimTrailingDots(s)
  {
    var r := TrimTrailingDots(s);
    if |t| < |r| {
      assert false;
    }
    if |r| < |t| {
      assert false;
    }
  }

  /** Trimming twice trims no more than once. */
  lemma TrimTrailingDotsIdempotent(s: string)
    ensures TrimTrailingDots(TrimTrailingDots(s)) == TrimTrailingDots(s)
  {
    var r := TrimTrailingDots(s);
    TrimTrailingDotsUnique(r, r);
  }

  /**
   * The text `String.prototype.replace` inserts for a match of the final `.` that has
   * `before` ahead of it and nothing after it: `$$`, `$&`, `` $` `` and `$'` are expanded,
   * and any other `$` stands for itself, as the pattern has no capture groups.
   */
  function Substitution(replacement: string, before: string): string
    decreases |replacement|
  {
    if replacement == [] then []
    else if replacement[0] == '$' && |replacement| >= 2
      && (replacement[1] == '$' || replacement[1] == '&' || replacement[1] == '`' || replacement[1] == '\'') then
      var expanded := if replacement[1] == '$' then "$" else if replacement[1] == '&' then "." else if replacement[1] == '`' then before else "";
      expanded + Substitution(replacement[2..], before)
    else [replacement[0]] + Substitution(replacement[1..], before)
  }

  /** A replacement without `$` is inserted as it is. */
  lemma {:induction false} SubstitutionLiteral(replacement: string, before: string)
    requires '$' !in replacement
    ensures Substitution(replacement, before) == replacement
    decreases |replacement|
  {
    if replacement != [] {
      assert '$' !in replacement[1..] by {
        forall k | 0 <= k < |replacement| - 1 ensures replacement[1..][k] != '$' {
          assert replacement[1..][k] == replacement[k + 1];
        }
      }
      SubstitutionLiteral(replacement[1..], before);
      assert replacement == [replacement[0]] + replacement[1..];
    }
  }

  /** `s.replace(/\.$/, replacement)`: one final dot becomes the expanded replacement. */
  function ReplaceFinalDot(s: string, replacement: string): string {
    if |s| > 0 && s[|s| - 1] == '.' then s[..|s| - 1] + Substitution(replacement, s[..|s| - 1]) else s
  }

  /**
   * `sanitize(fileName, replacement)`, with the `sanitize-filename` library passed in as
   * `library`; an absent replacement is the empty string.
   */
  function Sanitize(library: (string, string) -> string, fileName: string, replacement: string): (r: string)
    ensures replacement == "" ==> r == TrimTrailingDots(library(fileName, ""))
    ensures replacement != "" && '$' !in replacement && replacement[|replacement| - 1] != '.' ==> |r| == 0 || r[|r| - 1] != '.'
  {
    var cleaned := library(fileName, replacement);
    if replacement == "" then TrimTrailingDots(cleaned)
    else
      assert '$' !in replacement && |cleaned| > 0 ==> Substitution(replacement, cleaned[..|cleaned| - 1]) == replacement by {
        if '$' !in replacement && |cleaned| > 0 { SubstitutionLiteral(replacement, cleaned[..|cleaned| - 1]); }
      }
      ReplaceFinalDot(cleaned, replacement)
  }

  /** The replacement `$&` puts the matched dot back, so the name keeps its final dot. */
  lemma MatchPatternKeepsDot(library: (string, string) -> string, fileName: string)
    requires var cleaned := library(fileName, "$&"); |cleaned| > 0 && cleaned[|cleaned| - 1] == '.'
    ensures Sanitize(library, fileName, "$&") == library(fileName, "$&")
  {
    var cleaned := library(fileName, "$&");
    var before := cleaned[..|cleaned| - 1];
    assert Substitution("$&", before) == "." + Substitution("", before);
    assert cleaned == before + ".";
  }

  /** Without a replacement, the file name never ends in a dot and is a prefix of the library's result. */
  lemma SanitizeNoTrailingDot(library: (string, string) -> string, fileName: string)
    ensures var r := Sanitize(library, fileName, "");
      (|r| == 0 || r[|r| - 1] != '.') && r == library(fileName, "")[..|r|]
  {
  }

  // ---------------------------------------------------------------------------
  // Options

  /** `additionalOptions`: absent, a table by format, or a function of `videoInfo`. */
  datatype AdditionalOption =
    | NoAdditional
    | ByFormat(byFormat: map<string, seq<string>>)
    | ForVideo(computeAdditional: VideoInfo -> seq<string>)

  /** `metaData`: absent, a table of entries, or a function of `videoInfo` returning one. */
  datatype MetaOption =
    | NoMeta
    | FixedMeta(entries: MetaEntries)
    | MetaFor(computeMeta: VideoInfo -> MetaEntries)

  /** The options `downloader` reads after defaults are merged in. */
  datatype DownloadOptions = DownloadOptions(
    outputDir: Setting<string>, outputFileName: Setting<string>, targetFormats: seq<string>,
    additional: AdditionalOption, metaData: MetaOption, hooks: Hooks)

  /** The two library functions the output path goes through. */
  datatype Libraries = Libraries(sanitizeFileName: (string, string) -> string, join: (string, string) -> string)

  /** What was scraped from the watch page, with the grouped catalog. */
  datatype Scraped = Scraped(
    videoId: string, description: string, args: map<string, string>, schema: map<string, string>, fmts: Fmts)

  /** The default `targetFormats` and `additionalOptions` (downloader.js:218-230). */
  const DefaultTargetFormats: seq<string> := ["mp4", "webm"]
  const DefaultAdditional := ByFormat(map["mp4" := ["-movflags", "faststart"], "webm" := []])

  /** The additional options for one format (downloader.js:313-316). */
  function ResolveAdditional(additional: AdditionalOption, info: VideoInfo): (r: Option<seq<string>>)
    ensures r.None? <==> additional.NoAdditional? || (additional.ByFormat? && info.targetFormat !in additional.byFormat)
    ensures additional.ByFormat? && r.Some? ==> r.value == additional.byFormat[info.targetFormat]
    ensures additional.ForVideo? ==> r == Some(additional.computeAdditional(info))
  {
    match additional
    case NoAdditional => None
    case ByFormat(table) => if info.targetFormat in table then Some(table[info.targetFormat]) else None
    case ForVideo(f) => Some(f(info))
  }

  /** The metadata for one format (downloader.js:318-321). */
  function ResolveMeta(meta: MetaOption, info: VideoInfo): (r: Option<MetaEntries>)
    ensures r.None? <==> meta.NoMeta?
    ensures meta.FixedMeta? ==> r == Some(meta.entries)
    ensures meta.MetaFor? ==> r == Some(meta.computeMeta(info))
  {
    match meta
    case NoMeta => None
    case FixedMeta(entries) => Some(entries)
    case MetaFor(f) => Some(f(info))
  }

  // ---------------------------------------------------------------------------
  // One format

  /** The options object passed to `download` (downloader.js:323-333). */
  datatype Job = Job(
    format: string, audioUrl: Option<string>, videoUrl: Option<string>, outputPath: string,
    metaData: Option<MetaEntries>, additional: Option<seq<string>>, sources: Sources, info: VideoInfo)

  /** What the loop body does for one target format. */
  datatype Outcome<J> = Absent | Throws | Starts(job: J)

  /** `videoInfo` for one format (downloader.js:299-307). */
  function VideoInfoFor(scraped: Scraped, format: string, sources: Sources): VideoInfo {
    VideoInfo(scraped.videoId, scraped.description, format, format, scraped.args, scraped.schema, sources)
  }

  /** The download for one format, once its sources are known (downloader.js:299-333). */
  function JobFor(opts: DownloadOptions, libs: Libraries, scraped: Scraped, format: string, sources: Sources): (job: Job)
    ensures job.format == format && job.info.targetFormat == format && job.info.extension == format
    ensures job.sources == sources && job.info.sources == sources
    ensures job.audioUrl == sources.audio.fmt.url && job.videoUrl == sources.video.fmt.url
    ensures job.outputPath == libs.join(Resolve(opts.outputDir, job.info),
      TrimTrailingDots(libs.sanitizeFileName(Resolve(opts.outputFileName, job.info), "")))
    ensures job.metaData == ResolveMeta(opts.metaData, job.info)
    ensures job.additional == ResolveAdditional(opts.additional, job.info)
  {
    var info := VideoInfoFor(scraped, format, sources);
    var directory := Resolve(opts.outputDir, info);
    var fileName := Resolve(opts.outputFileName, info);
    var filePath := libs.join(directory, Sanitize(libs.sanitizeFileName, fileName, ""));
    Job(format, sources.audio.fmt.url, sources.video.fmt.url, filePath,
      ResolveMeta(opts.metaData, info), ResolveAdditional(opts.additional, info), sources, info)
  }

  /**
   * The loop body for one target format (downloader.js:271-334): a format missing from
   * the catalog is skipped; one missing an audio or a video list throws.
   */
  function PlanFormat(opts: DownloadOptions, libs: Libraries, scraped: Scraped, format: string): (r: Outcome<Job>)
    ensures r.Absent? <==> format !in scraped.fmts
    ensures r.Throws? <==> format in scraped.fmts && ("audio" !in scraped.fmts[format] || "video" !in scraped.fmts[format])
    ensures r.Starts? ==> r.job == JobFor(opts, libs, scraped, format, SourcesFor(opts.hooks, format, scraped.fmts[format]).value)
  {
    if format !in scraped.fmts then Absent
    else
      var sources := SourcesFor(opts.hooks, format, scraped.fmts[format]);
      if sources.None? then Throws
      else Starts(JobFor(opts, libs, scraped, format, sources.value))
  }

  /** The loop body as a statement sequence. */
  method PlanOne(opts: DownloadOptions, libs: Libraries, scraped: Scraped, format: string) returns (r: Outcome<Job>)
    ensures r == PlanFormat(opts, libs, scraped, format)
  {
    if format !in scraped.fmts {
      return Absent;
    }
    var sources := PickSources(opts.hooks, format, scraped.fmts[format]);
    if sources.None? {
      return Throws;
    }
    r := Starts(JobFor(opts, libs, scraped, format, sources.value));
  }

  /** A track with no surviving candidate still starts a download, with no URL for that track. */
  lemma NoSurvivorStillStarts(opts: DownloadOptions, libs: Libraries, scraped: Scraped, format: string)
    requires format in scraped.fmts && "audio" in scraped.fmts[format] && "video" in scraped.fmts[format]
    requires var cands := scraped.fmts[format]["audio"];
      forall k :: 0 <= k < |cands| ==> !Survives(opts.hooks, "audio", format, cands[k])
    ensures PlanFormat(opts, libs, scraped, format).Starts?
    ensures PlanFormat(opts, libs, scraped, format).job.audioUrl.None?
  {
    SelectSurvivor(opts.hooks, "audio", format, scraped.fmts[format]["audio"]);
  }

  /** The ffmpeg argument list of a job, given the two pipe paths (downloader.js:65-95). */
  function JobArgs(job: Job, audioPipe: string, videoPipe: string): (r: seq<string>)
    ensures |r| == 7 + |Additional(job.additional)| + 2 * (if job.metaData.Some? then |job.metaData.value| else 0)
    ensures r[1] == audioPipe && r[3] == videoPipe && r[|r| - 1] == job.outputPath
  {
    var r := FfmpegArgs(audioPipe, videoPipe, job.additional, MetadataArgs(job.metaData, job.info), job.outputPath);
    assert r[1] == r[..6][1] && r[3] == r[..6][3];
    r
  }

  /** With the default additional options, an mp4 job moves the moov atom to the front. */
  lemma DefaultMp4Faststart(opts: DownloadOptions, libs: Libraries, scraped: Scraped, audioPipe: string, videoPipe: string)
    requires opts.additional == DefaultAdditional
    requires PlanFormat(opts, libs, scraped, "mp4").Starts?
    ensures JobArgs(PlanFormat(opts, libs, scraped, "mp4").job, audioPipe, videoPipe)[6..8] == ["-movflags", "faststart"]
  {
    var job := PlanFormat(opts, libs, scraped, "mp4").job;
    assert job.additional == Some(["-movflags", "faststart"]);
    var r := FfmpegArgs(audioPipe, videoPipe, job.additional, MetadataArgs(job.metaData, job.info), job.outputPath);
    assert r[6..8] == r[6..6 + |Additional(job.additional)|];
  }


  // ---------------------------------------------------------------------------
  // All formats

  /** After the loop: the emitters by name in insertion order, or the exception. */
  datatype PlanResult<J> =
    | Planned(emitters: seq<(string, J)>, started: seq<J>)
    | Aborted(started: seq<J>)

  function Names<J>(emitters: seq<(string, J)>): (r: seq<string>)
    ensures |r| == |emitters| && forall k :: 0 <= k < |r| ==> r[k] == emitters[k].0
  {
    if emitters == [] then [] else [emitters[0].0] + Names(emitters[1..])
  }

  predicate Distinct(names: seq<string>) {
    forall i, j :: 0 <= i < j < |names| ==> names[i] != names[j]
  }

  /** The position of the first emitter with the given name, or the length when there is none. */
  function NameIndex<J>(emitters: seq<(string, J)>, name: string): (i: nat)
    ensures i <= |emitters| && (i < |emitters| ==> emitters[i].0 == name)
    ensures forall k :: 0 <= k < i ==> emitters[k].0 != name
  {
    if emitters == [] then 0
    else if emitters[0].0 == name then 0
    else 1 + NameIndex(emitters[1..], name)
  }

  /** `emitters[name] = job`: an existing name keeps its place, a new one goes last. */
  function Assign<J>(emitters: seq<(string, J)>, name: string, job: J): seq<(string, J)> {
    var i := NameIndex(emitters, name);
    if i < |emitters| then emitters[i := (name, job)] else emitters + [(name, job)]
  }

  /** Assigning keeps the names distinct and replaces only the entry of that name. */
  lemma AssignFacts<J>(emitters: seq<(string, J)>, name: string, job: J)
    requires Distinct(Names(emitters))
    ensures var r := Assign(emitters, name, job);
      && Names(r) == (if name in Names(emitters) then Names(emitters) else Names(emitters) + [name])
      && Distinct(Names(r))
      && forall k :: 0 <= k < |r| ==> r[k] == (if r[k].0 == name then (name, job) else emitters[k])
  {
    var i := NameIndex(emitters, name);
    var r := Assign(emitters, name, job);
    if i == |emitters| {
      assert name !in Names(emitters);
      assert Names(r) == Names(emitters) + [name];
    } else {
      assert Names(emitters)[i] == name;
      assert Names(r) == Names(emitters);
    }
  }

  /** The `forEach` over the target formats, with the loop body given as `plan`. */
  function Plan<J>(plan: string -> Outcome<J>, formats: seq<string>): PlanResult<J> {
    if formats == [] then Planned([], [])
    else
      var n := |formats| - 1;
      var before := Plan(plan, formats[..n]);
      if before.Aborted? then before
      else
        match plan(formats[n])
        case Absent => before
        case Throws => Aborted(before.started)
        case Starts(job) => Planned(Assign(before.emitters, formats[n], job), before.started + [job])
  }

  /** One more target format, in terms of the loop state before it. */
  lemma PlanStep<J>(plan: string -> Outcome<J>, formats: seq<string>, i: nat)
    requires i < |formats|
    ensures Plan(plan, formats[..i + 1]) ==
      var before := Plan(plan, formats[..i]);
      if before.Aborted? then before
      else match plan(formats[i])
        case Absent => before
        case Throws => Aborted(before.started)
        case Starts(job) => Planned(Assign(before.emitters, formats[i], job), before.started + [job])
  {
    assert formats[..i + 1][..i] == formats[..i];
  }

  /** Once the loop has thrown, later target formats change nothing. */
  lemma {:induction false} PlanAbortedStays<J>(plan: string -> Outcome<J>, formats: seq<string>, i: nat)
    requires i <= |formats| && Plan(plan, formats[..i]).Aborted?
    ensures Plan(plan, formats) == Plan(plan, formats[..i])
  {
    if i < |formats| {
      var n := |formats| - 1;
      assert formats[..n][..i] == formats[..i];
      PlanAbortedStays(plan, formats[..n], i);
    } else {
      assert formats[..i] == formats;
    }
  }

  /** The loop over `options.targetFormats` (downloader.js:270-336). */
  method PlanAll(opts: DownloadOptions, libs: Libraries, scraped: Scraped) returns (r: PlanResult<Job>)
    ensures r == Plan(format => PlanFormat(opts, libs, scraped, format), opts.targetFormats)
  {
    ghost var plan := format => PlanFormat(opts, libs, scraped, format);
    var formats := opts.targetFormats;
    var emitters: seq<(string, Job)> := [];
    var started: seq<Job> := [];
    var i := 0;
    while i < |formats|
      invariant i <= |formats|
      invariant Plan(plan, formats[..i]) == Planned(emitters, started)
    {
      PlanStep(plan, formats, i);
      var outcome := PlanOne(opts, libs, scraped, formats[i]);
      assert plan(formats[i]) == outcome;
      if outcome.Throws? {
        PlanAbortedStays(plan, formats, i + 1);
        return Aborted(started);
      }
      if outcome.Starts? {
        emitters := Assign(emitters, formats[i], outcome.job);
        started := started + [outcome.job];
      }
      i := i + 1;
    }
    assert formats[..i] == formats;
    r := Planned(emitters, started);
  }

  /** The loop aborts exactly when some target format's body throws. */
  lemma {:induction false} PlanAborts<J>(plan: string -> Outcome<J>, formats: seq<string>)
    ensures Plan(plan, formats).Aborted? <==> exists k :: 0 <= k < |formats| && plan(formats[k]).Throws?
  {
    if formats != [] {
      var n := |formats| - 1;
      PlanAborts(plan, formats[..n]);
      assert forall k :: 0 <= k < n ==> formats[..n][k] == formats[k];
      if exists k :: 0 <= k < n && plan(formats[k]).Throws? {
        var k :| 0 <= k < n && plan(formats[k]).Throws?;
        assert plan(formats[..n][k]).Throws?;
      }
    }
  }

  /**
   * After a loop that did not throw, the emitter names are distinct, and a name is present
   * exactly when it is a target format whose body starts a download.
   */
  lemma {:induction false} PlanNames<J>(plan: string -> Outcome<J>, formats: seq<string>)
    requires Plan(plan, formats).Planned?
    ensures Distinct(Names(Plan(plan, formats).emitters))
    ensures forall name :: name in Names(Plan(plan, formats).emitters) <==> name in formats && plan(name).Starts?
  {
    if formats != [] {
      var n := |formats| - 1;
      PlanNames(plan, formats[..n]);
      assert formats == formats[..n] + [formats[n]];
      var before := Plan(plan, formats[..n]);
      if plan(formats[n]).Starts? {
        AssignFacts(before.emitters, formats[n], plan(formats[n]).job);
      }
    }
  }

  /** Each emitter holds the download its format's body starts. */
  lemma {:induction false} PlanJobs<J>(plan: string -> Outcome<J>, formats: seq<string>)
    requires Plan(plan, formats).Planned?
    ensures var r := Plan(plan, formats);
      forall k :: 0 <= k < |r.emitters| ==> plan(r.emitters[k].0) == Starts(r.emitters[k].1)
  {
    if formats != [] {
      var n := |formats| - 1;
      PlanJobs(plan, formats[..n]);
      PlanNames(plan, formats[..n]);
      var before := Plan(plan, formats[..n]);
      if plan(formats[n]).Starts? {
        AssignFacts(before.emitters, formats[n], plan(formats[n]).job);
      }
    }
  }

  /** The downloads held by the emitters, in order. */
  function JobsOf<J>(emitters: seq<(string, J)>): (r: seq<J>)
    ensures |r| == |emitters| && forall k :: 0 <= k < |r| ==> r[k] == emitters[k].1
  {
    if emitters == [] then [] else [emitters[0].1] + JobsOf(emitters[1..])
  }

  /** Every download started belongs to an emitter, and there are no more emitters than downloads. */
  lemma {:induction false} PlanStarted<J>(plan: string -> Outcome<J>, formats: seq<string>)
    requires Plan(plan, formats).Planned?
    ensures var r := Plan(plan, formats);
      (forall job :: job in r.started ==> job in JobsOf(r.emitters)) && |r.emitters| <= |r.started|
  {
    if formats != [] {
      var n := |formats| - 1;
      PlanStarted(plan, formats[..n]);
      var before := Plan(plan, formats[..n]);
      if plan(formats[n]).Starts? {
        PlanJobs(plan, formats[..n]);
        StartStep(plan, before.emitters, before.started, formats[n]);
      }
    }
  }

  /** `PlanStarted` across one format whose body starts a download. */
  lemma StartStep<J>(plan: string -> Outcome<J>, emitters: seq<(string, J)>, started: seq<J>, name: string)
    requires plan(name).Starts?
    requires forall k :: 0 <= k < |emitters| ==> plan(emitters[k].0) == Starts(emitters[k].1)
    requires forall job :: job in started ==> job in JobsOf(emitters)
    requires |emitters| <= |started|
    ensures var r := Assign(emitters, name, plan(name).job);
      (forall job :: job in started + [plan(name).job] ==> job in JobsOf(r)) && |r| <= |started| + 1
  {
    var job := plan(name).job;
    var r := Assign(emitters, name, job);
    var m := NameIndex(emitters, name);
    assert r[m] == (name, job);
    assert JobsOf(r)[m] == job;
    forall x | x in started + [job] ensures x in JobsOf(r) {
      if x != job {
        var k :| 0 <= k < |emitters| && JobsOf(emitters)[k] == x;
        assert plan(emitters[k].0) == Starts(emitters[k].1);
        KeptEntry(plan, emitters, name, k);
      }
    }
  }

  /** An emitter of another name keeps its download when `name` is assigned. */
  lemma KeptEntry<J>(plan: string -> Outcome<J>, emitters: seq<(string, J)>, name: string, k: nat)
    requires plan(name).Starts? && k < |emitters|
    requires plan(emitters[k].0) == Starts(emitters[k].1)
    requires emitters[k].1 != plan(name).job
    ensures emitters[k].1 in JobsOf(Assign(emitters, name, plan(name).job))
  {
    var r := Assign(emitters, name, plan(name).job);
    assert emitters[k].0 != name;
    assert r[k] == emitters[k];
    assert JobsOf(r)[k] == emitters[k].1;
  }

  /** A format listed twice starts two downloads but leaves one emitter. */
  lemma DuplicateStartsTwice<J>(plan: string -> Outcome<J>, format: string)
    requires plan(format).Starts?
    ensures Plan(plan, [format, format]) == Planned([(format, plan(format).job)], [plan(format).job, plan(format).job])
  {
    var job := plan(format).job;
    assert [format, format][..1] == [format];
    assert [format][..0] == [];
    assert Plan(plan, [format]) == Planned([(format, job)], [job]);
  }
}
