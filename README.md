# youtube-hqdl core in Dafny

This project models the logic of youtube-hqdl that can be stated and proved, with the network, pipe and process plumbing left out. The tool picks the best audio and video stream of a YouTube video for each target container (mp4, webm). It relays the two streams through local named pipes into `ffmpeg -c copy`, and reports progress by parsing ffmpeg's diagnostic output.

The modules follow the two source files:

| module | models |
|---|---|
| `Wrappers` | `Option` |
| `JsText` | the JavaScript built-ins the code leans on: `\d`, `\w`, `\s`, case-insensitive ASCII matching, `indexOf`, `parseInt`, `parseFloat` |
| `SizeTime` | `parseSize` with `getK`, and `parseTime` (downloader.js:101-117) |
| `ProgressParse` | the stderr handler: duration capture, the `frame=` tokeniser, the `rawInfo` loop, the `info` object, `progress`; the class `ProgressParser` with the two retained fields `duration` and `getDurMode` and a `Feed` method per chunk |
| `ProgressScenarios` | sample runs of the handler: max-wins capture, `Duration: N/A`, and a duration of 10 s with a `time=00:00:05.00` line giving progress one half |
| `Options` | the per-format `videoInfo` and literal-or-function options |
| `MuxArgs` | the `-metadata` loop, the ffmpeg argument list and the pipe path name |
| `Catalog` | splitting `adaptive_fmts`, the MIME `type` pattern and the `fmts[format][type]` grouping loop |
| `Selection` | the per-track "best so far" loop with `formatFilter` and `compareSource` and their defaults |
| `Jobs` | the trailing-dot step of `sanitize`, option resolution, the per-format job and the loop over `targetFormats` that fills `emitters` |
| `Cli` | index.js: video-id and URL recognition, the command-line outcome, the format switch, the progress-bar string and the row/column layout loop |

State that the source changes step by step is modelled imperatively:
- `ProgressParser.Feed` updates the parser's fields.
- `BuildRawInfo`, `BuildMetadataArgs`, `GroupCatalog`, `SelectTrack`, `PickSources`, `PlanAll` and `Layout` are methods with loops.

Each of these is proved equal to a specification function. The properties the source promises are then proved about that function.

Where the code and a plain reading of its intent differ, the model follows the code:
- **`getK` never scales.** `parseSize` hands `getK` the array that `str.match(/[a-z]/i)` returns, or `null`, and `getK` compares with `===` against one-letter strings, which never holds. A sized value is therefore its leading number, divided by 8 when the text mentions `bit` in any case: `100kB` is 100 and `160.0kbits/s` is 20. `SizeTime.GetKOfLetter` proves what `getK` would give a letter; `SizeTime.GetKOfNonString` and `SizeTime.ParseSizeIgnoresUnit` prove what it gives as called.
- **A track with no surviving candidate does not skip the container.** Its source stays `{}` and the download still starts, with no URL (`Jobs.NoSurvivorStillStarts`). Only a format missing from the catalog is skipped.
- **A `frame=` line without `time`, `bitrate` or the chosen size key throws.** So does a `time` without a timestamp. The handler does not tolerate these by leaving a field undefined. This is the `Threw` outcome of `ProgressParse.ChunkUpdate`.
- **The line cut.** `replace(/[\r\n]+[\s\S]+/g, '')` cuts at the first CR or LF that has at least one character after it, whatever follows.

JavaScript values are modelled explicitly:
- NaN and `undefined` numbers are `None`.
- A thrown exception is an explicit outcome (`Threw`, `Throws`, `Crash`, or `None` for a catalog that cannot be grouped).
- `time / duration` is a `Progress` that can be a ratio, NaN or ±Infinity.
- Numbers are exact reals, and `Math.round` is `floor(x + 0.5)`.
- A regular expression's `i` flag is ASCII case folding.
- `(?:.+&)?` backtracks from the longest run of non-line-terminators, so the last `&v=` that is followed by an id wins.

## Model

| member | source | states |
|---|---|---|
| SizeTime.GetKOfLetter | downloader.js:102-109 | a one-letter unit `b,k,m,g,t,p` at table index i scales by 1000^i in lower case and by 1024^i in upper case |
| SizeTime.GetKOfNonString | downloader.js:102-110 | handed the match array or `null`, as `parseSize` calls it, `getK` returns 1 |
| SizeTime.ParseSizeIgnoresUnit | downloader.js:110-112 | `parseSize` is a number exactly when `parseFloat` is, and then equals the leading number divided by 8 if the text contains `bit` in any case, else by 1 |
| SizeTime.ParseSizeKiloBytes | downloader.js:101-112 | `100kB` reads as 100 |
| SizeTime.ParseSizeKiloBits | downloader.js:101-112 | `160.0kbits/s` reads as 20 |
| SizeTime.FirstTimestamp | downloader.js:115 | the match found is a `DD:DD:DD.D` timestamp and no earlier index starts one; none is found only when no index starts one |
| SizeTime.TimestampLength | downloader.js:115 | the greedy `\d{1,2}` makes the match 10 or 11 characters long, within the text |
| SizeTime.ParseTime | downloader.js:114-117 | `parseTime` yields a value exactly when a timestamp matches, and the value is hours·3600 + minutes·60 + seconds + fraction of the leftmost match |
| SizeTime.ParseTimeExample | downloader.js:114-117 | `01:02:03.50` is 3723.5 seconds |
| SizeTime.ParseTimeOfMatch | downloader.js:124-127 | re-parsing the matched timestamp text on its own gives the same value |
| ProgressParse.FirstLineBreak | downloader.js:133 | the index found is a CR or LF with none before it; no index is found only when the text has no CR or LF |
| ProgressParse.CutAtLineBreak | downloader.js:133 | the result is a prefix; when shorter, it ends at a CR/LF that has at least one character after it and no line break precedes it; when not shorter, no line break precedes the last character |
| ProgressParse.SplitFrom | downloader.js:133 | splitting yields at least one token and no token holds `=` or white space |
| ProgressParse.SplitKeepsText | downloader.js:133 | the tokens concatenated are the text with every separator character removed |
| ProgressParse.SplitInterleave | downloader.js:133 | non-empty clean fields joined by `=`/space separators split back into exactly those fields, and the joined line has no line break to cut |
| ProgressParse.SplitStep | downloader.js:133 | a field, a separator and a text starting with a non-separator split as the field followed by the text's tokens |
| ProgressParse.BuildRawInfo | downloader.js:134-137 | the pairing loop builds the `rawInfo` dictionary of the token list |
| ProgressParse.RawInfoKeys | downloader.js:134-137 | the keys of `rawInfo` are exactly the tokens at even positions |
| ProgressParse.RawInfoLastWins | downloader.js:134-137 | each key maps to the token after its last occurrence (`undefined` past the end): a later duplicate key overwrites an earlier one |
| ProgressParse.InfoOf | downloader.js:139-148 | `info` exists exactly when `time` has a timestamp and `bitrate` and the size key are present; `time` is the timestamp's value; `size` is recorded exactly when `rawInfo.size` is a non-empty string, otherwise `Lsize`, each the `parseSize` of its text; `bitrate` is the `parseSize` of its text; `frame` is the `parseInt` and `fps`, `q` and `speed` the `parseFloat` of theirs |
| ProgressParse.Divide | downloader.js:151 | with no duration the progress is NaN; with a non-zero duration it is the ratio; with duration 0 it is NaN exactly when the time is 0 |
| ProgressParse.ChunkUpdate | downloader.js:131-157 | a chunk produces no update exactly when it does not start with `frame=`; an update carries the chunk as `rawData`, `progress = time / duration`, and `info` built from its `rawInfo`, which is the pairing of the cut line's tokens; a `frame=` line throws exactly when that `info` cannot be built |
| ProgressParse.Capture | downloader.js:120-130 | a known duration stays known and never decreases; the state stays armed exactly when armed or `Duration:` is seen and no timestamp is in the chunk; the duration changes only to a larger value read from the chunk's first timestamp while armed, and is the max-wins value whenever one is read |
| ProgressParse.DurationNeverDecreases | downloader.js:120-130 | over any sequence of chunks a known duration stays known and never decreases |
| ProgressParse.ProgressParser.constructor | downloader.js:97-98 | the handler starts with no duration (NaN) and capture disarmed |
| ProgressParse.ProgressParser.Feed | downloader.js:99-158 | one chunk moves the two fields as `Capture` says, then yields the update of `ChunkUpdate` with the duration after capture |
| ProgressScenarios.DurationChunk | downloader.js:120-124 | a `Duration: ` chunk arms capture and its first timestamp starts at index 10 with the timestamp's value |
| ProgressScenarios.CaptureDuration | downloader.js:120-129 | arming and capture happen in the same chunk: the state ends disarmed with the max-wins duration |
| ProgressScenarios.DurationMaxWins | downloader.js:120-129 | three `Duration:` chunks leave the largest of the three durations |
| ProgressScenarios.DurationNotAvailable | downloader.js:120-130 | `Duration: N/A` arms capture and leaves the duration unknown |
| ProgressScenarios.ArmedTakesNextTimestamp | downloader.js:123-129 | while armed with no duration, chunks without a timestamp keep waiting and the next chunk with one sets the duration and disarms |
| ProgressScenarios.CaptureQuiet | downloader.js:120-123 | a chunk without `Duration:` leaves a disarmed state unchanged |
| ProgressScenarios.SecondsTimestamp | downloader.js:114-117 | `00:00:10.00` is 10 seconds and `00:00:05.00` is 5 |
| ProgressScenarios.ExampleLine | downloader.js:131-133 | the line `frame=  5 fps=25 q=0.0 size=100kB time=00:00:05.00 bitrate=160.0kbits/s speed=1.0x` is a progress line, splits into its 14 tokens and does not contain `Duration:` |
| ProgressScenarios.PairLookup | downloader.js:134-137 | a pair whose key does not come again later keeps its value in `rawInfo` |
| ProgressScenarios.ExampleRawInfo | downloader.js:134-137 | for the example's tokens, `rawInfo` maps `time`, `bitrate` and `size` to `00:00:05.00`, `160.0kbits/s` and `100kB` |
| ProgressScenarios.ExampleInfo | downloader.js:139-148 | for the example's tokens, `info` has time 5, bitrate 20 and `size` 100 (recorded as `size`, not `Lsize`) |
| ProgressScenarios.ExampleCapture | downloader.js:120-130 | `Duration: 00:00:10.00` followed by a chunk without `Duration:` leaves a duration of 10 seconds, disarmed |
| ProgressScenarios.HalfwayProgress | downloader.js:120-157 | after `Duration: 00:00:10.00`, a progress line with the example's tokens yields an update with progress 0.5, time 5, bitrate 20 and size 100 |
| MuxArgs.EntryArgs | downloader.js:65-72 | each metadata entry, in order, contributes exactly `-metadata` followed by `"key"="value"`, the value resolved as text or as a function of `videoInfo` |
| MuxArgs.BuildMetadataArgs | downloader.js:65-72 | the loop builds exactly those arguments, and none when there is no metadata option |
| MuxArgs.ParseMetaTokenRoundTrip | downloader.js:70 | a token whose key has no quote reads back as its key and value |
| MuxArgs.MetaTokenAmbiguous | downloader.js:70 | without escaping, two different keys can give the same token |
| MuxArgs.FfmpegArgs | downloader.js:74-95 | the list is `-i audio -i video -c copy`, then the additional options, then the metadata arguments, then the output path; its length is 7 plus the two variable parts |
| MuxArgs.FfmpegArgsParts | downloader.js:74-95 | the list determines the two pipes, the additional options, the metadata arguments and the output path |
| MuxArgs.DecimalTextValue | downloader.js:43 | `Date.now()` written in decimal reads back as the number |
| MuxArgs.PipeNameInjective | downloader.js:43 | two pipe names agree only when the clock readings and the random digits agree |
| MuxArgs.PipePathInjective | downloader.js:42-45 | on one platform, two pipe paths agree only when the clock readings and the random digits agree |
| Catalog.FirstIndexOf | downloader.js:257 | the index is that of the first comma, or the length when there is none |
| Catalog.SplitOn | downloader.js:257 | `split(',')` yields at least one piece and no piece holds a comma |
| Catalog.JoinSplit | downloader.js:257 | joining the pieces with commas gives the text back |
| Catalog.SplitJoin | downloader.js:257 | splitting comma-joined comma-free pieces gives the pieces back |
| Catalog.ParseMime | downloader.js:259 | a parsed MIME type has word-character track type and format and, when present, a non-empty codec free of quotes |
| Catalog.ParseMimeText | downloader.js:259-262 | parsing `type/format; codecs="codec"` (codec optional) of a well-formed value gives the value back |
| Catalog.CodecGroupText | downloader.js:259 | the optional group reads the codec from `; codecs="codec"` at the end of the text |
| Catalog.EntryOfText | downloader.js:258-266 | a piece whose `type` is the text of a well-formed MIME value is classified into that value's format and track type, with the object and its codec as the source |
| Catalog.EntriesOfAll | downloader.js:257-268 | the entries exist exactly when every piece classifies, and are the pieces' entries in order |
| Catalog.NoEntryStops | downloader.js:257-262 | one piece that does not classify makes the whole grouping throw |
| Catalog.GroupBuckets | downloader.js:263-268 | every bucket `fmts[format][type]` is the in-order list of the sources with that format and track type |
| Catalog.GroupKeys | downloader.js:263-268 | a format, and a track type under it, is a key exactly when some entry carries it |
| Catalog.ClassifyPiece | downloader.js:259-266 | the MIME parse and the added codec give the piece's entry |
| Catalog.Push | downloader.js:263-268 | the missing levels are created and the source is appended to its bucket |
| Catalog.GroupCatalog | downloader.js:255-269 | the grouping loop yields the grouped catalog of the pieces, or throws as `EntriesOf` says |
| Selection.SelectTrack | downloader.js:279-296 | the loop leaves the choice of `Select` over the candidates in catalog order |
| Selection.SelectSurvivor | downloader.js:280-295 | the choice is `{}` when nothing survives the filter and otherwise one of the surviving candidates |
| Selection.DefaultPicksEarliestMaximum | downloader.js:246-296 | with the strict `<` comparator, the choice is a survivor of maximal `parseInt(bitrate)`, and no earlier survivor ties with it |
| Selection.ChoiceWithoutUrlIsLast | downloader.js:293-295 | a choice without a URL is `{}` or the last survivor |
| Selection.DefaultSkipsVorbis | downloader.js:240-245 | among Vorbis and Opus WebM audio the default hooks take Opus |
| Selection.SourcesFor | downloader.js:277-297 | both tracks are chosen exactly when the format has an audio list and a video list, and then they are the `Select` of each list |
| Selection.PickSources | downloader.js:277-297 | the audio-then-video loop gives the two choices of `SourcesFor` |
| Jobs.TrimTrailingDots | downloader.js:23 | the result is a prefix not ending in `.`, and only dots were removed |
| Jobs.TrimTrailingDotsUnique | downloader.js:23 | any prefix with those properties is the trimmed text |
| Jobs.TrimTrailingDotsIdempotent | downloader.js:23 | trimming twice is trimming once |
| Jobs.Sanitize | downloader.js:18-25 | with no replacement, the library's result with its trailing dots removed; with a replacement free of `$` that does not end in `.`, no trailing dot |
| Jobs.SubstitutionLiteral | downloader.js:23 | a replacement without `$` is inserted as it is |
| Jobs.MatchPatternKeepsDot | downloader.js:23 | the replacement `$&` inserts the matched dot again, so the name keeps its final dot |
| Jobs.SanitizeNoTrailingDot | downloader.js:18-25 | the file name as the downloader sanitizes it never ends in `.` and is a prefix of the library's result |
| Jobs.ResolveAdditional | downloader.js:313-316 | the additional options are absent exactly when there is no option or the table lacks the format, and otherwise the table's entry for the format or the function's result on `videoInfo` |
| Jobs.ResolveMeta | downloader.js:318-321 | the metadata is absent exactly when there is no option, and otherwise the fixed entries or the function's result on `videoInfo` |
| Jobs.JobFor | downloader.js:298-335 | the job carries the format as target format and extension, the chosen sources and their URLs, and the output path `join(dir, sanitize(fileName))` with both resolved for this format's `videoInfo`; its metadata and additional options are resolved for that same `videoInfo` |
| Jobs.PlanFormat | downloader.js:273-335 | a format is skipped exactly when the catalog lacks it, throws exactly when it lacks an audio or video list, and otherwise starts the job of `JobFor` |
| Jobs.PlanOne | downloader.js:273-335 | the loop body gives the outcome of `PlanFormat` |
| Jobs.NoSurvivorStillStarts | downloader.js:277-327 | when no audio candidate survives, the job still starts, with no audio URL |
| Jobs.JobArgs | downloader.js:74-95 | a job's ffmpeg list has length 7 + additional + 2·metadata entries, the two pipes at positions 1 and 3 and the output path last |
| Jobs.DefaultMp4Faststart | downloader.js:222-226 | with the default additional options, the job the mp4 step starts passes `-movflags faststart` right after `-c copy` |
| Jobs.AssignFacts | downloader.js:323 | `emitters[format] = ...` keeps the names distinct, appends a new name and replaces the job of an existing one |
| Jobs.PlanStep | downloader.js:272-336 | one more target format: an earlier throw stays, an absent format changes nothing, a throw aborts, a start records the emitter and the started job |
| Jobs.PlanAll | downloader.js:271-336 | the loop over `targetFormats` gives the result of `Plan` |
| Jobs.PlanAborts | downloader.js:272-336 | the loop throws exactly when some target format throws |
| Jobs.PlanNames | downloader.js:271-336 | the emitter names are distinct and are exactly the target formats that start |
| Jobs.PlanJobs | downloader.js:271-336 | each emitter holds the job its format starts |
| Jobs.PlanStarted | downloader.js:271-336 | every started job is held by an emitter, and there are no more emitters than started downloads |
| Jobs.DuplicateStartsTwice | downloader.js:272-336 | a format listed twice starts two downloads and keeps one emitter |
| Cli.IdAtReadsId | index.js:20-21 | an id of eleven `[\w-]` characters is read back at its position whatever text surrounds it |
| Cli.AmpSearch | index.js:21 | an id found after `watch?…&` follows an `&v=` in the searched range |
| Cli.LastAmp | index.js:21 | the position of the last `&v=<id>` in the range: nothing of the kind lies after it, and there is none in the range when it is absent |
| Cli.AmpSearchIsLast | index.js:21 | the backtracking `.+&` yields exactly the id after the last `&v=<id>`, and nothing when there is none |
| Cli.AmpSearchLast | index.js:21 | an id is found exactly when some `&v=<id>` lies in the range, and it is the id after the last one |
| Cli.AmpSearchAt | index.js:21 | when the last `&v=<id>` of the range is at `p`, the id after it is the one found |
| Cli.WatchIdFirst | index.js:21 | `v=<id>` right after `watch?` with no `&v=<id>` later yields that id |
| Cli.WatchIdLast | index.js:21 | with an `&v=<id>` on the line after `watch?`, the last one's id is captured |
| Cli.SchemeDecides | index.js:21 | each scheme form `https://`, `http://`, `ttps://`, `ttp://`, `://`, `//` or none, followed by a host the host part accepts, gives the host part's id |
| Cli.MobileHost | index.js:21 | after `m.youtube.com/` the path is matched |
| Cli.HostDecides | index.js:21 | after each of `www.youtube.com/`, `m.youtube.com/` and `youtube.com/` the path is matched |
| Cli.PathDecides | index.js:21 | after each of `v/`, `embed/` and `e/` the id is read directly |
| Cli.UrlRecognised | index.js:21-25 | any scheme form, then `youtu.be/`, or a `youtube.com` host with `v/`, `embed/` or `e/`, then an id: the id is captured, whatever follows |
| Cli.WatchRecognised | index.js:21-25 | any scheme form and `youtube.com` host followed by `watch?`: the match is what the query part yields |
| Cli.WatchFirstParameter | index.js:21-25 | `watch?v=<id>` behind any scheme form and `youtube.com` host, with no `&v=<id>` after it: the id is captured |
| Cli.WatchLastParameter | index.js:21-25 | behind any scheme form and `youtube.com` host, the id after the last `&v=<id>` on the line after `watch?` is captured |
| Cli.MatchYtUrlIsId | index.js:21-25 | whatever the URL pattern captures is a video id |
| Cli.NoScheme | index.js:21 | a target starting with `y` is matched from its host |
| Cli.HttpsScheme | index.js:21 | after `https://` the host is matched from index 8 |
| Cli.WwwHost | index.js:21 | after `www.youtube.com/` the path is matched |
| Cli.BareHost | index.js:21 | after `youtube.com/` the path is matched |
| Cli.WatchPath | index.js:21 | after `watch?` the query is matched |
| Cli.ShortUrl | index.js:21-25 | `https://youtu.be/<id>...` yields the id |
| Cli.WatchUrl | index.js:21-25 | `https://www.youtube.com/watch?v=<id>...` yields the id |
| Cli.LastParameterWins | index.js:21-25 | in `youtube.com/watch?v=<a>&v=<b>` the backtracking `.+&` makes the second id win |
| Cli.TargetFormats | index.js:38-56 | the switch accepts exactly `mp4`, `webm` and `both`, giving `[mp4]`, `[webm]` and `[mp4, webm]`, never a format twice |
| Cli.CommandLine | index.js:13-56 | no target crashes; an unrecognised target exits 1; a bad format (default `both`) exits 2; a recognised target with a good format always starts, carrying the video id (the target itself when it is one, else the id the URL pattern captures), the output directory (default the working directory) and the switch's format list; exit 10 never happens |
| Cli.RegexErrorUnreachable | index.js:31-36 | the exit-10 re-check cannot fire on an id the URL pattern captured |
| Cli.Round | index.js:9 | `Math.round` gives the integer within half of x, halves going up |
| Cli.Bar | index.js:7-11 | the bar is 72 characters: `[`, then `#` exactly in the first `size` cells and spaces after them, then `]` |
| Cli.ProgressBar | index.js:7-11 | the bar exists exactly for NaN (`[]`) or a progress rounding into 0..70, and then is the bar of `round(70·progress)` |
| Cli.BarShape | index.js:7-11 | for progress in [0, 1] the bar is 72 characters and no `#` follows a space |
| Cli.BarMonotone | index.js:7-11 | more progress never removes a `#` |
| Cli.MaxLength | index.js:76-77 | the longest name's length: no name is longer and some name attains it |
| Cli.Layout | index.js:73-81 | emitters get rows 0, 1, 2, ... in iteration order, `y` ends as their number, `x` is one more than the longest name, and each row offset `idToY[i] - y` lies in [-y, -1] |

## Left out

- Network and page scraping (`fetch`, `fetchInfo`, cheerio, `vm.runInNewContext`) are not modelled. The catalog string, the scraped `args`, `schema` and `description` are parameters.
- The relay pipes (`net.createServer`, `https.get`, `res.pipe`), `spawn` and the `close` handler are not modelled. They are I/O, event delivery and concurrency; only the argument list and the per-chunk parser step are modelled.
- `generatePipePath` is a pure function of the clock reading, the random number's text and the platform. `Date.now`, `Math.random` and its number-to-text conversion are parameters.
- `sanitize-filename`, `querystring.parse` and `path.join` are parameters (`Libraries.sanitizeFileName`, `decode`, `Libraries.join`). Only the trailing-dot step of `sanitize` is modelled, so path normalisation and the library's own rules are not captured.
- `extend` is not modelled. `DownloadOptions` holds the options after the defaults are merged in.
- The default `metaData` and `outputFileName` closures only read scraped data. They are representable as `Computed` settings but are not written out.
- `Options.Resolve`: the literal-or-function rule has no contract of its own. Its results are stated through `MuxArgs.EntryArgs`, `Jobs.JobFor` and `Jobs.ResolveAdditional`.
- Exceptions thrown by user hooks, their side effects, and an option function returning `null` or a non-array are not modelled. A function-valued `additionalOptions` or `metaData` always yields a value.
- IEEE-754 doubles are not modelled: numbers are exact reals, so `parseFloat` rounding, `Math.pow` and division rounding, and the `Infinity` literal accepted by `parseFloat` are not captured.
- Enumeration order of object keys is taken to be insertion order. JavaScript lists integer-like keys first, which matters only for integer-like format names or metadata keys. `__proto__` and other prototype keys are not modelled.
- Terminal output in index.js (`console`, `process.stdout` cursor movement) and the exit-11 path after a failed download are not modelled. Exits are result codes.
- Cli.AmpSearch: its own contract states only that a found id follows an `&v=` in the range. That an `&v=<id>` present is found, and that the last one wins, is stated by Cli.AmpSearchLast.
- Cli.Layout: requires the emitter names to be distinct, which holds because they are the keys of one object.
- Selection.DefaultPicksEarliestMaximum: states the maximum only when every survivor has a URL and a numeric bitrate. Survivors with a NaN bitrate are covered only by `SelectSurvivor` and `ChoiceWithoutUrlIsLast`.
- ProgressScenarios.HalfwayProgress: stated for any progress line whose tokens are the example's. `ExampleLine` and `ExampleFieldsTokens` show that the concrete example line is one.
- Jobs.Sanitize: for a non-empty replacement it states the absence of a trailing dot only when the replacement holds no `$` and does not end in `.`. A `$` pattern can put the dot back (`Jobs.MatchPatternKeepsDot`). `$n` and `$<` are kept literally, as the pattern has no groups. The downloader always calls `sanitize` without a replacement.
- Cli.ProgressBar: `repeat` with a negative count throws, which is modelled as no bar. The character output itself is not modelled.
