/**
 * The per-format `videoInfo` handed to user hooks, and options that are either a literal
 * value or a function of that `videoInfo` (downloader.js:299-321).
 */
module Options {
  import opened Selection

  /** `videoInfo` for one target format (downloader.js:299-307); scraped fields are plain string maps. */
  datatype VideoInfo = VideoInfo(
    videoId: string, description: string, targetFormat: string, extension: string,
    args: map<string, string>, schema: map<string, string>, sources: Sources)

  /** An option given either as a value or as a function of `videoInfo`. */
  datatype Setting<T> = Literal(value: T) | Computed(compute: VideoInfo -> T)

  /** `typeof(option) === 'string' ? option : option(videoInfo)` */
  function Resolve<T>(setting: Setting<T>, info: VideoInfo): T {
    match setting
    case Literal(v) => v
    case Computed(f) => f(info)
  }
}
