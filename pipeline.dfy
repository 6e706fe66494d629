/**
 * `process_video` from the configured model paths to the summary: the guards it checks in
 * order, the detection loop and the figures it reports.  The file system, the download,
 * the YAML parser and the video capture are inputs: which files exist, whether the
 * download produced a file, the parsed metadata, the detector's output per frame, and the
 * capture's frame count and frame rate.
 */
module Pipeline {
  import opened Common
  import opened Fetch
  import opened Metadata
  import opened Detection
  import opened Reporting

  /** The model paths `load_config` returns; `None` when nothing is configured. */
  datatype Config = Config(weightsPath: Option<string>, yamlPath: Option<string>)

  /** The message `process_video` ends with instead of results. */
  datatype RunError =
    | NotConfigured                 // "Admin harus mengonfigurasi model"
    | FilesMissing                  // "File model tidak ditemukan"
    | UrlRefused(FetchError)        // "URL tidak didukung"
    | DownloadFailed                // "Gagal mengunduh video"
    | BadMetadata(MetaError)        // the YAML has no usable `names`
    | Unreadable                    // "Video tidak dapat dibaca": 0 frames reported
    | LoopFailed(Error)             // an unknown class index, or 0 fps

  /** What a successful run leaves: the per-class tally and the summary built from it. */
  datatype Report = Report(tally: Tally, summary: Summary)

  /** Python's truthiness of an optional path: present and non-empty. */
  predicate Given(p: Option<string>)
  {
    p.Some? && p.value != ""
  }

  /** `all([video_url, weights_path, yaml_path])`: the first guard passes. */
  predicate Configured(url: string, config: Config)
  {
    url != "" && Given(config.weightsPath) && Given(config.yamlPath)
  }

  /** Both configured model files exist: the second guard passes. */
  predicate FilesPresent(config: Config, existing: set<string>)
  {
    && config.weightsPath.Some? && config.weightsPath.value in existing
    && config.yamlPath.Some? && config.yamlPath.value in existing
  }

  /**
   * The run's guards in the order `process_video` checks them: configuration, model files,
   * URL host, download, metadata, frame count.  Each error is reported exactly when its own
   * guard fails after every earlier one passed, and `None` exactly when all pass.
   */
  function Guard(url: string, config: Config, existing: set<string>, downloaded: bool, metadata: Node,
                 totalFrames: int): (g: Option<RunError>)
    ensures g == Some(NotConfigured) <==> !Configured(url, config)
    ensures g == Some(FilesMissing) <==> Configured(url, config) && !FilesPresent(config, existing)
    ensures (g.Some? && g.value.UrlRefused?) <==>
              Configured(url, config) && FilesPresent(config, existing) && Dispatch(url).Failure?
    ensures g.Some? && g.value.UrlRefused? ==> g.value == UrlRefused(Dispatch(url).error)
    ensures g == Some(DownloadFailed) <==>
              Configured(url, config) && FilesPresent(config, existing) && Dispatch(url).Success? && !downloaded
    ensures (g.Some? && g.value.BadMetadata?) <==>
              Configured(url, config) && FilesPresent(config, existing) && Dispatch(url).Success? && downloaded
              && LookupNames(metadata).Failure?
    ensures g.Some? && g.value.BadMetadata? ==> g.value == BadMetadata(LookupNames(metadata).error)
    ensures g == Some(Unreadable) <==>
              Configured(url, config) && FilesPresent(config, existing) && Dispatch(url).Success? && downloaded
              && LookupNames(metadata).Success? && totalFrames == 0
    ensures g == None <==>
              Configured(url, config) && FilesPresent(config, existing) && Dispatch(url).Success? && downloaded
              && LookupNames(metadata).Success? && totalFrames != 0
    ensures g.Some? ==> !g.value.LoopFailed?
  {
    if !Configured(url, config) then Some(NotConfigured)
    else if !FilesPresent(config, existing) then Some(FilesMissing)
    else if Dispatch(url).Failure? then Some(UrlRefused(Dispatch(url).error))
    else if !downloaded then Some(DownloadFailed)
    else if LookupNames(metadata).Failure? then Some(BadMetadata(LookupNames(metadata).error))
    else if totalFrames == 0 then Some(Unreadable)
    else None
  }

  /**
   * The whole run.  It fails exactly where a guard fails, or where the detection loop or the
   * duration division fails; otherwise the tally describes the detections of the frames read
   * with the labels from the metadata, and the summary is the one built from that tally.
   */
  method ProcessVideo(url: string, config: Config, existing: set<string>, downloaded: bool, metadata: Node,
                      frames: seq<seq<nat>>, totalFrames: int, fps: nat)
    returns (r: Result<Report, RunError>)
    ensures Guard(url, config, existing, downloaded, metadata, totalFrames).Some? ==>
              r == Failure(Guard(url, config, existing, downloaded, metadata, totalFrames).value)
    ensures Guard(url, config, existing, downloaded, metadata, totalFrames).None? ==>
              var names := LookupNames(metadata).value;
              var read := FramesRead(frames, totalFrames);
              && (r.Success? <==> AllKnown(read, names) && fps > 0)
              && (r.Failure? && fps > 0 ==> r.error == LoopFailed(UnknownClass))
              && (r.Failure? && AllKnown(read, names) ==> r.error == LoopFailed(ZeroFps))
              && (r.Failure? && fps == 0 ==>
                    (r.error == LoopFailed(UnknownClass) <==> FirstDetectionUnknown(read, names)))
              && (r.Success? ==> ByClass(r.value.tally, Events(read, names), fps)
                                 && r.value.summary == Summarize(r.value.tally, totalFrames, fps).value)
  {
    var guard := Guard(url, config, existing, downloaded, metadata, totalFrames);
    if guard.Some? {
      return Failure(guard.value);
    }
    var names := LookupNames(metadata).value;
    var tally := Aggregate(frames, totalFrames, names, fps);
    if tally.Failure? {
      return Failure(LoopFailed(tally.error));
    }
    var summary := Summarize(tally.value, totalFrames, fps);
    if summary.Failure? {
      return Failure(LoopFailed(summary.error));
    }
    return Success(Report(tally.value, summary.value));
  }
}
