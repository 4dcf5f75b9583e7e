/** `renderTextOverlay` (index.js:66-135): the overlay loop that writes one
    caption file per overlay and builds the filter chain, and the
    `try`/`finally` around download, processing and upload. The download,
    the external processor and the upload are not modelled as code: what
    they leave behind and whether they fail is given as a `Fault`. */
module Render {
  import opened Text
  import opened Styles
  import opened Escaping
  import opened Workspace
  import opened Wrapping
  import opened FilterGraph

  /** The width every caption is wrapped to (index.js:86). */
  const CaptionWidth := 25

  /** What the caption file of an overlay holds: its text without brackets,
      wrapped at 25 characters. */
  function CaptionText(overlay: Overlay): string
  {
    Join(WrappedLines(StripBrackets(overlay.text), CaptionWidth), '\n')
  }

  /** The caption file contents of all overlays, in order. */
  function CaptionTexts(overlays: seq<Overlay>): (texts: seq<string>)
    ensures |texts| == |overlays|
  {
    seq(|overlays|, i requires 0 <= i < |overlays| => CaptionText(overlays[i]))
  }

  /** `after` is `before` with the first `n` caption files written: caption
      file `i` holds `texts[i]`, and every other path is as it was. */
  predicate CaptionsWritten(before: map<string, string>, after: map<string, string>, runId: nat, texts: seq<string>, n: nat)
    requires n <= |texts|
  {
    && after.Keys == before.Keys + CaptionPaths(runId, n)
    && (forall i :: 0 <= i < n ==> CaptionPath(runId, i) in after && after[CaptionPath(runId, i)] == texts[i])
    && (forall p :: p in before && p !in CaptionPaths(runId, n) ==> after[p] == before[p])
  }

  /** The `overlays.forEach` loop (index.js:79-117): for each overlay, the
      caption is cleaned, wrapped and written to its own file, and a
      drawtext stage reading the previous label is appended. The result is
      the chain of all stages and the label of the last one, and the file
      system has gained exactly the caption files. */
  method BuildFilterGraph(fs: FileSystem, fontPath: string, runId: nat, style: Style, overlays: seq<Overlay>)
    returns (filterChain: string, lastLabel: string)
    modifies fs
    ensures filterChain == FilterChain(fontPath, runId, style, overlays)
    ensures lastLabel == FinalLabel(|overlays|)
    ensures CaptionsWritten(old(fs.files), fs.files, runId, CaptionTexts(overlays), |overlays|)
  {
    ghost var texts := CaptionTexts(overlays);
    var filterParts: seq<string> := [];
    lastLabel := BaseVideo;
    for index := 0 to |overlays|
      invariant filterParts == Stages(fontPath, runId, style, overlays[..index])
      invariant lastLabel == FinalLabel(index)
      invariant CaptionsWritten(old(fs.files), fs.files, runId, texts, index)
    {
      var overlay := overlays[index];
      var inputLabel := InputLabel(index);
      var outputLabel := OutputLabel(index);
      var cleanText := StripBrackets(overlay.text);
      var wrappedText := WrapText(cleanText, CaptionWidth);
      var textFile := CaptionPath(runId, index);
      ghost var before := fs.files;
      fs.WriteFile(textFile, wrappedText);
      CaptionWritten(old(fs.files), before, runId, texts, index);

      var escapedFontPath := EscapePath(fontPath);
      var escapedTextFile := EscapePath(textFile);
      var options := BuildDrawTextOptions(escapedFontPath, escapedTextFile, style, overlay);
      StageParts(fontPath, runId, style, overlay, index, options);
      filterParts := filterParts + [inputLabel + "drawtext=" + Join(options, ':') + outputLabel];
      StagesSnoc(fontPath, runId, style, overlays, index);
      lastLabel := outputLabel;
    }
    assert overlays[..|overlays|] == overlays;
    filterChain := Join(filterParts, ';');
  }

  /** Writing the caption of overlay `n` extends what has been written. */
  lemma CaptionWritten(original: map<string, string>, before: map<string, string>, runId: nat, texts: seq<string>, n: nat)
    requires n < |texts|
    requires CaptionsWritten(original, before, runId, texts, n)
    ensures CaptionsWritten(original, before[CaptionPath(runId, n) := texts[n]], runId, texts, n + 1)
  {
    var path := CaptionPath(runId, n);
    var after := before[path := texts[n]];
    assert CaptionPaths(runId, n + 1) == CaptionPaths(runId, n) + {path};
    forall i | 0 <= i < n ensures CaptionPath(runId, i) in after && after[CaptionPath(runId, i)] == texts[i] {
      CaptionPathInjective(runId, i, n);
    }
  }

  /** What goes wrong in a run, if anything. The download and the processor
      may leave a partial file behind when they fail; the upload only reads. */
  datatype Fault =
    | NoFault
    | DownloadFault(leftBehind: bool)
    | ProcessFault(leftBehind: bool)
    | UploadFault

  /** The result of `renderTextOverlay`: the public address of the upload, or
      the fault that was thrown. */
  datatype Outcome = Published(url: string) | Failed(fault: Fault)

  const DefaultBucket := "ssm-renders-8822"

  /** `process.env.GCS_BUCKET_NAME || 'ssm-renders-8822'`, with an unset
      variable given as the empty string. */
  function BucketName(configured: string): string
  {
    if configured != "" then configured else DefaultBucket
  }

  /** The public address of an uploaded object (index.js:126). */
  function PublicUrl(bucket: string, fileName: string): string
  {
    "https://storage.googleapis.com/" + bucket + "/" + fileName
  }

  /** `renderTextOverlay(fileName, videoUrl, overlays)` (index.js:66-135).
      The random draw, the clock, the configured bucket, the bytes the
      download and the processor produce and the fault that interrupts the
      run are parameters. Whatever happens, the `finally` block leaves the
      file system as it was with every temporary path of the run removed.
      When the download succeeds, the processor is called with the argument
      list of index.js:118 for the drawn style, at a moment (`seen`) when
      the input video and every caption file are in place with their
      contents. */
  method RenderTextOverlay(fs: FileSystem, fileName: string, overlays: seq<Overlay>, r: real, runId: nat,
                           fontPath: string, bucket: string, video: string, rendered: string, fault: Fault)
    returns (outcome: Outcome, args: seq<string>, seen: map<string, string>)
    requires 0.0 <= r < 1.0
    modifies fs
    ensures fs.files == old(fs.files) - TempPaths(runId, fileName, |overlays|)
    ensures outcome == if fault == NoFault then Published(PublicUrl(BucketName(bucket), fileName)) else Failed(fault)
    ensures fault.DownloadFault? ==> args == [] && seen == map[]
    ensures !fault.DownloadFault? ==>
              && args == FfmpegArgs(VideoPath(runId), FilterChain(fontPath, runId, PickStyle(r), overlays),
                                    FinalLabel(|overlays|), OutputPath(fileName))
              && VideoPath(runId) in seen && seen[VideoPath(runId)] == video
              && forall i :: 0 <= i < |overlays| ==>
                   CaptionPath(runId, i) in seen && seen[CaptionPath(runId, i)] == CaptionText(overlays[i])
  {
    var videoFile := VideoPath(runId);
    var outputFile := OutputPath(fileName);
    var style := PickStyle(r);
    ghost var temp := TempPaths(runId, fileName, |overlays|);
    args := [];
    seen := map[];
    if fault.DownloadFault? {
      if fault.leftBehind {
        fs.WriteFile(videoFile, video);
      }
      outcome := Failed(fault);
    } else {
      fs.WriteFile(videoFile, video);
      ghost var downloaded := fs.files;
      var filterChain, lastLabel := BuildFilterGraph(fs, fontPath, runId, style, overlays);
      forall i | 0 <= i < |overlays| ensures CaptionPath(runId, i) != videoFile {
        VideoIsNoCaption(runId, i);
      }
      assert SameOutside(downloaded, fs.files, temp);
      args := FfmpegArgs(videoFile, filterChain, lastLabel, outputFile);
      seen := fs.files;
      if fault.ProcessFault? {
        if fault.leftBehind {
          fs.WriteFile(outputFile, rendered);
        }
        outcome := Failed(fault);
      } else {
        fs.WriteFile(outputFile, rendered);
        if fault.UploadFault? {
          outcome := Failed(fault);
        } else {
          outcome := Published(PublicUrl(BucketName(bucket), fileName));
        }
      }
    }
    assert SameOutside(old(fs.files), fs.files, temp);
    RemoveOutside(old(fs.files), fs.files, temp);
    Cleanup(fs, runId, fileName, |overlays|);
  }
}
