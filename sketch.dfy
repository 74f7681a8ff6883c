/**
 * initiate_sketch: name the output files, snap the image to a standard
 * resolution, and turn the outcomes of drawing and transcoding into the
 * status/message result handed to the UI.
 */
module Sketch {
  import opened Wrappers
  import opened Resolution
  import opened Images
  import opened Hand
  import opened Video
  import opened Whiteboard

  /** The step that raised, standing in for the exception text after "Error: ". */
  datatype Failure = DirectoryNotCreated | ImageNotDecoded | DrawingFailed

  datatype Message = Path(path: string) | Error(reason: Failure)

  /** The `final_result` dictionary: `status` and `message`. */
  datatype SketchResult = SketchResult(status: bool, message: Message)

  /** The raw video's file name: AVI on android, MP4 elsewhere. */
  function VideoName(platform: string, date: string, time: string): (name: string)
    ensures |name| >= 4 && name[..|name| - 4] == "vid_" + date + "_" + time
    ensures name[|name| - 4..] == if platform == "android" then ".avi" else ".mp4"
  {
    "vid_" + date + "_" + time + (if platform == "android" then ".avi" else ".mp4")
  }

  /** The transcoded video's file name. */
  function H264Name(date: string, time: string): (name: string)
    ensures |name| >= 9 && name[..|name| - 9] == "vid_" + date + "_" + time
    ensures name[|name| - 9..] == "_h264.mp4"
  {
    "vid_" + date + "_" + time + "_h264.mp4"
  }

  /** The raw and the transcoded video never share a name, so removing the raw one keeps the other. */
  lemma NamesDiffer(platform: string, date: string, time: string)
    ensures VideoName(platform, date, time) != H264Name(date, time)
  {
    assert |VideoName(platform, date, time)| + 5 == |H264Name(date, time)|;
  }

  /** os.path.join for a relative file name. */
  function JoinPath(dir: string, name: string): (path: string)
    ensures |path| >= |name| && path[|path| - |name|..] == name
    ensures dir == [] || dir[|dir| - 1] == '/' ==> path == dir + name
    ensures dir != [] && dir[|dir| - 1] != '/' ==> path == dir + "/" + name
  {
    if dir == [] || dir[|dir| - 1] == '/' then dir + name else dir + "/" + name
  }

  /**
   * The settings the drawing runs with: the snapped resolution and the
   * request's parameters (`decoded` has a positive height here).
   */
  function SketchSettings(decoded: Dims, splitLen: nat, frameRate: int, objectSkipRate: int,
                          bgObjectSkipRate: int, mainImgDuration: int): (v: Settings)
    requires decoded.ht > 0
    ensures v.resizeHt in Table && v.resizeWd in Table
    ensures v.resizeHt % BackgroundSplitLen == 0 && v.resizeWd % BackgroundSplitLen == 0
    ensures v.frameRate == frameRate && v.splitLen == splitLen && v.endImgDurationInSec == mainImgDuration
    ensures v.objectSkipRate == objectSkipRate && v.bgObjectSkipRate == bgObjectSkipRate
  {
    var d := Snap(decoded.ht, decoded.wd);
    TableMultipleOf20(d.ht);
    TableMultipleOf20(d.wd);
    Settings(frameRate, d.wd, d.ht, splitLen, objectSkipRate, bgObjectSkipRate, mainImgDuration)
  }

  /**
   * The result initiate_sketch reports. `dirCreated`: os.makedirs succeeded;
   * `decoded`: the shape OpenCV read, if any; `drawn`: the drawing returned;
   * `transcoded`: ffmpeg_convert returned True; `unlinked`: removing the raw
   * video succeeded.
   */
  function SketchOutcome(savePath: string, platform: string, date: string, time: string, dirCreated: bool,
                          decoded: Option<Dims>, drawn: bool, transcoded: bool, unlinked: bool): (r: SketchResult)
    ensures r.status <==> dirCreated && decoded.Some? && decoded.value.ht > 0 && drawn
    ensures r.status <==> r.message.Path?
    ensures !dirCreated ==> r.message == Error(DirectoryNotCreated)
    ensures dirCreated && (decoded.None? || decoded.value.ht == 0) ==> r.message == Error(ImageNotDecoded)
    ensures r.status && transcoded && unlinked ==> r.message.path == JoinPath(savePath, H264Name(date, time))
    ensures r.status && !(transcoded && unlinked) ==> r.message.path == JoinPath(savePath, VideoName(platform, date, time))
  {
    if !dirCreated then SketchResult(false, Error(DirectoryNotCreated))
    else if decoded.None? || decoded.value.ht == 0 then SketchResult(false, Error(ImageNotDecoded))
    else if !drawn then SketchResult(false, Error(DrawingFailed))
    else if transcoded && unlinked then SketchResult(true, Path(JoinPath(savePath, H264Name(date, time))))
    else SketchResult(true, Path(JoinPath(savePath, VideoName(platform, date, time))))
  }

  /**
   * A reported path is always a video file in the save directory named after
   * the request's date and time; it is the transcoded one only when the
   * transcode succeeded.
   */
  lemma ReportedPathNamesVideo(savePath: string, platform: string, date: string, time: string, dirCreated: bool,
                               decoded: Option<Dims>, drawn: bool, transcoded: bool, unlinked: bool)
    ensures var r := SketchOutcome(savePath, platform, date, time, dirCreated, decoded, drawn, transcoded, unlinked);
      r.status ==>
        && (r.message.path == JoinPath(savePath, H264Name(date, time)) || r.message.path == JoinPath(savePath, VideoName(platform, date, time)))
        && (r.message.path == JoinPath(savePath, H264Name(date, time)) ==> transcoded)
  {
    NamesDiffer(platform, date, time);
    var r := SketchOutcome(savePath, platform, date, time, dirCreated, decoded, drawn, transcoded, unlinked);
    if r.status && !transcoded {
      var raw, h264 := VideoName(platform, date, time), H264Name(date, time);
      assert |JoinPath(savePath, h264)| == |JoinPath(savePath, raw)| + 5;
    }
  }

  /**
   * initiate_sketch without the UI callback. `img` and `thresh` are the
   * request image resized to the snapped resolution and its threshold image;
   * the hand sprite and mask are the bundled assets. The drawing runs without
   * annotations, as the request never supplies an annotation file. A zero
   * split length fails the drawing (the grid size divides by it).
   */
  method InitiateSketch(savePath: string, platform: string, date: string, time: string, dirCreated: bool,
                        decoded: Option<Dims>, img: Picture, thresh: Plane, handSprite: Picture, handMask: Plane,
                        splitLen: nat, frameRate: int, objectSkipRate: int, bgObjectSkipRate: int, mainImgDuration: int,
                        endColor: bool, transcoded: bool, unlinked: bool)
    returns (r: SketchResult, video: Option<VideoWriter>)
    requires SameShape(handSprite, handMask)
    requires decoded.Some? && decoded.value.ht > 0 && splitLen > 0 ==>
      WhiteboardShape(thresh, img, None, SketchSettings(decoded.value, splitLen, frameRate, objectSkipRate, bgObjectSkipRate, mainImgDuration))
    ensures r == SketchOutcome(savePath, platform, date, time, dirCreated, decoded, video.Some?, transcoded, unlinked)
    ensures video.Some? <==>
      && dirCreated && decoded.Some? && decoded.value.ht > 0 && splitLen > 0 && HasOnPixel(handMask)
      && Drawable(thresh, img, None, SketchSettings(decoded.value, splitLen, frameRate, objectSkipRate, bgObjectSkipRate, mainImgDuration))
    ensures video.Some? ==>
      var v := SketchSettings(decoded.value, splitLen, frameRate, objectSkipRate, bgObjectSkipRate, mainImgDuration);
      && video.value.path == JoinPath(savePath, VideoName(platform, date, time))
      && video.value.released
      && video.value.frames == Animation(thresh, img, PreprocessHand(handSprite, handMask), None, v, endColor)
  {
    var saveVideoPath := JoinPath(savePath, VideoName(platform, date, time));
    video := None;
    if dirCreated && decoded.Some? && decoded.value.ht > 0 && splitLen > 0 {
      var v := SketchSettings(decoded.value, splitLen, frameRate, objectSkipRate, bgObjectSkipRate, mainImgDuration);
      video := DrawWhiteboardAnimations(img, thresh, None, handSprite, handMask, saveVideoPath, platform, v, endColor);
    }
    r := SketchOutcome(savePath, platform, date, time, dirCreated, decoded, video.Some?, transcoded, unlinked);
  }
}
