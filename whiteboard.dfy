/**
 * draw_whiteboard_animations: prepare the hand, open the writer, start from a
 * white canvas, run one pass per annotated object and a final background
 * pass (or a single unmasked pass without annotations), hold the end image,
 * and release the writer.
 */
module Whiteboard {
  import opened Wrappers
  import opened Images
  import opened Hand
  import opened Traversal
  import opened Pass
  import opened Video

  /** The drawing parameters an AllVariables object carries. */
  datatype Settings = Settings(frameRate: int, resizeWd: nat, resizeHt: nat, splitLen: nat,
                               objectSkipRate: int, bgObjectSkipRate: int, endImgDurationInSec: int)

  /** The cell size of the background pass. */
  const BackgroundSplitLen: nat := 20

  /** The codec tag: Motion-JPEG on android, MPEG-4 part 2 elsewhere. */
  function FourCC(platform: string): (code: string)
    ensures |code| == 4
    ensures code == "MJPG" <==> platform == "android"
    ensures platform != "android" ==> code == "mp4v"
  {
    if platform == "android" then "MJPG" else "mp4v"
  }

  /** The number of end-hold frames: the frame rate times the duration, and none when that product is not positive. */
  function EndFrameCount(v: Settings): (n: nat)
    ensures n >= v.frameRate * v.endImgDurationInSec
    ensures n > 0 ==> n == v.frameRate * v.endImgDurationInSec
  {
    if v.frameRate * v.endImgDurationInSec > 0 then v.frameRate * v.endImgDurationInSec else 0
  }

  /** The picture the video ends on: the colour image, or the threshold image in three channels. */
  function EndImage(img: Picture, thresh: Plane, endColor: bool, ht: nat, wd: nat): (p: Picture)
    requires IsGrid(thresh, ht, wd)
    ensures endColor ==> p == img
    ensures !endColor ==> IsGrid(p, ht, wd) && forall i, j :: 0 <= i < ht && 0 <= j < wd ==> p[i][j] == Gray(thresh[i][j])
  {
    if endColor then img else GrayToBgr(thresh, ht, wd)
  }

  function Repeat(p: Picture, n: nat): (r: seq<Picture>)
    ensures |r| == n && forall k :: 0 <= k < n ==> r[k] == p
  {
    if n == 0 then [] else Repeat(p, n - 1) + [p]
  }

  function FullPlane(ht: nat, wd: nat): (bg: Plane)
    ensures IsGrid(bg, ht, wd) && forall i, j :: 0 <= i < ht && 0 <= j < wd ==> bg[i][j] == 255
  {
    seq(ht, i => seq(wd, j => 255))
  }

  /** The background mask with the pixels an object mask covers (value 255) set to 0. */
  function ClearObject(bg: Plane, m: Plane, ht: nat, wd: nat): (r: Plane)
    requires IsGrid(bg, ht, wd) && IsGrid(m, ht, wd)
    ensures IsGrid(r, ht, wd)
    ensures forall i, j :: 0 <= i < ht && 0 <= j < wd ==> r[i][j] == if m[i][j] == 255 then 0 else bg[i][j]
  {
    seq(ht, i requires 0 <= i < ht => seq(wd, j requires 0 <= j < wd => if m[i][j] == 255 then 0 else bg[i][j]))
  }

  ghost predicate MasksFit(masks: seq<Plane>, ht: nat, wd: nat) {
    forall k :: 0 <= k < |masks| ==> IsGrid(masks[k], ht, wd)
  }

  /**
   * The background mask after the objects in `masks` are cleared from it:
   * 0 exactly where some object mask is 255, and 255 everywhere else.
   */
  function BackgroundMask(masks: seq<Plane>, ht: nat, wd: nat): (bg: Plane)
    requires MasksFit(masks, ht, wd)
    ensures IsGrid(bg, ht, wd)
    ensures forall i, j :: 0 <= i < ht && 0 <= j < wd ==>
      && (bg[i][j] == 0 <==> exists k :: 0 <= k < |masks| && masks[k][i][j] == 255)
      && (bg[i][j] == 0 || bg[i][j] == 255)
    decreases |masks|
  {
    if masks == [] then FullPlane(ht, wd)
    else
      var n := |masks| - 1;
      var prev := BackgroundMask(masks[..n], ht, wd);
      var bg := ClearObject(prev, masks[n], ht, wd);
      assert forall i, j :: 0 <= i < ht && 0 <= j < wd ==>
        ((exists k :: 0 <= k < |masks| && masks[k][i][j] == 255) <==>
         (exists k :: 0 <= k < n && masks[..n][k][i][j] == 255) || masks[n][i][j] == 255);
      bg
  }

  /** The shapes draw_whiteboard_animations needs: every raster at the output size, cells that tile it. */
  ghost predicate WhiteboardShape(thresh: Plane, img: Picture, annotations: Option<seq<Plane>>, v: Settings) {
    && IsGrid(thresh, v.resizeHt, v.resizeWd) && IsGrid(img, v.resizeHt, v.resizeWd)
    && v.splitLen > 0 && v.resizeHt % v.splitLen == 0 && v.resizeWd % v.splitLen == 0
    && (annotations.Some? ==>
          && MasksFit(annotations.value, v.resizeHt, v.resizeWd)
          && v.resizeHt % BackgroundSplitLen == 0 && v.resizeWd % BackgroundSplitLen == 0)
  }

  /** A pass with this mask, cell size and skip rate runs to completion. */
  ghost predicate PassOk(thresh: Plane, mask: Option<Plane>, s: nat, skip: int, ht: nat, wd: nat)
    requires PassShape(thresh, mask, s, ht, wd)
  {
    skip != 0 || |PassCells(thresh, mask, s, ht, wd)| <= 1
  }

  ghost predicate ObjectPassesOk(thresh: Plane, img: Picture, masks: seq<Plane>, n: nat, v: Settings)
    requires WhiteboardShape(thresh, img, Some(masks), v) && n <= |masks|
  {
    forall k :: 0 <= k < n ==> PassOk(thresh, Some(masks[k]), v.splitLen, v.objectSkipRate, v.resizeHt, v.resizeWd)
  }

  lemma ObjectPassesOkStep(thresh: Plane, img: Picture, masks: seq<Plane>, n: nat, v: Settings)
    requires WhiteboardShape(thresh, img, Some(masks), v) && n < |masks| && ObjectPassesOk(thresh, img, masks, n, v)
    requires PassOk(thresh, Some(masks[n]), v.splitLen, v.objectSkipRate, v.resizeHt, v.resizeWd)
    ensures ObjectPassesOk(thresh, img, masks, n + 1, v)
  {
    forall k | 0 <= k < n + 1 ensures PassOk(thresh, Some(masks[k]), v.splitLen, v.objectSkipRate, v.resizeHt, v.resizeWd) {
      if k < n {
        assert PassOk(thresh, Some(masks[k]), v.splitLen, v.objectSkipRate, v.resizeHt, v.resizeWd);
      }
    }
  }

  /** Every pass of the animation runs to completion. */
  ghost predicate Drawable(thresh: Plane, img: Picture, annotations: Option<seq<Plane>>, v: Settings)
    requires WhiteboardShape(thresh, img, annotations, v)
  {
    match annotations
    case None => PassOk(thresh, None, v.splitLen, v.objectSkipRate, v.resizeHt, v.resizeWd)
    case Some(masks) =>
      && ObjectPassesOk(thresh, img, masks, |masks|, v)
      && PassOk(thresh, Some(BackgroundMask(masks, v.resizeHt, v.resizeWd)), BackgroundSplitLen, v.bgObjectSkipRate, v.resizeHt, v.resizeWd)
  }

  /** The canvas and the video so far. */
  datatype Stage = Stage(canvas: Picture, frames: seq<Picture>)

  ghost function AfterPass(st: Stage, thresh: Plane, img: Picture, hand: HandAsset, mask: Option<Plane>, s: nat, skip: int, ht: nat, wd: nat): (r: Stage)
    requires IsGrid(st.canvas, ht, wd) && IsGrid(img, ht, wd) && PassShape(thresh, mask, s, ht, wd) && HandFits(hand)
    requires PassOk(thresh, mask, s, skip, ht, wd)
    ensures IsGrid(r.canvas, ht, wd)
  {
    Stage(PassCanvas(st.canvas, thresh, img, mask, s, ht, wd), st.frames + PassFrames(st.canvas, thresh, mask, hand, s, skip, ht, wd))
  }

  /** The first `n` object passes, in annotation order. */
  ghost function ObjectPasses(st: Stage, thresh: Plane, img: Picture, hand: HandAsset, masks: seq<Plane>, n: nat, v: Settings): (r: Stage)
    requires WhiteboardShape(thresh, img, Some(masks), v) && HandFits(hand) && IsGrid(st.canvas, v.resizeHt, v.resizeWd)
    requires n <= |masks| && ObjectPassesOk(thresh, img, masks, n, v)
    ensures IsGrid(r.canvas, v.resizeHt, v.resizeWd)
  {
    if n == 0 then st
    else AfterPass(ObjectPasses(st, thresh, img, hand, masks, n - 1, v), thresh, img, hand, Some(masks[n - 1]),
                   v.splitLen, v.objectSkipRate, v.resizeHt, v.resizeWd)
  }

  /** The passes of the whole animation from a white canvas. */
  ghost function Drawing(thresh: Plane, img: Picture, hand: HandAsset, annotations: Option<seq<Plane>>, v: Settings): (r: Stage)
    requires WhiteboardShape(thresh, img, annotations, v) && HandFits(hand) && Drawable(thresh, img, annotations, v)
  {
    var ht, wd := v.resizeHt, v.resizeWd;
    var start := Stage(Filled(White, ht, wd), []);
    match annotations
    case None => AfterPass(start, thresh, img, hand, None, v.splitLen, v.objectSkipRate, ht, wd)
    case Some(masks) =>
      AfterPass(ObjectPasses(start, thresh, img, hand, masks, |masks|, v), thresh, img, hand,
                Some(BackgroundMask(masks, ht, wd)), BackgroundSplitLen, v.bgObjectSkipRate, ht, wd)
  }

  /** Every frame of the video: the passes' frames, then the held end image. */
  ghost function Animation(thresh: Plane, img: Picture, hand: HandAsset, annotations: Option<seq<Plane>>, v: Settings, endColor: bool): seq<Picture>
    requires WhiteboardShape(thresh, img, annotations, v) && HandFits(hand) && Drawable(thresh, img, annotations, v)
  {
    Drawing(thresh, img, hand, annotations, v).frames
      + Repeat(EndImage(img, thresh, endColor, v.resizeHt, v.resizeWd), EndFrameCount(v))
  }

  /** Run one pass on the canvas and the writer, reporting whether it completed. */
  method RunPass(canvas: array2<Pixel>, writer: VideoWriter, thresh: Plane, img: Picture, hand: HandAsset,
                 mask: Option<Plane>, s: nat, skip: int, ht: nat, wd: nat, ghost st: Stage)
    returns (ok: bool)
    requires canvas.Length0 == ht && canvas.Length1 == wd && !writer.released
    requires PassShape(thresh, mask, s, ht, wd) && IsGrid(img, ht, wd) && HandFits(hand)
    requires st == Stage(Snapshot(canvas), writer.frames)
    modifies canvas, writer
    ensures ok <==> PassOk(thresh, mask, s, skip, ht, wd)
    ensures ok ==> Stage(Snapshot(canvas), writer.frames) == AfterPass(st, thresh, img, hand, mask, s, skip, ht, wd)
    ensures !writer.released
  {
    ok := DrawMaskedObject(canvas, writer, thresh, img, hand, mask, s, skip, ht, wd);
  }

  /** The annotated branch: one pass per object, then the background pass. */
  method DrawAnnotated(canvas: array2<Pixel>, writer: VideoWriter, thresh: Plane, img: Picture, hand: HandAsset,
                       masks: seq<Plane>, v: Settings, ghost start: Stage)
    returns (ok: bool)
    requires canvas.Length0 == v.resizeHt && canvas.Length1 == v.resizeWd && !writer.released
    requires WhiteboardShape(thresh, img, Some(masks), v) && HandFits(hand)
    requires start == Stage(Snapshot(canvas), writer.frames)
    modifies canvas, writer
    ensures ok <==> Drawable(thresh, img, Some(masks), v)
    ensures ok ==> (Stage(Snapshot(canvas), writer.frames) ==
      AfterPass(ObjectPasses(start, thresh, img, hand, masks, |masks|, v), thresh, img, hand,
                Some(BackgroundMask(masks, v.resizeHt, v.resizeWd)), BackgroundSplitLen, v.bgObjectSkipRate, v.resizeHt, v.resizeWd))
    ensures !writer.released
  {
    var ht, wd := v.resizeHt, v.resizeWd;
    var backgroundMask := FullPlane(ht, wd);
    var k := 0;
    while k < |masks|
      invariant 0 <= k <= |masks| && !writer.released
      invariant backgroundMask == BackgroundMask(masks[..k], ht, wd)
      invariant ObjectPassesOk(thresh, img, masks, k, v)
      invariant Stage(Snapshot(canvas), writer.frames) == ObjectPasses(start, thresh, img, hand, masks, k, v)
    {
      assert masks[..k + 1][..k] == masks[..k];
      backgroundMask := ClearObject(backgroundMask, masks[k], ht, wd);
      ok := RunPass(canvas, writer, thresh, img, hand, Some(masks[k]), v.splitLen, v.objectSkipRate, ht, wd,
                    Stage(Snapshot(canvas), writer.frames));
      if !ok {
        return false;
      }
      ObjectPassesOkStep(thresh, img, masks, k, v);
      k := k + 1;
    }
    assert masks[..k] == masks;
    ok := RunPass(canvas, writer, thresh, img, hand, Some(backgroundMask), BackgroundSplitLen, v.bgObjectSkipRate, ht, wd,
                  Stage(Snapshot(canvas), writer.frames));
  }

  /** Write the end image `n` times (no times when `n` is not positive). */
  method HoldEndImage(writer: VideoWriter, endImg: Picture, n: int)
    requires !writer.released
    modifies writer
    ensures writer.frames == old(writer.frames) + Repeat(endImg, if n > 0 then n else 0)
    ensures !writer.released
  {
    var i := 0;
    while i < n
      invariant 0 <= i <= (if n > 0 then n else 0) && !writer.released
      invariant writer.frames == old(writer.frames) + Repeat(endImg, i)
    {
      writer.Write(endImg);
      i := i + 1;
    }
  }

  /**
   * draw_whiteboard_animations on the resized colour image `img`, its
   * threshold image `thresh`, the rasterised object masks (None without an
   * annotation file) and the hand sprite and mask. It fails when the hand
   * mask has no 255 pixel or a pass divides by a zero skip rate; otherwise it
   * returns the released writer holding every frame of the animation.
   */
  method DrawWhiteboardAnimations(img: Picture, thresh: Plane, annotations: Option<seq<Plane>>,
                                  handSprite: Picture, handMask: Plane, saveVideoPath: string, platform: string,
                                  v: Settings, endColor: bool)
    returns (video: Option<VideoWriter>)
    requires WhiteboardShape(thresh, img, annotations, v) && SameShape(handSprite, handMask)
    ensures video.Some? <==> HasOnPixel(handMask) && Drawable(thresh, img, annotations, v)
    ensures video.Some? ==>
      var w := video.value;
      && fresh(w) && w.released
      && w.path == saveVideoPath && w.fourcc == FourCC(platform) && w.fps == v.frameRate
      && w.width == v.resizeWd && w.height == v.resizeHt
      && w.frames == Animation(thresh, img, PreprocessHand(handSprite, handMask), annotations, v, endColor)
  {
    if !HasOnPixel(handMask) {
      return None;
    }
    var hand := PreprocessHand(handSprite, handMask);
    var ht, wd := v.resizeHt, v.resizeWd;
    var writer := new VideoWriter(saveVideoPath, FourCC(platform), v.frameRate, wd, ht);
    var canvas := new Pixel[ht, wd]((i, j) => White);
    GridEq(Snapshot(canvas), Filled(White, ht, wd), ht, wd);
    ghost var start := Stage(Snapshot(canvas), writer.frames);
    var ok;
    match annotations {
      case None =>
        ok := RunPass(canvas, writer, thresh, img, hand, None, v.splitLen, v.objectSkipRate, ht, wd, start);
      case Some(masks) =>
        ok := DrawAnnotated(canvas, writer, thresh, img, hand, masks, v, start);
    }
    if !ok {
      return None;
    }
    assert writer.frames == Drawing(thresh, img, hand, annotations, v).frames;
    var endImg := EndImage(img, thresh, endColor, ht, wd);
    HoldEndImage(writer, endImg, v.frameRate * v.endImgDurationInSec);
    writer.Release();
    return Some(writer);
  }

  /** The video ends with exactly EndFrameCount copies of the end image. */
  lemma EndHold(thresh: Plane, img: Picture, hand: HandAsset, annotations: Option<seq<Plane>>, v: Settings, endColor: bool)
    requires WhiteboardShape(thresh, img, annotations, v) && HandFits(hand) && Drawable(thresh, img, annotations, v)
    ensures var frames := Animation(thresh, img, hand, annotations, v, endColor);
      var drawn := |Drawing(thresh, img, hand, annotations, v).frames|;
      && |frames| == drawn + EndFrameCount(v)
      && forall k :: drawn <= k < |frames| ==> frames[k] == EndImage(img, thresh, endColor, v.resizeHt, v.resizeWd)
  {
  }

  /**
   * Without annotations the video has (N - 1) / |skip| drawing frames for N
   * active cells (none for N = 0), then the held end image.
   */
  lemma UnannotatedFrameCount(thresh: Plane, img: Picture, hand: HandAsset, v: Settings, endColor: bool)
    requires WhiteboardShape(thresh, img, None, v) && HandFits(hand) && v.objectSkipRate != 0
    ensures var n := |PassCells(thresh, None, v.splitLen, v.resizeHt, v.resizeWd)|;
      var skip := if v.objectSkipRate < 0 then -v.objectSkipRate else v.objectSkipRate;
      |Animation(thresh, img, hand, None, v, endColor)| == (if n == 0 then 0 else (n - 1) / skip) + EndFrameCount(v)
  {
    PassFrameCount(Filled(White, v.resizeHt, v.resizeWd), thresh, None, hand, v.splitLen, v.objectSkipRate, v.resizeHt, v.resizeWd);
  }
}
