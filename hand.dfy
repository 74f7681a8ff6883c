/**
 * The hand cursor: locating the sprite's content through its mask
 * (get_extreme_coordinates), cropping and blackening it
 * (preprocess_hand_image) and compositing it onto a frame (draw_hand_on_img).
 */
module Hand {
  import opened Images

  /** A pixel position in the source's (x, y) = (column, row) convention. */
  datatype Point = Point(x: int, y: int)

  ghost predicate IsOn(mask: Plane, p: Point) {
    0 <= p.y < |mask| && 0 <= p.x < |mask[p.y]| && mask[p.y][p.x] == 255
  }

  /** The 255-valued pixels of row `r` from column `c` on, left to right. */
  function OnPixelsInRow(mask: Plane, r: nat, c: nat): (ps: seq<Point>)
    requires r < |mask| && c <= |mask[r]|
    ensures forall p :: p in ps <==> IsOn(mask, p) && p.y == r && c <= p.x
    decreases |mask[r]| - c
  {
    if c == |mask[r]| then []
    else (if mask[r][c] == 255 then [Point(c, r)] else []) + OnPixelsInRow(mask, r, c + 1)
  }

  /** The 255-valued pixels of rows `r..`, in row-major order (np.where). */
  function OnPixels(mask: Plane, r: nat): (ps: seq<Point>)
    requires r <= |mask|
    ensures forall p :: p in ps <==> IsOn(mask, p) && r <= p.y
    decreases |mask| - r
  {
    if r == |mask| then [] else OnPixelsInRow(mask, r, 0) + OnPixels(mask, r + 1)
  }

  predicate HasOnPixel(mask: Plane) {
    OnPixels(mask, 0) != []
  }

  function MinOf(s: seq<int>): (m: int)
    requires |s| > 0
    ensures m in s && forall x :: x in s ==> m <= x
  {
    if |s| == 1 then s[0]
    else
      assert s == [s[0]] + s[1..];
      var m := MinOf(s[1..]); if s[0] < m then s[0] else m
  }

  function MaxOf(s: seq<int>): (m: int)
    requires |s| > 0
    ensures m in s && forall x :: x in s ==> x <= m
  {
    if |s| == 1 then s[0]
    else
      assert s == [s[0]] + s[1..];
      var m := MaxOf(s[1..]); if s[0] > m then s[0] else m
  }

  /** Every 255 pixel lies in the box from `tl` to `br`, and each bound is reached by one. */
  ghost predicate IsTightBox(mask: Plane, tl: Point, br: Point) {
    && (forall p :: IsOn(mask, p) ==> tl.x <= p.x <= br.x && tl.y <= p.y <= br.y)
    && (exists p :: IsOn(mask, p) && p.x == tl.x)
    && (exists p :: IsOn(mask, p) && p.y == tl.y)
    && (exists p :: IsOn(mask, p) && p.x == br.x)
    && (exists p :: IsOn(mask, p) && p.y == br.y)
  }

  /**
   * get_extreme_coordinates: the corners (least x, least y) and (greatest x,
   * greatest y) of the 255-valued pixels. Every such pixel lies in the box, and
   * each of the four bounds is reached by one of them.
   */
  function ExtremeCoordinates(mask: Plane): (box: (Point, Point))
    requires HasOnPixel(mask)
    ensures IsTightBox(mask, box.0, box.1)
  {
    var ps := OnPixels(mask, 0);
    var xs, ys := Columns(ps), Rows(ps);
    BoundsReached(mask, ps, xs, ys);
    (Point(MinOf(xs), MinOf(ys)), Point(MaxOf(xs), MaxOf(ys)))
  }

  function Columns(ps: seq<Point>): (xs: seq<int>)
    ensures |xs| == |ps| && forall k :: 0 <= k < |ps| ==> xs[k] == ps[k].x
  {
    seq(|ps|, k requires 0 <= k < |ps| => ps[k].x)
  }

  function Rows(ps: seq<Point>): (ys: seq<int>)
    ensures |ys| == |ps| && forall k :: 0 <= k < |ps| ==> ys[k] == ps[k].y
  {
    seq(|ps|, k requires 0 <= k < |ps| => ps[k].y)
  }

  lemma BoundsReached(mask: Plane, ps: seq<Point>, xs: seq<int>, ys: seq<int>)
    requires ps != [] && forall p :: p in ps <==> IsOn(mask, p)
    requires |xs| == |ps| && forall k :: 0 <= k < |ps| ==> xs[k] == ps[k].x
    requires |ys| == |ps| && forall k :: 0 <= k < |ps| ==> ys[k] == ps[k].y
    ensures IsTightBox(mask, Point(MinOf(xs), MinOf(ys)), Point(MaxOf(xs), MaxOf(ys)))
  {
    forall p | IsOn(mask, p) ensures p.x in xs && p.y in ys {
      var k :| 0 <= k < |ps| && ps[k] == p;
      assert xs[k] == p.x && ys[k] == p.y;
    }
    var minX, minY, maxX, maxY := MinOf(xs), MinOf(ys), MaxOf(xs), MaxOf(ys);
    var kx0 :| 0 <= kx0 < |xs| && xs[kx0] == minX;
    var ky0 :| 0 <= ky0 < |ys| && ys[ky0] == minY;
    var kx1 :| 0 <= kx1 < |xs| && xs[kx1] == maxX;
    var ky1 :| 0 <= ky1 < |ys| && ys[ky1] == maxY;
    assert ps[kx0] in ps && ps[ky0] in ps && ps[kx1] in ps && ps[ky1] in ps;
  }

  /** Rows top..bottom-1 and columns left..right-1 of a raster (NumPy slicing). */
  function Crop<T>(g: seq<seq<T>>, top: int, left: int, bottom: int, right: int): (c: seq<seq<T>>)
    requires 0 <= top <= bottom <= |g| && 0 <= left <= right
    requires forall i :: top <= i < bottom ==> right <= |g[i]|
    ensures IsGrid(c, bottom - top, right - left)
    ensures forall i, j :: 0 <= i < bottom - top && 0 <= j < right - left ==> c[i][j] == g[top + i][left + j]
  {
    seq(bottom - top, i requires 0 <= i < bottom - top => g[top + i][left..right])
  }

  /** The prepared cursor: sprite, mask, and the multiplier of the frame under the sprite. */
  datatype HandAsset = HandAsset(sprite: Picture, mask: Plane, inv: seq<seq<int>>, ht: nat, wd: nat)

  /** The inverse-mask multiplier (255 - m) / 255 on integers: 1 where the mask is 0, 0 where it is 255. */
  function InvFactor(m: Byte): (f: int)
    ensures f == 0 || f == 1
    ensures f == 1 <==> m == 0
  {
    (255 - m) / 255
  }

  ghost predicate WellFormed(h: HandAsset) {
    && IsGrid(h.sprite, h.ht, h.wd) && IsGrid(h.mask, h.ht, h.wd) && IsGrid(h.inv, h.ht, h.wd)
    && forall i, j :: 0 <= i < h.ht && 0 <= j < h.wd ==>
         && h.inv[i][j] == InvFactor(h.mask[i][j])
         && (h.mask[i][j] == 0 ==> h.sprite[i][j] == Black)
  }

  /** Sprite and mask are rasters of one and the same non-empty shape. */
  ghost predicate SameShape(hand: Picture, mask: Plane) {
    |mask| > 0 && IsGrid(mask, |mask|, |mask[0]|) && IsGrid(hand, |mask|, |mask[0]|)
  }

  ghost predicate IsBinary(mask: Plane) {
    forall i, j :: 0 <= i < |mask| && 0 <= j < |mask[i]| ==> mask[i][j] == 0 || mask[i][j] == 255
  }

  /** The box of get_extreme_coordinates lies inside the mask, corners ordered. */
  lemma BoxInside(mask: Plane, tl: Point, br: Point)
    requires |mask| > 0 && IsGrid(mask, |mask|, |mask[0]|) && IsTightBox(mask, tl, br)
    ensures 0 <= tl.y <= br.y < |mask| && 0 <= tl.x <= br.x < |mask[0]|
  {
    var p :| IsOn(mask, p) && p.y == br.y;
    var q :| IsOn(mask, q) && q.x == br.x;
    var u :| IsOn(mask, u) && u.y == tl.y;
    var v :| IsOn(mask, v) && v.x == tl.x;
  }

  /** The inverse-mask multipliers of a cropped mask. */
  function InverseMask(m: Plane, ht: nat, wd: nat): (inv: seq<seq<int>>)
    requires IsGrid(m, ht, wd)
    ensures IsGrid(inv, ht, wd)
    ensures forall i, j :: 0 <= i < ht && 0 <= j < wd ==> inv[i][j] == InvFactor(m[i][j])
  {
    seq(ht, i requires 0 <= i < ht => seq(wd, j requires 0 <= j < wd => InvFactor(m[i][j])))
  }

  /** The sprite with every pixel set to black where the cropped mask is 0. */
  function Blacken(hand: Picture, m: Plane, ht: nat, wd: nat): (sprite: Picture)
    requires IsGrid(hand, ht, wd) && IsGrid(m, ht, wd)
    ensures IsGrid(sprite, ht, wd)
    ensures forall i, j :: 0 <= i < ht && 0 <= j < wd ==> sprite[i][j] == if m[i][j] == 0 then Black else hand[i][j]
  {
    seq(ht, i requires 0 <= i < ht => seq(wd, j requires 0 <= j < wd => if m[i][j] == 0 then Black else hand[i][j]))
  }

  /**
   * `h` is the sprite and mask cut to rows tl.y..br.y-1 and columns
   * tl.x..br.x-1, with the sprite black where the cut mask is 0.
   */
  ghost predicate CroppedFrom(h: HandAsset, hand: Picture, mask: Plane, tl: Point, br: Point)
    requires SameShape(hand, mask)
    requires 0 <= tl.y <= br.y < |mask| && 0 <= tl.x <= br.x < |mask[0]|
  {
    && h.ht == br.y - tl.y && h.wd == br.x - tl.x
    && IsGrid(h.mask, h.ht, h.wd) && IsGrid(h.sprite, h.ht, h.wd)
    && forall i, j :: 0 <= i < h.ht && 0 <= j < h.wd ==>
         && h.mask[i][j] == mask[tl.y + i][tl.x + j]
         && h.sprite[i][j] == (if mask[tl.y + i][tl.x + j] == 0 then Black else hand[tl.y + i][tl.x + j])
  }

  /** Crop sprite and mask to rows top..bottom-1, columns left..right-1, then derive and blacken. */
  function CropAsset(hand: Picture, mask: Plane, top: int, left: int, bottom: int, right: int): (h: HandAsset)
    requires SameShape(hand, mask)
    requires 0 <= top <= bottom < |mask| && 0 <= left <= right < |mask[0]|
    ensures WellFormed(h)
    ensures CroppedFrom(h, hand, mask, Point(left, top), Point(right, bottom))
  {
    var ht, wd := bottom - top, right - left;
    var cropped := Crop(hand, top, left, bottom, right);
    var croppedMask := Crop(mask, top, left, bottom, right);
    HandAsset(Blacken(cropped, croppedMask, ht, wd), croppedMask, InverseMask(croppedMask, ht, wd), ht, wd)
  }

  /**
   * preprocess_hand_image: crop sprite and mask to the mask's bounding box
   * (exclusive of the box's last row and column), derive the inverse mask, and
   * blacken the sprite where the cropped mask is 0.
   */
  function PreprocessHand(hand: Picture, mask: Plane): (h: HandAsset)
    requires SameShape(hand, mask) && HasOnPixel(mask)
    ensures WellFormed(h)
    ensures 0 <= ExtremeCoordinates(mask).0.y <= ExtremeCoordinates(mask).1.y < |mask|
    ensures 0 <= ExtremeCoordinates(mask).0.x <= ExtremeCoordinates(mask).1.x < |mask[0]|
    ensures CroppedFrom(h, hand, mask, ExtremeCoordinates(mask).0, ExtremeCoordinates(mask).1)
  {
    var box := ExtremeCoordinates(mask);
    BoxInside(mask, box.0, box.1);
    CropAsset(hand, mask, box.0.y, box.0.x, box.1.y, box.1.x)
  }

  /** A 0/255 mask stays 0/255 when cropped. */
  lemma PreprocessKeepsBinary(hand: Picture, mask: Plane)
    requires SameShape(hand, mask) && HasOnPixel(mask) && IsBinary(mask)
    ensures IsBinary(PreprocessHand(hand, mask).mask)
  {
    var h := PreprocessHand(hand, mask);
    var tl, br := ExtremeCoordinates(mask).0, ExtremeCoordinates(mask).1;
    assert CroppedFrom(h, hand, mask, tl, br);
    forall i, j | 0 <= i < |h.mask| && 0 <= j < |h.mask[i]| ensures h.mask[i][j] == 0 || h.mask[i][j] == 255 {
      assert h.mask[i][j] == mask[tl.y + i][tl.x + j];
    }
  }

  /** The hand's extent along one side, clipped to what is left of the frame. */
  function CropExtent(remaining: int, handDim: int): (e: int)
    ensures e <= remaining && e <= handDim && (e == remaining || e == handDim)
  {
    if remaining > handDim then handDim else remaining
  }

  /** One 8-bit channel: the frame sample scaled by the factor, plus the sprite sample, wrapping at 256. */
  function BlendChannel(d: Byte, h: Byte, f: int): (c: Byte)
    ensures f == 0 ==> c == h
    ensures f == 1 ==> c == if d + h < 256 then d + h else d + h - 256
  {
    (d * f + h) % 256
  }

  /** The channel blend on all three channels. */
  function BlendPixel(d: Pixel, h: Pixel, f: int): (p: Pixel)
    ensures f == 0 ==> p == h
    ensures f == 1 && h == Black ==> p == d
  {
    Pixel(BlendChannel(d.b, h.b, f), BlendChannel(d.g, h.g, f), BlendChannel(d.r, h.r, f))
  }

  ghost predicate InHandRect(i: int, j: int, x: int, y: int, handHt: int, handWd: int, imgHt: int, imgWd: int) {
    y <= i < y + CropExtent(imgHt - y, handHt) && x <= j < x + CropExtent(imgWd - x, handWd)
  }

  /** What draw_hand_on_img leaves at pixel (i, j) of a frame whose pixel there was `p`. */
  ghost function OverlayPixel(p: Pixel, hand: Picture, inv: seq<seq<int>>, x: int, y: int,
                              handHt: nat, handWd: nat, imgHt: int, imgWd: int, i: int, j: int): Pixel
    requires IsGrid(hand, handHt, handWd) && IsGrid(inv, handHt, handWd)
  {
    if InHandRect(i, j, x, y, handHt, handWd, imgHt, imgWd) then BlendPixel(p, hand[i - y][j - x], inv[i - y][j - x]) else p
  }

  /**
   * With a well-formed asset cut from a 0/255 mask, compositing puts the sprite
   * pixel where the mask is on and keeps the frame's pixel everywhere else,
   * in particular everywhere outside the clipped rectangle.
   */
  lemma OverlayComposites(h: HandAsset, p: Pixel, x: int, y: int, imgHt: int, imgWd: int, i: int, j: int)
    requires WellFormed(h) && IsBinary(h.mask)
    ensures OverlayPixel(p, h.sprite, h.inv, x, y, h.ht, h.wd, imgHt, imgWd, i, j) ==
      if InHandRect(i, j, x, y, h.ht, h.wd, imgHt, imgWd) && h.mask[i - y][j - x] == 255 then h.sprite[i - y][j - x] else p
  {
    if InHandRect(i, j, x, y, h.ht, h.wd, imgHt, imgWd) {
      var a, b := i - y, j - x;
      assert 0 <= a < h.ht && 0 <= b < h.wd;
      var m, s, f := h.mask[a][b], h.sprite[a][b], h.inv[a][b];
      assert m == 0 || m == 255;
      assert f == InvFactor(m) && (m == 0 ==> s == Black);
      BlendByFactor(p, s, m);
    }
  }

  /** The blend with the integer inverse factor of a 0/255 mask value. */
  lemma BlendByFactor(d: Pixel, s: Pixel, m: Byte)
    requires m == 0 || m == 255
    requires m == 0 ==> s == Black
    ensures BlendPixel(d, s, InvFactor(m)) == if m == 255 then s else d
  {
    if m == 255 {
      assert InvFactor(m) == 0;
    } else {
      assert InvFactor(m) == 1;
      assert BlendChannel(d.b, 0, 1) == d.b && BlendChannel(d.g, 0, 1) == d.g && BlendChannel(d.r, 0, 1) == d.r;
    }
  }

  /**
   * draw_hand_on_img: composite the sprite with its top-left corner at
   * (x, y), clipped to the frame, updating `drawing` in place.
   */
  method DrawHandOnImg(drawing: array2<Pixel>, hand: Picture, drawingCoordX: int, drawingCoordY: int,
                       handMaskInv: seq<seq<int>>, handHt: nat, handWd: nat, imgHt: int, imgWd: int)
    requires drawing.Length0 == imgHt && drawing.Length1 == imgWd
    requires 0 <= drawingCoordX <= imgWd && 0 <= drawingCoordY <= imgHt
    requires IsGrid(hand, handHt, handWd) && IsGrid(handMaskInv, handHt, handWd)
    modifies drawing
    ensures forall i, j :: 0 <= i < imgHt && 0 <= j < imgWd ==>
      drawing[i, j] == OverlayPixel(old(drawing[i, j]), hand, handMaskInv, drawingCoordX, drawingCoordY, handHt, handWd, imgHt, imgWd, i, j)
  {
    var x, y := drawingCoordX, drawingCoordY;
    var cropHandHt := CropExtent(imgHt - y, handHt);
    var cropHandWd := CropExtent(imgWd - x, handWd);
    var a := 0;
    while a < cropHandHt
      invariant 0 <= a <= cropHandHt
      invariant forall i, j :: 0 <= i < imgHt && 0 <= j < imgWd ==>
        drawing[i, j] == if i < y + a then OverlayPixel(old(drawing[i, j]), hand, handMaskInv, x, y, handHt, handWd, imgHt, imgWd, i, j)
                         else old(drawing[i, j])
    {
      var b := 0;
      while b < cropHandWd
        invariant 0 <= b <= cropHandWd
        invariant forall i, j :: 0 <= i < imgHt && 0 <= j < imgWd ==>
          drawing[i, j] == if i < y + a || (i == y + a && j < x + b) then OverlayPixel(old(drawing[i, j]), hand, handMaskInv, x, y, handHt, handWd, imgHt, imgWd, i, j)
                           else old(drawing[i, j])
      {
        drawing[y + a, x + b] := BlendPixel(drawing[y + a, x + b], hand[a][b], handMaskInv[a][b]);
        b := b + 1;
      }
      a := a + 1;
    }
  }
}
