/**
 * Raster values shared by every stage: 8-bit samples, BGR pixels, single-channel
 * planes (threshold images and masks) and three-channel pictures (colour images,
 * canvases and video frames). Rows come first, as in the source's arrays.
 */
module Images {

  /** One unsigned 8-bit sample. */
  type Byte = x: int | 0 <= x < 256

  /** A three-channel pixel in the source's BGR channel order. */
  datatype Pixel = Pixel(b: Byte, g: Byte, r: Byte)

  type Plane = seq<seq<Byte>>
  type Picture = seq<seq<Pixel>>

  const White: Pixel := Pixel(255, 255, 255)
  const Black: Pixel := Pixel(0, 0, 0)

  /** A grey sample replicated into all three channels. */
  function Gray(v: Byte): (p: Pixel)
    ensures p.b == v && p.g == v && p.r == v
  {
    Pixel(v, v, v)
  }

  /** `g` is a rectangular raster with `ht` rows of `wd` entries. */
  ghost predicate IsGrid<T>(g: seq<seq<T>>, ht: int, wd: int) {
    |g| == ht && forall i :: 0 <= i < |g| ==> |g[i]| == wd
  }

  /** A picture filled with one pixel value. */
  function Filled(p: Pixel, ht: nat, wd: nat): (f: Picture)
    ensures IsGrid(f, ht, wd)
    ensures forall i, j :: 0 <= i < ht && 0 <= j < wd ==> f[i][j] == p
  {
    seq(ht, i => seq(wd, j => p))
  }

  /** Channel replication of a single-channel plane (OpenCV's GRAY2BGR conversion). */
  function GrayToBgr(g: Plane, ht: nat, wd: nat): (f: Picture)
    requires IsGrid(g, ht, wd)
    ensures IsGrid(f, ht, wd)
    ensures forall i, j :: 0 <= i < ht && 0 <= j < wd ==> f[i][j] == Gray(g[i][j])
  {
    seq(ht, i requires 0 <= i < ht => seq(wd, j requires 0 <= j < wd => Gray(g[i][j])))
  }

  /** The pixels an array canvas holds, as a picture value (a frame handed to the writer). */
  function Snapshot(a: array2<Pixel>): (p: Picture)
    reads a
    ensures IsGrid(p, a.Length0, a.Length1)
    ensures forall i, j :: 0 <= i < a.Length0 && 0 <= j < a.Length1 ==> p[i][j] == a[i, j]
  {
    seq(a.Length0, i requires 0 <= i < a.Length0 reads a =>
      seq(a.Length1, j requires 0 <= j < a.Length1 reads a => a[i, j]))
  }

  /** Two rasters of one shape that agree everywhere are equal. */
  lemma GridEq<T>(f: seq<seq<T>>, g: seq<seq<T>>, ht: nat, wd: nat)
    requires IsGrid(f, ht, wd) && IsGrid(g, ht, wd)
    requires forall i, j :: 0 <= i < ht && 0 <= j < wd ==> f[i][j] == g[i][j]
    ensures f == g
  {
    forall i | 0 <= i < ht ensures f[i] == g[i] {
      assert forall j :: 0 <= j < wd ==> f[i][j] == g[i][j];
    }
  }
}
