/**
 * Snapping of image dimensions to the standard video resolutions
 * (find_nearest_res and the height-then-width rule of initiate_sketch and
 * get_split_lens).
 */
module Resolution {
  import opened ArgMin

  /** The standard resolutions, in the source's (unsorted) table order. */
  const Table: seq<nat> := [640, 360, 480, 1280, 720, 1920, 1080, 2560, 1440, 3840, 2160, 7680, 4320]

  function Abs(x: int): int { if x < 0 then -x else x }

  /** Distance of every table entry from `given`, entry by entry. */
  function Distances(given: int): (d: seq<int>)
    ensures |d| == |Table|
    ensures forall k :: 0 <= k < |Table| ==> d[k] == Abs(Table[k] - given)
  {
    seq(|Table|, k requires 0 <= k < |Table| => Abs(Table[k] - given))
  }

  /**
   * Position of the answer of find_nearest_res: no entry is strictly closer,
   * and every entry before it is strictly farther (NumPy keeps the first minimum).
   */
  function NearestIndex(given: int): (k: nat)
    ensures k < |Table|
    ensures forall j :: 0 <= j < |Table| ==> Abs(Table[k] - given) <= Abs(Table[j] - given)
    ensures forall j :: 0 <= j < k ==> Abs(Table[j] - given) > Abs(Table[k] - given)
  {
    FirstArgMin(Distances(given))
  }

  /** `r` is a table entry and no table entry is strictly closer to `given`. */
  ghost predicate IsNearest(r: int, given: int) {
    r in Table && forall t :: t in Table ==> Abs(r - given) <= Abs(t - given)
  }

  /**
   * `r` is a nearest table entry, and no entry before it in table order is as
   * close: the entry NumPy's argmin picks among ties.
   */
  ghost predicate IsFirstNearest(r: int, given: int) {
    exists k :: 0 <= k < |Table| && Table[k] == r && IsNearest(r, given)
      && forall j :: 0 <= j < k ==> Abs(Table[j] - given) > Abs(r - given)
  }

  /** The tie rule leaves one answer: two first-nearest entries are the same entry. */
  lemma FirstNearestUnique(r1: int, r2: int, given: int)
    requires IsFirstNearest(r1, given) && IsFirstNearest(r2, given)
    ensures r1 == r2
  {
    var k1 :| 0 <= k1 < |Table| && Table[k1] == r1 && IsNearest(r1, given)
      && forall j :: 0 <= j < k1 ==> Abs(Table[j] - given) > Abs(r1 - given);
    var k2 :| 0 <= k2 < |Table| && Table[k2] == r2 && IsNearest(r2, given)
      && forall j :: 0 <= j < k2 ==> Abs(Table[j] - given) > Abs(r2 - given);
    assert Table[k1] in Table && Table[k2] in Table;
  }

  /** find_nearest_res. */
  function NearestRes(given: int): (r: nat)
    ensures IsFirstNearest(r, given)
    ensures r in Table && r > 0 && r % 20 == 0 && r % 10 == 0
  {
    var k := NearestIndex(given);
    assert Table[k] in Table;
    TableMultipleOf20(Table[k]);
    Table[k]
  }

  /** Ties go to the earlier entry, which is sometimes the larger one. */
  lemma TiesFollowTableOrder()
    ensures NearestRes(420) == 360
    ensures NearestRes(560) == 640
  {
    var a := NearestIndex(420);
    assert Abs(Table[1] as int - 420) == 60;
    assert a == 1;
    var b := NearestIndex(560);
    assert Abs(Table[0] as int - 560) == 80;
    assert b == 0;
  }

  datatype Dims = Dims(ht: nat, wd: nat)

  /**
   * Height is snapped first; the width that keeps the original aspect ratio at
   * the snapped height is then snapped on its own.
   */
  function Snap(ht: nat, wd: nat): (d: Dims)
    requires ht > 0
    ensures d.ht in Table && d.wd in Table
    ensures IsFirstNearest(d.ht, ht) && IsFirstNearest(d.wd, AspectWidth(d.ht, ht, wd))
    ensures d.ht > 0 && d.wd > 0
    ensures d.ht % 20 == 0 && d.wd % 20 == 0 && d.ht % 10 == 0 && d.wd % 10 == 0
  {
    var normHt := NearestRes(ht);
    var normWd := NearestRes(AspectWidth(normHt, ht, wd));
    Dims(normHt, normWd)
  }

  /** The width keeping the image's aspect ratio at height `normHt`, rounded down, computed exactly on integers. */
  function AspectWidth(normHt: int, ht: nat, wd: nat): int
    requires ht > 0
  {
    (normHt * wd) / ht
  }

  /** Every standard resolution is a positive whole number of 20-pixel (hence 10-pixel) cells. */
  lemma TableMultipleOf20(t: int)
    requires t in Table
    ensures t > 0 && t % 20 == 0 && t % 10 == 0
  {
  }
}
