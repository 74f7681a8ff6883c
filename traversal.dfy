/**
 * The cell bookkeeping of draw_masked_object: forcing pixels outside the
 * object mask to white, cutting the threshold image into square cells,
 * listing the cells that hold ink in row-major order, and the order in which
 * the greedy nearest-neighbour loop visits them.
 */
module Traversal {
  import opened Wrappers
  import opened Images
  import opened ArgMin
  import opened Arith

  /** A threshold sample below this counts as ink. */
  const BlackPixelThreshold: int := 10

  /** A cell of the grid, by row and column index (one row of `cut_black_indices`). */
  datatype Cell = Cell(row: int, col: int)

  /** The threshold copy the pass works on: white wherever the object mask is 0. */
  function MaskedThreshold(thresh: Plane, mask: Option<Plane>, ht: nat, wd: nat): (t: Plane)
    requires IsGrid(thresh, ht, wd)
    requires mask.Some? ==> IsGrid(mask.value, ht, wd)
    ensures IsGrid(t, ht, wd)
    ensures forall i, j :: 0 <= i < ht && 0 <= j < wd && mask.Some? && mask.value[i][j] == 0 ==> t[i][j] == 255
    ensures forall i, j :: 0 <= i < ht && 0 <= j < wd && !(mask.Some? && mask.value[i][j] == 0) ==> t[i][j] == thresh[i][j]
  {
    match mask
    case None => thresh
    case Some(m) =>
      seq(ht, i requires 0 <= i < ht => seq(wd, j requires 0 <= j < wd => if m[i][j] == 0 then 255 else thresh[i][j]))
  }

  /** Number of ink samples among `row[lo..hi]`. */
  function RowInk(row: seq<Byte>, lo: nat, hi: nat): (n: nat)
    requires lo <= hi <= |row|
    ensures n > 0 <==> exists b :: lo <= b < hi && row[b] < BlackPixelThreshold
    decreases hi - lo
  {
    if lo == hi then 0
    else (if row[lo] < BlackPixelThreshold then 1 else 0) + RowInk(row, lo + 1, hi)
  }

  /** Number of ink samples in rows top..bottom-1, columns left..right-1 of `t`. */
  function BlockInk(t: Plane, top: nat, bottom: nat, left: nat, right: nat): (n: nat)
    requires top <= bottom <= |t| && left <= right
    requires forall r :: top <= r < bottom ==> right <= |t[r]|
    ensures n > 0 <==> exists a, b :: top <= a < bottom && left <= b < right && t[a][b] < BlackPixelThreshold
    decreases bottom - top
  {
    if top == bottom then 0
    else RowInk(t[top], left, right) + BlockInk(t, top + 1, bottom, left, right)
  }

  ghost predicate InGrid(c: Cell, nr: int, nc: int) {
    0 <= c.row < nr && 0 <= c.col < nc
  }

  /** The cell's `s`-by-`s` block of `t` holds at least one ink sample. */
  ghost predicate HasInk(t: Plane, s: nat, c: Cell) {
    exists a, b :: c.row * s <= a < c.row * s + s && c.col * s <= b < c.col * s + s
      && 0 <= a < |t| && 0 <= b < |t[a]| && t[a][b] < BlackPixelThreshold
  }

  lemma CellFits(c: Cell, s: nat, nr: int, nc: int)
    requires InGrid(c, nr, nc)
    ensures (c.row + 1) * s <= nr * s && (c.col + 1) * s <= nc * s
  {
    MulMono(c.row + 1, nr, s);
    MulMono(c.col + 1, nc, s);
  }

  /** `c` comes at or after cell (r, k) in row-major order. */
  ghost predicate FromOn(c: Cell, r: int, k: int) {
    c.row > r || (c.row == r && c.col >= k)
  }

  /** The inked cells from (r, k) on, in row-major order (a tail of NumPy's index list). */
  function ActiveFrom(t: Plane, s: nat, nr: nat, nc: nat, r: nat, k: nat): (cs: seq<Cell>)
    requires IsGrid(t, nr * s, nc * s)
    requires r <= nr && k <= nc
    ensures forall c :: c in cs <==> InGrid(c, nr, nc) && FromOn(c, r, k) && HasInk(t, s, c)
    decreases nr - r, nc - k
  {
    if r == nr then []
    else if k == nc then ActiveFrom(t, s, nr, nc, r + 1, 0)
    else
      var c := Cell(r, k);
      CellInk(t, s, nr, nc, c);
      var here := BlockInk(t, r * s, r * s + s, k * s, k * s + s) > 0;
      (if here then [c] else []) + ActiveFrom(t, s, nr, nc, r, k + 1)
  }

  /** A cell of the grid covers a block inside the image. */
  lemma CellBlock(t: Plane, s: nat, nr: nat, nc: nat, c: Cell)
    requires IsGrid(t, nr * s, nc * s) && InGrid(c, nr, nc)
    ensures 0 <= c.row * s && c.row * s + s <= |t|
    ensures 0 <= c.col * s && forall a :: 0 <= a < |t| ==> c.col * s + s <= |t[a]|
  {
    CellFits(c, s, nr, nc);
    MulMono(0, c.row, s);
    MulMono(0, c.col, s);
    assert (c.row + 1) * s == c.row * s + s && (c.col + 1) * s == c.col * s + s;
  }

  /** The ink count of a cell's block is positive exactly when the cell has ink. */
  lemma CellInk(t: Plane, s: nat, nr: nat, nc: nat, c: Cell)
    requires IsGrid(t, nr * s, nc * s) && InGrid(c, nr, nc)
    ensures c.row * s + s <= |t| && forall a :: 0 <= a < |t| ==> c.col * s + s <= |t[a]|
    ensures BlockInk(t, c.row * s, c.row * s + s, c.col * s, c.col * s + s) > 0 <==> HasInk(t, s, c)
  {
    CellBlock(t, s, nr, nc, c);
    InkInBlock(t, s, c, c.row * s, c.col * s);
  }

  lemma InkInBlock(t: Plane, s: nat, c: Cell, top: nat, left: nat)
    requires top == c.row * s && left == c.col * s
    requires top + s <= |t| && forall a :: 0 <= a < |t| ==> left + s <= |t[a]|
    ensures BlockInk(t, top, top + s, left, left + s) > 0 <==> HasInk(t, s, c)
  {
    if HasInk(t, s, c) {
      var a, b :| top <= a < top + s && left <= b < left + s && 0 <= a < |t| && 0 <= b < |t[a]| && t[a][b] < BlackPixelThreshold;
      assert BlockInk(t, top, top + s, left, left + s) > 0;
    }
    if BlockInk(t, top, top + s, left, left + s) > 0 {
      var a, b :| top <= a < top + s && left <= b < left + s && t[a][b] < BlackPixelThreshold;
      assert 0 <= a < |t| && 0 <= b < |t[a]|;
    }
  }

  /** One step of ActiveFrom inside a row. */
  lemma ActiveFromStep(t: Plane, s: nat, nr: nat, nc: nat, r: nat, k: nat)
    requires IsGrid(t, nr * s, nc * s) && r < nr && k < nc
    ensures ActiveFrom(t, s, nr, nc, r, k)
      == (if HasInk(t, s, Cell(r, k)) then [Cell(r, k)] else []) + ActiveFrom(t, s, nr, nc, r, k + 1)
  {
    CellInk(t, s, nr, nc, Cell(r, k));
  }

  /**
   * The active cells of an `nr`-by-`nc` grid of `s`-by-`s` cells: the row and
   * column indices at which the per-cell ink count is positive.
   */
  function ActiveCells(t: Plane, s: nat, nr: nat, nc: nat): (cs: seq<Cell>)
    requires IsGrid(t, nr * s, nc * s)
    ensures forall c :: c in cs <==> InGrid(c, nr, nc) && HasInk(t, s, c)
  {
    ActiveFrom(t, s, nr, nc, 0, 0)
  }

  /** Strictly earlier in row-major order. */
  ghost predicate Before(a: Cell, b: Cell) {
    a.row < b.row || (a.row == b.row && a.col < b.col)
  }

  ghost predicate RowMajor(cs: seq<Cell>) {
    forall i, j :: 0 <= i < j < |cs| ==> Before(cs[i], cs[j])
  }

  ghost predicate Distinct(cs: seq<Cell>) {
    forall i, j :: 0 <= i < |cs| && 0 <= j < |cs| && i != j ==> cs[i] != cs[j]
  }

  lemma {:induction false} ActiveFromRowMajor(t: Plane, s: nat, nr: nat, nc: nat, r: nat, k: nat)
    requires IsGrid(t, nr * s, nc * s)
    requires r <= nr && k <= nc
    ensures RowMajor(ActiveFrom(t, s, nr, nc, r, k))
    decreases nr - r, nc - k
  {
    if r == nr {
    } else if k == nc {
      ActiveFromRowMajor(t, s, nr, nc, r + 1, 0);
    } else {
      var c := Cell(r, k);
      var tail := ActiveFrom(t, s, nr, nc, r, k + 1);
      ActiveFromRowMajor(t, s, nr, nc, r, k + 1);
      assert forall x :: x in tail ==> FromOn(x, r, k + 1);
      RowMajorCons(c, tail);
      ActiveFromStep(t, s, nr, nc, r, k);
      assert [] + tail == tail;
    }
  }

  lemma RowMajorCons(c: Cell, tail: seq<Cell>)
    requires RowMajor(tail) && forall x :: x in tail ==> Before(c, x)
    ensures RowMajor([c] + tail)
  {
    var cs := [c] + tail;
    forall i, j | 0 <= i < j < |cs| ensures Before(cs[i], cs[j]) {
      assert cs[j] == tail[j - 1] && cs[j] in tail;
      if i > 0 {
        assert cs[i] == tail[i - 1];
      }
    }
  }

  /** Active cells come in strictly increasing row-major order, so none repeats. */
  lemma ActiveCellsOrdered(t: Plane, s: nat, nr: nat, nc: nat)
    requires IsGrid(t, nr * s, nc * s)
    ensures RowMajor(ActiveCells(t, s, nr, nc))
    ensures Distinct(ActiveCells(t, s, nr, nc))
  {
    ActiveFromRowMajor(t, s, nr, nc, 0, 0);
  }

  /** Squared Euclidean distance between two cells' indices (the square of `euc_dist`). */
  function SqDist(a: Cell, b: Cell): (d: nat)
    ensures d == 0 <==> a == b
  {
    (a.row - b.row) * (a.row - b.row) + (a.col - b.col) * (a.col - b.col)
  }

  /**
   * The index of the first remaining cell nearest to `v` (NumPy's argmin over the distances).
   * Taking the square root does not change which entry is least.
   */
  function Successor(cells: seq<Cell>, v: Cell): (k: nat)
    requires |cells| > 0
    ensures k < |cells|
    ensures forall c :: c in cells ==> SqDist(cells[k], v) <= SqDist(c, v)
    ensures forall m :: 0 <= m < k ==> SqDist(cells[m], v) > SqDist(cells[k], v)
  {
    var keys := seq(|cells|, m requires 0 <= m < |cells| => SqDist(cells[m], v) as int);
    var k := FirstArgMin(keys);
    assert forall m :: 0 <= m < |cells| ==> keys[m] == SqDist(cells[m], v);
    k
  }

  /** Overwrite position `k` with the last cell, then drop the last position. */
  function RemoveAt(cells: seq<Cell>, k: nat): (rest: seq<Cell>)
    requires k < |cells|
    ensures |rest| == |cells| - 1
    ensures forall m :: 0 <= m < |rest| ==> rest[m] == if m == k then cells[|cells| - 1] else cells[m]
  {
    cells[k := cells[|cells| - 1]][..|cells| - 1]
  }

  lemma RemoveAtMultiset(cells: seq<Cell>, k: nat)
    requires k < |cells|
    ensures multiset(RemoveAt(cells, k)) + multiset{cells[k]} == multiset(cells)
  {
    var n := |cells|;
    var rest := RemoveAt(cells, k);
    if k == n - 1 {
      assert cells == rest + [cells[k]];
    } else {
      assert rest == cells[..k] + [cells[n - 1]] + cells[k + 1..n - 1];
      assert cells == cells[..k] + [cells[k]] + cells[k + 1..n - 1] + [cells[n - 1]];
    }
  }

  lemma RemoveAtWithin(cells: seq<Cell>, k: nat)
    requires k < |cells|
    ensures forall c :: c in RemoveAt(cells, k) ==> c in cells
  {
    var rest := RemoveAt(cells, k);
    forall c | c in rest ensures c in cells {
      var m :| 0 <= m < |rest| && rest[m] == c;
      assert c == cells[if m == k then |cells| - 1 else m];
    }
  }

  lemma RemoveAtDistinct(cells: seq<Cell>, k: nat)
    requires k < |cells| && Distinct(cells)
    ensures Distinct(RemoveAt(cells, k))
    ensures forall c :: c in RemoveAt(cells, k) <==> c in cells && c != cells[k]
  {
    var n := |cells|;
    var rest := RemoveAt(cells, k);
    forall c | c in cells && c != cells[k] ensures c in rest {
      var m :| 0 <= m < n && cells[m] == c;
      if m < n - 1 {
        assert rest[m] == c;
      } else {
        assert rest[k] == c;
      }
    }
  }

  /**
   * The cells the loop paints, in order, when `cells` remain and `sel` is the
   * selected index: one per iteration while more than one cell is left.
   */
  function Tour(cells: seq<Cell>, sel: nat): (t: seq<Cell>)
    requires cells != [] ==> sel < |cells|
    ensures |t| == if cells == [] then 0 else |cells| - 1
    decreases |cells|
  {
    if |cells| <= 1 then []
    else
      var v := cells[sel];
      var rest := RemoveAt(cells, sel);
      [v] + Tour(rest, Successor(rest, v))
  }

  lemma TourStep(cells: seq<Cell>, sel: nat)
    requires sel < |cells| && |cells| >= 2
    ensures var rest := RemoveAt(cells, sel);
      Tour(cells, sel) == [cells[sel]] + Tour(rest, Successor(rest, cells[sel]))
  {
  }

  /** The one cell still in the list when the loop stops. */
  function Leftover(cells: seq<Cell>, sel: nat): (c: Cell)
    requires sel < |cells|
    decreases |cells|
  {
    if |cells| == 1 then cells[0]
    else
      var rest := RemoveAt(cells, sel);
      Leftover(rest, Successor(rest, cells[sel]))
  }

  /** The greedy visiting order: the painted cells followed by the unpainted last one. */
  function Order(cells: seq<Cell>, sel: nat): (o: seq<Cell>)
    requires sel < |cells|
    ensures |o| == |cells|
  {
    Tour(cells, sel) + [Leftover(cells, sel)]
  }

  lemma OrderUnfold(cells: seq<Cell>, sel: nat)
    requires sel < |cells|
    ensures Order(cells, sel)[0] == cells[sel]
    ensures |cells| >= 2 ==>
      var rest := RemoveAt(cells, sel);
      Order(cells, sel) == [cells[sel]] + Order(rest, Successor(rest, cells[sel]))
  {
  }

  /** Every cell is visited exactly once, counting the leftover one. */
  lemma {:induction false} OrderPermutes(cells: seq<Cell>, sel: nat)
    requires sel < |cells|
    ensures multiset(Order(cells, sel)) == multiset(cells)
    decreases |cells|
  {
    OrderUnfold(cells, sel);
    if |cells| >= 2 {
      var rest := RemoveAt(cells, sel);
      OrderPermutes(rest, Successor(rest, cells[sel]));
      RemoveAtMultiset(cells, sel);
    }
  }

  lemma {:induction false} OrderDistinct(cells: seq<Cell>, sel: nat)
    requires sel < |cells| && Distinct(cells)
    ensures Distinct(Order(cells, sel))
    decreases |cells|
  {
    OrderUnfold(cells, sel);
    if |cells| >= 2 {
      var v := cells[sel];
      var rest := RemoveAt(cells, sel);
      var o' := Order(rest, Successor(rest, v));
      RemoveAtDistinct(cells, sel);
      OrderDistinct(rest, Successor(rest, v));
      OrderPermutes(rest, Successor(rest, v));
      assert v !in multiset(o');
      DistinctCons(v, o');
    }
  }

  lemma DistinctCons(v: Cell, cs: seq<Cell>)
    requires Distinct(cs) && v !in cs
    ensures Distinct([v] + cs)
  {
    var o := [v] + cs;
    forall i, j | 0 <= i < |o| && 0 <= j < |o| && i != j ensures o[i] != o[j] {
      if i > 0 && j > 0 {
        assert o[i] == cs[i - 1] && o[j] == cs[j - 1];
      } else if i == 0 {
        assert o[j] == cs[j - 1];
      } else {
        assert o[i] == cs[i - 1];
      }
    }
  }

  /** The squared length of the hop from the `k`-th cell of `o` to the next one. */
  function Hop(o: seq<Cell>, k: nat): nat
    requires k + 1 < |o|
  {
    SqDist(o[k + 1], o[k])
  }

  /**
   * Each cell of `o` after the first is a nearest one, by squared distance
   * to its predecessor, among the cells from it onwards.
   */
  ghost predicate Greedy(o: seq<Cell>) {
    forall k, m {:trigger Hop(o, k), o[m]} :: 0 <= k < m < |o| ==> Hop(o, k) <= SqDist(o[m], o[k])
  }

  /** Prefixing a greedy order with a cell that its first cell is nearest to keeps it greedy. */
  lemma GreedyCons(v: Cell, o: seq<Cell>)
    requires Greedy(o) && |o| > 0
    requires forall c :: c in o ==> SqDist(o[0], v) <= SqDist(c, v)
    ensures Greedy([v] + o)
  {
    var p := [v] + o;
    forall k, m | 0 <= k < m < |p| ensures Hop(p, k) <= SqDist(p[m], p[k]) {
      assert p[m] == o[m - 1];
      if k > 0 {
        assert p[k] == o[k - 1] && p[k + 1] == o[k];
        assert Hop(p, k) == Hop(o, k - 1);
      } else {
        assert p[1] == o[0] && o[m - 1] in o;
      }
    }
  }

  /**
   * The greedy visiting order: each cell in it is a nearest one to its
   * predecessor among the cells not visited before it; as the order is a
   * permutation of the list (OrderPermutes), those are the cells after it.
   */
  lemma {:induction false} OrderGreedy(cells: seq<Cell>, sel: nat)
    requires sel < |cells|
    ensures Greedy(Order(cells, sel))
    decreases |cells|
  {
    OrderUnfold(cells, sel);
    if |cells| >= 2 {
      var v := cells[sel];
      var rest := RemoveAt(cells, sel);
      var next := Successor(rest, v);
      var o' := Order(rest, next);
      OrderGreedy(rest, next);
      OrderPermutes(rest, next);
      OrderUnfold(rest, next);
      forall c | c in o' ensures SqDist(o'[0], v) <= SqDist(c, v) {
        assert c in multiset(rest);
      }
      GreedyCons(v, o');
    }
  }

  /** The loop starts from index 0, the first active cell in row-major order. */
  lemma FirstVisitIsFirstActive(t: Plane, s: nat, nr: nat, nc: nat)
    requires IsGrid(t, nr * s, nc * s)
    ensures var a := ActiveCells(t, s, nr, nc);
      |a| >= 2 ==> Tour(a, 0)[0] == a[0] && forall c :: c in a && c != a[0] ==> Before(a[0], c)
  {
    var a := ActiveCells(t, s, nr, nc);
    ActiveCellsOrdered(t, s, nr, nc);
    forall c | c in a && c != a[0] ensures Before(a[0], c) {
      var m :| 0 <= m < |a| && a[m] == c;
    }
  }

  /** Painted cells come from the list, and the leftover cell is never painted. */
  lemma TourWithin(cells: seq<Cell>, sel: nat)
    requires sel < |cells|
    ensures forall c :: c in Tour(cells, sel) ==> c in cells
    ensures Distinct(cells) ==> Leftover(cells, sel) !in Tour(cells, sel)
  {
    var o := Order(cells, sel);
    OrderPermutes(cells, sel);
    forall c | c in Tour(cells, sel) ensures c in cells {
      assert c in o;
      assert c in multiset(o);
    }
    if Distinct(cells) {
      OrderDistinct(cells, sel);
      var t, l := Tour(cells, sel), Leftover(cells, sel);
      forall m | 0 <= m < |t| ensures t[m] != l {
        assert o[m] == t[m] && o[|t|] == l;
      }
    }
  }
}
