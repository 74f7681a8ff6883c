/**
 * One drawing pass (draw_masked_object): paint the active cells of the
 * threshold image one at a time in greedy nearest-neighbour order, write a
 * frame with the hand on it every `skipRate` cells, then reveal the colour
 * image inside the mask.
 */
module Pass {
  import opened Wrappers
  import opened Images
  import opened Arith
  import opened Traversal
  import opened Hand
  import opened Video

  /** The inputs of a pass have one shape and the cell size divides both sides. */
  ghost predicate PassShape(thresh: Plane, mask: Option<Plane>, s: nat, ht: nat, wd: nat) {
    && IsGrid(thresh, ht, wd) && (mask.Some? ==> IsGrid(mask.value, ht, wd))
    && s > 0 && ht % s == 0 && wd % s == 0
  }

  ghost predicate HandFits(hand: HandAsset) {
    IsGrid(hand.sprite, hand.ht, hand.wd) && IsGrid(hand.inv, hand.ht, hand.wd)
  }

  /** The cells of the pass that hold ink, in row-major order. */
  function PassCells(thresh: Plane, mask: Option<Plane>, s: nat, ht: nat, wd: nat): (cs: seq<Cell>)
    requires PassShape(thresh, mask, s, ht, wd)
    ensures forall c :: c in cs <==> InGrid(c, ht / s, wd / s) && HasInk(MaskedThreshold(thresh, mask, ht, wd), s, c)
  {
    DividesWitness(s, ht);
    DividesWitness(s, wd);
    ActiveCells(MaskedThreshold(thresh, mask, ht, wd), s, ht / s, wd / s)
  }

  /** The cells the loop paints, in order. */
  ghost function PassTour(thresh: Plane, mask: Option<Plane>, s: nat, ht: nat, wd: nat): seq<Cell>
    requires PassShape(thresh, mask, s, ht, wd)
  {
    Tour(PassCells(thresh, mask, s, ht, wd), 0)
  }

  /** The hand is drawn with its top-left corner at the middle of the cell: its column ... */
  function HandX(c: Cell, s: nat): (x: int)
    ensures s > 0 ==> x / s == c.col && x - c.col * s == s / 2
  {
    var x := c.col * s + s / 2;
    if s > 0 then DivBlock(x, s, c.col); x else x
  }

  /** ... and its row. */
  function HandY(c: Cell, s: nat): (y: int)
    ensures s > 0 ==> y / s == c.row && y - c.row * s == s / 2
  {
    var y := c.row * s + s / 2;
    if s > 0 then DivBlock(y, s, c.row); y else y
  }

  /** The hand's corner for a cell of the grid lies inside the frame. */
  lemma HandInside(v: Cell, s: nat, ht: nat, wd: nat)
    requires s > 0 && ht % s == 0 && wd % s == 0 && InGrid(v, ht / s, wd / s)
    ensures 0 <= HandX(v, s) <= wd && 0 <= HandY(v, s) <= ht
  {
    DividesWitness(s, ht);
    DividesWitness(s, wd);
    CellFits(v, s, ht / s, wd / s);
    MulMono(0, v.row, s);
    MulMono(0, v.col, s);
    assert (v.row + 1) * s == v.row * s + s && (v.col + 1) * s == v.col * s + s;
  }

  /** The cell that pixel (i, j) lies in. */
  function CellOf(i: int, j: int, s: nat): Cell
    requires s > 0
  {
    Cell(i / s, j / s)
  }

  /** Where the colour image is copied back at the end of the pass. */
  predicate Revealed(mask: Option<Plane>, i: nat, j: nat)
    requires mask.Some? ==> i < |mask.value| && j < |mask.value[i]|
  {
    mask.None? || mask.value[i][j] == 255
  }

  /** Pixel (i, j) of `base` once the cells in `visited` are painted from `mt`. */
  ghost function PaintedPixel(base: Pixel, mt: Plane, s: nat, visited: seq<Cell>, i: int, j: int): Pixel
    requires s > 0 && 0 <= i < |mt| && 0 <= j < |mt[i]|
  {
    if CellOf(i, j, s) in visited then Gray(mt[i][j]) else base
  }

  ghost function Painted(base: Picture, mt: Plane, s: nat, visited: seq<Cell>, ht: nat, wd: nat): (p: Picture)
    requires IsGrid(base, ht, wd) && IsGrid(mt, ht, wd) && s > 0
    ensures IsGrid(p, ht, wd)
    ensures forall i, j :: 0 <= i < ht && 0 <= j < wd ==> p[i][j] == PaintedPixel(base[i][j], mt, s, visited, i, j)
  {
    seq(ht, i requires 0 <= i < ht => seq(wd, j requires 0 <= j < wd => PaintedPixel(base[i][j], mt, s, visited, i, j)))
  }

  /** A copy of `p` with the hand composited at (x, y). */
  ghost function Composite(p: Picture, hand: HandAsset, x: int, y: int, ht: nat, wd: nat): (f: Picture)
    requires IsGrid(p, ht, wd) && HandFits(hand)
    ensures IsGrid(f, ht, wd)
    ensures forall i, j :: 0 <= i < ht && 0 <= j < wd ==>
      f[i][j] == OverlayPixel(p[i][j], hand.sprite, hand.inv, x, y, hand.ht, hand.wd, ht, wd, i, j)
  {
    seq(ht, i requires 0 <= i < ht => seq(wd, j requires 0 <= j < wd =>
      OverlayPixel(p[i][j], hand.sprite, hand.inv, x, y, hand.ht, hand.wd, ht, wd, i, j)))
  }

  /** The picture of iteration `k` (from 0): cells tour[..k+1] painted, hand on tour[k]. */
  ghost function FrameAt(base: Picture, mt: Plane, s: nat, hand: HandAsset, tour: seq<Cell>, k: nat, ht: nat, wd: nat): Picture
    requires IsGrid(base, ht, wd) && IsGrid(mt, ht, wd) && s > 0 && HandFits(hand) && k < |tour|
  {
    Composite(Painted(base, mt, s, tour[..k + 1], ht, wd), hand, HandX(tour[k], s), HandY(tour[k], s), ht, wd)
  }

  /** The frames written during the first `n` iterations: one whenever the counter is a multiple of `skip`. */
  ghost function FramesUpTo(base: Picture, mt: Plane, s: nat, hand: HandAsset, tour: seq<Cell>, skip: int, n: nat, ht: nat, wd: nat): seq<Picture>
    requires IsGrid(base, ht, wd) && IsGrid(mt, ht, wd) && s > 0 && HandFits(hand) && n <= |tour|
    requires skip != 0 || n == 0
  {
    if n == 0 then []
    else FramesUpTo(base, mt, s, hand, tour, skip, n - 1, ht, wd)
         + (if n % skip == 0 then [FrameAt(base, mt, s, hand, tour, n - 1, ht, wd)] else [])
  }

  /** The frames a whole pass writes, starting from canvas `base`. */
  ghost function PassFrames(base: Picture, thresh: Plane, mask: Option<Plane>, hand: HandAsset, s: nat, skip: int, ht: nat, wd: nat): seq<Picture>
    requires IsGrid(base, ht, wd) && PassShape(thresh, mask, s, ht, wd) && HandFits(hand)
    requires skip != 0 || |PassCells(thresh, mask, s, ht, wd)| <= 1
  {
    var tour := PassTour(thresh, mask, s, ht, wd);
    FramesUpTo(base, MaskedThreshold(thresh, mask, ht, wd), s, hand, tour, skip, |tour|, ht, wd)
  }

  /** The canvas a whole pass leaves, starting from `base`. */
  ghost function PassCanvas(base: Picture, thresh: Plane, img: Picture, mask: Option<Plane>, s: nat, ht: nat, wd: nat): (p: Picture)
    requires IsGrid(base, ht, wd) && IsGrid(img, ht, wd) && PassShape(thresh, mask, s, ht, wd)
    ensures IsGrid(p, ht, wd)
  {
    var mt := MaskedThreshold(thresh, mask, ht, wd);
    var tour := PassTour(thresh, mask, s, ht, wd);
    seq(ht, i requires 0 <= i < ht => seq(wd, j requires 0 <= j < wd =>
      if Revealed(mask, i, j) then img[i][j] else PaintedPixel(base[i][j], mt, s, tour, i, j)))
  }

  /** Paint one cell's block of the canvas with its threshold samples in all three channels. */
  method PaintCell(canvas: array2<Pixel>, mt: Plane, v: Cell, s: nat, ht: nat, wd: nat)
    requires canvas.Length0 == ht && canvas.Length1 == wd && IsGrid(mt, ht, wd) && s > 0
    requires 0 <= v.row && 0 <= v.col && (v.row + 1) * s <= ht && (v.col + 1) * s <= wd
    modifies canvas
    ensures forall i, j :: 0 <= i < ht && 0 <= j < wd ==>
      canvas[i, j] == if CellOf(i, j, s) == v then Gray(mt[i][j]) else old(canvas[i, j])
  {
    var top, left := v.row * s, v.col * s;
    MulMono(0, v.row, s);
    MulMono(0, v.col, s);
    forall i, j | top <= i < top + s && left <= j < left + s {
      canvas[i, j] := Gray(mt[i][j]);
    }
    forall i, j | 0 <= i < ht && 0 <= j < wd
      ensures (CellOf(i, j, s) == v) == (top <= i < top + s && left <= j < left + s)
    {
      DivBlock(i, s, v.row);
      DivBlock(j, s, v.col);
    }
  }

  /** Copy the colour image into the canvas wherever the mask reveals it. */
  method Reveal(canvas: array2<Pixel>, img: Picture, mask: Option<Plane>, ht: nat, wd: nat)
    requires canvas.Length0 == ht && canvas.Length1 == wd && IsGrid(img, ht, wd)
    requires mask.Some? ==> IsGrid(mask.value, ht, wd)
    modifies canvas
    ensures forall i, j :: 0 <= i < ht && 0 <= j < wd ==>
      canvas[i, j] == if Revealed(mask, i, j) then img[i][j] else old(canvas[i, j])
  {
    forall i, j | 0 <= i < ht && 0 <= j < wd && Revealed(mask, i, j) {
      canvas[i, j] := img[i][j];
    }
  }

  lemma PaintedStep(base: Pixel, mt: Plane, s: nat, visited: seq<Cell>, v: Cell, i: int, j: int)
    requires s > 0 && 0 <= i < |mt| && 0 <= j < |mt[i]|
    ensures PaintedPixel(base, mt, s, visited + [v], i, j)
      == if CellOf(i, j, s) == v then Gray(mt[i][j]) else PaintedPixel(base, mt, s, visited, i, j)
  {
    assert CellOf(i, j, s) in visited + [v] <==> CellOf(i, j, s) in visited || CellOf(i, j, s) == v;
  }

  /** The snapshot of the composited copy is the frame the specification predicts. */
  lemma FrameMatches(frame: Picture, base: Picture, mt: Plane, s: nat, hand: HandAsset, tour: seq<Cell>, k: nat, ht: nat, wd: nat)
    requires IsGrid(base, ht, wd) && IsGrid(mt, ht, wd) && s > 0 && HandFits(hand) && k < |tour|
    requires IsGrid(frame, ht, wd)
    requires forall i, j :: 0 <= i < ht && 0 <= j < wd ==>
      frame[i][j] == OverlayPixel(PaintedPixel(base[i][j], mt, s, tour[..k + 1], i, j), hand.sprite, hand.inv,
                                  HandX(tour[k], s), HandY(tour[k], s), hand.ht, hand.wd, ht, wd, i, j)
    ensures frame == FrameAt(base, mt, s, hand, tour, k, ht, wd)
  {
    GridEq(frame, FrameAt(base, mt, s, hand, tour, k, ht, wd), ht, wd);
  }

  /**
   * One iteration's drawing: paint cell `v` into the canvas, then composite
   * the hand at the cell's middle onto a copy, leaving the canvas without it.
   */
  method DrawCell(canvas: array2<Pixel>, mt: Plane, v: Cell, s: nat, hand: HandAsset, ht: nat, wd: nat)
    returns (frame: array2<Pixel>)
    requires canvas.Length0 == ht && canvas.Length1 == wd && IsGrid(mt, ht, wd) && s > 0 && HandFits(hand)
    requires InGrid(v, ht / s, wd / s) && ht % s == 0 && wd % s == 0
    modifies canvas
    ensures fresh(frame) && frame.Length0 == ht && frame.Length1 == wd
    ensures forall i, j :: 0 <= i < ht && 0 <= j < wd ==>
      canvas[i, j] == if CellOf(i, j, s) == v then Gray(mt[i][j]) else old(canvas[i, j])
    ensures forall i, j :: 0 <= i < ht && 0 <= j < wd ==>
      frame[i, j] == OverlayPixel(canvas[i, j], hand.sprite, hand.inv, HandX(v, s), HandY(v, s), hand.ht, hand.wd, ht, wd, i, j)
  {
    DividesWitness(s, ht);
    DividesWitness(s, wd);
    CellFits(v, s, ht / s, wd / s);
    PaintCell(canvas, mt, v, s, ht, wd);
    frame := new Pixel[ht, wd]((i, j) requires 0 <= i < ht && 0 <= j < wd reads canvas => canvas[i, j]);
    HandInside(v, s, ht, wd);
    DrawHandOnImg(frame, hand.sprite, HandX(v, s), HandY(v, s), hand.inv, hand.ht, hand.wd, ht, wd);
  }

  /** DrawCell on a canvas that holds `base` with the cells `visited` painted: `v` joins them. */
  method VisitCell(canvas: array2<Pixel>, mt: Plane, v: Cell, s: nat, hand: HandAsset, ht: nat, wd: nat,
                   ghost base: Picture, ghost visited: seq<Cell>)
    returns (frame: array2<Pixel>)
    requires canvas.Length0 == ht && canvas.Length1 == wd && IsGrid(mt, ht, wd) && IsGrid(base, ht, wd) && s > 0 && HandFits(hand)
    requires InGrid(v, ht / s, wd / s) && ht % s == 0 && wd % s == 0
    requires forall i, j :: 0 <= i < ht && 0 <= j < wd ==> canvas[i, j] == PaintedPixel(base[i][j], mt, s, visited, i, j)
    modifies canvas
    ensures fresh(frame) && frame.Length0 == ht && frame.Length1 == wd
    ensures forall i, j :: 0 <= i < ht && 0 <= j < wd ==> canvas[i, j] == PaintedPixel(base[i][j], mt, s, visited + [v], i, j)
    ensures forall i, j :: 0 <= i < ht && 0 <= j < wd ==>
      frame[i, j] == OverlayPixel(canvas[i, j], hand.sprite, hand.inv, HandX(v, s), HandY(v, s), hand.ht, hand.wd, ht, wd, i, j)
  {
    frame := DrawCell(canvas, mt, v, s, hand, ht, wd);
    forall i, j | 0 <= i < ht && 0 <= j < wd ensures canvas[i, j] == PaintedPixel(base[i][j], mt, s, visited + [v], i, j) {
      PaintedStep(base[i][j], mt, s, visited, v, i, j);
    }
  }

  /** Write the composited frame to the video when the counter is a multiple of the skip rate. */
  method EmitFrame(writer: VideoWriter, frame: array2<Pixel>, canvas: array2<Pixel>, ghost base: Picture, ghost mt: Plane, s: nat,
                   hand: HandAsset, ghost tour: seq<Cell>, skipRate: int, counter: nat, ht: nat, wd: nat,
                   ghost frames0: seq<Picture>)
    requires IsGrid(base, ht, wd) && IsGrid(mt, ht, wd) && s > 0 && HandFits(hand)
    requires 0 < counter <= |tour| && skipRate != 0 && !writer.released
    requires writer.frames == frames0 + FramesUpTo(base, mt, s, hand, tour, skipRate, counter - 1, ht, wd)
    requires frame.Length0 == ht && frame.Length1 == wd && canvas.Length0 == ht && canvas.Length1 == wd
    requires forall i, j :: 0 <= i < ht && 0 <= j < wd ==> canvas[i, j] == PaintedPixel(base[i][j], mt, s, tour[..counter], i, j)
    requires forall i, j :: 0 <= i < ht && 0 <= j < wd ==>
      frame[i, j] == OverlayPixel(canvas[i, j], hand.sprite, hand.inv, HandX(tour[counter - 1], s), HandY(tour[counter - 1], s), hand.ht, hand.wd, ht, wd, i, j)
    modifies writer
    ensures writer.frames == frames0 + FramesUpTo(base, mt, s, hand, tour, skipRate, counter, ht, wd)
    ensures !writer.released
  {
    if counter % skipRate == 0 {
      FrameMatches(Snapshot(frame), base, mt, s, hand, tour, counter - 1, ht, wd);
      writer.Write(Snapshot(frame));
    }
  }

  /** The bookkeeping of one iteration: what is painted next and what remains. */
  lemma TourAdvance(tour: seq<Cell>, visited: seq<Cell>, cells: seq<Cell>, sel: nat, nr: int, nc: int)
    requires sel < |cells| && |cells| >= 2 && tour == visited + Tour(cells, sel)
    requires forall c :: c in cells ==> InGrid(c, nr, nc)
    ensures var rest := RemoveAt(cells, sel);
      && tour == (visited + [cells[sel]]) + Tour(rest, Successor(rest, cells[sel]))
      && tour[..|visited| + 1] == visited + [cells[sel]] && tour[|visited|] == cells[sel]
      && forall c :: c in rest ==> InGrid(c, nr, nc)
  {
    var rest := RemoveAt(cells, sel);
    TourStep(cells, sel);
    ExtendVisited(tour, visited, cells[sel], Tour(rest, Successor(rest, cells[sel])));
    RemoveAtWithin(cells, sel);
  }

  lemma ExtendVisited(tour: seq<Cell>, visited: seq<Cell>, v: Cell, t: seq<Cell>)
    requires tour == visited + ([v] + t)
    ensures tour == (visited + [v]) + t && tour[..|visited| + 1] == visited + [v] && tour[|visited|] == v
  {
    assert visited + ([v] + t) == (visited + [v]) + t;
  }

  /**
   * One iteration of the while loop of draw_masked_object: paint the selected
   * cell, write its frame on every `skipRate`-th cell, swap-remove the cell and
   * select its nearest successor.
   */
  method PaintNext(canvas: array2<Pixel>, writer: VideoWriter, mt: Plane, hand: HandAsset, s: nat, skipRate: int, ht: nat, wd: nat,
                   remaining: seq<Cell>, selectedInd: nat, counter: nat,
                   ghost base: Picture, ghost tour: seq<Cell>, ghost visited: seq<Cell>, ghost frames0: seq<Picture>)
    returns (remaining': seq<Cell>, selectedInd': nat, counter': nat)
    requires canvas.Length0 == ht && canvas.Length1 == wd && IsGrid(mt, ht, wd) && IsGrid(base, ht, wd) && HandFits(hand)
    requires s > 0 && ht % s == 0 && wd % s == 0 && skipRate != 0
    requires |remaining| > 1 && selectedInd < |remaining|
    requires forall c :: c in remaining ==> InGrid(c, ht / s, wd / s)
    requires tour == visited + Tour(remaining, selectedInd) && counter == |visited|
    requires forall i, j :: 0 <= i < ht && 0 <= j < wd ==> canvas[i, j] == PaintedPixel(base[i][j], mt, s, visited, i, j)
    requires writer.frames == frames0 + FramesUpTo(base, mt, s, hand, tour, skipRate, counter, ht, wd) && !writer.released
    modifies canvas, writer
    ensures remaining' == RemoveAt(remaining, selectedInd) && counter' == counter + 1
    ensures selectedInd' < |remaining'|
    ensures forall c :: c in remaining' ==> InGrid(c, ht / s, wd / s)
    ensures tour == (visited + [remaining[selectedInd]]) + Tour(remaining', selectedInd')
    ensures forall i, j :: 0 <= i < ht && 0 <= j < wd ==>
      canvas[i, j] == PaintedPixel(base[i][j], mt, s, visited + [remaining[selectedInd]], i, j)
    ensures writer.frames == frames0 + FramesUpTo(base, mt, s, hand, tour, skipRate, counter', ht, wd) && !writer.released
  {
    var v := remaining[selectedInd];
    var frame := VisitCell(canvas, mt, v, s, hand, ht, wd, base, visited);
    remaining' := remaining[selectedInd := remaining[|remaining| - 1]];
    remaining' := remaining'[..|remaining'| - 1];
    assert remaining' == RemoveAt(remaining, selectedInd);
    selectedInd' := Successor(remaining', v);
    counter' := counter + 1;
    TourAdvance(tour, visited, remaining, selectedInd, ht / s, wd / s);
    EmitFrame(writer, frame, canvas, base, mt, s, hand, tour, skipRate, counter', ht, wd, frames0);
  }

  /**
   * The while loop of draw_masked_object, from the list of active cells with
   * index 0 selected: it paints Tour(cells, 0) and writes its frames.
   */
  method PaintTour(canvas: array2<Pixel>, writer: VideoWriter, mt: Plane, cells: seq<Cell>, hand: HandAsset,
                   s: nat, skipRate: int, ht: nat, wd: nat)
    requires canvas.Length0 == ht && canvas.Length1 == wd && IsGrid(mt, ht, wd) && HandFits(hand)
    requires s > 0 && ht % s == 0 && wd % s == 0
    requires forall c :: c in cells ==> InGrid(c, ht / s, wd / s)
    requires skipRate != 0 || |cells| <= 1
    requires !writer.released
    modifies canvas, writer
    ensures forall i, j :: 0 <= i < ht && 0 <= j < wd ==>
      canvas[i, j] == PaintedPixel(old(canvas[i, j]), mt, s, Tour(cells, 0), i, j)
    ensures writer.frames == old(writer.frames) + FramesUpTo(old(Snapshot(canvas)), mt, s, hand, Tour(cells, 0), skipRate, |Tour(cells, 0)|, ht, wd)
    ensures !writer.released
  {
    ghost var base := Snapshot(canvas);
    ghost var tour := Tour(cells, 0);
    ghost var frames0 := writer.frames;
    ghost var visited: seq<Cell> := [];
    var remaining := cells;
    var selectedInd: nat := 0;
    var counter: nat := 0;
    while |remaining| > 1
      invariant remaining != [] ==> selectedInd < |remaining|
      invariant forall c :: c in remaining ==> InGrid(c, ht / s, wd / s)
      invariant tour == visited + Tour(remaining, selectedInd)
      invariant counter == |visited|
      invariant forall i, j :: 0 <= i < ht && 0 <= j < wd ==> canvas[i, j] == PaintedPixel(base[i][j], mt, s, visited, i, j)
      invariant writer.frames == frames0 + FramesUpTo(base, mt, s, hand, tour, skipRate, counter, ht, wd)
      invariant !writer.released
      decreases |remaining|
    {
      ghost var v := remaining[selectedInd];
      remaining, selectedInd, counter := PaintNext(canvas, writer, mt, hand, s, skipRate, ht, wd, remaining, selectedInd, counter,
                                                   base, tour, visited, frames0);
      visited := visited + [v];
    }
    assert visited == tour;
  }

  /**
   * draw_masked_object. A zero skip rate fails (the source divides by it)
   * as soon as the loop runs, that is when two or more cells hold ink.
   */
  method DrawMaskedObject(canvas: array2<Pixel>, writer: VideoWriter, thresh: Plane, img: Picture, hand: HandAsset,
                          mask: Option<Plane>, splitLen: nat, skipRate: int, ht: nat, wd: nat)
    returns (ok: bool)
    requires canvas.Length0 == ht && canvas.Length1 == wd
    requires PassShape(thresh, mask, splitLen, ht, wd) && IsGrid(img, ht, wd) && HandFits(hand)
    requires !writer.released
    modifies canvas, writer
    ensures ok <==> skipRate != 0 || |PassCells(thresh, mask, splitLen, ht, wd)| <= 1
    ensures ok ==> Snapshot(canvas) == PassCanvas(old(Snapshot(canvas)), thresh, img, mask, splitLen, ht, wd)
    ensures ok ==> writer.frames == old(writer.frames) + PassFrames(old(Snapshot(canvas)), thresh, mask, hand, splitLen, skipRate, ht, wd)
    ensures !ok ==> unchanged(canvas) && writer.frames == old(writer.frames)
    ensures !writer.released
  {
    var mt := MaskedThreshold(thresh, mask, ht, wd);
    var cells := PassCells(thresh, mask, splitLen, ht, wd);
    if skipRate == 0 && |cells| > 1 {
      return false;
    }
    PaintTour(canvas, writer, mt, cells, hand, splitLen, skipRate, ht, wd);
    ghost var painted := Snapshot(canvas);
    Reveal(canvas, img, mask, ht, wd);
    GridEq(Snapshot(canvas), PassCanvas(old(Snapshot(canvas)), thresh, img, mask, splitLen, ht, wd), ht, wd);
    return true;
  }

  /** One frame per multiple of |skip| among the counter values 1..n. */
  lemma {:induction false} FramesUpToCount(base: Picture, mt: Plane, s: nat, hand: HandAsset, tour: seq<Cell>, skip: int, n: nat, ht: nat, wd: nat)
    requires IsGrid(base, ht, wd) && IsGrid(mt, ht, wd) && s > 0 && HandFits(hand) && n <= |tour| && skip != 0
    ensures |FramesUpTo(base, mt, s, hand, tour, skip, n, ht, wd)| == n / (if skip < 0 then -skip else skip)
  {
    if n > 0 {
      FramesUpToCount(base, mt, s, hand, tour, skip, n - 1, ht, wd);
      DivStep(n, if skip < 0 then -skip else skip);
      ModNegDivisor(n, skip);
    }
  }

  /**
   * A pass over N active cells writes (N - 1) / |skip| frames, and none when
   * no cell holds ink.
   */
  lemma PassFrameCount(base: Picture, thresh: Plane, mask: Option<Plane>, hand: HandAsset, s: nat, skip: int, ht: nat, wd: nat)
    requires IsGrid(base, ht, wd) && PassShape(thresh, mask, s, ht, wd) && HandFits(hand)
    requires skip != 0
    ensures var n := |PassCells(thresh, mask, s, ht, wd)|;
      |PassFrames(base, thresh, mask, hand, s, skip, ht, wd)| == if n == 0 then 0 else (n - 1) / (if skip < 0 then -skip else skip)
  {
    var tour := PassTour(thresh, mask, s, ht, wd);
    FramesUpToCount(base, MaskedThreshold(thresh, mask, ht, wd), s, hand, tour, skip, |tour|, ht, wd);
  }

  /**
   * What a pass leaves at each pixel: the colour image inside the mask;
   * elsewhere the old pixel unless the pixel's cell was painted, and a painted
   * cell shows the threshold sample, or white where the mask is 0. A cell
   * without ink, and the one cell the loop leaves unpainted, keep their
   * pixels outside the mask.
   */
  lemma PassCanvasMeaning(base: Picture, thresh: Plane, img: Picture, mask: Option<Plane>, s: nat, ht: nat, wd: nat, i: nat, j: nat)
    requires IsGrid(base, ht, wd) && IsGrid(img, ht, wd) && PassShape(thresh, mask, s, ht, wd)
    requires i < ht && j < wd
    ensures var out := PassCanvas(base, thresh, img, mask, s, ht, wd)[i][j];
      var cells := PassCells(thresh, mask, s, ht, wd);
      var c := CellOf(i, j, s);
      && (Revealed(mask, i, j) ==> out == img[i][j])
      && (!Revealed(mask, i, j) && c in PassTour(thresh, mask, s, ht, wd) ==>
            out == if mask.Some? && mask.value[i][j] == 0 then White else Gray(thresh[i][j]))
      && (!Revealed(mask, i, j) && c !in cells ==> out == base[i][j])
      && (!Revealed(mask, i, j) && cells != [] && c == Leftover(cells, 0) ==> out == base[i][j])
  {
    var cells := PassCells(thresh, mask, s, ht, wd);
    var mt := MaskedThreshold(thresh, mask, ht, wd);
    DividesWitness(s, ht);
    DividesWitness(s, wd);
    ActiveCellsOrdered(mt, s, ht / s, wd / s);
    if cells != [] {
      TourWithin(cells, 0);
    }
  }
}
