/**
 * Resizing the canvas by dragging a corner handle: the new dimensions a drag asks for, the
 * anchored remap of the old artwork into the new grid, the repositioning of placed
 * components, and the reference-line clamping that follows.
 *
 * The copy of the old artwork follows the source's two branches. A resize that grows one axis
 * and shrinks the other takes the "expand" branch, which can compute a negative destination
 * column; the bounds check then has no lower bound, and such a cell wraps into the row above
 * (`ResizeWrapsAround`). The corrected copy adds the lower bound (`ResizeWritesEffect`).
 */
module Resize {
  import opened Wrappers
  import opened Grid
  import opened Components

  /** The four corner handles (`'top-left'`, ...); `None` stands for a `null` handle. */
  datatype Handle = TopLeft | TopRight | BottomLeft | BottomRight

  /** The largest width or height a drag may produce. */
  const MaxDimension: int := 480

  function Max(a: int, b: int): int { if a >= b then a else b }
  function Min(a: int, b: int): int { if a <= b then a else b }

  /** `Math.min(480, Math.max(1, v))` */
  function Clamp(v: int): (r: int)
    ensures 1 <= r <= MaxDimension
    ensures 1 <= v <= MaxDimension ==> r == v
    ensures v < 1 ==> r == 1
    ensures v > MaxDimension ==> r == MaxDimension
  {
    Min(MaxDimension, Max(1, v))
  }

  // ---------------------------------------------------------------- drag dimensions

  /** The dimensions before the final clamp: the switch over `resizeHandle`. */
  function DraggedRaw(handle: Option<Handle>, startW: int, startH: int, deltaCols: int, deltaRows: int): (int, int) {
    match handle
    case None => (startW, startH)
    case Some(TopLeft) => (Max(1, startW - deltaCols), Max(1, startH - deltaRows))
    case Some(TopRight) => (Max(1, startW + deltaCols), Max(1, startH - deltaRows))
    case Some(BottomLeft) => (Max(1, startW - deltaCols), Max(1, startH + deltaRows))
    case Some(BottomRight) => (Max(1, startW + deltaCols), Max(1, startH + deltaRows))
  }

  /** `handleResize`/`stopResize`: the width and height a drag of (deltaCols, deltaRows) cells asks for. */
  function DragDimensions(handle: Option<Handle>, startW: int, startH: int, deltaCols: int, deltaRows: int): (r: (int, int))
    ensures 1 <= r.0 <= MaxDimension && 1 <= r.1 <= MaxDimension
  {
    var raw := DraggedRaw(handle, startW, startH, deltaCols, deltaRows);
    (Clamp(raw.0), Clamp(raw.1))
  }

  /** Left handles grow the width when dragged left, right handles when dragged right. */
  function SignX(handle: Option<Handle>): int {
    match handle
    case None => 0
    case Some(TopLeft) => -1
    case Some(BottomLeft) => -1
    case Some(TopRight) => 1
    case Some(BottomRight) => 1
  }

  /** Top handles grow the height when dragged up, bottom handles when dragged down. */
  function SignY(handle: Option<Handle>): int {
    match handle
    case None => 0
    case Some(TopLeft) => -1
    case Some(TopRight) => -1
    case Some(BottomLeft) => 1
    case Some(BottomRight) => 1
  }

  /** Each axis is the start size moved by the drag in the handle's direction, clamped into [1, 480]. */
  lemma DragDimensionsSigned(handle: Option<Handle>, startW: int, startH: int, deltaCols: int, deltaRows: int)
    ensures DragDimensions(handle, startW, startH, deltaCols, deltaRows)
         == (Clamp(startW + SignX(handle) * deltaCols), Clamp(startH + SignY(handle) * deltaRows))
  {
  }

  /** A drag that stays inside [1, 480] gives exactly the start size plus the signed drag. */
  lemma DragDimensionsExact(handle: Option<Handle>, startW: int, startH: int, deltaCols: int, deltaRows: int)
    requires 1 <= startW + SignX(handle) * deltaCols <= MaxDimension
    requires 1 <= startH + SignY(handle) * deltaRows <= MaxDimension
    ensures DragDimensions(handle, startW, startH, deltaCols, deltaRows)
         == (startW + SignX(handle) * deltaCols, startH + SignY(handle) * deltaRows)
  {
    DragDimensionsSigned(handle, startW, startH, deltaCols, deltaRows);
  }

  // ---------------------------------------------------------------- content offset

  predicate IsLeft(handle: Option<Handle>) { handle == Some(TopLeft) || handle == Some(BottomLeft) }
  predicate IsTop(handle: Option<Handle>) { handle == Some(TopLeft) || handle == Some(TopRight) }

  /** Does `resizeCanvas` take its "expanding" branch? */
  predicate Expanding(oW: int, oH: int, nW: int, nH: int) { nW > oW || nH > oH }

  /** How far the drawing moves in `resizeCanvas`, as its two switches compute it (no `default`: a `null` handle moves nothing). */
  function ContentOffset(handle: Option<Handle>, oW: int, oH: int, nW: int, nH: int): (int, int) {
    if Expanding(oW, oH, nW, nH) then
      match handle
      case Some(TopLeft) => (nW - oW, nH - oH)
      case Some(TopRight) => (0, nH - oH)
      case Some(BottomLeft) => (nW - oW, 0)
      case _ => (0, 0)
    else
      match handle
      case Some(TopLeft) => (-(oW - nW), -(oH - nH))
      case Some(TopRight) => (0, -(oH - nH))
      case Some(BottomLeft) => (-(oW - nW), 0)
      case _ => (0, 0)
  }

  /** Both branches agree on one signed offset per axis: the size change for a handle on that side's far edge, else nothing. */
  lemma ContentOffsetUniform(handle: Option<Handle>, oW: int, oH: int, nW: int, nH: int)
    ensures ContentOffset(handle, oW, oH, nW, nH)
         == (if IsLeft(handle) then nW - oW else 0, if IsTop(handle) then nH - oH else 0)
  {
  }

  // ---------------------------------------------------------------- copy plan

  /** The source rectangle [sx, ex) x [sy, ey) of the old grid and the destination corner (dx, dy). */
  datatype CopyPlan = CopyPlan(sx: int, sy: int, ex: int, ey: int, dx: int, dy: int)

  /** The ranges `resizeCanvas` computes from the anchor: the whole grid moved when expanding, a cropped part at the origin when shrinking. */
  function ResizePlan(handle: Option<Handle>, oW: int, oH: int, nW: int, nH: int): CopyPlan {
    if Expanding(oW, oH, nW, nH) then
      match handle
      case Some(TopLeft) => CopyPlan(0, 0, oW, oH, nW - oW, nH - oH)
      case Some(TopRight) => CopyPlan(0, 0, oW, oH, 0, nH - oH)
      case Some(BottomLeft) => CopyPlan(0, 0, oW, oH, nW - oW, 0)
      case _ => CopyPlan(0, 0, oW, oH, 0, 0)
    else
      match handle
      case Some(TopLeft) => CopyPlan(Max(0, oW - nW), Max(0, oH - nH), oW, oH, 0, 0)
      case Some(TopRight) => CopyPlan(0, Max(0, oH - nH), Min(oW, nW), oH, 0, 0)
      case Some(BottomLeft) => CopyPlan(Max(0, oW - nW), 0, oW, Min(oH, nH), 0, 0)
      case _ => CopyPlan(0, 0, Min(oW, nW), Min(oH, nH), 0, 0)
  }

  /**
   * A plan that moves every cell by (ox, oy), reads only cells of the old grid, and whose
   * source rectangle holds every old cell whose moved position is on the new grid.
   */
  predicate PlanMoves(pl: CopyPlan, oW: int, oH: int, nW: int, nH: int, ox: int, oy: int) {
    pl.dx - pl.sx == ox && pl.dy - pl.sy == oy &&
    0 <= pl.sx && 0 <= pl.sy && pl.ex <= oW && pl.ey <= oH &&
    pl.sx <= Max(0, -ox) && Min(oW, nW - ox) <= pl.ex &&
    pl.sy <= Max(0, -oy) && Min(oH, nH - oy) <= pl.ey
  }

  /** Every anchor's copy plan moves the drawing by the content offset and covers all of it that stays on the canvas. */
  lemma ResizePlanShape(handle: Option<Handle>, oW: int, oH: int, nW: int, nH: int)
    requires oW >= 1 && oH >= 1 && nW >= 1 && nH >= 1
    ensures var off := ContentOffset(handle, oW, oH, nW, nH);
            PlanMoves(ResizePlan(handle, oW, oH, nW, nH), oW, oH, nW, nH, off.0, off.1)
  {
  }

  /** Without a mixed grow/shrink, the destination corner is never negative. */
  lemma ResizePlanNonNegative(handle: Option<Handle>, oW: int, oH: int, nW: int, nH: int)
    requires (nW >= oW && nH >= oH) || (nW <= oW && nH <= oH)
    ensures ResizePlan(handle, oW, oH, nW, nH).dx >= 0 && ResizePlan(handle, oW, oH, nW, nH).dy >= 0
  {
  }

  /** The iteration count of `for (i = 0; i < e - s; i++)`. */
  function Count(s: int, e: int): nat { if e >= s then e - s else 0 }

  /**
   * Iteration (lx, ly) of the copy loop: it copies old cell (sx + lx, sy + ly) to new cell
   * (dx + lx, dy + ly) when the bounds check passes and the old index exists. As written the
   * check only bounds the destination from above; `lowerBound` adds `destX >= 0 && destY >= 0`.
   */
  function CopyCell(pl: CopyPlan, prev: seq<Color>, oW: int, oH: int, nW: int, nH: int, lowerBound: bool, lx: int, ly: int): Option<PixelWrite> {
    var sourceX, sourceY := pl.sx + lx, pl.sy + ly;
    var destX, destY := pl.dx + lx, pl.dy + ly;
    if sourceX < oW && sourceY < oH && destX < nW && destY < nH && (lowerBound ==> 0 <= destX && 0 <= destY) then
      var oldIndex := Idx(sourceX, sourceY, oW);
      if 0 <= oldIndex < |prev| then Some(PixelWrite(Idx(destX, destY, nW), prev[oldIndex])) else None
    else None
  }

  function CopyFn(pl: CopyPlan, prev: seq<Color>, oW: int, oH: int, nW: int, nH: int, lowerBound: bool): (int, int) -> Option<PixelWrite> {
    (lx, ly) => CopyCell(pl, prev, oW, oH, nW, nH, lowerBound, lx, ly)
  }

  /** The rows of the copy loop. */
  function CopyRows(pl: CopyPlan): seq<nat> {
    Rect(Count(pl.sx, pl.ex), Count(pl.sy, pl.ey))
  }

  /** The writes of the copy loop into `newCanvasData`, in loop order. */
  function CopyWrites(prev: seq<Color>, handle: Option<Handle>, oW: int, oH: int, nW: int, nH: int, lowerBound: bool): seq<PixelWrite> {
    var pl := ResizePlan(handle, oW, oH, nW, nH);
    RowsWrites(CopyFn(pl, prev, oW, oH, nW, nH, lowerBound), CopyRows(pl))
  }

  /** Old cell (x, y), or the background when (x, y) is off the old grid. */
  function OldAt(prev: seq<Color>, oW: int, oH: int, x: int, y: int): Color
    requires |prev| == oW * oH
  {
    if 0 <= x < oW && 0 <= y < oH then
      IdxInRange(x, y, oW, oH);
      prev[Idx(x, y, oW)]
    else Black
  }

  /** The anchored remap: new cell (x, y) shows old cell (x - ox, y - oy), or the background where that is off the old grid. */
  function Resized(prev: seq<Color>, oW: int, oH: int, nW: nat, nH: nat, ox: int, oy: int): (r: seq<Color>)
    requires |prev| == oW * oH
    ensures |r| == nW * nH
  {
    if nW == 0 then []
    else seq(nW * nH, j requires 0 <= j < nW * nH => OldAt(prev, oW, oH, j % nW - ox, j / nW - oy))
  }

  /** The canvas `resizeCanvas` produces as written: an all-background grid with the copy loop's writes applied. */
  function ResizedAsWritten(prev: seq<Color>, handle: Option<Handle>, oW: int, oH: int, nW: nat, nH: nat): (r: seq<Color>)
    ensures |r| == nW * nH
  {
    ApplyWrites(Filled(nW * nH, Black), CopyWrites(prev, handle, oW, oH, nW, nH, false))
  }

  /** The corrected canvas: the copy loop with the lower bound in its check. */
  function ResizedCorrected(prev: seq<Color>, handle: Option<Handle>, oW: int, oH: int, nW: nat, nH: nat): (r: seq<Color>)
    ensures |r| == nW * nH
  {
    ApplyWrites(Filled(nW * nH, Black), CopyWrites(prev, handle, oW, oH, nW, nH, true))
  }

  /** A write of the corrected copy loop for any plan: destination on the new grid, source on the old one. */
  lemma CopyCellTarget(pl: CopyPlan, prev: seq<Color>, oW: int, oH: int, nW: int, nH: int, lx: int, ly: int)
    requires |prev| == oW * oH && 0 <= pl.sx && 0 <= pl.sy && 0 <= lx && 0 <= ly
    requires CopyCell(pl, prev, oW, oH, nW, nH, true, lx, ly).Some?
    ensures var pw := CopyCell(pl, prev, oW, oH, nW, nH, true, lx, ly).value;
            0 <= pl.dx + lx < nW && 0 <= pl.dy + ly < nH && pw.index == Idx(pl.dx + lx, pl.dy + ly, nW) &&
            0 <= pl.sx + lx < oW && 0 <= pl.sy + ly < oH && pw.color == OldAt(prev, oW, oH, pl.sx + lx, pl.sy + ly)
  {
  }

  /** The writes of the corrected copy loop for a plan. */
  function PlanWrites(pl: CopyPlan, prev: seq<Color>, oW: int, oH: int, nW: int, nH: int): seq<PixelWrite> {
    RowsWrites(CopyFn(pl, prev, oW, oH, nW, nH, true), CopyRows(pl))
  }

  /** Every corrected write that lands on new cell `j` carries old cell (x - ox, y - oy) of j's (x, y). */
  lemma PlanWriteAt(pl: CopyPlan, prev: seq<Color>, oW: int, oH: int, nW: int, nH: int, ox: int, oy: int, pw: PixelWrite, j: int)
    requires nW >= 1 && nH >= 1 && |prev| == oW * oH && PlanMoves(pl, oW, oH, nW, nH, ox, oy)
    requires pw in PlanWrites(pl, prev, oW, oH, nW, nH) && pw.index == j && 0 <= j < nW * nH
    ensures 0 <= j % nW - ox < oW && 0 <= j / nW - oy < oH && pw.color == OldAt(prev, oW, oH, j % nW - ox, j / nW - oy)
  {
    var f := CopyFn(pl, prev, oW, oH, nW, nH, true);
    RowsWritesFrom(f, CopyRows(pl), pw);
    var lx, ly :| 0 <= ly < |CopyRows(pl)| && 0 <= lx < CopyRows(pl)[ly] && f(lx, ly) == Some(pw);
    CopyCellTarget(pl, prev, oW, oH, nW, nH, lx, ly);
    var dX, dY := pl.dx + lx, pl.dy + ly;
    assert j == Idx(dX, dY, nW);
    IdxCoords(dX, dY, nW);
    assert j % nW - ox == pl.sx + lx && j / nW - oy == pl.sy + ly;
  }

  /** Every new cell whose source is on the old grid receives a corrected write of that source. */
  lemma PlanWriteExists(pl: CopyPlan, prev: seq<Color>, oW: int, oH: int, nW: int, nH: int, ox: int, oy: int, x: int, y: int)
    requires nW >= 1 && nH >= 1 && |prev| == oW * oH && PlanMoves(pl, oW, oH, nW, nH, ox, oy)
    requires 0 <= x < nW && 0 <= y < nH && 0 <= x - ox < oW && 0 <= y - oy < oH
    ensures PixelWrite(Idx(x, y, nW), OldAt(prev, oW, oH, x - ox, y - oy)) in PlanWrites(pl, prev, oW, oH, nW, nH)
  {
    var f := CopyFn(pl, prev, oW, oH, nW, nH, true);
    var lx, ly := x - ox - pl.sx, y - oy - pl.sy;
    IdxInRange(x - ox, y - oy, oW, oH);
    assert f(lx, ly) == Some(PixelWrite(Idx(x, y, nW), OldAt(prev, oW, oH, x - ox, y - oy)));
    RowsWritesHas(f, CopyRows(pl), lx, ly);
  }

  /** One new cell of the corrected copy. */
  lemma PlanCopyAt(pl: CopyPlan, prev: seq<Color>, oW: int, oH: int, nW: nat, nH: nat, ox: int, oy: int, j: int)
    requires nW >= 1 && nH >= 1 && |prev| == oW * oH && PlanMoves(pl, oW, oH, nW, nH, ox, oy)
    requires 0 <= j < nW * nH
    ensures ApplyWrites(Filled(nW * nH, Black), PlanWrites(pl, prev, oW, oH, nW, nH))[j] == Resized(prev, oW, oH, nW, nH, ox, oy)[j]
  {
    var ws := PlanWrites(pl, prev, oW, oH, nW, nH);
    IndexInRange(j, nW, nH);
    var x, y := j % nW, j / nW;
    var o := if 0 <= x - ox < oW && 0 <= y - oy < oH then Some(OldAt(prev, oW, oH, x - ox, y - oy)) else None;
    PlanWritesAt(pl, prev, oW, oH, nW, nH, ox, oy, j, o);
    var blank := Filled(nW * nH, Black);
    WritesPointwise(blank, ws, j, o);
    assert ApplyWrites(blank, ws)[j] == if o.Some? then o.value else blank[j];
    ResizedAt(prev, oW, oH, nW, nH, ox, oy, j);
  }

  /** Cell j of the anchored remap, spelt out. */
  lemma ResizedAt(prev: seq<Color>, oW: int, oH: int, nW: nat, nH: nat, ox: int, oy: int, j: int)
    requires nW >= 1 && |prev| == oW * oH && 0 <= j < nW * nH
    ensures Resized(prev, oW, oH, nW, nH, ox, oy)[j] == OldAt(prev, oW, oH, j % nW - ox, j / nW - oy)
  {
  }

  /** The writes aiming at new cell j all carry old cell (x - ox, y - oy), and one does when that cell is on the old grid. */
  lemma PlanWritesAt(pl: CopyPlan, prev: seq<Color>, oW: int, oH: int, nW: nat, nH: nat, ox: int, oy: int, j: int, o: Option<Color>)
    requires nW >= 1 && nH >= 1 && |prev| == oW * oH && PlanMoves(pl, oW, oH, nW, nH, ox, oy)
    requires 0 <= j < nW * nH
    requires o == if 0 <= j % nW - ox < oW && 0 <= j / nW - oy < oH then Some(OldAt(prev, oW, oH, j % nW - ox, j / nW - oy)) else None
    ensures forall pw | pw in PlanWrites(pl, prev, oW, oH, nW, nH) && pw.index == j :: o == Some(pw.color)
    ensures o.Some? ==> PixelWrite(j, o.value) in PlanWrites(pl, prev, oW, oH, nW, nH)
  {
    var ws := PlanWrites(pl, prev, oW, oH, nW, nH);
    IndexInRange(j, nW, nH);
    forall pw | pw in ws && pw.index == j
      ensures o == Some(pw.color)
    {
      PlanWriteAt(pl, prev, oW, oH, nW, nH, ox, oy, pw, j);
    }
    if o.Some? {
      IdxOfIndex(j, nW);
      PlanWriteExists(pl, prev, oW, oH, nW, nH, ox, oy, j % nW, j / nW);
    }
  }

  /** The corrected copy loop of a plan that moves by (ox, oy) is the anchored remap by (ox, oy). */
  lemma PlanCopyEffect(pl: CopyPlan, prev: seq<Color>, oW: int, oH: int, nW: nat, nH: nat, ox: int, oy: int)
    requires nW >= 1 && nH >= 1 && |prev| == oW * oH && PlanMoves(pl, oW, oH, nW, nH, ox, oy)
    ensures ApplyWrites(Filled(nW * nH, Black), PlanWrites(pl, prev, oW, oH, nW, nH)) == Resized(prev, oW, oH, nW, nH, ox, oy)
  {
    forall j | 0 <= j < nW * nH
      ensures ApplyWrites(Filled(nW * nH, Black), PlanWrites(pl, prev, oW, oH, nW, nH))[j] == Resized(prev, oW, oH, nW, nH, ox, oy)[j]
    {
      PlanCopyAt(pl, prev, oW, oH, nW, nH, ox, oy, j);
    }
  }

  /** The corrected copy is the anchored remap by the content offset. */
  lemma ResizeWritesEffect(prev: seq<Color>, handle: Option<Handle>, oW: int, oH: int, nW: nat, nH: nat)
    requires oW >= 1 && oH >= 1 && nW >= 1 && nH >= 1 && |prev| == oW * oH
    ensures var off := ContentOffset(handle, oW, oH, nW, nH);
            ResizedCorrected(prev, handle, oW, oH, nW, nH) == Resized(prev, oW, oH, nW, nH, off.0, off.1)
  {
    var off := ContentOffset(handle, oW, oH, nW, nH);
    ResizePlanShape(handle, oW, oH, nW, nH);
    PlanCopyEffect(ResizePlan(handle, oW, oH, nW, nH), prev, oW, oH, nW, nH, off.0, off.1);
  }

  /** When both axes grow or both shrink the missing lower bound never matters: the code as written is the remap. */
  lemma ResizeAsWrittenAgrees(prev: seq<Color>, handle: Option<Handle>, oW: int, oH: int, nW: nat, nH: nat)
    requires (nW >= oW && nH >= oH) || (nW <= oW && nH <= oH)
    ensures ResizedAsWritten(prev, handle, oW, oH, nW, nH) == ResizedCorrected(prev, handle, oW, oH, nW, nH)
  {
    var pl := ResizePlan(handle, oW, oH, nW, nH);
    ResizePlanNonNegative(handle, oW, oH, nW, nH);
    var f, g := CopyFn(pl, prev, oW, oH, nW, nH, false), CopyFn(pl, prev, oW, oH, nW, nH, true);
    forall x, y | 0 <= y < |CopyRows(pl)| && 0 <= x < CopyRows(pl)[y]
      ensures f(x, y) == g(x, y)
    {
    }
    RowsWritesCongruent(f, g, CopyRows(pl));
  }

  /**
   * A 2x1 canvas [a, b] dragged by its top-left handle to 1x2 grows in height and shrinks in
   * width. The cropped left cell `a` lands at destination column -1 of row 1, which is index 0:
   * it wraps into the top-left cell, which should be background.
   */
  lemma ResizeWrapsAround(a: Color, b: Color)
    ensures ResizedAsWritten([a, b], Some(TopLeft), 2, 1, 1, 2) == [a, b]
  {
    WrapWrites(a, b);
    TwoWrites(Filled(2, Black), PixelWrite(0, a), PixelWrite(1, b));
  }

  /** Writing cell 0 and then cell 1 of a two-cell grid leaves exactly those two colours. */
  lemma TwoWrites(s: seq<Color>, w0: PixelWrite, w1: PixelWrite)
    requires |s| == 2 && w0.index == 0 && w1.index == 1
    ensures ApplyWrites(s, [w0, w1]) == [w0.color, w1.color]
  {
    ApplyWritesOne(s, [], w0);
    ApplyWritesOne(s, [w0], w1);
    assert [w0] + [w1] == [w0, w1];
    var s2 := Write(Write(s, 0, w0.color), 1, w1.color);
    assert ApplyWrites(s, [w0, w1]) == s2;
    assert |s2| == 2 && s2[0] == w0.color && s2[1] == w1.color;
  }

  /** The copy loop as written, for that drag: the cropped cell goes to index 0, the kept one to index 1. */
  lemma WrapWrites(a: Color, b: Color)
    ensures CopyWrites([a, b], Some(TopLeft), 2, 1, 1, 2, false) == [PixelWrite(0, a), PixelWrite(1, b)]
  {
    var pl := ResizePlan(Some(TopLeft), 2, 1, 1, 2);
    assert pl == CopyPlan(0, 0, 2, 1, -1, 1);
    assert CopyRows(pl) == [2];
    var f := CopyFn(pl, [a, b], 2, 1, 1, 2, false);
    WrapRow(a, b);
    assert RowsWrites(f, [2]) == RowsWrites(f, []) + RowWrites(f, 0, 2);
  }

  /** The one row of that copy loop. */
  lemma WrapRow(a: Color, b: Color)
    ensures RowWrites(CopyFn(CopyPlan(0, 0, 2, 1, -1, 1), [a, b], 2, 1, 1, 2, false), 0, 2) == [PixelWrite(0, a), PixelWrite(1, b)]
  {
    WrapCells(a, b);
    RowOfTwo(CopyFn(CopyPlan(0, 0, 2, 1, -1, 1), [a, b], 2, 1, 1, 2, false), PixelWrite(0, a), PixelWrite(1, b));
  }

  /** Both iterations of that row write. */
  lemma WrapCells(a: Color, b: Color)
    ensures var f := CopyFn(CopyPlan(0, 0, 2, 1, -1, 1), [a, b], 2, 1, 1, 2, false);
            f(0, 0) == Some(PixelWrite(0, a)) && f(1, 0) == Some(PixelWrite(1, b))
  {
    WrapCell([a, b], 0);
    WrapCell([a, b], 1);
  }

  /** A row of two iterations that both write. */
  lemma RowOfTwo(f: (int, int) -> Option<PixelWrite>, w0: PixelWrite, w1: PixelWrite)
    requires f(0, 0) == Some(w0) && f(1, 0) == Some(w1)
    ensures RowWrites(f, 0, 2) == [w0, w1]
  {
    RowWritesTwo(f, 0);
    assert OptionWrite(f(0, 0)) == [w0];
    assert OptionWrite(f(1, 0)) == [w1];
    assert [w0] + [w1] == [w0, w1];
  }

  /** A row of two iterations. */
  lemma RowWritesTwo(f: (int, int) -> Option<PixelWrite>, y: int)
    ensures RowWrites(f, y, 2) == OptionWrite(f(0, y)) + OptionWrite(f(1, y))
  {
    RowWritesStep(f, y, 0);
    RowWritesStep(f, y, 1);
    assert RowWrites(f, y, 0) == [];
  }

  /** Iteration (lx, 0) of that copy loop writes old cell lx to new index lx. */
  lemma WrapCell(prev: seq<Color>, lx: int)
    requires |prev| == 2 && (lx == 0 || lx == 1)
    ensures CopyCell(CopyPlan(0, 0, 2, 1, -1, 1), prev, 2, 1, 1, 2, false, lx, 0) == Some(PixelWrite(lx, prev[lx]))
  {
    var pl := CopyPlan(0, 0, 2, 1, -1, 1);
    if lx == 0 {
      assert CopyCell(pl, prev, 2, 1, 1, 2, false, 0, 0) == Some(PixelWrite(0, prev[0]));
    } else {
      assert CopyCell(pl, prev, 2, 1, 1, 2, false, 1, 0) == Some(PixelWrite(1, prev[1]));
    }
  }

  /** The corrected copy of the same drag leaves that cell as background. */
  lemma ResizeCorrectedClearsCorner(a: Color, b: Color)
    ensures ResizedCorrected([a, b], Some(TopLeft), 2, 1, 1, 2) == [Black, b]
  {
    var prev := [a, b];
    ResizeWritesEffect(prev, Some(TopLeft), 2, 1, 1, 2);
    assert ContentOffset(Some(TopLeft), 2, 1, 1, 2) == (-1, 1);
    var r := Resized(prev, 2, 1, 1, 2, -1, 1);
    assert r[0] == OldAt(prev, 2, 1, 1, -1) == Black;
    assert r[1] == OldAt(prev, 2, 1, 1, 0) == b;
  }

  /** So whenever the cropped cell is not background, the code as written and the corrected copy differ. */
  lemma ResizeAsWrittenDiffers(a: Color, b: Color)
    requires a != Black
    ensures ResizedAsWritten([a, b], Some(TopLeft), 2, 1, 1, 2) != ResizedCorrected([a, b], Some(TopLeft), 2, 1, 1, 2)
  {
    ResizeWrapsAround(a, b);
    ResizeCorrectedClearsCorner(a, b);
    assert [a, b][0] != [Black, b][0];
  }

  // ---------------------------------------------------------------- component repositioning

  /** The new corner `handleComponentRepositioning` gives a component: it moves only along an axis that grows, and only for a handle on that side. */
  function MovedCorner(c: Placed, handle: Option<Handle>, oW: int, oH: int, nW: int, nH: int): (r: (nat, nat))
    ensures r.0 == c.x + (if IsLeft(handle) && nW > oW then nW - oW else 0)
    ensures r.1 == c.y + (if IsTop(handle) && nH > oH then nH - oH else 0)
  {
    match handle
    case Some(TopLeft) => (if nW > oW then c.x + (nW - oW) else c.x, if nH > oH then c.y + (nH - oH) else c.y)
    case Some(TopRight) => (c.x, if nH > oH then c.y + (nH - oH) else c.y)
    case Some(BottomLeft) => (if nW > oW then c.x + (nW - oW) else c.x, c.y)
    case _ => (c.x, c.y)
  }

  /** The component still fits the new canvas at its new corner. */
  predicate FitsAfter(c: Placed, handle: Option<Handle>, oW: int, oH: int, nW: int, nH: int) {
    var p := MovedCorner(c, handle, oW, oH, nW, nH);
    p.0 + c.design.width <= nW && p.1 + c.design.height <= nH
  }

  /** The component at its new corner. */
  function Moved(c: Placed, handle: Option<Handle>, oW: int, oH: int, nW: int, nH: int): Placed {
    var p := MovedCorner(c, handle, oW, oH, nW, nH);
    c.(x := p.0, y := p.1)
  }

  /**
   * `placedComponents.forEach(...)` as written, from element `k` on: a component that no longer
   * fits is spliced out of the array being iterated, so the element that slides into its
   * place is never visited.
   */
  function RepositionFrom(comps: seq<Placed>, k: nat, handle: Option<Handle>, oW: int, oH: int, nW: int, nH: int): (r: seq<Placed>)
    ensures |r| <= |comps|
    decreases |comps| - k
  {
    if k >= |comps| then comps
    else
      var c := comps[k];
      if !FitsAfter(c, handle, oW, oH, nW, nH) then
        // `findIndex` by id always succeeds here: the component itself is still in the array
        var i := IndexOfId(comps, c.id);
        assert i != -1;
        RepositionFrom(RemoveAt(comps, i), k + 1, handle, oW, oH, nW, nH)
      else RepositionFrom(comps[k := Moved(c, handle, oW, oH, nW, nH)], k + 1, handle, oW, oH, nW, nH)
  }

  /** `handleComponentRepositioning` as written. */
  function RepositionedAsWritten(comps: seq<Placed>, handle: Option<Handle>, oW: int, oH: int, nW: int, nH: int): (r: seq<Placed>)
    ensures |r| <= |comps|
  {
    RepositionFrom(comps, 0, handle, oW, oH, nW, nH)
  }

  /** The corrected repositioning: every component that fits is moved, every other one removed, in list order. */
  function Repositioned(comps: seq<Placed>, handle: Option<Handle>, oW: int, oH: int, nW: int, nH: int): (r: seq<Placed>)
    ensures |r| <= |comps|
    decreases |comps|
  {
    if comps == [] then []
    else
      var rest := Repositioned(comps[1..], handle, oW, oH, nW, nH);
      if FitsAfter(comps[0], handle, oW, oH, nW, nH) then [Moved(comps[0], handle, oW, oH, nW, nH)] + rest else rest
  }

  /** After the corrected repositioning every component lies inside the new canvas, and each is a moved original. */
  lemma {:induction false} RepositionedFits(comps: seq<Placed>, handle: Option<Handle>, oW: int, oH: int, nW: int, nH: int)
    ensures forall c | c in Repositioned(comps, handle, oW, oH, nW, nH) ::
              c.x + c.design.width <= nW && c.y + c.design.height <= nH &&
              exists d | d in comps :: FitsAfter(d, handle, oW, oH, nW, nH) && c == Moved(d, handle, oW, oH, nW, nH)
    decreases |comps|
  {
    if comps != [] {
      RepositionedFits(comps[1..], handle, oW, oH, nW, nH);
      forall c | c in Repositioned(comps, handle, oW, oH, nW, nH)
        ensures exists d | d in comps :: FitsAfter(d, handle, oW, oH, nW, nH) && c == Moved(d, handle, oW, oH, nW, nH)
      {
        if c !in Repositioned(comps[1..], handle, oW, oH, nW, nH) {
          assert FitsAfter(comps[0], handle, oW, oH, nW, nH) && c == Moved(comps[0], handle, oW, oH, nW, nH);
        } else {
          var d :| d in comps[1..] && FitsAfter(d, handle, oW, oH, nW, nH) && c == Moved(d, handle, oW, oH, nW, nH);
          assert d in comps;
        }
      }
    }
  }

  /** No component that fits is lost by the corrected repositioning. */
  lemma {:induction false} RepositionedKeeps(comps: seq<Placed>, handle: Option<Handle>, oW: int, oH: int, nW: int, nH: int, d: Placed)
    requires d in comps && FitsAfter(d, handle, oW, oH, nW, nH)
    ensures Moved(d, handle, oW, oH, nW, nH) in Repositioned(comps, handle, oW, oH, nW, nH)
    decreases |comps|
  {
    if comps[0] != d {
      RepositionedKeeps(comps[1..], handle, oW, oH, nW, nH, d);
    }
  }

  /** Repositioning a list with one more component at the end adds that component's outcome at the end. */
  lemma {:induction false} RepositionedSnoc(comps: seq<Placed>, c: Placed, handle: Option<Handle>, oW: int, oH: int, nW: int, nH: int)
    ensures Repositioned(comps + [c], handle, oW, oH, nW, nH)
         == Repositioned(comps, handle, oW, oH, nW, nH) + (if FitsAfter(c, handle, oW, oH, nW, nH) then [Moved(c, handle, oW, oH, nW, nH)] else [])
    decreases |comps|
  {
    if comps == [] {
      assert ([] + [c])[1..] == [];
    } else {
      assert (comps + [c])[1..] == comps[1..] + [c];
      RepositionedSnoc(comps[1..], c, handle, oW, oH, nW, nH);
    }
  }

  /** The forEach as written from element `k`, when nothing from `k` on is removed, only moves components. */
  lemma {:induction false} RepositionFromAllFit(comps: seq<Placed>, k: nat, handle: Option<Handle>, oW: int, oH: int, nW: int, nH: int)
    requires k <= |comps|
    requires forall i | k <= i < |comps| :: FitsAfter(comps[i], handle, oW, oH, nW, nH)
    ensures RepositionFrom(comps, k, handle, oW, oH, nW, nH)
         == comps[..k] + Repositioned(comps[k..], handle, oW, oH, nW, nH)
    decreases |comps| - k
  {
    if k == |comps| {
      assert comps[k..] == [];
    } else {
      var c := comps[k];
      var comps' := comps[k := Moved(c, handle, oW, oH, nW, nH)];
      RepositionFromAllFit(comps', k + 1, handle, oW, oH, nW, nH);
      assert comps'[k + 1..] == comps[k + 1..];
      assert comps[k..][1..] == comps[k + 1..];
      assert comps'[..k + 1] == comps[..k] + [Moved(c, handle, oW, oH, nW, nH)];
    }
  }

  /** When every component still fits, the code as written agrees with the corrected repositioning. */
  lemma RepositionAllFit(comps: seq<Placed>, handle: Option<Handle>, oW: int, oH: int, nW: int, nH: int)
    requires forall i | 0 <= i < |comps| :: FitsAfter(comps[i], handle, oW, oH, nW, nH)
    ensures RepositionedAsWritten(comps, handle, oW, oH, nW, nH) == Repositioned(comps, handle, oW, oH, nW, nH)
  {
    RepositionFromAllFit(comps, 0, handle, oW, oH, nW, nH);
    assert comps[0..] == comps;
  }

  /** A resize as written gives the corrected result whenever both axes grow or both shrink, and whenever every component still fits. */
  lemma ResizeAsWrittenWhereAgreeing(prev: seq<Color>, comps: seq<Placed>, handle: Option<Handle>, oW: int, oH: int, nW: nat, nH: nat)
    requires oW >= 1 && oH >= 1 && nW >= 1 && nH >= 1 && |prev| == oW * oH
    ensures var off := ContentOffset(handle, oW, oH, nW, nH);
            (nW >= oW && nH >= oH) || (nW <= oW && nH <= oH) ==>
              ResizedAsWritten(prev, handle, oW, oH, nW, nH) == Resized(prev, oW, oH, nW, nH, off.0, off.1)
    ensures (forall i | 0 <= i < |comps| :: FitsAfter(comps[i], handle, oW, oH, nW, nH)) ==>
              RepositionedAsWritten(comps, handle, oW, oH, nW, nH) == Repositioned(comps, handle, oW, oH, nW, nH)
  {
    ResizeWritesEffect(prev, handle, oW, oH, nW, nH);
    if (nW >= oW && nH >= oH) || (nW <= oW && nH <= oH) {
      ResizeAsWrittenAgrees(prev, handle, oW, oH, nW, nH);
    }
    if forall i | 0 <= i < |comps| :: FitsAfter(comps[i], handle, oW, oH, nW, nH) {
      RepositionAllFit(comps, handle, oW, oH, nW, nH);
    }
  }

  /**
   * Two adjacent components that no longer fit a shrunk canvas: the first is spliced out, the
   * second slides into its slot, is skipped, and survives although it does not fit.
   */
  lemma RepositionSkipsAfterSplice()
    ensures var a, b := Placed(Template("a", 2, 2, []), 2, 0, 1), Placed(Template("b", 2, 2, []), 2, 2, 2);
            RepositionedAsWritten([a, b], Some(BottomRight), 4, 4, 3, 3) == [b] &&
            Repositioned([a, b], Some(BottomRight), 4, 4, 3, 3) == [] &&
            !FitsAfter(b, Some(BottomRight), 4, 4, 3, 3)
  {
    var a, b := Placed(Template("a", 2, 2, []), 2, 0, 1), Placed(Template("b", 2, 2, []), 2, 2, 2);
    assert IndexOfId([a, b], 1) == 0;
    assert RemoveAt([a, b], 0) == [b];
    assert RepositionFrom([b], 1, Some(BottomRight), 4, 4, 3, 3) == [b];
  }

  // ---------------------------------------------------------------- reference lines

  /** Where `drawReferenceLines` draws a line stored at `v` on an axis of `dim` cells, and whether it is dimmed. */
  function DisplayedLine(v: int, dim: int): (r: (int, bool))
    ensures 0 <= v < dim ==> r == (v, false)
    ensures v < 0 ==> r == (0, true)
    ensures v >= dim && v >= 0 ==> r == (dim - 1, true)
    ensures r.1 <==> !(0 <= v < dim)
  {
    if v < 0 then (0, true)
    else if v >= dim then (dim - 1, true)
    else (v, false)
  }

  /** A dimmed line is drawn on the edge cell nearest to where it is stored. */
  lemma DisplayedLineOnCanvas(v: int, dim: int)
    requires dim >= 1
    ensures 0 <= DisplayedLine(v, dim).0 < dim
    ensures DisplayedLine(v, dim).0 == Max(0, Min(dim - 1, v))
  {
  }

  /** The position a visible line takes after a resize: moved with the drawing, then clamped into the new axis. */
  function Reclamped(v: int, offset: int, dim: int): (r: int)
    ensures dim >= 1 ==> 0 <= r < dim
    ensures 0 <= v + offset < dim ==> r == v + offset
  {
    Max(0, Min(dim - 1, v + offset))
  }
}
