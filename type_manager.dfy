/**
 * The type tool: text typed from a font onto the canvas, either all at once at a clicked cell or
 * key by key at a text cursor that the arrow keys, Enter and Backspace move.
 */
module TypeManager {
  import opened Wrappers
  import opened JsText
  import opened Grid
  import opened Fonts
  import CanvasManager

  /** JavaScript's `a % w` for a positive `w`: the sign follows the dividend. */
  function JsRem(a: int, w: int): (r: int)
    requires w > 0
    ensures -w < r < w
    ensures a >= 0 ==> r == a % w
    ensures a < 0 ==> r <= 0
  {
    if a >= 0 then a % w else -((-a) % w)
  }

  // ---------------------------------------------------------------- patches

  /** Cells to paint relative to an origin, row by row; `None` is a cell the loop skips. */
  type Patch = seq<seq<Option<Color>>>

  /** A glyph's cells: `'#000000'` cells are skipped by the drawing loops. */
  function GlyphInk(glyph: Rows): (cells: Patch)
    ensures |cells| == |glyph| && forall y | 0 <= y < |glyph| :: |cells[y]| == |glyph[y]|
  {
    seq(|glyph|, y requires 0 <= y < |glyph| =>
      seq(|glyph[y]|, x requires 0 <= x < |glyph[y]| => if glyph[y][x] != Black then Some(glyph[y][x]) else None))
  }

  /** The character area Backspace clears. */
  const AreaSize := 16

  function BlankArea(): (cells: Patch)
    ensures |cells| == AreaSize && forall y | 0 <= y < AreaSize :: |cells[y]| == AreaSize
  {
    seq(AreaSize, y => seq(AreaSize, x => Some(Black)))
  }

  /** Iteration (x, y) of a drawing loop at origin (x0, y0): a write when the cell is kept and `pixelX < w && pixelY < h`. */
  function PatchCell(cells: Patch, w: int, h: int, x0: int, y0: int, x: int, y: int): Option<PixelWrite> {
    if 0 <= y < |cells| && 0 <= x < |cells[y]| && cells[y][x].Some? && x0 + x < w && y0 + y < h
    then Some(PixelWrite(Idx(x0 + x, y0 + y, w), cells[y][x].value))
    else None
  }

  function PatchFn(cells: Patch, w: int, h: int, x0: int, y0: int): (int, int) -> Option<PixelWrite> {
    (x, y) => PatchCell(cells, w, h, x0, y0, x, y)
  }

  function Widths(cells: Patch): (r: seq<nat>)
    ensures |r| == |cells| && forall y | 0 <= y < |cells| :: r[y] == |cells[y]|
  {
    seq(|cells|, y requires 0 <= y < |cells| => |cells[y]|)
  }

  /** The writes of the two drawing loops, in loop order. */
  function PatchWrites(cells: Patch, w: int, h: int, x0: int, y0: int): seq<PixelWrite> {
    RowsWrites(PatchFn(cells, w, h, x0, y0), Widths(cells))
  }

  /** The patch cell over canvas cell `j`, for an origin at a non-negative column. */
  function CellOver(cells: Patch, w: int, x0: int, y0: int, j: int): Option<Color>
    requires w > 0
  {
    var x, y := j % w - x0, j / w - y0;
    if 0 <= y < |cells| && 0 <= x < |cells[y]| then cells[y][x] else None
  }

  /** The canvas with the patch laid over it, cell by cell. */
  function Patched(p: seq<Color>, w: int, cells: Patch, x0: int, y0: int): (r: seq<Color>)
    requires w > 0
    ensures |r| == |p|
  {
    seq(|p|, j requires 0 <= j < |p| => var o := CellOver(cells, w, x0, y0, j); if o.Some? then o.value else p[j])
  }

  /** The grid after the writes of row `y` of a patch. */
  function PatchedRow(p: seq<Color>, cells: Patch, w: int, h: int, x0: int, y0: int, y: nat): (r: seq<Color>)
    requires y < |cells|
    ensures |r| == |p|
  {
    ApplyWrites(p, RowWrites(PatchFn(cells, w, h, x0, y0), y, |cells[y]|))
  }

  /** The grid after the first `n` iterations over row `y` of a patch, one cell at a time. */
  function RowPrefix(p: seq<Color>, cells: Patch, w: int, h: int, x0: int, y0: int, y: nat, n: nat): seq<Color>
    requires y < |cells| && n <= |cells[y]|
  {
    if n == 0 then p
    else
      var g := RowPrefix(p, cells, w, h, x0, y0, y, n - 1);
      var o := PatchCell(cells, w, h, x0, y0, n - 1, y);
      if o.Some? then Write(g, o.value.index, o.value.color) else g
  }

  /** Cell by cell, a row of the loop applies exactly that row's writes. */
  lemma {:induction false} RowPrefixWrites(p: seq<Color>, cells: Patch, w: int, h: int, x0: int, y0: int, y: nat, n: nat)
    requires y < |cells| && n <= |cells[y]|
    ensures RowPrefix(p, cells, w, h, x0, y0, y, n) == ApplyWrites(p, RowWrites(PatchFn(cells, w, h, x0, y0), y, n))
    decreases n
  {
    if n > 0 {
      RowPrefixWrites(p, cells, w, h, x0, y0, y, n - 1);
      PatchCellStep(p, cells, w, h, x0, y0, y, n);
    }
  }

  /** The loop over row `y` of a patch, on the grid's colours. */
  method PatchRowCells(p: seq<Color>, cells: Patch, w: int, h: int, x0: int, y0: int, y: nat) returns (q: seq<Color>)
    requires y < |cells|
    ensures q == PatchedRow(p, cells, w, h, x0, y0, y)
  {
    q := p;
    var x := 0;
    while x < |cells[y]|
      invariant 0 <= x <= |cells[y]|
      invariant q == RowPrefix(p, cells, w, h, x0, y0, y, x)
    {
      var pixelX, pixelY := x0 + x, y0 + y;
      if cells[y][x].Some? && pixelX < w && pixelY < h {
        q := Write(q, Idx(pixelX, pixelY, w), cells[y][x].value);
      }
      x := x + 1;
    }
    RowPrefixWrites(p, cells, w, h, x0, y0, y, |cells[y]|);
  }

  /** One more iteration of a patch row applies that cell's write, if it is kept and on the canvas. */
  lemma PatchCellStep(p: seq<Color>, cells: Patch, w: int, h: int, x0: int, y0: int, y: nat, n: nat)
    requires y < |cells| && 0 < n <= |cells[y]|
    ensures var f := PatchFn(cells, w, h, x0, y0);
            var before := ApplyWrites(p, RowWrites(f, y, n - 1));
            var o := PatchCell(cells, w, h, x0, y0, n - 1, y);
            ApplyWrites(p, RowWrites(f, y, n)) == if o.Some? then Write(before, o.value.index, o.value.color) else before
  {
    var f := PatchFn(cells, w, h, x0, y0);
    var x := n - 1;
    RowWritesApplyStep(p, f, y, x);
    assert x + 1 == n;
    assert f(x, y) == PatchCell(cells, w, h, x0, y0, x, y);
  }

  /** Every write of a patch loop aims at the canvas cell under its patch cell, with that cell's colour. */
  lemma PatchWriteTarget(cells: Patch, w: int, h: int, x0: int, y0: int, pw: PixelWrite, j: int)
    requires w > 0 && x0 >= 0 && 0 <= j && pw.index == j
    requires pw in PatchWrites(cells, w, h, x0, y0)
    ensures CellOver(cells, w, x0, y0, j) == Some(pw.color)
  {
    var f := PatchFn(cells, w, h, x0, y0);
    RowsWritesFrom(f, Widths(cells), pw);
    var x, y :| 0 <= y < |cells| && 0 <= x < Widths(cells)[y] && f(x, y) == Some(pw);
    assert PatchCell(cells, w, h, x0, y0, x, y) == Some(pw);
    IdxCoords(x0 + x, y0 + y, w);
  }

  /** Every canvas cell under a kept patch cell gets a write. */
  lemma PatchWriteExists(cells: Patch, w: int, h: int, x0: int, y0: int, j: int)
    requires w > 0 && h > 0 && 0 <= j < w * h
    requires CellOver(cells, w, x0, y0, j).Some?
    ensures PixelWrite(j, CellOver(cells, w, x0, y0, j).value) in PatchWrites(cells, w, h, x0, y0)
  {
    var f := PatchFn(cells, w, h, x0, y0);
    IndexInRange(j, w, h);
    IdxOfIndex(j, w);
    var x, y := j % w - x0, j / w - y0;
    assert PatchCell(cells, w, h, x0, y0, x, y) == Some(PixelWrite(j, CellOver(cells, w, x0, y0, j).value));
    assert f(x, y) == PatchCell(cells, w, h, x0, y0, x, y);
    RowsWritesHas(f, Widths(cells), x, y);
  }

  lemma PatchAt(p: seq<Color>, w: int, h: int, cells: Patch, x0: int, y0: int, j: int)
    requires w > 0 && h > 0 && |p| == w * h && x0 >= 0 && 0 <= j < |p|
    ensures ApplyWrites(p, PatchWrites(cells, w, h, x0, y0))[j] == Patched(p, w, cells, x0, y0)[j]
  {
    var ws := PatchWrites(cells, w, h, x0, y0);
    var o := CellOver(cells, w, x0, y0, j);
    forall pw | pw in ws && pw.index == j
      ensures o == Some(pw.color)
    {
      PatchWriteTarget(cells, w, h, x0, y0, pw, j);
    }
    if o.Some? {
      PatchWriteExists(cells, w, h, x0, y0, j);
    }
    WritesPointwise(p, ws, j, o);
  }

  /**
   * From an origin at a non-negative column, the drawing loops paint exactly the canvas cells
   * under kept patch cells, each with its patch colour, and leave every other cell alone.
   */
  lemma PatchEffect(p: seq<Color>, w: int, h: int, cells: Patch, x0: int, y0: int)
    requires w > 0 && h > 0 && |p| == w * h && x0 >= 0
    ensures ApplyWrites(p, PatchWrites(cells, w, h, x0, y0)) == Patched(p, w, cells, x0, y0)
  {
    forall j | 0 <= j < |p|
      ensures ApplyWrites(p, PatchWrites(cells, w, h, x0, y0))[j] == Patched(p, w, cells, x0, y0)[j]
    {
      PatchAt(p, w, h, cells, x0, y0, j);
    }
  }

  /** A glyph stamped at a cell puts each of its non-black cells on the canvas, and nothing else. */
  lemma StampedGlyph(p: seq<Color>, w: int, h: int, glyph: Rows, x0: int, y0: int, j: int)
    requires w > 0 && h > 0 && |p| == w * h && 0 <= x0 && 0 <= j < |p|
    ensures ApplyWrites(p, PatchWrites(GlyphInk(glyph), w, h, x0, y0))[j]
         == var x, y := j % w - x0, j / w - y0;
            if 0 <= y < |glyph| && 0 <= x < |glyph[y]| && glyph[y][x] != Black then glyph[y][x] else p[j]
  {
    var cells := GlyphInk(glyph);
    PatchAt(p, w, h, cells, x0, y0, j);
    var o := CellOver(cells, w, x0, y0, j);
    assert Patched(p, w, cells, x0, y0)[j] == if o.Some? then o.value else p[j];
    var x, y := j % w - x0, j / w - y0;
    if 0 <= y < |glyph| && 0 <= x < |glyph[y]| {
      assert o == cells[y][x];
    } else {
      assert o.None?;
    }
  }

  // ---------------------------------------------------------------- typing a text at once

  /** What `typeTextAtPosition` writes for `t` from column `x` of row `y0`, and where it ends. */
  function TypeRun(font: Font, t: string, x: int, y0: int, spacing: int, w: int, h: int): (r: (seq<PixelWrite>, int))
    decreases |t|
  {
    if t == [] then ([], x)
    else
      var (ws, x') := TypeRun(font, t[..|t| - 1], x, y0, spacing, w, h);
      var ch := t[|t| - 1];
      if ch == ' ' then (ws, x' + 8 + spacing)
      else if [ch] in font.characters then (ws + PatchWrites(GlyphInk(font.characters[[ch]]), w, h, x', y0), x' + 16 + spacing)
      else (ws, x')
  }

  /** The spaces in `t`, and the characters the font has a glyph for. */
  function Spaces(t: string): nat {
    if t == [] then 0 else Spaces(t[..|t| - 1]) + (if t[|t| - 1] == ' ' then 1 else 0)
  }

  function Glyphs(font: Font, t: string): nat {
    if t == [] then 0
    else Glyphs(font, t[..|t| - 1]) + (if t[|t| - 1] != ' ' && [t[|t| - 1]] in font.characters then 1 else 0)
  }

  /** A space advances 8 + spacing, a known glyph 16 + spacing, an unknown character nothing. */
  lemma {:induction false} TypeRunAdvance(font: Font, t: string, x: int, y0: int, spacing: int, w: int, h: int)
    ensures TypeRun(font, t, x, y0, spacing, w, h).1 == x + Spaces(t) * (8 + spacing) + Glyphs(font, t) * (16 + spacing)
    decreases |t|
  {
    if t != [] {
      var init := t[..|t| - 1];
      TypeRunAdvance(font, init, x, y0, spacing, w, h);
      MulAdd(Spaces(init), 8 + spacing);
      MulAdd(Glyphs(font, init), 16 + spacing);
    }
  }

  lemma MulAdd(n: nat, k: int)
    ensures (n + 1) * k == n * k + k
  {
  }

  /** Typing `s + t` is typing `s`, then typing `t` from where `s` ended. */
  lemma {:induction false} TypeRunAppend(font: Font, s: string, t: string, x: int, y0: int, spacing: int, w: int, h: int)
    ensures var first := TypeRun(font, s, x, y0, spacing, w, h);
            var rest := TypeRun(font, t, first.1, y0, spacing, w, h);
            TypeRun(font, s + t, x, y0, spacing, w, h) == (first.0 + rest.0, rest.1)
    decreases |t|
  {
    if t == [] {
      var first := TypeRun(font, s, x, y0, spacing, w, h);
      assert s + t == s;
      assert TypeRun(font, t, first.1, y0, spacing, w, h) == ([], first.1);
      assert first.0 + [] == first.0;
    } else {
      var init := t[..|t| - 1];
      assert (s + t)[..|s + t| - 1] == s + init;
      assert (s + t)[|s + t| - 1] == t[|t| - 1];
      TypeRunAppend(font, s, init, x, y0, spacing, w, h);
      var first := TypeRun(font, s, x, y0, spacing, w, h);
      var rest := TypeRun(font, init, first.1, y0, spacing, w, h);
      var ch := t[|t| - 1];
      if ch != ' ' && [ch] in font.characters {
        assert first.0 + rest.0 + PatchWrites(GlyphInk(font.characters[[ch]]), w, h, rest.1, y0)
            == first.0 + (rest.0 + PatchWrites(GlyphInk(font.characters[[ch]]), w, h, rest.1, y0));
      }
    }
  }

  /** The font height Enter moves by: the rows of the font's `'A'`, or 16. */
  function FontHeight(fonts: seq<Font>, name: string): (n: nat)
    ensures FindFont(fonts, name).None? ==> n == 16
  {
    var font := FindFont(fonts, name);
    if font.Some? && "A" in font.value.characters then |font.value.characters["A"]| else 16
  }

  /** A cell `findLineStartPosition` takes for ink. */
  predicate IsInk(c: Color, rgbBlack: string) {
    c != rgbBlack && c != Black
  }

  /** Cell (x, y) exists and is inked. */
  predicate InkAt(p: seq<Color>, w: int, y: int, x: int) {
    0 <= y * w + x < |p| && IsInk(p[y * w + x], "rgb(0, 0, 0)")
  }

  /** The first column of row `y` from `x` on whose cell exists and is inked. */
  function FirstInk(p: seq<Color>, w: int, y: int, x: int): (r: Option<int>)
    requires 0 <= x <= w
    ensures r.Some? ==> x <= r.value < w && InkAt(p, w, y, r.value) && forall x' | x <= x' < r.value :: !InkAt(p, w, y, x')
    ensures r.None? ==> forall x' | x <= x' < w :: !InkAt(p, w, y, x')
    decreases w - x
  {
    if x == w then None
    else if InkAt(p, w, y, x) then Some(x)
    else FirstInk(p, w, y, x + 1)
  }

  /** `findLineStartPosition`: the first inked column of the cursor's row, else the cursor's column. */
  function LineStart(p: seq<Color>, w: int, position: int): (x: int)
    requires w > 0
    ensures position >= 0 ==> 0 <= x < w
  {
    var first := FirstInk(p, w, position / w, 0);
    if first.Some? then first.value else JsRem(position, w)
  }

  /** The cursor after Enter. */
  function NextLine(fonts: seq<Font>, name: string, p: seq<Color>, w: int, position: int): int
    requires w > 0
  {
    (position / w + FontHeight(fonts, name) + 1) * w + LineStart(p, w, position)
  }

  /** Enter moves down by the font height plus one row, to the line's start column. */
  lemma NextLineCoords(fonts: seq<Font>, name: string, p: seq<Color>, w: int, position: int)
    requires w > 0 && position >= 0
    ensures NextLine(fonts, name, p, w, position) / w == position / w + FontHeight(fonts, name) + 1
    ensures NextLine(fonts, name, p, w, position) % w == LineStart(p, w, position)
  {
    IdxCoords(LineStart(p, w, position), position / w + FontHeight(fonts, name) + 1, w);
  }

  datatype Direction = Left | Right | Up | Down

  /** The arrow key `key` names, if any. */
  function ArrowOf(key: string): Option<Direction> {
    if key == "ArrowLeft" then Some(Left)
    else if key == "ArrowRight" then Some(Right)
    else if key == "ArrowUp" then Some(Up)
    else if key == "ArrowDown" then Some(Down)
    else None
  }

  /** An arrow key's new cursor: `Math.max`/`Math.min` clamp the column into [0, w - 1] and the row into [0, h - 1]. */
  function Arrow(d: Direction, position: int, w: int, h: int): int
    requires w > 0
  {
    var x, y := JsRem(position, w), position / w;
    var nx := match d case Left => Max(0, x - 1) case Right => Min(w - 1, x + 1) case _ => x;
    var ny := match d case Up => Max(0, y - 1) case Down => Min(h - 1, y + 1) case _ => y;
    ny * w + nx
  }

  function Max(a: int, b: int): int { if a >= b then a else b }
  function Min(a: int, b: int): int { if a <= b then a else b }

  /** From a cell on the canvas an arrow moves one cell, unless that would leave the canvas. */
  lemma ArrowMoves(d: Direction, position: int, w: int, h: int)
    requires w > 0 && 0 <= position < w * h
    ensures 0 <= Arrow(d, position, w, h) < w * h
    ensures Arrow(d, position, w, h) == match d
              case Left => if position % w > 0 then position - 1 else position
              case Right => if position % w < w - 1 then position + 1 else position
              case Up => if position / w > 0 then position - w else position
              case Down => if position / w < h - 1 then position + w else position
  {
    IndexInRange(position, w, h);
    IdxOfIndex(position, w);
    var x, y := position % w, position / w;
    var r := Arrow(d, position, w, h);
    var ny := r / w;
    match d {
      case Left => IdxInRange(Max(0, x - 1), y, w, h);
      case Right => IdxInRange(Min(w - 1, x + 1), y, w, h);
      case Up =>
        MulAdd(Max(0, y - 1), w);
        IdxInRange(x, Max(0, y - 1), w, h);
      case Down =>
        MulAdd(y, w);
        IdxInRange(x, Min(h - 1, y + 1), w, h);
    }
  }

  /** The keys the keydown handler acts on from the cursor. */
  const Backspace := "Backspace"
  const Enter := "Enter"
  const Escape := "Escape"

  /** The keyboard advance: glyphs typed from the cursor step 14 + spacing columns. */
  const KeyAdvance := 14

  class TypeTool {
    var selectedFont: Option<string>
    var typingMode: bool
    /** `textCursorPosition`: a flat canvas index, which Backspace can take below zero. */
    var cursor: Option<int>
    var cursorInTypingMode: bool

    constructor ()
      ensures selectedFont == None && !typingMode && cursor == None && !cursorInTypingMode
    {
      selectedFont, typingMode, cursor, cursorInTypingMode := None, false, None, false;
    }

    /** `exitTypingMode`: no typing mode, no cursor. */
    method ExitTypingMode()
      modifies this
      ensures !typingMode && cursor == None && !cursorInTypingMode && selectedFont == old(selectedFont)
    {
      typingMode, cursor, cursorInTypingMode := false, None, false;
    }

    /** `selectFont`: an empty choice also leaves typing mode. */
    method SelectFont(name: string)
      modifies this
      ensures selectedFont == Some(name)
      ensures name == [] ==> !typingMode && cursor == None && !cursorInTypingMode
      ensures name != [] ==> typingMode == old(typingMode) && cursor == old(cursor) && cursorInTypingMode == old(cursorInTypingMode)
    {
      selectedFont := Some(name);
      if name == [] {
        ExitTypingMode();
      }
    }

    /**
     * The drawing loops of `placeCharacterOnCanvas`, `typeTextAtPosition` and
     * `clearCharacterArea`: every kept cell lands at `pixelY * w + pixelX` when
     * `pixelX < w && pixelY < h` and a cell with that index exists.
     */
    method PaintPatch(canvas: CanvasManager.Canvas, cells: Patch, x0: int, y0: int)
      requires canvas.Valid()
      modifies canvas`pixels
      ensures canvas.Valid()
      ensures canvas.pixels == ApplyWrites(old(canvas.pixels), PatchWrites(cells, canvas.width, canvas.height, x0, y0))
    {
      var w, h := canvas.width, canvas.height;
      ghost var f := PatchFn(cells, w, h, x0, y0);
      ghost var widths := Widths(cells);
      ghost var p0 := canvas.pixels;
      var y := 0;
      while y < |cells|
        invariant 0 <= y <= |cells|
        invariant canvas.Valid()
        invariant canvas.pixels == ApplyWrites(p0, RowsWrites(f, widths[..y]))
      {
        PaintPatchRow(canvas, cells, x0, y0, y);
        RowsWritesStep(f, widths, y);
        ApplyWritesAppend(p0, RowsWrites(f, widths[..y]), RowWrites(f, y, widths[y]));
        y := y + 1;
      }
      assert widths[..|cells|] == widths;
    }

    /** The inner loop: row `y` of the patch. */
    method PaintPatchRow(canvas: CanvasManager.Canvas, cells: Patch, x0: int, y0: int, y: nat)
      requires canvas.Valid() && y < |cells|
      modifies canvas`pixels
      ensures canvas.Valid()
      ensures canvas.pixels == PatchedRow(old(canvas.pixels), cells, canvas.width, canvas.height, x0, y0, y)
    {
      var q := PatchRowCells(canvas.pixels, cells, canvas.width, canvas.height, x0, y0, y);
      canvas.pixels := q;
    }

    /** `placeCharacterOnCanvas`: stamp the key's glyph at the cursor; no glyph, no change. */
    method PlaceCharacterOnCanvas(canvas: CanvasManager.Canvas, fonts: seq<Font>, key: string, start: int)
      requires canvas.Valid() && selectedFont.Some?
      modifies canvas`pixels
      ensures canvas.Valid()
      ensures var font := FindFont(fonts, selectedFont.value);
              canvas.pixels == if font.None? || key !in font.value.characters then old(canvas.pixels)
                               else ApplyWrites(old(canvas.pixels), PatchWrites(GlyphInk(font.value.characters[key]), canvas.width, canvas.height,
                                                                                 JsRem(start, canvas.width), start / canvas.width))
    {
      var font := FindFont(fonts, selectedFont.value);
      if font.None? || key !in font.value.characters {
        return;
      }
      var w := canvas.width;
      PaintPatch(canvas, GlyphInk(font.value.characters[key]), JsRem(start, w), start / w);
    }

    /** `clearCharacterArea`: blank the 16 by 16 area at the index, as far as it is on the canvas. */
    method ClearCharacterArea(canvas: CanvasManager.Canvas, start: int)
      requires canvas.Valid()
      modifies canvas`pixels
      ensures canvas.Valid()
      ensures canvas.pixels == ApplyWrites(old(canvas.pixels), PatchWrites(BlankArea(), canvas.width, canvas.height,
                                                                           JsRem(start, canvas.width), start / canvas.width))
    {
      var w := canvas.width;
      PaintPatch(canvas, BlankArea(), JsRem(start, w), start / w);
    }

    /** `typeTextAtPosition`: the text's glyphs side by side from the clicked cell. */
    method TypeTextAtPosition(canvas: CanvasManager.Canvas, fonts: seq<Font>, text: string, spacing: int, start: int)
      requires canvas.Valid() && selectedFont.Some?
      modifies canvas`pixels
      ensures canvas.Valid()
      ensures var font := FindFont(fonts, selectedFont.value);
              canvas.pixels == if font.None? then old(canvas.pixels)
                               else ApplyWrites(old(canvas.pixels), TypeRun(font.value, text, JsRem(start, canvas.width), start / canvas.width,
                                                                            spacing, canvas.width, canvas.height).0)
    {
      var fontData := FindFont(fonts, selectedFont.value);
      if fontData.None? {
        return;
      }
      var font := fontData.value;
      var w, h := canvas.width, canvas.height;
      var startX, startY := JsRem(start, w), start / w;
      ghost var p0 := canvas.pixels;
      var currentX := startX;
      var i := 0;
      while i < |text|
        invariant 0 <= i <= |text|
        invariant canvas.Valid() && canvas.width == w && canvas.height == h
        invariant (ApplyWrites(p0, TypeRun(font, text[..i], startX, startY, spacing, w, h).0), TypeRun(font, text[..i], startX, startY, spacing, w, h).1)
               == (canvas.pixels, currentX)
      {
        assert text[..i + 1][..i] == text[..i];
        var ch := text[i];
        if ch == ' ' {
          currentX := currentX + 8 + spacing;
        } else if [ch] in font.characters {
          ghost var before := canvas.pixels;
          PaintPatch(canvas, GlyphInk(font.characters[[ch]]), currentX, startY);
          ApplyWritesAppend(p0, TypeRun(font, text[..i], startX, startY, spacing, w, h).0,
                            PatchWrites(GlyphInk(font.characters[[ch]]), w, h, currentX, startY));
          currentX := currentX + 16 + spacing;
        }
        i := i + 1;
      }
      assert text[..|text|] == text;
    }

    /** `showTextCursor`: the cursor moves to the index only when its row is on the canvas. */
    method ShowTextCursor(tool: string, index: int, w: int, h: int)
      requires w > 0
      modifies this
      ensures cursor == if Truthy(selectedFont) && tool == "type" && index / w < h then Some(index) else old(cursor)
      ensures selectedFont == old(selectedFont) && typingMode == old(typingMode) && cursorInTypingMode == old(cursorInTypingMode)
    {
      if !Truthy(selectedFont) || tool != "type" {
        return;
      }
      if index / w >= h {
        return;
      }
      cursor := Some(index);
    }

    /**
     * `handleTypeClick`: with a font and the type tool, an empty text field puts the cursor at
     * the cell for keyboard typing; otherwise the trimmed text is typed there.
     */
    method HandleTypeClick(canvas: CanvasManager.Canvas, tool: string, fonts: seq<Font>, input: string, spacing: int, index: int)
      requires canvas.Valid()
      modifies this, canvas`pixels
      ensures canvas.Valid()
      ensures !Truthy(old(selectedFont)) || tool != "type" ==>
                canvas.pixels == old(canvas.pixels) && cursor == old(cursor) && cursorInTypingMode == old(cursorInTypingMode)
      ensures Truthy(old(selectedFont)) && tool == "type" && Trim(input) == [] ==>
                canvas.pixels == old(canvas.pixels) && cursorInTypingMode
                && cursor == (if index / canvas.width < canvas.height then Some(index) else old(cursor))
      ensures Truthy(old(selectedFont)) && tool == "type" && Trim(input) != [] ==>
                cursor == old(cursor) && cursorInTypingMode == old(cursorInTypingMode)
                && var font := FindFont(fonts, old(selectedFont).value);
                   canvas.pixels == if font.None? then old(canvas.pixels)
                                    else ApplyWrites(old(canvas.pixels), TypeRun(font.value, Trim(input), JsRem(index, canvas.width), index / canvas.width,
                                                                                 spacing, canvas.width, canvas.height).0)
      ensures selectedFont == old(selectedFont) && typingMode == old(typingMode)
    {
      if !Truthy(selectedFont) || tool != "type" {
        return;
      }
      var text := Trim(input);
      if text == [] {
        cursorInTypingMode := true;
        ShowTextCursor(tool, index, canvas.width, canvas.height);
        return;
      }
      TypeTextAtPosition(canvas, fonts, text, spacing, index);
    }

    /** The arrow keys, Backspace and printable keys step the cursor; Enter jumps to the next line. */
    method KeyDown(canvas: CanvasManager.Canvas, tool: string, fonts: seq<Font>, key: string, modifier: bool, spacing: int)
      requires canvas.Valid()
      modifies this, canvas`pixels
      ensures canvas.Valid()
      ensures selectedFont == old(selectedFont) && typingMode == old(typingMode)
      ensures tool != "type" || !Truthy(old(selectedFont)) || !old(cursorInTypingMode) ==>
                canvas.pixels == old(canvas.pixels) && cursorInTypingMode == old(cursorInTypingMode) && cursor == old(cursor)
      ensures tool == "type" && Truthy(old(selectedFont)) && old(cursorInTypingMode) && old(cursor).None? ==>
                canvas.pixels == old(canvas.pixels)
                && if key == Escape then cursor == None && !cursorInTypingMode else cursor == None && cursorInTypingMode
      ensures tool == "type" && Truthy(old(selectedFont)) && old(cursorInTypingMode) && old(cursor).Some? ==>
                var w, h, pos := old(canvas.width), old(canvas.height), old(cursor).value;
                if key == Backspace then
                  cursor == Some(pos - (KeyAdvance + spacing)) && cursorInTypingMode
                  && canvas.pixels == ApplyWrites(old(canvas.pixels), PatchWrites(BlankArea(), w, h, JsRem(pos - (KeyAdvance + spacing), w),
                                                                                  (pos - (KeyAdvance + spacing)) / w))
                else if key == Enter then
                  cursor == Some(NextLine(fonts, old(selectedFont).value, old(canvas.pixels), w, pos)) && cursorInTypingMode
                  && canvas.pixels == old(canvas.pixels)
                else if ArrowOf(key).Some? then
                  cursor == Some(Arrow(ArrowOf(key).value, pos, w, h)) && cursorInTypingMode && canvas.pixels == old(canvas.pixels)
                else if key == Escape then
                  cursor == None && !cursorInTypingMode && canvas.pixels == old(canvas.pixels)
                else if |key| == 1 && !modifier then
                  cursor == Some(pos + KeyAdvance + spacing) && cursorInTypingMode
                  && var font := FindFont(fonts, old(selectedFont).value);
                     canvas.pixels == if font.None? || key !in font.value.characters then old(canvas.pixels)
                                      else ApplyWrites(old(canvas.pixels), PatchWrites(GlyphInk(font.value.characters[key]), w, h, JsRem(pos, w), pos / w))
                else
                  cursor == old(cursor) && cursorInTypingMode && canvas.pixels == old(canvas.pixels)
    {
      if tool != "type" || !Truthy(selectedFont) || !cursorInTypingMode {
        return;
      }
      var w, h := canvas.width, canvas.height;
      if key == Backspace {
        if cursor.Some? {
          var pos := cursor.value - (KeyAdvance + spacing);
          cursor := Some(pos);
          ClearCharacterArea(canvas, pos);
          ShowTextCursor(tool, pos, w, h);
        }
      } else if key == Enter {
        if cursor.Some? {
          var newIndex := NextLine(fonts, selectedFont.value, canvas.pixels, w, cursor.value);
          cursor := Some(newIndex);
          ShowTextCursor(tool, newIndex, w, h);
        }
      } else if ArrowOf(key).Some? {
        if cursor.Some? {
          var newIndex := Arrow(ArrowOf(key).value, cursor.value, w, h);
          cursor := Some(newIndex);
          ShowTextCursor(tool, newIndex, w, h);
        }
      } else if key == Escape {
        cursor := None;
        cursorInTypingMode := false;
      } else if |key| == 1 && !modifier {
        if cursor.Some? {
          var pos := cursor.value;
          PlaceCharacterOnCanvas(canvas, fonts, key, pos);
          cursor := Some(pos + KeyAdvance + spacing);
          ShowTextCursor(tool, pos + KeyAdvance + spacing, w, h);
        }
      }
    }

    /** `findLineStartPosition`, as the loop scans the row. */
    method FindLineStartPosition(canvas: CanvasManager.Canvas, position: int) returns (x: int)
      requires canvas.Valid()
      ensures x == LineStart(canvas.pixels, canvas.width, position)
    {
      var w := canvas.width;
      var currentY := position / w;
      var lineStartIndex := currentY * w;
      var k := 0;
      while k < w
        invariant 0 <= k <= w
        invariant FirstInk(canvas.pixels, w, currentY, 0) == FirstInk(canvas.pixels, w, currentY, k)
      {
        var pixelIndex := lineStartIndex + k;
        if 0 <= pixelIndex < |canvas.pixels| && IsInk(canvas.pixels[pixelIndex], "rgb(0, 0, 0)") {
          assert InkAt(canvas.pixels, w, currentY, k);
          return k;
        }
        k := k + 1;
      }
      x := JsRem(position, w);
    }
  }
}
