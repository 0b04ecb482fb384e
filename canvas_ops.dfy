/**
 * The pure parts of the canvas engine: the colour keys flood fill compares, brush
 * rasterisation, and the 4-connected regions a flood fill recolours.
 */
module CanvasOps {
  import opened Wrappers
  import opened JsText
  import opened Grid
  import opened Components

  // ---------------------------------------------------------------- rgbToHex

  /** `rgbToHex`: the background spellings become `'#000000'`; otherwise the first three digit runs are packed into `#rrggbb`. */
  function RgbToHex(rgb: Color): Color {
    if rgb == "" || rgb == "rgb(0, 0, 0)" || rgb == Black then Black
    else
      var runs := DigitRuns(rgb);
      if |runs| < 3 then rgb
      else
        var n := 0x100_0000 + ShiftLeft(runs[0], 16) + ShiftLeft(runs[1], 8) + runs[2];
        "#" + NumberToHex(n)[1..]
  }

  /** The spelling a browser gives a colour in `style.backgroundColor`. */
  function RgbString(r: nat, g: nat, b: nat): string {
    "rgb(" + DecimalString(r) + ", " + DecimalString(g) + ", " + DecimalString(b) + ")"
  }

  /** Two hex digits per channel, as `#rrggbb` spells it. */
  function HexTriple(r: nat, g: nat, b: nat): string {
    "#" + HexDigits(r, 2) + HexDigits(g, 2) + HexDigits(b, 2)
  }

  lemma NoDigitRuns(s: string)
    requires forall i | 0 <= i < |s| :: !IsDigit(s[i])
    ensures DigitRuns(s) == []
    decreases |s|
  {
    if s != [] {
      NoDigitRuns(s[1..]);
    }
  }

  /** A separator without digits, then a run of digits, then a non-digit: one number is read. */
  lemma RunAfterSeparator(sep: string, d: string, rest: string)
    requires sep != [] && forall i | 0 <= i < |sep| :: !IsDigit(sep[i])
    requires d != [] && AllDigits(d)
    requires rest == [] || !IsDigit(rest[0])
    ensures DigitRuns(sep + (d + rest)) == [DecimalValue(d)] + DigitRuns(rest)
  {
    NoDigitRuns(sep);
    DigitRunsAppend(sep, d + rest);
    DigitRunsOfRun(d, rest);
  }

  lemma RgbStringRuns(r: nat, g: nat, b: nat)
    ensures DigitRuns(RgbString(r, g, b)) == [r, g, b]
  {
    var dr, dg, db := DecimalString(r), DecimalString(g), DecimalString(b);
    var t2 := ", " + (db + ")");
    var t1 := ", " + (dg + t2);
    assert RgbString(r, g, b) == "rgb(" + (dr + t1);
    DecimalStringValue(r);
    DecimalStringValue(g);
    DecimalStringValue(b);
    NoDigitRuns(")");
    RunAfterSeparator(", ", db, ")");
    RunAfterSeparator(", ", dg, t2);
    RunAfterSeparator("rgb(", dr, t1);
  }

  lemma Pow2Values()
    ensures Pow2(8) == 256 && Pow2(16) == 65536
  {
    assert Pow2(4) == 16;
    assert Pow2(8) == 256;
    assert Pow2(12) == 4096;
  }

  lemma Pow16Values()
    ensures Pow16(1) == 16 && Pow16(2) == 256 && Pow16(4) == 65536 && Pow16(6) == 0x100_0000 && Pow16(7) == 0x1000_0000
  {
  }

  lemma HexLow(g: nat, b: nat)
    requires g < 256 && b < 256
    ensures HexDigits(g * 256 + b, 4) == HexDigits(g, 2) + HexDigits(b, 2)
  {
    Pow16Values();
    HexDigitsSplit(g, b, 2, 2);
  }

  lemma HexMid(r: nat, low: nat)
    requires low < 65536
    ensures HexDigits(r * 65536 + low, 6) == HexDigits(r, 2) + HexDigits(low, 4)
  {
    Pow16Values();
    HexDigitsSplit(r, low, 2, 4);
  }

  lemma HexTop(mid: nat)
    requires mid < 0x100_0000
    ensures HexString(0x100_0000 + mid) == "1" + HexDigits(mid, 6)
  {
    Pow16Values();
    HexStringFixed(0x100_0000 + mid, 7);
    HexDigitsSplit(1, mid, 1, 6);
    assert HexDigits(1, 1) == "1";
  }

  /** A left shift that stays below 2^31 is a multiplication. */
  lemma ShiftLeftSmall(a: nat, k: nat, m: nat)
    requires k < 32 && m == Pow2(k) && a * m < TwoTo31
    ensures ShiftLeft(a, k) == a * m
  {
  }

  /** The packed channels `(r << 16) + (g << 8) + b`, and its hex digits. */
  lemma PackedValue(r: nat, g: nat, b: nat)
    requires r < 256 && g < 256 && b < 256
    ensures ShiftLeft(r, 16) + ShiftLeft(g, 8) + b == r * 65536 + (g * 256 + b)
    ensures r * 65536 + (g * 256 + b) < 0x100_0000
  {
    Pow2Values();
    ShiftLeftSmall(r, 16, 65536);
    ShiftLeftSmall(g, 8, 256);
  }

  /** The hex spelling of the packed channels `(1 << 24) + (r << 16) + (g << 8) + b` without its leading `1`. */
  lemma PackedHex(r: nat, g: nat, b: nat)
    requires r < 256 && g < 256 && b < 256
    ensures NumberToHex(0x100_0000 + ShiftLeft(r, 16) + ShiftLeft(g, 8) + b)[1..]
         == HexDigits(r, 2) + HexDigits(g, 2) + HexDigits(b, 2)
  {
    var low := g * 256 + b;
    var mid := r * 65536 + low;
    PackedValue(r, g, b);
    HexLow(g, b);
    HexMid(r, low);
    HexTop(mid);
    assert 0x100_0000 + ShiftLeft(r, 16) + ShiftLeft(g, 8) + b == 0x100_0000 + mid;
    assert NumberToHex(0x100_0000 + mid) == "1" + HexDigits(mid, 6);
  }

  /** Only black is spelled `rgb(0, 0, 0)`, and no `rgb(...)` spelling is empty or `'#000000'`. */
  lemma RgbStringBackground(r: nat, g: nat, b: nat)
    ensures RgbString(r, g, b) != "" && RgbString(r, g, b) != Black
    ensures RgbString(r, g, b) == "rgb(0, 0, 0)" <==> r == 0 && g == 0 && b == 0
  {
    var c := RgbString(r, g, b);
    assert c[0] == 'r';
    assert DecimalString(0) == "0";
    assert RgbString(0, 0, 0) == "rgb(0, 0, 0)";
    if c == "rgb(0, 0, 0)" {
      RgbStringRuns(r, g, b);
      RgbStringRuns(0, 0, 0);
    }
  }

  /** For a colour the browser spells `rgb(r, g, b)`, `rgbToHex` gives its `#rrggbb` spelling. */
  lemma RgbToHexOfRgb(r: nat, g: nat, b: nat)
    requires r < 256 && g < 256 && b < 256
    ensures RgbToHex(RgbString(r, g, b)) == HexTriple(r, g, b)
  {
    RgbStringBackground(r, g, b);
    if r == 0 && g == 0 && b == 0 {
      assert HexDigits(0, 2) == "00";
    } else {
      var c := RgbString(r, g, b);
      RgbStringRuns(r, g, b);
      PackedHex(r, g, b);
      var digits := NumberToHex(0x100_0000 + ShiftLeft(r, 16) + ShiftLeft(g, 8) + b)[1..];
      assert RgbToHex(c) == "#" + digits;
      var hr, hg, hb := HexDigits(r, 2), HexDigits(g, 2), HexDigits(b, 2);
      assert "#" + (hr + hg + hb) == "#" + hr + hg + hb;
    }
  }

  /** A spelling with fewer than three digit runs, such as `'#ff0000'`, comes back unchanged. */
  lemma RgbToHexKeepsShortSpelling(c: Color)
    requires c != "" && c != "rgb(0, 0, 0)" && c != Black && |DigitRuns(c)| < 3
    ensures RgbToHex(c) == c
  {
  }

  /**
   * What `style.backgroundColor` reads back for a cell whose colour was set to `c`: a browser
   * serialises `#rrggbb` and `#rgb` as `rgb(r, g, b)`; every other spelling is kept as given.
   */
  function StyleSpelling(c: Color): Color {
    if |c| == 7 && c[0] == '#' && AllHexDigits(c[1..]) then
      RgbString(HexValue(c[1..3]), HexValue(c[3..5]), HexValue(c[5..7]))
    else if |c| == 4 && c[0] == '#' && AllHexDigits(c[1..]) then
      RgbString(17 * HexDigitValue(c[1]), 17 * HexDigitValue(c[2]), 17 * HexDigitValue(c[3]))
    else c
  }

  /** The colour flood fill compares: `rgbToHex(backgroundColor || '#000000')` of the cell's read-back spelling. */
  function Key(c: Color): Color { RgbToHex(OrBlack(StyleSpelling(c))) }

  /** Reading the three channels back out of `#rrggbb`. */
  lemma HexTripleParts(r: nat, g: nat, b: nat)
    requires r < 256 && g < 256 && b < 256
    ensures var t := HexTriple(r, g, b);
      |t| == 7 && t[0] == '#' && AllHexDigits(t[1..]) &&
      HexValue(t[1..3]) == r && HexValue(t[3..5]) == g && HexValue(t[5..7]) == b
  {
    Pow16Values();
    HexDigitsValue(r, 2);
    HexDigitsValue(g, 2);
    HexDigitsValue(b, 2);
    var t := HexTriple(r, g, b);
    assert t[1..3] == HexDigits(r, 2);
    assert t[3..5] == HexDigits(g, 2);
    assert t[5..7] == HexDigits(b, 2);
  }

  /** A colour set as `#rrggbb` keys as itself: the read-back `rgb(r, g, b)` converts back to it. */
  lemma KeyOfHexTriple(r: nat, g: nat, b: nat)
    requires r < 256 && g < 256 && b < 256
    ensures Key(HexTriple(r, g, b)) == HexTriple(r, g, b)
  {
    HexTripleParts(r, g, b);
    assert StyleSpelling(HexTriple(r, g, b)) == RgbString(r, g, b);
    RgbStringBackground(r, g, b);
    RgbToHexOfRgb(r, g, b);
  }

  /** The browser's `rgb(r, g, b)` spelling keys as the same colour's `#rrggbb`. */
  lemma KeyOfRgbString(r: nat, g: nat, b: nat)
    requires r < 256 && g < 256 && b < 256
    ensures Key(RgbString(r, g, b)) == HexTriple(r, g, b)
  {
    assert RgbString(r, g, b)[0] == 'r';
    RgbStringBackground(r, g, b);
    RgbToHexOfRgb(r, g, b);
  }

  /** Two different colours set as `#rrggbb` never key alike, so a fill never crosses between them. */
  lemma HexTripleKeysDiffer(r: nat, g: nat, b: nat, r': nat, g': nat, b': nat)
    requires r < 256 && g < 256 && b < 256 && r' < 256 && g' < 256 && b' < 256
    requires (r, g, b) != (r', g', b')
    ensures Key(HexTriple(r, g, b)) != Key(HexTriple(r', g', b'))
  {
    KeyOfHexTriple(r, g, b);
    KeyOfHexTriple(r', g', b');
    HexTripleParts(r, g, b);
    HexTripleParts(r', g', b');
  }

  // ---------------------------------------------------------------- drawBrush

  /** `Math.floor(currentBrushSize / 2)` */
  function BrushRadius(size: int): int { size / 2 }

  /** Offset (dx, dy) is part of the brush: always for `'square'`, within the radius for `'circle'` (`sqrt(dx² + dy²) <= r` in integers), never for any other shape. */
  predicate InBrush(shape: string, dx: int, dy: int, r: int) {
    shape == "square" || (shape == "circle" && dx * dx + dy * dy <= r * r)
  }

  /** Iteration (dx, dy) = (lx - r, ly - r) of the brush loops around (cx, cy): a write of `c` when the cell is on the canvas and in the brush. */
  function BrushCell(w: int, h: int, cx: int, cy: int, r: int, shape: string, c: Color, lx: int, ly: int): Option<PixelWrite> {
    var x, y := cx + (lx - r), cy + (ly - r);
    if 0 <= x < w && 0 <= y < h && InBrush(shape, lx - r, ly - r, r)
    then Some(PixelWrite(Idx(x, y, w), c))
    else None
  }

  function BrushFn(w: int, h: int, cx: int, cy: int, r: int, shape: string, c: Color): (int, int) -> Option<PixelWrite> {
    (lx, ly) => BrushCell(w, h, cx, cy, r, shape, c, lx, ly)
  }

  /** The number of values `-r..r` takes. */
  function Span(r: int): nat { if r >= 0 then 2 * r + 1 else 0 }

  /** The writes of `for dy in -r..r, for dx in -r..r`, in loop order, for a brush centred on `center`. */
  function BrushWrites(w: int, h: int, center: int, size: int, shape: string, c: Color): seq<PixelWrite>
    requires w > 0
  {
    var r := BrushRadius(size);
    RowsWrites(BrushFn(w, h, center % w, center / w, r, shape, c), Rect(Span(r), Span(r)))
  }

  /** Canvas cell `j` lies under the brush centred on `center`. */
  predicate BrushCovers(w: int, center: int, size: int, shape: string, j: int)
    requires w > 0
  {
    var r := BrushRadius(size);
    var dx, dy := j % w - center % w, j / w - center / w;
    -r <= dx <= r && -r <= dy <= r && InBrush(shape, dx, dy, r)
  }

  /** The canvas after painting `c` with the brush, cell by cell. */
  function Brushed(p: seq<Color>, w: int, center: int, size: int, shape: string, c: Color): (r: seq<Color>)
    requires w > 0
    ensures |r| == |p|
  {
    seq(|p|, j requires 0 <= j < |p| => if BrushCovers(w, center, size, shape, j) then c else p[j])
  }

  /** Every write of the brush loop aims at a cell under the brush, with the brush colour. */
  lemma BrushWriteTarget(w: int, h: int, center: int, size: int, shape: string, c: Color, pw: PixelWrite)
    requires w > 0
    requires pw in BrushWrites(w, h, center, size, shape, c)
    ensures 0 <= pw.index < w * h && pw.color == c && BrushCovers(w, center, size, shape, pw.index)
  {
    var r := BrushRadius(size);
    var cx, cy := center % w, center / w;
    var f := BrushFn(w, h, cx, cy, r, shape, c);
    var rows := Rect(Span(r), Span(r));
    RowsWritesFrom(f, rows, pw);
    var lx, ly :| 0 <= ly < |rows| && 0 <= lx < rows[ly] && f(lx, ly) == Some(pw);
    var X, Y := cx + (lx - r), cy + (ly - r);
    assert 0 <= X < w && 0 <= Y < h && pw.index == Idx(X, Y, w) && InBrush(shape, lx - r, ly - r, r);
    IdxCoords(X, Y, w);
    IdxInRange(X, Y, w, h);
  }

  /** Every cell under the brush gets a write from the brush loop. */
  lemma BrushWriteExists(w: int, h: int, center: int, size: int, shape: string, c: Color, j: int)
    requires w > 0 && h > 0 && 0 <= j < w * h
    requires BrushCovers(w, center, size, shape, j)
    ensures PixelWrite(j, c) in BrushWrites(w, h, center, size, shape, c)
  {
    var r := BrushRadius(size);
    var cx, cy := center % w, center / w;
    var f := BrushFn(w, h, cx, cy, r, shape, c);
    var rows := Rect(Span(r), Span(r));
    IndexInRange(j, w, h);
    IdxOfIndex(j, w);
    var x, y := j % w, j / w;
    var lx, ly := x - cx + r, y - cy + r;
    assert BrushCell(w, h, cx, cy, r, shape, c, lx, ly) == Some(PixelWrite(j, c));
    assert f(lx, ly) == Some(PixelWrite(j, c));
    RowsWritesHas(f, rows, lx, ly);
  }

  lemma BrushWritesAt(p: seq<Color>, w: int, h: int, center: int, size: int, shape: string, c: Color, j: int)
    requires w > 0 && h > 0 && |p| == w * h && 0 <= j < |p|
    ensures ApplyWrites(p, BrushWrites(w, h, center, size, shape, c))[j] == Brushed(p, w, center, size, shape, c)[j]
  {
    var ws := BrushWrites(w, h, center, size, shape, c);
    var covers := BrushCovers(w, center, size, shape, j);
    var o := if covers then Some(c) else None;
    forall pw | pw in ws && pw.index == j
      ensures o == Some(pw.color)
    {
      BrushWriteTarget(w, h, center, size, shape, c, pw);
    }
    if covers {
      BrushWriteExists(w, h, center, size, shape, c, j);
    }
    WritesPointwise(p, ws, j, o);
  }

  /** Issuing the brush loop's writes in order paints exactly the cells under the brush. */
  lemma BrushWritesEffect(p: seq<Color>, w: int, h: int, center: int, size: int, shape: string, c: Color)
    requires w > 0 && h > 0 && |p| == w * h
    ensures ApplyWrites(p, BrushWrites(w, h, center, size, shape, c)) == Brushed(p, w, center, size, shape, c)
  {
    forall j | 0 <= j < |p|
      ensures ApplyWrites(p, BrushWrites(w, h, center, size, shape, c))[j] == Brushed(p, w, center, size, shape, c)[j]
    {
      BrushWritesAt(p, w, h, center, size, shape, c, j);
    }
  }

  /** A size-1 square or circle brush touches only its centre. */
  lemma BrushSizeOne(p: seq<Color>, w: int, center: int, shape: string, c: Color)
    requires w > 0 && 0 <= center < |p|
    requires shape == "square" || shape == "circle"
    ensures Brushed(p, w, center, 1, shape, c) == p[center := c]
  {
    forall j | 0 <= j < |p|
      ensures Brushed(p, w, center, 1, shape, c)[j] == p[center := c][j]
    {
      if j % w == center % w && j / w == center / w {
        IdxOfIndex(j, w);
        IdxOfIndex(center, w);
      }
    }
  }

  /** Any other brush shape paints nothing. */
  lemma BrushUnknownShape(p: seq<Color>, w: int, center: int, size: int, shape: string, c: Color)
    requires w > 0 && shape != "square" && shape != "circle"
    ensures Brushed(p, w, center, size, shape, c) == p
  {
  }

  /** A circle brush is contained in the square one of the same size. */
  lemma CircleInSquare(w: int, center: int, size: int, j: int)
    requires w > 0
    ensures BrushCovers(w, center, size, "circle", j) ==> BrushCovers(w, center, size, "square", j)
  {
  }

  // ---------------------------------------------------------------- floodFill

  /** Cells `i` and `j` of a `w` by `h` canvas share an edge. */
  predicate Adjacent(w: int, h: int, i: int, j: int) {
    w > 0 && 0 <= i < w * h && 0 <= j < w * h &&
    ((i / w == j / w && (i % w - j % w == 1 || j % w - i % w == 1)) ||
     (i % w == j % w && (i / w - j / w == 1 || j / w - i / w == 1)))
  }

  /** The neighbours flood fill pushes, in its order: up, down, left, right. */
  function Neighbours(w: int, h: int, i: int): seq<int>
    requires w > 0
  {
    var x, y := i % w, i / w;
    (if y > 0 then [Idx(x, y - 1, w)] else []) +
    (if y < h - 1 then [Idx(x, y + 1, w)] else []) +
    (if x > 0 then [Idx(x - 1, y, w)] else []) +
    (if x < w - 1 then [Idx(x + 1, y, w)] else [])
  }

  lemma CellCoords(w: int, h: int, x: int, y: int)
    requires 0 <= x < w && 0 <= y < h
    ensures Idx(x, y, w) % w == x && Idx(x, y, w) / w == y && 0 <= Idx(x, y, w) < w * h
  {
    IdxCoords(x, y, w);
    IdxInRange(x, y, w, h);
  }

  lemma NeighboursAreAdjacent(w: int, h: int, i: int, j: int)
    requires w > 0 && 0 <= i < w * h && j in Neighbours(w, h, i)
    ensures Adjacent(w, h, i, j)
  {
    IndexInRange(i, w, h);
    var x, y := i % w, i / w;
    if j == Idx(x, y - 1, w) && y > 0 {
      CellCoords(w, h, x, y - 1);
    } else if j == Idx(x, y + 1, w) && y < h - 1 {
      CellCoords(w, h, x, y + 1);
    } else if j == Idx(x - 1, y, w) && x > 0 {
      CellCoords(w, h, x - 1, y);
    } else {
      assert j == Idx(x + 1, y, w) && x < w - 1;
      CellCoords(w, h, x + 1, y);
    }
  }

  lemma AdjacentAreNeighbours(w: int, h: int, i: int, j: int)
    requires Adjacent(w, h, i, j)
    ensures j in Neighbours(w, h, i)
  {
    IndexInRange(i, w, h);
    IndexInRange(j, w, h);
    IdxOfIndex(j, w);
  }

  /** The pushed neighbours of a canvas cell are exactly its edge neighbours. */
  lemma NeighboursAdjacent(w: int, h: int, i: int, j: int)
    requires w > 0 && 0 <= i < w * h
    ensures j in Neighbours(w, h, i) <==> Adjacent(w, h, i, j)
  {
    if j in Neighbours(w, h, i) {
      NeighboursAreAdjacent(w, h, i, j);
    }
    if Adjacent(w, h, i, j) {
      AdjacentAreNeighbours(w, h, i, j);
    }
  }

  /** A walk over edge-adjacent cells that all have key `target` in `p`. */
  predicate IsPath(p: seq<Color>, w: int, h: int, target: Color, path: seq<int>) {
    |path| >= 1 &&
    (forall k | 0 <= k < |path| :: 0 <= path[k] < |p| && Key(p[path[k]]) == target) &&
    (forall k | 0 <= k < |path| - 1 :: Adjacent(w, h, path[k], path[k + 1]))
  }

  /** Cell `i` is 4-connected to `start` through cells of the start cell's key. */
  ghost predicate Reach(p: seq<Color>, w: int, h: int, start: int, i: int)
    requires 0 <= start < |p|
  {
    exists path :: IsPath(p, w, h, Key(p[start]), path) && path[0] == start && path[|path| - 1] == i
  }

  /** The start cell reaches itself. */
  lemma ReachStart(p: seq<Color>, w: int, h: int, start: int)
    requires 0 <= start < |p|
    ensures Reach(p, w, h, start, start)
  {
    assert IsPath(p, w, h, Key(p[start]), [start]);
  }

  /** The cells of a path extended by one cell of the same key. */
  lemma PathExtendCells(p: seq<Color>, w: int, h: int, target: Color, path: seq<int>, j: int)
    requires IsPath(p, w, h, target, path) && 0 <= j < |p| && Key(p[j]) == target
    ensures forall k | 0 <= k < |path + [j]| :: 0 <= (path + [j])[k] < |p| && Key(p[(path + [j])[k]]) == target
  {
    var path' := path + [j];
    forall k | 0 <= k < |path'|
      ensures 0 <= path'[k] < |p| && Key(p[path'[k]]) == target
    {
      if k < |path| { assert path'[k] == path[k]; }
    }
  }

  /** The steps of a path extended by a neighbour of its last cell. */
  lemma PathExtendSteps(w: int, h: int, path: seq<int>, j: int)
    requires |path| >= 1 && forall k | 0 <= k < |path| - 1 :: Adjacent(w, h, path[k], path[k + 1])
    requires Adjacent(w, h, path[|path| - 1], j)
    ensures forall k | 0 <= k < |path + [j]| - 1 :: Adjacent(w, h, (path + [j])[k], (path + [j])[k + 1])
  {
    var path' := path + [j];
    forall k | 0 <= k < |path'| - 1
      ensures Adjacent(w, h, path'[k], path'[k + 1])
    {
      if k < |path| - 1 {
        assert path'[k] == path[k] && path'[k + 1] == path[k + 1];
      } else {
        assert path'[k] == path[|path| - 1] && path'[k + 1] == j;
      }
    }
  }

  /** A reached cell extends the region to each neighbour of the start key. */
  lemma ReachStep(p: seq<Color>, w: int, h: int, start: int, i: int, j: int)
    requires 0 <= start < |p| && 0 <= j < |p|
    requires Reach(p, w, h, start, i) && Adjacent(w, h, i, j) && Key(p[j]) == Key(p[start])
    ensures Reach(p, w, h, start, j)
  {
    var path :| IsPath(p, w, h, Key(p[start]), path) && path[0] == start && path[|path| - 1] == i;
    PathExtendCells(p, w, h, Key(p[start]), path, j);
    PathExtendSteps(w, h, path, j);
    assert IsPath(p, w, h, Key(p[start]), path + [j]);
    assert (path + [j])[0] == start;
  }

  /**
   * The canvas after a flood fill from `start` with `replacement`: nothing when the start
   * key already equals the replacement, else every cell connected to the start recoloured.
   */
  ghost function FloodFilled(p: seq<Color>, w: int, h: int, start: int, replacement: Color): (r: seq<Color>)
    requires 0 <= start < |p|
    ensures |r| == |p|
  {
    if Key(p[start]) == replacement then p
    else seq(|p|, i requires 0 <= i < |p| => if Reach(p, w, h, start, i) then replacement else p[i])
  }

  /** A region contains only cells of the start key, so the fill never recolours a cell of another key. */
  lemma ReachKey(p: seq<Color>, w: int, h: int, start: int, i: int)
    requires 0 <= start < |p| && Reach(p, w, h, start, i)
    ensures 0 <= i < |p| && Key(p[i]) == Key(p[start])
  {
    var path :| IsPath(p, w, h, Key(p[start]), path) && path[0] == start && path[|path| - 1] == i;
  }

  /** `visited` is closed under stepping from one of its `target`-key cells to a neighbour. */
  ghost predicate ClosedUnder(p: seq<Color>, w: int, h: int, target: Color, visited: set<int>)
    requires w > 0
  {
    forall v | v in visited && 0 <= v < |p| && Key(p[v]) == target :: forall j | j in Neighbours(w, h, v) :: j in visited
  }

  /** Every cell of a path lies in a closed set that holds the path's first cell. */
  lemma {:induction false} PathInClosed(p: seq<Color>, w: int, h: int, target: Color, path: seq<int>, visited: set<int>, k: nat)
    requires w > 0 && |p| == w * h && IsPath(p, w, h, target, path) && path[0] in visited
    requires ClosedUnder(p, w, h, target, visited)
    requires k < |path|
    ensures path[k] in visited
  {
    if k > 0 {
      PathInClosed(p, w, h, target, path, visited, k - 1);
      var v := path[k - 1];
      assert 0 <= v < |p| && Key(p[v]) == target;
      assert Adjacent(w, h, v, path[k]);
      NeighboursAdjacent(w, h, v, path[k]);
    }
  }

  /** A set that holds the start and is closed under stepping to neighbours of start-key cells holds the whole region. */
  lemma ReachClosed(p: seq<Color>, w: int, h: int, start: int, visited: set<int>)
    requires w > 0 && |p| == w * h && 0 <= start < |p| && start in visited
    requires ClosedUnder(p, w, h, Key(p[start]), visited)
    ensures forall i | Reach(p, w, h, start, i) :: i in visited
  {
    forall i | Reach(p, w, h, start, i)
      ensures i in visited
    {
      var path :| IsPath(p, w, h, Key(p[start]), path) && path[0] == start && path[|path| - 1] == i;
      PathInClosed(p, w, h, Key(p[start]), path, visited, |path| - 1);
    }
  }

  /** The cells the start is connected to are on the canvas, and they keep the start key. */
  lemma ReachNeighbour(p: seq<Color>, w: int, h: int, start: int, i: int, j: int)
    requires w > 0 && |p| == w * h && 0 <= start < |p|
    requires Reach(p, w, h, start, i) && j in Neighbours(w, h, i) && 0 <= j < |p| && Key(p[j]) == Key(p[start])
    ensures Reach(p, w, h, start, j)
  {
    ReachKey(p, w, h, start, i);
    NeighboursAdjacent(w, h, i, j);
    ReachStep(p, w, h, start, i, j);
  }

  /** A size-1 brush issues the single write at its centre. */
  lemma BrushWritesSizeOne(w: int, h: int, center: int, shape: string, c: Color)
    requires w > 0 && 0 <= center < w * h
    requires shape == "square" || shape == "circle"
    ensures BrushWrites(w, h, center, 1, shape, c) == [PixelWrite(center, c)]
  {
    var f := BrushFn(w, h, center % w, center / w, 0, shape, c);
    IndexInRange(center, w, h);
    IdxOfIndex(center, w);
    assert f(0, 0) == Some(PixelWrite(center, c));
    assert Rect(1, 1) == [1];
    assert RowWrites(f, 0, 1) == [PixelWrite(center, c)];
    assert RowsWrites(f, [1]) == RowsWrites(f, []) + RowWrites(f, 0, 1);
  }

  /**
   * A cell on the flood-fill stack: the start cell, or a neighbour of a cell already known to
   * be connected to the start.
   */
  ghost predicate Frontier(p: seq<Color>, w: int, h: int, start: int, s: int)
    requires w > 0 && 0 <= start < |p|
  {
    s == start || exists v :: 0 <= v < |p| && Reach(p, w, h, start, v) && s in Neighbours(w, h, v)
  }

  /** A popped stack cell of the start key is connected to the start. */
  lemma FrontierReach(p: seq<Color>, w: int, h: int, start: int, s: int)
    requires w > 0 && |p| == w * h && 0 <= start < |p| && 0 <= s < |p|
    requires Frontier(p, w, h, start, s) && Key(p[s]) == Key(p[start])
    ensures Reach(p, w, h, start, s)
  {
    if s == start {
      ReachStart(p, w, h, start);
    } else {
      var v :| 0 <= v < |p| && Reach(p, w, h, start, v) && s in Neighbours(w, h, v);
      ReachNeighbour(p, w, h, start, v, s);
    }
  }

  /** The neighbours pushed for a connected cell are stack cells. */
  lemma FrontierPush(p: seq<Color>, w: int, h: int, start: int, v: int)
    requires w > 0 && 0 <= start < |p| && 0 <= v < |p| && Reach(p, w, h, start, v)
    ensures forall j | j in Neighbours(w, h, v) :: Frontier(p, w, h, start, j)
  {
  }

  /** Every pushed neighbour is a cell of the canvas. */
  lemma NeighboursInRange(w: int, h: int, i: int)
    requires w > 0 && 0 <= i < w * h
    ensures forall j | j in Neighbours(w, h, i) :: 0 <= j < w * h
  {
    forall j | j in Neighbours(w, h, i)
      ensures 0 <= j < w * h
    {
      NeighboursAreAdjacent(w, h, i, j);
    }
  }
}
