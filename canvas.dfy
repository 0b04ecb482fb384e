/**
 * The canvas engine as one object: the pixel grid with its dimensions, the undo/redo
 * history, the brush settings, the two reference lines, the list of placed components and
 * the resize drag state. The grid of `.pixel` elements becomes the sequence `pixels` of their
 * background colours, row-major, `""` for a cell whose colour was never set.
 */
module CanvasManager {
  import opened Wrappers
  import opened Grid
  import opened Components
  import History
  import opened CanvasOps
  import opened Resize

  /** The colour the draw tool falls back to. */
  const White: Color := "#ffffff"

  /** `window.currentColor || '#ffffff'` */
  function DrawColor(color: Color): (r: Color)
    ensures r != ""
    ensures color != "" ==> r == color
    ensures color == "" ==> r == White
  {
    if color == "" then White else color
  }

  /** The colour a tool writes into a cell: the draw colour, the background for the eraser, the replacement for fill. */
  function PaintColor(tool: string, color: Color): Color {
    if tool == "draw" then DrawColor(color) else if tool == "erase" then Black else color
  }

  /** What `drawPixel` does to a cell with the current tool: paint it one colour, flood-fill from it, or nothing. */
  datatype Effect = Paint(c: Color) | Fill(c: Color) | NoEffect

  /** The draw tool and the eraser paint `PaintColor`, the fill tool floods with the current colour, any other tool does nothing. */
  function ToolEffect(tool: string, color: Color): (e: Effect)
    ensures e.Paint? <==> tool == "draw" || tool == "erase"
    ensures e.Fill? <==> tool == "fill"
    ensures e.Paint? ==> e.c == PaintColor(tool, color)
    ensures e.Fill? ==> e.c == color
  {
    if tool == "draw" || tool == "erase" then Paint(PaintColor(tool, color))
    else if tool == "fill" then Fill(color)
    else NoEffect
  }

  /** `drawPixel` on cell `i`. */
  ghost function DrawPixelEffect(p: seq<Color>, w: int, h: int, e: Effect, i: int): (r: seq<Color>)
    requires w > 0
    ensures |r| == |p|
  {
    match e
    case Paint(c) => Write(p, i, c)
    case Fill(c) => if 0 <= i < |p| then FloodFilled(p, w, h, i, c) else p
    case NoEffect => p
  }

  /** `drawPixel` on each cell of `ws`, in order. */
  ghost function DrawAll(p: seq<Color>, w: int, h: int, e: Effect, ws: seq<PixelWrite>): (r: seq<Color>)
    requires w > 0
    ensures |r| == |p|
    decreases |ws|
  {
    if ws == [] then p
    else DrawPixelEffect(DrawAll(p, w, h, e, ws[..|ws| - 1]), w, h, e, ws[|ws| - 1].index)
  }

  lemma DrawAllOne(p: seq<Color>, w: int, h: int, e: Effect, ws: seq<PixelWrite>, pw: PixelWrite)
    requires w > 0
    ensures DrawAll(p, w, h, e, ws + [pw]) == DrawPixelEffect(DrawAll(p, w, h, e, ws), w, h, e, pw.index)
  {
    assert (ws + [pw])[..|ws|] == ws;
  }

  /** Drawing a list of cells is drawing its first part and then the rest. */
  lemma {:induction false} DrawAllAppend(p: seq<Color>, w: int, h: int, e: Effect, a: seq<PixelWrite>, b: seq<PixelWrite>)
    requires w > 0
    ensures DrawAll(p, w, h, e, a + b) == DrawAll(DrawAll(p, w, h, e, a), w, h, e, b)
    decreases |b|
  {
    if b == [] {
      assert a + b == a;
    } else {
      assert (a + b)[..|a + b| - 1] == a + b[..|b| - 1];
      DrawAllAppend(p, w, h, e, a, b[..|b| - 1]);
    }
  }

  /** One more row of a nested drawing loop draws that row's cells on top of the rows before. */
  lemma DrawRowsStep(p: seq<Color>, w: int, h: int, e: Effect, f: (int, int) -> Option<PixelWrite>, rows: seq<nat>, ly: nat)
    requires w > 0 && ly < |rows|
    ensures DrawAll(DrawAll(p, w, h, e, RowsWrites(f, rows[..ly])), w, h, e, RowWrites(f, ly, rows[ly]))
         == DrawAll(p, w, h, e, RowsWrites(f, rows[..ly + 1]))
  {
    RowsWritesStep(f, rows, ly);
    DrawAllAppend(p, w, h, e, RowsWrites(f, rows[..ly]), RowWrites(f, ly, rows[ly]));
  }

  /** With the draw tool or the eraser, drawing the cells is issuing the writes of the tool's colour. */
  lemma {:induction false} DrawAllWrites(p: seq<Color>, w: int, h: int, c: Color, ws: seq<PixelWrite>)
    requires w > 0
    requires forall pw | pw in ws :: pw.color == c
    ensures DrawAll(p, w, h, Paint(c), ws) == ApplyWrites(p, ws)
    decreases |ws|
  {
    if ws != [] {
      assert forall pw | pw in ws[..|ws| - 1] :: pw in ws;
      assert ws[|ws| - 1] in ws;
      DrawAllWrites(p, w, h, c, ws[..|ws| - 1]);
    }
  }

  /** Any tool other than draw, erase and fill leaves the canvas as it is. */
  lemma {:induction false} DrawAllOtherTool(p: seq<Color>, w: int, h: int, ws: seq<PixelWrite>)
    requires w > 0
    ensures DrawAll(p, w, h, NoEffect, ws) == p
    decreases |ws|
  {
    if ws != [] {
      DrawAllOtherTool(p, w, h, ws[..|ws| - 1]);
    }
  }

  /** The cells `drawBrush` passes to `drawPixel` around `center`, in loop order. */
  function StrokeCells(w: int, h: int, center: int, size: int, shape: string, tool: string, color: Color): seq<PixelWrite>
    requires w > 0
  {
    BrushWrites(w, h, center, size, shape, PaintColor(tool, color))
  }

  /** A brush dab of the draw tool or the eraser paints exactly the in-bounds cells under the brush, and nothing else. */
  lemma StrokeBrushed(p: seq<Color>, w: int, h: int, center: int, size: int, shape: string, tool: string, color: Color)
    requires w > 0 && h > 0 && |p| == w * h && (tool == "draw" || tool == "erase")
    ensures DrawAll(p, w, h, ToolEffect(tool, color), StrokeCells(w, h, center, size, shape, tool, color))
         == Brushed(p, w, center, size, shape, PaintColor(tool, color))
  {
    var c := PaintColor(tool, color);
    var ws := BrushWrites(w, h, center, size, shape, c);
    forall pw | pw in ws
      ensures pw.color == c
    {
      BrushWriteTarget(w, h, center, size, shape, c, pw);
    }
    DrawAllWrites(p, w, h, c, ws);
    BrushWritesEffect(p, w, h, center, size, shape, c);
  }

  /** With a size-1 square or circle brush the fill tool runs exactly one flood fill, from the clicked cell. */
  lemma StrokeFillSizeOne(p: seq<Color>, w: int, h: int, center: int, shape: string, color: Color)
    requires w > 0 && |p| == w * h && 0 <= center < |p|
    requires shape == "square" || shape == "circle"
    ensures DrawAll(p, w, h, Fill(color), BrushWrites(w, h, center, 1, shape, color)) == FloodFilled(p, w, h, center, color)
  {
    BrushWritesSizeOne(w, h, center, shape, color);
    DrawAllOne(p, w, h, Fill(color), [], PixelWrite(center, color));
  }

  /** Iteration (lx, ly) of the brush loops around (cx, cy): `drawPixel` when the cell is on the canvas and in the brush. */
  ghost function BrushCellEffect(p: seq<Color>, w: int, h: int, e: Effect, cx: int, cy: int, r: int, shape: string,
                                 lx: int, ly: int): (q: seq<Color>)
    requires w > 0
    ensures |q| == |p|
  {
    var x, y := cx + (lx - r), cy + (ly - r);
    if 0 <= x < w && 0 <= y < h && InBrush(shape, lx - r, ly - r, r) then DrawPixelEffect(p, w, h, e, Idx(x, y, w)) else p
  }

  /** Iteration (lx, ly) of the brush loops is `drawPixel` on the cell `BrushCell` picks, which is on the canvas. */
  lemma BrushCellIsWrite(p: seq<Color>, w: int, h: int, e: Effect, c: Color, cx: int, cy: int, r: int, shape: string, lx: int, ly: int)
    requires w > 0
    ensures var o := BrushCell(w, h, cx, cy, r, shape, c, lx, ly);
            (o.Some? ==> 0 <= o.value.index < w * h) &&
            BrushCellEffect(p, w, h, e, cx, cy, r, shape, lx, ly) == (if o.Some? then DrawPixelEffect(p, w, h, e, o.value.index) else p)
  {
    var x, y := cx + (lx - r), cy + (ly - r);
    if 0 <= x < w && 0 <= y < h {
      IdxInRange(x, y, w, h);
    }
  }

  /** The first `n` iterations of the inner brush loop of row `ly`. */
  ghost function BrushRowPrefix(p: seq<Color>, w: int, h: int, e: Effect, cx: int, cy: int, r: int, shape: string,
                                ly: int, n: nat): (q: seq<Color>)
    requires w > 0
    ensures |q| == |p|
  {
    if n == 0 then p
    else BrushCellEffect(BrushRowPrefix(p, w, h, e, cx, cy, r, shape, ly, n - 1), w, h, e, cx, cy, r, shape, n - 1, ly)
  }

  /** The first `m` iterations of the outer brush loop: rows 0 .. m - 1, each `Span(r)` cells wide. */
  ghost function BrushRowsPrefix(p: seq<Color>, w: int, h: int, e: Effect, cx: int, cy: int, r: int, shape: string,
                                 m: nat): (q: seq<Color>)
    requires w > 0
    ensures |q| == |p|
  {
    if m == 0 then p
    else BrushRowPrefix(BrushRowsPrefix(p, w, h, e, cx, cy, r, shape, m - 1), w, h, e, cx, cy, r, shape, m - 1, Span(r))
  }

  /** One iteration of the inner brush loop is `drawPixel` on the write the brush gives that cell, if any. */
  lemma BrushCellWrite(g: seq<Color>, w: int, h: int, e: Effect, c: Color, cx: int, cy: int, r: int, shape: string,
                       f: (int, int) -> Option<PixelWrite>, lx: int, ly: int)
    requires w > 0 && f == BrushFn(w, h, cx, cy, r, shape, c)
    ensures f(lx, ly).Some? ==> BrushCellEffect(g, w, h, e, cx, cy, r, shape, lx, ly) == DrawPixelEffect(g, w, h, e, f(lx, ly).value.index)
    ensures f(lx, ly).None? ==> BrushCellEffect(g, w, h, e, cx, cy, r, shape, lx, ly) == g
  {
    assert f(lx, ly) == BrushCell(w, h, cx, cy, r, shape, c, lx, ly);
  }

  /** The inner brush loop, iteration by iteration, is `drawPixel` over the row's brush writes. */
  lemma {:induction false} BrushRowPrefixWrites(p: seq<Color>, w: int, h: int, e: Effect, c: Color,
                                                 cx: int, cy: int, r: int, shape: string, ly: int, n: nat)
    requires w > 0
    ensures BrushRowPrefix(p, w, h, e, cx, cy, r, shape, ly, n)
         == DrawAll(p, w, h, e, RowWrites(BrushFn(w, h, cx, cy, r, shape, c), ly, n))
    decreases n
  {
    if n > 0 {
      var k := n - 1;
      BrushRowPrefixWrites(p, w, h, e, c, cx, cy, r, shape, ly, k);
      var f := BrushFn(w, h, cx, cy, r, shape, c);
      var ws := RowWrites(f, ly, k);
      var o := f(k, ly);
      RowWritesStep(f, ly, k);
      assert k + 1 == n;
      var g := BrushRowPrefix(p, w, h, e, cx, cy, r, shape, ly, k);
      assert BrushRowPrefix(p, w, h, e, cx, cy, r, shape, ly, n) == BrushCellEffect(g, w, h, e, cx, cy, r, shape, k, ly);
      BrushCellWrite(g, w, h, e, c, cx, cy, r, shape, f, k, ly);
      if o.Some? {
        assert RowWrites(f, ly, n) == ws + [o.value];
        DrawAllOne(p, w, h, e, ws, o.value);
      } else {
        assert RowWrites(f, ly, n) == ws;
      }
    }
  }

  /** The two brush loops, row by row, are `drawPixel` over the brush's writes in loop order. */
  lemma {:induction false} BrushRowsPrefixWrites(p: seq<Color>, w: int, h: int, e: Effect, c: Color,
                                                  cx: int, cy: int, r: int, shape: string, m: nat)
    requires w > 0 && m <= Span(r)
    ensures BrushRowsPrefix(p, w, h, e, cx, cy, r, shape, m)
         == DrawAll(p, w, h, e, RowsWrites(BrushFn(w, h, cx, cy, r, shape, c), Rect(Span(r), Span(r))[..m]))
    decreases m
  {
    if m > 0 {
      var k := m - 1;
      var f := BrushFn(w, h, cx, cy, r, shape, c);
      var rows := Rect(Span(r), Span(r));
      BrushRowsPrefixWrites(p, w, h, e, c, cx, cy, r, shape, k);
      var g := BrushRowsPrefix(p, w, h, e, cx, cy, r, shape, k);
      BrushRowPrefixWrites(g, w, h, e, c, cx, cy, r, shape, k, Span(r));
      DrawRowsStep(p, w, h, e, f, rows, k);
      assert k + 1 == m;
    }
  }

  // ---------------------------------------------------------------- flood-fill loop steps

  /** The cell indices of a grid of `n` cells. */
  function CellSet(n: nat): (r: set<int>)
    ensures forall i :: i in r <==> 0 <= i < n
  {
    if n == 0 then {} else CellSet(n - 1) + {n - 1}
  }

  /** Every cell on the stack is on the canvas and is the start or a neighbour of a region cell. */
  ghost predicate StackCells(p: seq<Color>, w: int, h: int, start: int, stack: seq<int>)
    requires w > 0 && 0 <= start < |p|
  {
    forall k | 0 <= k < |stack| :: 0 <= stack[k] < |p| && Frontier(p, w, h, start, stack[k])
  }

  /** The grid so far differs from the original `p` exactly on the visited cells of the target key. */
  ghost predicate Painted(p: seq<Color>, target: Color, replacement: Color, pixels: seq<Color>, visited: set<int>) {
    |pixels| == |p| &&
    (forall v | v in visited :: 0 <= v < |p|) &&
    (forall i | 0 <= i < |p| :: pixels[i] == if i in visited && Key(p[i]) == target then replacement else p[i])
  }

  /** Every visited cell of the start key belongs to the start's region. */
  ghost predicate InRegion(p: seq<Color>, w: int, h: int, start: int, visited: set<int>)
    requires 0 <= start < |p|
  {
    forall v | v in visited && 0 <= v < |p| && Key(p[v]) == Key(p[start]) :: Reach(p, w, h, start, v)
  }

  /** Nothing is lost: the start and every neighbour of a visited target cell is visited or still on the stack. */
  ghost predicate Pending(p: seq<Color>, w: int, h: int, target: Color, start: int, stack: seq<int>, visited: set<int>)
    requires w > 0
  {
    (start in visited || start in stack) &&
    forall v | v in visited && 0 <= v < |p| && Key(p[v]) == target :: forall j | j in Neighbours(w, h, v) :: j in visited || j in stack
  }

  /** The popped cell is a stack cell, and so is the rest of the stack. */
  lemma StackPop(p: seq<Color>, w: int, h: int, start: int, s: seq<int>)
    requires w > 0 && 0 <= start < |p| && |s| > 0
    requires StackCells(p, w, h, start, s)
    ensures StackCells(p, w, h, start, s[..|s| - 1])
    ensures 0 <= s[|s| - 1] < |p| && Frontier(p, w, h, start, s[|s| - 1])
  {
  }

  /** The neighbours pushed for a region cell are stack cells. */
  lemma StackPush(p: seq<Color>, w: int, h: int, start: int, stack: seq<int>, index: int)
    requires w > 0 && |p| == w * h && 0 <= start < |p| && 0 <= index < |p|
    requires StackCells(p, w, h, start, stack) && Reach(p, w, h, start, index)
    ensures StackCells(p, w, h, start, stack + Neighbours(w, h, index))
  {
    FrontierPush(p, w, h, start, index);
    NeighboursInRange(w, h, index);
    var s := stack + Neighbours(w, h, index);
    forall k | 0 <= k < |s|
      ensures 0 <= s[k] < |p| && Frontier(p, w, h, start, s[k])
    {
      if k >= |stack| {
        assert s[k] == Neighbours(w, h, index)[k - |stack|];
        assert s[k] in Neighbours(w, h, index);
      } else {
        assert s[k] == stack[k];
      }
    }
  }

  /** An unvisited cell still has its original colour. */
  lemma PaintedUnvisited(p: seq<Color>, target: Color, replacement: Color, pixels: seq<Color>, visited: set<int>, index: int)
    requires Painted(p, target, replacement, pixels, visited)
    requires 0 <= index < |p| && index !in visited
    ensures pixels[index] == p[index]
  {
  }

  /** Popping a visited cell, or visiting a cell of another key, leaves the grid as the invariant says. */
  lemma PaintedSkip(p: seq<Color>, target: Color, replacement: Color, pixels: seq<Color>, visited: set<int>, index: int)
    requires Painted(p, target, replacement, pixels, visited)
    requires 0 <= index < |p| && (index in visited || Key(p[index]) != target)
    ensures Painted(p, target, replacement, pixels, visited + {index})
  {
  }

  /** Visiting an unvisited target cell: it still has its original colour, and recolouring it keeps the invariant. */
  lemma PaintedVisit(p: seq<Color>, target: Color, replacement: Color, pixels: seq<Color>, visited: set<int>, index: int)
    requires Painted(p, target, replacement, pixels, visited)
    requires 0 <= index < |p| && index !in visited && Key(p[index]) == target
    ensures pixels[index] == p[index]
    ensures Painted(p, target, replacement, pixels[index := replacement], visited + {index})
  {
  }

  /** A visited cell keeps the region invariant when it is of another key or in the region. */
  lemma InRegionAdd(p: seq<Color>, w: int, h: int, start: int, visited: set<int>, index: int)
    requires 0 <= start < |p| && InRegion(p, w, h, start, visited) && 0 <= index < |p|
    requires Key(p[index]) == Key(p[start]) ==> Reach(p, w, h, start, index)
    ensures InRegion(p, w, h, start, visited + {index})
  {
  }

  /** Popping a cell and then skipping it keeps every pending cell pending. */
  lemma PendingSkip(p: seq<Color>, w: int, h: int, target: Color, start: int, s: seq<int>, visited: set<int>)
    requires w > 0 && |s| > 0 && 0 <= s[|s| - 1] < |p|
    requires Pending(p, w, h, target, start, s, visited)
    requires s[|s| - 1] in visited || Key(p[s[|s| - 1]]) != target
    ensures Pending(p, w, h, target, start, s[..|s| - 1], visited + {s[|s| - 1]})
  {
    assert s == s[..|s| - 1] + [s[|s| - 1]];
    assert forall j | j in s :: j in s[..|s| - 1] || j == s[|s| - 1];
  }

  /** Popping a cell that is already visited keeps every pending cell pending. */
  lemma PendingPopVisited(p: seq<Color>, w: int, h: int, target: Color, start: int, s: seq<int>, visited: set<int>)
    requires w > 0 && |s| > 0
    requires Pending(p, w, h, target, start, s, visited)
    requires s[|s| - 1] in visited
    ensures Pending(p, w, h, target, start, s[..|s| - 1], visited)
  {
    assert s == s[..|s| - 1] + [s[|s| - 1]];
    assert forall j | j in s :: j in s[..|s| - 1] || j == s[|s| - 1];
  }

  /** Popping a target cell and pushing its neighbours keeps every pending cell pending. */
  lemma PendingVisit(p: seq<Color>, w: int, h: int, target: Color, start: int, s: seq<int>, visited: set<int>)
    requires w > 0 && |s| > 0 && 0 <= s[|s| - 1] < |p|
    requires Pending(p, w, h, target, start, s, visited)
    ensures var stack, index := s[..|s| - 1], s[|s| - 1];
            Pending(p, w, h, target, start, stack + Neighbours(w, h, index), visited + {index})
  {
    var stack, index := s[..|s| - 1], s[|s| - 1];
    assert s == stack + [index];
    var s' := stack + Neighbours(w, h, index);
    assert forall j | j in s :: j in stack || j == index;
    assert forall j | j in stack :: j in s';
    assert forall j | j in Neighbours(w, h, index) :: j in s';
  }

  /** The whole loop invariant of the flood fill. */
  ghost predicate FillState(p: seq<Color>, w: int, h: int, start: int, replacement: Color,
                            pixels: seq<Color>, stack: seq<int>, visited: set<int>)
    requires w > 0 && 0 <= start < |p|
  {
    StackCells(p, w, h, start, stack) && Painted(p, Key(p[start]), replacement, pixels, visited) &&
    InRegion(p, w, h, start, visited) && Pending(p, w, h, Key(p[start]), start, stack, visited)
  }

  /** Visiting a new cell takes it out of the cells still to visit. */
  lemma FillProgress(n: nat, visited: set<int>, index: int)
    requires 0 <= index < n && index !in visited
    ensures CellSet(n) - (visited + {index}) < CellSet(n) - visited
  {
    assert index in CellSet(n) - visited;
  }

  /** The top of the stack is a canvas cell; if it is unvisited, it still has its original colour. */
  lemma FillTop(p: seq<Color>, w: int, h: int, start: int, replacement: Color,
                pixels: seq<Color>, s: seq<int>, visited: set<int>)
    requires w > 0 && 0 <= start < |p| && |s| > 0
    requires FillState(p, w, h, start, replacement, pixels, s, visited)
    ensures 0 <= s[|s| - 1] < |p| == |pixels|
    ensures s[|s| - 1] !in visited ==> pixels[s[|s| - 1]] == p[s[|s| - 1]]
  {
    StackPop(p, w, h, start, s);
  }

  /** Popping a cell that is already visited keeps the invariant. */
  lemma FillPopVisited(p: seq<Color>, w: int, h: int, start: int, replacement: Color,
                       pixels: seq<Color>, s: seq<int>, visited: set<int>)
    requires w > 0 && 0 <= start < |p| && |s| > 0
    requires FillState(p, w, h, start, replacement, pixels, s, visited)
    requires s[|s| - 1] in visited
    ensures FillState(p, w, h, start, replacement, pixels, s[..|s| - 1], visited)
  {
    StackPop(p, w, h, start, s);
    PendingPopVisited(p, w, h, Key(p[start]), start, s, visited);
  }

  /** Popping a visited cell, or visiting a cell of another key, keeps the invariant. */
  lemma FillSkip(p: seq<Color>, w: int, h: int, start: int, replacement: Color,
                 pixels: seq<Color>, s: seq<int>, visited: set<int>)
    requires w > 0 && 0 <= start < |p| && |s| > 0
    requires FillState(p, w, h, start, replacement, pixels, s, visited)
    requires 0 <= s[|s| - 1] < |p| && (s[|s| - 1] in visited || Key(p[s[|s| - 1]]) != Key(p[start]))
    ensures FillState(p, w, h, start, replacement, pixels, s[..|s| - 1], visited + {s[|s| - 1]})
  {
    var index := s[|s| - 1];
    StackPop(p, w, h, start, s);
    PaintedSkip(p, Key(p[start]), replacement, pixels, visited, index);
    InRegionAdd(p, w, h, start, visited, index);
    PendingSkip(p, w, h, Key(p[start]), start, s, visited);
  }

  /** Visiting an unvisited target cell, recolouring it and pushing its neighbours keeps the invariant. */
  lemma FillVisit(p: seq<Color>, w: int, h: int, start: int, replacement: Color,
                  pixels: seq<Color>, s: seq<int>, visited: set<int>)
    requires w > 0 && |p| == w * h && 0 <= start < |p| && |s| > 0
    requires FillState(p, w, h, start, replacement, pixels, s, visited)
    requires 0 <= s[|s| - 1] < |p| && s[|s| - 1] !in visited && Key(p[s[|s| - 1]]) == Key(p[start])
    ensures var index := s[|s| - 1];
            FillState(p, w, h, start, replacement, pixels[index := replacement],
                      s[..|s| - 1] + Neighbours(w, h, index), visited + {index})
  {
    var index := s[|s| - 1];
    StackPop(p, w, h, start, s);
    FrontierReach(p, w, h, start, index);
    PaintedVisit(p, Key(p[start]), replacement, pixels, visited, index);
    InRegionAdd(p, w, h, start, visited, index);
    PendingVisit(p, w, h, Key(p[start]), start, s, visited);
    StackPush(p, w, h, start, s[..|s| - 1], index);
  }

  /** The pushes of `floodFill` for cell `index`: up, down, left and right, each when it is on the canvas. */
  method PushNeighbours(w: int, h: int, stack: seq<int>, index: int) returns (r: seq<int>)
    requires w > 0
    ensures r == stack + Neighbours(w, h, index)
  {
    var x, y := index % w, index / w;
    ghost var added := [];
    r := stack;
    if y > 0 {
      r, added := r + [(y - 1) * w + x], added + [(y - 1) * w + x];
    }
    assert r == stack + added;
    if y < h - 1 {
      r, added := r + [(y + 1) * w + x], added + [(y + 1) * w + x];
    }
    assert r == stack + added;
    if x > 0 {
      r, added := r + [y * w + (x - 1)], added + [y * w + (x - 1)];
    }
    assert r == stack + added;
    if x < w - 1 {
      r, added := r + [y * w + (x + 1)], added + [y * w + (x + 1)];
    }
    assert r == stack + added;
  }

  /** When the stack runs empty, the visited target cells are exactly the start's region. */
  lemma FillDone(p: seq<Color>, w: int, h: int, start: int, replacement: Color, pixels: seq<Color>, visited: set<int>)
    requires w > 0 && |p| == w * h && 0 <= start < |p|
    requires Key(p[start]) != replacement
    requires FillState(p, w, h, start, replacement, pixels, [], visited)
    ensures pixels == FloodFilled(p, w, h, start, replacement)
  {
    assert ClosedUnder(p, w, h, Key(p[start]), visited);
    ReachClosed(p, w, h, start, visited);
    forall i | 0 <= i < |p|
      ensures pixels[i] == FloodFilled(p, w, h, start, replacement)[i]
    {
      if Reach(p, w, h, start, i) {
        ReachKey(p, w, h, start, i);
      }
    }
  }

  // ---------------------------------------------------------------- the canvas

  // ---------------------------------------------------------------- resize loops

  /** The inner copy loop of `resizeCanvas` for row `y` of the plan, with the lower bound in its check. */
  method CopyRow(r: seq<Color>, pl: CopyPlan, data: seq<Color>, oW: int, oH: int, nW: int, nH: int, y: int)
    returns (r': seq<Color>)
    ensures r' == ApplyWrites(r, RowWrites(CopyFn(pl, data, oW, oH, nW, nH, true), y, Count(pl.sx, pl.ex)))
  {
    var copyCell := CopyFn(pl, data, oW, oH, nW, nH, true);
    r' := r;
    var x := 0;
    while x < pl.ex - pl.sx
      invariant 0 <= x <= Count(pl.sx, pl.ex)
      invariant r' == ApplyWrites(r, RowWrites(copyCell, y, x))
    {
      var o := copyCell(x, y);
      RowWritesApplyStep(r, copyCell, y, x);
      if o.Some? {
        r' := Write(r', o.value.index, o.value.color);
      }
      x := x + 1;
    }
  }

  /** The copy loops of `resizeCanvas` into an all-background grid: the drawing moved by the content offset. */
  method ResizeCopy(data: seq<Color>, handle: Option<Handle>, oW: nat, oH: nat, nW: nat, nH: nat) returns (r: seq<Color>)
    requires 1 <= oW && 1 <= oH && 1 <= nW && 1 <= nH && |data| == oW * oH
    ensures var off := ContentOffset(handle, oW, oH, nW, nH);
            r == Resized(data, oW, oH, nW, nH, off.0, off.1)
  {
    var pl := ResizePlan(handle, oW, oH, nW, nH);
    ghost var f := CopyFn(pl, data, oW, oH, nW, nH, true);
    ghost var rows := CopyRows(pl);
    ghost var blank := Filled(nW * nH, Black);
    r := Filled(nW * nH, Black);
    var y := 0;
    while y < pl.ey - pl.sy
      invariant 0 <= y <= Count(pl.sy, pl.ey)
      invariant r == ApplyWrites(blank, RowsWrites(f, rows[..y]))
    {
      r := CopyRow(r, pl, data, oW, oH, nW, nH, y);
      RowsWritesStep(f, rows, y);
      ApplyWritesAppend(blank, RowsWrites(f, rows[..y]), RowWrites(f, y, rows[y]));
      y := y + 1;
    }
    assert rows[..Count(pl.sy, pl.ey)] == rows;
    ResizeWritesEffect(data, handle, oW, oH, nW, nH);
  }

  /** `handleComponentRepositioning`, with the fitting components kept and moved and the others dropped, in list order. */
  method RepositionComponents(comps: seq<Placed>, handle: Option<Handle>, oW: int, oH: int, nW: int, nH: int)
    returns (r: seq<Placed>)
    ensures r == Repositioned(comps, handle, oW, oH, nW, nH)
  {
    r := [];
    var k := 0;
    while k < |comps|
      invariant 0 <= k <= |comps|
      invariant r == Repositioned(comps[..k], handle, oW, oH, nW, nH)
    {
      var c := comps[k];
      RepositionedSnoc(comps[..k], c, handle, oW, oH, nW, nH);
      assert comps[..k + 1] == comps[..k] + [c];
      if FitsAfter(c, handle, oW, oH, nW, nH) {
        r := r + [Moved(c, handle, oW, oH, nW, nH)];
      }
      k := k + 1;
    }
    assert comps[..|comps|] == comps;
  }

  /** The grid `loadCanvasFromData(rows)` leaves on `n` cells `w` wide: cell (x, y) is `rows[y][x]` when it is set, else the background. */
  function RowsCell(rows: seq<seq<Color>>, w: nat, i: int): Color
    requires w > 0
  {
    var y, x := i / w, i % w;
    if 0 <= y < |rows| && x < |rows[y]| && rows[y][x] != "" then rows[y][x] else Black
  }

  /**
   * The grid `loadDataToCanvas(data, ...)` leaves on `n` cells: cell `i` is `data[i] || '#000000'`,
   * and cells past the end of `data` keep `rest`, the value the clear or the fresh grid gave them.
   */
  function Loaded(data: seq<Color>, n: nat, rest: Color): (r: seq<Color>)
    ensures |r| == n
  {
    seq(n, i requires 0 <= i < n => if i < |data| then OrBlack(data[i]) else rest)
  }

  /** Loading data that covers the grid and has no unset cell reproduces it exactly. */
  lemma LoadedExact(data: seq<Color>, rest: Color)
    requires forall i | 0 <= i < |data| :: data[i] != ""
    ensures Loaded(data, |data|, rest) == data
  {
  }

  /** Loading never leaves an unset cell behind the data, and reads `''` as the background. */
  lemma LoadedNoUnset(data: seq<Color>, n: nat, rest: Color, i: int)
    requires 0 <= i < n && i < |data|
    ensures Loaded(data, n, rest)[i] != "" && (data[i] == "" ==> Loaded(data, n, rest)[i] == Black)
  {
  }

  class Canvas {
    var width: nat
    var height: nat
    var pixels: seq<Color>
    /** `canvasHistory` and `historyIndex` */
    var entries: seq<seq<Color>>
    var historyIndex: int
    var brushSize: int
    var brushShape: string
    var baselineY: int
    var baselineVisible: bool
    var verticalX: int
    var verticalVisible: bool
    /** `window.placedComponents` */
    var placed: seq<Placed>
    var isDrawing: bool
    var isResizing: bool
    var resizeHandle: Option<Handle>
    var lastAnchor: Option<Handle>
    var startWidth: int
    var startHeight: int

    /** The history as one value. */
    function Hist(): History.History
      reads this
    {
      History.History(entries, historyIndex)
    }

    ghost predicate Valid()
      reads this
    {
      1 <= width && 1 <= height && |pixels| == width * height && History.Valid(Hist())
    }

    /** `initializeCanvas(w, h)`: a fresh grid of unset cells and one saved snapshot. */
    constructor (w: nat, h: nat)
      requires 1 <= w && 1 <= h
      ensures Valid()
      ensures width == w && height == h && pixels == Filled(w * h, "")
      ensures entries == [Filled(w * h, Black)] && historyIndex == 0
      ensures Hist() == History.Pushed(History.History([], -1), History.Snapshot(pixels))
      ensures brushSize == 1 && brushShape == "square"
      ensures baselineY == 12 && !baselineVisible && verticalX == 8 && !verticalVisible
      ensures placed == [] && !isDrawing && !isResizing && resizeHandle.None? && lastAnchor.None?
    {
      width, height := w, h;
      var blank := Filled(w * h, "");
      pixels := blank;
      // the first `saveCanvasState`, on an empty history
      entries, historyIndex := [History.Snapshot(blank)], 0;
      brushSize, brushShape := 1, "square";
      baselineY, baselineVisible, verticalX, verticalVisible := 12, false, 8, false;
      placed := [];
      isDrawing, isResizing, resizeHandle, lastAnchor := false, false, None, None;
      startWidth, startHeight := 14, 14;
      new;
      History.FirstPush(History.Snapshot(blank));
      History.SnapshotOfBlank(w * h);
    }

    // ------------------------------------------------------------ history

    /** `saveCanvasState`: drop the redo entries, push a snapshot of the grid, evict the oldest past fifty. */
    method SaveState()
      requires Valid()
      modifies this`entries, this`historyIndex
      ensures Valid()
      ensures Hist() == History.Pushed(old(Hist()), History.Snapshot(pixels))
    {
      ghost var h0 := Hist();
      var snap := History.Snapshot(pixels);
      var kept := entries[..historyIndex + 1] + [snap];
      assert historyIndex + 1 == History.Kept(h0);
      var index := historyIndex + 1;
      if |kept| > History.MaxHistory {
        kept, index := kept[1..], index - 1;
      }
      entries, historyIndex := kept, index;
      History.PushedValid(h0, snap);
    }

    /** `restoreCanvasState(state)`: every cell with a non-empty snapshot entry takes it. */
    method RestoreState(state: seq<Color>)
      modifies this`pixels
      ensures pixels == History.Restored(old(pixels), state)
    {
      var i := 0;
      while i < |pixels|
        invariant 0 <= i <= |pixels| == |old(pixels)|
        invariant forall j | 0 <= j < |pixels| :: pixels[j] == if j < i then History.Restored(old(pixels), state)[j] else old(pixels)[j]
      {
        if i < |state| && state[i] != "" {
          pixels := pixels[i := state[i]];
        }
        i := i + 1;
      }
    }

    /** `undo`: step back one snapshot and restore it, when there is one. */
    method Undo()
      requires Valid()
      modifies this`pixels, this`historyIndex
      ensures Valid()
      ensures Hist() == History.Undone(old(Hist()))
      ensures pixels == if History.CanUndo(old(Hist())) then History.Restored(old(pixels), entries[historyIndex]) else old(pixels)
    {
      if historyIndex > 0 {
        historyIndex := historyIndex - 1;
        RestoreState(entries[historyIndex]);
      }
      History.UndoRedoInverse(old(Hist()));
    }

    /** `redo`: step forward one snapshot and restore it, when there is one. */
    method Redo()
      requires Valid()
      modifies this`pixels, this`historyIndex
      ensures Valid()
      ensures Hist() == History.Redone(old(Hist()))
      ensures pixels == if History.CanRedo(old(Hist())) then History.Restored(old(pixels), entries[historyIndex]) else old(pixels)
    {
      if historyIndex < |entries| - 1 {
        historyIndex := historyIndex + 1;
        RestoreState(entries[historyIndex]);
      }
      History.UndoRedoInverse(old(Hist()));
    }

    // ------------------------------------------------------------ composite read

    /** `mergeCanvasWithComponents`: the placed components stamped over `base`, in list order. */
    method MergeWithComponents(base: seq<Color>) returns (merged: seq<Color>)
      requires |base| == width * height
      ensures merged == Merged(base, placed, width, height)
    {
      merged := base;
      var k := 0;
      while k < |placed|
        invariant 0 <= k <= |placed|
        invariant merged == Merged(base, placed[..k], width, height)
      {
        var c := placed[k];
        assert placed[..k + 1][..k] == placed[..k];
        merged := PaintDesign(merged, width, height, c.design, c.x, c.y, None);
        k := k + 1;
      }
      assert placed[..|placed|] == placed;
    }

    /** `getCanvasData`: the grid with `''` read as the background, under the placed components' ink. */
    method GetCanvasData() returns (data: seq<Color>)
      requires Valid()
      ensures data == Merged(History.Snapshot(pixels), placed, width, height)
    {
      var base := History.Snapshot(pixels);
      if |placed| > 0 {
        data := MergeWithComponents(base);
      } else {
        data := base;
      }
    }

    // ------------------------------------------------------------ drawing

    /** `floodFill(start)` with `replacement` the current colour. */
    method FloodFill(start: int, replacement: Color)
      requires Valid() && 0 <= start < |pixels|
      modifies this`pixels
      ensures Valid()
      ensures pixels == FloodFilled(old(pixels), width, height, start, replacement)
    {
      var target := Key(pixels[start]);
      if target == replacement {
        return;
      }
      ghost var visited := FillRegion(start, replacement);
      FillDone(old(pixels), width, height, start, replacement, pixels, visited);
    }

    /** The stack loop of `floodFill`, once the start key differs from the replacement. */
    method FillRegion(start: int, replacement: Color) returns (ghost seen: set<int>)
      requires Valid() && 0 <= start < |pixels|
      modifies this`pixels
      ensures |pixels| == |old(pixels)|
      ensures FillState(old(pixels), width, height, start, replacement, pixels, [], seen)
    {
      var target := Key(pixels[start]);
      ghost var p := pixels;
      var w, h := width, height;
      var stack := [start];
      var visited: set<int> := {};
      while |stack| > 0
        invariant FillState(p, w, h, start, replacement, pixels, stack, visited)
        decreases CellSet(|p|) - visited, |stack|
      {
        ghost var before := stack;
        FillTop(p, w, h, start, replacement, pixels, stack, visited);
        var index := stack[|stack| - 1];
        stack := stack[..|stack| - 1];
        if index in visited {
          FillPopVisited(p, w, h, start, replacement, pixels, before, visited);
          continue;
        }
        var pixelColor := Key(pixels[index]);
        FillProgress(|p|, visited, index);
        if pixelColor != target {
          FillSkip(p, w, h, start, replacement, pixels, before, visited);
          visited := visited + {index};
          continue;
        }
        FillVisit(p, w, h, start, replacement, pixels, before, visited);
        visited := visited + {index};
        pixels := pixels[index := replacement];
        stack := PushNeighbours(w, h, stack, index);
      }
      seen := visited;
    }

    /** `drawPixel` on cell `index`, with `tool` the current tool and `color` the current colour. */
    method DrawPixel(tool: string, color: Color, index: int)
      requires Valid() && 0 <= index < |pixels|
      modifies this`pixels
      ensures Valid()
      ensures pixels == DrawPixelEffect(old(pixels), old(width), old(height), ToolEffect(tool, color), index)
    {
      if tool == "draw" {
        pixels := pixels[index := DrawColor(color)];
      } else if tool == "erase" {
        pixels := pixels[index := Black];
      } else if tool == "fill" {
        FloodFill(index, color);
      }
    }

    /**
     * `drawBrush(pixels, center)`: `drawPixel` on every in-bounds cell of the brush around
     * `center`. Iteration (lx, ly) of the two loops is offset (dx, dy) = (lx - r, ly - r).
     */
    method DrawBrush(tool: string, color: Color, center: int)
      requires Valid() && 0 <= center < |pixels|
      modifies this`pixels
      ensures Valid()
      ensures pixels == DrawAll(old(pixels), width, height, ToolEffect(tool, color),
                                StrokeCells(width, height, center, brushSize, brushShape, tool, color))
    {
      var w, h, shape := width, height, brushShape;
      var cx, cy := center % w, center / w;
      var r := BrushRadius(brushSize);
      ghost var e := ToolEffect(tool, color);
      ghost var f := BrushFn(w, h, cx, cy, r, shape, PaintColor(tool, color));
      ghost var rows := Rect(Span(r), Span(r));
      ghost var p0 := pixels;
      var n := Span(r);
      var ly := 0;
      while ly < n
        invariant 0 <= ly <= n
        invariant Valid()
        invariant pixels == BrushRowsPrefix(p0, w, h, e, cx, cy, r, shape, ly)
      {
        DrawBrushRow(tool, color, cx, cy, r, ly);
        ly := ly + 1;
      }
      BrushRowsPrefixWrites(p0, w, h, e, PaintColor(tool, color), cx, cy, r, shape, n);
      assert rows[..n] == rows;
      assert StrokeCells(w, h, center, brushSize, shape, tool, color) == RowsWrites(f, rows);
    }

    /** The body of the inner loop of `drawBrush`: iteration (lx, ly), offset (lx - r, ly - r) from (cx, cy). */
    method DrawBrushCell(tool: string, color: Color, cx: int, cy: int, r: int, lx: int, ly: int)
      requires Valid()
      modifies this`pixels
      ensures Valid()
      ensures pixels == BrushCellEffect(old(pixels), width, height, ToolEffect(tool, color), cx, cy, r, brushShape, lx, ly)
    {
      var o := BrushCell(width, height, cx, cy, r, brushShape, PaintColor(tool, color), lx, ly);
      BrushCellIsWrite(pixels, width, height, ToolEffect(tool, color), PaintColor(tool, color), cx, cy, r, brushShape, lx, ly);
      if o.Some? {
        DrawPixel(tool, color, o.value.index);
      }
    }

    /** The inner loop of `drawBrush`: row `ly` of the brush square around (cx, cy). */
    method DrawBrushRow(tool: string, color: Color, cx: int, cy: int, r: int, ly: int)
      requires Valid()
      modifies this`pixels
      ensures Valid()
      ensures pixels == BrushRowPrefix(old(pixels), width, height, ToolEffect(tool, color), cx, cy, r, brushShape, ly, Span(r))
    {
      var w, h, shape := width, height, brushShape;
      ghost var e := ToolEffect(tool, color);
      ghost var p0 := pixels;
      var n := Span(r);
      var lx := 0;
      while lx < n
        invariant 0 <= lx <= n
        invariant Valid()
        invariant pixels == BrushRowPrefix(p0, w, h, e, cx, cy, r, shape, ly, lx)
      {
        DrawBrushCell(tool, color, cx, cy, r, lx, ly);
        lx := lx + 1;
      }
    }

    /** `startDrawing(e, index)`: outside the type tool, begin a stroke: save a snapshot, then dab the brush. */
    method StartDrawing(tool: string, color: Color, index: int)
      requires Valid() && 0 <= index < |pixels|
      modifies this`isDrawing, this`entries, this`historyIndex, this`pixels
      ensures Valid()
      ensures tool == "type" ==> isDrawing == old(isDrawing) && Hist() == old(Hist()) && pixels == old(pixels)
      ensures tool != "type" ==>
                isDrawing && Hist() == History.Pushed(old(Hist()), History.Snapshot(old(pixels))) &&
                pixels == DrawAll(old(pixels), width, height, ToolEffect(tool, color),
                                  StrokeCells(width, height, index, brushSize, brushShape, tool, color))
    {
      if tool == "type" {
        return;
      }
      isDrawing := true;
      SaveState();
      DrawBrush(tool, color, index);
    }

    /** `continueDrawing(e, index)`: while a stroke is in progress, dab the brush at the cell entered. */
    method ContinueDrawing(tool: string, color: Color, index: int)
      requires Valid() && 0 <= index < |pixels|
      modifies this`pixels
      ensures Valid()
      ensures pixels == if !isDrawing || tool == "type" then old(pixels)
                        else DrawAll(old(pixels), width, height, ToolEffect(tool, color),
                                     StrokeCells(width, height, index, brushSize, brushShape, tool, color))
    {
      if !isDrawing || tool == "type" {
        return;
      }
      DrawBrush(tool, color, index);
    }

    /** `stopDrawing`: the stroke ends. */
    method StopDrawing()
      modifies this`isDrawing
      ensures !isDrawing
    {
      if isDrawing {
        isDrawing := false;
      }
    }

    // ------------------------------------------------------------ brush and reference lines

    /** `setBrushProperties(color, size, shape)`; the colour is not kept here (see `DrawColor`). */
    method SetBrushProperties(size: int, shape: string)
      modifies this`brushSize, this`brushShape
      ensures brushSize == size && brushShape == shape
    {
      brushSize, brushShape := size, shape;
    }

    /** `showReferenceLines`: both lines become visible. */
    method ShowReferenceLines()
      modifies this`baselineVisible, this`verticalVisible
      ensures baselineVisible && verticalVisible
    {
      baselineVisible, verticalVisible := true, true;
    }

    /** `hideReferenceLines`: both lines are hidden; their positions are kept. */
    method HideReferenceLines()
      modifies this`baselineVisible, this`verticalVisible
      ensures !baselineVisible && !verticalVisible
    {
      baselineVisible, verticalVisible := false, false;
    }

    /** `setBaselinePosition(y)`: the position is stored as given, even off the canvas. */
    method SetBaselinePosition(y: int)
      modifies this`baselineY
      ensures baselineY == y
    {
      baselineY := y;
    }

    /** `setVerticalPosition(x)`: the position is stored as given, even off the canvas. */
    method SetVerticalPosition(x: int)
      modifies this`verticalX
      ensures verticalX == x
    {
      verticalX := x;
    }

    /** `getReferenceLinePositions`: the stored positions, not the clamped ones drawn. */
    method GetReferenceLinePositions() returns (baseline: int, vertical: int)
      ensures baseline == baselineY && vertical == verticalX
    {
      baseline, vertical := baselineY, verticalX;
    }

    /** Where `drawReferenceLines` puts the two lines, as (row of the baseline, column of the vertical line). */
    function DisplayedLines(): (r: (int, int))
      reads this
      requires Valid()
      ensures 0 <= r.0 < height && 0 <= r.1 < width
      ensures 0 <= baselineY < height ==> r.0 == baselineY
      ensures 0 <= verticalX < width ==> r.1 == verticalX
    {
      DisplayedLineOnCanvas(baselineY, height);
      DisplayedLineOnCanvas(verticalX, width);
      (DisplayedLine(baselineY, height).0, DisplayedLine(verticalX, width).0)
    }

    // ------------------------------------------------------------ clearing and loading

    /** `clearCanvas` (and `clearCanvasWithoutReferenceLines`): every cell becomes the background and no component stays placed. */
    method ClearCanvas()
      requires Valid()
      modifies this`pixels, this`placed
      ensures Valid()
      ensures pixels == Filled(|old(pixels)|, Black) && placed == []
    {
      var i := 0;
      while i < |pixels|
        invariant 0 <= i <= |pixels| == |old(pixels)|
        invariant forall j | 0 <= j < |pixels| :: pixels[j] == if j < i then Black else old(pixels)[j]
      {
        pixels := pixels[i := Black];
        i := i + 1;
      }
      placed := [];
    }

    /** `loadCanvasFromData(rows)`: cell (x, y) takes `rows[y][x]`, or the background where that is missing or unset. */
    method LoadCanvasFromData(rows: seq<seq<Color>>)
      requires Valid()
      modifies this`pixels
      ensures Valid()
      ensures |pixels| == |old(pixels)| && forall i | 0 <= i < |pixels| :: pixels[i] == RowsCell(rows, width, i)
    {
      var i := 0;
      while i < |pixels|
        invariant 0 <= i <= |pixels| == |old(pixels)|
        invariant forall j | 0 <= j < i :: pixels[j] == RowsCell(rows, width, j)
      {
        var y, x := i / width, i % width;
        if y < |rows| && x < |rows[y]| && rows[y][x] != "" {
          pixels := pixels[i := rows[y][x]];
        } else {
          pixels := pixels[i := Black];
        }
        i := i + 1;
      }
    }

    /**
     * `loadDataToCanvas(data, w, h)`: clear, take the clamped dimensions and a fresh grid when
     * they differ from the current ones, then write `data[i] || '#000000'` into every cell it reaches.
     */
    method LoadDataToCanvas(data: seq<Color>, w: int, h: int)
      requires Valid()
      modifies this`pixels, this`placed, this`width, this`height
      ensures Valid()
      ensures var resized := w != old(width) || h != old(height);
              width == (if resized then Clamp(w) else old(width)) &&
              height == (if resized then Clamp(h) else old(height)) &&
              pixels == Loaded(data, width * height, if resized then "" else Black)
      ensures placed == []
    {
      ClearCanvas();
      var rest := Black;
      if w != width || h != height {
        width, height := Clamp(w), Clamp(h);
        pixels := Filled(width * height, "");
        rest := "";
      }
      LoadCells(data, rest);
    }

    /** The `data.forEach` of `loadDataToCanvas` over a grid whose cells are all `rest`. */
    method LoadCells(data: seq<Color>, rest: Color)
      requires forall j | 0 <= j < |pixels| :: pixels[j] == rest
      modifies this`pixels
      ensures pixels == Loaded(data, |old(pixels)|, rest)
    {
      var index := 0;
      while index < |data|
        invariant 0 <= index <= |data|
        invariant |pixels| == |old(pixels)|
        invariant forall j | 0 <= j < |pixels| :: pixels[j] == if j < index then OrBlack(data[j]) else rest
      {
        if index < |pixels| {
          pixels := pixels[index := OrBlack(data[index])];
        }
        index := index + 1;
      }
    }

    /** `applyDimensions` with the parsed inputs (`None` for `NaN`): inside [1, 480] both, save a snapshot and start a fresh grid; otherwise nothing changes. */
    method ApplyDimensions(newWidth: Option<int>, newHeight: Option<int>)
      requires Valid()
      modifies this`entries, this`historyIndex, this`width, this`height, this`pixels
      ensures Valid()
      ensures if newWidth.Some? && 1 <= newWidth.value <= MaxDimension && newHeight.Some? && 1 <= newHeight.value <= MaxDimension
              then width == newWidth.value && height == newHeight.value && pixels == Filled(width * height, "") &&
                   Hist() == History.Pushed(old(Hist()), History.Snapshot(old(pixels)))
              else width == old(width) && height == old(height) && pixels == old(pixels) && Hist() == old(Hist())
    {
      if newWidth.Some? && 1 <= newWidth.value <= MaxDimension && newHeight.Some? && 1 <= newHeight.value <= MaxDimension {
        SaveState();
        width, height := newWidth.value, newHeight.value;
        pixels := Filled(width * height, "");
      }
    }

    // ------------------------------------------------------------ resizing

    /** `startResize(e, handle)`: remember the handle and the starting size, and save a snapshot. */
    method StartResize(handle: Handle)
      requires Valid()
      modifies this`isResizing, this`resizeHandle, this`lastAnchor, this`startWidth, this`startHeight,
               this`entries, this`historyIndex
      ensures Valid()
      ensures isResizing && resizeHandle == Some(handle) && lastAnchor == Some(handle)
      ensures startWidth == width && startHeight == height
      ensures Hist() == History.Pushed(old(Hist()), History.Snapshot(pixels))
    {
      isResizing, resizeHandle, lastAnchor := true, Some(handle), Some(handle);
      startWidth, startHeight := width, height;
      SaveState();
    }

    /**
     * `resizeCanvas(nW, nH)` with the copy loop's missing lower bound added: the composite
     * image moved by the content offset, the components that still fit moved with it, and
     * each visible reference line moved by the same offset and clamped into the new grid.
     */
    method ResizeCanvas(nW: nat, nH: nat)
      requires Valid() && 1 <= nW && 1 <= nH
      modifies this`width, this`height, this`pixels, this`placed, this`baselineY, this`verticalX
      ensures Valid()
      ensures width == nW && height == nH
      ensures var off := ContentOffset(resizeHandle, old(width), old(height), nW, nH);
              pixels == Resized(old(Merged(History.Snapshot(pixels), placed, width, height)), old(width), old(height), nW, nH, off.0, off.1) &&
              baselineY == (if baselineVisible then Reclamped(old(baselineY), off.1, nH) else old(baselineY)) &&
              verticalX == (if verticalVisible then Reclamped(old(verticalX), off.0, nW) else old(verticalX))
      ensures placed == Repositioned(old(placed), resizeHandle, old(width), old(height), nW, nH)
      // Where the copy loop as written agrees with the corrected one: both axes grow, or both shrink.
      ensures (nW >= old(width) && nH >= old(height)) || (nW <= old(width) && nH <= old(height)) ==>
                pixels == ResizedAsWritten(old(Merged(History.Snapshot(pixels), placed, width, height)), resizeHandle,
                                           old(width), old(height), nW, nH)
      // Where the repositioning loop as written agrees with the corrected one: every component still fits.
      ensures (forall i | 0 <= i < |old(placed)| :: FitsAfter(old(placed)[i], resizeHandle, old(width), old(height), nW, nH)) ==>
                placed == RepositionedAsWritten(old(placed), resizeHandle, old(width), old(height), nW, nH)
    {
      var data := GetCanvasData();
      var oW, oH := width, height;
      width, height := nW, nH;
      pixels := ResizeCopy(data, resizeHandle, oW, oH, nW, nH);
      ResizeAsWrittenWhereAgreeing(data, placed, resizeHandle, oW, oH, nW, nH);
      if |placed| > 0 {
        placed := RepositionComponents(placed, resizeHandle, oW, oH, nW, nH);
      }
      if baselineVisible || verticalVisible {
        var off := ContentOffset(resizeHandle, oW, oH, nW, nH);
        if baselineVisible {
          baselineY := Reclamped(baselineY, off.1, nH);
        }
        if verticalVisible {
          verticalX := Reclamped(verticalX, off.0, nW);
        }
      }
    }

    /** `stopResize(e)` for a drag of (deltaCols, deltaRows) cells: resize when the clamped size differs, then end the drag. */
    method StopResize(deltaCols: int, deltaRows: int)
      requires Valid()
      modifies this`isResizing, this`resizeHandle, this`width, this`height, this`pixels, this`placed,
               this`baselineY, this`verticalX
      ensures Valid() && !isResizing
      ensures !old(isResizing) ==> resizeHandle == old(resizeHandle) && width == old(width) && height == old(height) &&
                                   pixels == old(pixels) && placed == old(placed) &&
                                   baselineY == old(baselineY) && verticalX == old(verticalX)
      ensures old(isResizing) ==>
                resizeHandle.None? &&
                (width, height) == DragDimensions(old(resizeHandle), startWidth, startHeight, deltaCols, deltaRows)
      ensures old(isResizing) && (width, height) == (old(width), old(height)) ==>
                pixels == old(pixels) && placed == old(placed) && baselineY == old(baselineY) && verticalX == old(verticalX)
      // A changed size is a `resizeCanvas` under the dragged handle, which is cleared only afterwards.
      ensures old(isResizing) && (width, height) != (old(width), old(height)) ==>
                var off := ContentOffset(old(resizeHandle), old(width), old(height), width, height);
                pixels == Resized(old(Merged(History.Snapshot(pixels), placed, width, height)), old(width), old(height),
                                  width, height, off.0, off.1) &&
                placed == Repositioned(old(placed), old(resizeHandle), old(width), old(height), width, height) &&
                baselineY == (if baselineVisible then Reclamped(old(baselineY), off.1, height) else old(baselineY)) &&
                verticalX == (if verticalVisible then Reclamped(old(verticalX), off.0, width) else old(verticalX))
    {
      if !isResizing {
        return;
      }
      var d := DragDimensions(resizeHandle, startWidth, startHeight, deltaCols, deltaRows);
      if d.0 != width || d.1 != height {
        ResizeCanvas(d.0, d.1);
      }
      isResizing, resizeHandle := false, None;
    }
  }
}
