/**
 * The editor's canvas is a row-major grid of colour strings: cell (x, y) of a grid `w` cells
 * wide lives at index `y * w + x`. Writes go through index arithmetic; a write at an index the
 * grid does not have touches nothing (JavaScript's `pixels[i]` is `undefined` there).
 */
module Grid {
  import opened Wrappers

  /** A CSS colour string as the editor stores it on a cell; `""` is a cell never painted. */
  type Color = string

  /** The background colour every "clear" writes. */
  const Black: Color := "#000000"

  /** `c || '#000000'`: the empty string is falsy. */
  function OrBlack(c: Color): (r: Color)
    ensures r != ""
    ensures c != "" ==> r == c
  {
    if c == "" then Black else c
  }

  /** Flat index of cell (x, y) in a grid `w` cells wide. */
  function Idx(x: int, y: int, w: int): int { y * w + x }

  lemma MulAtLeast(d: int, m: int)
    requires d >= 1 && m > 0
    ensures d * m >= m
  {
  }

  lemma DivModUnique(a: int, m: int, q: int, r: int)
    requires m > 0 && 0 <= r < m && a == q * m + r
    ensures a / m == q && a % m == r
  {
    var q1, r1 := a / m, a % m;
    assert a == q1 * m + r1;
    assert (q - q1) * m == r1 - r;
    if q > q1 { MulAtLeast(q - q1, m); }
    if q < q1 { MulAtLeast(q1 - q, m); }
  }

  /** Column and row of a flat index, as `index % w` and `Math.floor(index / w)` compute them. */
  lemma IdxCoords(x: int, y: int, w: int)
    requires w > 0 && 0 <= x < w
    ensures Idx(x, y, w) % w == x && Idx(x, y, w) / w == y
  {
    DivModUnique(Idx(x, y, w), w, y, x);
  }

  lemma IdxOfIndex(i: int, w: int)
    requires w > 0
    ensures Idx(i % w, i / w, w) == i
  {
  }

  /** Distinct cells of one row width have distinct flat indices. */
  lemma IdxInjective(x1: int, y1: int, x2: int, y2: int, w: int)
    requires w > 0 && 0 <= x1 < w && 0 <= x2 < w
    requires Idx(x1, y1, w) == Idx(x2, y2, w)
    ensures x1 == x2 && y1 == y2
  {
    IdxCoords(x1, y1, w);
    IdxCoords(x2, y2, w);
  }

  lemma IdxInRange(x: int, y: int, w: int, h: int)
    requires 0 <= x < w && 0 <= y < h
    ensures 0 <= Idx(x, y, w) < w * h
  {
    MulMono(y, h - 1, w);
  }

  lemma MulMono(a: int, b: int, m: int)
    requires 0 <= a <= b && m >= 0
    ensures a * m <= b * m
  {
  }

  /** A grid with a cell has positive dimensions. */
  lemma PositiveDims(w: nat, h: nat)
    requires w * h > 0
    ensures w > 0 && h > 0
  {
  }

  lemma IndexInRange(i: int, w: int, h: int)
    requires w > 0 && h > 0 && 0 <= i < w * h
    ensures 0 <= i % w < w && 0 <= i / w < h
  {
    if i / w >= h {
      MulMono(h, i / w, w);
    }
  }

  /** `pixels[i].style.backgroundColor = c`, where a missing `pixels[i]` means no write. */
  function Write(s: seq<Color>, i: int, c: Color): (r: seq<Color>)
    ensures |r| == |s|
    ensures forall j | 0 <= j < |s| :: r[j] == if j == i then c else s[j]
  {
    if 0 <= i < |s| then s[i := c] else s
  }

  /** One cell write issued by a drawing loop. */
  datatype PixelWrite = PixelWrite(index: int, color: Color)

  /** The grid after the writes `ws`, issued in order. */
  function ApplyWrites(s: seq<Color>, ws: seq<PixelWrite>): (r: seq<Color>)
    ensures |r| == |s|
    decreases |ws|
  {
    if ws == [] then s
    else
      var last := ws[|ws| - 1];
      Write(ApplyWrites(s, ws[..|ws| - 1]), last.index, last.color)
  }

  /** A cell no write aims at keeps its colour. */
  lemma {:induction false} ApplyWritesUntouched(s: seq<Color>, ws: seq<PixelWrite>, j: int)
    requires 0 <= j < |s|
    requires forall w | w in ws :: w.index != j
    ensures ApplyWrites(s, ws)[j] == s[j]
    decreases |ws|
  {
    if ws != [] {
      assert forall w | w in ws[..|ws| - 1] :: w in ws;
      ApplyWritesUntouched(s, ws[..|ws| - 1], j);
    }
  }

  /** A cell that every write aiming at it paints `c`, and at least one does, ends up `c`. */
  lemma {:induction false} ApplyWritesUniform(s: seq<Color>, ws: seq<PixelWrite>, j: int, c: Color)
    requires 0 <= j < |s|
    requires PixelWrite(j, c) in ws
    requires forall w | w in ws && w.index == j :: w.color == c
    ensures ApplyWrites(s, ws)[j] == c
    decreases |ws|
  {
    var init := ws[..|ws| - 1];
    assert ws == init + [ws[|ws| - 1]];
    assert forall w | w in init :: w in ws;
    if ws[|ws| - 1].index != j {
      ApplyWritesUniform(s, init, j, c);
    }
  }

  /** A cell ends up `o`'s colour when every write aiming at it paints that colour and one does; with `o == None` and no write aiming at it, it keeps its colour. */
  lemma WritesPointwise(s: seq<Color>, ws: seq<PixelWrite>, j: int, o: Option<Color>)
    requires 0 <= j < |s|
    requires forall pw | pw in ws && pw.index == j :: o == Some(pw.color)
    requires o.Some? ==> PixelWrite(j, o.value) in ws
    ensures ApplyWrites(s, ws)[j] == if o.Some? then o.value else s[j]
  {
    if o.Some? {
      ApplyWritesUniform(s, ws, j, o.value);
    } else {
      ApplyWritesUntouched(s, ws, j);
    }
  }

  lemma {:induction false} ApplyWritesAppend(s: seq<Color>, a: seq<PixelWrite>, b: seq<PixelWrite>)
    ensures ApplyWrites(s, a + b) == ApplyWrites(ApplyWrites(s, a), b)
    decreases |b|
  {
    if b == [] {
      assert a + b == a;
    } else {
      assert (a + b)[..|a + b| - 1] == a + b[..|b| - 1];
      ApplyWritesAppend(s, a, b[..|b| - 1]);
    }
  }

  lemma ApplyWritesOne(s: seq<Color>, ws: seq<PixelWrite>, w: PixelWrite)
    ensures ApplyWrites(s, ws + [w]) == Write(ApplyWrites(s, ws), w.index, w.color)
  {
    assert (ws + [w])[..|ws|] == ws;
  }

  /**
   * The writes of a nested drawing loop, in loop order: row `y` (outer loop) runs over the
   * columns `0 <= x < widths[y]` (inner loop), and cell (x, y) issues the write `f(x, y)`, if any.
   */
  function RowWrites(f: (int, int) -> Option<PixelWrite>, y: int, n: nat): seq<PixelWrite>
    decreases n
  {
    if n == 0 then [] else RowWrites(f, y, n - 1) + OptionWrite(f(n - 1, y))
  }

  function OptionWrite(o: Option<PixelWrite>): seq<PixelWrite> {
    if o.Some? then [o.value] else []
  }

  function RowsWrites(f: (int, int) -> Option<PixelWrite>, widths: seq<nat>): seq<PixelWrite>
    decreases |widths|
  {
    if widths == [] then []
    else RowsWrites(f, widths[..|widths| - 1]) + RowWrites(f, |widths| - 1, widths[|widths| - 1])
  }

  /** Every row of a rectangle has the same width. */
  function Rect(w: nat, h: nat): (r: seq<nat>)
    ensures |r| == h && forall y | 0 <= y < h :: r[y] == w
  {
    seq(h, y => w)
  }

  lemma RowWritesStep(f: (int, int) -> Option<PixelWrite>, y: int, n: nat)
    ensures RowWrites(f, y, n + 1) == RowWrites(f, y, n) + OptionWrite(f(n, y))
  {
  }

  /** One more iteration of an inner loop applies that cell's write, if any, to the grid so far. */
  lemma RowWritesApplyStep(s: seq<Color>, f: (int, int) -> Option<PixelWrite>, y: int, x: nat)
    ensures ApplyWrites(s, RowWrites(f, y, x + 1))
         == var g := ApplyWrites(s, RowWrites(f, y, x));
            if f(x, y).Some? then Write(g, f(x, y).value.index, f(x, y).value.color) else g
  {
    if f(x, y).Some? {
      ApplyWritesOne(s, RowWrites(f, y, x), f(x, y).value);
    } else {
      assert RowWrites(f, y, x + 1) == RowWrites(f, y, x);
    }
  }

  lemma RowsWritesStep(f: (int, int) -> Option<PixelWrite>, widths: seq<nat>, y: nat)
    requires y < |widths|
    ensures RowsWrites(f, widths[..y + 1]) == RowsWrites(f, widths[..y]) + RowWrites(f, y, widths[y])
  {
    assert widths[..y + 1][..y] == widths[..y];
  }

  lemma {:induction false} RowWritesFrom(f: (int, int) -> Option<PixelWrite>, y: int, n: nat, w: PixelWrite)
    requires w in RowWrites(f, y, n)
    ensures exists x :: 0 <= x < n && f(x, y) == Some(w)
    decreases n
  {
    if w !in RowWrites(f, y, n - 1) {
      assert f(n - 1, y) == Some(w);
    } else {
      RowWritesFrom(f, y, n - 1, w);
    }
  }

  lemma {:induction false} RowWritesHas(f: (int, int) -> Option<PixelWrite>, y: int, n: nat, x: int)
    requires 0 <= x < n && f(x, y).Some?
    ensures f(x, y).value in RowWrites(f, y, n)
    decreases n
  {
    if x < n - 1 {
      RowWritesHas(f, y, n - 1, x);
    }
  }

  /** Every write of the loop comes from one of its cells. */
  lemma {:induction false} RowsWritesFrom(f: (int, int) -> Option<PixelWrite>, widths: seq<nat>, w: PixelWrite)
    requires w in RowsWrites(f, widths)
    ensures exists x, y :: 0 <= y < |widths| && 0 <= x < widths[y] && f(x, y) == Some(w)
    decreases |widths|
  {
    var init := widths[..|widths| - 1];
    if w in RowsWrites(f, init) {
      RowsWritesFrom(f, init, w);
      var x, y :| 0 <= y < |init| && 0 <= x < init[y] && f(x, y) == Some(w);
      assert widths[y] == init[y];
    } else {
      RowWritesFrom(f, |widths| - 1, widths[|widths| - 1], w);
    }
  }

  /** Every cell of the loop that issues a write has it among the loop's writes. */
  lemma {:induction false} RowsWritesHas(f: (int, int) -> Option<PixelWrite>, widths: seq<nat>, x: int, y: int)
    requires 0 <= y < |widths| && 0 <= x < widths[y] && f(x, y).Some?
    ensures f(x, y).value in RowsWrites(f, widths)
    decreases |widths|
  {
    var init := widths[..|widths| - 1];
    if y < |widths| - 1 {
      assert init[y] == widths[y];
      RowsWritesHas(f, init, x, y);
    } else {
      RowWritesHas(f, y, widths[y], x);
    }
  }

  /** Two loops whose cells issue the same writes issue the same write sequence. */
  lemma {:induction false} RowsWritesCongruent(f: (int, int) -> Option<PixelWrite>, g: (int, int) -> Option<PixelWrite>, widths: seq<nat>)
    requires forall x, y | 0 <= y < |widths| && 0 <= x < widths[y] :: f(x, y) == g(x, y)
    ensures RowsWrites(f, widths) == RowsWrites(g, widths)
    decreases |widths|
  {
    if widths != [] {
      var init := widths[..|widths| - 1];
      RowsWritesCongruent(f, g, init);
      RowWritesCongruent(f, g, |widths| - 1, widths[|widths| - 1]);
    }
  }

  lemma {:induction false} RowWritesCongruent(f: (int, int) -> Option<PixelWrite>, g: (int, int) -> Option<PixelWrite>, y: int, n: nat)
    requires forall x | 0 <= x < n :: f(x, y) == g(x, y)
    ensures RowWrites(f, y, n) == RowWrites(g, y, n)
    decreases n
  {
    if n > 0 {
      RowWritesCongruent(f, g, y, n - 1);
    }
  }

  /** Every cell of the grid set to one colour. */
  function Filled(n: nat, c: Color): (r: seq<Color>)
    ensures |r| == n && forall i | 0 <= i < n :: r[i] == c
  {
    seq(n, i => c)
  }
}
