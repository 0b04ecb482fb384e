/**
 * Component designs and their placement on the canvas. A saved component is a named design of
 * `width * height` colour cells stored row-major in `data`; a placed component is that design
 * plus the canvas cell of its top-left corner and an id. Only "ink" cells of a design are ever
 * painted: a cell that is the empty string or the background colour is see-through.
 */
module Components {
  import opened Wrappers
  import opened Grid

  /** A saved component (`{name, width, height, data}`). */
  datatype Template = Template(name: string, width: nat, height: nat, data: seq<Color>)

  /** A placed component (`{...template, x, y, id}`). */
  datatype Placed = Placed(design: Template, x: nat, y: nat, id: int)

  /** `color && color !== '#000000'`: a design cell that is drawn. */
  predicate IsInk(c: Color) { c != "" && c != Black }

  /** The design cell (lx, ly), `data[ly * width + lx]`, when it is ink; `undefined` past the end of `data` is not. */
  function DesignInk(t: Template, lx: int, ly: int): Option<Color> {
    if 0 <= lx && 0 <= ly && ly * t.width + lx < |t.data| && IsInk(t.data[ly * t.width + lx])
    then Some(t.data[ly * t.width + lx])
    else None
  }

  /**
   * The write one iteration of the component drawing loops issues for design cell (lx, ly) of
   * `t` with its corner at (ox, oy) on a `w` by `h` canvas: only ink cells that land inside the
   * canvas are written, with the design colour, or with `paint` when one is given.
   */
  function StampCell(t: Template, ox: nat, oy: nat, paint: Option<Color>, w: nat, h: nat, lx: int, ly: int): Option<PixelWrite> {
    var ink := DesignInk(t, lx, ly);
    if ox + lx < w && oy + ly < h && ink.Some?
    then Some(PixelWrite(Idx(ox + lx, oy + ly, w), if paint.Some? then paint.value else ink.value))
    else None
  }

  /** The loop body as a function of the design cell. */
  function StampFn(t: Template, ox: nat, oy: nat, paint: Option<Color>, w: nat, h: nat): (int, int) -> Option<PixelWrite> {
    (lx, ly) => StampCell(t, ox, oy, paint, w, h, lx, ly)
  }

  /** The writes of the loops `for y < height, for x < width`, in loop order. */
  function StampWrites(t: Template, ox: nat, oy: nat, paint: Option<Color>, w: nat, h: nat): seq<PixelWrite> {
    RowsWrites(StampFn(t, ox, oy, paint, w, h), Rect(t.width, t.height))
  }

  /** What a stamp of `t` with its corner at (ox, oy) puts on canvas cell (cx, cy): nothing off the design or on a see-through cell. */
  function InkAt(t: Template, ox: nat, oy: nat, paint: Option<Color>, cx: int, cy: int): Option<Color> {
    var ink := DesignInk(t, cx - ox, cy - oy);
    if cx - ox < t.width && cy - oy < t.height && ink.Some?
    then Some(if paint.Some? then paint.value else ink.value)
    else None
  }

  /** The canvas after the stamp, cell by cell. */
  function Stamped(s: seq<Color>, w: nat, h: nat, t: Template, ox: nat, oy: nat, paint: Option<Color>): (r: seq<Color>)
    requires |s| == w * h
    ensures |r| == |s|
  {
    if w == 0 then s
    else
      seq(|s|, j requires 0 <= j < |s| =>
        var o := InkAt(t, ox, oy, paint, j % w, j / w);
        if o.Some? then o.value else s[j])
  }

  /** Every write of a stamp aims at a canvas cell under an ink cell of the design, with that cell's colour. */
  lemma StampWriteTarget(t: Template, ox: nat, oy: nat, paint: Option<Color>, w: nat, h: nat, pw: PixelWrite)
    requires pw in StampWrites(t, ox, oy, paint, w, h)
    ensures exists cx, cy ::
              0 <= cx < w && 0 <= cy < h && pw.index == Idx(cx, cy, w) && InkAt(t, ox, oy, paint, cx, cy) == Some(pw.color)
  {
    var f := StampFn(t, ox, oy, paint, w, h);
    RowsWritesFrom(f, Rect(t.width, t.height), pw);
    var lx, ly :| 0 <= ly < t.height && 0 <= lx < t.width && f(lx, ly) == Some(pw);
    assert InkAt(t, ox, oy, paint, ox + lx, oy + ly) == Some(pw.color);
  }

  /** A stamp write that lands on canvas cell `j` carries the ink over that cell. */
  lemma StampWriteOn(t: Template, ox: nat, oy: nat, paint: Option<Color>, w: nat, h: nat, pw: PixelWrite, j: int)
    requires w > 0 && pw in StampWrites(t, ox, oy, paint, w, h) && pw.index == j
    ensures InkAt(t, ox, oy, paint, j % w, j / w) == Some(pw.color)
  {
    StampWriteTarget(t, ox, oy, paint, w, h, pw);
    var cx, cy :| 0 <= cx < w && 0 <= cy < h && pw.index == Idx(cx, cy, w) && InkAt(t, ox, oy, paint, cx, cy) == Some(pw.color);
    IdxCoords(cx, cy, w);
  }

  /** One cell of a stamp: issuing the writes in loop order leaves it as the cell-by-cell stamp says. */
  lemma StampWritesAt(s: seq<Color>, w: nat, h: nat, t: Template, ox: nat, oy: nat, paint: Option<Color>, j: int)
    requires |s| == w * h && 0 <= j < |s|
    ensures w > 0
    ensures ApplyWrites(s, StampWrites(t, ox, oy, paint, w, h))[j] == Stamped(s, w, h, t, ox, oy, paint)[j]
  {
    PositiveDims(w, h);
    var ws := StampWrites(t, ox, oy, paint, w, h);
    var o := InkAt(t, ox, oy, paint, j % w, j / w);
    forall pw | pw in ws && pw.index == j
      ensures o == Some(pw.color)
    {
      StampWriteOn(t, ox, oy, paint, w, h, pw, j);
    }
    if o.Some? {
      StampWriteExists(t, ox, oy, paint, w, h, j);
    }
    WritesPointwise(s, ws, j, o);
  }

  /** Every canvas cell under ink receives the stamp write of that ink. */
  lemma StampWriteExists(t: Template, ox: nat, oy: nat, paint: Option<Color>, w: nat, h: nat, j: int)
    requires w > 0 && h > 0 && 0 <= j < w * h && InkAt(t, ox, oy, paint, j % w, j / w).Some?
    ensures PixelWrite(j, InkAt(t, ox, oy, paint, j % w, j / w).value) in StampWrites(t, ox, oy, paint, w, h)
  {
    IndexInRange(j, w, h);
    var cx, cy := j % w, j / w;
    IdxOfIndex(j, w);
    var o := InkAt(t, ox, oy, paint, cx, cy);
    var f := StampFn(t, ox, oy, paint, w, h);
    assert f(cx - ox, cy - oy) == Some(PixelWrite(j, o.value));
    RowsWritesHas(f, Rect(t.width, t.height), cx - ox, cy - oy);
  }

  /** Issuing a stamp's writes in loop order yields the cell-by-cell stamp. */
  lemma StampWritesEffect(s: seq<Color>, w: nat, h: nat, t: Template, ox: nat, oy: nat, paint: Option<Color>)
    requires |s| == w * h
    ensures ApplyWrites(s, StampWrites(t, ox, oy, paint, w, h)) == Stamped(s, w, h, t, ox, oy, paint)
  {
    forall j | 0 <= j < |s|
      ensures ApplyWrites(s, StampWrites(t, ox, oy, paint, w, h))[j] == Stamped(s, w, h, t, ox, oy, paint)[j]
    {
      StampWritesAt(s, w, h, t, ox, oy, paint, j);
    }
  }

  /**
   * The composite of `base` with the placed components in list order: each component's ink
   * cells overwrite what is below them, so later entries win.
   */
  function Merged(base: seq<Color>, comps: seq<Placed>, w: nat, h: nat): (r: seq<Color>)
    requires |base| == w * h
    ensures |r| == |base|
    decreases |comps|
  {
    if comps == [] then base
    else
      var c := comps[|comps| - 1];
      Stamped(Merged(base, comps[..|comps| - 1], w, h), w, h, c.design, c.x, c.y, None)
  }

  /** The ink of the last component in `comps` that has ink on canvas cell (cx, cy). */
  function TopInk(comps: seq<Placed>, cx: int, cy: int): Option<Color>
    decreases |comps|
  {
    if comps == [] then None
    else
      var c := comps[|comps| - 1];
      var o := InkAt(c.design, c.x, c.y, None, cx, cy);
      if o.Some? then o else TopInk(comps[..|comps| - 1], cx, cy)
  }

  /** A composite cell shows the topmost component ink over it, and the base where there is none. */
  lemma {:induction false} MergedAt(base: seq<Color>, comps: seq<Placed>, w: nat, h: nat, j: int)
    requires |base| == w * h && 0 <= j < |base|
    ensures w > 0
    ensures Merged(base, comps, w, h)[j] == var o := TopInk(comps, j % w, j / w); if o.Some? then o.value else base[j]
    decreases |comps|
  {
    if comps != [] {
      MergedAt(base, comps[..|comps| - 1], w, h, j);
    }
  }

  /** Does the rectangle of `c` contain canvas cell (x, y)? */
  predicate Covers(c: Placed, x: int, y: int) {
    c.x <= x < c.x + c.design.width && c.y <= y < c.y + c.design.height
  }

  /** `placedComponents.find(...)`: the first listed component whose rectangle contains (x, y). */
  function FindAt(comps: seq<Placed>, x: int, y: int): (r: Option<nat>)
    ensures r.Some? ==> (r.value < |comps| && Covers(comps[r.value], x, y)
                         && forall k | 0 <= k < r.value :: !Covers(comps[k], x, y))
    ensures r.None? ==> forall k | 0 <= k < |comps| :: !Covers(comps[k], x, y)
  {
    if comps == [] then None
    else if Covers(comps[0], x, y) then Some(0)
    else
      var rest := FindAt(comps[1..], x, y);
      if rest.Some? then Some(rest.value + 1) else None
  }

  /** `findIndex(comp => comp.id === id)`, with -1 for "not found". */
  function IndexOfId(comps: seq<Placed>, id: int): (r: int)
    ensures -1 <= r < |comps|
    ensures r >= 0 ==> comps[r].id == id && forall k | 0 <= k < r :: comps[k].id != id
    ensures r == -1 ==> forall k | 0 <= k < |comps| :: comps[k].id != id
  {
    if comps == [] then -1
    else if comps[0].id == id then 0
    else
      var rest := IndexOfId(comps[1..], id);
      if rest >= 0 then rest + 1 else -1
  }

  /** `list.splice(i, 1)` */
  function RemoveAt<T>(s: seq<T>, i: nat): (r: seq<T>)
    requires i < |s|
    ensures |r| == |s| - 1
    ensures forall k | 0 <= k < i :: r[k] == s[k]
    ensures forall k | i <= k < |r| :: r[k] == s[k + 1]
  {
    s[..i] + s[i + 1..]
  }

  /**
   * The component drawing loop shared by painting a placed component, stamping the component
   * brush, blacking out a component that starts to move, and compositing: for every design
   * cell in row-major order, write the ink (or `paint`) where it lands inside the canvas.
   */
  method PaintDesign(s: seq<Color>, w: nat, h: nat, t: Template, ox: nat, oy: nat, paint: Option<Color>) returns (r: seq<Color>)
    requires |s| == w * h
    ensures r == Stamped(s, w, h, t, ox, oy, paint)
  {
    ghost var f := StampFn(t, ox, oy, paint, w, h);
    ghost var rows := Rect(t.width, t.height);
    r := s;
    var y := 0;
    while y < t.height
      invariant 0 <= y <= t.height
      invariant r == ApplyWrites(s, RowsWrites(f, rows[..y]))
    {
      ghost var rowStart := r;
      var x := 0;
      while x < t.width
        invariant 0 <= x <= t.width
        invariant r == ApplyWrites(rowStart, RowWrites(f, y, x))
      {
        var o := StampCell(t, ox, oy, paint, w, h, x, y);
        RowWritesApplyStep(rowStart, f, y, x);
        assert f(x, y) == o;
        if o.Some? {
          r := Write(r, o.value.index, o.value.color);
        }
        x := x + 1;
      }
      RowsWritesStep(f, rows, y);
      ApplyWritesAppend(s, RowsWrites(f, rows[..y]), RowWrites(f, y, rows[y]));
      y := y + 1;
    }
    assert rows[..t.height] == rows;
    StampWritesEffect(s, w, h, t, ox, oy, paint);
  }
}
