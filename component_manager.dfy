/**
 * The component compositor: placing saved designs on the canvas, remembering the cells each
 * placement covered so that removing it can put them back, moving a placed component, and
 * stamping a design as a brush. The list of placed components is the canvas's own `placed`
 * list; the map from component id to the cells saved before its placement lives here.
 */
module ComponentManager {
  import opened Wrappers
  import opened Grid
  import opened Components
  import History
  import opened CanvasManager

  /** One entry of a pre-placement record: `{x, y, color}`. */
  datatype Saved = Saved(x: nat, y: nat, color: Color)

  /** Canvas cell (x, y). */
  function CellAt(p: seq<Color>, w: nat, h: nat, x: nat, y: nat): Color
    requires |p| == w * h && x < w && y < h
  {
    IdxInRange(x, y, w, h);
    p[Idx(x, y, w)]
  }

  /** The entry the recording loops keep for canvas cell (x, y): its colour, `''` read as the background. */
  function SavedCell(p: seq<Color>, w: nat, h: nat, x: nat, y: nat): Saved
    requires |p| == w * h && x < w && y < h
  {
    Saved(x, y, OrBlack(CellAt(p, w, h, x, y)))
  }

  /** The first `n` iterations of the inner recording loop, for design row `ly`: the cells that are on the canvas. */
  function RowRecords(p: seq<Color>, w: nat, h: nat, ox: nat, oy: nat, ly: nat, n: nat): seq<Saved>
    requires |p| == w * h
    decreases n
  {
    if n == 0 then []
    else
      var x, y := ox + (n - 1), oy + ly;
      RowRecords(p, w, h, ox, oy, ly, n - 1) + (if x < w && y < h then [SavedCell(p, w, h, x, y)] else [])
  }

  /** The first `m` design rows of the recording loops. */
  function Records(p: seq<Color>, w: nat, h: nat, t: Template, ox: nat, oy: nat, m: nat): seq<Saved>
    requires |p| == w * h
    decreases m
  {
    if m == 0 then []
    else Records(p, w, h, t, ox, oy, m - 1) + RowRecords(p, w, h, ox, oy, m - 1, t.width)
  }

  /** `storeOriginalCanvasStateBeforePlacement(ox, oy, t)`: the cells under the design's rectangle, row by row. */
  function BeforePlacement(p: seq<Color>, w: nat, h: nat, t: Template, ox: nat, oy: nat): seq<Saved>
    requires |p| == w * h
  {
    Records(p, w, h, t, ox, oy, t.height)
  }

  /** Every recorded entry is a canvas cell under the design's rectangle, with that cell's colour. */
  lemma {:induction false} RowRecordsIn(p: seq<Color>, w: nat, h: nat, ox: nat, oy: nat, ly: nat, n: nat)
    requires |p| == w * h
    ensures forall r | r in RowRecords(p, w, h, ox, oy, ly, n) ::
              ox <= r.x < ox + n && r.y == oy + ly && r.x < w && r.y < h && r == SavedCell(p, w, h, r.x, r.y)
    decreases n
  {
    if n > 0 {
      RowRecordsIn(p, w, h, ox, oy, ly, n - 1);
    }
  }

  lemma {:induction false} RecordsIn(p: seq<Color>, w: nat, h: nat, t: Template, ox: nat, oy: nat, m: nat)
    requires |p| == w * h
    ensures forall r | r in Records(p, w, h, t, ox, oy, m) ::
              ox <= r.x < ox + t.width && oy <= r.y < oy + m && r.x < w && r.y < h && r == SavedCell(p, w, h, r.x, r.y)
    decreases m
  {
    if m > 0 {
      RecordsIn(p, w, h, t, ox, oy, m - 1);
      RowRecordsIn(p, w, h, ox, oy, m - 1, t.width);
    }
  }

  /** Every canvas cell under the design's rectangle is recorded. */
  lemma {:induction false} RowRecordsHas(p: seq<Color>, w: nat, h: nat, ox: nat, oy: nat, ly: nat, n: nat, x: nat)
    requires |p| == w * h && ox <= x < ox + n && x < w && oy + ly < h
    ensures SavedCell(p, w, h, x, oy + ly) in RowRecords(p, w, h, ox, oy, ly, n)
    decreases n
  {
    if x < ox + n - 1 {
      RowRecordsHas(p, w, h, ox, oy, ly, n - 1, x);
    }
  }

  lemma {:induction false} RecordsHas(p: seq<Color>, w: nat, h: nat, t: Template, ox: nat, oy: nat, m: nat, x: nat, y: nat)
    requires |p| == w * h && ox <= x < ox + t.width && oy <= y < oy + m && x < w && y < h
    ensures SavedCell(p, w, h, x, y) in Records(p, w, h, t, ox, oy, m)
    decreases m
  {
    if y < oy + m - 1 {
      RecordsHas(p, w, h, t, ox, oy, m - 1, x, y);
    } else {
      RowRecordsHas(p, w, h, ox, oy, m - 1, t.width, x);
    }
  }

  /** A design row that lies on the canvas records one entry per cell. */
  lemma {:induction false} RowRecordsCount(p: seq<Color>, w: nat, h: nat, ox: nat, oy: nat, ly: nat, n: nat)
    requires |p| == w * h && ox + n <= w && oy + ly < h
    ensures |RowRecords(p, w, h, ox, oy, ly, n)| == n
    decreases n
  {
    if n > 0 {
      RowRecordsCount(p, w, h, ox, oy, ly, n - 1);
    }
  }

  /** A design that fits on the canvas records exactly `width * height` entries. */
  lemma {:induction false} RecordsCount(p: seq<Color>, w: nat, h: nat, t: Template, ox: nat, oy: nat, m: nat)
    requires |p| == w * h && ox + t.width <= w && oy + m <= h
    ensures |Records(p, w, h, t, ox, oy, m)| == m * t.width
    decreases m
  {
    if m > 0 {
      RecordsCount(p, w, h, t, ox, oy, m - 1);
      RowRecordsCount(p, w, h, ox, oy, m - 1, t.width);
      assert m * t.width == (m - 1) * t.width + t.width;
    }
  }

  // ---------------------------------------------------------------- restoring

  /** The write `restoreOriginalCanvasState` issues for an entry, on a canvas `w` cells wide. */
  function RecordWrite(r: Saved, w: nat): PixelWrite {
    PixelWrite(Idx(r.x, r.y, w), r.color)
  }

  function RecordWrites(rec: seq<Saved>, w: nat): (ws: seq<PixelWrite>)
    ensures |ws| == |rec| && forall i | 0 <= i < |rec| :: ws[i] == RecordWrite(rec[i], w)
  {
    seq(|rec|, i requires 0 <= i < |rec| => RecordWrite(rec[i], w))
  }

  /** The canvas after `restoreOriginalCanvasState` replays `rec`. */
  function RestoredFrom(p: seq<Color>, rec: seq<Saved>, w: nat): (r: seq<Color>)
    ensures |r| == |p|
  {
    ApplyWrites(p, RecordWrites(rec, w))
  }

  /** Canvas cell `j` lies under the rectangle of design `t` placed at (ox, oy). */
  predicate InFootprint(w: nat, t: Template, ox: nat, oy: nat, j: int)
    requires w > 0
  {
    ox <= j % w < ox + t.width && oy <= j / w < oy + t.height
  }

  /** The canvas before a placement, with the cells under the design's rectangle read as `''`-is-background. */
  function Cleaned(p: seq<Color>, w: nat, t: Template, ox: nat, oy: nat): (r: seq<Color>)
    requires w > 0
    ensures |r| == |p|
  {
    seq(|p|, j requires 0 <= j < |p| => if InFootprint(w, t, ox, oy, j) then OrBlack(p[j]) else p[j])
  }

  /** A placement changes no cell outside the design's rectangle. */
  lemma StampedOutside(p: seq<Color>, w: nat, h: nat, t: Template, ox: nat, oy: nat, j: int)
    requires |p| == w * h && w > 0 && 0 <= j < |p| && !InFootprint(w, t, ox, oy, j)
    ensures Stamped(p, w, h, t, ox, oy, None)[j] == p[j]
  {
  }

  /** A replayed write that lands on cell `j` lies under the design's rectangle and puts back that cell's recorded colour. */
  lemma RecordWriteAt(p: seq<Color>, w: nat, h: nat, t: Template, ox: nat, oy: nat, pw: PixelWrite, j: int)
    requires |p| == w * h && w > 0 && 0 <= j < |p|
    requires pw in RecordWrites(BeforePlacement(p, w, h, t, ox, oy), w) && pw.index == j
    ensures InFootprint(w, t, ox, oy, j) && pw.color == OrBlack(p[j])
  {
    var rec := BeforePlacement(p, w, h, t, ox, oy);
    var ws := RecordWrites(rec, w);
    RecordsIn(p, w, h, t, ox, oy, t.height);
    var i :| 0 <= i < |rec| && ws[i] == pw;
    var r := rec[i];
    assert r in rec;
    IndexInRange(j, w, h);
    IdxOfIndex(j, w);
    IdxInjective(r.x, r.y, j % w, j / w, w);
  }

  /** Replaying a placement's record over any canvas of the same size puts back cell `j` of the recorded canvas. */
  lemma RestoreCell(p: seq<Color>, q: seq<Color>, w: nat, h: nat, t: Template, ox: nat, oy: nat, j: int)
    requires |p| == w * h && |q| == |p| && 0 <= j < |p|
    ensures w > 0
    ensures RestoredFrom(q, BeforePlacement(p, w, h, t, ox, oy), w)[j]
         == if InFootprint(w, t, ox, oy, j) then OrBlack(p[j]) else q[j]
  {
    PositiveDims(w, h);
    var rec := BeforePlacement(p, w, h, t, ox, oy);
    var ws := RecordWrites(rec, w);
    IndexInRange(j, w, h);
    var x, y := j % w, j / w;
    IdxOfIndex(j, w);
    var o := if InFootprint(w, t, ox, oy, j) then Some(OrBlack(p[j])) else None;
    forall pw | pw in ws && pw.index == j
      ensures o == Some(pw.color)
    {
      RecordWriteAt(p, w, h, t, ox, oy, pw, j);
    }
    if o.Some? {
      RecordsHas(p, w, h, t, ox, oy, t.height, x, y);
      var i :| 0 <= i < |rec| && rec[i] == SavedCell(p, w, h, x, y);
      assert ws[i] == PixelWrite(j, OrBlack(p[j]));
    }
    WritesPointwise(q, ws, j, o);
  }

  /**
   * Placing a design and then replaying its record restores every cell under the design's
   * rectangle to the colour it had before the placement, and leaves the rest alone.
   */
  lemma PlaceThenRestore(p: seq<Color>, w: nat, h: nat, t: Template, ox: nat, oy: nat)
    requires |p| == w * h && w > 0
    ensures RestoredFrom(Stamped(p, w, h, t, ox, oy, None), BeforePlacement(p, w, h, t, ox, oy), w) == Cleaned(p, w, t, ox, oy)
  {
    var q := Stamped(p, w, h, t, ox, oy, None);
    forall j | 0 <= j < |p|
      ensures RestoredFrom(q, BeforePlacement(p, w, h, t, ox, oy), w)[j] == Cleaned(p, w, t, ox, oy)[j]
    {
      RestoreCell(p, q, w, h, t, ox, oy, j);
      if !InFootprint(w, t, ox, oy, j) {
        StampedOutside(p, w, h, t, ox, oy, j);
      }
    }
  }

  // ---------------------------------------------------------------- the recording and replay loops

  /** The inner loop of `storeOriginalCanvasStateBeforePlacement`, for design row `ly`. */
  method RecordRow(p: seq<Color>, w: nat, h: nat, ox: nat, oy: nat, ly: nat, n: nat) returns (row: seq<Saved>)
    requires |p| == w * h
    ensures row == RowRecords(p, w, h, ox, oy, ly, n)
  {
    row := [];
    var lx := 0;
    while lx < n
      invariant 0 <= lx <= n
      invariant row == RowRecords(p, w, h, ox, oy, ly, lx)
    {
      var x, y := ox + lx, oy + ly;
      if x < w && y < h {
        IdxInRange(x, y, w, h);
        row := row + [Saved(x, y, OrBlack(p[y * w + x]))];
      }
      lx := lx + 1;
    }
  }

  /** `storeOriginalCanvasStateBeforePlacement(ox, oy, t)`: the recording loops over the design's rectangle. */
  method RecordFootprint(p: seq<Color>, w: nat, h: nat, t: Template, ox: nat, oy: nat) returns (rec: seq<Saved>)
    requires |p| == w * h
    ensures rec == BeforePlacement(p, w, h, t, ox, oy)
  {
    rec := [];
    var ly := 0;
    while ly < t.height
      invariant 0 <= ly <= t.height
      invariant rec == Records(p, w, h, t, ox, oy, ly)
    {
      var row := RecordRow(p, w, h, ox, oy, ly, t.width);
      rec := rec + row;
      ly := ly + 1;
    }
  }

  /** The `forEach` of `restoreOriginalCanvasState`: each entry is written back where a cell has its index. */
  method RestoreRecords(p: seq<Color>, rec: seq<Saved>, w: nat) returns (r: seq<Color>)
    ensures r == RestoredFrom(p, rec, w)
  {
    r := p;
    var i := 0;
    while i < |rec|
      invariant 0 <= i <= |rec|
      invariant r == ApplyWrites(p, RecordWrites(rec[..i], w))
    {
      var e := rec[i];
      ghost var before := r;
      var index := e.y * w + e.x;
      if index < |r| {
        r := r[index := e.color];
      }
      assert r == Write(before, index, e.color);
      assert RecordWrites(rec[..i + 1], w) == RecordWrites(rec[..i], w) + [RecordWrite(e, w)];
      ApplyWritesOne(p, RecordWrites(rec[..i], w), RecordWrite(e, w));
      i := i + 1;
    }
    assert rec[..|rec|] == rec;
  }

  // ---------------------------------------------------------------- the compositor's state as a value

  /** What the compositor changes: the canvas cells, the placed list and the pre-placement records by id. */
  datatype Scene = Scene(pixels: seq<Color>, placed: seq<Placed>, states: map<int, seq<Saved>>)

  /** The ids of the placed components. */
  function Ids(comps: seq<Placed>): set<int> {
    set k | 0 <= k < |comps| :: comps[k].id
  }

  /** Does design `t` with its corner at (x, y) fit on a `w` by `h` canvas? */
  predicate Fits(t: Template, x: nat, y: nat, w: nat, h: nat) {
    x + t.width <= w && y + t.height <= h
  }

  /** `restoreOriginalCanvasState(c)`: replay the record of `c`, or do nothing when it has none. */
  function RestoreOf(p: seq<Color>, c: Placed, states: map<int, seq<Saved>>, w: nat): (r: seq<Color>)
    ensures |r| == |p|
    ensures c.id !in states ==> r == p
  {
    if c.id in states then RestoredFrom(p, states[c.id], w) else p
  }

  /** `placeComponentOnCanvas(x, y)` for a design that fits: record the cells, list it, paint it. */
  function Placing(sc: Scene, w: nat, h: nat, t: Template, x: nat, y: nat, id: int): Scene
    requires |sc.pixels| == w * h
  {
    Scene(Stamped(sc.pixels, w, h, t, x, y, None), sc.placed + [Placed(t, x, y, id)],
          sc.states[id := BeforePlacement(sc.pixels, w, h, t, x, y)])
  }

  /** `removePlacedComponent(id)`: replay its record, unlist it, forget the record; an unknown id changes nothing. */
  function Removing(sc: Scene, w: nat, id: int): Scene {
    var i := IndexOfId(sc.placed, id);
    if i < 0 then sc
    else Scene(RestoreOf(sc.pixels, sc.placed[i], sc.states, w), RemoveAt(sc.placed, i), sc.states - {id})
  }

  /** `startMoveOperation(c)`: black out its ink cells, forget its record, unlist it. */
  function Lifting(sc: Scene, w: nat, h: nat, c: Placed): Scene
    requires |sc.pixels| == w * h
  {
    var i := IndexOfId(sc.placed, c.id);
    Scene(Stamped(sc.pixels, w, h, c.design, c.x, c.y, Some(Black)),
          if i < 0 then sc.placed else RemoveAt(sc.placed, i),
          sc.states - {c.id})
  }

  /** `placeComponentPixels(c)` and `placedComponents.push(c)`, as a move ends. */
  function Dropping(sc: Scene, w: nat, h: nat, c: Placed): Scene
    requires |sc.pixels| == w * h
  {
    Scene(Stamped(sc.pixels, w, h, c.design, c.x, c.y, None), sc.placed + [c], sc.states)
  }

  /** `cleanupOrphanedComponentStates`: keep the records of listed components only. */
  function Orphans(states: map<int, seq<Saved>>, ids: set<int>): (r: map<int, seq<Saved>>)
    ensures r.Keys == states.Keys * ids
    ensures forall k | k in r :: r[k] == states[k]
  {
    map k | k in states && k in ids :: states[k]
  }

  /** The `forEach` of `clearAllPlacedComponents`: replay every record in list order. */
  function RestoredAll(p: seq<Color>, comps: seq<Placed>, states: map<int, seq<Saved>>, w: nat): (r: seq<Color>)
    ensures |r| == |p|
    decreases |comps|
  {
    if comps == [] then p
    else RestoreOf(RestoredAll(p, comps[..|comps| - 1], states, w), comps[|comps| - 1], states, w)
  }

  // ---------------------------------------------------------------- what the operations promise

  /**
   * Placing a design under a fresh id and then removing that id gives back the placed list and
   * the records exactly, and the canvas as it was before, with its unset cells under the
   * design's rectangle now showing the background.
   */
  lemma PlaceThenRemove(sc: Scene, w: nat, h: nat, t: Template, x: nat, y: nat, id: int)
    requires |sc.pixels| == w * h && w > 0
    requires id !in Ids(sc.placed) && id !in sc.states
    ensures Removing(Placing(sc, w, h, t, x, y, id), w, id) == Scene(Cleaned(sc.pixels, w, t, x, y), sc.placed, sc.states)
  {
    var placed := sc.placed + [Placed(t, x, y, id)];
    forall k | 0 <= k < |sc.placed|
      ensures placed[k].id != id
    {
      assert sc.placed[k].id in Ids(sc.placed);
    }
    assert placed[|sc.placed|].id == id;
    assert IndexOfId(placed, id) == |sc.placed|;
    assert RemoveAt(placed, |sc.placed|) == sc.placed;
    assert sc.states[id := BeforePlacement(sc.pixels, w, h, t, x, y)] - {id} == sc.states;
    PlaceThenRestore(sc.pixels, w, h, t, x, y);
  }

  /**
   * A moved component has no record any more: wherever it is dropped, removing it afterwards
   * leaves every canvas cell as it was, so its ink stays on the canvas.
   */
  lemma MovedHasNoRecord(sc: Scene, w: nat, h: nat, c: Placed, gx: nat, gy: nat)
    requires |sc.pixels| == w * h
    ensures var lifted := Lifting(sc, w, h, c);
            var dropped := Dropping(lifted, w, h, c.(x := gx, y := gy));
            c.id !in dropped.states && Removing(dropped, w, c.id).pixels == dropped.pixels
  {
    var lifted := Lifting(sc, w, h, c);
    var dropped := Dropping(lifted, w, h, c.(x := gx, y := gy));
    var i := IndexOfId(dropped.placed, c.id);
    assert dropped.placed[|dropped.placed| - 1].id == c.id;
    assert i >= 0;
  }

  /**
   * A move that does not fit puts the component back where it was: its ink cells show its
   * design again, exactly as a fresh paint of it, whatever the black-out wrote there.
   */
  lemma LiftThenRestore(p: seq<Color>, w: nat, h: nat, c: Placed)
    requires |p| == w * h
    ensures Stamped(Stamped(p, w, h, c.design, c.x, c.y, Some(Black)), w, h, c.design, c.x, c.y, None)
         == Stamped(p, w, h, c.design, c.x, c.y, None)
  {
    var q := Stamped(p, w, h, c.design, c.x, c.y, Some(Black));
    if w > 0 {
      forall j | 0 <= j < |p|
        ensures Stamped(q, w, h, c.design, c.x, c.y, None)[j] == Stamped(p, w, h, c.design, c.x, c.y, None)[j]
      {
      }
    }
  }

  /** Replaying no record, or only records of components that have none, leaves the canvas alone. */
  lemma {:induction false} RestoredAllWithoutRecords(p: seq<Color>, comps: seq<Placed>, states: map<int, seq<Saved>>, w: nat)
    requires forall k | 0 <= k < |comps| :: comps[k].id !in states
    ensures RestoredAll(p, comps, states, w) == p
    decreases |comps|
  {
    if comps != [] {
      RestoredAllWithoutRecords(p, comps[..|comps| - 1], states, w);
    }
  }

  /** Clearing a single placed component that was placed on `p` restores `p` under its rectangle. */
  lemma ClearSinglePlacement(sc: Scene, w: nat, h: nat, t: Template, x: nat, y: nat, id: int)
    requires |sc.pixels| == w * h && w > 0 && sc.placed == []
    ensures var after := Placing(sc, w, h, t, x, y, id);
            RestoredAll(after.pixels, after.placed, after.states, w) == Cleaned(sc.pixels, w, t, x, y)
  {
    var after := Placing(sc, w, h, t, x, y, id);
    assert after.placed[..0] == [];
    PlaceThenRestore(sc.pixels, w, h, t, x, y);
  }

  /** Cleaning up orphaned records twice is cleaning up once, and it never drops a listed component's record. */
  lemma OrphansIdempotent(states: map<int, seq<Saved>>, ids: set<int>)
    ensures Orphans(Orphans(states, ids), ids) == Orphans(states, ids)
    ensures forall k | k in states && k in ids :: k in Orphans(states, ids)
  {
  }

  lemma HasMember(s: set<int>)
    requires s != {}
    ensures exists k :: k in s
  {
    if forall k :: k !in s {
      assert false;
    }
  }

  // ---------------------------------------------------------------- the compositor

  /** The component manager's module state around one canvas. */
  class Compositor {
    const canvas: Canvas
    /** `placingComponent` */
    var placing: Option<Template>
    /** `brushComponent`; `isBrushMode` is always `brush.Some?` */
    var brush: Option<Template>
    /** `movingComponent` */
    var moving: Option<Placed>
    var isDragging: bool
    /** `componentOriginalStates` */
    var savedStates: map<int, seq<Saved>>

    /** Placement mode excludes the brush and a move in progress; a move in progress is what dragging means. */
    ghost predicate Valid()
      reads this, canvas
    {
      canvas.Valid()
      && (isDragging <==> moving.Some?)
      && (placing.Some? ==> brush.None? && moving.None?)
    }

    /** The observable state as a value. */
    function Current(): Scene
      reads this, canvas
    {
      Scene(canvas.pixels, canvas.placed, savedStates)
    }

    constructor (c: Canvas)
      requires c.Valid()
      ensures Valid() && canvas == c
      ensures placing.None? && brush.None? && moving.None? && !isDragging && savedStates == map[]
    {
      canvas := c;
      placing, brush, moving, isDragging := None, None, None, false;
      savedStates := map[];
    }

    /** `placeComponentPixels(c)` */
    method PaintPlaced(c: Placed)
      requires Valid()
      modifies canvas`pixels
      ensures Valid()
      ensures canvas.pixels == Stamped(old(canvas.pixels), canvas.width, canvas.height, c.design, c.x, c.y, None)
    {
      canvas.pixels := PaintDesign(canvas.pixels, canvas.width, canvas.height, c.design, c.x, c.y, None);
    }

    /** `restoreOriginalCanvasState(c)` */
    method RestoreOriginalState(c: Placed)
      requires Valid()
      modifies canvas`pixels
      ensures Valid()
      ensures canvas.pixels == RestoreOf(old(canvas.pixels), c, savedStates, canvas.width)
    {
      if c.id in savedStates {
        canvas.pixels := RestoreRecords(canvas.pixels, savedStates[c.id], canvas.width);
      }
    }

    /** `removeComponentAndRestoreBackground(c)`: black out the ink cells of `c` and forget its record. */
    method BlackOut(c: Placed)
      requires Valid()
      modifies canvas`pixels, this`savedStates
      ensures Valid()
      ensures canvas.pixels == Stamped(old(canvas.pixels), canvas.width, canvas.height, c.design, c.x, c.y, Some(Black))
      ensures savedStates == old(savedStates) - {c.id}
    {
      canvas.pixels := PaintDesign(canvas.pixels, canvas.width, canvas.height, c.design, c.x, c.y, Some(Black));
      savedStates := savedStates - {c.id};
    }

    /** `cleanupOrphanedComponentStates`: drop every record whose id is not listed, one key at a time. */
    method CleanupOrphanedStates()
      requires Valid()
      modifies this`savedStates
      ensures Valid()
      ensures savedStates == Orphans(old(savedStates), Ids(canvas.placed))
    {
      var ids := Ids(canvas.placed);
      var keys := savedStates.Keys;
      var kept := savedStates;
      while keys != {}
        invariant keys <= old(savedStates).Keys
        invariant kept.Keys <= old(savedStates).Keys
        invariant forall k | k in kept :: kept[k] == old(savedStates)[k]
        invariant forall k | k in old(savedStates) :: k in kept <==> k in keys || k in ids
        decreases keys
      {
        HasMember(keys);
        var k :| k in keys;
        if k !in ids {
          kept := kept - {k};
        }
        keys := keys - {k};
      }
      forall k
        ensures k in kept <==> k in old(savedStates) && k in ids
      {
        if k in kept {
          assert k in old(savedStates);
        }
      }
      assert kept.Keys == Orphans(old(savedStates), ids).Keys;
      savedStates := kept;
    }

    /** `findComponentAtPosition(x, y)`: clean up, then the first listed component whose rectangle holds (x, y). */
    method FindComponentAtPosition(x: int, y: int) returns (r: Option<Placed>)
      requires Valid()
      modifies this`savedStates
      ensures Valid()
      ensures savedStates == Orphans(old(savedStates), Ids(canvas.placed))
      ensures r.Some? <==> exists k :: 0 <= k < |canvas.placed| && Covers(canvas.placed[k], x, y)
      ensures r.Some? ==> r == Some(canvas.placed[FindAt(canvas.placed, x, y).value])
    {
      CleanupOrphanedStates();
      var i := FindAt(canvas.placed, x, y);
      r := if i.Some? then Some(canvas.placed[i.value]) else None;
    }

    /** `exitBrushMode` */
    method ExitBrushMode()
      requires Valid()
      modifies this`brush
      ensures Valid() && brush.None?
    {
      brush := None;
    }

    /** `restoreComponentToOriginalPosition`: repaint the moving component where it was and list it again. */
    method RestoreToOriginalPosition()
      requires Valid()
      modifies canvas`pixels, canvas`placed, this`moving, this`isDragging
      ensures Valid() && moving.None? && !isDragging
      ensures old(moving).Some? ==> Current() == Dropping(old(Current()), canvas.width, canvas.height, old(moving).value)
      ensures old(moving).None? ==> Current() == old(Current())
    {
      if moving.Some? {
        var c := moving.value;
        PaintPlaced(c);
        canvas.placed := canvas.placed + [c];
        isDragging, moving := false, None;
      }
    }

    /** `placeComponent(index)`: enter placement mode with the saved design at `index`, leaving brush and move modes. */
    method PlaceComponent(designs: seq<Template>, index: int)
      requires Valid()
      modifies canvas`pixels, canvas`placed, this`moving, this`isDragging, this`brush, this`placing
      ensures Valid()
      ensures !(0 <= index < |designs|) ==> Current() == old(Current()) && placing == old(placing) && brush == old(brush) && moving == old(moving)
      ensures 0 <= index < |designs| ==> placing == Some(designs[index]) && brush.None? && moving.None?
      ensures 0 <= index < |designs| && old(moving).Some? ==> Current() == Dropping(old(Current()), canvas.width, canvas.height, old(moving).value)
      ensures old(moving).None? ==> Current() == old(Current())
    {
      if !(0 <= index < |designs|) {
        return;
      }
      if brush.Some? {
        ExitBrushMode();
      }
      if moving.Some? {
        RestoreToOriginalPosition();
      }
      placing := Some(designs[index]);
    }

    /** `enableComponentBrush(index)`: the saved design at `index` becomes the brush, leaving placement and move modes. */
    method EnableComponentBrush(designs: seq<Template>, index: int)
      requires Valid()
      modifies canvas`pixels, canvas`placed, this`moving, this`isDragging, this`brush, this`placing
      ensures Valid()
      ensures !(0 <= index < |designs|) ==> Current() == old(Current()) && placing == old(placing) && brush == old(brush) && moving == old(moving)
      ensures 0 <= index < |designs| ==> brush == Some(designs[index]) && placing.None? && moving.None?
      ensures 0 <= index < |designs| && old(moving).Some? ==> Current() == Dropping(old(Current()), canvas.width, canvas.height, old(moving).value)
      ensures old(moving).None? ==> Current() == old(Current())
    {
      if !(0 <= index < |designs|) {
        return;
      }
      if placing.Some? {
        placing := None;
      }
      if moving.Some? {
        RestoreToOriginalPosition();
      }
      brush := Some(designs[index]);
    }

    /**
     * `placeComponentOnCanvas(x, y)` with `id` for `Date.now() + Math.random()`: a design that
     * does not fit changes nothing; otherwise the grid is saved to the history, the cells under
     * the design are recorded under `id`, the component is listed and painted, and placement
     * mode ends.
     */
    method PlaceOnCanvas(x: nat, y: nat, id: int)
      requires Valid()
      modifies canvas`pixels, canvas`placed, canvas`entries, canvas`historyIndex, this`savedStates, this`placing
      ensures Valid()
      ensures old(placing).None? || !Fits(old(placing).value, x, y, canvas.width, canvas.height) ==>
                Current() == old(Current()) && canvas.Hist() == old(canvas.Hist()) && placing == old(placing)
      ensures old(placing).Some? && Fits(old(placing).value, x, y, canvas.width, canvas.height) ==>
                Current() == Placing(old(Current()), canvas.width, canvas.height, old(placing).value, x, y, id)
                && canvas.Hist() == History.Pushed(old(canvas.Hist()), History.Snapshot(old(canvas.pixels)))
                && placing.None?
    {
      if placing.None? {
        return;
      }
      var t := placing.value;
      if !Fits(t, x, y, canvas.width, canvas.height) {
        return;
      }
      canvas.SaveState();
      var rec := RecordFootprint(canvas.pixels, canvas.width, canvas.height, t, x, y);
      savedStates := savedStates[id := rec];
      var c := Placed(t, x, y, id);
      canvas.placed := canvas.placed + [c];
      PaintPlaced(c);
      placing := None;
    }

    /** `drawComponentAsBrush(x, y)`: stamp the brush design where it fits, with no record and no history entry. */
    method DrawComponentAsBrush(x: nat, y: nat)
      requires Valid()
      modifies canvas`pixels
      ensures Valid()
      ensures brush.Some? && Fits(brush.value, x, y, canvas.width, canvas.height) ==>
                canvas.pixels == Stamped(old(canvas.pixels), canvas.width, canvas.height, brush.value, x, y, None)
      ensures brush.None? || !Fits(brush.value, x, y, canvas.width, canvas.height) ==> canvas.pixels == old(canvas.pixels)
    {
      if brush.None? {
        return;
      }
      var t := brush.value;
      if !Fits(t, x, y, canvas.width, canvas.height) {
        return;
      }
      canvas.pixels := PaintDesign(canvas.pixels, canvas.width, canvas.height, t, x, y, None);
    }

    /** `removePlacedComponent(id)` */
    method RemovePlacedComponent(id: int)
      requires Valid()
      modifies canvas`pixels, canvas`placed, this`savedStates
      ensures Valid()
      ensures Current() == Removing(old(Current()), canvas.width, id)
    {
      var i := IndexOfId(canvas.placed, id);
      if i == -1 {
        return;
      }
      RestoreOriginalState(canvas.placed[i]);
      canvas.placed := RemoveAt(canvas.placed, i);
      savedStates := savedStates - {id};
    }

    /** `startMoveOperation(c)`: the component is lifted off the canvas and follows the pointer. */
    method StartMoveOperation(c: Placed)
      requires Valid() && placing.None?
      modifies canvas`pixels, canvas`placed, this`savedStates, this`moving, this`isDragging
      ensures Valid()
      ensures Current() == Lifting(old(Current()), canvas.width, canvas.height, c)
      ensures moving == Some(c) && isDragging
    {
      isDragging := true;
      moving := Some(c);
      BlackOut(c);
      var i := IndexOfId(canvas.placed, c.id);
      if i != -1 {
        canvas.placed := RemoveAt(canvas.placed, i);
      }
    }

    /** `handleCanvasMouseDown` at grid cell (x, y) with the active tool `tool`. */
    method MouseDown(tool: string, x: int, y: int)
      requires Valid()
      modifies canvas`pixels, canvas`placed, this`savedStates, this`moving, this`isDragging
      ensures Valid()
      ensures old(placing).Some? || tool != "move" ==> Current() == old(Current()) && moving == old(moving)
      ensures old(placing).None? && tool == "move" ==>
                var cleaned := Scene(old(canvas.pixels), old(canvas.placed), Orphans(old(savedStates), Ids(old(canvas.placed))));
                var hit := FindAt(old(canvas.placed), x, y);
                if hit.Some?
                then Current() == Lifting(cleaned, canvas.width, canvas.height, old(canvas.placed)[hit.value])
                     && moving == Some(old(canvas.placed)[hit.value])
                else Current() == cleaned && moving == old(moving)
    {
      if placing.Some? || tool != "move" {
        return;
      }
      var c := FindComponentAtPosition(x, y);
      if c.Some? {
        StartMoveOperation(c.value);
      }
    }

    /**
     * `completeMoveOperation(gx, gy)`: a drop that does not fit puts the component back where it
     * was; otherwise it is listed and painted at (gx, gy), and orphaned records are dropped.
     */
    method CompleteMoveOperation(gx: nat, gy: nat)
      requires Valid()
      modifies canvas`pixels, canvas`placed, this`savedStates, this`moving, this`isDragging
      ensures Valid() && moving.None? && !isDragging
      ensures old(moving).None? ==> Current() == old(Current())
      ensures old(moving).Some? && !Fits(old(moving).value.design, gx, gy, canvas.width, canvas.height) ==>
                Current() == Dropping(old(Current()), canvas.width, canvas.height, old(moving).value)
      ensures old(moving).Some? && Fits(old(moving).value.design, gx, gy, canvas.width, canvas.height) ==>
                var dropped := Dropping(old(Current()), canvas.width, canvas.height, old(moving).value.(x := gx, y := gy));
                Current() == dropped.(states := Orphans(dropped.states, Ids(dropped.placed)))
    {
      if moving.None? {
        return;
      }
      var c := moving.value;
      if !Fits(c.design, gx, gy, canvas.width, canvas.height) {
        RestoreToOriginalPosition();
        return;
      }
      c := c.(x := gx, y := gy);
      canvas.placed := canvas.placed + [c];
      PaintPlaced(c);
      isDragging, moving := false, None;
      CleanupOrphanedStates();
    }

    /** `handleCanvasClick` at grid cell (x, y); `id` names a new placement and `justStarted` is the move's 100 ms guard. */
    method Click(x: nat, y: nat, id: int, justStarted: bool)
      requires Valid()
      modifies canvas`pixels, canvas`placed, canvas`entries, canvas`historyIndex
      modifies this`savedStates, this`placing, this`moving, this`isDragging
      ensures Valid()
      ensures old(placing).Some? && Fits(old(placing).value, x, y, canvas.width, canvas.height) ==>
                Current() == Placing(old(Current()), canvas.width, canvas.height, old(placing).value, x, y, id)
                && canvas.Hist() == History.Pushed(old(canvas.Hist()), History.Snapshot(old(canvas.pixels)))
                && placing.None?
      ensures old(placing).Some? && !Fits(old(placing).value, x, y, canvas.width, canvas.height) ==>
                Current() == old(Current()) && canvas.Hist() == old(canvas.Hist()) && placing == old(placing)
      ensures old(placing).None? ==> canvas.Hist() == old(canvas.Hist()) && placing.None?
      ensures old(placing).None? && (old(moving).None? || justStarted) ==> Current() == old(Current()) && moving == old(moving)
      // A move that did not just start completes at the clicked cell, or returns home when the design does not fit there.
      ensures old(placing).None? && old(moving).Some? && !justStarted ==>
                moving.None? && !isDragging &&
                if Fits(old(moving).value.design, x, y, canvas.width, canvas.height) then
                  var dropped := Dropping(old(Current()), canvas.width, canvas.height, old(moving).value.(x := x, y := y));
                  Current() == dropped.(states := Orphans(dropped.states, Ids(dropped.placed)))
                else
                  Current() == Dropping(old(Current()), canvas.width, canvas.height, old(moving).value)
    {
      if placing.Some? {
        PlaceOnCanvas(x, y, id);
      } else if moving.Some? && isDragging && !justStarted {
        CompleteMoveOperation(x, y);
      }
    }

    /** `clearAllPlacedComponents`: replay every record in list order, then forget the list and the records. */
    method ClearAllPlacedComponents()
      requires Valid()
      modifies canvas`pixels, canvas`placed, this`savedStates
      ensures Valid()
      ensures canvas.pixels == RestoredAll(old(canvas.pixels), old(canvas.placed), old(savedStates), canvas.width)
      ensures canvas.placed == [] && savedStates == map[]
    {
      var comps := canvas.placed;
      var k := 0;
      while k < |comps|
        invariant 0 <= k <= |comps|
        invariant canvas.Valid() && Valid() && savedStates == old(savedStates)
        invariant canvas.placed == comps
        invariant canvas.pixels == RestoredAll(old(canvas.pixels), comps[..k], savedStates, canvas.width)
      {
        assert comps[..k + 1][..k] == comps[..k];
        RestoreOriginalState(comps[k]);
        k := k + 1;
      }
      assert comps[..|comps|] == comps;
      canvas.placed := [];
      savedStates := map[];
    }
  }
}
