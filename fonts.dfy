/**
 * A bitmap font as the editor stores it: a name, and for every character saved so far
 * its pixel rows (`characters[char][y][x]`), plus the reference lines saved for the font.
 */
module Fonts {
  import opened Wrappers
  import opened Grid

  /** A character's pixels as rows of colours. */
  type Rows = seq<seq<Color>>

  /** `referenceLines`; each field may be missing from a stored font. */
  datatype ReferenceLines = ReferenceLines(baseline: Option<int>, vertical: Option<int>)

  datatype Font = Font(name: string, characters: map<string, Rows>, referenceLines: Option<ReferenceLines>)

  /** `fonts.find(f => f.name === name)` */
  function FindFont(fonts: seq<Font>, name: string): (r: Option<Font>)
    ensures r.None? <==> forall i | 0 <= i < |fonts| :: fonts[i].name != name
    ensures r.Some? ==> exists i | 0 <= i < |fonts| :: fonts[i] == r.value && fonts[i].name == name
                                   && forall j | 0 <= j < i :: fonts[j].name != name
  {
    var i := FindFontIndex(fonts, name);
    if i < 0 then None else Some(fonts[i])
  }

  /** `fonts.findIndex(f => f.name === name)`: the first match, or -1. */
  function FindFontIndex(fonts: seq<Font>, name: string): (i: int)
    ensures -1 <= i < |fonts|
    ensures i < 0 <==> forall j | 0 <= j < |fonts| :: fonts[j].name != name
    ensures i >= 0 ==> fonts[i].name == name && forall j | 0 <= j < i :: fonts[j].name != name
  {
    var names := seq(|fonts|, j requires 0 <= j < |fonts| => fonts[j].name);
    assert forall j | 0 <= j < |fonts| :: names[j] == fonts[j].name;
    NameIndex(names, name)
  }

  /**
   * `findIndex(x => x.name === name)` over the names of a list, in list order: the first
   * position holding the name, or -1 when none does. The font and design lookups both use it.
   */
  function NameIndex(names: seq<string>, name: string): (i: int)
    ensures -1 <= i < |names|
    ensures i < 0 <==> forall j | 0 <= j < |names| :: names[j] != name
    ensures i >= 0 ==> names[i] == name && forall j | 0 <= j < i :: names[j] != name
    decreases |names|
  {
    if names == [] then -1
    else if names[0] == name then 0
    else
      var k := NameIndex(names[1..], name);
      if k < 0 then -1 else k + 1
  }

  // ---------------------------------------------------------------- 1D <-> 2D

  /** `pixelData[i] || '#000000'`: a falsy value, or `undefined` past the end, is black. */
  function CellOf(p: seq<Color>, i: nat): (c: Color)
    ensures c != ""
  {
    if i < |p| then OrBlack(p[i]) else Black
  }

  /** The save path's reshape: `h` rows of `w` cells, cell (y, x) from index `y * w + x`. */
  function Reshape(p: seq<Color>, w: nat, h: nat): (rows: Rows)
    ensures |rows| == h && forall y | 0 <= y < h :: |rows[y]| == w
  {
    seq(h, y requires 0 <= y < h => seq(w, x requires 0 <= x < w => CellOf(p, y * w + x)))
  }

  /** `characterData[y][x] || '#000000'` on one row cut or padded to `w` cells. */
  function RowCells(row: seq<Color>, w: nat): (cells: seq<Color>)
    ensures |cells| == w
  {
    seq(w, x requires 0 <= x < w => if x < |row| then OrBlack(row[x]) else Black)
  }

  /** The width the edit path flattens with: the first row's length, or 16 without rows. */
  function FlatWidth(rows: Rows): nat {
    if |rows| > 0 then |rows[0]| else 16
  }

  /** The edit path's flatten: rows of `w` cells one after another. */
  function FlattenRows(rows: Rows, w: nat): (p: seq<Color>)
    decreases |rows|
  {
    if rows == [] then [] else FlattenRows(rows[..|rows| - 1], w) + RowCells(rows[|rows| - 1], w)
  }

  lemma MulStep(k: nat, w: nat)
    ensures (k + 1) * w == k * w + w
  {
  }

  lemma {:induction false} FlattenLength(rows: Rows, w: nat)
    ensures |FlattenRows(rows, w)| == |rows| * w
    decreases |rows|
  {
    if rows != [] {
      var n := |rows|;
      FlattenLength(rows[..n - 1], w);
      MulStep(n - 1, w);
    }
  }

  lemma FlattenStep(rows: Rows, w: nat, y: nat)
    requires y < |rows|
    ensures FlattenRows(rows[..y + 1], w) == FlattenRows(rows[..y], w) + RowCells(rows[y], w)
  {
    assert rows[..y + 1][..y] == rows[..y];
  }

  lemma RowStart(y: nat, n: nat, x: nat, w: nat)
    requires y < n && x < w
    ensures y * w + x < n * w
  {
    MulMono(y + 1, n, w);
  }

  /** Cell (y, x) of the flattened rows sits at `y * w + x`. */
  lemma {:induction false} FlattenAt(rows: Rows, w: nat, y: nat, x: nat)
    requires y < |rows| && x < w
    ensures y * w + x < |FlattenRows(rows, w)|
    ensures FlattenRows(rows, w)[y * w + x] == RowCells(rows[y], w)[x]
    decreases |rows|
  {
    var n := |rows|;
    var front := rows[..n - 1];
    FlattenLength(rows, w);
    FlattenLength(front, w);
    RowStart(y, n, x, w);
    if y < n - 1 {
      FlattenAt(front, w, y, x);
      RowStart(y, n - 1, x, w);
    } else {
      assert FlattenRows(rows, w) == FlattenRows(front, w) + RowCells(rows[n - 1], w);
    }
  }

  lemma FlattenReshapeAt(p: seq<Color>, w: nat, h: nat, y: nat, x: nat)
    requires y < h && x < w
    ensures y * w + x < |FlattenRows(Reshape(p, w, h), w)|
    ensures FlattenRows(Reshape(p, w, h), w)[y * w + x] == CellOf(p, y * w + x)
  {
    FlattenAt(Reshape(p, w, h), w, y, x);
  }

  lemma CoordsOf(i: nat, w: nat, h: nat) returns (y: nat, x: nat)
    requires i < h * w
    ensures y < h && x < w && i == y * w + x
  {
    assert w > 0;
    y, x := i / w, i % w;
    if y >= h { MulMono(h, y, w); }
  }

  /** Flattening the reshaped rows gives back the pixels, each falsy value read as black. */
  lemma FlattenReshape(p: seq<Color>, w: nat, h: nat)
    ensures FlattenRows(Reshape(p, w, h), w) == seq(h * w, i requires 0 <= i < h * w => CellOf(p, i))
  {
    var rows := Reshape(p, w, h);
    FlattenLength(rows, w);
    forall i | 0 <= i < h * w
      ensures FlattenRows(rows, w)[i] == CellOf(p, i)
    {
      var y, x := CoordsOf(i, w, h);
      FlattenReshapeAt(p, w, h, y, x);
    }
  }

  /** For a full canvas the round trip is exact up to falsy values. */
  lemma FlattenReshapeFull(p: seq<Color>, w: nat, h: nat)
    requires |p| == w * h
    ensures FlattenRows(Reshape(p, w, h), FlatWidth(Reshape(p, w, h))) == seq(|p|, i requires 0 <= i < |p| => OrBlack(p[i]))
  {
    FlattenReshape(p, w, h);
    if h == 0 {
      assert FlatWidth(Reshape(p, w, h)) == 16;
    }
  }

  lemma ReshapeFlattenRow(rows: Rows, y: nat)
    requires y < |rows|
    ensures Reshape(FlattenRows(rows, FlatWidth(rows)), FlatWidth(rows), |rows|)[y] == RowCells(rows[y], FlatWidth(rows))
  {
    var w := FlatWidth(rows);
    var p := FlattenRows(rows, w);
    forall x | 0 <= x < w
      ensures Reshape(p, w, |rows|)[y][x] == RowCells(rows[y], w)[x]
    {
      FlattenAt(rows, w, y, x);
    }
  }

  /** Reshaping the flattened rows gives back the rows, cut or padded to the first row's width. */
  lemma ReshapeFlatten(rows: Rows)
    ensures Reshape(FlattenRows(rows, FlatWidth(rows)), FlatWidth(rows), |rows|)
         == seq(|rows|, y requires 0 <= y < |rows| => RowCells(rows[y], FlatWidth(rows)))
  {
    forall y | 0 <= y < |rows|
      ensures Reshape(FlattenRows(rows, FlatWidth(rows)), FlatWidth(rows), |rows|)[y] == RowCells(rows[y], FlatWidth(rows))
    {
      ReshapeFlattenRow(rows, y);
    }
  }
}
