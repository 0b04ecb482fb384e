/**
 * The values the code generator (exportCodeGenerator.js) computes for each export: packed
 * monochrome bytes, 0/1 cells, the Adafruit_GFX glyph table and bitmap, hex colour words and
 * the palette with its index array. The C source text wrapped around them is not modelled.
 */
module ExportCodeGenerator {
  import opened Wrappers
  import opened JsText
  import opened Grid
  import opened Bits
  import opened CanvasOps
  import opened Fonts

  // ---------------------------------------------------------------- the ink test

  /** A pixel is ink unless it is one of the three background spellings. */
  predicate IsOn(c: Color) { c != Black && c != "" && c != "rgb(0, 0, 0)" }

  /** Pixel `i` of `p` tested for ink; past the end the value is `undefined`, which is ink. */
  predicate OnAt(p: seq<Color>, i: nat) { i >= |p| || IsOn(p[i]) }

  /** The ink test of every pixel, in order. */
  function OnBits(p: seq<Color>): (bits: seq<bool>)
    ensures |bits| == |p|
  {
    seq(|p|, i requires 0 <= i < |p| => IsOn(p[i]))
  }

  // ---------------------------------------------------------------- convertToBytes

  /** Pixels packed eight to a byte, leftmost pixel in the most significant bit. */
  method ConvertToBytes(p: seq<Color>) returns (bytes: seq<nat>)
    ensures bytes == PackMsb(OnBits(p))
  {
    bytes := PackMsbLoop(OnBits(p));
  }

  /**
   * The stream layout: ceil(n / 8) bytes, bit `7 - i % 8` of byte `i / 8` is set exactly when
   * pixel `i` exists and is ink, so the emitted `(byte >> (7 - bitIndex)) & 1` loop reads every
   * pixel back and every padding bit as off.
   */
  lemma StreamReadsBack(p: seq<Color>, i: nat)
    requires i < 8 * ((|p| + 7) / 8)
    ensures |PackMsb(OnBits(p))| == (|p| + 7) / 8
    ensures ReadMsb(PackMsb(OnBits(p)), i) == Bit(i < |p| && IsOn(p[i]))
    ensures PackMsb(OnBits(p))[i / 8] < 256
  {
    ReadMsbPacked(OnBits(p), i);
    PackedAreBytes(OnBits(p));
  }

  /**
   * `generateMonoXBM` as written: it emits `convertToBytes` (MSB first) under a display loop
   * that reads `(canvas_bits[byteIndex] >> bitIndex) & 1` (LSB first). One white pixel packs to
   * 0x80, and that loop reads pixel 0 as off.
   */
  lemma XbmAsWrittenMisreads()
    ensures var p := ["#ffffff"];
            IsOn(p[0]) && PackMsb(OnBits(p)) == [128] && ReadLsb(PackMsb(OnBits(p)), 0) == 0
  {
    var p: seq<Color> := ["#ffffff"];
    var bits := OnBits(p);
    assert bits == [true];
    assert MsbValue(bits, 0, 1) == 1;
    assert MsbValue(bits, 0, 2) == 2;
    assert MsbValue(bits, 0, 3) == 4;
    assert MsbValue(bits, 0, 4) == 8;
    assert MsbValue(bits, 0, 5) == 16;
    assert MsbValue(bits, 0, 6) == 32;
    assert MsbValue(bits, 0, 7) == 64;
    assert MsbValue(bits, 0, 8) == 128;
    assert PackMsb(bits) == [128];
    assert Pow2(0) == 1;
  }

  /** The XBM bytes as the emitted reader expects them: eight pixels a byte, LSB first. */
  method ConvertToXbmBytes(p: seq<Color>) returns (bytes: seq<nat>)
    ensures bytes == PackLsb(OnBits(p))
  {
    bytes := PackLsbLoop(OnBits(p));
  }

  /** With LSB-first packing the XBM display loop reads every pixel back. */
  lemma XbmReadsBack(p: seq<Color>, i: nat)
    requires i < 8 * ((|p| + 7) / 8)
    ensures |PackLsb(OnBits(p))| == (|p| + 7) / 8
    ensures ReadLsb(PackLsb(OnBits(p)), i) == Bit(i < |p| && IsOn(p[i]))
  {
    ReadLsbPacked(OnBits(p), i);
  }

  // ---------------------------------------------------------------- generateMono2DArray

  /** One row of 0/1 cells. */
  method MonoRow(p: seq<Color>, w: nat, y: nat) returns (row: seq<nat>)
    ensures |row| == w
    ensures forall x | 0 <= x < w :: row[x] == Bit(OnAt(p, y * w + x))
  {
    row := [];
    var x := 0;
    while x < w
      invariant x <= w && |row| == x
      invariant forall i | 0 <= i < x :: row[i] == Bit(OnAt(p, y * w + i))
    {
      var index := y * w + x;
      row := row + [if OnAt(p, index) then 1 else 0];
      x := x + 1;
    }
  }

  /** `h` rows of `w` cells; cell (y, x) is 1 exactly when `pixelData[y * w + x]` is ink. */
  method Mono2DArray(p: seq<Color>, w: nat, h: nat) returns (cells: seq<seq<nat>>)
    ensures |cells| == h
    ensures forall y | 0 <= y < h :: |cells[y]| == w
    ensures forall y, x | 0 <= y < h && 0 <= x < w :: cells[y][x] == Bit(OnAt(p, y * w + x))
  {
    cells := [];
    var y := 0;
    while y < h
      invariant y <= h && |cells| == y
      invariant forall r | 0 <= r < y :: |cells[r]| == w
      invariant forall r, x | 0 <= r < y && 0 <= x < w :: cells[r][x] == Bit(OnAt(p, r * w + x))
    {
      var row := MonoRow(p, w, y);
      cells := cells + [row];
      y := y + 1;
    }
  }

  /**
   * On a full canvas the 2D array and the packed stream show the same image: cell (y, x) is
   * the bit the packed formats' display loop reads at pixel index `y * w + x`.
   */
  lemma MonoFormatsAgree(p: seq<Color>, w: nat, h: nat, x: nat, y: nat)
    requires |p| == w * h && x < w && y < h
    ensures y * w + x < 8 * |PackMsb(OnBits(p))|
    ensures ReadMsb(PackMsb(OnBits(p)), y * w + x) == Bit(OnAt(p, y * w + x))
  {
    IdxInRange(x, y, w, h);
    StreamReadsBack(p, y * w + x);
  }

  // ---------------------------------------------------------------- Adafruit_GFX glyphs

  /** One `GFXglyph` record. */
  datatype Glyph = Glyph(bitmapOffset: nat, width: nat, height: nat, xAdvance: nat, xOffset: int, yOffset: int)

  /** The glyph table and the bitmap the glyphs index into. */
  datatype GlyphTable = GlyphTable(glyphs: seq<Glyph>, bitmap: seq<nat>)

  /** The printable ASCII characters, in code order. */
  const GfxCharacters: string :=
    " !\"#$%&'()*+,-./" + "0123456789:;<=>?" + "@ABCDEFGHIJKLMNO" + "PQRSTUVWXYZ[\\]^_" + "`abcdefghijklmno" + "pqrstuvwxyz{|}~"

  const FontNotFound: string := "// Font not found or has no characters"
  const CharacterNotFound: string := "// Character not found"

  /** The table covers 0x20 (space) to 0x7E (tilde), one character per code, in order. */
  /** Character `i` of `s` has code `c + i`. */
  predicate AsciiFrom(s: string, c: int) {
    forall i | 0 <= i < |s| :: s[i] as int == c + i
  }

  lemma AsciiJoin(a: string, b: string, c: int)
    requires AsciiFrom(a, c) && AsciiFrom(b, c + |a|)
    ensures AsciiFrom(a + b, c)
  {
  }

  lemma AsciiBlocks()
    ensures AsciiFrom(" !\"#$%&'()*+,-./", 0x20) && AsciiFrom("0123456789:;<=>?", 0x30)
    ensures AsciiFrom("@ABCDEFGHIJKLMNO", 0x40) && AsciiFrom("PQRSTUVWXYZ[\\]^_", 0x50)
    ensures AsciiFrom("`abcdefghijklmno", 0x60) && AsciiFrom("pqrstuvwxyz{|}~", 0x70)
  {
  }

  /** The table covers 0x20 (space) to 0x7E (tilde), one character per code, in order. */
  lemma GfxCharactersAreAscii()
    ensures |GfxCharacters| == 95 && AsciiFrom(GfxCharacters, 0x20)
    ensures GfxCharacters[0] == ' ' && GfxCharacters[94] == '~'
  {
    var a, b, c, d, e, f := " !\"#$%&'()*+,-./", "0123456789:;<=>?", "@ABCDEFGHIJKLMNO", "PQRSTUVWXYZ[\\]^_", "`abcdefghijklmno", "pqrstuvwxyz{|}~";
    AsciiBlocks();
    AsciiJoin(a, b, 0x20);
    AsciiJoin(a + b, c, 0x20);
    AsciiJoin(a + b + c, d, 0x20);
    AsciiJoin(a + b + c + d, e, 0x20);
    AsciiJoin(a + b + c + d + e, f, 0x20);
  }

  /** The key `font.characters[char]` looks up for entry `i` of the character string `cs`. */
  function GlyphKey(cs: string, i: nat): string
    requires i < |cs|
  {
    [cs[i]]
  }

  /** `charData[0]` is read for every present glyph, so a present glyph has a first row. */
  predicate Exportable(chars: map<string, Rows>, cs: string) {
    forall i | 0 <= i < |cs| :: GlyphKey(cs, i) in chars ==> chars[GlyphKey(cs, i)] != []
  }

  /** Row `row` of a glyph `w` pixels wide: a pixel the row lacks reads `undefined`, which is ink. */
  function GlyphRowBits(row: seq<Color>, w: nat): (bits: seq<bool>)
    ensures |bits| == w
  {
    seq(w, x requires 0 <= x < w => OnAt(row, x))
  }

  /** Every row of a glyph, cut or padded to the first row's width. */
  function GlyphRows(rows: Rows): (r: seq<seq<bool>>)
    requires rows != []
    ensures |r| == |rows| && forall y | 0 <= y < |r| :: |r[y]| == |rows[0]|
  {
    seq(|rows|, y requires 0 <= y < |rows| => GlyphRowBits(rows[y], |rows[0]|))
  }

  /** A glyph's bitmap: its rows one after another, each padded to a byte, leftmost pixel in the MSB. */
  function GlyphBitmap(rows: Rows): seq<nat>
    requires rows != []
  {
    PackRowsMsb(GlyphRows(rows))
  }

  /** The bytes a glyph record claims: `height * ceil(width / 8)`. */
  function GlyphSize(g: Glyph): nat { g.height * ((g.width + 7) / 8) }

  function PresentGlyph(rows: Rows, offset: nat): Glyph
    requires rows != []
  {
    Glyph(offset, |rows[0]|, |rows|, |rows[0]| + 1, 0, 0)
  }

  /** A character the font lacks: no bytes, 0 x 0, advance 8. */
  function AbsentGlyph(offset: nat): Glyph { Glyph(offset, 0, 0, 8, 0, 0) }

  /** The entries for the first `n` characters of `cs` and the bitmap bytes they contribute. */
  function FontTable(chars: map<string, Rows>, cs: string, n: nat): (t: GlyphTable)
    requires n <= |cs| && Exportable(chars, cs)
    ensures |t.glyphs| == n
  {
    if n == 0 then GlyphTable([], [])
    else
      var t := FontTable(chars, cs, n - 1);
      var key := GlyphKey(cs, n - 1);
      if key in chars then
        GlyphTable(t.glyphs + [PresentGlyph(chars[key], |t.bitmap|)], t.bitmap + GlyphBitmap(chars[key]))
      else
        GlyphTable(t.glyphs + [AbsentGlyph(|t.bitmap|)], t.bitmap)
  }

  /** A glyph's bitmap takes exactly the bytes its record claims. */
  lemma GlyphBitmapSize(rows: Rows)
    requires rows != []
    ensures |GlyphBitmap(rows)| == GlyphSize(PresentGlyph(rows, 0))
  {
    PackRowsLength(GlyphRows(rows), |rows[0]|);
  }

  /** The bytes a glyph loop builds, row by row. */
  method GlyphBitmapLoop(rows: Rows) returns (bytes: seq<nat>)
    requires rows != []
    ensures bytes == GlyphBitmap(rows)
  {
    var w := |rows[0]|;
    ghost var all := GlyphRows(rows);
    bytes := [];
    var y := 0;
    while y < |rows|
      invariant y <= |rows|
      invariant bytes == PackRowsMsb(all[..y])
    {
      var rowBytes := PackMsbLoop(GlyphRowBits(rows[y], w));
      assert all[..y + 1][..y] == all[..y];
      bytes := bytes + rowBytes;
      y := y + 1;
    }
    assert all[..|rows|] == all;
  }

  /**
   * `generateAdafruitGFXFont`'s loop over its character string: a present glyph is recorded at the
   * running offset and its bytes appended, the offset grows by `height * ceil(width / 8)`; an
   * absent one is recorded at the same offset with no bytes.
   */
  method BuildFontTable(chars: map<string, Rows>, characters: string) returns (t: GlyphTable)
    requires Exportable(chars, characters)
    ensures t == FontTable(chars, characters, |characters|)
  {
    var glyphs: seq<Glyph> := [];
    var bitmap: seq<nat> := [];
    var offset := 0;
    var i := 0;
    while i < |characters|
      invariant i <= |characters|
      invariant GlyphTable(glyphs, bitmap) == FontTable(chars, characters, i)
      invariant offset == |bitmap|
    {
      var key := [characters[i]];
      assert key == GlyphKey(characters, i);
      if key in chars {
        var charData := chars[key];
        var charWidth := |charData[0]|;
        var charHeight := |charData|;
        var totalBytes := ((charWidth + 7) / 8) * charHeight;
        glyphs := glyphs + [Glyph(offset, charWidth, charHeight, charWidth + 1, 0, 0)];
        var bytes := GlyphBitmapLoop(charData);
        bitmap := bitmap + bytes;
        GlyphBitmapSize(charData);
        offset := offset + totalBytes;
      } else {
        glyphs := glyphs + [Glyph(offset, 0, 0, 8, 0, 0)];
      }
      i := i + 1;
    }
    t := GlyphTable(glyphs, bitmap);
  }

  /** `generateAdafruitGFXFont(fontName)`: the table of the font with that name, or the error text. */
  method GenerateGfxFont(fonts: seq<Font>, fontName: string) returns (r: Result<GlyphTable, string>)
    requires FindFont(fonts, fontName).Some? ==> Exportable(FindFont(fonts, fontName).value.characters, GfxCharacters)
    ensures FindFont(fonts, fontName).None? ==> r == Err(FontNotFound)
    ensures FindFont(fonts, fontName).Some? ==>
              r == Ok(FontTable(FindFont(fonts, fontName).value.characters, GfxCharacters, |GfxCharacters|))
  {
    var font := FindFont(fonts, fontName);
    if font.None? {
      return Err(FontNotFound);
    }
    var t := BuildFontTable(font.value.characters, GfxCharacters);
    r := Ok(t);
  }

  /** The total of the byte counts the records claim. */
  function SumSizes(gs: seq<Glyph>): nat
    decreases |gs|
  {
    if gs == [] then 0 else SumSizes(gs[..|gs| - 1]) + GlyphSize(gs[|gs| - 1])
  }

  /** The bitmap is exactly as long as the byte counts the records claim, all together. */
  lemma {:induction false} FontTableLength(chars: map<string, Rows>, cs: string, n: nat)
    requires n <= |cs| && Exportable(chars, cs)
    ensures |FontTable(chars, cs, n).bitmap| == SumSizes(FontTable(chars, cs, n).glyphs)
  {
    if n > 0 {
      FontTableLength(chars, cs, n - 1);
      var t, u := FontTable(chars, cs, n - 1), FontTable(chars, cs, n);
      assert u.glyphs[..n - 1] == t.glyphs;
      var key := GlyphKey(cs, n - 1);
      if key in chars {
        GlyphBitmapSize(chars[key]);
      }
    }
  }

  /** Later entries only append to the glyph table and the bitmap. */
  lemma {:induction false} FontTablePrefix(chars: map<string, Rows>, cs: string, n: nat, m: nat)
    requires n <= m <= |cs| && Exportable(chars, cs)
    ensures FontTable(chars, cs, n).glyphs == FontTable(chars, cs, m).glyphs[..n]
    ensures FontTable(chars, cs, n).bitmap <= FontTable(chars, cs, m).bitmap
    decreases m - n
  {
    if n < m {
      FontTablePrefix(chars, cs, n, m - 1);
      assert FontTable(chars, cs, m).glyphs[..m - 1] == FontTable(chars, cs, m - 1).glyphs;
    }
  }

  /** A slice of a prefix is the same slice of the longer sequence. */
  lemma SliceOfPrefix(a: seq<nat>, b: seq<nat>, lo: nat, hi: nat)
    requires a <= b && lo <= hi <= |a|
    ensures b[lo..hi] == a[lo..hi]
  {
    assert b[..|a|] == a;
  }

  /** Entry `i` of the table is fixed once the first `i + 1` characters are processed. */
  lemma FontTableGlyph(chars: map<string, Rows>, cs: string, i: nat)
    requires i < |cs| && Exportable(chars, cs)
    ensures FontTable(chars, cs, |cs|).glyphs[i] == FontTable(chars, cs, i + 1).glyphs[i]
    ensures FontTable(chars, cs, i + 1).bitmap <= FontTable(chars, cs, |cs|).bitmap
  {
    FontTablePrefix(chars, cs, i + 1, |cs|);
  }

  /**
   * Entry `i` of the finished table: a present glyph has width = first row length,
   * height = row count, xAdvance = width + 1, and its bytes sit at its offset; an absent one is
   * 0 x 0 with advance 8. Either way the offset is the length of the bitmap built before it.
   */
  lemma FontTableEntry(chars: map<string, Rows>, cs: string, i: nat)
    requires i < |cs| && Exportable(chars, cs)
    ensures var t := FontTable(chars, cs, |cs|);
            var g := t.glyphs[i];
            var offset := |FontTable(chars, cs, i).bitmap|;
            g.bitmapOffset == offset &&
            if GlyphKey(cs, i) in chars then
              var rows := chars[GlyphKey(cs, i)];
              g == PresentGlyph(rows, offset)
              && offset + |GlyphBitmap(rows)| <= |t.bitmap|
              && t.bitmap[offset..offset + |GlyphBitmap(rows)|] == GlyphBitmap(rows)
            else
              g == AbsentGlyph(offset)
  {
    FontTableGlyph(chars, cs, i);
    FontTableStep(chars, cs, i);
    if GlyphKey(cs, i) in chars {
      FontTableBytes(chars, cs, i);
    }
  }

  /** A present glyph's bytes stay where they were appended. */
  lemma FontTableBytes(chars: map<string, Rows>, cs: string, i: nat)
    requires i < |cs| && Exportable(chars, cs) && GlyphKey(cs, i) in chars
    ensures var bytes, offset := GlyphBitmap(chars[GlyphKey(cs, i)]), |FontTable(chars, cs, i).bitmap|;
            var whole := FontTable(chars, cs, |cs|).bitmap;
            offset + |bytes| <= |whole| && whole[offset..offset + |bytes|] == bytes
  {
    FontTableGlyph(chars, cs, i);
    FontTableStep(chars, cs, i);
    var bytes := GlyphBitmap(chars[GlyphKey(cs, i)]);
    var before := FontTable(chars, cs, i).bitmap;
    var u := FontTable(chars, cs, i + 1).bitmap;
    assert u[|before|..|before| + |bytes|] == bytes;
    SliceOfPrefix(u, FontTable(chars, cs, |cs|).bitmap, |before|, |before| + |bytes|);
  }

  /** Processing character `i` appends its record and, when present, its bytes. */
  lemma FontTableStep(chars: map<string, Rows>, cs: string, i: nat)
    requires i < |cs| && Exportable(chars, cs)
    ensures var t, u := FontTable(chars, cs, i), FontTable(chars, cs, i + 1);
            var key := GlyphKey(cs, i);
            if key in chars then
              u.glyphs[i] == PresentGlyph(chars[key], |t.bitmap|) && u.bitmap == t.bitmap + GlyphBitmap(chars[key])
            else
              u.glyphs[i] == AbsentGlyph(|t.bitmap|) && u.bitmap == t.bitmap
  {
    var t := FontTable(chars, cs, i);
    assert FontTable(chars, cs, i + 1).glyphs == t.glyphs + [FontTable(chars, cs, i + 1).glyphs[i]];
  }

  /** Every glyph's `bitmapOffset` is the sum of the byte counts of the glyphs before it. */
  lemma GlyphOffsetIsSum(chars: map<string, Rows>, cs: string, i: nat)
    requires i < |cs| && Exportable(chars, cs)
    ensures FontTable(chars, cs, |cs|).glyphs[i].bitmapOffset == SumSizes(FontTable(chars, cs, |cs|).glyphs[..i])
  {
    FontTableEntry(chars, cs, i);
    FontTableLength(chars, cs, i);
    FontTablePrefix(chars, cs, i, |cs|);
  }

  /**
   * Pixel (x, y) of a glyph is bit `7 - x % 8` of byte `y * ceil(w / 8) + x / 8` of its bitmap:
   * rows start on a byte boundary and the leftmost pixel is the MSB.
   */
  lemma GlyphPixel(rows: Rows, x: nat, y: nat)
    requires rows != [] && x < |rows[0]| && y < |rows|
    ensures y * ((|rows[0]| + 7) / 8) + x / 8 < |GlyphBitmap(rows)|
    ensures (GlyphBitmap(rows)[y * ((|rows[0]| + 7) / 8) + x / 8] / Pow2(7 - x % 8)) % 2 == Bit(OnAt(rows[y], x))
  {
    ReadRowsMsb(GlyphRows(rows), |rows[0]|, x, y);
  }

  /** The single-character header: its bitmap, its glyph record and its first and last codes. */
  datatype CharacterExport = CharacterExport(bitmap: seq<nat>, glyph: Glyph, first: Option<nat>, last: Option<nat>)

  /** `character.charCodeAt(0)`; NaN for the empty string. */
  function CharCode(s: string): Option<nat> {
    if s == [] then None else Some(s[0] as nat)
  }

  /** `generateAdafruitGFXCharacter(fontName, character)`. */
  method GenerateGfxCharacter(fonts: seq<Font>, fontName: string, character: string)
    returns (r: Result<CharacterExport, string>)
    requires FindFont(fonts, fontName).Some? && character in FindFont(fonts, fontName).value.characters
             ==> FindFont(fonts, fontName).value.characters[character] != []
    ensures FindFont(fonts, fontName).None? || character !in FindFont(fonts, fontName).value.characters
            ==> r == Err(CharacterNotFound)
    ensures FindFont(fonts, fontName).Some? && character in FindFont(fonts, fontName).value.characters ==>
              var rows := FindFont(fonts, fontName).value.characters[character];
              r == Ok(CharacterExport(GlyphBitmap(rows), PresentGlyph(rows, 0), CharCode(character), CharCode(character)))
  {
    var font := FindFont(fonts, fontName);
    if font.None? || character !in font.value.characters {
      return Err(CharacterNotFound);
    }
    var charData := font.value.characters[character];
    var charWidth := |charData[0]|;
    var bitmap := GlyphBitmapLoop(charData);
    var code := if character == [] then None else Some(character[0] as nat);
    r := Ok(CharacterExport(bitmap, Glyph(0, charWidth, |charData|, charWidth + 1, 0, 0), code, code));
  }

  /**
   * The single-character header packs a character exactly as the font header does: its bitmap
   * is the font bitmap's slice at that glyph's offset, and the records differ only in the offset.
   */
  lemma CharacterMatchesFont(chars: map<string, Rows>, cs: string, i: nat)
    requires i < |cs| && Exportable(chars, cs) && GlyphKey(cs, i) in chars
    ensures var t := FontTable(chars, cs, |cs|);
            var g := t.glyphs[i];
            var rows := chars[GlyphKey(cs, i)];
            g.bitmapOffset + |GlyphBitmap(rows)| <= |t.bitmap|
            && t.bitmap[g.bitmapOffset..g.bitmapOffset + |GlyphBitmap(rows)|] == GlyphBitmap(rows)
            && g.(bitmapOffset := 0) == PresentGlyph(rows, 0)
  {
    FontTableEntry(chars, cs, i);
  }

  // ---------------------------------------------------------------- colour words

  predicate StartsWithRgb(c: string) { |c| >= 4 && c[..4] == "rgb(" }

  /** The spellings of an unpainted pixel. */
  predicate IsBackground(c: Color) { c == "" || c == Black || c == "rgb(0, 0, 0)" }

  /** `(r << 16) + (g << 8) + b` over the first three numbers of an `rgb(...)` spelling. */
  function RgbPacked(runs: seq<nat>): int
    requires |runs| >= 3
  {
    ShiftLeft(runs[0], 16) + ShiftLeft(runs[1], 8) + runs[2]
  }

  /**
   * `convertColorToHex`: a background spelling is `000000`; `#...` is its digits padded to six
   * with zeros and upper-cased; `rgb(r, g, b)` with three numbers is `(r << 16) + (g << 8) + b`
   * in hex, padded and upper-cased; anything else is `000000`.
   */
  function ConvertColorToHex(c: Color): string {
    if IsBackground(c) then "000000"
    else if |c| >= 1 && c[0] == '#' then ToUpperAscii(PadStart(c[1..], 6, '0'))
    else if StartsWithRgb(c) && |DigitRuns(c)| >= 3 then ToUpperAscii(PadStart(NumberToHex(RgbPacked(DigitRuns(c))), 6, '0'))
    else "000000"
  }

  /** The colour word of `pixelData[i]`; `undefined` past the end is falsy, hence `000000`. */
  function HexAt(p: seq<Color>, i: nat): string {
    if i < |p| then ConvertColorToHex(p[i]) else "000000"
  }

  /** The six hex digits, upper case, of the packed colour `0xRRGGBB`. */
  function ColorWord(r: nat, g: nat, b: nat): string
    requires r < 256 && g < 256 && b < 256
  {
    ToUpperAscii(HexDigits(r * 65536 + (g * 256 + b), 6))
  }

  lemma ZeroWord()
    ensures ColorWord(0, 0, 0) == "000000"
  {
    assert HexDigits(0, 6) == "000000";
  }

  lemma TripleDigits(r: nat, g: nat, b: nat)
    requires r < 256 && g < 256 && b < 256
    ensures HexTriple(r, g, b) == "#" + HexDigits(r * 65536 + (g * 256 + b), 6)
    ensures r * 65536 + (g * 256 + b) < Pow16(6)
  {
    HexLow(g, b);
    HexMid(r, g * 256 + b);
    Pow16Values();
  }

  /** An `rgb(...)` spelling starts with `rgb(`, and is a background spelling only for black. */
  lemma RgbSpelling(r: nat, g: nat, b: nat)
    ensures StartsWithRgb(RgbString(r, g, b)) && RgbString(r, g, b)[0] == 'r'
    ensures IsBackground(RgbString(r, g, b)) <==> r == 0 && g == 0 && b == 0
  {
    RgbStringBackground(r, g, b);
    var c := RgbString(r, g, b);
    assert c == "rgb(" + (DecimalString(r) + ", " + DecimalString(g) + ", " + DecimalString(b) + ")");
  }

  /** `#rrggbb` becomes `RRGGBB`. */
  lemma ConvertHexTriple(r: nat, g: nat, b: nat)
    requires r < 256 && g < 256 && b < 256
    ensures ConvertColorToHex(HexTriple(r, g, b)) == ColorWord(r, g, b)
  {
    var n := r * 65536 + (g * 256 + b);
    TripleDigits(r, g, b);
    var c := HexTriple(r, g, b);
    assert c[0] == '#' && c[1..] == HexDigits(n, 6);
    if IsBackground(c) {
      assert c == Black;
      assert HexDigits(n, 6) == HexDigits(0, 6) by { assert HexDigits(0, 6) == "000000"; }
      HexDigitsValue(n, 6);
      HexDigitsValue(0, 6) by { Pow16Values(); }
      ZeroWord();
    }
  }

  /** `rgb(r, g, b)` becomes the hex of `(r << 16) + (g << 8) + b`, the same word as `#rrggbb`. */
  lemma ConvertRgbString(r: nat, g: nat, b: nat)
    requires r < 256 && g < 256 && b < 256
    ensures ConvertColorToHex(RgbString(r, g, b)) == ColorWord(r, g, b)
  {
    RgbSpelling(r, g, b);
    if r == 0 && g == 0 && b == 0 {
      ZeroWord();
    } else {
      RgbStringRuns(r, g, b);
      ConvertRgbRuns(RgbString(r, g, b), r, g, b);
    }
  }

  /** Any `rgb(`-spelling that is not background, whose numbers are r, g, b, converts to the colour word. */
  lemma ConvertRgbRuns(c: Color, r: nat, g: nat, b: nat)
    requires r < 256 && g < 256 && b < 256
    requires StartsWithRgb(c) && c[0] == 'r' && !IsBackground(c) && DigitRuns(c) == [r, g, b]
    ensures ConvertColorToHex(c) == ColorWord(r, g, b)
  {
    var n := r * 65536 + (g * 256 + b);
    PackedValue(r, g, b);
    assert RgbPacked(DigitRuns(c)) == n;
    Pow16Values();
    PadHexString(n, 6);
    assert NumberToHex(n) == HexString(n);
    assert ConvertColorToHex(c) == ToUpperAscii(PadStart(NumberToHex(n), 6, '0'));
  }

  // ---------------------------------------------------------------- convertToColorArray

  /** `hex` in `convertToColorArray`: `rgb(...)` is re-spelled `#rrggbb`, a falsy colour is black. */
  function ArrayHex(c: Color): string {
    if StartsWithRgb(c) then
      var runs := DigitRuns(c);
      if |runs| >= 3 then "#" + NumberToHex(0x100_0000 + RgbPacked(runs))[1..]
      else Black
    else if c == "" then Black
    else c
  }

  /** `parseInt(hex.replace('#', ''), 16).toString(16).padStart(6, '0').toUpperCase()`; NaN prints `NaN`. */
  function ArrayWord(hex: string): string {
    var v := ParseIntHex(RemoveFirst(hex, '#'));
    if v.None? then "000NAN" else ToUpperAscii(PadStart(NumberToHex(v.value), 6, '0'))
  }

  /** `convertToColorArray`: one word per pixel. */
  function ConvertToColorArray(p: seq<Color>): (words: seq<string>)
    ensures |words| == |p|
  {
    seq(|p|, i requires 0 <= i < |p| => ArrayWord(ArrayHex(p[i])))
  }

  lemma ArrayWordOfTriple(r: nat, g: nat, b: nat)
    requires r < 256 && g < 256 && b < 256
    ensures ArrayWord(HexTriple(r, g, b)) == ColorWord(r, g, b)
  {
    var n := r * 65536 + (g * 256 + b);
    TripleDigits(r, g, b);
    assert RemoveFirst(HexTriple(r, g, b), '#') == HexDigits(n, 6);
    ParseIntHexDigits(n, 6);
    PadHexString(n, 6);
  }

  lemma ArrayOfTriple(r: nat, g: nat, b: nat)
    requires r < 256 && g < 256 && b < 256
    ensures ConvertToColorArray([HexTriple(r, g, b)]) == [ColorWord(r, g, b)]
  {
    var t := HexTriple(r, g, b);
    assert t[0] == '#';
    assert ArrayHex(t) == t;
    ArrayWordOfTriple(r, g, b);
  }

  lemma ArrayOfRgb(r: nat, g: nat, b: nat)
    requires r < 256 && g < 256 && b < 256
    ensures ConvertToColorArray([RgbString(r, g, b)]) == [ColorWord(r, g, b)]
  {
    var c := RgbString(r, g, b);
    RgbSpelling(r, g, b);
    RgbStringRuns(r, g, b);
    PackedHex(r, g, b);
    var hr, hg, hb := HexDigits(r, 2), HexDigits(g, 2), HexDigits(b, 2);
    assert "#" + (hr + hg + hb) == "#" + hr + hg + hb;
    assert ArrayHex(c) == HexTriple(r, g, b);
    ArrayWordOfTriple(r, g, b);
  }

  /**
   * The 1D and BMP colour arrays spell `#rrggbb` and `rgb(r, g, b)` with the same word, and it
   * is the word the 2D array and the palette give both spellings.
   */
  lemma ColorArrayAgrees(r: nat, g: nat, b: nat)
    requires r < 256 && g < 256 && b < 256
    ensures ConvertToColorArray([HexTriple(r, g, b)]) == [ColorWord(r, g, b)]
    ensures ConvertToColorArray([RgbString(r, g, b)]) == [ColorWord(r, g, b)]
    ensures ConvertColorToHex(HexTriple(r, g, b)) == ColorWord(r, g, b)
    ensures ConvertColorToHex(RgbString(r, g, b)) == ColorWord(r, g, b)
  {
    ArrayOfTriple(r, g, b);
    ArrayOfRgb(r, g, b);
    ConvertHexTriple(r, g, b);
    ConvertRgbString(r, g, b);
  }

  /** A spelling that neither starts with `rgb(` nor holds `#` nor begins like a number is NaN. */
  lemma ArrayWordOfName(c: Color)
    requires c != [] && !StartsWithRgb(c) && '#' !in c
    requires !IsJsWhiteSpace(c[0]) && !IsHexDigit(c[0]) && c[0] != '-' && c[0] != '+'
    ensures ConvertToColorArray([c]) == ["000NAN"]
  {
    assert ArrayHex(c) == c;
    assert RemoveFirst(c, '#') == c;
    assert TrimStart(c) == c;
  }

  /** `transparent` does not parse as hex: its word is `000NAN`, where the 2D array prints `000000`. */
  lemma ColorArrayOfName()
    ensures ConvertToColorArray(["transparent"]) == ["000NAN"]
    ensures ConvertColorToHex("transparent") == "000000"
  {
    var c := "transparent";
    assert c[0] == 't' && c[..4][0] == 't';
    assert '#' !in c;
    ArrayWordOfName(c);
  }

  // ---------------------------------------------------------------- generateColor2DArray

  /** Row `y` of the 2D colour array: word x is the word of pixel `y * w + x`. */
  predicate WordRow(row: seq<string>, p: seq<Color>, w: nat, y: nat) {
    |row| == w && forall x | 0 <= x < w :: row[x] == HexAt(p, y * w + x)
  }

  /** One row of colour words. */
  method ColorRow(p: seq<Color>, w: nat, y: nat) returns (row: seq<string>)
    ensures WordRow(row, p, w, y)
  {
    row := [];
    var x := 0;
    while x < w
      invariant x <= w && |row| == x
      invariant forall i | 0 <= i < x :: row[i] == HexAt(p, y * w + i)
    {
      var index := y * w + x;
      row := row + [HexAt(p, index)];
      x := x + 1;
    }
  }

  /** `generateColor2DArray`: `h` rows, row y holding the words of pixels `y * w` to `y * w + w - 1`. */
  method Color2DArray(p: seq<Color>, w: nat, h: nat) returns (cells: seq<seq<string>>)
    ensures |cells| == h
    ensures forall y | 0 <= y < h :: WordRow(cells[y], p, w, y)
  {
    cells := [];
    var y := 0;
    while y < h
      invariant y <= h && |cells| == y
      invariant forall r | 0 <= r < y :: WordRow(cells[r], p, w, r)
    {
      var row := ColorRow(p, w, y);
      cells := cells + [row];
      y := y + 1;
    }
  }

  // ---------------------------------------------------------------- generateColorPalette

  /** The palette words and, for each pixel, the position of its colour among the unique colours. */
  datatype PaletteExport = PaletteExport(palette: seq<string>, indices: seq<int>)

  /**
   * `generateColorPalette`: the unique colours have no duplicates, every index is in range,
   * the colour at a pixel's index is that pixel's colour and its palette word is the pixel's word.
   */
  function ColorPalette(p: seq<Color>): (r: PaletteExport)
    ensures |r.palette| == |Unique(p)| && |r.indices| == |p|
    ensures forall i | 0 <= i < |p| ::
              0 <= r.indices[i] < |r.palette| && Unique(p)[r.indices[i]] == p[i]
              && r.palette[r.indices[i]] == ConvertColorToHex(p[i])
  {
    var unique := Unique(p);
    var palette := seq(|unique|, k requires 0 <= k < |unique| => ConvertColorToHex(unique[k]));
    var indices := seq(|p|, i requires 0 <= i < |p| => IndexOf(unique, p[i]));
    assert forall i | 0 <= i < |p| :: p[i] in unique;
    PaletteExport(palette, indices)
  }

  // ---------------------------------------------------------------- updateExportCode

  /** The arrays behind each exported sub-format. */
  datatype Export =
    | Mono2D(cells: seq<seq<nat>>)
    | MonoBinary(bytes: seq<nat>)
    | MonoHex(bytes: seq<nat>)
    | MonoXbm(bytes: seq<nat>)
    | Color2D(rows: seq<seq<string>>)
    | Color1D(words: seq<string>)
    | ColorBmp(words: seq<string>)
    | Palette(palette: PaletteExport)

  predicate KnownProtocol(protocol: string) { protocol == "standard" || protocol == "spi" || protocol == "i2c" }

  /**
   * `updateExportCode`: an unknown protocol leaves the code empty (`None`); the three protocols
   * differ only in a label. `monochrome` picks a monochrome sub-format, any other format a colour
   * one; a missing or unknown sub-format falls back to the 2D array.
   */
  method GenerateCode(protocol: string, format: string, subFormat: Option<string>, p: seq<Color>, w: nat, h: nat)
    returns (r: Option<Export>)
    ensures r.None? <==> !KnownProtocol(protocol)
    ensures r.Some? && format == "monochrome" ==>
              if subFormat == Some("mono-binary") then r.value == MonoBinary(PackMsb(OnBits(p)))
              else if subFormat == Some("mono-hex") then r.value == MonoHex(PackMsb(OnBits(p)))
              else if subFormat == Some("mono-xbm") then r.value == MonoXbm(PackLsb(OnBits(p)))
              else r.value.Mono2D? && |r.value.cells| == h
                   && forall y, x | 0 <= y < h && 0 <= x < w ::
                        |r.value.cells[y]| == w && r.value.cells[y][x] == Bit(OnAt(p, y * w + x))
    ensures r.Some? && format != "monochrome" ==>
              if subFormat == Some("color-1d") then r.value == Color1D(ConvertToColorArray(p))
              else if subFormat == Some("color-bmp") then r.value == ColorBmp(ConvertToColorArray(p))
              else if subFormat == Some("color-palette") then r.value == Palette(ColorPalette(p))
              else r.value.Color2D? && |r.value.rows| == h
                   && forall y | 0 <= y < h :: WordRow(r.value.rows[y], p, w, y)
  {
    if !KnownProtocol(protocol) {
      return None;
    }
    var e: Export;
    if format == "monochrome" {
      if subFormat == Some("mono-binary") {
        var bytes := ConvertToBytes(p);
        e := MonoBinary(bytes);
      } else if subFormat == Some("mono-hex") {
        var bytes := ConvertToBytes(p);
        e := MonoHex(bytes);
      } else if subFormat == Some("mono-xbm") {
        var bytes := ConvertToXbmBytes(p);
        e := MonoXbm(bytes);
      } else {
        var cells := Mono2DArray(p, w, h);
        e := Mono2D(cells);
      }
    } else {
      if subFormat == Some("color-1d") {
        e := Color1D(ConvertToColorArray(p));
      } else if subFormat == Some("color-bmp") {
        e := ColorBmp(ConvertToColorArray(p));
      } else if subFormat == Some("color-palette") {
        e := Palette(ColorPalette(p));
      } else {
        var rows := Color2DArray(p, w, h);
        e := Color2D(rows);
      }
    }
    r := Some(e);
  }
}
