/**
 * The Arduino exporter driven by the export panel: the protocol, format and sub-format the
 * panel holds, and the arrays it writes for a `{ name, width, height, data }` record. Pixels
 * may be colour strings or numbers; a pixel is "on" unless it spells black, and colours are
 * written as 16-bit RGB565 words.
 */
module ExportManager {
  import opened Wrappers
  import opened JsText
  import opened Grid
  import opened Bits
  import opened CanvasOps

  /** A value of the record's `data` array. */
  datatype Pixel = Text(s: string) | Number(v: int)

  /** `data[i]`, `None` standing for `undefined` past the end. */
  function PixelAt(data: seq<Pixel>, i: nat): (r: Option<Pixel>)
    ensures r.Some? <==> i < |data|
  {
    if i < |data| then Some(data[i]) else None
  }

  // ---------------------------------------------------------------- isPixelOn

  /** `isPixelOn`: a string is off only when it is `#000000` or `#000`; anything else is compared with 0. */
  predicate IsPixelOn(px: Option<Pixel>) {
    match px
    case Some(Text(s)) => s != "#000000" && s != "#000"
    case Some(Number(v)) => v != 0
    case None => true
  }

  lemma PixelOnCases(s: string, v: int)
    ensures !IsPixelOn(Some(Text(s))) <==> s == Black || s == "#000"
    ensures IsPixelOn(Some(Number(v))) <==> v != 0
    ensures IsPixelOn(Some(Text(""))) && IsPixelOn(Some(Text("rgb(0, 0, 0)"))) && IsPixelOn(None)
  {
    assert ""[..] != "#000";
    assert "rgb(0, 0, 0)"[0] != '#';
  }

  // ---------------------------------------------------------------- colorToHex

  /** `'0x' + v.toString(16).toUpperCase().padStart(4, '0')` */
  function HexWord(v: int): string {
    "0x" + PadStart(ToUpperAscii(NumberToHex(v)), 4, '0')
  }

  /** `parseInt(hex.substr(start, 2), 16)`, with NaN read as 0 by the shift that follows. */
  function Channel(hex: string, start: nat): int {
    NumberOrZero(ParseIntHex(Substr(hex, start, 2)))
  }

  /**
   * `colorToHex`: a string loses its first `#`, its three two-digit channels are cut to
   * 5, 6 and 5 bits and packed as `(r << 11) | (g << 5) | b`; a number is printed as it is.
   */
  function ColorToHex(px: Pixel): string {
    match px
    case Text(s) =>
      var hex := RemoveFirst(s, '#');
      var r := ShiftRight(Channel(hex, 0), 3);
      var g := ShiftRight(Channel(hex, 2), 2);
      var b := ShiftRight(Channel(hex, 4), 3);
      HexWord(BitOr(BitOr(ShiftLeft(r, 11), ShiftLeft(g, 5)), b))
    case Number(v) => HexWord(v)
  }

  /** The RGB565 packing of 8-bit channels. */
  function Rgb565(r: nat, g: nat, b: nat): nat {
    (r / 8) * 2048 + (g / 4) * 32 + b / 8
  }

  lemma Rgb565Bound(r: nat, g: nat, b: nat)
    requires r < 256 && g < 256 && b < 256
    ensures Rgb565(r, g, b) < 65536
  {
    assert r / 8 <= 31 && g / 4 <= 63 && b / 8 <= 31;
    assert (r / 8) * 2048 <= 31 * 2048;
    assert (g / 4) * 32 <= 63 * 32;
  }

  /** `a | b` of two bit fields that do not overlap is their sum. */
  lemma DisjointOr(a: nat, b: nat, k: nat)
    requires k < 32 && b < Pow2(k) && a * Pow2(k) + b < TwoTo31
    ensures BitOr(a * Pow2(k), b) == a * Pow2(k) + b
  {
    var m := a * Pow2(k);
    OrNatDisjoint(a, b, k);
    DivModUnique(m, TwoTo32, 0, m);
    DivModUnique(b, TwoTo32, 0, b);
    assert ToUint32(m) == m && ToUint32(b) == b;
    assert OrNat(m, b) == m + b;
  }

  lemma Pow2Fields()
    ensures Pow2(3) == 8 && Pow2(2) == 4 && Pow2(5) == 32 && Pow2(11) == 2048
  {
    assert Pow2(2) == 4 by { assert Pow2(1) == 2; }
    assert Pow2(5) == 32 by { assert Pow2(4) == 16; }
    assert Pow2(11) == 2048 by { assert Pow2(8) == 256; }
  }

  /** The three channels of `rrggbb`, one after another. */
  lemma ChannelsOfTriple(r: nat, g: nat, b: nat)
    requires r < 256 && g < 256 && b < 256
    ensures Channel(RemoveFirst(HexTriple(r, g, b), '#'), 0) == r
    ensures Channel(RemoveFirst(HexTriple(r, g, b), '#'), 2) == g
    ensures Channel(RemoveFirst(HexTriple(r, g, b), '#'), 4) == b
  {
    var hr, hg, hb := HexDigits(r, 2), HexDigits(g, 2), HexDigits(b, 2);
    var hex := hr + hg + hb;
    assert HexTriple(r, g, b) == "#" + hex;
    assert RemoveFirst(HexTriple(r, g, b), '#') == hex;
    assert Substr(hex, 0, 2) == hr;
    assert Substr(hex, 2, 2) == hg;
    assert Substr(hex, 4, 2) == hb;
    Pow16Values();
    ParseIntHexDigits(r, 2);
    ParseIntHexDigits(g, 2);
    ParseIntHexDigits(b, 2);
  }

  /** The packing `(r >> 3 << 11) | (g >> 2 << 5) | (b >> 3)` of channels below 256. */
  lemma PackFields(r: nat, g: nat, b: nat)
    requires r < 256 && g < 256 && b < 256
    ensures BitOr(BitOr(ShiftLeft(ShiftRight(r, 3), 11), ShiftLeft(ShiftRight(g, 2), 5)), ShiftRight(b, 3)) == Rgb565(r, g, b)
  {
    Pow2Fields();
    assert ShiftRight(r, 3) == r / 8 && ShiftRight(g, 2) == g / 4 && ShiftRight(b, 3) == b / 8;
    var hi, mid, lo := r / 8, g / 4, b / 8;
    ShiftLeftSmall(hi, 11, 2048);
    ShiftLeftSmall(mid, 5, 32);
    Rgb565Bound(r, g, b);
    assert mid * 32 < Pow2(11);
    DisjointOr(hi, mid * 32, 11);
    assert hi * 2048 + mid * 32 == (hi * 64 + mid) * 32;
    DisjointOr(hi * 64 + mid, lo, 5);
  }

  /** For `#rrggbb`, `colorToHex` is `0x` and the four upper-case hex digits of the RGB565 word. */
  lemma ColorToHexOfTriple(r: nat, g: nat, b: nat)
    requires r < 256 && g < 256 && b < 256
    ensures Rgb565(r, g, b) < 65536
    ensures ColorToHex(Text(HexTriple(r, g, b))) == "0x" + ToUpperAscii(HexDigits(Rgb565(r, g, b), 4))
  {
    ChannelsOfTriple(r, g, b);
    PackFields(r, g, b);
    var v := Rgb565(r, g, b);
    Rgb565Bound(r, g, b);
    UpperPad(HexString(v), 4);
    Pow16Values();
    PadHexString(v, 4);
  }

  /** A number below 65536 is printed as its four upper-case hex digits. */
  lemma ColorToHexOfNumber(v: nat)
    requires v < 65536
    ensures ColorToHex(Number(v)) == "0x" + ToUpperAscii(HexDigits(v, 4))
  {
    UpperPad(HexString(v), 4);
    Pow16Values();
    PadHexString(v, 4);
  }

  // ---------------------------------------------------------------- sanitizeName

  predicate IsIdentChar(c: char) { 'a' <= c <= 'z' || 'A' <= c <= 'Z' || IsDigit(c) || c == '_' }

  predicate IsIdentifier(s: string) {
    s != [] && !IsDigit(s[0]) && forall i | 0 <= i < |s| :: IsIdentChar(s[i])
  }

  /** `name.replace(/[^a-zA-Z0-9_]/g, '_')` */
  function ReplaceNonIdent(s: string): (r: string)
    ensures |r| == |s|
  {
    seq(|s|, i requires 0 <= i < |s| => if IsIdentChar(s[i]) then s[i] else '_')
  }

  /**
   * `sanitizeName`: a falsy name (`None` or empty) becomes `unnamed`; otherwise every character
   * outside `[A-Za-z0-9_]` becomes `_`, and a leading digit gets `_` in front. The result is
   * always a C identifier.
   */
  function SanitizeName(name: Option<string>): (r: string)
    ensures IsIdentifier(r)
  {
    if name.None? || name.value == [] then "unnamed"
    else
      var t := ReplaceNonIdent(name.value);
      if IsDigit(t[0]) then "_" + t else t
  }

  /** Every character of a non-empty name is kept if it is an identifier character and is `_` otherwise. */
  lemma SanitizeKeeps(name: string, i: nat)
    requires name != [] && i < |name|
    ensures var off := if IsDigit(name[0]) then 1 else 0;
            |SanitizeName(Some(name))| == |name| + off
            && SanitizeName(Some(name))[i + off] == (if IsIdentChar(name[i]) then name[i] else '_')
  {
    var t := ReplaceNonIdent(name);
    assert IsDigit(t[0]) <==> IsDigit(name[0]);
    if IsDigit(name[0]) {
      assert ("_" + t)[i + 1] == t[i];
    }
  }

  /** An identifier passes through unchanged. */
  lemma SanitizeIdentifier(s: string)
    requires IsIdentifier(s)
    ensures SanitizeName(Some(s)) == s
  {
    assert ReplaceNonIdent(s) == s;
  }

  /** Sanitising twice is sanitising once. */
  lemma SanitizeIdempotent(name: Option<string>)
    ensures SanitizeName(Some(SanitizeName(name))) == SanitizeName(name)
  {
    SanitizeIdentifier(SanitizeName(name));
  }

  // ---------------------------------------------------------------- row-aligned packing

  /** Row y of the image: whether each of its `w` pixels is on. */
  function PixelRows(data: seq<Pixel>, w: nat, h: nat): (rows: seq<seq<bool>>)
    ensures |rows| == h && forall y | 0 <= y < h :: |rows[y]| == w
  {
    seq(h, y requires 0 <= y < h => seq(w, x requires 0 <= x < w => IsPixelOn(PixelAt(data, y * w + x))))
  }

  lemma PackRowsStep(rows: seq<seq<bool>>, y: nat)
    requires y < |rows|
    ensures PackRowsMsb(rows[..y + 1]) == PackRowsMsb(rows[..y]) + PackMsb(rows[y])
    ensures PackRowsLsb(rows[..y + 1]) == PackRowsLsb(rows[..y]) + PackLsb(rows[y])
  {
    assert rows[..y + 1][..y] == rows[..y];
  }

  /**
   * The loops of `generateMonoBinary` and `generateMonoHex`: every row of `w` pixels from a
   * fresh byte, eight pixels a byte, the first pixel in the high bit; `height * ceil(width / 8)`
   * bytes in all.
   */
  method MonoRowBytes(data: seq<Pixel>, w: nat, h: nat) returns (bytes: seq<nat>)
    ensures bytes == PackRowsMsb(PixelRows(data, w, h))
    ensures |bytes| == h * ((w + 7) / 8)
  {
    var rows := PixelRows(data, w, h);
    bytes := [];
    var y := 0;
    while y < h
      invariant y <= h
      invariant bytes == PackRowsMsb(rows[..y])
    {
      var x := 0;
      ghost var k := 0;
      while x < w
        invariant x == 8 * k && k <= (w + 7) / 8
        invariant bytes == PackRowsMsb(rows[..y]) + PackMsb(rows[y])[..k]
      {
        var byte := RowMsbByte(rows[y], x);
        bytes := bytes + [byte];
        x := x + 8;
        k := k + 1;
      }
      assert PackMsb(rows[y])[..k] == PackMsb(rows[y]);
      PackRowsStep(rows, y);
      y := y + 1;
    }
    assert rows[..h] == rows;
    PackRowsLength(rows, w);
  }

  /** `generateXBM`'s loop: the same layout with the first pixel of each byte in the low bit. */
  method XbmRowBytes(data: seq<Pixel>, w: nat, h: nat) returns (bytes: seq<nat>)
    ensures bytes == PackRowsLsb(PixelRows(data, w, h))
    ensures |bytes| == h * ((w + 7) / 8)
  {
    var rows := PixelRows(data, w, h);
    bytes := [];
    var y := 0;
    while y < h
      invariant y <= h
      invariant bytes == PackRowsLsb(rows[..y])
    {
      var x := 0;
      ghost var k := 0;
      while x < w
        invariant x == 8 * k && k <= (w + 7) / 8
        invariant bytes == PackRowsLsb(rows[..y]) + PackLsb(rows[y])[..k]
      {
        var byte := RowLsbByte(rows[y], x);
        bytes := bytes + [byte];
        x := x + 8;
        k := k + 1;
      }
      assert PackLsb(rows[y])[..k] == PackLsb(rows[y]);
      PackRowsStep(rows, y);
      y := y + 1;
    }
    assert rows[..h] == rows;
    PackRowsLength(rows, w);
  }

  /** Pixel (x, y) is bit `7 - x % 8` of byte `y * ceil(w / 8) + x / 8` of the packed rows. */
  lemma MonoRowBytesRead(data: seq<Pixel>, w: nat, h: nat, x: nat, y: nat)
    requires x < w && y < h
    ensures y * ((w + 7) / 8) + x / 8 < |PackRowsMsb(PixelRows(data, w, h))|
    ensures (PackRowsMsb(PixelRows(data, w, h))[y * ((w + 7) / 8) + x / 8] / Pow2(7 - x % 8)) % 2
         == Bit(IsPixelOn(PixelAt(data, y * w + x)))
  {
    ReadRowsMsb(PixelRows(data, w, h), w, x, y);
  }

  /** Pixel (x, y) is bit `x % 8` of the same byte of the XBM rows, as XBM readers expect. */
  lemma XbmRowBytesRead(data: seq<Pixel>, w: nat, h: nat, x: nat, y: nat)
    requires x < w && y < h
    ensures y * ((w + 7) / 8) + x / 8 < |PackRowsLsb(PixelRows(data, w, h))|
    ensures (PackRowsLsb(PixelRows(data, w, h))[y * ((w + 7) / 8) + x / 8] / Pow2(x % 8)) % 2
         == Bit(IsPixelOn(PixelAt(data, y * w + x)))
  {
    ReadRowsLsb(PixelRows(data, w, h), w, x, y);
  }

  // ---------------------------------------------------------------- 2D and 1D arrays

  /** `generateMono2DArray`: cell (y, x) is 1 exactly when pixel `y * w + x` is on. */
  method MonoCells(data: seq<Pixel>, w: nat, h: nat) returns (cells: seq<seq<nat>>)
    ensures |cells| == h
    ensures forall y | 0 <= y < h :: |cells[y]| == w
    ensures forall y, x | 0 <= y < h && 0 <= x < w :: cells[y][x] == Bit(IsPixelOn(PixelAt(data, y * w + x)))
  {
    cells := [];
    var y := 0;
    while y < h
      invariant y <= h && |cells| == y
      invariant forall r | 0 <= r < y :: |cells[r]| == w
      invariant forall r, x | 0 <= r < y && 0 <= x < w :: cells[r][x] == Bit(IsPixelOn(PixelAt(data, r * w + x)))
    {
      var row := [];
      var x := 0;
      while x < w
        invariant x <= w && |row| == x
        invariant forall i | 0 <= i < x :: row[i] == Bit(IsPixelOn(PixelAt(data, y * w + i)))
      {
        row := row + [if IsPixelOn(PixelAt(data, y * w + x)) then 1 else 0];
        x := x + 1;
      }
      cells := cells + [row];
      y := y + 1;
    }
  }

  /** `colorToHex(data[i])`, `None` where it throws on `undefined`. */
  function WordAt(data: seq<Pixel>, i: nat): (r: Option<string>)
    ensures r.Some? <==> i < |data|
  {
    if i < |data| then Some(ColorToHex(data[i])) else None
  }

  /** Row y of the 2D colour array: word x is the word of pixel `y * w + x`, which exists. */
  predicate WordRow(row: seq<string>, data: seq<Pixel>, w: nat, y: nat) {
    |row| == w && forall x | 0 <= x < w :: WordAt(data, y * w + x) == Some(row[x])
  }

  /** The inner loop of `generateColor2DArray`: row y, or `None` where it reaches past the data. */
  method ColorWordRow(data: seq<Pixel>, w: nat, y: nat) returns (row: Option<seq<string>>)
    ensures row.None? <==> w > 0 && |data| < y * w + w
    ensures row.Some? ==> WordRow(row.value, data, w, y)
  {
    var cells: seq<string> := [];
    var x := 0;
    while x < w
      invariant x <= w && |cells| == x
      invariant forall i | 0 <= i < x :: WordAt(data, y * w + i) == Some(cells[i])
    {
      var index := y * w + x;
      if index >= |data| {
        return None;
      }
      var word := ColorToHex(data[index]);
      assert WordAt(data, index) == Some(word);
      cells := cells + [word];
      x := x + 1;
    }
    if w > 0 {
      assert WordAt(data, y * w + (w - 1)) == Some(cells[w - 1]);
    }
    row := Some(cells);
  }

  /**
   * `generateColor2DArray`: `colorToHex(undefined)` throws, so a record whose data is shorter
   * than `width * height` gives `None`; otherwise row y holds the words of pixels `y * w` onwards.
   */
  method Color2DCells(data: seq<Pixel>, w: nat, h: nat) returns (r: Option<seq<seq<string>>>)
    ensures r.None? <==> w > 0 && h > 0 && |data| < w * h
    ensures r.Some? ==> |r.value| == h && forall y | 0 <= y < h :: WordRow(r.value[y], data, w, y)
  {
    var cells: seq<seq<string>> := [];
    var y := 0;
    while y < h
      invariant y <= h && |cells| == y
      invariant y * w <= |data|
      invariant forall q | 0 <= q < y :: WordRow(cells[q], data, w, q)
    {
      var row := ColorWordRow(data, w, y);
      if row.None? {
        RowsInside(w, y, h);
        return None;
      }
      NextRow(w, y);
      var next := cells + [row.value];
      forall q | 0 <= q < y + 1
        ensures WordRow(next[q], data, w, q)
      {
        if q < y {
          assert next[q] == cells[q];
        }
      }
      cells := next;
      y := y + 1;
    }
    AllRows(w, h);
    r := Some(cells);
  }

  lemma RowsInside(w: nat, y: nat, h: nat)
    requires y < h
    ensures y * w + w <= w * h
  {
    MulMono(y + 1, h, w);
  }

  lemma NextRow(w: nat, y: nat)
    ensures (y + 1) * w == y * w + w
  {
  }

  lemma AllRows(w: nat, h: nat)
    ensures h * w == w * h
  {
  }

  /** `generateColor1D`: one word per value of `data`. */
  function ColorWords(data: seq<Pixel>): (words: seq<string>)
    ensures |words| == |data| && forall i | 0 <= i < |data| :: words[i] == ColorToHex(data[i])
  {
    seq(|data|, i requires 0 <= i < |data| => ColorToHex(data[i]))
  }

  // ---------------------------------------------------------------- generatePaletteFormat

  datatype PaletteData = PaletteData(palette: seq<string>, indices: seq<int>)

  const MaxPaletteSize: nat := 256

  /**
   * `generatePaletteFormat`: the distinct words in order of first use, cut to 256, and for each
   * pixel the position of its word in that palette, or -1 when the cut dropped it.
   */
  function PaletteFormat(data: seq<Pixel>): (r: PaletteData)
    ensures |r.palette| <= MaxPaletteSize && NoDuplicates(r.palette)
    ensures r.palette <= Unique(ColorWords(data))
    ensures |r.indices| == |data|
    ensures forall i | 0 <= i < |data| ::
              -1 <= r.indices[i] < |r.palette|
              && (r.indices[i] == -1 <==> ColorToHex(data[i]) !in r.palette)
              && (r.indices[i] >= 0 ==> r.palette[r.indices[i]] == ColorToHex(data[i]))
  {
    var unique := Unique(ColorWords(data));
    var palette := if |unique| <= MaxPaletteSize then unique else unique[..MaxPaletteSize];
    PaletteData(palette, seq(|data|, i requires 0 <= i < |data| => IndexOf(palette, ColorToHex(data[i]))))
  }

  /** With at most 256 distinct words nothing is dropped: every pixel has an index. */
  lemma PaletteComplete(data: seq<Pixel>)
    requires |Unique(ColorWords(data))| <= MaxPaletteSize
    ensures forall i | 0 <= i < |data| :: PaletteFormat(data).indices[i] >= 0
  {
    var r := PaletteFormat(data);
    forall i | 0 <= i < |data|
      ensures r.indices[i] >= 0
    {
      assert ColorWords(data)[i] == ColorToHex(data[i]);
      assert r.palette == Unique(ColorWords(data));
    }
  }

  // ---------------------------------------------------------------- panel state

  /** What `generateArduinoCode` produces for each sub-format. */
  datatype ArduinoExport =
    | Mono2D(cells: seq<seq<nat>>)
    | MonoBinary(bytes: seq<nat>)
    | MonoHex(bytes: seq<nat>)
    | Xbm(bytes: seq<nat>)
    | Color2D(rows: seq<seq<string>>)
    | Color1D(words: seq<string>)
    | Bmp
    | Palette(data: PaletteData)

  /** The generated code: arrays under a sanitised name, a comment line, or a TypeError. */
  datatype Generated = Code(name: string, arrays: ArduinoExport) | Comment(text: string) | Thrown

  const InvalidFormat := "// Invalid format selected"
  const InvalidMonochrome := "// Invalid monochrome format"
  const InvalidColor := "// Invalid color format"

  /** The three settings of the export panel. */
  class ExportSettings {
    var protocol: string
    var format: string
    var subFormat: string

    constructor ()
      ensures protocol == "standard" && format == "monochrome" && subFormat == "mono-2d"
    {
      protocol := "standard";
      format := "monochrome";
      subFormat := "mono-2d";
    }

    /**
     * `updateSubFormatOptions`: without the sub-format selector nothing happens; otherwise
     * `monochrome` resets the sub-format to `mono-2d`, `color` to `color-2d`, and other formats
     * keep it.
     */
    method UpdateSubFormatOptions(selectorPresent: bool)
      modifies this
      ensures protocol == old(protocol) && format == old(format)
      ensures subFormat == (if selectorPresent && format == "monochrome" then "mono-2d"
                            else if selectorPresent && format == "color" then "color-2d"
                            else old(subFormat))
    {
      if !selectorPresent {
        return;
      }
      if format == "monochrome" {
        subFormat := "mono-2d";
      } else if format == "color" {
        subFormat := "color-2d";
      }
    }

    /** A checked protocol radio button. */
    method SelectProtocol(value: string)
      modifies this
      ensures protocol == value && format == old(format) && subFormat == old(subFormat)
    {
      protocol := value;
    }

    /** A checked format radio button: the format changes and the sub-format is reset. */
    method SelectFormat(value: string, selectorPresent: bool)
      modifies this
      ensures protocol == old(protocol) && format == value
      ensures subFormat == (if selectorPresent && value == "monochrome" then "mono-2d"
                            else if selectorPresent && value == "color" then "color-2d"
                            else old(subFormat))
    {
      format := value;
      UpdateSubFormatOptions(selectorPresent);
    }

    /** A checked sub-format radio button. */
    method SelectSubFormat(value: string)
      modifies this
      ensures protocol == old(protocol) && format == old(format) && subFormat == value
    {
      subFormat := value;
    }

    /**
     * `setExportSettings` as written: each truthy argument overwrites its setting, then
     * `updateSubFormatOptions` runs, which (with the selector present) discards the requested
     * sub-format whenever the format is `monochrome` or `color`.
     */
    method SetExportSettingsAsWritten(p: Option<string>, f: Option<string>, s: Option<string>, selectorPresent: bool)
      modifies this
      ensures protocol == (if Truthy(p) then p.value else old(protocol))
      ensures format == (if Truthy(f) then f.value else old(format))
      ensures subFormat == (if selectorPresent && format == "monochrome" then "mono-2d"
                            else if selectorPresent && format == "color" then "color-2d"
                            else if Truthy(s) then s.value else old(subFormat))
    {
      if Truthy(p) { protocol := p.value; }
      if Truthy(f) { format := f.value; }
      if Truthy(s) { subFormat := s.value; }
      UpdateSubFormatOptions(selectorPresent);
    }

    /**
     * `setExportSettings` as intended: each truthy argument overwrites its setting; the
     * sub-format falls back to the format's default only when none was given.
     */
    method SetExportSettings(p: Option<string>, f: Option<string>, s: Option<string>, selectorPresent: bool)
      modifies this
      ensures protocol == (if Truthy(p) then p.value else old(protocol))
      ensures format == (if Truthy(f) then f.value else old(format))
      ensures Truthy(s) ==> subFormat == s.value
      ensures !Truthy(s) ==> subFormat == (if selectorPresent && format == "monochrome" then "mono-2d"
                                          else if selectorPresent && format == "color" then "color-2d"
                                          else old(subFormat))
    {
      if Truthy(p) { protocol := p.value; }
      if Truthy(f) { format := f.value; }
      UpdateSubFormatOptions(selectorPresent);
      if Truthy(s) { subFormat := s.value; }
    }

    /**
     * `generateArduinoCode`: the format picks the monochrome or colour switch, the sub-format a
     * generator; an unknown value at either level gives its comment line.
     */
    method GenerateArduinoCode(name: Option<string>, w: nat, h: nat, data: seq<Pixel>) returns (g: Generated)
      ensures format != "monochrome" && format != "color" ==> g == Comment(InvalidFormat)
      ensures format == "monochrome" ==>
                if subFormat == "mono-binary" then g == Code(SanitizeName(name), MonoBinary(PackRowsMsb(PixelRows(data, w, h))))
                else if subFormat == "mono-hex" then g == Code(SanitizeName(name), MonoHex(PackRowsMsb(PixelRows(data, w, h))))
                else if subFormat == "mono-xbm" then g == Code(SanitizeName(name), Xbm(PackRowsLsb(PixelRows(data, w, h))))
                else if subFormat == "mono-2d" then g.Code? && g.name == SanitizeName(name) && g.arrays.Mono2D?
                       && |g.arrays.cells| == h
                       && forall y, x | 0 <= y < h && 0 <= x < w ::
                            |g.arrays.cells[y]| == w && g.arrays.cells[y][x] == Bit(IsPixelOn(PixelAt(data, y * w + x)))
                else g == Comment(InvalidMonochrome)
      ensures format == "color" ==>
                if subFormat == "color-1d" then g == Code(SanitizeName(name), Color1D(ColorWords(data)))
                else if subFormat == "color-bmp" then g == Code(SanitizeName(name), Bmp)
                else if subFormat == "color-palette" then g == Code(SanitizeName(name), Palette(PaletteFormat(data)))
                else if subFormat == "color-2d" then
                  (g == Thrown <==> w > 0 && h > 0 && |data| < w * h)
                  && (g != Thrown ==>
                        g.Code? && g.name == SanitizeName(name) && g.arrays.Color2D? && |g.arrays.rows| == h
                        && forall y | 0 <= y < h :: WordRow(g.arrays.rows[y], data, w, y))
                else g == Comment(InvalidColor)
    {
      var safeName := SanitizeName(name);
      if format == "monochrome" {
        if subFormat == "mono-2d" {
          var cells := MonoCells(data, w, h);
          g := Code(safeName, Mono2D(cells));
        } else if subFormat == "mono-binary" {
          var bytes := MonoRowBytes(data, w, h);
          g := Code(safeName, MonoBinary(bytes));
        } else if subFormat == "mono-hex" {
          var bytes := MonoRowBytes(data, w, h);
          g := Code(safeName, MonoHex(bytes));
        } else if subFormat == "mono-xbm" {
          var bytes := XbmRowBytes(data, w, h);
          g := Code(safeName, Xbm(bytes));
        } else {
          g := Comment(InvalidMonochrome);
        }
      } else if format == "color" {
        if subFormat == "color-2d" {
          var rows := Color2DCells(data, w, h);
          g := if rows.None? then Thrown else Code(safeName, Color2D(rows.value));
        } else if subFormat == "color-1d" {
          g := Code(safeName, Color1D(ColorWords(data)));
        } else if subFormat == "color-bmp" {
          g := Code(safeName, Bmp);
        } else if subFormat == "color-palette" {
          g := Code(safeName, Palette(PaletteFormat(data)));
        } else {
          g := Comment(InvalidColor);
        }
      } else {
        g := Comment(InvalidFormat);
      }
    }
  }

  /**
   * With the selector present, `setExportSettings(p, 'color', 'color-palette')` leaves the
   * sub-format at `color-2d`: the palette export asked for is never produced.
   */
  method SetExportSettingsLosesSubFormat() returns (asWritten: string, intended: string)
    ensures asWritten == "color-2d" && intended == "color-palette"
  {
    var a := new ExportSettings();
    a.SetExportSettingsAsWritten(None, Some("color"), Some("color-palette"), true);
    asWritten := a.subFormat;
    var b := new ExportSettings();
    b.SetExportSettings(None, Some("color"), Some("color-palette"), true);
    intended := b.subFormat;
  }
}
