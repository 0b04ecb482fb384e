/**
 * The font list: creating and deleting fonts, the font whose character buttons are in edit
 * mode, storing a character's rows, and what a click on a character button does.
 */
module FontManager {
  import opened Wrappers
  import opened JsText
  import opened Grid
  import opened Fonts

  /** `font.characters[char].some(row => row.some(pixel => pixel !== '#000000'))` */
  predicate HasData(chars: map<string, Rows>, c: string) {
    c in chars && exists y, x | 0 <= y < |chars[c]| && 0 <= x < |chars[c][y]| :: chars[c][y][x] != Black
  }

  /** No two fonts share a name. */
  predicate DistinctNames(fonts: seq<Font>) {
    forall i, j | 0 <= i < j < |fonts| :: fonts[i].name != fonts[j].name
  }

  /** The font `createFont` appends. */
  function NewFont(name: string): Font {
    Font(name, map[], None)
  }

  /** Appending a font under an unused name keeps the names distinct. */
  lemma CreateKeepsNamesDistinct(fonts: seq<Font>, name: string)
    requires DistinctNames(fonts) && FindFont(fonts, name).None?
    ensures DistinctNames(fonts + [NewFont(name)])
  {
    var fs := fonts + [NewFont(name)];
    forall i, j | 0 <= i < j < |fs|
      ensures fs[i].name != fs[j].name
    {
      if j == |fonts| {
        assert fs[i] == fonts[i];
      } else {
        assert fs[i] == fonts[i] && fs[j] == fonts[j];
      }
    }
  }

  /** Removing a font keeps the names distinct. */
  lemma DeleteKeepsNamesDistinct(fonts: seq<Font>, k: nat)
    requires DistinctNames(fonts) && k < |fonts|
    ensures DistinctNames(fonts[..k] + fonts[k + 1..])
  {
    var fs := fonts[..k] + fonts[k + 1..];
    forall i, j | 0 <= i < j < |fs|
      ensures fs[i].name != fs[j].name
    {
      var a := if i < k then i else i + 1;
      var b := if j < k then j else j + 1;
      assert fs[i] == fonts[a] && fs[j] == fonts[b];
    }
  }

  /** The edit path's loop: `characterData[y][x] || '#000000'` row by row. */
  method Flatten(rows: Rows) returns (p: seq<Color>)
    ensures p == FlattenRows(rows, FlatWidth(rows))
  {
    var height := |rows|;
    var width := if |rows| > 0 then |rows[0]| else 16;
    p := [];
    var y := 0;
    while y < height
      invariant y <= height
      invariant p == FlattenRows(rows[..y], width)
    {
      var x := 0;
      while x < width
        invariant x <= width
        invariant p == FlattenRows(rows[..y], width) + RowCells(rows[y], width)[..x]
      {
        var cell := if x < |rows[y]| then rows[y][x] else "";
        p := p + [OrBlack(cell)];
        x := x + 1;
      }
      assert RowCells(rows[y], width)[..x] == RowCells(rows[y], width);
      FlattenStep(rows, width, y);
      y := y + 1;
    }
    assert rows[..height] == rows;
  }

  /** What `getFontCharacterData` returns: `null` without the font, `undefined` without the character. */
  datatype Lookup = NoFont | NoCharacter | Found(rows: Rows)

  /** What a click on a character button asks the other managers to do. */
  datatype EditAction =
    | NoSuchFont
    | EnterAndLoad(fontName: string, character: string, pixels: seq<Color>, width: nat, height: nat)
    | EnterAndClear(fontName: string, character: string)
    | ActivateType(fontName: string, character: string)
    | NoDesign(character: string)

  class FontLibrary {
    var fonts: seq<Font>
    /** The index whose character buttons are in edit mode. */
    var currentEditingFont: Option<int>

    constructor ()
      ensures fonts == [] && currentEditingFont == None
    {
      fonts := [];
      currentEditingFont := None;
    }

    /** `loadFontsFromStorage`: the stored list, or none. */
    method LoadFontsFromStorage(stored: Option<seq<Font>>)
      modifies this
      ensures fonts == (if stored.Some? then stored.value else [])
      ensures currentEditingFont == old(currentEditingFont)
    {
      fonts := if stored.Some? then stored.value else [];
    }

    /**
     * `createFont`: the trimmed name must be non-empty and unused; then exactly one font with
     * no characters is appended.
     */
    method CreateFont(input: string) returns (created: bool)
      modifies this
      ensures created <==> Trim(input) != [] && FindFont(old(fonts), Trim(input)).None?
      ensures fonts == (if created then old(fonts) + [NewFont(Trim(input))] else old(fonts))
      ensures currentEditingFont == old(currentEditingFont)
    {
      var fontName := Trim(input);
      if fontName == [] {
        return false;
      }
      if FindFont(fonts, fontName).Some? {
        return false;
      }
      fonts := fonts + [NewFont(fontName)];
      created := true;
    }

    /**
     * `toggleFontEdit`: the same index leaves edit mode (and the caller then runs
     * `exitFontEditMode`), any other index enters it.
     */
    method ToggleFontEdit(index: int) returns (exited: bool)
      modifies this
      ensures exited <==> old(currentEditingFont) == Some(index)
      ensures currentEditingFont == (if exited then None else Some(index))
      ensures fonts == old(fonts)
    {
      if currentEditingFont == Some(index) {
        currentEditingFont := None;
        exited := true;
      } else {
        currentEditingFont := Some(index);
        exited := false;
      }
    }

    /**
     * `deleteFont`: once confirmed, exactly the font at the index goes and the others keep
     * their order; a missing index does nothing. The edit-mode index is not adjusted.
     */
    method DeleteFont(index: int, confirmed: bool)
      modifies this
      ensures fonts == (if 0 <= index < |old(fonts)| && confirmed then old(fonts)[..index] + old(fonts)[index + 1..] else old(fonts))
      ensures currentEditingFont == old(currentEditingFont)
    {
      if !(0 <= index < |fonts|) {
        return;
      }
      if confirmed {
        fonts := fonts[..index] + fonts[index + 1..];
      }
    }

    /** `clearAllFonts`, once confirmed. */
    method ClearAllFonts(confirmed: bool)
      modifies this
      ensures fonts == (if confirmed then [] else old(fonts))
      ensures currentEditingFont == old(currentEditingFont)
    {
      if confirmed {
        fonts := [];
      }
    }

    /** `saveFontCharacter`: store the rows under the character; a missing font does nothing. */
    method SaveFontCharacter(index: int, c: string, data: Rows)
      modifies this
      ensures |fonts| == |old(fonts)| && currentEditingFont == old(currentEditingFont)
      ensures forall k | 0 <= k < |fonts| && k != index :: fonts[k] == old(fonts)[k]
      ensures 0 <= index < |fonts| ==>
                fonts[index] == old(fonts)[index].(characters := old(fonts)[index].characters[c := data])
      ensures !(0 <= index < |fonts|) ==> fonts == old(fonts)
    {
      if !(0 <= index < |fonts|) {
        return;
      }
      var font := fonts[index];
      fonts := fonts[index := font.(characters := font.characters[c := data])];
    }

    /** `getFontCharacterData`. */
    function GetFontCharacterData(name: string, c: string): (r: Lookup)
      reads this
      ensures r.NoFont? <==> FindFont(fonts, name).None?
      ensures r.Found? <==> FindFont(fonts, name).Some? && c in FindFont(fonts, name).value.characters
      ensures r.Found? ==> r.rows == FindFont(fonts, name).value.characters[c]
    {
      var font := FindFont(fonts, name);
      if font.None? then NoFont
      else if c !in font.value.characters then NoCharacter
      else Found(font.value.characters[c])
    }

    /**
     * `editFontCharacter`: in edit mode a character with data is loaded flattened, one without
     * is started on a cleared canvas; outside edit mode a character with data starts the type
     * tool and one without only gets a message.
     */
    method EditFontCharacter(index: int, c: string) returns (action: EditAction)
      ensures !(0 <= index < |fonts|) ==> action == NoSuchFont
      ensures 0 <= index < |fonts| ==>
                var font := fonts[index];
                if currentEditingFont == Some(index) then
                  if HasData(font.characters, c) then
                    var rows := font.characters[c];
                    action == EnterAndLoad(font.name, c, FlattenRows(rows, FlatWidth(rows)), FlatWidth(rows), |rows|)
                  else action == EnterAndClear(font.name, c)
                else if HasData(font.characters, c) then action == ActivateType(font.name, c)
                else action == NoDesign(c)
    {
      if !(0 <= index < |fonts|) {
        return NoSuchFont;
      }
      var font := fonts[index];
      var hasData := HasData(font.characters, c);
      if currentEditingFont == Some(index) {
        if hasData {
          var characterData := font.characters[c];
          var pixelData := Flatten(characterData);
          action := EnterAndLoad(font.name, c, pixelData, FlatWidth(characterData), |characterData|);
        } else {
          action := EnterAndClear(font.name, c);
        }
      } else if hasData {
        action := ActivateType(font.name, c);
      } else {
        action := NoDesign(c);
      }
    }
  }
}
