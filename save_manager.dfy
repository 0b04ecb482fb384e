/**
 * The save button and what it writes: designs saved as components or compositions, characters
 * saved into a font (by name convention or from font-edit mode), the font-edit state itself, and
 * the reference-line positions a font keeps.
 */
module SaveManager {
  import opened Wrappers
  import opened JsText
  import opened Grid
  import opened Fonts
  import opened FontManager

  // ---------------------------------------------------------------- the save button's route

  predicate NoLineBreak(s: string) {
    forall i | 0 <= i < |s| :: !IsLineTerminator(s[i])
  }

  /** The last `'_'` in `s[1..j + 1]`, or 0 when there is none. */
  function LastUnderscore(s: string, j: int): (k: nat)
    requires j < |s|
    ensures k == 0 || (1 <= k <= j && s[k] == '_')
    ensures forall m | k < m <= j && m >= 1 :: s[m] != '_'
    decreases j
  {
    if j < 1 then 0
    else if s[j] == '_' then j
    else LastUnderscore(s, j - 1)
  }

  /**
   * `name.match(/^(.+)_(.+)$/)`: the greedy first group takes everything up to the last `'_'`
   * that leaves a non-empty second group, and `.` matches no line terminator.
   */
  function SplitName(s: string): (r: Option<(string, string)>)
    ensures r.None? <==> !NoLineBreak(s) || forall k | 1 <= k < |s| - 1 :: s[k] != '_'
    ensures r.Some? ==>
              var (f, c) := r.value;
              s == f + "_" + c && f != [] && c != [] && forall m | 0 <= m < |c| - 1 :: c[m] != '_'
  {
    if |s| < 3 || !NoLineBreak(s) then None
    else
      var k := LastUnderscore(s, |s| - 2);
      if k == 0 then None
      else
        var f, c := s[..k], s[k + 1..];
        assert s == f + "_" + c;
        assert forall m | 0 <= m < |c| - 1 :: c[m] == s[k + 1 + m];
        Some((f, c))
  }

  /** A name built as `font_character` splits back into the font and the character. */
  lemma SplitJoined(f: string, c: string)
    requires f != [] && c != [] && NoLineBreak(f + "_" + c)
    requires forall m | 0 <= m < |c| - 1 :: c[m] != '_'
    ensures SplitName(f + "_" + c) == Some((f, c))
  {
    var s := f + "_" + c;
    assert s[|f|] == '_';
    var k := LastUnderscore(s, |s| - 2);
    assert k == |f|;
    assert s[..k] == f && s[k + 1..] == c;
  }

  datatype SaveRoute = SaveCurrentCharacter | SaveToFont(fontName: string, character: string) | ToggleDropdown

  /** `handleSaveButtonClick`: font-edit mode first, then the `font_character` convention. */
  function RouteSave(isFontEditMode: bool, canvasName: string): (r: SaveRoute)
    ensures isFontEditMode ==> r == SaveCurrentCharacter
    ensures !isFontEditMode && r.SaveToFont? ==>
              r.fontName + "_" + r.character == Trim(canvasName) && r.fontName != [] && r.character != []
              && forall m | 0 <= m < |r.character| - 1 :: r.character[m] != '_'
    ensures !isFontEditMode && r == ToggleDropdown <==>
              !isFontEditMode && (!NoLineBreak(Trim(canvasName)) || forall k | 1 <= k < |Trim(canvasName)| - 1 :: Trim(canvasName)[k] != '_')
  {
    if isFontEditMode then SaveCurrentCharacter
    else
      var m := SplitName(Trim(canvasName));
      if m.Some? then SaveToFont(m.value.0, m.value.1) else ToggleDropdown
  }

  // ---------------------------------------------------------------- empty checks

  /** A cell the component and composition saves count as empty. */
  predicate IsBlankCell(c: Color) { c == Black || c == "" }

  /** A cell the character saves count as empty. */
  predicate IsBlankGlyphCell(c: Color, rgbBlack: string, transparent: string) {
    IsBlankCell(c) || c == rgbBlack || c == transparent
  }

  /** `pixelData.every(color => color === '#000000' || color === '')` */
  predicate IsEmptyCanvas(p: seq<Color>) {
    forall i | 0 <= i < |p| :: IsBlankCell(p[i])
  }

  /** The character saves' check, which also knows `'rgb(0, 0, 0)'` and `'transparent'`. */
  predicate IsEmptyCharacter(p: seq<Color>) {
    forall i | 0 <= i < |p| :: IsBlankGlyphCell(p[i], "rgb(0, 0, 0)", "transparent")
  }

  /** `currentCanvasData.some(color => color !== '#000000')`, where a `""` cell counts. */
  predicate AnyNotBlack(p: seq<Color>) {
    exists i | 0 <= i < |p| :: p[i] != Black
  }

  /** A canvas the design saves refuse is refused by the character saves too, but not conversely. */
  lemma EmptyChecks()
    ensures forall p: seq<Color> :: IsEmptyCanvas(p) ==> IsEmptyCharacter(p)
    ensures IsEmptyCharacter(["transparent"]) && !IsEmptyCanvas(["transparent"])
  {
    var t := "transparent";
    assert [t][0] == t && t[0] != Black[0];
  }

  /** The reshape loop `row.push(pixelData[index] || '#000000')`, row by row. */
  method ReshapeCanvas(p: seq<Color>, w: nat, h: nat) returns (rows: Rows)
    ensures rows == Reshape(p, w, h)
  {
    rows := [];
    var y := 0;
    while y < h
      invariant y <= h
      invariant rows == Reshape(p, w, y)
    {
      var row := [];
      var x := 0;
      while x < w
        invariant x <= w
        invariant |row| == x && forall i | 0 <= i < x :: row[i] == CellOf(p, y * w + i)
      {
        var index := y * w + x;
        var cell := if index < |p| then p[index] else "";
        row := row + [OrBlack(cell)];
        x := x + 1;
      }
      ReshapeStep(p, w, y, row);
      rows := rows + [row];
      y := y + 1;
    }
  }

  lemma ReshapeStep(p: seq<Color>, w: nat, y: nat, row: seq<Color>)
    requires |row| == w && forall i | 0 <= i < w :: row[i] == CellOf(p, y * w + i)
    ensures Reshape(p, w, y) + [row] == Reshape(p, w, y + 1)
  {
    var a, b := Reshape(p, w, y) + [row], Reshape(p, w, y + 1);
    assert a[y] == b[y];
    assert forall k | 0 <= k < y :: a[k] == Reshape(p, w, y)[k] == b[k];
  }

  /**
   * A character that passed the character empty check and fills its canvas keeps some non-black
   * cell once reshaped, so its button shows data.
   */
  lemma SavedCharacterHasData(chars: map<string, Rows>, c: string, p: seq<Color>, w: nat, h: nat)
    requires !IsEmptyCharacter(p) && |p| == w * h
    ensures HasData(chars[c := Reshape(p, w, h)], c)
  {
    var i :| 0 <= i < |p| && !IsBlankGlyphCell(p[i], "rgb(0, 0, 0)", "transparent");
    var y, x := CoordsOf(i, w, h);
    var rows := Reshape(p, w, h);
    assert rows[y][x] == CellOf(p, i) == p[i];
  }

  // ---------------------------------------------------------------- components and compositions

  /** A saved design; `timestamp` is `Date.now()` at the save. */
  datatype Design = Design(name: string, width: nat, height: nat, data: seq<Color>, timestamp: int)

  /** `designs.findIndex(comp => comp.name === name)` */
  function DesignIndex(designs: seq<Design>, name: string): (i: int)
    ensures -1 <= i < |designs|
    ensures i < 0 <==> forall j | 0 <= j < |designs| :: designs[j].name != name
    ensures i >= 0 ==> designs[i].name == name && forall j | 0 <= j < i :: designs[j].name != name
  {
    var names := seq(|designs|, j requires 0 <= j < |designs| => designs[j].name);
    assert forall j | 0 <= j < |designs| :: names[j] == designs[j].name;
    NameIndex(names, name)
  }

  datatype DesignSave = NoName | EmptyDesign | Declined | Stored(designs: seq<Design>)

  /**
   * `saveAsComponent` and `saveAsComposition`: a trimmed name and a canvas with some non-empty
   * cell are required; a name in use is overwritten in place once confirmed, a new one appended.
   */
  function SaveDesign(stored: seq<Design>, input: string, p: seq<Color>, w: nat, h: nat, now: int, confirmed: bool): (r: DesignSave)
    ensures r == NoName <==> Trim(input) == []
    ensures r == EmptyDesign <==> Trim(input) != [] && IsEmptyCanvas(p)
    ensures r == Declined <==> Trim(input) != [] && !IsEmptyCanvas(p) && DesignIndex(stored, Trim(input)) >= 0 && !confirmed
    ensures r.Stored? ==>
              var d := Design(Trim(input), w, h, p, now);
              var k := DesignIndex(stored, Trim(input));
              r.designs == (if k >= 0 then stored[k := d] else stored + [d])
  {
    var name := Trim(input);
    if name == [] then NoName
    else if IsEmptyCanvas(p) then EmptyDesign
    else
      var d := Design(name, w, h, p, now);
      var k := DesignIndex(stored, name);
      if k >= 0 then (if confirmed then Stored(stored[k := d]) else Declined)
      else Stored(stored + [d])
  }

  predicate DistinctDesignNames(designs: seq<Design>) {
    forall i, j | 0 <= i < j < |designs| :: designs[i].name != designs[j].name
  }

  /** Overwriting the first design of a name: the lookup still lands there, on the new design. */
  lemma OverwriteFound(stored: seq<Design>, k: nat, d: Design)
    requires k == DesignIndex(stored, d.name) && k >= 0
    ensures DesignIndex(stored[k := d], d.name) == k
    ensures DistinctDesignNames(stored) ==> DistinctDesignNames(stored[k := d])
  {
    assert forall j | 0 <= j < |stored| :: stored[k := d][j].name == stored[j].name;
  }

  /** Appending a design under an unused name: the lookup finds it at the end. */
  lemma AppendFound(stored: seq<Design>, d: Design)
    requires DesignIndex(stored, d.name) < 0
    ensures DesignIndex(stored + [d], d.name) == |stored|
    ensures DistinctDesignNames(stored) ==> DistinctDesignNames(stored + [d])
  {
    var r := stored + [d];
    assert forall j | 0 <= j < |stored| :: r[j] == stored[j];
    assert r[|stored|] == d;
  }

  /**
   * A save grows the list by at most one, the saved design is what a lookup by its name finds,
   * and names that were distinct stay distinct.
   */
  lemma SaveDesignFound(stored: seq<Design>, input: string, p: seq<Color>, w: nat, h: nat, now: int, confirmed: bool)
    requires SaveDesign(stored, input, p, w, h, now, confirmed).Stored?
    ensures var r := SaveDesign(stored, input, p, w, h, now, confirmed).designs;
            var k := DesignIndex(r, Trim(input));
            |stored| <= |r| <= |stored| + 1 && k >= 0 && r[k] == Design(Trim(input), w, h, p, now)
    ensures DistinctDesignNames(stored) ==> DistinctDesignNames(SaveDesign(stored, input, p, w, h, now, confirmed).designs)
  {
    var d := Design(Trim(input), w, h, p, now);
    var k := DesignIndex(stored, d.name);
    if k >= 0 {
      OverwriteFound(stored, k, d);
    } else {
      AppendFound(stored, d);
    }
  }

  // ---------------------------------------------------------------- fonts

  /** `fonts[fontIndex].characters[character] = characterData`; a font not in the list stores nothing. */
  function StoreCharacter(fonts: seq<Font>, fontName: string, c: string, rows: Rows): (r: Option<seq<Font>>)
    ensures r.None? <==> FindFontIndex(fonts, fontName) < 0
    ensures r.Some? ==>
              var i := FindFontIndex(fonts, fontName);
              r.value == fonts[i := fonts[i].(characters := fonts[i].characters[c := rows])]
  {
    var i := FindFontIndex(fonts, fontName);
    if i < 0 then None
    else Some(fonts[i := fonts[i].(characters := fonts[i].characters[c := rows])])
  }

  /** Replacing a font by one with the same name leaves every lookup by name where it was. */
  lemma FindAfterUpdate(fonts: seq<Font>, i: nat, f: Font, name: string)
    requires i < |fonts| && f.name == fonts[i].name
    ensures FindFontIndex(fonts[i := f], name) == FindFontIndex(fonts, name)
  {
    assert forall j | 0 <= j < |fonts| :: fonts[i := f][j].name == fonts[j].name;
  }

  /** A stored character is what the font now holds under it; every other entry is untouched. */
  lemma StoreThenLookup(fonts: seq<Font>, fontName: string, c: string, rows: Rows, name: string, d: string)
    requires StoreCharacter(fonts, fontName, c, rows).Some?
    ensures var r := StoreCharacter(fonts, fontName, c, rows).value;
            FindFont(r, fontName).Some? && c in FindFont(r, fontName).value.characters
            && FindFont(r, fontName).value.characters[c] == rows
            && (name != fontName || d != c ==>
                  FindFont(r, name).Some? == FindFont(fonts, name).Some?
                  && (FindFont(fonts, name).Some? ==>
                        (d in FindFont(r, name).value.characters <==> d in FindFont(fonts, name).value.characters)
                        && (d in FindFont(fonts, name).value.characters ==>
                              FindFont(r, name).value.characters[d] == FindFont(fonts, name).value.characters[d])))
  {
    var i := FindFontIndex(fonts, fontName);
    var f := fonts[i].(characters := fonts[i].characters[c := rows]);
    FindAfterUpdate(fonts, i, f, fontName);
    FindAfterUpdate(fonts, i, f, name);
  }

  /** `saveFontReferenceLinePositions`: both positions are stored verbatim on the named font. */
  function WithReferenceLines(fonts: seq<Font>, fontName: string, baseline: int, vertical: int): (r: seq<Font>)
    ensures |r| == |fonts|
    ensures FindFontIndex(fonts, fontName) < 0 ==> r == fonts
    ensures FindFontIndex(fonts, fontName) >= 0 ==>
              var i := FindFontIndex(fonts, fontName);
              r == fonts[i := fonts[i].(referenceLines := Some(ReferenceLines(Some(baseline), Some(vertical))))]
  {
    var i := FindFontIndex(fonts, fontName);
    if i < 0 then fonts
    else fonts[i := fonts[i].(referenceLines := Some(ReferenceLines(Some(baseline), Some(vertical))))]
  }

  /** The positions a font has stored, when both are defined. */
  function StoredLines(fonts: seq<Font>, fontName: string): (r: Option<(int, int)>)
    ensures r.Some? <==> FindFont(fonts, fontName).Some? && FindFont(fonts, fontName).value.referenceLines.Some?
                         && FindFont(fonts, fontName).value.referenceLines.value.baseline.Some?
                         && FindFont(fonts, fontName).value.referenceLines.value.vertical.Some?
    ensures r.Some? ==> var lines := FindFont(fonts, fontName).value.referenceLines.value;
                        r.value == (lines.baseline.value, lines.vertical.value)
  {
    var font := FindFont(fonts, fontName);
    if font.Some? && font.value.referenceLines.Some?
       && font.value.referenceLines.value.baseline.Some? && font.value.referenceLines.value.vertical.Some?
    then Some((font.value.referenceLines.value.baseline.value, font.value.referenceLines.value.vertical.value))
    else None
  }

  /** Saved positions read back unchanged, and no other font's positions move. */
  lemma ReferenceLinesRoundTrip(fonts: seq<Font>, fontName: string, baseline: int, vertical: int, other: string)
    requires FindFontIndex(fonts, fontName) >= 0
    ensures StoredLines(WithReferenceLines(fonts, fontName, baseline, vertical), fontName) == Some((baseline, vertical))
    ensures other != fontName ==> StoredLines(WithReferenceLines(fonts, fontName, baseline, vertical), other) == StoredLines(fonts, other)
  {
    var i := FindFontIndex(fonts, fontName);
    var f := fonts[i].(referenceLines := Some(ReferenceLines(Some(baseline), Some(vertical))));
    FindAfterUpdate(fonts, i, f, fontName);
    FindAfterUpdate(fonts, i, f, other);
  }

  /** Loading a font's positions twice: the second load finds what the first one persisted. */
  lemma LoadDefaultsOnce(fonts: seq<Font>, fontName: string)
    requires FindFontIndex(fonts, fontName) >= 0 && StoredLines(fonts, fontName).None?
    ensures StoredLines(WithReferenceLines(fonts, fontName, DefaultBaseline, DefaultVertical), fontName) == Some((DefaultBaseline, DefaultVertical))
  {
    ReferenceLinesRoundTrip(fonts, fontName, DefaultBaseline, DefaultVertical, fontName);
  }

  const DefaultBaseline := 10
  const DefaultVertical := 2

  // ---------------------------------------------------------------- the save session

  /** `previousCharacterData`: the character left when switching within a font. */
  datatype PreviousCharacter = PreviousCharacter(character: Option<string>, data: Rows, width: nat, height: nat)

  datatype SaveResult = Saved | EmptyCharacter | FontNotFound | NothingSelected

  /** How a character save to `fontName` ends, once a font and a character are known. */
  function CharacterOutcome(fonts: seq<Font>, fontName: string, p: seq<Color>): (r: SaveResult)
    ensures r == EmptyCharacter <==> IsEmptyCharacter(p)
    ensures r == Saved <==> !IsEmptyCharacter(p) && FindFontIndex(fonts, fontName) >= 0
    ensures r != NothingSelected
  {
    if IsEmptyCharacter(p) then EmptyCharacter
    else if FindFontIndex(fonts, fontName) < 0 then FontNotFound
    else Saved
  }

  /** The font list after that save: the reshaped canvas under the character, or no change. */
  function FontsAfter(fonts: seq<Font>, fontName: string, c: string, p: seq<Color>, w: nat, h: nat): seq<Font> {
    if CharacterOutcome(fonts, fontName, p) == Saved then StoreCharacter(fonts, fontName, c, Reshape(p, w, h)).value
    else fonts
  }

  /**
   * After a character save succeeds the font holds the reshaped canvas under the character, and
   * for a full canvas its button shows data.
   */
  lemma CharacterSaveStores(fonts: seq<Font>, fontName: string, c: string, p: seq<Color>, w: nat, h: nat)
    requires CharacterOutcome(fonts, fontName, p) == Saved
    ensures var after := FindFont(FontsAfter(fonts, fontName, c, p, w, h), fontName);
            after.Some? && c in after.value.characters && after.value.characters[c] == Reshape(p, w, h)
            && (|p| == w * h ==> HasData(after.value.characters, c))
  {
    var rows := Reshape(p, w, h);
    StoreThenLookup(fonts, fontName, c, rows, fontName, c);
    var i := FindFontIndex(fonts, fontName);
    var after := FindFont(FontsAfter(fonts, fontName, c, p, w, h), fontName);
    FindAfterUpdate(fonts, i, fonts[i].(characters := fonts[i].characters[c := rows]), fontName);
    assert after.value.characters == fonts[i].characters[c := rows];
    if |p| == w * h {
      SavedCharacterHasData(fonts[i].characters, c, p, w, h);
    }
  }

  class SaveSession {
    var isFontEditMode: bool
    var editingFont: Option<string>
    var editingCharacter: Option<string>
    var previous: Option<PreviousCharacter>
    /** The name field above the canvas. */
    var canvasName: string
    var dropdownVisible: bool
    /** The `pixelComponents` and `pixelCompositions` lists. */
    var components: seq<Design>
    var compositions: seq<Design>

    constructor (storedComponents: seq<Design>, storedCompositions: seq<Design>)
      ensures !isFontEditMode && editingFont == None && editingCharacter == None && previous == None
      ensures canvasName == "" && !dropdownVisible
      ensures components == storedComponents && compositions == storedCompositions
    {
      isFontEditMode, editingFont, editingCharacter, previous := false, None, None, None;
      canvasName, dropdownVisible := "", false;
      components, compositions := storedComponents, storedCompositions;
    }

    /**
     * `enterFontEditMode`: the state becomes (true, font, character) and the name field
     * `font_character`. Switching characters within the font keeps the canvas just left as the
     * previous character, if any cell is not `'#000000'`; the previous character, when it is
     * another one, is returned as the ghost preview to show.
     */
    method EnterFontEditMode(fontName: string, character: string, p: seq<Color>, w: nat, h: nat)
      returns (preview: Option<PreviousCharacter>)
      modifies this
      ensures isFontEditMode && editingFont == Some(fontName) && editingCharacter == Some(character)
      ensures canvasName == fontName + "_" + character
      ensures previous ==
                if old(isFontEditMode) && old(editingFont) == Some(fontName) && old(editingCharacter) != Some(character)
                   && AnyNotBlack(p)
                then Some(PreviousCharacter(old(editingCharacter), Reshape(p, w, h), w, h))
                else old(previous)
      ensures preview == if previous.Some? && previous.value.character != Some(character) then previous else None
      ensures dropdownVisible == old(dropdownVisible) && components == old(components) && compositions == old(compositions)
    {
      if isFontEditMode && editingFont == Some(fontName) && editingCharacter != Some(character) {
        if AnyNotBlack(p) {
          var characterData := ReshapeCanvas(p, w, h);
          previous := Some(PreviousCharacter(editingCharacter, characterData, w, h));
        }
      }
      isFontEditMode, editingFont, editingCharacter := true, Some(fontName), Some(character);
      canvasName := fontName + "_" + character;
      preview := if previous.Some? && previous.value.character != Some(character) then previous else None;
    }

    /** `exitFontEditMode`: back to (false, null, null), no previous character, name and dropdown cleared. */
    method ExitFontEditMode()
      modifies this
      ensures !isFontEditMode && editingFont == None && editingCharacter == None && previous == None
      ensures canvasName == "" && !dropdownVisible
      ensures components == old(components) && compositions == old(compositions)
    {
      isFontEditMode, editingFont, editingCharacter, previous := false, None, None, None;
      canvasName, dropdownVisible := "", false;
    }

    /** `saveAsComponent` */
    method SaveAsComponent(p: seq<Color>, w: nat, h: nat, now: int, confirmed: bool) returns (r: DesignSave)
      modifies this
      ensures r == SaveDesign(old(components), old(canvasName), p, w, h, now, confirmed)
      ensures r.Stored? ==> components == r.designs && canvasName == [] && !dropdownVisible
      ensures !r.Stored? ==> components == old(components) && canvasName == old(canvasName) && dropdownVisible == old(dropdownVisible)
      ensures compositions == old(compositions) && isFontEditMode == old(isFontEditMode)
      ensures editingFont == old(editingFont) && editingCharacter == old(editingCharacter) && previous == old(previous)
    {
      r := SaveDesign(components, canvasName, p, w, h, now, confirmed);
      if r.Stored? {
        components, canvasName, dropdownVisible := r.designs, "", false;
      }
    }

    /** `saveAsComposition`, the same rule on the other list. */
    method SaveAsComposition(p: seq<Color>, w: nat, h: nat, now: int, confirmed: bool) returns (r: DesignSave)
      modifies this
      ensures r == SaveDesign(old(compositions), old(canvasName), p, w, h, now, confirmed)
      ensures r.Stored? ==> compositions == r.designs && canvasName == [] && !dropdownVisible
      ensures !r.Stored? ==> compositions == old(compositions) && canvasName == old(canvasName) && dropdownVisible == old(dropdownVisible)
      ensures components == old(components) && isFontEditMode == old(isFontEditMode)
      ensures editingFont == old(editingFont) && editingCharacter == old(editingCharacter) && previous == old(previous)
    {
      r := SaveDesign(compositions, canvasName, p, w, h, now, confirmed);
      if r.Stored? {
        compositions, canvasName, dropdownVisible := r.designs, "", false;
      }
    }

    /**
     * `saveCharacterToFont`: a canvas that is not empty by the character check is reshaped and
     * stored under the character of the named font, and the name field is cleared.
     */
    method SaveCharacterToFont(lib: FontLibrary, fontName: string, character: string, p: seq<Color>, w: nat, h: nat)
      returns (r: SaveResult)
      modifies this, lib
      ensures r == CharacterOutcome(old(lib.fonts), fontName, p)
      ensures lib.fonts == FontsAfter(old(lib.fonts), fontName, character, p, w, h)
      ensures r == Saved ==> canvasName == []
      ensures r != Saved ==> canvasName == old(canvasName)
      ensures lib.currentEditingFont == old(lib.currentEditingFont)
      ensures isFontEditMode == old(isFontEditMode) && editingFont == old(editingFont)
      ensures editingCharacter == old(editingCharacter) && previous == old(previous)
      ensures dropdownVisible == old(dropdownVisible) && components == old(components) && compositions == old(compositions)
    {
      if IsEmptyCharacter(p) {
        return EmptyCharacter;
      }
      var characterData := ReshapeCanvas(p, w, h);
      var stored := StoreCharacter(lib.fonts, fontName, character, characterData);
      if stored.None? {
        return FontNotFound;
      }
      lib.fonts := stored.value;
      canvasName := "";
      r := Saved;
    }

    /** `saveCharacter`: the same store, for the font and character being edited. */
    method SaveCharacter(lib: FontLibrary, p: seq<Color>, w: nat, h: nat) returns (r: SaveResult)
      modifies lib
      ensures !Truthy(editingFont) || !Truthy(editingCharacter) ==> r == NothingSelected && lib.fonts == old(lib.fonts)
      ensures Truthy(editingFont) && Truthy(editingCharacter) ==>
                r == CharacterOutcome(old(lib.fonts), editingFont.value, p)
                && lib.fonts == FontsAfter(old(lib.fonts), editingFont.value, editingCharacter.value, p, w, h)
      ensures lib.currentEditingFont == old(lib.currentEditingFont)
    {
      if !Truthy(editingFont) || !Truthy(editingCharacter) {
        return NothingSelected;
      }
      if IsEmptyCharacter(p) {
        return EmptyCharacter;
      }
      var characterData := ReshapeCanvas(p, w, h);
      var stored := StoreCharacter(lib.fonts, editingFont.value, editingCharacter.value, characterData);
      if stored.None? {
        return FontNotFound;
      }
      lib.fonts := stored.value;
      r := Saved;
    }

    /** `handleSaveButtonClick`: route on the trimmed name field, then save or toggle the dropdown. */
    method HandleSaveButtonClick(lib: FontLibrary, p: seq<Color>, w: nat, h: nat)
      returns (route: SaveRoute, r: Option<SaveResult>)
      modifies this, lib
      ensures route == RouteSave(old(isFontEditMode), old(canvasName))
      ensures route.ToggleDropdown? <==> r.None?
      ensures route.ToggleDropdown? ==> dropdownVisible == !old(dropdownVisible) && lib.fonts == old(lib.fonts)
                                        && canvasName == old(canvasName)
      ensures route.SaveCurrentCharacter? && (!Truthy(editingFont) || !Truthy(editingCharacter)) ==>
                r == Some(NothingSelected) && lib.fonts == old(lib.fonts)
      ensures route.SaveCurrentCharacter? && Truthy(editingFont) && Truthy(editingCharacter) ==>
                r == Some(CharacterOutcome(old(lib.fonts), editingFont.value, p))
                && lib.fonts == FontsAfter(old(lib.fonts), editingFont.value, editingCharacter.value, p, w, h)
      ensures route.SaveCurrentCharacter? ==> canvasName == old(canvasName) && dropdownVisible == old(dropdownVisible)
      ensures route.SaveToFont? ==>
                r == Some(CharacterOutcome(old(lib.fonts), route.fontName, p))
                && lib.fonts == FontsAfter(old(lib.fonts), route.fontName, route.character, p, w, h)
                && dropdownVisible == old(dropdownVisible)
      ensures route.SaveToFont? && r == Some(Saved) ==> canvasName == []
      ensures route.SaveToFont? && r != Some(Saved) ==> canvasName == old(canvasName)
      ensures lib.currentEditingFont == old(lib.currentEditingFont)
      ensures isFontEditMode == old(isFontEditMode) && editingFont == old(editingFont)
      ensures editingCharacter == old(editingCharacter) && previous == old(previous)
      ensures components == old(components) && compositions == old(compositions)
    {
      route := RouteSave(isFontEditMode, canvasName);
      match route {
        case SaveCurrentCharacter =>
          var saved := SaveCharacter(lib, p, w, h);
          r := Some(saved);
        case SaveToFont(fontName, character) =>
          var saved := SaveCharacterToFont(lib, fontName, character, p, w, h);
          r := Some(saved);
        case ToggleDropdown =>
          dropdownVisible := !dropdownVisible;
          r := None;
      }
    }

    /** `saveFontReferenceLinePositions` */
    method SaveFontReferenceLinePositions(lib: FontLibrary, fontName: string, baseline: int, vertical: int)
      modifies lib
      ensures lib.fonts == WithReferenceLines(old(lib.fonts), fontName, baseline, vertical)
      ensures lib.currentEditingFont == old(lib.currentEditingFont)
    {
      var fontIndex := FindFontIndex(lib.fonts, fontName);
      if fontIndex == -1 {
        return;
      }
      var font := lib.fonts[fontIndex];
      lib.fonts := lib.fonts[fontIndex := font.(referenceLines := Some(ReferenceLines(Some(baseline), Some(vertical))))];
    }

    /**
     * `loadFontReferenceLinePositions`: the stored pair when both positions are defined,
     * otherwise the defaults, which are then saved to the font; nothing for an unknown font.
     */
    method LoadFontReferenceLinePositions(lib: FontLibrary, fontName: string) returns (positions: Option<(int, int)>)
      modifies lib
      ensures FindFont(old(lib.fonts), fontName).None? ==> positions == None && lib.fonts == old(lib.fonts)
      ensures StoredLines(old(lib.fonts), fontName).Some? ==>
                positions == StoredLines(old(lib.fonts), fontName) && lib.fonts == old(lib.fonts)
      ensures FindFont(old(lib.fonts), fontName).Some? && StoredLines(old(lib.fonts), fontName).None? ==>
                positions == Some((DefaultBaseline, DefaultVertical))
                && lib.fonts == WithReferenceLines(old(lib.fonts), fontName, DefaultBaseline, DefaultVertical)
      ensures lib.currentEditingFont == old(lib.currentEditingFont)
    {
      var font := FindFont(lib.fonts, fontName);
      if font.None? {
        return None;
      }
      var stored := StoredLines(lib.fonts, fontName);
      if stored.Some? {
        return stored;
      }
      SaveFontReferenceLinePositions(lib, fontName, DefaultBaseline, DefaultVertical);
      positions := Some((DefaultBaseline, DefaultVertical));
    }
  }
}
