# Pixel: a verified model of the editor core

Pixel is a browser pixel-art and bitmap-font editor for microcontroller displays. A drawing is a
grid of cells, each holding a CSS colour string; the background is `#000000` and an unset cell
is `''`. On that grid the editor offers:

- drawing tools: the pencil, the eraser, flood fill and brushes of several sizes and shapes;
- a fifty-step undo/redo history;
- canvas resizing by dragging one of four corner handles;
- reusable *components*, saved designs that can be placed, moved, removed and used as a brush;
- *fonts*, whose characters are glyph grids; the type tool stamps them as text;
- saving designs, compositions and characters;
- export as Arduino C source, in monochrome (2D array, bit-packed stream, XBM), colour (2D,
  1D, BMP-style, palette) and Adafruit GFX font formats.

This project models that editor core in Dafny and proves what each operation does to the grid and
to the editor's state.

Pixel colours are strings (`seq<char>`). A grid is a flat `seq<Color>` of `width * height` cells,
row-major, so cell (x, y) sits at index `y * width + x` (`Grid.Idx`). State that the program
changes in place is kept in classes:

- the canvas manager's grid, history, brush, reference lines, resize drag and placed components
  (`CanvasManager.Canvas`);
- the component manager's modes and original-state records (`ComponentManager.Compositor`);
- the export settings (`ExportManager.ExportSettings`);
- the font list (`FontManager.FontLibrary`);
- the font-edit session (`SaveManager.SaveSession`);
- the type tool (`TypeManager.TypeTool`).

Every loop of the source is a `while` loop in a method. Each such method is proved equal to a
specification function, and the lemmas about those functions state what the editor promises:

- a flood fill recolours exactly the 4-connected region of the start colour;
- a brush dab paints exactly the in-bounds cells of the brush shape;
- undo and redo invert each other;
- placing a component and then removing it gives back the canvas;
- the packed export formats read every pixel back.

JavaScript semantics that matter are written out in `JsText`: `trim`, `parseInt(s, 16)`,
`toString(16)`, `padStart`, `%` with the dividend's sign, and 32-bit shifts. A missing array element
(`undefined`) is modelled where the source reads past the end of an array.

Modules follow the source files: `CanvasManager`, `CanvasOps` and `Resize` for canvasManager.js;
`ComponentManager` and `Components` for componentManager.js; `ExportCodeGenerator` and `Bits` for
exportCodeGenerator.js; `ExportManager`; `FontManager` and `Fonts` for fontManager.js;
`SaveManager`; `TypeManager`; the shared `Grid`, `History`, `JsText` and `Wrappers`.

## Model

| member | source | states |
|---|---|---|
| Grid.OrBlack | src/modules/canvasManager.js:1437-1442 | `c \|\| '#000000'` is never unset and keeps any set colour |
| Grid.ApplyWritesUntouched | src/modules/canvasManager.js:1121-1135 | a cell that no style write aims at keeps its colour |
| Grid.ApplyWritesUniform | src/modules/canvasManager.js:1121-1135 | a cell that every write aiming at it paints `c`, with at least one such write, ends up `c` |
| Grid.WritesPointwise | src/modules/canvasManager.js:1956-1981 | a cell's final colour is fixed by the writes aiming at it, whatever the order of the others |
| Grid.RowsWritesFrom | src/modules/componentManager.js:549-568 | every write of a nested drawing loop comes from one of its cells |
| Grid.RowsWritesHas | src/modules/componentManager.js:549-568 | every loop cell that issues a write has that write among the loop's writes |
| Grid.IdxCoords | src/modules/typeManager.js:594-595 | `index % w` and `Math.floor(index / w)` recover the column and row of a flat index |
| Grid.IdxInjective | src/modules/typeManager.js:594-595 | distinct cells of one row width have distinct flat indices |
| History.Pushed | src/modules/canvasManager.js:1435-1452 | a save truncates the entries after the index, appends the snapshot as the newest entry, and evicts the oldest entry past fifty |
| History.PushedValid | src/modules/canvasManager.js:30-32 | a save keeps the index on an entry, and the history never holds more than fifty entries |
| History.FirstPush | src/modules/canvasManager.js:35-41 | the first save of a fresh canvas leaves exactly its snapshot, as the current entry |
| History.Undone | src/modules/canvasManager.js:1463-1469 | undo steps back one entry when the index is above 0, and otherwise changes nothing |
| History.Redone | src/modules/canvasManager.js:1471-1477 | redo steps forward one entry when a newer one exists, and otherwise changes nothing |
| History.UndoRedoInverse | src/modules/canvasManager.js:1463-1477 | redo after undo, and undo after redo, give back the same history |
| History.PushedThenUndo | src/modules/canvasManager.js:1435-1477 | right after a save nothing can be redone, and undo is possible exactly when two snapshots exist |
| History.Restored | src/modules/canvasManager.js:1454-1461 | restore changes exactly the cells whose snapshot entry exists and is set |
| History.Snapshot | src/modules/canvasManager.js:1437-1442 | a snapshot keeps every cell, with unset cells read as the background |
| History.SnapshotOfBlank | src/modules/canvasManager.js:35-41 | the snapshot of a fresh grid is all background |
| History.RestoreSnapshot | src/modules/canvasManager.js:1454-1469 | restoring a snapshot of a same-sized canvas reproduces it exactly, whatever is on the canvas |
| History.RestoreKeepsRest | src/modules/canvasManager.js:1454-1461 | a snapshot of another size restores only the cells both have, and only its set ones |
| CanvasManager.DrawColor | src/modules/canvasManager.js:1124 | the draw colour is never unset; it is the current colour, or white when that is unset |
| CanvasManager.ToolEffect | src/modules/canvasManager.js:1121-1135 | draw and erase paint (erase paints the background), fill floods with the current colour, and every other tool does nothing |
| CanvasManager.DrawAllAppend | src/modules/canvasManager.js:1137-1165 | drawing a list of cells is drawing its first part and then the rest |
| CanvasManager.DrawAllWrites | src/modules/canvasManager.js:1121-1135 | with draw or erase, `drawPixel` over cells is issuing the tool colour's writes |
| CanvasManager.DrawAllOtherTool | src/modules/canvasManager.js:1121-1135 | any tool but draw, erase and fill leaves the canvas unchanged |
| CanvasManager.StrokeBrushed | src/modules/canvasManager.js:1137-1165 | a draw or erase dab paints exactly the in-bounds cells of the brush shape and nothing else |
| CanvasManager.StrokeFillSizeOne | src/modules/canvasManager.js:1137-1165 | with a size-1 square or circle brush the fill tool runs exactly one flood fill, from the clicked cell |
| CanvasManager.BrushRowsPrefixWrites | src/modules/canvasManager.js:1145-1164 | the two brush loops, row by row, are `drawPixel` over the brush's writes in loop order |
| CanvasManager.PushNeighbours | src/modules/canvasManager.js:1270-1277 | the stack gains up, down, left and right, in that order, each only when it is on the canvas |
| CanvasManager.FillDone | src/modules/canvasManager.js:1250-1278 | when the stack runs empty, the recoloured cells are exactly the start's 4-connected region of the start colour |
| CanvasManager.CopyRow | src/modules/canvasManager.js:1956-1973 | one row of the corrected copy loop issues exactly the plan's writes for that row |
| CanvasManager.ResizeCopy | src/modules/canvasManager.js:1956-1981 | the corrected copy into an all-background grid is the old drawing moved by the anchor's content offset |
| CanvasManager.RepositionComponents | src/modules/canvasManager.js:2081-2144 | the corrected repositioning (see `Resize.Repositioned`) |
| CanvasManager.Loaded | src/modules/canvasManager.js:1385-1430 | the loaded grid has the target size; cell i is `data[i] \|\| '#000000'`; cells past the data keep their value |
| CanvasManager.LoadedExact | src/modules/canvasManager.js:1385-1430 | data that covers the grid and has no unset cell is reproduced exactly |
| CanvasManager.LoadedNoUnset | src/modules/canvasManager.js:1417-1421 | loading never leaves an unset cell under the data, and reads `''` as the background |
| CanvasManager.Canvas.constructor | src/modules/canvasManager.js:35-60 | a fresh grid of unset cells, one saved snapshot, and the default brush and reference lines (baseline row 12, vertical column 8, both hidden) |
| CanvasManager.Canvas.SaveState | src/modules/canvasManager.js:1435-1452 | the history becomes `History.Pushed` of the old one with the grid's snapshot |
| CanvasManager.Canvas.RestoreState | src/modules/canvasManager.js:1454-1461 | the grid becomes `History.Restored` of the old grid and the state |
| CanvasManager.Canvas.Undo | src/modules/canvasManager.js:1463-1469 | the history steps back and the grid restores the entry stepped to; without an older entry nothing changes |
| CanvasManager.Canvas.Redo | src/modules/canvasManager.js:1471-1477 | the history steps forward and the grid restores the entry stepped to; without a newer entry nothing changes |
| CanvasManager.Canvas.MergeWithComponents | src/modules/canvasManager.js:1520-1550 | the placed components are stamped over the base in list order, so later entries win (see `Components.MergedAt`) |
| CanvasManager.Canvas.GetCanvasData | src/modules/canvasManager.js:1480-1517 | the grid's snapshot under the placed components' ink |
| CanvasManager.Canvas.FloodFill | src/modules/canvasManager.js:1237-1279 | the grid becomes the flood fill of the start cell with the replacement colour, comparing cells by the key of their read-back spelling; when the start already has it, nothing changes |
| CanvasManager.Canvas.FillRegion | src/modules/canvasManager.js:1250-1278 | the stack loop ends with the fill invariant, with an empty stack and the grid the same size |
| CanvasManager.Canvas.DrawPixel | src/modules/canvasManager.js:1121-1135 | the grid becomes the current tool's effect on the cell |
| CanvasManager.Canvas.DrawBrush | src/modules/canvasManager.js:1137-1165 | `drawPixel` on every in-bounds brush cell, in loop order |
| CanvasManager.Canvas.DrawBrushCell | src/modules/canvasManager.js:1150-1162 | one brush iteration draws its cell when it is on the canvas and in the shape, and otherwise does nothing |
| CanvasManager.Canvas.DrawBrushRow | src/modules/canvasManager.js:1148-1163 | the inner brush loop draws its row's cells in order |
| CanvasManager.Canvas.StartDrawing | src/modules/canvasManager.js:1085-1100 | outside the type tool, a snapshot of the previous grid is saved, drawing starts and the brush is dabbed; the type tool changes nothing |
| CanvasManager.Canvas.ContinueDrawing | src/modules/canvasManager.js:1102-1107 | during a stroke, outside the type tool, the brush is dabbed at the entered cell; otherwise nothing changes |
| CanvasManager.Canvas.StopDrawing | src/modules/canvasManager.js:1109-1114 | the stroke ends |
| CanvasManager.Canvas.SetBrushProperties | src/modules/canvasManager.js:1558-1565 | size and shape are stored as given |
| CanvasManager.Canvas.ShowReferenceLines | src/modules/canvasManager.js:144-169 | both lines become visible |
| CanvasManager.Canvas.HideReferenceLines | src/modules/canvasManager.js:191-195 | both lines are hidden and their positions kept |
| CanvasManager.Canvas.SetBaselinePosition | src/modules/canvasManager.js:197-211 | the baseline row is stored as given, even when it is off the canvas |
| CanvasManager.Canvas.SetVerticalPosition | src/modules/canvasManager.js:213-227 | the vertical column is stored as given, even when it is off the canvas |
| CanvasManager.Canvas.GetReferenceLinePositions | src/modules/canvasManager.js:229-234 | the stored positions are returned, not the clamped ones that are drawn |
| CanvasManager.Canvas.DisplayedLines | src/modules/canvasManager.js:261-354 | both lines are drawn on the canvas, at their stored position whenever that lies on it |
| CanvasManager.Canvas.ClearCanvas | src/modules/canvasManager.js:1296-1368 | every cell becomes the background and no component stays placed |
| CanvasManager.Canvas.LoadCanvasFromData | src/modules/canvasManager.js:1371-1382 | cell (x, y) takes `rows[y][x]`, or the background where that is missing or unset; the size is kept |
| CanvasManager.Canvas.LoadDataToCanvas | src/modules/canvasManager.js:1385-1430 | new dimensions are clamped into [1, 480] and get a fresh grid; the data is written with `''` read as the background; no component stays placed |
| CanvasManager.Canvas.LoadCells | src/modules/canvasManager.js:1417-1421 | the `forEach` writes `data[i] \|\| '#000000'` into each existing cell |
| CanvasManager.Canvas.ApplyDimensions | src/modules/canvasManager.js:920-939 | when both inputs parse and lie in [1, 480], a snapshot is saved and a fresh grid of that size starts; otherwise nothing changes |
| CanvasManager.Canvas.StartResize | src/modules/canvasManager.js:1626-1671 | the handle and the starting size are remembered, and a snapshot is saved |
| CanvasManager.Canvas.ResizeCanvas | src/modules/canvasManager.js:1812-2078 | the new size is taken; the composite image moves by the content offset (the corrected copy loop), which is the copy loop as written whenever both axes grow or both shrink; the components that still fit move and the others go (the corrected repositioning), which is the repositioning as written whenever every component fits; each visible reference line moves with the drawing and is clamped into the new canvas |
| CanvasManager.Canvas.StopResize | src/modules/canvasManager.js:1726-1809 | without a drag nothing changes; otherwise the drag ends at the clamped drag size; an unchanged size leaves drawing, components and reference lines alone, a changed one moves them exactly as a resize under the dragged handle |
| CanvasOps.RgbToHexOfRgb | src/modules/canvasManager.js:1282-1293 | the browser spelling `rgb(r, g, b)` becomes `#rrggbb` |
| CanvasOps.KeyOfHexTriple | src/modules/canvasManager.js:1239-1242 | a cell set to `#rrggbb` reads back as `rgb(r, g, b)` and keys as the same `#rrggbb` |
| CanvasOps.KeyOfRgbString | src/modules/canvasManager.js:1257 | the browser spelling `rgb(r, g, b)` keys as the same colour's `#rrggbb` |
| CanvasOps.HexTripleKeysDiffer | src/modules/canvasManager.js:1257-1258 | two different `#rrggbb` colours never key alike |
| CanvasOps.RgbToHexKeepsShortSpelling | src/modules/canvasManager.js:1282-1293 | a set colour that is not black and has fewer than three numbers comes back unchanged |
| CanvasOps.RgbStringBackground | src/modules/canvasManager.js:1282-1293 | an `rgb(...)` spelling is never unset, and reads as the background only for black |
| CanvasOps.Brushed | src/modules/canvasManager.js:1137-1165 | a dab changes exactly the cells that the brush covers, to the brush colour |
| CanvasOps.BrushWriteTarget | src/modules/canvasManager.js:1145-1164 | every brush write is on the canvas, is in the shape and carries the brush colour |
| CanvasOps.BrushWriteExists | src/modules/canvasManager.js:1145-1164 | every canvas cell that the shape covers gets a write |
| CanvasOps.BrushWritesEffect | src/modules/canvasManager.js:1145-1164 | issuing the brush writes in loop order is the cell-by-cell dab |
| CanvasOps.BrushSizeOne | src/modules/canvasManager.js:1137-1165 | a size-1 square or circle brush paints only the centre |
| CanvasOps.BrushUnknownShape | src/modules/canvasManager.js:1152-1158 | a shape other than square and circle paints nothing |
| CanvasOps.CircleInSquare | src/modules/canvasManager.js:1152-1158 | the circle brush covers no cell that the square brush of the same size does not |
| CanvasOps.NeighboursAdjacent | src/modules/canvasManager.js:1270-1277 | the pushed neighbours of a cell are exactly its 4-adjacent cells on the canvas |
| CanvasOps.ReachStep | src/modules/canvasManager.js:1250-1278 | an adjacent cell of the start colour, next to a region cell, is in the region |
| CanvasOps.ReachClosed | src/modules/canvasManager.js:1250-1278 | a cell set that holds the start and is closed under same-colour adjacency holds the whole region |
| CanvasOps.FloodFilled | src/modules/canvasManager.js:1237-1279 | the filled grid has the same size; region cells take the replacement and all other cells are kept |
| Resize.Clamp | src/modules/canvasManager.js:1712-1713 | the result lies in [1, 480], and equals the input when the input already does |
| Resize.DragDimensionsSigned | src/modules/canvasManager.js:1692-1713 | each axis is the start size moved by the drag in the handle's direction, then clamped into [1, 480] |
| Resize.DragDimensionsExact | src/modules/canvasManager.js:1746-1767 | a drag that stays inside [1, 480] gives exactly the start size plus the signed drag |
| Resize.ContentOffsetUniform | src/modules/canvasManager.js:1995-2038 | both resize branches move the drawing by one signed offset per axis: the size change for a handle on that axis's far side, else nothing |
| Resize.ResizePlanShape | src/modules/canvasManager.js:1841-1953 | every anchor's copy ranges move the drawing by the content offset and cover all of it that stays on the canvas |
| Resize.ResizePlanNonNegative | src/modules/canvasManager.js:1841-1953 | when both axes grow or both shrink, the destination corner is never negative |
| Resize.Resized | src/modules/canvasManager.js:1956-1981 | new cell (x, y) shows old cell (x - ox, y - oy), or the background where that is off the old grid |
| Resize.ResizedAsWritten | src/modules/canvasManager.js:1956-1973 | the copy loop as written, over an all-background grid of the new size |
| Resize.CopyCellTarget | src/modules/canvasManager.js:1960-1970 | each corrected copy write lands on the new grid and reads the old one |
| Resize.PlanCopyEffect | src/modules/canvasManager.js:1956-1981 | the corrected copy loop, for ranges that move by (ox, oy), is the remap by (ox, oy) |
| Resize.ResizeWritesEffect | src/modules/canvasManager.js:1956-1981 | the corrected copy is the remap by the content offset |
| Resize.ResizeAsWrittenAgrees | src/modules/canvasManager.js:1841-1973 | when both axes grow or both shrink, the code as written equals the corrected copy |
| Resize.ResizeWrapsAround | src/modules/canvasManager.js:1841-1973 | as written, dragging the top-left handle of a 2x1 canvas [a, b] to 1x2 yields [a, b]: the cropped cell wraps to index 0 |
| Resize.ResizeCorrectedClearsCorner | src/modules/canvasManager.js:1841-1973 | the corrected copy of that drag yields [background, b] |
| Resize.ResizeAsWrittenDiffers | src/modules/canvasManager.js:1841-1973 | whenever the cropped cell is not background, the code as written and the corrected copy differ |
| Resize.MovedCorner | src/modules/canvasManager.js:2089-2119 | a component moves only along a growing axis, and only for a handle on that side |
| Resize.RepositionedAsWritten | src/modules/canvasManager.js:2122-2139 | the `forEach` with `splice` as written never yields more components than it started with |
| Resize.RepositionedFits | src/modules/canvasManager.js:2122-2139 | after the corrected repositioning, every component lies inside the new canvas and is a moved original that fits |
| Resize.RepositionedKeeps | src/modules/canvasManager.js:2122-2139 | no component that fits is lost by the corrected repositioning |
| Resize.RepositionedSnoc | src/modules/canvasManager.js:2122-2139 | the corrected repositioning treats each component independently, in list order |
| Resize.RepositionAllFit | src/modules/canvasManager.js:2122-2139 | when every component still fits, the code as written agrees with the corrected repositioning |
| Resize.ResizeAsWrittenWhereAgreeing | src/modules/canvasManager.js:1841-2139 | a resize as written moves the drawing by the content offset when both axes grow or both shrink, and keeps exactly the moved components when every one still fits |
| Resize.RepositionSkipsAfterSplice | src/modules/canvasManager.js:2122-2139 | as written, of two adjacent components that stop fitting, the second slides into the spliced slot, is skipped and survives |
| Resize.DisplayedLine | src/modules/canvasManager.js:315-354 | a stored line on the canvas is drawn where it is and not dimmed; an off-canvas one is drawn dimmed at the nearest edge |
| Resize.DisplayedLineOnCanvas | src/modules/canvasManager.js:315-354 | the drawn line is always on the canvas: the stored value clamped into [0, dim - 1] |
| Resize.Reclamped | src/modules/canvasManager.js:2043-2055 | a visible line after a resize lies on the new axis, at its moved position whenever that fits |
| Components.StampWriteTarget | src/modules/componentManager.js:549-568 | every stamp write aims at a canvas cell under an ink cell of the design, with that cell's colour |
| Components.StampWriteExists | src/modules/componentManager.js:549-568 | every canvas cell under ink receives the write of that ink |
| Components.StampWritesEffect | src/modules/componentManager.js:549-568 | issuing the stamp writes in loop order is the cell-by-cell stamp: design ink overwrites, and see-through or off-canvas cells change nothing |
| Components.Merged | src/modules/canvasManager.js:1520-1550 | the composite has the base's size |
| Components.MergedAt | src/modules/canvasManager.js:1520-1550 | a composite cell shows the topmost component ink over it, and the base where there is none |
| Components.FindAt | src/modules/componentManager.js:329-337 | the first listed component whose rectangle holds the cell; none exactly when no rectangle does |
| Components.IndexOfId | src/modules/componentManager.js:937-957 | the first index with that id, or -1 exactly when no component has it |
| Components.RemoveAt | src/modules/componentManager.js:189-195 | `splice(i, 1)` drops element i and keeps the others in order |
| Components.PaintDesign | src/modules/componentManager.js:549-603 | the drawing loops yield the cell-by-cell stamp |
| ComponentManager.RecordsIn | src/modules/componentManager.js:859-888 | every recorded entry is a canvas cell under the design's rectangle, with that cell's colour |
| ComponentManager.RecordsHas | src/modules/componentManager.js:859-888 | every canvas cell under the design's rectangle is recorded |
| ComponentManager.RecordsCount | src/modules/componentManager.js:859-888 | a design that fits records exactly width * height entries |
| ComponentManager.StampedOutside | src/modules/componentManager.js:549-568 | a placement changes no cell outside the design's rectangle |
| ComponentManager.RestoreCell | src/modules/componentManager.js:474-485 | replaying a record over any same-sized canvas puts back each recorded cell |
| ComponentManager.PlaceThenRestore | src/modules/componentManager.js:474-485 | placing a design and then replaying its record restores every cell under its rectangle, and leaves the rest as the placement did |
| ComponentManager.RecordFootprint | src/modules/componentManager.js:859-888 | the recording loops yield the cells under the design's rectangle, row by row |
| ComponentManager.RestoreRecords | src/modules/componentManager.js:474-485 | each entry is written back where its cell exists |
| ComponentManager.Orphans | src/modules/componentManager.js:340-349 | exactly the records of listed components are kept, unchanged |
| ComponentManager.PlaceThenRemove | src/modules/componentManager.js:807-957 | placing under a fresh id and then removing that id gives back the list, the records and the canvas from before |
| ComponentManager.MovedHasNoRecord | src/modules/componentManager.js:172-203 | a moved component has no record, so removing it later leaves every cell as it was |
| ComponentManager.LiftThenRestore | src/modules/componentManager.js:308-326 | a move that is put back repaints the component's design exactly where it was |
| ComponentManager.RestoredAllWithoutRecords | src/modules/componentManager.js:967-983 | replaying no records leaves the canvas alone |
| ComponentManager.ClearSinglePlacement | src/modules/componentManager.js:967-983 | clearing a single placement restores the canvas under its rectangle |
| ComponentManager.OrphansIdempotent | src/modules/componentManager.js:340-349 | cleaning up twice is cleaning up once, and no listed component's record is dropped |
| ComponentManager.Compositor.constructor | src/modules/componentManager.js:8-24 | no mode is active and there are no records |
| ComponentManager.Compositor.PaintPlaced | src/modules/componentManager.js:549-568 | the component's ink is stamped onto the canvas |
| ComponentManager.Compositor.RestoreOriginalState | src/modules/componentManager.js:474-485 | the component's record, if any, is replayed |
| ComponentManager.Compositor.BlackOut | src/modules/componentManager.js:488-516 | the component's ink cells become background and its record is forgotten |
| ComponentManager.Compositor.CleanupOrphanedStates | src/modules/componentManager.js:340-349 | only records of listed components remain |
| ComponentManager.Compositor.FindComponentAtPosition | src/modules/componentManager.js:329-337 | after cleanup, the first listed component covering the cell, found exactly when one covers it |
| ComponentManager.Compositor.ExitBrushMode | src/modules/componentManager.js:800-804 | brush mode ends |
| ComponentManager.Compositor.RestoreToOriginalPosition | src/modules/componentManager.js:308-326 | a moving component is repainted where it was and listed again; with no move, nothing changes |
| ComponentManager.Compositor.PlaceComponent | src/modules/componentManager.js:736-764 | a valid index enters placement mode with that design, ending brush mode and putting back any move; an invalid index changes nothing |
| ComponentManager.Compositor.EnableComponentBrush | src/modules/componentManager.js:767-797 | a valid index makes that design the brush, ending placement mode and putting back any move; an invalid index changes nothing |
| ComponentManager.Compositor.PlaceOnCanvas | src/modules/componentManager.js:807-856 | a design that does not fit changes nothing; otherwise a snapshot is saved, the cells under it are recorded, it is listed under the id and painted, and placement mode ends |
| ComponentManager.Compositor.DrawComponentAsBrush | src/modules/componentManager.js:571-603 | the brush design is stamped where it fits, with no record; otherwise nothing changes |
| ComponentManager.Compositor.RemovePlacedComponent | src/modules/componentManager.js:937-957 | the component's record is replayed, and it is unlisted and its record forgotten; an unknown id changes nothing |
| ComponentManager.Compositor.StartMoveOperation | src/modules/componentManager.js:172-203 | the component is blacked out, unlisted and its record forgotten, and it becomes the moving one |
| ComponentManager.Compositor.MouseDown | src/modules/componentManager.js:149-164 | with the move tool outside placement mode, the component under the cell (after cleanup) starts moving; otherwise nothing changes |
| ComponentManager.Compositor.CompleteMoveOperation | src/modules/componentManager.js:265-305 | a drop that does not fit puts the component back; otherwise it is painted and listed at the drop cell; the move ends either way |
| ComponentManager.Compositor.Click | src/modules/componentManager.js:122-146 | in placement mode, a fitting cell places the design and records one history entry, and a cell where it does not fit changes nothing; outside it, a move that did not just start completes at the cell (or returns home when the design does not fit there) and ends the drag, and otherwise nothing changes |
| ComponentManager.Compositor.ClearAllPlacedComponents | src/modules/componentManager.js:967-983 | every record is replayed in list order, then the list and the records are emptied |
| Bits.PackMsb | src/modules/exportCodeGenerator.js:881-902 | one byte per started group of eight pixels |
| Bits.ReadMsbPacked | src/modules/exportCodeGenerator.js:555-560 | MSB-first packing reads every pixel back at bit `7 - i % 8` of byte `i / 8` |
| Bits.ReadLsbPacked | src/modules/exportCodeGenerator.js:642-646 | LSB-first packing reads every pixel back at bit `i % 8` of byte `i / 8` |
| Bits.PackedAreBytes | src/modules/exportCodeGenerator.js:881-902 | every packed value is below 256 |
| Bits.PackRowsLength | src/modules/exportManager.js:101-119 | row packing takes ceil(w / 8) bytes per row |
| Bits.ReadRowsMsb | src/modules/exportManager.js:105-116 | pixel (x, y) is bit `7 - x % 8` of byte `y * ceil(w / 8) + x / 8` of the MSB rows |
| Bits.ReadRowsLsb | src/modules/exportManager.js:165-176 | pixel (x, y) is bit `x % 8` of the same byte of the LSB rows |
| Bits.PackMsbLoop | src/modules/exportCodeGenerator.js:881-902 | the `convertToBytes` loop builds the MSB-first packing |
| Bits.PackLsbLoop | src/modules/exportCodeGenerator.js:642-646 | the LSB-first loop builds the LSB-first packing |
| ExportCodeGenerator.ConvertToBytes | src/modules/exportCodeGenerator.js:881-902 | pixels are packed eight to a byte, leftmost in the most significant bit, with a pixel on exactly when it is ink |
| ExportCodeGenerator.StreamReadsBack | src/modules/exportCodeGenerator.js:528-612 | the binary and hex streams have ceil(n / 8) bytes, and the emitted reader sees each pixel's ink bit |
| ExportCodeGenerator.XbmAsWrittenMisreads | src/modules/exportCodeGenerator.js:615-655 | as written, a single ink pixel is packed as 0x80, and the emitted XBM reader reads it as off |
| ExportCodeGenerator.ConvertToXbmBytes | src/modules/exportCodeGenerator.js:616 | the XBM bytes are LSB-first, matching the emitted XBM reader |
| ExportCodeGenerator.XbmReadsBack | src/modules/exportCodeGenerator.js:642-646 | with LSB-first bytes, the XBM display loop reads every pixel back |
| ExportCodeGenerator.Mono2DArray | src/modules/exportCodeGenerator.js:446-457 | h rows of w cells; cell (y, x) is 1 exactly when pixel `y * w + x` is ink |
| ExportCodeGenerator.MonoFormatsAgree | src/modules/exportCodeGenerator.js:446-612 | on a full canvas the 2D array and the packed streams show the same image |
| ExportCodeGenerator.GfxCharactersAreAscii | src/modules/exportCodeGenerator.js:144 | the font's character string is codes 0x20 to 0x7E, one per code, in order |
| ExportCodeGenerator.GlyphBitmapSize | src/modules/exportCodeGenerator.js:203-237 | a glyph's bitmap takes exactly `height * ceil(width / 8)` bytes |
| ExportCodeGenerator.GlyphBitmapLoop | src/modules/exportCodeGenerator.js:215-237 | the glyph loops build each row padded to a byte, leftmost pixel in the MSB |
| ExportCodeGenerator.BuildFontTable | src/modules/exportCodeGenerator.js:156-271 | each present glyph is recorded at the running offset and its bytes appended; an absent one gets a 0 x 0 record with advance 8 |
| ExportCodeGenerator.GenerateGfxFont | src/modules/exportCodeGenerator.js:135-271 | the table of the font with that name, or the not-found text |
| ExportCodeGenerator.FontTableLength | src/modules/exportCodeGenerator.js:156-271 | the bitmap is exactly as long as all record sizes together |
| ExportCodeGenerator.FontTablePrefix | src/modules/exportCodeGenerator.js:156-271 | later characters only append to the glyph table and the bitmap |
| ExportCodeGenerator.FontTableEntry | src/modules/exportCodeGenerator.js:160-268 | a present glyph's record has the first row's length as width, the row count as height and advance width + 1, and its bytes lie at its offset; an absent one is 0 x 0 with advance 8 |
| ExportCodeGenerator.GlyphOffsetIsSum | src/modules/exportCodeGenerator.js:240 | every glyph's offset is the sum of the sizes of the glyphs before it |
| ExportCodeGenerator.GlyphPixel | src/modules/exportCodeGenerator.js:215-237 | glyph pixel (x, y) is bit `7 - x % 8` of byte `y * ceil(w / 8) + x / 8` of its bitmap |
| ExportCodeGenerator.CharCode | src/modules/exportCodeGenerator.js:402-403 | the first character's code, or NaN for the empty string |
| ExportCodeGenerator.GenerateGfxCharacter | src/modules/exportCodeGenerator.js:331-411 | an unknown font or character gives the not-found text; otherwise the one-glyph table |
| ExportCodeGenerator.CharacterMatchesFont | src/modules/exportCodeGenerator.js:331-411 | the single-character export packs a glyph exactly as the font export does, at that glyph's offset |
| ExportCodeGenerator.RgbSpelling | src/modules/exportCodeGenerator.js:858-878 | an `rgb(...)` spelling is a background spelling only for black |
| ExportCodeGenerator.ConvertHexTriple | src/modules/exportCodeGenerator.js:858-878 | `#rrggbb` becomes `RRGGBB` |
| ExportCodeGenerator.ConvertRgbString | src/modules/exportCodeGenerator.js:858-878 | `rgb(r, g, b)` becomes the same word as `#rrggbb` |
| ExportCodeGenerator.ConvertRgbRuns | src/modules/exportCodeGenerator.js:858-878 | any non-background `rgb(`-spelling with numbers r, g, b converts to their colour word |
| ExportCodeGenerator.ConvertToColorArray | src/modules/exportCodeGenerator.js:905-930 | one word per pixel |
| ExportCodeGenerator.ColorArrayAgrees | src/modules/exportCodeGenerator.js:658-930 | the 1D and BMP arrays spell `#rrggbb` and `rgb(r, g, b)` with one word, the word the 2D array and the palette give |
| ExportCodeGenerator.ColorArrayOfName | src/modules/exportCodeGenerator.js:905-930 | `transparent` becomes `000NAN` in the 1D array where the 2D array prints `000000` |
| ExportCodeGenerator.Color2DArray | src/modules/exportCodeGenerator.js:658-668 | h rows; row y holds the words of pixels `y * w` to `y * w + w - 1` |
| ExportCodeGenerator.ColorPalette | src/modules/exportCodeGenerator.js:803-809 | the unique colours have no duplicates, every index is in range, and each pixel's index names its colour |
| ExportCodeGenerator.GenerateCode | src/modules/exportCodeGenerator.js:56-132 | an unknown protocol gives no code; the three protocols differ only in a label; the format and sub-format pick the generator, with the corrected LSB-first bytes for `mono-xbm` |
| ExportManager.IsPixelOn | src/modules/exportManager.js:320-325 | a string is off only as `#000000` or `#000`; a number is on when it is not 0 |
| ExportManager.ColorToHexOfTriple | src/modules/exportManager.js:327-338 | `#rrggbb` becomes `0x` and the four upper-case hex digits of its RGB565 word |
| ExportManager.ColorToHexOfNumber | src/modules/exportManager.js:327-338 | a number below 65536 is printed as its four upper-case hex digits |
| ExportManager.Rgb565Bound | src/modules/exportManager.js:327-338 | the packed word is below 65536 |
| ExportManager.SanitizeName | src/modules/exportManager.js:340-343 | whatever the name, the result is a C identifier: non-empty, made of `[A-Za-z0-9_]`, and not starting with a digit |
| ExportManager.SanitizeKeeps | src/modules/exportManager.js:340-343 | identifier characters are kept, and every other character becomes `_` |
| ExportManager.SanitizeIdentifier | src/modules/exportManager.js:340-343 | an identifier passes through unchanged |
| ExportManager.SanitizeIdempotent | src/modules/exportManager.js:340-343 | sanitising twice is sanitising once |
| ExportManager.MonoRowBytes | src/modules/exportManager.js:101-148 | every row starts a fresh byte, eight pixels a byte, first pixel in the high bit |
| ExportManager.XbmRowBytes | src/modules/exportManager.js:159-176 | the same layout, with the first pixel of each byte in the low bit |
| ExportManager.MonoRowBytesRead | src/modules/exportManager.js:101-148 | pixel (x, y) is bit `7 - x % 8` of byte `y * ceil(w / 8) + x / 8` |
| ExportManager.XbmRowBytesRead | src/modules/exportManager.js:159-176 | pixel (x, y) is bit `x % 8` of the same byte, as XBM readers expect |
| ExportManager.MonoCells | src/modules/exportManager.js:79-98 | cell (y, x) is 1 exactly when pixel `y * w + x` is on |
| ExportManager.Color2DCells | src/modules/exportManager.js:189-200 | data shorter than `width * height` makes `colorToHex(undefined)` throw (`None`); otherwise row y holds the words of row y's pixels |
| ExportManager.ColorWords | src/modules/exportManager.js:211-240 | one word per value of the data |
| ExportManager.PaletteFormat | src/modules/exportManager.js:242-253 | the distinct words in order of first use, cut to 256, and each pixel's position in that palette, or -1 |
| ExportManager.PaletteComplete | src/modules/exportManager.js:242-253 | with at most 256 distinct words, every pixel has an index into the palette naming its word |
| ExportManager.ExportSettings.constructor | src/modules/exportManager.js:7-9 | the defaults: standard, monochrome, mono-2d |
| ExportManager.ExportSettings.UpdateSubFormatOptions | src/modules/exportManager.js:380-404 | without the selector nothing changes; otherwise the sub-format resets to the format's default |
| ExportManager.ExportSettings.SelectProtocol | src/modules/exportManager.js:417 | the protocol changes and nothing else does |
| ExportManager.ExportSettings.SelectFormat | src/modules/exportManager.js:427-428 | the format changes and the sub-format is reset |
| ExportManager.ExportSettings.SelectSubFormat | src/modules/exportManager.js:438 | the sub-format changes and nothing else does |
| ExportManager.ExportSettings.SetExportSettingsAsWritten | src/modules/exportManager.js:455-462 | as written, each truthy argument is stored, and then, with the selector present, the sub-format is reset to the format's default |
| ExportManager.ExportSettings.SetExportSettings | src/modules/exportManager.js:455-462 | each truthy argument is stored; the sub-format falls back to the format's default only when none was given |
| ExportManager.ExportSettings.GenerateArduinoCode | src/modules/exportManager.js:32-76 | the format and sub-format pick the generator; an unknown value at either level gives its comment |
| ExportManager.SetExportSettingsLosesSubFormat | src/modules/exportManager.js:455-462 | as written, asking for the colour palette ends with the sub-format at `color-2d` |
| Fonts.FindFont | src/modules/fontManager.js:389-391 | the first font of that name, and none exactly when no font has it |
| Fonts.FindFontIndex | src/modules/saveManager.js:251-255 | the index of the first font of that name, or -1 exactly when there is none |
| Fonts.NameIndex | src/modules/saveManager.js:125 | the first position holding the name, or -1 exactly when none does; the one search behind the font and design lookups |
| SaveManager.DesignIndex | src/modules/saveManager.js:125 | the index of the first design of that name, or -1 exactly when there is none |
| Fonts.Reshape | src/modules/saveManager.js:232-241 | h rows of w cells each |
| Fonts.FlattenReshape | src/modules/fontManager.js:230-242 | flattening a saved character's rows gives back the pixels, with falsy values read as black |
| Fonts.FlattenReshapeFull | src/modules/fontManager.js:230-242 | a full canvas survives a save followed by an edit, up to falsy values |
| Fonts.ReshapeFlatten | src/modules/saveManager.js:232-241 | reshaping the edit path's flat pixels gives back the rows, cut or padded to the first row's width |
| FontManager.CreateKeepsNamesDistinct | src/modules/fontManager.js:32-60 | appending a font under an unused name keeps the names distinct |
| FontManager.DeleteKeepsNamesDistinct | src/modules/fontManager.js:342-356 | deleting a font keeps the names distinct |
| FontManager.Flatten | src/modules/fontManager.js:230-242 | the flatten loop yields the rows one after another, falsy cells read as black |
| FontManager.FontLibrary.constructor | src/modules/fontManager.js:21-24 | no fonts and no edit mode |
| FontManager.FontLibrary.LoadFontsFromStorage | src/modules/fontManager.js:21-24 | the stored list, or an empty one |
| FontManager.FontLibrary.CreateFont | src/modules/fontManager.js:32-60 | a font is created exactly when the trimmed name is non-empty and unused, and then exactly one empty font is appended |
| FontManager.FontLibrary.ToggleFontEdit | src/modules/fontManager.js:190-206 | the edited index leaves edit mode; any other index enters it |
| FontManager.FontLibrary.DeleteFont | src/modules/fontManager.js:342-356 | once confirmed, exactly the font at the index goes and the others keep their order |
| FontManager.FontLibrary.ClearAllFonts | src/modules/fontManager.js:359-370 | once confirmed, the list is emptied |
| FontManager.FontLibrary.SaveFontCharacter | src/modules/fontManager.js:330-339 | only that font's entry for the character changes; a missing font changes nothing |
| FontManager.FontLibrary.GetFontCharacterData | src/modules/fontManager.js:399-402 | null exactly without the font, and the stored rows exactly when the font has the character |
| FontManager.FontLibrary.EditFontCharacter | src/modules/fontManager.js:209-275 | in edit mode a character with data is loaded flattened and one without is started cleared; outside it a character with data starts the type tool and one without gets a message |
| SaveManager.SplitName | src/modules/saveManager.js:56-69 | the greedy `^(.+)_(.+)$` split at the last usable `_` |
| SaveManager.SplitJoined | src/modules/saveManager.js:56-69 | a name built as `font_character` whose character has no `_` splits back into both |
| SaveManager.RouteSave | src/modules/saveManager.js:38-72 | font-edit mode wins, then the `font_character` convention, then the dropdown |
| SaveManager.EmptyChecks | src/modules/saveManager.js:107-111 | a canvas the design saves refuse is refused by the character saves too, but not conversely |
| SaveManager.ReshapeCanvas | src/modules/saveManager.js:232-241 | the reshape loop yields `Fonts.Reshape` |
| SaveManager.SavedCharacterHasData | src/modules/saveManager.js:213-263 | a full canvas that passes the character check keeps a non-black cell once reshaped |
| SaveManager.SaveDesign | src/modules/saveManager.js:97-204 | a trimmed name and a non-empty canvas are required; a used name is overwritten in place and a new one appended |
| SaveManager.SaveDesignFound | src/modules/saveManager.js:97-147 | a save grows the list by at most one, a lookup by the name finds the saved design, and distinct names stay distinct |
| SaveManager.StoreCharacter | src/modules/saveManager.js:263 | only the named font changes, and only under that character |
| SaveManager.StoreThenLookup | src/modules/saveManager.js:251-263 | a stored character is what the font now holds under it; every other entry is untouched |
| SaveManager.WithReferenceLines | src/modules/saveManager.js:711-735 | both positions are stored verbatim on the named font |
| SaveManager.ReferenceLinesRoundTrip | src/modules/saveManager.js:598-735 | saved positions read back unchanged, and no other font's positions move |
| SaveManager.LoadDefaultsOnce | src/modules/saveManager.js:598-642 | a second load finds what the first one saved |
| SaveManager.CharacterSaveStores | src/modules/saveManager.js:295-451 | after a character save the font holds the reshaped canvas under the character |
| SaveManager.SaveSession.constructor | src/modules/saveManager.js:9-12 | no font-edit mode |
| SaveManager.SaveSession.EnterFontEditMode | src/modules/saveManager.js:454-531 | the state becomes (true, font, character), and the name field reads `font_character` |
| SaveManager.SaveSession.ExitFontEditMode | src/modules/saveManager.js:534-564 | the state is back to (false, null, null) and the name is cleared |
| SaveManager.SaveSession.SaveAsComponent | src/modules/saveManager.js:97-147 | the component list becomes `SaveDesign` of the old one |
| SaveManager.SaveSession.SaveAsComposition | src/modules/saveManager.js:150-204 | the composition list becomes `SaveDesign` of the old one |
| SaveManager.SaveSession.SaveCharacterToFont | src/modules/saveManager.js:207-292 | a canvas not empty by the character check is reshaped and stored under the character of the named font |
| SaveManager.SaveSession.SaveCharacter | src/modules/saveManager.js:295-451 | the same store, for the font and character being edited; without them nothing changes |
| SaveManager.SaveSession.HandleSaveButtonClick | src/modules/saveManager.js:38-72 | the save follows `RouteSave` of the trimmed name |
| SaveManager.SaveSession.SaveFontReferenceLinePositions | src/modules/saveManager.js:711-735 | the font list becomes `WithReferenceLines` of the old one |
| SaveManager.SaveSession.LoadFontReferenceLinePositions | src/modules/saveManager.js:598-642 | the stored pair when both are defined; otherwise the defaults, which are then saved |
| TypeManager.JsRem | src/modules/typeManager.js:439 | JavaScript `%`: the remainder takes the sign of the dividend |
| TypeManager.PatchWriteTarget | src/modules/typeManager.js:643-693 | every write of a drawing loop aims at the canvas cell under its patch cell, with that cell's colour |
| TypeManager.PatchWriteExists | src/modules/typeManager.js:643-693 | every canvas cell under a kept patch cell gets a write |
| TypeManager.PatchEffect | src/modules/typeManager.js:643-693 | from a non-negative column, the loops paint exactly the cells under kept patch cells and leave the rest |
| TypeManager.StampedGlyph | src/modules/typeManager.js:643-670 | a stamped glyph puts each non-black cell on the canvas, and nothing else |
| TypeManager.TypeRunAdvance | src/modules/typeManager.js:445-473 | a space advances 8 + spacing, a known glyph 16 + spacing, and an unknown character nothing |
| TypeManager.TypeRunAppend | src/modules/typeManager.js:432-477 | typing `s + t` is typing `s`, then typing `t` from where `s` ended |
| TypeManager.LineStart | src/modules/typeManager.js:696-714 | the first inked column of the cursor's row, or else the cursor's column |
| TypeManager.NextLineCoords | src/modules/typeManager.js:73-96 | Enter moves down by the font height plus one row, to the line's start column |
| TypeManager.ArrowMoves | src/modules/typeManager.js:99-129 | from a cell on the canvas an arrow moves one cell, unless that would leave the canvas |
| TypeManager.TypeTool.constructor | src/modules/typeManager.js:8-15 | no typing mode, no font and no cursor |
| TypeManager.TypeTool.ExitTypingMode | src/modules/typeManager.js:581-587 | typing mode ends and the cursor goes |
| TypeManager.TypeTool.SelectFont | src/modules/typeManager.js:263-275 | the choice is stored; an empty one also leaves typing mode and hides the cursor, and any other keeps both |
| TypeManager.TypeTool.PaintPatch | src/modules/typeManager.js:643-693 | the loops issue exactly `PatchWrites` over the old canvas, which is `Patched` from a non-negative column |
| TypeManager.TypeTool.PlaceCharacterOnCanvas | src/modules/typeManager.js:643-670 | the key's glyph is stamped at the cursor; without a glyph nothing changes |
| TypeManager.TypeTool.ClearCharacterArea | src/modules/typeManager.js:673-693 | the 16 by 16 area at the index is blanked, as far as it is on the canvas |
| TypeManager.TypeTool.TypeTextAtPosition | src/modules/typeManager.js:432-477 | the text's glyphs are laid side by side from the clicked cell |
| TypeManager.TypeTool.ShowTextCursor | src/modules/typeManager.js:590-624 | the cursor moves to the index only when its row is on the canvas |
| TypeManager.TypeTool.HandleTypeClick | src/modules/typeManager.js:410-429 | with a font and the type tool, an empty text field places the cursor, and other text is typed at the cell |
| TypeManager.TypeTool.KeyDown | src/modules/typeManager.js:47-153 | arrows, Backspace and printable keys step the cursor; Enter jumps to the next line; Escape leaves typing mode; outside typing mode nothing changes |
| TypeManager.TypeTool.FindLineStartPosition | src/modules/typeManager.js:696-714 | the scanning loop returns `LineStart` |

## Left out

- Rendering: the DOM, the grid's cell elements, previews, modals, alerts and the export page;
  the model keeps the colour each cell's style would hold.
- Event wiring and timers: listeners, `setTimeout` retries and the 100 ms move guard
  (`justStarted` is a parameter of `ComponentManager.Compositor.Click`).
- Pointer geometry: pixel-to-cell rounding is left out; drags arrive as whole-cell deltas and
  clicks as grid coordinates.
- localStorage: stored font and design lists are fields or parameters; JSON serialisation is not
  modelled.
- The clipboard and the C text templates around the exported numbers: only the numbers, words,
  bytes and tables that the templates print are modelled.
- `Math.sqrt` in the circle brush is modelled as the equivalent integer comparison.
- Browser colour normalisation is modelled for flood fill only: `CanvasOps.Key` reads a cell
  through `CanvasOps.StyleSpelling`, which turns `#rrggbb` and `#rgb` into `rgb(r, g, b)`. Everywhere
  else the model holds colour strings as they were written. The program instead reads cells back
  through `style.backgroundColor` (`getCanvasData` and the history snapshots, canvasManager.js:1441,
  1486). There a cell painted or cleared to black reads `rgb(0, 0, 0)`, and only a cell never set
  reads `#000000`. The model's results agree with the program's only where a check accepts both
  spellings: the export conversions (exportCodeGenerator.js:188, 228, 354, 453, 859, 891;
  `ExportCodeGenerator.RgbSpelling`) and the character-save empty check (saveManager.js:214-222,
  319-327). Named colours, `rgba(...)` and other spellings a browser rewrites are kept as given.
- Read-back black: each comparison listed below tests a cell with `'#000000'` alone. On read-back data
  they take a painted or cleared black cell (`rgb(0, 0, 0)`) for ink, while the model, which holds
  `#000000`, takes it for background. Where such cells occur, these members do not give the
  program's result:
  - the merge of components (canvasManager.js:1535): `Components.Merged`, `Components.MergedAt`,
    `CanvasManager.Canvas.MergeWithComponents`;
  - stamping a component and the component brush (componentManager.js:561, 593):
    `Components.PaintDesign`, `ComponentManager.Compositor.PaintPlaced`,
    `ComponentManager.Compositor.DrawComponentAsBrush`;
  - the black-out of a lifted component (componentManager.js:504):
    `ComponentManager.Compositor.BlackOut`;
  - glyph stamping (typeManager.js:463, 661): `TypeManager.StampedGlyph`,
    `TypeManager.TypeTool.PlaceCharacterOnCanvas`, `TypeManager.TypeTool.TypeTextAtPosition`;
  - the saved-data test of a character (fontManager.js:216):
    `FontManager.FontLibrary.EditFontCharacter`;
  - the empty-canvas test of the design saves (saveManager.js:107, 160): `SaveManager.SaveDesign`,
    `SaveManager.EmptyChecks`;
  - the previous-character test (saveManager.js:463): `SaveManager.SaveSession.EnterFontEditMode`;
  - `isPixelOn` (exportManager.js:322), where only `#000000` and `#000` are off:
    `ExportManager.IsPixelOn`.

  For example, after the canvas is cleared, "save as component" is refused as empty by the model
  (`SaveManager.SaveDesign` gives `EmptyDesign`). The program stores an all-`rgb(0, 0, 0)` design,
  and placing that design blacks out its whole rectangle.
- The current tool, the current colour and component ids (`Date.now() + Math.random()`) are
  parameters; `createdAt` timestamps are not modelled.
- CanvasManager.DrawColor: the colour parameter stands for `window.currentColor`, which no file of
  the program binds (main.js does not, and canvasManager.js:1560 writes it only when it is already
  defined). As written, the draw tool therefore always paints `'#ffffff'` (canvasManager.js:1124);
  the model draws with the given colour.
- CanvasManager.Canvas.FloodFill: the replacement colour parameter stands for a bare
  `currentColor` (canvasManager.js:1243) that no module in scope binds: the declaration at
  canvasManager.js:17 is commented out and toolManager.js:8 is private to its module. As written,
  fill throws a ReferenceError at canvasManager.js:1243 before any cell changes; the model floods
  with the given colour. `CanvasManager.ToolEffect` and `CanvasManager.Canvas.DrawPixel` use the
  same parameters.
- The font-save imports: saveManager.js:6 imports five names that fontManager.js does not export.
  `updateFontCharactersDimensions`, `updateCharacterWidth`, `updateFontCharactersHeight` and
  `getFontsArray` are not defined there at all. `saveFontsToStorage` is defined at fontManager.js:27
  but not exported. Under native ES modules this stops saveManager.js from linking, and with it
  main.js, which imports it statically (main.js:106-111). Under a lenient bundler the names are
  undefined, and `getFontsArray()` throws a TypeError before anything is stored (saveManager.js:246,
  358, 600, 714). The model takes the font list as a parameter and gives the evidently intended
  behaviour; the members below say so one by one.
- SaveManager.SaveSession.SaveCharacterToFont: models the intended store into the font list; the
  program throws at `getFontsArray()` (saveManager.js:246) or does not load. The width and height
  updates that follow (`updateCharacterWidth`, `updateFontCharactersHeight`, saveManager.js:271,
  275) call functions that are not defined anywhere, so what they would change is not modelled.
- SaveManager.SaveSession.SaveCharacter: models the intended store of the glyph under the edited
  character, and nothing more; the program throws at `getFontsArray()` (saveManager.js:358) or does
  not load. The width and height updates (`updateCharacterWidth`, `updateFontCharactersHeight`,
  saveManager.js:405, 415) call functions that are not defined anywhere, so what they would change
  is not modelled.
- SaveManager.SaveSession.LoadFontReferenceLinePositions: models the intended lookup; the program
  throws at `getFontsArray()` (saveManager.js:600) or does not load.
- SaveManager.SaveSession.SaveFontReferenceLinePositions: models the intended update; the program
  throws at `getFontsArray()` (saveManager.js:714) or does not load.
- Window hooks that main.js never binds (`window.clearAllPlacedComponents`,
  `window.saveFontReferenceLinePositions` and others) are treated as
  absent, so the guarded calls are skipped.
- The canvas manager's reference-line setters call an unimported
  `saveFontReferenceLinePositions`, which throws after the value is stored; the model stores
  only.
- `clearCanvas` (canvasManager.js:1307-1313, 1344-1350) only rebinds `window.placedComponents` to a
  fresh array, because `window.clearAllPlacedComponents` is never bound. The component manager's own
  `placedComponents` list and `componentOriginalStates` records survive: `findComponentAtPosition`
  (componentManager.js:333) still finds the cleared components, and the next rebinding
  (componentManager.js:193, 285, 317, 841, 949) brings them back into `getCanvasData`. The model has
  one placed-component list shared by both modules and empties it, so it does not capture those
  components coming back.
- Legacy no-ops and unused functions (`startDragging`, `moveComponent`,
  `updateDraggedComponentPosition`, `storeComponentOriginalState`, `removeComponentPixels`,
  `handleCanvasMouseUp`), the text preview (`showTextPreview`) and saved-list deletion from the
  UI are not modelled.
- main.js, domElements.js, modalManager.js, toolManager.js and test-component.js are not part of
  this model.
- `null` entries in pixel arrays are not modelled; missing entries (`undefined`) are.
- ExportCodeGenerator.CharCode: gives the first character's Unicode code point, where `charCodeAt(0)`
  gives its first UTF-16 unit; the two differ for a character outside the Basic Multilingual Plane.
- JsText.ToUpperAscii: upper-cases `a` to `z` only, where `toUpperCase` maps every Unicode letter
  (and may lengthen the string, as for `ß`). It is applied to hex numbers and to the text after `#`
  in a colour, so the two differ only on a colour string holding a non-ASCII letter.
- ExportManager.SanitizeName: characters outside the Basic Multilingual Plane are single `char`s
  here, where the regular expression sees two UTF-16 units and writes `__`.
- TypeManager.PatchEffect: the closed form is stated only for an origin at a non-negative column.
  A negative column is reached when Backspace moves the keyboard cursor before index 0. There,
  `TypeManager.JsRem` gives a negative `startX` and the loops write into the previous row;
  `TypeManager.TypeTool.PaintPatch` still models that case exactly.
- TypeManager.TypeTool.KeyDown: a printable key is one `char` (`|key| == 1`), a Unicode scalar,
  where `e.key.length === 1` counts UTF-16 units, so a key outside the Basic Multilingual Plane is
  printable here and not in the program.
- TypeManager.TypeTool.KeyDown: Backspace and printable keys step by 14 cells while typed text
  advances by 16; the model keeps both constants as written.
- TypeManager.TypeRunAdvance: the letter spacing is an integer cell count.
- CanvasManager.Canvas.ResizeCanvas: the copy loop and the repositioning are the corrected ones of
  the Findings (`Resize.ResizedCorrected`, `Resize.Repositioned`), which the rest of the model
  builds on. The code as written is `Resize.ResizedAsWritten` and `Resize.RepositionedAsWritten`; the
  method's contract states that it equals them whenever both axes grow or both shrink and whenever
  every component still fits. Outside those cases (a resize that grows one axis and shrinks the
  other, or a component that no longer fits) the method does not give the program's result.
- CanvasManager.Canvas.StopResize: ends a drag with `CanvasManager.Canvas.ResizeCanvas`, so it gives
  the program's result only in the cases named in the line above.
- CanvasManager.ResizeCopy: copies with the corrected lower bound on the destination
  (`Resize.ResizedCorrected`); on a resize that grows one axis and shrinks the other the program's
  copy (`Resize.ResizedAsWritten`) differs.
- CanvasManager.CopyRow: skips destination columns below 0, which the program's loop does not
  (canvasManager.js:1956-1973); it matches the program when the destination column is not negative.
- CanvasManager.RepositionComponents: removes every component that no longer fits, where the
  program's `splice` inside `forEach` skips the component after each removal
  (`Resize.RepositionedAsWritten`, canvasManager.js:2122-2139).
- ExportCodeGenerator.GenerateCode: the `mono-xbm` branch emits the corrected LSB-first bytes of
  `ExportCodeGenerator.ConvertToXbmBytes`. The program emits `convertToBytes`'s MSB-first bytes there
  (`ExportCodeGenerator.XbmAsWrittenMisreads`), which are the bits of each byte in reverse order.
- ExportCodeGenerator.Exportable: the font exports require every present glyph to have a first row.
  On a present glyph without rows the program raises a TypeError at `charData[0].length`
  (exportCodeGenerator.js:163, 340); the model does not cover that error path.

## Findings

| source | as written | input that shows it | evidently intended | confidence | as-written member | corrected member |
|---|---|---|---|---|---|---|
| src/modules/canvasManager.js:1841-1973 | the copy loop bounds the destination only from above, so on a drag that grows one axis and shrinks the other (mixed grow and shrink) a negative destination column wraps into the previous row | 2x1 canvas [a, b], top-left handle dragged to 1x2: the result is [a, b], with the cropped cell `a` at new index 0 | cells whose destination is off the new grid are dropped: [background, b] | not executed | Resize.ResizeWrapsAround, Resize.ResizeAsWrittenDiffers | Resize.ResizeCorrectedClearsCorner, Resize.ResizeWritesEffect, CanvasManager.ResizeCopy, CanvasManager.Canvas.ResizeCanvas |
| src/modules/canvasManager.js:2122-2139 | `splice` inside `forEach` shifts the next component into the removed slot, and `forEach` then skips it | a 4x4 canvas shrunk to 3x3 by its bottom-right handle, with 2x2 components at (2, 0) and (2, 2): the second survives although it does not fit | every component that does not fit is removed | not executed | Resize.RepositionSkipsAfterSplice, Resize.RepositionedAsWritten | Resize.Repositioned, Resize.RepositionedFits, Resize.RepositionedKeeps, CanvasManager.RepositionComponents, CanvasManager.Canvas.ResizeCanvas |
| src/modules/exportCodeGenerator.js:615-655 | XBM data is packed MSB-first by `convertToBytes`, but the emitted display loop reads the bits LSB-first | one ink pixel (`#ffffff`): the byte is 0x80, and the reader's bit for pixel 0 is 0 | LSB-first bytes, as XBM and the emitted reader expect | not executed | ExportCodeGenerator.XbmAsWrittenMisreads | ExportCodeGenerator.ConvertToXbmBytes, ExportCodeGenerator.XbmReadsBack, ExportCodeGenerator.GenerateCode |
| src/modules/exportManager.js:455-462 | `setExportSettings` stores the sub-format and then calls `updateSubFormatOptions`, which resets it to the format's default | `setExportSettings(p, 'color', 'color-palette')` with the selector present leaves `color-2d` | a given sub-format is kept | not executed | ExportManager.ExportSettings.SetExportSettingsAsWritten, ExportManager.SetExportSettingsLosesSubFormat | ExportManager.ExportSettings.SetExportSettings |
