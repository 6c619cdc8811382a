# Pixel Painter: paint history model

A Dafny model of the single-layer editor state of Pixel Painter's two renderer
scripts, together with proofs about it:

- `docs/app.js` is the web renderer. It has an opacity slider, horizontal,
  vertical and diagonal symmetry, right-button erase and shift-click axis
  placement.
- `app.js` is the Electron renderer. It keeps the same history without symmetry
  or opacity, dispatches Ctrl+Z / Ctrl+Y, and handles the `.pp` project
  commands that the main process sends.

The model keeps what the renderers record. `history` is the ordered list of
paint actions `{x, y, color, alpha}`, and `redoStack` holds undone actions.
Paints drop the oldest entry once `history` passes 1000 entries, and erase splices entries out of it; `redoStack`
is only pushed, popped and emptied. The model also covers the
bounded colour history, the pointer state (`isDrawing`, `isErasing`,
`lastDrawnPos`), the symmetry toggles and axes, and the grid size. The pure
parts are modelled as functions:

- colour parsing;
- the export rectangle arithmetic;
- choosing the image format from a path;
- the acceptance rule of each `.pp` import.

Modules:

| file | module | models |
|---|---|---|
| `wrappers.dfy` | `Wrappers` | `Option`, for `null` / `undefined` |
| `actions.dfy` | `Actions` | paint actions, the 1000 cap, the most-recent-action-per-cell view, erase's splice |
| `symmetry.dfy` | `Symmetry` | the primary and mirrored target cells of one event |
| `colors.dfy` | `Colors` | `hexToRgba`, `updateColorHistory` |
| `export.dfy` | `Export` | export cell rectangles and fills, path-to-format |
| `project.dfy` | `Project` | the parsed `.pp` object, both import rules, export |
| `web_editor.dfy` | `WebEditor` | class `Editor` for `docs/app.js` |
| `desktop_editor.dfy` | `DesktopEditor` | class `Editor` for `app.js` |

The two editors are classes whose fields are the scripts' module-level
variables. Their methods update those fields in place. Most frames list only the
fields the method assigns; the web `MouseDown` and `MouseMove` take all of the
editor and state every field's new value. Paint, erase, undo, redo, resize and import
state their whole new state in terms of the old one. These specification
functions are connected by lemmas:

- `CapOnce`, `Targets`, `EraseAll` and `RemoveLastAt`;
- `Recent`;
- `WebImport` and `DesktopImport`.

The model follows the code, including:

- Mirrors are `2 * axis - c`, and they are **not** de-duplicated. A cell on an
  active axis is pushed, or erased, twice.
- Axes are **not** clamped, whether by resize or by shift-click. A 16 by 16 grid
  with both axes at 8 mirrors (2, 3) to (2, 13), (14, 3) and (14, 13).
- The web renderer drops **one** oldest entry per paint event even when up to
  four were pushed. Its history therefore grows past 1000 under symmetry
  (`Actions.CapDropsOnlyOne`). The desktop renderer pushes one entry and drops
  one, so a history within 1000 stays within 1000 (`Actions.PaintAllIsWindow`);
  an imported history longer than 1000 keeps its length.
- Erase does **not** clear the redo stack. The web import also keeps it, while
  the desktop import empties it.
- An action read from a project without `alpha` keeps it absent. The default
  opacity 1.0 is applied only when drawing (`Export.OpacityOf`).
- Erasing visits the primary cell and then each active mirror that is on the
  grid. `docs/app.js` writes this as four unrolled blocks.
  `WebEditor.Editor.EraseTargets` writes it as a loop over the same list of
  target cells, in the same order, and the behaviour is the same.

## Model

| member | source | states |
|---|---|---|
| `Actions.CapOnce` | app.js:71 | one `shift` once the history passes 1000 entries; what it keeps is stated by `Actions.PaintKeepsNewest` and `Actions.CapDropsOnlyOne` |
| `Actions.PaintKeepsNewest` | app.js:70-71 | from a history within the cap, one paint keeps at most 1000 entries, ends with the new action, and evicts the oldest entry only when the history was full |
| `Actions.CapDropsOnlyOne` | docs/app.js:177-208 | at or above the cap, a paint event that pushed k entries leaves the history k - 1 longer: only the first entry is dropped |
| `Actions.PaintAllIsWindow` | app.js:70-71 | any run of single-cell paints from a history within the cap leaves exactly the newest 1000 actions of the run, in order |
| `Actions.FirstEvictedOnOverflow` | app.js:70-71 | 1001 paints on an empty history keep the last 1000: the first is evicted and the 1001st is last |
| `Actions.LastIndexAt` | docs/app.js:100-105 | the index found is that of an action at the cell with no later action there; none is found exactly when no action is at the cell |
| `Actions.TopAt` | docs/app.js:381-389 | the winning action at a cell is in the history and at that cell; there is none exactly when no action touches the cell |
| `Actions.FindMostRecent` | docs/app.js:100-105 | the backward scan returns the index of the most recent action at the cell, or none |
| `Actions.RemoveLastAt` | docs/app.js:100-105 | the history after one backward scan and splice at a cell; its meaning is stated by `Actions.RemoveLastAtSplices` and `Actions.RemoveLastAtExposes` |
| `Actions.RemoveLastAtSplices` | docs/app.js:100-105 | erase at a cell with no action is a no-op; otherwise it splices out exactly the most recent matching entry, keeps every other entry in order, and shrinks the multiset by that action |
| `Actions.TopAtAppend` | docs/app.js:384-387 | last write wins: a later run of actions decides every cell it touches, and the earlier run decides the rest |
| `Actions.RemoveLastAtExposes` | docs/app.js:100-105 | erasing a cell leaves every other cell's winning action unchanged and exposes the action that was underneath at that cell |
| `Actions.EraseAll` | docs/app.js:100-140 | one splice per target cell, in target order; its effect is stated by `Actions.EraseAllShrinks` |
| `Actions.EraseAllShrinks` | docs/app.js:100-140 | an erase event removes at most one entry per target cell and never adds one; when no target has an entry it changes nothing |
| `Actions.Replay` | docs/app.js:381-389 | the cell-to-action picture of an oldest-first redraw; `Actions.ReplayIsTopAt` shows it agrees with `Actions.TopAt` |
| `Actions.ReplayIsTopAt` | docs/app.js:381-389 | redrawing the history oldest first leaves each cell showing the most recent action there |
| `Symmetry.Targets` | docs/app.js:177-206 | an event touches 1 to 4 cells: first the primary, then only reflections of it across the axes; with the primary on the grid every target is on the grid; a lone primary exactly when no active mirror is in range; the count is one plus one per in-range active mirror plus the diagonal when both are, and the horizontal mirror comes second, the vertical next and the diagonal last, each only when its toggle is on and its reflection is on the grid |
| `Symmetry.TargetsComplete` | docs/app.js:179-206 | every active in-range mirror is targeted, and there are four targets exactly when both toggles are on and both reflections are on the grid |
| `Symmetry.FourWayExample` | docs/app.js:177-206 | on a 16 by 16 grid with both axes at 8, (2, 3) targets (2, 3), (2, 13), (14, 3), (14, 13) in that order |
| `Symmetry.OnAxisTargetedTwice` | docs/app.js:179-187 | a cell on the active horizontal axis is targeted twice: mirrors are not de-duplicated |
| `Colors.FirstHash` | docs/app.js:214 | the position `replace` finds: a `#` with none before it |
| `Colors.StripHash` | docs/app.js:214 | the input itself when it holds no `#`; otherwise one character shorter, with exactly one `#` fewer and every other character kept |
| `Colors.StripHashSplices` | docs/app.js:214 | with a `#` present, the result is the input with exactly its first `#` cut out, the characters on both sides kept in order |
| `Colors.PairValue` | docs/app.js:217-223 | two hex digits read as one channel value, never above 255 |
| `Colors.HexToRgba` | docs/app.js:213-226 | channels lie in 0..255 and the opacity is passed through; any length other than 3 or 6 gives black |
| `Colors.ShortFormDoublesDigits` | docs/app.js:216-219 | a 3-digit colour doubles each digit: each channel is 17 times its digit and equals the 6-digit spelling |
| `Colors.SixDigitRoundTrip` | docs/app.js:220-223 | every `#rrggbb` written from channel values parses back to those values |
| `Colors.MalformedIsBlack` | docs/app.js:213-226 | a 5-digit or empty colour falls back to black rather than failing |
| `Colors.Without` | docs/app.js:230 | the filter removes every copy of the colour and never lengthens the list |
| `Colors.WithoutFacts` | docs/app.js:230 | the filter keeps exactly the other colours, is the identity when the colour is absent, shortens the list when it is present, and keeps a duplicate-free list duplicate-free |
| `Colors.WithoutAppend` | docs/app.js:230 | the filter keeps the relative order of what it keeps: it distributes over concatenation |
| `Colors.Recent` | docs/app.js:228-235 | the result ends with the new colour, stays within 8 entries when the input was, stays duplicate-free, holds only the new colour and old colours, and holds the new colour just once unless it was already last, in which case the history is returned unchanged |
| `Colors.RecentIdempotent` | docs/app.js:229 | recording the same colour twice changes nothing the second time |
| `Colors.RecentKeepsWhileRoom` | docs/app.js:230-232 | below eight entries, or when the colour was already present, no earlier colour is forgotten |
| `Colors.RecentKeepsFilterOrder` | docs/app.js:230-232 | after a fresh pick, the entries before the new last one are exactly the newest entries the filter kept, in order |
| `Colors.RecentEvictsOldest` | docs/app.js:232 | a full list without the colour loses exactly its oldest entry |
| `Export.RoundDiv` | docs/app.js:298-299 | `Math.round(n / d)`: the result is within one half of n / d, with halves rounded up |
| `Export.CeilDiv` | docs/app.js:300-301 | `Math.ceil(n / d)`: the least integer not below n / d |
| `Export.CellRect` | docs/app.js:298-301 | the rounded rectangle of one cell; its meaning is stated by `Export.ExactScaling` and `Export.NoGapBetweenColumns` |
| `Export.ExactScaling` | docs/app.js:297-304 | when the export size is k times the grid, each cell lands at exactly k times its index with size k |
| `Export.NoGapBetweenColumns` | docs/app.js:298-300 | neighbouring columns are in order, and the next starts no further right than this cell's rectangle ends, so no gaps |
| `Export.OpacityOf` | docs/app.js:302 | the action's own opacity, or 1.0 when it has none; used by `Export.ExportFills` |
| `Export.ExportFills` | docs/app.js:295-304 | the export draws a white background over the whole image, then one rectangle per action in history order, with the action's opacity or 1.0 |
| `Export.ExportDimension` | docs/app.js:287-288 | a non-zero parsed size is used; NaN or zero gives exactly the canvas size |
| `Export.AfterLastDot` | app.js:195 | the extension is a dot-free suffix of the path, preceded by a dot when the path has one, and the whole path otherwise |
| `Export.FormatFromPath` | app.js:195-196 | the format chosen for a path; `Export.FormatOfExtension` and `Export.BareNameExample` state which |
| `Export.FormatOfExtension` | app.js:195-196 | whatever the stem, the format is JPEG exactly when the lower-cased extension is `jpg` or `jpeg` |
| `Export.UpperCaseJpegExample` | app.js:195-196 | `art.JPEG` exports as JPEG |
| `Export.BareNameExample` | app.js:195-196 | a path without a dot is its own extension: `jpg` picks JPEG and `photo` picks PNG |
| `Project.Get` | docs/app.js:356 | a present field is the object's own value under that key, and a non-object has none |
| `Project.Truthy` | docs/app.js:356 | JavaScript truthiness of a field; its use is stated by `Project.WebImport` |
| `Project.WebImport` | docs/app.js:354-364 | rejected exactly when the parse failed, the value is null, or `format` or `pixels` is falsy; a truthy `format` with an array `pixels` is accepted with exactly those actions; a truthy non-array `pixels` is carried as is |
| `Project.DesktopImport` | app.js:210-222 | accepted exactly when `format` is `'PixelPainterPP v1'` and `pixels` is an array, whose actions it returns; never takes a non-array |
| `Project.ExportPP` | docs/app.js:315-318 | the `PixelPainterPP v1` object holding the history; `Project.ExportImportRoundTrip` shows both imports take it back |
| `Project.ExportImportRoundTrip` | app.js:201-216 | importing an exported project gives back the same history in both renderers |
| `Project.DesktopStricterThanWeb` | app.js:213 | whatever the desktop import accepts, the web import accepts with the same actions |
| `Project.OtherFormatTagDiffers` | app.js:213 | a project tagged `PixelPainterPP v2` is refused by the desktop import and taken by the web import |
| `WebEditor.Editor.constructor` | docs/app.js:20-35 | the initial state: empty stacks, black current colour and colour history, both toggles off, axes at 8, the given grid size and slider opacity |
| `WebEditor.Editor.ResizeCanvas` | docs/app.js:48-56 | takes the new size and empties history and redo; the axes are left as they were |
| `WebEditor.Editor.UpdateColorHistory` | docs/app.js:228-235 | the colour history becomes `Recent` of the old one and stays a duplicate-free list of one to eight colours |
| `WebEditor.Editor.RemoveMostRecentAt` | docs/app.js:100-105 | one backward scan splices the most recent entry at the cell out of the history |
| `WebEditor.Stamp` | docs/app.js:179-204 | one action per target cell in the current colour and opacity; `WebEditor.Editor.PushTargets` shows the pushes equal it |
| `WebEditor.Editor.PushTargets` | docs/app.js:177-206 | appends one action per target cell, in target order, with the current colour and opacity |
| `WebEditor.Editor.DrawPixel` | docs/app.js:166-211 | a non-forced paint at the last drawn cell changes nothing; otherwise the targets are appended, one entry is dropped past the cap, redo is emptied, the colour becomes most recent and the cell becomes the last drawn |
| `WebEditor.Editor.EraseTargets` | docs/app.js:100-140 | erases the most recent entry at each target cell, in order |
| `WebEditor.Editor.ErasePixel` | docs/app.js:93-143 | erase at the last drawn cell changes nothing; otherwise each target cell loses its most recent entry, redo is untouched and the cell becomes the last drawn |
| `WebEditor.Editor.MouseDown` | docs/app.js:58-77 | the right button starts erasing and erases; shift-click moves only the active axes and changes no history; any other press starts drawing with a forced paint |
| `WebEditor.Editor.MouseMove` | docs/app.js:81-87 | while drawing, paints unless on the last drawn cell; while erasing, erases likewise; otherwise nothing changes |
| `WebEditor.Editor.MouseUp` | docs/app.js:88-92 | ends drawing and erasing and forgets the last drawn cell |
| `WebEditor.Editor.ToggleHorizontalSymmetry` | docs/app.js:391-394 | flips the horizontal toggle |
| `WebEditor.Editor.ToggleVerticalSymmetry` | docs/app.js:395-398 | flips the vertical toggle |
| `WebEditor.Editor.SelectColor` | docs/app.js:245-255 | the picker and a swatch only select the current colour |
| `WebEditor.Editor.SetAlpha` | docs/app.js:261-265 | the opacity is the slider percentage over 100 |
| `WebEditor.Editor.Undo` | docs/app.js:369-374 | moves the last history entry onto the redo stack; a no-op on an empty history |
| `WebEditor.Editor.Redo` | docs/app.js:375-380 | moves the top of the redo stack back onto the history; a no-op on an empty redo stack |
| `WebEditor.Editor.ExportProject` | docs/app.js:314-320 | the exported object carries the history, and the web import takes it back unchanged |
| `WebEditor.Editor.ImportProject` | docs/app.js:349-367 | an accepted object replaces the history and leaves redo alone; a refused one changes nothing |
| `WebEditor.UndoThenRedo` | docs/app.js:369-380 | undo then redo restores history and redo stack exactly |
| `WebEditor.RedoThenUndo` | docs/app.js:369-380 | redo then undo restores history and redo stack exactly |
| `WebEditor.FourWayStrokeThenUndo` | docs/app.js:177-206 | a four-way symmetric press records the primary cell and three mirrors as separate actions, and undo takes back only the last mirror |
| `DesktopEditor.Editor.constructor` | app.js:10-19 | the initial state: empty stacks, black current colour and colour history, the given grid size |
| `DesktopEditor.Editor.ResizeCanvas` | app.js:32-40 | takes the new size and empties history and redo |
| `DesktopEditor.Editor.UpdateColorHistory` | app.js:77-84 | the colour history becomes `Recent` of the old one and stays a duplicate-free list of one to eight colours |
| `DesktopEditor.Editor.DrawPixel` | app.js:62-74 | appends exactly one action, drops the oldest past the cap (so a history within 1000 stays within 1000 and ends with the new action), empties redo and records the colour |
| `DesktopEditor.Editor.MouseDown` | app.js:42-45 | starts drawing and paints |
| `DesktopEditor.Editor.MouseMove` | app.js:46-50 | paints while drawing, even over the same cell; otherwise nothing changes |
| `DesktopEditor.Editor.MouseUp` | app.js:51-60 | ends drawing |
| `DesktopEditor.Editor.SelectColor` | app.js:103-105 | the picker only selects the current colour |
| `DesktopEditor.Editor.SelectSwatch` | app.js:94-98 | a swatch selects its colour and makes it the most recent |
| `DesktopEditor.Editor.Undo` | app.js:146-151 | moves the last history entry onto the redo stack; a no-op on an empty history |
| `DesktopEditor.Editor.Redo` | app.js:153-158 | moves the top of the redo stack back onto the history; a no-op on an empty redo stack |
| `DesktopEditor.Editor.KeyDown` | app.js:171-192 | Ctrl+z undoes, Ctrl+y redoes, and every other key leaves history and redo unchanged |
| `DesktopEditor.Editor.ExportImageFormat` | app.js:194-197 | the format `FormatFromPath` picks for the path, which `Export.FormatOfExtension` shows is JPEG exactly when the lower-cased text after the last dot (the whole path when it has no dot) is `jpg` or `jpeg` |
| `DesktopEditor.Editor.ExportProject` | app.js:201-208 | the exported object carries the history, and the desktop import takes it back unchanged |
| `DesktopEditor.Editor.ImportProject` | app.js:210-223 | an accepted object replaces the history and empties redo; a refused one changes neither |
| `DesktopEditor.UndoThenRedo` | app.js:146-158 | undo then redo restores history and redo stack exactly |
| `DesktopEditor.PaintUndoPaintRedo` | app.js:70-72 | paint, undo, paint, redo leaves exactly the second paint, with nothing to redo |
| `DesktopEditor.ExportThenImport` | app.js:201-216 | exporting and re-importing restores the history and leaves nothing to redo |
| `DesktopEditor.ThousandAndOnePaints` | app.js:70-71 | 1001 paints on a fresh editor leave 1000 actions, those of paints 2 to 1001 in order |

## Left out

- `WebEditor.Editor.ImportProject`: `docs/app.js` also accepts a truthy `pixels` value that is not an array (`Project.AcceptedNonList`). It then stores that value as the history, and later pushes fail. The model cannot hold a non-list history, so it keeps the history unchanged in that case.
- `Colors.HexToRgba`: requires that a 3- or 6-character body consists of hex digits. The result of `parseInt` on other characters (NaN, prefix parsing) is not modelled.
- `Export.FormatOfExtension`: lower-casing covers ASCII letters only. Unicode case mapping by `toLowerCase` is not modelled.
- `Export.ExportFills`: requires a positive grid width and height. Division by a zero or NaN size produces floating-point infinities, which are not modelled.
- `Export.RoundDiv`: exact rational rounding stands in for IEEE double division followed by `Math.round`. Float rounding error on very large coordinates is not modelled.
- Canvas rendering is left out as output-only: `fillRect` / `strokeRect`, the grid, the symmetry-axis guides, `drawPixelsOnly`, `toDataURL` / `toBlob`. The history is kept, and `Actions.TopAt` / `Actions.Replay` stand for the most recent action drawn at each cell.
- Opacity blending is left out because it is floating-point compositing. `alpha` is carried as data in each action.
- The mapping from pointer to cell (`getBoundingClientRect` and float division) is left out. Cell coordinates are parameters.
- `JSON.stringify` / `JSON.parse` text, `FileReader`, `Blob` and download links are left out as browser I/O. Import takes the parsed value, or none when parsing threw. In a parsed value, arrays are modelled only as lists of paint actions.
- The desktop Ctrl+C clipboard copy (app.js:180-191) is left out as a browser API. The model states only that it leaves history and redo alone.
- The desktop image export's pixel drawing is left out because it renders to a canvas. Only the format choice is modelled.
- `localStorage` persistence of the update mode and the DOM swatch rendering are left out as UI only.
- main.js is not part of this model. It holds the window and menu, the save and open dialogs, file reads and writes, and base64 decoding, all host-shell I/O.
- Frames, layers, onion-skinning, sprite sheets, frame bundles, the v2 project format, and repeat-undo or playback timers are absent. These renderer scripts have none of them.
- JavaScript numbers are doubles. Coordinates and sizes are modelled as unbounded integers.
