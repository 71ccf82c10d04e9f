# MapEditor grid-editing core, in Dafny

A model of the editing logic of MapEditor, a Compose Desktop tile-map editor written in Kotlin. A user presses and drags over a tileset image to copy tiles. They tap the editor canvas to paste the copied tile. They save the canvas as a map of destination cells to tileset cells, and they load such a map back.

The model has five modules:

- `Geometry` (`geometry.dfy`) holds the grid coordinates. `IndexPoint` is a cell and `AbsolutePoint` is the top-left pixel of a cell. `ToAbsolutePoint` multiplies by the scaled cell size. `ToIndexPoint` divides a rounded pointer position by it with Kotlin's `Int /`, which truncates toward zero. `TruncDiv` writes that division out, because Dafny's `/` is Euclidean.
- `Tiles` (`tiles.dfy`) holds `CopiedImage`, a bitmap paired with its tileset origin cell. A bitmap carries no pixels. It is named by the extraction that produced it: `SubImage(at)` for `getSubImage`, and `RawSubImage(left, top, size)` for the direct `getSubimage` call in `loadMap`. Keeping the two calls apart as two constructors is a choice of this model; the source only has bitmaps.
- `Persistence` (`persistence.dfy`) holds `SavedMap`, `SavedMap.from` (`From`) and `toPastedImages`, with both round trips.
- `Tileset` (`tileset.dfy`) is the tileset window. The class `TilesetSelector` holds the nullable `originIndexPoint` and `destinationIndexPoint`. It has a press handler and a drag handler. The drag handler copies the rectangle with two nested loops in `CopySelection`, which is proved equal to the set `Selection`. `Highlight` is the red outline.
- `Editor` (`editor.dfy`) is the editor window. The class `EditorState` holds `copiedImage` and `pastedImages`. It has the tap-to-paste handler, `loadMap` and "Save As...".

The scaled cell size (`SCALED_CASE_SIZE`) and the unscaled one (`CASE_SIZE.value`) come from a `Const` object that is not part of this model. Both are positive integer parameters of type `CellSize`. The code uses both: the scaled size for the grid, and the unscaled size for the outline's size and for `loadMap`'s extraction. The model keeps them apart in the same way.

Behaviour of the code worth knowing:

- The code converts pixels to cells by truncating toward zero, not by flooring. Pixels `-s+1 .. -1` therefore land in cell 0 (`IndexZeroSpan`).
- A paste writes the single copied image at the tapped cell. There is no rigid-block paste of a multi-cell selection.
- There is no undo history and no collision layer in this code, so neither is modelled.
- A drag before any press throws (`originIndexPoint!!`). `OnDrag` returns `Failure(NullOrigin)` and leaves the state as it was, because the exception is raised before `destinationIndexPoint` is assigned.
- The tileset window hands the editor a `Set<CopiedImage>`, but the editor stores a single `CopiedImage?`. The model follows the editor: `OnImageCopied` takes one image.

## Model

| member | source | states |
|---|---|---|
| `Geometry.TruncDiv` | src/main/kotlin/Extensions.kt:17-18 | Kotlin `Int /` with a positive divisor: the remainder `a - q*b` lies in `[0, b)` for `a >= 0` and in `(-b, 0]` for `a < 0` |
| `Geometry.TruncDivUnique` | src/main/kotlin/Extensions.kt:17-18 | any `q` whose remainder lies in those intervals is the truncated quotient, so the two bounds define the division |
| `Geometry.ToAbsolutePoint` | src/main/kotlin/Extensions.kt:12-13 | `toAbsolutePoint` takes cell `(0,0)` to pixel `(0,0)` |
| `Geometry.ToAbsolutePointMonotone` | src/main/kotlin/Extensions.kt:12-13 | `toAbsolutePoint` is strictly monotone in each coordinate, in both directions (`a.x < b.x` iff the pixels compare the same way) |
| `Geometry.ToIndexPoint` | src/main/kotlin/Extensions.kt:15-19 | `toIndexPoint` returns the cell whose pixel span holds the position; for a negative position that is not a multiple of S it returns the cell one step nearer zero than the one holding it (truncation); an exact negative multiple `-k*S` gives `-k` |
| `Geometry.IndexOfAbsolutePoint` | src/main/kotlin/Extensions.kt:12-19 | `toIndexPoint(toAbsolutePoint(g)) == g` for every cell, negative ones included |
| `Geometry.IndexOfPixelInCell` | src/main/kotlin/Extensions.kt:15-19 | every pixel `g*S <= p < g*S + S` of a cell with non-negative index resolves to that cell |
| `Geometry.IndexZeroSpan` | src/main/kotlin/Extensions.kt:17-18 | index 0 holds exactly the pixels `-S < p < S`; pixels in `(-S, 0)` give 0, where floor division gives -1 |
| `Tiles.GetSubImage` | src/main/kotlin/Extensions.kt:21-29 | `getSubImage(at)` is known only as the cut made at `at`: the bitmap records that position, so cuts at different positions are different bitmaps |
| `Tiles.Tile` | src/main/kotlin/TilesetWindow.kt:54-57 | the image copied from a tileset cell is tagged with that cell and is the sub-image at the cell's `toAbsolutePoint` (also built at TilesetWindow.kt:84-87 and Extensions.kt:35) |
| `Tiles.TileInjective` | src/main/kotlin/TilesetWindow.kt:82-87 | the copied images of two cells are equal exactly when the cells are |
| `Persistence.From` | src/main/kotlin/SavedMap.kt:8-13 | `SavedMap.from` keeps exactly the keys of the pasted map and stores each destination's image origin |
| `Persistence.ToPastedImages` | src/main/kotlin/Extensions.kt:31-37 | `toPastedImages` has exactly the key set of `points`; each image has origin `points[d]` and is the sub-image at `points[d].toAbsolutePoint()` |
| `Persistence.FromEmpty` | src/main/kotlin/SavedMap.kt:8-13 | saving an empty map gives empty `points` |
| `Persistence.FromIgnoresBitmaps` | src/main/kotlin/SavedMap.kt:11 | two pasted maps with the same keys and origins save identically, whatever their bitmaps |
| `Persistence.SaveAfterLoad` | src/main/kotlin/Extensions.kt:31-37 | `SavedMap.from(s.toPastedImages(img)) == s` |
| `Persistence.LoadIsCanonical` | src/main/kotlin/Extensions.kt:35 | every image `toPastedImages` builds is the sub-image of its own origin |
| `Persistence.LoadAfterSave` | src/main/kotlin/SavedMap.kt:8-13 | loading what was saved gives back the same pasted map when every image is the sub-image of its origin |
| `Tileset.SelectionMembership` | src/main/kotlin/TilesetWindow.kt:73-90 | a drag selection holds exactly the images whose origin lies in `min..max` of both corners on each axis, each cut at its own `toAbsolutePoint` |
| `Tileset.SelectionHasCorners` | src/main/kotlin/TilesetWindow.kt:73-90 | a drag selection holds the pressed cell and the cell under the cursor |
| `Tileset.SelectionSymmetric` | src/main/kotlin/TilesetWindow.kt:73-76 | the selection is the same whichever corner was pressed |
| `Tileset.SelectionOfOneCell` | src/main/kotlin/TilesetWindow.kt:52-59 | a selection whose two corners coincide is the one image a press copies |
| `Tileset.SelectionSize` | src/main/kotlin/TilesetWindow.kt:80-89 | a drag selection has `(abs(d.x-o.x)+1) * (abs(d.y-o.y)+1)` images, one per distinct cell |
| `Tileset.CopySelection` | src/main/kotlin/TilesetWindow.kt:73-90 | the nested `minX..maxX` / `minY..maxY` loops collect exactly the drag selection |
| `Tileset.Highlight` | src/main/kotlin/TilesetWindow.kt:129-152 | outline width is `(abs(dx)+1) * CASE_SIZE` and height `(abs(dy)+1) * CASE_SIZE`; its corner is the absolute point of the min corner; with no destination it is one cell at the origin |
| `Tileset.HighlightAfterPress` | src/main/kotlin/TilesetWindow.kt:61 | right after a press (destination = origin) the outline is the one-cell outline |
| `Tileset.HighlightOutlinesSelection` | src/main/kotlin/TilesetWindow.kt:129-152 | when both cell sizes are equal, a pixel lies inside the outline exactly when it lies in the cell of some image of the drag selection |
| `Tileset.HighlightMisfitsWhenSizesDiffer` | src/main/kotlin/TilesetWindow.kt:129-145 | the outline's size counts `CASE_SIZE.value` per cell while its corner and the cells use `SCALED_CASE_SIZE`, so when the two differ even the one-cell outline after a press disagrees with the pressed cell at the pixel `min(CASE_SIZE, S)` right of its corner |
| `Tileset.Scrolled` | src/main/kotlin/TilesetWindow.kt:48-50 | the pointer position plus the scroll position is the position in tileset coordinates: subtracting the scroll gives the window position back, and with no scroll the two coincide (same sum at TilesetWindow.kt:67-69) |
| `Tileset.TilesetSelector.constructor` | src/main/kotlin/TilesetWindow.kt:25-26 | both corners start null |
| `Tileset.TilesetSelector.OnPress` | src/main/kotlin/TilesetWindow.kt:47-61 | a press at scrolled position `p` sets origin and destination to `toIndexPoint(p)` and copies exactly that cell's image |
| `Tileset.TilesetSelector.OnDrag` | src/main/kotlin/TilesetWindow.kt:65-93 | a drag with no origin fails and changes nothing; otherwise it keeps the origin, records the cursor cell and copies the selection between them |
| `Tileset.TilesetSelector.HighlightRect` | src/main/kotlin/TilesetWindow.kt:119-152 | an outline is drawn exactly when an origin is set, and it is `Highlight` of the two corners; since a press sets both corners and `Valid` keeps them set together, the one-cell branch for a null destination is never taken |
| `Editor.Paste` | src/main/kotlin/EditorWindow.kt:86-88 | the new map holds the copied image at the tapped cell, has the old keys plus that cell, and keeps every other entry |
| `Editor.PasteOverwrites` | src/main/kotlin/EditorWindow.kt:86-88 | pasting twice at one cell leaves only the later image |
| `Editor.SaveAfterPaste` | src/main/kotlin/EditorWindow.kt:86-88 | saving after a paste stores the pasted image's origin at the tapped cell and nothing else changes |
| `Editor.LoadedImages` | src/main/kotlin/EditorWindow.kt:33-45 | `loadMap`'s map has exactly the keys of `points`; each image has origin `points[d]` and is cut at the unscaled pixel `points[d] * caseSizeInt` (without 32-bit wrap-around) |
| `Editor.SaveAfterLoadMap` | src/main/kotlin/EditorWindow.kt:33-45 | saving right after `loadMap(s)` gives back `s` |
| `Editor.LoadMapAgreesWithToPastedImages` | src/main/kotlin/EditorWindow.kt:33-45 | `loadMap` and `toPastedImages` differ only in their bitmaps: both save to the same points |
| `Editor.EditorState.constructor` | src/main/kotlin/EditorWindow.kt:25-26 | nothing copied, nothing pasted |
| `Editor.EditorState.OnImageCopied` | src/main/kotlin/EditorWindow.kt:77-79 | the tileset callback records the copied image and leaves the map alone |
| `Editor.EditorState.OnTap` | src/main/kotlin/EditorWindow.kt:84-90 | with nothing copied a tap leaves the map unchanged; otherwise the map becomes `Paste` of the old map at `toIndexPoint(tap)`, a new map value, so a map held from before the tap is unaffected (`Editor.TapSession` shows it) |
| `Editor.EditorState.LoadMap` | src/main/kotlin/EditorWindow.kt:28-46 | the whole map is replaced by `LoadedImages(s)`, discarding earlier contents; the copied image is kept |
| `Editor.EditorState.SaveAs` | src/main/kotlin/EditorWindow.kt:66-68 | "Save As..." stores each current destination with its image's origin |

## Left out

- Compose UI: windows, menus, scrollbars, gesture detection and rendering. The handlers are methods that take a pointer position that is already rounded, plus the scroll position.
- Floating point: `Offset`, `roundToInt`, the `SCALE` factor and the `Float` outline values. Positions are integers and both cell sizes are positive integers.
- Pixel extraction: `getSubImage`, `asSkiaBitmap`, `toBufferedImage` and `getSubimage` are library calls. A bitmap is named by its extraction arguments. The division by `SCALE` inside `getSubImage` is not modelled, and neither is the exception `getSubimage` throws when the rectangle lies outside the image.
- The outline is drawn at its corner minus the scroll position (`TilesetWindow.kt:154-159`). That subtraction is rendering and is not modelled. `Highlight` gives the outline in tileset coordinates.
- `Tileset.HighlightOutlinesSelection`: proved only when `CASE_SIZE.value` equals `SCALED_CASE_SIZE`. The outline's size counts `CASE_SIZE.value` pixels per cell and ignores `SCALE`, while its corner and the cells use `SCALED_CASE_SIZE`. With any other scale the outline does not cover exactly the selected cells, as `Tileset.HighlightMisfitsWhenSizesDiffer` shows.
- `Geometry.ToAbsolutePoint`: does not model 32-bit `Int` overflow of `x * SCALED_CASE_SIZE`. Integers are unbounded here.
- `Editor.LoadedImages`: does not model the 32-bit wrap of `origin.x * caseSizeInt` and `origin.y * caseSizeInt` in `loadMap` (EditorWindow.kt:35-36). For an origin read from a file with a coordinate beyond `2^31 / caseSizeInt` the source cuts at the wrapped pixel, while the model records the unbounded product.
- File I/O and dialogs (`FileUtil.kt`, the `FileDialog` blocks, `readText`, `writeText`) and JSON encoding are left out. Only the `points` map is modelled.
- The mapping in `Main.kt:9-13` repeats `SavedMap.from`. `Editor.EditorState.SaveAs` uses `From` for it.
- Undo history, collision toggling and multi-tile block pasting do not exist in this code.
- `IndexPoint.kt` has no behaviour. It is the `IndexPoint` datatype. Its default arguments `(0, 0)` are not modelled.
