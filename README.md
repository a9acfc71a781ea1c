# RaycastMapEditor: the tile map, the brush and the saved literal

RaycastMapEditor is a small SDL program for drawing the 24×24 tile map of a
raycasting renderer. This project models its document logic:

- the map of tile IDs;
- the selected brush, which the left and right arrow keys cycle through the
  seven tile IDs `0..6`;
- the mouse click that paints the brush into the cell under the mouse;
- the `s` key, which writes the map as a C array literal
  (`int worldMap[24][24] = { ... };`) that the renderer can paste into its
  own source.

Modules:

- `Tiles` holds the program's constants (`tileSize`, `mapWidth`, `mapHeight`,
  `TILE_TYPES`, `numTileTypes`). It also holds the brush arithmetic, with the
  C++ `%` on `int` written out explicitly (`CppRem`: the remainder takes the
  sign of the dividend), and the properties of cycling.
- `WorldMap` holds the map as a value (`seq<seq<int>>`). It maps a click to
  the cell under it (`ClickTarget`) and gives the map after a click
  (`PaintClick`).
- `Text` holds the decimal text that a C++ stream writes for an `int`. It
  also splits text at a separator and joins pieces with one.
- `MapFormat` holds the exact text that `saveMap` emits (`MapText`), its line
  structure (`SplitMapText`), and a reader (`ParseMap`). The reader is not
  part of the program. It exists only so that the lemmas can show that the
  format keeps every cell (`MapTextRoundTrip`, `MapTextInjective`).
- `Editor` holds the class `MapEditor`, whose two fields are the program's
  globals `currentTileIndex` and `worldMap`. Each key or mouse handler is a
  method that updates those fields in place. Each method is proved against
  the functions above. `Valid()` is the session invariant: the map keeps its
  shape, the brush index stays in range and every cell holds a tile ID.
  `saveMap`'s nested loops, which stream the literal, are the method
  `WriteLiteral`. `SaveMap` adds the branch on whether the file opened.

## Model

| member | source | states |
|---|---|---|
| Tiles.TileTypesAreIds | RaycastMapEditor/Main.cpp:11-12 | there are 7 tile types, and the brush at position i selects tile ID i |
| Tiles.CppRem | RaycastMapEditor/Main.cpp:92-95 | the C++ remainder by a positive divisor lies strictly between -b and b, is non-negative for a non-negative dividend and non-positive for a negative one |
| Tiles.NextTile | RaycastMapEditor/Main.cpp:92 | from an in-range index the right key gives an in-range index: the next one, or 0 after the last |
| Tiles.PrevTile | RaycastMapEditor/Main.cpp:95 | from an in-range index the left key gives an in-range index: the previous one, or the last after 0; adding numTileTypes keeps it from going negative |
| Tiles.StepsAreInverse | RaycastMapEditor/Main.cpp:92-95 | a left step undoes a right step and a right step undoes a left step |
| Tiles.PressRightIsRotation | RaycastMapEditor/Main.cpp:92 | k presses of the right key move an in-range index to (i + k) mod 7 |
| Tiles.PressLeftIsRotation | RaycastMapEditor/Main.cpp:95 | k presses of the left key move an in-range index to (i - k) mod 7 |
| Tiles.FullCycle | RaycastMapEditor/Main.cpp:92-95 | numTileTypes presses of either key bring the brush back to where it started |
| Tiles.PressesStayInRange | RaycastMapEditor/Main.cpp:92-95 | any number of presses of either key keeps the brush index in [0, numTileTypes) |
| WorldMap.EmptyGrid | RaycastMapEditor/Main.cpp:15 | the initial map has mapHeight rows of mapWidth cells, all 0 |
| WorldMap.ClickTarget | RaycastMapEditor/Main.cpp:102-104 | a click hits a cell exactly when its pixel lies within mapWidth·tileSize by mapHeight·tileSize; the cell is on the map and its tile rectangle contains the pixel |
| WorldMap.PaintClick | RaycastMapEditor/Main.cpp:102-105 | after a click the hit cell holds the tile, every other cell is unchanged, and a click off the map changes nothing |
| WorldMap.ClickOffMapIsIgnored | RaycastMapEditor/Main.cpp:104 | a click whose column is at least mapWidth or whose row is at least mapHeight leaves the map as it was |
| WorldMap.PaintKeepsTileIds | RaycastMapEditor/Main.cpp:105 | painting a selectable tile ID keeps every cell a selectable tile ID |
| Text.IntText | RaycastMapEditor/Main.cpp:45 | the text a stream writes for an int is non-empty and contains neither a comma nor a newline |
| Text.IntTextRoundTrip | RaycastMapEditor/Main.cpp:45 | reading the written text of any int gives that int back |
| Text.SplitJoinSep | RaycastMapEditor/Main.cpp:44-47 | pieces joined by a separator they do not contain split back into those pieces |
| MapFormat.MapText | RaycastMapEditor/Main.cpp:41-52 | the text `saveMap` writes, defined piece by piece in the order the stream receives it; it has no contract of its own, and SplitMapText, MapTextNewlines, MapTextRoundTrip and MapTextInjective describe it |
| MapFormat.RowsText | RaycastMapEditor/Main.cpp:42-51 | the text of the first n rows, each row line followed by a newline; it has no contract of its own, and RowsTextIsJoin and RowsTextNewlines describe it |
| MapFormat.HeaderLine | RaycastMapEditor/Main.cpp:41 | the declaration line holds no newline of its own, so it is exactly one line of the saved text |
| MapFormat.ValuesText | RaycastMapEditor/Main.cpp:44-47 | when no cell text holds a newline, the cells written so far hold none either |
| MapFormat.RowBody | RaycastMapEditor/Main.cpp:43-49 | a row line holds no newline, so each row is exactly one line of the saved text |
| MapFormat.ValuesTextCommas | RaycastMapEditor/Main.cpp:44-47 | the cells of a row are separated by exactly one comma each: n commas after n cells mid-row, n - 1 once the row is complete |
| MapFormat.RowBodyCommas | RaycastMapEditor/Main.cpp:43-49 | a row line holds mapWidth - 1 commas, plus one more on every row but the last |
| MapFormat.RowsTextNewlines | RaycastMapEditor/Main.cpp:42-51 | the first n rows hold exactly n newlines |
| MapFormat.MapTextNewlines | RaycastMapEditor/Main.cpp:41-52 | the saved text holds exactly mapHeight + 2 newlines: after the declaration, after each row and after `};` |
| MapFormat.HeaderLineIsLiteral | RaycastMapEditor/Main.cpp:41 | the declaration line is `int worldMap[24][24] = {` |
| MapFormat.ValuesTextStep | RaycastMapEditor/Main.cpp:45-46 | writing one more cell and its comma (none after the last) extends the written cells by exactly that cell |
| MapFormat.RowsTextStep | RaycastMapEditor/Main.cpp:48-50 | closing a row with `}`, a comma except after the last row, and a newline extends the written rows by exactly that row |
| MapFormat.ValuesTextIsJoin | RaycastMapEditor/Main.cpp:44-47 | the cells written so far are their texts joined by commas, followed by a comma while the row is unfinished |
| MapFormat.RowBodyShape | RaycastMapEditor/Main.cpp:43-49 | a row line is `  {`, the row's cells joined by commas with no trailing comma, then `}`, or `},` on every row but the last |
| MapFormat.LinesHaveNoNewline | RaycastMapEditor/Main.cpp:41-52 | no line of the saved text contains a newline of its own |
| MapFormat.SplitMapText | RaycastMapEditor/Main.cpp:41-52 | the saved text is its lines joined by newlines, and split at newlines it is the declaration line, then exactly mapHeight row lines in order, then `};`, then nothing after the final newline |
| MapFormat.ParseRowRoundTrip | RaycastMapEditor/Main.cpp:43-49 | each saved row line reads back as exactly that row |
| MapFormat.MapTextRoundTrip | RaycastMapEditor/Main.cpp:41-52 | reading the saved text back yields exactly the map that was saved |
| MapFormat.MapTextInjective | RaycastMapEditor/Main.cpp:41-52 | two maps are saved as the same text exactly when they are the same map |
| Editor.MapEditor.constructor | RaycastMapEditor/Main.cpp:14-15 | a session starts valid, with brush 0 and an all-zero map |
| Editor.MapEditor.ScrollRight | RaycastMapEditor/Main.cpp:91-93 | the right key keeps the session valid, sets the brush to NextTile of the old brush and leaves the map unchanged |
| Editor.MapEditor.ScrollLeft | RaycastMapEditor/Main.cpp:94-96 | the left key keeps the session valid, sets the brush to PrevTile of the old brush and leaves the map unchanged |
| Editor.MapEditor.Click | RaycastMapEditor/Main.cpp:101-106 | a click keeps the session valid, leaves the brush unchanged and makes the map PaintClick of the old map with the selected tile ID |
| Editor.MapEditor.WriteLiteral | RaycastMapEditor/Main.cpp:41-52 | the nested row and cell loops stream exactly MapText of the map, reading the map without changing it |
| Editor.MapEditor.SaveMap | RaycastMapEditor/Main.cpp:38-59 | when the file opens the text written is MapText of the map, otherwise the open failure is reported; the map and brush are not modified |
| Editor.SaveTwice | RaycastMapEditor/Main.cpp:38-59 | two saves with nothing in between give the same outcome, which is determined by the map alone |
| Editor.PaintedCorners | RaycastMapEditor/Main.cpp:102-105 | clicking tile 1 into the top-left cell and tile 6 into the bottom-right cell of an all-zero map changes those two cells only |
| Editor.PaintCornersAndSave | RaycastMapEditor/Main.cpp:91-106 | a session of right key, click, left key twice, click, save writes exactly MapText of the map that is all 0 except 1 in the top-left cell and 6 in the bottom-right cell, and that text reads back as that map |

## Left out

- SDL initialisation, window and renderer creation, teardown and their error exits (`Main.cpp` lines 62-80 and 115-118): these are foreign library calls.
- `drawGrid` and its tile-colour switch (`Main.cpp` lines 17-36): this is rendering, with no result that the model could state.
- The event polling and frame loop (`Main.cpp` lines 85-113): each event handler is a separate method of `MapEditor` instead, and `PaintCornersAndSave` drives one sequence of them.
- Opening and closing the `std::ofstream` and the console messages of `saveMap`: these are file I/O. Whether the open succeeds is the parameter `fileOpened`, and the text that reaches the file is the returned `Saved(text)`.
- A sprite layer, an edit-mode toggle, erasing with the right button and binary on/off toggling: none of these exist in `Main.cpp`.
- Editor.MapEditor.Click: requires non-negative pixel coordinates. SDL reports clicks inside the window, and the program checks only the upper bounds. The C++ behaviour for negative coordinates is not modelled: truncating division would map -31..-1 to cell 0, and a negative index is undefined behaviour.
- Tiles.CppRem: states the bounds and the sign of the remainder but not that the dividend minus the remainder is a multiple of the divisor. The brush lemmas state the exact results instead.
- Editor.MapEditor: `worldMap` is a sequence of rows that `Click` reassigns, rather than a vector updated in place. Nothing else refers to the map, so no aliasing is lost.
- The `int` cells are unbounded integers. Only the tile IDs 0..6 are ever written, so the 32-bit width never matters.
