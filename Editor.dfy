/**
 * The editing session: the map being painted and the selected brush, which
 * the program keeps in globals and updates in place from its event loop.
 * Each key or mouse handler is a method of one editor object.
 */
module Editor {
  import opened Options
  import opened Tiles
  import opened Text
  import opened WorldMap
  import opened MapFormat

  /** What a save produces: the text written to the file, or the report that it could not be opened. */
  datatype SaveOutcome = Saved(text: string) | OpenFailed

  class MapEditor {
    /** Position of the selected brush in TileTypes. */
    var currentTileIndex: int
    /** The map, indexed by row then column; painting a cell replaces that row. */
    var worldMap: seq<seq<int>>

    /** The session invariant: the map keeps its size, the brush index stays in range, every cell holds a tile ID. */
    ghost predicate Valid()
      reads this
    {
      IsGrid(worldMap) && 0 <= currentTileIndex < NumTileTypes && AllTileIds(worldMap)
    }

    /** A new session: an all-zero map and the first brush selected. */
    constructor ()
      ensures Valid()
      ensures currentTileIndex == 0
      ensures worldMap == EmptyGrid()
    {
      currentTileIndex := 0;
      worldMap := EmptyGrid();
    }

    /** The right arrow key selects the next brush, wrapping from the last to the first. */
    method ScrollRight()
      requires Valid()
      modifies this`currentTileIndex
      ensures Valid()
      ensures currentTileIndex == NextTile(old(currentTileIndex))
      ensures worldMap == old(worldMap)
    {
      currentTileIndex := (currentTileIndex + 1) % NumTileTypes;
    }

    /** The left arrow key selects the previous brush, wrapping from the first to the last. */
    method ScrollLeft()
      requires Valid()
      modifies this`currentTileIndex
      ensures Valid()
      ensures currentTileIndex == PrevTile(old(currentTileIndex))
      ensures worldMap == old(worldMap)
    {
      currentTileIndex := (currentTileIndex - 1 + NumTileTypes) % NumTileTypes;
    }

    /**
     * A mouse button press at pixel (px, py) paints the selected tile into the
     * cell under it, if that cell is on the map; nothing else changes.
     */
    method Click(px: int, py: int)
      requires Valid()
      requires px >= 0 && py >= 0
      modifies this`worldMap
      ensures Valid()
      ensures currentTileIndex == old(currentTileIndex)
      ensures worldMap == PaintClick(old(worldMap), px, py, TileTypes[currentTileIndex])
    {
      var mouseX := px / TileSize;
      var mouseY := py / TileSize;
      if mouseX < MapWidth && mouseY < MapHeight {
        worldMap := worldMap[mouseY := worldMap[mouseY][mouseX := TileTypes[currentTileIndex]]];
      }
      PaintKeepsTileIds(old(worldMap), px, py, TileTypes[currentTileIndex]);
    }

    /**
     * The text the save key streams into an opened file: the declaration
     * line, one line per row with the cells separated by commas, and the
     * closing line. The map and the brush are only read.
     */
    method WriteLiteral() returns (text: string)
      requires Valid()
      ensures text == MapText(worldMap)
    {
      var g := worldMap;
      ghost var header := HeaderLine() + "\n";
      text := HeaderLine() + "\n";
      var y := 0;
      while y < MapHeight
        invariant 0 <= y <= MapHeight
        invariant text == header + RowsText(g, y)
      {
        ghost var before := text;
        ghost var texts := IntTexts(g[y]);
        text := text + "  {";
        var x := 0;
        while x < MapWidth
          invariant 0 <= x <= MapWidth
          invariant text == before + "  {" + ValuesText(texts, x)
        {
          ghost var written := text;
          text := text + IntText(g[y][x]);
          if x < MapWidth - 1 {
            text := text + ",";
          }
          ValuesTextStep(before + "  {", texts, x, written, text);
          x := x + 1;
        }
        ghost var done := text;
        text := text + "}";
        if y < MapHeight - 1 {
          text := text + ",";
        }
        text := text + "\n";
        RowsTextStep(header, g, y, done, text);
        y := y + 1;
      }
      text := text + "};\n";
    }

    /**
     * The save key: when the file opens, the map's C array literal is
     * written to it; otherwise the failure is reported. Either way the map
     * and the brush are only read.
     */
    method SaveMap(fileOpened: bool) returns (outcome: SaveOutcome)
      requires Valid()
      ensures outcome == if fileOpened then Saved(MapText(worldMap)) else OpenFailed
    {
      if fileOpened {
        var text := WriteLiteral();
        outcome := Saved(text);
      } else {
        outcome := OpenFailed;
      }
    }
  }

  /**
   * Saving twice with no paint in between produces the same outcome: the
   * text is a function of the map alone, and a save (written or failed)
   * leaves the map as it was.
   */
  method SaveTwice(editor: MapEditor, fileOpened: bool) returns (first: SaveOutcome, second: SaveOutcome)
    requires editor.Valid()
    ensures first == second
    ensures first == if fileOpened then Saved(MapText(editor.worldMap)) else OpenFailed
  {
    first := editor.SaveMap(fileOpened);
    second := editor.SaveMap(fileOpened);
  }

  /** An all-zero map after painting tile 1 into the top-left cell and tile 6 into the bottom-right cell. */
  lemma PaintedCorners(g0: seq<seq<int>>, g1: seq<seq<int>>, g2: seq<seq<int>>, corner: nat)
    requires IsGrid(g0)
    requires forall y, x :: 0 <= y < MapHeight && 0 <= x < MapWidth ==> g0[y][x] == 0
    requires corner == (MapWidth - 1) * TileSize
    requires g1 == PaintClick(g0, 0, 0, 1) && g2 == PaintClick(g1, corner, corner, 6)
    ensures IsGrid(g2)
    ensures g2[0][0] == 1 && g2[MapHeight - 1][MapWidth - 1] == 6
    ensures forall y, x ::
      (0 <= y < MapHeight && 0 <= x < MapWidth && Cell(y, x) != Cell(0, 0) &&
       Cell(y, x) != Cell(MapHeight - 1, MapWidth - 1)) ==> g2[y][x] == 0
  {
  }

  /**
   * A session driven the way the event loop drives it: select tile 1 and
   * click the top-left cell, step back twice to tile 6 and click the
   * bottom-right cell, then save. The saved text is the literal of the map
   * with those two cells painted and every other cell still 0, and it reads
   * back as that map.
   */
  method PaintCornersAndSave() returns (outcome: SaveOutcome)
    ensures outcome.Saved?
    ensures exists g {:trigger MapText(g)} ::
      && IsGrid(g)
      && outcome == Saved(MapText(g))
      && g[0][0] == 1
      && g[MapHeight - 1][MapWidth - 1] == 6
      && forall y, x ::
           (0 <= y < MapHeight && 0 <= x < MapWidth && Cell(y, x) != Cell(0, 0) &&
            Cell(y, x) != Cell(MapHeight - 1, MapWidth - 1)) ==> g[y][x] == 0
    ensures var m := ParseMap(outcome.text);
      && m.Some?
      && m.value[0][0] == 1
      && m.value[MapHeight - 1][MapWidth - 1] == 6
      && forall y, x ::
           (0 <= y < MapHeight && 0 <= x < MapWidth && Cell(y, x) != Cell(0, 0) &&
            Cell(y, x) != Cell(MapHeight - 1, MapWidth - 1)) ==> m.value[y][x] == 0
  {
    var editor := new MapEditor();
    ghost var g0 := editor.worldMap;
    assert g0 == EmptyGrid();
    editor.ScrollRight();
    assert editor.currentTileIndex == 1;
    editor.Click(0, 0);
    ghost var g1 := editor.worldMap;
    assert g1 == PaintClick(g0, 0, 0, 1);
    editor.ScrollLeft();
    editor.ScrollLeft();
    assert editor.currentTileIndex == 6;
    var corner := (MapWidth - 1) * TileSize;
    editor.Click(corner, corner);
    ghost var g2 := editor.worldMap;
    assert g2 == PaintClick(g1, corner, corner, 6);
    outcome := editor.SaveMap(true);
    PaintedCorners(g0, g1, g2, corner);
    MapTextRoundTrip(g2);
    assert ParseMap(outcome.text) == Some(g2);
  }
}
