/**
 * The map as a value: a grid of tile IDs, mapHeight rows of mapWidth cells,
 * and what a mouse click does to it. The editor object holds the same grid
 * as a sequence of rows; these functions are what its methods are proved against.
 */
module WorldMap {
  import opened Options
  import opened Tiles

  /** A grid of the editor's shape: mapHeight rows of mapWidth cells each. */
  predicate IsGrid(g: seq<seq<int>>)
  {
    |g| == MapHeight && forall y :: 0 <= y < |g| ==> |g[y]| == MapWidth
  }

  /** Every cell holds one of the tile IDs a brush can select. */
  predicate AllTileIds(g: seq<seq<int>>)
    requires IsGrid(g)
  {
    forall y, x :: 0 <= y < MapHeight && 0 <= x < MapWidth ==> 0 <= g[y][x] < NumTileTypes
  }

  /** The map the editor starts with: every cell 0. */
  function EmptyGrid(): (g: seq<seq<int>>)
    ensures IsGrid(g) && AllTileIds(g)
    ensures forall y, x :: 0 <= y < MapHeight && 0 <= x < MapWidth ==> g[y][x] == 0
  {
    seq(MapHeight, y => seq(MapWidth, x => 0))
  }

  /** A cell of the map, by row and column. */
  datatype Cell = Cell(row: int, col: int)

  /**
   * The cell under a mouse click at pixel (px, py), if that cell is on the
   * map. The pixel coordinates are divided by the tile size, as C++ `int`
   * division does for non-negative operands, and only the upper bounds are
   * checked.
   */
  function ClickTarget(px: nat, py: nat): (c: Option<Cell>)
    ensures c.Some? <==> px < MapWidth * TileSize && py < MapHeight * TileSize
    ensures c.Some? ==> 0 <= c.value.row < MapHeight && 0 <= c.value.col < MapWidth
    ensures c.Some? ==> c.value.col * TileSize <= px < (c.value.col + 1) * TileSize
    ensures c.Some? ==> c.value.row * TileSize <= py < (c.value.row + 1) * TileSize
  {
    var col := px / TileSize;
    var row := py / TileSize;
    if col < MapWidth && row < MapHeight then Some(Cell(row, col)) else None
  }

  /**
   * The grid after a click at (px, py) with `tile` selected: the clicked cell
   * holds `tile` and every other cell is as before; a click off the map
   * changes nothing.
   */
  function PaintClick(g: seq<seq<int>>, px: nat, py: nat, tile: int): (r: seq<seq<int>>)
    requires IsGrid(g)
    ensures IsGrid(r)
    ensures forall y, x :: 0 <= y < MapHeight && 0 <= x < MapWidth ==>
      r[y][x] == if ClickTarget(px, py) == Some(Cell(y, x)) then tile else g[y][x]
    ensures ClickTarget(px, py).None? ==> r == g
  {
    match ClickTarget(px, py)
    case None => g
    case Some(c) => g[c.row := g[c.row][c.col := tile]]
  }

  /** A click whose column or row lies past the map's edge leaves the grid as it was. */
  lemma ClickOffMapIsIgnored(g: seq<seq<int>>, px: nat, py: nat, tile: int)
    requires IsGrid(g)
    requires px / TileSize >= MapWidth || py / TileSize >= MapHeight
    ensures PaintClick(g, px, py, tile) == g
  {
  }

  /** Painting a selectable tile ID keeps every cell a selectable tile ID. */
  lemma PaintKeepsTileIds(g: seq<seq<int>>, px: nat, py: nat, tile: int)
    requires IsGrid(g) && AllTileIds(g)
    requires 0 <= tile < NumTileTypes
    ensures AllTileIds(PaintClick(g, px, py, tile))
  {
  }
}
