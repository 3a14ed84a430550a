/** Cutting a tiled picture into its distinct tiles and describing the
    picture as a grid of tile ids. The picture itself is abstract: a crop
    function from a pixel box to a tile value, compared by equality. */
module Processor {
  import opened Directions
  import opened Adjacency

  /** A pixel box (left, upper, right, lower). */
  type Box = (int, int, int, int)

  /** Integer division rounding toward minus infinity, as Python's //. */
  function FloorDiv(a: int, b: int): int
    requires b != 0
  {
    if b > 0 then a / b else (-a) / (-b)
  }

  /** The tile at tile position p of a picture cut into x-by-y tiles. */
  function CropAt<T>(crop: Box -> T, x: int, y: int, p: Pos): T {
    crop((p.0 * x, p.1 * y, p.0 * x + x, p.1 * y + y))
  }

  predicate InRect(p: Pos, col: int, row: int) {
    0 <= p.0 < col && 0 <= p.1 < row
  }

  /** p is visited before q by product(range(col), range(row)). */
  predicate ScanBefore(p: Pos, q: Pos) {
    p.0 < q.0 || (p.0 == q.0 && p.1 < q.1)
  }

  /** p is a tile position the scan has visited before reaching (i, j). */
  predicate Processed(p: Pos, col: int, row: int, i: int, j: int) {
    InRect(p, col, row) && ScanBefore(p, (i, j))
  }

  predicate NoDuplicates<T(==)>(s: seq<T>) {
    forall a, b :: 0 <= a < b < |s| ==> s[a] != s[b]
  }

  /** tiles lists the tiles at the positions the scan has visited before
      (i, j), each once, in order of first occurrence: firsts[a] is the
      position where tiles[a] is first met. */
  ghost predicate FirstOccurrences<T>(tiles: seq<T>, firsts: seq<Pos>, crop: Box -> T, x: int, y: int,
                                      col: int, row: int, i: int, j: int) {
    && |firsts| == |tiles|
    && (forall a :: 0 <= a < |tiles| ==>
          Processed(firsts[a], col, row, i, j) && CropAt(crop, x, y, firsts[a]) == tiles[a])
    && (forall a, b :: 0 <= a < b < |tiles| ==> ScanBefore(firsts[a], firsts[b]))
    && (forall a, q :: 0 <= a < |tiles| && InRect(q, col, row) && ScanBefore(q, firsts[a]) ==>
          CropAt(crop, x, y, q) != tiles[a])
    && (forall p :: Processed(p, col, row, i, j) ==> CropAt(crop, x, y, p) in tiles)
  }

  /** A list of first occurrences repeats no tile. */
  lemma FirstOccurrencesDistinct<T>(tiles: seq<T>, firsts: seq<Pos>, crop: Box -> T, x: int, y: int,
                                    col: int, row: int, i: int, j: int)
    requires FirstOccurrences(tiles, firsts, crop, x, y, col, row, i, j)
    ensures NoDuplicates(tiles)
  {
  }

  /** _image_to_tiles: scan the tile positions and keep each tile the first
      time it is met. */
  method ImageToTiles<T(==)>(crop: Box -> T, x: int, y: int, col: int, row: int) returns (tiles: seq<T>, ghost firsts: seq<Pos>)
    ensures FirstOccurrences(tiles, firsts, crop, x, y, col, row, col, 0)
    ensures NoDuplicates(tiles)
  {
    tiles, firsts := [], [];
    var i := 0;
    while i < col
      invariant i == 0 || i <= col
      invariant FirstOccurrences(tiles, firsts, crop, x, y, col, row, i, 0)
    {
      var j := 0;
      while j < row
        invariant j == 0 || j <= row
        invariant FirstOccurrences(tiles, firsts, crop, x, y, col, row, i, j)
      {
        var u := i * x;
        var v := j * y;
        var box := (u, v, u + x, v + y);
        var c := crop(box);
        assert c == CropAt(crop, x, y, (i, j));
        if c !in tiles {
          tiles, firsts := tiles + [c], firsts + [(i, j)];
        }
        j := j + 1;
      }
      i := i + 1;
    }
    FirstOccurrencesDistinct(tiles, firsts, crop, x, y, col, row, col, 0);
  }

  /** The first index of t in s, as list.index. */
  function IndexOf<T(==)>(s: seq<T>, t: T): (i: nat)
    requires t in s
    ensures i < |s| && s[i] == t
    ensures forall j :: 0 <= j < i ==> s[j] != t
  {
    if s[0] == t then 0 else 1 + IndexOf(s[1..], t)
  }

  /** The loop of mapping: every tile position of the picture gets the
      first index of its tile in the list. */
  method IdGrid<T(==)>(crop: Box -> T, x: int, y: int, col: int, row: int, tiles: seq<T>) returns (cells: map<Pos, int>)
    requires forall p :: InRect(p, col, row) ==> CropAt(crop, x, y, p) in tiles
    ensures forall p :: p in cells <==> InRect(p, col, row)
    ensures forall p :: p in cells ==> CropAt(crop, x, y, p) in tiles && cells[p] == IndexOf(tiles, CropAt(crop, x, y, p))
  {
    cells := map[];
    var i := 0;
    while i < col
      invariant i == 0 || i <= col
      invariant forall p :: p in cells <==> Processed(p, col, row, i, 0)
      invariant forall p :: p in cells ==> CropAt(crop, x, y, p) in tiles && cells[p] == IndexOf(tiles, CropAt(crop, x, y, p))
    {
      var j := 0;
      while j < row
        invariant j == 0 || j <= row
        invariant forall p :: p in cells <==> Processed(p, col, row, i, j)
        invariant forall p :: p in cells ==> CropAt(crop, x, y, p) in tiles && cells[p] == IndexOf(tiles, CropAt(crop, x, y, p))
      {
        var tile := CropAt(crop, x, y, (i, j));
        cells := cells[(i, j) := IndexOf(tiles, tile)];
        j := j + 1;
      }
      i := i + 1;
    }
  }

  class TiledImageProcessor<T(==)> {
    const crop: Box -> T
    const w: int
    const h: int
    const x: int
    const y: int
    const col: int
    const row: int
    const tileList: seq<T>
    const n: nat
    /** Where each listed tile first occurs in the scan. */
    ghost const firstAt: seq<Pos>

    ghost predicate Valid() {
      && x != 0 && y != 0
      && col == FloorDiv(w, x) && row == FloorDiv(h, y)
      && n == |tileList|
      && FirstOccurrences(tileList, firstAt, crop, x, y, col, row, col, 0)
      && NoDuplicates(tileList)
    }

    /** A w-by-h picture cut into tiles tileX pixels wide and tileY high. */
    constructor (crop: Box -> T, w: nat, h: nat, tileX: int, tileY: int)
      requires tileX != 0 && tileY != 0
      ensures Valid()
      ensures this.crop == crop && this.w == w && this.h == h && this.x == tileX && this.y == tileY
    {
      var col := FloorDiv(w, tileX);
      var row := FloorDiv(h, tileY);
      var tiles, firsts := ImageToTiles(crop, tileX, tileY, col, row);
      this.crop := crop;
      this.w, this.h := w, h;
      this.x, this.y := tileX, tileY;
      this.col, this.row := col, row;
      this.tileList := tiles;
      this.firstAt := firsts;
      this.n := |tiles|;
    }

    /** tile_id: the position of a known tile in the tile list. */
    function TileId(tile: T): (i: nat)
      requires tile in tileList
      ensures i < |tileList| && tileList[i] == tile
      ensures forall j :: 0 <= j < i ==> tileList[j] != tile
    {
      IndexOf(tileList, tile)
    }

    /** Since the list has no repetitions, every listed tile's id is its index. */
    lemma TileIdOfIndex(i: int)
      requires Valid() && 0 <= i < |tileList|
      ensures TileId(tileList[i]) == i
    {
    }

    /** Every tile of the picture is in the list. */
    lemma TilesCoverPicture()
      requires Valid()
      ensures forall p :: InRect(p, col, row) ==> CropAt(crop, x, y, p) in tileList
    {
      forall p | InRect(p, col, row)
        ensures CropAt(crop, x, y, p) in tileList
      {
        assert Processed(p, col, row, col, 0);
      }
    }

    /** mapping: the grid of tile ids of the picture, position (i, j) for
        i < col and j < row, a form the generator accepts for training. */
    method Mapping() returns (g: Grid)
      requires Valid()
      ensures g.row == row && g.col == col
      ensures forall p :: p in g.cells <==> InRect(p, col, row)
      ensures forall p :: p in g.cells ==>
                && 0 <= g.cells[p] < n
                && tileList[g.cells[p]] == CropAt(crop, x, y, p)
                && g.cells[p] == TileId(CropAt(crop, x, y, p))
      ensures Trainable(g, n)
      ensures g.cells.Keys == Scanned(g.col, g.row)
    {
      TilesCoverPicture();
      var cells := IdGrid(crop, x, y, col, row, tileList);
      g := Grid(row, col, cells);
      assert forall u, v :: 0 <= u < g.col && 0 <= v < g.row ==> InRect((u, v), col, row);
      forall p ensures p in g.cells <==> p in Scanned(g.col, g.row) {
        InScanned(p, g.col, g.row);
      }
    }
  }
}
