/** The 128 x 128 tile grids of the ALTM, XTER, XZON and XBLD sections. Each is
    filled from the section's cells in file order with the same flip of the
    second coordinate: the cell at file index `i * 128 + j` goes to tile
    `[i, 127 - j]`. */
module Grid {
  import opened StreamUtils

  const Size: nat := 128
  /** The number of tiles, and so the number of cells a fill needs. */
  const Tiles: nat := 16384

  predicate InGrid(x: int, y: int) {
    0 <= x < Size && 0 <= y < Size
  }

  /** The second coordinate of the tile that column `j` goes to. */
  function Flip(j: int): int { 127 - j }

  /** The index in file order of cell `(i, j)`. */
  function FileIndex(i: int, j: int): int { i * 128 + j }

  /** The file index of the cell that ends up on tile `[x, y]`. */
  function SourceIndex(x: int, y: int): int { FileIndex(x, Flip(y)) }

  /** The tile that the cell at file index `k` ends up on. */
  function TileOf(k: nat): (int, int) { (k / 128, Flip(k % 128)) }

  /** SourceIndex and TileOf are inverse bijections between the tiles and the
      first 16384 file indices. */
  lemma FlipBijective()
    ensures forall x, y :: InGrid(x, y) ==> 0 <= SourceIndex(x, y) < Tiles && TileOf(SourceIndex(x, y)) == (x, y)
    ensures forall k :: 0 <= k < Tiles ==> InGrid(TileOf(k).0, TileOf(k).1) && SourceIndex(TileOf(k).0, TileOf(k).1) == k
  {
    forall x, y | InGrid(x, y)
      ensures 0 <= SourceIndex(x, y) < Tiles && TileOf(SourceIndex(x, y)) == (x, y)
    {
      var k := x * 128 + (127 - y);
      assert k / 128 == x && k % 128 == 127 - y;
    }
    forall k | 0 <= k < Tiles
      ensures InGrid(TileOf(k).0, TileOf(k).1) && SourceIndex(TileOf(k).0, TileOf(k).1) == k
    {
      assert k == (k / 128) * 128 + k % 128;
    }
  }

  /** The grid holds exactly the flipped cells. */
  ghost predicate Filled<T>(grid: array2<T>, cells: seq<T>)
    requires grid.Length0 == Size && grid.Length1 == Size && |cells| >= Tiles
    reads grid
  {
    forall x, y :: InGrid(x, y) ==> grid[x, y] == cells[SourceIndex(x, y)]
  }

  /** The nested fill loop shared by the four grid sections. A section with
      fewer than 16384 cells fails with an index out of range before this point. */
  method Fill<T>(grid: array2<T>, cells: seq<T>)
    requires grid.Length0 == Size && grid.Length1 == Size && |cells| >= Tiles
    modifies grid
    ensures forall i, j :: InGrid(i, j) ==> grid[i, Flip(j)] == cells[FileIndex(i, j)]
    ensures Filled(grid, cells)
  {
    for i := 0 to 128
      invariant forall i', j :: 0 <= i' < i && 0 <= j < 128 ==> grid[i', Flip(j)] == cells[FileIndex(i', j)]
    {
      for j := 0 to 128
        invariant forall i', j' :: 0 <= i' < i && 0 <= j' < 128 ==> grid[i', Flip(j')] == cells[FileIndex(i', j')]
        invariant forall j' :: 0 <= j' < j ==> grid[i, Flip(j')] == cells[FileIndex(i, j')]
      {
        grid[i, Flip(j)] := cells[FileIndex(i, j)];
      }
    }
    forall x, y | InGrid(x, y)
      ensures grid[x, y] == cells[SourceIndex(x, y)]
    {
      assert grid[x, Flip(Flip(y))] == cells[FileIndex(x, Flip(y))];
    }
  }

  /** The grid as a sequence of rows, for specifications. */
  ghost function Rows<T>(grid: array2<T>): (r: seq<seq<T>>)
    requires grid.Length0 == Size && grid.Length1 == Size
    reads grid
    ensures |r| == Size && forall x :: 0 <= x < Size ==> |r[x]| == Size
    ensures forall x, y :: InGrid(x, y) ==> r[x][y] == grid[x, y]
  {
    seq(128, x requires 0 <= x < 128 reads grid => seq(128, y requires 0 <= y < 128 reads grid => grid[x, y]))
  }

  /** The rows that a fill from `cells` produces. */
  function Flipped<T>(cells: seq<T>): (r: seq<seq<T>>)
    requires |cells| >= Tiles
    ensures |r| == Size && forall x :: 0 <= x < Size ==> |r[x]| == Size
    ensures forall x, y :: InGrid(x, y) ==> r[x][y] == cells[SourceIndex(x, y)]
  {
    seq(128, x requires 0 <= x < 128 => seq(128, y requires 0 <= y < 128 => cells[SourceIndex(x, y)]))
  }

  lemma FilledRows<T>(grid: array2<T>, cells: seq<T>)
    requires grid.Length0 == Size && grid.Length1 == Size && |cells| >= Tiles
    requires Filled(grid, cells)
    ensures Rows(grid) == Flipped(cells)
  {
    var r, f := Rows(grid), Flipped(cells);
    forall x | 0 <= x < Size
      ensures r[x] == f[x]
    {
    }
  }

  /** The descriptor loop of the XTER and XBLD sections: one descriptor per
      byte of a MemoryStream over the payload, in order. */
  method ReadEach<T>(raw: seq<byte>, describe: byte -> T) returns (ds: seq<T>)
    ensures |ds| == |raw| && forall k :: 0 <= k < |raw| ==> ds[k] == describe(raw[k])
  {
    var ms := new ByteStream(raw);
    ds := [];
    while ms.pos < |ms.data|
      invariant ms.Valid() && ms.data == raw && |ds| == ms.pos
      invariant forall k :: 0 <= k < |ds| ==> ds[k] == describe(raw[k])
      decreases |ms.data| - ms.pos
    {
      var b := ms.ReadByte();
      ds := ds + [describe(b)];
    }
  }
}
