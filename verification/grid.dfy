/** The heatmap grid shared by every stage of the touch pipeline: its fixed
    dimensions, the pixel record, row-major indexing and the 8-neighbourhood. */
module Grid {

  /** Heatmap dimensions of this digitiser generation. */
  const Width: int := 64
  const Height: int := 44
  const Cells: int := Width * Height

  /** Capacities of the fixed-size cluster storage. */
  const MaxClusterSize: int := 128
  const MaxClusters: int := 16

  /** The C code stores coordinates and intensities in `uint8_t`. */
  type u8 = v: int | 0 <= v < 256

  datatype Pixel = Pixel(x: u8, y: u8, value: u8)

  predicate InBounds(x: int, y: int) {
    0 <= x < Width && 0 <= y < Height
  }

  /** Row-major position of a cell, as in `pixels[y * WIDTH + x]`. */
  function Index(x: int, y: int): (i: nat)
    requires InBounds(x, y)
    ensures i < Cells
  {
    y * Width + x
  }

  lemma IndexInjective(x: int, y: int, x': int, y': int)
    requires InBounds(x, y) && InBounds(x', y')
    ensures Index(x, y) == Index(x', y') <==> x == x' && y == y'
  {
  }

  /** Row-major rank of a pixel's own coordinates: the scan visits pixels in this order. */
  function Rank(p: Pixel): int {
    p.y * Width + p.x
  }

  /** A heatmap: one pixel per cell, row-major, each carrying its own coordinates. */
  predicate IsGrid(g: seq<Pixel>) {
    && |g| == Cells
    && forall i :: 0 <= i < |g| ==> InBounds(g[i].x, g[i].y) && Index(g[i].x, g[i].y) == i
  }

  function Cell(g: seq<Pixel>, x: int, y: int): (p: Pixel)
    requires IsGrid(g) && InBounds(x, y)
    ensures p.x == x && p.y == y
  {
    IndexInjective(x, y, g[Index(x, y)].x, g[Index(x, y)].y);
    g[Index(x, y)]
  }

  /** The eight neighbour offsets, in the order ipts.c visits them both when
      testing for a local maximum and when growing a cluster. */
  const Offsets: seq<(int, int)> := [(-1, -1), (-1, 0), (-1, 1), (0, -1), (0, 1), (1, -1), (1, 0), (1, 1)]

  function NeighbourX(x: int, k: int): int
    requires 0 <= k < 8
  {
    x + Offsets[k].0
  }

  function NeighbourY(y: int, k: int): int
    requires 0 <= k < 8
  {
    y + Offsets[k].1
  }

  /** 8-connectivity, stated independently of the offset table. */
  predicate Adjacent(x: int, y: int, x': int, y': int) {
    && -1 <= x' - x <= 1
    && -1 <= y' - y <= 1
    && (x' != x || y' != y)
  }

  /** The offset table enumerates exactly the 8-neighbourhood. */
  lemma OffsetsAreAdjacency(x: int, y: int, x': int, y': int)
    ensures Adjacent(x, y, x', y') <==>
      exists k :: 0 <= k < 8 && x' == NeighbourX(x, k) && y' == NeighbourY(y, k)
  {
    if Adjacent(x, y, x', y') {
      var k :=
        if x' == x - 1 then (if y' == y - 1 then 0 else if y' == y then 1 else 2)
        else if x' == x then (if y' == y - 1 then 3 else 4)
        else (if y' == y - 1 then 5 else if y' == y then 6 else 7);
      assert x' == NeighbourX(x, k) && y' == NeighbourY(y, k);
    }
  }
}
