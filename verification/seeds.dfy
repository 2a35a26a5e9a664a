/** Seed detection: `is_brightest` (ipts.c:129-145) and the row-major order
    in which the scan at ipts.c:330-339 meets the seeds. */
module Seeds {
  import opened Grid

  /** The neighbour checks of `is_brightest` from offset k on: none of the
      in-bounds neighbours is strictly brighter than (x, y). */
  function NoBrighterFrom(g: seq<Pixel>, x: int, y: int, k: int): bool
    requires IsGrid(g) && InBounds(x, y) && 0 <= k <= 8
    decreases 8 - k
  {
    if k == 8 then true
    else
      var nx, ny := NeighbourX(x, k), NeighbourY(y, k);
      && (InBounds(nx, ny) ==> !(Cell(g, x, y).value < Cell(g, nx, ny).value))
      && NoBrighterFrom(g, x, y, k + 1)
  }

  lemma {:induction false} NoBrighterFromAll(g: seq<Pixel>, x: int, y: int, k: int)
    requires IsGrid(g) && InBounds(x, y) && 0 <= k <= 8
    ensures NoBrighterFrom(g, x, y, k) <==>
      forall j :: k <= j < 8 && InBounds(NeighbourX(x, j), NeighbourY(y, j)) ==>
        Cell(g, NeighbourX(x, j), NeighbourY(y, j)).value <= Cell(g, x, y).value
    decreases 8 - k
  {
    if k < 8 {
      NoBrighterFromAll(g, x, y, k + 1);
    }
  }

  /** `is_brightest`: the cell is lit and the neighbour checks all pass. */
  function IsBrightest(g: seq<Pixel>, x: int, y: int): bool
    requires IsGrid(g) && InBounds(x, y)
  {
    Cell(g, x, y).value != 0 && NoBrighterFrom(g, x, y, 0)
  }

  /** A seed is a lit cell with no strictly brighter 8-neighbour; equal
      neighbours do not disqualify each other, so a plateau yields several seeds. */
  lemma IsBrightestExact(g: seq<Pixel>, x: int, y: int)
    requires IsGrid(g) && InBounds(x, y)
    ensures IsBrightest(g, x, y) <==>
      && Cell(g, x, y).value != 0
      && forall x', y' :: InBounds(x', y') && Adjacent(x, y, x', y') ==>
        Cell(g, x', y').value <= Cell(g, x, y).value
  {
    NoBrighterFromAll(g, x, y, 0);
    forall x', y' | InBounds(x', y') && Adjacent(x, y, x', y')
      ensures exists j :: 0 <= j < 8 && x' == NeighbourX(x, j) && y' == NeighbourY(y, j)
    {
      OffsetsAreAdjacency(x, y, x', y');
    }
    forall j | 0 <= j < 8
      ensures Adjacent(x, y, NeighbourX(x, j), NeighbourY(y, j))
    {
      OffsetsAreAdjacency(x, y, NeighbourX(x, j), NeighbourY(y, j));
    }
  }

  /** The seeds among cells i.. of the grid, in row-major order. */
  function SeedsFrom(g: seq<Pixel>, i: int): (s: seq<Pixel>)
    requires IsGrid(g) && 0 <= i <= |g|
    ensures forall a :: 0 <= a < |s| ==> InBounds(s[a].x, s[a].y)
    decreases |g| - i
  {
    if i == |g| then []
    else
      var rest := SeedsFrom(g, i + 1);
      if IsBrightest(g, g[i].x, g[i].y) then [g[i]] + rest else rest
  }

  /** Every listed seed is the grid's own pixel at its coordinates, and a seed. */
  lemma {:induction false} SeedsFromCells(g: seq<Pixel>, i: int)
    requires IsGrid(g) && 0 <= i <= |g|
    ensures forall a :: 0 <= a < |SeedsFrom(g, i)| ==>
      && SeedsFrom(g, i)[a] == Cell(g, SeedsFrom(g, i)[a].x, SeedsFrom(g, i)[a].y)
      && IsBrightest(g, SeedsFrom(g, i)[a].x, SeedsFrom(g, i)[a].y)
    decreases |g| - i
  {
    if i < |g| {
      var s := SeedsFrom(g, i);
      var rest := SeedsFrom(g, i + 1);
      SeedsFromCells(g, i + 1);
      assert Cell(g, g[i].x, g[i].y) == g[i];
      if IsBrightest(g, g[i].x, g[i].y) {
        assert s == [g[i]] + rest;
        forall a | 0 < a < |s|
          ensures s[a] == rest[a - 1]
        {
        }
      } else {
        assert s == rest;
      }
    }
  }

  /** The seeds listed from cell i on lie at or after cell i, in strictly
      increasing row-major rank. */
  lemma {:induction false} SeedsFromRanks(g: seq<Pixel>, i: int)
    requires IsGrid(g) && 0 <= i <= |g|
    ensures forall a :: 0 <= a < |SeedsFrom(g, i)| ==> i <= Rank(SeedsFrom(g, i)[a])
    ensures forall a, b :: 0 <= a < b < |SeedsFrom(g, i)| ==>
      Rank(SeedsFrom(g, i)[a]) < Rank(SeedsFrom(g, i)[b])
    decreases |g| - i
  {
    if i < |g| {
      var s := SeedsFrom(g, i);
      var rest := SeedsFrom(g, i + 1);
      SeedsFromRanks(g, i + 1);
      assert Rank(g[i]) == i;
      if IsBrightest(g, g[i].x, g[i].y) {
        assert s == [g[i]] + rest;
        forall a | 0 < a < |s|
          ensures s[a] == rest[a - 1]
        {
        }
      } else {
        assert s == rest;
      }
    }
  }

  function AllSeeds(g: seq<Pixel>): seq<Pixel>
    requires IsGrid(g)
  {
    SeedsFrom(g, 0)
  }

  /** Every seed of the grid appears in the list. */
  lemma {:induction false} SeedsFromComplete(g: seq<Pixel>, i: int, x: int, y: int)
    requires IsGrid(g) && 0 <= i <= |g| && InBounds(x, y)
    requires i <= Index(x, y) && IsBrightest(g, x, y)
    ensures Cell(g, x, y) in SeedsFrom(g, i)
    decreases |g| - i
  {
    if i < Index(x, y) {
      SeedsFromComplete(g, i + 1, x, y);
    }
  }

  /** The seed list holds exactly the seeds of the grid, each once, in row-major order. */
  lemma SeedsExact(g: seq<Pixel>)
    requires IsGrid(g)
    ensures forall x, y :: InBounds(x, y) ==> (Cell(g, x, y) in AllSeeds(g) <==> IsBrightest(g, x, y))
    ensures forall a, b :: 0 <= a < b < |AllSeeds(g)| ==> Rank(AllSeeds(g)[a]) < Rank(AllSeeds(g)[b])
  {
    var s := AllSeeds(g);
    SeedsFromCells(g, 0);
    SeedsFromRanks(g, 0);
    forall x, y | InBounds(x, y)
      ensures Cell(g, x, y) in s <==> IsBrightest(g, x, y)
    {
      if IsBrightest(g, x, y) {
        SeedsFromComplete(g, 0, x, y);
      }
      if Cell(g, x, y) in s {
        var a :| 0 <= a < |s| && s[a] == Cell(g, x, y);
        assert s[a].x == x && s[a].y == y;
      }
    }
  }

  /** A dark heatmap has no seeds, so the scan starts no cluster. */
  lemma {:induction false} DarkHeatmapHasNoSeeds(g: seq<Pixel>, i: int)
    requires IsGrid(g) && 0 <= i <= |g|
    requires forall j :: 0 <= j < |g| ==> g[j].value == 0
    ensures SeedsFrom(g, i) == []
    decreases |g| - i
  {
    if i < |g| {
      DarkHeatmapHasNoSeeds(g, i + 1);
    }
  }
}
