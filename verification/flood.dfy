/** Region growing: `assign_group_dimmer` (ipts.c:96-126), mirrored as a
    recursive function that threads the cluster's pixel list through the
    eight neighbour calls in source order. */
module Flood {
  import opened Grid

  /** The linear membership scan of ipts.c:101-103. */
  predicate Has(c: seq<Pixel>, x: int, y: int) {
    exists i :: 0 <= i < |c| && c[i].x == x && c[i].y == y
  }

  /** No coordinate occurs twice in a cluster. */
  predicate Distinct(c: seq<Pixel>) {
    forall i, j :: 0 <= i < j < |c| ==> c[i].x != c[j].x || c[i].y != c[j].y
  }

  /** The four early returns of ipts.c:98-108: the cluster is full, already
      holds the cell, the cell is dark, or it is brighter than the threshold. */
  predicate Refused(g: seq<Pixel>, c: seq<Pixel>, x: int, y: int, t: int)
    requires IsGrid(g) && InBounds(x, y)
  {
    || |c| >= MaxClusterSize
    || Has(c, x, y)
    || Cell(g, x, y).value == 0
    || Cell(g, x, y).value > t
  }

  /** `assign_group_dimmer(pixels, x, y, cluster, t)`: admit (x, y) unless
      refused, then recurse into its neighbours with its own value as threshold. */
  function Grow(g: seq<Pixel>, x: int, y: int, c: seq<Pixel>, t: int): (r: seq<Pixel>)
    requires IsGrid(g) && InBounds(x, y) && |c| <= MaxClusterSize
    ensures |c| <= |r| <= MaxClusterSize && r[..|c|] == c
    decreases MaxClusterSize - |c|, 0
  {
    if Refused(g, c, x, y, t) then c
    else GrowAround(g, x, y, 0, c + [Cell(g, x, y)])
  }

  /** The neighbour calls of ipts.c:114-125 from offset k on; each one sees
      the cluster as the previous calls left it. */
  function GrowAround(g: seq<Pixel>, x: int, y: int, k: int, c: seq<Pixel>): (r: seq<Pixel>)
    requires IsGrid(g) && InBounds(x, y) && 0 <= k <= 8 && |c| <= MaxClusterSize
    ensures |c| <= |r| <= MaxClusterSize && r[..|c|] == c
    decreases MaxClusterSize - |c|, 9 - k
  {
    if k == 8 then c
    else
      var nx, ny := NeighbourX(x, k), NeighbourY(y, k);
      var c' := if InBounds(nx, ny) then Grow(g, nx, ny, c, Cell(g, x, y).value) else c;
      var r := GrowAround(g, x, y, k + 1, c');
      assert r[..|c|] == r[..|c'|][..|c|];
      r
  }

  /** Entries lo.. of c are copies of lit grid pixels no brighter than t. */
  predicate CopiesFrom(g: seq<Pixel>, c: seq<Pixel>, lo: int, t: int)
    requires IsGrid(g)
  {
    forall i :: 0 <= lo <= i < |c| ==>
      && InBounds(c[i].x, c[i].y)
      && c[i] == Cell(g, c[i].x, c[i].y)
      && 0 < c[i].value <= t
  }

  /** Entry i was reached from an earlier entry, at or after root, that is
      8-adjacent to it and at least as bright. */
  predicate HasParent(c: seq<Pixel>, root: int, i: int)
    requires 0 <= i < |c|
  {
    exists j :: 0 <= root <= j < i && Adjacent(c[j].x, c[j].y, c[i].x, c[i].y) && c[i].value <= c[j].value
  }

  /** Entries lo..hi of c all descend from entries at or after root. */
  predicate Descends(c: seq<Pixel>, root: int, lo: int, hi: int)
    requires hi <= |c|
  {
    forall i :: 0 <= lo <= i < hi ==> HasParent(c, root, i)
  }

  /** Every in-bounds neighbour of the entries lo.. of m is refused by the
      cluster r under that entry's own value: the fill stopped there for a reason. */
  predicate Closed(g: seq<Pixel>, m: seq<Pixel>, lo: int, r: seq<Pixel>)
    requires IsGrid(g)
  {
    forall i, k :: 0 <= lo <= i < |m| && 0 <= k < 8 ==>
      var nx, ny := NeighbourX(m[i].x, k), NeighbourY(m[i].y, k);
      InBounds(nx, ny) ==> Refused(g, r, nx, ny, m[i].value)
  }

  /** A refusal stays a refusal when the cluster only grows. */
  lemma RefusedPersists(g: seq<Pixel>, c: seq<Pixel>, r: seq<Pixel>, x: int, y: int, t: int)
    requires IsGrid(g) && InBounds(x, y)
    requires |c| <= |r| && r[..|c|] == c
    requires Refused(g, c, x, y, t)
    ensures Refused(g, r, x, y, t)
  {
    if Has(c, x, y) {
      var i :| 0 <= i < |c| && c[i].x == x && c[i].y == y;
      assert r[i] == c[i];
    }
  }

  /** Closure judged against a cluster carries over to every extension of it. */
  lemma ClosedPersists(g: seq<Pixel>, m: seq<Pixel>, lo: int, c: seq<Pixel>, r: seq<Pixel>)
    requires IsGrid(g)
    requires |c| <= |r| && r[..|c|] == c
    requires Closed(g, m, lo, c)
    ensures Closed(g, m, lo, r)
  {
    forall i, k | 0 <= lo <= i < |m| && 0 <= k < 8 && InBounds(NeighbourX(m[i].x, k), NeighbourY(m[i].y, k))
      ensures Refused(g, r, NeighbourX(m[i].x, k), NeighbourY(m[i].y, k), m[i].value)
    {
      RefusedPersists(g, c, r, NeighbourX(m[i].x, k), NeighbourY(m[i].y, k), m[i].value);
    }
  }

  /** One call either refuses its cell and returns the cluster unchanged, or
      appends the cell first; afterwards the cell is refused in any case. */
  lemma GrowEntry(g: seq<Pixel>, x: int, y: int, c: seq<Pixel>, t: int)
    requires IsGrid(g) && InBounds(x, y) && |c| <= MaxClusterSize
    ensures var r := Grow(g, x, y, c, t);
      && (|r| == |c| <==> Refused(g, c, x, y, t))
      && (|r| > |c| ==> r[|c|] == Cell(g, x, y) && Cell(g, x, y).value <= t)
      && Refused(g, r, x, y, t)
  {
    var r := Grow(g, x, y, c, t);
    if !Refused(g, c, x, y, t) {
      var c0 := c + [Cell(g, x, y)];
      assert r[..|c0|] == c0;
      assert r[|c|] == c0[|c|];
      assert Has(r, x, y);
    }
  }

  /** The cluster never holds a coordinate twice. */
  lemma {:induction false} GrowDistinct(g: seq<Pixel>, x: int, y: int, c: seq<Pixel>, t: int)
    requires IsGrid(g) && InBounds(x, y) && |c| <= MaxClusterSize
    requires Distinct(c)
    ensures Distinct(Grow(g, x, y, c, t))
    decreases MaxClusterSize - |c|, 0
  {
    if !Refused(g, c, x, y, t) {
      var c0 := c + [Cell(g, x, y)];
      assert Distinct(c0);
      GrowAroundDistinct(g, x, y, 0, c0);
    }
  }

  lemma {:induction false} GrowAroundDistinct(g: seq<Pixel>, x: int, y: int, k: int, c: seq<Pixel>)
    requires IsGrid(g) && InBounds(x, y) && 0 <= k <= 8 && |c| <= MaxClusterSize
    requires Distinct(c)
    ensures Distinct(GrowAround(g, x, y, k, c))
    decreases MaxClusterSize - |c|, 9 - k
  {
    if k < 8 {
      var nx, ny := NeighbourX(x, k), NeighbourY(y, k);
      if InBounds(nx, ny) {
        GrowDistinct(g, nx, ny, c, Cell(g, x, y).value);
        GrowAroundDistinct(g, x, y, k + 1, Grow(g, nx, ny, c, Cell(g, x, y).value));
      } else {
        GrowAroundDistinct(g, x, y, k + 1, c);
      }
    }
  }

  /** Every appended pixel is a copy of a lit grid pixel no brighter than the
      threshold of the call that started the growth. */
  lemma {:induction false} GrowCopies(g: seq<Pixel>, x: int, y: int, c: seq<Pixel>, t: int)
    requires IsGrid(g) && InBounds(x, y) && |c| <= MaxClusterSize
    ensures CopiesFrom(g, Grow(g, x, y, c, t), |c|, t)
    decreases MaxClusterSize - |c|, 0
  {
    if !Refused(g, c, x, y, t) {
      var c0 := c + [Cell(g, x, y)];
      GrowAroundCopies(g, x, y, 0, c0);
      GrowEntry(g, x, y, c, t);
    }
  }

  lemma {:induction false} GrowAroundCopies(g: seq<Pixel>, x: int, y: int, k: int, c: seq<Pixel>)
    requires IsGrid(g) && InBounds(x, y) && 0 <= k <= 8 && |c| <= MaxClusterSize
    ensures CopiesFrom(g, GrowAround(g, x, y, k, c), |c|, Cell(g, x, y).value)
    decreases MaxClusterSize - |c|, 9 - k
  {
    if k < 8 {
      var v := Cell(g, x, y).value;
      var nx, ny := NeighbourX(x, k), NeighbourY(y, k);
      var c' := if InBounds(nx, ny) then Grow(g, nx, ny, c, v) else c;
      var r := GrowAround(g, x, y, k + 1, c');
      assert r == GrowAround(g, x, y, k, c);
      GrowAroundCopies(g, x, y, k + 1, c');
      if InBounds(nx, ny) {
        GrowCopies(g, nx, ny, c, v);
        assert r[..|c'|] == c';
        forall i | |c| <= i < |c'|
          ensures InBounds(r[i].x, r[i].y) && r[i] == Cell(g, r[i].x, r[i].y) && 0 < r[i].value <= v
        {
          assert r[i] == c'[i];
        }
      }
    }
  }

  /** Every appended pixel after the first is 8-adjacent to an earlier
      appended pixel at least as bright: the flood only runs downhill. */
  lemma {:induction false} GrowDescends(g: seq<Pixel>, x: int, y: int, c: seq<Pixel>, t: int)
    requires IsGrid(g) && InBounds(x, y) && |c| <= MaxClusterSize
    ensures var r := Grow(g, x, y, c, t); Descends(r, |c|, |c| + 1, |r|)
    decreases MaxClusterSize - |c|, 0
  {
    if !Refused(g, c, x, y, t) {
      var c0 := c + [Cell(g, x, y)];
      assert c0[|c|] == Cell(g, x, y);
      GrowAroundDescends(g, x, y, 0, c0, |c|);
    }
  }

  lemma {:induction false} GrowAroundDescends(g: seq<Pixel>, x: int, y: int, k: int, c: seq<Pixel>, pi: int)
    requires IsGrid(g) && InBounds(x, y) && 0 <= k <= 8 && |c| <= MaxClusterSize
    requires 0 <= pi < |c| && c[pi] == Cell(g, x, y)
    ensures var r := GrowAround(g, x, y, k, c); Descends(r, pi, |c|, |r|)
    decreases MaxClusterSize - |c|, 9 - k
  {
    if k < 8 {
      var v := Cell(g, x, y).value;
      var nx, ny := NeighbourX(x, k), NeighbourY(y, k);
      var c' := if InBounds(nx, ny) then Grow(g, nx, ny, c, v) else c;
      var r := GrowAround(g, x, y, k + 1, c');
      assert r == GrowAround(g, x, y, k, c);
      assert c'[pi] == c[pi] by { assert c'[..|c|] == c; }
      GrowAroundDescends(g, x, y, k + 1, c', pi);
      if InBounds(nx, ny) {
        GrowDescends(g, nx, ny, c, v);
        GrowEntry(g, nx, ny, c, v);
        OffsetsAreAdjacency(x, y, nx, ny);
        assert r[..|c'|] == c';
        forall i | |c| <= i < |c'|
          ensures HasParent(r, pi, i)
        {
          if i == |c| {
            assert r[i] == c'[i] && r[pi] == c[pi];
            assert Adjacent(r[pi].x, r[pi].y, r[i].x, r[i].y);
          } else {
            assert HasParent(c', |c|, i);
            var j :| |c| <= j < i && Adjacent(c'[j].x, c'[j].y, c'[i].x, c'[i].y) && c'[i].value <= c'[j].value;
            assert r[j] == c'[j] && r[i] == c'[i];
          }
        }
      }
    }
  }

  /** Every in-bounds neighbour of every appended pixel is refused by the
      final cluster: the fill stops only at dark cells, brighter cells, cells
      already taken, or the size cap. */
  lemma {:induction false} GrowClosed(g: seq<Pixel>, x: int, y: int, c: seq<Pixel>, t: int)
    requires IsGrid(g) && InBounds(x, y) && |c| <= MaxClusterSize
    ensures var r := Grow(g, x, y, c, t); Closed(g, r, |c|, r)
    decreases MaxClusterSize - |c|, 0
  {
    var r := Grow(g, x, y, c, t);
    if !Refused(g, c, x, y, t) {
      var c0 := c + [Cell(g, x, y)];
      GrowAroundClosed(g, x, y, 0, c0);
      GrowAroundNeighbours(g, x, y, 0, c0);
      GrowEntry(g, x, y, c, t);
      forall i, j | |c| <= i < |r| && 0 <= j < 8 && InBounds(NeighbourX(r[i].x, j), NeighbourY(r[i].y, j))
        ensures Refused(g, r, NeighbourX(r[i].x, j), NeighbourY(r[i].y, j), r[i].value)
      {
      }
    }
  }

  lemma {:induction false} GrowAroundClosed(g: seq<Pixel>, x: int, y: int, k: int, c: seq<Pixel>)
    requires IsGrid(g) && InBounds(x, y) && 0 <= k <= 8 && |c| <= MaxClusterSize
    ensures var r := GrowAround(g, x, y, k, c); Closed(g, r, |c|, r)
    decreases MaxClusterSize - |c|, 9 - k
  {
    if k < 8 {
      var v := Cell(g, x, y).value;
      var nx, ny := NeighbourX(x, k), NeighbourY(y, k);
      var c' := if InBounds(nx, ny) then Grow(g, nx, ny, c, v) else c;
      var r := GrowAround(g, x, y, k + 1, c');
      assert r == GrowAround(g, x, y, k, c);
      GrowAroundClosed(g, x, y, k + 1, c');
      if InBounds(nx, ny) {
        GrowClosed(g, nx, ny, c, v);
        ClosedPersists(g, c', |c|, c', r);
        assert r[..|c'|] == c';
        forall i, j | |c| <= i < |r| && 0 <= j < 8 && InBounds(NeighbourX(r[i].x, j), NeighbourY(r[i].y, j))
          ensures Refused(g, r, NeighbourX(r[i].x, j), NeighbourY(r[i].y, j), r[i].value)
        {
          if i < |c'| {
            assert r[i] == c'[i];
          }
        }
      }
    }
  }

  /** After the neighbour calls from offset k on, each of those neighbours is
      refused under the value of the cell whose neighbours they are. */
  lemma {:induction false} GrowAroundNeighbours(g: seq<Pixel>, x: int, y: int, k: int, c: seq<Pixel>)
    requires IsGrid(g) && InBounds(x, y) && 0 <= k <= 8 && |c| <= MaxClusterSize
    ensures var r := GrowAround(g, x, y, k, c);
      forall j :: k <= j < 8 && InBounds(NeighbourX(x, j), NeighbourY(y, j)) ==>
        Refused(g, r, NeighbourX(x, j), NeighbourY(y, j), Cell(g, x, y).value)
    decreases 8 - k
  {
    if k < 8 {
      var v := Cell(g, x, y).value;
      var nx, ny := NeighbourX(x, k), NeighbourY(y, k);
      var c' := if InBounds(nx, ny) then Grow(g, nx, ny, c, v) else c;
      var r := GrowAround(g, x, y, k + 1, c');
      assert r == GrowAround(g, x, y, k, c);
      GrowAroundNeighbours(g, x, y, k + 1, c');
      if InBounds(nx, ny) {
        GrowEntry(g, nx, ny, c, v);
        RefusedPersists(g, c', r, nx, ny, v);
      }
      forall j | k <= j < 8 && InBounds(NeighbourX(x, j), NeighbourY(y, j))
        ensures Refused(g, r, NeighbourX(x, j), NeighbourY(y, j), v)
      {
        if j == k {
          assert NeighbourX(x, j) == nx && NeighbourY(y, j) == ny;
        }
      }
    }
  }
}
