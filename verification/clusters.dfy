/** The cluster records of ipts.c:29-46 and the row-major scan that starts
    one cluster per seed (ipts.c:329-339). */
module Clusters {
  import opened Grid
  import opened Seeds
  import opened Flood

  /** `struct cluster`; `size` is the length of `pixels`. The C float fields
      are exact reals here. */
  datatype Cluster = Cluster(
    pixels: seq<Pixel>,
    centreX: real,
    centreY: real,
    x1: real,
    y1: real,
    x2: real,
    y2: real,
    diameter: real,
    valid: bool,
    id: int)

  /** A zeroed `struct cluster`, as `memset` leaves it. */
  const Empty: Cluster := Cluster([], 0.0, 0.0, 0.0, 0.0, 0.0, 0.0, 0.0, false, 0)

  /** `struct cluster_group`: the sixteen cluster records and how many of them
      the last scan started. Records at and after `size` are left as they were. */
  datatype Group = Group(size: nat, clusters: seq<Cluster>)

  /** A zeroed cluster group (ipts.c:249, 269). */
  function FreshGroup(): (f: Group)
    ensures f.size == 0 && |f.clusters| == MaxClusters
    ensures forall k :: 0 <= k < MaxClusters ==> f.clusters[k] == Empty
    ensures Storage(f.clusters)
  {
    Group(0, seq(MaxClusters, _ => Empty))
  }

  predicate IsGroup(gr: Group) {
    |gr.clusters| == MaxClusters && gr.size <= MaxClusters
  }

  /** Pixels in a cluster are in the grid and lit: they were admitted by the
      flood fill, which refuses dark cells. */
  predicate Lit(ps: seq<Pixel>) {
    forall i :: 0 <= i < |ps| ==> InBounds(ps[i].x, ps[i].y) && ps[i].value > 0
  }

  /** The invariant of the cluster storage that the scan writes into. */
  predicate Storage(st: seq<Cluster>) {
    && |st| == MaxClusters
    && forall k :: 0 <= k < |st| ==> |st[k].pixels| <= MaxClusterSize && Lit(st[k].pixels)
  }

  /** The cluster grown from a seed into whatever record it lands in. */
  function GrowInto(g: seq<Pixel>, seed: Pixel, c: Cluster): (r: Cluster)
    requires IsGrid(g) && InBounds(seed.x, seed.y) && |c.pixels| <= MaxClusterSize
  {
    c.(pixels := Grow(g, seed.x, seed.y, c.pixels, seed.value))
  }

  /** Growing keeps a record inside the storage invariant. */
  lemma GrowIntoStorage(g: seq<Pixel>, seed: Pixel, c: Cluster)
    requires IsGrid(g) && InBounds(seed.x, seed.y) && |c.pixels| <= MaxClusterSize && Lit(c.pixels)
    ensures |GrowInto(g, seed, c).pixels| <= MaxClusterSize && Lit(GrowInto(g, seed, c).pixels)
  {
    var r := Grow(g, seed.x, seed.y, c.pixels, seed.value);
    GrowCopies(g, seed.x, seed.y, c.pixels, seed.value);
    forall i | 0 <= i < |r|
      ensures InBounds(r[i].x, r[i].y) && r[i].value > 0
    {
      if i < |c.pixels| {
        assert r[..|c.pixels|] == c.pixels;
        assert r[i] == c.pixels[i];
      }
    }
  }

  /** Storing a grown record keeps the storage invariant. */
  lemma GrowIntoStored(g: seq<Pixel>, seed: Pixel, st: seq<Cluster>, n: int)
    requires IsGrid(g) && InBounds(seed.x, seed.y) && Storage(st) && 0 <= n < |st|
    ensures Storage(st[n := GrowInto(g, seed, st[n])])
  {
    GrowIntoStorage(g, seed, st[n]);
    var st' := st[n := GrowInto(g, seed, st[n])];
    forall k | 0 <= k < |st'|
      ensures |st'[k].pixels| <= MaxClusterSize && Lit(st'[k].pixels)
    {
      if k != n {
        assert st'[k] == st[k];
      }
    }
  }

  /** The scan of ipts.c:330-339 from cell i on, with n clusters started so
      far: every seed starts the next cluster while fewer than sixteen exist. */
  function ScanFrom(g: seq<Pixel>, i: int, st: seq<Cluster>, n: int): (r: (seq<Cluster>, int))
    requires IsGrid(g) && 0 <= i <= |g| && Storage(st) && 0 <= n <= MaxClusters
    ensures Storage(r.0) && n <= r.1 <= MaxClusters
    decreases |g| - i
  {
    if i == |g| then (st, n)
    else if IsBrightest(g, g[i].x, g[i].y) && n < MaxClusters then
      GrowIntoStored(g, g[i], st, n);
      ScanFrom(g, i + 1, st[n := GrowInto(g, g[i], st[n])], n + 1)
    else
      ScanFrom(g, i + 1, st, n)
  }

  /** The whole scan; `cluster_group->size` starts at zero (ipts.c:329). */
  function Scan(g: seq<Pixel>, st: seq<Cluster>): (r: (seq<Cluster>, int))
    requires IsGrid(g) && Storage(st)
    ensures Storage(r.0) && 0 <= r.1 <= MaxClusters
  {
    ScanFrom(g, 0, st, 0)
  }

  function Min(a: int, b: int): int {
    if a <= b then a else b
  }

  /** The scan starts min(16, #seeds) clusters. */
  lemma {:induction false} ScanFromCount(g: seq<Pixel>, i: int, st: seq<Cluster>, n: int)
    requires IsGrid(g) && 0 <= i <= |g| && Storage(st) && 0 <= n <= MaxClusters
    ensures ScanFrom(g, i, st, n).1 == Min(MaxClusters, n + |SeedsFrom(g, i)|)
    decreases |g| - i
  {
    if i < |g| {
      SeedsFromStep(g, i);
      if IsBrightest(g, g[i].x, g[i].y) && n < MaxClusters {
        GrowIntoStored(g, g[i], st, n);
        ScanFromCount(g, i + 1, st[n := GrowInto(g, g[i], st[n])], n + 1);
      } else {
        ScanFromCount(g, i + 1, st, n);
      }
    }
  }

  lemma SeedsFromStep(g: seq<Pixel>, i: int)
    requires IsGrid(g) && 0 <= i < |g|
    ensures |SeedsFrom(g, i)| == |SeedsFrom(g, i + 1)| + if IsBrightest(g, g[i].x, g[i].y) then 1 else 0
  {
  }

  /** Records outside the started range are untouched by the scan. */
  lemma {:induction false} ScanFromUntouched(g: seq<Pixel>, i: int, st: seq<Cluster>, n: int, k: int)
    requires IsGrid(g) && 0 <= i <= |g| && Storage(st) && 0 <= n <= MaxClusters && 0 <= k < MaxClusters
    requires !(n <= k < ScanFrom(g, i, st, n).1)
    ensures ScanFrom(g, i, st, n).0[k] == st[k]
    decreases |g| - i
  {
    if i < |g| {
      if IsBrightest(g, g[i].x, g[i].y) && n < MaxClusters {
        GrowIntoStored(g, g[i], st, n);
        var st' := st[n := GrowInto(g, g[i], st[n])];
        assert ScanFrom(g, i, st, n) == ScanFrom(g, i + 1, st', n + 1);
        ScanFromUntouched(g, i + 1, st', n + 1, k);
      } else {
        assert ScanFrom(g, i, st, n) == ScanFrom(g, i + 1, st, n);
        ScanFromUntouched(g, i + 1, st, n, k);
      }
    }
  }

  /** The k-th started record is grown from the k-th seed in row-major order. */
  lemma {:induction false} ScanFromGrown(g: seq<Pixel>, i: int, st: seq<Cluster>, n: int, k: int)
    requires IsGrid(g) && 0 <= i <= |g| && Storage(st) && 0 <= n <= MaxClusters
    requires n <= k < ScanFrom(g, i, st, n).1
    ensures k - n < |SeedsFrom(g, i)|
    ensures ScanFrom(g, i, st, n).0[k] == GrowInto(g, SeedsFrom(g, i)[k - n], st[k])
    decreases |g| - i
  {
    ScanFromCount(g, i, st, n);
    var s := SeedsFrom(g, i);
    var s' := SeedsFrom(g, i + 1);
    if IsBrightest(g, g[i].x, g[i].y) && n < MaxClusters {
      assert s == [g[i]] + s';
      GrowIntoStored(g, g[i], st, n);
      var st' := st[n := GrowInto(g, g[i], st[n])];
      if n < k {
        ScanFromGrown(g, i + 1, st', n + 1, k);
        assert s[k - n] == s'[k - (n + 1)];
      } else {
        ScanFromUntouched(g, i + 1, st', n + 1, k);
      }
    } else {
      assert s == s';
      ScanFromGrown(g, i + 1, st, n, k);
    }
  }

  /** A cluster grown from a lit seed into an empty record: it starts with
      the seed, holds no coordinate twice, and every member is a lit copy of
      its grid pixel no brighter than the seed. */
  lemma GrowFromSeed(g: seq<Pixel>, seed: Pixel)
    requires IsGrid(g) && InBounds(seed.x, seed.y)
    requires seed == Cell(g, seed.x, seed.y) && seed.value != 0
    ensures var ps := Grow(g, seed.x, seed.y, [], seed.value);
      && 1 <= |ps| <= MaxClusterSize
      && ps[0] == seed
      && Distinct(ps)
      && CopiesFrom(g, ps, 0, seed.value)
  {
    GrowEntry(g, seed.x, seed.y, [], seed.value);
    assert !Has([], seed.x, seed.y);
    GrowDistinct(g, seed.x, seed.y, [], seed.value);
    GrowCopies(g, seed.x, seed.y, [], seed.value);
  }

  /** What the scan guarantees on zeroed storage: at most sixteen clusters, the
      k-th starting with the k-th seed in row-major order, every member a lit
      copy of its grid pixel no brighter than that seed, no coordinate twice,
      at most 128 members; the records after the last cluster stay zeroed. */
  lemma ScanFresh(g: seq<Pixel>, k: int)
    requires IsGrid(g) && 0 <= k < MaxClusters
    ensures var r := Scan(g, FreshGroup().clusters);
      r.1 == Min(MaxClusters, |AllSeeds(g)|) &&
      if k < r.1 then
        var ps := r.0[k].pixels;
        && 1 <= |ps| <= MaxClusterSize
        && ps[0] == AllSeeds(g)[k]
        && Distinct(ps)
        && CopiesFrom(g, ps, 0, AllSeeds(g)[k].value)
      else r.0[k] == Empty
  {
    ScanFromCount(g, 0, FreshGroup().clusters, 0);
    if k < Scan(g, FreshGroup().clusters).1 {
      ScanFreshStarted(g, k);
      GrowFromSeed(g, AllSeeds(g)[k]);
    } else {
      ScanFromUntouched(g, 0, FreshGroup().clusters, 0, k);
    }
  }

  lemma ScanFreshStarted(g: seq<Pixel>, k: int)
    requires IsGrid(g) && 0 <= k < Scan(g, FreshGroup().clusters).1
    ensures k < |AllSeeds(g)|
    ensures Scan(g, FreshGroup().clusters).0[k].pixels == Grow(g, AllSeeds(g)[k].x, AllSeeds(g)[k].y, [], AllSeeds(g)[k].value)
    ensures AllSeeds(g)[k] == Cell(g, AllSeeds(g)[k].x, AllSeeds(g)[k].y) && AllSeeds(g)[k].value != 0
  {
    var st := FreshGroup().clusters;
    ScanFromGrown(g, 0, st, 0, k);
    SeedsFromCells(g, 0);
    assert st[k] == Empty;
  }

  /** On any storage, every started cluster is non-empty: the seed is either
      admitted or the record already held pixels. */
  lemma ScanNonEmpty(g: seq<Pixel>, st: seq<Cluster>, k: int)
    requires IsGrid(g) && Storage(st) && 0 <= k < Scan(g, st).1
    ensures |Scan(g, st).0[k].pixels| >= 1
  {
    var s := AllSeeds(g);
    ScanFromGrown(g, 0, st, 0, k);
    SeedsFromCells(g, 0);
    var seed := s[k];
    GrowEntry(g, seed.x, seed.y, st[k].pixels, seed.value);
    if st[k].pixels == [] {
      assert !Has([], seed.x, seed.y);
    }
  }

  /** The scan writes nothing but pixel lists. */
  lemma ScanOnlyPixels(g: seq<Pixel>, st: seq<Cluster>, k: int)
    requires IsGrid(g) && Storage(st) && 0 <= k < MaxClusters
    ensures Scan(g, st).0[k] == st[k].(pixels := Scan(g, st).0[k].pixels)
  {
    if k < Scan(g, st).1 {
      ScanFromGrown(g, 0, st, 0, k);
    } else {
      ScanFromUntouched(g, 0, st, 0, k);
    }
  }

  /** A started record keeps the pixels it already held as a prefix: storage
      that is not zeroed carries its old pixels into the new cluster. */
  lemma ScanKeepsOldPixels(g: seq<Pixel>, st: seq<Cluster>, k: int)
    requires IsGrid(g) && Storage(st) && 0 <= k < MaxClusters
    ensures var ps := Scan(g, st).0[k].pixels;
      |st[k].pixels| <= |ps| && ps[..|st[k].pixels|] == st[k].pixels
  {
    if k < Scan(g, st).1 {
      ScanFromGrown(g, 0, st, 0, k);
    } else {
      ScanFromUntouched(g, 0, st, 0, k);
    }
  }
}
