/** Cluster geometry (ipts.c:341-372): the intensity-weighted centre, the
    diameter derived from the total intensity, the square box around the
    centre, the validity threshold and palm rejection. */
module Geometry {
  import opened Grid
  import opened Clusters

  /** Total intensity of a pixel list: `total_weight`. */
  function SumV(ps: seq<Pixel>): int
  {
    if ps == [] then 0 else ps[0].value + SumV(ps[1..])
  }

  /** Intensity-weighted sum of x coordinates: `weighted_x`. */
  function SumXV(ps: seq<Pixel>): int
  {
    if ps == [] then 0 else ps[0].x * ps[0].value + SumXV(ps[1..])
  }

  /** Intensity-weighted sum of y coordinates: `weighted_y`. */
  function SumYV(ps: seq<Pixel>): int
  {
    if ps == [] then 0 else ps[0].y * ps[0].value + SumYV(ps[1..])
  }

  /** The smallest total intensity that makes a cluster valid: `diameter > 0.5f`
      with `diameter = total_weight / 100`. */
  const ValidWeight: int := 50

  /** The largest total intensity a touch may have: `diameter > 10.f` flags a palm. */
  const PalmWeight: int := 1000

  /** A record whose geometry is a square box of positive side `diameter`
      centred on its centre. */
  predicate Boxed(c: Cluster) {
    && c.diameter > 0.0
    && c.x2 - c.x1 == c.diameter && c.y2 - c.y1 == c.diameter
    && c.x1 + c.x2 == 2.0 * c.centreX && c.y1 + c.y2 == 2.0 * c.centreY
  }

  /** The per-cluster body of the loop at ipts.c:343-365. A record that was
      already valid stays valid: the C only ever sets the flag here. */
  function Measure(c: Cluster): (m: Cluster)
    requires SumV(c.pixels) > 0
    ensures m.pixels == c.pixels && m.id == c.id
    ensures Boxed(m)
    ensures (m.centreX - 0.5) * SumV(c.pixels) as real == SumXV(c.pixels) as real
    ensures (m.centreY - 0.5) * SumV(c.pixels) as real == SumYV(c.pixels) as real
    ensures m.diameter * 100.0 == SumV(c.pixels) as real
    ensures m.valid <==> c.valid || SumV(c.pixels) > ValidWeight
  {
    var w := SumV(c.pixels) as real;
    var cx := SumXV(c.pixels) as real / w + 0.5;
    var cy := SumYV(c.pixels) as real / w + 0.5;
    var d := w / 100.0;
    c.(centreX := cx, centreY := cy, diameter := d,
       x1 := cx - d / 2.0, y1 := cy - d / 2.0, x2 := cx + d / 2.0, y2 := cy + d / 2.0,
       valid := c.valid || d > 0.5)
  }

  /** Scaling by a non-negative weight keeps an order. */
  lemma ScaleMono(a: int, b: int, w: int)
    requires a <= b && 0 <= w
    ensures a * w <= b * w
  {
  }

  lemma Distribute(a: int, b: int, c: int)
    ensures a * (b + c) == a * b + a * c
  {
  }

  /** Cancelling a positive weight from both sides of an order. */
  lemma CancelWeight(a: real, b: real, w: real)
    requires w > 0.0 && a * w <= b * w
    ensures a <= b
  {
  }

  /** The x-weighted sum is bounded by the x range times the weight. */
  lemma {:induction false} WeightedXBounds(ps: seq<Pixel>, lo: int, hi: int)
    requires forall i :: 0 <= i < |ps| ==> lo <= ps[i].x <= hi
    ensures lo * SumV(ps) <= SumXV(ps) <= hi * SumV(ps)
  {
    if ps != [] {
      var tail := ps[1..];
      assert forall i :: 0 <= i < |tail| ==> tail[i] == ps[i + 1];
      WeightedXBounds(tail, lo, hi);
      var v, s := ps[0].value, SumV(tail);
      ScaleMono(lo, ps[0].x, v);
      ScaleMono(ps[0].x, hi, v);
      Distribute(lo, v, s);
      Distribute(hi, v, s);
    }
  }


  /** The y-weighted sum is bounded by the y range times the weight. */
  lemma {:induction false} WeightedYBounds(ps: seq<Pixel>, lo: int, hi: int)
    requires forall i :: 0 <= i < |ps| ==> lo <= ps[i].y <= hi
    ensures lo * SumV(ps) <= SumYV(ps) <= hi * SumV(ps)
  {
    if ps != [] {
      var tail := ps[1..];
      assert forall i :: 0 <= i < |tail| ==> tail[i] == ps[i + 1];
      WeightedYBounds(tail, lo, hi);
      var v, s := ps[0].value, SumV(tail);
      ScaleMono(lo, ps[0].y, v);
      ScaleMono(ps[0].y, hi, v);
      Distribute(lo, v, s);
      Distribute(hi, v, s);
    }
  }


  /** A cluster of grid pixels has its centre inside the heatmap, half a cell
      in from the edges at worst: it is the weighted mean of cell centres. */
  lemma CentreOnHeatmap(c: Cluster)
    requires SumV(c.pixels) > 0 && Lit(c.pixels)
    ensures 0.5 <= Measure(c).centreX <= Width as real - 0.5
    ensures 0.5 <= Measure(c).centreY <= Height as real - 0.5
  {
    WeightedXBounds(c.pixels, 0, Width - 1);
    WeightedYBounds(c.pixels, 0, Height - 1);
    MeanBound(SumXV(c.pixels), SumV(c.pixels), Measure(c).centreX, Width - 1);
    MeanBound(SumYV(c.pixels), SumV(c.pixels), Measure(c).centreY, Height - 1);
  }

  /** A weighted mean of values in [0, hi], shifted by half a cell. */
  lemma MeanBound(num: int, s: int, centre: real, hi: int)
    requires s > 0 && 0 <= num <= hi * s
    requires (centre - 0.5) * s as real == num as real
    ensures 0.5 <= centre <= hi as real + 0.5
  {
    CastProduct(hi, s);
    assert num as real <= (hi * s) as real;
    CancelWeight(0.0, centre - 0.5, s as real);
    CancelWeight(centre - 0.5, hi as real, s as real);
  }

  lemma CastProduct(a: int, b: int)
    ensures (a * b) as real == a as real * b as real
  {
  }

  /** A one-pixel cluster is centred on its cell, with the pixel's intensity
      in hundredths as diameter. */
  lemma SinglePixel(c: Cluster, p: Pixel)
    requires c.pixels == [p] && p.value > 0
    ensures Measure(c).centreX == p.x as real + 0.5 && Measure(c).centreY == p.y as real + 0.5
    ensures Measure(c).diameter == p.value as real / 100.0
  {
    assert c.pixels[1..] == [];
    assert SumV(c.pixels) == p.value;
    assert SumXV(c.pixels) == p.x * p.value;
    assert SumYV(c.pixels) == p.y * p.value;
    var m := Measure(c);
    CentreOfOne(m.centreX, p.x, p.value);
    CentreOfOne(m.centreY, p.y, p.value);
  }

  /** A mean over a single weighted coordinate is that coordinate. */
  lemma CentreOfOne(centre: real, coord: int, v: int)
    requires v > 0 && (centre - 0.5) * v as real == (coord * v) as real
    ensures centre == coord as real + 0.5
  {
    var w := v as real;
    CastProduct(coord, v);
    CancelWeight(centre - 0.5, coord as real, w);
    CancelWeight(coord as real, centre - 0.5, w);
  }

  /** Every started record has positive weight, so its centre is defined. */
  predicate Weighed(cs: seq<Cluster>, n: int)
    requires 0 <= n <= |cs|
  {
    forall k :: 0 <= k < n ==> SumV(cs[k].pixels) > 0
  }

  /** Lit pixels carry positive weight. */
  lemma {:induction false} LitWeight(ps: seq<Pixel>)
    requires Lit(ps) && ps != []
    ensures SumV(ps) >= ps[0].value > 0
  {
    if |ps| > 1 {
      assert Lit(ps[1..]) by {
        forall i | 0 <= i < |ps[1..]|
          ensures InBounds(ps[1..][i].x, ps[1..][i].y) && ps[1..][i].value > 0
        {
          assert ps[1..][i] == ps[i + 1];
        }
      }
      LitWeight(ps[1..]);
    }
  }

  /** `disable_touch`: some started cluster is wider than ten cells. */
  predicate Palm(cs: seq<Cluster>, n: int)
    requires 0 <= n <= |cs|
  {
    exists k :: 0 <= k < n && cs[k].diameter > 10.0
  }

  /** Measure the started records, then invalidate all of them when one is
      a palm (ipts.c:341-372). Records from n on are left as they were. */
  function Locate(cs: seq<Cluster>, n: int): (r: seq<Cluster>)
    requires 0 <= n <= |cs| && Weighed(cs, n)
    ensures |r| == |cs|
  {
    var m := seq(|cs|, k requires 0 <= k < |cs| => if k < n then Measure(cs[k]) else cs[k]);
    if Palm(m, n) then seq(|m|, k requires 0 <= k < |m| => if k < n then m[k].(valid := false) else m[k])
    else m
  }

  /** Palm rejection in terms of intensity: a cluster is a palm exactly when
      its total intensity exceeds 1000. */
  predicate HeavyCluster(cs: seq<Cluster>, n: int)
    requires 0 <= n <= |cs|
  {
    exists k :: 0 <= k < n && SumV(cs[k].pixels) > PalmWeight
  }

  /** What locating does to each record: started records get the geometry of
      their own pixels and keep pixels and id; one is valid afterwards exactly
      when it was valid or heavier than 50, and no started record is heavier
      than 1000; records from n on are untouched. */
  lemma LocateRecord(cs: seq<Cluster>, n: int, k: int)
    requires 0 <= n <= |cs| && Weighed(cs, n) && 0 <= k < |cs|
    ensures var r := Locate(cs, n)[k];
      if k < n then
        && r == Measure(cs[k]).(valid := r.valid)
        && (r.valid <==> (cs[k].valid || SumV(cs[k].pixels) > ValidWeight) && !HeavyCluster(cs, n))
      else r == cs[k]
  {
    var m := seq(|cs|, k requires 0 <= k < |cs| => if k < n then Measure(cs[k]) else cs[k]);
    assert Palm(m, n) <==> HeavyCluster(cs, n) by {
      if Palm(m, n) {
        var l :| 0 <= l < n && m[l].diameter > 10.0;
        assert SumV(cs[l].pixels) > PalmWeight;
      }
      if HeavyCluster(cs, n) {
        var l :| 0 <= l < n && SumV(cs[l].pixels) > PalmWeight;
        assert m[l].diameter > 10.0;
      }
    }
  }

  /** After palm rejection no started record is valid. */
  lemma PalmDisablesTouch(cs: seq<Cluster>, n: int)
    requires 0 <= n <= |cs| && Weighed(cs, n) && HeavyCluster(cs, n)
    ensures forall k :: 0 <= k < n ==> !Locate(cs, n)[k].valid
  {
    forall k | 0 <= k < n
      ensures !Locate(cs, n)[k].valid
    {
      LocateRecord(cs, n, k);
    }
  }
}
