/** Overlap removal (ipts.c:374-395): every pair of valid clusters whose
    boxes overlap by more than a quarter of the smaller box loses the smaller
    one; on equal areas the earlier record loses. */
module Overlap {
  import opened Clusters
  import opened Geometry

  function MaxR(a: real, b: real): real {
    if a >= b then a else b
  }

  function MinR(a: real, b: real): real {
    if a <= b then a else b
  }

  /** Area of the intersection of two boxes, zero when they are apart. */
  function Intersection(a: Cluster, b: Cluster): real {
    MaxR(0.0, MinR(a.x2, b.x2) - MaxR(a.x1, b.x1)) * MaxR(0.0, MinR(a.y2, b.y2) - MaxR(a.y1, b.y1))
  }

  function Area(a: Cluster): real {
    (a.x2 - a.x1) * (a.y2 - a.y1)
  }

  /** The threshold of ipts.c:385 and 389; the comment beside it says 50%, the
      code compares against 0.25. */
  const Ratio: real := 0.25

  lemma BoxedArea(a: Cluster)
    requires Boxed(a)
    ensures Area(a) > 0.0
  {
    var w, h := a.x2 - a.x1, a.y2 - a.y1;
    assert Area(a) == w * h;
    PositiveProduct(w, h);
  }

  lemma PositiveProduct(a: real, b: real)
    requires a > 0.0 && b > 0.0
    ensures a * b > 0.0
  {
  }

  /** Which of records i < j gives way when they clash: j when i is strictly
      larger, otherwise i. */
  function Loser(a: Cluster, b: Cluster, i: int, j: int): int {
    if Area(a) > Area(b) then j else i
  }

  /** Two boxes overlap by more than the ratio of the smaller one (of the
      earlier one on a tie). */
  predicate Clash(a: Cluster, b: Cluster)
    requires Boxed(a) && Boxed(b)
  {
    BoxedArea(a);
    BoxedArea(b);
    Exceeds(Intersection(a, b), Area(a), Area(b))
  }

  /** The overlap test on the three areas: intersection over the smaller
      area (the first one on a tie) is above the ratio. */
  predicate Exceeds(inter: real, areaA: real, areaB: real)
    requires areaA > 0.0 && areaB > 0.0
  {
    inter / (if areaA > areaB then areaB else areaA) > Ratio
  }

  predicate AllBoxed(cs: seq<Cluster>, n: int)
    requires 0 <= n <= |cs|
  {
    forall k :: 0 <= k < n ==> Boxed(cs[k])
  }

  /** The body of the inner loop at ipts.c:377-393 for the pair (i, j). */
  function Settle(cs: seq<Cluster>, i: int, j: int): (r: seq<Cluster>)
    requires 0 <= i < j < |cs| && Boxed(cs[i]) && Boxed(cs[j])
    ensures |r| == |cs|
  {
    BoxedArea(cs[i]);
    BoxedArea(cs[j]);
    if cs[i].valid && cs[j].valid then
      var intersection := Intersection(cs[i], cs[j]);
      var areaI, areaJ := Area(cs[i]), Area(cs[j]);
      if areaI > areaJ then
        if intersection / areaJ > Ratio then cs[j := cs[j].(valid := false)] else cs
      else
        if intersection / areaI > Ratio then cs[i := cs[i].(valid := false)] else cs
    else cs
  }

  /** One pair settles as the loser rule says: the pair's loser is cleared
      exactly when both were valid and they clash, and nothing else changes. */
  lemma SettleRule(cs: seq<Cluster>, i: int, j: int)
    requires 0 <= i < j < |cs| && Boxed(cs[i]) && Boxed(cs[j])
    ensures var r := Settle(cs, i, j); var l := Loser(cs[i], cs[j], i, j);
      && (forall k :: 0 <= k < |cs| && k != l ==> r[k] == cs[k])
      && r[l] == cs[l].(valid := cs[l].valid && !(cs[i].valid && cs[j].valid && Clash(cs[i], cs[j])))
  {
  }

  /** Equal areas: the earlier record gives way (the `else` branch at ipts.c:388). */
  lemma TieInvalidatesEarlier(cs: seq<Cluster>, i: int, j: int)
    requires 0 <= i < j < |cs| && Boxed(cs[i]) && Boxed(cs[j])
    requires cs[i].valid && cs[j].valid && Area(cs[i]) == Area(cs[j])
    requires Intersection(cs[i], cs[j]) > Ratio * Area(cs[i])
    ensures !Settle(cs, i, j)[i].valid && Settle(cs, i, j)[j].valid
  {
    BoxedArea(cs[i]);
  }

  /** The pair loops from (i, j) on. */
  function SweepFrom(cs: seq<Cluster>, n: int, i: int, j: int): (r: seq<Cluster>)
    requires 0 <= n <= |cs| && AllBoxed(cs, n) && 0 <= i && i < j
    ensures |r| == |cs|
    decreases n - i, n - j
  {
    if i >= n then cs
    else if j >= n then SweepFrom(cs, n, i + 1, i + 2)
    else SweepFrom(Settle(cs, i, j), n, i, j + 1)
  }

  function RemoveOverlaps(cs: seq<Cluster>, n: int): (r: seq<Cluster>)
    requires 0 <= n <= |cs| && AllBoxed(cs, n)
    ensures |r| == |cs|
  {
    SweepFrom(cs, n, 0, 1)
  }

  /** r differs from cs at most by clearing valid flags among the first n. */
  predicate OnlyClears(cs: seq<Cluster>, r: seq<Cluster>, n: int)
    requires 0 <= n <= |cs|
  {
    && |r| == |cs|
    && (forall k :: 0 <= k < |cs| ==> r[k] == cs[k].(valid := r[k].valid))
    && (forall k :: 0 <= k < |cs| && r[k].valid ==> cs[k].valid)
    && (forall k :: n <= k < |cs| ==> r[k] == cs[k])
  }

  lemma {:induction false} SweepOnlyClears(cs: seq<Cluster>, n: int, i: int, j: int)
    requires 0 <= n <= |cs| && AllBoxed(cs, n) && 0 <= i && i < j
    ensures OnlyClears(cs, SweepFrom(cs, n, i, j), n)
    decreases n - i, n - j
  {
    if i < n {
      if j >= n {
        SweepOnlyClears(cs, n, i + 1, i + 2);
      } else {
        var cs' := Settle(cs, i, j);
        SettleOnlyClears(cs, n, i, j);
        SweepOnlyClears(cs', n, i, j + 1);
        assert SweepFrom(cs, n, i, j) == SweepFrom(cs', n, i, j + 1);
        ClearsCompose(cs, cs', SweepFrom(cs', n, i, j + 1), n);
      }
    }
  }

  /** One pair step only clears flags and keeps every box. */
  lemma SettleOnlyClears(cs: seq<Cluster>, n: int, i: int, j: int)
    requires 0 <= i < j < n <= |cs| && AllBoxed(cs, n)
    ensures OnlyClears(cs, Settle(cs, i, j), n) && AllBoxed(Settle(cs, i, j), n)
  {
    SettleRule(cs, i, j);
  }

  lemma ClearsCompose(a: seq<Cluster>, b: seq<Cluster>, c: seq<Cluster>, n: int)
    requires 0 <= n <= |a| && OnlyClears(a, b, n) && OnlyClears(b, c, n)
    ensures OnlyClears(a, c, n)
  {
    forall k | 0 <= k < |a|
      ensures c[k] == a[k].(valid := c[k].valid)
    {
      assert b[k] == a[k].(valid := b[k].valid);
    }
  }

  /** The overlap pass only clears valid flags of started records. */
  lemma OverlapOnlyClears(cs: seq<Cluster>, n: int)
    requires 0 <= n <= |cs| && AllBoxed(cs, n)
    ensures OnlyClears(cs, RemoveOverlaps(cs, n), n)
  {
    SweepOnlyClears(cs, n, 0, 1);
  }

  /** The pairs before (i, j) in loop order hold no clash between valid records. */
  predicate SettledBefore(cs: seq<Cluster>, n: int, i: int, j: int)
    requires 0 <= n <= |cs| && AllBoxed(cs, n)
  {
    forall a, b :: 0 <= a < b < n && (a < i || (a == i && b < j)) && cs[a].valid && cs[b].valid ==>
      !Clash(cs[a], cs[b])
  }

  lemma SettledPersists(cs: seq<Cluster>, r: seq<Cluster>, n: int, i: int, j: int)
    requires 0 <= n <= |cs| && AllBoxed(cs, n) && OnlyClears(cs, r, n)
    requires SettledBefore(cs, n, i, j)
    ensures AllBoxed(r, n) && SettledBefore(r, n, i, j)
  {
    forall a, b | 0 <= a < b < n && (a < i || (a == i && b < j)) && r[a].valid && r[b].valid
      ensures !Clash(r[a], r[b])
    {
      assert r[a] == cs[a].(valid := r[a].valid) && r[b] == cs[b].(valid := r[b].valid);
    }
  }

  lemma {:induction false} SweepSettles(cs: seq<Cluster>, n: int, i: int, j: int)
    requires 0 <= n <= |cs| && AllBoxed(cs, n) && 0 <= i && i < j
    requires SettledBefore(cs, n, i, j)
    requires i < n ==> j <= n
    ensures var r := SweepFrom(cs, n, i, j); AllBoxed(r, n) && SettledBefore(r, n, n, n)
    decreases n - i, n - j
  {
    if i >= n {
      assert SettledBefore(cs, n, n, n);
    } else if j >= n {
      RowSettled(cs, n, i, j);
      SweepSettles(cs, n, i + 1, i + 2);
    } else {
      SettleStep(cs, n, i, j);
      SweepSettles(Settle(cs, i, j), n, i, j + 1);
    }
  }

  /** Settling pair (i, j) extends the settled prefix by that pair. */
  lemma SettleStep(cs: seq<Cluster>, n: int, i: int, j: int)
    requires 0 <= i < j < n <= |cs| && AllBoxed(cs, n) && SettledBefore(cs, n, i, j)
    ensures AllBoxed(Settle(cs, i, j), n) && SettledBefore(Settle(cs, i, j), n, i, j + 1)
  {
    var cs' := Settle(cs, i, j);
    SettleRule(cs, i, j);
    assert OnlyClears(cs, cs', n);
    SettledPersists(cs, cs', n, i, j);
    assert SettledBefore(cs', n, i, j + 1);
  }

  /** Once row i has met every later record, the next row starts settled. */
  lemma RowSettled(cs: seq<Cluster>, n: int, i: int, j: int)
    requires 0 <= i < n <= j && n <= |cs| && AllBoxed(cs, n) && SettledBefore(cs, n, i, j)
    ensures SettledBefore(cs, n, i + 1, i + 2)
  {
  }

  /** After the pass no two valid started records clash. */
  lemma OverlapLeavesNoClash(cs: seq<Cluster>, n: int)
    requires 0 <= n <= |cs| && AllBoxed(cs, n)
    ensures var r := RemoveOverlaps(cs, n);
      forall a, b :: 0 <= a < b < n && r[a].valid && r[b].valid ==> !Clash(cs[a], cs[b])
  {
    var r := RemoveOverlaps(cs, n);
    SweepSettles(cs, n, 0, 1);
    SweepOnlyClears(cs, n, 0, 1);
    forall a, b | 0 <= a < b < n && r[a].valid && r[b].valid
      ensures !Clash(cs[a], cs[b])
    {
      assert r[a] == cs[a].(valid := r[a].valid) && r[b] == cs[b].(valid := r[b].valid);
    }
  }

  /** Record k gave way to a valid record l it clashes with. */
  predicate Beaten(cs: seq<Cluster>, n: int, k: int)
    requires 0 <= n <= |cs| && AllBoxed(cs, n) && 0 <= k < n
  {
    exists l :: 0 <= l < n && l != k && cs[l].valid &&
      var a, b := if k < l then k else l, if k < l then l else k;
      Clash(cs[a], cs[b]) && Loser(cs[a], cs[b], a, b) == k
  }

  /** A justification against a later state holds against an earlier one,
      since the geometry is the same and validity only decreases. */
  lemma BeatenPersists(cs: seq<Cluster>, r: seq<Cluster>, n: int, k: int)
    requires 0 <= n <= |cs| && AllBoxed(cs, n) && OnlyClears(cs, r, n) && 0 <= k < n
    requires AllBoxed(r, n) && Beaten(r, n, k)
    ensures Beaten(cs, n, k)
  {
    var m :| 0 <= m < n && m != k && r[m].valid &&
      var a, b := if k < m then k else m, if k < m then m else k;
      Clash(r[a], r[b]) && Loser(r[a], r[b], a, b) == k;
    var a, b := if k < m then k else m, if k < m then m else k;
    SameGeometry(cs[a], r[a], cs[b], r[b]);
    assert cs[m].valid;
    assert Clash(cs[a], cs[b]) && Loser(cs[a], cs[b], a, b) == k;
  }

  /** Clash and loser ignore validity. */
  lemma SameGeometry(a: Cluster, a': Cluster, b: Cluster, b': Cluster)
    requires a' == a.(valid := a'.valid) && b' == b.(valid := b'.valid)
    requires Boxed(a) && Boxed(b)
    ensures Boxed(a') && Boxed(b')
    ensures Clash(a, b) == Clash(a', b') && Area(a) == Area(a') && Area(b) == Area(b')
  {
    SameBox(a, a');
    SameBox(b, b');
    SameIntersection(a, a', b, b');
    BoxedArea(a);
    BoxedArea(b);
    var i, ai, bi := Intersection(a, b), Area(a), Area(b);
    assert Clash(a, b) == Exceeds(i, ai, bi);
    assert Clash(a', b') == Exceeds(i, ai, bi);
  }

  lemma SameBox(a: Cluster, a': Cluster)
    requires a' == a.(valid := a'.valid) && Boxed(a)
    ensures Boxed(a') && Area(a') == Area(a)
    ensures a'.x1 == a.x1 && a'.x2 == a.x2 && a'.y1 == a.y1 && a'.y2 == a.y2
  {
  }

  lemma SameIntersection(a: Cluster, a': Cluster, b: Cluster, b': Cluster)
    requires a'.x1 == a.x1 && a'.x2 == a.x2 && a'.y1 == a.y1 && a'.y2 == a.y2
    requires b'.x1 == b.x1 && b'.x2 == b.x2 && b'.y1 == b.y1 && b'.y2 == b.y2
    ensures Intersection(a', b') == Intersection(a, b)
  {
  }

  /** The pair step that clears k is itself the justification. */
  lemma SettleJustified(cs: seq<Cluster>, n: int, i: int, j: int, k: int)
    requires 0 <= i < j < n <= |cs| && AllBoxed(cs, n) && 0 <= k < n
    requires cs[k].valid && !Settle(cs, i, j)[k].valid
    ensures Beaten(cs, n, k)
  {
    SettleRule(cs, i, j);
    var other := if k == i then j else i;
    assert cs[other].valid;
  }

  lemma {:induction false} SweepJustified(cs: seq<Cluster>, n: int, i: int, j: int, k: int)
    requires 0 <= n <= |cs| && AllBoxed(cs, n) && 0 <= i && i < j && 0 <= k < n
    requires cs[k].valid && !SweepFrom(cs, n, i, j)[k].valid
    ensures Beaten(cs, n, k)
    decreases n - i, n - j
  {
    if i < n {
      if j >= n {
        SweepJustified(cs, n, i + 1, i + 2, k);
      } else {
        var cs' := Settle(cs, i, j);
        SettleRule(cs, i, j);
        assert OnlyClears(cs, cs', n);
        assert AllBoxed(cs', n);
        if !cs'[k].valid {
          SettleJustified(cs, n, i, j, k);
        } else {
          SweepJustified(cs', n, i, j + 1, k);
          BeatenPersists(cs, cs', n, k);
        }
      }
    }
  }

  /** Every record the pass invalidates was valid and gave way to a valid
      record it clashes with, as the loser of that pair. */
  lemma OverlapJustified(cs: seq<Cluster>, n: int, k: int)
    requires 0 <= n <= |cs| && AllBoxed(cs, n) && 0 <= k < n
    requires cs[k].valid && !RemoveOverlaps(cs, n)[k].valid
    ensures Beaten(cs, n, k)
  {
    SweepJustified(cs, n, 0, 1, k);
  }
}
