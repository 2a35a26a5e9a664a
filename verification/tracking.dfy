/** Contact tracking (ipts.c:397-435): each valid cluster of the previous
    frame hands its id to the nearest valid, still unnumbered cluster of this
    frame; the clusters left unnumbered take the lowest id not in use. */
module Tracking {
  import opened Clusters

  /** The starting `closest_distance` of ipts.c:401; only matches strictly
      closer than this (in squared cells) are considered. */
  const FarAway: real := 1000000.0

  /** Squared distance between centres, as `pow(dx, 2) + pow(dy, 2)`. */
  function Distance(a: Cluster, b: Cluster): real {
    (a.centreX - b.centreX) * (a.centreX - b.centreX) + (a.centreY - b.centreY) * (a.centreY - b.centreY)
  }

  /** A cluster that can still receive an id. */
  predicate Candidate(c: Cluster) {
    c.valid && c.id == 0
  }

  /** The search of ipts.c:403-411 from record m on, with the best distance
      and index found so far. */
  function ClosestFrom(cs: seq<Cluster>, n: int, p: Cluster, m: int, best: real, index: int): (r: int)
    requires 0 <= m <= n <= |cs| && -1 <= index < m
    ensures -1 <= r < n
    decreases n - m
  {
    if m == n then index
    else if Candidate(cs[m]) && Distance(cs[m], p) < best then ClosestFrom(cs, n, p, m + 1, Distance(cs[m], p), m)
    else ClosestFrom(cs, n, p, m + 1, best, index)
  }

  /** `closest_index` for the previous cluster p among records [0, n). */
  function Closest(cs: seq<Cluster>, n: int, p: Cluster): (r: int)
    requires 0 <= n <= |cs|
    ensures -1 <= r < n
  {
    ClosestFrom(cs, n, p, 0, FarAway, -1)
  }

  /** What the search has established after looking at records [0, m). */
  predicate Best(cs: seq<Cluster>, p: Cluster, m: int, best: real, index: int)
    requires 0 <= m <= |cs|
  {
    if index == -1 then
      best == FarAway && forall k :: 0 <= k < m && Candidate(cs[k]) ==> Distance(cs[k], p) >= FarAway
    else
      && 0 <= index < m
      && Candidate(cs[index]) && best == Distance(cs[index], p) && best < FarAway
      && (forall k :: 0 <= k < m && Candidate(cs[k]) ==> best <= Distance(cs[k], p))
      && (forall k :: 0 <= k < index && Candidate(cs[k]) ==> best < Distance(cs[k], p))
  }

  lemma {:induction false} ClosestFromBest(cs: seq<Cluster>, n: int, p: Cluster, m: int, best: real, index: int)
    requires 0 <= m <= n <= |cs| && -1 <= index < m
    requires Best(cs, p, m, best, index)
    ensures var r := ClosestFrom(cs, n, p, m, best, index);
      Best(cs, p, n, if r == -1 then FarAway else Distance(cs[r], p), r)
    decreases n - m
  {
    if m < n {
      if Candidate(cs[m]) && Distance(cs[m], p) < best {
        ClosestFromBest(cs, n, p, m + 1, Distance(cs[m], p), m);
      } else {
        ClosestFromBest(cs, n, p, m + 1, best, index);
      }
    }
  }

  /** The match is the first nearest candidate strictly within FarAway, and
      there is none exactly when no candidate is that close. */
  lemma ClosestIsNearest(cs: seq<Cluster>, n: int, p: Cluster)
    requires 0 <= n <= |cs|
    ensures var r := Closest(cs, n, p);
      && (r == -1 <==> forall k :: 0 <= k < n && Candidate(cs[k]) ==> Distance(cs[k], p) >= FarAway)
      && (r != -1 ==>
        && Candidate(cs[r]) && Distance(cs[r], p) < FarAway
        && (forall k :: 0 <= k < n && Candidate(cs[k]) ==> Distance(cs[r], p) <= Distance(cs[k], p))
        && (forall k :: 0 <= k < r && Candidate(cs[k]) ==> Distance(cs[r], p) < Distance(cs[k], p)))
  {
    ClosestFromBest(cs, n, p, 0, FarAway, -1);
  }

  /** The loop of ipts.c:399-415 from previous record q on. */
  function InheritFrom(cs: seq<Cluster>, n: int, prev: seq<Cluster>, pn: int, q: int): (r: seq<Cluster>)
    requires 0 <= n <= |cs| && 0 <= q <= pn <= |prev|
    ensures |r| == |cs|
    decreases pn - q
  {
    if q == pn then cs
    else if !prev[q].valid then InheritFrom(cs, n, prev, pn, q + 1)
    else
      var m := Closest(cs, n, prev[q]);
      var cs' := if m != -1 then cs[m := cs[m].(id := prev[q].id)] else cs;
      InheritFrom(cs', n, prev, pn, q + 1)
  }

  predicate Used(cs: seq<Cluster>, n: int, id: int)
    requires 0 <= n <= |cs|
  {
    exists k :: 0 <= k < n && cs[k].id == id
  }

  /** The largest id among records [0, n), or 0. */
  function MaxId(cs: seq<Cluster>, n: int): (r: int)
    requires 0 <= n <= |cs|
    ensures r >= 0 && forall k :: 0 <= k < n ==> cs[k].id <= r
  {
    if n == 0 then 0
    else
      var m := MaxId(cs, n - 1);
      if cs[n - 1].id > m then cs[n - 1].id else m
  }

  /** The search of ipts.c:421-432 from `id` on: the first id not in use. */
  function LowestUnusedFrom(cs: seq<Cluster>, n: int, id: int): (r: int)
    requires 0 <= n <= |cs| && id >= 1
    ensures id <= r && !Used(cs, n, r)
    ensures forall j :: id <= j < r ==> Used(cs, n, j)
    decreases MaxId(cs, n) + 1 - id
  {
    if Used(cs, n, id) then LowestUnusedFrom(cs, n, id + 1) else id
  }

  function LowestUnused(cs: seq<Cluster>, n: int): int
    requires 0 <= n <= |cs|
  {
    LowestUnusedFrom(cs, n, 1)
  }

  /** The loop of ipts.c:418-435 from record m on. */
  function AssignFrom(cs: seq<Cluster>, n: int, m: int): (r: seq<Cluster>)
    requires 0 <= m <= n <= |cs|
    ensures |r| == |cs|
    decreases n - m
  {
    if m == n then cs
    else if Candidate(cs[m]) then AssignFrom(cs[m := cs[m].(id := LowestUnused(cs, n))], n, m + 1)
    else AssignFrom(cs, n, m + 1)
  }

  /** Both numbering passes, against the first pn records of the previous group. */
  function Track(cs: seq<Cluster>, n: int, prev: seq<Cluster>, pn: int): (r: seq<Cluster>)
    requires 0 <= n <= |cs| && 0 <= pn <= |prev|
    ensures |r| == |cs|
  {
    AssignFrom(InheritFrom(cs, n, prev, pn, 0), n, 0)
  }

  /** r differs from cs at most in the ids of valid records among the first n. */
  predicate OnlyIds(cs: seq<Cluster>, r: seq<Cluster>, n: int)
    requires 0 <= n <= |cs|
  {
    && |r| == |cs|
    && (forall k :: 0 <= k < |cs| ==> r[k] == cs[k].(id := r[k].id))
    && (forall k :: 0 <= k < |cs| && (k >= n || !cs[k].valid) ==> r[k] == cs[k])
  }

  lemma {:induction false} InheritOnlyIds(cs: seq<Cluster>, n: int, prev: seq<Cluster>, pn: int, q: int)
    requires 0 <= n <= |cs| && 0 <= q <= pn <= |prev|
    ensures OnlyIds(cs, InheritFrom(cs, n, prev, pn, q), n)
    decreases pn - q
  {
    if q < pn {
      if !prev[q].valid {
        InheritOnlyIds(cs, n, prev, pn, q + 1);
      } else {
        var m := Closest(cs, n, prev[q]);
        ClosestIsNearest(cs, n, prev[q]);
        var cs' := if m != -1 then cs[m := cs[m].(id := prev[q].id)] else cs;
        InheritOnlyIds(cs', n, prev, pn, q + 1);
      }
    }
  }

  lemma {:induction false} AssignOnlyIds(cs: seq<Cluster>, n: int, m: int)
    requires 0 <= m <= n <= |cs|
    ensures OnlyIds(cs, AssignFrom(cs, n, m), n)
    decreases n - m
  {
    if m < n {
      if Candidate(cs[m]) {
        AssignOnlyIds(cs[m := cs[m].(id := LowestUnused(cs, n))], n, m + 1);
      } else {
        AssignOnlyIds(cs, n, m + 1);
      }
    }
  }

  /** Tracking changes nothing but the ids of valid started records. */
  lemma TrackOnlyIds(cs: seq<Cluster>, n: int, prev: seq<Cluster>, pn: int)
    requires 0 <= n <= |cs| && 0 <= pn <= |prev|
    ensures OnlyIds(cs, Track(cs, n, prev, pn), n)
  {
    var mid := InheritFrom(cs, n, prev, pn, 0);
    InheritOnlyIds(cs, n, prev, pn, 0);
    AssignOnlyIds(mid, n, 0);
  }

  /** The numbering invariant of a processed group: valid records carry
      positive ids, no two valid records share one, invalid records keep 0. */
  predicate Numbered(cs: seq<Cluster>, n: int)
    requires 0 <= n <= |cs|
  {
    && (forall k :: 0 <= k < n ==> (cs[k].valid <==> cs[k].id > 0))
    && (forall a, b :: 0 <= a < b < n && cs[a].valid && cs[b].valid ==> cs[a].id != cs[b].id)
  }

  /** Every started record still carries the zero id of a zeroed group. */
  predicate Unnumbered(cs: seq<Cluster>, n: int)
    requires 0 <= n <= |cs|
  {
    forall k :: 0 <= k < n ==> cs[k].id == 0
  }

  /** Invariant of the inheritance loop after q previous records: the ids
      handed out are distinct, went to valid records, and came from valid
      previous records before q. */
  predicate Inherited(cs: seq<Cluster>, n: int, prev: seq<Cluster>, q: int)
    requires 0 <= n <= |cs| && 0 <= q <= |prev|
  {
    && (forall k :: 0 <= k < n && cs[k].id != 0 ==>
      cs[k].valid && exists q' :: 0 <= q' < q && prev[q'].valid && prev[q'].id == cs[k].id)
    && (forall a, b :: 0 <= a < b < n && cs[a].id != 0 ==> cs[a].id != cs[b].id)
  }

  lemma {:induction false} InheritKeepsDistinct(cs: seq<Cluster>, n: int, prev: seq<Cluster>, pn: int, q: int)
    requires 0 <= n <= |cs| && 0 <= q <= pn <= |prev|
    requires Numbered(prev, pn)
    requires Inherited(cs, n, prev, q)
    ensures Inherited(InheritFrom(cs, n, prev, pn, q), n, prev, pn)
    decreases pn - q
  {
    if q == pn {
    } else if !prev[q].valid {
      InheritKeepsDistinct(cs, n, prev, pn, q + 1);
    } else {
      var m := Closest(cs, n, prev[q]);
      ClosestIsNearest(cs, n, prev[q]);
      var cs' := if m != -1 then cs[m := cs[m].(id := prev[q].id)] else cs;
      forall k | 0 <= k < n && cs'[k].id != 0
        ensures cs'[k].valid && exists q' :: 0 <= q' < q + 1 && prev[q'].valid && prev[q'].id == cs'[k].id
      {
        if k != m {
          var q' :| 0 <= q' < q && prev[q'].valid && prev[q'].id == cs[k].id;
          assert prev[q'].id == cs'[k].id;
        } else {
          assert prev[q].id == cs'[k].id;
        }
      }
      forall a, b | 0 <= a < b < n && cs'[a].id != 0
        ensures cs'[a].id != cs'[b].id
      {
        if m != -1 && (a == m || b == m) {
          var other := if a == m then b else a;
          if cs'[other].id != 0 {
            var q' :| 0 <= q' < q && prev[q'].valid && prev[q'].id == cs[other].id;
            assert prev[q'].id != prev[q].id;
          }
        }
      }
      InheritKeepsDistinct(cs', n, prev, pn, q + 1);
    }
  }

  /** Invariant of the numbering loop after m records. */
  predicate Assigned(cs: seq<Cluster>, n: int, m: int)
    requires 0 <= m <= n <= |cs|
  {
    && (forall k :: 0 <= k < n && cs[k].id != 0 ==> cs[k].valid && cs[k].id > 0)
    && (forall k :: 0 <= k < m && cs[k].valid ==> cs[k].id != 0)
    && (forall a, b :: 0 <= a < b < n && cs[a].id != 0 ==> cs[a].id != cs[b].id)
  }

  lemma {:induction false} AssignKeepsDistinct(cs: seq<Cluster>, n: int, m: int)
    requires 0 <= m <= n <= |cs|
    requires Assigned(cs, n, m)
    ensures Assigned(AssignFrom(cs, n, m), n, n)
    decreases n - m
  {
    if m < n {
      if Candidate(cs[m]) {
        var id := LowestUnused(cs, n);
        var cs' := cs[m := cs[m].(id := id)];
        forall a, b | 0 <= a < b < n && cs'[a].id != 0
          ensures cs'[a].id != cs'[b].id
        {
          if a == m {
            assert cs[b].id != id;
          } else if b == m {
            assert cs[a].id != id;
          }
        }
        AssignKeepsDistinct(cs', n, m + 1);
      } else {
        AssignKeepsDistinct(cs, n, m + 1);
      }
    }
  }

  /** Numbering a zeroed group against a numbered previous group leaves it
      numbered: every valid contact gets a positive id no other valid contact
      holds, and invalid records keep id 0. */
  lemma TrackNumbers(cs: seq<Cluster>, n: int, prev: seq<Cluster>, pn: int)
    requires 0 <= n <= |cs| && 0 <= pn <= |prev|
    requires Unnumbered(cs, n) && Numbered(prev, pn)
    ensures var r := Track(cs, n, prev, pn);
      && Numbered(r, n)
      && forall k :: 0 <= k < n && r[k].valid ==> Inherits(prev, pn, r[k].id) || Lowest(r, n, r[k].id)
  {
    var mid := InheritFrom(cs, n, prev, pn, 0);
    InheritKeepsDistinct(cs, n, prev, pn, 0);
    forall k | 0 <= k < n && mid[k].id != 0
      ensures mid[k].id > 0 && Inherits(prev, pn, mid[k].id)
    {
      var q' :| 0 <= q' < pn && prev[q'].valid && prev[q'].id == mid[k].id;
    }
    AssignKeepsDistinct(mid, n, 0);
    AssignKeepsSourced(mid, n, 0, prev, pn);
  }

  /** The id is held by a valid record of the previous group. */
  predicate Inherits(prev: seq<Cluster>, pn: int, id: int)
    requires 0 <= pn <= |prev|
  {
    exists q :: 0 <= q < pn && prev[q].valid && prev[q].id == id
  }

  /** Every positive id below `id` is in use among records [0, n). */
  predicate Lowest(cs: seq<Cluster>, n: int, id: int)
    requires 0 <= n <= |cs|
  {
    forall j :: 1 <= j < id ==> Used(cs, n, j)
  }

  /** Every id handed out so far came from the previous group or was the
      lowest one not in use. */
  predicate Sourced(cs: seq<Cluster>, n: int, prev: seq<Cluster>, pn: int)
    requires 0 <= n <= |cs| && 0 <= pn <= |prev|
  {
    forall k :: 0 <= k < n && cs[k].id != 0 ==> Inherits(prev, pn, cs[k].id) || Lowest(cs, n, cs[k].id)
  }

  /** Giving an unnumbered record an id keeps every positive id in use. */
  lemma UsedPersists(cs: seq<Cluster>, n: int, m: int, id: int, j: int)
    requires 0 <= m < n <= |cs| && cs[m].id == 0 && j != 0 && Used(cs, n, j)
    ensures Used(cs[m := cs[m].(id := id)], n, j)
  {
    var k :| 0 <= k < n && cs[k].id == j;
    assert cs[m := cs[m].(id := id)][k].id == j;
  }

  lemma {:induction false} AssignKeepsSourced(cs: seq<Cluster>, n: int, m: int, prev: seq<Cluster>, pn: int)
    requires 0 <= m <= n <= |cs| && 0 <= pn <= |prev|
    requires Sourced(cs, n, prev, pn)
    ensures Sourced(AssignFrom(cs, n, m), n, prev, pn)
    decreases n - m
  {
    if m < n {
      if Candidate(cs[m]) {
        var id := LowestUnused(cs, n);
        var cs' := cs[m := cs[m].(id := id)];
        forall k | 0 <= k < n && cs'[k].id != 0
          ensures Inherits(prev, pn, cs'[k].id) || Lowest(cs', n, cs'[k].id)
        {
          if k == m || !Inherits(prev, pn, cs[k].id) {
            forall j | 1 <= j < cs'[k].id
              ensures Used(cs', n, j)
            {
              UsedPersists(cs, n, m, id, j);
            }
          }
        }
        AssignKeepsSourced(cs', n, m + 1, prev, pn);
      } else {
        AssignKeepsSourced(cs, n, m + 1, prev, pn);
      }
    }
  }

  /** Number of valid records among [0, k). */
  function CountValid(cs: seq<Cluster>, k: int): nat
    requires 0 <= k <= |cs|
  {
    if k == 0 then 0 else CountValid(cs, k - 1) + (if cs[k - 1].valid then 1 else 0)
  }

  lemma {:induction false} CountGrows(cs: seq<Cluster>, k: int, m: int)
    requires 0 <= k < m <= |cs| && cs[k].valid
    ensures CountValid(cs, k) + 1 <= CountValid(cs, m)
    decreases m - k
  {
    if k + 1 < m {
      CountGrows(cs, k, m - 1);
    }
  }

  lemma {:induction false} CountHits(cs: seq<Cluster>, m: int, j: int)
    requires 0 <= m <= |cs| && 0 <= j < CountValid(cs, m)
    ensures exists k :: 0 <= k < m && cs[k].valid && CountValid(cs, k) == j
  {
    if j < CountValid(cs, m - 1) {
      CountHits(cs, m - 1, j);
      var k :| 0 <= k < m - 1 && cs[k].valid && CountValid(cs, k) == j;
      assert 0 <= k < m;
    } else {
      assert cs[m - 1].valid && CountValid(cs, m - 1) == j;
    }
  }

  /** Invariant of the numbering loop when nothing was inherited: the valid
      records before m are numbered 1, 2, ... in order, everything else is 0. */
  predicate Counted(cs: seq<Cluster>, n: int, m: int)
    requires 0 <= m <= n <= |cs|
  {
    && (forall k :: 0 <= k < m ==> cs[k].id == if cs[k].valid then CountValid(cs, k) + 1 else 0)
    && (forall k :: m <= k < n ==> cs[k].id == 0)
  }

  lemma LowestIsNextCount(cs: seq<Cluster>, n: int, m: int)
    requires 0 <= m <= n <= |cs| && Counted(cs, n, m)
    ensures LowestUnused(cs, n) == CountValid(cs, m) + 1
  {
    var c := CountValid(cs, m);
    var r := LowestUnused(cs, n);
    if r <= c {
      CountHits(cs, m, r - 1);
    }
    if r > c + 1 {
      assert Used(cs, n, c + 1);
      var k :| 0 <= k < n && cs[k].id == c + 1;
      if k < m && cs[k].valid {
        CountGrows(cs, k, m);
      }
    }
  }

  lemma {:induction false} AssignCounts(cs: seq<Cluster>, n: int, m: int)
    requires 0 <= m <= n <= |cs| && Counted(cs, n, m)
    ensures Counted(AssignFrom(cs, n, m), n, n)
    decreases n - m
  {
    if m < n {
      if Candidate(cs[m]) {
        LowestIsNextCount(cs, n, m);
        var cs' := cs[m := cs[m].(id := LowestUnused(cs, n))];
        assert forall k :: 0 <= k <= m + 1 ==> CountValid(cs', k) == CountValid(cs, k) by {
          forall k | 0 <= k <= m + 1
            ensures CountValid(cs', k) == CountValid(cs, k)
          {
            CountSameValidity(cs, cs', k);
          }
        }
        AssignCounts(cs', n, m + 1);
      } else {
        AssignCounts(cs, n, m + 1);
      }
    }
  }

  lemma {:induction false} CountSameValidity(cs: seq<Cluster>, cs': seq<Cluster>, k: int)
    requires 0 <= k <= |cs| && k <= |cs'|
    requires forall i :: 0 <= i < k ==> cs[i].valid == cs'[i].valid
    ensures CountValid(cs, k) == CountValid(cs', k)
  {
    if k > 0 {
      CountSameValidity(cs, cs', k - 1);
    }
  }

  /** With no valid previous contact, inheritance hands out nothing. */
  lemma {:induction false} InheritIdle(cs: seq<Cluster>, n: int, prev: seq<Cluster>, pn: int, q: int, q': int)
    requires 0 <= n <= |cs| && 0 <= q <= q' <= pn <= |prev|
    requires forall i :: q <= i < q' ==> !prev[i].valid
    ensures InheritFrom(cs, n, prev, pn, q) == InheritFrom(cs, n, prev, pn, q')
    decreases q' - q
  {
    if q < q' {
      InheritIdle(cs, n, prev, pn, q + 1, q');
    }
  }

  /** With no valid previous contact (the first frame, or after a frame
      without touch), the valid records are numbered 1, 2, ... in record order. */
  lemma FreshContactsNumberedInOrder(cs: seq<Cluster>, n: int, prev: seq<Cluster>, pn: int)
    requires 0 <= n <= |cs| && 0 <= pn <= |prev|
    requires Unnumbered(cs, n)
    requires forall q :: 0 <= q < pn ==> !prev[q].valid
    ensures forall k :: 0 <= k < n ==>
      Track(cs, n, prev, pn)[k].id == if cs[k].valid then CountValid(cs, k) + 1 else 0
  {
    InheritIdle(cs, n, prev, pn, 0, pn);
    AssignCounts(cs, n, 0);
    AssignOnlyIds(cs, n, 0);
    var r := Track(cs, n, prev, pn);
    forall k | 0 <= k < n
      ensures CountValid(r, k) == CountValid(cs, k)
    {
      CountSameValidity(cs, r, k);
    }
  }

  lemma {:induction false} AssignIdle(cs: seq<Cluster>, n: int, m: int)
    requires 0 <= m <= n <= |cs|
    requires forall k :: m <= k < n ==> !Candidate(cs[k])
    ensures AssignFrom(cs, n, m) == cs
    decreases n - m
  {
    if m < n {
      AssignIdle(cs, n, m + 1);
    }
  }

  /** A single contact that stays within reach of the single contact of the
      previous frame keeps its id. */
  lemma LoneContactKeepsId(cs: seq<Cluster>, n: int, prev: seq<Cluster>, pn: int, k: int, q: int)
    requires 0 <= k < n <= |cs| && 0 <= q < pn <= |prev|
    requires Unnumbered(cs, n)
    requires forall i :: 0 <= i < n ==> (cs[i].valid <==> i == k)
    requires forall i :: 0 <= i < pn ==> (prev[i].valid <==> i == q)
    requires prev[q].id > 0 && Distance(cs[k], prev[q]) < FarAway
    ensures Track(cs, n, prev, pn)[k].id == prev[q].id
  {
    InheritIdle(cs, n, prev, pn, 0, q);
    ClosestIsNearest(cs, n, prev[q]);
    var m := Closest(cs, n, prev[q]);
    assert m == k;
    var cs' := cs[k := cs[k].(id := prev[q].id)];
    assert InheritFrom(cs, n, prev, pn, q) == InheritFrom(cs', n, prev, pn, q + 1);
    InheritIdle(cs', n, prev, pn, q + 1, pn);
    AssignIdle(cs', n, 0);
  }

  /** On records that still hold an id from an earlier heatmap, tracking can
      hand the same id out twice: a stale valid record keeps id v while the
      one unnumbered valid record inherits v from the previous contact near
      it, and the group is no longer numbered. */
  lemma StaleIdDuplicated(cs: seq<Cluster>, n: int, prev: seq<Cluster>, pn: int, a: int, b: int, q: int)
    requires 0 <= a < n <= |cs| && 0 <= b < n && a != b && 0 <= q < pn <= |prev|
    requires cs[a].valid && cs[a].id > 0
    requires forall i :: 0 <= i < n ==> (Candidate(cs[i]) <==> i == b)
    requires forall i :: 0 <= i < pn ==> (prev[i].valid <==> i == q)
    requires prev[q].id == cs[a].id && Distance(cs[b], prev[q]) < FarAway
    ensures var r := Track(cs, n, prev, pn);
      r[a].valid && r[b].valid && r[a].id == r[b].id && !Numbered(r, n)
  {
    InheritIdle(cs, n, prev, pn, 0, q);
    ClosestIsNearest(cs, n, prev[q]);
    assert Closest(cs, n, prev[q]) == b;
    var cs' := cs[b := cs[b].(id := prev[q].id)];
    assert InheritFrom(cs, n, prev, pn, q) == InheritFrom(cs', n, prev, pn, q + 1);
    InheritIdle(cs', n, prev, pn, q + 1, pn);
    AssignIdle(cs', n, 0);
    var r := Track(cs, n, prev, pn);
    assert r == cs';
    if a < b {
      assert r[a].valid && r[b].valid && r[a].id == r[b].id;
    } else {
      assert r[b].valid && r[a].valid && r[b].id == r[a].id;
    }
  }
}
