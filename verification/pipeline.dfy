/** The per-read driver of ipts.c:246-535: the two alternating cluster
    groups, the processing of every heatmap report a read holds, and the
    order in which the stages of one heatmap run (ipts.c:316-525). */
module Pipeline {
  import opened Grid
  import opened Extraction
  import opened Seeds
  import opened Clusters
  import opened Geometry
  import opened Overlap
  import opened Tracking
  import opened Emit
  import opened Parser

  /** A group the scan may write into: sixteen records within the storage invariant. */
  predicate Stored(gr: Group) {
    IsGroup(gr) && Storage(gr.clusters)
  }

  /** Scanned records hold lit pixels and at least one each, so every started
      record has positive weight and its centre is defined. */
  lemma ScanWeighed(g: seq<Pixel>, st: seq<Cluster>)
    requires IsGrid(g) && Storage(st)
    ensures Weighed(Scan(g, st).0, Scan(g, st).1)
  {
    var r := Scan(g, st);
    forall k | 0 <= k < r.1
      ensures SumV(r.0[k].pixels) > 0
    {
      ScanNonEmpty(g, st, k);
      LitWeight(r.0[k].pixels);
    }
  }

  lemma LocateBoxed(cs: seq<Cluster>, n: int)
    requires 0 <= n <= |cs| && Weighed(cs, n)
    ensures AllBoxed(Locate(cs, n), n)
  {
    forall k | 0 <= k < n
      ensures Boxed(Locate(cs, n)[k])
    {
      LocateRecord(cs, n, k);
    }
  }

  /** Geometry, palm rejection and overlap removal (ipts.c:341-395). */
  function Settled(cs: seq<Cluster>, n: int): (r: seq<Cluster>)
    requires 0 <= n <= |cs| && Weighed(cs, n)
    ensures |r| == |cs|
  {
    LocateBoxed(cs, n);
    RemoveOverlaps(Locate(cs, n), n)
  }

  /** Every stage after the scan, tracking against the previous group last
      (ipts.c:341-435). */
  function Processed(cs: seq<Cluster>, n: int, prev: seq<Cluster>, pn: int): (r: seq<Cluster>)
    requires 0 <= n <= |cs| && Weighed(cs, n) && 0 <= pn <= |prev|
    ensures |r| == |cs|
  {
    Track(Settled(cs, n), n, prev, pn)
  }

  /** What the stages after the scan do to one record: a started record
      keeps its pixels and gets the geometry of them, and is valid afterwards
      only if it was valid or heavier than 50 and no started record is
      heavier than 1000; a valid record keeps its id unless it had none; the
      records from n on are untouched. */
  lemma ProcessedRecord(cs: seq<Cluster>, n: int, prev: seq<Cluster>, pn: int, k: int)
    requires 0 <= n <= |cs| && Weighed(cs, n) && 0 <= pn <= |prev| && 0 <= k < |cs|
    ensures Processed(cs, n, prev, pn)[k].pixels == cs[k].pixels
    ensures k >= n ==> Processed(cs, n, prev, pn)[k] == cs[k]
    ensures k < n ==>
      Processed(cs, n, prev, pn)[k] ==
        Measure(cs[k]).(valid := Processed(cs, n, prev, pn)[k].valid, id := Processed(cs, n, prev, pn)[k].id)
    ensures k < n && Processed(cs, n, prev, pn)[k].valid ==>
      (cs[k].valid || SumV(cs[k].pixels) > ValidWeight) && !HeavyCluster(cs, n)
    ensures k < n && cs[k].id != 0 ==> Processed(cs, n, prev, pn)[k].id == cs[k].id
  {
    var located := Locate(cs, n);
    LocateBoxed(cs, n);
    var settled := Settled(cs, n);
    LocateRecord(cs, n, k);
    OverlapOnlyClears(located, n);
    TrackOnlyIds(settled, n, prev, pn);
    if k < n && cs[k].id != 0 {
      assert settled[k].id == cs[k].id;
      InheritKeepsIds(settled, n, prev, pn, k);
    }
  }

  /** Tracking only numbers records that have no id yet. */
  lemma InheritKeepsIds(cs: seq<Cluster>, n: int, prev: seq<Cluster>, pn: int, k: int)
    requires 0 <= k < n <= |cs| && 0 <= pn <= |prev| && cs[k].id != 0
    ensures Track(cs, n, prev, pn)[k].id == cs[k].id
  {
    InheritFixesNumbered(cs, n, prev, pn, 0, k);
    AssignFixesNumbered(InheritFrom(cs, n, prev, pn, 0), n, 0, k);
  }

  lemma {:induction false} InheritFixesNumbered(cs: seq<Cluster>, n: int, prev: seq<Cluster>, pn: int, q: int, k: int)
    requires 0 <= k < n <= |cs| && 0 <= q <= pn <= |prev| && cs[k].id != 0
    ensures InheritFrom(cs, n, prev, pn, q)[k].id == cs[k].id
    decreases pn - q
  {
    if q < pn {
      if !prev[q].valid {
        InheritFixesNumbered(cs, n, prev, pn, q + 1, k);
      } else {
        var m := Closest(cs, n, prev[q]);
        ClosestIsNearest(cs, n, prev[q]);
        var cs' := if m != -1 then cs[m := cs[m].(id := prev[q].id)] else cs;
        assert cs'[k].id == cs[k].id;
        InheritFixesNumbered(cs', n, prev, pn, q + 1, k);
      }
    }
  }

  lemma {:induction false} AssignFixesNumbered(cs: seq<Cluster>, n: int, m: int, k: int)
    requires 0 <= m <= n <= |cs| && 0 <= k < n && cs[k].id != 0
    ensures AssignFrom(cs, n, m)[k].id == cs[k].id
    decreases n - m
  {
    if m < n {
      if Candidate(cs[m]) {
        var cs' := cs[m := cs[m].(id := LowestUnused(cs, n))];
        assert cs'[k].id == cs[k].id;
        AssignFixesNumbered(cs', n, m + 1, k);
      } else {
        AssignFixesNumbered(cs, n, m + 1, k);
      }
    }
  }

  /** The stages after the scan keep the storage invariant: they write no pixels. */
  lemma ProcessedStorage(cs: seq<Cluster>, n: int, prev: seq<Cluster>, pn: int)
    requires 0 <= n <= |cs| && Weighed(cs, n) && 0 <= pn <= |prev| && Storage(cs)
    ensures Storage(Processed(cs, n, prev, pn))
  {
    forall k | 0 <= k < |cs|
      ensures Processed(cs, n, prev, pn)[k].pixels == cs[k].pixels
    {
      ProcessedRecord(cs, n, prev, pn, k);
    }
  }

  /** Records that start without ids leave the stages numbered, given a
      numbered previous group. */
  lemma ProcessedNumbered(cs: seq<Cluster>, n: int, prev: seq<Cluster>, pn: int)
    requires 0 <= n <= |cs| && Weighed(cs, n) && 0 <= pn <= |prev|
    requires Unnumbered(cs, n) && Numbered(prev, pn)
    ensures Numbered(Processed(cs, n, prev, pn), n)
  {
    var located := Locate(cs, n);
    LocateBoxed(cs, n);
    var settled := Settled(cs, n);
    OverlapOnlyClears(located, n);
    forall k | 0 <= k < n
      ensures settled[k].id == 0
    {
      LocateRecord(cs, n, k);
    }
    TrackNumbers(settled, n, prev, pn);
  }

  /** One heatmap report, from its body bytes to the events it produces;
      `st` is the storage the scan writes into, `prev` the previous group. */
  function ProcessHeatmap(body: seq<u8>, st: seq<Cluster>, prev: Group): (r: (Group, seq<Event>))
    requires |body| == Cells && Storage(st) && IsGroup(prev)
    ensures Stored(r.0)
  {
    var scan := Scan(Extract(body), st);
    ScanWeighed(Extract(body), st);
    ProcessedStorage(scan.0, scan.1, prev.clusters, prev.size);
    var tracked := Processed(scan.0, scan.1, prev.clusters, prev.size);
    (Group(scan.1, tracked), Events(tracked, scan.1))
  }

  /** A heatmap scanned into zeroed storage against a numbered previous group
      gives a numbered group. */
  lemma FreshHeatmapNumbered(body: seq<u8>, prev: Group)
    requires |body| == Cells && IsGroup(prev) && Numbered(prev.clusters, prev.size)
    ensures var r := ProcessHeatmap(body, FreshGroup().clusters, prev).0;
      Numbered(r.clusters, r.size)
  {
    var g := Extract(body);
    var st := FreshGroup().clusters;
    var scan := Scan(g, st);
    ScanWeighed(g, st);
    forall k | 0 <= k < scan.1
      ensures scan.0[k].id == 0
    {
      ScanOnlyPixels(g, st, k);
    }
    ProcessedNumbered(scan.0, scan.1, prev.clusters, prev.size);
  }

  /** A heatmap with a cluster heavier than 1000 (a palm) releases every
      slot and BTN_TOUCH and reports nothing else. */
  lemma PalmReleasesAll(body: seq<u8>, st: seq<Cluster>, prev: Group)
    requires |body| == Cells && Storage(st) && IsGroup(prev)
    requires HeavyCluster(Scan(Extract(body), st).0, Scan(Extract(body), st).1)
    ensures ProcessHeatmap(body, st, prev).1 == [
      Slot(0), TrackingId(-1), Slot(1), TrackingId(-1), Slot(2), TrackingId(-1),
      Slot(3), TrackingId(-1), Slot(4), TrackingId(-1), Slot(5), TrackingId(-1),
      Touch(false), Sync]
  {
    var g := Extract(body);
    var scan := Scan(g, st);
    ScanWeighed(g, st);
    var tracked := Processed(scan.0, scan.1, prev.clusters, prev.size);
    forall k | 0 <= k < scan.1
      ensures !tracked[k].valid
    {
      ProcessedRecord(scan.0, scan.1, prev.clusters, prev.size, k);
    }
    ReleaseAll(tracked, scan.1);
  }

  /** The first bytes after a heatmap report header: its 64x44 body. */
  function Body(buf: seq<u8>, at: int): (body: seq<u8>)
    requires HeatmapAt(buf, at)
    ensures |body| == Cells
  {
    buf[at + ReportHeaderSize..at + ReportHeaderSize + Cells]
  }

  lemma FitsTail(buf: seq<u8>, ss: seq<Section>)
    requires Fits(buf, ss) && ss != []
    ensures Fits(buf, ss[1..])
  {
    forall i | 0 <= i < |ss[1..]| && ss[1..][i].Heatmap?
      ensures HeatmapAt(buf, ss[1..][i].at)
    {
      assert ss[1..][i] == ss[i + 1];
    }
  }

  /** Every heatmap section of a read in order, against the same previous
      group. When `zeroed` the scan writes into zeroed storage each time;
      otherwise it writes into whatever the group holds, as ipts.c does,
      which zeroes the group once per read (ipts.c:269) and not per heatmap. */
  function ProcessSections(buf: seq<u8>, ss: seq<Section>, cur: Group, prev: Group, zeroed: bool): (r: (Group, seq<Event>))
    requires Fits(buf, ss) && Stored(cur) && IsGroup(prev)
    ensures Stored(r.0)
    decreases |ss|
  {
    if ss == [] then (cur, [])
    else
      FitsTail(buf, ss);
      if ss[0].Heatmap? then
        var storage := if zeroed then FreshGroup().clusters else cur.clusters;
        var step := ProcessHeatmap(Body(buf, ss[0].at), storage, prev);
        var rest := ProcessSections(buf, ss[1..], step.0, prev, zeroed);
        (rest.0, step.1 + rest.1)
      else ProcessSections(buf, ss[1..], cur, prev, zeroed)
  }

  /** `cluster_groups[2]` and `current_cluster_group`. */
  datatype Tracker = Tracker(groups: seq<Group>, current: int)

  /** The shape the driver needs: two groups within the storage invariant. */
  predicate Shaped(t: Tracker) {
    && |t.groups| == 2 && 0 <= t.current <= 1
    && forall i :: 0 <= i < 2 ==> Stored(t.groups[i])
  }

  /** Shaped, and both groups numbered. */
  predicate Sound(t: Tracker) {
    && Shaped(t)
    && forall i :: 0 <= i < 2 ==> Numbered(t.groups[i].clusters, t.groups[i].size)
  }

  /** Both groups zeroed, the first current (ipts.c:248-250). */
  function Initial(): (t: Tracker)
    ensures Sound(t)
  {
    Tracker([FreshGroup(), FreshGroup()], 0)
  }

  /** One iteration of the read loop. A short read changes nothing. A full
      read zeroes the current group, walks the read, processes its heatmaps
      against the other group and makes that other group current. */
  function Step(t: Tracker, data: seq<u8>, asWritten: bool): (r: (Tracker, seq<Event>))
    requires Shaped(t) && |data| <= BufferSize
    ensures Shaped(r.0)
  {
    if |data| < BufferSize then (t, [])
    else
      var cur := t.current;
      var walk := WalkWith(data, asWritten);
      WalkFits(data, asWritten);
      var out := ProcessSections(data, walk.sections, FreshGroup(), t.groups[1 - cur], !asWritten);
      (Tracker(t.groups[cur := out.0], 1 - cur), out.1)
  }

  /** The driver with sub-frame ends that do not wrap and zeroed storage for
      every heatmap. */
  function FrameStep(t: Tracker, data: seq<u8>): (r: (Tracker, seq<Event>))
    requires Shaped(t) && |data| <= BufferSize
    ensures Shaped(r.0)
  {
    Step(t, data, false)
  }

  /** The driver as ipts.c performs it. */
  function FrameStepAsWritten(t: Tracker, data: seq<u8>): (r: (Tracker, seq<Event>))
    requires Shaped(t) && |data| <= BufferSize
    ensures Shaped(r.0)
  {
    Step(t, data, true)
  }

  lemma {:induction false} SectionsNumbered(buf: seq<u8>, ss: seq<Section>, cur: Group, prev: Group)
    requires Fits(buf, ss) && Stored(cur) && IsGroup(prev)
    requires Numbered(cur.clusters, cur.size) && Numbered(prev.clusters, prev.size)
    ensures var r := ProcessSections(buf, ss, cur, prev, true).0;
      Numbered(r.clusters, r.size)
    decreases |ss|
  {
    if ss != [] {
      FitsTail(buf, ss);
      if ss[0].Heatmap? {
        var step := ProcessHeatmap(Body(buf, ss[0].at), FreshGroup().clusters, prev);
        FreshHeatmapNumbered(Body(buf, ss[0].at), prev);
        SectionsNumbered(buf, ss[1..], step.0, prev);
      } else {
        SectionsNumbered(buf, ss[1..], cur, prev);
      }
    }
  }

  /** The corrected driver keeps both groups numbered (valid records carry
      distinct positive ids, invalid ones none), and a short read changes nothing. */
  lemma FrameStepSound(t: Tracker, data: seq<u8>)
    requires Sound(t) && |data| <= BufferSize
    ensures Sound(FrameStep(t, data).0)
    ensures |data| < BufferSize ==> FrameStep(t, data) == (t, [])
    ensures |data| == BufferSize ==> FrameStep(t, data).0.current == 1 - t.current
  {
    if |data| == BufferSize {
      var cur := t.current;
      var walk := WalkFrame(data);
      WalkFits(data, false);
      SectionsNumbered(data, walk.sections, FreshGroup(), t.groups[1 - cur]);
    }
  }

  /** A read in which no heatmap is found leaves the other group empty and
      current, and sends nothing: the next heatmap is tracked against an
      empty group. */
  lemma NoHeatmapNoEvents(t: Tracker, data: seq<u8>, asWritten: bool)
    requires Shaped(t) && |data| == BufferSize
    requires forall i :: 0 <= i < |WalkWith(data, asWritten).sections| ==> !WalkWith(data, asWritten).sections[i].Heatmap?
    ensures Step(t, data, asWritten) == (Tracker(t.groups[t.current := FreshGroup()], 1 - t.current), [])
  {
    WalkFits(data, asWritten);
    SectionsIdle(data, WalkWith(data, asWritten).sections, FreshGroup(), t.groups[1 - t.current], !asWritten);
  }

  lemma {:induction false} SectionsIdle(buf: seq<u8>, ss: seq<Section>, cur: Group, prev: Group, zeroed: bool)
    requires Fits(buf, ss) && Stored(cur) && IsGroup(prev)
    requires forall i :: 0 <= i < |ss| ==> !ss[i].Heatmap?
    ensures ProcessSections(buf, ss, cur, prev, zeroed) == (cur, [])
    decreases |ss|
  {
    if ss != [] {
      FitsTail(buf, ss);
      assert forall i :: 0 <= i < |ss[1..]| ==> ss[1..][i] == ss[i + 1];
      SectionsIdle(buf, ss[1..], cur, prev, zeroed);
    }
  }

  /** No section after the first heatmap is a heatmap. */
  predicate AtMostOneHeatmap(ss: seq<Section>) {
    forall i, j :: 0 <= i < j < |ss| && ss[i].Heatmap? ==> !ss[j].Heatmap?
  }

  lemma {:induction false} OneHeatmapAgrees(buf: seq<u8>, ss: seq<Section>, prev: Group)
    requires Fits(buf, ss) && IsGroup(prev) && AtMostOneHeatmap(ss)
    ensures ProcessSections(buf, ss, FreshGroup(), prev, true) == ProcessSections(buf, ss, FreshGroup(), prev, false)
    decreases |ss|
  {
    if ss != [] {
      FitsTail(buf, ss);
      var tail := ss[1..];
      assert forall i :: 0 <= i < |tail| ==> tail[i] == ss[i + 1];
      if ss[0].Heatmap? {
        var step := ProcessHeatmap(Body(buf, ss[0].at), FreshGroup().clusters, prev);
        SectionsIdle(buf, tail, step.0, prev, true);
        SectionsIdle(buf, tail, step.0, prev, false);
      } else {
        OneHeatmapAgrees(buf, tail, prev);
      }
    }
  }

  /** When the sub-frame ends do not wrap and a read holds at most one
      heatmap, ipts.c and the corrected driver behave the same. */
  lemma SingleHeatmapReadsAgree(t: Tracker, data: seq<u8>)
    requires Shaped(t) && |data| <= BufferSize
    requires FrameEndsFit(data)
    requires AtMostOneHeatmap(WalkFrame(data).sections)
    ensures FrameStepAsWritten(t, data) == FrameStep(t, data)
  {
    WalksAgree(data);
    if |data| == BufferSize {
      WalkFits(data, false);
      OneHeatmapAgrees(data, WalkFrame(data).sections, t.groups[1 - t.current]);
    }
  }

  /** A read section list holding one heatmap. */
  lemma OneSection(buf: seq<u8>, at: int, cur: Group, prev: Group, zeroed: bool)
    requires HeatmapAt(buf, at) && Stored(cur) && IsGroup(prev)
    ensures Fits(buf, [Heatmap(at)])
    ensures ProcessSections(buf, [Heatmap(at)], cur, prev, zeroed) ==
      ProcessHeatmap(Body(buf, at), if zeroed then FreshGroup().clusters else cur.clusters, prev)
  {
    var ss := [Heatmap(at)];
    assert Fits(buf, ss);
    var step := ProcessHeatmap(Body(buf, at), if zeroed then FreshGroup().clusters else cur.clusters, prev);
    assert ss[1..] == [];
    assert ProcessSections(buf, [], step.0, prev, zeroed) == (step.0, []);
    assert step.1 + [] == step.1;
  }

  /** A section list holding two heatmaps: the second is processed on the
      group the first left. */
  lemma TwoSections(buf: seq<u8>, a1: int, a2: int, cur: Group, prev: Group, zeroed: bool)
    requires HeatmapAt(buf, a1) && HeatmapAt(buf, a2) && Stored(cur) && IsGroup(prev)
    ensures Fits(buf, [Heatmap(a1), Heatmap(a2)])
    ensures var first := ProcessHeatmap(Body(buf, a1), if zeroed then FreshGroup().clusters else cur.clusters, prev).0;
      ProcessSections(buf, [Heatmap(a1), Heatmap(a2)], cur, prev, zeroed).0 ==
      ProcessHeatmap(Body(buf, a2), if zeroed then FreshGroup().clusters else first.clusters, prev).0
  {
    var ss := [Heatmap(a1), Heatmap(a2)];
    assert Fits(buf, ss);
    var first := ProcessHeatmap(Body(buf, a1), if zeroed then FreshGroup().clusters else cur.clusters, prev);
    assert ss[1..] == [Heatmap(a2)];
    OneSection(buf, a2, first.0, prev, zeroed);
  }

  /** A full read holding one touch sub-frame with one heatmap report:
      the driver processes exactly that heatmap, on zeroed storage, against
      the other group. */
  lemma SingleHeatmapFrame(t: Tracker, body: seq<u8>, pad: seq<u8>, asWritten: bool)
    requires Shaped(t) && |body| == Cells
    requires |SingleHeatmapBuffer(body, pad)| == BufferSize
    ensures var out := ProcessHeatmap(body, FreshGroup().clusters, t.groups[1 - t.current]);
      Step(t, SingleHeatmapBuffer(body, pad), asWritten) ==
        (Tracker(t.groups[t.current := out.0], 1 - t.current), out.1)
  {
    var buf := SingleHeatmapBuffer(body, pad);
    var at := FirstFrame + FrameHeaderSize;
    SingleHeatmapWalk(body, pad, asWritten);
    BodyOfSingle(buf, at, body);
    OneHeatmapRead(t, buf, at, asWritten);
  }

  lemma BodyOfSingle(buf: seq<u8>, at: int, body: seq<u8>)
    requires 0 <= at && |body| == Cells && |buf| >= at + ReportHeaderSize + Cells
    requires buf[at + ReportHeaderSize..][..Cells] == body
    ensures buf[at + ReportHeaderSize..at + ReportHeaderSize + Cells] == body
  {
  }

  /** A full read whose walk finds one heatmap and nothing else. */
  lemma OneHeatmapRead(t: Tracker, data: seq<u8>, at: int, asWritten: bool)
    requires Shaped(t) && |data| == BufferSize
    requires WalkWith(data, asWritten).sections == [Heatmap(at)]
    ensures HeatmapAt(data, at)
    ensures var out := ProcessHeatmap(Body(data, at), FreshGroup().clusters, t.groups[1 - t.current]);
      Step(t, data, asWritten) == (Tracker(t.groups[t.current := out.0], 1 - t.current), out.1)
  {
    WalkFits(data, asWritten);
    var ss := WalkWith(data, asWritten).sections;
    assert ss[0].Heatmap? && ss[0].at == at;
    var prev := t.groups[1 - t.current];
    OneSection(data, at, FreshGroup(), prev, !asWritten);
    StepSections(t, data, asWritten);
  }

  lemma StepSections(t: Tracker, data: seq<u8>, asWritten: bool)
    requires Shaped(t) && |data| == BufferSize
    ensures Fits(data, WalkWith(data, asWritten).sections)
    ensures var out := ProcessSections(data, WalkWith(data, asWritten).sections, FreshGroup(), t.groups[1 - t.current], !asWritten);
      Step(t, data, asWritten) == (Tracker(t.groups[t.current := out.0], 1 - t.current), out.1)
  {
    WalkFits(data, asWritten);
  }

  /** The k-th record of a heatmap processed on zeroed storage is the cluster
      of the k-th seed, starting at that seed. */
  lemma FreshClusterStartsAtSeed(body: seq<u8>, prev: Group, k: int)
    requires |body| == Cells && IsGroup(prev) && 0 <= k < |AllSeeds(Extract(body))| && k < MaxClusters
    ensures var r := ProcessHeatmap(body, FreshGroup().clusters, prev).0;
      k < r.size && r.clusters[k].pixels != [] && r.clusters[k].pixels[0] == AllSeeds(Extract(body))[k]
  {
    var g := Extract(body);
    var st := FreshGroup().clusters;
    var scan := Scan(g, st);
    ScanWeighed(g, st);
    ScanFresh(g, k);
    ProcessedRecord(scan.0, scan.1, prev.clusters, prev.size, k);
  }

  /** A heatmap processed on storage that held a cluster: the record keeps
      the old pixels at its front. */
  lemma StaleClusterKeepsPixels(body: seq<u8>, st: seq<Cluster>, prev: Group, k: int)
    requires |body| == Cells && Storage(st) && IsGroup(prev) && 0 <= k < MaxClusters
    ensures var r := ProcessHeatmap(body, st, prev).0;
      |st[k].pixels| <= |r.clusters[k].pixels| && r.clusters[k].pixels[..|st[k].pixels|] == st[k].pixels
  {
    var g := Extract(body);
    var scan := Scan(g, st);
    ScanWeighed(g, st);
    ScanKeepsOldPixels(g, st, k);
    ProcessedRecord(scan.0, scan.1, prev.clusters, prev.size, k);
  }

  /** The first seed of the heatmap whose body follows the header at `at`. */
  function FirstSeed(buf: seq<u8>, at: int): Pixel
    requires HeatmapAt(buf, at) && AllSeeds(Extract(Body(buf, at))) != []
  {
    AllSeeds(Extract(Body(buf, at)))[0]
  }

  /** Corrected: with two heatmap reports in one read, the group left for
      the next read has cluster 0 starting at the second heatmap's first seed. */
  lemma TwoHeatmapsFresh(buf: seq<u8>, a1: int, a2: int, prev: Group)
    requires HeatmapAt(buf, a1) && HeatmapAt(buf, a2) && IsGroup(prev)
    requires AllSeeds(Extract(Body(buf, a2))) != []
    ensures Fits(buf, [Heatmap(a1), Heatmap(a2)])
    ensures var r := ProcessSections(buf, [Heatmap(a1), Heatmap(a2)], FreshGroup(), prev, true).0;
      r.clusters[0].pixels != [] && r.clusters[0].pixels[0] == FirstSeed(buf, a2)
  {
    TwoSections(buf, a1, a2, FreshGroup(), prev, true);
    FreshClusterStartsAtSeed(Body(buf, a2), prev, 0);
  }

  /** As written: with two heatmap reports in one read, cluster 0 of the
      second heatmap is grown into the record the first heatmap filled, so it
      starts at the first heatmap's seed; whenever the two heatmaps' first
      seeds differ, the group left behind differs from the corrected one. */
  lemma TwoHeatmapsStale(buf: seq<u8>, a1: int, a2: int, prev: Group)
    requires HeatmapAt(buf, a1) && HeatmapAt(buf, a2) && IsGroup(prev)
    requires AllSeeds(Extract(Body(buf, a1))) != [] && AllSeeds(Extract(Body(buf, a2))) != []
    ensures Fits(buf, [Heatmap(a1), Heatmap(a2)])
    ensures var r := ProcessSections(buf, [Heatmap(a1), Heatmap(a2)], FreshGroup(), prev, false).0;
      r.clusters[0].pixels != [] && r.clusters[0].pixels[0] == FirstSeed(buf, a1)
    ensures FirstSeed(buf, a1) != FirstSeed(buf, a2) ==>
        ProcessSections(buf, [Heatmap(a1), Heatmap(a2)], FreshGroup(), prev, false) !=
        ProcessSections(buf, [Heatmap(a1), Heatmap(a2)], FreshGroup(), prev, true)
  {
    TwoSections(buf, a1, a2, FreshGroup(), prev, false);
    var first := ProcessHeatmap(Body(buf, a1), FreshGroup().clusters, prev);
    FreshClusterStartsAtSeed(Body(buf, a1), prev, 0);
    StaleClusterKeepsPixels(Body(buf, a2), first.0.clusters, prev, 0);
    TwoHeatmapsFresh(buf, a1, a2, prev);
  }
}
