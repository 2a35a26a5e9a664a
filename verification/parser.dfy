/** The walk over one 7485-byte read (ipts.c:276-535): the HID header, the
    raw-data header, each sub-frame and, inside touch sub-frames, each report.
    Every read the C makes through a cast pointer is a bounds-checked read
    here; where the C would read outside its buffer the walk stops with
    OutOfBounds instead. */
module Parser {
  import opened Grid

  /** Bytes requested by each `read` (ipts.c:246, 261-262). */
  const BufferSize: int := 7485

  const HidHeaderSize: int := 10
  const RawHeaderSize: int := 12
  const FrameHeaderSize: int := 16
  const ReportHeaderSize: int := 4
  const StylusHeaderSize: int := 8
  const StylusElementSize: int := 16

  /** HID header `type` announcing raw touch data (ipts.c:282). */
  const RawData: int := 0xEE
  /** Sub-frame types that carry reports (ipts.c:295). */
  const TouchFrameA: int := 6
  const TouchFrameB: int := 8
  /** Report types (ipts.c:301, 310). */
  const StylusReport: int := 0x60
  const HeatmapReport: int := 0x25

  /** Offset of the sub-frame count in the buffer: the raw header starts
      after the HID header and its `frames` field follows `counter`. */
  const FramesField: int := HidHeaderSize + 4
  /** Offset of the `type` field of the HID header. */
  const TypeField: int := 8
  /** Where the first sub-frame header starts. */
  const FirstFrame: int := HidHeaderSize + RawHeaderSize

  predicate Within(buf: seq<u8>, at: int, width: int) {
    0 <= at && 0 <= width && at + width <= |buf|
  }

  function U8(buf: seq<u8>, at: int): (v: int)
    requires Within(buf, at, 1)
    ensures 0 <= v < 0x100
  {
    buf[at]
  }

  /** Little-endian 16-bit field. */
  function U16(buf: seq<u8>, at: int): (v: int)
    requires Within(buf, at, 2)
    ensures 0 <= v < 0x1_0000
  {
    U8(buf, at) + 0x100 * U8(buf, at + 1)
  }

  /** Little-endian 32-bit field. */
  function U32(buf: seq<u8>, at: int): (v: int)
    requires Within(buf, at, 4)
    ensures 0 <= v < 0x1_0000_0000
  {
    U16(buf, at) + 0x1_0000 * U16(buf, at + 2)
  }

  /** The little-endian bytes of a 16-bit value. */
  function Le16(v: int): (b: seq<u8>)
    requires 0 <= v < 0x1_0000
    ensures |b| == 2
  {
    [v % 0x100, v / 0x100]
  }

  /** The little-endian bytes of a 32-bit value. */
  function Le32(v: int): (b: seq<u8>)
    requires 0 <= v < 0x1_0000_0000
    ensures |b| == 4
  {
    Le16(v % 0x1_0000) + Le16(v / 0x1_0000)
  }

  lemma ReadLe16(buf: seq<u8>, at: int, v: int)
    requires 0 <= v < 0x1_0000 && Within(buf, at, 2) && buf[at..at + 2] == Le16(v)
    ensures U16(buf, at) == v
  {
    assert buf[at] == Le16(v)[0] && buf[at + 1] == Le16(v)[1];
  }

  lemma ReadLe32(buf: seq<u8>, at: int, v: int)
    requires 0 <= v < 0x1_0000_0000 && Within(buf, at, 4) && buf[at..at + 4] == Le32(v)
    ensures U32(buf, at) == v
  {
    var b := buf[at..at + 4];
    assert buf[at..at + 2] == b[..2] == Le32(v)[..2] == Le16(v % 0x1_0000);
    assert buf[at + 2..at + 4] == b[2..] == Le32(v)[2..] == Le16(v / 0x1_0000);
    ReadLe16(buf, at, v % 0x1_0000);
    ReadLe16(buf, at + 2, v / 0x1_0000);
  }

  /** The fields of `struct ipts_stylus_element` that ipts.c reads, with the
      offset of the element they were read from. */
  datatype StylusElement = StylusElement(at: int, mode: int, x: int, y: int, pressure: int, altitude: int, azimuth: int)

  /** What the walk finds, each at the offset of its own header. */
  datatype Section =
    | Heatmap(at: int)                                               // a 0x25 report; its body follows the header
    | Stylus(at: int, serial: int, elements: seq<StylusElement>)     // a 0x60 report
    | Skipped(at: int, kind: int)                                    // a sub-frame of another type

  /** A bounds-checked read: the value, or the first read that would fall
      outside the buffer. */
  datatype Read<T> = Got(value: T) | Beyond(at: int, width: int)

  datatype Status = Done | OutOfBounds(at: int, width: int)

  /** The sections met, in order, and how the walk ended. */
  datatype Walk = Walk(sections: seq<Section>, status: Status)

  /** Where element n of a stylus report whose body starts at `body` lies:
      `pos + 8 + n * 16` at ipts.c:306. */
  function ElementOffset(body: int, n: int): int {
    body + StylusHeaderSize + n * StylusElementSize
  }

  /** One element read at offset e; its printed fields span bytes 2..14. */
  function ElementAt(buf: seq<u8>, e: int): Read<StylusElement> {
    if !Within(buf, e + 2, 12) then Beyond(e + 2, 12)
    else Got(StylusElement(e, U16(buf, e + 2), U16(buf, e + 4), U16(buf, e + 6),
                           U16(buf, e + 8), U16(buf, e + 10), U16(buf, e + 12)))
  }

  /** The element loop of ipts.c:305-309 from element k on; `at` is the
      report body. The list is complete exactly when every announced element
      lies in the buffer, and entry j is the element at offset k + j. */
  function StylusElements(buf: seq<u8>, at: int, k: int, count: int): (r: Read<seq<StylusElement>>)
    requires 0 <= k <= count
    ensures r.Got? <==> forall n :: k <= n < count ==> ElementAt(buf, ElementOffset(at, n)).Got?
    ensures r.Got? ==> |r.value| == count - k
    ensures r.Got? ==> forall j :: 0 <= j < |r.value| ==>
      r.value[j].at == ElementOffset(at, k + j) && ElementAt(buf, ElementOffset(at, k + j)) == Got(r.value[j])
    decreases count - k
  {
    if k == count then Got([])
    else
      match ElementAt(buf, ElementOffset(at, k))
      case Beyond(a, w) => Beyond(a, w)
      case Got(element) =>
        match StylusElements(buf, at, k + 1, count)
        case Got(rest) => Got([element] + rest)
        case Beyond(a, w) => Beyond(a, w)
  }

  /** The body of one report whose header starts at `at` (ipts.c:297-312). */
  function ReadReport(buf: seq<u8>, at: int): Read<seq<Section>>
    requires Within(buf, at, ReportHeaderSize)
  {
    var kind := U8(buf, at);
    var body := at + ReportHeaderSize;
    if kind == StylusReport then
      if !Within(buf, body, StylusHeaderSize) then Beyond(body, StylusHeaderSize)
      else
        match StylusElements(buf, body, 0, U8(buf, body))
        case Got(elements) => Got([Stylus(at, U32(buf, body + 4), elements)])
        case Beyond(a, w) => Beyond(a, w)
    else if kind == HeatmapReport then
      if !Within(buf, body, Cells) then Beyond(body, Cells) else Got([Heatmap(at)])
    else Got([])
  }

  /** The report loop `while (pos < eof)` of ipts.c:296-531; also returns
      where it leaves `pos`. */
  function Reports(buf: seq<u8>, pos: int, eof: int): (r: (Walk, int))
    decreases eof - pos
  {
    if pos >= eof then (Walk([], Done), pos)
    else if !Within(buf, pos, ReportHeaderSize) then (Walk([], OutOfBounds(pos, ReportHeaderSize)), pos)
    else
      match ReadReport(buf, pos)
      case Beyond(a, w) => (Walk([], OutOfBounds(a, w)), pos)
      case Got(found) =>
        var next := pos + ReportHeaderSize + U16(buf, pos + 2);
        var rest := Reports(buf, next, eof);
        (Walk(found + rest.0.sections, rest.0.status), rest.1)
  }

  /** `int eof = pos + size`: the sum is taken in unsigned 32-bit arithmetic
      and stored in a 32-bit `int`, so it wraps. */
  function SubFrameEndAsWritten(body: int, size: int): (eof: int)
    ensures -0x8000_0000 <= eof < 0x8000_0000
    ensures (eof - (body + size)) % 0x1_0000_0000 == 0
    ensures -0x8000_0000 <= body + size < 0x8000_0000 ==> eof == body + size
  {
    var u := (body + size) % 0x1_0000_0000;
    if u >= 0x8000_0000 then u - 0x1_0000_0000 else u
  }

  /** The end of a sub-frame as the format means it: its body plus its size. */
  function SubFrameEnd(body: int, size: int): int {
    body + size
  }

  /** The sub-frame loop of ipts.c:287-535 with `count` sub-frames left and
      the next header at `pos`; `asWritten` selects the wrapping end. */
  function SubFrames(buf: seq<u8>, pos: int, count: nat, asWritten: bool): Walk
    decreases count
  {
    if count == 0 then Walk([], Done)
    else if !Within(buf, pos + 2, 6) then Walk([], OutOfBounds(pos + 2, 6))
    else
      var kind := U16(buf, pos + 2);
      var size := U32(buf, pos + 4);
      var body := pos + FrameHeaderSize;
      var eof := if asWritten then SubFrameEndAsWritten(body, size) else SubFrameEnd(body, size);
      if kind == TouchFrameA || kind == TouchFrameB then
        var inner := Reports(buf, body, eof);
        if inner.0.status != Done then inner.0
        else
          var rest := SubFrames(buf, inner.1, count - 1, asWritten);
          Walk(inner.0.sections + rest.sections, rest.status)
      else
        var rest := SubFrames(buf, eof, count - 1, asWritten);
        Walk([Skipped(pos, kind)] + rest.sections, rest.status)
  }

  function WalkWith(buf: seq<u8>, asWritten: bool): Walk {
    if !Within(buf, TypeField, 1) then Walk([], OutOfBounds(TypeField, 1))
    else if U8(buf, TypeField) != RawData then Walk([], Done)
    else if !Within(buf, FramesField, 4) then Walk([], OutOfBounds(FramesField, 4))
    else SubFrames(buf, FirstFrame, U32(buf, FramesField), asWritten)
  }

  /** The walk with sub-frame ends computed without wrapping. */
  function WalkFrame(buf: seq<u8>): Walk {
    WalkWith(buf, false)
  }

  /** The walk as ipts.c performs it. */
  function WalkFrameAsWritten(buf: seq<u8>): Walk {
    WalkWith(buf, true)
  }

  /** Along the walk from the header at `pos`, with `count` sub-frames left,
      every sub-frame end `pos + size` fits in a 32-bit signed `int`. */
  predicate EndsFit(buf: seq<u8>, pos: int, count: nat)
    decreases count
  {
    count == 0 || !Within(buf, pos + 2, 6) ||
      var kind := U16(buf, pos + 2);
      var body := pos + FrameHeaderSize;
      var eof := SubFrameEnd(body, U32(buf, pos + 4));
      && -0x8000_0000 <= eof < 0x8000_0000
      && if kind == TouchFrameA || kind == TouchFrameB then
           var inner := Reports(buf, body, eof);
           inner.0.status != Done || EndsFit(buf, inner.1, count - 1)
         else EndsFit(buf, eof, count - 1)
  }

  /** No sub-frame end of the read wraps. */
  predicate FrameEndsFit(buf: seq<u8>) {
    Within(buf, TypeField, 1) && U8(buf, TypeField) == RawData && Within(buf, FramesField, 4) ==>
      EndsFit(buf, FirstFrame, U32(buf, FramesField))
  }

  lemma {:induction false} SubFramesAgree(buf: seq<u8>, pos: int, count: nat)
    requires EndsFit(buf, pos, count)
    ensures SubFrames(buf, pos, count, true) == SubFrames(buf, pos, count, false)
    decreases count
  {
    if count > 0 && Within(buf, pos + 2, 6) {
      var kind := U16(buf, pos + 2);
      var size := U32(buf, pos + 4);
      var body := pos + FrameHeaderSize;
      var eof := SubFrameEnd(body, size);
      assert SubFrameEndAsWritten(body, size) == eof;
      if kind == TouchFrameA || kind == TouchFrameB {
        var inner := Reports(buf, body, eof);
        if inner.0.status == Done {
          SubFramesAgree(buf, inner.1, count - 1);
        }
      } else {
        SubFramesAgree(buf, eof, count - 1);
      }
    }
  }

  /** When no sub-frame end wraps, the walk as written and the walk with
      unwrapped ends are the same walk. */
  lemma WalksAgree(buf: seq<u8>)
    requires FrameEndsFit(buf)
    ensures WalkFrameAsWritten(buf) == WalkFrame(buf)
  {
    if Within(buf, TypeField, 1) && U8(buf, TypeField) == RawData && Within(buf, FramesField, 4) {
      SubFramesAgree(buf, FirstFrame, U32(buf, FramesField));
    }
  }

  function At(s: Section): int {
    s.at
  }

  /** Section offsets strictly increase and all lie at or after `lo`. */
  predicate Ascending(ss: seq<Section>, lo: int) {
    && (forall i :: 0 <= i < |ss| ==> lo <= At(ss[i]))
    && (forall i, j :: 0 <= i < j < |ss| ==> At(ss[i]) < At(ss[j]))
  }

  lemma AscendingJoin(a: seq<Section>, b: seq<Section>, lo: int, mid: int)
    requires Ascending(a, lo) && Ascending(b, mid)
    requires lo <= mid && forall i :: 0 <= i < |a| ==> At(a[i]) < mid
    ensures Ascending(a + b, lo)
  {
    var ab := a + b;
    forall i | 0 <= i < |ab|
      ensures lo <= At(ab[i])
    {
      if i >= |a| {
        assert ab[i] == b[i - |a|];
      }
    }
    forall i, j | 0 <= i < j < |ab|
      ensures At(ab[i]) < At(ab[j])
    {
      if j >= |a| && i < |a| {
        assert ab[j] == b[j - |a|];
      } else if i >= |a| {
        assert ab[i] == b[i - |a|] && ab[j] == b[j - |a|];
      }
    }
  }

  /** The sections ReadReport yields sit at the report header. */
  lemma ReadReportAt(buf: seq<u8>, at: int)
    requires Within(buf, at, ReportHeaderSize)
    ensures ReadReport(buf, at).Got? ==> forall i :: 0 <= i < |ReadReport(buf, at).value| ==> At(ReadReport(buf, at).value[i]) == at
    ensures ReadReport(buf, at).Got? ==> |ReadReport(buf, at).value| <= 1
  {
    var kind := U8(buf, at);
    var body := at + ReportHeaderSize;
    if kind == StylusReport && Within(buf, body, StylusHeaderSize) {
      match StylusElements(buf, body, 0, U8(buf, body))
      case Got(elements) =>
        assert ReadReport(buf, at) == Got([Stylus(at, U32(buf, body + 4), elements)]);
      case Beyond(a, w) =>
    }
  }

  /** Each report moves `pos` forward by at least its header, so the report
      loop ends and its sections ascend; it stops at or after `pos`. */
  lemma {:induction false} ReportsAscend(buf: seq<u8>, pos: int, eof: int)
    ensures var r := Reports(buf, pos, eof);
      && Ascending(r.0.sections, pos)
      && pos <= r.1
      && (forall i :: 0 <= i < |r.0.sections| ==> At(r.0.sections[i]) < r.1)
    decreases eof - pos
  {
    if pos < eof && Within(buf, pos, ReportHeaderSize) && ReadReport(buf, pos).Got? {
      var found := ReadReport(buf, pos).value;
      var next := pos + ReportHeaderSize + U16(buf, pos + 2);
      ReportsAscend(buf, next, eof);
      ReadReportAt(buf, pos);
      AscendingJoin(found, Reports(buf, next, eof).0.sections, pos, next);
    }
  }

  /** Every sub-frame moves the walk forward: no header is visited twice and
      the sections come out in buffer order. */
  lemma {:induction false} SubFramesAscend(buf: seq<u8>, pos: int, count: nat)
    ensures Ascending(SubFrames(buf, pos, count, false).sections, pos)
    decreases count
  {
    if count > 0 && Within(buf, pos + 2, 6) {
      var kind := U16(buf, pos + 2);
      var size := U32(buf, pos + 4);
      var body := pos + FrameHeaderSize;
      var eof := SubFrameEnd(body, size);
      if kind == TouchFrameA || kind == TouchFrameB {
        var inner := Reports(buf, body, eof);
        ReportsAscend(buf, body, eof);
        if inner.0.status == Done {
          SubFramesAscend(buf, inner.1, count - 1);
          AscendingJoin(inner.0.sections, SubFrames(buf, inner.1, count - 1, false).sections, pos, inner.1);
        }
      } else {
        SubFramesAscend(buf, eof, count - 1);
        AscendingJoin([Skipped(pos, kind)], SubFrames(buf, eof, count - 1, false).sections, pos, eof);
      }
    }
  }

  /** The walk meets sections in strictly increasing buffer order. */
  lemma WalkAscends(buf: seq<u8>)
    ensures Ascending(WalkFrame(buf).sections, 0)
  {
    if Within(buf, TypeField, 1) && U8(buf, TypeField) == RawData && Within(buf, FramesField, 4) {
      SubFramesAscend(buf, FirstFrame, U32(buf, FramesField));
    }
  }

  /** A heatmap report header at `at` whose full body lies in the buffer. */
  predicate HeatmapAt(buf: seq<u8>, at: int) {
    Within(buf, at, ReportHeaderSize + Cells) && U8(buf, at) == HeatmapReport
  }

  /** Every heatmap section the walk yields can be read in full. */
  predicate Fits(buf: seq<u8>, ss: seq<Section>) {
    forall i :: 0 <= i < |ss| && ss[i].Heatmap? ==> HeatmapAt(buf, ss[i].at)
  }

  lemma FitsJoin(buf: seq<u8>, a: seq<Section>, b: seq<Section>)
    requires Fits(buf, a) && Fits(buf, b)
    ensures Fits(buf, a + b)
  {
    forall i | 0 <= i < |a + b| && (a + b)[i].Heatmap?
      ensures HeatmapAt(buf, (a + b)[i].at)
    {
      if i >= |a| {
        assert (a + b)[i] == b[i - |a|];
      }
    }
  }

  lemma {:induction false} ReportsFit(buf: seq<u8>, pos: int, eof: int)
    ensures Fits(buf, Reports(buf, pos, eof).0.sections)
    decreases eof - pos
  {
    if pos < eof && Within(buf, pos, ReportHeaderSize) && ReadReport(buf, pos).Got? {
      var next := pos + ReportHeaderSize + U16(buf, pos + 2);
      ReportsFit(buf, next, eof);
      FitsJoin(buf, ReadReport(buf, pos).value, Reports(buf, next, eof).0.sections);
    }
  }

  lemma {:induction false} SubFramesFit(buf: seq<u8>, pos: int, count: nat, asWritten: bool)
    ensures Fits(buf, SubFrames(buf, pos, count, asWritten).sections)
    decreases count
  {
    if count > 0 && Within(buf, pos + 2, 6) {
      var kind := U16(buf, pos + 2);
      var size := U32(buf, pos + 4);
      var body := pos + FrameHeaderSize;
      var eof := if asWritten then SubFrameEndAsWritten(body, size) else SubFrameEnd(body, size);
      if kind == TouchFrameA || kind == TouchFrameB {
        var inner := Reports(buf, body, eof);
        ReportsFit(buf, body, eof);
        if inner.0.status == Done {
          SubFramesFit(buf, inner.1, count - 1, asWritten);
          FitsJoin(buf, inner.0.sections, SubFrames(buf, inner.1, count - 1, asWritten).sections);
        }
      } else {
        SubFramesFit(buf, eof, count - 1, asWritten);
        FitsJoin(buf, [Skipped(pos, kind)], SubFrames(buf, eof, count - 1, asWritten).sections);
      }
    }
  }

  /** Every heatmap the walk hands on is a 0x25 report whose 2816-byte body
      lies inside the buffer, with either end computation. */
  lemma WalkFits(buf: seq<u8>, asWritten: bool)
    ensures Fits(buf, WalkWith(buf, asWritten).sections)
  {
    if Within(buf, TypeField, 1) && U8(buf, TypeField) == RawData && Within(buf, FramesField, 4) {
      SubFramesFit(buf, FirstFrame, U32(buf, FramesField), asWritten);
    }
  }

  /** The HID header announcing raw data followed by the raw header. */
  function RawHeaderBytes(frames: int): (b: seq<u8>)
    requires 0 <= frames < 0x1_0000_0000
    ensures |b| == FirstFrame
  {
    [0, 0, 0, 0, 0, 0, 0, 0, RawData, 0] + [0, 0, 0, 0] + Le32(frames) + [0, 0, 0, 0]
  }

  function FrameHeaderBytes(kind: int, size: int): (b: seq<u8>)
    requires 0 <= kind < 0x1_0000 && 0 <= size < 0x1_0000_0000
    ensures |b| == FrameHeaderSize
  {
    [0, 0] + Le16(kind) + Le32(size) + [0, 0, 0, 0, 0, 0, 0, 0]
  }

  function ReportHeaderBytes(kind: u8, size: int): (b: seq<u8>)
    requires 0 <= size < 0x1_0000
    ensures |b| == ReportHeaderSize
  {
    [kind, 0] + Le16(size)
  }

  lemma SubSlice(buf: seq<u8>, a: int, b: int, lo: int, hi: int)
    requires 0 <= a <= b <= |buf| && 0 <= lo <= hi <= b - a
    ensures buf[a..b][lo..hi] == buf[a + lo..a + hi]
  {
    forall i | 0 <= i < hi - lo
      ensures buf[a..b][lo..hi][i] == buf[a + lo..a + hi][i]
    {
      assert buf[a..b][lo..hi][i] == buf[a..b][lo + i] == buf[a + lo + i];
    }
  }

  lemma FrameLayout(kind: int, size: int)
    requires 0 <= kind < 0x1_0000 && 0 <= size < 0x1_0000_0000
    ensures FrameHeaderBytes(kind, size)[2..4] == Le16(kind)
    ensures FrameHeaderBytes(kind, size)[4..8] == Le32(size)
  {
    var frame := FrameHeaderBytes(kind, size);
    var zeros: seq<u8> := [0, 0, 0, 0, 0, 0, 0, 0];
    assert frame == [0, 0] + Le16(kind) + Le32(size) + zeros;
    assert frame[2..4] == Le16(kind);
    assert frame[4..8] == Le32(size);
  }

  /** The fields the walk reads from the headers that `RawHeaderBytes` and
      `FrameHeaderBytes` lay down. */
  lemma HeaderFields(buf: seq<u8>, frames: int, kind: int, size: int)
    requires 0 <= frames < 0x1_0000_0000 && 0 <= kind < 0x1_0000 && 0 <= size < 0x1_0000_0000
    requires |buf| >= FirstFrame + FrameHeaderSize
    requires buf[..FirstFrame] == RawHeaderBytes(frames)
    requires buf[FirstFrame..FirstFrame + FrameHeaderSize] == FrameHeaderBytes(kind, size)
    ensures U8(buf, TypeField) == RawData && U32(buf, FramesField) == frames
    ensures U16(buf, FirstFrame + 2) == kind && U32(buf, FirstFrame + 4) == size
  {
    var head := RawHeaderBytes(frames);
    var frame := FrameHeaderBytes(kind, size);
    assert buf[TypeField] == head[TypeField];
    SubSlice(buf, 0, FirstFrame, FramesField, FramesField + 4);
    assert head[FramesField..FramesField + 4] == Le32(frames);
    ReadLe32(buf, FramesField, frames);
    FrameLayout(kind, size);
    SubSlice(buf, FirstFrame, FirstFrame + FrameHeaderSize, 2, 4);
    ReadLe16(buf, FirstFrame + 2, kind);
    SubSlice(buf, FirstFrame, FirstFrame + FrameHeaderSize, 4, 8);
    ReadLe32(buf, FirstFrame + 4, size);
  }

  /** A read holding one touch sub-frame with one heatmap report. */
  function SingleHeatmapBuffer(body: seq<u8>, pad: seq<u8>): seq<u8>
    requires |body| == Cells
  {
    RawHeaderBytes(1) + FrameHeaderBytes(TouchFrameA, ReportHeaderSize + Cells)
    + ReportHeaderBytes(HeatmapReport, Cells) + body + pad
  }

  /** The walk finds exactly the one heatmap of such a read, right after the
      headers, and its body is the one put there. */
  lemma SingleHeatmapWalk(body: seq<u8>, pad: seq<u8>, asWritten: bool)
    requires |body| == Cells
    ensures var buf := SingleHeatmapBuffer(body, pad);
      && WalkWith(buf, asWritten) == Walk([Heatmap(FirstFrame + FrameHeaderSize)], Done)
      && buf[FirstFrame + FrameHeaderSize + ReportHeaderSize..][..Cells] == body
  {
    var buf := SingleHeatmapBuffer(body, pad);
    var frame := FrameHeaderBytes(TouchFrameA, ReportHeaderSize + Cells);
    var report := ReportHeaderBytes(HeatmapReport, Cells);
    var at := FirstFrame + FrameHeaderSize;
    var end := at + ReportHeaderSize + Cells;
    assert buf == RawHeaderBytes(1) + frame + report + body + pad;
    assert buf[..FirstFrame] == RawHeaderBytes(1);
    assert buf[FirstFrame..at] == frame;
    HeaderFields(buf, 1, TouchFrameA, ReportHeaderSize + Cells);
    assert buf[at..at + ReportHeaderSize] == report;
    assert buf[at + ReportHeaderSize..][..Cells] == body;
    ReportFields(buf, at, Cells);
    assert ReadReport(buf, at) == Got([Heatmap(at)]);
    assert Reports(buf, end, end) == (Walk([], Done), end);
    assert at + ReportHeaderSize + U16(buf, at + 2) == end;
    assert [Heatmap(at)] + [] == [Heatmap(at)];
    assert Reports(buf, at, end) == (Walk([Heatmap(at)], Done), end);
    assert SubFrameEndAsWritten(at, ReportHeaderSize + Cells) == end;
    assert SubFrames(buf, end, 0, asWritten) == Walk([], Done);
  }

  lemma ReportFields(buf: seq<u8>, at: int, size: int)
    requires 0 <= size < 0x1_0000 && Within(buf, at, ReportHeaderSize)
    requires buf[at..at + ReportHeaderSize] == ReportHeaderBytes(HeatmapReport, size)
    ensures U8(buf, at) == HeatmapReport && U16(buf, at + 2) == size
  {
    var report := ReportHeaderBytes(HeatmapReport, size);
    assert buf[at] == report[0];
    assert buf[at + 2..at + 4] == report[2..4] == Le16(size);
    ReadLe16(buf, at + 2, size);
  }

  /** A read whose first sub-frame is of another type and claims a size of
      2^32 - 16 bytes, followed by a second sub-frame count. */
  function WrappingBuffer(pad: seq<u8>): seq<u8> {
    RawHeaderBytes(2) + FrameHeaderBytes(0, 0x1_0000_0000 - FrameHeaderSize) + pad
  }

  lemma WrappingFields(pad: seq<u8>)
    ensures var buf := WrappingBuffer(pad);
      && |buf| >= FirstFrame + FrameHeaderSize
      && U8(buf, TypeField) == RawData && U32(buf, FramesField) == 2
      && U16(buf, FirstFrame + 2) == 0 && U32(buf, FirstFrame + 4) == 0x1_0000_0000 - FrameHeaderSize
  {
    var buf := WrappingBuffer(pad);
    assert buf[..FirstFrame] == RawHeaderBytes(2);
    assert buf[FirstFrame..FirstFrame + FrameHeaderSize] == FrameHeaderBytes(0, 0x1_0000_0000 - FrameHeaderSize);
    HeaderFields(buf, 2, 0, 0x1_0000_0000 - FrameHeaderSize);
  }

  /** As written, the wrapped end sends `pos` back to the header just read,
      so the same sub-frame is visited twice and the walk goes backwards. */
  lemma WrapRevisitsHeader(pad: seq<u8>)
    ensures WalkFrameAsWritten(WrappingBuffer(pad)).sections == [Skipped(FirstFrame, 0), Skipped(FirstFrame, 0)]
    ensures !Ascending(WalkFrameAsWritten(WrappingBuffer(pad)).sections, 0)
  {
    var buf := WrappingBuffer(pad);
    WrappingFields(pad);
    assert SubFrameEndAsWritten(FirstFrame + FrameHeaderSize, 0x1_0000_0000 - FrameHeaderSize) == FirstFrame;
    var w := SubFrames(buf, FirstFrame, 2, true);
    assert SubFrames(buf, FirstFrame, 0, true) == Walk([], Done);
    assert w.sections == [Skipped(FirstFrame, 0), Skipped(FirstFrame, 0)];
    assert At(w.sections[0]) == At(w.sections[1]);
  }

  /** With the end taken as body plus size, the same read instead runs past
      its buffer at the second header and the walk reports it. */
  lemma WrapCorrected(pad: seq<u8>)
    requires |pad| < 0x1_0000_0000 - 2 * FrameHeaderSize
    ensures WalkFrame(WrappingBuffer(pad)).sections == [Skipped(FirstFrame, 0)]
    ensures WalkFrame(WrappingBuffer(pad)).status.OutOfBounds?
  {
    var buf := WrappingBuffer(pad);
    WrappingFields(pad);
    var next := FirstFrame + 0x1_0000_0000;
    assert !Within(buf, next + 2, 6);
  }
}
