/** Heatmap extraction (ipts.c:316-326): a 2816-byte heatmap report body
    becomes a grid of intensities, mirrored on both axes, inverted and
    reduced by a fixed baseline. */
module Extraction {
  import opened Grid

  /** The sensor's resting level, hard-coded as 100 at ipts.c:320. */
  const Baseline: int := 100

  /** The brightest intensity extraction can produce: 255 - Baseline. */
  const MaxLevel: int := 255 - Baseline

  /** Intensity of one sensor byte; the C computes `255 - raw - 100` in `int`
      and raises negative results to zero before storing it in a `uint8_t`. */
  function Level(raw: u8): (v: u8)
    ensures 0 <= v <= MaxLevel
    ensures raw <= MaxLevel ==> v + raw == MaxLevel
    ensures raw >= MaxLevel ==> v == 0
  {
    var value := 255 - raw - Baseline;
    if value < 0 then 0 else value
  }

  /** Destination cell (x, y) reads the source byte at (Width-1-x, Height-1-y).
      On a row-major layout that double mirror is a reversal of the body. */
  function Extract(body: seq<u8>): (g: seq<Pixel>)
    requires |body| >= Cells
    ensures IsGrid(g)
    ensures forall x, y :: InBounds(x, y) ==>
      Cell(g, x, y).value == Level(body[Index(Width - 1 - x, Height - 1 - y)])
    ensures forall i :: 0 <= i < |g| ==> g[i].value <= MaxLevel
  {
    seq(Cells, i requires 0 <= i < Cells => Pixel(i % Width, i / Width, Level(body[Cells - 1 - i])))
  }

  /** The sensor bytes a grid came from, read back cell by cell; defined only
      for grids whose intensities were not clamped. */
  function Unextract(g: seq<Pixel>): (body: seq<u8>)
    requires IsGrid(g)
    requires forall i :: 0 <= i < |g| ==> g[i].value <= MaxLevel
    ensures |body| == Cells
  {
    seq(Cells, j requires 0 <= j < Cells =>
      var x := j % Width;
      var y := j / Width;
      (MaxLevel - Cell(g, Width - 1 - x, Height - 1 - y).value))
  }

  /** Extraction loses nothing but the clamped range: a body whose bytes are
      all at most 155 is recovered exactly from its grid. */
  lemma ExtractRoundTrip(body: seq<u8>)
    requires |body| == Cells
    requires forall i :: 0 <= i < |body| ==> body[i] <= MaxLevel
    ensures Unextract(Extract(body)) == body
  {
    var g := Extract(body);
    var back := Unextract(g);
    forall j | 0 <= j < Cells
      ensures back[j] == body[j]
    {
      var x, y := MirrorIndex(j);
      assert Cell(g, x, y).value + body[j] == MaxLevel;
    }
  }

  /** Position j seen through the double mirror: the mirrored cell's source
      byte is byte j again. */
  lemma MirrorIndex(j: int) returns (x: int, y: int)
    requires 0 <= j < Cells
    ensures x == Width - 1 - j % Width && y == Height - 1 - j / Width
    ensures InBounds(x, y) && Index(Width - 1 - x, Height - 1 - y) == j
  {
    x, y := Width - 1 - j % Width, Height - 1 - j / Width;
  }
}
