/**
 The diff engine of one baseline/candidate pair, as a reference
 definition: what every word of the composite image and the returned
 mismatch count are, in closed form. The imperative loop that builds them
 row by row is in module DiffLoop and is proved equal to this.

 The composite has three bands per row, each `width` words wide: the
 baseline copy on the left, the diff visualisation in the middle and the
 candidate copy on the right. Its flat word index for band offset c of
 row y is y * 3 * width + c.
 */
module Engine {
  import opened Basics
  import opened Pixels
  import opened Images

  /** Threshold used when the caller gives a falsy one. */
  const DEFAULT_THRESHOLD: real := 0.03

  /**
   `threshold || DEFAULT_THRESHOLD`. `None` stands for the falsy
   non-numbers (undefined, NaN); the number 0 is falsy as well.
   */
  function EffectiveThreshold(t: Option<real>): real
  {
    if t.None? || t.value == 0.0 then DEFAULT_THRESHOLD else t.value
  }

  /** `255 * Math.min(1, Math.max(0, threshold || DEFAULT_THRESHOLD))`. */
  function ScaledThreshold(t: Option<real>): (r: real)
    ensures 0.0 <= r <= 255.0
    ensures t.None? || t == Some(0.0) ==> r == 255.0 * DEFAULT_THRESHOLD
    ensures t.Some? && t.value < 0.0 ==> r == 0.0
    ensures t.Some? && t.value >= 1.0 ==> r == 255.0
    ensures t.Some? && 0.0 < t.value <= 1.0 ==> r == 255.0 * t.value
  {
    var e := EffectiveThreshold(t);
    var clamped := if e < 0.0 then 0.0 else if e > 1.0 then 1.0 else e;
    255.0 * clamped
  }

  /** Where one side's rows come from: its words, the word offset of the
      viewport's top-left corner, and the image width as row stride. */
  datatype Source = Source(data: seq<bv32>, start: nat, stride: nat)

  function SourceOf(s: Screenshot): (r: Source)
    ensures r.data == s.image.data && r.stride == s.image.width
    ensures r.start == s.info.viewport.x + s.info.viewport.y * s.image.width
  {
    Source(s.image.data, s.info.viewport.x + s.info.viewport.y * s.image.width, s.image.width)
  }

  /** Everything the per-pixel work depends on, fixed before the loop. */
  datatype Canvas = Canvas(base: Option<Source>, cand: Option<Source>, width: nat, height: nat, limit: real)

  function ViewportWidth(s: Option<Screenshot>): nat
  {
    if s.Some? then s.value.info.viewport.width else 0
  }

  function ViewportHeight(s: Option<Screenshot>): nat
  {
    if s.Some? then s.value.info.viewport.height else 0
  }

  /**
   Canvas preparation: the baseline (when present) sets width and height
   from its viewport, the candidate (when present) raises them to the
   maximum; an absent side contributes nothing.
   */
  function Setup(b: Option<Screenshot>, c: Option<Screenshot>, t: Option<real>): (p: Canvas)
    ensures p.width == Max(ViewportWidth(b), ViewportWidth(c))
    ensures p.height == Max(ViewportHeight(b), ViewportHeight(c))
    ensures p.base.Some? <==> b.Some?
    ensures p.cand.Some? <==> c.Some?
    ensures b.Some? ==> p.base.value == SourceOf(b.value)
    ensures c.Some? ==> p.cand.value == SourceOf(c.value)
    ensures p.limit == ScaledThreshold(t)
  {
    Canvas(if b.Some? then Some(SourceOf(b.value)) else None,
           if c.Some? then Some(SourceOf(c.value)) else None,
           Max(ViewportWidth(b), ViewportWidth(c)),
           Max(ViewportHeight(b), ViewportHeight(c)),
           ScaledThreshold(t))
  }

  predicate MissingOne(p: Canvas)
  {
    p.base.Some? != p.cand.Some?
  }

  predicate BothPresent(p: Canvas)
  {
    p.base.Some? && p.cand.Some?
  }

  /** The copy guard of row y, `offset <= length - width`, with the offset
      that row y has when every earlier row was copied. */
  predicate RowCopied(src: Source, width: nat, y: nat)
  {
    src.start + y * src.stride + width <= |src.data|
  }

  /** The word a band holds after the row copies: the source word when the
      row was copied, otherwise the zero the fresh buffer starts with. */
  function BandWord(src: Option<Source>, width: nat, y: nat, x: nat): bv32
    requires x < width
  {
    if src.Some? && RowCopied(src.value, width, y) then
      src.value.data[src.value.start + y * src.value.stride + x]
    else 0
  }

  function BaseWord(p: Canvas, y: nat, x: nat): bv32
    requires x < p.width
  {
    BandWord(p.base, p.width, y, x)
  }

  function CandWord(p: Canvas, y: nat, x: nat): bv32
    requires x < p.width
  {
    BandWord(p.cand, p.width, y, x)
  }

  /** A pixel is mismatched when both sides exist and its brightness
      difference is not strictly below the scaled threshold. */
  predicate Mismatch(p: Canvas, y: nat, x: nat)
    requires x < p.width
  {
    BothPresent(p) && !(Brightness(BaseWord(p, y, x), CandWord(p, y, x)) < p.limit)
  }

  /** `(x + y) & 1` on non-negative integers. */
  predicate OddSquare(x: nat, y: nat)
  {
    (x + y) % 2 == 1
  }

  function MiddleWord(p: Canvas, y: nat, x: nat): bv32
    requires x < p.width
  {
    if MissingOne(p) then HIGHLIGHT
    else if !BothPresent(p) then 0
    else if Mismatch(p, y, x) then HIGHLIGHT
    else Washed(BaseWord(p, y, x))
  }

  function LeftWord(p: Canvas, y: nat, x: nat): bv32
    requires x < p.width
  {
    if Mismatch(p, y, x) && OddSquare(x, y) && CandWord(p, y, x) != WHITE
    then GreenTint(BaseWord(p, y, x))
    else BaseWord(p, y, x)
  }

  function RightWord(p: Canvas, y: nat, x: nat): bv32
    requires x < p.width
  {
    if Mismatch(p, y, x) && OddSquare(x, y) && BaseWord(p, y, x) != WHITE
    then RedTint(CandWord(p, y, x))
    else CandWord(p, y, x)
  }

  /** Row y of the composite: left band, middle band, right band. */
  function ExpectedRow(p: Canvas, y: nat): (r: seq<bv32>)
    ensures |r| == 3 * p.width
  {
    seq(p.width, x requires 0 <= x < p.width => LeftWord(p, y, x))
    + seq(p.width, x requires 0 <= x < p.width => MiddleWord(p, y, x))
    + seq(p.width, x requires 0 <= x < p.width => RightWord(p, y, x))
  }

  /** Column x of each band of an expected row. */
  lemma ExpectedRowBands(p: Canvas, y: nat, x: nat)
    requires x < p.width
    ensures ExpectedRow(p, y)[x] == LeftWord(p, y, x)
    ensures ExpectedRow(p, y)[p.width + x] == MiddleWord(p, y, x)
    ensures ExpectedRow(p, y)[2 * p.width + x] == RightWord(p, y, x)
  {
  }

  /** Mismatched pixels among the first n of row y. */
  function RowMismatches(p: Canvas, y: nat, n: nat): (r: nat)
    requires n <= p.width
    ensures r <= n
  {
    if n == 0 then 0
    else RowMismatches(p, y, n - 1) + (if Mismatch(p, y, n - 1) then 1 else 0)
  }

  /** Mismatched pixels in the first n rows. */
  function Mismatches(p: Canvas, n: nat): (r: nat)
    ensures r <= n * p.width
  {
    if n == 0 then 0
    else
      var r := Mismatches(p, n - 1) + RowMismatches(p, n - 1, p.width);
      assert r <= (n - 1) * p.width + p.width;
      r
  }

  /** The returned count: the negative sentinel when one side is missing,
      otherwise the number of mismatched pixels. */
  function MismatchedPixels(p: Canvas): int
  {
    if MissingOne(p) then -(p.width * 3 * p.height) else Mismatches(p, p.height)
  }

  function Flatten(rows: seq<seq<bv32>>): seq<bv32>
  {
    if rows == [] then [] else Flatten(rows[..|rows| - 1]) + rows[|rows| - 1]
  }

  lemma {:induction false} FlattenLength(rows: seq<seq<bv32>>, w: nat)
    requires forall i :: 0 <= i < |rows| ==> |rows[i]| == w
    ensures |Flatten(rows)| == |rows| * w
  {
    if rows != [] {
      var n := |rows|;
      FlattenLength(rows[..n - 1], w);
      assert |Flatten(rows)| == |Flatten(rows[..n - 1])| + |rows[n - 1]|;
      assert (n - 1) * w + w == n * w;
    }
  }

  lemma RowMajorBound(y: nat, c: nat, w: nat, h: nat)
    requires y < h && c < w
    ensures y * w + c < w * h
  {
    assert y * w + c < (y + 1) * w;
    assert (y + 1) * w <= h * w;
  }

  /** Word c of row y sits at flat index y * w + c. */
  lemma {:induction false} FlattenAt(rows: seq<seq<bv32>>, w: nat, y: nat, c: nat)
    requires forall i :: 0 <= i < |rows| ==> |rows[i]| == w
    requires y < |rows| && c < w
    ensures y * w + c < |Flatten(rows)|
    ensures Flatten(rows)[y * w + c] == rows[y][c]
  {
    var n := |rows|;
    var init := rows[..n - 1];
    FlattenLength(rows, w);
    FlattenLength(init, w);
    RowMajorBound(y, c, w, n);
    if y < n - 1 {
      RowMajorBound(y, c, w, n - 1);
      FlattenAt(init, w, y, c);
    } else {
      assert y * w == (n - 1) * w;
    }
  }

  /** The rows of the composite, top to bottom. */
  function CompositeRows(p: Canvas): (r: seq<seq<bv32>>)
    ensures |r| == p.height
    ensures forall y :: 0 <= y < p.height ==> r[y] == ExpectedRow(p, y)
  {
    seq(p.height, y requires 0 <= y < p.height => ExpectedRow(p, y))
  }

  /** The engine's answer: the count, the composite image (3*width by
      height words) and whether that image is written to disk. */
  datatype DiffOutput = DiffOutput(mismatchedPixels: int, width: nat, height: nat, composite: seq<bv32>, written: bool)

  /** A composite of three equal bands and width * height words. */
  predicate WellFormed(o: DiffOutput)
  {
    o.width % 3 == 0 && |o.composite| == o.width * o.height
  }

  function BandWidth(o: DiffOutput): nat
  {
    o.width / 3
  }

  /** The word at column c of row y of the flat composite buffer. */
  function Pixel(o: DiffOutput, y: nat, c: nat): bv32
    requires WellFormed(o) && y < o.height && c < o.width
  {
    RowMajorBound(y, c, o.width, o.height);
    o.composite[y * o.width + c]
  }

  /** Index `indexDiff32 - width` of the source: the baseline band. */
  function LeftPixel(o: DiffOutput, y: nat, x: nat): bv32
    requires WellFormed(o) && y < o.height && x < BandWidth(o)
  {
    Pixel(o, y, x)
  }

  /** Index `indexDiff32 = y * width * 3 + width + x`: the diff band. */
  function MiddlePixel(o: DiffOutput, y: nat, x: nat): bv32
    requires WellFormed(o) && y < o.height && x < BandWidth(o)
  {
    Pixel(o, y, BandWidth(o) + x)
  }

  /** Index `indexDiff32 + width`: the candidate band. */
  function RightPixel(o: DiffOutput, y: nat, x: nat): bv32
    requires WellFormed(o) && y < o.height && x < BandWidth(o)
  {
    Pixel(o, y, 2 * BandWidth(o) + x)
  }

  /**
   The diff of one pair. Both sides absent: no answer (`undefined`).
   Otherwise the composite is built and written exactly when the count is
   positive.
   */
  function DiffImages(b: Option<Screenshot>, c: Option<Screenshot>, t: Option<real>): (r: Option<DiffOutput>)
    ensures r.None? <==> b.None? && c.None?
    ensures r.Some? ==> (r.value.written <==> r.value.mismatchedPixels > 0)
    ensures r.Some? ==> r.value.width == 3 * Max(ViewportWidth(b), ViewportWidth(c))
    ensures r.Some? ==> r.value.height == Max(ViewportHeight(b), ViewportHeight(c))
    ensures r.Some? ==> WellFormed(r.value)
  {
    if b.None? && c.None? then None
    else
      var p := Setup(b, c, t);
      var count := MismatchedPixels(p);
      FlattenLength(CompositeRows(p), 3 * p.width);
      Some(DiffOutput(count, 3 * p.width, p.height, Flatten(CompositeRows(p)), count > 0))
  }
}
