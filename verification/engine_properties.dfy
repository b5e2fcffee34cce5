/**
 What the diff engine promises about its answer: the composite's bands,
 the missing-side sentinel, the range and meaning of the count, its
 symmetry in the two sides and its monotonicity in the threshold, and the
 edge cases at threshold 0, negative thresholds and full scale.
 */
module EngineProperties {
  import opened Basics
  import opened Pixels
  import opened Images
  import opened Engine

  /** Each band of the flat composite holds the reference words. */
  lemma CompositeBands(b: Option<Screenshot>, c: Option<Screenshot>, t: Option<real>)
    requires b.Some? || c.Some?
    ensures var o := DiffImages(b, c, t).value;
      var p := Setup(b, c, t);
      && BandWidth(o) == p.width && o.height == p.height
      && forall y, x :: 0 <= y < o.height && 0 <= x < BandWidth(o) ==>
        && LeftPixel(o, y, x) == LeftWord(p, y, x)
        && MiddlePixel(o, y, x) == MiddleWord(p, y, x)
        && RightPixel(o, y, x) == RightWord(p, y, x)
  {
    var o := DiffImages(b, c, t).value;
    var p := Setup(b, c, t);
    forall y, x | 0 <= y < o.height && 0 <= x < BandWidth(o)
      ensures LeftPixel(o, y, x) == LeftWord(p, y, x)
      ensures MiddlePixel(o, y, x) == MiddleWord(p, y, x)
      ensures RightPixel(o, y, x) == RightWord(p, y, x)
    {
      CompositeBandsAt(p, o, y, x);
    }
  }

  lemma CompositeBandsAt(p: Canvas, o: DiffOutput, y: nat, x: nat)
    requires o.width == 3 * p.width && o.height == p.height
    requires o.composite == Flatten(CompositeRows(p)) && WellFormed(o)
    requires y < p.height && x < p.width
    ensures LeftPixel(o, y, x) == LeftWord(p, y, x)
    ensures MiddlePixel(o, y, x) == MiddleWord(p, y, x)
    ensures RightPixel(o, y, x) == RightWord(p, y, x)
  {
    var rows := CompositeRows(p);
    var w := p.width;
    assert BandWidth(o) == w;
    FlatPixel(o, rows, y, x);
    FlatPixel(o, rows, y, w + x);
    assert MiddlePixel(o, y, x) == Pixel(o, y, w + x);
    FlatPixel(o, rows, y, 2 * w + x);
    ExpectedRowBands(p, y, x);
  }

  /** The word at row y, column c of a composite flattened from equal rows. */
  lemma FlatPixel(o: DiffOutput, rows: seq<seq<bv32>>, y: nat, c: nat)
    requires WellFormed(o) && o.composite == Flatten(rows) && |rows| == o.height
    requires forall i :: 0 <= i < |rows| ==> |rows[i]| == o.width
    requires y < o.height && c < o.width
    ensures Pixel(o, y, c) == rows[y][c]
  {
    FlattenAt(rows, o.width, y, c);
  }

  /**
   Exactly one side present: the count is the negative sentinel
   -(3 * width * height), so nothing is written; the whole middle band is
   the highlight and the side bands are the plain row copies (the column
   pass never runs).
   */
  lemma OneSideMissing(b: Option<Screenshot>, c: Option<Screenshot>, t: Option<real>)
    requires b.Some? != c.Some?
    ensures var o := DiffImages(b, c, t).value;
      var p := Setup(b, c, t);
      && o.mismatchedPixels == -(o.width * o.height)
      && o.mismatchedPixels <= 0
      && !o.written
      && forall y, x :: 0 <= y < o.height && 0 <= x < BandWidth(o) ==>
        && MiddlePixel(o, y, x) == HIGHLIGHT
        && LeftPixel(o, y, x) == BaseWord(p, y, x)
        && RightPixel(o, y, x) == CandWord(p, y, x)
  {
    CompositeBands(b, c, t);
    var o := DiffImages(b, c, t).value;
    var p := Setup(b, c, t);
    assert o.width * o.height == p.width * 3 * p.height;
  }

  /** A row holds a mismatch exactly when its count is positive. */
  lemma {:induction false} RowMismatchesPositive(p: Canvas, y: nat, n: nat)
    requires n <= p.width
    ensures RowMismatches(p, y, n) > 0 <==> exists x :: 0 <= x < n && Mismatch(p, y, x)
  {
    if n > 0 {
      RowMismatchesPositive(p, y, n - 1);
    }
  }

  /** A positive count over the first n rows has a mismatched pixel behind it. */
  lemma {:induction false} MismatchWitness(p: Canvas, n: nat) returns (y: nat, x: nat)
    requires Mismatches(p, n) > 0
    ensures y < n && x < p.width && Mismatch(p, y, x)
  {
    if Mismatches(p, n - 1) > 0 {
      y, x := MismatchWitness(p, n - 1);
    } else {
      RowMismatchesPositive(p, n - 1, p.width);
      y := n - 1;
      x :| 0 <= x < p.width && Mismatch(p, y, x);
    }
  }

  /** A mismatched pixel in the first n rows makes their count positive. */
  lemma {:induction false} MismatchCounted(p: Canvas, n: nat, y: nat, x: nat)
    requires y < n && x < p.width && Mismatch(p, y, x)
    ensures Mismatches(p, n) > 0
  {
    assert Mismatches(p, n) == Mismatches(p, n - 1) + RowMismatches(p, n - 1, p.width);
    if y < n - 1 {
      MismatchCounted(p, n - 1, y, x);
    } else {
      RowMismatchesPositive(p, y, p.width);
      assert 0 <= x < p.width && Mismatch(p, y, x);
    }
  }

  /** The first n rows hold a mismatch exactly when their count is positive. */
  lemma MismatchesPositive(p: Canvas, n: nat)
    ensures Mismatches(p, n) > 0 <==>
      exists y, x :: 0 <= y < n && 0 <= x < p.width && Mismatch(p, y, x)
  {
    if Mismatches(p, n) > 0 {
      var y, x := MismatchWitness(p, n);
    }
    forall y, x | 0 <= y < n && 0 <= x < p.width && Mismatch(p, y, x)
      ensures Mismatches(p, n) > 0
    {
      MismatchCounted(p, n, y, x);
    }
  }

  /**
   Both sides present: the count is the number of canvas pixels whose
   brightness difference reaches the scaled threshold, it lies in
   0..width*height, and the composite is written exactly when some pixel
   is mismatched.
   */
  lemma BothPresentCount(b: Option<Screenshot>, c: Option<Screenshot>, t: Option<real>)
    requires b.Some? && c.Some?
    ensures var o := DiffImages(b, c, t).value;
      var p := Setup(b, c, t);
      && o.mismatchedPixels == Mismatches(p, p.height)
      && 0 <= o.mismatchedPixels <= BandWidth(o) * o.height
      && (o.written <==> exists y, x :: 0 <= y < o.height && 0 <= x < BandWidth(o) && Mismatch(p, y, x))
  {
    var o := DiffImages(b, c, t).value;
    var p := Setup(b, c, t);
    assert o.mismatchedPixels == Mismatches(p, p.height);
    MismatchesPositive(p, p.height);
    assert p.height * p.width == p.width * p.height;
  }

  /** Two canvases that read the same words with the sides exchanged. */
  predicate Swapped(p: Canvas, q: Canvas)
  {
    q.base == p.cand && q.cand == p.base && q.width == p.width && q.height == p.height && q.limit == p.limit
  }

  lemma {:induction false} RowMismatchesSwapped(p: Canvas, q: Canvas, y: nat, n: nat)
    requires Swapped(p, q) && n <= p.width
    ensures RowMismatches(p, y, n) == RowMismatches(q, y, n)
  {
    if n > 0 {
      RowMismatchesSwapped(p, q, y, n - 1);
      BrightnessSymmetric(BaseWord(p, y, n - 1), CandWord(p, y, n - 1));
    }
  }

  lemma {:induction false} MismatchesSwapped(p: Canvas, q: Canvas, n: nat)
    requires Swapped(p, q)
    ensures Mismatches(p, n) == Mismatches(q, n)
  {
    if n > 0 {
      MismatchesSwapped(p, q, n - 1);
      RowMismatchesSwapped(p, q, n - 1, p.width);
    }
  }

  /** Exchanging baseline and candidate leaves the count unchanged. */
  lemma CountSymmetric(b: Option<Screenshot>, c: Option<Screenshot>, t: Option<real>)
    ensures DiffImages(b, c, t).Some? <==> DiffImages(c, b, t).Some?
    ensures DiffImages(b, c, t).Some? ==>
      DiffImages(b, c, t).value.mismatchedPixels == DiffImages(c, b, t).value.mismatchedPixels
  {
    if b.Some? || c.Some? {
      var p := Setup(b, c, t);
      var q := Setup(c, b, t);
      assert Swapped(p, q);
      MismatchesSwapped(p, q, p.height);
    }
  }

  lemma {:induction false} RowMismatchesMonotone(p: Canvas, q: Canvas, y: nat, n: nat)
    requires q == p.(limit := q.limit) && p.limit <= q.limit && n <= p.width
    ensures RowMismatches(q, y, n) <= RowMismatches(p, y, n)
  {
    if n > 0 {
      RowMismatchesMonotone(p, q, y, n - 1);
    }
  }

  lemma {:induction false} MismatchesMonotone(p: Canvas, q: Canvas, n: nat)
    requires q == p.(limit := q.limit) && p.limit <= q.limit
    ensures Mismatches(q, n) <= Mismatches(p, n)
  {
    if n > 0 {
      MismatchesMonotone(p, q, n - 1);
      RowMismatchesMonotone(p, q, n - 1, p.width);
    }
  }

  /** A higher scaled threshold never raises the count. */
  lemma CountMonotone(b: Option<Screenshot>, c: Option<Screenshot>, t1: Option<real>, t2: Option<real>)
    requires b.Some? || c.Some?
    requires ScaledThreshold(t1) <= ScaledThreshold(t2)
    ensures DiffImages(b, c, t2).value.mismatchedPixels <= DiffImages(b, c, t1).value.mismatchedPixels
  {
    MismatchesMonotone(Setup(b, c, t1), Setup(b, c, t2), Setup(b, c, t1).height);
  }

  /**
   The scaled threshold grows with the given one, except at 0, which is
   falsy and so stands for the default 0.03.
   */
  lemma ScaledThresholdMonotone(v1: real, v2: real)
    requires v1 <= v2 && v1 != 0.0
    ensures ScaledThreshold(Some(v1)) <= ScaledThreshold(Some(v2))
  {
  }

  /** Threshold 0 behaves as 0.03, above a threshold of 0.01. */
  lemma ZeroThresholdIsDefault()
    ensures ScaledThreshold(Some(0.0)) == ScaledThreshold(None) == 7.65
    ensures ScaledThreshold(Some(0.01)) < ScaledThreshold(Some(0.0))
  {
  }

  lemma {:induction false} RowMismatchesNone(p: Canvas, y: nat, n: nat)
    requires n <= p.width
    requires forall x :: 0 <= x < n ==> !Mismatch(p, y, x)
    ensures RowMismatches(p, y, n) == 0
  {
    if n > 0 {
      RowMismatchesNone(p, y, n - 1);
    }
  }

  lemma {:induction false} MismatchesNone(p: Canvas, n: nat)
    requires forall y, x :: 0 <= y < n && 0 <= x < p.width ==> !Mismatch(p, y, x)
    ensures Mismatches(p, n) == 0
  {
    if n > 0 {
      MismatchesNone(p, n - 1);
      RowMismatchesNone(p, n - 1, p.width);
    }
  }

  /**
   A screenshot compared with itself has no mismatch and nothing is
   written, for every threshold that is not negative.
   */
  lemma IdenticalScreenshots(s: Screenshot, t: Option<real>)
    requires t.None? || t.value >= 0.0
    ensures DiffImages(Some(s), Some(s), t).value.mismatchedPixels == 0
    ensures !DiffImages(Some(s), Some(s), t).value.written
  {
    var p := Setup(Some(s), Some(s), t);
    assert p.limit > 0.0;
    forall y, x | 0 <= y < p.height && 0 <= x < p.width
      ensures !Mismatch(p, y, x)
    {
      assert BaseWord(p, y, x) == CandWord(p, y, x);
    }
    MismatchesNone(p, p.height);
  }

  lemma {:induction false} RowMismatchesAll(p: Canvas, y: nat, n: nat)
    requires n <= p.width
    requires forall x :: 0 <= x < n ==> Mismatch(p, y, x)
    ensures RowMismatches(p, y, n) == n
  {
    if n > 0 {
      RowMismatchesAll(p, y, n - 1);
    }
  }

  lemma {:induction false} MismatchesAll(p: Canvas, n: nat)
    requires forall y, x :: 0 <= y < n && 0 <= x < p.width ==> Mismatch(p, y, x)
    ensures Mismatches(p, n) == n * p.width
  {
    if n > 0 {
      MismatchesAll(p, n - 1);
      RowMismatchesAll(p, n - 1, p.width);
      assert (n - 1) * p.width + p.width == n * p.width;
    }
  }

  /**
   A negative threshold scales to 0, and no brightness difference is
   below 0: with both sides present every canvas pixel is mismatched,
   identical words included.
   */
  lemma NegativeThresholdFlagsEverything(b: Option<Screenshot>, c: Option<Screenshot>, v: real)
    requires b.Some? && c.Some? && v < 0.0
    ensures var o := DiffImages(b, c, Some(v)).value;
      o.mismatchedPixels == BandWidth(o) * o.height
  {
    var p := Setup(b, c, Some(v));
    MismatchesAll(p, p.height);
    assert p.height * p.width == p.width * p.height;
  }

  /**
   From threshold 1 up the scaled threshold is 255, and a brightness
   difference of exactly 255 is not below it: such a pixel still counts,
   so the composite is written.
   */
  lemma FullThresholdStillCounts(b: Option<Screenshot>, c: Option<Screenshot>, v: real, y: nat, x: nat)
    requires b.Some? && c.Some? && v >= 1.0
    requires var p := Setup(b, c, Some(v));
      y < p.height && x < p.width && Brightness(BaseWord(p, y, x), CandWord(p, y, x)) == 255.0
    ensures Mismatch(Setup(b, c, Some(v)), y, x)
    ensures DiffImages(b, c, Some(v)).value.mismatchedPixels > 0
    ensures DiffImages(b, c, Some(v)).value.written
  {
    var p := Setup(b, c, Some(v));
    assert p.limit == 255.0;
    assert Mismatch(p, y, x);
    BothPresentCount(b, c, Some(v));
    assert BandWidth(DiffImages(b, c, Some(v)).value) == p.width;
  }

  /** The two words of canvas pixel (y, x) agree on bytes 1..3: at most
      the red byte differs. */
  predicate RedOnlyDifference(p: Canvas, y: nat, x: nat)
    requires x < p.width
  {
    forall k :: 1 <= k < 4 ==> Byte(BaseWord(p, y, x), k) == Byte(CandWord(p, y, x), k)
  }

  /**
   The brightness difference never reads byte 0: when the two sides
   differ at most in red, every pixel is tolerated at every threshold
   that is not negative, and nothing is written.
   */
  lemma FullRedDifferenceTolerated(b: Option<Screenshot>, c: Option<Screenshot>, t: Option<real>)
    requires b.Some? && c.Some? && (t.None? || t.value >= 0.0)
    requires var p := Setup(b, c, t);
      forall y, x :: 0 <= y < p.height && 0 <= x < p.width ==> RedOnlyDifference(p, y, x)
    ensures DiffImages(b, c, t).value.mismatchedPixels == 0
    ensures !DiffImages(b, c, t).value.written
  {
    var p := Setup(b, c, t);
    assert p.limit > 0.0;
    forall y, x | 0 <= y < p.height && 0 <= x < p.width
      ensures !Mismatch(p, y, x)
    {
      assert RedOnlyDifference(p, y, x);
      RedChannelIgnored(BaseWord(p, y, x), CandWord(p, y, x));
    }
    MismatchesNone(p, p.height);
  }
}
