/**
 The diff engine as the source runs it: one pass over the rows, with a
 running read offset per side that advances only when that side's row
 passes the copy guard, then one pass over the columns comparing the two
 copied words and overwriting the three bands in place. Proved to produce
 exactly the reference composite and count of module Engine.
 */
module DiffLoop {
  import opened Basics
  import opened Pixels
  import opened Images
  import opened Engine

  /** Rows past a failed guard fail it too: the offset only grows with y. */
  lemma GuardStaysFailed(src: Source, width: nat, k: nat, y: nat)
    requires k <= y
    requires !RowCopied(src, width, k)
    ensures !RowCopied(src, width, y)
  {
    assert k * src.stride <= y * src.stride by {
      MultiplyMonotone(k, y, src.stride);
    }
  }

  lemma MultiplyMonotone(a: nat, b: nat, s: nat)
    requires a <= b
    ensures a * s <= b * s
  {
  }

  /**
   The read offset of one side after the rows before y: it equals the
   viewport start plus `copied` strides, and if fewer than y rows were
   copied the guard already failed at the current offset.
   */
  ghost predicate OffsetAt(src: Source, width: nat, y: nat, offset: nat, copied: nat)
  {
    && copied <= y
    && offset == src.start + copied * src.stride
    && (copied < y ==> offset + width > |src.data|)
  }

  /**
   One side's row copy: when the guard `offset <= length - width` holds,
   the `width` words at the offset fill the band and the offset advances
   by the row stride; otherwise the band keeps its zeros and the offset
   stays.
   */
  method CopyRow(src: Source, width: nat, y: nat, offset: nat, ghost copied: nat)
    returns (band: seq<bv32>, offset': nat, ghost copied': nat)
    requires OffsetAt(src, width, y, offset, copied)
    ensures |band| == width
    ensures forall x :: 0 <= x < width ==> band[x] == BandWord(Some(src), width, y, x)
    ensures OffsetAt(src, width, y + 1, offset', copied')
  {
    if copied < y {
      GuardStaysFailed(src, width, copied, y);
    }
    if offset + width <= |src.data| {
      assert copied == y;
      band := src.data[offset..offset + width];
      offset' := offset + src.stride;
      copied' := copied + 1;
      assert offset' == src.start + copied' * src.stride by {
        assert (copied + 1) * src.stride == copied * src.stride + src.stride;
      }
    } else {
      band := seq(width, x => 0);
      offset' := offset;
      copied' := copied;
      if copied == y {
        assert !RowCopied(src, width, y);
      }
    }
  }

  /**
   One pixel of the column pass, given the two copied words: the middle
   word, the possibly recoloured side words, and whether it counts. The
   diff band shows the highlight exactly for counted pixels and is opaque
   everywhere; a side word changes only on an odd square of a counted
   pixel, and never against a white word on the other side.
   */
  method DiffPixel(p: Canvas, y: nat, x: nat, b: bv32, c: bv32)
    returns (left: bv32, middle: bv32, right: bv32, mismatched: bool)
    requires BothPresent(p) && x < p.width
    requires b == BaseWord(p, y, x) && c == CandWord(p, y, x)
    ensures mismatched <==> Brightness(b, c) >= p.limit
    ensures mismatched <==> middle == HIGHLIGHT
    ensures Byte(middle, 3) == 0xff
    ensures !mismatched ==> left == b && right == c
    ensures left != b ==> mismatched && (x + y) % 2 == 1 && c != WHITE
    ensures right != c ==> mismatched && (x + y) % 2 == 1 && b != WHITE
    ensures mismatched == Mismatch(p, y, x)
    ensures left == LeftWord(p, y, x)
    ensures middle == MiddleWord(p, y, x)
    ensures right == RightWord(p, y, x)
  {
    var shifted := Washed(b);
    assert Byte(shifted, 1) != Byte(HIGHLIGHT, 1);
    left, right := b, c;
    if Brightness(b, c) < p.limit {
      mismatched := false;
      middle := shifted;
    } else {
      mismatched := true;
      middle := HIGHLIGHT;
      if (x + y) % 2 == 1 {
        if c != WHITE {
          left := GreenTint(b);
        }
        if b != WHITE {
          right := RedTint(c);
        }
      }
    }
  }

  /**
   The column pass over one row with both sides present: compares the
   copied words, counts mismatches, writes the middle band and recolours
   the side bands on the odd squares of the checkerboard.
   */
  method DiffRow(p: Canvas, y: nat, left0: seq<bv32>, right0: seq<bv32>)
    returns (left: seq<bv32>, middle: seq<bv32>, right: seq<bv32>, found: nat)
    requires BothPresent(p)
    requires |left0| == p.width && |right0| == p.width
    requires forall x :: 0 <= x < p.width ==> left0[x] == BaseWord(p, y, x)
    requires forall x :: 0 <= x < p.width ==> right0[x] == CandWord(p, y, x)
    ensures |left| == p.width && |middle| == p.width && |right| == p.width
    ensures forall x :: 0 <= x < p.width ==>
      && left[x] == LeftWord(p, y, x)
      && middle[x] == MiddleWord(p, y, x)
      && right[x] == RightWord(p, y, x)
    ensures found == RowMismatches(p, y, p.width)
  {
    left, right := left0, right0;
    middle := seq(p.width, x => 0);
    found := 0;
    var x := 0;
    while x < p.width
      invariant x <= p.width
      invariant |left| == p.width && |middle| == p.width && |right| == p.width
      invariant forall i :: 0 <= i < x ==>
        && left[i] == LeftWord(p, y, i)
        && middle[i] == MiddleWord(p, y, i)
        && right[i] == RightWord(p, y, i)
      invariant forall i :: x <= i < p.width ==> left[i] == BaseWord(p, y, i) && right[i] == CandWord(p, y, i)
      invariant found == RowMismatches(p, y, x)
    {
      var l, m, r, hit := DiffPixel(p, y, x, left[x], right[x]);
      if hit {
        found := found + 1;
      }
      left := left[x := l];
      middle := middle[x := m];
      right := right[x := r];
      x := x + 1;
    }
  }

  lemma BandsMakeRow(p: Canvas, y: nat, left: seq<bv32>, middle: seq<bv32>, right: seq<bv32>)
    requires |left| == p.width && |middle| == p.width && |right| == p.width
    requires forall x :: 0 <= x < p.width ==>
      && left[x] == LeftWord(p, y, x)
      && middle[x] == MiddleWord(p, y, x)
      && right[x] == RightWord(p, y, x)
    ensures left + middle + right == ExpectedRow(p, y)
  {
    var e := ExpectedRow(p, y);
    forall i | 0 <= i < 3 * p.width
      ensures (left + middle + right)[i] == e[i]
    {
      if i < p.width {
        ExpectedRowBands(p, y, i);
      } else if i < 2 * p.width {
        ExpectedRowBands(p, y, i - p.width);
      } else {
        ExpectedRowBands(p, y, i - 2 * p.width);
      }
    }
  }

  /**
   One row of the composite: the middle band starts as the highlight when
   exactly one side is present, each present side's row is copied under
   its guard, and the column pass runs when both sides are present.
   */
  method RenderRow(p: Canvas, y: nat, baseOffset: nat, candOffset: nat, ghost baseCopied: nat, ghost candCopied: nat)
    returns (row: seq<bv32>, found: nat, baseOffset': nat, candOffset': nat, ghost baseCopied': nat, ghost candCopied': nat)
    requires p.base.Some? ==> OffsetAt(p.base.value, p.width, y, baseOffset, baseCopied)
    requires p.cand.Some? ==> OffsetAt(p.cand.value, p.width, y, candOffset, candCopied)
    ensures row == ExpectedRow(p, y)
    ensures found == if BothPresent(p) then RowMismatches(p, y, p.width) else 0
    ensures p.base.Some? ==> OffsetAt(p.base.value, p.width, y + 1, baseOffset', baseCopied')
    ensures p.cand.Some? ==> OffsetAt(p.cand.value, p.width, y + 1, candOffset', candCopied')
  {
    var w := p.width;
    var left: seq<bv32> := seq(w, x => 0);
    var middle: seq<bv32> := seq(w, x => 0);
    var right: seq<bv32> := seq(w, x => 0);
    baseOffset', candOffset', baseCopied', candCopied' := baseOffset, candOffset, baseCopied, candCopied;
    found := 0;
    if p.base.Some? != p.cand.Some? {
      middle := seq(w, x => HIGHLIGHT);
    }
    if p.base.Some? {
      left, baseOffset', baseCopied' := CopyRow(p.base.value, w, y, baseOffset, baseCopied);
    }
    if p.cand.Some? {
      right, candOffset', candCopied' := CopyRow(p.cand.value, w, y, candOffset, candCopied);
    }
    assert forall x :: 0 <= x < w ==> left[x] == BaseWord(p, y, x);
    assert forall x :: 0 <= x < w ==> right[x] == CandWord(p, y, x);
    if p.base.Some? && p.cand.Some? {
      left, middle, right, found := DiffRow(p, y, left, right);
    } else {
      assert forall x :: 0 <= x < w ==> !Mismatch(p, y, x);
    }
    row := left + middle + right;
    BandsMakeRow(p, y, left, middle, right);
  }

  /**
   All rows of the composite and the count. The count starts at the
   negative sentinel when exactly one side is present and is then only
   incremented by the column pass, which runs only when both are.
   */
  method RenderRows(p: Canvas) returns (rows: seq<seq<bv32>>, count: int)
    requires p.base.Some? || p.cand.Some?
    ensures rows == CompositeRows(p)
    ensures count == MismatchedPixels(p)
  {
    var missingOne := p.base.Some? != p.cand.Some?;
    count := if missingOne then -(p.width * 3 * p.height) else 0;
    var baseOffset: nat := if p.base.Some? then p.base.value.start else 0;
    var candOffset: nat := if p.cand.Some? then p.cand.value.start else 0;
    ghost var baseCopied: nat := 0;
    ghost var candCopied: nat := 0;
    rows := [];
    var y := 0;
    while y < p.height
      invariant y <= p.height
      invariant rows == CompositeRows(p)[..y]
      invariant count == if missingOne then -(p.width * 3 * p.height) else Mismatches(p, y)
      invariant p.base.Some? ==> OffsetAt(p.base.value, p.width, y, baseOffset, baseCopied)
      invariant p.cand.Some? ==> OffsetAt(p.cand.value, p.width, y, candOffset, candCopied)
    {
      var row, found;
      row, found, baseOffset, candOffset, baseCopied, candCopied :=
        RenderRow(p, y, baseOffset, candOffset, baseCopied, candCopied);
      count := count + found;
      rows := rows + [row];
      assert CompositeRows(p)[..y + 1] == CompositeRows(p)[..y] + [CompositeRows(p)[y]];
      y := y + 1;
    }
  }

  /** The engine entry point, minus file reading and PNG encoding. */
  method DiffImagesAsync(b: Option<Screenshot>, c: Option<Screenshot>, t: Option<real>)
    returns (r: Option<DiffOutput>)
    ensures r == DiffImages(b, c, t)
  {
    if b.None? && c.None? {
      return None;
    }
    var p := Setup(b, c, t);
    var rows, count := RenderRows(p);
    r := Some(DiffOutput(count, 3 * p.width, p.height, Flatten(rows), count > 0));
  }
}
