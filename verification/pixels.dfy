/**
 Pixel words of the composite buffer. A decoded RGBA image is viewed as
 32-bit words; on the little-endian hosts the tool runs on, byte k of a
 word (at byte offset 4*i + k of the underlying buffer) is bits 8k..8k+7.
 So byte 0 is red, 1 green, 2 blue and 3 alpha, which is why the source
 calls its word constants "ABGR".
 */
module Pixels {

  /** The full-intensity highlight: opaque red. */
  const HIGHLIGHT: bv32 := 0xff0000ff
  /** Opaque white, the background the checkerboard recolouring skips. */
  const WHITE: bv32 := 0xffffffff
  /** Washed-out light grey used for tolerated pixels in the middle band. */
  const WASHED_MASK: bv32 := 0xffe0e0e0
  /** Green tint for the left (baseline) band. */
  const GREEN_MASK: bv32 := 0xff60e060
  /** Red tint for the right (candidate) band. */
  const RED_MASK: bv32 := 0xff6060e0

  /** Byte k (0 = lowest address) of a word. */
  function Byte(w: bv32, k: nat): (r: bv32)
    requires k < 4
    ensures r <= 0xff
  {
    if k == 0 then w & 0xff
    else if k == 1 then (w >> 8) & 0xff
    else if k == 2 then (w >> 16) & 0xff
    else w >> 24
  }

  /** Byte k of a word as an integer in 0..255. */
  function ByteValue(w: bv32, k: nat): (r: int)
    requires k < 4
    ensures 0 <= r <= 255
  {
    (Byte(w, k) as bv8) as int
  }

  function Abs(n: int): nat
  {
    if n < 0 then -n else n
  }

  /** `Math.abs(diffData[bIndex8 + k] - diffData[cIndex8 + k])`. */
  function ChannelDiff(b: bv32, c: bv32, k: nat): (r: nat)
    requires k < 4
    ensures r <= 255
  {
    Abs(ByteValue(b, k) - ByteValue(c, k))
  }

  /** The luma weights 0.299, 0.587 and 0.114 applied to three channel
      differences; they sum to 1, so the result stays within 0..255. */
  function Luma(d1: nat, d2: nat, d3: nat): (r: real)
    requires d1 <= 255 && d2 <= 255 && d3 <= 255
    ensures 0.0 <= r <= 255.0
  {
    0.299 * d1 as real + 0.587 * d2 as real + 0.114 * d3 as real
  }

  /**
   Luma-weighted brightness difference between two words. Identical words
   short-circuit to 0; otherwise the weights apply to the differences of
   bytes 1, 2 and 3 (green, blue and alpha on a little-endian host), not
   of bytes 0..2.
   */
  function Brightness(b: bv32, c: bv32): (r: real)
    ensures 0.0 <= r <= 255.0
    ensures b == c ==> r == 0.0
  {
    if b == c then 0.0
    else Luma(ChannelDiff(b, c, 1), ChannelDiff(b, c, 2), ChannelDiff(b, c, 3))
  }

  /**
   A word keeping the top five bits of bytes 0..2, each moved down three
   places, with `mask` or-ed over it: `((w >> 3) & 0x001f1f1f) | mask`.
   */
  function Tint(w: bv32, mask: bv32): (r: bv32)
    ensures Byte(r, 0) == Byte(mask, 0) | (Byte(w, 0) >> 3)
    ensures Byte(r, 1) == Byte(mask, 1) | (Byte(w, 1) >> 3)
    ensures Byte(r, 2) == Byte(mask, 2) | (Byte(w, 2) >> 3)
    ensures Byte(r, 3) == Byte(mask, 3)
  {
    TintBytes(w, mask);
    ((w >> 3) & 0x001f1f1f) | mask
  }

  lemma TintBytes(w: bv32, mask: bv32)
    ensures Byte(((w >> 3) & 0x001f1f1f) | mask, 0) == Byte(mask, 0) | (Byte(w, 0) >> 3)
    ensures Byte(((w >> 3) & 0x001f1f1f) | mask, 1) == Byte(mask, 1) | (Byte(w, 1) >> 3)
    ensures Byte(((w >> 3) & 0x001f1f1f) | mask, 2) == Byte(mask, 2) | (Byte(w, 2) >> 3)
    ensures Byte(((w >> 3) & 0x001f1f1f) | mask, 3) == Byte(mask, 3)
  {
  }

  /** Tolerated pixel: the baseline word washed towards light grey, opaque. */
  function Washed(b: bv32): (r: bv32)
    ensures Byte(r, 0) == 0xe0 | (Byte(b, 0) >> 3)
    ensures Byte(r, 1) == 0xe0 | (Byte(b, 1) >> 3)
    ensures Byte(r, 2) == 0xe0 | (Byte(b, 2) >> 3)
    ensures Byte(r, 3) == 0xff
  {
    Tint(b, WASHED_MASK)
  }

  /** Checkerboard recolouring of the baseline band: green cast, opaque. */
  function GreenTint(b: bv32): (r: bv32)
    ensures Byte(r, 3) == 0xff
    ensures Byte(r, 0) == 0x60 | (Byte(b, 0) >> 3)
    ensures Byte(r, 1) == 0xe0 | (Byte(b, 1) >> 3)
    ensures Byte(r, 2) == 0x60 | (Byte(b, 2) >> 3)
  {
    Tint(b, GREEN_MASK)
  }

  /** Checkerboard recolouring of the candidate band: red cast, opaque. */
  function RedTint(c: bv32): (r: bv32)
    ensures Byte(r, 3) == 0xff
    ensures Byte(r, 0) == 0xe0 | (Byte(c, 0) >> 3)
    ensures Byte(r, 1) == 0x60 | (Byte(c, 1) >> 3)
    ensures Byte(r, 2) == 0x60 | (Byte(c, 2) >> 3)
  {
    Tint(c, RED_MASK)
  }

  /** The brightness difference is symmetric in its two words. */
  lemma BrightnessSymmetric(b: bv32, c: bv32)
    ensures Brightness(b, c) == Brightness(c, b)
  {
    if b != c {
      ChannelDiffSymmetric(b, c, 1);
      ChannelDiffSymmetric(b, c, 2);
      ChannelDiffSymmetric(b, c, 3);
    }
  }

  lemma ChannelDiffSymmetric(b: bv32, c: bv32, k: nat)
    requires k < 4
    ensures ChannelDiff(b, c, k) == ChannelDiff(c, b, k)
  {
    var x, y := ByteValue(b, k), ByteValue(c, k);
    assert Abs(x - y) == Abs(y - x);
  }

  /** The brightness difference never looks at byte 0 (red): words that
      agree on bytes 1..3 are within every positive threshold. */
  lemma RedChannelIgnored(b: bv32, c: bv32)
    requires forall k :: 1 <= k < 4 ==> Byte(b, k) == Byte(c, k)
    ensures Brightness(b, c) == 0.0
  {
    if b != c {
      SameByteNoDiff(b, c, 1);
      SameByteNoDiff(b, c, 2);
      SameByteNoDiff(b, c, 3);
      assert Luma(0, 0, 0) == 0.0;
    }
  }

  lemma SameByteNoDiff(b: bv32, c: bv32, k: nat)
    requires k < 4 && Byte(b, k) == Byte(c, k)
    ensures ChannelDiff(b, c, k) == 0
  {
    assert ByteValue(b, k) == ByteValue(c, k);
  }

  /** Opaque full red against opaque black: a full red-channel difference
      has brightness difference 0. */
  lemma FullRedDifferenceIsInvisible()
    ensures Brightness(0xff0000ff, 0xff000000) == 0.0
  {
    RedChannelIgnored(0xff0000ff, 0xff000000);
  }

  /** Three channel differences reach the full 255 only when each is 255. */
  lemma LumaFull(d1: nat, d2: nat, d3: nat)
    requires d1 <= 255 && d2 <= 255 && d3 <= 255
    ensures Luma(d1, d2, d3) == 255.0 <==> d1 == 255 && d2 == 255 && d3 == 255
  {
  }

  /**
   The brightness difference is the full 255 exactly when bytes 1, 2 and 3
   of the two words are each at opposite extremes (0 against 255).
   */
  lemma FullScaleBrightness(b: bv32, c: bv32)
    ensures Brightness(b, c) == 255.0 <==>
      ChannelDiff(b, c, 1) == 255 && ChannelDiff(b, c, 2) == 255 && ChannelDiff(b, c, 3) == 255
  {
    var d1, d2, d3 := ChannelDiff(b, c, 1), ChannelDiff(b, c, 2), ChannelDiff(b, c, 3);
    if b != c {
      assert Brightness(b, c) == Luma(d1, d2, d3);
      LumaFull(d1, d2, d3);
    } else {
      SameByteNoDiff(b, c, 1);
    }
  }
}
