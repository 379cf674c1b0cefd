/**
 Overlay geometry of the photo booth: fitting an image to the screen width and
 padding its buffer to the camera's 32x16 block size (camera.py, overlay_image).
 */
module Geometry {

  /** The camera renderer's block size: buffers must be multiples of 32 wide and 16 high. */
  const BLOCK_W: nat := 32
  const BLOCK_H: nat := 16

  /** An image size in pixels, as PIL reports it in `img.size`. */
  datatype Size = Size(w: nat, h: nat)

  /** True iff `x` is a whole number of `block`s. */
  predicate Aligned(x: nat, block: nat)
    requires block > 0
  {
    x % block == 0
  }

  /** Rounds `x` up to the next multiple of `block`: `((x + block - 1) / block) * block`. */
  function PadUp(x: nat, block: nat): (r: nat)
    requires block > 0
    ensures Aligned(r, block)
    ensures x <= r < x + block
  {
    var n := x + block - 1;
    DivisionBounds(n, block);
    MultipleIsAligned(n / block, block);
    (n / block) * block
  }

  /** Every whole number of blocks is aligned. */
  lemma MultipleIsAligned(q: nat, block: nat)
    requires block > 0
    ensures Aligned(q * block, block)
  {
    var x := q * block;
    var k, rem := x / block, x % block;
    assert x == k * block + rem && 0 <= rem < block;
    assert (q - k) * block == rem by { assert q * block - k * block == (q - k) * block; }
    if q - k > 0 {
      PositiveMultipleAtLeastBlock(q - k, block);
    } else if q - k < 0 {
      PositiveMultipleAtLeastBlock(k - q, block);
    }
  }

  /** The quotient of Euclidean division brackets the dividend within one divisor. */
  lemma DivisionBounds(n: nat, d: nat)
    requires d > 0
    ensures (n / d) * d <= n < (n / d) * d + d
  {
    assert n == (n / d) * d + n % d;
  }

  /** Two multiples of `block` that lie within one block of each other are equal. */
  lemma AlignedWithinBlockEqual(a: nat, b: nat, block: nat)
    requires block > 0
    requires Aligned(a, block) && Aligned(b, block)
    requires a <= b < a + block
    ensures a == b
  {
    var qa, qb := a / block, b / block;
    assert a == qa * block by { assert a == (a / block) * block + a % block; }
    assert b == qb * block by { assert b == (b / block) * block + b % block; }
    var k := qb - qa;
    assert k * block == b - a by { assert qb * block - qa * block == (qb - qa) * block; }
    if k > 0 {
      PositiveMultipleAtLeastBlock(k, block);
    } else if k < 0 {
      PositiveMultipleAtLeastBlock(-k, block);
    }
  }

  /** A positive multiple of `block` is at least one block. */
  lemma {:induction false} PositiveMultipleAtLeastBlock(k: int, block: int)
    requires block > 0 && k > 0
    ensures k * block >= block
    decreases k
  {
    if k > 1 {
      PositiveMultipleAtLeastBlock(k - 1, block);
      assert k * block == (k - 1) * block + block;
    }
  }

  /** PadUp agrees with its reference definition: the unique multiple of `block`
      in `[x, x + block)`. */
  lemma PadUpUnique(x: nat, block: nat, m: nat)
    requires block > 0
    requires Aligned(m, block) && x <= m < x + block
    ensures PadUp(x, block) == m
  {
    var r := PadUp(x, block);
    if r <= m {
      AlignedWithinBlockEqual(r, m, block);
    } else {
      AlignedWithinBlockEqual(m, r, block);
    }
  }

  /** PadUp yields the least multiple of `block` that is at least `x`. */
  lemma PadUpLeast(x: nat, block: nat, m: nat)
    requires block > 0
    requires Aligned(m, block) && x <= m
    ensures PadUp(x, block) <= m
  {
    var r := PadUp(x, block);
    if m < r {
      AlignedWithinBlockEqual(m, r, block);
    }
  }

  /** An already-aligned dimension is left unchanged, so padding is idempotent. */
  lemma PadUpAlignedUnchanged(x: nat, block: nat)
    requires block > 0
    ensures Aligned(x, block) <==> PadUp(x, block) == x
    ensures PadUp(PadUp(x, block), block) == PadUp(x, block)
  {
    if Aligned(x, block) {
      PadUpUnique(x, block, x);
    }
    PadUpUnique(PadUp(x, block), block, PadUp(x, block));
  }

  /** The image size after fitting it to a screen `screenW` pixels wide. An image wider
      than the screen is resized to exactly the screen width, its height scaled by the
      same ratio and truncated (idealised as exact rational arithmetic); any other image
      is left as it is. */
  function FitToScreen(img: Size, screenW: nat): (r: Size)
    ensures img.w > screenW ==> r.w == screenW
    ensures img.w > screenW ==> r.h * img.w <= img.h * screenW < (r.h + 1) * img.w
    ensures img.w > screenW ==> r.h <= img.h
    ensures img.w <= screenW ==> r == img
    ensures r.w <= img.w && r.h <= img.h
  {
    if img.w > screenW then
      var h := img.h * screenW / img.w;
      DivisionBounds(img.h * screenW, img.w);
      assert (h + 1) * img.w == h * img.w + img.w;
      assert h * img.w <= img.h * img.w by {
        assert img.h * screenW <= img.h * img.w;
      }
      Size(screenW, h)
    else
      img
  }

  /** The buffer size handed to the renderer: each dimension padded to the block size. */
  function PadToBlocks(s: Size): (r: Size)
    ensures Aligned(r.w, BLOCK_W) && Aligned(r.h, BLOCK_H)
    ensures s.w <= r.w < s.w + BLOCK_W
    ensures s.h <= r.h < s.h + BLOCK_H
  {
    Size(PadUp(s.w, BLOCK_W), PadUp(s.h, BLOCK_H))
  }

  /** Padding is idempotent on sizes, and leaves an aligned size as it is. */
  lemma PadToBlocksIdempotent(s: Size)
    ensures PadToBlocks(PadToBlocks(s)) == PadToBlocks(s)
    ensures Aligned(s.w, BLOCK_W) && Aligned(s.h, BLOCK_H) <==> PadToBlocks(s) == s
  {
    PadUpAlignedUnchanged(s.w, BLOCK_W);
    PadUpAlignedUnchanged(s.h, BLOCK_H);
  }

  /** The geometry of one overlay: the padded buffer and the logical size reported to
      the compositor, the image being pasted at the buffer's top-left corner. */
  datatype Placement = Placement(buffer: Size, size: Size)

  /** Fits the image to the screen, then pads it; the compositor is told the fitted,
      unpadded size, and the fitted image fits inside the buffer without cropping. */
  function PlaceImage(img: Size, screenW: nat): (p: Placement)
    ensures p.size == FitToScreen(img, screenW)
    ensures img.w > screenW ==> p.size.w == screenW && p.buffer.w == PadUp(screenW, BLOCK_W)
    ensures img.w <= screenW ==> p.size == img
    ensures Aligned(p.buffer.w, BLOCK_W) && Aligned(p.buffer.h, BLOCK_H)
    ensures p.size.w <= p.buffer.w < p.size.w + BLOCK_W
    ensures p.size.h <= p.buffer.h < p.size.h + BLOCK_H
  {
    var fitted := FitToScreen(img, screenW);
    Placement(PadToBlocks(fitted), fitted)
  }
}
