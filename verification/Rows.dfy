/** Rows of a rectangle in a frame buffer. */
module Rows {
  function Row(start: int, stride: int, k: nat): int {
    if k == 0 then start else Row(start, stride, k - 1) + stride
  }

  /** A rectangle of a pixel map: where the map starts, its row bytes, and the rectangle's corner. */
  datatype Rect = Rect(base: int, rowBytes: int, x: int, y: int)

  /** Address of row `k` of a rectangle. Blits take maps with negative row bytes as stored the
      other way round. */
  function RectRow(r: Rect, forward: bool, bpp: nat, k: int): int {
    r.base + (r.y + k) * Stride(r, forward) + r.x * bpp
  }

  function Stride(r: Rect, forward: bool): int {
    if forward then r.rowBytes else -r.rowBytes
  }

  /** Address of the pixel in column `x` and row `y` of a pixel map whose rows are `stride` bytes apart. */
  function PixelAt(base: int, stride: int, bpp: nat, x: int, y: int): int {
    base + y * stride + x * bpp
  }

  /** Row `j` of a rectangle holds its pixels one after the other. */
  lemma RowHoldsPixels(r: Rect, forward: bool, bpp: nat, i: int, j: int)
    ensures PixelAt(r.base, Stride(r, forward), bpp, r.x + i, r.y + j) == RectRow(r, forward, bpp, j) + i * bpp
  {
    assert (r.x + i) * bpp == r.x * bpp + i * bpp;
  }

  lemma PixelInRow(bpp: nat, width: nat, i: nat)
    requires i < width
    ensures 0 <= i * bpp && i * bpp + bpp <= width * bpp
  {
    assert width * bpp == i * bpp + bpp + (width - i - 1) * bpp;
  }

  lemma {:induction false} RowIs(start: int, stride: int, k: nat)
    ensures Row(start, stride, k) == start + k * stride
  {
    if k > 0 {
      RowIs(start, stride, k - 1);
      assert k * stride == (k - 1) * stride + stride;
    }
  }

  lemma {:induction false} RowDistance(start: int, stride: int, j: nat, k: nat)
    requires j <= k
    ensures Row(start, stride, k) - Row(start, stride, j) == Row(0, stride, k - j)
    decreases k
  {
    if j < k {
      RowDistance(start, stride, j, k - 1);
    }
  }

  lemma {:induction false} RowGrows(stride: int, k: nat)
    requires k > 0
    ensures stride >= 0 ==> Row(0, stride, k) >= stride
    ensures stride <= 0 ==> Row(0, stride, k) <= stride
  {
    if k > 1 {
      RowGrows(stride, k - 1);
    }
  }
}
