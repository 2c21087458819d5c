/**
 * Pixel repacking in kitty/fonts.c: render_alpha_mask blends a glyph's
 * 8-bit coverage into the 32-bit canvas, and concat_cells lays the
 * rendered cells of a multi-cell glyph side by side as RGBA bytes.
 * Pixels are 0xRRGGBBAA words; bytes are naturals below 256.
 */
module Pixels {
  import opened Common

  /** Region: left, top, right and bottom edges (right and bottom exclusive). */
  datatype Region = Region(left: nat, top: nat, right: nat, bottom: nat)

  /** The two rectangles and strides of one render_alpha_mask call. */
  datatype Blit = Blit(src: Region, dst: Region, srcStride: nat, destStride: nat)

  function Span(lo: nat, hi: nat): nat
  {
    if lo < hi then hi - lo else 0
  }

  /** Rows copied: the loop stops at whichever rectangle ends first. */
  function Rows(b: Blit): nat
  {
    Min(Span(b.src.top, b.src.bottom), Span(b.dst.top, b.dst.bottom))
  }

  /** Columns copied per row. */
  function Cols(b: Blit): nat
  {
    Min(Span(b.src.left, b.src.right), Span(b.dst.left, b.dst.right))
  }

  /** The index of pixel (k, j) of a rectangle in a buffer with the given stride. */
  function At(r: Region, stride: nat, k: nat, j: nat): nat
  {
    (r.top + k) * stride + r.left + j
  }

  /**
   * What the callers guarantee: the destination columns lie within one
   * stride, and the last pixel of each rectangle lies in its buffer.
   */
  predicate Fits(b: Blit, maskLen: nat, destLen: nat)
  {
    Rows(b) > 0 && Cols(b) > 0 ==>
      && b.dst.left + Cols(b) <= b.destStride
      && At(b.dst, b.destStride, Rows(b) - 1, Cols(b) - 1) < destLen
      && At(b.src, b.srcStride, Rows(b) - 1, Cols(b) - 1) < maskLen
  }

  /**
   * One canvas pixel after blending: opaque white colour, and the alpha
   * byte the saturating sum of the mask value and the old alpha.
   */
  function Blend(val: nat, alpha: nat): (r: nat)
    ensures r / 0x100 == 0xff_ffff
    ensures r % 0x100 == Min(0xff, alpha + val % 0x100)
  {
    0xffff_ff00 + Min(0xff, alpha + val % 0x100)
  }

  /**
   * Blending is saturating addition of coverage: two masks blended one
   * after the other give the single blend of their sum.
   */
  lemma BlendAccumulates(val: nat, a1: nat, a2: nat)
    ensures Blend(Blend(val, a1), a2) == Blend(val, a1 + a2)
  {
    var x := Min(0xff, a1 + val % 0x100);
    assert Blend(val, a1) % 0x100 == x;
  }

  /** Later rows come later in the buffer, whatever the columns. */
  lemma {:induction false} RowsAreOrdered(r: Region, stride: nat, k1: nat, j1: nat, k2: nat, j2: nat)
    requires k1 < k2 && r.left + j1 < stride
    ensures At(r, stride, k1, j1) < At(r, stride, k2, j2)
  {
    var a := r.top + k1 + 1;
    var b := r.top + k2;
    MulMonotone(a, b, stride);
    assert At(r, stride, k1, j1) < a * stride by {
      MulAdd(r.top + k1, 1, stride);
    }
  }

  /** Distinct pixels of the destination rectangle are distinct buffer cells. */
  lemma AtInjective(r: Region, stride: nat, k1: nat, j1: nat, k2: nat, j2: nat)
    requires r.left + j1 < stride && r.left + j2 < stride
    requires At(r, stride, k1, j1) == At(r, stride, k2, j2)
    ensures k1 == k2 && j1 == j2
  {
    if k1 < k2 {
      RowsAreOrdered(r, stride, k1, j1, k2, j2);
    } else if k2 < k1 {
      RowsAreOrdered(r, stride, k2, j2, k1, j1);
    }
  }

  /** Every pixel of the rectangle lies at or before its last one. */
  lemma AtBounded(r: Region, stride: nat, k: nat, j: nat, rows: nat, cols: nat)
    requires k < rows && j < cols
    ensures At(r, stride, k, j) <= At(r, stride, rows - 1, cols - 1)
  {
    MulMonotone(r.top + k, r.top + rows - 1, stride);
  }

  /** A buffer cell written by the blit. */
  ghost predicate Covered(b: Blit, p: nat)
  {
    exists k: nat, j: nat :: k < Rows(b) && j < Cols(b) && At(b.dst, b.destStride, k, j) == p
  }

  /** (k2, j2) is blended before (k, j) in row-major order. */
  predicate Before(k2: nat, j2: nat, k: nat, j: nat)
  {
    k2 < k || (k2 == k && j2 < j)
  }

  /** The C address arithmetic stride * y + x addresses pixel (y - top, x - left) of the rectangle. */
  lemma StrideIndex(r: Region, stride: nat, y: nat, x: nat)
    requires r.top <= y && r.left <= x
    ensures stride * y + x == At(r, stride, y - r.top, x - r.left)
  {
    assert r.top + (y - r.top) == y;
    assert (r.top + (y - r.top)) * stride == stride * y;
  }

  /** The pixel (k, j) of both rectangles lies in its buffer. */
  lemma PixelInBuffers(b: Blit, maskLen: nat, destLen: nat, k: nat, j: nat)
    requires Fits(b, maskLen, destLen) && k < Rows(b) && j < Cols(b)
    ensures At(b.dst, b.destStride, k, j) < destLen && At(b.src, b.srcStride, k, j) < maskLen
  {
    AtBounded(b.dst, b.destStride, k, j, Rows(b), Cols(b));
    AtBounded(b.src, b.srcStride, k, j, Rows(b), Cols(b));
  }

  /**
   * The canvas d part-way through the blit, before pixel (k, j): every
   * pixel already visited holds the blend of its original value with its
   * mask value, every other pixel holds its original value.
   */
  ghost predicate Progress(d: seq<nat>, d0: seq<nat>, mask: seq<nat>, b: Blit, k: nat, j: nat)
  {
    && |d| == |d0|
    && (forall k2: nat, j2: nat ::
          k2 < Rows(b) && j2 < Cols(b) && At(b.dst, b.destStride, k2, j2) < |d0|
          && At(b.src, b.srcStride, k2, j2) < |mask| ==>
            d[At(b.dst, b.destStride, k2, j2)] ==
              if Before(k2, j2, k, j)
              then Blend(d0[At(b.dst, b.destStride, k2, j2)], mask[At(b.src, b.srcStride, k2, j2)])
              else d0[At(b.dst, b.destStride, k2, j2)])
    && forall p :: 0 <= p < |d| && !Covered(b, p) ==> d[p] == d0[p]
  }

  /** render_alpha_mask's promise: the rectangle blended, every other pixel as it was. */
  ghost predicate Masked(d: seq<nat>, d0: seq<nat>, mask: seq<nat>, b: Blit)
  {
    Progress(d, d0, mask, b, Rows(b), 0)
  }

  /** Blending pixel (k, j) moves the progress one pixel on. */
  lemma {:induction false} ProgressStep(d: seq<nat>, d0: seq<nat>, mask: seq<nat>, b: Blit, k: nat, j: nat)
    requires Fits(b, |mask|, |d0|) && k < Rows(b) && j < Cols(b)
    requires Progress(d, d0, mask, b, k, j)
    ensures At(b.dst, b.destStride, k, j) < |d0| && At(b.src, b.srcStride, k, j) < |mask|
    ensures var p := At(b.dst, b.destStride, k, j);
      Progress(d[p := Blend(d[p], mask[At(b.src, b.srcStride, k, j)])], d0, mask, b, k, j + 1)
  {
    PixelInBuffers(b, |mask|, |d0|, k, j);
    var p := At(b.dst, b.destStride, k, j);
    var d' := d[p := Blend(d[p], mask[At(b.src, b.srcStride, k, j)])];
    assert d[p] == d0[p];
    forall k2: nat, j2: nat | k2 < Rows(b) && j2 < Cols(b) && At(b.dst, b.destStride, k2, j2) < |d0|
          && At(b.src, b.srcStride, k2, j2) < |mask|
      ensures d'[At(b.dst, b.destStride, k2, j2)] ==
              if Before(k2, j2, k, j + 1)
              then Blend(d0[At(b.dst, b.destStride, k2, j2)], mask[At(b.src, b.srcStride, k2, j2)])
              else d0[At(b.dst, b.destStride, k2, j2)]
    {
      if At(b.dst, b.destStride, k2, j2) == p {
        AtInjective(b.dst, b.destStride, k2, j2, k, j);
      }
    }
    forall q | 0 <= q < |d'| && !Covered(b, q)
      ensures d'[q] == d0[q]
    {
      assert q != p;
    }
  }

  /** Finishing a row starts the next one. */
  lemma NextRow(d: seq<nat>, d0: seq<nat>, mask: seq<nat>, b: Blit, k: nat)
    requires Progress(d, d0, mask, b, k, Cols(b))
    ensures Progress(d, d0, mask, b, k + 1, 0)
  {
    assert forall k2: nat, j2: nat :: j2 < Cols(b) ==> (Before(k2, j2, k, Cols(b)) <==> Before(k2, j2, k + 1, 0));
  }

  /** On a cleared canvas the blit writes the mask itself as the alpha of opaque white. */
  lemma ClearedCanvasTakesMask(d: seq<nat>, d0: seq<nat>, mask: seq<nat>, b: Blit, k: nat, j: nat)
    requires Fits(b, |mask|, |d0|) && Masked(d, d0, mask, b)
    requires forall i :: 0 <= i < |d0| ==> d0[i] == 0
    requires forall i :: 0 <= i < |mask| ==> mask[i] < 0x100
    requires k < Rows(b) && j < Cols(b)
    ensures At(b.dst, b.destStride, k, j) < |d| && At(b.src, b.srcStride, k, j) < |mask|
    ensures d[At(b.dst, b.destStride, k, j)] == 0xffff_ff00 + mask[At(b.src, b.srcStride, k, j)]
  {
    PixelInBuffers(b, |mask|, |d0|, k, j);
  }

  /** One pixel of the canvas blended with one mask value; the rest of the canvas stays. */
  method BlendAt(dest: array<nat>, p: nat, alpha: nat)
    requires p < dest.Length
    modifies dest
    ensures dest[..] == old(dest[..])[p := Blend(old(dest[p]), alpha)]
  {
    var val := dest[p];
    dest[p] := 0xffff_ff00 + Min(0xff, alpha + val % 0x100);
  }

  /** The body of the inner loop: blend pixel (sx, sy) of the mask into pixel (dx, dy). */
  method BlendPixel(mask: seq<nat>, dest: array<nat>, b: Blit, sy: nat, dy: nat, sx: nat, dx: nat,
                    ghost d0: seq<nat>)
    requires Fits(b, |mask|, |d0|)
    requires b.src.top <= sy && dy - b.dst.top == sy - b.src.top < Rows(b)
    requires b.src.left <= sx && dx - b.dst.left == sx - b.src.left < Cols(b)
    requires Progress(dest[..], d0, mask, b, sy - b.src.top, sx - b.src.left)
    modifies dest
    ensures Progress(dest[..], d0, mask, b, sy - b.src.top, sx - b.src.left + 1)
  {
    ghost var k, j := sy - b.src.top, sx - b.src.left;
    ghost var d := dest[..];
    ghost var p, q := At(b.dst, b.destStride, k, j), At(b.src, b.srcStride, k, j);
    ProgressStep(d, d0, mask, b, k, j);
    StrideIndex(b.dst, b.destStride, dy, dx);
    StrideIndex(b.src, b.srcStride, sy, sx);
    BlendAt(dest, b.destStride * dy + dx, mask[b.srcStride * sy + sx]);
    assert dest[..] == d[p := Blend(d[p], mask[q])];
  }

  /** The inner loop: one row of the rectangle, left to right. */
  method BlendRow(mask: seq<nat>, dest: array<nat>, b: Blit, sy: nat, dy: nat, ghost d0: seq<nat>)
    requires Fits(b, |mask|, |d0|)
    requires b.src.top <= sy && dy - b.dst.top == sy - b.src.top < Rows(b)
    requires Progress(dest[..], d0, mask, b, sy - b.src.top, 0)
    modifies dest
    ensures Progress(dest[..], d0, mask, b, sy - b.src.top, Cols(b))
  {
    var sx, dx := b.src.left, b.dst.left;
    while sx < b.src.right && dx < b.dst.right
      invariant b.src.left <= sx && dx - b.dst.left == sx - b.src.left <= Cols(b)
      invariant (sx < b.src.right && dx < b.dst.right) <==> sx - b.src.left < Cols(b)
      invariant Progress(dest[..], d0, mask, b, sy - b.src.top, sx - b.src.left)
      decreases b.src.right - sx
    {
      BlendPixel(mask, dest, b, sy, dy, sx, dx, d0);
      sx, dx := sx + 1, dx + 1;
    }
  }

  /**
   * render_alpha_mask: two nested loops walking both rectangles in step,
   * stopping at whichever edge comes first.
   */
  method RenderAlphaMask(mask: seq<nat>, dest: array<nat>, b: Blit)
    requires Fits(b, |mask|, dest.Length)
    modifies dest
    ensures Masked(dest[..], old(dest[..]), mask, b)
  {
    ghost var d0 := dest[..];
    var sy, dy := b.src.top, b.dst.top;
    while sy < b.src.bottom && dy < b.dst.bottom
      invariant b.src.top <= sy && dy - b.dst.top == sy - b.src.top <= Rows(b)
      invariant (sy < b.src.bottom && dy < b.dst.bottom) <==> sy - b.src.top < Rows(b)
      invariant Progress(dest[..], d0, mask, b, sy - b.src.top, 0)
      decreases b.src.bottom - sy
    {
      BlendRow(mask, dest, b, sy, dy, d0);
      NextRow(dest[..], d0, mask, b, sy - b.src.top);
      sy, dy := sy + 1, dy + 1;
    }
  }

  // ---------------------------------------------------------------------
  // concat_cells

  /**
   * The four bytes concat_cells writes for one source pixel: a 32-bit
   * pixel as its R, G, B, A bytes; an 8-bit coverage value as opaque
   * white with that alpha, or all zero when the value is 0.
   */
  function PixelBytes(v: nat, is32: bool): (r: seq<nat>)
    ensures |r| == 4
  {
    if is32 then [v / 0x100_0000 % 0x100, v / 0x1_0000 % 0x100, v / 0x100 % 0x100, v % 0x100]
    else if v != 0 then [0xff, 0xff, 0xff, v]
    else [0, 0, 0, 0]
  }

  /** The RGBA bytes of a 32-bit pixel put back together give the pixel. */
  lemma PixelBytesRoundTrip(v: nat)
    requires v < 0x1_0000_0000
    ensures var r := PixelBytes(v, true);
      && (forall k :: 0 <= k < 4 ==> r[k] < 0x100)
      && r[0] * 0x100_0000 + r[1] * 0x1_0000 + r[2] * 0x100 + r[3] == v
  {
    var r := PixelBytes(v, true);
    assert v / 0x100 == (v / 0x1_0000) * 0x100 + r[2];
    assert v / 0x1_0000 == (v / 0x100_0000) * 0x100 + r[1];
    assert v / 0x100_0000 == r[0];
  }

  /** An 8-bit value becomes the alpha byte, over white exactly when it is not 0. */
  lemma CoverageIsAlpha(v: nat)
    requires v < 0x100
    ensures var r := PixelBytes(v, false);
      r[3] == v && forall k :: 0 <= k < 3 ==> r[k] == (if v == 0 then 0 else 0xff)
  {
  }

  /** The parts one after another. */
  function Flatten(parts: seq<seq<nat>>): seq<nat>
  {
    if parts == [] then [] else Flatten(parts[..|parts| - 1]) + parts[|parts| - 1]
  }

  lemma AppendAssoc(a: seq<nat>, b: seq<nat>, c: seq<nat>)
    ensures (a + b) + c == a + (b + c)
  {
  }

  /** Flattening one more part appends it. */
  lemma FlattenSnoc(parts: seq<seq<nat>>, i: nat)
    requires i < |parts|
    ensures Flatten(parts[..i + 1]) == Flatten(parts[..i]) + parts[i]
  {
    assert parts[..i + 1][..i] == parts[..i];
  }

  /** A part and everything before it fit in the whole. */
  lemma {:induction false} FlattenPrefixFits(parts: seq<seq<nat>>, i: nat)
    requires i < |parts|
    ensures |Flatten(parts[..i])| + |parts[i]| <= |Flatten(parts)|
    decreases |parts|
  {
    var init := parts[..|parts| - 1];
    if i < |parts| - 1 {
      FlattenPrefixFits(init, i);
      assert init[..i] == parts[..i];
    } else {
      assert init == parts[..i];
    }
  }

  /** Parts of one length each flatten to |parts| times that length. */
  lemma {:induction false} FlattenLength(parts: seq<seq<nat>>, len: nat)
    requires forall q :: 0 <= q < |parts| ==> |parts[q]| == len
    ensures |Flatten(parts)| == |parts| * len
    decreases |parts|
  {
    if parts != [] {
      FlattenLength(parts[..|parts| - 1], len);
      MulAdd(|parts| - 1, 1, len);
    }
  }

  lemma MulAdd(a: nat, b: nat, m: nat)
    ensures (a + b) * m == a * m + b * m
  {
  }

  lemma MulMonotone(a: nat, b: nat, m: nat)
    requires a <= b
    ensures a * m <= b * m
  {
    MulAdd(a, b - a, m);
  }

  /** Where part j starts when every part is len long: j * len. */
  function Offset(j: nat, len: nat): nat
  {
    j * len
  }

  /** With parts of one length len, byte t of part j sits at j * len + t. */
  lemma {:induction false} FlattenAt(parts: seq<seq<nat>>, len: nat, j: nat, t: nat)
    requires forall q :: 0 <= q < |parts| ==> |parts[q]| == len
    requires j < |parts| && t < len
    ensures Offset(j, len) + t < |Flatten(parts)|
    ensures Flatten(parts)[Offset(j, len) + t] == parts[j][t]
    decreases |parts|
  {
    var init := parts[..|parts| - 1];
    FlattenLength(init, len);
    FlattenLength(parts, len);
    if j < |parts| - 1 {
      FlattenAt(init, len, j, t);
    } else {
      assert Offset(j, len) == |Flatten(init)|;
    }
  }

  /** The bytes of the pixels of one row of a cell, four per pixel. */
  function PixelParts(px: seq<nat>, is32: bool): seq<seq<nat>>
  {
    seq(|px|, i requires 0 <= i < |px| => PixelBytes(px[i], is32))
  }

  function RowBytes(px: seq<nat>, is32: bool): seq<nat>
  {
    Flatten(PixelParts(px, is32))
  }

  /** Every cell holds at least h rows of w pixels. */
  predicate CellsHold(cells: seq<seq<nat>>, w: nat, h: nat)
  {
    forall c :: 0 <= c < |cells| ==> h * w <= |cells[c]|
  }

  /** Row r < h of a w-wide image lies inside its h * w pixels. */
  lemma {:induction false} RowFits(w: nat, h: nat, r: nat)
    requires r < h
    ensures Offset(r, w) + w <= h * w
    decreases h
  {
    if r + 1 < h {
      RowFits(w, h - 1, r);
      assert h * w == (h - 1) * w + w;
    } else {
      assert h * w == r * w + w;
    }
  }

  function Zeros(n: nat): (z: seq<nat>)
    ensures |z| == n
  {
    if n == 0 then [] else [0] + Zeros(n - 1)
  }

  /**
   * Row r of a w-wide cell buffer. A row past the end of the buffer is
   * outside what concat_cells accepts (see CellsHold) and reads as zeros.
   */

  function RowOf(cell: seq<nat>, w: nat, r: nat): (px: seq<nat>)
    ensures |px| == w
  {
    var from := Offset(r, w);
    if from + w <= |cell| then cell[from .. from + w] else Zeros(w)
  }

  /** Inside the buffer, pixel i of row r is pixel r * w + i. */
  lemma RowOfAt(cell: seq<nat>, w: nat, r: nat, i: nat)
    requires i < w && Offset(r, w) + w <= |cell|
    ensures RowOf(cell, w, r)[i] == cell[Offset(r, w) + i]
  {
  }

  /** Row r of each cell in turn. */
  function RowParts(cells: seq<seq<nat>>, w: nat, r: nat, is32: bool): seq<seq<nat>>
  {
    seq(|cells|, c requires 0 <= c < |cells| => RowBytes(RowOf(cells[c], w, r), is32))
  }

  /** Row r of the strip: the cells' rows side by side. */
  function CellsRow(cells: seq<seq<nat>>, w: nat, r: nat, is32: bool): seq<nat>
  {
    Flatten(RowParts(cells, w, r, is32))
  }

  /** The rows of the strip, top to bottom. */
  function StripParts(cells: seq<seq<nat>>, w: nat, h: nat, is32: bool): seq<seq<nat>>
  {
    seq(h, r requires 0 <= r < h => CellsRow(cells, w, r, is32))
  }

  /** The bytes concat_cells returns. */
  function Strip(cells: seq<seq<nat>>, w: nat, h: nat, is32: bool): seq<nat>
  {
    Flatten(StripParts(cells, w, h, is32))
  }

  /** A row of w pixels is 4 * w bytes. */
  lemma RowBytesLength(px: seq<nat>, is32: bool)
    ensures |RowBytes(px, is32)| == 4 * |px|
  {
    FlattenLength(PixelParts(px, is32), 4);
  }

  /** A row of the strip is n * (4 * w) bytes. */
  lemma CellsRowLength(cells: seq<seq<nat>>, w: nat, r: nat, is32: bool)
    ensures |CellsRow(cells, w, r, is32)| == |cells| * (4 * w)
  {
    var parts := RowParts(cells, w, r, is32);
    forall c | 0 <= c < |parts|
      ensures |parts[c]| == 4 * w
    {
      RowBytesLength(RowOf(cells[c], w, r), is32);
    }
    FlattenLength(parts, 4 * w);
  }

  /** The strip is h rows of n * (4 * w) bytes. */
  lemma StripLength(cells: seq<seq<nat>>, w: nat, h: nat, is32: bool)
    ensures |Strip(cells, w, h, is32)| == h * (|cells| * (4 * w))
  {
    var parts := StripParts(cells, w, h, is32);
    forall r | 0 <= r < h
      ensures |parts[r]| == |cells| * (4 * w)
    {
      CellsRowLength(cells, w, r, is32);
    }
    FlattenLength(parts, |cells| * (4 * w));
  }

  /** Byte k of pixel i of a row is byte k of that pixel's four. */
  lemma RowBytesAt(px: seq<nat>, is32: bool, i: nat, k: nat)
    requires i < |px| && k < 4
    ensures 4 * i + k < |RowBytes(px, is32)|
    ensures RowBytes(px, is32)[4 * i + k] == PixelBytes(px[i], is32)[k]
  {
    FlattenAt(PixelParts(px, is32), 4, i, k);
  }

  /** Within a row of the strip, cell c's row starts at byte c * (4 * w). */
  lemma CellsRowAt(cells: seq<seq<nat>>, w: nat, r: nat, is32: bool, c: nat, t: nat)
    requires c < |cells| && t < 4 * w
    ensures |RowBytes(RowOf(cells[c], w, r), is32)| == 4 * w
    ensures Offset(c, 4 * w) + t < |CellsRow(cells, w, r, is32)|
    ensures CellsRow(cells, w, r, is32)[Offset(c, 4 * w) + t] == RowBytes(RowOf(cells[c], w, r), is32)[t]
  {
    var parts := RowParts(cells, w, r, is32);
    forall q | 0 <= q < |cells|
      ensures |parts[q]| == 4 * w
    {
      RowBytesLength(RowOf(cells[q], w, r), is32);
    }
    FlattenAt(parts, 4 * w, c, t);
  }

  /** Row r of the strip starts at byte r * (n * (4 * w)). */
  lemma StripAt(cells: seq<seq<nat>>, w: nat, h: nat, is32: bool, r: nat, t: nat)
    requires r < h && t < |cells| * (4 * w)
    ensures |CellsRow(cells, w, r, is32)| == |cells| * (4 * w)
    ensures Offset(r, |cells| * (4 * w)) + t < |Strip(cells, w, h, is32)|
    ensures Strip(cells, w, h, is32)[Offset(r, |cells| * (4 * w)) + t] == CellsRow(cells, w, r, is32)[t]
  {
    var parts := StripParts(cells, w, h, is32);
    forall q | 0 <= q < h
      ensures |parts[q]| == |cells| * (4 * w)
    {
      CellsRowLength(cells, w, q, is32);
    }
    FlattenAt(parts, |cells| * (4 * w), r, t);
  }

  /** The index in the strip of byte k of pixel i of row r of cell c, among n cells w pixels wide. */
  function ByteOffset(n: nat, w: nat, r: nat, c: nat, i: nat, k: nat): nat
  {
    4 * ((r * n + c) * w + i) + k
  }

  lemma PixelOffset(n: nat, w: nat, r: nat, c: nat, i: nat, k: nat)
    ensures ByteOffset(n, w, r, c, i, k) == Offset(r, n * (4 * w)) + (Offset(c, 4 * w) + (4 * i + k))
  {
    assert (r * n + c) * w == r * n * w + c * w;
    assert r * (n * (4 * w)) == 4 * (r * n * w);
  }

  /** Within row r of the strip, byte k of pixel i of cell c sits at c * (4 * w) + (4 * i + k). */
  lemma CellsRowPlacesPixel(cells: seq<seq<nat>>, w: nat, h: nat, is32: bool, r: nat, c: nat, i: nat, k: nat)
    requires r < h && c < |cells| && i < w && k < 4 && CellsHold(cells, w, h)
    ensures Offset(r, w) + i < |cells[c]|
    ensures Offset(c, 4 * w) + (4 * i + k) < |cells| * (4 * w) == |CellsRow(cells, w, r, is32)|
    ensures CellsRow(cells, w, r, is32)[Offset(c, 4 * w) + (4 * i + k)] == PixelBytes(cells[c][Offset(r, w) + i], is32)[k]
  {
    RowFits(w, h, r);
    var px := RowOf(cells[c], w, r);
    RowOfAt(cells[c], w, r, i);
    RowBytesAt(px, is32, i, k);
    CellsRowAt(cells, w, r, is32, c, 4 * i + k);
    RowFits(4 * w, |cells|, c);
    CellsRowLength(cells, w, r, is32);
  }

  /**
   * The strip is an image n * w pixels wide and h high: pixel i of row r
   * of cell c lands at pixel (r * n + c) * w + i, that is row r, column
   * c * w + i, as four bytes.
   */
  lemma StripPlacesCellsSideBySide(cells: seq<seq<nat>>, w: nat, h: nat, is32: bool, r: nat, c: nat, i: nat, k: nat)
    requires r < h && c < |cells| && i < w && k < 4 && CellsHold(cells, w, h)
    ensures Offset(r, w) + i < |cells[c]|
    ensures ByteOffset(|cells|, w, r, c, i, k) < |Strip(cells, w, h, is32)|
    ensures Strip(cells, w, h, is32)[ByteOffset(|cells|, w, r, c, i, k)] == PixelBytes(cells[c][Offset(r, w) + i], is32)[k]
  {
    CellsRowPlacesPixel(cells, w, h, is32, r, c, i, k);
    var t := Offset(c, 4 * w) + (4 * i + k);
    StripAt(cells, w, h, is32, r, t);
    PixelOffset(|cells|, w, r, c, i, k);
  }

  /** One pixel's four bytes written at p: the bytes before p stay. */
  method PackPixel(dest: array<nat>, p: nat, v: nat, is32: bool)
    requires p + 4 <= dest.Length
    modifies dest
    ensures dest[..p + 4] == old(dest[..p]) + PixelBytes(v, is32)
  {
    if is32 {
      dest[p] := v / 0x100_0000 % 0x100;
      dest[p + 1] := v / 0x1_0000 % 0x100;
      dest[p + 2] := v / 0x100 % 0x100;
      dest[p + 3] := v % 0x100;
    } else if v != 0 {
      dest[p], dest[p + 1], dest[p + 2] := 0xff, 0xff, 0xff;
      dest[p + 3] := v;
    } else {
      dest[p], dest[p + 1], dest[p + 2], dest[p + 3] := 0, 0, 0, 0;
    }
  }

  /** Pixel i of a row written at q, after the bytes of the pixels before it. */
  method PackNextPixel(dest: array<nat>, q: nat, px: seq<nat>, is32: bool, i: nat,
                       ghost start: seq<nat>, ghost parts: seq<seq<nat>>)
    requires i < |px| && parts == PixelParts(px, is32) && q + 4 <= dest.Length
    requires dest[..q] == start + Flatten(parts[..i])
    modifies dest
    ensures dest[..q + 4] == start + Flatten(parts[..i + 1])
  {
    FlattenSnoc(parts, i);
    AppendAssoc(start, Flatten(parts[..i]), parts[i]);
    assert parts[i] == PixelBytes(px[i], is32);
    PackPixel(dest, q, px[i], is32);
  }

  /** One row of a cell written from p on, pixel by pixel. */
  method PackRow(dest: array<nat>, p: nat, px: seq<nat>, is32: bool)
    requires p + 4 * |px| <= dest.Length
    modifies dest
    ensures dest[..p + 4 * |px|] == old(dest[..p]) + RowBytes(px, is32)
  {
    ghost var start := dest[..p];
    ghost var parts := PixelParts(px, is32);
    var i: nat, q: nat := 0, p;
    while i < |px|
      invariant i <= |px| && q == p + 4 * i
      invariant dest[..q] == start + Flatten(parts[..i])
    {
      PackNextPixel(dest, q, px, is32, i, start, parts);
      i, q := i + 1, q + 4;
    }
    assert parts[..i] == parts;
  }

  /** Row r lies inside every cell's buffer. */
  predicate RowInCells(cells: seq<seq<nat>>, w: nat, r: nat)
  {
    forall c :: 0 <= c < |cells| ==> Offset(r, w) + w <= |cells[c]|
  }

  lemma HoldsRow(cells: seq<seq<nat>>, w: nat, h: nat, r: nat)
    requires r < h && CellsHold(cells, w, h)
    ensures RowInCells(cells, w, r)
  {
    RowFits(w, h, r);
  }

  /** Row r of cell c written from q on. */
  method PackCell(dest: array<nat>, q: nat, cells: seq<seq<nat>>, w: nat, r: nat, is32: bool, c: nat)
    requires c < |cells| && Offset(r, w) + w <= |cells[c]| && q + 4 * w <= dest.Length
    modifies dest
    ensures dest[..q + 4 * w] == old(dest[..q]) + RowBytes(RowOf(cells[c], w, r), is32)
  {
    var from := Offset(r, w);
    var px := cells[c][from .. from + w];
    assert px == RowOf(cells[c], w, r);
    PackRow(dest, q, px, is32);
  }

  /** Row r of cell c written at q, after the rows of the cells before it. */
  method PackNextCell(dest: array<nat>, p: nat, q: nat, cells: seq<seq<nat>>, w: nat, r: nat, is32: bool, c: nat,
                      ghost start: seq<nat>, ghost parts: seq<seq<nat>>) returns (q': nat)
    requires RowInCells(cells, w, r) && c < |cells| && parts == RowParts(cells, w, r, is32)
    requires q == p + |Flatten(parts[..c])| <= p + |Flatten(parts)| && p + |Flatten(parts)| <= dest.Length
    requires dest[..q] == start + Flatten(parts[..c])
    modifies dest
    ensures q' == p + |Flatten(parts[..c + 1])| <= p + |Flatten(parts)|
    ensures dest[..q'] == start + Flatten(parts[..c + 1])
  {
    ghost var part := RowBytes(RowOf(cells[c], w, r), is32);
    assert parts[c] == part;
    RowBytesLength(RowOf(cells[c], w, r), is32);
    FlattenPrefixFits(parts, c);
    FlattenSnoc(parts, c);
    AppendAssoc(start, Flatten(parts[..c]), part);
    PackCell(dest, q, cells, w, r, is32, c);
    q' := q + 4 * w;
  }

  /** Row r of every cell in turn written from p on. */
  method PackCellsRow(dest: array<nat>, p: nat, cells: seq<seq<nat>>, w: nat, r: nat, is32: bool)
    returns (q: nat)
    requires RowInCells(cells, w, r)
    requires p + |CellsRow(cells, w, r, is32)| <= dest.Length
    modifies dest
    ensures q == p + |CellsRow(cells, w, r, is32)|
    ensures dest[..q] == old(dest[..p]) + CellsRow(cells, w, r, is32)
  {
    ghost var start := dest[..p];
    ghost var parts := RowParts(cells, w, r, is32);
    var c: nat := 0;
    q := p;
    while c < |cells|
      invariant c <= |cells|
      invariant q == p + |Flatten(parts[..c])| <= p + |Flatten(parts)|
      invariant dest[..q] == start + Flatten(parts[..c])
    {
      q := PackNextCell(dest, p, q, cells, w, r, is32, c, start, parts);
      c := c + 1;
    }
    assert parts[..c] == parts;
  }

  /** The strip has exactly the 4 * w * h * n bytes concat_cells allocates. */
  lemma BufferHoldsStrip(cells: seq<seq<nat>>, w: nat, h: nat, is32: bool)
    ensures |Strip(cells, w, h, is32)| == 4 * w * h * |cells|
  {
    StripLength(cells, w, h, is32);
    MulRotate(4 * w, h, |cells|);
  }

  lemma MulRotate(a: nat, b: nat, c: nat)
    ensures a * b * c == b * (c * a)
  {
    assert a * b == b * a;
    assert b * a * c == b * (a * c);
    assert a * c == c * a;
  }

  /** The rows of the strip written one after another into dest. */
  method FillStrip(dest: array<nat>, cells: seq<seq<nat>>, w: nat, h: nat, is32: bool)
    requires CellsHold(cells, w, h) && dest.Length == |Strip(cells, w, h, is32)|
    modifies dest
    ensures dest[..] == Strip(cells, w, h, is32)
  {
    ghost var parts := StripParts(cells, w, h, is32);
    var p: nat, r: nat := 0, 0;
    while r < h
      invariant r <= h
      invariant p == |Flatten(parts[..r])| <= dest.Length
      invariant dest[..p] == Flatten(parts[..r])
    {
      ghost var done := dest[..p];
      ghost var row := CellsRow(cells, w, r, is32);
      assert parts[r] == row;
      FlattenPrefixFits(parts, r);
      FlattenSnoc(parts, r);
      HoldsRow(cells, w, h, r);
      p := PackCellsRow(dest, p, cells, w, r, is32);
      assert dest[..p] == done + row;
      r := r + 1;
    }
    assert parts[..r] == parts;
    assert dest[..p] == dest[..];
  }

  /**
   * concat_cells: a buffer of 4 * w * h * n bytes filled row by row, each
   * row holding row r of every cell in turn, so that the cells stand side
   * by side in one image.
   */
  method ConcatCells(w: nat, h: nat, is32: bool, cells: seq<seq<nat>>) returns (ans: array<nat>)
    requires CellsHold(cells, w, h)
    ensures ans.Length == 4 * w * h * |cells|
    ensures ans[..] == Strip(cells, w, h, is32)
  {
    ans := new nat[4 * w * h * |cells|];
    BufferHoldsStrip(cells, w, h, is32);
    FillStrip(ans, cells, w, h, is32);
  }
}
