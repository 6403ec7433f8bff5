/**
 * The block decoders of `bc.c`: each walks the 4x4 texels of one block in
 * row order, shifting its packed index registers as it goes and writing
 * `out[idx++]`, then skips `idx_inc` bytes to the next row; the image
 * decoders walk the block grid left to right, top to bottom, advancing the
 * input by one block each time.
 *
 * Every block decoder is proved to write texel t of its block to the
 * pixel it belongs to (when the block lies inside the row) and to touch no
 * other pixel and nothing outside the block's bytes; the image decoders
 * are proved to leave every pixel equal to `Pixel` for widths that are a
 * multiple of 4 or below 4, and never to write at or past `WriteBound`.
 * At other widths the walk leaves some pixels wrong (`SpillOverwrites`);
 * `UnpackCropped` is the corrected walk.
 */
module BcUnpack {
  import opened Bits
  import opened BlockCompression

  // ---------------------------------------------------------------------
  // Image geometry
  // ---------------------------------------------------------------------

  /** Byte offset of channel c of pixel (px, py) in a row-major image `w` pixels wide with `ch` bytes per pixel: `(py * w + px) * ch + c`. */
  function PixelPos(w: nat, ch: nat, px: nat, py: nat, c: nat): nat
  {
    (Times(w, py) + px) * ch + c
  }

  lemma PixelPosIs(w: nat, ch: nat, px: nat, py: nat, c: nat)
    ensures PixelPos(w, ch, px, py, c) == (py * w + px) * ch + c
  {
    TimesIs(w, py);
  }

  /** Channel c of texel (x, y) of the block whose top-left pixel is (left, top). */
  function BlockPos(w: nat, ch: nat, left: nat, top: nat, x: nat, y: nat, c: nat): nat
  {
    PixelPos(w, ch, left + x, top + y, c)
  }

  /** One past the last byte a block decoder writes: the start of the pixel just right of texel (3, 3). */
  function BlockLimit(w: nat, ch: nat, left: nat, top: nat): nat
  {
    PixelPos(w, ch, left + 4, top + 3, 0)
  }

  /** Number of 4-pixel blocks covering n pixels. */
  function Blocks(n: nat): nat
  {
    (n + 3) / 4
  }

  /** `(n + 3) & ~3`: n rounded up to a multiple of 4. */
  function RoundUp4(n: nat): (r: nat)
    ensures r % 4 == 0 && n <= r < n + 4
  {
    Blocks(n) * 4
  }

  /** One past the last byte the image decoders write; zero when there are no blocks. */
  function WriteBound(w: nat, h: nat, ch: nat): nat
  {
    if w == 0 || h == 0 then 0 else PixelPos(w, ch, RoundUp4(w), RoundUp4(h) - 1, 0)
  }

  /** Position, in decoding order (block rows top to bottom, each left to right), of the block that holds pixel (px, py). */
  function BlockIndex(w: nat, px: nat, py: nat): nat
  {
    Times(Blocks(w), py / 4) + px / 4
  }

  /** Byte offset, in the compressed input, of the block that holds pixel (px, py). */
  function BlockOffset(f: Format, w: nat, px: nat, py: nat): nat
  {
    Times(BlockSize(f), BlockIndex(w, px, py))
  }

  /**
   * The widths at which the block walk leaves every pixel decoded: a
   * multiple of 4, where no block row runs past the image's right edge, or
   * below 4, where what a block row writes past the edge is written again
   * by the block's next row or by the next block. At any other width the
   * last block column runs on into pixels of the first one that are not
   * written again (see `SpillOverwrites` and `SpillWitness`).
   */
  predicate SpillHarmless(w: nat)
  {
    w % 4 == 0 || w < 4
  }

  /** Blocks of a w x h image. */
  function BlockCount(w: nat, h: nat): nat
  {
    Times(Blocks(w), Blocks(h))
  }

  /** Compressed bytes of a w x h image. */
  function InputSize(f: Format, w: nat, h: nat): nat
  {
    Times(BlockSize(f), BlockCount(w, h))
  }

  /** The decoded value of pixel (px, py): its texel in the block that covers it. */
  function Pixel(f: Format, input: seq<uint8>, w: nat, h: nat, px: nat, py: nat): (p: seq<uint8>)
    requires px < w && py < h && |input| >= InputSize(f, w, h)
    ensures |p| == Channels(f)
  {
    BlockOffsetInside(f, w, h, px, py);
    var o := BlockOffset(f, w, px, py);
    Texel(f, input[o..o + BlockSize(f)], 4 * (py % 4) + px % 4)
  }

  /** The compressed bytes of the block that holds pixel (px, py). */
  function BlockAt(f: Format, input: seq<uint8>, w: nat, h: nat, px: nat, py: nat): (b: seq<uint8>)
    requires px < w && py < h && |input| >= InputSize(f, w, h)
    ensures |b| == BlockSize(f)
  {
    BlockOffsetInside(f, w, h, px, py);
    input[BlockOffset(f, w, px, py)..BlockOffset(f, w, px, py) + BlockSize(f)]
  }

  // ---------------------------------------------------------------------
  // Arithmetic on positions
  // ---------------------------------------------------------------------

  /** Distinct pixels and channels occupy distinct bytes. */
  lemma PixelPosInjective(w: nat, ch: nat, x1: nat, y1: nat, c1: nat, x2: nat, y2: nat, c2: nat)
    requires x1 < w && x2 < w && c1 < ch && c2 < ch
    requires PixelPos(w, ch, x1, y1, c1) == PixelPos(w, ch, x2, y2, c2)
    ensures x1 == x2 && y1 == y2 && c1 == c2
  {
    PixelPosIs(w, ch, x1, y1, c1);
    PixelPosIs(w, ch, x2, y2, c2);
    var p := PixelPos(w, ch, x1, y1, c1);
    DivModUnique(p, ch, y1 * w + x1, c1);
    DivModUnique(p, ch, y2 * w + x2, c2);
    DivModUnique(y1 * w + x1, w, y1, x1);
    DivModUnique(y2 * w + x2, w, y2, x2);
  }

  /** A byte among the `ch` bytes of pixel (cx, cy) belongs to that pixel and no other. */
  lemma SamePixel(w: nat, ch: nat, cx: nat, cy: nat, px: nat, py: nat, c: nat)
    requires cx < w && px < w && c < ch
    requires PixelPos(w, ch, cx, cy, 0) <= PixelPos(w, ch, px, py, c) < PixelPos(w, ch, cx, cy, 0) + ch
    ensures px == cx && py == cy
  {
    var d := PixelPos(w, ch, px, py, c) - PixelPos(w, ch, cx, cy, 0);
    PixelPosInjective(w, ch, cx, cy, d, px, py, c);
  }

  /** The next pixel in a row starts `ch` bytes on; the next row starts `w * ch` bytes on. */
  lemma PixelPosSteps(w: nat, ch: nat, px: nat, py: nat)
    ensures PixelPos(w, ch, px + 1, py, 0) == PixelPos(w, ch, px, py, 0) + ch
    ensures PixelPos(w, ch, px, py + 1, 0) == PixelPos(w, ch, px, py, 0) + w * ch
  {
    assert (Times(w, py) + px + 1) * ch == (Times(w, py) + px) * ch + ch;
    assert (Times(w, py) + w + px) * ch == (Times(w, py) + px) * ch + w * ch;
  }

  /** After the 4 texels of a block row, `idx_inc = w * ch - 4 * ch` moves on to the block's next row. */
  lemma NextTexelRow(w: nat, ch: nat, left: nat, py: nat)
    ensures PixelPos(w, ch, left + 4, py, 0) + (w * ch - 4 * ch) == PixelPos(w, ch, left, py + 1, 0)
  {
    assert (Times(w, py) + left + 4) * ch == (Times(w, py) + left) * ch + 4 * ch;
    assert (Times(w, py) + w + left) * ch == (Times(w, py) + left) * ch + w * ch;
  }

  /** Byte order follows pixel order. */
  lemma PixelPosMono(w: nat, ch: nat, x1: nat, y1: nat, x2: nat, y2: nat)
    requires y1 <= y2 && y1 * w + x1 <= y2 * w + x2
    ensures PixelPos(w, ch, x1, y1, 0) <= PixelPos(w, ch, x2, y2, 0)
  {
    PixelPosIs(w, ch, x1, y1, 0);
    PixelPosIs(w, ch, x2, y2, 0);
    MulMono(y1 * w + x1, y2 * w + x2, ch);
  }

  /** Every byte of every texel of a block lies below the block's limit. */
  lemma BlockPosBelowLimit(w: nat, ch: nat, left: nat, top: nat, x: nat, y: nat)
    requires x < 4 && y < 4
    ensures BlockPos(w, ch, left, top, x, y, 0) + ch <= BlockLimit(w, ch, left, top)
  {
    MulMono(top + y, top + 3, w);
    PixelPosSteps(w, ch, left + x, top + y);
    PixelPosMono(w, ch, left + x + 1, top + y, left + 4, top + 3);
  }

  /** The block holding an in-image pixel lies inside the compressed input. */
  lemma BlockOffsetInside(f: Format, w: nat, h: nat, px: nat, py: nat)
    requires px < w && py < h
    ensures BlockOffset(f, w, px, py) + BlockSize(f) <= InputSize(f, w, h)
  {
    BlockIndexBelow(w, h, px, py);
    TimesMono(BlockSize(f), BlockIndex(w, px, py) + 1, BlockCount(w, h));
  }

  /** Every block of the grid ends at or before `WriteBound`. */
  lemma BlockLimitWithinBound(w: nat, h: nat, ch: nat, left: nat, top: nat)
    requires left + 4 <= RoundUp4(w) && top + 4 <= RoundUp4(h)
    ensures BlockLimit(w, ch, left, top) <= WriteBound(w, h, ch)
  {
    MulMono(top + 3, RoundUp4(h) - 1, w);
    PixelPosMono(w, ch, left + 4, top + 3, RoundUp4(w), RoundUp4(h) - 1);
  }

  /** For a width that is a multiple of 4, the decoder writes exactly the rounded-up rows and no spill: the bound is `w * RoundUp4(h) * ch`, and it covers every pixel. */
  lemma WriteBoundAligned(w: nat, h: nat, ch: nat)
    requires w % 4 == 0
    ensures WriteBound(w, h, ch) == w * RoundUp4(h) * ch
    ensures forall px: nat, py: nat, c: nat :: px < w && py < h && c < ch ==> PixelPos(w, ch, px, py, c) < WriteBound(w, h, ch)
  {
    if w > 0 && h > 0 {
      PixelPosIs(w, ch, RoundUp4(w), RoundUp4(h) - 1, 0);
      assert RoundUp4(w) == w;
      assert (RoundUp4(h) - 1) * w + w == RoundUp4(h) * w;
      forall px: nat, py: nat, c: nat | px < w && py < h && c < ch
        ensures PixelPos(w, ch, px, py, c) < WriteBound(w, h, ch)
      {
        PixelPosSteps(w, ch, px, py);
        MulMono(py, RoundUp4(h) - 1, w);
        PixelPosMono(w, ch, px + 1, py, w, RoundUp4(h) - 1);
      }
    }
  }

  // ---------------------------------------------------------------------
  // Progress of a block decoder over the output bytes
  // ---------------------------------------------------------------------

  /** `texels` lists the 16 texels of the block in row order. */
  ghost predicate TexelsOf(f: Format, block: seq<uint8>, texels: seq<seq<uint8>>)
    requires |block| == BlockSize(f)
  {
    |texels| == 16 && forall t {:trigger Texel(f, block, t)} :: 0 <= t < 16 ==> texels[t] == Texel(f, block, t)
  }

  /** The first k texels of the block (row order) hold the bytes given for them, each whose column within the block is below the width (in a narrower image, the texel's row runs on into the next row and a later texel takes its bytes). */
  ghost predicate Written(s: seq<uint8>, w: nat, ch: nat, left: nat, top: nat, texels: seq<seq<uint8>>, k: nat)
    requires |texels| == 16
  {
    forall x: nat, y: nat, c: nat {:trigger BlockPos(w, ch, left, top, x, y, c)} ::
      x < 4 && y < 4 && x < w && c < ch && 4 * y + x < k ==>
        BlockPos(w, ch, left, top, x, y, c) < |s| && c < |texels[4 * y + x]| &&
        s[BlockPos(w, ch, left, top, x, y, c)] == texels[4 * y + x][c]
  }

  /** Every pixel of the image outside the block has its old bytes. */
  ghost predicate KeptOutside(s: seq<uint8>, s0: seq<uint8>, w: nat, ch: nat, left: nat, top: nat)
  {
    |s| == |s0| &&
    forall px: nat, py: nat, c: nat {:trigger PixelPos(w, ch, px, py, c)} ::
      px < w && c < ch && !(left <= px < left + 4 && top <= py < top + 4) && PixelPos(w, ch, px, py, c) < |s| ==>
        s[PixelPos(w, ch, px, py, c)] == s0[PixelPos(w, ch, px, py, c)]
  }

  /** A block decoder after k texels: nothing before the block's first byte or at or past its limit changed, the first k texels are written (`Written`), and, when the block lies inside its rows, no other pixel changed. */
  ghost predicate BlockProgress(s: seq<uint8>, s0: seq<uint8>, w: nat, ch: nat, left: nat, top: nat, texels: seq<seq<uint8>>, k: nat)
    requires |texels| == 16
  {
    |s| == |s0| && BlockPos(w, ch, left, top, 0, 0, 0) <= BlockLimit(w, ch, left, top) <= |s| &&
    s[..BlockPos(w, ch, left, top, 0, 0, 0)] == s0[..BlockPos(w, ch, left, top, 0, 0, 0)] &&
    s[BlockLimit(w, ch, left, top)..] == s0[BlockLimit(w, ch, left, top)..] &&
    Written(s, w, ch, left, top, texels, k) &&
    (left + 4 <= w ==> KeptOutside(s, s0, w, ch, left, top))
  }

  /** Bytes outside the `ch` bytes at i keep their values. */
  lemma OutsideKept(s: seq<uint8>, s': seq<uint8>, i: nat, ch: nat)
    requires i + ch <= |s| == |s'| && s'[..i] == s[..i] && s'[i + ch..] == s[i + ch..]
    ensures forall j :: 0 <= j < |s| && !(i <= j < i + ch) ==> s'[j] == s[j]
  {
    forall j | 0 <= j < |s| && !(i <= j < i + ch) ensures s'[j] == s[j] {
      if j < i {
        assert s'[..i][j] == s[..i][j];
      } else {
        assert s'[i + ch..][j - i - ch] == s[i + ch..][j - i - ch];
      }
    }
  }

  /** `s` with the bytes of `v` stored from index i on (unchanged when they would not fit). */
  function Paint(s: seq<uint8>, i: nat, v: seq<uint8>): (r: seq<uint8>)
    ensures |r| == |s|
  {
    if i + |v| <= |s| then s[..i] + v + s[i + |v|..] else s
  }

  /** `pos` lists where each texel of the block starts, in row order. */
  ghost predicate PositionsOf(w: nat, ch: nat, left: nat, top: nat, pos: seq<nat>)
  {
    |pos| == 16 &&
    forall x: nat, y: nat {:trigger BlockPos(w, ch, left, top, x, y, 0)} ::
      x < 4 && y < 4 ==> pos[4 * y + x] == BlockPos(w, ch, left, top, x, y, 0)
  }

  /** The start of each texel of the block at (left, top), in row order. */
  lemma BlockPositions(w: nat, ch: nat, left: nat, top: nat) returns (pos: seq<nat>)
    ensures PositionsOf(w, ch, left, top, pos)
  {
    pos := seq(16, t requires 0 <= t < 16 => BlockPos(w, ch, left, top, t % 4, t / 4, 0));
    forall x: nat, y: nat | x < 4 && y < 4
      ensures pos[4 * y + x] == BlockPos(w, ch, left, top, x, y, 0)
    {
      DivModUnique(4 * y + x, 4, y, x);
    }
  }

  /** The output after a block decoder has stored its first k texels, in row order, at the given positions, starting from s0. */
  function Painted(s0: seq<uint8>, pos: seq<nat>, texels: seq<seq<uint8>>, k: nat): (s: seq<uint8>)
    requires k <= |pos| && k <= |texels|
    ensures |s| == |s0|
  {
    if k == 0 then s0 else Paint(Painted(s0, pos, texels, k - 1), pos[k - 1], texels[k - 1])
  }

  /** Whatever the earlier bytes, storing the first k texels of a block keeps everything before the block's first byte and from its limit on, writes each texel whose column is below the width to its own pixel, and, when the block lies inside its rows, no other pixel. */
  lemma {:induction false} PaintedProgress(s0: seq<uint8>, w: nat, ch: nat, left: nat, top: nat, pos: seq<nat>, texels: seq<seq<uint8>>, k: nat)
    requires |texels| == 16 && k <= 16 && BlockLimit(w, ch, left, top) <= |s0| && PositionsOf(w, ch, left, top, pos)
    requires forall t :: 0 <= t < 16 ==> |texels[t]| == ch
    ensures BlockProgress(Painted(s0, pos, texels, k), s0, w, ch, left, top, texels, k)
  {
    if k == 0 {
      BlockStartBelow(w, ch, left, top, 0, 0);
      BlockPosBelowLimit(w, ch, left, top, 0, 0);
    } else {
      var j := k - 1;
      PaintedProgress(s0, w, ch, left, top, pos, texels, j);
      var x, y := j % 4, j / 4;
      assert 4 * y + x == j;
      var s := Painted(s0, pos, texels, j);
      var i := pos[j];
      assert i == BlockPos(w, ch, left, top, x, y, 0);
      BlockPosBelowLimit(w, ch, left, top, x, y);
      PaintSlices(s, i, texels[j]);
      TexelStep(s0, s, Painted(s0, pos, texels, k), w, ch, left, top, texels, x, y);
    }
  }

  /** Storing v at i changes exactly the |v| bytes from i on, to v. */
  lemma PaintSlices(s: seq<uint8>, i: nat, v: seq<uint8>)
    requires i + |v| <= |s|
    ensures var r := Paint(s, i, v);
            r[..i] == s[..i] && r[i..i + |v|] == v && r[i + |v|..] == s[i + |v|..]
  {
    var r := Paint(s, i, v);
    assert r == s[..i] + v + s[i + |v|..];
  }

  /** Storing texel (x, y) over its `ch` bytes, and nothing else, advances the progress of the block by one texel. */
  lemma {:induction false} TexelStep(s0: seq<uint8>, s: seq<uint8>, s': seq<uint8>, w: nat, ch: nat, left: nat, top: nat,
                                     texels: seq<seq<uint8>>, x: nat, y: nat)
    requires |texels| == 16 && x < 4 && y < 4 && |texels[4 * y + x]| == ch
    requires BlockProgress(s, s0, w, ch, left, top, texels, 4 * y + x)
    requires var i := BlockPos(w, ch, left, top, x, y, 0);
             i + ch <= |s| == |s'| && s'[..i] == s[..i] && s'[i..i + ch] == texels[4 * y + x] && s'[i + ch..] == s[i + ch..]
    ensures BlockProgress(s', s0, w, ch, left, top, texels, 4 * y + x + 1)
  {
    var i := BlockPos(w, ch, left, top, x, y, 0);
    var start := BlockPos(w, ch, left, top, 0, 0, 0);
    var limit := BlockLimit(w, ch, left, top);
    BlockPosBelowLimit(w, ch, left, top, x, y);
    BlockStartBelow(w, ch, left, top, x, y);
    OutsideKept(s, s', i, ch);
    assert s'[limit..] == s[limit..];
    assert s'[..start] == s'[..i][..start] == s[..i][..start] == s[..start];
    WrittenStep(s, s', w, ch, left, top, texels, x, y);
    if left + 4 <= w {
      KeptStep(s0, s, s', w, ch, left, top, x, y);
    }
  }

  /** Texel (x, y) starts at or after the block's first byte. */
  lemma BlockStartBelow(w: nat, ch: nat, left: nat, top: nat, x: nat, y: nat)
    ensures BlockPos(w, ch, left, top, 0, 0, 0) <= BlockPos(w, ch, left, top, x, y, 0)
  {
    MulMono(top, top + y, w);
    PixelPosMono(w, ch, left, top, left + x, top + y);
  }

  /** An earlier texel of the block whose column is below the width ends before a later texel starts: a texel row is at most 4 pixels and the next row starts w pixels on. */
  lemma EarlierTexelBelow(w: nat, ch: nat, left: nat, top: nat, x': nat, y': nat, x: nat, y: nat)
    requires x' < 4 && x < 4 && x' < w && 4 * y' + x' < 4 * y + x
    ensures BlockPos(w, ch, left, top, x', y', 0) + ch <= BlockPos(w, ch, left, top, x, y, 0)
  {
    PixelPosSteps(w, ch, left + x', top + y');
    if y' == y {
      PixelPosMono(w, ch, left + x' + 1, top + y', left + x, top + y);
    } else {
      assert y' + 1 <= y;
      MulMono(top + y' + 1, top + y, w);
      assert (top + y' + 1) * w == (top + y') * w + w;
      PixelPosMono(w, ch, left + x' + 1, top + y', left + x, top + y);
    }
  }

  /** Texel (x, y) joins the written texels, and the earlier ones keep their bytes. */
  lemma WrittenStep(s: seq<uint8>, s': seq<uint8>, w: nat, ch: nat, left: nat, top: nat, texels: seq<seq<uint8>>, x: nat, y: nat)
    requires |texels| == 16 && x < 4 && y < 4
    requires Written(s, w, ch, left, top, texels, 4 * y + x)
    requires var i := BlockPos(w, ch, left, top, x, y, 0);
             i + ch <= |s| == |s'| && s'[i..i + ch] == texels[4 * y + x] &&
             forall j :: 0 <= j < |s| && !(i <= j < i + ch) ==> s'[j] == s[j]
    ensures Written(s', w, ch, left, top, texels, 4 * y + x + 1)
  {
    var i := BlockPos(w, ch, left, top, x, y, 0);
    forall x': nat, y': nat, c: nat | x' < 4 && y' < 4 && x' < w && c < ch && 4 * y' + x' < 4 * y + x + 1
      ensures BlockPos(w, ch, left, top, x', y', c) < |s'| && c < |texels[4 * y' + x']|
      ensures s'[BlockPos(w, ch, left, top, x', y', c)] == texels[4 * y' + x'][c]
    {
      var p := BlockPos(w, ch, left, top, x', y', c);
      if 4 * y' + x' == 4 * y + x {
        assert x' == x && y' == y;
        assert p == i + c;
        assert s'[i..i + ch][c] == texels[4 * y + x][c];
      } else {
        assert p < |s| && s[p] == texels[4 * y' + x'][c];
        EarlierTexelBelow(w, ch, left, top, x', y', x, y);
        assert p == BlockPos(w, ch, left, top, x', y', 0) + c;
        assert s'[p] == s[p];
      }
    }
  }

  /** Pixels outside the block are not among the bytes of texel (x, y). */
  lemma KeptStep(s0: seq<uint8>, s: seq<uint8>, s': seq<uint8>, w: nat, ch: nat, left: nat, top: nat, x: nat, y: nat)
    requires x < 4 && y < 4 && left + 4 <= w
    requires KeptOutside(s, s0, w, ch, left, top)
    requires var i := BlockPos(w, ch, left, top, x, y, 0);
             i + ch <= |s| == |s'| && forall j :: 0 <= j < |s| && !(i <= j < i + ch) ==> s'[j] == s[j]
    ensures KeptOutside(s', s0, w, ch, left, top)
  {
    var i := BlockPos(w, ch, left, top, x, y, 0);
    forall px: nat, py: nat, c: nat | px < w && c < ch && !(left <= px < left + 4 && top <= py < top + 4) && PixelPos(w, ch, px, py, c) < |s'|
      ensures s'[PixelPos(w, ch, px, py, c)] == s0[PixelPos(w, ch, px, py, c)]
    {
      var p := PixelPos(w, ch, px, py, c);
      if i <= p < i + ch {
        SamePixel(w, ch, left + x, top + y, px, py, c);
      }
    }
  }

  // ---------------------------------------------------------------------
  // What the shifting registers select
  // ---------------------------------------------------------------------

  /** How many of the first k texels take their ramp index from the first 24-bit register (rows 0 and 1). */
  function FirstRows(k: nat): nat
  {
    if k < 8 then k else 8
  }

  /** After k texels the two 24-bit index registers have been shifted past the fields of the texels already decoded in their half. */
  ghost predicate RampRegisters(block: seq<uint8>, k: nat, bits1: nat, bits2: nat)
    requires |block| >= 8
  {
    bits1 == Shr(Word24(block, 2), 3 * FirstRows(k)) && bits2 == Shr(Word24(block, 5), 3 * (k - FirstRows(k)))
  }

  /** What the BC1 decoder stores for texel k, from its colour register, is texel k. */
  lemma Bc1Register(block: seq<uint8>, texels: seq<seq<uint8>>, k: nat, colorBits: nat)
    requires |block| == 8 && k < 16 && TexelsOf(BC1, block, texels)
    requires colorBits == Shr(Word32(block, 4), 2 * k)
    ensures Bc1Select(Endpoint(block, 0), Endpoint(block, 2), Color565(block, 0) > Color565(block, 2), colorBits % 4) == texels[k]
  {
    assert texels[k] == Texel(BC1, block, k);
  }

  /** What the BC2 decoder stores for texel k, from its colour register and the alpha nibble it has read, is texel k. */
  lemma Bc2Register(block: seq<uint8>, texels: seq<seq<uint8>>, k: nat, colorBits: nat, alpha: uint8)
    requires |block| == 16 && k < 16 && TexelsOf(BC2, block, texels)
    requires colorBits == Shr(Word32(block, 12), 2 * k) && alpha == Bc2Alpha(block, k)
    ensures Bytes(ColorSelect(Endpoint(block, 8), Endpoint(block, 10), colorBits % 4)) + [alpha] == texels[k]
  {
    assert texels[k] == Texel(BC2, block, k);
  }

  /** Texel 4y+x of a row-major 4x4 block takes nibble x % 2 of alpha byte 2y + x/2. */
  lemma AlphaByteOf(x: nat, y: nat)
    requires x < 4
    ensures (4 * y + x) / 2 == 2 * y + x / 2 && (4 * y + x) % 2 == x % 2
  {
    DivModUnique(4 * y + x, 2, 2 * y + x / 2, x % 2);
  }

  /** What the BC3 decoder stores for texel k, from its colour register and its ramp lookup, is texel k. */
  lemma Bc3Register(block: seq<uint8>, texels: seq<seq<uint8>>, k: nat, colorBits: nat, alpha: uint8)
    requires |block| == 16 && k < 16 && TexelsOf(BC3, block, texels)
    requires colorBits == Shr(Word32(block, 12), 2 * k) && alpha == Ramp(block[0], block[1])[RampIndex(block, k)]
    ensures Bytes(ColorSelect(Endpoint(block, 8), Endpoint(block, 10), colorBits % 4)) + [alpha] == texels[k]
  {
    assert texels[k] == Texel(BC3, block, k);
  }

  /** What the BC4 decoder stores for texel k, from its ramp lookup, is texel k. */
  lemma Bc4Register(block: seq<uint8>, texels: seq<seq<uint8>>, k: nat, red: uint8)
    requires |block| == 8 && k < 16 && TexelsOf(BC4, block, texels)
    requires red == Ramp(block[0], block[1])[RampIndex(block, k)]
    ensures [red] == texels[k]
  {
    assert texels[k] == Texel(BC4, block, k);
  }

  /** What the BC5 decoder stores for texel k, from its red lookup and its green lookup (both in bytes 0..7, as written), is texel k. */
  lemma Bc5Register(block: seq<uint8>, texels: seq<seq<uint8>>, k: nat, red: uint8, green: uint8)
    requires |block| == 16 && k < 16 && TexelsOf(BC5, block, texels)
    requires red == Ramp(block[..8][0], block[..8][1])[RampIndex(block[..8], k)]
    requires green == Ramp(block[..8][0], block[..8][1])[RampIndex(block[..8], k)]
    ensures [red, green] == texels[k]
  {
    assert texels[k] == Texel(BC5, block, k);
    Bc5Channels(block, k);
  }

  // ---------------------------------------------------------------------
  // Block decoders
  // ---------------------------------------------------------------------

  /** The `out[idx++]` run that stores one texel: `texel` lands at `out[idx..]`, every other byte is kept. */
  method PutTexel(out: array<uint8>, idx: nat, texel: seq<uint8>)
    requires idx + |texel| <= out.Length
    modifies out
    ensures out[..] == Paint(old(out[..]), idx, texel)
  {
    var j := 0;
    while j < |texel|
      invariant 0 <= j <= |texel|
      invariant forall i :: 0 <= i < out.Length && !(idx <= i < idx + j) ==> out[i] == old(out[i])
      invariant forall i :: 0 <= i < j ==> out[idx + i] == texel[i]
    {
      out[idx + j] := texel[j];
      j := j + 1;
    }
    assert out[..] == old(out[..])[..idx] + texel + old(out[..])[idx + |texel|..];
  }

  /** The stores of texel (x, y) inside a block decoder: they advance the block by one texel. */
  method StoreTexel(out: array<uint8>, idx: nat, texel: seq<uint8>, w: nat, ch: nat, left: nat, top: nat, x: nat, y: nat,
                    ghost pos: seq<nat>, ghost before: seq<uint8>, ghost texels: seq<seq<uint8>>)
    requires |texels| == 16 && x < 4 && y < 4 && |texel| == ch && BlockLimit(w, ch, left, top) <= out.Length
    requires PositionsOf(w, ch, left, top, pos) && idx == BlockPos(w, ch, left, top, x, y, 0) && texel == texels[4 * y + x]
    requires out[..] == Painted(before, pos, texels, 4 * y + x)
    modifies out
    ensures out[..] == Painted(before, pos, texels, 4 * y + x + 1)
  {
    BlockPosBelowLimit(w, ch, left, top, x, y);
    PutTexel(out, idx, texel);
  }

  /** The eight-entry lookup table of BC3 alpha and BC4/BC5 channels, filled entry by entry. */
  method FillRamp(a0: uint8, a1: uint8) returns (ramp: array<uint8>)
    ensures fresh(ramp)
    ensures ramp[..] == Ramp(a0, a1)
  {
    var v0, v1 := a0 as int, a1 as int;
    ramp := new uint8[8];
    ramp[0] := a0;
    ramp[1] := a1;
    if a0 > a1 {
      ramp[2] := (6 * v0 + 1 * v1) / 7;
      ramp[3] := (5 * v0 + 2 * v1) / 7;
      ramp[4] := (4 * v0 + 3 * v1) / 7;
      ramp[5] := (3 * v0 + 4 * v1) / 7;
      ramp[6] := (2 * v0 + 5 * v1) / 7;
      ramp[7] := (1 * v0 + 6 * v1) / 7;
    } else {
      ramp[2] := (4 * v0 + 1 * v1) / 5;
      ramp[3] := (3 * v0 + 2 * v1) / 5;
      ramp[4] := (2 * v0 + 3 * v1) / 5;
      ramp[5] := (1 * v0 + 4 * v1) / 5;
      ramp[6] := 0;
      ramp[7] := 255;
    }
  }

  /** The ramp lookup of texel k (`alphas[alpha_bits1 & 7]` in rows 0-1, `alphas[alpha_bits2 & 7]` in rows 2-3) and the shift of the register it used. */
  method RampLookup(ramp: array<uint8>, block: seq<uint8>, k: nat, bits1: nat, bits2: nat) returns (v: uint8, bits1': nat, bits2': nat)
    requires |block| >= 8 && k < 16 && ramp[..] == Ramp(block[0], block[1]) && RampRegisters(block, k, bits1, bits2)
    ensures v == Ramp(block[0], block[1])[RampIndex(block, k)]
    ensures RampRegisters(block, k + 1, bits1', bits2')
  {
    if k < 8 {
      v := ramp[bits1 % 8];
      ShrBy3(Word24(block, 2), 3 * k);
      bits1', bits2' := bits1 / 8, bits2;
    } else {
      v := ramp[bits2 % 8];
      ShrBy3(Word24(block, 5), 3 * (k - 8));
      bits1', bits2' := bits1, bits2 / 8;
    }
  }

  /** The body of the BC1 texel loop: select texel (x, y) by the low two bits of the colour register, store it and shift the register. */
  method Bc1Step(out: array<uint8>, idx: nat, width: nat, left: nat, top: nat, x: nat, y: nat, block: seq<uint8>,
                 e1: Rgb, e2: Rgb, fourColour: bool, colorBits: nat,
                 ghost pos: seq<nat>, ghost before: seq<uint8>, ghost texels: seq<seq<uint8>>) returns (colorBits': nat)
    requires |block| == 8 && x < 4 && y < 4 && BlockLimit(width, 4, left, top) <= out.Length
    requires TexelsOf(BC1, block, texels) && PositionsOf(width, 4, left, top, pos)
    requires e1 == Endpoint(block, 0) && e2 == Endpoint(block, 2) && fourColour == (Color565(block, 0) > Color565(block, 2))
    requires idx == BlockPos(width, 4, left, top, x, y, 0) && colorBits == Shr(Word32(block, 4), 2 * (4 * y + x))
    requires out[..] == Painted(before, pos, texels, 4 * y + x)
    modifies out
    ensures colorBits' == Shr(Word32(block, 4), 2 * (4 * y + x + 1))
    ensures out[..] == Painted(before, pos, texels, 4 * y + x + 1)
  {
    var texel := Bc1Select(e1, e2, fourColour, colorBits % 4);
    Bc1Register(block, texels, 4 * y + x, colorBits);
    StoreTexel(out, idx, texel, width, 4, left, top, x, y, pos, before, texels);
    ShrPairs(Word32(block, 4), 4 * y + x);
    colorBits' := colorBits / 4;
  }

  /** `unpack_bc1_block`: decodes the 8-byte block into the 4x4 RGBA pixels whose top-left is (left, top). */
  method UnpackBc1Block(left: nat, top: nat, width: nat, block: seq<uint8>, out: array<uint8>, ghost texels: seq<seq<uint8>>, ghost pos: seq<nat>)
    requires width > 0 && |block| == 8 && BlockLimit(width, 4, left, top) <= out.Length
    requires TexelsOf(BC1, block, texels) && PositionsOf(width, 4, left, top, pos)
    modifies out
    ensures out[..] == Painted(old(out[..]), pos, texels, 16)
  {
    ghost var before := out[..];
    PixelPosIs(width, 4, left, top, 0);
    var idx: int := (top * width + left) * 4;
    var idxInc: int := width * 4 - 16;
    var colorBits := Word32(block, 4);
    var color1, color2 := Color565(block, 0), Color565(block, 2);
    var e1, e2 := Endpoint(block, 0), Endpoint(block, 2);
    var y := 0;
    while y < 4
      invariant 0 <= y <= 4 && out.Length == |before|
      invariant idx == PixelPos(width, 4, left, top + y, 0)
      invariant colorBits == Shr(Word32(block, 4), 2 * (4 * y))
      invariant out[..] == Painted(before, pos, texels, 4 * y)
    {
      var x := 0;
      while x < 4
        invariant 0 <= x <= 4 && out.Length == |before|
        invariant idx == PixelPos(width, 4, left + x, top + y, 0)
        invariant colorBits == Shr(Word32(block, 4), 2 * (4 * y + x))
        invariant out[..] == Painted(before, pos, texels, 4 * y + x)
      {
        colorBits := Bc1Step(out, idx, width, left, top, x, y, block, e1, e2, color1 > color2, colorBits, pos, before, texels);
        PixelPosSteps(width, 4, left + x, top + y);
        idx := idx + 4;
        x := x + 1;
      }
      NextTexelRow(width, 4, left, top + y);
      idx := idx + idxInc;
      y := y + 1;
    }
  }

  /** One BC2 alpha read: the low nibble of the current alpha byte for even texels, the high nibble for odd ones, each replicated as `v | v << 4`. */
  method AlphaLookup(block: seq<uint8>, k: nat, alphaIdx: nat, odd: bool) returns (alpha: uint8)
    requires |block| == 16 && k < 16 && alphaIdx == k / 2 && odd == (k % 2 == 1)
    ensures alpha == Bc2Alpha(block, k)
  {
    if odd {
      var high := block[alphaIdx] / 16 * 16;
      alpha := high + high / 16;
    } else {
      var low := block[alphaIdx] % 16;
      alpha := low + low * 16;
    }
  }

  /** The body of the BC2 texel loop: colour from the colour register, alpha from the current nibble; the alpha byte advances after odd columns. */
  method Bc2Step(out: array<uint8>, idx: nat, width: nat, left: nat, top: nat, x: nat, y: nat, block: seq<uint8>,
                 e1: Rgb, e2: Rgb, colorBits: nat, alphaIdx: nat,
                 ghost pos: seq<nat>, ghost before: seq<uint8>, ghost texels: seq<seq<uint8>>) returns (colorBits': nat, alphaIdx': nat)
    requires |block| == 16 && x < 4 && y < 4 && BlockLimit(width, 4, left, top) <= out.Length
    requires TexelsOf(BC2, block, texels) && PositionsOf(width, 4, left, top, pos)
    requires e1 == Endpoint(block, 8) && e2 == Endpoint(block, 10)
    requires idx == BlockPos(width, 4, left, top, x, y, 0) && colorBits == Shr(Word32(block, 12), 2 * (4 * y + x))
    requires alphaIdx == 2 * y + x / 2
    requires out[..] == Painted(before, pos, texels, 4 * y + x)
    modifies out
    ensures colorBits' == Shr(Word32(block, 12), 2 * (4 * y + x + 1)) && alphaIdx' == 2 * y + (x + 1) / 2
    ensures out[..] == Painted(before, pos, texels, 4 * y + x + 1)
  {
    var color := ColorSelect(e1, e2, colorBits % 4);
    AlphaByteOf(x, y);
    var alpha := AlphaLookup(block, 4 * y + x, alphaIdx, x % 2 == 1);
    Bc2Register(block, texels, 4 * y + x, colorBits, alpha);
    alphaIdx' := if x % 2 == 1 then alphaIdx + 1 else alphaIdx;
    StoreTexel(out, idx, Bytes(color) + [alpha], width, 4, left, top, x, y, pos, before, texels);
    ShrPairs(Word32(block, 12), 4 * y + x);
    colorBits' := colorBits / 4;
  }

  /** `unpack_bc2_block`: colour from bytes 8..15, explicit 4-bit alpha from bytes 0..7, one byte per two texels. */
  method UnpackBc2Block(left: nat, top: nat, width: nat, block: seq<uint8>, out: array<uint8>, ghost texels: seq<seq<uint8>>, ghost pos: seq<nat>)
    requires width > 0 && |block| == 16 && BlockLimit(width, 4, left, top) <= out.Length
    requires TexelsOf(BC2, block, texels) && PositionsOf(width, 4, left, top, pos)
    modifies out
    ensures out[..] == Painted(old(out[..]), pos, texels, 16)
  {
    ghost var before := out[..];
    PixelPosIs(width, 4, left, top, 0);
    var idx: int := (top * width + left) * 4;
    var idxInc: int := width * 4 - 16;
    var colorBits := Word32(block, 12);
    var e1, e2 := Endpoint(block, 8), Endpoint(block, 10);
    var alphaIdx := 0;
    var y := 0;
    while y < 4
      invariant 0 <= y <= 4 && out.Length == |before|
      invariant idx == PixelPos(width, 4, left, top + y, 0)
      invariant colorBits == Shr(Word32(block, 12), 2 * (4 * y))
      invariant alphaIdx == 2 * y
      invariant out[..] == Painted(before, pos, texels, 4 * y)
    {
      var x := 0;
      while x < 4
        invariant 0 <= x <= 4 && out.Length == |before|
        invariant idx == PixelPos(width, 4, left + x, top + y, 0)
        invariant colorBits == Shr(Word32(block, 12), 2 * (4 * y + x))
        invariant alphaIdx == 2 * y + x / 2
        invariant out[..] == Painted(before, pos, texels, 4 * y + x)
      {
        colorBits, alphaIdx := Bc2Step(out, idx, width, left, top, x, y, block, e1, e2, colorBits, alphaIdx, pos, before, texels);
        PixelPosSteps(width, 4, left + x, top + y);
        idx := idx + 4;
        x := x + 1;
      }
      NextTexelRow(width, 4, left, top + y);
      idx := idx + idxInc;
      y := y + 1;
    }
  }

  /** The body of the BC3 texel loop: colour from the colour register, alpha from the ramp through the current 3-bit index. */
  method Bc3Step(out: array<uint8>, idx: nat, width: nat, left: nat, top: nat, x: nat, y: nat, block: seq<uint8>,
                 e1: Rgb, e2: Rgb, colorBits: nat, alphas: array<uint8>, alphaBits1: nat, alphaBits2: nat,
                 ghost pos: seq<nat>, ghost before: seq<uint8>, ghost texels: seq<seq<uint8>>)
    returns (colorBits': nat, alphaBits1': nat, alphaBits2': nat)
    requires |block| == 16 && x < 4 && y < 4 && BlockLimit(width, 4, left, top) <= out.Length && alphas != out
    requires TexelsOf(BC3, block, texels) && PositionsOf(width, 4, left, top, pos)
    requires e1 == Endpoint(block, 8) && e2 == Endpoint(block, 10) && alphas[..] == Ramp(block[0], block[1])
    requires idx == BlockPos(width, 4, left, top, x, y, 0) && colorBits == Shr(Word32(block, 12), 2 * (4 * y + x))
    requires RampRegisters(block, 4 * y + x, alphaBits1, alphaBits2)
    requires out[..] == Painted(before, pos, texels, 4 * y + x)
    modifies out
    ensures colorBits' == Shr(Word32(block, 12), 2 * (4 * y + x + 1)) && RampRegisters(block, 4 * y + x + 1, alphaBits1', alphaBits2')
    ensures out[..] == Painted(before, pos, texels, 4 * y + x + 1)
  {
    var color := ColorSelect(e1, e2, colorBits % 4);
    var alpha;
    alpha, alphaBits1', alphaBits2' := RampLookup(alphas, block, 4 * y + x, alphaBits1, alphaBits2);
    Bc3Register(block, texels, 4 * y + x, colorBits, alpha);
    StoreTexel(out, idx, Bytes(color) + [alpha], width, 4, left, top, x, y, pos, before, texels);
    ShrPairs(Word32(block, 12), 4 * y + x);
    colorBits' := colorBits / 4;
  }

  /** `unpack_bc3_block`: colour from bytes 8..15, alpha through the ramp of bytes 0..1 indexed by the 3-bit fields of bytes 2..7. */
  method UnpackBc3Block(left: nat, top: nat, width: nat, block: seq<uint8>, out: array<uint8>, ghost texels: seq<seq<uint8>>, ghost pos: seq<nat>)
    requires width > 0 && |block| == 16 && BlockLimit(width, 4, left, top) <= out.Length
    requires TexelsOf(BC3, block, texels) && PositionsOf(width, 4, left, top, pos)
    modifies out
    ensures out[..] == Painted(old(out[..]), pos, texels, 16)
  {
    ghost var before := out[..];
    PixelPosIs(width, 4, left, top, 0);
    var idx: int := (top * width + left) * 4;
    var idxInc: int := width * 4 - 16;
    var colorBits := Word32(block, 12);
    var e1, e2 := Endpoint(block, 8), Endpoint(block, 10);
    var alphaBits1 := Word24(block, 2);
    var alphaBits2 := Word24(block, 5);
    var alphas := FillRamp(block[0], block[1]);
    var y := 0;
    while y < 4
      invariant 0 <= y <= 4 && out.Length == |before|
      invariant alphas[..] == Ramp(block[0], block[1])
      invariant idx == PixelPos(width, 4, left, top + y, 0)
      invariant colorBits == Shr(Word32(block, 12), 2 * (4 * y))
      invariant RampRegisters(block, 4 * y, alphaBits1, alphaBits2)
      invariant out[..] == Painted(before, pos, texels, 4 * y)
    {
      var x := 0;
      while x < 4
        invariant 0 <= x <= 4 && out.Length == |before|
        invariant alphas[..] == Ramp(block[0], block[1])
        invariant idx == PixelPos(width, 4, left + x, top + y, 0)
        invariant colorBits == Shr(Word32(block, 12), 2 * (4 * y + x))
        invariant RampRegisters(block, 4 * y + x, alphaBits1, alphaBits2)
        invariant out[..] == Painted(before, pos, texels, 4 * y + x)
      {
        colorBits, alphaBits1, alphaBits2 := Bc3Step(out, idx, width, left, top, x, y, block, e1, e2, colorBits, alphas, alphaBits1, alphaBits2, pos, before, texels);
        PixelPosSteps(width, 4, left + x, top + y);
        idx := idx + 4;
        x := x + 1;
      }
      NextTexelRow(width, 4, left, top + y);
      idx := idx + idxInc;
      y := y + 1;
    }
  }

  /** The body of the BC4 texel loop: the ramp entry selected by the current 3-bit index. */
  method Bc4Step(out: array<uint8>, idx: nat, width: nat, left: nat, top: nat, x: nat, y: nat, block: seq<uint8>,
                 reds: array<uint8>, redBits1: nat, redBits2: nat,
                 ghost pos: seq<nat>, ghost before: seq<uint8>, ghost texels: seq<seq<uint8>>)
    returns (redBits1': nat, redBits2': nat)
    requires |block| == 8 && x < 4 && y < 4 && BlockLimit(width, 1, left, top) <= out.Length && reds != out
    requires TexelsOf(BC4, block, texels) && PositionsOf(width, 1, left, top, pos)
    requires reds[..] == Ramp(block[0], block[1])
    requires idx == BlockPos(width, 1, left, top, x, y, 0) && RampRegisters(block, 4 * y + x, redBits1, redBits2)
    requires out[..] == Painted(before, pos, texels, 4 * y + x)
    modifies out
    ensures RampRegisters(block, 4 * y + x + 1, redBits1', redBits2')
    ensures out[..] == Painted(before, pos, texels, 4 * y + x + 1)
  {
    var red;
    red, redBits1', redBits2' := RampLookup(reds, block, 4 * y + x, redBits1, redBits2);
    Bc4Register(block, texels, 4 * y + x, red);
    StoreTexel(out, idx, [red], width, 1, left, top, x, y, pos, before, texels);
  }

  /** `unpack_bc4_block`: one channel through the ramp of bytes 0..1 indexed by the 3-bit fields of bytes 2..7. */
  method UnpackBc4Block(left: nat, top: nat, width: nat, block: seq<uint8>, out: array<uint8>, ghost texels: seq<seq<uint8>>, ghost pos: seq<nat>)
    requires width > 0 && |block| == 8 && BlockLimit(width, 1, left, top) <= out.Length
    requires TexelsOf(BC4, block, texels) && PositionsOf(width, 1, left, top, pos)
    modifies out
    ensures out[..] == Painted(old(out[..]), pos, texels, 16)
  {
    ghost var before := out[..];
    PixelPosIs(width, 1, left, top, 0);
    var idx: int := top * width + left;
    var idxInc: int := width - 4;
    var redBits1 := Word24(block, 2);
    var redBits2 := Word24(block, 5);
    var reds := FillRamp(block[0], block[1]);
    var y := 0;
    while y < 4
      invariant 0 <= y <= 4 && out.Length == |before|
      invariant reds[..] == Ramp(block[0], block[1])
      invariant idx == PixelPos(width, 1, left, top + y, 0)
      invariant RampRegisters(block, 4 * y, redBits1, redBits2)
      invariant out[..] == Painted(before, pos, texels, 4 * y)
    {
      var x := 0;
      while x < 4
        invariant 0 <= x <= 4 && out.Length == |before|
        invariant reds[..] == Ramp(block[0], block[1])
        invariant idx == PixelPos(width, 1, left + x, top + y, 0)
        invariant RampRegisters(block, 4 * y + x, redBits1, redBits2)
        invariant out[..] == Painted(before, pos, texels, 4 * y + x)
      {
        redBits1, redBits2 := Bc4Step(out, idx, width, left, top, x, y, block, reds, redBits1, redBits2, pos, before, texels);
        PixelPosSteps(width, 1, left + x, top + y);
        idx := idx + 1;
        x := x + 1;
      }
      NextTexelRow(width, 1, left, top + y);
      idx := idx + idxInc;
      y := y + 1;
    }
  }

  /** The body of the BC5 texel loop: one lookup in each of the two ramps, each through its own pair of index registers (both built from bytes 0..7). */
  method Bc5Step(out: array<uint8>, idx: nat, width: nat, left: nat, top: nat, x: nat, y: nat, block: seq<uint8>, lo: seq<uint8>,
                 reds: array<uint8>, redBits1: nat, redBits2: nat, greens: array<uint8>, greenBits1: nat, greenBits2: nat,
                 ghost pos: seq<nat>, ghost before: seq<uint8>, ghost texels: seq<seq<uint8>>)
    returns (redBits1': nat, redBits2': nat, greenBits1': nat, greenBits2': nat)
    requires |block| == 16 && lo == block[..8]
    requires x < 4 && y < 4 && BlockLimit(width, 2, left, top) <= out.Length && reds != out && greens != out
    requires TexelsOf(BC5, block, texels) && PositionsOf(width, 2, left, top, pos)
    requires reds[..] == Ramp(lo[0], lo[1]) && greens[..] == Ramp(lo[0], lo[1])
    requires idx == BlockPos(width, 2, left, top, x, y, 0)
    requires RampRegisters(lo, 4 * y + x, redBits1, redBits2) && RampRegisters(lo, 4 * y + x, greenBits1, greenBits2)
    requires out[..] == Painted(before, pos, texels, 4 * y + x)
    modifies out
    ensures RampRegisters(lo, 4 * y + x + 1, redBits1', redBits2') && RampRegisters(lo, 4 * y + x + 1, greenBits1', greenBits2')
    ensures out[..] == Painted(before, pos, texels, 4 * y + x + 1)
  {
    var red, green;
    red, redBits1', redBits2' := RampLookup(reds, lo, 4 * y + x, redBits1, redBits2);
    green, greenBits1', greenBits2' := RampLookup(greens, lo, 4 * y + x, greenBits1, greenBits2);
    Bc5Register(block, texels, 4 * y + x, red, green);
    StoreTexel(out, idx, [red, green], width, 2, left, top, x, y, pos, before, texels);
  }

  /**
   * `unpack_bc5_block`: two channels, each through its own eight-entry ramp
   * and its own two 24-bit index registers. As written, both the red and the
   * green ramp and registers are built from bytes 0..7, so the green byte of
   * every texel repeats the red one (`Bc5TexelAsWritten`, `Bc5DecodedGreen`).
   */
  method UnpackBc5Block(left: nat, top: nat, width: nat, block: seq<uint8>, out: array<uint8>, ghost texels: seq<seq<uint8>>, ghost pos: seq<nat>)
    requires width > 0 && |block| == 16 && BlockLimit(width, 2, left, top) <= out.Length
    requires TexelsOf(BC5, block, texels) && PositionsOf(width, 2, left, top, pos)
    modifies out
    ensures out[..] == Painted(old(out[..]), pos, texels, 16)
  {
    ghost var before := out[..];
    PixelPosIs(width, 2, left, top, 0);
    var idx: int := (top * width + left) * 2;
    var idxInc: int := width * 2 - 8;
    var lo := block[..8];
    var redBits1 := Word24(lo, 2);
    var redBits2 := Word24(lo, 5);
    var reds := FillRamp(lo[0], lo[1]);
    var greenBits1 := Word24(lo, 2);
    var greenBits2 := Word24(lo, 5);
    var greens := FillRamp(lo[0], lo[1]);
    var y := 0;
    while y < 4
      invariant 0 <= y <= 4 && out.Length == |before|
      invariant reds[..] == Ramp(lo[0], lo[1]) && greens[..] == Ramp(lo[0], lo[1])
      invariant idx == PixelPos(width, 2, left, top + y, 0)
      invariant RampRegisters(lo, 4 * y, redBits1, redBits2) && RampRegisters(lo, 4 * y, greenBits1, greenBits2)
      invariant out[..] == Painted(before, pos, texels, 4 * y)
    {
      var x := 0;
      while x < 4
        invariant 0 <= x <= 4 && out.Length == |before|
        invariant reds[..] == Ramp(lo[0], lo[1]) && greens[..] == Ramp(lo[0], lo[1])
        invariant idx == PixelPos(width, 2, left + x, top + y, 0)
        invariant RampRegisters(lo, 4 * y + x, redBits1, redBits2) && RampRegisters(lo, 4 * y + x, greenBits1, greenBits2)
        invariant out[..] == Painted(before, pos, texels, 4 * y + x)
      {
        redBits1, redBits2, greenBits1, greenBits2 :=
          Bc5Step(out, idx, width, left, top, x, y, block, lo, reds, redBits1, redBits2, greens, greenBits1, greenBits2, pos, before, texels);
        PixelPosSteps(width, 2, left + x, top + y);
        idx := idx + 2;
        x := x + 1;
      }
      NextTexelRow(width, 2, left, top + y);
      idx := idx + idxInc;
      y := y + 1;
    }
  }

  /** The image decoder of each format dispatches to its block decoder; every block decoder stores the 16 texels of its block as `BlockProgress` describes. */
  method DecodeBlock(f: Format, left: nat, top: nat, width: nat, block: seq<uint8>, out: array<uint8>, ghost texels: seq<seq<uint8>>)
    requires width > 0 && |block| == BlockSize(f) && BlockLimit(width, Channels(f), left, top) <= out.Length
    requires TexelsOf(f, block, texels)
    modifies out
    ensures BlockProgress(out[..], old(out[..]), width, Channels(f), left, top, texels, 16)
  {
    ghost var pos := BlockPositions(width, Channels(f), left, top);
    match f {
      case BC1 => UnpackBc1Block(left, top, width, block, out, texels, pos);
      case BC2 => UnpackBc2Block(left, top, width, block, out, texels, pos);
      case BC3 => UnpackBc3Block(left, top, width, block, out, texels, pos);
      case BC4 => UnpackBc4Block(left, top, width, block, out, texels, pos);
      case BC5 => UnpackBc5Block(left, top, width, block, out, texels, pos);
    }
    forall t | 0 <= t < 16
      ensures |texels[t]| == Channels(f)
    {
      assert texels[t] == Texel(f, block, t);
    }
    PaintedProgress(old(out[..]), width, Channels(f), left, top, pos, texels, 16);
  }

  /** The 16 texels of a block, as `TexelsOf` lists them. */
  lemma BlockTexels(f: Format, block: seq<uint8>) returns (texels: seq<seq<uint8>>)
    requires |block| == BlockSize(f)
    ensures TexelsOf(f, block, texels)
  {
    texels := Texels(f, block);
  }

  // ---------------------------------------------------------------------
  // The image decoders
  // ---------------------------------------------------------------------

  /** Every pixel of the image in the first n blocks (decoding order) holds its decoded value. */
  ghost predicate Decoded(s: seq<uint8>, f: Format, input: seq<uint8>, w: nat, h: nat, n: nat)
    requires |input| >= InputSize(f, w, h)
  {
    forall px: nat, py: nat, c: nat {:trigger PixelPos(w, Channels(f), px, py, c)} ::
      px < w && py < h && c < Channels(f) && BlockIndex(w, px, py) < n ==>
        PixelPos(w, Channels(f), px, py, c) < |s| && s[PixelPos(w, Channels(f), px, py, c)] == Pixel(f, input, w, h, px, py)[c]
  }

  /** Two pixels of an aligned grid are in the same block exactly when their block indices agree. */
  lemma SameBlock(w: nat, px: nat, py: nat, left: nat, top: nat)
    requires px < w && left < w && left % 4 == 0 && top % 4 == 0
    ensures BlockIndex(w, px, py) == BlockIndex(w, left, top) <==> left <= px < left + 4 && top <= py < top + 4
  {
    var b := Blocks(w);
    TimesIs(b, py / 4);
    TimesIs(b, top / 4);
    assert px / 4 < b && left / 4 < b;
    if BlockIndex(w, px, py) == BlockIndex(w, left, top) {
      DivModUnique(BlockIndex(w, px, py), b, py / 4, px / 4);
      DivModUnique(BlockIndex(w, left, top), b, top / 4, left / 4);
    }
  }

  /** In a width that is a multiple of 4, decoding block n, the one at (left, top), extends the decoded pixels by that block. */
  lemma DecodedStep(s: seq<uint8>, s': seq<uint8>, f: Format, input: seq<uint8>, w: nat, h: nat, left: nat, top: nat, n: nat,
                    texels: seq<seq<uint8>>)
    requires left % 4 == 0 && top % 4 == 0 && left + 4 <= w && top < h && |input| >= InputSize(f, w, h)
    requires n == BlockIndex(w, left, top) && Times(BlockSize(f), n) + BlockSize(f) <= |input|
    requires TexelsOf(f, input[Times(BlockSize(f), n)..Times(BlockSize(f), n) + BlockSize(f)], texels)
    requires Decoded(s, f, input, w, h, n)
    requires BlockProgress(s', s, w, Channels(f), left, top, texels, 16)
    ensures Decoded(s', f, input, w, h, n + 1)
  {
    var ch := Channels(f);
    forall px: nat, py: nat, c: nat | px < w && py < h && c < ch && BlockIndex(w, px, py) < n + 1
      ensures PixelPos(w, ch, px, py, c) < |s'| && s'[PixelPos(w, ch, px, py, c)] == Pixel(f, input, w, h, px, py)[c]
    {
      SameBlock(w, px, py, left, top);
      if left <= px < left + 4 && top <= py < top + 4 {
        DecodedInBlock(s', f, input, w, h, left, top, texels, px, py, px - left, py - top, c);
      } else {
        var p := PixelPos(w, ch, px, py, c);
        assert BlockIndex(w, px, py) < n;
        assert p < |s| && s[p] == Pixel(f, input, w, h, px, py)[c];
        assert s'[p] == s[p];
      }
    }
  }

  /**
   * In a width below 4 there is one block per block row: decoding block n,
   * the one at (0, top), extends the decoded pixels by that block. Its rows
   * run on past the width into the next rows, but each of them is written
   * again by the block's next row, and the last one by the next block.
   */
  lemma NarrowDecodedStep(s: seq<uint8>, s': seq<uint8>, f: Format, input: seq<uint8>, w: nat, h: nat, top: nat, n: nat,
                          texels: seq<seq<uint8>>)
    requires 0 < w < 4 && top % 4 == 0 && top < h && |input| >= InputSize(f, w, h)
    requires n == BlockIndex(w, 0, top) && Times(BlockSize(f), n) + BlockSize(f) <= |input|
    requires TexelsOf(f, input[Times(BlockSize(f), n)..Times(BlockSize(f), n) + BlockSize(f)], texels)
    requires Decoded(s, f, input, w, h, n)
    requires BlockProgress(s', s, w, Channels(f), 0, top, texels, 16)
    ensures Decoded(s', f, input, w, h, n + 1)
  {
    var ch := Channels(f);
    var start := BlockPos(w, ch, 0, top, 0, 0, 0);
    NarrowBlockIndex(w, 0, top);
    forall px: nat, py: nat, c: nat | px < w && py < h && c < ch && BlockIndex(w, px, py) < n + 1
      ensures PixelPos(w, ch, px, py, c) < |s'| && s'[PixelPos(w, ch, px, py, c)] == Pixel(f, input, w, h, px, py)[c]
    {
      NarrowBlockIndex(w, px, py);
      if py < top {
        var p := PixelPos(w, ch, px, py, c);
        RowsAbove(w, ch, px, py, c, top);
        assert s'[..start][p] == s[..start][p];
      } else {
        SameCell(py, top);
        DecodedInBlock(s', f, input, w, h, 0, top, texels, px, py, px, py - top, c);
      }
    }
  }

  /** In a width below 4 the block index of a pixel is its block row. */
  lemma NarrowBlockIndex(w: nat, px: nat, py: nat)
    requires 0 < w < 4 && px < 4
    ensures BlockIndex(w, px, py) == py / 4
  {
    TimesIs(Blocks(w), py / 4);
  }

  /** Every byte of a row above row `top` lies before the row's first byte. */
  lemma RowsAbove(w: nat, ch: nat, px: nat, py: nat, c: nat, top: nat)
    requires px < w && c < ch && py < top
    ensures PixelPos(w, ch, px, py, c) < PixelPos(w, ch, 0, top, 0)
  {
    PixelPosSteps(w, ch, px, py);
    MulMono(py + 1, top, w);
    PixelPosMono(w, ch, px + 1, py, 0, top);
  }

  /** A pixel of the block just decoded, texel (x, y) of it, holds its decoded value. */
  lemma DecodedInBlock(s': seq<uint8>, f: Format, input: seq<uint8>, w: nat, h: nat, left: nat, top: nat, texels: seq<seq<uint8>>,
                       px: nat, py: nat, x: nat, y: nat, c: nat)
    requires left % 4 == 0 && top % 4 == 0 && px < w && |input| >= InputSize(f, w, h)
    requires x < 4 && y < 4 && px == left + x && py == top + y && py < h && c < Channels(f)
    requires BlockOffset(f, w, left, top) + BlockSize(f) <= |input|
    requires TexelsOf(f, input[BlockOffset(f, w, left, top)..BlockOffset(f, w, left, top) + BlockSize(f)], texels)
    requires Written(s', w, Channels(f), left, top, texels, 16)
    ensures var i := PixelPos(w, Channels(f), px, py, c);
            i < |s'| && s'[i] == Pixel(f, input, w, h, px, py)[c]
  {
    var o := BlockOffset(f, w, left, top);
    var t := 4 * y + x;
    PixelInBlock(f, input, w, h, left, top, px, py, x, y);
    assert texels[t] == Texel(f, input[o..o + BlockSize(f)], t);
    WrittenAt(s', w, Channels(f), left, top, texels, px, py, x, y, c);
  }

  /** What `Written` says about one byte of one texel, pixel (px, py) of the image. */
  lemma WrittenAt(s: seq<uint8>, w: nat, ch: nat, left: nat, top: nat, texels: seq<seq<uint8>>, px: nat, py: nat, x: nat, y: nat, c: nat)
    requires |texels| == 16 && Written(s, w, ch, left, top, texels, 16) && x < 4 && y < 4 && c < ch
    requires px == left + x && py == top + y && x < w
    ensures var i := PixelPos(w, ch, px, py, c);
            i < |s| && c < |texels[4 * y + x]| && s[i] == texels[4 * y + x][c]
  {
    assert BlockPos(w, ch, left, top, x, y, c) == PixelPos(w, ch, px, py, c);
  }

  /** The decoded value of pixel (px, py) = (left + x, top + y) is texel (x, y) of the block at (left, top). */
  lemma PixelInBlock(f: Format, input: seq<uint8>, w: nat, h: nat, left: nat, top: nat, px: nat, py: nat, x: nat, y: nat)
    requires left % 4 == 0 && top % 4 == 0 && x < 4 && y < 4 && px == left + x && py == top + y && px < w && py < h
    requires |input| >= InputSize(f, w, h) && BlockOffset(f, w, left, top) + BlockSize(f) <= |input|
    ensures var o := BlockOffset(f, w, left, top);
            Pixel(f, input, w, h, px, py) == Texel(f, input[o..o + BlockSize(f)], 4 * y + x)
  {
    PixelAt(f, input, w, h, px, py);
    CellOf(w, left, top, px, py, x, y);
  }

  /** The block holding a pixel lies inside the input, and the pixel is texel (px % 4, py % 4) of it. */
  lemma PixelAt(f: Format, input: seq<uint8>, w: nat, h: nat, px: nat, py: nat)
    requires px < w && py < h && |input| >= InputSize(f, w, h)
    ensures var o := BlockOffset(f, w, px, py);
            o + BlockSize(f) <= |input| && Pixel(f, input, w, h, px, py) == Texel(f, input[o..o + BlockSize(f)], 4 * (py % 4) + px % 4)
  {
    BlockOffsetInside(f, w, h, px, py);
  }

  /** Pixel (px, py) = (left + x, top + y) lies in the block at (left, top), at texel index 4y + x. */
  lemma CellOf(w: nat, left: nat, top: nat, px: nat, py: nat, x: nat, y: nat)
    requires left % 4 == 0 && top % 4 == 0 && x < 4 && y < 4 && px == left + x && py == top + y
    ensures BlockIndex(w, px, py) == BlockIndex(w, left, top)
    ensures 4 * (py % 4) + px % 4 == 4 * y + x
  {
    SameCell(px, left);
    SameCell(py, top);
  }

  /** A coordinate within 4 of an aligned one has that one's quotient by 4, and the distance as remainder. */
  lemma SameCell(p: nat, start: nat)
    requires start % 4 == 0 && start <= p < start + 4
    ensures p / 4 == start / 4 && p % 4 == p - start
  {
    DivModUnique(p, 4, start / 4, p - start);
  }

  /** Every pixel of the image lies in one of its blocks. */
  lemma BlockIndexBelow(w: nat, h: nat, px: nat, py: nat)
    requires px < w && py < h
    ensures BlockIndex(w, px, py) < BlockCount(w, h)
  {
    assert px / 4 < Blocks(w) && py / 4 < Blocks(h);
    TimesMono(Blocks(w), py / 4 + 1, Blocks(h));
  }

  /** Once every block is decoded, every pixel holds its decoded value. */
  lemma DecodedImage(s: seq<uint8>, f: Format, input: seq<uint8>, w: nat, h: nat)
    requires |input| >= InputSize(f, w, h) && Decoded(s, f, input, w, h, BlockCount(w, h))
    ensures forall px: nat, py: nat, c: nat :: px < w && py < h && c < Channels(f) ==>
              PixelPos(w, Channels(f), px, py, c) < |s| && s[PixelPos(w, Channels(f), px, py, c)] == Pixel(f, input, w, h, px, py)[c]
  {
    forall px: nat, py: nat, c: nat | px < w && py < h && c < Channels(f)
      ensures PixelPos(w, Channels(f), px, py, c) < |s| && s[PixelPos(w, Channels(f), px, py, c)] == Pixel(f, input, w, h, px, py)[c]
    {
      BlockIndexBelow(w, h, px, py);
    }
  }

  /** A decoded BC5 image, as the code decodes it, holds the same byte in both channels of every pixel. */
  lemma Bc5DecodedGreen(s: seq<uint8>, input: seq<uint8>, w: nat, h: nat)
    requires |input| >= InputSize(BC5, w, h) && Decoded(s, BC5, input, w, h, BlockCount(w, h))
    ensures forall px: nat, py: nat :: px < w && py < h ==>
              PixelPos(w, 2, px, py, 1) == PixelPos(w, 2, px, py, 0) + 1 < |s| &&
              s[PixelPos(w, 2, px, py, 0)] == s[PixelPos(w, 2, px, py, 1)]
  {
    DecodedImage(s, BC5, input, w, h);
    assert Channels(BC5) == 2;
    forall px: nat, py: nat | px < w && py < h
      ensures PixelPos(w, 2, px, py, 1) == PixelPos(w, 2, px, py, 0) + 1 < |s|
      ensures s[PixelPos(w, 2, px, py, 0)] == s[PixelPos(w, 2, px, py, 1)]
    {
      assert s[PixelPos(w, 2, px, py, 0)] == Pixel(BC5, input, w, h, px, py)[0];
      assert s[PixelPos(w, 2, px, py, 1)] == Pixel(BC5, input, w, h, px, py)[1];
      PixelAt(BC5, input, w, h, px, py);
      var o := BlockOffset(BC5, w, px, py);
      var block := input[o..o + 16];
      Bc5GreenCopiesRed(block, block, 4 * (py % 4) + px % 4);
    }
  }

  /** Bytes kept from one index on are kept from any later index on. */
  lemma SuffixKept(s: seq<uint8>, s': seq<uint8>, i: nat, j: nat)
    requires i <= j <= |s| == |s'| && s'[i..] == s[i..]
    ensures s'[j..] == s[j..]
  {
    assert s'[j..] == s'[i..][j - i..];
    assert s[j..] == s[i..][j - i..];
  }

  /** The block at (left, top) lies inside the input and its bytes, and those of every block, lie below `WriteBound`. */
  lemma BlockInGrid(f: Format, w: nat, h: nat, left: nat, top: nat)
    requires left % 4 == 0 && top % 4 == 0 && left < RoundUp4(w) && top < RoundUp4(h)
    ensures left < w && top < h
    ensures Times(BlockSize(f), BlockIndex(w, left, top)) + BlockSize(f) <= InputSize(f, w, h)
    ensures BlockLimit(w, Channels(f), left, top) <= WriteBound(w, h, Channels(f))
  {
    BlockOffsetInside(f, w, h, left, top);
    BlockLimitWithinBound(w, h, Channels(f), left, top);
  }

  /** The first two statements of the loop body of `unpack_bc1` .. `unpack_bc5`: decode block n, the one at (left, top), from input offset `off`; nothing at or past `WriteBound` changes and, for widths where `SpillHarmless` holds, the block's pixels join the decoded ones. */
  method UnpackNextBlock(f: Format, width: nat, height: nat, input: seq<uint8>, out: array<uint8>, left: nat, top: nat, off: nat, ghost n: nat)
    requires left % 4 == 0 && top % 4 == 0 && left < RoundUp4(width) && top < RoundUp4(height)
    requires |input| >= InputSize(f, width, height) && n == BlockIndex(width, left, top) && off == Times(BlockSize(f), n)
    requires WriteBound(width, height, Channels(f)) <= out.Length
    requires SpillHarmless(width) ==> Decoded(out[..], f, input, width, height, n)
    modifies out
    ensures out[WriteBound(width, height, Channels(f))..] == old(out[WriteBound(width, height, Channels(f))..])
    ensures SpillHarmless(width) ==> Decoded(out[..], f, input, width, height, n + 1)
  {
    BlockInGrid(f, width, height, left, top);
    var block := input[off..off + BlockSize(f)];
    ghost var texels := BlockTexels(f, block);
    ghost var s := out[..];
    DecodeBlock(f, left, top, width, block, out, texels);
    SuffixKept(s, out[..], BlockLimit(width, Channels(f), left, top), WriteBound(width, height, Channels(f)));
    if width % 4 == 0 {
      AlignedInside(left, width);
      assert block == input[Times(BlockSize(f), n)..Times(BlockSize(f), n) + BlockSize(f)];
      DecodedStep(s, out[..], f, input, width, height, left, top, n, texels);
    } else if width < 4 {
      assert left == 0;
      assert block == input[Times(BlockSize(f), n)..Times(BlockSize(f), n) + BlockSize(f)];
      NarrowDecodedStep(s, out[..], f, input, width, height, top, n, texels);
    }
  }

  /** In a width that is a multiple of 4, an aligned column left of the rounded-up width starts a whole block. */
  lemma AlignedInside(left: nat, width: nat)
    requires left % 4 == 0 && width % 4 == 0 && left < RoundUp4(width)
    ensures left + 4 <= width
  {
    DivModUnique(width + 3, 4, width / 4, 3);
  }

  /**
   * `unpack_bc1` .. `unpack_bc5`: decode the blocks of a w x h image, left to
   * right along each row of blocks and row after row, `BlockSize(f)` input
   * bytes per block. Nothing at or past `WriteBound` is written; when the
   * width is a multiple of 4 or below 4 (`SpillHarmless`), every block, and
   * so every pixel (`DecodedImage`), ends up decoded.
   */
  method UnpackBlocks(f: Format, width: nat, height: nat, input: seq<uint8>, out: array<uint8>)
    requires |input| >= InputSize(f, width, height) && WriteBound(width, height, Channels(f)) <= out.Length
    modifies out
    ensures out[WriteBound(width, height, Channels(f))..] == old(out[WriteBound(width, height, Channels(f))..])
    ensures SpillHarmless(width) ==> Decoded(out[..], f, input, width, height, BlockCount(width, height))
  {
    ghost var bound := WriteBound(width, height, Channels(f));
    ghost var start := out[..];
    assert start[bound..] == old(out[bound..]);
    var rows := RoundUp4(height);
    var off := 0;
    ghost var n := 0;
    ghost var row := 0;
    var y := 0;
    while y < rows
      invariant y == 4 * row && y <= rows && n == Times(Blocks(width), row) && off == Times(BlockSize(f), n)
      invariant out[bound..] == start[bound..]
      invariant SpillHarmless(width) ==> Decoded(out[..], f, input, width, height, n)
    {
      DivModUnique(y, 4, row, 0);
      off, n := UnpackRow(f, width, height, input, out, y, off, n);
      row := row + 1;
      y := y + 4;
    }
    DivModUnique(rows, 4, Blocks(height), 0);
    assert row == Blocks(height);
  }

  /** One row of blocks, left to right: `Blocks(width)` more blocks decoded, and the input offset moved past them. */
  method UnpackRow(f: Format, width: nat, height: nat, input: seq<uint8>, out: array<uint8>, y: nat, off: nat, ghost n: nat)
    returns (after: nat, ghost next: nat)
    requires y % 4 == 0 && y < RoundUp4(height) && n == Times(Blocks(width), y / 4) && off == Times(BlockSize(f), n)
    requires |input| >= InputSize(f, width, height) && WriteBound(width, height, Channels(f)) <= out.Length
    requires SpillHarmless(width) ==> Decoded(out[..], f, input, width, height, n)
    modifies out
    ensures next == n + Blocks(width) && after == Times(BlockSize(f), next)
    ensures out[WriteBound(width, height, Channels(f))..] == old(out[WriteBound(width, height, Channels(f))..])
    ensures SpillHarmless(width) ==> Decoded(out[..], f, input, width, height, next)
  {
    ghost var bound := WriteBound(width, height, Channels(f));
    ghost var start := out[..];
    assert start[bound..] == old(out[bound..]);
    var columns := RoundUp4(width);
    after, next := off, n;
    ghost var col := 0;
    var x := 0;
    assert columns == 4 * Blocks(width);
    while x < columns
      invariant x == 4 * col && col <= Blocks(width) && next == n + col && after == Times(BlockSize(f), next)
      invariant out[bound..] == start[bound..]
      invariant SpillHarmless(width) ==> Decoded(out[..], f, input, width, height, next)
    {
      after, next := UnpackColumn(f, width, height, input, out, x, y, after, n, col);
      col := col + 1;
      x := x + 4;
    }
  }

  /** One iteration of the column loop: the block at column x of block row y, and the input advanced past it. */
  method UnpackColumn(f: Format, width: nat, height: nat, input: seq<uint8>, out: array<uint8>, x: nat, y: nat, off: nat,
                      ghost n: nat, ghost col: nat)
    returns (after: nat, ghost next: nat)
    requires y % 4 == 0 && y < RoundUp4(height) && n == Times(Blocks(width), y / 4)
    requires x == 4 * col && x < RoundUp4(width) && off == Times(BlockSize(f), n + col)
    requires |input| >= InputSize(f, width, height) && WriteBound(width, height, Channels(f)) <= out.Length
    requires SpillHarmless(width) ==> Decoded(out[..], f, input, width, height, n + col)
    modifies out
    ensures next == n + col + 1 && after == Times(BlockSize(f), next)
    ensures out[WriteBound(width, height, Channels(f))..] == old(out[WriteBound(width, height, Channels(f))..])
    ensures SpillHarmless(width) ==> Decoded(out[..], f, input, width, height, next)
  {
    DivModUnique(x, 4, col, 0);
    assert n + col == BlockIndex(width, x, y);
    UnpackNextBlock(f, width, height, input, out, x, y, off, n + col);
    next := n + col + 1;
    assert Times(BlockSize(f), next) == off + BlockSize(f);
    after := off + BlockSize(f);
  }

  // ---------------------------------------------------------------------
  // Widths that are neither a multiple of 4 nor below 4
  // ---------------------------------------------------------------------

  /**
   * As written, at a width 4k + r with k >= 1 and 0 < r < 4, the last block
   * of a block row, at column 4k, runs its top texel row r pixels past the
   * right edge. Its texel (r, 0) lands on pixel (0, top + 1), which belongs
   * to the first block of the same block row, decoded earlier, and whose
   * decoded value is texel 4 of that block; once the last block is done the
   * pixel holds the last block's texel (r, 0) instead. No later block of
   * the walk writes there again (`SpillKept`).
   */
  lemma SpillOverwrites(s: seq<uint8>, s': seq<uint8>, f: Format, input: seq<uint8>, w: nat, h: nat, top: nat, c: nat)
    requires 4 < w && w % 4 != 0 && top % 4 == 0 && top + 1 < h && c < Channels(f) && |input| >= InputSize(f, w, h)
    requires BlockProgress(s', s, w, Channels(f), w - w % 4, top, Texels(f, BlockAt(f, input, w, h, w - w % 4, top)), 16)
    ensures (w - w % 4) / 4 == Blocks(w) - 1
    ensures BlockIndex(w, 0, top + 1) < BlockIndex(w, w - w % 4, top)
    ensures BlockPos(w, Channels(f), w - w % 4, top, w % 4, 0, c) == PixelPos(w, Channels(f), 0, top + 1, c)
    ensures Pixel(f, input, w, h, 0, top + 1) == Texel(f, BlockAt(f, input, w, h, 0, top), 4)
    ensures PixelPos(w, Channels(f), 0, top + 1, c) < |s'| &&
            s'[PixelPos(w, Channels(f), 0, top + 1, c)] == Texel(f, BlockAt(f, input, w, h, w - w % 4, top), w % 4)[c]
  {
    var texels := Texels(f, BlockAt(f, input, w, h, w - w % 4, top));
    SpillGeometry(w, Channels(f), top, c);
    SpillByte(s', s, w, Channels(f), top, texels, c);
    FirstBlockPixel(f, input, w, h, top);
  }

  /** Once the last block of the block row is written, pixel (0, top + 1) holds its texel (r, 0). */
  lemma SpillByte(s: seq<uint8>, s0: seq<uint8>, w: nat, ch: nat, top: nat, texels: seq<seq<uint8>>, c: nat)
    requires 4 < w && w % 4 != 0 && top % 4 == 0 && c < ch && |texels| == 16
    requires BlockProgress(s, s0, w, ch, w - w % 4, top, texels, 16)
    ensures PixelPos(w, ch, 0, top + 1, c) < |s| && c < |texels[w % 4]| && s[PixelPos(w, ch, 0, top + 1, c)] == texels[w % 4][c]
  {
    SpillGeometry(w, ch, top, c);
    WrittenAt(s, w, ch, w - w % 4, top, texels, w, top, w % 4, 0, c);
  }

  /** Where the last block's texel (r, 0) lands, and the order of the two blocks involved. */
  lemma SpillGeometry(w: nat, ch: nat, top: nat, c: nat)
    requires 4 < w && w % 4 != 0 && top % 4 == 0
    ensures (w - w % 4) / 4 == Blocks(w) - 1
    ensures BlockIndex(w, 0, top + 1) < BlockIndex(w, w - w % 4, top)
    ensures BlockPos(w, ch, w - w % 4, top, w % 4, 0, c) == PixelPos(w, ch, w, top, c) == PixelPos(w, ch, 0, top + 1, c)
  {
    var r := w % 4;
    DivModUnique(w, 4, w / 4, r);
    DivModUnique(w - r, 4, w / 4, 0);
    DivModUnique(w + 3, 4, w / 4 + 1, r - 1);
    DivModUnique(top + 1, 4, top / 4, 1);
    DivModUnique(top, 4, top / 4, 0);
    PixelPosSteps(w, ch, 0, top);
  }

  /** Pixel (0, top + 1) decodes to texel 4 of the block at (0, top). */
  lemma FirstBlockPixel(f: Format, input: seq<uint8>, w: nat, h: nat, top: nat)
    requires 0 < w && top % 4 == 0 && top + 1 < h && |input| >= InputSize(f, w, h)
    ensures Pixel(f, input, w, h, 0, top + 1) == Texel(f, BlockAt(f, input, w, h, 0, top), 4)
  {
    BlockOffsetInside(f, w, h, 0, top);
    PixelInBlock(f, input, w, h, 0, top, 0, top + 1, 0, 1);
  }

  /**
   * The spill makes a difference: in a 5x4 BC4 image whose first block is
   * all 0 bytes and whose second (the one at (4, 0)) starts with two 255
   * bytes, pixel (0, 1) decodes to 0 (texel 4 of the first block), while
   * texel (w % 4, 0) = (1, 0) of the last block, the byte `SpillOverwrites`
   * leaves there, is 255. The width is a parameter fixed by the
   * precondition.
   */
  lemma SpillWitness(input: seq<uint8>, w: nat)
    requires w == 5 && input == [0, 0, 0, 0, 0, 0, 0, 0, 255, 255, 0, 0, 0, 0, 0, 0]
    ensures |input| >= InputSize(BC4, w, 4)
    ensures BlockAt(BC4, input, w, 4, 0, 0) == input[0..8] && BlockAt(BC4, input, w, 4, w - w % 4, 0) == input[8..16]
    ensures Pixel(BC4, input, w, 4, 0, 1) == [0]
    ensures Texel(BC4, BlockAt(BC4, input, w, 4, w - w % 4, 0), w % 4) == [255]
  {
    WitnessLayout(input, w);
    SpillTexels(input);
    FirstBlockPixel(BC4, input, w, 4, 0);
  }

  /** Where the two blocks of the witness lie in its input. */
  lemma WitnessLayout(input: seq<uint8>, w: nat)
    requires w == 5 && |input| == 16
    ensures |input| >= InputSize(BC4, w, 4) && w - w % 4 == 4 && w % 4 == 1
    ensures BlockAt(BC4, input, w, 4, 0, 0) == input[0..8] && BlockAt(BC4, input, w, 4, w - w % 4, 0) == input[8..16]
  {
    DivModUnique(w, 4, 1, 1);
    TwoBlockRow(BC4, input, w, 4);
  }

  /**
   * In an image of one block row and two block columns (width 5 to 8), the
   * input holds two blocks, the one at (0, 0) first and the one at (4, 0)
   * second.
   */
  lemma TwoBlockRow(f: Format, input: seq<uint8>, w: nat, h: nat)
    requires 4 < w <= 8 && 0 < h <= 4
    ensures BlockCount(w, h) == 2 && BlockIndex(w, 4, 0) == 1
    ensures InputSize(f, w, h) == 2 * BlockSize(f)
    ensures |input| >= InputSize(f, w, h) ==>
              BlockAt(f, input, w, h, 0, 0) == input[0..BlockSize(f)] &&
              BlockAt(f, input, w, h, 4, 0) == input[BlockSize(f)..2 * BlockSize(f)]
  {
    DivModUnique(w + 3, 4, 2, (w + 3) % 4);
    DivModUnique(h + 3, 4, 1, h - 1);
    DivModUnique(4, 4, 1, 0);
    TimesIs(Blocks(w), 1);
    TimesIs(Blocks(w), 0);
    TimesIs(BlockSize(f), 2);
    TimesIs(BlockSize(f), 1);
    TimesIs(BlockSize(f), 0);
    assert BlockOffset(f, w, 0, 0) == 0;
    assert BlockOffset(f, w, 4, 0) == BlockSize(f);
  }

  /** In a 5x4 image the block at (4, 0) is the last of the walk. */
  lemma WitnessLastBlock(w: nat)
    requires w == 5
    ensures BlockIndex(w, 4, 0) + 1 == BlockCount(w, 4)
  {
    TwoBlockRow(BC4, [], w, 4);
  }

  /**
   * In the image of the witness, once the walk has decoded the block at
   * (4, 0), the last of its two blocks (`WitnessLastBlock`), pixel (0, 1)
   * holds 255 where its decoded value is 0: the walk ends with that byte.
   */
  lemma SpillWitnessImage(s: seq<uint8>, s': seq<uint8>, input: seq<uint8>, w: nat)
    requires w == 5 && input == [0, 0, 0, 0, 0, 0, 0, 0, 255, 255, 0, 0, 0, 0, 0, 0]
    requires |input| >= InputSize(BC4, w, 4)
    requires BlockProgress(s', s, w, Channels(BC4), w - w % 4, 0, Texels(BC4, BlockAt(BC4, input, w, 4, w - w % 4, 0)), 16)
    ensures PixelPos(w, 1, 0, 1, 0) < |s'| && s'[PixelPos(w, 1, 0, 1, 0)] == 255
    ensures Pixel(BC4, input, w, 4, 0, 1) == [0]
  {
    SpillWitness(input, w);
    SpillOverwrites(s, s', BC4, input, w, 4, 0, 0);
  }

  /**
   * No block the walk visits after the last block of block row `top` writes
   * pixel (0, top + 1) again: every such block lies in a later block row, and
   * all its writes lie past that pixel.
   */
  lemma SpillKept(s: seq<uint8>, s': seq<uint8>, w: nat, ch: nat, top: nat, c: nat, left: nat, top': nat, texels: seq<seq<uint8>>)
    requires 4 < w && w % 4 != 0 && top % 4 == 0 && c < ch && |texels| == 16
    requires left % 4 == 0 && left < RoundUp4(w) && top' % 4 == 0 && BlockIndex(w, w - w % 4, top) < BlockIndex(w, left, top')
    requires BlockProgress(s', s, w, ch, left, top', texels, 16)
    ensures top < top'
    ensures PixelPos(w, ch, 0, top + 1, c) < |s| && s'[PixelPos(w, ch, 0, top + 1, c)] == s[PixelPos(w, ch, 0, top + 1, c)]
  {
    LaterBlockRow(w, top, left, top');
    var pos := PixelPos(w, ch, 0, top + 1, c);
    var start := BlockPos(w, ch, left, top', 0, 0, 0);
    RowsAbove(w, ch, 0, top + 1, c, top');
    PixelPosMono(w, ch, 0, top', left, top');
    assert pos < start <= |s|;
    assert s'[..start][pos] == s[..start][pos];
  }

  /** The blocks after the last block column of block row `top` are those of later block rows. */
  lemma LaterBlockRow(w: nat, top: nat, left: nat, top': nat)
    requires 4 < w && w % 4 != 0 && top % 4 == 0 && left % 4 == 0 && left < RoundUp4(w) && top' % 4 == 0
    ensures BlockIndex(w, w - w % 4, top) < BlockIndex(w, left, top') <==> top < top'
  {
    var b := Blocks(w);
    LastColumn(w);
    DivModUnique(RoundUp4(w), 4, b, 0);
    assert left / 4 < b;
    TimesIs(b, top / 4);
    TimesIs(b, top' / 4);
    RowMajorOrder(b, top / 4, top' / 4, left / 4);
  }

  /** At width 4k + r the last block column starts at pixel 4k. */
  lemma LastColumn(w: nat)
    requires 4 < w && w % 4 != 0
    ensures (w - w % 4) / 4 == Blocks(w) - 1
  {
    var r := w % 4;
    DivModUnique(w, 4, w / 4, r);
    DivModUnique(w - r, 4, w / 4, 0);
    DivModUnique(w + 3, 4, w / 4 + 1, r - 1);
  }

  /** In row-major order with b columns, the last column of row p comes before column x of row q exactly when p < q. */
  lemma RowMajorOrder(b: nat, p: nat, q: nat, x: nat)
    requires x < b
    ensures b * p + (b - 1) < b * q + x <==> p < q
  {
    if p < q {
      MulMono(p + 1, q, b);
    } else {
      MulMono(q, p, b);
    }
  }

  /** The blocks of the witness: the second decodes texel 1 to 255, the first texel 4 to 0. */
  lemma SpillTexels(input: seq<uint8>)
    requires input == [0, 0, 0, 0, 0, 0, 0, 0, 255, 255, 0, 0, 0, 0, 0, 0]
    ensures Texel(BC4, input[8..16], 1) == [255] && Texel(BC4, input[0..8], 4) == [0]
  {
    var hi, lo := input[8..16], input[0..8];
    assert hi == [255, 255, 0, 0, 0, 0, 0, 0] && lo == [0, 0, 0, 0, 0, 0, 0, 0];
    assert Word24(hi, 2) == 0 && Word24(lo, 2) == 0;
    ShrZero(3);
    ShrZero(12);
    assert RampIndex(hi, 1) == 0 && RampIndex(lo, 4) == 0;
  }

  /** Shifting zero gives zero. */
  lemma {:induction false} ShrZero(n: nat)
    ensures Shr(0, n) == 0
  {
    if n > 0 {
      ShrZero(n - 1);
    }
  }

  /** A rounded-up width has as many blocks per row, so the same input decodes to the same pixels. */
  lemma PaddedPixel(f: Format, input: seq<uint8>, w: nat, h: nat, px: nat, py: nat)
    requires px < w && py < h && |input| >= InputSize(f, w, h)
    ensures InputSize(f, RoundUp4(w), h) == InputSize(f, w, h)
    ensures Pixel(f, input, RoundUp4(w), h, px, py) == Pixel(f, input, w, h, px, py)
  {
    var r := RoundUp4(w);
    DivModUnique(r + 3, 4, Blocks(w), 3);
    assert Blocks(r) == Blocks(w);
    assert BlockIndex(r, px, py) == BlockIndex(w, px, py);
    assert BlockOffset(f, r, px, py) == BlockOffset(f, w, px, py);
    assert BlockCount(r, h) == BlockCount(w, h);
  }

  /** Where the byte at j of a w-pixel-wide image comes from in the rounded-up-width image. */
  function CropSource(w: nat, stride: nat, ch: nat, j: nat): nat
    requires w > 0 && ch > 0
  {
    PixelPos(stride, ch, Column(w, ch, j), Row(w, ch, j), j % ch)
  }

  /** The column of the pixel that byte j of a w-pixel-wide image belongs to. */
  function Column(w: nat, ch: nat, j: nat): nat
    requires w > 0 && ch > 0
  {
    (j / ch) % w
  }

  /** The row of the pixel that byte j of a w-pixel-wide image belongs to. */
  function Row(w: nat, ch: nat, j: nat): nat
    requires w > 0 && ch > 0
  {
    (j / ch) / w
  }

  /** Byte j of a w x h image is channel j % ch of pixel ((j / ch) % w, (j / ch) / w). */
  lemma CropCell(w: nat, h: nat, ch: nat, j: nat)
    requires w > 0 && ch > 0 && j < w * h * ch
    ensures Column(w, ch, j) < w && Row(w, ch, j) < h && j % ch < ch
    ensures PixelPos(w, ch, Column(w, ch, j), Row(w, ch, j), j % ch) == j
  {
    var q := j / ch;
    QuotientBelow(j, ch, w * h);
    QuotientBelow(q, w, h);
    assert q == (q / w) * w + q % w;
    PixelPosIs(w, ch, q % w, q / w, j % ch);
  }

  /** Below n groups of d, the quotient by d is below n. */
  lemma QuotientBelow(a: nat, d: nat, n: nat)
    requires d > 0 && a < n * d
    ensures a / d < n && a == (a / d) * d + a % d
  {
    if a / d >= n {
      MulMono(n, a / d, d);
      assert false;
    }
  }

  /** The byte of pixel (px, py) in a w-pixel-wide image comes from the same pixel of the wider image. */
  lemma CropSourceOf(w: nat, stride: nat, ch: nat, px: nat, py: nat, c: nat)
    requires px < w && c < ch
    ensures CropSource(w, stride, ch, PixelPos(w, ch, px, py, c)) == PixelPos(stride, ch, px, py, c)
  {
    var j := PixelPos(w, ch, px, py, c);
    PixelPosIs(w, ch, px, py, c);
    DivModUnique(j, ch, py * w + px, c);
    DivModUnique(py * w + px, w, py, px);
  }

  /**
   * The corrected walk: decode into a buffer whose rows are the rounded-up
   * width, so that no block row runs past the end of a row, then copy the w
   * pixels of each row into a w x h image. Every pixel of the result holds
   * its decoded value whatever the width.
   */
  method UnpackCropped(f: Format, width: nat, height: nat, input: seq<uint8>) returns (image: array<uint8>)
    requires |input| >= InputSize(f, width, height)
    ensures image.Length == width * height * Channels(f)
    ensures forall px: nat, py: nat, c: nat :: px < width && py < height && c < Channels(f) ==>
              PixelPos(width, Channels(f), px, py, c) < image.Length &&
              image[PixelPos(width, Channels(f), px, py, c)] == Pixel(f, input, width, height, px, py)[c]
  {
    var ch := Channels(f);
    if width == 0 {
      image := new uint8[0];
      return;
    }
    var stride := RoundUp4(width);
    DivModUnique(stride + 3, 4, Blocks(width), 3);
    assert InputSize(f, stride, height) == InputSize(f, width, height);
    var padded := new uint8[WriteBound(stride, height, ch)];
    UnpackBlocks(f, stride, height, input, padded);
    image := Crop(padded, width, height, stride, ch);
    forall px: nat, py: nat, c: nat | px < width && py < height && c < ch
      ensures PixelPos(width, ch, px, py, c) < image.Length
      ensures image[PixelPos(width, ch, px, py, c)] == Pixel(f, input, width, height, px, py)[c]
    {
      CropBelow(width, height, ch, px, py, c);
      CropSourceOf(width, stride, ch, px, py, c);
      DecodedAt(padded[..], f, input, stride, height, px, py, c);
      PaddedPixel(f, input, width, height, px, py);
    }
  }

  /** One pixel of a decoded image. */
  lemma DecodedAt(s: seq<uint8>, f: Format, input: seq<uint8>, w: nat, h: nat, px: nat, py: nat, c: nat)
    requires |input| >= InputSize(f, w, h) && Decoded(s, f, input, w, h, BlockCount(w, h))
    requires px < w && py < h && c < Channels(f)
    ensures PixelPos(w, Channels(f), px, py, c) < |s| && s[PixelPos(w, Channels(f), px, py, c)] == Pixel(f, input, w, h, px, py)[c]
  {
    BlockIndexBelow(w, h, px, py);
  }

  /** A pixel of an image whose width is a multiple of 4 lies below the write bound. */
  lemma AlignedBelow(w: nat, h: nat, ch: nat, px: nat, py: nat, c: nat)
    requires w % 4 == 0 && px < w && py < h && c < ch
    ensures PixelPos(w, ch, px, py, c) < WriteBound(w, h, ch)
  {
    WriteBoundAligned(w, h, ch);
  }

  /** The copy of the corrected walk: byte j of the w x h image from `CropSource` in the wider image. */
  method Crop(padded: array<uint8>, width: nat, height: nat, stride: nat, ch: nat) returns (image: array<uint8>)
    requires 0 < width <= stride && stride % 4 == 0 && ch > 0 && WriteBound(stride, height, ch) <= padded.Length
    ensures image.Length == width * height * ch
    ensures forall k :: 0 <= k < image.Length ==>
              CropSource(width, stride, ch, k) < padded.Length && image[k] == padded[CropSource(width, stride, ch, k)]
  {
    image := new uint8[width * height * ch];
    CopyRows(padded, image, width, height, stride, ch);
    CopiedAll(image, padded, width, stride, ch);
  }

  /** The copy loop: every byte of the image from its source, in order. */
  method CopyRows(padded: array<uint8>, image: array<uint8>, width: nat, height: nat, stride: nat, ch: nat)
    requires 0 < width <= stride && stride % 4 == 0 && ch > 0 && WriteBound(stride, height, ch) <= padded.Length
    requires image.Length == width * height * ch && padded != image
    modifies image
    ensures Copied(image[..], padded[..], width, stride, ch, image.Length)
  {
    var j := 0;
    while j < image.Length
      invariant j <= image.Length
      invariant Copied(image[..], padded[..], width, stride, ch, j)
    {
      CopyByte(padded, image, width, height, stride, ch, j);
      j := j + 1;
    }
  }

  /** One iteration of the copy: byte j of the image from its source in the wider image. */
  method CopyByte(padded: array<uint8>, image: array<uint8>, width: nat, height: nat, stride: nat, ch: nat, j: nat)
    requires 0 < width <= stride && stride % 4 == 0 && ch > 0 && WriteBound(stride, height, ch) <= padded.Length
    requires j < image.Length == width * height * ch && padded != image
    requires Copied(image[..], padded[..], width, stride, ch, j)
    modifies image
    ensures Copied(image[..], padded[..], width, stride, ch, j + 1)
  {
    CropInside(width, height, stride, ch, j);
    ghost var before := image[..];
    image[j] := padded[CropSource(width, stride, ch, j)];
    CopyStep(before, image[..], padded[..], width, stride, ch, j);
  }

  /** A copy of every byte gives each byte its source. */
  lemma CopiedAll(image: array<uint8>, padded: array<uint8>, width: nat, stride: nat, ch: nat)
    requires width > 0 && ch > 0 && Copied(image[..], padded[..], width, stride, ch, image.Length)
    ensures forall k :: 0 <= k < image.Length ==>
              CropSource(width, stride, ch, k) < padded.Length && image[k] == padded[CropSource(width, stride, ch, k)]
  {
    forall k | 0 <= k < image.Length
      ensures CropSource(width, stride, ch, k) < padded.Length && image[k] == padded[CropSource(width, stride, ch, k)]
    {
      assert image[k] == image[..][k];
    }
  }

  /** The first j bytes of s are copied from their `CropSource` in p. */
  ghost predicate Copied(s: seq<uint8>, p: seq<uint8>, width: nat, stride: nat, ch: nat, j: nat)
    requires width > 0 && ch > 0
  {
    j <= |s| && forall k :: 0 <= k < j ==> CropSource(width, stride, ch, k) < |p| && s[k] == p[CropSource(width, stride, ch, k)]
  }

  /** Copying byte j extends the copied prefix. */
  lemma CopyStep(s: seq<uint8>, s': seq<uint8>, p: seq<uint8>, width: nat, stride: nat, ch: nat, j: nat)
    requires width > 0 && ch > 0 && j < |s| && Copied(s, p, width, stride, ch, j)
    requires CropSource(width, stride, ch, j) < |p| && s' == s[j := p[CropSource(width, stride, ch, j)]]
    ensures Copied(s', p, width, stride, ch, j + 1)
  {
  }

  /** Every byte of the w x h image comes from inside the wider image's write bound. */
  lemma CropInside(width: nat, height: nat, stride: nat, ch: nat, j: nat)
    requires 0 < width <= stride && stride % 4 == 0 && ch > 0 && j < width * height * ch
    ensures CropSource(width, stride, ch, j) < WriteBound(stride, height, ch)
  {
    CropCell(width, height, ch, j);
    AlignedBelow(stride, height, ch, Column(width, ch, j), Row(width, ch, j), j % ch);
  }

  /** Every byte of every pixel of a w x h image lies below w * h * ch. */
  lemma CropBelow(w: nat, h: nat, ch: nat, px: nat, py: nat, c: nat)
    requires px < w && py < h && c < ch
    ensures PixelPos(w, ch, px, py, c) < w * h * ch
  {
    PixelPosIs(w, ch, px, py, c);
    MulMono(py + 1, h, w);
    MulMono(py * w + px + 1, w * h, ch);
  }
}
