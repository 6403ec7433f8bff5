/**
 * `blp_decode_rgba`: turn one mipmap of a BLP texture into 8-bit RGBA
 * pixels. Three storage schemes are handled: a 256-entry palette with
 * 0, 1, 4 or 8 bits of alpha per pixel (compression 1), block compression
 * with BC1, BC2 or BC3 chosen by the alpha type (compression 2), and plain
 * BGRA pixels (compression 3).
 */
module Blp {
  import opened Bits
  import opened BlockCompression
  import opened BcUnpack

  // ---------------------------------------------------------------------
  // The file record
  // ---------------------------------------------------------------------

  /** One mipmap level: its size in pixels and its raw bytes. */
  datatype Mipmap = Mipmap(width: uint32, height: uint32, data: seq<uint8>)

  /** The header fields the converter consults; `palette` holds 256 entries `0x00RRGGBB`. */
  datatype Header = Header(kind: nat, compression: nat, alphaDepth: nat, alphaType: nat, palette: seq<uint32>)

  datatype BlpFile = BlpFile(header: Header, mipmaps: seq<Mipmap>)

  /** The mipmap is the one the converter goes on to decode: the header type is 1 and the id names a level. */
  predicate Selected(file: BlpFile, id: nat)
  {
    file.header.kind == 1 && id < |file.mipmaps|
  }

  /** The block format compression 2 uses for an alpha type: 0, 1 and 7 select BC1, BC2 and BC3, any other is refused. */
  function BcFormat(alphaType: nat): (r: Option<Format>)
    ensures r.Some? <==> alphaType in {0, 1, 7}
    ensures r.Some? ==> Channels(r.value) == 4
  {
    if alphaType == 0 then Some(BC1)
    else if alphaType == 1 then Some(BC2)
    else if alphaType == 7 then Some(BC3)
    else None
  }

  datatype Option<T> = None | Some(value: T)

  /** The converter returns true exactly for a selected mipmap stored with compression 1 or 3, or with compression 2 and a known alpha type. */
  predicate Accepts(file: BlpFile, id: nat)
  {
    Selected(file, id) &&
    (file.header.compression == 1 || file.header.compression == 3 ||
     (file.header.compression == 2 && BcFormat(file.header.alphaType).Some?))
  }

  /** Bytes of packed alpha after the n palette indices: one bit, four bits or eight bits per pixel, none for any other depth. */
  function AlphaBytes(depth: nat, n: nat): nat
  {
    if depth == 1 then (n + 7) / 8
    else if depth == 4 then (n + 1) / 2
    else if depth == 8 then n
    else 0
  }

  /**
   * What the converter reads of a mipmap without checking: for a palette
   * image the 256 palette entries, the n indices and the alpha bytes; for
   * a block-compressed one every block; for a BGRA one 4 bytes per pixel.
   * The sizes must also fit the 32-bit arithmetic the converter does them in.
   */
  predicate Readable(header: Header, mip: Mipmap)
  {
    var n := mip.width * mip.height;
    n * 4 < 0x1_0000_0000 &&
    (header.compression == 1 ==> |header.palette| == 256 && |mip.data| >= n + AlphaBytes(header.alphaDepth, n)) &&
    (header.compression == 2 && BcFormat(header.alphaType).Some? ==>
       |mip.data| >= InputSize(BcFormat(header.alphaType).value, mip.width, mip.height)) &&
    (header.compression == 3 ==> |mip.data| >= n * 4)
  }

  // ---------------------------------------------------------------------
  // Palette images
  // ---------------------------------------------------------------------

  /** Bytes 2, 1 and 0 of a palette entry: its red, green and blue (`p >> 16`, `p >> 8`, `p` stored in a byte). */
  function Red(p: uint32): uint8 { (p / 0x1_0000) % 0x100 }
  function Green(p: uint32): uint8 { (p / 0x100) % 0x100 }
  function Blue(p: uint32): uint8 { p % 0x100 }

  /** Bit j of a byte. */
  function Bit(b: uint8, j: nat): nat
  {
    Shr(b, j) % 2
  }

  /** The alpha of pixel i of n, from the packed alpha bytes that follow the indices. */
  function Alpha(depth: nat, alphas: seq<uint8>, n: nat, i: nat): uint8
    requires i < n && |alphas| >= AlphaBytes(depth, n)
  {
    if depth == 0 then 255
    else if depth == 1 then Bit(alphas[i / 8], i % 8) * 255
    else if depth == 4 then
      var v := Shr(alphas[i / 2], (i % 2) * 4) % 16;
      v * 16 + v
    else if depth == 8 then alphas[i]
    else 255
  }

  /** Pixel i of a palette image of n pixels: the colour of its palette entry and its alpha. */
  function PalettePixel(header: Header, data: seq<uint8>, n: nat, i: nat): (px: seq<uint8>)
    requires |header.palette| == 256 && i < n && |data| >= n + AlphaBytes(header.alphaDepth, n)
    ensures |px| == 4
  {
    var p := header.palette[data[i]];
    [Red(p), Green(p), Blue(p), Alpha(header.alphaDepth, data[n..], n, i)]
  }

  /** The first k pixels of a palette image of n pixels, 4 bytes each. */
  function PaletteImage(header: Header, data: seq<uint8>, n: nat, k: nat): (img: seq<uint8>)
    requires |header.palette| == 256 && k <= n && |data| >= n + AlphaBytes(header.alphaDepth, n)
    ensures |img| == 4 * k
  {
    if k == 0 then [] else PaletteImage(header, data, n, k - 1) + PalettePixel(header, data, n, k - 1)
  }

  /** Byte c of pixel i of the palette image is byte c of `PalettePixel`. */
  lemma {:induction false} PaletteImageAt(header: Header, data: seq<uint8>, n: nat, k: nat, i: nat, c: nat)
    requires |header.palette| == 256 && k <= n && |data| >= n + AlphaBytes(header.alphaDepth, n)
    requires i < k && c < 4
    ensures PaletteImage(header, data, n, k)[4 * i + c] == PalettePixel(header, data, n, i)[c]
  {
    if i < k - 1 {
      PaletteImageAt(header, data, n, k - 1, i, c);
    }
  }

  /** The three colour bytes of a pixel give back the low 24 bits of its palette entry. */
  lemma PaletteColour(p: uint32)
    ensures Red(p) * 0x1_0000 + Green(p) * 0x100 + Blue(p) == p % 0x100_0000
  {
    var q1, b := p / 0x100, p % 0x100;
    var q2, g := q1 / 0x100, q1 % 0x100;
    var q3, r := q2 / 0x100, q2 % 0x100;
    DivModUnique(p, 0x1_0000, q2, g * 0x100 + b);
    DivModUnique(p, 0x100_0000, q3, r * 0x1_0000 + g * 0x100 + b);
  }

  /** `v` from its bits `j..7`, least significant first. */
  function PackBits(b: uint8, j: nat): nat
    requires j <= 8
    decreases 8 - j
  {
    if j == 8 then 0 else Bit(b, j) + 2 * PackBits(b, j + 1)
  }

  lemma {:induction false} PackBitsShr(b: uint8, j: nat)
    requires j <= 8
    ensures PackBits(b, j) == Shr(b, j)
    decreases 8 - j
  {
    if j == 8 {
      ShrBy3(b, 5);
      ShrBy3(b, 2);
      ShrBy2(b, 0);
    } else {
      PackBitsShr(b, j + 1);
    }
  }

  /** With 1-bit alpha, pixel 8k+j is 255 times bit j of alpha byte k, and the eight bits, least significant first, give back the byte. */
  lemma OneBitAlpha(alphas: seq<uint8>, n: nat, k: nat)
    requires 8 * k + 8 <= n && |alphas| >= AlphaBytes(1, n)
    ensures forall j: nat :: j < 8 ==> Alpha(1, alphas, n, 8 * k + j) == 255 * Bit(alphas[k], j)
    ensures PackBits(alphas[k], 0) == alphas[k]
  {
    forall j: nat | j < 8
      ensures Alpha(1, alphas, n, 8 * k + j) == 255 * Bit(alphas[k], j)
    {
      DivModUnique(8 * k + j, 8, k, j);
    }
    PackBitsShr(alphas[k], 0);
  }

  /** Shifting a byte right by 4 leaves its high nibble. */
  lemma HighNibble(b: uint8)
    ensures Shr(b, 4) == b / 16
  {
    ShrBy2(b, 0);
    ShrBy2(b, 2);
  }

  /** With 4-bit alpha, pixel 2k takes the low nibble of alpha byte k and pixel 2k+1 the high one, each replicated into both nibbles of the alpha; together they give back the byte. */
  lemma FourBitAlpha(alphas: seq<uint8>, n: nat, k: nat)
    requires 2 * k + 2 <= n && |alphas| >= AlphaBytes(4, n)
    ensures var lo, hi := Alpha(4, alphas, n, 2 * k), Alpha(4, alphas, n, 2 * k + 1);
            lo / 16 == lo % 16 == alphas[k] % 16 && hi / 16 == hi % 16 == alphas[k] / 16
  {
    var b := alphas[k];
    var lo, hi := b % 16, b / 16;
    assert Alpha(4, alphas, n, 2 * k) == lo * 16 + lo by {
      DivModUnique(2 * k, 2, k, 0);
    }
    assert Alpha(4, alphas, n, 2 * k + 1) == hi * 16 + hi by {
      DivModUnique(2 * k + 1, 2, k, 1);
      HighNibble(b);
    }
    DivModUnique(lo * 16 + lo, 16, lo, lo);
    DivModUnique(hi * 16 + hi, 16, hi, hi);
  }

  /** With 8-bit alpha the alpha bytes are copied; with a depth other than 1, 4 or 8 every pixel is opaque. */
  lemma OtherAlpha(depth: nat, alphas: seq<uint8>, n: nat, i: nat)
    requires i < n && |alphas| >= AlphaBytes(depth, n)
    ensures depth == 8 ==> Alpha(depth, alphas, n, i) == alphas[i]
    ensures depth !in {1, 4, 8} ==> Alpha(depth, alphas, n, i) == 255
  {
  }

  // ---------------------------------------------------------------------
  // BGRA images
  // ---------------------------------------------------------------------

  /** Bytes 0 and 2 of every 4-byte pixel exchanged, bytes 1 and 3 kept. */
  function SwapRB(s: seq<uint8>): (r: seq<uint8>)
    requires |s| % 4 == 0
    ensures |r| == |s|
  {
    if |s| == 0 then []
    else
      var m := |s| - 4;
      SwapRB(s[..m]) + [s[m + 2], s[m + 1], s[m], s[m + 3]]
  }

  /** Byte j of the swapped pixels is byte j of the input with 0 and 2 exchanged inside each pixel. */
  lemma {:induction false} SwapRBAt(s: seq<uint8>, i: nat)
    requires |s| % 4 == 0 && i < |s| / 4
    ensures SwapRB(s)[4 * i] == s[4 * i + 2] && SwapRB(s)[4 * i + 1] == s[4 * i + 1]
    ensures SwapRB(s)[4 * i + 2] == s[4 * i] && SwapRB(s)[4 * i + 3] == s[4 * i + 3]
  {
    var m := |s| - 4;
    if 4 * i < m {
      SwapRBAt(s[..m], i);
    }
  }

  /** Swapping twice gives back the input. */
  lemma {:induction false} SwapRBInvolution(s: seq<uint8>)
    requires |s| % 4 == 0
    ensures SwapRB(SwapRB(s)) == s
  {
    if |s| > 0 {
      var m := |s| - 4;
      var r := SwapRB(s);
      assert r[..m] == SwapRB(s[..m]);
      SwapRBInvolution(s[..m]);
      assert s == s[..m] + [s[m], s[m + 1], s[m + 2], s[m + 3]];
    }
  }

  // ---------------------------------------------------------------------
  // Block-compressed images: the output buffer
  // ---------------------------------------------------------------------

  /** The buffer size the converter allocates for a block-compressed mipmap, as written: `w*h*4`, plus `(4-w)*h*4` when w < 4, plus `(4-h)*w*4` when h < 4. */
  function BcBufferSizeAsWritten(w: nat, h: nat): nat
  {
    w * h * 4 + (if w < 4 then (4 - w) * h * 4 else 0) + (if h < 4 then (4 - h) * w * 4 else 0)
  }

  /** The size as written covers every byte the block decoder writes when each side is below 4 or a multiple of 4. */
  lemma BcBufferSizeAsWrittenCovers(w: nat, h: nat)
    requires w < 4 || w % 4 == 0
    requires h < 4 || h % 4 == 0
    ensures WriteBound(w, h, 4) <= BcBufferSizeAsWritten(w, h)
  {
    if w > 0 && h > 0 {
      PixelPosIs(w, 4, RoundUp4(w), RoundUp4(h) - 1, 0);
      if w < 4 {
        assert RoundUp4(w) == 4;
        if h >= 4 {
          assert RoundUp4(h) == h;
          assert (h - 1) * w + 4 <= 4 * h by {
            assert 4 * h - ((h - 1) * w + 4) == (4 - w) * (h - 1);
          }
        } else {
          assert RoundUp4(h) == 4;
          assert 4 * h + 4 * w - h * w - (3 * w + 4) == (4 - w) * (h - 1);
        }
      } else {
        assert RoundUp4(w) == w;
        if h >= 4 {
          assert RoundUp4(h) == h;
          assert (h - 1) * w + w == h * w;
        } else {
          assert RoundUp4(h) == 4;
        }
      }
    }
  }

  /** A 5 x 4 mipmap gets 80 bytes, but the decoder writes 92: the last row of the second block column spills past the width into the next row. */
  lemma BcBufferSizeShortWitness()
    ensures BcBufferSizeAsWritten(5, 4) == 80 && WriteBound(5, 4, 4) == 92
  {
    PixelPosIs(5, 4, 8, 3, 0);
  }

  /** The corrected buffer size: every block of the rounded-up grid, 4 bytes per pixel. */
  function BcBufferSize(w: nat, h: nat): nat
  {
    RoundUp4(w) * RoundUp4(h) * 4
  }

  /** The corrected size covers every byte the block decoder writes, and it is never below the RGBA image the caller reads. */
  lemma BcBufferSizeCovers(w: nat, h: nat)
    ensures WriteBound(w, h, 4) <= BcBufferSize(w, h)
    ensures w * h * 4 <= BcBufferSize(w, h)
  {
    AreaCovers(w, h);
    if w > 0 && h > 0 {
      PixelPosIs(w, 4, RoundUp4(w), RoundUp4(h) - 1, 0);
      LastRowCovers(w, h);
    }
  }

  /** The rounded-up sides enclose the image. */
  lemma AreaCovers(w: nat, h: nat)
    ensures w * h <= RoundUp4(w) * RoundUp4(h)
  {
    var rw, rh := RoundUp4(w), RoundUp4(h);
    MulMono(w, rw, h);
    MulMono(h, rh, rw);
    assert rw * h == h * rw;
  }

  /** The last row of blocks ends inside the rounded-up area. */
  lemma LastRowCovers(w: nat, h: nat)
    requires w > 0 && h > 0
    ensures (RoundUp4(h) - 1) * w + RoundUp4(w) <= RoundUp4(w) * RoundUp4(h)
  {
    var rw, rh := RoundUp4(w), RoundUp4(h);
    MulMono(w, rw, rh - 1);
    assert (rh - 1) * rw + rw == rh * rw;
  }

  // ---------------------------------------------------------------------
  // The converter
  // ---------------------------------------------------------------------

  /** The alpha-depth switch of the palette branch, for pixel i. */
  method AlphaSwitch(depth: nat, alphas: seq<uint8>, n: nat, i: nat) returns (a: uint8)
    requires i < n && |alphas| >= AlphaBytes(depth, n)
    ensures a == Alpha(depth, alphas, n, i)
  {
    match depth {
      case 0 =>
        a := 255;
      case 1 =>
        a := Bit(alphas[i / 8], i % 8) * 255;
      case 4 =>
        a := Shr(alphas[i / 2], (i % 2) * 4) % 16;
        a := a * 16 + a;
      case 8 =>
        a := alphas[i];
      case _ =>
        a := 255;
    }
  }

  /** The palette branch: for each of the n pixels, the colour of its palette entry and its alpha, 4 bytes at `idx++`. */
  method DecodePalette(header: Header, data: seq<uint8>, n: nat) returns (out: array<uint8>)
    requires |header.palette| == 256 && |data| >= n + AlphaBytes(header.alphaDepth, n)
    ensures fresh(out)
    ensures out[..] == PaletteImage(header, data, n, n)
  {
    out := new uint8[n * 4];
    var alphas := data[n..];
    var idx := 0;
    var i := 0;
    while i < n
      invariant i <= n && idx == 4 * i && out.Length == 4 * n
      invariant out[..idx] == PaletteImage(header, data, n, i)
    {
      ghost var before := out[..idx];
      var p := header.palette[data[i]];
      out[idx] := Red(p);
      out[idx + 1] := Green(p);
      out[idx + 2] := Blue(p);
      var a := AlphaSwitch(header.alphaDepth, alphas, n, i);
      out[idx + 3] := a;
      assert out[..idx + 4] == before + PalettePixel(header, data, n, i);
      idx := idx + 4;
      i := i + 1;
    }
    assert out[..] == out[..idx];
  }

  /** The BGRA branch: each 4-byte pixel copied with bytes 0 and 2 exchanged. */
  method DecodeBgra(data: seq<uint8>, n: nat) returns (out: array<uint8>)
    requires |data| >= n * 4
    ensures fresh(out)
    ensures out[..] == SwapRB(data[..n * 4])
  {
    out := new uint8[n * 4];
    var i := 0;
    while i < n * 4
      invariant i <= n * 4 && i % 4 == 0 && out.Length == n * 4
      invariant out[..i] == SwapRB(data[..i])
    {
      ghost var before := out[..i];
      out[i + 0] := data[i + 2];
      out[i + 1] := data[i + 1];
      out[i + 2] := data[i + 0];
      out[i + 3] := data[i + 3];
      assert data[..i + 4][..i] == data[..i];
      assert out[..i + 4] == before + [data[i + 2], data[i + 1], data[i], data[i + 3]];
      i := i + 4;
    }
    assert out[..] == out[..i];
  }

  /**
   * `blp_decode_rgba`: refuse a header type other than 1 and a mipmap id
   * past the last level; report the level's size; then decode by the
   * compression scheme, refusing an unknown scheme or, for block
   * compression, an unknown alpha type. A block-compressed level is
   * decoded into a buffer of the corrected size `BcBufferSize`.
   */
  method BlpDecodeRgba(file: BlpFile, mipmapId: uint8) returns (ok: bool, width: uint32, height: uint32, data: array<uint8>)
    requires Selected(file, mipmapId) ==> Readable(file.header, file.mipmaps[mipmapId])
    ensures ok == Accepts(file, mipmapId)
    ensures fresh(data)
    ensures Selected(file, mipmapId) ==> width == file.mipmaps[mipmapId].width && height == file.mipmaps[mipmapId].height
    ensures ok && file.header.compression == 1 ==>
              var n := width * height;
              |file.header.palette| == 256 && |file.mipmaps[mipmapId].data| >= n + AlphaBytes(file.header.alphaDepth, n) &&
              data[..] == PaletteImage(file.header, file.mipmaps[mipmapId].data, n, n)
    ensures ok && file.header.compression == 3 ==>
              data[..] == SwapRB(file.mipmaps[mipmapId].data[..width * height * 4])
    ensures ok && file.header.compression == 2 ==>
              var f := BcFormat(file.header.alphaType).value;
              data.Length == BcBufferSize(width, height) && |file.mipmaps[mipmapId].data| >= InputSize(f, width, height) &&
              (SpillHarmless(width) ==> Decoded(data[..], f, file.mipmaps[mipmapId].data, width, height, BlockCount(width, height)))
  {
    width, height := 0, 0;
    data := new uint8[0];
    if file.header.kind != 1 {
      return false, width, height, data;
    }
    if mipmapId as nat >= |file.mipmaps| {
      return false, width, height, data;
    }
    var mipmap := file.mipmaps[mipmapId];
    width := mipmap.width;
    height := mipmap.height;
    if file.header.compression == 1 {
      data := DecodePalette(file.header, mipmap.data, width * height);
    } else if file.header.compression == 2 {
      var f := BcFormat(file.header.alphaType);
      if f.None? {
        return false, width, height, data;
      }
      BcBufferSizeCovers(width, height);
      data := new uint8[BcBufferSize(width, height)];
      UnpackBlocks(f.value, width, height, mipmap.data, data);
    } else if file.header.compression == 3 {
      data := DecodeBgra(mipmap.data, width * height);
    } else {
      return false, width, height, data;
    }
    return true, width, height, data;
  }
}
