/**
 * Block-compressed texture decoding (S3TC BC1/BC2/BC3 and RGTC BC4/BC5):
 * each 4x4 tile of the input expands into 16 texels of 4, 1 or 2 bytes,
 * written row-major into a byte buffer whose row stride is `width * ch`.
 *
 * The first half of the module gives the meaning of a block as pure
 * functions (what texel t of a block decodes to); the second half holds the
 * decoders themselves, which walk the block grid, shift the packed index
 * registers and write `out[idx++]`, and are proved against those functions.
 */
module BlockCompression {
  import opened Bits

  /** The five block formats. */
  datatype Format = BC1 | BC2 | BC3 | BC4 | BC5

  /** Compressed bytes per 4x4 block. */
  function BlockSize(f: Format): nat
  {
    if f == BC1 || f == BC4 then 8 else 16
  }

  /** Decoded bytes per texel. */
  function Channels(f: Format): nat
  {
    match f
    case BC1 | BC2 | BC3 => 4
    case BC4 => 1
    case BC5 => 2
  }

  // ---------------------------------------------------------------------
  // Endpoint expansion
  // ---------------------------------------------------------------------

  /** `RGB5TO8`: a 5-bit channel widened to 8 bits by a multiply, add and shift. */
  function Rgb5To8(v: nat): uint8
    requires v < 32
  {
    (v * 527 + 23) / 64
  }

  /** `RGB6TO8`: a 6-bit channel widened to 8 bits by a multiply, add and shift. */
  function Rgb6To8(v: nat): uint8
    requires v < 64
  {
    (v * 259 + 33) / 64
  }

  /** The widening is v * 255 / 31 rounded to nearest, so 0 and 31 map to 0 and 255. */
  lemma Rgb5To8Rounds(v: nat)
    requires v < 32
    ensures Rgb5To8(v) * 31 <= v * 255 + 15 < Rgb5To8(v) * 31 + 31
    ensures v == 0 ==> Rgb5To8(v) == 0
    ensures v == 31 ==> Rgb5To8(v) == 255
  {
  }

  /** The widening is v * 255 / 63 rounded to nearest, so 0 and 63 map to 0 and 255. */
  lemma Rgb6To8Rounds(v: nat)
    requires v < 64
    ensures Rgb6To8(v) * 63 <= v * 255 + 31 < Rgb6To8(v) * 63 + 63
    ensures v == 0 ==> Rgb6To8(v) == 0
    ensures v == 63 ==> Rgb6To8(v) == 255
  {
  }

  /** An expanded colour endpoint. */
  datatype Rgb = Rgb(r: uint8, g: uint8, b: uint8)

  /** The little-endian 16-bit RGB565 endpoint stored at `block[o..o+2]`. */
  function Color565(block: seq<uint8>, o: nat): nat
    requires o + 2 <= |block|
  {
    (block[o + 1] as int) * 256 + block[o]
  }

  /** The endpoint at `block[o..o+2]` as the decoders expand it: red from the high byte, green from the 16-bit value, blue from the low byte. */
  function Endpoint(block: seq<uint8>, o: nat): Rgb
    requires o + 2 <= |block|
  {
    Rgb(Rgb5To8(block[o + 1] / 8), Rgb6To8((Color565(block, o) / 32) % 64), Rgb5To8(block[o] % 32))
  }

  /** The three channels of an endpoint are the three RGB565 fields (bits 11-15, 5-10, 0-4) of its 16-bit value. */
  lemma EndpointFields(block: seq<uint8>, o: nat)
    requires o + 2 <= |block|
    ensures Endpoint(block, o)
         == Rgb(Rgb5To8(Color565(block, o) / 2048), Rgb6To8((Color565(block, o) / 32) % 64), Rgb5To8(Color565(block, o) % 32))
  {
    var lo, hi := block[o], block[o + 1];
    var hi', lo' := hi as int, lo as int;
    DivModUnique(hi' * 256 + lo', 2048, hi' / 8, (hi' % 8) * 256 + lo');
    DivModUnique(hi' * 256 + lo', 32, hi' * 8 + lo' / 32, lo' % 32);
  }

  /** `(2 * a + b) / 3`: the blend two thirds of the way from b to a. */
  function TwoThirds(a: uint8, b: uint8): (r: uint8)
    ensures a <= b ==> a <= r <= b
    ensures b <= a ==> b <= r <= a
  {
    (2 * a + b) / 3
  }

  /** `(a + b) / 2`: the truncated midpoint. */
  function Half(a: uint8, b: uint8): (r: uint8)
    ensures a <= b ==> a <= r <= b
    ensures b <= a ==> b <= r <= a
  {
    (a + b) / 2
  }

  function Blend(e1: Rgb, e2: Rgb): Rgb
  {
    Rgb(TwoThirds(e1.r, e2.r), TwoThirds(e1.g, e2.g), TwoThirds(e1.b, e2.b))
  }

  function Average(e1: Rgb, e2: Rgb): Rgb
  {
    Rgb(Half(e1.r, e2.r), Half(e1.g, e2.g), Half(e1.b, e2.b))
  }

  function Bytes(e: Rgb): seq<uint8>
  {
    [e.r, e.g, e.b]
  }

  // ---------------------------------------------------------------------
  // Packed indices
  // ---------------------------------------------------------------------

  /** The little-endian 32-bit word at `block[o..o+4]`. */
  function Word32(block: seq<uint8>, o: nat): nat
    requires o + 4 <= |block|
  {
    (block[o] as int) + (block[o + 1] as int) * 256 + (block[o + 2] as int) * 65536 + (block[o + 3] as int) * 16777216
  }

  /** The little-endian 24-bit word at `block[o..o+3]`. */
  function Word24(block: seq<uint8>, o: nat): nat
    requires o + 3 <= |block|
  {
    (block[o] as int) + (block[o + 1] as int) * 256 + (block[o + 2] as int) * 65536
  }

  /** The 2-bit colour selector of texel t: bits 2t, 2t+1 of the word at `block[o..o+4]`. */
  function Selector(block: seq<uint8>, o: nat, t: nat): (s: nat)
    requires o + 4 <= |block|
    ensures s < 4
  {
    Shr(Word32(block, o), 2 * t) % 4
  }

  /** The 3-bit ramp index of texel t: rows 0-1 come from the word at `block[2..5]`, rows 2-3 from `block[5..8]`. */
  function RampIndex(block: seq<uint8>, t: nat): (i: nat)
    requires 8 <= |block|
    ensures i < 8
  {
    if t < 8 then Shr(Word24(block, 2), 3 * t) % 8 else Shr(Word24(block, 5), 3 * (t - 8)) % 8
  }

  // ---------------------------------------------------------------------
  // The eight-entry ramp (BC3 alpha, BC4 and BC5)
  // ---------------------------------------------------------------------

  /** The eight values a 3-bit index selects from, built from two endpoint bytes with truncating division. */
  function Ramp(a0: uint8, a1: uint8): seq<uint8>
  {
    if a0 > a1 then
      [a0, a1, (6 * a0 + 1 * a1) / 7, (5 * a0 + 2 * a1) / 7, (4 * a0 + 3 * a1) / 7,
       (3 * a0 + 4 * a1) / 7, (2 * a0 + 5 * a1) / 7, (1 * a0 + 6 * a1) / 7]
    else
      [a0, a1, (4 * a0 + 1 * a1) / 5, (3 * a0 + 2 * a1) / 5, (2 * a0 + 3 * a1) / 5,
       (1 * a0 + 4 * a1) / 5, 0, 255]
  }

  /** The shape of the ramp: endpoints first; for a0 > a1 the interpolated entries run from a0 down to a1 without increasing; otherwise entries 6 and 7 are the literals 0 and 255 and entries 2..5 lie between the endpoints. */
  lemma RampShape(a0: uint8, a1: uint8)
    ensures |Ramp(a0, a1)| == 8 && Ramp(a0, a1)[0] == a0 && Ramp(a0, a1)[1] == a1
    ensures a0 > a1 ==> forall i, j :: 2 <= i <= j < 8 ==> a1 <= Ramp(a0, a1)[j] <= Ramp(a0, a1)[i] <= a0
    ensures a0 <= a1 ==> Ramp(a0, a1)[6] == 0 && Ramp(a0, a1)[7] == 255
    ensures a0 <= a1 ==> forall i :: 2 <= i < 6 ==> a0 <= Ramp(a0, a1)[i] <= a1
  {
  }

  /** Truncation can make neighbouring ramp entries equal, so the descending ramp is not strictly decreasing. */
  lemma RampNotStrict()
    ensures Ramp(1, 0)[2] == Ramp(1, 0)[3] == 0
  {
  }

  // ---------------------------------------------------------------------
  // Texels of one block
  // ---------------------------------------------------------------------

  function Opaque(e: Rgb): seq<uint8>
  {
    Bytes(e) + [255]
  }

  /** The BC1 selector switch: endpoint 1, endpoint 2, then either the 2:1 blends (four-colour blocks) or the midpoint and transparent black. */
  function Bc1Select(e1: Rgb, e2: Rgb, fourColour: bool, s: nat): (px: seq<uint8>)
    ensures |px| == 4
  {
    if s == 0 then Opaque(e1)
    else if s == 1 then Opaque(e2)
    else if s == 2 then (if fourColour then Opaque(Blend(e1, e2)) else Opaque(Average(e1, e2)))
    else if fourColour then Opaque(Blend(e2, e1))
    else [0, 0, 0, 0]
  }

  /** BC1 texel t of an 8-byte block: a block is four-colour when endpoint 1 is above endpoint 2 as 16-bit values. */
  function Bc1Texel(block: seq<uint8>, t: nat): seq<uint8>
    requires |block| == 8 && t < 16
  {
    Bc1Select(Endpoint(block, 0), Endpoint(block, 2), Color565(block, 0) > Color565(block, 2), Selector(block, 4, t))
  }

  /** The BC2/BC3 selector switch: the endpoints and the 2:1 blends, whatever the order of the endpoints. */
  function ColorSelect(e1: Rgb, e2: Rgb, s: nat): Rgb
  {
    if s == 0 then e1 else if s == 1 then e2 else if s == 2 then Blend(e1, e2) else Blend(e2, e1)
  }

  /** The colour half of a BC2/BC3 block (bytes 8..15). */
  function BlockColor(block: seq<uint8>, t: nat): Rgb
    requires |block| == 16 && t < 16
  {
    ColorSelect(Endpoint(block, 8), Endpoint(block, 10), Selector(block, 12, t))
  }

  /** BC2 explicit alpha of texel t: nibble t of bytes 0..7 (low nibble first), replicated into both nibbles. */
  function Bc2Alpha(block: seq<uint8>, t: nat): uint8
    requires |block| == 16 && t < 16
  {
    var v := if t % 2 == 0 then block[t / 2] % 16 else block[t / 2] / 16;
    v * 17
  }

  function Bc2Texel(block: seq<uint8>, t: nat): seq<uint8>
    requires |block| == 16 && t < 16
  {
    Bytes(BlockColor(block, t)) + [Bc2Alpha(block, t)]
  }

  function Bc3Texel(block: seq<uint8>, t: nat): seq<uint8>
    requires |block| == 16 && t < 16
  {
    Bytes(BlockColor(block, t)) + [Ramp(block[0], block[1])[RampIndex(block, t)]]
  }

  function Bc4Texel(block: seq<uint8>, t: nat): seq<uint8>
    requires |block| >= 8 && t < 16
  {
    [Ramp(block[0], block[1])[RampIndex(block, t)]]
  }

  /** BC5 texel t as `unpack_bc5_block` computes it: the green ramp and green indices are built from the same bytes 0..7 as red. */
  function Bc5TexelAsWritten(block: seq<uint8>, t: nat): seq<uint8>
    requires |block| == 16 && t < 16
  {
    var red := Ramp(block[0], block[1])[RampIndex(block, t)];
    var green := Ramp(block[0], block[1])[RampIndex(block, t)];
    [red, green]
  }

  /** BC5 texel t as the two-channel layout intends it: red from bytes 0..7, green from bytes 8..15, each decoded like a BC4 block. */
  function Bc5Texel(block: seq<uint8>, t: nat): seq<uint8>
    requires |block| == 16 && t < 16
  {
    Bc4Texel(block[..8], t) + Bc4Texel(block[8..], t)
  }

  /** Texel t of a block as the block decoders of each format store it (BC5 as written, green repeating red). */
  function Texel(f: Format, block: seq<uint8>, t: nat): (px: seq<uint8>)
    requires |block| == BlockSize(f) && t < 16
    ensures |px| == Channels(f)
  {
    match f
    case BC1 => Bc1Texel(block, t)
    case BC2 => Bc2Texel(block, t)
    case BC3 => Bc3Texel(block, t)
    case BC4 => Bc4Texel(block, t)
    case BC5 => Bc5TexelAsWritten(block, t)
  }

  /** The 16 decoded texels of a block, in row order. */
  function Texels(f: Format, block: seq<uint8>): (ts: seq<seq<uint8>>)
    requires |block| == BlockSize(f)
    ensures |ts| == 16 && forall t :: 0 <= t < 16 ==> ts[t] == Texel(f, block, t)
  {
    seq(16, t requires 0 <= t < 16 => Texel(f, block, t))
  }

  // ---------------------------------------------------------------------
  // Properties of the texel functions
  // ---------------------------------------------------------------------

  /** BC1 writes alpha 0 exactly for selector 3 of a block whose first endpoint is not above the second, and then the whole texel is transparent black; every other texel is opaque. */
  lemma Bc1Transparency(block: seq<uint8>, t: nat)
    requires |block| == 8 && t < 16
    ensures |Bc1Texel(block, t)| == 4
    ensures var transparent := Color565(block, 0) <= Color565(block, 2) && Selector(block, 4, t) == 3;
            (transparent ==> Bc1Texel(block, t) == [0, 0, 0, 0])
            && (!transparent ==> Bc1Texel(block, t)[3] == 255)
  {
  }

  /** BC1 selectors 2 and 3 give the 2:1 and 1:2 blends when the first endpoint is above the second, otherwise selector 2 gives the midpoint. */
  lemma Bc1Blends(block: seq<uint8>, t: nat)
    requires |block| == 8 && t < 16
    ensures var e1, e2, s := Endpoint(block, 0), Endpoint(block, 2), Selector(block, 4, t);
            && (s == 2 && Color565(block, 0) > Color565(block, 2) ==> Bc1Texel(block, t)[..3] == Bytes(Blend(e1, e2)))
            && (s == 3 && Color565(block, 0) > Color565(block, 2) ==> Bc1Texel(block, t)[..3] == Bytes(Blend(e2, e1)))
            && (s == 2 && Color565(block, 0) <= Color565(block, 2) ==> Bc1Texel(block, t)[..3] == Bytes(Average(e1, e2)))
  {
  }

  /** BC2 and BC3 use the 2:1 blends whatever the order of their endpoints, and carry no transparent colour. */
  lemma FourColourAlways(block: seq<uint8>, t: nat)
    requires |block| == 16 && t < 16
    ensures var e1, e2, s := Endpoint(block, 8), Endpoint(block, 10), Selector(block, 12, t);
            && (s == 2 ==> Bc2Texel(block, t)[..3] == Bc3Texel(block, t)[..3] == Bytes(Blend(e1, e2)))
            && (s == 3 ==> Bc2Texel(block, t)[..3] == Bc3Texel(block, t)[..3] == Bytes(Blend(e2, e1)))
  {
  }

  /** The 8 alpha bytes of a BC2 block feed its 16 texels: byte k gives texel 2k its low nibble and texel 2k+1 its high nibble, each as `v | v << 4`. */
  lemma Bc2AlphaNibbles(block: seq<uint8>, k: nat)
    requires |block| == 16 && k < 8
    ensures Bc2Alpha(block, 2 * k) == (block[k] % 16) * 16 + block[k] % 16
    ensures Bc2Alpha(block, 2 * k + 1) == (block[k] / 16) * 16 + block[k] / 16
  {
  }

  /** As written, both BC5 channels are equal and bytes 8..15 of the block are never consulted. */
  lemma Bc5GreenCopiesRed(block: seq<uint8>, other: seq<uint8>, t: nat)
    requires |block| == 16 && |other| == 16 && t < 16 && block[..8] == other[..8]
    ensures Bc5TexelAsWritten(block, t)[0] == Bc5TexelAsWritten(block, t)[1]
    ensures Bc5TexelAsWritten(block, t) == Bc5TexelAsWritten(other, t)
  {
    assert block[0] == other[0] && block[1] == other[1];
    assert Word24(block, 2) == Word24(other, 2) && Word24(block, 5) == Word24(other, 5);
  }

  /** A block whose green half says "all 255" but whose red half says "all 0" decodes, as written, with green 0. */
  lemma Bc5GreenDefectWitness()
    ensures var block := [0, 0, 0, 0, 0, 0, 0, 0, 255, 255, 0, 0, 0, 0, 0, 0];
            Bc5TexelAsWritten(block, 0) == [0, 0] && Bc5Texel(block, 0) == [0, 255]
  {
    var block: seq<uint8> := [0, 0, 0, 0, 0, 0, 0, 0, 255, 255, 0, 0, 0, 0, 0, 0];
    assert block[..8] == [0, 0, 0, 0, 0, 0, 0, 0];
    assert block[8..] == [255, 255, 0, 0, 0, 0, 0, 0];
  }

  /** The corrected BC5 decoding reads each channel as an independent BC4 block; its red channel is the one the code computes, and the code's green is right on blocks whose two halves are equal. */
  lemma Bc5Channels(block: seq<uint8>, t: nat)
    requires |block| == 16 && t < 16
    ensures Bc5Texel(block, t)[0] == Bc4Texel(block[..8], t)[0] == Bc5TexelAsWritten(block, t)[0]
    ensures Bc5Texel(block, t)[1] == Bc4Texel(block[8..], t)[0]
    ensures block[..8] == block[8..] ==> Bc5Texel(block, t) == Bc5TexelAsWritten(block, t)
  {
    var lo := block[..8];
    assert lo[0] == block[0] && lo[1] == block[1];
    assert Word24(lo, 2) == Word24(block, 2) && Word24(lo, 5) == Word24(block, 5);
  }
}
