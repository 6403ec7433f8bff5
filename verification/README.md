# wow_explorer core, modelled in Dafny

wow_explorer is a GTK browser for the MPQ archives of World of Warcraft.
This project models the parts of it that compute rather than display:

- **Block-compressed texture decoding** (`src/utils/bc.c`), in `bc.dfy` and
  `bc_unpack.dfy`. It expands BC1/BC2/BC3 (S3TC) and BC4/BC5 (RGTC) 4x4
  blocks into bytes. `BlockCompression` gives the per-texel meaning of a
  block with the code's own truncating integer formulas. `BcUnpack` keeps
  the C loops: `unpack_bc*_block` as methods that write `out[idx++]` into an
  `array`, with `idx`, `idx_inc` and the shifted selector registers;
  `unpack_bc*` as the row-major block walk that advances the input by 8 or
  16 bytes per block. The walk is proved to write each pixel's texel at
  `((by+y)*width+bx+x)*ch`, and never to write past a computed bound.
- **The Direct3D 9 shader disassembler** (`src/utils/dx9_shader.c`), in
  `text.dfy`, `dx9_tokens.dfy` and `dx9_shader.dfy`.
  - `append` is a `TextBuffer` class: the characters written and the room
    left.
  - Every decoder is a method that appends to it and advances the token
    cursor.
  - Each method is proved equal to a function that gives the text and the
    new cursor.
  - The main loop's listing is a function with three outcomes: it ends, it
    stops moving (the original loops forever), or it reads past the token
    array.
- **BLP mipmap conversion** (`src/utils/blp.c`), in `blp.dfy`. It covers:
  - the header checks;
  - the palette branch with 0/1/4/8-bit alpha;
  - the BGRA swap;
  - dispatch of compression 2 to the BC decoder.
- **File-tree nodes** (`src/nodes.c`), in `nodes.dfy`. Nodes live in one list
  owned by a `Tree` class; parents and children are positions in it. The
  file covers:
  - `node_add_child` (strcmp-ordered insertion);
  - `node_get_path` (a recursive writer into a bounded buffer);
  - `is_ext`;
  - the first-match lookup in the extension table.
- **Listfile loading** (`src/explorer.c`), in `explorer.dfy`. It covers:
  - `normalize_mpq_filename` (in place on an `array<char>`);
  - `add_mpq_file` (the `strchr` walk over `\`-separated components into
    the tree);
  - the `memchr` line loop of `load_files`.

  Each method is proved against a function of the node list. That function
  is shown to keep every node's children sorted and distinct, and to build
  exactly the expected path of components. The two inputs on which the C
  loops never end are proved to be exactly the ones reported as `Hangs`: an
  empty line, and an empty path component.

Facts about the code that a reader might not expect, and that the model keeps:

- **BC3/BC4/BC5 ramp.** With `a0 > a1` the ramp's truncating division can
  repeat a value: for a0 = 1 and a1 = 0, entries 2 and 3 are both 0, so the
  ramp is not strictly decreasing. `BlockCompression.RampNotStrict` states
  this.
- **BC decoder writes.** The block decoders write whole 4x4 blocks, so the
  walk writes up to `WriteBound`, the end of the last block's last row, not
  just up to `width*height*channels`. The two agree only when the width and
  the height are multiples of 4. For widths of the form 4k + r with k >= 1
  and 0 < r < 4 the spill of the last block column lands on pixels of the
  next row's first block (see Findings).
- **BC5 green.** The BC5 decoder builds both ramps and both index registers
  from bytes 0..7 of the block, so green repeats red. The decoder methods
  keep this; `BlockCompression.Bc5Channels` is the corrected two-channel
  texel (see Findings).
- **DEF operand count.** DEF checks for 5 tokens and reads 6: the opcode,
  the register and four literals. With exactly 5 left, the model reports a
  read past the end.
- **DCL read.** DCL reads `data[pos + 2]` after checking only for 2 tokens;
  the model reports that case as a read past the end.
- **END.** The main loop prints `END` and goes on with the next token; END
  does not end the listing.
- **Opcode 14.** The listing prints opcode 14 as `SLT` with one source, as
  the code does; `Dx9Shader.Instruction` is the Direct3D 9 table, where it
  is `EXP` (see Findings).
- **Sizes are not checked.** The C code checks neither buffer sizes nor
  token counts, so the model states what it reads as a precondition.
- **DCL spelling.** The DCL usage name is spelled `posititiont`, as in the
  code.

## Model

| member | source | states |
|---|---|---|
| BlockCompression.Rgb5To8Rounds | src/utils/bc.c:3 | `RGB5TO8` is the 5-to-8-bit expansion rounded to nearest (within half a step of v*255/31), maps 0 to 0 and 31 to 255 |
| BlockCompression.Rgb6To8Rounds | src/utils/bc.c:4 | `RGB6TO8` is the 6-to-8-bit expansion rounded to nearest, maps 0 to 0 and 63 to 255 |
| BlockCompression.EndpointFields | src/utils/bc.c:12-19 | an endpoint colour is the expansion of bits 11-15, 5-10 and 0-4 of the little-endian 565 word |
| BlockCompression.TwoThirds | src/utils/bc.c:41-43 | the 2:1 blend `(2*a+b)/3` lies between its two endpoints |
| BlockCompression.Half | src/utils/bc.c:48-50 | the 1:1 blend `(a+b)/2` lies between its two endpoints |
| BlockCompression.RampShape | src/utils/bc.c:180-200 | ramp entries 0 and 1 are the two bytes; for a0 > a1 entries 2..7 lie in [a1, a0] and never increase; otherwise entries 2..5 lie in [a0, a1] and entries 6 and 7 are 0 and 255 |
| BlockCompression.RampNotStrict | src/utils/bc.c:183-191 | the truncating ramp can repeat a value: a0 = 1, a1 = 0 gives entries 2 and 3 both 0 |
| BlockCompression.Bc1Transparency | src/utils/bc.c:24-68 | a BC1 texel is transparent black exactly when color1 <= color2 and its selector is 3; every other BC1 texel has alpha 255 |
| BlockCompression.Bc1Blends | src/utils/bc.c:38-63 | BC1 selector 2 is the 2:1 blend and 3 the 1:2 blend when color1 > color2; selector 2 is the average otherwise |
| BlockCompression.FourColourAlways | src/utils/bc.c:217-226 | BC2 and BC3 always use the 2:1 and 1:2 blends for selectors 2 and 3 |
| BlockCompression.Bc2AlphaNibbles | src/utils/bc.c:134-143 | BC2 texel 2k takes the low nibble of byte k and texel 2k+1 the high one, each replicated into both nibbles |
| BlockCompression.Bc5GreenCopiesRed | src/utils/bc.c:347-387 | as written, BC5 green equals red in every texel and depends only on bytes 0..7 of the block |
| BlockCompression.Bc5GreenDefectWitness | src/utils/bc.c:347-351 | a block whose bytes 8 and 9 are 255 and all others 0 decodes texel 0 green as 0 as written and as 255 when corrected |
| BlockCompression.Bc5Channels | src/utils/bc.c:319-391 | corrected BC5: red is the BC4 texel of bytes 0..7 (as the code has it), green the BC4 texel of bytes 8..15; both agree with the code's texel when the two halves are equal |
| BcUnpack.PixelPosIs | src/utils/bc.c:9 | channel c of pixel (px, py) is stored at `(py*width + px)*ch + c` |
| BcUnpack.RoundUp4 | src/utils/bc.c:79-80 | `(n + 3) & ~3` is the multiple of 4 in [n, n+4) |
| BcUnpack.PixelPosInjective | src/utils/bc.c:9-10 | pixels inside the width with distinct coordinates or channels get distinct output positions, so no byte is written twice |
| BcUnpack.PixelPosSteps | src/utils/bc.c:27-30 | the next pixel is `ch` bytes on, the next row `width*ch` bytes on |
| BcUnpack.NextTexelRow | src/utils/bc.c:73 | after four texels, adding `idx_inc = width*ch - 4*ch` lands on the first texel of the block's next row |
| BcUnpack.BlockOffsetInside | src/utils/bc.c:79-88 | the input block holding pixel (px, py) lies inside the input the block walk consumes |
| BcUnpack.BlockLimitWithinBound | src/utils/bc.c:81-85 | every block of the rounded-up grid writes below the whole walk's write bound |
| BcUnpack.WriteBoundAligned | src/utils/bc.c:9-10 | for a width that is a multiple of 4, the write bound is width x rounded-up height x ch, and every pixel of the image lies below it |
| BcUnpack.PaintedProgress | src/utils/bc.c:20-74 | storing the first k texels in row order leaves texel t at its position for each t < k and every other byte unchanged |
| BcUnpack.Bc1Register | src/utils/bc.c:24-71 | after k two-bit shifts of `color_bits`, the case the switch takes produces texel k of the block |
| BcUnpack.Bc2Register | src/utils/bc.c:110-144 | after k shifts, the colour the switch takes plus the nibble alpha form texel k of a BC2 block |
| BcUnpack.Bc3Register | src/utils/bc.c:205-238 | after k shifts, the colour and the ramp alpha picked by the 3-bit register form texel k of a BC3 block |
| BcUnpack.Bc4Register | src/utils/bc.c:290-299 | the ramp entry picked for step k is texel k of a BC4 block |
| BcUnpack.Bc5Register | src/utils/bc.c:374-387 | the red and green ramp entries picked for step k form texel k of a BC5 block as the code decodes it, where both are the entry of the ramp and 3-bit index of bytes 0..7 |
| BcUnpack.PutTexel | src/utils/bc.c:27-30 | the `out[idx++]` writes store the texel's bytes at idx and change nothing else |
| BcUnpack.FillRamp | src/utils/bc.c:180-200 | the `alphas`/`reds` array holds the 8-entry ramp of the block's two bytes |
| BcUnpack.RampLookup | src/utils/bc.c:229-238 | the lookup returns ramp entry k and leaves both 24-bit registers shifted for texel k+1 (first register for rows 0-1, second for rows 2-3) |
| BcUnpack.Bc1Step | src/utils/bc.c:24-71 | one BC1 loop iteration stores texel 4y+x and shifts the register by two bits |
| BcUnpack.UnpackBc1Block | src/utils/bc.c:6-75 | the BC1 block decoder stores all 16 texels of the block at their positions and nothing else |
| BcUnpack.AlphaLookup | src/utils/bc.c:134-143 | `alpha_idx` and the parity of x pick the nibble alpha of texel k |
| BcUnpack.Bc2Step | src/utils/bc.c:110-144 | one BC2 iteration stores texel 4y+x, shifts the colour register and advances `alpha_idx` after odd x |
| BcUnpack.UnpackBc2Block | src/utils/bc.c:91-148 | the BC2 block decoder stores all 16 texels at their positions and nothing else |
| BcUnpack.Bc3Step | src/utils/bc.c:205-238 | one BC3 iteration stores texel 4y+x and shifts the colour and alpha registers |
| BcUnpack.UnpackBc3Block | src/utils/bc.c:164-242 | the BC3 block decoder stores all 16 texels at their positions and nothing else |
| BcUnpack.Bc4Step | src/utils/bc.c:290-299 | one BC4 iteration stores texel 4y+x and shifts the red registers |
| BcUnpack.UnpackBc4Block | src/utils/bc.c:258-303 | the BC4 block decoder stores all 16 one-byte texels at their positions and nothing else |
| BcUnpack.Bc5Step | src/utils/bc.c:374-387 | one BC5 iteration stores the red and green of texel 4y+x, both looked up from the bytes 0..7 ramp and registers, and shifts both register pairs |
| BcUnpack.UnpackBc5Block | src/utils/bc.c:319-391 | the BC5 block decoder, with the green ramp and registers built from bytes 0..7 as written, stores all 16 two-byte texels at their positions and nothing else |
| BcUnpack.DecodeBlock | src/utils/bc.c:85 | the block decoder for the format writes exactly the block's 16 texels, BC5 as the code decodes it |
| BcUnpack.SameBlock | src/utils/bc.c:81-84 | pixel (px, py) belongs to the block at (left, top) exactly when it lies in that 4x4 square |
| BcUnpack.DecodedStep | src/utils/bc.c:83-86 | in a width that is a multiple of 4, after decoding block n every pixel of blocks 0..n holds its decoded texel |
| BcUnpack.NarrowDecodedStep | src/utils/bc.c:20-86 | in a width below 4, block n runs past the width into the next rows, yet after it every pixel of blocks 0..n holds its decoded texel |
| BcUnpack.NarrowBlockIndex | src/utils/bc.c:79-84 | in a width below 4 a pixel's block is its block row |
| BcUnpack.Bc5DecodedGreen | src/utils/bc.c:347-387 | a BC5 image decoded as the code does holds the same byte in both channels of every pixel |
| BcUnpack.DecodedImage | src/utils/bc.c:77-89 | once every block is decoded, each channel of each image pixel holds that pixel's decoded texel |
| BcUnpack.BlockInGrid | src/utils/bc.c:79-85 | a block of the rounded-up grid starts inside the image, its bytes are inside the input and its writes below the write bound |
| BcUnpack.UnpackNextBlock | src/utils/bc.c:85-86 | decoding one block at input offset `n*block_size` writes below the bound and, for widths that are multiples of 4 or below 4, extends the decoded prefix by one block |
| BcUnpack.UnpackColumn | src/utils/bc.c:83-86 | one pass of the column loop decodes the block at column x, writes below the bound, moves the input offset one block on and, for widths that are multiples of 4 or below 4, extends the decoded prefix by that block |
| BcUnpack.UnpackRow | src/utils/bc.c:83-87 | one row of the walk advances the input by `blocks*block_size`, writes below the bound and, for widths that are multiples of 4 or below 4, decodes that row's blocks |
| BcUnpack.UnpackBlocks | src/utils/bc.c:77-89 | `unpack_bc*` writes nothing at or past the write bound and, for widths that are multiples of 4 or below 4, leaves every pixel decoded |
| BcUnpack.SpillGeometry | src/utils/bc.c:73-84 | at width 4k + r (k >= 1, 0 < r < 4) texel (r, 0) of the last block column lands on pixel (0, top + 1), which belongs to an earlier block |
| BcUnpack.FirstBlockPixel | src/utils/bc.c:79-85 | pixel (0, top + 1) decodes to texel 4 of the block at (0, top) |
| BcUnpack.SpillOverwrites | src/utils/bc.c:20-89 | at width 4k + r, once the last block of a block row is decoded, pixel (0, top + 1) holds that block's texel (r, 0), not its own decoded texel 4 of the first block |
| BcUnpack.SpillKept | src/utils/bc.c:77-89 | every block the walk visits after the last block of block row `top` lies in a later block row and leaves pixel (0, top + 1) unchanged |
| BcUnpack.LaterBlockRow | src/utils/bc.c:79-85 | at width 4k + r, a block comes after the last block of block row `top` exactly when it lies in a later block row |
| BcUnpack.SpillWitness | src/utils/bc.c:258-303 | for the 16-byte BC4 input of a 5x4 image whose first block is zeros and whose second starts with 255, 255: the blocks at (0, 0) and (4, 0) are its two halves, pixel (0, 1) decodes to 0, and texel (1, 0) of the block at (4, 0) is 255 |
| BcUnpack.TwoBlockRow | src/utils/bc.c:79-86 | an image 5 to 8 pixels wide and at most 4 high has two blocks, at (0, 0) then (4, 0), at input offsets 0 and one block size |
| BcUnpack.WitnessLastBlock | src/utils/bc.c:79-86 | in a 5x4 image the block at (4, 0) is the last block the walk visits |
| BcUnpack.SpillWitnessImage | src/utils/bc.c:77-89 | in that 5x4 image, once the walk has decoded its last block, at (4, 0), pixel (0, 1) holds 255 while its decoded value is 0 |
| BcUnpack.PaddedPixel | src/utils/bc.c:79-85 | decoding at the width rounded up to 4 reads the same input and gives the same pixels |
| BcUnpack.CropCell | src/utils/bc.c:9 | byte j of a w x h image is channel j % ch of pixel ((j / ch) % w, (j / ch) / w), and lies at that pixel's position |
| BcUnpack.CropSourceOf | src/utils/bc.c:9 | the copy takes each pixel's bytes from the same pixel of the wider image |
| BcUnpack.Crop | src/utils/bc.c:77-89 | the copy loop fills a w x h image with each byte taken from its source in the wider image |
| BcUnpack.UnpackCropped | src/utils/bc.c:77-89 | the corrected walk, decoding at the rounded-up width and cropping, leaves every pixel of a w x h image of any width holding its decoded texel |
| Blp.BcFormat | src/utils/blp.c:78-102 | alpha types 0, 1, 7 select BC1, BC2, BC3 (4 channels); every other alpha type is refused |
| Blp.PaletteImageAt | src/utils/blp.c:37-47 | bytes 4i..4i+3 of the palette output are pixel i |
| Blp.PaletteColour | src/utils/blp.c:45-47 | red, green and blue are bytes 2, 1, 0 of the palette entry and recompose its low 24 bits |
| Blp.OneBitAlpha | src/utils/blp.c:53-55 | with 1-bit alpha, pixel 8k+j has alpha 255 times bit j of alpha byte k |
| Blp.FourBitAlpha | src/utils/blp.c:56-59 | with 4-bit alpha, pixel 2k gets the low nibble of byte k and pixel 2k+1 the high one, each replicated |
| Blp.OtherAlpha | src/utils/blp.c:60-66 | 8-bit alpha is the byte itself; any depth other than 1, 4, 8 gives 255 |
| Blp.SwapRBAt | src/utils/blp.c:114-120 | the BGRA branch exchanges bytes 0 and 2 of each pixel and keeps bytes 1 and 3 |
| Blp.SwapRBInvolution | src/utils/blp.c:114-120 | swapping twice gives back the input |
| Blp.BcBufferSizeAsWrittenCovers | src/utils/blp.c:73-77 | the buffer size as written suffices when each side is below 4 or a multiple of 4 |
| Blp.BcBufferSizeShortWitness | src/utils/blp.c:73-77 | for a 5x4 mipmap the size as written is 80 bytes while the decoder writes up to byte 92 |
| Blp.BcBufferSizeCovers | src/utils/blp.c:73-77 | the corrected size covers every decoder write and the whole w*h RGBA image |
| Blp.AlphaSwitch | src/utils/blp.c:48-67 | the alpha-depth switch yields the alpha of pixel i |
| Blp.DecodePalette | src/utils/blp.c:27-70 | the palette loop fills a fresh buffer with the palette image of all n pixels |
| Blp.DecodeBgra | src/utils/blp.c:106-121 | the BGRA loop fills a fresh buffer with the red/blue-swapped pixels |
| Blp.BlpDecodeRgba | src/utils/blp.c:10-127 | the converter succeeds exactly for header type 1, a valid mipmap id and a known compression (and, for 2, alpha type); it reports the mipmap's size and returns the palette image, the swapped pixels or, for widths that are multiples of 4 or below 4, the decoded blocks |
| Text.FitBounds | src/utils/dx9_shader.c:47-54 | the appender keeps a prefix of what was written, leaves room for the terminator, and keeps everything when it fits |
| Text.FitAppend | src/utils/dx9_shader.c:43-56 | appending in pieces fills the buffer as appending all at once |
| Text.TextBuffer.Append | src/utils/dx9_shader.c:43-56 | `append` records the text, writes at most room-1 characters and never lets the room drop from at least 1 to 0 |
| Text.DigitsRoundTrip | src/utils/dx9_shader.c:115 | reading back the `%u` / `%x` digits gives the number |
| Text.DigitsWellFormed | src/utils/dx9_shader.c:115 | every printed digit is below the base and there is no leading zero |
| Text.PadLeft | src/utils/dx9_shader.c:580 | a `%<w>` field is the text right-aligned with spaces to at least w characters |
| Text.PadRight | src/utils/dx9_shader.c:576-579 | the padding loop leaves the text followed by spaces up to at least the width |
| Text.AltHexRoundTrip | src/utils/dx9_shader.c:580 | `%#x` prints `0` for 0 and otherwise `0x` then hex digits that read back as the number, right-aligned |
| Dx9Tokens.RegisterFields | src/utils/dx9_shader.c:110-111 | the register type is bits 28-30 plus bits 11-12 as bits 3-4, the number bits 0-10: both read back from a token built from them |
| Dx9Tokens.SelectorsCompose | src/utils/dx9_shader.c:79-82 | the four 2-bit selectors of the swizzle byte recompose it |
| Dx9Tokens.PartRoundTrip | src/utils/dx9_shader.c:58-72 | selectors 0..3 print as one letter that reads back as the selector |
| Dx9Tokens.SwizzleRoundTrip | src/utils/dx9_shader.c:74-92 | a swizzle prints as 0, 1 or 4 letters that read back as the swizzle byte (`.xyzw` for none, replication for one) |
| Dx9Tokens.WriteMaskRoundTrip | src/utils/dx9_shader.c:94-106 | a full mask prints nothing; any other prints at most four letters that read back as the mask bits |
| Dx9Tokens.OperandShape | src/utils/dx9_shader.c:108-177 | an operand is its register name (`unk(<type>)` when unmapped), its number except for oDepth and aL, and the swizzle only for r, v, c, oFog, oPos, oT, i, oC |
| Dx9Tokens.ModifierRoundTrip | src/utils/dx9_shader.c:180-236 | the prefix and suffix printed for source modifiers 0..13 identify the modifier; an `abs(` prefix comes with a `)` suffix |
| Dx9Shader.DecodeSwizzle | src/utils/dx9_shader.c:74-92 | appends the swizzle text of the token |
| Dx9Shader.DecodeWriteMask | src/utils/dx9_shader.c:94-106 | appends the write-mask text of the token |
| Dx9Shader.DecodeOperand | src/utils/dx9_shader.c:108-177 | appends the operand text of the token with the given swizzle |
| Dx9Shader.DecodeOperandSrc | src/utils/dx9_shader.c:180-237 | appends the source operand with its modifier decorations and swizzle |
| Dx9Shader.DecodeOperandDst | src/utils/dx9_shader.c:239-247 | appends the destination operand with its write mask |
| Dx9Shader.SourcesConsume | src/utils/dx9_shader.c:272-282 | the source loop moves the cursor to pos+1+sources, or to the end of the stream if that comes first |
| Dx9Shader.InstrConsumes | src/utils/dx9_shader.c:249-283 | an instruction consumes 1 + (dst ? 1 : 0) + src tokens, or stops at the end of the stream, never reading past it |
| Dx9Shader.DecodeDst | src/utils/dx9_shader.c:257-270 | appends `_SAT`/`_PARTIAL`/`_CENTROID` for destination modifier 1/2/3, a space and the destination |
| Dx9Shader.DecodeSource | src/utils/dx9_shader.c:277-280 | appends the separating comma when needed, a space and the source operand |
| Dx9Shader.DecodeSources | src/utils/dx9_shader.c:272-281 | the source loop appends the sources' text and moves the cursor as the function of the tokens says |
| Dx9Shader.DecodeInstr | src/utils/dx9_shader.c:249-283 | `decode_dx9_instr` appends the instruction's text and returns the new cursor |
| Dx9Shader.DecodeDef | src/utils/dx9_shader.c:285-297 | `decode_dx9_def` appends the DEF text and returns the new cursor and whether it read past the stream |
| Dx9Shader.DecodeDclSampler | src/utils/dx9_shader.c:299-328 | with at least 2 tokens left, appends `DCL_` and the texture type and the register, returning the new cursor and whether the register token lay past the stream |
| Dx9Shader.DecodeDclAttribute | src/utils/dx9_shader.c:330-390 | with at least 2 tokens left, appends `DCL_`, the usage and its index and the register, returning the new cursor and whether the register token lay past the stream |
| Dx9Shader.DecodeDcl | src/utils/dx9_shader.c:392-399 | `decode_dx9_dcl` appends the declarations and returns the new cursor and whether it read past the stream |
| Dx9Shader.DclCases | src/utils/dx9_shader.c:392-399 | DCL stays put exactly with fewer than 2 tokens left, reads past the stream exactly with 2 left or with 5 left and a sampler, and otherwise advances 3 to 6 tokens |
| Dx9Shader.DefCases | src/utils/dx9_shader.c:285-297 | DEF stays put exactly with fewer than 5 tokens left, reads past the stream exactly with 5 left, and otherwise advances 6 tokens |
| Dx9Shader.Opcode14PrintsAsSlt | src/utils/dx9_shader.c:473-474 | as written, opcode 14 prints `SLT` like opcode 12 but with one source |
| Dx9Shader.InstructionCorrection | src/utils/dx9_shader.c:429-575 | the Direct3D 9 table agrees with the code on every opcode but 14, which becomes `EXP` with a destination and one source |
| Dx9Shader.Opcode14Listed | src/utils/dx9_shader.c:473-474 | the listing decodes an opcode-14 token as a one-source `SLT` instruction, though the Direct3D 9 table has `EXP` |
| Dx9Shader.ComparisonAndExpDistinct | src/utils/dx9_shader.c:467-474 | in the Direct3D 9 table `SLT` names only opcode 12 and `EXP` only opcode 14 |
| Dx9Shader.PadLine | src/utils/dx9_shader.c:576-579 | the padding loop pads the line with spaces to 60 characters |
| Dx9Shader.DecodeLine | src/utils/dx9_shader.c:427-575 | one switch dispatch, on the opcode table as written, appends the line's text and returns the new cursor and whether it read past the stream |
| Dx9Shader.ListLine | src/utils/dx9_shader.c:421-581 | one iteration of the main loop appends its listing line and moves the cursor forward, or the listing stops there |
| Dx9Shader.ListLines | src/utils/dx9_shader.c:420-581 | the main loop appends the listing of the tokens after the header and reports how it ends |
| Dx9Shader.DecodeShader | src/utils/dx9_shader.c:401-582 | `decode_dx9_shader` leaves in the buffer what fits of the shader's listing and reports how it ends |
| Dx9Shader.LineLayout | src/utils/dx9_shader.c:576-580 | a line is the 127-character-at-most line buffer padded to at least 60 characters, then `; opcode: ` and the fields and a newline |
| Dx9Shader.LineProgress | src/utils/dx9_shader.c:421-575 | a dispatch never moves the cursor back or past the end, and leaves it in place exactly for DEF with under 5 tokens or DCL with under 2 |
| Dx9Shader.LinePastEnd | src/utils/dx9_shader.c:285-399 | a dispatch reads past the stream exactly for DEF with 5 tokens left or DCL with 2 left, or 5 left and a sampler register |
| Dx9Shader.EndContinues | src/utils/dx9_shader.c:568-571 | END prints `END`, advances one token and the listing goes on |
| Dx9Shader.UnknownSkipped | src/utils/dx9_shader.c:572-574 | an unknown opcode advances one token and, with the line buffer taken as empty, prints only the padded comment |
| Dx9Shader.UninitialisedLineWitness | src/utils/dx9_shader.c:423-577 | for an unknown opcode the printed line depends on what the uninitialised buffer held: empty, it starts with a space as `UnknownSkipped` has it; holding `MOV`, it starts with `M` |
| Dx9Shader.OnlyDeclarationsStop | src/utils/dx9_shader.c:421-581 | a listing that does not finish stops at a DEF or DCL token |
| Dx9Shader.PlainStreamFinishes | src/utils/dx9_shader.c:421-581 | a stream with no DEF or DCL token always finishes |
| Dx9Shader.HeaderCases | src/utils/dx9_shader.c:407-419 | the header is `ps_<major>_<minor>` for 0xFFFF, `vs_...` for 0xFFFE and nothing otherwise |
| Dx9Shader.HeaderFirst | src/utils/dx9_shader.c:403-419 | a listing starts with its header; without a known header there is no output |
| Nodes.LessIrreflexive | src/nodes.c:52 | no name is strcmp-below itself |
| Nodes.LessTransitive | src/nodes.c:52 | strcmp order is transitive |
| Nodes.LessTotal | src/nodes.c:52 | any two names are equal or strcmp-ordered one way |
| Nodes.InsertionPoint | src/nodes.c:50-60 | the child goes after every name not above it, before the first name strictly above it, or at the end |
| Nodes.AfterInsertionPoint | src/nodes.c:52-53 | in sorted children every name from the insertion point on is above the new one; every equal name comes before it |
| Nodes.InsertKeepsSorted | src/nodes.c:50-66 | inserting at the insertion point keeps sorted names sorted |
| Nodes.AddedChildShape | src/nodes.c:48-67 | adding a child grows the child list by one at the insertion point, keeps the other children in order and changes no other node |
| Nodes.AddChildKeepsOrder | src/nodes.c:48-67 | for sorted children, adding a child keeps them sorted and places it after all equal names |
| Nodes.AddChildWellFormed | src/nodes.c:48-67 | adding a node's child under its own parent keeps the tree well formed |
| Nodes.NewNodeWellFormed | src/nodes.c:22-33 | a new node with no children keeps the tree well formed |
| Nodes.NewNodeKeepsOrder | src/nodes.c:22-33 | a new node keeps every child list sorted and free of duplicate names |
| Nodes.AddChildKeepsTreeOrder | src/nodes.c:48-67 | adding a child keeps every child list sorted, and duplicate-free when its name is new |
| Nodes.PathIsJoin | src/nodes.c:69-84 | below the empty-named root, a node's path is its components joined by `\` |
| Nodes.Tree.NewNode | src/nodes.c:22-33 | `node_new` appends a childless node and keeps the tree valid |
| Nodes.Tree.AddChild | src/nodes.c:48-67 | `node_add_child` updates the tree as the insertion function says |
| Nodes.Tree.WritePath | src/nodes.c:69-84 | the recursive writer leaves what fits of the node's path in the buffer |
| Nodes.Tree.GetPath | src/nodes.c:69-84 | `node_get_path` yields what fits of the node's path in a buffer of `len` bytes |
| Nodes.IsExtSuffix | src/nodes.c:98-105 | `is_ext` holds exactly when the path is some string followed by the extension |
| Nodes.DisplayFromFirstMatch | src/nodes.c:150-159 | from entry j on, the first matching extension decides, and none gives the text display |
| Nodes.DisplayForFirstMatch | src/nodes.c:150-159 | the display is that of the first table entry whose extension ends the path, or the text display |
| Nodes.FindDisplay | src/nodes.c:150-159 | the search loop returns the display of the first matching entry, else the text display |
| Explorer.NormalizedForm | src/explorer.c:350-360 | normalising keeps both lengths, leaves no `/` and no lower-case letter, and keeps every character up to case except `/`, which becomes `\` |
| Explorer.NormalizedIdempotent | src/explorer.c:350-360 | normalising twice is normalising once |
| Explorer.NormalizeMpqFilename | src/explorer.c:350-360 | the in-place loop leaves the normalised buffer |
| Explorer.IndexFrom | src/explorer.c:117 | `strchr`/`memchr` finds the first separator from the start position, or the end |
| Explorer.CutPieces | src/explorer.c:117-144 | the walk cuts only non-empty pieces with no separator; an unstuck rest has no separator, a stuck one starts with one |
| Explorer.CutStep | src/explorer.c:117-143 | a separator after a non-empty piece yields that piece, then the cut of what follows |
| Explorer.CutGlue | src/explorer.c:117-145 | the pieces joined by separators, followed by the rest, are the input |
| Explorer.GlueCut | src/explorer.c:117-145 | joining proper pieces and a separator-free rest, then cutting, gives them back |
| Explorer.CutStuck | src/explorer.c:119-123 | the walk sticks exactly when there is an empty component ahead |
| Explorer.Child | src/explorer.c:128-136 | the child search finds a child with the name, or -1 exactly when there is none |
| Explorer.AddLeaf | src/explorer.c:137-140 | adding a new node as a child keeps the tree well formed and grows it by one node |
| Explorer.EnterDir | src/explorer.c:124-143 | entering a component keeps the tree well formed and yields one of its nodes |
| Explorer.EnterDirs | src/explorer.c:117-144 | entering each directory component in turn keeps the tree well formed |
| Explorer.AddPath | src/explorer.c:111-169 | `add_mpq_file` keeps the tree well formed and never removes nodes |
| Explorer.LoadLines | src/explorer.c:185-203 | adding the lines in turn keeps the tree well formed with the root inside |
| Explorer.LoadFrom | src/explorer.c:185-203 | the line loop over one listfile keeps the tree well formed with the root inside |
| Explorer.LoadArchives | src/explorer.c:176-205 | the archives in turn keep the tree well formed with the root inside |
| Explorer.WithRoot | src/explorer.c:174 | loading starts by appending an empty-named root directory |
| Explorer.LoadEnd | src/explorer.c:187-193 | with no newline left the loop ends without change; with a newline right at `prev` it hangs |
| Explorer.LoadStep | src/explorer.c:187-202 | a newline after a non-empty line copies it, drops one carriage return, adds the path and carries on after the newline |
| Explorer.AddLeafFacts | src/explorer.c:164 | the new node is the parent's child with the name and kind, old nodes keep their place, and its components are the parent's plus its name |
| Explorer.AddLeafKeepsOrder | src/explorer.c:137-138 | adding a node whose name is new among its siblings keeps every child list sorted and distinct |
| Explorer.EnterDirFacts | src/explorer.c:128-140 | entering a directory reuses the child of that name unchanged, or adds a directory node of that name; either way its components extend the parent's |
| Explorer.EnterDirsFacts | src/explorer.c:117-144 | after the directory walk the current node's components are the root's plus the components (truncated to 511 characters, lower-cased), and sorted trees stay sorted |
| Explorer.AddPathFacts | src/explorer.c:111-169 | adding a path keeps old nodes, keeps sorted and distinct children so, and when no node is added nothing changes and no file is counted |
| Explorer.AddPathFile | src/explorer.c:145-167 | a file is counted exactly when the walk ends and a node is added after the directories; that node is a file whose components are the directory names plus the file name |
| Explorer.AddPathHangs | src/explorer.c:119-123 | `add_mpq_file` hangs exactly when the path has an empty component |
| Explorer.TrailingSeparator | src/explorer.c:145-146 | a path ending in `\` adds no file |
| Explorer.LoadLinesFacts | src/explorer.c:185-203 | loading lines keeps old nodes and sorted, distinct children |
| Explorer.LoadArchivesFacts | src/explorer.c:176-205 | loading archives keeps old nodes and sorted, distinct children |
| Explorer.LoadFilesOrdered | src/explorer.c:171-205 | `load_files` leaves sorted, distinct children under an empty-named root directory |
| Explorer.LoadFromLines | src/explorer.c:185-203 | a listfile made of proper lines and a tail with no newline loads exactly those lines; the tail is never added |
| Explorer.EmptyLineStops | src/explorer.c:189-193 | a listfile with an empty line never finishes loading |
| Explorer.LowerCase | src/explorer.c:126-127 | the `tolower` loop lower-cases every character |
| Explorer.Explorer.FindChild | src/explorer.c:128-136 | the search loop returns the child of that name, or -1 |
| Explorer.Explorer.EnterDirectory | src/explorer.c:124-143 | one directory step updates the tree and parent as the entering function says |
| Explorer.Explorer.DirStep | src/explorer.c:119-143 | one iteration of the `strchr` loop enters the component and moves `prev` past the separator |
| Explorer.Explorer.EnterDirectories | src/explorer.c:117-144 | the `strchr` loop enters every directory component, or reports that it sticks |
| Explorer.Explorer.AddFinal | src/explorer.c:145-167 | the final component adds a file node and counts it exactly when it is non-empty and new among its siblings |
| Explorer.Explorer.AddMpqFile | src/explorer.c:111-169 | `add_mpq_file` updates the tree and `files_count` as the path function says |
| Explorer.Explorer.LoadLine | src/explorer.c:189-202 | one iteration of the `memchr` loop adds its line, or stops as the loading function says |
| Explorer.Explorer.LoadListfile | src/explorer.c:185-203 | the line loop over one listfile leaves the tree, count and outcome the loading function gives |
| Explorer.Explorer.LoadFiles | src/explorer.c:171-205 | `load_files` makes a new root and loads every archive's listfile as the loading function says |

## Left out

- Display code: the GTK widgets and the display constructors are out of scope. The extension table yields a `Display` tag, not a constructor call.
- Floating point: `get_color_from_height` (floating point) is out of scope. DEF's `%f` printing is a `formatFloat` parameter applied to the raw 32-bit tokens.
- I/O and setup: `stderr` messages, archive setup, `main` and option parsing are out of scope. So is reading `(listfile)` from an archive: each archive's listfile is a `Listfile` value passed in, missing or present.
- Byte stream: the shader input is its token sequence. Reinterpreting the `s` bytes as `s / 4` 32-bit words is not part of this model, and a stream under 4 bytes is the empty token sequence.
- Pointers and memory: node pointers are positions in one node list, and NULL is -1. `node_delete`, freeing, and the `jks_array` internals are not part of this model.
- Allocation failures are not modelled: `malloc`, `strdup`, and a failed `jks_array_push`, which makes `node_add_child` and `add_mpq_file` return false. Neither is the test of `data` instead of `*data` after the BC2 allocation in `blp_decode_rgba`.
- The Explorer class does not carry the window, the displays or the archive set: only the tree, the root and `files_count`.
- Index arithmetic: `unpack_bc*_block` is modelled on unbounded integers. For widths below 4, `idx_inc = width*ch - 4*ch` wraps modulo 2^32, and adding it gives the same position as the unbounded subtraction.
- Explorer.AddPath: a NUL inside the path is an ordinary character, whereas the C string ends there. The line loop only passes lines cut at their first NUL, so loading is unaffected.
- Explorer: a loop that never ends is reported as the outcome `Hangs`. A read before the start of the line buffer is reported as `OutOfBounds`. In both cases the model stops there.
- Dx9Shader: a DEF or DCL step that leaves the cursor in place, so the main loop never ends, is reported as `Hangs`. A read past the end of the token array is reported as `ReadsPastEnd`. In both cases the listing stops there.
- Explorer.ToLower: `tolower` in the C locale, folding only `A`..`Z`. `gtk_init` (src/explorer.c:269) sets the locale from the environment before `load_files` runs (src/explorer.c:270, 210), so the directory and file names in the tree (src/explorer.c:127, 152) may fold differently in other locales. An 8-bit code page may fold bytes 0x80 and above, and a Turkish locale does not map `I` to `i`.
- Explorer.ToUpper: `toupper` in the C locale, for the same reason. `normalize_mpq_filename` (src/explorer.c:358) runs after `gtk_init` too, so in other locales it may upper-case other bytes.
- BcUnpack.UnpackBlocks: states each pixel's content only for widths that are multiples of 4 or below 4. At other widths the last block column's spill overwrites pixels of the next row (see Findings), so only the write bound is stated.
- Blp.BlpDecodeRgba: states block-decoded content only for widths that are multiples of 4 or below 4, for the same reason.
- Dx9Shader.UnknownSkipped: takes the line buffer of an unknown opcode as empty. The code leaves it uninitialised, so the printed line is unspecified (see Findings).
- Blp.BlpDecodeRgba: requires that `width*height*4` fits in 32 bits and that the mipmap holds every byte the branch reads, because the C code checks neither.
- Blp.BlpDecodeRgba: uses the corrected buffer size for block compression (see Findings).
- BcUnpack.UnpackBlocks: requires the input to hold every block of the rounded-up grid, because the C code does not check it.
- Nodes.Tree.GetPath: requires a buffer of at least one byte. With none, `snprintf` writes nothing and the C code then reads an uninitialised buffer.
- Explorer.NormalizeMpqFilename: requires a NUL inside the buffer, as the C loop runs until it finds one.

## Findings

| source | as written | input that shows it | evidently intended | confidence | as-written member | corrected member |
|---|---|---|---|---|---|---|
| src/utils/bc.c:347-351 | BC5 builds the green ramp and green indices from block bytes 0..7, the same bytes as red; the decoder methods keep this | a block with bytes 8 and 9 equal to 255 and all others 0: texel 0 decodes with green 0 | green from the second half of the block (bytes 8..15), as RGTC2 lays it out: green 255 for that block | not executed | BlockCompression.Bc5GreenDefectWitness | BlockCompression.Bc5Channels |
| src/utils/blp.c:73-77 | the BC buffer is `w*h*4`, plus padding only for sides below 4 | a 5x4 mipmap: 80 bytes allocated, while the decoder writes up to byte 92 (pixel 7 of row 3 of the second block column) | room for every block of the rounded-up grid, `RoundUp4(w)*RoundUp4(h)*4` | not executed | Blp.BcBufferSizeShortWitness | Blp.BcBufferSizeCovers |
| src/utils/dx9_shader.c:473-474 | opcode 14 prints `SLT` with one source | an instruction token with opcode 14: it lists as `SLT`, the same as opcode 12 | `EXP` (opcode 14 of Direct3D 9) with a destination and one source; the listing keeps `SLT` as the code prints it | not executed | Dx9Shader.Opcode14PrintsAsSlt | Dx9Shader.InstructionCorrection |
| src/utils/bc.c:73-89 | the block walk writes each block row `4*ch` bytes wide at stride `width*ch`, so at width 4k + r (k >= 1, 0 < r < 4) the last block column's rows run into the next image row | a 5x4 BC4 image whose first block is all 0 and whose second starts with bytes 255, 255: pixel (0, 1) should be 0 (texel 4 of the first block) but ends holding 255 (texel 1 of the second) | every pixel holds its own block's texel, e.g. by decoding at the rounded-up width and cropping | not executed | BcUnpack.SpillWitnessImage | BcUnpack.UnpackCropped |
| src/utils/dx9_shader.c:423,572-577 | `line_buf` is declared without an initialiser on each pass; for an unknown opcode nothing is written to it before `strlen(line_buf)` | an instruction token with opcode 40 (not in the table) after a `MOV` line: the line printed is whatever the buffer held | an empty line buffer, so the line is the comment padded from column 60 | not executed | Dx9Shader.UninitialisedLineWitness | Dx9Shader.UnknownSkipped |
