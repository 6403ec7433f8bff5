/**
 * The Direct3D 9 shader disassembler: a token stream (a version token
 * followed by instruction tokens, each instruction an opcode token and its
 * parameter tokens) turned into one text line per instruction.
 *
 * Each decoder is a method that appends to a bounded text buffer and moves
 * a token cursor, proved against a pure function giving the text it writes
 * and where it leaves the cursor. Reading a token past the end of the
 * stream, which the original does in three places, is modelled as an
 * outcome of its own rather than as a read.
 */
module Dx9Shader {
  import opened Bits
  import opened Text
  import opened Dx9Tokens

  // ---------------------------------------------------------------------
  // Swizzles, masks and operands, written into a buffer
  // ---------------------------------------------------------------------

  /** `decode_dx9_swizzle`. */
  method DecodeSwizzle(b: TextBuffer, t: uint32)
    requires b.Valid()
    modifies b
    ensures b.Valid() && b.written == old(b.written) + SwizzleText(t)
  {
    var swizzle := SwizzleByte(t);
    if swizzle == 0xE4 {
      return;
    }
    var sx, sy, sz, sw := swizzle % 4, (swizzle / 4) % 4, (swizzle / 16) % 4, (swizzle / 64) % 4;
    if sx == sy && sy == sz && sz == sw {
      b.Append(SwizzlePart(sx));
      return;
    }
    ghost var start := b.written;
    b.Append(SwizzlePart(sx));
    b.Append(SwizzlePart(sy));
    AppendAssoc(start, SwizzlePart(sx), SwizzlePart(sy));
    b.Append(SwizzlePart(sz));
    AppendAssoc(start, SwizzlePart(sx) + SwizzlePart(sy), SwizzlePart(sz));
    b.Append(SwizzlePart(sw));
    AppendAssoc(start, SwizzlePart(sx) + SwizzlePart(sy) + SwizzlePart(sz), SwizzlePart(sw));
  }

  /** `decode_dx9_write_mask`. */
  method DecodeWriteMask(b: TextBuffer, t: uint32)
    requires b.Valid()
    modifies b
    ensures b.Valid() && b.written == old(b.written) + WriteMaskText(t)
  {
    var m := WriteMask(t);
    if m == 15 {
      return;
    }
    ghost var start := b.written;
    ghost var x, y, z, w := (if m % 2 == 1 then "x" else ""), (if (m / 2) % 2 == 1 then "y" else ""),
                            (if (m / 4) % 2 == 1 then "z" else ""), (if (m / 8) % 2 == 1 then "w" else "");
    if m % 2 == 1 {
      b.Append("x");
    }
    assert b.written == start + x;
    if (m / 2) % 2 == 1 {
      b.Append("y");
    }
    AppendAssoc(start, x, y);
    if (m / 4) % 2 == 1 {
      b.Append("z");
    }
    AppendAssoc(start, x + y, z);
    if (m / 8) % 2 == 1 {
      b.Append("w");
    }
    AppendAssoc(start, x + y + z, w);
  }

  /** A register name and number, then `.` and the swizzle when there is one. */
  method AppendRegister(b: TextBuffer, name: string, regnum: nat, swizzle: string)
    requires b.Valid()
    modifies b
    ensures b.Valid() && b.written == old(b.written) + (name + Dec(regnum) + Dotted(swizzle))
  {
    ghost var start := b.written;
    b.Append(name + Dec(regnum));
    if swizzle != "" {
      b.Append("." + swizzle);
    }
    AppendAssoc(start, name + Dec(regnum), Dotted(swizzle));
  }

  /** `decode_dx9_operand`. */
  method DecodeOperand(b: TextBuffer, t: uint32, swizzle: string)
    requires b.Valid()
    modifies b
    ensures b.Valid() && b.written == old(b.written) + OperandText(t, swizzle)
  {
    var regnum := RegNum(t);
    match RegType(t) {
      case 0 => AppendRegister(b, "r", regnum, swizzle);
      case 1 => AppendRegister(b, "v", regnum, swizzle);
      case 2 => AppendRegister(b, "c", regnum, swizzle);
      case 3 => b.Append("t" + Dec(regnum));
      case 4 => AppendRegister(b, "oFog", regnum, swizzle);
      case 5 => AppendRegister(b, "oPos", regnum, swizzle);
      case 6 => AppendRegister(b, "oT", regnum, swizzle);
      case 7 => AppendRegister(b, "i", regnum, swizzle);
      case 8 => AppendRegister(b, "oC", regnum, swizzle);
      case 9 => b.Append("oDepth");
      case 10 => b.Append("s" + Dec(regnum));
      case 14 => b.Append("b" + Dec(regnum));
      case 15 => b.Append("aL");
      case 18 => b.Append("l" + Dec(regnum));
      case 19 => b.Append("p" + Dec(regnum));
      case _ => b.Append("unk(" + Dec(RegType(t)) + ")" + Dec(regnum));
    }
  }

  /** `decode_dx9_operand_src`: the swizzle is first written into an 8-byte buffer of its own, which it always fits. */
  method DecodeOperandSrc(b: TextBuffer, t: uint32, displaySwizzle: bool)
    requires b.Valid()
    modifies b
    ensures b.Valid() && b.written == old(b.written) + SrcText(t, displaySwizzle)
  {
    var mod := SrcMod(t);
    ghost var start := b.written;
    b.Append(ModPrefix(mod));
    var swizzle := new TextBuffer(8);
    if displaySwizzle {
      DecodeSwizzle(swizzle, t);
      SwizzleRoundTrip(t);
      FitBounds(SwizzleText(t), 8);
    }
    assert swizzle.text == if displaySwizzle then SwizzleText(t) else "";
    DecodeOperand(b, t, swizzle.text);
    AppendAssoc(start, ModPrefix(mod), OperandText(t, swizzle.text));
    b.Append(ModSuffix(mod));
    AppendAssoc(start, ModPrefix(mod) + OperandText(t, swizzle.text), ModSuffix(mod));
  }

  /** `decode_dx9_operand_dst`: the write mask goes through an 8-byte buffer, which it always fits. */
  method DecodeOperandDst(b: TextBuffer, t: uint32, displaySwizzle: bool)
    requires b.Valid()
    modifies b
    ensures b.Valid() && b.written == old(b.written) + DstText(t, displaySwizzle)
  {
    var mask := new TextBuffer(8);
    if displaySwizzle {
      DecodeWriteMask(mask, t);
      WriteMaskRoundTrip(t);
      FitBounds(WriteMaskText(t), 8);
    }
    assert mask.text == if displaySwizzle then WriteMaskText(t) else "";
    DecodeOperand(b, t, mask.text);
  }

  // ---------------------------------------------------------------------
  // One instruction
  // ---------------------------------------------------------------------

  /**
   * What a decoder wrote, the token it left the cursor on, and whether it
   * read the token at the end of the stream (one past the last), where it
   * stops being modelled.
   */
  datatype Decoded = Decoded(text: string, next: nat, pastEnd: bool)

  /** The text the destination modifier adds to the mnemonic. */
  function DstModText(mod: nat): string
  {
    if mod == 1 then "_SAT" else if mod == 2 then "_PARTIAL" else if mod == 3 then "_CENTROID" else ""
  }

  /** Source operands i..src-1 of an instruction whose last token read is at pos: each on the next token, after `,` unless it is the first operand, and a space; the cursor stops at the end of the stream. */
  function Sources(data: seq<uint32>, pos: nat, dst: bool, i: nat, src: nat): (d: Decoded)
    ensures !d.pastEnd && d.next > pos
    decreases src - i
  {
    if i >= src || pos + 1 >= |data| then Decoded("", pos + 1, false)
    else
      var rest := Sources(data, pos + 1, dst, i + 1, src);
      Decoded((if dst || i != 0 then "," else "") + " " + SrcText(data[pos + 1], true) + rest.text, rest.next, false)
  }

  /** The destination part of an instruction: the modifier's suffix to the mnemonic, a space, the register with its write mask. */
  function DstPart(t: uint32): string
  {
    DstModText(DstMod(t)) + " " + DstText(t, true)
  }

  /** `decode_dx9_instr`: the mnemonic, the destination with its modifier when there is one, the sources; the cursor moves past the operands. */
  function InstrDecode(mnemonic: string, data: seq<uint32>, pos: nat, dst: bool, src: nat): (d: Decoded)
    requires pos < |data|
  {
    if !dst then
      var s := Sources(data, pos, false, 0, src);
      Decoded(mnemonic + s.text, s.next, false)
    else if pos + 1 >= |data| then Decoded(mnemonic, pos + 1, false)
    else
      var s := Sources(data, pos + 1, true, 0, src);
      Decoded(mnemonic + DstPart(data[pos + 1]) + s.text, s.next, false)
  }

  lemma {:induction false} SourcesConsume(data: seq<uint32>, pos: nat, dst: bool, i: nat, src: nat)
    requires pos < |data| && i <= src
    ensures Sources(data, pos, dst, i, src).next == Min(pos + 1 + (src - i), |data|)
    decreases src - i
  {
    if i < src && pos + 1 < |data| {
      SourcesConsume(data, pos + 1, dst, i + 1, src);
    }
  }

  /** An instruction consumes its opcode token, its destination token if it has one and its source tokens, or stops at the end of the stream; it never reads past it. */
  lemma InstrConsumes(mnemonic: string, data: seq<uint32>, pos: nat, dst: bool, src: nat)
    requires pos < |data|
    ensures var d := InstrDecode(mnemonic, data, pos, dst, src);
            !d.pastEnd && d.next == Min(pos + 1 + (if dst then 1 else 0) + src, |data|)
  {
    if dst {
      if pos + 1 < |data| {
        SourcesConsume(data, pos + 1, true, 0, src);
      }
    } else {
      SourcesConsume(data, pos, false, 0, src);
    }
  }

  /** The destination part of `decode_dx9_instr`. */
  method DecodeDst(b: TextBuffer, t: uint32)
    requires b.Valid()
    modifies b
    ensures b.Valid() && b.written == old(b.written) + DstPart(t)
  {
    ghost var start := b.written;
    var mod := DstMod(t);
    b.Append(DstModText(mod));
    b.Append(" ");
    AppendAssoc(start, DstModText(mod), " ");
    DecodeOperandDst(b, t, true);
    AppendAssoc(start, DstModText(mod) + " ", DstText(t, true));
  }

  /** One source operand of `decode_dx9_instr`: the separator and the operand. */
  method DecodeSource(b: TextBuffer, t: uint32, comma: bool)
    requires b.Valid()
    modifies b
    ensures b.Valid() && b.written == old(b.written) + ((if comma then "," else "") + " " + SrcText(t, true))
  {
    ghost var start := b.written;
    ghost var sep := if comma then "," else "";
    if comma {
      b.Append(",");
    }
    assert b.written == start + sep;
    b.Append(" ");
    AppendAssoc(start, sep, " ");
    DecodeOperandSrc(b, t, true);
    AppendAssoc(start, sep + " ", SrcText(t, true));
  }

  /** One pass of the loop over the sources of `decode_dx9_instr`: move to the next token and, unless that is the end of the stream, print the operand there. */
  method SourceStep(b: TextBuffer, data: seq<uint32>, pos: nat, dst: bool, i: nat, src: nat) returns (next: nat, stop: bool)
    requires b.Valid() && pos < |data| && i < src
    modifies b
    ensures b.Valid() && next == pos + 1 && (stop <==> next >= |data|)
    ensures stop ==> b.written == old(b.written) && Sources(data, pos, dst, i, src) == Decoded("", next, false)
    ensures !stop ==> var rest := Sources(data, next, dst, i + 1, src);
                      b.written + rest.text == old(b.written) + Sources(data, pos, dst, i, src).text &&
                      rest.next == Sources(data, pos, dst, i, src).next
  {
    next := pos + 1;
    if next >= |data| {
      return next, true;
    }
    ghost var rest := Sources(data, next, dst, i + 1, src);
    ghost var operand := (if dst || i != 0 then "," else "") + " " + SrcText(data[next], true);
    assert Sources(data, pos, dst, i, src) == Decoded(operand + rest.text, rest.next, false);
    DecodeSource(b, data[next], dst || i != 0);
    AppendAssoc(old(b.written), operand, rest.text);
    stop := false;
  }

  /** The loop over the source operands of `decode_dx9_instr`, after the token at pos. */
  method DecodeSources(b: TextBuffer, data: seq<uint32>, pos: nat, dst: bool, src: nat) returns (next: nat)
    requires b.Valid() && pos < |data|
    modifies b
    ensures b.Valid() && b.written == old(b.written) + Sources(data, pos, dst, 0, src).text
    ensures next == Sources(data, pos, dst, 0, src).next
  {
    ghost var whole := Sources(data, pos, dst, 0, src);
    ghost var start := b.written;
    next := pos;
    var i := 0;
    while i < src
      invariant b.Valid() && next == pos + i && next < |data|
      invariant b.written + Sources(data, next, dst, i, src).text == start + whole.text
      invariant whole.next == Sources(data, next, dst, i, src).next
      decreases src - i
    {
      var stop;
      next, stop := SourceStep(b, data, next, dst, i, src);
      if stop {
        assert b.written + "" == b.written;
        return;
      }
      i := i + 1;
    }
    next := next + 1;
  }

  /** `decode_dx9_instr`. */
  method DecodeInstr(b: TextBuffer, mnemonic: string, data: seq<uint32>, pos: nat, dst: bool, src: nat) returns (next: nat)
    requires b.Valid() && pos < |data|
    modifies b
    ensures b.Valid() && b.written == old(b.written) + InstrDecode(mnemonic, data, pos, dst, src).text
    ensures next == InstrDecode(mnemonic, data, pos, dst, src).next
  {
    ghost var start := b.written;
    b.Append(mnemonic);
    next := pos;
    if dst {
      next := next + 1;
      if next >= |data| {
        return;
      }
      DecodeDst(b, data[next]);
      AppendAssoc(start, mnemonic, DstPart(data[next]));
      ghost var head := mnemonic + DstPart(data[next]);
      next := DecodeSources(b, data, next, true, src);
      AppendAssoc(start, head, Sources(data, pos + 1, true, 0, src).text);
    } else {
      next := DecodeSources(b, data, next, false, src);
      AppendAssoc(start, mnemonic, Sources(data, pos, false, 0, src).text);
    }
  }

  // ---------------------------------------------------------------------
  // Constants and declarations
  // ---------------------------------------------------------------------

  /** One `, %f` of a constant definition, the float's text given by `formatFloat` (`%f` of the token's bits). */
  function FloatText(formatFloat: uint32 -> string, t: uint32): string
  {
    ", " + formatFloat(t)
  }

  /** `decode_dx9_def`: a register and four floats; with fewer than five tokens left it writes nothing and leaves the cursor where it was, and with exactly five its last read is past the end. */
  function DefDecode(data: seq<uint32>, pos: nat, formatFloat: uint32 -> string): (d: Decoded)
    requires pos < |data|
  {
    if |data| - pos < 5 then Decoded("", pos, false)
    else
      var head := "DEF " + OperandText(data[pos + 1], "") + FloatText(formatFloat, data[pos + 2]) +
                  FloatText(formatFloat, data[pos + 3]) + FloatText(formatFloat, data[pos + 4]);
      if |data| - pos == 5 then Decoded(head, pos + 5, true)
      else Decoded(head + FloatText(formatFloat, data[pos + 5]), pos + 6, false)
  }

  /** `decode_dx9_def`. */
  method DecodeDef(b: TextBuffer, data: seq<uint32>, pos: nat, formatFloat: uint32 -> string) returns (next: nat, pastEnd: bool)
    requires b.Valid() && pos < |data|
    modifies b
    ensures b.Valid() && b.written == old(b.written) + DefDecode(data, pos, formatFloat).text
    ensures next == DefDecode(data, pos, formatFloat).next && pastEnd == DefDecode(data, pos, formatFloat).pastEnd
  {
    next, pastEnd := pos, false;
    if |data| - pos < 5 {
      return;
    }
    ghost var start := b.written;
    b.Append("DEF ");
    next := next + 1;
    DecodeOperand(b, data[next], "");
    ghost var head := "DEF " + OperandText(data[next], "");
    AppendAssoc(start, "DEF ", OperandText(data[next], ""));
    next := next + 1;
    b.Append(FloatText(formatFloat, data[next]));
    AppendAssoc(start, head, FloatText(formatFloat, data[next]));
    head := head + FloatText(formatFloat, data[next]);
    next := next + 1;
    b.Append(FloatText(formatFloat, data[next]));
    AppendAssoc(start, head, FloatText(formatFloat, data[next]));
    head := head + FloatText(formatFloat, data[next]);
    next := next + 1;
    b.Append(FloatText(formatFloat, data[next]));
    AppendAssoc(start, head, FloatText(formatFloat, data[next]));
    head := head + FloatText(formatFloat, data[next]);
    next := next + 1;
    if next >= |data| {
      // the fourth float is read from the token at the end of the stream
      pastEnd := true;
      return;
    }
    b.Append(FloatText(formatFloat, data[next]));
    AppendAssoc(start, head, FloatText(formatFloat, data[next]));
    next := next + 1;
  }

  /** The texture type names of `decode_dx9_dcl_sampler`; other types print nothing. */
  function TextureName(tt: nat): string
  {
    if tt == 0 then "unknown" else if tt == 1 then "2d" else if tt == 2 then "cube" else if tt == 3 then "volume" else ""
  }

  /** The usage names of `decode_dx9_dcl_attribute`, spelt as the disassembler spells them; other usages print nothing. */
  function UsageName(u: nat): string
  {
    if u < 14 then
      ["position", "blendweight", "blendindices", "normal", "psize", "texcoord", "tangent",
       "binormal", "tessfactor", "posititiont", "color", "fog", "depth", "sample"][u]
    else ""
  }

  /** The register token of a declaration, two after its opcode: the register with its write mask, or a read past the end. */
  function DeclRegister(data: seq<uint32>, pos: nat): (d: Decoded)
    requires pos + 2 <= |data|
  {
    if pos + 2 == |data| then Decoded("", pos + 2, true)
    else Decoded(DstText(data[pos + 2], true), pos + 3, false)
  }

  /** `decode_dx9_dcl_sampler`: `DCL_` and the texture type, then the sampler register. */
  function SamplerDecode(data: seq<uint32>, pos: nat): (d: Decoded)
    requires pos <= |data|
  {
    if |data| - pos < 2 then Decoded("", pos, false)
    else
      var r := DeclRegister(data, pos);
      Decoded("DCL_" + TextureName(TextureType(data[pos + 1])) + " " + r.text, r.next, r.pastEnd)
  }

  /** `decode_dx9_dcl_attribute`: `DCL_`, the usage and its index, then the input or output register. */
  function AttributeDecode(data: seq<uint32>, pos: nat): (d: Decoded)
    requires pos <= |data|
  {
    if |data| - pos < 2 then Decoded("", pos, false)
    else
      var r := DeclRegister(data, pos);
      Decoded("DCL_" + UsageName(Usage(data[pos + 1])) + Dec(UsageIndex(data[pos + 1])) + " " + r.text, r.next, r.pastEnd)
  }

  /** `decode_dx9_dcl`: the register type is read from the third token before anything else; a sampler declaration is followed by an attribute declaration read from the tokens after it. */
  function DclDecode(data: seq<uint32>, pos: nat): (d: Decoded)
    requires pos < |data|
  {
    if |data| - pos < 2 then Decoded("", pos, false)
    else if pos + 2 == |data| then Decoded("", pos + 2, true)
    else if RegType(data[pos + 2]) == 10 then
      var s := SamplerDecode(data, pos);
      var a := AttributeDecode(data, pos + 3);
      Decoded(s.text + a.text, a.next, a.pastEnd)
    else AttributeDecode(data, pos)
  }

  /** The register part shared by both declarations: the mask goes through an 8-byte buffer, which it always fits. */
  method DecodeDeclRegister(b: TextBuffer, data: seq<uint32>, pos: nat) returns (next: nat, pastEnd: bool)
    requires b.Valid() && pos + 2 <= |data|
    modifies b
    ensures b.Valid() && b.written == old(b.written) + DeclRegister(data, pos).text
    ensures next == DeclRegister(data, pos).next && pastEnd == DeclRegister(data, pos).pastEnd
  {
    next := pos + 2;
    if next >= |data| {
      // the register token is read from the end of the stream
      return next, true;
    }
    var mask := new TextBuffer(8);
    DecodeWriteMask(mask, data[next]);
    WriteMaskRoundTrip(data[next]);
    FitBounds(WriteMaskText(data[next]), 8);
    assert mask.text == WriteMaskText(data[next]);
    DecodeOperand(b, data[next], mask.text);
    next, pastEnd := next + 1, false;
  }

  /** `decode_dx9_dcl_sampler`. */
  method DecodeDclSampler(b: TextBuffer, data: seq<uint32>, pos: nat) returns (next: nat, pastEnd: bool)
    requires b.Valid() && pos <= |data|
    modifies b
    ensures b.Valid() && b.written == old(b.written) + SamplerDecode(data, pos).text
    ensures next == SamplerDecode(data, pos).next && pastEnd == SamplerDecode(data, pos).pastEnd
  {
    if |data| - pos < 2 {
      return pos, false;
    }
    ghost var start := b.written;
    var head := "DCL_" + TextureName(TextureType(data[pos + 1])) + " ";
    b.Append(head);
    next, pastEnd := DecodeDeclRegister(b, data, pos);
    AppendAssoc(start, head, DeclRegister(data, pos).text);
  }

  /** `decode_dx9_dcl_attribute`. */
  method DecodeDclAttribute(b: TextBuffer, data: seq<uint32>, pos: nat) returns (next: nat, pastEnd: bool)
    requires b.Valid() && pos <= |data|
    modifies b
    ensures b.Valid() && b.written == old(b.written) + AttributeDecode(data, pos).text
    ensures next == AttributeDecode(data, pos).next && pastEnd == AttributeDecode(data, pos).pastEnd
  {
    if |data| - pos < 2 {
      return pos, false;
    }
    ghost var start := b.written;
    var head := "DCL_" + UsageName(Usage(data[pos + 1])) + Dec(UsageIndex(data[pos + 1])) + " ";
    b.Append(head);
    next, pastEnd := DecodeDeclRegister(b, data, pos);
    AppendAssoc(start, head, DeclRegister(data, pos).text);
  }

  /** `decode_dx9_dcl`. */
  method DecodeDcl(b: TextBuffer, data: seq<uint32>, pos: nat) returns (next: nat, pastEnd: bool)
    requires b.Valid() && pos < |data|
    modifies b
    ensures b.Valid() && b.written == old(b.written) + DclDecode(data, pos).text
    ensures next == DclDecode(data, pos).next && pastEnd == DclDecode(data, pos).pastEnd
  {
    if |data| - pos < 2 {
      return pos, false;
    }
    if pos + 2 >= |data| {
      // the register type is read from the end of the stream
      return pos + 2, true;
    }
    if RegType(data[pos + 2]) == 10 {
      ghost var start := b.written;
      next, pastEnd := DecodeDclSampler(b, data, pos);
      next, pastEnd := DecodeDclAttribute(b, data, next);
      AppendAssoc(start, SamplerDecode(data, pos).text, AttributeDecode(data, pos + 3).text);
    } else {
      next, pastEnd := DecodeDclAttribute(b, data, pos);
    }
  }

  /** A declaration leaves the cursor where it was exactly when fewer than two tokens are left, and reads past the end exactly when two are left, or five after a sampler register. */
  lemma DclCases(data: seq<uint32>, pos: nat)
    requires pos < |data|
    ensures var d := DclDecode(data, pos);
            (!d.pastEnd && d.next == pos <==> |data| - pos < 2) &&
            (d.pastEnd <==> |data| - pos == 2 || (|data| - pos == 5 && RegType(data[pos + 2]) == 10)) &&
            (!d.pastEnd && |data| - pos >= 2 ==> pos + 3 <= d.next <= pos + 6 && d.next <= |data|)
  {
  }

  /** A constant definition leaves the cursor where it was exactly when fewer than five tokens are left, reads past the end exactly when five are left, and otherwise takes six tokens. */
  lemma DefCases(data: seq<uint32>, pos: nat, formatFloat: uint32 -> string)
    requires pos < |data|
    ensures var d := DefDecode(data, pos, formatFloat);
            (!d.pastEnd && d.next == pos <==> |data| - pos < 5) &&
            (d.pastEnd <==> |data| - pos == 5) &&
            (|data| - pos > 5 ==> !d.pastEnd && d.next == pos + 6)
  {
  }

  // ---------------------------------------------------------------------
  // The opcode table
  // ---------------------------------------------------------------------

  /** What the listing does with an opcode: an instruction with its mnemonic, whether it has a destination and how many sources; a declaration; a constant definition; the end token; or an opcode it skips. */
  datatype Kind = Op(mnemonic: string, dst: bool, src: nat) | Dcl | Def | End | Other

  /** The `switch (opcode)` of `decode_dx9_shader` as Direct3D 9 numbers the opcodes: opcode 14 is `EXP`. The listing uses the table as written (`InstructionAsWritten`), which differs at opcode 14 only. */
  function Instruction(op: nat, major: nat, minor: nat): Kind
  {
    match op
    case 0 => Op("NOP", false, 0)
    case 1 => Op("MOV", true, 1)
    case 2 => Op("ADD", true, 2)
    case 3 => Op("SUB", true, 2)
    case 4 => Op("MAD", true, 3)
    case 5 => Op("MUL", true, 2)
    case 6 => Op("RCP", true, 1)
    case 7 => Op("RSQ", true, 1)
    case 8 => Op("DP3", true, 2)
    case 9 => Op("DP4", true, 2)
    case 10 => Op("MIN", true, 2)
    case 11 => Op("MAX", true, 2)
    case 12 => Op("SLT", true, 2)
    case 13 => Op("SGE", true, 2)
    case 14 => Op("EXP", true, 1)
    case 15 => Op("LOG", true, 1)
    case 16 => Op("LIT", true, 1)
    case 17 => Op("DST", true, 2)
    case 18 => Op("LRP", true, 3)
    case 19 => Op("FRC", true, 1)
    case 20 => Op("M4X4", true, 2)
    case 21 => Op("M4X3", true, 2)
    case 22 => Op("M3X4", true, 2)
    case 23 => Op("M3X3", true, 2)
    case 24 => Op("M3X2", true, 2)
    case 25 => Op("CALL", false, 1)
    case 26 => Op("CALLNZ", false, 2)
    case 27 => Op("LOOP", false, 2)
    case 28 => Op("RET", false, 0)
    case 29 => Op("ENDLOOP", false, 0)
    case 30 => Op("LABEL", false, 1)
    case 31 => Dcl
    case 32 => Op("POW", true, 2)
    case 33 => Op("CRS", true, 2)
    case 34 => Op("SIGN", true, 3)
    case 35 => Op("ABS", true, 1)
    case 36 => Op("NRM", true, 1)
    case 37 => Op("SINCOS", true, 3)
    case 38 => Op("REP", false, 1)
    case 39 => Op("ENDREP", false, 0)
    case 46 => Op("MOVA", true, 1)
    case 66 => if major >= 2 then Op("TEXID", true, 2) else if minor == 4 then Op("TEXID", true, 1) else Op("TEX", false, 1)
    case 81 => Def
    case 65533 => Op("PHASE", false, 0)
    case 65535 => End
    case _ => Other
  }

  /** The table as the disassembler has it: opcode 14 printed with opcode 12's mnemonic. */
  function InstructionAsWritten(op: nat, major: nat, minor: nat): Kind
  {
    if op == 14 then Op("SLT", true, 1) else Instruction(op, major, minor)
  }

  /** Whether the table prints opcode op with mnemonic m. */
  predicate Prints(op: nat, major: nat, minor: nat, m: string)
  {
    Instruction(op, major, minor).Op? && Instruction(op, major, minor).mnemonic == m
  }

  /** In the corrected table, `SLT` names opcode 12 only and `EXP` opcode 14 only. */
  lemma ComparisonAndExpDistinct(op: nat, major: nat, minor: nat)
    ensures Prints(op, major, minor, "SLT") <==> op == 12
    ensures Prints(op, major, minor, "EXP") <==> op == 14
  {
  }

  /** As written, opcode 14 prints with opcode 12's mnemonic, though it takes one source where opcode 12 takes two. */
  lemma Opcode14PrintsAsSlt(major: nat, minor: nat)
    ensures InstructionAsWritten(14, major, minor).mnemonic == InstructionAsWritten(12, major, minor).mnemonic == "SLT"
    ensures InstructionAsWritten(14, major, minor).src == 1 && InstructionAsWritten(12, major, minor).src == 2
  {
  }

  /** Opcode 14 is the only entry the correction changes. */
  lemma InstructionCorrection(op: nat, major: nat, minor: nat)
    ensures op != 14 ==> InstructionAsWritten(op, major, minor) == Instruction(op, major, minor)
    ensures Instruction(14, major, minor) == Op("EXP", true, 1)
  {
  }

  // ---------------------------------------------------------------------
  // Lines and the listing
  // ---------------------------------------------------------------------

  /**
   * One iteration of the loop of `decode_dx9_shader` on the token at i: what
   * it writes into the line buffer and where it leaves the cursor. The
   * opcode is looked up in the table as written (opcode 14 prints `SLT`).
   * For an opcode outside the table the line buffer is taken to be empty;
   * the code leaves it uninitialised (see `LineTextAsWritten`).
   */
  function LineStep(data: seq<uint32>, i: nat, major: nat, minor: nat, formatFloat: uint32 -> string): (d: Decoded)
    requires i < |data|
  {
    match InstructionAsWritten(Opcode(data[i]), major, minor)
    case Op(m, dst, src) => InstrDecode(m, data, i, dst, src)
    case Dcl => DclDecode(data, i)
    case Def => DefDecode(data, i, formatFloat)
    case End => Decoded("END", i + 1, false)
    case Other => Decoded("", i + 1, false)
  }

  /** The comment closing a listing line: the opcode, the instruction length and the whole opcode token. */
  function Comment(data: seq<uint32>, i: nat): string
    requires i < |data|
  {
    "; opcode: " + CommentFields(data, i) + "\n"
  }

  /** `%#6x, len: %2u, val: %#10x` of the opcode, the instruction length and the opcode token. */
  function CommentFields(data: seq<uint32>, i: nat): string
    requires i < |data|
  {
    AltHex(Opcode(data[i]), 6) + ", len: " + PadLeft(Dec(InstLength(data[i])), 2) + ", val: " + AltHex(data[i], 10)
  }

  /** A listing line: the line buffer's contents (127 characters at most) padded with spaces to 60, then the comment. */
  function LineText(data: seq<uint32>, i: nat, line: string): string
    requires i < |data|
  {
    PadRight(Fit(line, 128), 60) + Comment(data, i)
  }

  /** How the listing ends: at the end of the stream, in a loop that no longer moves the cursor (at that token), or at a read past the end of the stream (made while decoding that token). */
  datatype Outcome = Finished | Hangs(at: nat) | ReadsPastEnd(at: nat)

  datatype Listing = Listing(text: string, outcome: Outcome)

  /** The lines from the token at i on. */
  function Lines(data: seq<uint32>, major: nat, minor: nat, formatFloat: uint32 -> string, i: nat): Listing
    decreases |data| - i
  {
    if i >= |data| then Listing("", Finished)
    else
      var d := LineStep(data, i, major, minor, formatFloat);
      if d.pastEnd then Listing("", ReadsPastEnd(i))
      else if d.next <= i then Listing("", Hangs(i))
      else
        var rest := Lines(data, major, minor, formatFloat, d.next);
        Listing(LineText(data, i, d.text) + rest.text, rest.outcome)
  }

  /** The header line naming the shader kind and version, or nothing for a token that is neither a pixel nor a vertex shader version. */
  function Header(version: uint32): string
  {
    var kind := ShaderKind(version);
    var name := if kind == 0xFFFF then "ps_" else if kind == 0xFFFE then "vs_" else "";
    if name == "" then "" else name + Dec(VersionMajor(version)) + "_" + Dec(VersionMinor(version)) + "\n"
  }

  /** `decode_dx9_shader` on the tokens of the shader (`size / 4` of them): nothing for an empty stream or an unknown version token, otherwise the header and the lines after it. */
  function Shader(data: seq<uint32>, formatFloat: uint32 -> string): Listing
  {
    if |data| == 0 || Header(data[0]) == "" then Listing("", Finished)
    else
      var rest := Lines(data, VersionMajor(data[0]), VersionMinor(data[0]), formatFloat, 1);
      Listing(Header(data[0]) + rest.text, rest.outcome)
  }

  /** The padding loop: spaces from the end of the line up to column 60. */
  method PadLine(line: string) returns (padded: string)
    ensures padded == PadRight(line, 60)
  {
    padded := line;
    var j := |line|;
    assert line + Spaces(0) == line;
    while j < 60
      invariant |line| <= j <= (if |line| < 60 then 60 else |line|)
      invariant padded == line + Spaces(j - |line|)
    {
      AppendAssoc(line, Spaces(j - |line|), " ");
      padded := padded + " ";
      j := j + 1;
    }
  }

  /** The `switch (opcode)` of the loop: decodes the instruction at i into the line buffer, with the table as written. */
  method DecodeLine(line: TextBuffer, data: seq<uint32>, i: nat, major: nat, minor: nat, formatFloat: uint32 -> string)
    returns (next: nat, pastEnd: bool)
    requires line.Valid() && i < |data|
    modifies line
    ensures line.Valid() && line.written == old(line.written) + LineStep(data, i, major, minor, formatFloat).text
    ensures next == LineStep(data, i, major, minor, formatFloat).next
    ensures pastEnd == LineStep(data, i, major, minor, formatFloat).pastEnd
  {
    pastEnd := false;
    match InstructionAsWritten(Opcode(data[i]), major, minor) {
      case Op(m, dst, src) =>
        next := DecodeInstr(line, m, data, i, dst, src);
      case Dcl =>
        next, pastEnd := DecodeDcl(line, data, i);
      case Def =>
        next, pastEnd := DecodeDef(line, data, i, formatFloat);
      case End =>
        line.Append("END");
        next := i + 1;
      case Other =>
        next := i + 1;
    }
  }

  /**
   * One pass of the loop of `decode_dx9_shader` on the token at i: decode
   * it into a fresh 128-byte line buffer, pad the line and append it with
   * its comment. The pass stops the listing instead when the instruction
   * read past the end of the stream or left the cursor where it was.
   */
  method ListLine(out: TextBuffer, data: seq<uint32>, i: nat, major: nat, minor: nat, formatFloat: uint32 -> string)
    returns (next: nat, stopped: bool, outcome: Outcome)
    requires out.Valid() && i < |data|
    modifies out
    ensures out.Valid()
    ensures stopped ==> out.written == old(out.written) && Lines(data, major, minor, formatFloat, i) == Listing("", outcome)
    ensures !stopped ==> var rest := Lines(data, major, minor, formatFloat, next);
                         next > i && out.written + rest.text == old(out.written) + Lines(data, major, minor, formatFloat, i).text &&
                         rest.outcome == Lines(data, major, minor, formatFloat, i).outcome
  {
    var line := new TextBuffer(128);
    var opcode, instlen := Opcode(data[i]), InstLength(data[i]);
    var pastEnd;
    next, pastEnd := DecodeLine(line, data, i, major, minor, formatFloat);
    if pastEnd {
      return next, true, ReadsPastEnd(i);
    }
    if next <= i {
      return next, true, Hangs(i);
    }
    var padded := PadLine(line.text);
    ghost var before := out.written;
    ghost var lineText := LineText(data, i, LineStep(data, i, major, minor, formatFloat).text);
    assert line.written == LineStep(data, i, major, minor, formatFloat).text;
    var comment := "; opcode: " + (AltHex(opcode, 6) + ", len: " + PadLeft(Dec(instlen), 2) +
                   ", val: " + AltHex(data[i], 10)) + "\n";
    out.Append(padded + comment);
    AppendAssoc(before, lineText, Lines(data, major, minor, formatFloat, next).text);
    stopped, outcome := false, Finished;
  }

  /** The loop of `decode_dx9_shader`, from the token after the version token to the end of the stream or until the listing stops. */
  method ListLines(out: TextBuffer, data: seq<uint32>, major: nat, minor: nat, formatFloat: uint32 -> string) returns (outcome: Outcome)
    requires out.Valid()
    modifies out
    ensures out.Valid() && out.written == old(out.written) + Lines(data, major, minor, formatFloat, 1).text
    ensures outcome == Lines(data, major, minor, formatFloat, 1).outcome
  {
    ghost var whole := Lines(data, major, minor, formatFloat, 1);
    ghost var start := out.written;
    var i := 1;
    while i < |data|
      invariant 1 <= i && out.Valid()
      invariant out.written + Lines(data, major, minor, formatFloat, i).text == start + whole.text
      invariant whole.outcome == Lines(data, major, minor, formatFloat, i).outcome
      decreases |data| - i
    {
      var next, stopped, o := ListLine(out, data, i, major, minor, formatFloat);
      if stopped {
        assert out.written + "" == out.written;
        return o;
      }
      i := next;
    }
    assert out.written + "" == out.written;
    return Finished;
  }

  /** `decode_dx9_shader` into a buffer of `bufferSize` bytes: the buffer holds as much of the listing as fits, and the outcome says how the listing ended. */
  method DecodeShader(data: seq<uint32>, bufferSize: nat, formatFloat: uint32 -> string) returns (text: string, outcome: Outcome)
    ensures text == Fit(Shader(data, formatFloat).text, bufferSize)
    ensures outcome == Shader(data, formatFloat).outcome
  {
    var out := new TextBuffer(bufferSize);
    if |data| == 0 {
      return out.text, Finished;
    }
    var major, minor := VersionMajor(data[0]), VersionMinor(data[0]);
    var kind := ShaderKind(data[0]);
    if kind == 0xFFFF {
      out.Append("ps_" + Dec(major) + "_" + Dec(minor) + "\n");
    } else if kind == 0xFFFE {
      out.Append("vs_" + Dec(major) + "_" + Dec(minor) + "\n");
    } else {
      return out.text, Finished;
    }
    assert out.written == Header(data[0]);
    outcome := ListLines(out, data, major, minor, formatFloat);
    text := out.text;
  }

  // ---------------------------------------------------------------------
  // Properties of the listing
  // ---------------------------------------------------------------------

  /** A line starts with what the decoder wrote (as much as the 128-byte line buffer holds), padded to at least 60 columns before the comment. */
  lemma LineLayout(data: seq<uint32>, i: nat, line: string)
    requires i < |data|
    ensures var body := PadRight(Fit(line, 128), 60); var c := Comment(data, i);
            LineText(data, i, line) == body + c && |Fit(line, 128)| <= 127 &&
            |body| >= 60 && body[..|Fit(line, 128)|] == Fit(line, 128) &&
            |c| > 10 && c[..10] == "; opcode: " && c[|c| - 1] == '\n'
  {
    FitBounds(line, 128);
    CommentShape(CommentFields(data, i));
  }

  /** A comment line starts with `; opcode: ` and ends with a newline, whatever its fields. */
  lemma CommentShape(fields: string)
    ensures var c := "; opcode: " + fields + "\n";
            |c| > 10 && c[..10] == "; opcode: " && c[|c| - 1] == '\n'
  {
    var head := "; opcode: " + fields;
    assert head[..10] == "; opcode: ";
    assert (head + "\n")[..10] == head[..10];
  }

  /** The cursor never moves backwards unless the stream is read past its end, and it stays in place exactly for a constant definition with fewer than five tokens left or a declaration with fewer than two. */
  lemma LineProgress(data: seq<uint32>, i: nat, major: nat, minor: nat, formatFloat: uint32 -> string)
    requires i < |data|
    ensures var d := LineStep(data, i, major, minor, formatFloat);
            var k := InstructionAsWritten(Opcode(data[i]), major, minor);
            (!d.pastEnd ==> i <= d.next <= |data|) &&
            (!d.pastEnd && d.next == i <==> (k == Def && |data| - i < 5) || (k == Dcl && |data| - i < 2))
  {
    var k := InstructionAsWritten(Opcode(data[i]), major, minor);
    match k {
      case Op(m, dst, src) => InstrConsumes(m, data, i, dst, src);
      case Dcl => DclCases(data, i);
      case Def => DefCases(data, i, formatFloat);
      case End =>
      case Other =>
    }
  }

  /** The stream is read past its end exactly by a constant definition with five tokens left, a declaration with two, or a sampler declaration with five. */
  lemma LinePastEnd(data: seq<uint32>, i: nat, major: nat, minor: nat, formatFloat: uint32 -> string)
    requires i < |data|
    ensures var k := InstructionAsWritten(Opcode(data[i]), major, minor);
            LineStep(data, i, major, minor, formatFloat).pastEnd <==>
              (k == Def && |data| - i == 5) ||
              (k == Dcl && (|data| - i == 2 || (|data| - i == 5 && RegType(data[i + 2]) == 10)))
  {
    var k := InstructionAsWritten(Opcode(data[i]), major, minor);
    match k {
      case Op(m, dst, src) => InstrConsumes(m, data, i, dst, src);
      case Dcl => DclCases(data, i);
      case Def => DefCases(data, i, formatFloat);
      case End =>
      case Other =>
    }
  }

  /** The end token prints `END` and the listing goes on with the next token. */
  lemma EndContinues(data: seq<uint32>, major: nat, minor: nat, formatFloat: uint32 -> string, i: nat)
    requires i < |data| && Opcode(data[i]) == 0xFFFF
    ensures Lines(data, major, minor, formatFloat, i) ==
            var rest := Lines(data, major, minor, formatFloat, i + 1);
            Listing(LineText(data, i, "END") + rest.text, rest.outcome)
  {
    assert InstructionAsWritten(Opcode(data[i]), major, minor) == End;
    assert LineStep(data, i, major, minor, formatFloat) == Decoded("END", i + 1, false);
  }

  /** An opcode outside the table takes one token and prints a line with only the comment, the line buffer being taken as empty (the code leaves it uninitialised: `LineTextAsWritten`). */
  lemma UnknownSkipped(data: seq<uint32>, major: nat, minor: nat, formatFloat: uint32 -> string, i: nat)
    requires i < |data| && InstructionAsWritten(Opcode(data[i]), major, minor) == Other
    ensures Lines(data, major, minor, formatFloat, i) ==
            var rest := Lines(data, major, minor, formatFloat, i + 1);
            Listing(LineText(data, i, "") + rest.text, rest.outcome)
  {
  }

  /** A listing that does not reach the end of the stream stops at a constant definition or a declaration, at a token of the stream. */
  lemma {:induction false} OnlyDeclarationsStop(data: seq<uint32>, major: nat, minor: nat, formatFloat: uint32 -> string, i: nat)
    ensures var o := Lines(data, major, minor, formatFloat, i).outcome;
            !o.Finished? ==> i <= o.at < |data| && InstructionAsWritten(Opcode(data[o.at]), major, minor) in {Def, Dcl}
    decreases |data| - i
  {
    if i < |data| {
      var d := LineStep(data, i, major, minor, formatFloat);
      LineProgress(data, i, major, minor, formatFloat);
      LinePastEnd(data, i, major, minor, formatFloat);
      if !d.pastEnd && d.next > i {
        OnlyDeclarationsStop(data, major, minor, formatFloat, d.next);
      }
    }
  }

  /** A stream without constant definitions and declarations is listed to its end. */
  lemma PlainStreamFinishes(data: seq<uint32>, major: nat, minor: nat, formatFloat: uint32 -> string, i: nat)
    requires forall j :: 0 <= j < |data| ==> InstructionAsWritten(Opcode(data[j]), major, minor) !in {Def, Dcl}
    ensures Lines(data, major, minor, formatFloat, i).outcome == Finished
  {
    OnlyDeclarationsStop(data, major, minor, formatFloat, i);
  }

  /** The header: `ps_` or `vs_` with the major and minor version, and nothing at all for any other version token. */
  lemma HeaderCases(version: uint32)
    ensures var kind := ShaderKind(version);
            var numbers := Dec(VersionMajor(version)) + "_" + Dec(VersionMinor(version)) + "\n";
            (kind == 0xFFFF ==> Header(version) == "ps_" + numbers) &&
            (kind == 0xFFFE ==> Header(version) == "vs_" + numbers) &&
            (kind != 0xFFFF && kind != 0xFFFE ==> Header(version) == "")
  {
    var kind := ShaderKind(version);
    if kind == 0xFFFF || kind == 0xFFFE {
      var name := if kind == 0xFFFF then "ps_" else "vs_";
      var major, minor := Dec(VersionMajor(version)), Dec(VersionMinor(version));
      assert Header(version) == name + major + "_" + minor + "\n";
      AppendAssoc(name, major, "_");
      AppendAssoc(name, major + "_", minor);
      AppendAssoc(name, major + "_" + minor, "\n");
    }
  }

  /** A known version token's header line opens the listing. */
  lemma HeaderFirst(data: seq<uint32>, formatFloat: uint32 -> string)
    requires |data| > 0
    ensures var h := Header(data[0]);
            (h != "" ==> |h| <= |Shader(data, formatFloat).text| && Shader(data, formatFloat).text[..|h|] == h) &&
            (h == "" ==> Shader(data, formatFloat) == Listing("", Finished))
  {
    if Header(data[0]) != "" {
      var rest := Lines(data, VersionMajor(data[0]), VersionMinor(data[0]), formatFloat, 1);
      assert Shader(data, formatFloat).text == Header(data[0]) + rest.text;
    }
  }

  /** Opcode 14 is listed as a one-source `SLT`, as the code prints it. */
  lemma Opcode14Listed(data: seq<uint32>, i: nat, major: nat, minor: nat, formatFloat: uint32 -> string)
    requires i < |data| && Opcode(data[i]) == 14
    ensures LineStep(data, i, major, minor, formatFloat) == InstrDecode("SLT", data, i, true, 1)
    ensures Instruction(14, major, minor) == Op("EXP", true, 1)
  {
  }

  /**
   * The line as the code prints it. For an opcode outside the table nothing
   * is written into `line_buf`, which each pass declares without an
   * initialiser, and the padding then measures it with `strlen`: the line
   * is whatever the buffer's bytes held before their first NUL, given here
   * as `leftover`. Every other opcode prints `LineStep`'s text.
   */
  function LineTextAsWritten(data: seq<uint32>, i: nat, major: nat, minor: nat, formatFloat: uint32 -> string, leftover: string): string
    requires i < |data|
  {
    if InstructionAsWritten(Opcode(data[i]), major, minor) == Other then LineText(data, i, leftover)
    else LineText(data, i, LineStep(data, i, major, minor, formatFloat).text)
  }

  /**
   * For an opcode outside the table the printed line depends on what the
   * uninitialised buffer held: with nothing it is the comment padded from
   * column 60, as `UnknownSkipped` has it; with a previous line's `MOV`
   * still there, the line starts with `M`.
   */
  lemma UninitialisedLineWitness(data: seq<uint32>, i: nat, major: nat, minor: nat, formatFloat: uint32 -> string)
    requires i < |data| && InstructionAsWritten(Opcode(data[i]), major, minor) == Other
    ensures LineTextAsWritten(data, i, major, minor, formatFloat, "") == LineText(data, i, LineStep(data, i, major, minor, formatFloat).text)
    ensures LineTextAsWritten(data, i, major, minor, formatFloat, "")[0] == ' '
    ensures LineTextAsWritten(data, i, major, minor, formatFloat, "MOV")[0] == 'M'
  {
    assert Fit("", 128) == "";
    assert Fit("MOV", 128) == "MOV";
    assert PadRight("MOV", 60)[..3] == "MOV";
  }
}
