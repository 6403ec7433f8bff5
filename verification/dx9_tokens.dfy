/**
 * The fields of Direct3D 9 shader tokens and the text the disassembler
 * prints for them: swizzles, write masks, register operands and source
 * modifiers. Every token is a 32-bit word; a field is a run of its bits,
 * written here as division and remainder by powers of two.
 */
module Dx9Tokens {
  import opened Bits
  import opened Text

  // ---------------------------------------------------------------------
  // Token fields
  // ---------------------------------------------------------------------

  /** Bits 16..23: the source swizzle, four 2-bit selectors. */
  function SwizzleByte(t: uint32): nat { (t / 0x1_0000) % 0x100 }

  /** Bits 16..19: the destination write mask, one bit per component x, y, z, w. */
  function WriteMask(t: uint32): nat { (t / 0x1_0000) % 0x10 }

  /** Bits 28..30, with bits 11..12 as its bits 3..4: the register type. */
  function RegType(t: uint32): nat { (t / 0x1000_0000) % 8 + ((t / 0x800) % 4) * 8 }

  /** Bits 0..10: the register number. */
  function RegNum(t: uint32): nat { t % 0x800 }

  /** Bits 24..27: the source modifier. */
  function SrcMod(t: uint32): nat { (t / 0x100_0000) % 0x10 }

  /** Bits 20..23: the destination modifier. */
  function DstMod(t: uint32): nat { (t / 0x10_0000) % 0x10 }

  /** Bits 27..30: the sampler texture type. */
  function TextureType(t: uint32): nat { (t / 0x800_0000) % 0x10 }

  /** Bits 0..3 and 16..19 of a declaration token: the usage and the usage index. */
  function Usage(t: uint32): nat { t % 0x10 }
  function UsageIndex(t: uint32): nat { (t / 0x1_0000) % 0x10 }

  /** Bits 0..15 and 24..27 of an instruction token: the opcode and the instruction length. */
  function Opcode(t: uint32): nat { t % 0x1_0000 }
  function InstLength(t: uint32): nat { (t / 0x100_0000) % 0x10 }

  /** The version token: bits 16..31 say pixel (0xFFFF) or vertex (0xFFFE) shader, bits 8..15 and 0..7 the version. */
  function ShaderKind(t: uint32): nat { t / 0x1_0000 }
  function VersionMajor(t: uint32): nat { (t / 0x100) % 0x100 }
  function VersionMinor(t: uint32): nat { t % 0x100 }

  /** A parameter token with the given register type and number; `high` fills bit 31 and `middle` bits 13..27. */
  function ParamToken(high: nat, middle: nat, regType: nat, regNum: nat): nat
  {
    high * 0x8000_0000 + (regType % 8) * 0x1000_0000 + middle * 0x2000 + (regType / 8) * 0x800 + regNum
  }

  /** The register type and number are read back from the bits they are stored in, whatever the other bits hold. */
  lemma RegisterFields(high: nat, middle: nat, regType: nat, regNum: nat)
    requires high < 2 && middle < 0x8000 && regType < 32 && regNum < 0x800
    ensures ParamToken(high, middle, regType, regNum) < 0x1_0000_0000
    ensures RegType(ParamToken(high, middle, regType, regNum)) == regType
    ensures RegNum(ParamToken(high, middle, regType, regNum)) == regNum
  {
    var t := ParamToken(high, middle, regType, regNum);
    var lo := (regType / 8) * 0x800 + regNum;
    assert lo < 0x2000;
    DivModUnique(t, 0x1000_0000, high * 8 + regType % 8, middle * 0x2000 + lo);
    DivModUnique(t, 0x800, high * 0x10_0000 + (regType % 8) * 0x2_0000 + middle * 4 + regType / 8, regNum);
    DivModUnique(high * 8 + regType % 8, 8, high, regType % 8);
    DivModUnique(high * 0x10_0000 + (regType % 8) * 0x2_0000 + middle * 4 + regType / 8, 4,
                 high * 0x4_0000 + (regType % 8) * 0x8000 + middle, regType / 8);
  }

  // ---------------------------------------------------------------------
  // Swizzles and write masks
  // ---------------------------------------------------------------------

  /** `decode_dx9_swizzle_part`: selector 0..3 names component x, y, z or w. */
  function SwizzlePart(v: nat): string
  {
    if v == 0 then "x" else if v == 1 then "y" else if v == 2 then "z" else if v == 3 then "w" else ""
  }

  /** Selector k (0..3) of a swizzle byte: bits 2k, 2k+1. */
  function Selector(s: nat, k: nat): nat
  {
    if k == 0 then s % 4 else if k == 1 then (s / 4) % 4 else if k == 2 then (s / 16) % 4 else (s / 64) % 4
  }

  /** `decode_dx9_swizzle`: nothing for the identity `.xyzw` (0xE4), one letter when the four selectors agree, otherwise four letters. */
  function SwizzleText(t: uint32): string
  {
    var s := SwizzleByte(t);
    if s == 0xE4 then ""
    else if Selector(s, 0) == Selector(s, 1) == Selector(s, 2) == Selector(s, 3) then SwizzlePart(Selector(s, 0))
    else SwizzlePart(Selector(s, 0)) + SwizzlePart(Selector(s, 1)) + SwizzlePart(Selector(s, 2)) + SwizzlePart(Selector(s, 3))
  }

  /** The component a letter names, 0 for anything that is not x, y, z or w. */
  function Component(c: char): nat
  {
    if c == 'y' then 1 else if c == 'z' then 2 else if c == 'w' then 3 else 0
  }

  /** The swizzle byte a printed swizzle stands for: `.xyzw` when nothing is printed, a replicated selector for one letter. */
  function ParseSwizzle(s: string): nat
  {
    if |s| == 0 then 0xE4
    else if |s| < 4 then Component(s[0]) * 0x55
    else Component(s[0]) + 4 * Component(s[1]) + 16 * Component(s[2]) + 64 * Component(s[3])
  }

  /** A swizzle byte is its four selectors, x's lowest. */
  lemma SelectorsCompose(s: nat)
    requires s < 0x100
    ensures s == Selector(s, 0) + 4 * Selector(s, 1) + 16 * Selector(s, 2) + 64 * Selector(s, 3)
  {
    var q1, r0 := s / 4, s % 4;
    var q2, r1 := q1 / 4, q1 % 4;
    var q3, r2 := q2 / 4, q2 % 4;
    DivModUnique(s, 16, q2, r1 * 4 + r0);
    DivModUnique(s, 64, q3, r2 * 16 + r1 * 4 + r0);
    DivModUnique(q3, 4, 0, q3);
  }

  /** Each selector prints as one letter that names it. */
  lemma PartRoundTrip(v: nat)
    requires v < 4
    ensures |SwizzlePart(v)| == 1 && Component(SwizzlePart(v)[0]) == v
  {
  }

  /** The printed swizzle is empty, one letter or four letters, and it determines the swizzle byte. */
  lemma SwizzleRoundTrip(t: uint32)
    ensures |SwizzleText(t)| in {0, 1, 4}
    ensures ParseSwizzle(SwizzleText(t)) == SwizzleByte(t)
  {
    var s := SwizzleByte(t);
    var s0, s1, s2, s3 := Selector(s, 0), Selector(s, 1), Selector(s, 2), Selector(s, 3);
    SelectorsCompose(s);
    PartRoundTrip(s0);
    PartRoundTrip(s1);
    PartRoundTrip(s2);
    PartRoundTrip(s3);
    if s != 0xE4 && !(s0 == s1 == s2 == s3) {
      var p0, p1, p2, p3 := SwizzlePart(s0), SwizzlePart(s1), SwizzlePart(s2), SwizzlePart(s3);
      var text := p0 + p1 + p2 + p3;
      assert text[0] == p0[0] && text[1] == p1[0] && text[2] == p2[0] && text[3] == p3[0];
    }
  }

  /** `decode_dx9_write_mask`: nothing when all four components are written, otherwise the written ones in x, y, z, w order. */
  function WriteMaskText(t: uint32): string
  {
    var m := WriteMask(t);
    if m == 15 then ""
    else (if m % 2 == 1 then "x" else "") + (if (m / 2) % 2 == 1 then "y" else "") +
         (if (m / 4) % 2 == 1 then "z" else "") + (if (m / 8) % 2 == 1 then "w" else "")
  }

  /** The mask bits of the letters of a printed mask. */
  function ParseMask(s: string): nat
  {
    (if 'x' in s then 1 else 0) + (if 'y' in s then 2 else 0) + (if 'z' in s then 4 else 0) + (if 'w' in s then 8 else 0)
  }

  /** A printed write mask gives back the mask, except that the full mask prints like the empty one. */
  lemma WriteMaskRoundTrip(t: uint32)
    ensures WriteMask(t) != 15 ==> ParseMask(WriteMaskText(t)) == WriteMask(t)
    ensures WriteMask(t) == 15 ==> WriteMaskText(t) == ""
    ensures |WriteMaskText(t)| <= 4
  {
    var m := WriteMask(t);
    var b0, b1, b2, b3 := m % 2, (m / 2) % 2, (m / 4) % 2, (m / 8) % 2;
    assert m == b0 + 2 * b1 + 4 * b2 + 8 * b3;
    if m != 15 {
      var x, y, z, w := (if b0 == 1 then "x" else ""), (if b1 == 1 then "y" else ""),
                        (if b2 == 1 then "z" else ""), (if b3 == 1 then "w" else "");
      var text := x + y + z + w;
      assert ('x' in text <==> b0 == 1) && ('y' in text <==> b1 == 1) by {
        assert forall c :: c in text <==> c in x || c in y || c in z || c in w;
      }
      assert ('z' in text <==> b2 == 1) && ('w' in text <==> b3 == 1) by {
        assert forall c :: c in text <==> c in x || c in y || c in z || c in w;
      }
    }
  }

  // ---------------------------------------------------------------------
  // Register operands
  // ---------------------------------------------------------------------

  /** `.` and the swizzle or mask, when there is one (`if (swizzle[0])`). */
  function Dotted(swizzle: string): string
  {
    if swizzle == "" then "" else "." + swizzle
  }

  /** `decode_dx9_operand`: the register name by type, its number, and for the types that take one, the swizzle or mask. */
  function OperandText(t: uint32, swizzle: string): string
  {
    var n := RegNum(t);
    match RegType(t)
    case 0 => "r" + Dec(n) + Dotted(swizzle)
    case 1 => "v" + Dec(n) + Dotted(swizzle)
    case 2 => "c" + Dec(n) + Dotted(swizzle)
    case 3 => "t" + Dec(n)
    case 4 => "oFog" + Dec(n) + Dotted(swizzle)
    case 5 => "oPos" + Dec(n) + Dotted(swizzle)
    case 6 => "oT" + Dec(n) + Dotted(swizzle)
    case 7 => "i" + Dec(n) + Dotted(swizzle)
    case 8 => "oC" + Dec(n) + Dotted(swizzle)
    case 9 => "oDepth"
    case 10 => "s" + Dec(n)
    case 14 => "b" + Dec(n)
    case 15 => "aL"
    case 18 => "l" + Dec(n)
    case 19 => "p" + Dec(n)
    case _ => "unk(" + Dec(RegType(t)) + ")" + Dec(n)
  }

  /** The register types the disassembler names; every other type prints as `unk(<type>)`. */
  function RegisterName(rt: nat): string
  {
    ["r", "v", "c", "t", "oFog", "oPos", "oT", "i", "oC", "oDepth", "s", "", "", "", "b", "aL", "", "", "l", "p"][if rt < 20 then rt else 11]
  }

  predicate Named(rt: nat) { RegisterName(rt) != "" }

  /** Register types printed with their number: all but `oDepth` and `aL`. */
  predicate Numbered(rt: nat) { rt != 9 && rt != 15 }

  /** Register types printed with a swizzle or mask: r, v, c, oFog, oPos, oT, i and oC. */
  predicate Swizzled(rt: nat) { rt <= 8 && rt != 3 }

  /** The operand text is the register's name, its number unless the type has none, and the swizzle only for types that take one; unnamed types print their type number and no swizzle. */
  lemma OperandShape(t: uint32, swizzle: string)
    ensures var rt := RegType(t);
            OperandText(t, swizzle) ==
              (if Named(rt) then RegisterName(rt) else "unk(" + Dec(rt) + ")") +
              (if Numbered(rt) then Dec(RegNum(t)) else "") +
              (if Swizzled(rt) then Dotted(swizzle) else "")
  {
    var rt, n, d := RegType(t), Dec(RegNum(t)), Dotted(swizzle);
    var name := if Named(rt) then RegisterName(rt) else "unk(" + Dec(rt) + ")";
    if Swizzled(rt) {
      assert OperandText(t, swizzle) == name + n + d;
    } else if Numbered(rt) {
      assert OperandText(t, swizzle) == name + n;
      assert name + n + "" == name + n;
    } else {
      assert OperandText(t, swizzle) == name;
      assert name + "" + "" == name;
    }
  }

  // ---------------------------------------------------------------------
  // Source and destination operands
  // ---------------------------------------------------------------------

  /** The text a source modifier puts before the operand: a sign, and `abs(` for the absolute-value modifiers. */
  function ModPrefix(mod: nat): string
  {
    (if mod in {1, 3, 5, 8, 12} then "-" else if mod == 6 then "~" else if mod == 13 then "!" else "") +
    (if mod in {11, 12} then "abs(" else "")
  }

  /** The text a source modifier puts after the operand. */
  function ModSuffix(mod: nat): string
  {
    if mod in {2, 3} then "_bias"
    else if mod in {4, 5} then "_bx2"
    else if mod in {7, 8} then "_x2"
    else if mod == 9 then "_dz"
    else if mod == 10 then "_dw"
    else if mod in {11, 12} then ")"
    else ""
  }

  /** `decode_dx9_operand_src`: modifier decorations around the operand, with its swizzle when asked for. */
  function SrcText(t: uint32, displaySwizzle: bool): string
  {
    ModPrefix(SrcMod(t)) + OperandText(t, if displaySwizzle then SwizzleText(t) else "") + ModSuffix(SrcMod(t))
  }

  /** `decode_dx9_operand_dst`: the operand with its write mask when asked for. */
  function DstText(t: uint32, displaySwizzle: bool): string
  {
    OperandText(t, if displaySwizzle then WriteMaskText(t) else "")
  }

  /** The modifier the decorations around a source operand stand for; unknown decorations give 0. */
  function ParseModifier(prefix: string, suffix: string): nat
  {
    var neg := |prefix| > 0 && prefix[0] == '-';
    if prefix == "~" then 6
    else if prefix == "!" then 13
    else if suffix == ")" then (if neg then 12 else 11)
    else if suffix == "_bias" then (if neg then 3 else 2)
    else if suffix == "_bx2" then (if neg then 5 else 4)
    else if suffix == "_x2" then (if neg then 8 else 7)
    else if suffix == "_dz" then 9
    else if suffix == "_dw" then 10
    else if neg then 1
    else 0
  }

  /** The decorations identify the modifier: modifiers 0..13 all print differently, and 14 and 15 print like 0. */
  lemma ModifierRoundTrip(mod: nat)
    requires mod < 16
    ensures ParseModifier(ModPrefix(mod), ModSuffix(mod)) == (if mod < 14 then mod else 0)
    ensures ModPrefix(mod) != "" && ModPrefix(mod)[|ModPrefix(mod)| - 1] == '(' <==> ModSuffix(mod) == ")"
  {
  }
}
