/**
 * The instruction sets of the two decoders by opcode number: which opcodes have a ModRM operand, which
 * trailing field follows, and what the reg and mod fields of the extension opcodes select. Nothing here
 * refers to a dispatch table.
 */
module Opcodes {
  import opened Common
  import opened Grammar

  // ---- Prefixes --------------------------------------------------------------------------

  predicate IsSegment(b: byte) {
    b in {0x26, 0x2E, 0x36, 0x3E, 0x64, 0x65}
  }

  /** Segment overrides, 66, 67, LOCK, REPNE, REP and, in long mode, REX. */
  predicate IsPrefix(longMode: bool, b: byte) {
    IsSegment(b) || b in {0x66, 0x67, 0xF0, 0xF2, 0xF3} || (longMode && 0x40 <= b <= 0x4F)
  }

  /** First bytes of VEX and EVEX encodings. */
  predicate IsVex(longMode: bool, b: byte) {
    longMode && b in {0x62, 0xC4, 0xC5}
  }

  predicate ArePrefixes(longMode: bool, run: seq<byte>) {
    forall i :: 0 <= i < |run| ==> IsPrefix(longMode, run[i])
  }

  /** The REX byte in force: the last prefix, if it is one. */
  function RexOf(longMode: bool, run: seq<byte>): byte {
    if longMode && run != [] && 0x40 <= run[|run| - 1] <= 0x4F then run[|run| - 1] else 0
  }

  predicate RexWApplies(longMode: bool, run: seq<byte>) {
    RexOf(longMode, run) >= 0x48
  }

  // ---- Trailing fields -------------------------------------------------------------------

  /** A fixed number of bytes, an operand-sized immediate or branch, MOV's full immediate, an address, a far pointer. */
  datatype Field = Fixed(n: nat) | Iz | Iq | Moffs | Far

  const NOTHING := Fixed(0)
  const IB := Fixed(1)
  const IW := Fixed(2)

  function Width(longMode: bool, f: Field, has66: bool, has67: bool, rexW: bool): nat {
    match f
    case Fixed(n) => n
    case Iz => if has66 then 2 else 4
    case Iq => if rexW then 8 else if has66 then 2 else 4
    case Moffs => if longMode then (if has67 then 4 else 8) else (if has67 then 2 else 4)
    case Far => if has66 then 4 else 6
  }

  // ---- Opcodes ---------------------------------------------------------------------------

  /** What follows an opcode; of Extension opcodes the ModRM byte decides it. */
  datatype Form =
    | Undefined
    | MoreOpcode
    | NoOperand(field: Field)
    | WithOperand(field: Field)
    | ModrmOnly(field: Field)
    | Extension

  /** The one-byte opcodes. */
  function OneByteForm(longMode: bool, opc: byte): Form {
    if opc == 0x0F then MoreOpcode
    else if opc < 0x40 then AluForm(longMode, opc)
    else if opc in {0xC6, 0xC7, 0xF6, 0xF7, 0xFE, 0xFF} || 0xD8 <= opc <= 0xDF then Extension
    // ModRM operand
    else if opc in {0x80, 0x83, 0xC0, 0xC1} then WithOperand(IB)
    else if opc in {0x69, 0x81} then WithOperand(Iz)
    else if opc == 0x6B then WithOperand(if longMode then IB else NOTHING)
    else if opc == 0x63 || 0x84 <= opc <= 0x8F || 0xD0 <= opc <= 0xD3 then WithOperand(NOTHING)
    // Immediates, branches and addresses
    else if opc in {0x6A, 0xA8, 0xCD, 0xEB} || 0x70 <= opc <= 0x7F || 0xB0 <= opc <= 0xB7 || 0xE0 <= opc <= 0xE7 then NoOperand(IB)
    else if opc in {0xC2, 0xCA} then NoOperand(IW)
    else if opc == 0xC8 then NoOperand(Fixed(3))
    else if opc in {0x68, 0xA9, 0xE8, 0xE9} then NoOperand(Iz)
    else if 0xA0 <= opc <= 0xA3 then NoOperand(Moffs)
    else if 0xB8 <= opc <= 0xBF then NoOperand(if longMode then Iq else Iz)
    // Slots that only IA-32 defines
    else if opc in {0x60, 0x61, 0xCE, 0xD6} then (if longMode then Undefined else NoOperand(NOTHING))
    else if opc in {0xD4, 0xD5} then (if longMode then Undefined else NoOperand(IB))
    else if opc in {0x9A, 0xEA} then (if longMode then Undefined else NoOperand(Far))
    else if opc == 0x82 then (if longMode then Undefined else WithOperand(IB))
    else if opc in {0x62, 0xC4, 0xC5} then (if longMode then Undefined else WithOperand(NOTHING))
    else NoOperand(NOTHING)
  }

  /** The eight ALU columns: four operand forms, AL with imm8, eAX with Iz, and two slots that long mode drops. */
  function AluForm(longMode: bool, opc: byte): Form {
    if opc % 8 < 4 then WithOperand(NOTHING)
    else if opc % 8 == 4 then NoOperand(IB)
    else if opc % 8 == 5 then NoOperand(Iz)
    else if longMode then Undefined
    else NoOperand(NOTHING)
  }

  /** The opcodes behind 0F. */
  function TwoByteForm(longMode: bool, second: byte): Form {
    if second in {0x00, 0x01, 0x18, 0x71, 0x72, 0x73, 0xAE, 0xB9, 0xBA, 0xC7} then Extension
    else if 0x80 <= second <= 0x8F then NoOperand(Iz)
    // System calls, MSRs, PUSH and POP of FS and GS, CPUID, RSM, EMMS, BSWAP
    else if second in {0x06, 0x08, 0x09, 0x77, 0xA0, 0xA1, 0xA2, 0xA8, 0xA9, 0xAA} then NoOperand(NOTHING)
    else if 0x30 <= second <= 0x35 || 0xC8 <= second <= 0xCF then NoOperand(NOTHING)
    // Control register moves: the ModRM byte always names registers
    else if 0x20 <= second <= 0x23 then NoOperand(IB)
    else if second in {0xA4, 0xAC} then WithOperand(IB)
    else if second in {0x70, 0xC2, 0xC4, 0xC5, 0xC6} then WithOperand(if longMode then IB else NOTHING)
    // Slots that neither mode defines
    else if second in {0x04, 0x0A, 0x0C, 0x0E, 0x0F, 0x25, 0x27, 0x36, 0x7A, 0x7B, 0xA6, 0xA7, 0xFF} then Undefined
    // Slots that the modes define differently
    else if second in {0x05, 0x07, 0x0B, 0x37} then (if longMode then NoOperand(NOTHING) else Undefined)
    else if second in {0x0D, 0x78, 0x79} || 0x19 <= second <= 0x1F then (if longMode then WithOperand(NOTHING) else Undefined)
    else if second in {0x24, 0x26} then (if longMode then Undefined else NoOperand(IB))
    else if second in {0x6C, 0x6D} then (if longMode then Undefined else WithOperand(NOTHING))
    else if second in {0x38, 0x3A} then (if longMode then MoreOpcode else Undefined)
    else if second == 0xF7 then (if longMode then NoOperand(IB) else WithOperand(NOTHING))
    else if 0x38 <= second <= 0x3F then Undefined
    else WithOperand(NOTHING)
  }

  /** The opcodes behind 0F 38. */
  function Form38(third: byte): Form {
    if || third <= 0x0B || third in {0x10, 0x14, 0x15, 0x17, 0x1C, 0x1D, 0x1E}
       || 0x20 <= third <= 0x25 || 0x28 <= third <= 0x2B || 0x30 <= third <= 0x35 || 0x37 <= third <= 0x41
       || 0x80 <= third <= 0x82 || 0x90 <= third <= 0x92 || 0xC8 <= third <= 0xCD || 0xDB <= third <= 0xDF
       || third in {0xF0, 0xF1, 0xF6}
    then WithOperand(NOTHING)
    else Undefined
  }

  /** The opcodes behind 0F 3A. */
  function Form3A(third: byte): Form {
    if || third == 0x0F || 0x14 <= third <= 0x17 || 0x20 <= third <= 0x22 || 0x40 <= third <= 0x42
       || third == 0x44 || 0x60 <= third <= 0x63 || third in {0xCC, 0xDC, 0xDF}
    then WithOperand(IB)
    else Undefined
  }

  /** One byte, 0F and a byte, or in long mode 0F 38 or 0F 3A and a byte. */
  predicate IsOpcode(longMode: bool, opcode: seq<byte>) {
    || |opcode| == 1
    || (|opcode| == 2 && opcode[0] == 0x0F)
    || (|opcode| == 3 && longMode && opcode[0] == 0x0F && opcode[1] in {0x38, 0x3A})
  }

  function FormOf(longMode: bool, opcode: seq<byte>): Form
    requires IsOpcode(longMode, opcode)
  {
    if |opcode| == 1 then OneByteForm(longMode, opcode[0])
    else if |opcode| == 2 then TwoByteForm(longMode, opcode[1])
    else if opcode[1] == 0x38 then Form38(opcode[2])
    else Form3A(opcode[2])
  }

  // ---- Opcode extensions: the ModRM byte decides -------------------------------------------

  function Mod(m: byte): byte {
    m / 64
  }

  function Reg(m: byte): byte {
    m / 8 % 8
  }

  function Rm(m: byte): byte {
    m % 8
  }

  function DefinedIf(defined: bool, f: Field): Form {
    if defined then WithOperand(f) else Undefined
  }

  function OneByteExtension(longMode: bool, opc: byte, m: byte): Form {
    match opc
    case 0xC6 => if longMode && Mod(m) == 3 && Reg(m) == 7 then ModrmOnly(IB) else DefinedIf(Reg(m) == 0, IB)
    case 0xC7 => if longMode && Mod(m) == 3 && Reg(m) == 7 then ModrmOnly(IW) else DefinedIf(Reg(m) == 0, Iz)
    case 0xF6 => WithOperand(if Reg(m) <= 1 then IB else NOTHING)
    case 0xF7 => WithOperand(if Reg(m) <= 1 then Iz else NOTHING)
    case 0xFE => DefinedIf(Reg(m) <= 1, NOTHING)
    case 0xFF => DefinedIf(Reg(m) <= 6, NOTHING)
    case _ => DefinedIf(X87Defined(opc, m), NOTHING)
  }

  /** x87: memory forms by reg, register forms by reg and rm. */
  predicate X87Defined(opc: byte, m: byte) {
    if Mod(m) != 3 then !(opc == 0xD9 && Reg(m) == 1) && !(opc == 0xDB && Reg(m) in {4, 6})
    else
      match opc
      case 0xD8 => true
      case 0xD9 =>
        || Reg(m) in {0, 1, 6, 7}
        || (Reg(m) == 2 && Rm(m) == 0) || (Reg(m) == 4 && Rm(m) in {0, 1, 4, 5}) || (Reg(m) == 5 && Rm(m) != 7)
      case 0xDA => Reg(m) <= 3 || (Reg(m) == 5 && Rm(m) == 1)
      case 0xDB => Reg(m) in {0, 1, 2, 3, 5, 6} || (Reg(m) == 4 && Rm(m) in {2, 3})
      case 0xDC => Reg(m) !in {2, 3}
      case 0xDD => Reg(m) in {0, 2, 3, 4, 5}
      case 0xDE => Reg(m) !in {2, 3} || (Reg(m) == 3 && Rm(m) == 1)
      case 0xDF => Reg(m) in {5, 6} || (Reg(m) == 4 && Rm(m) == 0)
      case _ => false
  }

  function TwoByteExtension(longMode: bool, second: byte, m: byte): Form {
    match second
    case 0x00 => DefinedIf(Reg(m) <= 5, NOTHING)
    case 0x01 => DefinedIf(Reg(m) != 5 && !(Mod(m) == 3 && Reg(m) == 3), NOTHING)
    case 0x18 => DefinedIf(Mod(m) != 3 && Reg(m) <= 3, NOTHING)
    case 0x71 => DefinedIf(Mod(m) == 3 && Reg(m) in {2, 4, 6}, IB)
    case 0x72 => DefinedIf(Mod(m) == 3 && Reg(m) in {2, 4, 6}, IB)
    case 0x73 => DefinedIf(Mod(m) == 3 && Reg(m) in {2, 3, 6, 7}, IB)
    case 0xAE =>
      if longMode then DefinedIf(!(Mod(m) == 3 && Reg(m) == 4), NOTHING)
      else DefinedIf(if Mod(m) == 3 then Reg(m) >= 5 else Reg(m) in {0, 1, 2, 3, 7}, NOTHING)
    case 0xB9 => WithOperand(NOTHING)
    case 0xBA => if Reg(m) >= 4 then ModrmOnly(IB) else Undefined
    case 0xC7 => if longMode then ModrmOnly(NOTHING) else DefinedIf(Mod(m) != 3 && Reg(m) == 1, NOTHING)
    case _ => Undefined
  }

  /** The form of an opcode once its ModRM byte is known. */
  function FormWith(longMode: bool, opcode: seq<byte>, m: byte): Form
    requires IsOpcode(longMode, opcode)
  {
    var form := FormOf(longMode, opcode);
    if !form.Extension? then form
    else if |opcode| == 1 then OneByteExtension(longMode, opcode[0], m)
    else TwoByteExtension(longMode, opcode[1], m)
  }

  // ---- Instructions ----------------------------------------------------------------------

  /** The prefixes, and an opcode byte behind them. */
  predicate Opening(longMode: bool, prefixes: seq<byte>, opcode: seq<byte>) {
    && ArePrefixes(longMode, prefixes) && IsOpcode(longMode, opcode)
    && !IsPrefix(longMode, opcode[0]) && !IsVex(longMode, opcode[0])
  }

  /** Bytes of a trailing field behind these prefixes. */
  function WidthBehind(longMode: bool, prefixes: seq<byte>, f: Field): nat {
    Width(longMode, f, 0x66 in prefixes, 0x67 in prefixes, RexWApplies(longMode, prefixes))
  }

  /** ModRM, SIB and displacement bytes by the manual's rules; 67 selects the 16-bit rules in IA-32. */
  predicate IsOperand(longMode: bool, prefixes: seq<byte>, operand: seq<byte>) {
    operand != [] && |operand| == ModrmSpan(operand[0], SibOf(operand), !longMode && 0x67 in prefixes)
  }

  /** LEA must name memory. */
  predicate IsLeaOfRegister(opcode: seq<byte>, operand: seq<byte>) {
    opcode == [0x8D] && operand != [] && Mod(operand[0]) == 3
  }

  /** The instructions of a mode, of any length. */
  predicate Assembles(longMode: bool, x: Instruction) {
    && Opening(longMode, x.prefixes, x.opcode)
    && match FormWith(longMode, x.opcode, if x.operand == [] then 0 else x.operand[0])
       case NoOperand(f) => x.operand == [] && |x.imm| == WidthBehind(longMode, x.prefixes, f)
       case WithOperand(f) =>
         && IsOperand(longMode, x.prefixes, x.operand) && !IsLeaOfRegister(x.opcode, x.operand)
         && |x.imm| == WidthBehind(longMode, x.prefixes, f)
       case ModrmOnly(f) => |x.operand| == 1 && |x.imm| == WidthBehind(longMode, x.prefixes, f)
       case _ => false
  }
}
