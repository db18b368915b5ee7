/** Bytes, verdicts, prefix state and field widths shared by both decoders. */
module Common {

  type byte = b: int | 0 <= b < 0x100

  /** Longest instruction, prefixes included. */
  const MAX_INSN_LEN: nat := 15

  // Lengths and errors share one integer: a value of at least ERR_BASE is an error.
  const ERR_BASE: nat := 0xE0
  const INSUFFICIENT_BUFFER: nat := 0xE0
  const UNDEFINED_INSTRUCTION: nat := 0xE1
  const UNKNOWN_ERROR: nat := 0xE2

  predicate IsError(value: nat) {
    value >= ERR_BASE
  }

  // Trailing-field kinds; a group entry 0x80 | kind names one of them.
  const TAIL_NONE: byte := 0
  const TAIL_IB: byte := 1
  const TAIL_IW: byte := 2
  const TAIL_IZ: byte := 3
  const TAIL_IQ: byte := 4
  const TAIL_RELZ: byte := 5
  const TAIL_MOFFS: byte := 6
  const TAIL_FAR: byte := 7

  /** The prefixes consumed in front of one opcode. */
  datatype PrefixInfo = PrefixInfo(
    length: nat,
    has66: bool,
    has67: bool,
    hasSeg: bool,
    hasLock: bool,
    hasRep: bool,
    rexByte: byte)
  {
    /** Bit 3 of the REX byte that is still in force. */
    predicate RexW() {
      rexByte / 8 % 2 == 1
    }
  }

  const NO_PREFIXES := PrefixInfo(0, false, false, false, false, false, 0)

  function ImmZWidth(has66: bool): nat {
    if has66 then 2 else 4
  }

  function ImmQWidth(has66: bool, rexW: bool): nat {
    if rexW then 8 else ImmZWidth(has66)
  }

  function RelZWidth(has66: bool): nat {
    ImmZWidth(has66)
  }

  function MoffsWidth(has67: bool, longMode: bool): nat {
    if longMode then (if has67 then 4 else 8) else (if has67 then 2 else 4)
  }

  /** Width of a trailing field: the prefixes resize some kinds, the others keep `default`. */
  function TailWidth(longMode: bool, kind: byte, default: nat, pf: PrefixInfo): nat {
    if kind == TAIL_IZ then ImmZWidth(pf.has66)
    else if kind == TAIL_IQ && longMode then ImmQWidth(pf.has66, pf.RexW())
    else if kind == TAIL_RELZ then RelZWidth(pf.has66)
    else if kind == TAIL_MOFFS then MoffsWidth(pf.has67, longMode)
    else if kind == TAIL_FAR then (if pf.has66 then 4 else 6)
    else if kind == TAIL_IB then 1
    else if kind == TAIL_IW then 2
    else default
  }

  /** Cell `k` of a sixteen-cell table row. */
  function Row(k: nat, c0: byte, c1: byte, c2: byte, c3: byte, c4: byte, c5: byte, c6: byte, c7: byte,
               c8: byte, c9: byte, cA: byte, cB: byte, cC: byte, cD: byte, cE: byte, cF: byte): byte
  {
    if k == 0 then c0 else if k == 1 then c1 else if k == 2 then c2 else if k == 3 then c3
    else if k == 4 then c4 else if k == 5 then c5 else if k == 6 then c6 else if k == 7 then c7
    else if k == 8 then c8 else if k == 9 then c9 else if k == 10 then cA else if k == 11 then cB
    else if k == 12 then cC else if k == 13 then cD else if k == 14 then cE else cF
  }

  /**
   * Opcode + ModRM + displacement size for 32- and 64-bit addressing, by ModRM byte.
   * Zero means that a SIB byte has to be read first.
   */
  function ModrmTable(modrm: byte): byte {
    var k := modrm % 16;
    var row := modrm / 16;
    if row < 0x4 then Row(k, 2, 2, 2, 2, 0, 6, 2, 2, 2, 2, 2, 2, 0, 6, 2, 2)
    else if row < 0x8 then Row(k, 3, 3, 3, 3, 4, 3, 3, 3, 3, 3, 3, 3, 4, 3, 3, 3)
    else if row < 0xC then Row(k, 6, 6, 6, 6, 7, 6, 6, 6, 6, 6, 6, 6, 7, 6, 6, 6)
    else Row(k, 2, 2, 2, 2, 2, 2, 2, 2, 2, 2, 2, 2, 2, 2, 2, 2)
  }

  /** The same for 16-bit addressing, which has no SIB byte. */
  function ModrmTable16(modrm: byte): byte {
    var k := modrm % 16;
    var row := modrm / 16;
    if row < 0x4 then Row(k, 2, 2, 2, 2, 2, 2, 4, 2, 2, 2, 2, 2, 2, 2, 4, 2)
    else if row < 0x8 then Row(k, 3, 3, 3, 3, 3, 3, 3, 3, 3, 3, 3, 3, 3, 3, 3, 3)
    else if row < 0xC then Row(k, 4, 4, 4, 4, 4, 4, 4, 4, 4, 4, 4, 4, 4, 4, 4, 4)
    else Row(k, 2, 2, 2, 2, 2, 2, 2, 2, 2, 2, 2, 2, 2, 2, 2, 2)
  }

  /** The manual's ModRM rules: ModRM + SIB + displacement bytes after the opcode. */
  function ModrmSpan(modrm: byte, sib: byte, addr16: bool): (span: nat)
    ensures 1 <= span <= 6
  {
    var mod := modrm / 64;
    var rm := modrm % 8;
    if mod == 3 then 1
    else if addr16 then
      if mod == 0 then (if rm == 6 then 3 else 1)
      else if mod == 1 then 2 else 3
    else if rm == 4 then
      var base5 := sib % 8 == 5;
      2 + (if mod == 0 && base5 then 4 else if mod == 1 then 1 else if mod == 2 then 4 else 0)
    else 1 + (if mod == 0 then (if rm == 5 then 4 else 0) else if mod == 1 then 1 else 4)
  }

  /** Does the SIB byte take part in the ModRM rules? */
  predicate NeedsSib(modrm: byte, addr16: bool) {
    !addr16 && modrm / 64 == 0 && modrm % 8 == 4
  }

  /** Both tables agree with the manual's rules cell by cell; zero marks exactly the SIB-dependent cells. */
  lemma ModrmTablesAreSpans(modrm: byte, sib: byte)
    ensures ModrmTable16(modrm) == 1 + ModrmSpan(modrm, sib, true)
    ensures ModrmTable(modrm) == 0 <==> NeedsSib(modrm, false)
    ensures ModrmTable(modrm) != 0 ==> ModrmTable(modrm) == 1 + ModrmSpan(modrm, sib, false)
    ensures ModrmTable(modrm) == 0 ==> ModrmSpan(modrm, sib, false) == 2 + (if sib % 8 == 5 then 4 else 0)
  {
  }
}
