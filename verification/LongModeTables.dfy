/** The long-mode tables, cell for cell. */
module LongModeTables {
  import opened Common
  import opened Tables

  /** Kind of every byte as a prefix. */
  function LongPrefix(b: byte): PrefixKind {
    if b < 0x0F then NotPrefix else if b < 0x10 then Escape2 else if b < 0x26 then NotPrefix
    else if b < 0x27 then Seg else if b < 0x2E then NotPrefix else if b < 0x2F then Seg
    else if b < 0x36 then NotPrefix else if b < 0x37 then Seg else if b < 0x3E then NotPrefix
    else if b < 0x3F then Seg else if b < 0x40 then NotPrefix else if b < 0x50 then Rex
    else if b < 0x62 then NotPrefix else if b < 0x63 then Evex else if b < 0x64 then NotPrefix
    else if b < 0x66 then Seg else if b < 0x67 then OperandSize else if b < 0x68 then AddressSize
    else if b < 0xC4 then NotPrefix else if b < 0xC5 then Vex3 else if b < 0xC6 then Vex2
    else if b < 0xF0 then NotPrefix else if b < 0xF1 then Lock else if b < 0xF2 then NotPrefix
    else if b < 0xF4 then Rep else NotPrefix
  }

  /** Resizable trailing field of one-byte opcodes. */
  function LongTail(b: byte): byte {
    if b < 0x05 then TAIL_NONE else if b < 0x06 then TAIL_IZ else if b < 0x0D then TAIL_NONE
    else if b < 0x0E then TAIL_IZ else if b < 0x15 then TAIL_NONE else if b < 0x16 then TAIL_IZ
    else if b < 0x1D then TAIL_NONE else if b < 0x1E then TAIL_IZ else if b < 0x25 then TAIL_NONE
    else if b < 0x26 then TAIL_IZ else if b < 0x2D then TAIL_NONE else if b < 0x2E then TAIL_IZ
    else if b < 0x35 then TAIL_NONE else if b < 0x36 then TAIL_IZ else if b < 0x3D then TAIL_NONE
    else if b < 0x3E then TAIL_IZ else if b < 0x68 then TAIL_NONE else if b < 0x6A then TAIL_IZ
    else if b < 0x81 then TAIL_NONE else if b < 0x82 then TAIL_IZ else if b < 0xA0 then TAIL_NONE
    else if b < 0xA4 then TAIL_MOFFS else if b < 0xA9 then TAIL_NONE else if b < 0xAA then TAIL_IZ
    else if b < 0xB8 then TAIL_NONE else if b < 0xC0 then TAIL_IQ else if b < 0xE8 then TAIL_NONE
    else if b < 0xEA then TAIL_RELZ else TAIL_NONE
  }

  /** Resizable trailing field of 0F-prefixed opcodes. */
  function LongTail2(b: byte): byte {
    if b < 0x80 then TAIL_NONE else if b < 0x90 then TAIL_RELZ else TAIL_NONE
  }

  /** One-byte opcode map. */
  function LongOneByte(b: byte): byte {
    if b < 0x10 then Row(b, 0x00, 0x00, 0x00, 0x00, 0x02, 0x05, 0xFF, 0xFF, 0x00, 0x00, 0x00, 0x00, 0x02, 0x05, 0xFF, 0xE2)
    else if b < 0x20 then Row(b - 0x10, 0x00, 0x00, 0x00, 0x00, 0x02, 0x05, 0xFF, 0xFF, 0x00, 0x00, 0x00, 0x00, 0x02, 0x05, 0xFF, 0xFF)
    else if b < 0x30 then Row(b - 0x20, 0x00, 0x00, 0x00, 0x00, 0x02, 0x05, 0x01, 0xFF, 0x00, 0x00, 0x00, 0x00, 0x02, 0x05, 0x01, 0xFF)
    else if b < 0x40 then Row(b - 0x30, 0x00, 0x00, 0x00, 0x00, 0x02, 0x05, 0x01, 0xFF, 0x00, 0x00, 0x00, 0x00, 0x02, 0x05, 0x01, 0xFF)
    else if b < 0x50 then Row(b - 0x40, 0xA0, 0xA0, 0xA0, 0xA0, 0xA0, 0xA0, 0xA0, 0xA0, 0xA0, 0xA0, 0xA0, 0xA0, 0xA0, 0xA0, 0xA0, 0xA0)
    else if b < 0x60 then Row(b - 0x50, 0x01, 0x01, 0x01, 0x01, 0x01, 0x01, 0x01, 0x01, 0x01, 0x01, 0x01, 0x01, 0x01, 0x01, 0x01, 0x01)
    else if b < 0x70 then Row(b - 0x60, 0xFF, 0xFF, 0xFF, 0x00, 0x01, 0x01, 0x01, 0x01, 0x05, 0xA4, 0x02, 0xA1, 0x01, 0x01, 0x01, 0x01)
    else if b < 0x80 then Row(b - 0x70, 0x02, 0x02, 0x02, 0x02, 0x02, 0x02, 0x02, 0x02, 0x02, 0x02, 0x02, 0x02, 0x02, 0x02, 0x02, 0x02)
    else if b < 0x90 then Row(b - 0x80, 0xA1, 0xA4, 0xFF, 0xA1, 0x00, 0x00, 0x00, 0x00, 0x00, 0x00, 0x00, 0x00, 0x00, 0x00, 0x00, 0x00)
    else if b < 0xA0 then Row(b - 0x90, 0x01, 0x01, 0x01, 0x01, 0x01, 0x01, 0x01, 0x01, 0x01, 0x01, 0xFF, 0x01, 0x01, 0x01, 0x01, 0x01)
    else if b < 0xB0 then Row(b - 0xA0, 0x09, 0x09, 0x09, 0x09, 0x01, 0x01, 0x01, 0x01, 0x02, 0x05, 0x01, 0x01, 0x01, 0x01, 0x01, 0x01)
    else if b < 0xC0 then Row(b - 0xB0, 0x02, 0x02, 0x02, 0x02, 0x02, 0x02, 0x02, 0x02, 0xB8, 0xB8, 0xB8, 0xB8, 0xB8, 0xB8, 0xB8, 0xB8)
    else if b < 0xD0 then Row(b - 0xC0, 0xA1, 0xA1, 0x03, 0x01, 0xFF, 0xFF, 0xEE, 0xEE, 0x04, 0x01, 0x03, 0x01, 0x01, 0x02, 0xFF, 0x01)
    else if b < 0xE0 then Row(b - 0xD0, 0x00, 0x00, 0x00, 0x00, 0xFF, 0xFF, 0xFF, 0x01, 0xEF, 0xEF, 0xEF, 0xEF, 0xEF, 0xEF, 0xEF, 0xEF)
    else if b < 0xF0 then Row(b - 0xE0, 0x02, 0x02, 0x02, 0x02, 0x02, 0x02, 0x02, 0x02, 0x05, 0x05, 0xFF, 0x02, 0x01, 0x01, 0x01, 0x01)
    else Row(b - 0xF0, 0x01, 0x01, 0x01, 0x01, 0x01, 0x01, 0xEE, 0xEE, 0x01, 0x01, 0x01, 0x01, 0x01, 0x01, 0xEE, 0xEE)
  }

  /** 0F-prefixed opcode map. */
  function LongTwoByte(b: byte): byte {
    if b < 0x10 then Row(b, 0xEE, 0xEE, 0x00, 0x00, 0xFF, 0x02, 0x02, 0x02, 0x02, 0x02, 0xFF, 0x02, 0xFF, 0x00, 0xFF, 0xFF)
    else if b < 0x20 then Row(b - 0x10, 0x00, 0x00, 0x00, 0x00, 0x00, 0x00, 0x00, 0x00, 0xEE, 0x00, 0x00, 0x00, 0x00, 0x00, 0x00, 0x00)
    else if b < 0x30 then Row(b - 0x20, 0x03, 0x03, 0x03, 0x03, 0xFF, 0xFF, 0xFF, 0xFF, 0x00, 0x00, 0x00, 0x00, 0x00, 0x00, 0x00, 0x00)
    else if b < 0x40 then Row(b - 0x30, 0x02, 0x02, 0x02, 0x02, 0x02, 0x02, 0xFF, 0x02, 0xE8, 0xFF, 0xEA, 0xFF, 0xFF, 0xFF, 0xFF, 0xFF)
    else if b < 0x50 then Row(b - 0x40, 0x00, 0x00, 0x00, 0x00, 0x00, 0x00, 0x00, 0x00, 0x00, 0x00, 0x00, 0x00, 0x00, 0x00, 0x00, 0x00)
    else if b < 0x60 then Row(b - 0x50, 0x00, 0x00, 0x00, 0x00, 0x00, 0x00, 0x00, 0x00, 0x00, 0x00, 0x00, 0x00, 0x00, 0x00, 0x00, 0x00)
    else if b < 0x70 then Row(b - 0x60, 0x00, 0x00, 0x00, 0x00, 0x00, 0x00, 0x00, 0x00, 0x00, 0x00, 0x00, 0x00, 0xFF, 0xFF, 0x00, 0x00)
    else if b < 0x80 then Row(b - 0x70, 0xA1, 0xEE, 0xEE, 0xEE, 0x00, 0x00, 0x00, 0x02, 0x00, 0x00, 0xFF, 0xFF, 0x00, 0x00, 0x00, 0x00)
    else if b < 0x90 then Row(b - 0x80, 0x06, 0x06, 0x06, 0x06, 0x06, 0x06, 0x06, 0x06, 0x06, 0x06, 0x06, 0x06, 0x06, 0x06, 0x06, 0x06)
    else if b < 0xA0 then Row(b - 0x90, 0x00, 0x00, 0x00, 0x00, 0x00, 0x00, 0x00, 0x00, 0x00, 0x00, 0x00, 0x00, 0x00, 0x00, 0x00, 0x00)
    else if b < 0xB0 then Row(b - 0xA0, 0x02, 0x02, 0x02, 0x00, 0xA1, 0x00, 0xFF, 0xFF, 0x02, 0x02, 0x02, 0x00, 0xA1, 0x00, 0xEE, 0x00)
    else if b < 0xC0 then Row(b - 0xB0, 0x00, 0x00, 0x00, 0x00, 0x00, 0x00, 0x00, 0x00, 0x00, 0xEE, 0xEE, 0x00, 0x00, 0x00, 0x00, 0x00)
    else if b < 0xD0 then Row(b - 0xC0, 0x00, 0x00, 0xA1, 0x00, 0xA1, 0xA1, 0xA1, 0xEE, 0x02, 0x02, 0x02, 0x02, 0x02, 0x02, 0x02, 0x02)
    else if b < 0xE0 then Row(b - 0xD0, 0x00, 0x00, 0x00, 0x00, 0x00, 0x00, 0x00, 0x00, 0x00, 0x00, 0x00, 0x00, 0x00, 0x00, 0x00, 0x00)
    else if b < 0xF0 then Row(b - 0xE0, 0x00, 0x00, 0x00, 0x00, 0x00, 0x00, 0x00, 0x00, 0x00, 0x00, 0x00, 0x00, 0x00, 0x00, 0x00, 0x00)
    else Row(b - 0xF0, 0x00, 0x00, 0x00, 0x00, 0x00, 0x00, 0x00, 0x03, 0x00, 0x00, 0x00, 0x00, 0x00, 0x00, 0x00, 0xFF)
  }

  /** 0F 38 opcode map. */
  function LongMap38(b: byte): byte {
    if b < 0x10 then Row(b, 0x00, 0x00, 0x00, 0x00, 0x00, 0x00, 0x00, 0x00, 0x00, 0x00, 0x00, 0x00, 0xFF, 0xFF, 0xFF, 0xFF)
    else if b < 0x20 then Row(b - 0x10, 0x00, 0xFF, 0xFF, 0xFF, 0x00, 0x00, 0xFF, 0x00, 0xFF, 0xFF, 0xFF, 0xFF, 0x00, 0x00, 0x00, 0xFF)
    else if b < 0x30 then Row(b - 0x20, 0x00, 0x00, 0x00, 0x00, 0x00, 0x00, 0xFF, 0xFF, 0x00, 0x00, 0x00, 0x00, 0xFF, 0xFF, 0xFF, 0xFF)
    else if b < 0x40 then Row(b - 0x30, 0x00, 0x00, 0x00, 0x00, 0x00, 0x00, 0xFF, 0x00, 0x00, 0x00, 0x00, 0x00, 0x00, 0x00, 0x00, 0x00)
    else if b < 0x50 then Row(b - 0x40, 0x00, 0x00, 0xFF, 0xFF, 0xFF, 0xFF, 0xFF, 0xFF, 0xFF, 0xFF, 0xFF, 0xFF, 0xFF, 0xFF, 0xFF, 0xFF)
    else if b < 0x60 then Row(b - 0x50, 0xFF, 0xFF, 0xFF, 0xFF, 0xFF, 0xFF, 0xFF, 0xFF, 0xFF, 0xFF, 0xFF, 0xFF, 0xFF, 0xFF, 0xFF, 0xFF)
    else if b < 0x70 then Row(b - 0x60, 0xFF, 0xFF, 0xFF, 0xFF, 0xFF, 0xFF, 0xFF, 0xFF, 0xFF, 0xFF, 0xFF, 0xFF, 0xFF, 0xFF, 0xFF, 0xFF)
    else if b < 0x80 then Row(b - 0x70, 0xFF, 0xFF, 0xFF, 0xFF, 0xFF, 0xFF, 0xFF, 0xFF, 0xFF, 0xFF, 0xFF, 0xFF, 0xFF, 0xFF, 0xFF, 0xFF)
    else if b < 0x90 then Row(b - 0x80, 0x00, 0x00, 0x00, 0xFF, 0xFF, 0xFF, 0xFF, 0xFF, 0xFF, 0xFF, 0xFF, 0xFF, 0xFF, 0xFF, 0xFF, 0xFF)
    else if b < 0xA0 then Row(b - 0x90, 0x00, 0x00, 0x00, 0xFF, 0xFF, 0xFF, 0xFF, 0xFF, 0xFF, 0xFF, 0xFF, 0xFF, 0xFF, 0xFF, 0xFF, 0xFF)
    else if b < 0xB0 then Row(b - 0xA0, 0xFF, 0xFF, 0xFF, 0xFF, 0xFF, 0xFF, 0xFF, 0xFF, 0xFF, 0xFF, 0xFF, 0xFF, 0xFF, 0xFF, 0xFF, 0xFF)
    else if b < 0xC0 then Row(b - 0xB0, 0xFF, 0xFF, 0xFF, 0xFF, 0xFF, 0xFF, 0xFF, 0xFF, 0xFF, 0xFF, 0xFF, 0xFF, 0xFF, 0xFF, 0xFF, 0xFF)
    else if b < 0xD0 then Row(b - 0xC0, 0xFF, 0xFF, 0xFF, 0xFF, 0xFF, 0xFF, 0xFF, 0xFF, 0x00, 0x00, 0x00, 0x00, 0x00, 0x00, 0xFF, 0xFF)
    else if b < 0xE0 then Row(b - 0xD0, 0xFF, 0xFF, 0xFF, 0xFF, 0xFF, 0xFF, 0xFF, 0xFF, 0xFF, 0xFF, 0xFF, 0x00, 0x00, 0x00, 0x00, 0x00)
    else if b < 0xF0 then Row(b - 0xE0, 0xFF, 0xFF, 0xFF, 0xFF, 0xFF, 0xFF, 0xFF, 0xFF, 0xFF, 0xFF, 0xFF, 0xFF, 0xFF, 0xFF, 0xFF, 0xFF)
    else Row(b - 0xF0, 0x00, 0x00, 0xFF, 0xFF, 0xFF, 0xFF, 0x00, 0xFF, 0xFF, 0xFF, 0xFF, 0xFF, 0xFF, 0xFF, 0xFF, 0xFF)
  }

  /** 0F 3A opcode map. */
  function LongMap3A(b: byte): byte {
    if b < 0x10 then Row(b, 0xFF, 0xFF, 0xFF, 0xFF, 0xFF, 0xFF, 0xFF, 0xFF, 0xFF, 0xFF, 0xFF, 0xFF, 0xFF, 0xFF, 0xFF, 0xA1)
    else if b < 0x20 then Row(b - 0x10, 0xFF, 0xFF, 0xFF, 0xFF, 0xA1, 0xA1, 0xA1, 0xA1, 0xFF, 0xFF, 0xFF, 0xFF, 0xFF, 0xFF, 0xFF, 0xFF)
    else if b < 0x30 then Row(b - 0x20, 0xA1, 0xA1, 0xA1, 0xFF, 0xFF, 0xFF, 0xFF, 0xFF, 0xFF, 0xFF, 0xFF, 0xFF, 0xFF, 0xFF, 0xFF, 0xFF)
    else if b < 0x40 then Row(b - 0x30, 0xFF, 0xFF, 0xFF, 0xFF, 0xFF, 0xFF, 0xFF, 0xFF, 0xFF, 0xFF, 0xFF, 0xFF, 0xFF, 0xFF, 0xFF, 0xFF)
    else if b < 0x50 then Row(b - 0x40, 0xA1, 0xA1, 0xA1, 0xFF, 0xA1, 0xFF, 0xFF, 0xFF, 0xFF, 0xFF, 0xFF, 0xFF, 0xFF, 0xFF, 0xFF, 0xFF)
    else if b < 0x60 then Row(b - 0x50, 0xFF, 0xFF, 0xFF, 0xFF, 0xFF, 0xFF, 0xFF, 0xFF, 0xFF, 0xFF, 0xFF, 0xFF, 0xFF, 0xFF, 0xFF, 0xFF)
    else if b < 0x70 then Row(b - 0x60, 0xA1, 0xA1, 0xA1, 0xA1, 0xFF, 0xFF, 0xFF, 0xFF, 0xFF, 0xFF, 0xFF, 0xFF, 0xFF, 0xFF, 0xFF, 0xFF)
    else if b < 0x80 then Row(b - 0x70, 0xFF, 0xFF, 0xFF, 0xFF, 0xFF, 0xFF, 0xFF, 0xFF, 0xFF, 0xFF, 0xFF, 0xFF, 0xFF, 0xFF, 0xFF, 0xFF)
    else if b < 0x90 then Row(b - 0x80, 0xFF, 0xFF, 0xFF, 0xFF, 0xFF, 0xFF, 0xFF, 0xFF, 0xFF, 0xFF, 0xFF, 0xFF, 0xFF, 0xFF, 0xFF, 0xFF)
    else if b < 0xA0 then Row(b - 0x90, 0xFF, 0xFF, 0xFF, 0xFF, 0xFF, 0xFF, 0xFF, 0xFF, 0xFF, 0xFF, 0xFF, 0xFF, 0xFF, 0xFF, 0xFF, 0xFF)
    else if b < 0xB0 then Row(b - 0xA0, 0xFF, 0xFF, 0xFF, 0xFF, 0xFF, 0xFF, 0xFF, 0xFF, 0xFF, 0xFF, 0xFF, 0xFF, 0xFF, 0xFF, 0xFF, 0xFF)
    else if b < 0xC0 then Row(b - 0xB0, 0xFF, 0xFF, 0xFF, 0xFF, 0xFF, 0xFF, 0xFF, 0xFF, 0xFF, 0xFF, 0xFF, 0xFF, 0xFF, 0xFF, 0xFF, 0xFF)
    else if b < 0xD0 then Row(b - 0xC0, 0xFF, 0xFF, 0xFF, 0xFF, 0xFF, 0xFF, 0xFF, 0xFF, 0xFF, 0xFF, 0xFF, 0xFF, 0xA1, 0xFF, 0xFF, 0xFF)
    else if b < 0xE0 then Row(b - 0xD0, 0xFF, 0xFF, 0xFF, 0xFF, 0xFF, 0xFF, 0xFF, 0xFF, 0xFF, 0xFF, 0xFF, 0xFF, 0xA1, 0xFF, 0xFF, 0xA1)
    else if b < 0xF0 then Row(b - 0xE0, 0xFF, 0xFF, 0xFF, 0xFF, 0xFF, 0xFF, 0xFF, 0xFF, 0xFF, 0xFF, 0xFF, 0xFF, 0xFF, 0xFF, 0xFF, 0xFF)
    else Row(b - 0xF0, 0xFF, 0xFF, 0xFF, 0xFF, 0xFF, 0xFF, 0xFF, 0xFF, 0xFF, 0xFF, 0xFF, 0xFF, 0xFF, 0xFF, 0xFF, 0xFF)
  }

  // Opcode C6, by ModRM byte.
  function LongGroupC6(m: byte): byte {
    if m < 0x08 then 0x01 else if m < 0x40 then 0xE1 else if m < 0x48 then 0x01
    else if m < 0x80 then 0xE1 else if m < 0x88 then 0x01 else if m < 0xC0 then 0xE1
    else if m < 0xC8 then 0x01 else if m < 0xF8 then 0xE1 else 0xA3
  }

  // Opcode C7, by ModRM byte.
  function LongGroupC7(m: byte): byte {
    if m < 0x08 then 0x83 else if m < 0x40 then 0xE1 else if m < 0x48 then 0x83
    else if m < 0x80 then 0xE1 else if m < 0x88 then 0x83 else if m < 0xC0 then 0xE1
    else if m < 0xC8 then 0x83 else if m < 0xF8 then 0xE1 else 0xA4
  }

  // Opcode 0F AE, by ModRM byte.
  function LongGroup0FAE(m: byte): byte {
    if m < 0xE0 then 0x00 else if m < 0xE8 then 0xE1 else 0x00
  }

  // Opcode 0F C7, by ModRM byte.
  function LongGroup0FC7(m: byte): byte {
    0xA3
  }
}
