/** The IA-32 tables, cell for cell. */
module Ia32Tables {
  import opened Common
  import opened Tables

  /** Kind of every byte as a prefix. */
  function Ia32Prefix(b: byte): PrefixKind {
    if b < 0x0F then NotPrefix else if b < 0x10 then Escape2 else if b < 0x26 then NotPrefix
    else if b < 0x27 then Seg else if b < 0x2E then NotPrefix else if b < 0x2F then Seg
    else if b < 0x36 then NotPrefix else if b < 0x37 then Seg else if b < 0x3E then NotPrefix
    else if b < 0x3F then Seg else if b < 0x64 then NotPrefix else if b < 0x66 then Seg
    else if b < 0x67 then OperandSize else if b < 0x68 then AddressSize else if b < 0xF0 then NotPrefix
    else if b < 0xF1 then Lock else if b < 0xF2 then NotPrefix else if b < 0xF4 then Rep else NotPrefix
  }

  /** Resizable trailing field of one-byte opcodes. */
  function Ia32Tail(b: byte): byte {
    if b < 0x05 then TAIL_NONE else if b < 0x06 then TAIL_IZ else if b < 0x0D then TAIL_NONE
    else if b < 0x0E then TAIL_IZ else if b < 0x15 then TAIL_NONE else if b < 0x16 then TAIL_IZ
    else if b < 0x1D then TAIL_NONE else if b < 0x1E then TAIL_IZ else if b < 0x25 then TAIL_NONE
    else if b < 0x26 then TAIL_IZ else if b < 0x2D then TAIL_NONE else if b < 0x2E then TAIL_IZ
    else if b < 0x35 then TAIL_NONE else if b < 0x36 then TAIL_IZ else if b < 0x3D then TAIL_NONE
    else if b < 0x3E then TAIL_IZ else if b < 0x68 then TAIL_NONE else if b < 0x6A then TAIL_IZ
    else if b < 0x81 then TAIL_NONE else if b < 0x82 then TAIL_IZ else if b < 0x9A then TAIL_NONE
    else if b < 0x9B then TAIL_FAR else if b < 0xA0 then TAIL_NONE else if b < 0xA4 then TAIL_MOFFS
    else if b < 0xA9 then TAIL_NONE else if b < 0xAA then TAIL_IZ else if b < 0xB8 then TAIL_NONE
    else if b < 0xC0 then TAIL_IZ else if b < 0xE8 then TAIL_NONE else if b < 0xEA then TAIL_RELZ
    else if b < 0xEB then TAIL_FAR else TAIL_NONE
  }

  /** Resizable trailing field of 0F-prefixed opcodes. */
  function Ia32Tail2(b: byte): byte {
    if b < 0x80 then TAIL_NONE else if b < 0x90 then TAIL_RELZ else TAIL_NONE
  }

  /** One-byte opcode map. */
  function Ia32OneByte(b: byte): byte {
    if b < 0x10 then Row(b, 0x00, 0x00, 0x00, 0x00, 0x02, 0x05, 0x01, 0x01, 0x00, 0x00, 0x00, 0x00, 0x02, 0x05, 0x01, 0xE2)
    else if b < 0x20 then Row(b - 0x10, 0x00, 0x00, 0x00, 0x00, 0x02, 0x05, 0x01, 0x01, 0x00, 0x00, 0x00, 0x00, 0x02, 0x05, 0x01, 0x01)
    else if b < 0x30 then Row(b - 0x20, 0x00, 0x00, 0x00, 0x00, 0x02, 0x05, 0x01, 0x01, 0x00, 0x00, 0x00, 0x00, 0x02, 0x05, 0x01, 0x01)
    else if b < 0x40 then Row(b - 0x30, 0x00, 0x00, 0x00, 0x00, 0x02, 0x05, 0x01, 0x01, 0x00, 0x00, 0x00, 0x00, 0x02, 0x05, 0x01, 0x01)
    else if b < 0x50 then Row(b - 0x40, 0x01, 0x01, 0x01, 0x01, 0x01, 0x01, 0x01, 0x01, 0x01, 0x01, 0x01, 0x01, 0x01, 0x01, 0x01, 0x01)
    else if b < 0x60 then Row(b - 0x50, 0x01, 0x01, 0x01, 0x01, 0x01, 0x01, 0x01, 0x01, 0x01, 0x01, 0x01, 0x01, 0x01, 0x01, 0x01, 0x01)
    else if b < 0x70 then Row(b - 0x60, 0x01, 0x01, 0x00, 0x00, 0x01, 0x01, 0x01, 0x01, 0x05, 0xA4, 0x02, 0x00, 0x01, 0x01, 0x01, 0x01)
    else if b < 0x80 then Row(b - 0x70, 0x02, 0x02, 0x02, 0x02, 0x02, 0x02, 0x02, 0x02, 0x02, 0x02, 0x02, 0x02, 0x02, 0x02, 0x02, 0x02)
    else if b < 0x90 then Row(b - 0x80, 0xA1, 0xA4, 0xA1, 0xA1, 0x00, 0x00, 0x00, 0x00, 0x00, 0x00, 0x00, 0x00, 0x00, 0x00, 0x00, 0x00)
    else if b < 0xA0 then Row(b - 0x90, 0x01, 0x01, 0x01, 0x01, 0x01, 0x01, 0x01, 0x01, 0x01, 0x01, 0x07, 0x01, 0x01, 0x01, 0x01, 0x01)
    else if b < 0xB0 then Row(b - 0xA0, 0x05, 0x05, 0x05, 0x05, 0x01, 0x01, 0x01, 0x01, 0x02, 0x05, 0x01, 0x01, 0x01, 0x01, 0x01, 0x01)
    else if b < 0xC0 then Row(b - 0xB0, 0x02, 0x02, 0x02, 0x02, 0x02, 0x02, 0x02, 0x02, 0x05, 0x05, 0x05, 0x05, 0x05, 0x05, 0x05, 0x05)
    else if b < 0xD0 then Row(b - 0xC0, 0xA1, 0xA1, 0x03, 0x01, 0x00, 0x00, 0xEE, 0xEE, 0x04, 0x01, 0x03, 0x01, 0x01, 0x02, 0x01, 0x01)
    else if b < 0xE0 then Row(b - 0xD0, 0x00, 0x00, 0x00, 0x00, 0x02, 0x02, 0x01, 0x01, 0xEF, 0xEF, 0xEF, 0xEF, 0xEF, 0xEF, 0xEF, 0xEF)
    else if b < 0xF0 then Row(b - 0xE0, 0x02, 0x02, 0x02, 0x02, 0x02, 0x02, 0x02, 0x02, 0x05, 0x05, 0x07, 0x02, 0x01, 0x01, 0x01, 0x01)
    else Row(b - 0xF0, 0x01, 0x01, 0x01, 0x01, 0x01, 0x01, 0xEE, 0xEE, 0x01, 0x01, 0x01, 0x01, 0x01, 0x01, 0xEE, 0xEE)
  }

  /** 0F-prefixed opcode map. */
  function Ia32TwoByte(b: byte): byte {
    if b < 0x10 then Row(b, 0xEE, 0xEE, 0x00, 0x00, 0xFF, 0xFF, 0x02, 0xFF, 0x02, 0x02, 0xFF, 0xFF, 0xFF, 0xFF, 0xFF, 0xFF)
    else if b < 0x20 then Row(b - 0x10, 0x00, 0x00, 0x00, 0x00, 0x00, 0x00, 0x00, 0x00, 0xEE, 0xFF, 0xFF, 0xFF, 0xFF, 0xFF, 0xFF, 0xFF)
    else if b < 0x30 then Row(b - 0x20, 0x03, 0x03, 0x03, 0x03, 0x03, 0xFF, 0x03, 0xFF, 0x00, 0x00, 0x00, 0x00, 0x00, 0x00, 0x00, 0x00)
    else if b < 0x40 then Row(b - 0x30, 0x02, 0x02, 0x02, 0x02, 0x02, 0x02, 0xFF, 0xFF, 0xFF, 0xFF, 0xFF, 0xFF, 0xFF, 0xFF, 0xFF, 0xFF)
    else if b < 0x50 then Row(b - 0x40, 0x00, 0x00, 0x00, 0x00, 0x00, 0x00, 0x00, 0x00, 0x00, 0x00, 0x00, 0x00, 0x00, 0x00, 0x00, 0x00)
    else if b < 0x60 then Row(b - 0x50, 0x00, 0x00, 0x00, 0x00, 0x00, 0x00, 0x00, 0x00, 0x00, 0x00, 0x00, 0x00, 0x00, 0x00, 0x00, 0x00)
    else if b < 0x70 then Row(b - 0x60, 0x00, 0x00, 0x00, 0x00, 0x00, 0x00, 0x00, 0x00, 0x00, 0x00, 0x00, 0x00, 0x00, 0x00, 0x00, 0x00)
    else if b < 0x80 then Row(b - 0x70, 0x00, 0xEE, 0xEE, 0xEE, 0x00, 0x00, 0x00, 0x02, 0xFF, 0xFF, 0xFF, 0xFF, 0x00, 0x00, 0x00, 0x00)
    else if b < 0x90 then Row(b - 0x80, 0x06, 0x06, 0x06, 0x06, 0x06, 0x06, 0x06, 0x06, 0x06, 0x06, 0x06, 0x06, 0x06, 0x06, 0x06, 0x06)
    else if b < 0xA0 then Row(b - 0x90, 0x00, 0x00, 0x00, 0x00, 0x00, 0x00, 0x00, 0x00, 0x00, 0x00, 0x00, 0x00, 0x00, 0x00, 0x00, 0x00)
    else if b < 0xB0 then Row(b - 0xA0, 0x02, 0x02, 0x02, 0x00, 0xA1, 0x00, 0xFF, 0xFF, 0x02, 0x02, 0x02, 0x00, 0xA1, 0x00, 0xEE, 0x00)
    else if b < 0xC0 then Row(b - 0xB0, 0x00, 0x00, 0x00, 0x00, 0x00, 0x00, 0x00, 0x00, 0x00, 0xEE, 0xEE, 0x00, 0x00, 0x00, 0x00, 0x00)
    else if b < 0xD0 then Row(b - 0xC0, 0x00, 0x00, 0x00, 0x00, 0x00, 0x00, 0x00, 0xEE, 0x02, 0x02, 0x02, 0x02, 0x02, 0x02, 0x02, 0x02)
    else if b < 0xE0 then Row(b - 0xD0, 0x00, 0x00, 0x00, 0x00, 0x00, 0x00, 0x00, 0x00, 0x00, 0x00, 0x00, 0x00, 0x00, 0x00, 0x00, 0x00)
    else if b < 0xF0 then Row(b - 0xE0, 0x00, 0x00, 0x00, 0x00, 0x00, 0x00, 0x00, 0x00, 0x00, 0x00, 0x00, 0x00, 0x00, 0x00, 0x00, 0x00)
    else Row(b - 0xF0, 0x00, 0x00, 0x00, 0x00, 0x00, 0x00, 0x00, 0x00, 0x00, 0x00, 0x00, 0x00, 0x00, 0x00, 0x00, 0xFF)
  }

  // Opcode C6, by ModRM byte.
  function Ia32GroupC6(m: byte): byte {
    if m < 0x08 then 0x01 else if m < 0x40 then 0xE1 else if m < 0x48 then 0x01
    else if m < 0x80 then 0xE1 else if m < 0x88 then 0x01 else if m < 0xC0 then 0xE1
    else if m < 0xC8 then 0x01 else 0xE1
  }

  // Opcode C7, by ModRM byte.
  function Ia32GroupC7(m: byte): byte {
    if m < 0x08 then 0x83 else if m < 0x40 then 0xE1 else if m < 0x48 then 0x83
    else if m < 0x80 then 0xE1 else if m < 0x88 then 0x83 else if m < 0xC0 then 0xE1
    else if m < 0xC8 then 0x83 else 0xE1
  }

  // Opcode 0F AE, by ModRM byte.
  function Ia32Group0FAE(m: byte): byte {
    if m < 0x20 then 0x00 else if m < 0x38 then 0xE1 else if m < 0x60 then 0x00
    else if m < 0x78 then 0xE1 else if m < 0xA0 then 0x00 else if m < 0xB8 then 0xE1
    else if m < 0xC0 then 0x00 else if m < 0xE8 then 0xE1 else 0x00
  }

  // Opcode 0F C7, by ModRM byte.
  function Ia32Group0FC7(m: byte): byte {
    if m < 0x08 then 0xE1 else if m < 0x10 then 0x00 else if m < 0x48 then 0xE1
    else if m < 0x50 then 0x00 else if m < 0x88 then 0xE1 else if m < 0x90 then 0x00 else 0xE1
  }
}
