/**
 * Group and x87 tables that both modes hold identically, as runs of equal cells.
 * An entry says what follows the ModRM byte: 0x00-0x08 immediate bytes, 0x83 an operand-sized
 * immediate, 0xA0 | n a fixed body, 0xE1 undefined.
 */
module SharedTables {
  import opened Common

  // Opcode F6, by ModRM byte.
  function GroupF6(m: byte): byte {
    if m < 0x10 then 0x01 else if m < 0x40 then 0x00 else if m < 0x50 then 0x01
    else if m < 0x80 then 0x00 else if m < 0x90 then 0x01 else if m < 0xC0 then 0x00
    else if m < 0xD0 then 0x01 else 0x00
  }

  // Opcode F7, by ModRM byte.
  function GroupF7(m: byte): byte {
    if m < 0x10 then 0x83 else if m < 0x40 then 0x00 else if m < 0x50 then 0x83
    else if m < 0x80 then 0x00 else if m < 0x90 then 0x83 else if m < 0xC0 then 0x00
    else if m < 0xD0 then 0x83 else 0x00
  }

  // Opcode FE, by ModRM byte.
  function GroupFE(m: byte): byte {
    if m < 0x10 then 0x00 else if m < 0x40 then 0xE1 else if m < 0x50 then 0x00
    else if m < 0x80 then 0xE1 else if m < 0x90 then 0x00 else if m < 0xC0 then 0xE1
    else if m < 0xD0 then 0x00 else 0xE1
  }

  // Opcode FF, by ModRM byte.
  function GroupFF(m: byte): byte {
    if m < 0x38 then 0x00 else if m < 0x40 then 0xE1 else if m < 0x78 then 0x00
    else if m < 0x80 then 0xE1 else if m < 0xB8 then 0x00 else if m < 0xC0 then 0xE1
    else if m < 0xF8 then 0x00 else 0xE1
  }

  // Opcode 0F 00, by ModRM byte.
  function Group0F00(m: byte): byte {
    if m < 0x30 then 0x00 else if m < 0x40 then 0xE1 else if m < 0x70 then 0x00
    else if m < 0x80 then 0xE1 else if m < 0xB0 then 0x00 else if m < 0xC0 then 0xE1
    else if m < 0xF0 then 0x00 else 0xE1
  }

  // Opcode 0F 01, by ModRM byte.
  function Group0F01(m: byte): byte {
    if m < 0x28 then 0x00 else if m < 0x30 then 0xE1 else if m < 0x68 then 0x00
    else if m < 0x70 then 0xE1 else if m < 0xA8 then 0x00 else if m < 0xB0 then 0xE1
    else if m < 0xD8 then 0x00 else if m < 0xE0 then 0xE1 else if m < 0xE8 then 0x00
    else if m < 0xF0 then 0xE1 else 0x00
  }

  // Opcode 0F 18, by ModRM byte.
  function Group0F18(m: byte): byte {
    if m < 0x20 then 0x00 else if m < 0x40 then 0xE1 else if m < 0x60 then 0x00
    else if m < 0x80 then 0xE1 else if m < 0xA0 then 0x00 else 0xE1
  }

  // Opcode 0F 71, by ModRM byte.
  function Group0F71(m: byte): byte {
    if m < 0xD0 then 0xE1 else if m < 0xD8 then 0x01 else if m < 0xE0 then 0xE1
    else if m < 0xE8 then 0x01 else if m < 0xF0 then 0xE1 else if m < 0xF8 then 0x01 else 0xE1
  }

  // Opcode 0F 72, by ModRM byte.
  function Group0F72(m: byte): byte {
    if m < 0xD0 then 0xE1 else if m < 0xD8 then 0x01 else if m < 0xE0 then 0xE1
    else if m < 0xE8 then 0x01 else if m < 0xF0 then 0xE1 else if m < 0xF8 then 0x01 else 0xE1
  }

  // Opcode 0F 73, by ModRM byte.
  function Group0F73(m: byte): byte {
    if m < 0xD0 then 0xE1 else if m < 0xE0 then 0x01 else if m < 0xF0 then 0xE1 else 0x01
  }

  // Opcode 0F B9, by ModRM byte.
  function Group0FB9(m: byte): byte {
    0x00
  }

  // Opcode 0F BA, by ModRM byte.
  function Group0FBA(m: byte): byte {
    if m < 0x20 then 0xE1 else if m < 0x40 then 0xA4 else if m < 0x60 then 0xE1
    else if m < 0x80 then 0xA4 else if m < 0xA0 then 0xE1 else if m < 0xC0 then 0xA4
    else if m < 0xE0 then 0xE1 else 0xA4
  }

  // x87 opcode D8, by ModRM byte.
  function X87_D8(m: byte): byte {
    0x00
  }

  // x87 opcode D9, by ModRM byte.
  function X87_D9(m: byte): byte {
    if m < 0x08 then 0x00 else if m < 0x10 then 0xE1 else if m < 0x48 then 0x00
    else if m < 0x50 then 0xE1 else if m < 0x88 then 0x00 else if m < 0x90 then 0xE1
    else if m < 0xD1 then 0x00 else if m < 0xE0 then 0xE1 else if m < 0xE2 then 0x00
    else if m < 0xE4 then 0xE1 else if m < 0xE6 then 0x00 else if m < 0xE8 then 0xE1
    else if m < 0xEF then 0x00 else if m < 0xF0 then 0xE1 else 0x00
  }

  // x87 opcode DA, by ModRM byte.
  function X87_DA(m: byte): byte {
    if m < 0xE0 then 0x00 else if m < 0xE9 then 0xE1 else if m < 0xEA then 0x00 else 0xE1
  }

  // x87 opcode DB, by ModRM byte.
  function X87_DB(m: byte): byte {
    if m < 0x20 then 0x00 else if m < 0x28 then 0xE1 else if m < 0x30 then 0x00
    else if m < 0x38 then 0xE1 else if m < 0x60 then 0x00 else if m < 0x68 then 0xE1
    else if m < 0x70 then 0x00 else if m < 0x78 then 0xE1 else if m < 0xA0 then 0x00
    else if m < 0xA8 then 0xE1 else if m < 0xB0 then 0x00 else if m < 0xB8 then 0xE1
    else if m < 0xE0 then 0x00 else if m < 0xE2 then 0xE1 else if m < 0xE4 then 0x00
    else if m < 0xE8 then 0xE1 else if m < 0xF8 then 0x00 else 0xE1
  }

  // x87 opcode DC, by ModRM byte.
  function X87_DC(m: byte): byte {
    if m < 0xD0 then 0x00 else if m < 0xE0 then 0xE1 else 0x00
  }

  // x87 opcode DD, by ModRM byte.
  function X87_DD(m: byte): byte {
    if m < 0xC8 then 0x00 else if m < 0xD0 then 0xE1 else if m < 0xF0 then 0x00 else 0xE1
  }

  // x87 opcode DE, by ModRM byte.
  function X87_DE(m: byte): byte {
    if m < 0xD0 then 0x00 else if m < 0xD9 then 0xE1 else if m < 0xDA then 0x00
    else if m < 0xE0 then 0xE1 else 0x00
  }

  // x87 opcode DF, by ModRM byte.
  function X87_DF(m: byte): byte {
    if m < 0xC0 then 0x00 else if m < 0xE0 then 0xE1 else if m < 0xE1 then 0x00
    else if m < 0xE8 then 0xE1 else if m < 0xF8 then 0x00 else 0xE1
  }
}
