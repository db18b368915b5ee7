/** The two decoders: the committed tables, and the proof that they are well-formed. */
module Modes {
  import opened Common
  import opened Tables
  import opened SharedTables
  import opened LongModeTables
  import opened Ia32Tables

  /** A 256-cell array holding a table function. */
  function Cells<T>(f: byte -> T): (cells: seq<T>)
    ensures |cells| == 0x100
    ensures forall b: byte :: cells[b] == f(b)
  {
    seq(0x100, i requires 0 <= i < 0x100 => f(i))
  }

  const X87_ROWS: seq<seq<byte>> := [
    Cells(X87_D8), Cells(X87_D9), Cells(X87_DA), Cells(X87_DB),
    Cells(X87_DC), Cells(X87_DD), Cells(X87_DE), Cells(X87_DF)]

  const LONG_GRP1: map<byte, seq<byte>> := map[
    0xC6 := Cells(LongGroupC6), 0xC7 := Cells(LongGroupC7), 0xF6 := Cells(GroupF6),
    0xF7 := Cells(GroupF7), 0xFE := Cells(GroupFE), 0xFF := Cells(GroupFF)]

  const LONG_GRP2: map<byte, seq<byte>> := map[
    0x00 := Cells(Group0F00), 0x01 := Cells(Group0F01), 0x18 := Cells(Group0F18), 0x71 := Cells(Group0F71),
    0x72 := Cells(Group0F72), 0x73 := Cells(Group0F73), 0xAE := Cells(LongGroup0FAE), 0xB9 := Cells(Group0FB9),
    0xBA := Cells(Group0FBA), 0xC7 := Cells(LongGroup0FC7)]

  const LONG: Tables := Tables(
    true, Cells(LongPrefix), Cells(LongOneByte), Cells(LongTail), Cells(LongTwoByte), Cells(LongTail2),
    Cells(LongMap38), Cells(LongMap3A), LONG_GRP1, LONG_GRP2, X87_ROWS)

  const IA32_GRP1: map<byte, seq<byte>> := map[
    0xC6 := Cells(Ia32GroupC6), 0xC7 := Cells(Ia32GroupC7), 0xF6 := Cells(GroupF6),
    0xF7 := Cells(GroupF7), 0xFE := Cells(GroupFE), 0xFF := Cells(GroupFF)]

  const IA32_GRP2: map<byte, seq<byte>> := map[
    0x00 := Cells(Group0F00), 0x01 := Cells(Group0F01), 0x18 := Cells(Group0F18), 0x71 := Cells(Group0F71),
    0x72 := Cells(Group0F72), 0x73 := Cells(Group0F73), 0xAE := Cells(Ia32Group0FAE), 0xB9 := Cells(Group0FB9),
    0xBA := Cells(Group0FBA), 0xC7 := Cells(Ia32Group0FC7)]

  const IA32: Tables := Tables(
    false, Cells(Ia32Prefix), Cells(Ia32OneByte), Cells(Ia32Tail), Cells(Ia32TwoByte), Cells(Ia32Tail2),
    [], [], IA32_GRP1, IA32_GRP2, X87_ROWS)

  /** The decoder a caller selects. */
  function ModeTables(longMode: bool): Tables {
    if longMode then LONG else IA32
  }

  // ---- Every entry of every group table --------------------------------------------

  /** What the committed entries look like: an undefined mark, a fixed 3- or 4-byte body, or a small tail. */
  predicate CommittedEntry(e: byte) {
    e == 0x00 || e == 0x01 || e == 0x83 || e == 0xA3 || e == 0xA4 || e == 0xE1
  }

  predicate CommittedTable(table: seq<byte>) {
    |table| == 0x100 && forall m: byte :: CommittedEntry(table[m])
  }

  lemma SharedGroupsCommitted()
    ensures forall i :: 0 <= i < 8 ==> CommittedTable(X87_ROWS[i])
    ensures CommittedTable(Cells(GroupF6)) && CommittedTable(Cells(GroupF7))
    ensures CommittedTable(Cells(GroupFE)) && CommittedTable(Cells(GroupFF))
    ensures CommittedTable(Cells(Group0F00)) && CommittedTable(Cells(Group0F01)) && CommittedTable(Cells(Group0F18))
    ensures CommittedTable(Cells(Group0F71)) && CommittedTable(Cells(Group0F72)) && CommittedTable(Cells(Group0F73))
    ensures CommittedTable(Cells(Group0FB9)) && CommittedTable(Cells(Group0FBA))
  {
  }

  lemma LongGroupsCommitted()
    ensures forall opc :: opc in LONG_GRP1 ==> CommittedTable(LONG_GRP1[opc])
    ensures forall second :: second in LONG_GRP2 ==> CommittedTable(LONG_GRP2[second])
  {
  }

  lemma Ia32GroupsCommitted()
    ensures forall opc :: opc in IA32_GRP1 ==> CommittedTable(IA32_GRP1[opc])
    ensures forall second :: second in IA32_GRP2 ==> CommittedTable(IA32_GRP2[second])
  {
  }

  /** Committed entries never leave a fixed body short and always decide. */
  lemma CommittedTablesFit(t: Tables)
    requires Indexable(t)
    requires forall opc :: opc in t.grp1 ==> CommittedTable(t.grp1[opc])
    requires forall second :: second in t.grp2 ==> CommittedTable(t.grp2[second])
    requires forall i :: 0 <= i < 8 ==> CommittedTable(t.x87[i])
    ensures FixedBodiesFit(t) && EntriesDecide(t)
  {
  }

  lemma LongIndexable()
    ensures Indexable(LONG) && PrefixKindsOk(LONG)
  {
  }

  lemma Ia32Indexable()
    ensures Indexable(IA32) && PrefixKindsOk(IA32)
  {
  }

  lemma LongCellsHandled()
    ensures Indexable(LONG) && CellsHandled(LONG)
  {
    LongIndexable();
    forall opc: byte | StartsOpcode(LONG, opc) ensures OneByteCellOk(LONG, opc) {
      assert LONG.oneByte[opc] == LongOneByte(opc) && LONG.prefix[opc] == LongPrefix(opc);
    }
    forall second: byte ensures TwoByteCellOk(LONG, second) {
      assert LONG.twoByte[second] == LongTwoByte(second);
    }
    forall third: byte ensures ThreeByteCellOk(LONG.map38[third]) && ThreeByteCellOk(LONG.map3A[third]) {
      assert LONG.map38[third] == LongMap38(third) && LONG.map3A[third] == LongMap3A(third);
    }
  }

  lemma Ia32CellsHandled()
    ensures Indexable(IA32) && CellsHandled(IA32)
  {
    Ia32Indexable();
    forall opc: byte | StartsOpcode(IA32, opc) ensures OneByteCellOk(IA32, opc) {
      assert IA32.oneByte[opc] == Ia32OneByte(opc) && IA32.prefix[opc] == Ia32Prefix(opc);
    }
    forall second: byte ensures TwoByteCellOk(IA32, second) {
      assert IA32.twoByte[second] == Ia32TwoByte(second);
    }
  }

  /** Both committed table sets are well-formed, so every law about well-formed tables holds of both decoders. */
  lemma ModesWellFormed(longMode: bool)
    ensures WellFormed(ModeTables(longMode))
  {
    if longMode {
      LongCellsHandled();
      LongGroupsCommitted();
      SharedGroupsCommitted();
      LongIndexable();
      CommittedTablesFit(LONG);
    } else {
      Ia32CellsHandled();
      Ia32GroupsCommitted();
      SharedGroupsCommitted();
      Ia32Indexable();
      CommittedTablesFit(IA32);
    }
  }
}
