/**
 * The committed tables hold exactly the opcodes of module Opcodes, so every law about the tables'
 * encodings is a law about instructions named by opcode number, reg and mod.
 */
module Forms {
  import opened Common
  import opened Tables
  import opened SharedTables
  import opened LongModeTables
  import opened Ia32Tables
  import opened Decoder
  import opened Locality
  import opened Verdicts
  import opened Grammar
  import opened PrefixLaws
  import opened Modes
  import opened Opcodes

  // ---- Prefix bytes ----------------------------------------------------------------------

  lemma PrefixKinds(longMode: bool, b: byte)
    ensures var t := ModeTables(longMode);
            && Indexable(t)
            && (t.prefix[b] == OperandSize <==> b == 0x66) && (t.prefix[b] == AddressSize <==> b == 0x67)
            && (t.prefix[b] == Seg <==> IsSegment(b)) && (t.prefix[b] == Lock <==> b == 0xF0)
            && (t.prefix[b] == Rep <==> b == 0xF2 || b == 0xF3)
            && (t.prefix[b] == Rex <==> longMode && 0x40 <= b <= 0x4F)
            && (IsPrefixByte(t, b) <==> IsPrefix(longMode, b))
            && (IsVexByte(t, b) <==> IsVex(longMode, b))
            && (StartsOpcode(t, b) <==> !IsPrefix(longMode, b) && !IsVex(longMode, b))
  {
    ModesWellFormed(longMode);
    assert ModeTables(longMode).prefix[b] == if longMode then LongPrefix(b) else Ia32Prefix(b);
  }

  lemma KindIsMember(longMode: bool, run: seq<byte>)
    ensures var t := ModeTables(longMode);
            && Indexable(t)
            && (HasKind(t, run, OperandSize) <==> 0x66 in run) && (HasKind(t, run, AddressSize) <==> 0x67 in run)
            && (HasKind(t, run, Lock) <==> 0xF0 in run) && (HasKind(t, run, Rep) <==> 0xF2 in run || 0xF3 in run)
            && (HasKind(t, run, Seg) <==> exists b :: b in run && IsSegment(b))
  {
    ModesWellFormed(longMode);
    hide ModeTables, IsSegment, IsPrefix, IsVex, IsPrefixByte, IsVexByte, StartsOpcode;
    var t := ModeTables(longMode);
    forall b: byte
      ensures (t.prefix[b] == OperandSize <==> b == 0x66) && (t.prefix[b] == AddressSize <==> b == 0x67)
      ensures (t.prefix[b] == Lock <==> b == 0xF0) && (t.prefix[b] == Rep <==> b == 0xF2 || b == 0xF3)
      ensures t.prefix[b] == Seg <==> IsSegment(b)
    {
      PrefixKinds(longMode, b);
    }
  }

  /** What the prefix loop records, byte by byte. */
  lemma SummaryIsBytes(longMode: bool, run: seq<byte>)
    ensures var t := ModeTables(longMode);
            && Indexable(t)
            && (AllPrefixes(t, run) <==> ArePrefixes(longMode, run))
            && Summary(t, run) == PrefixInfo(
                 |run|, 0x66 in run, 0x67 in run, exists b :: b in run && IsSegment(b), 0xF0 in run, 0xF2 in run || 0xF3 in run,
                 RexOf(longMode, run))
            && (Summary(t, run).RexW() <==> RexWApplies(longMode, run))
  {
    KindIsMember(longMode, run);
    hide ModeTables, IsSegment, IsPrefix, IsVex, IsPrefixByte, IsVexByte, StartsOpcode, HasKind;
    if run != [] {
      PrefixKinds(longMode, run[|run| - 1]);
    }
    forall i | 0 <= i < |run| ensures IsPrefixByte(ModeTables(longMode), run[i]) <==> IsPrefix(longMode, run[i]) {
      PrefixKinds(longMode, run[i]);
    }
  }

  // ---- Cells and entries, as forms ---------------------------------------------------------

  /** The field that a trailing-field kind and a default stand for. */
  function FieldOf(longMode: bool, kind: byte, default: nat): Field {
    if kind == TAIL_IZ || kind == TAIL_RELZ then Iz
    else if kind == TAIL_IQ && longMode then Iq
    else if kind == TAIL_MOFFS then Moffs
    else if kind == TAIL_FAR then Far
    else if kind == TAIL_IB then IB
    else if kind == TAIL_IW then IW
    else Fixed(default)
  }

  lemma TailIsWidth(longMode: bool, kind: byte, default: nat, pf: PrefixInfo)
    ensures TailWidth(longMode, kind, default, pf) ==
            Width(longMode, FieldOf(longMode, kind, default), pf.has66, pf.has67, pf.RexW())
  {
  }

  function ClassForm(longMode: bool, c: OpcodeClass): Form {
    match c
    case NoLength => Undefined
    case Escape => MoreOpcode
    case Plain(kind, default) => NoOperand(FieldOf(longMode, kind, default))
    case WithModrm(kind, default) => WithOperand(FieldOf(longMode, kind, default))
    case Grouped(_) => Extension
  }

  /** A group entry behind `n` opcode bytes. */
  function EntryForm(longMode: bool, n: nat, e: byte): Form {
    if IsFixedEntry(e) then (if e - 0xA0 > n then ModrmOnly(Fixed(e - 0xA0 - n - 1)) else Undefined)
    else if e >= 0xA0 then Undefined
    else WithOperand(if e >= 0x80 then FieldOf(longMode, e - 0x80, 0) else Fixed(e))
  }

  // The one-byte maps ------------------------------------------------------------------------

  function OneByteCellForm(longMode: bool, cell: byte, tail: byte): Form {
    if cell == 0x00 then WithOperand(NOTHING)
    else if cell <= 0x09 then NoOperand(FieldOf(longMode, tail, cell - 1))
    else if cell == 0xA1 then WithOperand(IB)
    else if cell == 0xA4 then WithOperand(FieldOf(longMode, tail, 4))
    else if cell == 0xB8 && longMode then NoOperand(FieldOf(longMode, tail, 4))
    else if cell == 0xE2 then MoreOpcode
    else if cell == 0xEE || cell == 0xEF then Extension
    else Undefined
  }

  predicate LongOneByteHolds(opc: byte) {
    IsPrefix(true, opc) || IsVex(true, opc) || OneByteCellForm(true, LongOneByte(opc), LongTail(opc)) == OneByteForm(true, opc)
  }

  predicate Ia32OneByteHolds(opc: byte) {
    IsPrefix(false, opc) || OneByteCellForm(false, Ia32OneByte(opc), Ia32Tail(opc)) == OneByteForm(false, opc)
  }

  lemma LongTailIs(opc: byte)
    ensures LongTail(opc) == (if (opc < 0x40 && opc % 8 == 5) || opc in {0x68, 0x69, 0x81, 0xA9} then TAIL_IZ
                              else if 0xA0 <= opc <= 0xA3 then TAIL_MOFFS
                              else if 0xB8 <= opc <= 0xBF then TAIL_IQ
                              else if opc == 0xE8 || opc == 0xE9 then TAIL_RELZ
                              else TAIL_NONE)
  {
  }

  lemma Ia32TailIs(opc: byte)
    ensures Ia32Tail(opc) == (if (opc < 0x40 && opc % 8 == 5) || opc in {0x68, 0x69, 0x81, 0xA9} || 0xB8 <= opc <= 0xBF then TAIL_IZ
                              else if 0xA0 <= opc <= 0xA3 then TAIL_MOFFS
                              else if opc == 0xE8 || opc == 0xE9 then TAIL_RELZ
                              else if opc == 0x9A || opc == 0xEA then TAIL_FAR
                              else TAIL_NONE)
  {
  }

  lemma LongOneByteFrom00(opc: byte)
    requires opc < 0x20
    ensures LongOneByteHolds(opc)
  {
    hide LongTail;
    LongTailIs(opc);
  }

  lemma LongOneByteFrom20(opc: byte)
    requires 0x20 <= opc < 0x40
    ensures LongOneByteHolds(opc)
  {
    hide LongTail;
    LongTailIs(opc);
  }

  lemma LongOneByteFrom40(opc: byte)
    requires 0x40 <= opc < 0x80
    ensures LongOneByteHolds(opc)
  {
    hide LongTail;
    LongTailIs(opc);
  }

  lemma LongOneByteFrom80(opc: byte)
    requires 0x80 <= opc < 0xC0
    ensures LongOneByteHolds(opc)
  {
    hide LongTail;
    LongTailIs(opc);
  }

  lemma LongOneByteFromC0(opc: byte)
    requires 0xC0 <= opc
    ensures LongOneByteHolds(opc)
  {
    hide LongTail;
    LongTailIs(opc);
  }

  lemma Ia32OneByteFrom00(opc: byte)
    requires opc < 0x20
    ensures Ia32OneByteHolds(opc)
  {
    hide Ia32Tail;
    Ia32TailIs(opc);
  }

  lemma Ia32OneByteFrom20(opc: byte)
    requires 0x20 <= opc < 0x40
    ensures Ia32OneByteHolds(opc)
  {
    hide Ia32Tail;
    Ia32TailIs(opc);
  }

  lemma Ia32OneByteFrom40(opc: byte)
    requires 0x40 <= opc < 0x80
    ensures Ia32OneByteHolds(opc)
  {
    hide Ia32Tail;
    Ia32TailIs(opc);
  }

  lemma Ia32OneByteFrom80(opc: byte)
    requires 0x80 <= opc < 0xC0
    ensures Ia32OneByteHolds(opc)
  {
    hide Ia32Tail;
    Ia32TailIs(opc);
  }

  lemma Ia32OneByteFromC0(opc: byte)
    requires 0xC0 <= opc
    ensures Ia32OneByteHolds(opc)
  {
    hide Ia32Tail;
    Ia32TailIs(opc);
  }

  lemma OneByteHolds(opc: byte)
    ensures LongOneByteHolds(opc) && Ia32OneByteHolds(opc)
  {
    hide LongOneByteHolds, Ia32OneByteHolds;
    if opc < 0x20 {
      LongOneByteFrom00(opc);
      Ia32OneByteFrom00(opc);
    } else if opc < 0x40 {
      LongOneByteFrom20(opc);
      Ia32OneByteFrom20(opc);
    } else if opc < 0x80 {
      LongOneByteFrom40(opc);
      Ia32OneByteFrom40(opc);
    } else if opc < 0xC0 {
      LongOneByteFrom80(opc);
      Ia32OneByteFrom80(opc);
    } else {
      LongOneByteFromC0(opc);
      Ia32OneByteFromC0(opc);
    }
  }

  // The two- and three-byte maps -------------------------------------------------------------

  function TwoByteCellForm(longMode: bool, cell: byte, tail: byte): Form {
    if cell == 0x00 then WithOperand(NOTHING)
    else if cell in {0x02, 0x03, 0x06} || (cell == 0x07 && longMode) then NoOperand(FieldOf(longMode, tail, cell - 2))
    else if cell == 0xA1 then WithOperand(IB)
    else if cell in {0xE8, 0xEA} && longMode then MoreOpcode
    else if cell == 0xEE then Extension
    else Undefined
  }

  predicate LongTwoByteHolds(second: byte) {
    TwoByteCellForm(true, LongTwoByte(second), LongTail2(second)) == TwoByteForm(true, second)
  }

  predicate Ia32TwoByteHolds(second: byte) {
    TwoByteCellForm(false, Ia32TwoByte(second), Ia32Tail2(second)) == TwoByteForm(false, second)
  }

  lemma TwoByteTailsAre(second: byte)
    ensures LongTail2(second) == Ia32Tail2(second) == if 0x80 <= second <= 0x8F then TAIL_RELZ else TAIL_NONE
  {
  }

  lemma LongTwoByteFrom00(second: byte)
    requires second < 0x20
    ensures LongTwoByteHolds(second)
  {
    hide LongTail2;
    TwoByteTailsAre(second);
  }

  lemma LongTwoByteFrom20(second: byte)
    requires 0x20 <= second < 0x40
    ensures LongTwoByteHolds(second)
  {
    hide LongTail2;
    TwoByteTailsAre(second);
  }

  lemma LongTwoByteFrom40(second: byte)
    requires 0x40 <= second < 0x80
    ensures LongTwoByteHolds(second)
  {
    hide LongTail2;
    TwoByteTailsAre(second);
  }

  lemma LongTwoByteFrom80(second: byte)
    requires 0x80 <= second < 0xC0
    ensures LongTwoByteHolds(second)
  {
    hide LongTail2;
    TwoByteTailsAre(second);
  }

  lemma LongTwoByteFromC0(second: byte)
    requires 0xC0 <= second
    ensures LongTwoByteHolds(second)
  {
    hide LongTail2;
    TwoByteTailsAre(second);
  }

  lemma Ia32TwoByteFrom00(second: byte)
    requires second < 0x20
    ensures Ia32TwoByteHolds(second)
  {
    hide Ia32Tail2;
    TwoByteTailsAre(second);
  }

  lemma Ia32TwoByteFrom20(second: byte)
    requires 0x20 <= second < 0x40
    ensures Ia32TwoByteHolds(second)
  {
    hide Ia32Tail2;
    TwoByteTailsAre(second);
  }

  lemma Ia32TwoByteFrom40(second: byte)
    requires 0x40 <= second < 0x80
    ensures Ia32TwoByteHolds(second)
  {
    hide Ia32Tail2;
    TwoByteTailsAre(second);
  }

  lemma Ia32TwoByteFrom80(second: byte)
    requires 0x80 <= second < 0xC0
    ensures Ia32TwoByteHolds(second)
  {
    hide Ia32Tail2;
    TwoByteTailsAre(second);
  }

  lemma Ia32TwoByteFromC0(second: byte)
    requires 0xC0 <= second
    ensures Ia32TwoByteHolds(second)
  {
    hide Ia32Tail2;
    TwoByteTailsAre(second);
  }

  lemma TwoByteHolds(second: byte)
    ensures LongTwoByteHolds(second) && Ia32TwoByteHolds(second)
  {
    hide LongTwoByteHolds, Ia32TwoByteHolds;
    if second < 0x20 {
      LongTwoByteFrom00(second);
      Ia32TwoByteFrom00(second);
    } else if second < 0x40 {
      LongTwoByteFrom20(second);
      Ia32TwoByteFrom20(second);
    } else if second < 0x80 {
      LongTwoByteFrom40(second);
      Ia32TwoByteFrom40(second);
    } else if second < 0xC0 {
      LongTwoByteFrom80(second);
      Ia32TwoByteFrom80(second);
    } else {
      LongTwoByteFromC0(second);
      Ia32TwoByteFromC0(second);
    }
  }

  function ThreeByteCellForm(cell: byte): Form {
    if cell == 0x00 then WithOperand(NOTHING) else if cell == 0xA1 then WithOperand(IB) else Undefined
  }

  lemma Map38Holds(third: byte)
    ensures ThreeByteCellForm(LongMap38(third)) == Form38(third)
  {
  }

  lemma Map3AHolds(third: byte)
    ensures ThreeByteCellForm(LongMap3A(third)) == Form3A(third)
  {
  }

  // The group tables --------------------------------------------------------------------------

  lemma LongOneByteGroups(m: byte)
    ensures EntryForm(true, 1, LongGroupC6(m)) == OneByteExtension(true, 0xC6, m)
    ensures EntryForm(true, 1, LongGroupC7(m)) == OneByteExtension(true, 0xC7, m)
  {
  }

  lemma Ia32OneByteGroups(m: byte)
    ensures EntryForm(false, 1, Ia32GroupC6(m)) == OneByteExtension(false, 0xC6, m)
    ensures EntryForm(false, 1, Ia32GroupC7(m)) == OneByteExtension(false, 0xC7, m)
  {
  }

  lemma SharedOneByteGroups(longMode: bool, m: byte)
    ensures EntryForm(longMode, 1, GroupF6(m)) == OneByteExtension(longMode, 0xF6, m)
    ensures EntryForm(longMode, 1, GroupF7(m)) == OneByteExtension(longMode, 0xF7, m)
    ensures EntryForm(longMode, 1, GroupFE(m)) == OneByteExtension(longMode, 0xFE, m)
    ensures EntryForm(longMode, 1, GroupFF(m)) == OneByteExtension(longMode, 0xFF, m)
  {
  }

  lemma X87RowsD8(longMode: bool, m: byte)
    ensures EntryForm(longMode, 1, X87_D8(m)) == OneByteExtension(longMode, 0xD8, m)
    ensures EntryForm(longMode, 1, X87_D9(m)) == OneByteExtension(longMode, 0xD9, m)
    ensures EntryForm(longMode, 1, X87_DA(m)) == OneByteExtension(longMode, 0xDA, m)
    ensures EntryForm(longMode, 1, X87_DB(m)) == OneByteExtension(longMode, 0xDB, m)
  {
  }

  lemma X87RowsDC(longMode: bool, m: byte)
    ensures EntryForm(longMode, 1, X87_DC(m)) == OneByteExtension(longMode, 0xDC, m)
    ensures EntryForm(longMode, 1, X87_DD(m)) == OneByteExtension(longMode, 0xDD, m)
    ensures EntryForm(longMode, 1, X87_DE(m)) == OneByteExtension(longMode, 0xDE, m)
    ensures EntryForm(longMode, 1, X87_DF(m)) == OneByteExtension(longMode, 0xDF, m)
  {
  }

  lemma SharedTwoByteGroups(longMode: bool, m: byte)
    ensures EntryForm(longMode, 2, Group0F00(m)) == TwoByteExtension(longMode, 0x00, m)
    ensures EntryForm(longMode, 2, Group0F01(m)) == TwoByteExtension(longMode, 0x01, m)
    ensures EntryForm(longMode, 2, Group0F18(m)) == TwoByteExtension(longMode, 0x18, m)
    ensures EntryForm(longMode, 2, Group0F71(m)) == TwoByteExtension(longMode, 0x71, m)
    ensures EntryForm(longMode, 2, Group0F72(m)) == TwoByteExtension(longMode, 0x72, m)
    ensures EntryForm(longMode, 2, Group0F73(m)) == TwoByteExtension(longMode, 0x73, m)
    ensures EntryForm(longMode, 2, Group0FB9(m)) == TwoByteExtension(longMode, 0xB9, m)
    ensures EntryForm(longMode, 2, Group0FBA(m)) == TwoByteExtension(longMode, 0xBA, m)
  {
  }

  lemma OwnTwoByteGroups(m: byte)
    ensures EntryForm(true, 2, LongGroup0FAE(m)) == TwoByteExtension(true, 0xAE, m)
    ensures EntryForm(true, 2, LongGroup0FC7(m)) == TwoByteExtension(true, 0xC7, m)
    ensures EntryForm(false, 2, Ia32Group0FAE(m)) == TwoByteExtension(false, 0xAE, m)
    ensures EntryForm(false, 2, Ia32Group0FC7(m)) == TwoByteExtension(false, 0xC7, m)
  {
  }

  // ---- The tables hold the opcodes ------------------------------------------------------------

  lemma OneByteClass(t: Tables, opc: byte)
    requires WellFormed(t) && StartsOpcode(t, opc)
    ensures ClassForm(t.longMode, Classify1(t, opc)) == OneByteCellForm(t.longMode, t.oneByte[opc], t.tail[opc])
  {
    assert OneByteCellOk(t, opc);
  }

  lemma TwoByteClass(t: Tables, second: byte)
    requires WellFormed(t)
    ensures ClassForm(t.longMode, Classify2(t, second)) == TwoByteCellForm(t.longMode, t.twoByte[second], t.tail2[second])
  {
    assert TwoByteCellOk(t, second);
  }

  lemma ModeIs(longMode: bool)
    ensures WellFormed(ModeTables(longMode)) && ModeTables(longMode).longMode == longMode
  {
    ModesWellFormed(longMode);
  }

  lemma OneByteOpcodes(longMode: bool, opc: byte)
    requires !IsPrefix(longMode, opc) && !IsVex(longMode, opc)
    ensures var t := ModeTables(longMode);
            Indexable(t) && StartsOpcode(t, opc) && ClassForm(longMode, Classify1(t, opc)) == OneByteForm(longMode, opc)
  {
    ModeIs(longMode);
    PrefixKinds(longMode, opc);
    OneByteHolds(opc);
    var t := ModeTables(longMode);
    assert t.oneByte[opc] == if longMode then LongOneByte(opc) else Ia32OneByte(opc);
    assert t.tail[opc] == if longMode then LongTail(opc) else Ia32Tail(opc);
    hide ModeTables, LongOneByte, Ia32OneByte, LongTail, Ia32Tail, OneByteForm, OneByteCellForm;
    OneByteClass(t, opc);
  }

  lemma TwoByteOpcodes(longMode: bool, second: byte)
    ensures var t := ModeTables(longMode);
            Indexable(t) && ClassForm(longMode, Classify2(t, second)) == TwoByteForm(longMode, second)
  {
    ModeIs(longMode);
    TwoByteHolds(second);
    var t := ModeTables(longMode);
    assert t.twoByte[second] == if longMode then LongTwoByte(second) else Ia32TwoByte(second);
    assert t.tail2[second] == if longMode then LongTail2(second) else Ia32Tail2(second);
    hide ModeTables, LongTwoByte, Ia32TwoByte, LongTail2, Ia32Tail2, TwoByteForm, TwoByteCellForm;
    TwoByteClass(t, second);
  }

  lemma ThreeByteOpcodes(second: byte, third: byte)
    requires second == 0x38 || second == 0x3A
    ensures Indexable(LONG) && LONG.longMode
    ensures ClassForm(true, Classify3(LONG, second, third)) == if second == 0x38 then Form38(third) else Form3A(third)
  {
    LongIndexable();
    assert LONG.map38[third] == LongMap38(third) && LONG.map3A[third] == LongMap3A(third);
    assert LONG.twoByte[second] == LongTwoByte(second);
    assert LongTwoByte(0x38) == 0xE8 && LongTwoByte(0x3A) == 0xEA;
    Map38Holds(third);
    Map3AHolds(third);
    hide LONG, LongMap38, LongMap3A, LongTwoByte, Form38, Form3A;
  }

  /** Every opcode has the class its number says. */
  lemma OpcodeClasses(longMode: bool, opcode: seq<byte>)
    requires IsOpcode(longMode, opcode) && !IsPrefix(longMode, opcode[0]) && !IsVex(longMode, opcode[0])
    ensures var t := ModeTables(longMode);
            Indexable(t) && StartsOpcode(t, opcode[0]) && ClassForm(longMode, Classify(t, opcode)) == FormOf(longMode, opcode)
  {
    hide IsPrefix, IsVex, StartsOpcode, Classify1, Classify2, Classify3, Form38, Form3A, LONG, IA32;
    ModeIs(longMode);
    OneByteOpcodes(longMode, opcode[0]);
    if |opcode| > 1 {
      TwoByteOpcodes(longMode, opcode[1]);
    }
    if |opcode| > 2 {
      ThreeByteOpcodes(opcode[1], opcode[2]);
    }
  }

  /** No other byte string is an opcode. */
  lemma NoOtherOpcodes(longMode: bool, opcode: seq<byte>)
    requires opcode != [] && !IsPrefix(longMode, opcode[0]) && !IsVex(longMode, opcode[0]) && !IsOpcode(longMode, opcode)
    ensures var t := ModeTables(longMode); Indexable(t) && !Lengthy(Classify(t, opcode))
  {
    hide IsPrefix, IsVex, StartsOpcode, Classify1, Classify2, Classify3, ModeTables;
    ModeIs(longMode);
    OneByteOpcodes(longMode, opcode[0]);
    if |opcode| > 1 {
      TwoByteOpcodes(longMode, opcode[1]);
    }
  }

  // Table lookups ------------------------------------------------------------------------------

  lemma LongGrp1Holds(opc: byte, m: byte)
    requires opc in LONG_GRP1
    ensures |LONG_GRP1[opc]| == 0x100 && EntryForm(true, 1, LONG_GRP1[opc][m]) == OneByteExtension(true, opc, m)
  {
    LongOneByteGroups(m);
    SharedOneByteGroups(true, m);
    hide EntryForm, OneByteExtension;
  }

  lemma Ia32Grp1Holds(opc: byte, m: byte)
    requires opc in IA32_GRP1
    ensures |IA32_GRP1[opc]| == 0x100 && EntryForm(false, 1, IA32_GRP1[opc][m]) == OneByteExtension(false, opc, m)
  {
    Ia32OneByteGroups(m);
    SharedOneByteGroups(false, m);
    hide EntryForm, OneByteExtension;
  }

  lemma X87RowHolds(longMode: bool, opc: byte, m: byte)
    requires 0xD8 <= opc <= 0xDF
    ensures |X87_ROWS[opc - 0xD8]| == 0x100 && EntryForm(longMode, 1, X87_ROWS[opc - 0xD8][m]) == OneByteExtension(longMode, opc, m)
  {
    X87RowsD8(longMode, m);
    X87RowsDC(longMode, m);
    hide EntryForm, OneByteExtension;
  }

  lemma LongGrp2Holds(second: byte, m: byte)
    requires second in LONG_GRP2
    ensures |LONG_GRP2[second]| == 0x100 && EntryForm(true, 2, LONG_GRP2[second][m]) == TwoByteExtension(true, second, m)
  {
    SharedTwoByteGroups(true, m);
    OwnTwoByteGroups(m);
    hide EntryForm, TwoByteExtension;
  }

  lemma Ia32Grp2Holds(second: byte, m: byte)
    requires second in IA32_GRP2
    ensures |IA32_GRP2[second]| == 0x100 && EntryForm(false, 2, IA32_GRP2[second][m]) == TwoByteExtension(false, second, m)
  {
    SharedTwoByteGroups(false, m);
    OwnTwoByteGroups(m);
    hide EntryForm, TwoByteExtension;
  }

  lemma OneByteTables(longMode: bool, opc: byte, m: byte)
    ensures var t := ModeTables(longMode);
            && Indexable(t)
            && (GroupAt1(t, opc).Some? ==> EntryForm(longMode, 1, GroupAt1(t, opc).value[m]) == OneByteExtension(longMode, opc, m))
  {
    ModeIs(longMode);
    hide EntryForm, OneByteExtension, FixedBodiesFit, EntriesDecide, CellsHandled, LONG_GRP1, IA32_GRP1, X87_ROWS;
    var t := ModeTables(longMode);
    if GroupAt1(t, opc).Some? {
      if t.oneByte[opc] == 0xEF {
        X87RowHolds(longMode, opc, m);
      } else if longMode {
        LongGrp1Holds(opc, m);
      } else {
        Ia32Grp1Holds(opc, m);
      }
    }
  }

  lemma TwoByteTables(longMode: bool, second: byte, m: byte)
    ensures var t := ModeTables(longMode);
            && Indexable(t)
            && (GroupAt2(t, second).Some? ==> EntryForm(longMode, 2, GroupAt2(t, second).value[m]) == TwoByteExtension(longMode, second, m))
  {
    ModeIs(longMode);
    hide EntryForm, TwoByteExtension, FixedBodiesFit, EntriesDecide, CellsHandled, LONG_GRP2, IA32_GRP2;
    if GroupAt2(ModeTables(longMode), second).Some? {
      if longMode {
        LongGrp2Holds(second, m);
      } else {
        Ia32Grp2Holds(second, m);
      }
    }
  }

  /** The form of an opcode behind which the ModRM byte `m` stands. */
  function FormAt(longMode: bool, n: nat, c: OpcodeClass, m: byte): Form
    requires c.Grouped? ==> |c.table| == 0x100
  {
    if c.Grouped? then EntryForm(longMode, n, c.table[m]) else ClassForm(longMode, c)
  }

  lemma GroupedTable(t: Tables, opcode: seq<byte>)
    requires Indexable(t) && Classify(t, opcode).Grouped?
    ensures || (|opcode| == 1 && GroupAt1(t, opcode[0]) == Some(Classify(t, opcode).table))
            || (|opcode| == 2 && GroupAt2(t, opcode[1]) == Some(Classify(t, opcode).table))
  {
  }

  /** Every opcode and ModRM byte has the form its number, mod and reg say. */
  lemma OpcodeForms(longMode: bool, opcode: seq<byte>, m: byte)
    requires IsOpcode(longMode, opcode) && !IsPrefix(longMode, opcode[0]) && !IsVex(longMode, opcode[0])
    ensures var t := ModeTables(longMode);
            && Indexable(t) && StartsOpcode(t, opcode[0]) && ClassForm(longMode, Classify(t, opcode)) == FormOf(longMode, opcode)
            && FormAt(longMode, |opcode|, Classify(t, opcode), m) == FormWith(longMode, opcode, m)
  {
    hide ModeTables, IsPrefix, IsVex, StartsOpcode, Classify, FormOf, EntryForm, OneByteExtension, TwoByteExtension;
    OpcodeClasses(longMode, opcode);
    var t := ModeTables(longMode);
    if Classify(t, opcode).Grouped? {
      GroupedTable(t, opcode);
      OneByteTables(longMode, opcode[0], m);
      if |opcode| > 1 {
        TwoByteTables(longMode, opcode[1], m);
      }
    }
  }

  // ---- The tables' encodings are the instructions ---------------------------------------------

  /** Widths behind these prefixes. */
  lemma WidthsAgree(longMode: bool, run: seq<byte>, kind: byte, default: nat)
    ensures var t := ModeTables(longMode);
            Indexable(t) && TailWidth(longMode, kind, default, Summary(t, run)) == WidthBehind(longMode, run, FieldOf(longMode, kind, default))
  {
    hide ModeTables, Summary, TailWidth, FieldOf, IsSegment;
    SummaryIsBytes(longMode, run);
    TailIsWidth(longMode, kind, default, Summary(ModeTables(longMode), run));
  }

  lemma OperandsAgree(longMode: bool, run: seq<byte>, opcode: seq<byte>, operand: seq<byte>)
    requires IsOpcode(longMode, opcode)
    ensures var t := ModeTables(longMode);
            && Indexable(t)
            && (OperandOk(opcode, operand, Addr16(t, Summary(t, run))) <==>
                IsOperand(longMode, run, operand) && !IsLeaOfRegister(opcode, operand))
  {
    hide ModeTables, Summary, IsSegment;
    ModeIs(longMode);
    SummaryIsBytes(longMode, run);
    assert |opcode| == 1 ==> opcode == [opcode[0]];
  }

  lemma FixedWidths(longMode: bool, run: seq<byte>)
    ensures forall n: nat :: WidthBehind(longMode, run, Fixed(n)) == n
    ensures !IsOperand(longMode, run, [])
  {
  }

  lemma OpenedEncodes(longMode: bool, x: Instruction)
    requires Opening(longMode, x.prefixes, x.opcode)
    ensures Indexable(ModeTables(longMode)) && (Encodes(ModeTables(longMode), x) <==> Assembles(longMode, x))
  {
    hide ModeTables, Summary, AllPrefixes, StartsOpcode, IsPrefix, IsVex, ArePrefixes, Classify, FormOf, FormWith, FieldOf, TailWidth, WidthBehind,
         OperandOk, IsOperand, IsLeaOfRegister, FixedBodiesFit, EntriesDecide, CellsHandled, TableFits, Addr16;
    var t := ModeTables(longMode);
    ModeIs(longMode);
    var m := if x.operand == [] then 0 else x.operand[0];
    OpcodeForms(longMode, x.opcode, m);
    SummaryIsBytes(longMode, x.prefixes);
    OperandsAgree(longMode, x.prefixes, x.opcode, x.operand);
    ClassFits(t, x.opcode);
    match Classify(t, x.opcode)
    case Plain(kind, default) => WidthsAgree(longMode, x.prefixes, kind, default);
    case WithModrm(kind, default) => WidthsAgree(longMode, x.prefixes, kind, default);
    case Grouped(table) =>
      FitsEntry(|x.opcode|, table, m);
      FixedWidths(longMode, x.prefixes);
      var e := table[m];
      WidthsAgree(longMode, x.prefixes, if 0x80 <= e < 0xA0 then e - 0x80 else TAIL_NONE, 0);
    case _ =>
  }

  /** The encodings of a mode's tables are exactly the instructions of Opcodes. */
  lemma EncodesExactly(longMode: bool, x: Instruction)
    ensures Indexable(ModeTables(longMode)) && (Encodes(ModeTables(longMode), x) <==> Assembles(longMode, x))
  {
    hide ModeTables, Summary, AllPrefixes, StartsOpcode, IsPrefix, IsVex, ArePrefixes, Classify, FormWith, IsOpcode;
    var t := ModeTables(longMode);
    ModeIs(longMode);
    if Opening(longMode, x.prefixes, x.opcode) {
      OpenedEncodes(longMode, x);
    } else if Encodes(t, x) {
      SummaryIsBytes(longMode, x.prefixes);
      PrefixKinds(longMode, x.opcode[0]);
      NoOtherOpcodes(longMode, x.opcode);
    }
  }

  // ---- Round trips ----------------------------------------------------------------------------

  /** Every instruction in front of any bytes gets its own size, or 0xE1 beyond the cap. */
  lemma InstructionRoundTrip(longMode: bool, x: Instruction, trailing: seq<byte>)
    requires Assembles(longMode, x)
    ensures Indexable(ModeTables(longMode))
    ensures Verdict(ModeTables(longMode), x.Bytes() + trailing) ==
            if |x.Bytes()| <= MAX_INSN_LEN then |x.Bytes()| else UNDEFINED_INSTRUCTION
  {
    hide ModeTables, Assembles, Verdict;
    EncodesExactly(longMode, x);
    AssembledDecodes(ModeTables(longMode), x, trailing);
  }

  /** And every length is the size of the one instruction at the front of the window. */
  lemma LengthIffAssembles(longMode: bool, w: seq<byte>)
    ensures Indexable(ModeTables(longMode))
    ensures !IsError(Verdict(ModeTables(longMode), w)) <==>
            exists x: Instruction :: Assembles(longMode, x) && |x.Bytes()| <= MAX_INSN_LEN && x.Bytes() <= w
    ensures forall x: Instruction :: Assembles(longMode, x) && |x.Bytes()| <= MAX_INSN_LEN && x.Bytes() <= w ==>
              Verdict(ModeTables(longMode), w) == |x.Bytes()| && x == Parse(ModeTables(longMode), w)
  {
    hide ModeTables, Assembles, Encodes, Verdict, Parse;
    ModeIs(longMode);
    forall x: Instruction ensures Encodes(ModeTables(longMode), x) <==> Assembles(longMode, x) {
      EncodesExactly(longMode, x);
    }
    LengthIffInstruction(ModeTables(longMode), w);
  }

  /** Opcode bytes, operand and immediate of an instruction whose form has a ModRM operand. */
  lemma ModrmFormRoundTrip(longMode: bool, prefixes: seq<byte>, opcode: seq<byte>, operand: seq<byte>, imm: seq<byte>, trailing: seq<byte>)
    requires Opening(longMode, prefixes, opcode) && IsOperand(longMode, prefixes, operand)
    requires FormWith(longMode, opcode, operand[0]).WithOperand?
    requires |imm| == WidthBehind(longMode, prefixes, FormWith(longMode, opcode, operand[0]).field)
    ensures Indexable(ModeTables(longMode))
    ensures var total := |prefixes| + |opcode| + |operand| + |imm|;
            Verdict(ModeTables(longMode), prefixes + opcode + operand + imm + trailing) ==
            if total <= MAX_INSN_LEN && !IsLeaOfRegister(opcode, operand) then total else UNDEFINED_INSTRUCTION
  {
    hide ModeTables, Verdict, Opening, FormWith, WidthBehind;
    if IsLeaOfRegister(opcode, operand) {
      LeaIsUndefined(longMode, prefixes, operand[0], operand[1..] + imm + trailing);
      assert prefixes + opcode + operand + imm + trailing == prefixes + [0x8D, operand[0]] + (operand[1..] + imm + trailing);
    } else {
      InstructionRoundTrip(longMode, Instruction(prefixes, opcode, operand, imm), trailing);
    }
  }

  /** LEA of a register is 0xE1. */
  lemma LeaIsUndefined(longMode: bool, prefixes: seq<byte>, modrm: byte, trailing: seq<byte>)
    requires Opening(longMode, prefixes, [0x8D]) && Mod(modrm) == 3
    ensures Indexable(ModeTables(longMode))
    ensures Verdict(ModeTables(longMode), prefixes + [0x8D, modrm] + trailing) == UNDEFINED_INSTRUCTION
  {
    hide ModeTables, Verdict, Classify1, IsSegment;
    SummaryIsBytes(longMode, prefixes);
    OneByteOpcodes(longMode, 0x8D);
    LeaOfRegister(ModeTables(longMode), prefixes, modrm, trailing);
  }

  /** The same for forms without a ModRM byte. */
  lemma PlainFormRoundTrip(longMode: bool, prefixes: seq<byte>, opcode: seq<byte>, imm: seq<byte>, trailing: seq<byte>)
    requires Opening(longMode, prefixes, opcode) && FormOf(longMode, opcode).NoOperand?
    requires |imm| == WidthBehind(longMode, prefixes, FormOf(longMode, opcode).field)
    ensures Indexable(ModeTables(longMode))
    ensures var total := |prefixes| + |opcode| + |imm|;
            Verdict(ModeTables(longMode), prefixes + opcode + imm + trailing) ==
            if total <= MAX_INSN_LEN then total else UNDEFINED_INSTRUCTION
  {
    hide ModeTables, Verdict, Opening, WidthBehind, FormOf;
    var x := Instruction(prefixes, opcode, [], imm);
    assert x.Bytes() == prefixes + opcode + imm;
    InstructionRoundTrip(longMode, x, trailing);
  }

  lemma NoLengthNoBody(t: Tables, w: seq<byte>, r: nat, opcode: seq<byte>, pf: PrefixInfo)
    requires WellFormed(t) && 1 <= |opcode| <= 3 && r + |opcode| <= |w| && w[r..r + |opcode|] == opcode && StartsOpcode(t, opcode[0])
    requires |opcode| > 1 ==> Classify1(t, opcode[0]).Escape?
    requires |opcode| > 2 ==> Classify2(t, opcode[1]).Escape?
    requires Classify(t, opcode).NoLength?
    ensures Decode(t, w, r, pf) == UNDEFINED_INSTRUCTION
  {
    hide Decode, TwoByteLen, Classify1, Classify2, Classify3, FixedBodiesFit, EntriesDecide, CellsHandled;
    assert w[r] == opcode[0] && (|opcode| > 1 ==> w[r + 1] == opcode[1]) && (|opcode| > 2 ==> w[r + 2] == opcode[2]);
    DecodeBounds(t, w, r, pf);
    DecodeByClass1(t, w, r, pf);
    if |opcode| == 2 {
      DecodeByClass2(t, w, r, pf);
    } else if |opcode| == 3 {
      DecodeByClass3(t, w, r, pf);
    }
  }

  lemma UndefinedEntry(t: Tables, w: seq<byte>, r: nat, opcode: seq<byte>, pf: PrefixInfo)
    requires WellFormed(t) && opcode != [] && r + |opcode| < |w| && w[r..r + |opcode|] == opcode && StartsOpcode(t, opcode[0])
    requires Classify(t, opcode).Grouped?
    requires EntryForm(t.longMode, |opcode|, Classify(t, opcode).table[w[r + |opcode|]]).Undefined?
    ensures Decode(t, w, r, pf) == UNDEFINED_INSTRUCTION
  {
    hide Decode, Classify, ModrmLen, FixedBodiesFit, EntriesDecide, CellsHandled;
    assert w[r] == opcode[0];
    DecodeBounds(t, w, r, pf);
    DecodeByClass(t, w, r, |opcode|, pf);
    ClassFits(t, opcode);
    FitsEntry(|opcode|, Classify(t, opcode).table, w[r + |opcode|]);
    ClassDecides(t, opcode, w[r + |opcode|]);
  }

  lemma ClassDecides(t: Tables, opcode: seq<byte>, m: byte)
    requires WellFormed(t) && opcode != [] && StartsOpcode(t, opcode[0]) && Classify(t, opcode).Grouped?
    ensures EntryDecides(Classify(t, opcode).table[m])
  {
  }

  lemma EscapesLead(longMode: bool, opcode: seq<byte>)
    requires IsOpcode(longMode, opcode)
    ensures var t := ModeTables(longMode);
            && Indexable(t)
            && (|opcode| > 1 ==> Classify1(t, opcode[0]).Escape?) && (|opcode| > 2 ==> Classify2(t, opcode[1]).Escape?)
  {
    hide ModeTables, Classify1, Classify2;
    ModeIs(longMode);
    if |opcode| > 1 {
      OneByteOpcodes(longMode, opcode[0]);
      TwoByteOpcodes(longMode, opcode[1]);
    }
  }

  /** Opcode numbers and ModRM bytes that no form covers are 0xE1 behind any prefixes and before any bytes. */
  lemma UndefinedForms(longMode: bool, prefixes: seq<byte>, opcode: seq<byte>, trailing: seq<byte>)
    requires Opening(longMode, prefixes, opcode)
    requires if FormOf(longMode, opcode).Extension? then trailing != [] && FormWith(longMode, opcode, trailing[0]).Undefined?
             else FormOf(longMode, opcode).Undefined?
    ensures Indexable(ModeTables(longMode))
    ensures Verdict(ModeTables(longMode), prefixes + opcode + trailing) == UNDEFINED_INSTRUCTION
  {
    hide ModeTables, Summary, AllPrefixes, ArePrefixes, StartsOpcode, IsPrefix, IsVex, Classify, Classify1, Classify2, FormOf, FormWith,
         EntryForm, Decode, FixedBodiesFit, EntriesDecide, CellsHandled;
    var t := ModeTables(longMode);
    var w, r, n := prefixes + opcode + trailing, |prefixes|, |opcode|;
    ModeIs(longMode);
    OpcodeForms(longMode, opcode, if trailing == [] then 0 else trailing[0]);
    EscapesLead(longMode, opcode);
    SummaryIsBytes(longMode, prefixes);
    PrefixKinds(longMode, opcode[0]);
    var pf := Summary(t, prefixes);
    assert w[..r] == prefixes && w[r] == opcode[0] && w[r..r + n] == opcode;
    RunLengthIs(t, w, r);
    SummaryLength(t, prefixes);
    if Classify(t, opcode).Grouped? {
      assert w[r + n] == trailing[0];
      UndefinedEntry(t, w, r, opcode, pf);
    } else {
      NoLengthNoBody(t, w, r, opcode, pf);
    }
  }

  /**
   * Opcode extensions and x87: the ModRM byte's mod, reg and rm fields say whether there is an instruction,
   * whether its operand has a displacement, and which field follows.
   */
  lemma ExtensionRoundTrip(longMode: bool, prefixes: seq<byte>, opcode: seq<byte>, operand: seq<byte>, imm: seq<byte>, trailing: seq<byte>)
    requires Opening(longMode, prefixes, opcode) && FormOf(longMode, opcode).Extension? && operand != []
    requires match FormWith(longMode, opcode, operand[0])
             case WithOperand(f) => IsOperand(longMode, prefixes, operand) && |imm| == WidthBehind(longMode, prefixes, f)
             case ModrmOnly(f) => |operand| == 1 && |imm| == WidthBehind(longMode, prefixes, f)
             case _ => true
    ensures Indexable(ModeTables(longMode))
    ensures var total := |prefixes| + |opcode| + |operand| + |imm|;
            Verdict(ModeTables(longMode), prefixes + opcode + operand + imm + trailing) ==
            if total <= MAX_INSN_LEN && !FormWith(longMode, opcode, operand[0]).Undefined? then total else UNDEFINED_INSTRUCTION
  {
    hide ModeTables, Verdict, ArePrefixes, IsPrefix, IsVex, WidthBehind, FormOf, FormWith;
    ExtensionForms(longMode, opcode, operand[0]);
    if FormWith(longMode, opcode, operand[0]).Undefined? {
      UndefinedForms(longMode, prefixes, opcode, operand + imm + trailing);
      assert prefixes + opcode + operand + imm + trailing == prefixes + opcode + (operand + imm + trailing);
    } else {
      InstructionRoundTrip(longMode, Instruction(prefixes, opcode, operand, imm), trailing);
    }
  }

  lemma ExtensionForms(longMode: bool, opcode: seq<byte>, m: byte)
    requires IsOpcode(longMode, opcode) && FormOf(longMode, opcode).Extension?
    ensures var form := FormWith(longMode, opcode, m); form.Undefined? || form.WithOperand? || form.ModrmOnly?
    ensures opcode != [0x8D]
  {
  }

  /** In long mode a byte that starts a VEX or EVEX encoding is 0xE1 behind any prefixes. */
  lemma VexIsUndefined(prefixes: seq<byte>, b: byte, trailing: seq<byte>)
    requires ArePrefixes(true, prefixes) && b in {0x62, 0xC4, 0xC5}
    ensures Indexable(LONG) && Verdict(LONG, prefixes + [b] + trailing) == UNDEFINED_INSTRUCTION
  {
    hide LONG, AllPrefixes, ArePrefixes, IsPrefix;
    var w := prefixes + [b] + trailing;
    ModeIs(true);
    assert ModeTables(true) == LONG;
    SummaryIsBytes(true, prefixes);
    PrefixKinds(true, b);
    assert w[..|prefixes|] == prefixes && w[|prefixes|] == b;
    VexStops(LONG, w, |prefixes|);
  }

  lemma VexStops(t: Tables, w: seq<byte>, r: nat)
    requires Indexable(t) && t.longMode && r < |w| && AllPrefixes(t, w[..r]) && IsVexByte(t, w[r])
    ensures Verdict(t, w) == UNDEFINED_INSTRUCTION
  {
    RunLengthIs(t, w, r);
  }

  // ---- The cap and a first 0x66 -----------------------------------------------------------------

  lemma FiveSegmentsBody(t: Tables, w: seq<byte>, pf: PrefixInfo)
    requires Indexable(t) && |w| == 8 && w[5] == 0x81 && w[6] == 0x84 && w[7] == 0x24 && !pf.has67
    requires Classify1(t, 0x81).WithModrm? && TailWidth(t.longMode, Classify1(t, 0x81).kind, Classify1(t, 0x81).default, pf) == 4
    ensures Decode(t, w, 5, pf) == 11
  {
    hide TailWidth, Classify1, Decode;
    DecodeByClass1(t, w, 5, pf);
  }

  /** Eight bytes already settle that the instruction is too long. */
  lemma FiveSegmentsAreTooMany(longMode: bool)
    ensures var t, w := ModeTables(longMode), [0x2E, 0x2E, 0x2E, 0x2E, 0x2E] + [0x81, 0x84, 0x24];
            Indexable(t) && Verdict(t, w) == UNDEFINED_INSTRUCTION
  {
    hide ModeTables, AllPrefixes, HasKind, Decode, Classify1, TailWidth, IsSegment, FieldOf;
    var t := ModeTables(longMode);
    var p: seq<byte> := [0x2E, 0x2E, 0x2E, 0x2E, 0x2E];
    var w := p + [0x81, 0x84, 0x24];
    SegmentsArePrefixes(longMode, p);
    OneByteOpcodes(longMode, 0x81);
    var c := Classify1(t, 0x81);
    ModeIs(longMode);
    SummaryIsBytes(longMode, p);
    assert w[..5] == p;
    RunLengthIs(t, w, 5);
    WidthsAgree(longMode, p, c.kind, c.default);
    FiveSegmentsBody(t, w, Summary(t, p));
  }

  lemma SegmentsArePrefixes(longMode: bool, p: seq<byte>)
    requires forall i :: 0 <= i < |p| ==> p[i] == 0x2E || p[i] == 0x66
    ensures ArePrefixes(longMode, p) && !IsPrefix(longMode, 0x81) && !IsVex(longMode, 0x81) && RexOf(longMode, p) == 0
  {
  }

  /**
   * 0xE1 for excess length does not survive a first 0x66: sixteen bytes become fifteen, and their first
   * eight, which are 0xE1 as well, become 0xE0.
   */
  lemma OperandSizeCanRescue(longMode: bool)
    ensures var t := ModeTables(longMode);
            var p: seq<byte>, v: seq<byte> := [0x2E, 0x2E, 0x2E, 0x2E, 0x2E], [0x2E, 0x2E, 0x2E, 0x2E, 0x2E] + [0x81, 0x84, 0x24];
            var w := p + [0x81] + [0x84, 0x24, 0, 0, 0, 0] + [0, 0, 0, 0];
            && Indexable(t)
            && Verdict(t, w) == UNDEFINED_INSTRUCTION && Verdict(t, [0x66] + w) == MAX_INSN_LEN
            && Verdict(t, v) == UNDEFINED_INSTRUCTION && Verdict(t, [0x66] + v) == INSUFFICIENT_BUFFER
  {
    hide ModeTables, Verdict, ArePrefixes, IsPrefix, IsVex;
    var p: seq<byte>, operand: seq<byte>, imm: seq<byte>, half: seq<byte> :=
      [0x2E, 0x2E, 0x2E, 0x2E, 0x2E], [0x84, 0x24, 0, 0, 0, 0], [0, 0, 0, 0], [0, 0];
    SegmentsArePrefixes(longMode, p);
    SegmentsArePrefixes(longMode, [0x66] + p);
    assert ([0x66] + p)[0] == 0x66;
    ModrmFormRoundTrip(longMode, p, [0x81], operand, imm, []);
    ModrmFormRoundTrip(longMode, [0x66] + p, [0x81], operand, half, half);
    var w := p + [0x81] + operand + imm;
    assert w + [] == w;
    assert [0x66] + w == ([0x66] + p) + [0x81] + operand + half + half;
    FiveSegmentsAreTooMany(longMode);
    RescuedPart(longMode, [0x66] + w, [0x66] + (p + [0x81, 0x84, 0x24]));
  }

  lemma RescuedPart(longMode: bool, w: seq<byte>, v: seq<byte>)
    requires Indexable(ModeTables(longMode)) && Verdict(ModeTables(longMode), w) == MAX_INSN_LEN && v <= w && |v| < MAX_INSN_LEN
    ensures Verdict(ModeTables(longMode), v) == INSUFFICIENT_BUFFER
  {
    ModesWellFormed(longMode);
    TruncationIsInsufficient(ModeTables(longMode), w, |v|);
    assert w[..|v|] == v;
  }

  // ---- What of the prefixes counts ----------------------------------------------------------------

  /** Two prefix runs of one size that agree on 66, 67 and an effective REX.W are interchangeable. */
  lemma OnlyWidthsCount(longMode: bool, p: seq<byte>, q: seq<byte>, rest: seq<byte>)
    requires ArePrefixes(longMode, p) && ArePrefixes(longMode, q) && |p| == |q|
    requires (0x66 in p <==> 0x66 in q) && (0x67 in p <==> 0x67 in q) && (RexWApplies(longMode, p) <==> RexWApplies(longMode, q))
    requires rest != [] ==> !IsPrefix(longMode, rest[0])
    ensures Indexable(ModeTables(longMode)) && Verdict(ModeTables(longMode), p + rest) == Verdict(ModeTables(longMode), q + rest)
  {
    hide ModeTables, Verdict, Summary, AllPrefixes, ArePrefixes, RexWApplies, IsSegment, IsPrefix, IsPrefixByte;
    ModeIs(longMode);
    SummaryIsBytes(longMode, p);
    SummaryIsBytes(longMode, q);
    if rest != [] {
      PrefixKinds(longMode, rest[0]);
    }
    PrefixNonInterference(ModeTables(longMode), p, q, rest);
  }
}
