/** Laws of the two committed decoders: exact bounds, and where the modes agree. */
module ModeLaws {
  import opened Common
  import opened Tables
  import opened LongModeTables
  import opened Ia32Tables
  import opened Decoder
  import opened Locality
  import opened Verdicts
  import opened Grammar
  import opened Modes

  // ---- No body exceeds eleven bytes ------------------------------------------------------

  const MAX_BODY: nat := 11

  lemma GroupBody(longMode: bool, w: seq<byte>, first: nat, opcSize: nat, pf: PrefixInfo, table: seq<byte>)
    requires first < |w| && CommittedTable(table) && 1 <= opcSize <= 2
    requires opcSize == 2 ==> forall m: byte :: table[m] != 0x83
    ensures var v := GroupLen(longMode, w, first, opcSize, pf, table); IsError(v) || v <= MAX_BODY
  {
  }

  lemma TwoByteGroupsHaveNoSizedTail(longMode: bool, second: byte, m: byte)
    ensures var t := ModeTables(longMode);
            Indexable(t) && (GroupAt2(t, second).Some? ==> CommittedTable(GroupAt2(t, second).value) && GroupAt2(t, second).value[m] != 0x83)
  {
    ModesWellFormed(longMode);
    LongGroupsCommitted();
    Ia32GroupsCommitted();
  }

  lemma OneByteGroupsCommitted(longMode: bool, opc: byte)
    ensures var t := ModeTables(longMode);
            Indexable(t) && (GroupAt1(t, opc).Some? ==> CommittedTable(GroupAt1(t, opc).value))
  {
    ModesWellFormed(longMode);
    LongGroupsCommitted();
    Ia32GroupsCommitted();
    SharedGroupsCommitted();
  }

  lemma TailCells(longMode: bool, opc: byte)
    ensures var t := ModeTables(longMode);
            Indexable(t) && (t.oneByte[opc] == 0xA4 ==> t.tail[opc] == TAIL_IZ)
  {
    ModesWellFormed(longMode);
    if longMode {
      assert LONG.oneByte[opc] == LongOneByte(opc) && LONG.tail[opc] == LongTail(opc);
    } else {
      assert IA32.oneByte[opc] == Ia32OneByte(opc) && IA32.tail[opc] == Ia32Tail(opc);
    }
  }

  lemma TwoByteBody(longMode: bool, w: seq<byte>, first: nat, pf: PrefixInfo)
    requires first < |w|
    ensures var t := ModeTables(longMode);
            Indexable(t) && var v := TwoByteLen(t, w, first, pf); IsError(v) || v <= MAX_BODY
  {
    ModesWellFormed(longMode);
    var t := ModeTables(longMode);
    hide ModrmLen, GroupLen, ModeTables, FixedBodiesFit, EntriesDecide, CellsHandled;
    ModrmBounds(t.longMode, w, first, 2, pf);
    ModrmBounds(t.longMode, w, first, 3, pf);
    if first + 1 < |w| {
      var second := w[first + 1];
      forall m: byte
        ensures GroupAt2(t, second).Some? ==> CommittedTable(GroupAt2(t, second).value) && GroupAt2(t, second).value[m] != 0x83
      {
        TwoByteGroupsHaveNoSizedTail(longMode, second, m);
      }
      TwoByteGroupsHaveNoSizedTail(longMode, second, 0);
      if GroupAt2(t, second).Some? {
        GroupBody(t.longMode, w, first, 2, pf, GroupAt2(t, second).value);
      }
    }
  }

  /** Every successful body has at most 11 bytes, so no length can reach the error codes. */
  lemma BodyBound(longMode: bool, w: seq<byte>, first: nat, pf: PrefixInfo)
    requires first < |w|
    ensures var t := ModeTables(longMode);
            Indexable(t) && var v := Decode(t, w, first, pf); IsError(v) || v <= MAX_BODY
  {
    ModesWellFormed(longMode);
    var t := ModeTables(longMode);
    hide ModrmLen, GroupLen, TwoByteLen, ModeTables, FixedBodiesFit, EntriesDecide, CellsHandled;
    ModrmBounds(t.longMode, w, first, 1, pf);
    TwoByteBody(longMode, w, first, pf);
    TailCells(longMode, w[first]);
    OneByteGroupsCommitted(longMode, w[first]);
    if GroupAt1(t, w[first]).Some? {
      GroupBody(t.longMode, w, first, 1, pf, GroupAt1(t, w[first]).value);
    }
  }

  /** The cap rejects a decoded body only behind at least five prefixes. */
  lemma CapNeedsFivePrefixes(longMode: bool, w: seq<byte>)
    ensures var t := ModeTables(longMode);
            && WellFormed(t)
            && var r := RunLength(t, w);
               r < |w| && r < 5 && StartsOpcode(t, w[r]) && !IsError(Decode(t, w, r, Summary(t, w[..r]))) ==>
                 Verdict(t, w) != UNDEFINED_INSTRUCTION
  {
    ModesWellFormed(longMode);
    var t := ModeTables(longMode);
    hide ModeTables, Decode, FixedBodiesFit, EntriesDecide, CellsHandled;
    var r := RunLength(t, w);
    if r < |w| {
      BodyBound(longMode, w, r, Summary(t, w[..r]));
    }
  }

  /** ADD [disp32 + SIB], imm32: eleven bytes, in both modes, with up to four prefixes in front; five are too many. */
  function LongestBody(prefixes: seq<byte>): Instruction {
    Instruction(prefixes, [0x81], [0x84, 0x24, 0, 0, 0, 0], [0, 0, 0, 0])
  }

  lemma LongestBodyEncodes(longMode: bool, prefixes: seq<byte>)
    requires forall i :: 0 <= i < |prefixes| ==> prefixes[i] == 0x2E
    ensures var t := ModeTables(longMode); Indexable(t) && Encodes(t, LongestBody(prefixes))
  {
    ModesWellFormed(longMode);
    var t := ModeTables(longMode);
    assert t.prefix[0x2E] == Seg && t.prefix[0x81] == NotPrefix by {
      assert LongPrefix(0x2E) == Ia32Prefix(0x2E) == Seg;
      assert LongPrefix(0x81) == Ia32Prefix(0x81) == NotPrefix;
    }
    assert t.oneByte[0x81] == 0xA4 by {
      assert LongOneByte(0x81) == Ia32OneByte(0x81) == 0xA4;
    }
    TailCells(longMode, 0x81);
  }

  /** The body bound is attained, and it is the cap's first victim behind five prefixes. */
  lemma BodyBoundIsAttained(longMode: bool)
    ensures var t := ModeTables(longMode);
            && Indexable(t)
            && Verdict(t, LongestBody([]).Bytes()) == MAX_BODY
            && Verdict(t, LongestBody([0x2E, 0x2E, 0x2E, 0x2E]).Bytes()) == MAX_INSN_LEN
            && Verdict(t, LongestBody([0x2E, 0x2E, 0x2E, 0x2E, 0x2E]).Bytes()) == UNDEFINED_INSTRUCTION
  {
    var t := ModeTables(longMode);
    hide Encodes, Verdict, ModeTables;
    var p0: seq<byte>, p4: seq<byte>, p5: seq<byte> := [], [0x2E, 0x2E, 0x2E, 0x2E], [0x2E, 0x2E, 0x2E, 0x2E, 0x2E];
    LongestBodyEncodes(longMode, p0);
    LongestBodyEncodes(longMode, p4);
    LongestBodyEncodes(longMode, p5);
    AssembledDecodes(t, LongestBody(p0), []);
    AssembledDecodes(t, LongestBody(p4), []);
    AssembledDecodes(t, LongestBody(p5), []);
    assert LongestBody(p0).Bytes() + [] == LongestBody(p0).Bytes();
    assert LongestBody(p4).Bytes() + [] == LongestBody(p4).Bytes();
    assert LongestBody(p5).Bytes() + [] == LongestBody(p5).Bytes();
  }

  // ---- The decision bounds are tight --------------------------------------------------------

  function FourteenSegments(): (p: seq<byte>)
    ensures |p| == 14 && forall i :: 0 <= i < |p| ==> p[i] == 0x2E
  {
    seq(14, _ => 0x2E)
  }

  lemma SegmentRun(longMode: bool, b: byte, rest: seq<byte>)
    requires b == 0x0F
    ensures var t, w := ModeTables(longMode), FourteenSegments() + [b] + rest;
            Indexable(t) && RunLength(t, w) == 14 && StartsOpcode(t, b) && t.oneByte[b] == 0xE2
  {
    ModesWellFormed(longMode);
    var t, w := ModeTables(longMode), FourteenSegments() + [b] + rest;
    assert t.prefix[0x2E] == Seg && t.prefix[0x0F] == Escape2 by {
      assert LongPrefix(0x2E) == Ia32Prefix(0x2E) == Seg;
      assert LongPrefix(0x0F) == Ia32Prefix(0x0F) == Escape2;
    }
    assert t.oneByte[0x0F] == 0xE2 by {
      assert LongOneByte(0x0F) == Ia32OneByte(0x0F) == 0xE2;
    }
    assert w[14] == 0x0F;
    RunLengthIs(t, w, 14);
  }

  lemma LongPshufbCells()
    ensures Shaped(LONG) && LONG.longMode && LONG.twoByte[0x38] == 0xE8 && LONG.map38[0x00] == 0x00
  {
    LongIndexable();
    assert LongTwoByte(0x38) == 0xE8 && LongMap38(0x00) == 0x00;
  }

  /** Long mode: 18 bytes, fourteen prefixes and 0F 38 00 04, still wait for the SIB byte. */
  lemma LongDecisionBoundIsTight()
    ensures var w := FourteenSegments() + [0x0F] + [0x38, 0x00, 0x04];
            Indexable(LONG) && |w| == MAX_INSN_LEN + OpcodeReach(LONG) - 2 && Verdict(LONG, w) == INSUFFICIENT_BUFFER
  {
    ModesWellFormed(true);
    var w := FourteenSegments() + [0x0F] + [0x38, 0x00, 0x04];
    SegmentRun(true, 0x0F, [0x38, 0x00, 0x04]);
    LongPshufbCells();
    hide LONG, Summary, Decode, FixedBodiesFit, EntriesDecide, CellsHandled;
    SummaryLength(LONG, w[..14]);
    WaitsForSib(LONG, w, Summary(LONG, w[..14]));
  }

  lemma WaitsForSib(t: Tables, w: seq<byte>, pf: PrefixInfo)
    requires Indexable(t) && 16 < |w| && w[14] == 0x0F && t.oneByte[0x0F] == 0xE2
    requires t.longMode || !pf.has67
    requires (t.longMode && |w| == 18 && t.twoByte[w[15]] == 0xE8 && t.map38[w[16]] == 0x00 && w[17] == 0x04)
             || (|w| == 17 && t.twoByte[w[15]] == 0x00 && w[16] == 0x04)
    ensures Decode(t, w, 14, pf) == INSUFFICIENT_BUFFER
  {
  }

  /** IA-32: 17 bytes, fourteen prefixes and 0F 10 04, still wait for the SIB byte. */
  lemma Ia32DecisionBoundIsTight()
    ensures var w := FourteenSegments() + [0x0F] + [0x10, 0x04];
            Indexable(IA32) && |w| == MAX_INSN_LEN + OpcodeReach(IA32) - 2 && Verdict(IA32, w) == INSUFFICIENT_BUFFER
  {
    ModesWellFormed(false);
    var w := FourteenSegments() + [0x0F] + [0x10, 0x04];
    SegmentRun(false, 0x0F, [0x10, 0x04]);
    assert IA32.twoByte[0x10] == 0x00 by { assert Ia32TwoByte(0x10) == 0x00; }
    assert IA32.prefix[0x2E] == Seg by { assert Ia32Prefix(0x2E) == Seg; }
    assert !Summary(IA32, w[..14]).has67;
    WaitsForSib(IA32, w, Summary(IA32, w[..14]));
  }

  // ---- Where the two modes agree ---------------------------------------------------------------

  lemma PrefixKindsAgree(b: byte)
    ensures Shaped(LONG) && Shaped(IA32)
    ensures !(0x40 <= b <= 0x4F) && b !in {0x62, 0xC4, 0xC5} ==> LONG.prefix[b] == IA32.prefix[b]
    ensures IsPrefixByte(IA32, b) ==> LONG.prefix[b] == IA32.prefix[b] && IsPrefixByte(LONG, b) && LONG.prefix[b] != Rex
  {
    ModesWellFormed(true);
    ModesWellFormed(false);
    assert LONG.prefix[b] == LongPrefix(b) && IA32.prefix[b] == Ia32Prefix(b);
  }

  lemma EqualOneByteCells(opc: byte)
    requires LongOneByte(opc) == Ia32OneByte(opc) && opc !in {0xC6, 0xC7}
    ensures LongOneByte(opc) !in {0xB8, 0xFF}
    ensures LongTail(opc) == Ia32Tail(opc) && LongTail(opc) !in {TAIL_IQ, TAIL_MOFFS}
    ensures LongOneByte(opc) == 0xEE ==> opc in {0xF6, 0xF7, 0xFE, 0xFF}
  {
  }

  /** Equal one-byte cells come with equal tails and, apart from C6 and C7, equal groups. */
  lemma OneByteCellsAgree(opc: byte)
    requires LongOneByte(opc) == Ia32OneByte(opc) && opc !in {0xC6, 0xC7}
    ensures Indexable(LONG) && Indexable(IA32)
    ensures LONG.oneByte[opc] == IA32.oneByte[opc] && LONG.oneByte[opc] !in {0xB8, 0xFF}
    ensures LONG.tail[opc] == IA32.tail[opc] && LONG.tail[opc] !in {TAIL_IQ, TAIL_MOFFS}
    ensures GroupAt1(LONG, opc) == GroupAt1(IA32, opc)
  {
    ModesWellFormed(true);
    ModesWellFormed(false);
    EqualOneByteCells(opc);
    assert LONG.oneByte[opc] == LongOneByte(opc) && IA32.oneByte[opc] == Ia32OneByte(opc);
    assert LONG.tail[opc] == LongTail(opc) && IA32.tail[opc] == Ia32Tail(opc);
    hide LongOneByte, Ia32OneByte, LongTail, Ia32Tail;
  }

  lemma TwoByteCellsAgree(second: byte)
    requires LongTwoByte(second) == Ia32TwoByte(second) && second !in {0xAE, 0xC7}
    ensures Indexable(LONG) && Indexable(IA32)
    ensures LONG.twoByte[second] == IA32.twoByte[second] && LONG.twoByte[second] !in {0x07, 0xE8, 0xEA}
    ensures LONG.tail2[second] == IA32.tail2[second] && LONG.tail2[second] !in {TAIL_IQ, TAIL_MOFFS}
    ensures PickGroup2(LONG, second) == PickGroup2(IA32, second)
  {
    ModesWellFormed(true);
    ModesWellFormed(false);
    assert LONG.twoByte[second] == LongTwoByte(second) && IA32.twoByte[second] == Ia32TwoByte(second);
    assert LONG.tail2[second] == LongTail2(second) && IA32.tail2[second] == Ia32Tail2(second);
  }

  lemma GroupAcrossModes(w: seq<byte>, first: nat, opcSize: nat, pf: PrefixInfo, table: seq<byte>)
    requires first < |w| && CommittedTable(table) && !pf.has67
    ensures GroupLen(true, w, first, opcSize, pf, table) == GroupLen(false, w, first, opcSize, pf, table)
  {
  }

  lemma TwoByteAcrossModes(w: seq<byte>, first: nat, pf: PrefixInfo)
    requires first < |w| && !pf.has67
    requires first + 1 < |w| ==> LongTwoByte(w[first + 1]) == Ia32TwoByte(w[first + 1]) && w[first + 1] !in {0xAE, 0xC7}
    ensures Indexable(LONG) && Indexable(IA32) && TwoByteLen(LONG, w, first, pf) == TwoByteLen(IA32, w, first, pf)
  {
    ModesWellFormed(true);
    ModesWellFormed(false);
    assert LONG.longMode && !IA32.longMode;
    if first + 1 < |w| {
      var second := w[first + 1];
      TwoByteCellsAgree(second);
      TwoByteGroupsHaveNoSizedTail(true, second, 0);
      if GroupAt2(LONG, second).Some? {
        GroupAcrossModes(w, first, 2, pf, GroupAt2(LONG, second).value);
      }
    }
    hide GroupLen, LONG, IA32, FixedBodiesFit, EntriesDecide, CellsHandled;
  }

  /** The opcode byte `opc`, followed by `second`, dispatches alike in both modes. */
  predicate SameDispatch(opc: byte, rest: seq<byte>) {
    && LongOneByte(opc) == Ia32OneByte(opc) && opc !in {0xC6, 0xC7}
    && (opc == 0x0F && rest != [] ==> LongTwoByte(rest[0]) == Ia32TwoByte(rest[0]) && rest[0] !in {0xAE, 0xC7})
  }

  lemma EscapeIs0F(opc: byte)
    ensures LongOneByte(opc) == 0xE2 ==> opc == 0x0F
  {
  }

  lemma DecodeAcrossModes(w: seq<byte>, first: nat, pf: PrefixInfo)
    requires first < |w| && !pf.has67 && SameDispatch(w[first], w[first + 1..])
    ensures Indexable(LONG) && Indexable(IA32) && Decode(LONG, w, first, pf) == Decode(IA32, w, first, pf)
  {
    var opc := w[first];
    OneByteCellsAgree(opc);
    EscapeIs0F(opc);
    assert LONG.longMode && !IA32.longMode && LONG.oneByte[opc] == LongOneByte(opc);
    if opc == 0x0F {
      assert first + 1 < |w| ==> w[first + 1..][0] == w[first + 1];
      TwoByteAcrossModes(w, first, pf);
    }
    OneByteGroupsCommitted(true, opc);
    if GroupAt1(LONG, opc).Some? {
      GroupAcrossModes(w, first, 1, pf, GroupAt1(LONG, opc).value);
    }
    hide GroupLen, TwoByteLen, LONG, IA32, LongOneByte, Ia32OneByte;
  }

  lemma OpcodeStartsAlike(opc: byte)
    requires Indexable(LONG) && Indexable(IA32) && !IsPrefixByte(IA32, opc)
    requires !(0x40 <= opc <= 0x4F) && LongOneByte(opc) == Ia32OneByte(opc)
    ensures StartsOpcode(LONG, opc) && StartsOpcode(IA32, opc)
  {
  }

  lemma RunIn(t: Tables, u: Tables, w: seq<byte>)
    requires Indexable(t) && Indexable(u)
    requires forall b: byte :: IsPrefixByte(u, b) ==> IsPrefixByte(t, b)
    requires var r := RunLength(u, w); r < |w| ==> StartsOpcode(t, w[r])
    ensures RunLength(t, w) == RunLength(u, w)
  {
  }

  lemma SummariesAgree(run: seq<byte>)
    requires Indexable(LONG) && Indexable(IA32) && AllPrefixes(IA32, run)
    ensures Summary(LONG, run) == Summary(IA32, run)
  {
    forall i | 0 <= i < |run| ensures LONG.prefix[run[i]] == IA32.prefix[run[i]] {
      PrefixKindsAgree(run[i]);
    }
    hide LONG, IA32;
    forall kind: PrefixKind ensures HasKind(LONG, run, kind) == HasKind(IA32, run, kind) {
    }
  }

  lemma VerdictsMatch(t: Tables, u: Tables, w: seq<byte>)
    requires Indexable(t) && Indexable(u)
    requires var r := RunLength(u, w);
             && RunLength(t, w) == r && Summary(t, w[..r]) == Summary(u, w[..r])
             && (r < |w| ==> && StartsOpcode(t, w[r]) && StartsOpcode(u, w[r])
                             && Decode(t, w, r, Summary(u, w[..r])) == Decode(u, w, r, Summary(u, w[..r])))
    ensures Verdict(t, w) == Verdict(u, w)
  {
  }

  /** Without 0x67, windows whose opcode dispatches alike get the same verdict in both modes. */
  lemma ModesAgree(w: seq<byte>)
    requires Indexable(LONG) && Indexable(IA32)
    requires var r := RunLength(IA32, w);
             && !HasKind(IA32, w[..r], AddressSize)
             && (r < |w| ==> !(0x40 <= w[r] <= 0x4F) && SameDispatch(w[r], w[r + 1..]))
    ensures Verdict(LONG, w) == Verdict(IA32, w)
  {
    hide LONG, IA32, Decode, HasKind, Verdict, IsPrefixByte, LongOneByte, Ia32OneByte, LongTwoByte, Ia32TwoByte;
    var r := RunLength(IA32, w);
    var pf := Summary(IA32, w[..r]);
    if r < |w| {
      OpcodeStartsAlike(w[r]);
      DecodeAcrossModes(w, r, pf);
    }
    forall b: byte ensures IsPrefixByte(IA32, b) ==> IsPrefixByte(LONG, b) {
      PrefixKindsAgree(b);
    }
    RunIn(LONG, IA32, w);
    SummariesAgree(w[..r]);
    VerdictsMatch(LONG, IA32, w);
  }
}
