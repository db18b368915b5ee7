/** What each verdict of the two decoders means. */
module VerdictMeaning {
  import opened Common
  import opened Tables
  import opened LongModeTables
  import opened Ia32Tables
  import opened Decoder
  import opened Locality
  import opened Verdicts
  import opened Grammar
  import opened Completeness
  import opened Modes
  import opened ModeLaws
  import opened Opcodes
  import opened Forms

  lemma EntryOpens(longMode: bool, n: nat, table: seq<byte>, m: byte)
    requires |table| == 0x100 && m in {0x00, 0x08, 0x20, 0xD0} && !EntryForm(longMode, n, table[m]).Undefined?
    ensures HasOpening(table)
  {
    assert Opens(table, m);
  }

  lemma OneByteGroupOpens(longMode: bool, opc: byte)
    requires Indexable(ModeTables(longMode)) && GroupAt1(ModeTables(longMode), opc).Some?
    ensures HasOpening(GroupAt1(ModeTables(longMode), opc).value)
  {
    OneByteTables(longMode, opc, 0x00);
    assert !OneByteExtension(longMode, opc, 0x00).Undefined?;
    hide ModeTables, EntryForm, OneByteExtension, HasOpening;
    EntryOpens(longMode, 1, GroupAt1(ModeTables(longMode), opc).value, 0x00);
  }

  lemma TwoByteExtensionOpens(longMode: bool, second: byte) returns (m: byte)
    requires TwoByteForm(longMode, second).Extension?
    ensures m in {0x00, 0x08, 0x20, 0xD0} && !TwoByteExtension(longMode, second, m).Undefined?
  {
    m := if second in {0x71, 0x72, 0x73} then 0xD0 else if second == 0xBA then 0x20 else if second == 0xC7 then 0x08 else 0x00;
  }

  lemma TwoByteGroupOpens(longMode: bool, second: byte)
    requires Indexable(ModeTables(longMode)) && GroupAt2(ModeTables(longMode), second).Some?
    ensures HasOpening(GroupAt2(ModeTables(longMode), second).value)
  {
    hide ModeTables, EntryForm, TwoByteExtension, TwoByteForm, HasOpening;
    TwoByteOpcodes(longMode, second);
    var m := TwoByteExtensionOpens(longMode, second);
    TwoByteTables(longMode, second, m);
    EntryOpens(longMode, 2, GroupAt2(ModeTables(longMode), second).value, m);
  }

  lemma LongEntryCells()
    ensures Shaped(LONG)
    ensures StartsOpcode(LONG, 0x90) && LONG.oneByte[0x90] == 0x01 && LONG.tail[0x90] == TAIL_NONE
    ensures LONG.oneByte[0x8D] == 0x00
  {
  }

  lemma LongEscapeCells()
    ensures Shaped(LONG) && LONG.twoByte[0xA2] == 0x02 && LONG.tail2[0xA2] == TAIL_NONE
    ensures LONG.map38[0x00] == 0x00 && LONG.map3A[0x0F] == 0xA1
  {
  }

  lemma Ia32EntryCells()
    ensures Shaped(IA32)
    ensures StartsOpcode(IA32, 0x90) && IA32.oneByte[0x90] == 0x01 && IA32.twoByte[0xA2] == 0x02
    ensures IA32.tail[0x90] == TAIL_NONE && IA32.tail2[0xA2] == TAIL_NONE
    ensures IA32.oneByte[0x8D] == 0x00
  {
  }

  lemma ModesExtendable(longMode: bool)
    ensures WellFormed(ModeTables(longMode)) && Extendable(ModeTables(longMode))
  {
    ModeIs(longMode);
    LongEntryCells();
    LongEscapeCells();
    Ia32EntryCells();
    hide LONG, IA32, HasOpening, FixedBodiesFit, EntriesDecide, CellsHandled;
    var t := ModeTables(longMode);
    forall opc: byte | GroupAt1(t, opc).Some? ensures HasOpening(GroupAt1(t, opc).value) {
      OneByteGroupOpens(longMode, opc);
    }
    forall second: byte | GroupAt2(t, second).Some? ensures HasOpening(GroupAt2(t, second).value) {
      TwoByteGroupOpens(longMode, second);
    }
  }

  /** An executable instruction: one of the mode's instructions within the 15-byte cap. */
  ghost predicate Executable(longMode: bool, bytes: seq<byte>) {
    |bytes| <= MAX_INSN_LEN && exists x: Instruction :: Assembles(longMode, x) && x.Bytes() == bytes
  }

  /**
   * The three verdicts, exactly: a length where an executable instruction begins the window; the window
   * properly begins one if and only if it is 0xE0 and its least completion is within the cap.
   */
  lemma VerdictsAreExact(longMode: bool, w: seq<byte>)
    requires Indexable(ModeTables(longMode))
    ensures var t := ModeTables(longMode); var v := Verdict(t, w);
            && (!IsError(v) <==> exists b :: Executable(longMode, b) && b <= w)
            && ((exists b :: Executable(longMode, b) && w < b) <==>
                 v == INSUFFICIENT_BUFFER && LeastLength(t, w) <= MAX_INSN_LEN)
            && ((forall b :: Executable(longMode, b) ==> !(b <= w) && !(w < b)) <==>
                 v == UNDEFINED_INSTRUCTION || (v == INSUFFICIENT_BUFFER && LeastLength(t, w) > MAX_INSN_LEN))
  {
    var t := ModeTables(longMode);
    ModesExtendable(longMode);
    hide ModeTables, Encodes, Assembles, Verdict, LeastLength, Extendable, FixedBodiesFit, EntriesDecide, CellsHandled;
    forall x: Instruction ensures Encodes(t, x) <==> Assembles(longMode, x) {
      EncodesExactly(longMode, x);
    }
    VerdictRange(t, w);
    LengthIffInstruction(t, w);
    ExtensionExactly(t, w);
    if !IsError(Verdict(t, w)) {
      var x: Instruction :| Encodes(t, x) && |x.Bytes()| <= MAX_INSN_LEN && x.Bytes() <= w;
      assert Executable(longMode, x.Bytes());
    }
    if Verdict(t, w) == INSUFFICIENT_BUFFER && LeastLength(t, w) <= MAX_INSN_LEN {
      var x: Instruction :| Encodes(t, x) && |x.Bytes()| <= MAX_INSN_LEN && w < x.Bytes();
      assert Executable(longMode, x.Bytes());
    }
  }

  // ---- How many prefixes keep 0xE0 honest ----------------------------------------------------

  /** Bytes that a missing ModRM or SIB byte can still ask for, counted from the opcode. */
  const LONGEST_WAIT: nat := 7

  /** Tails and group entries of the committed classes, by opcode size. */
  ghost predicate CommittedClass(n: nat, c: OpcodeClass) {
    && 1 <= n <= 3
    && (c.WithModrm? ==> (c.kind == TAIL_NONE && c.default == 0) || c.kind == TAIL_IB || (c.kind == TAIL_IZ && n == 1))
    && (c.Grouped? ==> && n <= 2 && CommittedTable(c.table) && HasOpening(c.table)
                       && (n == 2 ==> forall m: byte :: c.table[m] != 0x83))
  }

  lemma TwoByteGroupsCommitted(longMode: bool, second: byte)
    requires Indexable(ModeTables(longMode))
    ensures var table := GroupAt2(ModeTables(longMode), second);
            table.Some? ==> CommittedTable(table.value) && forall m: byte :: table.value[m] != 0x83
  {
    hide ModeTables, CommittedTable;
    var table := GroupAt2(ModeTables(longMode), second);
    TwoByteGroupsHaveNoSizedTail(longMode, second, 0);
    forall m: byte ensures table.Some? ==> table.value[m] != 0x83 {
      TwoByteGroupsHaveNoSizedTail(longMode, second, m);
    }
  }

  lemma ClassIsCommitted(longMode: bool, opcode: seq<byte>)
    requires WellFormed(ModeTables(longMode)) && Extendable(ModeTables(longMode))
    requires 1 <= |opcode| <= 3 && StartsOpcode(ModeTables(longMode), opcode[0])
    ensures CommittedClass(|opcode|, Classify(ModeTables(longMode), opcode))
  {
    hide ModeTables, CommittedTable, CommittedEntry, FixedBodiesFit, EntriesDecide, CellsHandled, Extendable, HasOpening, TableFits, TableDecides;
    var t := ModeTables(longMode);
    ClassIsOpen(t, opcode);
    TailCells(longMode, opcode[0]);
    OneByteGroupsCommitted(longMode, opcode[0]);
    if |opcode| == 2 {
      TwoByteGroupsCommitted(longMode, opcode[1]);
    }
  }

  /** Immediates never push a waiting body over the bound. */
  lemma ImmIsShort(t: Tables, c: OpcodeClass, n: nat, m: byte, pf: PrefixInfo)
    requires CommittedClass(n, c) && (c.WithModrm? || c.Grouped?)
    ensures var k := ImmSize(t, c, n, [m], pf); n + k <= 5 && (c.WithModrm? ==> ImmSize(t, c, n, [], pf) == k)
  {
  }

  lemma OpeningSpan(t: Tables, c: OpcodeClass, m: byte, pf: PrefixInfo)
    requires (c.Grouped? ==> |c.table| == 0x100)
    ensures m in {0x00, 0x08, 0x20, 0xD0} ==> OperandSpan(t, c, [m], pf) <= 1
    ensures NeedsSib(m, Addr16(t, pf)) ==> OperandSpan(t, c, [m], pf) <= 2
  {
  }

  /** While the ModRM or the SIB byte is missing, the least completion is short. */
  lemma WaitIsShort(t: Tables, c: OpcodeClass, n: nat, after: seq<byte>, pf: PrefixInfo)
    requires CommittedClass(n, c) && (c.WithModrm? || c.Grouped?)
    requires |after| <= 1 && (after != [] ==> NeedsSib(after[0], Addr16(t, pf)))
    ensures n + LeastAfter(t, c, n, after, pf) <= LONGEST_WAIT
  {
    hide OperandSpan, ImmSize, LeastEntry;
    if after != [] {
      assert after == [after[0]];
      ImmIsShort(t, c, n, after[0], pf);
      OpeningSpan(t, c, after[0], pf);
    } else if c.Grouped? {
      var m: byte :| Opens(c.table, m);
      ImmIsShort(t, c, n, m, pf);
      OpeningSpan(t, c, m, pf);
      LeastEntryIsLeast(t, c.table, n, pf, 0x100, m);
    } else {
      ImmIsShort(t, c, n, 0, pf);
    }
  }

  /** A class answers 0xE0 only while its ModRM or SIB byte is missing. */
  lemma WaitsForOperand(t: Tables, w: seq<byte>, r: nat, n: nat, pf: PrefixInfo, c: OpcodeClass)
    requires r < |w| && 1 <= n <= 3 && r + n <= |w| && Lengthy(c)
    requires (c.Grouped? ==> |c.table| == 0x100 && TableDecides(c.table)) && (!c.Grouped? ==> c.default <= 9)
    requires ClassLen(t.longMode, w, r, n, pf, c) == INSUFFICIENT_BUFFER
    ensures var after := w[r..][n..];
            (c.WithModrm? || c.Grouped?) && |after| <= 1 && (after != [] ==> NeedsSib(after[0], Addr16(t, pf)))
  {
    if r + n < |w| && c.Grouped? {
      assert EntryDecides(c.table[w[r + n]]);
    }
    if r + n < |w| {
      ModrmTablesAreSpans(w[r + n], 0);
    }
  }

  lemma WaitingBodyIsShort(longMode: bool, w: seq<byte>)
    requires WellFormed(ModeTables(longMode)) && Extendable(ModeTables(longMode))
    requires var t := ModeTables(longMode); var r := RunLength(t, w);
             && r < |w| && StartsOpcode(t, w[r]) && Decode(t, w, r, Summary(t, w[..r])) == INSUFFICIENT_BUFFER
    ensures LeastLength(ModeTables(longMode), w) <= RunLength(ModeTables(longMode), w) + LONGEST_WAIT
  {
    hide ModeTables, RunLength, AllPrefixes, Decode, Summary, Classify, OpcodeSize, ClassLen, LeastAfter, FixedBodiesFit, EntriesDecide, CellsHandled,
         Extendable, CommittedClass, TableDecides, TableFits;
    var t := ModeTables(longMode);
    var r := RunLength(t, w);
    var pf := Summary(t, w[..r]);
    var rest := w[r..];
    var n := OpcodeSize(t, rest);
    var c := Classify(t, rest[..n]);
    WaitingOpcode(t, w, r, pf);
    OpcodeSizeRange(t, rest);
    if Lengthy(c) {
      ClassIsOpen(t, rest[..n]);
      ClassDefaults(t, rest[..n]);
      WaitsForOperand(t, w, r, n, pf, c);
      ClassIsCommitted(longMode, rest[..n]);
      WaitIsShort(t, c, n, rest[n..], pf);
    }
  }

  /** Behind at most eight prefixes 0xE0 keeps its promise, so the three verdicts say which windows begin what. */
  lemma EightPrefixesAreHarmless(longMode: bool, w: seq<byte>)
    requires Indexable(ModeTables(longMode)) && RunLength(ModeTables(longMode), w) <= MAX_INSN_LEN - LONGEST_WAIT
    ensures var v := Verdict(ModeTables(longMode), w);
            && (v == INSUFFICIENT_BUFFER <==> exists b :: Executable(longMode, b) && w < b)
            && (v == UNDEFINED_INSTRUCTION <==> forall b :: Executable(longMode, b) ==> !(b <= w) && !(w < b))
  {
    hide ModeTables, Executable, LeastBody, Decode, Summary, FixedBodiesFit, EntriesDecide, CellsHandled, Extendable;
    ModesExtendable(longMode);
    var t := ModeTables(longMode);
    var r := RunLength(t, w);
    var pf := Summary(t, w[..r]);
    VerdictsAreExact(longMode, w);
    VerdictRange(t, w);
    if Verdict(t, w) == INSUFFICIENT_BUFFER {
      if r == |w| {
        LeastOfNothing(t, w[r..], pf);
      } else if IsError(Decode(t, w, r, pf)) {
        DecodeBounds(t, w, r, pf);
        WaitingBodyIsShort(longMode, w);
      } else {
        LeastOfKnownBody(t, w);
      }
      assert LeastLength(t, w) <= MAX_INSN_LEN;
    }
  }

  function NineSegments(): (p: seq<byte>)
    ensures |p| == 9 && forall i :: 0 <= i < |p| ==> p[i] == 0x2E
  {
    seq(9, _ => 0x2E)
  }

  lemma NineSegmentsRun(longMode: bool)
    ensures var t, w := ModeTables(longMode), NineSegments() + [0x81, 0x04];
            && Indexable(t) && AllPrefixes(t, NineSegments()) && StartsOpcode(t, 0x81)
            && Classify1(t, 0x81) == WithModrm(TAIL_IZ, 4)
            && !HasKind(t, NineSegments(), OperandSize) && !HasKind(t, NineSegments(), AddressSize)
  {
    ModesWellFormed(longMode);
    var t := ModeTables(longMode);
    assert t.prefix[0x2E] == Seg && t.prefix[0x81] == NotPrefix by {
      assert LongPrefix(0x2E) == Ia32Prefix(0x2E) == Seg;
      assert LongPrefix(0x81) == Ia32Prefix(0x81) == NotPrefix;
    }
    assert t.oneByte[0x81] == 0xA4 by {
      assert LongOneByte(0x81) == Ia32OneByte(0x81) == 0xA4;
    }
    TailCells(longMode, 0x81);
  }

  /** Nine are too many: nine segment prefixes and 81 04 are 0xE0, yet no executable instruction begins or extends them. */
  lemma NinePrefixesCanBeHopeless(longMode: bool)
    ensures var t, w := ModeTables(longMode), NineSegments() + [0x81, 0x04];
            && Indexable(t) && RunLength(t, w) == 9 && Verdict(t, w) == INSUFFICIENT_BUFFER
            && !exists b :: Executable(longMode, b) && (b <= w || w < b)
  {
    var t, w := ModeTables(longMode), NineSegments() + [0x81, 0x04];
    NineSegmentsRun(longMode);
    hide ModeTables, Executable, AllPrefixes, HasKind;
    assert w[..9] == NineSegments() && w[9..] == [0x81, 0x04];
    assert w[9] == 0x81 && w[10] == 0x04;
    RunLengthIs(t, w, 9);
    NineSegmentsWait(t, w, Summary(t, w[..9]));
    VerdictsAreExact(longMode, w);
  }

  lemma NineSegmentsWait(t: Tables, w: seq<byte>, pf: PrefixInfo)
    requires Indexable(t) && |w| == 11 && w[9] == 0x81 && w[10] == 0x04 && w[9..] == [0x81, 0x04]
    requires !pf.has66 && !pf.has67 && Classify1(t, 0x81) == WithModrm(TAIL_IZ, 4)
    ensures Decode(t, w, 9, pf) == INSUFFICIENT_BUFFER && LeastBody(t, w[9..], pf) == LONGEST_WAIT
  {
  }
}
