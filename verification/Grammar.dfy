/**
 * The encodings the decoder accepts, as an assembler's grammar: prefixes, opcode bytes,
 * ModRM operand, immediate. Verdicts are lengths on exactly these byte strings.
 */
module Grammar {
  import opened Common
  import opened Tables
  import opened Decoder
  import opened Locality
  import opened Verdicts

  /** What follows the opcode bytes. */
  datatype OpcodeClass =
    | NoLength
    | Escape
    | Plain(kind: byte, default: nat)
    | WithModrm(kind: byte, default: nat)
    | Grouped(table: seq<byte>)

  function Classify1(t: Tables, opc: byte): (c: OpcodeClass)
    requires Indexable(t)
    ensures c.Grouped? ==> |c.table| == 0x100
  {
    var cell := t.oneByte[opc];
    if cell == 0x00 then WithModrm(TAIL_NONE, 0)
    else if cell <= 0x09 then Plain(t.tail[opc], cell - 1)
    else if cell == 0xA1 then WithModrm(TAIL_IB, 1)
    else if cell == 0xA4 then WithModrm(t.tail[opc], 4)
    else if cell == 0xB8 && t.longMode then Plain(t.tail[opc], 4)
    else if cell == 0xE2 then Escape
    else if GroupAt1(t, opc).Some? then Grouped(GroupAt1(t, opc).value)
    else NoLength
  }

  function Classify2(t: Tables, second: byte): (c: OpcodeClass)
    requires Indexable(t)
    ensures c.Grouped? ==> |c.table| == 0x100
    ensures c.Escape? ==> t.longMode
  {
    var cell := t.twoByte[second];
    if cell == 0x00 then WithModrm(TAIL_NONE, 0)
    else if cell in {0x02, 0x03, 0x06} || (cell == 0x07 && t.longMode) then Plain(t.tail2[second], cell - 2)
    else if cell == 0xA1 then WithModrm(TAIL_IB, 1)
    else if cell in {0xE8, 0xEA} && t.longMode then Escape
    else if GroupAt2(t, second).Some? then Grouped(GroupAt2(t, second).value)
    else NoLength
  }

  function Classify3(t: Tables, second: byte, third: byte): (c: OpcodeClass)
    requires Indexable(t) && t.longMode
    ensures c.NoLength? || c.WithModrm?
  {
    var cell := if t.twoByte[second] == 0xE8 then t.map38[third] else t.map3A[third];
    if cell == 0x00 then WithModrm(TAIL_NONE, 0)
    else if cell == 0xA1 then WithModrm(TAIL_IB, 1)
    else NoLength
  }

  /** The class of a complete opcode of one to three bytes. */
  function Classify(t: Tables, opcode: seq<byte>): (c: OpcodeClass)
    requires Indexable(t)
    ensures c.Grouped? ==> |c.table| == 0x100
  {
    if |opcode| == 1 then Classify1(t, opcode[0])
    else if |opcode| == 2 && Classify1(t, opcode[0]).Escape? then Classify2(t, opcode[1])
    else if |opcode| == 3 && Classify1(t, opcode[0]).Escape? && Classify2(t, opcode[1]).Escape? then
      Classify3(t, opcode[1], opcode[2])
    else NoLength
  }

  datatype Instruction = Instruction(prefixes: seq<byte>, opcode: seq<byte>, operand: seq<byte>, imm: seq<byte>)
  {
    function Bytes(): seq<byte> {
      prefixes + opcode + operand + imm
    }
  }

  /** 0x67 in IA-32 selects 16-bit addressing. */
  predicate Addr16(t: Tables, pf: PrefixInfo) {
    pf.has67 && !t.longMode
  }

  function SibOf(operand: seq<byte>): byte {
    if |operand| > 1 then operand[1] else 0
  }

  /** ModRM, SIB and displacement bytes as the manual lays them out; LEA must name memory. */
  predicate OperandOk(opcode: seq<byte>, operand: seq<byte>, addr16: bool) {
    && opcode != [] && operand != []
    && !(opcode[0] == 0x8D && operand[0] / 64 == 3)
    && |operand| == ModrmSpan(operand[0], SibOf(operand), addr16)
  }

  /** Immediate width a group entry asks for. */
  function EntryWidth(t: Tables, e: byte, pf: PrefixInfo): nat {
    if e >= 0x80 then TailWidth(t.longMode, e - 0x80, 0, pf) else e
  }

  /** The instructions of a mode, of any length. */
  predicate Encodes(t: Tables, x: Instruction)
    requires Indexable(t)
  {
    var pf := Summary(t, x.prefixes);
    && AllPrefixes(t, x.prefixes)
    && x.opcode != [] && StartsOpcode(t, x.opcode[0])
    && match Classify(t, x.opcode)
       case Plain(kind, default) =>
         x.operand == [] && |x.imm| == TailWidth(t.longMode, kind, default, pf)
       case WithModrm(kind, default) =>
         OperandOk(x.opcode, x.operand, Addr16(t, pf)) && |x.imm| == TailWidth(t.longMode, kind, default, pf)
       case Grouped(table) =>
         && x.operand != []
         && var e := table[x.operand[0]];
            if IsFixedEntry(e) then |x.operand| == 1 && |x.opcode| + 1 + |x.imm| == e - 0xA0
            else e < 0xA0 && OperandOk(x.opcode, x.operand, Addr16(t, pf)) && |x.imm| == EntryWidth(t, e, pf)
       case _ => false
  }

  // ---- Assembling then decoding ------------------------------------------------

  /** Window `w` holds `opcode` and then `operand` at `first`. */
  predicate Holds(w: seq<byte>, first: nat, opcode: seq<byte>, operand: seq<byte>) {
    && first + |opcode| + |operand| <= |w|
    && w[first..first + |opcode|] == opcode
    && w[first + |opcode|..first + |opcode| + |operand|] == operand
  }

  lemma ModrmOfOperand(t: Tables, w: seq<byte>, first: nat, opcode: seq<byte>, operand: seq<byte>, pf: PrefixInfo)
    requires opcode != [] && Holds(w, first, opcode, operand) && OperandOk(opcode, operand, Addr16(t, pf))
    ensures ModrmLen(t.longMode, w, first, |opcode|, pf) == |opcode| + |operand|
  {
    assert w[first] == opcode[0];
    assert w[first + |opcode|] == operand[0];
    assert |operand| > 1 ==> w[first + |opcode| + 1] == operand[1];
    ModrmTablesAreSpans(operand[0], SibOf(operand));
  }

  /** Body length once the opcode's `n` bytes and their class are known. */
  function ClassLen(longMode: bool, w: seq<byte>, first: nat, n: nat, pf: PrefixInfo, c: OpcodeClass): nat
    requires first < |w|
    requires c.Grouped? ==> |c.table| == 0x100
  {
    match c
    case Plain(kind, default) => n + TailWidth(longMode, kind, default, pf)
    case WithModrm(kind, default) => WithSize(ModrmLen(longMode, w, first, n, pf), TailWidth(longMode, kind, default, pf))
    case Grouped(table) => GroupLen(longMode, w, first, n, pf, table)
    case _ => UNDEFINED_INSTRUCTION
  }

  predicate Lengthy(c: OpcodeClass) {
    !c.NoLength? && !c.Escape?
  }

  lemma DecodeByClass1(t: Tables, w: seq<byte>, first: nat, pf: PrefixInfo)
    requires Indexable(t) && first < |w|
    ensures var c := Classify1(t, w[first]);
            && (Lengthy(c) ==> Decode(t, w, first, pf) == ClassLen(t.longMode, w, first, 1, pf, c))
            && (c.Escape? ==> Decode(t, w, first, pf) == TwoByteLen(t, w, first, pf))
            && (c.NoLength? ==> IsError(Decode(t, w, first, pf)) && Decode(t, w, first, pf) != INSUFFICIENT_BUFFER)
  {
  }

  lemma DecodeByClass2(t: Tables, w: seq<byte>, first: nat, pf: PrefixInfo)
    requires Indexable(t) && first + 1 < |w|
    ensures var c := Classify2(t, w[first + 1]);
            && (Lengthy(c) ==> TwoByteLen(t, w, first, pf) == ClassLen(t.longMode, w, first, 2, pf, c))
            && (c.NoLength? ==> IsError(TwoByteLen(t, w, first, pf)) && TwoByteLen(t, w, first, pf) != INSUFFICIENT_BUFFER)
  {
  }

  lemma DecodeByClass3(t: Tables, w: seq<byte>, first: nat, pf: PrefixInfo)
    requires Indexable(t) && first + 2 < |w| && Classify2(t, w[first + 1]).Escape?
    ensures var c := Classify3(t, w[first + 1], w[first + 2]);
            && (Lengthy(c) ==> TwoByteLen(t, w, first, pf) == ClassLen(t.longMode, w, first, 3, pf, c))
            && (c.NoLength? ==> IsError(TwoByteLen(t, w, first, pf)) && TwoByteLen(t, w, first, pf) != INSUFFICIENT_BUFFER)
  {
  }

  /** Decode depends on the window through the opcode's class only. */
  lemma DecodeByClass(t: Tables, w: seq<byte>, first: nat, n: nat, pf: PrefixInfo)
    requires Indexable(t) && 1 <= n && first + n <= |w|
    requires Lengthy(Classify(t, w[first..first + n]))
    ensures Decode(t, w, first, pf) == ClassLen(t.longMode, w, first, n, pf, Classify(t, w[first..first + n]))
  {
    hide Classify1, Classify2, Classify3, Decode, TwoByteLen, ClassLen;
    DecodeByClass1(t, w, first, pf);
    if n == 2 {
      DecodeByClass2(t, w, first, pf);
    } else if n == 3 {
      DecodeByClass3(t, w, first, pf);
    }
  }

  lemma DecodeOfInstruction(t: Tables, w: seq<byte>, first: nat, x: Instruction)
    requires Indexable(t) && Encodes(t, x) && Holds(w, first, x.opcode, x.operand)
    requires |x.opcode| + |x.operand| + |x.imm| < ERR_BASE
    ensures Decode(t, w, first, Summary(t, x.prefixes)) == |x.opcode| + |x.operand| + |x.imm|
  {
    hide ModrmLen, Summary, AllPrefixes, Classify, Decode, OperandOk;
    var pf := Summary(t, x.prefixes);
    DecodeByClass(t, w, first, |x.opcode|, pf);
    assert x.operand != [] ==> w[first + |x.opcode|] == x.operand[0];
    if OperandOk(x.opcode, x.operand, Addr16(t, pf)) {
      ModrmOfOperand(t, w, first, x.opcode, x.operand, pf);
    }
  }

  lemma EncodesIsShort(t: Tables, x: Instruction)
    requires Indexable(t) && Encodes(t, x)
    ensures |x.opcode| + |x.operand| + |x.imm| < ERR_BASE
  {
  }

  lemma HoldsItself(x: Instruction, trailing: seq<byte>)
    ensures Holds(x.Bytes() + trailing, |x.prefixes|, x.opcode, x.operand)
  {
    var w, r, n, m := x.Bytes() + trailing, |x.prefixes|, |x.opcode|, |x.operand|;
    forall k | 0 <= k < n ensures w[r..r + n][k] == x.opcode[k] {
      assert w[r + k] == x.opcode[k];
    }
    forall k | 0 <= k < m ensures w[r + n..r + n + m][k] == x.operand[k] {
      assert w[r + n + k] == x.operand[k];
    }
  }

  /**
   * Round trip: an instruction in front of any bytes decodes to its own length,
   * or to 0xE1 when it is longer than the cap.
   */
  lemma AssembledDecodes(t: Tables, x: Instruction, trailing: seq<byte>)
    requires Indexable(t) && Encodes(t, x)
    ensures Verdict(t, x.Bytes() + trailing) ==
            if |x.Bytes()| <= MAX_INSN_LEN then |x.Bytes()| else UNDEFINED_INSTRUCTION
  {
    hide Encodes, Summary, Decode;
    var w := x.Bytes() + trailing;
    var r := |x.prefixes|;
    assert w[..r] == x.prefixes;
    assert AllPrefixes(t, x.prefixes) && x.opcode != [] && StartsOpcode(t, x.opcode[0]) by { EncodesParts(t, x); }
    assert w[r] == x.opcode[0];
    RunLengthIs(t, w, r);
    SummaryLength(t, x.prefixes);
    EncodesIsShort(t, x);
    HoldsItself(x, trailing);
    DecodeOfInstruction(t, w, r, x);
  }

  lemma EncodesParts(t: Tables, x: Instruction)
    requires Indexable(t) && Encodes(t, x)
    ensures AllPrefixes(t, x.prefixes) && x.opcode != [] && StartsOpcode(t, x.opcode[0])
  {
  }

  // ---- Decoding then disassembling ------------------------------------------------

  /** Opcode bytes at the front of `rest`, as far as they are there. */
  function OpcodeSize(t: Tables, rest: seq<byte>): (n: nat)
    requires Indexable(t)
    ensures n <= |rest|
  {
    if |rest| < 2 || !Classify1(t, rest[0]).Escape? then (if rest == [] then 0 else 1)
    else if |rest| < 3 || !Classify2(t, rest[1]).Escape? then 2
    else 3
  }

  /** ModRM, SIB and displacement bytes in front of `after`. */
  function OperandSpan(t: Tables, c: OpcodeClass, after: seq<byte>, pf: PrefixInfo): nat
    requires c.Grouped? ==> |c.table| == 0x100
  {
    if after == [] || c.Plain? then 0
    else if c.Grouped? && IsFixedEntry(c.table[after[0]]) then 1
    else ModrmSpan(after[0], SibOf(after), Addr16(t, pf))
  }

  /** Immediate bytes of an opcode of class `c` and `n` bytes. */
  function ImmSize(t: Tables, c: OpcodeClass, n: nat, after: seq<byte>, pf: PrefixInfo): nat
    requires c.Grouped? ==> |c.table| == 0x100
  {
    match c
    case Plain(kind, default) => TailWidth(t.longMode, kind, default, pf)
    case WithModrm(kind, default) => TailWidth(t.longMode, kind, default, pf)
    case Grouped(table) =>
      if after == [] then 0
      else
        var e := table[after[0]];
        if !IsFixedEntry(e) then EntryWidth(t, e, pf)
        else if e - 0xA0 > n then e - 0xA0 - n - 1
        else 0
    case _ => 0
  }

  function Take(s: seq<byte>, n: nat): seq<byte> {
    if n <= |s| then s[..n] else s
  }

  function Drop(s: seq<byte>, n: nat): seq<byte> {
    if n <= |s| then s[n..] else []
  }

  /** The instruction at the front of a window. */
  function Parse(t: Tables, w: seq<byte>): Instruction
    requires Indexable(t)
  {
    var r := RunLength(t, w);
    var pf := Summary(t, w[..r]);
    var rest := w[r..];
    var n := OpcodeSize(t, rest);
    var c := Classify(t, rest[..n]);
    var after := rest[n..];
    var m := OperandSpan(t, c, after, pf);
    Instruction(w[..r], rest[..n], Take(after, m), Take(Drop(after, m), ImmSize(t, c, n, after, pf)))
  }

  lemma DecodedOpcode(t: Tables, w: seq<byte>, first: nat, pf: PrefixInfo)
    requires Indexable(t) && first < |w| && !IsError(Decode(t, w, first, pf))
    ensures var n := OpcodeSize(t, w[first..]);
            && n >= 1 && Lengthy(Classify(t, w[first..first + n]))
            && Decode(t, w, first, pf) == ClassLen(t.longMode, w, first, n, pf, Classify(t, w[first..first + n]))
  {
  }

  /** A ModRM length that fits the window is exactly what the manual's layout gives. */
  lemma DecodedOperand(t: Tables, w: seq<byte>, first: nat, n: nat, pf: PrefixInfo)
    requires first < |w| && n >= 1
    requires var v := ModrmLen(t.longMode, w, first, n, pf); !IsError(v) && first + v <= |w|
    ensures var v := ModrmLen(t.longMode, w, first, n, pf);
            && v > n && var after := w[first + n..];
            && v - n == ModrmSpan(after[0], SibOf(after), Addr16(t, pf))
            && OperandOk(w[first..first + n], after[..v - n], Addr16(t, pf))
  {
    var after := w[first + n..];
    assert after[0] == w[first + n];
    assert |after| > 1 ==> after[1] == w[first + n + 1];
    ModrmTablesAreSpans(after[0], SibOf(after));
    ModrmBounds(t.longMode, w, first, n, pf);
    var v := ModrmLen(t.longMode, w, first, n, pf);
    assert w[first..first + n][0] == w[first];
    SpanOfOperand(after, v - n, Addr16(t, pf));
  }

  /** The span of an operand does not depend on the bytes behind it. */
  lemma SpanOfOperand(after: seq<byte>, m: nat, addr16: bool)
    requires 1 <= m <= |after|
    requires m == ModrmSpan(after[0], SibOf(after), addr16) || m == ModrmSpan(after[0], SibOf(after[..m]), addr16)
    ensures m == ModrmSpan(after[0], SibOf(after), addr16) == ModrmSpan(after[0], SibOf(after[..m]), addr16)
  {
  }

  predicate GroupParsed(n: nat, e: byte, opcode: seq<byte>, operand: seq<byte>, addr16: bool) {
    if IsFixedEntry(e) then |operand| == 1 && e - 0xA0 > n
    else e < 0xA0 && OperandOk(opcode, operand, addr16)
  }

  lemma DecodedClass(t: Tables, w: seq<byte>, first: nat, n: nat, pf: PrefixInfo, c: OpcodeClass)
    requires first < |w| && 1 <= n <= 3 && Lengthy(c)
    requires c.Grouped? ==> |c.table| == 0x100 && TableFits(n, c.table)
    requires var v := ClassLen(t.longMode, w, first, n, pf, c); !IsError(v) && first + v <= |w|
    ensures var v := ClassLen(t.longMode, w, first, n, pf, c);
            && first + n <= |w|
            && var after := w[first + n..];
            && var m := OperandSpan(t, c, after, pf);
            && v == n + m + ImmSize(t, c, n, after, pf)
            && m <= |after|
            && (c.WithModrm? ==> OperandOk(w[first..first + n], after[..m], Addr16(t, pf)))
            && (c.Grouped? ==> m >= 1 && GroupParsed(n, c.table[after[0]], w[first..first + n], after[..m], Addr16(t, pf)))
  {
    hide ModrmLen, OperandOk, TableFits;
    if !c.Plain? {
      ModrmBounds(t.longMode, w, first, n, pf);
      if c.Grouped? && first + n < |w| {
        FitsEntry(n, c.table, w[first + n]);
      }
      if c.Grouped? {
        GroupBounds(t.longMode, w, first, n, pf, c.table);
      }
      var v := ModrmLen(t.longMode, w, first, n, pf);
      if !IsError(v) && first + v <= |w| {
        DecodedOperand(t, w, first, n, pf);
      }
    }
  }

  lemma FitsEntry(n: nat, table: seq<byte>, m: byte)
    requires |table| == 0x100 && TableFits(n, table)
    ensures FixedBodyFits(n, table[m])
  {
  }

  lemma AppendSlice(w: seq<byte>, i: nat, k: nat)
    requires i + k <= |w|
    ensures w[..i] + w[i..][..k] == w[..i + k]
  {
  }

  lemma PartsMakeSlice(w: seq<byte>, r: nat, n: nat, m: nat, k: nat, total: nat)
    requires r + n + m + k == total <= |w|
    ensures var rest := w[r..]; var after := rest[n..];
            var x := Instruction(w[..r], rest[..n], Take(after, m), Take(Drop(after, m), k));
            x.Bytes() == w[..total] && |x.imm| == k && x.operand == after[..m]
  {
    assert w[r..][n..] == w[r + n..] && w[r + n..][m..] == w[r + n + m..];
    AppendSlice(w, r, n);
    AppendSlice(w, r + n, m);
    AppendSlice(w, r + n + m, k);
  }

  /** What Parse cuts the window into. */
  lemma ParseParts(t: Tables, w: seq<byte>, r: nat, pf: PrefixInfo, n: nat, c: OpcodeClass, m: nat)
    requires Indexable(t)
    requires r == RunLength(t, w) && pf == Summary(t, w[..r]) && n == OpcodeSize(t, w[r..])
    requires c == Classify(t, w[r..][..n]) && m == OperandSpan(t, c, w[r..][n..], pf)
    ensures var rest := w[r..]; var after := rest[n..];
            Parse(t, w) == Instruction(w[..r], rest[..n], Take(after, m), Take(Drop(after, m), ImmSize(t, c, n, after, pf)))
  {
  }

  /** The sizes Parse reads off a window add up to the decoded body. */
  lemma ParsedSizes(t: Tables, w: seq<byte>, r: nat, pf: PrefixInfo)
    requires Indexable(t) && FixedBodiesFit(t) && r < |w| && StartsOpcode(t, w[r])
    requires var v := Decode(t, w, r, pf); !IsError(v) && r + v <= |w|
    ensures var rest := w[r..]; var n := OpcodeSize(t, rest); var opcode, after := rest[..n], rest[n..];
            var c := Classify(t, opcode); var m := OperandSpan(t, c, after, pf);
            && n >= 1 && Lengthy(c)
            && Decode(t, w, r, pf) == n + m + ImmSize(t, c, n, after, pf)
            && m <= |after|
            && (c.WithModrm? ==> OperandOk(opcode, after[..m], Addr16(t, pf)))
            && (c.Grouped? ==> m >= 1 && GroupParsed(n, c.table[after[0]], opcode, after[..m], Addr16(t, pf)))
  {
    hide Decode, FixedBodiesFit, TableFits, Classify, OperandOk, GroupParsed, OperandSpan, ImmSize, OpcodeSize, ClassLen;
    DecodedOpcode(t, w, r, pf);
    var n := OpcodeSize(t, w[r..]);
    var opcode := w[r..][..n];
    assert opcode == w[r..r + n] && w[r..][n..] == w[r + n..];
    OpcodeSizeRange(t, w[r..]);
    ClassFits(t, opcode);
    DecodedClass(t, w, r, n, pf, Classify(t, opcode));
  }

  /** A body that fits the window parses, whatever the cap says. */
  lemma ParseOfDecode(t: Tables, w: seq<byte>)
    requires Indexable(t) && FixedBodiesFit(t)
    requires var r := RunLength(t, w);
             && r < |w| && StartsOpcode(t, w[r])
             && var v := Decode(t, w, r, Summary(t, w[..r])); !IsError(v) && r + v <= |w|
    ensures var r, x := RunLength(t, w), Parse(t, w);
            && Encodes(t, x) && x.prefixes == w[..r]
            && x.Bytes() == w[..r + Decode(t, w, r, Summary(t, w[..r]))]
  {
    hide Decode, Summary, AllPrefixes, RunLength, FixedBodiesFit, Classify, OperandOk, GroupParsed,
         OperandSpan, ImmSize, OpcodeSize, Encodes, Parse, StartsOpcode, IsPrefixByte;
    var r := RunLength(t, w);
    var pf := Summary(t, w[..r]);
    ParsedSizes(t, w, r, pf);
    var rest := w[r..];
    var n := OpcodeSize(t, rest);
    var after := rest[n..];
    var c := Classify(t, rest[..n]);
    var m := OperandSpan(t, c, after, pf);
    ParseParts(t, w, r, pf, n, c, m);
    PartsMakeSlice(w, r, n, m, ImmSize(t, c, n, after, pf), r + Decode(t, w, r, pf));
    ParsedEncodes(t, Parse(t, w), c, pf, after, m);
  }

  /** A length is the size of the instruction parsed at the front of the window. */
  lemma ParseIsSound(t: Tables, w: seq<byte>)
    requires Indexable(t) && FixedBodiesFit(t) && !IsError(Verdict(t, w))
    ensures var x := Parse(t, w);
            Encodes(t, x) && |x.Bytes()| == Verdict(t, w) <= |w| && x.Bytes() == w[..Verdict(t, w)]
  {
    hide Decode, Summary, FixedBodiesFit, Parse;
    var r := RunLength(t, w);
    SummaryLength(t, w[..r]);
    ParseOfDecode(t, w);
  }

  lemma OpcodeSizeRange(t: Tables, rest: seq<byte>)
    requires Indexable(t)
    ensures OpcodeSize(t, rest) <= 3
  {
  }

  lemma ClassFits(t: Tables, opcode: seq<byte>)
    requires Indexable(t) && FixedBodiesFit(t) && opcode != [] && StartsOpcode(t, opcode[0])
    ensures var c := Classify(t, opcode); c.Grouped? ==> TableFits(|opcode|, c.table)
  {
  }

  lemma ParsedEncodes(t: Tables, x: Instruction, c: OpcodeClass, pf: PrefixInfo, after: seq<byte>, m: nat)
    requires Indexable(t) && AllPrefixes(t, x.prefixes) && pf == Summary(t, x.prefixes)
    requires x.opcode != [] && StartsOpcode(t, x.opcode[0])
    requires c == Classify(t, x.opcode) && Lengthy(c)
    requires m == OperandSpan(t, c, after, pf) <= |after| && x.operand == after[..m]
    requires |x.imm| == ImmSize(t, c, |x.opcode|, after, pf)
    requires c.WithModrm? ==> OperandOk(x.opcode, after[..m], Addr16(t, pf))
    requires c.Grouped? ==> m >= 1 && GroupParsed(|x.opcode|, c.table[after[0]], x.opcode, after[..m], Addr16(t, pf))
    ensures Encodes(t, x)
  {
  }

  /** The grammar is unambiguous, whatever bytes follow the instruction. */
  lemma ParseIsUnique(t: Tables, x: Instruction, trailing: seq<byte>)
    requires Indexable(t) && Encodes(t, x)
    ensures Parse(t, x.Bytes() + trailing) == x
  {
    hide Encodes, Summary, Classify, OperandSpan, ImmSize, OpcodeSize;
    var w := x.Bytes() + trailing;
    var r := |x.prefixes|;
    EncodesParts(t, x);
    assert w[..r] == x.prefixes;
    assert w[r] == x.opcode[0];
    RunLengthIs(t, w, r);
    var rest := w[r..];
    var after := x.operand + x.imm + trailing;
    assert rest == x.opcode + after;
    OpcodeSizeIs(t, x, after);
    assert rest[..|x.opcode|] == x.opcode && rest[|x.opcode|..] == after;
    var pf := Summary(t, x.prefixes);
    var c := Classify(t, x.opcode);
    SizesOf(t, x, trailing);
    var m := OperandSpan(t, c, after, pf);
    assert Take(after, m) == x.operand && Drop(after, m) == x.imm + trailing;
  }

  lemma OpcodeSizeIs(t: Tables, x: Instruction, after: seq<byte>)
    requires Indexable(t) && Encodes(t, x)
    ensures OpcodeSize(t, x.opcode + after) == |x.opcode|
  {
  }

  lemma SizesOf(t: Tables, x: Instruction, trailing: seq<byte>)
    requires Indexable(t) && Encodes(t, x)
    ensures var c, pf, after := Classify(t, x.opcode), Summary(t, x.prefixes), x.operand + x.imm + trailing;
            OperandSpan(t, c, after, pf) == |x.operand| && ImmSize(t, c, |x.opcode|, after, pf) == |x.imm|
  {
  }

  /** The decoder finds a length exactly where an instruction of at most 15 bytes begins. */
  lemma LengthIffInstruction(t: Tables, w: seq<byte>)
    requires WellFormed(t)
    ensures !IsError(Verdict(t, w)) <==>
            exists x: Instruction :: Encodes(t, x) && |x.Bytes()| <= MAX_INSN_LEN && x.Bytes() <= w
    ensures forall x: Instruction :: Encodes(t, x) && |x.Bytes()| <= MAX_INSN_LEN && x.Bytes() <= w ==>
              Verdict(t, w) == |x.Bytes()| && x == Parse(t, w)
  {
    hide Encodes, Verdict, Parse;
    if !IsError(Verdict(t, w)) {
      ParseIsSound(t, w);
      VerdictRange(t, w);
      var x := Parse(t, w);
      assert Encodes(t, x) && |x.Bytes()| <= MAX_INSN_LEN && x.Bytes() <= w;
    }
    forall x: Instruction | Encodes(t, x) && |x.Bytes()| <= MAX_INSN_LEN && x.Bytes() <= w
      ensures Verdict(t, w) == |x.Bytes()| && x == Parse(t, w)
    {
      var trailing := w[|x.Bytes()|..];
      assert w == x.Bytes() + trailing;
      AssembledDecodes(t, x, trailing);
      ParseIsUnique(t, x, trailing);
    }
  }

  /** LEA of a register never has a length, whatever its prefixes and the bytes behind it. */
  lemma LeaOfRegister(t: Tables, prefixes: seq<byte>, modrm: byte, trailing: seq<byte>)
    requires Indexable(t) && AllPrefixes(t, prefixes)
    requires StartsOpcode(t, 0x8D) && Classify1(t, 0x8D).WithModrm? && modrm / 64 == 3
    ensures Verdict(t, prefixes + [0x8D, modrm] + trailing) == UNDEFINED_INSTRUCTION
  {
    var w := prefixes + [0x8D, modrm] + trailing;
    var r := |prefixes|;
    assert w[..r] == prefixes;
    assert w[r] == 0x8D && w[r + 1] == modrm;
    RunLengthIs(t, w, r);
  }
}
