/** "Not enough bytes": how many bytes the shortest instruction has that the window begins. */
module Completeness {
  import opened Common
  import opened Tables
  import opened Decoder
  import opened Locality
  import opened Verdicts
  import opened Grammar

  // ---- Tables on which every partial opcode leads somewhere --------------------------------

  /** A ModRM byte that ends an operand by itself and that the table gives a length. */
  predicate Opens(table: seq<byte>, m: byte)
    requires |table| == 0x100
  {
    m in {0x00, 0x08, 0x20, 0xD0} && table[m] < 0xB0
  }

  ghost predicate HasOpening(table: seq<byte>) {
    |table| == 0x100 && exists m: byte :: Opens(table, m)
  }

  /** The map behind the escape byte `second`. */
  function ThirdMap(t: Tables, second: byte): (third: seq<byte>)
    requires Indexable(t) && t.longMode
    ensures |third| == 0x100
  {
    if t.twoByte[second] == 0xE8 then t.map38 else t.map3A
  }

  /** Every reachable group table has such a byte, and each escape has an opcode behind it. */
  ghost predicate Extendable(t: Tables)
    requires Indexable(t)
  {
    && StartsOpcode(t, 0x90) && Classify1(t, 0x90) == Plain(TAIL_NONE, 0)
    && Classify2(t, 0xA2) == Plain(TAIL_NONE, 0)
    && (t.longMode ==> t.map38[0x00] == 0x00 && t.map3A[0x0F] == 0xA1)
    && GroupAt1(t, 0x8D).None? && !Classify1(t, 0x8D).Escape?
    && (forall opc: byte :: GroupAt1(t, opc).Some? ==> HasOpening(GroupAt1(t, opc).value))
    && (forall second: byte :: GroupAt2(t, second).Some? ==> HasOpening(GroupAt2(t, second).value))
  }

  // ---- The least completion ------------------------------------------------------------------

  /** Operand and immediate bytes when missing bytes are zero. */
  function SizeAfter(t: Tables, c: OpcodeClass, n: nat, after: seq<byte>, pf: PrefixInfo): nat
    requires c.Grouped? ==> |c.table| == 0x100
  {
    OperandSpan(t, c, after, pf) + ImmSize(t, c, n, after, pf)
  }

  /** The least of these over the ModRM bytes below `k` that the table gives a length. */
  function LeastEntry(t: Tables, table: seq<byte>, n: nat, pf: PrefixInfo, k: nat): nat
    requires |table| == 0x100 && k <= 0x100
  {
    if k == 0 then ERR_BASE
    else
      var least := LeastEntry(t, table, n, pf, k - 1);
      var size := SizeAfter(t, Grouped(table), n, [k - 1], pf);
      if table[k - 1] < 0xB0 && size < least then size else least
  }

  /** Fewest operand and immediate bytes behind an opcode of class `c` of which `after` is there. */
  function LeastAfter(t: Tables, c: OpcodeClass, n: nat, after: seq<byte>, pf: PrefixInfo): nat
    requires c.Grouped? ==> |c.table| == 0x100
  {
    if after != [] || c.Plain? then SizeAfter(t, c, n, after, pf)
    else if c.Grouped? then LeastEntry(t, c.table, n, pf, 0x100)
    else 1 + ImmSize(t, c, n, after, pf)
  }

  /** Fewest bytes of an instruction, from its opcode on, that `rest` begins. */
  function LeastBody(t: Tables, rest: seq<byte>, pf: PrefixInfo): nat
    requires Indexable(t)
  {
    if rest == [] then 1
    else
      var n := OpcodeSize(t, rest);
      var c := Classify(t, rest[..n]);
      if !c.Escape? then n + LeastAfter(t, c, n, rest[n..], pf)
      else if n == 1 then 2
      else if t.longMode && 0x00 in ThirdMap(t, rest[1]) then 4
      else 5
  }

  /** Fewest bytes of an instruction that the window begins. */
  function LeastLength(t: Tables, w: seq<byte>): nat
    requires Indexable(t)
  {
    var r := RunLength(t, w);
    r + LeastBody(t, w[r..], Summary(t, w[..r]))
  }

  lemma {:induction false} LeastEntryIsLeast(t: Tables, table: seq<byte>, n: nat, pf: PrefixInfo, k: nat, m: byte)
    requires |table| == 0x100 && m < k <= 0x100 && table[m] < 0xB0
    ensures LeastEntry(t, table, n, pf, k) <= SizeAfter(t, Grouped(table), n, [m], pf)
  {
    if m < k - 1 {
      LeastEntryIsLeast(t, table, n, pf, k - 1, m);
    }
  }

  lemma SizeAfterIsSmall(t: Tables, table: seq<byte>, n: nat, m: byte, pf: PrefixInfo)
    requires |table| == 0x100 && table[m] < 0xB0
    ensures SizeAfter(t, Grouped(table), n, [m], pf) < ERR_BASE
  {
  }

  lemma {:induction false} LeastEntryIsAttained(t: Tables, table: seq<byte>, n: nat, pf: PrefixInfo, k: nat) returns (m: byte)
    requires |table| == 0x100 && k <= 0x100 && LeastEntry(t, table, n, pf, k) < ERR_BASE
    ensures table[m] < 0xB0 && LeastEntry(t, table, n, pf, k) == SizeAfter(t, Grouped(table), n, [m], pf)
  {
    if table[k - 1] < 0xB0 && SizeAfter(t, Grouped(table), n, [k - 1], pf) < LeastEntry(t, table, n, pf, k - 1) {
      m := k - 1;
    } else {
      m := LeastEntryIsAttained(t, table, n, pf, k - 1);
    }
  }

  // ---- It is attained ------------------------------------------------------------------------

  /** The class of a window's opcode, as far as its bytes are there, when the verdict is 0xE0. */
  lemma WaitingOpcode(t: Tables, w: seq<byte>, r: nat, pf: PrefixInfo)
    requires WellFormed(t) && r < |w| && StartsOpcode(t, w[r]) && Decode(t, w, r, pf) != UNDEFINED_INSTRUCTION
    ensures var n := OpcodeSize(t, w[r..]); var c := Classify(t, w[r..][..n]);
            && n >= 1 && !c.NoLength?
            && (c.Escape? ==> n == |w| - r && (n == 1 || (n == 2 && t.longMode)))
            && (Lengthy(c) ==> Decode(t, w, r, pf) == ClassLen(t.longMode, w, r, n, pf, c))
  {
    hide Classify1, Classify2, Classify3, Decode, TwoByteLen, ClassLen;
    var rest := w[r..];
    var n := OpcodeSize(t, rest);
    assert rest[..n] == w[r..r + n];
    DecodeBounds(t, w, r, pf);
    DecodeByClass1(t, w, r, pf);
    if Classify1(t, w[r]).Escape? && r + 1 < |w| {
      DecodeByClass2(t, w, r, pf);
      if Classify2(t, w[r + 1]).Escape? && r + 2 < |w| {
        DecodeByClass3(t, w, r, pf);
      }
    }
  }

  /** Where a class is not 0xE1, the operand's first byte is one the grammar admits. */
  lemma WaitingOperand(longMode: bool, w: seq<byte>, r: nat, n: nat, pf: PrefixInfo, c: OpcodeClass)
    requires n >= 1 && r + n < |w| && Lengthy(c)
    requires c.Grouped? ==> |c.table| == 0x100 && TableDecides(c.table)
    requires ClassLen(longMode, w, r, n, pf, c) != UNDEFINED_INSTRUCTION
    ensures c.Grouped? ==> c.table[w[r + n]] < 0xB0
    ensures c.WithModrm? || (c.Grouped? && c.table[w[r + n]] < 0xA0) ==> !(w[r] == 0x8D && w[r + n] / 64 == 3)
  {
    if c.Grouped? {
      assert EntryDecides(c.table[w[r + n]]);
    }
  }

  /** `after` filled up with zeros and cut to its operand and immediate. */
  function Filled(t: Tables, p: seq<byte>, opcode: seq<byte>, c: OpcodeClass, after: seq<byte>, pf: PrefixInfo): Instruction
    requires c.Grouped? ==> |c.table| == 0x100
  {
    var m := OperandSpan(t, c, after, pf);
    var k := ImmSize(t, c, |opcode|, after, pf);
    var bytes := after + seq(m + k, _ => 0 as byte);
    Instruction(p, opcode, bytes[..m], bytes[m..m + k])
  }

  /** What a class asks of the first byte behind the opcode. */
  predicate Admits(opcode: seq<byte>, c: OpcodeClass, after: seq<byte>)
    requires c.Grouped? ==> |c.table| == 0x100
  {
    && opcode != [] && Lengthy(c) && (after == [] ==> c.Plain?)
    && (c.Grouped? ==> c.table[after[0]] < 0xB0 && FixedBodyFits(|opcode|, c.table[after[0]]))
    && (c.WithModrm? || (c.Grouped? && c.table[after[0]] < 0xA0) ==> !(opcode[0] == 0x8D && after[0] / 64 == 3))
  }

  lemma FilledOperand(t: Tables, c: OpcodeClass, opcode: seq<byte>, after: seq<byte>, more: seq<byte>, pf: PrefixInfo)
    requires (c.Grouped? ==> |c.table| == 0x100) && Admits(opcode, c, after)
    requires forall i :: 0 <= i < |more| ==> more[i] == 0
    requires |more| >= OperandSpan(t, c, after, pf)
    ensures var m, bytes := OperandSpan(t, c, after, pf), after + more;
            && OperandSpan(t, c, bytes, pf) == m
            && ImmSize(t, c, |opcode|, bytes, pf) == ImmSize(t, c, |opcode|, after, pf)
            && (c.WithModrm? ==> OperandOk(opcode, bytes[..m], Addr16(t, pf)))
            && (c.Grouped? ==> m >= 1 && GroupParsed(|opcode|, c.table[bytes[0]], opcode, bytes[..m], Addr16(t, pf)))
  {
    if after != [] && !c.Plain? {
      var m, bytes := OperandSpan(t, c, after, pf), after + more;
      assert SibOf(bytes) == SibOf(after);
      if m == ModrmSpan(after[0], SibOf(after), Addr16(t, pf)) {
        SpanOfOperand(bytes, m, Addr16(t, pf));
      }
    }
  }

  lemma FilledEncodes(t: Tables, p: seq<byte>, opcode: seq<byte>, after: seq<byte>)
    requires Indexable(t) && AllPrefixes(t, p) && opcode != [] && StartsOpcode(t, opcode[0])
    requires Admits(opcode, Classify(t, opcode), after)
    ensures var c, pf := Classify(t, opcode), Summary(t, p); var x := Filled(t, p, opcode, c, after, pf);
            Encodes(t, x) && |x.operand| + |x.imm| == SizeAfter(t, c, |opcode|, after, pf)
  {
    hide Classify, OperandSpan, ImmSize, Summary, AllPrefixes, Encodes, OperandOk, GroupParsed, Admits;
    assert Lengthy(Classify(t, opcode)) by { AdmitsLengthy(opcode, Classify(t, opcode), after); }
    var c, pf := Classify(t, opcode), Summary(t, p);
    var m, k := OperandSpan(t, c, after, pf), ImmSize(t, c, |opcode|, after, pf);
    var more := seq(m + k, _ => 0 as byte);
    FilledOperand(t, c, opcode, after, more, pf);
    ParsedEncodes(t, Filled(t, p, opcode, c, after, pf), c, pf, after + more, m);
  }

  lemma AdmitsLengthy(opcode: seq<byte>, c: OpcodeClass, after: seq<byte>)
    requires (c.Grouped? ==> |c.table| == 0x100) && Admits(opcode, c, after)
    ensures Lengthy(c)
  {
  }

  /** Filling keeps the bytes that are there, or ends before them. */
  lemma FilledBytes(t: Tables, p: seq<byte>, opcode: seq<byte>, c: OpcodeClass, after: seq<byte>, pf: PrefixInfo)
    requires c.Grouped? ==> |c.table| == 0x100
    ensures var x, w := Filled(t, p, opcode, c, after, pf), p + opcode + after;
            if |w| <= |x.Bytes()| then w <= x.Bytes() else x.Bytes() <= w
  {
    hide OperandSpan, ImmSize;
    var m := OperandSpan(t, c, after, pf);
    var k := ImmSize(t, c, |opcode|, after, pf);
    var bytes := after + seq(m + k, _ => 0 as byte);
    var x := Filled(t, p, opcode, c, after, pf);
    assert x.operand + x.imm == bytes[..m + k];
    assert x.Bytes() == (p + opcode) + bytes[..m + k];
  }

  /** A window the decoder waits for is not at or behind the end of an instruction. */
  lemma WaitingIsUnfinished(t: Tables, w: seq<byte>, x: Instruction)
    requires Indexable(t) && Encodes(t, x) && Verdict(t, w) == INSUFFICIENT_BUFFER
    ensures !(x.Bytes() <= w)
  {
    hide Encodes, Verdict;
    if x.Bytes() <= w {
      assert w == x.Bytes() + w[|x.Bytes()|..];
      AssembledDecodes(t, x, w[|x.Bytes()|..]);
    }
  }

  lemma ClassDefaults(t: Tables, opcode: seq<byte>)
    requires Indexable(t)
    ensures var c := Classify(t, opcode); c.Plain? || c.WithModrm? ==> c.default <= 9
  {
  }

  lemma ClassIsOpen(t: Tables, opcode: seq<byte>)
    requires WellFormed(t) && Extendable(t) && opcode != [] && StartsOpcode(t, opcode[0])
    ensures var c := Classify(t, opcode);
            c.Grouped? ==> TableFits(|opcode|, c.table) && TableDecides(c.table) && opcode[0] != 0x8D && HasOpening(c.table)
  {
  }

  /** The opcode, and what is there or best put behind it. */
  lemma LeastChoice(t: Tables, opcode: seq<byte>, after: seq<byte>, pf: PrefixInfo) returns (bytes: seq<byte>)
    requires WellFormed(t) && Extendable(t) && opcode != [] && StartsOpcode(t, opcode[0])
    requires var c := Classify(t, opcode); Lengthy(c) && (after != [] ==> Admits(opcode, c, after))
    ensures after <= bytes && (after != [] ==> bytes == after)
    ensures Admits(opcode, Classify(t, opcode), bytes)
    ensures SizeAfter(t, Classify(t, opcode), |opcode|, bytes, pf) == LeastAfter(t, Classify(t, opcode), |opcode|, after, pf)
  {
    hide Classify, FixedBodiesFit, EntriesDecide, CellsHandled, Extendable;
    var c := Classify(t, opcode);
    ClassIsOpen(t, opcode);
    if after != [] || c.Plain? {
      bytes := after;
    } else if c.Grouped? {
      var m: byte :| Opens(c.table, m);
      LeastEntryIsLeast(t, c.table, |opcode|, pf, 0x100, m);
      SizeAfterIsSmall(t, c.table, |opcode|, m, pf);
      var least := LeastEntryIsAttained(t, c.table, |opcode|, pf, 0x100);
      FitsEntry(|opcode|, c.table, least);
      bytes := [least];
    } else {
      bytes := [0x00];
    }
  }

  /** An opcode that stops at an escape goes on to the shortest instruction behind it. */
  lemma FinishEscape(t: Tables, p: seq<byte>, rest: seq<byte>) returns (x: Instruction)
    requires WellFormed(t) && Extendable(t) && AllPrefixes(t, p) && rest != [] && StartsOpcode(t, rest[0])
    requires Classify(t, rest).Escape? && OpcodeSize(t, rest) == |rest|
    ensures Encodes(t, x) && x.prefixes == p && rest < x.opcode
    ensures |x.Bytes()| == |p| + LeastBody(t, rest, Summary(t, p))
  {
    hide Summary, AllPrefixes, FixedBodiesFit, EntriesDecide, CellsHandled;
    assert rest[..|rest|] == rest;
    if |rest| == 1 {
      x := Instruction(p, [rest[0], 0xA2], [], []);
    } else {
      var third := ThirdMap(t, rest[1]);
      if 0x00 in third {
        var i :| 0 <= i < 0x100 && third[i] == 0x00;
        x := Instruction(p, [rest[0], rest[1], i], [0xC0], []);
      } else {
        x := Instruction(p, [rest[0], rest[1], 0x0F], [0xC0], [0x00]);
      }
    }
  }

  /** Where the opcode is complete. */
  lemma FinishOpcode(t: Tables, w: seq<byte>, r: nat) returns (x: Instruction)
    requires WellFormed(t) && Extendable(t) && Verdict(t, w) == INSUFFICIENT_BUFFER
    requires r == RunLength(t, w) < |w| && StartsOpcode(t, w[r])
    requires Decode(t, w, r, Summary(t, w[..r])) != UNDEFINED_INSTRUCTION
    requires Lengthy(Classify(t, w[r..][..OpcodeSize(t, w[r..])]))
    ensures Encodes(t, x) && x.prefixes == w[..r] && w < x.Bytes() && |x.Bytes()| == LeastLength(t, w)
  {
    hide Summary, AllPrefixes, RunLength, Encodes, Verdict, Decode, Classify, OpcodeSize, ClassLen, LeastAfter,
         SizeAfter, Admits, OperandSpan, ImmSize, Filled, FixedBodiesFit, EntriesDecide, CellsHandled, Extendable, TableDecides, TableFits;
    var p, rest := w[..r], w[r..];
    var pf := Summary(t, p);
    var n := OpcodeSize(t, rest);
    var opcode, after := rest[..n], rest[n..];
    var c := Classify(t, opcode);
    WaitingOpcode(t, w, r, pf);
    ClassIsOpen(t, opcode);
    if after != [] {
      WaitingOperand(t.longMode, w, r, n, pf, c);
      if c.Grouped? {
        FitsEntry(n, c.table, after[0]);
      }
      AdmitsIs(opcode, c, after);
    }
    var bytes := LeastChoice(t, opcode, after, pf);
    x := Filled(t, p, opcode, c, bytes, pf);
    FilledEncodes(t, p, opcode, bytes);
    FilledBytes(t, p, opcode, c, bytes, pf);
    FilledParts(t, p, opcode, c, bytes, pf);
    assert w == p + opcode + after;
    WaitingIsUnfinished(t, w, x);
  }

  lemma AdmitsIs(opcode: seq<byte>, c: OpcodeClass, after: seq<byte>)
    requires (c.Grouped? ==> |c.table| == 0x100) && opcode != [] && Lengthy(c) && after != []
    requires c.Grouped? ==> c.table[after[0]] < 0xB0 && FixedBodyFits(|opcode|, c.table[after[0]])
    requires c.WithModrm? || (c.Grouped? && c.table[after[0]] < 0xA0) ==> !(opcode[0] == 0x8D && after[0] / 64 == 3)
    ensures Admits(opcode, c, after)
  {
  }

  lemma FilledParts(t: Tables, p: seq<byte>, opcode: seq<byte>, c: OpcodeClass, after: seq<byte>, pf: PrefixInfo)
    requires c.Grouped? ==> |c.table| == 0x100
    ensures var x := Filled(t, p, opcode, c, after, pf); x.prefixes == p && x.opcode == opcode
  {
  }

  /** A 0xE0 window properly begins an instruction, its prefixes complete, of exactly LeastLength bytes. */
  lemma LeastCompletion(t: Tables, w: seq<byte>) returns (x: Instruction)
    requires WellFormed(t) && Extendable(t) && Verdict(t, w) == INSUFFICIENT_BUFFER
    ensures Encodes(t, x) && x.prefixes == w[..RunLength(t, w)] && w < x.Bytes()
    ensures |x.Bytes()| == LeastLength(t, w)
  {
    hide Decode, Summary, Encodes, OpcodeSize, FixedBodiesFit, EntriesDecide, CellsHandled, Extendable;
    var r := RunLength(t, w);
    var pf := Summary(t, w[..r]);
    if r == |w| {
      x := Nop(t, w);
    } else {
      WaitingOpcode(t, w, r, pf);
      var rest := w[r..];
      if Classify(t, rest[..OpcodeSize(t, rest)]).Escape? {
        assert rest[..OpcodeSize(t, rest)] == rest;
        x := FinishEscape(t, w[..r], rest);
        assert x.Bytes() == w[..r] + x.opcode + (x.operand + x.imm);
      } else {
        x := FinishOpcode(t, w, r);
      }
    }
  }

  lemma Nop(t: Tables, p: seq<byte>) returns (x: Instruction)
    requires Indexable(t) && Extendable(t) && AllPrefixes(t, p)
    ensures Encodes(t, x) && x.prefixes == p && p < x.Bytes() && |x.Bytes()| == |p| + 1
  {
    x := Instruction(p, [0x90], [], []);
  }

  // ---- Nothing is shorter --------------------------------------------------------------------

  /** The span of an operand whose SIB byte is still missing is the least it can be. */
  lemma SizeIsLeast(t: Tables, x: Instruction, after: seq<byte>)
    requires Indexable(t) && Encodes(t, x) && after <= x.operand + x.imm
    requires after != [] || Classify(t, x.opcode).Plain?
    ensures SizeAfter(t, Classify(t, x.opcode), |x.opcode|, after, Summary(t, x.prefixes)) <= |x.operand| + |x.imm|
  {
    hide Classify, Summary, AllPrefixes;
    if after != [] && !Classify(t, x.opcode).Plain? {
      assert after[0] == (x.operand + x.imm)[0] == x.operand[0];
      assert |after| > 1 && |x.operand| > 1 ==> after[1] == (x.operand + x.imm)[1] == x.operand[1];
    }
  }

  lemma LeastAfterIsLeast(t: Tables, x: Instruction, after: seq<byte>)
    requires Indexable(t) && Encodes(t, x) && after <= x.operand + x.imm
    ensures LeastAfter(t, Classify(t, x.opcode), |x.opcode|, after, Summary(t, x.prefixes)) <= |x.operand| + |x.imm|
  {
    hide Summary, Classify, AllPrefixes, SizeAfter;
    var c, pf := Classify(t, x.opcode), Summary(t, x.prefixes);
    if after != [] || c.Plain? {
      SizeIsLeast(t, x, after);
    } else if c.Grouped? {
      assert [x.operand[0]] <= x.operand + x.imm;
      SizeIsLeast(t, x, [x.operand[0]]);
      LeastEntryIsLeast(t, c.table, |x.opcode|, pf, 0x100, x.operand[0]);
    }
  }

  /** The opcode bytes at the front of a cut body are the instruction's, or stop at an escape. */
  lemma OpcodeOfPart(t: Tables, x: Instruction, rest: seq<byte>, after: seq<byte>)
    requires Indexable(t) && Encodes(t, x) && rest != [] && rest <= x.opcode + after
    ensures var n := OpcodeSize(t, rest); var c := Classify(t, rest[..n]);
            if c.Escape? then n < |x.opcode| && n <= 2 && rest[..n] == x.opcode[..n]
            else n == |x.opcode| && rest[..n] == x.opcode && rest[n..] <= after
  {
  }

  lemma EscapedBody(t: Tables, x: Instruction, rest: seq<byte>)
    requires Indexable(t) && Encodes(t, x)
    requires var n := OpcodeSize(t, rest); 1 <= n <= 2 && n < |x.opcode| && rest[..n] == x.opcode[..n] && Classify(t, rest[..n]).Escape?
    ensures LeastBody(t, rest, Summary(t, x.prefixes)) <= |x.opcode| + |x.operand| + |x.imm|
  {
    hide Summary, AllPrefixes;
  }

  lemma LeastBodyIsLeast(t: Tables, x: Instruction, rest: seq<byte>)
    requires Indexable(t) && Encodes(t, x) && rest != [] && rest <= x.opcode + x.operand + x.imm
    ensures LeastBody(t, rest, Summary(t, x.prefixes)) <= |x.opcode| + |x.operand| + |x.imm|
  {
    hide Encodes, Summary, Classify, LeastAfter, OpcodeSize;
    assert x.opcode + (x.operand + x.imm) == x.opcode + x.operand + x.imm;
    OpcodeOfPart(t, x, rest, x.operand + x.imm);
    OpcodeSizeOfSome(t, rest);
    var n := OpcodeSize(t, rest);
    if Classify(t, rest[..n]).Escape? {
      EscapedBody(t, x, rest);
    } else {
      LeastAfterIsLeast(t, x, rest[n..]);
    }
  }

  lemma OpcodeSizeOfSome(t: Tables, rest: seq<byte>)
    requires Indexable(t) && rest != []
    ensures OpcodeSize(t, rest) >= 1
  {
  }

  /** No instruction that the window properly begins has fewer than LeastLength bytes. */
  lemma CompletionsAreNoShorter(t: Tables, w: seq<byte>, x: Instruction)
    requires Indexable(t) && Encodes(t, x) && w < x.Bytes()
    ensures LeastLength(t, w) <= |x.Bytes()|
  {
    hide Encodes, Summary, LeastBody;
    var r, s := RunLength(t, w), |x.prefixes|;
    EncodesParts(t, x);
    if r == |w| {
      assert LeastBody(t, w[r..], Summary(t, w[..r])) == 1 by { LeastOfNothing(t, w[r..], Summary(t, w[..r])); }
    } else {
      assert x.Bytes()[..s] == x.prefixes && x.Bytes()[s] == x.opcode[0];
      RunLengthIs(t, x.Bytes(), s);
      RunOfPrefix(t, w, x.Bytes());
      assert w[..r] == x.prefixes;
      assert x.Bytes()[s..] == x.opcode + x.operand + x.imm;
      LeastBodyIsLeast(t, x, w[r..]);
    }
  }

  lemma LeastOfNothing(t: Tables, rest: seq<byte>, pf: PrefixInfo)
    requires Indexable(t) && rest == []
    ensures LeastBody(t, rest, pf) == 1
  {
  }

  // ---- What 0xE0 means -----------------------------------------------------------------------

  /** A proper beginning of an instruction of at most 15 bytes is 0xE0. */
  lemma IncompleteIsInsufficient(t: Tables, w: seq<byte>, x: Instruction)
    requires WellFormed(t) && Encodes(t, x) && |x.Bytes()| <= MAX_INSN_LEN && w < x.Bytes()
    ensures Verdict(t, w) == INSUFFICIENT_BUFFER
  {
    hide Encodes, Verdict;
    AssembledDecodes(t, x, []);
    assert x.Bytes() + [] == x.Bytes();
    TruncationIsInsufficient(t, x.Bytes(), |w|);
    assert x.Bytes()[..|w|] == w;
  }

  /** The least completion of a body that the window already determines is that body. */
  lemma LeastOfKnownBody(t: Tables, w: seq<byte>)
    requires WellFormed(t) && Extendable(t) && Verdict(t, w) == INSUFFICIENT_BUFFER
    requires var r := RunLength(t, w);
             r < |w| && StartsOpcode(t, w[r]) && !IsError(Decode(t, w, r, Summary(t, w[..r])))
    ensures var r := RunLength(t, w);
            LeastLength(t, w) == r + Decode(t, w, r, Summary(t, w[..r])) <= MAX_INSN_LEN
  {
    hide Decode, Summary, Encodes, LeastLength, FixedBodiesFit, EntriesDecide, CellsHandled, Extendable;
    var r := RunLength(t, w);
    var pf := Summary(t, w[..r]);
    SummaryLength(t, w[..r]);
    var x := LeastCompletion(t, w);
    EncodesIsShort(t, x);
    HoldsItself(x, []);
    assert x.Bytes() + [] == x.Bytes();
    DecodeOfInstruction(t, x.Bytes(), r, x);
    assert w[r..] <= x.Bytes()[r..];
    DecodeAgree(t, w, r, pf, x.Bytes(), r, pf);
  }

  /** The same of the instructions within the cap, exactly: the least completion decides. */
  lemma ExtensionExactly(t: Tables, w: seq<byte>)
    requires WellFormed(t) && Extendable(t)
    ensures (exists x: Instruction :: Encodes(t, x) && |x.Bytes()| <= MAX_INSN_LEN && w < x.Bytes()) <==>
            Verdict(t, w) == INSUFFICIENT_BUFFER && LeastLength(t, w) <= MAX_INSN_LEN
  {
    hide Encodes, Verdict, LeastLength, FixedBodiesFit, EntriesDecide, CellsHandled, Extendable;
    if Verdict(t, w) == INSUFFICIENT_BUFFER && LeastLength(t, w) <= MAX_INSN_LEN {
      var x := LeastCompletion(t, w);
    }
    forall x: Instruction | Encodes(t, x) && |x.Bytes()| <= MAX_INSN_LEN && w < x.Bytes()
      ensures Verdict(t, w) == INSUFFICIENT_BUFFER && LeastLength(t, w) <= MAX_INSN_LEN
    {
      IncompleteIsInsufficient(t, w, x);
      CompletionsAreNoShorter(t, w, x);
    }
  }
}
