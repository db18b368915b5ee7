/** The compile-time checks over the dispatch tables, what they buy, and what they let through. */
module Checker {
  import opened Common
  import opened Tables
  import opened Decoder
  import opened Locality
  import opened Verdicts

  const MAP_ESC_X87: byte := 0xEF
  const MAP_OP_EXT: byte := 0xEE

  const X87_OPCODES: seq<byte> := [0xD8, 0xD9, 0xDA, 0xDB, 0xDC, 0xDD, 0xDE, 0xDF]
  const GRP1_OPCODES: seq<byte> := [0xC6, 0xC7, 0xF6, 0xF7, 0xFE, 0xFF]
  const GRP2_OPCODES: seq<byte> := [0x00, 0x01, 0x18, 0x71, 0x72, 0x73, 0xAE, 0xB9, 0xBA, 0xC7]

  /** The accepted encodings of a group entry. */
  predicate EncodingOk(v: byte) {
    if 0xE0 <= v <= 0xE2 then true
    else if 0xA0 < v < 0xB0 then 2 <= v % 0x10 <= 15
    else v == 0x83 || v == 0x00 || v == 0x01 || v == 0x02 || v == 0x04 || v == 0x08
  }

  predicate EncodingsOk(table: seq<byte>) {
    forall i :: 0 <= i < |table| ==> EncodingOk(table[i])
  }

  method TableOk(table: seq<byte>) returns (ok: bool)
    ensures ok <==> EncodingsOk(table)
  {
    for i := 0 to |table|
      invariant EncodingsOk(table[..i])
    {
      if !EncodingOk(table[i]) {
        return false;
      }
      assert table[..i + 1] == table[..i] + [table[i]];
    }
    assert table[..|table|] == table;
    return true;
  }

  // ---- What the decoder does with an accepted entry ---------------------------------------

  /** The ModRM byte behind an opcode of `n` bytes selects the entry `v`. */
  predicate Selects(w: seq<byte>, first: nat, n: nat, table: seq<byte>, v: byte) {
    first + n < |w| && |table| == 0x100 && table[w[first + n]] == v
  }

  /** Behind every complete operand the entry adds `under66` bytes where 0x66 is in force, else `plain` bytes. */
  ghost predicate Adds(v: byte, under66: nat, plain: nat) {
    forall longMode: bool, w: seq<byte>, first: nat, n: nat, pf: PrefixInfo, table: seq<byte> ::
      Selects(w, first, n, table, v) && !IsError(ModrmLen(longMode, w, first, n, pf)) ==>
        GroupLen(longMode, w, first, n, pf, table) == ModrmLen(longMode, w, first, n, pf) + if pf.has66 then under66 else plain
  }

  /** The entry answers `answer`, whatever the operand and the prefixes are. */
  ghost predicate Answers(v: byte, answer: nat) {
    forall longMode: bool, w: seq<byte>, first: nat, n: nat, pf: PrefixInfo, table: seq<byte> ::
      Selects(w, first, n, table, v) ==> GroupLen(longMode, w, first, n, pf, table) == answer
  }

  function Uniform(v: byte): (table: seq<byte>)
    ensures |table| == 0x100 && forall m: byte :: table[m] == v
  {
    seq(0x100, _ => v)
  }

  /** One window on which every entry shows: an opcode and a register operand. */
  lemma Shows(v: byte, longMode: bool, pf: PrefixInfo)
    ensures var w, table := [0x90, 0xC0], Uniform(v);
            && Selects(w, 0, 1, table, v) && ModrmLen(longMode, w, 0, 1, pf) == 2
            && GroupLen(longMode, w, 0, 1, pf, table) ==
               if v >= 0xE0 then v else if v >= 0xB0 then 0xE2 else if v >= 0xA0 then v - 0xA0
               else if v >= 0x80 then 2 + TailWidth(longMode, v - 0x80, 0, pf) else 2 + v
  {
  }

  lemma SmallEntryAdds(v: byte, under66: nat, plain: nat)
    requires v < 0x80
    ensures Adds(v, under66, plain) <==> under66 == plain == v
  {
    hide ModrmLen;
    if Adds(v, under66, plain) {
      Shows(v, true, NO_PREFIXES);
      Shows(v, true, NO_PREFIXES.(has66 := true));
    }
  }

  lemma TailEntryAdds(v: byte)
    requires 0x80 <= v < 0xA0
    ensures Adds(v, 2, 4) <==> v == 0x83 || v == 0x85
  {
    hide ModrmLen;
    if Adds(v, 2, 4) {
      Shows(v, true, NO_PREFIXES);
      Shows(v, true, NO_PREFIXES.(has66 := true));
      Shows(v, true, NO_PREFIXES.(rexByte := 0x48));
    }
  }

  lemma FixedEntryAnswers(v: byte, answer: nat)
    requires 0xA0 <= v
    ensures Answers(v, answer) <==> answer == if v < 0xB0 then v - 0xA0 else if v < 0xE0 then 0xE2 else v
  {
    hide ModrmLen;
    if Answers(v, answer) {
      Shows(v, true, NO_PREFIXES);
    }
  }

  /**
   * The accepted encodings, by what the decoder does with them: a fixed field of 0, 1, 2, 4 or 8 bytes; a field of
   * two bytes under 0x66 and four otherwise, of the two such kinds the immediate and not the branch; a fixed body
   * of 2 to 15 bytes; or one of the three error codes.
   */
  lemma AcceptedMeans(v: byte)
    ensures v < 0x80 ==> (EncodingOk(v) <==> exists n :: n in {0, 1, 2, 4, 8} && Adds(v, n, n))
    ensures 0x80 <= v < 0xA0 ==> (EncodingOk(v) <==> Adds(v, 2, 4) && v - 0x80 != TAIL_RELZ)
    ensures 0xA0 <= v < 0xB0 ==> (EncodingOk(v) <==> exists n :: 2 <= n <= 15 && Answers(v, n))
    ensures 0xB0 <= v ==> (EncodingOk(v) <==> Answers(v, v) && v in {INSUFFICIENT_BUFFER, UNDEFINED_INSTRUCTION, UNKNOWN_ERROR})
  {
    hide Adds, Answers;
    if v < 0x80 {
      SmallEntryAdds(v, v, v);
      forall n ensures Adds(v, n, n) <==> n == v {
        SmallEntryAdds(v, n, n);
      }
    } else if v < 0xA0 {
      TailEntryAdds(v);
    } else {
      forall n ensures Answers(v, n) <==> n == if v < 0xB0 then v - 0xA0 else if v < 0xE0 then 0xE2 else v {
        FixedEntryAnswers(v, n);
      }
      FixedEntryAnswers(v, v);
      assert v < 0xB0 ==> Answers(v, v - 0xA0);
    }
  }

  predicate Member(v: nat, allowed: seq<byte>) {
    exists i :: 0 <= i < |allowed| && allowed[i] == v
  }

  method IsMember(v: nat, allowed: seq<byte>) returns (found: bool)
    ensures found <==> Member(v, allowed)
  {
    for i := 0 to |allowed|
      invariant forall j :: 0 <= j < i ==> allowed[j] != v
    {
      if allowed[i] == v {
        return true;
      }
    }
    return false;
  }

  /** Every cell holding the sentinel sits at a listed opcode. */
  predicate SentinelsWithin(cells: seq<byte>, sentinel: byte, allowed: seq<byte>) {
    forall i :: 0 <= i < |cells| && cells[i] == sentinel ==> Member(i, allowed)
  }

  method SentinelPositionsOk(cells: seq<byte>, sentinel: byte, allowed: seq<byte>) returns (ok: bool)
    ensures ok <==> SentinelsWithin(cells, sentinel, allowed)
  {
    for i := 0 to |cells|
      invariant forall k :: 0 <= k < i && cells[k] == sentinel ==> Member(k, allowed)
    {
      if cells[i] == sentinel {
        var found := IsMember(i, allowed);
        if !found {
          return false;
        }
      }
    }
    return true;
  }

  predicate AllEncodingsOk(tables: seq<seq<byte>>) {
    forall i :: 0 <= i < |tables| ==> EncodingsOk(tables[i])
  }

  /** Scans one list of tables. */
  method TablesOk(tables: seq<seq<byte>>) returns (ok: bool)
    ensures ok <==> AllEncodingsOk(tables)
  {
    for i := 0 to |tables|
      invariant forall k :: 0 <= k < i ==> EncodingsOk(tables[k])
    {
      var fine := TableOk(tables[i]);
      if !fine {
        return false;
      }
    }
    return true;
  }

  lemma AllOfBoth(a: seq<seq<byte>>, b: seq<seq<byte>>)
    ensures AllEncodingsOk(a + b) <==> AllEncodingsOk(a) && AllEncodingsOk(b)
  {
    if AllEncodingsOk(a + b) {
      forall i | 0 <= i < |a| ensures EncodingsOk(a[i]) {
        assert (a + b)[i] == a[i];
      }
      forall i | 0 <= i < |b| ensures EncodingsOk(b[i]) {
        assert (a + b)[|a| + i] == b[i];
      }
    }
  }

  /** The build's verdict over the one-byte, two-byte and x87 tables of both modes. */
  method AllOk(
    ia32Grp1: seq<seq<byte>>, ia32Grp2: seq<seq<byte>>, longGrp1: seq<seq<byte>>, longGrp2: seq<seq<byte>>,
    ia32X87: seq<seq<byte>>, longX87: seq<seq<byte>>) returns (ok: bool)
    ensures ok <==> AllEncodingsOk(ia32Grp1 + (ia32Grp2 + (longGrp1 + (longGrp2 + (ia32X87 + longX87)))))
  {
    hide AllEncodingsOk;
    AllOfBoth(ia32X87, longX87);
    AllOfBoth(longGrp2, ia32X87 + longX87);
    AllOfBoth(longGrp1, longGrp2 + (ia32X87 + longX87));
    AllOfBoth(ia32Grp2, longGrp1 + (longGrp2 + (ia32X87 + longX87)));
    AllOfBoth(ia32Grp1, ia32Grp2 + (longGrp1 + (longGrp2 + (ia32X87 + longX87))));
    ok := TablesOk(ia32Grp1);
    if !ok { return; }
    ok := TablesOk(ia32Grp2);
    if !ok { return; }
    ok := TablesOk(longGrp1);
    if !ok { return; }
    ok := TablesOk(longGrp2);
    if !ok { return; }
    ok := TablesOk(ia32X87);
    if !ok { return; }
    ok := TablesOk(longX87);
  }

  // ---- Sound: accepted sentinels always dispatch --------------------------------------

  /** The group tables a mode offers are exactly the listed ones. */
  predicate OffersListedGroups(t: Tables) {
    && (forall opc: byte :: opc in t.grp1 <==> Member(opc, GRP1_OPCODES))
    && (forall second: byte :: second in t.grp2 <==> Member(second, GRP2_OPCODES))
  }

  /** The static asserts over one mode's two maps. */
  predicate SentinelsOk(t: Tables) {
    && SentinelsWithin(t.oneByte, MAP_ESC_X87, X87_OPCODES)
    && SentinelsWithin(t.oneByte, MAP_OP_EXT, GRP1_OPCODES)
    && SentinelsWithin(t.twoByte, MAP_OP_EXT, GRP2_OPCODES)
  }

  lemma X87Listed(opc: byte)
    ensures Member(opc, X87_OPCODES) <==> 0xD8 <= opc <= 0xDF
  {
    assert 0xD8 <= opc <= 0xDF ==> X87_OPCODES[opc - 0xD8] == opc;
  }

  /** For any maps: the checks pass exactly when every sentinel selects a row 0..7 or a non-null table. */
  lemma SentinelCheckIsExact(t: Tables)
    requires Shaped(t) && OffersListedGroups(t)
    ensures SentinelsOk(t) <==>
            && (forall opc: byte :: t.oneByte[opc] == 0xEF ==> 0 <= opc - 0xD8 < |t.x87|)
            && (forall opc: byte :: t.oneByte[opc] == 0xEE ==> PickGroup1(t, opc).Some?)
            && (forall second: byte :: t.twoByte[second] == 0xEE ==> PickGroup2(t, second).Some?)
  {
    forall b: byte ensures Member(b, X87_OPCODES) <==> 0xD8 <= b <= 0xDF {
      X87Listed(b);
    }
    hide X87_OPCODES, GRP1_OPCODES, GRP2_OPCODES, Member;
    assert forall b: byte :: t.oneByte[b] == 0xEF && SentinelsOk(t) ==> Member(b, X87_OPCODES);
  }

  // ---- Not enough: two encodings that pass and break the decoder -------------------------

  /** The build accepts the tables. */
  predicate CheckerAccepts(t: Tables)
    requires Shaped(t)
  {
    && SentinelsOk(t)
    && (forall opc :: opc in t.grp1 ==> EncodingsOk(t.grp1[opc]))
    && (forall second :: second in t.grp2 ==> EncodingsOk(t.grp2[second]))
    && AllEncodingsOk(t.x87)
  }

  /** No reachable entry of a two-byte group is the fixed body 0xA2, which its opcode bytes already fill. */
  ghost predicate NoTwoByteBodyOfTwo(t: Tables)
    requires Indexable(t)
  {
    forall second: byte, m: byte :: GroupAt2(t, second).Some? ==> GroupAt2(t, second).value[m] != 0xA2
  }

  lemma AcceptedEntries(t: Tables, b: byte, m: byte)
    requires Indexable(t) && CheckerAccepts(t)
    ensures GroupAt1(t, b).Some? ==> EncodingOk(GroupAt1(t, b).value[m])
    ensures GroupAt2(t, b).Some? ==> EncodingOk(GroupAt2(t, b).value[m])
  {
  }

  /** Of accepted tables, lengths are local exactly when no two-byte group uses 0xA2. */
  lemma AcceptedIsLocalExactly(t: Tables)
    requires Indexable(t) && EscapeIsLive(t) && CheckerAccepts(t)
    ensures LengthsAreLocal(t) <==> NoTwoByteBodyOfTwo(t)
  {
    hide LengthsAreLocal, CheckerAccepts, EscapeIsLive, GroupAt1, GroupAt2;
    LocalExactlyWhenBodiesFit(t);
    forall b: byte, m: byte
      ensures GroupAt1(t, b).Some? ==> EncodingOk(GroupAt1(t, b).value[m])
      ensures GroupAt2(t, b).Some? ==> EncodingOk(GroupAt2(t, b).value[m])
    {
      AcceptedEntries(t, b, m);
    }
  }

  /** Never 0xE2, and 0xE0 only while bytes can still be missing. */
  ghost predicate VerdictsSettle(t: Tables)
    requires Indexable(t)
  {
    forall w: seq<byte> ::
      && Verdict(t, w) != UNKNOWN_ERROR
      && (|w| >= MAX_INSN_LEN - 1 + OpcodeReach(t) ==> Verdict(t, w) != INSUFFICIENT_BUFFER)
  }

  /** A window that starts with `head` and is long enough to settle. */
  function Padded(head: seq<byte>): (w: seq<byte>)
    ensures |w| == |head| + 20 && head <= w
  {
    head + seq(20, _ => 0)
  }

  lemma UndecidedEntry1(t: Tables, opc: byte, m: byte)
    requires Indexable(t) && StartsOpcode(t, opc) && GroupAt1(t, opc).Some?
    requires var e := GroupAt1(t, opc).value[m]; EncodingOk(e) && !EntryDecides(e)
    ensures !VerdictsSettle(t)
  {
    var w := Padded([opc, m]);
    assert w[0] == opc && w[1] == m && w[..0] == [];
    SummaryEmpty(t);
    PrefixStops(t, w, 0);
    assert Verdict(t, w) == GroupAt1(t, opc).value[m];
  }

  lemma UndecidedEntry2(t: Tables, second: byte, m: byte)
    requires Indexable(t) && EscapeIsLive(t) && GroupAt2(t, second).Some?
    requires var e := GroupAt2(t, second).value[m]; EncodingOk(e) && !EntryDecides(e)
    ensures !VerdictsSettle(t)
  {
    var w := Padded([0x0F, second, m]);
    assert w[0] == 0x0F && w[1] == second && w[2] == m && w[..0] == [];
    SummaryEmpty(t);
    PrefixStops(t, w, 0);
    assert Verdict(t, w) == GroupAt2(t, second).value[m];
  }

  lemma DecidedTablesSettle(t: Tables)
    requires Indexable(t) && PrefixKindsOk(t) && CellsHandled(t) && EntriesDecide(t)
    ensures VerdictsSettle(t)
  {
    forall w: seq<byte>
      ensures Verdict(t, w) != UNKNOWN_ERROR
      ensures |w| >= MAX_INSN_LEN - 1 + OpcodeReach(t) ==> Verdict(t, w) != INSUFFICIENT_BUFFER
    {
      var r := RunLength(t, w);
      if PrefixVerdict(t, w) == 0 {
        DecodeBounds(t, w, r, Summary(t, w[..r]));
      }
    }
  }

  /** Of accepted tables with handled maps, verdicts settle exactly when no entry is 0xE0 or 0xE2. */
  lemma AcceptedSettlesExactly(t: Tables)
    requires Indexable(t) && PrefixKindsOk(t) && EscapeIsLive(t) && CheckerAccepts(t) && CellsHandled(t)
    ensures VerdictsSettle(t) <==> EntriesDecide(t)
  {
    hide VerdictsSettle, CheckerAccepts, GroupAt1, GroupAt2, CellsHandled;
    if EntriesDecide(t) {
      DecidedTablesSettle(t);
    } else if opc: byte, m: byte :|
      StartsOpcode(t, opc) && GroupAt1(t, opc).Some? && !EntryDecides(GroupAt1(t, opc).value[m])
    {
      AcceptedEntries(t, opc, m);
      UndecidedEntry1(t, opc, m);
    } else {
      var second: byte, m: byte :| GroupAt2(t, second).Some? && !EntryDecides(GroupAt2(t, second).value[m]);
      AcceptedEntries(t, second, m);
      UndecidedEntry2(t, second, m);
    }
  }

  /** With a two-byte entry 0xA2, three bytes have length two and those two are "not enough". */
  lemma BodyOfTwoIsNotLocal(t: Tables, second: byte, m: byte)
    requires Indexable(t) && EscapeIsLive(t) && GroupAt2(t, second).Some? && GroupAt2(t, second).value[m] == 0xA2
    ensures Verdict(t, [0x0F, second, m]) == 2 && Verdict(t, [0x0F, second]) == INSUFFICIENT_BUFFER
    ensures !LengthsAreLocal(t)
  {
  }
}
