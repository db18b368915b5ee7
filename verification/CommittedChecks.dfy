/** The committed tables under the build's checks, and tables that slip through them. */
module CommittedChecks {
  import opened Common
  import opened Tables
  import opened LongModeTables
  import opened Ia32Tables
  import opened Decoder
  import opened Verdicts
  import opened Modes
  import opened Checker

  lemma CommittedTableAccepted(table: seq<byte>)
    requires CommittedTable(table)
    ensures EncodingsOk(table)
  {
  }

  /** Both committed table sets pass the build's checks. */
  lemma CommittedTablesAccepted(longMode: bool)
    ensures var t := ModeTables(longMode);
            Indexable(t) && OffersListedGroups(t) && EscapeIsLive(t) && CheckerAccepts(t)
  {
    var t := ModeTables(longMode);
    ModesWellFormed(longMode);
    SharedGroupsCommitted();
    LongGroupsCommitted();
    Ia32GroupsCommitted();
    forall opc | opc in t.grp1 ensures EncodingsOk(t.grp1[opc]) {
      CommittedTableAccepted(t.grp1[opc]);
    }
    forall second | second in t.grp2 ensures EncodingsOk(t.grp2[second]) {
      CommittedTableAccepted(t.grp2[second]);
    }
    forall i | 0 <= i < |t.x87| ensures EncodingsOk(t.x87[i]) {
      CommittedTableAccepted(t.x87[i]);
    }
    GroupsOffered(longMode);
    SentinelCheckIsExact(t);
    MapsSelectTables(longMode);
    assert LongPrefix(0x0F) == Ia32Prefix(0x0F) == Escape2;
  }

  lemma Group1Members(b: byte)
    ensures Member(b, GRP1_OPCODES) <==> b in {0xC6, 0xC7, 0xF6, 0xF7, 0xFE, 0xFF}
  {
    var all := GRP1_OPCODES;
    assert all[0] == 0xC6 && all[1] == 0xC7 && all[2] == 0xF6 && all[3] == 0xF7 && all[4] == 0xFE && all[5] == 0xFF;
  }

  lemma Group2Members(b: byte)
    ensures Member(b, GRP2_OPCODES) <==> b in {0x00, 0x01, 0x18, 0x71, 0x72, 0x73, 0xAE, 0xB9, 0xBA, 0xC7}
  {
    var all := GRP2_OPCODES;
    assert all[0] == 0x00 && all[1] == 0x01 && all[2] == 0x18 && all[3] == 0x71 && all[4] == 0x72;
    assert all[5] == 0x73 && all[6] == 0xAE && all[7] == 0xB9 && all[8] == 0xBA && all[9] == 0xC7;
  }

  lemma GroupsOffered(longMode: bool)
    ensures OffersListedGroups(ModeTables(longMode))
  {
    forall b: byte
      ensures Member(b, GRP1_OPCODES) <==> b in {0xC6, 0xC7, 0xF6, 0xF7, 0xFE, 0xFF}
      ensures Member(b, GRP2_OPCODES) <==> b in {0x00, 0x01, 0x18, 0x71, 0x72, 0x73, 0xAE, 0xB9, 0xBA, 0xC7}
    {
      Group1Members(b);
      Group2Members(b);
    }
    hide Member, GRP1_OPCODES, GRP2_OPCODES;
  }

  lemma MapsSelectTables(longMode: bool)
    ensures var t := ModeTables(longMode);
            && Shaped(t)
            && (forall opc: byte :: t.oneByte[opc] == 0xEE ==> PickGroup1(t, opc).Some?)
            && (forall second: byte :: t.twoByte[second] == 0xEE ==> PickGroup2(t, second).Some?)
  {
    var t := ModeTables(longMode);
    ModesWellFormed(longMode);
    forall opc: byte | t.oneByte[opc] == 0xEE ensures PickGroup1(t, opc).Some? {
      assert t.oneByte[opc] == if longMode then LongOneByte(opc) else Ia32OneByte(opc);
    }
    forall second: byte | t.twoByte[second] == 0xEE ensures PickGroup2(t, second).Some? {
      assert TwoByteCellOk(t, second);
    }
  }

  /** The committed long-mode tables with every cell of 0F B9 set to the fixed body 0xA2. */
  function GappedTables(): Tables {
    LONG.(grp2 := LONG_GRP2[0xB9 := BodiesOfTwo()])
  }

  function BodiesOfTwo(): (table: seq<byte>)
    ensures |table| == 0x100 && forall m: byte :: table[m] == 0xA2
  {
    seq(0x100, _ => 0xA2)
  }

  lemma GappedAccepted()
    ensures var t := GappedTables();
            Indexable(t) && EscapeIsLive(t) && CheckerAccepts(t) && GroupAt2(t, 0xB9) == Some(BodiesOfTwo())
  {
    hide CheckerAccepts;
    CommittedTablesAccepted(true);
    assert EncodingsOk(BodiesOfTwo());
    GappedMaps();
    AcceptanceWithGroup(LONG, 0xB9, BodiesOfTwo());
  }

  lemma GappedMaps()
    ensures LONG.twoByte[0xB9] == 0xEE
  {
  }

  lemma AcceptanceWithGroup(t: Tables, second: byte, table: seq<byte>)
    requires Indexable(t) && CheckerAccepts(t) && |table| == 0x100 && EncodingsOk(table)
    ensures var u := t.(grp2 := t.grp2[second := table]); Indexable(u) && CheckerAccepts(u)
  {
  }

  /** They pass the build, yet 0F B9 00 has length 2 while its first two bytes are "not enough". */
  lemma CheckerGap()
    ensures var t := GappedTables();
            && Indexable(t) && CheckerAccepts(t) && !LengthsAreLocal(t)
            && Verdict(t, [0x0F, 0xB9, 0x00]) == 2 && Verdict(t, [0x0F, 0xB9]) == INSUFFICIENT_BUFFER
  {
    hide Verdict, CheckerAccepts, LengthsAreLocal, GappedTables;
    GappedAccepted();
    BodyOfTwoIsNotLocal(GappedTables(), 0xB9, 0x00);
  }
}
