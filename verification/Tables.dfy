/** The dispatch tables a decoder is instantiated with, and what they must satisfy. */
module Tables {
  import opened Common

  datatype PrefixKind = NotPrefix | OperandSize | AddressSize | Lock | Rep | Seg | Rex | Escape2 | Vex2 | Vex3 | Evex

  /** One mode's tables: maps from opcode byte to cell, and group tables from ModRM byte to entry. */
  datatype Tables = Tables(
    longMode: bool,
    prefix: seq<PrefixKind>,
    oneByte: seq<byte>,
    tail: seq<byte>,
    twoByte: seq<byte>,
    tail2: seq<byte>,
    map38: seq<byte>,
    map3A: seq<byte>,
    grp1: map<byte, seq<byte>>,
    grp2: map<byte, seq<byte>>,
    x87: seq<seq<byte>>)

  /** Every array has the size the decoder indexes it with. */
  predicate Shaped(t: Tables) {
    && |t.prefix| == |t.oneByte| == |t.tail| == |t.twoByte| == |t.tail2| == 0x100
    && (t.longMode ==> |t.map38| == |t.map3A| == 0x100)
    && (forall opc :: opc in t.grp1 ==> |t.grp1[opc]| == 0x100)
    && (forall opc :: opc in t.grp2 ==> |t.grp2[opc]| == 0x100)
    && |t.x87| == 8
    && (forall i :: 0 <= i < 8 ==> |t.x87[i]| == 0x100)
  }

  /** The x87 sentinel only sits where `opcode - 0xD8` is a row. */
  predicate Indexable(t: Tables) {
    && Shaped(t)
    && forall opc: byte :: t.oneByte[opc] == 0xEF ==> 0xD8 <= opc <= 0xDF
  }

  /** The prefix kinds each mode's enumeration offers. */
  predicate PrefixKindsOk(t: Tables)
    requires |t.prefix| == 0x100
  {
    t.longMode || forall b: byte :: var k := t.prefix[b]; !k.Rex? && !k.Vex2? && !k.Vex3? && !k.Evex?
  }

  /** A byte at which the prefix loop stops and hands over to opcode dispatch. */
  predicate StartsOpcode(t: Tables, b: byte)
    requires |t.prefix| == 0x100
  {
    var k := t.prefix[b];
    k.NotPrefix? || k.Escape2?
  }

  /** A byte the prefix loop consumes. */
  predicate IsPrefixByte(t: Tables, b: byte)
    requires |t.prefix| == 0x100
  {
    var k := t.prefix[b];
    k.OperandSize? || k.AddressSize? || k.Lock? || k.Rep? || k.Seg? || (k.Rex? && t.longMode)
  }

  /** A byte the prefix loop rejects as a VEX or EVEX encoding. */
  predicate IsVexByte(t: Tables, b: byte)
    requires |t.prefix| == 0x100
  {
    var k := t.prefix[b];
    (k.Vex2? || k.Vex3? || k.Evex?) && t.longMode
  }

  // ---- Group tables and their entries --------------------------------------

  datatype Option<T> = None | Some(value: T)

  /** The group table of a one-byte opcode; None stands for the null pointer. */
  function PickGroup1(t: Tables, opc: byte): Option<seq<byte>> {
    if opc in t.grp1 then Some(t.grp1[opc]) else None
  }

  /** The group table of a 0F-prefixed opcode. */
  function PickGroup2(t: Tables, second: byte): Option<seq<byte>> {
    if second in t.grp2 then Some(t.grp2[second]) else None
  }

  /** The table that dispatch reads the ModRM byte of a one-byte opcode through, if any. */
  function GroupAt1(t: Tables, opc: byte): (table: Option<seq<byte>>)
    requires Indexable(t)
    ensures table.Some? ==> |table.value| == 0x100
  {
    if t.oneByte[opc] == 0xEE then PickGroup1(t, opc)
    else if t.oneByte[opc] == 0xEF then Some(t.x87[opc - 0xD8])
    else None
  }

  /** The same for the two-byte map. */
  function GroupAt2(t: Tables, second: byte): (table: Option<seq<byte>>)
    requires Indexable(t)
    ensures table.Some? ==> |table.value| == 0x100
  {
    if t.twoByte[second] == 0xEE then PickGroup2(t, second) else None
  }

  /** Entries 0xA0 | n: the body is n bytes whatever the ModRM byte says. */
  predicate IsFixedEntry(e: byte) {
    0xA0 <= e < 0xB0
  }

  /** A fixed body covers at least the opcode bytes and the ModRM byte that selected it. */
  predicate FixedBodyFits(opcSize: nat, e: byte) {
    IsFixedEntry(e) ==> e - 0xA0 >= opcSize + 1
  }

  /** Entries that give a length or the one error a group may report. */
  predicate EntryDecides(e: byte) {
    e < 0xB0 || e == UNDEFINED_INSTRUCTION
  }

  /** No reachable fixed body is shorter than the bytes that were read to select it. */
  ghost predicate FixedBodiesFit(t: Tables)
    requires Indexable(t)
  {
    && (forall opc: byte, m: byte :: StartsOpcode(t, opc) && GroupAt1(t, opc).Some? ==>
          FixedBodyFits(1, GroupAt1(t, opc).value[m]))
    && (forall second: byte, m: byte :: GroupAt2(t, second).Some? ==>
          FixedBodyFits(2, GroupAt2(t, second).value[m]))
  }

  /** Every reachable group entry decides. */
  ghost predicate EntriesDecide(t: Tables)
    requires Indexable(t)
  {
    && (forall opc: byte, m: byte :: StartsOpcode(t, opc) && GroupAt1(t, opc).Some? ==>
          EntryDecides(GroupAt1(t, opc).value[m]))
    && (forall second: byte, m: byte :: GroupAt2(t, second).Some? ==>
          EntryDecides(GroupAt2(t, second).value[m]))
  }

  // ---- Cells of the opcode maps --------------------------------------------

  /** A one-byte cell the dispatch handles without an internal error. */
  predicate OneByteCellOk(t: Tables, opc: byte)
    requires Indexable(t)
  {
    var cell := t.oneByte[opc];
    || cell <= 0x09
    || cell in {0xA1, 0xA4, 0xE2, 0xEF}
    || (cell in {0xB8, 0xFF} && t.longMode)
    || (cell == 0xEE && opc in t.grp1)
  }

  predicate TwoByteCellOk(t: Tables, second: byte)
    requires Indexable(t)
  {
    var cell := t.twoByte[second];
    || cell in {0x00, 0x02, 0x03, 0x06, 0xA1, 0xFF}
    || (cell in {0x07, 0xE8, 0xEA} && t.longMode)
    || (cell == 0xEE && second in t.grp2)
  }

  predicate ThreeByteCellOk(cell: byte) {
    cell in {0x00, 0xA1, 0xFF}
  }

  ghost predicate CellsHandled(t: Tables)
    requires Indexable(t)
  {
    && (forall opc: byte :: StartsOpcode(t, opc) ==> OneByteCellOk(t, opc))
    && (forall second: byte :: TwoByteCellOk(t, second))
    && (t.longMode ==> forall third: byte :: ThreeByteCellOk(t.map38[third]) && ThreeByteCellOk(t.map3A[third]))
  }

  /** Tables on which the decoder is total, local and decisive. */
  ghost predicate WellFormed(t: Tables) {
    Indexable(t) && PrefixKindsOk(t) && FixedBodiesFit(t) && EntriesDecide(t) && CellsHandled(t)
  }
}
