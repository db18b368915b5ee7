/**
 * What a verdict depends on: appended bytes never change a decided verdict, and a length is
 * decided by exactly its own bytes.
 */
module Locality {
  import opened Common
  import opened Tables
  import opened Decoder

  // ---- Bounds of the decode core ------------------------------------------------

  /** Bytes from the opcode on that settle a body: the deepest escape, its ModRM and its SIB. */
  function OpcodeReach(t: Tables): nat {
    if t.longMode then 5 else 4
  }

  lemma ModrmBounds(longMode: bool, w: seq<byte>, first: nat, opcSize: nat, pf: PrefixInfo)
    requires first < |w|
    ensures var v := ModrmLen(longMode, w, first, opcSize, pf);
            v == UNDEFINED_INSTRUCTION || opcSize + 1 <= v <= opcSize + 6
            || (v == INSUFFICIENT_BUFFER && |w| < first + opcSize + 2)
  {
  }

  /** No entry of a group table is a fixed body shorter than what selects it. */
  ghost predicate TableFits(opcSize: nat, table: seq<byte>)
    requires |table| == 0x100
  {
    forall m: byte :: FixedBodyFits(opcSize, table[m])
  }

  ghost predicate TableDecides(table: seq<byte>)
    requires |table| == 0x100
  {
    forall m: byte :: EntryDecides(table[m])
  }

  lemma FitsAt(t: Tables, b: byte)
    requires Indexable(t) && FixedBodiesFit(t)
    ensures StartsOpcode(t, b) && GroupAt1(t, b).Some? ==> TableFits(1, GroupAt1(t, b).value)
    ensures GroupAt2(t, b).Some? ==> TableFits(2, GroupAt2(t, b).value)
  {
  }

  lemma GroupBounds(longMode: bool, w: seq<byte>, first: nat, opcSize: nat, pf: PrefixInfo, table: seq<byte>)
    requires first < |w| && |table| == 0x100 && opcSize <= 3
    ensures var v := GroupLen(longMode, w, first, opcSize, pf, table);
            && (TableFits(opcSize, table) ==> v >= opcSize + 1)
            && (TableDecides(table) ==>
                 (v < ERR_BASE || v == UNDEFINED_INSTRUCTION || (v == INSUFFICIENT_BUFFER && |w| < first + opcSize + 2)))
  {
    ModrmBounds(longMode, w, first, opcSize, pf);
    if first + opcSize < |w| {
      assert FixedBodyFits(opcSize, table[w[first + opcSize]]) || !TableFits(opcSize, table);
      assert EntryDecides(table[w[first + opcSize]]) || !TableDecides(table);
    }
  }

  lemma ThreeByteBounds(longMode: bool, w: seq<byte>, first: nat, pf: PrefixInfo, table: seq<byte>)
    requires first < |w| && |table| == 0x100
    ensures var v := ThreeByteLen(longMode, w, first, pf, table);
            && v >= 4
            && ((forall third: byte :: ThreeByteCellOk(table[third])) ==>
                 v < ERR_BASE || v == UNDEFINED_INSTRUCTION || (v == INSUFFICIENT_BUFFER && |w| < first + 5))
  {
  }

  lemma TwoByteBounds(t: Tables, w: seq<byte>, first: nat, pf: PrefixInfo)
    requires Indexable(t) && first < |w|
    ensures FixedBodiesFit(t) ==> TwoByteLen(t, w, first, pf) >= 2
    ensures EntriesDecide(t) && CellsHandled(t) ==>
              var v := TwoByteLen(t, w, first, pf);
              v < ERR_BASE || v == UNDEFINED_INSTRUCTION ||
              (v == INSUFFICIENT_BUFFER && |w| < first + OpcodeReach(t))
  {
    hide ModrmLen, GroupLen, ThreeByteLen;
    ModrmBounds(t.longMode, w, first, 2, pf);
    if t.longMode {
      ThreeByteBounds(true, w, first, pf, t.map38);
      ThreeByteBounds(true, w, first, pf, t.map3A);
    }
    if first + 1 < |w| {
      assert TwoByteCellOk(t, w[first + 1]) || !CellsHandled(t);
      var table := GroupAt2(t, w[first + 1]);
      if table.Some? {
        GroupBounds(t.longMode, w, first, 2, pf, table.value);
        assert FixedBodiesFit(t) ==> TableFits(2, table.value);
        assert EntriesDecide(t) ==> TableDecides(table.value);
      }
    }
  }

  /** A body is never empty; well-formed tables avoid the internal error and decide within OpcodeReach. */
  lemma DecodeBounds(t: Tables, w: seq<byte>, first: nat, pf: PrefixInfo)
    requires Indexable(t) && first < |w| && StartsOpcode(t, w[first])
    ensures FixedBodiesFit(t) ==> Decode(t, w, first, pf) >= 1
    ensures EntriesDecide(t) && CellsHandled(t) ==>
              var v := Decode(t, w, first, pf);
              v < ERR_BASE || v == UNDEFINED_INSTRUCTION ||
              (v == INSUFFICIENT_BUFFER && |w| < first + OpcodeReach(t))
  {
    hide ModrmLen, GroupLen, TwoByteLen;
    ModrmBounds(t.longMode, w, first, 1, pf);
    TwoByteBounds(t, w, first, pf);
    assert OneByteCellOk(t, w[first]) || !CellsHandled(t);
    var table := GroupAt1(t, w[first]);
    if table.Some? {
      GroupBounds(t.longMode, w, first, 1, pf, table.value);
      assert FixedBodiesFit(t) ==> TableFits(1, table.value);
      assert EntriesDecide(t) ==> TableDecides(table.value);
    }
  }

  // ---- The decode core under two windows that agree from the opcode on ---------

  /** The prefix state the decode core can observe. */
  predicate SameWidths(pf: PrefixInfo, qf: PrefixInfo) {
    pf.has66 == qf.has66 && pf.has67 == qf.has67 && pf.RexW() == qf.RexW()
  }

  /** From the opcode on, window `a` is a prefix of window `b`. */
  predicate Agree(a: seq<byte>, i: nat, b: seq<byte>, j: nat) {
    i < |a| && j < |b| && a[i..] <= b[j..]
  }

  lemma AgreeBytes(a: seq<byte>, i: nat, b: seq<byte>, j: nat)
    requires Agree(a, i, b, j)
    ensures |a| - i <= |b| - j
    ensures forall k :: i <= k < |a| ==> a[k] == b[k - i + j]
  {
  }

  /** A result other than "not enough bytes" survives more bytes. */
  predicate Persists(va: nat, vb: nat) {
    va != INSUFFICIENT_BUFFER ==> vb == va
  }

  /** A length no greater than the `size` available bytes was already known from them. */
  predicate Known(va: nat, vb: nat, size: nat) {
    !IsError(vb) && vb <= size ==> va == vb
  }

  lemma ModrmAgree(longMode: bool, opcSize: nat, a: seq<byte>, i: nat, pf: PrefixInfo, b: seq<byte>, j: nat, qf: PrefixInfo)
    requires Agree(a, i, b, j) && SameWidths(pf, qf) && opcSize >= 1
    ensures Persists(ModrmLen(longMode, a, i, opcSize, pf), ModrmLen(longMode, b, j, opcSize, qf))
    ensures Known(ModrmLen(longMode, a, i, opcSize, pf), ModrmLen(longMode, b, j, opcSize, qf), |a| - i)
  {
  }

  lemma GroupAgree(longMode: bool, opcSize: nat, table: seq<byte>, a: seq<byte>, i: nat, pf: PrefixInfo, b: seq<byte>, j: nat, qf: PrefixInfo)
    requires Agree(a, i, b, j) && SameWidths(pf, qf) && 1 <= opcSize && |table| == 0x100
    ensures Persists(GroupLen(longMode, a, i, opcSize, pf, table), GroupLen(longMode, b, j, opcSize, qf, table))
    ensures TableFits(opcSize, table) ==>
              Known(GroupLen(longMode, a, i, opcSize, pf, table), GroupLen(longMode, b, j, opcSize, qf, table), |a| - i)
  {
    AgreeBytes(a, i, b, j);
    ModrmAgree(longMode, opcSize, a, i, pf, b, j, qf);
    ModrmBounds(longMode, b, j, opcSize, qf);
  }

  lemma ThreeByteAgree(longMode: bool, table: seq<byte>, a: seq<byte>, i: nat, pf: PrefixInfo, b: seq<byte>, j: nat, qf: PrefixInfo)
    requires Agree(a, i, b, j) && SameWidths(pf, qf) && |table| == 0x100
    ensures Persists(ThreeByteLen(longMode, a, i, pf, table), ThreeByteLen(longMode, b, j, qf, table))
    ensures Known(ThreeByteLen(longMode, a, i, pf, table), ThreeByteLen(longMode, b, j, qf, table), |a| - i)
  {
    AgreeBytes(a, i, b, j);
    ModrmAgree(longMode, 3, a, i, pf, b, j, qf);
    ModrmBounds(longMode, b, j, 3, qf);
  }

  lemma TailAgree(longMode: bool, kind: byte, default: nat, pf: PrefixInfo, qf: PrefixInfo)
    requires SameWidths(pf, qf)
    ensures TailWidth(longMode, kind, default, pf) == TailWidth(longMode, kind, default, qf)
  {
  }

  lemma TwoByteAgree(t: Tables, a: seq<byte>, i: nat, pf: PrefixInfo, b: seq<byte>, j: nat, qf: PrefixInfo)
    requires Indexable(t) && Agree(a, i, b, j) && SameWidths(pf, qf)
    ensures Persists(TwoByteLen(t, a, i, pf), TwoByteLen(t, b, j, qf))
    ensures FixedBodiesFit(t) ==> Known(TwoByteLen(t, a, i, pf), TwoByteLen(t, b, j, qf), |a| - i)
  {
    hide ModrmLen, GroupLen, ThreeByteLen, TailWidth, SameWidths, TableFits, FixedBodiesFit;
    AgreeBytes(a, i, b, j);
    TwoByteBounds(t, b, j, qf);
    ModrmAgree(t.longMode, 2, a, i, pf, b, j, qf);
    if t.longMode {
      ThreeByteAgree(true, t.map38, a, i, pf, b, j, qf);
      ThreeByteAgree(true, t.map3A, a, i, pf, b, j, qf);
    }
    if j + 1 < |b| {
      var second := b[j + 1];
      if t.twoByte[second] >= 2 {
        TailAgree(t.longMode, t.tail2[second], t.twoByte[second] - 2, pf, qf);
      }
      var table := GroupAt2(t, second);
      if table.Some? {
        GroupAgree(t.longMode, 2, table.value, a, i, pf, b, j, qf);
        if FixedBodiesFit(t) {
          FitsAt(t, second);
        }
      }
    }
  }

  lemma DecodeAgree(t: Tables, a: seq<byte>, i: nat, pf: PrefixInfo, b: seq<byte>, j: nat, qf: PrefixInfo)
    requires Indexable(t) && Agree(a, i, b, j) && SameWidths(pf, qf)
    ensures Persists(Decode(t, a, i, pf), Decode(t, b, j, qf))
    ensures FixedBodiesFit(t) && StartsOpcode(t, b[j]) ==> Known(Decode(t, a, i, pf), Decode(t, b, j, qf), |a| - i)
  {
    hide ModrmLen, GroupLen, TwoByteLen;
    AgreeBytes(a, i, b, j);
    ModrmAgree(t.longMode, 1, a, i, pf, b, j, qf);
    TwoByteAgree(t, a, i, pf, b, j, qf);
    var table := GroupAt1(t, b[j]);
    if table.Some? {
      GroupAgree(t.longMode, 1, table.value, a, i, pf, b, j, qf);
      assert FixedBodiesFit(t) && StartsOpcode(t, b[j]) ==> TableFits(1, table.value);
    }
  }
}
