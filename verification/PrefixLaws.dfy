/** What prefixes can and cannot change. */
module PrefixLaws {
  import opened Common
  import opened Tables
  import opened Decoder
  import opened Locality
  import opened Verdicts
  import opened Grammar
  import opened Completeness

  lemma HasKindCons(t: Tables, b: byte, run: seq<byte>, kind: PrefixKind)
    requires Shaped(t)
    ensures HasKind(t, [b] + run, kind) <==> t.prefix[b] == kind || HasKind(t, run, kind)
  {
    var all := [b] + run;
    assert all[0] == b;
    if HasKind(t, run, kind) {
      var i :| 0 <= i < |run| && t.prefix[run[i]] == kind;
      assert all[i + 1] == run[i];
    }
  }

  lemma SummaryCons(t: Tables, b: byte, run: seq<byte>)
    requires Shaped(t)
    ensures var pf, qf := Summary(t, run), Summary(t, [b] + run);
            && qf.length == pf.length + 1
            && (qf.has66 <==> t.prefix[b] == OperandSize || pf.has66)
            && (qf.has67 <==> t.prefix[b] == AddressSize || pf.has67)
            && (run != [] || t.prefix[b] != Rex ==> qf.rexByte == pf.rexByte)
  {
    HasKindCons(t, b, run, OperandSize);
    HasKindCons(t, b, run, AddressSize);
  }

  lemma RunOfConcat(t: Tables, run: seq<byte>, rest: seq<byte>)
    requires Shaped(t) && AllPrefixes(t, run)
    requires rest != [] ==> !IsPrefixByte(t, rest[0])
    ensures RunLength(t, run + rest) == |run| && (run + rest)[..|run|] == run && (run + rest)[|run|..] == rest
  {
    var w := run + rest;
    assert w[..|run|] == run;
    RunLengthIs(t, w, |run|);
  }

  /** The verdict sees of its prefixes only their number, 66, 67 and the REX.W in force. */
  lemma PrefixNonInterference(t: Tables, p: seq<byte>, q: seq<byte>, rest: seq<byte>)
    requires Indexable(t) && AllPrefixes(t, p) && AllPrefixes(t, q)
    requires rest != [] ==> !IsPrefixByte(t, rest[0])
    requires |p| == |q| && SameWidths(Summary(t, p), Summary(t, q))
    ensures Verdict(t, p + rest) == Verdict(t, q + rest)
  {
    hide Decode, Summary, AllPrefixes;
    RunOfConcat(t, p, rest);
    RunOfConcat(t, q, rest);
    SummaryLength(t, p);
    SummaryLength(t, q);
    if rest != [] {
      DecodeAgree(t, p + rest, |p|, Summary(t, p), q + rest, |q|, Summary(t, q));
      DecodeAgree(t, q + rest, |q|, Summary(t, q), p + rest, |p|, Summary(t, p));
    }
  }

  lemma HasKindFromMultiset(t: Tables, p: seq<byte>, q: seq<byte>, kind: PrefixKind)
    requires Shaped(t) && multiset(p) == multiset(q)
    ensures HasKind(t, p, kind) ==> HasKind(t, q, kind)
  {
    if HasKind(t, p, kind) {
      var i :| 0 <= i < |p| && t.prefix[p[i]] == kind;
      assert p[i] in multiset(q);
      assert p[i] in q;
    }
  }

  /** Without REX prefixes, the order of the prefixes is irrelevant. */
  lemma PrefixOrderIrrelevant(t: Tables, p: seq<byte>, q: seq<byte>, rest: seq<byte>)
    requires Indexable(t) && AllPrefixes(t, p) && multiset(p) == multiset(q)
    requires rest != [] ==> !IsPrefixByte(t, rest[0])
    requires !HasKind(t, p, Rex)
    ensures Verdict(t, p + rest) == Verdict(t, q + rest)
  {
    assert |p| == |multiset(p)| == |multiset(q)| == |q|;
    HasKindFromMultiset(t, p, q, OperandSize);
    HasKindFromMultiset(t, q, p, OperandSize);
    HasKindFromMultiset(t, p, q, AddressSize);
    HasKindFromMultiset(t, q, p, AddressSize);
    HasKindFromMultiset(t, q, p, Rex);
    forall i | 0 <= i < |q| ensures IsPrefixByte(t, q[i]) {
      assert q[i] in multiset(p);
      assert q[i] in p;
    }
    assert SameWidths(Summary(t, p), Summary(t, q));
    PrefixNonInterference(t, p, q, rest);
  }

  // ---- Padding: one more prefix in front -----------------------------------------

  /** One byte more, within the cap; errors stay. */
  function Longer(v: nat): nat {
    if IsError(v) then v
    else if v < MAX_INSN_LEN then v + 1
    else UNDEFINED_INSTRUCTION
  }

  /** Prefix `b` in front of `w` leaves the widths in force as they are. */
  predicate Inert(t: Tables, b: byte, w: seq<byte>)
    requires Shaped(t)
  {
    var run := w[..RunLength(t, w)];
    IsPrefixByte(t, b) && SameWidths(Summary(t, run), Summary(t, [b] + run))
  }

  /** An opcode follows the prefixes and its body is known, whether or not all of it is there. */
  predicate HasBody(t: Tables, w: seq<byte>)
    requires Indexable(t)
  {
    PrefixVerdict(t, w) == 0 && !IsError(Body(t, w))
  }

  /** The decoded body of a window whose prefixes are followed by an opcode. */
  function Body(t: Tables, w: seq<byte>): nat
    requires Indexable(t) && PrefixVerdict(t, w) == 0
  {
    var r := RunLength(t, w);
    Decode(t, w, r, Summary(t, w[..r]))
  }

  /** The verdict behind one prefix more when that prefix takes `less` bytes off the body. */
  function BehindPrefix(t: Tables, w: seq<byte>, less: nat): nat
    requires Indexable(t)
  {
    var r := RunLength(t, w);
    if r + 1 >= MAX_INSN_LEN then UNDEFINED_INSTRUCTION
    else if PrefixVerdict(t, w) != 0 then PrefixVerdict(t, w)
    else if IsError(Body(t, w)) then Body(t, w)
    else Finish(r + 1, if Body(t, w) >= less then Body(t, w) - less else 0, |w| + 1)
  }

  lemma RunOfCons(t: Tables, b: byte, w: seq<byte>)
    requires Shaped(t) && IsPrefixByte(t, b)
    ensures RunLength(t, [b] + w) == 1 + RunLength(t, w)
    ensures ([b] + w)[..1 + RunLength(t, w)] == [b] + w[..RunLength(t, w)]
  {
    assert ([b] + w)[1..] == w;
  }

  lemma PrefixVerdictOfCons(t: Tables, b: byte, w: seq<byte>)
    requires Shaped(t) && IsPrefixByte(t, b)
    ensures PrefixVerdict(t, [b] + w) ==
            if RunLength(t, w) + 1 >= MAX_INSN_LEN then UNDEFINED_INSTRUCTION else PrefixVerdict(t, w)
  {
    hide RunLength, AllPrefixes;
    RunOfCons(t, b, w);
    assert RunLength(t, w) < |w| ==> ([b] + w)[1 + RunLength(t, w)] == w[RunLength(t, w)];
  }

  /** One prefix more, given what it does to the body. */
  lemma BehindPrefixIs(t: Tables, b: byte, w: seq<byte>, less: nat)
    requires WellFormed(t) && IsPrefixByte(t, b)
    requires PrefixVerdict(t, w) == 0 ==>
               var r, v := RunLength(t, w), [b] + w;
               Decode(t, v, r + 1, Summary(t, [b] + w[..r])) ==
               if IsError(Body(t, w)) || Body(t, w) < less then Body(t, w) else Body(t, w) - less
    requires HasBody(t, w) ==> less <= Body(t, w)
    ensures Verdict(t, [b] + w) == BehindPrefix(t, w, less)
  {
    hide Decode, Summary, RunLength, AllPrefixes, PrefixVerdict, FixedBodiesFit, EntriesDecide, CellsHandled;
    RunOfCons(t, b, w);
    PrefixVerdictOfCons(t, b, w);
    SummaryLength(t, [b] + w[..RunLength(t, w)]);
    PrefixVerdictMeans(t, w);
  }

  lemma PrefixVerdictMeans(t: Tables, w: seq<byte>)
    requires Shaped(t)
    ensures PrefixVerdict(t, w) == 0 ==> RunLength(t, w) < |w| && RunLength(t, w) < MAX_INSN_LEN && StartsOpcode(t, w[RunLength(t, w)])
    ensures PrefixVerdict(t, w) in {0, INSUFFICIENT_BUFFER, UNDEFINED_INSTRUCTION, UNKNOWN_ERROR}
    ensures PrefixVerdict(t, w) == INSUFFICIENT_BUFFER ==> RunLength(t, w) < MAX_INSN_LEN
  {
  }

  lemma SameWidthsSymmetric(pf: PrefixInfo, qf: PrefixInfo)
    requires SameWidths(pf, qf)
    ensures SameWidths(qf, pf)
  {
  }

  /** An inert prefix leaves the body as it is. */
  lemma InertVerdict(t: Tables, b: byte, w: seq<byte>)
    requires WellFormed(t) && Inert(t, b, w)
    ensures Verdict(t, [b] + w) == BehindPrefix(t, w, 0)
  {
    hide Decode, Summary, SameWidths, PrefixVerdict, FixedBodiesFit, EntriesDecide, CellsHandled;
    var r := RunLength(t, w);
    var v := [b] + w;
    var pf, qf := Summary(t, w[..r]), Summary(t, [b] + w[..r]);
    if PrefixVerdict(t, w) == 0 {
      PrefixVerdictMeans(t, w);
      assert v[r + 1..] == w[r..];
      DecodeAgree(t, w, r, pf, v, r + 1, qf);
      SameWidthsSymmetric(pf, qf);
      DecodeAgree(t, v, r + 1, qf, w, r, pf);
    }
    BehindPrefixIs(t, b, w, 0);
  }

  /**
   * An inert prefix adds one byte to a length and keeps 0xE1; 0xE0 becomes 0xE1 exactly where the
   * prefixes alone reach the cap or the known body crosses it.
   */
  lemma InertPadding(t: Tables, b: byte, w: seq<byte>)
    requires WellFormed(t) && Inert(t, b, w)
    ensures Verdict(t, [b] + w) ==
            if Verdict(t, w) != INSUFFICIENT_BUFFER then Longer(Verdict(t, w))
            else if RunLength(t, w) + 1 >= MAX_INSN_LEN || (HasBody(t, w) && RunLength(t, w) + 1 + Body(t, w) > MAX_INSN_LEN)
            then UNDEFINED_INSTRUCTION
            else INSUFFICIENT_BUFFER
  {
    hide Decode, Summary, RunLength, PrefixVerdict, FixedBodiesFit, EntriesDecide, CellsHandled;
    InertVerdict(t, b, w);
    VerdictRange(t, w);
    VerdictByBody(t, w);
  }

  /** A verdict in terms of the prefix loop's exit and the body. */
  lemma VerdictByBody(t: Tables, w: seq<byte>)
    requires WellFormed(t)
    ensures var r := RunLength(t, w);
            && Verdict(t, w) == (if PrefixVerdict(t, w) != 0 then PrefixVerdict(t, w) else Finish(r, Body(t, w), |w|))
            && (PrefixVerdict(t, w) == 0 ==>
                 1 <= Body(t, w) && (IsError(Body(t, w)) ==> Body(t, w) in {INSUFFICIENT_BUFFER, UNDEFINED_INSTRUCTION}))
            && (PrefixVerdict(t, w) != 0 ==> IsError(PrefixVerdict(t, w)))
            && (r >= MAX_INSN_LEN ==> PrefixVerdict(t, w) == UNDEFINED_INSTRUCTION)
            && (PrefixVerdict(t, w) == 0 ==> r < |w|)
  {
    hide Decode, Summary;
    var r := RunLength(t, w);
    SummaryLength(t, w[..r]);
    if PrefixVerdict(t, w) == 0 {
      DecodeBounds(t, w, r, Summary(t, w[..r]));
    }
  }

  /** Which prefixes are inert: segment, LOCK and REP always, REX without W or before another prefix, repeated 66 and 67. */
  lemma InertPrefixes(t: Tables, b: byte, w: seq<byte>)
    requires Shaped(t) && IsPrefixByte(t, b)
    ensures var kind, run := t.prefix[b], w[..RunLength(t, w)];
            && (kind.Seg? || kind.Lock? || kind.Rep? ==> Inert(t, b, w))
            && (kind.Rex? && (run != [] || b / 8 % 2 == 0) ==> Inert(t, b, w))
            && (kind.OperandSize? && HasKind(t, run, OperandSize) ==> Inert(t, b, w))
            && (kind.AddressSize? && HasKind(t, run, AddressSize) ==> Inert(t, b, w))
  {
    SummaryCons(t, b, w[..RunLength(t, w)]);
  }

  // ---- A first 0x66 ----------------------------------------------------------------

  /** Trailing fields that 0x66 shrinks from four bytes to two, or a far pointer's six to four. */
  predicate Shrinks(t: Tables, kind: byte, pf: PrefixInfo) {
    kind == TAIL_IZ || kind == TAIL_RELZ || kind == TAIL_FAR || (kind == TAIL_IQ && t.longMode && !pf.RexW())
  }

  /** The same of an opcode class and the bytes `after` the opcode. */
  predicate ClassShrinks(t: Tables, c: OpcodeClass, after: seq<byte>, pf: PrefixInfo)
    requires c.Grouped? ==> |c.table| == 0x100
  {
    match c
    case Plain(kind, _) => Shrinks(t, kind, pf)
    case WithModrm(kind, _) => Shrinks(t, kind, pf)
    case Grouped(table) => after != [] && 0x80 <= table[after[0]] < 0xA0 && Shrinks(t, table[after[0]] - 0x80, pf)
    case _ => false
  }

  /** The window's instruction ends in a field that 0x66 shrinks. */
  predicate ShrinksAt(t: Tables, w: seq<byte>)
    requires Indexable(t)
  {
    var r := RunLength(t, w);
    var rest := w[r..];
    var n := OpcodeSize(t, rest);
    ClassShrinks(t, Classify(t, rest[..n]), rest[n..], Summary(t, w[..r]))
  }

  lemma TailUnder66(t: Tables, kind: byte, default: nat, pf: PrefixInfo, qf: PrefixInfo)
    requires !pf.has66 && qf.has66 && pf.has67 == qf.has67 && pf.RexW() == qf.RexW()
    ensures TailWidth(t.longMode, kind, default, pf) ==
            TailWidth(t.longMode, kind, default, qf) + (if Shrinks(t, kind, pf) then 2 else 0)
  {
  }

  lemma SummaryFlag66(t: Tables, run: seq<byte>)
    requires Shaped(t)
    ensures Summary(t, run).has66 == HasKind(t, run, OperandSize)
  {
  }

  /** Two prefix states that differ in 66 only. */
  predicate Gains66(pf: PrefixInfo, qf: PrefixInfo) {
    !pf.has66 && qf.has66 && pf.has67 == qf.has67 && pf.RexW() == qf.RexW()
  }

  lemma ModrmUnder66(longMode: bool, w: seq<byte>, first: nat, n: nat, pf: PrefixInfo, qf: PrefixInfo)
    requires first < |w| && Gains66(pf, qf)
    ensures ModrmLen(longMode, w, first, n, pf) == ModrmLen(longMode, w, first, n, qf)
  {
  }

  lemma ClassUnder66(t: Tables, w: seq<byte>, first: nat, n: nat, pf: PrefixInfo, qf: PrefixInfo, c: OpcodeClass)
    requires 1 <= n <= 3 && first + n <= |w| && Lengthy(c) && Gains66(pf, qf)
    requires (c.Grouped? ==> |c.table| == 0x100) && (!c.Grouped? ==> c.default <= 9)
    ensures var less := if ClassShrinks(t, c, w[first..][n..], pf) then 2 else 0;
            var body := ClassLen(t.longMode, w, first, n, pf, c);
            && ClassLen(t.longMode, w, first, n, qf, c) == (if IsError(body) || body < less then body else body - less)
            && (!IsError(body) && less == 2 ==> body >= 5)
  {
    hide ModrmLen;
    ModrmUnder66(t.longMode, w, first, n, pf, qf);
    ModrmBounds(t.longMode, w, first, n, pf);
    if c.Grouped? {
      if first + n < |w| {
        var e := c.table[w[first + n]];
        if 0x80 <= e < 0xA0 {
          TailUnder66(t, e - 0x80, 0, pf, qf);
        }
      }
    } else {
      TailUnder66(t, c.kind, c.default, pf, qf);
    }
  }

  /** Without a class the prefixes do not matter. */
  lemma NoClassNoBody(t: Tables, w: seq<byte>, first: nat, pf: PrefixInfo, qf: PrefixInfo)
    requires Indexable(t) && first < |w|
    requires !Lengthy(Classify(t, w[first..][..OpcodeSize(t, w[first..])]))
    ensures Decode(t, w, first, pf) == Decode(t, w, first, qf) && IsError(Decode(t, w, first, pf))
  {
  }

  lemma DecodeUnder66(t: Tables, w: seq<byte>, first: nat, pf: PrefixInfo, qf: PrefixInfo)
    requires Indexable(t) && first < |w| && Gains66(pf, qf)
    ensures var n := OpcodeSize(t, w[first..]);
            var less := if ClassShrinks(t, Classify(t, w[first..][..n]), w[first..][n..], pf) then 2 else 0;
            var body := Decode(t, w, first, pf);
            && Decode(t, w, first, qf) == (if IsError(body) || body < less then body else body - less)
            && (!IsError(body) && less == 2 ==> body >= 5)
  {
    hide Decode, Classify, OpcodeSize, ClassLen, ClassShrinks, Gains66;
    var rest := w[first..];
    var n := OpcodeSize(t, rest);
    var opcode := rest[..n];
    if Lengthy(Classify(t, opcode)) {
      OpcodeSizeRange(t, rest);
      OpcodeSizeOfSome(t, rest);
      assert w[first..first + n] == opcode;
      ClassDefaults(t, opcode);
      DecodeByClass(t, w, first, n, pf);
      DecodeByClass(t, w, first, n, qf);
      ClassUnder66(t, w, first, n, pf, qf, Classify(t, opcode));
    } else {
      NoClassNoBody(t, w, first, pf, qf);
      NothingShrinks(t, Classify(t, opcode), rest[n..], pf);
    }
  }

  lemma NothingShrinks(t: Tables, c: OpcodeClass, after: seq<byte>, pf: PrefixInfo)
    requires !Lengthy(c)
    ensures !ClassShrinks(t, c, after, pf)
  {
  }

  /** A first 0x66 takes two bytes off the body exactly where the trailing field shrinks. */
  lemma FirstOperandSizeVerdict(t: Tables, b: byte, w: seq<byte>)
    requires WellFormed(t) && t.prefix[b] == OperandSize && !HasKind(t, w[..RunLength(t, w)], OperandSize)
    ensures Verdict(t, [b] + w) == BehindPrefix(t, w, if ShrinksAt(t, w) then 2 else 0)
    ensures HasBody(t, w) && ShrinksAt(t, w) ==> Body(t, w) >= 5
  {
    hide Decode, Summary, HasKind, RunLength, PrefixVerdict, ClassShrinks, Classify, OpcodeSize, FixedBodiesFit, EntriesDecide, CellsHandled;
    var r := RunLength(t, w);
    var v := [b] + w;
    var pf, qf := Summary(t, w[..r]), Summary(t, [b] + w[..r]);
    SummaryCons(t, b, w[..r]);
    SummaryFlag66(t, w[..r]);
    if PrefixVerdict(t, w) == 0 {
      PrefixVerdictMeans(t, w);
      assert v[r + 1..] == w[r..];
      DecodeAgree(t, w, r, qf, v, r + 1, qf);
      DecodeAgree(t, v, r + 1, qf, w, r, qf);
      DecodeUnder66(t, w, r, pf, qf);
    }
    BehindPrefixIs(t, b, w, if ShrinksAt(t, w) then 2 else 0);
  }

  /** In front of an instruction it adds its own byte and takes two away exactly where the trailing field shrinks. */
  lemma FirstOperandSizePadding(t: Tables, b: byte, w: seq<byte>)
    requires WellFormed(t) && !IsError(Verdict(t, w))
    requires t.prefix[b] == OperandSize && !HasKind(t, w[..RunLength(t, w)], OperandSize)
    ensures Verdict(t, [b] + w) == if ShrinksAt(t, w) then Verdict(t, w) - 1 else Longer(Verdict(t, w))
  {
    hide HasKind, RunLength, PrefixVerdict, ShrinksAt, Body, FixedBodiesFit, EntriesDecide, CellsHandled;
    FirstOperandSizeVerdict(t, b, w);
    VerdictRange(t, w);
    VerdictByBody(t, w);
  }

  /** 0xE1 gives way to a first 0x66 exactly where a known body misses the cap by one byte and shrinks. */
  lemma OperandSizeOnUndefined(t: Tables, b: byte, w: seq<byte>)
    requires WellFormed(t) && Verdict(t, w) == UNDEFINED_INSTRUCTION
    requires t.prefix[b] == OperandSize && !HasKind(t, w[..RunLength(t, w)], OperandSize)
    ensures Verdict(t, [b] + w) ==
            if HasBody(t, w) && RunLength(t, w) + Body(t, w) == MAX_INSN_LEN + 1 && ShrinksAt(t, w)
            then (if |w| >= MAX_INSN_LEN - 1 then MAX_INSN_LEN else INSUFFICIENT_BUFFER)
            else UNDEFINED_INSTRUCTION
  {
    hide HasKind, RunLength, PrefixVerdict, ShrinksAt, Body, FixedBodiesFit, EntriesDecide, CellsHandled;
    FirstOperandSizeVerdict(t, b, w);
    VerdictByBody(t, w);
  }

  /**
   * 0xE0 behind a first 0x66: a shrinking body may now be complete, any other known body may now cross
   * the cap, and a body not yet known stays 0xE0 until the prefixes alone reach the cap.
   */
  lemma OperandSizeOnInsufficient(t: Tables, b: byte, w: seq<byte>)
    requires WellFormed(t) && Verdict(t, w) == INSUFFICIENT_BUFFER
    requires t.prefix[b] == OperandSize && !HasKind(t, w[..RunLength(t, w)], OperandSize)
    ensures var r := RunLength(t, w);
            Verdict(t, [b] + w) ==
            if HasBody(t, w) then
              if ShrinksAt(t, w) then (if r + Body(t, w) <= |w| + 2 then r + Body(t, w) - 1 else INSUFFICIENT_BUFFER)
              else (if r + Body(t, w) >= MAX_INSN_LEN then UNDEFINED_INSTRUCTION else INSUFFICIENT_BUFFER)
            else if r + 1 >= MAX_INSN_LEN then UNDEFINED_INSTRUCTION
            else INSUFFICIENT_BUFFER
  {
    hide HasKind, RunLength, PrefixVerdict, ShrinksAt, Body, FixedBodiesFit, EntriesDecide, CellsHandled;
    FirstOperandSizeVerdict(t, b, w);
    VerdictByBody(t, w);
  }
}
