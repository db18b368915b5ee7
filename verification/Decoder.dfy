/** The two length decoders, as one decoder over the tables of a mode. */
module Decoder {
  import opened Common
  import opened Tables

  // ---- Decode core: pure, over a window `w` whose opcode sits at `first` ----

  /** Opcode + ModRM + SIB + displacement bytes, counted from `first`. */
  function ModrmLen(longMode: bool, w: seq<byte>, first: nat, opcSize: nat, pf: PrefixInfo): nat
    requires first < |w|
  {
    if |w| < first + opcSize + 1 then INSUFFICIENT_BUFFER
    else
      var modrm := w[first + opcSize];
      if w[first] == 0x8D && modrm >= 0xC0 then UNDEFINED_INSTRUCTION  // LEA of a register
      else
        var mapped := if pf.has67 && !longMode then ModrmTable16(modrm) else ModrmTable(modrm);
        if mapped != 0 then opcSize + mapped - 1
        else if |w| < first + opcSize + 2 then INSUFFICIENT_BUFFER
        else opcSize + 2 + (if w[first + opcSize + 1] % 8 == 5 then 4 else 0)
  }

  /** A body with its trailing field added; errors pass through. */
  function WithSize(body: nat, tail: nat): nat {
    if IsError(body) then body else body + tail
  }

  /** Dispatch through a group or x87 table indexed by the ModRM byte. */
  function GroupLen(longMode: bool, w: seq<byte>, first: nat, opcSize: nat, pf: PrefixInfo, table: seq<byte>): nat
    requires first < |w| && |table| == 0x100
  {
    if |w| < first + opcSize + 1 then INSUFFICIENT_BUFFER
    else
      var entry := table[w[first + opcSize]];
      if IsError(entry) then entry
      else if 0xA0 <= entry < 0xB0 then entry - 0xA0
      else if entry >= 0xA0 then UNKNOWN_ERROR
      else
        var body := ModrmLen(longMode, w, first, opcSize, pf);
        if IsError(body) then body
        else if entry >= 0x80 then body + TailWidth(longMode, entry - 0x80, 0, pf)
        else body + entry
  }

  function ThreeByteLen(longMode: bool, w: seq<byte>, first: nat, pf: PrefixInfo, table: seq<byte>): nat
    requires first < |w| && |table| == 0x100
  {
    if |w| < first + 3 then INSUFFICIENT_BUFFER
    else
      var cell := table[w[first + 2]];
      if cell == 0x00 then ModrmLen(longMode, w, first, 3, pf)
      else if cell == 0xA1 then WithSize(ModrmLen(longMode, w, first, 3, pf), 1)
      else if cell == 0xFF then UNDEFINED_INSTRUCTION
      else UNKNOWN_ERROR
  }

  function TwoByteLen(t: Tables, w: seq<byte>, first: nat, pf: PrefixInfo): nat
    requires Indexable(t) && first < |w|
  {
    if |w| < first + 2 then INSUFFICIENT_BUFFER
    else
      var second := w[first + 1];
      var mapped := t.twoByte[second];
      if mapped == 0x00 then ModrmLen(t.longMode, w, first, 2, pf)
      else if mapped in {0x02, 0x03, 0x06} || (mapped == 0x07 && t.longMode) then
        2 + TailWidth(t.longMode, t.tail2[second], mapped - 2, pf)
      else if mapped == 0xA1 then WithSize(ModrmLen(t.longMode, w, first, 2, pf), 1)
      else if mapped == 0xE8 && t.longMode then ThreeByteLen(true, w, first, pf, t.map38)
      else if mapped == 0xEA && t.longMode then ThreeByteLen(true, w, first, pf, t.map3A)
      else if mapped == 0xEE then
        match PickGroup2(t, second)
        case None => UNKNOWN_ERROR
        case Some(table) => GroupLen(t.longMode, w, first, 2, pf, table)
      else if mapped == 0xFF then UNDEFINED_INSTRUCTION
      else UNKNOWN_ERROR
  }

  /** Bytes of the instruction from its opcode on, or an error code. */
  function Decode(t: Tables, w: seq<byte>, first: nat, pf: PrefixInfo): nat
    requires Indexable(t) && first < |w|
  {
    var opc := w[first];
    var mapped := t.oneByte[opc];
    if mapped == 0x00 then ModrmLen(t.longMode, w, first, 1, pf)
    else if mapped <= 0x09 then 1 + TailWidth(t.longMode, t.tail[opc], mapped - 1, pf)
    else if mapped == 0xA1 then WithSize(ModrmLen(t.longMode, w, first, 1, pf), 1)
    else if mapped == 0xA4 then
      WithSize(ModrmLen(t.longMode, w, first, 1, pf), TailWidth(t.longMode, t.tail[opc], 4, pf))
    else if mapped == 0xB8 && t.longMode then 1 + TailWidth(t.longMode, t.tail[opc], 4, pf)
    else if mapped == 0xE2 then TwoByteLen(t, w, first, pf)
    else if mapped == 0xEE then
      match PickGroup1(t, opc)
      case None => UNKNOWN_ERROR
      case Some(table) => GroupLen(t.longMode, w, first, 1, pf, table)
    else if mapped == 0xEF then GroupLen(t.longMode, w, first, 1, pf, t.x87[opc - 0xD8])
    else if mapped == 0xFF && t.longMode then UNDEFINED_INSTRUCTION
    else UNKNOWN_ERROR
  }

  /** The 15-byte cap and the final window check. */
  function Finish(length: nat, body: nat, size: nat): nat {
    if IsError(body) then body
    else if length + body > MAX_INSN_LEN then UNDEFINED_INSTRUCTION
    else if length + body > size then INSUFFICIENT_BUFFER
    else length + body
  }

  function DecodeAndFinish(t: Tables, w: seq<byte>, first: nat, pf: PrefixInfo): nat
    requires Indexable(t) && first < |w|
  {
    Finish(pf.length, Decode(t, w, first, pf), |w|)
  }

  // ---- Closed form of the prefix loop ---------------------------------------

  /** Number of prefix bytes in front of the first byte that is not one. */
  function RunLength(t: Tables, w: seq<byte>): (r: nat)
    requires Shaped(t)
    ensures r <= |w|
    ensures AllPrefixes(t, w[..r])
    ensures r < |w| ==> !IsPrefixByte(t, w[r])
  {
    if w == [] || !IsPrefixByte(t, w[0]) then 0
    else
      var r := 1 + RunLength(t, w[1..]);
      assert w[..r] == [w[0]] + w[1..][..r - 1];
      r
  }

  predicate AllPrefixes(t: Tables, run: seq<byte>)
    requires Shaped(t)
  {
    forall i :: 0 <= i < |run| ==> IsPrefixByte(t, run[i])
  }

  predicate HasKind(t: Tables, run: seq<byte>, kind: PrefixKind)
    requires Shaped(t)
  {
    exists i :: 0 <= i < |run| && t.prefix[run[i]] == kind
  }

  /** What a run of prefixes amounts to: flags are membership, a REX counts only as the last byte. */
  function Summary(t: Tables, run: seq<byte>): PrefixInfo
    requires Shaped(t)
  {
    PrefixInfo(
      |run|,
      HasKind(t, run, OperandSize),
      HasKind(t, run, AddressSize),
      HasKind(t, run, Seg),
      HasKind(t, run, Lock),
      HasKind(t, run, Rep),
      if run != [] && t.prefix[run[|run| - 1]] == Rex then run[|run| - 1] else 0)
  }

  /** The error the prefix loop ends with, or zero when an opcode byte follows the run. */
  function PrefixVerdict(t: Tables, w: seq<byte>): nat
    requires Shaped(t)
  {
    var r := RunLength(t, w);
    if r >= MAX_INSN_LEN then UNDEFINED_INSTRUCTION
    else if r == |w| then INSUFFICIENT_BUFFER
    else if StartsOpcode(t, w[r]) then 0
    else if IsVexByte(t, w[r]) then UNDEFINED_INSTRUCTION
    else UNKNOWN_ERROR
  }

  /** The decoder's answer for a window. */
  function Verdict(t: Tables, w: seq<byte>): nat
    requires Indexable(t)
  {
    if PrefixVerdict(t, w) != 0 then PrefixVerdict(t, w)
    else
      var r := RunLength(t, w);
      DecodeAndFinish(t, w, r, Summary(t, w[..r]))
  }

  // ---- The imperative entry points -------------------------------------------

  /** A maximal run is determined by its two defining properties. */
  lemma {:induction false} RunLengthIs(t: Tables, w: seq<byte>, r: nat)
    requires Shaped(t) && r <= |w|
    requires AllPrefixes(t, w[..r])
    requires r < |w| ==> !IsPrefixByte(t, w[r])
    ensures RunLength(t, w) == r
  {
  }

  /** A run cut short inside its prefixes is at least that long. */
  lemma RunLengthAtLeast(t: Tables, w: seq<byte>, r: nat)
    requires Shaped(t) && r <= |w|
    requires AllPrefixes(t, w[..r])
    ensures RunLength(t, w) >= r
  {
  }

  /** The flag or byte that one prefix records, before its length is counted. */
  function Record(kind: PrefixKind, b: byte, pf: PrefixInfo): PrefixInfo {
    match kind
    case Rex => pf.(rexByte := b)
    case OperandSize => pf.(has66 := true)
    case AddressSize => pf.(has67 := true)
    case Lock => pf.(hasLock := true)
    case Rep => pf.(hasRep := true)
    case Seg => pf.(hasSeg := true)
    case _ => pf
  }

  lemma HasKindSnoc(t: Tables, run: seq<byte>, b: byte, kind: PrefixKind)
    requires Shaped(t)
    ensures HasKind(t, run + [b], kind) <==> HasKind(t, run, kind) || t.prefix[b] == kind
  {
    if HasKind(t, run, kind) {
      var i :| 0 <= i < |run| && t.prefix[run[i]] == kind;
      assert (run + [b])[i] == run[i];
    }
    assert (run + [b])[|run|] == b;
  }

  lemma SummaryEmpty(t: Tables)
    requires Shaped(t)
    ensures Summary(t, []) == NO_PREFIXES && AllPrefixes(t, [])
  {
  }

  lemma SummarySnoc(t: Tables, run: seq<byte>, b: byte)
    requires Shaped(t)
    ensures var kind, pf := t.prefix[b], Record(t.prefix[b], b, Summary(t, run));
            Summary(t, run + [b]) == pf.(length := pf.length + 1, rexByte := if kind.Rex? then b else 0)
  {
    HasKindSnoc(t, run, b, OperandSize);
    HasKindSnoc(t, run, b, AddressSize);
    HasKindSnoc(t, run, b, Seg);
    HasKindSnoc(t, run, b, Lock);
    HasKindSnoc(t, run, b, Rep);
  }

  /** The loop's exits inside the window: the first byte that is not a prefix. */
  lemma PrefixStops(t: Tables, w: seq<byte>, first: nat)
    requires Shaped(t) && first < |w| && first < MAX_INSN_LEN
    requires AllPrefixes(t, w[..first]) && !IsPrefixByte(t, w[first])
    ensures RunLength(t, w) == first
    ensures PrefixVerdict(t, w) ==
            if StartsOpcode(t, w[first]) then 0
            else if t.longMode then UNDEFINED_INSTRUCTION else UNKNOWN_ERROR
  {
  }

  /** The loop's exits at the cap and at the end of the window. */
  lemma PrefixesExhausted(t: Tables, w: seq<byte>, first: nat)
    requires Shaped(t) && first <= |w| && first <= MAX_INSN_LEN
    requires AllPrefixes(t, w[..first])
    requires first == |w| || first == MAX_INSN_LEN
    ensures PrefixVerdict(t, w) == if first == MAX_INSN_LEN then UNDEFINED_INSTRUCTION else INSUFFICIENT_BUFFER
  {
  }

  lemma AllPrefixesSnoc(t: Tables, w: seq<byte>, first: nat)
    requires Shaped(t) && first < |w|
    requires AllPrefixes(t, w[..first]) && IsPrefixByte(t, w[first])
    ensures AllPrefixes(t, w[..first + 1])
  {
  }

  /** Consumes prefixes until an opcode, a rejected byte, the cap or the end of the window. */
  method ProcessPrefix(t: Tables, w: seq<byte>) returns (err: nat, pf: PrefixInfo, first: nat)
    requires Shaped(t)
    ensures err == PrefixVerdict(t, w)
    ensures err == 0 ==> first == RunLength(t, w) && pf == Summary(t, w[..first])
  {
    hide Summary, AllPrefixes, RunLength, PrefixVerdict;
    pf, first := NO_PREFIXES, 0;
    SummaryEmpty(t);
    assert w[..first] == [];
    while first < |w| && first < MAX_INSN_LEN
      invariant first <= |w| && first <= MAX_INSN_LEN
      invariant AllPrefixes(t, w[..first])
      invariant pf == Summary(t, w[..first])
    {
      var b := w[first];
      var kind := t.prefix[b];
      if !IsPrefixByte(t, b) {
        PrefixStops(t, w, first);
      }
      if kind.NotPrefix? || kind.Escape2? {
        return 0, pf, first;  // dispatch reads the 0F escape itself
      } else if (kind.Vex2? || kind.Vex3? || kind.Evex?) && t.longMode {
        return UNDEFINED_INSTRUCTION, pf, first;
      } else if (kind.Rex? || kind.Vex2? || kind.Vex3? || kind.Evex?) && !t.longMode {
        return UNKNOWN_ERROR, pf, first;
      }
      pf := Record(kind, b, pf);
      if !kind.Rex? {
        pf := pf.(rexByte := 0);  // a later legacy prefix voids the REX
      }
      pf := pf.(length := pf.length + 1);
      SummarySnoc(t, w[..first], b);
      assert w[..first + 1] == w[..first] + [b];
      AllPrefixesSnoc(t, w, first);
      first := first + 1;
    }
    PrefixesExhausted(t, w, first);
    if first >= MAX_INSN_LEN {
      return UNDEFINED_INSTRUCTION, pf, first;
    }
    return INSUFFICIENT_BUFFER, pf, first;
  }

  /** The prefix loop followed by the decode core. */
  method LdizaSlow(t: Tables, w: seq<byte>) returns (v: nat)
    requires Indexable(t)
    ensures v == Verdict(t, w)
  {
    var err, pf, first := ProcessPrefix(t, w);
    if err != 0 {
      return err;
    }
    return DecodeAndFinish(t, w, first, pf);
  }

  /** The caller's pointer: null, or readable bytes. */
  datatype Pointer = Null | To(bytes: seq<byte>)

  /** The fast path for no prefix or one prefix; everything else goes to LdizaSlow. */
  method Ldiza(t: Tables, p: Pointer, n: nat) returns (v: nat)
    requires Indexable(t) && PrefixKindsOk(t)
    requires p.To? ==> n <= |p.bytes|
    ensures v == Verdict(t, if p.Null? then [] else p.bytes[..n])
  {
    hide Decode, Summary, AllPrefixes, RunLength, PrefixVerdict;
    SummaryEmpty(t);
    if p.Null? || n == 0 {
      PrefixesExhausted(t, [], 0);
      return INSUFFICIENT_BUFFER;
    }
    var w := p.bytes[..n];
    assert w[..0] == [];
    var kind0 := t.prefix[w[0]];
    if kind0.NotPrefix? || kind0.Escape2? {
      PrefixStops(t, w, 0);
      return DecodeAndFinish(t, w, 0, NO_PREFIXES);
    }
    if t.longMode && (kind0.Vex2? || kind0.Vex3? || kind0.Evex?) {
      PrefixStops(t, w, 0);
      return UNDEFINED_INSTRUCTION;
    }
    assert w[..1] == [] + [w[0]];
    SummarySnoc(t, [], w[0]);
    AllPrefixesSnoc(t, w, 0);
    if n < 2 {
      PrefixesExhausted(t, w, 1);
      return INSUFFICIENT_BUFFER;
    }
    var kind1 := t.prefix[w[1]];
    if !kind1.NotPrefix? && !kind1.Escape2? {
      v := LdizaSlow(t, w);
      return;
    }
    PrefixStops(t, w, 1);
    var pf := NO_PREFIXES.(length := 1);
    match kind0 {
      case Rex => pf := pf.(rexByte := w[0]);
      case OperandSize => pf := pf.(has66 := true);
      case AddressSize => pf := pf.(has67 := true);
      case Lock => pf := pf.(hasLock := true);
      case Rep => pf := pf.(hasRep := true);
      case _ => pf := pf.(hasSeg := true);
    }
    return DecodeAndFinish(t, w, 1, pf);
  }
}
