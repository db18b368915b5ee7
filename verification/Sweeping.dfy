/** The benchmark's sweep and dump: resynchronise by one byte after an error. */
module Sweeping {
  import opened Common
  import opened Tables
  import opened Decoder
  import opened Walking

  datatype SweepResult = SweepResult(decoded: nat, errors: nat, sumLen: nat, checksum: bv64)

  datatype Counts = Counts(decoded: nat, errors: nat, sumLen: nat)

  /** The dump's byte for an error code: 0xF0 | low nibble. */
  function ErrorMark(v: nat): byte {
    0xF0 + v % 0x10
  }

  predicate IsLengthMark(m: byte) {
    0 < m < 0xF0
  }

  predicate IsErrorMark(m: byte) {
    m >= 0xF0
  }

  /** The dump's byte for a verdict. */
  function MarkOf(v: nat): (m: byte)
    requires v <= MAX_INSN_LEN || IsError(v)
  {
    if IsError(v) then ErrorMark(v) else v
  }

  /** How far the sweep moves on a verdict. */
  function Stride(v: nat): nat {
    if IsError(v) then 1 else v
  }

  predicate AllZero(m: seq<byte>) {
    forall i :: 0 <= i < |m| ==> m[i] == 0
  }

  /** What one verdict writes: its mark, and zeros under the rest of the instruction. */
  function Block(v: nat): (m: seq<byte>)
    requires 1 <= v <= MAX_INSN_LEN || IsError(v)
    ensures |m| == Stride(v) && m[0] == MarkOf(v) && AllZero(m[1..])
  {
    [MarkOf(v)] + seq(Stride(v) - 1, _ => 0)
  }

  /** A mark written over zeros leaves the block and the zeros behind it. */
  lemma WriteBlock(image: seq<byte>, off: nat, v: nat)
    requires 1 <= v <= MAX_INSN_LEN || IsError(v)
    requires off + Stride(v) <= |image| && AllZero(image[off..])
    ensures var after := image[off := MarkOf(v)];
            after[..off + Stride(v)] == image[..off] + Block(v) && AllZero(after[off + Stride(v)..])
  {
  }

  /** The dump of a buffer: one block per sweep position. */
  ghost function Marks(t: Tables, s: seq<byte>): (m: seq<byte>)
    requires WellFormed(t)
    ensures |m| == |s|
  {
    if s == [] then []
    else
      var v := Step(t, s);
      Block(v) + Marks(t, s[Stride(v)..])
  }

  function Plus(a: Counts, b: Counts): Counts {
    Counts(a.decoded + b.decoded, a.errors + b.errors, a.sumLen + b.sumLen)
  }

  /** What one byte of a dump says to the counters. */
  function Weight(m: byte): Counts {
    if IsErrorMark(m) then Counts(0, 1, 0)
    else if IsLengthMark(m) then Counts(1, 0, m)
    else Counts(0, 0, 0)
  }

  /** The counters read off a dump. */
  function Tally(m: seq<byte>): Counts {
    if m == [] then Counts(0, 0, 0) else Plus(Weight(m[0]), Tally(m[1..]))
  }

  lemma {:induction false} TallyConcat(a: seq<byte>, b: seq<byte>)
    ensures Tally(a + b) == Plus(Tally(a), Tally(b))
  {
    hide Weight;
    if a == [] {
      assert a + b == b;
    } else {
      assert (a + b)[1..] == a[1..] + b;
      TallyConcat(a[1..], b);
    }
  }

  lemma AllZeroParts(m: seq<byte>)
    requires AllZero(m) && m != []
    ensures m[0] == 0 && AllZero(m[1..])
  {
  }

  lemma {:induction false} TallyZeros(m: seq<byte>)
    requires AllZero(m)
    ensures Tally(m) == Counts(0, 0, 0)
  {
    hide AllZero;
    if m != [] {
      AllZeroParts(m);
      TallyZeros(m[1..]);
    }
  }

  /** What one verdict adds to the counters. */
  function Counted(v: nat): Counts {
    if IsError(v) then Counts(0, 1, 0) else Counts(1, 0, v)
  }

  lemma TallyBlock(v: nat)
    requires 1 <= v <= MAX_INSN_LEN || IsError(v)
    ensures Tally(Block(v)) == Counted(v)
  {
    hide Block, AllZero;
    TallyZeros(Block(v)[1..]);
  }

  lemma UnfoldMarks(t: Tables, s: seq<byte>)
    requires WellFormed(t) && s != []
    ensures var v := Step(t, s);
            && 1 <= Stride(v) <= |s|
            && Marks(t, s) == Block(v) + Marks(t, s[Stride(v)..])
            && Tally(Marks(t, s)) == Plus(Counted(v), Tally(Marks(t, s[Stride(v)..])))
  {
    hide Step, Block, Tally, Plus, FixedBodiesFit, EntriesDecide, CellsHandled;
    var v := Step(t, s);
    TallyConcat(Block(v), Marks(t, s[Stride(v)..]));
    TallyBlock(v);
  }

  // ---- The checksum ---------------------------------------------------------------

  const FNV_BASIS: bv64 := 1469598103934665603

  /** One FNV-1a step, in 64-bit arithmetic that wraps around. */
  function Mix(h: bv64, b: byte): bv64 {
    TimesPrime(h ^ (b as bv64))
  }

  function TimesPrime(h: bv64): bv64 {
    h * 1099511628211
  }

  /** The byte a mark feeds to the checksum: every error counts alike. */
  function Fed(m: byte): byte {
    if IsErrorMark(m) then 0xF0 else m
  }

  /** The checksum of a dump: its marks in order, the zeros between them left out. */
  function Digest(h: bv64, m: seq<byte>): bv64
    decreases |m|
  {
    if m == [] then h else Digest(if m[0] == 0 then h else Mix(h, Fed(m[0])), m[1..])
  }

  lemma {:induction false} DigestConcat(h: bv64, a: seq<byte>, b: seq<byte>)
    ensures Digest(h, a + b) == Digest(Digest(h, a), b)
    decreases |a|
  {
    hide Mix;
    if a == [] {
      assert a + b == b;
    } else {
      assert (a + b)[1..] == a[1..] + b;
      DigestConcat(if a[0] == 0 then h else Mix(h, Fed(a[0])), a[1..], b);
    }
  }

  lemma {:induction false} DigestZeros(h: bv64, m: seq<byte>)
    requires AllZero(m)
    ensures Digest(h, m) == h
    decreases |m|
  {
    hide AllZero, Mix;
    if m != [] {
      AllZeroParts(m);
      DigestZeros(h, m[1..]);
    }
  }

  lemma UnfoldDigest(t: Tables, s: seq<byte>, h: bv64)
    requires WellFormed(t) && s != []
    ensures var v := Step(t, s);
            Digest(h, Marks(t, s)) == Digest(Mix(h, Fed(MarkOf(v))), Marks(t, s[Stride(v)..]))
  {
    hide Step, Block, Marks, Mix, Tally, FixedBodiesFit, EntriesDecide, CellsHandled;
    var v := Step(t, s);
    UnfoldMarks(t, s);
    DigestConcat(h, Block(v), Marks(t, s[Stride(v)..]));
    DigestZeros(Mix(h, Fed(MarkOf(v))), Block(v)[1..]);
  }

  /** The byte is xored in before anything else; a single one becomes the FNV prime. */
  lemma MixXorsFirst(h: bv64, b: byte)
    ensures Mix(h, b) == Mix(h ^ (b as bv64), 0)
    ensures Mix(0, 1) == 1099511628211
  {
    XorNothing(h ^ (b as bv64));
    OnePrime();
    hide TimesPrime;
  }

  lemma XorNothing(h: bv64)
    ensures h ^ ((0 as byte) as bv64) == h
  {
  }

  lemma OnePrime()
    ensures Mix(0, 1) == 1099511628211
  {
  }

  /** The checksum along the sweep, by the decoder's answers alone: an error feeds 0xF0, an instruction its length. */
  lemma ChecksumSteps(t: Tables, s: seq<byte>, h: bv64)
    requires WellFormed(t)
    ensures s == [] ==> Digest(h, Marks(t, s)) == h
    ensures s != [] ==>
              var v := Verdict(t, if |s| < 15 then s else s[..15]);
              && (v >= 0xE0 ==> Digest(h, Marks(t, s)) == Digest(Mix(h, 0xF0), Marks(t, s[1..])))
              && (v < 0xE0 ==> 1 <= v <= |s| && v <= 15 && Digest(h, Marks(t, s)) == Digest(Mix(h, v), Marks(t, s[v..])))
  {
    hide Verdict, Marks, Digest, Mix, FixedBodiesFit, EntriesDecide, CellsHandled;
    if s == [] {
      NothingMarked(t);
      NothingFed(h);
    } else {
      UnfoldDigest(t, s, h);
    }
  }

  lemma NothingFed(h: bv64)
    ensures Digest(h, []) == h
  {
  }

  /** The checksums of the empty buffer, of a one-byte instruction and of a lone bad byte. */
  lemma SmallChecksums(t: Tables, b: byte)
    requires WellFormed(t)
    ensures Digest(FNV_BASIS, Marks(t, [])) == 1469598103934665603
    ensures Verdict(t, [b]) == 1 ==> Digest(FNV_BASIS, Marks(t, [b])) == 4953162257141659110
    ensures Verdict(t, [b]) >= 0xE0 ==> Digest(FNV_BASIS, Marks(t, [b])) == 4953145764467235945
  {
    hide Verdict, Marks, Digest, FixedBodiesFit, EntriesDecide, CellsHandled;
    ChecksumSteps(t, [b], FNV_BASIS);
    assert [b][1..] == [];
    ChecksumSteps(t, [], FNV_BASIS);
    ChecksumSteps(t, [], Mix(FNV_BASIS, 0xF0));
    ChecksumSteps(t, [], Mix(FNV_BASIS, 1));
  }

  // ---- The loops ----------------------------------------------------------------

  lemma WindowOf(t: Tables, buf: seq<byte>, off: nat)
    requires WellFormed(t) && off < |buf|
    ensures var window := if |buf| - off < MAX_INSN_LEN then |buf| - off else MAX_INSN_LEN;
            Verdict(t, buf[off..][..window]) == Step(t, buf[off..])
  {
    hide Verdict;
    var window := if |buf| - off < MAX_INSN_LEN then |buf| - off else MAX_INSN_LEN;
    assert buf[off..][..window] == Window(buf[off..]);
  }

  /** Decodes the whole buffer; an error costs one byte. */
  method Sweep(t: Tables, buf: seq<byte>) returns (r: SweepResult)
    requires WellFormed(t)
    ensures var c := Tally(Marks(t, buf));
            r == SweepResult(c.decoded, c.errors, c.sumLen, Digest(FNV_BASIS, Marks(t, buf)))
  {
    hide Step, Verdict, Marks, Tally, Digest, Mix, Window, FixedBodiesFit, EntriesDecide, CellsHandled;
    r := SweepResult(0, 0, 0, FNV_BASIS);
    var off := 0;
    var n := |buf|;
    assert buf[0..] == buf;
    while off < n
      invariant off <= n
      invariant Plus(Counts(r.decoded, r.errors, r.sumLen), Tally(Marks(t, buf[off..]))) == Tally(Marks(t, buf))
      invariant Digest(r.checksum, Marks(t, buf[off..])) == Digest(FNV_BASIS, Marks(t, buf))
    {
      var window := if n - off < MAX_INSN_LEN then n - off else MAX_INSN_LEN;
      var res := Ldiza(t, To(buf[off..]), window);
      WindowOf(t, buf, off);
      UnfoldMarks(t, buf[off..]);
      UnfoldDigest(t, buf[off..], r.checksum);
      assert buf[off..][Stride(res)..] == buf[off + Stride(res)..];
      if IsError(res) {
        r := r.(errors := r.errors + 1, checksum := Mix(r.checksum, 0xF0));
        off := off + 1;
      } else {
        r := r.(decoded := r.decoded + 1, sumLen := r.sumLen + res, checksum := Mix(r.checksum, res));
        off := off + res;
      }
    }
    NothingMarked(t);
    NothingFed(FNV_BASIS);
    NothingFed(r.checksum);
  }

  lemma NothingMarked(t: Tables)
    requires WellFormed(t)
    ensures Marks(t, []) == [] && Tally([]) == Counts(0, 0, 0)
  {
  }

  /** The array after the sweep reached `off`: the dump so far, and zeros. */
  ghost predicate Dumped(t: Tables, buf: seq<byte>, image: seq<byte>, off: nat)
    requires WellFormed(t)
  {
    && off <= |buf| == |image|
    && image[..off] + Marks(t, buf[off..]) == Marks(t, buf)
    && AllZero(image[off..])
  }

  lemma DumpStart(t: Tables, buf: seq<byte>, image: seq<byte>)
    requires WellFormed(t) && |image| == |buf| && AllZero(image)
    ensures Dumped(t, buf, image, 0)
  {
  }

  lemma DumpStep(t: Tables, buf: seq<byte>, image: seq<byte>, off: nat)
    requires WellFormed(t) && off < |buf| && Dumped(t, buf, image, off)
    ensures var v := Step(t, buf[off..]);
            off + Stride(v) <= |buf| && Dumped(t, buf, image[off := MarkOf(v)], off + Stride(v))
  {
    hide Step, Marks, Block, AllZero, Tally, FixedBodiesFit, EntriesDecide, CellsHandled;
    var v := Step(t, buf[off..]);
    UnfoldMarks(t, buf[off..]);
    WriteBlock(image, off, v);
    assert buf[off..][Stride(v)..] == buf[off + Stride(v)..];
    var rest := Marks(t, buf[off + Stride(v)..]);
    assert image[..off] + (Block(v) + rest) == (image[..off] + Block(v)) + rest;
  }

  lemma DumpEnd(t: Tables, buf: seq<byte>, image: seq<byte>)
    requires WellFormed(t) && Dumped(t, buf, image, |buf|)
    ensures image == Marks(t, buf)
  {
  }

  /** Writes the mark of every sweep position into a zeroed array. */
  method Dump(t: Tables, buf: seq<byte>) returns (out: array<byte>)
    requires WellFormed(t)
    ensures fresh(out) && out[..] == Marks(t, buf)
  {
    hide Step, Verdict, Marks, Window, Dumped, FixedBodiesFit, EntriesDecide, CellsHandled;
    var n := |buf|;
    out := new byte[n](_ => 0);
    var off := 0;
    DumpStart(t, buf, out[..]);
    while off < n
      invariant off <= n
      invariant Dumped(t, buf, out[..], off)
    {
      var window := if n - off < MAX_INSN_LEN then n - off else MAX_INSN_LEN;
      var res := Ldiza(t, To(buf[off..]), window);
      WindowOf(t, buf, off);
      ghost var image := out[..];
      DumpStep(t, buf, image, off);
      if IsError(res) {
        out[off] := 0xF0 + res % 0x10;
        assert out[..] == image[off := MarkOf(res)];
        off := off + 1;
      } else {
        out[off] := res;
        assert out[..] == image[off := MarkOf(res)];
        off := off + res;
      }
    }
    DumpEnd(t, buf, out[..]);
  }

  // ---- What the loops guarantee ----------------------------------------------------

  /** Every byte is covered once: the lengths and the errors add up to the buffer. */
  lemma {:induction false} SweepConserves(t: Tables, s: seq<byte>)
    requires WellFormed(t)
    ensures var r := Tally(Marks(t, s)); r.sumLen + r.errors == |s|
    decreases |s|
  {
    hide Step, Marks, Tally, FixedBodiesFit, EntriesDecide, CellsHandled;
    if s == [] {
      NothingMarked(t);
    } else {
      UnfoldMarks(t, s);
      SweepConserves(t, s[Stride(Step(t, s))..]);
    }
  }

  /** The positions of a dump that hold a length, and those that hold an error. */
  function LengthMarks(m: seq<byte>): set<nat> {
    set i: nat | i < |m| && 0 < m[i] < 0xF0
  }

  function ErrorMarks(m: seq<byte>): set<nat> {
    set i: nat | i < |m| && m[i] >= 0xF0
  }

  lemma MarksSnoc(m: seq<byte>, x: byte)
    ensures LengthMarks(m + [x]) == LengthMarks(m) + if 0 < x < 0xF0 then {|m|} else {}
    ensures ErrorMarks(m + [x]) == ErrorMarks(m) + if x >= 0xF0 then {|m|} else {}
  {
  }

  /** The sweep counts the length marks and the error marks of the dump. */
  lemma {:induction false} CountersAreMarks(m: seq<byte>)
    ensures Tally(m).decoded == |LengthMarks(m)| && Tally(m).errors == |ErrorMarks(m)|
  {
    hide Tally, LengthMarks, ErrorMarks;
    NoMarks();
    if m != [] {
      var n := |m| - 1;
      assert m == m[..n] + [m[n]];
      CountersAreMarks(m[..n]);
      TallyConcat(m[..n], [m[n]]);
      TallyOne(m[n]);
      MarksSnoc(m[..n], m[n]);
      MarksBelow(m[..n]);
    }
  }

  lemma NoMarks()
    ensures Tally([]) == Counts(0, 0, 0) && LengthMarks([]) == {} && ErrorMarks([]) == {}
  {
  }

  lemma TallyOne(x: byte)
    ensures Tally([x]).decoded == (if 0 < x < 0xF0 then 1 else 0) && Tally([x]).errors == if x >= 0xF0 then 1 else 0
  {
    assert [x][1..] == [];
  }

  lemma MarksBelow(m: seq<byte>)
    ensures |m| !in LengthMarks(m) && |m| !in ErrorMarks(m)
  {
  }

  lemma TraceTells(t: Tables, s: seq<byte>, m: seq<byte>, i: nat)
    requires WellFormed(t) && |m| == |s| && i < |s| && TraceAt(t, s, m, i)
    ensures var v := Verdict(t, Window(s[i..])); (m[i] >= 0xF0 <==> v >= 0xE0) && v == if m[i] >= 0xF0 then m[i] - 0x10 else m[i]
  {
    hide Verdict, AllZero, FixedBodiesFit, EntriesDecide, CellsHandled;
  }

  /** A dump tells the decoder's answer at every position it marks: errors as 0xF0 to 0xFF, lengths as they are. */
  lemma DumpTellsVerdicts(t: Tables, s: seq<byte>, i: nat)
    requires WellFormed(t) && i < |s| && Marks(t, s)[i] != 0
    ensures var m, rest := Marks(t, s)[i], s[i..];
            var v := Verdict(t, if |rest| < 15 then rest else rest[..15]);
            && (m >= 0xF0 <==> v >= 0xE0)
            && v == if m >= 0xF0 then m - 0x10 else m
  {
    hide Verdict, Marks, FixedBodiesFit, EntriesDecide, CellsHandled;
    hide Step, MarkOf, TraceAt;
    MarksAreTrace(t, s);
    TraceTells(t, s, Marks(t, s), i);
  }

  /** A dump judged position by position, without running the sweep. */
  ghost predicate IsTrace(t: Tables, s: seq<byte>, m: seq<byte>)
    requires WellFormed(t)
  {
    && |m| == |s|
    && (s != [] ==> m[0] != 0)
    && forall i :: 0 <= i < |s| && m[i] != 0 ==> TraceAt(t, s, m, i)
  }

  /** At a marked position: the verdict's mark, zeros under the instruction, and a mark behind it. */
  ghost predicate TraceAt(t: Tables, s: seq<byte>, m: seq<byte>, i: nat)
    requires WellFormed(t) && |m| == |s| && i < |s|
  {
    var v := Step(t, s[i..]);
    && m[i] == MarkOf(v)
    && i + Stride(v) <= |s|
    && AllZero(m[i + 1..i + Stride(v)])
    && (i + Stride(v) < |s| ==> m[i + Stride(v)] != 0)
  }

  lemma TraceShift(t: Tables, s: seq<byte>, m: seq<byte>, d: nat, i: nat)
    requires WellFormed(t) && |m| == |s| && d <= i < |s|
    ensures TraceAt(t, s[d..], m[d..], i - d) <==> TraceAt(t, s, m, i)
  {
    hide Step, AllZero, FixedBodiesFit, EntriesDecide, CellsHandled;
    assert s[d..][i - d..] == s[i..];
    var v := Step(t, s[i..]);
    if i + Stride(v) <= |s| {
      assert m[d..][i - d + 1..i - d + Stride(v)] == m[i + 1..i + Stride(v)];
    }
  }

  /** One block in front of a trace is a trace. */
  lemma TracePrepend(t: Tables, s: seq<byte>, tail: seq<byte>)
    requires WellFormed(t) && s != []
    requires var v := Step(t, s); Stride(v) <= |s| && IsTrace(t, s[Stride(v)..], tail)
    ensures IsTrace(t, s, Block(Step(t, s)) + tail)
  {
    hide Step, Block, TraceAt, AllZero, FixedBodiesFit, EntriesDecide, CellsHandled;
    var v := Step(t, s);
    var d := Stride(v);
    var m := Block(v) + tail;
    assert m[d..] == tail;
    forall i | 0 <= i < |s| && m[i] != 0 ensures TraceAt(t, s, m, i) {
      if i >= d {
        assert tail[i - d] != 0;
        TraceShift(t, s, m, d, i);
      } else {
        ZeroInside(Block(v), i);
        TraceFront(t, s, m);
      }
    }
  }

  lemma ZeroInside(block: seq<byte>, i: nat)
    requires i < |block| && AllZero(block[1..])
    ensures i > 0 ==> block[i] == 0
  {
  }

  lemma TraceFront(t: Tables, s: seq<byte>, m: seq<byte>)
    requires WellFormed(t) && |m| == |s| > 0
    requires var v := Step(t, s);
             Stride(v) <= |s| && Block(v) <= m && (Stride(v) < |s| ==> m[Stride(v)] != 0)
    ensures TraceAt(t, s, m, 0)
  {
  }

  /** Marks are nonzero exactly at sweep positions, and say what the decoder says there. */
  lemma {:induction false} MarksAreTrace(t: Tables, s: seq<byte>)
    requires WellFormed(t)
    ensures IsTrace(t, s, Marks(t, s))
    decreases |s|
  {
    hide Step, Marks, Block, Tally, FixedBodiesFit, EntriesDecide, CellsHandled;
    if s == [] {
      NothingMarked(t);
    } else {
      UnfoldMarks(t, s);
      MarksAreTrace(t, s[Stride(Step(t, s))..]);
      TracePrepend(t, s, Marks(t, s[Stride(Step(t, s))..]));
    }
  }

  lemma TraceHead(t: Tables, s: seq<byte>, m: seq<byte>)
    requires WellFormed(t) && IsTrace(t, s, m) && s != []
    ensures var d := Stride(Step(t, s));
            d <= |s| && m[..d] == Block(Step(t, s)) && (d < |s| ==> m[d] != 0)
  {
  }

  lemma TraceTail(t: Tables, s: seq<byte>, m: seq<byte>, d: nat)
    requires WellFormed(t) && IsTrace(t, s, m) && d <= |s| && (d < |s| ==> m[d] != 0)
    ensures IsTrace(t, s[d..], m[d..])
  {
    hide Step, TraceAt, FixedBodiesFit, EntriesDecide, CellsHandled;
    forall i | 0 <= i < |s| - d && m[d..][i] != 0 ensures TraceAt(t, s[d..], m[d..], i) {
      assert m[d + i] != 0;
      TraceShift(t, s, m, d, d + i);
    }
  }

  /** The trace determines the dump. */
  lemma {:induction false} TraceIsUnique(t: Tables, s: seq<byte>, m: seq<byte>)
    requires WellFormed(t) && IsTrace(t, s, m)
    ensures m == Marks(t, s)
    decreases |s|
  {
    hide Step, Marks, Tally, Block, AllZero, TraceAt, FixedBodiesFit, EntriesDecide, CellsHandled;
    if s == [] {
      NothingMarked(t);
    } else {
      UnfoldMarks(t, s);
      TraceHead(t, s, m);
      var d := Stride(Step(t, s));
      TraceTail(t, s, m, d);
      TraceIsUnique(t, s[d..], m[d..]);
      assert m == m[..d] + m[d..];
    }
  }

  /** The shim's walk stops at the dump's first error mark and counts the lengths before it. */
  lemma {:induction false} WalkStopsAtFirstErrorMark(t: Tables, s: seq<byte>)
    requires WellFormed(t)
    ensures var n, m := Consumed(t, s), Marks(t, s);
            && n <= |s|
            && (forall i :: 0 <= i < n ==> !IsErrorMark(m[i]))
            && (n < |s| ==> IsErrorMark(m[n]))
            && Tally(m[..n]) == Counts(|Pieces(t, s)|, 0, n)
    decreases |s|
  {
    hide Step, Marks, Pieces, Tally, Flatten, FixedBodiesFit, EntriesDecide, CellsHandled;
    UnfoldPieces(t, s);
    var v := Step(t, s);
    var m := Marks(t, s);
    if IsError(v) {
      FlattenNothing();
      NothingMarked(t);
      assert m[..0] == [];
      if s != [] {
        UnfoldMarks(t, s);
      }
    } else {
      UnfoldMarks(t, s);
      WalkStopsAtFirstErrorMark(t, s[v..]);
      FlattenCons(s[..v], Pieces(t, s[v..]));
      var n := Consumed(t, s[v..]);
      var head := Block(v);
      var tail := Marks(t, s[v..]);
      assert m == head + tail;
      assert m[..v + n] == head + tail[..n];
      TallyConcat(head, tail[..n]);
      TallyBlock(v);
    }
  }
}
