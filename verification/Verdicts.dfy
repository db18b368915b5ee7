/** The laws every caller of the decoder relies on, for all windows. */
module Verdicts {
  import opened Common
  import opened Tables
  import opened Decoder
  import opened Locality

  // ---- Totality ---------------------------------------------------------------

  /** Every verdict is a length inside the window and the cap, 0xE0 or 0xE1; never 0xE2. */
  lemma VerdictRange(t: Tables, w: seq<byte>)
    requires WellFormed(t)
    ensures var v := Verdict(t, w);
            v == INSUFFICIENT_BUFFER || v == UNDEFINED_INSTRUCTION || (1 <= v <= |w| && v <= MAX_INSN_LEN)
  {
    var r := RunLength(t, w);
    if PrefixVerdict(t, w) == 0 {
      DecodeBounds(t, w, r, Summary(t, w[..r]));
    }
  }

  // ---- Growing and shrinking a window ----------------------------------------

  lemma RunOfPrefix(t: Tables, p: seq<byte>, w: seq<byte>)
    requires Shaped(t) && p <= w
    ensures RunLength(t, w) >= RunLength(t, p)
    ensures RunLength(t, p) < |p| || RunLength(t, w) < |p| ==> RunLength(t, w) == RunLength(t, p)
  {
    var r := RunLength(t, p);
    assert w[..r] == p[..r];
    RunLengthAtLeast(t, w, r);
    if r < |p| {
      RunLengthIs(t, w, r);
    }
  }

  /** Appended bytes never change a decided verdict, and a length is decided by its own bytes. */
  lemma VerdictAgree(t: Tables, p: seq<byte>, w: seq<byte>)
    requires Indexable(t) && p <= w
    ensures Persists(Verdict(t, p), Verdict(t, w))
    ensures FixedBodiesFit(t) ==> Known(Verdict(t, p), Verdict(t, w), |p|)
  {
    hide Decode, Summary;
    RunOfPrefix(t, p, w);
    var r := RunLength(t, p);
    if RunLength(t, w) == r < |p| {
      assert w[..r] == p[..r];
      assert p[r..] <= w[r..];
      var pf := Summary(t, p[..r]);
      assert pf.length == r by { SummaryLength(t, p[..r]); }
      DecodeAgree(t, p, r, pf, w, r, pf);
      if StartsOpcode(t, w[r]) {
        DecodeBounds(t, w, r, pf);
      }
    } else if PrefixVerdict(t, w) == 0 {
      var s := RunLength(t, w);
      SummaryLength(t, w[..s]);
      DecodeBounds(t, w, s, Summary(t, w[..s]));
    }
  }

  lemma SummaryLength(t: Tables, run: seq<byte>)
    requires Shaped(t)
    ensures Summary(t, run).length == |run|
  {
  }

  /** A length or 0xE1 stays the answer whatever bytes follow the window. */
  lemma VerdictIsFinal(t: Tables, w: seq<byte>, more: seq<byte>)
    requires Indexable(t) && Verdict(t, w) != INSUFFICIENT_BUFFER
    ensures Verdict(t, w + more) == Verdict(t, w)
  {
    VerdictAgree(t, w, w + more);
  }

  /** A length depends on nothing but the bytes it covers. */
  lemma LengthIsLocal(t: Tables, a: seq<byte>, b: seq<byte>)
    requires WellFormed(t)
    requires var n := Verdict(t, a); !IsError(n) && n <= |b| && b[..n] == a[..n]
    ensures Verdict(t, b) == Verdict(t, a)
  {
    var n := Verdict(t, a);
    VerdictRange(t, a);
    VerdictAgree(t, a[..n], a);
    VerdictAgree(t, b[..n], b);
  }

  /** A byte string that decodes to exactly its own length. */
  predicate IsInstruction(t: Tables, x: seq<byte>)
    requires Indexable(t)
  {
    Verdict(t, x) == |x| && !IsError(|x|)
  }

  /** Instructions form a prefix-free code. */
  lemma InstructionsArePrefixFree(t: Tables, a: seq<byte>, b: seq<byte>)
    requires WellFormed(t) && IsInstruction(t, a) && IsInstruction(t, b) && a <= b
    ensures a == b
  {
    VerdictAgree(t, a, b);
  }

  /** Cutting an instruction short anywhere gives exactly 0xE0. */
  lemma TruncationIsInsufficient(t: Tables, w: seq<byte>, k: nat)
    requires WellFormed(t) && !IsError(Verdict(t, w)) && k < Verdict(t, w)
    ensures k <= |w| && Verdict(t, w[..k]) == INSUFFICIENT_BUFFER
  {
    VerdictRange(t, w);
    VerdictRange(t, w[..k]);
    VerdictAgree(t, w[..k], w);
  }

  /** Along a growing window the verdict is 0xE0 up to one point and constant from there on. */
  lemma {:induction false} VerdictStream(t: Tables, w: seq<byte>) returns (k: nat)
    requires WellFormed(t)
    ensures forall i :: 0 <= i <= |w| && i < k ==> Verdict(t, w[..i]) == INSUFFICIENT_BUFFER
    ensures forall i :: k <= i <= |w| ==> Verdict(t, w[..i]) == Verdict(t, w) != INSUFFICIENT_BUFFER
    ensures !IsError(Verdict(t, w)) ==> k == Verdict(t, w)
  {
    hide Verdict, Indexable, FixedBodiesFit, EntriesDecide, CellsHandled;
    k := |w| + 1;
    assert w[..|w|] == w;
    while k > 0 && Verdict(t, w[..k - 1]) != INSUFFICIENT_BUFFER
      invariant k <= |w| + 1
      invariant forall i :: k <= i <= |w| ==> Verdict(t, w[..i]) == Verdict(t, w) != INSUFFICIENT_BUFFER
    {
      VerdictAgree(t, w[..k - 1], w);
      k := k - 1;
    }
    forall i | 0 <= i <= |w| && i < k ensures Verdict(t, w[..i]) == INSUFFICIENT_BUFFER {
      VerdictAgree(t, w[..i], w[..k - 1]);
    }
    if !IsError(Verdict(t, w)) {
      var n := Verdict(t, w);
      VerdictRange(t, w);
      VerdictAgree(t, w[..n], w);
      if k < n {
        TruncationIsInsufficient(t, w, k);
      }
    }
  }

  // ---- How many bytes settle the verdict ---------------------------------------

  /** No window this long is ever "not enough bytes": 14 prefixes and what settles the opcode. */
  lemma DecisionBound(t: Tables, w: seq<byte>)
    requires WellFormed(t) && |w| >= MAX_INSN_LEN - 1 + OpcodeReach(t)
    ensures Verdict(t, w) != INSUFFICIENT_BUFFER
  {
    var r := RunLength(t, w);
    if PrefixVerdict(t, w) == 0 {
      DecodeBounds(t, w, r, Summary(t, w[..r]));
    }
  }

  /** The first 15 bytes already know every length: a longer window finds no other. */
  lemma FifteenBytesSuffice(t: Tables, w: seq<byte>)
    requires WellFormed(t) && |w| >= MAX_INSN_LEN
    ensures IsError(Verdict(t, w[..MAX_INSN_LEN])) <==> IsError(Verdict(t, w))
    ensures !IsError(Verdict(t, w)) ==> Verdict(t, w[..MAX_INSN_LEN]) == Verdict(t, w)
  {
    VerdictAgree(t, w[..MAX_INSN_LEN], w);
    VerdictRange(t, w);
  }

  /** A full 15-byte window that is "not enough bytes" begins no instruction at all. */
  lemma FullWindowIsHopeless(t: Tables, w: seq<byte>, more: seq<byte>)
    requires WellFormed(t) && |w| >= MAX_INSN_LEN && Verdict(t, w) == INSUFFICIENT_BUFFER
    ensures IsError(Verdict(t, w + more))
  {
    VerdictRange(t, w + more);
    VerdictAgree(t, w, w + more);
  }

  // ---- Exactly which tables make lengths local -----------------------------------

  /** The property that a scanner of truncated windows needs from the tables. */
  ghost predicate LengthsAreLocal(t: Tables)
    requires Indexable(t)
  {
    forall p: seq<byte>, w: seq<byte> :: p <= w ==> Known(Verdict(t, p), Verdict(t, w), |p|)
  }

  /** The two-byte escape can be reached. */
  predicate EscapeIsLive(t: Tables)
    requires Indexable(t)
  {
    StartsOpcode(t, 0x0F) && t.oneByte[0x0F] == 0xE2
  }

  lemma ShortFixedBody1(t: Tables, opc: byte, m: byte)
    requires Indexable(t) && StartsOpcode(t, opc) && GroupAt1(t, opc).Some?
    requires !FixedBodyFits(1, GroupAt1(t, opc).value[m])
    ensures !LengthsAreLocal(t)
  {
    var w := [opc, m];
    SummaryEmpty(t);
    PrefixStops(t, w, 0);
    assert w[..0] == [];
    var n := Verdict(t, w);
    assert n == GroupAt1(t, opc).value[m] - 0xA0 < 2;
    var p := w[..n];
    if n == 1 {
      PrefixStops(t, p, 0);
      assert p[..0] == [];
    } else {
      PrefixesExhausted(t, p, 0);
    }
    assert !Known(Verdict(t, p), Verdict(t, w), |p|);
  }

  lemma ShortFixedBody2(t: Tables, second: byte, m: byte)
    requires Indexable(t) && EscapeIsLive(t) && GroupAt2(t, second).Some?
    requires !FixedBodyFits(2, GroupAt2(t, second).value[m])
    ensures !LengthsAreLocal(t)
  {
    var w := [0x0F, second, m];
    SummaryEmpty(t);
    PrefixStops(t, w, 0);
    assert w[..0] == [];
    var n := Verdict(t, w);
    assert n == GroupAt2(t, second).value[m] - 0xA0 < 3;
    var p := w[..n];
    if n > 0 {
      PrefixStops(t, p, 0);
      assert p[..0] == [];
    } else {
      PrefixesExhausted(t, p, 0);
    }
    assert !Known(Verdict(t, p), Verdict(t, w), |p|);
  }

  /** Lengths are local exactly when no reachable fixed body is shorter than its own selector. */
  lemma LocalExactlyWhenBodiesFit(t: Tables)
    requires Indexable(t) && EscapeIsLive(t)
    ensures LengthsAreLocal(t) <==> FixedBodiesFit(t)
  {
    if FixedBodiesFit(t) {
      forall p: seq<byte>, w: seq<byte> | p <= w ensures Known(Verdict(t, p), Verdict(t, w), |p|) {
        VerdictAgree(t, p, w);
      }
    } else if opc: byte, m: byte :|
      StartsOpcode(t, opc) && GroupAt1(t, opc).Some? && !FixedBodyFits(1, GroupAt1(t, opc).value[m])
    {
      ShortFixedBody1(t, opc, m);
    } else {
      var second: byte, m: byte :| GroupAt2(t, second).Some? && !FixedBodyFits(2, GroupAt2(t, second).value[m]);
      ShortFixedBody2(t, second, m);
    }
  }
}
