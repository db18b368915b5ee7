/** The kernel shim: decode one instruction, or walk a code region. */
module Shim {
  import opened Common
  import opened Tables
  import opened Decoder
  import opened Walking
  import opened Modes

  /** The caller's counter, behind a pointer that may be null. */
  class SizeCell {
    var value: nat

    constructor (value: nat)
      ensures this.value == value
    {
      this.value := value;
    }
  }

  /** The caller's `n` bytes; nothing when the pointer is null. */
  function Region(p: Pointer, n: nat): seq<byte>
    requires p.To? ==> n <= |p.bytes|
  {
    if p.Null? then [] else p.bytes[..n]
  }

  /** The window the loop passes is the front of what is left. */
  lemma StepAt(t: Tables, p: Pointer, n: nat, offset: nat)
    requires WellFormed(t) && (p.To? ==> n <= |p.bytes|)
    requires offset < n && (p.Null? ==> offset == 0)
    ensures var window := if n - offset < MAX_INSN_LEN then n - offset else MAX_INSN_LEN;
            && offset <= |Region(p, n)|
            && Step(t, Region(p, n)[offset..]) == Verdict(t, Region(At(p, offset), window))
  {
    hide Verdict, FixedBodiesFit, EntriesDecide, CellsHandled;
    var window := if n - offset < MAX_INSN_LEN then n - offset else MAX_INSN_LEN;
    assert Window(Region(p, n)[offset..]) == Region(At(p, offset), window);
  }

  /** Pointer arithmetic: `p + offset`. */
  function At(p: Pointer, offset: nat): Pointer
    requires p.To? ==> offset <= |p.bytes|
  {
    if p.Null? then Null else To(p.bytes[offset..])
  }

  /** The raw decoder result in the requested mode. */
  method Decode(p: Pointer, n: nat, longMode: bool) returns (len: nat)
    requires p.To? ==> n <= |p.bytes|
    ensures Indexable(ModeTables(longMode)) && len == Verdict(ModeTables(longMode), Region(p, n))
  {
    ModesWellFormed(longMode);
    hide Verdict;
    if longMode {
      len := Ldiza(LONG, p, n);
    } else {
      len := Ldiza(IA32, p, n);
    }
  }

  /** Adds up the leading instructions: their bytes are the result, their number goes to `count` if there is one. */
  method Walk(p: Pointer, n: nat, longMode: bool, count: SizeCell?) returns (offset: nat)
    requires p.To? ==> n <= |p.bytes|
    modifies count
    ensures WellFormed(ModeTables(longMode))
    ensures offset == Consumed(ModeTables(longMode), Region(p, n))
    ensures count != null ==> count.value == |Pieces(ModeTables(longMode), Region(p, n))|
  {
    ModesWellFormed(longMode);
    ghost var t := ModeTables(longMode);
    hide ModeTables, Pieces, Step, Verdict, Flatten, Window, FixedBodiesFit, EntriesDecide, CellsHandled;
    offset := 0;
    var decoded := 0;
    if count != null {
      count.value := 0;
    }
    ghost var s := Region(p, n);
    ghost var done: seq<seq<byte>> := [];
    FlattenNothing();
    assert s[0..] == s && done + Pieces(t, s) == Pieces(t, s);
    while offset < n
      invariant offset <= n && (p.Null? ==> offset == 0)
      invariant decoded == |done| && offset == |Flatten(done)|
      invariant offset <= |s| && Pieces(t, s) == done + Pieces(t, s[offset..])
    {
      var remaining := n - offset;
      var window := if remaining < MAX_INSN_LEN then remaining else MAX_INSN_LEN;
      var len := Decode(At(p, offset), window, longMode);
      StepAt(t, p, n, offset);
      assert len == Step(t, s[offset..]);
      UnfoldPieces(t, s[offset..]);
      if IsError(len) || len == 0 {
        break;
      }
      ghost var piece := s[offset..][..len];
      FlattenSnoc(done, piece);
      assert s[offset..][len..] == s[offset + len..];
      assert done + ([piece] + Pieces(t, s[offset + len..])) == (done + [piece]) + Pieces(t, s[offset + len..]);
      done := done + [piece];
      decoded := decoded + 1;
      offset := offset + len;
    }
    UnfoldPieces(t, s[offset..]);
    assert done + [] == done == Pieces(t, s);
    if count != null {
      count.value := decoded;
    }
  }
}
