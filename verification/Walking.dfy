/** Linear walks over a code region: instruction boundaries and the benchmark's sweep. */
module Walking {
  import opened Common
  import opened Tables
  import opened Decoder
  import opened Verdicts

  /** The bytes a walker hands over: at most 15. */
  function Window(s: seq<byte>): seq<byte> {
    if |s| < MAX_INSN_LEN then s else s[..MAX_INSN_LEN]
  }

  /** The decoder's answer at the front of `s`. */
  ghost function Step(t: Tables, s: seq<byte>): (v: nat)
    requires WellFormed(t)
    ensures !IsError(v) ==> 1 <= v <= |s| && v <= MAX_INSN_LEN
    ensures v == INSUFFICIENT_BUFFER || v == UNDEFINED_INSTRUCTION || v <= MAX_INSN_LEN
  {
    VerdictRange(t, Window(s));
    Verdict(t, Window(s))
  }

  /** The instructions a walk finds before it stops. */
  ghost function Pieces(t: Tables, s: seq<byte>): seq<seq<byte>>
    requires WellFormed(t)
  {
    var v := Step(t, s);
    if IsError(v) then [] else [s[..v]] + Pieces(t, s[v..])
  }

  function Flatten(xs: seq<seq<byte>>): seq<byte> {
    if xs == [] then [] else xs[0] + Flatten(xs[1..])
  }

  /** Bytes a walk consumes. */
  ghost function Consumed(t: Tables, s: seq<byte>): nat
    requires WellFormed(t)
  {
    |Flatten(Pieces(t, s))|
  }

  lemma FlattenSnoc(xs: seq<seq<byte>>, x: seq<byte>)
    ensures Flatten(xs + [x]) == Flatten(xs) + x
  {
    if xs == [] {
      assert xs + [x] == [x];
    } else {
      assert (xs + [x])[1..] == xs[1..] + [x];
      FlattenSnoc(xs[1..], x);
    }
  }

  predicate AllInstructions(t: Tables, xs: seq<seq<byte>>)
    requires Indexable(t)
  {
    forall i :: 0 <= i < |xs| ==> IsInstruction(t, xs[i])
  }

  // ---- A walk inverts concatenation ------------------------------------------------

  /** In front of anything, an instruction is the first piece. */
  lemma StepOfInstruction(t: Tables, x: seq<byte>, more: seq<byte>)
    requires WellFormed(t) && IsInstruction(t, x)
    ensures Step(t, x + more) == |x|
    ensures (x + more)[..|x|] == x && (x + more)[|x|..] == more
  {
    var s := x + more;
    VerdictRange(t, x);
    assert x <= Window(s);
    VerdictAgree(t, x, Window(s));
  }

  lemma UnfoldPieces(t: Tables, s: seq<byte>)
    requires WellFormed(t)
    ensures var v := Step(t, s);
            Pieces(t, s) == if IsError(v) then [] else [s[..v]] + Pieces(t, s[v..])
    ensures s == [] ==> IsError(Step(t, s))
  {
  }

  lemma FlattenCons(x: seq<byte>, xs: seq<seq<byte>>)
    ensures Flatten([x] + xs) == x + Flatten(xs)
  {
  }

  lemma StepIsInstruction(t: Tables, s: seq<byte>)
    requires WellFormed(t) && !IsError(Step(t, s))
    ensures IsInstruction(t, s[..Step(t, s)])
  {
    hide FixedBodiesFit, EntriesDecide, CellsHandled, Verdict;
    VerdictAgree(t, s[..Step(t, s)], Window(s));
  }

  /** What a walk finds are instructions, in place, and it stops where none begins. */
  lemma {:induction false} PiecesAreSound(t: Tables, s: seq<byte>)
    requires WellFormed(t)
    ensures AllInstructions(t, Pieces(t, s))
    ensures Consumed(t, s) <= |s| && Flatten(Pieces(t, s)) == s[..Consumed(t, s)]
    ensures IsError(Step(t, s[Consumed(t, s)..]))
    decreases |s|
  {
    hide Pieces, Step, IsInstruction, Flatten, Indexable, PrefixKindsOk, FixedBodiesFit, EntriesDecide, CellsHandled;
    UnfoldPieces(t, s);
    var v := Step(t, s);
    if IsError(v) {
      FlattenNothing();
      assert s[0..] == s;
    } else {
      StepIsInstruction(t, s);
      PiecesAreSound(t, s[v..]);
      var n := Consumed(t, s[v..]);
      FlattenCons(s[..v], Pieces(t, s[v..]));
      assert s[..v] + s[v..][..n] == s[..v + n];
      assert s[v..][n..] == s[v + n..];
    }
  }

  lemma FlattenNothing()
    ensures Flatten([]) == []
  {
  }

  /** Walking a concatenation of instructions finds exactly them, then whatever follows. */
  lemma {:induction false} WalkInvertsConcatenation(t: Tables, xs: seq<seq<byte>>, tail: seq<byte>)
    requires WellFormed(t) && AllInstructions(t, xs)
    ensures Pieces(t, Flatten(xs) + tail) == xs + Pieces(t, tail)
  {
    hide Step, IsInstruction, FixedBodiesFit, EntriesDecide, CellsHandled;
    if xs == [] {
      assert Flatten(xs) + tail == tail;
    } else {
      var more := Flatten(xs[1..]) + tail;
      assert Flatten(xs) + tail == xs[0] + more;
      assert IsInstruction(t, xs[0]);
      StepOfInstruction(t, xs[0], more);
      InstructionIsNoError(t, xs[0]);
      WalkInvertsConcatenation(t, xs[1..], tail);
      assert xs == [xs[0]] + xs[1..];
    }
  }

  lemma InstructionIsNoError(t: Tables, x: seq<byte>)
    requires Indexable(t) && IsInstruction(t, x)
    ensures !IsError(|x|)
  {
  }

  /** A byte string is a concatenation of instructions in at most one way. */
  lemma DecompositionIsUnique(t: Tables, xs: seq<seq<byte>>, ys: seq<seq<byte>>)
    requires WellFormed(t) && AllInstructions(t, xs) && AllInstructions(t, ys)
    ensures Flatten(xs) == Flatten(ys) ==> xs == ys
  {
    hide *;
    WalkInvertsConcatenation(t, xs, []);
    WalkInvertsConcatenation(t, ys, []);
    UnfoldPieces(t, []);
    assert xs + [] == xs && ys + [] == ys;
  }

  /** A walk over a++b is the walk over a, resumed where it stopped. */
  lemma ChunkedWalk(t: Tables, a: seq<byte>, b: seq<byte>)
    requires WellFormed(t)
    ensures Consumed(t, a) <= |a|
    ensures Pieces(t, a + b) == Pieces(t, a) + Pieces(t, (a + b)[Consumed(t, a)..])
    ensures Consumed(t, a + b) == Consumed(t, a) + Consumed(t, (a + b)[Consumed(t, a)..])
    ensures Step(t, a[Consumed(t, a)..]) == UNDEFINED_INSTRUCTION ==> Pieces(t, a + b) == Pieces(t, a)
  {
    hide Pieces, Step, IsInstruction, Flatten, Window, Indexable, PrefixKindsOk, FixedBodiesFit, EntriesDecide, CellsHandled;
    PiecesAreSound(t, a);
    var n := Consumed(t, a);
    var xs := Pieces(t, a);
    var rest := a[n..] + b;
    assert a + b == Flatten(xs) + rest;
    assert (a + b)[n..] == rest;
    WalkInvertsConcatenation(t, xs, rest);
    FlattenConcat(xs, Pieces(t, rest));
    if Step(t, a[n..]) == UNDEFINED_INSTRUCTION {
      UndefinedStays(t, a[n..], b);
      UnfoldPieces(t, rest);
    }
  }

  lemma UndefinedStays(t: Tables, a: seq<byte>, b: seq<byte>)
    requires WellFormed(t) && Step(t, a) == UNDEFINED_INSTRUCTION
    ensures Step(t, a + b) == UNDEFINED_INSTRUCTION
  {
    assert Window(a) <= Window(a + b);
    VerdictAgree(t, Window(a), Window(a + b));
  }

  lemma FlattenConcat(xs: seq<seq<byte>>, ys: seq<seq<byte>>)
    ensures Flatten(xs + ys) == Flatten(xs) + Flatten(ys)
  {
    if xs == [] {
      assert xs + ys == ys;
    } else {
      assert (xs + ys)[1..] == xs[1..] + ys;
    }
  }
}
