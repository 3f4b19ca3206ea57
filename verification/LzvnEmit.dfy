/** Emission of LZVN instructions, and the proof that the decoder executes them as intended. */
module LzvnEmit {
  import opened Bits
  import opened Options
  import opened Lz77
  import opened LzvnFormat

  function B(v: nat): byte
    requires v < 256
  {
    v as byte
  }

  // ----- single instructions

  lemma CodeAt(code: seq<byte>, src: seq<byte>, pos: nat)
    requires pos + |code| < |src| && src[pos..pos + |code|] == code
    ensures forall i :: 0 <= i < |code| ==> src[pos + i] == code[i]
  {
  }

  /** A literal-only instruction. */
  lemma LiteralRuns(op: seq<byte>, lits: seq<byte>, out: seq<byte>, d: nat)
    requires (1 <= |lits| <= 15 && op == [B(0xE0 + |lits|)]) || (16 <= |lits| <= 271 && op == [B(0xE0), B(|lits| - 16)])
    ensures Runs(op + lits, out, d, Effect(out + lits, d))
  {
    hide Run;
    var code := op + lits;
    forall src: seq<byte>, pos: nat | pos + |code| < |src| && src[pos..pos + |code|] == code
      ensures Run(src, pos, out, d) == Run(src, pos + |code|, out + lits, d)
    {
      CodeAt(code, src, pos);
      TwoSlices(src, pos, op, lits);
      RunOne(src, pos, out, d, lits, d, out + lits);
    }
  }

  /** A match-only instruction. */
  lemma MatchRuns(op: seq<byte>, m: nat, out: seq<byte>, d: nat)
    requires (1 <= m <= 15 && op == [B(0xF0 + m)]) || (16 <= m <= 271 && op == [B(0xF0), B(m - 16)])
    requires 1 <= d <= |out|
    ensures Runs(op, out, d, Effect(CopyMatch(out, d, m), d))
  {
    hide CopyMatch, Run;
    forall src: seq<byte>, pos: nat | pos + |op| < |src| && src[pos..pos + |op|] == op
      ensures Run(src, pos, out, d) == Run(src, pos + |op|, CopyMatch(out, d, m), d)
    {
      CodeAt(op, src, pos);
      assert out + [] == out;
      RunOne(src, pos, out, d, [], d, CopyMatch(out, d, m));
    }
  }

  /** The bytes of an instruction with at most 3 literals, and a match of m bytes at distance d. */
  ghost predicate IsPair(op: seq<byte>, l: nat, m: nat, d: nat, dPrev: nat) {
    l <= 3 && 3 <= m <= 10 - 2 * l && (IsPrevious(op, l, m, d, dPrev) || IsSmall(op, l, m, d) || IsLarge(op, l, m, d))
  }

  ghost predicate IsPrevious(op: seq<byte>, l: nat, m: nat, d: nat, dPrev: nat)
    requires l <= 3 && 3 <= m <= 10 - 2 * l
  {
    d == dPrev && l > 0 && op == [B(l * 64 + (m - 3) * 8 + 6)]
  }

  ghost predicate IsSmall(op: seq<byte>, l: nat, m: nat, d: nat)
    requires l <= 3 && 3 <= m <= 10 - 2 * l
  {
    d < 1536 && op == [B(d / 256 + l * 64 + (m - 3) * 8), B(d % 256)]
  }

  ghost predicate IsLarge(op: seq<byte>, l: nat, m: nat, d: nat)
    requires l <= 3 && 3 <= m <= 10 - 2 * l
  {
    d < 0x1_0000 && op == [B(l * 64 + (m - 3) * 8 + 7), B(d % 256), B(d / 256)]
  }

  ghost predicate IsMedium(op: seq<byte>, l: nat, m: nat, d: nat) {
    l <= 3 && 3 <= m <= 34 && d < 0x4000 &&
    var opc23 := d * 4 + (m - 3) % 4;
    op == [B(0xA0 + (m - 3) / 4 + l * 8), B(opc23 % 256), B(opc23 / 256)]
  }

  /** Small, large and previous distances: the opcode falls in the intended class, with the intended operands. */
  lemma PairParses(op: seq<byte>, l: nat, m: nat, d: nat, dPrev: nat, src: seq<byte>, pos: nat)
    requires IsPair(op, l, m, d, dPrev)
    requires pos + |op| + l < |src| && src[pos..pos + |op|] == op
    ensures Classify(src[pos] as int) != Eos
    ensures Parse(src, pos).Some?
    ensures var i := Parse(src, pos).value;
            i.len == |op| && i.l == l && i.m == m && (if i.d.Some? then i.d.value == d else d == dPrev)
  {
    hide Classify;
    CodeAt(op, src, pos);
    if IsPrevious(op, l, m, d, dPrev) {
      PairByte(l, m - 3, 6);
    } else if IsSmall(op, l, m, d) {
      PairByte(l, m - 3, d / 256);
    } else {
      PairByte(l, m - 3, 7);
    }
  }

  /** An opcode LLMMM... with short enough M is not one of the reserved rows, so its low bits choose the class. */
  lemma PairByte(l: nat, x: nat, low: nat)
    requires l <= 3 && x <= 7 - 2 * l && low < 8
    ensures var opc := l * 64 + x * 8 + low;
            && opc < 256 && opc / 64 == l && opc / 8 % 8 == x && opc % 8 == low
            && (low < 6 ==> Classify(opc) == SmlD)
            && (low == 7 ==> Classify(opc) == LrgD)
            && (low == 6 && l > 0 ==> Classify(opc) == PreD)
  {
  }

  lemma MediumParses(op: seq<byte>, l: nat, m: nat, d: nat, src: seq<byte>, pos: nat)
    requires IsMedium(op, l, m, d)
    requires pos + |op| + l < |src| && src[pos..pos + |op|] == op
    ensures Classify(src[pos] as int) != Eos
    ensures Parse(src, pos) == Some(Instr(|op|, l, m, Some(d)))
  {
    CodeAt(op, src, pos);
    var x := m - 3;
    var opc := 0xA0 + x / 4 + l * 8;
    assert opc / 8 % 4 == l && opc % 8 == x / 4;
    var opc23 := d * 4 + x % 4;
    assert opc23 % 256 + 256 * (opc23 / 256) == opc23;
  }

  lemma PairRuns(op: seq<byte>, lits: seq<byte>, m: nat, d: nat, out: seq<byte>, dPrev: nat)
    requires IsPair(op, |lits|, m, d, dPrev) || IsMedium(op, |lits|, m, d)
    requires 1 <= d <= |out| + |lits|
    ensures Runs(op + lits, out, dPrev, Effect(CopyMatch(out + lits, d, m), d))
  {
    hide CopyMatch, IsPair, IsMedium, Run;
    var code := op + lits;
    forall src: seq<byte>, pos: nat | pos + |code| < |src| && src[pos..pos + |code|] == code
      ensures Run(src, pos, out, dPrev) == Run(src, pos + |code|, CopyMatch(out + lits, d, m), d)
    {
      PairRunsAt(op, lits, m, d, out, dPrev, src, pos);
    }
  }

  lemma PairRunsAt(op: seq<byte>, lits: seq<byte>, m: nat, d: nat, out: seq<byte>, dPrev: nat, src: seq<byte>, pos: nat)
    requires IsPair(op, |lits|, m, d, dPrev) || IsMedium(op, |lits|, m, d)
    requires 1 <= d <= |out| + |lits|
    requires pos + |op + lits| < |src| && src[pos..pos + |op + lits|] == op + lits
    ensures Run(src, pos, out, dPrev) == Run(src, pos + |op + lits|, CopyMatch(out + lits, d, m), d)
  {
    hide CopyMatch, Parse, IsPair, IsMedium, Classify, Run;
    TwoSlices(src, pos, op, lits);
    if IsPair(op, |lits|, m, d, dPrev) {
      PairParses(op, |lits|, m, d, dPrev, src, pos);
    } else {
      MediumParses(op, |lits|, m, d, src, pos);
    }
    PairMatches(op, |lits|, m, d, dPrev);
    RunOne(src, pos, out, dPrev, lits, d, CopyMatch(out + lits, d, m));
  }

  lemma PairMatches(op: seq<byte>, l: nat, m: nat, d: nat, dPrev: nat)
    requires IsPair(op, l, m, d, dPrev) || IsMedium(op, l, m, d)
    ensures m > 0
  {
  }
}
