/** The LZVN instruction stream: opcode classes, operands, and what a stream of instructions produces. */
module LzvnFormat {
  import opened Bits
  import opened Options
  import opened Lz77

  datatype OpClass = SmlD | MedD | LrgD | PreD | SmlM | LrgM | SmlL | LrgL | Nop | Eos | Udef

  /** The 256-entry dispatch table of lzvn_decode. */
  function Classify(opc: nat): OpClass
    requires opc < 256
  {
    if opc >= 0xF0 then (if opc == 0xF0 then LrgM else SmlM)
    else if opc >= 0xE0 then (if opc == 0xE0 then LrgL else SmlL)
    else if 0xD0 <= opc then Udef
    else if 0xA0 <= opc < 0xC0 then MedD
    else if 0x70 <= opc < 0x80 then Udef
    else if opc % 8 < 6 then SmlD
    else if opc % 8 == 7 then LrgD
    else if opc >= 0x40 then PreD
    else if opc == 6 then Eos
    else if opc == 14 || opc == 22 then Nop
    else Udef
  }

  /** Operands of an instruction: opcode length, literal and match lengths, and the new distance if it sets one. */
  datatype Instr = Instr(len: nat, l: nat, m: nat, d: Option<nat>)

  /** Decodes the opcode at pos; None at end of stream, for undefined opcodes, and when the opcode is cut off. */
  function Parse(src: seq<byte>, pos: nat): (r: Option<Instr>)
    requires pos < |src|
    ensures r.Some? ==> 1 <= r.value.len <= 3 && pos + r.value.len < |src|
  {
    var opc := src[pos] as int;
    match Classify(opc)
    case SmlD =>
      if pos + 2 >= |src| then None
      else Some(Instr(2, opc / 64, opc / 8 % 8 + 3, Some(opc % 8 * 256 + src[pos + 1] as int)))
    case MedD =>
      if pos + 3 >= |src| then None
      else
        var opc23 := src[pos + 1] as int + 256 * src[pos + 2] as int;
        Some(Instr(3, opc / 8 % 4, opc % 8 * 4 + opc23 % 4 + 3, Some(opc23 / 4)))
    case LrgD =>
      if pos + 3 >= |src| then None
      else Some(Instr(3, opc / 64, opc / 8 % 8 + 3, Some(src[pos + 1] as int + 256 * src[pos + 2] as int)))
    case PreD => if pos + 1 >= |src| then None else Some(Instr(1, opc / 64, opc / 8 % 8 + 3, None))
    case SmlM => if pos + 1 >= |src| then None else Some(Instr(1, 0, opc % 16, None))
    case LrgM => if pos + 2 >= |src| then None else Some(Instr(2, 0, src[pos + 1] as int + 16, None))
    case SmlL => if pos + 1 >= |src| then None else Some(Instr(1, opc % 16, 0, None))
    case LrgL => if pos + 2 >= |src| then None else Some(Instr(2, src[pos + 1] as int + 16, 0, None))
    case Nop => if pos + 1 >= |src| then None else Some(Instr(1, 0, 0, None))
    case Eos => None
    case Udef => None
  }

  /** A run either reaches the end-of-stream instruction, or stops before it. */
  datatype Outcome = Ended(out: seq<byte>, pos: nat, d: nat) | Stuck

  /** Runs the instructions from pos, appending to out; d is the current match distance. */
  function Run(src: seq<byte>, pos: nat, out: seq<byte>, d: nat): Outcome
    requires pos <= |src|
    decreases |src| - pos, 1
  {
    if pos == |src| then Stuck
    else if Classify(src[pos] as int) == Eos then
      if |src| - pos < 8 then Stuck else Ended(out, pos + 8, d)
    else
      match Parse(src, pos)
      case None => Stuck
      case Some(i) => Execute(src, pos + i.len, i.l, i.m, if i.d.Some? then i.d.value else d, out)
  }

  /** Copies l literals from pos, then m bytes at distance d, and goes on; one more source byte must follow. */
  function Execute(src: seq<byte>, pos: nat, l: nat, m: nat, d: nat, out: seq<byte>): Outcome
    requires pos <= |src|
    decreases |src| - pos, 2
  {
    if pos + l >= |src| then Stuck
    else
      var out1 := out + src[pos..pos + l];
      if m == 0 then Run(src, pos + l, out1, d)
      else if d == 0 || d > |out1| then Stuck
      else Run(src, pos + l, CopyMatch(out1, d, m), d)
  }

  /** One instruction that is complete and valid. */
  lemma RunOne(src: seq<byte>, pos: nat, out: seq<byte>, d: nat, lits: seq<byte>, d': nat, e: seq<byte>)
    requires pos < |src| && Classify(src[pos] as int) != Eos && Parse(src, pos).Some?
    requires var i := Parse(src, pos).value;
             && pos + i.len + i.l < |src| && lits == src[pos + i.len..pos + i.len + i.l]
             && d' == (if i.d.Some? then i.d.value else d)
             && (if i.m == 0 then e == out + lits else 1 <= d' <= |out + lits| && e == CopyMatch(out + lits, d', i.m))
    ensures var i := Parse(src, pos).value;
            Run(src, pos, out, d) == Run(src, pos + i.len + i.l, e, d')
  {
    hide CopyMatch, Classify, Parse;
  }

  /** The end-of-stream instruction is 8 bytes long. */
  lemma RunEnd(src: seq<byte>, pos: nat, out: seq<byte>, d: nat)
    requires pos + 8 <= |src| && src[pos] as int == 6
    ensures Run(src, pos, out, d) == Ended(out, pos + 8, d)
  {
  }

  /** A run that ends only ever appends to what was there. */
  lemma {:induction false} RunExtends(src: seq<byte>, pos: nat, out: seq<byte>, d: nat)
    requires pos <= |src| && Run(src, pos, out, d).Ended?
    ensures out <= Run(src, pos, out, d).out
    decreases |src| - pos, 1
  {
    hide CopyMatch, Parse;
    if Classify(src[pos] as int) != Eos {
      var i := Parse(src, pos).value;
      ExecuteExtends(src, pos + i.len, i.l, i.m, if i.d.Some? then i.d.value else d, out);
    }
  }

  lemma {:induction false} ExecuteExtends(src: seq<byte>, pos: nat, l: nat, m: nat, d: nat, out: seq<byte>)
    requires pos <= |src| && Execute(src, pos, l, m, d, out).Ended?
    ensures out <= Execute(src, pos, l, m, d, out).out
    ensures |out| + l + m <= |Execute(src, pos, l, m, d, out).out|
    decreases |src| - pos, 2
  {
    hide CopyMatch;
    var out1 := out + src[pos..pos + l];
    RunExtends(src, pos + l, if m == 0 then out1 else CopyMatch(out1, d, m), d);
  }

  // ----- stopping in the middle of an instruction

  /** Part of the literals may be copied first. */
  lemma ExecuteSplitLiteral(src: seq<byte>, pos: nat, l: nat, m: nat, d: nat, out: seq<byte>, j: nat)
    requires pos + l <= |src| && j <= l
    ensures Execute(src, pos + j, l - j, m, d, out + src[pos..pos + j]) == Execute(src, pos, l, m, d, out)
  {
    hide CopyMatch;
    assert out + src[pos..pos + j] + src[pos + j..pos + l] == out + src[pos..pos + l];
  }

  /** Part of the match may be copied first. */
  lemma ExecuteSplitMatch(src: seq<byte>, pos: nat, m: nat, d: nat, out: seq<byte>, j: nat)
    requires pos <= |src| && j < m && 1 <= d <= |out|
    ensures Execute(src, pos, 0, m - j, d, CopyMatch(out, d, j)) == Execute(src, pos, 0, m, d, out)
  {
    hide CopyMatch;
    CopyMatchSplit(out, d, j, m);
    assert src[pos..pos + 0] == [] && out + [] == out && CopyMatch(out, d, j) + [] == CopyMatch(out, d, j);
  }

  // ----- pieces of code

  /** The effect of a piece of code that is executed completely. */
  datatype Effect = Effect(out: seq<byte>, d: nat)

  /** `code` is a whole number of instructions, none of which ends the stream, and leads to `e`. */
  ghost predicate Runs(code: seq<byte>, out: seq<byte>, d: nat, e: Effect) {
    forall src: seq<byte>, pos: nat ::
      pos + |code| < |src| && src[pos..pos + |code|] == code
      ==> Run(src, pos, out, d) == Run(src, pos + |code|, e.out, e.d)
  }

  lemma RunsNothing(out: seq<byte>, d: nat)
    ensures Runs([], out, d, Effect(out, d))
  {
  }

  lemma RunsAt(code: seq<byte>, out: seq<byte>, d: nat, e: Effect, src: seq<byte>, pos: nat)
    requires Runs(code, out, d, e)
    requires pos + |code| < |src| && src[pos..pos + |code|] == code
    ensures Run(src, pos, out, d) == Run(src, pos + |code|, e.out, e.d)
  {
  }

  lemma RunsConcat(a: seq<byte>, b: seq<byte>, out: seq<byte>, d: nat, e: Effect, f: Effect)
    requires Runs(a, out, d, e) && Runs(b, e.out, e.d, f)
    ensures Runs(a + b, out, d, f)
  {
    hide Run;
    forall src: seq<byte>, pos: nat | pos + |a + b| < |src| && src[pos..pos + |a + b|] == a + b
      ensures Run(src, pos, out, d) == Run(src, pos + |a + b|, f.out, f.d)
    {
      TwoSlices(src, pos, a, b);
      RunsAt(a, out, d, e, src, pos);
      RunsAt(b, e.out, e.d, f, src, pos + |a|);
    }
  }

  lemma TwoSlices(src: seq<byte>, pos: nat, a: seq<byte>, b: seq<byte>)
    requires pos + |a + b| <= |src| && src[pos..pos + |a + b|] == a + b
    ensures src[pos..pos + |a|] == a && src[pos + |a|..pos + |a| + |b|] == b
  {
    SliceOfSlice(src, pos, |a + b|, 0, |a|);
    SliceOfSlice(src, pos, |a + b|, |a|, |b|);
  }
}
