/** The LZFSE decoder: a block state machine that can stop when the destination is full and be resumed. */
module LzfseDecoder {
  import opened Bits
  import opened Options
  import opened BitStream
  import opened Fse
  import opened FseCoder
  import opened SymbolTables
  import opened Lz77
  import opened Payloads
  import opened BlockHeader
  import opened StreamFormat
  import opened WideCopy
  import FreqCode
  import LzvnDecoder
  import LzvnFormat

  datatype Status = OK | SRC_EMPTY | DST_FULL | ERROR

  const NO_BLOCK_MAGIC := 0

  // wide copies may read this far behind the literal buffer
  const LITERALS_SLACK := 8

  // ----- stopping in the middle of a triple

  /** Part of the literals may be copied first. */
  lemma ExecuteSplitLiteral(t: Tables, lits: seq<byte>, lit: nat, s: LmdState, l: nat, m: nat, D: int, symbols: nat,
      out: seq<byte>, j: nat)
    requires TablesOk(t) && LmdStateOk(s) && j <= l && lit + l <= |lits| && 1 <= D <= |out| + l
    ensures ExecuteLmd(t, lits, lit + j, s, l - j, m, D, symbols, out + lits[lit..lit + j])
        == ExecuteLmd(t, lits, lit, s, l, m, D, symbols, out)
  {
    hide RunLmds, CopyMatch, TablesOk;
    assert out + lits[lit..lit + j] + lits[lit + j..lit + l] == out + lits[lit..lit + l];
  }

  /** Part of the match may be copied first. */
  lemma ExecuteSplitMatch(t: Tables, lits: seq<byte>, lit: nat, s: LmdState, m: nat, D: int, symbols: nat,
      out: seq<byte>, j: nat)
    requires TablesOk(t) && LmdStateOk(s) && lit <= |lits| && j <= m && 1 <= D <= |out|
    ensures ExecuteLmd(t, lits, lit, s, 0, m - j, D, symbols, CopyMatch(out, D, j))
        == ExecuteLmd(t, lits, lit, s, 0, m, D, symbols, out)
  {
    hide RunLmds, CopyMatch, TablesOk;
    CopyMatchSplit(out, D, j, m);
    assert out + lits[lit..lit + 0] == out && CopyMatch(out, D, j) + lits[lit..lit + 0] == CopyMatch(out, D, j);
  }

  /** One step of a run whose bits suffice, from the three decoded values. */
  lemma RunStep(t: Tables, lits: seq<byte>, lit: nat, s: LmdState, D: int, symbols: nat, out: seq<byte>, l: Decoded,
      m: Decoded, d: Decoded)
    requires TablesOk(t) && LmdStateOk(s) && lit <= |lits| && symbols > 0 && |s.bits| >= REFILL_BITS
    requires l == DecodeValue(t.l, L_MAX_BITS, s.l, s.bits)
    requires m == DecodeValue(t.m, M_MAX_BITS, s.m, l.bits)
    requires d == DecodeValue(t.d, D_MAX_BITS, s.d, m.bits)
    ensures RunLmds(t, lits, lit, s, D, symbols, out)
            == if lit + l.value >= LITERALS_BUFFER then Outcome(out, Error)
               else ExecuteLmd(t, lits, lit, LmdState(l.state, m.state, d.state, d.bits), l.value, m.value,
                               if d.value != 0 then d.value else D, symbols - 1, out)
  {
    hide DecodeValue, ExecuteLmd, ValueTableOk;
  }

  lemma RunTooLong(t: Tables, lits: seq<byte>, lit: nat, s: LmdState, D: int, symbols: nat, out: seq<byte>)
    requires TablesOk(t) && LmdStateOk(s) && lit <= |lits| && symbols > 0
    requires |s.bits| < REFILL_BITS || lit + DecodeValue(t.l, L_MAX_BITS, s.l, s.bits).value >= LITERALS_BUFFER
    ensures RunLmds(t, lits, lit, s, D, symbols, out) == Outcome(out, Error)
  {
    hide DecodeValue, ExecuteLmd, ValueTableOk;
  }

  /** A triple that is executed at once; the first n bytes of the buffer are the literals of the block. */
  lemma WholeTriple(t: Tables, buffer: seq<byte>, n: nat, lit: nat, s: LmdState, l: nat, m: nat, D: int, symbols: nat,
      out: seq<byte>)
    requires TablesOk(t) && LmdStateOk(s) && lit <= n <= |buffer| && lit + l <= |buffer| && 1 <= D <= |out| + l
    ensures var R := ExecuteLmd(t, buffer[..n], lit, s, l, m, D, symbols, out);
            if lit + l > n then R.stop == Undefined
            else R == RunLmds(t, buffer[..n], lit + l, s, D, symbols, CopyMatch(out + buffer[lit..lit + l], D, m))
  {
    hide RunLmds, CopyMatch, TablesOk;
    assert lit + l <= n ==> buffer[..n][lit..lit + l] == buffer[lit..lit + l];
  }

  /** A triple of which j literals are copied. */
  lemma PartOfLiterals(t: Tables, lits: seq<byte>, lit: nat, s: LmdState, l: nat, m: nat, D: int, symbols: nat,
      out: seq<byte>, j: nat)
    requires TablesOk(t) && LmdStateOk(s) && lit <= |lits| && 1 <= D <= |out| + l && j <= l
    ensures var R := ExecuteLmd(t, lits, lit, s, l, m, D, symbols, out);
            if lit + l > |lits| then R.stop == Undefined
            else R == ExecuteLmd(t, lits, lit + j, s, l - j, m, D, symbols, out + lits[lit..lit + j]) && |R.out| >= |out| + l
  {
    hide RunLmds, CopyMatch, TablesOk;
    if lit + l <= |lits| {
      ExecuteSplitLiteral(t, lits, lit, s, l, m, D, symbols, out, j);
      ExecuteLmdExtends(t, lits, lit, s, l, m, D, symbols, out);
    }
  }

  /** A triple without literals of which j match bytes are copied. */
  lemma PartOfMatch(t: Tables, lits: seq<byte>, lit: nat, s: LmdState, m: nat, D: int, symbols: nat, out: seq<byte>,
      j: nat)
    requires TablesOk(t) && LmdStateOk(s) && lit <= |lits| && 1 <= D <= |out| && j <= m
    ensures var R := ExecuteLmd(t, lits, lit, s, 0, m, D, symbols, out);
            && R == ExecuteLmd(t, lits, lit, s, 0, m - j, D, symbols, CopyMatch(out, D, j))
            && (j == m ==> R == RunLmds(t, lits, lit, s, D, symbols, CopyMatch(out, D, m)))
            && |R.out| >= |out| + m
  {
    hide RunLmds, CopyMatch, TablesOk;
    ExecuteSplitMatch(t, lits, lit, s, m, D, symbols, out, j);
    ExecuteLmdExtends(t, lits, lit, s, 0, m, D, symbols, out);
    assert out + lits[lit..lit + 0] == out;
  }

  /** A compressed block and what follows it. */
  ghost function DecodeCompressed(src: seq<byte>, pos: nat, magic: nat, out: seq<byte>): Outcome
    requires pos <= |src| && (magic == COMPRESSEDV1_MAGIC || magic == COMPRESSEDV2_MAGIC)
  {
    match ReadHeader(src, pos, magic)
    case Bad(stop) => Outcome(out, stop)
    case Good(h, size) =>
      match StartBlock(src, pos + size, h)
      case NoBlock(stop) => Outcome(out, stop)
      case BlockStart(t, lits, s) =>
        AfterLmds(src, pos + size + h.nLiteralPayloadBytes + h.nLmdPayloadBytes, RunLmds(t, lits, 0, s, -1,
            h.nMatches, out))
  }

  /** The stream by its first magic number. */
  lemma BeginCases(src: seq<byte>, pos: nat, out: seq<byte>)
    requires pos <= |src|
    ensures var R := DecodeStream(src, pos, out);
            if pos + 4 > |src| then R == Outcome(out, SrcEmpty)
            else
              var magic := Word(src, pos, 4);
              if magic == ENDOFSTREAM_MAGIC then R == Outcome(out, EndOfStream(pos + 4))
              else if magic == UNCOMPRESSED_MAGIC then
                if pos + 8 > |src| then R == Outcome(out, SrcEmpty)
                else R == DecodeRaw(src, pos + 8, Word(src, pos + 4, 4), out)
              else if magic == COMPRESSEDLZVN_MAGIC then
                if pos + 12 > |src| then R == Outcome(out, SrcEmpty)
                else R == DecodeLzvn(src, pos + 12, Word(src, pos + 4, 4), Word(src, pos + 8, 4), 0, out)
              else if magic == COMPRESSEDV1_MAGIC || magic == COMPRESSEDV2_MAGIC then R == DecodeCompressed(src, pos, magic, out)
              else R == Outcome(out, Error)
  {
    hide DecodeRaw, DecodeLzvn, AfterLmds, RunLmds, Word, ReadHeader, StartBlock;
  }

  lemma RawCases(src: seq<byte>, pos: nat, n: nat, out: seq<byte>)
    requires pos <= |src|
    ensures n == 0 ==> DecodeRaw(src, pos, n, out) == DecodeStream(src, pos, out)
    ensures n > 0 && pos == |src| ==> DecodeRaw(src, pos, n, out) == Outcome(out, SrcEmpty)
    ensures n > 0 && pos < |src| ==> |DecodeRaw(src, pos, n, out).out| > |out|
  {
    hide DecodeStream;
    RawExtends(src, pos, n, out);
    assert pos == |src| ==> out + src[pos..] == out;
  }

  /** Part of a raw block may be copied first. */
  lemma RawSplit(src: seq<byte>, pos: nat, n: nat, out: seq<byte>, j: nat)
    requires j <= n && pos + j <= |src|
    ensures DecodeRaw(src, pos + j, n - j, out + src[pos..pos + j]) == DecodeRaw(src, pos, n, out)
  {
    hide DecodeStream;
    if n <= |src| - pos {
      assert out + src[pos..pos + j] + src[pos + j..pos + n] == out + src[pos..pos + n];
      assert n == 0 ==> out + src[pos..pos + n] == out;
    } else {
      assert out + src[pos..pos + j] + src[pos + j..] == out + src[pos..];
    }
  }

  /** An LZVN block whose outcome is defined ends exactly where its header says. */
  lemma LzvnCases(src: seq<byte>, pos: nat, nRaw: nat, nPayload: nat, d: nat, out: seq<byte>)
    requires pos <= |src|
    ensures var R := DecodeLzvn(src, pos, nRaw, nPayload, d, out);
            || R.stop == Undefined
            || (nPayload > 0 && |src| == pos && R == Outcome(out, SrcEmpty))
            || (&& pos + nPayload <= |src| && nRaw > 0 && !(nPayload > 0 && |src| == pos)
                && var r := LzvnFormat.Run(src[..pos + nPayload], pos, out, d);
                && r.Ended? && r.pos == pos + nPayload && |r.out| == |out| + nRaw
                && out <= r.out <= R.out && R == DecodeStream(src, r.pos, r.out))
    ensures nPayload > 0 && |src| == pos ==> DecodeLzvn(src, pos, nRaw, nPayload, d, out) == Outcome(out, SrcEmpty)
  {
    hide DecodeStream, LzvnFormat.Run;
    if pos + nPayload <= |src| {
      var r := LzvnFormat.Run(src[..pos + nPayload], pos, out, d);
      if r.Ended? && r.pos == pos + nPayload {
        LzvnFormat.RunExtends(src[..pos + nPayload], pos, out, d);
        StreamExtends(src, r.pos, r.out);
      }
    }
  }

  class DecoderState {
    const src: seq<byte>
    const dst: array<byte>
    var srcPos: nat
    var dstPos: nat
    var dstEnd: nat
    var endOfStream: bool
    var blockMagic: nat
    // uncompressed block
    var nRawBytes: nat
    // LZVN block
    var lzvnRawBytes: nat
    var lzvnPayloadBytes: nat
    var dPrev: nat
    // compressed block
    var nMatches: nat
    var nLmdPayloadBytes: nat
    var currentLiteral: nat
    var L: nat
    var M: nat
    var D: int
    var lState: nat
    var mState: nat
    var dState: nat
    const lmdIn: InStream
    const lDecoder: array<ValueEntry>
    const mDecoder: array<ValueEntry>
    const dDecoder: array<ValueEntry>
    const literalDecoder: array<DecoderEntry>
    const literals: array<byte>
    // how many literals the current block has set
    ghost var nLits: nat

    ghost predicate Shape() {
      && lDecoder.Length == L_STATES && mDecoder.Length == M_STATES && dDecoder.Length == D_STATES
      && lDecoder != mDecoder
      && literalDecoder.Length == LITERAL_STATES
      && literals.Length == LITERALS_BUFFER + LITERALS_SLACK && literals != dst && lmdIn.src == src
    }

    ghost function Tab(): Tables
      reads lDecoder, mDecoder, dDecoder
    {
      Tables(lDecoder[..], mDecoder[..], dDecoder[..])
    }

    ghost function Out(): seq<byte>
      requires dstPos <= dst.Length
      reads `dstPos, dst
    {
      dst[..dstPos]
    }

    ghost predicate InLmdBlock()
      reads `blockMagic
    {
      blockMagic == COMPRESSEDV1_MAGIC || blockMagic == COMPRESSEDV2_MAGIC
    }

    /** Entries left by earlier blocks, or by none, also keep the states in range. */
    ghost predicate TablesValid()
      reads lDecoder, mDecoder, dDecoder, literalDecoder
    {
      TablesOk(Tab()) && LitTable(literalDecoder[..])
    }

    ghost predicate LmdsValid()
      reads `currentLiteral, `L, `lState, `mState, `dState, `nLits, lmdIn
    {
      && Shape() && lmdIn.Valid() && lState < L_STATES && mState < M_STATES && dState < D_STATES
      && currentLiteral + L < LITERALS_BUFFER && nLits <= LITERALS_PER_BLOCK + 3
    }

    ghost predicate Valid()
      reads this, lmdIn, lDecoder, mDecoder, dDecoder, literalDecoder
    {
      && Shape() && TablesValid()
      && srcPos <= |src| && dstPos <= dstEnd <= dst.Length
      && (InLmdBlock() ==> LmdsValid() && srcPos + nLmdPayloadBytes <= |src| && nLmdPayloadBytes > 0)
    }

    ghost function LmdSt(): LmdState
      requires lmdIn.Valid()
      reads `lState, `mState, `dState, lmdIn
    {
      LmdState(lState, mState, dState, lmdIn.Bits())
    }

    /** What the rest of the block leads to, from the current triple on. */
    ghost function ExecuteRest(): Outcome
      requires LmdsValid() && TablesOk(Tab()) && currentLiteral <= nLits && dstPos <= dst.Length
      reads `currentLiteral, `L, `M, `D, `lState, `mState, `dState, `nMatches, `nLits, `dstPos, lmdIn,
        lDecoder, mDecoder, dDecoder, literals, dst
    {
      ExecuteLmd(Tab(), literals[..nLits], currentLiteral, LmdSt(), L, M, D, nMatches, Out())
    }

    /** The same, from the next triple on. */
    ghost function RunRest(): Outcome
      requires LmdsValid() && TablesOk(Tab()) && currentLiteral <= nLits && dstPos <= dst.Length
      reads `currentLiteral, `L, `D, `lState, `mState, `dState, `nMatches, `nLits, `dstPos, lmdIn, lDecoder,
        mDecoder, dDecoder, literals, dst
    {
      RunLmds(Tab(), literals[..nLits], currentLiteral, LmdSt(), D, nMatches, Out())
    }

    /** The state with all bytes zero, and the two buffers set up. */
    constructor (src: seq<byte>, dst: array<byte>, dstEnd: nat)
      requires dstEnd <= dst.Length
      ensures this.src == src && this.dst == dst && this.dstEnd == dstEnd && Valid()
      ensures srcPos == dstPos == 0 && blockMagic == NO_BLOCK_MAGIC && !endOfStream
      ensures fresh(lmdIn) && fresh(lDecoder) && fresh(mDecoder) && fresh(dDecoder) && fresh(literalDecoder) &&
          fresh(literals)
    {
      this.src, this.dst, this.dstEnd := src, dst, dstEnd;
      srcPos, dstPos, endOfStream, blockMagic := 0, 0, false, NO_BLOCK_MAGIC;
      nRawBytes, lzvnRawBytes, lzvnPayloadBytes, dPrev := 0, 0, 0, 0;
      nMatches, nLmdPayloadBytes, currentLiteral, L, M, D, lState, mState, dState := 0, 0, 0, 0, 0, 0, 0, 0, 0;
      nLits := 0;
      lmdIn := new InStream(src);
      lDecoder := new ValueEntry[L_STATES](_ => ValueEntry(0, 0, 0, 0));
      mDecoder := new ValueEntry[M_STATES](_ => ValueEntry(0, 0, 0, 0));
      dDecoder := new ValueEntry[D_STATES](_ => ValueEntry(0, 0, 0, 0));
      literalDecoder := new DecoderEntry[LITERAL_STATES](_ => DecoderEntry(0, 0, 0));
      literals := new byte[LITERALS_BUFFER + LITERALS_SLACK];
    }

    /** The M and D of a triple, from the bits behind its L. */
    method NextMatch() returns (m: nat, d: nat, ghost dm: Decoded, ghost dd: Decoded)
      requires Shape() && TablesOk(Tab()) && mState < M_STATES && dState < D_STATES
      requires lmdIn.Valid() && lmdIn.accumNbits >= M_MAX_BITS + D_MAX_BITS
      modifies this`mState, this`dState, lmdIn
      ensures lmdIn.Valid() && mState < M_STATES && dState < D_STATES
      ensures |old(lmdIn.Bits())| >= M_MAX_BITS && |dm.bits| >= D_MAX_BITS
      ensures dm == DecodeValue(mDecoder[..], M_MAX_BITS, old(mState), old(lmdIn.Bits()))
      ensures dd == DecodeValue(dDecoder[..], D_MAX_BITS, old(dState), dm.bits)
      ensures dm == Decoded(m, mState, dm.bits) && dd == Decoded(d, dState, lmdIn.Bits())
    {
      hide DecodeValue, ValueTableOk, InStream.Bits;
      m, mState := ValueDecode(mState, mDecoder, lmdIn, M_MAX_BITS);
      dm := Decoded(m, mState, lmdIn.Bits());
      d, dState := ValueDecode(dState, dDecoder, lmdIn, D_MAX_BITS);
      dd := Decoded(d, dState, lmdIn.Bits());
    }

    /** The L of a triple, unless the bits run out or it would overrun the literal buffer. */
    method NextLength() returns (ok: bool, ghost dl: Decoded)
      requires LmdsValid() && TablesOk(Tab()) && L == 0
      modifies this`L, this`lState, lmdIn
      ensures ok ==> LmdsValid() && lmdIn.accumNbits >= M_MAX_BITS + D_MAX_BITS
      ensures ok ==> |old(lmdIn.Bits())| >= REFILL_BITS && dl == DecodeValue(lDecoder[..], L_MAX_BITS, old(lState), old(lmdIn.Bits()))
      ensures ok ==> dl == Decoded(L, lState, lmdIn.Bits())
      ensures !ok ==> |old(lmdIn.Bits())| < REFILL_BITS
                      || currentLiteral + DecodeValue(lDecoder[..], L_MAX_BITS, old(lState),
                          old(lmdIn.Bits())).value >= LITERALS_BUFFER
    {
      hide DecodeValue, ValueTableOk, InStream.Bits;
      dl := Decoded(0, 0, []);
      ok := lmdIn.Flush(0);
      if !ok {
        return;
      }
      L, lState := ValueDecode(lState, lDecoder, lmdIn, L_MAX_BITS);
      dl := Decoded(L, lState, lmdIn.Bits());
      ok := currentLiteral + L < LITERALS_BUFFER;
    }

    /** Decodes the next triple into L, M and D. */
    method NextTriple() returns (ok: bool)
      requires LmdsValid() && TablesOk(Tab()) && nMatches > 0 && L == 0 && dstPos <= dst.Length
      modifies this`L, this`M, this`D, this`lState, this`mState, this`dState, this`nMatches, lmdIn
      ensures ok ==> LmdsValid() && nMatches == old(nMatches) - 1
      ensures old(currentLiteral <= nLits) ==>
          if ok then old(RunRest()) == ExecuteRest() else old(RunRest()) == Outcome(Out(), Error)
    {
      hide DecodeValue, ValueTableOk, TablesOk, ExecuteLmd, RunLmds, InStream.Bits;
      ghost var t, lits, s, D0, n := Tab(), literals[..nLits], LmdSt(), D, nMatches;
      ghost var dl, dm, dd;
      ok, dl := NextLength();
      if !ok {
        if currentLiteral <= nLits {
          RunTooLong(t, lits, currentLiteral, s, D, n, Out());
        }
        return;
      }
      var newD;
      M, newD, dm, dd := NextMatch();
      D := if newD != 0 then newD else D;
      nMatches := nMatches - 1;
      if currentLiteral <= nLits {
        RunStep(t, lits, currentLiteral, s, D0, n, Out(), dl, dm, dd);
      }
    }

    /** Bytes were only added between dstPos and dstEnd. */
    twostate predicate Appended()
      reads `dstPos, `dstEnd, dst
    {
      && old(dstPos) <= dstPos <= dstEnd <= dst.Length && dstEnd == old(dstEnd)
      && (forall k :: 0 <= k < old(dstPos) ==> dst[k] == old(dst[k]))
      && (forall k :: dstEnd <= k < dst.Length ==> dst[k] == old(dst[k]))
    }

    /** The match of a triple away from the end of the destination: one wide copy, several, or byte by byte. */
    method FastMatch(p: nat)
      requires 1 <= D <= p && p + M + 32 <= dstEnd <= dst.Length
      modifies dst
      ensures dst[..p + M] == CopyMatch(old(dst[..p]), D, M)
      ensures UnchangedFrom(dst, dstEnd)
    {
      hide CopyMatch;
      if D >= 8 || D >= M {
        if D >= 8 {
          CopyMatch8(dst, p, D, M, 8);
        } else {
          CopyMatchOnce(dst, p, D, M);
        }
      } else {
        CopyMatchSlow(dst, p, D, M);
      }
    }

    /** Wide copies, for a triple that ends at least 32 bytes before the end of the destination. */
    method FastCopy()
      requires LmdsValid() && 1 <= D <= dstPos + L && dstPos + L + M + 32 <= dstEnd <= dst.Length
      modifies dst
      ensures dst[..dstPos + L + M] == CopyMatch(old(Out()) + literals[currentLiteral..currentLiteral + L], D, M)
      ensures UnchangedFrom(dst, dstEnd) && forall k :: 0 <= k < dstPos ==> dst[k] == old(dst[k])
    {
      hide CopyMatch;
      ghost var lits := literals[currentLiteral..currentLiteral + L];
      CopyLiteral8(dst, dstPos, literals[..], currentLiteral, L, 8);
      assert literals[..][currentLiteral..currentLiteral + L] == lits;
      FastMatch(dstPos + L);
      assert old(Out()) <= dst[..dstPos + L + M];
      assert forall k :: 0 <= k < dstPos ==> old(Out())[k] == dst[..dstPos + L + M][k];
    }

    /** The literals of a triple near the end of the destination, as far as they fit. */
    method SlowLiterals()
      requires LmdsValid() && dstPos <= dstEnd <= dst.Length
      modifies this`L, this`dstPos, this`currentLiteral, dst
      ensures LmdsValid() && Appended() && (L > 0 ==> dstPos == dstEnd)
      ensures currentLiteral + L == old(currentLiteral + L) && currentLiteral >= old(currentLiteral)
      ensures Out() == old(Out()) + literals[old(currentLiteral)..currentLiteral]
    {
      var remaining := dstEnd - dstPos;
      var n := if L <= remaining then L else remaining;
      ghost var lits := literals[currentLiteral..currentLiteral + n];
      CopyLiteralSlow(dst, dstPos, literals[..], currentLiteral, n);
      assert literals[..][currentLiteral..currentLiteral + n] == lits;
      dstPos := dstPos + n;
      currentLiteral := currentLiteral + n;
      L := L - n;
    }

    /** The match of a triple near the end of the destination, as far as it fits. */
    method SlowMatch()
      requires dstPos <= dstEnd <= dst.Length && 1 <= D <= dstPos
      modifies this`M, this`dstPos, dst
      ensures Appended() && M <= old(M) && (M > 0 ==> dstPos == dstEnd)
      ensures Out() == CopyMatch(old(Out()), D, old(M) - M)
    {
      hide CopyMatch;
      var remaining := dstEnd - dstPos;
      var n := if M <= remaining then M else remaining;
      CopyMatchSlow(dst, dstPos, D, n);
      dstPos := dstPos + n;
      M := M - n;
    }

    /** How a block whose rest is R stands after a triple was executed with status st. */
    ghost predicate TripleOutcome(R: Outcome, st: Status)
      requires LmdsValid() && TablesOk(Tab()) && dstPos <= dstEnd <= dst.Length
      reads `currentLiteral, `L, `M, `D, `lState, `mState, `dState, `nMatches, `nLits, `dstPos, `dstEnd,
        lmdIn, lDecoder, mDecoder, dDecoder, literals, dst
    {
      R.stop == Undefined
      || (currentLiteral <= nLits
          && match st
             case OK => R == RunRest()
             case DST_FULL => R == ExecuteRest() && |R.out| > dstEnd
             case ERROR => R == Outcome(Out(), Error)
             case SRC_EMPTY => false)
    }

    /** Executes the triple in L, M and D away from the end of the destination. */
    method FastTriple()
      requires LmdsValid() && TablesOk(Tab()) && 1 <= D <= dstPos + L && dstPos + L + M + 32 <= dstEnd <= dst.Length
      modifies this`L, this`M, this`dstPos, this`currentLiteral, dst
      ensures LmdsValid() && L == M == 0 && Appended()
      ensures old(currentLiteral <= nLits) ==> TripleOutcome(old(ExecuteRest()), OK)
    {
      hide RunLmds, ExecuteLmd, CopyMatch, TablesOk, InStream.Bits, InStream.Valid, Tab;
      if currentLiteral <= nLits {
        WholeTriple(Tab(), literals[..], nLits, currentLiteral, LmdSt(), L, M, D, nMatches, Out());
      }
      FastCopy();
      dstPos := dstPos + L + M;
      currentLiteral := currentLiteral + L;
      L, M := 0, 0;
    }

    /** Executes the triple in L, M and D near the end of the destination, and stops when it is reached. */
    method SlowTriple() returns (st: Status)
      requires LmdsValid() && TablesOk(Tab()) && 1 <= D <= dstPos + L && dstPos <= dstEnd <= dst.Length
      modifies this`L, this`M, this`dstPos, this`currentLiteral, dst
      ensures LmdsValid() && Appended()
      ensures if st == OK then L == M == 0 else st == DST_FULL && dstPos == dstEnd && (L > 0 || M > 0)
      ensures old(currentLiteral <= nLits) ==> TripleOutcome(old(ExecuteRest()), st)
    {
      hide RunLmds, ExecuteLmd, CopyMatch, TablesOk, InStream.Bits;
      ghost var lits, out, lit, l := literals[..nLits], Out(), currentLiteral, L;
      ghost var fits := currentLiteral + L <= nLits;
      ghost var s := LmdSt();
      SlowLiterals();
      if lit <= nLits {
        PartOfLiterals(Tab(), lits, lit, s, l, M, D, nMatches, out, currentLiteral - lit);
        assert fits ==> lits[lit..currentLiteral] == literals[lit..currentLiteral];
      }
      if L > 0 {
        return DST_FULL;
      }
      ghost var middle, m := Out(), M;
      SlowMatch();
      if fits {
        PartOfMatch(Tab(), lits, currentLiteral, s, m, D, nMatches, middle, m - M);
      }
      st := if M > 0 then DST_FULL else OK;
    }

    /** Executes the triple in L, M and D, as far as the destination allows. */
    method ExecuteTriple() returns (st: Status)
      requires LmdsValid() && TablesOk(Tab()) && dstPos <= dstEnd <= dst.Length
      modifies this`L, this`M, this`dstPos, this`currentLiteral, dst
      ensures LmdsValid() && Appended()
      ensures if st == OK then L == M == 0 else st == ERROR || (st == DST_FULL && dstPos == dstEnd && (L > 0 || M > 0))
      ensures old(currentLiteral <= nLits) ==> TripleOutcome(old(ExecuteRest()), st)
    {
      hide RunLmds, CopyMatch, TablesOk, InStream.Bits;
      if D < 1 || D > dstPos + L {
        return ERROR;
      }
      if L + M <= dstEnd - dstPos - 32 {
        FastTriple();
        return OK;
      }
      st := SlowTriple();
    }

    /** What the rest of the block leads to; a triple with a length left is still being executed. */
    ghost function BlockRest(): Outcome
      requires LmdsValid() && TablesOk(Tab()) && currentLiteral <= nLits && dstPos <= dst.Length
      reads `currentLiteral, `L, `M, `D, `lState, `mState, `dState, `nMatches, `nLits, `dstPos, lmdIn,
        lDecoder, mDecoder, dDecoder, literals, dst
    {
      if L > 0 || M > 0 then ExecuteRest() else RunRest()
    }

    /** How the rest R of a block stands when lzfse_decode_lmd returns. */
    ghost predicate BlockOutcome(R: Outcome, st: Status)
      requires st != ERROR ==> LmdsValid()
      requires TablesOk(Tab()) && dstPos <= dstEnd <= dst.Length
      reads `currentLiteral, `L, `M, `D, `lState, `mState, `dState, `nMatches, `nLits, `dstPos, `dstEnd,
        lmdIn, lDecoder, mDecoder, dDecoder, literals, dst
    {
      R.stop == Undefined
      || match st
         case OK => R == Outcome(Out(), Done)
         case DST_FULL => currentLiteral <= nLits && R == BlockRest() && |R.out| > dstEnd
         case ERROR => R == Outcome(Out(), Error)
         case SRC_EMPTY => false
    }

    /** lzfse_decode_lmd. */
    method DecodeLmds() returns (st: Status)
      requires LmdsValid() && TablesOk(Tab()) && dstPos <= dstEnd <= dst.Length
      modifies this`L, this`M, this`D, this`lState, this`mState, this`dState, this`nMatches, this`dstPos,
          this`currentLiteral, lmdIn, dst
      ensures st != ERROR ==> LmdsValid()
      ensures Appended()
      ensures st == OK || st == ERROR || (st == DST_FULL && dstPos == dstEnd)
      ensures old(currentLiteral <= nLits) ==> BlockOutcome(old(BlockRest()), st)
    {
      hide Shape, RunLmds, ExecuteLmd, TablesOk, InStream.Bits, TripleOutcome;
      ghost var tracked, R := currentLiteral <= nLits, Outcome([], Undefined);
      if tracked {
        R := BlockRest();
      }
      if L > 0 || M > 0 {
        st := ExecuteTriple();
        if tracked {
          AfterTriple(this, R, st);
        }
        if st != OK {
          return;
        }
      }
      while nMatches > 0
        invariant LmdsValid() && L == M == 0 && Appended()
        invariant R.stop == Undefined || (currentLiteral <= nLits && R == RunRest())
        decreases nMatches
      {
        var ok := NextTriple();
        if !ok {
          return ERROR;
        }
        ghost var tracks := currentLiteral <= nLits;
        st := ExecuteTriple();
        if tracks {
          AfterTriple(this, R, st);
        }
        if st != OK {
          return;
        }
      }
      if R.stop != Undefined {
        NoMoreTriples(this);
      }
      st := OK;
    }

    /** Reads and checks the header at the current position, packed or plain. */
    method ReadBlockHeader(magic: nat) returns (r: HeaderResult)
      requires srcPos <= |src| && (magic == COMPRESSEDV1_MAGIC || magic == COMPRESSEDV2_MAGIC)
      ensures r == ReadHeader(src, srcPos, magic)
    {
      hide FieldsV2, FreqCode.DecodeTable, DecodeV1, HeaderSizeV2, CheckHeader;
      var b := src[srcPos..];
      if magic == COMPRESSEDV1_MAGIC {
        return if srcPos + V1_SIZE > |src| then Bad(SrcEmpty) else CheckBlock(src, srcPos, DecodeV1(b), V1_SIZE);
      }
      if srcPos + V2_FIXED_SIZE > |src| {
        return Bad(SrcEmpty);
      }
      var size := HeaderSizeV2(b);
      if srcPos + size > |src| {
        return Bad(SrcEmpty);
      }
      var values := new nat[N_FREQS](_ => 0);
      if size < V2_FIXED_SIZE {
        return Bad(Error);
      }
      if size > V2_FIXED_SIZE {
        var ok := FreqCode.DecodeFreqTable(b[V2_FIXED_SIZE..size], values);
        if !ok {
          return Bad(Error);
        }
      } else {
        assert values[..] == seq(N_FREQS, _ => 0);
      }
      r := CheckBlock(src, srcPos, FieldsV2(b, values[..]), size);
    }

    /** Fills the four decoder tables; entries beyond the sum of the frequencies keep their old values. */
    method InitTables(fr: Freqs)
      requires Shape() && TablesValid() && FreqSizesOk(fr)
      requires Sum(fr.l) <= L_STATES && Sum(fr.m) <= M_STATES && Sum(fr.d) <= D_STATES
      requires Sum(fr.literal) <= LITERAL_STATES
      modifies lDecoder, mDecoder, dDecoder, literalDecoder
      ensures TablesValid()
      ensures FullTables(fr) ==>
          Tab() == TablesFor(fr) && literalDecoder[..] == DecoderTable(LITERAL_STATES, fr.literal)
    {
      hide Sum, ValueTableOk, DecoderTableOk, TableIn, DecoderTable, AlphabetOk, IsPow2;
      StatesArePow2();
      AlphabetsOk();
      InitLiteralTable(literalDecoder, fr.literal);
      InitValueTable(lDecoder, L_ALPHABET, fr.l);
      InitValueTable(mDecoder, M_ALPHABET, fr.m);
      InitValueTable(dDecoder, D_ALPHABET, fr.d);
    }

    /** Four literals from one refill of the accumulator, one from each state. */
    method DecodeFour(input: InStream, at: nat, s0: nat, s1: nat, s2: nat, s3: nat) returns (n0: nat, n1: nat,
        n2: nat, n3: nat)
      requires Shape() && LitTable(literalDecoder[..]) && at + 4 <= LITERALS_BUFFER
      requires s0 < LITERAL_STATES && s1 < LITERAL_STATES && s2 < LITERAL_STATES && s3 < LITERAL_STATES
      requires input.Valid() && input.accumNbits >= REFILL_BITS
      modifies input, literals
      ensures input.Valid() && |old(input.Bits())| >= REFILL_BITS
      ensures forall k :: 0 <= k < at ==> literals[k] == old(literals[k])
      ensures var g := DecodeGroup(literalDecoder[..], LitState(s0, s1, s2, s3, old(input.Bits())));
              literals[at..at + 4] == g.lits && LitState(n0, n1, n2, n3, input.Bits()) == g.rest
    {
      hide DecodeSymbol, DecoderTableOk, InStream.Bits;
      AccumulatorBits(input);
      var b0, b1, b2, b3;
      b0, n0 := FseCoder.Decode(s0, literalDecoder, input);
      b1, n1 := FseCoder.Decode(s1, literalDecoder, input);
      b2, n2 := FseCoder.Decode(s2, literalDecoder, input);
      b3, n3 := FseCoder.Decode(s3, literalDecoder, input);
      literals[at], literals[at + 1], literals[at + 2], literals[at + 3] := b0 as byte, b1 as byte, b2 as byte, b3 as byte;
    }

    /** Decodes the literal payload that ends at `end`. */
    method DecodeLiterals(h: Header, end: nat) returns (ok: bool)
      requires Shape() && LitTable(literalDecoder[..]) && end <= |src| && h.nLiterals <= LITERALS_PER_BLOCK
      requires h.s0 < LITERAL_STATES && h.s1 < LITERAL_STATES && h.s2 < LITERAL_STATES && h.s3 < LITERAL_STATES
      modifies literals
      ensures var r := LiteralsOf(literalDecoder[..], h, InitBits(src, end, 0, h.literalBits));
              ok == r.Some? && (ok ==> literals[..|r.value|] == r.value)
    {
      hide DecodeGroup, DecodeLits, DecoderTableOk, InitBits, InStream.Bits;
      var input := new InStream(src);
      ok := input.Init(h.literalBits, end, 0);
      if !ok {
        return;
      }
      ghost var t, all := literalDecoder[..], LiteralsOf(literalDecoder[..], h, InitBits(src, end, 0, h.literalBits));
      var s0: nat, s1: nat, s2: nat, s3: nat := h.s0, h.s1, h.s2, h.s3;
      var i := 0;
      assert literals[..0] == [];
      PrependNothing(all);
      while i < h.nLiterals
        invariant i % 4 == 0 && i <= h.nLiterals + 3 && input.Valid() && literalDecoder[..] == t
        invariant s0 < LITERAL_STATES && s1 < LITERAL_STATES && s2 < LITERAL_STATES && s3 < LITERAL_STATES
        invariant all == Prepend(literals[..i], DecodeLits(t, LitState(s0, s1, s2, s3, input.Bits()), (h.nLiterals + 3) / 4 - i / 4))
      {
        ghost var s, groups := LitState(s0, s1, s2, s3, input.Bits()), (h.nLiterals + 3) / 4 - i / 4;
        OneGroup(t, s, groups);
        ok := input.Flush(0);
        if !ok {
          return;
        }
        ghost var done := literals[..i];
        s0, s1, s2, s3 := DecodeFour(input, i, s0, s1, s2, s3);
        assert literals[..i + 4] == done + literals[i..i + 4];
        PrependTwice(done, literals[i..i + 4], DecodeLits(t, LitState(s0, s1, s2, s3, input.Bits()), groups - 1));
        i := i + 4;
      }
      NoGroups(t, LitState(s0, s1, s2, s3, input.Bits()));
    }

    /** Puts the state of the block at its first triple. */
    method FirstTriple(h: Header, magic: nat)
      modifies this`nLmdPayloadBytes, this`nMatches, this`currentLiteral, this`nLits, this`lState, this`mState, this`dState,
        this`L, this`M, this`D, this`blockMagic
      ensures blockMagic == magic && nLmdPayloadBytes == h.nLmdPayloadBytes && nMatches == h.nMatches
      ensures currentLiteral == L == M == 0 && D == -1 && nLits == (h.nLiterals + 3) / 4 * 4
      ensures lState == h.lState && mState == h.mState && dState == h.dState
    {
      nLmdPayloadBytes, nMatches := h.nLmdPayloadBytes, h.nMatches;
      currentLiteral, nLits := 0, (h.nLiterals + 3) / 4 * 4;
      lState, mState, dState := h.lState, h.mState, h.dState;
      L, M, D := 0, 0, -1;
      blockMagic := magic;
    }

    /** Sets up a compressed block: tables, literals, and the bit stream of the triples. */
    method OpenBlock(h: Header, size: nat, magic: nat) returns (ok: bool)
      requires Shape() && TablesValid() && FreqSizesOk(h.freqs) && CheckHeader(h)
      requires srcPos + size + h.nLiteralPayloadBytes + h.nLmdPayloadBytes <= |src|
      modifies this, lmdIn, lDecoder, mDecoder, dDecoder, literalDecoder, literals
      ensures TablesValid() && unchanged(`dstPos, `dstEnd, `endOfStream)
      ensures srcPos == old(srcPos) + size + h.nLiteralPayloadBytes
      ensures ok ==> LmdsValid() && blockMagic == magic && nLmdPayloadBytes == h.nLmdPayloadBytes > 0
      ensures ok ==> currentLiteral == L == M == 0 && D == -1 && nMatches == h.nMatches
      ensures !ok ==> blockMagic == old(blockMagic)
      ensures var b := StartBlock(src, old(srcPos) + size, h);
              if ok then b == BlockStart(Tab(), literals[..nLits], LmdSt()) || b == NoBlock(Undefined)
              else b == NoBlock(Error) || b == NoBlock(Undefined)
    {
      hide StartBlock, FullTables, TablesFor, TablesOk, LitTable, LiteralsOf, DecoderTable, InitBits, InStream.Bits,
        CheckHeader;
      CheckedHeader(h);
      InitTables(h.freqs);
      StartBlockCases(src, srcPos + size, h, Tab(), literalDecoder[..]);
      srcPos := srcPos + size + h.nLiteralPayloadBytes;
      ok := DecodeLiterals(h, srcPos);
      if !ok {
        return;
      }
      ok := lmdIn.Init(h.lmdBits, srcPos + h.nLmdPayloadBytes, srcPos);
      if ok {
        FirstTriple(h, magic);
      }
    }

    /** Where decoding leads from here when the destination is large enough. */
    ghost function Remaining(): Outcome
      requires Valid() && (InLmdBlock() ==> currentLiteral <= nLits)
      reads this, lmdIn, lDecoder, mDecoder, dDecoder, literalDecoder, literals, dst
    {
      if blockMagic == NO_BLOCK_MAGIC then DecodeStream(src, srcPos, Out())
      else if blockMagic == UNCOMPRESSED_MAGIC then DecodeRaw(src, srcPos, nRawBytes, Out())
      else if blockMagic == COMPRESSEDLZVN_MAGIC then DecodeLzvn(src, srcPos, lzvnRawBytes, lzvnPayloadBytes, dPrev, Out())
      else if InLmdBlock() then AfterLmds(src, srcPos + nLmdPayloadBytes, BlockRest())
      else Outcome(Out(), Error)
    }

    /** The state leads to R, unless R leaves the defined behaviour. */
    ghost predicate Tracks(R: Outcome)
      requires Valid()
      reads this, lmdIn, lDecoder, mDecoder, dDecoder, literalDecoder, literals, dst
    {
      R.stop == Undefined || ((InLmdBlock() ==> currentLiteral <= nLits) && Remaining() == R)
    }

    /** What a status returned for a run that leads to R means. */
    ghost predicate Final(R: Outcome, st: Status)
      reads this, lmdIn, lDecoder, mDecoder, dDecoder, literalDecoder, literals, dst
    {
      R.stop == Undefined
      || (dstPos <= dstEnd <= dst.Length
          && match st
             case OK => endOfStream && R == Outcome(Out(), EndOfStream(srcPos))
             case SRC_EMPTY => R == Outcome(Out(), SrcEmpty)
             case ERROR => R.stop == Error && |R.out| <= dstEnd
             case DST_FULL =>
               && dstPos == dstEnd && |R.out| > dstEnd && Out() <= R.out
               && (blockMagic != COMPRESSEDLZVN_MAGIC ==> Valid() && Tracks(R)))
    }

    /** The next magic number: sets up a block, or ends the stream. */
    method BeginBlock(ghost R: Outcome) returns (st: Option<Status>)
      requires Valid() && blockMagic == NO_BLOCK_MAGIC && Tracks(R)
      modifies this, lmdIn, lDecoder, mDecoder, dDecoder, literalDecoder, literals
      ensures Valid() && Appended()
      ensures st.None? ==> Tracks(R) && srcPos > old(srcPos)
      ensures st.Some? ==> Final(R, st.value)
    {
      hide DecodeStream, DecodeRaw, DecodeLzvn, AfterLmds, TablesValid, LmdsValid, Word, ReadHeader, StartBlock;
      BeginCases(src, srcPos, Out());
      if srcPos + 4 > |src| {
        return Some(SRC_EMPTY);
      }
      var magic := Word(src, srcPos, 4);
      if magic == ENDOFSTREAM_MAGIC {
        srcPos := srcPos + 4;
        endOfStream := true;
        return Some(OK);
      }
      if magic == UNCOMPRESSED_MAGIC {
        if srcPos + 8 > |src| {
          return Some(SRC_EMPTY);
        }
        nRawBytes := Word(src, srcPos + 4, 4);
        srcPos := srcPos + 8;
        blockMagic := magic;
        return None;
      }
      if magic == COMPRESSEDLZVN_MAGIC {
        if srcPos + 12 > |src| {
          return Some(SRC_EMPTY);
        }
        lzvnRawBytes, lzvnPayloadBytes, dPrev := Word(src, srcPos + 4, 4), Word(src, srcPos + 8, 4), 0;
        srcPos := srcPos + 12;
        blockMagic := magic;
        return None;
      }
      if magic == COMPRESSEDV1_MAGIC || magic == COMPRESSEDV2_MAGIC {
        st := BeginCompressed(magic, R);
        return;
      }
      return Some(ERROR);
    }

    /** A compressed block: header, checks and set-up. */
    method BeginCompressed(magic: nat, ghost R: Outcome) returns (st: Option<Status>)
      requires Valid() && blockMagic == NO_BLOCK_MAGIC && (magic == COMPRESSEDV1_MAGIC || magic == COMPRESSEDV2_MAGIC)
      requires R.stop == Undefined || R == DecodeCompressed(src, srcPos, magic, Out())
      modifies this, lmdIn, lDecoder, mDecoder, dDecoder, literalDecoder, literals
      ensures Valid() && Appended()
      ensures st.None? ==> Tracks(R) && srcPos > old(srcPos)
      ensures st.Some? ==> Final(R, st.value)
    {
      hide DecodeStream, DecodeRaw, DecodeLzvn, AfterLmds, TablesValid, ReadHeader, StartBlock, RunLmds;
      var r := ReadBlockHeader(magic);
      if r.Bad? {
        return Some(if r.stop == SrcEmpty then SRC_EMPTY else ERROR);
      }
      var ok := OpenBlock(r.h, r.size, magic);
      st := if ok then None else Some(ERROR);
    }

    /** An uncompressed block: copies what the source and the destination allow. */
    method RawBlock(ghost R: Outcome) returns (st: Option<Status>)
      requires Valid() && blockMagic == UNCOMPRESSED_MAGIC && Tracks(R)
      modifies this, dst
      ensures Valid() && Appended()
      ensures st.None? ==>
          Tracks(R) && (srcPos > old(srcPos) || (srcPos == old(srcPos) && blockMagic == NO_BLOCK_MAGIC))
      ensures st.Some? ==> Final(R, st.value)
    {
      hide DecodeStream, DecodeRaw, DecodeLzvn, AfterLmds, BlockRest, TablesValid, LmdsValid;
      var copySize := nRawBytes;
      RawCases(src, srcPos, nRawBytes, Out());
      if copySize == 0 {
        blockMagic := NO_BLOCK_MAGIC;
        return None;
      }
      if |src| <= srcPos {
        return Some(SRC_EMPTY);
      }
      if copySize > |src| - srcPos {
        copySize := |src| - srcPos;
      }
      if dstEnd <= dstPos {
        RemainingExtends();
        return Some(DST_FULL);
      }
      if copySize > dstEnd - dstPos {
        copySize := dstEnd - dstPos;
      }
      RawSplit(src, srcPos, nRawBytes, Out(), copySize);
      CopyLiteralSlow(dst, dstPos, src, srcPos, copySize);
      srcPos, dstPos := srcPos + copySize, dstPos + copySize;
      nRawBytes := nRawBytes - copySize;
      return None;
    }

    /** A compressed block: decodes triples until the block ends or the destination is full. */
    method LmdBlock(ghost R: Outcome) returns (st: Option<Status>)
      requires Valid() && InLmdBlock() && Tracks(R)
      modifies this, lmdIn, dst
      ensures (st != Some(ERROR) ==> Valid()) && Appended()
      ensures st.None? ==> Tracks(R) && srcPos > old(srcPos) && blockMagic == NO_BLOCK_MAGIC
      ensures st.Some? ==> Final(R, st.value)
    {
      hide DecodeStream, TablesOk, LitTable, BlockRest;
      var s := DecodeLmds();
      if s == OK {
        srcPos := srcPos + nLmdPayloadBytes;
        blockMagic := NO_BLOCK_MAGIC;
        return None;
      }
      if s == DST_FULL && R.stop != Undefined {
        AfterLmdsExtends(src, srcPos + nLmdPayloadBytes, BlockRest());
        RemainingExtends();
      }
      return Some(s);
    }

    /** What was produced stays: the outcome starts with it. */
    lemma RemainingExtends()
      requires Valid() && (InLmdBlock() ==> currentLiteral <= nLits)
      ensures Out() <= Remaining().out
    {
      hide DecodeStream, DecodeRaw, DecodeLzvn, AfterLmds, RunLmds, ExecuteLmd, TablesOk, LitTable;
      if blockMagic == NO_BLOCK_MAGIC {
        StreamExtends(src, srcPos, Out());
      } else if blockMagic == UNCOMPRESSED_MAGIC {
        RawExtends(src, srcPos, nRawBytes, Out());
      } else if blockMagic == COMPRESSEDLZVN_MAGIC {
        LzvnExtends(src, srcPos, lzvnRawBytes, lzvnPayloadBytes, dPrev, Out());
      } else if InLmdBlock() {
        RunLmdsExtends(Tab(), literals[..nLits], currentLiteral, LmdSt(), D, nMatches, Out());
        ExecuteLmdExtends(Tab(), literals[..nLits], currentLiteral, LmdSt(), L, M, D, nMatches, Out());
        AfterLmdsExtends(src, srcPos + nLmdPayloadBytes, BlockRest());
      }
    }

    /** Runs the LZVN decoder within the sizes of the block. */
    method RunLzvn() returns (srcUsed: nat, dstUsed: nat, d: nat, endOfBlock: bool)
      requires srcPos <= |src| && dstPos <= dstEnd <= dst.Length
      modifies dst
      ensures Appended()
      ensures srcPos + srcUsed <= |src| && dstPos + dstUsed <= dstEnd
      ensures srcPos + lzvnPayloadBytes <= |src| && lzvnRawBytes > 0 ==>
                var r := LzvnFormat.Run(src[..srcPos + lzvnPayloadBytes], srcPos, old(Out()), dPrev);
                r.Ended? && r.pos == srcPos + lzvnPayloadBytes && |r.out| == dstPos + lzvnRawBytes ==>
                  if |r.out| <= dstEnd
                  then endOfBlock && srcUsed == lzvnPayloadBytes && dstUsed == lzvnRawBytes && dst[..|r.out|] == r.out
                  else !endOfBlock && srcUsed < lzvnPayloadBytes && dstPos + dstUsed == dstEnd && dst[..dstEnd] <= r.out
    {
      hide LzvnFormat.Run;
      var srcEnd := if |src| - srcPos > lzvnPayloadBytes then srcPos + lzvnPayloadBytes else |src|;
      var end := if dstEnd - dstPos > lzvnRawBytes then dstPos + lzvnRawBytes else dstEnd;
      var s := new LzvnDecoder.DecoderState(src[..srcEnd], srcPos, dst, dstPos, end, dPrev);
      ghost var before := dst[..dstPos];
      s.Decode();
      assert forall k :: 0 <= k < dstPos ==> dst[k] == dst[..dstPos][k] == before[k];
      SuspendedState(s);
      srcUsed, dstUsed, d, endOfBlock := s.srcPos - srcPos, s.dstPos - dstPos, s.dPrev, s.endOfStream;
    }

    /** An LZVN block. */
    method LzvnBlock(ghost R: Outcome) returns (st: Option<Status>)
      requires Valid() && blockMagic == COMPRESSEDLZVN_MAGIC && Tracks(R)
      modifies this, dst
      ensures Valid() && Appended()
      ensures st.None? ==> Tracks(R) && srcPos >= old(srcPos) && blockMagic == NO_BLOCK_MAGIC
      ensures st.Some? ==> Final(R, st.value)
    {
      hide Shape, DecodeStream, DecodeLzvn, DecodeRaw, AfterLmds, BlockRest, LzvnFormat.Run, TablesValid, LmdsValid;
      LzvnCases(src, srcPos, lzvnRawBytes, lzvnPayloadBytes, dPrev, Out());
      if lzvnPayloadBytes > 0 && |src| <= srcPos {
        return Some(SRC_EMPTY);
      }
      var srcUsed, dstUsed, d, endOfBlock := RunLzvn();
      if srcUsed > lzvnPayloadBytes || dstUsed > lzvnRawBytes {
        return Some(ERROR);
      }
      srcPos, dstPos := srcPos + srcUsed, dstPos + dstUsed;
      lzvnPayloadBytes, lzvnRawBytes := lzvnPayloadBytes - srcUsed, lzvnRawBytes - dstUsed;
      dPrev := d;
      if lzvnPayloadBytes == 0 && lzvnRawBytes == 0 && endOfBlock {
        blockMagic := NO_BLOCK_MAGIC;
        return None;
      }
      if lzvnPayloadBytes == 0 || lzvnRawBytes == 0 || endOfBlock {
        return Some(ERROR);
      }
      return Some(DST_FULL);
    }

    /** lzfse_decode, for a state known to lead to R. */
    method DecodeTracked(ghost R: Outcome) returns (st: Status)
      requires Valid() && Tracks(R)
      modifies this, lmdIn, lDecoder, mDecoder, dDecoder, literalDecoder, literals, dst
      ensures (st != ERROR ==> Valid()) && Appended() && Final(R, st)
    {
      hide DecodeStream, TablesValid, LmdsValid, Final, Tracks;
      while true
        invariant Valid() && Appended() && Tracks(R)
        decreases |src| - srcPos, blockMagic != NO_BLOCK_MAGIC
      {
        var r;
        if blockMagic == NO_BLOCK_MAGIC {
          r := BeginBlock(R);
        } else if blockMagic == UNCOMPRESSED_MAGIC {
          r := RawBlock(R);
        } else if blockMagic == COMPRESSEDV1_MAGIC || blockMagic == COMPRESSEDV2_MAGIC {
          r := LmdBlock(R);
        } else if blockMagic == COMPRESSEDLZVN_MAGIC {
          r := LzvnBlock(R);
        } else {
          InvalidMagic(this, R);
          return ERROR;
        }
        if r.Some? {
          return r.value;
        }
      }
    }

    /**
     * lzfse_decode. When the stream has a defined outcome R, the status is the one R stands for if R fits the
     * destination; otherwise the destination is full of the first bytes of R, and the state still leads to R.
     */
    method Decode() returns (st: Status)
      requires Valid()
      modifies this, lmdIn, lDecoder, mDecoder, dDecoder, literalDecoder, literals, dst
      ensures (st != ERROR ==> Valid()) && Appended()
      ensures old(InLmdBlock() ==> currentLiteral <= nLits) ==> Final(old(Remaining()), st)
    {
      hide DecodeStream, TablesValid, LmdsValid, Final, Tracks;
      ghost var R := Outcome([], Undefined);
      if InLmdBlock() ==> currentLiteral <= nLits {
        R := Remaining();
      }
      StartsTracked(this, R);
      st := DecodeTracked(R);
    }

    /** The caller provides more room. */
    method GrowDestination(end: nat, ghost R: Outcome)
      requires Valid() && Tracks(R) && dstEnd <= end <= dst.Length
      modifies this`dstEnd
      ensures Valid() && Tracks(R) && dstEnd == end
    {
      hide DecodeStream, DecodeRaw, DecodeLzvn, AfterLmds, TablesValid, LmdsValid, BlockRest;
      dstEnd := end;
    }
  }

  lemma AccumulatorBits(input: InStream)
    requires input.Valid()
    ensures |input.Bits()| >= input.accumNbits
  {
  }

  lemma CheckedHeader(h: Header)
    requires FreqSizesOk(h.freqs) && CheckHeader(h)
    ensures h.nLiterals <= LITERALS_PER_BLOCK
    ensures h.s0 < LITERAL_STATES && h.s1 < LITERAL_STATES && h.s2 < LITERAL_STATES && h.s3 < LITERAL_STATES
    ensures h.lState < L_STATES && h.mState < M_STATES && h.dState < D_STATES
    ensures Sum(h.freqs.l) <= L_STATES && Sum(h.freqs.m) <= M_STATES && Sum(h.freqs.d) <= D_STATES &&
        Sum(h.freqs.literal) <= LITERAL_STATES
  {
  }

  /** What the set-up of a block leads to, from the tables actually built. */
  lemma StartBlockCases(src: seq<byte>, pos: nat, h: Header, t: Tables, lt: seq<DecoderEntry>)
    requires FreqSizesOk(h.freqs) && CheckHeader(h) && LitTable(lt) && TablesOk(t)
    requires pos + h.nLiteralPayloadBytes + h.nLmdPayloadBytes <= |src|
    requires FullTables(h.freqs) ==> t == TablesFor(h.freqs) && lt == DecoderTable(LITERAL_STATES, h.freqs.literal)
    ensures var litEnd := pos + h.nLiteralPayloadBytes;
            var lits := LiteralsOf(lt, h, InitBits(src, litEnd, 0, h.literalBits));
            var bits := InitBits(src, litEnd + h.nLmdPayloadBytes, litEnd, h.lmdBits);
            var b := StartBlock(src, pos, h);
            || b == NoBlock(Undefined)
            || (if lits.None? || bits.None? then b == NoBlock(Error)
                else b == BlockStart(t, lits.value, LmdState(h.lState, h.mState, h.dState, bits.value)))
    ensures var litEnd := pos + h.nLiteralPayloadBytes;
            var lits := LiteralsOf(lt, h, InitBits(src, litEnd, 0, h.literalBits));
            && (InitBits(src, litEnd + h.nLmdPayloadBytes, litEnd, h.lmdBits).Some? ==> h.nLmdPayloadBytes > 0)
            && (lits.Some? ==> |lits.value| == (h.nLiterals + 3) / 4 * 4)
  {
    hide Sum, DecodeLits, DecoderTable, TablesFor, Unpad;
  }

  /** The literals of a block, when its payload could be opened. */
  ghost function LiteralsOf(t: seq<DecoderEntry>, h: Header, bits: Option<seq<bool>>): Option<seq<byte>>
    requires LitTable(t)
    requires h.s0 < LITERAL_STATES && h.s1 < LITERAL_STATES && h.s2 < LITERAL_STATES && h.s3 < LITERAL_STATES
  {
    match bits
    case None => None
    case Some(b) => DecodeLits(t, LitState(h.s0, h.s1, h.s2, h.s3, b), (h.nLiterals + 3) / 4)
  }

  ghost function Prepend(done: seq<byte>, r: Option<seq<byte>>): Option<seq<byte>> {
    match r
    case None => None
    case Some(lits) => Some(done + lits)
  }

  lemma PrependNothing(r: Option<seq<byte>>)
    ensures Prepend([], r) == r
  {
    if r.Some? {
      assert [] + r.value == r.value;
    }
  }

  lemma PrependTwice(a: seq<byte>, b: seq<byte>, r: Option<seq<byte>>)
    ensures Prepend(a, Prepend(b, r)) == Prepend(a + b, r)
  {
    if r.Some? {
      assert a + (b + r.value) == a + b + r.value;
    }
  }

  lemma OneGroup(t: seq<DecoderEntry>, s: LitState, groups: nat)
    requires LitTable(t) && LitStateOk(s) && groups > 0
    ensures if |s.bits| < REFILL_BITS then DecodeLits(t, s, groups) == None
            else var g := DecodeGroup(t, s); DecodeLits(t, s, groups) == Prepend(g.lits, DecodeLits(t, g.rest, groups - 1))
  {
    hide DecodeSymbol, DecoderTableOk;
  }

  lemma NoGroups(t: seq<DecoderEntry>, s: LitState)
    requires LitTable(t) && LitStateOk(s)
    ensures DecodeLits(t, s, 0) == Some([])
  {
  }

  /** One value decoder table, over valid old entries. */
  method InitValueTable(t: array<ValueEntry>, al: Alphabet, freq: seq<nat>)
    requires AlphabetOk(al) && |freq| == |al.vbits| && IsPow2(al.nstates) && Sum(freq) <= al.nstates == t.Length
    requires ValueTableOk(t[..], al.maxBits)
    modifies t
    ensures ValueTableOk(t[..], al.maxBits)
    ensures Sum(freq) == al.nstates ==> t[..] == TableIn(al, freq)
  {
    hide Sum, ValueEntryOk, ValueTable;
    ghost var t0 := t[..];
    InitValueDecoderTable(al.nstates, freq, al.vbits, al.vbase, t);
    ValueEntriesOk(al.nstates, freq, al.vbits, al.vbase, al.maxBits);
    forall i | 0 <= i < t.Length
      ensures ValueEntryOk(t[..][i], t.Length, al.maxBits)
    {
      if i < Sum(freq) {
        assert t[..][i] == t[..Sum(freq)][i];
      } else {
        assert t[..][i] == t[Sum(freq)..][i - Sum(freq)] == t0[i];
      }
    }
  }

  method InitLiteralTable(t: array<DecoderEntry>, freq: seq<nat>)
    requires |freq| == LITERAL_SYMBOLS && Sum(freq) <= LITERAL_STATES && IsPow2(LITERAL_STATES) && LitTable(t[..])
    modifies t
    ensures LitTable(t[..])
    ensures Sum(freq) == LITERAL_STATES ==> t[..] == DecoderTable(LITERAL_STATES, freq)
  {
    hide Sum, DecoderEntryOk, DecoderTable;
    ghost var t0 := t[..];
    var _ := InitDecoderTable(LITERAL_STATES, freq, t);
    DecoderEntriesOk(LITERAL_STATES, freq);
    forall i | 0 <= i < t.Length
      ensures DecoderEntryOk(t[..][i], t.Length)
    {
      if i < Sum(freq) {
        assert t[..][i] == t[..Sum(freq)][i];
      } else {
        assert t[..][i] == t[Sum(freq)..][i - Sum(freq)] == t0[i];
      }
    }
  }

  lemma StartsTracked(s: DecoderState, R: Outcome)
    requires s.Valid()
    requires R.stop == Undefined || ((s.InLmdBlock() ==> s.currentLiteral <= s.nLits) && s.Remaining() == R)
    ensures s.Tracks(R)
  {
    hide DecodeStream;
  }

  /** A fresh state leads to what the stream stands for. */
  lemma InitiallyTracks(s: DecoderState)
    requires s.Valid() && s.srcPos == s.dstPos == 0 && s.blockMagic == NO_BLOCK_MAGIC
    ensures s.Tracks(DecodeStream(s.src, 0, []))
  {
    hide DecodeStream;
    assert s.dst[..0] == [];
  }

  lemma StillTracks(s: DecoderState, R: Outcome)
    requires s.Valid() && s.Final(R, DST_FULL) && s.blockMagic != COMPRESSEDLZVN_MAGIC
    ensures s.Tracks(R)
  {
    hide DecodeStream;
  }

  lemma InvalidMagic(s: DecoderState, R: Outcome)
    requires s.Valid() && s.Tracks(R) && !s.InLmdBlock()
    requires s.blockMagic != NO_BLOCK_MAGIC && s.blockMagic != UNCOMPRESSED_MAGIC
    requires s.blockMagic != COMPRESSEDLZVN_MAGIC
    ensures s.Final(R, ERROR)
  {
    hide DecodeStream;
  }

  /** What the LZVN decoder holds when it stops in the middle of a run. */
  lemma SuspendedState(d: LzvnDecoder.DecoderState)
    requires d.Valid()
    ensures !d.endOfStream && d.Remaining().Ended? ==> d.srcPos < |d.src| && d.dst[..d.dstPos] <= d.Remaining().out
  {
    hide LzvnFormat.Run, LzvnFormat.Execute;
    if d.Remaining().Ended? {
      if d.L != 0 || d.M != 0 {
        LzvnFormat.ExecuteExtends(d.src, d.srcPos, d.L, d.M, d.D, d.dst[..d.dstPos]);
      } else {
        RunAtEnd(d.src, d.dst[..d.dstPos], d.dPrev);
        LzvnFormat.RunExtends(d.src, d.srcPos, d.dst[..d.dstPos], d.dPrev);
      }
    }
  }

  lemma RunAtEnd(src: seq<byte>, out: seq<byte>, d: nat)
    ensures LzvnFormat.Run(src, |src|, out, d).Stuck?
  {
  }

  lemma AfterTriple(s: DecoderState, R: Outcome, st: Status)
    requires s.LmdsValid() && TablesOk(s.Tab()) && s.dstPos <= s.dstEnd <= s.dst.Length
    requires R.stop == Undefined || s.TripleOutcome(R, st)
    requires if st == OK then s.L == s.M == 0 else st == ERROR || (st == DST_FULL && (s.L > 0 || s.M > 0))
    ensures st == OK ==> R.stop == Undefined || (s.currentLiteral <= s.nLits && R == s.RunRest())
    ensures st != OK ==> s.BlockOutcome(R, st)
  {
    hide RunLmds, ExecuteLmd, TablesOk, InStream.Bits;
  }

  lemma NoMoreTriples(s: DecoderState)
    requires s.LmdsValid() && TablesOk(s.Tab()) && s.currentLiteral <= s.nLits && s.dstPos <= s.dst.Length &&
        s.nMatches == 0
    ensures s.RunRest() == Outcome(s.Out(), Done)
  {
  }
}
