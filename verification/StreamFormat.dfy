/** What a compressed stream means: the output it stands for, block by block, with no limit on the destination. */
module StreamFormat {
  import opened Bits
  import opened Options
  import opened BitStream
  import opened Fse
  import opened SymbolTables
  import opened Lz77
  import opened Payloads
  import opened BlockHeader
  import LzvnFormat

  /**
   * Why decoding stops: a block is done, the stream ends and its end marker was read up to `end`, the source is cut
   * off or damaged. Undefined: the stream makes the decoder use table entries or literals it never set, or an LZVN
   * block does not end within its payload with exactly the bytes its header announces; what the decoder then does is
   * left open here.
   */
  datatype Stop = Done | EndOfStream(end: nat) | SrcEmpty | Error | Undefined

  datatype Outcome = Outcome(out: seq<byte>, stop: Stop)

  // the literal buffer of the decoder, with its padding
  const LITERALS_BUFFER := 40064

  // ----- L, M, D triples

  /** Decodes and executes the remaining triples of a block; D is the current distance, or -1 before the first. */
  function RunLmds(t: Tables, lits: seq<byte>, lit: nat, s: LmdState, D: int, symbols: nat, out: seq<byte>): Outcome
    requires TablesOk(t) && LmdStateOk(s) && lit <= |lits|
    decreases symbols, 0
  {
    if symbols == 0 then Outcome(out, Done)
    else if |s.bits| < REFILL_BITS then Outcome(out, Error)
    else
      var r := DecodeLmd(t, s);
      if lit + r.x.l >= LITERALS_BUFFER then Outcome(out, Error)
      else ExecuteLmd(t, lits, lit, r.rest, r.x.l, r.x.m, if r.x.d != 0 then r.x.d else D, symbols - 1, out)
  }

  /** Executes one triple, then the remaining ones. The first D, -1, is compared as an unsigned 32-bit word. */
  function ExecuteLmd(t: Tables, lits: seq<byte>, lit: nat, s: LmdState, l: nat, m: nat, D: int, symbols: nat,
      out: seq<byte>): Outcome
    requires TablesOk(t) && LmdStateOk(s) && lit <= |lits|
    decreases symbols, 1
  {
    if D < 1 && |out| + l >= 0xffff_ffff then Outcome(out, Undefined)
    else if D < 1 || D > |out| + l then Outcome(out, Error)
    else if lit + l > |lits| then Outcome(out, Undefined)
    else RunLmds(t, lits, lit + l, s, D, symbols, CopyMatch(out + lits[lit..lit + l], D, m))
  }

  // ----- blocks

  /** Every table hands out all of its states. */
  predicate FullTables(fr: Freqs) {
    Sum(fr.l) == L_STATES && Sum(fr.m) == M_STATES && Sum(fr.d) == D_STATES && Sum(fr.literal) == LITERAL_STATES
  }

  datatype HeaderResult = Bad(stop: Stop) | Good(h: Header, size: nat)

  function Int32(v: nat): int {
    if v < 0x8000_0000 then v else v - 0x1_0000_0000
  }

  function Words2(b: seq<byte>, offset: nat, n: nat): (v: seq<nat>)
    requires offset + 2 * n <= |b|
    ensures |v| == n
  {
    seq(n, i requires 0 <= i < n => Word(b, offset + 2 * i, 2))
  }

  const V1_SIZE := 772

  /** A header stored as the plain structure. */
  function DecodeV1(b: seq<byte>): (h: Header)
    requires |b| >= V1_SIZE
    ensures FreqSizesOk(h.freqs)
  {
    Header(Word(b, 4, 4), Word(b, 12, 4), Word(b, 16, 4), Word(b, 20, 4), Word(b, 24, 4),
           Int32(Word(b, 28, 4)), Word(b, 32, 2), Word(b, 34, 2), Word(b, 36, 2), Word(b, 38, 2),
           Int32(Word(b, 40, 4)), Word(b, 44, 2), Word(b, 46, 2), Word(b, 48, 2),
           Freqs(Words2(b, 50, 20), Words2(b, 90, 20), Words2(b, 130, 64), Words2(b, 258, 256)))
  }

  predicate FreqSizesOk(fr: Freqs) {
    |fr.l| == L_SYMBOLS && |fr.m| == M_SYMBOLS && |fr.d| == D_SYMBOLS && |fr.literal| == LITERAL_SYMBOLS
  }

  /** The header at pos, provided the whole block is present and passes the checks. */
  function ReadHeader(src: seq<byte>, pos: nat, magic: nat): (r: HeaderResult)
    requires pos <= |src| && (magic == COMPRESSEDV1_MAGIC || magic == COMPRESSEDV2_MAGIC)
    ensures r.Good? ==> r.size >= V2_FIXED_SIZE && FreqSizesOk(r.h.freqs) && CheckHeader(r.h)
                        && pos + r.size + r.h.nLiteralPayloadBytes + r.h.nLmdPayloadBytes <= |src|
    ensures r.Bad? ==> r.stop == SrcEmpty || r.stop == Error
  {
    if magic == COMPRESSEDV2_MAGIC then
      if pos + V2_FIXED_SIZE > |src| then Bad(SrcEmpty)
      else if pos + HeaderSizeV2(src[pos..]) > |src| then Bad(SrcEmpty)
      else
        match DecodeV2(src[pos..])
        case None => Bad(Error)
        case Some(h) => CheckBlock(src, pos, h, HeaderSizeV2(src[pos..]))
    else
      if pos + V1_SIZE > |src| then Bad(SrcEmpty)
      else CheckBlock(src, pos, DecodeV1(src[pos..]), V1_SIZE)
  }

  function CheckBlock(src: seq<byte>, pos: nat, h: Header, size: nat): HeaderResult
    requires FreqSizesOk(h.freqs)
  {
    if pos + size + h.nLiteralPayloadBytes + h.nLmdPayloadBytes > |src| then Bad(SrcEmpty)
    else if !CheckHeader(h) then Bad(Error)
    else Good(h, size)
  }

  /** Everything the decoder sets up before it executes the triples of a block. */
  datatype BlockStart =
    | NoBlock(stop: Stop)
    | BlockStart(t: Tables, lits: seq<byte>, s: LmdState)

  /** The literals of a block, whose payload ends at litEnd. */
  function StartLiterals(src: seq<byte>, litEnd: nat, h: Header): (r: Option<seq<byte>>)
    requires FreqSizesOk(h.freqs) && CheckHeader(h) && FullTables(h.freqs) && litEnd <= |src|
    ensures r.Some? ==> |r.value| <= LITERALS_PER_BLOCK
  {
    StatesArePow2();
    DecoderTableIsOk(LITERAL_STATES, h.freqs.literal);
    match InitBits(src, litEnd, 0, h.literalBits)
    case None => None
    case Some(bits) =>
      DecodeLits(DecoderTable(LITERAL_STATES, h.freqs.literal), LitState(h.s0, h.s1, h.s2, h.s3, bits), (h.nLiterals + 3) / 4)
  }

  function StartBlock(src: seq<byte>, pos: nat, h: Header): (r: BlockStart)
    requires FreqSizesOk(h.freqs) && CheckHeader(h)
    requires pos + h.nLiteralPayloadBytes + h.nLmdPayloadBytes <= |src|
    ensures r.BlockStart? ==> TablesOk(r.t) && LmdStateOk(r.s) && |r.lits| <= LITERALS_PER_BLOCK
    ensures r.BlockStart? ==> h.nLmdPayloadBytes >= 7
  {
    if !FullTables(h.freqs) then NoBlock(Undefined)
    else
      var litEnd := pos + h.nLiteralPayloadBytes;
      TablesForOk(h.freqs);
      match StartLiterals(src, litEnd, h)
      case None => NoBlock(Error)
      case Some(lits) =>
        match InitBits(src, litEnd + h.nLmdPayloadBytes, litEnd, h.lmdBits)
        case None => NoBlock(Error)
        case Some(lmdBits) => BlockStart(TablesFor(h.freqs), lits, LmdState(h.lState, h.mState, h.dState, lmdBits))
  }

  lemma StatesArePow2()
    ensures IsPow2(L_STATES) && IsPow2(M_STATES) && IsPow2(D_STATES) && IsPow2(LITERAL_STATES)
  {
    Pow2Values();
    Log2Unique(64, 6);
    Log2Unique(256, 8);
    assert Pow2(11) == 2048;
    Log2Unique(1024, 10);
  }

  lemma TablesForOk(fr: Freqs)
    requires FreqSizesOk(fr) && FullTables(fr)
    ensures ValidFreqs(fr) && TablesOk(TablesFor(fr))
  {
    StatesArePow2();
    AlphabetsOk();
    ValueTableIsOk(L_STATES, fr.l, L_EXTRA_BITS, L_BASE_VALUE, L_MAX_BITS);
    ValueTableIsOk(M_STATES, fr.m, M_EXTRA_BITS, M_BASE_VALUE, M_MAX_BITS);
    ValueTableIsOk(D_STATES, fr.d, D_EXTRA_BITS, D_BASE_VALUE, D_MAX_BITS);
  }

  // ----- the stream

  /** The stream from pos on, when `out` has been produced before it. */
  function DecodeStream(src: seq<byte>, pos: nat, out: seq<byte>): Outcome
    requires pos <= |src|
    decreases |src| - pos, 0
  {
    if pos + 4 > |src| then Outcome(out, SrcEmpty)
    else
      var magic := Word(src, pos, 4);
      if magic == ENDOFSTREAM_MAGIC then Outcome(out, EndOfStream(pos + 4))
      else if magic == UNCOMPRESSED_MAGIC then
        if pos + 8 > |src| then Outcome(out, SrcEmpty)
        else DecodeRaw(src, pos + 8, Word(src, pos + 4, 4), out)
      else if magic == COMPRESSEDLZVN_MAGIC then
        if pos + 12 > |src| then Outcome(out, SrcEmpty)
        else DecodeLzvn(src, pos + 12, Word(src, pos + 4, 4), Word(src, pos + 8, 4), 0, out)
      else if magic == COMPRESSEDV1_MAGIC || magic == COMPRESSEDV2_MAGIC then
        match ReadHeader(src, pos, magic)
        case Bad(stop) => Outcome(out, stop)
        case Good(h, size) =>
          match StartBlock(src, pos + size, h)
          case NoBlock(stop) => Outcome(out, stop)
          case BlockStart(t, lits, s) =>
            AfterLmds(src, pos + size + h.nLiteralPayloadBytes + h.nLmdPayloadBytes, RunLmds(t, lits, 0, s, -1,
                h.nMatches, out))
      else Outcome(out, Error)
  }

  /** A raw block with n bytes still to be copied. */
  function DecodeRaw(src: seq<byte>, pos: nat, n: nat, out: seq<byte>): Outcome
    requires pos <= |src|
    decreases |src| - pos, 1
  {
    if n == 0 then DecodeStream(src, pos, out)
    else if |src| - pos < n then Outcome(out + src[pos..], SrcEmpty)
    else DecodeStream(src, pos + n, out + src[pos..pos + n])
  }

  /** An LZVN block whose run must end exactly where the header says, having produced exactly nRaw bytes. */
  function DecodeLzvn(src: seq<byte>, pos: nat, nRaw: nat, nPayload: nat, d: nat, out: seq<byte>): Outcome
    requires pos <= |src|
    decreases |src| - pos, 1
  {
    if nPayload > 0 && |src| == pos then Outcome(out, SrcEmpty)
    else if pos + nPayload > |src| || nRaw == 0 then Outcome(out, Undefined)
    else
      match LzvnFormat.Run(src[..pos + nPayload], pos, out, d)
      case Stuck => Outcome(out, Undefined)
      case Ended(o, p, _) =>
        if p == pos + nPayload && |o| == |out| + nRaw then DecodeStream(src, p, o)
        else Outcome(out, Undefined)
  }

  /** What follows a block whose triples have the given outcome. */
  function AfterLmds(src: seq<byte>, next: nat, r: Outcome): Outcome
    requires next <= |src|
    decreases |src| - next, 1
  {
    if r.stop != Done then r else DecodeStream(src, next, r.out)
  }

  // ----- the output only ever grows

  lemma {:induction false} RunLmdsExtends(t: Tables, lits: seq<byte>, lit: nat, s: LmdState, D: int, symbols: nat,
      out: seq<byte>)
    requires TablesOk(t) && LmdStateOk(s) && lit <= |lits|
    ensures out <= RunLmds(t, lits, lit, s, D, symbols, out).out
    decreases symbols, 0
  {
    hide DecodeLmd, TablesOk, CopyMatch, ExecuteLmd;
    if symbols > 0 && |s.bits| >= REFILL_BITS {
      var r := DecodeLmd(t, s);
      if lit + r.x.l < LITERALS_BUFFER {
        ExecuteLmdExtends(t, lits, lit, r.rest, r.x.l, r.x.m, if r.x.d != 0 then r.x.d else D, symbols - 1, out);
      }
    }
  }

  /** A triple that is executed makes the output longer by its two lengths. */
  lemma {:induction false} ExecuteLmdExtends(t: Tables, lits: seq<byte>, lit: nat, s: LmdState, l: nat, m: nat,
      D: int, symbols: nat, out: seq<byte>)
    requires TablesOk(t) && LmdStateOk(s) && lit <= |lits|
    ensures out <= ExecuteLmd(t, lits, lit, s, l, m, D, symbols, out).out
    ensures 1 <= D <= |out| + l && lit + l <= |lits|
            ==> CopyMatch(out + lits[lit..lit + l], D, m) <= ExecuteLmd(t, lits, lit, s, l, m, D, symbols, out).out
    decreases symbols, 1
  {
    hide RunLmds, TablesOk, CopyMatch;
    if 1 <= D <= |out| + l && lit + l <= |lits| {
      RunLmdsExtends(t, lits, lit + l, s, D, symbols, CopyMatch(out + lits[lit..lit + l], D, m));
    }
  }

  lemma {:induction false} StreamExtends(src: seq<byte>, pos: nat, out: seq<byte>)
    requires pos <= |src|
    ensures out <= DecodeStream(src, pos, out).out
    decreases |src| - pos, 0
  {
    hide ReadHeader, StartBlock, RunLmds, AfterLmds, DecodeRaw, DecodeLzvn, Word, TablesOk;
    if pos + 4 <= |src| {
      var magic := Word(src, pos, 4);
      if magic == UNCOMPRESSED_MAGIC && pos + 8 <= |src| {
        RawExtends(src, pos + 8, Word(src, pos + 4, 4), out);
      } else if magic == COMPRESSEDLZVN_MAGIC && pos + 12 <= |src| {
        LzvnExtends(src, pos + 12, Word(src, pos + 4, 4), Word(src, pos + 8, 4), 0, out);
      } else if magic == COMPRESSEDV1_MAGIC || magic == COMPRESSEDV2_MAGIC {
        var r := ReadHeader(src, pos, magic);
        if r.Good? {
          var b := StartBlock(src, pos + r.size, r.h);
          if b.BlockStart? {
            RunLmdsExtends(b.t, b.lits, 0, b.s, -1, r.h.nMatches, out);
            AfterLmdsExtends(src, pos + r.size + r.h.nLiteralPayloadBytes + r.h.nLmdPayloadBytes,
                             RunLmds(b.t, b.lits, 0, b.s, -1, r.h.nMatches, out));
          }
        }
      }
    }
  }

  lemma {:induction false} RawExtends(src: seq<byte>, pos: nat, n: nat, out: seq<byte>)
    requires pos <= |src|
    ensures out <= DecodeRaw(src, pos, n, out).out
    ensures n <= |src| - pos ==> out + src[pos..pos + n] <= DecodeRaw(src, pos, n, out).out
    decreases |src| - pos, 1
  {
    hide DecodeStream;
    if n == 0 {
      StreamExtends(src, pos, out);
      assert out + src[pos..pos + 0] == out;
    } else if n <= |src| - pos {
      StreamExtends(src, pos + n, out + src[pos..pos + n]);
    }
  }

  lemma {:induction false} LzvnExtends(src: seq<byte>, pos: nat, nRaw: nat, nPayload: nat, d: nat, out: seq<byte>)
    requires pos <= |src|
    ensures out <= DecodeLzvn(src, pos, nRaw, nPayload, d, out).out
    decreases |src| - pos, 1
  {
    hide DecodeStream, LzvnFormat.Run;
    if pos + nPayload <= |src| {
      var r := LzvnFormat.Run(src[..pos + nPayload], pos, out, d);
      if r.Ended? && r.pos == pos + nPayload {
        LzvnFormat.RunExtends(src[..pos + nPayload], pos, out, d);
        StreamExtends(src, r.pos, r.out);
      }
    }
  }

  lemma {:induction false} AfterLmdsExtends(src: seq<byte>, next: nat, r: Outcome)
    requires next <= |src|
    ensures r.out <= AfterLmds(src, next, r).out
    decreases |src| - next, 1
  {
    hide DecodeStream;
    if r.stop == Done {
      StreamExtends(src, next, r.out);
    }
  }

  lemma WordAt(b: seq<byte>, pos: nat, v: nat)
    requires pos + 4 <= |b| && v < 0x1_0000_0000 && b[pos..pos + 4] == LE(v, 4)
    ensures Word(b, pos, 4) == v
  {
    hide LE, FromLE;
    Pow2Words();
    FromLELE(v, 4);
  }

  /** The end marker. */
  lemma EndStep(src: seq<byte>, pos: nat, out: seq<byte>)
    requires pos + 4 <= |src| && Word(src, pos, 4) == ENDOFSTREAM_MAGIC
    ensures DecodeStream(src, pos, out) == Outcome(out, EndOfStream(pos + 4))
  {
    hide ReadHeader, StartBlock, RunLmds, AfterLmds, DecodeRaw, DecodeLzvn, Word;
  }

  /** One compressed block, whose header and set-up are known. */
  lemma DecodeBlockStep(src: seq<byte>, pos: nat, out: seq<byte>, magic: nat, h: Header, size: nat, t: Tables,
      lits: seq<byte>, s: LmdState)
    requires magic == COMPRESSEDV1_MAGIC || magic == COMPRESSEDV2_MAGIC
    requires pos + 4 <= |src| && Word(src, pos, 4) == magic
    requires ReadHeader(src, pos, magic) == Good(h, size)
    requires StartBlock(src, pos + size, h) == BlockStart(t, lits, s)
    ensures DecodeStream(src, pos, out)
            == AfterLmds(src, pos + size + h.nLiteralPayloadBytes + h.nLmdPayloadBytes,
                RunLmds(t, lits, 0, s, -1, h.nMatches, out))
  {
    hide ReadHeader, StartBlock, RunLmds, AfterLmds, Word;
  }

  /** A packed header at pos, with its block complete and passing the checks. */
  lemma ReadPackedHeader(src: seq<byte>, pos: nat, h: Header, tail: seq<byte>)
    requires pos <= |src| && Packable(h) && src[pos..] == EncodeV2(h) + tail
    requires CheckHeader(h) && h.nLiteralPayloadBytes + h.nLmdPayloadBytes <= |tail|
    ensures Word(src, pos, 4) == COMPRESSEDV2_MAGIC
    ensures ReadHeader(src, pos, COMPRESSEDV2_MAGIC) == Good(h, |EncodeV2(h)|)
  {
    hide EncodeV2, DecodeV2, HeaderSizeV2, CheckHeader, Packable, FromLE;
    V2RoundTrip(h, tail);
    assert src[pos..][0..4] == src[pos..pos + 4];
  }
}
