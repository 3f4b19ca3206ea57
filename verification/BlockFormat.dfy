/** The bytes of a compressed block, and the proof that they decode to what its triples stand for. */
module BlockFormat {
  import opened Bits
  import opened Options
  import opened BitStream
  import opened Fse
  import opened SymbolTables
  import opened Lz77
  import opened Payloads
  import opened BlockHeader
  import opened StreamFormat

  /** A triple as the front end hands it over: in range, with a real distance. */
  ghost predicate InRange(x: LMD) {
    x.l <= MAX_L_VALUE && x.m <= MAX_M_VALUE && 1 <= x.d <= MAX_D_VALUE
  }

  /** Contents a block can hold with the given frequency tables; lits is padded to a multiple of four. */
  ghost predicate BlockOk(fr: Freqs, lmds: seq<LMD>, lits: seq<byte>) {
    && ValidFreqs(fr)
    && |lits| % 4 == 0 && |lits| <= LITERALS_PER_BLOCK && LitsCodable(fr.literal, lits)
    && |lmds| <= MATCHES_PER_BLOCK && LmdsCodable(fr, DeltaDistances(lmds, 0))
    && forall i :: 0 <= i < |lmds| ==> InRange(lmds[i])
  }

  function Zeros8(): (b: seq<byte>)
    ensures |b| == 8
  {
    seq(8, _ => 0 as byte)
  }

  function LitPayload(fr: Freqs, lits: seq<byte>): (b: seq<byte>)
    requires |lits| % 4 == 0 && LitsCodable(fr.literal, lits)
  {
    PackBits(EncodeLits(fr.literal, lits, []).bits)
  }

  function LmdPayload(fr: Freqs, lmds: seq<LMD>): (b: seq<byte>)
    requires LmdsCodable(fr, DeltaDistances(lmds, 0))
    ensures |b| >= 8
  {
    Zeros8() + PackBits(EncodeLmds(fr, DeltaDistances(lmds, 0), []).bits)
  }

  /** The header that goes with the payloads. */
  function BlockHeaderFor(fr: Freqs, lmds: seq<LMD>, lits: seq<byte>): (h: Header)
    requires BlockOk(fr, lmds, lits)
  {
    var lit := EncodeLits(fr.literal, lits, []);
    var lmd := EncodeLmds(fr, DeltaDistances(lmds, 0), []);
    Header(
      LitSum(lmds) + MatchSum(lmds), |lits|, |lmds|, |LitPayload(fr, lits)|, |LmdPayload(fr, lmds)|,
      |lit.bits| - 8 * |LitPayload(fr, lits)|, lit.s0, lit.s1, lit.s2, lit.s3,
      |lmd.bits| + 64 - 8 * |LmdPayload(fr, lmds)|, lmd.l, lmd.m, lmd.d,
      fr)
  }

  /** A whole block: packed header, literals, then the triples behind 8 padding bytes. */
  function EncodeBlock(fr: Freqs, lmds: seq<LMD>, lits: seq<byte>): (b: seq<byte>)
    requires BlockOk(fr, lmds, lits)
  {
    HeaderFits(fr, lmds, lits);
    EncodeV2(BlockHeaderFor(fr, lmds, lits)) + LitPayload(fr, lits) + LmdPayload(fr, lmds)
  }

  lemma {:induction false} SumsBounded(lmds: seq<LMD>)
    requires forall i :: 0 <= i < |lmds| ==> InRange(lmds[i])
    ensures LitSum(lmds) <= MAX_L_VALUE * |lmds| && MatchSum(lmds) <= MAX_M_VALUE * |lmds|
  {
    if lmds != [] {
      SumsBounded(lmds[1..]);
    }
  }

  lemma FreqsAreSmall(fr: Freqs)
    requires ValidFreqs(fr)
    ensures FreqsPackable(fr)
  {
    forall i | 0 <= i < N_FREQS
      ensures JoinFreqs(fr)[i] <= 1024
    {
      if i < 20 {
        FreqAtMostSum(fr.l, i);
      } else if i < 40 {
        FreqAtMostSum(fr.m, i - 20);
      } else if i < 104 {
        FreqAtMostSum(fr.d, i - 40);
      } else {
        FreqAtMostSum(fr.literal, i - 104);
      }
    }
  }

  lemma FreqAtMostSum(f: seq<nat>, i: nat)
    requires i < |f|
    ensures f[i] <= Sum(f)
  {
    OffsetBound(f, i);
  }

  /** The sizes reached by a full block fit their 20-bit fields, and the header passes the decoder's checks. */
  lemma HeaderFits(fr: Freqs, lmds: seq<LMD>, lits: seq<byte>)
    requires BlockOk(fr, lmds, lits)
    ensures Packable(BlockHeaderFor(fr, lmds, lits)) && CheckHeader(BlockHeaderFor(fr, lmds, lits))
    ensures |LitPayload(fr, lits)| <= 50_000 && |LmdPayload(fr, lmds)| <= 67_508
  {
    hide EncodeLits, EncodeLmds, PackBits, ValidFreq, LitsCodable, LmdsCodable;
    SumsBounded(lmds);
    FreqsAreSmall(fr);
    TableSums(fr);
  }

  lemma TableSums(fr: Freqs)
    requires ValidFreqs(fr)
    ensures Sum(fr.l) == L_STATES && Sum(fr.m) == M_STATES && Sum(fr.d) == D_STATES && Sum(fr.literal) == LITERAL_STATES
  {
  }

  /** The header announces exactly the number of bytes that the block appends. */
  lemma RawBytesAnnounced(fr: Freqs, lmds: seq<LMD>, lits: seq<byte>, out: seq<byte>)
    requires BlockOk(fr, lmds, lits) && Expandable(|out|, |lits|, lmds)
    ensures BlockHeaderFor(fr, lmds, lits).nRawBytes == |Expand(out, lits, lmds)| - |out|
  {
    hide EncodeLits, EncodeLmds, PackBits, BlockOk, Expand, LitPayload, LmdPayload, LitSum, MatchSum;
    ExpandLength(out, lits, lmds);
  }

  // ----- reading the payloads below other bits

  lemma {:induction false} LitsBelow(freq: seq<nat>, lits: seq<byte>, below: seq<bool>)
    requires |lits| % 4 == 0 && LitsCodable(freq, lits)
    ensures var a, b := EncodeLits(freq, lits, []), EncodeLits(freq, lits, below);
            b == a.(bits := below + a.bits)
  {
    hide EncodeGroup;
    if lits == [] {
      assert below + [] == below;
    } else {
      LitsBelow(freq, lits[4..], below);
      GroupBelow(freq, lits[..4], EncodeLits(freq, lits[4..], []), below);
    }
  }

  lemma GroupBelow(freq: seq<nat>, g: seq<byte>, s: LitState, below: seq<bool>)
    requires |g| == 4 && LitsCodable(freq, g) && LitStateOk(s)
    ensures var a, b := EncodeGroup(freq, g, s), EncodeGroup(freq, g, s.(bits := below + s.bits));
            b == a.(bits := below + a.bits)
  {
    hide EncodeSymbol;
    var c3 := EncodeLit(freq, g[3], s.s3, s.bits);
    var c2 := EncodeLit(freq, g[2], s.s2, c3.bits);
    var c1 := EncodeLit(freq, g[1], s.s1, c2.bits);
    SymbolBelow(LITERAL_STATES, freq, g[3] as int, s.s3, s.bits, below);
    SymbolBelow(LITERAL_STATES, freq, g[2] as int, s.s2, c3.bits, below);
    SymbolBelow(LITERAL_STATES, freq, g[1] as int, s.s1, c2.bits, below);
    SymbolBelow(LITERAL_STATES, freq, g[0] as int, s.s0, c1.bits, below);
  }

  lemma SymbolBelow(nstates: nat, freq: seq<nat>, sym: nat, s: nat, bits: seq<bool>, below: seq<bool>)
    requires CanEncode(nstates, freq, sym, s)
    ensures var a, b := EncodeSymbol(nstates, freq, sym, s, bits), EncodeSymbol(nstates, freq, sym, s, below + bits);
            b == a.(bits := below + a.bits)
  {
    hide ToBits, Mask, StepBits, StepState;
    OffsetBound(freq, sym);
    StepRange(nstates, freq[sym], s);
    var nbits := StepBits(nstates, freq[sym], s);
    assert (below + bits) + ToBits(Mask(s, nbits), nbits) == below + (bits + ToBits(Mask(s, nbits), nbits));
  }

  lemma InBelow(al: Alphabet, freq: seq<nat>, value: nat, sym: nat, s: nat, bits: seq<bool>, below: seq<bool>)
    requires AlphabetOk(al) && ValueCodable(al, freq, value, sym) && s < al.nstates
    ensures var a, b := EncodeIn(al, freq, value, sym, s, bits), EncodeIn(al, freq, value, sym, s, below + bits);
            b == a.(bits := below + a.bits)
  {
    hide ToBits, EncodeSymbol;
    var extra := ToBits(value - al.vbase[sym], al.vbits[sym]);
    assert (below + bits) + extra == below + (bits + extra);
    SymbolBelow(al.nstates, freq, sym, s, bits + extra, below);
  }

  lemma LmdBelow(fr: Freqs, x: LMD, s: LmdState, below: seq<bool>)
    requires LmdCodable(fr, x) && LmdStateOk(s)
    ensures var a, b := EncodeLmd(fr, x, s), EncodeLmd(fr, x, s.(bits := below + s.bits));
            b == a.(bits := below + a.bits)
  {
    hide EncodeIn, ValueCodable, AlphabetOk;
    AlphabetsOk();
    var d := EncodeIn(D_ALPHABET, fr.d, x.d, DSymbol(x.d), s.d, s.bits);
    var m := EncodeIn(M_ALPHABET, fr.m, x.m, MSymbol(x.m), s.m, d.bits);
    InBelow(D_ALPHABET, fr.d, x.d, DSymbol(x.d), s.d, s.bits, below);
    InBelow(M_ALPHABET, fr.m, x.m, MSymbol(x.m), s.m, d.bits, below);
    InBelow(L_ALPHABET, fr.l, x.l, LSymbol(x.l), s.l, m.bits, below);
  }

  lemma {:induction false} LmdsBelow(fr: Freqs, lmds: seq<LMD>, below: seq<bool>)
    requires LmdsCodable(fr, lmds)
    ensures var a, b := EncodeLmds(fr, lmds, []), EncodeLmds(fr, lmds, below);
            b == a.(bits := below + a.bits)
  {
    hide LmdCodable, EncodeLmd;
    if lmds == [] {
      assert below + [] == below;
    } else {
      LmdsBelow(fr, lmds[1..], below);
      LmdBelow(fr, lmds[0], EncodeLmds(fr, lmds[1..], []), below);
    }
  }

  // ----- executing decoded triples

  /** Running the decoder over encoded triples expands the triples with their distances resolved. */
  lemma {:induction false} RunEncodedLmds(fr: Freqs, lmds: seq<LMD>, lits: seq<byte>, lit: nat, prev: nat,
      below: seq<bool>, out: seq<byte>)
    requires ValidFreqs(fr) && LmdsCodable(fr, lmds) && |below| >= REFILL_BITS
    requires lit <= |lits| <= LITERALS_PER_BLOCK
    requires Expandable(|out|, |lits| - lit, ResolveDistances(lmds, prev))
    ensures TablesOk(TablesFor(fr))
    ensures RunLmds(TablesFor(fr), lits, lit, EncodeLmds(fr, lmds, below), if prev == 0 then -1 else prev, |lmds|, out)
            == Outcome(Expand(out, lits[lit..], ResolveDistances(lmds, prev)), Done)
    decreases |lmds|
  {
    hide LmdCodable, EncodeLmd, DecodeLmd, CopyMatch, TablesFor, ValidFreqs, TablesOk;
    if lmds == [] {
      TablesForOk'(fr);
    } else {
      var x := lmds[0];
      var s := EncodeLmds(fr, lmds[1..], below);
      LmdRoundTrip(fr, x, s);
      var resolved := ResolveDistances(lmds, prev);
      var d := resolved[0].d;
      var out' := CopyMatch(out + lits[lit..lit + x.l], d, x.m);
      assert resolved[1..] == ResolveDistances(lmds[1..], d);
      assert lits[lit..][..x.l] == lits[lit..lit + x.l] && lits[lit..][x.l..] == lits[lit + x.l..];
      RunEncodedLmds(fr, lmds[1..], lits, lit + x.l, d, below, out');
    }
  }

  lemma TablesForOk'(fr: Freqs)
    requires ValidFreqs(fr)
    ensures TablesOk(TablesFor(fr))
  {
    TablesForOk(fr);
  }

  // ----- the block round trip

  /** The decoder sets up exactly the tables, literals and states of the encoder. */
  lemma StartEncodedBlock(src: seq<byte>, pos: nat, fr: Freqs, lmds: seq<LMD>, lits: seq<byte>)
    requires BlockOk(fr, lmds, lits)
    requires 8 <= pos && pos + |LitPayload(fr, lits)| + |LmdPayload(fr, lmds)| <= |src|
    requires src[pos..pos + |LitPayload(fr, lits)|] == LitPayload(fr, lits)
    requires var p := pos + |LitPayload(fr, lits)|; src[p..p + |LmdPayload(fr, lmds)|] == LmdPayload(fr, lmds)
    ensures CheckHeader(BlockHeaderFor(fr, lmds, lits))
    ensures var lmdStart := pos + |LitPayload(fr, lits)| + 8;
            StartBlock(src, pos, BlockHeaderFor(fr, lmds, lits))
            == BlockStart(TablesFor(fr), lits, EncodeLmds(fr, DeltaDistances(lmds, 0), BytesToBits(src[..lmdStart])))
  {
    hide EncodeLits, EncodeLmds, PackBits, LitsCodable, LmdsCodable, BytesToBits, InitBits, StartLiterals, TablesFor,
      CheckHeader;
    HeaderFits(fr, lmds, lits);
    TableSums(fr);
    StartEncodedLiterals(src, pos, fr, lmds, lits);
    var litEnd := pos + |LitPayload(fr, lits)|;
    var lmdStart := litEnd + 8;
    var lmdEnd := litEnd + |LmdPayload(fr, lmds)|;
    var delta := DeltaDistances(lmds, 0);
    assert src[lmdStart..lmdEnd] == src[litEnd..lmdEnd][8..] == PackBits(EncodeLmds(fr, delta, []).bits);
    InitBitsOfPacked(src, lmdStart, lmdEnd, litEnd, EncodeLmds(fr, delta, []).bits);
    LmdsBelow(fr, delta, BytesToBits(src[..lmdStart]));
  }

  /** The literals are those of the encoder. */
  lemma StartEncodedLiterals(src: seq<byte>, pos: nat, fr: Freqs, lmds: seq<LMD>, lits: seq<byte>)
    requires BlockOk(fr, lmds, lits)
    requires 8 <= pos && pos + |LitPayload(fr, lits)| <= |src|
    requires src[pos..pos + |LitPayload(fr, lits)|] == LitPayload(fr, lits)
    ensures var h := BlockHeaderFor(fr, lmds, lits);
            CheckHeader(h) && FullTables(h.freqs) && StartLiterals(src, pos + |LitPayload(fr, lits)|, h) == Some(lits)
  {
    hide EncodeLits, EncodeLmds, PackBits, LitsCodable, LmdsCodable, BytesToBits, InitBits, DecodeLits, DecoderTable,
      CheckHeader;
    HeaderFits(fr, lmds, lits);
    TableSums(fr);
    InitBitsOfPacked(src, pos, pos + |LitPayload(fr, lits)|, 0, EncodeLits(fr.literal, lits, []).bits);
    LitsBelow(fr.literal, lits, BytesToBits(src[..pos]));
    LitsRoundTrip(fr.literal, lits, BytesToBits(src[..pos]));
  }

  lemma ThreeParts(src: seq<byte>, pos: nat, a: seq<byte>, b: seq<byte>, c: seq<byte>)
    requires pos + |a + b + c| <= |src| && src[pos..pos + |a + b + c|] == a + b + c
    ensures var rest := src[pos + |a + b + c|..];
            && src[pos..] == a + (b + c + rest)
            && src[pos + |a|..pos + |a| + |b|] == b
            && src[pos + |a| + |b|..pos + |a| + |b| + |c|] == c
  {
    var all := a + b + c;
    assert all[|a|..|a| + |b|] == b && all[|a| + |b|..] == c;
    assert src[pos..] == all + src[pos + |all|..];
  }

  lemma BlockParts(fr: Freqs, lmds: seq<LMD>, lits: seq<byte>)
    requires BlockOk(fr, lmds, lits)
    ensures LitsCodable(fr.literal, lits) && LmdsCodable(fr, DeltaDistances(lmds, 0)) && |lits| % 4 == 0
    ensures FreqSizesOk(fr)
    ensures var h := BlockHeaderFor(fr, lmds, lits);
            && Packable(h) && CheckHeader(h) && h.nMatches == |lmds|
            && h.nLiteralPayloadBytes == |LitPayload(fr, lits)| && h.nLmdPayloadBytes == |LmdPayload(fr, lmds)|
            && EncodeBlock(fr, lmds, lits) == EncodeV2(h) + LitPayload(fr, lits) + LmdPayload(fr, lmds)
  {
    hide LitsCodable, LmdsCodable, Packable, EncodeV2, CheckHeader, LitPayload, LmdPayload, DeltaDistances;
    HeaderFits(fr, lmds, lits);
  }

  /** The decoder accepts the header at pos and sets up the encoder's tables, literals and final states. */
  lemma BlockSetUp(src: seq<byte>, pos: nat, fr: Freqs, lmds: seq<LMD>, lits: seq<byte>) returns (below: seq<bool>)
    requires BlockOk(fr, lmds, lits)
    requires pos + |EncodeBlock(fr, lmds, lits)| <= |src|
    requires src[pos..pos + |EncodeBlock(fr, lmds, lits)|] == EncodeBlock(fr, lmds, lits)
    ensures |below| >= REFILL_BITS
    ensures var h := BlockHeaderFor(fr, lmds, lits);
            && Packable(h) && CheckHeader(h)
            && Word(src, pos, 4) == COMPRESSEDV2_MAGIC
            && ReadHeader(src, pos, COMPRESSEDV2_MAGIC) == Good(h, |EncodeV2(h)|)
            && StartBlock(src, pos + |EncodeV2(h)|, h)
               == BlockStart(TablesFor(fr), lits, EncodeLmds(fr, DeltaDistances(lmds, 0), below))
  {
    hide EncodeV2, StartBlock, ReadHeader, LitPayload, LmdPayload, LitsCodable, LmdsCodable, ValidFreqs, TablesFor,
      EncodeLmds, BytesToBits, CheckHeader, Packable, DeltaDistances, Word, BlockOk, BlockHeaderFor, EncodeBlock;
    BlockParts(fr, lmds, lits);
    var h := BlockHeaderFor(fr, lmds, lits);
    var a, b, c := EncodeV2(h), LitPayload(fr, lits), LmdPayload(fr, lmds);
    ThreeParts(src, pos, a, b, c);
    ReadPackedHeader(src, pos, h, b + c + src[pos + |a + b + c|..]);
    StartEncodedBlock(src, pos + |a|, fr, lmds, lits);
    below := BytesToBits(src[..pos + |a| + |b| + 8]);
  }

  /** From the encoder's set-up the triples run to their expansion. */
  lemma BlockRuns(src: seq<byte>, pos: nat, fr: Freqs, lmds: seq<LMD>, lits: seq<byte>, out: seq<byte>)
    returns (h: Header, t: Tables, s: LmdState)
    requires BlockOk(fr, lmds, lits) && Expandable(|out|, |lits|, lmds)
    requires pos + |EncodeBlock(fr, lmds, lits)| <= |src|
    requires src[pos..pos + |EncodeBlock(fr, lmds, lits)|] == EncodeBlock(fr, lmds, lits)
    ensures Word(src, pos, 4) == COMPRESSEDV2_MAGIC && h.nMatches == |lmds| && Packable(h)
    ensures FreqSizesOk(h.freqs) && CheckHeader(h)
    ensures pos + |EncodeV2(h)| + h.nLiteralPayloadBytes + h.nLmdPayloadBytes == pos + |EncodeBlock(fr, lmds, lits)|
    ensures ReadHeader(src, pos, COMPRESSEDV2_MAGIC) == Good(h, |EncodeV2(h)|)
    ensures StartBlock(src, pos + |EncodeV2(h)|, h) == BlockStart(t, lits, s)
    ensures TablesOk(t) && LmdStateOk(s)
    ensures RunLmds(t, lits, 0, s, -1, |lmds|, out) == Outcome(Expand(out, lits, lmds), Done)
  {
    hide EncodeV2, StartBlock, RunLmds, ReadHeader, TablesFor, EncodeLmds, EncodeBlock, BlockHeaderFor, DecodeStream,
      CheckHeader, Packable, DeltaDistances, Word, Expandable, Expand, LitsCodable, LmdsCodable, TablesOk, ValidFreqs,
      LitPayload, LmdPayload;
    var below := BlockSetUp(src, pos, fr, lmds, lits);
    BlockParts(fr, lmds, lits);
    RunBlockLmds(fr, lmds, lits, below, out);
    h, t, s := BlockHeaderFor(fr, lmds, lits), TablesFor(fr), EncodeLmds(fr, DeltaDistances(lmds, 0), below);
  }

  /** Decoding an encoded block appends exactly what its triples stand for, and goes on behind it. */
  lemma BlockRoundTrip(src: seq<byte>, pos: nat, fr: Freqs, lmds: seq<LMD>, lits: seq<byte>, out: seq<byte>)
    requires BlockOk(fr, lmds, lits) && Expandable(|out|, |lits|, lmds)
    requires pos + |EncodeBlock(fr, lmds, lits)| <= |src|
    requires src[pos..pos + |EncodeBlock(fr, lmds, lits)|] == EncodeBlock(fr, lmds, lits)
    ensures DecodeStream(src, pos, out) == DecodeStream(src, pos + |EncodeBlock(fr, lmds, lits)|, Expand(out, lits, lmds))
  {
    hide EncodeV2, StartBlock, RunLmds, ReadHeader, BlockOk, EncodeBlock, DecodeStream, CheckHeader, Packable, Word,
      Expandable, Expand;
    var h, t, s := BlockRuns(src, pos, fr, lmds, lits, out);
    DecodeBlockStep(src, pos, out, COMPRESSEDV2_MAGIC, h, |EncodeV2(h)|, t, lits, s);
  }

  lemma RunBlockLmds(fr: Freqs, lmds: seq<LMD>, lits: seq<byte>, below: seq<bool>, out: seq<byte>)
    requires BlockOk(fr, lmds, lits) && Expandable(|out|, |lits|, lmds) && |below| >= REFILL_BITS
    ensures TablesOk(TablesFor(fr))
    ensures RunLmds(TablesFor(fr), lits, 0, EncodeLmds(fr, DeltaDistances(lmds, 0), below), -1, |lmds|, out)
            == Outcome(Expand(out, lits, lmds), Done)
  {
    hide RunLmds, LmdsCodable, TablesFor, EncodeLmds, DeltaDistances, ResolveDistances, Expand;
    ResolveDelta(lmds, 0);
    assert lits[0..] == lits;
    RunEncodedLmds(fr, DeltaDistances(lmds, 0), lits, 0, 0, below, out);
  }
}
