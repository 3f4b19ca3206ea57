/** The two entropy-coded payloads of a block: four interleaved literal streams, and one L/M/D stream. */
module Payloads {
  import opened Bits
  import opened Options
  import opened BitStream
  import opened Fse
  import opened SymbolTables
  import opened Lz77

  datatype Freqs = Freqs(l: seq<nat>, m: seq<nat>, d: seq<nat>, literal: seq<nat>)

  ghost predicate ValidFreqs(fr: Freqs) {
    && ValidFreq(fr.l, L_STATES) && |fr.l| == L_SYMBOLS
    && ValidFreq(fr.m, M_STATES) && |fr.m| == M_SYMBOLS
    && ValidFreq(fr.d, D_STATES) && |fr.d| == D_SYMBOLS
    && ValidFreq(fr.literal, LITERAL_STATES) && |fr.literal| == LITERAL_SYMBOLS
  }

  const L_MAX_BITS := 14
  const M_MAX_BITS := 17
  const D_MAX_BITS := 23

  // ----- literals

  /** The four literal states and the bits written so far (or still to be read). */
  datatype LitState = LitState(s0: nat, s1: nat, s2: nat, s3: nat, bits: seq<bool>)

  ghost predicate LitStateOk(s: LitState) {
    s.s0 < LITERAL_STATES && s.s1 < LITERAL_STATES && s.s2 < LITERAL_STATES && s.s3 < LITERAL_STATES
  }

  ghost predicate LitsCodable(freq: seq<nat>, lits: seq<byte>) {
    && ValidFreq(freq, LITERAL_STATES) && |freq| == LITERAL_SYMBOLS
    && forall i :: 0 <= i < |lits| ==> freq[lits[i] as int] > 0
  }

  function EncodeLit(freq: seq<nat>, b: byte, s: nat, bits: seq<bool>): (c: Coded)
    requires CanEncode(LITERAL_STATES, freq, b as int, s) && |freq| == LITERAL_SYMBOLS
    ensures c.state < LITERAL_STATES && |bits| <= |c.bits| <= |bits| + 10
  {
    SymbolRoundTrip(LITERAL_STATES, freq, b as int, s, bits);
    StatesAtMost1024(LITERAL_STATES);
    EncodeSymbol(LITERAL_STATES, freq, b as int, s, bits)
  }

  function EncodeGroup(freq: seq<nat>, g: seq<byte>, s: LitState): (r: LitState)
    requires |g| == 4 && LitsCodable(freq, g) && LitStateOk(s)
    ensures LitStateOk(r) && |s.bits| <= |r.bits| <= |s.bits| + 40
  {
    var c3 := EncodeLit(freq, g[3], s.s3, s.bits);
    var c2 := EncodeLit(freq, g[2], s.s2, c3.bits);
    var c1 := EncodeLit(freq, g[1], s.s1, c2.bits);
    var c0 := EncodeLit(freq, g[0], s.s0, c1.bits);
    LitState(c0.state, c1.state, c2.state, c3.state, c0.bits)
  }

  /** Literals are encoded from the last group to the first. */
  function EncodeLits(freq: seq<nat>, lits: seq<byte>, below: seq<bool>): (r: LitState)
    requires |lits| % 4 == 0 && LitsCodable(freq, lits)
    ensures LitStateOk(r) && |below| <= |r.bits| <= |below| + 10 * |lits|
  {
    if lits == [] then LitState(0, 0, 0, 0, below)
    else EncodeGroup(freq, lits[..4], EncodeLits(freq, lits[4..], below))
  }

  ghost predicate LitTable(t: seq<DecoderEntry>) {
    |t| == LITERAL_STATES && DecoderTableOk(t)
  }

  datatype LitGroup = LitGroup(lits: seq<byte>, rest: LitState)

  function DecodeGroup(t: seq<DecoderEntry>, s: LitState): (r: LitGroup)
    requires LitTable(t) && LitStateOk(s) && |s.bits| >= REFILL_BITS
    ensures LitStateOk(r.rest) && |r.lits| == 4
  {
    var d0 := DecodeSymbol(t, s.s0, s.bits);
    var d1 := DecodeSymbol(t, s.s1, d0.bits);
    var d2 := DecodeSymbol(t, s.s2, d1.bits);
    var d3 := DecodeSymbol(t, s.s3, d2.bits);
    LitGroup([d0.value as byte, d1.value as byte, d2.value as byte, d3.value as byte],
             LitState(d0.state, d1.state, d2.state, d3.state, d3.bits))
  }

  /** Decodes groups of four literals; None when the bits run out. */
  function DecodeLits(t: seq<DecoderEntry>, s: LitState, groups: nat): (r: Option<seq<byte>>)
    requires LitTable(t) && LitStateOk(s)
    ensures r.Some? ==> |r.value| == 4 * groups
    decreases groups
  {
    if groups == 0 then Some([])
    else if |s.bits| < REFILL_BITS then None
    else
      var g := DecodeGroup(t, s);
      match DecodeLits(t, g.rest, groups - 1)
      case None => None
      case Some(lits) => Some(g.lits + lits)
  }

  lemma GroupRoundTrip(freq: seq<nat>, g: seq<byte>, s: LitState)
    requires |g| == 4 && LitsCodable(freq, g) && LitStateOk(s) && |s.bits| >= REFILL_BITS
    ensures LitTable(DecoderTable(LITERAL_STATES, freq))
    ensures DecodeGroup(DecoderTable(LITERAL_STATES, freq), EncodeGroup(freq, g, s)) == LitGroup(g, s)
  {
    hide EncodeSymbol, DecodeSymbol, DecoderTable;
    var n := LITERAL_STATES;
    var c3 := EncodeLit(freq, g[3], s.s3, s.bits);
    var c2 := EncodeLit(freq, g[2], s.s2, c3.bits);
    var c1 := EncodeLit(freq, g[1], s.s1, c2.bits);
    SymbolRoundTrip(n, freq, g[3] as int, s.s3, s.bits);
    SymbolRoundTrip(n, freq, g[2] as int, s.s2, c3.bits);
    SymbolRoundTrip(n, freq, g[1] as int, s.s1, c2.bits);
    SymbolRoundTrip(n, freq, g[0] as int, s.s0, c1.bits);
  }

  /** Reading the literal payload back in the forward direction gives the literals. */
  lemma {:induction false} LitsRoundTrip(freq: seq<nat>, lits: seq<byte>, below: seq<bool>)
    requires |lits| % 4 == 0 && LitsCodable(freq, lits) && |below| >= REFILL_BITS
    ensures LitTable(DecoderTable(LITERAL_STATES, freq))
    ensures DecodeLits(DecoderTable(LITERAL_STATES, freq), EncodeLits(freq, lits, below), |lits| / 4) == Some(lits)
  {
    hide EncodeGroup, DecodeGroup, DecoderTable;
    if lits == [] {
      DecoderTableIsOk(LITERAL_STATES, freq);
    } else {
      LitsRoundTrip(freq, lits[4..], below);
      GroupRoundTrip(freq, lits[..4], EncodeLits(freq, lits[4..], below));
      assert lits == lits[..4] + lits[4..];
    }
  }

  // ----- L, M, D

  /** How the values of one of the three streams are coded; a value takes at most maxBits bits. */
  datatype Alphabet = Alphabet(nstates: nat, vbits: seq<nat>, vbase: seq<nat>, maxBits: nat)

  const L_ALPHABET := Alphabet(L_STATES, L_EXTRA_BITS, L_BASE_VALUE, L_MAX_BITS)
  const M_ALPHABET := Alphabet(M_STATES, M_EXTRA_BITS, M_BASE_VALUE, M_MAX_BITS)
  const D_ALPHABET := Alphabet(D_STATES, D_EXTRA_BITS, D_BASE_VALUE, D_MAX_BITS)

  ghost predicate AlphabetOk(al: Alphabet) {
    && 0 < al.nstates <= 1024 && |al.vbits| == |al.vbase| <= 256
    && forall i :: 0 <= i < |al.vbits| ==> al.vbits[i] + Log2(al.nstates) <= al.maxBits
  }

  /** Checks all three bit budgets: 14 + 17 + 23 == 54 bits fit in one refill. */
  lemma AlphabetsOk()
    ensures AlphabetOk(L_ALPHABET) && AlphabetOk(M_ALPHABET) && AlphabetOk(D_ALPHABET)
    ensures |L_EXTRA_BITS| == L_SYMBOLS && |M_EXTRA_BITS| == M_SYMBOLS && |D_EXTRA_BITS| == D_SYMBOLS
  {
    Pow2Values();
    Log2Unique(64, 6);
    Log2Unique(256, 8);
    forall i | 0 <= i < D_SYMBOLS
      ensures D_EXTRA_BITS[i] <= 15
    {
      if i < 16 {
        assert D_EXTRA_BITS[i] == D_EXTRA_BITS_0[i];
      } else if i < 32 {
        assert D_EXTRA_BITS[i] == D_EXTRA_BITS_1[i - 16];
      } else if i < 48 {
        assert D_EXTRA_BITS[i] == D_EXTRA_BITS_2[i - 32];
      } else {
        assert D_EXTRA_BITS[i] == D_EXTRA_BITS_3[i - 48];
      }
    }
  }

  ghost predicate ValueCodable(al: Alphabet, freq: seq<nat>, value: nat, sym: nat) {
    && ValidFreq(freq, al.nstates) && |freq| == |al.vbits|
    && Splits(value, sym, al.vbits, al.vbase) && freq[sym] > 0
  }

  function EncodeIn(al: Alphabet, freq: seq<nat>, value: nat, sym: nat, s: nat, bits: seq<bool>): (c: Coded)
    requires AlphabetOk(al) && ValueCodable(al, freq, value, sym) && s < al.nstates
    ensures c.state < al.nstates && |bits| <= |c.bits| <= |bits| + al.maxBits
  {
    ValueRoundTrip(al.nstates, freq, al.vbits, al.vbase, al.maxBits, sym, value - al.vbase[sym], s, bits);
    EncodeValue(al.nstates, freq, sym, al.vbits[sym], value - al.vbase[sym], s, bits)
  }

  function TableIn(al: Alphabet, freq: seq<nat>): (t: seq<ValueEntry>)
    requires AlphabetOk(al) && |freq| == |al.vbits|
  {
    ValueTable(al.nstates, freq, al.vbits, al.vbase)
  }

  lemma InRoundTrip(al: Alphabet, freq: seq<nat>, value: nat, sym: nat, s: nat, bits: seq<bool>)
    requires AlphabetOk(al) && ValueCodable(al, freq, value, sym) && s < al.nstates
    ensures var c := EncodeIn(al, freq, value, sym, s, bits);
            var t := TableIn(al, freq);
            && |t| == al.nstates && ValueTableOk(t, al.maxBits)
            && (|c.bits| >= al.maxBits ==> DecodeValue(t, al.maxBits, c.state, c.bits) == Decoded(value, s, bits))
  {
    ValueRoundTrip(al.nstates, freq, al.vbits, al.vbase, al.maxBits, sym, value - al.vbase[sym], s, bits);
  }

  /** The three states and the bits written so far (or still to be read). */
  datatype LmdState = LmdState(l: nat, m: nat, d: nat, bits: seq<bool>)

  ghost predicate LmdStateOk(s: LmdState) {
    s.l < L_STATES && s.m < M_STATES && s.d < D_STATES
  }

  ghost predicate LmdCodable(fr: Freqs, x: LMD) {
    && ValueCodable(L_ALPHABET, fr.l, x.l, LSymbol(x.l))
    && ValueCodable(M_ALPHABET, fr.m, x.m, MSymbol(x.m))
    && ValueCodable(D_ALPHABET, fr.d, x.d, DSymbol(x.d))
  }

  /** Distance first, literal length last: the decoder reads them in the opposite order. */
  function EncodeLmd(fr: Freqs, x: LMD, s: LmdState): (r: LmdState)
    requires LmdCodable(fr, x) && LmdStateOk(s)
    ensures LmdStateOk(r) && |s.bits| <= |r.bits| <= |s.bits| + 54
  {
    AlphabetsOk();
    var d := EncodeIn(D_ALPHABET, fr.d, x.d, DSymbol(x.d), s.d, s.bits);
    var m := EncodeIn(M_ALPHABET, fr.m, x.m, MSymbol(x.m), s.m, d.bits);
    var l := EncodeIn(L_ALPHABET, fr.l, x.l, LSymbol(x.l), s.l, m.bits);
    LmdState(l.state, m.state, d.state, l.bits)
  }

  ghost predicate LmdsCodable(fr: Freqs, lmds: seq<LMD>) {
    forall i :: 0 <= i < |lmds| ==> LmdCodable(fr, lmds[i])
  }

  /** Triples are encoded from the last to the first. */
  function EncodeLmds(fr: Freqs, lmds: seq<LMD>, below: seq<bool>): (r: LmdState)
    requires LmdsCodable(fr, lmds)
    ensures LmdStateOk(r) && |below| <= |r.bits| <= |below| + 54 * |lmds|
  {
    if lmds == [] then LmdState(0, 0, 0, below)
    else EncodeLmd(fr, lmds[0], EncodeLmds(fr, lmds[1..], below))
  }

  datatype Tables = Tables(l: seq<ValueEntry>, m: seq<ValueEntry>, d: seq<ValueEntry>)

  ghost predicate TablesOk(t: Tables) {
    && |t.l| == L_STATES && ValueTableOk(t.l, L_MAX_BITS)
    && |t.m| == M_STATES && ValueTableOk(t.m, M_MAX_BITS)
    && |t.d| == D_STATES && ValueTableOk(t.d, D_MAX_BITS)
  }

  function TablesFor(fr: Freqs): Tables
    requires |fr.l| == L_SYMBOLS && |fr.m| == M_SYMBOLS && |fr.d| == D_SYMBOLS
  {
    AlphabetsOk();
    Tables(TableIn(L_ALPHABET, fr.l), TableIn(M_ALPHABET, fr.m), TableIn(D_ALPHABET, fr.d))
  }

  datatype DecodedLmd = DecodedLmd(x: LMD, rest: LmdState)

  /** One triple from one refill of the accumulator; a zero distance still stands for the previous one. */
  function DecodeLmd(t: Tables, s: LmdState): (r: DecodedLmd)
    requires TablesOk(t) && LmdStateOk(s) && |s.bits| >= REFILL_BITS
    ensures LmdStateOk(r.rest)
  {
    var l := DecodeValue(t.l, L_MAX_BITS, s.l, s.bits);
    var m := DecodeValue(t.m, M_MAX_BITS, s.m, l.bits);
    var d := DecodeValue(t.d, D_MAX_BITS, s.d, m.bits);
    DecodedLmd(LMD(l.value, m.value, d.value), LmdState(l.state, m.state, d.state, d.bits))
  }

  /** Decoding undoes the encoding of one triple, and leaves the state as it was before. */
  lemma LmdRoundTrip(fr: Freqs, x: LMD, s: LmdState)
    requires ValidFreqs(fr) && LmdCodable(fr, x) && LmdStateOk(s) && |s.bits| >= REFILL_BITS
    ensures TablesOk(TablesFor(fr))
    ensures DecodeLmd(TablesFor(fr), EncodeLmd(fr, x, s)) == DecodedLmd(x, s)
  {
    hide EncodeValue, DecodeValue, ValueTable, EncodeIn, TableIn, AlphabetOk, ValueCodable;
    AlphabetsOk();
    var d := EncodeIn(D_ALPHABET, fr.d, x.d, DSymbol(x.d), s.d, s.bits);
    var m := EncodeIn(M_ALPHABET, fr.m, x.m, MSymbol(x.m), s.m, d.bits);
    InRoundTrip(D_ALPHABET, fr.d, x.d, DSymbol(x.d), s.d, s.bits);
    InRoundTrip(M_ALPHABET, fr.m, x.m, MSymbol(x.m), s.m, d.bits);
    InRoundTrip(L_ALPHABET, fr.l, x.l, LSymbol(x.l), s.l, m.bits);
  }
}
