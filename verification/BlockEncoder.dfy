/** The encoder back end: occurrence counts, frequency tables, and the two payloads, under a capacity limit. */
module BlockEncoder {
  import opened Bits
  import opened Options
  import opened BitStream
  import opened Fse
  import opened FseCoder
  import opened FseNormalize
  import opened SymbolTables
  import opened Lz77
  import opened Payloads
  import opened BlockHeader
  import opened StreamFormat
  import opened BlockFormat
  import FreqCode

  // ----- previous-distance rewriting, in place

  function DeltaSeq(d: seq<nat>, prev: nat): (r: seq<nat>)
    ensures |r| == |d|
  {
    if d == [] then []
    else if d[0] == prev then [0] + DeltaSeq(d[1..], prev)
    else [d[0]] + DeltaSeq(d[1..], d[0])
  }

  function ResolveSeq(d: seq<nat>, prev: nat): (r: seq<nat>)
    ensures |r| == |d|
  {
    if d == [] then []
    else if d[0] == 0 then [prev] + ResolveSeq(d[1..], prev)
    else [d[0]] + ResolveSeq(d[1..], d[0])
  }

  lemma DeltaStep(d: seq<nat>, i: nat, prev: nat)
    requires i < |d|
    ensures DeltaSeq(d[i..], prev) == [if d[i] == prev then 0 else d[i]] + DeltaSeq(d[i + 1..], d[i])
  {
    assert d[i..][1..] == d[i + 1..];
  }

  lemma ResolveStep(d: seq<nat>, i: nat, prev: nat)
    requires i < |d|
    ensures var x := if d[i] == 0 then prev else d[i]; ResolveSeq(d[i..], prev) == [x] + ResolveSeq(d[i + 1..], x)
  {
    assert d[i..][1..] == d[i + 1..];
  }

  lemma NothingLeft(d: seq<nat>, prev: nat)
    ensures DeltaSeq(d[|d|..], prev) == [] && ResolveSeq(d[|d|..], prev) == []
  {
  }

  /** Undoing the rewriting is exact when every distance is at least 1. */
  lemma {:induction false} ResolveDeltaSeq(d: seq<nat>, prev: nat)
    requires forall i :: 0 <= i < |d| ==> d[i] >= 1
    ensures ResolveSeq(DeltaSeq(d, prev), prev) == d
  {
    if d != [] {
      ResolveDeltaSeq(d[1..], d[0]);
      assert DeltaSeq(d, prev)[1..] == DeltaSeq(d[1..], d[0]);
    }
  }

  lemma {:induction false} DeltaSeqBound(d: seq<nat>, prev: nat, bound: nat)
    requires forall i :: 0 <= i < |d| ==> d[i] <= bound
    ensures forall i :: 0 <= i < |d| ==> DeltaSeq(d, prev)[i] <= bound
  {
    if d != [] {
      DeltaSeqBound(d[1..], d[0], bound);
      assert DeltaSeq(d, prev)[1..] == DeltaSeq(d[1..], d[0]);
    }
  }

  /** The first loop of lzfse_encode_matches over the distances. */
  method DeltaInPlace(d: array<nat>, n: nat)
    requires n <= d.Length
    modifies d
    ensures d[..n] == DeltaSeq(old(d[..n]), 0) && d[n..] == old(d[n..])
  {
    hide DeltaSeq;
    ghost var d0 := d[..n];
    var dPrev := 0;
    assert d0[0..] == d0;
    for i := 0 to n
      invariant forall k :: i <= k < d.Length ==> d[k] == old(d[k])
      invariant DeltaSeq(d0, 0) == d[..i] + DeltaSeq(d0[i..], dPrev)
    {
      var x := d[i];
      DeltaStep(d0, i, dPrev);
      ghost var done := d[..i];
      if x == dPrev {
        d[i] := 0;
      } else {
        dPrev := x;
      }
      assert d[..i + 1] == done + [d[i]];
    }
    NothingLeft(d0, dPrev);
  }

  /** The loop that reverts it when the destination is full. */
  method ResolveInPlace(d: array<nat>, n: nat)
    requires n <= d.Length
    modifies d
    ensures d[..n] == ResolveSeq(old(d[..n]), 0) && d[n..] == old(d[n..])
  {
    hide ResolveSeq;
    ghost var d0 := d[..n];
    var dPrev := 0;
    assert d0[0..] == d0;
    for i := 0 to n
      invariant forall k :: i <= k < d.Length ==> d[k] == old(d[k])
      invariant ResolveSeq(d0, 0) == d[..i] + ResolveSeq(d0[i..], dPrev)
    {
      var x := d[i];
      ResolveStep(d0, i, dPrev);
      ghost var done := d[..i];
      if x == 0 {
        d[i] := dPrev;
      } else {
        dPrev := x;
      }
      assert d[..i + 1] == done + [d[i]];
    }
    NothingLeft(d0, dPrev);
  }

  /** Triples from the three parallel arrays. */
  function Zip(l: seq<nat>, m: seq<nat>, d: seq<nat>): (r: seq<LMD>)
    requires |l| == |m| == |d|
    ensures |r| == |l|
  {
    seq(|l|, i requires 0 <= i < |l| => LMD(l[i], m[i], d[i]))
  }

  lemma {:induction false} ZipDelta(l: seq<nat>, m: seq<nat>, d: seq<nat>, prev: nat)
    requires |l| == |m| == |d|
    ensures DeltaDistances(Zip(l, m, d), prev) == Zip(l, m, DeltaSeq(d, prev))
  {
    if l != [] {
      var z := Zip(l, m, d);
      assert z[1..] == Zip(l[1..], m[1..], d[1..]);
      ZipDelta(l[1..], m[1..], d[1..], if d[0] == prev then prev else d[0]);
      var rest := DeltaSeq(d, prev)[1..];
      assert Zip(l, m, DeltaSeq(d, prev))[1..] == Zip(l[1..], m[1..], rest);
    }
  }

  // ----- occurrences

  /** How many values map to a symbol. */
  function Occurrences(values: seq<nat>, symbol: nat -> nat, sym: nat): nat {
    if values == [] then 0
    else Occurrences(values[..|values| - 1], symbol, sym) + (if symbol(values[|values| - 1]) == sym then 1 else 0)
  }

  /** The loops that fill l_occ, m_occ, d_occ and literal_occ. */
  method CountOccurrences(values: seq<nat>, symbol: nat -> nat, nsymbols: nat) returns (occ: array<nat>)
    requires forall i :: 0 <= i < |values| ==> symbol(values[i]) < nsymbols
    ensures fresh(occ) && occ.Length == nsymbols && Sum(occ[..]) == |values|
    ensures forall sym :: 0 <= sym < nsymbols ==> occ[sym] == Occurrences(values, symbol, sym)
  {
    hide Sum;
    occ := new nat[nsymbols](_ => 0);
    SumZero(occ[..]);
    for i := 0 to |values|
      invariant Sum(occ[..]) == i
      invariant forall sym :: 0 <= sym < nsymbols ==> occ[sym] == Occurrences(values[..i], symbol, sym)
    {
      var sym := symbol(values[i]);
      SumUpdate(occ[..], sym, occ[sym] + 1);
      ghost var before := occ[..];
      occ[sym] := occ[sym] + 1;
      assert occ[..] == before[sym := before[sym] + 1];
      assert values[..i + 1][..i] == values[..i];
    }
    assert values[..|values|] == values;
  }

  lemma {:induction false} Occurs(values: seq<nat>, symbol: nat -> nat, i: nat)
    requires i < |values|
    ensures Occurrences(values, symbol, symbol(values[i])) > 0
  {
    if i < |values| - 1 {
      assert values[..|values| - 1][i] == values[i];
      Occurs(values[..|values| - 1], symbol, i);
    }
  }

  /** Counts and normalises one stream: every symbol that occurs gets at least one state. */
  method StreamFreqs(nstates: nat, values: seq<nat>, symbol: nat -> nat, nsymbols: nat) returns (freq: array<nat>)
    requires IsPow2(nstates) && nstates <= 1024 && 0 < nsymbols <= nstates && |values| < 0x1_0000_0000
    requires forall i :: 0 <= i < |values| ==> symbol(values[i]) < nsymbols
    ensures fresh(freq) && freq.Length == nsymbols && ValidFreq(freq[..], nstates)
    ensures forall i :: 0 <= i < |values| ==> freq[symbol(values[i])] > 0
  {
    hide Sum, RoundedTable;
    var occ := CountOccurrences(values, symbol, nsymbols);
    freq := new nat[nsymbols](_ => 0);
    NormalizeFreq(nstates, occ[..], freq);
    forall i | 0 <= i < |values|
      ensures freq[symbol(values[i])] > 0
    {
      Occurs(values, symbol, i);
    }
  }

  // ----- the literal payload

  /** The four literal states of the encoder. */
  datatype LiteralEnd = LiteralEnd(s0: nat, s1: nat, s2: nat, s3: nat)

  /** Encodes the literals backwards in groups of four; fails when fewer than 16 bytes are left before a group. */
  method EncodeLiteralPayload(lits: seq<byte>, t: array<EncoderEntry>, start: nat, dstSize: nat, ghost freq: seq<nat>)
    returns (ok: bool, out: OutStream, end: LiteralEnd)
    requires |lits| % 4 == 0 && LitsCodable(freq, lits) && IsEncoderTable(t[..], LITERAL_STATES, freq)
    ensures fresh(out)
    ensures ok ==> var r := EncodeLits(freq, lits, []);
                   out.buf == PackBits(r.bits) && out.accumNbits == |r.bits| - 8 * |out.buf| &&
                       end == LiteralEnd(r.s0, r.s1, r.s2, r.s3)
    ensures ok && start <= dstSize ==> start + |out.buf| <= dstSize
    ensures !ok ==> start + 5 * (|lits| / 4) + 16 > dstSize
  {
    hide EncodeGroup, LitsCodable, IsEncoderTable, EncodeLits, PackBits, LitStateOk, OutStream.Bits;
    out := new OutStream();
    end := LiteralEnd(0, 0, 0, 0);
    var i := |lits|;
    NoLits(freq, lits);
    while i > 0
      invariant 0 <= i <= |lits| && i % 4 == 0
      invariant out.Valid() && out.accumNbits <= 7 && fresh(out)
      invariant out.Bits() == [] || start + |out.buf| + 9 <= dstSize
      invariant LitsCodable(freq, lits[i..])
      invariant LitState(end.s0, end.s1, end.s2, end.s3, out.Bits()) == EncodeLits(freq, lits[i..], [])
    {
      if start + |out.buf| + 16 > dstSize {
        LitsFit(out, freq, lits, i);
        return false, out, end;
      }
      i := i - 4;
      GroupOfLits(freq, lits, i);
      end := EncodeLiteralGroup(lits[i..i + 4], t, out, end, freq);
    }
    assert lits[0..] == lits;
    out.Finish();
    ok := true;
  }

  lemma NoLits(freq: seq<nat>, lits: seq<byte>)
    requires LitsCodable(freq, lits)
    ensures LitsCodable(freq, lits[|lits|..])
    ensures EncodeLits(freq, lits[|lits|..], []) == LitState(0, 0, 0, 0, [])
  {
  }

  /** Groups already encoded take at most 5 bytes each. */
  lemma LitsFit(out: OutStream, freq: seq<nat>, lits: seq<byte>, i: nat)
    requires i <= |lits| && |lits| % 4 == 0 && i % 4 == 0 && out.Valid()
    requires LitsCodable(freq, lits[i..]) && out.Bits() == EncodeLits(freq, lits[i..], []).bits
    ensures |out.buf| <= 5 * (|lits| / 4)
  {
    hide EncodeLits, LitsCodable;
    assert 8 * |out.buf| <= |out.Bits()| <= 10 * (|lits| - i);
  }

  lemma GroupOfLits(freq: seq<nat>, lits: seq<byte>, i: nat)
    requires i + 4 <= |lits| && (|lits| - i) % 4 == 0 && LitsCodable(freq, lits)
    ensures LitsCodable(freq, lits[i..]) && LitsCodable(freq, lits[i + 4..]) && LitsCodable(freq, lits[i..i + 4])
    ensures LitStateOk(EncodeLits(freq, lits[i + 4..], []))
    ensures EncodeLits(freq, lits[i..], []) == EncodeGroup(freq, lits[i..i + 4], EncodeLits(freq, lits[i + 4..], []))
  {
    hide EncodeGroup;
    assert lits[i..][..4] == lits[i..i + 4] && lits[i..][4..] == lits[i + 4..];
  }

  /** Four literals, last one first, on one accumulator, which is then flushed. */
  method EncodeLiteralGroup(g: seq<byte>, t: array<EncoderEntry>, out: OutStream, s: LiteralEnd, ghost freq: seq<nat>)
    returns (r: LiteralEnd)
    requires |g| == 4 && LitsCodable(freq, g) && IsEncoderTable(t[..], LITERAL_STATES, freq)
    requires out.Valid() && out.accumNbits <= 7
    requires LitStateOk(LitState(s.s0, s.s1, s.s2, s.s3, out.Bits()))
    modifies out
    ensures out.Valid() && 0 <= out.accumNbits <= 7 && |out.buf| <= |old(out.buf)| + 5
    ensures LitState(r.s0, r.s1, r.s2, r.s3, out.Bits())
            == EncodeGroup(freq, g, LitState(s.s0, s.s1, s.s2, s.s3, old(out.Bits())))
  {
    hide EncodeSymbol, IsEncoderTable;
    StatesAtMost1024(LITERAL_STATES);
    var s3 := Encode(s.s3, t, out, g[3] as int, LITERAL_STATES, freq);
    var s2 := Encode(s.s2, t, out, g[2] as int, LITERAL_STATES, freq);
    var s1 := Encode(s.s1, t, out, g[1] as int, LITERAL_STATES, freq);
    var s0 := Encode(s.s0, t, out, g[0] as int, LITERAL_STATES, freq);
    r := LiteralEnd(s0, s1, s2, s3);
    assert |out.Bits()| <= 8 * |out.buf| + 47;
    out.Flush();
  }

  // ----- the L, M, D payload

  datatype LmdEnd = LmdEnd(l: nat, m: nat, d: nat)

  datatype Encoders = Encoders(l: array<EncoderEntry>, m: array<EncoderEntry>, d: array<EncoderEntry>)

  ghost predicate EncodersOk(e: Encoders, fr: Freqs)
    reads e.l, e.m, e.d
  {
    && IsEncoderTable(e.l[..], L_STATES, fr.l) && IsEncoderTable(e.m[..], M_STATES, fr.m)
    && IsEncoderTable(e.d[..], D_STATES, fr.d)
  }

  /** One value: its extra bits, then its symbol. */
  method EncodeOneValue(value: nat, sym: nat, al: Alphabet, state: nat, t: array<EncoderEntry>, out: OutStream,
      ghost freq: seq<nat>)
    returns (next: nat)
    requires AlphabetOk(al) && ValueCodable(al, freq, value, sym) && state < al.nstates
    requires IsEncoderTable(t[..], al.nstates, freq)
    requires out.Valid() && out.accumNbits + al.maxBits <= 64
    modifies out
    ensures out.Valid() && out.accumNbits <= old(out.accumNbits) + al.maxBits
    ensures Coded(next, out.Bits()) == EncodeIn(al, freq, value, sym, state, old(out.Bits()))
  {
    hide EncodeSymbol, IsEncoderTable;
    var nbits := al.vbits[sym];
    var bits := value - al.vbase[sym];
    assert nbits + Log2(al.nstates) <= al.maxBits;
    out.PushBits(nbits, bits);
    next := Encode(state, t, out, sym, al.nstates, freq);
  }

  /** One triple: D needs at most 23 bits, M 17, and L 14. */
  method EncodeTriple(x: LMD, e: Encoders, out: OutStream, s: LmdEnd, ghost fr: Freqs) returns (r: LmdEnd)
    requires LmdCodable(fr, x) && EncodersOk(e, fr)
    requires out.Valid() && out.accumNbits <= 7
    requires LmdStateOk(LmdState(s.l, s.m, s.d, out.Bits()))
    modifies out
    ensures out.Valid() && out.accumNbits <= 61
    ensures LmdState(r.l, r.m, r.d, out.Bits()) == EncodeLmd(fr, x, LmdState(s.l, s.m, s.d, old(out.Bits())))
  {
    hide EncodeIn, IsEncoderTable, AlphabetOk, ValueCodable;
    AlphabetsOk();
    var d := EncodeOneValue(x.d, DSymbol(x.d), D_ALPHABET, s.d, e.d, out, fr.d);
    var m := EncodeOneValue(x.m, MSymbol(x.m), M_ALPHABET, s.m, e.m, out, fr.m);
    var l := EncodeOneValue(x.l, LSymbol(x.l), L_ALPHABET, s.l, e.l, out, fr.l);
    r := LmdEnd(l, m, d);
  }

  /** Encodes the triples backwards; fails when fewer than 16 bytes are left before one. */
  method EncodeLmdPayload(lmds: seq<LMD>, e: Encoders, start: nat, dstSize: nat, ghost fr: Freqs)
    returns (ok: bool, out: OutStream, end: LmdEnd)
    requires LmdsCodable(fr, lmds) && EncodersOk(e, fr)
    ensures fresh(out)
    ensures ok ==> var r := EncodeLmds(fr, lmds, []);
                   out.buf == PackBits(r.bits) && out.accumNbits == |r.bits| - 8 * |out.buf| && end == LmdEnd(r.l, r.m, r.d)
    ensures ok && start <= dstSize ==> start + |out.buf| <= dstSize
    ensures !ok ==> start + 7 * |lmds| + 16 > dstSize
  {
    hide EncodeLmd, LmdCodable, EncodeLmds, PackBits, LmdStateOk, IsEncoderTable;
    out := new OutStream();
    end := LmdEnd(0, 0, 0);
    var i := |lmds|;
    NoLmds(fr, lmds);
    while i > 0
      invariant 0 <= i <= |lmds|
      invariant out.Valid() && out.accumNbits <= 7 && fresh(out)
      invariant out.Bits() == [] || start + |out.buf| + 9 <= dstSize
      invariant LmdsCodable(fr, lmds[i..])
      invariant LmdState(end.l, end.m, end.d, out.Bits()) == EncodeLmds(fr, lmds[i..], [])
    {
      if start + |out.buf| + 16 > dstSize {
        LmdsFit(out, fr, lmds, i);
        return false, out, end;
      }
      i := i - 1;
      OneOfLmds(fr, lmds, i);
      end := EncodeTriple(lmds[i], e, out, end, fr);
      out.Flush();
    }
    assert lmds[0..] == lmds;
    out.Finish();
    ok := true;
  }

  lemma NoLmds(fr: Freqs, lmds: seq<LMD>)
    requires LmdsCodable(fr, lmds)
    ensures LmdsCodable(fr, lmds[|lmds|..])
    ensures EncodeLmds(fr, lmds[|lmds|..], []) == LmdState(0, 0, 0, [])
  {
  }

  lemma LmdsFit(out: OutStream, fr: Freqs, lmds: seq<LMD>, i: nat)
    requires i <= |lmds| && out.Valid()
    requires LmdsCodable(fr, lmds[i..]) && out.Bits() == EncodeLmds(fr, lmds[i..], []).bits
    ensures |out.buf| <= 7 * |lmds|
  {
    hide EncodeLmds, LmdsCodable;
    assert 8 * |out.buf| <= |out.Bits()| <= 54 * (|lmds| - i);
  }

  lemma OneOfLmds(fr: Freqs, lmds: seq<LMD>, i: nat)
    requires i < |lmds| && LmdsCodable(fr, lmds)
    ensures LmdsCodable(fr, lmds[i..]) && LmdsCodable(fr, lmds[i + 1..]) && LmdCodable(fr, lmds[i])
    ensures LmdStateOk(EncodeLmds(fr, lmds[i + 1..], []))
    ensures EncodeLmds(fr, lmds[i..], []) == EncodeLmd(fr, lmds[i], EncodeLmds(fr, lmds[i + 1..], []))
  {
    hide EncodeLmd, LmdCodable;
    assert lmds[i..][1..] == lmds[i + 1..];
  }

  // ----- a whole block

  /** Room that always suffices for a block. */
  function EncodedBound(nLiterals: nat, nMatches: nat): nat {
    V2_FULL_SIZE + 5 * (nLiterals / 4) + 7 * nMatches
  }

  /** It does, and the block starts with the magic of a packed header. */
  lemma BlockSize(fr: Freqs, lmds: seq<LMD>, lits: seq<byte>)
    requires BlockOk(fr, lmds, lits)
    ensures var b := EncodeBlock(fr, lmds, lits);
            4 <= |b| <= EncodedBound(|lits|, |lmds|) && b[..4] == LE(COMPRESSEDV2_MAGIC, 4)
  {
    hide EncodeV2, FixedV2, Packable, CheckHeader, EncodeLits, EncodeLmds, PackBits, ValidFreq, LitsCodable, LmdsCodable, LE;
    HeaderFits(fr, lmds, lits);
    var h := BlockHeaderFor(fr, lmds, lits);
    V2RoundTrip(h, []);
    assert EncodeV2(h) + [] == EncodeV2(h);
    V2Starts(h);
    assert EncodeBlock(fr, lmds, lits)[..4] == EncodeV2(h)[..4];
    assert |LitPayload(fr, lits)| <= 5 * (|lits| / 4);
    assert |LmdPayload(fr, lmds)| <= 8 + 7 * |lmds|;
  }

  lemma V2Starts(h: Header)
    requires Packable(h)
    ensures EncodeV2(h)[..4] == LE(COMPRESSEDV2_MAGIC, 4)
  {
    hide LE, PackBits, FreqCode.FreqBits, Packable, Packed0, Packed1, Packed2;
  }

  /** l_sum + m_sum: the number of bytes the block stands for. */
  method RawBytes(l: seq<nat>, m: seq<nat>, d: seq<nat>) returns (total: nat)
    requires |l| == |m| == |d|
    ensures total == LitSum(Zip(l, m, d)) + MatchSum(Zip(l, m, d))
  {
    total := 0;
    ghost var z := Zip(l, m, d);
    assert z[0..] == z;
    for i := 0 to |l|
      invariant total + LitSum(z[i..]) + MatchSum(z[i..]) == LitSum(z) + MatchSum(z)
    {
      assert z[i..][1..] == z[i + 1..];
      total := total + l[i] + m[i];
    }
  }

  function ByteValues(lits: seq<byte>): (v: seq<nat>)
    ensures |v| == |lits|
  {
    seq(|lits|, i requires 0 <= i < |lits| => lits[i] as nat)
  }

  /** The four frequency tables of a block: everything that occurs can be coded. */
  method BlockFreqs(l: seq<nat>, m: seq<nat>, d: seq<nat>, lits: seq<byte>) returns (fr: Freqs)
    requires |l| == |m| == |d| < 0x1_0000_0000 && |lits| < 0x1_0000_0000
    requires forall i :: 0 <= i < |l| ==> l[i] <= MAX_L_VALUE && m[i] <= MAX_M_VALUE && d[i] <= MAX_D_VALUE
    ensures ValidFreqs(fr) && LitsCodable(fr.literal, lits) && LmdsCodable(fr, Zip(l, m, d))
  {
    hide Sum, Splits, LSymbol, MSymbol, DSymbol;
    StatesArePow2();
    SymbolsInRange(l, m, d);
    var lf := StreamFreqs(L_STATES, l, LSymbol, L_SYMBOLS);
    var mf := StreamFreqs(M_STATES, m, MSymbol, M_SYMBOLS);
    var df := StreamFreqs(D_STATES, d, DSymbol, D_SYMBOLS);
    var tf := StreamFreqs(LITERAL_STATES, ByteValues(lits), x => x, LITERAL_SYMBOLS);
    fr := Freqs(lf[..], mf[..], df[..], tf[..]);
    forall i | 0 <= i < |lits|
      ensures fr.literal[lits[i] as int] > 0
    {
      assert ByteValues(lits)[i] == lits[i] as int;
    }
  }

  lemma SymbolsInRange(l: seq<nat>, m: seq<nat>, d: seq<nat>)
    requires |l| == |m| == |d|
    requires forall i :: 0 <= i < |l| ==> l[i] <= MAX_L_VALUE && m[i] <= MAX_M_VALUE && d[i] <= MAX_D_VALUE
    ensures |L_EXTRA_BITS| == L_SYMBOLS && |M_EXTRA_BITS| == M_SYMBOLS && |D_EXTRA_BITS| == D_SYMBOLS
    ensures forall i :: 0 <= i < |l| ==>
              && LSymbol(l[i]) < L_SYMBOLS && Splits(l[i], LSymbol(l[i]), L_EXTRA_BITS, L_BASE_VALUE)
              && MSymbol(m[i]) < M_SYMBOLS && Splits(m[i], MSymbol(m[i]), M_EXTRA_BITS, M_BASE_VALUE)
              && DSymbol(d[i]) < D_SYMBOLS && Splits(d[i], DSymbol(d[i]), D_EXTRA_BITS, D_BASE_VALUE)
  {
    hide LSymbol, MSymbol, DSymbol;
    AlphabetsOk();
    forall i | 0 <= i < |l|
      ensures Splits(l[i], LSymbol(l[i]), L_EXTRA_BITS, L_BASE_VALUE)
      ensures Splits(m[i], MSymbol(m[i]), M_EXTRA_BITS, M_BASE_VALUE)
      ensures Splits(d[i], DSymbol(d[i]), D_EXTRA_BITS, D_BASE_VALUE)
    {
      LSplits(l[i]);
      MSplits(m[i]);
      DSplits(d[i]);
    }
  }

  /** The encoder tables that go with the frequency tables. */
  method BlockEncoders(fr: Freqs) returns (e: Encoders, t: array<EncoderEntry>)
    requires ValidFreqs(fr)
    ensures EncodersOk(e, fr) && IsEncoderTable(t[..], LITERAL_STATES, fr.literal)
  {
    hide Sum, IsEncoderTable, Log2;
    var l := new EncoderEntry[L_SYMBOLS](_ => EncoderEntry(0, 0, 0, 0));
    var m := new EncoderEntry[M_SYMBOLS](_ => EncoderEntry(0, 0, 0, 0));
    var d := new EncoderEntry[D_SYMBOLS](_ => EncoderEntry(0, 0, 0, 0));
    t := new EncoderEntry[LITERAL_SYMBOLS](_ => EncoderEntry(0, 0, 0, 0));
    InitEncoderTable(L_STATES, fr.l, l);
    InitEncoderTable(M_STATES, fr.m, m);
    InitEncoderTable(D_STATES, fr.d, d);
    InitEncoderTable(LITERAL_STATES, fr.literal, t);
    e := Encoders(l, m, d);
  }

  /** Header fields and payloads put together are the block. */
  lemma Assembled(fr: Freqs, lmds: seq<LMD>, lits: seq<byte>, h: Header, freqBytes: seq<byte>, lit: seq<byte>,
      lmd: seq<byte>)
    requires BlockOk(fr, lmds, lits) && FreqsPackable(fr)
    requires freqBytes == PackBits(FreqCode.FreqBits(JoinFreqs(fr)))
    requires lit == PackBits(EncodeLits(fr.literal, lits, []).bits)
    requires lmd == PackBits(EncodeLmds(fr, DeltaDistances(lmds, 0), []).bits)
    requires var s, t := EncodeLits(fr.literal, lits, []), EncodeLmds(fr, DeltaDistances(lmds, 0), []);
             h == Header(LitSum(lmds) + MatchSum(lmds), |lits|, |lmds|, |lit|, 8 + |lmd|,
                         |s.bits| - 8 * |lit|, s.s0, s.s1, s.s2, s.s3, |t.bits| - 8 * |lmd|, t.l, t.m, t.d, fr)
    ensures Packable(h)
    ensures EncodeBlock(fr, lmds, lits) == FixedV2(h, V2_FIXED_SIZE + |freqBytes|) + freqBytes + lit + (Zeros8() + lmd)
  {
    hide Sum, LitsCodable, LmdsCodable, ValidFreqs, PackBits, EncodeLits, EncodeLmds, DeltaDistances,
      FreqCode.FreqBits, FixedV2, Packable, CheckHeader;
    HeaderFits(fr, lmds, lits);
    assert h == BlockHeaderFor(fr, lmds, lits);
  }

  /**
   * The part of lzfse_encode_matches between the rewriting of distances and the final state update: the bytes of the
   * block, or failure when the destination, of which `start` bytes are used, has no room for them.
   */
  method BuildBlock(l: seq<nat>, m: seq<nat>, d: seq<nat>, lits: seq<byte>, start: nat, dstSize: nat,
      ghost lmds: seq<LMD>)
    returns (ok: bool, block: seq<byte>, ghost fr: Freqs)
    requires |l| == |m| == |d| <= MATCHES_PER_BLOCK && |lits| <= LITERALS_PER_BLOCK && |lits| % 4 == 0
    requires DeltaDistances(lmds, 0) == Zip(l, m, d)
    requires forall i :: 0 <= i < |l| ==> l[i] <= MAX_L_VALUE && m[i] <= MAX_M_VALUE && d[i] <= MAX_D_VALUE
    requires forall i :: 0 <= i < |lmds| ==> InRange(lmds[i])
    ensures ok ==> BlockOk(fr, lmds, lits) && block == EncodeBlock(fr, lmds, lits) && start + |block| <= dstSize
    ensures !ok ==> start + EncodedBound(|lits|, |l|) > dstSize
  {
    hide Sum, LitsCodable, LmdsCodable, ValidFreqs, IsEncoderTable, PackBits, EncodeLits, EncodeLmds, DeltaDistances,
      FreqCode.FreqBits, FixedV2, Packable, EncodeBlock, LitSum, MatchSum, FreqsPackable, Zip;
    block := [];
    var freqs := BlockFreqs(l, m, d, lits);
    fr := freqs;
    if start + V2_FULL_SIZE > dstSize {
      return false, [], fr;
    }
    FreqsAreSmall(fr);
    var freqBytes := FreqCode.EncodeFreqTable(JoinFreqs(freqs));
    FreqCode.FreqBitsLength(JoinFreqs(fr));
    var headerSize := V2_FIXED_SIZE + |freqBytes|;
    var encoders, literalEncoder := BlockEncoders(freqs);

    var okLit, lit, litEnd := EncodeLiteralPayload(lits, literalEncoder, start + headerSize, dstSize, fr.literal);
    if !okLit {
      return false, [], fr;
    }
    var lmdStart := start + headerSize + |lit.buf|;
    if lmdStart + 8 > dstSize {
      return false, [], fr;
    }
    var okLmd, lmd, lmdEnd := EncodeLmdPayload(Zip(l, m, d), encoders, lmdStart + 8, dstSize, fr);
    if !okLmd {
      return false, [], fr;
    }
    var nRawBytes := RawBytes(l, m, d);
    var h := Header(nRawBytes, |lits|, |l|, |lit.buf|, 8 + |lmd.buf|,
                    lit.accumNbits, litEnd.s0, litEnd.s1, litEnd.s2, litEnd.s3,
                    lmd.accumNbits, lmdEnd.l, lmdEnd.m, lmdEnd.d, freqs);
    SameSums(lmds, l, m, d);
    Assembled(fr, lmds, lits, h, freqBytes, lit.buf, lmd.buf);
    ok := true;
    block := FixedV2(h, headerSize) + freqBytes + lit.buf + (Zeros8() + lmd.buf);
  }

  /** Rewriting distances does not change the lengths. */
  lemma {:induction false} DeltaKeepsSums(lmds: seq<LMD>, prev: nat)
    ensures LitSum(DeltaDistances(lmds, prev)) == LitSum(lmds) && MatchSum(DeltaDistances(lmds, prev)) == MatchSum(lmds)
  {
    if lmds != [] {
      var next := if lmds[0].d == prev then prev else lmds[0].d;
      DeltaKeepsSums(lmds[1..], next);
      assert DeltaDistances(lmds, prev)[1..] == DeltaDistances(lmds[1..], next);
    }
  }

  lemma SameSums(lmds: seq<LMD>, l: seq<nat>, m: seq<nat>, d: seq<nat>)
    requires |l| == |m| == |d| && DeltaDistances(lmds, 0) == Zip(l, m, d)
    ensures LitSum(Zip(l, m, d)) == LitSum(lmds) && MatchSum(Zip(l, m, d)) == MatchSum(lmds) && |l| == |lmds|
  {
    DeltaKeepsSums(lmds, 0);
  }
}
