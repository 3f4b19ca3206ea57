/** The imperative FSE coder: table construction loops, and the coding steps on the accumulators. */
module FseCoder {
  import opened Bits
  import opened BitStream
  import opened Fse

  function Int16(x: int): int {
    (x + 0x8000) % 0x1_0000 - 0x8000
  }

  function Uint16(x: int): nat {
    x % 0x1_0000
  }

  /** fse_init_encoder_table. Entries of symbols that do not occur are left alone. */
  method InitEncoderTable(nstates: nat, freq: seq<nat>, t: array<EncoderEntry>)
    requires ValidFreq(freq, nstates) && nstates <= 1024 && t.Length == |freq|
    modifies t
    ensures IsEncoderTable(t[..], nstates, freq)
  {
    hide Shr, Shl, Log2, Int16;
    var offset := 0;
    for i := 0 to |freq|
      invariant offset == Offset(freq, i)
      invariant forall j :: 0 <= j < i && freq[j] > 0 ==> IsEncoderEntry(t[j], nstates, freq[j], Offset(freq, j))
    {
      OffsetStep(freq, i);
      var f := freq[i];
      if f == 0 {
        continue;
      }
      OffsetBound(freq, i);
      var k := SymbolShift(nstates, f);
      EncoderEntryRange(nstates, f, offset);
      // nstates >> (k - 1) has no meaning when k == 0; that entry is never used
      var delta1: int := *;
      if k > 0 {
        delta1 := Int16(offset - f + Shr(nstates, k - 1));
      }
      t[i] := EncoderEntry(Int16(Shl(f, k) - nstates), Int16(k), Int16(offset - f + Shr(nstates, k)), delta1);
      offset := offset + f;
    }
  }

  /** Every field fits in 16 bits. */
  lemma EncoderEntryRange(nstates: nat, f: nat, offset: nat)
    requires IsPow2(nstates) && 0 < f && offset + f <= nstates <= 1024
    ensures var k := SymbolShift(nstates, f);
            && 0 <= k <= 10 && Int16(k) == k
            && Int16(Shl(f, k) - nstates) == Shl(f, k) - nstates
            && Int16(offset - f + Shr(nstates, k)) == offset - f + Shr(nstates, k)
            && (k > 0 ==> Int16(offset - f + Shr(nstates, k - 1)) == offset - f + Shr(nstates, k - 1))
  {
    hide Shl, Shr, IsPow2, SymbolShift, Log2;
    SymbolShiftRange(nstates, f);
    StatesAtMost1024(nstates);
    var k := SymbolShift(nstates, f);
    ShrAtMost(nstates, k);
    if k > 0 {
      ShrAtMost(nstates, k - 1);
    }
  }

  /** The entries of one symbol. */
  method FillSymbol(nstates: nat, sym: nat, f: nat, t: array<DecoderEntry>, p: nat)
    requires nstates > 0 && p + f <= t.Length
    modifies t
    ensures t[..p + f] == old(t[..p]) + SymbolEntries(nstates, sym, f, f)
    ensures forall m :: p + f <= m < t.Length ==> t[m] == old(t[m])
  {
    hide DecoderEntryFor;
    for j := 0 to f
      invariant t[..p + j] == old(t[..p]) + SymbolEntries(nstates, sym, f, j)
      invariant forall m :: p + j <= m < t.Length ==> t[m] == old(t[m])
    {
      t[p + j] := DecoderEntryFor(nstates, sym, f, j);
      assert t[..p + j + 1] == t[..p + j] + [t[p + j]];
    }
  }

  /** fse_init_decoder_table: fails when the frequencies ask for more states than there are. */
  method InitDecoderTable(nstates: nat, freq: seq<nat>, t: array<DecoderEntry>) returns (ok: bool)
    requires IsPow2(nstates) && nstates <= 1024 && |freq| <= 256 && nstates == t.Length
    modifies t
    ensures ok == (Sum(freq) <= nstates)
    ensures ok ==> t[..Sum(freq)] == DecoderTable(nstates, freq) && t[Sum(freq)..] == old(t[Sum(freq)..])
  {
    hide DecoderEntryFor, Log2, SymbolEntries;
    ghost var t0 := t[..];
    var p := 0;
    assert freq[..|freq|] == freq;
    for i := 0 to |freq|
      invariant p == Offset(freq, i) <= t.Length
      invariant t[..p] == DecoderTableUpTo(nstates, freq, i)
      invariant forall m :: p <= m < t.Length ==> t[m] == t0[m]
    {
      OffsetStep(freq, i);
      OffsetBound(freq, i);
      if p + freq[i] > nstates {
        return false;
      }
      FillSymbol(nstates, i, freq[i], t, p);
      p := p + freq[i];
    }
    return true;
  }

  /** The entries of one symbol, with its extra bits and base value. */
  method FillSymbolValues(nstates: nat, sym: nat, f: nat, vbits: seq<nat>, vbase: seq<nat>, t: array<ValueEntry>,
      p: nat, ghost done: seq<DecoderEntry>)
    requires nstates > 0 && p + f <= t.Length && sym < |vbits| == |vbase|
    requires t[..p] == ToValueEntries(done, vbits, vbase)
    modifies t
    ensures t[..p + f] == ToValueEntries(done + SymbolEntries(nstates, sym, f, f), vbits, vbase)
    ensures forall m :: p + f <= m < t.Length ==> t[m] == old(t[m])
  {
    for j := 0 to f
      invariant t[..p + j] == ToValueEntries(done + SymbolEntries(nstates, sym, f, j), vbits, vbase)
      invariant forall m :: p + j <= m < t.Length ==> t[m] == old(t[m])
    {
      t[p + j] := ToValueEntry(DecoderEntryFor(nstates, sym, f, j), vbits[sym], vbase[sym]);
      assert t[..p + j + 1] == t[..p + j] + [t[p + j]];
      assert done + SymbolEntries(nstates, sym, f, j + 1)
          == done + SymbolEntries(nstates, sym, f, j) + [DecoderEntryFor(nstates, sym, f, j)];
    }
  }

  /** fse_init_value_decoder_table. */
  method InitValueDecoderTable(nstates: nat, freq: seq<nat>, vbits: seq<nat>, vbase: seq<nat>, t: array<ValueEntry>)
    requires IsPow2(nstates) && nstates <= 1024 && |freq| <= 256 && Sum(freq) <= nstates == t.Length
    requires |freq| == |vbits| == |vbase|
    modifies t
    ensures t[..Sum(freq)] == ValueTable(nstates, freq, vbits, vbase)
    ensures t[Sum(freq)..] == old(t[Sum(freq)..])
  {
    ghost var t0 := t[..];
    var p := 0;
    assert freq[..|freq|] == freq;
    for i := 0 to |freq|
      invariant p == Offset(freq, i) <= t.Length
      invariant t[..p] == ToValueEntries(DecoderTableUpTo(nstates, freq, i), vbits, vbase)
      invariant forall m :: p <= m < t.Length ==> t[m] == t0[m]
    {
      OffsetStep(freq, i);
      OffsetBound(freq, i);
      FillSymbolValues(nstates, i, freq[i], vbits, vbase, t, p, DecoderTableUpTo(nstates, freq, i));
      p := p + freq[i];
    }
  }

  /** fse_encode. */
  method Encode(state: nat, t: array<EncoderEntry>, out: OutStream, symbol: nat, ghost nstates: nat,
      ghost freq: seq<nat>)
    returns (next: nat)
    requires CanEncode(nstates, freq, symbol, state) && nstates <= 1024
    requires IsEncoderTable(t[..], nstates, freq)
    requires out.Valid() && out.accumNbits + Log2(nstates) <= 64
    modifies out
    ensures out.Valid() && out.buf == old(out.buf)
    ensures Coded(next, out.Bits()) == EncodeSymbol(nstates, freq, symbol, state, old(out.Bits()))
    ensures out.accumNbits <= old(out.accumNbits) + Log2(nstates)
  {
    hide Shr, Shl, Log2, Uint16, Mask, Pow2;
    var e := t[symbol];
    OffsetBound(freq, symbol);
    StepRange(nstates, freq[symbol], state);
    assert t[..][symbol] == e;
    var hi := state >= e.s0;
    var nbits := if hi then e.k else e.k - 1;
    var delta := Uint16(if hi then e.delta0 else e.delta1);
    assert nbits == StepBits(nstates, freq[symbol], state);
    var b := Mask(state, nbits);
    StepLands(nstates, freq, symbol, state);
    WrapAdd(if hi then e.delta0 else e.delta1, Shr(state, nbits), StepState(nstates, freq[symbol], Offset(freq,
        symbol), state));
    out.PushBits(nbits, b);
    next := Uint16(delta + Shr(state, nbits));
  }

  /** The 16-bit state arithmetic wraps to the intended state. */
  lemma WrapAdd(d: int, x: int, r: int)
    requires d + x == r && 0 <= r < 0x1_0000
    ensures Uint16(Uint16(d) + x) == r
  {
  }

  /** fse_decode. */
  method Decode(state: nat, t: array<DecoderEntry>, stream: InStream) returns (symbol: nat, next: nat)
    requires stream.Valid() && stream.accumNbits >= 10
    requires DecoderTableOk(t[..]) && state < t.Length <= 1024
    modifies stream
    ensures stream.Valid() && stream.accumNbits >= old(stream.accumNbits) - 10
    ensures |old(stream.Bits())| >= 10
    ensures Decoded(symbol, next, stream.Bits()) == DecodeSymbol(t[..], state, old(stream.Bits()))
  {
    var e := t[state];
    assert t[..][state] == e;
    var pulled := stream.Pull(e.k);
    next := Uint16(e.delta + pulled);
    symbol := e.symbol;
  }

  /** fse_value_decode. */
  method ValueDecode(state: nat, t: array<ValueEntry>, stream: InStream, maxBits: nat) returns (value: int, next: nat)
    requires stream.Valid() && stream.accumNbits >= maxBits
    requires ValueTableOk(t[..], maxBits) && state < t.Length <= 1024
    modifies stream
    ensures stream.Valid() && stream.accumNbits >= old(stream.accumNbits) - maxBits
    ensures |old(stream.Bits())| >= maxBits
    ensures Decoded(value, next, stream.Bits()) == DecodeValue(t[..], maxBits, state, old(stream.Bits()))
  {
    var e := t[state];
    assert t[..][state] == e;
    var stateAndValueBits := stream.Pull(e.totalBits);
    ShrBound(stateAndValueBits, e.valueBits, e.totalBits - e.valueBits);
    next := Uint16(e.delta + Shr(stateAndValueBits, e.valueBits));
    value := e.vbase + Mask(stateAndValueBits, e.valueBits);
  }
}
