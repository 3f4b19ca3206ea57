/** Finite state entropy (tANS) coding: tables, one coding step, and the proof that decoding inverts encoding. */
module Fse {
  import opened Bits
  import opened BitStream
  import opened Options

  /** floor(log2(x)). */
  function Log2(x: nat): (e: nat)
    requires x > 0
    ensures Pow2(e) <= x < Pow2(e + 1)
  {
    if x == 1 then 0 else 1 + Log2(x / 2)
  }

  /** __builtin_clz. */
  function Clz(x: nat): int
    requires x > 0
  {
    31 - Log2(x)
  }

  ghost predicate IsPow2(n: nat) {
    n > 0 && n == Pow2(Log2(n))
  }

  function Sum(freq: seq<nat>): nat {
    if freq == [] then 0 else Sum(freq[..|freq| - 1]) + freq[|freq| - 1]
  }

  /** The first state of symbol `sym`. */
  function Offset(freq: seq<nat>, sym: nat): nat
    requires sym <= |freq|
  {
    Sum(freq[..sym])
  }

  /** A frequency table that hands out every state exactly once. */
  ghost predicate ValidFreq(freq: seq<nat>, nstates: nat) {
    IsPow2(nstates) && Sum(freq) == nstates
  }

  /** The shift k with nstates <= (f << k) < 2 * nstates. */
  function SymbolShift(nstates: nat, f: nat): (k: int)
    requires f > 0 && nstates > 0
  {
    Clz(f) - Clz(nstates)
  }

  // ----- one encoding step, as arithmetic on states

  /** Number of low bits of the state that are written out when encoding a symbol of frequency f. */
  function StepBits(nstates: nat, f: nat, s: nat): int
    requires f > 0 && nstates > 0
  {
    var k := SymbolShift(nstates, f);
    if k >= 0 && s + nstates >= Shl(f, k) then k else k - 1
  }

  /** The state after encoding a symbol of frequency f and first state `offset`. */
  function StepState(nstates: nat, f: nat, offset: nat, s: nat): int
    requires f > 0 && nstates > 0 && StepBits(nstates, f, s) >= 0
  {
    offset + Shr(s + nstates, StepBits(nstates, f, s)) - f
  }

  // ----- tables

  datatype EncoderEntry = EncoderEntry(s0: int, k: int, delta0: int, delta1: int)

  datatype DecoderEntry = DecoderEntry(k: int, symbol: nat, delta: int)

  datatype ValueEntry = ValueEntry(totalBits: int, valueBits: nat, delta: int, vbase: int)

  /** delta1 is only defined, and only used, when k > 0. */
  ghost predicate IsEncoderEntry(e: EncoderEntry, nstates: nat, f: nat, offset: nat)
    requires f > 0 && nstates > 0
  {
    var k := SymbolShift(nstates, f);
    && k >= 0
    && e.k == k
    && e.s0 == Shl(f, k) - nstates
    && e.delta0 == offset - f + Shr(nstates, k)
    && (k > 0 ==> e.delta1 == offset - f + Shr(nstates, k - 1))
  }

  ghost predicate IsEncoderTable(t: seq<EncoderEntry>, nstates: nat, freq: seq<nat>)
    requires nstates > 0
  {
    && |t| == |freq|
    && forall i :: 0 <= i < |freq| && freq[i] > 0 ==> IsEncoderEntry(t[i], nstates, freq[i], Offset(freq, i))
  }

  /** The decoder entry of the j-th state of a symbol of frequency f. */
  function DecoderEntryFor(nstates: nat, sym: nat, f: nat, j: nat): DecoderEntry
    requires f > 0 && nstates > 0
  {
    var k := SymbolShift(nstates, f);
    if k < 0 then DecoderEntry(0, sym, 0)
    else
      var j0 := Shr(2 * nstates, k) - f;
      if j < j0 then DecoderEntry(k, sym, Shl(f + j, k) - nstates)
      else if k == 0 then DecoderEntry(0, sym, 0)
      else DecoderEntry(k - 1, sym, Shl(j - j0, k - 1))
  }

  function SymbolEntries(nstates: nat, sym: nat, f: nat, count: nat): (t: seq<DecoderEntry>)
    requires nstates > 0 && count <= f
    ensures |t| == count
  {
    seq(count, j requires 0 <= j < count => DecoderEntryFor(nstates, sym, f, j))
  }

  /** The states of the first n symbols, symbol after symbol. */
  function DecoderTableUpTo(nstates: nat, freq: seq<nat>, n: nat): (t: seq<DecoderEntry>)
    requires nstates > 0 && n <= |freq|
    ensures |t| == Offset(freq, n)
  {
    if n == 0 then []
    else
      assert freq[..n][..n - 1] == freq[..n - 1];
      DecoderTableUpTo(nstates, freq, n - 1) + SymbolEntries(nstates, n - 1, freq[n - 1], freq[n - 1])
  }

  function DecoderTable(nstates: nat, freq: seq<nat>): (t: seq<DecoderEntry>)
    requires nstates > 0
    ensures |t| == Sum(freq)
  {
    assert freq[..|freq|] == freq;
    DecoderTableUpTo(nstates, freq, |freq|)
  }

  function ToValueEntry(e: DecoderEntry, vbits: nat, vbase: int): ValueEntry {
    ValueEntry(e.k + vbits, vbits, e.delta, vbase)
  }

  // ----- offsets

  lemma {:induction false} OffsetStep(freq: seq<nat>, i: nat)
    requires i < |freq|
    ensures Offset(freq, i + 1) == Offset(freq, i) + freq[i]
  {
    assert freq[..i + 1][..i] == freq[..i];
  }

  lemma {:induction false} OffsetMonotone(freq: seq<nat>, i: nat, j: nat)
    requires i <= j <= |freq|
    ensures Offset(freq, i) <= Offset(freq, j)
    decreases j
  {
    if i < j {
      OffsetMonotone(freq, i, j - 1);
      OffsetStep(freq, j - 1);
    }
  }

  lemma OffsetBound(freq: seq<nat>, i: nat)
    requires i < |freq|
    ensures Offset(freq, i) + freq[i] <= Sum(freq)
  {
    OffsetStep(freq, i);
    OffsetMonotone(freq, i + 1, |freq|);
    assert freq[..|freq|] == freq;
  }

  lemma {:induction false} DecoderTableAt(nstates: nat, freq: seq<nat>, n: nat, sym: nat, j: nat)
    requires nstates > 0 && sym < n <= |freq| && j < freq[sym]
    ensures Offset(freq, sym) + j < Offset(freq, n)
    ensures DecoderTableUpTo(nstates, freq, n)[Offset(freq, sym) + j] == DecoderEntryFor(nstates, sym, freq[sym], j)
  {
    OffsetStep(freq, n - 1);
    if sym < n - 1 {
      DecoderTableAt(nstates, freq, n - 1, sym, j);
    }
  }

  // ----- the arithmetic of one step

  lemma {:induction false} Pow2LessInverse(a: nat, b: nat)
    requires Pow2(a) < Pow2(b)
    ensures a < b
  {
    if b <= a {
      Pow2Monotone(b, a);
    }
  }

  lemma Log2Unique(x: nat, e: nat)
    requires Pow2(e) <= x < Pow2(e + 1) && x > 0
    ensures Log2(x) == e
  {
    Pow2LessInverse(e, Log2(x) + 1);
    Pow2LessInverse(Log2(x), e + 1);
  }

  lemma Log2Monotone(x: nat, y: nat)
    requires 0 < x <= y
    ensures Log2(x) <= Log2(y)
  {
    Pow2LessInverse(Log2(x), Log2(y) + 1);
  }

  /** k is the shift that brings f into [nstates, 2 * nstates). */
  lemma SymbolShiftRange(nstates: nat, f: nat)
    requires IsPow2(nstates) && 0 < f <= nstates
    ensures var k := SymbolShift(nstates, f);
            0 <= k <= Log2(nstates) && nstates <= Shl(f, k) < 2 * nstates
  {
    Log2Monotone(f, nstates);
    var e := Log2(f);
    var k := Log2(nstates) - e;
    Pow2Add(e, k);
    Pow2Add(e + 1, k);
    assert Pow2(e + k + 1) == 2 * Pow2(e + k);
    ProductBetween(Pow2(e), f, Pow2(e + 1), Pow2(k));
  }

  lemma ProductBetween(a: nat, x: nat, b: nat, d: nat)
    requires a <= x < b && d > 0
    ensures a * d <= x * d < b * d
  {
    MulMonotone(a, x, d);
    MulAtLeast(b - x, d);
    assert x * d == b * d - (b - x) * d;
  }

  /** Shifting a multiple of 2^n added to s shifts it separately. */
  lemma ShrAddMultiple(s: nat, q: nat, n: nat)
    ensures Shr(s + Shl(q, n), n) == Shr(s, n) + q
    ensures Mask(s + Shl(q, n), n) == Mask(s, n)
  {
    var r := Mask(s, n);
    assert s + Shl(q, n) == r + Shl(Shr(s, n) + q, n);
    ShrMaskOfSum(r, n, Shr(s, n) + q);
  }

  lemma Pow2AsShift(lg: nat, n: nat)
    requires n <= lg
    ensures Pow2(lg) == Shl(Pow2(lg - n), n) && Shr(Pow2(lg), n) == Pow2(lg - n)
  {
    Pow2Add(lg - n, n);
    ShrMaskOfSum(0, n, Pow2(lg - n));
  }

  lemma ShrMonotone(a: nat, b: nat, n: nat)
    requires a <= b
    ensures Shr(a, n) <= Shr(b, n)
  {
    if Shr(b, n) + 1 <= Shr(a, n) {
      MulMonotone(Shr(b, n) + 1, Shr(a, n), Pow2(n));
    }
  }

  lemma ShrBelow(a: nat, q: nat, n: nat)
    requires a < Shl(q, n)
    ensures Shr(a, n) < q
  {
    if q <= Shr(a, n) {
      MulMonotone(q, Shr(a, n), Pow2(n));
    }
  }

  lemma ShlCancel(a: nat, b: nat, n: nat)
    requires Shl(a, n) < Shl(b, n)
    ensures a < b
  {
    if b <= a {
      MulMonotone(b, a, Pow2(n));
    }
  }

  lemma ShrOfShl(q: nat, n: nat)
    ensures Shr(Shl(q, n), n) == q
  {
    ShrMaskOfSum(0, n, q);
  }

  /** nstates >> (k - 1) == (2 * nstates) >> k, and f does not exceed it. */
  lemma HalfShift(nstates: nat, f: nat, k: nat)
    requires IsPow2(nstates) && 0 < f <= nstates && k == SymbolShift(nstates, f) && k > 0
    ensures Shr(2 * nstates, k) == Shr(nstates, k - 1)
    ensures f <= Shr(nstates, k - 1)
    ensures Shl(Shr(nstates, k - 1), k - 1) == nstates
  {
    SymbolShiftRange(nstates, f);
    var lg := Log2(nstates);
    Pow2AsShift(lg, k - 1);
    Pow2AsShift(lg + 1, k);
    ShlCancel(f, Pow2(lg + 1 - k), k);
  }

  lemma ShlTwice(f: nat, k: nat)
    requires k > 0
    ensures Shl(f, k) == Shl(2 * f, k - 1)
    ensures Shl(2 * f, k) == 2 * Shl(f, k)
  {
  }

  /** Encoding a symbol leaves x = X >> nbits in [f, 2f), where X = s + nstates. */
  lemma StepRange(nstates: nat, f: nat, s: nat)
    requires IsPow2(nstates) && 0 < f <= nstates && s < nstates
    ensures var nbits := StepBits(nstates, f, s);
            && 0 <= nbits <= SymbolShift(nstates, f) <= Log2(nstates)
            && f <= Shr(s + nstates, nbits) < 2 * f
            && Shr(s + nstates, nbits) == Shr(s, nbits) + Shr(nstates, nbits)
  {
    hide Log2, Pow2, Shl;
    SymbolShiftRange(nstates, f);
    var k := SymbolShift(nstates, f);
    var X := s + nstates;
    if X >= Shl(f, k) {
      StepRangeHigh(f, X, k);
    } else {
      StepRangeLow(nstates, f, s, k);
    }
    var nbits := StepBits(nstates, f, s);
    Pow2AsShift(Log2(nstates), nbits);
    ShrAddMultiple(s, Pow2(Log2(nstates) - nbits), nbits);
  }

  lemma StepRangeHigh(f: nat, X: nat, k: nat)
    requires Shl(f, k) <= X < 2 * Shl(f, k)
    ensures f <= Shr(X, k) < 2 * f
  {
    ShrMonotone(Shl(f, k), X, k);
    ShrOfShl(f, k);
    assert Shl(2 * f, k) == 2 * Shl(f, k);
    ShrBelow(X, 2 * f, k);
  }

  lemma StepRangeLow(nstates: nat, f: nat, s: nat, k: nat)
    requires IsPow2(nstates) && 0 < f <= nstates && k == SymbolShift(nstates, f)
    requires nstates <= Shl(f, k) && s + nstates < Shl(f, k)
    ensures k > 0 && f <= Shr(s + nstates, k - 1) < 2 * f
  {
    assert k > 0;
    ShlTwice(f, k);
    ShrBelow(s + nstates, 2 * f, k - 1);
    ShrMonotone(nstates, s + nstates, k - 1);
    HalfShift(nstates, f, k);
  }

  /** The decoder entry of the state reached by encoding from s undoes the step. */
  lemma StepInverse(nstates: nat, sym: nat, f: nat, s: nat)
    requires IsPow2(nstates) && 0 < f <= nstates && s < nstates
    ensures var nbits := StepBits(nstates, f, s);
            && nbits >= 0
            && f <= Shr(s + nstates, nbits) < 2 * f
            && var e := DecoderEntryFor(nstates, sym, f, Shr(s + nstates, nbits) - f);
            && e.symbol == sym && e.k == nbits && e.delta + Mask(s, nbits) == s
  {
    hide Shl, Shr, Mask, Log2;
    StepRange(nstates, f, s);
    SymbolShiftRange(nstates, f);
    var k := SymbolShift(nstates, f);
    var nbits := StepBits(nstates, f, s);
    var X := s + nstates;
    var x := Shr(X, nbits);
    ShrSplit(X, nbits);
    Pow2AsShift(Log2(nstates), nbits);
    ShrAddMultiple(s, Pow2(Log2(nstates) - nbits), nbits);
    if nbits == k {
      Pow2AsShift(Log2(nstates) + 1, k);
      ShrBelow(X, Shr(2 * nstates, k), k);
    } else {
      HalfShift(nstates, f, k);
      ShrMonotone(nstates, X, k - 1);
      ShlMinus(x, Shr(nstates, k - 1), k - 1);
    }
  }

  lemma ShrSplit(x: nat, n: nat)
    ensures x == Shl(Shr(x, n), n) + Mask(x, n)
  {
  }

  lemma ShlMinus(a: nat, b: nat, n: nat)
    requires b <= a
    ensures Shl(a - b, n) == Shl(a, n) - Shl(b, n)
  {
  }

  // ----- coding one symbol or value on the bit stack

  datatype Coded = Coded(state: nat, bits: seq<bool>)

  datatype Decoded = Decoded(value: int, state: nat, bits: seq<bool>)

  ghost predicate CanEncode(nstates: nat, freq: seq<nat>, sym: nat, s: nat) {
    ValidFreq(freq, nstates) && sym < |freq| && freq[sym] > 0 && s < nstates
  }

  function EncodeSymbol(nstates: nat, freq: seq<nat>, sym: nat, s: nat, bits: seq<bool>): (c: Coded)
    requires CanEncode(nstates, freq, sym, s)
  {
    OffsetBound(freq, sym);
    StepRange(nstates, freq[sym], s);
    var nbits := StepBits(nstates, freq[sym], s);
    Coded(StepState(nstates, freq[sym], Offset(freq, sym), s), Push(bits, nbits, Mask(s, nbits)))
  }

  /** The extra bits of a value go under the bits of its symbol. */
  function EncodeValue(nstates: nat, freq: seq<nat>, sym: nat, vbits: nat, extra: nat, s: nat,
      bits: seq<bool>): (c: Coded)
    requires CanEncode(nstates, freq, sym, s)
  {
    EncodeSymbol(nstates, freq, sym, s, Push(bits, vbits, extra))
  }

  /** Entries from which decoding stays inside a table of nstates entries. */
  predicate DecoderEntryOk(e: DecoderEntry, nstates: nat) {
    0 <= e.k <= 10 && 0 <= e.delta && e.delta + Pow2(e.k) <= nstates && e.symbol < 256
  }

  predicate DecoderTableOk(t: seq<DecoderEntry>) {
    forall i :: 0 <= i < |t| ==> DecoderEntryOk(t[i], |t|)
  }

  predicate ValueEntryOk(e: ValueEntry, nstates: nat, maxBits: nat) {
    && 0 <= e.totalBits - e.valueBits && e.totalBits <= maxBits
    && 0 <= e.delta && e.delta + Pow2(e.totalBits - e.valueBits) <= nstates
    && e.vbase >= 0
  }

  predicate ValueTableOk(t: seq<ValueEntry>, maxBits: nat) {
    forall i :: 0 <= i < |t| ==> ValueEntryOk(t[i], |t|, maxBits)
  }

  function DecodeSymbol(t: seq<DecoderEntry>, s: nat, bits: seq<bool>): (d: Decoded)
    requires DecoderTableOk(t) && s < |t| && |bits| >= 10
    ensures d.state < |t| && 0 <= d.value < 256 && |bits| - 10 <= |d.bits|
  {
    var e := t[s];
    TopBound(bits, e.k);
    Decoded(e.symbol, e.delta + Top(bits, e.k), Pop(bits, e.k))
  }

  function DecodeValue(t: seq<ValueEntry>, maxBits: nat, s: nat, bits: seq<bool>): (d: Decoded)
    requires ValueTableOk(t, maxBits) && s < |t| && |bits| >= maxBits
    ensures d.state < |t| && 0 <= d.value && |bits| - maxBits <= |d.bits|
  {
    var e := t[s];
    var v := Top(bits, e.totalBits);
    TopBound(bits, e.totalBits);
    ShrBound(v, e.valueBits, e.totalBits - e.valueBits);
    Decoded(e.vbase + Mask(v, e.valueBits), e.delta + Shr(v, e.valueBits), Pop(bits, e.totalBits))
  }

  function ValueTable(nstates: nat, freq: seq<nat>, vbits: seq<nat>, vbase: seq<nat>): (t: seq<ValueEntry>)
    requires nstates > 0 && |freq| <= |vbits| && |freq| <= |vbase|
    ensures |t| == Sum(freq)
  {
    ToValueEntries(DecoderTable(nstates, freq), vbits, vbase)
  }

  function ToValueEntries(t: seq<DecoderEntry>, vbits: seq<nat>, vbase: seq<nat>): (v: seq<ValueEntry>)
    ensures |v| == |t|
  {
    seq(|t|, i requires 0 <= i < |t| =>
      if t[i].symbol < |vbits| && t[i].symbol < |vbase|
      then ToValueEntry(t[i], vbits[t[i].symbol], vbase[t[i].symbol])
      else ToValueEntry(t[i], 0, 0))
  }

  // ----- decoding inverts encoding

  /** One step of a decoder with a table of any size, if the entry and the bits allow it. */
  function DecodeNext(t: seq<DecoderEntry>, s: nat, bits: seq<bool>): Option<Decoded> {
    if s < |t| && 0 <= t[s].k <= |bits| && t[s].delta >= 0
    then Some(Decoded(t[s].symbol, t[s].delta + Top(bits, t[s].k), Pop(bits, t[s].k)))
    else None
  }

  function DecodeNextValue(t: seq<ValueEntry>, s: nat, bits: seq<bool>): Option<Decoded> {
    if s < |t| && t[s].valueBits <= t[s].totalBits <= |bits| && t[s].delta >= 0 then
      var v := Top(bits, t[s].totalBits);
      Some(Decoded(t[s].vbase + Mask(v, t[s].valueBits), t[s].delta + Shr(v, t[s].valueBits), Pop(bits, t[s].totalBits)))
    else None
  }

  /**
   * Encoding stays within the states, and decoding from the new state gives back symbol, state and bits, for tables
   * of any size; the decoder of the program, which expects at most 1024 states and 256 symbols, does so on every
   * table within these sizes.
   */
  lemma SymbolRoundTrip(nstates: nat, freq: seq<nat>, sym: nat, s: nat, bits: seq<bool>)
    requires CanEncode(nstates, freq, sym, s)
    ensures var c, t := EncodeSymbol(nstates, freq, sym, s, bits), DecoderTable(nstates, freq);
            && c.state < nstates == |t| && |bits| <= |c.bits| <= |bits| + Log2(nstates)
            && DecodeNext(t, c.state, c.bits) == Some(Decoded(sym, s, bits))
            && (nstates <= 1024 && |freq| <= 256 ==>
                  DecoderTableOk(t) && (|c.bits| >= 10 ==> DecodeSymbol(t, c.state, c.bits) == Decoded(sym, s, bits)))
  {
    hide Shl, Shr, Mask, Pow2, Log2;
    StepLands(nstates, freq, sym, s);
    var nbits := StepBits(nstates, freq[sym], s);
    PopPush(bits, nbits, Mask(s, nbits));
    if nstates <= 1024 && |freq| <= 256 {
      DecoderTableIsOk(nstates, freq);
    }
  }

  /** One value coded as a symbol with extra bits, with tables of any size. */
  lemma ValueStep(nstates: nat, freq: seq<nat>, vbits: seq<nat>, vbase: seq<nat>, sym: nat, extra: nat, s: nat,
                  bits: seq<bool>)
    requires CanEncode(nstates, freq, sym, s) && |vbits| == |vbase| == |freq| && extra < Pow2(vbits[sym])
    ensures var c, t := EncodeValue(nstates, freq, sym, vbits[sym], extra, s, bits), ValueTable(nstates, freq, vbits, vbase);
            && c.state < nstates == |t| && |bits| <= |c.bits| <= |bits| + vbits[sym] + Log2(nstates)
            && DecodeNextValue(t, c.state, c.bits) == Some(Decoded(vbase[sym] + extra, s, bits))
  {
    hide Shl, Shr, Mask, Pow2, Log2, ValueTable, DecoderTable, StepBits, StepState, Top, Pop, Push;
    StepLands(nstates, freq, sym, s);
    var nbits := StepBits(nstates, freq[sym], s);
    ValueEntryAt(nstates, freq, vbits, vbase, StepState(nstates, freq[sym], Offset(freq, sym), s));
    PopPushTwo(bits, vbits[sym], extra, nbits, Mask(s, nbits));
    PushedLength(bits, vbits[sym], extra);
    PushedLength(Push(bits, vbits[sym], extra), nbits, Mask(s, nbits));
  }

  lemma PushedLength(bits: seq<bool>, n: nat, b: nat)
    requires b < Pow2(n)
    ensures |Push(bits, n, b)| == |bits| + n
  {
  }

  lemma ValueEntryAt(nstates: nat, freq: seq<nat>, vbits: seq<nat>, vbase: seq<nat>, i: nat)
    requires nstates > 0 && |vbits| == |vbase| == |freq| && i < Sum(freq)
    ensures var t, e := ValueTable(nstates, freq, vbits, vbase), DecoderTable(nstates, freq)[i];
            e.symbol < |freq| ==> t[i] == ToValueEntry(e, vbits[e.symbol], vbase[e.symbol])
  {
    hide DecoderTable, Sum;
  }

  /** The same for the decoder of the program, with its bounds. */
  lemma ValueRoundTrip(nstates: nat, freq: seq<nat>, vbits: seq<nat>, vbase: seq<nat>, maxBits: nat,
                       sym: nat, extra: nat, s: nat, bits: seq<bool>)
    requires CanEncode(nstates, freq, sym, s) && |vbits| == |vbase| == |freq| && extra < Pow2(vbits[sym])
    requires forall i :: 0 <= i < |vbits| ==> vbits[i] + Log2(nstates) <= maxBits
    ensures var c, t := EncodeValue(nstates, freq, sym, vbits[sym], extra, s, bits), ValueTable(nstates, freq, vbits, vbase);
            && c.state < nstates == |t| && |bits| <= |c.bits| <= |bits| + maxBits
            && DecodeNextValue(t, c.state, c.bits) == Some(Decoded(vbase[sym] + extra, s, bits))
            && (nstates <= 1024 && |freq| <= 256 ==>
                  ValueTableOk(t, maxBits)
                  && (|c.bits| >= maxBits ==> DecodeValue(t, maxBits, c.state, c.bits) == Decoded(vbase[sym] + extra, s, bits)))
  {
    hide Shl, Shr, Mask, Pow2, Log2, EncodeValue, ValueTable;
    ValueStep(nstates, freq, vbits, vbase, sym, extra, s, bits);
    if nstates <= 1024 && |freq| <= 256 {
      ValueTableIsOk(nstates, freq, vbits, vbase, maxBits);
    }
  }

  // ----- whole strings

  ghost predicate CanEncodeAll(nstates: nat, freq: seq<nat>, syms: seq<nat>) {
    ValidFreq(freq, nstates) && forall i :: 0 <= i < |syms| ==> syms[i] < |freq| && freq[syms[i]] > 0
  }

  /** The last symbol is encoded first. */
  ghost function EncodeString(nstates: nat, freq: seq<nat>, syms: seq<nat>, s: nat, bits: seq<bool>): (c: Coded)
    requires CanEncodeAll(nstates, freq, syms) && s < nstates
    ensures c.state < nstates
  {
    if syms == [] then Coded(s, bits)
    else
      var c := EncodeString(nstates, freq, syms[1..], s, bits);
      SymbolRoundTrip(nstates, freq, syms[0], c.state, c.bits);
      EncodeSymbol(nstates, freq, syms[0], c.state, c.bits)
  }

  datatype DecodedString = DecodedString(values: seq<int>, state: nat, bits: seq<bool>)

  function DecodeString(t: seq<DecoderEntry>, s: nat, bits: seq<bool>, n: nat): Option<DecodedString>
    decreases n
  {
    if n == 0 then Some(DecodedString([], s, bits))
    else
      match DecodeNext(t, s, bits)
      case None => None
      case Some(d) => Prepended(d.value, DecodeString(t, d.state, d.bits, n - 1))
  }

  function Prepended(v: int, r: Option<DecodedString>): Option<DecodedString> {
    match r
    case None => None
    case Some(d) => Some(d.(values := [v] + d.values))
  }

  /** Any string of symbols, over any frequency table that sums to a power of two, is decoded in order. */
  lemma {:induction false} StringRoundTrip(nstates: nat, freq: seq<nat>, syms: seq<nat>, s: nat, bits: seq<bool>)
    requires CanEncodeAll(nstates, freq, syms) && s < nstates
    ensures var c := EncodeString(nstates, freq, syms, s, bits);
            DecodeString(DecoderTable(nstates, freq), c.state, c.bits, |syms|) == Some(DecodedString(syms, s, bits))
  {
    hide EncodeSymbol, DecodeNext, DecoderTable, ValidFreq, DecodeSymbol, DecoderTableOk;
    if syms != [] {
      StringRoundTrip(nstates, freq, syms[1..], s, bits);
      var c := EncodeString(nstates, freq, syms[1..], s, bits);
      SymbolRoundTrip(nstates, freq, syms[0], c.state, c.bits);
      assert [syms[0]] + syms[1..] == syms;
    }
  }

  /** A symbol with its extra bits. */
  datatype Split = Split(sym: nat, extra: nat)

  ghost predicate CanEncodeValues(nstates: nat, freq: seq<nat>, vbits: seq<nat>, values: seq<Split>) {
    && ValidFreq(freq, nstates) && |vbits| == |freq|
    && forall i :: 0 <= i < |values| ==>
         values[i].sym < |freq| && freq[values[i].sym] > 0 && values[i].extra < Pow2(vbits[values[i].sym])
  }

  ghost function EncodeValues(nstates: nat, freq: seq<nat>, vbits: seq<nat>, values: seq<Split>, s: nat,
      bits: seq<bool>): (c: Coded)
    requires CanEncodeValues(nstates, freq, vbits, values) && s < nstates
    ensures c.state < nstates
  {
    if values == [] then Coded(s, bits)
    else
      var c, v := EncodeValues(nstates, freq, vbits, values[1..], s, bits), values[0];
      SymbolRoundTrip(nstates, freq, v.sym, c.state, Push(c.bits, vbits[v.sym], v.extra));
      EncodeValue(nstates, freq, v.sym, vbits[v.sym], v.extra, c.state, c.bits)
  }

  function DecodeValues(t: seq<ValueEntry>, s: nat, bits: seq<bool>, n: nat): Option<DecodedString>
    decreases n
  {
    if n == 0 then Some(DecodedString([], s, bits))
    else
      match DecodeNextValue(t, s, bits)
      case None => None
      case Some(d) => Prepended(d.value, DecodeValues(t, d.state, d.bits, n - 1))
  }

  ghost function Joined(vbase: seq<nat>, values: seq<Split>): (r: seq<int>)
    requires forall i :: 0 <= i < |values| ==> values[i].sym < |vbase|
    ensures |r| == |values|
  {
    seq(|values|, i requires 0 <= i < |values| => vbase[values[i].sym] + values[i].extra)
  }

  /** And any string of values, each a base value plus extra bits. */
  lemma {:induction false} ValuesRoundTrip(nstates: nat, freq: seq<nat>, vbits: seq<nat>, vbase: seq<nat>,
      values: seq<Split>, s: nat, bits: seq<bool>)
    requires CanEncodeValues(nstates, freq, vbits, values) && s < nstates && |vbase| == |freq|
    ensures var c := EncodeValues(nstates, freq, vbits, values, s, bits);
            DecodeValues(ValueTable(nstates, freq, vbits, vbase), c.state, c.bits, |values|)
            == Some(DecodedString(Joined(vbase, values), s, bits))
  {
    hide EncodeValue, DecodeNextValue, ValueTable, ValidFreq, DecodeValue, ValueTableOk, Pow2, Log2;
    if values != [] {
      ValuesRoundTrip(nstates, freq, vbits, vbase, values[1..], s, bits);
      var c, v := EncodeValues(nstates, freq, vbits, values[1..], s, bits), values[0];
      ValueStep(nstates, freq, vbits, vbase, v.sym, v.extra, c.state, c.bits);
      assert [vbase[v.sym] + v.extra] + Joined(vbase, values[1..]) == Joined(vbase, values);
    }
  }

  /** The state reached by encoding carries the entry that undoes the step. */
  lemma StepLands(nstates: nat, freq: seq<nat>, sym: nat, s: nat)
    requires CanEncode(nstates, freq, sym, s)
    ensures var f := freq[sym];
            var nbits := StepBits(nstates, f, s);
            && 0 <= nbits <= Log2(nstates)
            && var s' := StepState(nstates, f, Offset(freq, sym), s);
            && 0 <= s' < nstates
            && var t := DecoderTable(nstates, freq);
            && t[s'].symbol == sym && t[s'].k == nbits && t[s'].delta + Mask(s, nbits) == s
  {
    hide Shl, Shr, Mask, Pow2, Log2;
    var f := freq[sym];
    OffsetBound(freq, sym);
    StepRange(nstates, f, s);
    StepInverse(nstates, sym, f, s);
    var j := Shr(s + nstates, StepBits(nstates, f, s)) - f;
    DecoderTableAt(nstates, freq, |freq|, sym, j);
  }

  lemma Log2AtMost(nstates: nat, e: nat)
    requires nstates > 0 && nstates <= Pow2(e)
    ensures Log2(nstates) <= e
  {
    Pow2LessInverse(Log2(nstates), e + 1);
  }

  lemma DecoderEntryIsOk(nstates: nat, sym: nat, f: nat, j: nat)
    requires IsPow2(nstates) && j < f <= nstates && Log2(nstates) <= 10 && sym < 256
    ensures DecoderEntryOk(DecoderEntryFor(nstates, sym, f, j), nstates)
    ensures DecoderEntryFor(nstates, sym, f, j).k <= Log2(nstates)
  {
    hide Shl, Shr, Log2;
    SymbolShiftRange(nstates, f);
    var k := SymbolShift(nstates, f);
    Pow2AsShift(Log2(nstates) + 1, k);
    var h := Shr(2 * nstates, k);
    if j < h - f {
      ShlRoom(f, f + j, h, k);
    } else {
      ShiftByZero(2 * nstates);
      HalfShift(nstates, f, k);
      ShlRoom(0, j - (h - f), h, k - 1);
    }
  }

  lemma ShiftByZero(x: nat)
    ensures Shl(x, 0) == x && Shr(x, 0) == x
  {
  }

  lemma ShlRoom(a: nat, b: nat, c: nat, k: nat)
    requires a <= b < c
    ensures Shl(a, k) <= Shl(b, k) && Shl(b, k) + Pow2(k) <= Shl(c, k)
  {
    MulMonotone(a, b, Pow2(k));
    MulMonotone(b + 1, c, Pow2(k));
    assert Shl(b + 1, k) == Shl(b, k) + Pow2(k);
  }

  lemma {:induction false} DecoderTableUpToIsOk(nstates: nat, freq: seq<nat>, n: nat)
    requires IsPow2(nstates) && nstates <= 1024 && n <= |freq| <= 256 && Sum(freq) <= nstates
    ensures forall e :: e in DecoderTableUpTo(nstates, freq, n) ==>
        DecoderEntryOk(e, nstates) && e.symbol < n && e.k <= Log2(nstates)
  {
    if n > 0 {
      DecoderTableUpToIsOk(nstates, freq, n - 1);
      var f := freq[n - 1];
      OffsetBound(freq, n - 1);
      StatesAtMost1024(nstates);
      forall e | e in SymbolEntries(nstates, n - 1, f, f)
        ensures DecoderEntryOk(e, nstates) && e.symbol < n && e.k <= Log2(nstates)
      {
        var j :| 0 <= j < f && e == SymbolEntries(nstates, n - 1, f, f)[j];
        DecoderEntryIsOk(nstates, n - 1, f, j);
      }
    }
  }

  lemma StatesAtMost1024(nstates: nat)
    requires 0 < nstates <= 1024
    ensures Log2(nstates) <= 10
  {
    Pow2Values();
    Log2AtMost(nstates, 10);
  }

  lemma DecoderTableIsOk(nstates: nat, freq: seq<nat>)
    requires ValidFreq(freq, nstates) && nstates <= 1024 && |freq| <= 256
    ensures |DecoderTable(nstates, freq)| == nstates && DecoderTableOk(DecoderTable(nstates, freq))
  {
    DecoderTableUpToIsOk(nstates, freq, |freq|);
  }

  lemma ValueTableIsOk(nstates: nat, freq: seq<nat>, vbits: seq<nat>, vbase: seq<nat>, maxBits: nat)
    requires ValidFreq(freq, nstates) && nstates <= 1024 && |freq| <= 256
    requires |vbits| == |vbase| == |freq|
    requires forall i :: 0 <= i < |vbits| ==> vbits[i] + Log2(nstates) <= maxBits
    ensures |ValueTable(nstates, freq, vbits, vbase)| == nstates
    ensures ValueTableOk(ValueTable(nstates, freq, vbits, vbase), maxBits)
  {
    ValueEntriesOk(nstates, freq, vbits, vbase, maxBits);
  }

  /** The same entry by entry, for a table that does not hand out all its states. */
  lemma ValueEntriesOk(nstates: nat, freq: seq<nat>, vbits: seq<nat>, vbase: seq<nat>, maxBits: nat)
    requires IsPow2(nstates) && nstates <= 1024 && |freq| <= 256 && Sum(freq) <= nstates && |vbits| == |vbase| == |freq|
    requires forall i :: 0 <= i < |vbits| ==> vbits[i] + Log2(nstates) <= maxBits
    ensures forall i :: 0 <= i < Sum(freq) ==>
        ValueEntryOk(ValueTable(nstates, freq, vbits, vbase)[i], nstates, maxBits)
  {
    hide Log2, Pow2, Sum, DecoderTableUpTo;
    DecoderTableUpToIsOk(nstates, freq, |freq|);
    assert freq[..|freq|] == freq;
    var d := DecoderTable(nstates, freq);
    var t := ValueTable(nstates, freq, vbits, vbase);
    forall i | 0 <= i < |t|
      ensures ValueEntryOk(t[i], nstates, maxBits)
    {
      assert d[i] in d;
    }
  }

  lemma DecoderEntriesOk(nstates: nat, freq: seq<nat>)
    requires IsPow2(nstates) && nstates <= 1024 && |freq| <= 256 && Sum(freq) <= nstates
    ensures forall i :: 0 <= i < Sum(freq) ==> DecoderEntryOk(DecoderTable(nstates, freq)[i], nstates)
  {
    DecoderTableUpToIsOk(nstates, freq, |freq|);
    var d := DecoderTable(nstates, freq);
    forall i | 0 <= i < |d|
      ensures DecoderEntryOk(d[i], nstates)
    {
      assert d[i] in d;
    }
  }

  lemma ShrAtMost(x: nat, n: nat)
    ensures Shr(x, n) <= x
    ensures n == 0 ==> Shr(x, n) == x
  {
    ShrSplit(x, n);
    MulMonotone(1, Pow2(n), Shr(x, n));
    ShiftByZero(x);
  }

}
