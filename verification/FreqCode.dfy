/** The fixed prefix code for frequency tables in a V2 block header. Bits are read from the least significant end. */
module FreqCode {
  import opened Bits
  import opened Options

  const MAX_FREQ := 1047

  datatype CodeWord = CodeWord(bits: nat, nbits: nat)

  /** lzfse_encode_v1_freq_value. */
  function EncodeValue(value: nat): CodeWord {
    match value
    case 0 => CodeWord(0, 2)
    case 1 => CodeWord(2, 2)
    case 2 => CodeWord(1, 3)
    case 3 => CodeWord(5, 3)
    case 4 => CodeWord(3, 5)
    case 5 => CodeWord(11, 5)
    case 6 => CodeWord(19, 5)
    case 7 => CodeWord(27, 5)
    case _ =>
      if value < 24 then CodeWord(7 + (value - 8) * 16, 8)
      else CodeWord((value - 24) * 16 + 15, 14)
  }

  /** lzfse_freq_nbits_table, for an index below 32: the position of the first 0 bit gives the length. */
  function NbitsTable(b: nat): nat {
    if b % 2 == 0 then 2 else if b % 4 == 1 then 3 else if b % 8 == 3 then 5 else if b % 16 == 7 then 8 else 14
  }

  /** lzfse_freq_value_table, for an index below 32. */
  function ValueTable(b: nat): int {
    if b % 2 == 0 then b / 2 % 2 else if b % 4 == 1 then 2 + b / 4 % 2 else if b % 8 == 3 then 4 + b / 8 else -1
  }

  datatype Lookup = Lookup(value: int, nbits: nat)

  /** lzfse_decode_v1_freq_value. */
  function DecodeValue(bits: nat): (r: Lookup)
    ensures 2 <= r.nbits <= 14
  {
    var b := bits % 32;
    var n := NbitsTable(b);
    if n == 8 then Lookup(8 + bits / 16 % 16, n)
    else if n == 14 then Lookup(24 + bits / 16 % 1024, n)
    else Lookup(ValueTable(b), n)
  }

  lemma DecodeValueRange(bits: nat)
    ensures 0 <= DecodeValue(bits).value <= MAX_FREQ
  {
  }

  /** Whatever follows a code word, the decoder sees the word: the code is prefix free. */
  lemma DecodeEncodeValue(value: nat, above: nat)
    requires value <= MAX_FREQ
    ensures var w := EncodeValue(value);
            && w.bits < Pow2(w.nbits)
            && DecodeValue(w.bits + Shl(above, w.nbits)) == Lookup(value, w.nbits)
  {
    hide DecodeValue;
    CodeWordPow2();
    if value < 2 {
      DecodeTwo(value, above);
    } else if value < 4 {
      DecodeThree(value, above);
    } else if value < 8 {
      DecodeFive(value, above);
    } else if value < 24 {
      DecodeEight(value - 8, above);
    } else {
      DecodeFourteen(value - 24, above);
    }
  }

  /** Which word codes which value: the ones at its low end give its length; words of one length grow with the value. */
  lemma CodeWords(value: nat)
    requires value <= MAX_FREQ
    ensures var w := EncodeValue(value);
            if value < 2 then w.nbits == 2 && w.bits % 2 == 0
            else if value < 4 then w.nbits == 3 && w.bits % 4 == 1
            else if value < 8 then w.nbits == 5 && w.bits % 8 == 3
            else if value < 24 then w.nbits == 8 && w.bits % 16 == 7
            else w.nbits == 14 && w.bits % 16 == 15
    ensures forall v :: 0 <= v < value && EncodeValue(v).nbits == EncodeValue(value).nbits ==>
              EncodeValue(v).bits < EncodeValue(value).bits
  {
  }

  lemma CodeWordPow2()
    ensures Pow2(2) == 4 && Pow2(3) == 8 && Pow2(5) == 32 && Pow2(8) == 256 && Pow2(14) == 16384
  {
    Pow2Values();
    Pow2Words();
  }

  lemma DecodeTwo(value: nat, above: nat)
    requires value < 2
    ensures DecodeValue(EncodeValue(value).bits + above * 4) == Lookup(value, 2)
  {
    var a, q := above % 8, above / 8;
    var b := 2 * value + 4 * a;
    assert EncodeValue(value).bits + above * 4 == b + 32 * q;
    DivModUnique(b + 32 * q, q, b, 32);
    DivModUnique(b, value + 2 * a, 0, 2);
    DivModUnique(value + 2 * a, a, value, 2);
  }

  lemma DecodeThree(value: nat, above: nat)
    requires 2 <= value < 4
    ensures DecodeValue(EncodeValue(value).bits + above * 8) == Lookup(value, 3)
  {
    var a, q := above % 4, above / 4;
    var b := 1 + 4 * (value - 2) + 8 * a;
    assert EncodeValue(value).bits + above * 8 == b + 32 * q;
    DivModUnique(b + 32 * q, q, b, 32);
    DivModUnique(b, value - 2 + 2 * a, 1, 4);
    DivModUnique(b, 2 * (value - 2 + 2 * a), 1, 2);
    DivModUnique(value - 2 + 2 * a, a, value - 2, 2);
  }

  lemma DecodeFive(value: nat, above: nat)
    requires 4 <= value < 8
    ensures var w := EncodeValue(value); DecodeValue(w.bits + above * 32) == Lookup(value, w.nbits)
  {
    DivModUnique(EncodeValue(value).bits + above * 32, above, EncodeValue(value).bits, 32);
  }

  lemma DecodeEight(v: nat, above: nat)
    requires v < 16
    ensures DecodeValue(7 + v * 16 + above * 256) == Lookup(8 + v, 8)
  {
    var x := 7 + v * 16 + above * 256;
    DivModUnique(x, v + 16 * above, 7, 16);
    DivModUnique(v + 16 * above, above, v, 16);
    DivModUnique(x, v / 2 + 8 * above, 7 + 16 * (v % 2), 32);
  }

  lemma DecodeFourteen(v: nat, above: nat)
    requires v < 1024
    ensures DecodeValue(v * 16 + 15 + above * 16384) == Lookup(24 + v, 14)
  {
    var x := v * 16 + 15 + above * 16384;
    DivModUnique(x, v + 1024 * above, 15, 16);
    DivModUnique(v + 1024 * above, above, v, 1024);
    DivModUnique(x, v / 2 + 512 * above, 15 + 16 * (v % 2), 32);
  }

  /** Only the low 14 bits matter. */
  lemma DecodeValueLow14(r: nat, q: nat)
    requires r < 0x4000
    ensures DecodeValue(r + q * 0x4000) == DecodeValue(r)
  {
    hide NbitsTable, ValueTable;
    LowBits(r, q);
  }

  lemma LowBits(r: nat, q: nat)
    requires r < 0x4000
    ensures var x := r + q * 0x4000;
            x % 32 == r % 32 && x / 16 % 16 == r / 16 % 16 && x / 16 % 1024 == r / 16 % 1024
  {
    var x, y := r + q * 0x4000, r / 16;
    DivModUnique(x, 512 * q + r / 32, r % 32, 32);
    DivModUnique(x, 1024 * q + y, r % 16, 16);
    DivModUnique(1024 * q + y, 64 * q + y / 16, y % 16, 16);
    DivModUnique(1024 * q + y, q, y, 1024);
    DivModUnique(y, 0, y, 1024);
  }

  // ----- whole tables

  /** The code words of a list of frequencies, one after the other. */
  function FreqBits(values: seq<nat>): seq<bool> {
    if values == [] then []
    else
      var w := EncodeValue(values[0]);
      ToBits(w.bits, w.nbits) + FreqBits(values[1..])
  }

  datatype Parsed = Parsed(values: seq<nat>, rest: seq<bool>)

  /** The code word seen at the start of a bit string, padded with zeros when it is short. */
  function Front(bits: seq<bool>): Lookup {
    DecodeValue(ToNat(if |bits| < 14 then bits else bits[..14]))
  }

  /** Reads n frequencies; None when the bits run out. */
  function DecodeFreqs(bits: seq<bool>, n: nat): (r: Option<Parsed>)
    ensures r.Some? ==> |r.value.values| == n
    decreases n
  {
    if n == 0 then Some(Parsed([], bits))
    else
      var w := Front(bits);
      if w.nbits > |bits| then None
      else
        DecodeValueRange(ToNat(if |bits| < 14 then bits else bits[..14]));
        match DecodeFreqs(bits[w.nbits..], n - 1)
        case None => None
        case Some(p) => Some(Parsed([w.value] + p.values, p.rest))
  }

  /** The lookup only depends on the first 14 bits. */
  lemma FrontOfPrefix(v: nat, n: nat, rest: seq<bool>)
    requires v < Pow2(n) && (n >= 14 || rest == [])
    ensures Front(ToBits(v, n) + rest) == DecodeValue(v)
  {
    hide DecodeValue, ToBits, ToNat, Pow2, Shr;
    var bits := ToBits(v, n) + rest;
    if n < 14 {
      ToNatOfToBits(v, n);
      assert bits == ToBits(v, n);
    } else {
      ToBitsSplit(v, 14, n - 14);
      ToBitsMask(v, 14);
      assert bits[..14] == ToBits(Mask(v, 14), 14);
      ToNatOfToBits(Mask(v, 14), 14);
      Pow2Words();
      DecodeValueLow14(Mask(v, 14), Shr(v, 14));
    }
  }

  lemma FrontOfCodeWord(value: nat, rest: seq<bool>)
    requires value <= MAX_FREQ
    ensures var w := EncodeValue(value);
            Front(ToBits(w.bits, w.nbits) + rest) == Lookup(value, w.nbits)
  {
    hide DecodeValue, EncodeValue;
    var w := EncodeValue(value);
    DecodeEncodeValue(value, ToNat(rest));
    ToNatBound(rest);
    ToBitsConcat(w.bits, w.nbits, ToNat(rest), |rest|);
    ToBitsToNat(rest);
    ShlBound(w.bits, w.nbits, ToNat(rest), |rest|);
    var v := w.bits + Shl(ToNat(rest), w.nbits);
    FrontOfPrefix(v, w.nbits + |rest|, []);
    assert ToBits(v, w.nbits + |rest|) + [] == ToBits(w.bits, w.nbits) + rest;
  }

  /** A table can be read back in front of anything, and exactly the table is consumed. */
  lemma {:induction false} FreqsRoundTrip(values: seq<nat>, rest: seq<bool>)
    requires forall i :: 0 <= i < |values| ==> values[i] <= MAX_FREQ
    ensures DecodeFreqs(FreqBits(values) + rest, |values|) == Some(Parsed(values, rest))
  {
    hide DecodeValue, EncodeValue, Front, ToBits;
    if values == [] {
      assert FreqBits(values) + rest == rest;
    } else {
      var w := EncodeValue(values[0]);
      var word, tail := ToBits(w.bits, w.nbits), FreqBits(values[1..]);
      assert FreqBits(values) + rest == word + (tail + rest);
      FrontOfCodeWord(values[0], tail + rest);
      FreqsRoundTrip(values[1..], rest);
      assert (word + (tail + rest))[w.nbits..] == tail + rest;
      assert [values[0]] + values[1..] == values;
    }
  }

  lemma {:induction false} FreqBitsSnoc(values: seq<nat>, v: nat)
    ensures FreqBits(values + [v]) == FreqBits(values) + ToBits(EncodeValue(v).bits, EncodeValue(v).nbits)
  {
    hide EncodeValue, ToBits;
    if values != [] {
      FreqBitsSnoc(values[1..], v);
      assert (values + [v])[1..] == values[1..] + [v];
    } else {
      assert FreqBits([v][1..]) == [];
    }
  }

  /** Every code word has between 2 and 14 bits. */
  lemma {:induction false} FreqBitsLength(values: seq<nat>)
    ensures 2 * |values| <= |FreqBits(values)| <= 14 * |values|
  {
    hide ToBits;
    if values != [] {
      FreqBitsLength(values[1..]);
    }
  }

  /** The loop of lzfse_encode_v1_freq_table, on its 32-bit accumulator. */
  method EncodeFreqTable(src: seq<nat>) returns (dst: seq<byte>)
    requires forall i :: 0 <= i < |src| ==> src[i] <= MAX_FREQ
    ensures dst == PackBits(FreqBits(src))
  {
    hide ToBits, EncodeValue, FreqBits, PackBits, BytesToBits, Shl, Shr;
    var accum: nat, accumNbits := 0, 0;
    dst := [];
    assert FreqBits([]) == [] && BytesToBits([]) == [] && ToBits(0, 0) == [] by {
      EmptyBits();
    }
    for i := 0 to |src|
      invariant 0 <= accumNbits <= 7 && accum < Pow2(accumNbits)
      invariant BytesToBits(dst) + ToBits(accum, accumNbits) == FreqBits(src[..i])
    {
      var w := EncodeValue(src[i]);
      AddWord(src, i, dst, accum, accumNbits);
      accum := accum + Shl(w.bits, accumNbits);
      accumNbits := accumNbits + w.nbits;
      ghost var whole := BytesToBits(dst) + ToBits(accum, accumNbits);
      while accumNbits >= 8
        invariant 0 <= accumNbits <= 21 && accum < Pow2(accumNbits)
        invariant BytesToBits(dst) + ToBits(accum, accumNbits) == whole
      {
        StoreByte(dst, accum, accumNbits);
        dst := dst + [(accum % 256) as byte];
        accum := accum / 256;
        accumNbits := accumNbits - 8;
      }
    }
    assert src[..|src|] == src;
    ghost var bits := FreqBits(src);
    if accumNbits > 0 {
      ToBitsHighZeros(accum, accumNbits, 8 - accumNbits);
      Pow2Values();
      Pow2Monotone(accumNbits, 8);
      StoreByte(dst, accum, 8);
      dst := dst + [(accum % 256) as byte];
      PadLast(dst, bits, 8 - accumNbits, accum);
    } else {
      PadNone(dst, bits);
    }
  }

  /** The code word of the next frequency, on top of the accumulator. */
  lemma AddWord(src: seq<nat>, i: nat, dst: seq<byte>, accum: nat, nbits: nat)
    requires i < |src| && src[i] <= MAX_FREQ && accum < Pow2(nbits)
    requires BytesToBits(dst) + ToBits(accum, nbits) == FreqBits(src[..i])
    ensures var w := EncodeValue(src[i]);
            && 2 <= w.nbits <= 14 && accum + Shl(w.bits, nbits) < Pow2(nbits + w.nbits)
            && BytesToBits(dst) + ToBits(accum + Shl(w.bits, nbits), nbits + w.nbits) == FreqBits(src[..i + 1])
  {
    hide ToBits, EncodeValue, FreqBits, BytesToBits, Shl, Pow2;
    var w := EncodeValue(src[i]);
    WordFits(src[i]);
    FreqBitsSnoc(src[..i], src[i]);
    assert src[..i + 1] == src[..i] + [src[i]];
    ConcatAssoc(BytesToBits(dst), ToBits(accum, nbits), ToBits(w.bits, w.nbits));
    ToBitsConcat(accum, nbits, w.bits, w.nbits);
    ShlBound(accum, nbits, w.bits, w.nbits);
  }

  lemma EmptyBits()
    ensures FreqBits([]) == [] && BytesToBits([]) == [] && ToBits(0, 0) == []
  {
  }

  lemma WordFits(value: nat)
    requires value <= MAX_FREQ
    ensures var w := EncodeValue(value); 2 <= w.nbits <= 14 && w.bits < Pow2(w.nbits)
  {
    DecodeEncodeValue(value, 0);
  }

  /** Moving the low byte of the accumulator to the buffer. */
  lemma StoreByte(dst: seq<byte>, accum: nat, nbits: nat)
    requires nbits >= 8 && accum < Pow2(nbits)
    ensures accum / 256 < Pow2(nbits - 8)
    ensures BytesToBits(dst + [(accum % 256) as byte]) + ToBits(accum / 256, nbits - 8)
        == BytesToBits(dst) + ToBits(accum, nbits)
  {
    hide ToBits, BytesToBits;
    Pow2Values();
    ShrBound(accum, 8, nbits - 8);
    ToBitsSplit(accum, 8, nbits - 8);
    BytesToBitsConcat(dst, [(accum % 256) as byte]);
    OneByte((accum % 256) as byte);
  }

  lemma OneByte(b: byte)
    ensures BytesToBits([b]) == ToBits(b as int, 8)
  {
    hide ToBits;
    assert BytesToBits([b][1..]) == [];
  }

  lemma PadLast(dst: seq<byte>, bits: seq<bool>, pad: nat, accum: nat)
    requires 0 < pad < 8 && accum < 256
    requires BytesToBits(dst) + ToBits(accum / 256, 0) == bits + Zeros(pad)
    ensures dst == PackBits(bits)
  {
    hide BytesToBits, PackBits;
    assert BytesToBits(dst) == bits + Zeros(pad);
    PackBitsUnique(dst, bits);
  }

  lemma PadNone(dst: seq<byte>, bits: seq<bool>)
    requires BytesToBits(dst) + ToBits(0, 0) == bits
    ensures dst == PackBits(bits)
  {
    hide BytesToBits, PackBits;
    assert BytesToBits(dst) == bits + Zeros(0);
    PackBitsUnique(dst, bits);
  }

  /** Reads n frequencies that must take up the whole buffer, but for fewer than 8 padding bits. */
  function DecodeTable(bytes: seq<byte>, n: nat): (r: Option<seq<nat>>)
    ensures r.Some? ==> |r.value| == n
  {
    match DecodeFreqs(BytesToBits(bytes), n)
    case None => None
    case Some(p) => if |p.rest| < 8 then Some(p.values) else None
  }

  lemma TableRoundTrip(values: seq<nat>)
    requires forall i :: 0 <= i < |values| ==> values[i] <= MAX_FREQ
    ensures DecodeTable(PackBits(FreqBits(values)), |values|) == Some(values)
  {
    hide FreqBits, PackBits, BytesToBits, DecodeFreqs, Zeros;
    var bits := FreqBits(values);
    var pad := 8 * |PackBits(bits)| - |bits|;
    BytesToBitsPackBits(bits);
    FreqsRoundTrip(values, Zeros(pad));
    assert 0 <= pad < 8;
  }

  /** What is still to be parsed: the accumulator, then the bytes not loaded yet. */
  ghost function Remaining(bytes: seq<byte>, p: nat, accum: nat, accumNbits: nat): seq<bool>
    requires p <= |bytes|
  {
    ToBits(accum, accumNbits) + BytesToBits(bytes[p..])
  }

  ghost function Prepend(values: seq<nat>, r: Option<Parsed>): Option<Parsed> {
    match r case None => None case Some(p) => Some(Parsed(values + p.values, p.rest))
  }

  /** The loop of lzfse_decode_v1 that refills a 32-bit accumulator byte by byte. */
  method DecodeFreqTable(bytes: seq<byte>, dst: array<nat>) returns (ok: bool)
    modifies dst
    ensures ok == DecodeTable(bytes, dst.Length).Some?
    ensures ok ==> dst[..] == DecodeTable(bytes, dst.Length).value
  {
    hide ToBits, BytesToBits, DecodeValue, DecodeFreqs, Front, Shl, Shr, Prepend, Remaining;
    var accum: nat, accumNbits: nat, p: nat := 0, 0, 0;
    ghost var all := DecodeFreqs(BytesToBits(bytes), dst.Length);
    NothingRead(bytes);
    assert dst[..0] == [];
    PrependNone(all);
    for i := 0 to dst.Length
      invariant accumNbits <= 32 && accum < Pow2(accumNbits) && p <= |bytes|
      invariant all == Prepend(dst[..i], DecodeFreqs(Remaining(bytes, p, accum, accumNbits), dst.Length - i))
      invariant i > 0 ==> p == |bytes| || accumNbits >= 11
    {
      ghost var rest, before := Remaining(bytes, p, accum, accumNbits), dst[..i];
      while p < |bytes| && accumNbits + 8 <= 32
        invariant accumNbits <= 32 && accum < Pow2(accumNbits) && p <= |bytes|
        invariant Remaining(bytes, p, accum, accumNbits) == rest && dst[..i] == before
      {
        LoadByte(bytes, p, accum, accumNbits);
        accum := accum + Shl(bytes[p] as int, accumNbits);
        accumNbits := accumNbits + 8;
        p := p + 1;
      }
      var w := DecodeValue(accum);
      DecodeValueRange(accum);
      dst[i] := w.value;
      assert dst[..i] == before;
      ParseStep(bytes, p, accum, accumNbits, dst.Length - i);
      assert dst[..i + 1] == dst[..i] + [w.value];
      if w.nbits > accumNbits {
        PrependFails(dst[..i]);
        return false;
      }
      ghost var after := DecodeFreqs(rest[w.nbits..], dst.Length - i - 1);
      assert all == Prepend(dst[..i], Prepend([w.value], after));
      PrependTwo(dst[..i], w.value, after);
      ShrBound(accum, w.nbits, accumNbits - w.nbits);
      accum := Shr(accum, w.nbits);
      accumNbits := accumNbits - w.nbits;
    }
    ParseEnd(Remaining(bytes, p, accum, accumNbits));
    assert dst[..dst.Length] == dst[..];
    assert all == Some(Parsed(dst[..], Remaining(bytes, p, accum, accumNbits))) by {
      assert all == Prepend(dst[..], Some(Parsed([], Remaining(bytes, p, accum, accumNbits))));
      PrependLast(dst[..], Remaining(bytes, p, accum, accumNbits));
    }
    LeftOver(bytes, p, accum, accumNbits);
    ok := !(accumNbits >= 8 || p != |bytes|);
  }

  lemma NothingRead(bytes: seq<byte>)
    ensures Remaining(bytes, 0, 0, 0) == BytesToBits(bytes)
  {
    hide BytesToBits;
    EmptyBits();
    assert bytes[0..] == bytes;
  }

  lemma PrependFails(a: seq<nat>)
    ensures Prepend(a, None) == None
  {
  }

  lemma PrependLast(a: seq<nat>, rest: seq<bool>)
    ensures Prepend(a, Some(Parsed([], rest))) == Some(Parsed(a, rest))
  {
    assert a + [] == a;
  }

  lemma PrependNone(r: Option<Parsed>)
    ensures Prepend([], r) == r
  {
    match r case None => case Some(p) => assert [] + p.values == p.values;
  }

  lemma PrependTwo(a: seq<nat>, v: nat, r: Option<Parsed>)
    ensures Prepend(a, Prepend([v], r)) == Prepend(a + [v], r)
  {
    match r case None => case Some(p) => assert a + ([v] + p.values) == (a + [v]) + p.values;
  }

  lemma ParseEnd(bits: seq<bool>)
    ensures DecodeFreqs(bits, 0) == Some(Parsed([], bits))
  {
  }

  /** Fewer than 8 bits are left over exactly when every byte is loaded and the accumulator holds under 8 bits. */
  lemma LeftOver(bytes: seq<byte>, p: nat, accum: nat, accumNbits: nat)
    requires p <= |bytes|
    ensures |Remaining(bytes, p, accum, accumNbits)| < 8 <==> accumNbits < 8 && p == |bytes|
  {
  }

  lemma LoadByte(bytes: seq<byte>, p: nat, accum: nat, accumNbits: nat)
    requires p < |bytes| && accum < Pow2(accumNbits)
    ensures accum + Shl(bytes[p] as int, accumNbits) < Pow2(accumNbits + 8)
    ensures Remaining(bytes, p + 1, accum + Shl(bytes[p] as int, accumNbits), accumNbits + 8)
        == Remaining(bytes, p, accum, accumNbits)
  {
    hide ToBits, Shl;
    Pow2Values();
    ShlBound(accum, accumNbits, bytes[p] as int, 8);
    ToBitsConcat(accum, accumNbits, bytes[p] as int, 8);
    assert bytes[p..][1..] == bytes[p + 1..];
  }

  /** One round of the parser on the accumulator. */
  lemma ParseStep(bytes: seq<byte>, p: nat, accum: nat, accumNbits: nat, n: nat)
    requires p <= |bytes| && accum < Pow2(accumNbits) && n > 0
    requires p == |bytes| || accumNbits >= 25
    ensures var rest := Remaining(bytes, p, accum, accumNbits);
            var w := DecodeValue(accum);
            && w.value >= 0 && |rest| >= accumNbits
            && (w.nbits > accumNbits ==> DecodeFreqs(rest, n) == None)
            && (w.nbits <= accumNbits ==>
                  && DecodeFreqs(rest, n) == Prepend([w.value], DecodeFreqs(rest[w.nbits..], n - 1))
                  && rest[w.nbits..] == Remaining(bytes, p, Shr(accum, w.nbits), accumNbits - w.nbits))
  {
    hide ToBits, BytesToBits, DecodeValue, Front, Shr, Pow2;
    var w := DecodeValue(accum);
    DecodeValueRange(accum);
    var below := BytesToBits(bytes[p..]);
    if p == |bytes| {
      assert bytes[p..] == [];
      EmptyBits();
    }
    FrontOfPrefix(accum, accumNbits, below);
    if w.nbits <= accumNbits {
      ToBitsSplit(accum, w.nbits, accumNbits - w.nbits);
    }
  }
}
