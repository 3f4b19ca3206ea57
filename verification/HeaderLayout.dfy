/** The packed header as a string of bits: every field of the structure, in its order and with its width. */
module HeaderLayout {
  import opened Bits
  import opened SymbolTables
  import opened Payloads
  import opened BlockHeader

  datatype BitField = BitField(value: nat, width: nat)

  /** The bits of the fields, lowest first, one field after the other. */
  function FieldBits(fields: seq<BitField>): seq<bool> {
    if fields == [] then [] else ToBits(fields[0].value, fields[0].width) + FieldBits(fields[1..])
  }

  function Width(fields: seq<BitField>): nat {
    if fields == [] then 0 else fields[0].width + Width(fields[1..])
  }

  /** The number whose bits these are. */
  function Packed(fields: seq<BitField>): nat {
    if fields == [] then 0 else fields[0].value + Shl(Packed(fields[1..]), fields[0].width)
  }

  ghost predicate FieldsFit(fields: seq<BitField>) {
    forall i :: 0 <= i < |fields| ==> fields[i].value < Pow2(fields[i].width)
  }

  lemma {:induction false} PackedBits(fields: seq<BitField>)
    requires FieldsFit(fields)
    ensures ToBits(Packed(fields), Width(fields)) == FieldBits(fields)
  {
    hide Shl, Pow2;
    if fields != [] {
      PackedBits(fields[1..]);
      ToBitsConcat(fields[0].value, fields[0].width, Packed(fields[1..]), Width(fields[1..]));
    }
  }

  lemma {:induction false} FieldBitsConcat(a: seq<BitField>, b: seq<BitField>)
    ensures FieldBits(a + b) == FieldBits(a) + FieldBits(b)
  {
    hide ToBits;
    if a == [] {
      assert a + b == b;
    } else {
      FieldBitsConcat(a[1..], b);
      assert (a + b)[1..] == a[1..] + b;
      ConcatAssoc(ToBits(a[0].value, a[0].width), FieldBits(a[1..]), FieldBits(b));
    }
  }

  // ----- magic numbers

  /** The characters of a string as bytes. */
  function Ascii(s: string): (b: seq<byte>)
    requires forall i :: 0 <= i < |s| ==> s[i] as int < 128
    ensures |b| == |s|
  {
    seq(|s|, i requires 0 <= i < |s| => s[i] as int as byte)
  }

  /** In a stream the magic numbers read "bvx" and one more character. */
  lemma MagicWords()
    ensures LE(ENDOFSTREAM_MAGIC, 4) == Ascii("bvx$") && LE(UNCOMPRESSED_MAGIC, 4) == Ascii("bvx-")
    ensures LE(COMPRESSEDV1_MAGIC, 4) == Ascii("bvx1") && LE(COMPRESSEDV2_MAGIC, 4) == Ascii("bvx2")
    ensures LE(COMPRESSEDLZVN_MAGIC, 4) == Ascii("bvxn")
  {
    FourBytes(ENDOFSTREAM_MAGIC, 'b' as byte, 'v' as byte, 'x' as byte, '$' as byte);
    FourBytes(UNCOMPRESSED_MAGIC, 'b' as byte, 'v' as byte, 'x' as byte, '-' as byte);
    FourBytes(COMPRESSEDV1_MAGIC, 'b' as byte, 'v' as byte, 'x' as byte, '1' as byte);
    FourBytes(COMPRESSEDV2_MAGIC, 'b' as byte, 'v' as byte, 'x' as byte, '2' as byte);
    FourBytes(COMPRESSEDLZVN_MAGIC, 'b' as byte, 'v' as byte, 'x' as byte, 'n' as byte);
  }

  lemma FourBytes(v: nat, a: byte, b: byte, c: byte, d: byte)
    requires v == a as int + 256 * (b as int + 256 * (c as int + 256 * d as int))
    ensures LE(v, 4) == [a, b, c, d]
  {
    var w: seq<byte> := [a, b, c, d];
    assert w[1..] == [b, c, d] && w[1..][1..] == [c, d] && w[1..][1..][1..] == [d];
    assert FromLE([d]) == d as int by { assert [d][1..] == []; }
    assert FromLE([c, d]) == c as int + 256 * FromLE([d]);
    assert FromLE([b, c, d]) == b as int + 256 * FromLE([c, d]);
    assert FromLE(w) == v;
    LEFromLE(w);
  }

  // ----- the three packed words

  function Fields0(h: Header): seq<BitField>
    requires Packable(h)
  {
    [BitField(h.nLiterals, 20), BitField(h.nLiteralPayloadBytes, 20), BitField(h.nMatches, 20),
     BitField(h.literalBits + 7, 3), BitField(0, 1)]
  }

  function Fields1(h: Header): seq<BitField>
    requires Packable(h)
  {
    [BitField(h.s0, 10), BitField(h.s1, 10), BitField(h.s2, 10), BitField(h.s3, 10), BitField(h.nLmdPayloadBytes, 20),
     BitField(h.lmdBits + 7, 3), BitField(0, 1)]
  }

  function Fields2(h: Header, headerSize: nat): seq<BitField>
    requires Packable(h)
  {
    [BitField(headerSize, 32), BitField(h.lState, 10), BitField(h.mState, 10), BitField(h.dState, 10), BitField(0, 2)]
  }

  function HeaderFields(h: Header, headerSize: nat): seq<BitField>
    requires Packable(h)
  {
    [BitField(COMPRESSEDV2_MAGIC, 32), BitField(h.nRawBytes, 32)] + Fields0(h) + Fields1(h) + Fields2(h, headerSize)
  }

  lemma SmallPowers()
    ensures Pow2(1) == 2 && Pow2(2) == 4 && Pow2(3) == 8 && Pow2(10) == 0x400 && Pow2(20) == 0x10_0000
    ensures Pow2(32) == 0x1_0000_0000
  {
    Pow2Values();
    Pow2Words();
  }

  lemma PackedStep(f: seq<BitField>, i: nat)
    requires i < |f|
    ensures Packed(f[i..]) == f[i].value + Pow2(f[i].width) * Packed(f[i + 1..])
    ensures Width(f[i..]) == f[i].width + Width(f[i + 1..])
  {
    hide Pow2;
    assert f[i..][1..] == f[i + 1..];
  }

  lemma NothingPacked()
    ensures Packed([]) == 0 && Width([]) == 0
  {
  }

  lemma Word0(h: Header)
    requires Packable(h)
    ensures Packed0(h) >= 0 && ToBits(Packed0(h), 64) == FieldBits(Fields0(h))
  {
    hide ToBits, FieldBits, Pow2, Packed, Width;
    SmallPowers();
    var f := Fields0(h);
    NothingPacked();
    assert f[0..] == f && f[5..] == [];
    PackedStep(f, 4);
    PackedStep(f, 3);
    PackedStep(f, 2);
    PackedStep(f, 1);
    PackedStep(f, 0);
    assert Packed(f) == Packed0(h) && Width(f) == 64;
    PackedBits(f);
  }

  lemma Word1(h: Header)
    requires Packable(h)
    ensures Packed1(h) >= 0 && ToBits(Packed1(h), 64) == FieldBits(Fields1(h))
  {
    hide ToBits, FieldBits, Pow2, Packed, Width;
    SmallPowers();
    var f := Fields1(h);
    NothingPacked();
    assert f[0..] == f && f[7..] == [];
    PackedStep(f, 6);
    PackedStep(f, 5);
    PackedStep(f, 4);
    PackedStep(f, 3);
    PackedStep(f, 2);
    PackedStep(f, 1);
    PackedStep(f, 0);
    assert Packed(f) == Packed1(h) && Width(f) == 64;
    PackedBits(f);
  }

  lemma Word2(h: Header, headerSize: nat)
    requires Packable(h) && headerSize < 0x1_0000_0000
    ensures Packed2(h, headerSize) >= 0 && ToBits(Packed2(h, headerSize), 64) == FieldBits(Fields2(h, headerSize))
  {
    hide ToBits, FieldBits, Pow2, Packed, Width;
    SmallPowers();
    var f := Fields2(h, headerSize);
    NothingPacked();
    assert f[0..] == f && f[5..] == [];
    PackedStep(f, 4);
    PackedStep(f, 3);
    PackedStep(f, 2);
    PackedStep(f, 1);
    PackedStep(f, 0);
    assert Packed(f) == Packed2(h, headerSize) && Width(f) == 64;
    PackedBits(f);
  }

  /** The fixed part of a packed header is its fields, bit by bit; the unused bits are zero. */
  lemma V2Layout(h: Header, headerSize: nat)
    requires Packable(h) && headerSize < 0x1_0000_0000
    ensures BytesToBits(FixedV2(h, headerSize)) == FieldBits(HeaderFields(h, headerSize))
  {
    hide ToBits, LE, Packed0, Packed1, Packed2, Fields0, Fields1, Fields2, BytesToBits, FieldBits, Pow2;
    PackedRange(h, headerSize);
    Pow2Words();
    Word0(h);
    Word1(h);
    Word2(h, headerSize);
    var first := [BitField(COMPRESSEDV2_MAGIC, 32), BitField(h.nRawBytes, 32)];
    TwoFields(COMPRESSEDV2_MAGIC, h.nRawBytes);
    LEBits(COMPRESSEDV2_MAGIC, 4);
    LEBits(h.nRawBytes, 4);
    LEBits(Packed0(h), 8);
    LEBits(Packed1(h), 8);
    LEBits(Packed2(h, headerSize), 8);
    FieldBitsConcat(first, Fields0(h));
    FieldBitsConcat(first + Fields0(h), Fields1(h));
    FieldBitsConcat(first + Fields0(h) + Fields1(h), Fields2(h, headerSize));
    FiveBytes(LE(COMPRESSEDV2_MAGIC, 4), LE(h.nRawBytes, 4), LE(Packed0(h), 8), LE(Packed1(h), 8),
      LE(Packed2(h, headerSize), 8));
  }

  lemma TwoFields(a: nat, b: nat)
    ensures FieldBits([BitField(a, 32), BitField(b, 32)]) == ToBits(a, 32) + ToBits(b, 32)
  {
    hide ToBits;
    var f := [BitField(a, 32), BitField(b, 32)];
    assert f[1..] == [BitField(b, 32)] && f[1..][1..] == [];
    assert FieldBits(f[1..]) == ToBits(b, 32) + [];
  }

  lemma FiveBytes(a: seq<byte>, b: seq<byte>, c: seq<byte>, d: seq<byte>, e: seq<byte>)
    ensures BytesToBits(a + b + c + d + e)
        == BytesToBits(a) + BytesToBits(b) + BytesToBits(c) + BytesToBits(d) + BytesToBits(e)
  {
    hide BytesToBits;
    BytesToBitsConcat(a, b);
    BytesToBitsConcat(a + b, c);
    BytesToBitsConcat(a + b + c, d);
    BytesToBitsConcat(a + b + c + d, e);
  }
}
