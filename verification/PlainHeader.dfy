/** The plain form of a block header: the C structure as it lies in memory, and blocks that start with one. */
module PlainHeader {
  import opened Bits
  import opened Options
  import opened BitStream
  import opened Fse
  import opened SymbolTables
  import opened Lz77
  import opened Payloads
  import opened BlockHeader
  import opened StreamFormat
  import opened BlockFormat

  // ----- little-endian fields, one after the other

  /** A number and the bytes it takes. */
  datatype Field = Field(value: nat, size: nat)

  ghost predicate Fits(f: Field) {
    f.value < Pow2(8 * f.size)
  }

  function Bytes(fields: seq<Field>): seq<byte> {
    if fields == [] then [] else LE(fields[0].value, fields[0].size) + Bytes(fields[1..])
  }

  /** Where field i starts. */
  function Offset(fields: seq<Field>, i: nat): nat
    requires i <= |fields|
  {
    if i == 0 then 0 else fields[0].size + Offset(fields[1..], i - 1)
  }

  /** Every field is read back at its place, whatever follows. */
  lemma {:induction false} FieldAt(fields: seq<Field>, tail: seq<byte>, i: nat)
    requires i < |fields| && Fits(fields[i])
    ensures Offset(fields, i) + fields[i].size <= |Bytes(fields) + tail|
    ensures Word(Bytes(fields) + tail, Offset(fields, i), fields[i].size) == fields[i].value
  {
    hide LE, FromLE, Pow2;
    var f, rest := fields[0], Bytes(fields[1..]) + tail;
    assert Bytes(fields) + tail == LE(f.value, f.size) + rest;
    if i == 0 {
      assert (LE(f.value, f.size) + rest)[..f.size] == LE(f.value, f.size);
      FromLELE(f.value, f.size);
    } else {
      FieldAt(fields[1..], tail, i - 1);
      var k, n := Offset(fields[1..], i - 1), fields[i].size;
      assert (LE(f.value, f.size) + rest)[f.size + k..f.size + k + n] == rest[k..k + n];
    }
  }

  lemma {:induction false} OffsetNext(fields: seq<Field>, i: nat)
    requires i < |fields|
    ensures Offset(fields, i + 1) == Offset(fields, i) + fields[i].size
  {
    if i > 0 {
      OffsetNext(fields[1..], i - 1);
    }
  }

  lemma {:induction false} BytesLength(fields: seq<Field>)
    ensures |Bytes(fields)| == Offset(fields, |fields|)
  {
    if fields != [] {
      BytesLength(fields[1..]);
    }
  }

  // ----- the header

  /** A signed word as it is stored. */
  function Unsigned32(v: int): nat
    requires -0x8000_0000 <= v < 0x8000_0000
  {
    if v >= 0 then v else v + 0x1_0000_0000
  }

  /** Every field fits the width it has in the structure. */
  ghost predicate PlainFits(h: Header) {
    && h.nRawBytes < 0x1_0000_0000 && h.nLiterals < 0x1_0000_0000 && h.nMatches < 0x1_0000_0000
    && h.nLiteralPayloadBytes < 0x1_0000_0000 && h.nLmdPayloadBytes < 0x1_0000_0000
    && -0x8000_0000 <= h.literalBits < 0x8000_0000 && -0x8000_0000 <= h.lmdBits < 0x8000_0000
    && h.s0 < 0x1_0000 && h.s1 < 0x1_0000 && h.s2 < 0x1_0000 && h.s3 < 0x1_0000
    && h.lState < 0x1_0000 && h.mState < 0x1_0000 && h.dState < 0x1_0000
    && FreqSizesOk(h.freqs) && forall i :: 0 <= i < N_FREQS ==> JoinFreqs(h.freqs)[i] < 0x1_0000
  }

  /** The fields in the order of the structure; n_payload_bytes is not looked at when it is read. */
  function PlainFields(h: Header, nPayloadBytes: nat): (fields: seq<Field>)
    requires -0x8000_0000 <= h.literalBits < 0x8000_0000 && -0x8000_0000 <= h.lmdBits < 0x8000_0000
  {
    [ Field(COMPRESSEDV1_MAGIC, 4), Field(h.nRawBytes, 4), Field(nPayloadBytes, 4),
      Field(h.nLiterals, 4), Field(h.nMatches, 4),
      Field(h.nLiteralPayloadBytes, 4), Field(h.nLmdPayloadBytes, 4),
      Field(Unsigned32(h.literalBits), 4), Field(h.s0, 2), Field(h.s1, 2), Field(h.s2, 2), Field(h.s3, 2),
      Field(Unsigned32(h.lmdBits), 4), Field(h.lState, 2), Field(h.mState, 2), Field(h.dState, 2) ]
    + HalfWords(JoinFreqs(h.freqs))
  }

  function HalfWords(values: seq<nat>): (fields: seq<Field>)
    ensures |fields| == |values|
  {
    seq(|values|, i requires 0 <= i < |values| => Field(values[i], 2))
  }

  /** The structure, with the two bytes that fill it up to a multiple of four. */
  function EncodeV1(h: Header, nPayloadBytes: nat, padding: seq<byte>): seq<byte>
    requires -0x8000_0000 <= h.literalBits < 0x8000_0000 && -0x8000_0000 <= h.lmdBits < 0x8000_0000
  {
    Bytes(PlainFields(h, nPayloadBytes)) + padding
  }

  lemma PlainOffsets(h: Header, nPayloadBytes: nat)
    requires PlainFits(h)
    ensures var f := PlainFields(h, nPayloadBytes);
            && |f| == 16 + N_FREQS && Offset(f, 0) == 0 && Offset(f, 1) == 4 && Offset(f, 3) == 12
            && Offset(f, 4) == 16 && Offset(f, 5) == 20 && Offset(f, 6) == 24 && Offset(f, 7) == 28
            && Offset(f, 8) == 32 && Offset(f, 9) == 34 && Offset(f, 10) == 36 && Offset(f, 11) == 38
            && Offset(f, 12) == 40 && Offset(f, 13) == 44 && Offset(f, 14) == 46 && Offset(f, 15) == 48
            && Offset(f, 16) == 50
  {
    hide Offset;
    var f := PlainFields(h, nPayloadBytes);
    OffsetStart(f);
    for i := 0 to 16
      invariant Offset(f, i) == if i <= 8 then 4 * i else if i <= 12 then 2 * i + 16 else 2 * i + 18
      invariant i > 0 ==> Offset(f, 0) == 0
      invariant forall k :: 0 <= k <= i ==>
                  Offset(f, k) == if k <= 8 then 4 * k else if k <= 12 then 2 * k + 16 else 2 * k + 18
    {
      OffsetNext(f, i);
    }
  }

  lemma OffsetStart(f: seq<Field>)
    ensures Offset(f, 0) == 0
  {
  }

  lemma {:induction false} TableOffset(h: Header, nPayloadBytes: nat, i: nat)
    requires PlainFits(h) && i <= N_FREQS
    ensures |PlainFields(h, nPayloadBytes)| == 16 + N_FREQS
    ensures Offset(PlainFields(h, nPayloadBytes), 16 + i) == 50 + 2 * i
  {
    hide Offset;
    PlainOffsets(h, nPayloadBytes);
    if i > 0 {
      TableOffset(h, nPayloadBytes, i - 1);
      OffsetNext(PlainFields(h, nPayloadBytes), 15 + i);
    }
  }

  lemma PlainSize(h: Header, nPayloadBytes: nat, padding: seq<byte>)
    requires PlainFits(h) && |padding| == 2
    ensures |EncodeV1(h, nPayloadBytes, padding)| == V1_SIZE
  {
    hide Offset, PlainFields, Bytes;
    TableOffset(h, nPayloadBytes, N_FREQS);
    BytesLength(PlainFields(h, nPayloadBytes));
  }

  /** A plain header written field by field is read back whole, whatever follows. */
  lemma V1RoundTrip(h: Header, nPayloadBytes: nat, padding: seq<byte>, tail: seq<byte>)
    requires PlainFits(h) && |padding| == 2
    ensures var b := EncodeV1(h, nPayloadBytes, padding) + tail;
            && |b| == V1_SIZE + |tail| && Word(b, 0, 4) == COMPRESSEDV1_MAGIC && DecodeV1(b) == h
  {
    hide Offset, Bytes, Word, LE;
    PlainSize(h, nPayloadBytes, padding);
    var b := EncodeV1(h, nPayloadBytes, padding) + tail;
    assert b == Bytes(PlainFields(h, nPayloadBytes)) + (padding + tail);
    FixedFields(h, nPayloadBytes, padding + tail);
    forall i | 0 <= i < N_FREQS
      ensures Word(b, 50 + 2 * i, 2) == JoinFreqs(h.freqs)[i]
    {
      TableField(h, nPayloadBytes, padding + tail, i);
    }
    Signed(h.literalBits);
    Signed(h.lmdBits);
    TablesRead(b, h.freqs);
  }

  lemma Signed(v: int)
    requires -0x8000_0000 <= v < 0x8000_0000
    ensures Int32(Unsigned32(v)) == v
  {
  }

  lemma TablesRead(b: seq<byte>, fr: Freqs)
    requires |b| >= V1_SIZE && FreqSizesOk(fr)
    requires forall i :: 0 <= i < N_FREQS ==> Word(b, 50 + 2 * i, 2) == JoinFreqs(fr)[i]
    ensures Freqs(Words2(b, 50, 20), Words2(b, 90, 20), Words2(b, 130, 64), Words2(b, 258, 256)) == fr
  {
    hide Word;
    forall i | 0 <= i < 20
      ensures Words2(b, 50, 20)[i] == fr.l[i] && Words2(b, 90, 20)[i] == fr.m[i]
    {
      assert Word(b, 50 + 2 * i, 2) == JoinFreqs(fr)[i] && Word(b, 50 + 2 * (20 + i), 2) == JoinFreqs(fr)[20 + i];
    }
    forall i | 0 <= i < 64
      ensures Words2(b, 130, 64)[i] == fr.d[i]
    {
      assert Word(b, 50 + 2 * (40 + i), 2) == JoinFreqs(fr)[40 + i];
    }
    forall i | 0 <= i < 256
      ensures Words2(b, 258, 256)[i] == fr.literal[i]
    {
      assert Word(b, 50 + 2 * (104 + i), 2) == JoinFreqs(fr)[104 + i];
    }
  }

  lemma TableField(h: Header, nPayloadBytes: nat, tail: seq<byte>, i: nat)
    requires PlainFits(h) && i < N_FREQS
    ensures var b := Bytes(PlainFields(h, nPayloadBytes)) + tail;
            52 + 2 * i <= |b| && Word(b, 50 + 2 * i, 2) == JoinFreqs(h.freqs)[i]
  {
    hide Offset, Bytes, Word;
    Pow2Words();
    TableOffset(h, nPayloadBytes, i);
    FieldAt(PlainFields(h, nPayloadBytes), tail, 16 + i);
  }

  lemma FixedField(h: Header, nPayloadBytes: nat, tail: seq<byte>, i: nat)
    requires PlainFits(h) && i < 16 && i != 2
    ensures var f := PlainFields(h, nPayloadBytes);
            var b := Bytes(f) + tail;
            && |f| == 16 + N_FREQS && Offset(f, i) + f[i].size <= |b|
            && Word(b, Offset(f, i), f[i].size) == f[i].value
  {
    hide Offset, Bytes, Word;
    Pow2Words();
    var f := PlainFields(h, nPayloadBytes);
    assert Fits(f[i]);
    FieldAt(f, tail, i);
  }

  lemma FixedFields(h: Header, nPayloadBytes: nat, tail: seq<byte>)
    requires PlainFits(h)
    ensures var b := Bytes(PlainFields(h, nPayloadBytes)) + tail;
            && |b| >= 50 && Word(b, 0, 4) == COMPRESSEDV1_MAGIC && Word(b, 4, 4) == h.nRawBytes
            && Word(b, 12, 4) == h.nLiterals && Word(b, 16, 4) == h.nMatches
            && Word(b, 20, 4) == h.nLiteralPayloadBytes && Word(b, 24, 4) == h.nLmdPayloadBytes
            && Word(b, 28, 4) == Unsigned32(h.literalBits)
            && Word(b, 32, 2) == h.s0 && Word(b, 34, 2) == h.s1 && Word(b, 36, 2) == h.s2 && Word(b, 38, 2) == h.s3
            && Word(b, 40, 4) == Unsigned32(h.lmdBits)
            && Word(b, 44, 2) == h.lState && Word(b, 46, 2) == h.mState && Word(b, 48, 2) == h.dState
  {
    hide Offset, Bytes, Word, Unsigned32;
    PlainOffsets(h, nPayloadBytes);
    forall i | 0 <= i < 16 && i != 2
      ensures var f := PlainFields(h, nPayloadBytes);
              var b := Bytes(f) + tail;
              && Offset(f, i) + f[i].size <= |b| && Word(b, Offset(f, i), f[i].size) == f[i].value
    {
      FixedField(h, nPayloadBytes, tail, i);
    }
  }

  // ----- blocks with a plain header

  /** A whole block: plain header, literals, then the triples behind 8 padding bytes. */
  function EncodePlainBlock(fr: Freqs, lmds: seq<LMD>, lits: seq<byte>, padding: seq<byte>): seq<byte>
    requires BlockOk(fr, lmds, lits)
  {
    HeaderFits(fr, lmds, lits);
    var lit, lmd := LitPayload(fr, lits), LmdPayload(fr, lmds);
    EncodeV1(BlockHeaderFor(fr, lmds, lits), |lit| + |lmd|, padding) + lit + lmd
  }

  lemma PackableFits(h: Header)
    requires Packable(h)
    ensures PlainFits(h)
  {
  }

  /** Decoding such a block appends exactly what its triples stand for too, and goes on behind it. */
  lemma PlainBlockRoundTrip(src: seq<byte>, pos: nat, fr: Freqs, lmds: seq<LMD>, lits: seq<byte>, padding: seq<byte>,
      out: seq<byte>)
    requires BlockOk(fr, lmds, lits) && Expandable(|out|, |lits|, lmds) && |padding| == 2
    requires pos + |EncodePlainBlock(fr, lmds, lits, padding)| <= |src|
    requires src[pos..pos + |EncodePlainBlock(fr, lmds, lits, padding)|] == EncodePlainBlock(fr, lmds, lits, padding)
    ensures DecodeStream(src, pos, out)
            == DecodeStream(src, pos + |EncodePlainBlock(fr, lmds, lits, padding)|, Expand(out, lits, lmds))
  {
    hide EncodeV1, StartBlock, RunLmds, ReadHeader, LitPayload, LmdPayload, LitsCodable, LmdsCodable, ValidFreqs,
      TablesFor, EncodeLmds, BytesToBits, CheckHeader, Packable, DeltaDistances, Word, BlockOk, BlockHeaderFor,
      DecodeStream, Expandable, Expand, PlainFits, TablesOk, DecodeV1;
    BlockParts(fr, lmds, lits);
    var h, lit, lmd := BlockHeaderFor(fr, lmds, lits), LitPayload(fr, lits), LmdPayload(fr, lmds);
    PackableFits(h);
    var head := PlainPart(h, |lit| + |lmd|, padding);
    ThreeParts(src, pos, head, lit, lmd);
    PlainHeaderRead(src, pos, h, |lit| + |lmd|, padding, lit + lmd + src[pos + |head + lit + lmd|..]);
    StartEncodedBlock(src, pos + V1_SIZE, fr, lmds, lits);
    var below := BytesToBits(src[..pos + V1_SIZE + |lit| + 8]);
    BitsBelow(src, pos + V1_SIZE + |lit| + 8);
    RunBlockLmds(fr, lmds, lits, below, out);
    DecodeBlockStep(src, pos, out, COMPRESSEDV1_MAGIC, h, V1_SIZE, TablesFor(fr), lits,
      EncodeLmds(fr, DeltaDistances(lmds, 0), below));
  }

  function PlainPart(h: Header, nPayloadBytes: nat, padding: seq<byte>): (b: seq<byte>)
    requires PlainFits(h) && |padding| == 2
    ensures b == EncodeV1(h, nPayloadBytes, padding) && |b| == V1_SIZE
  {
    PlainSize(h, nPayloadBytes, padding);
    EncodeV1(h, nPayloadBytes, padding)
  }

  lemma BitsBelow(src: seq<byte>, n: nat)
    requires 8 <= n <= |src|
    ensures |BytesToBits(src[..n])| >= REFILL_BITS
  {
  }

  const ANY := 0xffff_ffff

  /** The largest value of each field in front of the tables that the decoder accepts. */
  const FIELD_LIMITS: seq<nat> := [
    ANY, ANY, ANY, 40000, 10000, ANY, ANY,
    ANY, 1023, 1023, 1023, 1023, ANY, 63, 63, 255]

  ghost predicate WithinLimits(fields: seq<Field>) {
    |fields| >= |FIELD_LIMITS| && forall i :: 0 <= i < |FIELD_LIMITS| ==> fields[i].value <= FIELD_LIMITS[i]
  }

  /** No table hands out more states than there are. */
  predicate TableSumsOk(fr: Freqs) {
    Sum(fr.l) <= 64 && Sum(fr.m) <= 64 && Sum(fr.d) <= 256 && Sum(fr.literal) <= 1024
  }

  lemma LimitsChecked(h: Header, nPayloadBytes: nat)
    requires PlainFits(h) && nPayloadBytes <= ANY
    ensures WithinLimits(PlainFields(h, nPayloadBytes)) && TableSumsOk(h.freqs) <==> CheckHeader(h)
  {
    hide Sum, HalfWords;
    var f := PlainFields(h, nPayloadBytes);
    assert f[3].value == h.nLiterals && f[4].value == h.nMatches;
    assert f[8].value == h.s0 && f[9].value == h.s1 && f[10].value == h.s2 && f[11].value == h.s3;
    assert f[13].value == h.lState && f[14].value == h.mState && f[15].value == h.dState;
    if CheckHeader(h) {
      forall i | 0 <= i < 16
        ensures f[i].value <= FIELD_LIMITS[i]
      {
      }
    }
  }

  /** What becomes of any plain header: its payloads must follow it, and its fields and tables must keep the limits. */
  lemma PlainHeaderChecked(src: seq<byte>, pos: nat, h: Header, nPayloadBytes: nat, padding: seq<byte>, tail: seq<byte>)
    requires pos <= |src| && PlainFits(h) && nPayloadBytes <= ANY && |padding| == 2
    requires src[pos..] == EncodeV1(h, nPayloadBytes, padding) + tail
    ensures ReadHeader(src, pos, COMPRESSEDV1_MAGIC)
            == if h.nLiteralPayloadBytes + h.nLmdPayloadBytes > |tail| then Bad(SrcEmpty)
               else if WithinLimits(PlainFields(h, nPayloadBytes)) && TableSumsOk(h.freqs) then Good(h, V1_SIZE)
               else Bad(Error)
  {
    hide EncodeV1, DecodeV1, CheckHeader, FromLE, PlainFits, WithinLimits, TableSumsOk;
    V1RoundTrip(h, nPayloadBytes, padding, tail);
    LimitsChecked(h, nPayloadBytes);
  }

  /** A plain header at pos, with its block complete and passing the checks. */
  lemma PlainHeaderRead(src: seq<byte>, pos: nat, h: Header, nPayloadBytes: nat, padding: seq<byte>, tail: seq<byte>)
    requires pos <= |src| && PlainFits(h) && |padding| == 2
    requires src[pos..] == EncodeV1(h, nPayloadBytes, padding) + tail
    requires CheckHeader(h) && h.nLiteralPayloadBytes + h.nLmdPayloadBytes <= |tail|
    ensures pos + 4 <= |src| && Word(src, pos, 4) == COMPRESSEDV1_MAGIC
    ensures ReadHeader(src, pos, COMPRESSEDV1_MAGIC) == Good(h, V1_SIZE)
  {
    hide EncodeV1, DecodeV1, CheckHeader, FromLE, PlainFits;
    V1RoundTrip(h, nPayloadBytes, padding, tail);
    assert src[pos..][0..4] == src[pos..pos + 4];
  }
}
