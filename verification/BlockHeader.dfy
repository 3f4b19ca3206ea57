/** The header of an LZFSE block, in its plain (V1) and packed (V2) forms. */
module BlockHeader {
  import opened Bits
  import opened Options
  import opened Fse
  import opened SymbolTables
  import opened Payloads
  import FreqCode

  const ENDOFSTREAM_MAGIC := 0x24787662
  const UNCOMPRESSED_MAGIC := 0x2d787662
  const COMPRESSEDV1_MAGIC := 0x31787662
  const COMPRESSEDV2_MAGIC := 0x32787662
  const COMPRESSEDLZVN_MAGIC := 0x6e787662

  const MATCHES_PER_BLOCK := 10000
  const LITERALS_PER_BLOCK := 40000

  const V2_FIXED_SIZE := 32
  const V2_FULL_SIZE := 752
  const N_FREQS := 360

  /** lzfse_compressed_block_header_v1, without the magic number; n_payload_bytes is the sum of the two sizes. */
  datatype Header = Header(
    nRawBytes: nat, nLiterals: nat, nMatches: nat,
    nLiteralPayloadBytes: nat, nLmdPayloadBytes: nat,
    literalBits: int, s0: nat, s1: nat, s2: nat, s3: nat,
    lmdBits: int, lState: nat, mState: nat, dState: nat,
    freqs: Freqs)

  /** Every field fits the width it has in the packed header. */
  ghost predicate Packable(h: Header) {
    && h.nRawBytes < 0x1_0000_0000
    && h.nLiterals < 0x10_0000 && h.nMatches < 0x10_0000
    && h.nLiteralPayloadBytes < 0x10_0000 && h.nLmdPayloadBytes < 0x10_0000
    && -7 <= h.literalBits <= 0 && -7 <= h.lmdBits <= 0
    && h.s0 < 1024 && h.s1 < 1024 && h.s2 < 1024 && h.s3 < 1024
    && h.lState < 1024 && h.mState < 1024 && h.dState < 1024
    && FreqsPackable(h.freqs)
  }

  ghost predicate FreqsPackable(fr: Freqs) {
    && |fr.l| == L_SYMBOLS && |fr.m| == M_SYMBOLS && |fr.d| == D_SYMBOLS && |fr.literal| == LITERAL_SYMBOLS
    && forall i :: 0 <= i < N_FREQS ==> JoinFreqs(fr)[i] <= FreqCode.MAX_FREQ
  }

  /** The four tables as they lie in memory, one after the other. */
  function JoinFreqs(fr: Freqs): (v: seq<nat>)
    ensures |v| == |fr.l| + |fr.m| + |fr.d| + |fr.literal|
  {
    fr.l + fr.m + fr.d + fr.literal
  }

  function SplitFreqs(v: seq<nat>): (fr: Freqs)
    requires |v| == N_FREQS
    ensures |fr.l| == L_SYMBOLS && |fr.m| == M_SYMBOLS && |fr.d| == D_SYMBOLS && |fr.literal| == LITERAL_SYMBOLS
  {
    Freqs(v[..20], v[20..40], v[40..104], v[104..])
  }

  // ----- packed fields

  // setField(v, offset, nbits) is a product by the power of two at its offset

  function Packed0(h: Header): int {
    h.nLiterals + 0x10_0000 * h.nLiteralPayloadBytes + 0x100_0000_0000 * h.nMatches
    + 0x1000_0000_0000_0000 * (7 + h.literalBits)
  }

  function Packed1(h: Header): int {
    h.s0 + 0x400 * h.s1 + 0x10_0000 * h.s2 + 0x4000_0000 * h.s3 + 0x100_0000_0000 * h.nLmdPayloadBytes
    + 0x1000_0000_0000_0000 * (7 + h.lmdBits)
  }

  function Packed2(h: Header, headerSize: nat): int {
    headerSize + 0x1_0000_0000 * h.lState + 0x400_0000_0000 * h.mState + 0x10_0000_0000_0000 * h.dState
  }

  /** get_field, with the field given by the powers of two of its offset and width. */
  function GetField(v: nat, offset: nat, width: nat): (r: nat)
    requires offset > 0 && width > 0
  {
    v / offset % width
  }

  lemma Fields0(a: nat, b: nat, c: nat, d: nat)
    requires a < 0x10_0000 && b < 0x10_0000 && c < 0x10_0000 && d < 8
    ensures var v := a + 0x10_0000 * b + 0x100_0000_0000 * c + 0x1000_0000_0000_0000 * d;
            && v < 0x1_0000_0000_0000_0000
            && GetField(v, 1, 0x10_0000) == a
            && GetField(v, 0x10_0000, 0x10_0000) == b
            && GetField(v, 0x100_0000_0000, 0x10_0000) == c
            && GetField(v, 0x1000_0000_0000_0000, 8) == d
  {
    var v := a + 0x10_0000 * b + 0x100_0000_0000 * c + 0x1000_0000_0000_0000 * d;
    assert v == a + 0x10_0000 * (b + 0x10_0000 * (c + 0x10_0000 * d));
    assert v / 0x10_0000 == b + 0x10_0000 * (c + 0x10_0000 * d);
    assert v / 0x100_0000_0000 == c + 0x10_0000 * d;
    assert v / 0x1000_0000_0000_0000 == d;
  }

  lemma Fields1(a: nat, b: nat, c: nat, d: nat, e: nat, f: nat)
    requires a < 0x400 && b < 0x400 && c < 0x400 && d < 0x400 && e < 0x10_0000 && f < 8
    ensures var v := a + 0x400 * b + 0x10_0000 * c + 0x4000_0000 * d + 0x100_0000_0000 * e + 0x1000_0000_0000_0000 * f;
            && v < 0x1_0000_0000_0000_0000
            && GetField(v, 1, 0x400) == a
            && GetField(v, 0x400, 0x400) == b
            && GetField(v, 0x10_0000, 0x400) == c
            && GetField(v, 0x4000_0000, 0x400) == d
            && GetField(v, 0x100_0000_0000, 0x10_0000) == e
            && GetField(v, 0x1000_0000_0000_0000, 8) == f
  {
    var v := a + 0x400 * b + 0x10_0000 * c + 0x4000_0000 * d + 0x100_0000_0000 * e + 0x1000_0000_0000_0000 * f;
    assert v / 0x400 == b + 0x400 * (c + 0x400 * (d + 0x400 * (e + 0x10_0000 * f)));
    assert v / 0x10_0000 == c + 0x400 * (d + 0x400 * (e + 0x10_0000 * f));
    assert v / 0x4000_0000 == d + 0x400 * (e + 0x10_0000 * f);
    assert v / 0x100_0000_0000 == e + 0x10_0000 * f;
    assert v / 0x1000_0000_0000_0000 == f;
  }

  lemma Fields2(a: nat, b: nat, c: nat, d: nat)
    requires a < 0x1_0000_0000 && b < 0x400 && c < 0x400 && d < 0x400
    ensures var v := a + 0x1_0000_0000 * b + 0x400_0000_0000 * c + 0x10_0000_0000_0000 * d;
            && v < 0x1_0000_0000_0000_0000
            && GetField(v, 1, 0x1_0000_0000) == a
            && GetField(v, 0x1_0000_0000, 0x400) == b
            && GetField(v, 0x400_0000_0000, 0x400) == c
            && GetField(v, 0x10_0000_0000_0000, 0x400) == d
  {
    var v := a + 0x1_0000_0000 * b + 0x400_0000_0000 * c + 0x10_0000_0000_0000 * d;
    assert v / 0x1_0000_0000 == b + 0x400 * (c + 0x400 * d);
    assert v / 0x400_0000_0000 == c + 0x400 * d;
    assert v / 0x10_0000_0000_0000 == d;
  }

  // ----- V2 headers

  /** The first 32 bytes: magic, n_raw_bytes and the three packed words. */
  function FixedV2(h: Header, headerSize: nat): (b: seq<byte>)
    requires Packable(h)
    ensures |b| == V2_FIXED_SIZE
  {
    LE(COMPRESSEDV2_MAGIC, 4) + LE(h.nRawBytes, 4)
    + LE(Packed0(h), 8) + LE(Packed1(h), 8) + LE(Packed2(h, headerSize), 8)
  }

  /** The whole header: the frequency tables follow, in the prefix code. */
  function EncodeV2(h: Header): (b: seq<byte>)
    requires Packable(h)
    ensures |b| >= V2_FIXED_SIZE
  {
    var tables := PackBits(FreqCode.FreqBits(JoinFreqs(h.freqs)));
    FixedV2(h, V2_FIXED_SIZE + |tables|) + tables
  }

  function Word(b: seq<byte>, offset: nat, size: nat): nat
    requires offset + size <= |b|
  {
    FromLE(b[offset..offset + size])
  }

  /** lzfse_decode_v2_header_size. */
  function HeaderSizeV2(b: seq<byte>): nat
    requires |b| >= V2_FIXED_SIZE
  {
    GetField(Word(b, 24, 8), 1, 0x1_0000_0000)
  }

  /** The tables behind the fixed part; a header of exactly 32 bytes has none. */
  function TablesV2(b: seq<byte>, headerSize: nat): (t: Option<seq<nat>>)
    requires V2_FIXED_SIZE <= |b| && headerSize <= |b|
    ensures t.Some? ==> |t.value| == N_FREQS
  {
    if headerSize == V2_FIXED_SIZE then Some(seq(N_FREQS, _ => 0))
    else if headerSize < V2_FIXED_SIZE then None
    else FreqCode.DecodeTable(b[V2_FIXED_SIZE..headerSize], N_FREQS)
  }

  /** The unpacked fields of the fixed part, with the tables. */
  function FieldsV2(b: seq<byte>, t: seq<nat>): (h: Header)
    requires V2_FIXED_SIZE <= |b| && |t| == N_FREQS
    ensures |h.freqs.l| == L_SYMBOLS && |h.freqs.m| == M_SYMBOLS && |h.freqs.d| == D_SYMBOLS &&
        |h.freqs.literal| == LITERAL_SYMBOLS
  {
    var v0, v1, v2 := Word(b, 8, 8), Word(b, 16, 8), Word(b, 24, 8);
    Header(
      Word(b, 4, 4),
      GetField(v0, 1, 0x10_0000), GetField(v0, 0x100_0000_0000, 0x10_0000),
      GetField(v0, 0x10_0000, 0x10_0000), GetField(v1, 0x100_0000_0000, 0x10_0000),
      GetField(v0, 0x1000_0000_0000_0000, 8) - 7,
      GetField(v1, 1, 0x400), GetField(v1, 0x400, 0x400), GetField(v1, 0x10_0000, 0x400), GetField(v1, 0x4000_0000, 0x400),
      GetField(v1, 0x1000_0000_0000_0000, 8) - 7,
      GetField(v2, 0x1_0000_0000, 0x400), GetField(v2, 0x400_0000_0000, 0x400), GetField(v2, 0x10_0000_0000_0000, 0x400),
      SplitFreqs(t))
  }

  /** lzfse_decode_v1. */
  function DecodeV2(b: seq<byte>): Option<Header>
    requires V2_FIXED_SIZE <= |b| && HeaderSizeV2(b) <= |b|
  {
    match TablesV2(b, HeaderSizeV2(b))
    case None => None
    case Some(t) => Some(FieldsV2(b, t))
  }

  lemma PackedRange(h: Header, headerSize: nat)
    requires Packable(h) && headerSize < 0x1_0000_0000
    ensures 0 <= Packed0(h) < 0x1_0000_0000_0000_0000
    ensures 0 <= Packed1(h) < 0x1_0000_0000_0000_0000
    ensures 0 <= Packed2(h, headerSize) < 0x1_0000_0000_0000_0000
  {
    Fields0(h.nLiterals, h.nLiteralPayloadBytes, h.nMatches, 7 + h.literalBits);
    Fields1(h.s0, h.s1, h.s2, h.s3, h.nLmdPayloadBytes, 7 + h.lmdBits);
    Fields2(headerSize, h.lState, h.mState, h.dState);
  }

  /** The words of the fixed part can be read back, whatever follows it. */
  lemma FixedWords(h: Header, headerSize: nat, tail: seq<byte>)
    requires Packable(h) && headerSize < 0x1_0000_0000
    ensures var b := FixedV2(h, headerSize) + tail;
            && Word(b, 0, 4) == COMPRESSEDV2_MAGIC && Word(b, 4, 4) == h.nRawBytes
            && Word(b, 8, 8) == Packed0(h) && Word(b, 16, 8) == Packed1(h) && Word(b, 24, 8) == Packed2(h, headerSize)
  {
    hide LE, FromLE, Packed0, Packed1, Packed2;
    PackedRange(h, headerSize);
    Pow2Words();
    WordsOf(LE(COMPRESSEDV2_MAGIC, 4), LE(h.nRawBytes, 4), LE(Packed0(h), 8), LE(Packed1(h), 8),
      LE(Packed2(h, headerSize), 8), tail);
    FromLELE(COMPRESSEDV2_MAGIC, 4);
    FromLELE(h.nRawBytes, 4);
    FromLELE(Packed0(h), 8);
    FromLELE(Packed1(h), 8);
    FromLELE(Packed2(h, headerSize), 8);
  }

  lemma WordsOf(m: seq<byte>, n: seq<byte>, p: seq<byte>, q: seq<byte>, r: seq<byte>, tail: seq<byte>)
    requires |m| == |n| == 4 && |p| == |q| == |r| == 8
    ensures var b := m + n + p + q + r + tail;
            b[0..4] == m && b[4..8] == n && b[8..16] == p && b[16..24] == q && b[24..32] == r
  {
  }

  /** Every field and all 360 frequencies survive packing; the header size is found in the header itself. */
  lemma V2RoundTrip(h: Header, tail: seq<byte>)
    requires Packable(h)
    ensures var b := EncodeV2(h) + tail;
            && Word(b, 0, 4) == COMPRESSEDV2_MAGIC
            && HeaderSizeV2(b) == |EncodeV2(h)| <= 662 < V2_FULL_SIZE
            && DecodeV2(b) == Some(h)
  {
    hide LE, FromLE, PackBits, FreqCode.FreqBits, FreqCode.DecodeTable, Packed0, Packed1, Packed2, GetField;
    var values := JoinFreqs(h.freqs);
    var tables := PackBits(FreqCode.FreqBits(values));
    var size := V2_FIXED_SIZE + |tables|;
    var b := EncodeV2(h) + tail;
    FreqCode.FreqBitsLength(values);
    assert b == FixedV2(h, size) + (tables + tail);
    FixedWords(h, size, tables + tail);
    UnpackFields(h, size);
    assert b[V2_FIXED_SIZE..size] == tables;
    FreqCode.TableRoundTrip(values);
    SplitJoin(h.freqs);
  }

  lemma UnpackFields(h: Header, size: nat)
    requires Packable(h) && size < 0x1_0000_0000
    ensures Packed0(h) >= 0 && Packed1(h) >= 0 && Packed2(h, size) >= 0
    ensures GetField(Packed0(h), 1, 0x10_0000) == h.nLiterals
    ensures GetField(Packed0(h), 0x10_0000, 0x10_0000) == h.nLiteralPayloadBytes
    ensures GetField(Packed0(h), 0x100_0000_0000, 0x10_0000) == h.nMatches
    ensures GetField(Packed0(h), 0x1000_0000_0000_0000, 8) - 7 == h.literalBits
    ensures GetField(Packed1(h), 1, 0x400) == h.s0 && GetField(Packed1(h), 0x400, 0x400) == h.s1
    ensures GetField(Packed1(h), 0x10_0000, 0x400) == h.s2 && GetField(Packed1(h), 0x4000_0000, 0x400) == h.s3
    ensures GetField(Packed1(h), 0x100_0000_0000, 0x10_0000) == h.nLmdPayloadBytes
    ensures GetField(Packed1(h), 0x1000_0000_0000_0000, 8) - 7 == h.lmdBits
    ensures GetField(Packed2(h, size), 1, 0x1_0000_0000) == size
    ensures GetField(Packed2(h, size), 0x1_0000_0000, 0x400) == h.lState
    ensures GetField(Packed2(h, size), 0x400_0000_0000, 0x400) == h.mState
    ensures GetField(Packed2(h, size), 0x10_0000_0000_0000, 0x400) == h.dState
  {
    hide GetField;
    Fields0(h.nLiterals, h.nLiteralPayloadBytes, h.nMatches, 7 + h.literalBits);
    Fields1(h.s0, h.s1, h.s2, h.s3, h.nLmdPayloadBytes, 7 + h.lmdBits);
    Fields2(size, h.lState, h.mState, h.dState);
  }

  lemma SplitJoin(fr: Freqs)
    requires FreqsPackable(fr)
    ensures SplitFreqs(JoinFreqs(fr)) == fr
  {
  }

  // ----- checks

  /** lzfse_check_block_header_v1, except for the magic number, which the decoder sets itself. */
  predicate CheckHeader(h: Header)
    requires |h.freqs.l| == L_SYMBOLS && |h.freqs.m| == M_SYMBOLS && |h.freqs.d| == D_SYMBOLS &&
        |h.freqs.literal| == LITERAL_SYMBOLS
  {
    && h.nLiterals <= LITERALS_PER_BLOCK && h.nMatches <= MATCHES_PER_BLOCK
    && h.s0 < LITERAL_STATES && h.s1 < LITERAL_STATES && h.s2 < LITERAL_STATES && h.s3 < LITERAL_STATES
    && h.lState < L_STATES && h.mState < M_STATES && h.dState < D_STATES
    && Sum(h.freqs.l) <= L_STATES && Sum(h.freqs.m) <= M_STATES
    && Sum(h.freqs.d) <= D_STATES && Sum(h.freqs.literal) <= LITERAL_STATES
  }
}
