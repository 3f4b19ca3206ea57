/** Whole buffers: the choice between raw, LZVN and LZFSE, and the end-to-end round trip. */
module LzfseBuffer {
  import opened Bits
  import opened BlockHeader
  import opened StreamFormat
  import opened SymbolTables
  import LzvnFormat
  import LzvnEncoder
  import Matching
  import LzfseEncoder
  import LzfseDecoder

  const LZVN_MIN_SRC_SIZE := 8
  const LZVN_THRESHOLD := 4096
  const CHUNK_SIZE := 262144
  const INT32_MAX := 0x7fff_ffff

  // ----- the three kinds of stream

  function EndMarker(): (b: seq<byte>)
    ensures |b| == 4
  {
    LE(ENDOFSTREAM_MAGIC, 4)
  }

  function RawStream(src: seq<byte>): seq<byte> {
    LE(UNCOMPRESSED_MAGIC, 4) + LE(|src|, 4) + src + EndMarker()
  }

  function LzvnStream(nRawBytes: nat, code: seq<byte>): seq<byte> {
    LE(COMPRESSEDLZVN_MAGIC, 4) + LE(nRawBytes, 4) + LE(|code|, 4) + code + EndMarker()
  }

  lemma EndDecodes(b: seq<byte>, pos: nat, out: seq<byte>)
    requires pos + 4 <= |b| && b[pos..pos + 4] == EndMarker()
    ensures DecodeStream(b, pos, out) == Outcome(out, EndOfStream(pos + 4))
  {
    hide LE, Word, DecodeStream;
    WordAt(b, pos, ENDOFSTREAM_MAGIC);
    EndStep(b, pos, out);
  }

  lemma RawDecodes(src: seq<byte>)
    requires |src| < 0x1_0000_0000
    ensures DecodeStream(RawStream(src), 0, []) == Outcome(src, EndOfStream(|RawStream(src)|))
  {
    hide LE, Word, EndMarker;
    var b := RawStream(src);
    assert b[0..4] == LE(UNCOMPRESSED_MAGIC, 4) && b[4..8] == LE(|src|, 4);
    WordAt(b, 0, UNCOMPRESSED_MAGIC);
    WordAt(b, 4, |src|);
    assert b[8..8 + |src|] == src && b[8 + |src|..8 + |src| + 4] == EndMarker();
    EndDecodes(b, 8 + |src|, src);
    assert [] + src == src;
  }

  lemma LzvnDecodes(src: seq<byte>, code: seq<byte>, d: nat)
    requires 0 < |src| < 0x1_0000_0000 && |code| < 0x1_0000_0000 && LzvnEncoder.RunsTo(code, src, d)
    ensures DecodeStream(LzvnStream(|src|, code), 0, []) == Outcome(src, EndOfStream(|LzvnStream(|src|, code)|))
  {
    hide LE, Word, EndMarker, LzvnFormat.Run, DecodeStream;
    var b := LzvnStream(|src|, code);
    var head := LE(COMPRESSEDLZVN_MAGIC, 4) + LE(|src|, 4) + LE(|code|, 4);
    assert b[0..4] == LE(COMPRESSEDLZVN_MAGIC, 4) && b[4..8] == LE(|src|, 4) && b[8..12] == LE(|code|, 4);
    WordAt(b, 0, COMPRESSEDLZVN_MAGIC);
    WordAt(b, 4, |src|);
    WordAt(b, 8, |code|);
    assert b[..12 + |code|] == head + code;
    assert b[12 + |code|..12 + |code| + 4] == EndMarker();
    LzfseDecoder.BeginCases(b, 0, []);
    EndDecodes(b, 12 + |code|, src);
  }

  // ----- encoding

  /** One byte many times, up to where the signed 32-bit distance test of the search wraps around. */
  ghost predicate LongRun(src: seq<byte>) {
    Matching.Uniform(src) && LZVN_THRESHOLD <= |src| <= INT32_MAX - MAX_D_VALUE
  }

  /** The LZFSE route; sources of 4 GiB and more are processed in chunks, translating the offsets between them. */
  method EncodeLzfse(src: seq<byte>, dstSize: nat) returns (ok: bool, dst: seq<byte>)
    requires |src| >= LZVN_THRESHOLD
    ensures ok ==> |dst| <= dstSize && DecodeStream(dst, 0, []) == Outcome(src, EndOfStream(|dst|))
    ensures ok ==> LzfseEncoder.StartsCompressed(dst)
    ensures dstSize >= LzfseEncoder.StreamBound(|src|) ==> ok
    ensures LongRun(src) && dstSize >= LzfseEncoder.RunBound(|src|) ==> ok
    ensures LongRun(src) && ok ==> |dst| <= LzfseEncoder.RunBound(|src|)
  {
    hide DecodeStream, LzfseEncoder.EncoderState.FrontEnd, LzfseEncoder.EncoderState.BackEnd,
      LzfseEncoder.EncoderState.PendingOk, LzfseEncoder.StartsCompressed, LzfseEncoder.EncoderState.OnRun,
      Matching.Uniform;
    dst := [];
    var state;
    if |src| >= 0xffff_ffff {
      state := new LzfseEncoder.EncoderState(src, CHUNK_SIZE, dstSize);
      ok := state.EncodeBase();
      if !ok {
        SourcePart(state);
        return;
      }
      var srcSize := |src| - CHUNK_SIZE;
      while srcSize >= CHUNK_SIZE
        invariant fresh(state) && fresh(state.lValues) && fresh(state.mValues) && fresh(state.dValues)
        invariant fresh(state.literals) && fresh(state.historyTable)
        invariant state.FrontEnd() && state.srcEnd == CHUNK_SIZE && state.srcEncodeI == CHUNK_SIZE - 8
        invariant srcSize >= 0 && state.base + CHUNK_SIZE + srcSize == |src|
      {
        state.ExtendSource(2 * CHUNK_SIZE);
        ok := state.EncodeBase();
        if !ok {
          SourcePart(state);
          return;
        }
        state.Translate(CHUNK_SIZE);
        srcSize := srcSize - CHUNK_SIZE;
      }
      state.ExtendSource(CHUNK_SIZE + srcSize);
    } else {
      state := new LzfseEncoder.EncoderState(src, |src|, dstSize);
    }
    ok := state.EncodeBase();
    if !ok {
      SourcePart(state);
      return;
    }
    ok := state.EncodeFinish();
    assert src[..|src|] == src;
    dst := state.dst;
  }

  /** What is encoded so far is part of the source. */
  lemma SourcePart(s: LzfseEncoder.EncoderState)
    requires s.BackEnd()
    ensures 0 <= s.base + s.srcLiteral <= |s.buf|
  {
  }

  /** The raw stream, or nothing when it does not fit. */
  function RawOrNothing(src: seq<byte>, dstSize: nat): seq<byte> {
    if |src| + 12 <= dstSize && |src| < INT32_MAX then RawStream(src) else []
  }

  /**
   * lzfse_encode_buffer: the compressed stream, or the raw one, or nothing (a returned size of 0) when none fits. Which
   * one it is: short sources go to LZVN (`lzvn` is the code found, if any), and its code is taken if it is shorter than
   * the source; all others are compressed with LZFSE, which succeeds with room for the worst case.
   */
  method EncodeBuffer(src: seq<byte>, dstSize: nat) returns (code: seq<byte>, ghost lzvn: seq<byte>)
    ensures |code| <= dstSize
    ensures code != [] ==> DecodeStream(code, 0, []) == Outcome(src, EndOfStream(|code|))
    ensures |src| + 12 <= dstSize && |src| < INT32_MAX ==> code != []
    ensures lzvn != [] ==> exists d :: LzvnEncoder.RunsTo(lzvn, src, d)
    ensures LZVN_MIN_SRC_SIZE <= |src| < LZVN_THRESHOLD && 2 * |src| + 34 < dstSize ==> lzvn != []
    ensures if LZVN_MIN_SRC_SIZE <= |src| < LZVN_THRESHOLD && lzvn != [] && |lzvn| < |src|
            then code == LzvnStream(|src|, lzvn)
            else code == RawOrNothing(src, dstSize) || (|src| >= LZVN_THRESHOLD && LzfseEncoder.StartsCompressed(code))
    ensures |src| >= LZVN_THRESHOLD && dstSize >= LzfseEncoder.StreamBound(|src|) ==>
        LzfseEncoder.StartsCompressed(code)
    ensures LongRun(src) && dstSize >= LzfseEncoder.RunBound(|src|) ==>
        LzfseEncoder.StartsCompressed(code) && |code| <= LzfseEncoder.RunBound(|src|)
    ensures Matching.Uniform(src) && 32 <= |src| < LZVN_THRESHOLD && 2 * |src| + 34 < dstSize ==>
        |code| <= 39 + 2 * LzvnEncoder.Pieces(|src|)
  {
    hide DecodeStream, LE, LzvnEncoder.RunsTo, RawStream, LzvnStream, Matching.Uniform, LzfseEncoder.StartsCompressed;
    StreamSizes(src);
    lzvn := [];
    if |src| < LZVN_MIN_SRC_SIZE {
      // too small for LZVN
    } else if |src| < LZVN_THRESHOLD {
      var extraSize := 16;
      if dstSize > extraSize {
        var program := LzvnEncoder.EncodeBuffer(src, dstSize - extraSize);
        lzvn := program;
        if program != [] && |program| < |src| {
          ghost var d :| LzvnEncoder.RunsTo(program, src, d);
          LzvnDecodes(src, program, d);
          LzvnStreamSize(|src|, program);
          code := LzvnStream(|src|, program);
          return;
        }
      }
    } else {
      var ok, dst := EncodeLzfse(src, dstSize);
      if ok {
        NothingDecodes(src);
        code := dst;
        return;
      }
    }
    // try_uncompressed
    code := [];
    if |src| + 12 <= dstSize && |src| < INT32_MAX {
      RawDecodes(src);
      code := RawStream(src);
    }
  }

  lemma StreamSizes(src: seq<byte>)
    ensures |RawStream(src)| == |src| + 12
  {
  }

  lemma LzvnStreamSize(n: nat, code: seq<byte>)
    ensures |LzvnStream(n, code)| == |code| + 16
  {
  }

  /** The empty stream does not decode to anything. */
  lemma NothingDecodes(src: seq<byte>)
    ensures DecodeStream([], 0, []) != Outcome(src, EndOfStream(0))
  {
  }

  // ----- decoding

  /**
   * lzfse_decode_buffer: the number of bytes written, or 0 when the stream is damaged or cut off. An LZVN block that
   * is damaged or cut off in its payload leaves the count open.
   */
  method DecodeBuffer(dst: array<byte>, dstSize: nat, src: seq<byte>) returns (n: nat)
    requires dstSize <= dst.Length
    modifies dst
    ensures n <= dstSize
    ensures var R := DecodeStream(src, 0, []);
            && (R.stop != Undefined && |R.out| > dstSize ==> n == dstSize && dst[..n] == R.out[..n])
            && (R.stop.EndOfStream? && |R.out| <= dstSize ==> n == |R.out| && dst[..n] == R.out)
            && ((R.stop == SrcEmpty || R.stop == Error) && |R.out| <= dstSize ==> n == 0)
    ensures forall k :: dstSize <= k < dst.Length ==> dst[k] == old(dst[k])
  {
    hide DecodeStream;
    var s := new LzfseDecoder.DecoderState(src, dst, dstSize);
    assert dst[..0] == [];
    assert s.Remaining() == DecodeStream(src, 0, []);
    var status := s.Decode();
    if status == LzfseDecoder.DST_FULL {
      return dstSize;
    }
    if status != LzfseDecoder.OK {
      return 0;
    }
    return s.dstPos;
  }

  /** Every source shorter than 2 GiB survives being encoded with 12 spare bytes and decoded again. */
  method RoundTrip(src: seq<byte>, dstSize: nat, out: array<byte>) returns (n: nat, m: nat)
    requires |src| < INT32_MAX && |src| + 12 <= dstSize && |src| <= out.Length
    modifies out
    ensures 0 < n <= dstSize
    ensures m == |src| && out[..m] == src
  {
    hide DecodeStream;
    var code, _ := EncodeBuffer(src, dstSize);
    n := |code|;
    m := DecodeBuffer(out, out.Length, code);
  }

  /**
   * Stopping at any point outside an LZVN block because the destination is full, and going on with a larger one, has
   * the outcome of a single call with the larger destination.
   */
  method DecodeInTwoCalls(src: seq<byte>, dst: array<byte>, first: nat, second: nat)
    returns (s: LzfseDecoder.DecoderState, status: LzfseDecoder.Status, resumable: bool)
    requires first <= second <= dst.Length
    modifies dst
    ensures s.dst == dst && s.dstEnd <= second && (status == LzfseDecoder.DST_FULL && resumable ==> s.dstEnd == second)
    ensures resumable ==> s.Final(DecodeStream(src, 0, []), status)
    ensures !resumable ==> status == LzfseDecoder.DST_FULL && s.blockMagic == COMPRESSEDLZVN_MAGIC && s.dstEnd == first
  {
    hide DecodeStream, LzfseDecoder.DecoderState.Valid;
    s := new LzfseDecoder.DecoderState(src, dst, first);
    ghost var R := DecodeStream(src, 0, []);
    LzfseDecoder.InitiallyTracks(s);
    status := s.DecodeTracked(R);
    resumable := status != LzfseDecoder.DST_FULL || s.blockMagic != COMPRESSEDLZVN_MAGIC;
    if status == LzfseDecoder.DST_FULL && resumable {
      LzfseDecoder.StillTracks(s, R);
      s.GrowDestination(second, R);
      status := s.DecodeTracked(R);
    }
  }
}
