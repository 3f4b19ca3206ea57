/** The LZFSE encoder: the block being collected, match splitting, the match finder, and the end of stream. */
module LzfseEncoder {
  import opened Bits
  import opened SymbolTables
  import opened Lz77
  import opened Payloads
  import opened BlockHeader
  import opened StreamFormat
  import opened BlockFormat
  import opened BlockEncoder
  import opened Matching
  import opened WideCopy

  /** lzfse_match. */
  datatype Match = Match(pos: int, ref: int, length: nat)

  const NO_MATCH := Match(0, 0, 0)

  const HASH_VALUES := 16384
  const HASH_WIDTH := 4
  const GOOD_MATCH := 40
  const MAX_MATCH_LENGTH := 100 * MAX_M_VALUE
  const INVALID_POS := -4 * MAX_D_VALUE
  // the search never runs further ahead of the literals than this
  const MAX_BACKLOG := 8 * MAX_L_VALUE + 2

  // ----- what has been emitted

  /** A decoder that reads `dst` from the start of a stream has produced `out`, and goes on behind it. */
  ghost predicate Decodes(dst: seq<byte>, out: seq<byte>) {
    forall src: seq<byte> :: dst <= src ==> DecodeStream(src, 0, []) == DecodeStream(src, |dst|, out)
  }

  lemma DecodesNothing()
    ensures Decodes([], [])
  {
  }

  lemma DecodesBlock(dst: seq<byte>, out: seq<byte>, fr: Freqs, lmds: seq<LMD>, lits: seq<byte>)
    requires Decodes(dst, out) && BlockOk(fr, lmds, lits) && Expandable(|out|, |lits|, lmds)
    ensures Decodes(dst + EncodeBlock(fr, lmds, lits), Expand(out, lits, lmds))
  {
    hide DecodeStream, EncodeBlock, BlockOk, Expandable, Expand;
    var block := EncodeBlock(fr, lmds, lits);
    forall src: seq<byte> | dst + block <= src
      ensures DecodeStream(src, 0, []) == DecodeStream(src, |dst + block|, Expand(out, lits, lmds))
    {
      assert src[..|dst + block|] == dst + block;
      assert dst <= src && src[|dst|..|dst| + |block|] == block;
      BlockRoundTrip(src, |dst|, fr, lmds, lits, out);
    }
  }

  lemma DecodesFront(dst: seq<byte>, out: seq<byte>, src: seq<byte>)
    requires Decodes(dst, out) && dst <= src
    ensures DecodeStream(src, 0, []) == DecodeStream(src, |dst|, out)
  {
    hide DecodeStream;
  }

  lemma DecodesEndOfStream(dst: seq<byte>, out: seq<byte>)
    requires Decodes(dst, out)
    ensures DecodeStream(dst + LE(ENDOFSTREAM_MAGIC, 4), 0, []) == Outcome(out, EndOfStream(|dst| + 4))
  {
    hide LE, Word, DecodeStream, Decodes;
    var src := dst + LE(ENDOFSTREAM_MAGIC, 4);
    assert src[|dst|..|dst| + 4] == LE(ENDOFSTREAM_MAGIC, 4);
    DecodesFront(dst, out, src);
    WordAt(src, |dst|, ENDOFSTREAM_MAGIC);
    EndStep(src, |dst|, out);
  }

  /**
   * The triples collected so far are in range, use up the literals, and stand for `whole` once `flushed` is produced.
   */
  ghost predicate Stored(flushed: seq<byte>, lits: seq<byte>, lmds: seq<LMD>, whole: seq<byte>) {
    && LitSum(lmds) == |lits|
    && Expandable(|flushed|, |lits|, lmds)
    && Expand(flushed, lits, lmds) == whole
    && forall i :: 0 <= i < |lmds| ==> InRange(lmds[i])
  }

  lemma StoredNothing(whole: seq<byte>)
    ensures Stored(whole, [], [], whole)
  {
  }

  lemma StoredPush(flushed: seq<byte>, lits: seq<byte>, lmds: seq<LMD>, whole: seq<byte>, more: seq<byte>, x: LMD)
    requires Stored(flushed, lits, lmds, whole)
    requires InRange(x) && |more| == x.l && x.d <= |whole| + x.l
    ensures Stored(flushed, lits + more, lmds + [x], CopyMatch(whole + more, x.d, x.m))
  {
    hide CopyMatch, Expand, Expandable;
    ExpandAppend(flushed, lits, lmds, more, x);
  }

  lemma NothingStored(flushed: seq<byte>, whole: seq<byte>)
    requires Stored(flushed, [], [], whole)
    ensures flushed == whole
  {
  }

  /** Room for a block with the given contents is missing. */
  ghost predicate DstFull(used: nat, nLiterals: nat, nMatches: nat, dstSize: nat) {
    used + EncodedBound(nLiterals + 3, nMatches) > dstSize
  }

  // ----- how much is emitted

  /** Nothing is emitted yet, or the stream starts with a compressed block. */
  ghost predicate Started(dst: seq<byte>, flushed: seq<byte>) {
    if dst == [] then flushed == [] else StartsCompressed(dst)
  }

  ghost predicate StartsCompressed(dst: seq<byte>) {
    |dst| >= 4 && dst[..4] == LE(COMPRESSEDV2_MAGIC, 4)
  }

  /** Room that always suffices for a source of n bytes. */
  function StreamBound(n: nat): nat {
    4 * n + 800
  }

  /** Three bytes at most are without a share in the triples: those of a last run of literals that is very short. */
  function Slack(n: int): nat {
    if n >= 4 then 0 else 3
  }

  /** A block that has become full stands for so much of the source that it pays for its header and its triples. */
  lemma FullBlockPays(flushed: nat, whole: nat, nLiterals: nat, nMatches: nat, lits: int, total: int)
    requires flushed + 4 * nMatches <= whole && flushed + nLiterals <= whole
    requires lits <= MAX_BACKLOG + 8 && total <= lits + MAX_MATCH_LENGTH + MAX_BACKLOG
    requires total >= MAX_L_VALUE * (MATCHES_PER_BLOCK - 8 - nMatches) || nLiterals + lits + 16 > LITERALS_PER_BLOCK
    ensures EncodedBound(nLiterals + 3, nMatches) <= 4 * (whole - flushed)
  {
  }

  /** The number of triples for L literals and a match of M bytes: full pieces are split off while more is left. */
  function Triples(L: nat, M: nat): nat
    decreases L + M
  {
    if L > MAX_L_VALUE then 1 + Triples(L - MAX_L_VALUE, M)
    else if M > MAX_M_VALUE then 1 + Triples(0, M - MAX_M_VALUE)
    else if L > 0 || M > 0 then 1
    else 0
  }

  /** A triple stands for at least four bytes on average, but for a single one of less; a full piece for much more. */
  lemma {:induction false} TriplesBound(L: nat, M: nat)
    ensures L + M >= MAX_L_VALUE * (Triples(L, M) - 1)
    ensures 4 * Triples(L, M) <= L + M + Slack(L + M)
    ensures 7 * Triples(L, M) <= 7 + L / 45 + M / 337
    decreases L + M
  {
    if L > MAX_L_VALUE {
      TriplesBound(L - MAX_L_VALUE, M);
    } else if M > MAX_M_VALUE {
      TriplesBound(0, M - MAX_M_VALUE);
    }
  }

  /** The tables have room for L literals and a match of M bytes. */
  predicate Fits(nLiterals: nat, nMatches: nat, L: nat, M: nat) {
    nMatches + Triples(L, M) + 8 <= MATCHES_PER_BLOCK && nLiterals + L + 16 <= LITERALS_PER_BLOCK
  }

  /** Every match that the front end emits fits into an empty block. */
  lemma FitsEmptyBlock(L: nat, M: nat)
    requires L <= MAX_BACKLOG + 8 && M <= MAX_MATCH_LENGTH + MAX_BACKLOG
    ensures Fits(0, 0, L, M)
  {
    hide Triples;
    TriplesBound(L, M);
  }

  /** A block without room is nearly full, or is asked to take a lot. */
  lemma NotFitting(nLiterals: nat, nMatches: nat, L: nat, M: nat)
    requires !Fits(nLiterals, nMatches, L, M)
    ensures L + M >= MAX_L_VALUE * (MATCHES_PER_BLOCK - 8 - nMatches) || nLiterals + L + 16 > LITERALS_PER_BLOCK
  {
    hide Triples;
    TriplesBound(L, M);
  }

  /** What is emitted, and what the triples and literals collected take at most. */
  function LoadOf(used: nat, nLiterals: nat, nMatches: nat): nat {
    used + 7 * nMatches + 2 * nLiterals
  }

  /** What L literals with a match behind them, n bytes of the source together, add at most: a header, the triples. */
  function Cost(L: nat, n: nat): nat {
    763 + n / 337 + 3 * L
  }

  lemma CollectedCost(used: nat, nLiterals: nat, nMatches: nat, L: nat, M: nat)
    ensures LoadOf(used, nLiterals + L, nMatches + Triples(L, M)) <= LoadOf(used, nLiterals, nMatches) + Cost(L, L + M)
    ensures LoadOf(used + EncodedBound(nLiterals + 3, nMatches), L, Triples(L, M))
            <= LoadOf(used, nLiterals, nMatches) + Cost(L, L + M)
  {
    hide Triples;
    TriplesBound(L, M);
  }

  lemma CostMonotone(L: nat, L': nat, n: nat)
    requires L <= L'
    ensures Cost(L, n) <= Cost(L', n)
  {
  }

  lemma LoadMonotone(used: nat, used': nat, nLiterals: nat, nMatches: nat)
    requires used <= used'
    ensures LoadOf(used, nLiterals, nMatches) <= LoadOf(used', nLiterals, nMatches)
  {
  }

  lemma BoundPadded(padded: nat, nLiterals: nat, nMatches: nat)
    requires padded / 4 <= (nLiterals + 3) / 4
    ensures EncodedBound(padded, nMatches) <= EncodedBound(nLiterals + 3, nMatches)
  {
  }

  lemma AnyBlockFits(flushed: nat, whole: nat, nLiterals: nat, nMatches: nat, used: nat)
    requires flushed + 4 * nMatches <= whole + 3 && flushed + nLiterals <= whole && used <= 4 * flushed
    ensures used + EncodedBound(nLiterals + 3, nMatches) + 4 <= StreamBound(whole)
  {
  }

  lemma StillStarted(dst: seq<byte>, flushed: seq<byte>, block: seq<byte>, whole: seq<byte>)
    requires Started(dst, flushed) && StartsCompressed(block)
    ensures Started(dst + block, whole) && StartsCompressed(dst + block)
  {
    if dst == [] {
      assert dst + block == block;
    } else {
      assert (dst + block)[..4] == dst[..4];
    }
  }

  /** The output with one more block, whose literals may be padded. */
  lemma BlockAppended(dst: seq<byte>, flushed: seq<byte>, fr: Freqs, lmds: seq<LMD>, lits: seq<byte>, nLiterals: nat,
      whole: seq<byte>)
    requires Decodes(dst, flushed) && BlockOk(fr, lmds, lits) && Expandable(|flushed|, |lits|, lmds)
    requires Expand(flushed, lits, lmds) == whole && |lits| / 4 <= (nLiterals + 3) / 4
    ensures var block := EncodeBlock(fr, lmds, lits);
            && Decodes(dst + block, whole) && |block| <= EncodedBound(nLiterals + 3, |lmds|)
            && (Started(dst, flushed) ==> Started(dst + block, whole))
  {
    hide Decodes, EncodeBlock, BlockOk, Expandable, Expand, EncodedBound, Started;
    DecodesBlock(dst, flushed, fr, lmds, lits);
    BlockSize(fr, lmds, lits);
    BoundPadded(|lits|, nLiterals, |lmds|);
    BlockStarts(fr, lmds, lits);
    if Started(dst, flushed) {
      StillStarted(dst, flushed, EncodeBlock(fr, lmds, lits), whole);
    }
  }

  lemma BlockStarts(fr: Freqs, lmds: seq<LMD>, lits: seq<byte>)
    requires BlockOk(fr, lmds, lits)
    ensures StartsCompressed(EncodeBlock(fr, lmds, lits))
  {
    hide EncodeBlock, BlockOk, LE;
    BlockSize(fr, lmds, lits);
  }

  lemma StoredLength(flushed: seq<byte>, lits: seq<byte>, lmds: seq<LMD>, whole: seq<byte>)
    requires Stored(flushed, lits, lmds, whole)
    ensures |whole| == |flushed| + |lits| + MatchSum(lmds)
  {
    hide Expand, Expandable;
    ExpandLength(flushed, lits, lmds);
  }

  // ----- the search history

  /** Four positions with the words found there; component 0 is the most recent. */
  datatype HistorySet = HistorySet(pos: seq<int>, value: seq<nat>)

  /** Conversion to a signed 32-bit word. */
  function ToInt32(x: int): (r: int)
    ensures -0x8000_0000 <= r < 0x8000_0000
  {
    (x + 0x8000_0000) % 0x1_0000_0000 - 0x8000_0000
  }

  /** The distance test of the search, on signed 32-bit words. */
  predicate TooFar(ref: int, pos: int) {
    ToInt32(ref + MAX_D_VALUE) < pos
  }

  /** A remembered position is too far from i, or the remembered word is the source word there, before i. */
  ghost predicate SlotOk(p: int, value: nat, buf: seq<byte>, base: int, i: int) {
    && -0x8000_0000 <= p < 0x8000_0000
    && (p + MAX_D_VALUE < i || (p < i && 0 <= base + p && base + p + 4 <= |buf| && value == Load4(buf, base + p)))
  }

  ghost predicate LineOk(h: HistorySet, buf: seq<byte>, base: int, i: int) {
    && |h.pos| == |h.value| == HASH_WIDTH
    && forall k :: 0 <= k < HASH_WIDTH ==> SlotOk(h.pos[k], h.value[k], buf, base, i)
  }

  /** hashX. */
  function HashX(x: nat): (h: nat)
    ensures h < HASH_VALUES
  {
    x * 2654435761 % 0x1_0000_0000 / 0x4_0000
  }

  lemma NewSlot(buf: seq<byte>, base: int, pos: nat)
    requires base >= 0 && base + pos + 4 <= |buf|
    ensures SlotOk(ToInt32(pos), Load4(buf, base + pos), buf, base, pos + 1)
  {
    hide FromLE;
  }

  /** A candidate that is not too far is a real earlier occurrence of the current word. */
  lemma CandidateMatches(buf: seq<byte>, base: nat, p: int, value: nat, pos: nat)
    requires SlotOk(p, value, buf, base, pos) && !TooFar(p, pos)
    requires base + pos + 4 <= |buf| && value == Load4(buf, base + pos)
    ensures p < pos <= p + MAX_D_VALUE && base + p >= 0 && SameBytes(buf, base + p, base + pos, 4)
  {
    hide FromLE;
    SameWords(buf, base + p, base + pos);
  }

  /** A repeat from pos on, at a codable distance, behind the literals not yet collected. */
  ghost predicate MatchAt(buf: seq<byte>, base: nat, srcEnd: int, srcLiteral: int, m: Match) {
    && 0 <= base + srcLiteral && srcLiteral <= m.pos && m.pos + m.length <= srcEnd && base + srcEnd <= |buf|
    && 1 <= m.pos - m.ref <= MAX_D_VALUE && 0 <= base + m.ref
    && SameBytes(buf, base + m.ref, base + m.pos, m.length)
  }

  function End(m: Match): int {
    m.pos + m.length
  }

  /**
   * What the match filter makes of a pending and an incoming match: a good one goes out at once and drops the pending
   * one; two that do not overlap are emitted in order; of two that overlap the longer one is emitted, and the other
   * dropped.
   */
  ghost predicate Decided(pending: Match, incoming: Match, srcLiteral: int, pending': Match, srcLiteral': int) {
    if incoming.length >= GOOD_MATCH then pending' == NO_MATCH && srcLiteral' == End(incoming)
    else if pending.length == 0 then pending' == incoming && srcLiteral' == srcLiteral
    else if End(pending) <= incoming.pos then pending' == incoming && srcLiteral' == End(pending)
    else pending' == NO_MATCH && srcLiteral' == End(if incoming.length > pending.length then incoming else pending)
  }

  /**
   * What happens at a position i without a match: when more than 8 * MAX_L_VALUE literals have gathered, the pending
   * match is emitted, or MAX_L_VALUE of the literals.
   */
  ghost predicate CaughtUp(pending: Match, i: int, srcLiteral: int, pending': Match, srcLiteral': int) {
    if i - srcLiteral <= 8 * MAX_L_VALUE then pending' == pending && srcLiteral' == srcLiteral
    else if pending.length > 0 then pending' == NO_MATCH && srcLiteral' == End(pending)
    else pending' == pending && srcLiteral' == srcLiteral + MAX_L_VALUE
  }

  // ----- a source that repeats one byte

  /** Room that always suffices for n times one byte, less than n from 4096 bytes on. */
  function RunBound(n: nat): nat {
    2400 + n / 160
  }

  /**
   * A source of n times one byte, before position i: from position 1 on every match is as long as it may be, so the
   * literals are few and each match but the last covers MAX_MATCH_LENGTH bytes. A short rest may stay pending for one
   * position.
   */
  ghost predicate RunPhase(n: nat, i: int, srcLiteral: int, pending: Match, load: nat) {
    && 0 <= srcLiteral <= n
    && (srcLiteral + 8 >= n ==> pending.length == 0 && load <= 800 + n / 160)
    && (srcLiteral + 8 < n ==> load <= 10 + srcLiteral / 160)
    && (srcLiteral + 8 < n && pending.length == 0 ==> i <= srcLiteral || i <= 1)
    && (srcLiteral + 8 < n && pending.length > 0 ==> i <= srcLiteral + 1 && RestPending(n, srcLiteral, pending))
  }

  ghost predicate RestPending(n: nat, srcLiteral: int, pending: Match) {
    srcLiteral <= pending.pos <= srcLiteral + 1 && n <= End(pending) + 8 && End(pending) <= n
  }

  /** The load when the match goes out that comes near the end of the source. */
  lemma LastCost(n: nat, srcLiteral: nat, srcLiteral': nat, load: nat, L: nat)
    requires srcLiteral <= srcLiteral' <= n && load <= 10 + srcLiteral / 160 && L <= 1
    ensures load + Cost(L, srcLiteral' - srcLiteral) <= 800 + n / 160
  {
  }

  /** A match of MAX_MATCH_LENGTH bytes pays for itself. */
  lemma LongCost(srcLiteral: nat, srcLiteral': nat, load: nat, L: nat)
    requires srcLiteral + MAX_MATCH_LENGTH <= srcLiteral' && load <= 10 + srcLiteral / 160 && L <= 1
    ensures load + Cost(L, srcLiteral' - srcLiteral) <= 10 + srcLiteral' / 160
  {
  }

  lemma RunStep(n: nat, i: nat, srcLiteral: nat, pending: Match, load: nat, found: Match, incoming: Match,
      srcLiteral': nat, pending': Match, load': nat)
    requires n >= 64 && i + 8 < n && srcLiteral <= i && RunPhase(n, i, srcLiteral, pending, load)
    requires found.length == 0 <==> i == 0
    requires if i == 0 then CaughtUp(pending, i, srcLiteral, pending', srcLiteral')
             else Decided(pending, incoming, srcLiteral, pending', srcLiteral')
    requires i > 0 ==> i + found.length + 8 >= n && srcLiteral <= incoming.pos <= i && End(incoming) <= n
    requires i > 0 ==> End(incoming) == i + Shorter(found.length, MAX_MATCH_LENGTH)
    requires load' <= load + if srcLiteral' == srcLiteral then 0 else Cost(i - srcLiteral, srcLiteral' - srcLiteral)
    requires srcLiteral <= srcLiteral' <= n
    ensures RunPhase(n, i + 1, srcLiteral', pending', load')
  {
    hide Cost;
    if i > 0 {
      LastCost(n, srcLiteral, srcLiteral', load, i - srcLiteral);
      if srcLiteral + MAX_MATCH_LENGTH <= srcLiteral' {
        LongCost(srcLiteral, srcLiteral', load, i - srcLiteral);
      }
    }
  }

  /** What is left once all positions are visited: the pending match, and at most 8 literals. */
  lemma RunFinished(n: nat, i: int, srcLiteral: int, pending: Match, load: nat)
    requires RunPhase(n, i, srcLiteral, pending, load) && i + 8 >= n >= 64
    ensures load + 760 < RunBound(n)
    ensures if pending.length == 0
            then n - srcLiteral <= 8 && load + Cost(n - srcLiteral, n - srcLiteral) + 760 < RunBound(n)
            else && 0 <= pending.pos - srcLiteral && srcLiteral <= End(pending) <= n <= End(pending) + 8
                 && var load1 := load + Cost(pending.pos - srcLiteral, End(pending) - srcLiteral);
                    load1 + Cost(n - End(pending), n - End(pending)) + 760 < RunBound(n)
  {
    if pending.length > 0 {
      LastCost(n, srcLiteral, End(pending), load, pending.pos - srcLiteral);
    }
  }

  function Shorter(a: nat, b: nat): nat {
    if a < b then a else b
  }

  lemma RunSkip(n: nat, i: nat, srcLiteral: nat, pending: Match, load: nat)
    requires RunPhase(n, i, srcLiteral, pending, load) && i < srcLiteral
    ensures RunPhase(n, i + 1, srcLiteral, pending, load)
  {
  }

  /** The same match, seen from a point delta further on. */
  lemma MatchAtTranslates(buf: seq<byte>, base: nat, srcEnd: int, srcLiteral: int, m: Match, delta: nat)
    ensures MatchAt(buf, base, srcEnd, srcLiteral, m)
            ==> MatchAt(buf, base + delta, srcEnd - delta, srcLiteral - delta, Match(m.pos - delta, m.ref - delta, m.length))
  {
    hide SameBytes;
  }

  /** Collecting literals in front of a match leaves it as it is. */
  lemma MatchAtLater(buf: seq<byte>, base: nat, srcEnd: int, srcLiteral: int, m: Match, later: int)
    requires MatchAt(buf, base, srcEnd, srcLiteral, m) && srcLiteral <= later <= m.pos
    ensures MatchAt(buf, base, srcEnd, later, m)
  {
  }

  /** The line for a word just found at pos: it comes first, the oldest entry is dropped. */
  function NewLine(h: HistorySet, pos: int, x: nat): (r: HistorySet)
    requires |h.pos| == |h.value| == HASH_WIDTH
    ensures |r.pos| == |r.value| == HASH_WIDTH && r.pos[0] == ToInt32(pos) && r.value[0] == x
    ensures r.pos[1..] == h.pos[..HASH_WIDTH - 1] && r.value[1..] == h.value[..HASH_WIDTH - 1]
  {
    HistorySet([ToInt32(pos), h.pos[0], h.pos[1], h.pos[2]], [x, h.value[0], h.value[1], h.value[2]])
  }

  lemma NewLineOk(h: HistorySet, buf: seq<byte>, base: nat, pos: nat)
    requires LineOk(h, buf, base, pos) && base + pos + 4 <= |buf|
    ensures LineOk(NewLine(h, pos, Load4(buf, base + pos)), buf, base, pos + 1)
  {
    hide Load4, ToInt32;
    NewSlot(buf, base, pos);
  }

  lemma LineShape(h: HistorySet, buf: seq<byte>, base: int, i: int)
    requires LineOk(h, buf, base, i)
    ensures |h.pos| == |h.value| == HASH_WIDTH
  {
  }

  lemma LinesLater(buf: seq<byte>, base: int, pos: int)
    ensures forall h :: LineOk(h, buf, base, pos) ==> LineOk(h, buf, base, pos + 1)
  {
    hide Load4;
  }

  /** Positions moved back by delta, clamped to the invalid position. */
  function TranslateLine(h: HistorySet, delta: nat): HistorySet {
    HistorySet(seq(|h.pos|, k requires 0 <= k < |h.pos| =>
                     if h.pos[k] - delta < INVALID_POS then INVALID_POS else h.pos[k] - delta),
               h.value)
  }

  lemma LineTranslates(h: HistorySet, buf: seq<byte>, base: int, i: int, delta: nat)
    requires LineOk(h, buf, base, i) && delta <= i
    ensures LineOk(TranslateLine(h, delta), buf, base + delta, i - delta)
  {
    hide Load4;
    forall k | 0 <= k < HASH_WIDTH
      ensures SlotOk(TranslateLine(h, delta).pos[k], h.value[k], buf, base + delta, i - delta)
    {
      assert SlotOk(h.pos[k], h.value[k], buf, base, i);
    }
  }

  class EncoderState {
    // the whole source, and where s->src points in it; all offsets are relative to that point
    const buf: seq<byte>
    var base: nat
    var srcEnd: int
    var srcLiteral: int
    var srcEncodeI: int
    var srcEncodeEnd: int
    var dst: seq<byte>
    const dstSize: nat
    var pending: Match
    // the block being collected
    var nMatches: nat
    var nLiterals: nat
    const lValues: array<nat>
    const mValues: array<nat>
    const dValues: array<nat>
    const literals: array<byte>
    const historyTable: array<HistorySet>
    // what the blocks in dst decode to
    ghost var flushed: seq<byte>

    ghost predicate Shape() {
      && lValues.Length == mValues.Length == dValues.Length == MATCHES_PER_BLOCK
      && literals.Length == LITERALS_PER_BLOCK
      && historyTable.Length == HASH_VALUES
      && lValues != mValues && lValues != dValues && mValues != dValues
    }

    ghost function Lmds(): seq<LMD>
      requires Shape() && nMatches <= MATCHES_PER_BLOCK
      reads `nMatches, lValues, mValues, dValues
    {
      Zip(lValues[..nMatches], mValues[..nMatches], dValues[..nMatches])
    }

    /** Blocks emitted and triples collected together stand for the source up to the next literal. */
    ghost predicate BackEnd()
      reads `base, `srcLiteral, `dst, `flushed, `nMatches, `nLiterals, lValues, mValues, dValues, literals
    {
      && Shape()
      && nMatches <= MATCHES_PER_BLOCK - 8 && nLiterals <= LITERALS_PER_BLOCK - 16
      && |dst| <= dstSize && Decodes(dst, flushed)
      && 0 <= base + srcLiteral <= |buf|
      && Stored(flushed, literals[..nLiterals], Lmds(), buf[..base + srcLiteral])
    }

    /** The output is at most four times what it stands for, and a triple stands for at least four bytes on average. */
    ghost predicate Sized(slack: nat)
      reads `base, `srcLiteral, `dst, `flushed, `nMatches
    {
      Started(dst, flushed) && |dst| <= 4 * |flushed| && |flushed| + 4 * nMatches <= base + srcLiteral + slack
    }

    ghost function Load(): nat
      reads `dst, `nLiterals, `nMatches
    {
      LoadOf(|dst|, nLiterals, nMatches)
    }

    /** A block was emitted, or nothing was there to emit. */
    twostate predicate BlockEmitted()
      requires 0 <= base + srcLiteral <= |buf|
      reads this
    {
      && flushed == buf[..base + srcLiteral] && (old(Started(dst, flushed)) ==> Started(dst, flushed))
      && |dst| <= old(|dst|) + EncodedBound(old(nLiterals) + 3, old(nMatches))
    }

    /** Everything the back end may change is as it was, for the entries in use. */
    twostate predicate BlockUnchanged()
      requires old(Shape() && nMatches <= MATCHES_PER_BLOCK && nLiterals <= LITERALS_PER_BLOCK)
      reads this, lValues, mValues, dValues, literals
    {
      && dst == old(dst) && flushed == old(flushed) && srcLiteral == old(srcLiteral)
      && nMatches == old(nMatches) && nLiterals == old(nLiterals)
      && Lmds() == old(Lmds()) && literals[..nLiterals] == old(literals[..nLiterals])
    }

    /** Adds zeros until the number of literals is a multiple of 4. */
    method PadLiterals() returns (ghost pad: seq<byte>)
      requires nLiterals + 3 <= literals.Length == LITERALS_PER_BLOCK
      modifies this`nLiterals, literals
      ensures nLiterals <= old(nLiterals) + 3 && nLiterals % 4 == 0 && nLiterals / 4 <= (old(nLiterals) + 3) / 4
      ensures nLiterals <= LITERALS_PER_BLOCK && literals[..nLiterals] == old(literals[..nLiterals]) + pad
    {
      pad := [];
      while nLiterals % 4 != 0
        invariant old(nLiterals) <= nLiterals <= (old(nLiterals) + 3) / 4 * 4
        invariant literals[..nLiterals] == old(literals[..nLiterals]) + pad
        decreases old(nLiterals) + 4 - nLiterals
      {
        ghost var n, before := nLiterals, literals[..nLiterals];
        literals[nLiterals] := 0;
        nLiterals := nLiterals + 1;
        assert literals[..n] == before;
        assert literals[..n + 1] == literals[..n] + [0];
        pad := pad + [0];
      }
    }

    /** lzfse_encode_matches: emits the collected block, or rolls everything back when the destination has no room. */
    method EncodeMatches() returns (ok: bool)
      requires BackEnd()
      modifies this`dst, this`nMatches, this`nLiterals, this`flushed, dValues, literals
      ensures BackEnd()
      ensures ok ==> nMatches == nLiterals == 0 && BlockEmitted()
      ensures !ok ==> BlockUnchanged() && DstFull(|dst|, nLiterals, nMatches, dstSize)
    {
      hide Decodes, Stored, Zip, EncodeBlock, BlockOk, Expandable, Expand, DeltaDistances, DeltaSeq, ResolveSeq,
        DstFull, Started, StartsCompressed, EncodedBound, DecodeStream;
      if nLiterals == 0 && nMatches == 0 {
        assert literals[..0] == [] && Lmds() == [];
        NothingStored(flushed, buf[..base + srcLiteral]);
        return true;
      }
      ghost var lits, whole := literals[..nLiterals], buf[..base + srcLiteral];
      var l, m := lValues[..nMatches], mValues[..nMatches];
      ghost var d0 := dValues[..nMatches];
      ghost var lmds := Zip(l, m, d0);
      StoredInRange(flushed, lits, l, m, d0, whole);
      var nLiterals0 := nLiterals;
      ghost var pad := PadLiterals();
      StoredPadded(flushed, lits, lmds, whole, pad);
      DeltaInPlace(dValues, nMatches);
      ZipDelta(l, m, d0, 0);
      var block; ghost var fr;
      ok, block, fr := BuildBlock(l, m, dValues[..nMatches], literals[..nLiterals], |dst|, dstSize, lmds);
      assert lValues[..nMatches] == l && mValues[..nMatches] == m;
      if ok {
        BlockAppended(dst, flushed, fr, lmds, lits + pad, nLiterals0, whole);
        dst := dst + block;
        nLiterals, nMatches := 0, 0;
        flushed := whole;
        StoredNothing(whole);
      } else {
        ResolveDeltaSeq(d0, 0);
        ResolveInPlace(dValues, nMatches);
        assert literals[..nLiterals0] == (lits + pad)[..nLiterals0];
        nLiterals := nLiterals0;
        StillFull(|dst|, |lits + pad|, nLiterals, nMatches, dstSize);
      }
    }

    ghost predicate MatchOk(m: Match)
      reads `base, `srcEnd, `srcLiteral
    {
      MatchAt(buf, base, srcEnd, srcLiteral, m)
    }

    /** The entries of the block that were in use still are, with the same values. */
    twostate predicate BlockExtended()
      requires old(Shape() && nMatches <= MATCHES_PER_BLOCK && nLiterals <= LITERALS_PER_BLOCK)
      reads this, lValues, mValues, dValues, literals
    {
      && dst == old(dst) && flushed == old(flushed)
      && old(nMatches) <= nMatches <= MATCHES_PER_BLOCK && old(nLiterals) <= nLiterals <= LITERALS_PER_BLOCK
      && (forall k :: 0 <= k < old(nMatches) ==> lValues[k] == old(lValues[k]))
      && (forall k :: 0 <= k < old(nMatches) ==> mValues[k] == old(mValues[k]))
      && (forall k :: 0 <= k < old(nMatches) ==> dValues[k] == old(dValues[k]))
      && (forall k :: 0 <= k < old(nLiterals) ==> literals[k] == old(literals[k]))
    }

    /** Copies the next L literals, 16 bytes at a time unless that would read past the end of the source. */
    method StoreLiterals(L: nat)
      requires 0 <= base + srcLiteral && srcLiteral + L <= srcEnd && base + srcEnd <= |buf|
      requires nLiterals + L + 16 <= literals.Length
      modifies literals
      ensures literals[..nLiterals + L] == old(literals[..nLiterals]) + buf[base + srcLiteral..base + srcLiteral + L]
      ensures forall k :: 0 <= k < nLiterals ==> literals[k] == old(literals[k])
    {
      ghost var lits := literals[..nLiterals];
      if srcLiteral + L + 16 > srcEnd {
        CopyLiteralSlow(literals, nLiterals, buf, base + srcLiteral, L);
      } else {
        CopyLiteral16(literals, nLiterals, buf, base + srcLiteral, L);
      }
      forall k | 0 <= k < nLiterals
        ensures literals[k] == lits[k]
      {
        assert literals[..nLiterals + L][k] == lits[k];
      }
    }

    /** The block has no room for a triple with L literals. */
    ghost predicate BlockFull(L: nat)
      reads this
    {
      nMatches + 1 + 8 > MATCHES_PER_BLOCK || nLiterals + L + 16 > LITERALS_PER_BLOCK
    }

    /** lzfse_push_lmd: collects L literals and a match of M bytes at distance D, unless the block is full. */
    method PushLmd(L: nat, M: nat, D: nat) returns (ok: bool)
      requires BackEnd() && L <= MAX_L_VALUE && M <= MAX_M_VALUE
      requires MatchOk(Match(srcLiteral + L, srcLiteral + L - D, M))
      modifies this`nMatches, this`nLiterals, this`srcLiteral, lValues, mValues, dValues, literals
      ensures BackEnd() && BlockExtended()
      ensures ok ==>
          nMatches == old(nMatches) + 1 && nLiterals == old(nLiterals) + L && srcLiteral == old(srcLiteral) + L + M
      ensures !ok ==> nMatches == old(nMatches) && nLiterals == old(nLiterals) && srcLiteral == old(srcLiteral)
      ensures !ok ==> BlockFull(L)
    {
      hide Decodes, Stored, SameBytes, CopyMatch, Zip;
      if nMatches + 1 + 8 > MATCHES_PER_BLOCK || nLiterals + L + 16 > LITERALS_PER_BLOCK {
        return false;
      }
      ghost var lmds, lits, whole := Lmds(), literals[..nLiterals], buf[..base + srcLiteral];
      var n := nMatches;
      nMatches := nMatches + 1;
      lValues[n], mValues[n], dValues[n] := L, M, D;
      ZipSnoc(lValues, mValues, dValues, n);
      var s := base + srcLiteral;
      StoreLiterals(L);
      nLiterals := nLiterals + L;
      srcLiteral := srcLiteral + L + M;
      assert whole + buf[s..s + L] == buf[..s + L];
      StoredPush(flushed, lits, lmds, whole, buf[s..s + L], LMD(L, M, D));
      RepeatCopies(buf, s + L, D, M);
      ok := true;
    }

    /** The first loop of lzfse_push_match: pieces of MAX_L_VALUE literals, while more than that are left. */
    method PushLongLiterals(m: Match) returns (ok: bool, L: nat)
      requires BackEnd() && MatchOk(m)
      modifies this`nMatches, this`nLiterals, this`srcLiteral, lValues, mValues, dValues, literals
      ensures BackEnd() && BlockExtended() && srcLiteral + L == m.pos &&
          nLiterals + L == old(nLiterals) + m.pos - old(srcLiteral)
      ensures Triples(m.pos - old(srcLiteral), m.length) == nMatches - old(nMatches) + Triples(L, m.length)
      ensures if ok then L <= MAX_L_VALUE else L > MAX_L_VALUE && BlockFull(MAX_L_VALUE)
    {
      hide Decodes, Stored, SameBytes, Zip, BackEnd;
      BackEndBounds(this);
      L := m.pos - srcLiteral;
      ok := true;
      while L > MAX_L_VALUE && ok
        invariant BackEnd() && BlockExtended()
        invariant srcLiteral + L == m.pos && nLiterals + L == old(nLiterals) + m.pos - old(srcLiteral)
        invariant Triples(m.pos - old(srcLiteral), m.length) == nMatches - old(nMatches) + Triples(L, m.length)
        invariant ok || (L > MAX_L_VALUE && BlockFull(MAX_L_VALUE))
        decreases ok, L
      {
        BackEndBounds(this);
        NoMatchOk(this, MAX_L_VALUE);
        ok := PushLmd(MAX_L_VALUE, 0, 1);
        if ok {
          L := L - MAX_L_VALUE;
        }
      }
    }

    /** The second loop: pieces of MAX_M_VALUE match bytes; the literals go with the first. */
    method PushLongMatch(m: Match, L0: nat) returns (ok: bool, L: nat, M: nat)
      requires BackEnd() && srcLiteral + L0 == m.pos && L0 <= MAX_L_VALUE && MatchOk(m)
      modifies this`nMatches, this`nLiterals, this`srcLiteral, lValues, mValues, dValues, literals
      ensures BackEnd() && BlockExtended() && srcLiteral + L + M == m.pos + m.length
      ensures nLiterals + L == old(nLiterals) + L0
      ensures ok ==>
          M <= MAX_M_VALUE && L <= MAX_L_VALUE && MatchOk(Match(srcLiteral + L, srcLiteral + L - (m.pos - m.ref), M))
      ensures Triples(L0, m.length) == nMatches - old(nMatches) + Triples(L, M)
      ensures ok || (M > MAX_M_VALUE && BlockFull(L))
    {
      hide Decodes, Stored, SameBytes, Zip, BackEnd;
      BackEndBounds(this);
      L, M := L0, m.length;
      ok := true;
      while M > MAX_M_VALUE && ok
        invariant BackEnd() && BlockExtended()
        invariant L <= L0 && M <= m.length && srcLiteral + L == m.pos + m.length - M
        invariant nLiterals + L == old(nLiterals) + L0
        invariant L <= MAX_L_VALUE && Triples(L0, m.length) == nMatches - old(nMatches) + Triples(L, M)
        invariant ok || (M > MAX_M_VALUE && BlockFull(L))
        invariant MatchOk(Match(srcLiteral + L, srcLiteral + L - (m.pos - m.ref), M))
        decreases ok, M
      {
        var D := m.pos - m.ref;
        SplitMatchOk(this, Match(srcLiteral + L, srcLiteral + L - D, M), MAX_M_VALUE);
        ok := PushLmd(L, MAX_M_VALUE, D);
        if ok {
          L := 0;
          M := M - MAX_M_VALUE;
        }
      }
    }

    /** The block holds the whole match behind what it held before. */
    ghost predicate Collected(nLiterals0: nat, nMatches0: nat, srcLiteral0: int, m: Match)
      requires srcLiteral0 <= m.pos
      reads `srcLiteral, `nLiterals, `nMatches
    {
      && srcLiteral == m.pos + m.length && nLiterals == nLiterals0 + m.pos - srcLiteral0
      && nMatches == nMatches0 + Triples(m.pos - srcLiteral0, m.length)
    }

    /** All pieces of a match, as far as the tables have room. */
    method PushPieces(m: Match) returns (ok: bool)
      requires BackEnd() && MatchOk(m)
      modifies this`nMatches, this`nLiterals, this`srcLiteral, lValues, mValues, dValues, literals
      ensures BackEnd() && BlockExtended()
      ensures ok <==> Fits(old(nLiterals), old(nMatches), m.pos - old(srcLiteral), m.length)
      ensures ok ==> Collected(old(nLiterals), old(nMatches), old(srcLiteral), m)
    {
      hide Decodes, Stored, SameBytes, Zip, BackEnd, MatchAt;
      MatchOkBounds(this, m);
      ghost var srcLiteral0 := srcLiteral;
      BackEndBounds(this);
      var L, M;
      ok, L := PushLongLiterals(m);
      if !ok {
        return;
      }
      MatchAtLater(buf, base, srcEnd, srcLiteral0, m, srcLiteral);
      ok, L, M := PushLongMatch(m, L);
      if ok && (L > 0 || M > 0) {
        ok := PushLmd(L, M, m.pos - m.ref);
      }
      BackEndBounds(this);
    }

    /** lzfse_push_match: splits a long literal run or match into triples; collects all of them or none. */
    method PushMatch(m: Match) returns (ok: bool)
      requires BackEnd() && MatchOk(m)
      modifies this`nMatches, this`nLiterals, this`srcLiteral, lValues, mValues, dValues, literals
      ensures BackEnd()
      ensures ok <==> Fits(old(nLiterals), old(nMatches), m.pos - old(srcLiteral), m.length)
      ensures if ok then Collected(old(nLiterals), old(nMatches), old(srcLiteral), m) else BlockUnchanged()
    {
      hide Decodes, Stored, SameBytes, Zip, BackEnd, MatchAt, BlockUnchanged;
      var nMatches0, nLiterals0, srcLiteral0 := nMatches, nLiterals, srcLiteral;
      ok := PushPieces(m);
      if !ok {
        nMatches, nLiterals, srcLiteral := nMatches0, nLiterals0, srcLiteral0;
        RolledBack(this);
      }
    }

    /** lzfse_backend_match: collects a match, emitting the block first if it is full. */
    method BackendMatch(m: Match) returns (ok: bool)
      requires BackEnd() && MatchOk(m) && m.pos - srcLiteral <= MAX_BACKLOG + 8 &&
          m.length <= MAX_MATCH_LENGTH + MAX_BACKLOG
      requires Sized(0)
      modifies this`dst, this`flushed, this`nMatches, this`nLiterals, this`srcLiteral, lValues, mValues, dValues, literals
      ensures BackEnd()
      ensures ok ==> srcLiteral == m.pos + m.length && Sized(Slack(m.pos + m.length - old(srcLiteral)))
      ensures ok ==> Load() <= old(Load()) + Cost(m.pos - old(srcLiteral), m.pos + m.length - old(srcLiteral))
      ensures !ok ==> BlockUnchanged() && Sized(0) && DstFull(|dst|, nLiterals, nMatches, dstSize)
    {
      hide BackEnd, Lmds, MatchAt, Started, Triples, Fits, EncodedBound, LoadOf, Cost;
      BackEndBounds(this);
      MatchOkBounds(this, m);
      ghost var L := m.pos - srcLiteral;
      TriplesBound(L, m.length);
      CollectedCost(|dst|, nLiterals, nMatches, L, m.length);
      ok := PushMatch(m);
      if ok {
        return;
      }
      NotFitting(nLiterals, nMatches, L, m.length);
      LiteralsBound(this);
      FullBlockPays(|flushed|, base + srcLiteral, nLiterals, nMatches, L, L + m.length);
      ghost var used := |dst| + EncodedBound(nLiterals + 3, nMatches);
      ok := EncodeMatches();
      if !ok {
        return;
      }
      LoadMonotone(|dst|, used, L, Triples(L, m.length));
      FitsEmptyBlock(L, m.length);
      ok := PushMatch(m);
    }

    /** lzfse_backend_literals: collects L literals as a match of no bytes. */
    method BackendLiterals(L: nat) returns (ok: bool)
      requires BackEnd() && 0 < L <= MAX_BACKLOG + 8 && srcLiteral + L <= srcEnd && base + srcEnd <= |buf|
      requires Sized(0)
      modifies this`dst, this`flushed, this`nMatches, this`nLiterals, this`srcLiteral, lValues, mValues, dValues, literals
      ensures BackEnd()
      ensures ok ==> srcLiteral == old(srcLiteral) + L && Sized(Slack(L)) && Load() <= old(Load()) + Cost(L, L)
      ensures !ok ==> BlockUnchanged() && Sized(0) && DstFull(|dst|, nLiterals, nMatches, dstSize)
    {
      hide Decodes, Stored, Zip;
      var pos := srcLiteral + L;
      ok := BackendMatch(Match(pos, pos - 1, 0));
    }

    /** lzfse_backend_end_of_stream: the last block, then the end-of-stream magic. */
    method BackendEndOfStream() returns (ok: bool)
      requires BackEnd() && Sized(3)
      modifies this`dst, this`flushed, this`nMatches, this`nLiterals, dValues, literals
      ensures ok ==>
          |dst| <= dstSize && DecodeStream(dst, 0, []) == Outcome(buf[..base + srcLiteral], EndOfStream(|dst|))
      ensures ok && base + srcLiteral > 0 ==> StartsCompressed(dst)
      ensures !ok ==> BackEnd() && dstSize < StreamBound(base + srcLiteral)
      ensures if ok then |dst| <= old(Load()) + 760 else dstSize < old(Load()) + 760
    {
      hide Decodes, Stored, Zip, DecodeStream, LE;
      LiteralsBound(this);
      AnyBlockFits(|flushed|, base + srcLiteral, nLiterals, nMatches, |dst|);
      ok := EncodeMatches();
      if !ok {
        return;
      }
      if |dst| + 4 > dstSize {
        return false;
      }
      ghost var whole := buf[..base + srcLiteral];
      assert literals[..0] == [] && Lmds() == [];
      NothingStored(flushed, whole);
      DecodesEndOfStream(dst, flushed);
      ghost var blocks := dst;
      dst := dst + LE(ENDOFSTREAM_MAGIC, 4);
      assert blocks != [] ==> dst[..4] == blocks[..4];
    }

    ghost predicate HistoryOk()
      reads `base, `srcEncodeI, historyTable
    {
      && historyTable.Length == HASH_VALUES
      && forall h :: 0 <= h < HASH_VALUES ==> LineOk(historyTable[h], buf, base, srcEncodeI)
    }

    /** The pending match is short, starts at or before the search position, and can still be emitted. */
    ghost predicate PendingOk()
      reads this
    {
      pending.length > 0 ==> 4 <= pending.length < GOOD_MATCH && pending.pos <= srcEncodeI && MatchOk(pending)
    }

    /** The literals lag behind the search by a bounded amount, one less while nothing is pending. */
    ghost predicate BacklogOk()
      reads this
    {
      srcEncodeI - srcLiteral <= (if pending.length > 0 then MAX_BACKLOG else MAX_BACKLOG - 1)
    }

    ghost predicate FrontEnd()
      reads this, lValues, mValues, dValues, literals, historyTable
    {
      && BackEnd() && Sized(0) && HistoryOk() && PendingOk() && BacklogOk()
      && 0 <= srcEncodeI && srcLiteral <= srcEnd && base + srcEnd <= |buf|
    }

    /** The position before the current one is the most recent one remembered for its word. */
    ghost predicate LastRemembered()
      requires HistoryOk()
      reads `base, `srcEncodeI, historyTable
    {
      0 <= base && 0 < srcEncodeI && base + srcEncodeI + 3 <= |buf| ==>
        var v := Load4(buf, base + srcEncodeI - 1);
        var h := historyTable[HashX(v)];
        |h.pos| == |h.value| == HASH_WIDTH && h.pos[0] == ToInt32(srcEncodeI - 1) && h.value[0] == v
    }

    /** One byte many times, with all positions in reach of the distance test. */
    ghost predicate LongRun()
      reads `base, `srcEnd
    {
      Uniform(buf) && base == 0 && srcEnd == |buf| && 64 <= |buf| && |buf| + MAX_D_VALUE <= 0x7fff_ffff
    }

    ghost predicate OnRun()
      reads `srcEncodeI, `srcLiteral, `pending, `dst, `nLiterals, `nMatches
    {
      RunPhase(|buf|, srcEncodeI, srcLiteral, pending, Load())
    }

    /** lzfse_encode_init, on fresh memory. */
    constructor (buf: seq<byte>, srcEnd: nat, dstSize: nat)
      requires srcEnd <= |buf|
      ensures this.buf == buf && this.srcEnd == srcEnd && this.dstSize == dstSize && base == srcEncodeI == 0
      ensures FrontEnd() && (LongRun() ==> OnRun())
      ensures fresh(lValues) && fresh(mValues) && fresh(dValues) && fresh(literals) && fresh(historyTable)
    {
      this.buf, this.dstSize, this.srcEnd := buf, dstSize, srcEnd;
      base, srcLiteral, srcEncodeI, srcEncodeEnd := 0, 0, 0, 0;
      dst, flushed, pending := [], [], NO_MATCH;
      nMatches, nLiterals := 0, 0;
      lValues := new nat[MATCHES_PER_BLOCK];
      mValues := new nat[MATCHES_PER_BLOCK];
      dValues := new nat[MATCHES_PER_BLOCK];
      literals := new byte[LITERALS_PER_BLOCK];
      var line := HistorySet([INVALID_POS, INVALID_POS, INVALID_POS, INVALID_POS], [0, 0, 0, 0]);
      historyTable := new HistorySet[HASH_VALUES](_ => line);
      new;
      InitialState(this);
    }

    /** The number of bytes, at least 4, by which a candidate agrees with the current position. */
    method ForwardLength(ref: int, pos: nat) returns (length: nat)
      requires 0 <= base + ref && ref < pos && pos + 8 < srcEnd && base + srcEnd <= |buf|
      requires SameBytes(buf, base + ref, base + pos, 4)
      ensures length >= 4 && pos + length <= srcEnd && SameBytes(buf, base + ref, base + pos, length)
      ensures pos + length < srcEnd - 8 ==> !SameBytes(buf, base + ref, base + pos, length + 1)
    {
      hide SameBytes;
      length := 4;
      var maxLength := srcEnd - pos - 8;
      while length < maxLength
        invariant 4 <= length && pos + length <= srcEnd
        invariant SameBytes(buf, base + ref, base + pos, length)
        decreases maxLength - length
      {
        var n := NMatch8(buf, base + pos + length, base + ref + length);
        SameBytesExtend(buf, base + ref, base + pos, length, n);
        length := length + n;
        if n < 8 {
          DifferBehind(buf, base + ref, base + pos, length, length + 1);
          break;
        }
      }
    }

    /** An entry of the history that the search considers. */
    predicate Candidate(h: HistorySet, x: nat, k: nat)
      requires k < |h.pos| == |h.value|
      reads `srcEncodeI
    {
      h.value[k] == x && !TooFar(h.pos[k], srcEncodeI)
    }

    /** The source does not agree with what follows position ref for longer than m does. */
    ghost predicate Beats(m: Match, ref: int)
      reads `srcEncodeI, `base, `srcEnd
    {
      && m.length > 0 && 0 <= base + ref && 0 <= base + srcEncodeI
      && (srcEncodeI + m.length < srcEnd - 8 ==> !SameBytes(buf, base + ref, base + srcEncodeI, m.length + 1))
    }

    /** None of the first n entries of the history that start with x and are near enough would be longer. */
    ghost predicate Longest(h: HistorySet, x: nat, m: Match, n: nat)
      requires n <= |h.pos| == |h.value|
      reads `srcEncodeI, `base, `srcEnd
    {
      forall k :: 0 <= k < n && Candidate(h, x, k) ==> Beats(m, h.pos[k])
    }

    /** The longest of the candidates that start with the word x; its length is 0 when there is none. */
    method Search(h: HistorySet, x: nat) returns (incoming: Match)
      requires LineOk(h, buf, base, srcEncodeI) && srcLiteral <= srcEncodeI && 0 <= base + srcLiteral && 0 <= srcEncodeI
      requires srcEncodeI + 8 < srcEnd && base + srcEnd <= |buf| && x == Load4(buf, base + srcEncodeI)
      ensures incoming.pos == srcEncodeI
      ensures incoming.length > 0 ==> incoming.length >= 4 && MatchOk(incoming)
      ensures |h.pos| == |h.value| == HASH_WIDTH && Longest(h, x, incoming, HASH_WIDTH)
    {
      hide SameBytes, Load4;
      var pos := srcEncodeI;
      incoming := Match(pos, 0, 0);
      for k := 0 to HASH_WIDTH
        invariant incoming.pos == pos && (incoming.length > 0 ==> incoming.length >= 4 && MatchOk(incoming))
        invariant Longest(h, x, incoming, k)
      {
        if h.value[k] != x {
          continue;
        }
        var ref := h.pos[k];
        if TooFar(ref, pos) {
          continue;
        }
        CandidateMatches(buf, base, ref, x, pos);
        var length := ForwardLength(ref, pos);
        if length > incoming.length {
          StillLongest(this, h, x, incoming, Match(pos, ref, length), k);
          incoming := Match(pos, ref, length);
        } else {
          StillBeats(this, Match(pos, ref, length), incoming, ref);
        }
      }
    }

    /** Moves the start of a match back over literals that also match. */
    method ExpandBackwards(m: Match) returns (r: Match)
      requires MatchOk(m)
      ensures MatchOk(r) && r.pos <= m.pos && r.pos + r.length == m.pos + m.length && r.pos - r.ref == m.pos - m.ref
      ensures r.pos == srcLiteral || r.ref <= 0 || buf[base + r.ref - 1] != buf[base + r.pos - 1]
    {
      hide SameBytes;
      var pos, ref := m.pos, m.ref;
      while pos > srcLiteral && ref > 0 && buf[base + ref - 1] == buf[base + pos - 1]
        invariant srcLiteral <= pos <= m.pos && ref == pos - (m.pos - m.ref) && 0 <= base + ref
        invariant SameBytes(buf, base + ref, base + pos, m.length + m.pos - pos)
      {
        SameBytesBack(buf, base + ref, base + pos, m.length + m.pos - pos);
        pos, ref := pos - 1, ref - 1;
      }
      r := Match(pos, ref, m.length + m.pos - pos);
    }

    /** What one position adds to the load: nothing, or the cost of one match with the literals in front of it. */
    twostate predicate Spent()
      reads `srcEncodeI, `srcLiteral, `dst, `nLiterals, `nMatches
    {
      && old(srcLiteral) <= srcEncodeI && old(srcLiteral) <= srcLiteral
      && if srcLiteral == old(srcLiteral) then Load() <= old(Load())
         else Load() <= old(Load()) + Cost(srcEncodeI - old(srcLiteral), srcLiteral - old(srcLiteral))
    }

    /** Nothing more was collected, for lack of room. */
    ghost predicate Stopped(srcLiteral0: int)
      reads `srcLiteral, `dst, `nLiterals, `nMatches
    {
      srcLiteral == srcLiteral0 && DstFull(|dst|, nLiterals, nMatches, dstSize)
    }

    /** Collects a match found at or before the search position. */
    method Emit(m: Match) returns (ok: bool)
      requires BackEnd() && Sized(0) && MatchOk(m) && m.pos <= srcEncodeI && srcEncodeI - srcLiteral <= MAX_BACKLOG
      requires 4 <= m.length <= MAX_MATCH_LENGTH + MAX_BACKLOG
      modifies this`dst, this`flushed, this`nMatches, this`nLiterals, this`srcLiteral, lValues, mValues, dValues, literals
      ensures BackEnd() && Sized(0) && Spent()
      ensures if ok then srcLiteral == End(m) else Stopped(old(srcLiteral))
    {
      hide BackEnd, MatchAt, DstFull, Lmds, Sized, Cost, LoadOf;
      BackEndBounds(this);
      MatchOkBounds(this, m);
      CostMonotone(m.pos - srcLiteral, srcEncodeI - srcLiteral, End(m) - srcLiteral);
      ok := BackendMatch(m);
    }

    /** No match here: when the literals lag too far behind, emits the pending match or MAX_L_VALUE literals. */
    method CatchUp() returns (ok: bool)
      requires FrontEnd() && srcLiteral <= srcEncodeI < srcEnd
      modifies this, lValues, mValues, dValues, literals
      ensures BackEnd() && Sized(0) && PendingOk() && unchanged(`base, `srcEnd, `srcEncodeI, `srcEncodeEnd)
      ensures Spent() && if ok then Advanced() else Stopped(old(srcLiteral))
      ensures ok ==> CaughtUp(old(pending), srcEncodeI, old(srcLiteral), pending, srcLiteral)
    {
      hide BackEnd, HistoryOk, MatchAt, DstFull, Lmds, Sized, Cost, LoadOf;
      BackEndBounds(this);
      ok := true;
      if srcEncodeI - srcLiteral > 8 * MAX_L_VALUE {
        if pending.length > 0 {
          MatchOkBounds(this, pending);
          ok := Emit(pending);
          if ok {
            pending := NO_MATCH;
          }
        } else {
          CostMonotone(MAX_L_VALUE, srcEncodeI - srcLiteral, MAX_L_VALUE);
          ok := BackendLiterals(MAX_L_VALUE);
        }
      }
    }

    /** What one position leaves behind for the next. */
    ghost predicate Advanced()
      reads this
    {
      && srcLiteral <= srcEnd
      && srcEncodeI + 1 - srcLiteral <= (if pending.length > 0 then MAX_BACKLOG else MAX_BACKLOG - 1)
    }

    /** The match filter: emits the incoming match, the pending one, or keeps the incoming one. */
    method Filter(incoming: Match) returns (ok: bool)
      requires FrontEnd() && srcLiteral <= srcEncodeI < srcEnd
      requires MatchOk(incoming) && incoming.length >= 4 && incoming.pos <= srcEncodeI < incoming.pos + incoming.length
      requires incoming.length <= MAX_MATCH_LENGTH + srcEncodeI - incoming.pos
      modifies this, lValues, mValues, dValues, literals
      ensures BackEnd() && Sized(0) && PendingOk() && unchanged(`base, `srcEnd, `srcEncodeI, `srcEncodeEnd)
      ensures Spent() && if ok then Advanced() else Stopped(old(srcLiteral))
      ensures ok ==> Decided(old(pending), incoming, old(srcLiteral), pending, srcLiteral)
    {
      hide BackEnd, HistoryOk, MatchAt, DstFull, Lmds, Sized, Cost, LoadOf;
      BackEndBounds(this);
      MatchOkBounds(this, incoming);
      if incoming.length >= GOOD_MATCH {
        ok := Emit(incoming);
        if ok {
          pending := NO_MATCH;
        }
        return;
      }
      if pending.length == 0 {
        pending := incoming;
        return true;
      }
      MatchOkBounds(this, pending);
      if pending.pos + pending.length <= incoming.pos {
        ghost var lit := srcLiteral;
        ok := Emit(pending);
        if ok {
          MatchAtLater(buf, base, srcEnd, lit, incoming, srcLiteral);
          pending := incoming;
        }
        return;
      }
      if incoming.length > pending.length {
        ok := Emit(incoming);
      } else {
        ok := Emit(pending);
      }
      if ok {
        pending := NO_MATCH;
      }
    }

    /** The match found, cut to MAX_MATCH_LENGTH and then moved back as far as the bytes before it agree. */
    ghost predicate Widened(found: Match, m: Match, srcLiteral: int)
      reads `base
    {
      && srcLiteral <= m.pos <= found.pos && m.pos - m.ref == found.pos - found.ref
      && End(m) == found.pos + Shorter(found.length, MAX_MATCH_LENGTH)
      && (m.pos > srcLiteral && 0 < m.ref < m.pos && 0 < base + m.ref && base + m.pos <= |buf|
          ==> buf[base + m.ref - 1] != buf[base + m.pos - 1])
    }

    /**
     * One position of the search, without the update of the history: `found` is the longest of the candidates, and
     * `incoming` what the filter decides about.
     */
    method SearchStep(h: HistorySet, x: nat) returns (ok: bool, ghost found: Match, ghost incoming: Match)
      requires FrontEnd() && srcLiteral <= srcEncodeI && srcEncodeI + 8 < srcEnd
      requires LineOk(h, buf, base, srcEncodeI) && x == Load4(buf, base + srcEncodeI)
      modifies this, lValues, mValues, dValues, literals
      ensures BackEnd() && Sized(0) && PendingOk() && unchanged(`base, `srcEnd, `srcEncodeI, `srcEncodeEnd)
      ensures Spent() && if ok then Advanced() else Stopped(old(srcLiteral))
      ensures |h.pos| == |h.value| == HASH_WIDTH && Longest(h, x, found, HASH_WIDTH) && found.pos == srcEncodeI
      ensures found.length > 0 ==> 0 <= base + found.ref < base + found.pos
      ensures found.length > 0 ==> End(incoming) <= srcEnd && Widened(found, incoming, old(srcLiteral))
      ensures ok ==> if found.length == 0 then CaughtUp(old(pending), srcEncodeI, old(srcLiteral), pending, srcLiteral)
                     else Decided(old(pending), incoming, old(srcLiteral), pending, srcLiteral)
    {
      hide BackEnd, HistoryOk, DstFull, Load4, LineOk, SameBytes, Sized, Cost, LoadOf, Decided, CaughtUp, Longest;
      BackEndBounds(this);
      var best := Search(h, x);
      found, incoming := best, best;
      if best.length == 0 {
        ok := CatchUp();
        return;
      }
      if best.length > MAX_MATCH_LENGTH {
        SplitMatchOk(this, best, MAX_MATCH_LENGTH);
        best := best.(length := MAX_MATCH_LENGTH);
      }
      best := ExpandBackwards(best);
      incoming := best;
      ok := Filter(best);
    }

    ghost predicate RunGoesOn(ok: bool)
      reads `srcEncodeI, `srcLiteral, `pending, `dst, `nLiterals, `nMatches
    {
      if ok then RunPhase(|buf|, srcEncodeI + 1, srcLiteral, pending, Load()) else Load() <= 10 + |buf| / 160
    }

    /** One position of the search, on a source that may repeat one byte. */
    method Visit(h: HistorySet, x: nat) returns (ok: bool)
      requires FrontEnd() && srcLiteral <= srcEncodeI && srcEncodeI + 8 < srcEnd
      requires LineOk(h, buf, base, srcEncodeI) && x == Load4(buf, base + srcEncodeI) && h == historyTable[HashX(x)]
      modifies this, lValues, mValues, dValues, literals
      ensures BackEnd() && Sized(0) && PendingOk() && unchanged(`base, `srcEnd, `srcEncodeI, `srcEncodeEnd)
      ensures ok ==> Advanced()
      ensures !ok ==> DstFull(|dst|, nLiterals, nMatches, dstSize)
      ensures old(LongRun() && OnRun() && LastRemembered()) ==> RunGoesOn(ok)
    {
      hide BackEnd, DstFull, Load4, LineOk, Sized, Decided, CaughtUp, RunPhase, Uniform, Longest, Widened, HistoryOk,
        HashX, PendingOk, LoadOf, Cost;
      ghost var run := LongRun() && OnRun() && HistoryOk() && LastRemembered();
      ghost var lit, p, load := srcLiteral, pending, Load();
      ghost var found, incoming;
      BackEndBounds(this);
      ok, found, incoming := SearchStep(h, x);
      if run {
        RunVisited(this, h, x, ok, found, incoming, lit, p, load);
      }
    }

    /** Stores the new line of the history, and goes on to the next position. */
    method Remember(line: nat, newH: HistorySet)
      requires HistoryOk() && 0 <= base && 0 <= srcEncodeI && base + srcEncodeI + 4 <= |buf| && line < HASH_VALUES
      requires LineOk(historyTable[line], buf, base, srcEncodeI)
      requires |historyTable[line].pos| == |historyTable[line].value| == HASH_WIDTH
      requires var x := Load4(buf, base + srcEncodeI);
               line == HashX(x) && newH == NewLine(historyTable[line], srcEncodeI, x)
      modifies this`srcEncodeI, historyTable
      ensures HistoryOk() && LastRemembered() && srcEncodeI == old(srcEncodeI) + 1
    {
      hide Load4, LineOk, HashX;
      NewLineOk(historyTable[line], buf, base, srcEncodeI);
      LinesLater(buf, base, srcEncodeI);
      historyTable[line] := newH;
      srcEncodeI := srcEncodeI + 1;
    }

    /**
     * lzfse_encode_base: visits every position up to 8 bytes before the end of the source. A source that repeats one
     * byte becomes few triples.
     */
    method EncodeBase() returns (ok: bool)
      requires FrontEnd()
      modifies this, lValues, mValues, dValues, literals, historyTable
      ensures unchanged(`base, `srcEnd)
      ensures if ok then FrontEnd() && srcEncodeI == if old(srcEncodeI) < srcEnd - 8 then srcEnd - 8 else old(srcEncodeI)
              else BackEnd() && PendingOk() && dstSize < StreamBound(base + srcLiteral)
      ensures old(srcEncodeI == 0 && LongRun() && OnRun()) ==> if ok then OnRun() else dstSize < RunBound(|buf|)
    {
      hide BackEnd, DstFull, Load4, LineOk, MatchAt, RunPhase, LoadOf, NewLine, HashX, LastRemembered, LongRun, Sized;
      ghost var run := srcEncodeI == 0 && LongRun() && OnRun();
      if run {
        NothingRemembered(this);
      }
      srcEncodeEnd := srcEnd - 8;
      ok := true;
      while srcEncodeI < srcEncodeEnd
        invariant FrontEnd() && srcEncodeEnd == srcEnd - 8 && unchanged(`base, `srcEnd)
        invariant srcEncodeI >= old(srcEncodeI) && (srcEncodeI == old(srcEncodeI) || srcEncodeI <= srcEnd - 8)
        invariant run ==> OnRun() && LastRemembered()
      {
        var pos := srcEncodeI;
        var x := Load4(buf, base + pos);
        var line := HashX(x);
        var h := historyTable[line];
        LineShape(h, buf, base, pos);
        var newH := NewLine(h, pos, x);
        if pos >= srcLiteral {
          ok := Visit(h, x);
          if !ok {
            FullIsSmall(this);
            FullIsLoaded(this);
            return;
          }
        } else if run {
          RunSkip(|buf|, pos, srcLiteral, pending, Load());
        }
        Remember(line, newH);
      }
    }

    /** More of the source becomes available. */
    method ExtendSource(end: int)
      requires FrontEnd() && srcEnd <= end && base + end <= |buf|
      modifies this`srcEnd
      ensures FrontEnd() && srcEnd == end
    {
      hide BackEnd, LineOk, SameBytes;
      srcEnd := end;
    }

    /** lzfse_encode_translate: moves s->src forward; every offset keeps denoting the same byte of the source. */
    method Translate(delta: nat)
      requires FrontEnd() && delta <= srcEncodeI
      modifies this`base, this`srcEnd, this`srcEncodeI, this`srcEncodeEnd, this`srcLiteral, this`pending, historyTable
      ensures FrontEnd() && base == old(base) + delta
      ensures base + srcEnd == old(base + srcEnd) && base + srcEncodeI == old(base + srcEncodeI)
      ensures base + srcLiteral == old(base + srcLiteral)
    {
      hide LineOk, TranslateLine, Decodes, Stored, Zip, MatchAt, Started;
      if delta == 0 {
        return;
      }
      MatchAtTranslates(buf, base, srcEnd, srcLiteral, pending, delta);
      base := base + delta;
      srcEnd := srcEnd - delta;
      srcEncodeI := srcEncodeI - delta;
      srcEncodeEnd := srcEncodeEnd - delta;
      srcLiteral := srcLiteral - delta;
      pending := pending.(pos := pending.pos - delta, ref := pending.ref - delta);
      for i := 0 to HASH_VALUES
        modifies historyTable
        invariant forall h :: 0 <= h < i ==> LineOk(historyTable[h], buf, base, srcEncodeI)
        invariant forall h :: i <= h < HASH_VALUES ==> LineOk(historyTable[h], buf, base - delta, srcEncodeI + delta)
      {
        LineTranslates(historyTable[i], buf, base - delta, srcEncodeI + delta, delta);
        historyTable[i] := TranslateLine(historyTable[i], delta);
      }
    }

    /** On a source that repeats one byte: what is left besides the literals up to its end fits into the bound. */
    ghost predicate TailFits()
      reads `srcLiteral, `srcEnd, `dst, `nLiterals, `nMatches
    {
      && srcLiteral <= srcEnd
      && var L := srcEnd - srcLiteral;
         Load() + (if L == 0 then 0 else Cost(L, L)) + 760 < RunBound(|buf|)
    }

    /** Emits the pending match. */
    method EmitPending() returns (ok: bool)
      requires FrontEnd() && srcEncodeI >= srcEnd - 8
      modifies this, lValues, mValues, dValues, literals
      ensures BackEnd() && Sized(0) && unchanged(`base, `srcEnd)
      ensures 0 <= base + srcLiteral && srcLiteral <= srcEnd && base + srcEnd <= |buf|
      ensures ok ==> srcEnd - srcLiteral <= MAX_BACKLOG + 8
      ensures !ok ==> DstFull(|dst|, nLiterals, nMatches, dstSize)
      ensures old(LongRun() && OnRun()) ==> if ok then TailFits() else dstSize < RunBound(|buf|)
    {
      hide BackEnd, HistoryOk, MatchAt, DstFull, Lmds, Uniform, LoadOf, Cost, RunPhase, Sized, RunBound;
      BackEndBounds(this);
      if LongRun() && OnRun() {
        RunFinished(|buf|, srcEncodeI, srcLiteral, pending, Load());
      }
      ok := true;
      if pending.length > 0 {
        MatchOkBounds(this, pending);
        ok := BackendMatch(pending);
        BackEndBounds(this);
        if ok {
          pending := NO_MATCH;
        } else {
          FullIsLoaded(this);
        }
      }
    }

    /** lzfse_encode_finish: when it succeeds, the destination decodes to the whole source. */
    method EncodeFinish() returns (ok: bool)
      requires FrontEnd() && srcEncodeI >= srcEnd - 8
      modifies this, lValues, mValues, dValues, literals
      ensures unchanged(`base)
      ensures ok ==>
          |dst| <= dstSize && DecodeStream(dst, 0, []) == Outcome(buf[..base + old(srcEnd)], EndOfStream(|dst|))
      ensures ok && base + old(srcEnd) > 0 ==> StartsCompressed(dst)
      ensures !ok ==> dstSize < StreamBound(base + old(srcEnd))
      ensures old(LongRun() && OnRun()) ==> if ok then |dst| <= RunBound(|buf|) else dstSize < RunBound(|buf|)
    {
      hide BackEnd, DstFull, Lmds, DecodeStream, StartsCompressed, LoadOf, Cost, RunBound, FrontEnd, LongRun, OnRun;
      ok := EmitPending();
      if !ok {
        FullIsSmall(this);
        return;
      }
      var L := srcEnd - srcLiteral;
      if L > 0 {
        ok := BackendLiterals(L);
        if !ok {
          FullIsSmall(this);
          FullIsLoaded(this);
          return;
        }
      }
      ok := BackendEndOfStream();
    }
  }

  /** The state set up by lzfse_encode_init. */
  lemma InitialState(s: EncoderState)
    requires s.Shape() && s.base == s.srcLiteral == s.srcEncodeI == 0 && 0 <= s.srcEnd <= |s.buf|
    requires s.pending == NO_MATCH
    requires s.dst == s.flushed == [] && s.nMatches == s.nLiterals == 0
    requires var none := HistorySet([INVALID_POS, INVALID_POS, INVALID_POS, INVALID_POS], [0, 0, 0, 0]);
             forall h :: 0 <= h < HASH_VALUES ==> s.historyTable[h] == none
    ensures s.FrontEnd()
  {
    hide Decodes, Stored, Zip, Load4;
    DecodesNothing();
    StoredNothing([]);
    assert s.literals[..0] == [] && s.Lmds() == [] && s.buf[..0] == [];
  }

  lemma BackEndBounds(s: EncoderState)
    requires s.BackEnd()
    ensures s.Shape() && s.nMatches <= MATCHES_PER_BLOCK - 8 && s.nLiterals <= LITERALS_PER_BLOCK - 16
    ensures 0 <= s.base + s.srcLiteral <= |s.buf| && |s.dst| <= s.dstSize
  {
  }

  /** The literals collected are part of what is not emitted yet. */
  lemma LiteralsBound(s: EncoderState)
    requires s.BackEnd()
    ensures |s.flushed| + s.nLiterals <= s.base + s.srcLiteral
  {
    hide Decodes, Stored, Zip;
    StoredLength(s.flushed, s.literals[..s.nLiterals], s.Lmds(), s.buf[..s.base + s.srcLiteral]);
  }

  lemma FullIsSmall(s: EncoderState)
    requires s.BackEnd() && s.Sized(0) && DstFull(|s.dst|, s.nLiterals, s.nMatches, s.dstSize)
    ensures 0 <= s.base + s.srcLiteral && s.dstSize < StreamBound(s.base + s.srcLiteral)
  {
    hide Decodes, Stored, Zip, Started;
    LiteralsBound(s);
    AnyBlockFits(|s.flushed|, s.base + s.srcLiteral, s.nLiterals, s.nMatches, |s.dst|);
  }

  /** While positions are visited on such a source, little has been collected. */
  lemma RunLoad(n: nat, i: nat, srcLiteral: int, pending: Match, load: nat)
    requires RunPhase(n, i, srcLiteral, pending, load) && srcLiteral <= i && i + 8 < n
    ensures load <= 10 + n / 160
  {
  }

  /** What a position makes of a run that goes on. */
  lemma RunVisited(s: EncoderState, h: HistorySet, x: nat, ok: bool, found: Match, incoming: Match,
      srcLiteral: int, pending: Match, load: nat)
    requires s.LongRun() && 0 <= srcLiteral <= s.srcEncodeI && s.srcEncodeI + 8 < s.srcEnd
    requires RunPhase(|s.buf|, s.srcEncodeI, srcLiteral, pending, load)
    requires x == Load4(s.buf, s.srcEncodeI) && |h.pos| == |h.value| == HASH_WIDTH
    requires s.srcEncodeI > 0 && x == Load4(s.buf, s.srcEncodeI - 1) ==>
        h.pos[0] == ToInt32(s.srcEncodeI - 1) && h.value[0] == x
    requires s.Longest(h, x, found, HASH_WIDTH) && found.pos == s.srcEncodeI
    requires found.length > 0 ==>
        0 <= found.ref < found.pos && End(incoming) <= s.srcEnd && s.Widened(found, incoming, srcLiteral)
    requires srcLiteral <= s.srcLiteral <= s.srcEnd && (ok || s.srcLiteral == srcLiteral)
    requires s.Load() <= load + if s.srcLiteral == srcLiteral then 0
                                else Cost(s.srcEncodeI - srcLiteral, s.srcLiteral - srcLiteral)
    requires ok ==> if found.length == 0 then CaughtUp(pending, s.srcEncodeI, srcLiteral, s.pending, s.srcLiteral)
                    else Decided(pending, incoming, srcLiteral, s.pending, s.srcLiteral)
    ensures s.RunGoesOn(ok)
  {
    hide RunPhase, Cost, LoadOf, Decided, CaughtUp, Load4, Uniform;
    RunLoad(|s.buf|, s.srcEncodeI, srcLiteral, pending, load);
    RunFinds(s, h, x, found);
    if ok {
      RunStep(|s.buf|, s.srcEncodeI, srcLiteral, pending, load, found, incoming, s.srcLiteral, s.pending, s.Load());
    }
  }

  /** On such a source the position before is a candidate, and any match comes near the end. */
  lemma RunFinds(s: EncoderState, h: HistorySet, x: nat, found: Match)
    requires s.LongRun() && 0 <= s.srcEncodeI && s.srcEncodeI + 8 < s.srcEnd
    requires x == Load4(s.buf, s.srcEncodeI) && |h.pos| == |h.value| == HASH_WIDTH
    requires s.srcEncodeI > 0 && x == Load4(s.buf, s.srcEncodeI - 1) ==>
        h.pos[0] == ToInt32(s.srcEncodeI - 1) && h.value[0] == x
    requires s.Longest(h, x, found, HASH_WIDTH) && found.pos == s.srcEncodeI
    requires found.length > 0 ==> 0 <= found.ref < found.pos
    ensures found.length == 0 <==> s.srcEncodeI == 0
    ensures found.length > 0 ==> s.srcEncodeI + found.length + 8 >= s.srcEnd
  {
    hide Load4, Uniform, SameBytes;
    var i := s.srcEncodeI;
    UniformWords(s.buf, i);
    if i > 0 {
      UniformWords(s.buf, i - 1);
      assert s.Candidate(h, x, 0);
      assert s.Beats(found, h.pos[0]);
      if i + found.length + 8 < s.srcEnd {
        UniformRepeats(s.buf, i - 1, i, found.length + 1);
      }
    }
  }

  lemma NothingRemembered(s: EncoderState)
    requires s.srcEncodeI == 0 && s.HistoryOk()
    ensures s.LastRemembered()
  {
  }

  lemma FullIsLoaded(s: EncoderState)
    requires DstFull(|s.dst|, s.nLiterals, s.nMatches, s.dstSize)
    ensures s.dstSize < s.Load() + 760
  {
  }

  lemma MatchOkBounds(s: EncoderState, m: Match)
    requires s.MatchOk(m)
    ensures m.pos >= s.srcLiteral && m.pos + m.length <= s.srcEnd && 1 <= m.pos - m.ref <= MAX_D_VALUE
  {
  }

  /** A match that is no shorter beats what the shorter one beats. */
  lemma StillBeats(s: EncoderState, m: Match, m': Match, ref: int)
    requires s.Beats(m, ref) && m.length <= m'.length
    ensures s.Beats(m', ref)
  {
    hide SameBytes;
    var i, j := s.base + ref, s.base + s.srcEncodeI;
    if s.srcEncodeI + m'.length < s.srcEnd - 8 && SameBytes(s.buf, i, j, m'.length + 1) {
      SameBytesWithin(s.buf, i, j, m'.length + 1, 0, m.length + 1);
    }
  }

  lemma StillLongest(s: EncoderState, h: HistorySet, x: nat, m: Match, m': Match, n: nat)
    requires n <= |h.pos| == |h.value| && s.Longest(h, x, m, n) && m.length < m'.length
    ensures s.Longest(h, x, m', n)
  {
    forall k | 0 <= k < n && s.Candidate(h, x, k)
      ensures s.Beats(m', h.pos[k])
    {
      StillBeats(s, m, m', h.pos[k]);
    }
  }

  /** A match can be cut in two. */
  lemma SplitMatchOk(s: EncoderState, m: Match, n: nat)
    requires s.MatchOk(m) && n <= m.length
    ensures s.MatchOk(m.(length := n)) && s.MatchOk(Match(m.pos + n, m.ref + n, m.length - n))
  {
    hide SameBytes;
    SameBytesWithin(s.buf, s.base + m.ref, s.base + m.pos, m.length, 0, n);
    SameBytesWithin(s.buf, s.base + m.ref, s.base + m.pos, m.length, n, m.length - n);
  }

  /** Literals alone are pushed with a distance of 1, which is not used. */
  lemma NoMatchOk(s: EncoderState, L: nat)
    requires 0 <= s.base + s.srcLiteral && L > 0 && s.srcLiteral + L <= s.srcEnd && s.base + s.srcEnd <= |s.buf|
    ensures s.MatchOk(Match(s.srcLiteral + L, s.srcLiteral + L - 1, 0))
  {
  }

  /** Restoring the three counters restores the state: the entries in use never changed. */
  twostate lemma RolledBack(s: EncoderState)
    requires old(s.BackEnd()) && old(allocated(s)) && s.base == old(s.base)
    requires s.BlockExtended() && s.srcLiteral == old(s.srcLiteral)
    requires s.nMatches == old(s.nMatches) && s.nLiterals == old(s.nLiterals)
    ensures s.BackEnd() && s.BlockUnchanged()
  {
    hide Decodes, Stored, Zip;
    assert s.lValues[..s.nMatches] == old(s.lValues[..s.nMatches]) &&
        s.mValues[..s.nMatches] == old(s.mValues[..s.nMatches]);
    assert s.dValues[..s.nMatches] == old(s.dValues[..s.nMatches]) &&
        s.literals[..s.nLiterals] == old(s.literals[..s.nLiterals]);
  }

  lemma ZipSnoc(l: array<nat>, m: array<nat>, d: array<nat>, n: nat)
    requires n < l.Length == m.Length == d.Length
    ensures Zip(l[..n + 1], m[..n + 1], d[..n + 1]) == Zip(l[..n], m[..n], d[..n]) + [LMD(l[n], m[n], d[n])]
  {
  }

  lemma StoredInRange(flushed: seq<byte>, lits: seq<byte>, l: seq<nat>, m: seq<nat>, d: seq<nat>, whole: seq<byte>)
    requires |l| == |m| == |d| && Stored(flushed, lits, Zip(l, m, d), whole)
    ensures forall i :: 0 <= i < |l| ==> l[i] <= MAX_L_VALUE && m[i] <= MAX_M_VALUE && 1 <= d[i] <= MAX_D_VALUE
    ensures forall i :: 0 <= i < |l| ==> DeltaSeq(d, 0)[i] <= MAX_D_VALUE
    ensures forall i :: 0 <= i < |l| ==> InRange(Zip(l, m, d)[i])
  {
    forall i | 0 <= i < |l|
      ensures l[i] <= MAX_L_VALUE && m[i] <= MAX_M_VALUE && 1 <= d[i] <= MAX_D_VALUE
    {
      assert Zip(l, m, d)[i] == LMD(l[i], m[i], d[i]);
    }
    DeltaSeqBound(d, 0, MAX_D_VALUE);
  }

  lemma StoredPadded(flushed: seq<byte>, lits: seq<byte>, lmds: seq<LMD>, whole: seq<byte>, pad: seq<byte>)
    requires Stored(flushed, lits, lmds, whole)
    ensures Expandable(|flushed|, |lits + pad|, lmds) && Expand(flushed, lits + pad, lmds) == whole
  {
    ExpandIgnoresPadding(flushed, lits, lmds, pad);
  }

  lemma StillFull(used: nat, padded: nat, nLiterals: nat, nMatches: nat, dstSize: nat)
    requires used + EncodedBound(padded, nMatches) > dstSize && padded / 4 <= (nLiterals + 3) / 4
    ensures DstFull(used, nLiterals, nMatches, dstSize)
  {
  }
}
