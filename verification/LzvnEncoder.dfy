/** The LZVN encoder: match search, emission under a capacity limit, and the end of stream. */
module LzvnEncoder {
  import opened Bits
  import opened Options
  import opened Lz77
  import opened LzvnFormat
  import opened Matching
  import opened LzvnEmit

  const MAX_DISTANCE := 0xffff
  const MAX_LITERAL_BACKLOG := 400
  const MIN_MARGIN := 8
  const MIN_SRC_SIZE := 8
  const MIN_DST_SIZE := 8
  const HASH_VALUES := 0x4000

  // ----- emission

  /** The number of instructions of at most 271 bytes for n bytes. */
  function Pieces(n: nat): nat {
    (n + 270) / 271
  }

  lemma NoPieces()
    ensures Pieces(0) == 0 && Whole(0)
  {
  }

  predicate Whole(n: nat) {
    n % 271 == 0
  }

  lemma NextPiece(n: nat, x: nat)
    requires Whole(n) && 1 <= x <= 271
    ensures Pieces(n + x) == Pieces(n) + 1 && (x == 271 ==> Whole(n + x))
  {
  }

  /** What L literals take at most when they are emitted in front of a match. */
  function LiteralSize(L: nat): nat {
    L + 2 * Pieces(L) + 1
  }

  /** What a match of M bytes takes at most, of which the first instruction covers at least three. */
  function MatchSize(M: nat): nat {
    3 + 2 * Pieces(M)
  }

  /** emit_literal. q holds the output so far; None when there is no room before q1. */
  method EmitLiteral(src: seq<byte>, p0: nat, q0: seq<byte>, q1: int, L0: nat, ghost out: seq<byte>, ghost d: nat)
    returns (r: Option<seq<byte>>)
    requires p0 + L0 <= |src|
    ensures r.Some? ==> Appends(q0, r.value, out, d, Effect(out + src[p0..p0 + L0], d))
    ensures if r.Some? then |r.value| <= |q0| + 2 * L0 else q1 <= |q0| + 2 * L0 + 10
    ensures r.Some? ==> |r.value| <= |q0| + LiteralSize(L0)
  {
    hide Runs, Pieces, Whole;
    var q, p, L: nat := q0, p0, L0;
    NoPieces();
    AppendsNothing(q0, out, d);
    assert out + src[p0..p0] == out;
    while L > 15
      invariant p + L == p0 + L0 && p0 <= p && |q| <= |q0| + 2 * (p - p0)
      invariant |q| <= |q0| + (p - p0) + 2 * Pieces(p - p0) && (Whole(p - p0) || L == 0)
      invariant Appends(q0, q, out, d, Effect(out + src[p0..p], d))
    {
      var x := if L < 271 then L else 271;
      if |q| + x + 10 >= q1 {
        return None;
      }
      AppendLiteral(src, q0, q, out, d, p0, p, [B(0xE0), B(x - 16)], x);
      NextPiece(p - p0, x);
      q := q + [B(0xE0), B(x - 16)];
      L := L - x;
      q := q + src[p..p + x];
      p := p + x;
    }
    if L > 0 {
      if |q| + L + 10 >= q1 {
        return None;
      }
      AppendLiteral(src, q0, q, out, d, p0, p, [B(0xE0 + L)], L);
      NextPiece(p - p0, L);
      q := q + [B(0xE0 + L)] + src[p..p + L];
    }
    return Some(q);
  }

  /** q extends q0 by code that leads from (out, d) to e. */
  ghost predicate Appends(q0: seq<byte>, q: seq<byte>, out: seq<byte>, d: nat, e: Effect) {
    |q0| <= |q| && q[..|q0|] == q0 && Runs(q[|q0|..], out, d, e)
  }

  lemma AppendsNothing(q0: seq<byte>, out: seq<byte>, d: nat)
    ensures Appends(q0, q0, out, d, Effect(out, d))
  {
    hide Runs;
    RunsNothing(out, d);
    assert q0[|q0|..] == [];
  }

  lemma AppendMore(q0: seq<byte>, q: seq<byte>, out: seq<byte>, d: nat, e: Effect, code: seq<byte>, f: Effect)
    requires Appends(q0, q, out, d, e) && Runs(code, e.out, e.d, f)
    ensures Appends(q0, q + code, out, d, f)
  {
    hide Runs;
    RunsConcat(q[|q0|..], code, out, d, e, f);
    assert (q + code)[|q0|..] == q[|q0|..] + code;
  }

  lemma AppendLiteral(src: seq<byte>, q0: seq<byte>, q: seq<byte>, out: seq<byte>, d: nat, p0: nat, p: nat,
      op: seq<byte>, x: nat)
    requires p0 <= p && p + x <= |src|
    requires Appends(q0, q, out, d, Effect(out + src[p0..p], d))
    requires (1 <= x <= 15 && op == [B(0xE0 + x)]) || (16 <= x <= 271 && op == [B(0xE0), B(x - 16)])
    ensures Appends(q0, q + op + src[p..p + x], out, d, Effect(out + src[p0..p + x], d))
  {
    hide Runs;
    LiteralRuns(op, src[p..p + x], out + src[p0..p], d);
    AppendMore(q0, q, out, d, Effect(out + src[p0..p], d), op + src[p..p + x], Effect(out + src[p0..p] + src[p..p + x], d));
    assert q + (op + src[p..p + x]) == q + op + src[p..p + x];
    assert out + src[p0..p] + src[p..p + x] == out + src[p0..p + x];
  }

  /** First part of emit: literal-only instructions until at most 3 literals are left. */
  method EmitLongLiterals(src: seq<byte>, p0: nat, q0: seq<byte>, q1: int, L0: nat, ghost out: seq<byte>, ghost d: nat)
    returns (full: bool, q: seq<byte>, p: nat, L: nat)
    requires p0 + L0 <= |src|
    ensures if full then q1 <= |q0| + 2 * L0 + 10 else |q| <= |q0| + 2 * (p - p0)
    ensures !full ==> |q| + L <= |q0| + LiteralSize(L0)
    ensures !full ==> L <= 3 && p + L == p0 + L0 && p0 <= p
    ensures !full ==> Appends(q0, q, out, d, Effect(out + src[p0..p], d))
  {
    hide Runs, Pieces, Whole;
    NoPieces();
    q, p, L, full := q0, p0, L0, false;
    AppendsNothing(q0, out, d);
    assert out + src[p0..p0] == out;
    while L > 15
      invariant p + L == p0 + L0 && p0 <= p && |q| <= |q0| + 2 * (p - p0)
      invariant |q| <= |q0| + (p - p0) + 2 * Pieces(p - p0) && (Whole(p - p0) || L == 0)
      invariant Appends(q0, q, out, d, Effect(out + src[p0..p], d))
    {
      var x := if L < 271 then L else 271;
      if |q| + x + 10 >= q1 {
        full := true;
        return;
      }
      AppendLiteral(src, q0, q, out, d, p0, p, [B(0xE0), B(x - 16)], x);
      NextPiece(p - p0, x);
      q := q + [B(0xE0), B(x - 16)];
      L := L - x;
      q := q + src[p..p + x];
      p := p + x;
    }
    if L > 0 {
      NextPiece(p - p0, L);
    }
    if L > 3 {
      if |q| + L + 10 >= q1 {
        full := true;
        return;
      }
      AppendLiteral(src, q0, q, out, d, p0, p, [B(0xE0 + L)], L);
      q := q + [B(0xE0 + L)] + src[p..p + L];
      p := p + L;
      L := 0;
    }
  }

  /** The opcode bytes of the first match instruction, and how much of the match it covers. */
  datatype First = First(op: seq<byte>, m: nat)

  /** The shortest instruction for the distance, and as much of the match as it can cover beside L literals. */
  function FirstOp(L: nat, M0: nat, D: nat, dPrev: nat): (f: First)
    requires L <= 3 && M0 >= 3 && D <= MAX_DISTANCE
    ensures 3 <= f.m <= M0 && |f.op| == if D == dPrev then 1 else if D < 1536 then 2 else 3
    ensures f.m == if M0 <= 10 - 2 * L || (D != dPrev && 1536 <= D < 0x4000 && M0 <= 34) then M0 else 10 - 2 * L
    ensures IsPair(f.op, L, f.m, D, dPrev) || IsMedium(f.op, L, f.m, D)
            || (L == 0 && D == dPrev && f.m <= 15 && f.op == [B(0xF0 + f.m)])
  {
    var m := if M0 <= 10 - 2 * L then M0 else 10 - 2 * L;
    var M := M0 - m;
    var x := m - 3;
    if D == dPrev then
      if L == 0 then First([B(0xF0 + (x + 3))], m) else First([B(L * 64 + x * 8 + 6)], m)
    else if D < 1536 then First([B(D / 256 + L * 64 + x * 8), B(D % 256)], m)
    else if D >= 0x4000 || M == 0 || (x + 3) + M > 34 then First([B(L * 64 + x * 8 + 7), B(D % 256), B(D / 256)], m)
    else
      var x' := x + M;
      var opc23 := D * 4 + x' % 4;
      First([B(0xA0 + x' / 4 + L * 8), B(opc23 % 256), B(opc23 / 256)], m + M)
  }

  /** Last part of emit: match-only instructions for what is left of the match. */
  method EmitRestOfMatch(q0: seq<byte>, q': seq<byte>, q1: int, done0: nat, M0: nat, D: nat,
                         ghost out: seq<byte>, ghost d: nat, ghost whole: seq<byte>)
    returns (r: Option<seq<byte>>)
    requires done0 <= M0 && 1 <= D <= |whole|
    requires Appends(q0, q', out, d, Effect(CopyMatch(whole, D, done0), D))
    ensures r.Some? ==> Appends(q0, r.value, out, d, Effect(CopyMatch(whole, D, M0), D))
    ensures if r.Some? then |r.value| <= |q'| + 2 * (M0 - done0) else q1 <= |q'| + 2 * (M0 - done0) + 10
    ensures r.Some? ==> |r.value| <= |q'| + 2 * Pieces(M0 - done0)
  {
    hide Runs, CopyMatch, Pieces, Whole;
    NoPieces();
    var q, M := q', M0 - done0;
    while M > 15
      invariant 0 <= M <= M0 && |q| <= |q'| + 2 * (M0 - done0 - M)
      invariant |q| <= |q'| + 2 * Pieces(M0 - done0 - M) && (Whole(M0 - done0 - M) || M == 0)
      invariant Appends(q0, q, out, d, Effect(CopyMatch(whole, D, M0 - M), D))
    {
      if |q| + 2 >= q1 {
        return None;
      }
      var x := if M < 271 then M else 271;
      NextPiece(M0 - done0 - M, x);
      AppendMatch(q0, q, out, d, whole, D, M0 - M, x, [B(0xF0), B(x - 16)]);
      q := q + [B(0xF0), B(x - 16)];
      M := M - x;
    }
    if M > 0 {
      if |q| + 1 >= q1 {
        return None;
      }
      NextPiece(M0 - done0 - M, M);
      AppendMatch(q0, q, out, d, whole, D, M0 - M, M, [B(0xF0 + M)]);
      q := q + [B(0xF0 + M)];
    }
    return Some(q);
  }

  /** emit: L literals at p0, then a match of M >= 3 bytes at distance D. */
  method Emit(src: seq<byte>, p0: nat, q0: seq<byte>, q1: int, L0: nat, M: nat, D: nat, dPrev: nat,
      ghost out: seq<byte>)
    returns (r: Option<seq<byte>>)
    requires p0 + L0 <= |src| && M >= 3
    requires 1 <= D <= MAX_DISTANCE && D <= |out| + L0
    ensures r.Some? ==> Appends(q0, r.value, out, dPrev, Effect(CopyMatch(out + src[p0..p0 + L0], D, M), D))
    ensures if r.Some? then |r.value| <= |q0| + 2 * (L0 + M) else q1 <= |q0| + 2 * (L0 + M) + 10
    ensures r.Some? ==> |r.value| <= |q0| + LiteralSize(L0) + MatchSize(M)
  {
    hide Runs, CopyMatch, IsPair, IsMedium, FirstOp;
    var full, q, p, L := EmitLongLiterals(src, p0, q0, q1, L0, out, dPrev);
    if full || |q| + 8 >= q1 {
      return None;
    }
    var first := FirstOp(L, M, D, dPrev);
    EmitFirst(src, q0, q, out, dPrev, p0, p, L, first.op, first.m, D);
    q := q + first.op + src[p..p + L];
    r := EmitRestOfMatch(q0, q, q1, first.m, M, D, out, dPrev, out + src[p0..p0 + L0]);
  }

  /** The instruction that carries the last literals and the start of the match. */
  lemma EmitFirst(src: seq<byte>, q0: seq<byte>, q: seq<byte>, out: seq<byte>, dPrev: nat, p0: nat, p: nat, L: nat,
                  op: seq<byte>, m: nat, D: nat)
    requires p0 <= p && p + L <= |src| && 1 <= D <= |out| + (p - p0) + L
    requires Appends(q0, q, out, dPrev, Effect(out + src[p0..p], dPrev))
    requires IsPair(op, L, m, D, dPrev) || IsMedium(op, L, m, D)
             || (L == 0 && D == dPrev && 1 <= m <= 15 && op == [B(0xF0 + m)])
    ensures Appends(q0, q + op + src[p..p + L], out, dPrev, Effect(CopyMatch(out + src[p0..p + L], D, m), D))
  {
    hide Runs, CopyMatch, IsPair, IsMedium;
    var now, lits := out + src[p0..p], src[p..p + L];
    assert now + lits == out + src[p0..p + L];
    assert q + (op + lits) == q + op + lits;
    var e := Effect(CopyMatch(now + lits, D, m), D);
    if IsPair(op, L, m, D, dPrev) || IsMedium(op, L, m, D) {
      PairRuns(op, lits, m, D, now, dPrev);
    } else {
      assert now + lits == now && op + lits == op;
      MatchRuns(op, m, now, D);
    }
    AppendMore(q0, q, out, dPrev, Effect(now, dPrev), op + lits, e);
  }

  /** Continuing a match with a match-only instruction. */
  lemma AppendMatch(q0: seq<byte>, q: seq<byte>, out: seq<byte>, d: nat, whole: seq<byte>, D: nat, done: nat, y: nat,
      op: seq<byte>)
    requires 1 <= D <= |whole|
    requires Appends(q0, q, out, d, Effect(CopyMatch(whole, D, done), D))
    requires (1 <= y <= 15 && op == [B(0xF0 + y)]) || (16 <= y <= 271 && op == [B(0xF0), B(y - 16)])
    ensures Appends(q0, q + op, out, d, Effect(CopyMatch(whole, D, done + y), D))
  {
    hide Runs, CopyMatch;
    var now := CopyMatch(whole, D, done);
    MatchRuns(op, y, now, D);
    CopyMatchSplit(whole, D, done, done + y);
    AppendMore(q0, q, out, d, Effect(now, D), op, Effect(CopyMatch(now, D, y), D));
  }

  // ----- matching

  /** lzvn_match_info. */
  datatype MatchInfo = MatchInfo(mBegin: nat, mEnd: nat, M: nat, D: nat, K: int)

  const NO_MATCH := MatchInfo(0, 0, 0, 0, 0)

  /** A true repeat of at least 3 bytes within range, starting at or after the first literal not yet emitted. */
  ghost predicate GoodMatch(src: seq<byte>, srcLiteral: nat, m: MatchInfo) {
    && srcLiteral <= m.mBegin && m.mBegin + m.M == m.mEnd <= |src| && m.M >= 3
    && 1 <= m.D <= MAX_DISTANCE && m.D <= m.mBegin
    && SameBytes(src, m.mBegin - m.D, m.mBegin, m.M)
  }

  /** lzvn_find_matchN: n bytes are already known to match; expand forwards, then backwards over literals. */
  method FindMatchN(src: seq<byte>, lBegin: nat, m0: int, m: nat, n0: nat) returns (r: Option<MatchInfo>)
    requires lBegin <= m && m + 4 < |src| && n0 <= 4
    requires 3 <= n0 && 0 < m - m0 <= MAX_DISTANCE ==> m0 >= 0 && SameBytes(src, m0, m, n0)
    ensures r.Some? ==> GoodMatch(src, lBegin, r.value)
    ensures r.Some? == (n0 >= 3 && 0 < m - m0 <= MAX_DISTANCE)
    ensures r.Some? ==> var i := r.value;
                        && i.D == m - m0 && i.K == i.M - (if i.D < 0x600 then 2 else 3) && i.mBegin <= m
                        && m + n0 <= i.mEnd
                        && (i.mBegin == lBegin || i.mBegin == i.D || src[i.mBegin - 1] != src[i.mBegin - i.D - 1])
                        && (if n0 < 4 then i.mEnd == m + n0 else i.mEnd + 4 >= |src| || src[i.mEnd] != src[i.mEnd - i.D])
  {
    hide SameBytes, NMatch4;
    if n0 < 3 {
      return None;
    }
    var D := m - m0;
    if D <= 0 || D > MAX_DISTANCE {
      return None;
    }
    var mEnd := ExpandForwards(src, m0, m, n0);
    var mBegin := ExpandBackwards(src, lBegin, m0, m, mEnd);
    var M := mEnd - mBegin;
    return Some(MatchInfo(mBegin, mEnd, M, D, M - (if D < 0x600 then 2 else 3)));
  }

  /** While whole words match, up to the last 4 bytes of the source. */
  method ExpandForwards(src: seq<byte>, m0: nat, m: nat, n0: nat) returns (mEnd: nat)
    requires m0 < m && m + 4 < |src| && 3 <= n0 <= 4 && SameBytes(src, m0, m, n0)
    ensures m + n0 <= mEnd <= |src| && SameBytes(src, m0, m, mEnd - m)
    ensures if n0 < 4 then mEnd == m + n0 else mEnd + 4 >= |src| || src[mEnd] != src[mEnd - (m - m0)]
  {
    hide SameBytes, NMatch4;
    var n, D := n0, m - m0;
    mEnd := m + n0;
    SameBytesFit(src, m0, m, n0);
    while n == 4 && mEnd + 4 < |src|
      invariant n <= 4 && m + n0 <= mEnd <= |src|
      invariant SameBytes(src, m0, m, mEnd - m)
      invariant n0 < 4 ==> mEnd == m + n0 && n == n0
      invariant n0 == 4 && n < 4 ==> mEnd + 4 >= |src| || src[mEnd] != src[mEnd - D]
      decreases |src| - mEnd, n
    {
      n := NMatch4(src, mEnd, mEnd - D);
      SameBytesExtend(src, m0, m, mEnd - m, n);
      SameBytesFit(src, m0, m, mEnd - m + n);
      mEnd := mEnd + n;
    }
  }

  /** While the bytes in front match too, up to the first literal. */
  method ExpandBackwards(src: seq<byte>, lBegin: nat, m0: nat, m: nat, mEnd: nat) returns (mBegin: nat)
    requires m0 < m && lBegin <= m <= mEnd <= |src| && SameBytes(src, m0, m, mEnd - m)
    ensures lBegin <= mBegin <= m && m - m0 <= mBegin && SameBytes(src, mBegin - (m - m0), mBegin, mEnd - mBegin)
    ensures mBegin == lBegin || mBegin == m - m0 || src[mBegin - 1] != src[mBegin - (m - m0) - 1]
  {
    hide SameBytes;
    var m0Begin: nat := m0;
    mBegin := m;
    while m0Begin > 0 && mBegin > lBegin && src[mBegin - 1] == src[m0Begin - 1]
      invariant lBegin <= mBegin <= m && m0Begin == mBegin - (m - m0)
      invariant SameBytes(src, m0Begin, mBegin, mEnd - mBegin)
    {
      SameBytesBack(src, m0Begin, mBegin, mEnd - mBegin);
      m0Begin := m0Begin - 1;
      mBegin := mBegin - 1;
    }
  }

  /** lzvn_find_match. */
  method FindMatch(src: seq<byte>, lBegin: nat, m0: nat, m: nat) returns (r: Option<MatchInfo>)
    requires lBegin <= m && m + 4 < |src| && m0 < m
    ensures r.Some? ==> GoodMatch(src, lBegin, r.value)
    ensures r.Some? == (NMatch4(src, m, m0) >= 3 && m - m0 <= MAX_DISTANCE)
    ensures r.Some? ==> var i := r.value;
                        && i.D == m - m0 && i.K == i.M - (if i.D < 0x600 then 2 else 3) && i.mBegin <= m
                        && (i.mBegin == lBegin || i.mBegin == i.D || src[i.mBegin - 1] != src[i.mBegin - i.D - 1])
                        && (i.mEnd + 4 >= |src| || src[i.mEnd] != src[i.mEnd - i.D])
  {
    r := FindMatchN(src, lBegin, m0, m, NMatch4(src, m, m0));
  }

  /** Once emitted, a good match yields the source up to its end. */
  lemma GoodMatchCopies(src: seq<byte>, srcLiteral: nat, m: MatchInfo)
    requires GoodMatch(src, srcLiteral, m)
    ensures CopyMatch(src[..srcLiteral] + src[srcLiteral..m.mBegin], m.D, m.M) == src[..m.mEnd]
  {
    assert src[..srcLiteral] + src[srcLiteral..m.mBegin] == src[..m.mBegin];
    RepeatCopies(src, m.mBegin, m.D, m.M);
  }

  // ----- the encoder state

  /** offset_to_s32: positions are kept in signed 32-bit words. */
  function ToS32(x: nat): int
    requires x < 0x1_0000_0000
  {
    if x < 0x8000_0000 then x else x - 0x1_0000_0000
  }

  function Unwrap(x: int): int {
    if x < 0 then x + 0x1_0000_0000 else x
  }

  /** hash3i. */
  function Hash3i(v: nat): (h: nat)
    ensures h < HASH_VALUES
  {
    v % 0x100_0000 * 4161 % 0x1_0000_0000 / 0x1000 % HASH_VALUES
  }

  /** Four remembered positions with the words found there, most recent first. */
  datatype Entry = Entry(indices: seq<int>, values: seq<nat>)

  /** Each remembered word is the source word at the remembered position, at or before the current one. */
  ghost predicate EntryOk(e: Entry, src: seq<byte>, current: nat) {
    && |e.indices| == |e.values| == 4
    && forall k :: 0 <= k < 4 ==> SlotOk(e.indices[k], e.values[k], src, current)
  }

  ghost predicate SlotOk(index: int, value: nat, src: seq<byte>, current: nat) {
    && -0x8000_0000 <= index < 0x8000_0000
    && var i := Unwrap(index);
       0 <= i <= current && i + 4 <= |src| && value == Load4(src, i)
  }

  /** A remembered position yields a candidate; positions beyond 2 GB look too far away. */
  lemma CandidateMatches(src: seq<byte>, index: int, value: nat, current: nat)
    requires SlotOk(index, value, src, current) && current + 4 <= |src| && |src| < 0x1_0000_0000
    ensures var n := CommonLow(Load4(src, current), value, 4);
            0 < current - index <= MAX_DISTANCE ==>
              index >= 0 && SameBytes(src, index, current, n) && (n < 4 ==> src[index + n] != src[current + n])
  {
    hide SameBytes, CommonLow, FromLE;
    if index >= 0 {
      CommonWordsMatch(src, current, index, 4);
    }
  }

  /** The match does not go on, or comes near the end of the source. */
  ghost predicate Maximal(src: seq<byte>, m: MatchInfo) {
    m.mEnd + 4 >= |src| || (m.D <= m.mEnd && src[m.mEnd] != src[m.mEnd - m.D])
  }

  // ----- a source that repeats one byte

  lemma SameWordInCommon(v: nat)
    ensures CommonLow(v, v, 4) == 4
  {
    assert CommonLow(v / 256 / 256, v / 256 / 256, 2) == 2;
  }

  /**
   * A source of n times one byte, before position `current`: a match that comes near the end is found at position 1,
   * found again at position 2, and goes out then.
   */
  ghost predicate RunPhase(n: nat, current: nat, srcLiteral: nat, pending: MatchInfo, used: nat) {
    if current <= 1 then srcLiteral == 0 && pending == NO_MATCH && used == 0
    else if current == 2 then srcLiteral == 0 && used == 0 && pending.M != 0 && pending.mEnd + 4 >= n
    else RunEncoded(n, srcLiteral, used) && pending == NO_MATCH
  }

  ghost predicate RunEncoded(n: nat, srcLiteral: nat, used: nat) {
    srcLiteral + 4 >= n && used <= LiteralSize(2) + MatchSize(n)
  }

  lemma RunStep(n: nat, current: nat, srcLiteral: nat, pending: MatchInfo, used: nat, incoming: MatchInfo,
      srcLiteral': nat, pending': MatchInfo, used': nat)
    requires n >= 32 && current + MIN_MARGIN < n && RunPhase(n, current, srcLiteral, pending, used) && srcLiteral <= current
    requires Decided(pending, incoming, current, srcLiteral, pending', srcLiteral')
    requires current <= 2 ==> (current > 0 <==> incoming.M != 0)
    requires incoming.M != 0 ==> incoming.mEnd + 4 >= n && incoming.mBegin <= current
    requires used' <= used + LiteralSize(current - srcLiteral) + MatchSize(n)
    requires srcLiteral' == srcLiteral ==> used' == used
    ensures RunPhase(n, current + 1, srcLiteral', pending', used')
  {
  }

  lemma RunSkip(n: nat, current: nat, srcLiteral: nat, pending: MatchInfo, used: nat)
    requires RunPhase(n, current, srcLiteral, pending, used) && current < srcLiteral
    ensures RunPhase(n, current + 1, srcLiteral, pending, used)
  {
  }

  lemma RunEnds(n: nat, current: nat, srcLiteral: nat, pending: MatchInfo, used: nat)
    requires RunPhase(n, current, srcLiteral, pending, used) && current + MIN_MARGIN >= n >= 32
    ensures RunEncoded(n, srcLiteral, used)
  {
  }

  lemma SizesMonotone(L: nat, L': nat, M: nat, M': nat)
    requires L <= L' && M <= M'
    ensures LiteralSize(L) <= LiteralSize(L') && MatchSize(M) <= MatchSize(M')
  {
  }

  /** UPDATE: keep the candidate with the better gain. */
  function Better(best: MatchInfo, candidate: MatchInfo): MatchInfo {
    if candidate.K > best.K || (candidate.K == best.K && candidate.mEnd > best.mEnd + 1) then candidate else best
  }

  /**
   * What becomes of a pending and an incoming match. Without an incoming one, a backlog of literals sends out the
   * pending match or a piece of literals. Two that do not overlap go out in order; of two that overlap the one with
   * the larger gain does.
   */
  ghost predicate Decided(pending: MatchInfo, incoming: MatchInfo, current: nat, srcLiteral: nat,
      pending': MatchInfo, srcLiteral': nat) {
    if incoming.M == 0 then
      if current - srcLiteral < MAX_LITERAL_BACKLOG then pending' == pending && srcLiteral' == srcLiteral
      else if pending.M != 0 then pending' == NO_MATCH && srcLiteral' == pending.mEnd
      else pending' == pending && srcLiteral' == srcLiteral + 271
    else if pending.M == 0 then pending' == incoming && srcLiteral' == srcLiteral
    else if pending.mEnd <= incoming.mBegin then pending' == incoming && srcLiteral' == pending.mEnd
    else pending' == NO_MATCH && srcLiteral' == (if incoming.K > pending.K then incoming.mEnd else pending.mEnd)
  }

  class EncoderState {
    const src: seq<byte>
    // next byte to process, and next byte to encode, which may be ahead
    var srcCurrent: nat
    var srcCurrentEnd: int
    var srcLiteral: nat
    var dst: seq<byte>
    // capacity of the destination
    var dstEnd: int
    var pending: MatchInfo
    var dPrev: nat
    const table: array<Entry>

    /** Running the code emitted so far yields the source up to the next literal, with d_prev as the distance. */
    ghost predicate Emitted()
      reads this
    {
      && |dst| <= 2 * srcLiteral && |dst| <= dstEnd
      && srcLiteral <= |src| && Runs(dst, [], 0, Effect(src[..srcLiteral], dPrev))
    }

    ghost predicate TableOk()
      reads this, table
    {
      table.Length == HASH_VALUES && forall h :: 0 <= h < table.Length ==> EntryOk(table[h], src, srcCurrent)
    }

    ghost predicate Valid()
      reads this, table
    {
      && |src| < 0x1_0000_0000
      && Emitted() && dPrev <= srcLiteral && dPrev <= MAX_DISTANCE
      && (pending.M != 0 ==> GoodMatch(src, srcLiteral, pending) && pending.mBegin <= srcCurrent)
      && TableOk()
    }

    /** The destination may have no room for what is left of the source. */
    ghost predicate Full()
      reads this
    {
      dstEnd <= |dst| + 2 * (|src| - srcLiteral) + 10
    }

    /** The position before the current one is the most recent one remembered for its word. */
    ghost predicate LastRemembered()
      requires TableOk()
      reads this, table
    {
      0 < srcCurrent && srcCurrent + 3 <= |src| < 0x1_0000_0000 ==>
        var v := Load4(src, srcCurrent - 1);
        table[Hash3i(v)].indices[0] == ToS32(srcCurrent - 1) && table[Hash3i(v)].values[0] == v
    }

    /** One byte many times, and room for the worst case. */
    ghost predicate LongRun()
      reads this
    {
      Uniform(src) && |src| >= 32 && dstEnd > 2 * |src| + 10 && srcCurrentEnd == |src| - MIN_MARGIN
    }

    ghost predicate OnRun()
      reads this
    {
      RunPhase(|src|, srcCurrent, srcLiteral, pending, |dst|)
    }

    constructor (src: seq<byte>, dstEnd: int, table: array<Entry>)
      requires dstEnd >= 0
      ensures this.src == src && this.table == table
      ensures srcCurrent == srcLiteral == dPrev == 0 && dst == [] && this.dstEnd == dstEnd && pending == NO_MATCH
      ensures srcCurrentEnd == |src| - MIN_MARGIN
      ensures Emitted()
    {
      this.src := src;
      this.table := table;
      srcCurrent, srcLiteral, dPrev := 0, 0, 0;
      srcCurrentEnd := |src| - MIN_MARGIN;
      dst, this.dstEnd, pending := [], dstEnd, NO_MATCH;
      RunsNothing([], 0);
    }

    /** lzvn_init_table: every slot remembers position 0. */
    method InitTable()
      requires 4 <= |src| < 0x1_0000_0000 && table.Length == HASH_VALUES
      modifies table
      ensures TableOk()
    {
      var value := Load4(src, 0);
      var e := Entry([0, 0, 0, 0], [value, value, value, value]);
      for u := 0 to HASH_VALUES
        invariant forall h :: 0 <= h < u ==> table[h] == e
      {
        table[u] := e;
      }
    }

    /** lzvn_emit_match. */
    method EmitMatch(m: MatchInfo) returns (ok: bool)
      requires Emitted() && GoodMatch(src, srcLiteral, m)
      modifies this
      ensures !ok ==> unchanged(this) && Full()
      ensures ok ==> Emitted() && dPrev == m.D && srcLiteral == m.mEnd
      ensures ok ==> |dst| <= old(|dst|) + LiteralSize(m.mBegin - old(srcLiteral)) + MatchSize(m.M)
      ensures unchanged(`srcCurrent, `srcCurrentEnd, `pending, `dstEnd)
    {
      hide Runs, SameBytes, CopyMatch;
      var r := Emit(src, srcLiteral, dst, dstEnd, m.mBegin - srcLiteral, m.M, m.D, dPrev, src[..srcLiteral]);
      if r.None? || |r.value| >= dstEnd {
        return false;
      }
      GoodMatchCopies(src, srcLiteral, m);
      AppendsToRuns(dst, r.value, [], 0, Effect(src[..srcLiteral], dPrev), Effect(src[..m.mEnd], m.D));
      dPrev := m.D;
      dst := r.value;
      srcLiteral := m.mEnd;
      ok := true;
    }

    /** lzvn_emit_literal. */
    method EmitLiterals(n: nat) returns (ok: bool)
      requires Emitted() && srcLiteral + n <= |src|
      modifies this
      ensures !ok ==> unchanged(this) && dstEnd <= |dst| + 2 * n + 10
      ensures ok ==> Emitted() && srcLiteral == old(srcLiteral) + n && |dst| <= old(|dst|) + LiteralSize(n)
      ensures unchanged(`srcCurrent, `srcCurrentEnd, `pending, `dstEnd, `dPrev)
    {
      hide Runs;
      var r := EmitLiteral(src, srcLiteral, dst, dstEnd, n, src[..srcLiteral], dPrev);
      if r.None? || |r.value| >= dstEnd {
        return false;
      }
      assert src[..srcLiteral] + src[srcLiteral..srcLiteral + n] == src[..srcLiteral + n];
      AppendsToRuns(dst, r.value, [], 0, Effect(src[..srcLiteral], dPrev), Effect(src[..srcLiteral + n], dPrev));
      dst := r.value;
      srcLiteral := srcLiteral + n;
      ok := true;
    }

    /** The best of the four remembered candidates and the previous distance. */
    method BestCandidate(e: Entry, vi: nat) returns (incoming: MatchInfo)
      requires Valid() && srcLiteral <= srcCurrent && srcCurrent + MIN_MARGIN < |src|
      requires EntryOk(e, src, srcCurrent) && vi == Load4(src, srcCurrent)
      ensures incoming.M != 0 ==>
          GoodMatch(src, srcLiteral, incoming) && incoming.mBegin <= srcCurrent && Maximal(src, incoming)
      ensures forall k :: 0 <= k < 4 && CommonLow(vi, e.values[k], 4) >= 3 && 0 < srcCurrent - e.indices[k] <= MAX_DISTANCE ==>
                incoming.M != 0 && incoming.K >= CommonLow(vi, e.values[k], 4) - 3
    {
      hide Runs, SameBytes, CommonLow, Load4;
      incoming := NO_MATCH;
      for k := 0 to 4
        invariant if incoming.M != 0 then GoodMatch(src, srcLiteral, incoming) && incoming.K >= 0 else incoming == NO_MATCH
        invariant incoming.M != 0 ==> incoming.mBegin <= srcCurrent && Maximal(src, incoming)
        invariant forall j :: 0 <= j < k && CommonLow(vi, e.values[j], 4) >= 3 && 0 < srcCurrent - e.indices[j] <= MAX_DISTANCE ==>
                    incoming.M != 0 && incoming.K >= CommonLow(vi, e.values[j], 4) - 3
      {
        CandidateMatches(src, e.indices[k], e.values[k], srcCurrent);
        var m1 := FindMatchN(src, srcLiteral, e.indices[k], srcCurrent, CommonLow(vi, e.values[k], 4));
        if m1.Some? {
          incoming := Better(incoming, m1.value);
        }
      }
      if dPrev != 0 {
        var m1 := FindMatch(src, srcLiteral, srcCurrent - dPrev, srcCurrent);
        if m1.Some? {
          incoming := Better(incoming, m1.value.(K := m1.value.M - 1));
        }
      }
    }

    /** The decision taken at one position: emit, keep pending, or do nothing. False when the destination is full. */
    method Step(incoming: MatchInfo) returns (ok: bool)
      requires Valid() && srcLiteral <= srcCurrent < |src|
      requires incoming.M != 0 ==> GoodMatch(src, srcLiteral, incoming) && incoming.mBegin <= srcCurrent
      modifies this
      ensures Valid() && unchanged(`srcCurrent, `srcCurrentEnd, `dstEnd)
      ensures if ok then |dst| <= old(|dst|) + LiteralSize(srcCurrent - old(srcLiteral)) + MatchSize(|src|) else Full()
      ensures ok && srcLiteral == old(srcLiteral) ==> dst == old(dst)
      ensures ok ==> Decided(old(pending), incoming, srcCurrent, old(srcLiteral), pending, srcLiteral)
    {
      hide Runs, SameBytes, EntryOk, LiteralSize, MatchSize;
      ok := true;
      var before := srcLiteral;
      SizesMonotone(271, if srcCurrent - before > 271 then srcCurrent - before else 271, 0, |src|);
      if pending.M != 0 {
        SizesMonotone(pending.mBegin - before, srcCurrent - before, pending.M, |src|);
      }
      if incoming.M != 0 {
        SizesMonotone(incoming.mBegin - before, srcCurrent - before, incoming.M, |src|);
      }
      if incoming.M == 0 {
        if srcCurrent - srcLiteral >= MAX_LITERAL_BACKLOG {
          if pending.M != 0 {
            ok := EmitMatch(pending);
            if ok {
              pending := NO_MATCH;
            }
          } else {
            ok := EmitLiterals(271);
          }
        }
      } else if pending.M == 0 {
        pending := incoming;
      } else if pending.mEnd <= incoming.mBegin {
        ok := EmitMatch(pending);
        if ok {
          pending := incoming;
        }
      } else {
        if incoming.K > pending.K {
          pending := incoming;
        }
        ok := EmitMatch(pending);
        if ok {
          pending := NO_MATCH;
        }
      }
    }

    /** One position of the search, without the update of the table. */
    method Visit(e: Entry, vi: nat) returns (ok: bool)
      requires Valid() && LastRemembered() && srcLiteral <= srcCurrent && srcCurrent + MIN_MARGIN < |src|
      requires vi == Load4(src, srcCurrent) && e == table[Hash3i(vi)] && EntryOk(e, src, srcCurrent)
      modifies this
      ensures Valid() && unchanged(`srcCurrent, `srcCurrentEnd, `dstEnd) && (ok || Full())
      ensures ok && old(OnRun() && LongRun()) ==> RunPhase(|src|, srcCurrent + 1, srcLiteral, pending, |dst|)
    {
      hide Runs, SameBytes, SlotOk, FromLE, Hash3i, ToS32, Load4, RunPhase, Decided, GoodMatch, LiteralSize, MatchSize,
        CommonLow, Maximal, LastRemembered;
      var incoming := BestCandidate(e, vi);
      ghost var run := OnRun() && LongRun();
      if run {
        RunCandidate(this, e, vi, incoming);
      }
      ok := Step(incoming);
      if run && ok {
        RunStep(|src|, srcCurrent, old(srcLiteral), old(pending), old(|dst|), incoming, srcLiteral, pending, |dst|);
      }
    }

    /**
     * lzvn_encode: visits every position, and stops early only when the destination is full. With room for the worst
     * case, a source that repeats one byte becomes one match.
     */
    method Encode()
      requires Valid() && srcCurrentEnd <= |src| - MIN_MARGIN && srcCurrent == 0
      modifies this, table
      ensures Valid() && dstEnd == old(dstEnd) && (srcCurrent >= old(srcCurrentEnd) || Full())
      ensures old(OnRun() && LongRun()) ==> RunEncoded(|src|, srcLiteral, |dst|)
    {
      hide Runs, SameBytes, SlotOk, FromLE, Hash3i, ToS32, Load4, RunPhase, Decided, GoodMatch, LiteralSize, MatchSize;
      ghost var run := OnRun() && LongRun();
      while srcCurrent < srcCurrentEnd
        invariant Valid() && srcCurrentEnd == old(srcCurrentEnd) && dstEnd == old(dstEnd)
        invariant LastRemembered() && (run ==> OnRun())
        decreases srcCurrentEnd - srcCurrent
      {
        var vi := Load4(src, srcCurrent);
        var h := Hash3i(vi);
        var e := table[h];
        var updated := Entry([ToS32(srcCurrent), e.indices[0], e.indices[1], e.indices[2]],
                             [vi, e.values[0], e.values[1], e.values[2]]);
        NewSlot(src, srcCurrent);
        if srcCurrent >= srcLiteral {
          var ok := Visit(e, vi);
          if !ok {
            return;
          }
        } else if run {
          RunSkip(|src|, srcCurrent, srcLiteral, pending, |dst|);
        }
        table[h] := updated;
        srcCurrent := srcCurrent + 1;
        LaterSlots(src, srcCurrent - 1);
      }
      if run {
        RunEnds(|src|, srcCurrent, srcLiteral, pending, |dst|);
      }
    }
  }

  /** On a source that repeats one byte, the position before is a candidate, and any match comes near the end. */
  lemma RunCandidate(s: EncoderState, e: Entry, vi: nat, incoming: MatchInfo)
    requires Uniform(s.src) && s.TableOk() && s.LastRemembered() && 32 <= |s.src| < 0x1_0000_0000
    requires s.srcCurrent + MIN_MARGIN < |s.src|
    requires vi == Load4(s.src, s.srcCurrent) && e == s.table[Hash3i(vi)]
    requires incoming.M != 0 ==>
        Maximal(s.src, incoming) && GoodMatch(s.src, s.srcLiteral, incoming) && incoming.mBegin <= s.srcCurrent
    requires |e.indices| == |e.values| == 4
    requires CommonLow(vi, e.values[0], 4) >= 3 && 0 < s.srcCurrent - e.indices[0] <= MAX_DISTANCE ==> incoming.M != 0
    ensures s.srcCurrent < 0x8000_0000 ==> (s.srcCurrent > 0 <==> incoming.M != 0)
    ensures incoming.M != 0 ==> incoming.mEnd + 4 >= |s.src|
  {
    hide CommonLow, Hash3i, FromLE, Load4;
    UniformWords(s.src, s.srcCurrent);
    SameWordInCommon(vi);
    if s.srcCurrent > 0 {
      UniformWords(s.src, s.srcCurrent - 1);
    }
  }

  lemma AppendsToRuns(dst: seq<byte>, q: seq<byte>, out: seq<byte>, d: nat, e: Effect, f: Effect)
    requires Runs(dst, out, d, e) && Appends(dst, q, e.out, e.d, f)
    ensures Runs(q, out, d, f)
  {
    hide Runs;
    RunsConcat(dst, q[|dst|..], out, d, e, f);
    assert dst + q[|dst|..] == q;
  }

  lemma NewSlot(src: seq<byte>, current: nat)
    requires current + 4 <= |src| < 0x1_0000_0000
    ensures SlotOk(ToS32(current), Load4(src, current), src, current)
  {
  }

  lemma LaterSlots(src: seq<byte>, current: nat)
    ensures forall i, v :: SlotOk(i, v, src, current) ==> SlotOk(i, v, src, current + 1)
  {
  }

  // ----- entry points

  /** Wherever the code stands, running it to its end yields exactly src. */
  ghost predicate RunsTo(code: seq<byte>, src: seq<byte>, d: nat) {
    forall before: seq<byte> :: Run(before + code, |before|, [], 0) == Ended(src, |before + code|, d)
  }

  /**
   * lzvn_encode_buffer (through lzvn_encode_partial): the code, or nothing when the source could not be encoded
   * whole.
   */
  method EncodeBuffer(src: seq<byte>, dstSize: nat) returns (code: seq<byte>)
    ensures |code| <= dstSize
    ensures code != [] ==> exists d :: RunsTo(code, src, d)
    ensures |src| <= 0xffff_ffff && 2 * |src| + 18 < dstSize ==> code != []
    ensures Uniform(src) && 32 <= |src| <= 0xffff_ffff && 2 * |src| + 18 < dstSize ==>
        |code| <= 23 + 2 * Pieces(|src|)
  {
    hide Runs, RunsTo, SameBytes, EntryOk;
    if dstSize < MIN_DST_SIZE {
      return [];
    }
    var used := if |src| > 0xffff_ffff then src[..0xffff_ffff] else src;
    var table := new Entry[HASH_VALUES](_ => Entry([], []));
    var state := new EncoderState(used, dstSize - 8, table);
    if |used| >= MIN_SRC_SIZE {
      state.InitTable();
      state.Encode();
    }
    var _ := state.EmitLiterals(|used| - state.srcLiteral);
    // lzvn_emit_end_of_stream: the 8 bytes reserved at the start are always enough
    assert |state.dst| + 8 <= dstSize;
    code := state.dst + EOS;
    if state.srcLiteral != |src| {
      return [];
    }
    assert used[..state.srcLiteral] == src;
    EndOfStream(state.dst, src, state.dPrev);
  }

  const EOS: seq<byte> := [6, 0, 0, 0, 0, 0, 0, 0]

  lemma EndOfStream(dst: seq<byte>, src: seq<byte>, d: nat)
    requires Runs(dst, [], 0, Effect(src, d))
    ensures RunsTo(dst + EOS, src, d)
  {
    hide Run, Runs;
    forall before: seq<byte>
      ensures Run(before + (dst + EOS), |before|, [], 0) == Ended(src, |before + (dst + EOS)|, d)
    {
      var code := before + (dst + EOS);
      assert code[|before|..|before| + |dst|] == dst;
      RunsAt(dst, [], 0, Effect(src, d), code, |before|);
      assert code[|before| + |dst|] == EOS[0];
      RunEnd(code, |before| + |dst|, src, d);
    }
  }
}
