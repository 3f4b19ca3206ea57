/** Copies in the output buffer, eight bytes at a time or one by one, against the byte-by-byte meaning of a match. */
module WideCopy {
  import opened Bits
  import opened Lz77

  /** store8 of eight loaded bytes. */
  method Store8(a: array<byte>, i: nat, v: seq<byte>)
    requires |v| == 8 && i + 8 <= a.Length
    modifies a
    ensures a[..] == old(a[..i]) + v + old(a[i + 8..])
  {
    a[i], a[i + 1], a[i + 2], a[i + 3] := v[0], v[1], v[2], v[3];
    a[i + 4], a[i + 5], a[i + 6], a[i + 7] := v[4], v[5], v[6], v[7];
    forall k | 0 <= k < a.Length
      ensures a[k] == (old(a[..i]) + v + old(a[i + 8..]))[k]
    {
    }
  }

  /** Nothing at or above `limit` is written. */
  twostate predicate UnchangedFrom(a: array<byte>, limit: int)
    reads a
  {
    forall k :: limit <= k < a.Length && k >= 0 ==> a[k] == old(a[k])
  }

  /** Store8 as an extension of what is below. */
  method Put8(a: array<byte>, q: nat, v: seq<byte>)
    requires |v| == 8 && q + 8 <= a.Length
    modifies a
    ensures a[..q + 8] == old(a[..q]) + v
    ensures UnchangedFrom(a, q + 8)
  {
    ghost var before := a[..];
    Store8(a, q, v);
    assert a[..q + 8] == before[..q] + v;
    forall k | q + 8 <= k < a.Length
      ensures a[k] == before[k]
    {
      assert a[..][k] == before[q + 8..][k - (q + 8)];
    }
  }

  /** copy16: two 8-byte stores. */
  method Put16(a: array<byte>, q: nat, v: seq<byte>)
    requires |v| == 16 && q + 16 <= a.Length
    modifies a
    ensures a[..q + 16] == old(a[..q]) + v
    ensures UnchangedFrom(a, q + 16)
  {
    ghost var before := a[..q];
    Put8(a, q, v[..8]);
    Put8(a, q + 8, v[8..]);
    assert before + v[..8] + v[8..] == before + v;
  }

  /** for (i = 0; i < L; i += 8) store8(dst + i, load8(src + i)), with `least` == 8 for the do-while form. */
  method CopyLiteral8(a: array<byte>, p: nat, src: seq<byte>, s: nat, L: nat, least: nat)
    requires least == 0 || least == 8
    requires p + L + 7 < a.Length + (if least == 0 then 1 else 0) && s + L + 7 < |src| + (if least == 0 then 1 else 0)
    modifies a
    ensures a[..p + L] == old(a[..p]) + src[s..s + L]
    ensures UnchangedFrom(a, p + L + 7 + (if least == 0 then 0 else 1))
  {
    var i := 0;
    while i < L || i < least
      invariant (i == 0 || i >= 8) && (i < L + 8 || i <= least)
      invariant p + i <= a.Length && s + i <= |src|
      invariant a[..p + i] == old(a[..p]) + src[s..s + i]
      invariant UnchangedFrom(a, p + i)
      decreases L + least - i
    {
      Put8(a, p + i, src[s + i..s + i + 8]);
      SliceAndNext(src, s, i, 8);
      i := i + 8;
    }
    assert a[..p + L] == a[..p + i][..p + L];
  }

  /** copy16(dst, src), then again while the destination is short of L bytes. */
  method CopyLiteral16(a: array<byte>, p: nat, src: seq<byte>, s: nat, L: nat)
    requires p + L + 16 <= a.Length && s + L + 16 <= |src|
    modifies a
    ensures a[..p + L] == old(a[..p]) + src[s..s + L]
    ensures UnchangedFrom(a, p + L + 16)
  {
    var i := 0;
    while i == 0 || i < L
      invariant i % 16 == 0 && (i <= 16 || i < L + 16)
      invariant p + i <= a.Length && s + i <= |src|
      invariant a[..p + i] == old(a[..p]) + src[s..s + i]
      invariant UnchangedFrom(a, p + i)
      decreases L + 16 - i
    {
      Put16(a, p + i, src[s + i..s + i + 16]);
      SliceAndNext(src, s, i, 16);
      i := i + 16;
    }
    assert a[..p + L] == a[..p + i][..p + L];
  }

  lemma SliceAndNext(src: seq<byte>, s: nat, i: nat, n: nat)
    requires s + i + n <= |src|
    ensures src[s..s + i] + src[s + i..s + i + n] == src[s..s + i + n]
  {
  }

  /** Byte-by-byte literal copy. */
  method CopyLiteralSlow(a: array<byte>, p: nat, src: seq<byte>, s: nat, n: nat)
    requires p + n <= a.Length && s + n <= |src|
    modifies a
    ensures a[..p + n] == old(a[..p]) + src[s..s + n]
    ensures UnchangedFrom(a, p + n)
  {
    for i := 0 to n
      invariant a[..p + i] == old(a[..p]) + src[s..s + i]
      invariant UnchangedFrom(a, p + i)
    {
      a[p + i] := src[s + i];
      assert src[s..s + i] + [src[s + i]] == src[s..s + i + 1];
      assert a[..p + i + 1] == a[..p + i] + [a[p + i]];
    }
  }

  /** Byte-by-byte match copy: dst[i] = dst[i - D]. */
  method CopyMatchSlow(a: array<byte>, p: nat, D: nat, n: nat)
    requires p + n <= a.Length && 1 <= D <= p
    modifies a
    ensures a[..p + n] == CopyMatch(old(a[..p]), D, n)
    ensures UnchangedFrom(a, p + n)
  {
    hide CopyMatch;
    ghost var out := a[..p];
    CopyMatchNone(out, D);
    for i := 0 to n
      invariant a[..p + i] == CopyMatch(out, D, i)
      invariant UnchangedFrom(a, p + i)
    {
      CopyMatchSnoc(out, D, i);
      a[p + i] := a[p + i - D];
      assert a[..p + i + 1] == a[..p + i] + [a[p + i]];
    }
  }

  lemma CopyMatchNone(out: seq<byte>, D: nat)
    requires 1 <= D <= |out|
    ensures CopyMatch(out, D, 0) == out
  {
  }

  /** Up to D bytes can be copied in one go: the source does not overlap the destination. */
  lemma {:induction false} CopyMatchChunk(out: seq<byte>, D: nat, n: nat)
    requires 1 <= D <= |out| && n <= D
    ensures CopyMatch(out, D, n) == out + out[|out| - D..|out| - D + n]
  {
    hide CopyMatch;
    if n == 0 {
      CopyMatchNone(out, D);
    } else {
      CopyMatchChunk(out, D, n - 1);
      CopyMatchSnoc(out, D, n - 1);
      var from := |out| - D;
      assert out[from..from + n] == out[from..from + n - 1] + [out[from + n - 1]];
    }
  }

  /** One eight-byte step of a match with a distance of at least 8. */
  method Advance8(a: array<byte>, q: nat, D: nat)
    requires q + 8 <= a.Length && 8 <= D <= q
    modifies a
    ensures a[..q + 8] == CopyMatch(old(a[..q]), D, 8)
    ensures UnchangedFrom(a, q + 8)
  {
    hide CopyMatch;
    ghost var before := a[..q];
    CopyMatchChunk(before, D, 8);
    Put8(a, q, a[q - D..q - D + 8]);
  }

  lemma CopyMatchPrefix(out: seq<byte>, D: nat, n: nat, m: nat)
    requires 1 <= D <= |out| && n <= m
    ensures CopyMatch(out, D, m)[..|out| + n] == CopyMatch(out, D, n)
  {
    hide CopyMatch;
    CopyMatchSplit(out, D, n, m);
  }

  /** Eight bytes at a time for a distance of at least 8; `least` == 8 for the do-while form. */
  method CopyMatch8(a: array<byte>, p: nat, D: nat, M: nat, least: nat)
    requires least == 0 || least == 8
    requires p + M + 7 < a.Length + (if least == 0 then 1 else 0) && 8 <= D <= p
    modifies a
    ensures a[..p + M] == CopyMatch(old(a[..p]), D, M)
    ensures UnchangedFrom(a, p + M + 7 + (if least == 0 then 0 else 1))
  {
    hide CopyMatch;
    ghost var out := a[..p];
    CopyMatchNone(out, D);
    var i := 0;
    while i < M || i < least
      invariant (i == 0 || i >= 8) && (i < M + 8 || i <= least)
      invariant p + i <= a.Length
      invariant a[..p + i] == CopyMatch(out, D, i)
      invariant UnchangedFrom(a, p + i)
      decreases M + least - i
    {
      CopyMatchSplit(out, D, i, i + 8);
      Advance8(a, p + i, D);
      i := i + 8;
    }
    CopyMatchPrefix(out, D, M, i);
    assert a[..p + M] == a[..p + i][..p + M];
  }

  /** One eight-byte copy is enough for a match no longer than its (short) distance. */
  method CopyMatchOnce(a: array<byte>, p: nat, D: nat, M: nat)
    requires p + M + 8 <= a.Length && M <= D <= p && 1 <= D < 8
    modifies a
    ensures a[..p + M] == CopyMatch(old(a[..p]), D, M)
    ensures UnchangedFrom(a, p + M + 8)
  {
    hide CopyMatch;
    ghost var out := a[..p];
    var v := a[p - D..p - D + 8];
    CopyMatchChunk(out, D, M);
    assert v[..M] == out[p - D..p - D + M];
    Store8(a, p, v);
    assert a[..p + M] == out + v[..M];
  }
}
