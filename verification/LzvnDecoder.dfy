/** The LZVN decoder: the opcode loop with wide copies, which can stop anywhere and be resumed. */
module LzvnDecoder {
  import opened Bits
  import opened Options
  import opened Lz77
  import opened LzvnFormat
  import opened WideCopy

  class DecoderState {
    // the source up to src_end
    const src: seq<byte>
    const dst: array<byte>
    var srcPos: nat
    var dstPos: nat
    var dstEnd: nat
    // a partially executed instruction, or zeros
    var L: nat
    var M: nat
    var D: nat
    var dPrev: nat
    var endOfStream: bool

    constructor (src: seq<byte>, srcPos: nat, dst: array<byte>, dstPos: nat, dstEnd: nat, dPrev: nat)
      ensures this.src == src && this.dst == dst && this.srcPos == srcPos && this.dstPos == dstPos
      ensures this.dstEnd == dstEnd && this.dPrev == dPrev && L == M == D == 0 && !endOfStream
    {
      this.src, this.dst, this.srcPos, this.dstPos, this.dstEnd, this.dPrev := src, dst, srcPos, dstPos, dstEnd, dPrev;
      L, M, D, endOfStream := 0, 0, 0, false;
    }

    ghost predicate Valid()
      reads this
    {
      && srcPos <= |src| && dstPos <= dstEnd <= dst.Length
      && (L != 0 || M != 0 ==> srcPos + L < |src|)
      && (M != 0 ==> L <= 3)
    }

    /** Where decoding leads from here when the destination is large enough. */
    ghost function Remaining(): Outcome
      requires Valid()
      reads this, dst
    {
      if L != 0 || M != 0 then Execute(src, srcPos, L, M, D, dst[..dstPos])
      else Run(src, srcPos, dst[..dstPos], dPrev)
    }

    /** Stopped because the destination is full, in the middle of an instruction of the run R. */
    ghost predicate Suspended(R: Outcome)
      reads this, dst
    {
      Valid() && !endOfStream && dstPos == dstEnd && (L != 0 || M != 0) && Remaining() == R
    }

    /** Copies the literals of an instruction: 8 at a time for long ones, 4 at once for short ones, or byte by byte. */
    method CopyLiterals(p: nat, q: nat, l: nat, m: nat, d: nat) returns (ok: bool)
      requires q <= dstEnd <= dst.Length && p + l < |src| && (m != 0 ==> l <= 3) && !endOfStream
      modifies this, dst
      ensures dstEnd == old(dstEnd) && dst[..q] == old(dst[..q]) && UnchangedFrom(dst, dstEnd)
      ensures ok ==> unchanged(this) && q + l <= dstEnd && dst[..q + l] == old(dst[..q]) + src[p..p + l]
      ensures !ok ==> Suspended(Execute(src, p, l, m, d, old(dst[..q]))) && srcPos >= p && dstPos >= q
    {
      hide Execute;
      var dstLen, srcLen := dstEnd - q, |src| - p;
      if m == 0 && dstLen >= l + 7 && srcLen >= l + 7 {
        CopyLiteral8(dst, q, src, p, l, 0);
      } else if m != 0 && dstLen >= 4 && srcLen >= 4 {
        Store4(dst, q, src, p, l);
      } else if l <= dstLen {
        CopyLiteralSlow(dst, q, src, p, l);
      } else {
        ghost var before := dst[..q];
        CopyLiteralSlow(dst, q, src, p, dstLen);
        assert dst[..q] == dst[..q + dstLen][..q] == before;
        ExecuteSplitLiteral(src, p, l, m, d, before, dstLen);
        srcPos, dstPos := p + dstLen, q + dstLen;
        L, M, D := l - dstLen, m, d;
        return false;
      }
      assert dst[..q] == dst[..q + l][..q];
      ok := true;
    }

    /** Copies the match of an instruction, 8 bytes at a time when far from the end and D >= 8. */
    method CopyMatchBytes(p: nat, q: nat, m: nat, d: nat) returns (ok: bool)
      requires q <= dstEnd <= dst.Length && p < |src| && m > 0 && 1 <= d <= q && !endOfStream
      modifies this, dst
      ensures dstEnd == old(dstEnd) && dst[..q] == old(dst[..q]) && UnchangedFrom(dst, dstEnd)
      ensures ok ==> unchanged(this) && q + m <= dstEnd && dst[..q + m] == CopyMatch(old(dst[..q]), d, m)
      ensures !ok ==> Suspended(Execute(src, p, 0, m, d, old(dst[..q]))) && srcPos >= p && dstPos >= q
    {
      hide Execute, CopyMatch;
      var dstLen := dstEnd - q;
      ghost var before := dst[..q];
      if dstLen >= m + 7 && d >= 8 {
        CopyMatch8(dst, q, d, m, 0);
      } else if m <= dstLen {
        CopyMatchSlow(dst, q, d, m);
      } else {
        CopyMatchSlow(dst, q, d, dstLen);
        assert dst[..q] == dst[..q + dstLen][..q] == before;
        ExecuteSplitMatch(src, p, m, d, before, dstLen);
        srcPos, dstPos := p, q + dstLen;
        L, M, D := 0, m - dstLen, d;
        return false;
      }
      assert dst[..q] == dst[..q + m][..q] == before;
      ok := true;
    }

    /** One instruction, from its literals on. The distance is tested where the match begins. */
    method CopyBoth(p: nat, q: nat, l: nat, m: nat, d: nat) returns (ok: bool)
      requires Valid() && q <= dstEnd && p + l < |src| && (m != 0 ==> l <= 3) && !endOfStream && L == M == 0
      modifies this, dst
      ensures Valid() && !endOfStream && dstEnd == old(dstEnd) && dst[..q] == old(dst[..q])
      ensures UnchangedFrom(dst, dstEnd)
      ensures unchanged(`srcPos, `dstPos) || (!ok && srcPos >= p && dstPos >= q)
      ensures var R := Execute(src, p, l, m, d, old(dst[..q]));
              if ok then L == M == 0 && q + l + m <= dstEnd && R == Run(src, p + l, dst[..q + l + m], d)
              else R.Stuck? || Suspended(R)
    {
      hide Run, CopyMatch;
      ghost var before := dst[..q];
      ok := CopyLiterals(p, q, l, m, d);
      if !ok || m == 0 {
        return;
      }
      if d > q + l || d == 0 {
        return false;
      }
      ghost var middle := dst[..q + l];
      assert middle + src[p + l..p + l + 0] == middle;
      ok := CopyMatchBytes(p + l, q + l, m, d);
      assert dst[..q] == dst[..q + l][..q] == before;
    }

    /** R was reached: every byte is out, and the state is just behind the end-of-stream instruction. */
    ghost predicate Finished(R: Outcome)
      reads this, dst
    {
      Valid() && endOfStream && L == M == 0 && R == Ended(dst[..dstPos], srcPos, dPrev)
    }

    /** Dispatches the opcode at p. When it returns false, the run is stuck, finished or suspended. */
    method Instruction(p0: nat, q0: nat, d0: nat) returns (more: bool, p: nat, q: nat, d: nat)
      requires Valid() && !endOfStream && L == M == 0 && p0 < |src| && q0 <= dstEnd
      modifies this, dst
      ensures Valid() && dstEnd == old(dstEnd) && dst[..q0] == old(dst[..q0]) && UnchangedFrom(dst, dstEnd)
      ensures q0 <= q && p0 <= p
      ensures unchanged(`srcPos, `dstPos) || (srcPos >= p0 && dstPos >= q0)
      ensures var R := Run(src, p0, old(dst[..q0]), d0);
              if more
              then !endOfStream && L == M == 0 && p0 < p < |src| && q0 <= q <= dstEnd && Run(src, p, dst[..q], d) == R
              else R.Stuck? || Finished(R) || Suspended(R)
    {
      hide Run, Execute, Parse, CopyMatch, Classify;
      p, q, d := p0, q0, d0;
      RunStep(src, p, dst[..q], d);
      var opc := Classify(src[p] as int);
      if opc == Eos {
        if |src| - p < 8 {
          return false, p, q, d;
        }
        p := p + 8;
        endOfStream := true;
        srcPos, dstPos, dPrev := p, q, d;
        return false, p, q, d;
      }
      if opc == Udef {
        return false, p, q, d;
      }
      srcPos, dstPos, dPrev := p, q, d;
      var i := Parse(src, p);
      if i.None? || p + i.value.len + i.value.l >= |src| {
        return false, p, q, d;
      }
      p := p + i.value.len;
      if i.value.d.Some? {
        d := i.value.d.value;
      }
      more := CopyBoth(p, q, i.value.l, i.value.m, d);
      p, q := p + i.value.l, q + i.value.l + i.value.m;
    }

    /** lzvn_decode. A run that reaches its end is either finished here, or suspended with nothing lost. */
    method Decode()
      requires Valid() && !endOfStream
      modifies this, dst
      ensures Valid() && dstEnd == old(dstEnd) && srcPos >= old(srcPos) && dstPos >= old(dstPos)
      ensures dst[..old(dstPos)] == old(dst[..dstPos]) && UnchangedFrom(dst, dstEnd)
      ensures var R := old(Remaining());
              R.Ended? ==>
                if old(dstPos) < dstEnd && |R.out| <= dstEnd
                then Finished(R)
                else !endOfStream && dstPos == dstEnd && Remaining() == R
    {
      hide Run, Execute, Parse, CopyMatch;
      ghost var R := Remaining();
      if srcPos == |src| || dstPos == dstEnd {
        NothingToRead(this);
        return;
      }
      var p, q, d := srcPos, dstPos, dPrev;
      ghost var q0, before := q, dst[..q];
      var more := true;
      if L != 0 || M != 0 {
        var l, m := L, M;
        d := D;
        L, M, D := 0, 0, 0;
        more := CopyBoth(p, q, l, m, d);
        p, q := p + l, q + l + m;
      }
      while more
        invariant Valid() && dstEnd == old(dstEnd) && srcPos >= old(srcPos) && dstPos >= old(dstPos) && p >= old(srcPos)
        invariant q0 <= q && dst[..q0] == before && UnchangedFrom(dst, dstEnd)
        invariant more ==> !endOfStream && L == M == 0 && p < |src| && q <= dstEnd && Run(src, p, dst[..q], d) == R
        invariant !more ==> R.Stuck? || Finished(R) || Suspended(R)
        decreases more, |src| - p
      {
        ghost var q1 := q;
        more, p, q, d := Instruction(p, q, d);
        assert dst[..q0] == dst[..q1][..q0];
      }
      SuspendedLonger(this, R);
      FinishedFits(this, R);
    }
  }

  /** store4 of four loaded bytes, of which l <= 3 are wanted. */
  method Store4(a: array<byte>, q: nat, src: seq<byte>, s: nat, l: nat)
    requires l <= 3 && q + 4 <= a.Length && s + 4 <= |src|
    modifies a
    ensures a[..q + l] == old(a[..q]) + src[s..s + l]
    ensures UnchangedFrom(a, q + 4)
  {
    ghost var before := a[..q];
    a[q], a[q + 1], a[q + 2], a[q + 3] := src[s], src[s + 1], src[s + 2], src[s + 3];
    assert a[..q] == before;
    assert a[q..q + 4] == src[s..s + 4];
    assert a[..q + l] == a[..q] + a[q..q + l];
  }

  lemma RunStep(src: seq<byte>, p: nat, out: seq<byte>, d: nat)
    requires p < |src|
    ensures var R := Run(src, p, out, d);
            var c := Classify(src[p] as int);
            && (c == Eos ==> if |src| - p < 8 then R.Stuck? else R == Ended(out, p + 8, d))
            && (c == Udef ==> R.Stuck?)
            && (c != Eos ==>
                  match Parse(src, p)
                  case None => R.Stuck?
                  case Some(i) =>
                    var d' := if i.d.Some? then i.d.value else d;
                    && R == Execute(src, p + i.len, i.l, i.m, d', out)
                    && (p + i.len + i.l >= |src| ==> R.Stuck?)
                    && (i.m != 0 ==> i.l <= 3))
  {
  }

  lemma NothingToRead(s: DecoderState)
    requires s.Valid() && (s.srcPos == |s.src| || s.dstPos == s.dstEnd)
    ensures s.srcPos == |s.src| ==> s.Remaining().Stuck?
  {
  }

  lemma FinishedFits(s: DecoderState, R: Outcome)
    ensures s.Finished(R) ==> |R.out| <= s.dstEnd
  {
  }

  /** A suspended run is longer than the destination. */
  lemma SuspendedLonger(s: DecoderState, R: Outcome)
    ensures s.Suspended(R) && R.Ended? ==> |R.out| > s.dstEnd
  {
    if s.Suspended(R) && R.Ended? {
      ExecuteExtends(s.src, s.srcPos, s.L, s.M, s.D, s.dst[..s.dstPos]);
    }
  }

  /**
   * Stopping anywhere because the destination is full, and going on with a larger one, has the outcome of a single
   * call.
   */
  method DecodeInTwoCalls(src: seq<byte>, dst: array<byte>, first: nat, second: nat) returns (s: DecoderState)
    requires first <= second <= dst.Length
    modifies dst
    ensures s.src == src && s.dst == dst && s.Valid() && UnchangedFrom(dst, second)
    ensures var R := Run(src, 0, [], 0);
            R.Ended? ==>
              if 0 < second && |R.out| <= second
              then s.Finished(R)
              else !s.endOfStream && s.dstPos == second && s.Remaining() == R
  {
    hide Run, Execute;
    s := new DecoderState(src, 0, dst, 0, first, 0);
    assert dst[..0] == [];
    s.Decode();
    if !s.endOfStream {
      s.dstEnd := second;
      s.Decode();
    }
  }
}
