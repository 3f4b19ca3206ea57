/** The FSE bit streams: written forwards through a 64-bit accumulator, read backwards from the end. */
module BitStream {
  import opened Bits
  import opened Options

  // ----- the abstract stream: a stack of bits

  function Push(bits: seq<bool>, n: nat, b: nat): seq<bool> {
    bits + ToBits(b, n)
  }

  /** The number held by the last n bits pushed. */
  function Top(bits: seq<bool>, n: nat): (v: nat)
    requires n <= |bits|
  {
    ToNat(bits[|bits| - n..])
  }

  function Pop(bits: seq<bool>, n: nat): seq<bool>
    requires n <= |bits|
  {
    bits[..|bits| - n]
  }

  /** A checked refill succeeds exactly when at least this many bits are left. */
  const REFILL_BITS := 56

  lemma PopPush(bits: seq<bool>, n: nat, b: nat)
    requires b < Pow2(n)
    ensures Top(Push(bits, n, b), n) == b && Pop(Push(bits, n, b), n) == bits
  {
    var pushed := Push(bits, n, b);
    assert pushed[|pushed| - n..] == ToBits(b, n);
    ToNatOfToBits(b, n);
  }

  /** Two values pushed separately and pulled in one go: the later one is in the high bits. */
  lemma PopPushTwo(bits: seq<bool>, n: nat, b: nat, m: nat, c: nat)
    requires b < Pow2(n) && c < Pow2(m)
    ensures Pop(Push(Push(bits, n, b), m, c), m + n) == bits
    ensures Top(Push(Push(bits, n, b), m, c), m + n) == b + Shl(c, n)
    ensures Shr(b + Shl(c, n), n) == c && Mask(b + Shl(c, n), n) == b
  {
    ToBitsConcat(b, n, c, m);
    ShlBound(b, n, c, m);
    ShrMaskOfSum(b, n, c);
    assert Push(Push(bits, n, b), m, c) == Push(bits, m + n, b + Shl(c, n));
    PopPush(bits, m + n, b + Shl(c, n));
  }

  lemma TopBound(bits: seq<bool>, n: nat)
    requires n <= |bits|
    ensures Top(bits, n) < Pow2(n)
    ensures bits == Push(Pop(bits, n), n, Top(bits, n))
  {
    hide ToBits, ToNat;
    var top := bits[|bits| - n..];
    ToNatBound(top);
    ToBitsToNat(top);
    assert bits == bits[..|bits| - n] + top;
  }

  /** Drops -n padding bits, which must be zero. */
  function Unpad(all: seq<bool>, n: int): Option<seq<bool>>
    requires n <= 0 <= |all| + n
  {
    if all[|all| + n..] == Zeros(-n) then Some(all[..|all| + n]) else None
  }

  /** What reading backwards from `end` sees when the last byte holds -n padding bits. */
  function InitBits(src: seq<byte>, end: nat, bufStart: nat, n: int): Option<seq<bool>>
    requires end <= |src|
  {
    if -8 <= n <= 0 && end >= bufStart + (if n == 0 then 7 else 8)
    then Unpad(BytesToBits(src[..end]), n)
    else None
  }

  lemma UnpadConcat(below: seq<bool>, bits: seq<bool>, pad: nat)
    ensures Unpad(below + (bits + Zeros(pad)), 0 - pad) == Some(below + bits)
  {
    ConcatSlices(below, bits, Zeros(pad));
  }

  /** Reading back a packed payload yields exactly the bits pushed, above whatever precedes it. */
  lemma InitBitsOfPacked(src: seq<byte>, start: nat, end: nat, bufStart: nat, bits: seq<bool>)
    requires start <= end <= |src|
    requires src[start..end] == PackBits(bits)
    requires end >= bufStart + 8
    ensures InitBits(src, end, bufStart, |bits| - 8 * (end - start)) == Some(BytesToBits(src[..start]) + bits)
  {
    hide ToBits, BytesToBits, PackBits, Unpad;
    var below, pad := BytesToBits(src[..start]), 8 * (end - start) - |bits|;
    assert BytesToBits(src[..end]) == below + (bits + Zeros(pad)) by {
      assert src[..end] == src[..start] + src[start..end];
      BytesToBitsConcat(src[..start], src[start..end]);
      BytesToBitsPackBits(bits);
    }
    UnpadConcat(below, bits, pad);
  }

  lemma ConcatSlices<T>(a: seq<T>, b: seq<T>, c: seq<T>)
    ensures a + (b + c) == (a + b) + c
    ensures (a + (b + c))[..|a| + |b|] == a + b
    ensures (a + (b + c))[|a| + |b|..] == c
  {
  }

  // ----- the output stream

  class OutStream {
    var accum: nat
    var accumNbits: int
    // the bytes written through *pbuf since initialisation
    var buf: seq<byte>

    ghost predicate Valid()
      reads this
    {
      0 <= accumNbits <= 64 && accum < Pow2(accumNbits)
    }

    ghost function Bits(): seq<bool>
      requires Valid()
      reads this
    {
      BytesToBits(buf) + ToBits(accum, accumNbits)
    }

    constructor ()
      ensures Valid() && Bits() == [] && buf == [] && accumNbits == 0
    {
      accum, accumNbits, buf := 0, 0, [];
    }

    /** fse_out_push64. The bits of b go above those already held, so `|` is `+`. */
    method PushBits(n: nat, b: nat)
      requires Valid() && accumNbits + n <= 64 && b < Pow2(n)
      modifies this
      ensures Valid() && Bits() == Push(old(Bits()), n, b)
      ensures accumNbits == old(accumNbits) + n && buf == old(buf)
    {
      ToBitsConcat(accum, accumNbits, b, n);
      ShlBound(accum, accumNbits, b, n);
      accum := accum + Shl(b, accumNbits);
      accumNbits := accumNbits + n;
    }

    /** fse_out_flush64. */
    method Flush()
      requires Valid()
      modifies this
      ensures Valid() && Bits() == old(Bits())
      ensures 0 <= accumNbits <= 7
    {
      hide ToBits, BytesToBits;
      var k := accumNbits / 8;
      var nbits := 8 * k;
      FlushSplit(accum, k, accumNbits - nbits);
      BytesToBitsConcat(buf, LE(accum, k));
      buf := buf + LE(accum, k);
      accum := Shr(accum, nbits);
      accumNbits := accumNbits - nbits;
    }

    /** fse_out_finish64: the last byte is padded with zeros. */
    method Finish()
      requires Valid()
      modifies this
      ensures buf == PackBits(old(Bits())) && |buf| == |old(buf)| + (old(accumNbits) + 7) / 8
      ensures accumNbits == |old(Bits())| - 8 * |buf| && -7 <= accumNbits <= 0
    {
      hide ToBits, BytesToBits, PackBits, LE;
      var k := (accumNbits + 7) / 8;
      ghost var bits := Bits();
      ToBitsHighZeros(accum, accumNbits, 8 * k - accumNbits);
      LEBits(accum, k);
      BytesToBitsConcat(buf, LE(accum, k));
      buf := buf + LE(accum, k);
      accum := 0;
      accumNbits := accumNbits - 8 * k;
      assert BytesToBits(buf) == bits + Zeros(8 * |buf| - |bits|);
      PackBitsUnique(buf, bits);
    }
  }

  lemma FlushSplit(accum: nat, k: nat, rest: nat)
    requires accum < Pow2(8 * k + rest)
    ensures Shr(accum, 8 * k) < Pow2(rest)
    ensures ToBits(accum, 8 * k + rest) == BytesToBits(LE(accum, k)) + ToBits(Shr(accum, 8 * k), rest)
  {
    ShrBound(accum, 8 * k, rest);
    ToBitsSplit(accum, 8 * k, rest);
    LEBits(accum, k);
    ToBitsMask(accum, 8 * k);
  }

  // ----- the input stream

  class InStream {
    const src: seq<byte>
    var accum: nat
    var accumNbits: nat
    // *pbuf, as an offset into src: it moves down
    var pos: nat

    ghost predicate Valid()
      reads this
    {
      accumNbits < 64 && accum < Pow2(accumNbits) && pos <= |src|
    }

    ghost function Bits(): seq<bool>
      requires Valid()
      reads this
    {
      BytesToBits(src[..pos]) + ToBits(accum, accumNbits)
    }

    constructor (src: seq<byte>)
      ensures this.src == src
    {
      this.src := src;
      accum, accumNbits, pos := 0, 0, 0;
    }

    /** fse_in_checked_init64, reading backwards from src[end]. */
    method Init(n: int, end: nat, bufStart: nat) returns (ok: bool)
      requires end <= |src|
      modifies this
      ensures ok == InitBits(src, end, bufStart, n).Some?
      ensures ok ==> Valid() && Bits() == InitBits(src, end, bufStart, n).value && accumNbits >= REFILL_BITS
    {
      hide ToBits, BytesToBits, Unpad, Shr;
      var size := if n != 0 then 8 else 7;
      if end < bufStart + size {
        return false;
      }
      pos := end - size;
      accum := FromLE(src[pos..end]);
      if n + 8 * size < 56 || n + 8 * size >= 64 {
        return false;
      }
      accumNbits := n + 8 * size;
      InitSplit(src, pos, size, n);
      ok := Shr(accum, accumNbits) == 0;
    }

    /** fse_in_checked_flush64. Only the incoming bytes kept by the mask are read. */
    method Flush(bufStart: nat) returns (ok: bool)
      requires Valid()
      modifies this
      ensures ok == (|old(Bits())| - 8 * bufStart >= REFILL_BITS)
      ensures ok ==> Valid() && Bits() == old(Bits()) && accumNbits >= REFILL_BITS
      ensures !ok ==> unchanged(this)
    {
      hide ToBits, BytesToBits, Shl;
      var k := (63 - accumNbits) / 8;
      if pos < k + bufStart {
        return false;
      }
      var incoming := FromLE(src[pos - k..pos]);
      FlushJoin(src, pos, k, accum, accumNbits);
      pos := pos - k;
      accum := incoming + Shl(accum, 8 * k);
      accumNbits := accumNbits + 8 * k;
      ok := true;
    }

    /** fse_in_pull64. */
    method Pull(n: nat) returns (r: nat)
      requires Valid() && n <= accumNbits
      modifies this
      ensures Valid() && n <= |old(Bits())|
      ensures r == Top(old(Bits()), n) && r < Pow2(n)
      ensures Bits() == Pop(old(Bits()), n) && accumNbits == old(accumNbits) - n
    {
      hide ToBits, BytesToBits, Shl, Shr, Top, Pop;
      ghost var bits := Bits();
      ghost var m := accumNbits - n;
      ToBitsSplit(accum, m, n);
      ToBitsMask(accum, m);
      ShrBound(accum, m, n);
      accumNbits := accumNbits - n;
      r := Shr(accum, accumNbits);
      accum := Mask(accum, accumNbits);
      assert bits == Push(Bits(), n, r);
      PopPush(Bits(), n, r);
    }
  }

  /** Loading the last bytes splits the bits below `end` into what was below, the accumulator and the padding. */
  lemma InitSplit(src: seq<byte>, pos: nat, size: nat, n: int)
    requires pos + size <= |src| && -8 <= n <= 0 && size == (if n == 0 then 7 else 8)
    ensures var accum, nbits := FromLE(src[pos..pos + size]), 8 * size + n;
            var all := BytesToBits(src[..pos + size]);
            && (Shr(accum, nbits) == 0 <==> Unpad(all, n).Some?)
            && (Shr(accum, nbits) == 0 ==> accum < Pow2(nbits)
                                           && Some(BytesToBits(src[..pos]) + ToBits(accum, nbits)) == Unpad(all, n))
  {
    var loaded := src[pos..pos + size];
    var accum, nbits := FromLE(loaded), 8 * size + n;
    assert src[..pos + size] == src[..pos] + loaded;
    BytesToBitsConcat(src[..pos], loaded);
    FromLEBits(loaded);
    ToBitsSplit(accum, nbits, -n);
    ToBitsMask(accum, nbits);
    ConcatSlices(BytesToBits(src[..pos]), ToBits(accum, nbits), ToBits(Shr(accum, nbits), -n));
    HighBitsZero(accum, nbits, -n);
  }

  lemma HighBitsZero(v: nat, k: nat, n: nat)
    requires v < Pow2(k + n)
    ensures Shr(v, k) == 0 <==> ToBits(Shr(v, k), n) == Zeros(n)
    ensures Shr(v, k) == 0 ==> v < Pow2(k)
  {
    ShrBound(v, k, n);
    ToBitsZero(n);
    if ToBits(Shr(v, k), n) == Zeros(n) {
      ToBitsInjective(Shr(v, k), 0, n);
    }
    if Shr(v, k) == 0 {
      assert v == Mask(v, k);
    }
  }

  lemma FlushJoin(src: seq<byte>, pos: nat, k: nat, accum: nat, nbits: nat)
    requires k <= pos <= |src| && accum < Pow2(nbits)
    ensures var joined := FromLE(src[pos - k..pos]) + Shl(accum, 8 * k);
            && joined < Pow2(nbits + 8 * k)
            && BytesToBits(src[..pos - k]) + ToBits(joined, nbits + 8 * k) == BytesToBits(src[..pos]) + ToBits(accum, nbits)
  {
    var low := src[pos - k..pos];
    var below := BytesToBits(src[..pos - k]);
    assert BytesToBits(src[..pos]) == below + BytesToBits(low) by {
      assert src[..pos] == src[..pos - k] + low;
      BytesToBitsConcat(src[..pos - k], low);
    }
    FromLEBits(low);
    ShlBound(FromLE(low), 8 * k, accum, nbits);
    ToBitsConcat(FromLE(low), 8 * k, accum, nbits);
    ConcatSlices(below, BytesToBits(low), ToBits(accum, nbits));
  }
}
