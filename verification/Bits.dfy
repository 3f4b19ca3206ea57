module Options {
  datatype Option<+T> = None | Some(value: T)
}

/** Bytes, bit strings and little-endian words, shared by every layer of the codec. */
module Bits {

  newtype byte = x: int | 0 <= x < 256

  function Pow2(n: nat): (p: nat)
    ensures p > 0
  {
    if n == 0 then 1 else 2 * Pow2(n - 1)
  }

  /** v >> n. */
  function Shr(v: nat, n: nat): (r: nat) {
    DivMod(v, Pow2(n));
    v / Pow2(n)
  }

  /** The n low bits of v (fse_mask_lsb64). */
  function Mask(v: nat, n: nat): (r: nat)
    ensures r < Pow2(n)
    ensures v == Shr(v, n) * Pow2(n) + r
  {
    DivMod(v, Pow2(n));
    v % Pow2(n)
  }

  /** v << n. */
  function Shl(v: nat, n: nat): (r: nat) {
    v * Pow2(n)
  }

  /** The n low bits of v, least significant first. */
  function ToBits(v: nat, n: nat): (bits: seq<bool>)
    ensures |bits| == n
  {
    if n == 0 then [] else [v % 2 == 1] + ToBits(v / 2, n - 1)
  }

  function ToNat(bits: seq<bool>): nat {
    if bits == [] then 0 else (if bits[0] then 1 else 0) + 2 * ToNat(bits[1..])
  }

  function Zeros(n: nat): (bits: seq<bool>)
    ensures |bits| == n
  {
    seq(n, _ => false)
  }

  function ByteBits(b: byte): (bits: seq<bool>)
    ensures |bits| == 8
  {
    ToBits(b as int, 8)
  }

  function BytesToBits(bytes: seq<byte>): (bits: seq<bool>)
    ensures |bits| == 8 * |bytes|
  {
    if bytes == [] then [] else ByteBits(bytes[0]) + BytesToBits(bytes[1..])
  }

  /** Packs a bit string into bytes, padding the last byte with zero bits. */
  function PackBits(bits: seq<bool>): (bytes: seq<byte>)
    ensures |bytes| == (|bits| + 7) / 8
  {
    if bits == [] then []
    else if |bits| < 8 then ToNatBound(bits); Pow2Values(); Pow2Monotone(|bits|, 8); [ToNat(bits) as byte]
    else ToNatBound(bits[..8]); Pow2Values(); [ToNat(bits[..8]) as byte] + PackBits(bits[8..])
  }

  /** The k low bytes of v, least significant first. */
  function LE(v: nat, k: nat): (bytes: seq<byte>)
    ensures |bytes| == k
  {
    if k == 0 then [] else [(v % 256) as byte] + LE(v / 256, k - 1)
  }

  function FromLE(bytes: seq<byte>): nat {
    if bytes == [] then 0 else bytes[0] as int + 256 * FromLE(bytes[1..])
  }

  /** The lowest byte comes first. */
  lemma {:induction false} LEByte(v: nat, k: nat, i: nat)
    requires i < k
    ensures LE(v, k)[i] as int == v / Pow2(8 * i) % 256
  {
    if i > 0 {
      LEByte(v / 256, k - 1, i - 1);
      Pow2Values();
      Pow2Add(8, 8 * (i - 1));
      DivTwice(v, 256, Pow2(8 * (i - 1)));
    }
  }

  lemma DivTwice(v: nat, a: nat, b: nat)
    requires a > 0 && b > 0
    ensures v / a / b == v / (a * b)
  {
    var q, r := v / a / b, v / a % b;
    DivMod(v, a);
    DivMod(v / a, b);
    assert v == q * (a * b) + (r * a + v % a) by {
      assert (q * b + r) * a == q * (a * b) + r * a;
    }
    assert r * a + v % a < a * b by {
      MulMonotone(r + 1, b, a);
    }
    DivModUnique(v, q, r * a + v % a, a * b);
  }

  // ----- powers of two

  lemma Pow2Values()
    ensures Pow2(0) == 1 && Pow2(1) == 2 && Pow2(2) == 4 && Pow2(3) == 8 && Pow2(4) == 16 && Pow2(5) == 32
    ensures Pow2(6) == 64 && Pow2(7) == 128 && Pow2(8) == 256 && Pow2(9) == 512 && Pow2(10) == 1024
  {
    assert Pow2(4) == 16;
    assert Pow2(8) == 256;
  }

  lemma Pow2Words()
    ensures Pow2(14) == 0x4000 && Pow2(15) == 0x8000 && Pow2(16) == 0x1_0000 && Pow2(20) == 0x10_0000
    ensures Pow2(31) == 0x8000_0000 && Pow2(32) == 0x1_0000_0000 && Pow2(40) == 0x100_0000_0000
    ensures Pow2(60) == 0x1000_0000_0000_0000 && Pow2(64) == 0x1_0000_0000_0000_0000
  {
    Pow2Values();
    Pow2Add(10, 4);
    Pow2Add(10, 10);
    Pow2Add(16, 15);
    Pow2Add(16, 16);
    Pow2Add(20, 20);
    Pow2Add(40, 20);
    Pow2Add(32, 32);
  }

  lemma {:induction false} Pow2Add(a: nat, b: nat)
    ensures Pow2(a + b) == Pow2(a) * Pow2(b)
  {
    if a > 0 {
      Pow2Add(a - 1, b);
      assert Pow2(a + b) == 2 * Pow2(a - 1 + b);
    }
  }

  lemma {:induction false} Pow2Monotone(a: nat, b: nat)
    requires a <= b
    ensures Pow2(a) <= Pow2(b)
    decreases b
  {
    if a < b {
      Pow2Monotone(a, b - 1);
    }
  }

  lemma DivMod(a: nat, d: nat)
    requires d > 0
    ensures a == a / d * d + a % d && 0 <= a % d < d && 0 <= a / d
  {
  }

  lemma MulAtLeast(x: int, d: nat)
    requires x >= 1
    ensures x * d >= d
  {
    assert x * d == (x - 1) * d + d;
  }

  lemma DivModUnique(a: nat, q: nat, r: nat, d: nat)
    requires r < d && a == q * d + r
    ensures a / d == q && a % d == r
  {
    DivMod(a, d);
    QuotientUnique(a / d, a % d, q, r, d);
  }

  lemma QuotientUnique(q: int, r: int, q': int, r': int, d: nat)
    requires q * d + r == q' * d + r'
    requires 0 <= r < d && 0 <= r' < d
    ensures q == q' && r == r'
  {
    assert (q - q') * d == r' - r;
    if q > q' {
      MulAtLeast(q - q', d);
    } else if q < q' {
      MulAtLeast(q' - q, d);
    }
  }

  // ----- bit strings and numbers

  lemma {:induction false} ToNatBound(bits: seq<bool>)
    ensures ToNat(bits) < Pow2(|bits|)
  {
    if bits != [] {
      ToNatBound(bits[1..]);
    }
  }

  lemma {:induction false} ToNatToBits(v: nat, n: nat)
    ensures ToNat(ToBits(v, n)) == Mask(v, n)
  {
    if n > 0 {
      ToNatToBits(v / 2, n - 1);
      ToBitsStep(v, n);
      assert ToBits(v, n)[1..] == ToBits(v / 2, n - 1);
      MaskStep(v, Pow2(n - 1));
    }
  }

  /** The remainder modulo 2p, from that of half the number modulo p. */
  lemma MaskStep(v: nat, p: nat)
    requires p > 0
    ensures v % (2 * p) == 2 * (v / 2 % p) + v % 2
  {
    var half := v / 2;
    DivMod(half, p);
    var q, r := half / p, half % p;
    assert q * (2 * p) == 2 * (q * p);
    DivModUnique(v, q, 2 * r + v % 2, 2 * p);
  }

  lemma ToNatOfToBits(v: nat, n: nat)
    requires v < Pow2(n)
    ensures ToNat(ToBits(v, n)) == v
  {
    ToNatToBits(v, n);
    ShrMaskOfSum(v, n, 0);
  }

  lemma {:induction false} ToBitsToNat(bits: seq<bool>)
    ensures ToBits(ToNat(bits), |bits|) == bits
  {
    if bits != [] {
      ToBitsToNat(bits[1..]);
      assert (ToNat(bits)) / 2 == ToNat(bits[1..]);
    }
  }

  lemma {:induction false} ToNatConcat(a: seq<bool>, b: seq<bool>)
    ensures ToNat(a + b) == ToNat(a) + Pow2(|a|) * ToNat(b)
  {
    if a == [] {
      assert a + b == b;
    } else {
      ToNatConcat(a[1..], b);
      assert (a + b)[1..] == a[1..] + b;
      assert Pow2(|a|) * ToNat(b) == 2 * (Pow2(|a| - 1) * ToNat(b)) by {
        assert Pow2(|a|) == 2 * Pow2(|a| - 1);
      }
    }
  }

  lemma HalfOfSum(a: nat, k: nat, b: nat)
    requires k > 0
    ensures (a + Shl(b, k)) / 2 == a / 2 + Shl(b, k - 1) && (a + Shl(b, k)) % 2 == a % 2
  {
    var p := Pow2(k - 1);
    assert Shl(b, k) == 2 * (b * p);
  }

  /** Writing b above the k bits of a appends the bits of b. */
  lemma {:induction false} ToBitsConcat(a: nat, k: nat, b: nat, n: nat)
    requires a < Pow2(k)
    ensures ToBits(a + Shl(b, k), k + n) == ToBits(a, k) + ToBits(b, n)
  {
    if k == 0 {
      assert a + Shl(b, k) == b;
      assert ToBits(a, 0) + ToBits(b, n) == ToBits(b, n);
    } else {
      hide Shl;
      HalfOfSum(a, k, b);
      ToBitsConcat(a / 2, k - 1, b, n);
      ToBitsStep(a + Shl(b, k), k + n);
      ToBitsStep(a, k);
      ConcatAssoc([a % 2 == 1], ToBits(a / 2, k - 1), ToBits(b, n));
    }
  }

  lemma ToBitsStep(v: nat, n: nat)
    requires n > 0
    ensures ToBits(v, n) == [v % 2 == 1] + ToBits(v / 2, n - 1)
  {
  }

  lemma ConcatAssoc<T>(a: seq<T>, b: seq<T>, c: seq<T>)
    ensures a + (b + c) == a + b + c
  {
  }

  /** Splitting a word at bit k splits its bit string. */
  lemma ToBitsSplit(v: nat, k: nat, n: nat)
    ensures ToBits(v, k + n) == ToBits(Mask(v, k), k) + ToBits(Shr(v, k), n)
  {
    ToBitsConcat(Mask(v, k), k, Shr(v, k), n);
  }

  /** The value put on top is recovered by shifting, what was below by masking. */
  lemma ShrMaskOfSum(a: nat, k: nat, b: nat)
    requires a < Pow2(k)
    ensures Shr(a + Shl(b, k), k) == b && Mask(a + Shl(b, k), k) == a
  {
    DivModUnique(a + Shl(b, k), b, a, Pow2(k));
  }

  lemma ShlBound(a: nat, k: nat, b: nat, n: nat)
    requires a < Pow2(k) && b < Pow2(n)
    ensures a + Shl(b, k) < Pow2(k + n)
  {
    Pow2Add(k, n);
    MulAtLeast(Pow2(n) - b, Pow2(k));
    assert (Pow2(n) - b) * Pow2(k) == Pow2(k + n) - Shl(b, k) by {
      assert Pow2(n) * Pow2(k) == Pow2(k) * Pow2(n);
    }
  }

  lemma ShrBound(v: nat, k: nat, n: nat)
    requires v < Pow2(k + n)
    ensures Shr(v, k) < Pow2(n)
  {
    if Shr(v, k) >= Pow2(n) {
      Pow2Add(k, n);
      MulMonotone(Pow2(n), Shr(v, k), Pow2(k));
    }
  }

  lemma MulMonotone(a: nat, b: nat, d: nat)
    requires a <= b
    ensures a * d <= b * d
  {
    assert b * d == a * d + (b - a) * d;
  }

  lemma ToBitsMask(v: nat, k: nat)
    ensures ToBits(Mask(v, k), k) == ToBits(v, k)
  {
    ToBitsSplit(v, k, 0);
  }

  lemma ToBitsInjective(a: nat, b: nat, n: nat)
    requires a < Pow2(n) && b < Pow2(n)
    requires ToBits(a, n) == ToBits(b, n)
    ensures a == b
  {
    ToNatToBits(a, n);
    ToNatToBits(b, n);
    DivModUnique(a, 0, a, Pow2(n));
    DivModUnique(b, 0, b, Pow2(n));
  }

  lemma {:induction false} ToBitsZero(n: nat)
    ensures ToBits(0, n) == Zeros(n)
  {
    if n > 0 {
      ToBitsZero(n - 1);
    }
  }

  /** A word below 2^k has zeros above bit k. */
  lemma ToBitsHighZeros(v: nat, k: nat, n: nat)
    requires v < Pow2(k)
    ensures ToBits(v, k + n) == ToBits(v, k) + Zeros(n)
  {
    ToBitsConcat(v, k, 0, n);
    ToBitsZero(n);
  }

  // ----- bytes

  lemma BytesToBitsStep(b: byte, rest: seq<byte>)
    ensures BytesToBits([b] + rest) == ByteBits(b) + BytesToBits(rest)
  {
    hide ByteBits;
    assert ([b] + rest)[1..] == rest;
  }

  lemma {:induction false} BytesToBitsConcat(a: seq<byte>, b: seq<byte>)
    ensures BytesToBits(a + b) == BytesToBits(a) + BytesToBits(b)
  {
    if a == [] {
      assert a + b == b;
    } else {
      hide BytesToBits, ByteBits;
      BytesToBitsConcat(a[1..], b);
      assert a + b == [a[0]] + (a[1..] + b) && a == [a[0]] + a[1..];
      BytesToBitsStep(a[0], a[1..] + b);
      BytesToBitsStep(a[0], a[1..]);
      ConcatAssoc(ByteBits(a[0]), BytesToBits(a[1..]), BytesToBits(b));
    }
  }

  lemma {:induction false} BytesToBitsInjective(a: seq<byte>, b: seq<byte>)
    requires BytesToBits(a) == BytesToBits(b)
    ensures a == b
  {
    hide ToBits;
    assert 8 * |a| == |BytesToBits(a)| == |BytesToBits(b)| == 8 * |b|;
    if a != [] {
      var x, y := BytesToBits(a), BytesToBits(b);
      assert x[..8] == ByteBits(a[0]) && y[..8] == ByteBits(b[0]);
      assert x[8..] == BytesToBits(a[1..]) && y[8..] == BytesToBits(b[1..]);
      Pow2Values();
      ToBitsInjective(a[0] as int, b[0] as int, 8);
      BytesToBitsInjective(a[1..], b[1..]);
    }
  }

  /** Unpacking a packed bit string gives it back, followed by fewer than 8 zero bits. */
  lemma {:induction false} BytesToBitsPackBits(bits: seq<bool>)
    ensures BytesToBits(PackBits(bits)) == bits + Zeros(8 * |PackBits(bits)| - |bits|)
  {
    if bits == [] {
    } else if |bits| < 8 {
      var n := |bits|;
      ToNatBound(bits);
      ToBitsHighZeros(ToNat(bits), n, 8 - n);
      ToBitsToNat(bits);
      assert PackBits(bits) == [PackBits(bits)[0]];
      assert BytesToBits(PackBits(bits)) == ToBits(ToNat(bits), 8) + [];
    } else {
      BytesToBitsPackBits(bits[8..]);
      ToBitsToNat(bits[..8]);
      var rest := PackBits(bits[8..]);
      assert PackBits(bits)[1..] == rest;
      assert bits == bits[..8] + bits[8..];
    }
  }

  /** The bytes of a packed string are determined by unpacking. */
  lemma PackBitsUnique(bytes: seq<byte>, bits: seq<bool>)
    requires |bits| <= 8 * |bytes| < |bits| + 8
    requires BytesToBits(bytes) == bits + Zeros(8 * |bytes| - |bits|)
    ensures bytes == PackBits(bits)
  {
    hide PackBits, BytesToBits;
    BytesToBitsPackBits(bits);
    assert |PackBits(bits)| == |bytes|;
    BytesToBitsInjective(bytes, PackBits(bits));
  }

  // ----- little-endian words

  lemma {:induction false} LEBits(v: nat, k: nat)
    ensures BytesToBits(LE(v, k)) == ToBits(v, 8 * k)
  {
    if k > 0 {
      LEBits(v / 256, k - 1);
      Pow2Values();
      ToBitsSplit(v, 8, 8 * (k - 1));
      assert LE(v, k)[1..] == LE(v / 256, k - 1);
    }
  }

  lemma {:induction false} FromLEBits(bytes: seq<byte>)
    ensures FromLE(bytes) < Pow2(8 * |bytes|)
    ensures ToBits(FromLE(bytes), 8 * |bytes|) == BytesToBits(bytes)
  {
    if bytes != [] {
      FromLEBits(bytes[1..]);
      Pow2Values();
      Pow2Add(8, 8 * (|bytes| - 1));
      ToBitsConcat(bytes[0] as int, 8, FromLE(bytes[1..]), 8 * (|bytes| - 1));
    }
  }

  lemma FromLELE(v: nat, k: nat)
    requires v < Pow2(8 * k)
    ensures FromLE(LE(v, k)) == v
  {
    FromLEBits(LE(v, k));
    LEBits(v, k);
    ToBitsInjective(FromLE(LE(v, k)), v, 8 * k);
  }

  lemma LEFromLE(bytes: seq<byte>)
    ensures LE(FromLE(bytes), |bytes|) == bytes
  {
    FromLEBits(bytes);
    LEBits(FromLE(bytes), |bytes|);
    BytesToBitsInjective(LE(FromLE(bytes), |bytes|), bytes);
  }

  lemma SliceOfSlice<T>(s: seq<T>, i: nat, n: nat, k: nat, m: nat)
    requires i + n <= |s| && k + m <= n
    ensures s[i..i + n][k..k + m] == s[i + k..i + k + m]
  {
    var inner, outer := s[i..i + n][k..k + m], s[i + k..i + k + m];
    forall t | 0 <= t < m
      ensures inner[t] == outer[t]
    {
      assert inner[t] == s[i..i + n][k + t];
    }
  }
}
