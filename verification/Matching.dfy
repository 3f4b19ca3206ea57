/** Equal stretches of a source buffer, and the word comparisons that find them. */
module Matching {
  import opened Bits
  import opened Lz77

  /** The 32-bit word at position i (load4). */
  function Load4(src: seq<byte>, i: nat): nat
    requires i + 4 <= |src|
  {
    FromLE(src[i..i + 4])
  }

  /** trailing_zero_bytes(v ^ w): the number of equal bytes of two 32-bit words, from the low end. */
  function CommonLow(v: nat, w: nat, k: nat): (n: nat)
    ensures n <= k
  {
    if k == 0 || v % 256 != w % 256 then 0 else 1 + CommonLow(v / 256, w / 256, k - 1)
  }

  lemma FromLEStep(a: seq<byte>)
    requires a != []
    ensures FromLE(a) % 256 == a[0] as int && FromLE(a) / 256 == FromLE(a[1..])
  {
    DivModUnique(FromLE(a), FromLE(a[1..]), a[0] as int, 256);
  }

  lemma {:induction false} CommonLowOfBytes(a: seq<byte>, b: seq<byte>)
    requires |a| == |b|
    ensures forall i :: 0 <= i < CommonLow(FromLE(a), FromLE(b), |a|) ==> a[i] == b[i]
    ensures var n := CommonLow(FromLE(a), FromLE(b), |a|); n < |a| ==> a[n] != b[n]
  {
    hide FromLE;
    if a != [] {
      FromLEStep(a);
      FromLEStep(b);
    }
    if a != [] && a[0] == b[0] {
      CommonLowOfBytes(a[1..], b[1..]);
      forall i | 0 <= i < CommonLow(FromLE(a), FromLE(b), |a|)
        ensures a[i] == b[i]
      {
        if i > 0 {
          assert a[i] == a[1..][i - 1] && b[i] == b[1..][i - 1];
        }
      }
    }
  }

  /** The n bytes at i and at j are the same. */
  ghost predicate SameBytes(src: seq<byte>, i: nat, j: nat, n: nat) {
    i + n <= |src| && j + n <= |src| && src[i..i + n] == src[j..j + n]
  }

  /** nmatch4: the number of matching bytes, at most 4, at positions i and j. */
  function NMatch4(src: seq<byte>, i: nat, j: nat): (n: nat)
    requires i + 4 <= |src| && j + 4 <= |src|
    ensures n <= 4 && SameBytes(src, j, i, n) && (n < 4 ==> src[i + n] != src[j + n])
  {
    CommonWordsMatch(src, i, j, 4);
    CommonLow(Load4(src, i), Load4(src, j), 4)
  }

  /** The low equal bytes of the 64-bit words at positions i and j: all 8, or the trailing zeros of their XOR over 8. */
  function NMatch8(src: seq<byte>, i: nat, j: nat): (n: nat)
    requires i + 8 <= |src| && j + 8 <= |src|
    ensures n <= 8 && SameBytes(src, j, i, n) && (n < 8 ==> src[i + n] != src[j + n])
  {
    CommonWordsMatch(src, i, j, 8);
    CommonLow(FromLE(src[i..i + 8]), FromLE(src[j..j + 8]), 8)
  }

  lemma CommonWordsMatch(src: seq<byte>, i: nat, j: nat, k: nat)
    requires i + k <= |src| && j + k <= |src|
    ensures var n := CommonLow(FromLE(src[i..i + k]), FromLE(src[j..j + k]), k);
            SameBytes(src, j, i, n) && (n < k ==> src[i + n] != src[j + n])
  {
    hide CommonLow, FromLE;
    var a, b := src[i..i + k], src[j..j + k];
    var n := CommonLow(FromLE(a), FromLE(b), k);
    CommonLowOfBytes(a, b);
    assert a[..n] == b[..n];
    assert src[i..i + n] == a[..n] && src[j..j + n] == b[..n];
  }

  /** Equal words are equal bytes. */
  lemma SameWords(src: seq<byte>, i: nat, j: nat)
    requires i + 4 <= |src| && j + 4 <= |src| && Load4(src, i) == Load4(src, j)
    ensures SameBytes(src, i, j, 4)
  {
    LEFromLE(src[i..i + 4]);
    LEFromLE(src[j..j + 4]);
  }

  lemma SameBytesExtend(src: seq<byte>, i: nat, j: nat, n: nat, k: nat)
    requires SameBytes(src, i, j, n) && SameBytes(src, i + n, j + n, k)
    ensures SameBytes(src, i, j, n + k)
  {
    assert src[i..i + n + k] == src[i..i + n] + src[i + n..i + n + k];
    assert src[j..j + n + k] == src[j..j + n] + src[j + n..j + n + k];
  }

  lemma DifferBehind(src: seq<byte>, i: nat, j: nat, n: nat, k: nat)
    requires n < k && i + n < |src| && j + n < |src| && src[i + n] != src[j + n]
    ensures !SameBytes(src, i, j, k)
  {
    if i + k <= |src| && j + k <= |src| {
      var a, b := src[i..i + k], src[j..j + k];
      assert a[n] == src[i + n] && b[n] == src[j + n];
    }
  }

  lemma SameBytesFit(src: seq<byte>, i: nat, j: nat, n: nat)
    requires SameBytes(src, i, j, n)
    ensures i + n <= |src| && j + n <= |src|
  {
  }

  lemma SameBytesBack(src: seq<byte>, i: nat, j: nat, n: nat)
    requires SameBytes(src, i, j, n) && i > 0 && j > 0 && src[i - 1] == src[j - 1]
    ensures SameBytes(src, i - 1, j - 1, n + 1)
  {
    assert src[i - 1..i + n] == [src[i - 1]] + src[i..i + n];
    assert src[j - 1..j + n] == [src[j - 1]] + src[j..j + n];
  }

  lemma SameBytesWithin(src: seq<byte>, i: nat, j: nat, n: nat, k: nat, m: nat)
    requires SameBytes(src, i, j, n) && k + m <= n
    ensures SameBytes(src, i + k, j + k, m)
  {
    SliceOfSlice(src, i, n, k, m);
    SliceOfSlice(src, j, n, k, m);
  }

  /** Copying a repeat reproduces the source up to its end. */
  lemma RepeatCopies(src: seq<byte>, p: nat, d: nat, m: nat)
    requires 1 <= d <= p && SameBytes(src, p - d, p, m)
    ensures CopyMatch(src[..p], d, m) == src[..p + m]
  {
    forall i | p <= i < p + m
      ensures src[i] == src[i - d]
    {
      assert src[p..p + m][i - p] == src[p - d..p - d + m][i - p];
    }
    CopyMatchRepeat(src, p, d, m);
  }

  // ----- a source that repeats one byte

  ghost predicate Uniform(src: seq<byte>) {
    forall i :: 0 <= i < |src| ==> src[i] == src[0]
  }

  lemma UniformWords(src: seq<byte>, i: nat)
    requires Uniform(src) && i + 4 <= |src|
    ensures Load4(src, i) == Load4(src, 0)
  {
    assert src[i..i + 4] == src[0..4];
  }

  lemma UniformRepeats(src: seq<byte>, i: nat, j: nat, n: nat)
    requires Uniform(src) && i + n <= |src| && j + n <= |src|
    ensures SameBytes(src, i, j, n)
  {
  }
}
