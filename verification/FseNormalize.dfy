/** Normalising a histogram to a table of frequencies that sums to the number of states. */
module FseNormalize {
  import opened Bits
  import opened Fse

  /** The rescaled count, rounded to nearest; an occurring symbol gets at least one state. */
  function Rounded(nstates: nat, step: nat, count: nat): nat
    requires 0 < nstates < 0x8000_0000
  {
    RoundedProduct(nstates, count * step, count)
  }

  function RoundedProduct(nstates: nat, product: nat, count: nat): nat
    requires 0 < nstates < 0x8000_0000
  {
    var shift := Clz(nstates) - 1;
    var f := if shift < 0 then 0 else (Shr(product, shift) + 1) / 2;
    if f == 0 && count != 0 then 1 else f
  }

  function Step(total: nat): nat {
    if total == 0 then 0 else 0x8000_0000 / total
  }

  /** The step is 2^31 / total, rounded down. */
  lemma StepIsQuotient(total: nat)
    requires total > 0
    ensures Step(total) * total <= 0x8000_0000 < (Step(total) + 1) * total
  {
    DivMod(0x8000_0000, total);
  }

  /** product * nstates / 2^31, rounded to nearest, halves upwards; 1 for an occurring symbol below that. */
  lemma RoundedNearest(nstates: nat, product: nat, count: nat)
    requires IsPow2(nstates) && nstates <= 0x8000
    ensures var f, exact := RoundedProduct(nstates, product, count), product * nstates;
            if count != 0 && exact < 0x4000_0000 then f == 1
            else 0x8000_0000 * f <= exact + 0x4000_0000 < 0x8000_0000 * (f + 1)
  {
    hide Log2;
    var e := Log2(nstates);
    Pow2Words();
    Log2AtMost(nstates, 15);
    Pow2Add(30 - e, e);
    assert 2 * Pow2(30) == Pow2(31);
    Scaled(product, Pow2(30 - e), nstates, Shr(product, 30 - e));
  }

  lemma Scaled(product: nat, d: nat, n: nat, q: nat)
    requires d > 0 && n > 0 && q == product / d && d * n == 0x4000_0000
    ensures 0x4000_0000 * q <= product * n < 0x4000_0000 * (q + 1)
  {
    DivMod(product, d);
    var r := product - q * d;
    assert product * n == q * (d * n) + r * n;
    MulMonotone(r + 1, d, n);
    assert (r + 1) * n == r * n + n;
  }

  function RoundedTable(nstates: nat, t: seq<nat>): (r: seq<nat>)
    requires 0 < nstates < 0x8000_0000
    ensures |r| == |t|
  {
    seq(|t|, i requires 0 <= i < |t| => Rounded(nstates, Step(Sum(t)), t[i]))
  }

  /** How many states can be taken away while every used symbol keeps one. */
  function Excess(freq: seq<nat>): nat {
    if freq == [] then 0
    else
      var last := freq[|freq| - 1];
      Excess(freq[..|freq| - 1]) + (if last > 1 then last - 1 else 0)
  }

  lemma {:induction false} SumUpdate(s: seq<nat>, i: nat, v: nat)
    requires i < |s|
    ensures Sum(s[i := v]) == Sum(s) - s[i] + v
  {
    var n := |s| - 1;
    if i < n {
      SumUpdate(s[..n], i, v);
      assert s[i := v][..n] == s[..n][i := v];
    } else {
      assert s[i := v][..n] == s[..n];
    }
  }

  lemma {:induction false} ExcessUpdate(s: seq<nat>, i: nat, v: nat)
    requires i < |s| && 1 <= v <= s[i]
    ensures Excess(s[i := v]) == Excess(s) - (s[i] - v)
  {
    var n := |s| - 1;
    if i < n {
      ExcessUpdate(s[..n], i, v);
      assert s[i := v][..n] == s[..n][i := v];
    } else {
      assert s[i := v][..n] == s[..n];
    }
  }

  lemma {:induction false} ExcessCoversSum(s: seq<nat>)
    ensures Sum(s) <= Excess(s) + |s|
  {
    if s != [] {
      ExcessCoversSum(s[..|s| - 1]);
    }
  }

  lemma {:induction false} NoExcess(s: seq<nat>)
    requires forall i :: 0 <= i < |s| ==> s[i] <= 1
    ensures Excess(s) == 0
  {
    if s != [] {
      NoExcess(s[..|s| - 1]);
    }
  }

  lemma {:induction false} ElementAtMostSum(s: seq<nat>, i: nat)
    requires i < |s|
    ensures s[i] <= Sum(s)
  {
    assert s[..|s|] == s;
    OffsetBound(s, i);
  }

  lemma {:induction false} SumZero(s: seq<nat>)
    requires forall i :: 0 <= i < |s| ==> s[i] == 0
    ensures Sum(s) == 0
  {
    if s != [] {
      SumZero(s[..|s| - 1]);
    }
  }

  /** t[i] * highprec_step does not wrap. */
  lemma StepProduct(t: seq<nat>, i: nat)
    requires i < |t|
    ensures t[i] * Step(Sum(t)) <= 0x8000_0000
    ensures t[i] == 0 ==> t[i] * Step(Sum(t)) == 0
  {
    ElementAtMostSum(t, i);
    var total := Sum(t);
    if total > 0 {
      DivMod(0x8000_0000, total);
      MulMonotone(t[i], total, Step(total));
      assert total * Step(total) == Step(total) * total;
    }
  }

  /** Rescaling never exceeds nstates, and leaves symbols that do not occur at zero. */
  lemma RoundedBound(nstates: nat, t: seq<nat>, i: nat)
    requires IsPow2(nstates) && nstates <= 0x8000 && i < |t|
    ensures Clz(nstates) - 1 >= 0
    ensures Rounded(nstates, Step(Sum(t)), t[i]) <= nstates
    ensures t[i] == 0 ==> Rounded(nstates, Step(Sum(t)), t[i]) == 0
  {
    hide Shr, Log2;
    StepProduct(t, i);
    var lg := Log2(nstates);
    Pow2Words();
    Log2AtMost(nstates, 15);
    Pow2AsShift(31, 30 - lg);
    ShrMonotone(t[i] * Step(Sum(t)), 0x8000_0000, 30 - lg);
    assert Pow2(lg + 1) == 2 * nstates;
    ShrAtMost(0, 30 - lg);
  }

  /** What one pass takes from a symbol unless the overrun runs out. */
  function Share(f: nat, shift: nat): (n: nat)
    ensures n <= f && (f > 0 ==> n < f)
  {
    ShrAtMost(if f > 0 then f - 1 else 0, shift);
    if f > 1 then Shr(f - 1, shift) else 0
  }

  function AfterPass(freq: seq<nat>, shift: nat): (r: seq<nat>)
    ensures |r| == |freq|
  {
    seq(|freq|, i requires 0 <= i < |freq| => freq[i] - Share(freq[i], shift))
  }

  /** After k whole passes, which take an eighth, a quarter, a half and everything. */
  function Passed(freq: seq<nat>, k: nat): (r: seq<nat>)
    requires k <= 4
    ensures |r| == |freq|
  {
    if k == 0 then freq else AfterPass(Passed(freq, k - 1), 4 - k)
  }

  /** In the middle of a pass: the symbols before c gave their shares, c at most its share, those behind nothing. */
  ghost predicate PartOfPass(before: seq<nat>, now: seq<nat>, shift: nat, c: nat) {
    && |now| == |before| && c <= |now|
    && forall i :: 0 <= i < |now| ==>
         if i < c then now[i] == before[i] - Share(before[i], shift)
         else if i == c then before[i] - Share(before[i], shift) <= now[i] <= before[i]
         else now[i] == before[i]
  }

  /** k whole passes, and part of the next one up to symbol c. */
  ghost predicate StoppedAt(before: seq<nat>, now: seq<nat>, k: nat, c: nat) {
    k <= 3 && PartOfPass(Passed(before, k), now, 3 - k, c)
  }

  /**
   * fse_adjust_freqs. The pass with shift 0 always removes what is left, so shift never goes negative. With the sum, the
   * last clause determines the result.
   */
  method AdjustFreqs(freq: array<nat>, overrun0: nat)
    requires overrun0 <= Excess(freq[..])
    modifies freq
    ensures Sum(freq[..]) == Sum(old(freq[..])) - overrun0
    ensures forall i :: 0 <= i < freq.Length ==> freq[i] <= old(freq[i]) && (old(freq[i]) > 0 ==> freq[i] > 0)
    ensures if overrun0 == 0 then freq[..] == old(freq[..])
            else exists k: nat, c: nat :: StoppedAt(old(freq[..]), freq[..], k, c)
  {
    hide Sum, Excess, Shr, Share, PartOfPass;
    var overrun := overrun0;
    var shift := 3;
    ghost var before := freq[..];
    ghost var k: nat, c: nat := 0, 0;
    while overrun != 0
      invariant -1 <= shift <= 3 && (shift == -1 ==> overrun == 0)
      invariant Adjusted(before, freq[..], overrun0, overrun)
      invariant overrun != 0 ==> freq[..] == Passed(before, 3 - shift)
      invariant overrun == 0 && overrun0 == 0 ==> freq[..] == before
      invariant overrun == 0 && overrun0 != 0 ==> StoppedAt(before, freq[..], k, c)
      decreases shift
    {
      ghost var start := freq[..];
      var sym := 0;
      k, c := 3 - shift, 0;
      PassStarts(start, shift);
      while sym < freq.Length
        invariant 0 <= sym <= freq.Length && overrun != 0
        invariant Adjusted(before, freq[..], overrun0, overrun)
        invariant PartOfPass(start, freq[..], shift, sym) && (sym < freq.Length ==> freq[sym] == start[sym])
        invariant shift == 0 ==> forall i :: 0 <= i < sym ==> freq[i] <= 1
      {
        ghost var now := freq[..];
        c := sym;
        if freq[sym] > 1 {
          var n := Shr(freq[sym] - 1, shift);
          if n > overrun {
            n := overrun;
          }
          ShareOf(freq[sym], shift);
          TakeAway(before, freq[..], overrun0, overrun, sym, n);
          freq[sym] := freq[sym] - n;
          assert freq[..] == now[sym := now[sym] - n];
          overrun := overrun - n;
          PassStep(start, now, freq[..], shift, sym, n);
          if overrun == 0 {
            break;
          }
        } else {
          ShareOf(freq[sym], shift);
          PassStep(start, now, freq[..], shift, sym, 0);
        }
        NextOfPass(start, freq[..], shift, sym);
        sym := sym + 1;
      }
      if overrun != 0 {
        PassEnds(start, freq[..], shift);
        if shift == 0 {
          NoExcess(freq[..]);
        }
      }
      shift := shift - 1;
    }
  }

  lemma ShareOf(f: nat, shift: nat)
    ensures Share(f, shift) == if f > 1 then Shr(f - 1, shift) else 0
    ensures shift == 0 && f > 1 ==> Share(f, shift) == f - 1
  {
    ShrAtMost(if f > 0 then f - 1 else 0, shift);
  }

  lemma PassStarts(start: seq<nat>, shift: nat)
    ensures PartOfPass(start, start, shift, 0)
  {
  }

  lemma PassStep(start: seq<nat>, now: seq<nat>, next: seq<nat>, shift: nat, sym: nat, n: nat)
    requires PartOfPass(start, now, shift, sym) && sym < |now| && now[sym] == start[sym]
    requires n <= Share(start[sym], shift) && next == now[sym := now[sym] - n]
    ensures PartOfPass(start, next, shift, sym) && next[sym] == start[sym] - n
    ensures forall i :: sym < i < |next| ==> next[i] == start[i]
  {
  }

  /** A symbol that gave its whole share is done. */
  lemma NextOfPass(start: seq<nat>, now: seq<nat>, shift: nat, sym: nat)
    requires PartOfPass(start, now, shift, sym) && sym < |now| && now[sym] == start[sym] - Share(start[sym], shift)
    ensures PartOfPass(start, now, shift, sym + 1)
    ensures sym + 1 < |now| ==> now[sym + 1] == start[sym + 1]
  {
  }

  lemma PassEnds(start: seq<nat>, now: seq<nat>, shift: nat)
    requires PartOfPass(start, now, shift, |start|)
    ensures now == AfterPass(start, shift)
  {
    hide Share;
  }

  ghost predicate Adjusted(before: seq<nat>, now: seq<nat>, overrun0: nat, overrun: nat) {
    && |now| == |before|
    && overrun <= overrun0 && overrun <= Excess(now)
    && Sum(now) - overrun == Sum(before) - overrun0
    && forall i :: 0 <= i < |now| ==> now[i] <= before[i] && (before[i] > 0 ==> now[i] > 0)
  }

  /** Taking n states from a symbol that keeps at least one. */
  lemma TakeAway(before: seq<nat>, now: seq<nat>, overrun0: nat, overrun: nat, sym: nat, n: nat)
    requires Adjusted(before, now, overrun0, overrun)
    requires sym < |now| && n < now[sym] && n <= overrun
    ensures Adjusted(before, now[sym := now[sym] - n], overrun0, overrun - n)
  {
    hide Sum, Excess;
    SumUpdate(now, sym, now[sym] - n);
    ExcessUpdate(now, sym, now[sym] - n);
  }

  /** First half of fse_normalize_freq: rescale every count, in 32-bit words, and remember a most frequent symbol. */
  method RescaleCounts(nstates: nat, t: seq<nat>, freq: array<nat>) returns (remaining: int, maxFreq: nat,
      maxFreqSym: nat)
    requires IsPow2(nstates) && nstates <= 0x8000
    requires 0 < |t| == freq.Length && Sum(t) < 0x1_0000_0000
    modifies freq
    ensures freq[..] == RoundedTable(nstates, t)
    ensures remaining == nstates - Sum(freq[..])
    ensures FirstMost(freq[..], maxFreqSym) && maxFreq == freq[maxFreqSym]
  {
    hide Shr, Log2, Sum, RoundedTable, Step, RoundedProduct;
    var sCount := 0;
    SumEmpty();
    assert t[..|t|] == t;
    for i := 0 to |t|
      invariant sCount == Sum(t[..i])
    {
      SumSnoc(t, i);
      OffsetMonotone(t, i + 1, |t|);
      sCount := (sCount + t[i]) % 0x1_0000_0000;
    }
    assert t[..|t|] == t;
    var highprecStep := Step(sCount);
    remaining, maxFreq, maxFreqSym := nstates, 0, 0;
    ghost var r := RoundedTable(nstates, t);
    for i := 0 to |t|
      invariant freq[..i] == r[..i]
      invariant remaining == nstates - Sum(r[..i])
      invariant maxFreqSym < |t| && (if i > 0 then maxFreq == r[maxFreqSym] else maxFreq == 0 == maxFreqSym)
      invariant forall j :: 0 <= j < i ==> r[j] <= maxFreq
      invariant forall j :: 0 <= j < maxFreqSym ==> r[j] < maxFreq
    {
      RoundedBound(nstates, t, i);
      RoundedAt(nstates, t, i);
      StepProduct(t, i);
      var f := RoundedProduct(nstates, t[i] * highprecStep % 0x1_0000_0000, t[i]);
      assert f == Rounded(nstates, highprecStep, t[i]);
      freq[i] := f;
      assert freq[..i + 1] == freq[..i] + [f] && r[..i + 1] == r[..i] + [f];
      SumSnoc(r, i);
      remaining := remaining - f;
      if f > maxFreq {
        maxFreq, maxFreqSym := f, i;
      }
    }
    assert r[..|t|] == r && freq[..] == freq[..|t|];
  }

  /** What normalisation promises: every state is given out, and every occurring symbol has one. */
  ghost predicate Normalized(nstates: nat, t: seq<nat>, freq: seq<nat>)
    requires 0 < nstates < 0x8000_0000
  {
    && |freq| == |t|
    && ValidFreq(freq, nstates)
    && (forall i :: 0 <= i < |t| && t[i] > 0 ==> freq[i] > 0)
    && var r := RoundedTable(nstates, t);
       exists m: nat :: FirstMost(r, m) &&
         if Sum(r) - nstates < r[m] / 4 then r[m] + nstates >= Sum(r) && freq == r[m := r[m] + nstates - Sum(r)]
         else if Sum(r) == nstates then freq == r
         else exists k: nat, c: nat :: StoppedAt(r, freq, k, c)
  }

  /** The first of the most frequent symbols. */
  ghost predicate FirstMost(r: seq<nat>, m: nat) {
    m < |r| && (forall i :: 0 <= i < |r| ==> r[i] <= r[m]) && forall i :: 0 <= i < m ==> r[i] < r[m]
  }

  /**
   * fse_normalize_freq. A shortfall, or an overrun of less than a quarter of its frequency, is settled with the first of
   * the most frequent symbols; a larger overrun is taken away in passes.
   */
  method NormalizeFreq(nstates: nat, t: seq<nat>, freq: array<nat>)
    requires IsPow2(nstates) && nstates <= 0x8000
    requires 0 < |t| == freq.Length <= nstates && Sum(t) < 0x1_0000_0000
    modifies freq
    ensures Normalized(nstates, t, freq[..])
  {
    hide Sum, Excess, RoundedTable, Log2;
    var remaining, maxFreq, maxFreqSym := RescaleCounts(nstates, t, freq);
    ghost var r := freq[..];
    RoundedNonzero(nstates, t);
    if -remaining < maxFreq / 4 {
      freq[maxFreqSym] := freq[maxFreqSym] + remaining;
      assert freq[..] == r[maxFreqSym := r[maxFreqSym] + remaining];
      ToppedUp(nstates, t, maxFreqSym, remaining);
    } else {
      ExcessCoversSum(r);
      AdjustFreqs(freq, -remaining);
      TakenAway(nstates, t, maxFreqSym, freq[..]);
    }
  }

  /** The difference goes to the most frequent symbol. */
  lemma ToppedUp(nstates: nat, t: seq<nat>, m: nat, remaining: int)
    requires IsPow2(nstates) && nstates <= 0x8000 && |t| > 0 && m < |t|
    requires var r := RoundedTable(nstates, t);
             remaining == nstates - Sum(r) && -remaining < r[m] / 4 && FirstMost(r, m)
             && forall i :: 0 <= i < |t| && t[i] > 0 ==> r[i] > 0
    ensures var r := RoundedTable(nstates, t); Normalized(nstates, t, r[m := r[m] + remaining])
  {
    hide Sum, RoundedTable, Log2;
    var r := RoundedTable(nstates, t);
    SumUpdate(r, m, r[m] + remaining);
    assert r[m := r[m] + remaining] == r[m := r[m] + nstates - Sum(r)];
  }

  /** The overrun is taken away. */
  lemma TakenAway(nstates: nat, t: seq<nat>, m: nat, freq: seq<nat>)
    requires IsPow2(nstates) && nstates <= 0x8000 && |t| == |freq|
    requires var r := RoundedTable(nstates, t);
             && FirstMost(r, m) && Sum(r) - nstates >= r[m] / 4 && Sum(freq) == nstates
             && (forall i :: 0 <= i < |t| ==> freq[i] <= r[i] && (r[i] > 0 ==> freq[i] > 0))
             && (forall i :: 0 <= i < |t| && t[i] > 0 ==> r[i] > 0)
             && if Sum(r) == nstates then freq == r else exists k: nat, c: nat :: StoppedAt(r, freq, k, c)
    ensures Normalized(nstates, t, freq)
  {
    hide Sum, RoundedTable, Log2, StoppedAt;
    assert FirstMost(RoundedTable(nstates, t), m);
  }

  lemma SumEmpty()
    ensures Sum([]) == 0
  {
  }

  lemma SumSnoc(s: seq<nat>, i: nat)
    requires i < |s|
    ensures Sum(s[..i + 1]) == Sum(s[..i]) + s[i]
  {
    assert s[..i + 1][..i] == s[..i];
  }

  lemma RoundedAt(nstates: nat, t: seq<nat>, i: nat)
    requires 0 < nstates < 0x8000_0000 && i < |t|
    ensures RoundedTable(nstates, t)[i] == Rounded(nstates, Step(Sum(t)), t[i])
  {
  }

  lemma RoundedNonzero(nstates: nat, t: seq<nat>)
    requires 0 < nstates < 0x8000_0000
    ensures forall i :: 0 <= i < |t| && t[i] > 0 ==> RoundedTable(nstates, t)[i] > 0
  {
  }
}
