/** The meaning of a list of (literal length, match length, distance) triples. */
module Lz77 {
  import opened Bits

  datatype LMD = LMD(l: nat, m: nat, d: nat)

  /** out[i] = out[i - d], byte after byte: the reference meaning of a match, overlapping or not. */
  function CopyMatch(out: seq<byte>, d: nat, m: nat): (r: seq<byte>)
    requires 1 <= d <= |out|
    ensures |r| == |out| + m && r[..|out|] == out
    decreases m
  {
    if m == 0 then out else CopyMatch(out + [out[|out| - d]], d, m - 1)
  }

  function LitSum(lmds: seq<LMD>): nat {
    if lmds == [] then 0 else lmds[0].l + LitSum(lmds[1..])
  }

  /** Enough literals for every triple, and every distance inside what has been produced. */
  ghost predicate Expandable(produced: nat, nLiterals: nat, lmds: seq<LMD>)
    decreases |lmds|
  {
    lmds == []
    || (var x := lmds[0];
        && x.l <= nLiterals && 1 <= x.d <= produced + x.l
        && Expandable(produced + x.l + x.m, nLiterals - x.l, lmds[1..]))
  }

  /** Appends to out what the triples stand for, taking literals from lits in order. */
  ghost function Expand(out: seq<byte>, lits: seq<byte>, lmds: seq<LMD>): seq<byte>
    requires Expandable(|out|, |lits|, lmds)
    decreases |lmds|
  {
    if lmds == [] then out
    else
      var x := lmds[0];
      Expand(CopyMatch(out + lits[..x.l], x.d, x.m), lits[x.l..], lmds[1..])
  }

  // ----- matches

  lemma {:induction false} CopyMatchSplit(out: seq<byte>, d: nat, j: nat, m: nat)
    requires 1 <= d <= |out| && j <= m
    ensures CopyMatch(CopyMatch(out, d, j), d, m - j) == CopyMatch(out, d, m)
    decreases j
  {
    if j > 0 {
      CopyMatchSplit(out + [out[|out| - d]], d, j - 1, m - 1);
    }
  }

  lemma {:induction false} CopyMatchSnoc(out: seq<byte>, d: nat, m: nat)
    requires 1 <= d <= |out|
    ensures CopyMatch(out, d, m + 1) == CopyMatch(out, d, m) + [CopyMatch(out, d, m)[|out| + m - d]]
  {
    CopyMatchSplit(out, d, m, m + 1);
    var r := CopyMatch(out, d, m);
    assert CopyMatch(r, d, 1) == CopyMatch(r + [r[|r| - d]], d, 0);
  }

  /** Every produced byte equals the one d before it. */
  lemma {:induction false} CopyMatchAt(out: seq<byte>, d: nat, m: nat, i: nat)
    requires 1 <= d <= |out| <= i < |out| + m
    ensures CopyMatch(out, d, m)[i] == CopyMatch(out, d, m)[i - d]
    decreases m
  {
    CopyMatchSnoc(out, d, m - 1);
    if i < |out| + m - 1 {
      CopyMatchAt(out, d, m - 1, i);
    }
  }

  /** A repeat in the source is reproduced by copying. */
  lemma {:induction false} CopyMatchRepeat(src: seq<byte>, p: nat, d: nat, m: nat)
    requires 1 <= d <= p && p + m <= |src|
    requires forall i :: p <= i < p + m ==> src[i] == src[i - d]
    ensures CopyMatch(src[..p], d, m) == src[..p + m]
    decreases m
  {
    if m > 0 {
      assert src[..p] + [src[..p][p - d]] == src[..p + 1];
      CopyMatchRepeat(src, p + 1, d, m - 1);
    }
  }

  function MatchSum(lmds: seq<LMD>): nat {
    if lmds == [] then 0 else lmds[0].m + MatchSum(lmds[1..])
  }

  /** The triples append their literals and their matches, and nothing else. */
  lemma {:induction false} ExpandLength(out: seq<byte>, lits: seq<byte>, lmds: seq<LMD>)
    requires Expandable(|out|, |lits|, lmds)
    ensures |Expand(out, lits, lmds)| == |out| + LitSum(lmds) + MatchSum(lmds)
    decreases |lmds|
  {
    hide CopyMatch;
    if lmds != [] {
      var x := lmds[0];
      ExpandLength(CopyMatch(out + lits[..x.l], x.d, x.m), lits[x.l..], lmds[1..]);
    }
  }

  // ----- appending a triple

  lemma {:induction false} ExpandAppend(out: seq<byte>, lits: seq<byte>, lmds: seq<LMD>, more: seq<byte>, x: LMD)
    requires Expandable(|out|, |lits|, lmds) && LitSum(lmds) == |lits| && x.l == |more|
    requires 1 <= x.d <= |Expand(out, lits, lmds)| + x.l
    ensures LitSum(lmds + [x]) == |lits + more|
    ensures Expandable(|out|, |lits + more|, lmds + [x])
    ensures Expand(out, lits + more, lmds + [x]) == CopyMatch(Expand(out, lits, lmds) + more, x.d, x.m)
    decreases |lmds|
  {
    hide CopyMatch;
    if lmds == [] {
      assert lits == [] && lits + more == more && lmds + [x] == [x];
      assert more[..x.l] == more && [x][1..] == [];
      var out' := CopyMatch(out + more, x.d, x.m);
      assert Expand(out', more[x.l..], []) == out';
    } else {
      var y := lmds[0];
      var out' := CopyMatch(out + lits[..y.l], y.d, y.m);
      var full := lmds + [x];
      assert full[0] == y && full[1..] == lmds[1..] + [x];
      assert (lits + more)[..y.l] == lits[..y.l] && (lits + more)[y.l..] == lits[y.l..] + more;
      ExpandAppend(out', lits[y.l..], lmds[1..], more, x);
    }
  }

  /** Literals that no triple uses, such as the padding to a multiple of four, do not matter. */
  lemma {:induction false} ExpandIgnoresPadding(out: seq<byte>, lits: seq<byte>, lmds: seq<LMD>, pad: seq<byte>)
    requires Expandable(|out|, |lits|, lmds)
    ensures Expandable(|out|, |lits + pad|, lmds)
    ensures Expand(out, lits + pad, lmds) == Expand(out, lits, lmds)
    decreases |lmds|
  {
    hide CopyMatch;
    if lmds != [] {
      var y := lmds[0];
      var out' := CopyMatch(out + lits[..y.l], y.d, y.m);
      assert (lits + pad)[..y.l] == lits[..y.l] && (lits + pad)[y.l..] == lits[y.l..] + pad;
      ExpandIgnoresPadding(out', lits[y.l..], lmds[1..], pad);
    }
  }

  // ----- distances relative to the previous one

  /** A distance equal to the previous one is stored as 0. */
  function DeltaDistances(lmds: seq<LMD>, prev: nat): (r: seq<LMD>)
    ensures |r| == |lmds|
  {
    if lmds == [] then []
    else if lmds[0].d == prev then [lmds[0].(d := 0)] + DeltaDistances(lmds[1..], prev)
    else [lmds[0]] + DeltaDistances(lmds[1..], lmds[0].d)
  }

  /** The inverse: a stored 0 stands for the previous distance. */
  function ResolveDistances(lmds: seq<LMD>, prev: nat): (r: seq<LMD>)
    ensures |r| == |lmds|
  {
    if lmds == [] then []
    else if lmds[0].d == 0 then [lmds[0].(d := prev)] + ResolveDistances(lmds[1..], prev)
    else [lmds[0]] + ResolveDistances(lmds[1..], lmds[0].d)
  }

  lemma {:induction false} ResolveDelta(lmds: seq<LMD>, prev: nat)
    requires forall i :: 0 <= i < |lmds| ==> lmds[i].d >= 1
    ensures ResolveDistances(DeltaDistances(lmds, prev), prev) == lmds
  {
    if lmds != [] {
      ResolveDelta(lmds[1..], lmds[0].d);
      assert DeltaDistances(lmds, prev)[1..] == DeltaDistances(lmds[1..], lmds[0].d);
    }
  }
}
