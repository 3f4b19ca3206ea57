/** Any values, written with any flushes and read back with any refills: the bit streams are one stack. */
module BitStack {
  import opened Bits
  import opened BitStream

  /** A value of n bits, or a point where the writer flushes, or the reader refills. */
  datatype Step = Value(n: nat, b: nat) | Refill

  function PushAll(bits: seq<bool>, steps: seq<Step>): seq<bool> {
    if steps == [] then bits
    else
      var below, last := PushAll(bits, steps[..|steps| - 1]), steps[|steps| - 1];
      if last.Refill? then below else Push(below, last.n, last.b)
  }

  /** The values alone, in the order of writing. */
  function Values(steps: seq<Step>): seq<Step> {
    if steps == [] then []
    else
      var before, last := Values(steps[..|steps| - 1]), steps[|steps| - 1];
      if last.Refill? then before else before + [last]
  }

  /** The number of bits behind the last refill. */
  function Load(steps: seq<Step>): nat {
    if steps == [] || steps[|steps| - 1].Refill? then 0
    else Load(steps[..|steps| - 1]) + steps[|steps| - 1].n
  }

  /** Values fit their widths, and at most 56 bits lie between two refills. */
  ghost predicate Paced(steps: seq<Step>) {
    steps != [] ==>
      var last := steps[|steps| - 1];
      Paced(steps[..|steps| - 1]) && (last.Value? ==> last.b < Pow2(last.n) && Load(steps) <= REFILL_BITS)
  }

  /** Where the refills are does not matter for the stack. */
  lemma {:induction false} PushAllValues(bits: seq<bool>, steps: seq<Step>)
    ensures PushAll(bits, steps) == PushAll(bits, Values(steps))
  {
    if steps != [] {
      PushAllValues(bits, steps[..|steps| - 1]);
      var last := steps[|steps| - 1];
      if last.Value? {
        assert Values(steps)[..|Values(steps)| - 1] == Values(steps[..|steps| - 1]);
      }
    }
  }

  lemma {:induction false} PushAllAbove(below: seq<bool>, steps: seq<Step>)
    ensures PushAll(below, steps) == below + PushAll([], steps)
  {
    hide ToBits;
    if steps != [] {
      PushAllAbove(below, steps[..|steps| - 1]);
    }
  }

  lemma {:induction false} PushAllGrows(bits: seq<bool>, steps: seq<Step>)
    ensures |PushAll(bits, steps)| >= |bits|
  {
    hide ToBits;
    if steps != [] {
      PushAllGrows(bits, steps[..|steps| - 1]);
    }
  }

  lemma {:induction false} PacedPrefix(steps: seq<Step>, i: nat)
    requires Paced(steps) && i <= |steps|
    ensures Paced(steps[..i])
  {
    if i < |steps| {
      PacedPrefix(steps[..|steps| - 1], i);
      assert steps[..|steps| - 1][..i] == steps[..i];
    } else {
      assert steps[..i] == steps;
    }
  }

  /** Writes the values in order. The accumulator never holds more than 63 bits. */
  method WriteAll(steps: seq<Step>) returns (out: OutStream)
    requires Paced(steps)
    ensures fresh(out) && out.buf == PackBits(PushAll([], steps))
    ensures out.accumNbits == |PushAll([], steps)| - 8 * |out.buf|
  {
    hide OutStream.Bits, Push, PackBits;
    out := new OutStream();
    for i := 0 to |steps|
      invariant fresh(out) && out.Valid() && out.accumNbits <= 7 + Load(steps[..i])
      invariant out.Bits() == PushAll([], steps[..i])
    {
      assert steps[..i + 1][..i] == steps[..i];
      PacedPrefix(steps, i + 1);
      match steps[i]
      case Refill => out.Flush();
      case Value(n, b) => out.PushBits(n, b);
    }
    assert steps[..|steps|] == steps;
    LoadBound(steps);
    out.Finish();
  }

  /** Reads the values backwards, refilling at the points given. */
  method ReadAll(input: InStream, steps: seq<Step>, ghost below: seq<bool>) returns (ok: bool, values: seq<nat>)
    requires Paced(steps) && input.Valid() && input.accumNbits >= REFILL_BITS
    requires input.Bits() == PushAll(below, steps) && |below| >= REFILL_BITS
    modifies input
    ensures ok && input.Valid() && input.Bits() == below
    ensures |values| == |Values(steps)| && forall i :: 0 <= i < |values| ==>
        Values(steps)[i].Value? && values[i] == Values(steps)[i].b
  {
    hide InStream.Bits, Push, Top, Pop;
    values := [];
    assert steps[..|steps|] == steps;
    SuffixNone(steps);
    LoadBound(steps);
    var i: nat := |steps|;
    while i > 0
      invariant i <= |steps| && input.Valid() && input.accumNbits >= Load(steps[..i])
      invariant input.Bits() == PushAll(below, steps[..i])
      invariant Values(steps) == Values(steps[..i]) + ValuesOf(steps, i) && SameValues(values, ValuesOf(steps, i))
    {
      i := i - 1;
      assert steps[..i + 1][..i] == steps[..i];
      PacedPrefix(steps, i + 1);
      PacedPrefix(steps, i);
      LoadBound(steps[..i]);
      match steps[i] {
        case Refill =>
          PushAllGrows(below, steps[..i]);
          ok := input.Flush(0);
        case Value(n, b) =>
          PopPush(PushAll(below, steps[..i]), n, b);
          var v := input.Pull(n);
          values := [v] + values;
      }
    }
    assert steps[..0] == [];
    ok := true;
  }

  ghost function ValuesOf(steps: seq<Step>, i: nat): seq<Step>
    requires i <= |steps|
    decreases |steps| - i
  {
    if i == |steps| then [] else if steps[i].Refill? then ValuesOf(steps, i + 1) else [steps[i]] + ValuesOf(steps, i + 1)
  }

  ghost predicate SameValues(values: seq<nat>, steps: seq<Step>) {
    |values| == |steps| && forall i :: 0 <= i < |values| ==> steps[i].Value? && values[i] == steps[i].b
  }

  lemma SuffixNone(steps: seq<Step>)
    ensures ValuesOf(steps, |steps|) == [] && Values(steps) == Values(steps) + []
  {
  }

  lemma LoadBound(steps: seq<Step>)
    requires Paced(steps)
    ensures Load(steps) <= REFILL_BITS
  {
  }

  /**
   * Whatever values are written behind at least 8 bytes, with whatever flushes, reading backwards from the end
   * returns them all, with whatever refills, and uncovers the bytes in front; both sides only have to keep to 56 bits
   * between two of them.
   */
  method WriteAndRead(front: seq<byte>, written: seq<Step>, read: seq<Step>)
    returns (ok: bool, values: seq<nat>, input: InStream)
    requires |front| >= 8 && Paced(written) && Paced(read) && Values(read) == Values(written)
    ensures ok && |values| == |Values(written)|
    ensures forall i :: 0 <= i < |values| ==> Values(written)[i].Value? && values[i] == Values(written)[i].b
    ensures fresh(input) && input.Valid() && input.Bits() == BytesToBits(front)
  {
    hide PackBits, PushAll, InitBits, Values, Load, Paced, InStream.Bits, BytesToBits;
    var out := WriteAll(written);
    var src := front + out.buf;
    ghost var bits, below := PushAll([], written), BytesToBits(front);
    assert src[|front|..|src|] == out.buf && src[..|front|] == front;
    InitBitsOfPacked(src, |front|, |src|, 0, bits);
    input := new InStream(src);
    ok := input.Init(out.accumNbits, |src|, 0);
    PushAllValues([], written);
    PushAllValues(below, read);
    PushAllAbove(below, Values(written));
    ok, values := ReadAll(input, read, below);
  }
}
