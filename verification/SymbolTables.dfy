/** Literal lengths, match lengths and distances as a symbol plus extra bits. */
module SymbolTables {
  import opened Bits

  const MAX_L_VALUE := 315
  const MAX_M_VALUE := 2359
  const MAX_D_VALUE := 262139

  const L_SYMBOLS := 20
  const M_SYMBOLS := 20
  const D_SYMBOLS := 64
  const LITERAL_SYMBOLS := 256

  const L_STATES := 64
  const M_STATES := 64
  const D_STATES := 256
  const LITERAL_STATES := 1024

  const L_EXTRA_BITS: seq<nat> := [0, 0, 0, 0, 0, 0, 0, 0, 0, 0, 0, 0, 0, 0, 0, 0, 2, 3, 5, 8]
  const L_BASE_VALUE: seq<nat> := [0, 1, 2, 3, 4, 5, 6, 7, 8, 9, 10, 11, 12, 13, 14, 15, 16, 20, 28, 60]
  const M_EXTRA_BITS: seq<nat> := [0, 0, 0, 0, 0, 0, 0, 0, 0, 0, 0, 0, 0, 0, 0, 0, 3, 5, 8, 11]
  const M_BASE_VALUE: seq<nat> := [0, 1, 2, 3, 4, 5, 6, 7, 8, 9, 10, 11, 12, 13, 14, 15, 16, 24, 56, 312]
  const D_EXTRA_BITS_0: seq<nat> := [0, 0, 0, 0, 1, 1, 1, 1, 2, 2, 2, 2, 3, 3, 3, 3]
  const D_EXTRA_BITS_1: seq<nat> := [4, 4, 4, 4, 5, 5, 5, 5, 6, 6, 6, 6, 7, 7, 7, 7]
  const D_EXTRA_BITS_2: seq<nat> := [8, 8, 8, 8, 9, 9, 9, 9, 10, 10, 10, 10, 11, 11, 11, 11]
  const D_EXTRA_BITS_3: seq<nat> := [12, 12, 12, 12, 13, 13, 13, 13, 14, 14, 14, 14, 15, 15, 15, 15]
  const D_EXTRA_BITS: seq<nat> := D_EXTRA_BITS_0 + D_EXTRA_BITS_1 + D_EXTRA_BITS_2 + D_EXTRA_BITS_3
  const D_BASE_VALUE_0: seq<nat> := [0, 1, 2, 3, 4, 6, 8, 10, 12, 16, 20, 24, 28, 36, 44, 52]
  const D_BASE_VALUE_1: seq<nat> := [60, 76, 92, 108, 124, 156, 188, 220, 252, 316, 380, 444, 508, 636, 764, 892]
  const D_BASE_VALUE_2: seq<nat> := [
    1020, 1276, 1532, 1788, 2044, 2556, 3068, 3580, 4092, 5116, 6140, 7164, 8188, 10236, 12284, 14332]
  const D_BASE_VALUE_3: seq<nat> := [
    16380, 20476, 24572, 28668, 32764, 40956, 49148, 57340, 65532, 81916, 98300, 114684, 131068, 163836, 196604, 229372]
  const D_BASE_VALUE: seq<nat> := D_BASE_VALUE_0 + D_BASE_VALUE_1 + D_BASE_VALUE_2 + D_BASE_VALUE_3

  /** l_base_from_value. */
  function LSymbol(value: nat): nat {
    if value < 16 then value else if value < 20 then 16 else if value < 28 then 17 else if value < 60 then 18 else 19
  }

  /** m_base_from_value. */
  function MSymbol(value: nat): nat {
    if value < 16 then value else if value < 24 then 16 else if value < 56 then 17 else if value < 312 then 18 else 19
  }

  /** The first 60 entries of the distance symbol table; the table repeats them, shifted, in four rows of 64. */
  function DRow(j: nat): nat {
    if j < 4 then j else if j < 12 then 4 + (j - 4) / 2 else if j < 28 then 8 + (j - 12) / 4 else 12 + (j - 28) / 8
  }

  /** d_base_from_value. */
  function DSymbol(value: nat): nat {
    if value < 60 then DRow(value)
    else if value < 1020 then 16 + DRow((value - 60) / 16)
    else if value < 16380 then 32 + DRow((value - 1020) / 256)
    else 48 + DRow((value - 16380) / 4096)
  }

  /** A value is split into a base and extra bits that fit their width. */
  ghost predicate Splits(value: nat, sym: nat, vbits: seq<nat>, vbase: seq<nat>) {
    && sym < |vbits| == |vbase|
    && vbase[sym] <= value < vbase[sym] + Pow2(vbits[sym])
  }

  /** The ranges of the symbols follow each other without gap or overlap, from `start` up to `end`. */
  ghost predicate Tiles(vbits: seq<nat>, vbase: seq<nat>, start: nat, end: nat) {
    && |vbits| == |vbase| > 0 && vbase[0] == start
    && (forall i :: 0 <= i < |vbase| - 1 ==> vbase[i + 1] == vbase[i] + Pow2(vbits[i]))
    && vbase[|vbase| - 1] + Pow2(vbits[|vbits| - 1]) == end
  }

  /** In such a table a value has one symbol only. */
  lemma OneSymbol(vbits: seq<nat>, vbase: seq<nat>, end: nat, value: nat, a: nat, b: nat)
    requires Tiles(vbits, vbase, 0, end) && Splits(value, a, vbits, vbase) && Splits(value, b, vbits, vbase)
    ensures a == b
  {
    hide Pow2;
    if a < b {
      LaterRange(vbits, vbase, end, a, b);
    } else if b < a {
      LaterRange(vbits, vbase, end, b, a);
    }
  }

  lemma {:induction false} LaterRange(vbits: seq<nat>, vbase: seq<nat>, end: nat, a: nat, b: nat)
    requires Tiles(vbits, vbase, 0, end) && a < b < |vbase|
    ensures vbase[a] + Pow2(vbits[a]) <= vbase[b]
    decreases b
  {
    hide Pow2;
    if a < b - 1 {
      LaterRange(vbits, vbase, end, a, b - 1);
      assert vbase[b - 1 + 1] == vbase[b - 1] + Pow2(vbits[b - 1]);
    } else {
      assert vbase[a + 1] == vbase[a] + Pow2(vbits[a]);
    }
  }

  lemma TablesTile()
    ensures Tiles(L_EXTRA_BITS, L_BASE_VALUE, 0, MAX_L_VALUE + 1)
    ensures Tiles(M_EXTRA_BITS, M_BASE_VALUE, 0, MAX_M_VALUE + 1)
    ensures Tiles(D_EXTRA_BITS, D_BASE_VALUE, 0, MAX_D_VALUE + 1)
  {
    Pow2Values();
    assert Pow2(11) == 2048;
    DTiles();
  }

  lemma LSplits(value: nat)
    requires value <= MAX_L_VALUE
    ensures forall sym :: Splits(value, sym, L_EXTRA_BITS, L_BASE_VALUE) <==> sym == LSymbol(value)
  {
    LInSymbol(value);
    TablesTile();
    hide Tiles, Splits, LSymbol;
    forall sym | Splits(value, sym, L_EXTRA_BITS, L_BASE_VALUE)
      ensures sym == LSymbol(value)
    {
      OneSymbol(L_EXTRA_BITS, L_BASE_VALUE, MAX_L_VALUE + 1, value, sym, LSymbol(value));
    }
  }

  lemma MSplits(value: nat)
    requires value <= MAX_M_VALUE
    ensures forall sym :: Splits(value, sym, M_EXTRA_BITS, M_BASE_VALUE) <==> sym == MSymbol(value)
  {
    MInSymbol(value);
    TablesTile();
    hide Tiles, Splits, MSymbol;
    forall sym | Splits(value, sym, M_EXTRA_BITS, M_BASE_VALUE)
      ensures sym == MSymbol(value)
    {
      OneSymbol(M_EXTRA_BITS, M_BASE_VALUE, MAX_M_VALUE + 1, value, sym, MSymbol(value));
    }
  }

  lemma DSplits(value: nat)
    requires value <= MAX_D_VALUE
    ensures forall sym :: Splits(value, sym, D_EXTRA_BITS, D_BASE_VALUE) <==> sym == DSymbol(value)
  {
    DInSymbol(value);
    TablesTile();
    hide Tiles, Splits, DSymbol;
    forall sym | Splits(value, sym, D_EXTRA_BITS, D_BASE_VALUE)
      ensures sym == DSymbol(value)
    {
      OneSymbol(D_EXTRA_BITS, D_BASE_VALUE, MAX_D_VALUE + 1, value, sym, DSymbol(value));
    }
  }

  lemma LInSymbol(value: nat)
    requires value <= MAX_L_VALUE
    ensures Splits(value, LSymbol(value), L_EXTRA_BITS, L_BASE_VALUE)
  {
    Pow2Values();
  }

  lemma MInSymbol(value: nat)
    requires value <= MAX_M_VALUE
    ensures Splits(value, MSymbol(value), M_EXTRA_BITS, M_BASE_VALUE)
  {
    Pow2Values();
    assert Pow2(11) == 2048;
  }

  lemma DInSymbol(value: nat)
    requires value <= MAX_D_VALUE
    ensures Splits(value, DSymbol(value), D_EXTRA_BITS, D_BASE_VALUE)
  {
    RowScales();
    hide DRow, Splits, Pow2;
    if value < 60 {
      DSplitsInRow(value, 0, value);
    } else if value < 1020 {
      DSplitsInRow(value, 1, (value - 60) / 16);
    } else if value < 16380 {
      DSplitsInRow(value, 2, (value - 1020) / 256);
    } else {
      DSplitsInRow(value, 3, (value - 16380) / 4096);
    }
  }

  lemma TilesConcat(a: seq<nat>, x: seq<nat>, b: seq<nat>, y: seq<nat>, start: nat, middle: nat, end: nat)
    requires Tiles(a, x, start, middle) && Tiles(b, y, middle, end)
    ensures Tiles(a + b, x + y, start, end)
  {
    hide Pow2;
    forall i | 0 <= i < |x + y| - 1
      ensures (x + y)[i + 1] == (x + y)[i] + Pow2((a + b)[i])
    {
      if i < |x| - 1 {
        assert x[i + 1] == x[i] + Pow2(a[i]);
      } else if i >= |x| {
        assert y[i - |x| + 1] == y[i - |x|] + Pow2(b[i - |x|]);
      }
    }
  }

  /** The distance table tiles row by row. */
  lemma DTiles()
    ensures Tiles(D_EXTRA_BITS, D_BASE_VALUE, 0, MAX_D_VALUE + 1)
  {
    DRow0Tiles();
    DRow1Tiles();
    DRow2Tiles();
    DRow3Tiles();
    hide Tiles;
    FourTile(D_EXTRA_BITS_0, D_BASE_VALUE_0, D_EXTRA_BITS_1, D_BASE_VALUE_1, D_EXTRA_BITS_2, D_BASE_VALUE_2,
      D_EXTRA_BITS_3, D_BASE_VALUE_3);
  }

  lemma FourTile(a: seq<nat>, w: seq<nat>, b: seq<nat>, x: seq<nat>, c: seq<nat>, y: seq<nat>, d: seq<nat>, z: seq<nat>)
    requires Tiles(a, w, 0, 60) && Tiles(b, x, 60, 1020) && Tiles(c, y, 1020, 16380)
    requires Tiles(d, z, 16380, MAX_D_VALUE + 1)
    ensures Tiles(a + b + c + d, w + x + y + z, 0, MAX_D_VALUE + 1)
  {
    hide Tiles;
    TilesConcat(a, w, b, x, 0, 60, 1020);
    TilesConcat(a + b, w + x, c, y, 0, 1020, 16380);
    TilesConcat(a + b + c, w + x + y, d, z, 0, 16380, MAX_D_VALUE + 1);
  }

  lemma DRow0Tiles()
    ensures Tiles(D_EXTRA_BITS_0, D_BASE_VALUE_0, 0, 60)
  {
    Pow2Values();
  }

  lemma DRow1Tiles()
    ensures Tiles(D_EXTRA_BITS_1, D_BASE_VALUE_1, 60, 1020)
  {
    Pow2Values();
  }

  lemma DRow2Tiles()
    ensures Tiles(D_EXTRA_BITS_2, D_BASE_VALUE_2, 1020, 16380)
  {
    Pow2Values();
    assert Pow2(11) == 2048;
  }

  lemma DRow3Tiles()
    ensures Tiles(D_EXTRA_BITS_3, D_BASE_VALUE_3, 16380, MAX_D_VALUE + 1)
  {
    LargePowers();
  }

  lemma LargePowers()
    ensures Pow2(12) == 4096 && Pow2(13) == 8192 && Pow2(14) == 16384 && Pow2(15) == 32768
  {
    Pow2Values();
    assert Pow2(11) == 2048;
  }

  /** The first value of each row. */
  function RowStart(r: nat): nat {
    if r == 0 then 0 else if r == 1 then 60 else if r == 2 then 1020 else 16380
  }

  lemma RowScales()
    ensures Pow2(4 * 0) == 1 && Pow2(4 * 1) == 16 && Pow2(4 * 2) == 256 && Pow2(4 * 3) == 4096
  {
    Pow2Values();
    Pow2Add(8, 4);
  }

  /** Row r is row 0, scaled by 16 to the r and shifted. */
  lemma DTable(r: nat, i: nat)
    requires r < 4 && i < 16
    ensures |D_BASE_VALUE| == |D_EXTRA_BITS| == D_SYMBOLS
    ensures D_BASE_VALUE[16 * r + i] == RowStart(r) + D_BASE_VALUE_0[i] * Pow2(4 * r)
    ensures D_EXTRA_BITS[16 * r + i] == 4 * r + i / 4
  {
    RowScales();
    FourRows(D_BASE_VALUE_0, D_BASE_VALUE_1, D_BASE_VALUE_2, D_BASE_VALUE_3, r, i);
    FourRows(D_EXTRA_BITS_0, D_EXTRA_BITS_1, D_EXTRA_BITS_2, D_EXTRA_BITS_3, r, i);
    DTable0(i);
    DTable1(i);
    DTable2(i);
    DTable3(i);
  }

  lemma FourRows(a: seq<nat>, b: seq<nat>, c: seq<nat>, d: seq<nat>, r: nat, i: nat)
    requires |a| == |b| == |c| == |d| == 16 && r < 4 && i < 16
    ensures (a + b + c + d)[16 * r + i] == (if r == 0 then a else if r == 1 then b else if r == 2 then c else d)[i]
  {
  }

  lemma DTable0(i: nat)
    requires i < 16
    ensures D_EXTRA_BITS_0[i] == i / 4
  {
  }

  lemma DTable1(i: nat)
    requires i < 16
    ensures D_BASE_VALUE_1[i] == 60 + D_BASE_VALUE_0[i] * 16 && D_EXTRA_BITS_1[i] == 4 + i / 4
  {
  }

  lemma DTable2(i: nat)
    requires i < 16
    ensures D_BASE_VALUE_2[i] == 1020 + D_BASE_VALUE_0[i] * 256 && D_EXTRA_BITS_2[i] == 8 + i / 4
  {
  }

  lemma DTable3(i: nat)
    requires i < 16
    ensures D_BASE_VALUE_3[i] == 16380 + D_BASE_VALUE_0[i] * 4096 && D_EXTRA_BITS_3[i] == 12 + i / 4
  {
  }

  lemma DRowSplits(j: nat)
    requires j < 60
    ensures var i := DRow(j); i < 16 && D_BASE_VALUE_0[i] <= j < D_BASE_VALUE_0[i] + Pow2(i / 4)
  {
    Pow2Values();
  }

  lemma DSplitsInRow(value: nat, r: nat, j: nat)
    requires r < 4 && RowStart(r) <= value && j == (value - RowStart(r)) / Pow2(4 * r) < 60
    ensures Splits(value, 16 * r + DRow(j), D_EXTRA_BITS, D_BASE_VALUE)
  {
    DRowSplits(j);
    DTable(r, DRow(j));
    hide Pow2, DRow, RowStart;
    InRow(D_EXTRA_BITS, D_BASE_VALUE, 16 * r + DRow(j), value, RowStart(r), r, j, D_BASE_VALUE_0[DRow(j)], DRow(j) / 4);
  }

  lemma InRow(vbits: seq<nat>, vbase: seq<nat>, sym: nat, value: nat, start: nat, r: nat, j: nat, base: nat, n: nat)
    requires start <= value && j == (value - start) / Pow2(4 * r) && base <= j < base + Pow2(n)
    requires sym < |vbits| == |vbase| && vbase[sym] == start + base * Pow2(4 * r) && vbits[sym] == 4 * r + n
    ensures Splits(value, sym, vbits, vbase)
  {
    hide Pow2;
    Pow2Add(4 * r, n);
    ScaledSplit(value - start, Pow2(4 * r), j, base, Pow2(n));
  }

  lemma ScaledSplit(v: nat, scale: nat, j: nat, base: nat, width: nat)
    requires scale > 0 && j == v / scale && base <= j < base + width
    ensures base * scale <= v < base * scale + scale * width
  {
    DivMod(v, scale);
    MulMonotone(base, j, scale);
    MulMonotone(j + 1, base + width, scale);
  }
}
