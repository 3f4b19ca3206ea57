/** What a BOM store holds, its bytes, and what each mutation does to it. */
module BomLayout {
  import opened Bits
  import opened Options
  import opened BomFormat

  /** An index slot: unused, or a block of the data section, by its offset there. */
  datatype Slot = Free | Block(offset: nat, length: nat)

  /**
   * A store: the slots in use, `spare` reserved slots before the free list, the variables, the unused bytes behind
   * them, and the data section, which ends the file.
   */
  datatype Store = Store(blockCount: nat, slots: seq<Slot>, spare: nat, vars: seq<Var>, slack: seq<byte>, data: seq<byte>)

  function IndexLength(s: Store): nat {
    4 + 8 * |s.slots| + 8 * s.spare + FREELIST_SIZE
  }

  ghost function VarsRegion(s: Store): seq<byte>
    requires VarsFit(s.vars)
  {
    BE(|s.vars|) + VarsBytes(s.vars) + s.slack
  }

  ghost function DataStart(s: Store): nat
    requires VarsFit(s.vars)
  {
    HEADER_SIZE + IndexLength(s) + |VarsRegion(s)|
  }

  function EntryOf(slot: Slot, base: nat): Entry {
    match slot
    case Free => Entry(0, 0)
    case Block(offset, length) => Entry(base + offset, length)
  }

  function EntriesOf(slots: seq<Slot>, base: nat): (es: seq<Entry>)
    ensures |es| == |slots|
  {
    seq(|slots|, i requires 0 <= i < |slots| => EntryOf(slots[i], base))
  }

  ghost function RawOf(s: Store): Raw
    requires VarsFit(s.vars)
  {
    Raw(s.blockCount, HEADER_SIZE, IndexLength(s), HEADER_SIZE + IndexLength(s), |VarsRegion(s)|,
        |s.slots|, EntriesOf(s.slots, DataStart(s)), ZeroBytes(8 * s.spare + FREELIST_SIZE) + VarsRegion(s) + s.data)
  }

  /** The layout of bom_alloc_empty: header, index and free list, variables, data. */
  ghost function Image(s: Store): seq<byte>
    requires VarsFit(s.vars)
  {
    RawBytes(RawOf(s))
  }

  /** Blocks lie in the data section and do not overlap. */
  ghost predicate SlotsOk(slots: seq<Slot>, n: nat) {
    && (forall i :: 0 <= i < |slots| && slots[i].Block? ==> slots[i].offset + slots[i].length <= n)
    && (forall i, j :: 0 <= i < j < |slots| && slots[i].Block? && slots[j].Block? ==> Apart(slots[i], slots[j]))
  }

  ghost predicate Apart(a: Slot, b: Slot)
    requires a.Block? && b.Block?
  {
    a.offset + a.length <= b.offset || b.offset + b.length <= a.offset
  }

  ghost predicate WellFormed(s: Store) {
    && VarsFit(s.vars) && s.blockCount < WORD_LIMIT && |Image(s)| < WORD_LIMIT
    && SlotsOk(s.slots, |s.data|)
  }

  /** The bytes an index denotes. */
  function BlockBytes(s: Store, i: nat): (b: seq<byte>)
    requires i < |s.slots| && (s.slots[i].Block? ==> s.slots[i].offset + s.slots[i].length <= |s.data|)
    ensures s.slots[i].Block? ==> |b| == s.slots[i].length
  {
    match s.slots[i]
    case Free => []
    case Block(offset, length) => s.data[offset..offset + length]
  }

  // ----- what the mutations do

  function MovedSlots(slots: seq<Slot>, point: nat, delta: nat): (r: seq<Slot>)
    ensures |r| == |slots|
  {
    seq(|slots|, i requires 0 <= i < |slots| =>
      match slots[i]
      case Free => Free
      case Block(offset, length) => Block(Moved(offset, point, delta), length))
  }

  function Reserved(s: Store, count: nat): Store {
    s.(spare := s.spare + count)
  }

  /** A new block at the end. Empty blocks that stood there move along. */
  function Added(s: Store, b: seq<byte>): Store {
    s.(blockCount := |s.slots| + 1,
       slots := MovedSlots(s.slots, |s.data|, |b|) + [Block(|s.data|, |b|)],
       spare := if s.spare > 0 then s.spare - 1 else 0,
       data := s.data + b)
  }

  /** A gap behind block i, which grows by it. */
  function Appended(s: Store, i: nat, gap: seq<byte>): Store
    requires i < |s.slots| && s.slots[i].Block? && s.slots[i].offset + s.slots[i].length <= |s.data|
  {
    var p := s.slots[i].offset + s.slots[i].length;
    var moved := MovedSlots(s.slots, p, |gap|);
    s.(slots := moved[i := moved[i].(length := s.slots[i].length + |gap|)], data := WithGap(s.data, p, gap))
  }

  function VarAdded(s: Store, v: Var, unused: seq<byte>): Store {
    s.(vars := s.vars + [v], slack := unused + s.slack)
  }

  // ----- growing the index does not change what lies behind it

  lemma MovedEntriesOf(slots: seq<Slot>, base: nat, point: nat, delta: nat)
    requires 0 < point <= base
    ensures MovedEntries(EntriesOf(slots, base), point, delta) == EntriesOf(slots, base + delta)
  {
  }

  lemma MovedEntriesOfEnd(slots: seq<Slot>, base: nat, n: nat, delta: nat)
    requires base + n > 0
    ensures MovedEntries(EntriesOf(slots, base), base + n, delta) == EntriesOf(MovedSlots(slots, n, delta), base)
  {
  }

  /** Every field of a well-formed store fits a word. */
  lemma StoreFits(s: Store)
    requires WellFormed(s)
    ensures RawFits(RawOf(s)) && |Image(s)| == DataStart(s) + |s.data|
  {
    hide BE, VarsBytes, EntriesBytes;
    forall i | 0 <= i < |s.slots|
      ensures EntryFits(EntryOf(s.slots[i], DataStart(s)))
    {
    }
  }

  /** The bytes of the file at the address of a block are the bytes of the block. */
  lemma BlockInImage(s: Store, i: nat)
    requires WellFormed(s) && i < |s.slots|
    ensures var e := EntryOf(s.slots[i], DataStart(s));
            e.address + e.length <= |Image(s)| && Image(s)[e.address..e.address + e.length] == BlockBytes(s, i)
  {
    hide BE, VarsBytes, EntriesBytes, RawHeader;
    StoreFits(s);
    if s.slots[i].Block? {
      var m, base := Image(s), DataStart(s);
      assert m[base..] == s.data;
      var o, n := s.slots[i].offset, s.slots[i].length;
      assert m[base + o..base + o + n] == m[base..][o..o + n];
    }
  }

  /** Growing the index or the variables by delta leaves every word in range. */
  lemma GrownFits(s: Store, delta: nat)
    requires WellFormed(s) && |Image(s)| + delta < WORD_LIMIT
    ensures forall point :: HEADER_SIZE < point <= DataStart(s) ==> RawFits(MovedRaw(RawOf(s), point, delta))
  {
    hide BE, VarsBytes, EntriesBytes;
    StoreFits(s);
    forall point | HEADER_SIZE < point <= DataStart(s)
      ensures RawFits(MovedRaw(RawOf(s), point, delta))
    {
      MovedEntriesOf(s.slots, DataStart(s), point, delta);
      forall i | 0 <= i < |s.slots|
        ensures EntryFits(EntryOf(s.slots[i], DataStart(s) + delta))
      {
      }
    }
  }

  /** The bytes after the gap is zeroed are those of the store with more reserved slots. */
  lemma ReservedImage(s: Store, count: nat, gap: seq<byte>)
    requires WellFormed(s) && |Image(s)| + 8 * count < WORD_LIMIT && |gap| == 8 * count
    ensures WellFormed(Reserved(s, count))
    ensures var r := RawOf(s);
            RawOf(Reserved(s, count))
            == r.(entries := EntriesOf(s.slots, DataStart(s) + 8 * count), indexLength := r.indexLength + 8 * count,
                  varsOffset := r.varsOffset + 8 * count, rest := Overwrite(gap + r.rest, 0, ZeroBytes(8 * count)))
  {
    hide BE, VarsBytes, EntriesBytes;
    StoreFits(s);
    var r := RawOf(s);
    var all := gap + r.rest;
    assert all[8 * count..] == r.rest;
    assert ZeroBytes(8 * count) + ZeroBytes(8 * s.spare + FREELIST_SIZE)
        == ZeroBytes(8 * (s.spare + count) + FREELIST_SIZE);
    assert all[..0] + ZeroBytes(8 * count) + all[8 * count..]
           == ZeroBytes(8 * count) + ZeroBytes(8 * s.spare + FREELIST_SIZE) + VarsRegion(s) + s.data;
  }

  /** What lies behind the slot that the next block will use. */
  ghost function TailOf(s: Store): seq<byte>
    requires VarsFit(s.vars)
  {
    ZeroBytes(8 * (if s.spare > 0 then s.spare - 1 else 0) + FREELIST_SIZE) + VarsRegion(s) + s.data
  }

  /** The store once a slot is open behind those in use. */
  ghost function Opened(s: Store, slot: seq<byte>): Raw
    requires VarsFit(s.vars)
  {
    var grown := if s.spare > 0 then 0 else 8;
    var r := RawOf(s);
    r.(entries := EntriesOf(s.slots, DataStart(s) + grown), indexLength := r.indexLength + grown,
       varsOffset := r.varsOffset + grown, rest := slot + TailOf(s))
  }

  /** With a reserved slot, it is open already. */
  lemma OpenedImage(s: Store)
    requires VarsFit(s.vars)
    ensures s.spare > 0 ==> RawOf(s) == Opened(s, ZeroBytes(8))
  {
    if s.spare > 0 {
      assert ZeroBytes(8) + ZeroBytes(8 * (s.spare - 1) + FREELIST_SIZE) == ZeroBytes(8 * s.spare + FREELIST_SIZE);
      assert RawOf(s).rest == ZeroBytes(8) + TailOf(s);
    }
  }

  /** The bytes cleared behind a new slot belong to the free list, which is zero. */
  lemma FreelistStaysZero(slot: seq<byte>, s: Store)
    requires VarsFit(s.vars) && s.spare == 0 && |slot| == 8
    ensures Overwrite(slot + RawOf(s).rest, 8, ZeroBytes(8)) == slot + TailOf(s)
  {
    hide BE, VarsBytes;
    var rest := RawOf(s).rest;
    assert rest == ZeroBytes(FREELIST_SIZE) + VarsRegion(s) + s.data == TailOf(s);
    assert (slot + rest)[16..] == rest[8..];
    assert rest == ZeroBytes(8) + rest[8..];
  }

  lemma RawFits8(r: Raw, r1: Raw)
    requires RawFits(r) && r1.indexLength == r.indexLength && r1.blockCount == r.blockCount
    requires r1.trailerLen == r.trailerLen
    requires r1.count == r.count && r1.indexOffset < WORD_LIMIT && r1.varsOffset < WORD_LIMIT
    requires forall i :: 0 <= i < |r1.entries| ==> EntryFits(r1.entries[i])
    ensures RawFits(r1)
  {
  }

  /** The store once a slot and space at the end are open. */
  ghost function Stretched(s: Store, slot: seq<byte>, gap: seq<byte>): Raw
    requires VarsFit(s.vars)
  {
    var base := DataStart(s) + (if s.spare > 0 then 0 else 8);
    Opened(s, slot).(entries := EntriesOf(MovedSlots(s.slots, |s.data|, |gap|), base), rest := slot + TailOf(s) + gap)
  }

  lemma EntriesFit(slots: seq<Slot>, base: nat, n: nat)
    requires SlotsOk(slots, n) && base + n < WORD_LIMIT
    ensures forall i :: 0 <= i < |slots| ==> EntryFits(EntriesOf(slots, base)[i])
  {
  }

  /** Moving the empty blocks at the end with the end. */
  lemma MovedSlotsOk(slots: seq<Slot>, n: nat, delta: nat)
    requires SlotsOk(slots, n)
    ensures SlotsOk(MovedSlots(slots, n, delta), n + delta)
  {
  }

  lemma OpenedFits(s: Store, slot: seq<byte>, length: nat)
    requires WellFormed(s) && |Image(s)| + 8 + length < WORD_LIMIT && |slot| == 8
    ensures var r := Opened(s, slot);
            var base := DataStart(s) + (if s.spare > 0 then 0 else 8);
            && |RawBytes(r)| == base + |s.data|
            && RawFits(r)
            && MovedRaw(r, base + |s.data|, length) == r.(entries := EntriesOf(MovedSlots(s.slots, |s.data|, length), base))
            && RawFits(MovedRaw(r, base + |s.data|, length))
  {
    hide BE, VarsBytes, EntriesBytes, RawHeader, SlotsOk, EntriesOf, MovedSlots, EntryFits;
    StoreFits(s);
    var base := DataStart(s) + (if s.spare > 0 then 0 else 8);
    MovedEntriesOfEnd(s.slots, base, |s.data|, length);
    MovedSlotsOk(s.slots, |s.data|, length);
    EntriesFit(s.slots, base, |s.data|);
    EntriesFit(MovedSlots(s.slots, |s.data|, length), base, |s.data| + length);
  }

  lemma StretchedFits(s: Store, slot: seq<byte>, gap: seq<byte>)
    requires WellFormed(s) && |Image(s)| + 8 + |gap| < WORD_LIMIT && |slot| == 8
    ensures RawFits(Stretched(s, slot, gap))
    ensures HEADER_SIZE + 4 + 8 * |s.slots| + 8 + |TailOf(s)|
        == DataStart(s) + (if s.spare > 0 then 0 else 8) + |s.data|
    ensures DataStart(s) + |s.data| == |Image(s)| && |s.slots| < WORD_LIMIT - 1
  {
    hide BE, VarsBytes, EntriesBytes, RawHeader, SlotsOk, EntriesOf, MovedSlots, EntryFits;
    StoreFits(s);
    OpenedFits(s, slot, |gap|);
  }

  /** The three writes fill the slot and the gap. */
  lemma AddedRest(rest: seq<byte>, tail: seq<byte>, data: seq<byte>, dataPoint: nat)
    requires |rest| == 8 + |tail| + |data| && rest[8..8 + |tail|] == tail
    ensures Overwrite(Overwrite(Overwrite(rest, 0, BE(dataPoint)), 4, BE(|data|)), 8 + |tail|, data)
            == EntryBytes(Entry(dataPoint, |data|)) + (tail + data)
  {
    hide BE;
    var a := Overwrite(rest, 0, BE(dataPoint));
    assert a == BE(dataPoint) + rest[4..];
    var b := Overwrite(a, 4, BE(|data|));
    assert b == BE(dataPoint) + BE(|data|) + rest[8..];
    assert b[..8 + |tail|] == BE(dataPoint) + BE(|data|) + tail;
  }

  /** The result is the image of the store with the block added. */
  lemma AddedImage(s: Store, data: seq<byte>)
    requires WellFormed(s) && |Image(s)| + 8 + |data| < WORD_LIMIT
    ensures WellFormed(Added(s, data))
    ensures var base := DataStart(s) + (if s.spare > 0 then 0 else 8);
            var r, n := RawOf(s), |s.slots| + 1;
            RawOf(Added(s, data))
            == Raw(n, HEADER_SIZE, r.indexLength + base - DataStart(s), r.varsOffset + base - DataStart(s), r.trailerLen, n,
                   EntriesOf(MovedSlots(s.slots, |s.data|, |data|), base) + [Entry(base + |s.data|, |data|)],
                       TailOf(s) + data)
  {
    hide BE, VarsBytes, EntriesBytes;
    StoreFits(s);
    var s' := Added(s, data);
    var base := DataStart(s) + (if s.spare > 0 then 0 else 8);
    assert VarsRegion(s') == VarsRegion(s) && DataStart(s') == base;
    assert EntriesOf(s'.slots, base) == EntriesOf(MovedSlots(s.slots, |s.data|, |data|), base) + [Entry(base + |s.data|, |data|)];
    assert RawOf(s').rest == TailOf(s) + data;
  }

  lemma EntryAt(slots: seq<Slot>, base: nat, i: nat)
    requires i < |slots|
    ensures EntriesOf(slots, base)[i] == EntryOf(slots[i], base)
  {
  }

  /** A gap in the data section moves the blocks behind it, and nothing else. */
  lemma AppendFits(s: Store, p: nat, length: nat)
    requires WellFormed(s) && p <= |s.data| && |Image(s)| + length < WORD_LIMIT
    ensures var r := RawOf(s);
            && MovedRaw(r, DataStart(s) + p, length) == r.(entries := EntriesOf(MovedSlots(s.slots, p, length), DataStart(s)))
            && RawFits(MovedRaw(r, DataStart(s) + p, length))
  {
    hide BE, VarsBytes, EntriesBytes;
    StoreFits(s);
    MovedEntriesOfEnd(s.slots, DataStart(s), p, length);
    forall i | 0 <= i < |s.slots|
      ensures EntryFits(EntryOf(MovedSlots(s.slots, p, length)[i], DataStart(s)))
    {
    }
  }

  lemma AppendedImage(s: Store, i: nat, gap: seq<byte>, moved: seq<Slot>)
    requires VarsFit(s.vars) && i < |s.slots| && s.slots[i].Block? && s.slots[i].offset + s.slots[i].length <= |s.data|
    requires moved == MovedSlots(s.slots, s.slots[i].offset + s.slots[i].length, |gap|)
    ensures var r, s' := RawOf(s), Appended(s, i, gap);
            var k := |r.rest| - |s.data| + s.slots[i].offset + s.slots[i].length;
            VarsFit(s'.vars)
            && RawOf(s') == r.(entries := EntriesOf(moved, DataStart(s))[i := EntryOf(s'.slots[i], DataStart(s))],
                               rest := r.rest[..k] + gap + r.rest[k..])
  {
    hide BE, VarsBytes, EntriesBytes;
    var r, s', p := RawOf(s), Appended(s, i, gap), s.slots[i].offset + s.slots[i].length;
    var front := ZeroBytes(8 * s.spare + FREELIST_SIZE) + VarsRegion(s);
    assert r.rest == front + s.data;
    assert VarsRegion(s') == VarsRegion(s) && DataStart(s') == DataStart(s);
    assert r.rest[..|front| + p] + gap + r.rest[|front| + p..] == front + WithGap(s.data, p, gap);
    assert EntriesOf(s'.slots, DataStart(s)) == EntriesOf(moved, DataStart(s))[i := EntryOf(s'.slots[i], DataStart(s))];
  }

  // ----- unused slots

  function FreeSlots(n: nat): (r: seq<Slot>)
    ensures |r| == n
  {
    seq(n, _ => Free)
  }

  /** More unused slots, from those reserved, or one new one. */
  function FreeAdded(s: Store, count: nat): Store {
    s.(slots := s.slots + FreeSlots(count), spare := if count <= s.spare then s.spare - count else 0)
  }

  ghost function FreeTail(s: Store, count: nat): seq<byte>
    requires VarsFit(s.vars)
  {
    ZeroBytes(8 * (if count <= s.spare then s.spare - count else 0) + FREELIST_SIZE) + VarsRegion(s) + s.data
  }

  lemma FreeAddedImage(s: Store, count: nat)
    requires WellFormed(s) && count > 0 && |Image(s)| + 8 * count < WORD_LIMIT
    ensures count <= s.spare || count == 1 ==>
              var grown := if count <= s.spare then 0 else 8;
              var r := RawOf(s);
              WellFormed(FreeAdded(s, count))
              && RawOf(FreeAdded(s, count))
                 == r.(count := |s.slots| + count, indexLength := r.indexLength + grown, varsOffset := r.varsOffset + grown,
                       entries := EntriesOf(s.slots, DataStart(s) + grown) + seq(count, _ => Entry(0, 0)),
                           rest := FreeTail(s, count))
  {
    hide BE, VarsBytes, EntriesBytes;
    StoreFits(s);
    if count <= s.spare || count == 1 {
      var s' := FreeAdded(s, count);
      assert |VarsRegion(s')| == |VarsRegion(s)|;
      assert EntriesOf(s'.slots, DataStart(s')) == EntriesOf(s.slots, DataStart(s')) + seq(count, _ => Entry(0, 0));
    }
  }

  /** The store once the index has grown by `gap`. */
  ghost function FreeOpened(s: Store, count: nat, gap: seq<byte>): Raw
    requires VarsFit(s.vars)
  {
    var r := RawOf(s);
    if count <= s.spare then r.(rest := gap + r.rest)
    else r.(entries := EntriesOf(s.slots, DataStart(s) + 8), indexLength := r.indexLength + 8 * count,
            varsOffset := r.varsOffset + 8, rest := gap + r.rest)
  }

  lemma FreeOpenedShape(s: Store, count: nat)
    requires WellFormed(s)
    ensures VarsFit(s.vars) && |Image(s)| == HEADER_SIZE + 4 + 8 * |s.slots| + |RawOf(s).rest|
    ensures forall gap :: var r := FreeOpened(s, count, gap);
              && r.indexOffset == HEADER_SIZE && r.count == |r.entries| == |s.slots| && r.rest == gap + RawOf(s).rest
              && (count <= s.spare ==> r == RawOf(s).(rest := gap + RawOf(s).rest))
              && (count > s.spare && count > 1 ==> r.varsOffset != r.indexOffset + r.indexLength)
              && (count > s.spare && count == 1 ==>
                    r == RawOf(s).(entries := EntriesOf(s.slots, DataStart(s) + 8), indexLength := RawOf(s).indexLength + 8,
                                   varsOffset := RawOf(s).varsOffset + 8, rest := gap + RawOf(s).rest))
  {
    hide BE, VarsBytes, EntriesBytes;
    RawSize(RawOf(s));
  }

  lemma FreeAddedRest(s: Store, count: nat, gap: seq<byte>)
    requires VarsFit(s.vars) && (count <= s.spare || count == 1) && |gap| == (if count <= s.spare then 0 else 8)
    ensures 8 * count <= |gap + RawOf(s).rest|
    ensures Overwrite(gap + RawOf(s).rest, 0, ZeroBytes(8 * count)) == ZeroBytes(8 * count) + FreeTail(s, count)
  {
    hide BE, VarsBytes, VarsRegion, Overwrite;
    var first := if count <= s.spare then ZeroBytes(8 * count) else gap;
    if count <= s.spare {
      assert ZeroBytes(8 * s.spare + FREELIST_SIZE)
          == ZeroBytes(8 * count) + ZeroBytes(8 * (s.spare - count) + FREELIST_SIZE);
    }
    assert gap + RawOf(s).rest == first + FreeTail(s, count);
    assert first + FreeTail(s, count) == [] + first + FreeTail(s, count);
    assert [] + ZeroBytes(8 * count) + FreeTail(s, count) == ZeroBytes(8 * count) + FreeTail(s, count);
    OverwriteMiddle([], first, FreeTail(s, count), ZeroBytes(8 * count));
  }

  lemma NothingOverwritten(rest: seq<byte>)
    ensures Overwrite(rest, 0, ZeroBytes(8 * 0)) == rest
  {
  }

  lemma MoreZeros(rest: seq<byte>, k: nat)
    requires k + 8 <= |rest|
    ensures Overwrite(Overwrite(rest, 0, ZeroBytes(k)), k, ZeroBytes(8)) == Overwrite(rest, 0, ZeroBytes(k + 8))
  {
  }

  /** Zero bytes behind the entries are unused entries. */
  lemma {:induction false} NextFreeEntries(r: Raw, n: nat, tail: seq<byte>)
    requires r.rest == ZeroBytes(8 * n) + tail
    ensures RawBytes(r) == RawBytes(r.(entries := r.entries + seq(n, _ => Entry(0, 0)), rest := tail))
    decreases n
  {
    hide RawBytes;
    if n == 0 {
      assert r.entries + seq(n, _ => Entry(0, 0)) == r.entries && r.rest == tail;
    } else {
      assert EntryBytes(Entry(0, 0)) == ZeroBytes(8);
      var rest := ZeroBytes(8 * (n - 1)) + tail;
      assert r.rest == ZeroBytes(8) + rest;
      NextEntry(r, Entry(0, 0), rest);
      NextFreeEntries(r.(entries := r.entries + [Entry(0, 0)], rest := rest), n - 1, tail);
      assert r.entries + [Entry(0, 0)] + seq(n - 1, _ => Entry(0, 0)) == r.entries + seq(n, _ => Entry(0, 0));
    }
  }

  /** In every store the variables start where the index ends. */
  lemma NoStore(r: Raw)
    requires RawFits(r) && r.varsOffset != r.indexOffset + r.indexLength
    ensures forall s :: WellFormed(s) ==> RawBytes(r) != Image(s)
  {
    hide BE, U32, RawBytes, EntriesBytes, VarsBytes;
    RawFields(r);
    forall s | WellFormed(s)
      ensures RawBytes(r) != Image(s)
    {
      StoreFits(s);
      RawFields(RawOf(s));
    }
  }

  // ----- variables

  /** A name as a C string: up to the first zero byte. */
  function CString(b: seq<byte>): seq<byte> {
    if b == [] || b[0] == 0 then [] else [b[0]] + CString(b[1..])
  }

  lemma {:induction false} CStringEnds(b: seq<byte>)
    ensures var s := CString(b); s <= b && 0 !in s && (|s| < |b| ==> b[|s|] == 0)
  {
    if b != [] {
      CStringEnds(b[1..]);
    }
  }

  function ToInt(v: nat): (r: int)
    ensures r == v || r == v - WORD_LIMIT
    ensures v < WORD_LIMIT ==> -0x8000_0000 <= r < 0x8000_0000
  {
    if v < 0x8000_0000 then v else v - WORD_LIMIT
  }

  /** The first variable with a name. */
  function Lookup(vars: seq<Var>, name: seq<byte>): int {
    if vars == [] then -1
    else if CString(vars[0].name) == name then ToInt(vars[0].index)
    else Lookup(vars[1..], name)
  }

  /** What bom_variable_add keeps of a name and an index. */
  function StoredVar(name: seq<byte>, index: int): (v: Var)
    ensures v.index < WORD_LIMIT && (v.index - index) % WORD_LIMIT == 0
    ensures v.name <= name && |v.name| < 256 && (|name| - |v.name|) % 256 == 0
  {
    Var(index % WORD_LIMIT, name[..|name| % 256])
  }

  lemma NoVars()
    ensures VarsBytes([]) == []
  {
  }

  /** The variables region starts at its offset with the number of variables. */
  lemma VarsHeader(s: Store)
    requires WellFormed(s)
    ensures var m, at := Image(s), HEADER_SIZE + IndexLength(s);
            && VARS_OFFSET + 4 <= |m| && U32(m, VARS_OFFSET) == at && at + 4 <= |m| && U32(m, at) == |s.vars|
            && at + |VarsRegion(s)| <= |m| && m[at..at + |VarsRegion(s)|] == VarsRegion(s)
  {
    hide BE, U32, VarsBytes, EntriesBytes, RawHeader;
    StoreFits(s);
    RawFields(RawOf(s));
    RawSize(RawOf(s));
    var m, at := Image(s), HEADER_SIZE + IndexLength(s);
    assert m[at..at + |VarsRegion(s)|] == VarsRegion(s);
    assert m[at..at + 4] == VarsRegion(s)[..4] == BE(|s.vars|);
    FewVars(s.vars);
    WordIn(m, at, |s.vars|);
  }

  /** There are no more variables than bytes. */
  lemma {:induction false} FewVars(vs: seq<Var>)
    requires VarsFit(vs)
    ensures |vs| <= |VarsBytes(vs)|
  {
    if vs != [] {
      FewVars(vs[..|vs| - 1]);
    }
  }

  /** The fields of variable i, in the file. */
  lemma VarIn(s: Store, i: nat)
    requires WellFormed(s) && i < |s.vars|
    ensures VarsFit(s.vars[..i]) && VarsFit(s.vars[..i + 1])
    ensures |VarsBytes(s.vars[..i + 1])| == |VarsBytes(s.vars[..i])| + 5 + |s.vars[i].name|
    ensures var m, at, v := Image(s), HEADER_SIZE + IndexLength(s) + 4 + |VarsBytes(s.vars[..i])|, s.vars[i];
            && at + 5 + |v.name| <= |m| && m[at + 4] as nat == |v.name|
            && m[at + 5..at + 5 + |v.name|] == v.name && U32(m, at) == v.index
  {
    hide BE, U32, VarsBytes, EntriesBytes, Image;
    VarsHeader(s);
    VarsSplit(s.vars, i);
    var m, start, v := Image(s), HEADER_SIZE + IndexLength(s), s.vars[i];
    var before, after := VarsBytes(s.vars[..i]), VarsBytes(s.vars[i + 1..]);
    var at := start + 4 + |before|;
    var region := VarsRegion(s);
    assert region == BE(|s.vars|) + before + VarBytes(v) + after + s.slack;
    assert region[4 + |before|..4 + |before| + 5 + |v.name|] == VarBytes(v);
    SliceOfSlice(m, start, |region|, 4 + |before|, 5 + |v.name|);
    assert m[at..at + 5 + |v.name|] == VarBytes(v);
    assert m[at..at + 4] == VarBytes(v)[..4] == BE(v.index);
    WordIn(m, at, v.index);
    assert m[at + 4] == VarBytes(v)[4];
    assert m[at + 5..at + 5 + |v.name|] == VarBytes(v)[5..];
  }

  /** Where the next variable goes, in what lies behind the entries. */
  ghost function VarPoint(s: Store): nat
    requires VarsFit(s.vars)
  {
    8 * s.spare + FREELIST_SIZE + 4 + |VarsBytes(s.vars)|
  }

  /** The store with a gap behind its last variable. */
  ghost function VarOpened(s: Store, gap: seq<byte>): Raw
    requires VarsFit(s.vars)
  {
    var r := RawOf(s);
    r.(entries := EntriesOf(s.slots, DataStart(s) + |gap|), rest := WithGap(r.rest, VarPoint(s), gap))
  }

  /** Bytes written at the start of a gap, and a word rewritten in front of it. */
  lemma WriteInGap(a: seq<byte>, word: seq<byte>, b: seq<byte>, c: seq<byte>, gap: seq<byte>, v: seq<byte>,
      word': seq<byte>)
    requires |v| <= |gap| && |word| == |word'|
    ensures var k := |a + word + b|;
            Overwrite(Overwrite(WithGap(a + word + b + c, k, gap), k, v), |a|, word') == a + word' + (b + v) + (gap[|v|..] + c)
  {
    var front := a + word + b;
    var whole := front + c;
    assert whole[..|front|] == front && whole[|front|..] == c;
    var used, unused := gap[..|v|], gap[|v|..];
    assert WithGap(whole, |front|, gap) == front + used + (unused + c);
    OverwriteMiddle(front, used, unused + c, v);
    assert front + v + (unused + c) == a + word + (b + v + (unused + c));
    OverwriteMiddle(a, word, b + v + (unused + c), word');
  }

  /** The writes of a new variable and of the count. */
  lemma VarAddedRest(s: Store, v: Var, gap: seq<byte>)
    requires VarsFit(s.vars) && VarFits(v) && |gap| >= 5 + |v.name|
    ensures var k := VarPoint(s);
            var rest := VarOpened(s, gap).rest;
            && |rest| == |RawOf(s).rest| + |gap| && k <= |RawOf(s).rest|
            && VarsFit(s.vars + [v])
            && Overwrite(Overwrite(rest, k, VarBytes(v)), 8 * s.spare + FREELIST_SIZE, BE(|s.vars| + 1))
               == ZeroBytes(8 * s.spare + FREELIST_SIZE)
                  + (BE(|s.vars| + 1) + VarsBytes(s.vars + [v]) + (gap[5 + |v.name|..] + s.slack)) + s.data
  {
    hide BE, VarsBytes, EntriesBytes, VarBytes, Overwrite, WithGap;
    var zeros, vars := ZeroBytes(8 * s.spare + FREELIST_SIZE), VarsBytes(s.vars);
    VarsConcat(s.vars, [v]);
    OneVar(v);
    RestParts(zeros, BE(|s.vars|), vars, s.slack, s.data);
    GapSize(RawOf(s).rest, VarPoint(s), gap);
    WriteInGap(zeros, BE(|s.vars|), vars, s.slack + s.data, gap, VarBytes(v), BE(|s.vars| + 1));
    RestParts(zeros, BE(|s.vars| + 1), vars + VarBytes(v), gap[5 + |v.name|..] + s.slack, s.data);
    assert gap[5 + |v.name|..] + s.slack + s.data == gap[5 + |v.name|..] + (s.slack + s.data);
  }

  lemma GapSize(b: seq<byte>, point: nat, gap: seq<byte>)
    requires point <= |b|
    ensures |WithGap(b, point, gap)| == |b| + |gap|
  {
  }

  lemma RestParts(a: seq<byte>, b: seq<byte>, c: seq<byte>, d: seq<byte>, e: seq<byte>)
    ensures a + (b + c + d) + e == a + b + c + (d + e)
  {
  }

  lemma GapRest(rest: seq<byte>, k: nat, gap: seq<byte>)
    requires k <= |rest|
    ensures rest[..k] + gap + rest[k..] == WithGap(rest, k, gap)
  {
  }

  /** The count in front of the variables is still the old one after the new variable is written. */
  lemma CountKept(s: Store, gap: seq<byte>, v: Var)
    requires WellFormed(s) && VarFits(v) && |gap| >= 5 + |v.name| && VarPoint(s) <= |RawOf(s).rest|
    requires VarPoint(s) + 5 + |v.name| <= |VarOpened(s, gap).rest|
    ensures var r := VarOpened(s, gap);
            var b := RawBytes(r.(rest := Overwrite(r.rest, VarPoint(s), VarBytes(v))));
            var at := HEADER_SIZE + IndexLength(s);
            at + 4 <= |b| && U32(b, at) == |s.vars|
  {
    hide BE, VarsBytes, EntriesBytes, VarBytes, RawHeader;
    var r := VarOpened(s, gap);
    var rest := Overwrite(r.rest, VarPoint(s), VarBytes(v));
    var b := RawBytes(r.(rest := rest));
    var at := HEADER_SIZE + IndexLength(s);
    var z := 8 * s.spare + FREELIST_SIZE;
    RawSize(r.(rest := rest));
    StoreFits(s);
    FewVars(s.vars);
    assert RawOf(s).rest[z..z + 4] == BE(|s.vars|);
    assert rest[z..z + 4] == RawOf(s).rest[z..z + 4];
    assert b[at..at + 4] == rest[z..z + 4];
    WordIn(b, at, |s.vars|);
  }

  lemma VarAddedImage(s: Store, v: Var, unused: seq<byte>, delta: nat)
    requires WellFormed(s) && VarFits(v) && delta == 5 + |v.name| + |unused| && |Image(s)| + delta < WORD_LIMIT
    ensures var r, s' := RawOf(s), VarAdded(s, v, unused);
            WellFormed(s')
            && RawOf(s') == r.(entries := EntriesOf(s.slots, DataStart(s) + delta), trailerLen := r.trailerLen + delta,
                               rest := ZeroBytes(8 * s.spare + FREELIST_SIZE)
                                       + (BE(|s.vars| + 1) + VarsBytes(s.vars + [v]) + (unused + s.slack)) + s.data)
  {
    hide BE, VarsBytes, EntriesBytes, VarBytes;
    StoreFits(s);
    VarsConcat(s.vars, [v]);
    OneVar(v);
    var s' := VarAdded(s, v, unused);
    assert |VarsRegion(s')| == |VarsRegion(s)| + delta;
  }

  const EMPTY_STORE := Store(0, [], 0, [], [], [])

  lemma EmptyImage(header: seq<byte>)
    requires header == MAGIC + BE(1) + BE(0) + BE(HEADER_SIZE) + BE(24) + BE(56) + BE(4)
    ensures WellFormed(EMPTY_STORE)
    ensures Image(EMPTY_STORE) == header + BE(0) + (BE(0) + (BE(0) + BE(0)) + (BE(0) + BE(0))) + BE(0)
  {
    var s := EMPTY_STORE;
    assert BE(0) == [0, 0, 0, 0];
    assert VarsRegion(s) == BE(0);
    assert RawHeader(RawOf(s)) == header;
    assert EntriesBytes(EntriesOf(s.slots, DataStart(s))) == [];
    assert ZeroBytes(FREELIST_SIZE) == BE(0) + (BE(0) + BE(0)) + (BE(0) + BE(0));
  }

  // ----- what the mutations keep

  /** Adding a block changes no earlier block. */
  lemma AddedKeeps(s: Store, b: seq<byte>)
    requires WellFormed(s)
    ensures SlotsOk(Added(s, b).slots, |Added(s, b).data|) && Added(s, b).vars == s.vars
    ensures forall i :: 0 <= i < |s.slots| ==> BlockBytes(Added(s, b), i) == BlockBytes(s, i)
    ensures BlockBytes(Added(s, b), |s.slots|) == b
  {
    MovedSlotsOk(s.slots, |s.data|, |b|);
    var s' := Added(s, b);
    forall i | 0 <= i < |s.slots|
      ensures BlockBytes(s', i) == BlockBytes(s, i)
    {
      match s.slots[i]
      case Free =>
      case Block(offset, length) =>
        if offset < |s.data| {
          assert s'.data[offset..offset + length] == s.data[offset..offset + length];
        }
    }
    assert s'.data[|s.data|..|s.data| + |b|] == b;
  }

  /** Whether some variable has a name. */
  predicate HasName(vars: seq<Var>, name: seq<byte>) {
    exists i :: 0 <= i < |vars| && CString(vars[i].name) == name
  }

  /** Adding a variable changes the meaning of no earlier name; a new name gets the new index. */
  lemma {:induction false} LookupAdded(vars: seq<Var>, v: Var, name: seq<byte>)
    ensures Lookup(vars + [v], name)
            == if HasName(vars, name) then Lookup(vars, name)
               else if CString(v.name) == name then ToInt(v.index) else -1
  {
    hide CString;
    var all := vars + [v];
    if vars == [] {
      assert all[1..] == [];
    } else {
      assert all[1..] == vars[1..] + [v];
      LookupAdded(vars[1..], v, name);
      assert HasName(vars, name) <==> CString(vars[0].name) == name || HasName(vars[1..], name) by {
        if HasName(vars, name) && CString(vars[0].name) != name {
          var i :| 0 <= i < |vars| && CString(vars[i].name) == name;
          assert vars[1..][i - 1] == vars[i];
        }
      }
    }
  }

  /** Two blocks apart from each other and from block c stay apart when what lies behind c moves. */
  lemma MovedApart(a: Slot, b: Slot, c: Slot, delta: nat)
    requires a.Block? && b.Block? && c.Block? && (c.length > 0 || delta == 0)
    requires Apart(a, b) && Apart(c, a) && Apart(c, b)
    ensures var p := c.offset + c.length;
            var a', b' := a.(offset := Moved(a.offset, p, delta)), b.(offset := Moved(b.offset, p, delta));
            Apart(a', b') && Apart(Block(c.offset, c.length + delta), a')
  {
  }

  lemma ApartBoth(slots: seq<Slot>, n: nat, i: nat, j: nat)
    requires SlotsOk(slots, n) && i < |slots| && j < |slots| && i != j && slots[i].Block? && slots[j].Block?
    ensures Apart(slots[i], slots[j]) && slots[j].offset + slots[j].length <= n
    ensures slots[i].offset + slots[i].length <= n
  {
    if i < j {
      assert Apart(slots[i], slots[j]);
    } else {
      assert Apart(slots[j], slots[i]);
    }
  }

  /** A gap behind block i keeps all blocks apart. */
  lemma AppendedSlotsOk(slots: seq<Slot>, n: nat, i: nat, delta: nat)
    requires SlotsOk(slots, n) && i < |slots| && slots[i].Block? && (slots[i].length > 0 || delta == 0)
    ensures var moved := MovedSlots(slots, slots[i].offset + slots[i].length, delta);
            SlotsOk(moved[i := moved[i].(length := slots[i].length + delta)], n + delta)
  {
    hide Apart;
    var p := slots[i].offset + slots[i].length;
    var moved := MovedSlots(slots, p, delta);
    var r := moved[i := moved[i].(length := slots[i].length + delta)];
    assert r[i] == Block(slots[i].offset, slots[i].length + delta);
    forall j | 0 <= j < |r| && r[j].Block?
      ensures r[j].offset + r[j].length <= n + delta
    {
      assert slots[j].offset + slots[j].length <= n;
    }
    forall j, k | 0 <= j < k < |r| && r[j].Block? && r[k].Block?
      ensures Apart(r[j], r[k])
    {
      if j == i {
        ApartBoth(slots, n, i, k);
        SelfApart(slots[i], slots[k], delta);
      } else if k == i {
        ApartBoth(slots, n, i, j);
        SelfApart(slots[i], slots[j], delta);
      } else {
        ApartBoth(slots, n, i, j);
        ApartBoth(slots, n, i, k);
        ApartBoth(slots, n, j, k);
        MovedApart(slots[j], slots[k], slots[i], delta);
      }
    }
  }

  lemma SelfApart(c: Slot, a: Slot, delta: nat)
    requires a.Block? && c.Block? && (c.length > 0 || delta == 0) && Apart(c, a)
    ensures var c', a' := Block(c.offset, c.length + delta), a.(offset := Moved(a.offset, c.offset + c.length, delta));
            Apart(c', a') && Apart(a', c')
  {
  }

  /** Then it has the gap behind its old bytes, and every other block keeps its bytes. */
  lemma AppendedKeeps(s: Store, i: nat, gap: seq<byte>)
    requires WellFormed(s) && i < |s.slots| && s.slots[i].Block? && (s.slots[i].length > 0 || gap == [])
    ensures SlotsOk(Appended(s, i, gap).slots, |Appended(s, i, gap).data|)
    ensures BlockBytes(Appended(s, i, gap), i) == BlockBytes(s, i) + gap
    ensures forall j :: 0 <= j < |s.slots| && j != i ==> BlockBytes(Appended(s, i, gap), j) == BlockBytes(s, j)
  {
    hide SlotsOk, Image;
    assert SlotsOk(s.slots, |s.data|);
    InData(s);
    AppendedSlotsOk(s.slots, |s.data|, i, |gap|);
    var s', p := Appended(s, i, gap), s.slots[i].offset + s.slots[i].length;
    InData(s');
    forall j | 0 <= j < |s.slots| && j != i
      ensures BlockBytes(s', j) == BlockBytes(s, j)
    {
      OtherBlock(s, i, gap, j);
    }
    assert s'.data[s.slots[i].offset..p + |gap|] == BlockBytes(s, i) + gap;
  }

  lemma InData(s: Store)
    requires SlotsOk(s.slots, |s.data|)
    ensures forall i :: 0 <= i < |s.slots| && s.slots[i].Block? ==> s.slots[i].offset + s.slots[i].length <= |s.data|
  {
  }

  lemma OtherBlock(s: Store, i: nat, gap: seq<byte>, j: nat)
    requires SlotsOk(s.slots, |s.data|) && i < |s.slots| && s.slots[i].Block? && j < |s.slots| && j != i
    requires s.slots[i].length > 0 || gap == []
    requires s.slots[i].offset + s.slots[i].length <= |s.data|
    requires s.slots[j].Block? ==> s.slots[j].offset + s.slots[j].length <= |s.data|
    ensures var s' := Appended(s, i, gap);
            (s'.slots[j].Block? ==> s'.slots[j].offset + s'.slots[j].length <= |s'.data|) && BlockBytes(s', j) == BlockBytes(s, j)
  {
    hide SlotsOk, WithGap;
    if s.slots[j].Block? {
      ApartBoth(s.slots, |s.data|, i, j);
      GapKeeps(s.data, s.slots[i].offset + s.slots[i].length, gap, s.slots[j].offset, s.slots[j].length);
    }
  }

  /** A stretch of bytes on one side of a gap. */
  lemma GapKeeps(b: seq<byte>, p: nat, gap: seq<byte>, o: nat, n: nat)
    requires p <= |b| && o + n <= |b| && (o >= p || o + n <= p)
    ensures var o' := Moved(o, p, |gap|);
            o' + n <= |WithGap(b, p, gap)| && WithGap(b, p, gap)[o'..o' + n] == b[o..o + n]
  {
    var w := WithGap(b, p, gap);
    if o >= p {
      assert w[o + |gap|..o + |gap| + n] == b[o..o + n];
    } else {
      assert w[o..o + n] == b[o..o + n];
    }
  }

  /** What bom_index_append is for: the gap lies behind the old bytes of the block, inside the data section. */
  ghost predicate Grows(s: Store, i: nat, gap: seq<byte>)
    requires i < |s.slots| && s.slots[i].Block? && s.slots[i].offset + s.slots[i].length <= |s.data|
  {
    var s' := Appended(s, i, gap);
    s'.slots[i].offset + s'.slots[i].length <= |s'.data| && BlockBytes(s', i) == BlockBytes(s, i) + gap
  }

  /**
   * A block grows, whatever the gap holds, exactly when it is not empty or nothing is appended: an empty one moves
   * with its end.
   */
  lemma AppendGrowsInPlace(s: Store, i: nat, n: nat)
    requires WellFormed(s) && i < |s.slots| && s.slots[i].Block?
    ensures (forall gap: seq<byte> :: |gap| == n ==> Grows(s, i, gap)) <==> s.slots[i].length > 0 || n == 0
  {
    hide Image, SlotsOk;
    assert SlotsOk(s.slots, |s.data|);
    InData(s);
    if s.slots[i].length > 0 || n == 0 {
      forall gap: seq<byte> | |gap| == n
        ensures Grows(s, i, gap)
      {
        AppendedKeeps(s, i, gap);
        InData(Appended(s, i, gap));
      }
    } else {
      var o := s.slots[i].offset;
      var gap: seq<byte> := seq(n, _ => if o < |s.data| && s.data[o] == 0 then 1 else 0);
      GapElsewhere(s, i, gap);
    }
  }

  /** A gap that starts with another byte than what lies there is not found behind an empty block. */
  lemma GapElsewhere(s: Store, i: nat, gap: seq<byte>)
    requires i < |s.slots| && s.slots[i].Block? && s.slots[i].length == 0 && s.slots[i].offset <= |s.data|
    requires gap != [] && (s.slots[i].offset < |s.data| ==> gap[0] != s.data[s.slots[i].offset])
    ensures !Grows(s, i, gap)
  {
    hide Appended;
    EmptyBlockMoves(s, i, gap);
    var o, n := s.slots[i].offset, |gap|;
    if o + n <= |s.data| {
      assert s.data[o..o + n][0] == s.data[o];
      assert (BlockBytes(s, i) + gap)[0] == gap[0];
    }
  }

  /** Where an empty block is found after something was appended to it: behind the gap. */
  lemma EmptyBlockMoves(s: Store, i: nat, gap: seq<byte>)
    requires i < |s.slots| && s.slots[i].Block? && s.slots[i].length == 0 && s.slots[i].offset <= |s.data|
    ensures var s', o, n := Appended(s, i, gap), s.slots[i].offset, |gap|;
            && s'.slots[i] == Block(o + n, n) && |s'.data| == |s.data| + n
            && (o + n <= |s.data| ==> BlockBytes(s', i) == s.data[o..o + n])
  {
    var o, n := s.slots[i].offset, |gap|;
    if o + n <= |s.data| {
      assert WithGap(s.data, o, gap)[o + n..o + n + n] == s.data[o..o + n];
    }
  }

  // ----- where empty blocks are

  /** Empty blocks lie at the end of the data section. */
  ghost predicate EmptyAtEnd(s: Store) {
    forall i :: 0 <= i < |s.slots| && s.slots[i].Block? && s.slots[i].length == 0 ==> s.slots[i].offset == |s.data|
  }

  /** So they do in every store built by the operations, as long as nothing is appended to one. */
  lemma EmptyStaysAtEnd(s: Store)
    requires WellFormed(s) && EmptyAtEnd(s)
    ensures EmptyAtEnd(EMPTY_STORE)
    ensures forall b: seq<byte> :: EmptyAtEnd(Added(s, b))
    ensures forall count: nat :: EmptyAtEnd(Reserved(s, count)) && EmptyAtEnd(FreeAdded(s, count))
    ensures forall v: Var, unused: seq<byte> :: EmptyAtEnd(VarAdded(s, v, unused))
    ensures forall i: nat, gap: seq<byte> ::
              i < |s.slots| && s.slots[i].Block? && (s.slots[i].length > 0 || gap == []) && s.slots[i].offset + s.slots[i].length <= |s.data|
              ==> EmptyAtEnd(Appended(s, i, gap))
  {
    hide Image;
  }

  lemma RawSize(r: Raw)
    ensures |RawBytes(r)| == HEADER_SIZE + 4 + 8 * |r.entries| + |r.rest|
  {
  }

  lemma MixedFits(r: Raw, moved: seq<Entry>, i: nat)
    requires RawFits(r) && i <= |r.entries| == |moved|
    requires forall k :: 0 <= k < |moved| ==> EntryFits(moved[k])
    ensures RawFits(r.(entries := moved[..i] + r.entries[i..]))
  {
  }

  // ----- the relocated layout: header, data, variables, padding, index and free list

  function Align16(v: nat): (r: nat)
    ensures r % 16 == 0 && v <= r < v + 16
  {
    (v + 15) / 16 * 16
  }

  ghost function IndexRegion(s: Store, base: nat): seq<byte> {
    BE(|s.slots|) + EntriesBytes(EntriesOf(s.slots, base)) + ZeroBytes(8 * s.spare + FREELIST_SIZE)
  }

  ghost function RelocatedHeader(s: Store): Raw
    requires VarsFit(s.vars)
  {
    var varsOffset := HEADER_SIZE + |s.data|;
    Raw(s.blockCount, Align16(varsOffset + |VarsRegion(s)|), IndexLength(s), varsOffset, |VarsRegion(s)|, 0, [], [])
  }

  /** Data, variables and padding. */
  ghost function RelocatedTail(s: Store): seq<byte>
    requires VarsFit(s.vars)
  {
    var h := RelocatedHeader(s);
    s.data + VarsRegion(s) + ZeroBytes(h.indexOffset - h.varsOffset - h.trailerLen)
  }

  ghost function Relocated(s: Store): seq<byte>
    requires VarsFit(s.vars)
  {
    RawHeader(RelocatedHeader(s)) + (RelocatedTail(s) + IndexRegion(s, HEADER_SIZE))
  }

  /** bom_index_get on any bytes: what an index denotes, unless it is out of range or extends outside the buffer. */
  function BlockIn(m: seq<byte>, i: nat): Option<seq<byte>> {
    if |m| < HEADER_SIZE then None
    else
      var at := U32(m, INDEX_OFFSET);
      if at + 4 > |m| || i >= U32(m, at) || at + 12 + 8 * i > |m| then None
      else
        var offset, length := U32(m, at + 4 + 8 * i), U32(m, at + 8 + 8 * i);
        if offset + length > |m| then None else Some(m[offset..offset + length])
  }

  /** The variables region of any bytes. */
  function VarsIn(m: seq<byte>): Option<seq<byte>> {
    if |m| < HEADER_SIZE then None
    else
      var at, n := U32(m, VARS_OFFSET), U32(m, TRAILER_LEN);
      if at + n > |m| then None else Some(m[at..at + n])
  }

  /** What a store shows to its readers. */
  ghost predicate Shows(m: seq<byte>, s: Store)
    requires WellFormed(s)
  {
    && VarsIn(m) == Some(VarsRegion(s))
    && forall i: nat :: BlockIn(m, i) == if i < |s.slots| then Some(BlockBytes(s, i)) else None
  }

  lemma ImageShows(s: Store)
    requires WellFormed(s)
    ensures Shows(Image(s), s)
  {
    hide BE, U32, VarsBytes, EntriesBytes, RawHeader;
    StoreFits(s);
    RawFields(RawOf(s));
    VarsHeader(s);
    forall i: nat
      ensures BlockIn(Image(s), i) == if i < |s.slots| then Some(BlockBytes(s, i)) else None
    {
      if i < |s.slots| {
        EntryIn(RawOf(s), i);
        BlockInImage(s, i);
      }
    }
  }

  /** The header of the file of a store, at its offsets; the index starts behind it, with the number of its slots. */
  lemma FileHeader(s: Store)
    requires WellFormed(s)
    ensures var m, n := Image(s), 4 + 8 * (|s.slots| + s.spare) + 20;
            && |m| >= 36 && m[..8] == MAGIC && U32(m, 8) == 1 && U32(m, 12) == s.blockCount
            && U32(m, 16) == 32 && U32(m, 20) == n && U32(m, 24) == 32 + n && U32(m, 28) == |VarsRegion(s)|
            && U32(m, 32) == |s.slots|
  {
    hide BE, U32, VarsBytes, EntriesBytes, RawHeader;
    StoreFits(s);
    RawFields(RawOf(s));
  }

  /** The block count announces the slots in use after the last block was added; unused slots do not count. */
  lemma BlocksCounted(s: Store, data: seq<byte>, count: nat)
    requires WellFormed(Added(s, data))
    ensures U32(Image(Added(s, data)), 12) == U32(Image(Added(s, data)), 32) == |s.slots| + 1
    ensures FreeAdded(s, count).blockCount == s.blockCount && |FreeAdded(s, count).slots| == |s.slots| + count
  {
    hide BE, U32, Image;
    FileHeader(Added(s, data));
  }

  /** The words of the index and the bytes of the data section, in the file of a store that need not be well formed. */
  lemma BlockInFile(s: Store, i: nat)
    requires VarsFit(s.vars) && RawFits(RawOf(s)) && i < |s.slots| && s.slots[i].Block?
    ensures |Image(s)| == DataStart(s) + |s.data|
    ensures var o, n := s.slots[i].offset, s.slots[i].length;
            BlockIn(Image(s), i) == if o + n <= |s.data| then Some(s.data[o..o + n]) else None
  {
    hide BE, U32, VarsBytes, EntriesBytes, RawHeader;
    RawFields(RawOf(s));
    RawSize(RawOf(s));
    EntryIn(RawOf(s), i);
    var m, base := Image(s), DataStart(s);
    assert m[base..] == s.data;
    var o, n := s.slots[i].offset, s.slots[i].length;
    if o + n <= |s.data| {
      assert m[base + o..base + o + n] == m[base..][o..o + n];
    }
  }

  /**
   * What readers find after bom_index_append: a block that was not empty shows its old bytes and the gap; an empty
   * one ends outside the file, and is not found any more. All other blocks are as they were.
   */
  lemma AppendedRead(s: Store, i: nat, gap: seq<byte>, j: nat)
    requires WellFormed(s) && EmptyAtEnd(s) && i < |s.slots| && s.slots[i].Block? && |Image(s)| + |gap| < WORD_LIMIT
    requires j < |s.slots| && s.slots[j].Block?
    ensures var found := BlockIn(Image(Appended(s, i, gap)), j);
            if j != i then found == Some(BlockBytes(s, j))
            else if s.slots[i].length > 0 || gap == [] then found == Some(BlockBytes(s, i) + gap)
            else found == None
  {
    hide Image, SlotsOk, Appended, BlockIn, RawFits;
    assert SlotsOk(s.slots, |s.data|);
    InData(s);
    AppendedRaw(s, i, gap);
    BlockAfterAppend(s, i, gap, j);
    BlockInFile(Appended(s, i, gap), j);
  }

  /** The same for the slots and the data section. */
  lemma BlockAfterAppend(s: Store, i: nat, gap: seq<byte>, j: nat)
    requires WellFormed(s) && EmptyAtEnd(s) && i < |s.slots| && s.slots[i].Block?
    requires s.slots[i].offset + s.slots[i].length <= |s.data|
    requires j < |s.slots| && s.slots[j].Block? && s.slots[j].offset + s.slots[j].length <= |s.data|
    ensures var s' := Appended(s, i, gap);
            && |s'.slots| == |s.slots| && s'.slots[j].Block?
            && var o, n := s'.slots[j].offset, s'.slots[j].length;
               if j == i && s.slots[i].length == 0 && gap != [] then o + n > |s'.data|
               else o + n <= |s'.data| && s'.data[o..o + n] == if j == i then BlockBytes(s, i) + gap else BlockBytes(s, j)
  {
    hide Image, SlotsOk;
    assert SlotsOk(s.slots, |s.data|);
    if s.slots[i].length > 0 || gap == [] {
      AppendedKeeps(s, i, gap);
      InData(Appended(s, i, gap));
    } else if j == i {
      EmptyBlockMoves(s, i, gap);
    } else if s.slots[j].length > 0 {
      GapKeeps(s.data, |s.data|, gap, s.slots[j].offset, s.slots[j].length);
    }
  }

  lemma AppendedRaw(s: Store, i: nat, gap: seq<byte>)
    requires WellFormed(s) && i < |s.slots| && s.slots[i].Block? && |Image(s)| + |gap| < WORD_LIMIT
    requires s.slots[i].offset + s.slots[i].length <= |s.data|
    ensures VarsFit(Appended(s, i, gap).vars) && RawFits(RawOf(Appended(s, i, gap)))
  {
    hide BE, VarsBytes, EntriesBytes;
    StoreFits(s);
    AppendFits(s, s.slots[i].offset + s.slots[i].length, |gap|);
    AppendedImage(s, i, gap, MovedSlots(s.slots, s.slots[i].offset + s.slots[i].length, |gap|));
  }

  lemma RelocatedFits(s: Store)
    requires WellFormed(s) && |Image(s)| + 15 < WORD_LIMIT
    ensures RawFits(RelocatedHeader(s)) && |Relocated(s)| < WORD_LIMIT
    ensures |Relocated(s)| == RelocatedHeader(s).indexOffset + IndexLength(s)
    ensures forall i :: 0 <= i < |s.slots| ==> EntryFits(EntriesOf(s.slots, HEADER_SIZE)[i])
    ensures forall i :: 0 <= i < |s.slots| ==> EntryFits(EntriesOf(s.slots, DataStart(s))[i])
  {
    hide BE, VarsBytes, EntriesBytes;
    StoreFits(s);
    EntriesFit(s.slots, HEADER_SIZE, |s.data|);
  }

  /** A header in front of anything. */
  lemma HeaderFields(h: Raw, back: seq<byte>)
    requires RawFits(h)
    ensures var b := RawHeader(h) + back;
            && U32(b, INDEX_OFFSET) == h.indexOffset && U32(b, INDEX_LENGTH) == h.indexLength
            && U32(b, VARS_OFFSET) == h.varsOffset && U32(b, TRAILER_LEN) == h.trailerLen
  {
    hide BE, U32;
    var b := RawHeader(h) + back;
    WordIn(b, INDEX_OFFSET, h.indexOffset);
    WordIn(b, INDEX_LENGTH, h.indexLength);
    WordIn(b, VARS_OFFSET, h.varsOffset);
    WordIn(b, TRAILER_LEN, h.trailerLen);
  }

  /** The words of the index, from its own offset. */
  lemma IndexWords(front: seq<byte>, s: Store, base: nat, i: nat)
    requires |s.slots| < WORD_LIMIT && (i < |s.slots| ==> EntryFits(EntriesOf(s.slots, base)[i]))
    ensures var b, at := front + IndexRegion(s, base), |front|;
            U32(b, at) == |s.slots|
            && (i < |s.slots| ==> U32(b, at + 4 + 8 * i) == EntryOf(s.slots[i], base).address
                                  && U32(b, at + 8 + 8 * i) == EntryOf(s.slots[i], base).length)
  {
    hide BE, U32, EntriesBytes;
    var es, zeros := EntriesOf(s.slots, base), ZeroBytes(8 * s.spare + FREELIST_SIZE);
    var b := front + IndexRegion(s, base);
    assert b == front + BE(|s.slots|) + (EntriesBytes(es) + zeros);
    U32At(front, |s.slots|, EntriesBytes(es) + zeros);
    if i < |s.slots| {
      assert b == (front + BE(|s.slots|)) + EntriesBytes(es) + zeros;
      EntryWords(front + BE(|s.slots|), es, zeros, i);
    }
  }

  /** Readers see the same store in the relocated layout. */
  lemma RelocatedShows(s: Store)
    requires WellFormed(s) && |Image(s)| + 15 < WORD_LIMIT
    ensures Shows(Relocated(s), s)
    ensures var m := Relocated(s);
            && U32(m, INDEX_OFFSET) % 16 == 0 && |m| == U32(m, INDEX_OFFSET) + U32(m, INDEX_LENGTH)
  {
    hide BE, U32, VarsBytes, EntriesBytes, RawHeader, IndexRegion, Align16;
    RelocatedFits(s);
    var h, m := RelocatedHeader(s), Relocated(s);
    HeaderFields(h, RelocatedTail(s) + IndexRegion(s, HEADER_SIZE));
    assert m[h.varsOffset..h.varsOffset + h.trailerLen] == VarsRegion(s);
    var front := RawHeader(h) + RelocatedTail(s);
    assert m == front + IndexRegion(s, HEADER_SIZE);
    forall i: nat
      ensures BlockIn(m, i) == if i < |s.slots| then Some(BlockBytes(s, i)) else None
    {
      RelocatedBlock(s, front, m, i);
    }
  }

  lemma RelocatedBlock(s: Store, front: seq<byte>, m: seq<byte>, i: nat)
    requires WellFormed(s) && |Image(s)| + 15 < WORD_LIMIT && m == front + IndexRegion(s, HEADER_SIZE)
    requires |front| >= HEADER_SIZE + |s.data|
    requires U32(m, INDEX_OFFSET) == |front| && front[HEADER_SIZE..HEADER_SIZE + |s.data|] == s.data
    ensures BlockIn(m, i) == if i < |s.slots| then Some(BlockBytes(s, i)) else None
  {
    hide BE, U32, VarsBytes, EntriesBytes, RawHeader;
    StoreFits(s);
    RelocatedFits(s);
    IndexWords(front, s, HEADER_SIZE, i);
    if i < |s.slots| && s.slots[i].Block? {
      var o, n := s.slots[i].offset, s.slots[i].length;
      SliceOfSlice(front, HEADER_SIZE, |s.data|, o, n);
      assert m[HEADER_SIZE + o..HEADER_SIZE + o + n] == front[HEADER_SIZE + o..HEADER_SIZE + o + n];
    }
  }

  /** The parts of the file, before the move. */
  lemma ImageParts(s: Store)
    requires WellFormed(s)
    ensures var m, base := Image(s), DataStart(s);
            && |m| == base + |s.data| && m[..HEADER_SIZE] == RawHeader(RawOf(s))
            && HEADER_SIZE + IndexLength(s) + |VarsRegion(s)| == base
            && m[HEADER_SIZE..HEADER_SIZE + IndexLength(s)] == IndexRegion(s, base)
            && m[HEADER_SIZE + IndexLength(s)..base] == VarsRegion(s)
            && m[base..base + |s.data|] == s.data
  {
    hide BE, VarsBytes, EntriesBytes, RawHeader;
    StoreFits(s);
    var m, base := Image(s), DataStart(s);
    assert m == RawHeader(RawOf(s)) + IndexRegion(s, base) + VarsRegion(s) + s.data;
  }

  lemma WriteHeaderField(h: Raw, back: seq<byte>, v: nat)
    ensures Overwrite(RawHeader(h) + back, VARS_OFFSET, BE(v)) == RawHeader(h.(varsOffset := v)) + back
    ensures Overwrite(RawHeader(h) + back, INDEX_OFFSET, BE(v)) == RawHeader(h.(indexOffset := v)) + back
  {
    hide BE;
  }

  /** Only the header fields that the header shows matter to it. */
  lemma SameHeaderFields(a: Raw, b: Raw)
    requires a.blockCount == b.blockCount && a.indexOffset == b.indexOffset && a.indexLength == b.indexLength
    requires a.varsOffset == b.varsOffset && a.trailerLen == b.trailerLen
    ensures RawHeader(a) == RawHeader(b)
  {
  }

  /** The header fields of a store in its first layout. */
  lemma RawOfFields(s: Store)
    requires WellFormed(s)
    ensures var m := Image(s);
            && U32(m, INDEX_OFFSET) == HEADER_SIZE && U32(m, INDEX_LENGTH) == IndexLength(s)
            && U32(m, VARS_OFFSET) == HEADER_SIZE + IndexLength(s) && U32(m, TRAILER_LEN) == |VarsRegion(s)|
    ensures var r := RawOf(s);
            r.blockCount == s.blockCount && r.indexLength == IndexLength(s) && r.trailerLen == |VarsRegion(s)|
  {
    StoreFits(s);
    RawFields(RawOf(s));
  }

  lemma EntriesInRange(s: Store)
    requires WellFormed(s)
    ensures |s.slots| < WORD_LIMIT
    ensures forall i :: 0 <= i < |s.slots| ==> EntryFits(EntriesOf(s.slots, DataStart(s))[i])
    ensures forall i :: 0 <= i < |s.slots| ==> EntryFits(EntriesOf(s.slots, HEADER_SIZE)[i])
  {
    hide BE, VarsBytes, EntriesBytes;
    StoreFits(s);
    EntriesFit(s.slots, HEADER_SIZE, |s.data|);
  }

  lemma RelocatedIs(s: Store)
    requires VarsFit(s.vars)
    ensures Relocated(s) == RawHeader(RelocatedHeader(s)) + (RelocatedTail(s) + IndexRegion(s, HEADER_SIZE))
  {
  }

  // ----- rewriting a block in place

  function Patched(s: Store, i: nat, at: nat, b: seq<byte>): Store
    requires i < |s.slots| && s.slots[i].Block? && s.slots[i].offset + s.slots[i].length <= |s.data| &&
        at + |b| <= s.slots[i].length
  {
    s.(data := Overwrite(s.data, s.slots[i].offset + at, b))
  }

  lemma PatchedImage(s: Store, i: nat, at: nat, b: seq<byte>)
    requires WellFormed(s) && i < |s.slots| && s.slots[i].Block? && at + |b| <= s.slots[i].length
    ensures WellFormed(Patched(s, i, at, b))
    ensures var k := DataStart(s) + s.slots[i].offset + at;
            k + |b| <= |Image(s)| && Image(Patched(s, i, at, b)) == Overwrite(Image(s), k, b)
  {
    hide BE, VarsBytes, EntriesBytes, RawHeader;
    StoreFits(s);
    var s' := Patched(s, i, at, b);
    assert VarsRegion(s') == VarsRegion(s) && DataStart(s') == DataStart(s);
    var r := RawOf(s);
    var o := |r.rest| - |s.data| + s.slots[i].offset + at;
    assert RawOf(s') == r.(rest := Overwrite(r.rest, o, b));
    WriteRest(r, o, b);
  }

  /** Overwriting inside a stretch of bytes. */
  lemma OverwrittenIn(m: seq<byte>, o: nat, n: nat, at: nat, b: seq<byte>)
    requires o + n <= |m| && at + |b| <= n
    ensures Overwrite(m, o + at, b)[o..o + n] == Overwrite(m[o..o + n], at, b)
  {
  }

  lemma OverwrittenOutside(m: seq<byte>, k: nat, b: seq<byte>, o: nat, n: nat)
    requires k + |b| <= |m| && o + n <= |m| && (o + n <= k || k + |b| <= o)
    ensures Overwrite(m, k, b)[o..o + n] == m[o..o + n]
  {
  }

  /** Only block i changes, and only where it is written. */
  lemma PatchedKeeps(s: Store, i: nat, at: nat, b: seq<byte>)
    requires SlotsOk(s.slots, |s.data|) && i < |s.slots| && s.slots[i].Block? && at + |b| <= s.slots[i].length
    ensures BlockBytes(Patched(s, i, at, b), i) == Overwrite(BlockBytes(s, i), at, b)
    ensures forall j :: 0 <= j < |s.slots| && j != i ==> BlockBytes(Patched(s, i, at, b), j) == BlockBytes(s, j)
  {
    hide SlotsOk, Overwrite;
    InData(s);
    OverwrittenIn(s.data, s.slots[i].offset, s.slots[i].length, at, b);
    forall j | 0 <= j < |s.slots| && j != i
      ensures BlockBytes(Patched(s, i, at, b), j) == BlockBytes(s, j)
    {
      if s.slots[j].Block? {
        ApartBoth(s.slots, |s.data|, i, j);
        OverwrittenOutside(s.data, s.slots[i].offset + at, b, s.slots[j].offset, s.slots[j].length);
      }
    }
  }
}
