/** The BOM store: one byte buffer, resized and renumbered in place. */
module BomStore {
  import opened Bits
  import opened Options
  import opened BomFormat
  import opened BomLayout

  class Context {
    // memory.data; its length is memory.size
    var mem: seq<byte>

    ghost predicate Holds(s: Store)
      reads this
    {
      WellFormed(s) && mem == Image(s)
    }

    /** Overwrites bytes in place. */
    method Write(at: nat, b: seq<byte>)
      requires at + |b| <= |mem|
      modifies this
      ensures mem == Overwrite(old(mem), at, b)
    {
      mem := mem[..at] + b + mem[at + |b|..];
    }

    /** _bom_address_update of one entry. */
    method UpdateEntry(at: nat, point: nat, delta: nat, ghost i: nat, ghost r: Raw)
      requires mem == RawBytes(r) && RawFits(r) && i < |r.entries| && at == HEADER_SIZE + 4 + 8 * i
      modifies this
      ensures mem == RawBytes(r.(entries := r.entries[i := r.entries[i].(address := Moved(r.entries[i].address, point, delta))]))
    {
      hide BE, U32, RawBytes, RawHeader, EntriesBytes, Overwrite, Moved;
      EntryIn(r, i);
      RawSize(r);
      WriteEntry(r, i, r.entries[i].(address := Moved(r.entries[i].address, point, delta)));
      Write(at, BE(Moved(U32(mem, at), point, delta)));
    }

    /** Its loop over the index. */
    method UpdateEntries(index: nat, point: nat, delta: nat, ghost r: Raw)
      requires mem == RawBytes(r) && RawFits(r) && RawFits(MovedRaw(r, point, delta))
      requires index == HEADER_SIZE && r.count == |r.entries|
      modifies this
      ensures mem == RawBytes(r.(entries := MovedEntries(r.entries, point, delta)))
    {
      hide BE, U32, RawBytes, RawHeader, EntriesBytes, Overwrite, Moved;
      RawFields(r);
      RawSize(r);
      ghost var moved := MovedEntries(r.entries, point, delta);
      assert moved[..0] + r.entries[0..] == r.entries;
      for i := 0 to U32(mem, index)
        invariant mem == RawBytes(r.(entries := moved[..i] + r.entries[i..]))
      {
        MixedFits(r, moved, i);
        PrefixReplaced(moved, r.entries, i);
        UpdateEntry(index + 4 + 8 * i, point, delta, i, r.(entries := moved[..i] + r.entries[i..]));
      }
      assert moved[..|moved|] + r.entries[|moved|..] == moved;
    }

    /** _bom_address_update_all. */
    method AddressUpdateAll(point: nat, delta: nat, ghost r: Raw)
      requires mem == RawBytes(r) && RawFits(r) && RawFits(MovedRaw(r, point, delta))
      requires r.indexOffset == HEADER_SIZE && r.count == |r.entries|
      modifies this
      ensures mem == RawBytes(MovedRaw(r, point, delta))
    {
      hide BE, U32, RawBytes, RawHeader, EntriesBytes, MovedEntries, Overwrite, Moved;
      RawFields(r);
      RawSize(r);
      UpdateEntries(U32(mem, INDEX_OFFSET), point, delta, r);
      ghost var now := r.(entries := MovedEntries(r.entries, point, delta));
      RawSize(now);
      RawFields(now);
      WriteField(now, Moved(r.indexOffset, point, delta));
      Write(INDEX_OFFSET, BE(Moved(U32(mem, INDEX_OFFSET), point, delta)));
      now := now.(indexOffset := Moved(r.indexOffset, point, delta));
      RawSize(now);
      RawFields(now);
      WriteField(now, Moved(r.varsOffset, point, delta));
      Write(VARS_OFFSET, BE(Moved(U32(mem, VARS_OFFSET), point, delta)));
    }

    /** memory.resize: what it adds is not initialised. */
    method Resize(size: nat)
      requires size >= |mem|
      modifies this
      ensures |mem| == size && mem[..old(|mem|)] == old(mem)
    {
      var more := new byte[size - |mem|];
      mem := mem + more[..];
    }

    /** _bom_address_resize: renumbers, then opens a gap of arbitrary content. */
    method AddressResize(point: nat, delta: nat, ghost r: Raw) returns (ghost gap: seq<byte>)
      requires mem == RawBytes(r) && RawFits(r) && RawFits(MovedRaw(r, point, delta)) && point <= |mem|
      requires r.indexOffset == HEADER_SIZE && r.count == |r.entries|
      modifies this
      ensures |gap| == delta && mem == WithGap(RawBytes(MovedRaw(r, point, delta)), point, gap)
    {
      hide BE, U32, RawBytes, RawHeader, EntriesBytes;
      AddressUpdateAll(point, delta, r);
      var size := |mem|;
      RawSize(r);
      RawSize(MovedRaw(r, point, delta));
      ghost var b := mem;
      Resize(size + delta);
      // memmove of the tail
      mem := mem[..point + delta] + mem[point..|mem| - delta];
      gap := mem[point..point + delta];
      assert mem[..point] == b[..point];
      assert mem == b[..point] + gap + b[point..];
    }

    /** bom_index_get: the bytes an index denotes, unless it is out of range or extends outside the buffer. */
    method IndexGet(index: nat, ghost s: Store) returns (r: Option<(nat, nat)>)
      requires Holds(s)
      ensures r.Some? == (index < |s.slots|)
      ensures r.Some? ==>
          r.value.0 + r.value.1 <= |mem| && mem[r.value.0..r.value.0 + r.value.1] == BlockBytes(s, index)
      ensures r.Some? && s.slots[index].Block? ==> r.value.0 == DataStart(s) + s.slots[index].offset
    {
      hide BE, U32, RawBytes, RawHeader, EntriesBytes;
      StoreFits(s);
      RawFields(RawOf(s));
      RawSize(RawOf(s));
      var at := U32(mem, INDEX_OFFSET);
      if index >= U32(mem, at) {
        return None;
      }
      EntryIn(RawOf(s), index);
      BlockInImage(s, index);
      var offset, length := U32(mem, at + 4 + 8 * index), U32(mem, at + 8 + 8 * index);
      if offset + length > |mem| {
        return None;
      }
      return Some((offset, length));
    }

    /** bom_index_reserve: room for more slots, right behind those in use. */
    method IndexReserve(count: nat, ghost s: Store)
      requires Holds(s) && |mem| + 8 * count < WORD_LIMIT
      modifies this
      ensures Holds(Reserved(s, count))
    {
      hide BE, U32, RawBytes, RawHeader, EntriesBytes, VarsBytes;
      ghost var r, base := RawOf(s), DataStart(s);
      StoreFits(s);
      RawFields(r);
      RawSize(r);
      var oldIndexLength := U32(mem, INDEX_LENGTH);
      var indexOffset := U32(mem, INDEX_OFFSET);
      var point := indexOffset + 4 + 8 * U32(mem, indexOffset);
      MovedEntriesOf(s.slots, base, point, 8 * count);
      GrownFits(s, 8 * count);
      ghost var gap := AddressResize(point, 8 * count, r);
      ghost var r1 := MovedRaw(r, point, 8 * count);
      GapInRest(r1, 0, gap);
      r1 := r1.(rest := gap + r.rest);
      assert r.rest[..0] + gap + r.rest[0..] == gap + r.rest;
      RawSize(r1);
      WriteField(r1, oldIndexLength + 8 * count);
      Write(INDEX_LENGTH, BE(oldIndexLength + 8 * count));
      r1 := r1.(indexLength := oldIndexLength + 8 * count);
      WriteRest(r1, 0, ZeroBytes(8 * count));
      Write(point, ZeroBytes(8 * count));
      ReservedImage(s, count, gap);
    }

    /**
     * Makes sure that a slot follows the last one in use: the first reserved one, or a new one in front of the free
     * list.
     */
    method OpenSlot(ghost s: Store) returns (ghost slot: seq<byte>)
      requires Holds(s) && |mem| + 8 < WORD_LIMIT
      modifies this
      ensures |slot| == 8 && mem == RawBytes(Opened(s, slot))
    {
      hide BE, U32, RawBytes, RawHeader, EntriesBytes, VarsBytes, Overwrite;
      ghost var r := RawOf(s);
      StoreFits(s);
      RawFields(r);
      RawSize(r);
      OpenedImage(s);
      var indexOffset, indexLength := U32(mem, INDEX_OFFSET), U32(mem, INDEX_LENGTH);
      var indexToAdd := U32(mem, indexOffset);
      var point := indexOffset + 4 + 8 * indexToAdd;
      if 4 + 8 * (indexToAdd + 1) <= indexLength - 16 {
        return ZeroBytes(8);
      }
      MovedEntriesOf(s.slots, DataStart(s), point, 8);
      GrownFits(s, 8);
      slot := AddressResize(point, 8, r);
      ghost var r1 := MovedRaw(r, point, 8);
      GapInRest(r1, 0, slot);
      assert r.rest[..0] + slot + r.rest[0..] == slot + r.rest;
      r1 := r1.(rest := slot + r.rest);
      RawSize(r1);
      RawFits8(r, r1);
      RawFields(r1);
      WriteField(r1, indexLength + 8);
      Write(INDEX_LENGTH, BE(U32(mem, INDEX_LENGTH) + 8));
      r1 := r1.(indexLength := indexLength + 8);
      WriteRest(r1, 8, ZeroBytes(8));
      RawSize(r1);
      Write(point + 8, ZeroBytes(8));
      FreelistStaysZero(slot, s);
    }

    /** Opens a slot, and space for a block at the very end. */
    method OpenBlock(length: nat, ghost s: Store) returns (dataPoint: nat, ghost slot: seq<byte>, ghost gap: seq<byte>)
      requires Holds(s) && |mem| + 8 + length < WORD_LIMIT
      modifies this
      ensures |slot| == 8 && |gap| == length && mem == RawBytes(Stretched(s, slot, gap))
      ensures dataPoint == DataStart(s) + (if s.spare > 0 then 0 else 8) + |s.data|
    {
      hide BE, U32, RawBytes, RawHeader, EntriesBytes, VarsBytes, Overwrite;
      slot := OpenSlot(s);
      ghost var r := Opened(s, slot);
      OpenedFits(s, slot, length);
      RawSize(r);
      dataPoint := |mem|;
      gap := AddressResize(dataPoint, length, r);
      GapInRest(MovedRaw(r, dataPoint, length), |r.rest|, gap);
      assert r.rest[..|r.rest|] + gap + r.rest[|r.rest|..] == r.rest + gap;
    }

    /** Writes the entry into the open slot and the block into the space at the end. */
    method FillBlock(dataPoint: nat, data: seq<byte>, ghost r: Raw, ghost tail: seq<byte>)
      requires mem == RawBytes(r) && RawFits(r) && r.indexOffset == HEADER_SIZE
      requires r.count == |r.entries| < WORD_LIMIT - 1
      requires |r.rest| == 8 + |tail| + |data| && r.rest[8..8 + |tail|] == tail
      requires dataPoint == HEADER_SIZE + 4 + 8 * |r.entries| + 8 + |tail| < WORD_LIMIT
      modifies this
      ensures mem == RawBytes(r.(blockCount := r.count + 1, count := r.count + 1,
                                 entries := r.entries + [Entry(dataPoint, |data|)], rest := tail + data))
    {
      hide BE, U32, RawBytes, RawHeader, EntriesBytes, Overwrite, EntryBytes;
      RawFields(r);
      RawSize(r);
      var index := U32(mem, HEADER_SIZE);
      var at := U32(mem, INDEX_OFFSET) + 4 + 8 * index;
      WriteRest(r, 0, BE(dataPoint));
      Write(at, BE(dataPoint));
      ghost var r1 := r.(rest := Overwrite(r.rest, 0, BE(dataPoint)));
      WriteRest(r1, 4, BE(|data|));
      Write(at + 4, BE(|data|));
      r1 := r1.(rest := Overwrite(r1.rest, 4, BE(|data|)));
      WriteRest(r1, 8 + |tail|, data);
      Write(dataPoint, data);
      r1 := r1.(rest := Overwrite(r1.rest, 8 + |tail|, data));
      AddedRest(r.rest, tail, data, dataPoint);
      NextEntry(r1, Entry(dataPoint, |data|), tail + data);
      r1 := r1.(entries := r1.entries + [Entry(dataPoint, |data|)], rest := tail + data);
      WriteField(r1, index + 1);
      Write(HEADER_SIZE, BE(index + 1));
      WriteField(r1.(count := index + 1), index + 1);
      Write(BLOCK_COUNT, BE(index + 1));
    }

    /** bom_index_add. */
    method IndexAdd(data: seq<byte>, ghost s: Store) returns (index: nat)
      requires Holds(s) && |mem| + 8 + |data| < WORD_LIMIT
      modifies this
      ensures index == |s.slots| && Holds(Added(s, data))
    {
      hide BE, U32, RawBytes, RawHeader, EntriesBytes, VarsBytes, Overwrite, TailOf;
      var dataPoint; ghost var slot, gap;
      dataPoint, slot, gap := OpenBlock(|data|, s);
      ghost var r := Stretched(s, slot, gap);
      StretchedFits(s, slot, gap);
      RawFields(r);
      RawSize(r);
      index := U32(mem, HEADER_SIZE);
      FillBlock(dataPoint, data, r, TailOf(s));
      AddedImage(s, data);
    }

    /** bom_index_append: a gap of arbitrary content behind a block, which grows by it. */
    method IndexAppend(index: nat, length: nat, ghost s: Store) returns (ghost gap: seq<byte>)
      requires Holds(s) && index < |s.slots| && s.slots[index].Block? && |mem| + length < WORD_LIMIT
      modifies this
      ensures |gap| == length && mem == Image(Appended(s, index, gap))
    {
      hide BE, U32, RawBytes, RawHeader, EntriesBytes, VarsBytes, Overwrite, EntriesOf;
      ghost var r, base := RawOf(s), DataStart(s);
      ghost var p := s.slots[index].offset + s.slots[index].length;
      StoreFits(s);
      RawFields(r);
      RawSize(r);
      EntryIn(r, index);
      EntryAt(s.slots, base, index);
      var at := U32(mem, INDEX_OFFSET) + 4 + 8 * index;
      var point := U32(mem, at) + U32(mem, at + 4);
      AppendFits(s, p, length);
      gap := AddressResize(point, length, r);
      ghost var r1 := MovedRaw(r, point, length);
      ghost var k := |r.rest| - |s.data| + p;
      GapInRest(r1, k, gap);
      r1 := r1.(rest := r.rest[..k] + gap + r.rest[k..]);
      RawFields(r1);
      RawSize(r1);
      EntryIn(r1, index);
      ghost var moved := MovedSlots(s.slots, p, length);
      EntryAt(moved, base, index);
      at := U32(mem, INDEX_OFFSET) + 4 + 8 * index;
      WriteEntry(r1, index, EntryOf(Appended(s, index, gap).slots[index], base));
      Write(at + 4, BE(U32(mem, at + 4) + length));
      AppendedImage(s, index, gap, moved);
    }

    /** The loops that walk the variables: the offset behind the last one. */
    method VarsEnd(ghost s: Store) returns (varOffset: nat)
      requires Holds(s)
      ensures varOffset == |VarsBytes(s.vars)|
    {
      hide BE, U32, RawBytes, RawHeader, EntriesBytes, VarsBytes, VarBytes, Image;
      VarsHeader(s);
      NoVars();
      var vars := U32(mem, VARS_OFFSET);
      varOffset := 0;
      for i := 0 to U32(mem, vars)
        invariant VarsFit(s.vars[..i]) && varOffset == |VarsBytes(s.vars[..i])|
      {
        VarIn(s, i);
        varOffset := varOffset + 5 + mem[vars + 4 + varOffset + 4] as nat;
      }
      assert s.vars[..|s.vars|] == s.vars;
    }

    /** bom_variable_get, through bom_variable_iterate: the index of the first variable with the given name, or -1. */
    method VariableGet(name: seq<byte>, ghost s: Store) returns (index: int)
      requires Holds(s)
      ensures index == Lookup(s.vars, name)
    {
      hide BE, U32, RawBytes, RawHeader, EntriesBytes, VarsBytes, VarBytes, Image;
      VarsHeader(s);
      NoVars();
      var vars := U32(mem, VARS_OFFSET);
      var varOffset := 0;
      assert s.vars[0..] == s.vars;
      for i := 0 to U32(mem, vars)
        invariant VarsFit(s.vars[..i]) && varOffset == |VarsBytes(s.vars[..i])|
        invariant Lookup(s.vars, name) == Lookup(s.vars[i..], name)
      {
        VarIn(s, i);
        var at := vars + 4 + varOffset;
        var length := mem[at + 4] as nat;
        varOffset := varOffset + 5 + length;
        var varName := mem[at + 5..at + 5 + length];
        if CString(varName) == name {
          return ToInt(U32(mem, at));
        }
        assert s.vars[i..][1..] == s.vars[i + 1..];
      }
      assert s.vars[|s.vars|..] == [];
      return -1;
    }

    /** Opens a gap behind the last variable. */
    method OpenVar(delta: nat, ghost s: Store) returns (varOffset: nat, ghost gap: seq<byte>)
      requires Holds(s) && |mem| + delta < WORD_LIMIT
      modifies this
      ensures |gap| == delta && mem == RawBytes(VarOpened(s, gap)) && varOffset == |VarsBytes(s.vars)|
      ensures |mem| == old(|mem|) + delta
      ensures VarPoint(s) <= |RawOf(s).rest| && RawFits(VarOpened(s, gap))
    {
      hide BE, U32, RawBytes, RawHeader, EntriesBytes, VarsBytes, VarBytes, WithGap;
      ghost var r := RawOf(s);
      StoreFits(s);
      RawFields(r);
      RawSize(r);
      varOffset := VarsEnd(s);
      var point := U32(mem, VARS_OFFSET) + 4 + varOffset;
      MovedEntriesOf(s.slots, DataStart(s), point, delta);
      GrownFits(s, delta);
      gap := AddressResize(point, delta, r);
      ghost var r1, k := MovedRaw(r, point, delta), VarPoint(s);
      GapInRest(r1, k, gap);
      GapRest(r.rest, k, gap);
    }

    /** bom_variable_add. The length byte keeps the name length modulo 256; the space is rounded up by 1 to 4 bytes. */
    method VariableAdd(name: seq<byte>, index: int, ghost s: Store) returns (ghost unused: seq<byte>)
      requires Holds(s) && |mem| + |name| + 9 < WORD_LIMIT
      modifies this
      ensures Holds(VarAdded(s, StoredVar(name, index), unused)) && |mem| <= old(|mem|) + |name| + 9
    {
      hide BE, U32, RawBytes, RawHeader, EntriesBytes, VarsBytes, VarBytes, Overwrite, WithGap;
      var v := StoredVar(name, index);
      var delta := 5 + |name|;
      delta := delta + 4 - delta % 4;
      var varOffset; ghost var gap;
      varOffset, gap := OpenVar(delta, s);
      ghost var r, k := VarOpened(s, gap), VarPoint(s);
      VarAddedRest(s, v, gap);
      RawSize(r);
      RawFields(r);
      var vars := U32(mem, VARS_OFFSET);
      WriteRest(r, k, VarBytes(v));
      Write(vars + 4 + varOffset, VarBytes(v));
      r := r.(rest := Overwrite(r.rest, k, VarBytes(v)));
      RawSize(r);
      WriteRest(r, 8 * s.spare + FREELIST_SIZE, BE(|s.vars| + 1));
      CountKept(s, gap, v);
      Write(vars, BE(U32(mem, vars) + 1));
      r := r.(rest := Overwrite(r.rest, 8 * s.spare + FREELIST_SIZE, BE(|s.vars| + 1)));
      RawSize(r);
      RawFields(r);
      WriteField(r, r.trailerLen + delta);
      Write(TRAILER_LEN, BE(U32(mem, TRAILER_LEN) + delta));
      unused := gap[5 + |v.name|..];
      VarAddedImage(s, v, unused, delta);
    }

    /** Grows the index by one slot, unless all the unused ones are reserved. */
    method OpenFree(count: nat, ghost s: Store) returns (ghost gap: seq<byte>)
      requires Holds(s) && count > 0 && |mem| + 8 * count < WORD_LIMIT
      modifies this
      ensures |gap| == (if count <= s.spare then 0 else 8) && mem == RawBytes(FreeOpened(s, count, gap))
      ensures RawFits(FreeOpened(s, count, gap))
    {
      hide BE, U32, RawBytes, RawHeader, EntriesBytes, VarsBytes, Overwrite, SlotsOk;
      ghost var r := RawOf(s);
      StoreFits(s);
      RawFields(r);
      RawSize(r);
      assert [] + r.rest == r.rest;
      var index, indexLength := U32(mem, INDEX_OFFSET), U32(mem, INDEX_LENGTH);
      var point := index + 4 + 8 * U32(mem, index);
      if 4 + 8 * (U32(mem, index) + count) <= indexLength - 16 {
        return [];
      }
      MovedEntriesOf(s.slots, DataStart(s), point, 8);
      GrownFits(s, 8);
      gap := AddressResize(point, 8, r);
      ghost var r1 := MovedRaw(r, point, 8);
      GapInRest(r1, 0, gap);
      assert r.rest[..0] + gap + r.rest[0..] == gap + r.rest;
      r1 := r1.(rest := gap + r.rest);
      RawSize(r1);
      RawFits8(r, r1);
      RawFields(r1);
      WriteField(r1, indexLength + 8 * count);
      Write(INDEX_LENGTH, BE(U32(mem, INDEX_LENGTH) + 8 * count));
    }

    /**
     * bom_free_indices_add. When the slots are not all reserved, the index grows by one slot whatever the count, but
     * its length is credited with all of them: the layout survives exactly when one slot is added or all are
     * reserved.
     */
    method FreeIndicesAdd(count: nat, ghost s: Store) returns (last: nat)
      requires Holds(s) && count > 0 && |mem| + 8 * count < WORD_LIMIT
      requires HEADER_SIZE + 4 + 8 * (|s.slots| + count) <= |mem| + (if count > s.spare then 8 else 0)
      modifies this
      ensures last == |s.slots| + count - 1
      ensures count <= s.spare || count == 1 ==> Holds(FreeAdded(s, count))
      ensures count > s.spare && count > 1 ==> forall s' :: !Holds(s')
    {
      hide BE, U32, RawBytes, RawHeader, EntriesBytes, VarsBytes, Overwrite, WellFormed, FreeTail, FreeOpened;
      FreeOpenedShape(s, count);
      ghost var gap := OpenFree(count, s);
      ghost var r := FreeOpened(s, count, gap);
      RawFields(r);
      RawSize(r);
      var index := U32(mem, INDEX_OFFSET);
      var n := U32(mem, index);
      ClearSlots(index + 4 + 8 * n, count, r);
      ghost var r2 := r.(rest := Overwrite(r.rest, 0, ZeroBytes(8 * count)));
      RawSize(r2);
      RawFields(r2);
      WriteField(r2, n + count);
      Write(HEADER_SIZE, BE(U32(mem, HEADER_SIZE) + count));
      last := n + count - 1;
      if count > s.spare && count > 1 {
        NoStore(r2.(count := n + count));
      } else {
        FreeAddedRest(s, count, gap);
        NextFreeEntries(r2.(count := n + count), count, FreeTail(s, count));
        FreeAddedImage(s, count);
      }
    }

    /** Clears `count` slots behind those in use. */
    method ClearSlots(at: nat, count: nat, ghost r: Raw)
      requires mem == RawBytes(r) && at == HEADER_SIZE + 4 + 8 * |r.entries| && 8 * count <= |r.rest|
      modifies this
      ensures mem == RawBytes(r.(rest := Overwrite(r.rest, 0, ZeroBytes(8 * count))))
    {
      hide RawBytes, Overwrite;
      NothingOverwritten(r.rest);
      for i := 0 to count
        invariant mem == RawBytes(r.(rest := Overwrite(r.rest, 0, ZeroBytes(8 * i))))
      {
        ghost var now := r.(rest := Overwrite(r.rest, 0, ZeroBytes(8 * i)));
        RawSize(now);
        WriteRest(now, 8 * i, ZeroBytes(8));
        MoreZeros(r.rest, 8 * i);
        Write(at + 8 * i, ZeroBytes(8));
      }
    }

    /** Overwrites bytes behind what is already set. */
    method Fill(at: nat, b: seq<byte>)
      requires at + |b| <= |mem|
      modifies this
      ensures |mem| == old(|mem|) && mem[..at + |b|] == old(mem[..at]) + b
    {
      Write(at, b);
      assert mem[..at + |b|] == old(mem[..at]) + b;
    }

    /** bom_alloc_empty: no blocks, no variables, and the two unused entries of the free list. */
    constructor ()
      ensures Holds(EMPTY_STORE)
    {
      mem := [];
      new;
      hide BE, Overwrite;
      var indexSize, freelistSize, variablesSize := 4, FREELIST_SIZE, 4;
      Resize(HEADER_SIZE + indexSize + freelistSize + variablesSize);
      Fill(0, MAGIC);
      Fill(8, BE(1));
      Fill(12, BE(0));
      Fill(16, BE(HEADER_SIZE));
      Fill(20, BE(indexSize + freelistSize));
      Fill(24, BE(HEADER_SIZE + indexSize + freelistSize));
      Fill(28, BE(variablesSize));
      ghost var header := mem[..32];
      Fill(32, BE(0));
      ghost var counted := mem[..36];
      Fill(36, BE(0));
      Fill(40, BE(0) + BE(0));
      Fill(48, BE(0) + BE(0));
      assert mem[..56] == counted + (BE(0) + (BE(0) + BE(0)) + (BE(0) + BE(0)));
      Fill(56, BE(0));
      EmptyImage(header);
    }

    /** Writes data, variables, padding and index one after the other behind the header, in a resized buffer. */
    method LayOut(data: seq<byte>, variables: seq<byte>, padding: nat, index: seq<byte>)
      requires HEADER_SIZE <= |mem| <= HEADER_SIZE + |data| + |variables| + padding + |index|
      modifies this
      ensures mem == old(mem[..HEADER_SIZE]) + (data + variables + ZeroBytes(padding)) + index
    {
      var at := HEADER_SIZE + |data|;
      ghost var header := mem[..HEADER_SIZE];
      Resize(at + |variables| + padding + |index|);
      assert mem[..HEADER_SIZE] == header;
      Fill(HEADER_SIZE, data);
      Fill(at, variables);
      Fill(at + |variables|, ZeroBytes(padding));
      Fill(at + |variables| + padding, index);
      assert mem == mem[..|mem|] == header + data + variables + ZeroBytes(padding) + index;
      assert header + data + variables + ZeroBytes(padding) == header + (data + variables + ZeroBytes(padding));
    }

    /** Lays out header, data, variables, padding and index one after the other. */
    method MoveParts(ghost s: Store) returns (indexOffset: nat, variablesOffset: nat)
      requires Holds(s) && |mem| + 15 < WORD_LIMIT && s.data != []
      modifies this
      ensures variablesOffset == RelocatedHeader(s).varsOffset && indexOffset == RelocatedHeader(s).indexOffset
      ensures indexOffset == HEADER_SIZE + |RelocatedTail(s)|
      ensures mem == RawHeader(RawOf(s)) + RelocatedTail(s) + IndexRegion(s, DataStart(s))
    {
      hide BE, U32, RawBytes, RawHeader, EntriesBytes, VarsBytes, VarsRegion, IndexRegion, Image;
      RawOfFields(s);
      ImageParts(s);
      var oldIndex, indexLength := U32(mem, INDEX_OFFSET), U32(mem, INDEX_LENGTH);
      var oldVariables, trailerLen := U32(mem, VARS_OFFSET), U32(mem, TRAILER_LEN);
      var chunkEnd := oldVariables + trailerLen;
      var dataLen := |mem| - chunkEnd;
      variablesOffset := oldIndex + dataLen;
      var unaligned := variablesOffset + trailerLen;
      indexOffset := Align16(unaligned);
      LayOut(mem[chunkEnd..chunkEnd + dataLen], mem[oldVariables..chunkEnd], indexOffset - unaligned,
          mem[oldIndex..oldIndex + indexLength]);
    }

    /** One entry of the index: unused ones stay. */
    method MoveEntry(at: nat, chunkEnd: nat, shift: nat, ghost head: seq<byte>, ghost now: seq<Entry>,
        ghost back: seq<byte>, ghost i: nat, ghost moved: Entry)
      requires i < |now| && mem == head + EntriesBytes(now) + back && at == |head| + 8 * i && EntryFits(now[i])
      requires shift <= chunkEnd
      requires moved == if now[i].address >= chunkEnd then Entry(now[i].address - shift, now[i].length) else now[i]
      modifies this
      ensures mem == head + EntriesBytes(now[i := moved]) + back
    {
      hide BE, U32, EntriesBytes, Overwrite;
      EntryWords(head, now, back, i);
      WriteEntryWords(head, now, back, i, moved);
      var address, length := U32(mem, at), U32(mem, at + 4);
      if address == 0 && length == 0 {
        assert now[i := moved] == now;
        return;
      }
      if address >= chunkEnd {
        Write(at, BE(address - shift));
      } else {
        assert now[i := moved] == now;
      }
    }

    /** Renumbers the blocks, which moved down by `shift`. */
    method MoveEntries(index: nat, chunkEnd: nat, shift: nat, ghost front: seq<byte>, ghost s: Store)
      requires WellFormed(s) && |mem| < WORD_LIMIT && mem == front + IndexRegion(s, DataStart(s)) && index == |front|
      requires chunkEnd == DataStart(s) && shift == chunkEnd - HEADER_SIZE
      modifies this
      ensures mem == front + IndexRegion(s, HEADER_SIZE)
    {
      hide BE, U32, EntriesBytes, Overwrite, VarsRegion, WellFormed, EntriesOf;
      ghost var es, moved := EntriesOf(s.slots, chunkEnd), EntriesOf(s.slots, HEADER_SIZE);
      ghost var zeros, head := ZeroBytes(8 * s.spare + FREELIST_SIZE), front + BE(|s.slots|);
      EntriesInRange(s);
      IndexWords(front, s, chunkEnd, |s.slots|);
      assert mem == head + EntriesBytes(es) + zeros;
      assert moved[..0] + es[0..] == es;
      for i := 0 to U32(mem, index)
        invariant mem == head + EntriesBytes(moved[..i] + es[i..]) + zeros
      {
        EntryAt(s.slots, chunkEnd, i);
        EntryAt(s.slots, HEADER_SIZE, i);
        PrefixReplaced(moved, es, i);
        MoveEntry(index + 4 + 8 * i, chunkEnd, shift, head, moved[..i] + es[i..], zeros, i, moved[i]);
      }
      assert moved[..|s.slots|] + es[|s.slots|..] == moved;
      assert mem == front + IndexRegion(s, HEADER_SIZE);
    }

    /**
     * bom_relocate_trailer: moves the variables and the index behind the data. Every index and every variable reads
     * as before, the index is aligned to 16 bytes, and the file ends with it.
     */
    method RelocateTrailer(ghost s: Store)
      requires Holds(s) && |mem| + 15 < WORD_LIMIT
      modifies this
      ensures if s.data == [] then mem == old(mem) else mem == Relocated(s)
      ensures Shows(mem, s)
      ensures s.data != [] ==>
          U32(mem, INDEX_OFFSET) % 16 == 0 && |mem| == U32(mem, INDEX_OFFSET) + U32(mem, INDEX_LENGTH)
    {
      hide BE, U32, RawBytes, RawHeader, EntriesBytes, VarsBytes, Shows, IndexRegion, VarsRegion, Image,
        RelocatedTail, Relocated;
      ImageShows(s);
      RelocatedShows(s);
      RawOfFields(s);
      ImageParts(s);
      RelocatedFits(s);
      var chunkEnd := U32(mem, VARS_OFFSET) + U32(mem, TRAILER_LEN);
      if chunkEnd >= |mem| {
        return;
      }
      var indexOffset, variablesOffset := MoveParts(s);
      ghost var front := RawHeader(RawOf(s)) + RelocatedTail(s);
      assert mem == front + IndexRegion(s, DataStart(s));
      MoveEntries(indexOffset, chunkEnd, chunkEnd - HEADER_SIZE, front, s);
      assert front + IndexRegion(s, HEADER_SIZE)
          == RawHeader(RawOf(s)) + (RelocatedTail(s) + IndexRegion(s, HEADER_SIZE));
      PointHeader(variablesOffset, indexOffset, RelocatedTail(s) + IndexRegion(s, HEADER_SIZE), s);
      assert mem == Relocated(s) by { RelocatedIs(s); }
    }

    /** The header fields for the new layout. */
    method PointHeader(variablesOffset: nat, indexOffset: nat, ghost back: seq<byte>, ghost s: Store)
      requires WellFormed(s) && mem == RawHeader(RawOf(s)) + back
      requires variablesOffset == RelocatedHeader(s).varsOffset && indexOffset == RelocatedHeader(s).indexOffset
      modifies this
      ensures mem == RawHeader(RelocatedHeader(s)) + back
    {
      hide BE, RawHeader, VarsBytes, VarsRegion, Overwrite;
      ghost var h := RawOf(s);
      WriteHeaderField(h, back, variablesOffset);
      Write(VARS_OFFSET, BE(variablesOffset));
      WriteHeaderField(h.(varsOffset := variablesOffset), back, indexOffset);
      Write(INDEX_OFFSET, BE(indexOffset));
      SameHeaderFields(h.(varsOffset := variablesOffset, indexOffset := indexOffset), RelocatedHeader(s));
    }

    /** Writes through a pointer into a block. */
    method Patch(index: nat, at: nat, b: seq<byte>, ghost s: Store)
      requires Holds(s) && index < |s.slots| && s.slots[index].Block? && at + |b| <= s.slots[index].length
      modifies this
      ensures Holds(Patched(s, index, at, b)) && |mem| == old(|mem|)
    {
      hide Image;
      PatchedImage(s, index, at, b);
      var block := IndexGet(index, s);
      Write(block.value.0 + at, b);
    }
  }

  /** One more element of a sequence that is replaced from the front. */
  lemma PrefixReplaced<T>(a: seq<T>, b: seq<T>, i: nat)
    requires i < |a| == |b|
    ensures (a[..i] + b[i..])[i] == b[i] && (a[..i] + b[i..])[i := a[i]] == a[..i + 1] + b[i + 1..]
  {
  }

  /**
   * Appending to a block that was added empty, in a store built by the operations alone: the index leads outside the
   * file.
   */
  method AppendToEmpty() returns (store: Context, index: nat)
    ensures fresh(store) && index == 0 && BlockIn(store.mem, index) == None
  {
    hide Image, SlotsOk;
    store := new Context();
    EmptySize();
    index := store.IndexAdd([], EMPTY_STORE);
    ghost var s := Added(EMPTY_STORE, []);
    EmptyStaysAtEnd(EMPTY_STORE);
    ghost var gap := store.IndexAppend(index, 1, s);
    AppendedRead(s, index, gap, index);
  }

  /** Two free indices asked for in an empty store: afterwards the file is the layout of no store at all. */
  method FreeTwoIndices() returns (store: Context)
    ensures fresh(store) && forall s :: !store.Holds(s)
  {
    hide Image;
    store := new Context();
    EmptySize();
    var last := store.FreeIndicesAdd(2, EMPTY_STORE);
  }

  /** The size of an empty store, and of one with an empty block. */
  lemma EmptySize()
    requires WellFormed(EMPTY_STORE)
    ensures |Image(EMPTY_STORE)| == 60
    ensures WellFormed(Added(EMPTY_STORE, [])) ==> |Image(Added(EMPTY_STORE, []))| <= 68
  {
    hide BE, VarsBytes, EntriesBytes;
    StoreFits(EMPTY_STORE);
    NoVars();
    if WellFormed(Added(EMPTY_STORE, [])) {
      StoreFits(Added(EMPTY_STORE, []));
    }
  }
}
