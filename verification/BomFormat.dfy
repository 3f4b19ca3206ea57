/** The bytes of a BOM store: header, index with free list, variables, data; all words are big-endian. */
module BomFormat {
  import opened Bits
  import opened Options

  const HEADER_SIZE := 32
  const FREELIST_SIZE := 20
  const WORD_LIMIT := 0x1_0000_0000

  // ----- words

  /** htonl. */
  function BE(v: nat): (b: seq<byte>)
    ensures |b| == 4
  {
    [(v / 256 / 256 / 256 % 256) as byte, (v / 256 / 256 % 256) as byte, (v / 256 % 256) as byte, (v % 256) as byte]
  }

  /** ntohl of the word at a position. */
  function U32(b: seq<byte>, at: nat): (v: nat)
    requires at + 4 <= |b|
    ensures v < WORD_LIMIT
  {
    ((b[at] as int * 256 + b[at + 1] as int) * 256 + b[at + 2] as int) * 256 + b[at + 3] as int
  }

  /** The highest byte comes first: the little-endian word, reversed. */
  lemma BEIsReversed(v: nat)
    ensures forall i :: 0 <= i < 4 ==> BE(v)[i] == LE(v, 4)[3 - i]
  {
    Pow2Values();
    Pow2Words();
    Pow2Add(16, 8);
    forall i | 0 <= i < 4
      ensures BE(v)[i] == LE(v, 4)[3 - i]
    {
      LEByte(v, 4, 3 - i);
      DivTwice(v, 256, 256);
      DivTwice(v, 256 * 256, 256);
    }
  }

  lemma U32OfBE(v: nat)
    requires v < WORD_LIMIT
    ensures U32(BE(v), 0) == v
  {
    assert v / 256 / 256 / 256 < 256;
  }

  lemma U32At(a: seq<byte>, v: nat, c: seq<byte>)
    requires v < WORD_LIMIT
    ensures U32(a + BE(v) + c, |a|) == v
  {
    var b := a + BE(v) + c;
    U32OfBE(v);
    assert forall k :: 0 <= k < 4 ==> b[|a| + k] == BE(v)[k];
  }

  /** Overwrites bytes from a position on. */
  function Overwrite(m: seq<byte>, at: nat, b: seq<byte>): (r: seq<byte>)
    requires at + |b| <= |m|
    ensures |r| == |m|
  {
    m[..at] + b + m[at + |b|..]
  }

  lemma OverwriteMiddle(a: seq<byte>, b: seq<byte>, c: seq<byte>, b': seq<byte>)
    requires |b| == |b'|
    ensures Overwrite(a + b + c, |a|, b') == a + b' + c
  {
    var m := a + b + c;
    assert m[..|a|] == a && m[|a| + |b|..] == c;
  }

  function ZeroBytes(n: nat): (b: seq<byte>)
    ensures |b| == n
  {
    seq(n, _ => 0 as byte)
  }

  // ----- index entries

  /** bom_index. */
  datatype Entry = Entry(address: nat, length: nat)

  ghost predicate EntryFits(e: Entry) {
    e.address < WORD_LIMIT && e.length < WORD_LIMIT
  }

  function EntryBytes(e: Entry): (b: seq<byte>)
    ensures |b| == 8
  {
    BE(e.address) + BE(e.length)
  }

  function EntriesBytes(es: seq<Entry>): (b: seq<byte>)
    ensures |b| == 8 * |es|
  {
    if es == [] then [] else EntriesBytes(es[..|es| - 1]) + EntryBytes(es[|es| - 1])
  }

  lemma {:induction false} EntriesConcat(a: seq<Entry>, b: seq<Entry>)
    ensures EntriesBytes(a + b) == EntriesBytes(a) + EntriesBytes(b)
  {
    hide EntryBytes;
    if b == [] {
      assert a + b == a;
    } else {
      var n := |b| - 1;
      EntriesConcat(a, b[..n]);
      assert (a + b)[..|a + b| - 1] == a + b[..n];
    }
  }

  lemma EntriesSplit(es: seq<Entry>, i: nat)
    requires i < |es|
    ensures EntriesBytes(es) == EntriesBytes(es[..i]) + EntryBytes(es[i]) + EntriesBytes(es[i + 1..])
  {
    hide EntryBytes, EntriesBytes;
    var before, after := es[..i], es[i + 1..];
    EntriesConcat(before, [es[i]]);
    OneEntry(es[i]);
    assert es[..i + 1] == before + [es[i]];
    EntriesConcat(es[..i + 1], after);
    assert es == es[..i + 1] + after;
  }

  lemma OneEntry(e: Entry)
    ensures EntriesBytes([e]) == EntryBytes(e)
  {
    hide EntryBytes;
    assert [e][..0] == [];
  }

  // ----- variables

  /** bom_variable: an index and a name of at most 255 bytes. */
  datatype Var = Var(index: nat, name: seq<byte>)

  ghost predicate VarFits(v: Var) {
    v.index < WORD_LIMIT && |v.name| < 256
  }

  function VarBytes(v: Var): (b: seq<byte>)
    requires |v.name| < 256
    ensures |b| == 5 + |v.name|
  {
    BE(v.index) + [|v.name| as byte] + v.name
  }

  ghost predicate VarsFit(vs: seq<Var>) {
    forall i :: 0 <= i < |vs| ==> VarFits(vs[i])
  }

  ghost function VarsBytes(vs: seq<Var>): (b: seq<byte>)
    requires VarsFit(vs)
  {
    if vs == [] then [] else VarsBytes(vs[..|vs| - 1]) + VarBytes(vs[|vs| - 1])
  }

  lemma {:induction false} VarsConcat(a: seq<Var>, b: seq<Var>)
    requires VarsFit(a) && VarsFit(b)
    ensures VarsFit(a + b) && VarsBytes(a + b) == VarsBytes(a) + VarsBytes(b)
  {
    hide VarBytes;
    if b == [] {
      assert a + b == a;
    } else {
      var n := |b| - 1;
      VarsConcat(a, b[..n]);
      LastOfConcat(a, b);
    }
  }

  lemma LastOfConcat<T>(a: seq<T>, b: seq<T>)
    requires b != []
    ensures (a + b)[..|a + b| - 1] == a + b[..|b| - 1] && (a + b)[|a + b| - 1] == b[|b| - 1]
  {
  }

  lemma VarsFitParts(vs: seq<Var>, i: nat)
    requires i < |vs| && VarsFit(vs)
    ensures VarsFit(vs[..i]) && VarFits(vs[i]) && VarsFit(vs[..i + 1]) && VarsFit(vs[i + 1..])
  {
  }

  lemma SplitAt<T>(s: seq<T>, i: nat)
    requires i < |s|
    ensures s[..i] + [s[i]] == s[..i + 1] && s == s[..i] + [s[i]] + s[i + 1..]
  {
  }

  lemma VarsAround(before: seq<Var>, v: Var, after: seq<Var>)
    requires VarsFit(before) && VarFits(v) && VarsFit(after)
    ensures VarsFit(before + [v]) && VarsFit(before + [v] + after)
    ensures VarsBytes(before + [v]) == VarsBytes(before) + VarBytes(v)
    ensures VarsBytes(before + [v] + after) == VarsBytes(before) + VarBytes(v) + VarsBytes(after)
  {
    hide VarBytes, VarsBytes;
    VarsConcat(before, [v]);
    OneVar(v);
    VarsConcat(before + [v], after);
  }

  lemma VarsSplit(vs: seq<Var>, i: nat)
    requires i < |vs| && VarsFit(vs)
    ensures VarsFit(vs[..i]) && VarsFit(vs[i + 1..])
    ensures VarsBytes(vs) == VarsBytes(vs[..i]) + VarBytes(vs[i]) + VarsBytes(vs[i + 1..])
    ensures VarsBytes(vs[..i + 1]) == VarsBytes(vs[..i]) + VarBytes(vs[i])
  {
    VarsFitParts(vs, i);
    hide VarBytes, VarsBytes, VarsFit;
    VarsAround(vs[..i], vs[i], vs[i + 1..]);
    SplitAt(vs, i);
  }

  lemma OneVar(v: Var)
    requires VarFits(v)
    ensures VarsBytes([v]) == VarBytes(v)
  {
    hide VarBytes;
    assert [v][..0] == [];
  }

  // ----- the whole file

  /** "BOMStore". */
  const MAGIC: seq<byte> := [0x42, 0x4f, 0x4d, 0x53, 0x74, 0x6f, 0x72, 0x65]

  /** The header fields and the entries as they lie in memory; `rest` is everything behind the entries. */
  datatype Raw = Raw(blockCount: nat, indexOffset: nat, indexLength: nat, varsOffset: nat, trailerLen: nat,
                     count: nat, entries: seq<Entry>, rest: seq<byte>)

  function RawHeader(r: Raw): (b: seq<byte>)
    ensures |b| == HEADER_SIZE
  {
    MAGIC + BE(1) + BE(r.blockCount) + BE(r.indexOffset) + BE(r.indexLength) + BE(r.varsOffset) + BE(r.trailerLen)
  }

  function RawBytes(r: Raw): (b: seq<byte>)
    ensures |b| == HEADER_SIZE + 4 + 8 * |r.entries| + |r.rest|
  {
    RawHeader(r) + BE(r.count) + EntriesBytes(r.entries) + r.rest
  }

  ghost predicate RawFits(r: Raw) {
    && r.blockCount < WORD_LIMIT && r.indexOffset < WORD_LIMIT && r.indexLength < WORD_LIMIT
    && r.varsOffset < WORD_LIMIT && r.trailerLen < WORD_LIMIT && r.count < WORD_LIMIT
    && forall i :: 0 <= i < |r.entries| ==> EntryFits(r.entries[i])
  }

  // offsets of the header fields
  const BLOCK_COUNT := 12
  const INDEX_OFFSET := 16
  const INDEX_LENGTH := 20
  const VARS_OFFSET := 24
  const TRAILER_LEN := 28

  /** The header fields and the count can be read back. */
  lemma RawFields(r: Raw)
    requires RawFits(r)
    ensures var b := RawBytes(r);
            && b[..8] == MAGIC && U32(b, 8) == 1
            && U32(b, BLOCK_COUNT) == r.blockCount && U32(b, INDEX_OFFSET) == r.indexOffset
            && U32(b, INDEX_LENGTH) == r.indexLength
            && U32(b, VARS_OFFSET) == r.varsOffset && U32(b, TRAILER_LEN) == r.trailerLen
            && U32(b, HEADER_SIZE) == r.count
  {
    hide BE, U32, EntriesBytes;
    var b := RawBytes(r);
    WordIn(b, 8, 1);
    WordIn(b, BLOCK_COUNT, r.blockCount);
    WordIn(b, INDEX_OFFSET, r.indexOffset);
    WordIn(b, INDEX_LENGTH, r.indexLength);
    WordIn(b, VARS_OFFSET, r.varsOffset);
    WordIn(b, TRAILER_LEN, r.trailerLen);
    WordIn(b, HEADER_SIZE, r.count);
  }

  lemma WordIn(b: seq<byte>, at: nat, v: nat)
    requires at + 4 <= |b| && v < WORD_LIMIT
    ensures b[at..at + 4] == BE(v) ==> U32(b, at) == v
  {
    hide BE;
    if b[at..at + 4] == BE(v) {
      assert b == b[..at] + BE(v) + b[at + 4..];
      U32At(b[..at], v, b[at + 4..]);
    }
  }

  /** The words of an entry, wherever the entries lie. */
  lemma EntryWords(front: seq<byte>, es: seq<Entry>, back: seq<byte>, i: nat)
    requires i < |es| && EntryFits(es[i])
    ensures var b, at := front + EntriesBytes(es) + back, |front| + 8 * i;
            U32(b, at) == es[i].address && U32(b, at + 4) == es[i].length
  {
    hide BE, U32, EntriesBytes;
    EntriesSplit(es, i);
    var e, b := es[i], front + EntriesBytes(es) + back;
    var before, after := front + EntriesBytes(es[..i]), EntriesBytes(es[i + 1..]) + back;
    assert b == before + BE(e.address) + (BE(e.length) + after);
    U32At(before, e.address, BE(e.length) + after);
    assert b == before + BE(e.address) + BE(e.length) + after;
    U32At(before + BE(e.address), e.length, after);
  }

  /** Rewriting the words of an entry, wherever the entries lie. */
  lemma WriteEntryWords(front: seq<byte>, es: seq<Entry>, back: seq<byte>, i: nat, e: Entry)
    requires i < |es|
    ensures var b, b', at := front + EntriesBytes(es) + back, front + EntriesBytes(es[i := e]) + back, |front| + 8 * i;
            && (e.length == es[i].length ==> Overwrite(b, at, BE(e.address)) == b')
            && (e.address == es[i].address ==> Overwrite(b, at + 4, BE(e.length)) == b')
  {
    hide BE, EntriesBytes, Overwrite;
    EntriesSplit(es, i);
    EntriesSplit(es[i := e], i);
    var es' := es[i := e];
    assert es'[..i] == es[..i] && es'[i + 1..] == es[i + 1..];
    var before, after, o := front + EntriesBytes(es[..i]), EntriesBytes(es[i + 1..]) + back, es[i];
    var b, b' := front + EntriesBytes(es) + back, front + EntriesBytes(es') + back;
    assert b == before + BE(o.address) + (BE(o.length) + after) == (before + BE(o.address)) + BE(o.length) + after;
    assert b' == before + BE(e.address) + (BE(e.length) + after) == (before + BE(e.address)) + BE(e.length) + after;
    OverwriteMiddle(before, BE(o.address), BE(o.length) + after, BE(e.address));
    OverwriteMiddle(before + BE(o.address), BE(o.length), after, BE(e.length));
  }

  lemma EntryIn(r: Raw, i: nat)
    requires RawFits(r) && i < |r.entries|
    ensures var b, at := RawBytes(r), HEADER_SIZE + 4 + 8 * i;
            U32(b, at) == r.entries[i].address && U32(b, at + 4) == r.entries[i].length
  {
    hide BE, U32, EntriesBytes, RawHeader;
    EntryWords(RawHeader(r) + BE(r.count), r.entries, r.rest, i);
  }

  /** Header fields and the count can be rewritten in place. */
  lemma WriteField(r: Raw, v: nat)
    ensures var b := RawBytes(r);
            && Overwrite(b, BLOCK_COUNT, BE(v)) == RawBytes(r.(blockCount := v))
            && Overwrite(b, INDEX_OFFSET, BE(v)) == RawBytes(r.(indexOffset := v))
            && Overwrite(b, INDEX_LENGTH, BE(v)) == RawBytes(r.(indexLength := v))
            && Overwrite(b, VARS_OFFSET, BE(v)) == RawBytes(r.(varsOffset := v))
            && Overwrite(b, TRAILER_LEN, BE(v)) == RawBytes(r.(trailerLen := v))
            && Overwrite(b, HEADER_SIZE, BE(v)) == RawBytes(r.(count := v))
  {
    hide BE, EntriesBytes;
  }

  /** So can the words of an entry. */
  lemma WriteEntry(r: Raw, i: nat, e: Entry)
    requires i < |r.entries|
    ensures var at := HEADER_SIZE + 4 + 8 * i;
            && (e.length == r.entries[i].length ==> Overwrite(RawBytes(r), at, BE(e.address)) == RawBytes(r.(entries := r.entries[i := e])))
            && (e.address == r.entries[i].address ==> Overwrite(RawBytes(r), at + 4, BE(e.length)) == RawBytes(r.(entries := r.entries[i := e])))
  {
    hide BE, EntriesBytes, RawHeader, Overwrite;
    SameHeader(r, r.(entries := r.entries[i := e]));
    WriteEntryWords(RawHeader(r) + BE(r.count), r.entries, r.rest, i, e);
  }

  lemma SameHeader(r: Raw, r': Raw)
    requires r' == r.(entries := r'.entries)
    ensures RawHeader(r) == RawHeader(r')
  {
  }

  // ----- opening a gap

  function WithGap(b: seq<byte>, point: nat, gap: seq<byte>): seq<byte>
    requires point <= |b|
  {
    b[..point] + gap + b[point..]
  }

  /** A gap behind the entries. */
  lemma GapInRest(r: Raw, k: nat, gap: seq<byte>)
    requires k <= |r.rest|
    ensures WithGap(RawBytes(r), HEADER_SIZE + 4 + 8 * |r.entries| + k, gap)
            == RawBytes(r.(rest := r.rest[..k] + gap + r.rest[k..]))
  {
    hide BE, EntriesBytes;
  }

  /** Bytes behind the entries rewritten in place. */
  lemma WriteRest(r: Raw, k: nat, b: seq<byte>)
    requires k + |b| <= |r.rest|
    ensures Overwrite(RawBytes(r), HEADER_SIZE + 4 + 8 * |r.entries| + k, b)
        == RawBytes(r.(rest := Overwrite(r.rest, k, b)))
  {
    hide BE, EntriesBytes;
  }

  /** The first 8 bytes behind the entries are the next entry. */
  lemma NextEntry(r: Raw, e: Entry, tail: seq<byte>)
    requires r.rest == EntryBytes(e) + tail
    ensures RawBytes(r) == RawBytes(r.(entries := r.entries + [e], rest := tail))
  {
    hide BE, EntriesBytes, EntryBytes, RawHeader;
    EntriesConcat(r.entries, [e]);
    OneEntry(e);
    var r' := r.(entries := r.entries + [e], rest := tail);
    assert RawHeader(r') == RawHeader(r) by {
      SameHeader(r, r.(entries := r.entries + [e]));
      SameHeaderRest(r.(entries := r.entries + [e]), tail);
    }
  }

  lemma SameHeaderRest(r: Raw, rest: seq<byte>)
    ensures RawHeader(r.(rest := rest)) == RawHeader(r)
  {
  }

  // ----- renumbering

  /** _bom_address_update. */
  function Moved(address: nat, point: nat, delta: nat): nat {
    if address >= point then address + delta else address
  }

  function MovedEntries(es: seq<Entry>, point: nat, delta: nat): (r: seq<Entry>)
    ensures |r| == |es|
  {
    seq(|es|, i requires 0 <= i < |es| => es[i].(address := Moved(es[i].address, point, delta)))
  }

  function MovedRaw(r: Raw, point: nat, delta: nat): Raw {
    r.(entries := MovedEntries(r.entries, point, delta),
       indexOffset := Moved(r.indexOffset, point, delta), varsOffset := Moved(r.varsOffset, point, delta))
  }
}
