/** BOM trees: a header block that points to a sorted leaf, kept inside the moving buffer of a store. */
module BomTree {
  import opened Bits
  import opened Options
  import opened BomFormat
  import opened BomLayout
  import opened BomStore

  const TREE_MAGIC: seq<byte> := [0x74, 0x72, 0x65, 0x65]
  const TREE_SIZE := 21
  const NODE_HEADER := 12
  const NODE_SIZE := 4096
  // offsets in the tree header and in a node
  const CHILD := 8
  const PATH_COUNT := 16
  const COUNT := 2
  const FORWARD := 4
  const BACKWARD := 8

  // ----- nodes

  /** htons. */
  function BE16(v: nat): (b: seq<byte>)
    ensures |b| == 2
  {
    [(v / 256 % 256) as byte, (v % 256) as byte]
  }

  /** ntohs of the half-word at a position. */
  function U16(b: seq<byte>, at: nat): (v: nat)
    requires at + 2 <= |b|
    ensures v < 0x1_0000
  {
    b[at] as int * 256 + b[at + 1] as int
  }

  ghost predicate IsNode(b: seq<byte>) {
    |b| >= NODE_HEADER
  }

  function NodeCount(b: seq<byte>): nat
    requires IsNode(b)
  {
    U16(b, COUNT)
  }

  /** bom_tree_entry_indexes. */
  function ValueIndex(b: seq<byte>, i: nat): nat
    requires NODE_HEADER + 8 * (i + 1) <= |b|
  {
    U32(b, NODE_HEADER + 8 * i)
  }

  function KeyIndex(b: seq<byte>, i: nat): nat
    requires NODE_HEADER + 8 * (i + 1) <= |b|
  {
    U32(b, NODE_HEADER + 8 * i + 4)
  }

  /** The node has room for all its entries. */
  ghost predicate NodeFits(b: seq<byte>) {
    IsNode(b) && NODE_HEADER + 8 * NodeCount(b) <= |b|
  }

  // ----- the order of keys

  /** memcmp of the common length, then the shorter key first: negative, zero or positive. */
  function CompareKeys(a: seq<byte>, b: seq<byte>): int {
    if a == [] && b == [] then 0
    else if a == [] then -1
    else if b == [] then 1
    else if a[0] < b[0] then -1
    else if a[0] > b[0] then 1
    else CompareKeys(a[1..], b[1..])
  }

  lemma {:induction false} CompareFlip(a: seq<byte>, b: seq<byte>)
    ensures CompareKeys(a, b) == -CompareKeys(b, a)
    ensures CompareKeys(a, b) == 0 ==> a == b
  {
    if a != [] && b != [] && a[0] == b[0] {
      CompareFlip(a[1..], b[1..]);
      if CompareKeys(a, b) == 0 {
        assert a == [a[0]] + a[1..] && b == [b[0]] + b[1..];
      }
    }
  }

  /** Up to position i the keys agree, and there the first one ends, or has the smaller byte. */
  ghost predicate InFrontAt(a: seq<byte>, b: seq<byte>, i: nat) {
    && i <= |a| && i <= |b| && a[..i] == b[..i]
    && (i == |a| || (i < |b| && a[i] < b[i]))
  }

  /** The order of byte strings: the first is a prefix of the second, or has the smaller byte where they first differ. */
  ghost predicate NotBehind(a: seq<byte>, b: seq<byte>) {
    exists i: nat :: InFrontAt(a, b, i)
  }

  lemma CompareIsOrder(a: seq<byte>, b: seq<byte>)
    ensures CompareKeys(a, b) <= 0 <==> NotBehind(a, b)
    ensures CompareKeys(a, b) == 0 <==> a == b
  {
    CompareFlip(a, b);
    if a == b {
      CompareFlip(a, a);
    }
    if CompareKeys(a, b) <= 0 {
      var i := FirstDifference(a, b);
    }
    if NotBehind(a, b) {
      var i: nat :| InFrontAt(a, b, i);
      InFrontCompares(a, b, i);
    }
  }

  lemma {:induction false} FirstDifference(a: seq<byte>, b: seq<byte>) returns (i: nat)
    requires CompareKeys(a, b) <= 0
    ensures InFrontAt(a, b, i)
  {
    if a == [] || a[0] != b[0] {
      i := 0;
    } else {
      i := FirstDifference(a[1..], b[1..]);
      assert a[..i + 1] == [a[0]] + a[1..][..i] && b[..i + 1] == [b[0]] + b[1..][..i];
      i := i + 1;
    }
  }

  lemma {:induction false} InFrontCompares(a: seq<byte>, b: seq<byte>, i: nat)
    requires InFrontAt(a, b, i)
    ensures CompareKeys(a, b) <= 0
  {
    if i > 0 {
      assert a[0] == a[..i][0] == b[..i][0] == b[0];
      assert a[1..][..i - 1] == a[..i][1..] && b[1..][..i - 1] == b[..i][1..];
      InFrontCompares(a[1..], b[1..], i - 1);
    }
  }

  lemma {:induction false} CompareTransitive(a: seq<byte>, b: seq<byte>, c: seq<byte>)
    requires CompareKeys(a, b) <= 0 && CompareKeys(b, c) <= 0
    ensures CompareKeys(a, c) <= 0
  {
    if a != [] && b != [] && c != [] && a[0] == b[0] && b[0] == c[0] {
      CompareTransitive(a[1..], b[1..], c[1..]);
    }
  }

  ghost predicate Sorted(keys: seq<seq<byte>>) {
    forall i, j :: 0 <= i < j < |keys| ==> CompareKeys(keys[i], keys[j]) <= 0
  }

  /** A place for a key: nothing greater before it, nothing smaller behind it. */
  ghost predicate Place(keys: seq<seq<byte>>, key: seq<byte>, at: nat) {
    && at <= |keys|
    && (forall i :: 0 <= i < at ==> CompareKeys(keys[i], key) <= 0)
    && (forall i :: at <= i < |keys| ==> CompareKeys(key, keys[i]) <= 0)
  }

  function Inserted<T>(s: seq<T>, at: nat, x: T): seq<T>
    requires at <= |s|
  {
    s[..at] + [x] + s[at..]
  }

  lemma InsertedSorted(keys: seq<seq<byte>>, key: seq<byte>, at: nat)
    requires Sorted(keys) && Place(keys, key, at)
    ensures Sorted(Inserted(keys, at, key))
  {
    hide CompareKeys;
  }

  /** memcmp with the length tie-break, as bom_tree_add computes it. */
  function CompareAsBytes(key: seq<byte>, other: seq<byte>): int {
    var n := if |other| < |key| then |other| else |key|;
    var result := Memcmp(key[..n], other[..n]);
    if result == 0 && |key| != |other| then (if |key| < |other| then -1 else 1) else result
  }

  function Memcmp(a: seq<byte>, b: seq<byte>): int
    requires |a| == |b|
  {
    if a == [] then 0 else if a[0] < b[0] then -1 else if a[0] > b[0] then 1 else Memcmp(a[1..], b[1..])
  }

  lemma CompareIsLexicographic(key: seq<byte>, other: seq<byte>)
    ensures CompareAsBytes(key, other) == CompareKeys(key, other)
    ensures CompareAsBytes(key, other) <= 0 <==> NotBehind(key, other)
    ensures CompareAsBytes(key, other) >= 0 <==> NotBehind(other, key)
  {
    hide CompareAsBytes, CompareKeys, NotBehind;
    BytesCompared(key, other);
    CompareIsOrder(key, other);
    CompareIsOrder(other, key);
    CompareFlip(key, other);
  }

  lemma {:induction false} BytesCompared(key: seq<byte>, other: seq<byte>)
    ensures CompareAsBytes(key, other) == CompareKeys(key, other)
  {
    if key != [] && other != [] && key[0] == other[0] {
      BytesCompared(key[1..], other[1..]);
      var n := if |other| < |key| then |other| else |key|;
      assert key[..n][1..] == key[1..][..n - 1] && other[..n][1..] == other[1..][..n - 1];
    }
  }

  // ----- a node with an entry inserted

  /** The three writes of bom_tree_add into a leaf: shift, new entry, count. */
  function NodeInserted(b: seq<byte>, at: nat, value: nat, key: nat): (r: seq<byte>)
    requires IsNode(b) && at <= NodeCount(b) && NODE_HEADER + 8 * (NodeCount(b) + 1) <= |b|
    ensures |r| == |b|
  {
    Overwrite(Overwrite(Shifted(b, at), NODE_HEADER + 8 * at, BE(value) + BE(key)), COUNT, BE16(NodeCount(b) + 1))
  }

  function Shifted(b: seq<byte>, at: nat): (r: seq<byte>)
    requires IsNode(b) && at <= NodeCount(b) && NODE_HEADER + 8 * (NodeCount(b) + 1) <= |b|
    ensures |r| == |b|
  {
    Overwrite(b, NODE_HEADER + 8 * (at + 1), b[NODE_HEADER + 8 * at..NODE_HEADER + 8 * NodeCount(b)])
  }

  lemma SameWord(a: seq<byte>, b: seq<byte>, i: nat, j: nat)
    requires i + 4 <= |a| && j + 4 <= |b| && a[i..i + 4] == b[j..j + 4]
    ensures U32(a, i) == U32(b, j)
  {
    var x, y := a[i..i + 4], b[j..j + 4];
    assert x[0] == a[i] && x[1] == a[i + 1] && x[2] == a[i + 2] && x[3] == a[i + 3];
    assert y[0] == b[j] && y[1] == b[j + 1] && y[2] == b[j + 2] && y[3] == b[j + 3];
  }

  /** Entry i is one 8-byte stretch of the node. */
  lemma SameEntry(a: seq<byte>, b: seq<byte>, i: nat, j: nat)
    requires NODE_HEADER + 8 * (i + 1) <= |a| && NODE_HEADER + 8 * (j + 1) <= |b|
    requires a[NODE_HEADER + 8 * i..NODE_HEADER + 8 * i + 8] == b[NODE_HEADER + 8 * j..NODE_HEADER + 8 * j + 8]
    ensures ValueIndex(a, i) == ValueIndex(b, j) && KeyIndex(a, i) == KeyIndex(b, j)
  {
    hide U32;
    var x, y := NODE_HEADER + 8 * i, NODE_HEADER + 8 * j;
    assert a[x..x + 4] == a[x..x + 8][..4] == b[y..y + 8][..4] == b[y..y + 4];
    assert a[x + 4..x + 8] == a[x..x + 8][4..] == b[y..y + 8][4..] == b[y + 4..y + 8];
    SameWord(a, b, x, y);
    SameWord(a, b, x + 4, y + 4);
  }

  /** The node is laid out as before, with the new entry between the old ones. */
  lemma NodeInsertedParts(b: seq<byte>, at: nat, value: nat, key: nat)
    requires IsNode(b) && at <= NodeCount(b) && NODE_HEADER + 8 * (NodeCount(b) + 1) <= |b|
    ensures var n := NodeCount(b);
            var head := Overwrite(b[..NODE_HEADER], COUNT, BE16(n + 1));
            NodeInserted(b, at, value, key)
            == head + b[NODE_HEADER..NODE_HEADER + 8 * at] + (BE(value) + BE(key))
               + b[NODE_HEADER + 8 * at..NODE_HEADER + 8 * n] + b[NODE_HEADER + 8 * (n + 1)..]
  {
    hide BE, BE16, U16, Overwrite;
    var n, e := NodeCount(b), BE(value) + BE(key);
    var k := NODE_HEADER + 8 * at;
    var front, moved, tail := b[..k], b[k..NODE_HEADER + 8 * n], b[NODE_HEADER + 8 * (n + 1)..];
    assert Shifted(b, at) == front + b[k..k + 8] + (moved + tail) by {
      assert b == (front + b[k..k + 8]) + b[k + 8..k + 8 + |moved|] + tail;
      OverwriteMiddle(front + b[k..k + 8], b[k + 8..k + 8 + |moved|], tail, moved);
      assert front + b[k..k + 8] + moved + tail == front + b[k..k + 8] + (moved + tail);
    }
    OverwriteMiddle(front, b[k..k + 8], moved + tail, e);
    assert front == b[..NODE_HEADER] + b[NODE_HEADER..k];
    HeadOverwritten(b[..NODE_HEADER], b[NODE_HEADER..k], e, moved, tail, BE16(n + 1));
  }

  lemma HeadOverwritten(head: seq<byte>, front: seq<byte>, e: seq<byte>, moved: seq<byte>, tail: seq<byte>,
      count: seq<byte>)
    requires |head| == NODE_HEADER && |count| == 2
    ensures Overwrite(head + front + e + (moved + tail), COUNT, count)
        == Overwrite(head, COUNT, count) + front + e + moved + tail
  {
    hide Overwrite;
    var a, c, rest := head[..COUNT], head[COUNT + 2..], front + e + moved + tail;
    assert head == a + head[COUNT..COUNT + 2] + c;
    OverwriteMiddle(a, head[COUNT..COUNT + 2], c, count);
    assert head + front + e + (moved + tail) == a + head[COUNT..COUNT + 2] + (c + rest);
    OverwriteMiddle(a, head[COUNT..COUNT + 2], c + rest, count);
    assert a + count + (c + rest) == (a + count + c) + front + e + moved + tail;
  }

  /** Equal stretches hold equal entries. */
  lemma SameEntries(a: seq<byte>, b: seq<byte>, i: nat, j: nat, m: nat)
    requires NODE_HEADER + 8 * (i + m) <= |a| && NODE_HEADER + 8 * (j + m) <= |b|
    requires a[NODE_HEADER + 8 * i..NODE_HEADER + 8 * i + 8 * m] == b[NODE_HEADER + 8 * j..NODE_HEADER + 8 * j + 8 * m]
    ensures forall x :: i <= x < i + m ==>
        ValueIndex(a, x) == ValueIndex(b, x - i + j) && KeyIndex(a, x) == KeyIndex(b, x - i + j)
  {
    hide U32, ValueIndex, KeyIndex;
    forall x | i <= x < i + m
      ensures ValueIndex(a, x) == ValueIndex(b, x - i + j) && KeyIndex(a, x) == KeyIndex(b, x - i + j)
    {
      SliceOfSlice(a, NODE_HEADER + 8 * i, 8 * m, 8 * (x - i), 8);
      SliceOfSlice(b, NODE_HEADER + 8 * j, 8 * m, 8 * (x - i), 8);
      SameEntry(a, b, x, x - i + j);
    }
  }

  lemma NodeInsertedSlices(b: seq<byte>, at: nat, value: nat, key: nat)
    requires IsNode(b) && at <= NodeCount(b) < 0xffff && NODE_HEADER + 8 * (NodeCount(b) + 1) <= |b|
    ensures var n, r, k := NodeCount(b), NodeInserted(b, at, value, key), NODE_HEADER + 8 * at;
            && NodeCount(r) == n + 1 && r[k..k + 8] == BE(value) + BE(key)
            && r[NODE_HEADER..k] == b[NODE_HEADER..k] && r[k + 8..k + 8 + 8 * (n - at)] == b[k..k + 8 * (n - at)]
            && r[FORWARD..NODE_HEADER] == b[FORWARD..NODE_HEADER] && r[..COUNT] == b[..COUNT]
  {
    hide BE;
    NodeInsertedParts(b, at, value, key);
    var n, r, k := NodeCount(b), NodeInserted(b, at, value, key), NODE_HEADER + 8 * at;
    var head := Overwrite(b[..NODE_HEADER], COUNT, BE16(n + 1));
    assert r[..NODE_HEADER] == head;
    assert head[COUNT] == BE16(n + 1)[0] && head[COUNT + 1] == BE16(n + 1)[1];
    assert U16(r, COUNT) == U16(head, COUNT);
  }

  /** Entries before the place stay, the new one is there, those behind it move up by one. */
  ghost predicate EntryInserted(b: seq<byte>, r: seq<byte>, at: nat, value: nat, key: nat)
    requires NodeFits(b)
  {
    && NodeFits(r) && at <= NodeCount(b) && NodeCount(r) == NodeCount(b) + 1
    && ValueIndex(r, at) == value && KeyIndex(r, at) == key
    && (forall i :: 0 <= i < at ==> ValueIndex(r, i) == ValueIndex(b, i) && KeyIndex(r, i) == KeyIndex(b, i))
    && (forall i :: at < i <= NodeCount(b) ==> ValueIndex(r, i) == ValueIndex(b, i - 1) && KeyIndex(r, i) == KeyIndex(b, i - 1))
  }

  lemma NodeInsertedEntries(b: seq<byte>, at: nat, value: nat, key: nat)
    requires IsNode(b) && at <= NodeCount(b) < 0xffff && NODE_HEADER + 8 * (NodeCount(b) + 1) <= |b|
    requires value < WORD_LIMIT && key < WORD_LIMIT
    ensures EntryInserted(b, NodeInserted(b, at, value, key), at, value, key)
  {
    hide BE, U32, NodeInserted, ValueIndex, KeyIndex, U16;
    NodeInsertedSlices(b, at, value, key);
    var n, r, k := NodeCount(b), NodeInserted(b, at, value, key), NODE_HEADER + 8 * at;
    NewEntry(r, r[..k], value, key, at);
    SameEntries(r, b, 0, 0, at);
    SameEntries(r, b, at + 1, at, n - at);
  }

  lemma NewEntry(r: seq<byte>, front: seq<byte>, value: nat, key: nat, at: nat)
    requires |front| == NODE_HEADER + 8 * at && |front| + 8 <= |r| && value < WORD_LIMIT && key < WORD_LIMIT
    requires r[|front|..|front| + 8] == BE(value) + BE(key)
    ensures ValueIndex(r, at) == value && KeyIndex(r, at) == key
  {
    hide BE, U32;
    var k := |front|;
    assert r[k..k + 4] == r[k..k + 8][..4] == BE(value) && r[k + 4..k + 8] == r[k..k + 8][4..] == BE(key);
    WordIn(r, k, value);
    WordIn(r, k + 4, key);
  }

  // ----- trees in a store

  datatype Pair = Pair(key: seq<byte>, value: seq<byte>)

  /**
   * The tree called `name`: header block t, and its one leaf p, whose keys and values are other blocks; keys are
   * sorted.
   */
  ghost predicate TreeOk(s: Store, name: seq<byte>, t: nat, p: nat) {
    && WellFormed(s) && Lookup(s.vars, name) == t && HasName(s.vars, name)
    && t < |s.slots| && s.slots[t].Block? && s.slots[t].length >= TREE_SIZE && U32(BlockBytes(s, t), CHILD) == p
    && p < |s.slots| && s.slots[p].Block? && p != t
    && EntriesOk(s, t, p) && Sorted(Keys(s, p))
  }

  ghost predicate EntriesOk(s: Store, t: nat, p: nat)
    requires WellFormed(s) && p < |s.slots|
  {
    var b := BlockBytes(s, p);
    NodeFits(b)
    && forall i :: 0 <= i < NodeCount(b) ==>
        PayloadIndex(s, t, p, KeyIndex(b, i)) && PayloadIndex(s, t, p, ValueIndex(b, i))
  }

  /** An index of a block that is neither the header nor the leaf of the tree. */
  ghost predicate PayloadIndex(s: Store, t: nat, p: nat, i: nat) {
    i < |s.slots| && i != t && i != p
  }

  ghost function Keys(s: Store, p: nat): (keys: seq<seq<byte>>)
    requires WellFormed(s) && p < |s.slots| && NodeFits(BlockBytes(s, p))
    requires var b := BlockBytes(s, p); forall i :: 0 <= i < NodeCount(b) ==> KeyIndex(b, i) < |s.slots|
  {
    var b := BlockBytes(s, p);
    seq(NodeCount(b), i requires 0 <= i < NodeCount(b) => BlockBytes(s, KeyIndex(b, i)))
  }

  /** The key-value pairs, in the order of iteration. */
  ghost function Pairs(s: Store, p: nat): (pairs: seq<Pair>)
    requires WellFormed(s) && p < |s.slots| && NodeFits(BlockBytes(s, p))
    requires var b := BlockBytes(s, p);
             forall i :: 0 <= i < NodeCount(b) ==> KeyIndex(b, i) < |s.slots| && ValueIndex(b, i) < |s.slots|
  {
    var b := BlockBytes(s, p);
    seq(NodeCount(b), i requires 0 <= i < NodeCount(b) => Pair(BlockBytes(s, KeyIndex(b, i)), BlockBytes(s,
        ValueIndex(b, i))))
  }

  ghost function LeafSize(s: Store, p: nat): nat
    requires WellFormed(s) && p < |s.slots| && NodeFits(BlockBytes(s, p))
  {
    NodeCount(BlockBytes(s, p))
  }

  /** Two versions of a node with the same leaf mark and the same links. */
  predicate LinksKept(b: seq<byte>, b': seq<byte>) {
    && |b| >= NODE_HEADER && |b'| >= NODE_HEADER
    && b'[..COUNT] == b[..COUNT] && b'[FORWARD..NODE_HEADER] == b[FORWARD..NODE_HEADER]
  }

  /** Two versions of a tree header that differ in the path count only. */
  predicate HeadKept(b: seq<byte>, b': seq<byte>) {
    && |b'| == |b| >= TREE_SIZE
    && b'[..PATH_COUNT] == b[..PATH_COUNT] && b'[PATH_COUNT + 4..] == b[PATH_COUNT + 4..]
  }

  /** Header and leaf keep their places, the header all but the path count, and the leaf its mark and its links. */
  ghost predicate TreeKept(s: Store, s': Store, name: seq<byte>, t: nat, p: nat)
    requires TreeOk(s, name, t, p) && TreeOk(s', name, t, p)
  {
    && s'.slots[p] == s.slots[p] && s'.slots[t] == s.slots[t]
    && LinksKept(BlockBytes(s, p), BlockBytes(s', p)) && HeadKept(BlockBytes(s, t), BlockBytes(s', t))
  }

  /**
   * A pair was inserted and counted; header and leaf are kept apart from this, and all other blocks keep their bytes.
   */
  ghost predicate PairAdded(s: Store, s': Store, name: seq<byte>, t: nat, p: nat, at: nat, pair: Pair)
    requires TreeOk(s, name, t, p) && TreeOk(s', name, t, p)
  {
    && at <= |Pairs(s, p)| && Pairs(s', p) == Inserted(Pairs(s, p), at, pair)
    && |s'.slots| >= |s.slots| && TreeKept(s, s', name, t, p)
    && U32(BlockBytes(s', t), PATH_COUNT) == (U32(BlockBytes(s, t), PATH_COUNT) + 1) % WORD_LIMIT
    && forall i :: 0 <= i < |s.slots| && i != t && i != p ==> BlockBytes(s', i) == BlockBytes(s, i)
  }

  /** The same for two blocks that are there already. */
  ghost predicate EntryAdded(s: Store, s': Store, t: nat, p: nat, at: nat, value: nat, key: nat)
    requires WellFormed(s) && WellFormed(s') && value < |s.slots| && key < |s.slots| && t < |s.slots| && p < |s.slots|
    requires EntriesOk(s, t, p) && s'.slots == s.slots && EntriesOk(s', t, p)
    requires |BlockBytes(s, t)| >= TREE_SIZE && |BlockBytes(s', t)| >= TREE_SIZE
  {
    && at <= |Pairs(s, p)| && Pairs(s', p) == Inserted(Pairs(s, p), at, Pair(BlockBytes(s, key), BlockBytes(s, value)))
    && LinksKept(BlockBytes(s, p), BlockBytes(s', p)) && HeadKept(BlockBytes(s, t), BlockBytes(s', t))
    && U32(BlockBytes(s', t), PATH_COUNT) == (U32(BlockBytes(s, t), PATH_COUNT) + 1) % WORD_LIMIT
    && forall i :: 0 <= i < |s.slots| && i != t && i != p ==> BlockBytes(s', i) == BlockBytes(s, i)
  }

  lemma TreeKeptSelf(s: Store, name: seq<byte>, t: nat, p: nat)
    requires TreeOk(s, name, t, p)
    ensures TreeKept(s, s, name, t, p)
  {
    hide Image, U32, Lookup, Sorted;
  }

  lemma TreeKeptTwice(s: Store, s1: Store, s2: Store, name: seq<byte>, t: nat, p: nat)
    requires TreeOk(s, name, t, p) && TreeOk(s1, name, t, p) && TreeOk(s2, name, t, p)
    requires TreeKept(s, s1, name, t, p) && TreeKept(s1, s2, name, t, p)
    ensures TreeKept(s, s2, name, t, p)
  {
    hide Image, U32, Lookup, Sorted, BlockBytes, EntriesOk;
  }

  /** A block is a stretch of the file: words are read through it. */
  lemma WordInSlice(m: seq<byte>, a: nat, n: nat, i: nat)
    requires a + n <= |m| && i + 4 <= n
    ensures U32(m, a + i) == U32(m[a..a + n], i)
  {
    SliceOfSlice(m, a, n, i, 4);
    SameWord(m, m[a..a + n], a + i, i);
  }

  /** A larger key than at e belongs behind everything up to e; a smaller one in front of everything from e on. */
  lemma Narrow(keys: seq<seq<byte>>, key: seq<byte>, e: nat)
    requires Sorted(keys) && e < |keys|
    ensures CompareKeys(key, keys[e]) >= 0 ==> forall i :: 0 <= i <= e ==> CompareKeys(keys[i], key) <= 0
    ensures CompareKeys(key, keys[e]) > 0 ==> forall i :: 0 <= i <= e ==> keys[i] != key
    ensures CompareKeys(key, keys[e]) <= 0 ==> forall i :: e <= i < |keys| ==> CompareKeys(key, keys[i]) <= 0
    ensures CompareKeys(key, keys[e]) < 0 ==> forall i :: e <= i < |keys| ==> keys[i] != key
    ensures CompareKeys(key, keys[e]) == 0 ==> keys[e] == key
  {
    hide CompareKeys;
    CompareFlip(key, keys[e]);
    forall i | 0 <= i <= e && CompareKeys(key, keys[e]) >= 0
      ensures CompareKeys(keys[i], key) <= 0
    {
      if i < e {
        CompareTransitive(keys[i], keys[e], key);
      }
    }
    forall i | e <= i < |keys| && CompareKeys(key, keys[e]) <= 0
      ensures CompareKeys(key, keys[i]) <= 0
    {
      if e < i {
        CompareTransitive(key, keys[e], keys[i]);
      }
    }
    if key in keys {
      forall i | 0 <= i < |keys| && keys[i] == key
        ensures i <= e ==> CompareKeys(key, keys[e]) <= 0
        ensures e <= i ==> CompareKeys(key, keys[e]) >= 0
      {
        if i > e {
          assert CompareKeys(keys[e], keys[i]) <= 0;
        } else if i < e {
          assert CompareKeys(keys[i], keys[e]) <= 0;
        }
      }
    }
  }

  /** Adding a block leaves a tree as it is. */
  lemma AddedTree(s: Store, data: seq<byte>, name: seq<byte>, t: nat, p: nat)
    requires TreeOk(s, name, t, p) && WellFormed(Added(s, data))
    ensures TreeOk(Added(s, data), name, t, p)
    ensures Pairs(Added(s, data), p) == Pairs(s, p) && Keys(Added(s, data), p) == Keys(s, p)
    ensures Added(s, data).slots[p].length == s.slots[p].length
  {
    hide Image, Lookup, U32, CompareKeys;
    AddedKeeps(s, data);
    var s', b := Added(s, data), BlockBytes(s, p);
    assert BlockBytes(s', p) == b && BlockBytes(s', t) == BlockBytes(s, t);
    forall i | 0 <= i < NodeCount(b)
      ensures BlockBytes(s', KeyIndex(b, i)) == BlockBytes(s, KeyIndex(b, i))
      ensures BlockBytes(s', ValueIndex(b, i)) == BlockBytes(s, ValueIndex(b, i))
      ensures PayloadIndex(s', t, p, KeyIndex(b, i)) && PayloadIndex(s', t, p, ValueIndex(b, i))
    {
      assert PayloadIndex(s, t, p, KeyIndex(b, i)) && PayloadIndex(s, t, p, ValueIndex(b, i));
    }
    assert Keys(s', p) == Keys(s, p);
  }

  /** A leaf with an entry inserted at its place is the leaf of the tree with the pair inserted there. */
  lemma InsertedTree(s: Store, s': Store, name: seq<byte>, t: nat, p: nat, at: nat, value: nat, key: nat)
    requires TreeOk(s, name, t, p) && WellFormed(s') && s'.slots == s.slots && s'.vars == s.vars
    requires PayloadIndex(s, t, p, value) && PayloadIndex(s, t, p, key) && value < WORD_LIMIT && key < WORD_LIMIT
    requires Place(Keys(s, p), BlockBytes(s, key), at)
    requires NodeCount(BlockBytes(s, p)) < 0xffff
    requires NODE_HEADER + 8 * (NodeCount(BlockBytes(s, p)) + 1) <= s.slots[p].length
    requires BlockBytes(s', p) == NodeInserted(BlockBytes(s, p), at, value, key)
    requires U32(BlockBytes(s', t), CHILD) == p
    requires forall i :: 0 <= i < |s.slots| && i != t && i != p ==> BlockBytes(s', i) == BlockBytes(s, i)
    ensures TreeOk(s', name, t, p)
    ensures Pairs(s', p) == Inserted(Pairs(s, p), at, Pair(BlockBytes(s, key), BlockBytes(s, value)))
  {
    hide Image, Lookup, U32, CompareKeys, NodeInserted, BlockBytes, SlotsOk;
    InData(s);
    InData(s');
    var b, b' := BlockBytes(s, p), BlockBytes(s', p);
    NodeInsertedEntries(b, at, value, key);
    forall i | 0 <= i < NodeCount(b')
      ensures PayloadIndex(s', t, p, KeyIndex(b', i)) && PayloadIndex(s', t, p, ValueIndex(b', i))
    {
      var j := if i > at then i - 1 else i;
      if i != at {
        assert PayloadIndex(s, t, p, KeyIndex(b, j)) && PayloadIndex(s, t, p, ValueIndex(b, j));
      }
    }
    InsertedPairs(s, s', t, p, at, value, key);
    InsertedSorted(Keys(s, p), BlockBytes(s, key), at);
  }

  lemma InsertedPairs(s: Store, s': Store, t: nat, p: nat, at: nat, value: nat, key: nat)
    requires WellFormed(s) && WellFormed(s') && s'.slots == s.slots && p < |s.slots|
    requires EntriesOk(s, t, p) && EntriesOk(s', t, p)
    requires EntryInserted(BlockBytes(s, p), BlockBytes(s', p), at, value, key)
    requires PayloadIndex(s, t, p, value) && PayloadIndex(s, t, p, key)
    requires forall i :: 0 <= i < |s.slots| && i != t && i != p ==> BlockBytes(s', i) == BlockBytes(s, i)
    ensures Keys(s', p) == Inserted(Keys(s, p), at, BlockBytes(s, key))
    ensures Pairs(s', p) == Inserted(Pairs(s, p), at, Pair(BlockBytes(s, key), BlockBytes(s, value)))
  {
    hide Image, Lookup, U32, NodeInserted, BlockBytes, SlotsOk, KeyIndex, ValueIndex;
    InData(s);
    InData(s');
    var b, r := BlockBytes(s, p), BlockBytes(s', p);
    var keys, pairs := Inserted(Keys(s, p), at, BlockBytes(s, key)), Inserted(Pairs(s, p), at, Pair(BlockBytes(s,
        key), BlockBytes(s, value)));
    forall i | 0 <= i < NodeCount(r)
      ensures Keys(s', p)[i] == keys[i] && Pairs(s', p)[i] == pairs[i]
    {
      var j := if i > at then i - 1 else i;
      assert i != at ==> PayloadIndex(s, t, p, KeyIndex(b, j)) && PayloadIndex(s, t, p, ValueIndex(b, j));
      assert PayloadIndex(s', t, p, KeyIndex(r, i)) && PayloadIndex(s', t, p, ValueIndex(r, i));
    }
  }

  lemma SlotsFewerThanWords(s: Store)
    requires WellFormed(s)
    ensures |s.slots| < WORD_LIMIT
  {
    StoreFits(s);
  }

  /** Writing the path count leaves the child of the tree header. */
  lemma OtherWord(tree: seq<byte>, b: seq<byte>)
    requires |tree| >= TREE_SIZE && |b| == 4
    ensures U32(Overwrite(tree, PATH_COUNT, b), CHILD) == U32(tree, CHILD)
    ensures U32(Overwrite(tree, PATH_COUNT, b), PATH_COUNT) == U32(b, 0)
    ensures HeadKept(tree, Overwrite(tree, PATH_COUNT, b))
  {
    hide U32;
    var r := Overwrite(tree, PATH_COUNT, b);
    assert r[CHILD..CHILD + 4] == tree[CHILD..CHILD + 4] && r[PATH_COUNT..PATH_COUNT + 4] == b[0..4];
    SameWord(r, tree, CHILD, CHILD);
    SameWord(r, b, PATH_COUNT, 0);
  }

  lemma SizeOf(s: Store)
    requires WellFormed(s)
    ensures |Image(s)| == DataStart(s) + |s.data|
  {
    StoreFits(s);
  }

  lemma AddedSize(s: Store, data: seq<byte>)
    requires WellFormed(s) && |Image(s)| + 8 + |data| < WORD_LIMIT
    ensures WellFormed(Added(s, data)) && |Image(Added(s, data))| <= |Image(s)| + 8 + |data|
  {
    hide BE, VarsBytes, EntriesBytes;
    AddedImage(s, data);
    StoreFits(s);
    StoreFits(Added(s, data));
  }

  /** The two blocks that hold a new key and its value. */
  lemma AddedTwice(s: Store, key: seq<byte>, value: seq<byte>, name: seq<byte>, t: nat, p: nat)
    requires TreeOk(s, name, t, p) && WellFormed(Added(s, key)) && WellFormed(Added(Added(s, key), value))
    ensures var s2, n := Added(Added(s, key), value), |s.slots|;
            && TreeOk(s2, name, t, p) && Pairs(s2, p) == Pairs(s, p) && Keys(s2, p) == Keys(s, p)
            && PayloadIndex(s2, t, p, n) && PayloadIndex(s2, t, p, n + 1)
            && BlockBytes(s2, n) == key && BlockBytes(s2, n + 1) == value
            && s2.slots[p].length == s.slots[p].length && |Added(s, key).slots| == n + 1
            && (forall i :: 0 <= i < n ==> BlockBytes(s2, i) == BlockBytes(s, i))
            && Lookup(s2.vars, name) == t && U32(BlockBytes(s2, t), CHILD) == p && p < n && t < n
            && NodeFits(BlockBytes(s2, p)) && |BlockBytes(s2, p)| == s2.slots[p].length
            && |BlockBytes(s2, t)| >= TREE_SIZE
  {
    hide Image, Lookup, U32, CompareKeys, Sorted, Pairs, Keys, TreeOk, SlotsOk, BlockBytes, NodeFits, EntriesOk;
    TreeBlocks(s, name, t, p);
    AddedTree(s, key, name, t, p);
    AddedTree(Added(s, key), value, name, t, p);
    TreeBlocks(Added(Added(s, key), value), name, t, p);
    InData(s);
    InData(Added(s, key));
    InData(Added(Added(s, key), value));
    AddedKeeps(s, key);
    AddedKeeps(Added(s, key), value);
  }

  function PairsSize(pairs: seq<Pair>): nat {
    if pairs == [] then 0 else 16 + |pairs[0].key| + |pairs[0].value| + PairsSize(pairs[1..])
  }

  /** The pairs of a tree. */
  ghost function TreePairs(s: Store, name: seq<byte>, t: nat, p: nat): seq<Pair>
    requires TreeOk(s, name, t, p)
  {
    Pairs(s, p)
  }

  /** The number of pairs that the header announces. */
  ghost function PathCount(s: Store, name: seq<byte>, t: nat, p: nat): nat
    requires TreeOk(s, name, t, p)
  {
    U32(BlockBytes(s, t), PATH_COUNT)
  }

  lemma TreeSizes(s: Store, name: seq<byte>, t: nat, p: nat)
    requires TreeOk(s, name, t, p)
    ensures p < |s.slots| && t < |s.slots| && WellFormed(s) && NodeFits(BlockBytes(s, p))
    ensures |TreePairs(s, name, t, p)| == LeafSize(s, p) && s.slots[p].Block? && s.slots[p].length >= NODE_HEADER
    ensures |BlockBytes(s, t)| >= TREE_SIZE && Lookup(s.vars, name) == t && U32(BlockBytes(s, t), CHILD) == p
  {
    hide Image;
  }

  lemma InsertedMultiset<T>(s: seq<T>, at: nat, x: T)
    requires at <= |s|
    ensures multiset(Inserted(s, at, x)) == multiset(s) + multiset{x}
  {
    assert s == s[..at] + s[at..];
  }

  /** The path count is a 32-bit word. */
  predicate CountedUp(from: nat, n: nat, to: nat) {
    to == (from + n) % WORD_LIMIT
  }

  lemma CountIsWord(s: Store, name: seq<byte>, t: nat, p: nat)
    requires TreeOk(s, name, t, p)
    ensures CountedUp(PathCount(s, name, t, p), 0, PathCount(s, name, t, p))
  {
    hide Image, TreeOk, U32;
    TreeSizes(s, name, t, p);
  }

  lemma NextCount(from: nat, n: nat, to: nat, to': nat)
    requires CountedUp(from, n, to) && CountedUp(to, 1, to')
    ensures CountedUp(from, n + 1, to')
  {
  }

  lemma PairAddedMultiset(s: Store, s': Store, name: seq<byte>, t: nat, p: nat, at: nat, pair: Pair)
    requires TreeOk(s, name, t, p) && TreeOk(s', name, t, p) && PairAdded(s, s', name, t, p, at, pair)
    ensures multiset(TreePairs(s', name, t, p)) == multiset(TreePairs(s, name, t, p)) + multiset{pair}
    ensures |TreePairs(s', name, t, p)| == |TreePairs(s, name, t, p)| + 1
    ensures p < |s.slots| && p < |s'.slots| && s'.slots[p] == s.slots[p] && s.slots[p].Block?
    ensures TreeKept(s, s', name, t, p) && CountedUp(PathCount(s, name, t, p), 1, PathCount(s', name, t, p))
  {
    hide Image, BlockBytes, Lookup, U32, Sorted, SlotsOk, Inserted;
    InData(s);
    InData(s');
    InsertedMultiset(Pairs(s, p), at, pair);
    InsertedLength(Pairs(s, p), at, pair);
  }

  lemma InsertedLength<T>(s: seq<T>, at: nat, x: T)
    requires at <= |s|
    ensures |Inserted(s, at, x)| == |s| + 1
  {
  }

  lemma AppendedWellFormed(s: Store, i: nat, gap: seq<byte>)
    requires WellFormed(s) && i < |s.slots| && s.slots[i].Block? && s.slots[i].length > 0
    requires |Image(s)| + |gap| < WORD_LIMIT
    ensures WellFormed(Appended(s, i, gap)) && |Image(Appended(s, i, gap))| == |Image(s)| + |gap|
  {
    hide BE, VarsBytes, EntriesBytes;
    AppendedKeeps(s, i, gap);
    StoreFits(s);
    assert VarsRegion(Appended(s, i, gap)) == VarsRegion(s);
    StoreFits(Appended(s, i, gap));
  }

  /** Room behind the leaf changes no entry. */
  lemma AppendedTree(s: Store, p: nat, gap: seq<byte>, name: seq<byte>, t: nat)
    requires TreeOk(s, name, t, p) && WellFormed(Appended(s, p, gap))
    ensures TreeOk(Appended(s, p, gap), name, t, p) && Pairs(Appended(s, p, gap), p) == Pairs(s, p)
    ensures LinksKept(BlockBytes(s, p), BlockBytes(Appended(s, p, gap), p))
    ensures Appended(s, p, gap).slots[p].length == s.slots[p].length + |gap|
    ensures BlockBytes(Appended(s, p, gap), t) == BlockBytes(s, t)
  {
    hide Image, Lookup, U32, CompareKeys, SlotsOk, BlockBytes;
    InData(s);
    AppendedKeeps(s, p, gap);
    InData(Appended(s, p, gap));
    var s', b := Appended(s, p, gap), BlockBytes(s, p);
    var b' := BlockBytes(s', p);
    assert b' == b + gap;
    assert U16(b', COUNT) == U16(b, COUNT);
    assert b'[NODE_HEADER..NODE_HEADER + 8 * NodeCount(b)] == b[NODE_HEADER..NODE_HEADER + 8 * NodeCount(b)];
    SameEntries(b', b, 0, 0, NodeCount(b));
    forall i | 0 <= i < NodeCount(b')
      ensures PayloadIndex(s', t, p, KeyIndex(b', i)) && PayloadIndex(s', t, p, ValueIndex(b', i))
      ensures BlockBytes(s', KeyIndex(b', i)) == BlockBytes(s, KeyIndex(b, i))
      ensures BlockBytes(s', ValueIndex(b', i)) == BlockBytes(s, ValueIndex(b, i))
    {
      assert PayloadIndex(s, t, p, KeyIndex(b, i)) && PayloadIndex(s, t, p, ValueIndex(b, i));
    }
    assert Keys(s', p) == Keys(s, p);
  }

  // ----- iteration

  /** What the iterator is given: the bytes of a key and of a value, where the indexes resolve. */
  datatype Item = Item(key: Option<seq<byte>>, value: Option<seq<byte>>)

  ghost function Resolve(s: Store, i: nat): Option<seq<byte>>
    requires WellFormed(s)
  {
    if i < |s.slots| then Some(BlockBytes(s, i)) else None
  }

  ghost function LeafItems(s: Store, b: seq<byte>): (items: seq<Item>)
    requires WellFormed(s) && NodeFits(b)
    ensures |items| == NodeCount(b)
  {
    seq(NodeCount(b), i requires 0 <= i < NodeCount(b) => Item(Resolve(s, KeyIndex(b, i)), Resolve(s, ValueIndex(b, i))))
  }

  /** Leaves linked forwards; the last one links to nothing. */
  ghost predicate ChainOk(s: Store, chain: seq<nat>)
    requires WellFormed(s)
  {
    && chain != [] && chain[0] < |s.slots| && NodeFits(BlockBytes(s, chain[0]))
    && var f := U32(BlockBytes(s, chain[0]), FORWARD);
       if |chain| == 1 then f == 0 || f >= |s.slots| else f != 0 && f == chain[1] && ChainOk(s, chain[1..])
  }

  ghost function ChainItems(s: Store, chain: seq<nat>): seq<Item>
    requires WellFormed(s) && ChainOk(s, chain)
  {
    LeafItems(s, BlockBytes(s, chain[0])) + (if |chain| == 1 then [] else ChainItems(s, chain[1..]))
  }

  ghost function ChainRest(s: Store, chain: seq<nat>): seq<Item>
    requires WellFormed(s) && ChainOk(s, chain)
  {
    if |chain| == 1 then [] else ChainItems(s, chain[1..])
  }

  lemma ChainStep(s: Store, chain: seq<nat>)
    requires WellFormed(s) && ChainOk(s, chain)
    ensures |chain| > 0 && chain[0] < |s.slots| && NodeFits(BlockBytes(s, chain[0]))
    ensures ChainItems(s, chain) == LeafItems(s, BlockBytes(s, chain[0])) + ChainRest(s, chain)
    ensures var f := U32(BlockBytes(s, chain[0]), FORWARD);
            if f == 0 || f >= |s.slots| then ChainRest(s, chain) == []
            else |chain| > 1 && f == chain[1] && ChainOk(s, chain[1..]) && ChainRest(s, chain) == ChainItems(s, chain[1..])
  {
    hide Image, U32, LeafItems, BlockBytes;
    if |chain| > 1 {
      assert chain[1..][0] == chain[1];
    }
  }

  /** The tree header t leads to the chain, directly or through a redirecting node. */
  ghost predicate TreeLeadsTo(s: Store, t: nat, chain: seq<nat>) {
    && WellFormed(s) && ChainOk(s, chain) && t < |s.slots| && |BlockBytes(s, t)| >= TREE_SIZE
    && var child := U32(BlockBytes(s, t), CHILD);
       child < |s.slots| && IsNode(BlockBytes(s, child))
       && (if U16(BlockBytes(s, child), 0) != 0 then child == chain[0]
           else |BlockBytes(s, child)| >= NODE_HEADER + 8 && ValueIndex(BlockBytes(s, child), 0) == chain[0])
  }

  // ----- the tree as iteration shows it

  /** A leaf that is marked as one, and links to no other. */
  ghost predicate SoleLeaf(s: Store, p: nat) {
    && WellFormed(s) && p < |s.slots| && IsNode(BlockBytes(s, p))
    && U16(BlockBytes(s, p), 0) != 0 && U32(BlockBytes(s, p), FORWARD) == 0
  }

  lemma SoleLeafKept(s: Store, s': Store, p: nat)
    requires SoleLeaf(s, p) && WellFormed(s') && p < |s'.slots| && LinksKept(BlockBytes(s, p), BlockBytes(s', p))
    ensures SoleLeaf(s', p)
  {
    hide Image, U32, BlockBytes, SlotsOk;
    InData(s);
    InData(s');
    var b, b' := BlockBytes(s, p), BlockBytes(s', p);
    assert b[0] == b[..COUNT][0] == b'[0] && b[1] == b[..COUNT][1] == b'[1];
    assert b[FORWARD..FORWARD + 4] == b[FORWARD..NODE_HEADER][..4] == b'[FORWARD..NODE_HEADER][..4] == b'[FORWARD..FORWARD + 4];
    SameWord(b', b, FORWARD, FORWARD);
  }

  /** What iteration over pairs shows. */
  function ItemsOf(pairs: seq<Pair>): (items: seq<Item>)
    ensures |items| == |pairs|
  {
    seq(|pairs|, i requires 0 <= i < |pairs| => Item(Some(pairs[i].key), Some(pairs[i].value)))
  }

  ghost predicate SortedByKey(pairs: seq<Pair>) {
    forall i, j :: 0 <= i < j < |pairs| ==> NotBehind(pairs[i].key, pairs[j].key)
  }

  /** The header leads to the sole leaf, and iteration shows the pairs of the tree, in the order of their keys. */
  lemma TreeShown(s: Store, name: seq<byte>, t: nat, p: nat)
    requires TreeOk(s, name, t, p) && SoleLeaf(s, p)
    ensures TreeLeadsTo(s, t, [p]) && ChainItems(s, [p]) == ItemsOf(TreePairs(s, name, t, p))
    ensures SortedByKey(TreePairs(s, name, t, p))
  {
    hide Image, Lookup, U32, CompareKeys, NotBehind, SlotsOk, BlockBytes;
    InData(s);
    var b, pairs := BlockBytes(s, p), TreePairs(s, name, t, p);
    forall i | 0 <= i < NodeCount(b)
      ensures LeafItems(s, b)[i] == ItemsOf(pairs)[i]
    {
      assert PayloadIndex(s, t, p, KeyIndex(b, i)) && PayloadIndex(s, t, p, ValueIndex(b, i));
    }
    assert LeafItems(s, b) == ItemsOf(pairs);
    assert ChainItems(s, [p]) == LeafItems(s, b) + [];
    forall i, j | 0 <= i < j < |pairs|
      ensures NotBehind(pairs[i].key, pairs[j].key)
    {
      CompareIsOrder(pairs[i].key, pairs[j].key);
      assert pairs[i].key == Keys(s, p)[i] && pairs[j].key == Keys(s, p)[j];
    }
  }

  lemma ChainOfLeaf(s: Store, t: nat, p: nat)
    requires TreeLeadsTo(s, t, [p])
    ensures WellFormed(s) && ChainOk(s, [p]) && t < |s.slots|
  {
    hide Image, U32, BlockBytes;
  }

  // ----- the writes of bom_tree_add in the buffer

  /** The shift and the new entry, for a leaf at `paths` with n entries. */
  function LeafWritten(m: seq<byte>, paths: nat, n: nat, at: nat, value: nat, key: nat): (r: seq<byte>)
    requires at <= n && paths + NODE_HEADER + 8 * (n + 1) <= |m|
    ensures |r| == |m|
  {
    var k := paths + NODE_HEADER + 8 * at;
    Overwrite(Overwrite(m, k + 8, m[k..paths + NODE_HEADER + 8 * n]), k, BE(value) + BE(key))
  }

  /** Then the two counts. */
  function TreeWritten(m: seq<byte>, paths: nat, treeAt: nat, n: nat, at: nat, value: nat, key: nat): (r: seq<byte>)
    requires at <= n && paths + NODE_HEADER + 8 * (n + 1) <= |m| && treeAt + TREE_SIZE <= |m|
    ensures |r| == |m|
  {
    var m1 := LeafWritten(m, paths, n, at, value, key);
    var m2 := Overwrite(m1, treeAt + PATH_COUNT, BE((U32(m1, treeAt + PATH_COUNT) + 1) % WORD_LIMIT));
    Overwrite(m2, paths + COUNT, BE16(n + 1))
  }

  /** Where a block lies in the file. */
  ghost function BlockAt(s: Store, i: nat): nat
    requires VarsFit(s.vars) && i < |s.slots| && s.slots[i].Block?
  {
    DataStart(s) + s.slots[i].offset
  }

  /** The leaf has room for one more entry behind its header. */
  ghost predicate HasRoom(s: Store, p: nat)
    requires WellFormed(s) && p < |s.slots| && s.slots[p].Block? && NodeFits(BlockBytes(s, p))
  {
    NODE_HEADER + 8 * (LeafSize(s, p) + 1) <= s.slots[p].length
  }

  /** A patched block, in the store and in the file. */
  lemma PatchedFile(s: Store, i: nat, at: nat, b: seq<byte>)
    requires WellFormed(s) && i < |s.slots| && s.slots[i].Block? && at + |b| <= s.slots[i].length
    ensures var s' := Patched(s, i, at, b);
            && WellFormed(s') && s' == s.(data := s'.data) && DataStart(s') == DataStart(s)
            && BlockAt(s, i) + at + |b| <= |Image(s)| && Image(s') == Overwrite(Image(s), BlockAt(s, i) + at, b)
            && BlockBytes(s', i) == Overwrite(BlockBytes(s, i), at, b)
            && forall j :: 0 <= j < |s.slots| && j != i ==> BlockBytes(s', j) == BlockBytes(s, j)
  {
    hide Image, SlotsOk, Overwrite, BlockBytes;
    InData(s);
    PatchedImage(s, i, at, b);
    PatchedKeeps(s, i, at, b);
  }

  /** With room, the shift and the new entry are written into the leaf. */
  lemma LeafPatched(s: Store, p: nat, at: nat, value: nat, key: nat) returns (s': Store)
    requires WellFormed(s) && p < |s.slots| && s.slots[p].Block? && NodeFits(BlockBytes(s, p)) && HasRoom(s, p)
    requires at <= LeafSize(s, p)
    ensures s' == s.(data := s'.data) && WellFormed(s') && DataStart(s') == DataStart(s)
    ensures BlockAt(s, p) + s.slots[p].length <= |Image(s)|
    ensures Image(s') == LeafWritten(Image(s), BlockAt(s, p), LeafSize(s, p), at, value, key)
    ensures BlockBytes(s', p) == Overwrite(Shifted(BlockBytes(s, p), at), NODE_HEADER + 8 * at, BE(value) + BE(key))
    ensures forall j :: 0 <= j < |s.slots| && j != p ==> BlockBytes(s', j) == BlockBytes(s, j)
  {
    hide Image, SlotsOk, Overwrite, BlockBytes, BE, U16;
    InData(s);
    var leaf, n, paths := BlockBytes(s, p), LeafSize(s, p), BlockAt(s, p);
    var k := NODE_HEADER + 8 * at;
    var moved := leaf[k..NODE_HEADER + 8 * n];
    BlockInImage(s, p);
    SliceOfSlice(Image(s), paths, s.slots[p].length, k, 8 * (n - at));
    PatchedFile(s, p, k + 8, moved);
    var s1 := Patched(s, p, k + 8, moved);
    PatchedFile(s1, p, k, BE(value) + BE(key));
    s' := Patched(s1, p, k, BE(value) + BE(key));
  }

  /** With room, the writes of bom_tree_add turn the file into that of the store with the pair inserted and counted. */
  lemma InsertedEntry(s: Store, name: seq<byte>, t: nat, p: nat, at: nat, value: nat, key: nat) returns (s': Store)
    requires TreeOk(s, name, t, p) && HasRoom(s, p) && LeafSize(s, p) < 0xffff
    requires PayloadIndex(s, t, p, value) && PayloadIndex(s, t, p, key) && Place(Keys(s, p), BlockBytes(s, key), at)
    ensures TreeOk(s', name, t, p) && s'.slots == s.slots && LinksKept(BlockBytes(s, p), BlockBytes(s', p))
    ensures HeadKept(BlockBytes(s, t), BlockBytes(s', t))
    ensures BlockAt(s, p) + NODE_HEADER + 8 * (LeafSize(s, p) + 1) <= |Image(s)|
    ensures BlockAt(s, t) + TREE_SIZE <= |Image(s)|
    ensures Image(s') == TreeWritten(Image(s), BlockAt(s, p), BlockAt(s, t), LeafSize(s, p), at, value, key)
    ensures Pairs(s', p) == Inserted(Pairs(s, p), at, Pair(BlockBytes(s, key), BlockBytes(s, value)))
    ensures U32(BlockBytes(s', t), PATH_COUNT) == (U32(BlockBytes(s, t), PATH_COUNT) + 1) % WORD_LIMIT
    ensures forall i :: 0 <= i < |s.slots| && i != t && i != p ==> BlockBytes(s', i) == BlockBytes(s, i)
  {
    hide Image, Lookup, U32, CompareKeys, SlotsOk, BlockBytes, BE, Overwrite, Sorted, NodeInserted, BE16, U16,
      LeafWritten;
    InData(s);
    SlotsFewerThanWords(s);
    var n, paths, treeAt, tree := LeafSize(s, p), BlockAt(s, p), BlockAt(s, t), BlockBytes(s, t);
    var s1 := LeafPatched(s, p, at, value, key);
    InData(s1);
    BlockInImage(s1, t);
    WordInSlice(Image(s1), treeAt, s.slots[t].length, PATH_COUNT);
    var pathCount := (U32(tree, PATH_COUNT) + 1) % WORD_LIMIT;
    PatchedFile(s1, t, PATH_COUNT, BE(pathCount));
    var s2 := Patched(s1, t, PATH_COUNT, BE(pathCount));
    PatchedFile(s2, p, COUNT, BE16(n + 1));
    s' := Patched(s2, p, COUNT, BE16(n + 1));
    NodeInsertedIs(BlockBytes(s, p), at, value, key);
    NodeInsertedSlices(BlockBytes(s, p), at, value, key);
    OtherWord(tree, BE(pathCount));
    U32OfBE(pathCount);
    InsertedTree(s, s', name, t, p, at, value, key);
  }

  lemma NodeInsertedIs(b: seq<byte>, at: nat, value: nat, key: nat)
    requires IsNode(b) && at <= NodeCount(b) && NODE_HEADER + 8 * (NodeCount(b) + 1) <= |b|
    ensures NodeInserted(b, at, value, key)
            == Overwrite(Overwrite(Shifted(b, at), NODE_HEADER + 8 * at, BE(value) + BE(key)), COUNT, BE16(NodeCount(b) + 1))
  {
  }

  // ----- a leaf without room

  /** How far the last entry of a leaf without room reaches behind it. */
  ghost function Excess(s: Store, p: nat): (k: int)
    requires WellFormed(s) && p < |s.slots| && s.slots[p].Block? && NodeFits(BlockBytes(s, p))
    ensures k > 0 <==> !HasRoom(s, p)
    ensures k <= 8
  {
    NODE_HEADER + 8 * (LeafSize(s, p) + 1) - s.slots[p].length
  }

  /** The last entry of a leaf once an entry was inserted. */
  ghost function LastEntry(m: seq<byte>, paths: nat, n: nat, at: nat, value: nat, key: nat): (e: seq<byte>)
    requires at <= n && paths + NODE_HEADER + 8 * n <= |m|
    ensures |e| == 8
  {
    if at == n then BE(value) + BE(key) else m[paths + NODE_HEADER + 8 * (n - 1)..paths + NODE_HEADER + 8 * n]
  }

  /** Every byte of the buffer from the n-th entry on: the last entry, and behind it what was there. */
  lemma LeafWrittenTail(m: seq<byte>, paths: nat, n: nat, at: nat, value: nat, key: nat)
    requires at <= n && paths + NODE_HEADER + 8 * (n + 1) <= |m|
    ensures var w, q := LeafWritten(m, paths, n, at, value, key), paths + NODE_HEADER + 8 * n;
            w[..paths] == m[..paths] && w[q..q + 8] == LastEntry(m, paths, n, at, value, key) && w[q + 8..] == m[q + 8..]
  {
    hide BE, LeafWritten;
    LeafWrittenIs(m, paths, n, at, value, key);
    var k, q := paths + NODE_HEADER + 8 * at, paths + NODE_HEADER + 8 * n;
    TailOfEntries(m[..k], BE(value) + BE(key), m[k..q], m[q + 8..], paths);
    FrontOfFront(m, paths, k, q, at < n);
  }

  lemma FrontOfFront(m: seq<byte>, paths: nat, k: nat, q: nat, more: bool)
    requires paths <= k <= q <= |m| && (more ==> k + 8 <= q)
    ensures m[..k][..paths] == m[..paths] && (more ==> m[k..q][q - k - 8..] == m[q - 8..q])
  {
  }

  lemma LeafWrittenIs(m: seq<byte>, paths: nat, n: nat, at: nat, value: nat, key: nat)
    requires at <= n && paths + NODE_HEADER + 8 * (n + 1) <= |m|
    ensures var k, q := paths + NODE_HEADER + 8 * at, paths + NODE_HEADER + 8 * n;
            LeafWritten(m, paths, n, at, value, key) == m[..k] + (BE(value) + BE(key)) + (m[k..q] + m[q + 8..])
  {
    hide BE, Overwrite;
    var k, q := paths + NODE_HEADER + 8 * at, paths + NODE_HEADER + 8 * n;
    var front, first, moved, rest := m[..k], m[k..k + 8], m[k..q], m[q + 8..];
    assert m == (front + first) + m[k + 8..q + 8] + rest;
    OverwriteMiddle(front + first, m[k + 8..q + 8], rest, moved);
    assert front + first + moved + rest == front + first + (moved + rest);
    OverwriteMiddle(front, first, moved + rest, BE(value) + BE(key));
  }

  lemma TailOfEntries(front: seq<byte>, e: seq<byte>, moved: seq<byte>, rest: seq<byte>, paths: nat)
    requires |e| == 8 && paths <= |front| && (|moved| == 0 || |moved| >= 8)
    ensures var w, q := front + e + (moved + rest), |front| + |moved|;
            && w[..paths] == front[..paths] && w[q + 8..] == rest
            && w[q..q + 8] == if |moved| == 0 then e else moved[|moved| - 8..]
  {
    var w, q := front + e + (moved + rest), |front| + |moved|;
    if |moved| > 0 {
      assert w == front + e + moved[..|moved| - 8] + moved[|moved| - 8..] + rest;
    }
  }

  /**
   * The test for growth never fires for a leaf whose entries fit its length, and the insertion keeps what lies behind
   * the leaf, whatever that is, exactly if the leaf has room for one more entry behind its header.
   */
  lemma InsertStaysInside(paths: nat, n: nat, at: nat, value: nat, key: nat, length: nat)
    requires at <= n && NODE_HEADER + 8 * n <= length
    ensures 8 * (n + 1) <= length
    ensures (forall m: seq<byte> :: paths + length <= |m| && paths + NODE_HEADER + 8 * (n + 1) <= |m| ==>
               LeafWritten(m, paths, n, at, value, key)[paths + length..] == m[paths + length..])
            <==> NODE_HEADER + 8 * (n + 1) <= length
  {
    hide BE, LeafWritten;
    if NODE_HEADER + 8 * (n + 1) <= length {
      forall m: seq<byte> | paths + length <= |m|
        ensures LeafWritten(m, paths, n, at, value, key)[paths + length..] == m[paths + length..]
      {
        KeptBehind(m, paths, n, at, value, key, paths + length);
      }
    } else {
      var m := LostBehind(paths, n, at, value, key, paths + length);
    }
  }

  lemma KeptBehind(m: seq<byte>, paths: nat, n: nat, at: nat, value: nat, key: nat, end: nat)
    requires at <= n && paths + NODE_HEADER + 8 * (n + 1) <= end <= |m|
    ensures LeafWritten(m, paths, n, at, value, key)[end..] == m[end..]
  {
    hide BE, LeafWritten;
    LeafWrittenTail(m, paths, n, at, value, key);
    var w, q := LeafWritten(m, paths, n, at, value, key), paths + NODE_HEADER + 8 * (n + 1);
    assert w[end..] == w[q..][end - q..] && m[end..] == m[q..][end - q..];
  }

  /** A buffer in which something behind the leaf is overwritten. */
  lemma LostBehind(paths: nat, n: nat, at: nat, value: nat, key: nat, end: nat) returns (m: seq<byte>)
    requires at <= n && paths + NODE_HEADER + 8 * n <= end < paths + NODE_HEADER + 8 * (n + 1)
    ensures |m| == paths + NODE_HEADER + 8 * (n + 1) && LeafWritten(m, paths, n, at, value, key)[end..] != m[end..]
  {
    hide BE, LeafWritten;
    var q := paths + NODE_HEADER + 8 * n;
    var other: byte := if at == n && (BE(value) + BE(key))[end - q] != 0 then 0 else 1;
    m := seq(q + 8, x => if x == end then other else 0);
    assert m[end] == other;
    var last := LastEntry(m, paths, n, at, value, key);
    if at < n {
      assert last == m[q - 8..q];
      assert last[end - q] == m[end - 8];
    }
    LeafWrittenTail(m, paths, n, at, value, key);
    LostByte(LeafWritten(m, paths, n, at, value, key), m, q, end, last);
  }

  lemma LostByte(w: seq<byte>, m: seq<byte>, q: nat, end: nat, last: seq<byte>)
    requires |w| == |m| == q + 8 && q <= end < q + 8 && |last| == 8
    requires w[q..q + 8] == last && last[end - q] != m[end]
    ensures w[end..] != m[end..]
  {
    assert w[q..q + 8][end - q] == w[end];
    assert w[end..][0] == w[end];
    assert m[end..][0] == m[end];
  }

  /** A position of the path count in the tree header at treeAt. */
  predicate InPathCount(treeAt: nat, x: nat) {
    treeAt + PATH_COUNT <= x < treeAt + PATH_COUNT + 4
  }

  /**
   * The file after an insertion into a leaf without room: behind the leaf lies the tail of the last entry, over what
   * was there. Apart from this and the path count, everything outside the leaf is as before.
   */
  ghost predicate Overrun(s: Store, t: nat, p: nat, last: seq<byte>, m: seq<byte>)
    requires WellFormed(s) && p < |s.slots| && s.slots[p].Block? && NodeFits(BlockBytes(s, p)) && !HasRoom(s, p)
    requires t < |s.slots| && s.slots[t].Block? && |last| == 8
  {
    var end, k := BlockAt(s, p) + s.slots[p].length, Excess(s, p);
    && |m| == |Image(s)| && end + k <= |m| && m[end..end + k] == last[8 - k..]
    && forall x :: 0 <= x < |m| && !(BlockAt(s, p) <= x < end + k) && !InPathCount(BlockAt(s, t), x) ==>
        m[x] == Image(s)[x]
  }

  lemma OverwriteElsewhere(m: seq<byte>, at: nat, b: seq<byte>, x: nat)
    requires at + |b| <= |m| && x < |m| && (x < at || at + |b| <= x)
    ensures Overwrite(m, at, b)[x] == m[x]
  {
  }

  /** The bytes outside a leaf without room, which ends k bytes too early. */
  lemma WrittenOutside(m: seq<byte>, paths: nat, treeAt: nat, n: nat, at: nat, value: nat, key: nat, end: nat, k: nat)
    requires at <= n && paths + NODE_HEADER + 8 * (n + 1) == end + k <= |m| && 0 < k <= 8
    requires treeAt + TREE_SIZE <= paths || end <= treeAt
    requires treeAt + TREE_SIZE <= |m|
    ensures var w := TreeWritten(m, paths, treeAt, n, at, value, key);
            && w[end..end + k] == LastEntry(m, paths, n, at, value, key)[8 - k..]
            && forall x :: 0 <= x < |m| && !(paths <= x < end + k) && !InPathCount(treeAt, x) ==> w[x] == m[x]
  {
    hide BE, BE16, U32, LeafWritten, LastEntry, Overwrite;
    LeafWrittenTail(m, paths, n, at, value, key);
    var w, m1, q := TreeWritten(m, paths, treeAt, n, at, value, key), LeafWritten(m, paths, n, at, value, key), end + k - 8;
    var m2 := Overwrite(m1, treeAt + PATH_COUNT, BE((U32(m1, treeAt + PATH_COUNT) + 1) % WORD_LIMIT));
    forall x | end <= x < end + k
      ensures w[x] == m1[q..q + 8][x - q]
    {
      OverwriteElsewhere(m1, treeAt + PATH_COUNT, BE((U32(m1, treeAt + PATH_COUNT) + 1) % WORD_LIMIT), x);
      OverwriteElsewhere(m2, paths + COUNT, BE16(n + 1), x);
    }
    forall x | 0 <= x < |m| && !(paths <= x < end + k) && !InPathCount(treeAt, x)
      ensures w[x] == m[x]
    {
      OverwriteElsewhere(m1, treeAt + PATH_COUNT, BE((U32(m1, treeAt + PATH_COUNT) + 1) % WORD_LIMIT), x);
      OverwriteElsewhere(m2, paths + COUNT, BE16(n + 1), x);
      if x < paths {
        assert m1[x] == m1[..paths][x];
      } else {
        assert m1[x] == m1[q + 8..][x - q - 8];
      }
    }
  }

  lemma OverrunBy(s: Store, t: nat, p: nat, at: nat, value: nat, key: nat)
    requires WellFormed(s) && p < |s.slots| && s.slots[p].Block? && NodeFits(BlockBytes(s, p)) && !HasRoom(s, p)
    requires t < |s.slots| && s.slots[t].Block? && s.slots[t].length >= TREE_SIZE && t != p && at <= LeafSize(s, p)
    requires BlockAt(s, p) + NODE_HEADER + 8 * (LeafSize(s, p) + 1) <= |Image(s)|
    ensures BlockAt(s, t) + TREE_SIZE <= |Image(s)|
    ensures Overrun(s, t, p, LastEntry(Image(s), BlockAt(s, p), LeafSize(s, p), at, value, key),
                    TreeWritten(Image(s), BlockAt(s, p), BlockAt(s, t), LeafSize(s, p), at, value, key))
  {
    hide Image, SlotsOk, BlockBytes, TreeWritten, U16, LastEntry, InPathCount;
    assert SlotsOk(s.slots, |s.data|);
    InData(s);
    SizeOf(s);
    ApartBoth(s.slots, |s.data|, p, t);
    WrittenOutside(Image(s), BlockAt(s, p), BlockAt(s, t), LeafSize(s, p), at, value, key,
                   BlockAt(s, p) + s.slots[p].length, Excess(s, p));
  }

  /** Nothing in front of the data section changes, so every index leads where it led. */
  lemma OverrunFound(s: Store, t: nat, p: nat, last: seq<byte>, m: seq<byte>, j: nat)
    requires WellFormed(s) && p < |s.slots| && s.slots[p].Block? && NodeFits(BlockBytes(s, p)) && !HasRoom(s, p)
    requires t < |s.slots| && s.slots[t].Block? && s.slots[t].length >= TREE_SIZE && |last| == 8
    requires Overrun(s, t, p, last, m)
    requires j < |s.slots| && s.slots[j].Block?
    ensures BlockAt(s, j) + s.slots[j].length <= |m| == |Image(s)|
    ensures BlockIn(m, j) == Some(m[BlockAt(s, j)..BlockAt(s, j) + s.slots[j].length])
  {
    hide Image, SlotsOk, BlockIn, InPathCount, BlockBytes;
    InData(s);
    SizeOf(s);
    var base := DataStart(s);
    PathCountBehind(s, t);
    assert m[..base] == Image(s)[..base];
    FoundAgain(s, m, j);
  }

  /** So the block that follows the leaf starts with the tail of an entry, the tree header itself if that is the one. */
  lemma OverrunRead(s: Store, t: nat, p: nat, last: seq<byte>, m: seq<byte>, j: nat)
    requires WellFormed(s) && p < |s.slots| && s.slots[p].Block? && NodeFits(BlockBytes(s, p)) && !HasRoom(s, p)
    requires t < |s.slots| && s.slots[t].Block? && s.slots[t].length >= TREE_SIZE && t != p && |last| == 8
    requires Overrun(s, t, p, last, m)
    requires j < |s.slots| && s.slots[j].Block? && s.slots[j].length >= 8 && j != p
    requires s.slots[j].offset == s.slots[p].offset + s.slots[p].length
    ensures var k, found := Excess(s, p), BlockIn(m, j);
            && found.Some? && |found.value| == s.slots[j].length && found.value[..k] == last[8 - k..]
            && (j != t ==> found.value[k..] == BlockBytes(s, j)[k..])
  {
    hide Image, SlotsOk, BlockIn, InPathCount, BlockBytes, Overrun;
    OverrunFound(s, t, p, last, m, j);
    BlockInImage(s, j);
    OverrunBehind(s, t, p, last, m, j);
    SlicesAgree(m, Image(s), BlockAt(s, j), s.slots[j].length, Excess(s, p), j != t);
  }

  lemma OverrunBehind(s: Store, t: nat, p: nat, last: seq<byte>, m: seq<byte>, j: nat)
    requires WellFormed(s) && p < |s.slots| && s.slots[p].Block? && NodeFits(BlockBytes(s, p)) && !HasRoom(s, p)
    requires t < |s.slots| && s.slots[t].Block? && s.slots[t].length >= TREE_SIZE && |last| == 8
    requires Overrun(s, t, p, last, m)
    requires j < |s.slots| && s.slots[j].Block? && s.slots[j].length >= 8
    requires s.slots[j].offset == s.slots[p].offset + s.slots[p].length
    requires BlockAt(s, j) + s.slots[j].length <= |m| == |Image(s)|
    ensures var a, k := BlockAt(s, j), Excess(s, p);
            && m[a..a + k] == last[8 - k..]
            && (j != t ==> forall x :: a + k <= x < a + s.slots[j].length ==> m[x] == Image(s)[x])
  {
    hide Image, SlotsOk, InPathCount, BlockBytes;
    if j != t {
      BlocksApart(s, j, t);
      PathCountAway(s, t, j);
    }
  }

  lemma BlocksApart(s: Store, i: nat, j: nat)
    requires WellFormed(s) && i < |s.slots| && j < |s.slots| && i != j && s.slots[i].Block? && s.slots[j].Block?
    ensures Apart(s.slots[i], s.slots[j])
  {
    hide Image;
    assert SlotsOk(s.slots, |s.data|);
    hide SlotsOk;
    ApartBoth(s.slots, |s.data|, i, j);
  }

  /** The path count lies in the data section, and in no block but the header. */
  lemma PathCountBehind(s: Store, t: nat)
    requires WellFormed(s) && t < |s.slots| && s.slots[t].Block?
    ensures forall x :: 0 <= x < DataStart(s) ==> !InPathCount(BlockAt(s, t), x)
  {
    hide Image;
  }

  lemma PathCountAway(s: Store, t: nat, j: nat)
    requires WellFormed(s) && t < |s.slots| && s.slots[t].Block? && s.slots[t].length >= TREE_SIZE
    requires j < |s.slots| && s.slots[j].Block? && Apart(s.slots[j], s.slots[t])
    ensures forall x :: BlockAt(s, j) <= x < BlockAt(s, j) + s.slots[j].length ==> !InPathCount(BlockAt(s, t), x)
  {
    hide Image;
  }

  lemma SlicesAgree(m: seq<byte>, w: seq<byte>, a: nat, n: nat, k: nat, same: bool)
    requires k <= n && a + n <= |m| && a + n <= |w|
    requires same ==> forall x :: a + k <= x < a + n ==> m[x] == w[x]
    ensures m[a..a + n][..k] == m[a..a + k] && (same ==> m[a..a + n][k..] == w[a..a + n][k..])
  {
  }

  /** An index leads to the same place as long as nothing in front of the data section changes. */
  lemma FoundAgain(s: Store, m: seq<byte>, j: nat)
    requires WellFormed(s) && j < |s.slots| && s.slots[j].Block? && |m| == |Image(s)| && DataStart(s) <= |m|
    requires m[..DataStart(s)] == Image(s)[..DataStart(s)] && BlockAt(s, j) + s.slots[j].length <= |m|
    ensures BlockIn(m, j) == Some(m[BlockAt(s, j)..BlockAt(s, j) + s.slots[j].length])
  {
    hide BE, U32, VarsBytes, EntriesBytes, RawHeader;
    StoreFits(s);
    RawFields(RawOf(s));
    EntryIn(RawOf(s), j);
    var at := HEADER_SIZE + 4 + 8 * j;
    SameWordIn(Image(s), m, DataStart(s), INDEX_OFFSET);
    SameWordIn(Image(s), m, DataStart(s), HEADER_SIZE);
    SameWordIn(Image(s), m, DataStart(s), at);
    SameWordIn(Image(s), m, DataStart(s), at + 4);
  }

  lemma SameWordIn(a: seq<byte>, b: seq<byte>, n: nat, i: nat)
    requires n <= |a| && n <= |b| && a[..n] == b[..n] && i + 4 <= n
    ensures U32(a, i) == U32(b, i)
  {
    assert a[i..i + 4] == a[..n][i..i + 4] == b[..n][i..i + 4] == b[i..i + 4];
    SameWord(a, b, i, i);
  }

  /** Blocks added behind do not move the leaf in the data section. */
  lemma AddedSpace(s: Store, key: seq<byte>, value: seq<byte>, p: nat)
    requires WellFormed(s) && p < |s.slots| && s.slots[p].Block? && s.slots[p].length > 0
    ensures var s2 := Added(Added(s, key), value);
            s2.slots[p] == s.slots[p] && |s2.data| == |s.data| + |key| + |value|
  {
    hide Image;
  }

  /** The two blocks of a tree. */
  lemma TreeBlocks(s: Store, name: seq<byte>, t: nat, p: nat)
    requires TreeOk(s, name, t, p)
    ensures WellFormed(s) && t < |s.slots| && p < |s.slots| && t != p && s.slots[t].Block? && s.slots[p].Block?
    ensures s.slots[t].length >= TREE_SIZE && s.slots[p].length >= NODE_HEADER && NodeFits(BlockBytes(s, p))
    ensures s.slots[p].offset + s.slots[p].length <= |s.data| && s.slots[t].offset + s.slots[t].length <= |s.data|
    ensures Lookup(s.vars, name) == t && U32(BlockBytes(s, t), CHILD) == p && EntriesOk(s, t, p)
  {
    hide Image, Lookup, U32, Sorted;
  }

  class Tree {
    const store: Context
    const name: seq<byte>

    constructor (store: Context, name: seq<byte>)
      ensures this.store == store && this.name == name
    {
      this.store, this.name := store, name;
    }

    /** Compares a key with the one of entry e of the leaf, which lies at `paths`. */
    method CompareWith(key: seq<byte>, paths: nat, e: nat, ghost s: Store, ghost t: nat, ghost p: nat)
        returns (result: int)
      requires store.Holds(s) && TreeOk(s, name, t, p) && e < |Keys(s, p)|
      requires paths + s.slots[p].length <= |store.mem|
      requires store.mem[paths..paths + s.slots[p].length] == BlockBytes(s, p)
      ensures result == CompareKeys(key, Keys(s, p)[e])
    {
      hide U32, CompareKeys, CompareAsBytes, Image, Lookup, Sorted;
      ghost var b := BlockBytes(s, p);
      WordInSlice(store.mem, paths, |b|, NODE_HEADER + 8 * e + 4);
      assert PayloadIndex(s, t, p, KeyIndex(b, e));
      var other := store.IndexGet(U32(store.mem, paths + NODE_HEADER + 8 * e + 4), s);
      var otherKey := store.mem[other.value.0..other.value.0 + other.value.1];
      CompareIsLexicographic(key, otherKey);
      result := CompareAsBytes(key, otherKey);
    }

    /** The binary search of bom_tree_add: a key that is there already is inserted in front of one of its equals. */
    method FindPlace(key: seq<byte>, paths: nat, ghost s: Store, ghost t: nat, ghost p: nat) returns (at: nat)
      requires store.Holds(s) && TreeOk(s, name, t, p)
      requires paths + s.slots[p].length <= |store.mem|
      requires store.mem[paths..paths + s.slots[p].length] == BlockBytes(s, p)
      ensures Place(Keys(s, p), key, at)
      ensures key in Keys(s, p) ==> at < |Keys(s, p)| && Keys(s, p)[at] == key
    {
      ghost var b, keys := BlockBytes(s, p), Keys(s, p);
      assert store.mem[paths + COUNT] == b[COUNT] && store.mem[paths + COUNT + 1] == b[COUNT + 1];
      var start, end := 0, U16(store.mem, paths + COUNT);
      assert end == |keys|;
      hide *;
      while start < end
        invariant 0 <= start <= end <= |keys|
        invariant forall i :: 0 <= i < start ==> CompareKeys(keys[i], key) <= 0 && keys[i] != key
        invariant forall i :: end <= i < |keys| ==> CompareKeys(key, keys[i]) <= 0 && keys[i] != key
      {
        var e := (end - start) / 2 + start;
        var result := CompareWith(key, paths, e, s, t, p);
        Narrow(keys, key, e);
        if result < 0 {
          end := e;
        } else if result > 0 {
          start := e + 1;
        } else {
          return e;
        }
      }
      return start;
    }

    /** The writes of bom_tree_add, through pointers to the leaf and to the tree header. */
    method WriteEntry(paths: nat, treeAt: nat, n: nat, at: nat, value: nat, key: nat)
      requires at <= n && paths + NODE_HEADER + 8 * (n + 1) <= |store.mem| && treeAt + TREE_SIZE <= |store.mem|
      modifies store
      ensures store.mem == TreeWritten(old(store.mem), paths, treeAt, n, at, value, key)
    {
      hide BE, BE16, U32, Overwrite;
      var k := paths + NODE_HEADER + 8 * at;
      store.Write(k + 8, store.mem[k..paths + NODE_HEADER + 8 * n]);
      store.Write(k, BE(value) + BE(key));
      store.Write(treeAt + PATH_COUNT, BE((U32(store.mem, treeAt + PATH_COUNT) + 1) % WORD_LIMIT));
      store.Write(paths + COUNT, BE16(n + 1));
    }

    /** Reads a whole block. */
    method ReadBlock(index: nat, ghost s: Store) returns (b: seq<byte>, at: nat)
      requires store.Holds(s) && index < |s.slots|
      ensures b == BlockBytes(s, index) && at + |b| <= |store.mem| && store.mem[at..at + |b|] == b
      ensures s.slots[index].Block? ==> at == BlockAt(s, index)
    {
      hide Image, SlotsOk;
      var r := store.IndexGet(index, s);
      at := r.value.0;
      b := store.mem[at..at + r.value.1];
    }

    /**
     * bom_tree_add: two new blocks, and their pair at a sorted place of the leaf. The test for growth leaves the
     * 12-byte header of the leaf out, so it never fires for a leaf whose entries fit. With room behind the header
     * this adds the pair; without it the writes run over the end of the leaf into what lies there, which must still
     * be part of the buffer.
     */
    method Add(key: seq<byte>, value: seq<byte>, ghost s: Store, ghost t: nat,
               ghost p: nat) returns (ghost s': Store, ghost at: nat)
      requires store.Holds(s) && TreeOk(s, name, t, p) && |store.mem| + 16 + |key| + |value| < WORD_LIMIT
      requires LeafSize(s, p) < 0xffff
      requires s.slots[p].offset + NODE_HEADER + 8 * (LeafSize(s, p) + 1) <= |s.data| + |key| + |value|
      modifies store
      ensures |store.mem| <= old(|store.mem|) + 16 + |key| + |value| && WellFormed(s')
      ensures HasRoom(s, p) ==>
          store.Holds(s') && TreeOk(s', name, t, p) && PairAdded(s, s', name, t, p, at, Pair(key, value))
      ensures !HasRoom(s, p) ==>
                && WellFormed(Added(s, key)) && s' == Added(Added(s, key), value) && NodeFits(BlockBytes(s', p))
                && at <= LeafSize(s', p)
                && !HasRoom(s', p) && BlockAt(s', p) + s'.slots[p].length <= |Image(s')|
                && Overrun(s', t, p, LastEntry(Image(s'), BlockAt(s', p), LeafSize(s', p), at, |s.slots| + 1, |s.slots|), store.mem)
    {
      hide Image, Lookup, U32, CompareKeys, SlotsOk, BlockBytes, Sorted, TreeOk, Added, TreeWritten, Overrun;
      SizeOf(s);
      var keyIndex := store.IndexAdd(key, s);
      ghost var s1 := Added(s, key);
      SizeOf(s1);
      AddedSize(s, key);
      var valueIndex := store.IndexAdd(value, s1);
      ghost var s2 := Added(s1, value);
      AddedSize(s1, value);
      SizeOf(s2);
      AddedTwice(s, key, value, name, t, p);
      TreeBlocks(s, name, t, p);
      AddedSpace(s, key, value, p);
      AddedSpace(s, key, value, t);
      s', at := AddEntry(key, valueIndex, keyIndex, s2, t, p);
    }

    /** The part of bom_tree_add behind the two new blocks. */
    method AddEntry(key: seq<byte>, valueIndex: nat, keyIndex: nat, ghost s: Store, ghost t: nat,
                    ghost p: nat) returns (ghost s': Store, ghost at: nat)
      requires store.Holds(s) && TreeOk(s, name, t, p) && LeafSize(s, p) < 0xffff
      requires PayloadIndex(s, t, p, valueIndex) && PayloadIndex(s, t, p, keyIndex) && BlockBytes(s, keyIndex) == key
      requires s.slots[p].offset + NODE_HEADER + 8 * (LeafSize(s, p) + 1) <= |s.data|
      modifies store
      ensures |store.mem| == old(|store.mem|) && WellFormed(s') && at <= LeafSize(s, p)
      ensures HasRoom(s, p) ==>
                store.Holds(s') && TreeOk(s', name, t, p) && s'.slots == s.slots && EntryAdded(s, s', t, p, at, valueIndex, keyIndex)
      ensures !HasRoom(s, p) ==>
                && s' == s && BlockAt(s, p) + s.slots[p].length <= |Image(s)|
                && Overrun(s, t, p, LastEntry(Image(s), BlockAt(s, p), LeafSize(s, p), at, valueIndex, keyIndex), store.mem)
    {
      hide Image, Lookup, U32, CompareKeys, SlotsOk, BlockBytes, Sorted, TreeWritten, Overrun;
      SizeOf(s);
      TreeBlocks(s, name, t, p);
      InData(s);
      var treeIndex := store.VariableGet(name, s);
      var tree, treeAt := ReadBlock(treeIndex, s);
      var leafIndex := U32(tree, CHILD);
      var leaf, paths := ReadBlock(leafIndex, s);
      assert !(8 * (NodeCount(leaf) + 1) > |leaf|);
      var place := FindPlace(key, paths, s, t, p);
      at := place;
      WriteEntry(paths, treeAt, NodeCount(leaf), place, valueIndex, keyIndex);
      if NODE_HEADER + 8 * (NodeCount(leaf) + 1) <= |leaf| {
        s' := InsertedEntry(s, name, t, p, place, valueIndex, keyIndex);
      } else {
        s' := s;
        OverrunBy(s, t, p, place, valueIndex, keyIndex);
      }
    }

    /**
     * Adds pairs one after the other, within the capacity of the leaf: it ends sorted, holding exactly the old and
     * new pairs.
     */
    method AddAll(pairs: seq<Pair>, ghost s: Store, ghost t: nat, ghost p: nat) returns (ghost s': Store)
      requires store.Holds(s) && TreeOk(s, name, t, p) && |store.mem| + PairsSize(pairs) < WORD_LIMIT
      requires LeafSize(s, p) + |pairs| <= 0xffff && NODE_HEADER + 8 * (LeafSize(s, p) + |pairs|) <= s.slots[p].length
      modifies store
      ensures store.Holds(s') && TreeOk(s', name, t, p) && |store.mem| <= old(|store.mem|) + PairsSize(pairs)
      ensures multiset(TreePairs(s', name, t, p)) == multiset(TreePairs(s, name, t, p)) + multiset(pairs)
      ensures LeafSize(s', p) == LeafSize(s, p) + |pairs| && TreeKept(s, s', name, t, p)
      ensures CountedUp(PathCount(s, name, t, p), |pairs|, PathCount(s', name, t, p))
    {
      hide Image, TreeOk, TreePairs, PathCount, CountedUp, U32, PairAdded, Inserted, LeafSize, BlockBytes, SlotsOk, Lookup,
        TreeKept;
      s' := s;
      TreeSizes(s, name, t, p);
      TreeKeptSelf(s, name, t, p);
      CountIsWord(s, name, t, p);
      ghost var room, n := s.slots[p].length, |TreePairs(s, name, t, p)|;
      assert pairs[..0] == [];
      assert pairs[0..] == pairs;
      for i := 0 to |pairs|
        invariant store.Holds(s') && TreeOk(s', name, t, p) && |store.mem| + PairsSize(pairs[i..]) < WORD_LIMIT
        invariant multiset(TreePairs(s', name, t, p)) == multiset(TreePairs(s, name, t, p)) + multiset(pairs[..i])
        invariant |TreePairs(s', name, t, p)| == n + i
        invariant p < |s'.slots| && s'.slots[p] == s.slots[p] && s'.slots[p].Block? && s'.slots[p].length == room
        invariant TreeKept(s, s', name, t, p)
        invariant CountedUp(PathCount(s, name, t, p), i, PathCount(s', name, t, p))
        invariant |store.mem| + PairsSize(pairs[i..]) <= old(|store.mem|) + PairsSize(pairs)
      {
        assert pairs[i..][1..] == pairs[i + 1..] && pairs[..i + 1] == pairs[..i] + [pairs[i]];
        TreeSizes(s', name, t, p);
        ghost var at, before := 0, s';
        TreeBlocks(before, name, t, p);
        s', at := Add(pairs[i].key, pairs[i].value, before, t, p);
        PairAddedMultiset(before, s', name, t, p, at, pairs[i]);
        TreeKeptTwice(s, before, s', name, t, p);
        NextCount(PathCount(s, name, t, p), i, PathCount(before, name, t, p), PathCount(s', name, t, p));
      }
      assert pairs[..|pairs|] == pairs;
      TreeSizes(s', name, t, p);
    }

    /** bom_tree_reserve: makes the leaf larger. */
    method Reserve(count: nat, ghost s: Store, ghost t: nat, ghost p: nat) returns (ghost s': Store)
      requires store.Holds(s) && TreeOk(s, name, t, p) && |store.mem| + 8 * count < WORD_LIMIT
      modifies store
      ensures store.Holds(s') && TreeOk(s', name, t, p)
      ensures Pairs(s', p) == Pairs(s, p) && s'.slots[p].length == s.slots[p].length + 8 * count
      ensures LinksKept(BlockBytes(s, p), BlockBytes(s', p)) && BlockBytes(s', t) == BlockBytes(s, t)
      ensures |store.mem| == old(|store.mem|) + 8 * count
    {
      hide Image, Lookup, U32, CompareKeys, SlotsOk, Sorted;
      TreeSizes(s, name, t, p);
      InData(s);
      var treeIndex := store.VariableGet(name, s);
      var tree, _ := ReadBlock(treeIndex, s);
      ghost var gap := store.IndexAppend(U32(tree, CHILD), 8 * count, s);
      s' := Appended(s, p, gap);
      AppendedWellFormed(s, p, gap);
      AppendedTree(s, p, gap, name, t);
    }

    /** The first leaf: the child of the header, or what a redirecting node points to. */
    method FirstLeaf(ghost s: Store, ghost chain: seq<nat>) returns (index: nat, paths: seq<byte>)
      requires store.Holds(s) && Lookup(s.vars, name) >= 0 && TreeLeadsTo(s, Lookup(s.vars, name), chain)
      ensures index == chain[0] < |s.slots| && paths == BlockBytes(s, index)
    {
      hide Image, Lookup, U32, BlockBytes, LeafItems, ChainOk;
      ChainStep(s, chain);
      var treeIndex := store.VariableGet(name, s);
      var tree, treeAt := ReadBlock(treeIndex, s);
      index := U32(tree, CHILD);
      var at;
      paths, at := ReadBlock(index, s);
      if U16(paths, 0) == 0 {
        index := ValueIndex(paths, 0);
        paths, at := ReadBlock(index, s);
      }
    }

    /**
     * bom_tree_iterate, over a finite chain of leaves: the header leads to the first leaf, directly or through a node
     * that only redirects; keys and values that do not resolve are passed on as missing.
     */
    method Iterate(ghost s: Store, ghost chain: seq<nat>) returns (items: seq<Item>)
      requires store.Holds(s) && Lookup(s.vars, name) >= 0 && TreeLeadsTo(s, Lookup(s.vars, name), chain)
      ensures items == ChainItems(s, chain)
    {
      hide Image, ChainOk, ChainItems, BlockBytes;
      var index, paths := FirstLeaf(s, chain);
      items := IterateFrom(index, paths, s, chain);
    }

    /**
     * Any additions within the capacity of a sole leaf, and then iteration: it shows the old and the new pairs, each
     * as often as it was there or added, in the order of their keys.
     */
    method AddAllAndIterate(pairs: seq<Pair>, ghost s: Store, ghost t: nat, ghost p: nat)
      returns (items: seq<Item>, ghost s': Store, ghost shown: seq<Pair>)
      requires store.Holds(s) && TreeOk(s, name, t, p) && SoleLeaf(s, p) && |store.mem| + PairsSize(pairs) < WORD_LIMIT
      requires LeafSize(s, p) + |pairs| <= 0xffff && NODE_HEADER + 8 * (LeafSize(s, p) + |pairs|) <= s.slots[p].length
      modifies store
      ensures store.Holds(s') && TreeOk(s', name, t, p) && SoleLeaf(s', p)
      ensures items == ItemsOf(shown) && SortedByKey(shown)
      ensures multiset(shown) == multiset(TreePairs(s, name, t, p)) + multiset(pairs)
      ensures TreeKept(s, s', name, t, p) && CountedUp(PathCount(s, name, t, p), |pairs|, PathCount(s', name, t, p))
    {
      hide Image, TreeOk, TreePairs, PathCount, TreeLeadsTo, ChainOk, ChainItems, Lookup, LeafSize, BlockBytes, SlotsOk,
        U32,
        CompareKeys;
      TreeBlocks(s, name, t, p);
      s' := AddAll(pairs, s, t, p);
      TreeBlocks(s', name, t, p);
      SoleLeafKept(s, s', p);
      TreeShown(s', name, t, p);
      ChainOfLeaf(s', t, p);
      items := Iterate(s', [p]);
      shown := TreePairs(s', name, t, p);
    }

    /** The loop over the leaves. */
    method IterateFrom(first: nat, leaf: seq<byte>, ghost s: Store, ghost chain: seq<nat>) returns (items: seq<Item>)
      requires store.Holds(s) && ChainOk(s, chain) && first == chain[0] < |s.slots| && leaf == BlockBytes(s, first)
      ensures items == ChainItems(s, chain)
    {
      hide Image, U32, BlockBytes, LeafItems, ChainOk, ChainItems, ChainRest, SlotsOk;
      InData(s);
      var paths := leaf;
      items := [];
      ghost var rest: seq<nat> := chain;
      ChainStep(s, rest);
      while true
        invariant ChainOk(s, rest) && |rest| > 0 && rest[0] < |s.slots| && paths == BlockBytes(s, rest[0])
        invariant NodeFits(paths)
        invariant ChainItems(s, chain) == items + ChainItems(s, rest)
        decreases |rest|
      {
        ChainStep(s, rest);
        var more := ReadItems(paths, s);
        assert items + (more + ChainRest(s, rest)) == items + more + ChainRest(s, rest);
        items := items + more;
        var index := U32(paths, FORWARD);
        if index == 0 {
          return;
        }
        var next := store.IndexGet(index, s);
        if next.None? {
          return;
        }
        rest := rest[1..];
        paths := store.mem[next.value.0..next.value.0 + next.value.1];
        ChainStep(s, rest);
      }
    }

    /** The entries of one leaf. */
    method ReadItems(paths: seq<byte>, ghost s: Store) returns (items: seq<Item>)
      requires store.Holds(s) && NodeFits(paths)
      ensures items == LeafItems(s, paths)
    {
      hide Image, U32, BlockBytes, SlotsOk;
      InData(s);
      items := [];
      for i := 0 to U16(paths, COUNT)
        invariant items == LeafItems(s, paths)[..i]
      {
        var key := store.IndexGet(KeyIndex(paths, i), s);
        var value := store.IndexGet(ValueIndex(paths, i), s);
        var item := Item(if key.None? then None else Some(store.mem[key.value.0..key.value.0 + key.value.1]),
                         if value.None? then None else Some(store.mem[value.value.0..value.value.0 + value.value.1]));
        assert item == LeafItems(s, paths)[i];
        items := items + [item];
      }
    }
  }

  /** An empty leaf of the fixed size. */
  function EmptyLeaf(): (b: seq<byte>)
    ensures |b| == NODE_SIZE
  {
    BE16(1) + ZeroBytes(NODE_SIZE - 2)
  }

  function TreeHeader(child: nat): (b: seq<byte>)
    ensures |b| == TREE_SIZE
  {
    TREE_MAGIC + BE(1) + BE(child) + BE(NODE_SIZE) + BE(0) + [0]
  }

  /** The header of a tree with n pairs, at its offsets: magic, version 1, the size of the first leaf, and n. */
  ghost predicate HeaderOf(b: seq<byte>, leafSize: nat, n: nat) {
    && |b| == TREE_SIZE && b[..4] == TREE_MAGIC && U32(b, 4) == 1
    && U32(b, 12) == leafSize && U32(b, 16) == n && b[20] == 0
  }

  lemma NewTreeBytes(child: nat)
    requires child < WORD_LIMIT
    ensures NodeFits(EmptyLeaf()) && NodeCount(EmptyLeaf()) == 0 && U32(TreeHeader(child), CHILD) == child
    ensures HeaderOf(TreeHeader(child), NODE_SIZE, 0)
    ensures U16(EmptyLeaf(), 0) == 1 && U32(EmptyLeaf(), FORWARD) == 0 && U32(EmptyLeaf(), BACKWARD) == 0
  {
    hide BE, U32;
    WordIn(TreeHeader(child), 4, 1);
    WordIn(TreeHeader(child), CHILD, child);
    WordIn(TreeHeader(child), 12, NODE_SIZE);
    WordIn(TreeHeader(child), PATH_COUNT, 0);
    assert EmptyLeaf()[COUNT] == 0 && EmptyLeaf()[COUNT + 1] == 0;
    EmptyLeafLinks();
  }

  lemma EmptyLeafLinks()
    ensures U32(EmptyLeaf(), FORWARD) == 0 && U32(EmptyLeaf(), BACKWARD) == 0
  {
  }

  /** A tree without pairs was added, and nothing else changed. */
  ghost predicate EmptyTreeAdded(s: Store, s': Store, name: seq<byte>, t: nat, p: nat) {
    && TreeOk(s', name, t, p) && TreePairs(s', name, t, p) == [] && SoleLeaf(s', p)
    && s'.slots[p].length == NODE_SIZE && s'.slots[t].offset == s'.slots[p].offset + NODE_SIZE
    && HeaderOf(BlockBytes(s', t), s'.slots[p].length, 0)
    && U16(BlockBytes(s', p), 0) == 1 && U32(BlockBytes(s', p), BACKWARD) == 0
    && WellFormed(s) && |s'.slots| == |s.slots| + 2
    && forall i :: 0 <= i < |s.slots| ==> BlockBytes(s', i) == BlockBytes(s, i)
  }

  /** The store after bom_tree_alloc_empty: a leaf, a header that leads to it, and a variable for the header. */
  function WithTree(s: Store, name: seq<byte>, unused: seq<byte>): Store {
    VarAdded(Added(Added(s, EmptyLeaf()), TreeHeader(|s.slots|)), StoredVar(name, |s.slots| + 1), unused)
  }

  /**
   * bom_tree_alloc_empty. The tree is found by its name if that was not in use, and the length byte can hold its
   * length.
   */
  method CreateTree(store: Context, name: seq<byte>, ghost s: Store) returns (tree: Tree, ghost s': Store,
      ghost t: nat, ghost p: nat)
    requires store.Holds(s) && CString(name) == name
    requires |store.mem| + NODE_SIZE + TREE_SIZE + 16 + |name| + 9 < WORD_LIMIT
    modifies store
    ensures tree.store == store && tree.name == name && store.Holds(s')
    ensures |store.mem| <= old(|store.mem|) + NODE_SIZE + TREE_SIZE + 16 + |name| + 9
    ensures exists unused :: s' == WithTree(s, name, unused)
    ensures !HasName(s.vars, name) && |name| < 256 ==> EmptyTreeAdded(s, s', name, t, p)
  {
    hide Image, Lookup, U32, SlotsOk, BlockBytes, HasName, EmptyLeaf, TreeHeader, CString, Added, StoredVar, VarAdded,
      EmptyTreeAdded;
    SizeOf(s);
    var entryIndex := store.IndexAdd(EmptyLeaf(), s);
    ghost var s1 := Added(s, EmptyLeaf());
    AddedSize(s, EmptyLeaf());
    SizeOf(s1);
    var treeIndex := store.IndexAdd(TreeHeader(entryIndex), s1);
    ghost var s2 := Added(s1, TreeHeader(entryIndex));
    AddedSlots(s, EmptyLeaf());
    AddedSize(s1, TreeHeader(entryIndex));
    SizeOf(s2);
    ghost var unused := store.VariableAdd(name, treeIndex, s2);
    s' := VarAdded(s2, StoredVar(name, treeIndex), unused);
    assert s' == WithTree(s, name, unused);
    tree := new Tree(store, name);
    t, p := treeIndex, entryIndex;
    if !HasName(s.vars, name) && |name| < 256 {
      NewTree(s, s2, name, unused);
    }
  }

  /** A new tree, room for some pairs, the pairs, and iteration: it shows exactly these, in the order of their keys. */
  method BuildAndIterate(name: seq<byte>, pairs: seq<Pair>)
    returns (items: seq<Item>, store: Context, ghost s: Store, ghost t: nat)
    requires CString(name) == name && |name| < 256 && |pairs| <= 0xffff
    requires 60 + NODE_SIZE + TREE_SIZE + 16 + |name| + 9 + 8 * |pairs| + PairsSize(pairs) < WORD_LIMIT
    ensures exists shown :: items == ItemsOf(shown) && SortedByKey(shown) && multiset(shown) == multiset(pairs)
    ensures fresh(store) && store.Holds(s) && Lookup(s.vars, name) == t < |s.slots|
    ensures HeaderOf(BlockBytes(s, t), NODE_SIZE, |pairs|)
  {
    hide Image, TreeOk, LeafSize, HeaderOf, PathCount, TreeKept, Lookup, BlockBytes, SlotsOk, U32, CompareKeys, CString,
      EmptyTreeAdded, SoleLeaf, HasName,
      WithTree;
    store := new Context();
    EmptySize();
    NoNames(name);
    var tree; ghost var s0, p, shown;
    tree, s0, t, p := CreateTree(store, name, EMPTY_STORE);
    NewTreeIsEmpty(EMPTY_STORE, s0, name, t, p);
    TreeSizes(s0, name, t, p);
    ghost var s1 := tree.Reserve(|pairs|, s0, t, p);
    TreeSizes(s1, name, t, p);
    SoleLeafKept(s0, s1, p);
    items, s, shown := tree.AddAllAndIterate(pairs, s1, t, p);
    TreeSizes(s, name, t, p);
    HeaderFilled(s0, s1, s, name, t, p, |pairs|);
  }

  lemma HeaderFilled(s0: Store, s1: Store, s: Store, name: seq<byte>, t: nat, p: nat, n: nat)
    requires TreeOk(s0, name, t, p) && TreeOk(s1, name, t, p) && TreeOk(s, name, t, p) && n <= 0xffff
    requires HeaderOf(BlockBytes(s0, t), NODE_SIZE, 0) && BlockBytes(s1, t) == BlockBytes(s0, t)
    requires TreeKept(s1, s, name, t, p) && CountedUp(PathCount(s1, name, t, p), n, PathCount(s, name, t, p))
    ensures HeaderOf(BlockBytes(s, t), NODE_SIZE, n)
  {
    hide Image, TreeOk, BlockBytes, U32, EntriesOk;
    TreeBlocks(s, name, t, p);
    TreeBlocks(s1, name, t, p);
    TreeBlocks(s0, name, t, p);
    HeadWords(BlockBytes(s1, t), BlockBytes(s, t));
  }

  lemma HeadWords(b: seq<byte>, b': seq<byte>)
    requires HeadKept(b, b')
    ensures b'[..4] == b[..4] && U32(b', 4) == U32(b, 4) && U32(b', 12) == U32(b, 12) && b'[20] == b[20]
  {
    hide U32;
    assert b'[..4] == b'[..16][..4] && b[..4] == b[..16][..4];
    assert b'[4..8] == b'[..16][4..8] && b[4..8] == b[..16][4..8];
    assert b'[12..16] == b'[..16][12..16] && b[12..16] == b[..16][12..16];
    assert b'[20] == b'[20..][0] && b[20] == b[20..][0];
    SameWord(b', b, 4, 4);
    SameWord(b', b, 12, 12);
  }

  lemma NoNames(name: seq<byte>)
    ensures !HasName(EMPTY_STORE.vars, name)
  {
  }

  lemma NewTreeIsEmpty(s: Store, s': Store, name: seq<byte>, t: nat, p: nat)
    requires EmptyTreeAdded(s, s', name, t, p)
    ensures TreeOk(s', name, t, p) && TreePairs(s', name, t, p) == [] && SoleLeaf(s', p) && LeafSize(s', p) == 0
    ensures s'.slots[p].length == NODE_SIZE && s'.slots[t].offset == s'.slots[p].offset + NODE_SIZE
    ensures HeaderOf(BlockBytes(s', t), NODE_SIZE, 0) && PathCount(s', name, t, p) == 0
  {
    hide Image, TreeOk, BlockBytes, U32, SoleLeaf, LeafSize;
    TreeSizes(s', name, t, p);
  }

  // ----- the 511th pair

  /** The last entry of a leaf once an entry was inserted ends with the index of a key. */
  lemma TailIsIndex(s: Store, t: nat, p: nat, at: nat, value: nat, key: nat)
    requires WellFormed(s) && p < |s.slots| && s.slots[p].Block? && EntriesOk(s, t, p)
    requires at <= LeafSize(s, p) && key < |s.slots| && BlockAt(s, p) + s.slots[p].length <= |Image(s)|
    ensures U32(LastEntry(Image(s), BlockAt(s, p), LeafSize(s, p), at, value, key), 4) < |s.slots|
  {
    hide Image, U32, BE, SlotsOk, BlockBytes;
    InData(s);
    SlotsAreFew(s);
    var m, b, paths, n := Image(s), BlockBytes(s, p), BlockAt(s, p), LeafSize(s, p);
    BlockInImage(s, p);
    var last := LastEntry(m, paths, n, at, value, key);
    if at == n {
      assert last[4..8] == BE(key);
      WordIn(last, 4, key);
    } else {
      assert PayloadIndex(s, t, p, KeyIndex(b, n - 1));
      WordInSlice(m, paths, |b|, NODE_HEADER + 8 * (n - 1) + 4);
      WordInSlice(m, paths + NODE_HEADER + 8 * (n - 1), 8, 4);
    }
  }

  /** An index is much smaller than the magic of a tree. */
  lemma IndexIsNoMagic(last: seq<byte>)
    requires |last| == 8 && 8 * U32(last, 4) < WORD_LIMIT
    ensures last[4..] != TREE_MAGIC
  {
    assert last[4..][0] == last[4];
  }

  /**
   * A new tree takes 510 pairs. The next insertion overwrites the magic of the tree header, which lies behind the
   * leaf, with the index of a key.
   */
  method OverwriteHeader(name: seq<byte>, pairs: seq<Pair>, last: Pair)
    returns (store: Context, ghost before: Store, ghost t: nat, ghost p: nat)
    requires CString(name) == name && |name| < 256 && |pairs| == 510
    requires 60 + NODE_SIZE + TREE_SIZE + 16 + |name| + 9 + PairsSize(pairs) + 16 + |last.key| + |last.value| < WORD_LIMIT
    ensures fresh(store) && TreeOk(before, name, t, p) && LeafSize(before, p) == 510
    ensures multiset(TreePairs(before, name, t, p)) == multiset(pairs)
    ensures BlockBytes(before, t)[..|TREE_MAGIC|] == TREE_MAGIC
    ensures BlockIn(store.mem, t).Some? && |BlockIn(store.mem, t).value| >= TREE_SIZE
    ensures BlockIn(store.mem, t).value[..|TREE_MAGIC|] != TREE_MAGIC
  {
    hide Image, TreeOk, TreePairs, LeafSize, BlockBytes, SlotsOk, U32, CompareKeys, CString, EmptyTreeAdded,
      SoleLeaf, HasName, WithTree, Added, Overrun, LastEntry, BlockIn, PairsSize, Lookup, PairAdded;
    store := new Context();
    EmptySize();
    NoNames(name);
    var tree; ghost var s;
    tree, s, t, p := CreateTree(store, name, EMPTY_STORE);
    NewTreeIsEmpty(EMPTY_STORE, s, name, t, p);
    before := tree.AddAll(pairs, s, t, p);
    FullLeaf(s, before, name, t, p);
    ghost var after, at := tree.Add(last.key, last.value, before, t, p);
    FullLeafLater(before, last.key, last.value, name, t, p);
    HeaderOverwritten(after, name, t, p, at, |before.slots| + 1, |before.slots|, store.mem);
  }

  /** The leaf of a new tree, after 510 pairs. */
  lemma FullLeaf(s: Store, s': Store, name: seq<byte>, t: nat, p: nat)
    requires TreeOk(s, name, t, p) && TreeOk(s', name, t, p) && TreeKept(s, s', name, t, p)
    requires HeaderOf(BlockBytes(s, t), NODE_SIZE, 0)
    requires s.slots[p].length == NODE_SIZE && s.slots[t].offset == s.slots[p].offset + NODE_SIZE
    requires LeafSize(s', p) == 510
    ensures BlockBytes(s', t)[..|TREE_MAGIC|] == TREE_MAGIC && !HasRoom(s', p) && Excess(s', p) == 4
    ensures s'.slots[p].offset + NODE_HEADER + 8 * (LeafSize(s', p) + 1) <= |s'.data|
    ensures s'.slots[p].length == NODE_SIZE && s'.slots[t].offset == s'.slots[p].offset + NODE_SIZE
  {
    hide Image, TreeOk, BlockBytes, U32, LeafSize, SlotsOk;
    TreeBlocks(s, name, t, p);
    TreeBlocks(s', name, t, p);
    HeadWords(BlockBytes(s, t), BlockBytes(s', t));
  }

  /** The two blocks of the 511th pair lie behind the header. */
  lemma FullLeafLater(s: Store, key: seq<byte>, value: seq<byte>, name: seq<byte>, t: nat, p: nat)
    requires TreeOk(s, name, t, p) && !HasRoom(s, p) && Excess(s, p) == 4
    requires WellFormed(Added(s, key)) && WellFormed(Added(Added(s, key), value))
    ensures var s2 := Added(Added(s, key), value);
            && TreeOk(s2, name, t, p) && Excess(s2, p) == 4 && |s.slots| < |s2.slots|
            && s2.slots[t] == s.slots[t] && s2.slots[p] == s.slots[p]
  {
    hide Image, TreeOk, BlockBytes, U32, SlotsOk, Lookup, Added, Keys, Pairs, U16;
    TreeBlocks(s, name, t, p);
    AddedTwice(s, key, value, name, t, p);
    AddedSpace(s, key, value, p);
    AddedSpace(s, key, value, t);
    TreeBlocks(Added(Added(s, key), value), name, t, p);
  }

  lemma HeaderOverwritten(s: Store, name: seq<byte>, t: nat, p: nat, at: nat, value: nat, key: nat, m: seq<byte>)
    requires TreeOk(s, name, t, p) && !HasRoom(s, p) && Excess(s, p) == 4 && key < |s.slots| && at <= LeafSize(s, p)
    requires s.slots[t].offset == s.slots[p].offset + s.slots[p].length
    requires BlockAt(s, p) + s.slots[p].length <= |Image(s)|
    requires Overrun(s, t, p, LastEntry(Image(s), BlockAt(s, p), LeafSize(s, p), at, value, key), m)
    ensures BlockIn(m, t).Some? && |BlockIn(m, t).value| >= TREE_SIZE
    ensures BlockIn(m, t).value[..|TREE_MAGIC|] != TREE_MAGIC
  {
    hide Image, TreeOk, BlockBytes, U32, SlotsOk, Lookup, Overrun, LastEntry, BlockIn, Keys, Pairs, U16;
    TreeBlocks(s, name, t, p);
    SlotsAreFew(s);
    var e := LastEntry(Image(s), BlockAt(s, p), LeafSize(s, p), at, value, key);
    TailIsIndex(s, t, p, at, value, key);
    IndexIsNoMagic(e);
    OverrunRead(s, t, p, e, m, t);
  }

  lemma AddedSlots(s: Store, b: seq<byte>)
    ensures |Added(s, b).slots| == |s.slots| + 1
  {
  }

  /** The two blocks of a new tree. */
  lemma NewTreeBlocks(s: Store, s2: Store)
    requires var s1 := Added(s, EmptyLeaf());
             WellFormed(s) && WellFormed(s1) && s2 == Added(s1, TreeHeader(|s.slots|)) && WellFormed(s2)
    ensures var n := |s.slots|;
            && |s2.slots| == n + 2 && s2.vars == s.vars && s2.slots[n].Block? && s2.slots[n].length == NODE_SIZE
            && s2.slots[n + 1].Block? && s2.slots[n + 1].offset == s2.slots[n].offset + NODE_SIZE
            && s2.slots[n + 1].Block? && s2.slots[n + 1].length == TREE_SIZE
            && BlockBytes(s2, n) == EmptyLeaf() && BlockBytes(s2, n + 1) == TreeHeader(n)
            && forall i :: 0 <= i < n ==> BlockBytes(s2, i) == BlockBytes(s, i)
  {
    hide Image, EmptyLeaf, TreeHeader;
    var s1 := Added(s, EmptyLeaf());
    AddedKeeps(s, EmptyLeaf());
    AddedKeeps(s1, TreeHeader(|s.slots|));
  }

  lemma NewTree(s: Store, s2: Store, name: seq<byte>, unused: seq<byte>)
    requires WellFormed(s) && !HasName(s.vars, name) && CString(name) == name && |name| < 256
    requires var s1 := Added(s, EmptyLeaf());
             WellFormed(s1) && s2 == Added(s1, TreeHeader(|s.slots|)) && WellFormed(s2)
    requires WellFormed(VarAdded(s2, StoredVar(name, |s.slots| + 1), unused))
    ensures EmptyTreeAdded(s, VarAdded(s2, StoredVar(name, |s.slots| + 1), unused), name, |s.slots| + 1, |s.slots|)
  {
    hide Image, Lookup, U32, CompareKeys, CString, EmptyLeaf, TreeHeader, SlotsOk, BlockBytes, Added, HasName,
      StoredVar, NodeFits, VarsFit;
    var n := |s.slots|;
    var s' := VarAdded(s2, StoredVar(name, n + 1), unused);
    NewTreeBlocks(s, s2);
    SlotsAreFew(s);
    NewTreeBytes(n);
    StoredExactly(name, n + 1);
    NewName(s.vars, name, n + 1);
    InData(s);
    InData(s');
    SameBlocks(s2, s');
    NoPairs(s', n + 1, n);
  }

  lemma NoPairs(s: Store, t: nat, p: nat)
    requires WellFormed(s) && p < |s.slots| && BlockBytes(s, p) == EmptyLeaf()
    ensures EntriesOk(s, t, p) && Keys(s, p) == [] && Pairs(s, p) == []
  {
    hide Image, EmptyLeaf;
    NewTreeBytes(0);
  }

  lemma StoredExactly(name: seq<byte>, index: nat)
    requires |name| < 256 && index < WORD_LIMIT
    ensures StoredVar(name, index) == Var(index, name)
  {
    assert name[..|name|] == name;
  }

  lemma NewName(vars: seq<Var>, name: seq<byte>, t: nat)
    requires t < 0x8000_0000 && !HasName(vars, name) && CString(name) == name
    ensures Lookup(vars + [Var(t, name)], name) == t && HasName(vars + [Var(t, name)], name)
  {
    hide Lookup, CString;
    LookupAdded(vars, Var(t, name), name);
    assert (vars + [Var(t, name)])[|vars|] == Var(t, name);
  }

  lemma SameBlocks(s: Store, s': Store)
    requires SlotsOk(s.slots, |s.data|) && s'.slots == s.slots && s'.data == s.data
    ensures forall i :: 0 <= i < |s.slots| ==> BlockBytes(s', i) == BlockBytes(s, i)
  {
  }

  /** Every slot takes 8 bytes of a file of less than 4 GiB. */
  lemma SlotsAreFew(s: Store)
    requires WellFormed(s)
    ensures 8 * |s.slots| + 60 < WORD_LIMIT
  {
    hide BE, VarsBytes, EntriesBytes;
    StoreFits(s);
  }
}
