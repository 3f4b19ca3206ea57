/** Copying a tree between stores: a memoised walk over the nodes that rewrites every index it follows. */
module BomCloner {
  import opened Bits
  import opened Options
  import opened BomFormat
  import opened BomLayout
  import opened BomStore
  import opened BomTree

  // ----- the source graph

  /** A block that the cloner treats as a node when it is led there. */
  ghost predicate NodeIndex(s: Store, x: nat)
    requires WellFormed(s)
  {
    x < |s.slots| && IsNode(BlockBytes(s, x))
  }

  function IsRedirect(b: seq<byte>): bool
    requires IsNode(b)
  {
    U16(b, 0) == 0
  }

  /** The entries a leaf has room for, at most its count. */
  function EntryCount(b: seq<byte>): (n: nat)
    requires IsNode(b)
    ensures NODE_HEADER + 8 * n <= |b|
  {
    var max := (|b| - NODE_HEADER) / 8;
    if NodeCount(b) < max then NodeCount(b) else max
  }

  /** Where the walk goes on from a node stays in the set; the payload of a leaf is outside of it. */
  ghost predicate NodeClosed(s: Store, nodes: set<nat>, b: seq<byte>)
    requires WellFormed(s) && IsNode(b)
  {
    if IsRedirect(b) then |b| >= NODE_HEADER + 8 ==> ValueIndex(b, 0) in nodes
    else
      && (U32(b, FORWARD) != 0 ==> U32(b, FORWARD) in nodes)
      && forall i :: 0 <= i < EntryCount(b) ==> Payload(s, nodes, ValueIndex(b, i)) && Payload(s, nodes, KeyIndex(b, i))
  }

  ghost predicate Payload(s: Store, nodes: set<nat>, i: nat) {
    i < |s.slots| ==> i !in nodes
  }

  /** No block serves as both node and payload. */
  ghost predicate NodesClosed(s: Store, nodes: set<nat>)
    requires WellFormed(s)
  {
    forall x :: x in nodes && NodeIndex(s, x) ==> NodeClosed(s, nodes, BlockBytes(s, x))
  }

  // ----- what the walk reaches

  /** Where the walk goes on from a node. */
  ghost function Next(s: Store, x: nat): Option<nat>
    requires WellFormed(s) && NodeIndex(s, x)
  {
    var b := BlockBytes(s, x);
    if IsRedirect(b) then if |b| >= NODE_HEADER + 8 then Some(ValueIndex(b, 0)) else None
    else if U32(b, FORWARD) != 0 then Some(U32(b, FORWARD)) else None
  }

  /** The node that the walk from the root has come to after k steps, if it gets that far. */
  ghost function Visited(s: Store, root: nat, k: nat): (r: Option<nat>)
    requires WellFormed(s)
    ensures r.Some? ==> NodeIndex(s, r.value)
  {
    var u := if k == 0 then None else Visited(s, root, k - 1);
    var x := if k == 0 then Some(root) else if u.Some? then Next(s, u.value) else None;
    if x.Some? && NodeIndex(s, x.value) then x else None
  }

  ghost predicate OnWalk(s: Store, root: nat, x: nat)
    requires WellFormed(s)
  {
    exists k: nat :: Visited(s, root, k) == Some(x)
  }

  /** A key or a value of leaf z. */
  ghost predicate FieldOf(s: Store, z: nat, x: nat)
    requires WellFormed(s)
  {
    && NodeIndex(s, z) && !IsRedirect(BlockBytes(s, z))
    && exists i: nat :: i < EntryCount(BlockBytes(s, z)) && IsField(BlockBytes(s, z), i, x)
  }

  predicate IsField(b: seq<byte>, i: nat, x: nat)
    requires NODE_HEADER + 8 * (i + 1) <= |b|
  {
    ValueIndex(b, i) == x || KeyIndex(b, i) == x
  }

  /**
   * A node of the walk from the root, or a block that a key or a value of one resolves to. Backward links lead
   * nowhere.
   */
  ghost predicate Reached(s: Store, root: nat, x: nat)
    requires WellFormed(s)
  {
    OnWalk(s, root, x) || (x < |s.slots| && exists z: nat :: OnWalk(s, root, z) && FieldOf(s, z, x))
  }

  ghost function Copies(s: Store, root: nat): set<nat>
    requires WellFormed(s)
  {
    set x: nat | x < |s.slots| && Reached(s, root, x)
  }

  lemma WalkStarts(s: Store, root: nat)
    requires WellFormed(s)
    ensures NodeIndex(s, root) ==> OnWalk(s, root, root)
  {
    hide Image, U32, BlockBytes, Next;
    assert NodeIndex(s, root) ==> Visited(s, root, 0) == Some(root);
  }

  lemma WalkGoesOn(s: Store, root: nat, x: nat)
    requires WellFormed(s) && OnWalk(s, root, x)
    ensures NodeIndex(s, x)
    ensures Next(s, x).Some? && NodeIndex(s, Next(s, x).value) ==> OnWalk(s, root, Next(s, x).value)
  {
    hide Image, U32, BlockBytes, Next, NodeIndex;
    var k: nat :| Visited(s, root, k) == Some(x);
    assert Visited(s, root, k + 1) == if Next(s, x).Some? && NodeIndex(s, Next(s, x).value) then Next(s, x) else None;
  }

  lemma StepOf(s: Store, root: nat, x: nat) returns (k: nat)
    requires WellFormed(s) && OnWalk(s, root, x)
    ensures Visited(s, root, k) == Some(x)
  {
    hide Image, U32, BlockBytes, Next;
    k :| Visited(s, root, k) == Some(x);
  }

  lemma WalkIsReached(s: Store, root: nat, x: nat)
    requires WellFormed(s) && OnWalk(s, root, x)
    ensures Reached(s, root, x) && NodeIndex(s, x)
  {
    hide Image, U32, BlockBytes, Next;
    WalkGoesOn(s, root, x);
  }

  lemma FieldIsReached(s: Store, root: nat, z: nat, x: nat)
    requires WellFormed(s) && OnWalk(s, root, z) && FieldOf(s, z, x)
    ensures x < |s.slots| ==> Reached(s, root, x)
  {
    hide Image, U32, BlockBytes, Visited, FieldOf;
  }

  lemma ReachedIsSlot(s: Store, root: nat, x: nat)
    requires WellFormed(s) && Reached(s, root, x)
    ensures x < |s.slots| && x in Copies(s, root)
  {
    hide Image, U32, BlockBytes, FieldOf, OnWalk;
    if OnWalk(s, root, x) {
      WalkGoesOn(s, root, x);
    }
  }

  // ----- the copy of one node

  /** Where a link to node x leads in the copy; a link that leads to no node is kept. */
  ghost predicate LinkCloned(s: Store, m: map<nat, nat>, x: nat, y: nat)
    requires WellFormed(s)
  {
    if NodeIndex(s, x) then x in m && y == m[x] else y == x
  }

  /** A key or value field: remapped if it resolves, kept if it does not. */
  ghost predicate FieldCloned(s: Store, m: map<nat, nat>, v: nat, w: nat) {
    if v < |s.slots| then v in m && w == m[v] else w == v
  }

  ghost predicate EntryCloned(s: Store, m: map<nat, nat>, a: seq<byte>, b: seq<byte>, i: nat)
    requires NODE_HEADER + 8 * (i + 1) <= |a| == |b|
  {
    FieldCloned(s, m, ValueIndex(a, i), ValueIndex(b, i)) && FieldCloned(s, m, KeyIndex(a, i), KeyIndex(b, i))
  }

  /** b is the node a with its fields and its link forwards, or its redirection, rewritten; BackMapped says the rest. */
  ghost predicate NodeCloned(s: Store, m: map<nat, nat>, a: seq<byte>, b: seq<byte>)
    requires WellFormed(s) && IsNode(a)
  {
    && |b| == |a| && b[..FORWARD] == a[..FORWARD]
    && if IsRedirect(a) then
         && b[FORWARD..NODE_HEADER] == a[FORWARD..NODE_HEADER]
         && (|a| >= NODE_HEADER + 8 ==> LinkCloned(s, m, ValueIndex(a, 0), ValueIndex(b, 0)))
       else
         && (if U32(a, FORWARD) == 0 then U32(b, FORWARD) == 0 else LinkCloned(s, m, U32(a, FORWARD), U32(b, FORWARD)))
         && forall i :: 0 <= i < EntryCount(a) ==> EntryCloned(s, m, a, b, i)
  }

  // ----- backward links

  /**
   * The backward link of the copy of leaf z: rewritten if its target is memoised, kept if not. The memo is meant to
   * be the final one; a node is filled on the way back, when nothing is memoised any more.
   */
  ghost predicate BackMapped(s: Store, d: Store, m: map<nat, nat>, z: nat)
    requires WellFormed(s) && WellFormed(d)
  {
    NodeIndex(s, z) && !IsRedirect(BlockBytes(s, z)) ==>
      && z in m && m[z] < |d.slots| && IsNode(BlockBytes(d, m[z]))
      && U32(BlockBytes(d, m[z]), BACKWARD) == BackOf(m, U32(BlockBytes(s, z), BACKWARD))
  }

  /** So for all leaves memoised. */
  ghost predicate BacksMapped(s: Store, d: Store, nodes: set<nat>, m: map<nat, nat>)
    requires WellFormed(s) && WellFormed(d)
  {
    forall z :: z in m && z in nodes ==> BackMapped(s, d, m, z)
  }

  /**
   * A walk that is over: a leaf links back to the copy of what its backward link names if the walk reaches that, in any
   * other case to the same number as before.
   */
  ghost predicate BacksRewritten(s: Store, d: Store, m: map<nat, nat>, root: nat)
    requires WellFormed(s) && WellFormed(d) && ExactlyReached(s, m, root)
  {
    forall z: nat :: OnWalk(s, root, z) && !IsRedirect(BlockBytes(s, z)) ==>
      && m[z] < |d.slots| && IsNode(BlockBytes(d, m[z]))
      && var v := U32(BlockBytes(s, z), BACKWARD);
         U32(BlockBytes(d, m[z]), BACKWARD) == if v != 0 && Reached(s, root, v) then m[v] else v
  }

  function BackOf(m: map<nat, nat>, v: nat): nat {
    if v != 0 && v in m then m[v] else v
  }

  // ----- the state of the walk

  /**
   * Everything memoised has a block of its own in the copy; payload blocks are exact copies, finished nodes are
   * rewritten.
   */
  ghost predicate Cloning(s: Store, d: Store, nodes: set<nat>, m: map<nat, nat>, finished: set<nat>, root: nat) {
    && WellFormed(s) && WellFormed(d)
    && (forall x :: x in m ==> Placed(s, d, m, x, root) && (x in nodes ==> NodeIndex(s, x)))
    && (forall x, y :: x in m && y in m && x != y ==> m[x] != m[y])
    && (forall x :: x in m && x !in nodes ==> BlockBytes(d, m[x]) == BlockBytes(s, x))
    && (forall x :: x in finished ==> Finished(s, d, nodes, m, x))
    && (m != map[] ==> root in m)
  }

  ghost predicate Placed(s: Store, d: Store, m: map<nat, nat>, x: nat, root: nat)
    requires x in m
  {
    && x < |s.slots| && m[x] < |d.slots| && d.slots[m[x]].Block?
    && (s.slots[x].Block? ==> d.slots[m[x]].length == s.slots[x].length)
    && (s.slots[x].Free? ==> d.slots[m[x]].length == 0)
    && (x != root ==> m[x] > 0)
  }

  ghost predicate Finished(s: Store, d: Store, nodes: set<nat>, m: map<nat, nat>, x: nat)
    requires WellFormed(s) && WellFormed(d)
  {
    && x in nodes && x in m && m[x] < |d.slots| && NodeIndex(s, x)
    && NodeCloned(s, m, BlockBytes(s, x), BlockBytes(d, m[x]))
  }

  /** Nothing but what the walk reaches is memoised, and nothing but what is memoised is added; the root comes first. */
  ghost predicate OnlyReached(s: Store, d: Store, m: map<nat, nat>, root: nat, first: nat)
    requires WellFormed(s)
  {
    && (forall x :: x in m ==> Reached(s, root, x))
    && |d.slots| == first + |m| && (root in m ==> m[root] == first)
  }

  /** Everything the walk reaches is memoised, and nothing else. */
  ghost predicate ExactlyReached(s: Store, m: map<nat, nat>, root: nat)
    requires WellFormed(s)
  {
    forall x :: x in m <==> Reached(s, root, x)
  }

  /** Only blocks were added. */
  ghost predicate Extends(d: Store, d': Store)
    requires WellFormed(d) && WellFormed(d')
  {
    && |d.slots| <= |d'.slots| && d'.vars == d.vars
    && forall j :: 0 <= j < |d.slots| ==> BlockBytes(d', j) == BlockBytes(d, j) && SameShape(d.slots[j], d'.slots[j])
  }

  ghost predicate SameShape(a: Slot, b: Slot) {
    a.Block? == b.Block? && (a.Block? ==> a.length == b.length)
  }

  ghost predicate Larger(m: map<nat, nat>, m': map<nat, nat>) {
    forall x :: x in m ==> x in m' && m'[x] == m[x]
  }

  // ----- how much is still to be copied

  /** Space for every block not yet memoised. */
  ghost function Cost(s: Store, m: map<nat, nat>, n: nat): nat
    requires WellFormed(s) && n <= |s.slots|
  {
    if n == 0 then 0 else Cost(s, m, n - 1) + (if n - 1 in m then 0 else 8 + |BlockBytes(s, n - 1)|)
  }

  lemma {:induction false} CostOfOne(s: Store, m: map<nat, nat>, x: nat, y: nat, n: nat)
    requires WellFormed(s) && x < n <= |s.slots| && x !in m
    ensures Cost(s, m[x := y], n) + 8 + |BlockBytes(s, x)| == Cost(s, m, n)
  {
    hide BlockBytes, WellFormed;
    if x < n - 1 {
      CostOfOne(s, m, x, y, n - 1);
    } else {
      CostOfOthers(s, m, x, y, n - 1);
    }
  }

  lemma {:induction false} CostOfOthers(s: Store, m: map<nat, nat>, x: nat, y: nat, n: nat)
    requires WellFormed(s) && n <= x && n <= |s.slots|
    ensures Cost(s, m[x := y], n) == Cost(s, m, n)
  {
    hide BlockBytes, WellFormed;
    if n > 0 {
      CostOfOthers(s, m, x, y, n - 1);
    }
  }

  /** The memo holds indexes of the source only, so there are no more of them than slots. */
  lemma {:induction false} FewKeys(keys: set<nat>, n: nat)
    requires forall x :: x in keys ==> x < n
    ensures |keys| <= n
  {
    if n == 0 {
      assert keys == {};
    } else if n - 1 in keys {
      FewKeys(keys - {n - 1}, n - 1);
    } else {
      FewKeys(keys, n - 1);
    }
  }

  // ----- what adding blocks keeps

  lemma ExtendsSelf(d: Store)
    requires WellFormed(d)
    ensures Extends(d, d)
  {
  }

  lemma ExtendsTwice(a: Store, b: Store, c: Store)
    requires WellFormed(a) && WellFormed(b) && WellFormed(c) && Extends(a, b) && Extends(b, c)
    ensures Extends(a, c)
  {
    hide BlockBytes, WellFormed;
  }

  lemma AddedExtends(d: Store, b: seq<byte>)
    requires WellFormed(d) && WellFormed(Added(d, b))
    ensures Extends(d, Added(d, b)) && |Added(d, b).slots| == |d.slots| + 1
    ensures BlockBytes(Added(d, b), |d.slots|) == b
    ensures Added(d, b).slots[|d.slots|].Block? && Added(d, b).slots[|d.slots|].length == |b|
  {
    hide Image;
    AddedKeeps(d, b);
  }

  lemma NodeClonedLater(s: Store, m: map<nat, nat>, m': map<nat, nat>, a: seq<byte>, b: seq<byte>)
    requires WellFormed(s) && IsNode(a) && NodeCloned(s, m, a, b) && Larger(m, m')
    ensures NodeCloned(s, m', a, b)
  {
    hide Image, U32, U16, KeyIndex, ValueIndex, BlockBytes, SlotsOk;
    if !IsRedirect(a) {
      forall i | 0 <= i < EntryCount(a)
        ensures EntryCloned(s, m', a, b, i)
      {
        assert EntryCloned(s, m, a, b, i);
      }
    }
  }

  /** A finished node stays finished while blocks and memo entries are added. */
  lemma FinishedLater(s: Store, d: Store, d': Store, nodes: set<nat>, m: map<nat, nat>, m': map<nat, nat>, x: nat)
    requires WellFormed(s) && WellFormed(d) && WellFormed(d') && Larger(m, m')
    requires Finished(s, d, nodes, m, x) && m[x] < |d'.slots| && BlockBytes(d', m[x]) == BlockBytes(d, m[x])
    ensures Finished(s, d', nodes, m', x)
  {
    hide Image, NodeCloned;
    NodeClonedLater(s, m, m', BlockBytes(s, x), BlockBytes(d, m[x]));
  }

  /** A new block in the copy for a source index that had none. */
  lemma Memoised(s: Store, d: Store, nodes: set<nat>, m: map<nat, nat>, finished: set<nat>, root: nat, x: nat)
    requires Cloning(s, d, nodes, m, finished, root) && x < |s.slots| && x !in m && (root in m || x == root)
    requires x in nodes ==> NodeIndex(s, x)
    requires WellFormed(Added(d, BlockBytes(s, x)))
    ensures Cloning(s, Added(d, BlockBytes(s, x)), nodes, m[x := |d.slots|], finished, root)
    ensures Larger(m, m[x := |d.slots|]) && Extends(d, Added(d, BlockBytes(s, x)))
  {
    hide Image, BlockBytes, NodeCloned, SlotsOk, Added, NodeIndex;
    InData(s);
    var d', m' := Added(d, BlockBytes(s, x)), m[x := |d.slots|];
    InData(d);
    InData(d');
    AddedExtends(d, BlockBytes(s, x));
    forall z | z in m'
      ensures Placed(s, d', m', z, root) && (z !in nodes ==> BlockBytes(d', m'[z]) == BlockBytes(s, z))
    {
      if z != x {
        assert Placed(s, d, m, z, root);
      } else {
        SizeOfBlock(s, x);
        assert x != root ==> Placed(s, d, m, root, root);
      }
    }
    forall z | z in finished
      ensures Finished(s, d', nodes, m', z)
    {
      assert Finished(s, d, nodes, m, z);
      FinishedLater(s, d, d', nodes, m, m', z);
    }
    forall y, z | y in m' && z in m' && y != z
      ensures m'[y] != m'[z]
    {
      if y != x {
        assert Placed(s, d, m, y, root);
      }
      if z != x {
        assert Placed(s, d, m, z, root);
      }
    }
  }

  lemma SizeOfBlock(s: Store, x: nat)
    requires WellFormed(s) && x < |s.slots|
    ensures (s.slots[x].Block? ==> |BlockBytes(s, x)| == s.slots[x].length)
    ensures (s.slots[x].Free? ==> |BlockBytes(s, x)| == 0)
  {
    hide Image;
  }

  /** The reserved block of a node is filled with its rewritten bytes. */
  lemma Rewritten(s: Store, d: Store, nodes: set<nat>, m: map<nat, nat>, finished: set<nat>, root: nat, x: nat,
      b: seq<byte>)
    requires Cloning(s, d, nodes, m, finished, root) && x in nodes && x in m && NodeIndex(s, x)
    requires NodeCloned(s, m, BlockBytes(s, x), b)
    ensures m[x] < |d.slots| && d.slots[m[x]].Block? && |b| == d.slots[m[x]].length &&
        d.slots[m[x]].offset + |b| <= |d.data|
    ensures WellFormed(Patched(d, m[x], 0, b)) ==> Cloning(s, Patched(d, m[x], 0, b), nodes, m, finished + {x}, root)
    ensures forall j :: 0 <= j < |d.slots| && j != m[x] ==> BlockBytes(Patched(d, m[x], 0, b), j) == BlockBytes(d, j)
  {
    hide Image, NodeCloned, SlotsOk;
    assert Placed(s, d, m, x, root);
    InData(s);
    InData(d);
    SizeOfBlock(s, x);
    SizeOfNode(s, m, BlockBytes(s, x), b);
    var d' := Patched(d, m[x], 0, b);
    PatchedKeeps(d, m[x], 0, b);
    assert Overwrite(BlockBytes(d, m[x]), 0, b) == b;
    if WellFormed(d') {
      RewrittenCloning(s, d, d', nodes, m, finished, root, x);
    }
  }

  lemma SizeOfNode(s: Store, m: map<nat, nat>, a: seq<byte>, b: seq<byte>)
    requires WellFormed(s) && IsNode(a) && NodeCloned(s, m, a, b)
    ensures |b| == |a|
  {
  }

  lemma RewrittenCloning(s: Store, d: Store, d': Store, nodes: set<nat>, m: map<nat, nat>, finished: set<nat>,
      root: nat, x: nat)
    requires Cloning(s, d, nodes, m, finished, root) && x in nodes && x in m && NodeIndex(s, x) && WellFormed(d')
    requires d'.slots == d.slots && m[x] < |d.slots| && NodeCloned(s, m, BlockBytes(s, x), BlockBytes(d', m[x]))
    requires forall j :: 0 <= j < |d.slots| && j != m[x] ==> BlockBytes(d', j) == BlockBytes(d, j)
    ensures Cloning(s, d', nodes, m, finished + {x}, root)
  {
    hide Image, NodeCloned, SlotsOk, NodeIndex, BlockBytes;
    InData(s);
    InData(d);
    InData(d');
    forall z | z in m
      ensures Placed(s, d', m, z, root) && (z !in nodes ==> BlockBytes(d', m[z]) == BlockBytes(s, z))
    {
      assert Placed(s, d, m, z, root);
    }
    forall z | z in finished + {x}
      ensures Finished(s, d', nodes, m, z)
    {
      if z != x {
        assert Finished(s, d, nodes, m, z);
        FinishedLater(s, d, d', nodes, m, m, z);
      }
    }
  }

  // ----- rewriting the bytes of a node

  /** Both fields of entry i are written; the header and the other entries stay. */
  lemma EntryWritten(b: seq<byte>, i: nat, v: nat, k: nat)
    requires NODE_HEADER + 8 * (i + 1) <= |b| && v < WORD_LIMIT && k < WORD_LIMIT
    ensures var r := Overwrite(b, NODE_HEADER + 8 * i, BE(v) + BE(k));
            && r[..NODE_HEADER] == b[..NODE_HEADER] && ValueIndex(r, i) == v && KeyIndex(r, i) == k
            && forall j :: 0 <= j && j != i && NODE_HEADER + 8 * (j + 1) <= |b| ==>
                 ValueIndex(r, j) == ValueIndex(b, j) && KeyIndex(r, j) == KeyIndex(b, j)
  {
    hide BE, U32;
    var at := NODE_HEADER + 8 * i;
    var r := Overwrite(b, at, BE(v) + BE(k));
    assert r[..at] == b[..at] && r[at..at + 8] == BE(v) + BE(k);
    assert r[..NODE_HEADER] == r[..at][..NODE_HEADER] == b[..at][..NODE_HEADER] == b[..NODE_HEADER];
    NewEntry(r, r[..at], v, k, i);
    forall j | 0 <= j && j != i && NODE_HEADER + 8 * (j + 1) <= |b|
      ensures ValueIndex(r, j) == ValueIndex(b, j) && KeyIndex(r, j) == KeyIndex(b, j)
    {
      var x := NODE_HEADER + 8 * j;
      assert r[x..x + 8] == b[x..x + 8];
      SameEntry(r, b, j, j);
    }
  }

  /** A link of the header is written; the other link, the count and the entries stay. */
  lemma LinkWritten(b: seq<byte>, at: nat, v: nat)
    requires IsNode(b) && (at == FORWARD || at == BACKWARD) && v < WORD_LIMIT
    ensures var r := Overwrite(b, at, BE(v));
            && r[..FORWARD] == b[..FORWARD] && U32(r, at) == v && U32(r, 12 - at) == U32(b, 12 - at)
            && forall j :: 0 <= j && NODE_HEADER + 8 * (j + 1) <= |b| ==>
                 ValueIndex(r, j) == ValueIndex(b, j) && KeyIndex(r, j) == KeyIndex(b, j)
  {
    hide BE, U32;
    var r := Overwrite(b, at, BE(v));
    assert r[at..at + 4] == BE(v);
    WordIn(r, at, v);
    assert r[12 - at..16 - at] == b[12 - at..16 - at];
    SameWord(r, b, 12 - at, 12 - at);
    forall j | 0 <= j && NODE_HEADER + 8 * (j + 1) <= |b|
      ensures ValueIndex(r, j) == ValueIndex(b, j) && KeyIndex(r, j) == KeyIndex(b, j)
    {
      var x := NODE_HEADER + 8 * j;
      assert r[x..x + 8] == b[x..x + 8];
      SameEntry(r, b, j, j);
    }
  }

  // ----- the tree header

  ghost function HeaderLength(s: Store, t: nat): nat
    requires WellFormed(s)
  {
    if t < |s.slots| then |BlockBytes(s, t)| else 0
  }

  /** If t is long enough for a tree header, it leads to the root of the walk. */
  ghost predicate IsTreeHeader(s: Store, t: nat, nodes: set<nat>, root: nat)
    requires WellFormed(s)
  {
    HeaderLength(s, t) >= TREE_SIZE ==> U32(BlockBytes(s, t), CHILD) == root && root in nodes
  }

  /** The copied header t', added to d1 together with a variable, leads to the copy of what the header t leads to. */
  ghost predicate HeaderCloned(s: Store, d1: Store, m: map<nat, nat>, t: nat, name: seq<byte>, t': nat, d: Store)
    requires WellFormed(s) && WellFormed(d1)
  {
    && HeaderLength(s, t) >= TREE_SIZE && t' == |d1.slots|
    && exists child: nat, unused ::
         && child < WORD_LIMIT && LinkCloned(s, m, U32(BlockBytes(s, t), CHILD), child)
         && d == VarAdded(Added(d1, Overwrite(BlockBytes(s, t), CHILD, BE(child))), StoredVar(name, t'), unused)
         && WellFormed(d)
  }

  class TreeGraphCloner {
    const source: Context
    const dest: Context
    // source index to index in the copy
    var indexMap: map<nat, nat>
    // what the two stores hold, the node blocks of the source, and those already rewritten in the copy
    ghost const s: Store
    ghost var d: Store
    ghost const nodes: set<nat>
    ghost var finished: set<nat>
    ghost const root: nat
    ghost const limit: nat
    // the first index given out in the copy
    ghost const first: nat

    ghost predicate Valid()
      reads this, source, dest
    {
      && source != dest && source.Holds(s) && dest.Holds(d) && NodesClosed(s, nodes)
      && Cloning(s, d, nodes, indexMap, finished, root) && OnlyReached(s, d, indexMap, root, first)
      && |dest.mem| + Cost(s, indexMap, |s.slots|) <= limit < WORD_LIMIT
    }

    /** Blocks, memo entries and finished nodes were only added. */
    twostate predicate Grown()
      requires old(WellFormed(d)) && WellFormed(d)
      reads this
    {
      Extends(old(d), d) && Larger(old(indexMap), indexMap) && old(finished) <= finished
    }

    /** No node was memoised meanwhile. */
    twostate predicate NoNewNodes()
      reads this
    {
      forall z :: z in indexMap && z !in old(indexMap) ==> z !in nodes
    }

    /** The backward link of every leaf memoised meanwhile is the one the memo now asks for. */
    twostate predicate NewOnesLinked()
      requires WellFormed(s) && WellFormed(d)
      reads this
    {
      forall z :: z in indexMap && z !in old(indexMap) && z in nodes ==> BackMapped(s, d, indexMap, z)
    }

    /** Every node memoised meanwhile is finished. */
    twostate predicate NewOnesFinished()
      reads this
    {
      forall z :: z in indexMap && z !in old(indexMap) && z in nodes ==> z in finished
    }

    constructor (source: Context, dest: Context, ghost s: Store, ghost d: Store, ghost nodes: set<nat>,
        ghost root: nat, ghost limit: nat)
      requires source != dest && source.Holds(s) && dest.Holds(d) && NodesClosed(s, nodes)
      requires |dest.mem| + Cost(s, map[], |s.slots|) <= limit < WORD_LIMIT
      ensures Valid() && this.source == source && this.dest == dest && indexMap == map[]
      ensures this.s == s && this.d == d && this.nodes == nodes && this.root == root && this.limit == limit
      ensures first == |d.slots|
    {
      this.source, this.dest, this.s, this.d, this.nodes, this.root, this.limit := source, dest, s, d, nodes, root, limit;
      first := |d.slots|;
      indexMap := map[];
      finished := {};
    }

    /** bom_index_get on the source, with the bytes copied. */
    method ReadSource(x: nat) returns (r: Option<seq<byte>>)
      requires Valid()
      ensures r == Resolve(s, x)
    {
      hide Image, Cloning, NodesClosed, Cost;
      var b := source.IndexGet(x, s);
      r := if b.None? then None else Some(source.mem[b.value.0..b.value.0 + b.value.1]);
    }

    /** Adds a block for a source index to the copy, and memoises it. */
    method Reserve(x: nat, b: seq<byte>) returns (y: nat)
      requires Valid() && x < |s.slots| && x !in indexMap && b == BlockBytes(s, x) && (root in indexMap || x == root)
      requires (x in nodes ==> NodeIndex(s, x)) && Reached(s, root, x)
      modifies this, dest
      ensures Valid() && Grown() && x in indexMap && y == indexMap[x] && finished == old(finished)
      ensures indexMap == old(indexMap)[x := y] && y == |old(d).slots|
    {
      hide Image, Cloning, NodesClosed, BlockBytes, Added, Extends, Reached;
      RootFirst(s, d, nodes, indexMap, finished, root);
      CostOfOne(s, indexMap, x, |d.slots|, |s.slots|);
      SizeOf(d);
      AddedSize(d, b);
      y := dest.IndexAdd(b, d);
      SizeOf(Added(d, b));
      AddedExtends(d, b);
      Memoised(s, d, nodes, indexMap, finished, root, x);
      indexMap := indexMap[x := y];
      d := Added(d, b);
    }

    /** cloneOpaqueBlock. */
    method CloneOpaqueBlock(x: nat) returns (y: nat)
      requires Valid() && x < |s.slots| && x !in nodes && root in indexMap && Reached(s, root, x)
      modifies this, dest
      ensures Valid() && Grown() && NoNewNodes() && x in indexMap && y == indexMap[x]
    {
      hide Image, Cloning, NodesClosed, Cost, BlockBytes, Extends;
      ExtendsSelf(d);
      if x in indexMap {
        return indexMap[x];
      }
      var b := ReadSource(x);
      y := Reserve(x, b.value);
    }

    /** A key or value field: a reference if it resolves in the source, otherwise carried through. */
    method CloneField(v: nat) returns (w: nat)
      requires Valid() && Payload(s, nodes, v) && root in indexMap && v < WORD_LIMIT
      requires v < |s.slots| ==> Reached(s, root, v)
      modifies this, dest
      ensures Valid() && Grown() && NoNewNodes() && FieldCloned(s, indexMap, v, w) && w < WORD_LIMIT
    {
      hide Image, Cloning, NodesClosed, Cost, BlockBytes, Extends;
      ExtendsSelf(d);
      w := v;
      var r := ReadSource(v);
      if r.Some? {
        w := CloneOpaqueBlock(v);
        IndexIsWord(s, d, nodes, indexMap, finished, root, v);
      }
    }

    /** The entries of a leaf, one field after the other. */
    method CloneEntries(a: seq<byte>, ghost x: nat) returns (b: seq<byte>)
      requires Valid() && OnWalk(s, root, x) && x < |s.slots| && a == BlockBytes(s, x)
      requires IsNode(a) && !IsRedirect(a) && NodeClosed(s, nodes, a) && root in indexMap
      modifies this, dest
      ensures Valid() && Grown() && NoNewNodes()
      ensures |b| == |a| && b[..NODE_HEADER] == a[..NODE_HEADER]
      ensures forall i :: 0 <= i < EntryCount(a) ==> EntryCloned(s, indexMap, a, b, i)
    {
      hide Image, Cloning, NodesClosed, Cost, BlockBytes, Extends, Overwrite, U32, U16, KeyIndex, ValueIndex,
        FieldCloned, Payload, OnWalk, Reached, IsRedirect, OnlyReached;
      ExtendsSelf(d);
      b := a;
      for i := 0 to EntryCount(a)
        invariant Valid() && Grown() && NoNewNodes()
        invariant |b| == |a| && b[..NODE_HEADER] == a[..NODE_HEADER]
        invariant forall j :: 0 <= j < i ==> EntryCloned(s, indexMap, a, b, j)
        invariant forall j :: i <= j < EntryCount(a) ==>
            ValueIndex(b, j) == ValueIndex(a, j) && KeyIndex(b, j) == KeyIndex(a, j)
      {
        ghost var d1, m1 := d, indexMap;
        IndexesAreWords(a, i);
        FieldsReached(s, root, x, i);
        var v := CloneField(ValueIndex(b, i));
        ExtendsTwice(old(d), d1, d);
        ghost var d2, m2 := d, indexMap;
        var k := CloneField(KeyIndex(b, i));
        ExtendsTwice(old(d), d2, d);
        EntryWritten(b, i, v, k);
        ghost var b1 := b;
        b := Overwrite(b, NODE_HEADER + 8 * i, BE(v) + BE(k));
        EntriesClonedLater(s, m1, indexMap, a, b1, b, i);
        FieldClonedLater(s, m2, indexMap, ValueIndex(a, i), v);
      }
    }

    /** A node that only redirects: the first leaf. */
    method CloneRedirect(a: seq<byte>, ghost x: nat) returns (b: seq<byte>)
      requires Valid() && NodeIndex(s, x) && x in nodes && x in indexMap && a == BlockBytes(s, x)
      requires IsRedirect(a) && NodeClosed(s, nodes, a) && root in indexMap && OnWalk(s, root, x)
      modifies this, dest
      ensures Valid() && Grown() && NewOnesFinished() && NewOnesLinked() && NodeCloned(s, indexMap, a, b)
      decreases |s.slots| - |indexMap|, 2
    {
      hide Image, Cloning, NodesClosed, Cost, BlockBytes, Extends, U32, U16, BackMapped;
      ExtendsSelf(d);
      b := a;
      if |a| >= NODE_HEADER + 8 {
        IndexesAreWords(a, 0);
        var target := ValueIndex(a, 0);
        WalkGoesOn(s, root, x);
        var first := CloneEntry(target);
        FirstWritten(a, first);
        b := Overwrite(a, NODE_HEADER, BE(first));
      }
    }

    /** A leaf: entries, then the forward link, then the backward link if its target is memoised by now. */
    method CloneLeaf(a: seq<byte>, ghost x: nat) returns (b: seq<byte>)
      requires Valid() && NodeIndex(s, x) && x in nodes && x in indexMap && a == BlockBytes(s, x)
      requires !IsRedirect(a) && NodeClosed(s, nodes, a) && root in indexMap && OnWalk(s, root, x)
      modifies this, dest
      ensures Valid() && Grown() && NewOnesFinished() && NewOnesLinked() && NodeCloned(s, indexMap, a, b)
      ensures |b| >= NODE_HEADER && U32(b, BACKWARD) == BackOf(indexMap, U32(a, BACKWARD))
      decreases |s.slots| - |indexMap|, 2
    {
      hide Image, Cloning, NodesClosed, Cost, BlockBytes, Extends, U32, U16, Overwrite, KeyIndex, ValueIndex,
        FieldCloned, BackMapped, OnWalk, Reached, OnlyReached, EntryCloned, SlotsOk;
      KeysFew(s, d, nodes, indexMap, finished, root);
      var entries := CloneEntries(a, x);
      KeysFew(s, d, nodes, indexMap, finished, root);
      b := entries;
      ghost var d1, m1 := d, indexMap;
      SameLinks(a, b);
      MoreKeys(old(indexMap), indexMap);
      var forwards := U32(a, FORWARD);
      if forwards != 0 {
        WalkGoesOn(s, root, x);
        var f := CloneEntry(forwards);
        ExtendsTwice(old(d), d1, d);
        LinkWritten(b, FORWARD, f);
        b := Overwrite(b, FORWARD, BE(f));
      }
      ghost var b1 := b;
      var backwards := U32(a, BACKWARD);
      if backwards != 0 && backwards in indexMap {
        IndexIsWord(s, d, nodes, indexMap, finished, root, backwards);
        LinkWritten(b, BACKWARD, indexMap[backwards]);
        b := Overwrite(b, BACKWARD, BE(indexMap[backwards]));
      }
      LeafCloned(s, m1, indexMap, a, entries, b);
    }

    /** Rewrites the reserved block of a node; d0 is the copy before the block was reserved. */
    method FillNode(x: nat, a: seq<byte>, ghost d0: Store)
      requires Valid() && x in nodes && x in indexMap && NodeIndex(s, x) && a == BlockBytes(s, x) && root in indexMap
      requires WellFormed(d0) && Extends(d0, d) && |d0.slots| <= indexMap[x] && OnWalk(s, root, x)
      modifies this, dest
      ensures Valid() && Extends(d0, d) && Larger(old(indexMap), indexMap) && old(finished) <= finished
      ensures NewOnesFinished() && x in finished && NewOnesLinked() && BackMapped(s, d, indexMap, x)
      decreases |s.slots| - |indexMap|, 3
    {
      hide Image, Cost, BlockBytes, Extends, U32, U16, Overwrite, NodeCloned, Cloning, BackMapped, IsRedirect, OnWalk,
        Reached, NodesClosed, NodeClosed, SlotsOk, BackOf;
      NodeIsClosed(s, nodes, x);
      var b;
      if IsRedirect(a) {
        b := CloneRedirect(a, x);
      } else {
        b := CloneLeaf(a, x);
      }
      ExtendsTwice(d0, old(d), d);
      Rewritten(s, d, nodes, indexMap, finished, root, x, b);
      PatchedImage(d, indexMap[x], 0, b);
      dest.Patch(indexMap[x], 0, b, d);
      PatchedExtends(d0, d, indexMap[x], b);
      SizeOfNode(s, indexMap, a, b);
      PatchedBack(s, d, nodes, indexMap, finished, root, x, b);
      d := Patched(d, indexMap[x], 0, b);
      finished := finished + {x};
    }

    /** cloneEntry. */
    method CloneEntry(x: nat) returns (y: nat)
      requires Valid() && x in nodes && (root in indexMap || x == root) && x < WORD_LIMIT
      requires NodeIndex(s, x) ==> OnWalk(s, root, x)
      modifies this, dest
      ensures Valid() && Grown() && NewOnesFinished() && NewOnesLinked() && LinkCloned(s, indexMap, x, y)
      ensures y < WORD_LIMIT
      decreases |s.slots| - |indexMap|, 1
    {
      hide Image, Cost, BlockBytes, Extends, U32, U16, Overwrite, NodeCloned, Cloning, NodesClosed, BackMapped;
      ExtendsSelf(d);
      KeysFew(s, d, nodes, indexMap, finished, root);
      if x in indexMap {
        IndexIsWord(s, d, nodes, indexMap, finished, root, x);
        return indexMap[x];
      }
      var r := ReadSource(x);
      if r.None? || |r.value| < NODE_HEADER {
        return x;
      }
      WalkIsReached(s, root, x);
      y := Reserve(x, r.value);
      KeysFew(s, d, nodes, indexMap, finished, root);
      FillNode(x, r.value, old(d));
      IndexIsWord(s, d, nodes, indexMap, finished, root, x);
    }

    /**
     * cloneTreeVariable: clones what the tree header refers to, then the header, and registers it under the name. A
     * block that is missing or too short for a header is skipped.
     */
    method CloneTreeVariable(name: seq<byte>, sourceVarIndex: nat) returns (ghost t: Option<nat>, ghost d1: Store)
      requires Valid() && indexMap == map[] && IsTreeHeader(s, sourceVarIndex, nodes, root)
      requires limit + 8 + HeaderLength(s, sourceVarIndex) + |name| + 9 < WORD_LIMIT
      modifies this, dest
      ensures source.Holds(s) && WellFormed(d1) && Extends(old(d), d1) && Complete(nodes, indexMap, finished)
      ensures Cloning(s, d1, nodes, indexMap, finished, root)
      ensures t.None? ==> dest.Holds(d1) && old(d) == d1 && HeaderLength(s, sourceVarIndex) < TREE_SIZE
      ensures t.Some? ==> dest.Holds(d) && HeaderCloned(s, d1, indexMap, sourceVarIndex, name, t.value, d)
      ensures BacksMapped(s, d1, nodes, indexMap) && |d1.slots| == |old(d).slots| + |indexMap|
      ensures root in indexMap ==> indexMap[root] == |old(d).slots|
      ensures t.Some? ==> ExactlyReached(s, indexMap, root) && BacksRewritten(s, d1, indexMap, root)
    {
      hide Image, Cloning, NodesClosed, Cost, BlockBytes, Extends, Added, Lookup, BackMapped, U32, LinkCloned,
        Reached, OnWalk, NodeIndex, ExactlyReached, BacksRewritten;
      ExtendsSelf(d);
      var r := ReadSource(sourceVarIndex);
      if r.None? || |r.value| < TREE_SIZE {
        return None, d;
      }
      var buffer := r.value;
      WalkStarts(s, root);
      var destChild := CloneEntry(U32(buffer, CHILD));
      d1 := d;
      AllReached(s, d1, nodes, indexMap, finished, root, destChild);
      AllRewritten(s, d1, nodes, indexMap, finished, root);
      buffer := Overwrite(buffer, CHILD, BE(destChild));
      SizeOf(d1);
      AddedSize(d1, buffer);
      var newTreeIndex := dest.IndexAdd(buffer, d1);
      ghost var d2 := Added(d1, buffer);
      SizeOf(d2);
      ghost var unused := dest.VariableAdd(name, newTreeIndex, d2);
      d := VarAdded(d2, StoredVar(name, newTreeIndex), unused);
      t := Some(newTreeIndex);
    }
  }

  /** The root is the first to be memoised. */
  lemma RootFirst(s: Store, d: Store, nodes: set<nat>, m: map<nat, nat>, finished: set<nat>, root: nat)
    requires Cloning(s, d, nodes, m, finished, root)
    ensures root !in m ==> m == map[]
  {
  }

  /** The nodes of the walk are memoised. */
  lemma {:induction false} WalkCopied(s: Store, d: Store, nodes: set<nat>, m: map<nat, nat>, finished: set<nat>,
      root: nat, k: nat)
    requires Cloning(s, d, nodes, m, finished, root) && NodesClosed(s, nodes) && Complete(nodes, m, finished)
    requires root in nodes && (NodeIndex(s, root) ==> root in m)
    ensures var x := Visited(s, root, k); x.Some? ==> x.value in m && x.value in nodes && x.value in finished
  {
    hide Image, U32, U16, BlockBytes, NodesClosed, Cloning;
    CloningStores(s, d, nodes, m, finished, root);
    if k > 0 && Visited(s, root, k - 1).Some? {
      var x := Visited(s, root, k - 1).value;
      WalkCopied(s, d, nodes, m, finished, root, k - 1);
      FinishedAt(s, d, nodes, m, finished, root, x);
      NodeIsClosed(s, nodes, x);
    }
  }

  /** The keys and values of a finished leaf are memoised. */
  lemma FieldsCopied(s: Store, d: Store, nodes: set<nat>, m: map<nat, nat>, finished: set<nat>, root: nat, z: nat,
      x: nat)
    requires Cloning(s, d, nodes, m, finished, root) && z in finished && FieldOf(s, z, x) && x < |s.slots|
    ensures x in m
  {
    hide Image, U32, U16, BlockBytes, Cloning, KeyIndex, ValueIndex;
    CloningStores(s, d, nodes, m, finished, root);
    FinishedAt(s, d, nodes, m, finished, root, z);
    var a, b := BlockBytes(s, z), BlockBytes(d, m[z]);
    var i: nat :| i < EntryCount(a) && IsField(a, i, x);
    assert EntryCloned(s, m, a, b, i);
  }

  /** A walk that is over has memoised exactly what it reaches. */
  lemma AllReached(s: Store, d: Store, nodes: set<nat>, m: map<nat, nat>, finished: set<nat>, root: nat, child: nat)
    requires Cloning(s, d, nodes, m, finished, root) && NodesClosed(s, nodes) && Complete(nodes, m, finished)
    requires root in nodes && LinkCloned(s, m, root, child) && forall x :: x in m ==> Reached(s, root, x)
    ensures ExactlyReached(s, m, root)
  {
    hide Image, BlockBytes, NodesClosed, Cloning, Next, FieldOf, NodeIndex;
    CloningStores(s, d, nodes, m, finished, root);
    forall x | Reached(s, root, x)
      ensures x in m
    {
      var z: nat :| OnWalk(s, root, z) && (z == x || FieldOf(s, z, x));
      var k := StepOf(s, root, z);
      WalkCopied(s, d, nodes, m, finished, root, k);
      if z != x {
        ReachedIsSlot(s, root, x);
        FieldsCopied(s, d, nodes, m, finished, root, z, x);
      }
    }
  }

  lemma AllRewritten(s: Store, d: Store, nodes: set<nat>, m: map<nat, nat>, finished: set<nat>, root: nat)
    requires Cloning(s, d, nodes, m, finished, root) && NodesClosed(s, nodes) && Complete(nodes, m, finished)
    requires root in nodes && ExactlyReached(s, m, root) && BacksMapped(s, d, nodes, m)
    ensures BacksRewritten(s, d, m, root)
  {
    hide Image, BlockBytes, NodesClosed, Cloning, U32, U16, Next;
    CloningStores(s, d, nodes, m, finished, root);
    forall z: nat | OnWalk(s, root, z)
      ensures NodeIndex(s, z) && z in m && z in nodes && BackMapped(s, d, m, z)
    {
      WalkStarts(s, root);
      var k := StepOf(s, root, z);
      WalkCopied(s, d, nodes, m, finished, root, k);
    }
  }

  lemma FieldsReached(s: Store, root: nat, z: nat, i: nat)
    requires WellFormed(s) && OnWalk(s, root, z) && NodeIndex(s, z) && !IsRedirect(BlockBytes(s, z))
    requires i < EntryCount(BlockBytes(s, z))
    ensures ValueIndex(BlockBytes(s, z), i) < |s.slots| ==> Reached(s, root, ValueIndex(BlockBytes(s, z), i))
    ensures KeyIndex(BlockBytes(s, z), i) < |s.slots| ==> Reached(s, root, KeyIndex(BlockBytes(s, z), i))
  {
    hide Image, U32, U16, BlockBytes, KeyIndex, ValueIndex, OnWalk, Reached;
    var b := BlockBytes(s, z);
    assert IsField(b, i, ValueIndex(b, i)) && IsField(b, i, KeyIndex(b, i));
    FieldIsReached(s, root, z, ValueIndex(b, i));
    FieldIsReached(s, root, z, KeyIndex(b, i));
  }

  lemma KeysFew(s: Store, d: Store, nodes: set<nat>, m: map<nat, nat>, finished: set<nat>, root: nat)
    requires Cloning(s, d, nodes, m, finished, root)
    ensures |m| <= |s.slots|
  {
    hide Image, BlockBytes;
    forall x | x in m.Keys
      ensures x < |s.slots|
    {
      assert Placed(s, d, m, x, root);
    }
    FewKeys(m.Keys, |s.slots|);
    assert |m| == |m.Keys|;
  }

  lemma NodeIsClosed(s: Store, nodes: set<nat>, x: nat)
    requires WellFormed(s) && NodesClosed(s, nodes) && x in nodes && NodeIndex(s, x)
    ensures NodeClosed(s, nodes, BlockBytes(s, x))
  {
  }

  lemma MoreKeys(m: map<nat, nat>, m': map<nat, nat>)
    requires Larger(m, m')
    ensures |m| <= |m'|
  {
    assert m.Keys <= m'.Keys;
    SubsetSize(m.Keys, m'.Keys);
    assert |m| == |m.Keys| && |m'| == |m'.Keys|;
  }

  lemma {:induction false} SubsetSize(a: set<nat>, b: set<nat>)
    requires a <= b
    ensures |a| <= |b|
  {
    assert b == a + (b - a);
  }

  lemma IndexesAreWords(a: seq<byte>, i: nat)
    requires NODE_HEADER + 8 * (i + 1) <= |a|
    ensures ValueIndex(a, i) < WORD_LIMIT && KeyIndex(a, i) < WORD_LIMIT
  {
  }

  lemma FieldClonedLater(s: Store, m: map<nat, nat>, m': map<nat, nat>, v: nat, w: nat)
    requires FieldCloned(s, m, v, w) && Larger(m, m')
    ensures FieldCloned(s, m', v, w)
  {
  }

  /** Entries already cloned stay so while the memo grows and another entry is written. */
  lemma EntriesClonedLater(s: Store, m: map<nat, nat>, m': map<nat, nat>, a: seq<byte>, b: seq<byte>, b': seq<byte>,
      n: nat)
    requires |b| == |a| == |b'| && NODE_HEADER + 8 * n <= |a| && Larger(m, m')
    requires forall j :: 0 <= j < n ==> EntryCloned(s, m, a, b, j)
    requires forall j :: 0 <= j < n ==> ValueIndex(b', j) == ValueIndex(b, j) && KeyIndex(b', j) == KeyIndex(b, j)
    ensures forall j :: 0 <= j < n ==> EntryCloned(s, m', a, b', j)
  {
    hide U32, KeyIndex, ValueIndex;
    forall j | 0 <= j < n
      ensures EntryCloned(s, m', a, b', j)
    {
      assert EntryCloned(s, m, a, b, j);
    }
  }

  lemma SameLinks(a: seq<byte>, b: seq<byte>)
    requires |a| == |b| >= NODE_HEADER && a[..NODE_HEADER] == b[..NODE_HEADER]
    ensures U32(b, FORWARD) == U32(a, FORWARD) && U32(b, BACKWARD) == U32(a, BACKWARD) && b[..FORWARD] == a[..FORWARD]
  {
    hide U32;
    assert a[..NODE_HEADER][FORWARD..FORWARD + 4] == a[FORWARD..FORWARD + 4] &&
        a[..NODE_HEADER][BACKWARD..BACKWARD + 4] == a[BACKWARD..BACKWARD + 4];
    assert b[..NODE_HEADER][FORWARD..FORWARD + 4] == b[FORWARD..FORWARD + 4] &&
        b[..NODE_HEADER][BACKWARD..BACKWARD + 4] == b[BACKWARD..BACKWARD + 4];
    SameWord(b, a, FORWARD, FORWARD);
    SameWord(b, a, BACKWARD, BACKWARD);
    assert a[..FORWARD] == a[..NODE_HEADER][..FORWARD] && b[..FORWARD] == b[..NODE_HEADER][..FORWARD];
  }

  /** The redirection is written; the header stays. */
  lemma FirstWritten(a: seq<byte>, v: nat)
    requires |a| >= NODE_HEADER + 8 && v < WORD_LIMIT
    ensures var r := Overwrite(a, NODE_HEADER, BE(v));
            ValueIndex(r, 0) == v && r[..FORWARD] == a[..FORWARD] && r[FORWARD..NODE_HEADER] == a[FORWARD..NODE_HEADER]
  {
    hide BE, U32;
    var r := Overwrite(a, NODE_HEADER, BE(v));
    assert r[NODE_HEADER..NODE_HEADER + 4] == BE(v);
    WordIn(r, NODE_HEADER, v);
  }

  /** Entries, forward link and backward link together. */
  lemma LeafCloned(s: Store, m: map<nat, nat>, m': map<nat, nat>, a: seq<byte>, entries: seq<byte>, b: seq<byte>)
    requires WellFormed(s) && IsNode(a) && !IsRedirect(a) && |a| == |entries| == |b| && Larger(m, m')
    requires forall i :: 0 <= i < EntryCount(a) ==> EntryCloned(s, m, a, entries, i)
    requires b[..FORWARD] == a[..FORWARD]
    requires if U32(a, FORWARD) == 0 then U32(b, FORWARD) == 0 else LinkCloned(s, m', U32(a, FORWARD), U32(b, FORWARD))
    requires forall j :: 0 <= j && NODE_HEADER + 8 * (j + 1) <= |b| ==>
               ValueIndex(b, j) == ValueIndex(entries, j) && KeyIndex(b, j) == KeyIndex(entries, j)
    ensures NodeCloned(s, m', a, b)
  {
    hide Image, U32, U16, KeyIndex, ValueIndex, BlockBytes, SlotsOk, LinkCloned, EntryCloned;
    EntriesClonedLater(s, m, m', a, entries, b, EntryCount(a));
  }

  /** Filling a block added meanwhile. */
  lemma PatchedExtends(d0: Store, d: Store, i: nat, b: seq<byte>)
    requires WellFormed(d0) && WellFormed(d) && Extends(d0, d) && |d0.slots| <= i < |d.slots| && d.slots[i].Block?
    requires |b| <= d.slots[i].length
    requires WellFormed(Patched(d, i, 0, b))
    ensures Extends(d0, Patched(d, i, 0, b))
  {
    hide Image;
    PatchedKeeps(d, i, 0, b);
  }

  /** Filling the block of x changes no other backward link, and sets that of x. */
  lemma PatchedBack(s: Store, d: Store, nodes: set<nat>, m: map<nat, nat>, finished: set<nat>, root: nat, x: nat,
      b: seq<byte>)
    requires Cloning(s, d, nodes, m, finished, root) && x in m && NodeIndex(s, x)
    requires m[x] < |d.slots| && d.slots[m[x]].Block? && |b| == d.slots[m[x]].length &&
        d.slots[m[x]].offset + |b| <= |d.data|
    requires WellFormed(Patched(d, m[x], 0, b)) && |b| >= NODE_HEADER
    ensures var d' := Patched(d, m[x], 0, b);
            && (forall z :: z != x && BackMapped(s, d, m, z) ==> BackMapped(s, d', m, z))
            && (U32(b, BACKWARD) == BackOf(m, U32(BlockBytes(s, x), BACKWARD)) || IsRedirect(BlockBytes(s, x)) ==> BackMapped(s, d', m, x))
  {
    hide Image, U32, SlotsOk;
    InData(d);
    PatchedKeeps(d, m[x], 0, b);
    assert Overwrite(BlockBytes(d, m[x]), 0, b) == b;
  }

  /** Indexes of the copy fit a word. */
  lemma IndexIsWord(s: Store, d: Store, nodes: set<nat>, m: map<nat, nat>, finished: set<nat>, root: nat, x: nat)
    requires Cloning(s, d, nodes, m, finished, root) && x in m
    ensures m[x] < |d.slots| && m[x] < WORD_LIMIT && x < |s.slots| && (x != root ==> m[x] > 0)
    ensures x in nodes ==> NodeIndex(s, x)
  {
    hide Image;
    assert Placed(s, d, m, x, root);
    SlotsAreFew(d);
  }

  // ----- iteration over the copy

  /** A chain of leaves; it ends where iteration ends. */
  ghost predicate LeafChain(s: Store, chain: seq<nat>)
    requires WellFormed(s)
  {
    && ChainOk(s, chain) && !IsRedirect(BlockBytes(s, chain[0]))
    && (|chain| > 1 ==> LeafChain(s, chain[1..]))
  }

  /** The forward link of the last leaf. */
  ghost function LastLink(s: Store, chain: seq<nat>): nat
    requires WellFormed(s)
  {
    if |chain| > 0 && NodeIndex(s, chain[|chain| - 1]) then U32(BlockBytes(s, chain[|chain| - 1]), FORWARD) else 0
  }

  /** Iteration ends at a leaf with this forward link. */
  predicate Ends(s: Store, f: nat) {
    f == 0 || f >= |s.slots|
  }

  lemma {:induction false} ChainEnds(s: Store, chain: seq<nat>)
    requires WellFormed(s) && ChainOk(s, chain)
    ensures |chain| > 0 && NodeIndex(s, chain[|chain| - 1]) && Ends(s, LastLink(s, chain))
  {
    hide Image, U32, U16, BlockBytes;
    if |chain| > 1 {
      ChainEnds(s, chain[1..]);
    }
  }

  /** Where a key or a value resolved in the source, the copy shows the same bytes. */
  ghost predicate ItemCloned(a: Item, b: Item) {
    (a.key.Some? ==> b.key == a.key) && (a.value.Some? ==> b.value == a.value)
  }

  ghost predicate ItemsCloned(a: seq<Item>, b: seq<Item>) {
    |a| == |b| && forall i :: 0 <= i < |a| ==> ItemCloned(a[i], b[i])
  }

  function Mapped(m: map<nat, nat>, chain: seq<nat>): (r: seq<nat>)
    requires forall i :: 0 <= i < |chain| ==> chain[i] in m
    ensures |r| == |chain|
  {
    seq(|chain|, i requires 0 <= i < |chain| => m[chain[i]])
  }

  /** A finite chain is determined by its first leaf. */
  lemma {:induction false} SameChain(s: Store, a: seq<nat>, b: seq<nat>)
    requires WellFormed(s) && ChainOk(s, a) && ChainOk(s, b) && a[0] == b[0]
    ensures |a| == |b|
  {
    hide Image, U32, BlockBytes;
    if |a| > 1 && |b| > 1 {
      SameChain(s, a[1..], b[1..]);
    }
  }

  lemma {:induction false} ChainSuffix(s: Store, chain: seq<nat>, j: nat)
    requires WellFormed(s) && LeafChain(s, chain) && j < |chain|
    ensures ChainOk(s, chain[j..]) && !IsRedirect(BlockBytes(s, chain[j])) && chain[j] < |s.slots|
  {
    hide Image, U32, U16, BlockBytes;
    if j > 0 {
      ChainSuffix(s, chain[1..], j - 1);
      assert chain[1..][j - 1..] == chain[j..];
    } else {
      assert chain[0..] == chain;
    }
  }

  /** A finite chain never comes back to its first leaf. */
  lemma NeverBack(s: Store, chain: seq<nat>, j: nat)
    requires WellFormed(s) && LeafChain(s, chain) && 0 < j < |chain|
    ensures chain[j] != chain[0]
  {
    hide Image, ChainOk, BlockBytes;
    ChainSuffix(s, chain, j);
    ChainSuffix(s, chain, 0);
    assert chain[0..] == chain;
    if chain[j] == chain[0] {
      SameChain(s, chain, chain[j..]);
    }
  }

  /** Everything the walk memoised among the nodes is finished. */
  ghost predicate Complete(nodes: set<nat>, m: map<nat, nat>, finished: set<nat>) {
    forall z :: z in m && z in nodes ==> z in finished
  }

  /** The fields of a finished leaf show the same bytes. */
  lemma LeafItemsCloned(s: Store, d: Store, nodes: set<nat>, m: map<nat, nat>, finished: set<nat>, root: nat, x: nat)
    requires Cloning(s, d, nodes, m, finished, root) && NodesClosed(s, nodes) && x in finished
    requires NodeIndex(s, x) && NodeFits(BlockBytes(s, x)) && !IsRedirect(BlockBytes(s, x))
    ensures x in m && m[x] < |d.slots| && NodeFits(BlockBytes(d, m[x])) && !IsRedirect(BlockBytes(d, m[x]))
    ensures ItemsCloned(LeafItems(s, BlockBytes(s, x)), LeafItems(d, BlockBytes(d, m[x])))
  {
    hide Image, U32, KeyIndex, ValueIndex, SlotsOk, BlockBytes;
    InData(s);
    InData(d);
    assert Finished(s, d, nodes, m, x);
    var a, b := BlockBytes(s, x), BlockBytes(d, m[x]);
    assert NodeClosed(s, nodes, a);
    assert a[COUNT] == a[..FORWARD][COUNT] == b[COUNT] && a[COUNT + 1] == a[..FORWARD][COUNT + 1] == b[COUNT + 1];
    assert a[0] == a[..FORWARD][0] == b[0] && a[1] == a[..FORWARD][1] == b[1];
    var p, q := LeafItems(s, a), LeafItems(d, b);
    forall i | 0 <= i < |p|
      ensures ItemCloned(p[i], q[i])
    {
      assert EntryCloned(s, m, a, b, i);
      assert Payload(s, nodes, ValueIndex(a, i)) && Payload(s, nodes, KeyIndex(a, i));
      FieldResolves(s, d, nodes, m, finished, root, ValueIndex(a, i), ValueIndex(b, i));
      FieldResolves(s, d, nodes, m, finished, root, KeyIndex(a, i), KeyIndex(b, i));
    }
  }

  lemma FieldResolves(s: Store, d: Store, nodes: set<nat>, m: map<nat, nat>, finished: set<nat>, root: nat, v: nat,
      w: nat)
    requires Cloning(s, d, nodes, m, finished, root) && Payload(s, nodes, v) && FieldCloned(s, m, v, w)
    ensures Resolve(s, v).Some? ==> Resolve(d, w) == Resolve(s, v)
  {
    hide Image;
    if v < |s.slots| {
      assert Placed(s, d, m, v, root);
    }
  }

  /** A leaf in front of a chain. */
  lemma ConsChain(s: Store, x: nat, rest: seq<nat>)
    requires WellFormed(s) && x < |s.slots| && NodeFits(BlockBytes(s, x)) && !IsRedirect(BlockBytes(s, x))
    requires rest != [] ==> LeafChain(s, rest) && U32(BlockBytes(s, x), FORWARD) == rest[0] && rest[0] != 0
    requires rest == [] ==> Ends(s, U32(BlockBytes(s, x), FORWARD))
    ensures LeafChain(s, [x] + rest)
    ensures ChainItems(s, [x] + rest) == LeafItems(s, BlockBytes(s, x)) + (if rest == [] then [] else ChainItems(s, rest))
  {
    hide Image, U32, U16, BlockBytes, LeafItems, SlotsOk;
    assert ([x] + rest)[1..] == rest;
  }

  lemma ItemsClonedConcat(a: seq<Item>, b: seq<Item>, c: seq<Item>, d: seq<Item>)
    requires ItemsCloned(a, b) && ItemsCloned(c, d)
    ensures ItemsCloned(a + c, b + d)
  {
  }

  /** The copies of the leaves of a chain are a chain, and show the same items. */
  lemma {:induction false} ChainCloned(s: Store, d: Store, nodes: set<nat>, m: map<nat, nat>, finished: set<nat>,
      root: nat, chain: seq<nat>)
    requires Cloning(s, d, nodes, m, finished, root) && NodesClosed(s, nodes) && Complete(nodes, m, finished)
    requires LeafChain(s, chain) && chain[0] in nodes && chain[0] in m
    requires (forall j :: 0 < j < |chain| ==> chain[j] != root) && Ends(d, LastLink(s, chain))
    ensures forall i :: 0 <= i < |chain| ==> chain[i] in m
    ensures LeafChain(d, Mapped(m, chain)) && ItemsCloned(ChainItems(s, chain), ChainItems(d, Mapped(m, chain)))
  {
    hide Image, U32, U16, BlockBytes, NodeCloned, SlotsOk, LeafItems, ItemsCloned, NodesClosed, Cloning, ChainItems;
    var x, rest := chain[0], chain[1..];
    CloningStores(s, d, nodes, m, finished, root);
    FirstOfChain(s, chain);
    NodeIsClosed(s, nodes, x);
    LeafItemsCloned(s, d, nodes, m, finished, root, x);
    ForwardCloned(s, d, nodes, m, finished, root, x);
    if rest == [] {
      ConsChain(d, m[x], []);
      assert Mapped(m, chain) == [m[x]] + [];
      ItemsClonedConcat(LeafItems(s, BlockBytes(s, x)), LeafItems(d, BlockBytes(d, m[x])), [], []) by { NoItems(); }
    } else {
      IndexIsWord(s, d, nodes, m, finished, root, rest[0]);
      ChainCloned(s, d, nodes, m, finished, root, rest);
      assert chain == [x] + rest;
      assert Mapped(m, chain) == [m[x]] + Mapped(m, rest);
      ConsChain(d, m[x], Mapped(m, rest));
      ItemsClonedConcat(LeafItems(s, BlockBytes(s, x)), LeafItems(d, BlockBytes(d, m[x])), ChainItems(s, rest),
          ChainItems(d, Mapped(m, rest)));
    }
  }

  lemma CloningStores(s: Store, d: Store, nodes: set<nat>, m: map<nat, nat>, finished: set<nat>, root: nat)
    requires Cloning(s, d, nodes, m, finished, root)
    ensures WellFormed(s) && WellFormed(d) && SlotsOk(s.slots, |s.data|) && SlotsOk(d.slots, |d.data|)
    ensures forall i :: 0 <= i < |s.slots| && s.slots[i].Block? ==> s.slots[i].offset + s.slots[i].length <= |s.data|
    ensures forall i :: 0 <= i < |d.slots| && d.slots[i].Block? ==> d.slots[i].offset + d.slots[i].length <= |d.data|
  {
  }

  lemma NoItems()
    ensures ItemsCloned([], [])
  {
  }

  /** The leaves of a chain are finished, and the last one still ends it with the same number. */
  lemma {:induction false} ChainMemoised(s: Store, d: Store, nodes: set<nat>, m: map<nat, nat>, finished: set<nat>,
      root: nat, chain: seq<nat>)
    requires Cloning(s, d, nodes, m, finished, root) && NodesClosed(s, nodes) && Complete(nodes, m, finished)
    requires LeafChain(s, chain) && chain[0] in nodes && chain[0] in m
    ensures forall i :: 0 <= i < |chain| ==> chain[i] in m && m[chain[i]] < |d.slots|
    ensures LastLink(d, Mapped(m, chain)) == LastLink(s, chain)
  {
    hide Image, U32, U16, BlockBytes, NodeCloned, SlotsOk, NodesClosed, Cloning, ChainItems, LeafItems, ChainOk,
      IsRedirect;
    CloningStores(s, d, nodes, m, finished, root);
    FirstOfChain(s, chain);
    var x, rest := chain[0], chain[1..];
    hide LeafChain;
    ForwardCloned(s, d, nodes, m, finished, root, x);
    if rest == [] {
      assert Mapped(m, chain) == [m[x]];
    } else {
      ChainMemoised(s, d, nodes, m, finished, root, rest);
      assert forall i :: 0 < i < |chain| ==> chain[i] == rest[i - 1];
      assert Mapped(m, chain) == [m[x]] + Mapped(m, rest);
    }
  }

  /** The first leaf of a chain, and what follows it. */
  lemma FirstOfChain(s: Store, chain: seq<nat>)
    requires WellFormed(s) && LeafChain(s, chain)
    ensures |chain| > 0 && NodeIndex(s, chain[0]) && NodeFits(BlockBytes(s, chain[0]))
    ensures !IsRedirect(BlockBytes(s, chain[0]))
    ensures var rest, f := chain[1..], U32(BlockBytes(s, chain[0]), FORWARD);
            && (rest == [] ==> Ends(s, f) && f == LastLink(s, chain) && ChainItems(s, chain) == LeafItems(s, BlockBytes(s, chain[0])) + [])
            && (rest != [] ==> f != 0 && f == rest[0] && LeafChain(s, rest) && NodeIndex(s, rest[0])
                               && LastLink(s, chain) == LastLink(s, rest)
                               && ChainItems(s, chain) == LeafItems(s, BlockBytes(s, chain[0])) + ChainItems(s, rest))
  {
    hide Image, U32, U16, BlockBytes, LeafItems, SlotsOk;
  }

  /** The forward link of a finished leaf. */
  lemma ForwardCloned(s: Store, d: Store, nodes: set<nat>, m: map<nat, nat>, finished: set<nat>, root: nat, x: nat)
    requires Cloning(s, d, nodes, m, finished, root) && x in finished && NodeIndex(s, x)
    requires !IsRedirect(BlockBytes(s, x))
    requires NodesClosed(s, nodes)
    ensures x in m && m[x] < |d.slots| && IsNode(BlockBytes(d, m[x]))
    ensures var f, g := U32(BlockBytes(s, x), FORWARD), U32(BlockBytes(d, m[x]), FORWARD);
            && (if f == 0 then g == 0 else f in nodes && LinkCloned(s, m, f, g)) && (Ends(s, f) ==> g == f)
  {
    hide Image, U32, U16, BlockBytes, SlotsOk;
    InData(s);
    InData(d);
    assert Finished(s, d, nodes, m, x);
    NodeIsClosed(s, nodes, x);
  }

  // ----- the copy of a tree

  /** Blocks were only added. */
  ghost predicate BlocksKept(d: Store, d': Store)
    requires WellFormed(d) && WellFormed(d')
  {
    |d.slots| <= |d'.slots| && forall j :: 0 <= j < |d.slots| ==> BlockBytes(d', j) == BlockBytes(d, j)
  }

  /** A chain stays as it is if its last link still ends it, and what resolves in it shows the same bytes. */
  lemma {:induction false} ChainKept(d: Store, d': Store, chain: seq<nat>)
    requires WellFormed(d) && WellFormed(d') && BlocksKept(d, d') && LeafChain(d, chain) && Ends(d', LastLink(d, chain))
    ensures LeafChain(d', chain) && ItemsCloned(ChainItems(d, chain), ChainItems(d', chain))
  {
    hide Image, U32, U16, BlockBytes, SlotsOk, LeafItems, ItemsCloned, ChainItems;
    InData(d);
    InData(d');
    var x, rest := chain[0], chain[1..];
    FirstOfChain(d, chain);
    LeafItemsKept(d, d', BlockBytes(d, x));
    if rest == [] {
      ConsChain(d', x, []);
      assert chain == [x] + [];
      NoItems();
      ItemsClonedConcat(LeafItems(d, BlockBytes(d, x)), LeafItems(d', BlockBytes(d', x)), [], []);
    } else {
      ChainKept(d, d', rest);
      assert chain == [x] + rest;
      ConsChain(d', x, rest);
      ItemsClonedConcat(LeafItems(d, BlockBytes(d, x)), LeafItems(d', BlockBytes(d', x)), ChainItems(d, rest),
          ChainItems(d', rest));
    }
  }

  lemma LeafItemsKept(d: Store, d': Store, b: seq<byte>)
    requires WellFormed(d) && WellFormed(d') && BlocksKept(d, d') && NodeFits(b)
    ensures ItemsCloned(LeafItems(d, b), LeafItems(d', b))
  {
    hide Image, U32, BlockBytes, SlotsOk;
    InData(d);
    InData(d');
  }

  lemma ItemsClonedTwice(a: seq<Item>, b: seq<Item>, c: seq<Item>)
    requires ItemsCloned(a, b) && ItemsCloned(b, c)
    ensures ItemsCloned(a, c)
  {
    forall i | 0 <= i < |a|
      ensures ItemCloned(a[i], c[i])
    {
      assert ItemCloned(a[i], b[i]) && ItemCloned(b[i], c[i]);
    }
  }

  /** The root of the walk leads to the copy of the first leaf. */
  lemma RootCloned(s: Store, d: Store, nodes: set<nat>, m: map<nat, nat>, finished: set<nat>, root: nat,
      chain: seq<nat>)
    requires Cloning(s, d, nodes, m, finished, root) && NodesClosed(s, nodes) && Complete(nodes, m, finished)
    requires LeafChain(s, chain)
    requires root in nodes && root in m && NodeIndex(s, root)
    requires var b := BlockBytes(s, root);
             if IsRedirect(b) then |b| >= NODE_HEADER + 8 && ValueIndex(b, 0) == chain[0] else root == chain[0]
    ensures chain[0] in m && chain[0] in nodes && m[root] < |d.slots| && IsNode(BlockBytes(d, m[root]))
    ensures var b := BlockBytes(d, m[root]);
            IsRedirect(b) == IsRedirect(BlockBytes(s, root))
            && if IsRedirect(b) then |b| >= NODE_HEADER + 8 && ValueIndex(b, 0) == m[chain[0]] else m[root] == m[chain[0]]
    ensures forall j :: 0 < j < |chain| ==> chain[j] != root
  {
    hide Image, U32, KeyIndex, ValueIndex, SlotsOk, BlockBytes, Cloning;
    CloningStores(s, d, nodes, m, finished, root);
    FirstOfChain(s, chain);
    NodeIsClosed(s, nodes, root);
    FinishedAt(s, d, nodes, m, finished, root, root);
    var a, b := BlockBytes(s, root), BlockBytes(d, m[root]);
    assert a[0] == a[..FORWARD][0] == b[0] && a[1] == a[..FORWARD][1] == b[1];
    forall j | 0 < j < |chain|
      ensures chain[j] != root
    {
      ChainSuffix(s, chain, j);
      if !IsRedirect(a) {
        NeverBack(s, chain, j);
      }
    }
  }

  lemma FinishedAt(s: Store, d: Store, nodes: set<nat>, m: map<nat, nat>, finished: set<nat>, root: nat, x: nat)
    requires Cloning(s, d, nodes, m, finished, root) && x in finished
    ensures Finished(s, d, nodes, m, x)
  {
    hide Image;
  }

  /**
   * A clone preserves meaning: the copied header leads to the copies of the leaves, in order, and iterating over them
   * shows, for every key and value that resolved in the source, the same bytes. A last link that resolves to nothing
   * is carried through, so this holds exactly if it resolves to nothing in the copy either.
   */
  lemma CloneIteratesAlike(s: Store, d1: Store, nodes: set<nat>, m: map<nat, nat>, finished: set<nat>, root: nat,
                           t: nat, name: seq<byte>, t': nat, d: Store, chain: seq<nat>)
    requires Cloning(s, d1, nodes, m, finished, root) && NodesClosed(s, nodes) && Complete(nodes, m, finished)
    requires TreeLeadsTo(s, t, chain) && LeafChain(s, chain) && IsTreeHeader(s, t, nodes, root)
    requires HeaderCloned(s, d1, m, t, name, t', d)
    ensures forall i :: 0 <= i < |chain| ==> chain[i] in m
    ensures WellFormed(d) && (TreeLeadsTo(d, t', Mapped(m, chain)) <==> Ends(d, LastLink(s, chain)))
    ensures TreeLeadsTo(d, t', Mapped(m, chain)) ==> ItemsCloned(ChainItems(s, chain), ChainItems(d, Mapped(m, chain)))
  {
    hide Image, U32, KeyIndex, ValueIndex, SlotsOk, BlockBytes, Cloning, LeafChain, ChainOk, ChainItems, ItemsCloned,
      NodesClosed, Added;
    hide HeaderCloned, NodeIndex, BlocksKept, LinkCloned, IsRedirect, TreeLeadsTo, IsTreeHeader, HeaderCopied,
      Complete, LastLink;
    CloningStores(s, d1, nodes, m, finished, root);
    HeaderKept(s, d1, m, t, name, t', d);
    InData(d);
    RootMemoised(s, m, nodes, root, t, U32(BlockBytes(d, t'), CHILD), chain);
    LeavesMemoised(s, d1, nodes, m, finished, root, t, chain);
    MoreSlots(d1, d);
    var copy := Mapped(m, chain);
    if Ends(d, LastLink(s, chain)) {
      ClonedChain(s, d1, nodes, m, finished, root, t, chain);
      ChainKept(d1, d, copy);
      ChainOfLeaves(d, copy);
      ItemsClonedTwice(ChainItems(s, chain), ChainItems(d1, copy), ChainItems(d, copy));
      HeaderLeads(d1, d, m, root, t', chain);
    }
    if TreeLeadsTo(d, t', copy) {
      ChainLed(d, t', copy);
      ChainEnds(d, copy);
      LastLinkKept(d1, d, copy);
    }
  }

  lemma MoreSlots(d: Store, d': Store)
    requires WellFormed(d) && WellFormed(d') && BlocksKept(d, d')
    ensures forall f: nat :: Ends(d', f) ==> Ends(d, f)
  {
    hide Image, BlockBytes;
  }

  lemma ChainLed(s: Store, t: nat, chain: seq<nat>)
    requires TreeLeadsTo(s, t, chain)
    ensures WellFormed(s) && ChainOk(s, chain)
  {
    hide Image, U32, BlockBytes;
  }

  lemma LastLinkKept(d: Store, d': Store, chain: seq<nat>)
    requires WellFormed(d) && WellFormed(d') && BlocksKept(d, d') && forall i :: 0 <= i < |chain| ==>
        chain[i] < |d.slots|
    ensures LastLink(d', chain) == LastLink(d, chain)
  {
    hide Image, U32, BlockBytes;
  }

  /** The child of the header leads to the first leaf, in the copy too. */
  ghost predicate HeaderCopied(d: Store, m: map<nat, nat>, root: nat, first: nat)
    requires WellFormed(d)
  {
    && first in m && root in m && m[root] < |d.slots| && IsNode(BlockBytes(d, m[root]))
    && var b := BlockBytes(d, m[root]);
       if IsRedirect(b) then |b| >= NODE_HEADER + 8 && ValueIndex(b, 0) == m[first] else m[root] == m[first]
  }

  lemma RootMemoised(s: Store, m: map<nat, nat>, nodes: set<nat>, root: nat, t: nat, child: nat, chain: seq<nat>)
    requires WellFormed(s) && TreeLeadsTo(s, t, chain) && IsTreeHeader(s, t, nodes, root)
    requires t < |s.slots| && |BlockBytes(s, t)| >= TREE_SIZE && LinkCloned(s, m, U32(BlockBytes(s, t), CHILD), child)
    ensures root in m && child == m[root] && root in nodes && NodeIndex(s, root)
  {
    hide Image, U32, KeyIndex, ValueIndex, SlotsOk, BlockBytes, ChainOk;
  }

  /** The walk from the child of the header has come to all leaves. */
  lemma LeavesMemoised(s: Store, d: Store, nodes: set<nat>, m: map<nat, nat>, finished: set<nat>, root: nat, t: nat,
      chain: seq<nat>)
    requires Cloning(s, d, nodes, m, finished, root) && NodesClosed(s, nodes) && Complete(nodes, m, finished)
    requires TreeLeadsTo(s, t, chain) && LeafChain(s, chain) && IsTreeHeader(s, t, nodes, root)
    requires root in m && root in nodes && NodeIndex(s, root)
    ensures |chain| > 0 && forall i :: 0 <= i < |chain| ==> chain[i] in m && m[chain[i]] < |d.slots|
    ensures LastLink(d, Mapped(m, chain)) == LastLink(s, chain) && chain[0] in nodes
    ensures HeaderCopied(d, m, root, chain[0]) && forall j :: 0 < j < |chain| ==> chain[j] != root
  {
    hide Image, U32, KeyIndex, ValueIndex, SlotsOk, BlockBytes, Cloning, LeafChain, ChainOk, NodesClosed, LastLink;
    CloningStores(s, d, nodes, m, finished, root);
    ChainOfLeaves(s, chain);
    RootCloned(s, d, nodes, m, finished, root, chain);
    ChainMemoised(s, d, nodes, m, finished, root, chain);
  }

  /** They were copied in order. */
  lemma ClonedChain(s: Store, d: Store, nodes: set<nat>, m: map<nat, nat>, finished: set<nat>, root: nat, t: nat,
      chain: seq<nat>)
    requires Cloning(s, d, nodes, m, finished, root) && NodesClosed(s, nodes) && Complete(nodes, m, finished)
    requires TreeLeadsTo(s, t, chain) && LeafChain(s, chain) && IsTreeHeader(s, t, nodes, root)
    requires root in m && root in nodes && NodeIndex(s, root) && Ends(d, LastLink(s, chain))
    ensures forall i :: 0 <= i < |chain| ==> chain[i] in m
    ensures var copy := Mapped(m, chain);
            && LeafChain(d, copy) && ChainOk(d, copy) && ChainOk(s, chain) && |chain| > 0
            && ItemsCloned(ChainItems(s, chain), ChainItems(d, copy))
  {
    hide Image, U32, KeyIndex, ValueIndex, SlotsOk, BlockBytes, Cloning, LeafChain, ChainOk, ChainItems, ItemsCloned,
      NodesClosed, LastLink;
    CloningStores(s, d, nodes, m, finished, root);
    ChainOfLeaves(s, chain);
    RootCloned(s, d, nodes, m, finished, root, chain);
    ChainCloned(s, d, nodes, m, finished, root, chain);
    ChainOfLeaves(d, Mapped(m, chain));
  }

  lemma HeaderLeads(d1: Store, d: Store, m: map<nat, nat>, root: nat, t': nat, chain: seq<nat>)
    requires WellFormed(d1) && WellFormed(d) && BlocksKept(d1, d) && |chain| > 0 && HeaderCopied(d1, m, root, chain[0])
    requires forall i :: 0 <= i < |chain| ==> chain[i] in m
    requires ChainOk(d, Mapped(m, chain)) && t' < |d.slots| && |BlockBytes(d, t')| >= TREE_SIZE
    requires U32(BlockBytes(d, t'), CHILD) == m[root]
    ensures TreeLeadsTo(d, t', Mapped(m, chain))
  {
    hide Image, U32, KeyIndex, ValueIndex, SlotsOk, BlockBytes, ChainOk;
  }

  lemma ChainOfLeaves(s: Store, chain: seq<nat>)
    requires WellFormed(s) && LeafChain(s, chain)
    ensures ChainOk(s, chain) && |chain| > 0
  {
    hide Image, U32, BlockBytes;
  }

  /** The copied header holds the index of the copied child; all other blocks are as they were. */
  lemma HeaderKept(s: Store, d1: Store, m: map<nat, nat>, t: nat, name: seq<byte>, t': nat, d: Store)
    requires WellFormed(s) && WellFormed(d1) && HeaderCloned(s, d1, m, t, name, t', d)
    ensures WellFormed(d) && BlocksKept(d1, d) && |d.slots| == |d1.slots| + 1 && t' < |d.slots|
    ensures |BlockBytes(d, t')| >= TREE_SIZE
    ensures t < |s.slots| && |BlockBytes(s, t)| >= TREE_SIZE
    ensures LinkCloned(s, m, U32(BlockBytes(s, t), CHILD), U32(BlockBytes(d, t'), CHILD))
  {
    hide Image, U32, LinkCloned, BE, StoredVar;
    var child: nat, unused :|
      && child < WORD_LIMIT && LinkCloned(s, m, U32(BlockBytes(s, t), CHILD), child)
      && d == VarAdded(Added(d1, Overwrite(BlockBytes(s, t), CHILD, BE(child))), StoredVar(name, t'), unused);
    var header := Overwrite(BlockBytes(s, t), CHILD, BE(child));
    AddedKeeps(d1, header);
    SameBlocks(Added(d1, header), d);
    WordIn(header, CHILD, child);
  }

  /** The first leaf links back to nothing, and every other one to the leaf in front of it. */
  ghost predicate LinkedBack(s: Store, chain: seq<nat>)
    requires WellFormed(s)
  {
    forall i :: 0 <= i < |chain| ==>
      chain[i] < |s.slots| && IsNode(BlockBytes(s, chain[i]))
      && U32(BlockBytes(s, chain[i]), BACKWARD) == (if i == 0 then 0 else chain[i - 1])
  }

  /** The leaves of a chain are nodes of the walk. */
  lemma {:induction false} ChainInNodes(s: Store, nodes: set<nat>, chain: seq<nat>)
    requires WellFormed(s) && NodesClosed(s, nodes) && LeafChain(s, chain) && chain[0] in nodes
    ensures forall i :: 0 <= i < |chain| ==>
        chain[i] in nodes && NodeIndex(s, chain[i]) && !IsRedirect(BlockBytes(s, chain[i]))
    ensures forall i :: 0 < i < |chain| ==> chain[i] != 0
  {
    hide Image, U32, U16, BlockBytes, LeafItems, ChainItems, SlotsOk, NodesClosed;
    FirstOfChain(s, chain);
    NodeIsClosed(s, nodes, chain[0]);
    if |chain| > 1 {
      ChainInNodes(s, nodes, chain[1..]);
      assert forall i :: 0 < i < |chain| ==> chain[i] == chain[1..][i - 1];
    }
  }

  /**
   * 0 stands for no link, so a leaf with index 0 cannot be linked to: it must be the first block of an empty copy, or
   * the only leaf.
   */
  predicate Linkable(root: nat, first: nat, chain: seq<nat>)
    requires |chain| > 0
  {
    chain[0] != 0 || |chain| == 1 || (root == chain[0] && first == 0)
  }

  /** A doubly linked chain is copied to a doubly linked chain, exactly if its first leaf can be linked to. */
  lemma BackwardsCloned(s: Store, d: Store, nodes: set<nat>, m: map<nat, nat>, root: nat, first: nat, chain: seq<nat>)
    requires WellFormed(s) && WellFormed(d) && NodesClosed(s, nodes) && BacksMapped(s, d, nodes, m)
    requires LeafChain(s, chain) && chain[0] in nodes && LinkedBack(s, chain)
    requires forall i :: 0 <= i < |chain| ==> chain[i] in m
    requires if chain[0] == root then m[root] == first else m[chain[0]] > 0
    ensures forall i :: 0 <= i < |chain| ==> m[chain[i]] < |d.slots|
    ensures LinkedBack(d, Mapped(m, chain)) <==> Linkable(root, first, chain)
  {
    hide Image, U32, U16, BlockBytes, SlotsOk, NodesClosed, LeafChain;
    ChainInNodes(s, nodes, chain);
    ChainOfLeaves(s, chain);
    InData(s);
    InData(d);
    var copy := Mapped(m, chain);
    forall i | 0 <= i < |chain|
      ensures m[chain[i]] < |d.slots| && copy[i] == m[chain[i]] && IsNode(BlockBytes(d, copy[i]))
      ensures U32(BlockBytes(d, copy[i]), BACKWARD) == (if i == 0 then 0 else BackOf(m, chain[i - 1]))
    {
      assert BackMapped(s, d, m, chain[i]);
      assert U32(BlockBytes(s, chain[i]), BACKWARD) == (if i == 0 then 0 else chain[i - 1]);
    }
    if LinkedBack(d, copy) && |chain| > 1 {
      assert U32(BlockBytes(d, copy[1]), BACKWARD) == copy[0];
    }
  }

  lemma LinkedBackKept(d: Store, d': Store, chain: seq<nat>)
    requires WellFormed(d) && WellFormed(d') && BlocksKept(d, d') && forall i :: 0 <= i < |chain| ==>
        chain[i] < |d.slots|
    ensures LinkedBack(d', chain) == LinkedBack(d, chain)
  {
    hide Image, U32, BlockBytes;
  }

  /**
   * In the finished copy too, header included, the backward links of a doubly linked chain are those of the copied
   * chain, exactly if the first leaf can be linked to; first is the number of blocks the copy had before.
   */
  lemma CloneLinksBackAlike(s: Store, d1: Store, nodes: set<nat>, m: map<nat, nat>, finished: set<nat>, root: nat,
                            first: nat, t: nat, name: seq<byte>, t': nat, d: Store, chain: seq<nat>)
    requires Cloning(s, d1, nodes, m, finished, root) && NodesClosed(s, nodes) && Complete(nodes, m, finished)
    requires BacksMapped(s, d1, nodes, m) && (root in m ==> m[root] == first)
    requires TreeLeadsTo(s, t, chain) && LeafChain(s, chain) && IsTreeHeader(s, t, nodes, root)
    requires LinkedBack(s, chain) && HeaderCloned(s, d1, m, t, name, t', d)
    ensures |chain| > 0 && forall i :: 0 <= i < |chain| ==> chain[i] in m
    ensures WellFormed(d) && (LinkedBack(d, Mapped(m, chain)) <==> Linkable(root, first, chain))
  {
    hide Image, U32, KeyIndex, ValueIndex, SlotsOk, BlockBytes, Cloning, LeafChain, ChainOk, ChainItems, ItemsCloned,
      NodesClosed, Added;
    hide HeaderCloned, BlocksKept, LinkCloned, TreeLeadsTo, IsTreeHeader, Complete, LinkedBack, BacksMapped, Linkable,
      LastLink, HeaderCopied;
    CloningStores(s, d1, nodes, m, finished, root);
    HeaderKept(s, d1, m, t, name, t', d);
    InData(d);
    RootMemoised(s, m, nodes, root, t, U32(BlockBytes(d, t'), CHILD), chain);
    LeavesMemoised(s, d1, nodes, m, finished, root, t, chain);
    IndexIsWord(s, d1, nodes, m, finished, root, chain[0]);
    BackwardsCloned(s, d1, nodes, m, root, first, chain);
    LinkedBackKept(d1, d, Mapped(m, chain));
  }

  /** The copied tree is found under its name. */
  lemma CopyFound(s: Store, d0: Store, d1: Store, m: map<nat, nat>, t: nat, name: seq<byte>, t': nat, d: Store)
    requires WellFormed(s) && WellFormed(d0) && WellFormed(d1) && Extends(d0, d1)
    requires HeaderCloned(s, d1, m, t, name, t', d)
    requires !HasName(d0.vars, name) && CString(name) == name && |name| < 256
    ensures WellFormed(d) && Lookup(d.vars, name) == t'
  {
    hide Image, U32, LinkCloned, BE, StoredVar, Lookup, HasName, CString, BlockBytes, SlotsOk;
    SlotsAreFew(d1);
    StoredExactly(name, t');
    NewName(d0.vars, name, t');
  }

  /** The memo that is exact has one entry for each block reached. */
  lemma CopiesCounted(s: Store, m: map<nat, nat>, root: nat)
    requires WellFormed(s) && ExactlyReached(s, m, root)
    ensures |m| == |Copies(s, root)|
  {
    hide Image, BlockBytes, Reached;
    forall x | x in m
      ensures x in Copies(s, root)
    {
      ReachedIsSlot(s, root, x);
    }
    assert m.Keys == Copies(s, root);
    assert |m| == |m.Keys|;
  }

  /**
   * Clones the tree a variable names into another store. The copy has a block for every block that the walk reaches,
   * and one for the header; its leaves are the copies of the leaves, in order, exactly if the last link resolves to
   * nothing in it, and then they show the same items. Backward links are copied to backward links exactly if the
   * first leaf can be linked to.
   */
  method CloneTree(source: Context, dest: Context, name: seq<byte>, ghost s: Store, ghost d: Store,
      ghost nodes: set<nat>, ghost root: nat, ghost limit: nat, ghost chain: seq<nat>)
    returns (ghost m: map<nat, nat>, ghost d': Store)
    requires source != dest && source.Holds(s) && dest.Holds(d) && NodesClosed(s, nodes)
    requires Lookup(s.vars, name) >= 0 && TreeLeadsTo(s, Lookup(s.vars, name), chain) && LeafChain(s, chain)
    requires IsTreeHeader(s, Lookup(s.vars, name), nodes, root)
    requires !HasName(d.vars, name) && CString(name) == name && |name| < 256
    requires |dest.mem| + Cost(s, map[], |s.slots|) <= limit
    requires limit + 8 + HeaderLength(s, Lookup(s.vars, name)) + |name| + 9 < WORD_LIMIT
    modifies dest
    ensures source.Holds(s) && dest.Holds(d') && |d'.slots| == |d.slots| + |Copies(s, root)| + 1
    ensures Lookup(d'.vars, name) >= 0 && forall x :: x in m <==> Reached(s, root, x)
    ensures |chain| > 0 && forall i :: 0 <= i < |chain| ==> chain[i] in m
    ensures TreeLeadsTo(d', Lookup(d'.vars, name), Mapped(m, chain)) <==> Ends(d', LastLink(s, chain))
    ensures Ends(d', LastLink(s, chain)) ==>
              ChainOk(d', Mapped(m, chain)) && ItemsCloned(ChainItems(s, chain), ChainItems(d', Mapped(m, chain)))
    ensures LinkedBack(s, chain) ==> (LinkedBack(d', Mapped(m, chain)) <==> Linkable(root, |d.slots|, chain))
  {
    hide Image, Lookup, HasName, CString, TreeLeadsTo, LeafChain, ChainOk, ChainItems, IsTreeHeader, Cost,
      NodesClosed, Cloning, Complete, ItemsCloned, HeaderCloned, Extends, BackMapped, BlockBytes, SlotsOk, Mapped;
    hide Reached, Copies, LastLink, Ends, Linkable, LinkedBack, BacksMapped, BacksRewritten;
    ChainOfLeaves(s, chain);
    var t := source.VariableGet(name, s);
    HeaderIsLong(s, t, chain);
    var cloner := new TreeGraphCloner(source, dest, s, d, nodes, root, limit);
    ghost var t', d1 := cloner.CloneTreeVariable(name, t);
    m, d' := cloner.indexMap, cloner.d;
    CloneIteratesAlike(s, d1, nodes, m, cloner.finished, root, t, name, t'.value, d', chain);
    CopyFound(s, d, d1, m, t, name, t'.value, d');
    CopiesCounted(s, m, root);
    HeaderKept(s, d1, m, t, name, t'.value, d');
    if LinkedBack(s, chain) {
      CloneLinksBackAlike(s, d1, nodes, m, cloner.finished, root, |d.slots|, t, name, t'.value, d', chain);
    }
    if Ends(d', LastLink(s, chain)) {
      ChainLed(d', t'.value, Mapped(m, chain));
    }
  }

  /**
   * Clones a tree and iterates over both: the copy shows as many items, and the same bytes for every key and value
   * that resolved. A last link that resolves to nothing must not name one of the blocks added.
   */
  method CloneAndIterate(source: Context, dest: Context, name: seq<byte>, ghost s: Store, ghost d: Store,
      ghost nodes: set<nat>, ghost root: nat, ghost limit: nat, ghost chain: seq<nat>)
    returns (items: seq<Item>, copies: seq<Item>)
    requires source != dest && source.Holds(s) && dest.Holds(d) && NodesClosed(s, nodes)
    requires Lookup(s.vars, name) >= 0 && TreeLeadsTo(s, Lookup(s.vars, name), chain) && LeafChain(s, chain)
    requires IsTreeHeader(s, Lookup(s.vars, name), nodes, root)
    requires LastLink(s, chain) == 0 || LastLink(s, chain) >= |d.slots| + |Copies(s, root)| + 1
    requires !HasName(d.vars, name) && CString(name) == name && |name| < 256
    requires |dest.mem| + Cost(s, map[], |s.slots|) <= limit
    requires limit + 8 + HeaderLength(s, Lookup(s.vars, name)) + |name| + 9 < WORD_LIMIT
    modifies dest
    ensures items == ChainItems(s, chain) && ItemsCloned(items, copies)
  {
    hide Image, Lookup, HasName, CString, TreeLeadsTo, LeafChain, ChainOk, ChainItems, IsTreeHeader, Cost,
      NodesClosed, ItemsCloned, BlockBytes, SlotsOk, Mapped, Copies, LastLink, Linkable, LinkedBack, Reached;
    ChainOfLeaves(s, chain);
    ghost var m, d' := CloneTree(source, dest, name, s, d, nodes, root, limit, chain);
    var original := new Tree(source, name);
    items := original.Iterate(s, chain);
    var copy := new Tree(dest, name);
    copies := copy.Iterate(d', Mapped(m, chain));
  }

  lemma HeaderIsLong(s: Store, t: nat, chain: seq<nat>)
    requires TreeLeadsTo(s, t, chain)
    ensures WellFormed(s) && HeaderLength(s, t) >= TREE_SIZE
  {
    hide Image, U32, ChainOk;
  }

  // ----- a backward link that the walk does not reach

  /** A leaf without entries. */
  function BareLeaf(forwards: nat, backwards: nat): (b: seq<byte>)
    ensures |b| == NODE_HEADER
  {
    BE16(1) + BE16(0) + BE(forwards) + BE(backwards)
  }

  lemma BareLeafFields(forwards: nat, backwards: nat)
    requires forwards < WORD_LIMIT && backwards < WORD_LIMIT
    ensures var b := BareLeaf(forwards, backwards);
            && U16(b, 0) == 1 && EntryCount(b) == 0 && NodeFits(b) && U32(b, FORWARD) == forwards
            && U32(b, BACKWARD) == backwards
  {
    hide BE, U32;
    var b := BareLeaf(forwards, backwards);
    assert b[0] == 0 && b[1] == 1;
    WordIn(b, FORWARD, forwards);
    WordIn(b, BACKWARD, backwards);
  }

  /** Two leaves linked to each other, with indexes 1 and 2, and a tree header that leads to the second one. */
  function TwoLeaves(): Store {
    Added(Added(Added(Added(EMPTY_STORE, [0]), BareLeaf(2, 0)), BareLeaf(0, 1)), TreeHeader(2))
  }

  /** Its blocks, added one after the other. */
  lemma FourBlocks(a: seq<byte>, b: seq<byte>, c: seq<byte>, h: seq<byte>)
    requires var s1 := Added(EMPTY_STORE, a);
             var s2 := Added(s1, b);
             var s3 := Added(s2, c);
             WellFormed(EMPTY_STORE) && WellFormed(s1) && WellFormed(s2) && WellFormed(s3) && WellFormed(Added(s3, h))
    ensures var s := Added(Added(Added(Added(EMPTY_STORE, a), b), c), h);
            && |s.slots| == 4 && BlockBytes(s, 0) == a && BlockBytes(s, 1) == b && BlockBytes(s, 2) == c
            && BlockBytes(s, 3) == h && Cost(s, map[], 4) == 32 + |a| + |b| + |c| + |h|
  {
    hide Image, Added, BlockBytes, SlotsOk;
    var s1 := Added(EMPTY_STORE, a);
    var s2 := Added(s1, b);
    var s3 := Added(s2, c);
    AddedExtends(EMPTY_STORE, a);
    AddedExtends(s1, b);
    AddedExtends(s2, c);
    AddedExtends(s3, h);
    var s := Added(s3, h);
    InData(s);
    assert BlockBytes(s, 0) == a && BlockBytes(s, 1) == b && BlockBytes(s, 2) == c && BlockBytes(s, 3) == h;
    assert Cost(s, map[], 1) == 8 + |a|;
    assert Cost(s, map[], 2) == Cost(s, map[], 1) + 8 + |b|;
    assert Cost(s, map[], 3) == Cost(s, map[], 2) + 8 + |c|;
  }

  /** The walk ends where it starts. */
  lemma {:induction false} WalkOfOne(s: Store, root: nat, k: nat)
    requires WellFormed(s) && NodeIndex(s, root) && Next(s, root) == None
    ensures Visited(s, root, k) == if k == 0 then Some(root) else None
  {
    hide Image, Next, BlockBytes;
    if k > 0 {
      WalkOfOne(s, root, k - 1);
    }
  }

  lemma ReachedOfOne(s: Store, root: nat, x: nat)
    requires WellFormed(s) && NodeIndex(s, root) && Next(s, root) == None && EntryCount(BlockBytes(s, root)) == 0
    ensures OnWalk(s, root, root) && (Reached(s, root, x) <==> x == root)
  {
    hide Image, Next, BlockBytes;
    WalkStarts(s, root);
    WalkIsReached(s, root, root);
    if Reached(s, root, x) {
      var z: nat :| OnWalk(s, root, z) && (z == x || FieldOf(s, z, x));
      var k := StepOf(s, root, z);
      WalkOfOne(s, root, k);
      assert z == root;
      assert !FieldOf(s, z, x);
    }
  }

  /** The header leads to the second leaf, and the walk reaches no more than that. */
  lemma TwoLeavesWalk(s: Store)
    requires WellFormed(s) && |s.slots| == 4 && BlockBytes(s, 2) == BareLeaf(0, 1) && BlockBytes(s, 3) == TreeHeader(2)
    ensures NodesClosed(s, {2}) && IsTreeHeader(s, 3, {2}, 2) && HeaderLength(s, 3) == TREE_SIZE
    ensures NodeIndex(s, 2) && !IsRedirect(BlockBytes(s, 2)) && U32(BlockBytes(s, 2), BACKWARD) == 1
    ensures OnWalk(s, 2, 2) && forall x :: Reached(s, 2, x) <==> x == 2
  {
    hide Image, BlockBytes, U32, BareLeaf, TreeHeader, SlotsOk, Reached, OnWalk;
    BareLeafFields(0, 1);
    NewTreeBytes(2);
    ReachedOfOne(s, 2, 2);
    forall x
      ensures Reached(s, 2, x) <==> x == 2
    {
      ReachedOfOne(s, 2, x);
    }
  }

  lemma OneCopied(s: Store, d1: Store, m: map<nat, nat>, finished: set<nat>, name: seq<byte>, t': nat, d: Store)
    requires Cloning(s, d1, {2}, m, finished, 2) && ExactlyReached(s, m, 2) && BacksRewritten(s, d1, m, 2)
    requires |d1.slots| == |m| && (2 in m ==> m[2] == 0) && HeaderCloned(s, d1, m, 3, name, t', d)
    requires |s.slots| == 4 && BlockBytes(s, 2) == BareLeaf(0, 1) && BlockBytes(s, 3) == TreeHeader(2)
    requires OnWalk(s, 2, 2) && forall x :: Reached(s, 2, x) <==> x == 2
    ensures WellFormed(d) && t' == 1 && |d.slots| == 2
    ensures |BlockBytes(d, 1)| >= TREE_SIZE && U32(BlockBytes(d, 1), CHILD) == 0
    ensures |BlockBytes(d, 0)| >= NODE_HEADER && U32(BlockBytes(d, 0), BACKWARD) == 1
  {
    hide Image, Added, BlockBytes, SlotsOk, U32, BareLeaf, TreeHeader, Cloning, Reached, OnWalk;
    CloningStores(s, d1, {2}, m, finished, 2);
    BareLeafFields(0, 1);
    NewTreeBytes(2);
    HeaderKept(s, d1, m, 3, name, t', d);
    assert m.Keys == {2};
    assert |m| == |m.Keys| == 1;
    assert U32(BlockBytes(d1, m[2]), BACKWARD) == 1;
  }

  /**
   * In a store built by the operations alone, a leaf links back to the leaf in front of it, which the header does not
   * lead to. In the copy, the same number is the index of the tree header.
   */
  method CloneSecondLeaf(name: seq<byte>) returns (source: Context, dest: Context, ghost s: Store, ghost d: Store)
    requires CString(name) == name && |name| < 256
    ensures fresh(source) && fresh(dest) && source.Holds(s) && s == TwoLeaves() && dest.Holds(d)
    ensures Lookup(d.vars, name) == 1
    ensures |s.slots| == 4 && BlockBytes(s, 1) == BareLeaf(2, 0) && U32(BlockBytes(s, 2), BACKWARD) == 1
    ensures |d.slots| == 2 && |BlockBytes(d, 1)| >= TREE_SIZE && U32(BlockBytes(d, 1), CHILD) == 0
    ensures |BlockBytes(d, 0)| >= NODE_HEADER && U32(BlockBytes(d, 0), BACKWARD) == 1
  {
    hide Image, Added, BlockBytes, SlotsOk, U32, BareLeaf, TreeHeader, Cost, NodesClosed, IsTreeHeader, Cloning,
      Complete, HeaderCloned, Extends, BackMapped, Reached, OnWalk, Lookup, HasName, CString, BacksRewritten;
    source := new Context();
    EmptySize();
    var a := source.IndexAdd([0], EMPTY_STORE);
    ghost var s1 := Added(EMPTY_STORE, [0]);
    AddedSize(EMPTY_STORE, [0]);
    a := source.IndexAdd(BareLeaf(2, 0), s1);
    ghost var s2 := Added(s1, BareLeaf(2, 0));
    AddedSize(s1, BareLeaf(2, 0));
    a := source.IndexAdd(BareLeaf(0, 1), s2);
    ghost var s3 := Added(s2, BareLeaf(0, 1));
    AddedSize(s2, BareLeaf(0, 1));
    a := source.IndexAdd(TreeHeader(2), s3);
    s := Added(s3, TreeHeader(2));
    FourBlocks([0], BareLeaf(2, 0), BareLeaf(0, 1), TreeHeader(2));
    TwoLeavesWalk(s);
    dest := new Context();
    var cloner := new TreeGraphCloner(source, dest, s, EMPTY_STORE, {2}, 2, 200);
    ghost var t', d1 := cloner.CloneTreeVariable(name, 3);
    d := cloner.d;
    OneCopied(s, d1, cloner.indexMap, cloner.finished, name, t'.value, d);
    CopyFound(s, EMPTY_STORE, d1, cloner.indexMap, 3, name, t'.value, d) by { NoNames(name); }
  }

  // ----- links that the numbers of the copy give another meaning

  /** The blocks of a store with three of them and a variable. */
  lemma ThreeBlocks(a: seq<byte>, b: seq<byte>, h: seq<byte>, v: Var, unused: seq<byte>)
    requires var s1 := Added(EMPTY_STORE, a);
             var s2 := Added(s1, b);
             && WellFormed(EMPTY_STORE) && WellFormed(s1) && WellFormed(s2) && WellFormed(Added(s2, h))
             && WellFormed(VarAdded(Added(s2, h), v, unused))
    ensures var s := VarAdded(Added(Added(Added(EMPTY_STORE, a), b), h), v, unused);
            && |s.slots| == 3 && BlockBytes(s, 0) == a && BlockBytes(s, 1) == b && BlockBytes(s, 2) == h
            && s.vars == [v] && Cost(s, map[], 3) == 24 + |a| + |b| + |h|
  {
    hide Image, Added, BlockBytes, SlotsOk;
    var s1 := Added(EMPTY_STORE, a);
    var s2 := Added(s1, b);
    var s3 := Added(s2, h);
    AddedExtends(EMPTY_STORE, a);
    AddedExtends(s1, b);
    AddedExtends(s2, h);
    var s := VarAdded(s3, v, unused);
    InData(s3);
    InData(s);
    SameBlocks(s3, s);
    assert BlockBytes(s, 0) == a && BlockBytes(s, 1) == b && BlockBytes(s, 2) == h;
    assert Cost(s, map[], 1) == 8 + |a|;
    assert Cost(s, map[], 2) == Cost(s, map[], 1) + 8 + |b|;
  }

  /** Leaf 0, then leaf 1, whose forward link 3 resolves to nothing; header 2. */
  lemma LowLinksWalk(s: Store, name: seq<byte>)
    requires WellFormed(s) && |s.slots| == 3 && BlockBytes(s, 0) == BareLeaf(1, 0) && BlockBytes(s, 1) == BareLeaf(3, 0)
    requires BlockBytes(s, 2) == TreeHeader(0)
    ensures NodesClosed(s, {0, 1, 3}) && IsTreeHeader(s, 2, {0, 1, 3}, 0) && HeaderLength(s, 2) == TREE_SIZE
    ensures TreeLeadsTo(s, 2, [0, 1]) && LeafChain(s, [0, 1]) && LastLink(s, [0, 1]) == 3 && LinkedBack(s, [0, 1])
    ensures |Copies(s, 0)| >= 2
  {
    hide Image, BlockBytes, U32, BareLeaf, TreeHeader, SlotsOk, Reached, OnWalk, Copies;
    BareLeafFields(1, 0);
    BareLeafFields(3, 0);
    NewTreeBytes(0);
    InData(s);
    var chain: seq<nat> := [0, 1];
    assert chain[1..] == [1] && LeafChain(s, chain[1..]);
    WalkStarts(s, 0);
    WalkGoesOn(s, 0, 0);
    WalkIsReached(s, 0, 0);
    WalkIsReached(s, 0, 1);
    ReachedIsSlot(s, 0, 0);
    ReachedIsSlot(s, 0, 1);
    SubsetSize({0, 1}, Copies(s, 0));
  }

  /**
   * In stores built by the operations alone: the copy of leaf 1 links back to 0, which is not the copy of leaf 0, and
   * forward to 3, which is the header of the copy. So the copies are neither linked back nor a chain that ends.
   */
  method CloneLowLinks(name: seq<byte>) returns (source: Context, dest: Context, ghost s: Store, ghost m: map<nat, nat>,
      ghost d: Store)
    requires CString(name) == name && |name| < 256
    ensures fresh(source) && fresh(dest) && source.Holds(s) && dest.Holds(d) && 0 in m && 1 in m
    ensures Lookup(s.vars, name) == 2 && TreeLeadsTo(s, 2, [0, 1]) && LinkedBack(s, [0, 1])
    ensures Lookup(d.vars, name) >= 0 && !TreeLeadsTo(d, Lookup(d.vars, name), [m[0], m[1]])
    ensures !LinkedBack(d, [m[0], m[1]])
  {
    hide Image, Added, BlockBytes, SlotsOk, U32, BareLeaf, TreeHeader, Cost, NodesClosed, IsTreeHeader, TreeLeadsTo,
      LeafChain, LinkedBack, LastLink, Copies, Reached, Lookup, HasName, CString, ChainOk, ChainItems, ItemsCloned;
    source := new Context();
    EmptySize();
    NoNames(name);
    var a := source.IndexAdd(BareLeaf(1, 0), EMPTY_STORE);
    ghost var s1 := Added(EMPTY_STORE, BareLeaf(1, 0));
    AddedSize(EMPTY_STORE, BareLeaf(1, 0));
    a := source.IndexAdd(BareLeaf(3, 0), s1);
    ghost var s2 := Added(s1, BareLeaf(3, 0));
    AddedSize(s1, BareLeaf(3, 0));
    a := source.IndexAdd(TreeHeader(0), s2);
    ghost var s3 := Added(s2, TreeHeader(0));
    AddedSize(s2, TreeHeader(0));
    ghost var unused := source.VariableAdd(name, 2, s3);
    s := VarAdded(s3, StoredVar(name, 2), unused);
    ThreeBlocks(BareLeaf(1, 0), BareLeaf(3, 0), TreeHeader(0), StoredVar(name, 2), unused);
    LowLinksWalk(s, name);
    StoredExactly(name, 2);
    NewName([], name, 2);
    dest := new Context();
    a := dest.IndexAdd([0], EMPTY_STORE);
    ghost var d0 := Added(EMPTY_STORE, [0]);
    AddedSize(EMPTY_STORE, [0]);
    AddedExtends(EMPTY_STORE, [0]);
    ghost var chain: seq<nat> := [0, 1];
    m, d := CloneTree(source, dest, name, s, d0, {0, 1, 3}, 0, 300, chain);
    assert chain[0] in m && chain[1] in m;
    assert Mapped(m, chain) == [m[0], m[1]];
  }
}
