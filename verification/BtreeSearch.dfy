/** Finding keys: a way down to a leaf, then along the chain. What is found is what an
    ordered map would give. */
module BtreeSearch {
  import opened Common
  import opened BtreeKeys
  import opened BtreeNode
  import opened BtreeShape
  import opened BtreeBalance
  import opened BtreeChain
  import opened BtreeGrow
  import opened Btree

  /** The leaves with what they hold. */
  function LeafTrees(t: Tree): seq<Tree>
    decreases t
  {
    if t.Leaf? then [t] else LeafTreesAll(t.kids)
  }

  function LeafTreesAll(ts: seq<Tree>): seq<Tree>
    decreases ts
  {
    if ts == [] then [] else LeafTrees(ts[0]) + LeafTreesAll(ts[1..])
  }

  lemma {:induction false} LeafTreesJoin(a: seq<Tree>, b: seq<Tree>)
    ensures LeafTreesAll(a + b) == LeafTreesAll(a) + LeafTreesAll(b)
  {
    if a == [] {
      assert a + b == b;
    } else {
      assert (a + b)[0] == a[0] && (a + b)[1..] == a[1..] + b;
      LeafTreesJoin(a[1..], b);
    }
  }

  lemma LeafTreesOne(t: Tree)
    ensures LeafTreesAll([t]) == LeafTrees(t)
  {
    assert [t][1..] == [];
  }

  lemma LeafTreesAround(ts: seq<Tree>, i: nat)
    requires i < |ts|
    ensures LeafTreesAll(ts) == LeafTreesAll(ts[..i]) + LeafTrees(ts[i]) + LeafTreesAll(ts[i + 1..])
  {
    hide LeafTrees, LeafTreesAll;
    SeqAround(ts, i);
    LeafTreesJoin(ts[..i] + [ts[i]], ts[i + 1..]);
    LeafTreesJoin(ts[..i], [ts[i]]);
    LeafTreesOne(ts[i]);
  }

  /** The leaves hold everything, in order. */
  lemma {:induction false} LeavesHoldAll(t: Tree)
    ensures FlatAll(LeafTrees(t)) == Flat(t) && Roots(LeafTrees(t)) == Leaves(t)
    decreases t
  {
    if t.Leaf? {
      FlatOne(t);
    } else {
      LeavesHoldAllOf(t.kids);
    }
  }

  lemma {:induction false} LeavesHoldAllOf(ts: seq<Tree>)
    ensures FlatAll(LeafTreesAll(ts)) == FlatAll(ts) && Roots(LeafTreesAll(ts)) == LeavesAll(ts)
    decreases ts
  {
    if ts != [] {
      LeavesHoldAll(ts[0]);
      LeavesHoldAllOf(ts[1..]);
      FlatJoin(LeafTrees(ts[0]), LeafTreesAll(ts[1..]));
      RepresentsJoin(LeafTrees(ts[0]), LeafTreesAll(ts[1..]));
    }
  }

  /** Every leaf holds something, and is what its node says. */
  ghost predicate LeafReady(l: Tree)
    reads NodesOf(l)
  {
    l.Leaf? && l.items != [] && l.node.HasItems(l.items)
  }

  lemma {:induction false} LeavesReady(t: Tree, c: nat)
    requires Represents(t) && Filled(t) && (t.Leaf? ==> Size(t) > 0) && c < |LeafTrees(t)|
    ensures LeafReady(LeafTrees(t)[c])
    decreases t
  {
    if t.Inner? {
      LeavesReadyOf(t.kids, c);
    }
  }

  lemma {:induction false} LeavesReadyOf(ts: seq<Tree>, c: nat)
    requires RepresentsAll(ts) && (forall i :: 0 <= i < |ts| ==> Filled(ts[i]) && Fits(ts[i])) && c < |LeafTreesAll(ts)|
    ensures LeafReady(LeafTreesAll(ts)[c])
    decreases ts
  {
    if c < |LeafTrees(ts[0])| {
      LeavesReady(ts[0], c);
    } else {
      assert forall i :: 0 <= i < |ts[1..]| ==> ts[1..][i] == ts[i + 1];
      LeavesReadyOf(ts[1..], c - |LeafTrees(ts[0])|);
    }
  }

  /** What the ends of a leaf are, among all the leaves of a tree. */
  lemma LeafAt(t: Tree, c: nat)
    requires Represents(t) && Filled(t) && (t.Leaf? ==> Size(t) > 0) && Chain(Leaves(t)) && c < |LeafTrees(t)|
    ensures var ls := LeafTrees(t); var l := ls[c];
            && LeafReady(l)
            && l.node.next == (if c + 1 < |ls| then ls[c + 1].node else null)
            && l.node.prev == (if c > 0 then ls[c - 1].node else null)
            && |FlatAll(ls[..c])| + |l.items| <= |Flat(t)|
            && (forall j :: 0 <= j < |l.items| ==> Flat(t)[|FlatAll(ls[..c])| + j] == l.items[j])
            && |FlatAll(ls[..c + 1])| == |FlatAll(ls[..c])| + |l.items|
            && (c + 1 == |ls| ==> |FlatAll(ls[..c])| + |l.items| == |Flat(t)|)
  {
    hide Flat, FlatAll, LeafTrees, Chain, Represents, Filled, Leaves;
    var ls := LeafTrees(t);
    LeavesHoldAll(t);
    LeavesReady(t, c);
    assert Leaves(t)[c] == ls[c].node;
    ChainAt(t, c);
    FlatAround(ls, c);
    assert ls[..c + 1] == ls[..c] + [ls[c]];
    FlatJoin(ls[..c], [ls[c]]);
    FlatOne(ls[c]);
    LeafFlat(ls[c]);
    NoFlat(ls, c);
  }

  lemma LeafFlat(l: Tree)
    requires l.Leaf?
    ensures Flat(l) == l.items
  {
  }

  lemma NoFlat(ls: seq<Tree>, c: nat)
    requires c < |ls|
    ensures c + 1 == |ls| ==> FlatAll(ls[c + 1..]) == []
  {
  }

  lemma ChainAt(t: Tree, c: nat)
    requires Chain(Leaves(t)) && c < |Leaves(t)|
    ensures Leaves(t)[c].next == (if c + 1 < |Leaves(t)| then Leaves(t)[c + 1] else null)
    ensures Leaves(t)[c].prev == (if c > 0 then Leaves(t)[c - 1] else null)
  {
  }

  // ---------- the leaf a key belongs to ----------

  /** A subtree with all that is before it below the key, and all that is after it above. */
  ghost predicate Around(whole: Tree, t: Tree, h: nat, lo: Bound, hi: Bound, front: seq<Tree>, back: seq<Tree>, key: Key)
    reads NodesOf(t)
  {
    && Represents(t) && Good(t, h, lo, hi) && From(lo, key) && Below(key, hi)
    && LeafTrees(whole) == front + LeafTrees(t) + back
    && AllBelow(FlatAll(front), key) && AllAbove(FlatAll(back), key)
  }

  lemma AroundKid(whole: Tree, t: Tree, h: nat, lo: Bound, hi: Bound, front: seq<Tree>, back: seq<Tree>, key: Key, i: nat)
    requires Around(whole, t, h, lo, hi, front, back, key) && t.Inner? && Shaped(t) && h > 0 && i < |t.kids|
    requires From(Start(t.seps, lo, i), key) && Below(key, End(t.seps, hi, i))
    ensures Around(whole, t.kids[i], h - 1, Start(t.seps, lo, i), End(t.seps, hi, i),
                   front + LeafTreesAll(t.kids[..i]), LeafTreesAll(t.kids[i + 1..]) + back, key)
  {
    hide LeafTreesAll, Less, FlatAll, Flat, Row, Represents, RepresentsAll;
    RepresentsAround(t.kids, i);
    InnerParts(t, h, lo, hi);
    RowKidGood(t, i, h, lo, hi);
    var a, b := LeafTreesAll(t.kids[..i]), LeafTreesAll(t.kids[i + 1..]);
    LeafTreesAround(t.kids, i);
    LeavesHoldAllOf(t.kids[..i]);
    LeavesHoldAllOf(t.kids[i + 1..]);
    FlatJoin(front, a);
    FlatJoin(b, back);
    RowSides(t.seps, t.kids, h - 1, lo, hi, i, key);
    SeqRegroup(front, a, LeafTrees(t.kids[i]), b, back);
  }

  lemma RowKidGood(t: Tree, i: nat, h: nat, lo: Bound, hi: Bound)
    requires t.Inner? && Good(t, h, lo, hi) && Shaped(t) && h > 0 && i < |t.kids|
    ensures Good(t.kids[i], h - 1, Start(t.seps, lo, i), End(t.seps, hi, i))
  {
  }

  method LeafFor(tree: Btree, key: Key) returns (leaf: Node?, ghost c: nat)
    requires tree.Valid()
    ensures leaf == null <==> tree.shape.None?
    ensures leaf != null ==>
              var ls := LeafTrees(tree.shape.value);
              && c < |ls| && ls[c].node == leaf
              && AllBelow(FlatAll(ls[..c]), key) && AllAbove(FlatAll(ls[c + 1..]), key)
  {
    hide Represents, Good, LeafTrees, FlatAll, Less;
    leaf := tree.root;
    if leaf == null {
      c := 0;
      return;
    }
    ghost var whole, t, h, lo, hi, front, back := tree.shape.value, tree.shape.value, tree.height, Open, Open, [], [];
    NoFlatAll();
    assert LeafTrees(whole) == front + LeafTrees(t) + back;
    while !leaf.leaf
      invariant leaf == t.node && Around(whole, t, h, lo, hi, front, back, key)
      decreases h
    {
      KindOf(t);
      assert allocated(NodesOf(t));
      var i := KidFor(leaf, key, t, h, lo, hi);
      AroundKid(whole, t, h, lo, hi, front, back, key, i);
      leaf := leaf.kids[i];
      front, back := front + LeafTreesAll(t.kids[..i]), LeafTreesAll(t.kids[i + 1..]) + back;
      lo, hi, t, h := Start(t.seps, lo, i), End(t.seps, hi, i), t.kids[i], h - 1;
    }
    KindOf(t);
    LeafItself(t);
    c := |front|;
    assert LeafTrees(whole)[..c] == front && LeafTrees(whole)[c + 1..] == back;
  }

  lemma NoFlatAll()
    ensures FlatAll([]) == []
  {
  }

  lemma LeafItself(t: Tree)
    requires t.Leaf?
    ensures LeafTrees(t) == [t]
  {
  }

  // ---------- positions ----------

  datatype Pos = Pos(leaf: Node?, i: int)

  predicate NoneAbove(f: seq<Pair>, key: Key) {
    forall i :: 0 <= i < |f| ==> !Less(key, f[i].0)
  }

  /** The position is in leaf `c`, at what is `k`-th of everything. */
  predicate OnLeaf(ls: seq<Tree>, c: nat, p: Pos, k: int) {
    c < |ls| && ls[c].Leaf? && p.leaf == ls[c].node && 0 <= p.i < |ls[c].items| && k == |FlatAll(ls[..c])| + p.i
  }

  /** The position stands at the `k`-th key of all, or nowhere when there is no such key. */
  ghost predicate Stands(tree: Btree, p: Pos, k: int)
    reads tree
  {
    if 0 <= k < |tree.Items()| then exists c: nat :: OnLeaf(LeafTrees(tree.shape.value), c, p, k)
    else p.leaf == null
  }

  lemma TreeLeafAt(tree: Btree, c: nat)
    requires tree.Valid() && tree.shape.Some? && c < |LeafTrees(tree.shape.value)|
    ensures var t := tree.shape.value; var ls := LeafTrees(t); var l := ls[c];
            && LeafReady(l)
            && l.node.next == (if c + 1 < |ls| then ls[c + 1].node else null)
            && l.node.prev == (if c > 0 then ls[c - 1].node else null)
            && |FlatAll(ls[..c])| + |l.items| <= |tree.Items()|
            && (forall j :: 0 <= j < |l.items| ==> tree.Items()[|FlatAll(ls[..c])| + j] == l.items[j])
            && |FlatAll(ls[..c + 1])| == |FlatAll(ls[..c])| + |l.items|
            && (c + 1 == |ls| ==> |FlatAll(ls[..c])| + |l.items| == |tree.Items()|)
  {
    LeafAt(tree.shape.value, c);
  }

  /** What stands at a position. */
  lemma StandsAt(tree: Btree, p: Pos, k: int)
    requires tree.Valid() && Stands(tree, p, k)
    ensures p.leaf == null <==> !(0 <= k < |tree.Items()|)
    ensures p.leaf != null ==>
              && p.leaf.Roomy() && 0 <= p.i < p.leaf.n <= BT_MAX + 1
              && p.leaf.keys[p.i] == tree.Items()[k].0 && p.leaf.vals[p.i] == tree.Items()[k].1
  {
    hide LeafTrees, FlatAll;
    if 0 <= k < |tree.Items()| {
      var c: nat :| OnLeaf(LeafTrees(tree.shape.value), c, p, k);
      TreeLeafAt(tree, c);
    }
  }

  /** A leaf and an index in it, or the end of it, seen from everything. */
  lemma LeafBounds(tree: Btree, c: nat, i: nat, key: Key)
    requires tree.Valid() && tree.shape.Some? && c < |LeafTrees(tree.shape.value)|
    requires var ls := LeafTrees(tree.shape.value);
             && AllBelow(FlatAll(ls[..c]), key) && AllAbove(FlatAll(ls[c + 1..]), key)
             && ls[c].Leaf? && i <= |ls[c].items|
    ensures var ls := LeafTrees(tree.shape.value);
            var k := |FlatAll(ls[..c])| + i;
            var items := tree.Items();
            && k <= |items|
            && (AllBelow(ls[c].items[..i], key) && AllFrom(ls[c].items[i..], key) ==> AllBelow(items[..k], key) && AllFrom(items[k..], key))
            && (NoneAbove(ls[c].items[..i], key) && AllAbove(ls[c].items[i..], key) ==> NoneAbove(items[..k], key) && AllAbove(items[k..], key))
  {
    hide LeafTrees, FlatAll, AllBelow, AllAbove, AllFrom, NoneAbove;
    var ls := LeafTrees(tree.shape.value);
    LeavesHoldAll(tree.shape.value);
    FlatAround(ls, c);
    LeafFlat(ls[c]);
    PartBounds(FlatAll(ls[..c]), ls[c].items, FlatAll(ls[c + 1..]), i, key);
  }

  lemma PartBounds(a: seq<Pair>, f: seq<Pair>, b: seq<Pair>, i: nat, key: Key)
    requires AllBelow(a, key) && AllAbove(b, key) && i <= |f|
    ensures var items, k := a + f + b, |a| + i;
            && (AllBelow(f[..i], key) && AllFrom(f[i..], key) ==> AllBelow(items[..k], key) && AllFrom(items[k..], key))
            && (NoneAbove(f[..i], key) && AllAbove(f[i..], key) ==> NoneAbove(items[..k], key) && AllAbove(items[k..], key))
  {
    hide Less;
    LessIsTotalOrder();
    SliceWithin(a, f, b, i);
  }

  /** Where the first keys end that are below `key`, or not above it. */
  predicate Divides(f: seq<Pair>, k: nat, key: Key, strict: bool) {
    && k <= |f|
    && if strict then NoneAbove(f[..k], key) && AllAbove(f[k..], key) else AllBelow(f[..k], key) && AllFrom(f[k..], key)
  }

  /** Where `key` divides a leaf: before it, or behind it. */
  method InLeaf(leaf: Node, key: Key, behind: bool, ghost items: seq<Pair>) returns (i: nat)
    requires leaf.HasItems(items) && Sorted(items)
    ensures i <= |items| && Divides(items, i, key, behind)
  {
    hide Less;
    KeysAscend(leaf, items);
    if behind {
      i := leaf.Upper(key);
    } else {
      i := leaf.Lower(key);
    }
  }

  lemma LeafIsSorted(tree: Btree, c: nat)
    requires tree.Valid() && tree.shape.Some? && c < |LeafTrees(tree.shape.value)|
    ensures LeafTrees(tree.shape.value)[c].Leaf? && Sorted(LeafTrees(tree.shape.value)[c].items)
  {
    hide LeafTrees, FlatAll, Less, Flat;
    tree.ItemsSorted();
    TreeLeafAt(tree, c);
    var l, base, items := LeafTrees(tree.shape.value)[c], |FlatAll(LeafTrees(tree.shape.value)[..c])|, tree.Items();
    forall i, j | 0 <= i < j < |l.items| ensures Less(l.items[i].0, l.items[j].0) {
      assert items[base + i] == l.items[i] && items[base + j] == l.items[j];
    }
  }

  lemma LeafNode(tree: Btree, c: nat)
    requires tree.Valid() && tree.shape.Some? && c < |LeafTrees(tree.shape.value)|
    ensures var ls := LeafTrees(tree.shape.value); var l := ls[c];
            && l.Leaf? && l.items != [] && l.node.n == |l.items| && l.node.HasItems(l.items) && Sorted(l.items)
            && l.node.next == (if c + 1 < |ls| then ls[c + 1].node else null)
            && l.node.prev == (if c > 0 then ls[c - 1].node else null)
            && |FlatAll(ls[..c + 1])| == |FlatAll(ls[..c])| + |l.items| <= |tree.Items()|
            && (c + 1 == |ls| ==> |FlatAll(ls[..c])| + |l.items| == |tree.Items()|)
            && (c == 0 ==> |FlatAll(ls[..c])| == 0)
  {
    hide LeafTrees, FlatAll, Whole;
    TreeLeafAt(tree, c);
    LeafIsSorted(tree, c);
    NothingBefore(LeafTrees(tree.shape.value), c);
  }

  /** From the end of a leaf on to the next one. */
  method Forward(tree: Btree, leaf: Node, i0: nat, ghost c0: nat, ghost k: nat) returns (p: Pos)
    requires tree.Valid() && tree.shape.Some?
    requires var ls := LeafTrees(tree.shape.value);
             && c0 < |ls| && leaf == ls[c0].node && ls[c0].Leaf? && i0 <= |ls[c0].items| && k == |FlatAll(ls[..c0])| + i0
    ensures Stands(tree, p, k)
  {
    hide LeafTrees, FlatAll, Less, Whole;
    assert allocated(tree.Nodes());
    ghost var ls, c := LeafTrees(tree.shape.value), c0;
    LeafNode(tree, c);
    var at: Node?, i: int := leaf, i0;
    while at != null && i >= at.n
      invariant 0 <= i && (at == null ==> k == |tree.Items()|)
      invariant at != null ==> c < |ls| && at == ls[c].node && ls[c].Leaf? && at.n == |ls[c].items| && i <= at.n
      invariant at != null ==> k == |FlatAll(ls[..c])| + i && |FlatAll(ls[..c])| + |ls[c].items| <= |tree.Items()|
      decreases if at == null then 0 else |ls| - c
    {
      LeafNode(tree, c);
      at := at.next;
      i, c := 0, c + 1;
      if at != null {
        LeafNode(tree, c);
      }
    }
    p := Pos(at, i);
    assert at != null ==> OnLeaf(ls, c, p, k);
  }

  /** The first key from `key` on, or above it. */
  method Seek(tree: Btree, key: Key, strict: bool) returns (p: Pos, ghost k: nat)
    requires tree.Valid()
    ensures Divides(tree.Items(), k, key, strict) && Stands(tree, p, k)
  {
    hide LeafTrees, FlatAll, Less, Whole, LeafReady, Stands;
    assert allocated(tree.Nodes());
    var leaf;
    ghost var c: nat;
    leaf, c := LeafFor(tree, key);
    if leaf == null {
      p, k := Pos(null, 0), 0;
      NowhereToStand(tree, p);
      return;
    }
    ghost var ls := LeafTrees(tree.shape.value);
    LeafNode(tree, c);
    var i := InLeaf(leaf, key, strict, ls[c].items);
    LeafBounds(tree, c, i, key);
    k := |FlatAll(ls[..c])| + i;
    p := Forward(tree, leaf, i, c, k);
  }

  lemma NowhereToStand(tree: Btree, p: Pos)
    requires tree.shape.None? && p.leaf == null
    ensures Stands(tree, p, 0) && Stands(tree, p, -1)
  {
  }

  method Back(tree: Btree, leaf: Node, i0: int, ghost c0: nat, ghost k: int) returns (p: Pos)
    requires tree.Valid() && tree.shape.Some?
    requires var ls := LeafTrees(tree.shape.value);
             && c0 < |ls| && leaf == ls[c0].node && ls[c0].Leaf? && -1 <= i0 < |ls[c0].items| && k == |FlatAll(ls[..c0])| + i0
    ensures Stands(tree, p, k)
  {
    hide LeafTrees, FlatAll, Less, Whole;
    assert allocated(tree.Nodes());
    ghost var ls, c: int := LeafTrees(tree.shape.value), c0;
    LeafNode(tree, c);
    var at: Node?, i: int := leaf, i0;
    while at != null && i < 0
      invariant at == null ==> k == -1
      invariant at != null ==> 0 <= c < |ls| && at == ls[c].node && ls[c].Leaf? && -1 <= i < |ls[c].items|
      invariant at != null ==> k == |FlatAll(ls[..c])| + i && |FlatAll(ls[..c])| + |ls[c].items| <= |tree.Items()|
      decreases if at == null then 0 else c + 1
    {
      LeafNode(tree, c);
      at := at.prev;
      c := c - 1;
      if at != null {
        LeafNode(tree, c);
        i := at.n - 1;
      }
    }
    p := Pos(at, i);
    assert at != null ==> OnLeaf(ls, c, p, k);
  }

  /** The last key up to `key`, or below it. */
  method SeekBack(tree: Btree, key: Key, strict: bool) returns (p: Pos, ghost k: nat)
    requires tree.Valid()
    ensures Divides(tree.Items(), k, key, !strict) && Stands(tree, p, k - 1)
  {
    hide LeafTrees, FlatAll, Less, Whole, LeafReady, Stands;
    assert allocated(tree.Nodes());
    var leaf;
    ghost var c: nat;
    leaf, c := LeafFor(tree, key);
    if leaf == null {
      p, k := Pos(null, -1), 0;
      NowhereToStand(tree, p);
      return;
    }
    ghost var ls := LeafTrees(tree.shape.value);
    LeafNode(tree, c);
    var i: int := InLeaf(leaf, key, !strict, ls[c].items);
    LeafBounds(tree, c, i, key);
    k := |FlatAll(ls[..c])| + i;
    p := Back(tree, leaf, i - 1, c, k - 1);
  }

  lemma NothingBefore(ls: seq<Tree>, c: nat)
    requires c < |ls|
    ensures c == 0 ==> FlatAll(ls[..c]) == []
  {
  }

  // ---------- what is found ----------

  lemma InContents(tree: Btree, x: Key)
    requires tree.Valid()
    ensures x in tree.Contents() <==> exists i :: 0 <= i < |tree.Items()| && tree.Items()[i].0 == x
  {
    hide Whole, Less;
    tree.ItemsSorted();
  }

  /** `x` is on the far side of `key`, or (unless `strict`) is it. */
  predicate Past(key: Key, x: Key, strict: bool) {
    if strict then Less(key, x) else !Less(x, key)
  }

  predicate Short(key: Key, x: Key, strict: bool) {
    if strict then Less(x, key) else !Less(key, x)
  }

  method KeyOut(tree: Btree, p: Pos, ghost k: int) returns (r: Option<Key>)
    requires tree.Valid() && Stands(tree, p, k)
    ensures r == if 0 <= k < |tree.Items()| then Some(tree.Items()[k].0) else None
  {
    StandsAt(tree, p, k);
    if p.leaf == null {
      return None;
    }
    return Some(p.leaf.keys[p.i]);
  }

  /** The value of a key, if it is in the map. */
  method Get(tree: Btree, key: Key) returns (r: Option<Value>)
    requires tree.Valid()
    ensures tree.Valid()
    ensures r == if key in tree.Contents() then Some(tree.Contents()[key]) else None
  {
    hide LeafTrees, FlatAll, Less, Whole, LeafReady, ToMap, Rank;
    assert allocated(tree.Nodes());
    tree.ItemsSorted();
    InMap(tree.Items(), key);
    var leaf;
    ghost var c: nat;
    leaf, c := LeafFor(tree, key);
    if leaf == null {
      return None;
    }
    ghost var ls, items := LeafTrees(tree.shape.value), tree.Items();
    LeafNode(tree, c);
    TreeLeafAt(tree, c);
    var i := InLeaf(leaf, key, false, ls[c].items);
    LeafBounds(tree, c, i, key);
    ghost var k := |FlatAll(ls[..c])| + i;
    RankIs(items, k, key);
    if i < leaf.n {
      CompareIsLess(leaf.keys[i], key);
      assert items[k] == ls[c].items[i];
      if Compare(leaf.keys[i], key) == 0 {
        return Some(leaf.vals[i]);
      }
    } else {
      NotPastTheLeaf(tree, c, key);
    }
    return None;
  }

  /** A key above all of its leaf is nowhere. */
  lemma NotPastTheLeaf(tree: Btree, c: nat, key: Key)
    requires tree.Valid() && tree.shape.Some? && c < |LeafTrees(tree.shape.value)|
    requires AllAbove(FlatAll(LeafTrees(tree.shape.value)[c + 1..]), key)
    ensures var k := |FlatAll(LeafTrees(tree.shape.value)[..c + 1])|;
            k < |tree.Items()| ==> tree.Items()[k].0 != key
  {
    hide LeafTrees, FlatAll, Less, Whole;
    LessIsTotalOrder();
    var ls := LeafTrees(tree.shape.value);
    LeavesHoldAll(tree.shape.value);
    assert ls == ls[..c + 1] + ls[c + 1..];
    FlatJoin(ls[..c + 1], ls[c + 1..]);
  }

  /** Where a key divides the list is where the next one and the one before it are. */
  lemma DivideIsNext(tree: Btree, k: nat, key: Key, strict: bool)
    requires tree.Valid() && Divides(tree.Items(), k, key, strict)
    ensures k <= |tree.Items()|
    ensures var f := tree.Items();
            if k < |f| then IsNext(tree.Contents(), key, strict, Some(f[k].0)) else IsNext(tree.Contents(), key, strict, None)
    ensures var f := tree.Items();
            if k > 0 then IsLast(tree.Contents(), key, !strict, Some(f[k - 1].0)) else IsLast(tree.Contents(), key, !strict, None)
  {
    hide Less, Whole, ToMap;
    LessIsTotalOrder();
    var f, m := tree.Items(), tree.Contents();
    tree.ItemsSorted();
    forall x | x in m ensures exists i :: 0 <= i < |f| && f[i].0 == x {
      InContents(tree, x);
    }
    forall i | 0 <= i < |f| ensures f[i].0 in m && (i < k ==> f[..k][i] == f[i]) && (i >= k ==> f[k..][i - k] == f[i]) {
      InContents(tree, f[i].0);
    }
  }

  /** The least key of the map past `key`. */
  ghost predicate IsNext(m: map<Key, Value>, key: Key, strict: bool, r: Option<Key>) {
    if r.None? then forall x :: x in m ==> !Past(key, x, strict)
    else
      && r.value in m && Past(key, r.value, strict)
      && forall x :: x in m && Past(key, x, strict) ==> !Less(x, r.value)
  }

  /** The greatest key of the map short of `key`. */
  ghost predicate IsLast(m: map<Key, Value>, key: Key, strict: bool, r: Option<Key>) {
    if r.None? then forall x :: x in m ==> !Short(key, x, strict)
    else
      && r.value in m && Short(key, r.value, strict)
      && forall x :: x in m && Short(key, x, strict) ==> !Less(r.value, x)
  }

  /** The least key from `key` on (`strict`: above it). */
  method Ceil(tree: Btree, key: Key, strict: bool) returns (r: Option<Key>)
    requires tree.Valid()
    ensures tree.Valid() && IsNext(tree.Contents(), key, strict, r)
  {
    hide Whole, IsNext, IsLast, Divides, Less;
    assert allocated(tree.Nodes());
    var p;
    ghost var k;
    p, k := Seek(tree, key, strict);
    DivideIsNext(tree, k, key, strict);
    r := KeyOut(tree, p, k);
    DivideIsNext(tree, k, key, strict);
  }

  /** The greatest key up to `key` (`strict`: below it). */
  method Floor(tree: Btree, key: Key, strict: bool) returns (r: Option<Key>)
    requires tree.Valid()
    ensures tree.Valid() && IsLast(tree.Contents(), key, strict, r)
  {
    hide Whole, IsNext, IsLast, Divides, Less;
    assert allocated(tree.Nodes());
    var p;
    ghost var k: int;
    p, k := SeekBack(tree, key, strict);
    r := KeyOut(tree, p, k - 1);
    DivideIsNext(tree, k, key, !strict);
  }

  // ---------- the ends ----------

  lemma FirstKid(t: Tree, h: nat, lo: Bound, hi: Bound)
    requires t.Inner? && Represents(t) && Good(t, h, lo, hi)
    ensures h > 0 && |t.kids| == |t.seps| + 1 == t.node.n + 1 && |t.node.kids| > t.node.n
    ensures t.node.kids[0] == t.kids[0].node && t.node.kids[t.node.n] == t.kids[t.node.n].node
    ensures Represents(t.kids[0]) && Good(t.kids[0], h - 1, Start(t.seps, lo, 0), End(t.seps, hi, 0))
    ensures var n := t.node.n; Represents(t.kids[n]) && Good(t.kids[n], h - 1, Start(t.seps, lo, n), End(t.seps, hi, n))
    ensures exists rest :: LeafTrees(t) == LeafTrees(t.kids[0]) + rest
    ensures exists rest :: LeafTrees(t) == rest + LeafTrees(t.kids[t.node.n])
  {
    hide Row, RepresentsAll, LeafTreesAll;
    var n := t.node.n;
    InnerParts(t, h, lo, hi);
    RepresentsAround(t.kids, 0);
    RepresentsAround(t.kids, n);
    RowKidGood(t, 0, h, lo, hi);
    RowKidGood(t, n, h, lo, hi);
    LeafTreesAround(t.kids, 0);
    LeafTreesAround(t.kids, n);
    assert Roots(t.kids)[0] == t.kids[0].node && Roots(t.kids)[n] == t.kids[n].node;
    NoLeafTrees();
    assert t.kids[..0] == [] && t.kids[n + 1..] == [];
    assert LeafTrees(t) == LeafTrees(t.kids[0]) + LeafTreesAll(t.kids[1..]);
    assert LeafTrees(t) == LeafTreesAll(t.kids[..n]) + LeafTrees(t.kids[n]);
  }

  lemma NoLeafTrees()
    ensures LeafTreesAll([]) == []
  {
  }

  method First(tree: Btree) returns (p: Pos)
    requires tree.Valid()
    ensures Stands(tree, p, 0)
  {
    hide LeafTrees, FlatAll, Represents, Good, Chain, Distinct, Filled;
    assert allocated(tree.Nodes());
    var leaf := tree.root;
    if leaf == null {
      return Pos(null, 0);
    }
    ghost var whole, t, h, lo, hi := tree.shape.value, tree.shape.value, tree.height, Open, Open;
    ghost var back: seq<Tree> := [];
    assert LeafTrees(whole) == LeafTrees(t) + back;
    while !leaf.leaf
      invariant leaf == t.node && Represents(t) && Good(t, h, lo, hi) && LeafTrees(whole) == LeafTrees(t) + back
      decreases h
    {
      KindOf(t);
      FirstKid(t, h, lo, hi);
      ghost var rest :| LeafTrees(t) == LeafTrees(t.kids[0]) + rest;
      leaf := leaf.kids[0];
      back := rest + back;
      lo, hi, t, h := Start(t.seps, lo, 0), End(t.seps, hi, 0), t.kids[0], h - 1;
    }
    KindOf(t);
    LeafItself(t);
    NothingBefore(LeafTrees(whole), 0);
    LeafNode(tree, 0);
    p := Pos(leaf, 0);
    assert OnLeaf(LeafTrees(whole), 0, p, 0);
    if leaf.n == 0 {
      p := Pos(null, 0);
    }
  }

  method Last(tree: Btree) returns (p: Pos)
    requires tree.Valid()
    ensures Stands(tree, p, |tree.Items()| - 1)
  {
    hide LeafTrees, FlatAll, Represents, Good, Chain, Distinct, Filled;
    assert allocated(tree.Nodes());
    var leaf := tree.root;
    if leaf == null {
      return Pos(null, -1);
    }
    ghost var whole, t, h, lo, hi := tree.shape.value, tree.shape.value, tree.height, Open, Open;
    ghost var front: seq<Tree> := [];
    assert LeafTrees(whole) == front + LeafTrees(t);
    while !leaf.leaf
      invariant leaf == t.node && Represents(t) && Good(t, h, lo, hi) && LeafTrees(whole) == front + LeafTrees(t)
      decreases h
    {
      KindOf(t);
      FirstKid(t, h, lo, hi);
      ghost var n := leaf.n;
      ghost var rest :| LeafTrees(t) == rest + LeafTrees(t.kids[n]);
      leaf := leaf.kids[leaf.n];
      front := front + rest;
      lo, hi, t, h := Start(t.seps, lo, n), End(t.seps, hi, n), t.kids[n], h - 1;
    }
    KindOf(t);
    LeafItself(t);
    LeafNode(tree, |front|);
    var i: int := leaf.n;
    i := i - 1;
    p := Pos(if i < 0 then null else leaf, i);
    assert OnLeaf(LeafTrees(whole), |front|, p, |tree.Items()| - 1);
  }

  /** The least key of all, and the greatest. */
  method Ends(tree: Btree) returns (first: Option<Key>, last: Option<Key>)
    requires tree.Valid()
    ensures tree.Valid() && first.Some? == last.Some? == (tree.Contents() != map[])
    ensures first.Some? ==> first.value in tree.Contents() && last.value in tree.Contents()
    ensures first.Some? ==> forall x :: x in tree.Contents() ==> !Less(x, first.value) && !Less(last.value, x)
  {
    hide Whole, Stands, Less, ToMap;
    assert allocated(tree.Nodes());
    var p := First(tree);
    var q := Last(tree);
    first := KeyOut(tree, p, 0);
    last := KeyOut(tree, q, |tree.Items()| - 1);
    EndsAre(tree);
  }

  lemma EndsAre(tree: Btree)
    requires tree.Valid()
    ensures var f, m := tree.Items(), tree.Contents();
            if f == [] then m == map[]
            else
              && f[0].0 in m && f[|f| - 1].0 in m
              && forall x :: x in m ==> !Less(x, f[0].0) && !Less(f[|f| - 1].0, x)
  {
    hide Whole, Less;
    LessIsTotalOrder();
    var f := tree.Items();
    tree.ItemsSorted();
    if f != [] {
      InContents(tree, f[0].0);
      InContents(tree, f[|f| - 1].0);
    }
    forall x | x in tree.Contents() ensures exists i :: 0 <= i < |f| && f[i].0 == x {
      InContents(tree, x);
    }
  }

  // ---------- a range ----------

  /** The keys from `lo` on and below `hi`; no limit where there is none. */
  ghost function RangeOf(f: seq<Pair>, lo: Option<Key>, hi: Option<Key>): seq<Pair> {
    var from := if lo.None? then 0 else Rank(f, lo.value);
    var to := if hi.None? then |f| else Rank(f, hi.value);
    if from <= to then f[from..to] else []
  }

  function Taken(f: seq<Pair>, limit: int): seq<Pair> {
    if 0 <= limit < |f| then f[..limit] else f
  }

  predicate InRange(key: Key, lo: Option<Key>, hi: Option<Key>) {
    (lo.Some? ==> !Less(key, lo.value)) && (hi.Some? ==> Less(key, hi.value))
  }

  lemma RangeIndices(f: seq<Pair>, lo: Option<Key>, hi: Option<Key>)
    requires Sorted(f)
    ensures var from := if lo.None? then 0 else Rank(f, lo.value);
            var to := if hi.None? then |f| else Rank(f, hi.value);
            forall i :: 0 <= i < |f| ==> (InRange(f[i].0, lo, hi) <==> from <= i < to)
  {
    hide Less, Rank, Sorted;
    forall i | 0 <= i < |f|
      ensures lo.Some? ==> (Less(f[i].0, lo.value) <==> i < Rank(f, lo.value))
      ensures hi.Some? ==> (Less(f[i].0, hi.value) <==> i < Rank(f, hi.value))
    {
      if lo.Some? {
        BelowRank(f, i, lo.value);
      }
      if hi.Some? {
        BelowRank(f, i, hi.value);
      }
    }
  }

  /** The range holds exactly the keys of the map that are in it, in order. */
  lemma RangeIs(f: seq<Pair>, lo: Option<Key>, hi: Option<Key>)
    requires Sorted(f)
    ensures Sorted(RangeOf(f, lo, hi))
    ensures forall p :: p in RangeOf(f, lo, hi) <==> p in f && InRange(p.0, lo, hi)
  {
    hide Less, Rank, InRange;
    RangeIndices(f, lo, hi);
    var from := if lo.None? then 0 else Rank(f, lo.value);
    var to := if hi.None? then |f| else Rank(f, hi.value);
    SliceHolds(f, from, to);
    forall p | p in f ensures InRange(p.0, lo, hi) <==> p in (if from <= to then f[from..to] else []) {
      var i :| 0 <= i < |f| && f[i] == p;
      DistinctKeys(f, i);
    }
  }

  lemma SliceHolds(f: seq<Pair>, from: nat, to: nat)
    requires Sorted(f) && from <= |f| && to <= |f|
    ensures var r := if from <= to then f[from..to] else [];
            && Sorted(r)
            && (forall p :: p in r ==> p in f)
            && (forall i :: from <= i < to ==> f[i] in r)
            && (forall p :: p in r ==> exists i :: from <= i < to && f[i] == p)
  {
    hide Less;
    if from <= to {
      var r := f[from..to];
      forall i | from <= i < to ensures f[i] in r {
        assert r[i - from] == f[i];
      }
      forall p | p in r ensures exists i :: from <= i < to && f[i] == p {
        var i :| 0 <= i < |r| && r[i] == p;
        assert f[i + from] == p;
      }
    }
  }

  lemma DistinctKeys(f: seq<Pair>, i: nat)
    requires Sorted(f) && i < |f|
    ensures forall j :: 0 <= j < |f| && f[j] == f[i] ==> i == j
  {
    hide Less;
    LessIsTotalOrder();
  }

  lemma RangeReached(f: seq<Pair>, from: nat, to: nat, k: nat, limit: int)
    requires from <= k <= |f| && to <= |f| && (k <= to || k == from) && (limit >= 0 ==> k - from <= limit)
    requires k >= to || (limit >= 0 && k - from == limit)
    ensures f[from..k] == Taken(if from <= to then f[from..to] else [], limit)
  {
    if from <= to && k < to {
      assert f[from..to][..limit] == f[from..k];
    }
  }

  /** The next position along the chain. */
  method Step(tree: Btree, p: Pos, ghost k: nat) returns (q: Pos)
    requires tree.Valid() && Stands(tree, p, k) && p.leaf != null
    ensures Stands(tree, q, k + 1)
  {
    hide LeafTrees, FlatAll, Whole;
    StandsAt(tree, p, k);
    ghost var ls := LeafTrees(tree.shape.value);
    ghost var c: nat :| OnLeaf(ls, c, p, k);
    LeafNode(tree, c);
    q := Pos(p.leaf, p.i + 1);
    if q.i >= q.leaf.n {
      q := Pos(q.leaf.next, 0);
      if c + 1 < |ls| {
        LeafNode(tree, c + 1);
        assert OnLeaf(ls, c + 1, q, k + 1);
      }
    } else {
      assert OnLeaf(ls, c, q, k + 1);
    }
  }

  /** The first `limit` keys and values of a range; a negative limit is none. */
  method Range(tree: Btree, lo: Option<Key>, hi: Option<Key>, limit: int) returns (out: seq<Pair>)
    requires tree.Valid()
    ensures out == Taken(RangeOf(tree.Items(), lo, hi), limit)
  {
    hide Whole, Less, Rank, Stands, Sorted, Taken;
    assert allocated(tree.Nodes());
    ghost var f := tree.Items();
    tree.ItemsSorted();
    ghost var k: nat;
    var p;
    p, k := RangeStart(tree, lo);
    ghost var from, to := k, if hi.None? then |f| else Rank(f, hi.value);
    out := [];
    while p.leaf != null && (limit < 0 || |out| < limit)
      invariant from <= k <= |f| && out == f[from..k] && Stands(tree, p, k) && tree.Valid() && tree.Items() == f
      invariant k <= to || k == from
      invariant limit >= 0 ==> |out| <= limit
      decreases |f| - k
    {
      StandsAt(tree, p, k);
      var key := p.leaf.keys[p.i];
      if hi.Some? {
        CompareIsLess(key, hi.value);
        BelowRank(f, k, hi.value);
        if Compare(key, hi.value) >= 0 {
          RangeReached(f, from, to, k, limit);
          return;
        }
      }
      out := out + [(key, p.leaf.vals[p.i])];
      p := Step(tree, p, k);
      k := k + 1;
    }
    StandsAt(tree, p, k);
    RangeReached(f, from, to, k, limit);
  }

  method RangeStart(tree: Btree, lo: Option<Key>) returns (p: Pos, ghost from: nat)
    requires tree.Valid()
    ensures from == (if lo.None? then 0 else Rank(tree.Items(), lo.value)) <= |tree.Items()| && Stands(tree, p, from)
  {
    hide Whole, Less, Rank, Stands;
    assert allocated(tree.Nodes());
    if lo.None? {
      p := First(tree);
      from := 0;
    } else {
      p, from := Seek(tree, lo.value, false);
      RankIs(tree.Items(), from, lo.value);
    }
  }
}
