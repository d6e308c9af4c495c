/** The tree: a map kept in leaves of limited size, all at one depth and linked in key order. */
module Btree {
  import opened Common
  import opened BtreeKeys
  import opened BtreeNode
  import opened BtreeShape
  import opened BtreeBalance
  import opened BtreeChain
  import opened BtreeGrow
  import opened BtreeFix

  // ---------- shrinking ----------

  /** What a delete leaves where the tree `t` was. */
  predicate Shrank(t: Tree, t2: Tree, key: Key, h: nat, lo: Bound, hi: Bound) {
    && Good(t2, h, lo, hi) && Distinct(t2) && Filled(t2) && t2.node == t.node
    && NodesOf(t2) <= NodesOf(t) && Size(t) - 1 <= Size(t2) <= Size(t)
    && Flat(t2) == Removed(Flat(t), key)
  }

  predicate HasKey(t: Tree, key: Key) {
    FoundAt(Flat(t), Rank(Flat(t), key), key)
  }

  lemma RemoveItems(node: Node, items: seq<Pair>, key: Key, h: nat, lo: Bound, hi: Bound)
    requires Good(Leaf(node, items), h, lo, hi)
    ensures Shrank(Leaf(node, items), Leaf(node, Removed(items, key)), key, h, lo, hi)
  {
    hide Rank, Less;
    PutSorted(items, key, Null);
  }

  /** The tree with one child that has shrunk. */
  function WithLess(t: Tree, i: nat, kid: Tree): Tree
    requires t.Inner? && Shaped(t) && i < |t.kids|
  {
    WithKid(t, i, [], [kid])
  }

  lemma WithLessIs(t: Tree, i: nat, kid: Tree)
    requires t.Inner? && Shaped(t) && i < |t.kids|
    ensures WithLess(t, i, kid) == Inner(t.node, t.seps, t.kids[i := kid])
    ensures kid == t.kids[i] ==> WithLess(t, i, kid) == t
  {
    assert SplicedSeps(t.seps, i, 1, []) == t.seps;
    assert SplicedKids(t.kids, i, 1, [kid]) == t.kids[i := kid];
    assert t.kids[i := t.kids[i]] == t.kids;
  }

  lemma KidShrank(t: Tree, i: nat, kid: Tree, key: Key, h: nat, lo: Bound, hi: Bound)
    requires t.Inner? && Shaped(t) && Good(t, h, lo, hi) && Distinct(t) && Filled(t) && i < |t.kids| && h > 0
    requires From(Start(t.seps, lo, i), key) && Below(key, End(t.seps, hi, i))
    requires Shrank(t.kids[i], kid, key, h - 1, Start(t.seps, lo, i), End(t.seps, hi, i))
    ensures var t2 := WithLess(t, i, kid);
            && Good(t2, h, lo, hi) && Distinct(t2) && NodesOf(t2) <= NodesOf(t) && Flat(t2) == Removed(Flat(t), key)
            && |Flat(t2)| - |Flat(t)| == |Flat(kid)| - |Flat(t.kids[i])|
            && (if Size(kid) < BT_MIN then Lacking(t2, i) else Filled(t2) && Shrank(t, t2, key, h, lo, hi))
  {
    hide Good, Row, Distinct, DistinctAll, NodesOf, NodesAll, Flat, FlatAll, LeavesAll, Updated, Removed;
    RowKid(t, i, h, lo, hi);
    WithLessIs(t, i, kid);
    RowOne(kid, h - 1, Start(t.seps, lo, i), End(t.seps, hi, i));
    NodesOne(kid);
    FlatOne(kid);
    WithLessGood(t, i, kid, h, lo, hi);
    WithKidNodes(t, i, [], [kid]);
    KidInside(t, i);
    WithKidFlat(t, i, [], [kid]);
    PutBelow(t, i, [], [kid], key, Null, h, lo, hi);
  }

  lemma WithLessGood(t: Tree, i: nat, kid: Tree, h: nat, lo: Bound, hi: Bound)
    requires t.Inner? && Shaped(t) && Good(t, h, lo, hi) && i < |t.kids| && h > 0
    requires Good(kid, h - 1, Start(t.seps, lo, i), End(t.seps, hi, i))
    ensures Good(WithLess(t, i, kid), h, lo, hi)
  {
    hide Row;
    RowOne(kid, h - 1, Start(t.seps, lo, i), End(t.seps, hi, i));
    SpliceRow(t.seps, t.kids, i, 1, [], [kid], h - 1, lo, hi);
  }

  lemma KidInside(t: Tree, i: nat)
    requires t.Inner? && i < |t.kids|
    ensures NodesOf(t.kids[i]) <= NodesOf(t)
  {
  }

  /** The key is in the child it belongs to, if it is anywhere. */
  lemma HasBelow(t: Tree, i: nat, key: Key, h: nat, lo: Bound, hi: Bound)
    requires t.Inner? && Shaped(t) && Good(t, h, lo, hi) && i < |t.kids|
    requires From(Start(t.seps, lo, i), key) && Below(key, End(t.seps, hi, i))
    ensures HasKey(t, key) <==> HasKey(t.kids[i], key)
  {
    hide Flat, FlatAll, Row, Rank, FoundAt, Less;
    WithKidFlat(t, i, [], []);
    RowSides(t.seps, t.kids, h - 1, lo, hi, i, key);
    FoundWithin(FlatAll(t.kids[..i]), Flat(t.kids[i]), FlatAll(t.kids[i + 1..]), key);
  }

  lemma SameShrank(t: Tree, key: Key, h: nat, lo: Bound, hi: Bound)
    requires Good(t, h, lo, hi) && Distinct(t) && Filled(t)
    ensures !HasKey(t, key) ==> Shrank(t, t, key, h, lo, hi)
  {
    hide Good, Distinct, Filled, NodesOf, Rank, Flat;
  }

  lemma MendedShrank(t: Tree, t1: Tree, t2: Tree, key: Key, h: nat, lo: Bound, hi: Bound)
    requires MendedTo(t1, t2, h, lo, hi) && Flat(t1) == Removed(Flat(t), key)
    requires t1.node == t.node && Size(t1) == Size(t) && NodesOf(t1) <= NodesOf(t)
    ensures Shrank(t, t2, key, h, lo, hi) && Flat(t2) == Flat(t1)
  {
    hide Good, Distinct, Filled, NodesOf, Rank, Flat;
  }

  lemma ShrankNode(t: Tree, t2: Tree, key: Key, h: nat, lo: Bound, hi: Bound)
    requires Shrank(t, t2, key, h, lo, hi)
    ensures t2.node == t.node && Size(t) - 1 <= Size(t2) <= Size(t) && NodesOf(t2) <= NodesOf(t)
  {
  }

  lemma RepresentsLess(t: Tree, i: nat, kid: Tree)
    requires t.Inner? && Shaped(t) && i < |t.kids| && t.node.HasKids(t.seps, Roots(t.kids)) && kid.node == t.kids[i].node
    requires RepresentsAll(t.kids[..i]) && Represents(kid) && RepresentsAll(t.kids[i + 1..])
    ensures Represents(WithLess(t, i, kid))
    ensures t.node.HasKids(t.seps, Roots(WithLess(t, i, kid).kids))
  {
    hide RepresentsAll;
    RepresentsOne(kid);
    RepresentsThree(t.kids[..i], [kid], t.kids[i + 1..]);
    var t2 := WithLess(t, i, kid);
    assert t2.seps == t.seps && Roots(t2.kids) == Roots(t.kids);
  }

  /** The leaves of a whole tree are the whole chain. */
  ghost predicate LeavesLinked(t: Tree)
    reads NodesOf(t)
  {
    LeavesAreAll(t);
    Chain(Leaves(t))
  }

  ghost predicate Whole(t: Tree, h: nat)
    reads NodesOf(t)
  {
    && Represents(t) && Distinct(t) && Good(t, h, Open, Open) && Filled(t)
    && Size(t) <= BT_MAX && LeavesLinked(t)
  }

  lemma WholeLinked(t: Tree, h: nat)
    requires Whole(t, h)
    ensures Linked([], t, [])
  {
    assert [] + Leaves(t) + [] == Leaves(t);
    LinkedStill([], t, t, []);
  }

  lemma LeavesAreAll(t: Tree)
    ensures forall x :: x in Leaves(t) ==> x in NodesOf(t)
  {
    forall x | x in Leaves(t) ensures x in NodesOf(t) {
      LeavesAreNodes(t, x);
    }
  }

  lemma GrewSize(t: Tree, ms: seq<Key>, ts: seq<Tree>, h: nat)
    requires Grew(t, ms, ts, h, Open, Open)
    ensures 0 < |ts| <= 2 && ts[0].node == t.node
  {
  }

  lemma GrewOne(t: Tree, ms: seq<Key>, ts: seq<Tree>, h: nat)
    requires Grew(t, ms, ts, h, Open, Open) && |ts| == 1 && RepresentsAll(ts) && Chain(LeavesAll(ts))
    requires Good(t, h, Open, Open) && (Size(t) > 0 || (t.Leaf? && |FlatAll(ts)| > 0))
    ensures Whole(ts[0], h) && Size(ts[0]) > 0
    ensures FlatAll(ts) == Flat(ts[0]) && NodesAll(ts) == NodesOf(ts[0])
  {
    assert ts == [ts[0]] && ms == [];
    RowOne(ts[0], h, Open, Open);
    FlatOne(ts[0]);
    NodesOne(ts[0]);
  }

  lemma UpdatedHasOne(f: seq<Pair>, key: Key, value: Value)
    ensures |Updated(f, key, value)| > 0
  {
    hide Rank;
  }

  lemma EmptyLeaf(node: Node)
    requires node.HasItems([]) && node.next == null && node.prev == null
    ensures Whole(Leaf(node, []), 0) && NodesOf(Leaf(node, [])) == {node} && Flat(Leaf(node, [])) == []
  {
  }

  lemma ShrankWhole(t: Tree, t2: Tree, key: Key, h: nat)
    requires Shrank(t, t2, key, h, Open, Open) && Represents(t2) && Chain([] + Leaves(t2) + []) && Size(t) <= BT_MAX
    ensures Whole(t2, h) && Flat(t2) == Removed(Flat(t), key) && NodesOf(t2) <= NodesOf(t)
    ensures t2.node == t.node && t2.node.n == Size(t2) && t2.Leaf? == t2.node.leaf
    ensures t2.Leaf? && Size(t2) == 0 ==> Flat(t2) == []
  {
    assert [] + Leaves(t2) + [] == Leaves(t2);
  }

  /** A root with a single child is not needed. */
  lemma OnlyChild(t: Tree, h: nat)
    requires t.Inner? && Size(t) == 0 && Whole(t, h)
    ensures h > 0 && |t.kids| == 1 && |t.node.kids| > 0 && t.node.kids[0] == t.kids[0].node
    ensures Whole(t.kids[0], h - 1) && Size(t.kids[0]) > 0
    ensures Flat(t.kids[0]) == Flat(t) && NodesOf(t.kids[0]) <= NodesOf(t)
  {
    hide Leaves, Flat;
    var kid := t.kids[0];
    assert t.seps == [] && t.kids == [kid];
    assert Roots(t.kids)[0] == kid.node;
    RepresentsOne(kid);
    assert Fits(t.kids[0]);
    RowOne(kid, h - 1, Open, Open);
    NodesOne(kid);
    OnlyChildFlat(t);
  }

  lemma OnlyChildFlat(t: Tree)
    requires t.Inner? && |t.kids| == 1
    ensures Flat(t.kids[0]) == Flat(t) && Leaves(t.kids[0]) == Leaves(t)
  {
    assert t.kids == [t.kids[0]];
    FlatOne(t.kids[0]);
  }

  lemma GrewRoot(top: Node, t: Tree, sep: Key, ts: seq<Tree>, h: nat)
    requires Grew(t, [sep], ts, h, Open, Open) && |ts| == 2 && RepresentsAll(ts) && Chain(LeavesAll(ts))
    requires top !in NodesAll(ts) && top.HasKids([sep], Roots(ts))
    ensures var t2 := Inner(top, [sep], ts);
            Whole(t2, h + 1) && Flat(t2) == FlatAll(ts) && NodesOf(t2) == NodesAll(ts) + {top}
  {
    hide Row, NodesAll, RepresentsAll, LeavesAll, DistinctAll;
    var t2 := Inner(top, [sep], ts);
    assert forall i :: 0 <= i < |ts| ==> Fits(ts[i]) && Filled(ts[i]);
  }

  class Btree {
    var root: Node?
    var count: nat

    ghost var shape: Option<Tree>
    ghost var height: nat

    constructor ()
      ensures Valid() && fresh(Nodes()) && Contents() == map[]
    {
      root, count, shape := null, 0, None;
    }

    ghost function Nodes(): set<Node>
      reads `shape
    {
      if shape.None? then {} else NodesOf(shape.value)
    }

    /** All the keys and values, in key order. */
    ghost function Items(): seq<Pair>
      reads `shape
    {
      if shape.None? then [] else Flat(shape.value)
    }

    /** The nodes make up a tree in order, of one depth, every node but the root at least half
        full, the leaves linked in order. */
    ghost predicate Valid()
      reads this, Nodes()
    {
      && count == |Items()|
      && if shape.None? then root == null
         else
           var t := shape.value;
           root == t.node && Whole(t, height) && Size(t) > 0
    }

    /** The map that the tree stands for. */
    ghost function Contents(): map<Key, Value>
      requires Valid()
      reads this, Nodes()
    {
      ItemsSorted();
      ToMap(Items())
    }

    lemma ItemsSorted()
      requires Valid()
      ensures Sorted(Items())
    {
      if shape.Some? {
        GoodIsSorted(shape.value, height, Open, Open);
      }
    }

    /** Sets a key of a leaf, or adds it; a leaf that has become too big is split. */
    method InsertItem(node: Node, key: Key, value: Value,
                      ghost t: Tree, ghost h: nat, ghost lo: Bound, ghost hi: Bound,
                      ghost before: seq<Node>, ghost after: seq<Node>)
      returns (right: Node?, sep: Key, ghost ms: seq<Key>, ghost ts: seq<Tree>, ghost born: set<Node>)
      requires node.leaf && t.node == node && Represents(t) && Distinct(t) && Good(t, h, lo, hi) && Filled(t) && Size(t) <= BT_MAX
      requires From(lo, key) && Below(key, hi) && Linked(before, t, after)
      modifies `count, NodesOf(t), after`prev
      ensures Grew(t, ms, ts, h, lo, hi) && RepresentsAll(ts) && fresh(born) && NodesAll(ts) <= NodesOf(t) + born
      ensures |ts| == (if right == null then 1 else 2) && (right != null ==> ts[1].node == right && ms == [sep])
      ensures FlatAll(ts) == Updated(Flat(t), key, value) && Chain(before + LeavesAll(ts) + after)
      ensures count - old(count) == |FlatAll(ts)| - |Flat(t)|
    {
      hide Rank, Less, Good, Row, FlatAll, LeavesAll, NodesAll, DistinctAll, Sorted;
      ghost var t2 := Leaf(node, Updated(t.items, key, value));
      LeafSorted(t, h, lo, hi);
      PutItems(node, t.items, key, value, h, lo, hi);
      PutInLeaf(node, key, value, t.items);
      if node.n <= BT_MAX {
        right, sep, ms, ts, born := null, key, [], [t2], {};
        GrewWhole(t, t2, h, lo, hi);
        RepresentsOne(t2);
        return;
      }
      right, sep, ms, ts, born := SplitLeaf(node, t, t2, h, lo, hi, before, after);
    }

    /** One more item, or a value in place of another. */
    method PutInLeaf(node: Node, key: Key, value: Value, ghost items: seq<Pair>)
      requires node.HasItems(items) && Sorted(items) && node.n <= BT_MAX
      modifies `count, node`n, node`keys, node`vals
      ensures node.HasItems(Updated(items, key, value)) && count - old(count) == node.n - old(node.n)
    {
      hide Rank, Less;
      KeysAscend(node, items);
      var i := node.Lower(key);
      RankInLeaf(node, items, i, key);
      if i < node.n {
        CompareIsLess(node.keys[i], key);
        if Compare(node.keys[i], key) == 0 {
          node.SetValue(i, value, items);
          return;
        }
      }
      node.PutItem(i, key, value, items);
      count := count + 1;
    }

    method SplitLeaf(node: Node, ghost t: Tree, ghost t2: Tree, ghost h: nat, ghost lo: Bound, ghost hi: Bound,
                     ghost before: seq<Node>, ghost after: seq<Node>)
      returns (right: Node, sep: Key, ghost ms: seq<Key>, ghost ts: seq<Tree>, ghost born: set<Node>)
      requires t.Leaf? && t2.Leaf? && t.node == t2.node == node && Represents(t2) && Good(t2, h, lo, hi)
      requires Size(t2) == BT_MAX + 1 && Linked(before, t, after)
      modifies node, after`prev
      ensures Grew(t, ms, ts, h, lo, hi) && RepresentsAll(ts) && fresh(born) && NodesAll(ts) <= NodesOf(t) + born
      ensures |ts| == 2 && ts[1].node == right && ms == [sep]
      ensures FlatAll(ts) == Flat(t2) && Chain(before + LeavesAll(ts) + after)
    {
      hide Rank, Less, Good, Row, FlatAll, LeavesAll, NodesAll, DistinctAll;
      right := new Node(true);
      var half := node.n / 2;
      node.SplitItems(half, right, t2.items);
      LinkAfter(node, right, before, after);
      sep := right.keys[0];
      GrewTwo(t, t2, right, h, lo, hi);
      ms, ts, born := [Middle(t2, half)], [Head(t2, half), Rest(t2, half, right)], {right};
      RepresentsTwo(ts[0], ts[1]);
    }

    /** The node takes in the second half of its child `i`, if that has been split. */
    method TakeRight(node: Node, i: nat, right: Node?, sep: Key, ghost t: Tree, ghost ms: seq<Key>, ghost ts: seq<Tree>)
      requires t.Inner? && Shaped(t) && i < |t.kids| && |t.seps| <= BT_MAX
      requires node == t.node && node.HasKids(t.seps, Roots(t.kids))
      requires |ts| == |ms| + 1 == (if right == null then 1 else 2) && ts[0].node == t.kids[i].node
      requires right != null ==> ts[1].node == right && ms == [sep]
      requires RepresentsAll(t.kids[..i]) && RepresentsAll(ts) && RepresentsAll(t.kids[i + 1..])
      requires Distinct(WithKid(t, i, ms, ts))
      modifies node`n, node`keys, node`kids
      ensures Represents(WithKid(t, i, ms, ts)) && node.n == |t.seps| + |ms|
    {
      hide RepresentsAll, NodesOf, NodesAll, DistinctAll;
      RepresentsThree(t.kids[..i], ts, t.kids[i + 1..]);
      ghost var t2 := WithKid(t, i, ms, ts);
      assert RepresentsAll(t2.kids);
      ghost var below := Roots(t.kids);
      if right == null {
        assert t2.seps == t.seps && Roots(t2.kids) == below;
        return;
      }
      assert allocated(NodesAll(t2.kids));
      node.PutKid(i, sep, right, t.seps, below);
      assert Roots(t2.kids) == below[..i + 1] + [right] + below[i + 1..];
      assert t2.seps == t.seps[..i] + [sep] + t.seps[i..];
      assert RepresentsAll(t2.kids);
    }

    /** An internal node that has become too big is split; its middle key goes up. */
    method SplitInner(node: Node, ghost t: Tree, ghost t2: Tree, ghost h: nat, ghost lo: Bound, ghost hi: Bound)
      returns (right: Node, sep: Key, ghost ms: seq<Key>, ghost ts: seq<Tree>, ghost born: set<Node>)
      requires t2.Inner? && t.node == t2.node == node && Represents(t2) && Good(t2, h, lo, hi) && Filled(t2) && Distinct(t2)
      requires Size(t2) == BT_MAX + 1 && Shaped(t2)
      modifies node`n
      ensures Grew(t, ms, ts, h, lo, hi) && RepresentsAll(ts) && fresh(born) && NodesAll(ts) <= NodesOf(t2) + born
      ensures |ts| == 2 && ts[1].node == right && ms == [sep]
      ensures FlatAll(ts) == Flat(t2) && LeavesAll(ts) == Leaves(t2)
    {
      hide Less, Good, Row, FlatAll, LeavesAll, NodesAll, DistinctAll, RepresentsAll, Roots;
      assert allocated(NodesAll(t2.kids));
      right := new Node(false);
      var half := node.n / 2;
      ghost var a, b := t2.kids[..half + 1], t2.kids[half + 1..];
      assert t2.kids == a + b;
      RepresentsJoin(a, b);
      NodesJoin(a, b);
      sep := node.SplitKids(half, right, t2.seps, Roots(t2.kids));
      GrewTwo(t, t2, right, h, lo, hi);
      ms, ts, born := [Middle(t2, half)], [Head(t2, half), Rest(t2, half, right)], {right};
      RepresentsTwo(ts[0], ts[1]);
    }

    /** Below `node` the key is set as in a map: what comes back is one subtree, or two of which
        `right` is the second and `sep` lies between them. */
    method Insert(node: Node, key: Key, value: Value,
                  ghost t: Tree, ghost h: nat, ghost lo: Bound, ghost hi: Bound,
                  ghost before: seq<Node>, ghost after: seq<Node>)
      returns (right: Node?, sep: Key, ghost ms: seq<Key>, ghost ts: seq<Tree>, ghost born: set<Node>)
      requires t.node == node && Represents(t) && Distinct(t) && Good(t, h, lo, hi) && Filled(t) && Size(t) <= BT_MAX
      requires From(lo, key) && Below(key, hi) && Linked(before, t, after)
      modifies `count, NodesOf(t), after`prev
      ensures Grew(t, ms, ts, h, lo, hi) && RepresentsAll(ts) && fresh(born) && NodesAll(ts) <= NodesOf(t) + born
      ensures |ts| == (if right == null then 1 else 2) && (right != null ==> ts[1].node == right && ms == [sep])
      ensures FlatAll(ts) == Updated(Flat(t), key, value) && Chain(before + LeavesAll(ts) + after)
      ensures count - old(count) == |FlatAll(ts)| - |Flat(t)|
      decreases t, 1
    {
      if node.leaf {
        right, sep, ms, ts, born := InsertItem(node, key, value, t, h, lo, hi, before, after);
      } else {
        right, sep, ms, ts, born := InsertBelow(node, key, value, t, h, lo, hi, before, after);
      }
    }

    method InsertBelow(node: Node, key: Key, value: Value,
                       ghost t: Tree, ghost h: nat, ghost lo: Bound, ghost hi: Bound,
                       ghost before: seq<Node>, ghost after: seq<Node>)
      returns (right: Node?, sep: Key, ghost ms: seq<Key>, ghost ts: seq<Tree>, ghost born: set<Node>)
      requires !node.leaf && t.node == node && Represents(t) && Distinct(t) && Good(t, h, lo, hi) && Filled(t) && Size(t) <= BT_MAX
      requires From(lo, key) && Below(key, hi) && Linked(before, t, after)
      modifies `count, NodesOf(t), after`prev
      ensures Grew(t, ms, ts, h, lo, hi) && RepresentsAll(ts) && fresh(born) && NodesAll(ts) <= NodesOf(t) + born
      ensures |ts| == (if right == null then 1 else 2) && (right != null ==> ts[1].node == right && ms == [sep])
      ensures FlatAll(ts) == Updated(Flat(t), key, value) && Chain(before + LeavesAll(ts) + after)
      ensures count - old(count) == |FlatAll(ts)| - |Flat(t)|
      decreases t, 0
    {
      hide Represents, RepresentsAll, Good, Row, Filled, Distinct, DistinctAll, Flat, FlatAll, LeavesAll, NodesAll, Updated, Chain, NoDup, Linked, Grew;
      var i, kidRight, kidSep;
      ghost var kms, kts;
      i, kidRight, kidSep, kms, kts, born := InsertKid(node, key, value, t, h, lo, hi, before, after);
      ghost var t2 := WithKid(t, i, kms, kts);
      assert allocated(Leaves(t2)) && allocated(NodesOf(t2));
      TakeRight(node, i, kidRight, kidSep, t, kms, kts);
      if node.n <= BT_MAX {
        right, sep, ms, ts := null, key, [], [t2];
        GrewWhole(t, t2, h, lo, hi);
        RepresentsOne(t2);
        return;
      }
      ghost var more;
      right, sep, ms, ts, more := SplitInner(node, t, t2, h, lo, hi);
      born := born + more;
    }

    /** Inserts into the child of `node` that the key belongs to. */
    method InsertKid(node: Node, key: Key, value: Value,
                     ghost t: Tree, ghost h: nat, ghost lo: Bound, ghost hi: Bound,
                     ghost before: seq<Node>, ghost after: seq<Node>)
      returns (i: nat, right: Node?, sep: Key, ghost ms: seq<Key>, ghost ts: seq<Tree>, ghost born: set<Node>)
      requires !node.leaf && t.node == node && Represents(t) && Distinct(t) && Good(t, h, lo, hi) && Filled(t) && Size(t) <= BT_MAX
      requires From(lo, key) && Below(key, hi) && Linked(before, t, after)
      modifies `count, NodesOf(t), after`prev
      ensures t.Inner? && Shaped(t) && i < |t.kids| && node.HasKids(t.seps, Roots(t.kids))
      ensures |ts| == |ms| + 1 == (if right == null then 1 else 2) && ts[0].node == t.kids[i].node
      ensures right != null ==> ts[1].node == right && ms == [sep]
      ensures RepresentsAll(t.kids[..i]) && RepresentsAll(ts) && RepresentsAll(t.kids[i + 1..])
      ensures fresh(born) && NodesAll(ts) <= NodesOf(t) + born
      ensures var t2 := WithKid(t, i, ms, ts);
              && Distinct(t2) && Good(t2, h, lo, hi) && Filled(t2) && NodesOf(t2) <= NodesOf(t) + born
              && Flat(t2) == Updated(Flat(t), key, value) && Chain(before + Leaves(t2) + after)
              && count - old(count) == |Flat(t2)| - |Flat(t)|
      decreases t, 0, 0
    {
      hide Represents, Good, Row, Filled, Distinct, Flat, FlatAll, LeavesAll, Updated, Removed, Chain, NoDup, Linked, Grew;
      KindOf(t);
      InnerParts(t, h, lo, hi);
      assert allocated(NodesOf(t)) && allocated(Leaves(t));
      i := KidFor(node, key, t, h, lo, hi);
      ghost var kid, a, b := t.kids[i], t.kids[..i], t.kids[i + 1..];
      RowKid(t, i, h, lo, hi);
      KidsApart(t, i);
      LinkedKid(before, t, after, i);
      RepresentsAround(t.kids, i);
      right, sep, ms, ts, born := Insert(node.kids[i], key, value, kid, h - 1, Start(t.seps, lo, i), End(t.seps, hi, i),
                                   before + LeavesAll(a), LeavesAll(b) + after);
      GrewParts(kid, ms, ts, h - 1, Start(t.seps, lo, i), End(t.seps, hi, i));
      KidGrew(t, i, ms, ts, key, value, h, lo, hi);
      LeavesAround(before, t, i, ms, ts, after);
    }

    /** Below `node` just this key is gone, if it was there; the subtree may be one key short. */
    method DeleteFrom(node: Node, key: Key, ghost t: Tree, ghost h: nat, ghost lo: Bound, ghost hi: Bound,
                  ghost before: seq<Node>, ghost after: seq<Node>)
      returns (found: bool, ghost t2: Tree)
      requires t.node == node && Represents(t) && Distinct(t) && Good(t, h, lo, hi) && Filled(t) && (t.Inner? ==> |t.seps| > 0)
      requires From(lo, key) && Below(key, hi) && Linked(before, t, after) && count >= |Flat(t)|
      modifies `count, NodesOf(t), after`prev
      ensures Represents(t2) && Shrank(t, t2, key, h, lo, hi) && Chain(before + Leaves(t2) + after)
      ensures found <==> HasKey(t, key)
      ensures !found ==> t2 == t
      ensures count - old(count) == |Flat(t2)| - |Flat(t)|
      decreases t, 1
    {
      KindOf(t);
      if node.leaf {
        found, t2 := DeleteItem(node, key, t, h, lo, hi);
      } else {
        found, t2 := DeleteBelow(node, key, t, h, lo, hi, before, after);
      }
    }

    method DeleteItem(node: Node, key: Key, ghost t: Tree, ghost h: nat, ghost lo: Bound, ghost hi: Bound)
      returns (found: bool, ghost t2: Tree)
      requires t.Leaf? && t.node == node && Represents(t) && Good(t, h, lo, hi) && count >= |Flat(t)|
      modifies `count, node`n, node`keys, node`vals
      ensures Represents(t2) && Shrank(t, t2, key, h, lo, hi) && t2.Leaf?
      ensures found <==> HasKey(t, key)
      ensures !found ==> t2 == t
      ensures count - old(count) == |Flat(t2)| - |Flat(t)|
    {
      hide Rank, Less;
      KeysAscend(node, t.items);
      var i := node.Lower(key);
      RankInLeaf(node, t.items, i, key);
      RemoveItems(node, t.items, key, h, lo, hi);
      t2 := Leaf(node, Removed(t.items, key));
      if i < node.n {
        CompareIsLess(node.keys[i], key);
      }
      if i >= node.n || Compare(node.keys[i], key) != 0 {
        return false, t2;
      }
      node.DropItem(i, t.items);
      count := count - 1;
      return true, t2;
    }

    method DeleteBelow(node: Node, key: Key, ghost t: Tree, ghost h: nat, ghost lo: Bound, ghost hi: Bound,
                       ghost before: seq<Node>, ghost after: seq<Node>)
      returns (found: bool, ghost t2: Tree)
      requires t.Inner? && t.node == node && Represents(t) && Distinct(t) && Good(t, h, lo, hi) && Filled(t) && |t.seps| > 0
      requires From(lo, key) && Below(key, hi) && Linked(before, t, after) && count >= |Flat(t)|
      modifies `count, NodesOf(t), after`prev
      ensures Represents(t2) && Shrank(t, t2, key, h, lo, hi) && Chain(before + Leaves(t2) + after)
      ensures found <==> HasKey(t, key)
      ensures !found ==> t2 == t
      ensures count - old(count) == |Flat(t2)| - |Flat(t)|
      decreases t, 0
    {
      hide Represents, Good, Filled, Distinct, Flat, Leaves, NodesOf, Removed, Chain, Shrank, HasKey, MendedTo, Lacking;
      var i;
      i, found, t2 := DeleteKid(node, key, t, h, lo, hi, before, after);
      SameShrank(t, key, h, lo, hi);
      if !found {
        return;
      }
      assert node.kids[i] == Roots(t2.kids)[i];
      if node.kids[i].n < BT_MIN {
        ghost var t1 := t2;
        LinkedStill(before, t, t1, after);
        t2 := Fix(node, i, t1, h, lo, hi, before, after);
        MendedShrank(t, t1, t2, key, h, lo, hi);
      }
    }

    /** Deletes from the child of `node` that the key belongs to. */
    method DeleteKid(node: Node, key: Key, ghost t: Tree, ghost h: nat, ghost lo: Bound, ghost hi: Bound,
                     ghost before: seq<Node>, ghost after: seq<Node>)
      returns (i: nat, found: bool, ghost t2: Tree)
      requires t.Inner? && t.node == node && Represents(t) && Distinct(t) && Good(t, h, lo, hi) && Filled(t) && |t.seps| > 0
      requires From(lo, key) && Below(key, hi) && Linked(before, t, after) && count >= |Flat(t)|
      modifies `count, NodesOf(t), after`prev
      ensures Represents(t2) && Chain(before + Leaves(t2) + after) && found == HasKey(t, key) && (!found ==> t2 == t)
      ensures Good(t2, h, lo, hi) && Distinct(t2) && NodesOf(t2) <= NodesOf(t) && Flat(t2) == Removed(Flat(t), key)
      ensures count - old(count) == |Flat(t2)| - |Flat(t)|
      ensures t2.Inner? && t2.node == node && t2.seps == t.seps && i < |t2.kids| && node.HasKids(t2.seps, Roots(t2.kids))
      ensures t2.kids[i].node.n == Size(t2.kids[i])
      ensures if Size(t2.kids[i]) < BT_MIN then Lacking(t2, i) else Shrank(t, t2, key, h, lo, hi)
      decreases t, 0, 0
    {
      hide Represents, Good, Row, Filled, Distinct, Flat, FlatAll, LeavesAll, Updated, Removed, Chain, NoDup, Linked, Shrank, HasKey;
      InnerParts(t, h, lo, hi);
      assert allocated(NodesOf(t)) && allocated(Leaves(t));
      i := KidFor(node, key, t, h, lo, hi);
      ghost var kid, a, b := t.kids[i], t.kids[..i], t.kids[i + 1..];
      RowKid(t, i, h, lo, hi);
      KidsApart(t, i);
      LinkedKid(before, t, after, i);
      WithKidFlat(t, i, [], []);
      RepresentsAround(t.kids, i);
      ghost var kid2;
      found, kid2 := DeleteFrom(node.kids[i], key, kid, h - 1, Start(t.seps, lo, i), End(t.seps, hi, i),
                                before + LeavesAll(a), LeavesAll(b) + after);
      t2 := WithLess(t, i, kid2);
      HasBelow(t, i, key, h, lo, hi);
      KidShrank(t, i, kid2, key, h, lo, hi);
      LeavesAround(before, t, i, [], [kid2], after);
      FlatOne(kid2);
      WithLessIs(t, i, kid2);
      ShrankNode(kid, kid2, key, h - 1, Start(t.seps, lo, i), End(t.seps, hi, i));
      SizeIsN(kid2);
      RepresentsLess(t, i, kid2);
    }

    /** Sets a key; anything but a number or a string is refused. */
    method Put(key: Value, value: Value) returns (ok: bool)
      requires Valid()
      modifies this, Nodes()
      ensures Valid() && fresh(Nodes() - old(Nodes()))
      ensures ok == KeyOk(key)
      ensures Contents() == if ok then old(Contents())[key.key := value] else old(Contents())
      ensures count == |Contents()|
    {
      hide Represents, Distinct, Good, Filled, Flat, Leaves, NodesOf, Chain, Updated, ToMap, Sorted, Whole;
      ItemsSorted();
      if !KeyOk(key) {
        MapSize(Items());
        return false;
      }
      ghost var first: set<Node> := {};
      if root == null {
        root := new Node(true);
        first := {root};
        shape, height := Some(Leaf(root, [])), 0;
        EmptyLeaf(root);
      }
      ok := true;
      ghost var was := Items();
      ghost var born := PutAtRoot(key.key, value);
      PutIsUpdate(was, key.key, value);
      MapSize(Items());
      born := born + first;
      assert fresh(born) && Nodes() - old(Nodes()) <= born;
    }

    method PutAtRoot(key: Key, value: Value) returns (ghost born: set<Node>)
      requires shape.Some? && root == shape.value.node && Whole(shape.value, height) && count == |Items()|
      requires shape.value.Leaf? || Size(shape.value) > 0
      modifies this, Nodes()
      ensures Valid() && Items() == Updated(old(Items()), key, value)
      ensures fresh(born) && Nodes() <= old(Nodes()) + born
    {
      hide Represents, Distinct, Good, Filled, Flat, Leaves, NodesOf, Chain, Updated, Grew, Row, RepresentsAll, NodesAll, FlatAll, LeavesAll, Linked;
      ghost var t, h := shape.value, height;
      WholeLinked(t, h);
      var right, sep;
      ghost var ms, ts;
      right, sep, ms, ts, born := Insert(root, key, value, t, h, Open, Open, [], []);
      GrewSize(t, ms, ts, h);
      UpdatedHasOne(Flat(t), key, value);
      assert [] + LeavesAll(ts) + [] == LeavesAll(ts);
      if right == null {
        GrewOne(t, ms, ts, h);
        shape := Some(ts[0]);
        return;
      }
      assert allocated(NodesAll(ts)) && allocated(LeavesAll(ts));
      var top := NewRoot(root, right, sep, ts);
      root := top;
      GrewRoot(top, t, sep, ts, h);
      shape, height := Some(Inner(top, [sep], ts)), h + 1;
      born := born + {top};
    }

    /** A root above the two halves of the old one. */
    static method NewRoot(left: Node, right: Node, sep: Key, ghost ts: seq<Tree>) returns (top: Node)
      requires |ts| == 2 && ts[0].node == left && ts[1].node == right
      ensures fresh(top) && top.HasKids([sep], Roots(ts))
    {
      top := new Node(false);
      top.n := 1;
      top.keys := top.keys[0 := sep];
      top.kids := top.kids[0 := left][1 := right];
      assert top.keys[..1] == [sep] && Roots(ts) == [left, right];
    }

    /** Takes a key away: says whether it was there. */
    method Delete(key: Value) returns (found: bool)
      requires Valid()
      modifies this, Nodes()
      ensures Valid() && Nodes() <= old(Nodes())
      ensures found == (KeyOk(key) && key.key in old(Contents()))
      ensures Contents() == if found then old(Contents()) - {key.key} else old(Contents())
      ensures count == |Contents()|
    {
      hide Valid, Contents, Items, Nodes, Removed, ToMap, Sorted, FoundAt, Rank;
      AsMap();
      if root == null || !KeyOk(key) {
        return false;
      }
      InMap(Items(), key.key);
      RemoveIsRemoval(Items(), key.key);
      found := DeleteAtRoot(key.key);
      AsMap();
    }

    lemma AsMap()
      requires Valid()
      ensures Sorted(Items()) && Contents() == ToMap(Items()) && count == |Contents()|
      ensures root == null ==> Contents() == map[]
    {
      hide Represents, Distinct, Good, Filled, Flat, Leaves, NodesOf, Chain, Sorted, Whole;
      ItemsSorted();
      MapSize(Items());
    }

    method DeleteAtRoot(key: Key) returns (found: bool)
      requires Valid() && root != null
      modifies this, Nodes()
      ensures Valid() && Nodes() <= old(Nodes())
      ensures Items() == Removed(old(Items()), key)
      ensures found == FoundAt(old(Items()), Rank(old(Items()), key), key)
    {
      hide Represents, Distinct, Good, Filled, Flat, Leaves, NodesOf, Chain, Removed, Rank, FoundAt, Linked, Shrank;
      ghost var t, h := shape.value, height;
      WholeLinked(t, h);
      var was := root;
      ghost var t2;
      found, t2 := DeleteFrom(was, key, t, h, Open, Open, [], []);
      ShrankWhole(t, t2, key, h);
      shape := Some(t2);
      if !found {
        return;
      }
      if !was.leaf && was.n == 0 {
        OnlyChild(t2, h);
        root := was.kids[0];
        shape, height := Some(t2.kids[0]), h - 1;
      } else if was.leaf && was.n == 0 {
        root := null;
        shape := None;
      }
    }
  }
}
