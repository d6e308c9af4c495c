/** What inserting leaves: the tree, or two halves of it. */
module BtreeGrow {
  import opened BtreeKeys
  import opened BtreeNode
  import opened BtreeShape
  import opened BtreeBalance
  import opened BtreeChain

  lemma LeafSorted(t: Tree, h: nat, lo: Bound, hi: Bound)
    requires t.Leaf? && Good(t, h, lo, hi)
    ensures Sorted(t.items)
  {
  }

  // ---------- growing ----------

  /** What an insert leaves where the tree `t` was: the tree, or two halves of it. */
  predicate Grew(t: Tree, ms: seq<Key>, ts: seq<Tree>, h: nat, lo: Bound, hi: Bound) {
    && 0 < |ts| <= 2
    && Row(ms, ts, h, lo, hi) && DistinctAll(ts) && ts[0].node == t.node
    && (forall i :: 0 <= i < |ts| ==> Filled(ts[i]))
    && (if |ts| == 1 then Size(t) <= Size(ts[0]) <= BT_MAX else Fits(ts[0]) && Fits(ts[1]))
  }

  lemma GrewWhole(t: Tree, t2: Tree, h: nat, lo: Bound, hi: Bound)
    requires Good(t2, h, lo, hi) && Distinct(t2) && Filled(t2) && t2.node == t.node
    requires Size(t) <= Size(t2) <= BT_MAX
    ensures Grew(t, [], [t2], h, lo, hi)
    ensures NodesAll([t2]) == NodesOf(t2) && FlatAll([t2]) == Flat(t2) && LeavesAll([t2]) == Leaves(t2)
  {
    hide Good, Row, Distinct, DistinctAll, Filled, NodesOf, NodesAll, FlatAll, LeavesAll;
    RowOne(t2, h, lo, hi);
    NodesOne(t2);
    FlatOne(t2);
    assert [t2][0] == t2;
  }

  lemma GrewTwo(t: Tree, t2: Tree, r: Node, h: nat, lo: Bound, hi: Bound)
    requires Good(t2, h, lo, hi) && Distinct(t2) && Filled(t2) && t2.node == t.node && Shaped(t2)
    requires Size(t2) == BT_MAX + 1 && r !in NodesOf(t2)
    ensures var half := (BT_MAX + 1) / 2;
            var ts := [Head(t2, half), Rest(t2, half, r)];
            && Grew(t, [Middle(t2, half)], ts, h, lo, hi)
            && NodesAll(ts) == NodesOf(t2) + {r} && FlatAll(ts) == Flat(t2)
            && LeavesAll(ts) == (if t2.Leaf? then [t2.node, r] else Leaves(t2))
  {
    hide Good, Row, Distinct, DistinctAll, Filled, NodesOf, NodesAll, Flat, FlatAll, Leaves, LeavesAll;
    var half := (BT_MAX + 1) / 2;
    var a, b := Head(t2, half), Rest(t2, half, r);
    SplitGood(t2, half, r, h, lo, hi);
    SplitDistinct(t2, half, r);
    SplitFlat(t2, half, r);
    FlatJoin([a], [b]);
    FlatOne(a);
    FlatOne(b);
    assert [a] + [b] == [a, b];
  }

  lemma GrewParts(t: Tree, ms: seq<Key>, ts: seq<Tree>, h: nat, lo: Bound, hi: Bound)
    requires Grew(t, ms, ts, h, lo, hi)
    ensures |ts| == |ms| + 1 && ts[0].node == t.node && DistinctAll(ts)
  {
  }

  /** Setting a key of a leaf, or adding it, keeps the leaf in order. */
  lemma PutItems(node: Node, items: seq<Pair>, key: Key, value: Value, h: nat, lo: Bound, hi: Bound)
    requires Good(Leaf(node, items), h, lo, hi) && From(lo, key) && Below(key, hi)
    ensures Good(Leaf(node, Updated(items, key, value)), h, lo, hi)
    ensures |items| <= |Updated(items, key, value)| <= |items| + 1
  {
    hide Rank, Less;
    PutSorted(items, key, value);
  }

  /** Where a key is in a leaf, or would go. */
  lemma RankInLeaf(node: Node, items: seq<Pair>, c: nat, key: Key)
    requires node.HasItems(items) && c <= node.n
    requires forall i :: 0 <= i < c ==> Less(node.keys[i], key)
    requires forall i :: c <= i < node.n ==> !Less(node.keys[i], key)
    ensures c == Rank(items, key)
  {
    hide Less, Rank;
    RankIs(items, c, key);
  }

  lemma KeysAscend(node: Node, items: seq<Pair>)
    requires node.HasItems(items) && Sorted(items)
    ensures Ascending(node.keys[..node.n])
  {
    hide Less;
  }

  lemma GrewKidGood(t: Tree, i: nat, ms: seq<Key>, ts: seq<Tree>, h: nat, lo: Bound, hi: Bound)
    requires t.Inner? && Shaped(t) && Good(t, h, lo, hi) && Filled(t) && i < |t.kids| && h > 0
    requires Grew(t.kids[i], ms, ts, h - 1, Start(t.seps, lo, i), End(t.seps, hi, i))
    ensures var t2 := WithKid(t, i, ms, ts); Good(t2, h, lo, hi) && Filled(t2)
  {
    hide Row, Less;
    SpliceRow(t.seps, t.kids, i, 1, ms, ts, h - 1, lo, hi);
    var t2 := WithKid(t, i, ms, ts);
    assert Fits(t.kids[i]);
    forall k | 0 <= k < |t2.kids| ensures Fits(t2.kids[k]) && Filled(t2.kids[k]) {
      if i <= k < i + |ts| {
        assert t2.kids[k] == ts[k - i];
      } else {
        var q := if k < i then k else k - |ts| + 1;
        assert t2.kids[k] == t.kids[q];
      }
    }
  }

  lemma KidGrew(t: Tree, i: nat, ms: seq<Key>, ts: seq<Tree>, key: Key, value: Value, h: nat, lo: Bound, hi: Bound)
    requires t.Inner? && Shaped(t) && Good(t, h, lo, hi) && Distinct(t) && Filled(t) && i < |t.kids| && h > 0
    requires From(Start(t.seps, lo, i), key) && Below(key, End(t.seps, hi, i))
    requires Grew(t.kids[i], ms, ts, h - 1, Start(t.seps, lo, i), End(t.seps, hi, i))
    requires NodesAll(ts) * NodesOf(t) <= NodesOf(t.kids[i])
    requires FlatAll(ts) == Updated(Flat(t.kids[i]), key, value)
    ensures var t2 := WithKid(t, i, ms, ts);
            && Distinct(t2) && Good(t2, h, lo, hi) && Filled(t2) && NodesOf(t2) <= NodesOf(t) + NodesAll(ts)
            && Flat(t2) == Updated(Flat(t), key, value)
            && |Flat(t2)| - |Flat(t)| == |FlatAll(ts)| - |Flat(t.kids[i])|
  {
    hide Good, Row, Filled, Distinct, Flat, FlatAll, LeavesAll, NodesAll, Updated, Removed, Grew;
    GrewParts(t.kids[i], ms, ts, h - 1, Start(t.seps, lo, i), End(t.seps, hi, i));
    GrewKidGood(t, i, ms, ts, h, lo, hi);
    WithKidNodes(t, i, ms, ts);
    WithKidFlat(t, i, ms, ts);
    PutBelow(t, i, ms, ts, key, value, h, lo, hi);
  }
}
