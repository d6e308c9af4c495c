/** What splitting, joining and replacing subtrees does to a tree: the keys stay in order,
    the leaves at one depth, and nothing is lost. */
module BtreeBalance {
  import opened Common
  import opened BtreeKeys
  import opened BtreeNode
  import opened BtreeShape

  // ---------- trees side by side ----------

  lemma {:induction false} FlatJoin(a: seq<Tree>, b: seq<Tree>)
    ensures FlatAll(a + b) == FlatAll(a) + FlatAll(b)
    ensures LeavesAll(a + b) == LeavesAll(a) + LeavesAll(b)
  {
    if a == [] {
      assert a + b == b;
    } else {
      assert (a + b)[0] == a[0] && (a + b)[1..] == a[1..] + b;
      FlatJoin(a[1..], b);
    }
  }

  lemma FlatOne(t: Tree)
    ensures FlatAll([t]) == Flat(t) && LeavesAll([t]) == Leaves(t)
  {
    assert [t][1..] == [];
  }

  lemma FlatThree(a: seq<Tree>, b: seq<Tree>, c: seq<Tree>)
    ensures FlatAll(a + b + c) == FlatAll(a) + FlatAll(b) + FlatAll(c)
    ensures LeavesAll(a + b + c) == LeavesAll(a) + LeavesAll(b) + LeavesAll(c)
  {
    FlatJoin(a + b, c);
    FlatJoin(a, b);
  }

  lemma FlatAround(ts: seq<Tree>, i: nat)
    requires i < |ts|
    ensures FlatAll(ts) == FlatAll(ts[..i]) + Flat(ts[i]) + FlatAll(ts[i + 1..])
    ensures LeavesAll(ts) == LeavesAll(ts[..i]) + Leaves(ts[i]) + LeavesAll(ts[i + 1..])
  {
    hide Flat, FlatAll, Leaves, LeavesAll;
    SeqAround(ts, i);
    FlatThree(ts[..i], [ts[i]], ts[i + 1..]);
    FlatOne(ts[i]);
  }

  // ---------- order ----------

  lemma SortedJoin(f: seq<Pair>, g: seq<Pair>, lo: Bound, mid: Key, hi: Bound)
    requires Sorted(f) && Within(f, lo, At(mid)) && Sorted(g) && Within(g, At(mid), hi)
    requires Above(lo, mid) && Below(mid, hi)
    ensures Sorted(f + g) && Within(f + g, lo, hi)
  {
    hide Less;
    LessIsTotalOrder();
  }

  /** The keys of a tree are in order and in its limits. */
  lemma {:induction false} GoodIsSorted(t: Tree, h: nat, lo: Bound, hi: Bound)
    requires Good(t, h, lo, hi)
    ensures Sorted(Flat(t)) && Within(Flat(t), lo, hi)
    decreases t, 0
  {
    if t.Inner? {
      assert t.kids[0..|t.kids|] == t.kids;
      RowIsSorted(t.seps, t.kids, h - 1, lo, hi, 0, |t.kids|);
    }
  }

  lemma {:induction false} RowIsSorted(seps: seq<Key>, kids: seq<Tree>, h: nat, lo: Bound, hi: Bound, i: nat, j: nat)
    requires Row(seps, kids, h, lo, hi) && i < j <= |kids|
    ensures Sorted(FlatAll(kids[i..j])) && Within(FlatAll(kids[i..j]), Start(seps, lo, i), End(seps, hi, j - 1))
    decreases kids, j - i
  {
    hide Flat, Sorted, Within;
    GoodIsSorted(kids[i], h, Start(seps, lo, i), End(seps, hi, i));
    if i + 1 < j {
      RowIsSorted(seps, kids, h, lo, hi, i + 1, j);
      assert kids[i..j][1..] == kids[i + 1..j];
      StartAbove(seps, lo, hi, i, j - 1);
      SortedJoin(Flat(kids[i]), FlatAll(kids[i + 1..j]), Start(seps, lo, i), seps[i], End(seps, hi, j - 1));
    } else {
      assert kids[i..j] == [kids[i]];
      FlatOne(kids[i]);
    }
  }

  lemma StartAbove(seps: seq<Key>, lo: Bound, hi: Bound, i: nat, j: nat)
    requires Ascending(seps) && Between(seps, lo, hi) && i < j <= |seps|
    ensures Above(Start(seps, lo, i), seps[i]) && Below(seps[i], End(seps, hi, j))
  {
  }

  /** On either side of the child a key belongs to, the keys are all below it or all above it. */
  lemma RowSides(seps: seq<Key>, kids: seq<Tree>, h: nat, lo: Bound, hi: Bound, i: nat, key: Key)
    requires Row(seps, kids, h, lo, hi) && i < |kids|
    requires From(Start(seps, lo, i), key) && Below(key, End(seps, hi, i))
    ensures AllBelow(FlatAll(kids[..i]), key) && AllAbove(FlatAll(kids[i + 1..]), key)
  {
    hide Flat, Less, Good;
    LessIsTotalOrder();
    if i > 0 {
      RowIsSorted(seps, kids, h, lo, hi, 0, i);
      assert kids[0..i] == kids[..i];
    }
    if i + 1 < |kids| {
      RowIsSorted(seps, kids, h, lo, hi, i + 1, |kids|);
      assert kids[i + 1..|kids|] == kids[i + 1..];
    }
  }

  // ---------- splitting and joining ----------

  /** The first `m` items, or the first `m` separators and what is around them. */
  function Head(t: Tree, m: nat): Tree
    requires m <= Size(t) && Shaped(t)
  {
    if t.Leaf? then Leaf(t.node, t.items[..m]) else Inner(t.node, t.seps[..m], t.kids[..m + 1])
  }

  /** The rest, in a node of its own. */
  function Rest(t: Tree, m: nat, node: Node): Tree
    requires m < Size(t) && Shaped(t)
  {
    if t.Leaf? then Leaf(node, t.items[m..]) else Inner(node, t.seps[m + 1..], t.kids[m + 1..])
  }

  /** The key that separates the two. */
  function Middle(t: Tree, m: nat): Key
    requires m < Size(t)
  {
    if t.Leaf? then t.items[m].0 else t.seps[m]
  }

  /** Two neighbours in one node. */
  function Pool(a: Tree, sep: Key, b: Tree): Tree
    requires a.Leaf? == b.Leaf?
  {
    if a.Leaf? then Leaf(a.node, a.items + b.items) else Inner(a.node, a.seps + [sep] + b.seps, a.kids + b.kids)
  }

  lemma RowOne(t: Tree, h: nat, lo: Bound, hi: Bound)
    ensures Row([], [t], h, lo, hi) <==> Good(t, h, lo, hi)
  {
    hide Good;
    assert [t][0] == t;
  }

  lemma RowTwo(a: Tree, sep: Key, b: Tree, h: nat, lo: Bound, hi: Bound)
    ensures Row([sep], [a, b], h, lo, hi) <==>
            Above(lo, sep) && Below(sep, hi) && Good(a, h, lo, At(sep)) && Good(b, h, At(sep), hi)
  {
    hide Good;
    assert [a, b][0] == a && [a, b][1] == b && [sep][0] == sep;
  }

  lemma SplitLeafGood(items: seq<Pair>, m: nat, lo: Bound, hi: Bound)
    requires Sorted(items) && Within(items, lo, hi) && 0 < m < |items|
    ensures var mid := items[m].0;
            && Above(lo, mid) && Below(mid, hi)
            && Sorted(items[..m]) && Within(items[..m], lo, At(mid))
            && Sorted(items[m..]) && Within(items[m..], At(mid), hi)
  {
    hide Less;
    LessIsTotalOrder();
    assert Less(items[0].0, items[m].0);
  }

  lemma SplitRow(seps: seq<Key>, kids: seq<Tree>, m: nat, h: nat, lo: Bound, hi: Bound)
    requires Row(seps, kids, h, lo, hi) && m < |seps|
    ensures Row(seps[..m], kids[..m + 1], h, lo, At(seps[m]))
    ensures Row(seps[m + 1..], kids[m + 1..], h, At(seps[m]), hi)
  {
    hide Less, Good;
    LessIsTotalOrder();
    var a, b, before, after := seps[..m], seps[m + 1..], kids[..m + 1], kids[m + 1..];
    forall i | 0 <= i < |before| ensures Good(before[i], h, Start(a, lo, i), End(a, At(seps[m]), i)) {
      assert Good(kids[i], h, Start(seps, lo, i), End(seps, hi, i));
    }
    forall i | 0 <= i < |after| ensures Good(after[i], h, Start(b, At(seps[m]), i), End(b, hi, i)) {
      assert Good(kids[i + m + 1], h, Start(seps, lo, i + m + 1), End(seps, hi, i + m + 1));
    }
  }

  lemma JoinRow(a: seq<Key>, left: seq<Tree>, sep: Key, b: seq<Key>, right: seq<Tree>, h: nat, lo: Bound, hi: Bound)
    requires Row(a, left, h, lo, At(sep)) && Row(b, right, h, At(sep), hi)
    requires Above(lo, sep) && Below(sep, hi)
    ensures Row(a + [sep] + b, left + right, h, lo, hi)
  {
    hide Less, Good;
    LessIsTotalOrder();
    var seps, kids := a + [sep] + b, left + right;
    forall i | 0 <= i < |kids| ensures Good(kids[i], h, Start(seps, lo, i), End(seps, hi, i)) {
      if i < |left| {
        assert Good(left[i], h, Start(a, lo, i), End(a, At(sep), i));
      } else {
        var k := i - |left|;
        assert Good(right[k], h, Start(b, At(sep), k), End(b, hi, k));
      }
    }
  }

  lemma SplitGood(t: Tree, m: nat, node: Node, h: nat, lo: Bound, hi: Bound)
    requires Shaped(t) && Good(t, h, lo, hi) && 0 < m < Size(t)
    ensures Row([Middle(t, m)], [Head(t, m), Rest(t, m, node)], h, lo, hi)
    ensures Size(t) == BT_MAX + 1 && m == (BT_MAX + 1) / 2 ==> Fits(Head(t, m)) && Fits(Rest(t, m, node))
  {
    hide Less, Row, Sorted, Within;
    RowTwo(Head(t, m), Middle(t, m), Rest(t, m, node), h, lo, hi);
    if t.Leaf? {
      SplitLeafGood(t.items, m, lo, hi);
    } else {
      SplitRow(t.seps, t.kids, m, h - 1, lo, hi);
      RowSeparator(t.seps, t.kids, m, h - 1, lo, hi);
    }
  }

  lemma RowSeparator(seps: seq<Key>, kids: seq<Tree>, m: nat, h: nat, lo: Bound, hi: Bound)
    requires Row(seps, kids, h, lo, hi) && m < |seps|
    ensures |kids| == |seps| + 1 && Above(lo, seps[m]) && Below(seps[m], hi)
  {
  }

  lemma PoolGood(a: Tree, sep: Key, b: Tree, h: nat, lo: Bound, hi: Bound)
    requires Row([sep], [a, b], h, lo, hi)
    ensures a.Leaf? == b.Leaf? && Good(Pool(a, sep, b), h, lo, hi)
  {
    hide Less, Row, Sorted, Within;
    RowTwo(a, sep, b, h, lo, hi);
    if a.Leaf? {
      SortedJoin(a.items, b.items, lo, sep, hi);
    } else {
      JoinRow(a.seps, a.kids, sep, b.seps, b.kids, h - 1, lo, hi);
    }
  }

  lemma SplitFlat(t: Tree, m: nat, node: Node)
    requires m < Size(t) && Shaped(t)
    ensures Flat(t) == Flat(Head(t, m)) + Flat(Rest(t, m, node))
    ensures Leaves(Head(t, m)) + Leaves(Rest(t, m, node)) == if t.Leaf? then [t.node, node] else Leaves(t)
    ensures Filled(t) ==> Filled(Head(t, m)) && Filled(Rest(t, m, node))
  {
    if t.Inner? {
      assert t.kids == t.kids[..m + 1] + t.kids[m + 1..];
      FlatJoin(t.kids[..m + 1], t.kids[m + 1..]);
    }
  }

  lemma PoolFlat(a: Tree, sep: Key, b: Tree)
    requires a.Leaf? == b.Leaf?
    ensures Flat(Pool(a, sep, b)) == Flat(a) + Flat(b)
    ensures Leaves(a) + Leaves(b) == if a.Leaf? then [a.node, b.node] else Leaves(Pool(a, sep, b))
    ensures Filled(a) && Filled(b) ==> Filled(Pool(a, sep, b))
  {
    if a.Inner? {
      FlatJoin(a.kids, b.kids);
    }
  }

  // ---------- replacing children ----------

  /** The separators once those between `p` children from `i` on have been replaced. */
  function SplicedSeps(seps: seq<Key>, i: nat, p: nat, ms: seq<Key>): seq<Key>
    requires 0 < p && i + p <= |seps| + 1
  {
    seps[..i] + ms + seps[i + p - 1..]
  }

  function SplicedKids(kids: seq<Tree>, i: nat, p: nat, ts: seq<Tree>): seq<Tree>
    requires i + p <= |kids|
  {
    kids[..i] + ts + kids[i + p..]
  }

  /** Children can be replaced by any that are in order within the same limits. */
  lemma SpliceSeps(seps: seq<Key>, i: nat, p: nat, ms: seq<Key>, lo: Bound, hi: Bound)
    requires 0 < p && i + p <= |seps| + 1 && Ascending(seps) && Between(seps, lo, hi)
    requires Ascending(ms) && Between(ms, Start(seps, lo, i), End(seps, hi, i + p - 1))
    ensures Ascending(SplicedSeps(seps, i, p, ms)) && Between(SplicedSeps(seps, i, p, ms), lo, hi)
  {
    hide Less;
    LessIsTotalOrder();
  }

  lemma SpliceRow(seps: seq<Key>, kids: seq<Tree>, i: nat, p: nat, ms: seq<Key>, ts: seq<Tree>, h: nat, lo: Bound, hi: Bound)
    requires |kids| == |seps| + 1 && 0 < p && i + p <= |kids| && Row(seps, kids, h, lo, hi)
    requires Row(ms, ts, h, Start(seps, lo, i), End(seps, hi, i + p - 1))
    ensures Row(SplicedSeps(seps, i, p, ms), SplicedKids(kids, i, p, ts), h, lo, hi)
  {
    hide Less, Good, Ascending, Between;
    SpliceSeps(seps, i, p, ms, lo, hi);
    var seps', kids' := SplicedSeps(seps, i, p, ms), SplicedKids(kids, i, p, ts);
    forall k | 0 <= k < |kids'| ensures Good(kids'[k], h, Start(seps', lo, k), End(seps', hi, k)) {
      if k < i {
        assert Good(kids[k], h, Start(seps, lo, k), End(seps, hi, k));
      } else if k < i + |ts| {
        var q := k - i;
        assert Good(ts[q], h, Start(ms, Start(seps, lo, i), q), End(ms, End(seps, hi, i + p - 1), q));
      } else {
        var q := k - |ts| + p;
        assert Good(kids[q], h, Start(seps, lo, q), End(seps, hi, q));
      }
    }
  }

  lemma SpliceFlat(kids: seq<Tree>, i: nat, p: nat, ts: seq<Tree>)
    requires i + p <= |kids|
    ensures FlatAll(SplicedKids(kids, i, p, ts)) == FlatAll(kids[..i]) + FlatAll(ts) + FlatAll(kids[i + p..])
    ensures LeavesAll(SplicedKids(kids, i, p, ts)) == LeavesAll(kids[..i]) + LeavesAll(ts) + LeavesAll(kids[i + p..])
    ensures FlatAll(kids) == FlatAll(kids[..i]) + FlatAll(kids[i..i + p]) + FlatAll(kids[i + p..])
    ensures LeavesAll(kids) == LeavesAll(kids[..i]) + LeavesAll(kids[i..i + p]) + LeavesAll(kids[i + p..])
  {
    hide FlatAll, LeavesAll;
    FlatThree(kids[..i], ts, kids[i + p..]);
    FlatThree(kids[..i], kids[i..i + p], kids[i + p..]);
    assert kids == kids[..i] + kids[i..i + p] + kids[i + p..];
  }

  lemma NodesJoin(a: seq<Tree>, b: seq<Tree>)
    ensures NodesAll(a + b) == NodesAll(a) + NodesAll(b)
    ensures DistinctAll(a + b) <==> DistinctAll(a) && DistinctAll(b) && NodesAll(a) !! NodesAll(b)
  {
    hide NodesOf, Distinct;
    forall x | x in NodesAll(a) + NodesAll(b) ensures x in NodesAll(a + b) {
      if x in NodesAll(a) {
        var i :| 0 <= i < |a| && x in NodesOf(a[i]);
        assert (a + b)[i] == a[i];
      } else {
        var i :| 0 <= i < |b| && x in NodesOf(b[i]);
        assert (a + b)[|a| + i] == b[i];
      }
    }
    DistinctHalves(a, b);
    if DistinctAll(a) && DistinctAll(b) && NodesAll(a) !! NodesAll(b) {
      forall i, j | 0 <= i < j < |a + b| ensures NodesOf((a + b)[i]) !! NodesOf((a + b)[j]) {
        if i < |a| <= j {
          assert NodesOf(a[i]) <= NodesAll(a) && NodesOf(b[j - |a|]) <= NodesAll(b);
        }
      }
    }
  }

  lemma DistinctHalves(a: seq<Tree>, b: seq<Tree>)
    ensures DistinctAll(a + b) ==> DistinctAll(a) && DistinctAll(b) && NodesAll(a) !! NodesAll(b)
  {
    hide NodesOf, Distinct;
    if DistinctAll(a + b) {
      forall i | 0 <= i < |a| ensures Distinct(a[i]) {
        assert (a + b)[i] == a[i];
      }
      forall i | 0 <= i < |b| ensures Distinct(b[i]) {
        assert (a + b)[|a| + i] == b[i];
      }
      forall i, j | 0 <= i < |a| && 0 <= j < |b| ensures NodesOf(a[i]) !! NodesOf(b[j]) {
        assert (a + b)[i] == a[i] && (a + b)[|a| + j] == b[j];
      }
      forall i, j | 0 <= i < j < |a| ensures NodesOf(a[i]) !! NodesOf(a[j]) {
        assert (a + b)[i] == a[i] && (a + b)[j] == a[j];
      }
      forall i, j | 0 <= i < j < |b| ensures NodesOf(b[i]) !! NodesOf(b[j]) {
        assert (a + b)[|a| + i] == b[i] && (a + b)[|a| + j] == b[j];
      }
    }
  }

  lemma NodesThree(a: seq<Tree>, b: seq<Tree>, c: seq<Tree>)
    ensures NodesAll(a + b + c) == NodesAll(a) + NodesAll(b) + NodesAll(c)
    ensures DistinctAll(a + b + c) <==>
            && DistinctAll(a) && DistinctAll(b) && DistinctAll(c)
            && NodesAll(a) !! NodesAll(b) && NodesAll(a) !! NodesAll(c) && NodesAll(b) !! NodesAll(c)
  {
    hide NodesAll, DistinctAll;
    NodesJoin(a + b, c);
    NodesJoin(a, b);
  }

  /** No node gets into two places when the new ones come from the old ones or from nowhere. */
  lemma SpliceDistinct(t: Tree, i: nat, p: nat, ts: seq<Tree>, seps: seq<Key>)
    requires t.Inner? && Distinct(t) && i + p <= |t.kids| && DistinctAll(ts)
    requires NodesAll(ts) * NodesOf(t) <= NodesAll(t.kids[i..i + p])
    ensures var t' := Inner(t.node, seps, SplicedKids(t.kids, i, p, ts));
            Distinct(t') && NodesOf(t') <= NodesOf(t) + NodesAll(ts)
  {
    hide NodesAll, DistinctAll;
    NodesThree(t.kids[..i], ts, t.kids[i + p..]);
    NodesThree(t.kids[..i], t.kids[i..i + p], t.kids[i + p..]);
    assert t.kids == t.kids[..i] + t.kids[i..i + p] + t.kids[i + p..];
  }

  lemma NodesOne(t: Tree)
    ensures NodesAll([t]) == NodesOf(t)
    ensures DistinctAll([t]) <==> Distinct(t)
  {
    assert [t][0] == t;
  }

  lemma NodesTwo(a: Tree, b: Tree)
    ensures NodesAll([a, b]) == NodesOf(a) + NodesOf(b)
    ensures DistinctAll([a, b]) <==> Distinct(a) && Distinct(b) && NodesOf(a) !! NodesOf(b)
  {
    hide NodesOf, NodesAll, Distinct, DistinctAll;
    NodesJoin([a], [b]);
    NodesOne(a);
    NodesOne(b);
    assert [a] + [b] == [a, b];
  }

  lemma SplitDistinct(t: Tree, m: nat, node: Node)
    requires Shaped(t) && m < Size(t) && Distinct(t) && node !in NodesOf(t)
    ensures DistinctAll([Head(t, m), Rest(t, m, node)])
    ensures NodesAll([Head(t, m), Rest(t, m, node)]) == NodesOf(t) + {node}
  {
    hide NodesAll, DistinctAll;
    NodesTwo(Head(t, m), Rest(t, m, node));
    if t.Inner? {
      assert t.kids == t.kids[..m + 1] + t.kids[m + 1..];
      NodesJoin(t.kids[..m + 1], t.kids[m + 1..]);
    }
  }

  lemma PoolDistinct(a: Tree, sep: Key, b: Tree)
    requires a.Leaf? == b.Leaf? && DistinctAll([a, b])
    ensures Distinct(Pool(a, sep, b)) && b.node !in NodesOf(Pool(a, sep, b))
    ensures NodesOf(Pool(a, sep, b)) + {b.node} == NodesAll([a, b])
  {
    hide NodesAll, DistinctAll;
    NodesTwo(a, b);
    if a.Inner? {
      NodesJoin(a.kids, b.kids);
    }
  }
}
