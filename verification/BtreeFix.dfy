/** Mending a node that a delete has left too small: borrowing from a neighbour, or merging. */
module BtreeFix {
  import opened BtreeKeys
  import opened BtreeNode
  import opened BtreeShape
  import opened BtreeBalance
  import opened BtreeChain

  // ---------- two neighbours ----------

  /** Moving one from the end of `a` to the front of `b` splits what the two hold elsewhere. */
  lemma ShiftedRight(a: Tree, sep: Key, b: Tree)
    requires a.Leaf? == b.Leaf? && Shaped(a) && Shaped(b) && Size(a) > 0
    ensures Size(a) - 1 < Size(Pool(a, sep, b)) && Shaped(Pool(a, sep, b))
    ensures var m, p := Size(a) - 1, Pool(a, sep, b);
            if a.Leaf? then
              && Middle(p, m) == a.items[m].0
              && Head(p, m) == Leaf(a.node, a.items[..m])
              && Rest(p, m, b.node) == Leaf(b.node, [a.items[m]] + b.items)
            else
              && Middle(p, m) == a.seps[m]
              && Head(p, m) == Inner(a.node, a.seps[..m], a.kids[..m + 1])
              && Rest(p, m, b.node) == Inner(b.node, [sep] + b.seps, [a.kids[m + 1]] + b.kids)
  {
  }

  lemma ShiftedLeft(a: Tree, sep: Key, b: Tree)
    requires a.Leaf? == b.Leaf? && Shaped(a) && Shaped(b) && Size(b) > 1
    ensures Size(a) + 1 < Size(Pool(a, sep, b)) && Shaped(Pool(a, sep, b))
    ensures var m, p := Size(a) + 1, Pool(a, sep, b);
            if a.Leaf? then
              && Middle(p, m) == b.items[1].0
              && Head(p, m) == Leaf(a.node, a.items + [b.items[0]])
              && Rest(p, m, b.node) == Leaf(b.node, b.items[1..])
            else
              && Middle(p, m) == b.seps[0]
              && Head(p, m) == Inner(a.node, a.seps + [sep], a.kids + [b.kids[0]])
              && Rest(p, m, b.node) == Inner(b.node, b.seps[1..], b.kids[1..])
  {
  }

  /** Two neighbours that are not one node, and what is below each is its own. */
  lemma Neighbours(a: Tree, b: Tree)
    requires DistinctAll([a, b]) && Represents(a) && Represents(b)
    ensures a.node != b.node
    ensures a.Leaf? ==> a.node.HasItems(a.items)
    ensures b.Leaf? ==> b.node.HasItems(b.items)
    ensures a.Inner? ==> a.node.HasKids(a.seps, Roots(a.kids)) && RepresentsAll(a.kids) && a.node !in NodesAll(a.kids)
    ensures b.Inner? ==> b.node.HasKids(b.seps, Roots(b.kids)) && RepresentsAll(b.kids) && b.node !in NodesAll(b.kids)
    ensures a.Inner? ==> b.node !in NodesAll(a.kids)
    ensures b.Inner? ==> a.node !in NodesAll(b.kids)
  {
    NodesTwo(a, b);
  }

  /** The last of `l` becomes the first of `c`. */
  method ShiftRight(l: Node, c: Node, sep: Key, ghost a: Tree, ghost b: Tree) returns (middle: Key)
    requires a.node == l && b.node == c && Represents(a) && Represents(b) && DistinctAll([a, b])
    requires a.Leaf? == b.Leaf? && Shaped(a) && Shaped(b) && Size(a) > 0 && Size(b) <= BT_MAX
    modifies l`n, l`keys, l`vals, l`kids, c`n, c`keys, c`vals, c`kids
    ensures Size(a) - 1 < Size(Pool(a, sep, b)) && Shaped(Pool(a, sep, b))
    ensures var m, p := Size(a) - 1, Pool(a, sep, b);
            middle == Middle(p, m) && Represents(Head(p, m)) && Represents(Rest(p, m, c))
  {
    hide Pool, Head, Rest, Middle, RepresentsAll, NodesAll, DistinctAll, Roots;
    Neighbours(a, b);
    ShiftedRight(a, sep, b);
    if c.leaf {
      c.PutItem(0, l.keys[l.n - 1], l.vals[l.n - 1], b.items);
      middle := c.keys[0];
      l.DropItem(l.n - 1, a.items);
      assert c.HasItems([a.items[l.n]] + b.items) && l.HasItems(a.items[..l.n]) by {
        assert b.items[..0] + [a.items[l.n]] + b.items[0..] == [a.items[l.n]] + b.items;
        assert a.items[..l.n] + a.items[l.n + 1..] == a.items[..l.n];
      }
    } else {
      middle := ShiftKidRight(l, c, sep, a, b);
    }
  }

  method ShiftKidRight(l: Node, c: Node, sep: Key, ghost a: Tree, ghost b: Tree) returns (middle: Key)
    requires a.Inner? && b.Inner? && a.node == l && b.node == c && Represents(a) && Represents(b) && DistinctAll([a, b])
    requires Shaped(a) && Shaped(b) && Size(a) > 0 && Size(b) <= BT_MAX
    modifies l`n, l`keys, l`kids, c`n, c`keys, c`kids
    ensures middle == a.seps[Size(a) - 1]
    ensures Represents(Inner(l, a.seps[..Size(a) - 1], a.kids[..Size(a)]))
    ensures Represents(Inner(c, [sep] + b.seps, [a.kids[Size(a)]] + b.kids))
  {
    hide RepresentsAll, NodesAll, DistinctAll;
    Neighbours(a, b);
    ghost var m := Size(a) - 1;
    ghost var ak, last, bk := a.kids[..m + 1], [a.kids[m + 1]], b.kids;
    assert a.kids == ak + last;
    RepresentsJoin(ak, last);
    RepresentsJoin(last, bk);
    NodesJoin(ak, last);
    NodesJoin(last, bk);
    assert allocated(NodesAll(ak)) && allocated(NodesAll(last)) && allocated(NodesAll(bk));
    c.PutFirstKid(l.kids[l.n], sep, b.seps, Roots(b.kids));
    middle := l.keys[l.n - 1];
    l.DropKid(l.n - 1, a.seps, Roots(a.kids));
    assert a.seps[..m] + a.seps[m + 1..] == a.seps[..m];
    assert Roots(a.kids)[..m + 1] + Roots(a.kids)[m + 2..] == Roots(ak);
    assert [Roots(a.kids)[m + 1]] + Roots(bk) == Roots(last + bk);
    RepresentsJoin(last, bk);
  }

  /** The first of `r` becomes the last of `c`. */
  method ShiftLeft(c: Node, r: Node, sep: Key, ghost a: Tree, ghost b: Tree) returns (middle: Key)
    requires a.node == c && b.node == r && Represents(a) && Represents(b) && DistinctAll([a, b])
    requires a.Leaf? == b.Leaf? && Shaped(a) && Shaped(b) && Size(b) > 1 && Size(a) <= BT_MAX
    modifies c`n, c`keys, c`vals, c`kids, r`n, r`keys, r`vals, r`kids
    ensures Size(a) + 1 < Size(Pool(a, sep, b)) && Shaped(Pool(a, sep, b))
    ensures var m, p := Size(a) + 1, Pool(a, sep, b);
            middle == Middle(p, m) && Represents(Head(p, m)) && Represents(Rest(p, m, r))
  {
    hide Pool, Head, Rest, Middle, RepresentsAll, NodesAll, DistinctAll, Roots;
    Neighbours(a, b);
    ShiftedLeft(a, sep, b);
    if c.leaf {
      c.PutItem(c.n, r.keys[0], r.vals[0], a.items);
      r.DropItem(0, b.items);
      middle := r.keys[0];
      assert c.HasItems(a.items + [b.items[0]]) && r.HasItems(b.items[1..]) by {
        assert a.items[..|a.items|] + [b.items[0]] + a.items[|a.items|..] == a.items + [b.items[0]];
        assert b.items[..0] + b.items[1..] == b.items[1..];
      }
    } else {
      middle := ShiftKidLeft(c, r, sep, a, b);
    }
  }

  method ShiftKidLeft(c: Node, r: Node, sep: Key, ghost a: Tree, ghost b: Tree) returns (middle: Key)
    requires a.Inner? && b.Inner? && a.node == c && b.node == r && Represents(a) && Represents(b) && DistinctAll([a, b])
    requires Shaped(a) && Shaped(b) && Size(b) > 0 && Size(a) <= BT_MAX
    modifies c`n, c`keys, c`kids, r`n, r`keys, r`kids
    ensures middle == b.seps[0]
    ensures Represents(Inner(c, a.seps + [sep], a.kids + [b.kids[0]]))
    ensures Represents(Inner(r, b.seps[1..], b.kids[1..]))
  {
    hide RepresentsAll, NodesAll, DistinctAll;
    Neighbours(a, b);
    ghost var ak, first, bk := a.kids, [b.kids[0]], b.kids[1..];
    assert b.kids == first + bk;
    RepresentsJoin(first, bk);
    RepresentsJoin(ak, first);
    NodesJoin(first, bk);
    NodesJoin(ak, first);
    assert allocated(NodesAll(ak)) && allocated(NodesAll(first)) && allocated(NodesAll(bk));
    c.PutKid(c.n, sep, r.kids[0], a.seps, Roots(a.kids));
    middle := r.keys[0];
    r.DropFirstKid(b.seps, Roots(b.kids));
    assert a.seps[..|a.seps|] + [sep] + a.seps[|a.seps|..] == a.seps + [sep];
    assert Roots(ak)[..|ak|] + [Roots(b.kids)[0]] + Roots(ak)[|ak|..] == Roots(ak + first);
    assert Roots(b.kids)[1..] == Roots(bk);
    RepresentsJoin(ak, first);
  }

  /** All that `r` holds goes to the end of `l`, and `r` leaves the chain if it is a leaf. */
  method Merge(l: Node, r: Node, sep: Key, ghost a: Tree, ghost b: Tree, ghost before: seq<Node>, ghost after: seq<Node>)
    requires a.node == l && b.node == r && Represents(a) && Represents(b) && DistinctAll([a, b])
    requires a.Leaf? == b.Leaf? && Shaped(a) && Shaped(b) && Size(a) + Size(b) < BT_MAX
    requires Chain(before + (Leaves(a) + Leaves(b)) + after) && NoDup(before + (Leaves(a) + Leaves(b)) + after)
    modifies l, after`prev
    ensures Represents(Pool(a, sep, b)) && Chain(before + Leaves(Pool(a, sep, b)) + after)
  {
    hide RepresentsAll, NodesAll, DistinctAll, Roots, LeavesAll, Chain, NoDup;
    Neighbours(a, b);
    if l.leaf {
      l.AddItems(r, a.items, b.items);
      assert before + (Leaves(a) + Leaves(b)) + after == before + [l, r] + after;
      Unlink(l, r, before, after);
    } else {
      RepresentsJoin(a.kids, b.kids);
      NodesJoin(a.kids, b.kids);
      PoolFlat(a, sep, b);
      assert allocated(NodesAll(a.kids)) && allocated(NodesAll(b.kids)) && allocated(Leaves(Pool(a, sep, b)));
      l.AddKids(sep, r, a.seps, Roots(a.kids), b.seps, Roots(b.kids));
      RepresentsJoin(a.kids, b.kids);
    }
  }

  // ---------- a child that has become too small ----------

  /** The tree once `ts` have taken the place of its children `j` and `j + 1`. */
  function WithPair(t: Tree, j: nat, ms: seq<Key>, ts: seq<Tree>): Tree
    requires t.Inner? && Shaped(t) && j + 1 < |t.kids|
  {
    Inner(t.node, SplicedSeps(t.seps, j, 2, ms), SplicedKids(t.kids, j, 2, ts))
  }

  /** Every child is full enough but `i`, which is one short. */
  predicate Lacking(t: Tree, i: nat) {
    && t.Inner? && i < |t.kids| && Size(t.kids[i]) == BT_MIN - 1
    && (forall k :: 0 <= k < |t.kids| ==> Filled(t.kids[k]) && (k != i ==> Fits(t.kids[k])))
  }

  lemma RowPair(t: Tree, j: nat, h: nat, lo: Bound, hi: Bound)
    requires t.Inner? && Shaped(t) && Good(t, h, lo, hi) && j + 1 < |t.kids| && h > 0
    ensures Row([t.seps[j]], [t.kids[j], t.kids[j + 1]], h - 1, Start(t.seps, lo, j), End(t.seps, hi, j + 1))
    ensures Shaped(t.kids[j]) && Shaped(t.kids[j + 1])
  {
    hide Less;
    StartAbove(t.seps, lo, hi, j, j + 1);
    RowTwo(t.kids[j], t.seps[j], t.kids[j + 1], h - 1, Start(t.seps, lo, j), End(t.seps, hi, j + 1));
    assert Good(t.kids[j], h - 1, Start(t.seps, lo, j), End(t.seps, hi, j));
    assert Good(t.kids[j + 1], h - 1, Start(t.seps, lo, j + 1), End(t.seps, hi, j + 1));
  }

  /** Two neighbouring children, taken together. */
  lemma PairPool(t: Tree, j: nat, h: nat, lo: Bound, hi: Bound)
    requires t.Inner? && Shaped(t) && Good(t, h, lo, hi) && Distinct(t) && j + 1 < |t.kids| && h > 0
    requires Filled(t.kids[j]) && Filled(t.kids[j + 1])
    ensures var a, b := t.kids[j], t.kids[j + 1];
            && a.Leaf? == b.Leaf? && Shaped(a) && Shaped(b) && DistinctAll([a, b]) && t.kids[j..j + 2] == [a, b]
            && var p := Pool(a, t.seps[j], b);
               && Shaped(p) && Good(p, h - 1, Start(t.seps, lo, j), End(t.seps, hi, j + 1)) && Distinct(p) && Filled(p)
               && b.node !in NodesOf(p) && NodesOf(p) + {b.node} == NodesAll(t.kids[j..j + 2])
               && Flat(p) == FlatAll(t.kids[j..j + 2]) && LeavesAll(t.kids[j..j + 2]) == Leaves(a) + Leaves(b)
  {
    hide Row, Good, Distinct, DistinctAll, NodesOf, NodesAll, Flat, FlatAll, Leaves, LeavesAll, Filled;
    var a, b := t.kids[j], t.kids[j + 1];
    RowPair(t, j, h, lo, hi);
    PoolGood(a, t.seps[j], b, h - 1, Start(t.seps, lo, j), End(t.seps, hi, j + 1));
    assert t.kids[j..j + 2] == [a, b] == [a] + [b];
    assert t.kids == t.kids[..j] + [a, b] + t.kids[j + 2..];
    DistinctPart(t.kids[..j], [a, b], t.kids[j + 2..], t);
    PoolDistinct(a, t.seps[j], b);
    PoolFlat(a, t.seps[j], b);
    FlatJoin([a], [b]);
    FlatOne(a);
    FlatOne(b);
  }

  lemma DistinctPart(a: seq<Tree>, b: seq<Tree>, c: seq<Tree>, t: Tree)
    requires t.Inner? && Distinct(t) && t.kids == a + b + c
    ensures DistinctAll(a) && DistinctAll(b) && DistinctAll(c)
    ensures NodesAll(a) !! NodesAll(b) && NodesAll(b) !! NodesAll(c) && NodesAll(a) !! NodesAll(c)
    ensures NodesOf(t) == {t.node} + NodesAll(a) + NodesAll(b) + NodesAll(c)
    ensures t.node !in NodesAll(a) + NodesAll(b) + NodesAll(c)
  {
    hide NodesAll, DistinctAll;
    NodesThree(a, b, c);
  }

  /** The pool cut in two again. */
  lemma PairCut(p: Tree, m: nat, node: Node, h: nat, lo: Bound, hi: Bound)
    requires Shaped(p) && Good(p, h, lo, hi) && Distinct(p) && Filled(p) && node !in NodesOf(p) && 0 < m < Size(p)
    ensures var ts := [Head(p, m), Rest(p, m, node)];
            && Row([Middle(p, m)], ts, h, lo, hi) && DistinctAll(ts) && NodesAll(ts) == NodesOf(p) + {node}
            && FlatAll(ts) == Flat(p) && Filled(ts[0]) && Filled(ts[1])
            && LeavesAll(ts) == (if p.Leaf? then [p.node, node] else Leaves(p))
  {
    hide Row, Good, Distinct, DistinctAll, NodesOf, NodesAll, Flat, FlatAll, Leaves, LeavesAll, Filled;
    var a, b := Head(p, m), Rest(p, m, node);
    SplitGood(p, m, node, h, lo, hi);
    SplitDistinct(p, m, node);
    SplitFlat(p, m, node);
    assert [a, b] == [a] + [b];
    FlatJoin([a], [b]);
    FlatOne(a);
    FlatOne(b);
  }

  /** What replaces two children well replaces them well in the whole. */
  lemma Mended(t: Tree, j: nat, ms: seq<Key>, ts: seq<Tree>, h: nat, lo: Bound, hi: Bound)
    requires t.Inner? && Shaped(t) && Good(t, h, lo, hi) && Distinct(t) && j + 1 < |t.kids| && h > 0
    requires forall k :: 0 <= k < |t.kids| && k != j && k != j + 1 ==> Fits(t.kids[k]) && Filled(t.kids[k])
    requires forall k :: 0 <= k < |ts| ==> Fits(ts[k]) && Filled(ts[k])
    requires Row(ms, ts, h - 1, Start(t.seps, lo, j), End(t.seps, hi, j + 1))
    requires DistinctAll(ts) && NodesAll(ts) <= NodesAll(t.kids[j..j + 2]) && FlatAll(ts) == FlatAll(t.kids[j..j + 2])
    ensures var t2 := WithPair(t, j, ms, ts);
            && Good(t2, h, lo, hi) && Distinct(t2) && Filled(t2) && NodesOf(t2) <= NodesOf(t) && Flat(t2) == Flat(t)
            && Leaves(t2) == LeavesAll(t.kids[..j]) + LeavesAll(ts) + LeavesAll(t.kids[j + 2..])
  {
    hide Row, Distinct, DistinctAll, NodesAll, FlatAll, LeavesAll, Less;
    var t2 := WithPair(t, j, ms, ts);
    SpliceRow(t.seps, t.kids, j, 2, ms, ts, h - 1, lo, hi);
    SpliceDistinct(t, j, 2, ts, t2.seps);
    SpliceFlat(t.kids, j, 2, ts);
    assert t.kids == t.kids[..j] + t.kids[j..j + 2] + t.kids[j + 2..];
    DistinctPart(t.kids[..j], t.kids[j..j + 2], t.kids[j + 2..], t);
    forall k | 0 <= k < |t2.kids| ensures Fits(t2.kids[k]) && Filled(t2.kids[k]) {
      if j <= k < j + |ts| {
        assert t2.kids[k] == ts[k - j];
      } else {
        var q := if k < j then k else k - |ts| + 2;
        assert t2.kids[k] == t.kids[q];
      }
    }
  }

  lemma RepresentsPair(t: Tree, j: nat)
    requires t.Inner? && Represents(t) && j + 1 < |t.kids|
    ensures t.node.HasKids(t.seps, Roots(t.kids))
    ensures RepresentsAll(t.kids[..j]) && Represents(t.kids[j]) && Represents(t.kids[j + 1]) && RepresentsAll(t.kids[j + 2..])
    ensures t.kids == t.kids[..j] + [t.kids[j], t.kids[j + 1]] + t.kids[j + 2..]
  {
    hide RepresentsAll, Roots;
    assert t.kids == t.kids[..j] + [t.kids[j], t.kids[j + 1]] + t.kids[j + 2..];
    RepresentsThree(t.kids[..j], [t.kids[j], t.kids[j + 1]], t.kids[j + 2..]);
    RepresentsTwo(t.kids[j], t.kids[j + 1]);
  }

  /** The separator of two children changes, as what they hold has. */
  method SetMiddle(node: Node, j: nat, middle: Key, ghost t: Tree, ghost ts: seq<Tree>)
    requires t.Inner? && Shaped(t) && t.node == node && j + 1 < |t.kids| && node.HasKids(t.seps, Roots(t.kids))
    requires |ts| == 2 && ts[0].node == t.kids[j].node && ts[1].node == t.kids[j + 1].node
    requires RepresentsAll(t.kids[..j]) && RepresentsAll(ts) && RepresentsAll(t.kids[j + 2..])
    requires Distinct(WithPair(t, j, [middle], ts))
    modifies node`keys
    ensures Represents(WithPair(t, j, [middle], ts))
  {
    hide RepresentsAll, NodesOf, NodesAll, DistinctAll;
    ghost var t2 := WithPair(t, j, [middle], ts);
    RepresentsThree(t.kids[..j], ts, t.kids[j + 2..]);
    assert allocated(NodesAll(t2.kids));
    node.SetSeparator(j, middle, t.seps, Roots(t.kids));
    assert t2.seps == t.seps[j := middle] && Roots(t2.kids) == Roots(t.kids);
  }

  /** What mending a child must not change, and what it must. */
  predicate MendedTo(t: Tree, t2: Tree, h: nat, lo: Bound, hi: Bound) {
    && Good(t2, h, lo, hi) && Distinct(t2) && Filled(t2) && Flat(t2) == Flat(t)
    && NodesOf(t2) <= NodesOf(t) && t2.node == t.node && Size(t) - 1 <= Size(t2) <= Size(t)
  }

  /** Two neighbouring children with what they hold cut elsewhere. */
  function Recut(t: Tree, j: nat, m: nat): Tree
    requires t.Inner? && Shaped(t) && j + 1 < |t.kids|
    requires var a, b := t.kids[j], t.kids[j + 1];
             a.Leaf? == b.Leaf? && Shaped(a) && Shaped(b) && m < Size(Pool(a, t.seps[j], b))
  {
    var p := Pool(t.kids[j], t.seps[j], t.kids[j + 1]);
    WithPair(t, j, [Middle(p, m)], [Head(p, m), Rest(p, m, t.kids[j + 1].node)])
  }

  lemma RecutMends(t: Tree, i: nat, j: nat, m: nat, h: nat, lo: Bound, hi: Bound)
    requires Lacking(t, i) && Shaped(t) && Distinct(t) && Good(t, h, lo, hi) && h > 0
    requires j + 1 < |t.kids| && j <= i <= j + 1
    requires var a, b := t.kids[j], t.kids[j + 1];
             && a.Leaf? == b.Leaf? && Shaped(a) && Shaped(b)
             && var p := Pool(a, t.seps[j], b);
                && m < Size(p) && Fits(Head(p, m)) && Fits(Rest(p, m, b.node))
    ensures MendedTo(t, Recut(t, j, m), h, lo, hi) && Leaves(Recut(t, j, m)) == Leaves(t)
  {
    hide Pool, Head, Rest, Middle, Flat, FlatAll, LeavesAll, Good, Row, Less, NodesOf, NodesAll, Distinct, DistinctAll;
    var a, b := t.kids[j], t.kids[j + 1];
    PairPool(t, j, h, lo, hi);
    var p := Pool(a, t.seps[j], b);
    var ts := [Head(p, m), Rest(p, m, b.node)];
    PoolFlat(a, t.seps[j], b);
    CutInside(p, m, b.node);
    PairCut(p, m, b.node, h - 1, Start(t.seps, lo, j), End(t.seps, hi, j + 1));
    PoolKind(a, t.seps[j], b);
    Mended(t, j, [Middle(p, m)], ts, h, lo, hi);
    SpliceFlat(t.kids, j, 2, ts);
  }

  lemma CutInside(p: Tree, m: nat, node: Node)
    requires Shaped(p) && m < Size(p) && Fits(Head(p, m))
    ensures 0 < m
  {
  }

  lemma PoolKind(a: Tree, sep: Key, b: Tree)
    requires a.Leaf? == b.Leaf?
    ensures Pool(a, sep, b).Leaf? == a.Leaf? && Pool(a, sep, b).node == a.node
  {
  }

  /** The parts of a node that two of its children have been picked from. */
  lemma PairApart(t: Tree, j: nat)
    requires t.Inner? && Represents(t) && Distinct(t) && j + 1 < |t.kids|
    ensures var a, b := t.kids[j], t.kids[j + 1];
            && DistinctAll([a, b]) && NodesOf(a) + NodesOf(b) <= NodesOf(t) - {t.node}
            && NodesAll(t.kids[..j]) !! NodesOf(a) + NodesOf(b) && NodesAll(t.kids[j + 2..]) !! NodesOf(a) + NodesOf(b)
            && t.node !in NodesAll(t.kids[..j]) + NodesAll(t.kids[j + 2..])
    ensures t.node.HasKids(t.seps, Roots(t.kids))
    ensures RepresentsAll(t.kids[..j]) && Represents(t.kids[j]) && Represents(t.kids[j + 1]) && RepresentsAll(t.kids[j + 2..])
    ensures Shaped(t) && t.node.kids[j] == t.kids[j].node && t.node.kids[j + 1] == t.kids[j + 1].node && t.node.keys[j] == t.seps[j]
    ensures t.node.n == |t.seps|
  {
    hide NodesOf, NodesAll, Distinct, DistinctAll, RepresentsAll;
    RepresentsPair(t, j);
    DistinctPart(t.kids[..j], [t.kids[j], t.kids[j + 1]], t.kids[j + 2..], t);
    NodesTwo(t.kids[j], t.kids[j + 1]);
    assert t.node.keys[..t.node.n][j] == t.node.keys[j];
    assert Roots(t.kids)[j] == t.kids[j].node && Roots(t.kids)[j + 1] == t.kids[j + 1].node;
  }

  /** Child `i` takes the last of its left neighbour. */
  method BorrowLeft(node: Node, i: nat, ghost t: Tree, ghost h: nat, ghost lo: Bound, ghost hi: Bound) returns (ghost t2: Tree)
    requires t.node == node && Lacking(t, i) && Represents(t) && Distinct(t) && Good(t, h, lo, hi)
    requires 0 < i && BT_MIN < Size(t.kids[i - 1])
    modifies NodesOf(t)`n, NodesOf(t)`keys, NodesOf(t)`vals, NodesOf(t)`kids
    ensures Represents(t2) && MendedTo(t, t2, h, lo, hi) && Leaves(t2) == Leaves(t)
  {
    hide RepresentsAll, NodesAll, Distinct, DistinctAll, FlatAll, LeavesAll, Good, Row, Less, Filled, Pool, Head, Rest, Middle, MendedTo;
    var j := i - 1;
    ghost var a, b, m := t.kids[j], t.kids[j + 1], Size(t.kids[j]) - 1;
    GoodParts(t, h, lo, hi);
    PairApart(t, j);
    RowPair(t, j, h, lo, hi);
    PairKinds(t, j, h, lo, hi);
    ShiftedRight(a, t.seps[j], b);
    RecutMends(t, i, j, m, h, lo, hi);
    RecutDistinct(t, j, m, h, lo, hi);
    assert allocated(NodesAll(t.kids[..j])) && allocated(NodesAll(t.kids[j + 2..]));
    var middle := ShiftRight(node.kids[j], node.kids[j + 1], node.keys[j], a, b);
    ghost var p := Pool(a, t.seps[j], b);
    ghost var ts := [Head(p, m), Rest(p, m, b.node)];
    RepresentsTwo(ts[0], ts[1]);
    SetMiddle(node, j, middle, t, ts);
    t2 := Recut(t, j, m);
  }

  lemma PairKinds(t: Tree, j: nat, h: nat, lo: Bound, hi: Bound)
    requires t.Inner? && Shaped(t) && Good(t, h, lo, hi) && j + 1 < |t.kids| && h > 0
    ensures t.kids[j].Leaf? == t.kids[j + 1].Leaf?
  {
    RowPair(t, j, h, lo, hi);
    RowTwo(t.kids[j], t.seps[j], t.kids[j + 1], h - 1, Start(t.seps, lo, j), End(t.seps, hi, j + 1));
  }

  lemma RecutDistinct(t: Tree, j: nat, m: nat, h: nat, lo: Bound, hi: Bound)
    requires t.Inner? && Shaped(t) && j + 1 < |t.kids|
    requires var a, b := t.kids[j], t.kids[j + 1];
             a.Leaf? == b.Leaf? && Shaped(a) && Shaped(b) && m < Size(Pool(a, t.seps[j], b))
    requires MendedTo(t, Recut(t, j, m), h, lo, hi)
    ensures Distinct(Recut(t, j, m))
  {
  }

  /** Child `i` takes the first of its right neighbour. */
  method BorrowRight(node: Node, i: nat, ghost t: Tree, ghost h: nat, ghost lo: Bound, ghost hi: Bound) returns (ghost t2: Tree)
    requires t.node == node && Lacking(t, i) && Represents(t) && Distinct(t) && Good(t, h, lo, hi)
    requires i + 1 < |t.kids| && BT_MIN < Size(t.kids[i + 1])
    modifies NodesOf(t)`n, NodesOf(t)`keys, NodesOf(t)`vals, NodesOf(t)`kids
    ensures Represents(t2) && MendedTo(t, t2, h, lo, hi) && Leaves(t2) == Leaves(t)
  {
    hide RepresentsAll, NodesAll, Distinct, DistinctAll, FlatAll, LeavesAll, Good, Row, Less, Filled, Pool, Head, Rest, Middle, MendedTo;
    ghost var a, b, m := t.kids[i], t.kids[i + 1], Size(t.kids[i]) + 1;
    GoodParts(t, h, lo, hi);
    PairApart(t, i);
    RowPair(t, i, h, lo, hi);
    PairKinds(t, i, h, lo, hi);
    ShiftedLeft(a, t.seps[i], b);
    RecutMends(t, i, i, m, h, lo, hi);
    RecutDistinct(t, i, m, h, lo, hi);
    assert allocated(NodesAll(t.kids[..i])) && allocated(NodesAll(t.kids[i + 2..]));
    var middle := ShiftLeft(node.kids[i], node.kids[i + 1], node.keys[i], a, b);
    ghost var p := Pool(a, t.seps[i], b);
    ghost var ts := [Head(p, m), Rest(p, m, b.node)];
    RepresentsTwo(ts[0], ts[1]);
    SetMiddle(node, i, middle, t, ts);
    t2 := Recut(t, i, m);
  }

  function Merged(t: Tree, j: nat): Tree
    requires t.Inner? && Shaped(t) && j + 1 < |t.kids| && t.kids[j].Leaf? == t.kids[j + 1].Leaf?
  {
    WithPair(t, j, [], [Pool(t.kids[j], t.seps[j], t.kids[j + 1])])
  }

  lemma MergedMends(t: Tree, i: nat, j: nat, h: nat, lo: Bound, hi: Bound)
    requires Lacking(t, i) && Shaped(t) && Distinct(t) && Good(t, h, lo, hi) && h > 0
    requires j + 1 < |t.kids| && j <= i <= j + 1 && t.kids[j].Leaf? == t.kids[j + 1].Leaf?
    requires BT_MIN <= Size(t.kids[j]) + Size(t.kids[j + 1]) < BT_MAX
    ensures MendedTo(t, Merged(t, j), h, lo, hi) && Distinct(Merged(t, j))
    ensures var p := Pool(t.kids[j], t.seps[j], t.kids[j + 1]);
            && Leaves(Merged(t, j)) == LeavesAll(t.kids[..j]) + Leaves(p) + LeavesAll(t.kids[j + 2..])
            && Leaves(t) == LeavesAll(t.kids[..j]) + (Leaves(t.kids[j]) + Leaves(t.kids[j + 1])) + LeavesAll(t.kids[j + 2..])
            && NodesOf(p) <= NodesOf(t.kids[j]) + NodesOf(t.kids[j + 1])
  {
    hide Pool, Flat, FlatAll, LeavesAll, Good, Row, Less, NodesOf, NodesAll, Distinct, DistinctAll;
    var a, b := t.kids[j], t.kids[j + 1];
    PairPool(t, j, h, lo, hi);
    var p := Pool(a, t.seps[j], b);
    PoolSize(a, t.seps[j], b);
    RowOne(p, h - 1, Start(t.seps, lo, j), End(t.seps, hi, j + 1));
    NodesOne(p);
    NodesTwo(a, b);
    FlatOne(p);
    Mended(t, j, [], [p], h, lo, hi);
    SpliceFlat(t.kids, j, 2, [p]);
  }

  lemma PoolSize(a: Tree, sep: Key, b: Tree)
    requires a.Leaf? == b.Leaf?
    ensures Size(Pool(a, sep, b)) == Size(a) + Size(b) + (if a.Leaf? then 0 else 1)
    ensures Pool(a, sep, b).node == a.node
  {
  }

  /** Drops what is between two children that have become one. */
  method DropRight(node: Node, j: nat, ghost t: Tree)
    requires t.Inner? && Shaped(t) && t.node == node && j + 1 < |t.kids| && node.HasKids(t.seps, Roots(t.kids))
    requires t.kids[j].Leaf? == t.kids[j + 1].Leaf?
    requires RepresentsAll(t.kids[..j]) && RepresentsAll(t.kids[j + 2..])
    requires Represents(Pool(t.kids[j], t.seps[j], t.kids[j + 1])) && Distinct(Merged(t, j))
    modifies node`n, node`keys, node`kids
    ensures Represents(Merged(t, j))
  {
    hide RepresentsAll, NodesOf, NodesAll, DistinctAll, Pool;
    ghost var p, t2 := Pool(t.kids[j], t.seps[j], t.kids[j + 1]), Merged(t, j);
    PoolSize(t.kids[j], t.seps[j], t.kids[j + 1]);
    RepresentsOne(p);
    RepresentsThree(t.kids[..j], [p], t.kids[j + 2..]);
    assert allocated(NodesAll(t2.kids));
    node.DropKid(j, t.seps, Roots(t.kids));
    assert t2.seps == t.seps[..j] + t.seps[j + 1..];
    assert Roots(t2.kids) == Roots(t.kids)[..j + 1] + Roots(t.kids)[j + 2..];
  }

  /** The node of the second of two children that are merged is in the tree no more. */
  lemma MergedLoses(t: Tree, j: nat, h: nat, lo: Bound, hi: Bound)
    requires t.Inner? && Shaped(t) && Distinct(t) && Good(t, h, lo, hi) && j + 1 < |t.kids| && h > 0
    requires Filled(t.kids[j]) && Filled(t.kids[j + 1]) && t.kids[j].Leaf? == t.kids[j + 1].Leaf?
    ensures Size(Merged(t, j)) == Size(t) - 1 && t.kids[j + 1].node !in NodesOf(Merged(t, j))
  {
    hide Pool, Flat, FlatAll, Leaves, LeavesAll, Good, Row, Less, Filled;
    PairPool(t, j, h, lo, hi);
    var b, kids := t.kids[j + 1], Merged(t, j).kids;
    NodeItself(b);
    forall i | 0 <= i < |kids| ensures b.node !in NodesOf(kids[i]) {
      if i != j {
        assert kids[i] == if i < j then t.kids[i] else t.kids[i + 1];
      }
    }
  }

  lemma NodeItself(t: Tree)
    ensures t.node in NodesOf(t)
  {
  }

  /** Children `j` and `j + 1` become one. */
  method MergeKids(node: Node, i: nat, j: nat, ghost t: Tree, ghost h: nat, ghost lo: Bound, ghost hi: Bound,
                   ghost before: seq<Node>, ghost after: seq<Node>)
    returns (ghost t2: Tree)
    requires t.node == node && Lacking(t, i) && Represents(t) && Distinct(t) && Good(t, h, lo, hi)
    requires j + 1 < |t.kids| && j <= i <= j + 1 && Size(t.kids[j]) + Size(t.kids[j + 1]) < BT_MAX
    requires Linked(before, t, after)
    modifies NodesOf(t), after`prev
    ensures Represents(t2) && MendedTo(t, t2, h, lo, hi) && Chain(before + Leaves(t2) + after)
    ensures Size(t2) == Size(t) - 1 && t.kids[j + 1].node !in NodesOf(t2)
  {
    hide RepresentsAll, NodesAll, Distinct, DistinctAll, FlatAll, LeavesAll, Good, Row, Less, Filled, Pool, MendedTo, Chain, NoDup, Leaves;
    ghost var a, b := t.kids[j], t.kids[j + 1];
    GoodParts(t, h, lo, hi);
    PairApart(t, j);
    RowPair(t, j, h, lo, hi);
    PairKinds(t, j, h, lo, hi);
    MergedMends(t, i, j, h, lo, hi);
    MergedLoses(t, j, h, lo, hi);
    ghost var front, back := LeavesAll(t.kids[..j]), LeavesAll(t.kids[j + 2..]);
    LeavesInside(t, j + 2);
    assert before + Leaves(t) + after == (before + front) + (Leaves(a) + Leaves(b)) + (back + after);
    assert allocated(NodesAll(t.kids[..j])) && allocated(NodesAll(t.kids[j + 2..]));
    Merge(node.kids[j], node.kids[j + 1], node.keys[j], a, b, before + front, back + after);
    t2 := Merged(t, j);
    assert before + Leaves(t2) + after == (before + front) + Leaves(Pool(a, t.seps[j], b)) + (back + after);
    assert allocated(Leaves(t2));
    DropRight(node, j, t);
  }

  lemma LeavesInside(t: Tree, j: nat)
    requires t.Inner? && j <= |t.kids|
    ensures forall x :: x in LeavesAll(t.kids[j..]) ==> x in NodesOf(t)
  {
    hide NodesAll, LeavesAll;
    forall x | x in LeavesAll(t.kids[j..]) ensures x in NodesOf(t) {
      LeavesAllAreNodes(t.kids[j..], x);
      assert t.kids == t.kids[..j] + t.kids[j..];
      NodesJoin(t.kids[..j], t.kids[j..]);
    }
  }

  lemma SizeIsN(t: Tree)
    requires Represents(t)
    ensures t.node.n == Size(t)
  {
  }

  /** Child `i` is one short: it borrows from a neighbour that can spare one, or else is
      merged with a neighbour. */
  method Fix(node: Node, i: nat, ghost t: Tree, ghost h: nat, ghost lo: Bound, ghost hi: Bound,
             ghost before: seq<Node>, ghost after: seq<Node>)
    returns (ghost t2: Tree)
    requires t.node == node && Lacking(t, i) && Represents(t) && Distinct(t) && Good(t, h, lo, hi) && |t.seps| > 0
    requires Linked(before, t, after)
    modifies NodesOf(t), after`prev
    ensures Represents(t2) && MendedTo(t, t2, h, lo, hi) && Chain(before + Leaves(t2) + after)
  {
    hide Represents, RepresentsAll, NodesOf, NodesAll, Distinct, DistinctAll, Good, Filled, MendedTo, Chain, NoDup, Leaves;
    GoodParts(t, h, lo, hi);
    assert allocated(Leaves(t)) && allocated(NodesOf(t));
    if i > 0 {
      PairApart(t, i - 1);
      SizeIsN(t.kids[i - 1]);
    }
    if i < |t.seps| {
      PairApart(t, i);
      SizeIsN(t.kids[i + 1]);
    }
    if i > 0 && node.kids[i - 1].n > BT_MIN {
      t2 := BorrowLeft(node, i, t, h, lo, hi);
      return;
    }
    if i < node.n && node.kids[i + 1].n > BT_MIN {
      t2 := BorrowRight(node, i, t, h, lo, hi);
      return;
    }
    var j := if i > 0 then i - 1 else i;
    t2 := MergeKids(node, i, j, t, h, lo, hi, before, after);
  }
}
