/** Changing a tree of nodes in place: the chain of leaves, and one child among many. */
module BtreeChain {
  import opened Common
  import opened BtreeKeys
  import opened BtreeNode
  import opened BtreeShape
  import opened BtreeBalance

  // ---------- the chain of leaves ----------

  /** A tree whose leaves are found in a chain, between `before` and `after`. */
  ghost predicate Linked(before: seq<Node>, t: Tree, after: seq<Node>)
    reads before`next, before`prev, Leaves(t)`next, Leaves(t)`prev, after`next, after`prev
  {
    && Chain(before + Leaves(t) + after) && NoDup(before + Leaves(t) + after)
    && (forall x :: x in before || x in after ==> x !in NodesOf(t))
  }

  /** A chain cannot meet itself. */
  lemma {:induction false} ChainMeets(ls: seq<Node>, i: nat, j: nat)
    requires Chain(ls) && i < j < |ls|
    ensures ls[i] != ls[j]
    decreases |ls| - j
  {
    if j + 1 < |ls| {
      ChainMeets(ls, i + 1, j + 1);
    }
  }

  lemma LinkedStill(before: seq<Node>, t: Tree, t2: Tree, after: seq<Node>)
    requires Chain(before + Leaves(t2) + after) && NodesOf(t2) <= NodesOf(t)
    requires forall x :: x in before || x in after ==> x !in NodesOf(t)
    ensures Linked(before, t2, after)
  {
    hide Leaves, NodesOf, Chain;
    var ls := before + Leaves(t2) + after;
    forall i, j | 0 <= i < j < |ls| ensures ls[i] != ls[j] {
      ChainMeets(ls, i, j);
    }
  }

  /** Where everything is once `r` has come after the `k`-th. */
  lemma Widened(before: seq<Node>, node: Node, r: Node, after: seq<Node>)
    ensures var was, now, k := before + [node] + after, before + [node, r] + after, |before|;
            && now[k] == was[k] == node && Next(now, k) == r && Previous(now, k) == Previous(was, k)
            && now[k + 1] == r && Next(now, k + 1) == Next(was, k) && Previous(now, k + 1) == node
            && Next(was, k) == (if after == [] then null else after[0])
            && (forall i :: 0 <= i < k ==> now[i] == was[i] && Next(now, i) == Next(was, i) && Previous(now, i) == Previous(was, i))
            && (forall i :: k + 1 < i < |now| ==> now[i] == was[i - 1] && Next(now, i) == Next(was, i - 1))
            && (forall i :: k + 2 < i < |now| ==> Previous(now, i) == Previous(was, i - 1))
            && (after != [] ==> now[k + 2] == was[k + 1] == after[0] && Previous(now, k + 2) == r)
  {
  }

  /** `r` comes after `node` in the chain. */
  method LinkAfter(node: Node, r: Node, ghost before: seq<Node>, ghost after: seq<Node>)
    requires Chain(before + [node] + after) && NoDup(before + [node] + after)
    requires r !in before + [node] + after
    modifies node`next, r`next, r`prev, after`prev
    ensures Chain(before + [node, r] + after)
  {
    hide Next, Previous;
    ghost var was, now, k := before + [node] + after, before + [node, r] + after, |before|;
    Widened(before, node, r, after);
    assert was[k].next == Next(was, k);
    r.next := node.next;
    r.prev := node;
    if node.next != null {
      node.next.prev := r;
    }
    node.next := r;
    forall i | 0 <= i < |now| ensures now[i].next == Next(now, i) && now[i].prev == Previous(now, i) {
      if i > k + 1 {
        assert now[i] == was[i - 1];
      }
    }
  }

  /** Where everything is once what follows the `k`-th has gone. */
  lemma Narrowed(before: seq<Node>, a: Node, b: Node, after: seq<Node>)
    ensures var was, now, k := before + [a, b] + after, before + [a] + after, |before|;
            && now[k] == was[k] == a && was[k + 1] == b && Next(now, k) == Next(was, k + 1) && Previous(now, k) == Previous(was, k)
            && Next(was, k + 1) == (if after == [] then null else after[0])
            && (forall i :: 0 <= i < k ==> now[i] == was[i] && Next(now, i) == Next(was, i) && Previous(now, i) == Previous(was, i))
            && (forall i :: k < i < |now| ==> now[i] == was[i + 1] && Next(now, i) == Next(was, i + 1))
            && (forall i :: k + 1 < i < |now| ==> Previous(now, i) == Previous(was, i + 1))
            && (after != [] ==> now[k + 1] == was[k + 2] == after[0] && Previous(now, k + 1) == a)
  {
  }

  /** `b` leaves the chain, from behind `a`. */
  method Unlink(a: Node, b: Node, ghost before: seq<Node>, ghost after: seq<Node>)
    requires Chain(before + [a, b] + after) && NoDup(before + [a, b] + after)
    modifies a`next, after`prev
    ensures Chain(before + [a] + after)
  {
    hide Next, Previous;
    ghost var was, now, k := before + [a, b] + after, before + [a] + after, |before|;
    Narrowed(before, a, b, after);
    assert was[k + 1].next == Next(was, k + 1);
    a.next := b.next;
    if b.next != null {
      b.next.prev := a;
    }
    forall i | 0 <= i < |now| ensures now[i].next == Next(now, i) && now[i].prev == Previous(now, i) {
      if i > k {
        assert now[i] == was[i + 1];
      }
    }
  }

  lemma RepresentsOne(t: Tree)
    ensures RepresentsAll([t]) <==> Represents(t)
  {
    assert [t][0] == t;
  }

  lemma RepresentsTwo(a: Tree, b: Tree)
    ensures RepresentsAll([a, b]) <==> Represents(a) && Represents(b)
  {
    assert [a, b][0] == a && [a, b][1] == b;
  }

  // ---------- one child of many ----------

  lemma {:induction false} LeavesAreNodes(t: Tree, x: Node)
    requires x in Leaves(t)
    ensures x in NodesOf(t)
    decreases t
  {
    if t.Inner? {
      LeavesAllAreNodes(t.kids, x);
    }
  }

  lemma {:induction false} LeavesAllAreNodes(ts: seq<Tree>, x: Node)
    requires x in LeavesAll(ts)
    ensures x in NodesAll(ts)
    decreases ts
  {
    assert ts == [ts[0]] + ts[1..];
    NodesJoin([ts[0]], ts[1..]);
    NodesOne(ts[0]);
    if x in Leaves(ts[0]) {
      LeavesAreNodes(ts[0], x);
    } else {
      LeavesAllAreNodes(ts[1..], x);
    }
  }

  /** The nodes on either side of a child are not below it. */
  lemma KidsApart(t: Tree, i: nat)
    requires t.Inner? && Distinct(t) && i < |t.kids|
    ensures Distinct(t.kids[i]) && NodesOf(t.kids[i]) <= NodesOf(t) - {t.node}
    ensures NodesAll(t.kids[..i]) <= NodesOf(t) - {t.node} && NodesAll(t.kids[i + 1..]) <= NodesOf(t) - {t.node}
    ensures NodesAll(t.kids[..i]) !! NodesOf(t.kids[i]) && NodesAll(t.kids[i + 1..]) !! NodesOf(t.kids[i])
    ensures DistinctAll(t.kids[..i]) && DistinctAll(t.kids[i + 1..]) && NodesAll(t.kids[..i]) !! NodesAll(t.kids[i + 1..])
    ensures NodesOf(t) == NodesAll(t.kids[..i]) + NodesOf(t.kids[i]) + NodesAll(t.kids[i + 1..]) + {t.node}
  {
    hide NodesAll, DistinctAll;
    NodesThree(t.kids[..i], [t.kids[i]], t.kids[i + 1..]);
    NodesOne(t.kids[i]);
    SeqAround(t.kids, i);
  }

  /** The leaves of a child are between those of the children on either side. */
  lemma LinkedKid(before: seq<Node>, t: Tree, after: seq<Node>, i: nat)
    requires t.Inner? && Distinct(t) && i < |t.kids| && Linked(before, t, after)
    ensures Linked(before + LeavesAll(t.kids[..i]), t.kids[i], LeavesAll(t.kids[i + 1..]) + after)
    ensures forall x :: x in LeavesAll(t.kids[i + 1..]) ==> x in NodesOf(t)
  {
    hide FlatAll, LeavesAll, NodesOf, NodesAll, NoDup, Chain, Distinct;
    FlatAround(t.kids, i);
    KidsApart(t, i);
    var a, l, b := LeavesAll(t.kids[..i]), Leaves(t.kids[i]), LeavesAll(t.kids[i + 1..]);
    SeqRegroup(before, a, l, b, after);
    forall x | x in a ensures x !in NodesOf(t.kids[i]) {
      LeavesAllAreNodes(t.kids[..i], x);
    }
    forall x | x in b ensures x !in NodesOf(t.kids[i]) && x in NodesOf(t) {
      LeavesAllAreNodes(t.kids[i + 1..], x);
    }
  }

  lemma RepresentsJoin(a: seq<Tree>, b: seq<Tree>)
    ensures RepresentsAll(a + b) <==> RepresentsAll(a) && RepresentsAll(b)
    ensures Roots(a + b) == Roots(a) + Roots(b)
  {
    hide Represents;
    assert forall i :: 0 <= i < |a| ==> (a + b)[i] == a[i];
    assert forall i :: 0 <= i < |b| ==> (a + b)[|a| + i] == b[i];
  }

  lemma RepresentsThree(a: seq<Tree>, b: seq<Tree>, c: seq<Tree>)
    ensures RepresentsAll(a + b + c) <==> RepresentsAll(a) && RepresentsAll(b) && RepresentsAll(c)
    ensures Roots(a + b + c) == Roots(a) + Roots(b) + Roots(c)
  {
    hide RepresentsAll, Roots;
    RepresentsJoin(a + b, c);
    RepresentsJoin(a, b);
  }

  lemma RepresentsAround(ts: seq<Tree>, i: nat)
    requires i < |ts|
    ensures RepresentsAll(ts) <==> RepresentsAll(ts[..i]) && Represents(ts[i]) && RepresentsAll(ts[i + 1..])
  {
    hide Represents, RepresentsAll, Roots;
    SeqAround(ts, i);
    RepresentsThree(ts[..i], [ts[i]], ts[i + 1..]);
    RepresentsOne(ts[i]);
  }

  lemma InnerParts(t: Tree, h: nat, lo: Bound, hi: Bound)
    requires t.Inner? && Represents(t) && Good(t, h, lo, hi)
    ensures Shaped(t) && h > 0 && Ascending(t.seps) && Between(t.seps, lo, hi)
    ensures t.node.HasKids(t.seps, Roots(t.kids)) && RepresentsAll(t.kids)
  {
  }

  /** The child that a key belongs to. */
  method KidFor(node: Node, key: Key, ghost t: Tree, ghost h: nat, ghost lo: Bound, ghost hi: Bound) returns (i: nat)
    requires t.Inner? && t.node == node && Represents(t) && Good(t, h, lo, hi) && From(lo, key) && Below(key, hi)
    ensures Shaped(t) && h > 0 && i <= node.n && i < |t.kids| && node.n == |t.seps|
    ensures From(Start(t.seps, lo, i), key) && Below(key, End(t.seps, hi, i))
    ensures i < |node.kids| && node.kids[i] == t.kids[i].node
  {
    hide Less, Good, Represents, RepresentsAll;
    InnerParts(t, h, lo, hi);
    i := node.Upper(key);
    assert forall k :: 0 <= k < node.n ==> node.keys[..node.n][k] == node.keys[k] == t.seps[k];
    assert Roots(t.kids)[i] == t.kids[i].node;
  }

  lemma GoodParts(t: Tree, h: nat, lo: Bound, hi: Bound)
    requires t.Inner? && Good(t, h, lo, hi)
    ensures Shaped(t) && h > 0 && |t.kids| > 0
  {
  }

  lemma KindOf(t: Tree)
    requires Represents(t)
    ensures t.Leaf? <==> t.node.leaf
  {
  }

  /** The tree once what `ts` are has taken the place of its child `i`. */
  function WithKid(t: Tree, i: nat, ms: seq<Key>, ts: seq<Tree>): Tree
    requires t.Inner? && Shaped(t) && i < |t.kids|
  {
    Inner(t.node, SplicedSeps(t.seps, i, 1, ms), SplicedKids(t.kids, i, 1, ts))
  }

  lemma RowKid(t: Tree, i: nat, h: nat, lo: Bound, hi: Bound)
    requires t.Inner? && Good(t, h, lo, hi) && Filled(t)
    ensures Shaped(t) && h > 0
    ensures i < |t.kids| ==> Good(t.kids[i], h - 1, Start(t.seps, lo, i), End(t.seps, hi, i))
    ensures i < |t.kids| ==> Fits(t.kids[i]) && Filled(t.kids[i])
  {
  }

  lemma WithKidNodes(t: Tree, i: nat, ms: seq<Key>, ts: seq<Tree>)
    requires t.Inner? && Shaped(t) && i < |t.kids| && Distinct(t) && DistinctAll(ts)
    requires NodesAll(ts) * NodesOf(t) <= NodesOf(t.kids[i])
    ensures var t2 := WithKid(t, i, ms, ts);
            Distinct(t2) && NodesOf(t2) <= NodesOf(t) + NodesAll(ts)
  {
    hide NodesOf, NodesAll, Distinct, DistinctAll;
    NodesOne(t.kids[i]);
    assert t.kids[i..i + 1] == [t.kids[i]];
    SpliceDistinct(t, i, 1, ts, SplicedSeps(t.seps, i, 1, ms));
  }

  lemma WithKidFlat(t: Tree, i: nat, ms: seq<Key>, ts: seq<Tree>)
    requires t.Inner? && Shaped(t) && i < |t.kids|
    ensures Flat(t) == FlatAll(t.kids[..i]) + Flat(t.kids[i]) + FlatAll(t.kids[i + 1..])
    ensures Flat(WithKid(t, i, ms, ts)) == FlatAll(t.kids[..i]) + FlatAll(ts) + FlatAll(t.kids[i + 1..])
    ensures Leaves(WithKid(t, i, ms, ts)) == LeavesAll(t.kids[..i]) + LeavesAll(ts) + LeavesAll(t.kids[i + 1..])
  {
    hide FlatAll, LeavesAll;
    SpliceFlat(t.kids, i, 1, ts);
    FlatAround(t.kids, i);
  }

  /** What was done to one child was done to the whole. */
  lemma PutBelow(t: Tree, i: nat, ms: seq<Key>, ts: seq<Tree>, key: Key, value: Value, h: nat, lo: Bound, hi: Bound)
    requires t.Inner? && Shaped(t) && Good(t, h, lo, hi) && i < |t.kids|
    requires From(Start(t.seps, lo, i), key) && Below(key, End(t.seps, hi, i))
    ensures FlatAll(ts) == Updated(Flat(t.kids[i]), key, value) ==> Flat(WithKid(t, i, ms, ts)) == Updated(Flat(t), key, value)
    ensures FlatAll(ts) == Removed(Flat(t.kids[i]), key) ==> Flat(WithKid(t, i, ms, ts)) == Removed(Flat(t), key)
  {
    hide Flat, FlatAll, Row, Updated, Removed, Less;
    WithKidFlat(t, i, ms, ts);
    RowSides(t.seps, t.kids, h - 1, lo, hi, i, key);
    PutWithin(FlatAll(t.kids[..i]), Flat(t.kids[i]), FlatAll(t.kids[i + 1..]), key, value);
  }

  lemma LeavesAround(before: seq<Node>, t: Tree, i: nat, ms: seq<Key>, ts: seq<Tree>, after: seq<Node>)
    requires t.Inner? && Shaped(t) && i < |t.kids|
    ensures (before + LeavesAll(t.kids[..i])) + LeavesAll(ts) + (LeavesAll(t.kids[i + 1..]) + after) ==
            before + Leaves(WithKid(t, i, ms, ts)) + after
  {
    hide Flat, FlatAll, Leaves, LeavesAll;
    WithKidFlat(t, i, ms, ts);
    SeqRegroup(before, LeavesAll(t.kids[..i]), LeavesAll(ts), LeavesAll(t.kids[i + 1..]), after);
  }
}
