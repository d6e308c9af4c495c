/** The tree that a node and the nodes below it make up: what it holds, in what order, and
    what keeps it balanced. */
module BtreeShape {
  import opened BtreeKeys
  import opened BtreeNode

  datatype Tree =
    | Leaf(node: Node, items: seq<Pair>)
    | Inner(node: Node, seps: seq<Key>, kids: seq<Tree>)

  function Size(t: Tree): nat {
    if t.Leaf? then |t.items| else |t.seps|
  }

  predicate Shaped(t: Tree) {
    t.Inner? ==> |t.kids| == |t.seps| + 1
  }

  // ---------- what a tree holds ----------

  /** All its keys and values, from left to right. */
  function Flat(t: Tree): seq<Pair> {
    match t
    case Leaf(_, items) => items
    case Inner(_, _, kids) => FlatAll(kids)
  }

  function FlatAll(ts: seq<Tree>): seq<Pair> {
    if ts == [] then [] else Flat(ts[0]) + FlatAll(ts[1..])
  }

  /** Its leaves, from left to right. */
  function Leaves(t: Tree): seq<Node> {
    match t
    case Leaf(node, _) => [node]
    case Inner(_, _, kids) => LeavesAll(kids)
  }

  function LeavesAll(ts: seq<Tree>): seq<Node> {
    if ts == [] then [] else Leaves(ts[0]) + LeavesAll(ts[1..])
  }

  function NodesOf(t: Tree): set<Node>
    decreases t
  {
    match t
    case Leaf(node, _) => {node}
    case Inner(node, _, kids) => {node} + NodesAll(kids)
  }

  function NodesAll(ts: seq<Tree>): set<Node>
    decreases ts
  {
    set i, x | 0 <= i < |ts| && x in NodesOf(ts[i]) :: x
  }

  function Roots(ts: seq<Tree>): (r: seq<Node>)
    ensures |r| == |ts|
  {
    seq(|ts|, i requires 0 <= i < |ts| => ts[i].node)
  }

  /** No node is in two places. */
  predicate Distinct(t: Tree)
    decreases t
  {
    t.Inner? ==> DistinctAll(t.kids) && t.node !in NodesAll(t.kids)
  }

  predicate DistinctAll(ts: seq<Tree>)
    decreases ts
  {
    && (forall i :: 0 <= i < |ts| ==> Distinct(ts[i]))
    && (forall i, j :: 0 <= i < j < |ts| ==> NodesOf(ts[i]) !! NodesOf(ts[j]))
  }

  // ---------- what keeps it in order ----------

  /** The limits of the keys of a tree: from `lo` on, and below `hi`. */
  datatype Bound = Open | At(key: Key)

  predicate From(lo: Bound, key: Key) {
    lo.Open? || !Less(key, lo.key)
  }

  predicate Above(lo: Bound, key: Key) {
    lo.Open? || Less(lo.key, key)
  }

  predicate Below(key: Key, hi: Bound) {
    hi.Open? || Less(key, hi.key)
  }

  predicate Within(f: seq<Pair>, lo: Bound, hi: Bound) {
    forall i :: 0 <= i < |f| ==> From(lo, f[i].0) && Below(f[i].0, hi)
  }

  predicate Between(seps: seq<Key>, lo: Bound, hi: Bound) {
    forall i :: 0 <= i < |seps| ==> Above(lo, seps[i]) && Below(seps[i], hi)
  }

  /** Where the keys of child `i` start, and where they end. */
  function Start(seps: seq<Key>, lo: Bound, i: nat): Bound
    requires i <= |seps|
  {
    if i == 0 then lo else At(seps[i - 1])
  }

  function End(seps: seq<Key>, hi: Bound, i: nat): Bound
    requires i <= |seps|
  {
    if i == |seps| then hi else At(seps[i])
  }

  /** Keys in order and in their limits, and every leaf at the same depth. */
  predicate Good(t: Tree, h: nat, lo: Bound, hi: Bound)
    decreases t
  {
    match t
    case Leaf(_, items) => h == 0 && Sorted(items) && Within(items, lo, hi)
    case Inner(_, seps, kids) => h > 0 && Row(seps, kids, h - 1, lo, hi)
  }

  /** Trees side by side, with a separator between each and the next. */
  predicate Row(seps: seq<Key>, kids: seq<Tree>, h: nat, lo: Bound, hi: Bound)
    decreases kids
  {
    && |kids| == |seps| + 1
    && Ascending(seps) && Between(seps, lo, hi)
    && forall i :: 0 <= i < |kids| ==> Good(kids[i], h, Start(seps, lo, i), End(seps, hi, i))
  }

  predicate Fits(t: Tree) {
    BT_MIN <= Size(t) <= BT_MAX
  }

  /** Every node below the top one is at least half full. */
  predicate Filled(t: Tree) {
    match t
    case Leaf(_, _) => true
    case Inner(_, _, kids) => forall i :: 0 <= i < |kids| ==> Fits(kids[i]) && Filled(kids[i])
  }

  // ---------- the nodes themselves ----------

  /** The nodes hold what the tree says. */
  ghost predicate Represents(t: Tree)
    reads NodesOf(t)`n, NodesOf(t)`keys, NodesOf(t)`vals, NodesOf(t)`kids
    decreases t
  {
    match t
    case Leaf(node, items) => node.HasItems(items)
    case Inner(node, seps, kids) => node.HasKids(seps, Roots(kids)) && RepresentsAll(kids)
  }

  ghost predicate RepresentsAll(ts: seq<Tree>)
    reads NodesAll(ts)`n, NodesAll(ts)`keys, NodesAll(ts)`vals, NodesAll(ts)`kids
    decreases ts
  {
    forall i :: 0 <= i < |ts| ==> Represents(ts[i])
  }

  function Next(ls: seq<Node>, i: nat): Node? {
    if i + 1 < |ls| then ls[i + 1] else null
  }

  function Previous(ls: seq<Node>, i: nat): Node? {
    if 0 < i <= |ls| then ls[i - 1] else null
  }

  /** The leaves are linked both ways in this order. */
  ghost predicate Chain(ls: seq<Node>)
    reads ls`next, ls`prev
  {
    forall i :: 0 <= i < |ls| ==> ls[i].next == Next(ls, i) && ls[i].prev == Previous(ls, i)
  }

  predicate NoDup(ls: seq<Node>) {
    forall i, j :: 0 <= i < j < |ls| ==> ls[i] != ls[j]
  }
}
