/** A node of the tree: buffers of fixed length of which the first `n` keys, and what goes
    with them, are in use. */
module BtreeNode {
  import opened BtreeKeys

  const BT_MIN: nat := 16
  const BT_MAX: nat := 2 * BT_MIN

  /** The buffer after `count` places of `src` from `from` on have been moved to `to`. */
  function Moved<T>(dst: seq<T>, to: nat, src: seq<T>, from: nat, count: nat): (r: seq<T>)
    requires to + count <= |dst| && from + count <= |src|
    ensures |r| == |dst|
  {
    dst[..to] + src[from..from + count] + dst[to + count..]
  }

  /** Room made at `i` for `x` among the first `n`. */
  lemma MovedUp<T>(s: seq<T>, n: nat, i: nat, x: T)
    requires i <= n < |s|
    ensures var r := Moved(s, i + 1, s, i, n - i)[i := x];
            && r[i] == x && (forall k :: 0 <= k < i ==> r[k] == s[k]) && (forall k :: i < k <= n ==> r[k] == s[k - 1])
  {
  }

  lemma PutAmong<T>(s: seq<T>, i: nat, x: T)
    requires i <= |s|
    ensures var r := s[..i] + [x] + s[i..];
            && |r| == |s| + 1 && r[i] == x
            && (forall k :: 0 <= k < i ==> r[k] == s[k]) && (forall k :: i < k <= |s| ==> r[k] == s[k - 1])
  {
  }

  class Node {
    const leaf: bool
    var n: nat
    var keys: seq<Key>
    var vals: seq<Value>
    var kids: seq<Node?>
    var next: Node?
    var prev: Node?

    constructor (leaf: bool)
      ensures this.leaf == leaf && n == 0 && next == prev == null && Roomy()
    {
      this.leaf, n, next, prev := leaf, 0, null, null;
      keys := seq(BT_MAX + 1, _ => Number(0));
      vals := seq(BT_MAX + 1, _ => Null);
      kids := seq(BT_MAX + 2, _ => null);
    }

    ghost predicate Roomy()
      reads `keys, `vals, `kids
    {
      |keys| == |vals| == BT_MAX + 1 && |kids| == BT_MAX + 2
    }

    /** A leaf that holds these keys and values. */
    ghost predicate HasItems(items: seq<Pair>)
      reads `n, `keys, `vals, `kids
    {
      && leaf && Roomy() && n == |items| <= BT_MAX + 1
      && forall i :: 0 <= i < n ==> keys[i] == items[i].0 && vals[i] == items[i].1
    }

    /** An internal node that holds these separators and children. */
    ghost predicate HasKids(seps: seq<Key>, below: seq<Node>)
      reads `n, `keys, `vals, `kids
    {
      && !leaf && Roomy() && n == |seps| <= BT_MAX + 1 && |below| == n + 1
      && keys[..n] == seps
      && forall i :: 0 <= i <= n ==> kids[i] == below[i]
    }

    // ---------- leaves ----------

    /** Makes room at `i` and puts a key and its value there. */
    method PutItem(i: nat, key: Key, value: Value, ghost items: seq<Pair>)
      requires HasItems(items) && i <= n <= BT_MAX
      modifies `n, `keys, `vals
      ensures HasItems(items[..i] + [(key, value)] + items[i..])
    {
      hide Moved;
      MovedUp(keys, n, i, key);
      MovedUp(vals, n, i, value);
      PutAmong(items, i, (key, value));
      keys := Moved(keys, i + 1, keys, i, n - i);
      vals := Moved(vals, i + 1, vals, i, n - i);
      keys, vals := keys[i := key], vals[i := value];
      n := n + 1;
      ghost var now := items[..i] + [(key, value)] + items[i..];
      forall k | 0 <= k < n ensures keys[k] == now[k].0 && vals[k] == now[k].1 {
      }
    }

    method SetValue(i: nat, value: Value, ghost items: seq<Pair>)
      requires HasItems(items) && i < n
      modifies `vals
      ensures HasItems(items[..i] + [(items[i].0, value)] + items[i + 1..])
    {
      vals := vals[i := value];
    }

    method DropItem(i: nat, ghost items: seq<Pair>)
      requires HasItems(items) && i < n
      modifies `n, `keys, `vals
      ensures HasItems(items[..i] + items[i + 1..])
    {
      keys := Moved(keys, i, keys, i + 1, n - i - 1);
      vals := Moved(vals, i, vals, i + 1, n - i - 1);
      n := n - 1;
    }

    /** The items from `half` on go to `r`, an empty leaf. */
    method SplitItems(half: nat, r: Node, ghost items: seq<Pair>)
      requires r != this && r.leaf && r.Roomy()
      requires HasItems(items) && half <= n
      modifies `n, r`n, r`keys, r`vals
      ensures HasItems(items[..half]) && r.HasItems(items[half..])
    {
      r.n := n - half;
      r.keys := Moved(r.keys, 0, keys, half, r.n);
      r.vals := Moved(r.vals, 0, vals, half, r.n);
      n := half;
    }

    /** Adds all the items of `b`. */
    method AddItems(b: Node, ghost items: seq<Pair>, ghost more: seq<Pair>)
      requires HasItems(items) && b.HasItems(more) && n + b.n <= BT_MAX + 1
      requires b != this
      modifies `n, `keys, `vals
      ensures HasItems(items + more)
    {
      keys := Moved(keys, n, b.keys, 0, b.n);
      vals := Moved(vals, n, b.vals, 0, b.n);
      n := n + b.n;
    }

    // ---------- internal nodes ----------

    /** A separator at `i` and the child on the right of it. */
    method PutKid(i: nat, sep: Key, kid: Node, ghost seps: seq<Key>, ghost below: seq<Node>)
      requires HasKids(seps, below) && i <= n <= BT_MAX
      modifies `n, `keys, `kids
      ensures HasKids(seps[..i] + [sep] + seps[i..], below[..i + 1] + [kid] + below[i + 1..])
    {
      hide Moved;
      MovedUp(keys, n, i, sep);
      MovedUp(kids, n + 1, i + 1, kid);
      keys := Moved(keys, i + 1, keys, i, n - i);
      kids := Moved(kids, i + 2, kids, i + 1, n - i);
      keys, kids := keys[i := sep], kids[i + 1 := kid];
      n := n + 1;
    }

    /** Drops the separator at `j` and the child on the right of it. */
    method DropKid(j: nat, ghost seps: seq<Key>, ghost below: seq<Node>)
      requires HasKids(seps, below) && j < n
      modifies `n, `keys, `kids
      ensures HasKids(seps[..j] + seps[j + 1..], below[..j + 1] + below[j + 2..])
    {
      keys := Moved(keys, j, keys, j + 1, n - j - 1);
      kids := Moved(kids, j + 1, kids, j + 2, n - j - 1);
      n := n - 1;
    }

    /** Room for a child at the front, and for the separator after it. */
    method PutFirstKid(kid: Node, sep: Key, ghost seps: seq<Key>, ghost below: seq<Node>)
      requires HasKids(seps, below) && n <= BT_MAX
      modifies `n, `keys, `kids
      ensures HasKids([sep] + seps, [kid] + below)
    {
      keys := Moved(keys, 1, keys, 0, n);
      kids := Moved(kids, 1, kids, 0, n + 1);
      keys, kids := keys[0 := sep], kids[0 := kid];
      n := n + 1;
    }

    method DropFirstKid(ghost seps: seq<Key>, ghost below: seq<Node>)
      requires HasKids(seps, below) && n > 0
      modifies `n, `keys, `kids
      ensures HasKids(seps[1..], below[1..])
    {
      keys := Moved(keys, 0, keys, 1, n - 1);
      kids := Moved(kids, 0, kids, 1, n);
      n := n - 1;
    }

    method SetSeparator(j: nat, sep: Key, ghost seps: seq<Key>, ghost below: seq<Node>)
      requires HasKids(seps, below) && j < n
      modifies `keys
      ensures HasKids(seps[j := sep], below)
    {
      keys := keys[j := sep];
    }

    /** What is on the right of the separator at `half` goes to `r`, an empty internal node;
        that separator goes up. */
    method SplitKids(half: nat, r: Node, ghost seps: seq<Key>, ghost below: seq<Node>) returns (sep: Key)
      requires r != this && !r.leaf && r.Roomy()
      requires HasKids(seps, below) && half < n
      modifies `n, r`n, r`keys, r`kids
      ensures sep == seps[half]
      ensures HasKids(seps[..half], below[..half + 1]) && r.HasKids(seps[half + 1..], below[half + 1..])
    {
      sep := keys[half];
      r.n := n - half - 1;
      r.keys := Moved(r.keys, 0, keys, half + 1, r.n);
      r.kids := Moved(r.kids, 0, kids, half + 1, r.n + 1);
      n := half;
    }

    /** Adds the separator and all the children of `b`. */
    method AddKids(sep: Key, b: Node, ghost seps: seq<Key>, ghost below: seq<Node>,
                   ghost moreSeps: seq<Key>, ghost moreBelow: seq<Node>)
      requires HasKids(seps, below) && b.HasKids(moreSeps, moreBelow) && n + b.n + 1 <= BT_MAX + 1
      requires b != this
      modifies `n, `keys, `kids
      ensures HasKids(seps + [sep] + moreSeps, below + moreBelow)
    {
      keys := keys[n := sep];
      keys := Moved(keys, n + 1, b.keys, 0, b.n);
      kids := Moved(kids, n + 1, b.kids, 0, b.n + 1);
      n := n + b.n + 1;
    }

    // ---------- looking for a key ----------

    /** The first place with a greater key: all keys before it are at most `key`. */
    method Upper(key: Key) returns (lo: nat)
      requires Roomy() && n <= BT_MAX + 1 && Ascending(keys[..n])
      ensures lo <= n
      ensures forall i :: 0 <= i < lo ==> !Less(key, keys[i])
      ensures forall i :: lo <= i < n ==> Less(key, keys[i])
    {
      hide Less;
      LessIsTotalOrder();
      lo := 0;
      var hi := n;
      while lo < hi
        invariant lo <= hi <= n
        invariant forall i :: 0 <= i < lo ==> !Less(key, keys[i])
        invariant forall i :: hi <= i < n ==> Less(key, keys[i])
      {
        var mid := (lo + hi) / 2;
        assert forall i :: 0 <= i < n ==> keys[..n][i] == keys[i];
        CompareIsLess(keys[mid], key);
        if Compare(keys[mid], key) <= 0 {
          lo := mid + 1;
        } else {
          hi := mid;
        }
      }
    }

    /** The first place with a key that is not less: all keys before it are less than `key`. */
    method Lower(key: Key) returns (lo: nat)
      requires Roomy() && n <= BT_MAX + 1 && Ascending(keys[..n])
      ensures lo <= n
      ensures forall i :: 0 <= i < lo ==> Less(keys[i], key)
      ensures forall i :: lo <= i < n ==> !Less(keys[i], key)
    {
      hide Less;
      LessIsTotalOrder();
      lo := 0;
      var hi := n;
      while lo < hi
        invariant lo <= hi <= n
        invariant forall i :: 0 <= i < lo ==> Less(keys[i], key)
        invariant forall i :: hi <= i < n ==> !Less(keys[i], key)
      {
        var mid := (lo + hi) / 2;
        assert forall i :: 0 <= i < n ==> keys[..n][i] == keys[i];
        CompareIsLess(keys[mid], key);
        if Compare(keys[mid], key) < 0 {
          lo := mid + 1;
        } else {
          hi := mid;
        }
      }
    }
  }
}
