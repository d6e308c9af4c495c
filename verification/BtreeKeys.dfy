/** The keys of the tree and their order; what a sorted list of keys and values says as a map. */
module BtreeKeys {
  import opened Common

  datatype Key = Number(n: int) | Text(s: CString)

  /** Numbers and strings are keys; nothing else is. */
  datatype Value = Scalar(key: Key) | Null | Object(id: nat)

  predicate KeyOk(v: Value) {
    v.Scalar?
  }

  type Pair = (Key, Value)

  // ---------- the order ----------

  /** The sign of `strcmp`. */
  function StrCmp(a: seq<Byte>, b: seq<Byte>): int {
    if a == [] then (if b == [] then 0 else -1)
    else if b == [] then 1
    else if a[0] != b[0] then (if a[0] < b[0] then -1 else 1)
    else StrCmp(a[1..], b[1..])
  }

  /** Below zero when `a` comes before `b`: every number does so with every string. */
  function Compare(a: Key, b: Key): int {
    if a.Text? != b.Text? then (if a.Text? then 1 else -1)
    else if a.Text? then StrCmp(a.s, b.s)
    else if a.n < b.n then -1
    else if a.n > b.n then 1
    else 0
  }

  predicate Less(a: Key, b: Key) {
    Compare(a, b) < 0
  }

  lemma {:induction false} StrCmpIsTotalOrder(a: seq<Byte>, b: seq<Byte>, c: seq<Byte>)
    ensures StrCmp(a, b) == 0 <==> a == b
    ensures StrCmp(a, b) == -StrCmp(b, a)
    ensures StrCmp(a, b) < 0 && StrCmp(b, c) < 0 ==> StrCmp(a, c) < 0
  {
    if a != [] && b != [] {
      StrCmpIsTotalOrder(a[1..], b[1..], if c == [] then [] else c[1..]);
      assert a[0] == b[0] && a[1..] == b[1..] ==> a == [a[0]] + a[1..] == b;
    }
  }

  /** The order of keys is total, and only a key itself compares equal to it. */
  lemma CompareIsTotalOrder(a: Key, b: Key, c: Key)
    ensures Compare(a, b) == 0 <==> a == b
    ensures Compare(a, b) == -Compare(b, a)
    ensures Compare(a, b) < 0 && Compare(b, c) < 0 ==> Compare(a, c) < 0
  {
    if a.Text? && b.Text? {
      StrCmpIsTotalOrder(a.s, b.s, if c.Text? then c.s else []);
    }
  }

  lemma CompareIsLess(a: Key, b: Key)
    ensures Compare(a, b) < 0 <==> Less(a, b)
    ensures Compare(a, b) <= 0 <==> !Less(b, a)
    ensures Compare(a, b) == 0 <==> a == b
  {
    CompareIsTotalOrder(a, b, a);
  }

  lemma LessIsTotalOrder()
    ensures forall a, b :: !Less(a, b) && !Less(b, a) ==> a == b
    ensures forall a, b :: Less(a, b) ==> !Less(b, a)
    ensures forall a, b, c :: Less(a, b) && Less(b, c) ==> Less(a, c)
  {
    forall a, b ensures Less(a, b) ==> !Less(b, a)
                ensures !Less(a, b) && !Less(b, a) ==> a == b {
      CompareIsTotalOrder(a, b, a);
    }
    forall a, b, c | Less(a, b) && Less(b, c) ensures Less(a, c) {
      CompareIsTotalOrder(a, b, c);
    }
  }

  /** `a` and `b` first differ at `k`, where that of `a` is the lower byte. */
  predicate LowerAt(a: seq<Byte>, b: seq<Byte>, k: nat) {
    k < |a| && k < |b| && a[..k] == b[..k] && a[k] < b[k]
  }

  /** A string comes before another when it is only the beginning of it, or has the lower byte where
      they first differ. */
  lemma {:induction false} StrCmpIsByBytes(a: seq<Byte>, b: seq<Byte>)
    ensures StrCmp(a, b) < 0 <==> (|a| < |b| && a == b[..|a|]) || exists k: nat :: LowerAt(a, b, k)
  {
    if a == [] || b == [] {
    } else if a[0] != b[0] {
      assert a[..0] == b[..0];
      if a[0] < b[0] {
        assert LowerAt(a, b, 0);
      }
      assert forall k: nat :: LowerAt(a, b, k) && k > 0 ==> a[..k][0] == b[..k][0];
      assert |a| < |b| && a == b[..|a|] ==> a[0] == b[..|a|][0];
    } else {
      StrCmpIsByBytes(a[1..], b[1..]);
      assert a == [a[0]] + a[1..] && (|a| < |b| ==> b[..|a|] == [b[0]] + b[1..][..|a| - 1]);
      forall k: nat | LowerAt(a[1..], b[1..], k) ensures LowerAt(a, b, k + 1) {
        assert a[..k + 1] == [a[0]] + a[1..][..k] && b[..k + 1] == [b[0]] + b[1..][..k];
      }
      forall k: nat | LowerAt(a, b, k) ensures k > 0 && LowerAt(a[1..], b[1..], k - 1) {
        assert a[1..][..k - 1] == a[..k][1..] && b[1..][..k - 1] == b[..k][1..];
      }
    }
  }

  /** The order itself: numbers by size, then strings byte by byte. */
  lemma LessIs(m: int, n: int, s: CString, t: CString)
    ensures Less(Number(m), Number(n)) <==> m < n
    ensures Less(Number(m), Text(s)) && !Less(Text(s), Number(m))
    ensures Less(Text(s), Text(t)) <==> (|s| < |t| && s == t[..|s|]) || exists k: nat :: LowerAt(s, t, k)
  {
    StrCmpIsByBytes(s, t);
  }

  // ---------- sorted lists ----------

  predicate Ascending(keys: seq<Key>) {
    forall i, j :: 0 <= i < j < |keys| ==> Less(keys[i], keys[j])
  }

  predicate Sorted(f: seq<Pair>) {
    forall i, j :: 0 <= i < j < |f| ==> Less(f[i].0, f[j].0)
  }

  predicate AllBelow(f: seq<Pair>, key: Key) {
    forall i :: 0 <= i < |f| ==> Less(f[i].0, key)
  }

  predicate AllFrom(f: seq<Pair>, key: Key) {
    forall i :: 0 <= i < |f| ==> !Less(f[i].0, key)
  }

  predicate AllAbove(f: seq<Pair>, key: Key) {
    forall i :: 0 <= i < |f| ==> Less(key, f[i].0)
  }

  /** How many of the first keys are below `key`. */
  function Rank(f: seq<Pair>, key: Key): (r: nat)
    ensures r <= |f| && AllBelow(f[..r], key)
    ensures r < |f| ==> !Less(f[r].0, key)
  {
    if f == [] || !Less(f[0].0, key) then 0 else
      var rest := Rank(f[1..], key);
      assert f[..1 + rest] == [f[0]] + f[1..][..rest];
      1 + rest
  }

  predicate FoundAt(f: seq<Pair>, c: nat, key: Key) {
    c < |f| && f[c].0 == key
  }

  /** The list with `key` set to `value`. */
  function Updated(f: seq<Pair>, key: Key, value: Value): seq<Pair> {
    var c := Rank(f, key);
    f[..c] + [(key, value)] + f[if FoundAt(f, c, key) then c + 1 else c..]
  }

  /** The list without `key`. */
  function Removed(f: seq<Pair>, key: Key): seq<Pair> {
    var c := Rank(f, key);
    if FoundAt(f, c, key) then f[..c] + f[c + 1..] else f
  }

  lemma {:induction false} RankWithin(a: seq<Pair>, f: seq<Pair>, b: seq<Pair>, key: Key)
    requires AllBelow(a, key) && AllAbove(b, key)
    ensures Rank(a + f + b, key) == |a| + Rank(f, key)
  {
    var whole := a + f + b;
    if a != [] {
      RankWithin(a[1..], f, b, key);
      assert whole[0] == a[0] && whole[1..] == a[1..] + f + b;
    } else if f != [] {
      assert whole[0] == f[0] && whole[1..] == [] + f[1..] + b;
      if Less(f[0].0, key) {
        RankWithin([], f[1..], b, key);
      }
    } else {
      assert whole == b;
      if b != [] {
        LessIsTotalOrder();
      }
    }
  }

  lemma SliceWithin(a: seq<Pair>, f: seq<Pair>, b: seq<Pair>, c: nat)
    requires c <= |f|
    ensures (a + f + b)[..|a| + c] == a + f[..c] && (a + f + b)[|a| + c..] == f[c..] + b
    ensures c < |f| ==> (a + f + b)[|a| + c] == f[c]
    ensures c == |f| && b != [] ==> (a + f + b)[|a| + c] == b[0]
  {
  }

  lemma FoundWithin(a: seq<Pair>, f: seq<Pair>, b: seq<Pair>, key: Key)
    requires AllBelow(a, key) && AllAbove(b, key)
    ensures Rank(a + f + b, key) == |a| + Rank(f, key)
    ensures FoundAt(a + f + b, |a| + Rank(f, key), key) <==> FoundAt(f, Rank(f, key), key)
  {
    hide Rank, Less;
    RankWithin(a, f, b, key);
    LessIsTotalOrder();
    SliceWithin(a, f, b, Rank(f, key));
  }

  /** Putting `x` in the place of `f[c..d]`. */
  lemma SpliceWithin(a: seq<Pair>, f: seq<Pair>, b: seq<Pair>, c: nat, d: nat, x: seq<Pair>)
    requires c <= d <= |f|
    ensures (a + f + b)[..|a| + c] + x + (a + f + b)[|a| + d..] == a + (f[..c] + x + f[d..]) + b
  {
    SliceWithin(a, f, b, c);
    SliceWithin(a, f, b, d);
    SeqRegroup(a, f[..c], x, f[d..], b);
  }

  lemma UpdatedIs(f: seq<Pair>, key: Key, value: Value)
    ensures var c := Rank(f, key);
            var d := if FoundAt(f, c, key) then c + 1 else c;
            && Updated(f, key, value) == f[..c] + [(key, value)] + f[d..]
            && Removed(f, key) == f[..c] + [] + f[d..]
  {
    hide Rank;
    var c := Rank(f, key);
    assert f[..c] + [] == f[..c];
    assert f[..c] + f[c..] == f;
  }

  /** What happens to a key happens where its neighbours are. */
  lemma PutWithin(a: seq<Pair>, f: seq<Pair>, b: seq<Pair>, key: Key, value: Value)
    requires AllBelow(a, key) && AllAbove(b, key)
    ensures Updated(a + f + b, key, value) == a + Updated(f, key, value) + b
    ensures Removed(a + f + b, key) == a + Removed(f, key) + b
  {
    hide Rank, AllBelow, AllAbove, Updated, Removed;
    FoundWithin(a, f, b, key);
    UpdatedIs(f, key, value);
    UpdatedIs(a + f + b, key, value);
    var c := Rank(f, key);
    var d := if FoundAt(f, c, key) then c + 1 else c;
    SpliceWithin(a, f, b, c, d, [(key, value)]);
    SpliceWithin(a, f, b, c, d, []);
  }

  /** The rank is the only place that divides the list so. */
  lemma {:induction false} RankIs(f: seq<Pair>, c: nat, key: Key)
    requires c <= |f| && AllBelow(f[..c], key) && AllFrom(f[c..], key)
    ensures c == Rank(f, key)
  {
    if c == 0 {
      assert f[0..] == f;
    } else {
      assert f[..c][0] == f[0];
      assert f[1..][..c - 1] == f[..c][1..] && f[1..][c - 1..] == f[c..];
      RankIs(f[1..], c - 1, key);
    }
  }

  lemma RankDivides(f: seq<Pair>, key: Key)
    requires Sorted(f)
    ensures AllFrom(f[Rank(f, key)..], key)
    ensures AllAbove(f[if FoundAt(f, Rank(f, key), key) then Rank(f, key) + 1 else Rank(f, key)..], key)
  {
    hide Rank, Less;
    LessIsTotalOrder();
  }

  /** A key is below another just when it is before where that one divides the list. */
  lemma BelowRank(f: seq<Pair>, k: nat, key: Key)
    requires Sorted(f) && k < |f|
    ensures Less(f[k].0, key) <==> k < Rank(f, key)
  {
    hide Less, Rank;
    RankDivides(f, key);
    var r := Rank(f, key);
    assert k < r ==> f[..r][k] == f[k];
    assert k >= r ==> f[r..][k - r] == f[k];
  }

  lemma PutSorted(f: seq<Pair>, key: Key, value: Value)
    requires Sorted(f)
    ensures Sorted(Updated(f, key, value)) && Sorted(Removed(f, key))
  {
    hide Rank, Less;
    LessIsTotalOrder();
    RankDivides(f, key);
  }

  // ---------- as a map ----------

  /** What a sorted list says. */
  function ToMap(f: seq<Pair>): map<Key, Value>
    requires Sorted(f)
  {
    OneValueEach(f);
    map p | p in f :: p.0 := p.1
  }

  lemma OneValueEach(f: seq<Pair>)
    requires Sorted(f)
    ensures forall p, q :: p in f && q in f && p.0 == q.0 ==> p == q
  {
    hide Less;
    LessIsTotalOrder();
  }

  lemma InMap(f: seq<Pair>, key: Key)
    requires Sorted(f)
    ensures key in ToMap(f) <==> FoundAt(f, Rank(f, key), key)
    ensures FoundAt(f, Rank(f, key), key) ==> ToMap(f)[key] == f[Rank(f, key)].1
  {
    hide Rank, Less;
    LessIsTotalOrder();
    RankDivides(f, key);
    OneValueEach(f);
    var c := Rank(f, key);
    if c < |f| && f[c].0 == key {
      assert f[c] in f;
    }
    if key in ToMap(f) {
      var k :| 0 <= k < |f| && f[k].0 == key;
      BelowRank(f, k, key);
    }
  }

  /** `g` says of `key` what it should and of every other key what `f` says. */
  lemma SameButOne(f: seq<Pair>, g: seq<Pair>, key: Key, now: seq<Pair>)
    requires Sorted(f) && Sorted(g)
    requires now == [] || exists value :: now == [(key, value)]
    requires forall p :: p in g <==> p in now || (p in f && p.0 != key)
    ensures ToMap(g) == if now == [] then ToMap(f) - {key} else ToMap(f)[key := now[0].1]
  {
    hide Less;
    OneValueEach(f);
    OneValueEach(g);
    var there := if now == [] then ToMap(f) - {key} else ToMap(f)[key := now[0].1];
    forall k | k in there ensures k in ToMap(g) && ToMap(g)[k] == there[k] {
      if now != [] && k == key {
        assert now[0] in g;
      } else {
        assert (k, there[k]) in f;
        assert (k, there[k]) in g;
      }
    }
    forall k | k in ToMap(g) ensures k in there {
      assert (k, ToMap(g)[k]) in g;
    }
  }

  lemma Around(f: seq<Pair>, key: Key, now: seq<Pair>)
    requires Sorted(f)
    ensures var c := Rank(f, key);
            var rest := f[if FoundAt(f, c, key) then c + 1 else c..];
            forall p :: p in f[..c] + now + rest <==> p in now || (p in f && p.0 != key)
  {
    hide Rank, Less;
    LessIsTotalOrder();
    RankDivides(f, key);
    var c := Rank(f, key);
    var there := if FoundAt(f, c, key) then [f[c]] else [];
    var rest := f[if FoundAt(f, c, key) then c + 1 else c..];
    assert f == f[..c] + there + rest;
    assert forall p :: p in f <==> p in f[..c] || p in there || p in rest;
    assert forall p :: p in f[..c] || p in rest ==> p.0 != key;
  }

  /** Putting a key in the list is setting it in the map. */
  lemma PutIsUpdate(f: seq<Pair>, key: Key, value: Value)
    requires Sorted(f)
    ensures Sorted(Updated(f, key, value))
    ensures ToMap(Updated(f, key, value)) == ToMap(f)[key := value]
    ensures |Updated(f, key, value)| == |f| + (if key in ToMap(f) then 0 else 1)
  {
    hide Rank, Less, Sorted, ToMap;
    PutSorted(f, key, value);
    InMap(f, key);
    Around(f, key, [(key, value)]);
    SameButOne(f, Updated(f, key, value), key, [(key, value)]);
  }

  lemma RemoveIsRemoval(f: seq<Pair>, key: Key)
    requires Sorted(f)
    ensures Sorted(Removed(f, key))
    ensures ToMap(Removed(f, key)) == ToMap(f) - {key}
    ensures |Removed(f, key)| == |f| - (if key in ToMap(f) then 1 else 0)
  {
    hide Rank, Less, Sorted, ToMap;
    PutSorted(f, key, Null);
    InMap(f, key);
    Around(f, key, []);
    var c := Rank(f, key);
    assert f[..c] + [] + f[c..] == f;
    assert f[..c] + [] == f[..c];
    SameButOne(f, Removed(f, key), key, []);
  }

  lemma {:induction false} MapSize(f: seq<Pair>)
    requires Sorted(f)
    ensures |ToMap(f)| == |f|
  {
    if f != [] {
      hide Less, ToMap;
      var last, g := f[|f| - 1], f[..|f| - 1];
      MapSize(g);
      MapLast(f);
    }
  }

  lemma MapLast(f: seq<Pair>)
    requires Sorted(f) && f != []
    ensures Sorted(f[..|f| - 1])
    ensures var last, m := f[|f| - 1], ToMap(f[..|f| - 1]);
            last.0 !in m && ToMap(f) == m[last.0 := last.1]
  {
    hide Less;
    LessIsTotalOrder();
    var last, g := f[|f| - 1], f[..|f| - 1];
    assert f == g + [last];
    SameButOne(g, f, last.0, [last]);
  }
}
