/** The mark-sweep collector: what is reachable from the roots is kept untouched, all else
    that is registered is freed, once. */
module Gc {

  datatype Kind = AVector | AnInstance | ATree

  /** A scalar, or a reference to a vector, an instance or a tree. */
  datatype Value = Scalar(id: nat) | Reference(to: Object?)

  /** A vector with its items, an instance with its fields, or a tree with its values. */
  class Object {
    const kind: Kind
    var items: seq<Value>
    var refcount: nat
    var mark: bool
    var next: Object?

    constructor (kind: Kind, items: seq<Value>)
      ensures this.kind == kind && this.items == items && refcount == 1 && !mark && next == null
    {
      this.kind, this.items, refcount, mark, next := kind, items, 1, false, null;
    }
  }

  // ---------- what refers to what ----------

  ghost predicate Refers(vs: seq<Value>, o: Object) {
    Reference(o) in vs
  }

  /** What the values refer to is in `s`. */
  ghost predicate Inside(vs: seq<Value>, s: set<Object>) {
    forall v :: v in vs && v.Reference? && v.to != null ==> v.to in s
  }

  /** No object of `s` refers to one outside. */
  ghost predicate Closed(s: set<Object>)
    reads s`items
  {
    forall o :: o in s ==> Inside(o.items, s)
  }

  /** Each object of the path is referred to by the one before it, the first by the roots. */
  ghost predicate Path(s: set<Object>, roots: seq<Value>, older path: seq<Object>)
    reads s`items
  {
    && path != [] && (forall i :: 0 <= i < |path| ==> path[i] in s)
    && Refers(roots, path[0])
    && forall i :: 0 < i < |path| ==> Refers(path[i - 1].items, path[i])
  }

  ghost predicate Reachable(s: set<Object>, roots: seq<Value>, o: Object)
    reads s`items
  {
    exists path: seq<Object> :: Path(s, roots, path) && path[|path| - 1] == o
  }

  lemma ReachFirst(s: set<Object>, roots: seq<Value>, o: Object)
    requires o in s && Refers(roots, o)
    ensures Reachable(s, roots, o)
  {
    assert Path(s, roots, [o]);
  }

  /** What an object refers to is reachable from whatever the object is. */
  lemma ReachThrough(s: set<Object>, o: Object, j: nat, x: Object)
    requires o in s && j < |o.items| && Reachable(s, [o.items[j]], x)
    ensures Reachable(s, [Reference(o)], x)
  {
    var path :| Path(s, [o.items[j]], path) && path[|path| - 1] == x;
    var longer := [o] + path;
    assert forall i :: 0 < i < |longer| ==> longer[i] == path[i - 1];
    assert Path(s, [Reference(o)], longer);
    assert longer[|longer| - 1] == x;
  }

  lemma ReachFromOne(s: set<Object>, roots: seq<Value>, k: nat, x: Object)
    requires k < |roots| && Reachable(s, [roots[k]], x)
    ensures Reachable(s, roots, x)
  {
    var path :| Path(s, [roots[k]], path) && path[|path| - 1] == x;
    assert Path(s, roots, path);
  }

  /** All that is marked has only marked below it. */
  ghost predicate Below(o: Object, s: set<Object>)
    reads s`mark, o`items
  {
    Inside(o.items, s) && forall v :: v in o.items && v.Reference? && v.to != null ==> v.to.mark
  }

  ghost predicate MarksClosed(s: set<Object>)
    reads s`mark, s`items
  {
    forall o :: o in s && o.mark ==> Below(o, s)
  }

  /** Marks that hold the roots and all that is below them hold all that is reachable. */
  lemma {:induction false} ReachableIsMarked(s: set<Object>, roots: seq<Value>, path: seq<Object>)
    requires MarksClosed(s) && Path(s, roots, path)
    requires forall v :: v in roots && v.Reference? && v.to != null && v.to in s ==> v.to.mark
    ensures path[|path| - 1].mark
    decreases |path|
  {
    if |path| > 1 {
      var before := path[..|path| - 1];
      assert Path(s, roots, before);
      ReachableIsMarked(s, roots, before);
      assert Refers(before[|before| - 1].items, path[|path| - 1]);
    }
  }

  // ---------- marking ----------

  ghost function Unmarked(s: set<Object>): set<Object>
    reads s`mark
  {
    set o | o in s && !o.mark
  }

  /** What marking from `v` does: it marks what `v` refers to, all that is below, and nothing else. */
  twostate predicate Marked(v: Value, s: set<Object>)
    reads s`mark, s`items
  {
    && (forall o :: o in s && old(o.mark) ==> o.mark)
    && (v.Reference? && v.to != null && v.to in s ==> v.to.mark)
    && (forall o :: o in s && o.mark && !old(o.mark) ==> Below(o, s) && Reachable(s, [v], o))
  }

  method MarkValue(v: Value, ghost s: set<Object>)
    requires Closed(s) && Inside([v], s)
    modifies s`mark
    ensures Marked(v, s)
    decreases Unmarked(s), 1
  {
    if v.Reference? {
      MarkObject(v.to, s);
    }
  }

  method MarkObject(o: Object?, ghost s: set<Object>)
    requires Closed(s) && (o != null ==> o in s)
    modifies s`mark
    ensures Marked(Reference(o), s)
    decreases Unmarked(s), 0
  {
    hide Reachable, Path;
    if o == null || o.mark {
      return;
    }
    o.mark := true;
    assert o in old(Unmarked(s)) && o !in Unmarked(s);
    assert Unmarked(s) < old(Unmarked(s));
    ReachFirst(s, [Reference(o)], o);
    MarkItems(o, s);
    assert Inside(o.items, s);
  }

  /** What marking all that `o` refers to does. */
  twostate predicate MarkedBelow(o: Object, s: set<Object>)
    reads s`mark, s`items, o`items
  {
    && (forall x :: x in s && old(x.mark) ==> x.mark)
    && (forall v :: v in o.items && v.Reference? && v.to != null ==> v.to in s && v.to.mark)
    && (forall x :: x in s && x.mark && !old(x.mark) ==> Below(x, s) && Reachable(s, [Reference(o)], x))
  }

  method MarkItems(o: Object, ghost s: set<Object>)
    requires Closed(s) && o in s
    modifies s`mark
    ensures MarkedBelow(o, s)
    decreases Unmarked(s), 2
  {
    hide Reachable, Path, Closed;
    ItemsInside(o, s);
    var i := 0;
    while i < |o.items|
      invariant 0 <= i <= |o.items|
      invariant forall x :: x in s && old(x.mark) ==> x.mark
      invariant forall j :: 0 <= j < i && o.items[j].Reference? && o.items[j].to != null ==> o.items[j].to.mark
      invariant forall x :: x in s && x.mark && !old(x.mark) ==> Below(x, s) && Reachable(s, [Reference(o)], x)
    {
      assert o.items[i] in o.items;
      assert Unmarked(s) <= old(Unmarked(s));
      label L:
      MarkValue(o.items[i], s);
      forall x | x in s && x.mark && !old@L(x.mark) ensures Reachable(s, [Reference(o)], x) {
        ReachThrough(s, o, i, x);
      }
      i := i + 1;
    }
  }

  lemma ItemsInside(o: Object, s: set<Object>)
    requires Closed(s) && o in s
    ensures forall v :: v in o.items && v.Reference? && v.to != null ==> v.to in s
  {
  }

  // ---------- a registry ----------

  function At(list: seq<Object>, i: nat): Object? {
    if i < |list| then list[i] else null
  }

  predicate NoDup(list: seq<Object>) {
    forall i, j :: 0 <= i < j < |list| ==> list[i] != list[j]
  }

  /** Those of the list that are marked, and those that are not. */
  ghost function Kept(list: seq<Object>): seq<Object>
    reads list`mark
  {
    if list == [] then []
    else Kept(list[..|list| - 1]) + (if list[|list| - 1].mark then [list[|list| - 1]] else [])
  }

  ghost function Dead(list: seq<Object>): seq<Object>
    reads list`mark
  {
    if list == [] then []
    else Dead(list[..|list| - 1]) + (if list[|list| - 1].mark then [] else [list[|list| - 1]])
  }

  /** How often an object is among values, and how often unmarked objects of a list refer to it. */
  function Held(vs: seq<Value>, o: Object): nat {
    if vs == [] then 0 else Held(vs[..|vs| - 1], o) + (if vs[|vs| - 1] == Reference(o) then 1 else 0)
  }

  ghost function HeldByDead(list: seq<Object>, o: Object): nat
    reads list`mark, list`items
  {
    if list == [] then 0
    else
      var last := list[|list| - 1];
      HeldByDead(list[..|list| - 1], o) + (if last.mark then 0 else Held(last.items, o))
  }

  /** An object is held once for each reference to it. */
  lemma {:induction false} HeldIs(vs: seq<Value>, o: Object)
    ensures Held(vs, o) == multiset(vs)[Reference(o)]
  {
    if vs != [] {
      HeldIs(vs[..|vs| - 1], o);
      assert vs == vs[..|vs| - 1] + [vs[|vs| - 1]];
    }
  }

  lemma HeldOneMore(vs: seq<Value>, j: nat, o: Object)
    requires j < |vs|
    ensures Held(vs[..j + 1], o) == Held(vs[..j], o) + (if vs[j] == Reference(o) then 1 else 0)
  {
    assert vs[..j + 1][..j] == vs[..j];
  }

  lemma HeldByOneMore(list: seq<Object>, i: nat, o: Object)
    requires i < |list|
    ensures HeldByDead(list[..i + 1], o) == HeldByDead(list[..i], o) + (if list[i].mark then 0 else Held(list[i].items, o))
  {
    assert list[..i + 1][..i] == list[..i];
  }

  lemma ReducedTwice(count: nat, m: nat, n: nat)
    ensures Reduced(Reduced(count, m), n) == Reduced(count, m + n)
  {
  }

  /** A count that is taken down so often, but never below zero. */
  function Reduced(count: nat, n: nat): nat {
    if count > n then count - n else 0
  }

  lemma {:induction false} KeptIs(list: seq<Object>)
    ensures forall o :: o in Kept(list) <==> o in list && o.mark
    ensures forall o :: o in Dead(list) <==> o in list && !o.mark
    ensures |Kept(list)| + |Dead(list)| == |list|
    ensures NoDup(list) ==> NoDup(Kept(list)) && NoDup(Dead(list))
  {
    if list != [] {
      KeptIs(list[..|list| - 1]);
      assert list == list[..|list| - 1] + [list[|list| - 1]];
    }
  }

  lemma KeptInside(list: seq<Object>, i: nat)
    requires i <= |list|
    ensures forall o :: o in Kept(list[..i]) + list[i..] ==> o in list
  {
    KeptIs(list[..i]);
    assert allocated(Kept(list[..i]));
    forall o | o in Kept(list[..i]) + list[i..] ensures o in list {
      if o in list[..i] {
        assert list == list[..i] + list[i..];
      } else {
        assert o in list[i..];
      }
    }
  }

  lemma KeptOneMore(list: seq<Object>, i: nat)
    requires i < |list|
    ensures Kept(list[..i + 1]) == Kept(list[..i]) + (if list[i].mark then [list[i]] else [])
    ensures Dead(list[..i + 1]) == Dead(list[..i]) + (if list[i].mark then [] else [list[i]])
  {
    assert list[..i + 1][..i] == list[..i];
  }

  /** The objects of one kind, linked through themselves. */
  class Registry {
    const kind: Kind
    var head: Object?

    ghost var list: seq<Object>
    ghost var freed: seq<Object>

    constructor (kind: Kind)
      ensures this.kind == kind && list == [] && freed == [] && Valid()
    {
      this.kind, head, list, freed := kind, null, [], [];
    }

    ghost predicate Valid()
      reads `head, `list, list`next
    {
      && NoDup(list) && (forall i :: 0 <= i < |list| ==> list[i].kind == kind)
      && head == At(list, 0)
      && forall i :: 0 <= i < |list| ==> list[i].next == At(list, i + 1)
    }

    method Register(o: Object)
      requires Valid() && o !in list && o.kind == kind
      modifies this, o`next, o`mark
      ensures Valid() && list == [o] + old(list) && !o.mark && freed == old(freed)
    {
      o.mark := false;
      o.next := head;
      head := o;
      list := [o] + list;
    }

    /** Takes an object out of the list. */
    method Unregister(o: Object, ghost k: nat, ghost all: set<Object>)
      requires Valid() && (forall x :: x in list ==> x in all) && k < |list| && list[k] == o
      modifies `head, `list, all`next
      ensures Valid() && list == old(list[..k] + list[k + 1..])
      ensures forall x :: x in all && x !in old(list) ==> x.next == old(x.next)
    {
      var before := LinkTo(o, k);
      TakenOut(list, k);
      if before == null {
        head := o.next;
      } else {
        before.next := o.next;
      }
      o.next := null;
      list := list[..k] + list[k + 1..];
    }

    /** The object whose link leads to `o`; none when the head of the list does. */
    method LinkTo(o: Object, ghost k: nat) returns (before: Object?)
      requires Valid() && k < |list| && list[k] == o
      ensures if k == 0 then before == null else before == list[k - 1]
    {
      var at := head;
      before := null;
      ghost var i := 0;
      while at != o
        invariant i <= k && at == At(list, i) && (if i == 0 then before == null else before == list[i - 1])
        decreases k - i
      {
        before := at;
        at := at.next;
        i := i + 1;
      }
    }

    static lemma TakenOut(was: seq<Object>, k: nat)
      requires NoDup(was) && k < |was|
      ensures var now := was[..k] + was[k + 1..];
              && NoDup(now) && |now| == |was| - 1
              && forall i :: 0 <= i < |now| ==> now[i] == was[if i < k then i else i + 1]
    {
    }

    method ClearMarks()
      requires Valid()
      modifies list`mark
      ensures forall o :: o in list ==> !o.mark
    {
      var at := head;
      ghost var i := 0;
      while at != null
        invariant i <= |list| && at == At(list, i) && Valid()
        invariant forall j :: 0 <= j < i ==> !list[j].mark
        decreases |list| - i
      {
        at.mark := false;
        at := at.next;
        i := i + 1;
      }
    }

    method Count() returns (n: nat)
      requires Valid()
      ensures n == |list|
    {
      n := 0;
      var at := head;
      while at != null
        invariant n <= |list| && at == At(list, n)
        decreases |list| - n
      {
        n := n + 1;
        at := at.next;
      }
    }

    /** Takes back, from every child that is not marked, the references that unmarked parents hold. */
    method DropReferences(ghost s: set<Object>)
      requires Valid() && Closed(s) && forall o :: o in list ==> o in s
      modifies s`refcount
      ensures forall o :: o in s ==>
                o.refcount == if o.mark then old(o.refcount) else Reduced(old(o.refcount), HeldByDead(list, o))
    {
      hide Held, HeldByDead, Closed;
      NothingHeld();
      var at := head;
      ghost var i := 0;
      assert list[..0] == [];
      while at != null
        invariant i <= |list| && at == At(list, i)
        invariant forall o :: o in s ==>
                    o.refcount == if o.mark then old(o.refcount) else Reduced(old(o.refcount), HeldByDead(list[..i], o))
        decreases |list| - i
      {
        forall o | o in s
          ensures HeldByDead(list[..i + 1], o) == HeldByDead(list[..i], o) + (if at.mark then 0 else Held(at.items, o))
        {
          HeldByOneMore(list, i, o);
        }
        if !at.mark {
          ItemsInside(at, s);
          DropItems(at, s);
        }
        at := at.next;
        i := i + 1;
      }
      assert list[..i] == list;
    }

    static lemma NothingHeld()
      ensures forall o :: Held([], o) == 0 && HeldByDead([], o) == 0
    {
    }

    static method DropItems(at: Object, ghost s: set<Object>)
      requires forall v :: v in at.items && v.Reference? && v.to != null ==> v.to in s
      modifies s`refcount
      ensures forall o :: o in s ==> o.refcount == if o.mark then old(o.refcount) else Reduced(old(o.refcount), Held(at.items, o))
    {
      hide Held;
      NothingHeld();
      var j := 0;
      assert at.items[..0] == [];
      while j < |at.items|
        invariant 0 <= j <= |at.items|
        invariant forall o :: o in s ==>
                    o.refcount == if o.mark then old(o.refcount) else Reduced(old(o.refcount), Held(at.items[..j], o))
      {
        assert at.items[j] in at.items;
        forall o | o in s
          ensures Held(at.items[..j + 1], o) == Held(at.items[..j], o) + (if at.items[j] == Reference(o) then 1 else 0)
        {
          HeldOneMore(at.items, j, o);
        }
        DropReference(at.items[j], s);
        j := j + 1;
      }
      assert at.items[..j] == at.items;
    }

    static method DropReference(v: Value, ghost s: set<Object>)
      requires v.Reference? && v.to != null ==> v.to in s
      modifies s`refcount
      ensures forall o :: o in s ==>
                o.refcount == if v == Reference(o) && !o.mark then Reduced(old(o.refcount), 1) else old(o.refcount)
    {
      if v.Reference? && v.to != null && !v.to.mark && v.to.refcount > 0 {
        v.to.refcount := v.to.refcount - 1;
      }
    }

    /** Gives the memory of an object back: what it held is gone. */
    method Destroy(o: Object)
      modifies o`items, `freed
      ensures freed == old(freed) + [o] && o.items == []
    {
      o.items := [];
      freed := freed + [o];
    }

    /** Frees all that is not marked, unlinking it while walking the list. */
    method Reclaim(ghost all: set<Object>) returns (collected: nat)
      requires Valid() && (forall x :: x in list ==> x in all)
      modifies `head, `list, `freed, all`next, all`items
      ensures Valid() && list == Kept(old(list)) && freed == old(freed) + Dead(old(list))
      ensures collected == |Dead(old(list))|
      ensures forall o :: o in all && (o !in old(list) || o.mark) ==> o.items == old(o.items) && (o !in old(list) ==> o.next == old(o.next))
    {
      hide Kept, Dead, Valid, At;
      ghost var was, i := list, 0;
      collected := 0;
      var at := head;
      NoneKept();
      WalkStarts();
      while at != null
        invariant i <= |was| && at == At(was, i) && Valid()
        invariant list == Kept(was[..i]) + was[i..] && freed == old(freed) + Dead(was[..i])
        invariant collected == |Dead(was[..i])|
        invariant forall o :: o in all && (o !in was || o.mark) ==> o.items == old(o.items) && (o !in was ==> o.next == old(o.next))
        decreases |was| - i
      {
        AtInside(was, i);
        KeptInside(was, i);
        assert allocated(Kept(was[..i]));
        at, collected := ReclaimOne(at, collected, was, i, all);
        i := i + 1;
      }
      AtInside(was, i);
      assert was[..i] == was && was[i..] == [];
    }

    lemma WalkStarts()
      requires Valid()
      ensures head == At(list, 0) && list[0..] == list && list[..0] == []
    {
    }

    lemma NextInWalk(k: nat, was: seq<Object>, i: nat)
      requires Valid() && k < |list| && i < |was| && list[k + 1..] == was[i + 1..]
      ensures list[k].next == At(was, i + 1)
    {
      assert k + 1 < |list| ==> list[k + 1..][0] == list[k + 1];
      assert i + 1 < |was| ==> was[i + 1..][0] == was[i + 1];
    }

    /** One step of the walk: the object is freed or stays. */
    method ReclaimOne(at: Object, collected0: nat, ghost was: seq<Object>, ghost i: nat, ghost all: set<Object>) returns (next: Object?, collected: nat)
      requires Valid() && (forall x :: x in list ==> x in all) && i < |was| && at == was[i] && list == Kept(was[..i]) + was[i..]
      modifies `head, `list, `freed, all`next, at`items
      ensures Valid() && next == At(was, i + 1) && list == Kept(was[..i + 1]) + was[i + 1..]
      ensures freed == old(freed) + (if at.mark then [] else [at])
      ensures forall x :: x in all && x !in old(list) ==> x.next == old(x.next)
      ensures collected == collected0 + (if at.mark then 0 else 1)
      ensures at.mark ==> at.items == old(at.items)
      ensures Dead(was[..i + 1]) == Dead(was[..i]) + (if at.mark then [] else [at])
    {
      hide Kept, Dead, Valid, At;
      ghost var kept, rest, kept2 := Kept(was[..i]), was[i + 1..], Kept(was[..i + 1]);
      ghost var k := |kept|;
      KeptOneMore(was, i);
      assert was[i..] == [at] + rest;
      assert list == kept + [at] + rest;
      assert list[k] == at && list[k + 1..] == rest;
      NextInWalk(k, was, i);
      next := at.next;
      collected := collected0;
      if !at.mark {
        assert list[..k] + list[k + 1..] == kept + rest;
        assert kept2 == kept;
        Unregister(at, k, all);
        Destroy(at);
        collected := collected + 1;
      }
    }
  }

  lemma AtInside(list: seq<Object>, i: nat)
    requires i <= |list|
    ensures At(list, i) == null <==> i == |list|
    ensures i < |list| ==> At(list, i) == list[i]
  {
  }

  lemma NoneKept()
    ensures Kept([]) == [] && Dead([]) == []
  {
  }

  // ---------- a collection ----------

  const THRESHOLD := 4096

  class Collector {
    const vectors: Registry
    const instances: Registry
    const trees: Registry
    var recent: nat
    var pending: bool
    var total: nat

    constructor ()
      ensures Valid() && All() == {} && recent == total == 0 && !pending
      ensures fresh(vectors) && fresh(instances) && fresh(trees)
      ensures vectors.list == instances.list == trees.list == [] && vectors.freed == instances.freed == trees.freed == []
    {
      vectors := new Registry(AVector);
      instances := new Registry(AnInstance);
      trees := new Registry(ATree);
      recent, pending, total := 0, false, 0;
    }

    ghost predicate Listed()
      reads vectors, instances, trees, vectors.list`next, instances.list`next, trees.list`next
    {
      && vectors.kind == AVector && instances.kind == AnInstance && trees.kind == ATree
      && vectors.Valid() && instances.Valid() && trees.Valid()
    }

    /** Every object is registered once, and refers to registered objects only. */
    ghost predicate Valid()
      reads vectors, instances, trees, vectors.list`next, instances.list`next, trees.list`next, All()`items
    {
      Listed() && Closed(All())
    }

    ghost function All(): set<Object>
      reads vectors`list, instances`list, trees`list
    {
      set o | o in vectors.list + instances.list + trees.list
    }

    /** How many objects there are, by a walk through the lists. */
    method ObjectCount() returns (n: nat)
      requires Valid()
      ensures n == |All()|
    {
      hide NoDup, Closed;
      var v := vectors.Count();
      var i := instances.Count();
      var t := trees.Count();
      Sizes();
      n := v + i + t;
    }

    /** Another object has been made; every so often that asks for a collection. */
    method NoteAlloc()
      modifies `recent, `pending
      ensures if old(recent) + 1 >= 4096 then recent == 0 && pending
              else recent == old(recent) + 1 && pending == old(pending)
    {
      recent := recent + 1;
      if recent >= THRESHOLD {
        recent := 0;
        pending := true;
      }
    }

    method Begin()
      requires Valid()
      modifies All()`mark
      ensures Valid() && forall o :: o in All() ==> !o.mark
    {
      hide Registry.Valid, Closed;
      vectors.ClearMarks();
      instances.ClearMarks();
      trees.ClearMarks();
    }

    /** Marks all that can be reached from the roots, and nothing else. */
    method MarkRoots(roots: seq<Value>)
      requires Valid() && Inside(roots, All()) && forall o :: o in All() ==> !o.mark
      modifies All()`mark
      ensures forall o :: o in All() ==> (o.mark <==> Reachable(All(), roots, o))
      ensures MarksClosed(All())
    {
      hide Reachable, Path, Listed, Closed, Below;
      ghost var all := All();
      var k := 0;
      while k < |roots|
        invariant 0 <= k <= |roots| && All() == all && Closed(all)
        invariant MarksClosed(all)
        invariant forall v :: v in roots[..k] && v.Reference? && v.to != null ==> v.to.mark
        invariant forall o :: o in all && o.mark ==> Reachable(all, roots, o)
      {
        label L:
        MarkRoot(roots, k, all);
        assert roots[..k + 1] == roots[..k] + [roots[k]];
        k := k + 1;
      }
      assert roots[..k] == roots;
      AllReached(roots, all);
    }

    static method MarkRoot(roots: seq<Value>, k: nat, ghost all: set<Object>)
      requires k < |roots| && Inside(roots, all) && Closed(all) && MarksClosed(all)
      requires forall o :: o in all && o.mark ==> Reachable(all, roots, o)
      modifies all`mark
      ensures MarksClosed(all) && forall o :: o in all && old(o.mark) ==> o.mark
      ensures roots[k].Reference? && roots[k].to != null ==> roots[k].to.mark
      ensures forall o :: o in all && o.mark ==> Reachable(all, roots, o)
    {
      hide Reachable, Path, Closed;
      MarkValue(roots[k], all);
      forall o | o in all && Reachable(all, [roots[k]], o) ensures Reachable(all, roots, o) {
        ReachFromOne(all, roots, k, o);
      }
    }

    static lemma AllReached(roots: seq<Value>, all: set<Object>)
      requires MarksClosed(all)
      requires forall v :: v in roots && v.Reference? && v.to != null ==> v.to.mark
      ensures forall o :: o in all && Reachable(all, roots, o) ==> o.mark
    {
      forall o | o in all && Reachable(all, roots, o) ensures o.mark {
        var path :| Path(all, roots, path) && path[|path| - 1] == o;
        ReachableIsMarked(all, roots, path);
      }
    }

    /** A whole collection: exactly what can be reached from the roots is left, as it was. */
    method Collect(roots: seq<Value>) returns (collected: nat)
      requires Valid() && Inside(roots, All())
      modifies this, vectors, instances, trees, All()`mark, All()`next, All()`items, All()`refcount
      ensures Valid() && All() == set o | o in old(All()) && old(Reachable(All(), roots, o))
      ensures forall o :: o in All() ==> o.items == old(o.items) && o.refcount == old(o.refcount)
      ensures FreedOnce(vectors, old(All()) - All()) && FreedOnce(instances, old(All()) - All()) && FreedOnce(trees, old(All()) - All())
      ensures collected + |All()| == |old(All())|
      ensures !pending
    {
      hide Reachable, Path, Kept, Dead, Listed, Closed, MarksClosed, Inside, NoDup, Swept, Below, Refers;
      Begin();
      MarkRoots(roots);
      collected := Sweep();
    }

    /** Pass 1: what garbage refers to and is garbage loses those references, and just those. */
    method Detach()
      requires Valid()
      modifies All()`refcount
      ensures forall o :: o in All() ==>
                o.refcount == if o.mark then old(o.refcount)
                              else Reduced(old(o.refcount), HeldByDead(vectors.list, o) + HeldByDead(instances.list, o) + HeldByDead(trees.list, o))
    {
      hide Held, HeldByDead, Closed, Reduced, NoDup, At;
      ghost var all := All();
      vectors.DropReferences(all);
      instances.DropReferences(all);
      trees.DropReferences(all);
      forall o | o in all
        ensures o.refcount == if o.mark then old(o.refcount)
                              else Reduced(old(o.refcount), HeldByDead(vectors.list, o) + HeldByDead(instances.list, o) + HeldByDead(trees.list, o))
      {
        ReducedTwice(old(o.refcount), HeldByDead(vectors.list, o), HeldByDead(instances.list, o));
        ReducedTwice(old(o.refcount), HeldByDead(vectors.list, o) + HeldByDead(instances.list, o), HeldByDead(trees.list, o));
      }
    }

    /** Exactly the objects of `gone` that were in the list have been freed, each once. */
    twostate predicate FreedOnce(r: Registry, gone: set<Object>)
      reads r
    {
      && old(r.freed) <= r.freed
      && var news := r.freed[|old(r.freed)|..];
         NoDup(news) && (set o | o in news) == (set o | o in old(r.list) && o in gone)
    }

    /** What freeing does to the lists: the marked stay, in order, and the rest is freed. */
    twostate predicate Swept()
      reads vectors, instances, trees, vectors.list`mark, instances.list`mark, trees.list`mark
    {
      && vectors.list == old(Kept(vectors.list)) && vectors.freed == old(vectors.freed + Dead(vectors.list))
      && instances.list == old(Kept(instances.list)) && instances.freed == old(instances.freed + Dead(instances.list))
      && trees.list == old(Kept(trees.list)) && trees.freed == old(trees.freed + Dead(trees.list))
    }

    /** Frees all that is not marked. */
    method Sweep() returns (collected: nat)
      requires Valid() && MarksClosed(All())
      modifies this, vectors, instances, trees, All()`next, All()`items, All()`refcount
      ensures Valid() && All() == set o | o in old(All()) && old(o.mark)
      ensures forall o :: o in All() ==> o.items == old(o.items) && o.refcount == old(o.refcount)
      ensures Swept()
      ensures FreedOnce(vectors, old(All()) - All()) && FreedOnce(instances, old(All()) - All()) && FreedOnce(trees, old(All()) - All())
      ensures collected + |All()| == |old(All())|
      ensures total == old(total) + collected && !pending && recent == 0
    {
      hide Kept, Dead, Listed, Closed, MarksClosed, Inside;
      Detach();
      collected := FreeUnmarked();
      total, pending, recent := total + collected, false, 0;
    }

    method FreeUnmarked() returns (collected: nat)
      requires Valid() && MarksClosed(All())
      modifies vectors, instances, trees, All()`next, All()`items
      ensures Valid() && All() == set o | o in old(All()) && old(o.mark)
      ensures forall o :: o in All() ==> o.items == old(o.items)
      ensures Swept()
      ensures FreedOnce(vectors, old(All()) - All()) && FreedOnce(instances, old(All()) - All()) && FreedOnce(trees, old(All()) - All())
      ensures collected + |All()| == |old(All())|
    {
      hide Kept, Dead, Below, Listed, Closed, MarksClosed, Inside;
      ghost var all, kept := All(), set o | o in All() && o.mark;
      Survivors();
      SurvivorsClosed();
      Sizes();
      DeadAreAll(kept);
      collected := Free(all);
      AllKept(kept);
      assert FreedOnce(vectors, all - kept) && FreedOnce(instances, all - kept) && FreedOnce(trees, all - kept);
    }

    /** What is dead of a list is what is not kept. */
    lemma DeadAre(r: Registry, kept: set<Object>)
      requires r.Valid() && (forall o :: o in r.list ==> o in All()) && kept == set o | o in All() && o.mark
      ensures NoDup(Dead(r.list)) && (set o | o in Dead(r.list)) == (set o | o in r.list && o in All() - kept)
    {
      KeptIs(r.list);
      assert allocated(Dead(r.list));
    }

    lemma DeadAreAll(kept: set<Object>)
      requires Listed() && kept == set o | o in All() && o.mark
      ensures forall r :: r in {vectors, instances, trees} ==>
                NoDup(Dead(r.list)) && (set o | o in Dead(r.list)) == (set o | o in r.list && o in All() - kept)
    {
      hide Kept, Dead;
      DeadAre(vectors, kept);
      DeadAre(instances, kept);
      DeadAre(trees, kept);
    }

    lemma AllKept(kept: set<Object>)
      requires Listed() && All() == kept && forall o :: o in kept ==> Inside(o.items, kept)
      ensures Valid() && |kept| == |vectors.list| + |instances.list| + |trees.list|
    {
      hide Listed;
      Sizes();
    }

    /** What is marked refers to what is marked. */
    lemma SurvivorsClosed()
      requires MarksClosed(All())
      ensures var kept := set o | o in All() && o.mark;
              forall o :: o in kept ==> Inside(o.items, kept)
    {
    }

    /** Pass 2: frees what is not marked, list after list. */
    method Free(ghost all: set<Object>) returns (collected: nat)
      requires Listed() && all == All()
      modifies vectors, instances, trees, all`next, all`items
      ensures Listed()
      ensures forall o :: o in all && o.mark ==> o.items == old(o.items)
      ensures Swept()
      ensures collected == |Dead(old(vectors.list))| + |Dead(old(instances.list))| + |Dead(old(trees.list))|
    {
      hide Kept, Dead, Registry.Valid;
      Apart();
      KeptIs(vectors.list);
      KeptIs(instances.list);
      assert allocated(Kept(vectors.list)) && allocated(Kept(instances.list));
      var v := vectors.Reclaim(all);
      assert vectors.Valid() && instances.Valid() && trees.Valid();
      var s := instances.Reclaim(all);
      assert vectors.Valid() && instances.Valid() && trees.Valid();
      var t := trees.Reclaim(all);
      collected := v + s + t;
    }

    /** No object is in two lists, as each is of one kind. */
    lemma Apart()
      requires Listed()
      ensures forall o :: o in vectors.list ==> o !in instances.list && o !in trees.list
      ensures forall o :: o in instances.list ==> o !in trees.list
    {
    }

    /** What is kept of the lists is what is marked. */
    lemma Survivors()
      requires Listed()
      ensures (set o | o in Kept(vectors.list) + Kept(instances.list) + Kept(trees.list)) == set o | o in All() && o.mark
      ensures |Kept(vectors.list)| + |Dead(vectors.list)| == |vectors.list|
      ensures |Kept(instances.list)| + |Dead(instances.list)| == |instances.list|
      ensures |Kept(trees.list)| + |Dead(trees.list)| == |trees.list|
    {
      hide Kept, Dead;
      KeptIs(vectors.list);
      KeptIs(instances.list);
      KeptIs(trees.list);
      assert allocated(Kept(vectors.list)) && allocated(Kept(instances.list)) && allocated(Kept(trees.list));
    }

    lemma Sizes()
      requires Listed()
      ensures |All()| == |vectors.list| + |instances.list| + |trees.list|
    {
      var a, b, c := vectors.list, instances.list, trees.list;
      forall i, j | 0 <= i < j < |a + b + c| ensures (a + b + c)[i] != (a + b + c)[j] {
      }
      SetSize(a + b + c);
    }
  }

  lemma {:induction false} SetSize(list: seq<Object>)
    requires NoDup(list)
    ensures |set o | o in list| == |list|
  {
    if list != [] {
      var rest, last := list[..|list| - 1], list[|list| - 1];
      SetSize(rest);
      assert list == rest + [last];
      assert (set o | o in list) == (set o | o in rest) + {last};
    }
  }
}
