/** "Did you mean": the distance between two names, and the name nearest to one. */
module EditDistance {
  import opened Common

  const LONGEST := 64

  // ---------- edits ----------

  /** One byte of `s` put in, taken out or replaced. */
  predicate Edit(s: seq<Byte>, t: seq<Byte>, p: nat) {
    || (p <= |s| && |t| == |s| + 1 && s == t[..p] + t[p + 1..])
    || (p < |s| && |s| == |t| + 1 && t == s[..p] + s[p + 1..])
    || (p < |s| == |t| && s[..p] == t[..p] && s[p + 1..] == t[p + 1..])
  }

  ghost predicate OneEdit(s: seq<Byte>, t: seq<Byte>) {
    exists p :: Edit(s, t, p)
  }

  /** `n` edits make `t` of `s`. */
  ghost predicate Edits(s: seq<Byte>, t: seq<Byte>, n: nat)
    decreases n
  {
    if n == 0 then s == t
    else exists u :: OneEdit(s, u) && Edits(u, t, n - 1)
  }

  // ---------- the recursive distance ----------

  function Min(a: nat, b: nat): nat {
    if a < b then a else b
  }

  function Init(s: seq<Byte>): seq<Byte>
    requires s != []
  {
    s[..|s| - 1]
  }

  function Last(s: seq<Byte>): Byte
    requires s != []
  {
    s[|s| - 1]
  }

  function Levenshtein(a: seq<Byte>, b: seq<Byte>): nat
    decreases |a| + |b|
  {
    if a == [] then |b|
    else if b == [] then |a|
    else
      Min(Levenshtein(Init(a), Init(b)) + (if Last(a) != Last(b) then 1 else 0),
          Min(Levenshtein(Init(a), b) + 1, Levenshtein(a, Init(b)) + 1))
  }

  /** What is longer by some bytes is at least that many edits away. */
  lemma {:induction false} AtLeastTheLengths(a: seq<Byte>, b: seq<Byte>)
    ensures |a| - |b| <= Levenshtein(a, b) && |b| - |a| <= Levenshtein(a, b)
    decreases |a| + |b|
  {
    if a != [] && b != [] {
      AtLeastTheLengths(Init(a), Init(b));
      AtLeastTheLengths(Init(a), b);
      AtLeastTheLengths(a, Init(b));
    }
  }

  // ---------- no fewer edits do ----------

  /** The edit leaves the last byte. */
  predicate Early(a: seq<Byte>, c: seq<Byte>, p: nat) {
    p + 1 < |a| || p + 1 < |c|
  }

  /** An edit of `a` that leaves its last byte is an edit of what is before it. */
  lemma EditBefore(a: seq<Byte>, c: seq<Byte>, p: nat)
    requires Edit(a, c, p) && Early(a, c, p)
    ensures a != [] && c != [] && Last(a) == Last(c) && Edit(Init(a), Init(c), p)
  {
    if |c| == |a| + 1 {
      assert a[|a| - 1] == (c[..p] + c[p + 1..])[|a| - 1];
      assert Init(a) == Init(c)[..p] + Init(c)[p + 1..];
    } else if |a| == |c| + 1 {
      assert c[|c| - 1] == (a[..p] + a[p + 1..])[|c| - 1];
      assert Init(c) == Init(a)[..p] + Init(a)[p + 1..];
    } else {
      assert a[p + 1..][|a| - p - 2] == c[p + 1..][|a| - p - 2];
      assert Init(a)[p + 1..] == a[p + 1..][..|a| - p - 2];
      assert Init(c)[p + 1..] == c[p + 1..][..|a| - p - 2];
      assert Init(a)[..p] == a[..p] && Init(c)[..p] == c[..p];
    }
  }

  /** An edit of the last byte. */
  lemma EditLast(a: seq<Byte>, c: seq<Byte>, p: nat)
    requires Edit(a, c, p) && !Early(a, c, p)
    ensures if |c| == |a| + 1 then Init(c) == a
            else if |a| == |c| + 1 then Init(a) == c
            else a != [] && c != [] && Init(a) == Init(c)
  {
    if |c| == |a| + 1 {
      assert c[p + 1..] == [] && c[..p] == Init(c);
    } else if |a| == |c| + 1 {
      assert a[p + 1..] == [] && a[..p] == Init(a);
    } else {
      assert a[..p] == Init(a) && c[..p] == Init(c);
    }
  }

  /** Without its last byte a name is at most one edit further away. */
  lemma {:induction false} ShorterIsNear(a: seq<Byte>, b: seq<Byte>)
    requires a != []
    ensures Levenshtein(Init(a), b) <= Levenshtein(a, b) + 1
    decreases |b|
  {
    if b != [] {
      ShorterIsNear(a, Init(b));
      if Init(a) != [] {
        assert Levenshtein(Init(a), b) <= Levenshtein(Init(a), Init(b)) + 1;
      }
    }
  }

  /** Two names that differ in their last byte only are about as far away. */
  lemma {:induction false} ReplacedIsNear(a: seq<Byte>, c: seq<Byte>, b: seq<Byte>)
    requires a != [] && c != [] && Init(a) == Init(c)
    ensures Levenshtein(a, b) <= Levenshtein(c, b) + 1
    decreases |b|
  {
    if b != [] {
      ReplacedIsNear(a, c, Init(b));
    }
  }

  /** One edit changes the distance by one at most. */
  lemma {:induction false} EditIsNear(a: seq<Byte>, c: seq<Byte>, p: nat, b: seq<Byte>)
    requires Edit(a, c, p)
    ensures Levenshtein(a, b) <= Levenshtein(c, b) + 1
    decreases |a| + |b|
  {
    hide Edit, Early;
    EditLengths(a, c, p);
    if b == [] {
      ToNothing(a);
      ToNothing(c);
    } else if Early(a, c, p) {
      EditBefore(a, c, p);
      EditIsNear(Init(a), Init(c), p, Init(b));
      EditIsNear(Init(a), Init(c), p, b);
      EditIsNear(a, c, p, Init(b));
    } else {
      EditLast(a, c, p);
      if |c| == |a| + 1 {
        ShorterIsNear(c, b);
      } else if |a| == |c| {
        ReplacedIsNear(a, c, b);
      }
    }
  }

  lemma EditLengths(a: seq<Byte>, c: seq<Byte>, p: nat)
    requires Edit(a, c, p)
    ensures -1 <= |a| - |c| <= 1
  {
  }

  lemma ToNothing(a: seq<Byte>)
    ensures Levenshtein(a, []) == |a|
  {
  }

  lemma {:induction false} NoFewerEdits(a: seq<Byte>, b: seq<Byte>, n: nat)
    requires Edits(a, b, n)
    ensures Levenshtein(a, b) <= n
    decreases n
  {
    if n == 0 {
      SameIsZero(a);
    } else {
      var u :| OneEdit(a, u) && Edits(u, b, n - 1);
      var p :| Edit(a, u, p);
      NoFewerEdits(u, b, n - 1);
      EditIsNear(a, u, p, b);
    }
  }

  lemma {:induction false} SameIsZero(a: seq<Byte>)
    ensures Levenshtein(a, a) == 0
  {
    if a != [] {
      SameIsZero(Init(a));
    }
  }

  // ---------- that many do ----------

  /** Edits can be made in front of what stays. */
  lemma {:induction false} EditsBefore(s: seq<Byte>, t: seq<Byte>, n: nat, tail: seq<Byte>)
    requires Edits(s, t, n)
    ensures Edits(s + tail, t + tail, n)
    decreases n
  {
    if n > 0 {
      var u :| OneEdit(s, u) && Edits(u, t, n - 1);
      var p :| Edit(s, u, p);
      EditWithTail(s, u, p, tail);
      EditsBefore(u, t, n - 1, tail);
      assert OneEdit(s + tail, u + tail);
    }
  }

  lemma EditWithTail(s: seq<Byte>, t: seq<Byte>, p: nat, tail: seq<Byte>)
    requires Edit(s, t, p)
    ensures Edit(s + tail, t + tail, p)
  {
    if |t| == |s| + 1 {
      assert s + tail == (t + tail)[..p] + (t + tail)[p + 1..];
    } else if |s| == |t| + 1 {
      assert t + tail == (s + tail)[..p] + (s + tail)[p + 1..];
    } else {
      assert (s + tail)[..p] == s[..p] && (t + tail)[..p] == t[..p];
      assert (s + tail)[p + 1..] == s[p + 1..] + tail && (t + tail)[p + 1..] == t[p + 1..] + tail;
    }
  }

  lemma {:induction false} EditsJoin(s: seq<Byte>, t: seq<Byte>, u: seq<Byte>, m: nat, n: nat)
    requires Edits(s, t, m) && Edits(t, u, n)
    ensures Edits(s, u, m + n)
    decreases m
  {
    if m > 0 {
      var v :| OneEdit(s, v) && Edits(v, t, m - 1);
      EditsJoin(v, t, u, m - 1, n);
    }
  }

  lemma EditOnce(s: seq<Byte>, t: seq<Byte>, p: nat)
    requires Edit(s, t, p)
    ensures Edits(s, t, 1)
  {
    assert OneEdit(s, t) && Edits(t, t, 0);
  }

  /** Three ways to get from `a` to `b`: as the recursion goes. */
  lemma DropFirst(a: seq<Byte>, b: seq<Byte>, n: nat)
    requires a != [] && Edits(Init(a), b, n)
    ensures Edits(a, b, n + 1)
  {
    hide Edits, Edit;
    DropLast(a);
    EditOnce(a, Init(a), |a| - 1);
    EditsJoin(a, Init(a), b, 1, n);
  }

  lemma AddAfterwards(a: seq<Byte>, b: seq<Byte>, n: nat)
    requires b != [] && Edits(a, Init(b), n)
    ensures Edits(a, b, n + 1)
  {
    hide Edits, Edit;
    DropLast(b);
    EditOnce(Init(b), b, |b| - 1);
    EditsJoin(a, Init(b), b, n, 1);
  }

  lemma KeepLast(a: seq<Byte>, b: seq<Byte>, n: nat)
    requires a != [] && b != [] && Edits(Init(a), Init(b), n)
    ensures Edits(a, b, n + if Last(a) != Last(b) then 1 else 0)
  {
    hide Edits, Edit;
    var tail := [Last(a)];
    EditsBefore(Init(a), Init(b), n, tail);
    assert Init(a) + tail == a;
    assert Init(b) + [Last(b)] == b;
    if Last(a) != Last(b) {
      SwapLast(Init(b), Last(a), Last(b));
      EditOnce(Init(b) + tail, b, |b| - 1);
      EditsJoin(a, Init(b) + tail, b, n, 1);
    }
  }

  /** There is a way to make `b` of `a` with that many edits. */
  lemma {:induction false} EnoughEdits(a: seq<Byte>, b: seq<Byte>)
    ensures Edits(a, b, Levenshtein(a, b))
    decreases |a| + |b|
  {
    hide Edits, Edit;
    if a == [] && b == [] {
      NoEdits(a);
    } else if b == [] || (a != [] && Levenshtein(a, b) == Levenshtein(Init(a), b) + 1) {
      EnoughEdits(Init(a), b);
      DropFirst(a, b, Levenshtein(Init(a), b));
    } else if a == [] || Levenshtein(a, b) == Levenshtein(a, Init(b)) + 1 {
      EnoughEdits(a, Init(b));
      AddAfterwards(a, b, Levenshtein(a, Init(b)));
    } else {
      EnoughEdits(Init(a), Init(b));
      KeepLast(a, b, Levenshtein(Init(a), Init(b)));
    }
  }

  lemma NoEdits(a: seq<Byte>)
    ensures Edits(a, a, 0)
  {
  }

  lemma DropLast(a: seq<Byte>)
    requires a != []
    ensures Edit(a, Init(a), |a| - 1) && Edit(Init(a), a, |a| - 1)
  {
    assert a[..|a| - 1] + a[|a|..] == Init(a);
  }

  lemma SwapLast(s: seq<Byte>, x: Byte, y: Byte)
    ensures Edit(s + [x], s + [y], |s|)
  {
    assert (s + [x])[..|s|] == s && (s + [y])[..|s|] == s;
    assert (s + [x])[|s| + 1..] == [] && (s + [y])[|s| + 1..] == [];
  }

  /** The distance is the least number of edits. */
  lemma DistanceIsLeast(a: seq<Byte>, b: seq<Byte>)
    ensures Edits(a, b, Levenshtein(a, b))
    ensures forall n: nat :: Edits(a, b, n) ==> Levenshtein(a, b) <= n
  {
    EnoughEdits(a, b);
    forall n: nat | Edits(a, b, n) ensures Levenshtein(a, b) <= n {
      NoFewerEdits(a, b, n);
    }
  }

  // ---------- one row ----------

  /** What the row holds: the distances of `a` to the first `j` bytes of `b`. */
  ghost predicate Row(row: array<nat>, a: seq<Byte>, b: seq<Byte>, from: nat, to: nat)
    requires to <= |b| + 1 <= row.Length
    reads row
  {
    forall j :: from <= j < to ==> row[j] == Levenshtein(a, b[..j])
  }

  /** What is reported: the distance, unless the names are too long to look at or their lengths
      alone are farther apart than the limit. */
  function Reported(a: seq<Byte>, b: seq<Byte>, limit: nat): nat {
    if |a| > LONGEST || |b| > LONGEST || |a| > |b| + limit || |b| > |a| + limit then limit + 1 else Levenshtein(a, b)
  }

  /** What is within the limit is the distance, and nothing within it is missed among names that
      are not too long. */
  lemma ReportedWithin(a: seq<Byte>, b: seq<Byte>, limit: nat)
    ensures Reported(a, b, limit) <= limit <==> |a| <= LONGEST && |b| <= LONGEST && Levenshtein(a, b) <= limit
    ensures Reported(a, b, limit) <= limit ==> Reported(a, b, limit) == Levenshtein(a, b)
  {
    AtLeastTheLengths(a, b);
  }

  /** That anything over the limit is reported as one more than it. */
  predicate OverIsOneMore(a: seq<Byte>, b: seq<Byte>, limit: nat) {
    Reported(a, b, limit) == if Levenshtein(a, b) <= limit then Levenshtein(a, b) else limit + 1
  }

  lemma {:induction false} AtMostTheLonger(a: seq<Byte>, b: seq<Byte>)
    ensures Levenshtein(a, b) <= if |a| > |b| then |a| else |b|
    decreases |a| + |b|
  {
    if a != [] && b != [] {
      AtMostTheLonger(Init(a), Init(b));
    }
  }

  lemma {:induction false} PrefixIsNear(a: seq<Byte>, b: seq<Byte>)
    requires a <= b
    ensures Levenshtein(a, b) <= |b| - |a| && Levenshtein(b, a) <= |b| - |a|
    decreases |b|
  {
    if |a| == |b| {
      assert a == b;
      SameIsZero(a);
    } else if a != [] {
      assert a <= Init(b);
      PrefixIsNear(a, Init(b));
    }
  }

  lemma {:induction false} NothingShared(a: seq<Byte>, b: seq<Byte>)
    requires forall i, j :: 0 <= i < |a| && 0 <= j < |b| ==> a[i] != b[j]
    ensures Levenshtein(a, b) == if |a| > |b| then |a| else |b|
    decreases |a| + |b|
  {
    if a != [] && b != [] {
      NothingShared(Init(a), b);
      NothingShared(a, Init(b));
      NothingShared(Init(a), Init(b));
    }
  }

  /** It is not always so: `abc` and `xyz` are three apart, and with a limit of one the report is 3. */
  lemma OverCanBeMore()
    ensures !OverIsOneMore([97, 98, 99], [120, 121, 122], 1)
  {
    NothingShared([97, 98, 99], [120, 121, 122]);
  }

  /** A name of so many bytes, all the same. */
  function Repeating(c: Byte, n: nat): (r: CString)
    requires c != 0
    ensures |r| == n && forall i :: 0 <= i < n ==> r[i] == c
  {
    seq(n, _ => c)
  }

  predicate AlwaysOneMore(m: nat, n: nat, limit: nat) {
    m > n + limit || n > m + limit || (m <= LONGEST && n <= LONGEST && m <= limit + 1 && n <= limit + 1)
  }

  /** Outside those lengths there are names for which it is not so: the same byte over and over
      when they are too long, and two bytes that differ when they are not. */
  lemma NotAlwaysOneMore(m: nat, n: nat, limit: nat)
    requires !AlwaysOneMore(m, n, limit)
    ensures !OverIsOneMore(Repeating(1, m), Repeating(1, n), limit) || !OverIsOneMore(Repeating(1, m), Repeating(2, n), limit)
  {
    hide Levenshtein;
    var a, b, c := Repeating(1, m), Repeating(1, n), Repeating(2, n);
    if m > LONGEST || n > LONGEST {
      if m <= n {
        PrefixIsNear(a, b);
      } else {
        PrefixIsNear(b, a);
      }
    } else {
      NothingShared(a, c);
    }
  }

  /** The lengths of the names tell when every excess is reported as one more than the limit: when
      they alone are over the limit, or neither name is too long or longer than one over it. */
  lemma WhenOverIsOneMore(m: nat, n: nat, limit: nat)
    ensures (forall a: CString, b: CString :: |a| == m && |b| == n ==> OverIsOneMore(a, b, limit)) <==> AlwaysOneMore(m, n, limit)
  {
    hide Levenshtein;
    if AlwaysOneMore(m, n, limit) {
      forall a: CString, b: CString | |a| == m && |b| == n ensures OverIsOneMore(a, b, limit) {
        AtLeastTheLengths(a, b);
        AtMostTheLonger(a, b);
      }
    } else {
      NotAlwaysOneMore(m, n, limit);
    }
  }

  /** The distance of two names, as it is reported. */
  method Distance(a: CString, b: CString, limit: nat) returns (d: nat)
    ensures d == Reported(a, b, limit)
  {
    hide Levenshtein;
    var la, lb := |a|, |b|;
    if la > LONGEST || lb > LONGEST {
      return limit + 1;
    }
    if (if la > lb then la - lb else lb - la) > limit {
      return limit + 1;
    }
    var row := new nat[LONGEST + 1](_ => 0);
    var j := 0;
    while j <= lb
      invariant 0 <= j <= lb + 1
      invariant Row(row, [], b, 0, j)
    {
      FromNothing(b, j);
      row[j] := j;
      j := j + 1;
    }
    var i := 1;
    while i <= la
      invariant 1 <= i <= la + 1
      invariant Row(row, a[..i - 1], b, 0, lb + 1)
    {
      NextRow(row, a, b, i);
      i := i + 1;
    }
    assert a[..la] == a && b[..lb] == b;
    return row[lb];
  }

  /** The row of one more byte of `a`, over the row before it. */
  method NextRow(row: array<nat>, a: seq<Byte>, b: seq<Byte>, i: nat)
    requires 0 < i <= |a| && |b| < row.Length && Row(row, a[..i - 1], b, 0, |b| + 1)
    modifies row
    ensures Row(row, a[..i], b, 0, |b| + 1)
  {
    hide Levenshtein;
    var diagonal := row[0];
    FirstColumn(a, b, i);
    row[0] := i;
    var j := 1;
    while j <= |b|
      invariant 1 <= j <= |b| + 1
      invariant Row(row, a[..i], b, 0, j) && Row(row, a[..i - 1], b, j, |b| + 1)
      invariant diagonal == Levenshtein(a[..i - 1], b[..j - 1])
    {
      var above := row[j];
      var best := diagonal + if a[i - 1] != b[j - 1] then 1 else 0;
      if above + 1 < best {
        best := above + 1;
      }
      if row[j - 1] + 1 < best {
        best := row[j - 1] + 1;
      }
      OneCell(a, b, i, j);
      row[j] := best;
      diagonal := above;
      j := j + 1;
    }
  }

  lemma FirstColumn(a: seq<Byte>, b: seq<Byte>, i: nat)
    requires 0 < i <= |a|
    ensures Levenshtein(a[..i], b[..0]) == i
  {
    ToNothing(a[..i]);
    assert b[..0] == [];
  }

  lemma OneCell(a: seq<Byte>, b: seq<Byte>, i: nat, j: nat)
    requires 0 < i <= |a| && 0 < j <= |b|
    ensures Levenshtein(a[..i], b[..j]) ==
            Min(Levenshtein(a[..i - 1], b[..j - 1]) + (if a[i - 1] != b[j - 1] then 1 else 0),
                Min(Levenshtein(a[..i - 1], b[..j]) + 1, Levenshtein(a[..i], b[..j - 1]) + 1))
  {
    hide Levenshtein;
    ByLastBytes(a[..i], b[..j]);
    assert Init(a[..i]) == a[..i - 1] && Init(b[..j]) == b[..j - 1];
  }

  lemma ByLastBytes(a: seq<Byte>, b: seq<Byte>)
    requires a != [] && b != []
    ensures Levenshtein(a, b) ==
            Min(Levenshtein(Init(a), Init(b)) + (if Last(a) != Last(b) then 1 else 0),
                Min(Levenshtein(Init(a), b) + 1, Levenshtein(a, Init(b)) + 1))
  {
    hide Init, Last, Min;
  }

  lemma FromNothing(b: seq<Byte>, j: nat)
    requires j <= |b|
    ensures Levenshtein([], b[..j]) == j
  {
  }

  // ---------- the nearest name ----------

  /** How near a candidate is, as far as that is looked into: long names are never near. */
  function Nearness(name: CString, candidate: CString, limit: nat): nat {
    if |name| > LONGEST || |candidate| > LONGEST || Levenshtein(name, candidate) > limit then limit + 1
    else Levenshtein(name, candidate)
  }

  function Limit(name: CString): nat {
    if |name| <= 3 then 1 else 2
  }

  /** The first of the nearest of the first `k` names, and none when none is within the limit. */
  ghost predicate Nearest(name: CString, names: seq<CString>, best: Option<CString>, nearest: nat) {
    var limit := Limit(name);
    if best.None? then nearest == limit + 1 && forall i :: 0 <= i < |names| ==> Nearness(name, names[i], limit) > limit
    else
      && nearest <= limit
      && exists k :: 0 <= k < |names| && names[k] == best.value && FirstNearest(name, names, k, nearest)
  }

  ghost predicate FirstNearest(name: CString, names: seq<CString>, k: nat, nearest: nat)
    requires k < |names|
  {
    && Nearness(name, names[k], Limit(name)) == nearest
    && (forall i :: 0 <= i < |names| ==> Nearness(name, names[i], Limit(name)) >= nearest)
    && (forall i :: 0 <= i < k ==> Nearness(name, names[i], Limit(name)) > nearest)
  }

  /** Two names of at most 64 bytes, and no more than `most` edits between them. */
  predicate Near(name: CString, candidate: CString, most: nat) {
    |name| <= 64 && |candidate| <= 64 && Levenshtein(name, candidate) <= most
  }

  /** The suggestion is the `k`-th name: it is near, none is nearer, and none before it is as near. */
  predicate Suggested(name: CString, names: seq<CString>, k: nat, most: nat)
    requires k < |names|
  {
    && Near(name, names[k], most)
    && (forall i :: 0 <= i < |names| && Near(name, names[i], most) ==> Levenshtein(name, names[k]) <= Levenshtein(name, names[i]))
    && (forall i :: 0 <= i < k && Near(name, names[i], most) ==> Levenshtein(name, names[k]) < Levenshtein(name, names[i]))
  }

  lemma NearestIsSuggested(name: CString, names: seq<CString>, best: Option<CString>, nearest: nat)
    requires Nearest(name, names, best, nearest)
    ensures var most := if |name| <= 3 then 1 else 2;
            if best.None? then forall i :: 0 <= i < |names| ==> !Near(name, names[i], most)
            else exists k :: 0 <= k < |names| && names[k] == best.value && Suggested(name, names, k, most)
  {
    hide Levenshtein;
    var most := if |name| <= 3 then 1 else 2;
    forall i | 0 <= i < |names|
      ensures Near(name, names[i], most) <==> Nearness(name, names[i], most) <= most
      ensures Near(name, names[i], most) ==> Nearness(name, names[i], most) == Levenshtein(name, names[i])
    {
    }
    if best.Some? {
      var k :| 0 <= k < |names| && names[k] == best.value && FirstNearest(name, names, k, nearest);
      assert Suggested(name, names, k, most);
    }
  }

  /** The function of the program, or else the builtin, that is nearest to `name`: at most one edit
      away from a name of at most three bytes, and at most two from any other. */
  method DidYouMean(functions: seq<CString>, builtins: seq<CString>, name: CString) returns (best: Option<CString>)
    ensures var names, most := functions + builtins, if |name| <= 3 then 1 else 2;
            if best.None? then forall i :: 0 <= i < |names| ==> !Near(name, names[i], most)
            else exists k :: 0 <= k < |names| && names[k] == best.value && Suggested(name, names, k, most)
  {
    var limit := Limit(name);
    var nearest := limit + 1;
    best := None;
    var i := 0;
    while i < |functions|
      invariant 0 <= i <= |functions| && Nearest(name, functions[..i], best, nearest)
    {
      best, nearest := Try(name, functions[i], best, nearest, functions[..i]);
      assert functions[..i + 1] == functions[..i] + [functions[i]];
      i := i + 1;
    }
    assert functions[..i] == functions && functions + builtins[..0] == functions;
    i := 0;
    while i < |builtins|
      invariant 0 <= i <= |builtins| && Nearest(name, functions + builtins[..i], best, nearest)
    {
      best, nearest := Try(name, builtins[i], best, nearest, functions + builtins[..i]);
      assert functions + builtins[..i + 1] == functions + builtins[..i] + [builtins[i]];
      i := i + 1;
    }
    assert builtins[..i] == builtins;
    NearestIsSuggested(name, functions + builtins, best, nearest);
  }

  /** One more candidate. */
  method Try(name: CString, candidate: CString, best0: Option<CString>, nearest0: nat, ghost names: seq<CString>)
    returns (best: Option<CString>, nearest: nat)
    requires Nearest(name, names, best0, nearest0)
    ensures Nearest(name, names + [candidate], best, nearest)
  {
    hide Levenshtein;
    var limit := Limit(name);
    var d := Distance(name, candidate, limit);
    ReportedWithin(name, candidate, limit);
    assert if d > limit then Nearness(name, candidate, limit) == limit + 1 else Nearness(name, candidate, limit) == d;
    best, nearest := best0, nearest0;
    ghost var all := names + [candidate];
    if d < nearest {
      nearest := d;
      best := Some(candidate);
      assert all[|names|] == candidate;
      assert FirstNearest(name, all, |names|, nearest);
    } else if best.Some? {
      ghost var k :| 0 <= k < |names| && names[k] == best.value && FirstNearest(name, names, k, nearest);
      assert all[k] == best.value;
      assert FirstNearest(name, all, k, nearest);
    }
  }
}
