/** The shapes of code the compiler makes out of smaller pieces, and what they run over:
    choices, and every kind of repeat. */
module RegexRepeat {
  import opened Common
  import opened RegexProgram
  import opened RegexFragment

  /** Two ways on: the first is preferred unless the choice is lazy. */
  function Choose(lazy: bool, first: int, second: int): Inst {
    if lazy then Split(second, first) else Split(first, second)
  }

  function Copies(s: seq<Inst>, k: nat): seq<Inst> {
    if k == 0 then [] else s + Copies(s, k - 1)
  }

  /** `rest`, or nothing. */
  function Optional(rest: seq<Inst>, lazy: bool): seq<Inst> {
    [Choose(lazy, 1, 1 + |rest|)] + rest
  }

  /** At most `k` times `s`: who leaves out one leaves out those behind it too. */
  function Options(s: seq<Inst>, k: nat, lazy: bool): seq<Inst> {
    if k == 0 then [] else Optional(s + Options(s, k - 1, lazy), lazy)
  }

  function Star(s: seq<Inst>, lazy: bool): seq<Inst> {
    [Choose(lazy, 1, |s| + 2)] + s + [Jmp(-(|s| + 1))]
  }

  function Plus(s: seq<Inst>, lazy: bool): seq<Inst> {
    s + [Choose(lazy, -|s|, 1)]
  }

  function Either(a: seq<Inst>, b: seq<Inst>): seq<Inst> {
    [Split(1, |a| + 2)] + a + [Jmp(|b| + 1)] + b
  }

  /** `m < 0` stands for no limit. */
  function Repeated(s: seq<Inst>, n: nat, m: int, lazy: bool): seq<Inst> {
    if n == 0 && m == 0 then []
    else if m < 0 then
      if n == 0 then Star(s, lazy) else Copies(s, n - 1) + Plus(s, lazy)
    else Copies(s, n) + Options(s, if m >= n then m - n else 0, lazy)
  }

  /** A number of times that a repeat allows. */
  predicate Allowed(least: nat, most: int, k: nat) {
    least <= k && (most < 0 || k <= most)
  }

  /** `s` runs `k` times in a row. */
  ghost predicate PowerRuns(s: seq<Inst>, ranges: seq<Range>, text: seq<Byte>, k: nat, i: Here, j: Here) {
    if k == 0 then i == j
    else exists mid :: Runs(s, ranges, text, i, mid) && PowerRuns(s, ranges, text, k - 1, mid, j)
  }

  lemma {:induction false} PowerAdds(s: seq<Inst>, ranges: seq<Range>, text: seq<Byte>, a: nat, b: nat, i: Here, k: Here, j: Here)
    requires PowerRuns(s, ranges, text, a, i, k) && PowerRuns(s, ranges, text, b, k, j)
    ensures PowerRuns(s, ranges, text, a + b, i, j)
    decreases a
  {
    hide Runs;
    if a > 0 {
      var mid :| Runs(s, ranges, text, i, mid) && PowerRuns(s, ranges, text, a - 1, mid, k);
      PowerAdds(s, ranges, text, a - 1, b, mid, k, j);
    }
  }

  /** A run of `a + b` times is a run of `a` times and one of `b` times. */
  lemma {:induction false} PowerSplits(s: seq<Inst>, ranges: seq<Range>, text: seq<Byte>, a: nat, b: nat, i: Here, j: Here)
    returns (k: Here)
    requires PowerRuns(s, ranges, text, a + b, i, j)
    ensures PowerRuns(s, ranges, text, a, i, k) && PowerRuns(s, ranges, text, b, k, j)
    decreases a
  {
    hide Runs;
    if a == 0 {
      k := i;
    } else {
      var mid :| Runs(s, ranges, text, i, mid) && PowerRuns(s, ranges, text, a + b - 1, mid, j);
      k := PowerSplits(s, ranges, text, a - 1, b, mid, j);
    }
  }

  lemma PowerOneMore(s: seq<Inst>, ranges: seq<Range>, text: seq<Byte>, k: nat, i: Here, mid: Here, j: Here)
    requires Runs(s, ranges, text, i, mid) && PowerRuns(s, ranges, text, k, mid, j)
    ensures PowerRuns(s, ranges, text, k + 1, i, j)
  {
    hide Runs;
  }

  lemma PowerOne(s: seq<Inst>, ranges: seq<Range>, text: seq<Byte>, i: Here, j: Here)
    ensures PowerRuns(s, ranges, text, 1, i, j) <==> Runs(s, ranges, text, i, j)
  {
    hide Runs;
    if Runs(s, ranges, text, i, j) {
      assert PowerRuns(s, ranges, text, 0, j, j);
    }
  }

  lemma {:induction false} CopiesRun(s: seq<Inst>, ranges: seq<Range>, text: seq<Byte>, k: nat, i: Here, j: Here)
    requires Inside(s)
    ensures Inside(Copies(s, k))
    ensures Runs(Copies(s, k), ranges, text, i, j) <==> PowerRuns(s, ranges, text, k, i, j)
    decreases k
  {
    hide Runs, Inside;
    if k == 0 {
      RunsNothing(ranges, text, i, j);
      InsideNothing();
    } else {
      CopiesRun(s, ranges, text, k - 1, i, j);
      RunsJoin(s, Copies(s, k - 1), ranges, text, i, j);
      InsideJoin(s, Copies(s, k - 1));
      forall mid: Here | Runs(s, ranges, text, i, mid)
        ensures Runs(Copies(s, k - 1), ranges, text, mid, j) <==> PowerRuns(s, ranges, text, k - 1, mid, j)
      {
        CopiesRun(s, ranges, text, k - 1, mid, j);
      }
    }
  }

  lemma InsideNothing()
    ensures Inside([])
  {
  }

  /** A choice between what follows and the end. */
  lemma OptionalRuns(rest: seq<Inst>, lazy: bool, ranges: seq<Range>, text: seq<Byte>, i: Here, j: Here)
    requires Inside(rest) && i.at <= |text|
    ensures Inside(Optional(rest, lazy))
    ensures Runs(Optional(rest, lazy), ranges, text, i, j) <==> i == j || Runs(rest, ranges, text, i, j)
  {
    hide Run, Holds, Takes, Inside;
    var whole := Optional(rest, lazy);
    var from, to := Spot(0, i), Spot(|whole|, j);
    assert PlacedAt(whole, 1, rest);
    InsideAfterChoice(Choose(lazy, 1, 1 + |rest|), rest);
    forall n: nat | Run(whole, ranges, text, from, to, n)
      ensures i == j || Runs(rest, ranges, text, i, j)
    {
      var e := FirstStep(whole, ranges, text, from, to, n);
      if e.pc == |whole| {
        RunAtEnd(whole, ranges, text, i, to, n - 1);
      } else {
        var k, m := RunLeaves(whole, 1, rest, ranges, text, Spot(0, i), to, n - 1);
        RunAtEnd(whole, ranges, text, k, to, n - 1 - m);
      }
    }
    if i == j {
      RunNone(whole, ranges, text, to);
      RunStep(whole, ranges, text, from, Spot(|whole|, i), to, 0);
    }
    if Runs(rest, ranges, text, i, j) {
      var n: nat :| Run(rest, ranges, text, Spot(0, i), Spot(|rest|, j), n);
      RunPlaced(whole, 1, rest, ranges, text, Spot(0, i), Spot(|rest|, j), n);
      RunStep(whole, ranges, text, from, Spot(1, i), to, n);
    }
  }

  lemma RunNone(code: seq<Inst>, ranges: seq<Range>, text: seq<Byte>, c: Spot)
    ensures Run(code, ranges, text, c, c, 0)
  {
  }

  lemma FirstStep(code: seq<Inst>, ranges: seq<Range>, text: seq<Byte>, c: Spot, d: Spot, n: nat) returns (e: Spot)
    requires Run(code, ranges, text, c, d, n) && c != d
    ensures n > 0 && Edge(code, ranges, text, c, e) && Run(code, ranges, text, e, d, n - 1)
  {
    hide Edge;
    e :| Edge(code, ranges, text, c, e) && Run(code, ranges, text, e, d, n - 1);
  }

  lemma InsideAfterChoice(head: Inst, rest: seq<Inst>)
    requires Inside(rest) && InstInside(head, 0, 1 + |rest|)
    ensures Inside([head] + rest)
  {
    forall pc | 0 <= pc < |[head] + rest|
      ensures InstInside(([head] + rest)[pc], pc, |[head] + rest|)
    {
      if pc > 0 {
        assert InstInside(rest[pc - 1], pc - 1, |rest|);
      }
    }
  }

  lemma InsideBeforeChoice(rest: seq<Inst>, tail: Inst)
    requires Inside(rest) && InstInside(tail, |rest|, |rest| + 1)
    ensures Inside(rest + [tail])
  {
    forall pc | 0 <= pc < |rest + [tail]|
      ensures InstInside((rest + [tail])[pc], pc, |rest + [tail]|)
    {
      if pc < |rest| {
        assert InstInside(rest[pc], pc, |rest|);
      }
    }
  }

  lemma {:induction false} OptionsRun(s: seq<Inst>, lazy: bool, ranges: seq<Range>, text: seq<Byte>, k: nat, i: Here, j: Here)
    requires Inside(s) && i.at <= |text|
    ensures Inside(Options(s, k, lazy)) && |Options(s, k, lazy)| == k * (|s| + 1)
    ensures Runs(Options(s, k, lazy), ranges, text, i, j) <==> exists c: nat :: c <= k && PowerRuns(s, ranges, text, c, i, j)
    decreases k
  {
    hide Runs, Inside;
    if k == 0 {
      RunsNothing(ranges, text, i, j);
      InsideNothing();
      assert PowerRuns(s, ranges, text, 0, i, i);
    } else {
      var fewer := Options(s, k - 1, lazy);
      OptionsRun(s, lazy, ranges, text, k - 1, i, j);
      InsideJoin(s, fewer);
      OptionalRuns(s + fewer, lazy, ranges, text, i, j);
      RunsJoin(s, fewer, ranges, text, i, j);
      if Runs(s + fewer, ranges, text, i, j) {
        var mid :| Runs(s, ranges, text, i, mid) && Runs(fewer, ranges, text, mid, j);
        RunsForward(s, ranges, text, i, mid);
        OptionsRun(s, lazy, ranges, text, k - 1, mid, j);
        var c: nat :| c <= k - 1 && PowerRuns(s, ranges, text, c, mid, j);
        assert PowerRuns(s, ranges, text, c + 1, i, j);
      }
      assert PowerRuns(s, ranges, text, 0, i, i);
      forall c: nat | c <= k && PowerRuns(s, ranges, text, c, i, j)
        ensures i == j || Runs(s + fewer, ranges, text, i, j)
      {
        if c > 0 {
          var mid :| Runs(s, ranges, text, i, mid) && PowerRuns(s, ranges, text, c - 1, mid, j);
          RunsForward(s, ranges, text, i, mid);
          OptionsRun(s, lazy, ranges, text, k - 1, mid, j);
          assert PowerRuns(s, ranges, text, c - 1, mid, j);
          assert Runs(fewer, ranges, text, mid, j);
        }
      }
    }
  }

  /** A run never goes back in the text, nor past its end. */
  lemma {:induction false} RunForward(code: seq<Inst>, ranges: seq<Range>, text: seq<Byte>, c: Spot, d: Spot, n: nat)
    requires Run(code, ranges, text, c, d, n) && c.here.at <= |text|
    ensures c.here.at <= d.here.at <= |text|
    decreases n
  {
    if n > 0 {
      hide Holds, Takes;
      var e :| Edge(code, ranges, text, c, e) && Run(code, ranges, text, e, d, n - 1);
      RunForward(code, ranges, text, e, d, n - 1);
    }
  }

  lemma RunsForward(code: seq<Inst>, ranges: seq<Range>, text: seq<Byte>, i: Here, j: Here)
    requires Runs(code, ranges, text, i, j) && i.at <= |text|
    ensures i.at <= j.at <= |text|
  {
    hide Run;
    var n: nat :| Run(code, ranges, text, Spot(0, i), Spot(|code|, j), n);
    RunForward(code, ranges, text, Spot(0, i), Spot(|code|, j), n);
  }

  // ---------- loops ----------

  lemma StarShape(s: seq<Inst>, lazy: bool)
    requires Inside(s)
    ensures Inside(Star(s, lazy)) && PlacedAt(Star(s, lazy), 1, s)
    ensures |Star(s, lazy)| == |s| + 2
    ensures Star(s, lazy)[0] == Choose(lazy, 1, |s| + 2) && Star(s, lazy)[|s| + 1] == Jmp(-(|s| + 1))
  {
    var whole := Star(s, lazy);
    forall pc | 0 <= pc < |whole|
      ensures InstInside(whole[pc], pc, |whole|)
    {
      if 0 < pc <= |s| {
        assert whole[pc] == s[pc - 1] && InstInside(s[pc - 1], pc - 1, |s|);
      }
    }
  }

  lemma StarEnters(s: seq<Inst>, lazy: bool, ranges: seq<Range>, text: seq<Byte>, i: Here, j: Here, n: nat)
    requires Inside(s)
    requires Run(Star(s, lazy), ranges, text, Spot(0, i), Spot(|s| + 2, j), n)
    ensures n > 0
    ensures i == j || Run(Star(s, lazy), ranges, text, Spot(1, i), Spot(|s| + 2, j), n - 1)
  {
    hide Run, Star, Inside;
    StarShape(s, lazy);
    var e := FirstStep(Star(s, lazy), ranges, text, Spot(0, i), Spot(|s| + 2, j), n);
    if e.pc == |s| + 2 {
      RunAtEnd(Star(s, lazy), ranges, text, i, Spot(|s| + 2, j), n - 1);
    }
  }

  lemma StarGoesBack(s: seq<Inst>, lazy: bool, ranges: seq<Range>, text: seq<Byte>, i: Here, d: Spot, n: nat)
    requires Inside(s) && d.pc != |s| + 1
    requires Run(Star(s, lazy), ranges, text, Spot(|s| + 1, i), d, n)
    ensures n > 0 && Run(Star(s, lazy), ranges, text, Spot(0, i), d, n - 1)
  {
    hide Run, Star, Inside;
    StarShape(s, lazy);
    var e := FirstStep(Star(s, lazy), ranges, text, Spot(|s| + 1, i), d, n);
  }

  /** Once in, a run of a loop goes through the body and starts again. */
  lemma StarGoesRound(s: seq<Inst>, lazy: bool, ranges: seq<Range>, text: seq<Byte>, i: Here, d: Spot, n: nat)
    returns (mid: Here, left: nat)
    requires Inside(s) && i.at <= |text| && d.pc == |s| + 2
    requires Run(Star(s, lazy), ranges, text, Spot(1, i), d, n)
    ensures Runs(s, ranges, text, i, mid) && mid.at <= |text|
    ensures left < n && Run(Star(s, lazy), ranges, text, Spot(0, mid), d, left)
  {
    hide Run, Star, Edge, Inside, Runs, PlacedAt;
    StarShape(s, lazy);
    var m: nat;
    mid, m := RunLeaves(Star(s, lazy), 1, s, ranges, text, Spot(0, i), d, n);
    RunsWitness(s, ranges, text, i, mid, m);
    RunsForward(s, ranges, text, i, mid);
    StarGoesBack(s, lazy, ranges, text, mid, d, n - m);
    left := n - m - 1;
  }

  lemma {:induction false} StarRunIsPower(s: seq<Inst>, lazy: bool, ranges: seq<Range>, text: seq<Byte>, i: Here, j: Here, n: nat)
    returns (k: nat)
    requires Inside(s) && i.at <= |text|
    requires Run(Star(s, lazy), ranges, text, Spot(0, i), Spot(|s| + 2, j), n)
    ensures PowerRuns(s, ranges, text, k, i, j)
    decreases n
  {
    hide Run, Star, Inside, Runs, PowerRuns;
    PowerZero(s, ranges, text, i, j);
    StarEnters(s, lazy, ranges, text, i, j, n);
    k := 0;
    if i != j {
      var mid, left := StarGoesRound(s, lazy, ranges, text, i, Spot(|s| + 2, j), n - 1);
      var rest := StarRunIsPower(s, lazy, ranges, text, mid, j, left);
      k := rest + 1;
      PowerOneMore(s, ranges, text, rest, i, mid, j);
    }
  }

  lemma RunsWitness(code: seq<Inst>, ranges: seq<Range>, text: seq<Byte>, i: Here, j: Here, n: nat)
    requires Run(code, ranges, text, Spot(0, i), Spot(|code|, j), n)
    ensures Runs(code, ranges, text, i, j)
  {
    hide Run;
  }

  lemma {:induction false} PowerIsStarRun(s: seq<Inst>, lazy: bool, ranges: seq<Range>, text: seq<Byte>, k: nat, i: Here, j: Here)
    returns (n: nat)
    requires Inside(s) && i.at <= |text| && PowerRuns(s, ranges, text, k, i, j)
    ensures Run(Star(s, lazy), ranges, text, Spot(0, i), Spot(|s| + 2, j), n)
    decreases k
  {
    hide Run, Star, Holds, Takes, Inside;
    StarShape(s, lazy);
    var whole, to := Star(s, lazy), Spot(|s| + 2, j);
    if k == 0 {
      RunNone(whole, ranges, text, to);
      RunStep(whole, ranges, text, Spot(0, i), to, to, 0);
      n := 1;
    } else {
      var mid :| Runs(s, ranges, text, i, mid) && PowerRuns(s, ranges, text, k - 1, mid, j);
      RunsForward(s, ranges, text, i, mid);
      var m: nat :| Run(s, ranges, text, Spot(0, i), Spot(|s|, mid), m);
      n := PowerIsStarRun(s, lazy, ranges, text, k - 1, mid, j);
      RunStep(whole, ranges, text, Spot(|s| + 1, mid), Spot(0, mid), to, n);
      RunPlaced(whole, 1, s, ranges, text, Spot(0, i), Spot(|s|, mid), m);
      RunTransitive(whole, ranges, text, Spot(1, i), Spot(|s| + 1, mid), to, m, n + 1);
      RunStep(whole, ranges, text, Spot(0, i), Spot(1, i), to, m + (n + 1));
      n := m + (n + 1) + 1;
    }
  }

  /** `*`: any number of times. */
  lemma StarRuns(s: seq<Inst>, lazy: bool, ranges: seq<Range>, text: seq<Byte>, i: Here, j: Here)
    requires Inside(s) && i.at <= |text|
    ensures Inside(Star(s, lazy))
    ensures Runs(Star(s, lazy), ranges, text, i, j) <==> exists k: nat :: PowerRuns(s, ranges, text, k, i, j)
  {
    hide Run, Star, Inside, PowerRuns;
    StarShape(s, lazy);
    if Runs(Star(s, lazy), ranges, text, i, j) {
      var n: nat :| Run(Star(s, lazy), ranges, text, Spot(0, i), Spot(|s| + 2, j), n);
      var k := StarRunIsPower(s, lazy, ranges, text, i, j, n);
    }
    forall k: nat | PowerRuns(s, ranges, text, k, i, j)
      ensures Runs(Star(s, lazy), ranges, text, i, j)
    {
      var n := PowerIsStarRun(s, lazy, ranges, text, k, i, j);
    }
  }

  lemma PlusShape(s: seq<Inst>, lazy: bool)
    requires Inside(s)
    ensures Inside(Plus(s, lazy)) && PlacedAt(Plus(s, lazy), 0, s)
    ensures |Plus(s, lazy)| == |s| + 1 && Plus(s, lazy)[|s|] == Choose(lazy, -|s|, 1)
  {
    InsideBeforeChoice(s, Choose(lazy, -|s|, 1));
  }

  lemma {:induction false} PlusRunIsPower(s: seq<Inst>, lazy: bool, ranges: seq<Range>, text: seq<Byte>, i: Here, j: Here, n: nat)
    returns (k: nat)
    requires Inside(s) && i.at <= |text|
    requires Run(Plus(s, lazy), ranges, text, Spot(0, i), Spot(|s| + 1, j), n)
    ensures k >= 1 && PowerRuns(s, ranges, text, k, i, j)
    decreases n
  {
    hide Run, Plus, Holds, Takes, Inside, Runs, PowerRuns;
    PlusShape(s, lazy);
    var whole, to := Plus(s, lazy), Spot(|s| + 1, j);
    var mid, m := RunLeaves(whole, 0, s, ranges, text, Spot(0, i), to, n);
    RunsWitness(s, ranges, text, i, mid, m);
    RunsForward(s, ranges, text, i, mid);
    var next := FirstStep(whole, ranges, text, Spot(|s|, mid), to, n - m);
    if next.pc == |whole| {
      RunAtEnd(whole, ranges, text, mid, to, n - m - 1);
      PowerOne(s, ranges, text, i, j);
      k := 1;
    } else {
      var k' := PlusRunIsPower(s, lazy, ranges, text, mid, j, n - m - 1);
      k := k' + 1;
      PowerOneMore(s, ranges, text, k', i, mid, j);
    }
  }

  lemma {:induction false} PowerIsPlusRun(s: seq<Inst>, lazy: bool, ranges: seq<Range>, text: seq<Byte>, k: nat, i: Here, j: Here)
    returns (n: nat)
    requires Inside(s) && i.at <= |text| && k >= 1 && PowerRuns(s, ranges, text, k, i, j)
    ensures Run(Plus(s, lazy), ranges, text, Spot(0, i), Spot(|s| + 1, j), n)
    decreases k
  {
    hide Run, Plus, Holds, Takes, Inside;
    PlusShape(s, lazy);
    var whole, to := Plus(s, lazy), Spot(|s| + 1, j);
    var mid :| Runs(s, ranges, text, i, mid) && PowerRuns(s, ranges, text, k - 1, mid, j);
    RunsForward(s, ranges, text, i, mid);
    var m: nat :| Run(s, ranges, text, Spot(0, i), Spot(|s|, mid), m);
    RunPlaced(whole, 0, s, ranges, text, Spot(0, i), Spot(|s|, mid), m);
    if k == 1 {
      RunNone(whole, ranges, text, to);
      n := 0;
      RunStep(whole, ranges, text, Spot(|s|, mid), to, to, n);
    } else {
      n := PowerIsPlusRun(s, lazy, ranges, text, k - 1, mid, j);
      RunStep(whole, ranges, text, Spot(|s|, mid), Spot(0, mid), to, n);
    }
    RunTransitive(whole, ranges, text, Spot(0, i), Spot(|s|, mid), to, m, n + 1);
    n := m + (n + 1);
  }

  /** `+`: at least once. */
  lemma PlusRuns(s: seq<Inst>, lazy: bool, ranges: seq<Range>, text: seq<Byte>, i: Here, j: Here)
    requires Inside(s) && i.at <= |text|
    ensures Inside(Plus(s, lazy))
    ensures Runs(Plus(s, lazy), ranges, text, i, j) <==> exists k: nat :: k >= 1 && PowerRuns(s, ranges, text, k, i, j)
  {
    hide Run, Plus, Inside, PowerRuns;
    PlusShape(s, lazy);
    if Runs(Plus(s, lazy), ranges, text, i, j) {
      var n: nat :| Run(Plus(s, lazy), ranges, text, Spot(0, i), Spot(|s| + 1, j), n);
      var k := PlusRunIsPower(s, lazy, ranges, text, i, j, n);
    }
    forall k: nat | k >= 1 && PowerRuns(s, ranges, text, k, i, j)
      ensures Runs(Plus(s, lazy), ranges, text, i, j)
    {
      var n := PowerIsPlusRun(s, lazy, ranges, text, k, i, j);
    }
  }

  /** Every `{n,m}`: at least `n` times, and at most `m` times unless there is no limit. */
  lemma RepeatedRuns(s: seq<Inst>, n: nat, m: int, lazy: bool, ranges: seq<Range>, text: seq<Byte>, i: Here, j: Here)
    requires Inside(s) && i.at <= |text| && (m >= 0 ==> n <= m)
    ensures Inside(Repeated(s, n, m, lazy))
    ensures Runs(Repeated(s, n, m, lazy), ranges, text, i, j) <==>
            exists k: nat :: Allowed(n, m, k) && PowerRuns(s, ranges, text, k, i, j)
  {
    hide Runs, Inside, PowerRuns, Copies, Options, Star, Plus;
    if n == 0 && m == 0 {
      RunsNothing(ranges, text, i, j);
      InsideNothing();
      CopiesRun(s, ranges, text, 0, i, j);
      PowerZero(s, ranges, text, i, j);
    } else if m < 0 && n == 0 {
      StarRuns(s, lazy, ranges, text, i, j);
    } else if m < 0 {
      CopiesThen(s, n - 1, Plus(s, lazy), 1, -1, lazy, ranges, text, i, j);
    } else {
      CopiesThen(s, n, Options(s, m - n, lazy), 0, m - n, lazy, ranges, text, i, j);
    }
  }

  lemma PowerZero(s: seq<Inst>, ranges: seq<Range>, text: seq<Byte>, i: Here, j: Here)
    ensures PowerRuns(s, ranges, text, 0, i, j) <==> i == j
  {
  }

  /** Copies, then the code for at least `low` and at most `high` times more. */
  lemma CopiesThen(s: seq<Inst>, n: nat, more: seq<Inst>, low: nat, high: int, lazy: bool,
                   ranges: seq<Range>, text: seq<Byte>, i: Here, j: Here)
    requires Inside(s) && i.at <= |text|
    requires (low == 0 && high >= 0 && more == Options(s, high, lazy)) || (low == 1 && high < 0 && more == Plus(s, lazy))
    ensures Inside(Copies(s, n) + more)
    ensures Runs(Copies(s, n) + more, ranges, text, i, j) <==>
            exists k: nat :: n + low <= k && (high < 0 || k <= n + high) && PowerRuns(s, ranges, text, k, i, j)
  {
    hide Runs, Inside, PowerRuns, Copies, Options, Star, Plus;
    if low == 0 {
      OptionsRun(s, lazy, ranges, text, high, i, j);
    } else {
      PlusRuns(s, lazy, ranges, text, i, j);
    }
    forall k: Here | k.at <= |text|
      ensures Runs(more, ranges, text, k, j) <==>
              exists c: nat :: low <= c && (high < 0 || c <= high) && PowerRuns(s, ranges, text, c, k, j)
    {
      if low == 0 {
        OptionsRun(s, lazy, ranges, text, high, k, j);
      } else {
        PlusRuns(s, lazy, ranges, text, k, j);
      }
    }
    CopiesRun(s, ranges, text, n, i, j);
    InsideJoin(Copies(s, n), more);
    RunsJoin(Copies(s, n), more, ranges, text, i, j);
    if Runs(Copies(s, n) + more, ranges, text, i, j) {
      var k :| Runs(Copies(s, n), ranges, text, i, k) && Runs(more, ranges, text, k, j);
      RunsForward(Copies(s, n), ranges, text, i, k);
      CopiesRun(s, ranges, text, n, i, k);
      var c: nat :| low <= c && (high < 0 || c <= high) && PowerRuns(s, ranges, text, c, k, j);
      PowerAdds(s, ranges, text, n, c, i, k, j);
    }
    forall k: nat | n + low <= k && (high < 0 || k <= n + high) && PowerRuns(s, ranges, text, k, i, j)
      ensures Runs(Copies(s, n) + more, ranges, text, i, j)
    {
      var mid := PowerSplits(s, ranges, text, n, k - n, i, j);
      CopiesRun(s, ranges, text, n, i, mid);
      RunsForward(Copies(s, n), ranges, text, i, mid);
    }
  }

  // ---------- alternatives ----------

  lemma EitherShape(a: seq<Inst>, b: seq<Inst>)
    requires Inside(a) && Inside(b)
    ensures Inside(Either(a, b)) && PlacedAt(Either(a, b), 1, a) && PlacedAt(Either(a, b), |a| + 2, b)
    ensures |Either(a, b)| == |a| + |b| + 2
    ensures Either(a, b)[0] == Split(1, |a| + 2) && Either(a, b)[|a| + 1] == Jmp(|b| + 1)
  {
    var whole := Either(a, b);
    forall pc | 0 <= pc < |whole|
      ensures InstInside(whole[pc], pc, |whole|)
    {
      if 0 < pc <= |a| {
        assert whole[pc] == a[pc - 1] && InstInside(a[pc - 1], pc - 1, |a|);
      } else if pc > |a| + 1 {
        assert whole[pc] == b[pc - |a| - 2] && InstInside(b[pc - |a| - 2], pc - |a| - 2, |b|);
      }
    }
  }

  lemma EitherRunIsOne(a: seq<Inst>, b: seq<Inst>, ranges: seq<Range>, text: seq<Byte>, i: Here, j: Here, n: nat)
    requires Inside(a) && Inside(b) && i.at <= |text|
    requires Run(Either(a, b), ranges, text, Spot(0, i), Spot(|a| + |b| + 2, j), n)
    ensures Runs(a, ranges, text, i, j) || Runs(b, ranges, text, i, j)
  {
    hide Run, Either, Holds, Takes, Inside, Runs;
    EitherShape(a, b);
    var whole, to := Either(a, b), Spot(|a| + |b| + 2, j);
    var e := FirstStep(whole, ranges, text, Spot(0, i), to, n);
    if e.pc == 1 {
      var k, m := RunLeaves(whole, 1, a, ranges, text, Spot(0, i), to, n - 1);
      RunForward(a, ranges, text, Spot(0, i), Spot(|a|, k), m);
      var f := FirstStep(whole, ranges, text, Spot(|a| + 1, k), to, n - 1 - m);
      RunAtEnd(whole, ranges, text, k, to, n - 1 - m - 1);
      RunsWitness(a, ranges, text, i, j, m);
    } else {
      var k, m := RunLeaves(whole, |a| + 2, b, ranges, text, Spot(0, i), to, n - 1);
      RunAtEnd(whole, ranges, text, k, to, n - 1 - m);
      RunsWitness(b, ranges, text, i, j, m);
    }
  }

  lemma FirstIsEitherRun(a: seq<Inst>, b: seq<Inst>, ranges: seq<Range>, text: seq<Byte>, i: Here, j: Here)
    requires Inside(a) && Inside(b) && i.at <= |text| && Runs(a, ranges, text, i, j)
    ensures Runs(Either(a, b), ranges, text, i, j)
  {
    hide Run, Either, Holds, Takes, Inside;
    EitherShape(a, b);
    var whole, to := Either(a, b), Spot(|a| + |b| + 2, j);
    RunsForward(a, ranges, text, i, j);
    var n: nat :| Run(a, ranges, text, Spot(0, i), Spot(|a|, j), n);
    RunPlaced(whole, 1, a, ranges, text, Spot(0, i), Spot(|a|, j), n);
    RunNone(whole, ranges, text, to);
    RunStep(whole, ranges, text, Spot(|a| + 1, j), to, to, 0);
    RunTransitive(whole, ranges, text, Spot(1, i), Spot(|a| + 1, j), to, n, 1);
    RunStep(whole, ranges, text, Spot(0, i), Spot(1, i), to, n + 1);
  }

  lemma SecondIsEitherRun(a: seq<Inst>, b: seq<Inst>, ranges: seq<Range>, text: seq<Byte>, i: Here, j: Here)
    requires Inside(a) && Inside(b) && i.at <= |text| && Runs(b, ranges, text, i, j)
    ensures Runs(Either(a, b), ranges, text, i, j)
  {
    hide Run, Either, Holds, Takes, Inside;
    EitherShape(a, b);
    var whole, second, to := Either(a, b), |a| + 2, Spot(|a| + |b| + 2, j);
    var n: nat :| Run(b, ranges, text, Spot(0, i), Spot(|b|, j), n);
    RunPlaced(whole, second, b, ranges, text, Spot(0, i), Spot(|b|, j), n);
    assert Shift(Spot(|b|, j), second) == to && Shift(Spot(0, i), second) == Spot(second, i);
    RunStep(whole, ranges, text, Spot(0, i), Spot(second, i), to, n);
    RunsWitness(whole, ranges, text, i, j, n + 1);
  }

  lemma EitherRuns(a: seq<Inst>, b: seq<Inst>, ranges: seq<Range>, text: seq<Byte>, i: Here, j: Here)
    requires Inside(a) && Inside(b) && i.at <= |text|
    ensures Inside(Either(a, b))
    ensures Runs(Either(a, b), ranges, text, i, j) <==> Runs(a, ranges, text, i, j) || Runs(b, ranges, text, i, j)
  {
    hide Run, Either, Inside;
    EitherShape(a, b);
    if Runs(Either(a, b), ranges, text, i, j) {
      var n: nat :| Run(Either(a, b), ranges, text, Spot(0, i), Spot(|a| + |b| + 2, j), n);
      EitherRunIsOne(a, b, ranges, text, i, j, n);
    }
    if Runs(a, ranges, text, i, j) {
      FirstIsEitherRun(a, b, ranges, text, i, j);
    }
    if Runs(b, ranges, text, i, j) {
      SecondIsEitherRun(a, b, ranges, text, i, j);
    }
  }
}
