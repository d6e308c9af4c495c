/** The reference meaning of a search: depth first, the preferred way first, each place in
    the program tried once at each place in the text, starts from left to right. */
module RegexBacktrack {
  import opened Common
  import opened RegexProgram

  function OrElse<T>(a: Option<T>, b: Option<T>): Option<T> {
    if a.Some? then a else b
  }

  /** A configuration with the capture slots recorded on the way to it. */
  datatype Thread = Thread(config: Config, saves: seq<int>)

  predicate ThreadOk(p: Program, text: seq<Byte>, t: Thread) {
    InBounds(p, text, t.config) && |t.saves| == p.slots
  }

  predicate ThreadsOk(p: Program, text: seq<Byte>, w: seq<Thread>) {
    forall i :: 0 <= i < |w| ==> ThreadOk(p, text, w[i])
  }

  function SavesAfter(p: Program, t: Thread): (s: seq<int>)
    requires Valid(p) && t.config.pc < |p.code| && |t.saves| == p.slots
    ensures |s| == p.slots && s[0] == t.saves[0]
  {
    match p.code[t.config.pc]
    case Save(slot) => t.saves[slot := t.config.at]
    case _ => t.saves
  }

  function WithSaves(cs: seq<Config>, saves: seq<int>): (w: seq<Thread>)
    ensures |w| == |cs|
    ensures forall i :: 0 <= i < |w| ==> w[i] == Thread(cs[i], saves)
  {
    seq(|cs|, i requires 0 <= i < |cs| => Thread(cs[i], saves))
  }

  /** The threads a thread turns into, the preferred one first. */
  function After(p: Program, text: seq<Byte>, t: Thread): (w: seq<Thread>)
    requires Valid(p) && ThreadOk(p, text, t)
    ensures ThreadsOk(p, text, w)
  {
    WithSaves(Next(p, text, t.config), SavesAfter(p, t))
  }

  lemma AfterConfigs(p: Program, text: seq<Byte>, t: Thread)
    requires Valid(p) && ThreadOk(p, text, t)
    ensures |After(p, text, t)| == |Next(p, text, t.config)|
    ensures forall i :: 0 <= i < |After(p, text, t)| ==>
              After(p, text, t)[i].config == Next(p, text, t.config)[i] && After(p, text, t)[i].saves[0] == t.saves[0]
  {
  }

  /** The capture spans a thread at a `Match` reports. */
  function Report(t: Thread): (s: seq<int>)
    requires |t.saves| >= 2
    ensures |s| == |t.saves| && s[0] == t.saves[0] && s[1] == t.config.at
  {
    t.saves[1 := t.config.at]
  }

  ghost function Everywhere(p: Program, text: seq<Byte>): set<Config> {
    set pc, at | 0 <= pc < |p.code| && 0 <= at <= |text| :: Config(pc, at)
  }

  datatype Outcome = Outcome(found: Option<seq<int>>, visited: set<Config>)

  /** Searches the worklist `w` depth first, given what was visited before: the first match
      in priority order, and all that was visited. */
  ghost function Backtrack(p: Program, text: seq<Byte>, w: seq<Thread>, visited: set<Config>): Outcome
    requires Valid(p) && ThreadsOk(p, text, w)
    decreases Everywhere(p, text) - visited, |w|
  {
    if w == [] then Outcome(None, visited)
    else if w[0].config in visited then Backtrack(p, text, w[1..], visited)
    else if IsMatch(p, w[0].config) then Outcome(Some(Report(w[0])), visited + {w[0].config})
    else
      assert w[0].config in Everywhere(p, text);
      Backtrack(p, text, After(p, text, w[0]) + w[1..], visited + {w[0].config})
  }

  /** The slots a match that starts at `at` begins with. */
  function InitialSaves(slots: nat, at: nat): (s: seq<int>)
    requires slots >= 2
    ensures |s| == slots && s[0] == at
  {
    var first: seq<int> := [at];
    first + seq(slots - 1, _ => -1)
  }

  function StartThread(p: Program, at: nat): Thread
    requires Valid(p)
  {
    Thread(Config(0, at), InitialSaves(p.slots, at))
  }

  /** A thread at the beginning of the program for every start from `from` on. */
  function StartThreads(p: Program, text: seq<Byte>, from: nat): (w: seq<Thread>)
    requires Valid(p) && from <= |text|
    ensures |w| == |Starts(text, from)|
    ensures forall i :: 0 <= i < |w| ==> w[i] == StartThread(p, Starts(text, from)[i])
    ensures ThreadsOk(p, text, w)
  {
    seq(|Starts(text, from)|, i requires 0 <= i < |Starts(text, from)| => StartThread(p, Starts(text, from)[i]))
  }

  /** The search: the capture spans of the first match in priority order. */
  ghost function Search(p: Program, text: seq<Byte>, from: nat): Option<seq<int>>
    requires Valid(p)
  {
    if from > |text| then None else Backtrack(p, text, StartThreads(p, text, from), {}).found
  }

  // ---------- Backtracking finds a match exactly when there is a path to one ----------

  ghost predicate LeadsToMatch(p: Program, text: seq<Byte>, c: Config)
    requires Valid(p)
  {
    exists d :: IsMatch(p, d) && Reaches(p, text, c, d)
  }

  lemma ReachesSelf(p: Program, text: seq<Byte>, c: Config)
    requires Valid(p) && InBounds(p, text, c)
    ensures Reaches(p, text, c, c)
  {
    assert IsPath(p, text, c, c, [c]);
  }

  lemma ReachesStep(p: Program, text: seq<Byte>, c: Config, n: Config, d: Config)
    requires Valid(p) && InBounds(p, text, c) && n in Next(p, text, c) && Reaches(p, text, n, d)
    ensures Reaches(p, text, c, d)
  {
    var trace :| IsPath(p, text, n, d, trace);
    assert IsPath(p, text, c, d, [c] + trace);
  }

  /** `n` steps turn `t` into `u`, which has recorded what there was to record on the way. */
  ghost predicate Leads(p: Program, text: seq<Byte>, t: Thread, u: Thread, n: nat)
    requires Valid(p) && ThreadOk(p, text, t)
    decreases n
  {
    if n == 0 then t == u
    else exists v :: v in After(p, text, t) && Leads(p, text, v, u, n - 1)
  }

  lemma {:induction false} LeadsReaches(p: Program, text: seq<Byte>, t: Thread, u: Thread, n: nat)
    requires Valid(p) && ThreadOk(p, text, t) && Leads(p, text, t, u, n)
    ensures ThreadOk(p, text, u) && Reaches(p, text, t.config, u.config) && u.saves[0] == t.saves[0]
    decreases n
  {
    hide After, Next, Reaches;
    if n == 0 {
      ReachesSelf(p, text, t.config);
    } else {
      var v :| v in After(p, text, t) && Leads(p, text, v, u, n - 1);
      AfterConfigs(p, text, t);
      LeadsReaches(p, text, v, u, n - 1);
      ReachesStep(p, text, t.config, v.config, u.config);
    }
  }

  /** A match that is found is what some thread of the list has led to. */
  lemma {:induction false} FoundIsLedTo(p: Program, text: seq<Byte>, w: seq<Thread>, visited: set<Config>)
    returns (k: nat, u: Thread, n: nat)
    requires Valid(p) && ThreadsOk(p, text, w) && Backtrack(p, text, w, visited).found.Some?
    ensures k < |w| && Leads(p, text, w[k], u, n) && IsMatch(p, u.config) && ThreadOk(p, text, u)
    ensures Backtrack(p, text, w, visited).found == Some(Report(u))
    decreases Everywhere(p, text) - visited, |w|
  {
    hide After, Next, Report;
    if w[0].config in visited {
      k, u, n := FoundIsLedTo(p, text, w[1..], visited);
      k := k + 1;
    } else if IsMatch(p, w[0].config) {
      k, u, n := 0, w[0], 0;
    } else {
      assert w[0].config in Everywhere(p, text);
      var after := After(p, text, w[0]);
      k, u, n := FoundIsLedTo(p, text, after + w[1..], visited + {w[0].config});
      if k < |after| {
        assert after[k] in after;
        k, n := 0, n + 1;
      } else {
        k := k - |after| + 1;
      }
    }
  }

  /** Nothing visited is a match, and all it leads to is visited or waiting in `w`. */
  ghost predicate Explored(p: Program, text: seq<Byte>, visited: set<Config>, w: seq<Thread>)
    requires Valid(p)
  {
    forall c :: c in visited ==>
      && InBounds(p, text, c)
      && !IsMatch(p, c)
      && forall n :: n in Next(p, text, c) ==> n in visited || exists i :: 0 <= i < |w| && w[i].config == n
  }

  lemma ExploredSkip(p: Program, text: seq<Byte>, w: seq<Thread>, visited: set<Config>)
    requires Valid(p) && w != [] && w[0].config in visited && Explored(p, text, visited, w)
    ensures Explored(p, text, visited, w[1..])
  {
    hide Next;
    forall c, n | c in visited && n in Next(p, text, c) && n !in visited
      ensures exists i :: 0 <= i < |w[1..]| && w[1..][i].config == n
    {
      var i :| 0 <= i < |w| && w[i].config == n;
      assert w[1..][i - 1].config == n;
    }
  }

  lemma ExploredStep(p: Program, text: seq<Byte>, w: seq<Thread>, visited: set<Config>)
    requires Valid(p) && ThreadsOk(p, text, w) && w != [] && Explored(p, text, visited, w) && !IsMatch(p, w[0].config)
    ensures Explored(p, text, visited + {w[0].config}, After(p, text, w[0]) + w[1..])
  {
    hide Next, After;
    var after, v := After(p, text, w[0]), visited + {w[0].config};
    var w' := after + w[1..];
    AfterConfigs(p, text, w[0]);
    forall c, n | c in v && n in Next(p, text, c) && n !in v
      ensures exists i :: 0 <= i < |w'| && w'[i].config == n
    {
      if c == w[0].config {
        var i :| 0 <= i < |Next(p, text, c)| && Next(p, text, c)[i] == n;
        assert w'[i].config == n;
      } else {
        var i :| 0 <= i < |w| && w[i].config == n;
        assert w'[i - 1 + |after|].config == n;
      }
    }
  }

  /** When nothing is found, all the worklist and all it leads to has been visited. */
  lemma {:induction false} NotFoundIsExplored(p: Program, text: seq<Byte>, w: seq<Thread>, visited: set<Config>)
    requires Valid(p) && ThreadsOk(p, text, w) && Explored(p, text, visited, w)
    requires Backtrack(p, text, w, visited).found.None?
    ensures var all := Backtrack(p, text, w, visited).visited;
            && Explored(p, text, all, [])
            && visited <= all
            && forall i :: 0 <= i < |w| ==> w[i].config in all
    decreases Everywhere(p, text) - visited, |w|
  {
    hide After, Next;
    if w == [] {
    } else if w[0].config in visited {
      ExploredSkip(p, text, w, visited);
      NotFoundIsExplored(p, text, w[1..], visited);
      forall i | 0 <= i < |w|
        ensures w[i].config in Backtrack(p, text, w, visited).visited
      {
        if i > 0 {
          assert w[1..][i - 1] == w[i];
        }
      }
    } else {
      assert w[0].config in Everywhere(p, text);
      var after, v := After(p, text, w[0]), visited + {w[0].config};
      var w' := after + w[1..];
      ExploredStep(p, text, w, visited);
      NotFoundIsExplored(p, text, w', v);
      forall i | 0 <= i < |w|
        ensures w[i].config in Backtrack(p, text, w, visited).visited
      {
        if i > 0 {
          assert w'[i - 1 + |after|] == w[i];
        }
      }
    }
  }

  /** From an explored set no path leads to a match. */
  lemma ExploredHasNoMatch(p: Program, text: seq<Byte>, all: set<Config>, c: Config)
    requires Valid(p) && Explored(p, text, all, []) && c in all
    ensures !LeadsToMatch(p, text, c)
  {
    forall d, trace | IsPath(p, text, c, d, trace)
      ensures d in all
    {
      PathStaysInside(p, text, all, c, d, trace);
    }
  }

  lemma {:induction false} PathStaysInside(p: Program, text: seq<Byte>, all: set<Config>, c: Config, d: Config, trace: seq<Config>)
    requires Valid(p) && Explored(p, text, all, []) && c in all && IsPath(p, text, c, d, trace)
    ensures d in all
    decreases |trace|
  {
    if |trace| > 1 {
      assert trace[0 + 1] in Next(p, text, trace[0]);
      PathStaysInside(p, text, all, trace[1], d, trace[1..]);
    }
  }

  lemma BacktrackNothing(p: Program, text: seq<Byte>, visited: set<Config>)
    requires Valid(p)
    ensures Backtrack(p, text, [], visited) == Outcome(None, visited)
  {
  }

  /** A worklist is searched one part after the other. */
  lemma {:induction false} BacktrackSplit(p: Program, text: seq<Byte>, a: seq<Thread>, b: seq<Thread>, visited: set<Config>)
    requires Valid(p) && ThreadsOk(p, text, a) && ThreadsOk(p, text, b)
    ensures var first := Backtrack(p, text, a, visited);
            Backtrack(p, text, a + b, visited) ==
            if first.found.Some? then first else Backtrack(p, text, b, first.visited)
    decreases Everywhere(p, text) - visited, |a|
  {
    hide After, Next;
    if a == [] {
      assert a + b == b;
    } else {
      assert (a + b)[1..] == a[1..] + b;
      if a[0].config in visited {
        BacktrackSplit(p, text, a[1..], b, visited);
      } else if !IsMatch(p, a[0].config) {
        assert a[0].config in Everywhere(p, text);
        var after := After(p, text, a[0]);
        assert after + (a[1..] + b) == (after + a[1..]) + b;
        BacktrackSplit(p, text, after + a[1..], b, visited + {a[0].config});
      }
    }
  }

  /** What the reference search of a worklist returns: the first of its threads that leads to a
      match is the one whose match is reported. */
  lemma {:induction false} FirstThatLeads(p: Program, text: seq<Byte>, w: seq<Thread>, visited: set<Config>)
    returns (k: nat, u: Thread, n: nat)
    requires Valid(p) && ThreadsOk(p, text, w) && Explored(p, text, visited, [])
    ensures var found := Backtrack(p, text, w, visited).found;
            if found.None? then
              forall i :: 0 <= i < |w| ==> !LeadsToMatch(p, text, w[i].config)
            else
              && k < |w| && Leads(p, text, w[k], u, n) && IsMatch(p, u.config) && ThreadOk(p, text, u)
              && found == Some(Report(u))
              && forall i :: 0 <= i < k ==> !LeadsToMatch(p, text, w[i].config)
    decreases |w|
  {
    hide After, Next, Backtrack, LeadsToMatch, Leads, Report;
    k, u, n := 0, Thread(Config(0, 0), []), 0;
    if w == [] {
      BacktrackNothing(p, text, visited);
    } else {
      assert w == w[..1] + w[1..];
      BacktrackSplit(p, text, w[..1], w[1..], visited);
      var first := Backtrack(p, text, w[..1], visited);
      if first.found.Some? {
        k, u, n := FoundIsLedTo(p, text, w[..1], visited);
      } else {
        NotFoundIsExplored(p, text, w[..1], visited);
        assert w[..1][0].config in first.visited;
        ExploredHasNoMatch(p, text, first.visited, w[0].config);
        k, u, n := FirstThatLeads(p, text, w[1..], first.visited);
        forall i | 0 <= i < |w| && (Backtrack(p, text, w, visited).found.None? || i < k + 1)
          ensures !LeadsToMatch(p, text, w[i].config)
        {
          if i > 0 {
            assert w[i] == w[1..][i - 1];
          }
        }
        k := k + 1;
      }
    }
  }

  /** What a search reports has been recorded on a way from a start to a match. */
  ghost predicate Reported(p: Program, text: seq<Byte>, found: seq<int>, s: nat, u: Thread, n: nat)
    requires Valid(p) && s <= |text|
  {
    Leads(p, text, StartThread(p, s), u, n) && ThreadOk(p, text, u) && IsMatch(p, u.config) && found == Report(u)
  }

  /** The search finds a match exactly when some start leads to one; it then reports the leftmost
      such start, an end that the program reaches from it, and what was recorded on the way. */
  lemma SearchIsLeftmost(p: Program, text: seq<Byte>, from: nat)
    requires Valid(p) && from <= |text|
    ensures var found := Search(p, text, from);
            && (found.Some? <==> exists s, e :: s in Starts(text, from) && Accepts(p, text, s, e))
            && (found.Some? ==>
                  && |found.value| == p.slots
                  && found.value[0] in Starts(text, from)
                  && 0 <= found.value[1] <= |text|
                  && Accepts(p, text, found.value[0], found.value[1])
                  && (exists u, n :: Reported(p, text, found.value, found.value[0], u, n))
                  && forall s, e :: s in Starts(text, from) && Accepts(p, text, s, e) ==> found.value[0] <= s)
  {
    hide Backtrack, Next, Starts, Leads;
    var w, starts, found := StartThreads(p, text, from), Starts(text, from), Search(p, text, from);
    var k, u, n := FirstThatLeads(p, text, w, {});
    if found.Some? {
      LeadsReaches(p, text, w[k], u, n);
      var d := u.config;
      assert d == Config(d.pc, d.at);
      assert Accepts(p, text, starts[k], d.at);
      assert starts[k] in starts;
      assert Reported(p, text, found.value, starts[k], u, n);
    }
    forall s, e | s in starts && Accepts(p, text, s, e)
      ensures found.Some? && found.value[0] <= s
    {
      var i :| 0 <= i < |starts| && starts[i] == s;
      assert LeadsToMatch(p, text, w[i].config);
    }
  }
}
