/** The lock-step search: all threads move over the text together, one character at a time,
    in an ordered list. It finds the match that depth-first search finds. */
module RegexPike {
  import opened Common
  import opened Utf8
  import opened RegexProgram
  import opened RegexBacktrack

  ghost predicate AllAt(w: seq<Thread>, at: nat) {
    forall i :: 0 <= i < |w| ==> w[i].config.at == at
  }

  ghost predicate AllFrom(w: seq<Thread>, at: nat) {
    forall i :: 0 <= i < |w| ==> at <= w[i].config.at
  }

  ghost predicate AllPast(w: seq<Thread>, at: nat) {
    forall i :: 0 <= i < |w| ==> at < w[i].config.at
  }

  /** A thread that waits for a character or matches. */
  predicate IsLeaf(p: Program, t: Thread) {
    t.config.pc < |p.code| && (Consuming(p.code[t.config.pc]) || p.code[t.config.pc].Match?)
  }

  predicate IsPc(p: Program, pc: nat) {
    pc < |p.code|
  }

  ghost function Pcs(p: Program): set<nat> {
    set pc: nat | pc < |p.code| && IsPc(p, pc)
  }

  /** The threads left over after a position, and the match found there, if any. */
  datatype Level = Level(out: seq<Thread>, found: Option<seq<int>>)

  /** Runs the threads of `w` that are at `at` in order of preference until each of them has
      moved on; a match drops all that come after it. */
  ghost function RunLevel(p: Program, text: seq<Byte>, w: seq<Thread>, at: nat, marks: set<nat>): (r: Level)
    requires Valid(p) && ThreadsOk(p, text, w)
    ensures ThreadsOk(p, text, r.out)
    decreases Pcs(p) - marks, |w|
  {
    if w == [] then Level([], None)
    else if w[0].config.at != at then
      var rest := RunLevel(p, text, w[1..], at, marks);
      Level([w[0]] + rest.out, rest.found)
    else if w[0].config.pc in marks then RunLevel(p, text, w[1..], at, marks)
    else if IsMatch(p, w[0].config) then Level([], Some(Report(w[0])))
    else
      assert w[0].config.pc in Pcs(p);
      RunLevel(p, text, After(p, text, w[0]) + w[1..], at, marks + {w[0].config.pc})
  }

  /** Where the threads that leave `at` go. */
  function NextAt(text: seq<Byte>, at: nat): nat {
    if at < |text| then at + Decode(text, at).size else at + 1
  }

  ghost function Starting(p: Program, at: nat, found: Option<seq<int>>): seq<Thread>
    requires Valid(p)
  {
    if found.None? then [StartThread(p, at)] else []
  }

  /** The search position by position. `found` is the best match so far: what the remaining
      threads find is preferred to it, and while there is none a new thread starts at each
      position, after all that started before it. */
  ghost function LockStep(p: Program, text: seq<Byte>, threads: seq<Thread>, at: nat, found: Option<seq<int>>)
    : Option<seq<int>>
    requires Valid(p) && at <= |text| && ThreadsOk(p, text, threads)
    decreases |text| - at
  {
    var level := RunLevel(p, text, threads + Starting(p, at, found), at, {});
    var best := OrElse(level.found, found);
    if at == |text| then best else LockStep(p, text, level.out, NextAt(text, at), best)
  }

  // ---------- one position of the lock-step search against depth-first search ----------

  /** A leaf moves on to the next character, everything else stays. */
  lemma AfterPlaces(p: Program, text: seq<Byte>, t: Thread)
    requires Valid(p) && ThreadOk(p, text, t)
    ensures !IsMatch(p, t.config) && IsLeaf(p, t) ==> AllAt(After(p, text, t), NextAt(text, t.config.at))
    ensures !IsLeaf(p, t) ==> AllAt(After(p, text, t), t.config.at)
    ensures IsLeaf(p, t) && (t.config.at == |text| || IsMatch(p, t.config)) ==> After(p, text, t) == []
    ensures AllFrom(After(p, text, t), t.config.at)
    ensures t.config.at < NextAt(text, t.config.at)
  {
  }

  /** Threads that have left the position are passed on as they are. */
  lemma {:induction false} RunLevelPasses(p: Program, text: seq<Byte>, a: seq<Thread>, w: seq<Thread>, at: nat, marks: set<nat>)
    requires Valid(p) && ThreadsOk(p, text, a) && ThreadsOk(p, text, w) && AllPast(a, at)
    ensures var rest := RunLevel(p, text, w, at, marks);
            RunLevel(p, text, a + w, at, marks) == Level(a + rest.out, rest.found)
    decreases |a|
  {
    hide After, Next;
    if a == [] {
      assert a + w == w;
      assert a + RunLevel(p, text, w, at, marks).out == RunLevel(p, text, w, at, marks).out;
    } else {
      assert (a + w)[1..] == a[1..] + w;
      RunLevelPasses(p, text, a[1..], w, at, marks);
      var out := RunLevel(p, text, w, at, marks).out;
      assert [a[0]] + (a[1..] + out) == a + out;
    }
  }

  /** Threads that wait behind the position stay behind, unless a match drops them. */
  lemma {:induction false} RunLevelAppend(p: Program, text: seq<Byte>, w: seq<Thread>, b: seq<Thread>, at: nat, marks: set<nat>)
    requires Valid(p) && ThreadsOk(p, text, w) && ThreadsOk(p, text, b) && AllPast(b, at)
    ensures var level := RunLevel(p, text, w, at, marks);
            RunLevel(p, text, w + b, at, marks) ==
            if level.found.Some? then level else Level(level.out + b, None)
    decreases Pcs(p) - marks, |w|
  {
    hide After, Next;
    if w == [] {
      assert w + b == b && b == b + [];
      RunLevelPasses(p, text, b, [], at, marks);
      assert RunLevel(p, text, w, at, marks).out + b == b;
    } else {
      assert (w + b)[1..] == w[1..] + b;
      if w[0].config.at != at {
        RunLevelAppend(p, text, w[1..], b, at, marks);
        var out := RunLevel(p, text, w[1..], at, marks).out;
        assert [w[0]] + (out + b) == ([w[0]] + out) + b;
      } else if w[0].config.pc in marks {
        RunLevelAppend(p, text, w[1..], b, at, marks);
      } else if !IsMatch(p, w[0].config) {
        assert w[0].config.pc in Pcs(p);
        var after := After(p, text, w[0]);
        assert after + (w[1..] + b) == (after + w[1..]) + b;
        RunLevelAppend(p, text, after + w[1..], b, at, marks + {w[0].config.pc});
      }
    }
  }

  /** What leaves a position has moved past it, to the next character's position. */
  lemma {:induction false} RunLevelMovesOn(p: Program, text: seq<Byte>, w: seq<Thread>, at: nat, marks: set<nat>)
    requires Valid(p) && ThreadsOk(p, text, w) && at <= |text|
    requires forall i :: 0 <= i < |w| ==> w[i].config.at == at || w[i].config.at == NextAt(text, at)
    ensures AllAt(RunLevel(p, text, w, at, marks).out, NextAt(text, at))
    ensures at == |text| ==> RunLevel(p, text, w, at, marks).out == []
    decreases Pcs(p) - marks, |w|
  {
    hide After, Next;
    if w == [] {
    } else if w[0].config.at != at || w[0].config.pc in marks {
      RunLevelMovesOn(p, text, w[1..], at, marks);
    } else if !IsMatch(p, w[0].config) {
      assert w[0].config.pc in Pcs(p);
      AfterPlaces(p, text, w[0]);
      RunLevelMovesOn(p, text, After(p, text, w[0]) + w[1..], at, marks + {w[0].config.pc});
    }
  }

  /** The visited configurations agree with the marks at `at`, and with `later` past it. */
  ghost predicate Agrees(visited: set<Config>, at: nat, marks: set<nat>, later: set<Config>) {
    && (forall c: Config :: c.at == at ==> (c in visited <==> c.pc in marks))
    && (forall c: Config :: c.at > at ==> (c in visited <==> c in later))
  }

  /** Running one position first does not change what depth-first search finds. */
  lemma {:induction false} RunLevelRefines(p: Program, text: seq<Byte>, w: seq<Thread>, at: nat, marks: set<nat>,
                                           visited: set<Config>, later: set<Config>)
    requires Valid(p) && ThreadsOk(p, text, w) && AllFrom(w, at) && Agrees(visited, at, marks, later)
    ensures var level := RunLevel(p, text, w, at, marks);
            Backtrack(p, text, w, visited).found == OrElse(Backtrack(p, text, level.out, later).found, level.found)
    decreases Everywhere(p, text) - visited, |w|
  {
    hide After, Next;
    if w == [] {
    } else {
      var c := w[0].config;
      AfterPlaces(p, text, w[0]);
      var rest := RunLevel(p, text, w[1..], at, marks);
      if c in visited {
        RunLevelRefines(p, text, w[1..], at, marks, visited, later);
        assert ([w[0]] + rest.out)[1..] == rest.out;
      } else if IsMatch(p, c) {
      } else {
        assert c in Everywhere(p, text);
        var after := After(p, text, w[0]);
        if c.at == at {
          assert Agrees(visited + {c}, at, marks + {c.pc}, later);
          RunLevelRefines(p, text, after + w[1..], at, marks + {c.pc}, visited + {c}, later);
        } else {
          assert Agrees(visited + {c}, at, marks, later + {c});
          RunLevelRefines(p, text, after + w[1..], at, marks, visited + {c}, later + {c});
          RunLevelPasses(p, text, after, w[1..], at, marks);
          assert ([w[0]] + rest.out)[1..] == rest.out;
        }
      }
    }
  }

  // ---------- the whole search ----------

  lemma StartThreadsUnfold(p: Program, text: seq<Byte>, at: nat)
    requires Valid(p) && at <= |text|
    ensures StartThreads(p, text, at) ==
            [StartThread(p, at)] + if at < |text| then StartThreads(p, text, NextAt(text, at)) else []
  {
  }

  lemma StartsLater(p: Program, text: seq<Byte>, at: nat)
    requires Valid(p) && at <= |text|
    ensures AllFrom(StartThreads(p, text, at), at) && AllAt([StartThread(p, at)], at)
    ensures at < NextAt(text, at)
    ensures at < |text| ==> NextAt(text, at) <= |text| && AllPast(StartThreads(p, text, NextAt(text, at)), at)
  {
  }

  lemma {:induction false} LockStepIsBacktrack(p: Program, text: seq<Byte>, threads: seq<Thread>, at: nat,
                                               found: Option<seq<int>>)
    requires Valid(p) && at <= |text| && ThreadsOk(p, text, threads) && AllAt(threads, at)
    ensures var w := threads + if found.None? then StartThreads(p, text, at) else [];
            LockStep(p, text, threads, at, found) == OrElse(Backtrack(p, text, w, {}).found, found)
    decreases |text| - at
  {
    hide Backtrack, RunLevel, StartThreads, StartThread, Starts, NextAt;
    StartThreadsUnfold(p, text, at);
    BacktrackNothing(p, text, {});
    var here := threads + Starting(p, at, found);
    var rest := if found.None? && at < |text| then StartThreads(p, text, NextAt(text, at)) else [];
    var all := threads + if found.None? then StartThreads(p, text, at) else [];
    assert all == here + rest;
    var level := RunLevel(p, text, here, at, {});
    StartsLater(p, text, at);
    RunLevelAppend(p, text, here, rest, at, {});
    RunLevelRefines(p, text, all, at, {}, {}, {});
    RunLevelMovesOn(p, text, here, at, {});
    var best := OrElse(level.found, found);
    if at < |text| {
      LockStepIsBacktrack(p, text, level.out, NextAt(text, at), best);
      assert level.out + [] == level.out;
    } else {
      assert level.out + rest == [];
    }
  }

  /** The lock-step search refines depth-first search: the same answer with the same spans. */
  lemma LockStepIsSearch(p: Program, text: seq<Byte>, from: nat)
    requires Valid(p) && from <= |text|
    ensures LockStep(p, text, [], from, None) == Search(p, text, from)
  {
    LockStepIsBacktrack(p, text, [], from, None);
    assert [] + StartThreads(p, text, from) == StartThreads(p, text, from);
  }

  // ---------- the two halves of a position: following jumps, taking a character ----------

  /** The threads of a list that wait for a character or match, and the places gone through. */
  datatype Closed = Closed(leaves: seq<Thread>, marks: set<nat>)

  /** Follows everything that takes no character, in order of preference. */
  ghost function Closure(p: Program, text: seq<Byte>, w: seq<Thread>, marks: set<nat>): (r: Closed)
    requires Valid(p) && ThreadsOk(p, text, w)
    ensures ThreadsOk(p, text, r.leaves)
    ensures forall i :: 0 <= i < |r.leaves| ==> IsLeaf(p, r.leaves[i])
    decreases Pcs(p) - marks, |w|
  {
    if w == [] then Closed([], marks)
    else if w[0].config.pc in marks then Closure(p, text, w[1..], marks)
    else
      assert w[0].config.pc in Pcs(p);
      if IsLeaf(p, w[0]) then
        var rest := Closure(p, text, w[1..], marks + {w[0].config.pc});
        Closed([w[0]] + rest.leaves, rest.marks)
      else
        Closure(p, text, After(p, text, w[0]) + w[1..], marks + {w[0].config.pc})
  }

  /** Lets every leaf take the character it waits for, up to the first that matches. */
  ghost function Consume(p: Program, text: seq<Byte>, leaves: seq<Thread>): (r: Level)
    requires Valid(p) && ThreadsOk(p, text, leaves)
    ensures ThreadsOk(p, text, r.out)
    decreases |leaves|
  {
    if leaves == [] then Level([], None)
    else if IsMatch(p, leaves[0].config) then Level([], Some(Report(leaves[0])))
    else
      var rest := Consume(p, text, leaves[1..]);
      Level(After(p, text, leaves[0]) + rest.out, rest.found)
  }

  lemma {:induction false} RunLevelInTwoHalves(p: Program, text: seq<Byte>, w: seq<Thread>, at: nat, marks: set<nat>)
    requires Valid(p) && ThreadsOk(p, text, w) && AllAt(w, at)
    ensures RunLevel(p, text, w, at, marks) == Consume(p, text, Closure(p, text, w, marks).leaves)
    decreases Pcs(p) - marks, |w|
  {
    hide After, Next;
    if w == [] {
    } else if w[0].config.pc in marks {
      RunLevelInTwoHalves(p, text, w[1..], at, marks);
    } else {
      assert w[0].config.pc in Pcs(p);
      var marks' := marks + {w[0].config.pc};
      var after := After(p, text, w[0]);
      AfterPlaces(p, text, w[0]);
      if IsLeaf(p, w[0]) {
        RunLevelInTwoHalves(p, text, w[1..], at, marks');
        RunLevelPasses(p, text, after, w[1..], at, marks');
        var rest := Closure(p, text, w[1..], marks').leaves;
        assert ([w[0]] + rest)[1..] == rest;
      } else {
        RunLevelInTwoHalves(p, text, after + w[1..], at, marks');
      }
    }
  }

  lemma {:induction false} ClosureStaysHere(p: Program, text: seq<Byte>, w: seq<Thread>, at: nat, marks: set<nat>)
    requires Valid(p) && ThreadsOk(p, text, w) && AllAt(w, at)
    ensures AllAt(Closure(p, text, w, marks).leaves, at)
    decreases Pcs(p) - marks, |w|
  {
    hide After, Next;
    if w == [] {
    } else if w[0].config.pc in marks {
      ClosureStaysHere(p, text, w[1..], at, marks);
    } else {
      assert w[0].config.pc in Pcs(p);
      AfterPlaces(p, text, w[0]);
      if IsLeaf(p, w[0]) {
        ClosureStaysHere(p, text, w[1..], at, marks + {w[0].config.pc});
      } else {
        ClosureStaysHere(p, text, After(p, text, w[0]) + w[1..], at, marks + {w[0].config.pc});
      }
    }
  }

  /** With no threads left, the best match so far is the answer. */
  lemma {:induction false} LockStepDone(p: Program, text: seq<Byte>, at: nat, found: Option<seq<int>>)
    requires Valid(p) && at <= |text| && found.Some?
    ensures LockStep(p, text, [], at, found) == found
    decreases |text| - at
  {
    assert [] + Starting(p, at, found) == [];
    if at < |text| {
      LockStepDone(p, text, NextAt(text, at), found);
    }
  }

  /** The search from here on gives `answer`. (The quantifier keeps the recursion folded
      where this is only passed on.) */
  ghost predicate Answers(p: Program, text: seq<Byte>, w: seq<Thread>, at: nat, best: Option<seq<int>>,
                          answer: Option<seq<int>>)
    requires Valid(p) && at <= |text|
  {
    && ThreadsOk(p, text, w)
    && forall b {:trigger LockStep(p, text, w, at, b)} :: b == best ==> LockStep(p, text, w, at, b) == answer
  }

  lemma AnswersAtStart(p: Program, text: seq<Byte>, from: nat)
    requires Valid(p) && from <= |text|
    ensures Answers(p, text, [], from, None, Search(p, text, from))
  {
    LockStepIsSearch(p, text, from);
  }

  /** One position of the lock-step search in two halves. */
  lemma LockStepRound(p: Program, text: seq<Byte>, w: seq<Thread>, at: nat, found: Option<seq<int>>, answer: Option<seq<int>>)
    returns (leaves: seq<Thread>)
    requires Valid(p) && at <= |text| && ThreadsOk(p, text, w) && AllAt(w, at)
    requires Answers(p, text, w, at, found, answer)
    ensures leaves == Closure(p, text, w + Starting(p, at, found), {}).leaves && AllAt(leaves, at)
    ensures var level := Consume(p, text, leaves);
            var best := OrElse(level.found, found);
            && AllAt(level.out, NextAt(text, at))
            && (if at == |text| then answer == best else Answers(p, text, level.out, NextAt(text, at), best, answer))
    ensures leaves == [] && (found.Some? || at == |text|) ==> answer == found
  {
    var here := w + Starting(p, at, found);
    leaves := Closure(p, text, here, {}).leaves;
    assert LockStep(p, text, w, at, found) == answer;
    RunLevelInTwoHalves(p, text, here, at, {});
    RunLevelMovesOn(p, text, here, at, {});
    ClosureStaysHere(p, text, here, at, {});
    if at < |text| && found.Some? {
      LockStepDone(p, text, NextAt(text, at), found);
    }
  }

  /** Following one list after the other, with the marks carried over. */
  lemma {:induction false} ClosureSplit(p: Program, text: seq<Byte>, a: seq<Thread>, b: seq<Thread>, marks: set<nat>)
    requires Valid(p) && ThreadsOk(p, text, a) && ThreadsOk(p, text, b)
    ensures var first := Closure(p, text, a, marks);
            var second := Closure(p, text, b, first.marks);
            Closure(p, text, a + b, marks) == Closed(first.leaves + second.leaves, second.marks)
    decreases Pcs(p) - marks, |a|
  {
    hide After, Next;
    var first := Closure(p, text, a, marks);
    var second := Closure(p, text, b, first.marks);
    if a == [] {
      assert a + b == b && first.leaves + second.leaves == second.leaves;
    } else {
      assert (a + b)[1..] == a[1..] + b;
      if a[0].config.pc in marks {
        ClosureSplit(p, text, a[1..], b, marks);
      } else {
        assert a[0].config.pc in Pcs(p);
        var marks' := marks + {a[0].config.pc};
        if IsLeaf(p, a[0]) {
          ClosureSplit(p, text, a[1..], b, marks');
          var rest := Closure(p, text, a[1..], marks').leaves;
          assert ([a[0]] + rest) + second.leaves == [a[0]] + (rest + second.leaves);
        } else {
          var after := After(p, text, a[0]);
          assert after + (a[1..] + b) == (after + a[1..]) + b;
          ClosureSplit(p, text, after + a[1..], b, marks');
        }
      }
    }
  }

  /** Every leaf carries a mark of its own, so a list is never longer than the code. */
  lemma {:induction false} ClosureIsShort(p: Program, text: seq<Byte>, w: seq<Thread>, marks: set<nat>)
    requires Valid(p) && ThreadsOk(p, text, w) && marks <= Pcs(p)
    ensures var r := Closure(p, text, w, marks);
            && marks <= r.marks <= Pcs(p)
            && (forall i :: 0 <= i < |r.leaves| ==> r.leaves[i].config.pc in r.marks - marks)
            && (forall i, j :: 0 <= i < j < |r.leaves| ==> r.leaves[i].config.pc != r.leaves[j].config.pc)
            && |r.leaves| + |marks| <= |r.marks| <= |p.code|
    decreases Pcs(p) - marks, |w|
  {
    hide After, Next;
    PcsCount(p, marks);
    if w == [] {
    } else if w[0].config.pc in marks {
      ClosureIsShort(p, text, w[1..], marks);
    } else {
      assert w[0].config.pc in Pcs(p);
      var marks' := marks + {w[0].config.pc};
      assert |marks'| == |marks| + 1;
      if IsLeaf(p, w[0]) {
        ClosureIsShort(p, text, w[1..], marks');
      } else {
        ClosureIsShort(p, text, After(p, text, w[0]) + w[1..], marks');
      }
    }
  }

  lemma PcsCount(p: Program, marks: set<nat>)
    requires marks <= Pcs(p)
    ensures |marks| <= |p.code|
  {
    CountBelow(|p.code|, marks);
  }

  lemma {:induction false} CountBelow(n: nat, s: set<nat>)
    requires forall k :: k in s ==> k < n
    ensures |s| <= n
  {
    if n == 0 {
      assert s == {};
    } else if n - 1 in s {
      CountBelow(n - 1, s - {n - 1});
    } else {
      CountBelow(n - 1, s);
    }
  }
}
