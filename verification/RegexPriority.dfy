/** Which match is found: the first in the order that the pattern itself gives, when nothing that
    may be repeated without limit matches the empty text. */
module RegexPriority {
  import opened Common
  import opened Utf8
  import opened RegexProgram
  import opened RegexBacktrack
  import opened RegexFragment
  import opened RegexRepeat
  import opened RegexTree
  import opened RegexCaptures
  import opened RegexWays

  // ---------- the order of the pattern ----------

  ghost predicate MatchesInto(node: Node, text: seq<Byte>, k: nat, ends: set<nat>) {
    exists e :: e in ends && Denotes(node, text, k, e)
  }

  /** The places from which the pattern matches up to one of `ends`. */
  ghost function Before(node: Node, text: seq<Byte>, ends: set<nat>): set<nat> {
    set k | 0 <= k <= |text| && MatchesInto(node, text, k, ends)
  }

  function AtEnd(i: Here, ends: set<nat>): Option<Here> {
    if i.at in ends then Some(i) else None
  }

  /** The first way to get from `i` to one of `ends`: the left alternative before the right one,
      and one more repeat before none when greedy, none before one more when lazy. */
  ghost function Best(node: Node, text: seq<Byte>, i: Here, ends: set<nat>): Option<Here>
    decreases node, 0, 0, 0
  {
    match node
    case Cat(left, right) =>
      var k := Best(left, text, i, Before(right, text, ends));
      if k.None? then None else Best(right, text, k.value, ends)
    case Alt(left, right) => OrElse(Best(left, text, i, ends), Best(right, text, i, ends))
    case Group(number, body) =>
      var k := Best(body, text, i.Saved(number * 2), ends);
      if k.None? then None else Some(k.value.Saved(number * 2 + 1))
    case Repeat(body, least, most, lazy) => BestRepeat(body, text, least, most, lazy, i, ends)
    case Empty => AtEnd(i, ends)
    case At(place) => if i.at <= |text| && IsAt(place, text, i.at) then AtEnd(i, ends) else None
    case _ =>
      if i.at < |text| && Stands(node, Decode(text, i.at).c) then
        AtEnd(Here(i.at + Decode(text, i.at).size, i.saves), ends)
      else None
  }

  ghost function BestRepeat(body: Node, text: seq<Byte>, least: nat, most: int, lazy: bool, i: Here, ends: set<nat>): Option<Here>
    decreases body, 1, least, Left(most, text, i)
  {
    if least > 0 then
      var k := Best(body, text, i, Before(Repeat(body, least - 1, Fewer(most), lazy), text, ends));
      if k.None? then None else BestRepeat(body, text, least - 1, Fewer(most), lazy, k.value, ends)
    else if most == 0 then AtEnd(i, ends)
    else
      var more := OneMore(body, text, most, lazy, i, ends);
      if lazy then OrElse(AtEnd(i, ends), more) else OrElse(more, AtEnd(i, ends))
  }

  ghost function OneMore(body: Node, text: seq<Byte>, most: int, lazy: bool, i: Here, ends: set<nat>): Option<Here>
    requires most != 0
    decreases body, 1, 0, Left(most, text, i), 0
  {
    var k := Best(body, text, i, Before(Repeat(body, 0, Fewer(most), lazy), text, ends));
    if k.None? || (most < 0 && !(i.at < k.value.at <= |text|)) then None
    else BestRepeat(body, text, 0, Fewer(most), lazy, k.value, ends)
  }

  // ---------- the first of the ways ----------

  /** The first of the ways that ends in one of `ends`. */
  function First(ways: seq<Here>, ends: set<nat>): Option<Here> {
    if ways == [] then None else OrElse(AtEnd(ways[0], ends), First(ways[1..], ends))
  }

  lemma {:induction false} FirstOfBoth(a: seq<Here>, b: seq<Here>, ends: set<nat>)
    ensures First(a + b, ends) == OrElse(First(a, ends), First(b, ends))
  {
    if a == [] {
      assert a + b == b;
    } else {
      assert (a + b)[1..] == a[1..] + b;
      FirstOfBoth(a[1..], b, ends);
    }
  }

  lemma FirstOfOne(i: Here, ends: set<nat>)
    ensures First([i], ends) == AtEnd(i, ends)
  {
    assert [i][1..] == [];
  }

  lemma {:induction false} FirstIsIn(ways: seq<Here>, ends: set<nat>)
    ensures First(ways, ends).Some? ==> First(ways, ends).value in ways && First(ways, ends).value.at in ends
    ensures forall k :: k in ways && k.at in ends ==> First(ways, ends).Some?
  {
    if ways != [] {
      FirstIsIn(ways[1..], ends);
      assert forall k :: k in ways ==> k == ways[0] || k in ways[1..];
    }
  }

  lemma {:induction false} FirstSaved(ways: seq<Here>, slot: nat, ends: set<nat>)
    ensures First(SavedAll(ways, slot), ends) ==
            var k := First(ways, ends); if k.None? then None else Some(k.value.Saved(slot))
  {
    if ways != [] {
      FirstSaved(ways[1..], slot, ends);
      assert SavedAll(ways, slot)[1..] == SavedAll(ways[1..], slot);
    }
  }

  lemma WaysInText(node: Node, text: seq<Byte>, i: Here)
    requires InOrder(node) && Steady(node) && i.at <= |text|
    ensures forall k :: k in Ways(node, text, i) ==> i.at <= k.at <= |text| && (!CanBeEmpty(node) ==> i.at < k.at)
  {
    hide Ways, InOrder, Steady, CanBeEmpty, Parses;
    forall k | k in Ways(node, text, i) ensures i.at <= k.at <= |text| && (!CanBeEmpty(node) ==> i.at < k.at) {
      WaysAreParses(node, text, i, k);
      ParseMoves(node, text, i, k);
    }
  }

  lemma SomeWay(node: Node, text: seq<Byte>, i: Here, ends: set<nat>)
    requires InOrder(node) && Steady(node) && i.at <= |text|
    ensures First(Ways(node, text, i), ends).Some? <==> i.at in Before(node, text, ends)
  {
    hide Ways, InOrder, Steady, Parses, Denotes, First;
    var ways := Ways(node, text, i);
    FirstIsIn(ways, ends);
    if First(ways, ends).Some? {
      var k := First(ways, ends).value;
      WaysAreParses(node, text, i, k);
      ParsedIsDenoted(node, text, i, k);
    }
    if e :| e in ends && Denotes(node, text, i.at, e) {
      var k := DenotedIsParsed(node, text, i, e);
      WaysAreParses(node, text, i, k);
    }
  }

  /** The first of the ways on from several places goes on from the first place from which there is one. */
  lemma {:induction false} FirstFrom(node: Node, text: seq<Byte>, from: seq<Here>, ends: set<nat>)
    requires InOrder(node) && Steady(node) && forall k :: k in from ==> k.at <= |text|
    ensures First(WaysFrom(node, text, from), ends) ==
            var k := First(from, Before(node, text, ends)); if k.None? then None else First(Ways(node, text, k.value), ends)
  {
    hide Ways, InOrder, Steady, Before;
    if from != [] {
      FirstOfBoth(Ways(node, text, from[0]), WaysFrom(node, text, from[1..]), ends);
      SomeWay(node, text, from[0], ends);
      FirstFrom(node, text, from[1..], ends);
    }
  }

  lemma {:induction false} RoomForAll(body: Node, text: seq<Byte>, least: nat, most: int, lazy: bool, from: seq<Here>, room: int)
    requires forall k :: k in from ==> Room(text, k) <= room
    ensures TimesFrom(body, text, least, most, lazy, from, room) == WaysFrom(Repeat(body, least, most, lazy), text, from)
    decreases |from|
  {
    hide Room, Times;
    if from != [] {
      assert from[0] in from && forall k :: k in from[1..] ==> k in from;
      RoomForAll(body, text, least, most, lazy, from[1..], room);
      assert Ways(Repeat(body, least, most, lazy), text, from[0]) == Times(body, text, least, most, lazy, from[0]);
    }
  }

  /** The first way is the first in the list of all ways. */
  lemma {:induction false} BestIsFirst(node: Node, text: seq<Byte>, i: Here, ends: set<nat>)
    requires InOrder(node) && Steady(node) && i.at <= |text|
    ensures Best(node, text, i, ends) == First(Ways(node, text, i), ends)
    decreases node, 0, 0, 0
  {
    hide Before, CanBeEmpty, Times, BestRepeat, First;
    match node
    case Cat(left, right) =>
      var ways, before := Ways(left, text, i), Before(right, text, ends);
      WaysInText(left, text, i);
      BestIsFirst(left, text, i, before);
      FirstFrom(right, text, ways, ends);
      FirstIsIn(ways, before);
      if First(ways, before).Some? {
        BestIsFirst(right, text, First(ways, before).value, ends);
      }
    case Alt(left, right) =>
      BestIsFirst(left, text, i, ends);
      BestIsFirst(right, text, i, ends);
      FirstOfBoth(Ways(left, text, i), Ways(right, text, i), ends);
    case Group(number, body) =>
      var open := i.Saved(number * 2);
      BestIsFirst(body, text, open, ends);
      FirstSaved(Ways(body, text, open), number * 2 + 1, ends);
    case Repeat(body, least, most, lazy) => RepeatIsFirst(body, text, least, most, lazy, i, ends);
    case _ =>
      FirstOfOne(i, ends);
      FirstOfOne(Here(i.at + (if i.at < |text| then Decode(text, i.at).size else 0), i.saves), ends);
      FirstIsIn([], ends);
  }

  lemma {:induction false} RepeatIsFirst(body: Node, text: seq<Byte>, least: nat, most: int, lazy: bool, i: Here, ends: set<nat>)
    requires InOrder(body) && Steady(body) && (most >= 0 ==> least <= most) && (most < 0 ==> !CanBeEmpty(body)) && i.at <= |text|
    ensures BestRepeat(body, text, least, most, lazy, i, ends) == First(Times(body, text, least, most, lazy, i), ends)
    decreases body, 1, least, Left(most, text, i)
  {
    hide Before, CanBeEmpty, Times, TimesFrom, Ways, First, Best;
    TimesIs(body, text, least, most, lazy, i);
    FirstOfOne(i, ends);
    if most != 0 {
      var less, room := if least > 0 then least - 1 else 0, if least == 0 && most < 0 then Room(text, i) - 1 else |text| + 1;
      var rest, ways := Repeat(body, less, Fewer(most), lazy), Ways(body, text, i);
      var before := Before(rest, text, ends);
      var more := More(body, text, least, most, lazy, i);
      LessSteady(body, less, Fewer(most), lazy);
      WaysInText(body, text, i);
      RoomForAll(body, text, less, Fewer(most), lazy, ways, room);
      BestIsFirst(body, text, i, before);
      FirstFrom(rest, text, ways, ends);
      FirstIsIn(ways, before);
      var k := First(ways, before);
      if k.Some? {
        RepeatIsFirst(body, text, less, Fewer(most), lazy, k.value, ends);
        WaysOfRepeat(body, text, less, Fewer(most), lazy, k.value);
      }
      FirstOfBoth([i], more, ends);
      FirstOfBoth(more, [i], ends);
    }
  }

  lemma LessSteady(body: Node, least: nat, most: int, lazy: bool)
    requires InOrder(body) && Steady(body) && (most >= 0 ==> least <= most) && (most < 0 ==> !CanBeEmpty(body))
    ensures InOrder(Repeat(body, least, most, lazy)) && Steady(Repeat(body, least, most, lazy))
  {
    hide CanBeEmpty;
  }

  lemma WaysOfRepeat(body: Node, text: seq<Byte>, least: nat, most: int, lazy: bool, i: Here)
    ensures Ways(Repeat(body, least, most, lazy), text, i) == Times(body, text, least, most, lazy, i)
  {
    hide Times;
  }

  /** The first way is a way: a parse that ends where it should. */
  lemma BestIsParse(node: Node, text: seq<Byte>, i: Here, ends: set<nat>)
    requires InOrder(node) && Steady(node) && i.at <= |text| && Best(node, text, i, ends).Some?
    ensures var j := Best(node, text, i, ends).value; Parses(node, text, i, j) && j.at in ends
  {
    hide Best, Ways, Parses, InOrder, Steady;
    BestIsFirst(node, text, i, ends);
    FirstIsIn(Ways(node, text, i), ends);
    WaysAreParses(node, text, i, Best(node, text, i, ends).value);
  }

  // ---------- following a program ----------

  ghost predicate Live(p: Program, text: seq<Byte>, pc: nat, at: nat)
    requires Valid(p)
  {
    LeadsToMatch(p, text, Config(pc, at))
  }

  lemma MatchIsLive(p: Program, text: seq<Byte>, c: Config)
    requires Valid(p) && InBounds(p, text, c) && IsMatch(p, c)
    ensures LeadsToMatch(p, text, c)
  {
    ReachesSelf(p, text, c);
  }

  /** What is not at a match leads to one just when the next of it does. */
  lemma LiveNext(p: Program, text: seq<Byte>, c: Config)
    requires Valid(p) && InBounds(p, text, c) && !IsMatch(p, c)
    ensures LeadsToMatch(p, text, c) <==> exists n :: n in Next(p, text, c) && LeadsToMatch(p, text, n)
  {
    hide Next, IsMatch;
    if LeadsToMatch(p, text, c) {
      var d :| IsMatch(p, d) && Reaches(p, text, c, d);
      var trace :| IsPath(p, text, c, d, trace);
      assert |trace| > 1;
      assert trace[0 + 1] in Next(p, text, trace[0]);
      assert IsPath(p, text, trace[1], d, trace[1..]);
      assert LeadsToMatch(p, text, trace[1]);
    }
    forall n | n in Next(p, text, c) && LeadsToMatch(p, text, n) ensures LeadsToMatch(p, text, c) {
      var d :| IsMatch(p, d) && Reaches(p, text, n, d);
      ReachesStep(p, text, c, n, d);
    }
  }

  /** The first way on that leads to a match. */
  ghost function Choice(p: Program, text: seq<Byte>, c: Config): (r: Option<Config>)
    requires Valid(p)
    ensures r.Some? ==> InBounds(p, text, c) && r.value in Next(p, text, c) && LeadsToMatch(p, text, r.value)
  {
    if !InBounds(p, text, c) then None
    else
      var ways := Next(p, text, c);
      if |ways| > 0 && LeadsToMatch(p, text, ways[0]) then Some(ways[0])
      else if |ways| > 1 && LeadsToMatch(p, text, ways[1]) then Some(ways[1])
      else None
  }

  function ConfigOf(c: Spot): Config {
    Config(c.pc, c.here.at)
  }

  ghost function Chosen(p: Program, text: seq<Byte>, c: Spot): Option<Spot>
    requires Valid(p)
  {
    var d := Choice(p, text, ConfigOf(c));
    if d.None? then None else Some(SpotOf(d.value, SavesPast(p, ConfigOf(c), c.here.saves)))
  }

  /** `n` choices. */
  ghost function Follow(p: Program, text: seq<Byte>, c: Spot, n: nat): Option<Spot>
    requires Valid(p)
    decreases n
  {
    if n == 0 then Some(c)
    else
      var d := Chosen(p, text, c);
      if d.None? then None else Follow(p, text, d.value, n - 1)
  }

  lemma {:induction false} FollowOn(p: Program, text: seq<Byte>, c: Spot, m: nat, n: nat)
    requires Valid(p) && Follow(p, text, c, m).Some?
    ensures Follow(p, text, c, m + n) == Follow(p, text, Follow(p, text, c, m).value, n)
    decreases m
  {
    hide Chosen;
    if m > 0 {
      FollowOn(p, text, Chosen(p, text, c).value, m - 1, n);
    }
  }

  lemma FollowPart(p: Program, text: seq<Byte>, c: Spot, m: nat, n: nat)
    requires Valid(p) && Follow(p, text, c, n).Some? && m <= n
    ensures Follow(p, text, c, m).Some?
    decreases m
  {
    hide Chosen;
    if m > 0 {
      FollowPart(p, text, Chosen(p, text, c).value, m - 1, n - 1);
    }
  }

  /** Where the choices lead does not depend on what has been recorded. */
  lemma {:induction false} FollowSame(p: Program, text: seq<Byte>, c: Spot, d: Spot, n: nat)
    requires Valid(p) && ConfigOf(c) == ConfigOf(d)
    ensures Follow(p, text, c, n).Some? == Follow(p, text, d, n).Some?
    ensures Follow(p, text, c, n).Some? ==> ConfigOf(Follow(p, text, c, n).value) == ConfigOf(Follow(p, text, d, n).value)
    decreases n
  {
    hide Choice;
    if n > 0 && Choice(p, text, ConfigOf(c)).Some? {
      FollowSame(p, text, Chosen(p, text, c).value, Chosen(p, text, d).value, n - 1);
    }
  }

  lemma NoChoiceAtMatch(p: Program, text: seq<Byte>, c: Spot)
    requires Valid(p)
    ensures IsMatch(p, ConfigOf(c)) ==> Chosen(p, text, c) == None
  {
  }

  /** On the way to a match no place comes twice: it would come for ever. */
  lemma NeverTwice(p: Program, text: seq<Byte>, c: Spot, n: nat, k: nat)
    requires Valid(p) && Follow(p, text, c, n).Some? && IsMatch(p, ConfigOf(Follow(p, text, c, n).value)) && 0 < k <= n
    ensures Follow(p, text, c, k).Some? && ConfigOf(Follow(p, text, c, k).value) != ConfigOf(c)
  {
    hide Chosen, IsMatch;
    FollowPart(p, text, c, k, n);
    var d := Follow(p, text, c, k).value;
    if ConfigOf(d) == ConfigOf(c) {
      var m := n - k;
      FollowOn(p, text, c, k, m);
      FollowSame(p, text, c, d, m);
      var e := Follow(p, text, c, m).value;
      NoChoiceAtMatch(p, text, e);
      FollowPart(p, text, c, m + 1, n);
      FollowOn(p, text, c, m, 1);
      assert false;
    }
  }

  lemma {:induction false} FollowIsLive(p: Program, text: seq<Byte>, c: Spot, n: nat)
    requires Valid(p) && Follow(p, text, c, n).Some? && InBounds(p, text, ConfigOf(c))
    requires IsMatch(p, ConfigOf(Follow(p, text, c, n).value))
    ensures LeadsToMatch(p, text, ConfigOf(c))
  {
    hide Next;
    if n == 0 {
      MatchIsLive(p, text, ConfigOf(c));
    } else {
      NoChoiceAtMatch(p, text, c);
      LiveNext(p, text, ConfigOf(c));
    }
  }

  // ---------- depth first is the first choice ----------

  /** What leads to no match is searched in vain. */
  lemma {:induction false} DeadIsSearched(p: Program, text: seq<Byte>, w: seq<Thread>, visited: set<Config>)
    requires Valid(p) && ThreadsOk(p, text, w) && forall i :: 0 <= i < |w| ==> !LeadsToMatch(p, text, w[i].config)
    ensures var o := Backtrack(p, text, w, visited);
            o.found == None && forall c :: c in o.visited && LeadsToMatch(p, text, c) ==> c in visited
    decreases Everywhere(p, text) - visited, |w|
  {
    hide After, Next, IsMatch, LeadsToMatch;
    if w != [] {
      if w[0].config in visited {
        DeadIsSearched(p, text, w[1..], visited);
      } else {
        if IsMatch(p, w[0].config) {
          MatchIsLive(p, text, w[0].config);
        }
        assert w[0].config in Everywhere(p, text);
        LiveNext(p, text, w[0].config);
        AfterConfigs(p, text, w[0]);
        DeadIsSearched(p, text, After(p, text, w[0]) + w[1..], visited + {w[0].config});
      }
    }
  }

  /** No place that is ahead has been visited. */
  ghost predicate Ahead(p: Program, text: seq<Byte>, c: Spot, n: nat, visited: set<Config>)
    requires Valid(p)
  {
    forall k :: 0 <= k <= n && Follow(p, text, c, k).Some? ==> ConfigOf(Follow(p, text, c, k).value) !in visited
  }

  lemma AheadNext(p: Program, text: seq<Byte>, c: Spot, n: nat, visited: set<Config>)
    requires Valid(p) && 0 < n && Follow(p, text, c, n).Some? && IsMatch(p, ConfigOf(Follow(p, text, c, n).value))
    requires Ahead(p, text, c, n, visited)
    ensures Chosen(p, text, c).Some? && Ahead(p, text, Chosen(p, text, c).value, n - 1, visited + {ConfigOf(c)})
  {
    hide Chosen, IsMatch;
    var d := Chosen(p, text, c).value;
    forall k | 0 <= k <= n - 1 && Follow(p, text, d, k).Some?
      ensures ConfigOf(Follow(p, text, d, k).value) !in visited + {ConfigOf(c)}
    {
      assert Follow(p, text, c, k + 1) == Follow(p, text, d, k);
      NeverTwice(p, text, c, n, k + 1);
    }
  }

  /** Places visited since are ahead only if they lead to a match. */
  lemma AheadStill(p: Program, text: seq<Byte>, c: Spot, n: nat, visited: set<Config>, more: set<Config>)
    requires Valid(p) && Follow(p, text, c, n).Some? && IsMatch(p, ConfigOf(Follow(p, text, c, n).value))
    requires InBounds(p, text, ConfigOf(c)) && Ahead(p, text, c, n, visited)
    requires forall x :: x in more && LeadsToMatch(p, text, x) ==> x in visited
    ensures Ahead(p, text, c, n, more)
  {
    hide LeadsToMatch, IsMatch, Chosen;
    forall k | 0 <= k <= n && Follow(p, text, c, k).Some?
      ensures ConfigOf(Follow(p, text, c, k).value) !in more
    {
      FollowOn(p, text, c, k, n - k);
      FollowInBounds(p, text, c, k);
      FollowIsLive(p, text, Follow(p, text, c, k).value, n - k);
    }
  }

  lemma {:induction false} FollowInBounds(p: Program, text: seq<Byte>, c: Spot, k: nat)
    requires Valid(p) && InBounds(p, text, ConfigOf(c)) && Follow(p, text, c, k).Some?
    ensures InBounds(p, text, ConfigOf(Follow(p, text, c, k).value))
    decreases k
  {
    hide Next;
    if k > 0 {
      FollowInBounds(p, text, Chosen(p, text, c).value, k - 1);
    }
  }

  lemma AheadNow(p: Program, text: seq<Byte>, c: Spot, n: nat, visited: set<Config>)
    requires Valid(p) && Ahead(p, text, c, n, visited)
    ensures ConfigOf(c) !in visited
  {
    assert Follow(p, text, c, 0) == Some(c);
  }

  /** The choice is the first of the threads that come after, or the second when the first leads
      to no match. */
  lemma ChosenAfter(p: Program, text: seq<Byte>, t: Thread, c: Spot)
    requires Valid(p) && ThreadOk(p, text, t) && t.config == ConfigOf(c) && Recorded(t.saves, c.here.saves)
    requires Chosen(p, text, c).Some?
    ensures var after, d := After(p, text, t), Chosen(p, text, c).value;
            && (forall i :: 0 <= i < |after| ==> Recorded(after[i].saves, d.here.saves))
            && |after| > 0
            && (after[0].config == ConfigOf(d) ||
                (|after| == 2 && after[1].config == ConfigOf(d) && !LeadsToMatch(p, text, after[0].config)))
  {
    hide Next, Recorded, LeadsToMatch, SavesPast;
    var after, d := After(p, text, t), Chosen(p, text, c).value;
    AfterConfigs(p, text, t);
    forall i | 0 <= i < |after| ensures Recorded(after[i].saves, d.here.saves) {
      assert after[i] in after;
      StepHolds(p, text, t, after[i], c.here.saves);
    }
  }

  lemma BacktrackHead(p: Program, text: seq<Byte>, t: Thread, rest: seq<Thread>, visited: set<Config>)
    requires Valid(p) && ThreadOk(p, text, t) && ThreadsOk(p, text, rest) && t.config !in visited
    ensures Backtrack(p, text, [t] + rest, visited) ==
            if IsMatch(p, t.config) then Outcome(Some(Report(t)), visited + {t.config})
            else Backtrack(p, text, After(p, text, t) + rest, visited + {t.config})
    ensures t.config in Everywhere(p, text)
  {
    hide After, IsMatch, Report;
    var w := [t] + rest;
    assert w[1..] == rest;
  }

  /** Depth-first search reports what following the choices from its first thread comes to. */
  lemma {:induction false} DepthFirstFollows(p: Program, text: seq<Byte>, t: Thread, c: Spot, n: nat, rest: seq<Thread>, visited: set<Config>)
    returns (u: Thread)
    requires Valid(p) && ThreadOk(p, text, t) && ThreadsOk(p, text, rest) && t.config == ConfigOf(c) && Recorded(t.saves, c.here.saves)
    requires Follow(p, text, c, n).Some? && IsMatch(p, ConfigOf(Follow(p, text, c, n).value)) && Ahead(p, text, c, n, visited)
    ensures ThreadOk(p, text, u) && Backtrack(p, text, [t] + rest, visited).found == Some(Report(u))
    ensures var d := Follow(p, text, c, n).value;
            u.config == ConfigOf(d) && Recorded(u.saves, d.here.saves)
    decreases n
  {
    hide Next, Recorded, IsMatch, LeadsToMatch, Report, SavesPast, Ahead, Backtrack, Valid, Chosen;
    AheadNow(p, text, c, n, visited);
    BacktrackHead(p, text, t, rest, visited);
    if n == 0 {
      u := t;
    } else {
      NoChoiceAtMatch(p, text, c);
      AheadNext(p, text, c, n, visited);
      var d, seen := Chosen(p, text, c).value, visited + {t.config};
      var after := After(p, text, t);
      ChosenAfter(p, text, t, c);
      if after[0].config == ConfigOf(d) {
        assert after + rest == [after[0]] + (after[1..] + rest);
        u := DepthFirstFollows(p, text, after[0], d, n - 1, after[1..] + rest, seen);
      } else {
        var first := after[..1];
        assert after + rest == first + ([after[1]] + rest);
        BacktrackSplit(p, text, first, [after[1]] + rest, seen);
        DeadIsSearched(p, text, first, seen);
        var more := Backtrack(p, text, first, seen).visited;
        AheadStill(p, text, d, n - 1, seen, more);
        u := DepthFirstFollows(p, text, after[1], d, n - 1, rest, more);
      }
    }
  }

  // ---------- where a piece of code leads ----------

  /** The places in the text from which an instruction leads to a match. */
  ghost function LiveAt(p: Program, text: seq<Byte>, pc: nat): set<nat>
    requires Valid(p)
  {
    set k | 0 <= k <= |text| && Live(p, text, pc, k)
  }

  lemma LiveRun(p: Program, text: seq<Byte>, c: Spot, d: Spot, n: nat)
    requires Valid(p) && InBounds(p, text, ConfigOf(c)) && Run(p.code, p.ranges, text, c, d, n)
    requires LeadsToMatch(p, text, ConfigOf(d))
    ensures LeadsToMatch(p, text, ConfigOf(c))
  {
    hide Run, Edge, IsMatch;
    var e :| IsMatch(p, e) && Reaches(p, text, ConfigOf(d), e);
    var trace :| IsPath(p, text, ConfigOf(d), e, trace);
    var after := PathIsRun(p, text, ConfigOf(d), e, trace, d.here.saves);
    RunTransitive(p.code, p.ranges, text, c, d, SpotOf(e, after), n, |trace| - 1);
    var whole := RunIsPath(p, text, c, SpotOf(e, after), n + (|trace| - 1));
  }

  /** From the start of the code of a pattern a match is reached just when the pattern matches up to
      a place from which the end of the code leads to one. */
  lemma LiveThrough(p: Program, text: seq<Byte>, base: nat, node: Node, i: nat)
    requires Valid(p) && PlacedAt(p.code, base, Gen(node)) && base + |Gen(node)| < |p.code| && InTable(node, p.ranges) && i <= |text|
    ensures Live(p, text, base, i) <==> MatchesInto(node, text, i, LiveAt(p, text, base + |Gen(node)|))
  {
    hide Gen, LeadsToMatch, Denotes, InTable, Valid, PlacedAt;
    if Live(p, text, base, i) {
      var k := LiveAfter(p, text, base, node, i);
      assert k in LiveAt(p, text, base + |Gen(node)|);
    }
    if MatchesInto(node, text, i, LiveAt(p, text, base + |Gen(node)|)) {
      var e :| e in LiveAt(p, text, base + |Gen(node)|) && Denotes(node, text, i, e);
      LiveBefore(p, text, base, node, i, e);
    }
  }

  lemma LiveAfter(p: Program, text: seq<Byte>, base: nat, node: Node, i: nat) returns (k: nat)
    requires Valid(p) && PlacedAt(p.code, base, Gen(node)) && base + |Gen(node)| < |p.code| && InTable(node, p.ranges) && i <= |text|
    requires Live(p, text, base, i)
    ensures k <= |text| && Denotes(node, text, i, k) && Live(p, text, base + |Gen(node)|, k)
  {
    hide Gen, Run, Denotes, Inside, Next, Parses, InTable, Valid, PlacedAt;
    var code, end, start := Gen(node), base + |Gen(node)|, Here(i, map[]);
    GenRuns(node, p.ranges, text, start, start);
    var d :| IsMatch(p, d) && Reaches(p, text, Config(base, i), d);
    var trace :| IsPath(p, text, Config(base, i), d, trace);
    var after := PathIsRun(p, text, Config(base, i), d, trace, map[]);
    MatchIsOutside(p, base, code);
    var j, m := RunLeaves(p.code, base, code, p.ranges, text, Spot(0, start), SpotOf(d, after), |trace| - 1);
    RunForward(code, p.ranges, text, Spot(0, start), Spot(|code|, j), m);
    RunsWitness(code, p.ranges, text, start, j, m);
    GenRuns(node, p.ranges, text, start, j);
    ParsedIsDenoted(node, text, start, j);
    var path := RunIsPath(p, text, Spot(end, j), SpotOf(d, after), |trace| - 1 - m);
    k := j.at;
  }

  lemma LiveBefore(p: Program, text: seq<Byte>, base: nat, node: Node, i: nat, k: nat)
    requires Valid(p) && PlacedAt(p.code, base, Gen(node)) && base + |Gen(node)| < |p.code| && InTable(node, p.ranges) && i <= |text|
    requires k <= |text| && Denotes(node, text, i, k) && Live(p, text, base + |Gen(node)|, k)
    ensures Live(p, text, base, i)
  {
    hide Gen, Run, Denotes, Parses, InTable, LeadsToMatch, Valid, PlacedAt;
    var code, end, start := Gen(node), base + |Gen(node)|, Here(i, map[]);
    var j := DenotedIsParsed(node, text, start, k);
    GenRuns(node, p.ranges, text, start, j);
    var n: nat :| Run(code, p.ranges, text, Spot(0, start), Spot(|code|, j), n);
    RunPlaced(p.code, base, code, p.ranges, text, Spot(0, start), Spot(|code|, j), n);
    LiveRun(p, text, Spot(base, start), Spot(end, j), n);
  }

  lemma MatchIsOutside(p: Program, base: nat, code: seq<Inst>)
    requires PlacedAt(p.code, base, code) && Inside(code)
    ensures forall pc :: base <= pc < base + |code| ==> !p.code[pc].Match?
  {
    forall pc | base <= pc < base + |code| ensures !p.code[pc].Match? {
      assert p.code[pc] == code[pc - base] && InstInside(code[pc - base], pc - base, |code|);
    }
  }

  // ---------- the first way is the one that is chosen ----------

  /** Choices lead from one place to another. */
  ghost predicate Comes(p: Program, text: seq<Byte>, c: Spot, d: Spot)
    requires Valid(p)
  {
    exists n :: Follow(p, text, c, n) == Some(d)
  }

  lemma ComesOn(p: Program, text: seq<Byte>, c: Spot, d: Spot, e: Spot)
    requires Valid(p) && Comes(p, text, c, d) && Comes(p, text, d, e)
    ensures Comes(p, text, c, e)
  {
    hide Follow;
    var m :| Follow(p, text, c, m) == Some(d);
    var n :| Follow(p, text, d, n) == Some(e);
    FollowOn(p, text, c, m, n);
  }

  lemma ComesHere(p: Program, text: seq<Byte>, c: Spot)
    requires Valid(p)
    ensures Comes(p, text, c, c)
  {
    assert Follow(p, text, c, 0) == Some(c);
  }

  lemma ComesNext(p: Program, text: seq<Byte>, c: Spot, d: Spot)
    requires Valid(p) && Chosen(p, text, c) == Some(d)
    ensures Comes(p, text, c, d)
  {
    hide Chosen;
    assert Follow(p, text, d, 0) == Some(d);
    assert Follow(p, text, c, 1) == Some(d);
  }

  /** The way chosen from `pc` at `i` goes to `end` by way of `j`, and on to a match. */
  ghost predicate ComesTo(p: Program, text: seq<Byte>, pc: nat, i: Here, end: nat, j: Option<Here>)
    requires Valid(p)
  {
    j.Some? && j.value.at in LiveAt(p, text, end) && Comes(p, text, Spot(pc, i), Spot(end, j.value))
  }

  /** An instruction with one way on is gone through. */
  lemma OneWay(p: Program, text: seq<Byte>, c: Spot, d: Config)
    requires Valid(p) && InBounds(p, text, ConfigOf(c)) && !IsMatch(p, ConfigOf(c)) && Next(p, text, ConfigOf(c)) == [d]
    ensures LeadsToMatch(p, text, ConfigOf(c)) <==> LeadsToMatch(p, text, d)
    ensures LeadsToMatch(p, text, d) ==> Comes(p, text, c, SpotOf(d, SavesPast(p, ConfigOf(c), c.here.saves)))
  {
    hide Next, IsMatch, LeadsToMatch, SavesPast, Comes;
    LiveNext(p, text, ConfigOf(c));
    assert d in [d];
    if LeadsToMatch(p, text, d) {
      ComesNext(p, text, c, SpotOf(d, SavesPast(p, ConfigOf(c), c.here.saves)));
    }
  }

  /** A choice between one more and the end. */
  lemma AtChoice(p: Program, text: seq<Byte>, pc: nat, lazy: bool, x: nat, end: nat, i: Here, more: Option<Here>)
    requires Valid(p) && pc < |p.code| && p.code[pc] == Choose(lazy, x - pc, end - pc) && i.at <= |text|
    requires if Live(p, text, x, i.at) then ComesTo(p, text, x, i, end, more) else more == None
    requires Live(p, text, pc, i.at)
    ensures var stop := AtEnd(i, LiveAt(p, text, end));
            ComesTo(p, text, pc, i, end, if lazy then OrElse(stop, more) else OrElse(more, stop))
  {
    hide LeadsToMatch, Comes;
    var c := Spot(pc, i);
    LiveNext(p, text, ConfigOf(c));
    var d := Chosen(p, text, c).value;
    ComesNext(p, text, c, d);
    ComesHere(p, text, Spot(end, i));
    if d.pc == x && Live(p, text, x, i.at) {
      ComesOn(p, text, c, d, Spot(end, more.value));
    }
  }

  lemma InLiveAt(p: Program, text: seq<Byte>, pc: nat, k: nat)
    requires Valid(p)
    ensures k in LiveAt(p, text, pc) <==> k <= |text| && Live(p, text, pc, k)
  {
  }

  lemma BeforeIsLive(p: Program, text: seq<Byte>, base: nat, node: Node)
    requires Valid(p) && PlacedAt(p.code, base, Gen(node)) && base + |Gen(node)| < |p.code| && InTable(node, p.ranges)
    ensures LiveAt(p, text, base) == Before(node, text, LiveAt(p, text, base + |Gen(node)|))
  {
    hide Gen, PlacedAt, InTable, Live, MatchesInto;
    forall k: nat | k <= |text|
      ensures Live(p, text, base, k) <==> MatchesInto(node, text, k, LiveAt(p, text, base + |Gen(node)|))
    {
      LiveThrough(p, text, base, node, k);
    }
  }

  /** The code of a pattern is in the program, and it is one for which the order is kept. */
  predicate Held(p: Program, base: nat, node: Node) {
    PlacedAt(p.code, base, Gen(node)) && base + |Gen(node)| < |p.code| && InTable(node, p.ranges) && InOrder(node) && Steady(node)
  }

  lemma PlacedInst(whole: seq<Inst>, base: nat, code: seq<Inst>, k: nat)
    requires PlacedAt(whole, base, code) && k < |code|
    ensures base + k < |whole| && whole[base + k] == code[k]
  {
    assert whole[base..base + |code|][k] == code[k];
  }

  /** What is in the middle of a piece of code is placed with it. */
  lemma HeldInside(p: Program, base: nat, a: seq<Inst>, node: Node, b: seq<Inst>)
    requires PlacedAt(p.code, base, a + Gen(node) + b) && base + |a + Gen(node) + b| < |p.code|
    requires InTable(node, p.ranges) && InOrder(node) && Steady(node)
    ensures Held(p, base + |a|, node)
  {
    hide Gen, InTable, InOrder, Steady;
    var code, all := Gen(node), a + Gen(node) + b;
    forall k | 0 <= k < |code| ensures p.code[base + |a| + k] == code[k] {
      PlacedInst(p.code, base, all, |a| + k);
      assert all[|a| + k] == code[k];
    }
    assert p.code[base + |a|..base + |a| + |code|] == code;
  }

  lemma HeldBounds(p: Program, base: nat, node: Node)
    requires Held(p, base, node)
    ensures base + |Gen(node)| < |p.code| && PlacedAt(p.code, base, Gen(node))
  {
  }

  // ---------- one lemma for each kind of pattern ----------

  lemma EmptyComes(p: Program, text: seq<Byte>, base: nat, i: Here)
    requires Valid(p) && i.at <= |text| && Live(p, text, base, i.at)
    ensures Gen(Empty) == [] && ComesTo(p, text, base, i, base, Best(Empty, text, i, LiveAt(p, text, base)))
  {
    hide Live, Comes;
    ComesHere(p, text, Spot(base, i));
  }

  /** A character or an assertion. */
  lemma OneComes(p: Program, text: seq<Byte>, base: nat, node: Node, i: Here)
    requires SingleCharacter(node) || node.At?
    requires Valid(p) && Held(p, base, node) && i.at <= |text| && Live(p, text, base, i.at)
    ensures |Gen(node)| == 1 && ComesTo(p, text, base, i, base + 1, Best(node, text, i, LiveAt(p, text, base + 1)))
  {
    hide Comes, LeadsToMatch, Takes, Holds, Stands, IsAt, Decode, Next, Held, Gen, InBounds, IsMatch, SavesPast, Valid;
    var c := Spot(base, i);
    OneInst(p, text, base, node, i);
    LiveNext(p, text, ConfigOf(c));
    var d := Next(p, text, ConfigOf(c))[0];
    OneWay(p, text, c, d);
  }

  /** Where a character or an assertion leads. */
  lemma OneInst(p: Program, text: seq<Byte>, base: nat, node: Node, i: Here)
    requires SingleCharacter(node) || node.At?
    requires Valid(p) && Held(p, base, node) && i.at <= |text|
    ensures var c := Config(base, i.at);
            && |Gen(node)| == 1 && InBounds(p, text, c) && !IsMatch(p, c) && SavesPast(p, c, i.saves) == i.saves
            && Next(p, text, c) ==
               if node.At? then (if IsAt(node.place, text, i.at) then [Config(base + 1, i.at)] else [])
               else if i.at < |text| && Stands(node, Decode(text, i.at).c) then [Config(base + 1, i.at + Decode(text, i.at).size)]
               else []
  {
    hide Takes, Holds, Stands, IsAt, Decode;
    PlacedInst(p.code, base, Gen(node), 0);
    if node.At? {
      HoldsWhereItIs(node.place, text, i.at);
    } else {
      TakesWhatItStandsFor(node, p.ranges, 0);
      if i.at < |text| {
        TakesWhatItStandsFor(node, p.ranges, Decode(text, i.at).c);
      }
    }
  }

  lemma Through(p: Program, text: seq<Byte>, a: nat, i: Here, b: nat, j: Option<Here>, c: nat, k: Option<Here>)
    requires Valid(p) && ComesTo(p, text, a, i, b, j) && ComesTo(p, text, b, j.value, c, k)
    ensures ComesTo(p, text, a, i, c, k)
  {
    hide Comes, LiveAt;
    ComesOn(p, text, Spot(a, i), Spot(b, j.value), Spot(c, k.value));
  }

  /** Where a jump leads, and where recording a slot does. */
  function Past(inst: Inst, pc: nat, i: Here): (r: Spot)
    requires inst.Jmp? ==> pc + inst.x >= 0
  {
    if inst.Jmp? then Spot(pc + inst.x, i) else if inst.Save? then Spot(pc + 1, i.Saved(inst.slot)) else Spot(pc + 1, i)
  }

  lemma PassComes(p: Program, text: seq<Byte>, pc: nat, i: Here)
    requires Valid(p) && pc < |p.code| && (p.code[pc].Jmp? || p.code[pc].Save?) && i.at <= |text|
    ensures var inst := p.code[pc];
            && (inst.Jmp? ==> pc + inst.x >= 0)
            && var d := Past(inst, pc, i);
               && (Live(p, text, pc, i.at) <==> Live(p, text, d.pc, i.at))
               && (Live(p, text, pc, i.at) ==> Comes(p, text, Spot(pc, i), d))
  {
    hide Comes, LeadsToMatch;
    assert InstOk(p.code[pc], pc, |p.code|, p.slots, |p.ranges|);
    var d := Past(p.code[pc], pc, i);
    OneWay(p, text, Spot(pc, i), ConfigOf(d));
  }

  lemma PassLive(p: Program, text: seq<Byte>, pc: nat)
    requires Valid(p) && pc < |p.code| && (p.code[pc].Jmp? || p.code[pc].Save?)
    ensures p.code[pc].Jmp? ==> pc + p.code[pc].x >= 0
    ensures LiveAt(p, text, pc) == LiveAt(p, text, Past(p.code[pc], pc, Here(0, map[])).pc)
  {
    hide Live, Comes;
    forall k: nat | k <= |text|
      ensures p.code[pc].Jmp? ==> pc + p.code[pc].x >= 0
      ensures Live(p, text, pc, k) <==> Live(p, text, Past(p.code[pc], pc, Here(0, map[])).pc, k)
    {
      PassComes(p, text, pc, Here(k, map[]));
    }
    PassComes(p, text, pc, Here(0, map[]));
  }

  /** From where no match is reached the pattern has no way. */
  lemma NoWay(p: Program, text: seq<Byte>, base: nat, node: Node, i: Here)
    requires Valid(p) && Held(p, base, node) && i.at <= |text| && !Live(p, text, base, i.at)
    ensures Best(node, text, i, LiveAt(p, text, base + |Gen(node)|)) == None
  {
    hide Live, LiveAt, Gen, Best, Denotes, Parses, InTable, InOrder, Steady;
    var ends := LiveAt(p, text, base + |Gen(node)|);
    LiveThrough(p, text, base, node, i.at);
    if Best(node, text, i, ends).Some? {
      BestIsParse(node, text, i, ends);
      ParsedIsDenoted(node, text, i, Best(node, text, i, ends).value);
    }
  }

  /** Through the code of a pattern the choices go the first way of the pattern. */
  lemma {:induction false} FragmentComes(p: Program, text: seq<Byte>, base: nat, node: Node, i: Here)
    requires Valid(p) && Held(p, base, node) && i.at <= |text| && Live(p, text, base, i.at)
    ensures var end := base + |Gen(node)|;
            ComesTo(p, text, base, i, end, Best(node, text, i, LiveAt(p, text, end)))
    decreases node, 1, 0, 0, 0
  {
    hide Live, Comes, LiveAt, Gen, Held, ComesTo, Best;
    match node
    case Cat(left, right) => CatComes(p, text, base, left, right, i);
    case Alt(left, right) => AltComes(p, text, base, left, right, i);
    case Group(number, body) => GroupComes(p, text, base, number, body, i);
    case Repeat(body, least, most, lazy) => RepeatComes(p, text, base, body, least, most, lazy, i);
    case Empty => EmptyComes(p, text, base, i);
    case At(_) => OneComes(p, text, base, node, i);
    case Lit(_, _) => OneComes(p, text, base, node, i);
    case Dot(_) => OneComes(p, text, base, node, i);
    case Set(_, _, _, _) => OneComes(p, text, base, node, i);
  }

  lemma {:induction false} CatComes(p: Program, text: seq<Byte>, base: nat, left: Node, right: Node, i: Here)
    requires Valid(p) && Held(p, base, Cat(left, right)) && i.at <= |text| && Live(p, text, base, i.at)
    ensures var node := Cat(left, right);
            var end := base + |Gen(node)|;
            ComesTo(p, text, base, i, end, Best(node, text, i, LiveAt(p, text, end)))
    decreases Cat(left, right), 0, 0, 0, 0
  {
    hide Live, Comes, InTable, InOrder, Steady, Gen, PlacedAt, LiveAt, Held;
    var mid, end := base + |Gen(left)|, base + |Gen(left)| + |Gen(right)|;
    CatCode(left, right);
    CatParts(p, base, left, right);
    BeforeHeld(p, text, mid, right);
    FragmentComes(p, text, base, left, i);
    var j := Best(left, text, i, LiveAt(p, text, mid));
    InLiveAt(p, text, mid, j.value.at);
    FragmentComes(p, text, mid, right, j.value);
    Through(p, text, base, i, mid, j, end, Best(right, text, j.value, LiveAt(p, text, end)));
  }

  lemma CatParts(p: Program, base: nat, left: Node, right: Node)
    requires Held(p, base, Cat(left, right))
    ensures Held(p, base, left) && Held(p, base + |Gen(left)|, right)
  {
    hide Gen, PlacedAt;
    var a, b := Gen(left), Gen(right);
    CatCode(left, right);
    assert [] + a + b == a + b && a + b + [] == a + b;
    HeldInside(p, base, [], left, b);
    HeldInside(p, base, a, right, []);
  }

  lemma CatCode(left: Node, right: Node)
    ensures Gen(Cat(left, right)) == Gen(left) + Gen(right)
  {
  }

  lemma BeforeHeld(p: Program, text: seq<Byte>, base: nat, node: Node)
    requires Valid(p) && Held(p, base, node)
    ensures LiveAt(p, text, base) == Before(node, text, LiveAt(p, text, base + |Gen(node)|))
  {
    hide Gen, LiveAt, Before, InTable, InOrder, Steady;
    BeforeIsLive(p, text, base, node);
  }

  lemma {:induction false} AltComes(p: Program, text: seq<Byte>, base: nat, left: Node, right: Node, i: Here)
    requires Valid(p) && Held(p, base, Alt(left, right)) && i.at <= |text| && Live(p, text, base, i.at)
    ensures var node := Alt(left, right);
            var end := base + |Gen(node)|;
            ComesTo(p, text, base, i, end, Best(node, text, i, LiveAt(p, text, end)))
    decreases Alt(left, right), 0, 0, 0, 0
  {
    hide LeadsToMatch, Comes, InTable, InOrder, Steady, Gen, PlacedAt, LiveAt;
    AltParts(p, base, left, right);
    var a, b := |Gen(left)|, |Gen(right)|;
    var jump, second, end := base + 1 + a, base + a + 2, base + a + b + 2;
    var c := Spot(base, i);
    LiveNext(p, text, ConfigOf(c));
    var d := Chosen(p, text, c).value;
    ComesNext(p, text, c, d);
    PassLive(p, text, jump);
    if Live(p, text, base + 1, i.at) {
      FragmentComes(p, text, base + 1, left, i);
      var j := Best(left, text, i, LiveAt(p, text, jump));
      InLiveAt(p, text, jump, j.value.at);
      PassComes(p, text, jump, j.value);
      ComesOn(p, text, Spot(base + 1, i), Spot(jump, j.value), Spot(end, j.value));
      ComesOn(p, text, c, d, Spot(end, j.value));
    } else {
      NoWay(p, text, base + 1, left, i);
      FragmentComes(p, text, second, right, i);
      ComesOn(p, text, c, d, Spot(end, Best(right, text, i, LiveAt(p, text, end)).value));
    }
  }

  lemma AltHeld(p: Program, base: nat, left: Node, right: Node)
    requires Held(p, base, Alt(left, right))
    ensures InTable(left, p.ranges) && InOrder(left) && Steady(left)
    ensures InTable(right, p.ranges) && InOrder(right) && Steady(right)
    ensures Gen(Alt(left, right)) == Either(Gen(left), Gen(right))
  {
    hide PlacedAt, Either;
  }

  lemma AltParts(p: Program, base: nat, left: Node, right: Node)
    requires Held(p, base, Alt(left, right))
    ensures var a, b := |Gen(left)|, |Gen(right)|;
            && |Gen(Alt(left, right))| == a + b + 2 && base + a + b + 2 < |p.code|
            && Held(p, base + 1, left) && Held(p, base + a + 2, right)
            && p.code[base] == Split(1, a + 2) && p.code[base + 1 + a] == Jmp(b + 1)
  {
    hide Gen, PlacedAt, InTable, InOrder, Steady;
    var a, b := Gen(left), Gen(right);
    var split, jump, all := [Split(1, |a| + 2)], [Jmp(|b| + 1)], Gen(Alt(left, right));
    AltHeld(p, base, left, right);
    assert all == split + a + (jump + b) && all == (split + a + jump) + b + [];
    HeldInside(p, base, split, left, jump + b);
    HeldInside(p, base, split + a + jump, right, []);
    PlacedInst(p.code, base, all, 0);
    PlacedInst(p.code, base, all, 1 + |a|);
  }

  lemma {:induction false} GroupComes(p: Program, text: seq<Byte>, base: nat, number: nat, body: Node, i: Here)
    requires Valid(p) && Held(p, base, Group(number, body)) && i.at <= |text| && Live(p, text, base, i.at)
    ensures var node := Group(number, body);
            var end := base + |Gen(node)|;
            ComesTo(p, text, base, i, end, Best(node, text, i, LiveAt(p, text, end)))
    decreases Group(number, body), 0, 0, 0, 0
  {
    hide Live, Comes, InTable, InOrder, Steady, Gen, PlacedAt, LiveAt;
    GroupParts(p, base, number, body);
    var close, end, open := base + 1 + |Gen(body)|, base + 2 + |Gen(body)|, i.Saved(number * 2);
    PassComes(p, text, base, i);
    PassLive(p, text, close);
    FragmentComes(p, text, base + 1, body, open);
    var j := Best(body, text, open, LiveAt(p, text, close)).value;
    InLiveAt(p, text, close, j.at);
    PassComes(p, text, close, j);
    ComesOn(p, text, Spot(base, i), Spot(base + 1, open), Spot(close, j));
    ComesOn(p, text, Spot(base, i), Spot(close, j), Spot(end, j.Saved(number * 2 + 1)));
  }

  lemma GroupParts(p: Program, base: nat, number: nat, body: Node)
    requires Held(p, base, Group(number, body))
    ensures var s := |Gen(body)|;
            && |Gen(Group(number, body))| == s + 2 && base + s + 2 < |p.code| && Held(p, base + 1, body)
            && p.code[base] == Save(number * 2) && p.code[base + 1 + s] == Save(number * 2 + 1)
  {
    var s, all := Gen(body), Gen(Group(number, body));
    HeldInside(p, base, [Save(number * 2)], body, [Save(number * 2 + 1)]);
    PlacedInst(p.code, base, all, 0);
    PlacedInst(p.code, base, all, 1 + |s|);
  }

  lemma {:induction false} RepeatComes(p: Program, text: seq<Byte>, base: nat, body: Node, least: nat, most: int, lazy: bool, i: Here)
    requires Valid(p) && Held(p, base, Repeat(body, least, most, lazy)) && i.at <= |text| && Live(p, text, base, i.at)
    ensures var node := Repeat(body, least, most, lazy);
            var end := base + |Gen(node)|;
            ComesTo(p, text, base, i, end, Best(node, text, i, LiveAt(p, text, end)))
    decreases body, 2, least, Left(most, text, i), 1
  {
    hide Live, Comes, InTable, InOrder, Steady, Gen, PlacedAt, LiveAt, Held, ComesTo, Best;
    if least == 0 && most == 0 {
      NoneComes(p, text, base, body, lazy, i);
    } else if least == 1 && most < 0 {
      PlusComes(p, text, base, body, most, lazy, i);
    } else if least > 0 {
      MustComes(p, text, base, body, least, most, lazy, i);
    } else if most < 0 {
      StarComes(p, text, base, body, most, lazy, i);
    } else {
      MayComes(p, text, base, body, most, lazy, i);
    }
  }

  lemma NoneComes(p: Program, text: seq<Byte>, base: nat, body: Node, lazy: bool, i: Here)
    requires Valid(p) && i.at <= |text| && Live(p, text, base, i.at)
    ensures Gen(Repeat(body, 0, 0, lazy)) == []
    ensures ComesTo(p, text, base, i, base, Best(Repeat(body, 0, 0, lazy), text, i, LiveAt(p, text, base)))
  {
    hide Live, Comes;
    ComesHere(p, text, Spot(base, i));
  }

  /** One that there must be, and what is left of the repeat. */
  lemma {:induction false} MustComes(p: Program, text: seq<Byte>, base: nat, body: Node, least: nat, most: int, lazy: bool, i: Here)
    requires Valid(p) && Held(p, base, Repeat(body, least, most, lazy)) && i.at <= |text| && Live(p, text, base, i.at)
    requires least > 0 && (least > 1 || most >= 0)
    ensures var node := Repeat(body, least, most, lazy);
            var end := base + |Gen(node)|;
            ComesTo(p, text, base, i, end, Best(node, text, i, LiveAt(p, text, end)))
    decreases body, 2, least, Left(most, text, i), 0
  {
    hide Live, Comes, InTable, InOrder, Steady, Gen, PlacedAt, LiveAt, Held;
    var rest := Repeat(body, least - 1, Fewer(most), lazy);
    MustParts(p, base, body, least, most, lazy);
    var mid, end := base + |Gen(body)|, base + |Gen(body)| + |Gen(rest)|;
    BeforeHeld(p, text, mid, rest);
    FragmentComes(p, text, base, body, i);
    var j := Best(body, text, i, LiveAt(p, text, mid));
    InLiveAt(p, text, mid, j.value.at);
    RepeatComes(p, text, mid, body, least - 1, Fewer(most), lazy, j.value);
    Through(p, text, base, i, mid, j, end, Best(rest, text, j.value, LiveAt(p, text, end)));
  }

  lemma RepeatCode(body: Node, least: nat, most: int, lazy: bool)
    ensures Gen(Repeat(body, least, most, lazy)) == Repeated(Gen(body), least, most, lazy)
  {
  }

  /** What is said of a repeat is said of its body. */
  lemma HeldBody(p: Program, base: nat, body: Node, least: nat, most: int, lazy: bool)
    requires Held(p, base, Repeat(body, least, most, lazy))
    ensures InTable(body, p.ranges) && InOrder(body) && Steady(body)
    ensures (most >= 0 ==> least <= most) && (most < 0 ==> !CanBeEmpty(body))
  {
    hide Gen, PlacedAt, CanBeEmpty;
  }

  lemma LessHeld(p: Program, body: Node, least: nat, most: int, lazy: bool)
    requires InTable(body, p.ranges) && InOrder(body) && Steady(body)
    requires (most >= 0 ==> least <= most) && (most < 0 ==> !CanBeEmpty(body))
    ensures var rest := Repeat(body, least, most, lazy);
            InTable(rest, p.ranges) && InOrder(rest) && Steady(rest)
  {
    hide CanBeEmpty;
  }

  lemma MustParts(p: Program, base: nat, body: Node, least: nat, most: int, lazy: bool)
    requires Held(p, base, Repeat(body, least, most, lazy)) && least > 0 && (least > 1 || most >= 0)
    ensures var rest := Repeat(body, least - 1, Fewer(most), lazy);
            && Gen(Repeat(body, least, most, lazy)) == Gen(body) + Gen(rest)
            && Held(p, base, body) && Held(p, base + |Gen(body)|, rest)
  {
    hide Gen, PlacedAt, Repeated, InTable, InOrder, Steady, CanBeEmpty;
    var s, rest := Gen(body), Repeat(body, least - 1, Fewer(most), lazy);
    HeldBody(p, base, body, least, most, lazy);
    LessHeld(p, body, least - 1, Fewer(most), lazy);
    HeldBounds(p, base, Repeat(body, least, most, lazy));
    RepeatCode(body, least, most, lazy);
    RepeatCode(body, least - 1, Fewer(most), lazy);
    MustCode(s, least, most, lazy);
    var more := Gen(rest);
    assert [] + s + more == s + more && s + more + [] == s + more;
    HeldInside(p, base, [], body, more);
    HeldInside(p, base, s, rest, []);
  }

  lemma MustCode(s: seq<Inst>, least: nat, most: int, lazy: bool)
    requires least > 0 && (least > 1 || most >= 0) && (most >= 0 ==> least <= most)
    ensures Repeated(s, least, most, lazy) == s + Repeated(s, least - 1, Fewer(most), lazy)
  {
    if most < 0 {
      SeqAssoc(s, Copies(s, least - 2), Plus(s, lazy));
    } else {
      SeqAssoc(s, Copies(s, least - 1), Options(s, most - least, lazy));
    }
  }

  /** None, or one more and what is left of the repeat. */
  lemma {:induction false} MayComes(p: Program, text: seq<Byte>, base: nat, body: Node, most: int, lazy: bool, i: Here)
    requires Valid(p) && Held(p, base, Repeat(body, 0, most, lazy)) && i.at <= |text| && Live(p, text, base, i.at) && most > 0
    ensures var node := Repeat(body, 0, most, lazy);
            var end := base + |Gen(node)|;
            ComesTo(p, text, base, i, end, Best(node, text, i, LiveAt(p, text, end)))
    decreases body, 2, 0, Left(most, text, i), 0
  {
    hide Live, Comes, InTable, InOrder, Steady, Gen, PlacedAt, LiveAt, Held;
    var rest := Repeat(body, 0, most - 1, lazy);
    MayParts(p, base, body, most, lazy);
    var x, mid, end := base + 1, base + 1 + |Gen(body)|, base + 1 + |Gen(body)| + |Gen(rest)|;
    var ends := LiveAt(p, text, end);
    var more := OneMore(body, text, most, lazy, i, ends);
    BeforeHeld(p, text, mid, rest);
    if Live(p, text, x, i.at) {
      FragmentComes(p, text, x, body, i);
      var j := Best(body, text, i, LiveAt(p, text, mid));
      InLiveAt(p, text, mid, j.value.at);
      RepeatComes(p, text, mid, body, 0, most - 1, lazy, j.value);
      Through(p, text, x, i, mid, j, end, more);
    } else {
      NoWay(p, text, x, body, i);
    }
    AtChoice(p, text, base, lazy, x, end, i, more);
  }

  lemma MayParts(p: Program, base: nat, body: Node, most: int, lazy: bool)
    requires Held(p, base, Repeat(body, 0, most, lazy)) && most > 0
    ensures var s, rest := |Gen(body)|, Repeat(body, 0, most - 1, lazy);
            && |Gen(Repeat(body, 0, most, lazy))| == 1 + s + |Gen(rest)| && base + 1 + s + |Gen(rest)| < |p.code|
            && Held(p, base + 1, body) && Held(p, base + 1 + s, rest)
            && p.code[base] == Choose(lazy, 1, 1 + s + |Gen(rest)|)
  {
    hide Gen, PlacedAt, Repeated, InTable, InOrder, Steady, CanBeEmpty, Choose;
    var s, rest, all := Gen(body), Repeat(body, 0, most - 1, lazy), Gen(Repeat(body, 0, most, lazy));
    HeldBody(p, base, body, 0, most, lazy);
    LessHeld(p, body, 0, most - 1, lazy);
    HeldBounds(p, base, Repeat(body, 0, most, lazy));
    RepeatCode(body, 0, most, lazy);
    RepeatCode(body, 0, most - 1, lazy);
    MayCode(s, most, lazy);
    var more := Gen(rest);
    var choose := [Choose(lazy, 1, 1 + |s| + |more|)];
    assert all == choose + s + more && all == (choose + s) + more + [];
    HeldInside(p, base, choose, body, more);
    HeldInside(p, base, choose + s, rest, []);
    PlacedInst(p.code, base, all, 0);
  }

  lemma MayCode(s: seq<Inst>, most: int, lazy: bool)
    requires most > 0
    ensures var more := Repeated(s, 0, most - 1, lazy);
            Repeated(s, 0, most, lazy) == [Choose(lazy, 1, 1 + |s| + |more|)] + s + more
  {
    var more := Options(s, most - 1, lazy);
    assert Copies(s, 0) + more == more;
    SeqAssoc([Choose(lazy, 1, 1 + |s + more|)], s, more);
  }

  /** Any number, by a loop that goes back to the choice. */
  lemma {:induction false} StarComes(p: Program, text: seq<Byte>, base: nat, body: Node, most: int, lazy: bool, i: Here)
    requires Valid(p) && Held(p, base, Repeat(body, 0, most, lazy)) && i.at <= |text| && Live(p, text, base, i.at) && most < 0
    ensures var node := Repeat(body, 0, most, lazy);
            var end := base + |Gen(node)|;
            ComesTo(p, text, base, i, end, Best(node, text, i, LiveAt(p, text, end)))
    decreases body, 2, 0, Left(most, text, i), 0
  {
    hide Live, Comes, InTable, InOrder, Steady, Gen, PlacedAt, LiveAt, Held;
    var node := Repeat(body, 0, most, lazy);
    StarParts(p, base, body, most, lazy);
    var x, jump, end := base + 1, base + 1 + |Gen(body)|, base + 2 + |Gen(body)|;
    var ends := LiveAt(p, text, end);
    var more := OneMore(body, text, most, lazy, i, ends);
    BeforeHeld(p, text, base, node);
    PassLive(p, text, jump);
    if Live(p, text, x, i.at) {
      FragmentComes(p, text, x, body, i);
      var j := Best(body, text, i, LiveAt(p, text, jump));
      InLiveAt(p, text, jump, j.value.at);
      BestMoves(body, text, i, LiveAt(p, text, jump));
      PassComes(p, text, jump, j.value);
      RepeatComes(p, text, base, body, 0, most, lazy, j.value);
      ComesOn(p, text, Spot(x, i), Spot(jump, j.value), Spot(base, j.value));
      ComesOn(p, text, Spot(x, i), Spot(base, j.value), Spot(end, more.value));
    } else {
      NoWay(p, text, x, body, i);
    }
    AtChoice(p, text, base, lazy, x, end, i, more);
  }

  lemma StarParts(p: Program, base: nat, body: Node, most: int, lazy: bool)
    requires Held(p, base, Repeat(body, 0, most, lazy)) && most < 0
    ensures var s := |Gen(body)|;
            && |Gen(Repeat(body, 0, most, lazy))| == s + 2 && base + s + 2 < |p.code|
            && Held(p, base + 1, body) && !CanBeEmpty(body) && InOrder(body) && Steady(body)
            && p.code[base] == Choose(lazy, 1, s + 2) && p.code[base + 1 + s] == Jmp(-(s + 1))
  {
    hide Gen, PlacedAt, InTable, InOrder, Steady, CanBeEmpty, Choose;
    var s, all := Gen(body), Gen(Repeat(body, 0, most, lazy));
    HeldBody(p, base, body, 0, most, lazy);
    HeldBounds(p, base, Repeat(body, 0, most, lazy));
    RepeatCode(body, 0, most, lazy);
    HeldInside(p, base, [Choose(lazy, 1, |s| + 2)], body, [Jmp(-(|s| + 1))]);
    PlacedInst(p.code, base, all, 0);
    PlacedInst(p.code, base, all, 1 + |s|);
  }

  /** The first way of what cannot be empty goes on in the text. */
  lemma BestMoves(body: Node, text: seq<Byte>, i: Here, ends: set<nat>)
    requires InOrder(body) && Steady(body) && i.at <= |text| && !CanBeEmpty(body) && Best(body, text, i, ends).Some?
    ensures i.at < Best(body, text, i, ends).value.at && Best(body, text, i, ends).value.at in ends
  {
    hide Best, Parses, Denotes, CanBeEmpty;
    var j := Best(body, text, i, ends).value;
    BestIsParse(body, text, i, ends);
    ParsedIsDenoted(body, text, i, j);
    NotEmptyMoves(body, text, i.at, j.at);
  }

  /** At least one, by a loop that goes back to the start of it. */
  lemma {:induction false} PlusComes(p: Program, text: seq<Byte>, base: nat, body: Node, most: int, lazy: bool, i: Here)
    requires Valid(p) && Held(p, base, Repeat(body, 1, most, lazy)) && i.at <= |text| && Live(p, text, base, i.at) && most < 0
    ensures var node := Repeat(body, 1, most, lazy);
            var end := base + |Gen(node)|;
            ComesTo(p, text, base, i, end, Best(node, text, i, LiveAt(p, text, end)))
    decreases body, 2, 1, Left(most, text, i), 0
  {
    hide Live, Comes, InTable, InOrder, Steady, Gen, PlacedAt, LiveAt, Held;
    var node := Repeat(body, 1, most, lazy);
    PlusParts(p, base, body, most, lazy);
    var choose, end := base + |Gen(body)|, base + |Gen(body)| + 1;
    var ends := LiveAt(p, text, end);
    PlusBefore(p, text, base, body, most, lazy);
    FragmentComes(p, text, base, body, i);
    var j := Best(body, text, i, LiveAt(p, text, choose));
    InLiveAt(p, text, choose, j.value.at);
    BestMoves(body, text, i, LiveAt(p, text, choose));
    var more := OneMore(body, text, most, lazy, j.value, ends);
    OneMoreIs(body, text, most, lazy, j.value, ends);
    if Live(p, text, base, j.value.at) {
      RepeatComes(p, text, base, body, 1, most, lazy, j.value);
    } else {
      NoWay(p, text, base, node, j.value);
    }
    AtChoice(p, text, choose, lazy, base, end, j.value, more);
    Through(p, text, base, i, choose, j, end, BestRepeat(body, text, 0, most, lazy, j.value, ends));
  }

  lemma OneMoreIs(body: Node, text: seq<Byte>, most: int, lazy: bool, i: Here, ends: set<nat>)
    requires InOrder(body) && Steady(body) && i.at <= |text| && !CanBeEmpty(body) && most < 0
    ensures OneMore(body, text, most, lazy, i, ends) == Best(Repeat(body, 1, most, lazy), text, i, ends)
  {
    hide CanBeEmpty, MatchesInto;
    var before := Before(Repeat(body, 0, most, lazy), text, ends);
    if Best(body, text, i, before).Some? {
      BestMoves(body, text, i, before);
    }
  }

  lemma PlusParts(p: Program, base: nat, body: Node, most: int, lazy: bool)
    requires Held(p, base, Repeat(body, 1, most, lazy)) && most < 0
    ensures var s := |Gen(body)|;
            && |Gen(Repeat(body, 1, most, lazy))| == s + 1 && base + s + 1 < |p.code|
            && Held(p, base, body) && !CanBeEmpty(body) && InOrder(body) && Steady(body)
            && p.code[base + s] == Choose(lazy, -s, 1)
  {
    hide Gen, PlacedAt, InTable, InOrder, Steady, CanBeEmpty, Choose;
    var s, all := Gen(body), Gen(Repeat(body, 1, most, lazy));
    HeldBody(p, base, body, 1, most, lazy);
    HeldBounds(p, base, Repeat(body, 1, most, lazy));
    RepeatCode(body, 1, most, lazy);
    var choose := [Choose(lazy, -|s|, 1)];
    assert Copies(s, 0) == [];
    assert all == s + choose && all == [] + s + choose;
    HeldInside(p, base, [], body, choose);
    PlacedInst(p.code, base, all, |s|);
  }

  /** After one there may be more: the loop's choice leads to where any number would. */
  lemma PlusBefore(p: Program, text: seq<Byte>, base: nat, body: Node, most: int, lazy: bool)
    requires Valid(p) && Held(p, base, Repeat(body, 1, most, lazy)) && most < 0
    ensures var choose := base + |Gen(body)|;
            LiveAt(p, text, choose) == Before(Repeat(body, 0, most, lazy), text, LiveAt(p, text, choose + 1))
  {
    hide LeadsToMatch, Gen, Held, Denotes;
    PlusParts(p, base, body, most, lazy);
    HeldBounds(p, base, Repeat(body, 1, most, lazy));
    var choose, ends := base + |Gen(body)|, LiveAt(p, text, base + |Gen(body)| + 1);
    BeforeHeld(p, text, base, Repeat(body, 1, most, lazy));
    forall k: nat | k <= |text|
      ensures Live(p, text, choose, k) <==> MatchesInto(Repeat(body, 0, most, lazy), text, k, ends)
    {
      LiveNext(p, text, Config(choose, k));
      InLiveAt(p, text, base, k);
      NoneOrMore(body, text, most, lazy, k, ends);
      assert Live(p, text, choose, k) <==> Live(p, text, base, k) || Live(p, text, choose + 1, k);
    }
  }

  lemma NoneOrMore(body: Node, text: seq<Byte>, most: int, lazy: bool, k: nat, ends: set<nat>)
    requires most < 0
    ensures MatchesInto(Repeat(body, 0, most, lazy), text, k, ends) <==>
            k in ends || MatchesInto(Repeat(body, 1, most, lazy), text, k, ends)
  {
    var any, some := Repeat(body, 0, most, lazy), Repeat(body, 1, most, lazy);
    forall e: nat ensures Denotes(any, text, k, e) <==> k == e || Denotes(some, text, k, e) {
      if Denotes(any, text, k, e) {
        var n: nat :| Allowed(0, most, n) && Power(body, text, n, k, e);
        if n > 0 {
          assert Allowed(1, most, n);
        }
      }
      if k == e {
        assert Allowed(0, most, 0) && Power(body, text, 0, k, e);
      }
      if Denotes(some, text, k, e) {
        var n: nat :| Allowed(1, most, n) && Power(body, text, n, k, e);
        assert Allowed(0, most, n);
      }
    }
  }

  // ---------- the whole search ----------

  /** Every place in the text. */
  function Anywhere(text: seq<Byte>): (ends: set<nat>)
    ensures forall k: nat :: k in ends <==> k <= |text|
  {
    if text == [] then {0} else Anywhere(text[1..]) + {|text|}
  }

  /** The end and the spans are those of the first of all the ways from the start. */
  predicate Preferred(node: Node, text: seq<Byte>, spans: seq<int>) {
    && |spans| >= 2 && spans[0] >= 0
    && var ways := Ways(node, text, Here(spans[0], map[0 := spans[0]]));
       && ways != [] && spans[1] == ways[0].at
       && forall slot :: 2 <= slot < |spans| ==> spans[slot] == SlotOf(ways[0].saves, slot)
  }

  lemma BestOfAll(node: Node, text: seq<Byte>, i: Here)
    requires InOrder(node) && Steady(node) && i.at <= |text|
    ensures var ways := Ways(node, text, i);
            Best(node, text, i, Anywhere(text)) == if ways == [] then None else Some(ways[0])
  {
    hide Ways, Best, InOrder, Steady;
    WaysInText(node, text, i);
    BestIsFirst(node, text, i, Anywhere(text));
  }

  lemma LiveAtMatch(node: Node, ranges: seq<Range>, slots: nat, text: seq<Byte>)
    requires Valid(ProgramOf(node, ranges, slots))
    ensures LiveAt(ProgramOf(node, ranges, slots), text, |Gen(node)|) == Anywhere(text)
  {
    hide Gen, Valid, LeadsToMatch;
    var p := ProgramOf(node, ranges, slots);
    forall k: nat | k <= |text| ensures Live(p, text, |Gen(node)|, k) {
      MatchIsLive(p, text, Config(|Gen(node)|, k));
    }
  }

  /** From a start that leads to a match the choices go the first way of the pattern. */
  lemma StartFollows(node: Node, ranges: seq<Range>, slots: nat, text: seq<Byte>, i: Here) returns (n: nat)
    requires InTable(node, ranges) && Valid(ProgramOf(node, ranges, slots)) && Steady(node) && i.at <= |text|
    requires Live(ProgramOf(node, ranges, slots), text, 0, i.at)
    ensures var j := Best(node, text, i, Anywhere(text));
            && j.Some?
            && Follow(ProgramOf(node, ranges, slots), text, Spot(0, i), n) == Some(Spot(|Gen(node)|, j.value))
  {
    hide Gen, Valid, LeadsToMatch, Best, Follow, InTable, InOrder, Steady, LiveAt;
    var p := ProgramOf(node, ranges, slots);
    InTableInOrder(node, ranges);
    assert p.code[0..0 + |Gen(node)|] == Gen(node);
    LiveAtMatch(node, ranges, slots, text);
    FragmentComes(p, text, 0, node, i);
    var j := Best(node, text, i, Anywhere(text));
    n :| Follow(p, text, Spot(0, i), n) == Some(Spot(0 + |Gen(node)|, j.value));
  }

  /** Threads that lead to no match are passed over. */
  lemma DeadArePassed(p: Program, text: seq<Byte>, w: seq<Thread>, k: nat) returns (visited: set<Config>)
    requires Valid(p) && ThreadsOk(p, text, w) && k < |w| && forall i :: 0 <= i < k ==> !LeadsToMatch(p, text, w[i].config)
    ensures forall c :: c in visited ==> !LeadsToMatch(p, text, c)
    ensures Backtrack(p, text, w, {}).found == Backtrack(p, text, [w[k]] + w[k + 1..], visited).found
  {
    hide Valid, LeadsToMatch, Backtrack;
    var before := w[..k];
    assert w == before + ([w[k]] + w[k + 1..]);
    BacktrackSplit(p, text, before, [w[k]] + w[k + 1..], {});
    DeadIsSearched(p, text, before, {});
    visited := Backtrack(p, text, before, {}).visited;
  }

  /** A search that finds something finds it from its least start that leads to a match, with
      nothing visited that does. */
  lemma FoundFrom(p: Program, text: seq<Byte>, from: nat) returns (s: nat, rest: seq<Thread>, visited: set<Config>)
    requires Valid(p) && from <= |text| && Search(p, text, from).Some?
    ensures s <= |text| && ThreadsOk(p, text, rest) && Live(p, text, 0, s)
    ensures forall c :: c in visited ==> !LeadsToMatch(p, text, c)
    ensures var found := Search(p, text, from);
            && |found.value| == p.slots && found.value[0] == s
            && found == Backtrack(p, text, [StartThread(p, s)] + rest, visited).found
  {
    hide LeadsToMatch, Starts, StartThreads, StartThread, Backtrack, Reported, Accepts, InstOk;
    SearchIsLeftmost(p, text, from);
    var starts, w := Starts(text, from), StartThreads(p, text, from);
    s := Search(p, text, from).value[0];
    var k :| 0 <= k < |starts| && starts[k] == s;
    LiveStart(p, text, s);
    forall i | 0 <= i < k ensures !LeadsToMatch(p, text, w[i].config) {
      DeadStart(p, text, starts[i], s);
    }
    visited := DeadArePassed(p, text, w, k);
    rest := w[k + 1..];
  }

  lemma DeadStart(p: Program, text: seq<Byte>, s: nat, least: nat)
    requires Valid(p) && s < least && forall e :: Accepts(p, text, s, e) ==> least <= s
    ensures !LeadsToMatch(p, text, StartThread(p, s).config)
  {
    hide Valid, LeadsToMatch, Accepts;
    LiveStart(p, text, s);
  }

  /** What a search of the program of a pattern reports is the first of all the ways of the pattern
      to match from where the match starts. */
  lemma SearchPrefers(node: Node, ranges: seq<Range>, slots: nat, text: seq<Byte>, from: nat)
    requires InTable(node, ranges) && GroupsBelow(node, slots) && slots >= 2 && Steady(node) && from <= |text|
    ensures Valid(ProgramOf(node, ranges, slots))
    ensures var found := Search(ProgramOf(node, ranges, slots), text, from);
            found.Some? ==> Preferred(node, text, found.value)
  {
    hide Gen, Valid, LeadsToMatch, Best, InTable, Steady, GroupsBelow, Search, Backtrack, Recorded, Report, Anywhere, Ways, InOrder;
    var p := ProgramOf(node, ranges, slots);
    ProgramValid(node, ranges, slots);
    if Search(p, text, from).Some? {
      var s, rest, visited := FoundFrom(p, text, from);
      var i := Here(s, map[0 := s]);
      var u := FirstLive(node, ranges, slots, text, s, rest, visited);
      InTableInOrder(node, ranges);
      BestOfAll(node, text, i);
      ReportsSlots(u, Ways(node, text, i)[0].saves);
    }
  }

  lemma ReportsSlots(u: Thread, saves: map<nat, nat>)
    requires |u.saves| >= 2 && Recorded(u.saves, saves)
    ensures Report(u)[1] == u.config.at
    ensures forall slot :: 2 <= slot < |u.saves| ==> Report(u)[slot] == SlotOf(saves, slot)
  {
  }

  lemma LiveStart(p: Program, text: seq<Byte>, s: nat)
    requires Valid(p)
    ensures LeadsToMatch(p, text, Config(0, s)) <==> exists e :: Accepts(p, text, s, e)
  {
    hide IsMatch, Reaches;
    if LeadsToMatch(p, text, Config(0, s)) {
      var d :| IsMatch(p, d) && Reaches(p, text, Config(0, s), d);
      assert d == Config(d.pc, d.at) && Accepts(p, text, s, d.at);
    }
  }

  /** Searched from a start that leads to a match, with nothing visited that does. */
  lemma FirstLive(node: Node, ranges: seq<Range>, slots: nat, text: seq<Byte>, s: nat, rest: seq<Thread>, visited: set<Config>)
    returns (u: Thread)
    requires InTable(node, ranges) && Valid(ProgramOf(node, ranges, slots)) && Steady(node) && s <= |text|
    requires var p := ProgramOf(node, ranges, slots);
             && ThreadsOk(p, text, rest) && Live(p, text, 0, s)
             && forall c :: c in visited ==> !LeadsToMatch(p, text, c)
    ensures var p, j := ProgramOf(node, ranges, slots), Best(node, text, Here(s, map[0 := s]), Anywhere(text));
            && ThreadOk(p, text, u) && Backtrack(p, text, [StartThread(p, s)] + rest, visited).found == Some(Report(u))
            && j.Some? && u.config.at == j.value.at && Recorded(u.saves, j.value.saves)
  {
    hide Gen, Valid, LeadsToMatch, Best, Follow, InTable, Steady, Backtrack, Report, Anywhere;
    var p, i := ProgramOf(node, ranges, slots), Here(s, map[0 := s]);
    var c := Spot(0, i);
    var n := StartFollows(node, ranges, slots, text, i);
    assert Ahead(p, text, c, n, {});
    AheadStill(p, text, c, n, {}, visited);
    u := DepthFirstFollows(p, text, StartThread(p, s), c, n, rest, visited);
  }

  // ---------- without limit, and empty ----------

  /** Nothing or an `a`, once or more: preferred is nothing first and then the `a`. */
  const EMPTY_OR_A := Repeat(Alt(Empty, Lit(0x61, false)), 1, -1, false)

  /** When what is repeated without limit can be empty another way may be found: after the empty one
      the loop is not gone through again, and the match is empty. */
  lemma EmptyRepeatDiffers()
    ensures var p, text: seq<Byte> := ProgramOf(EMPTY_OR_A, [], 2), [0x61];
            && InTable(EMPTY_OR_A, []) && GroupsBelow(EMPTY_OR_A, 2) && !Steady(EMPTY_OR_A)
            && Valid(p) && Search(p, text, 0) == Some([0, 0])
            && Ways(EMPTY_OR_A, text, Here(0, map[0 := 0])) != [] && Ways(EMPTY_OR_A, text, Here(0, map[0 := 0]))[0].at == 1
  {
    ProgramValid(EMPTY_OR_A, [], 2);
    EmptyIsFound();
    OtherIsFirst();
  }

  lemma EmptyOrACode()
    ensures ProgramOf(EMPTY_OR_A, [], 2).code == [Split(1, 2), Jmp(2), Char(0x61), Split(-3, 1), Match]
  {
    var body := Alt(Empty, Lit(0x61, false));
    assert Gen(body) == [Split(1, 2)] + [] + [Jmp(2)] + [Char(0x61)];
    RepeatCode(body, 1, -1, false);
    assert Copies(Gen(body), 0) == [];
  }

  const SAVES: seq<int> := [0, -1]

  function AtPlace(pc: nat): Thread {
    Thread(Config(pc, 0), SAVES)
  }

  /** The way round the loop. */
  lemma LoopSteps(p: Program, text: seq<Byte>)
    requires p == ProgramOf(EMPTY_OR_A, [], 2) && Valid(p)
    ensures |p.code| == 5 && forall pc :: 0 <= pc < 5 ==> ThreadOk(p, text, AtPlace(pc))
    ensures After(p, text, AtPlace(0)) == [AtPlace(1), AtPlace(2)]
    ensures After(p, text, AtPlace(1)) == [AtPlace(3)]
    ensures After(p, text, AtPlace(3)) == [AtPlace(0), AtPlace(4)]
    ensures IsMatch(p, Config(4, 0)) && forall pc :: 0 <= pc < 4 ==> !IsMatch(p, Config(pc, 0))
  {
    hide Valid, Gen;
    EmptyOrACode();
  }

  lemma EmptyIsFound()
    requires Valid(ProgramOf(EMPTY_OR_A, [], 2))
    ensures Search(ProgramOf(EMPTY_OR_A, [], 2), [0x61], 0) == Some([0, 0])
  {
    hide Valid, Gen, Backtrack, Starts, After, ThreadOk, IsMatch, EMPTY_OR_A;
    var p, text: seq<Byte> := ProgramOf(EMPTY_OR_A, [], 2), [0x61];
    LoopSteps(p, text);
    var w := StartThreads(p, text, 0);
    var rest := w[1..];
    assert InitialSaves(2, 0) == SAVES;
    assert w == [AtPlace(0)] + rest;
    LoopIsLeft(p, text, rest);
  }

  lemma LoopIsLeft(p: Program, text: seq<Byte>, rest: seq<Thread>)
    requires p == ProgramOf(EMPTY_OR_A, [], 2) && Valid(p) && ThreadsOk(p, text, rest)
    ensures ThreadOk(p, text, AtPlace(0)) && Backtrack(p, text, [AtPlace(0)] + rest, {}).found == Some([0, 0])
  {
    hide Valid, Gen, Backtrack, After, ThreadOk, IsMatch, ProgramOf, EMPTY_OR_A;
    LoopSteps(p, text);
    var a, b, d, e := AtPlace(0), AtPlace(1), AtPlace(3), AtPlace(4);
    var more := [AtPlace(2)] + rest;
    BacktrackHead(p, text, a, rest, {});
    assert After(p, text, a) + rest == [b] + more;
    var none: set<Config> := {};
    var first := none + {a.config};
    var second := first + {b.config};
    var seen := second + {d.config};
    BacktrackHead(p, text, b, more, first);
    assert After(p, text, b) + more == [d] + more;
    BacktrackHead(p, text, d, more, second);
    assert After(p, text, d) + more == [a] + ([e] + more);
    BacktrackAgain(p, text, a, [e] + more, seen);
    BacktrackHead(p, text, e, more, seen);
    assert Report(e) == [0, 0];
  }

  lemma BacktrackAgain(p: Program, text: seq<Byte>, t: Thread, rest: seq<Thread>, visited: set<Config>)
    requires Valid(p) && ThreadOk(p, text, t) && ThreadsOk(p, text, rest) && t.config in visited
    ensures Backtrack(p, text, [t] + rest, visited) == Backtrack(p, text, rest, visited)
  {
    assert ([t] + rest)[1..] == rest;
  }

  lemma OtherIsFirst()
    ensures var ways := Ways(EMPTY_OR_A, [0x61], Here(0, map[0 := 0])); ways != [] && ways[0].at == 1
  {
    hide Times, Decode;
    var body, text: seq<Byte>, i := Alt(Empty, Lit(0x61, false)), [0x61], Here(0, map[0 := 0]);
    var j := Here(1, i.saves);
    ReadsA();
    assert Ways(body, text, i) == [i, j] && Ways(body, text, j) == [j];
    TimesIs(body, text, 0, -1, false, j);
    TimesIs(body, text, 0, -1, false, i);
    TimesIs(body, text, 1, -1, false, i);
  }

  lemma ReadsA()
    ensures Decode([0x61], 0) == Decoded(0x61, 1)
  {
  }
}
