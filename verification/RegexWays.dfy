/** All the ways in which a pattern matches, in the order in which it prefers them. */
module RegexWays {
  import opened Common
  import opened Utf8
  import opened RegexProgram
  import opened RegexFragment
  import opened RegexRepeat
  import opened RegexTree
  import opened RegexCaptures

  // ---------- the order ----------

  function Fewer(most: int): int {
    if most <= 0 then most else most - 1
  }

  /** How much of the text is left. */
  function Room(text: seq<Byte>, i: Here): nat {
    if i.at <= |text| then |text| + 1 - i.at else 0
  }

  /** What a repeat can do at most from `i` on. */
  function Left(most: int, text: seq<Byte>, i: Here): nat {
    if most < 0 then Room(text, i) else most
  }

  function SavedAll(ways: seq<Here>, slot: nat): (r: seq<Here>) {
    if ways == [] then [] else [ways[0].Saved(slot)] + SavedAll(ways[1..], slot)
  }

  /** All the ways to match from `i` on, the preferred ones first: those of the left alternative
      before those of the right one, one more repeat before none when greedy, none before one more
      when lazy. What is repeated without limit goes on in the text. */
  function Ways(node: Node, text: seq<Byte>, i: Here): seq<Here>
    decreases node, 0, 0, 0, 0
  {
    match node
    case Cat(left, right) => WaysFrom(right, text, Ways(left, text, i))
    case Alt(left, right) => Ways(left, text, i) + Ways(right, text, i)
    case Group(number, body) => SavedAll(Ways(body, text, i.Saved(number * 2)), number * 2 + 1)
    case Repeat(body, least, most, lazy) => Times(body, text, least, most, lazy, i)
    case Empty => [i]
    case At(place) => if i.at <= |text| && IsAt(place, text, i.at) then [i] else []
    case _ =>
      if i.at < |text| && Stands(node, Decode(text, i.at).c) then [Here(i.at + Decode(text, i.at).size, i.saves)]
      else []
  }

  function WaysFrom(node: Node, text: seq<Byte>, from: seq<Here>): seq<Here>
    decreases node, 1, 0, 0, |from|
  {
    if from == [] then [] else Ways(node, text, from[0]) + WaysFrom(node, text, from[1..])
  }

  function Times(body: Node, text: seq<Byte>, least: nat, most: int, lazy: bool, i: Here): seq<Here>
    decreases body, 2, least, Left(most, text, i), 0
  {
    if least > 0 then TimesFrom(body, text, least - 1, Fewer(most), lazy, Ways(body, text, i), |text| + 1)
    else if most == 0 then [i]
    else
      var room := if most < 0 then Room(text, i) - 1 else |text| + 1;
      var more := TimesFrom(body, text, 0, Fewer(most), lazy, Ways(body, text, i), room);
      if lazy then [i] + more else more + [i]
  }

  /** On from each of `from` where no more than `room` of the text is left. */
  function TimesFrom(body: Node, text: seq<Byte>, least: nat, most: int, lazy: bool, from: seq<Here>, room: int): seq<Here>
    decreases body, 2, least, if most < 0 then room else most, |from| + 1
  {
    if from == [] then []
    else
      var rest := TimesFrom(body, text, least, most, lazy, from[1..], room);
      if Room(text, from[0]) <= room then Times(body, text, least, most, lazy, from[0]) + rest else rest
  }

  // ---------- where it says something ----------

  /** The pattern may match the empty text. */
  predicate CanBeEmpty(node: Node) {
    match node
    case Empty => true
    case At(_) => true
    case Cat(left, right) => CanBeEmpty(left) && CanBeEmpty(right)
    case Alt(left, right) => CanBeEmpty(left) || CanBeEmpty(right)
    case Group(_, body) => CanBeEmpty(body)
    case Repeat(body, least, _, _) => least == 0 || CanBeEmpty(body)
    case _ => false
  }

  /** Nothing that may be repeated without limit can be empty. */
  predicate Steady(node: Node) {
    match node
    case Cat(left, right) => Steady(left) && Steady(right)
    case Alt(left, right) => Steady(left) && Steady(right)
    case Group(_, body) => Steady(body)
    case Repeat(body, _, most, _) => Steady(body) && (most < 0 ==> !CanBeEmpty(body))
    case _ => true
  }

  /** No repeat has a limit below its minimum. */
  predicate InOrder(node: Node) {
    match node
    case Cat(left, right) => InOrder(left) && InOrder(right)
    case Alt(left, right) => InOrder(left) && InOrder(right)
    case Group(_, body) => InOrder(body)
    case Repeat(body, least, most, _) => InOrder(body) && (most >= 0 ==> least <= most)
    case _ => true
  }

  lemma {:induction false} InTableInOrder(node: Node, ranges: seq<Range>)
    requires InTable(node, ranges)
    ensures InOrder(node)
  {
    match node
    case Cat(left, right) =>
      InTableInOrder(left, ranges);
      InTableInOrder(right, ranges);
    case Alt(left, right) =>
      InTableInOrder(left, ranges);
      InTableInOrder(right, ranges);
    case Group(_, body) => InTableInOrder(body, ranges);
    case Repeat(body, _, _, _) => InTableInOrder(body, ranges);
    case _ =>
  }

  lemma {:induction false} NotEmptyMoves(node: Node, text: seq<Byte>, i: nat, j: nat)
    requires Denotes(node, text, i, j) && !CanBeEmpty(node)
    ensures i < j
    decreases node
  {
    match node
    case Cat(left, right) =>
      var k: nat :| Denotes(left, text, i, k) && Denotes(right, text, k, j);
      DenotesForward(left, text, i, k);
      DenotesForward(right, text, k, j);
      if CanBeEmpty(left) {
        NotEmptyMoves(right, text, k, j);
      } else {
        NotEmptyMoves(left, text, i, k);
      }
    case Alt(left, right) =>
      if Denotes(left, text, i, j) {
        NotEmptyMoves(left, text, i, j);
      } else {
        NotEmptyMoves(right, text, i, j);
      }
    case Group(_, body) => NotEmptyMoves(body, text, i, j);
    case Repeat(body, least, most, _) =>
      var k: nat :| Allowed(least, most, k) && Power(body, text, k, i, j);
      var mid := PowerFirst(body, text, k, i, j);
      NotEmptyMoves(body, text, i, mid);
      PowerForward(body, text, k - 1, mid, j);
    case _ =>
  }

  lemma PowerFirst(node: Node, text: seq<Byte>, k: nat, i: nat, j: nat) returns (mid: nat)
    requires Power(node, text, k, i, j) && k > 0
    ensures Denotes(node, text, i, mid) && Power(node, text, k - 1, mid, j)
  {
    hide Denotes;
    mid :| Denotes(node, text, i, mid) && Power(node, text, k - 1, mid, j);
  }

  lemma {:induction false} DenotesInText(node: Node, text: seq<Byte>, i: nat, j: nat)
    requires Denotes(node, text, i, j) && i <= |text|
    ensures j <= |text|
    decreases node, 0
  {
    match node
    case Cat(left, right) =>
      var k: nat :| Denotes(left, text, i, k) && Denotes(right, text, k, j);
      DenotesInText(left, text, i, k);
      DenotesInText(right, text, k, j);
    case Alt(left, right) =>
      if Denotes(left, text, i, j) {
        DenotesInText(left, text, i, j);
      } else {
        DenotesInText(right, text, i, j);
      }
    case Group(_, body) => DenotesInText(body, text, i, j);
    case Repeat(body, least, most, _) =>
      var k: nat :| Allowed(least, most, k) && Power(body, text, k, i, j);
      PowerInText(body, text, k, i, j);
    case _ =>
  }

  lemma {:induction false} PowerInText(node: Node, text: seq<Byte>, k: nat, i: nat, j: nat)
    requires Power(node, text, k, i, j) && i <= |text|
    ensures j <= |text|
    decreases node, k + 1
  {
    if k > 0 {
      var mid := PowerFirst(node, text, k, i, j);
      DenotesInText(node, text, i, mid);
      PowerInText(node, text, k - 1, mid, j);
    }
  }

  /** A parse stays in the text, and moves on in it when it cannot be empty. */
  lemma ParseMoves(node: Node, text: seq<Byte>, i: Here, j: Here)
    requires Parses(node, text, i, j) && i.at <= |text|
    ensures i.at <= j.at <= |text| && (!CanBeEmpty(node) ==> i.at < j.at)
  {
    hide Denotes, Parses, CanBeEmpty;
    ParsedIsDenoted(node, text, i, j);
    DenotesForward(node, text, i.at, j.at);
    DenotesInText(node, text, i.at, j.at);
    if !CanBeEmpty(node) {
      NotEmptyMoves(node, text, i.at, j.at);
    }
  }

  // ---------- the ways are the parses ----------

  lemma ParsesTimes(body: Node, text: seq<Byte>, least: nat, most: int, lazy: bool, i: Here, j: Here)
    ensures Parses(Repeat(body, least, most, lazy), text, i, j) <==>
            exists n: nat :: Allowed(least, most, n) && ParsesPower(body, text, n, i, j)
  {
  }

  lemma ParsesPowerFirst(body: Node, text: seq<Byte>, n: nat, i: Here, j: Here) returns (k: Here)
    requires n > 0 && ParsesPower(body, text, n, i, j)
    ensures Parses(body, text, i, k) && ParsesPower(body, text, n - 1, k, j)
  {
    hide Parses;
    k :| Parses(body, text, i, k) && ParsesPower(body, text, n - 1, k, j);
  }

  lemma ParsesPowerMore(body: Node, text: seq<Byte>, n: nat, i: Here, k: Here, j: Here)
    requires n > 0 && Parses(body, text, i, k) && ParsesPower(body, text, n - 1, k, j)
    ensures ParsesPower(body, text, n, i, j)
  {
    hide Parses;
  }

  lemma ParsesPowerNone(body: Node, text: seq<Byte>, i: Here, j: Here)
    ensures ParsesPower(body, text, 0, i, j) <==> i == j
  {
  }

  lemma CatParses(left: Node, right: Node, text: seq<Byte>, i: Here, k: Here, j: Here)
    requires Parses(left, text, i, k) && Parses(right, text, k, j)
    ensures Parses(Cat(left, right), text, i, j)
  {
  }

  lemma ParsesCat(left: Node, right: Node, text: seq<Byte>, i: Here, j: Here) returns (k: Here)
    requires Parses(Cat(left, right), text, i, j)
    ensures Parses(left, text, i, k) && Parses(right, text, k, j)
  {
    k :| Parses(left, text, i, k) && Parses(right, text, k, j);
  }

  /** A repeat, when there has to be one and when there need be none. */
  lemma ParsesRepeat(body: Node, text: seq<Byte>, least: nat, most: int, lazy: bool, i: Here, j: Here)
    requires most >= 0 ==> least <= most
    ensures Parses(Repeat(body, least, most, lazy), text, i, j) <==>
            || (least == 0 && i == j)
            || (most != 0 && Parses(Cat(body, Repeat(body, if least > 0 then least - 1 else 0, Fewer(most), lazy)), text, i, j))
  {
    hide Parses, ParsesPower;
    var less := if least > 0 then least - 1 else 0;
    var rest := Repeat(body, less, Fewer(most), lazy);
    ParsesTimes(body, text, least, most, lazy, i, j);
    ParsesPowerNone(body, text, i, j);
    if Parses(Repeat(body, least, most, lazy), text, i, j) {
      var n: nat :| Allowed(least, most, n) && ParsesPower(body, text, n, i, j);
      if n > 0 {
        var k := ParsesPowerFirst(body, text, n, i, j);
        assert Allowed(less, Fewer(most), n - 1);
        ParsesTimes(body, text, less, Fewer(most), lazy, k, j);
        CatParses(body, rest, text, i, k, j);
      }
    }
    if least == 0 && i == j {
      assert Allowed(least, most, 0);
    }
    if most != 0 && Parses(Cat(body, rest), text, i, j) {
      var k := ParsesCat(body, rest, text, i, j);
      ParsesTimes(body, text, less, Fewer(most), lazy, k, j);
      var n: nat :| Allowed(less, Fewer(most), n) && ParsesPower(body, text, n, k, j);
      ParsesPowerMore(body, text, n + 1, i, k, j);
      assert Allowed(least, most, n + 1);
    }
  }

  lemma {:induction false} InWaysFrom(node: Node, text: seq<Byte>, from: seq<Here>, j: Here)
    ensures j in WaysFrom(node, text, from) <==> exists k :: k in from && j in Ways(node, text, k)
    decreases |from|
  {
    hide Ways;
    if from != [] {
      InWaysFrom(node, text, from[1..], j);
      assert from[0] in from && forall k :: k in from[1..] ==> k in from;
      assert forall k :: k in from ==> k == from[0] || k in from[1..];
      assert WaysFrom(node, text, from) == Ways(node, text, from[0]) + WaysFrom(node, text, from[1..]);
    }
  }

  lemma {:induction false} InTimesFrom(body: Node, text: seq<Byte>, least: nat, most: int, lazy: bool, from: seq<Here>, room: int, j: Here)
    ensures j in TimesFrom(body, text, least, most, lazy, from, room) <==>
            exists k :: k in from && Room(text, k) <= room && j in Times(body, text, least, most, lazy, k)
    decreases |from|
  {
    hide Times, Room;
    if from != [] {
      InTimesFrom(body, text, least, most, lazy, from[1..], room, j);
      assert from == [from[0]] + from[1..];
    }
  }

  lemma {:induction false} InSavedAll(ways: seq<Here>, slot: nat, j: Here)
    ensures j in SavedAll(ways, slot) <==> exists k :: k in ways && j == k.Saved(slot)
  {
    if ways != [] {
      InSavedAll(ways[1..], slot, j);
      assert ways == [ways[0]] + ways[1..];
    }
  }

  /** The list of ways leaves out no parse and has nothing else. */
  lemma {:induction false} WaysAreParses(node: Node, text: seq<Byte>, i: Here, j: Here)
    requires InOrder(node) && Steady(node) && i.at <= |text|
    ensures j in Ways(node, text, i) <==> Parses(node, text, i, j)
    decreases node, 0, 0, 0
  {
    match node
    case Cat(left, right) =>
      InWaysFrom(right, text, Ways(left, text, i), j);
      forall k: Here
        ensures k in Ways(left, text, i) <==> Parses(left, text, i, k)
        ensures Parses(left, text, i, k) ==> (j in Ways(right, text, k) <==> Parses(right, text, k, j))
      {
        WaysAreParses(left, text, i, k);
        if Parses(left, text, i, k) {
          ParseMoves(left, text, i, k);
          WaysAreParses(right, text, k, j);
        }
      }
    case Alt(left, right) =>
      WaysAreParses(left, text, i, j);
      WaysAreParses(right, text, i, j);
    case Group(number, body) =>
      var open := i.Saved(number * 2);
      InSavedAll(Ways(body, text, open), number * 2 + 1, j);
      forall k: Here ensures k in Ways(body, text, open) <==> Parses(body, text, open, k) {
        WaysAreParses(body, text, open, k);
      }
    case Repeat(body, least, most, lazy) => TimesAreParses(body, text, least, most, lazy, i, j);
    case _ =>
  }

  /** What a repeat goes on with when it is not over. */
  function More(body: Node, text: seq<Byte>, least: nat, most: int, lazy: bool, i: Here): seq<Here>
    requires most != 0
  {
    var room := if least == 0 && most < 0 then Room(text, i) - 1 else |text| + 1;
    TimesFrom(body, text, if least > 0 then least - 1 else 0, Fewer(most), lazy, Ways(body, text, i), room)
  }

  lemma TimesIs(body: Node, text: seq<Byte>, least: nat, most: int, lazy: bool, i: Here)
    requires most >= 0 ==> least <= most
    ensures Times(body, text, least, most, lazy, i) ==
            if most == 0 then [i]
            else if least > 0 then More(body, text, least, most, lazy, i)
            else if lazy then [i] + More(body, text, least, most, lazy, i)
            else More(body, text, least, most, lazy, i) + [i]
  {
    hide Ways, TimesFrom, Room;
  }

  /** When there need be none, the first way of a lazy repeat is none, and that is the last way of a
      greedy one. */
  lemma NoneIsFirstOrLast(body: Node, text: seq<Byte>, most: int, i: Here)
    ensures var ways := Ways(Repeat(body, 0, most, true), text, i); ways != [] && ways[0] == i
    ensures var ways := Ways(Repeat(body, 0, most, false), text, i); ways != [] && ways[|ways| - 1] == i
  {
    hide More;
    TimesIs(body, text, 0, most, true, i);
    TimesIs(body, text, 0, most, false, i);
  }

  lemma {:induction false} TimesAreParses(body: Node, text: seq<Byte>, least: nat, most: int, lazy: bool, i: Here, j: Here)
    requires InOrder(body) && Steady(body) && (most >= 0 ==> least <= most) && (most < 0 ==> !CanBeEmpty(body)) && i.at <= |text|
    ensures j in Times(body, text, least, most, lazy, i) <==> Parses(Repeat(body, least, most, lazy), text, i, j)
    decreases body, 1, least, Left(most, text, i)
  {
    hide InOrder, Steady, CanBeEmpty, Ways, Times, TimesFrom, Parses;
    ParsesRepeat(body, text, least, most, lazy, i, j);
    TimesIs(body, text, least, most, lazy, i);
    if most != 0 {
      var less, room := if least > 0 then least - 1 else 0, if least == 0 && most < 0 then Room(text, i) - 1 else |text| + 1;
      var first, rest := Ways(body, text, i), Repeat(body, less, Fewer(most), lazy);
      InTimesFrom(body, text, less, Fewer(most), lazy, first, room, j);
      forall k: Here
        ensures k in first && Room(text, k) <= room && j in Times(body, text, less, Fewer(most), lazy, k) <==>
                Parses(body, text, i, k) && Parses(rest, text, k, j)
      {
        WaysAreParses(body, text, i, k);
        if Parses(body, text, i, k) {
          ParseMoves(body, text, i, k);
          TimesAreParses(body, text, less, Fewer(most), lazy, k, j);
        }
      }
      if Parses(Cat(body, rest), text, i, j) {
        var k := ParsesCat(body, rest, text, i, j);
      }
      if k :| k in first && Room(text, k) <= room && j in Times(body, text, less, Fewer(most), lazy, k) {
        CatParses(body, rest, text, i, k, j);
      }
    }
  }
}
