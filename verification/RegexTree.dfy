/** What a pattern means, and the code that is made for it. */
module RegexTree {
  import opened Common
  import opened Utf8
  import opened RegexProgram
  import opened RegexFragment
  import opened RegexRepeat

  datatype Place = TextStart | TextEnd | LineStart | LineEnd | Boundary | NoBoundary

  /** A pattern. A set knows where its ranges are kept; `most < 0` is a repeat without limit. */
  datatype Node =
    | Empty
    | Lit(c: nat, icase: bool)
    | Dot(newlines: bool)
    | Set(first: nat, members: seq<Range>, negated: bool, icase: bool)
    | At(place: Place)
    | Cat(left: Node, right: Node)
    | Alt(left: Node, right: Node)
    | Group(number: nat, body: Node)
    | Repeat(body: Node, least: nat, most: int, lazy: bool)

  // ---------- meaning ----------

  predicate SameLetter(c: nat, d: nat, icase: bool) {
    c == d || (icase && Lower(c) == Lower(d))
  }

  /** Whether one character of a text is among those a pattern of one character stands for. */
  predicate Stands(node: Node, c: nat) {
    match node
    case Lit(x, icase) => SameLetter(c, x, icase)
    case Dot(newlines) => newlines || c != NEWLINE
    case Set(_, members, negated, icase) =>
      (if icase then InRangesI(members, c) else InRanges(members, c)) != negated
    case _ => false
  }

  predicate IsAt(place: Place, text: seq<Byte>, i: nat)
    requires i <= |text|
  {
    match place
    case TextStart => i == 0
    case TextEnd => i == |text|
    case LineStart => i == 0 || text[i - 1] == NEWLINE
    case LineEnd => i == |text| || text[i] == NEWLINE
    case Boundary => WordAt(text, i - 1) != WordAt(text, i)
    case NoBoundary => WordAt(text, i - 1) == WordAt(text, i)
  }

  /** The pattern matches the text from `i` to `j`. */
  ghost predicate Denotes(node: Node, text: seq<Byte>, i: nat, j: nat)
    decreases node, 0
  {
    match node
    case Empty => i == j
    case Lit(_, _) => i < |text| && j == i + Decode(text, i).size && Stands(node, Decode(text, i).c)
    case Dot(_) => i < |text| && j == i + Decode(text, i).size && Stands(node, Decode(text, i).c)
    case Set(_, _, _, _) => i < |text| && j == i + Decode(text, i).size && Stands(node, Decode(text, i).c)
    case At(place) => i == j && i <= |text| && IsAt(place, text, i)
    case Cat(left, right) => exists k: nat :: Denotes(left, text, i, k) && Denotes(right, text, k, j)
    case Alt(left, right) => Denotes(left, text, i, j) || Denotes(right, text, i, j)
    case Group(_, body) => Denotes(body, text, i, j)
    case Repeat(body, least, most, _) =>
      exists k: nat :: Allowed(least, most, k) && Power(body, text, k, i, j)
  }

  /** The pattern matches `k` times in a row. */
  ghost predicate Power(node: Node, text: seq<Byte>, k: nat, i: nat, j: nat)
    decreases node, k + 1
  {
    if k == 0 then i == j
    else exists mid: nat :: Denotes(node, text, i, mid) && Power(node, text, k - 1, mid, j)
  }

  /** The pattern matches from one place to another, and records its groups on the way: those of
      the alternative that was taken, and of the last time that something was repeated. */
  ghost predicate Parses(node: Node, text: seq<Byte>, i: Here, j: Here)
    decreases node, 0
  {
    match node
    case Cat(left, right) => exists k: Here :: Parses(left, text, i, k) && Parses(right, text, k, j)
    case Alt(left, right) => Parses(left, text, i, j) || Parses(right, text, i, j)
    case Group(number, body) =>
      exists k: Here :: Parses(body, text, i.Saved(number * 2), k) && j == k.Saved(number * 2 + 1)
    case Repeat(body, least, most, _) =>
      exists k: nat :: Allowed(least, most, k) && ParsesPower(body, text, k, i, j)
    case _ => Denotes(node, text, i.at, j.at) && i.saves == j.saves
  }

  ghost predicate ParsesPower(node: Node, text: seq<Byte>, k: nat, i: Here, j: Here)
    decreases node, k + 1
  {
    if k == 0 then i == j
    else exists mid: Here :: Parses(node, text, i, mid) && ParsesPower(node, text, k - 1, mid, j)
  }

  // ---------- code ----------

  function PlaceInst(place: Place): Inst {
    match place
    case TextStart => Bol
    case TextEnd => Eol
    case LineStart => MBol
    case LineEnd => MEol
    case Boundary => WordB
    case NoBoundary => NWordB
  }

  /** The code of a pattern. */
  function Gen(node: Node): seq<Inst> {
    match node
    case Empty => []
    case Lit(c, icase) => [if icase then CharI(Lower(c)) else Char(c)]
    case Dot(newlines) => [if newlines then AnyNl else Any]
    case Set(first, members, negated, icase) =>
      [if icase then ClassI(first, |members|, negated) else Class(first, |members|, negated)]
    case At(place) => [PlaceInst(place)]
    case Cat(left, right) => Gen(left) + Gen(right)
    case Alt(left, right) => Either(Gen(left), Gen(right))
    case Group(number, body) => [Save(number * 2)] + Gen(body) + [Save(number * 2 + 1)]
    case Repeat(body, least, most, lazy) => Repeated(Gen(body), least, most, lazy)
  }

  /** The sets find their ranges in the table, and no repeat has a limit below its minimum. */
  predicate InTable(node: Node, ranges: seq<Range>) {
    match node
    case Set(first, members, _, _) => first + |members| <= |ranges| && ranges[first..first + |members|] == members
    case Cat(left, right) => InTable(left, ranges) && InTable(right, ranges)
    case Alt(left, right) => InTable(left, ranges) && InTable(right, ranges)
    case Group(_, body) => InTable(body, ranges)
    case Repeat(body, least, most, _) => InTable(body, ranges) && (most >= 0 ==> least <= most)
    case _ => true
  }

  predicate SingleCharacter(node: Node) {
    node.Lit? || node.Dot? || node.Set?
  }

  /** The instruction of a one-character pattern takes the characters it stands for. */
  lemma TakesWhatItStandsFor(node: Node, ranges: seq<Range>, c: nat)
    requires SingleCharacter(node) && InTable(node, ranges)
    ensures |Gen(node)| == 1 && Consuming(Gen(node)[0])
    ensures Takes(Gen(node)[0], ranges, c) <==> Stands(node, c)
  {
  }

  lemma HoldsWhereItIs(place: Place, text: seq<Byte>, i: nat)
    requires i <= |text|
    ensures Assertion(PlaceInst(place)) && (Holds(PlaceInst(place), text, i) <==> IsAt(place, text, i))
  {
  }

  /** The code of a pattern runs exactly as the pattern parses the text, groups included, and its
      jumps stay inside it. */
  lemma {:induction false} GenRuns(node: Node, ranges: seq<Range>, text: seq<Byte>, i: Here, j: Here)
    requires InTable(node, ranges) && i.at <= |text|
    ensures Inside(Gen(node))
    ensures Runs(Gen(node), ranges, text, i, j) <==> Parses(node, text, i, j)
    decreases node, 0
  {
    hide Runs, Inside, Edge, Either, Repeated, Takes, Holds, Stands;
    match node
    case Empty =>
      RunsNothing(ranges, text, i, j);
      InsideNothing();
    case Lit(_, _) => CharacterRuns(node, ranges, text, i, j);
    case Dot(_) => CharacterRuns(node, ranges, text, i, j);
    case Set(_, _, _, _) => CharacterRuns(node, ranges, text, i, j);
    case At(place) => PlaceRuns(place, ranges, text, i, j);
    case Cat(left, right) =>
      GenRuns(left, ranges, text, i, j);
      GenRuns(right, ranges, text, i, j);
      InsideJoin(Gen(left), Gen(right));
      RunsJoin(Gen(left), Gen(right), ranges, text, i, j);
      forall k: Here
        ensures Runs(Gen(left), ranges, text, i, k) && Runs(Gen(right), ranges, text, k, j) <==>
                Parses(left, text, i, k) && Parses(right, text, k, j)
      {
        GenRuns(left, ranges, text, i, k);
        if Runs(Gen(left), ranges, text, i, k) {
          RunsForward(Gen(left), ranges, text, i, k);
          GenRuns(right, ranges, text, k, j);
        }
      }
    case Alt(left, right) =>
      GenRuns(left, ranges, text, i, j);
      GenRuns(right, ranges, text, i, j);
      EitherRuns(Gen(left), Gen(right), ranges, text, i, j);
    case Group(number, body) =>
      GenRuns(body, ranges, text, i, j);
      GroupRuns(number, body, ranges, text, i, j);
      forall k: Here
        ensures Runs(Gen(body), ranges, text, i.Saved(number * 2), k) <==> Parses(body, text, i.Saved(number * 2), k)
      {
        GenRuns(body, ranges, text, i.Saved(number * 2), k);
      }
    case Repeat(body, least, most, lazy) =>
      GenRuns(body, ranges, text, i, j);
      RepeatedRuns(Gen(body), least, most, lazy, ranges, text, i, j);
      if Runs(Gen(node), ranges, text, i, j) {
        var k: nat :| Allowed(least, most, k) && PowerRuns(Gen(body), ranges, text, k, i, j);
        PowerAgrees(body, ranges, text, k, i, j);
      }
      if Parses(node, text, i, j) {
        var k: nat :| Allowed(least, most, k) && ParsesPower(body, text, k, i, j);
        PowerAgrees(body, ranges, text, k, i, j);
      }
  }

  lemma CharacterRuns(node: Node, ranges: seq<Range>, text: seq<Byte>, i: Here, j: Here)
    requires SingleCharacter(node) && InTable(node, ranges) && i.at <= |text|
    ensures Inside(Gen(node))
    ensures Runs(Gen(node), ranges, text, i, j) <==> Parses(node, text, i, j)
  {
    hide Runs, Holds, Takes, Stands;
    TakesWhatItStandsFor(node, ranges, 0);
    RunsOne(Gen(node)[0], ranges, text, i, j);
    assert Gen(node) == [Gen(node)[0]];
    if i.at < |text| {
      TakesWhatItStandsFor(node, ranges, Decode(text, i.at).c);
    }
  }

  lemma PlaceRuns(place: Place, ranges: seq<Range>, text: seq<Byte>, i: Here, j: Here)
    requires i.at <= |text|
    ensures Inside([PlaceInst(place)])
    ensures Runs([PlaceInst(place)], ranges, text, i, j) <==> i == j && IsAt(place, text, i.at)
  {
    hide Runs, Holds, IsAt, PlaceInst;
    HoldsWhereItIs(place, text, i.at);
    RunsOne(PlaceInst(place), ranges, text, i, j);
  }

  lemma SaveRuns(slot: nat, ranges: seq<Range>, text: seq<Byte>, i: Here, j: Here)
    requires i.at <= |text|
    ensures Inside([Save(slot)])
    ensures Runs([Save(slot)], ranges, text, i, j) <==> j == i.Saved(slot)
  {
    hide Runs;
    RunsOne(Save(slot), ranges, text, i, j);
  }

  /** A group runs as what is in it, and records where that begins and ends. */
  lemma GroupRuns(number: nat, body: Node, ranges: seq<Range>, text: seq<Byte>, i: Here, j: Here)
    requires i.at <= |text| && Inside(Gen(body))
    ensures Inside(Gen(Group(number, body)))
    ensures Runs(Gen(Group(number, body)), ranges, text, i, j) <==>
            exists k: Here :: Runs(Gen(body), ranges, text, i.Saved(number * 2), k) && j == k.Saved(number * 2 + 1)
  {
    hide Runs, Inside;
    var open, close, inner := [Save(number * 2)], [Save(number * 2 + 1)], Gen(body);
    SaveRuns(number * 2, ranges, text, i, i);
    SaveRuns(number * 2 + 1, ranges, text, i, i);
    InsideJoin(open, inner);
    InsideJoin(open + inner, close);
    RunsJoin(open + inner, close, ranges, text, i, j);
    var within := i.Saved(number * 2);
    forall k: Here
      ensures Runs(open + inner, ranges, text, i, k) <==> Runs(inner, ranges, text, within, k)
      ensures Runs(inner, ranges, text, within, k) ==> (Runs(close, ranges, text, k, j) <==> j == k.Saved(number * 2 + 1))
    {
      RunsJoin(open, inner, ranges, text, i, k);
      forall m: Here ensures Runs(open, ranges, text, i, m) <==> m == within {
        SaveRuns(number * 2, ranges, text, i, m);
      }
      if Runs(inner, ranges, text, within, k) {
        RunsForward(inner, ranges, text, within, k);
        SaveRuns(number * 2 + 1, ranges, text, k, j);
      }
    }
  }

  lemma {:induction false} PowerAgrees(node: Node, ranges: seq<Range>, text: seq<Byte>, k: nat, i: Here, j: Here)
    requires InTable(node, ranges) && i.at <= |text|
    ensures PowerRuns(Gen(node), ranges, text, k, i, j) <==> ParsesPower(node, text, k, i, j)
    decreases node, k + 1
  {
    hide Runs, Parses, Gen;
    if k > 0 {
      forall mid: Here
        ensures Runs(Gen(node), ranges, text, i, mid) && PowerRuns(Gen(node), ranges, text, k - 1, mid, j) <==>
                Parses(node, text, i, mid) && ParsesPower(node, text, k - 1, mid, j)
      {
        GenRuns(node, ranges, text, i, mid);
        if Runs(Gen(node), ranges, text, i, mid) {
          RunsForward(Gen(node), ranges, text, i, mid);
          PowerAgrees(node, ranges, text, k - 1, mid, j);
        }
      }
    }
  }

  /** What is parsed is matched. */
  lemma {:induction false} ParsedIsDenoted(node: Node, text: seq<Byte>, i: Here, j: Here)
    requires Parses(node, text, i, j)
    ensures Denotes(node, text, i.at, j.at)
    decreases node, 0
  {
    match node
    case Cat(left, right) =>
      var k: Here :| Parses(left, text, i, k) && Parses(right, text, k, j);
      ParsedIsDenoted(left, text, i, k);
      ParsedIsDenoted(right, text, k, j);
    case Alt(left, right) =>
      if Parses(left, text, i, j) {
        ParsedIsDenoted(left, text, i, j);
      } else {
        ParsedIsDenoted(right, text, i, j);
      }
    case Group(number, body) =>
      var k: Here :| Parses(body, text, i.Saved(number * 2), k) && j == k.Saved(number * 2 + 1);
      ParsedIsDenoted(body, text, i.Saved(number * 2), k);
    case Repeat(body, least, most, _) =>
      var k: nat :| Allowed(least, most, k) && ParsesPower(body, text, k, i, j);
      ParsedPowerIsPower(body, text, k, i, j);
    case _ =>
  }

  lemma {:induction false} ParsedPowerIsPower(node: Node, text: seq<Byte>, k: nat, i: Here, j: Here)
    requires ParsesPower(node, text, k, i, j)
    ensures Power(node, text, k, i.at, j.at)
    decreases node, k + 1
  {
    if k > 0 {
      var mid: Here :| Parses(node, text, i, mid) && ParsesPower(node, text, k - 1, mid, j);
      ParsedIsDenoted(node, text, i, mid);
      ParsedPowerIsPower(node, text, k - 1, mid, j);
    }
  }

  /** What is matched is parsed, whatever has been recorded before. */
  lemma {:induction false} DenotedIsParsed(node: Node, text: seq<Byte>, i: Here, at: nat) returns (j: Here)
    requires Denotes(node, text, i.at, at)
    ensures j.at == at && Parses(node, text, i, j)
    decreases node, 0
  {
    match node
    case Cat(left, right) =>
      var k: nat :| Denotes(left, text, i.at, k) && Denotes(right, text, k, at);
      var mid := DenotedIsParsed(left, text, i, k);
      j := DenotedIsParsed(right, text, mid, at);
    case Alt(left, right) =>
      if Denotes(left, text, i.at, at) {
        j := DenotedIsParsed(left, text, i, at);
      } else {
        j := DenotedIsParsed(right, text, i, at);
      }
    case Group(number, body) =>
      var k := DenotedIsParsed(body, text, i.Saved(number * 2), at);
      j := k.Saved(number * 2 + 1);
    case Repeat(body, least, most, _) =>
      var k: nat :| Allowed(least, most, k) && Power(body, text, k, i.at, at);
      j := PowerIsParsed(body, text, k, i, at);
    case _ =>
      j := Here(at, i.saves);
  }

  lemma {:induction false} PowerIsParsed(node: Node, text: seq<Byte>, k: nat, i: Here, at: nat) returns (j: Here)
    requires Power(node, text, k, i.at, at)
    ensures j.at == at && ParsesPower(node, text, k, i, j)
    decreases node, k + 1
  {
    if k == 0 {
      j := i;
    } else {
      var mid: nat :| Denotes(node, text, i.at, mid) && Power(node, text, k - 1, mid, at);
      var here := DenotedIsParsed(node, text, i, mid);
      j := PowerIsParsed(node, text, k - 1, here, at);
    }
  }

  /** The code of a pattern runs over exactly the pieces of text the pattern matches, whatever its
      groups have recorded before. */
  lemma GenRunsOverWhatItDenotes(node: Node, ranges: seq<Range>, text: seq<Byte>, i: Here, at: nat)
    requires InTable(node, ranges) && i.at <= |text|
    ensures Inside(Gen(node))
    ensures (exists j: Here :: j.at == at && Runs(Gen(node), ranges, text, i, j)) <==> Denotes(node, text, i.at, at)
  {
    hide Gen, Runs, Inside, Parses, Denotes;
    GenRuns(node, ranges, text, i, i);
    forall j: Here | j.at == at && Runs(Gen(node), ranges, text, i, j) ensures Denotes(node, text, i.at, at) {
      GenRuns(node, ranges, text, i, j);
      ParsedIsDenoted(node, text, i, j);
    }
    if Denotes(node, text, i.at, at) {
      var j := DenotedIsParsed(node, text, i, at);
      GenRuns(node, ranges, text, i, j);
    }
  }

  // ---------- whole programs ----------

  predicate GroupsBelow(node: Node, slots: nat) {
    match node
    case Cat(left, right) => GroupsBelow(left, slots) && GroupsBelow(right, slots)
    case Alt(left, right) => GroupsBelow(left, slots) && GroupsBelow(right, slots)
    case Group(number, body) => 1 <= number && number * 2 + 1 < slots && GroupsBelow(body, slots)
    case Repeat(body, _, _, _) => GroupsBelow(body, slots)
    case _ => true
  }

  predicate SlotsOk(code: seq<Inst>, slots: nat, table: nat) {
    forall pc :: 0 <= pc < |code| ==> (code[pc].Save? ==> 2 <= code[pc].slot < slots) && InTableOf(code[pc], table)
  }

  lemma {:induction false} CopiesSlots(s: seq<Inst>, k: nat, slots: nat, table: nat)
    requires SlotsOk(s, slots, table)
    ensures SlotsOk(Copies(s, k), slots, table)
  {
    if k > 0 {
      CopiesSlots(s, k - 1, slots, table);
    }
  }

  lemma {:induction false} OptionsSlots(s: seq<Inst>, k: nat, lazy: bool, slots: nat, table: nat)
    requires SlotsOk(s, slots, table)
    ensures SlotsOk(Options(s, k, lazy), slots, table)
  {
    if k > 0 {
      OptionsSlots(s, k - 1, lazy, slots, table);
    }
  }

  lemma RepeatedSlots(s: seq<Inst>, n: nat, m: int, lazy: bool, slots: nat, table: nat)
    requires SlotsOk(s, slots, table)
    ensures SlotsOk(Repeated(s, n, m, lazy), slots, table)
  {
    hide Copies, Options;
    CopiesSlots(s, n, slots, table);
    if n > 0 {
      CopiesSlots(s, n - 1, slots, table);
    }
    OptionsSlots(s, if m >= n then m - n else 0, lazy, slots, table);
  }

  lemma {:induction false} GenSlots(node: Node, ranges: seq<Range>, slots: nat)
    requires GroupsBelow(node, slots) && InTable(node, ranges)
    ensures SlotsOk(Gen(node), slots, |ranges|)
  {
    hide Repeated;
    match node
    case Cat(left, right) =>
      GenSlots(left, ranges, slots);
      GenSlots(right, ranges, slots);
    case Alt(left, right) =>
      GenSlots(left, ranges, slots);
      GenSlots(right, ranges, slots);
    case Group(number, body) =>
      GenSlots(body, ranges, slots);
    case Repeat(body, least, most, lazy) =>
      GenSlots(body, ranges, slots);
      RepeatedSlots(Gen(body), least, most, lazy, slots, |ranges|);
    case Empty =>
    case Lit(_, _) =>
    case Dot(_) =>
    case Set(_, _, _, _) =>
    case At(_) =>
  }

  /** The program of a pattern: its code, then the match. */
  function ProgramOf(node: Node, ranges: seq<Range>, slots: nat): Program {
    Program(Gen(node) + [Match], ranges, slots)
  }

  lemma ProgramValid(node: Node, ranges: seq<Range>, slots: nat)
    requires InTable(node, ranges) && GroupsBelow(node, slots) && slots >= 2
    ensures Valid(ProgramOf(node, ranges, slots)) && Inside(Gen(node))
  {
    var code, p := Gen(node), ProgramOf(node, ranges, slots);
    GenRuns(node, ranges, [], Here(0, map[]), Here(0, map[]));
    GenSlots(node, ranges, slots);
    hide Gen, Runs, Denotes, Inside, SlotsOk;
    forall pc | 0 <= pc < |p.code|
      ensures InstOk(p.code[pc], pc, |p.code|, slots, |ranges|)
    {
      if pc < |code| {
        InstFits(code, pc, slots, |ranges|);
        assert p.code[pc] == code[pc];
      }
    }
  }

  lemma InstFits(code: seq<Inst>, pc: nat, slots: nat, table: nat)
    requires Inside(code) && SlotsOk(code, slots, table) && pc < |code|
    ensures InstOk(code[pc], pc, |code| + 1, slots, table) && !code[pc].Match?
  {
    assert InstInside(code[pc], pc, |code|);
  }

  /** What has been recorded once the instruction at `c` has been taken. */
  function SavesPast(p: Program, c: Config, saves: map<nat, nat>): map<nat, nat>
    requires c.pc < |p.code|
  {
    if p.code[c.pc].Save? then saves[p.code[c.pc].slot := c.at] else saves
  }

  function SpotOf(c: Config, saves: map<nat, nat>): Spot {
    Spot(c.pc, Here(c.at, saves))
  }

  lemma NextIsEdge(p: Program, text: seq<Byte>, c: Config, saves: map<nat, nat>, d: Config, after: map<nat, nat>)
    requires Valid(p) && InBounds(p, text, c)
    ensures Edge(p.code, p.ranges, text, SpotOf(c, saves), SpotOf(d, after)) <==>
            d in Next(p, text, c) && after == SavesPast(p, c, saves)
  {
    hide Holds, Takes, Decode;
  }

  lemma {:induction false} PathIsRun(p: Program, text: seq<Byte>, c: Config, d: Config, trace: seq<Config>, saves: map<nat, nat>)
    returns (after: map<nat, nat>)
    requires Valid(p) && IsPath(p, text, c, d, trace)
    ensures Run(p.code, p.ranges, text, SpotOf(c, saves), SpotOf(d, after), |trace| - 1)
    decreases |trace|
  {
    hide Next, Edge, Valid;
    if |trace| == 1 {
      after := saves;
    } else {
      var past := SavesPast(p, c, saves);
      NextIsEdge(p, text, trace[0], saves, trace[0 + 1], past);
      after := PathIsRun(p, text, trace[1], d, trace[1..], past);
    }
  }

  lemma {:induction false} RunIsPath(p: Program, text: seq<Byte>, c: Spot, d: Spot, n: nat) returns (trace: seq<Config>)
    requires Valid(p) && InBounds(p, text, Config(c.pc, c.here.at)) && Run(p.code, p.ranges, text, c, d, n)
    ensures IsPath(p, text, Config(c.pc, c.here.at), Config(d.pc, d.here.at), trace)
    decreases n
  {
    hide Next, Edge, Valid;
    var from := Config(c.pc, c.here.at);
    if n == 0 {
      trace := [from];
    } else {
      var e :| Edge(p.code, p.ranges, text, c, e) && Run(p.code, p.ranges, text, e, d, n - 1);
      NextIsEdge(p, text, from, c.here.saves, Config(e.pc, e.here.at), e.here.saves);
      trace := RunIsPath(p, text, e, d, n - 1);
      trace := [from] + trace;
    }
  }

  /** A run of the whole program to its match is a parse. */
  lemma RunIsParse(node: Node, ranges: seq<Range>, slots: nat, text: seq<Byte>, i: Here, pc: nat, j: Here, n: nat)
    requires InTable(node, ranges) && GroupsBelow(node, slots) && slots >= 2 && i.at <= |text|
    requires var p := ProgramOf(node, ranges, slots);
             Run(p.code, ranges, text, Spot(0, i), Spot(pc, j), n) && IsMatch(p, Config(pc, j.at))
    ensures Parses(node, text, i, j)
  {
    hide Gen, Run, Parses, Valid, Inside, SlotsOk;
    var code, p := Gen(node), ProgramOf(node, ranges, slots);
    ProgramValid(node, ranges, slots);
    OnlyMatch(node, ranges, slots, pc);
    assert PlacedAt(p.code, 0, code);
    var k, m := RunLeaves(p.code, 0, code, ranges, text, Spot(0, i), Spot(pc, j), n);
    RunAfterMatch(p, text, Spot(|code|, k), Spot(pc, j), n - m);
    RunsWitness(code, ranges, text, i, j, m);
    GenRuns(node, ranges, text, i, j);
  }

  /** A compiled pattern accepts exactly the pieces of text that the pattern matches. */
  lemma AcceptsWhatItDenotes(node: Node, ranges: seq<Range>, slots: nat, text: seq<Byte>, i: nat, j: nat)
    requires InTable(node, ranges) && GroupsBelow(node, slots) && slots >= 2 && i <= |text|
    ensures Valid(ProgramOf(node, ranges, slots))
    ensures Accepts(ProgramOf(node, ranges, slots), text, i, j) <==> Denotes(node, text, i, j)
  {
    hide Gen, Run, Next, Denotes, Parses, Valid, Inside, SlotsOk;
    var code, p := Gen(node), ProgramOf(node, ranges, slots);
    ProgramValid(node, ranges, slots);
    var from, start := Config(0, i), Here(i, map[]);
    if Accepts(p, text, i, j) {
      var pc :| IsMatch(p, Config(pc, j)) && Reaches(p, text, from, Config(pc, j));
      var trace :| IsPath(p, text, from, Config(pc, j), trace);
      var after := PathIsRun(p, text, from, Config(pc, j), trace, map[]);
      RunIsParse(node, ranges, slots, text, start, pc, Here(j, after), |trace| - 1);
      ParsedIsDenoted(node, text, start, Here(j, after));
    }
    if Denotes(node, text, i, j) {
      var end := DenotedIsParsed(node, text, start, j);
      GenRuns(node, ranges, text, start, end);
      var n: nat :| Run(code, ranges, text, Spot(0, start), Spot(|code|, end), n);
      assert PlacedAt(p.code, 0, code);
      RunPlaced(p.code, 0, code, ranges, text, Spot(0, start), Spot(|code|, end), n);
      var to := Config(|code|, j);
      var trace := RunIsPath(p, text, Spot(0, start), Spot(|code|, end), n);
      assert IsMatch(p, to) && Reaches(p, text, from, to);
    }
  }

  lemma OnlyMatch(node: Node, ranges: seq<Range>, slots: nat, pc: nat)
    requires InTable(node, ranges) && GroupsBelow(node, slots) && slots >= 2
    requires IsMatch(ProgramOf(node, ranges, slots), Config(pc, 0))
    ensures pc == |Gen(node)|
  {
    hide Gen, Inside, SlotsOk;
    ProgramValid(node, ranges, slots);
    GenSlots(node, ranges, slots);
    if pc < |Gen(node)| {
      InstFits(Gen(node), pc, slots, |ranges|);
    }
  }

  lemma RunAfterMatch(p: Program, text: seq<Byte>, c: Spot, d: Spot, n: nat)
    requires IsMatch(p, Config(c.pc, 0)) && Run(p.code, p.ranges, text, c, d, n)
    ensures c == d
  {
  }
}
