/** What the spans that a search reports say about the groups of the pattern. */
module RegexCaptures {
  import opened Common
  import opened RegexProgram
  import opened RegexBacktrack
  import opened RegexFragment
  import opened RegexRepeat
  import opened RegexTree

  // ---------- the groups of a pattern ----------

  function Numbers(node: Node): set<nat> {
    match node
    case Cat(left, right) => Numbers(left) + Numbers(right)
    case Alt(left, right) => Numbers(left) + Numbers(right)
    case Group(number, body) => {number} + Numbers(body)
    case Repeat(body, _, _, _) => Numbers(body)
    case _ => {}
  }

  /** Group `number` is in the pattern, around `body`. */
  predicate HasGroup(node: Node, number: nat, body: Node) {
    match node
    case Cat(left, right) => HasGroup(left, number, body) || HasGroup(right, number, body)
    case Alt(left, right) => HasGroup(left, number, body) || HasGroup(right, number, body)
    case Group(n, b) => (n == number && b == body) || HasGroup(b, number, body)
    case Repeat(b, _, _, _) => HasGroup(b, number, body)
    case _ => false
  }

  /** No number is given twice. */
  predicate OneNumberEach(node: Node) {
    match node
    case Cat(left, right) => OneNumberEach(left) && OneNumberEach(right) && Numbers(left) !! Numbers(right)
    case Alt(left, right) => OneNumberEach(left) && OneNumberEach(right) && Numbers(left) !! Numbers(right)
    case Group(number, body) => OneNumberEach(body) && number !in Numbers(body)
    case Repeat(body, _, _, _) => OneNumberEach(body)
    case _ => true
  }

  lemma {:induction false} GroupIsNumbered(node: Node, number: nat, body: Node)
    requires HasGroup(node, number, body)
    ensures number in Numbers(node)
  {
    match node
    case Cat(left, right) =>
      if HasGroup(left, number, body) {
        GroupIsNumbered(left, number, body);
      } else {
        GroupIsNumbered(right, number, body);
      }
    case Alt(left, right) =>
      if HasGroup(left, number, body) {
        GroupIsNumbered(left, number, body);
      } else {
        GroupIsNumbered(right, number, body);
      }
    case Group(n, b) =>
      if !(n == number && b == body) {
        GroupIsNumbered(b, number, body);
      }
    case Repeat(b, _, _, _) => GroupIsNumbered(b, number, body);
  }

  // ---------- what a parse records ----------

  function SlotOf(saves: map<nat, nat>, slot: nat): int {
    if slot in saves then saves[slot] else -1
  }

  predicate SameGroup(i: Here, j: Here, number: nat) {
    SlotOf(i.saves, number * 2) == SlotOf(j.saves, number * 2) && SlotOf(i.saves, number * 2 + 1) == SlotOf(j.saves, number * 2 + 1)
  }

  /** The two slots of a group are the ends of a piece between two places that it matches. */
  ghost predicate Delimits(text: seq<Byte>, body: Node, from: int, to: int, first: nat, last: nat) {
    from <= first <= last <= to && Denotes(body, text, first, last)
  }

  ghost predicate Records(text: seq<Byte>, body: Node, number: nat, i: Here, j: Here) {
    var first, last := SlotOf(j.saves, number * 2), SlotOf(j.saves, number * 2 + 1);
    SameGroup(i, j, number) || (0 <= first && 0 <= last && Delimits(text, body, i.at, j.at, first, last))
  }

  /** A group that is not in the pattern is left as it was. */
  lemma {:induction false} OthersStay(node: Node, text: seq<Byte>, i: Here, j: Here, number: nat)
    requires Parses(node, text, i, j) && number !in Numbers(node)
    ensures SameGroup(i, j, number)
    decreases node, 0
  {
    match node
    case Cat(left, right) =>
      var k: Here :| Parses(left, text, i, k) && Parses(right, text, k, j);
      OthersStay(left, text, i, k, number);
      OthersStay(right, text, k, j, number);
    case Alt(left, right) =>
      if Parses(left, text, i, j) {
        OthersStay(left, text, i, j, number);
      } else {
        OthersStay(right, text, i, j, number);
      }
    case Group(n, body) =>
      var k: Here :| Parses(body, text, i.Saved(n * 2), k) && j == k.Saved(n * 2 + 1);
      OthersStay(body, text, i.Saved(n * 2), k, number);
    case Repeat(body, least, most, _) =>
      var k: nat :| Allowed(least, most, k) && ParsesPower(body, text, k, i, j);
      OthersStayInPower(body, text, k, i, j, number);
    case _ =>
  }

  lemma {:induction false} OthersStayInPower(node: Node, text: seq<Byte>, k: nat, i: Here, j: Here, number: nat)
    requires ParsesPower(node, text, k, i, j) && number !in Numbers(node)
    ensures SameGroup(i, j, number)
    decreases node, k + 1
  {
    if k > 0 {
      var mid: Here :| Parses(node, text, i, mid) && ParsesPower(node, text, k - 1, mid, j);
      OthersStay(node, text, i, mid, number);
      OthersStayInPower(node, text, k - 1, mid, j, number);
    }
  }

  lemma {:induction false} DenotesForward(node: Node, text: seq<Byte>, i: nat, j: nat)
    requires Denotes(node, text, i, j)
    ensures i <= j
    decreases node, 0
  {
    match node
    case Cat(left, right) =>
      var k: nat :| Denotes(left, text, i, k) && Denotes(right, text, k, j);
      DenotesForward(left, text, i, k);
      DenotesForward(right, text, k, j);
    case Alt(left, right) =>
      if Denotes(left, text, i, j) {
        DenotesForward(left, text, i, j);
      } else {
        DenotesForward(right, text, i, j);
      }
    case Group(_, body) => DenotesForward(body, text, i, j);
    case Repeat(body, least, most, _) =>
      var k: nat :| Allowed(least, most, k) && Power(body, text, k, i, j);
      PowerForward(body, text, k, i, j);
    case _ =>
  }

  lemma {:induction false} PowerForward(node: Node, text: seq<Byte>, k: nat, i: nat, j: nat)
    requires Power(node, text, k, i, j)
    ensures i <= j
    decreases node, k + 1
  {
    if k > 0 {
      var mid: nat :| Denotes(node, text, i, mid) && Power(node, text, k - 1, mid, j);
      DenotesForward(node, text, i, mid);
      PowerForward(node, text, k - 1, mid, j);
    }
  }

  lemma ParsesForward(node: Node, text: seq<Byte>, i: Here, j: Here)
    requires Parses(node, text, i, j)
    ensures i.at <= j.at
  {
    ParsedIsDenoted(node, text, i, j);
    DenotesForward(node, text, i.at, j.at);
  }

  lemma ParsesPowerForward(node: Node, text: seq<Byte>, k: nat, i: Here, j: Here)
    requires ParsesPower(node, text, k, i, j)
    ensures i.at <= j.at
  {
    ParsedPowerIsPower(node, text, k, i, j);
    PowerForward(node, text, k, i.at, j.at);
  }

  lemma RecordsThrough(text: seq<Byte>, body: Node, number: nat, i: Here, k: Here, j: Here)
    requires i.at <= k.at <= j.at
    requires Records(text, body, number, i, k) && Records(text, body, number, k, j)
    ensures Records(text, body, number, i, j)
  {
    hide Denotes;
  }

  /** A parse leaves a group as it was, or records a piece that its body matches. */
  lemma {:induction false} ParseRecords(node: Node, text: seq<Byte>, i: Here, j: Here, number: nat, body: Node)
    requires Parses(node, text, i, j) && OneNumberEach(node) && HasGroup(node, number, body)
    ensures Records(text, body, number, i, j)
    decreases node, 0
  {
    hide Denotes, Records;
    match node
    case Cat(left, right) =>
      var k: Here :| Parses(left, text, i, k) && Parses(right, text, k, j);
      ParsesForward(left, text, i, k);
      ParsesForward(right, text, k, j);
      OneSide(left, text, i, k, number, body, right);
      OneSide(right, text, k, j, number, body, left);
      RecordsThrough(text, body, number, i, k, j);
    case Alt(left, right) =>
      if Parses(left, text, i, j) {
        OneSide(left, text, i, j, number, body, right);
      } else {
        OneSide(right, text, i, j, number, body, left);
      }
    case Group(n, b) =>
      var k: Here :| Parses(b, text, i.Saved(n * 2), k) && j == k.Saved(n * 2 + 1);
      GroupRecords(n, b, text, i, k, number, body);
    case Repeat(b, least, most, _) =>
      var k: nat :| Allowed(least, most, k) && ParsesPower(b, text, k, i, j);
      PowerRecords(b, text, k, i, j, number, body);
  }

  /** One of two sides: the group is in it, or it is in the other and this one leaves it alone. */
  lemma {:induction false} OneSide(node: Node, text: seq<Byte>, i: Here, j: Here, number: nat, body: Node, other: Node)
    requires Parses(node, text, i, j) && OneNumberEach(node) && Numbers(node) !! Numbers(other)
    requires HasGroup(node, number, body) || HasGroup(other, number, body)
    ensures Records(text, body, number, i, j)
    decreases node, 1
  {
    hide Denotes, Delimits, Parses;
    if HasGroup(node, number, body) {
      ParseRecords(node, text, i, j, number, body);
    } else {
      GroupIsNumbered(other, number, body);
      OthersStay(node, text, i, j, number);
    }
  }

  lemma {:induction false} GroupRecords(n: nat, b: Node, text: seq<Byte>, i: Here, k: Here, number: nat, body: Node)
    requires OneNumberEach(Group(n, b)) && HasGroup(Group(n, b), number, body) && Parses(b, text, i.Saved(n * 2), k)
    ensures Records(text, body, number, i, k.Saved(n * 2 + 1))
    decreases b, 1
  {
    hide Denotes, Parses;
    ParsesForward(b, text, i.Saved(n * 2), k);
    if n == number {
      if HasGroup(b, number, body) {
        GroupIsNumbered(b, number, body);
      }
      OthersStay(b, text, i.Saved(n * 2), k, n);
      ParsedIsDenoted(b, text, i.Saved(n * 2), k);
    } else {
      ParseRecords(b, text, i.Saved(n * 2), k, number, body);
    }
  }

  lemma {:induction false} PowerRecords(node: Node, text: seq<Byte>, k: nat, i: Here, j: Here, number: nat, body: Node)
    requires ParsesPower(node, text, k, i, j) && OneNumberEach(node) && HasGroup(node, number, body)
    ensures Records(text, body, number, i, j)
    decreases node, k + 1
  {
    hide Denotes, Delimits, Parses;
    if k > 0 {
      var mid: Here :| Parses(node, text, i, mid) && ParsesPower(node, text, k - 1, mid, j);
      ParsesForward(node, text, i, mid);
      ParsesPowerForward(node, text, k - 1, mid, j);
      ParseRecords(node, text, i, mid, number, body);
      PowerRecords(node, text, k - 1, mid, j, number, body);
      RecordsThrough(text, body, number, i, mid, j);
    }
  }

  // ---------- threads and runs ----------

  /** A group records just what it was matched by. */
  lemma GroupIsRecorded(number: nat, body: Node, text: seq<Byte>, i: Here, j: Here)
    requires Parses(Group(number, body), text, i, j) && number !in Numbers(body)
    ensures SlotOf(j.saves, number * 2) == i.at && SlotOf(j.saves, number * 2 + 1) == j.at
  {
    hide Numbers;
    var k: Here :| Parses(body, text, i.Saved(number * 2), k) && j == k.Saved(number * 2 + 1);
    OthersStay(body, text, i.Saved(number * 2), k, number);
  }

  /** Of a group that is repeated the last time is recorded. */
  lemma {:induction false} LastTimeIsRecorded(number: nat, body: Node, text: seq<Byte>, n: nat, i: Here, j: Here) returns (last: Here)
    requires ParsesPower(Group(number, body), text, n, i, j) && n > 0 && number !in Numbers(body)
    ensures ParsesPower(Group(number, body), text, n - 1, i, last) && Parses(Group(number, body), text, last, j)
    ensures SlotOf(j.saves, number * 2) == last.at && SlotOf(j.saves, number * 2 + 1) == j.at
    decreases n
  {
    hide Parses, Numbers;
    var mid: Here :| Parses(Group(number, body), text, i, mid) && ParsesPower(Group(number, body), text, n - 1, mid, j);
    if n == 1 {
      last := i;
      GroupIsRecorded(number, body, text, i, j);
    } else {
      last := LastTimeIsRecorded(number, body, text, n - 1, mid, j);
    }
  }

  /** The slots of a thread hold what has been recorded. */
  predicate Recorded(slots: seq<int>, saves: map<nat, nat>) {
    forall slot :: 0 <= slot < |slots| ==> slots[slot] == SlotOf(saves, slot)
  }

  lemma {:induction false} LeadsIsRun(p: Program, text: seq<Byte>, t: Thread, u: Thread, n: nat, saves: map<nat, nat>)
    returns (after: map<nat, nat>)
    requires Valid(p) && ThreadOk(p, text, t) && Leads(p, text, t, u, n) && Recorded(t.saves, saves)
    ensures Run(p.code, p.ranges, text, SpotOf(t.config, saves), SpotOf(u.config, after), n) && Recorded(u.saves, after)
    decreases n
  {
    hide Next, Edge, Valid;
    if n == 0 {
      after := saves;
    } else {
      var v :| v in After(p, text, t) && Leads(p, text, v, u, n - 1);
      var past := SavesPast(p, t.config, saves);
      StepHolds(p, text, t, v, saves);
      NextIsEdge(p, text, t.config, saves, v.config, past);
      after := LeadsIsRun(p, text, v, u, n - 1, past);
    }
  }

  lemma StepHolds(p: Program, text: seq<Byte>, t: Thread, v: Thread, saves: map<nat, nat>)
    requires Valid(p) && ThreadOk(p, text, t) && v in After(p, text, t) && Recorded(t.saves, saves)
    ensures v.config in Next(p, text, t.config) && Recorded(v.saves, SavesPast(p, t.config, saves))
  {
    hide Next;
  }

  /** The spans are those of one parse of the pattern: each group took no part and has none, or
      the last piece it was found to match. */
  ghost predicate SpansOf(node: Node, text: seq<Byte>, spans: seq<int>) {
    && |spans| >= 2 && spans[0] >= 0 && spans[1] >= 0
    && exists saves: map<nat, nat> ::
         && Parses(node, text, Here(spans[0], map[0 := spans[0]]), Here(spans[1], saves))
         && forall slot :: 2 <= slot < |spans| ==> spans[slot] == SlotOf(saves, slot)
  }

  /** What a search of a pattern's program reports are the spans of a parse. */
  lemma ReportedIsParsed(node: Node, ranges: seq<Range>, slots: nat, text: seq<Byte>, found: seq<int>, s: nat, u: Thread, n: nat)
    requires InTable(node, ranges) && GroupsBelow(node, slots) && slots >= 2 && s <= |text|
    requires Valid(ProgramOf(node, ranges, slots)) && Reported(ProgramOf(node, ranges, slots), text, found, s, u, n)
    ensures SpansOf(node, text, found)
  {
    hide Leads, Gen, Parses, InTable, GroupsBelow, Valid;
    var p, start: map<nat, nat> := ProgramOf(node, ranges, slots), map[0 := s];
    var after := LeadsIsRun(p, text, StartThread(p, s), u, n, start);
    LeadsReaches(p, text, StartThread(p, s), u, n);
    RunIsParse(node, ranges, slots, text, Here(s, start), u.config.pc, Here(u.config.at, after), n);
  }

  /** Each group has no span, or that of a piece inside the match that its body matches. */
  ghost predicate GroupsDelimit(node: Node, text: seq<Byte>, spans: seq<int>) {
    |spans| >= 2 && forall number: nat, body :: HasGroup(node, number, body) ==>
      && number * 2 + 1 < |spans|
      && var first, last := spans[number * 2], spans[number * 2 + 1];
         first == last == -1 || (0 <= first && 0 <= last && Delimits(text, body, spans[0], spans[1], first, last))
  }

  lemma SpansDelimit(node: Node, text: seq<Byte>, spans: seq<int>)
    requires SpansOf(node, text, spans) && OneNumberEach(node) && GroupsBelow(node, |spans|)
    ensures GroupsDelimit(node, text, spans)
  {
    hide Denotes, Parses, HasGroup, GroupsBelow;
    var start: map<nat, nat> := map[0 := spans[0]];
    var saves: map<nat, nat> :|
      && Parses(node, text, Here(spans[0], start), Here(spans[1], saves))
      && forall slot :: 2 <= slot < |spans| ==> spans[slot] == SlotOf(saves, slot);
    forall number: nat, body | HasGroup(node, number, body)
      ensures number * 2 + 1 < |spans|
      ensures var first, last := spans[number * 2], spans[number * 2 + 1];
              first == last == -1 || (0 <= first && 0 <= last && Delimits(text, body, spans[0], spans[1], first, last))
    {
      GroupIsBelow(node, number, body, |spans|);
      ParseRecords(node, text, Here(spans[0], start), Here(spans[1], saves), number, body);
    }
  }

  lemma {:induction false} GroupIsBelow(node: Node, number: nat, body: Node, slots: nat)
    requires HasGroup(node, number, body) && GroupsBelow(node, slots)
    ensures 1 <= number && number * 2 + 1 < slots
  {
    match node
    case Cat(left, right) =>
      if HasGroup(left, number, body) {
        GroupIsBelow(left, number, body, slots);
      } else {
        GroupIsBelow(right, number, body, slots);
      }
    case Alt(left, right) =>
      if HasGroup(left, number, body) {
        GroupIsBelow(left, number, body, slots);
      } else {
        GroupIsBelow(right, number, body, slots);
      }
    case Group(n, b) =>
      if !(n == number && b == body) {
        GroupIsBelow(b, number, body, slots);
      }
    case Repeat(b, _, _, _) => GroupIsBelow(b, number, body, slots);
  }
}
