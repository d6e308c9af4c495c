/** Patterns as they are written, and that they are read as what was written. */
module RegexNotation {
  import opened Common
  import opened Utf8
  import opened RegexProgram
  import opened RegexTree
  import opened RegexSyntax

  /** Alternatives, each of which is terms in a row. */
  datatype Expr = Only(terms: seq<Term>) | Or(terms: seq<Term>, rest: Expr)

  datatype Term = Term(item: Item, times: Times)

  datatype Item =
    | Character(c: Spelling)
    | AnyCharacter
    | Start
    | End
    | WordEdge
    | NoWordEdge
    | Kind(letter: Byte)
    | Class(negated: bool, members: seq<Member>)
    | Capture(body: Expr)
    | Plain(body: Expr)

  /** A character: itself, with a backslash where it would mean something else; by one of the
      letters that stand for a control character; or by two hexadecimal digits. */
  datatype Spelling = Itself(c: nat) | Letter(letter: Byte) | Code(high: Byte, low: Byte)

  datatype Member = One(c: Spelling) | Between(low: Spelling, high: Spelling) | Shorthands(letter: Byte)

  datatype Times = Once | Many(count: Count, lazy: bool)

  datatype Count = Star | Plus | Optional | Exactly(n: nat) | AtLeast(n: nat) | FromTo(n: nat, m: nat)

  // ---------- what is written ----------

  predicate IsPunctuation(c: nat) {
    33 <= c < 127 && !IsDigit(c) && !IsLetter(c)
  }

  predicate IsControlLetter(b: Byte) {
    b == Ascii('n') || b == Ascii('t') || b == Ascii('r') || b == Ascii('f') || b == Ascii('v')
  }

  predicate SpellingOk(c: Spelling) {
    match c
    case Itself(c) => 0 < c < BAD_BYTE
    case Letter(letter) => IsControlLetter(letter)
    case Code(high, low) => Hex(high).Some? && Hex(low).Some?
  }

  function ValueOf(c: Spelling): nat
    requires SpellingOk(c)
  {
    match c
    case Itself(c) => c
    case Letter(letter) =>
      if letter == Ascii('n') then 10
      else if letter == Ascii('t') then 9
      else if letter == Ascii('r') then 13
      else if letter == Ascii('f') then 12
      else 11
    case Code(high, low) => Hex(high).value * 16 + Hex(low).value
  }

  function WriteChar(c: Spelling): (r: seq<Byte>)
    requires SpellingOk(c)
    ensures r != [] && NoNul(r)
  {
    match c
    case Itself(c) => if IsPunctuation(c) then [Ascii('\\'), c] else Encode(c)
    case Letter(letter) => [Ascii('\\'), letter]
    case Code(high, low) => [Ascii('\\'), Ascii('x'), high, low]
  }

  predicate MemberOk(m: Member) {
    match m
    case One(c) => SpellingOk(c)
    case Between(low, high) => SpellingOk(low) && SpellingOk(high) && ValueOf(low) <= ValueOf(high)
    case Shorthands(letter) => Shorthand(letter).Some?
  }

  function WriteMember(m: Member): (r: seq<Byte>)
    requires MemberOk(m)
    ensures NoNul(r)
  {
    match m
    case One(c) => WriteChar(c)
    case Between(low, high) => WriteChar(low) + [Ascii('-')] + WriteChar(high)
    case Shorthands(letter) => [Ascii('\\'), letter]
  }

  function MemberRanges(m: Member): seq<Range>
    requires MemberOk(m)
  {
    match m
    case One(c) => [Range(ValueOf(c), ValueOf(c))]
    case Between(low, high) => [Range(ValueOf(low), ValueOf(high))]
    case Shorthands(letter) => Shorthand(letter).value
  }

  predicate MembersOk(ms: seq<Member>) {
    forall i :: 0 <= i < |ms| ==> MemberOk(ms[i])
  }

  function WriteMembers(ms: seq<Member>): (r: seq<Byte>)
    requires MembersOk(ms)
    ensures NoNul(r)
  {
    if ms == [] then [] else WriteMember(ms[0]) + WriteMembers(ms[1..])
  }

  function MembersRanges(ms: seq<Member>): seq<Range>
    requires MembersOk(ms)
  {
    if ms == [] then [] else MemberRanges(ms[0]) + MembersRanges(ms[1..])
  }

  function Digits(n: nat): (r: seq<Byte>)
    ensures r != [] && forall i :: 0 <= i < |r| ==> IsDigit(r[i])
  {
    if n < 10 then [Ascii('0') + n] else Digits(n / 10) + [Ascii('0') + n % 10]
  }

  predicate CountOk(count: Count) {
    match count
    case Exactly(n) => n <= 1000
    case AtLeast(n) => n <= 1000
    case FromTo(n, m) => n <= m <= 1000
    case _ => true
  }

  function WriteCount(count: Count): (r: seq<Byte>)
    ensures r != [] && NoNul(r)
  {
    match count
    case Star => [Ascii('*')]
    case Plus => [Ascii('+')]
    case Optional => [Ascii('?')]
    case Exactly(n) => [Ascii('{')] + Digits(n) + [Ascii('}')]
    case AtLeast(n) => [Ascii('{')] + Digits(n) + [Ascii(','), Ascii('}')]
    case FromTo(n, m) => [Ascii('{')] + Digits(n) + [Ascii(',')] + Digits(m) + [Ascii('}')]
  }

  function Least(count: Count): nat {
    match count
    case Star => 0
    case Plus => 1
    case Optional => 0
    case Exactly(n) => n
    case AtLeast(n) => n
    case FromTo(n, _) => n
  }

  /** The most that a count lets through, -1 when there is no such number. */
  function Most(count: Count): int {
    match count
    case Star => -1
    case Plus => -1
    case Optional => 1
    case Exactly(n) => n
    case AtLeast(_) => -1
    case FromTo(_, m) => m
  }

  function WriteTimes(times: Times): (r: seq<Byte>)
    ensures NoNul(r)
  {
    match times
    case Once => []
    case Many(count, lazy) => WriteCount(count) + (if lazy then [Ascii('?')] else [])
  }

  predicate ExprOk(e: Expr)
    decreases e
  {
    TermsOk(e.terms) && (e.Or? ==> ExprOk(e.rest))
  }

  predicate TermsOk(ts: seq<Term>)
    decreases ts
  {
    forall i :: 0 <= i < |ts| ==> TermOk(ts[i])
  }

  predicate TermOk(t: Term)
    decreases t
  {
    ItemOk(t.item) && (t.times.Many? ==> CountOk(t.times.count))
  }

  predicate ItemOk(a: Item)
    decreases a
  {
    match a
    case Character(c) => SpellingOk(c)
    case Kind(letter) => Shorthand(letter).Some?
    case Class(_, members) => members != [] && MembersOk(members)
    case Capture(body) => ExprOk(body)
    case Plain(body) => ExprOk(body)
    case _ => true
  }

  function Write(e: Expr): (r: seq<Byte>)
    requires ExprOk(e)
    ensures NoNul(r)
    decreases e
  {
    match e
    case Only(terms) => WriteTerms(terms)
    case Or(terms, rest) => WriteTerms(terms) + [Ascii('|')] + Write(rest)
  }

  function WriteTerms(ts: seq<Term>): (r: seq<Byte>)
    requires TermsOk(ts)
    ensures NoNul(r)
    decreases ts
  {
    if ts == [] then [] else WriteTerm(ts[0]) + WriteTerms(ts[1..])
  }

  function WriteTerm(t: Term): (r: seq<Byte>)
    requires TermOk(t)
    ensures NoNul(r)
    decreases t
  {
    WriteItem(t.item) + WriteTimes(t.times)
  }

  function WriteItem(a: Item): (r: seq<Byte>)
    requires ItemOk(a)
    ensures r != [] && NoNul(r)
    decreases a
  {
    match a
    case Character(c) => WriteChar(c)
    case AnyCharacter => [Ascii('.')]
    case Start => [Ascii('^')]
    case End => [Ascii('$')]
    case WordEdge => [Ascii('\\'), Ascii('b')]
    case NoWordEdge => [Ascii('\\'), Ascii('B')]
    case Kind(letter) => [Ascii('\\'), letter]
    case Class(negated, members) =>
      (if negated then [Ascii('['), Ascii('^')] else [Ascii('[')]) + WriteMembers(members) + [Ascii(']')]
    case Capture(body) => [Ascii('(')] + Write(body) + [Ascii(')')]
    case Plain(body) => [Ascii('('), Ascii('?'), Ascii(':')] + Write(body) + [Ascii(')')]
  }

  // ---------- what it means ----------

  /** How many groups there are; they are numbered as they open. */
  function Groups(e: Expr): nat
    decreases e
  {
    GroupsIn(e.terms) + (if e.Or? then Groups(e.rest) else 0)
  }

  function GroupsIn(ts: seq<Term>): nat
    decreases ts
  {
    if ts == [] then 0 else TermGroups(ts[0]) + GroupsIn(ts[1..])
  }

  function TermGroups(t: Term): nat
    decreases t
  {
    ItemGroups(t.item)
  }

  function ItemGroups(a: Item): nat
    decreases a
  {
    match a
    case Capture(body) => 1 + Groups(body)
    case Plain(body) => Groups(body)
    case _ => 0
  }

  /** The ranges of all classes, in order. */
  function Ranges(e: Expr): seq<Range>
    requires ExprOk(e)
    decreases e
  {
    RangesIn(e.terms) + (if e.Or? then Ranges(e.rest) else [])
  }

  function RangesIn(ts: seq<Term>): seq<Range>
    requires TermsOk(ts)
    decreases ts
  {
    if ts == [] then [] else TermRanges(ts[0]) + RangesIn(ts[1..])
  }

  function TermRanges(t: Term): seq<Range>
    requires TermOk(t)
    decreases t
  {
    ItemRanges(t.item)
  }

  function ItemRanges(a: Item): seq<Range>
    requires ItemOk(a)
    decreases a
  {
    match a
    case Kind(letter) => Shorthand(letter).value
    case Class(_, members) => MembersRanges(members)
    case Capture(body) => Ranges(body)
    case Plain(body) => Ranges(body)
    case _ => []
  }

  /** The tree of an expression before which there are `g` groups and `k` ranges. */
  function Tree(e: Expr, g: nat, k: nat, flags: Flags): Node
    requires ExprOk(e)
    decreases e
  {
    var left := TermsTree(e.terms, Empty, g, k, flags);
    match e
    case Only(_) => left
    case Or(terms, rest) => Alt(left, Tree(rest, g + GroupsIn(terms), k + |RangesIn(terms)|, flags))
  }

  function TermsTree(ts: seq<Term>, soFar: Node, g: nat, k: nat, flags: Flags): Node
    requires TermsOk(ts)
    decreases ts
  {
    if ts == [] then soFar
    else
      TermsTree(ts[1..], Cat(soFar, TermTree(ts[0], g, k, flags)), g + TermGroups(ts[0]), k + |TermRanges(ts[0])|, flags)
  }

  function TermTree(t: Term, g: nat, k: nat, flags: Flags): Node
    requires TermOk(t)
    decreases t
  {
    var node := ItemTree(t.item, g, k, flags);
    match t.times
    case Once => node
    case Many(count, lazy) => Repeat(node, Least(count), Most(count), lazy)
  }

  function ItemTree(a: Item, g: nat, k: nat, flags: Flags): Node
    requires ItemOk(a)
    decreases a
  {
    match a
    case Character(c) => Lit(ValueOf(c), flags.icase)
    case AnyCharacter => Dot(flags.dotall)
    case Start => At(if flags.multi then LineStart else TextStart)
    case End => At(if flags.multi then LineEnd else TextEnd)
    case WordEdge => At(Boundary)
    case NoWordEdge => At(NoBoundary)
    case Kind(letter) => Set(k, Shorthand(letter).value, false, false)
    case Class(negated, members) => Set(k, MembersRanges(members), negated, flags.icase)
    case Capture(body) => Group(g + 1, Tree(body, g + 1, k, flags))
    case Plain(body) => Tree(body, g, k, flags)
  }

  // ---------- what is written is what is read ----------

  /** The character at `p` is spelled `c`, and reads as it. */
  lemma EncodedRead(s: seq<Byte>, p: nat, c: nat)
    requires c < BAD_BYTE && Has(s, p, Encode(c))
    ensures p < |s| && Decode(s, p) == Decoded(c, |Encode(c)|)
  {
    var e := Encode(c);
    assert s[p..] == e + s[p + |e|..];
    DecodeEncode(c, s[p + |e|..]);
    DecodeSuffix(s, p);
  }

  /** No character but the plain ones is written with its own first byte. */
  lemma FirstByteOf(c: nat)
    requires c < BAD_BYTE
    ensures Encode(c)[0] == (if c < 128 then c else Encode(c)[0]) && (c >= 128 ==> Encode(c)[0] >= 128)
  {
  }

  lemma EscapeRead(s: seq<Byte>, p: nat, c: Spelling)
    requires SpellingOk(c) && Has(s, p, WriteChar(c)) && WriteChar(c)[0] == Ascii('\\')
    ensures Escape(s, p + 1) == Some((ValueOf(c), p + |WriteChar(c)|))
    ensures !IsLetter(Peek(s, p + 1)) || Peek(s, p + 1) == Ascii('x') || IsControlLetter(Peek(s, p + 1))
  {
    var w := WriteChar(c);
    HasByte(s, p, w, 0);
    match c
    case Itself(x) =>
      FirstByteOf(x);
      HasByte(s, p, w, 1);
      assert Decode(s, p + 1) == Decoded(x, 1);
    case Letter(letter) => HasByte(s, p, w, 1);
    case Code(high, low) =>
      HasByte(s, p, w, 1);
      HasByte(s, p, w, 2);
      HasByte(s, p, w, 3);
  }

  /** A character that is not written with a backslash is no sign of anything. */
  lemma PlainRead(s: seq<Byte>, p: nat, c: Spelling)
    requires SpellingOk(c) && Has(s, p, WriteChar(c)) && WriteChar(c)[0] != Ascii('\\')
    ensures p < |s| && Decode(s, p) == Decoded(ValueOf(c), |WriteChar(c)|)
    ensures s[p] != 0 && !IsPunctuation(s[p])
  {
    FirstByteOf(c.c);
    HasByte(s, p, WriteChar(c), 0);
    EncodedRead(s, p, c.c);
  }

  // ---------- classes ----------

  lemma StartRead(s: seq<Byte>, p: nat, c: Spelling)
    requires SpellingOk(c) && Has(s, p, WriteChar(c))
    ensures p < |s| && RangeStart(s, p) == Some((ValueOf(c), p + |WriteChar(c)|))
    ensures RangeEnd(s, p) == Some((ValueOf(c), p + |WriteChar(c)|))
    ensures s[p] != 0 && s[p] != Ascii(']') && s[p] != Ascii('^') && s[p] != Ascii('-')
    ensures s[p] == Ascii('\\') ==> Shorthand(Peek(s, p + 1)).None?
  {
    hide Decode, Escape, Encode, ValueOf, NoNul;
    HasByte(s, p, WriteChar(c), 0);
    if WriteChar(c)[0] == Ascii('\\') {
      EscapeRead(s, p, c);
    } else {
      PlainRead(s, p, c);
    }
  }

  lemma MemberRead(s: seq<Byte>, p: nat, m: Member, any: bool, before: seq<Range>)
    requires MemberOk(m) && Has(s, p, WriteMember(m)) && Peek(s, p + |WriteMember(m)|) != Ascii('-')
    ensures ClassMembers(s, p, any, before) == ClassMembers(s, p + |WriteMember(m)|, true, before + MemberRanges(m))
    ensures p < |s| && s[p] != Ascii('^') && s[p] != Ascii('-')
  {
    hide RangeStart, RangeEnd, WriteChar, ValueOf, NoNul, SpellingOk, Shorthand;
    match m
    case One(c) => StartRead(s, p, c);
    case Between(low, high) =>
      var a, b := WriteChar(low), WriteChar(high);
      HasSplit(s, p, a + [Ascii('-')], b);
      HasSplit(s, p, a, [Ascii('-')]);
      HasByte(s, p + |a|, [Ascii('-')], 0);
      StartRead(s, p, low);
      StartRead(s, p + |a| + 1, high);
    case Shorthands(letter) =>
      HasByte(s, p, WriteMember(m), 0);
      HasByte(s, p, WriteMember(m), 1);
  }

  function Closing(ms: seq<Member>): seq<Byte>
    requires MembersOk(ms)
  {
    WriteMembers(ms) + [Ascii(']')]
  }

  lemma ClosingMore(ms: seq<Member>)
    requires MembersOk(ms) && ms != []
    ensures MembersOk(ms[1..]) && Closing(ms) == WriteMember(ms[0]) + Closing(ms[1..])
    ensures |Closing(ms)| == |WriteMembers(ms)| + 1 && |Closing(ms)| == |WriteMember(ms[0])| + |Closing(ms[1..])|
    ensures MembersRanges(ms) == MemberRanges(ms[0]) + MembersRanges(ms[1..])
  {
    hide WriteMember, MemberRanges, NoNul;
    SeqAssoc(WriteMember(ms[0]), WriteMembers(ms[1..]), [Ascii(']')]);
  }

  lemma {:induction false} MembersRead(s: seq<Byte>, p: nat, ms: seq<Member>, any: bool, before: seq<Range>)
    requires MembersOk(ms) && (any || ms != []) && Has(s, p, Closing(ms))
    ensures ClassMembers(s, p, any, before) == Some((before + MembersRanges(ms), p + |Closing(ms)|))
    ensures (ms != [] ==> Peek(s, p) != Ascii('^')) && Peek(s, p) != Ascii('-')
    decreases |ms|
  {
    hide ClassMembers, WriteMember, MemberRanges, MembersRanges, MemberOk, Has, Closing, NoNul;
    if ms == [] {
      ClassEnds(s, p, before);
    } else {
      var w, rest := WriteMember(ms[0]), Closing(ms[1..]);
      ClosingMore(ms);
      HasSplit(s, p, w, rest);
      MembersRead(s, p + |w|, ms[1..], true, before + MemberRanges(ms[0]));
      MemberRead(s, p, ms[0], any, before);
      SeqAssoc(before, MemberRanges(ms[0]), MembersRanges(ms[1..]));
    }
  }

  lemma ClassEnds(s: seq<Byte>, p: nat, before: seq<Range>)
    requires Has(s, p, Closing([]))
    ensures ClassMembers(s, p, true, before) == Some((before + MembersRanges([]), p + |Closing([])|)) && Peek(s, p) == Ascii(']')
  {
    HasByte(s, p, Closing([]), 0);
    assert before + [] == before;
  }

  // ---------- counts ----------

  lemma {:induction false} DigitsRead(s: seq<Byte>, p: nat, n: nat)
    requires n <= MAX_REPEAT && Has(s, p, Digits(n))
    ensures IsDigit(Peek(s, p)) && Number(s, p, 0) == Number(s, p + |Digits(n)|, n)
    decreases n
  {
    if n < 10 {
      HasByte(s, p, Digits(n), 0);
      assert Number(s, p, 0) == Number(s, p + 1, n);
    } else {
      var more := [Ascii('0') + n % 10];
      HasSplit(s, p, Digits(n / 10), more);
      DigitsRead(s, p, n / 10);
      HasByte(s, p + |Digits(n / 10)|, more, 0);
    }
  }

  lemma NumberRead(s: seq<Byte>, p: nat, n: nat, b: Byte)
    requires n <= MAX_REPEAT && Has(s, p, Digits(n) + [b]) && !IsDigit(b)
    ensures IsDigit(Peek(s, p)) && Number(s, p, 0) == Some((n, p + |Digits(n)|)) && Peek(s, p + |Digits(n)|) == b
  {
    HasSplit(s, p, Digits(n), [b]);
    DigitsRead(s, p, n);
    HasByte(s, p + |Digits(n)|, [b], 0);
  }

  predicate RepeatsNothing(b: Byte) {
    b != Ascii('*') && b != Ascii('+') && b != Ascii('?') && b != Ascii('{')
  }

  /** A number in braces, and the byte after it. */
  lemma ThenNumber(s: seq<Byte>, p: nat, a: Byte, n: nat, b: Byte, rest: seq<Byte>)
    requires n <= MAX_REPEAT && !IsDigit(b) && Has(s, p, [a] + Digits(n) + ([b] + rest))
    ensures Peek(s, p) == a && IsDigit(Peek(s, p + 1)) && Number(s, p + 1, 0) == Some((n, p + 1 + |Digits(n)|))
    ensures Peek(s, p + 1 + |Digits(n)|) == b && Has(s, p + 1 + |Digits(n)|, [b] + rest)
  {
    hide Digits, Number, NoNul;
    HasSplit(s, p, [a] + Digits(n), [b] + rest);
    HasSplit(s, p, [a], Digits(n));
    HasByte(s, p, [a], 0);
    HasSplit(s, p + 1 + |Digits(n)|, [b], rest);
    HasJoin(s, p + 1, Digits(n), [b]);
    NumberRead(s, p + 1, n, b);
  }

  lemma HasJoin(s: seq<Byte>, p: nat, a: seq<Byte>, b: seq<Byte>)
    requires Has(s, p, a) && Has(s, p + |a|, b)
    ensures Has(s, p, a + b)
  {
  }

  lemma BracesRead(s: seq<Byte>, p: nat, count: Count)
    requires CountOk(count) && (count.Exactly? || count.AtLeast? || count.FromTo?) && Has(s, p, WriteCount(count))
    ensures Peek(s, p) == Ascii('{') && CountsAt(s, p) == Counts(Least(count), Most(count), p + |WriteCount(count)|)
  {
    hide Number, Digits, Has, Peek, NoNul;
    match count
    case Exactly(n) =>
      assert WriteCount(count) == [Ascii('{')] + Digits(n) + ([Ascii('}')] + []);
      ThenNumber(s, p, Ascii('{'), n, Ascii('}'), []);
    case AtLeast(n) =>
      var next := p + 1 + |Digits(n)|;
      assert WriteCount(count) == [Ascii('{')] + Digits(n) + ([Ascii(',')] + [Ascii('}')]);
      ThenNumber(s, p, Ascii('{'), n, Ascii(','), [Ascii('}')]);
      HasByte(s, next, [Ascii(',')] + [Ascii('}')], 1);
    case FromTo(n, m) =>
      var next := p + 1 + |Digits(n)|;
      var rest := Digits(m) + ([Ascii('}')] + []);
      assert WriteCount(count) == [Ascii('{')] + Digits(n) + ([Ascii(',')] + rest);
      ThenNumber(s, p, Ascii('{'), n, Ascii(','), rest);
      SeqAssoc([Ascii(',')], Digits(m), [Ascii('}')] + []);
      ThenNumber(s, next, Ascii(','), m, Ascii('}'), []);
  }

  lemma TimesRead(s: seq<Byte>, p: nat, times: Times)
    requires (times.Many? ==> CountOk(times.count)) && Has(s, p, WriteTimes(times))
    requires RepeatsNothing(Peek(s, p + |WriteTimes(times)|))
    ensures SuffixAt(s, p) ==
            if times.Once? then Suffix.Once
            else Suffix.Suffix(Least(times.count), Most(times.count), times.lazy, p + |WriteTimes(times)|)
  {
    hide CountsAt, Digits, NoNul, SuffixAt, Has, Peek, RepeatsNothing;
    if times.Once? {
      NoSuffix(s, p);
    } else {
      var w, mark := WriteCount(times.count), if times.lazy then [Ascii('?')] else [];
      HasSplit(s, p, w, mark);
      HasByte(s, p, w, 0);
      if times.lazy {
        HasByte(s, p + |w|, mark, 0);
      }
      if times.count.Exactly? || times.count.AtLeast? || times.count.FromTo? {
        BracesRead(s, p, times.count);
        BracesSuffix(s, p, times.lazy);
      } else {
        SignSuffix(s, p, times.lazy);
      }
    }
  }

  lemma NoSuffix(s: seq<Byte>, p: nat)
    requires RepeatsNothing(Peek(s, p))
    ensures SuffixAt(s, p) == Suffix.Once
  {
  }

  lemma BracesSuffix(s: seq<Byte>, p: nat, lazy: bool)
    requires Peek(s, p) == Ascii('{') && CountsAt(s, p).Counts?
    requires var next := CountsAt(s, p).at;
             if lazy then Peek(s, next) == Ascii('?') && RepeatsNothing(Peek(s, next + 1)) else RepeatsNothing(Peek(s, next))
    ensures var c := CountsAt(s, p); SuffixAt(s, p) == Suffix.Suffix(c.least, c.most, lazy, if lazy then c.at + 1 else c.at)
  {
    hide CountsAt;
  }

  lemma SignSuffix(s: seq<Byte>, p: nat, lazy: bool)
    requires Peek(s, p) == Ascii('*') || Peek(s, p) == Ascii('+') || Peek(s, p) == Ascii('?')
    requires if lazy then Peek(s, p + 1) == Ascii('?') && RepeatsNothing(Peek(s, p + 2)) else RepeatsNothing(Peek(s, p + 1))
    ensures SuffixAt(s, p) ==
            Suffix.Suffix(if Peek(s, p) == Ascii('+') then 1 else 0, if Peek(s, p) == Ascii('?') then 1 else -1, lazy,
                          if lazy then p + 2 else p + 1)
  {
    hide CountsAt;
  }

  // ---------- the pattern ----------

  /** Reading came to `node` and ended at `at`, with so many more groups and these more ranges. */
  predicate IsRead(r: Option<Read<Node>>, node: Node, at: nat, used: Used, groups: nat, ranges: seq<Range>) {
    && r.Some? && r.value.value == node && r.value.at == at
    && r.value.used.groups == used.groups + groups && r.value.used.ranges == used.ranges + ranges
  }

  lemma CharacterRead(s: seq<Byte>, p: nat, c: Spelling, base: nat, depth: nat, used: Used, flags: Flags)
    requires SpellingOk(c) && Has(s, p, WriteChar(c))
    ensures !EndsPieces(Peek(s, p)) && RepeatsNothing(Peek(s, p))
    ensures IsRead(Atom(s, p, base, depth, used, flags), Lit(ValueOf(c), flags.icase), p + |WriteChar(c)|, used, 0, [])
  {
    hide Decode, Escape, Encode, ValueOf, Alternatives, ClassMembers, NoNul;
    HasByte(s, p, WriteChar(c), 0);
    if WriteChar(c)[0] == Ascii('\\') {
      EscapeRead(s, p, c);
    } else {
      PlainRead(s, p, c);
    }
  }

  lemma ClassRead(s: seq<Byte>, p: nat, a: Item, base: nat, depth: nat, used: Used, flags: Flags)
    requires a.Class? && ItemOk(a) && Has(s, p, WriteItem(a))
    ensures !EndsPieces(Peek(s, p)) && RepeatsNothing(Peek(s, p))
    ensures IsRead(Atom(s, p, base, depth, used, flags), ItemTree(a, used.groups, |used.ranges|, flags), p + |WriteItem(a)|,
                   used, 0, ItemRanges(a))
  {
    hide Alternatives, ClassMembers, Escape, Decode, WriteMembers, MembersRanges, MembersOk, NoNul;
    var open: seq<Byte> := if a.negated then [Ascii('['), Ascii('^')] else [Ascii('[')];
    SeqAssoc(open, WriteMembers(a.members), [Ascii(']')]);
    HasSplit(s, p, open, Closing(a.members));
    HasByte(s, p, open, 0);
    if a.negated {
      HasByte(s, p, open, 1);
    }
    MembersRead(s, p + |open|, a.members, false, []);
    assert [] + MembersRanges(a.members) == MembersRanges(a.members);
  }

  lemma {:induction false} ItemRead(s: seq<Byte>, p: nat, a: Item, base: nat, depth: nat, used: Used, flags: Flags)
    requires ItemOk(a) && Has(s, p, WriteItem(a))
    ensures !EndsPieces(Peek(s, p)) && RepeatsNothing(Peek(s, p))
    ensures IsRead(Atom(s, p, base, depth, used, flags), ItemTree(a, used.groups, |used.ranges|, flags), p + |WriteItem(a)|,
                   used, ItemGroups(a), ItemRanges(a))
    decreases a
  {
    match a
    case Character(c) => CharacterRead(s, p, c, base, depth, used, flags);
    case Class(_, _) => ClassRead(s, p, a, base, depth, used, flags);
    case Capture(body) => CaptureRead(s, p, a, base, depth, used, flags);
    case Plain(body) => GroupRead(s, p, a, base, depth, used, flags);
    case _ => SignRead(s, p, a, base, depth, used, flags);
  }

  lemma SignRead(s: seq<Byte>, p: nat, a: Item, base: nat, depth: nat, used: Used, flags: Flags)
    requires ItemOk(a) && Has(s, p, WriteItem(a)) && !a.Character? && !a.Class? && !a.Capture? && !a.Plain?
    ensures !EndsPieces(Peek(s, p)) && RepeatsNothing(Peek(s, p))
    ensures IsRead(Atom(s, p, base, depth, used, flags), ItemTree(a, used.groups, |used.ranges|, flags), p + |WriteItem(a)|,
                   used, 0, ItemRanges(a))
  {
    hide Decode, Escape, Alternatives, ClassMembers, NoNul;
    HasByte(s, p, WriteItem(a), 0);
    if |WriteItem(a)| > 1 {
      HasByte(s, p, WriteItem(a), 1);
    }
  }

  lemma {:induction false} CaptureRead(s: seq<Byte>, p: nat, a: Item, base: nat, depth: nat, used: Used, flags: Flags)
    requires a.Capture? && ItemOk(a) && Has(s, p, WriteItem(a))
    ensures !EndsPieces(Peek(s, p)) && RepeatsNothing(Peek(s, p))
    ensures IsRead(Atom(s, p, base, depth, used, flags), ItemTree(a, used.groups, |used.ranges|, flags), p + |WriteItem(a)|,
                   used, ItemGroups(a), ItemRanges(a))
    decreases a, 0
  {
    hide Alternatives, ClassMembers, Escape, Decode, Write, Tree, Ranges, Groups, ExprOk, Gen, NoNul;
    var open, text := [Ascii('(')], Write(a.body);
    HasSplit(s, p, open + text, [Ascii(')')]);
    HasSplit(s, p, open, text);
    HasByte(s, p, open, 0);
    HasByte(s, p + 1 + |text|, [Ascii(')')], 0);
    var inside := used.(groups := used.groups + 1).Code(base + 1).Depth(depth + 1);
    ExprRead(s, p + 1, a.body, base + 1, depth + 1, inside, flags);
  }

  lemma {:induction false} GroupRead(s: seq<Byte>, p: nat, a: Item, base: nat, depth: nat, used: Used, flags: Flags)
    requires a.Plain? && ItemOk(a) && Has(s, p, WriteItem(a))
    ensures !EndsPieces(Peek(s, p)) && RepeatsNothing(Peek(s, p))
    ensures IsRead(Atom(s, p, base, depth, used, flags), ItemTree(a, used.groups, |used.ranges|, flags), p + |WriteItem(a)|,
                   used, ItemGroups(a), ItemRanges(a))
    decreases a, 0
  {
    hide Alternatives, ClassMembers, Escape, Decode, Write, Tree, Ranges, Groups, ExprOk, Gen, NoNul;
    var open: seq<Byte>, text := [Ascii('('), Ascii('?'), Ascii(':')], Write(a.body);
    HasSplit(s, p, open + text, [Ascii(')')]);
    HasSplit(s, p, open, text);
    HasByte(s, p, open, 0);
    HasByte(s, p, open, 1);
    HasByte(s, p, open, 2);
    HasByte(s, p + 3 + |text|, [Ascii(')')], 0);
    ExprRead(s, p + 3, a.body, base, depth + 1, used.Depth(depth + 1), flags);
  }

  lemma {:induction false} TermRead(s: seq<Byte>, p: nat, t: Term, base: nat, depth: nat, used: Used, flags: Flags)
    requires TermOk(t) && Has(s, p, WriteTerm(t)) && RepeatsNothing(Peek(s, p + |WriteTerm(t)|))
    ensures !EndsPieces(Peek(s, p)) && RepeatsNothing(Peek(s, p))
    ensures IsRead(Piece(s, p, base, depth, used, flags), TermTree(t, used.groups, |used.ranges|, flags), p + |WriteTerm(t)|,
                   used, TermGroups(t), TermRanges(t))
    decreases t
  {
    hide Atom, SuffixAt, WriteItem, WriteCount, ItemTree, ItemRanges, ItemGroups, ItemOk, Gen, NoNul;
    HasSplit(s, p, WriteItem(t.item), WriteTimes(t.times));
    ItemRead(s, p, t.item, base, depth, used, flags);
    TimesRead(s, p + |WriteItem(t.item)|, t.times);
  }

  lemma {:induction false} TermsRead(s: seq<Byte>, p: nat, ts: seq<Term>, base: nat, depth: nat, used: Used, flags: Flags, soFar: Node)
    requires TermsOk(ts) && Has(s, p, WriteTerms(ts)) && EndsPieces(Peek(s, p + |WriteTerms(ts)|))
    ensures RepeatsNothing(Peek(s, p))
    ensures IsRead(Pieces(s, p, base, depth, used, flags, soFar), TermsTree(ts, soFar, used.groups, |used.ranges|, flags),
                   p + |WriteTerms(ts)|, used, GroupsIn(ts), RangesIn(ts))
    decreases ts
  {
    hide Piece, WriteTerm, TermTree, TermRanges, TermGroups, TermOk, Gen, NoNul;
    if ts != [] {
      var w, rest := WriteTerm(ts[0]), WriteTerms(ts[1..]);
      HasSplit(s, p, w, rest);
      NextReads(s, p + |w|, ts[1..]);
      TermRead(s, p, ts[0], base + |Gen(soFar)|, depth, used, flags);
      var piece := Piece(s, p, base + |Gen(soFar)|, depth, used, flags).value;
      TermsRead(s, p + |w|, ts[1..], base, depth, piece.used, flags, Cat(soFar, piece.value));
      SeqAssoc(used.ranges, TermRanges(ts[0]), RangesIn(ts[1..]));
    }
  }

  /** Terms do not start with what would repeat the one before. */
  lemma NextReads(s: seq<Byte>, p: nat, ts: seq<Term>)
    requires TermsOk(ts) && Has(s, p, WriteTerms(ts)) && EndsPieces(Peek(s, p + |WriteTerms(ts)|))
    ensures RepeatsNothing(Peek(s, p))
  {
    hide WriteTimes, WriteItem, ItemOk, NoNul;
    if ts != [] {
      HasSplit(s, p, WriteTerm(ts[0]), WriteTerms(ts[1..]));
      HasSplit(s, p, WriteItem(ts[0].item), WriteTimes(ts[0].times));
      FirstOfItem(s, p, ts[0].item);
    }
  }

  lemma FirstOfItem(s: seq<Byte>, p: nat, a: Item)
    requires ItemOk(a) && Has(s, p, WriteItem(a))
    ensures RepeatsNothing(Peek(s, p))
  {
    HasByte(s, p, WriteItem(a), 0);
    if a.Character? && a.c.Itself? {
      FirstByteOf(a.c.c);
    }
  }

  lemma {:induction false} ExprRead(s: seq<Byte>, p: nat, e: Expr, base: nat, depth: nat, used: Used, flags: Flags)
    requires ExprOk(e) && Has(s, p, Write(e))
    requires Peek(s, p + |Write(e)|) == 0 || Peek(s, p + |Write(e)|) == Ascii(')')
    ensures RepeatsNothing(Peek(s, p))
    ensures IsRead(Alternatives(s, p, base, depth, used, flags), Tree(e, used.groups, |used.ranges|, flags), p + |Write(e)|,
                   used, Groups(e), Ranges(e))
    decreases e
  {
    hide Pieces, WriteTerms, TermsTree, RangesIn, GroupsIn, TermsOk, Gen, NoNul;
    match e
    case Only(terms) => TermsRead(s, p, terms, base, depth, used, flags, Empty);
    case Or(_, _) => OrRead(s, p, e, base, depth, used, flags);
  }

  lemma {:induction false} OrRead(s: seq<Byte>, p: nat, e: Expr, base: nat, depth: nat, used: Used, flags: Flags)
    requires e.Or? && ExprOk(e) && Has(s, p, Write(e))
    requires Peek(s, p + |Write(e)|) == 0 || Peek(s, p + |Write(e)|) == Ascii(')')
    ensures RepeatsNothing(Peek(s, p))
    ensures IsRead(Alternatives(s, p, base, depth, used, flags), Tree(e, used.groups, |used.ranges|, flags), p + |Write(e)|,
                   used, Groups(e), Ranges(e))
    decreases e, 0
  {
    hide Alternatives, Pieces, WriteTerms, TermsTree, RangesIn, GroupsIn, TermsOk, Gen, Has, Peek, NoNul;
    var w, bar: seq<Byte>, rest := WriteTerms(e.terms), [Ascii('|')], e.rest;
    HasSplit(s, p, w + bar, Write(rest));
    HasSplit(s, p, w, bar);
    HasByte(s, p + |w|, bar, 0);
    TermsRead(s, p, e.terms, base, depth, used, flags, Empty);
    var left := Pieces(s, p, base, depth, used, flags, Empty).value;
    var more := base + |Gen(left.value)| + 2;
    ExprRead(s, p + |w| + 1, rest, more, depth, left.used.Code(more), flags);
    MoreAlternatives(s, p, base, depth, used, flags, left);
    SeqAssoc(used.ranges, RangesIn(e.terms), Ranges(rest));
  }

  lemma MoreAlternatives(s: seq<Byte>, p: nat, base: nat, depth: nat, used: Used, flags: Flags, left: Read<Node>)
    requires Pieces(s, p, base, depth, used, flags, Empty) == Some(left) && Peek(s, left.at) == Ascii('|')
    ensures var more := base + |Gen(left.value)| + 2;
            var rest := Alternatives(s, left.at + 1, more, depth, left.used.Code(more), flags);
            Alternatives(s, p, base, depth, used, flags) ==
            if rest.None? then None else Some(Read(Alt(left.value, rest.value.value), rest.value.at, rest.value.used))
  {
    hide Pieces, Gen, NoNul;
  }

  /** Whatever is written is read as what it means: its groups numbered as they open, repeats
      binding before rows and rows before alternatives. */
  lemma ReadsWhatWasWritten(e: Expr, flags: Flags)
    requires ExprOk(e)
    ensures var r := Pattern(Write(e), flags);
            && r.Some? && r.value.value == Tree(e, 0, 0, flags)
            && r.value.used.groups == Groups(e) && r.value.used.ranges == Ranges(e)
  {
    hide Alternatives, Write, Tree, Gen, Groups, Ranges, ExprOk, NoNul;
    assert Write(e)[0..|Write(e)|] == Write(e);
    ExprRead(Write(e), 0, e, 0, 0, Used(0, [], 0, 0), flags);
    assert [] + Ranges(e) == Ranges(e);
  }
}
