/** What a written pattern matches, said of the notation itself: which characters, at which places,
    how often and in which order. */
module RegexMeaning {
  import opened Common
  import opened Utf8
  import opened RegexProgram
  import opened RegexRepeat
  import opened RegexTree
  import opened RegexSyntax
  import opened RegexNotation
  import opened RegexEngine
  import RegexBacktrack

  // ---------- characters ----------

  const DIGITS := "0123456789"
  const CAPITALS := "ABCDEFGHIJKLMNOPQRSTUVWXYZ"
  const SMALLS := "abcdefghijklmnopqrstuvwxyz"
  const WORD := DIGITS + CAPITALS + "_" + SMALLS
  const SPACES: seq<nat> := [9, 10, 11, 12, 13, 32]

  /** A capital letter and its small one. */
  predicate AreCases(c: nat, d: nat) {
    exists k :: 0 <= k < 26 && Ascii(CAPITALS[k]) == c && Ascii(SMALLS[k]) == d
  }

  /** The two cases of one letter. */
  predicate OtherCase(c: nat, d: nat) {
    AreCases(c, d) || AreCases(d, c)
  }

  /** What the letter of a shorthand stands for. */
  predicate KindHolds(letter: Byte, c: nat) {
    if letter == Ascii('d') then OneOf(c, DIGITS)
    else if letter == Ascii('D') then !OneOf(c, DIGITS)
    else if letter == Ascii('w') then OneOf(c, WORD)
    else if letter == Ascii('W') then !OneOf(c, WORD)
    else if letter == Ascii('s') then c in SPACES
    else if letter == Ascii('S') then c !in SPACES
    else false
  }

  lemma DigitsAre(c: nat)
    ensures OneOf(c, DIGITS) <==> 48 <= c <= 57
  {
    assert forall k :: 0 <= k < 10 ==> Ascii(DIGITS[k]) == 48 + k;
    if 48 <= c <= 57 {
      assert Ascii(DIGITS[c - 48]) == c;
    }
  }

  lemma LettersAre(c: nat)
    ensures OneOf(c, CAPITALS) <==> 65 <= c <= 90
    ensures OneOf(c, SMALLS) <==> 97 <= c <= 122
  {
    assert forall k :: 0 <= k < 26 ==> Ascii(CAPITALS[k]) == 65 + k && Ascii(SMALLS[k]) == 97 + k;
    if 65 <= c <= 90 {
      assert Ascii(CAPITALS[c - 65]) == c;
    }
    if 97 <= c <= 122 {
      assert Ascii(SMALLS[c - 97]) == c;
    }
  }

  lemma OneOfBoth(c: nat, a: string, b: string)
    ensures OneOf(c, a + b) <==> OneOf(c, a) || OneOf(c, b)
  {
    if k :| 0 <= k < |b| && Ascii(b[k]) == c {
      assert Ascii((a + b)[|a| + k]) == c;
    }
    if k :| 0 <= k < |a| && Ascii(a[k]) == c {
      assert Ascii((a + b)[k]) == c;
    }
  }

  lemma WordIs(c: nat)
    ensures IsWord(c) <==> OneOf(c, WORD)
  {
    hide OneOf;
    DigitsAre(c);
    LettersAre(c);
    OneOfBoth(c, DIGITS, CAPITALS);
    OneOfBoth(c, DIGITS + CAPITALS, "_");
    OneOfBoth(c, DIGITS + CAPITALS + "_", SMALLS);
    Underscore(c);
  }

  lemma Underscore(c: nat)
    ensures OneOf(c, "_") <==> c == 95
  {
    var it := "_";
    assert Ascii(it[0]) == 95;
  }

  lemma CasesAre(c: nat, d: nat)
    ensures AreCases(c, d) <==> 65 <= c <= 90 && d == c + 32
  {
    assert forall k :: 0 <= k < 26 ==> Ascii(CAPITALS[k]) == 65 + k && Ascii(SMALLS[k]) == 97 + k;
    if 65 <= c <= 90 {
      assert Ascii(CAPITALS[c - 65]) == c;
    }
  }

  /** Each of the six letters has the ranges of what it stands for, and there are no others. */
  lemma ShorthandHolds(letter: Byte, c: nat)
    requires c <= ANYTHING_ELSE
    ensures Shorthand(letter).Some? <==> OneOf(letter, "dDwWsS")
    ensures Shorthand(letter).Some? ==> (InRanges(Shorthand(letter).value, c) <==> KindHolds(letter, c))
  {
    hide OneOf;
    KindLetters(letter);
    DigitsAre(c);
    WordIs(c);
    if Shorthand(letter).Some? {
      RangesAre(Shorthand(letter).value, c);
    }
  }

  lemma KindLetters(letter: Byte)
    ensures OneOf(letter, "dDwWsS") <==> Shorthand(letter).Some?
  {
    var letters := "dDwWsS";
    assert Ascii(letters[0]) == Ascii('d') && Ascii(letters[1]) == Ascii('D') && Ascii(letters[2]) == Ascii('w');
    assert Ascii(letters[3]) == Ascii('W') && Ascii(letters[4]) == Ascii('s') && Ascii(letters[5]) == Ascii('S');
  }

  /** In the first of the ranges or in one of the others. */
  lemma RangesAre(r: seq<Range>, c: nat)
    requires |r| <= 5
    ensures InRanges(r, c) <==>
            || (|r| > 0 && r[0].low <= c <= r[0].high) || (|r| > 1 && r[1].low <= c <= r[1].high)
            || (|r| > 2 && r[2].low <= c <= r[2].high) || (|r| > 3 && r[3].low <= c <= r[3].high)
            || (|r| > 4 && r[4].low <= c <= r[4].high)
  {
    assert forall i :: 0 <= i < |r| ==> (InRange(r[i], c) <==> r[i].low <= c <= r[i].high);
  }

  // ---------- one character, or one place ----------

  const CONTROLS := "ntrfv"
  const CODES: seq<nat> := [10, 9, 13, 12, 11]

  /** The character that a spelling stands for. */
  lemma ValueIs(x: Spelling)
    requires SpellingOk(x)
    ensures match x
            case Itself(c) => ValueOf(x) == c
            case Letter(letter) => exists k :: 0 <= k < 5 && Ascii(CONTROLS[k]) == letter && CODES[k] == ValueOf(x)
            case Code(high, low) => IsHexDigit(high, ValueOf(x) / 16) && IsHexDigit(low, ValueOf(x) % 16)
  {
    hide IsHexDigit, Hex;
    match x
    case Itself(_) =>
    case Letter(letter) => ControlIs(letter);
    case Code(high, low) =>
      var h, l := Hex(high).value, Hex(low).value;
      HexIsDigit(high, h);
      HexIsDigit(low, l);
      HexFits(low);
      assert (h * 16 + l) / 16 == h && (h * 16 + l) % 16 == l;
  }

  lemma HexFits(b: Byte)
    requires Hex(b).Some?
    ensures Hex(b).value < 16
  {
  }

  lemma ControlIs(letter: Byte)
    requires IsControlLetter(letter)
    ensures exists k :: 0 <= k < 5 && Ascii(CONTROLS[k]) == letter && CODES[k] == ValueOf(Letter(letter))
  {
    assert Ascii(CONTROLS[0]) == 110 && Ascii(CONTROLS[1]) == 116 && Ascii(CONTROLS[2]) == 114;
    assert Ascii(CONTROLS[3]) == 102 && Ascii(CONTROLS[4]) == 118;
  }

  predicate MemberHolds(m: Member, c: nat)
    requires MemberOk(m)
  {
    match m
    case One(x) => c == ValueOf(x)
    case Between(low, high) => ValueOf(low) <= c <= ValueOf(high)
    case Shorthands(letter) => KindHolds(letter, c)
  }

  predicate InClass(members: seq<Member>, c: nat)
    requires MembersOk(members)
  {
    exists i :: 0 <= i < |members| && MemberHolds(members[i], c)
  }

  predicate IsCharacter(a: Item) {
    a.Character? || a.AnyCharacter? || a.Kind? || a.Class?
  }

  /** Whether an item takes a character. Flag `i` lets both cases of a letter count as one, but not
      for a shorthand outside of brackets; flag `s` lets a dot take a newline. */
  ghost predicate CharacterHolds(a: Item, c: nat, flags: seq<Byte>)
    requires ItemOk(a)
  {
    match a
    case Character(x) => c == ValueOf(x) || (Ascii('i') in flags && OtherCase(c, ValueOf(x)))
    case AnyCharacter => c != 10 || Ascii('s') in flags
    case Kind(letter) => KindHolds(letter, c)
    case Class(negated, members) =>
      (InClass(members, c) || (Ascii('i') in flags && exists d: nat :: OtherCase(c, d) && InClass(members, d))) != negated
    case _ => false
  }

  predicate WordByte(text: seq<Byte>, at: int) {
    0 <= at < |text| && OneOf(text[at], WORD)
  }

  predicate IsPlace(a: Item) {
    a.Start? || a.End? || a.WordEdge? || a.NoWordEdge?
  }

  /** Whether an item holds between two characters. Flag `m` lets lines have a start and an end. */
  predicate PlaceHolds(a: Item, text: seq<Byte>, i: nat, flags: seq<Byte>)
    requires i <= |text|
  {
    match a
    case Start => i == 0 || (Ascii('m') in flags && text[i - 1] == 10)
    case End => i == |text| || (Ascii('m') in flags && text[i] == 10)
    case WordEdge => WordByte(text, i - 1) != WordByte(text, i)
    case NoWordEdge => WordByte(text, i - 1) == WordByte(text, i)
    case _ => false
  }

  lemma InRangesBoth(a: seq<Range>, b: seq<Range>, c: nat)
    ensures InRanges(a + b, c) <==> InRanges(a, c) || InRanges(b, c)
  {
    if k :| 0 <= k < |b| && InRange(b[k], c) {
      assert InRange((a + b)[|a| + k], c);
    }
    if k :| 0 <= k < |a| && InRange(a[k], c) {
      assert InRange((a + b)[k], c);
    }
  }

  lemma MemberIs(m: Member, c: nat)
    requires MemberOk(m) && c <= ANYTHING_ELSE
    ensures InRanges(MemberRanges(m), c) <==> MemberHolds(m, c)
  {
    hide ValueOf, KindHolds, Shorthand;
    match m
    case Shorthands(letter) => ShorthandHolds(letter, c);
    case _ => RangesAre(MemberRanges(m), c);
  }

  lemma {:induction false} ClassIs(members: seq<Member>, c: nat)
    requires MembersOk(members) && c <= ANYTHING_ELSE
    ensures InRanges(MembersRanges(members), c) <==> InClass(members, c)
  {
    hide MemberHolds, MemberRanges, MemberOk;
    if members != [] {
      MemberIs(members[0], c);
      ClassIs(members[1..], c);
      InRangesBoth(MemberRanges(members[0]), MembersRanges(members[1..]), c);
      if k :| 0 <= k < |members[1..]| && MemberHolds(members[1..][k], c) {
        assert MemberHolds(members[k + 1], c);
      }
      if k :| 0 <= k < |members| && MemberHolds(members[k], c) {
        assert k == 0 || MemberHolds(members[1..][k - 1], c);
      }
    }
  }

  lemma ClassInBothCases(members: seq<Member>, c: nat)
    requires MembersOk(members) && c <= ANYTHING_ELSE
    ensures InRangesI(MembersRanges(members), c) <==>
            InClass(members, c) || exists d: nat :: OtherCase(c, d) && InClass(members, d)
  {
    hide MembersOk, InClass, AreCases, InRanges;
    ClassIs(members, c);
    if 97 <= c <= 122 {
      CasesAre(c - 32, c);
      ClassIs(members, c - 32);
      assert OtherCase(c, c - 32);
    }
    if 65 <= c <= 90 {
      CasesAre(c, c + 32);
      ClassIs(members, c + 32);
      assert OtherCase(c, c + 32);
    }
    forall d: nat | OtherCase(c, d) ensures (97 <= c <= 122 && d == c - 32) || (65 <= c <= 90 && d == c + 32) {
      CasesAre(c, d);
      CasesAre(d, c);
    }
  }

  lemma DecodedIsSome(text: seq<Byte>, i: nat)
    requires i < |text|
    ensures Decode(text, i).c <= ANYTHING_ELSE
  {
    hide Decode;
    EncodeDecode(text, i);
  }

  /** One character of the text is taken exactly when the item says so. */
  lemma CharacterMeans(a: Item, g: nat, k: nat, flags: seq<Byte>, text: seq<Byte>, i: nat, j: nat)
    requires ItemOk(a) && IsCharacter(a)
    ensures Denotes(ItemTree(a, g, k, FlagsOf(flags)), text, i, j) <==>
            i < |text| && j == i + Decode(text, i).size && CharacterHolds(a, Decode(text, i).c, flags)
  {
    hide Decode, ValueOf, InClass, KindHolds, Shorthand, InRanges, InRangesI, AreCases, MembersOk;
    if i < |text| {
      var c := Decode(text, i).c;
      DecodedIsSome(text, i);
      match a {
        case Character(x) =>
          CasesAre(c, ValueOf(x));
          CasesAre(ValueOf(x), c);
        case Kind(letter) => ShorthandHolds(letter, c);
        case Class(_, members) =>
          ClassIs(members, c);
          ClassInBothCases(members, c);
        case _ =>
      }
    }
  }

  /** A place is passed exactly when the item says so. */
  lemma PlaceMeans(a: Item, g: nat, k: nat, flags: seq<Byte>, text: seq<Byte>, i: nat, j: nat)
    requires ItemOk(a) && IsPlace(a)
    ensures Denotes(ItemTree(a, g, k, FlagsOf(flags)), text, i, j) <==> i == j && i <= |text| && PlaceHolds(a, text, i, flags)
  {
    hide IsWord, OneOf;
    if i <= |text| {
      if i > 0 {
        WordIs(text[i - 1]);
      }
      if i < |text| {
        WordIs(text[i]);
      }
    }
  }

  // ---------- patterns ----------

  /** How often a count lets something be repeated. */
  predicate Counted(count: Count, n: nat) {
    match count
    case Star => true
    case Plus => n >= 1
    case Optional => n <= 1
    case Exactly(m) => n == m
    case AtLeast(m) => n >= m
    case FromTo(low, high) => low <= n <= high
  }

  /** The pattern matches the text from `i` to `j`: one of its alternatives does. */
  ghost predicate Means(e: Expr, flags: seq<Byte>, text: seq<Byte>, i: nat, j: nat)
    requires ExprOk(e)
    decreases e
  {
    RowMeans(e.terms, flags, text, i, j) || (e.Or? && Means(e.rest, flags, text, i, j))
  }

  /** Terms match one after the other. */
  ghost predicate RowMeans(ts: seq<Term>, flags: seq<Byte>, text: seq<Byte>, i: nat, j: nat)
    requires TermsOk(ts)
    decreases ts
  {
    if ts == [] then i == j
    else exists k: nat :: TermMeans(ts[0], flags, text, i, k) && RowMeans(ts[1..], flags, text, k, j)
  }

  ghost predicate TermMeans(t: Term, flags: seq<Byte>, text: seq<Byte>, i: nat, j: nat)
    requires TermOk(t)
    decreases t
  {
    match t.times
    case Once => ItemMeans(t.item, flags, text, i, j)
    case Many(count, _) => exists n: nat :: Counted(count, n) && TimesMean(t.item, n, flags, text, i, j)
  }

  /** An item matches `n` times in a row. */
  ghost predicate TimesMean(a: Item, n: nat, flags: seq<Byte>, text: seq<Byte>, i: nat, j: nat)
    requires ItemOk(a)
    decreases a, n + 1
  {
    if n == 0 then i == j
    else exists k: nat :: ItemMeans(a, flags, text, i, k) && TimesMean(a, n - 1, flags, text, k, j)
  }

  ghost predicate ItemMeans(a: Item, flags: seq<Byte>, text: seq<Byte>, i: nat, j: nat)
    requires ItemOk(a)
    decreases a, 0
  {
    match a
    case Capture(body) => Means(body, flags, text, i, j)
    case Plain(body) => Means(body, flags, text, i, j)
    case _ =>
      if IsCharacter(a) then
        i < |text| && j == i + Decode(text, i).size && CharacterHolds(a, Decode(text, i).c, flags)
      else i == j && i <= |text| && PlaceHolds(a, text, i, flags)
  }

  lemma CountedIs(count: Count, n: nat)
    ensures Allowed(Least(count), Most(count), n) <==> Counted(count, n)
  {
  }

  /** The tree of a pattern matches what the pattern means. */
  lemma {:induction false} TreeMeans(e: Expr, g: nat, k: nat, flags: seq<Byte>, text: seq<Byte>, i: nat, j: nat)
    requires ExprOk(e)
    ensures Denotes(Tree(e, g, k, FlagsOf(flags)), text, i, j) <==> Means(e, flags, text, i, j)
    decreases e
  {
    hide TermsTree, RowMeans, TermsOk;
    TermsMean(e.terms, Empty, g, k, flags, text, i, j);
    NothingBefore(e.terms, flags, text, i, j);
    if e.Or? {
      TreeMeans(e.rest, g + GroupsIn(e.terms), k + |RangesIn(e.terms)|, flags, text, i, j);
    }
  }

  /** `soFar`, and then the terms. */
  ghost predicate AndThen(soFar: Node, ts: seq<Term>, flags: seq<Byte>, text: seq<Byte>, i: nat, j: nat)
    requires TermsOk(ts)
  {
    exists m: nat :: Denotes(soFar, text, i, m) && RowMeans(ts, flags, text, m, j)
  }

  lemma NothingBefore(ts: seq<Term>, flags: seq<Byte>, text: seq<Byte>, i: nat, j: nat)
    requires TermsOk(ts)
    ensures AndThen(Empty, ts, flags, text, i, j) <==> RowMeans(ts, flags, text, i, j)
  {
    hide RowMeans, TermsOk;
    assert Denotes(Empty, text, i, i);
  }

  lemma {:induction false} TermsMean(ts: seq<Term>, soFar: Node, g: nat, k: nat, flags: seq<Byte>, text: seq<Byte>, i: nat, j: nat)
    requires TermsOk(ts)
    ensures Denotes(TermsTree(ts, soFar, g, k, FlagsOf(flags)), text, i, j) <==> AndThen(soFar, ts, flags, text, i, j)
    decreases ts
  {
    hide Denotes, TermTree, TermMeans, TermOk;
    if ts == [] {
      NoTerms(soFar, flags, text, i, j);
    } else {
      var node := TermTree(ts[0], g, k, FlagsOf(flags));
      TermsMean(ts[1..], Cat(soFar, node), g + TermGroups(ts[0]), k + |TermRanges(ts[0])|, flags, text, i, j);
      forall a: nat, b: nat ensures Denotes(node, text, a, b) <==> TermMeans(ts[0], flags, text, a, b) {
        OneTermMeans(ts[0], g, k, flags, text, a, b);
      }
      CatAndThen(soFar, node, ts, flags, text, i, j);
    }
  }

  lemma NoTerms(soFar: Node, flags: seq<Byte>, text: seq<Byte>, i: nat, j: nat)
    ensures AndThen(soFar, [], flags, text, i, j) <==> Denotes(soFar, text, i, j)
  {
    hide Denotes;
    assert RowMeans([], flags, text, j, j);
  }

  lemma CatAndThen(soFar: Node, node: Node, ts: seq<Term>, flags: seq<Byte>, text: seq<Byte>, i: nat, j: nat)
    requires TermsOk(ts) && ts != []
    requires forall a: nat, b: nat :: Denotes(node, text, a, b) <==> TermMeans(ts[0], flags, text, a, b)
    ensures AndThen(Cat(soFar, node), ts[1..], flags, text, i, j) <==> AndThen(soFar, ts, flags, text, i, j)
  {
    if AndThen(Cat(soFar, node), ts[1..], flags, text, i, j) {
      var m: nat :| Denotes(Cat(soFar, node), text, i, m) && RowMeans(ts[1..], flags, text, m, j);
      var a := CatSplits(soFar, node, text, i, m);
      RowOne(ts, flags, text, a, m, j);
      assert Denotes(soFar, text, i, a) && RowMeans(ts, flags, text, a, j);
    }
    if AndThen(soFar, ts, flags, text, i, j) {
      var a: nat :| Denotes(soFar, text, i, a) && RowMeans(ts, flags, text, a, j);
      var m := RowSplits(ts, flags, text, a, j);
      CatJoins(soFar, node, text, i, a, m);
      assert Denotes(Cat(soFar, node), text, i, m) && RowMeans(ts[1..], flags, text, m, j);
    }
  }

  lemma CatSplits(left: Node, right: Node, text: seq<Byte>, i: nat, j: nat) returns (k: nat)
    requires Denotes(Cat(left, right), text, i, j)
    ensures Denotes(left, text, i, k) && Denotes(right, text, k, j)
  {
    k :| Denotes(left, text, i, k) && Denotes(right, text, k, j);
  }

  lemma CatJoins(left: Node, right: Node, text: seq<Byte>, i: nat, k: nat, j: nat)
    requires Denotes(left, text, i, k) && Denotes(right, text, k, j)
    ensures Denotes(Cat(left, right), text, i, j)
  {
  }

  lemma RowSplits(ts: seq<Term>, flags: seq<Byte>, text: seq<Byte>, i: nat, j: nat) returns (k: nat)
    requires TermsOk(ts) && ts != [] && RowMeans(ts, flags, text, i, j)
    ensures TermMeans(ts[0], flags, text, i, k) && RowMeans(ts[1..], flags, text, k, j)
  {
    hide TermMeans;
    k :| TermMeans(ts[0], flags, text, i, k) && RowMeans(ts[1..], flags, text, k, j);
  }

  lemma RowOne(ts: seq<Term>, flags: seq<Byte>, text: seq<Byte>, i: nat, k: nat, j: nat)
    requires TermsOk(ts) && ts != [] && TermMeans(ts[0], flags, text, i, k) && RowMeans(ts[1..], flags, text, k, j)
    ensures RowMeans(ts, flags, text, i, j)
  {
    hide TermMeans;
  }

  lemma {:induction false} OneTermMeans(t: Term, g: nat, k: nat, flags: seq<Byte>, text: seq<Byte>, i: nat, j: nat)
    requires TermOk(t)
    ensures Denotes(TermTree(t, g, k, FlagsOf(flags)), text, i, j) <==> TermMeans(t, flags, text, i, j)
    decreases t
  {
    hide ItemTree, ItemMeans, ItemOk, Power, TimesMean;
    var node := ItemTree(t.item, g, k, FlagsOf(flags));
    match t.times
    case Once => OneItemMeans(t.item, g, k, flags, text, i, j);
    case Many(count, lazy) =>
      forall n: nat
        ensures Allowed(Least(count), Most(count), n) && Power(node, text, n, i, j) <==>
                Counted(count, n) && TimesMean(t.item, n, flags, text, i, j)
      {
        CountedIs(count, n);
        ItemTimes(t.item, g, k, n, flags, text, i, j);
      }
  }

  lemma {:induction false} ItemTimes(a: Item, g: nat, k: nat, n: nat, flags: seq<Byte>, text: seq<Byte>, i: nat, j: nat)
    requires ItemOk(a)
    ensures Power(ItemTree(a, g, k, FlagsOf(flags)), text, n, i, j) <==> TimesMean(a, n, flags, text, i, j)
    decreases a, n + 1
  {
    hide ItemTree, ItemMeans, Denotes, ItemOk;
    var node := ItemTree(a, g, k, FlagsOf(flags));
    if n > 0 {
      forall m: nat
        ensures Denotes(node, text, i, m) && Power(node, text, n - 1, m, j) <==>
                ItemMeans(a, flags, text, i, m) && TimesMean(a, n - 1, flags, text, m, j)
      {
        OneItemMeans(a, g, k, flags, text, i, m);
        ItemTimes(a, g, k, n - 1, flags, text, m, j);
      }
    }
  }

  lemma {:induction false} OneItemMeans(a: Item, g: nat, k: nat, flags: seq<Byte>, text: seq<Byte>, i: nat, j: nat)
    requires ItemOk(a)
    ensures Denotes(ItemTree(a, g, k, FlagsOf(flags)), text, i, j) <==> ItemMeans(a, flags, text, i, j)
    decreases a, 0
  {
    hide CharacterHolds, PlaceHolds, Decode, Tree, Means;
    match a
    case Capture(body) => TreeMeans(body, g + 1, k, flags, text, i, j);
    case Plain(body) => TreeMeans(body, g, k, flags, text, i, j);
    case _ =>
      if IsCharacter(a) {
        CharacterMeans(a, g, k, flags, text, i, j);
      } else {
        PlaceMeans(a, g, k, flags, text, i, j);
      }
  }

  // ---------- the search ----------

  /** A search may start before each character from `from` on, and at the end. */
  lemma {:induction false} StartsAre(text: seq<Byte>, from: nat, s: nat)
    requires from <= |text|
    ensures forall i :: 0 <= i < |Chars(text, from)| ==> Chars(text, from)[i] <= ANYTHING_ELSE
    ensures EncodeAll(Chars(text, from)) == text[from..]
    ensures s in Starts(text, from) <==>
            exists n :: 0 <= n <= |Chars(text, from)| && s == from + |EncodeAll(Chars(text, from)[..n])|
    decreases |text| - from
  {
    hide Decode, Encode;
    CharsCoverText(text, from);
    var cs := Chars(text, from);
    if from == |text| {
      assert cs[..0] == [];
    } else {
      var next := from + Decode(text, from).size;
      StartsAre(text, next, s);
      EncodeDecode(text, from);
      assert cs[..0] == [];
      forall n | 0 < n <= |cs| ensures |EncodeAll(cs[..n])| == next - from + |EncodeAll(cs[1..][..n - 1])| {
        assert cs[..n][0] == cs[0] && cs[..n][1..] == cs[1..][..n - 1];
      }
      if n :| 0 <= n <= |cs[1..]| && s == next + |EncodeAll(cs[1..][..n])| {
        assert s == from + |EncodeAll(cs[..n + 1])|;
      }
    }
  }

  lemma MatchesMeant(e: Expr, flags: seq<Byte>, text: seq<Byte>, s: nat)
    requires ExprOk(e)
    ensures MatchesFrom(Tree(e, 0, 0, FlagsOf(flags)), text, s) <==> exists j: nat :: Means(e, flags, text, s, j)
  {
    hide Denotes, Means, Tree;
    if MatchesFrom(Tree(e, 0, 0, FlagsOf(flags)), text, s) {
      var j: nat :| Denotes(Tree(e, 0, 0, FlagsOf(flags)), text, s, j);
      TreeMeans(e, 0, 0, flags, text, s, j);
    }
    if j: nat :| Means(e, flags, text, s, j) {
      TreeMeans(e, 0, 0, flags, text, s, j);
    }
  }

  /** A search for a written pattern finds something exactly when the pattern matches from some start,
      and then what it matches from the first such start. */
  lemma SearchFindsWhatIsMeant(e: Expr, flags: seq<Byte>, text: seq<Byte>, from: nat)
    requires ExprOk(e) && FlagsOk(flags) && from <= |text| && Compiles(Write(e), flags)
    ensures Valid(Compiled(Write(e), flags))
    ensures var found := RegexBacktrack.Search(Compiled(Write(e), flags), text, from);
            && (found.Some? <==> exists s, j: nat :: s in Starts(text, from) && Means(e, flags, text, s, j))
            && (found.Some? ==>
                  && |found.value| == 2 * (Groups(e) + 1) && found.value[0] >= 0 && found.value[1] >= 0
                  && found.value[0] in Starts(text, from)
                  && Means(e, flags, text, found.value[0], found.value[1])
                  && forall s, j: nat :: s in Starts(text, from) && Means(e, flags, text, s, j) ==> found.value[0] <= s)
  {
    hide Denotes, Means, Tree, Starts, Compiles, Write, ExprOk, RegexBacktrack.Search, Valid, Pattern, Gen, RegexBacktrack.Reported;
    WrittenSearch(e, flags, text, from);
    RegexBacktrack.SearchIsLeftmost(Compiled(Write(e), flags), text, from);
    var node := Tree(e, 0, 0, FlagsOf(flags));
    forall s: nat ensures MatchesFrom(node, text, s) <==> exists j: nat :: Means(e, flags, text, s, j) {
      MatchesMeant(e, flags, text, s);
    }
    var found := RegexBacktrack.Search(Compiled(Write(e), flags), text, from);
    if found.Some? {
      TreeMeans(e, 0, 0, flags, text, found.value[0], found.value[1]);
    }
    if s, j: nat :| s in Starts(text, from) && Means(e, flags, text, s, j) {
      assert MatchesFrom(node, text, s);
    }
  }
}
