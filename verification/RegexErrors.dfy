/** What is no pattern: each of the ways in which writing one can go wrong is refused. */
module RegexErrors {
  import opened Common
  import opened Utf8
  import opened RegexTree
  import opened RegexSyntax
  import opened RegexNotation

  // ---------- escapes ----------

  /** What may follow a backslash: a letter of a control character, `x` and two digits of base 16, or
      anything that is no letter and no digit, which stands for itself. */
  lemma EscapeIs(s: seq<Byte>, at: nat)
    ensures var c := Peek(s, at);
            if OneOf(c, "ntrfv") then Escape(s, at).Some? && Escape(s, at).value.1 == at + 1
            else if c == Ascii('x') then
              && (Escape(s, at).Some? <==> Hex(Peek(s, at + 1)).Some? && Hex(Peek(s, at + 2)).Some?)
              && (Escape(s, at).Some? ==> Escape(s, at).value.1 == at + 3)
            else if c == 0 || IsLetter(c) || IsDigit(c) then Escape(s, at) == None
            else Escape(s, at) == Some((Decode(s, at).c, at + Decode(s, at).size))
  {
    hide Decode, Hex, OneOf;
    ControlLetters(Peek(s, at));
  }

  lemma ControlLetters(c: Byte)
    ensures OneOf(c, "ntrfv") <==> IsControlLetter(c)
  {
    var letters := "ntrfv";
    assert Ascii(letters[0]) == 110 && Ascii(letters[1]) == 116 && Ascii(letters[2]) == 114;
    assert Ascii(letters[3]) == 102 && Ascii(letters[4]) == 118;
  }

  // ---------- parentheses ----------

  /** A parenthesis that nothing has opened. */
  lemma StrayParenthesis(e: Expr, rest: seq<Byte>, flags: Flags)
    requires ExprOk(e)
    ensures Pattern(Write(e) + [Ascii(')')] + rest, flags) == None
  {
    hide Alternatives, Write, Tree, Gen, Groups, Ranges, ExprOk, NoNul;
    var s := Write(e) + [Ascii(')')] + rest;
    assert s[0..|Write(e)|] == Write(e);
    ExprRead(s, 0, e, 0, 0, Used(0, [], 0, 0), flags);
  }

  lemma BadAtom(s: seq<Byte>, flags: Flags)
    requires !EndsPieces(Peek(s, 0)) && Atom(s, 0, 0, 0, Used(0, [], 0, 0), flags) == None
    ensures Pattern(s, flags) == None
  {
    hide Atom;
    BadPiece(s, flags);
  }

  lemma BadPiece(s: seq<Byte>, flags: Flags)
    requires !EndsPieces(Peek(s, 0)) && Piece(s, 0, 0, 0, Used(0, [], 0, 0), flags) == None
    ensures Pattern(s, flags) == None
  {
    hide Piece;
    assert Gen(Empty) == [];
    assert Pieces(s, 0, 0, 0, Used(0, [], 0, 0), flags, Empty) == None;
    assert Alternatives(s, 0, 0, 0, Used(0, [], 0, 0), flags) == None;
  }

  /** A parenthesis that nothing closes, of a group that captures and of one that does not. */
  lemma MissingParenthesis(e: Expr, flags: Flags)
    requires ExprOk(e)
    ensures Pattern([Ascii('(')] + Write(e), flags) == None
    ensures Pattern([Ascii('('), Ascii('?'), Ascii(':')] + Write(e), flags) == None
  {
    hide Alternatives, Write, Tree, Gen, Groups, Ranges, ExprOk, NoNul, Pattern;
    var capture, plain := [Ascii('(')] + Write(e), [Ascii('('), Ascii('?'), Ascii(':')] + Write(e);
    var used := Used(0, [], 0, 0);
    assert capture[1..1 + |Write(e)|] == Write(e) && plain[3..3 + |Write(e)|] == Write(e);
    var o := OpenGroup(plain, 0, 0, 0, used).value;
    ExprRead(plain, 3, e, o.base, 1, o.used, flags);
    BadAtom(plain, flags);
    var one := used.(groups := 1).Code(1).Depth(1);
    ExprRead(capture, 1, e, 1, 1, one, flags);
    assert OpenGroup(capture, 0, 0, 0, used) == Some(Opening(1, 1, one, 1));
    BadAtom(capture, flags);
  }

  /** A parenthesis with a question mark that makes it something else, such as a look ahead. */
  lemma OtherParenthesis(b: Byte, rest: seq<Byte>, flags: Flags)
    requires b != Ascii(':')
    ensures Pattern([Ascii('('), Ascii('?'), b] + rest, flags) == None
  {
    hide Alternatives, Pattern;
    BadAtom([Ascii('('), Ascii('?'), b] + rest, flags);
  }

  /** A bracket that nothing closes. */
  lemma MissingBracket(members: seq<Member>, flags: Flags)
    requires MembersOk(members)
    ensures Pattern([Ascii('[')] + WriteMembers(members), flags) == None
  {
    hide Alternatives, Pattern, WriteMembers, ClassMembers, MembersOk, NoNul;
    var s := [Ascii('[')] + WriteMembers(members);
    assert s[1..1 + |WriteMembers(members)|] == WriteMembers(members);
    MembersNotClosed(s, 1, members, false, []);
    BadBracket(s, members, flags);
    BadAtom(s, flags);
  }

  lemma BadBracket(s: seq<Byte>, members: seq<Member>, flags: Flags)
    requires Peek(s, 0) == Ascii('[') && Peek(s, 1) != Ascii('^') && ClassMembers(s, 1, false, []) == None
    ensures Atom(s, 0, 0, 0, Used(0, [], 0, 0), flags) == None
  {
    hide ClassMembers, Alternatives;
  }

  lemma {:induction false} MembersNotClosed(s: seq<Byte>, p: nat, members: seq<Member>, any: bool, before: seq<RegexProgram.Range>)
    requires MembersOk(members) && Has(s, p, WriteMembers(members)) && p + |WriteMembers(members)| == |s|
    ensures ClassMembers(s, p, any, before) == None && Peek(s, p) != Ascii('^') && Peek(s, p) != Ascii('-')
    decreases |members|
  {
    hide MemberOk, WriteMember, NoNul;
    if members == [] {
      NoMembers();
    } else {
      var first, rest := WriteMember(members[0]), WriteMembers(members[1..]);
      HasSplit(s, p, first, rest);
      MembersNotClosed(s, p + |first|, members[1..], true, before + MemberRanges(members[0]));
      MemberRead(s, p, members[0], any, before);
    }
  }

  lemma NoMembers()
    ensures WriteMembers([]) == []
  {
  }

  // ---------- repeats ----------

  /** A repeat of nothing. */
  lemma NothingToRepeat(c: Byte, rest: seq<Byte>, flags: Flags)
    requires c == Ascii('*') || c == Ascii('+') || c == Ascii('?')
    ensures Pattern([c] + rest, flags) == None
  {
    hide Alternatives, Pattern;
    BadAtom([c] + rest, flags);
  }

  /** A repeat of a repeat. */
  lemma RepeatedTwice(t: Term, c: Byte, rest: seq<Byte>, flags: Flags)
    requires TermOk(t) && t.times.Many? && (c == Ascii('*') || c == Ascii('+') || (c == Ascii('?') && t.times.lazy))
    ensures Pattern(WriteTerm(t) + [c] + rest, flags) == None
  {
    hide Atom, SuffixAt, WriteItem, WriteCount, ItemTree, ItemRanges, ItemGroups, ItemOk, Gen, NoNul, Pattern;
    var s, used := WriteTerm(t) + [c] + rest, Used(0, [], 0, 0);
    assert s[0..|WriteTerm(t)|] == WriteTerm(t);
    HasSplit(s, 0, WriteItem(t.item), WriteTimes(t.times));
    ItemRead(s, 0, t.item, 0, 0, used, flags);
    RepeatsAgain(s, |WriteItem(t.item)|, t.times, c);
    BadSuffixAt(s, used, flags);
  }

  lemma RepeatsAgain(s: seq<Byte>, p: nat, times: Times, c: Byte)
    requires times.Many? && CountOk(times.count) && Has(s, p, WriteTimes(times)) && Peek(s, p + |WriteTimes(times)|) == c
    requires c == Ascii('*') || c == Ascii('+') || (c == Ascii('?') && times.lazy)
    ensures SuffixAt(s, p) == BadSuffix
  {
    hide CountsAt, Digits, NoNul, SuffixAt, Has, Peek;
    var w, mark := WriteCount(times.count), if times.lazy then [Ascii('?')] else [];
    HasSplit(s, p, w, mark);
    HasByte(s, p, w, 0);
    if times.lazy {
      HasByte(s, p + |w|, mark, 0);
    }
    if times.count.Exactly? || times.count.AtLeast? || times.count.FromTo? {
      BracesRead(s, p, times.count);
      BracesAgain(s, p, times.lazy, c);
    } else {
      SignAgain(s, p, times.lazy, c);
    }
  }

  lemma BracesAgain(s: seq<Byte>, p: nat, lazy: bool, c: Byte)
    requires Peek(s, p) == Ascii('{') && CountsAt(s, p).Counts?
    requires var next := CountsAt(s, p).at; if lazy then Peek(s, next) == Ascii('?') && Peek(s, next + 1) == c else Peek(s, next) == c
    requires c == Ascii('*') || c == Ascii('+') || (c == Ascii('?') && lazy)
    ensures SuffixAt(s, p) == BadSuffix
  {
    hide CountsAt;
  }

  lemma SignAgain(s: seq<Byte>, p: nat, lazy: bool, c: Byte)
    requires Peek(s, p) == Ascii('*') || Peek(s, p) == Ascii('+') || Peek(s, p) == Ascii('?')
    requires if lazy then Peek(s, p + 1) == Ascii('?') && Peek(s, p + 2) == c else Peek(s, p + 1) == c
    requires c == Ascii('*') || c == Ascii('+') || (c == Ascii('?') && lazy)
    ensures SuffixAt(s, p) == BadSuffix
  {
    hide CountsAt;
  }

  lemma BadSuffixAt(s: seq<Byte>, used: Used, flags: Flags)
    requires used == Used(0, [], 0, 0) && !EndsPieces(Peek(s, 0)) && Atom(s, 0, 0, 0, used, flags).Some?
    requires SuffixAt(s, Atom(s, 0, 0, 0, used, flags).value.at) == BadSuffix
    ensures Pattern(s, flags) == None
  {
    hide Atom, SuffixAt;
    BadPiece(s, flags);
  }

  /** A number that is too big. */
  lemma {:induction false} NumberTooBig(s: seq<Byte>, p: nat, n: nat)
    requires n > 1000 && Has(s, p, Digits(n))
    ensures IsDigit(Peek(s, p)) && Number(s, p, 0) == None
    decreases n
  {
    hide NoNul;
    var more := [Ascii('0') + n % 10];
    HasSplit(s, p, Digits(n / 10), more);
    HasByte(s, p + |Digits(n / 10)|, more, 0);
    if n / 10 > 1000 {
      NumberTooBig(s, p, n / 10);
    } else {
      DigitsRead(s, p, n / 10);
    }
  }

  /** More repeats than 1000. */
  lemma TooManyRepeats(s: seq<Byte>, p: nat, n: nat)
    requires n > 1000 && Has(s, p, [Ascii('{')] + Digits(n))
    ensures SuffixAt(s, p) == BadSuffix
  {
    hide Number, Digits, NoNul;
    HasSplit(s, p, [Ascii('{')], Digits(n));
    HasByte(s, p, [Ascii('{')], 0);
    NumberTooBig(s, p + 1, n);
    assert CountsAt(s, p) == BadCounts;
  }

  /** A limit that is too big, or below the minimum. */
  lemma BadLimit(s: seq<Byte>, p: nat, n: nat, m: nat)
    requires n <= 1000 && (m > 1000 || m < n) && Has(s, p, [Ascii('{')] + Digits(n) + ([Ascii(',')] + (Digits(m) + ([Ascii('}')] + []))))
    ensures SuffixAt(s, p) == BadSuffix
  {
    hide Number, Digits, Has, Peek, NoNul;
    var next, rest := p + 1 + |Digits(n)|, Digits(m) + ([Ascii('}')] + []);
    ThenNumber(s, p, Ascii('{'), n, Ascii(','), rest);
    if m > 1000 {
      HasSplit(s, next, [Ascii(',')], rest);
      HasSplit(s, next + 1, Digits(m), [Ascii('}')] + []);
      NumberTooBig(s, next + 1, m);
    } else {
      SeqAssoc([Ascii(',')], Digits(m), [Ascii('}')] + []);
      ThenNumber(s, next, Ascii(','), m, Ascii('}'), []);
    }
    assert CountsAt(s, p) == BadCounts;
  }
}
