/** A regular expression from its pattern to its matches. */
module RegexEngine {
  import opened Common
  import opened Utf8
  import opened RegexProgram
  import opened RegexBacktrack
  import opened RegexTree
  import opened RegexCaptures
  import opened RegexWays
  import opened RegexPriority
  import opened RegexSyntax
  import opened RegexVm
  import opened RegexCompiler
  import RegexNotation

  // ---------- what is read is a well-formed tree ----------

  /** The sets of a tree are in the table and its groups have been counted. */
  predicate Fits(node: Node, used: Used) {
    InTable(node, used.ranges) && GroupsBelow(node, (used.groups + 1) * 2)
  }

  lemma {:induction false} FitsLater(node: Node, used: Used, later: Used)
    requires Fits(node, used) && used.AtMost(later)
    ensures Fits(node, later)
  {
    match node
    case Cat(left, right) =>
      FitsLater(left, used, later);
      FitsLater(right, used, later);
    case Alt(left, right) =>
      FitsLater(left, used, later);
      FitsLater(right, used, later);
    case Group(_, body) => FitsLater(body, used, later);
    case Repeat(body, _, _, _) => FitsLater(body, used, later);
    case Set(first, members, _, _) =>
      assert later.ranges[first..first + |members|] == used.ranges[first..first + |members|];
    case Empty =>
    case Lit(_, _) =>
    case Dot(_) =>
    case At(_) =>
  }

  lemma {:induction false} AlternativesFit(s: seq<Byte>, at: nat, base: nat, depth: nat, used: Used, flags: Flags)
    ensures var r := Alternatives(s, at, base, depth, used, flags);
            r.Some? ==> Fits(r.value.value, r.value.used)
    decreases |s| - at, 3
  {
    hide Pieces, Gen, InTable, GroupsBelow;
    var first := Pieces(s, at, base, depth, used, flags, Empty);
    EmptyFits(used);
    PiecesFit(s, at, base, depth, used, flags, Empty);
    if first.Some? && Peek(s, first.value.at) == Ascii('|') {
      var more := base + |Gen(first.value.value)| + 2;
      AlternativesFit(s, first.value.at + 1, more, depth, first.value.used.Code(more), flags);
      var rest := Alternatives(s, first.value.at + 1, more, depth, first.value.used.Code(more), flags);
      if rest.Some? {
        FitsLater(first.value.value, first.value.used, rest.value.used);
        AltFits(first.value.value, rest.value.value, rest.value.used);
      }
    }
  }

  lemma EmptyFits(used: Used)
    ensures Fits(Empty, used)
  {
  }

  lemma AltFits(left: Node, right: Node, used: Used)
    requires Fits(left, used) && Fits(right, used)
    ensures Fits(Alt(left, right), used) && Fits(Cat(left, right), used)
  {
  }

  lemma {:induction false} PiecesFit(s: seq<Byte>, at: nat, base: nat, depth: nat, used: Used, flags: Flags, soFar: Node)
    requires Fits(soFar, used)
    ensures var r := Pieces(s, at, base, depth, used, flags, soFar);
            r.Some? ==> Fits(r.value.value, r.value.used)
    decreases |s| - at, 2
  {
    hide Gen, Piece, InTable, GroupsBelow;
    if !EndsPieces(Peek(s, at)) {
      PieceFits(s, at, base + |Gen(soFar)|, depth, used, flags);
      var piece := Piece(s, at, base + |Gen(soFar)|, depth, used, flags);
      if piece.Some? {
        FitsLater(soFar, used, piece.value.used);
        AltFits(soFar, piece.value.value, piece.value.used);
        PiecesFit(s, piece.value.at, base, depth, piece.value.used, flags, Cat(soFar, piece.value.value));
      }
    }
  }

  lemma {:induction false} PieceFits(s: seq<Byte>, at: nat, base: nat, depth: nat, used: Used, flags: Flags)
    requires !EndsPieces(Peek(s, at))
    ensures var r := Piece(s, at, base, depth, used, flags);
            r.Some? ==> Fits(r.value.value, r.value.used)
    decreases |s| - at, 1
  {
    hide Gen, Atom, SuffixAt;
    AtomFits(s, at, base, depth, used, flags);
    var atom := Atom(s, at, base, depth, used, flags);
    if atom.Some? && SuffixAt(s, atom.value.at).Suffix? {
      var r := Piece(s, at, base, depth, used, flags).value;
      FitsLater(atom.value.value, atom.value.used, r.used);
    }
  }

  lemma {:induction false} AtomFits(s: seq<Byte>, at: nat, base: nat, depth: nat, used: Used, flags: Flags)
    requires !EndsPieces(Peek(s, at))
    ensures var r := Atom(s, at, base, depth, used, flags);
            r.Some? ==> Fits(r.value.value, r.value.used)
    decreases |s| - at, 0
  {
    hide Gen, Alternatives, ClassMembers, Shorthand, Escape, Decode;
    if s[at] == Ascii('(') {
      var o := OpenGroup(s, at, base, depth, used);
      if o.Some? {
        AlternativesFit(s, o.value.at, o.value.base, depth + 1, o.value.used, flags);
      }
    }
  }

  /** The program of a pattern that was read is well formed. */
  lemma PatternFits(s: seq<Byte>, flags: Flags)
    requires Pattern(s, flags).Some?
    ensures var r := Pattern(s, flags).value;
            && Fits(r.value, r.used)
            && Valid(ProgramOf(r.value, r.used.ranges, (r.used.groups + 1) * 2))
  {
    hide Alternatives, Gen, InTable, GroupsBelow, Valid;
    AlternativesFit(s, 0, 0, 0, Used(0, [], 0, 0), flags);
    var r := Pattern(s, flags).value;
    FitsLater(r.value, Alternatives(s, 0, 0, 0, Used(0, [], 0, 0), flags).value.used, r.used);
    ProgramValid(r.value, r.used.ranges, (r.used.groups + 1) * 2);
  }

  // ---------- groups are numbered as they open ----------

  /** No number twice, and all of them above the first and up to the second. */
  predicate Numbered(node: Node, above: nat, to: nat) {
    OneNumberEach(node) && forall n :: n in Numbers(node) ==> above < n <= to
  }

  lemma NumberedSides(left: Node, right: Node, above: nat, mid: nat, to: nat)
    requires Numbered(left, above, mid) && Numbered(right, mid, to) && above <= mid <= to
    ensures Numbered(Cat(left, right), above, to) && Numbered(Alt(left, right), above, to)
  {
  }

  lemma NumberedAround(body: Node, number: nat, to: nat)
    requires Numbered(body, number, to) && 0 < number <= to
    ensures Numbered(Group(number, body), number - 1, to)
  {
  }

  lemma NumberedRepeat(body: Node, least: nat, most: int, lazy: bool, above: nat, to: nat)
    requires Numbered(body, above, to)
    ensures Numbered(Repeat(body, least, most, lazy), above, to)
  {
  }

  lemma {:induction false} AlternativesNumber(s: seq<Byte>, at: nat, base: nat, depth: nat, used: Used, flags: Flags)
    ensures var r := Alternatives(s, at, base, depth, used, flags);
            r.Some? ==> Numbered(r.value.value, used.groups, r.value.used.groups)
    decreases |s| - at, 3
  {
    hide Pieces, Gen;
    var first := Pieces(s, at, base, depth, used, flags, Empty);
    PiecesNumber(s, at, base, depth, used, flags, Empty, used.groups);
    if first.Some? && Peek(s, first.value.at) == Ascii('|') {
      var more := base + |Gen(first.value.value)| + 2;
      var used1 := first.value.used.Code(more);
      AlternativesNumber(s, first.value.at + 1, more, depth, used1, flags);
      var rest := Alternatives(s, first.value.at + 1, more, depth, used1, flags);
      if rest.Some? {
        NumberedSides(first.value.value, rest.value.value, used.groups, used1.groups, rest.value.used.groups);
      }
    }
  }

  lemma {:induction false} PiecesNumber(s: seq<Byte>, at: nat, base: nat, depth: nat, used: Used, flags: Flags, soFar: Node, above: nat)
    requires Numbered(soFar, above, used.groups) && above <= used.groups
    ensures var r := Pieces(s, at, base, depth, used, flags, soFar);
            r.Some? ==> Numbered(r.value.value, above, r.value.used.groups)
    decreases |s| - at, 2
  {
    hide Gen, Piece;
    if !EndsPieces(Peek(s, at)) {
      PieceNumber(s, at, base + |Gen(soFar)|, depth, used, flags);
      var piece := Piece(s, at, base + |Gen(soFar)|, depth, used, flags);
      if piece.Some? {
        NumberedSides(soFar, piece.value.value, above, used.groups, piece.value.used.groups);
        PiecesNumber(s, piece.value.at, base, depth, piece.value.used, flags, Cat(soFar, piece.value.value), above);
      }
    }
  }

  lemma {:induction false} PieceNumber(s: seq<Byte>, at: nat, base: nat, depth: nat, used: Used, flags: Flags)
    requires !EndsPieces(Peek(s, at))
    ensures var r := Piece(s, at, base, depth, used, flags);
            r.Some? ==> Numbered(r.value.value, used.groups, r.value.used.groups)
    decreases |s| - at, 1
  {
    hide Gen, Atom, SuffixAt, Numbered;
    AtomNumber(s, at, base, depth, used, flags);
    var atom := Atom(s, at, base, depth, used, flags);
    if atom.Some? && SuffixAt(s, atom.value.at).Suffix? {
      var suffix := SuffixAt(s, atom.value.at);
      NumberedRepeat(atom.value.value, suffix.least, suffix.most, suffix.lazy, used.groups, atom.value.used.groups);
    }
  }

  lemma {:induction false} AtomNumber(s: seq<Byte>, at: nat, base: nat, depth: nat, used: Used, flags: Flags)
    requires !EndsPieces(Peek(s, at))
    ensures var r := Atom(s, at, base, depth, used, flags);
            r.Some? ==> Numbered(r.value.value, used.groups, r.value.used.groups)
    decreases |s| - at, 0
  {
    hide Gen, Alternatives, ClassMembers, Shorthand, Escape, Decode;
    if s[at] == Ascii('(') {
      var o := OpenGroup(s, at, base, depth, used);
      if o.Some? {
        AlternativesNumber(s, o.value.at, o.value.base, depth + 1, o.value.used, flags);
        var inner := Alternatives(s, o.value.at, o.value.base, depth + 1, o.value.used, flags);
        if inner.Some? && o.value.number > 0 {
          NumberedAround(inner.value.value, o.value.number, inner.value.used.groups);
        }
      }
    }
  }

  // ---------- compiling ----------

  predicate FlagsOk(text: seq<Byte>) {
    forall i :: 0 <= i < |text| ==> text[i] == Ascii('i') || text[i] == Ascii('m') || text[i] == Ascii('s')
  }

  function FlagsOf(text: seq<Byte>): Flags {
    Flags(Ascii('i') in text, Ascii('m') in text, Ascii('s') in text)
  }

  /** The pattern and the flags are well formed, and the code fits. */
  predicate Compiles(pattern: seq<Byte>, flags: seq<Byte>) {
    FlagsOk(flags) && !Exceeds(Pattern(pattern, FlagsOf(flags)))
  }

  /** The tree of a pattern that compiles. */
  function TreeOf(pattern: seq<Byte>, flags: seq<Byte>): Node
    requires Compiles(pattern, flags)
  {
    Pattern(pattern, FlagsOf(flags)).value.value
  }

  /** The program of a pattern that compiles. */
  function Compiled(pattern: seq<Byte>, flags: seq<Byte>): Program
    requires Compiles(pattern, flags)
  {
    var r := Pattern(pattern, FlagsOf(flags)).value;
    ProgramOf(r.value, r.used.ranges, (r.used.groups + 1) * 2)
  }

  method ReadFlags(text: seq<Byte>) returns (ok: bool, flags: Flags)
    ensures ok == FlagsOk(text) && (ok ==> flags == FlagsOf(text))
  {
    flags := Flags(false, false, false);
    var i := 0;
    while i < |text|
      invariant 0 <= i <= |text| && FlagsOk(text[..i]) && flags == FlagsOf(text[..i])
    {
      assert text[..i + 1] == text[..i] + [text[i]];
      if text[i] == Ascii('i') {
        flags := flags.(icase := true);
      } else if text[i] == Ascii('m') {
        flags := flags.(multi := true);
      } else if text[i] == Ascii('s') {
        flags := flags.(dotall := true);
      } else {
        return false, flags;
      }
      i := i + 1;
    }
    assert text[..|text|] == text;
    ok := true;
  }

  /** Compiles a pattern, or gives up exactly when it is not well formed or too big. */
  method Compile(pattern: seq<Byte>, flagText: seq<Byte>) returns (re: Regex?)
    requires NoNul(pattern)
    ensures re != null <==> Compiles(pattern, flagText)
    ensures re != null ==> fresh(re) && re.Ready() && re.program == Compiled(pattern, flagText)
    ensures re != null ==> fresh(re.threads[0]) && fresh(re.threads[1]) && fresh(re.saves) && fresh(re.stack) && fresh(re.marks)
  {
    hide Alternatives, Gen, Valid, FlagsOk, FlagsOf, InTable, GroupsBelow;
    var ok, flags := ReadFlags(flagText);
    if !ok {
      return null;
    }
    var made := new Regex();
    ok := CompileInto(made, pattern, flags);
    if !ok {
      return null;
    }
    PatternFits(pattern, flags);
    made.Prepare();
    re := made;
  }

  /** The code of the pattern and the match after it. */
  method CompileInto(re: Regex, pattern: seq<Byte>, flags: Flags) returns (ok: bool)
    requires NoNul(pattern) && re.code.Length == MAX_CODE && re.ranges.Length == MAX_RANGES
    requires re.codeLength == re.rangeCount == re.groups == 0
    modifies re`codeLength, re`rangeCount, re`groups, re.code, re.ranges
    ensures ok == !Exceeds(Pattern(pattern, flags))
    ensures ok ==>
      var r := Pattern(pattern, flags).value;
      && re.groups == r.used.groups
      && re.codeLength <= re.code.Length && re.code[..re.codeLength] == Gen(r.value) + [Match]
      && re.rangeCount <= re.ranges.Length && re.ranges[..re.rangeCount] == r.used.ranges
  {
    hide Alternatives, Gen;
    var ps := new Parser(re, pattern, flags);
    ghost var node, used;
    ok, node, used := ps.ParseAlternatives(Used(0, [], 0, 0));
    if !ok || ps.Next() == Ascii(')') {
      return false;
    }
    ok := ps.Emit(Match);
    assert [] + Gen(node) == Gen(node);
  }

  // ---------- compile, then search ----------

  /** A piece of the text that the pattern matches begins at `s`. */
  ghost predicate MatchesFrom(node: Node, text: seq<Byte>, s: nat) {
    exists e: nat :: Denotes(node, text, s, e)
  }

  /** The spans are those of a match from a start at or after `from`, and from no later one than
      there has to be: what they delimit is matched, the groups included, by one parse, and by the
      one that the pattern prefers if nothing it repeats without limit can be empty. */
  ghost predicate Finds(node: Node, text: seq<Byte>, from: nat, spans: seq<int>)
    requires from <= |text|
  {
    && SpansOf(node, text, spans) && GroupsDelimit(node, text, spans)
    && spans[0] in Starts(text, from) && Denotes(node, text, spans[0], spans[1])
    && (forall s :: s in Starts(text, from) && MatchesFrom(node, text, s) ==> spans[0] <= s)
    && (Steady(node) ==> Preferred(node, text, spans))
  }

  /** What a search of a compiled pattern finds: a match exactly when the pattern matches a piece of
      the text from some character at or after `from` on, and then the spans of one. */
  lemma CompiledSearch(pattern: seq<Byte>, flags: seq<Byte>, text: seq<Byte>, from: nat)
    requires Compiles(pattern, flags) && from <= |text|
    ensures Valid(Compiled(pattern, flags))
    ensures var node, found := TreeOf(pattern, flags), Search(Compiled(pattern, flags), text, from);
            && (found.Some? <==> exists s :: s in Starts(text, from) && MatchesFrom(node, text, s))
            && (found.Some? ==> Finds(node, text, from, found.value))
  {
    hide Pattern, Denotes, Search, Accepts, Valid, Gen, InTable, GroupsBelow, SpansOf, GroupsDelimit, Reported, Steady, Preferred;
    var f := FlagsOf(flags);
    PatternFits(pattern, f);
    var r := Pattern(pattern, f).value;
    var p, node := Compiled(pattern, flags), r.value;
    var slots := (r.used.groups + 1) * 2;
    SearchIsLeftmost(p, text, from);
    forall s, e: nat | s in Starts(text, from)
      ensures Accepts(p, text, s, e) <==> Denotes(node, text, s, e)
    {
      AcceptsWhatItDenotes(node, r.used.ranges, slots, text, s, e);
    }
    var found := Search(p, text, from);
    forall s | s in Starts(text, from) && MatchesFrom(node, text, s)
      ensures found.Some? && found.value[0] <= s
    {
      var e: nat :| Denotes(node, text, s, e);
      assert Accepts(p, text, s, e);
    }
    if found.Some? {
      FoundSpans(pattern, flags, text, from);
      if Steady(node) {
        SearchPrefers(node, r.used.ranges, slots, text, from);
      }
    }
  }

  lemma FoundSpans(pattern: seq<Byte>, flags: seq<Byte>, text: seq<Byte>, from: nat)
    requires Compiles(pattern, flags) && from <= |text| && Valid(Compiled(pattern, flags))
    requires Search(Compiled(pattern, flags), text, from).Some?
    ensures var node, spans := TreeOf(pattern, flags), Search(Compiled(pattern, flags), text, from).value;
            SpansOf(node, text, spans) && GroupsDelimit(node, text, spans)
  {
    hide Pattern, Search, Accepts, Valid, Gen, InTable, GroupsBelow, SpansOf, GroupsDelimit, Reported, Numbers, Starts;
    var f := FlagsOf(flags);
    PatternFits(pattern, f);
    PatternNumbers(pattern, f);
    var r := Pattern(pattern, f).value;
    var p, slots := Compiled(pattern, flags), (r.used.groups + 1) * 2;
    SearchIsLeftmost(p, text, from);
    var spans := Search(p, text, from).value;
    var u, n :| Reported(p, text, spans, spans[0], u, n);
    ReportedIsParsed(r.value, r.used.ranges, slots, text, spans, spans[0], u, n);
    SpansDelimit(r.value, text, spans);
  }

  lemma PatternNumbers(s: seq<Byte>, flags: Flags)
    requires Pattern(s, flags).Some?
    ensures OneNumberEach(Pattern(s, flags).value.value)
  {
    hide Alternatives, Gen;
    AlternativesNumber(s, 0, 0, 0, Used(0, [], 0, 0), flags);
  }

  /** A pattern that is written out compiles unless it is too big, and what a search then finds are
      the spans of a match of what was written. */
  lemma WrittenSearch(e: RegexNotation.Expr, flags: seq<Byte>, text: seq<Byte>, from: nat)
    requires RegexNotation.ExprOk(e) && FlagsOk(flags) && from <= |text|
    ensures var pattern := RegexNotation.Write(e);
            var read := Pattern(pattern, FlagsOf(flags));
            && NoNul(pattern) && read.Some? && (Compiles(pattern, flags) <==> Within(read.value.used))
            && read.value.used.groups == RegexNotation.Groups(e)
            && (Compiles(pattern, flags) ==>
                  var node := RegexNotation.Tree(e, 0, 0, FlagsOf(flags));
                  && TreeOf(pattern, flags) == node && Valid(Compiled(pattern, flags))
                  && var found := Search(Compiled(pattern, flags), text, from);
                     && (found.Some? <==> exists s :: s in Starts(text, from) && MatchesFrom(node, text, s))
                     && (found.Some? ==> Finds(node, text, from, found.value)))
  {
    hide Pattern, Search, Valid, MatchesFrom, Finds, Compiled, RegexNotation.Tree, RegexNotation.Write, RegexNotation.ExprOk;
    RegexNotation.ReadsWhatWasWritten(e, FlagsOf(flags));
    if Compiles(RegexNotation.Write(e), flags) {
      CompiledSearch(RegexNotation.Write(e), flags, text, from);
    }
  }

  /** Compile, then search; a start past the end finds nothing. */
  method CompileAndSearch(pattern: seq<Byte>, flags: seq<Byte>, text: seq<Byte>, from: nat)
    returns (compiled: bool, found: bool, spans: seq<int>)
    requires NoNul(pattern)
    ensures compiled <==> Compiles(pattern, flags)
    ensures compiled ==>
      (found <==> from <= |text| && exists s :: s in Starts(text, from) && MatchesFrom(TreeOf(pattern, flags), text, s))
    ensures compiled && found ==> Finds(TreeOf(pattern, flags), text, from, spans)
  {
    hide Pattern, Finds, RegexBacktrack.Search, Valid, MatchesFrom, Compiled;
    compiled, found, spans := false, false, [];
    var re := Compile(pattern, flags);
    if re != null {
      compiled := true;
      var out := new int[re.slots];
      ghost var work;
      found, work := re.Search(text, from, out);
      spans := out[..];
      if from > |text| {
        SearchPastEnd(re.program, text, from);
      } else {
        CompiledSearch(pattern, flags, text, from);
      }
    }
  }

  lemma SearchPastEnd(p: Program, text: seq<Byte>, from: nat)
    requires Valid(p) && from > |text|
    ensures Search(p, text, from) == None
  {
  }
}
