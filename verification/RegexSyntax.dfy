/** How a pattern is read. This is the reading without limits: it records how much code, how many
    ranges and what depth were needed on the way, and the compiler gives up when one of them is
    more than it has room for. */
module RegexSyntax {
  import opened Common
  import opened Utf8
  import opened RegexProgram
  import opened RegexTree

  const MAX_REPEAT := 1000

  datatype Flags = Flags(icase: bool, multi: bool, dotall: bool)

  /** What reading has used so far: groups opened, ranges kept, and the most code and the greatest
      depth there ever was. */
  datatype Used = Used(groups: nat, ranges: seq<Range>, code: nat, depth: nat) {
    function Code(length: nat): Used {
      this.(code := if length > code then length else code)
    }

    function Depth(d: nat): Used {
      this.(depth := if d > depth then d else depth)
    }

    /** Nothing that was used is given back. */
    predicate AtMost(later: Used) {
      groups <= later.groups && ranges <= later.ranges && code <= later.code && depth <= later.depth
    }
  }

  datatype Read<T> = Read(value: T, at: nat, used: Used)

  const ANYTHING_ELSE: nat := BAD_BYTE + 255

  /** The ranges of `\d`, `\w`, `\s` and of everything but them. */
  function Shorthand(letter: Byte): Option<seq<Range>> {
    if letter == Ascii('d') then Some([Range(48, 57)])
    else if letter == Ascii('D') then Some([Range(0, 47), Range(58, ANYTHING_ELSE)])
    else if letter == Ascii('w') then Some([Range(48, 57), Range(65, 90), Range(95, 95), Range(97, 122)])
    else if letter == Ascii('W') then
      Some([Range(0, 47), Range(58, 64), Range(91, 94), Range(96, 96), Range(123, ANYTHING_ELSE)])
    else if letter == Ascii('s') then Some([Range(9, 13), Range(32, 32)])
    else if letter == Ascii('S') then Some([Range(0, 8), Range(14, 31), Range(33, ANYTHING_ELSE)])
    else None
  }

  /** What an escape stands for, read from behind its backslash, and the place behind it. */
  function Escape(s: seq<Byte>, at: nat): (r: Option<(nat, nat)>)
    ensures r.Some? ==> at < r.value.1 <= |s|
  {
    var c := Peek(s, at);
    if c == 0 || Ascii('1') <= c <= Ascii('9') then None
    else if IsLetter(c) || c == Ascii('0') then
      if c == Ascii('n') then Some((10, at + 1))
      else if c == Ascii('t') then Some((9, at + 1))
      else if c == Ascii('r') then Some((13, at + 1))
      else if c == Ascii('f') then Some((12, at + 1))
      else if c == Ascii('v') then Some((11, at + 1))
      else if c == Ascii('x') then
        var high, low := Hex(Peek(s, at + 1)), Hex(Peek(s, at + 2));
        if high.Some? && low.Some? then Some((high.value * 16 + low.value, at + 3)) else None
      else None
    else
      var d := Decode(s, at);
      Some((d.c, at + d.size))
  }

  /** The end of a range in a class, at the character after the `-`. */
  function RangeEnd(s: seq<Byte>, at: nat): (r: Option<(nat, nat)>)
    requires at < |s|
    ensures r.Some? ==> at < r.value.1 <= |s|
  {
    if s[at] == Ascii('\\') then Escape(s, at + 1)
    else
      var d := Decode(s, at);
      Some((d.c, at + d.size))
  }

  /** The start of a range in a class. */
  function RangeStart(s: seq<Byte>, at: nat): (r: Option<(nat, nat)>)
    requires at < |s|
    ensures r.Some? ==> at < r.value.1 <= |s|
  {
    if s[at] != Ascii('\\') then
      var d := Decode(s, at);
      Some((d.c, at + d.size))
    else if Peek(s, at + 1) == Ascii('b') then Some((8, at + 2))
    else Escape(s, at + 1)
  }

  /** One character of a class, or a range of them, and where it ends. */
  function MemberAt(s: seq<Byte>, at: nat): (r: Option<(Range, nat)>)
    requires at < |s|
    ensures r.Some? ==> at < r.value.1 <= |s|
  {
    var low := RangeStart(s, at);
    if low.None? then None
    else
      var (c, next) := low.value;
      if Peek(s, next) == Ascii('-') && Peek(s, next + 1) != Ascii(']') && Peek(s, next + 1) != 0 then
        var high := RangeEnd(s, next + 1);
        if high.None? || high.value.0 < c then None else Some((Range(c, high.value.0), high.value.1))
      else
        Some((Range(c, c), next))
  }

  lemma ShorthandPresent(s: seq<Byte>, at: nat)
    requires Shorthand(Peek(s, at)).Some?
    ensures at < |s|
  {
  }

  /** The members of a class from `at` on, up to the bracket that closes it; a bracket that comes
      first is a member. */
  function ClassMembers(s: seq<Byte>, at: nat, any: bool, members: seq<Range>): (r: Option<(seq<Range>, nat)>)
    ensures r.Some? ==> at < r.value.1 <= |s| && members <= r.value.0
    decreases |s| - at
  {
    if Peek(s, at) == 0 then None
    else if s[at] == Ascii(']') && any then Some((members, at + 1))
    else if s[at] == Ascii('\\') && Shorthand(Peek(s, at + 1)).Some? then
      ClassMembers(s, at + 2, true, members + Shorthand(Peek(s, at + 1)).value)
    else
      var member := MemberAt(s, at);
      if member.None? then None else ClassMembers(s, member.value.1, true, members + [member.value.0])
  }

  /** A decimal number, at most MAX_REPEAT, and where it ends. */
  function Number(s: seq<Byte>, at: nat, value: nat): (r: Option<(nat, nat)>)
    requires value <= MAX_REPEAT
    ensures r.Some? ==> at <= r.value.1 && r.value.0 <= MAX_REPEAT && (IsDigit(Peek(s, at)) ==> at < r.value.1)
    decreases |s| - at
  {
    if !IsDigit(Peek(s, at)) then Some((value, at))
    else if value * 10 + (s[at] - Ascii('0')) > MAX_REPEAT then None
    else Number(s, at + 1, value * 10 + (s[at] - Ascii('0')))
  }

  /** A brace opens a count, or one that is out of bounds, or is no count and stands for itself. */
  datatype Counts = NoCounts | BadCounts | Counts(least: nat, most: int, at: nat)

  function CountsAt(s: seq<Byte>, at: nat): (r: Counts)
    requires Peek(s, at) == Ascii('{')
    ensures r.Counts? ==> at < r.at <= |s| && (r.most >= 0 ==> r.least <= r.most)
  {
    if !IsDigit(Peek(s, at + 1)) then NoCounts
    else
      var low := Number(s, at + 1, 0);
      if low.None? then BadCounts
      else
        var least, next := low.value.0, low.value.1;
        if Peek(s, next) == Ascii('}') then Counts(least, least, next + 1)
        else if Peek(s, next) != Ascii(',') then NoCounts
        else if Peek(s, next + 1) == Ascii('}') then Counts(least, -1, next + 2)
        else if !IsDigit(Peek(s, next + 1)) then NoCounts
        else
          var high := Number(s, next + 1, 0);
          if high.None? || high.value.0 < least then BadCounts
          else if Peek(s, high.value.1) != Ascii('}') then NoCounts
          else Counts(least, high.value.0, high.value.1 + 1)
  }

  /** What repeats an atom: nothing, a repeat, or something that is not allowed there. */
  datatype Suffix = Once | BadSuffix | Suffix(least: nat, most: int, lazy: bool, at: nat)

  function SuffixAt(s: seq<Byte>, at: nat): (r: Suffix)
    ensures r.Suffix? ==> at < r.at <= |s| && (r.most >= 0 ==> r.least <= r.most)
  {
    var c := Peek(s, at);
    var counts :=
      if c == Ascii('*') then Counts(0, -1, at + 1)
      else if c == Ascii('+') then Counts(1, -1, at + 1)
      else if c == Ascii('?') then Counts(0, 1, at + 1)
      else if c == Ascii('{') then CountsAt(s, at)
      else NoCounts;
    match counts
    case NoCounts => Once
    case BadCounts => BadSuffix
    case Counts(least, most, next) =>
      var lazy := Peek(s, next) == Ascii('?');
      var after := if lazy then next + 1 else next;
      var d := Peek(s, after);
      if d == Ascii('*') || d == Ascii('+') || d == Ascii('?') || (d == Ascii('{') && !CountsAt(s, after).NoCounts?) then
        BadSuffix
      else
        Suffix(least, most, lazy, after)
  }

  // ---------- the pattern ----------

  predicate EndsPieces(b: Byte) {
    b == 0 || b == Ascii('|') || b == Ascii(')')
  }

  /** One alternative after another. `base` is how much code comes before. */
  function Alternatives(s: seq<Byte>, at: nat, base: nat, depth: nat, used: Used, flags: Flags): (r: Option<Read<Node>>)
    ensures r.Some? ==> at <= r.value.at && used.AtMost(r.value.used)
    decreases |s| - at, 3
  {
    var first := Pieces(s, at, base, depth, used, flags, Empty);
    if first.None? then None
    else
      var Read(left, next, used1) := first.value;
      if Peek(s, next) != Ascii('|') then first
      else
        var more := base + |Gen(left)| + 2;
        var rest := Alternatives(s, next + 1, more, depth, used1.Code(more), flags);
        if rest.None? then None
        else Some(Read(Alt(left, rest.value.value), rest.value.at, rest.value.used))
  }

  /** Piece after piece, added to `soFar`. */
  function Pieces(s: seq<Byte>, at: nat, base: nat, depth: nat, used: Used, flags: Flags, soFar: Node): (r: Option<Read<Node>>)
    ensures r.Some? ==> at <= r.value.at && used.AtMost(r.value.used)
    decreases |s| - at, 2
  {
    if EndsPieces(Peek(s, at)) then Some(Read(soFar, at, used))
    else
      var piece := Piece(s, at, base + |Gen(soFar)|, depth, used, flags);
      if piece.None? then None
      else Pieces(s, piece.value.at, base, depth, piece.value.used, flags, Cat(soFar, piece.value.value))
  }

  /** A tree with the repeat that follows it, if one does. */
  function Piece(s: seq<Byte>, at: nat, base: nat, depth: nat, used: Used, flags: Flags): (r: Option<Read<Node>>)
    requires !EndsPieces(Peek(s, at))
    ensures r.Some? ==> at < r.value.at && used.AtMost(r.value.used)
    decreases |s| - at, 1
  {
    var atom := Atom(s, at, base, depth, used, flags);
    if atom.None? then None
    else
      match SuffixAt(s, atom.value.at)
      case Once => atom
      case BadSuffix => None
      case Suffix(least, most, lazy, next) =>
        var node := Repeat(atom.value.value, least, most, lazy);
        Some(Read(node, next, atom.value.used.Code(base + |Gen(node)|)))
  }

  /** What a parenthesis opens: where its pattern begins, the code before it, what has been used,
      and the number of the group, 0 when it is none. */
  datatype Opening = Opening(at: nat, base: nat, used: Used, number: nat)

  function OpenGroup(s: seq<Byte>, at: nat, base: nat, depth: nat, used: Used): (r: Option<Opening>)
    requires Peek(s, at) == Ascii('(')
    ensures r.Some? ==> at < r.value.at && used.AtMost(r.value.used)
  {
    if Peek(s, at + 1) != Ascii('?') then
      var number := used.groups + 1;
      Some(Opening(at + 1, base + 1, used.(groups := number).Code(base + 1).Depth(depth + 1), number))
    else if Peek(s, at + 2) != Ascii(':') then None
    else Some(Opening(at + 3, base, used.Depth(depth + 1), 0))
  }

  /** One atom. */
  function Atom(s: seq<Byte>, at: nat, base: nat, depth: nat, used: Used, flags: Flags): (r: Option<Read<Node>>)
    requires !EndsPieces(Peek(s, at))
    ensures r.Some? ==> at < r.value.at && used.AtMost(r.value.used)
    decreases |s| - at, 0
  {
    var c := s[at];
    var one := used.Code(base + 1);
    if c == Ascii('(') then
      var o := OpenGroup(s, at, base, depth, used);
      if o.None? then None
      else
        var inner := Alternatives(s, o.value.at, o.value.base, depth + 1, o.value.used, flags);
        if inner.None? || Peek(s, inner.value.at) != Ascii(')') then None
        else if o.value.number == 0 then Some(inner.value.(at := inner.value.at + 1))
        else
          var node := Group(o.value.number, inner.value.value);
          Some(Read(node, inner.value.at + 1, inner.value.used.Code(base + |Gen(node)|)))
    else if c == Ascii('[') then
      var negated := Peek(s, at + 1) == Ascii('^');
      var first := |used.ranges|;
      var members := ClassMembers(s, if negated then at + 2 else at + 1, false, []);
      if members.None? then None
      else
        Some(Read(Set(first, members.value.0, negated, flags.icase), members.value.1,
                  one.(ranges := used.ranges + members.value.0)))
    else if c == Ascii('.') then Some(Read(Dot(flags.dotall), at + 1, one))
    else if c == Ascii('^') then Some(Read(At(if flags.multi then LineStart else TextStart), at + 1, one))
    else if c == Ascii('$') then Some(Read(At(if flags.multi then LineEnd else TextEnd), at + 1, one))
    else if c == Ascii('*') || c == Ascii('+') || c == Ascii('?') then None
    else if c == Ascii('\\') then
      var letter := Peek(s, at + 1);
      if letter == Ascii('b') then Some(Read(At(Boundary), at + 2, one))
      else if letter == Ascii('B') then Some(Read(At(NoBoundary), at + 2, one))
      else if Shorthand(letter).Some? then
        // the case flag does not reach a shorthand outside of brackets
        Some(Read(Set(|used.ranges|, Shorthand(letter).value, false, false), at + 2,
                  one.(ranges := used.ranges + Shorthand(letter).value)))
      else
        var e := Escape(s, at + 1);
        if e.None? then None else Some(Read(Lit(e.value.0, flags.icase), e.value.1, one))
    else
      var d := Decode(s, at);
      Some(Read(Lit(d.c, flags.icase), at + d.size, one))
  }

  /** The whole pattern: everything must have been read. */
  function Pattern(s: seq<Byte>, flags: Flags): Option<Read<Node>> {
    var r := Alternatives(s, 0, 0, 0, Used(0, [], 0, 0), flags);
    if r.None? || Peek(s, r.value.at) == Ascii(')') then None
    else Some(r.value.(used := r.value.used.Code(|Gen(r.value.value)| + 1)))
  }
}
