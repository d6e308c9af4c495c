/** JSON values as they are printed, and what the reading makes of them. */
module Json {
  import opened Common
  import opened Utf8
  import opened JsonText
  import opened JsonRead

  /** A value with the space there may be between its tokens. A token is a number or a word. */
  datatype Json =
    | Text(s: CString)
    | Token(text: seq<Byte>)
    | List(gap: seq<Byte>, items: seq<Item>)
    | Object(gap: seq<Byte>, members: seq<Member>)

  datatype Item = Item(before: seq<Byte>, value: Json, after: seq<Byte>)

  datatype Member = Member(before: seq<Byte>, key: CString, after: seq<Byte>, item: Item)

  predicate Spaces(w: seq<Byte>) {
    forall k :: 0 <= k < |w| ==> IsSpace(w[k])
  }

  predicate TokenOk(text: seq<Byte>) {
    text != [] && StartsToken(text[0]) && forall k :: 0 <= k < |text| ==> InToken(text[k])
  }

  predicate Ok(j: Json)
    decreases j
  {
    match j
    case Text(_) => true
    case Token(text) => TokenOk(text)
    case List(gap, items) => Spaces(gap) && forall i :: 0 <= i < |items| ==> ItemOk(items[i])
    case Object(gap, members) => Spaces(gap) && forall i :: 0 <= i < |members| ==> MemberOk(members[i])
  }

  predicate ItemOk(x: Item)
    decreases x
  {
    Spaces(x.before) && Ok(x.value) && Spaces(x.after)
  }

  predicate MemberOk(m: Member)
    decreases m
  {
    Spaces(m.before) && Spaces(m.after) && ItemOk(m.item)
  }

  // ---------- printing ----------

  function Print(j: Json): (r: seq<Byte>)
    decreases j
  {
    match j
    case Text(s) => Quoted(s)
    case Token(text) => text
    case List(gap, items) => [Ascii('[')] + (if items == [] then gap else PrintItems(items)) + [Ascii(']')]
    case Object(gap, members) => [Ascii('{')] + (if members == [] then gap else PrintMembers(members)) + [Ascii('}')]
  }

  function PrintItem(x: Item): seq<Byte>
    decreases x
  {
    x.before + Print(x.value) + x.after
  }

  function PrintMember(m: Member): seq<Byte>
    decreases m
  {
    m.before + Quoted(m.key) + m.after + [Ascii(':')] + PrintItem(m.item)
  }

  function PrintItems(items: seq<Item>): seq<Byte>
    requires items != []
    decreases items
  {
    PrintItem(items[0]) + (if |items| == 1 then [] else [Ascii(',')] + PrintItems(items[1..]))
  }

  function PrintMembers(members: seq<Member>): seq<Byte>
    requires members != []
    decreases members
  {
    PrintMember(members[0]) + (if |members| == 1 then [] else [Ascii(',')] + PrintMembers(members[1..]))
  }

  // ---------- spaces and tokens ----------

  lemma {:induction false} SpaceRead(s: seq<Byte>, p: nat, w: seq<Byte>)
    requires Has(s, p, w) && Spaces(w) && !IsSpace(Peek(s, p + |w|))
    ensures SpaceEnd(s, p) == p + |w|
    decreases |w|
  {
    if w != [] {
      HasByte(s, p, w, 0);
      HasSplit(s, p, [w[0]], w[1..]);
      assert [w[0]] + w[1..] == w;
      SpaceRead(s, p + 1, w[1..]);
    }
  }

  lemma {:induction false} TokenRead(s: seq<Byte>, p: nat, text: seq<Byte>)
    requires Has(s, p, text) && (forall k :: 0 <= k < |text| ==> InToken(text[k])) && !InToken(Peek(s, p + |text|))
    ensures TokenEnd(s, p) == p + |text|
    decreases |text|
  {
    if text != [] {
      HasByte(s, p, text, 0);
      assert [text[0]] + text[1..] == text;
      HasSplit(s, p, [text[0]], text[1..]);
      TokenRead(s, p + 1, text[1..]);
    }
  }

  // ---------- strings ----------

  predicate IsControl(b: Byte) {
    0 < b < 0x20 && b != 10 && b != 13 && b != 9
  }

  lemma ControlCode(s: seq<Byte>, p: nat, b: Byte)
    requires IsControl(b) && Has(s, p, EscapedByte(b))
    ensures CodeAt(s, p) == Some((b as nat, 6 as nat)) && Encode(b) == [b]
  {
    var e := EscapedByte(b);
    HasByte(s, p, e, 2);
    HasByte(s, p, e, 3);
    HasByte(s, p, e, 4);
    HasByte(s, p, e, 5);
    HexFour(s, p + 2, 0, 0, b / 16, b % 16);
  }

  /** Four bytes that mean nothing inside a string. */
  lemma FourPlain(s: seq<Byte>, p: nat)
    requires p + 4 <= |s|
    requires forall k :: p <= k < p + 4 ==> s[k] != 0 && s[k] != QUOTE && s[k] != BACKSLASH
    ensures InsideEnd(s, p) == InsideEnd(s, p + 4)
  {
    assert InsideEnd(s, p) == InsideEnd(s, p + 1) && InsideEnd(s, p + 1) == InsideEnd(s, p + 2);
    assert InsideEnd(s, p + 2) == InsideEnd(s, p + 3) && InsideEnd(s, p + 3) == InsideEnd(s, p + 4);
  }

  lemma ControlRead(s: seq<Byte>, p: nat, b: Byte, out: seq<Byte>)
    requires IsControl(b) && Has(s, p, EscapedByte(b))
    ensures InsideEnd(s, p) == InsideEnd(s, p + 6)
    ensures InsideText(s, p, out) == InsideText(s, p + 6, out + [b])
  {
    hide CodeAt, Encode;
    var e := EscapedByte(b);
    ControlCode(s, p, b);
    HasByte(s, p, e, 0);
    HasByte(s, p, e, 1);
    forall k | p + 2 <= k < p + 6 ensures s[k] != 0 && s[k] != QUOTE && s[k] != BACKSLASH {
      HasByte(s, p, e, k - p);
    }
    FourPlain(s, p + 2);
  }

  /** One written byte is skipped and decoded. */
  lemma ByteRead(s: seq<Byte>, p: nat, b: Byte, out: seq<Byte>)
    requires b != 0 && Has(s, p, EscapedByte(b))
    ensures InsideEnd(s, p) == InsideEnd(s, p + |EscapedByte(b)|)
    ensures InsideText(s, p, out) == InsideText(s, p + |EscapedByte(b)|, out + [b])
  {
    hide CodeAt, Encode;
    var e := EscapedByte(b);
    HasByte(s, p, e, 0);
    if IsControl(b) {
      ControlRead(s, p, b, out);
    } else if |e| == 2 {
      HasByte(s, p, e, 1);
    }
  }

  lemma {:induction false} EscapedRead(s: seq<Byte>, p: nat, t: CString, out: seq<Byte>)
    requires Has(s, p, Escaped(t) + [QUOTE])
    ensures InsideEnd(s, p) == Some(p + |Escaped(t)| + 1)
    ensures InsideText(s, p, out) == Some(out + t)
    decreases |t|
  {
    hide EscapedByte, CodeAt, Encode;
    if t == [] {
      HasByte(s, p, Escaped(t) + [QUOTE], 0);
      assert out + t == out;
    } else {
      var e, rest := EscapedByte(t[0]), Escaped(t[1..]) + [QUOTE];
      assert Escaped(t) + [QUOTE] == e + rest;
      HasSplit(s, p, e, rest);
      ByteRead(s, p, t[0], out);
      EscapedRead(s, p + |e|, t[1..], out + [t[0]]);
      assert (out + [t[0]]) + t[1..] == out + t;
    }
  }

  /** A printed string is skipped to its end, and decoded to what it was. */
  lemma QuotedRead(s: seq<Byte>, p: nat, t: CString)
    requires Has(s, p, Quoted(t))
    ensures Peek(s, p) == QUOTE && StringEnd(s, p) == Some(p + |Quoted(t)|)
    ensures Has(s, p + 1, Escaped(t)) && TextAt(s, p) == Some(t)
  {
    hide InsideEnd, InsideText, Escaped;
    HasByte(s, p, Quoted(t), 0);
    assert Quoted(t) == [QUOTE] + (Escaped(t) + [QUOTE]);
    HasSplit(s, p, [QUOTE], Escaped(t) + [QUOTE]);
    HasSplit(s, p + 1, Escaped(t), [QUOTE]);
    EscapedRead(s, p + 1, t, []);
    SpaceRead(s, p, []);
    assert [] + t == t;
  }

  // ---------- skipping a value ----------

  predicate StartsValue(b: Byte) {
    b == QUOTE || b == Ascii('[') || b == Ascii('{') || StartsToken(b)
  }

  lemma FirstByte(j: Json)
    requires Ok(j)
    ensures Print(j) != [] && StartsValue(Print(j)[0]) && !IsSpace(Print(j)[0])
  {
    hide PrintItems, PrintMembers;
  }

  /** What follows the first value of a list, from the space after it on. */
  function ItemsTail(items: seq<Item>): seq<Byte>
    requires items != []
  {
    (if |items| == 1 then [] else [Ascii(',')] + PrintItems(items[1..])) + [Ascii(']')]
  }

  function MembersTail(members: seq<Member>): seq<Byte>
    requires members != []
  {
    (if |members| == 1 then [] else [Ascii(',')] + PrintMembers(members[1..])) + [Ascii('}')]
  }

  lemma ItemsAre(items: seq<Item>)
    requires items != []
    ensures PrintItems(items) + [Ascii(']')] == items[0].before + Print(items[0].value) + items[0].after + ItemsTail(items)
  {
    hide Print;
  }

  /** What follows the colon of the first member of an object. */
  function MemberRest(members: seq<Member>): seq<Byte>
    requires members != []
  {
    var x := members[0].item;
    x.before + Print(x.value) + x.after + MembersTail(members)
  }

  lemma MembersAre(members: seq<Member>)
    requires members != []
    ensures var m := members[0];
            PrintMembers(members) + [Ascii('}')] == m.before + (Quoted(m.key) + m.after + [Ascii(':')] + MemberRest(members))
  {
    hide Quoted, Print, PrintMembers;
    var m, x, more := members[0], members[0].item, if |members| == 1 then [] else [Ascii(',')] + PrintMembers(members[1..]);
    PrintMembersIs(members);
    Regroup(m.before, Quoted(m.key), m.after, [Ascii(':')], x.before, Print(x.value), x.after, more, [Ascii('}')]);
  }

  lemma PrintMembersIs(members: seq<Member>)
    requires members != []
    ensures PrintMembers(members) == PrintMember(members[0]) + (if |members| == 1 then [] else [Ascii(',')] + PrintMembers(members[1..]))
  {
    hide PrintMember;
  }

  lemma Regroup(a: seq<Byte>, b: seq<Byte>, c: seq<Byte>, d: seq<Byte>, e: seq<Byte>, f: seq<Byte>, g: seq<Byte>, h: seq<Byte>, i: seq<Byte>)
    ensures (a + b + c + d + (e + f + g)) + h + i == a + (b + c + d + (e + f + g + (h + i)))
  {
    var x, y := b + c + d, e + f + g;
    assert a + b + c + d == a + x;
    assert (a + x + y) + h + i == a + (x + (y + (h + i)));
  }

  /** A value with space around it is skipped, and then the space after it. */
  lemma SkipsItem(s: seq<Byte>, p: nat, w: seq<Byte>, j: Json, after: seq<Byte>, tail: seq<Byte>)
    requires Spaces(after) && tail != [] && !IsSpace(tail[0]) && !InToken(tail[0])
    requires Has(s, p, w + Print(j) + after + tail)
    ensures Has(s, p, w + Print(j)) && !InToken(Peek(s, p + |w + Print(j)|))
    ensures SpaceEnd(s, p + |w + Print(j)|) == p + |w + Print(j) + after|
    ensures Has(s, p + |w + Print(j) + after|, tail) && Peek(s, p + |w + Print(j) + after|) == tail[0]
  {
    hide Print;
    var v := w + Print(j);
    HasSplit(s, p, v + after, tail);
    HasSplit(s, p, v, after);
    HasByte(s, p + |v + after|, tail, 0);
    SpaceRead(s, p + |v|, after);
    if after != [] {
      HasByte(s, p + |v|, after, 0);
    }
  }

  /** What kind of value there is, by its first byte. */
  lemma KindOfValue(s: seq<Byte>, p: nat, q: nat)
    requires p <= |s| && q <= |s| && SpaceEnd(s, p) == q
    ensures Peek(s, q) == QUOTE ==> ValueEnd(s, p) == StringEnd(s, q)
    ensures StartsToken(Peek(s, q)) ==> ValueEnd(s, p) == Some(TokenEnd(s, q))
    ensures Peek(s, q) == Ascii('[') ==>
              var first := SpaceEnd(s, q + 1);
              ValueEnd(s, p) == if Peek(s, first) == Ascii(']') then Some(first + 1) else ItemsEnd(s, first, Ascii(']'))
    ensures Peek(s, q) == Ascii('{') ==>
              var first := SpaceEnd(s, q + 1);
              ValueEnd(s, p) == if Peek(s, first) == Ascii('}') then Some(first + 1) else ItemsEnd(s, first, Ascii('}'))
  {
    hide SpaceEnd, StringEnd, TokenEnd, ItemsEnd;
  }

  lemma FirstByteOf(j: Json)
    requires Ok(j)
    ensures Print(j) != [] && !IsSpace(Print(j)[0])
    ensures j.Text? ==> Print(j)[0] == QUOTE && Print(j) == Quoted(j.s)
    ensures j.Token? ==> StartsToken(Print(j)[0]) && Print(j) == j.text && TokenOk(j.text)
    ensures j.List? ==> Print(j)[0] == Ascii('[')
    ensures j.Object? ==> Print(j)[0] == Ascii('{')
  {
    hide PrintItems, PrintMembers;
  }

  /** What has been printed is skipped to exactly its end. */
  lemma {:induction false} SkipsWhatWasPrinted(s: seq<Byte>, p: nat, w: seq<Byte>, j: Json)
    requires Ok(j) && Spaces(w) && Has(s, p, w + Print(j)) && !InToken(Peek(s, p + |w + Print(j)|))
    ensures SpaceEnd(s, p) == p + |w|
    ensures ValueEnd(s, p) == Some(p + |w + Print(j)|)
    decreases j, 1
  {
    hide SpaceEnd, TokenEnd, StringEnd, ValueEnd, ItemsEnd, Spaces, Quoted, Print, Ok, Has;
    var q := p + |w|;
    HasSplit(s, p, w, Print(j));
    FirstByteOf(j);
    HasByte(s, q, Print(j), 0);
    SpaceRead(s, p, w);
    KindOfValue(s, p, q);
    match j {
      case Text(t) => QuotedRead(s, q, t);
      case Token(text) => TokenRead(s, q, text);
      case List(gap, items) => SkipsList(s, q, gap, items);
      case Object(gap, members) => SkipsObject(s, q, gap, members);
    }
  }

  lemma SkipsEmpty(s: seq<Byte>, q: nat, open: Byte, gap: seq<Byte>, close: Byte)
    requires Spaces(gap) && !IsSpace(close) && Has(s, q, [open] + gap + [close])
    ensures q < |s| && SpaceEnd(s, q + 1) == q + 1 + |gap| && Peek(s, q + 1 + |gap|) == close
  {
    assert [open] + gap + [close] == [open] + (gap + [close]);
    HasSplit(s, q, [open], gap + [close]);
    HasSplit(s, q + 1, gap, [close]);
    HasByte(s, q + 1 + |gap|, [close], 0);
    SpaceRead(s, q + 1, gap);
  }

  /** After the bracket that opens a list comes the space before its first value. */
  lemma SkipsToFirst(s: seq<Byte>, q: nat, open: Byte, before: seq<Byte>, rest: seq<Byte>)
    requires Spaces(before) && rest != [] && !IsSpace(rest[0]) && Has(s, q, [open] + (before + rest))
    ensures q < |s| && SpaceEnd(s, q + 1) == q + 1 + |before|
    ensures Has(s, q + 1 + |before|, rest) && Peek(s, q + 1 + |before|) == rest[0]
  {
    HasSplit(s, q, [open], before + rest);
    HasSplit(s, q + 1, before, rest);
    HasByte(s, q + 1 + |before|, rest, 0);
    SpaceRead(s, q + 1, before);
  }

  lemma ListIs(gap: seq<Byte>, items: seq<Item>)
    requires items != []
    ensures var x := items[0];
            Print(List(gap, items)) == [Ascii('[')] + (x.before + ([] + Print(x.value) + x.after + ItemsTail(items)))
  {
    hide PrintItems;
    ItemsAre(items);
    ListParts(gap, items);
  }

  lemma ListParts(gap: seq<Byte>, items: seq<Item>)
    requires items != []
    ensures Print(List(gap, items)) == [Ascii('[')] + (PrintItems(items) + [Ascii(']')])
  {
    hide PrintItems;
  }

  lemma {:induction false} SkipsList(s: seq<Byte>, q: nat, gap: seq<Byte>, items: seq<Item>)
    requires Ok(List(gap, items)) && Has(s, q, Print(List(gap, items)))
    ensures q < |s|
    ensures var first := SpaceEnd(s, q + 1);
            if items == [] then Peek(s, first) == Ascii(']') && first + 1 == q + |Print(List(gap, items))|
            else Peek(s, first) != Ascii(']') && ItemsEnd(s, first, Ascii(']')) == Some(q + |Print(List(gap, items))|)
    decreases items, 1
  {
    hide SpaceEnd, ItemsEnd, PrintItems, PrintMembers, ItemsTail, Has, Spaces;
    if items == [] {
      SkipsEmpty(s, q, Ascii('['), gap, Ascii(']'));
    } else {
      var x := items[0];
      assert ItemOk(x);
      FirstByte(x.value);
      ListIs(gap, items);
      SkipsToFirst(s, q, Ascii('['), x.before, [] + Print(x.value) + x.after + ItemsTail(items));
      NoSpaces();
      SkipsItems(s, q + 1 + |x.before|, [], items);
    }
  }

  lemma NoSpaces()
    ensures Spaces([])
  {
  }

  lemma StartOf(s: seq<Byte>, p: nat, j: Json, rest: seq<Byte>)
    requires Ok(j) && Has(s, p, Print(j) + rest)
    ensures StartsValue(Peek(s, p)) && !IsSpace(Peek(s, p))
  {
    FirstByte(j);
    HasByte(s, p, Print(j) + rest, 0);
  }

  lemma ItemsTailIs(items: seq<Item>)
    requires items != []
    ensures ItemsTail(items) != [] && !IsSpace(ItemsTail(items)[0]) && !InToken(ItemsTail(items)[0])
    ensures |items| == 1 ==> ItemsTail(items) == [Ascii(']')]
    ensures |items| > 1 ==>
              var more := items[1..];
              ItemsTail(items) == [Ascii(',')] + (more[0].before + Print(more[0].value) + more[0].after + ItemsTail(more))
  {
    if |items| > 1 {
      ItemsAre(items[1..]);
      hide Print;
      assert ItemsTail(items) == [Ascii(',')] + (PrintItems(items[1..]) + [Ascii(']')]);
    }
  }

  lemma {:induction false} SkipsItems(s: seq<Byte>, p: nat, w: seq<Byte>, items: seq<Item>)
    requires items != [] && (forall i :: 0 <= i < |items| ==> ItemOk(items[i])) && Spaces(w)
    requires Has(s, p, w + Print(items[0].value) + items[0].after + ItemsTail(items))
    ensures ItemsEnd(s, p, Ascii(']')) == Some(p + |w + Print(items[0].value) + items[0].after + ItemsTail(items)|)
    decreases items, 0
  {
    hide SpaceEnd, ValueEnd, Print, Ok, Spaces, KeyEnd, ItemsTail, Has;
    var x, tail := items[0], ItemsTail(items);
    assert ItemOk(x);
    ItemsTailIs(items);
    SkipsItem(s, p, w, x.value, x.after, tail);
    SkipsWhatWasPrinted(s, p, w, x.value);
    var r := p + |w + Print(x.value) + x.after|;
    if |items| > 1 {
      var more := items[1..];
      assert forall i :: 0 <= i < |more| ==> more[i] == items[i + 1];
      assert ItemOk(more[0]);
      HasSplit(s, r, [Ascii(',')], more[0].before + Print(more[0].value) + more[0].after + ItemsTail(more));
      SkipsItems(s, r + 1, more[0].before, more);
    }
  }

  // ---------- skipping an object ----------

  lemma MembersTailIs(members: seq<Member>)
    requires members != []
    ensures MembersTail(members) != [] && !IsSpace(MembersTail(members)[0]) && !InToken(MembersTail(members)[0])
    ensures |members| == 1 ==> MembersTail(members) == [Ascii('}')]
    ensures |members| > 1 ==>
              var more := members[1..]; var m := more[0];
              MembersTail(members) == [Ascii(',')] + (m.before + (Quoted(m.key) + m.after + [Ascii(':')] + MemberRest(more)))
  {
    hide Quoted, MemberRest;
    if |members| > 1 {
      MembersAre(members[1..]);
      assert MembersTail(members) == [Ascii(',')] + (PrintMembers(members[1..]) + [Ascii('}')]);
    }
  }

  lemma HasInside(s: seq<Byte>, p: nat, t: seq<Byte>)
    requires Has(s, p, t)
    ensures p + |t| <= |s|
  {
  }

  /** A key with space around it is skipped, and the colon after it. */
  lemma SkipsKey(s: seq<Byte>, p: nat, w: seq<Byte>, key: CString, after: seq<Byte>, rest: seq<Byte>)
    requires Spaces(w) && Spaces(after) && Has(s, p, w + (Quoted(key) + after + [Ascii(':')] + rest))
    ensures SpaceEnd(s, p) == p + |w| && Has(s, p + |w|, Quoted(key))
    ensures StringEnd(s, p + |w|) == Some(p + |w| + |Quoted(key)|)
    ensures SpaceEnd(s, p + |w| + |Quoted(key)|) == p + |w| + |Quoted(key) + after|
    ensures Peek(s, p + |w| + |Quoted(key) + after|) == Ascii(':')
    ensures KeyEnd(s, p) == Some(p + |w| + |Quoted(key) + after| + 1)
    ensures Has(s, p + |w| + |Quoted(key) + after| + 1, rest)
  {
    hide Quoted, Spaces, Escaped, SpaceEnd, StringEnd, Has;
    var q, k := p + |w|, Quoted(key);
    HasSplit(s, p, w, k + after + [Ascii(':')] + rest);
    HasSplit(s, q, k + after + [Ascii(':')], rest);
    HasSplit(s, q, k + after, [Ascii(':')]);
    HasSplit(s, q, k, after);
    HasInside(s, q, k + after + [Ascii(':')]);
    QuotedStarts(key, []);
    assert k + [] == k;
    HasByte(s, q, k, 0);
    QuotedRead(s, q, key);
    HasByte(s, q + |k + after|, [Ascii(':')], 0);
    SpaceRead(s, p, w);
    SpaceRead(s, q + |k|, after);
  }

  lemma ObjectIs(gap: seq<Byte>, members: seq<Member>)
    requires members != []
    ensures var m := members[0];
            Print(Object(gap, members)) == [Ascii('{')] + (m.before + (Quoted(m.key) + m.after + [Ascii(':')] + MemberRest(members)))
  {
    hide PrintMembers, Quoted, MemberRest;
    MembersAre(members);
    ObjectParts(gap, members);
  }

  lemma ObjectParts(gap: seq<Byte>, members: seq<Member>)
    requires members != []
    ensures Print(Object(gap, members)) == [Ascii('{')] + (PrintMembers(members) + [Ascii('}')])
  {
    hide PrintMembers;
  }

  lemma QuotedStarts(key: CString, rest: seq<Byte>)
    ensures Quoted(key) + rest != [] && (Quoted(key) + rest)[0] == QUOTE
  {
  }

  lemma {:induction false} SkipsObject(s: seq<Byte>, q: nat, gap: seq<Byte>, members: seq<Member>)
    requires Ok(Object(gap, members)) && Has(s, q, Print(Object(gap, members)))
    ensures q < |s|
    ensures var first := SpaceEnd(s, q + 1);
            if members == [] then Peek(s, first) == Ascii('}') && first + 1 == q + |Print(Object(gap, members))|
            else Peek(s, first) == QUOTE && ItemsEnd(s, first, Ascii('}')) == Some(q + |Print(Object(gap, members))|)
    decreases members, 1
  {
    hide SpaceEnd, ItemsEnd, PrintItems, PrintMembers, MembersTail, MemberRest, Has, Spaces, Quoted;
    if members == [] {
      SkipsEmpty(s, q, Ascii('{'), gap, Ascii('}'));
    } else {
      var m := members[0];
      assert MemberOk(m);
      ObjectIs(gap, members);
      var rest := Quoted(m.key) + m.after + [Ascii(':')] + MemberRest(members);
      assert rest == Quoted(m.key) + (m.after + [Ascii(':')] + MemberRest(members));
      QuotedStarts(m.key, m.after + [Ascii(':')] + MemberRest(members));
      SkipsToFirst(s, q, Ascii('{'), m.before, rest);
      NoSpaces();
      assert [] + rest == rest;
      SkipsMembers(s, q + 1 + |m.before|, [], members);
    }
  }

  /** One more member of an object: its key, its value, and what follows. */
  lemma NextMember(s: seq<Byte>, p: nat, v: nat, e: nat, r: nat)
    requires p <= |s| && v <= |s| && e <= |s|
    requires KeyEnd(s, p) == Some(v) && ValueEnd(s, v) == Some(e) && SpaceEnd(s, e) == r
    ensures r <= |s|
    ensures Peek(s, r) == Ascii(',') ==> r < |s| && ItemsEnd(s, p, Ascii('}')) == ItemsEnd(s, r + 1, Ascii('}'))
    ensures Peek(s, r) == Ascii('}') ==> ItemsEnd(s, p, Ascii('}')) == Some(r + 1)
  {
    hide KeyEnd, ValueEnd, SpaceEnd;
  }

  lemma {:induction false} SkipsMembers(s: seq<Byte>, p: nat, w: seq<Byte>, members: seq<Member>)
    requires members != [] && (forall i :: 0 <= i < |members| ==> MemberOk(members[i])) && Spaces(w)
    requires var m := members[0]; Has(s, p, w + (Quoted(m.key) + m.after + [Ascii(':')] + MemberRest(members)))
    ensures var m := members[0];
            ItemsEnd(s, p, Ascii('}')) == Some(p + |w + (Quoted(m.key) + m.after + [Ascii(':')] + MemberRest(members))|)
    decreases members, 0
  {
    hide SpaceEnd, ValueEnd, StringEnd, KeyEnd, ItemsEnd, Print, Ok, Spaces, MembersTail, Has, Quoted;
    var m, tail := members[0], MembersTail(members);
    var x := m.item;
    assert MemberOk(m) && ItemOk(x);
    MembersTailIs(members);
    SkipsKey(s, p, w, m.key, m.after, MemberRest(members));
    var v := p + |w| + |Quoted(m.key) + m.after| + 1;
    SkipsItem(s, v, x.before, x.value, x.after, tail);
    SkipsWhatWasPrinted(s, v, x.before, x.value);
    var r := v + |x.before + Print(x.value) + x.after|;
    HasInside(s, r, tail);
    NextMember(s, p, v, v + |x.before + Print(x.value)|, r);
    if |members| > 1 {
      var more := members[1..];
      assert forall i :: 0 <= i < |more| ==> more[i] == members[i + 1];
      assert MemberOk(more[0]);
      var n := more[0];
      HasSplit(s, r, [Ascii(',')], n.before + (Quoted(n.key) + n.after + [Ascii(':')] + MemberRest(more)));
      SkipsMembers(s, r + 1, n.before, more);
    }
  }

  // ---------- elements ----------

  /** A list from one of its values on. */
  function FromItem(items: seq<Item>): seq<Byte>
    requires items != []
  {
    Print(items[0].value) + items[0].after + ItemsTail(items)
  }

  /** Past one value of a list: where the next one is, or that there is none. */
  lemma PastElement(s: seq<Byte>, q: nat, items: seq<Item>)
    requires items != [] && (forall i :: 0 <= i < |items| ==> ItemOk(items[i])) && Has(s, q, FromItem(items))
    ensures q <= |s|
    ensures if |items| == 1 then NextAt(s, q) == None
            else
              var at := q + |FromItem(items)| - |FromItem(items[1..])|;
              0 <= at && NextAt(s, q) == Some(at) && Has(s, at, FromItem(items[1..]))
  {
    hide SpaceEnd, ValueEnd, Print, Ok, Spaces, ItemsTail, Has;
    HasInside(s, q, FromItem(items));
    var x, tail := items[0], ItemsTail(items);
    var r := q + |Print(x.value) + x.after|;
    assert ItemOk(x);
    ItemsTailIs(items);
    NoSpaces();
    assert [] + Print(x.value) + x.after + tail == FromItem(items);
    SkipsItem(s, q, [], x.value, x.after, tail);
    SkipsWhatWasPrinted(s, q, [], x.value);
    HasInside(s, r, tail);
    if |items| > 1 {
      var more := items[1..];
      var y := more[0];
      assert ItemOk(y);
      assert tail == [Ascii(',')] + (y.before + FromItem(more));
      HasSplit(s, r, [Ascii(',')], y.before + FromItem(more));
      HasSplit(s, r + 1, y.before, FromItem(more));
      ItemStarts(s, r + 1 + |y.before|, more);
      SpaceRead(s, r + 1, y.before);
    }
  }

  /** The values of a list are found one after the other, and no more than there are. */
  lemma {:induction false} ElementsRead(s: seq<Byte>, q: nat, items: seq<Item>, index: nat)
    requires items != [] && (forall i :: 0 <= i < |items| ==> ItemOk(items[i])) && Has(s, q, FromItem(items))
    ensures q <= |s|
    ensures if index < |items| then
              var at := q + |FromItem(items)| - |FromItem(items[index..])|;
              0 <= at && ElementFrom(s, q, index) == Some(at) && Has(s, at, FromItem(items[index..]))
            else ElementFrom(s, q, index) == None
    decreases index
  {
    hide NextAt, FromItem, ItemOk, Has;
    PastElement(s, q, items);
    if index == 0 {
      assert items[0..] == items;
    } else if |items| > 1 {
      var more := items[1..];
      assert forall i :: 0 <= i < |more| ==> more[i] == items[i + 1];
      ElementsRead(s, q + |FromItem(items)| - |FromItem(more)|, more, index - 1);
      assert index < |items| ==> more[index - 1..] == items[index..];
    }
  }

  lemma ItemStarts(s: seq<Byte>, p: nat, items: seq<Item>)
    requires items != [] && ItemOk(items[0]) && Has(s, p, FromItem(items))
    ensures !IsSpace(Peek(s, p)) && Peek(s, p) != Ascii(']')
  {
    hide Print, Has, ItemsTail;
    var x := items[0];
    assert FromItem(items) == Print(x.value) + (x.after + ItemsTail(items));
    StartOf(s, p, x.value, x.after + ItemsTail(items));
  }

  /** Element `index` of a printed list is found where it was printed. */
  lemma FindsElement(s: seq<Byte>, p: nat, w: seq<Byte>, gap: seq<Byte>, items: seq<Item>, index: nat)
    requires Ok(List(gap, items)) && Spaces(w) && Has(s, p, w + Print(List(gap, items)))
    ensures p <= |s|
    ensures if index < |items| then
              var at := p + |w + Print(List(gap, items))| - |FromItem(items[index..])|;
              0 <= at && ElementAt(s, p, index) == Some(at) && Has(s, at, FromItem(items[index..]))
            else ElementAt(s, p, index) == None
  {
    hide SpaceEnd, ElementFrom, Has, Spaces, PrintItems, ItemsTail;
    var j, q := List(gap, items), p + |w|;
    HasInside(s, p, w + Print(j));
    HasSplit(s, p, w, Print(j));
    FirstByteOf(j);
    HasByte(s, q, Print(j), 0);
    SpaceRead(s, p, w);
    if items == [] {
      SkipsEmpty(s, q, Ascii('['), gap, Ascii(']'));
    } else {
      var x := items[0];
      assert ItemOk(x);
      ListIs(gap, items);
      assert [] + Print(x.value) + x.after + ItemsTail(items) == FromItem(items);
      FirstByte(x.value);
      SkipsToFirst(s, q, Ascii('['), x.before, FromItem(items));
      ElementsRead(s, q + 1 + |x.before|, items, index);
    }
  }

  // ---------- members ----------

  /** An object from one of its values on, and from the key before it on. */
  function FromValue(members: seq<Member>): seq<Byte>
    requires members != []
  {
    Print(members[0].item.value) + members[0].item.after + MembersTail(members)
  }

  function FromKey(members: seq<Member>): seq<Byte>
    requires members != []
  {
    Quoted(members[0].key) + members[0].after + [Ascii(':')] + (members[0].item.before + FromValue(members))
  }

  /** The first member whose key is written `key`. */
  function FirstKey(members: seq<Member>, key: seq<Byte>): (r: Option<nat>)
    ensures r.Some? ==> r.value < |members|
  {
    if members == [] then None
    else if Escaped(members[0].key) == key then Some(0)
    else
      var later := FirstKey(members[1..], key);
      if later.None? then None else Some(later.value + 1)
  }

  /** Past one key of an object: where its value is, and how the key is written. */
  lemma PastKey(s: seq<Byte>, q: nat, members: seq<Member>)
    requires members != [] && MemberOk(members[0]) && Has(s, q, FromKey(members))
    ensures q <= |s| && Peek(s, q) == QUOTE && KeyAt(s, q).Some?
    ensures var (after, at) := KeyAt(s, q).value;
            && s[q + 1..after - 1] == Escaped(members[0].key)
            && at == q + |FromKey(members)| - |FromValue(members)| && Has(s, at, FromValue(members))
  {
    hide SpaceEnd, StringEnd, Print, Spaces, Has, Quoted, Escaped, FromValue;
    var m := members[0];
    var rest := m.item.before + FromValue(members);
    NoSpaces();
    HasInside(s, q, FromKey(members));
    assert FromKey(members) == Quoted(m.key) + m.after + [Ascii(':')] + rest;
    assert [] + FromKey(members) == FromKey(members);
    SkipsKey(s, q, [], m.key, m.after, rest);
    QuotedRead(s, q, m.key);
    WrittenKey(s, q, m.key);
    var v := q + |Quoted(m.key) + m.after| + 1;
    HasSplit(s, v, m.item.before, FromValue(members));
    ValueStarts(s, v + |m.item.before|, members);
    SpaceRead(s, v, m.item.before);
  }

  lemma WrittenKey(s: seq<Byte>, q: nat, key: CString)
    requires Has(s, q, Quoted(key))
    ensures q + 1 <= q + |Quoted(key)| - 1 <= |s| && s[q + 1..q + |Quoted(key)| - 1] == Escaped(key)
  {
    assert Quoted(key) == [QUOTE] + (Escaped(key) + [QUOTE]);
    HasSplit(s, q, [QUOTE], Escaped(key) + [QUOTE]);
    HasSplit(s, q + 1, Escaped(key), [QUOTE]);
  }

  lemma ValueStarts(s: seq<Byte>, p: nat, members: seq<Member>)
    requires members != [] && MemberOk(members[0]) && Has(s, p, FromValue(members))
    ensures !IsSpace(Peek(s, p))
  {
    hide Print, Has, MembersTail;
    var x := members[0].item;
    assert FromValue(members) == Print(x.value) + (x.after + MembersTail(members));
    StartOf(s, p, x.value, x.after + MembersTail(members));
  }

  /** Past one value of an object: where the next key is, or that there is none. */
  lemma PastValue(s: seq<Byte>, v: nat, members: seq<Member>)
    requires members != [] && (forall i :: 0 <= i < |members| ==> MemberOk(members[i])) && Has(s, v, FromValue(members))
    ensures v <= |s|
    ensures if |members| == 1 then NextAt(s, v) == None
            else
              var at := v + |FromValue(members)| - |FromKey(members[1..])|;
              0 <= at && NextAt(s, v) == Some(at) && Has(s, at, FromKey(members[1..]))
  {
    hide SpaceEnd, ValueEnd, Print, Spaces, MembersTail, Has, Quoted;
    HasInside(s, v, FromValue(members));
    var x, tail := members[0].item, MembersTail(members);
    var r := v + |Print(x.value) + x.after|;
    assert MemberOk(members[0]) && ItemOk(x);
    MembersTailIs(members);
    NoSpaces();
    assert [] + Print(x.value) + x.after + tail == FromValue(members);
    SkipsItem(s, v, [], x.value, x.after, tail);
    SkipsWhatWasPrinted(s, v, [], x.value);
    HasInside(s, r, tail);
    if |members| > 1 {
      var more := members[1..];
      var m := more[0];
      assert MemberOk(m);
      FromKeyIs(more);
      assert tail == [Ascii(',')] + (m.before + FromKey(more));
      HasSplit(s, r, [Ascii(',')], m.before + FromKey(more));
      HasSplit(s, r + 1, m.before, FromKey(more));
      QuoteFirst(s, r + 1 + |m.before|, more);
      SpaceRead(s, r + 1, m.before);
    }
  }

  lemma FromKeyIs(members: seq<Member>)
    requires members != []
    ensures var m := members[0];
            FromKey(members) == Quoted(m.key) + m.after + [Ascii(':')] + MemberRest(members)
  {
    hide Quoted, Print, MembersTail;
    var x := members[0].item;
    assert MemberRest(members) == x.before + FromValue(members);
  }

  lemma QuoteFirst(s: seq<Byte>, p: nat, members: seq<Member>)
    requires members != [] && Has(s, p, FromKey(members))
    ensures Peek(s, p) == QUOTE
  {
    hide Has, FromValue;
    HasByte(s, p, FromKey(members), 0);
  }

  /** The first member with the key is found, and its value is where it was printed. */
  lemma {:induction false} MembersRead(s: seq<Byte>, q: nat, members: seq<Member>, key: seq<Byte>)
    requires members != [] && (forall i :: 0 <= i < |members| ==> MemberOk(members[i])) && Has(s, q, FromKey(members))
    ensures q <= |s|
    ensures var k := FirstKey(members, key);
            if k.None? then MemberAt(s, q, key) == None
            else
              var at := q + |FromKey(members)| - |FromValue(members[k.value..])|;
              0 <= at && MemberAt(s, q, key) == Some(at) && Has(s, at, FromValue(members[k.value..]))
    decreases |members|
  {
    hide KeyAt, NextAt, FromKey, FromValue, MemberOk, Has, Escaped;
    PastKey(s, q, members);
    if Escaped(members[0].key) == key {
      assert members[0..] == members;
    } else {
      var v := q + |FromKey(members)| - |FromValue(members)|;
      PastValue(s, v, members);
      if |members| > 1 {
        var more := members[1..];
        assert forall i :: 0 <= i < |more| ==> more[i] == members[i + 1];
        MembersRead(s, v + |FromValue(members)| - |FromKey(more)|, more, key);
        var later := FirstKey(more, key);
        assert later.Some? ==> more[later.value..] == members[later.value + 1..];
      } else {
        assert members[1..] == [];
      }
    }
  }

  /** The value of a key of a printed object is found where it was printed. */
  lemma FindsMember(s: seq<Byte>, p: nat, w: seq<Byte>, gap: seq<Byte>, members: seq<Member>, key: seq<Byte>)
    requires Ok(Object(gap, members)) && Spaces(w) && Has(s, p, w + Print(Object(gap, members)))
    ensures p <= |s|
    ensures var k := FirstKey(members, key);
            if k.None? then ValueOf(s, p, key) == None
            else
              var at := p + |w + Print(Object(gap, members))| - |FromValue(members[k.value..])|;
              0 <= at && ValueOf(s, p, key) == Some(at) && Has(s, at, FromValue(members[k.value..]))
  {
    hide SpaceEnd, MemberAt, Has, Spaces, PrintMembers, MembersTail, FirstKey, Quoted;
    var j, q := Object(gap, members), p + |w|;
    HasInside(s, p, w + Print(j));
    HasSplit(s, p, w, Print(j));
    FirstByteOf(j);
    HasByte(s, q, Print(j), 0);
    SpaceRead(s, p, w);
    if members == [] {
      SkipsEmpty(s, q, Ascii('{'), gap, Ascii('}'));
      NoMember(s, q + 1 + |gap|, key);
    } else {
      var m := members[0];
      assert MemberOk(m);
      ObjectIs(gap, members);
      FromKeyIs(members);
      QuotedStarts(m.key, m.after + [Ascii(':')] + MemberRest(members));
      assert FromKey(members) == Quoted(m.key) + (m.after + [Ascii(':')] + MemberRest(members));
      SkipsToFirst(s, q, Ascii('{'), m.before, FromKey(members));
      MembersRead(s, q + 1 + |m.before|, members, key);
    }
  }

  lemma NoMember(s: seq<Byte>, p: nat, key: seq<Byte>)
    requires p <= |s| && Peek(s, p) != QUOTE
    ensures MemberAt(s, p, key) == None && FirstKey([], key) == None
  {
  }

  // ---------- keys that need no escape ----------

  /** Different strings are written differently. */
  lemma EscapedIsInjective(a: CString, b: CString)
    requires Escaped(a) == Escaped(b)
    ensures a == b
  {
    var s := Escaped(a) + [QUOTE];
    assert s[0..0 + |s|] == s;
    EscapedRead(s, 0, a, []);
    EscapedRead(s, 0, b, []);
    assert [] + a == a && [] + b == b;
  }

  /** A key that needs no escape is found as it is. */
  lemma PlainKey(k: CString, key: CString)
    requires Escaped(key) == key
    ensures Escaped(k) == key <==> k == key
  {
    if Escaped(k) == key {
      EscapedIsInjective(k, key);
    }
  }

  /** A printed string is decoded to what it was, whatever space is before it. */
  lemma DecodesWhatWasPrinted(s: seq<Byte>, p: nat, w: seq<Byte>, t: CString)
    requires Spaces(w) && Has(s, p, w + Quoted(t))
    ensures p <= |s| && TextAt(s, p) == Some(t)
  {
    hide Quoted, Escaped, SpaceEnd, InsideText, Has, Spaces;
    HasInside(s, p, w + Quoted(t));
    HasSplit(s, p, w, Quoted(t));
    QuotedRead(s, p + |w|, t);
    QuotedStarts(t, []);
    assert Quoted(t) + [] == Quoted(t);
    SpaceRead(s, p, w);
    NoSpaces();
    QuotedAtItself(s, p + |w|);
  }

  lemma QuotedAtItself(s: seq<Byte>, q: nat)
    requires q <= |s| && Peek(s, q) == QUOTE
    ensures SpaceEnd(s, q) == q
  {
  }

  // ---------- characters written as their codes ----------

  /** A code of at most 16 bits, in base 16. */
  function CodeText(n: nat): seq<Byte>
    requires n < 0x10000
  {
    [BACKSLASH, Ascii('u'), HexDigit(n / 4096), HexDigit(n / 256 % 16), HexDigit(n / 16 % 16), HexDigit(n % 16)]
  }

  /** A character as an escape: as a pair when its code has more than 16 bits. */
  function CharText(c: nat): seq<Byte>
    requires c <= MAX_CHAR
  {
    if c < 0x10000 then CodeText(c)
    else CodeText(0xD800 + (c - 0x10000) / 1024) + CodeText(0xDC00 + (c - 0x10000) % 1024)
  }

  lemma CodeRead(s: seq<Byte>, p: nat, n: nat)
    requires n < 0x10000 && Has(s, p, CodeText(n))
    ensures Peek(s, p) == BACKSLASH && Peek(s, p + 1) == Ascii('u') && Hex4(s, p + 2) == Some(n)
  {
    var e := CodeText(n);
    HasByte(s, p, e, 0);
    HasByte(s, p, e, 1);
    HasByte(s, p, e, 2);
    HasByte(s, p, e, 3);
    HasByte(s, p, e, 4);
    HasByte(s, p, e, 5);
    CodeDigits(n);
    HexFour(s, p + 2, n / 4096, n / 256 % 16, n / 16 % 16, n % 16);
  }

  lemma CodeDigits(n: nat)
    requires n < 0x10000
    ensures ((n / 4096 * 16 + n / 256 % 16) * 16 + n / 16 % 16) * 16 + n % 16 == n
  {
    assert n / 4096 * 16 + n / 256 % 16 == n / 256;
    assert n / 256 * 16 + n / 16 % 16 == n / 16;
  }

  lemma HexFour(s: seq<Byte>, q: nat, a: nat, b: nat, c: nat, d: nat)
    requires Hex(Peek(s, q)) == Some(a) && Hex(Peek(s, q + 1)) == Some(b)
    requires Hex(Peek(s, q + 2)) == Some(c) && Hex(Peek(s, q + 3)) == Some(d)
    ensures Hex4(s, q) == Some(((a * 16 + b) * 16 + c) * 16 + d)
  {
    hide Hex, Peek;
    assert HexRun(s, q, 4, 0) == HexRun(s, q + 1, 3, a) == HexRun(s, q + 2, 2, a * 16 + b);
    assert HexRun(s, q + 2, 2, a * 16 + b) == HexRun(s, q + 3, 1, (a * 16 + b) * 16 + c);
  }

  /** Every character that is not half of a pair is read back from its escape. */
  lemma CharRead(s: seq<Byte>, p: nat, c: nat, out: seq<Byte>)
    requires c <= MAX_CHAR && !(0xD800 <= c <= 0xDFFF) && Has(s, p, CharText(c))
    ensures p <= |s| && InsideText(s, p, out) == InsideText(s, p + |CharText(c)|, out + Encode(c))
  {
    hide Hex4, Encode, Has, CodeText;
    HasInside(s, p, CharText(c));
    CodeLength(c % 0x10000);
    if c < 0x10000 {
      CodeRead(s, p, c);
    } else {
      var high, low := 0xD800 + (c - 0x10000) / 1024, 0xDC00 + (c - 0x10000) % 1024;
      CodeLength(high);
      CodeLength(low);
      HasSplit(s, p, CodeText(high), CodeText(low));
      CodeRead(s, p, high);
      CodeRead(s, p + 6, low);
    }
  }

  lemma CodeLength(n: nat)
    requires n < 0x10000
    ensures |CodeText(n)| == 6
  {
  }

  // ---------- strings written in any way ----------

  /** A byte as it is, one of the short escapes, or a character by its code. */
  datatype Spelling = Plain(b: Byte) | Short(k: nat) | Code(c: nat)

  const ESCAPES := "\"\\/bfnrt"
  const MEANINGS: seq<Byte> := [34, 92, 47, 8, 12, 10, 13, 9]

  predicate SpellingOk(x: Spelling) {
    match x
    case Plain(b) => b != 0 && b != QUOTE && b != BACKSLASH
    case Short(k) => k < |ESCAPES|
    case Code(c) => c <= MAX_CHAR && !(0xD800 <= c <= 0xDFFF)
  }

  function Spelled(x: Spelling): seq<Byte>
    requires SpellingOk(x)
  {
    match x
    case Plain(b) => [b]
    case Short(k) => [BACKSLASH, Ascii(ESCAPES[k])]
    case Code(c) => CharText(c)
  }

  function Meaning(x: Spelling): seq<Byte>
    requires SpellingOk(x)
  {
    match x
    case Plain(b) => [b]
    case Short(k) => [MEANINGS[k]]
    case Code(c) => Encode(c)
  }

  predicate SpellingsOk(xs: seq<Spelling>) {
    forall i :: 0 <= i < |xs| ==> SpellingOk(xs[i])
  }

  function SpelledAll(xs: seq<Spelling>): seq<Byte>
    requires SpellingsOk(xs)
  {
    if xs == [] then [] else Spelled(xs[0]) + SpelledAll(xs[1..])
  }

  function MeaningAll(xs: seq<Spelling>): seq<Byte>
    requires SpellingsOk(xs)
  {
    if xs == [] then [] else Meaning(xs[0]) + MeaningAll(xs[1..])
  }

  lemma ShortRead(s: seq<Byte>, p: nat, k: nat, out: seq<Byte>)
    requires k < 8 && Has(s, p, [BACKSLASH, Ascii(ESCAPES[k])])
    ensures InsideText(s, p, out) == InsideText(s, p + 2, out + [MEANINGS[k]])
  {
    hide CodeAt, Encode;
    var e: seq<Byte> := [BACKSLASH, Ascii(ESCAPES[k])];
    HasByte(s, p, e, 0);
    HasByte(s, p, e, 1);
  }

  lemma SpellingRead(s: seq<Byte>, p: nat, x: Spelling, out: seq<Byte>)
    requires SpellingOk(x) && Has(s, p, Spelled(x))
    ensures p + |Spelled(x)| <= |s|
    ensures InsideText(s, p, out) == InsideText(s, p + |Spelled(x)|, out + Meaning(x))
  {
    hide CodeAt, Encode, CharText;
    match x
    case Plain(b) => HasByte(s, p, [b], 0);
    case Short(k) => ShortRead(s, p, k, out);
    case Code(c) => CharRead(s, p, c, out);
  }

  lemma {:induction false} InsideRead(s: seq<Byte>, p: nat, xs: seq<Spelling>, out: seq<Byte>)
    requires SpellingsOk(xs) && Has(s, p, SpelledAll(xs) + [QUOTE])
    ensures InsideText(s, p, out) == Some(out + MeaningAll(xs))
    decreases |xs|
  {
    hide Spelled, Meaning, CodeAt, Encode;
    if xs == [] {
      HasByte(s, p, SpelledAll(xs) + [QUOTE], 0);
      assert out + [] == out;
    } else {
      var e, rest := Spelled(xs[0]), SpelledAll(xs[1..]) + [QUOTE];
      assert SpelledAll(xs) + [QUOTE] == e + rest;
      HasSplit(s, p, e, rest);
      SpellingRead(s, p, xs[0], out);
      InsideRead(s, p + |e|, xs[1..], out + Meaning(xs[0]));
      assert (out + Meaning(xs[0])) + MeaningAll(xs[1..]) == out + MeaningAll(xs);
    }
  }

  /** However a string is written, with any of the escapes there are, it is decoded to its bytes. */
  lemma DecodesAnySpelling(s: seq<Byte>, p: nat, xs: seq<Spelling>)
    requires SpellingsOk(xs) && Has(s, p, [QUOTE] + SpelledAll(xs) + [QUOTE])
    ensures p <= |s| && TextAt(s, p) == Some(MeaningAll(xs))
  {
    hide InsideText, SpelledAll;
    var body := SpelledAll(xs) + [QUOTE];
    assert [QUOTE] + SpelledAll(xs) + [QUOTE] == [QUOTE] + body;
    HasSplit(s, p, [QUOTE], body);
    HasByte(s, p, [QUOTE], 0);
    InsideRead(s, p + 1, xs, []);
    QuotedAtItself(s, p);
    assert [] + MeaningAll(xs) == MeaningAll(xs);
  }

  // ---------- tokens ----------

  /** Where numbers and words may begin and go on, and what is space between them. */
  lemma TokensAre(b: Byte)
    ensures IsSpace(b) <==> OneOf(b, " \t\n\r")
    ensures OneOf(b, "-0123456789tfn") ==> StartsToken(b)
    ensures OneOf(b, "+-.0123456789eE") || OneOf(b, "truefalsenull") ==> InToken(b)
    ensures OneOf(b, ",:[]{}\" \t\n\r") ==> !StartsToken(b) && !InToken(b)
  {
    var spaces := " \t\n\r";
    assert Ascii(spaces[0]) == 32 && Ascii(spaces[1]) == 9 && Ascii(spaces[2]) == 10 && Ascii(spaces[3]) == 13;
  }

  /** Every number, in the characters that numbers have, is a token. */
  lemma NumbersAreTokens(text: seq<Byte>)
    requires text != [] && OneOf(text[0], "-0123456789")
    requires forall k :: 0 <= k < |text| ==> OneOf(text[k], "+-.0123456789eE")
    ensures TokenOk(text)
  {
    hide OneOf, InToken, StartsToken;
    forall k | 0 <= k < |text| ensures InToken(text[k]) {
      TokensAre(text[k]);
    }
    StartsNumber(text[0]);
  }

  lemma StartsNumber(b: Byte)
    requires OneOf(b, "-0123456789")
    ensures StartsToken(b)
  {
  }
}
