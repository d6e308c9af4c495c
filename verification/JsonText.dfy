/** Writing JSON strings into a buffer that grows (section 7 of RFC 8259). */
module JsonText {
  import opened Common

  const QUOTE: Byte := 34
  const BACKSLASH: Byte := 92

  // ---------- writing ----------

  /** A digit of a number written in base 16. */
  function HexDigit(n: nat): (b: Byte)
    requires n < 16
    ensures Hex(b) == Some(n)
  {
    if n < 10 then 48 + n else 87 + n
  }

  /** What a byte is written as inside a string. */
  function EscapedByte(b: Byte): (r: seq<Byte>)
    requires b != 0
    ensures r != []
  {
    if b == QUOTE || b == BACKSLASH then [BACKSLASH, b]
    else if b == 10 then [BACKSLASH, Ascii('n')]
    else if b == 13 then [BACKSLASH, Ascii('r')]
    else if b == 9 then [BACKSLASH, Ascii('t')]
    else if b < 0x20 then [BACKSLASH, Ascii('u'), Ascii('0'), Ascii('0'), HexDigit(b / 16), HexDigit(b % 16)]
    else [b]
  }

  function Escaped(s: CString): seq<Byte> {
    if s == [] then [] else EscapedByte(s[0]) + Escaped(s[1..])
  }

  /** A string as a JSON literal, quotes included. */
  function Quoted(s: CString): seq<Byte> {
    [QUOTE] + Escaped(s) + [QUOTE]
  }

  /** A buffer that grows as text is added to it. */
  class Buffer {
    var data: array<Byte>
    var length: nat

    constructor ()
      ensures Valid() && Contents() == [] && fresh(data)
    {
      data, length := new Byte[0], 0;
    }

    /** Once there is text there is room for it, and for the byte that ends it. */
    ghost predicate Valid()
      reads this, data
    {
      if data.Length == 0 then length == 0 else length < data.Length && data[length] == 0
    }

    ghost function Contents(): seq<Byte>
      requires Valid()
      reads this, data
    {
      data[..length]
    }

    method Add(text: seq<Byte>)
      requires Valid()
      modifies this, data
      ensures Valid() && Contents() == old(Contents()) + text
      ensures data == old(data) || fresh(data)
    {
      if length + |text| + 1 > data.Length {
        var capacity := if data.Length > 0 then data.Length else 256;
        while length + |text| + 1 > capacity
          invariant capacity > 0
          decreases length + |text| + 1 - capacity
        {
          capacity := capacity * 2;
        }
        data := Grown(data, length, capacity);
      }
      ghost var before := data[..length];
      Fill(data, length, text);
      length := length + |text|;
      data[length] := 0;
      assert data[..length] == before + text;
    }

    static method Fill(data: array<Byte>, from: nat, text: seq<Byte>)
      requires from + |text| <= data.Length
      modifies data
      ensures data[..from] == old(data[..from]) && data[from..from + |text|] == text
    {
      var i := 0;
      while i < |text|
        invariant 0 <= i <= |text|
        invariant forall q :: 0 <= q < from ==> data[q] == old(data[q])
        invariant forall q :: from <= q < from + i ==> data[q] == text[q - from]
      {
        data[from + i] := text[i];
        i := i + 1;
      }
    }

    static method Grown(data: array<Byte>, length: nat, capacity: nat) returns (grown: array<Byte>)
      requires length <= data.Length && length <= capacity
      ensures fresh(grown) && grown.Length == capacity && grown[..length] == data[..length]
    {
      grown := new Byte[capacity](_ => 0);
      var i := 0;
      while i < length
        invariant 0 <= i <= length && grown[..i] == data[..i]
      {
        grown[i] := data[i];
        i := i + 1;
      }
    }
  }

  method AddByte(b: Buffer, c: Byte)
    requires b.Valid() && c != 0
    modifies b, b.data
    ensures b.Valid() && b.Contents() == old(b.Contents()) + EscapedByte(c)
    ensures b.data == old(b.data) || fresh(b.data)
  {
    if c == QUOTE || c == BACKSLASH {
      b.Add([BACKSLASH, c]);
    } else if c == 10 {
      b.Add([BACKSLASH, Ascii('n')]);
    } else if c == 13 {
      b.Add([BACKSLASH, Ascii('r')]);
    } else if c == 9 {
      b.Add([BACKSLASH, Ascii('t')]);
    } else if c < 0x20 {
      b.Add([BACKSLASH, Ascii('u'), Ascii('0'), Ascii('0'), HexDigit(c / 16), HexDigit(c % 16)]);
    } else {
      b.Add([c]);
    }
  }

  /** Adds a string as a JSON literal. */
  method AddJsonString(b: Buffer, text: CString)
    requires b.Valid()
    modifies b, b.data
    ensures b.Valid() && b.Contents() == old(b.Contents()) + Quoted(text)
    ensures b.data == old(b.data) || fresh(b.data)
  {
    hide Escaped, EscapedByte;
    ghost var before := b.Contents();
    b.Add([QUOTE]);
    EscapedNothing();
    var p := 0;
    while p < |text|
      invariant 0 <= p <= |text| && b.Valid()
      invariant b.Contents() == before + [QUOTE] + Escaped(text[..p])
      invariant b.data == old(b.data) || fresh(b.data)
    {
      EscapedOneMore(text, p);
      AddByte(b, text[p]);
      p := p + 1;
    }
    assert text[..p] == text;
    b.Add([QUOTE]);
    assert before + [QUOTE] + Escaped(text) + [QUOTE] == before + Quoted(text);
  }

  lemma EscapedNothing()
    ensures Escaped([]) == []
  {
  }

  lemma {:induction false} EscapedJoin(s: CString, t: CString)
    ensures NoNul(s + t) && Escaped(s + t) == Escaped(s) + Escaped(t)
  {
    hide EscapedByte;
    if s == [] {
      assert s + t == t;
    } else {
      EscapedJoin(s[1..], t);
      assert (s + t)[0] == s[0] && (s + t)[1..] == s[1..] + t;
    }
  }

  lemma EscapedOneMore(text: CString, p: nat)
    requires p < |text|
    ensures Escaped(text[..p + 1]) == Escaped(text[..p]) + EscapedByte(text[p])
  {
    EscapedJoin(text[..p], [text[p]]);
    assert text[..p + 1] == text[..p] + [text[p]];
    assert [text[p]][1..] == [];
  }
}
