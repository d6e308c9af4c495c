/** Reading JSON where it stands: a position in a C string stands for the value that starts
    there. What has been printed is skipped, found and decoded again. */
module JsonRead {
  import opened Common
  import opened Utf8
  import opened JsonText

  // ---------- skipping ----------

  predicate IsSpace(b: Byte) {
    b == 32 || b == 9 || b == 10 || b == 13
  }

  function SpaceEnd(s: seq<Byte>, p: nat): (r: nat)
    requires p <= |s|
    ensures p <= r <= |s|
    decreases |s| - p
  {
    if IsSpace(Peek(s, p)) then SpaceEnd(s, p + 1) else p
  }

  /** Where the string ends whose opening quote is before `p`. */
  function InsideEnd(s: seq<Byte>, p: nat): (r: Option<nat>)
    requires p <= |s|
    ensures r.Some? ==> p < r.value <= |s|
    decreases |s| - p
  {
    var c := Peek(s, p);
    if c == 0 then None
    else if c == BACKSLASH then (if Peek(s, p + 1) == 0 then None else InsideEnd(s, p + 2))
    else if c == QUOTE then Some(p + 1)
    else InsideEnd(s, p + 1)
  }

  function StringEnd(s: seq<Byte>, p: nat): (r: Option<nat>)
    requires p <= |s|
    ensures r.Some? ==> p + 1 < r.value <= |s|
  {
    if Peek(s, p) == QUOTE then InsideEnd(s, p + 1) else None
  }

  predicate IsAlnum(b: Byte) {
    IsDigit(b) || IsLetter(b)
  }

  predicate StartsToken(b: Byte) {
    b == Ascii('-') || IsAlnum(b)
  }

  predicate InToken(b: Byte) {
    b == Ascii('-') || b == Ascii('+') || b == Ascii('.') || IsAlnum(b)
  }

  function TokenEnd(s: seq<Byte>, p: nat): (r: nat)
    requires p <= |s|
    ensures p <= r <= |s| && (InToken(Peek(s, p)) ==> p < r)
    decreases |s| - p
  {
    if InToken(Peek(s, p)) then TokenEnd(s, p + 1) else p
  }

  /** Where the value ends that starts at `p`, or after the space there. */
  function ValueEnd(s: seq<Byte>, p: nat): (r: Option<nat>)
    requires p <= |s|
    ensures r.Some? ==> p < r.value <= |s|
    decreases |s| - p, 0
  {
    var q := SpaceEnd(s, p);
    var c := Peek(s, q);
    if c == QUOTE then StringEnd(s, q)
    else if c == Ascii('{') || c == Ascii('[') then
      var close := if c == Ascii('{') then Ascii('}') else Ascii(']');
      var first := SpaceEnd(s, q + 1);
      if Peek(s, first) == close then Some(first + 1) else ItemsEnd(s, first, close)
    else if StartsToken(c) then Some(TokenEnd(s, q))
    else None
  }

  /** After the key of a member, and its colon. */
  function KeyEnd(s: seq<Byte>, p: nat): (r: Option<nat>)
    requires p <= |s|
    ensures r.Some? ==> p < r.value <= |s|
  {
    var k := StringEnd(s, SpaceEnd(s, p));
    if k.None? then None
    else
      var q := SpaceEnd(s, k.value);
      if Peek(s, q) == Ascii(':') then Some(q + 1) else None
  }

  /** Where the list or the object ends of which an item starts at `p`. */
  function ItemsEnd(s: seq<Byte>, p: nat, close: nat): (r: Option<nat>)
    requires p <= |s| && (close == Ascii('}') || close == Ascii(']'))
    ensures r.Some? ==> p < r.value <= |s|
    decreases |s| - p, 1
  {
    var v := if close == Ascii('}') then KeyEnd(s, p) else Some(p);
    if v.None? then None
    else
      var e := ValueEnd(s, v.value);
      if e.None? then None
      else
        var q := SpaceEnd(s, e.value);
        if Peek(s, q) == Ascii(',') then ItemsEnd(s, q + 1, close)
        else if Peek(s, q) == close then Some(q + 1)
        else None
  }

  method SkipSpace(s: CString, p: nat) returns (r: nat)
    requires p <= |s|
    ensures r == SpaceEnd(s, p)
  {
    r := p;
    while IsSpace(Peek(s, r))
      invariant p <= r <= |s| && SpaceEnd(s, r) == SpaceEnd(s, p)
      decreases |s| - r
    {
      r := r + 1;
    }
  }

  method SkipString(s: CString, p: nat) returns (r: Option<nat>)
    requires p <= |s|
    ensures r == StringEnd(s, p)
  {
    if Peek(s, p) != QUOTE {
      return None;
    }
    var q := p + 1;
    while Peek(s, q) != 0
      invariant p < q <= |s| && InsideEnd(s, q) == InsideEnd(s, p + 1)
      decreases |s| - q
    {
      if s[q] == BACKSLASH {
        if Peek(s, q + 1) == 0 {
          return None;
        }
        q := q + 1;
      } else if s[q] == QUOTE {
        return Some(q + 1);
      }
      q := q + 1;
    }
    return None;
  }

  /** The pointer goes to where the grammar says that the value ends. */
  method Skip(s: CString, p0: nat) returns (r: Option<nat>)
    requires p0 <= |s|
    ensures r == ValueEnd(s, p0)
    decreases |s| - p0, 0
  {
    var p := SkipSpace(s, p0);
    var c := Peek(s, p);
    if c == QUOTE {
      r := SkipString(s, p);
      return;
    }
    if c == Ascii('{') || c == Ascii('[') {
      var close := if c == Ascii('{') then Ascii('}') else Ascii(']');
      var first := SkipSpace(s, p + 1);
      if Peek(s, first) == close {
        return Some(first + 1);
      }
      r := SkipItems(s, first, close);
      return;
    }
    if StartsToken(c) {
      var q := p;
      while InToken(Peek(s, q))
        invariant p <= q <= |s| && TokenEnd(s, q) == TokenEnd(s, p)
        decreases |s| - q
      {
        q := q + 1;
      }
      return Some(q);
    }
    return None;
  }

  method SkipItems(s: CString, p0: nat, close: nat) returns (r: Option<nat>)
    requires p0 <= |s| && (close == Ascii('}') || close == Ascii(']'))
    ensures r == ItemsEnd(s, p0, close)
    decreases |s| - p0, 1
  {
    hide ValueEnd, SpaceEnd, StringEnd;
    var p := p0;
    while true
      invariant p0 <= p <= |s| && ItemsEnd(s, p, close) == ItemsEnd(s, p0, close)
      decreases |s| - p
    {
      var q := p;
      if close == Ascii('}') {
        q := SkipSpace(s, q);
        var k := SkipString(s, q);
        if k.None? {
          return None;
        }
        q := SkipSpace(s, k.value);
        if Peek(s, q) != Ascii(':') {
          return None;
        }
        q := q + 1;
      }
      var e := Skip(s, q);
      if e.None? {
        return None;
      }
      q := SkipSpace(s, e.value);
      if Peek(s, q) == Ascii(',') {
        p := q + 1;
      } else if Peek(s, q) == close {
        return Some(q + 1);
      } else {
        return None;
      }
    }
  }

  // ---------- decoding ----------

  function Pow16(n: nat): nat {
    if n == 0 then 1 else 16 * Pow16(n - 1)
  }

  /** `n` more digits of base 16, `code` being what those before them say. */
  function HexRun(s: seq<Byte>, p: nat, n: nat, code: nat): (r: Option<nat>)
    ensures r.Some? ==> r.value < (code + 1) * Pow16(n) && (n > 0 ==> p + n <= |s|)
    decreases n
  {
    if n == 0 then Some(code)
    else
      var digit := Hex(Peek(s, p));
      if digit.None? then None
      else
        var r := HexRun(s, p + 1, n - 1, code * 16 + digit.value);
        assert (code * 16 + digit.value + 1) * Pow16(n - 1) <= (code + 1) * 16 * Pow16(n - 1) == (code + 1) * Pow16(n) by {
          Scaled(code * 16 + digit.value + 1, (code + 1) * 16, Pow16(n - 1));
        }
        r
  }

  lemma Scaled(a: nat, b: nat, k: nat)
    requires a <= b
    ensures a * k <= b * k
  {
  }

  /** Four digits of base 16. */
  function Hex4(s: seq<Byte>, p: nat): (r: Option<nat>)
    ensures r.Some? ==> r.value < 0x10000 && p + 4 <= |s|
  {
    assert Pow16(4) == 0x10000;
    HexRun(s, p, 4, 0)
  }

  /** The code that an escape starting with `\u` at `p` stands for, and how long it is: two
      halves of a pair are taken together. */
  function CodeAt(s: seq<Byte>, p: nat): (r: Option<(nat, nat)>)
    requires p < |s|
    ensures r.Some? ==> r.value.0 <= MAX_CHAR && 6 <= r.value.1 && p + r.value.1 <= |s|
  {
    var code := Hex4(s, p + 2);
    if code.None? then None
    else
      var low := Hex4(s, p + 8);
      if 0xD800 <= code.value <= 0xDBFF && Peek(s, p + 6) == BACKSLASH && Peek(s, p + 7) == Ascii('u')
         && low.Some? && 0xDC00 <= low.value <= 0xDFFF then
        Some((0x10000 + (code.value - 0xD800) * 1024 + (low.value - 0xDC00), 12))
      else Some((code.value, 6))
  }

  /** What stands for itself after a backslash, and what does not. */
  function Unescaped(c: Byte): Byte {
    if c == Ascii('n') then 10
    else if c == Ascii('t') then 9
    else if c == Ascii('r') then 13
    else if c == Ascii('b') then 8
    else if c == Ascii('f') then 12
    else c
  }

  /** What the rest of a string from `p` on says, after `out`. */
  function InsideText(s: seq<Byte>, p: nat, out: seq<Byte>): Option<seq<Byte>>
    requires p <= |s|
    decreases |s| - p
  {
    var c := Peek(s, p);
    if c == QUOTE then Some(out)
    else if c == 0 then None
    else if c != BACKSLASH then InsideText(s, p + 1, out + [c])
    else
      var d := Peek(s, p + 1);
      if d == Ascii('u') then
        var code := CodeAt(s, p);
        if code.None? then None else InsideText(s, p + code.value.1, out + Encode(code.value.0))
      else if d == 0 then None
      else InsideText(s, p + 2, out + [Unescaped(d)])
  }

  /** What the string at `p` says. */
  function TextAt(s: seq<Byte>, p: nat): Option<seq<Byte>>
    requires p <= |s|
  {
    var q := SpaceEnd(s, p);
    if Peek(s, q) == QUOTE then InsideText(s, q + 1, []) else None
  }

  /** What a caller sees of decoded text: a `\u0000` in it ends the C string that it is put in. */
  function Seen(t: seq<Byte>): (r: CString)
    ensures r <= t && (|r| < |t| ==> t[|r|] == 0)
  {
    if t == [] || t[0] == 0 then [] else [t[0]] + Seen(t[1..])
  }

  lemma {:induction false} SeenIsAll(t: seq<Byte>)
    ensures Seen(t) == t <==> NoNul(t)
  {
    if t != [] && t[0] != 0 {
      SeenIsAll(t[1..]);
      assert t == [t[0]] + t[1..];
    }
  }

  method JsonString(s: CString, p0: nat) returns (r: Option<seq<Byte>>)
    requires p0 <= |s|
    ensures r == TextAt(s, p0)
  {
    hide SpaceEnd, Hex4, Encode;
    var p := SkipSpace(s, p0);
    if Peek(s, p) != QUOTE {
      return None;
    }
    ghost var first := p + 1;
    p := p + 1;
    var out := new Buffer();
    while Peek(s, p) != QUOTE
      invariant first <= p <= |s| && out.Valid() && fresh(out) && fresh(out.data)
      invariant InsideText(s, p, out.Contents()) == InsideText(s, first, [])
      decreases |s| - p
    {
      var c := Peek(s, p);
      if c == 0 {
        return None;
      }
      if c != BACKSLASH {
        out.Add([c]);
        p := p + 1;
        continue;
      }
      c := Peek(s, p + 1);
      if c == Ascii('u') {
        var code, size := DecodeEscape(s, p);
        if size == 0 {
          return None;
        }
        out.Add(Encode(code));
        p := p + size;
        continue;
      }
      if c == 0 {
        return None;
      }
      out.Add([Unescaped(c)]);
      p := p + 2;
    }
    return Some(out.data[..out.length]);
  }

  method ReadHex4(s: CString, p: nat) returns (code: Option<nat>)
    ensures code == Hex4(s, p)
  {
    var value: nat, i := 0, 0;
    while i < 4
      invariant 0 <= i <= 4
      invariant HexRun(s, p + i, 4 - i, value) == Hex4(s, p)
    {
      var digit := Hex(Peek(s, p + i));
      if digit.None? {
        return None;
      }
      value := value * 16 + digit.value;
      i := i + 1;
    }
    return Some(value);
  }

  /** The code of an escape, its size 0 when it makes no sense. */
  method DecodeEscape(s: CString, p: nat) returns (code: nat, size: nat)
    requires p < |s| && Peek(s, p + 1) == Ascii('u')
    ensures CodeAt(s, p) == if size == 0 then None else Some((code, size))
    ensures size > 0 ==> code <= MAX_CHAR
  {
    hide Hex4;
    var first := ReadHex4(s, p + 2);
    if first.None? {
      return 0, 0;
    }
    code, size := first.value, 6;
    if 0xD800 <= code <= 0xDBFF && Peek(s, p + 6) == BACKSLASH && Peek(s, p + 7) == Ascii('u') {
      var low := ReadHex4(s, p + 8);
      if low.Some? && 0xDC00 <= low.value <= 0xDFFF {
        code := 0x10000 + (code - 0xD800) * 1024 + (low.value - 0xDC00);
        size := 12;
      }
    }
  }

  // ---------- members and elements ----------

  /** Where the key ends that starts at `p`, and where its value starts. */
  function KeyAt(s: seq<Byte>, p: nat): (r: Option<(nat, nat)>)
    requires p <= |s|
    ensures r.Some? ==> p + 1 < r.value.0 < r.value.1 <= |s|
  {
    var after := StringEnd(s, p);
    if after.None? then None
    else
      var q := SpaceEnd(s, after.value);
      if Peek(s, q) != Ascii(':') then None else Some((after.value, SpaceEnd(s, q + 1)))
  }

  /** Past the value at `p` and the comma after it: where the next one starts, or its key. */
  function NextAt(s: seq<Byte>, p: nat): (r: Option<nat>)
    requires p <= |s|
    ensures r.Some? ==> p < r.value <= |s|
  {
    var e := ValueEnd(s, p);
    if e.None? then None
    else
      var n := SpaceEnd(s, e.value);
      if Peek(s, n) != Ascii(',') then None else Some(SpaceEnd(s, n + 1))
  }

  /** Where the value is of the first member from `p` on whose key is written `key`. */
  function MemberAt(s: seq<Byte>, p: nat, key: seq<Byte>): (r: Option<nat>)
    requires p <= |s|
    decreases |s| - p
  {
    if Peek(s, p) != QUOTE then None
    else
      var k := KeyAt(s, p);
      if k.None? then None
      else if s[p + 1..k.value.0 - 1] == key then Some(k.value.1)
      else
        var n := NextAt(s, k.value.1);
        if n.None? then None else MemberAt(s, n.value, key)
  }

  /** Where the value of `key` is in the object at `p`. */
  function ValueOf(s: seq<Byte>, p: nat, key: seq<Byte>): Option<nat>
    requires p <= |s|
  {
    var q := SpaceEnd(s, p);
    if Peek(s, q) != Ascii('{') then None else MemberAt(s, SpaceEnd(s, q + 1), key)
  }

  method Get(s: CString, p0: nat, key: CString) returns (r: Option<nat>)
    requires p0 <= |s|
    ensures r == ValueOf(s, p0, key)
  {
    hide SpaceEnd, KeyAt, NextAt;
    var p := SkipSpace(s, p0);
    if Peek(s, p) != Ascii('{') {
      return None;
    }
    p := SkipSpace(s, p + 1);
    ghost var first := p;
    while Peek(s, p) == QUOTE
      invariant first <= p <= |s| && MemberAt(s, p, key) == MemberAt(s, first, key)
      decreases |s| - p
    {
      var k := ReadKey(s, p);
      if k.None? {
        return None;
      }
      if s[p + 1..k.value.0 - 1] == key {
        return Some(k.value.1);
      }
      var n := GoOn(s, k.value.1);
      if n.None? {
        return None;
      }
      p := n.value;
    }
    return None;
  }

  method ReadKey(s: CString, p: nat) returns (k: Option<(nat, nat)>)
    requires p <= |s|
    ensures k == KeyAt(s, p)
  {
    hide SpaceEnd, StringEnd;
    var after := SkipString(s, p);
    if after.None? {
      return None;
    }
    var q := SkipSpace(s, after.value);
    if Peek(s, q) != Ascii(':') {
      return None;
    }
    q := SkipSpace(s, q + 1);
    return Some((after.value, q));
  }

  method GoOn(s: CString, p: nat) returns (n: Option<nat>)
    requires p <= |s|
    ensures n == NextAt(s, p)
  {
    hide SpaceEnd, ValueEnd;
    var e := Skip(s, p);
    if e.None? {
      return None;
    }
    var q := SkipSpace(s, e.value);
    if Peek(s, q) != Ascii(',') {
      return None;
    }
    q := SkipSpace(s, q + 1);
    return Some(q);
  }

  /** Where the element is that comes `index` elements after the one at `p`. */
  function ElementFrom(s: seq<Byte>, p: nat, index: nat): Option<nat>
    requires p <= |s|
    decreases index
  {
    if index == 0 then Some(p)
    else
      var n := NextAt(s, p);
      if n.None? then None else ElementFrom(s, n.value, index - 1)
  }

  /** Where element `index` is of the list at `p`. */
  function ElementAt(s: seq<Byte>, p: nat, index: nat): Option<nat>
    requires p <= |s|
  {
    var q := SpaceEnd(s, p);
    if Peek(s, q) != Ascii('[') then None
    else
      var first := SpaceEnd(s, q + 1);
      if Peek(s, first) == Ascii(']') then None else ElementFrom(s, first, index)
  }

  method At(s: CString, p0: nat, index: nat) returns (r: Option<nat>)
    requires p0 <= |s|
    ensures r == ElementAt(s, p0, index)
  {
    hide SpaceEnd, NextAt;
    var p := SkipSpace(s, p0);
    if Peek(s, p) != Ascii('[') {
      return None;
    }
    p := SkipSpace(s, p + 1);
    if Peek(s, p) == Ascii(']') {
      return None;
    }
    ghost var first := p;
    var left := index;
    while left > 0
      invariant first <= p <= |s| && 0 <= left <= index
      invariant ElementFrom(s, p, left) == ElementFrom(s, first, index)
    {
      var n := GoOn(s, p);
      if n.None? {
        return None;
      }
      p := n.value;
      left := left - 1;
    }
    return Some(p);
  }
}
