/** The characters of a text: UTF-8, where a byte that is not part of a well-formed
    character is a character of its own. */
module Utf8 {
  import opened Common

  const MAX_CHAR := 0x10FFFF
  const BAD_BYTE := 0x110000

  datatype Decoded = Decoded(c: nat, size: nat)

  /** How many bytes must follow the lead byte `b`; 0 when `b` leads nothing. */
  function Need(b: Byte): nat {
    if 0xC2 <= b <= 0xDF then 1
    else if 0xE0 <= b <= 0xEF then 2
    else if 0xF0 <= b <= 0xF4 then 3
    else 0
  }

  /** The bits a lead byte contributes: `b & 0x1f`, `b & 0x0f` or `b & 0x07`. */
  function LeadBits(b: Byte): nat
    requires Need(b) > 0
  {
    if Need(b) == 1 then b - 0xC0 else if Need(b) == 2 then b - 0xE0 else b - 0xF0
  }

  predicate IsTail(b: Byte) {
    0x80 <= b < 0xC0
  }

  /** The six bits a tail byte contributes: `b & 0x3f`. */
  function Bits(b: Byte): nat {
    b % 64
  }

  /** `bits` followed by the six bits of each byte of `tail`. */
  function Accumulate(bits: nat, tail: seq<Byte>): nat {
    if tail == [] then bits
    else Accumulate(bits, tail[..|tail| - 1]) * 64 + Bits(tail[|tail| - 1])
  }

  /** A value that a shorter form could have held, or that is no character. */
  predicate Overlong(need: nat, value: nat) {
    || (need == 2 && value < 0x800)
    || (need == 3 && (value < 0x10000 || value > MAX_CHAR))
  }

  predicate TailsOk(s: seq<Byte>, at: nat, need: nat)
    requires at + need < |s|
  {
    forall i :: at < i <= at + need ==> IsTail(s[i])
  }

  /** The character of `s` at `at`, and its size in bytes. */
  function Decode(s: seq<Byte>, at: nat): (d: Decoded)
    requires at < |s|
    ensures 1 <= d.size && at + d.size <= |s|
  {
    var b := s[at];
    if b < 0x80 then Decoded(b, 1)
    else if Need(b) == 0 || |s| - at <= Need(b) || !TailsOk(s, at, Need(b)) then Decoded(BAD_BYTE + b, 1)
    else
      var value := Accumulate(LeadBits(b), s[at + 1..at + Need(b) + 1]);
      if Overlong(Need(b), value) then Decoded(BAD_BYTE + b, 1) else Decoded(value, Need(b) + 1)
  }

  lemma AccumulateOne(bits: nat, s: seq<Byte>, from: nat, to: nat)
    requires from <= to < |s|
    ensures Accumulate(bits, s[from..to + 1]) == Accumulate(bits, s[from..to]) * 64 + Bits(s[to])
  {
    var tail := s[from..to + 1];
    assert tail[..|tail| - 1] == s[from..to];
  }

  /** Reads the `need` bytes after `at`, as long as they continue a character. */
  method ReadTail(s: seq<Byte>, at: nat, need: nat, bits: nat) returns (ok: bool, value: nat)
    requires at + need < |s|
    ensures ok == TailsOk(s, at, need)
    ensures ok ==> value == Accumulate(bits, s[at + 1..at + need + 1])
  {
    value := bits;
    var i := 1;
    while i <= need
      invariant 1 <= i <= need + 1
      invariant forall j :: at < j < at + i ==> IsTail(s[j])
      invariant value == Accumulate(bits, s[at + 1..at + i])
    {
      if s[at + i] / 64 != 2 {
        assert !IsTail(s[at + i]);
        return false, value;
      }
      AccumulateOne(bits, s, at + 1, at + i);
      value := value * 64 + Bits(s[at + i]);
      i := i + 1;
    }
    return true, value;
  }

  /** The character at `at`, and its size. */
  method DecodeChar(s: seq<Byte>, at: nat) returns (c: nat, size: nat)
    requires at < |s|
    ensures Decoded(c, size) == Decode(s, at)
  {
    hide Accumulate, TailsOk;
    var b := s[at];
    var need, value;
    if b < 0x80 {
      return b, 1;
    } else if 0xC2 <= b <= 0xDF {
      need, value := 1, b % 32;
    } else if 0xE0 <= b <= 0xEF {
      need, value := 2, b % 16;
    } else if 0xF0 <= b <= 0xF4 {
      need, value := 3, b % 8;
    } else {
      return BAD_BYTE + b, 1;
    }
    if |s| - at <= need {
      return BAD_BYTE + b, 1;
    }
    var ok;
    ok, value := ReadTail(s, at, need, value);
    if !ok || (need == 2 && value < 0x800) || (need == 3 && (value < 0x10000 || value > MAX_CHAR)) {
      return BAD_BYTE + b, 1;
    }
    return value, need + 1;
  }

  /** The UTF-8 form of a character, or the byte a bad-byte character stands for. */
  function Encode(c: nat): (e: seq<Byte>)
    requires c <= BAD_BYTE + 255
    ensures 1 <= |e| <= 4
  {
    if c < 0x80 then [c]
    else if c < 0x800 then [0xC0 + c / 64, 0x80 + c % 64]
    else if c < 0x10000 then [0xE0 + c / 64 / 64, 0x80 + c / 64 % 64, 0x80 + c % 64]
    else if c < BAD_BYTE then
      [0xF0 + c / 64 / 64 / 64, 0x80 + c / 64 / 64 % 64, 0x80 + c / 64 % 64, 0x80 + c % 64]
    else [c - BAD_BYTE]
  }

  /** The examples of section 7 of RFC 3629. */
  lemma KnownEncodings()
    ensures Encode(0x41) == [0x41] && Encode(0x391) == [0xCE, 0x91]
    ensures Encode(0x2262) == [0xE2, 0x89, 0xA2] && Encode(0xD55C) == [0xED, 0x95, 0x9C] && Encode(0x65E5) == [0xE6, 0x97, 0xA5]
    ensures Encode(0x233B4) == [0xF0, 0xA3, 0x8E, 0xB4]
  {
  }

  /** `Accumulate` on the one to three bytes a character can have. */
  lemma AccumulateUnrolled(bits: nat, tail: seq<Byte>)
    requires 1 <= |tail| <= 3
    ensures Accumulate(bits, tail) ==
            var v1 := bits * 64 + Bits(tail[0]);
            var v2 := if |tail| < 2 then v1 else v1 * 64 + Bits(tail[1]);
            if |tail| < 3 then v2 else v2 * 64 + Bits(tail[2])
  {
    if |tail| > 1 {
      AccumulateUnrolled(bits, tail[..|tail| - 1]);
    }
  }

  lemma Digit(q: nat, r: nat)
    requires r < 64
    ensures (q * 64 + r) / 64 == q && (q * 64 + r) % 64 == r
  {
  }

  /** Encoding splits a value back into the bits it was put together from. */
  lemma EncodeTwo(bits: nat, t1: nat)
    requires t1 < 64 && 0x80 <= bits * 64 + t1 < 0x800
    ensures Encode(bits * 64 + t1) == [0xC0 + bits, 0x80 + t1]
  {
    Digit(bits, t1);
  }

  lemma EncodeThree(bits: nat, t1: nat, t2: nat)
    requires t1 < 64 && t2 < 64 && 0x800 <= (bits * 64 + t1) * 64 + t2 < 0x10000
    ensures Encode((bits * 64 + t1) * 64 + t2) == [0xE0 + bits, 0x80 + t1, 0x80 + t2]
  {
    Digit(bits, t1);
    Digit(bits * 64 + t1, t2);
  }

  lemma EncodeFour(bits: nat, t1: nat, t2: nat, t3: nat)
    requires t1 < 64 && t2 < 64 && t3 < 64
    requires 0x10000 <= ((bits * 64 + t1) * 64 + t2) * 64 + t3 < BAD_BYTE
    ensures Encode(((bits * 64 + t1) * 64 + t2) * 64 + t3) == [0xF0 + bits, 0x80 + t1, 0x80 + t2, 0x80 + t3]
  {
    Digit(bits, t1);
    Digit(bits * 64 + t1, t2);
    Digit((bits * 64 + t1) * 64 + t2, t3);
  }

  lemma TailBits(tail: seq<Byte>)
    requires forall i :: 0 <= i < |tail| ==> IsTail(tail[i])
    ensures forall i :: 0 <= i < |tail| ==> Bits(tail[i]) < 64 && tail[i] == 0x80 + Bits(tail[i])
  {
    forall i | 0 <= i < |tail| ensures tail[i] == 0x80 + Bits(tail[i]) {
      assert IsTail(tail[i]);
      Digit(2, tail[i] - 0x80);
    }
  }

  lemma EncodeAccumulated(b: Byte, tail: seq<Byte>)
    requires Need(b) == |tail| > 0
    requires forall i :: 0 <= i < |tail| ==> IsTail(tail[i])
    requires !Overlong(Need(b), Accumulate(LeadBits(b), tail))
    ensures Accumulate(LeadBits(b), tail) <= MAX_CHAR
    ensures Encode(Accumulate(LeadBits(b), tail)) == [b] + tail
  {
    var bits, v := LeadBits(b), Accumulate(LeadBits(b), tail);
    AccumulateUnrolled(bits, tail);
    TailBits(tail);
    var t1 := Bits(tail[0]);
    if |tail| == 1 {
      assert v == bits * 64 + t1;
      EncodeTwo(bits, t1);
    } else if |tail| == 2 {
      var t2 := Bits(tail[1]);
      assert v == (bits * 64 + t1) * 64 + t2;
      EncodeThree(bits, t1, t2);
    } else {
      var t2, t3 := Bits(tail[1]), Bits(tail[2]);
      assert v == ((bits * 64 + t1) * 64 + t2) * 64 + t3;
      EncodeFour(bits, t1, t2, t3);
    }
  }

  /** What a text holds at a position is the encoding of what is decoded there. */
  lemma EncodeDecode(s: seq<Byte>, at: nat)
    requires at < |s|
    ensures Decode(s, at).c <= BAD_BYTE + 255
    ensures Encode(Decode(s, at).c) == s[at..at + Decode(s, at).size]
  {
    var d := Decode(s, at);
    if d.size > 1 {
      var tail := s[at + 1..at + d.size];
      forall i | 0 <= i < |tail| ensures IsTail(tail[i]) {
        assert IsTail(s[at + 1 + i]);
      }
      EncodeAccumulated(s[at], tail);
      assert s[at..at + d.size] == [s[at]] + tail;
    }
  }

  /** Decoding inverts encoding for every value up to 0x10FFFF, whatever follows. */
  lemma DecodeEncode(c: nat, rest: seq<Byte>)
    requires c <= MAX_CHAR
    ensures Decode(Encode(c) + rest, 0) == Decoded(c, |Encode(c)|)
  {
    var e := Encode(c);
    var s := e + rest;
    if |e| > 1 {
      var tail := e[1..];
      assert s[1..|e|] == tail;
      AccumulateUnrolled(LeadBits(e[0]), tail);
      forall i | 0 < i < |e| ensures IsTail(s[i]) && Bits(s[i]) == s[i] - 0x80 {
        assert s[i] == e[i] && 0x80 <= e[i] < 0xC0;
        Digit(2, e[i] - 0x80);
      }
      assert Need(s[0]) == |e| - 1;
      assert TailsOk(s, 0, |e| - 1);
    }
  }

  /** A byte is a bad-byte character exactly when no character's encoding starts there. */
  lemma BadByteExactly(s: seq<Byte>, at: nat)
    requires at < |s|
    ensures Decode(s, at).c >= BAD_BYTE ==> Decode(s, at) == Decoded(BAD_BYTE + s[at], 1)
    ensures Decode(s, at).c >= BAD_BYTE <==> !exists c: nat :: c <= MAX_CHAR && Encode(c) <= s[at..]
  {
    EncodeDecode(s, at);
    var d := Decode(s, at);
    if d.c <= MAX_CHAR {
      assert Encode(d.c) <= s[at..];
    }
    forall c: nat | c <= MAX_CHAR && Encode(c) <= s[at..]
      ensures d.c == c
    {
      var e := Encode(c);
      assert s[at..] == e + s[at + |e|..];
      DecodeEncode(c, s[at + |e|..]);
      DecodeSuffix(s, at);
    }
  }

  /** A character that section 3 of RFC 3629 lets be encoded: no surrogate. */
  predicate IsScalar(c: nat) {
    c <= MAX_CHAR && !(0xD800 <= c <= 0xDFFF)
  }

  /** What is decoded is such a character or a bad byte, unless the bytes are those of a surrogate:
      ED, a byte from A0 to BF, and one more tail byte. */
  lemma SurrogateExactly(s: seq<Byte>, at: nat)
    requires at < |s|
    ensures !IsScalar(Decode(s, at).c) && Decode(s, at).c < BAD_BYTE <==>
            s[at] == 0xED && at + 2 < |s| && 0xA0 <= s[at + 1] <= 0xBF && IsTail(s[at + 2])
  {
    EncodeDecode(s, at);
    if Need(s[at]) == 2 && at + 2 < |s| && IsTail(s[at + 1]) && IsTail(s[at + 2]) {
      var tail := s[at + 1..at + 3];
      AccumulateUnrolled(LeadBits(s[at]), tail);
      Digit(2, s[at + 1] - 0x80);
      Digit(2, s[at + 2] - 0x80);
    }
  }

  /** The first of them: it is taken for a character of three bytes. */
  lemma SurrogateAccepted()
    ensures Decode([0xED, 0xA0, 0x80], 0) == Decoded(0xD800, 3) && !IsScalar(0xD800)
  {
    var s: seq<Byte> := [0xED, 0xA0, 0x80];
    AccumulateUnrolled(LeadBits(0xED), s[1..3]);
  }

  lemma DecodeSuffix(s: seq<Byte>, at: nat)
    requires at < |s|
    ensures Decode(s[at..], 0) == Decode(s, at)
  {
    var t, need := s[at..], Need(s[at]);
    if 0 < need < |t| {
      assert t[1..need + 1] == s[at + 1..at + need + 1];
      assert forall i :: 0 < i <= need ==> t[i] == s[at + i];
      assert TailsOk(t, 0, need) <==> TailsOk(s, at, need) by {
        if TailsOk(t, 0, need) {
          forall i | at < i <= at + need ensures IsTail(s[i]) { assert IsTail(t[i - at]); }
        }
      }
    }
  }

  /** All the characters of `s` from `at` on. */
  function Chars(s: seq<Byte>, at: nat): seq<nat>
    requires at <= |s|
    decreases |s| - at
  {
    if at == |s| then [] else [Decode(s, at).c] + Chars(s, at + Decode(s, at).size)
  }

  function EncodeAll(cs: seq<nat>): seq<Byte>
    requires forall i :: 0 <= i < |cs| ==> cs[i] <= BAD_BYTE + 255
  {
    if cs == [] then [] else Encode(cs[0]) + EncodeAll(cs[1..])
  }

  /** Splitting any byte string into characters loses nothing. */
  lemma {:induction false} CharsCoverText(s: seq<Byte>, at: nat)
    requires at <= |s|
    ensures forall i :: 0 <= i < |Chars(s, at)| ==> Chars(s, at)[i] <= BAD_BYTE + 255
    ensures EncodeAll(Chars(s, at)) == s[at..]
    decreases |s| - at
  {
    hide Decode, Encode;
    if at < |s| {
      EncodeDecode(s, at);
      var c, next := Decode(s, at).c, at + Decode(s, at).size;
      CharsCoverText(s, next);
      var rest := Chars(s, next);
      assert ([c] + rest)[1..] == rest;
      assert s[at..] == s[at..next] + s[next..];
    }
  }
}
