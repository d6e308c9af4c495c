/** What every part of the model uses: bytes, C strings, and results that may be missing. */
module Common {

  type Byte = b: int | 0 <= b < 256

  function Ascii(c: char): nat {
    c as int
  }

  predicate IsDigit(b: Byte) {
    Ascii('0') <= b <= Ascii('9')
  }

  predicate IsLetter(b: Byte) {
    Ascii('a') <= b <= Ascii('z') || Ascii('A') <= b <= Ascii('Z')
  }

  function Hex(b: Byte): Option<nat> {
    if IsDigit(b) then Some(b - Ascii('0'))
    else if Ascii('a') <= b <= Ascii('f') then Some(b - Ascii('a') + 10)
    else if Ascii('A') <= b <= Ascii('F') then Some(b - Ascii('A') + 10)
    else None
  }

  /** `c` is one of the characters of `these`. */
  predicate OneOf(c: nat, these: string) {
    exists k :: 0 <= k < |these| && Ascii(these[k]) == c
  }

  const SMALL_DIGITS := "0123456789abcdef"
  const CAPITAL_DIGITS := "0123456789ABCDEF"

  /** `b` is the digit of base 16 for `d`. */
  predicate IsHexDigit(b: Byte, d: nat) {
    d < 16 && (b == Ascii(SMALL_DIGITS[d]) || b == Ascii(CAPITAL_DIGITS[d]))
  }

  /** `n` written in base 16, with any number of zeros before it. */
  predicate HexText(digits: seq<Byte>, n: nat) {
    if digits == [] then n == 0
    else IsHexDigit(digits[|digits| - 1], n % 16) && HexText(digits[..|digits| - 1], n / 16)
  }

  lemma HexIsDigit(b: Byte, d: nat)
    ensures Hex(b) == Some(d) <==> IsHexDigit(b, d)
  {
    assert forall k :: 0 <= k < 10 ==> Ascii(SMALL_DIGITS[k]) == Ascii(CAPITAL_DIGITS[k]) == 48 + k;
    assert forall k :: 10 <= k < 16 ==> Ascii(SMALL_DIGITS[k]) == 87 + k && Ascii(CAPITAL_DIGITS[k]) == 55 + k;
  }

  datatype Option<+T> = None | Some(value: T)

  predicate NoNul(s: seq<Byte>) {
    forall k :: 0 <= k < |s| ==> s[k] != 0
  }

  /** The byte at `at` of a C string: 0 at its end. */
  function Peek(s: seq<Byte>, at: nat): Byte {
    if at < |s| then s[at] else 0
  }

  /** What a C string holds, without the byte that ends it. */
  type CString = s: seq<Byte> | NoNul(s)

  // ---------- sequences ----------

  lemma SeqAround<T>(s: seq<T>, i: nat)
    requires i < |s|
    ensures s == s[..i] + [s[i]] + s[i + 1..]
  {
  }

  lemma SeqAssoc<T>(a: seq<T>, b: seq<T>, c: seq<T>)
    ensures a + (b + c) == (a + b) + c
  {
  }

  lemma SeqRegroup<T>(a: seq<T>, x: seq<T>, y: seq<T>, z: seq<T>, b: seq<T>)
    ensures (a + x) + y + (z + b) == a + (x + y + z) + b
  {
  }

  // ---------- text at a position ----------

  /** `t` is what the text says at `p`. */
  predicate Has(s: seq<Byte>, p: nat, t: seq<Byte>) {
    p + |t| <= |s| && s[p..p + |t|] == t
  }

  lemma HasSplit(s: seq<Byte>, p: nat, a: seq<Byte>, b: seq<Byte>)
    requires Has(s, p, a + b)
    ensures Has(s, p, a) && Has(s, p + |a|, b)
  {
    assert s[p..p + |a|] == s[p..p + |a + b|][..|a|];
    assert s[p + |a|..p + |a| + |b|] == s[p..p + |a + b|][|a|..];
  }

  lemma HasByte(s: seq<Byte>, p: nat, t: seq<Byte>, k: nat)
    requires Has(s, p, t) && k < |t|
    ensures Peek(s, p + k) == t[k]
  {
    assert s[p..p + |t|][k] == s[p + k];
  }
}
