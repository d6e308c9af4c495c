/** The body of a response sent in chunks (section 7.1 of RFC 9112), decoded in place. */
module Chunked {
  import opened Common

  const MAX_RESPONSE: nat := 64 * 1024 * 1024
  const CR: Byte := 13
  const LF: Byte := 10

  datatype Outcome = Complete(body: seq<Byte>) | Malformed | Incomplete

  predicate IsHex(b: Byte) {
    Hex(b).Some?
  }

  /** The number at `i`, `size` being what the digits before it say, and where it ends. */
  function SizeAt(s: seq<Byte>, i: nat, size: nat): (r: Option<(nat, nat)>)
    requires i <= |s|
    ensures r.Some? ==> i <= r.value.1 <= |s|
    decreases |s| - i
  {
    if i < |s| && IsHex(s[i]) then
      if size > MAX_RESPONSE / 16 then None else SizeAt(s, i + 1, size * 16 + Hex(s[i]).value)
    else Some((size, i))
  }

  /** Where the line ends. */
  function LineEnd(s: seq<Byte>, i: nat): (r: nat)
    requires i <= |s|
    ensures i <= r <= |s| && (r < |s| ==> s[r] == LF)
    decreases |s| - i
  {
    if i < |s| && s[i] != LF then LineEnd(s, i + 1) else i
  }

  /** What is made of the chunks from `i` on, `out` being what those before it held. */
  function Decode(s: seq<Byte>, i: nat, out: seq<Byte>): Outcome
    requires i <= |s|
    decreases |s| - i
  {
    var head := SizeAt(s, i, 0);
    if head.None? then Malformed
    else
      var (size, j) := head.value;
      if j == |s| then Incomplete
      else if j == i then Malformed
      else
        var k := LineEnd(s, j);
        if k == |s| then Incomplete
        else if size == 0 then Complete(out)   // whatever comes behind is not looked at
        else if |s| - (k + 1) < size + 2 then Incomplete
        else
          var e := k + 1 + size;
          var f := if s[e] == CR then e + 1 else e;
          if s[f] != LF then Malformed else Decode(s, f + 1, out + s[k + 1..e])
  }

  /** The length of the decoded body, -1 when it is malformed and -2 when it has not all come. */
  function Code(r: Outcome): int {
    match r
    case Complete(body) => |body|
    case Malformed => -1
    case Incomplete => -2
  }

  /** One chunk read: where its size, its line and its data end. */
  lemma DecodeHead(s: seq<Byte>, i: nat, out: seq<Byte>)
    requires i <= |s|
    ensures var head := SizeAt(s, i, 0);
            if head.None? then Decode(s, i, out) == Malformed
            else
              var (size, j) := head.value;
              if j == |s| then Decode(s, i, out) == Incomplete
              else if j == i then Decode(s, i, out) == Malformed
              else
                var k := LineEnd(s, j);
                if k == |s| then Decode(s, i, out) == Incomplete
                else if size == 0 then Decode(s, i, out) == Complete(out)
                else if |s| - (k + 1) < size + 2 then Decode(s, i, out) == Incomplete
                else
                  var f := if s[k + 1 + size] == CR then k + 1 + size + 1 else k + 1 + size;
                  Decode(s, i, out) == if s[f] != LF then Malformed else Decode(s, f + 1, out + s[k + 1..k + 1 + size])
  {
  }

  /** What has not been read yet is as it came. */
  ghost predicate Unread(body: array<Byte>, s: seq<Byte>, i: nat)
    requires |s| <= body.Length
    reads body
  {
    forall q :: i <= q < |s| ==> body[q] == s[q]
  }

  /** The size of a chunk: its hexadecimal digits, as far as they make sense. */
  method ReadSize(body: array<Byte>, length: nat, i: nat, ghost s: seq<Byte>) returns (ok: bool, size: nat, j: nat)
    requires i <= length == |s| <= body.Length && Unread(body, s, i)
    ensures i <= j <= length
    ensures SizeAt(s, i, 0) == if ok then Some((size, j)) else None
  {
    size, j := 0, i;
    while j < length && IsHex(body[j])
      invariant i <= j <= length
      invariant SizeAt(s, j, size) == SizeAt(s, i, 0)
    {
      if size > MAX_RESPONSE / 16 {
        return false, size, j;
      }
      size := size * 16 + Hex(body[j]).value;
      j := j + 1;
    }
    ok := true;
  }

  method SkipLine(body: array<Byte>, length: nat, i: nat, ghost s: seq<Byte>) returns (k: nat)
    requires i <= length == |s| <= body.Length && Unread(body, s, i)
    ensures k == LineEnd(s, i)
  {
    k := i;
    while k < length && body[k] != LF
      invariant i <= k <= length
      invariant LineEnd(s, k) == LineEnd(s, i)
    {
      k := k + 1;
    }
  }

  /** Moves the data of a chunk down to the end of what has been decoded, which is not after it. */
  method MoveDown(body: array<Byte>, to: nat, from: nat, size: nat, ghost s: seq<Byte>)
    requires to <= from && from + size <= |s| <= body.Length && Unread(body, s, from)
    modifies body
    ensures body[..to + size] == old(body[..to]) + s[from..from + size]
    ensures Unread(body, s, from + size)
    ensures forall q :: |s| <= q < body.Length ==> body[q] == old(body[q])
  {
    var m := 0;
    while m < size
      invariant 0 <= m <= size
      invariant forall q :: 0 <= q < to ==> body[q] == old(body[q])
      invariant forall q :: to <= q < to + m ==> body[q] == s[q - to + from]
      invariant Unread(body, s, from + m)
      invariant forall q :: |s| <= q < body.Length ==> body[q] == old(body[q])
    {
      body[to + m] := body[from + m];
      m := m + 1;
    }
    assert body[..to] == old(body[..to]);
    assert body[to..to + size] == s[from..from + size];
    assert body[..to + size] == body[..to] + body[to..to + size];
  }

  /** What has come of the chunk at `i`: all of it, with where the next one starts, or an end. */
  datatype Progress = Next(i: nat, out: nat) | Stop(r: int)

  /** One chunk: its size, and its data moved down to `out`. */
  method DecodeChunk(body: array<Byte>, length: nat, i: nat, out: nat, ghost s: seq<Byte>) returns (p: Progress)
    requires out <= i <= length == |s| <= body.Length && Unread(body, s, i)
    modifies body
    ensures forall q :: length <= q < body.Length ==> body[q] == old(body[q])
    ensures p.Next? ==> p.out <= p.i <= length && i < p.i && Unread(body, s, p.i)
    ensures p.Next? ==> Decode(s, i, old(body[..out])) == Decode(s, p.i, body[..p.out])
    ensures p.Stop? ==> p.r == Code(Decode(s, i, old(body[..out])))
    ensures p.Stop? && p.r >= 0 ==> p.r == out && body[..out] == old(body[..out]) && Decode(s, i, body[..out]) == Complete(body[..out])
  {
    hide SizeAt, LineEnd, Decode;
    DecodeHead(s, i, body[..out]);
    var ok, size, j := ReadSize(body, length, i, s);
    if !ok {
      return Stop(-1);
    }
    if j >= length {
      return Stop(-2);
    }
    if j == i {
      return Stop(-1);
    }
    var k := SkipLine(body, length, j, s);
    if k >= length {
      return Stop(-2);
    }
    k := k + 1;
    if size == 0 {
      return Stop(out);
    }
    if length - k < size + 2 {
      return Stop(-2);
    }
    MoveDown(body, out, k, size, s);
    var e := k + size;
    if body[e] == CR {
      e := e + 1;
    }
    if e >= length || body[e] != LF {
      return Stop(-1);
    }
    return Next(e + 1, out + size);
  }

  /** Decodes the first `length` bytes in place. */
  method Dechunk(body: array<Byte>, length: nat) returns (r: int)
    requires length <= body.Length
    modifies body
    ensures r == Code(Decode(old(body[..length]), 0, []))
    ensures r >= 0 ==> r <= length && Decode(old(body[..length]), 0, []) == Complete(body[..r])
    ensures forall q :: length <= q < body.Length ==> body[q] == old(body[q])
  {
    hide Decode;
    ghost var s := body[..length];
    var i: nat, out: nat := 0, 0;
    while true
      invariant 0 <= out <= i <= length && Unread(body, s, i)
      invariant forall q :: length <= q < body.Length ==> body[q] == old(body[q])
      invariant Decode(s, i, body[..out]) == Decode(s, 0, [])
      decreases length - i
    {
      var p := DecodeChunk(body, length, i, out, s);
      if p.Stop? {
        return p.r;
      }
      i, out := p.i, p.out;
    }
  }

  /** Whether a chunked body has all come, or will never make sense; a copy of it is decoded. */
  method ResponseComplete(raw: array<Byte>, from: nat, length: nat) returns (complete: bool)
    requires from <= length <= raw.Length
    ensures complete == !Decode(raw[from..length], 0, []).Incomplete?
  {
    hide Decode;
    var copy := new Byte[length - from](_ => 0);
    var m := 0;
    while m < length - from
      invariant 0 <= m <= length - from
      invariant forall q :: 0 <= q < m ==> copy[q] == raw[from + q]
    {
      copy[m] := raw[from + m];
      m := m + 1;
    }
    assert copy[..length - from] == raw[from..length];
    var r := Dechunk(copy, length - from);
    complete := r != -2;
  }

  // ---------- what is sent ----------

  /** The digits of the size, what may follow them on the line, the data, and how it ends. */
  datatype Chunk = Chunk(digits: seq<Byte>, extension: seq<Byte>, data: seq<Byte>, cr: bool)

  /** `size` in base 16. More than this size is refused. */
  predicate DigitsOk(digits: seq<Byte>, size: nat) {
    digits != [] && HexText(digits, size) && size < 0x400_0010
  }

  predicate ExtensionOk(x: seq<Byte>) {
    (forall k :: 0 <= k < |x| ==> x[k] != LF) && (x == [] || !IsHex(x[0]))
  }

  predicate ChunkOk(c: Chunk) {
    DigitsOk(c.digits, |c.data|) && ExtensionOk(c.extension) && c.data != []
  }

  function Line(digits: seq<Byte>, extension: seq<Byte>): seq<Byte> {
    digits + extension + [LF]
  }

  function Encoded(c: Chunk): seq<Byte> {
    Line(c.digits, c.extension) + c.data + (if c.cr then [CR, LF] else [LF])
  }

  function EncodedAll(cs: seq<Chunk>): seq<Byte> {
    if cs == [] then [] else Encoded(cs[0]) + EncodedAll(cs[1..])
  }

  function DataOf(cs: seq<Chunk>): seq<Byte> {
    if cs == [] then [] else cs[0].data + DataOf(cs[1..])
  }

  // ---------- reading one line ----------

  /** The first `i` digits have been read as the number they write, if it is not too much. */
  lemma {:induction false} PrefixRead(s: seq<Byte>, base: nat, i: nat, n: nat)
    requires base + i <= |s| && HexText(s[base..base + i], n)
    ensures i == 0 || n < 0x400_0010 ==> SizeAt(s, base, 0) == SizeAt(s, base + i, n)
    ensures i > 0 && n >= 0x400_0010 ==> SizeAt(s, base, 0) == None
    decreases i
  {
    hide Hex, IsHexDigit;
    if i > 0 {
      var text := s[base..base + i];
      assert text[..i - 1] == s[base..base + (i - 1)] && text[i - 1] == s[base + (i - 1)];
      PrefixRead(s, base, i - 1, n / 16);
      HexIsDigit(s[base + (i - 1)], n % 16);
    }
  }

  /** A number in base 16, in either case and with any zeros before it, is read as that number when
      it is not too much, and else refused. */
  lemma HexTextRead(digits: seq<Byte>, n: nat)
    requires digits != [] && HexText(digits, n)
    ensures SizeAt(digits, 0, 0) == if n < 0x400_0010 then Some((n, |digits|)) else None
  {
    assert digits[0..|digits|] == digits;
    PrefixRead(digits, 0, |digits|, n);
  }

  lemma {:induction false} AllAreHex(digits: seq<Byte>, n: nat)
    requires HexText(digits, n)
    ensures forall k :: 0 <= k < |digits| ==> IsHex(digits[k])
    decreases |digits|
  {
    if digits != [] {
      AllAreHex(digits[..|digits| - 1], n / 16);
      HexIsDigit(digits[|digits| - 1], n % 16);
    }
  }

  /** A size that is too much makes the body malformed, whatever follows it. */
  lemma TooMuchIsMalformed(s: seq<Byte>, base: nat, digits: seq<Byte>, n: nat, out: seq<Byte>)
    requires digits != [] && HexText(digits, n) && n >= 0x400_0010 && base <= |s| && digits <= s[base..]
    ensures Decode(s, base, out) == Malformed
  {
    hide HexText, SizeAt;
    assert s[base..base + |digits|] == digits;
    PrefixRead(s, base, |digits|, n);
  }

  /** The digits that have come are read; where they all have, the size is known. */
  lemma {:induction false} SizeRead(s: seq<Byte>, base: nat, d: seq<Byte>, m: nat, i: nat, size: nat)
    requires i <= m <= |d| && base + m <= |s| && s[base..base + m] == d[..m]
    requires forall k :: 0 <= k < |d| ==> IsHex(d[k])
    requires base + m == |s| || (m == |d| && !IsHex(s[base + m]))
    requires SizeAt(d, i, size).Some?
    ensures SizeAt(s, base + i, size).Some? && SizeAt(s, base + i, size).value.1 == base + m
    ensures m == |d| ==> SizeAt(s, base + i, size).value.0 == SizeAt(d, i, size).value.0
    decreases m - i
  {
    if i < m {
      assert s[base + i] == s[base..base + m][i] == d[..m][i] == d[i];
      SizeRead(s, base, d, m, i + 1, size * 16 + Hex(d[i]).value);
    }
  }

  lemma {:induction false} LineRead(s: seq<Byte>, j: nat, k: nat)
    requires j <= k <= |s| && (k < |s| ==> s[k] == LF)
    requires forall q :: j <= q < k ==> s[q] != LF
    ensures LineEnd(s, j) == k
    decreases k - j
  {
    if j < k {
      LineRead(s, j + 1, k);
    }
  }

  /** A line of which `n` bytes have come, which are the last if they are not all of it. */
  lemma LineCome(s: seq<Byte>, base: nat, digits: seq<Byte>, size: nat, x: seq<Byte>, n: nat)
    requires DigitsOk(digits, size) && ExtensionOk(x) && n <= |Line(digits, x)|
    requires base + n <= |s| && s[base..base + n] == Line(digits, x)[..n]
    requires n < |Line(digits, x)| ==> base + n == |s|
    ensures var head := SizeAt(s, base, 0);
            && head.Some? && head.value.1 == base + (if n < |digits| then n else |digits|)
            && (n > |digits| ==> head.value.0 == size && LineEnd(s, head.value.1) == if n == |Line(digits, x)| then base + n - 1 else |s|)
  {
    hide HexText, SizeAt, LineEnd;
    var line := Line(digits, x);
    var m := if n < |digits| then n else |digits|;
    assert s[base..base + m] == digits[..m] by {
      assert s[base..base + m] == s[base..base + n][..m] == line[..n][..m];
    }
    forall q | 0 <= q < n ensures s[base + q] == line[q] {
      assert s[base..base + n][q] == line[..n][q];
    }
    AllAreHex(digits, size);
    HexTextRead(digits, size);
    if n > |digits| {
      assert s[base + |digits|] == line[|digits|] == (if x == [] then LF else x[0]);
    }
    SizeRead(s, base, digits, m, 0, 0);
    if n > |digits| {
      var k := if n == |line| then base + n - 1 else base + n;
      assert n == |line| ==> s[base + (n - 1)] == line[n - 1] == LF;
      forall q | base + |digits| <= q < k ensures s[q] != LF {
        assert s[base + (q - base)] == line[q - base] == x[q - base - |digits|];
      }
      LineRead(s, base + |digits|, k);
    }
  }

  // ---------- round trip ----------

  /** The parts of a chunk stand one behind the other. */
  lemma ChunkParts(s: seq<Byte>, base: nat, c: Chunk)
    requires base + |Encoded(c)| <= |s| && s[base..base + |Encoded(c)|] == Encoded(c)
    ensures var k := base + |Line(c.digits, c.extension)|;
            && k + |c.data| < |s| && s[base..k] == Line(c.digits, c.extension) && s[k..k + |c.data|] == c.data
            && s[k + |c.data|] == (if c.cr then CR else LF) && (c.cr ==> k + |c.data| + 1 < |s| && s[k + |c.data| + 1] == LF)
  {
    hide Line;
    var line, end: seq<Byte> := Line(c.digits, c.extension), if c.cr then [CR, LF] else [LF];
    HasSplit(s, base, line + c.data, end);
    HasSplit(s, base, line, c.data);
    HasByte(s, base + |line| + |c.data|, end, 0);
    HasByte(s, base + |line| + |c.data|, end, |end| - 1);
  }

  /** A chunk that has all come, with something behind it, is decoded. */
  lemma ChunkCome(s: seq<Byte>, base: nat, c: Chunk, out: seq<Byte>)
    requires ChunkOk(c) && base + |Encoded(c)| <= |s| && s[base..base + |Encoded(c)|] == Encoded(c)
    requires c.cr || base + |Encoded(c)| < |s|
    ensures Decode(s, base, out) == Decode(s, base + |Encoded(c)|, out + c.data)
  {
    hide SizeAt, LineEnd, Decode, HexText, ExtensionOk, Line;
    var line := Line(c.digits, c.extension);
    ChunkParts(s, base, c);
    assert line[..|line|] == line;
    LineLength(c.digits, c.extension);
    LineCome(s, base, c.digits, |c.data|, c.extension, |line|);
    DecodeHead(s, base, out);
  }

  lemma PrefixSplits(r: seq<Byte>, a: seq<Byte>, b: seq<Byte>)
    requires r <= a + b
    ensures |r| <= |a| ==> r == a[..|r|]
    ensures |r| >= |a| ==> r[..|a|] == a && r[|a|..] <= b && r[|a|..] == b[..|r| - |a|]
  {
    assert r == (a + b)[..|r|];
  }

  lemma OneFirst(cs: seq<Chunk>, last: seq<Byte>)
    requires cs != []
    ensures EncodedAll(cs) + last == Encoded(cs[0]) + (EncodedAll(cs[1..]) + last)
    ensures forall k :: 0 <= k < |cs[1..]| ==> cs[1..][k] == cs[k + 1]
  {
    hide Encoded;
    assert Encoded(cs[0]) + EncodedAll(cs[1..]) + last == Encoded(cs[0]) + (EncodedAll(cs[1..]) + last);
  }

  /** What has been sent is what is decoded, whatever follows the last chunk. */
  lemma {:induction false} DecodesWhatWasSent(s: seq<Byte>, base: nat, cs: seq<Chunk>, digits: seq<Byte>, x: seq<Byte>, out: seq<Byte>)
    requires (forall k :: 0 <= k < |cs| ==> ChunkOk(cs[k])) && DigitsOk(digits, 0) && ExtensionOk(x)
    requires base <= |s| && EncodedAll(cs) + Line(digits, x) <= s[base..]
    ensures Decode(s, base, out) == Complete(out + DataOf(cs))
    decreases |cs|
  {
    hide SizeAt, LineEnd, Decode, Encoded, ChunkOk, DigitsOk, ExtensionOk, Line;
    var rest, line := s[base..], Line(digits, x);
    if cs == [] {
      LastCome(s, base, digits, x, out);
    } else {
      var c, more := Encoded(cs[0]), EncodedAll(cs[1..]) + line;
      OneFirst(cs, line);
      assert s[base..base + |c|] == rest[..|c|] == c;
      LineLength(digits, x);
      ChunkCome(s, base, cs[0], out);
      assert s[base + |c|..] == rest[|c|..];
      DecodesWhatWasSent(s, base + |c|, cs[1..], digits, x, out + cs[0].data);
      assert (out + cs[0].data) + DataOf(cs[1..]) == out + DataOf(cs);
    }
  }

  lemma LineLength(digits: seq<Byte>, x: seq<Byte>)
    ensures |Line(digits, x)| == |digits| + |x| + 1
  {
  }

  lemma LastCome(s: seq<Byte>, base: nat, digits: seq<Byte>, x: seq<Byte>, out: seq<Byte>)
    requires DigitsOk(digits, 0) && ExtensionOk(x)
    requires base <= |s| && EncodedAll([]) + Line(digits, x) <= s[base..]
    ensures Decode(s, base, out) == Complete(out + DataOf([]))
  {
    hide SizeAt, LineEnd, Decode;
    var rest, line := s[base..], Line(digits, x);
    assert [] + line == line;
    assert s[base..base + |line|] == rest[..|line|] == line == line[..|line|];
    LineCome(s, base, digits, 0, x, |line|);
    DecodeHead(s, base, out);
    assert out + [] == out;
  }

  /** A chunk of which only the first bytes have come. */
  lemma ChunkCut(s: seq<Byte>, base: nat, c: Chunk, out: seq<Byte>)
    requires ChunkOk(c) && base <= |s| <= base + |Encoded(c)| && s[base..] == Encoded(c)[..|s| - base]
    requires |s| == base + |Encoded(c)| ==> !c.cr
    ensures Decode(s, base, out) == Incomplete
  {
    hide SizeAt, LineEnd, Decode;
    var line, all := Line(c.digits, c.extension), Encoded(c);
    var n := if |s| - base < |line| then |s| - base else |line|;
    assert s[base..base + n] == s[base..][..n] == all[..|s| - base][..n] == line[..n];
    LineCome(s, base, c.digits, |c.data|, c.extension, n);
    DecodeHead(s, base, out);
  }

  /** As long as the line of the last chunk has not ended, more is waited for. */
  lemma {:induction false} PrefixIsIncomplete(s: seq<Byte>, base: nat, cs: seq<Chunk>, digits: seq<Byte>, x: seq<Byte>, out: seq<Byte>)
    requires (forall k :: 0 <= k < |cs| ==> ChunkOk(cs[k])) && DigitsOk(digits, 0) && ExtensionOk(x)
    requires base <= |s| && s[base..] < EncodedAll(cs) + Line(digits, x)
    ensures Decode(s, base, out) == Incomplete
    decreases |cs|
  {
    hide SizeAt, LineEnd, Decode, Encoded, ChunkOk, DigitsOk, ExtensionOk, Line;
    var rest, line := s[base..], Line(digits, x);
    if cs == [] {
      LastCut(s, base, digits, x, out);
    } else {
      var c, more := Encoded(cs[0]), EncodedAll(cs[1..]) + line;
      OneFirst(cs, line);
      PrefixSplits(rest, c, more);
      if |rest| < |c| || (|rest| == |c| && !cs[0].cr) {
        ChunkCut(s, base, cs[0], out);
      } else {
        assert s[base..base + |c|] == rest[..|c|];
        ChunkCome(s, base, cs[0], out);
        assert s[base + |c|..] == rest[|c|..];
        PrefixIsIncomplete(s, base + |c|, cs[1..], digits, x, out + cs[0].data);
      }
    }
  }

  lemma LastCut(s: seq<Byte>, base: nat, digits: seq<Byte>, x: seq<Byte>, out: seq<Byte>)
    requires DigitsOk(digits, 0) && ExtensionOk(x)
    requires base <= |s| && s[base..] < EncodedAll([]) + Line(digits, x)
    ensures Decode(s, base, out) == Incomplete
  {
    hide SizeAt, LineEnd, Decode, HexText, ExtensionOk, Line;
    LineLength(digits, x);
    var rest, line := s[base..], Line(digits, x);
    assert [] + line == line;
    assert s[base..base + |rest|] == rest == line[..|rest|];
    LineCome(s, base, digits, 0, x, |rest|);
    DecodeHead(s, base, out);
  }

  /** The bytes of a message, and whether they are enough of it. */
  lemma CompleteFromTheLastLine(cs: seq<Chunk>, digits: seq<Byte>, x: seq<Byte>, trailers: seq<Byte>, n: nat)
    requires (forall k :: 0 <= k < |cs| ==> ChunkOk(cs[k])) && DigitsOk(digits, 0) && ExtensionOk(x)
    requires n <= |EncodedAll(cs) + Line(digits, x) + trailers|
    ensures var sent := EncodedAll(cs) + Line(digits, x);
            Decode((sent + trailers)[..n], 0, []) == if n < |sent| then Incomplete else Complete(DataOf(cs))
  {
    hide Decode, EncodedAll;
    var sent := EncodedAll(cs) + Line(digits, x);
    var s := (sent + trailers)[..n];
    assert s[0..] == s && [] + DataOf(cs) == DataOf(cs);
    if n < |sent| {
      assert s == sent[..n];
      PrefixIsIncomplete(s, 0, cs, digits, x, []);
    } else {
      assert s[..|sent|] == sent;
      DecodesWhatWasSent(s, 0, cs, digits, x, []);
    }
  }

  // ---------- nothing else is decoded ----------

  /** Where a chunk should start with its size there is something else. */
  lemma NoSizeIsMalformed(s: seq<Byte>, base: nat, out: seq<Byte>)
    requires base < |s| && !IsHex(s[base])
    ensures Decode(s, base, out) == Malformed
  {
  }

  /** The data of a chunk does not end with the end of a line. */
  lemma BadEndIsMalformed(s: seq<Byte>, base: nat, digits: seq<Byte>, x: seq<Byte>, size: nat, out: seq<Byte>)
    requires DigitsOk(digits, size) && ExtensionOk(x) && size > 0
    requires base + |Line(digits, x)| + size + 2 <= |s| && s[base..base + |Line(digits, x)|] == Line(digits, x)
    requires var e := base + |Line(digits, x)| + size; s[e] != LF && (s[e] != CR || s[e + 1] != LF)
    ensures Decode(s, base, out) == Malformed
  {
    hide SizeAt, LineEnd, Decode, HexText;
    var line := Line(digits, x);
    assert line[..|line|] == line;
    LineCome(s, base, digits, size, x, |line|);
    DecodeHead(s, base, out);
  }

  lemma HexTextMore(digits: seq<Byte>, n: nat, b: Byte)
    requires HexText(digits, n) && IsHex(b)
    ensures HexText(digits + [b], n * 16 + Hex(b).value) && Hex(b).value < 16
  {
    var d := Hex(b).value;
    HexIsDigit(b, d);
    assert (digits + [b])[..|digits|] == digits;
    assert (n * 16 + d) / 16 == n && (n * 16 + d) % 16 == d;
  }

  /** What is read as a size is that number in base 16, and ends where no digit follows. */
  lemma {:induction false} SizeIsText(s: seq<Byte>, base: nat, i: nat, n: nat)
    requires base + i <= |s| && HexText(s[base..base + i], n) && n < 0x400_0010 && SizeAt(s, base + i, n).Some?
    ensures var (size, j) := SizeAt(s, base + i, n).value;
            base + i <= j && HexText(s[base..j], size) && size < 0x400_0010 && (j < |s| ==> !IsHex(s[j]))
    decreases |s| - i
  {
    hide HexText, Hex;
    if base + i < |s| && IsHex(s[base + i]) {
      HexTextMore(s[base..base + i], n, s[base + i]);
      assert s[base..base + (i + 1)] == s[base..base + i] + [s[base + i]];
      SizeIsText(s, base, i + 1, n * 16 + Hex(s[base + i]).value);
    }
  }

  lemma {:induction false} LineIsOne(s: seq<Byte>, i: nat)
    requires i <= |s|
    ensures forall q :: i <= q < LineEnd(s, i) ==> s[q] != LF
    decreases |s| - i
  {
    if i < |s| && s[i] != LF {
      LineIsOne(s, i + 1);
    }
  }

  /** A line that has all come, of which the size is known. */
  lemma LineIsSent(s: seq<Byte>, i: nat) returns (digits: seq<Byte>, x: seq<Byte>)
    requires i <= |s| && SizeAt(s, i, 0).Some?
    requires var (_, j) := SizeAt(s, i, 0).value; i < j && LineEnd(s, j) < |s|
    ensures var (size, j) := SizeAt(s, i, 0).value;
            DigitsOk(digits, size) && ExtensionOk(x) && s[i..LineEnd(s, j) + 1] == Line(digits, x)
  {
    hide SizeAt, LineEnd, HexText;
    var (size, j) := SizeAt(s, i, 0).value;
    var k := LineEnd(s, j);
    HexNothing();
    assert s[i..i + 0] == [];
    SizeIsText(s, i, 0, 0);
    LineIsOne(s, j);
    digits, x := s[i..j], s[j..k];
    assert s[i..k + 1] == digits + x + [LF];
  }

  lemma HexNothing()
    ensures HexText([], 0)
  {
  }

  lemma ChunkIsSent(s: seq<Byte>, base: nat, k: nat, e: nat, f: nat, c: Chunk)
    requires base <= k < e <= f < |s| && s[base..k + 1] == Line(c.digits, c.extension) && c.data == s[k + 1..e]
    requires c.cr == (s[e] == CR) && f == (if c.cr then e + 1 else e) && s[f] == LF
    ensures s[base..f + 1] == Encoded(c)
  {
    hide Line;
    assert s[e..f + 1] == if c.cr then [CR, LF] else [LF];
    assert s[base..f + 1] == s[base..k + 1] + s[k + 1..e] + s[e..f + 1];
  }

  lemma NoChunks(line: seq<Byte>)
    ensures EncodedAll([]) + line == line
  {
    assert [] + line == line;
  }

  lemma OneBefore(s: seq<Byte>, base: nat, next: nat, c: Chunk, more: seq<Chunk>, line: seq<Byte>)
    requires base <= next <= |s| && s[base..next] == Encoded(c) && EncodedAll(more) + line <= s[next..]
    ensures EncodedAll([c] + more) + line <= s[base..]
    ensures ([c] + more)[1..] == more
  {
    hide Encoded;
    OneFirst([c] + more, line);
    assert ([c] + more)[1..] == more;
    assert s[base..] == s[base..next] + s[next..];
  }

  /** Whatever is decoded to its end is chunks that could have been sent, and a line that ends them. */
  lemma {:induction false} CompleteIsSent(s: seq<Byte>, base: nat, out: seq<Byte>)
    returns (cs: seq<Chunk>, digits: seq<Byte>, x: seq<Byte>)
    requires base <= |s| && Decode(s, base, out).Complete?
    ensures (forall k :: 0 <= k < |cs| ==> ChunkOk(cs[k])) && DigitsOk(digits, 0) && ExtensionOk(x)
    ensures EncodedAll(cs) + Line(digits, x) <= s[base..]
    ensures Decode(s, base, out).body == out + DataOf(cs)
    decreases |s| - base
  {
    hide SizeAt, LineEnd, Decode, DigitsOk, ExtensionOk, Line, Encoded, EncodedAll;
    DecodeHead(s, base, out);
    var (size, j) := SizeAt(s, base, 0).value;
    var k := LineEnd(s, j);
    digits, x := LineIsSent(s, base);
    if size == 0 {
      cs := [];
      NoChunks(Line(digits, x));
      assert s[base..k + 1] <= s[base..];
      assert out + [] == out;
    } else {
      var e := k + 1 + size;
      var f := if s[e] == CR then e + 1 else e;
      var c := Chunk(digits, x, s[k + 1..e], s[e] == CR);
      ChunkIsSent(s, base, k, e, f, c);
      var more;
      more, digits, x := CompleteIsSent(s, f + 1, out + c.data);
      cs := [c] + more;
      OneBefore(s, base, f + 1, c, more, Line(digits, x));
      assert out + DataOf(cs) == (out + c.data) + DataOf(more);
    }
  }
}
