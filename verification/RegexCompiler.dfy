/** The compiler: recursive descent that turns a pattern directly into code, moving and copying
    pieces of it in place. It makes the code of the pattern's tree, or gives up exactly when the
    pattern is not well formed or needs more room than there is. */
module RegexCompiler {
  import opened Common
  import opened Utf8
  import opened RegexProgram
  import opened RegexRepeat
  import opened RegexTree
  import opened RegexSyntax
  import opened RegexVm

  const MAX_DEPTH := 100
  const MAX_GROUPS := 32

  predicate Within(used: Used) {
    used.code <= 4096 && |used.ranges| <= 4096 && used.groups <= 32 && used.depth <= 100
  }

  /** The pattern is not well formed, or takes more room than there is. */
  predicate Exceeds(r: Option<Read<Node>>) {
    r.None? || !Within(r.value.used)
  }

  lemma {:induction false} OptionsLength(s: seq<Inst>, k: nat, lazy: bool)
    ensures |Options(s, k, lazy)| == k * (|s| + 1)
  {
    if k > 0 {
      OptionsLength(s, k - 1, lazy);
      assert k * (|s| + 1) == (k - 1) * (|s| + 1) + (|s| + 1);
    }
  }

  lemma OptionsStep(s: seq<Inst>, left: nat, lazy: bool, toEnd: int)
    requires left > 0 && toEnd == left * (|s| + 1)
    ensures Options(s, left, lazy) == [Choose(lazy, 1, toEnd)] + s + Options(s, left - 1, lazy)
    ensures |Options(s, left, lazy)| == toEnd
    ensures Options(s, 0, lazy) == []
  {
    OptionsLength(s, left, lazy);
    assert [Choose(lazy, 1, toEnd)] + s + Options(s, left - 1, lazy) ==
           [Choose(lazy, 1, toEnd)] + (s + Options(s, left - 1, lazy));
  }

  class Parser {
    const re: Regex
    const pattern: seq<Byte>
    const flags: Flags
    var p: nat
    var depth: nat
    var failed: bool

    constructor (re: Regex, pattern: seq<Byte>, flags: Flags)
      ensures this.re == re && this.pattern == pattern && this.flags == flags
      ensures p == 0 && depth == 0 && !failed
    {
      this.re, this.pattern, this.flags := re, pattern, flags;
      p, depth, failed := 0, 0, false;
    }

    ghost predicate Ok()
      reads this, re
    {
      && NoNul(pattern) && p <= |pattern|
      && re.code.Length == MAX_CODE && re.ranges.Length == MAX_RANGES
      && re.codeLength <= MAX_CODE && re.rangeCount <= MAX_RANGES
    }

    ghost function Code(): seq<Inst>
      requires re.codeLength <= re.code.Length
      reads this, re, re.code
    {
      re.code[..re.codeLength]
    }

    /** What has been used is what the compiled pattern holds. */
    ghost predicate Agree(used: Used)
      reads this, re, re.ranges
    {
      && !failed && Within(used)
      && re.groups == used.groups
      && re.rangeCount == |used.ranges| <= re.ranges.Length && re.ranges[..re.rangeCount] == used.ranges
    }

    // ---------- making code ----------

    method Emit(inst: Inst) returns (ok: bool)
      requires Ok()
      modifies `failed, re`codeLength, re.code
      ensures Ok() && ok == (old(re.codeLength) < MAX_CODE)
      ensures ok ==> failed == old(failed) && Code() == old(Code()) + [inst]
      ensures !ok ==> failed
    {
      if re.codeLength >= MAX_CODE {
        failed := true;
        return false;
      }
      re.code[re.codeLength] := inst;
      re.codeLength := re.codeLength + 1;
      return true;
    }

    /** One more instruction, between what was before `at` and what was from there on. */
    method Insert(at: nat, inst: Inst) returns (ok: bool)
      requires Ok() && at <= re.codeLength
      modifies `failed, re`codeLength, re.code
      ensures Ok() && ok == (old(re.codeLength) < MAX_CODE)
      ensures ok ==> failed == old(failed) && Code() == old(Code())[..at] + [inst] + old(Code())[at..]
      ensures !ok ==> failed
    {
      if re.codeLength >= MAX_CODE {
        failed := true;
        return false;
      }
      ShiftUp(at);
      ghost var before := old(Code());
      re.code[at] := inst;
      re.codeLength := re.codeLength + 1;
      assert re.code[at + 1..re.codeLength] == before[at..];
      assert re.code[..at] == before[..at];
      SeqAround(re.code[..re.codeLength], at);
      return true;
    }

    method ShiftUp(at: nat)
      requires at <= re.codeLength < re.code.Length
      modifies re.code
      ensures re.code[..at] == old(re.code[..at])
      ensures re.code[at + 1..re.codeLength + 1] == old(re.code[at..re.codeLength])
    {
      var k := re.codeLength;
      ghost var before := re.code[..re.codeLength];
      while k > at
        invariant at <= k <= re.codeLength
        invariant forall q :: 0 <= q < k ==> re.code[q] == before[q]
        invariant forall q :: k < q <= re.codeLength ==> re.code[q] == before[q - 1]
      {
        re.code[k] := re.code[k - 1];
        k := k - 1;
      }
      assert re.code[..at] == before[..at];
      assert re.code[at + 1..re.codeLength + 1] == before[at..];
    }

    /** A part of the code is repeated behind all of it; jumps inside the part go with it. */
    method Copy(from: nat, to: nat) returns (ok: bool)
      requires Ok() && from <= to <= re.codeLength
      modifies `failed, re`codeLength, re.code
      ensures Ok() && ok == (old(re.codeLength) + (to - from) <= MAX_CODE)
      ensures ok ==> failed == old(failed) && Code() == old(Code()) + old(Code())[from..to]
      ensures !ok ==> failed
    {
      var n := to - from;
      if re.codeLength + n > MAX_CODE {
        failed := true;
        return false;
      }
      var k := 0;
      ghost var before := Code();
      while k < n
        invariant 0 <= k <= n
        invariant re.code[..re.codeLength] == before
        invariant re.code[re.codeLength..re.codeLength + k] == before[from..from + k]
        modifies re.code
      {
        re.code[re.codeLength + k] := re.code[from + k];
        k := k + 1;
      }
      re.codeLength := re.codeLength + n;
      assert Code() == re.code[..re.codeLength - n] + re.code[re.codeLength - n..re.codeLength];
      return true;
    }

    method AddRange(r: Range, ghost used: Used) returns (ok: bool)
      requires Ok() && Agree(used)
      modifies `failed, re`rangeCount, re.ranges
      ensures Ok() && ok == (|used.ranges| < MAX_RANGES)
      ensures ok ==> Agree(used.(ranges := used.ranges + [r]))
      ensures !ok ==> failed
    {
      if re.rangeCount >= MAX_RANGES {
        failed := true;
        return false;
      }
      re.ranges[re.rangeCount] := r;
      re.rangeCount := re.rangeCount + 1;
      return true;
    }

    method AddRanges(rs: seq<Range>, ghost used: Used) returns (ok: bool)
      requires Ok() && Agree(used)
      modifies `failed, re`rangeCount, re.ranges
      ensures Ok() && ok == (|used.ranges| + |rs| <= MAX_RANGES)
      ensures ok ==> Agree(used.(ranges := used.ranges + rs))
      ensures !ok ==> failed
    {
      var i := 0;
      assert used.ranges + rs[..0] == used.ranges;
      while i < |rs|
        invariant 0 <= i <= |rs| && Ok()
        invariant Agree(used.(ranges := used.ranges + rs[..i]))
      {
        ok := AddRange(rs[i], used.(ranges := used.ranges + rs[..i]));
        if !ok {
          return;
        }
        assert (used.ranges + rs[..i]) + [rs[i]] == used.ranges + rs[..i + 1];
        i := i + 1;
      }
      assert rs[..|rs|] == rs;
      return true;
    }

    /** The code from `start` on becomes the code of its repeats, or there is no room for that. */
    method Repeat(start: nat, n: nat, m: int, lazy: bool) returns (ok: bool)
      requires Ok() && start <= re.codeLength && (m >= 0 ==> n <= m)
      modifies `failed, re`codeLength, re.code
      ensures Ok()
      ensures ok == (|old(Code())[..start]| + |Repeated(old(Code())[start..], n, m, lazy)| <= MAX_CODE)
      ensures ok ==> failed == old(failed) && Code() == old(Code())[..start] + Repeated(old(Code())[start..], n, m, lazy)
      ensures !ok ==> failed
    {
      hide Copies, Options, Choose;
      ghost var pre, s := Code()[..start], Code()[start..];
      var size := re.codeLength - start;
      assert Code() == pre + s;
      if n == 0 && m == 0 {
        re.codeLength := start;
        assert Code() == pre + [];
        return true;
      }
      if n == 0 {
        if m < 0 {
          ok := RepeatForever(start, size, lazy, pre, s);
        } else {
          RepeatedOptional(s, m, lazy);
          ok := RepeatOptions(start, size, m, lazy, pre, s);
        }
        return;
      }
      // all the repeats that there must be; the rest is a loop or may be left out
      RepeatedLonger(s, n, m, lazy);
      ok := MoreCopies(start, size, n - 1, s);
      if !ok {
        return;
      }
      CopiesEnd(s, n);
      assert (pre + s) + Copies(s, n - 1) == pre + Copies(s, n);
      if m < 0 {
        // behind the last repeat, a choice between its start and what comes next
        ok := Emit(Choose(lazy, -size, 1));
        assert pre + Copies(s, n) + [Choose(lazy, -size, 1)] == pre + (Copies(s, n - 1) + Plus(s, lazy));
      } else {
        assert Code()[start..start + size] == s;
        ok := MoreOptions(start, size, m - n, lazy, s);
        assert pre + Copies(s, n) + Options(s, m - n, lazy) == pre + (Copies(s, n) + Options(s, m - n, lazy));
      }
    }

    /** `more` copies of the code at `from`. */
    method MoreCopies(from: nat, size: nat, more: nat, ghost s: seq<Inst>) returns (ok: bool)
      requires Ok() && from + size <= re.codeLength && Code()[from..from + size] == s && |s| == size
      modifies `failed, re`codeLength, re.code
      ensures Ok() && ok == (old(re.codeLength) + |Copies(s, more)| <= MAX_CODE)
      ensures ok ==> failed == old(failed) && Code() == old(Code()) + Copies(s, more)
      ensures !ok ==> failed
    {
      ghost var whole := Code() + Copies(s, more);
      var i := 0;
      while i < more
        invariant 0 <= i <= more && Ok() && failed == old(failed)
        invariant Code() + Copies(s, more - i) == whole
        invariant from + size <= re.codeLength && Code()[from..from + size] == s
      {
        ghost var code, rest := Code(), Copies(s, more - i - 1);
        assert code + (s + rest) == (code + s) + rest;
        ok := Copy(from, from + size);
        if !ok {
          return;
        }
        assert (code + s)[from..from + size] == s;
        i := i + 1;
      }
      assert Code() + [] == Code();
      return true;
    }

    /** Any number of repeats, none included: a choice before the code, and a jump back to it. */
    method RepeatForever(start: nat, size: nat, lazy: bool, ghost pre: seq<Inst>, ghost s: seq<Inst>) returns (ok: bool)
      requires Ok() && Code() == pre + s && |pre| == start && |s| == size
      modifies `failed, re`codeLength, re.code
      ensures Ok() && ok == (start + |Star(s, lazy)| <= MAX_CODE)
      ensures ok ==> failed == old(failed) && Code() == pre + Star(s, lazy)
      ensures !ok ==> failed
    {
      ok := Insert(start, Choose(lazy, 1, size + 2));
      if ok {
        assert (pre + s)[..start] == pre && (pre + s)[start..] == s;
        ok := Emit(Jmp(-(size + 1)));
        assert pre + [Choose(lazy, 1, size + 2)] + s + [Jmp(-(size + 1))] == pre + Star(s, lazy);
      }
    }

    /** `m` optional ones where one atom is. */
    method RepeatOptions(start: nat, size: nat, m: nat, lazy: bool, ghost pre: seq<Inst>, ghost s: seq<Inst>) returns (ok: bool)
      requires Ok() && Code() == pre + s && |pre| == start && |s| == size && m > 0
      modifies `failed, re`codeLength, re.code
      ensures Ok() && ok == (start + |Options(s, m, lazy)| <= MAX_CODE)
      ensures ok ==> failed == old(failed) && Code() == pre + Options(s, m, lazy)
      ensures !ok ==> failed
    {
      hide Options, Choose;
      var left := m - 1;
      var total := (left + 1) * (size + 1);
      OptionsStep(s, m, lazy, total);
      if total > MAX_CODE {
        failed := true;
        return false;
      }
      ghost var code := pre + [Choose(lazy, 1, total)] + s;
      InsertedBetween(pre, Choose(lazy, 1, total), s);
      ok := Insert(start, Choose(lazy, 1, total));
      if ok {
        ok := MoreOptions(start + 1, size, left, lazy, s);
        assert code + Options(s, left, lazy) == pre + Options(s, m, lazy);
      }
    }

    static lemma InsertedBetween(pre: seq<Inst>, inst: Inst, s: seq<Inst>)
      ensures (pre + s)[..|pre|] == pre && (pre + s)[|pre|..] == s
      ensures (pre + s)[..|pre|] + [inst] + (pre + s)[|pre|..] == pre + [inst] + s
      ensures (pre + [inst] + s)[|pre| + 1..|pre| + 1 + |s|] == s
    {
    }

    /** So many more repeats, each behind a choice whose other way leads past the last of them. */
    method MoreOptions(from: nat, size: nat, more: nat, lazy: bool, ghost s: seq<Inst>) returns (ok: bool)
      requires Ok() && from + size <= re.codeLength && Code()[from..from + size] == s && |s| == size
      modifies `failed, re`codeLength, re.code
      ensures Ok() && ok == (old(re.codeLength) + |Options(s, more, lazy)| <= MAX_CODE)
      ensures ok ==> failed == old(failed) && Code() == old(Code()) + Options(s, more, lazy)
      ensures !ok ==> failed
    {
      hide Options, Choose;
      ghost var whole := Code() + Options(s, more, lazy);
      var i := 0;
      while i < more
        invariant 0 <= i <= more && Ok() && failed == old(failed)
        invariant Code() + Options(s, more - i, lazy) == whole
        invariant from + size <= re.codeLength && Code()[from..from + size] == s
      {
        ok := OneOption(from, size, more - i, (more - i) * (size + 1), lazy, s);
        if !ok {
          return;
        }
        i := i + 1;
      }
      OptionsStep(s, 1, lazy, 1 * (size + 1));
      assert Code() + [] == Code();
      return true;
    }

    method OneOption(from: nat, size: nat, left: nat, toEnd: nat, lazy: bool, ghost s: seq<Inst>) returns (ok: bool)
      requires Ok() && from + size <= re.codeLength && Code()[from..from + size] == s && |s| == size
      requires left > 0 && toEnd == left * (size + 1)
      modifies `failed, re`codeLength, re.code
      ensures Ok() && (!ok ==> failed && old(re.codeLength) + |Options(s, left, lazy)| > MAX_CODE)
      ensures ok ==> failed == old(failed)
      ensures ok ==> Code() + Options(s, left - 1, lazy) == old(Code()) + Options(s, left, lazy)
      ensures ok ==> from + size <= re.codeLength && Code()[from..from + size] == s
    {
      hide Options, Choose;
      ghost var code, rest, choice := Code(), Options(s, left - 1, lazy), [Choose(lazy, 1, toEnd)];
      OptionsStep(s, left, lazy, toEnd);
      ok := Emit(Choose(lazy, 1, toEnd));
      if ok {
        assert (code + choice)[from..from + size] == s;
        ok := Copy(from, from + size);
        if ok {
          assert (code + choice + s)[from..from + size] == s;
          assert (code + choice + s) + rest == code + (choice + s + rest);
        }
      }
    }

    // ---------- reading the pattern ----------

    function Next(): Byte
      reads `p
    {
      Peek(pattern, p)
    }

    /** Reads what the escape stands for, as `Escape` says, and stops where it ends. */
    method ParseEscape() returns (ok: bool, c: nat)
      requires Ok()
      modifies `p, `failed
      ensures Ok()
      ensures if ok then Escape(pattern, old(p)) == Some((c, p)) && failed == old(failed)
              else Escape(pattern, old(p)) == None && failed
    {
      var b := Next();
      if b == 0 || Ascii('1') <= b <= Ascii('9') {
        failed := true;
        return false, 0;
      }
      if IsLetter(b) || b == Ascii('0') {
        p := p + 1;
        if b == Ascii('n') {
          return true, 10;
        } else if b == Ascii('t') {
          return true, 9;
        } else if b == Ascii('r') {
          return true, 13;
        } else if b == Ascii('f') {
          return true, 12;
        } else if b == Ascii('v') {
          return true, 11;
        } else if b == Ascii('x') {
          var high := Hex(Next());
          var low := if high.None? then None else Hex(Peek(pattern, p + 1));
          if low.None? {
            failed := true;
            return false, 0;
          }
          p := p + 2;
          return true, high.value * 16 + low.value;
        }
        failed := true;
        return false, 0;
      }
      var size;
      c, size := DecodeChar(pattern, p);
      p := p + size;
      return true, c;
    }

    /** The first member of a range, p at it. */
    method ParseRangeStart() returns (ok: bool, low: nat)
      requires Ok() && p < |pattern|
      modifies `p, `failed
      ensures Ok()
      ensures if ok then RangeStart(pattern, old(p)) == Some((low, p)) && failed == old(failed)
              else RangeStart(pattern, old(p)) == None && failed
    {
      hide Escape, Decode;
      if Next() == Ascii('\\') {
        p := p + 1;
        if Next() == Ascii('b') {
          p := p + 1;
          return true, 8;
        }
        ok, low := ParseEscape();
      } else {
        var size;
        low, size := DecodeChar(pattern, p);
        p, ok := p + size, true;
      }
    }

    /** The last member of a range, p at it. */
    method ParseRangeEnd() returns (ok: bool, high: nat)
      requires Ok() && p < |pattern|
      modifies `p, `failed
      ensures Ok()
      ensures if ok then RangeEnd(pattern, old(p)) == Some((high, p)) && failed == old(failed)
              else RangeEnd(pattern, old(p)) == None && failed
    {
      hide Escape, Decode;
      if Next() == Ascii('\\') {
        p := p + 1;
        ok, high := ParseEscape();
      } else {
        var size;
        high, size := DecodeChar(pattern, p);
        p, ok := p + size, true;
      }
    }

    /** The members of a class, p after the bracket and the `^`. */
    method ParseMembers(ghost used: Used) returns (ok: bool, ghost members: seq<Range>)
      requires Ok() && Agree(used)
      modifies `p, `failed, re`rangeCount, re.ranges
      ensures Ok()
      ensures ok ==> Agree(used.(ranges := used.ranges + members))
      ensures ok ==> ClassMembers(pattern, old(p), false, []) == Some((members, p))
      ensures !ok ==> failed
      ensures !ok ==> var r := ClassMembers(pattern, old(p), false, []);
                      r.None? || |used.ranges + r.value.0| > MAX_RANGES
    {
      hide Escape, Decode, Shorthand, RangeStart, RangeEnd;
      var any := false;
      members := [];
      assert used.ranges + [] == used.ranges;
      ghost var all := ClassMembers(pattern, p, false, []);
      while true
        invariant Ok() && Agree(used.(ranges := used.ranges + members))
        invariant ClassMembers(pattern, p, any, members) == all
        decreases |pattern| - p
      {
        ghost var sofar := used.(ranges := used.ranges + members);
        if Next() == 0 {
          failed, ok := true, false;
          return;
        }
        if Next() == Ascii(']') && any {
          p, ok := p + 1, true;
          return;
        }
        any := true;
        if Next() == Ascii('\\') && Shorthand(Peek(pattern, p + 1)).Some? {
          var more := Shorthand(Peek(pattern, p + 1)).value;
          ok := AddRanges(more, sofar);
          if !ok {
            return;
          }
          ShorthandPresent(pattern, p + 1);
          p := p + 2;
          assert (used.ranges + members) + more == used.ranges + (members + more);
          members := members + more;
        } else {
          ghost var r;
          ok, r := ParseMember(sofar);
          if !ok {
            return;
          }
          assert (used.ranges + members) + [r] == used.ranges + (members + [r]);
          members := members + [r];
        }
      }
    }

    /** One member of a class that is no shorthand: a character, or a range of them. */
    method ParseMember(ghost used: Used) returns (ok: bool, ghost r: Range)
      requires Ok() && Agree(used) && p < |pattern|
      modifies `p, `failed, re`rangeCount, re.ranges
      ensures Ok()
      ensures ok ==> MemberAt(pattern, old(p)) == Some((r, p)) && Agree(used.(ranges := used.ranges + [r]))
      ensures !ok ==> failed && (MemberAt(pattern, old(p)).None? || |used.ranges| == MAX_RANGES)
    {
      hide RangeStart, RangeEnd;
      r := Range(0, 0);
      var low, high;
      ok, low := ParseRangeStart();
      if !ok {
        return;
      }
      if Next() == Ascii('-') && Peek(pattern, p + 1) != Ascii(']') && Peek(pattern, p + 1) != 0 {
        p := p + 1;
        ok, high := ParseRangeEnd();
        if !ok {
          return;
        }
        if high < low {
          failed, ok := true, false;
          return;
        }
      } else {
        high := low;
      }
      r := Range(low, high);
      ok := AddRange(Range(low, high), used);
    }

    /** A number of at most MAX_REPEAT, q at its first digit. */
    method ParseNumber(q0: nat) returns (ok: bool, value: nat, q: nat)
      requires Ok()
      ensures if ok then Number(pattern, q0, 0) == Some((value, q)) else Number(pattern, q0, 0) == None
    {
      value, q := 0, q0;
      while IsDigit(Peek(pattern, q))
        invariant value <= MAX_REPEAT
        invariant Number(pattern, q, value) == Number(pattern, q0, 0)
        decreases |pattern| - q
      {
        value := value * 10 + (pattern[q] - Ascii('0'));
        if value > MAX_REPEAT {
          return false, value, q;
        }
        q := q + 1;
      }
      ok := true;
    }

    /** Reads a count as `CountsAt` says; what is no count has not been read. */
    method ParseCounts() returns (found: bool, n: nat, m: int)
      requires Ok() && Next() == Ascii('{')
      modifies `p, `failed
      ensures Ok()
      ensures match CountsAt(pattern, old(p))
              case NoCounts => !found && p == old(p) && failed == old(failed)
              case BadCounts => found && failed
              case Counts(least, most, at) => found && n == least && m == most && p == at && failed == old(failed)
    {
      hide Number;
      n, m := 0, -1;
      if !IsDigit(Peek(pattern, p + 1)) {
        return false, n, m;
      }
      var ok, q;
      ok, n, q := ParseNumber(p + 1);
      if !ok {
        failed := true;
        return true, n, m;
      }
      if Peek(pattern, q) == Ascii('}') {
        p := q + 1;
        return true, n, n;
      } else if Peek(pattern, q) != Ascii(',') {
        return false, n, m;
      }
      q := q + 1;
      if Peek(pattern, q) != Ascii('}') {
        if !IsDigit(Peek(pattern, q)) {
          return false, n, m;
        }
        ok, m, q := ParseNumber(q);
        if !ok || m < n {
          failed := true;
          return true, n, m;
        }
        if Peek(pattern, q) != Ascii('}') {
          return false, n, m;
        }
      }
      p := q + 1;
      found := true;
    }

    /** What repeats the atom that has been read, p after it. */
    method ParseSuffix() returns (ok: bool, repeats: bool, n: nat, m: int, lazy: bool)
      requires Ok() && !failed
      modifies `p, `failed
      ensures Ok()
      ensures match SuffixAt(pattern, old(p))
              case Once => ok && !repeats && p == old(p) && !failed
              case BadSuffix => !ok && failed
              case Suffix(least, most, lz, at) =>
                ok && repeats && n == least && m == most && lazy == lz && p == at && !failed
    {
      hide CountsAt;
      ok, repeats, n, m, lazy := true, true, 0, -1, false;
      var found := true;
      if Next() == Ascii('*') {
        p := p + 1;
      } else if Next() == Ascii('+') {
        n, p := 1, p + 1;
      } else if Next() == Ascii('?') {
        m, p := 1, p + 1;
      } else if Next() == Ascii('{') {
        found, n, m := ParseCounts();
        if !found {
          repeats := false;
          return;
        }
        if failed {
          ok := false;
          return;
        }
      } else {
        repeats := false;
        return;
      }
      if Next() == Ascii('?') {
        lazy, p := true, p + 1;
      }
      if Next() == Ascii('*') || Next() == Ascii('+') || Next() == Ascii('?') {
        failed, ok := true, false;
        return;
      }
      if Next() == Ascii('{') {
        var keep := p;
        var again, a, b := ParseCounts();
        if again {
          p, failed, ok := keep, true, false;
        }
      }
    }

    /** An instruction of its own, p after what it was read from. */
    method EmitOne(inst: Inst, ghost used: Used) returns (ok: bool)
      requires Ok() && Agree(used)
      modifies `failed, re`codeLength, re.code
      ensures Ok()
      ensures ok ==> Agree(used.Code(old(re.codeLength) + 1)) && Code() == old(Code()) + [inst]
      ensures !ok ==> failed && old(re.codeLength) + 1 > MAX_CODE
    {
      ok := Emit(inst);
    }

    /** `[...]`, p after the bracket. */
    method ParseClass(ghost used: Used, ghost start: nat) returns (ok: bool, ghost node: Node, ghost used': Used)
      requires Ok() && Agree(used) && start + 1 == p && Peek(pattern, start) == Ascii('[')
      modifies `p, `failed, re`codeLength, re`rangeCount, re.code, re.ranges
      ensures Ok()
      ensures ok ==> Atom(pattern, start, old(re.codeLength), depth, used, flags) == Some(Read(node, p, used'))
      ensures ok ==> Agree(used') && Code() == old(Code()) + Gen(node)
      ensures !ok ==> failed && Exceeds(Atom(pattern, start, old(re.codeLength), depth, used, flags))
    {
      hide ClassMembers, Alternatives;
      node, used' := Empty, used;
      var first, negated := re.rangeCount, false;
      if Next() == Ascii('^') {
        negated, p := true, p + 1;
      }
      ghost var members;
      ok, members := ParseMembers(used);
      if !ok {
        return;
      }
      ghost var more := used.(ranges := used.ranges + members);
      var inst := if flags.icase then ClassI(first, re.rangeCount - first, negated) else Class(first, re.rangeCount - first, negated);
      ok := EmitOne(inst, more);
      node := Set(first, members, negated, flags.icase);
      used' := more.Code(old(re.codeLength) + 1);
    }

    /** A backslash and what follows it, p after the backslash. */
    method ParseBackslash(ghost used: Used, ghost start: nat) returns (ok: bool, ghost node: Node, ghost used': Used)
      requires Ok() && Agree(used) && start + 1 == p && Peek(pattern, start) == Ascii('\\')
      modifies `p, `failed, re`codeLength, re`rangeCount, re.code, re.ranges
      ensures Ok()
      ensures ok ==> Atom(pattern, start, old(re.codeLength), depth, used, flags) == Some(Read(node, p, used'))
      ensures ok ==> Agree(used') && Code() == old(Code()) + Gen(node)
      ensures !ok ==> failed && Exceeds(Atom(pattern, start, old(re.codeLength), depth, used, flags))
    {
      hide ClassMembers, Alternatives, Escape, Shorthand;
      var letter := Next();
      used' := used.Code(re.codeLength + 1);
      if letter == Ascii('b') || letter == Ascii('B') {
        node := At(if letter == Ascii('b') then Boundary else NoBoundary);
        p := p + 1;
        ok := EmitOne(if letter == Ascii('b') then WordB else NWordB, used);
      } else if Shorthand(letter).Some? {
        var first, members := re.rangeCount, Shorthand(letter).value;
        node := Set(first, members, false, false);
        ghost var more := used.(ranges := used.ranges + members);
        used' := more.Code(re.codeLength + 1);
        ok := AddRanges(members, used);
        if !ok {
          return;
        }
        ShorthandPresent(pattern, p);
        p := p + 1;
        ok := EmitOne(Class(first, re.rangeCount - first, false), more);
      } else {
        var c;
        node := Empty;
        ok, c := ParseEscape();
        if ok {
          node := Lit(c, flags.icase);
          ok := EmitOne(if flags.icase then CharI(Lower(c)) else Char(c), used);
        }
      }
    }

    /** What a parenthesis opens, p after it. */
    method ParseOpen(ghost used: Used, ghost start: nat) returns (ok: bool, number: nat, ghost inside: Used)
      requires Ok() && Agree(used) && start + 1 == p && Peek(pattern, start) == Ascii('(')
      modifies `p, `depth, `failed, re`codeLength, re`groups, re.code
      ensures Ok() && p >= old(p)
      ensures ok ==> OpenGroup(pattern, start, old(re.codeLength), old(depth), used) == Some(Opening(p, re.codeLength, inside, number))
      ensures ok ==> Agree(inside) && depth == old(depth) + 1
      ensures ok ==> Code() == old(Code()) + if number > 0 then [Save(number * 2)] else []
      ensures !ok ==> failed
      ensures !ok ==> var o := OpenGroup(pattern, start, old(re.codeLength), old(depth), used);
                      o.None? || !Within(o.value.used)
    {
      number, inside := 0, used;
      ghost var base := re.codeLength;
      if Next() == Ascii('?') {
        if Peek(pattern, p + 1) != Ascii(':') {
          failed, ok := true, false;
          return;
        }
        p := p + 2;
      } else {
        if re.groups >= MAX_GROUPS {
          failed, ok := true, false;
          return;
        }
        re.groups := re.groups + 1;
        number := re.groups;
        ok := EmitOne(Save(number * 2), used.(groups := number));
        if !ok {
          return;
        }
        inside := used.(groups := number).Code(base + 1);
      }
      depth := depth + 1;
      if depth > MAX_DEPTH {
        failed, ok := true, false;
        return;
      }
      inside, ok := inside.Depth(depth), true;
    }

    /** A group, p after the parenthesis that opens it. */
    method ParseGroup(ghost used: Used, ghost start: nat) returns (ok: bool, ghost node: Node, ghost used': Used)
      requires Ok() && Agree(used) && start + 1 == p && Peek(pattern, start) == Ascii('(')
      modifies `p, `depth, `failed, re`codeLength, re`rangeCount, re`groups, re.code, re.ranges
      ensures Ok()
      ensures ok ==> Atom(pattern, start, old(re.codeLength), old(depth), used, flags) == Some(Read(node, p, used'))
      ensures ok ==> Agree(used') && depth == old(depth) && Code() == old(Code()) + Gen(node)
      ensures !ok ==> failed && Exceeds(Atom(pattern, start, old(re.codeLength), old(depth), used, flags))
      decreases |pattern| - p, 6
    {
      hide Alternatives, Pieces, Gen, OpenGroup;
      var number;
      ghost var base, d, inside, before := re.codeLength, depth, used, Code();
      ok, number, inside := ParseOpen(used, start);
      node, used' := Empty, inside;
      if !ok {
        GroupRefused(pattern, start, base, d, used, flags);
        return;
      }
      ok, node, used' := ParseAlternatives(inside);
      if !ok {
        GroupRefused(pattern, start, base, d, used, flags);
        return;
      }
      depth := depth - 1;
      if Next() != Ascii(')') {
        failed, ok := true, false;
        return;
      }
      p := p + 1;
      if number > 0 {
        ghost var body := node;
        GroupCode(number, body);
        ok := EmitOne(Save(number * 2 + 1), used');
        assert ok ==> Code() == before + Gen(Group(number, body)) by {
          assert before + [Save(number * 2)] + Gen(body) + [Save(number * 2 + 1)] ==
                 before + ([Save(number * 2)] + Gen(body) + [Save(number * 2 + 1)]);
        }
        node, used' := Group(number, body), used'.Code(base + |Gen(Group(number, body))|);
      }
    }

    /** Emits the code of the tree that `Atom` reads, behind what there is. */
    method ParseAtom(ghost used: Used) returns (ok: bool, ghost node: Node, ghost used': Used)
      requires Ok() && Agree(used) && !EndsPieces(Next())
      modifies `p, `depth, `failed, re`codeLength, re`rangeCount, re`groups, re.code, re.ranges
      ensures Ok()
      ensures ok ==> Atom(pattern, old(p), old(re.codeLength), old(depth), used, flags) == Some(Read(node, p, used'))
      ensures ok ==> Agree(used') && depth == old(depth) && Code() == old(Code()) + Gen(node)
      ensures !ok ==> failed && Exceeds(Atom(pattern, old(p), old(re.codeLength), old(depth), used, flags))
      decreases |pattern| - p, 1
    {
      hide Alternatives, ClassMembers, Shorthand, Escape, Decode, OpenGroup;
      ghost var start := p;
      var b := Next();
      node, used' := Empty, used.Code(re.codeLength + 1);
      if b == Ascii('(') {
        p := p + 1;
        ok, node, used' := ParseGroup(used, start);
      } else if b == Ascii('[') {
        p := p + 1;
        ok, node, used' := ParseClass(used, start);
      } else if b == Ascii('.') {
        p, node := p + 1, Dot(flags.dotall);
        ok := EmitOne(if flags.dotall then AnyNl else Any, used);
      } else if b == Ascii('^') {
        p, node := p + 1, At(if flags.multi then LineStart else TextStart);
        ok := EmitOne(if flags.multi then MBol else Bol, used);
      } else if b == Ascii('$') {
        p, node := p + 1, At(if flags.multi then LineEnd else TextEnd);
        ok := EmitOne(if flags.multi then MEol else Eol, used);
      } else if b == Ascii('*') || b == Ascii('+') || b == Ascii('?') {
        failed, ok := true, false;
      } else if b == Ascii('\\') {
        p := p + 1;
        ok, node, used' := ParseBackslash(used, start);
      } else {
        var c, size := DecodeChar(pattern, p);
        p, node := p + size, Lit(c, flags.icase);
        ok := EmitOne(if flags.icase then CharI(Lower(c)) else Char(c), used);
      }
    }

    /** Emits the code of the tree that `Piece` reads, behind what there is. */
    method ParsePiece(ghost used: Used) returns (ok: bool, ghost node: Node, ghost used': Used)
      requires Ok() && Agree(used) && !EndsPieces(Next())
      modifies `p, `depth, `failed, re`codeLength, re`rangeCount, re`groups, re.code, re.ranges
      ensures Ok()
      ensures ok ==> Piece(pattern, old(p), old(re.codeLength), old(depth), used, flags) == Some(Read(node, p, used'))
      ensures ok ==> Agree(used') && depth == old(depth) && Code() == old(Code()) + Gen(node)
      ensures !ok ==> failed && Exceeds(Piece(pattern, old(p), old(re.codeLength), old(depth), used, flags))
      decreases |pattern| - p, 2
    {
      hide Atom, Gen, SuffixAt, Repeated;
      var start := re.codeLength;
      ghost var before := Code();
      ok, node, used' := ParseAtom(used);
      if !ok {
        return;
      }
      var repeats, n, m, lazy;
      ok, repeats, n, m, lazy := ParseSuffix();
      if !ok || !repeats {
        return;
      }
      RepeatCode(node, n, m, lazy);
      assert Code()[..start] == before && Code()[start..] == Gen(node);
      ok := Repeat(start, n, m, lazy);
      node := Node.Repeat(node, n, m, lazy);
      used' := used'.Code(start + |Gen(node)|);
    }

    /** Emits the code of the tree that `Alternatives` reads, behind what there is. */
    method ParseAlternatives(ghost used: Used) returns (ok: bool, ghost node: Node, ghost used': Used)
      requires Ok() && Agree(used)
      modifies `p, `depth, `failed, re`codeLength, re`rangeCount, re`groups, re.code, re.ranges
      ensures Ok()
      ensures ok ==> Alternatives(pattern, old(p), old(re.codeLength), old(depth), used, flags) == Some(Read(node, p, used'))
      ensures ok ==> Agree(used') && depth == old(depth) && Code() == old(Code()) + Gen(node)
      ensures !ok ==> failed && Exceeds(Alternatives(pattern, old(p), old(re.codeLength), old(depth), used, flags))
      decreases |pattern| - p, 5
    {
      hide Gen, Pieces;
      var start := re.codeLength;
      ghost var before, first := Code(), p;
      ok, node, used' := ParsePieces(used);
      if !ok || Next() != Ascii('|') {
        return;
      }
      p := p + 1;
      ghost var left := node;
      var size := re.codeLength - start;
      ghost var more := start + |Gen(left)| + 2;
      ok := ParseBar(start, size, before, Gen(left));
      if !ok {
        AlternativesRefused(pattern, first, start, depth, used, flags);
        return;
      }
      var jump := re.codeLength - 1;
      ghost var head := Code();
      ok, node, used' := ParseAlternatives(used'.Code(more));
      if !ok {
        AlternativesRefused(pattern, first, start, old(depth), used, flags);
        return;
      }
      ghost var right := node;
      PatchJump(jump, head, Gen(right));
      AltCode(before, left, right);
      node := Alt(left, right);
    }

    /** The jump at the end of `head` goes over what has been added after it. */
    method PatchJump(jump: nat, ghost head: seq<Inst>, ghost b: seq<Inst>)
      requires Ok() && |head| == jump + 1 && Code() == head + b
      modifies re.code
      ensures Ok() && Code() == (head + b)[jump := Jmp(|b| + 1)]
    {
      re.code[jump] := Jmp(re.codeLength - jump);
    }

    /** The code so far becomes the first side of an `Either`, of which the second is still to come. */
    method ParseBar(start: nat, size: nat, ghost before: seq<Inst>, ghost a: seq<Inst>) returns (ok: bool)
      requires Ok() && Code() == before + a && |before| == start && |a| == size
      modifies `failed, re`codeLength, re.code
      ensures Ok() && ok == (start + size + 2 <= MAX_CODE)
      ensures ok ==> failed == old(failed) && Code() == before + [Split(1, size + 2)] + a + [Jmp(0)]
      ensures !ok ==> failed
    {
      assert (before + a)[..start] == before && (before + a)[start..] == a;
      ok := Insert(start, Split(1, size + 2));
      if ok {
        ok := Emit(Jmp(0));
      }
    }

    /** Piece after piece. */
    method ParsePieces(ghost used: Used) returns (ok: bool, ghost node: Node, ghost used': Used)
      requires Ok() && Agree(used)
      modifies `p, `depth, `failed, re`codeLength, re`rangeCount, re`groups, re.code, re.ranges
      ensures Ok()
      ensures ok ==> Pieces(pattern, old(p), old(re.codeLength), old(depth), used, flags, Empty) == Some(Read(node, p, used'))
      ensures ok ==> Agree(used') && depth == old(depth) && Code() == old(Code()) + Gen(node)
      ensures !ok ==> failed && Exceeds(Pieces(pattern, old(p), old(re.codeLength), old(depth), used, flags, Empty))
      decreases |pattern| - p, 3
    {
      hide Piece, Gen;
      ghost var base, d, before := re.codeLength, depth, Code();
      ghost var all := Pieces(pattern, p, base, d, used, flags, Empty);
      ok, node, used' := true, Empty, used;
      GenEmpty();
      while !EndsPieces(Next())
        invariant Ok() && Agree(used') && depth == d && p <= |pattern|
        invariant Code() == before + Gen(node)
        invariant Pieces(pattern, p, base, d, used', flags, node) == all
        decreases |pattern| - p
      {
        ghost var more;
        ok, more, used' := ParsePiece(used');
        if !ok {
          return;
        }
        GenCat(node, more);
        node := Cat(node, more);
      }
    }
  }

  /** A group that cannot be read, or only with too much room, makes the atom so. */
  lemma GroupRefused(s: seq<Byte>, at: nat, base: nat, depth: nat, used: Used, flags: Flags)
    requires Peek(s, at) == Ascii('(')
    requires var o := OpenGroup(s, at, base, depth, used);
             || o.None? || !Within(o.value.used)
             || Exceeds(Alternatives(s, o.value.at, o.value.base, depth + 1, o.value.used, flags))
    ensures Exceeds(Atom(s, at, base, depth, used, flags))
  {
    hide Alternatives, ClassMembers, Gen, Escape, Decode;
    var o := OpenGroup(s, at, base, depth, used);
    if o.Some? {
      var inner := Alternatives(s, o.value.at, o.value.base, depth + 1, o.value.used, flags);
    }
  }

  lemma AlternativesRefused(s: seq<Byte>, at: nat, base: nat, depth: nat, used: Used, flags: Flags)
    requires var first := Pieces(s, at, base, depth, used, flags, Empty);
             && first.Some? && Peek(s, first.value.at) == Ascii('|')
             && var more := base + |Gen(first.value.value)| + 2;
                || !Within(first.value.used.Code(more))
                || Exceeds(Alternatives(s, first.value.at + 1, more, depth, first.value.used.Code(more), flags))
    ensures Exceeds(Alternatives(s, at, base, depth, used, flags))
  {
    hide Pieces, Gen;
  }

  /** The jump over the second alternative is known when its code is. */
  lemma AltCode(before: seq<Inst>, left: Node, right: Node)
    ensures var a, b := Gen(left), Gen(right);
            var head := before + [Split(1, |a| + 2)] + a + [Jmp(0)];
            (head + b)[|head| - 1 := Jmp(|b| + 1)] == before + Gen(Alt(left, right))
  {
    hide Gen;
    AltGen(left, right);
  }

  lemma AltGen(left: Node, right: Node)
    ensures Gen(Alt(left, right)) == Either(Gen(left), Gen(right))
  {
  }

  lemma GenEmpty()
    ensures Gen(Empty) == []
  {
  }

  lemma GenCat(left: Node, right: Node)
    ensures Gen(Cat(left, right)) == Gen(left) + Gen(right)
  {
  }

  lemma GroupCode(number: nat, body: Node)
    ensures Gen(Group(number, body)) == [Save(number * 2)] + Gen(body) + [Save(number * 2 + 1)]
  {
  }

  lemma RepeatCode(body: Node, n: nat, m: int, lazy: bool)
    ensures Gen(Node.Repeat(body, n, m, lazy)) == Repeated(Gen(body), n, m, lazy)
  {
  }

  lemma {:induction false} CopiesEnd(s: seq<Inst>, n: nat)
    requires n > 0
    ensures Copies(s, n) == Copies(s, n - 1) + s == s + Copies(s, n - 1)
  {
    if n > 1 {
      CopiesEnd(s, n - 1);
      assert s + (Copies(s, n - 2) + s) == (s + Copies(s, n - 2)) + s;
    } else {
      assert s + [] == [] + s;
    }
  }

  lemma RepeatedOptional(s: seq<Inst>, m: nat, lazy: bool)
    requires m > 0
    ensures Repeated(s, 0, m, lazy) == Options(s, m, lazy)
  {
  }

  /** A repeat is at least as long as the copies it starts with. */
  lemma RepeatedLonger(s: seq<Inst>, n: nat, m: int, lazy: bool)
    requires n > 0 && (m >= 0 ==> n <= m)
    ensures |Repeated(s, n, m, lazy)| >= |Copies(s, n)| == |s| + |Copies(s, n - 1)|
  {
    CopiesEnd(s, n);
  }
}
