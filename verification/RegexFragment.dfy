/** Runs of a piece of code from its first instruction to one past its last. A piece whose
    jumps stay inside it runs the same wherever it is placed. */
module RegexFragment {
  import opened Common
  import opened Utf8
  import opened RegexProgram

  /** A place in a text, and the places that capture slots have been given on the way to it. */
  datatype Here = Here(at: nat, saves: map<nat, nat>) {
    function Saved(slot: nat): Here {
      Here(at, saves[slot := at])
    }
  }

  /** A place in a piece of code at a place in a text. */
  datatype Spot = Spot(pc: nat, here: Here)

  /** One step of the instruction at `c.pc`; the place it leads to may be one past the end. */
  ghost predicate Edge(code: seq<Inst>, ranges: seq<Range>, text: seq<Byte>, c: Spot, d: Spot) {
    && c.pc < |code| && c.here.at <= |text|
    && var inst := code[c.pc];
       if inst.Jmp? then d.here == c.here && d.pc == c.pc + inst.x
       else if inst.Split? then d.here == c.here && (d.pc == c.pc + inst.x || d.pc == c.pc + inst.y)
       else if inst.Save? then d == Spot(c.pc + 1, c.here.Saved(inst.slot))
       else if Assertion(inst) then Holds(inst, text, c.here.at) && d == Spot(c.pc + 1, c.here)
       else
         && Consuming(inst) && c.here.at < |text| && InTableOf(inst, |ranges|)
         && Takes(inst, ranges, Decode(text, c.here.at).c)
         && d == Spot(c.pc + 1, Here(c.here.at + Decode(text, c.here.at).size, c.here.saves))
  }

  /** `n` steps lead from `c` to `d`. */
  ghost predicate Run(code: seq<Inst>, ranges: seq<Range>, text: seq<Byte>, c: Spot, d: Spot, n: nat)
    decreases n
  {
    if n == 0 then c == d
    else exists e :: Edge(code, ranges, text, c, e) && Run(code, ranges, text, e, d, n - 1)
  }

  /** The code runs from its first to its one-past-last instruction over text `i..j`. */
  ghost predicate Runs(code: seq<Inst>, ranges: seq<Range>, text: seq<Byte>, i: Here, j: Here) {
    exists n :: Run(code, ranges, text, Spot(0, i), Spot(|code|, j), n)
  }

  predicate InstInside(inst: Inst, pc: nat, length: nat) {
    match inst
    case Match => false
    case Jmp(x) => 0 <= pc + x <= length
    case Split(x, y) => 0 <= pc + x <= length && 0 <= pc + y <= length
    case _ => true
  }

  /** No jump leaves the code, except to one past its end. */
  predicate Inside(code: seq<Inst>) {
    forall pc :: 0 <= pc < |code| ==> InstInside(code[pc], pc, |code|)
  }

  /** `code` is found in `whole` at `base`. */
  predicate PlacedAt(whole: seq<Inst>, base: nat, code: seq<Inst>) {
    base + |code| <= |whole| && whole[base..base + |code|] == code
  }

  function Shift(c: Spot, base: nat): Spot {
    Spot(c.pc + base, c.here)
  }

  // ---------- runs ----------

  lemma {:induction false} RunTransitive(code: seq<Inst>, ranges: seq<Range>, text: seq<Byte>,
                                         c: Spot, d: Spot, e: Spot, m: nat, n: nat)
    requires Run(code, ranges, text, c, d, m) && Run(code, ranges, text, d, e, n)
    ensures Run(code, ranges, text, c, e, m + n)
    decreases m
  {
    hide Edge;
    if m > 0 {
      var f :| Edge(code, ranges, text, c, f) && Run(code, ranges, text, f, d, m - 1);
      RunTransitive(code, ranges, text, f, d, e, m - 1, n);
    }
  }

  lemma RunStep(code: seq<Inst>, ranges: seq<Range>, text: seq<Byte>, c: Spot, d: Spot, e: Spot, n: nat)
    requires Edge(code, ranges, text, c, d) && Run(code, ranges, text, d, e, n)
    ensures Run(code, ranges, text, c, e, n + 1)
  {
    hide Edge;
  }

  /** Nothing happens past the end. */
  lemma RunAtEnd(code: seq<Inst>, ranges: seq<Range>, text: seq<Byte>, i: Here, d: Spot, n: nat)
    requires Run(code, ranges, text, Spot(|code|, i), d, n)
    ensures n == 0 && d == Spot(|code|, i)
  {
  }

  lemma EdgeShifted(whole: seq<Inst>, base: nat, code: seq<Inst>, ranges: seq<Range>, text: seq<Byte>, c: Spot, d: Spot)
    requires PlacedAt(whole, base, code) && c.pc < |code|
    ensures Edge(code, ranges, text, c, d) <==> Edge(whole, ranges, text, Shift(c, base), Shift(d, base))
  {
    hide Holds, Takes, Decode;
    assert whole[base + c.pc] == code[c.pc];
  }

  /** From inside the code a step stays inside or goes to its end. */
  lemma EdgeStays(whole: seq<Inst>, base: nat, code: seq<Inst>, ranges: seq<Range>, text: seq<Byte>, c: Spot, e: Spot)
    requires PlacedAt(whole, base, code) && Inside(code) && c.pc < |code|
    requires Edge(whole, ranges, text, Shift(c, base), e)
    ensures base <= e.pc <= base + |code|
  {
    hide Holds, Takes, Decode;
    assert whole[base + c.pc] == code[c.pc];
    assert InstInside(code[c.pc], c.pc, |code|);
  }

  /** What a piece of code does it does wherever it is placed. */
  lemma {:induction false} RunPlaced(whole: seq<Inst>, base: nat, code: seq<Inst>, ranges: seq<Range>, text: seq<Byte>,
                                     c: Spot, d: Spot, n: nat)
    requires PlacedAt(whole, base, code) && Run(code, ranges, text, c, d, n)
    ensures Run(whole, ranges, text, Shift(c, base), Shift(d, base), n)
    decreases n
  {
    if n > 0 {
      var e :| Edge(code, ranges, text, c, e) && Run(code, ranges, text, e, d, n - 1);
      assert c.pc < |code|;
      EdgeShifted(whole, base, code, ranges, text, c, e);
      RunPlaced(whole, base, code, ranges, text, e, d, n - 1);
    }
  }

  /** A run that starts in a placed piece of code and ends outside goes through its end. */
  lemma {:induction false} RunLeaves(whole: seq<Inst>, base: nat, code: seq<Inst>, ranges: seq<Range>, text: seq<Byte>,
                                     c: Spot, d: Spot, n: nat)
    returns (k: Here, m: nat)
    requires PlacedAt(whole, base, code) && Inside(code) && c.pc <= |code|
    requires Run(whole, ranges, text, Shift(c, base), d, n)
    requires d.pc < base || d.pc >= base + |code|
    ensures m <= n
    ensures Run(code, ranges, text, c, Spot(|code|, k), m)
    ensures Run(whole, ranges, text, Spot(base + |code|, k), d, n - m)
    decreases n
  {
    hide Edge, Inside;
    if c.pc == |code| {
      k, m := c.here, 0;
    } else {
      var e :| Edge(whole, ranges, text, Shift(c, base), e) && Run(whole, ranges, text, e, d, n - 1);
      EdgeStays(whole, base, code, ranges, text, c, e);
      var inner := Spot(e.pc - base, e.here);
      EdgeShifted(whole, base, code, ranges, text, c, inner);
      assert Shift(inner, base) == e;
      k, m := RunLeaves(whole, base, code, ranges, text, inner, d, n - 1);
      RunStep(code, ranges, text, c, inner, Spot(|code|, k), m);
      m := m + 1;
    }
  }

  // ---------- one piece after another ----------

  lemma InsideJoin(a: seq<Inst>, b: seq<Inst>)
    requires Inside(a) && Inside(b)
    ensures Inside(a + b)
  {
    forall pc | 0 <= pc < |a + b|
      ensures InstInside((a + b)[pc], pc, |a + b|)
    {
      if pc < |a| {
        assert InstInside(a[pc], pc, |a|);
      } else {
        assert InstInside(b[pc - |a|], pc - |a|, |b|);
      }
    }
  }

  lemma RunsJoin(a: seq<Inst>, b: seq<Inst>, ranges: seq<Range>, text: seq<Byte>, i: Here, j: Here)
    requires Inside(a) && Inside(b)
    ensures Runs(a + b, ranges, text, i, j) <==> exists k :: Runs(a, ranges, text, i, k) && Runs(b, ranges, text, k, j)
  {
    hide Edge, Run, Inside;
    var whole := a + b;
    assert PlacedAt(whole, 0, a) && PlacedAt(whole, |a|, b);
    if Runs(whole, ranges, text, i, j) {
      var n :| Run(whole, ranges, text, Spot(0, i), Spot(|whole|, j), n);
      var k, m := RunLeaves(whole, 0, a, ranges, text, Spot(0, i), Spot(|whole|, j), n);
      var k', m' := RunLeaves(whole, |a|, b, ranges, text, Spot(0, k), Spot(|whole|, j), n - m);
      RunAtEnd(whole, ranges, text, k', Spot(|whole|, j), n - m - m');
      assert Runs(a, ranges, text, i, k) && Runs(b, ranges, text, k, j);
    }
    forall k | Runs(a, ranges, text, i, k) && Runs(b, ranges, text, k, j)
      ensures Runs(whole, ranges, text, i, j)
    {
      var m :| Run(a, ranges, text, Spot(0, i), Spot(|a|, k), m);
      var n :| Run(b, ranges, text, Spot(0, k), Spot(|b|, j), n);
      RunPlaced(whole, 0, a, ranges, text, Spot(0, i), Spot(|a|, k), m);
      RunPlaced(whole, |a|, b, ranges, text, Spot(0, k), Spot(|b|, j), n);
      RunTransitive(whole, ranges, text, Spot(0, i), Spot(|a|, k), Spot(|whole|, j), m, n);
    }
  }

  lemma RunsNothing(ranges: seq<Range>, text: seq<Byte>, i: Here, j: Here)
    ensures Runs([], ranges, text, i, j) <==> i == j
  {
    if i == j {
      assert Run([], ranges, text, Spot(0, i), Spot(0, j), 0);
    }
    forall n: nat | Run([], ranges, text, Spot(0, i), Spot(0, j), n)
      ensures i == j
    {
      RunAtEnd([], ranges, text, i, Spot(0, j), n);
    }
  }

  /** Code of one instruction that is no jump runs by one step. */
  lemma RunsOne(inst: Inst, ranges: seq<Range>, text: seq<Byte>, i: Here, j: Here)
    requires !inst.Jmp? && !inst.Split?
    ensures Runs([inst], ranges, text, i, j) <==> Edge([inst], ranges, text, Spot(0, i), Spot(1, j))
  {
    hide Holds, Takes, Decode;
    if Edge([inst], ranges, text, Spot(0, i), Spot(1, j)) {
      assert Run([inst], ranges, text, Spot(1, j), Spot(1, j), 0);
      RunStep([inst], ranges, text, Spot(0, i), Spot(1, j), Spot(1, j), 0);
    }
    forall n: nat | Run([inst], ranges, text, Spot(0, i), Spot(1, j), n)
      ensures Edge([inst], ranges, text, Spot(0, i), Spot(1, j))
    {
      var e :| Edge([inst], ranges, text, Spot(0, i), e) && Run([inst], ranges, text, e, Spot(1, j), n - 1);
      assert e == Spot(1, e.here);
      RunAtEnd([inst], ranges, text, e.here, Spot(1, j), n - 1);
    }
  }
}
