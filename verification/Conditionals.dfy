/** The conditional lines of the preprocessor: a stack of levels, and what they mean as blocks. */
module Conditionals {
  import opened Common

  const MAX_DEPTH := 32

  /** A line: text, or a conditional directive with the truth of its condition. */
  datatype Line = Text(text: seq<Byte>) | If(cond: bool) | Elif(cond: bool) | Else | Endif

  /** One `$if` that has not been ended: whether its lines are passed on now, whether one of
      its branches has been taken, and whether its `$else` has been seen. */
  datatype Level = Level(active: bool, taken: bool, seenElse: bool)

  function Active(levels: seq<Level>): bool {
    levels == [] || levels[|levels| - 1].active
  }

  /** The levels after a line; nothing when the line is out of place. */
  function Step(levels: seq<Level>, line: Line): (r: Option<seq<Level>>)
    ensures |levels| <= MAX_DEPTH && r.Some? ==> |r.value| <= MAX_DEPTH
  {
    if line.Text? then Some(levels)
    else if line.If? then
      if |levels| >= MAX_DEPTH then None
      else
        var active := Active(levels) && line.cond;
        Some(levels + [Level(active, active, false)])
    else if levels == [] then None
    else
      var outer, top := levels[..|levels| - 1], levels[|levels| - 1];
      if line.Endif? then Some(outer)
      else if top.seenElse then None
      else if line.Elif? then
        var active := Active(outer) && !top.taken && line.cond;
        Some(outer + [Level(active, top.taken || active, false)])
      else Some(outer + [Level(Active(outer) && !top.taken, true, true)])
  }

  /** The lines that are passed on, and the levels at the end; nothing when a line is out of place. */
  function Run(lines: seq<Line>, levels: seq<Level>): Option<(seq<seq<Byte>>, seq<Level>)> {
    if lines == [] then Some(([], levels))
    else
      var next := Step(levels, lines[0]);
      if next.None? then None
      else
        var rest := Run(lines[1..], next.value);
        if rest.None? then None
        else
          var passed := if lines[0].Text? && Active(levels) then [lines[0].text] else [];
          Some((passed + rest.value.0, rest.value.1))
  }

  // ---------- blocks ----------

  /** A line of text, or branches of which one at most is taken, with or without an `$else`. */
  datatype Block = Plain(text: seq<Byte>) | Chain(branches: seq<Branch>, hasElse: bool, otherwise: seq<Block>)

  datatype Branch = Branch(cond: bool, body: seq<Block>)

  /** The first branch of which the condition holds. */
  function FirstTrue(branches: seq<Branch>): (r: nat)
    ensures r <= |branches|
    ensures forall i :: 0 <= i < r ==> !branches[i].cond
    ensures r < |branches| ==> branches[r].cond
  {
    if branches == [] || branches[0].cond then 0 else 1 + FirstTrue(branches[1..])
  }

  /** What a block means: the text of its first true branch, or of its `$else`. */
  function Meaning(b: Block): seq<seq<Byte>>
    decreases b
  {
    match b
    case Plain(text) => [text]
    case Chain(branches, hasElse, otherwise) =>
      var k := FirstTrue(branches);
      if k < |branches| then MeaningAll(branches[k].body)
      else MeaningAll(otherwise)
  }

  function MeaningAll(bs: seq<Block>): seq<seq<Byte>>
    decreases bs
  {
    if bs == [] then [] else Meaning(bs[0]) + MeaningAll(bs[1..])
  }

  /** The lines of a block. */
  function Lines(b: Block): seq<Line>
    decreases b
  {
    match b
    case Plain(text) => [Line.Text(text)]
    case Chain(branches, hasElse, otherwise) =>
      BranchLines(branches, true) + (if hasElse then [Else] + LinesAll(otherwise) else []) + [Endif]
  }

  function BranchLines(branches: seq<Branch>, first: bool): seq<Line>
    decreases branches
  {
    if branches == [] then []
    else
      [if first then If(branches[0].cond) else Elif(branches[0].cond)] + LinesAll(branches[0].body)
      + BranchLines(branches[1..], false)
  }

  function LinesAll(bs: seq<Block>): seq<Line>
    decreases bs
  {
    if bs == [] then [] else Lines(bs[0]) + LinesAll(bs[1..])
  }

  /** Chains have a branch, and nest no deeper than `depth`. */
  predicate Fits(b: Block, depth: nat)
    decreases b
  {
    match b
    case Plain(_) => true
    case Chain(branches, hasElse, otherwise) =>
      && branches != [] && depth > 0
      && (forall i :: 0 <= i < |branches| ==> FitsAll(branches[i].body, depth - 1))
      && FitsAll(otherwise, depth - 1) && (otherwise != [] ==> hasElse)
  }

  predicate FitsAll(bs: seq<Block>, depth: nat)
    decreases bs
  {
    forall i :: 0 <= i < |bs| ==> Fits(bs[i], depth)
  }

  // ---------- the stack gives the meaning ----------

  lemma {:induction false} RunJoin(a: seq<Line>, b: seq<Line>, levels: seq<Level>)
    ensures var r := Run(a, levels);
            Run(a + b, levels) ==
            if r.None? then None
            else
              var q := Run(b, r.value.1);
              if q.None? then None else Some((r.value.0 + q.value.0, q.value.1))
    decreases |a|
  {
    if a == [] {
      assert a + b == b;
      var q := Run(b, levels);
      assert q.Some? ==> [] + q.value.0 == q.value.0;
    } else {
      assert (a + b)[0] == a[0] && (a + b)[1..] == a[1..] + b;
      var next := Step(levels, a[0]);
      if next.Some? {
        RunJoin(a[1..], b, next.value);
        var r := Run(a[1..], next.value);
        if r.Some? {
          var q := Run(b, r.value.1);
          var passed := if a[0].Text? && Active(levels) then [a[0].text] else [];
          assert q.Some? ==> passed + (r.value.0 + q.value.0) == (passed + r.value.0) + q.value.0;
        }
      }
    }
  }

  lemma RunOne(line: Line, levels: seq<Level>)
    ensures Run([line], levels) ==
            var next := Step(levels, line);
            if next.None? then None else Some((if line.Text? && Active(levels) then [line.text] else [], next.value))
  {
    assert [line][1..] == [];
    var passed := if line.Text? && Active(levels) then [line.text] else [];
    assert passed + [] == passed;
  }

  function PassedOn(levels: seq<Level>, text: seq<seq<Byte>>): seq<seq<Byte>> {
    if Active(levels) then text else []
  }

  /** Blocks that fit are passed on as they mean, and leave the levels as they were. */
  lemma {:induction false} BlocksRun(bs: seq<Block>, levels: seq<Level>)
    requires |levels| <= MAX_DEPTH && FitsAll(bs, MAX_DEPTH - |levels|)
    ensures Run(LinesAll(bs), levels) == Some((PassedOn(levels, MeaningAll(bs)), levels))
    decreases bs
  {
    if bs != [] {
      var depth := MAX_DEPTH - |levels|;
      assert Fits(bs[0], depth);
      BlockRuns(bs[0], levels);
      assert forall i :: 0 <= i < |bs[1..]| ==> bs[1..][i] == bs[i + 1];
      BlocksRun(bs[1..], levels);
      RunJoin(Lines(bs[0]), LinesAll(bs[1..]), levels);
    }
  }

  lemma {:induction false} BlockRuns(b: Block, levels: seq<Level>)
    requires |levels| <= MAX_DEPTH && Fits(b, MAX_DEPTH - |levels|)
    ensures Run(Lines(b), levels) == Some((PassedOn(levels, Meaning(b)), levels))
    decreases b, 1
  {
    match b {
      case Plain(text) => RunOne(Line.Text(text), levels);
      case Chain(branches, hasElse, otherwise) => ChainRuns(b, levels);
    }
  }

  /** What the branches of a chain pass on when none before them has been taken. */
  function BranchMeaning(branches: seq<Branch>): seq<seq<Byte>> {
    var k := FirstTrue(branches);
    if k < |branches| then MeaningAll(branches[k].body) else []
  }

  lemma BranchFirst(branches: seq<Branch>)
    requires branches != []
    ensures branches[0].cond ==> FirstTrue(branches) == 0 && BranchMeaning(branches) == MeaningAll(branches[0].body)
    ensures !branches[0].cond ==> FirstTrue(branches) == 1 + FirstTrue(branches[1..]) && BranchMeaning(branches) == BranchMeaning(branches[1..])
  {
  }

  /** The `$if` of a chain is an `$elif` on a level of which nothing has been taken. */
  lemma BranchStep(levels: seq<Level>, top: Level, cond: bool, first: bool)
    requires |levels| < MAX_DEPTH && !top.seenElse && (first ==> !top.taken)
    ensures var active := Active(levels) && !top.taken && cond;
            Step(if first then levels else levels + [top], if first then If(cond) else Elif(cond)) ==
            Some(levels + [Level(active, top.taken || active, false)])
  {
    assert (levels + [top])[..|levels|] == levels;
  }

  lemma NoBranches(levels: seq<Level>)
    ensures Run(BranchLines([], false), levels) == Some(([], levels)) && BranchMeaning([]) == [] && FirstTrue([]) == 0
  {
  }

  lemma {:induction false} BranchesRun(branches: seq<Branch>, first: bool, levels: seq<Level>, top: Level)
    returns (last: Level)
    requires |levels| < MAX_DEPTH && !top.seenElse && (first ==> branches != [] && !top.taken)
    requires forall i :: 0 <= i < |branches| ==> FitsAll(branches[i].body, MAX_DEPTH - |levels| - 1)
    ensures var free := Active(levels) && !top.taken;
            && Run(BranchLines(branches, first), if first then levels else levels + [top]) ==
               Some((if free then BranchMeaning(branches) else [], levels + [last]))
            && !last.seenElse
            && (last.taken <==> top.taken || (free && FirstTrue(branches) < |branches|))
    decreases branches
  {
    hide Run, Step, FirstTrue, BranchMeaning, MeaningAll, LinesAll, FitsAll;
    if branches == [] {
      last := top;
      NoBranches(levels + [top]);
    } else {
      var b, rest := branches[0], branches[1..];
      var from := if first then levels else levels + [top];
      var line := if first then If(b.cond) else Elif(b.cond);
      var active := Active(levels) && !top.taken && b.cond;
      var now := Level(active, top.taken || active, false);
      BranchStep(levels, top, b.cond, first);
      RunOne(line, from);
      assert FitsAll(b.body, MAX_DEPTH - |levels + [now]|);
      BlocksRun(b.body, levels + [now]);
      last := BranchesRun(rest, false, levels, now);
      RunJoin([line] + LinesAll(b.body), BranchLines(rest, false), from);
      RunJoin([line], LinesAll(b.body), from);
      BranchFirst(branches);
      var body := if active then MeaningAll(b.body) else [];
      var later := if Active(levels) && !now.taken then BranchMeaning(rest) else [];
      assert [] + body == body && body + [] == body && [] + later == later;
    }
  }

  lemma {:induction false} ChainRuns(b: Block, levels: seq<Level>)
    requires b.Chain? && |levels| <= MAX_DEPTH && Fits(b, MAX_DEPTH - |levels|)
    ensures Run(Lines(b), levels) == Some((PassedOn(levels, Meaning(b)), levels))
    decreases b, 0
  {
    var branches, hasElse, otherwise := b.branches, b.hasElse, b.otherwise;
    var top := Level(false, false, false);
    var last := BranchesRun(branches, true, levels, top);
    var head := BranchLines(branches, true);
    var tail := if hasElse then [Else] + LinesAll(otherwise) else [];
    assert (levels + [last])[..|levels|] == levels;
    var end := last;
    if hasElse {
      end := Level(Active(levels) && !last.taken, true, true);
      RunOne(Else, levels + [last]);
      BlocksRun(otherwise, levels + [end]);
      RunJoin([Else], LinesAll(otherwise), levels + [last]);
    }
    RunJoin(head, tail, levels);
    RunJoin(head + tail, [Endif], levels);
    assert (levels + [end])[..|levels|] == levels;
    RunOne(Endif, levels + [end]);
    var first := if Active(levels) then BranchMeaning(branches) else [];
    var second := if hasElse then PassedOn(levels + [end], MeaningAll(otherwise)) else [];
    assert [] + second == second && first + second + [] == first + second;
    assert first + second == PassedOn(levels, Meaning(b));
  }

  // ---------- what is accepted is blocks ----------

  /** A chain of which the end has not been seen: the blocks before it, its branches so far,
      and the condition of the one that is being read, if that is not the `$else`. */
  datatype Open = Open(before: seq<Block>, done: seq<Branch>, cond: bool, inElse: bool)

  function Header(done: seq<Branch>, cond: bool): Line {
    if done == [] then If(cond) else Elif(cond)
  }

  function OpenLines(f: Open): seq<Line> {
    LinesAll(f.before) + BranchLines(f.done, true) + [if f.inElse then Else else Header(f.done, f.cond)]
  }

  function ReadSoFar(frames: seq<Open>, bs: seq<Block>): seq<Line>
    decreases |frames|
  {
    if frames == [] then LinesAll(bs) else OpenLines(frames[0]) + ReadSoFar(frames[1..], bs)
  }

  /** The open chains are those of the levels, and all that has been read fits. */
  predicate Matches(frames: seq<Open>, bs: seq<Block>, levels: seq<Level>) {
    && |frames| == |levels| <= MAX_DEPTH && FitsAll(bs, MAX_DEPTH - |levels|)
    && forall i :: 0 <= i < |frames| ==> FrameOk(frames[i], levels[i], MAX_DEPTH - i)
  }

  predicate FrameOk(f: Open, level: Level, depth: nat) {
    && depth > 0 && f.inElse == level.seenElse && (f.inElse ==> f.done != [])
    && FitsAll(f.before, depth) && forall i :: 0 <= i < |f.done| ==> FitsAll(f.done[i].body, depth - 1)
  }

  lemma {:induction false} LinesMore(bs: seq<Block>, b: Block)
    ensures LinesAll(bs + [b]) == LinesAll(bs) + Lines(b)
    decreases |bs|
  {
    if bs == [] {
      assert [] + [b] == [b] && [b][1..] == [];
    } else {
      assert (bs + [b])[0] == bs[0] && (bs + [b])[1..] == bs[1..] + [b];
      LinesMore(bs[1..], b);
    }
  }

  lemma {:induction false} BranchLinesMore(done: seq<Branch>, b: Branch, first: bool)
    ensures BranchLines(done + [b], first) ==
            BranchLines(done, first) + [if first && done == [] then If(b.cond) else Elif(b.cond)] + LinesAll(b.body)
    decreases |done|
  {
    hide LinesAll;
    var all := done + [b];
    var header := if first && done == [] then If(b.cond) else Elif(b.cond);
    if done == [] {
      assert all[0] == b && all[1..] == [];
      assert BranchLines(all, first) == [header] + LinesAll(b.body) + [];
    } else {
      var h := [if first then If(done[0].cond) else Elif(done[0].cond)] + LinesAll(done[0].body);
      assert all[0] == done[0] && all[1..] == done[1..] + [b];
      BranchLinesMore(done[1..], b, false);
      SeqAssoc(h, BranchLines(done[1..], false) + [header], LinesAll(b.body));
      SeqAssoc(h, BranchLines(done[1..], false), [header]);
    }
  }

  lemma {:induction false} ReadMore(frames: seq<Open>, f: Open, bs: seq<Block>)
    ensures ReadSoFar(frames + [f], bs) == ReadSoFar(frames, []) + OpenLines(f) + LinesAll(bs)
    ensures ReadSoFar(frames, bs) == ReadSoFar(frames, []) + LinesAll(bs)
    decreases |frames|
  {
    hide OpenLines, LinesAll;
    NoLines();
    if frames == [] {
      assert frames + [f] == [f] && [f][1..] == [];
    } else {
      assert (frames + [f])[0] == frames[0] && (frames + [f])[1..] == frames[1..] + [f];
      ReadMore(frames[1..], f, bs);
    }
  }

  lemma NoLines()
    ensures LinesAll([]) == []
  {
  }

  lemma FitsMore(bs: seq<Block>, b: Block, depth: nat)
    requires FitsAll(bs, depth) && Fits(b, depth)
    ensures FitsAll(bs + [b], depth)
  {
  }

  /** A line that is not out of place leads from what has been read to more of it. */
  lemma OneMoreLine(frames: seq<Open>, bs: seq<Block>, levels: seq<Level>, line: Line) returns (frames': seq<Open>, bs': seq<Block>)
    requires Matches(frames, bs, levels) && Step(levels, line).Some?
    ensures Matches(frames', bs', Step(levels, line).value)
    ensures ReadSoFar(frames', bs') == ReadSoFar(frames, bs) + [line]
  {
    hide Fits;
    match line {
      case Text(text) =>
        frames', bs' := frames, bs + [Plain(text)];
        LinesMore(bs, Plain(text));
        PlainFits(text, MAX_DEPTH - |levels|);
        ReadMore(frames, Open([], [], false, false), bs);
        ReadMore(frames, Open([], [], false, false), bs');
      case If(cond) =>
        var f := Open(bs, [], cond, false);
        frames', bs' := frames + [f], [];
        ReadMore(frames, f, []);
        ReadMore(frames, f, bs);
        NoLines();
      case Endif =>
        frames', bs' := EndOfChain(frames, bs, levels);
      case _ =>
        frames', bs' := EndOfBranch(frames, bs, levels, line);
    }
  }

  lemma PlainFits(text: seq<Byte>, depth: nat)
    ensures Fits(Plain(text), depth) && Lines(Plain(text)) == [Line.Text(text)]
  {
  }

  lemma ChainFits(branches: seq<Branch>, hasElse: bool, otherwise: seq<Block>, depth: nat)
    requires branches != [] && depth > 0 && FitsAll(otherwise, depth - 1) && (otherwise != [] ==> hasElse)
    requires forall i :: 0 <= i < |branches| ==> FitsAll(branches[i].body, depth - 1)
    ensures Fits(Chain(branches, hasElse, otherwise), depth)
    ensures Lines(Chain(branches, hasElse, otherwise)) ==
            BranchLines(branches, true) + (if hasElse then [Else] + LinesAll(otherwise) else []) + [Endif]
  {
  }

  /** `$endif`: the chain is a block of what it stands in. */
  lemma EndOfChain(frames: seq<Open>, bs: seq<Block>, levels: seq<Level>) returns (frames': seq<Open>, bs': seq<Block>)
    requires Matches(frames, bs, levels) && levels != []
    ensures Matches(frames', bs', levels[..|levels| - 1])
    ensures ReadSoFar(frames', bs') == ReadSoFar(frames, bs) + [Endif]
  {
    hide Fits, Lines, LinesAll, BranchLines, OpenLines, ReadSoFar;
    var outer, f, depth := frames[..|frames| - 1], frames[|frames| - 1], MAX_DEPTH - |levels| + 1;
    assert frames == outer + [f] && FrameOk(f, levels[|levels| - 1], depth);
    var chain := Closed(f, bs);
    ChainFits(chain.branches, f.inElse, chain.otherwise, depth);
    frames', bs' := outer, f.before + [chain];
    FitsMore(f.before, chain, depth);
    ReadMore(outer, f, bs);
    ReadMore(outer, f, bs');
    ClosedLines(f, bs);
  }

  /** The chain once its last branch has been read. */
  function Closed(f: Open, bs: seq<Block>): (b: Block)
    ensures b.Chain?
  {
    Chain(if f.inElse then f.done else f.done + [Branch(f.cond, bs)], f.inElse, if f.inElse then bs else [])
  }

  lemma ClosedLines(f: Open, bs: seq<Block>)
    ensures LinesAll(f.before + [Closed(f, bs)]) == OpenLines(f) + LinesAll(bs) + [Endif]
  {
    hide LinesAll, BranchLines;
    LinesMore(f.before, Closed(f, bs));
    BranchLinesMore(f.done, Branch(f.cond, bs), true);
    var head := BranchLines(f.done, true) + [if f.inElse then Else else Header(f.done, f.cond)];
    assert Lines(Closed(f, bs)) == head + LinesAll(bs) + [Endif];
    assert OpenLines(f) == LinesAll(f.before) + head;
  }

  /** `$elif` or `$else`: another branch starts. */
  lemma EndOfBranch(frames: seq<Open>, bs: seq<Block>, levels: seq<Level>, line: Line) returns (frames': seq<Open>, bs': seq<Block>)
    requires Matches(frames, bs, levels) && (line.Elif? || line.Else?) && Step(levels, line).Some?
    ensures Matches(frames', bs', Step(levels, line).value)
    ensures ReadSoFar(frames', bs') == ReadSoFar(frames, bs) + [line]
  {
    hide Fits, Lines, LinesAll, BranchLines, OpenLines, ReadSoFar;
    var outer, f, depth := frames[..|frames| - 1], frames[|frames| - 1], MAX_DEPTH - |levels| + 1;
    assert frames == outer + [f] && FrameOk(f, levels[|levels| - 1], depth);
    var g := NextBranch(f, bs, line);
    frames', bs' := outer + [g], [];
    ReadMore(outer, f, bs);
    ReadMore(outer, g, []);
    NoLines();
    NothingFits(depth - 1);
    NextBranchLines(f, bs, line);
  }

  function NextBranch(f: Open, bs: seq<Block>, line: Line): Open {
    Open(f.before, f.done + [Branch(f.cond, bs)], line.Elif? && line.cond, line.Else?)
  }

  lemma NextBranchLines(f: Open, bs: seq<Block>, line: Line)
    requires !f.inElse && (line.Elif? || line.Else?)
    ensures OpenLines(NextBranch(f, bs, line)) == OpenLines(f) + LinesAll(bs) + [line]
  {
    hide LinesAll, BranchLines;
    BranchLinesMore(f.done, Branch(f.cond, bs), true);
  }

  lemma NothingFits(depth: nat)
    ensures FitsAll([], depth)
  {
  }

  lemma {:induction false} ReadAll(lines: seq<Line>, frames: seq<Open>, bs: seq<Block>, levels: seq<Level>)
    returns (frames': seq<Open>, bs': seq<Block>)
    requires Matches(frames, bs, levels) && Run(lines, levels).Some?
    ensures Matches(frames', bs', Run(lines, levels).value.1)
    ensures ReadSoFar(frames', bs') == ReadSoFar(frames, bs) + lines
    decreases |lines|
  {
    hide Matches, ReadSoFar;
    if lines == [] {
      frames', bs' := frames, bs;
    } else {
      var f, b := OneMoreLine(frames, bs, levels, lines[0]);
      frames', bs' := ReadAll(lines[1..], f, b, Step(levels, lines[0]).value);
      assert [lines[0]] + lines[1..] == lines;
    }
  }

  /** Blocks of which the lines are these. */
  ghost predicate AreLinesOf(lines: seq<Line>, bs: seq<Block>) {
    FitsAll(bs, 32) && LinesAll(bs) == lines
  }

  /** Exactly the lines of blocks that fit are accepted to their end, and what they mean is
      what is passed on. */
  lemma AcceptedExactlyBlocks(lines: seq<Line>)
    ensures (exists bs :: AreLinesOf(lines, bs)) <==> Run(lines, []).Some? && Run(lines, []).value.1 == []
    ensures forall bs :: AreLinesOf(lines, bs) ==> Run(lines, []) == Some((MeaningAll(bs), []))
  {
    forall bs | AreLinesOf(lines, bs) ensures Run(lines, []) == Some((MeaningAll(bs), [])) {
      BlocksRun(bs, []);
    }
    if Run(lines, []).Some? && Run(lines, []).value.1 == [] {
      var frames, bs := ReadAll(lines, [], [], []);
      assert [] + lines == lines;
      assert AreLinesOf(lines, bs);
    }
  }
}
