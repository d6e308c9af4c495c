/** The preprocessor's run over files: which lines are passed on, and where each line of the
    output came from. */
module Preprocessor {
  import opened Common
  import opened Conditionals

  const NEWLINE: Byte := 10
  const STDIN: CString := [60, 115, 116, 100, 105, 110, 62]
  const MAX_INCLUDE := 32

  /** A file as it is read: piece by piece, a piece being a line or as much of it as fits. */
  datatype File = File(name: CString, pieces: seq<Piece>)

  datatype Piece = Piece(content: Content, ended: bool)

  type Conditional = l: Line | !l.Text? witness Else

  /** A conditional directive; words, as they are expanded; another file; a line that passes
      nothing on; or one that cannot be understood. */
  datatype Content = Directive(line: Conditional) | Words(expanded: seq<Byte>) | Include(file: File) | Nothing | Broken

  // ---------- what a run passes on ----------

  /** Text that has been passed on, and the line it was read from. */
  datatype Emission = Emission(text: seq<Byte>, file: CString, line: nat)

  datatype Outcome = Outcome(ok: bool, levels: seq<Level>, trace: seq<Emission>)

  function Current(stack: seq<CString>): CString {
    if stack == [] then STDIN else stack[|stack| - 1]
  }

  function Then(trace: seq<Emission>, o: Outcome): Outcome {
    Outcome(o.ok, o.levels, trace + o.trace)
  }

  /** What one piece does, read as line `line` of the file on top of the stack. */
  function RunPiece(p: Piece, stack: seq<CString>, line: nat, levels: seq<Level>): Outcome
    decreases p
  {
    match p.content
    case Directive(l) =>
      var next := Step(levels, l);
      if next.None? then Outcome(false, levels, []) else Outcome(true, next.value, [])
    case Words(expanded) =>
      var text := if p.ended then expanded else expanded + [NEWLINE];
      Outcome(true, levels, if Active(levels) then [Emission(text, Current(stack), line)] else [])
    case Include(file) => if Active(levels) then RunFile(file, stack, levels) else Outcome(true, levels, [])
    case Nothing => Outcome(true, levels, [])
    case Broken => Outcome(false, levels, [])
  }

  function RunPieces(ps: seq<Piece>, stack: seq<CString>, line: nat, starts: bool, levels: seq<Level>): Outcome
    decreases ps
  {
    if ps == [] then Outcome(true, levels, [])
    else
      var now := if starts then line + 1 else line;
      var o := RunPiece(ps[0], stack, now, levels);
      if !o.ok then o else Then(o.trace, RunPieces(ps[1..], stack, now, ps[0].ended, o.levels))
  }

  function RunFile(f: File, stack: seq<CString>, levels: seq<Level>): Outcome
    decreases f
  {
    if |stack| >= MAX_INCLUDE || f.name in stack then Outcome(false, levels, [])
    else
      var o := RunPieces(f.pieces, stack + [f.name], 0, true, levels);
      if o.ok && o.levels != [] && stack == [] then o.(ok := false) else o
  }

  lemma ThenNothing(o: Outcome)
    ensures Then([], o) == o
  {
    assert [] + o.trace == o.trace;
  }

  lemma NoPieces(ps: seq<Piece>, stack: seq<CString>, line: nat, starts: bool, levels: seq<Level>, done: seq<Emission>)
    requires ps == []
    ensures Then(done, RunPieces(ps, stack, line, starts, levels)) == Outcome(true, levels, done)
  {
    assert done + [] == done;
  }

  lemma OnePiece(ps: seq<Piece>, k: nat, stack: seq<CString>, line: nat, starts: bool, levels: seq<Level>, done: seq<Emission>)
    requires k < |ps|
    ensures var now := if starts then line + 1 else line;
            var o, r := RunPiece(ps[k], stack, now, levels), Then(done, RunPieces(ps[k..], stack, line, starts, levels));
            r == if o.ok then Then(done + o.trace, RunPieces(ps[k + 1..], stack, now, ps[k].ended, o.levels))
                 else Outcome(false, o.levels, done + o.trace)
  {
    hide RunPiece;
    var now := if starts then line + 1 else line;
    var o := RunPiece(ps[k], stack, now, levels);
    assert ps[k..][0] == ps[k] && ps[k..][1..] == ps[k + 1..];
    var rest := RunPieces(ps[k + 1..], stack, now, ps[k].ended, o.levels);
    SeqAssoc(done, o.trace, rest.trace);
  }

  // ---------- where the newlines come from ----------

  function Newlines(text: seq<Byte>): nat {
    if text == [] then 0 else Newlines(text[..|text| - 1]) + (if text[|text| - 1] == NEWLINE then 1 else 0)
  }

  function Texts(trace: seq<Emission>): seq<Byte> {
    if trace == [] then [] else Texts(trace[..|trace| - 1]) + trace[|trace| - 1].text
  }

  type Origin = (CString, nat)

  function Same(o: Origin, n: nat): (r: seq<Origin>)
    ensures |r| == n
  {
    seq(n, _ => o)
  }

  /** For each newline passed on, the file and the line it was passed on for. */
  function Origins(trace: seq<Emission>): seq<Origin> {
    if trace == [] then []
    else
      var e := trace[|trace| - 1];
      Origins(trace[..|trace| - 1]) + Same((e.file, e.line), Newlines(e.text))
  }

  lemma {:induction false} NewlinesJoin(a: seq<Byte>, b: seq<Byte>)
    ensures Newlines(a + b) == Newlines(a) + Newlines(b)
    decreases |b|
  {
    if b == [] {
      assert a + b == a;
    } else {
      assert (a + b)[..|a + b| - 1] == a + b[..|b| - 1];
      NewlinesJoin(a, b[..|b| - 1]);
    }
  }

  lemma OneMore(trace: seq<Emission>, e: Emission)
    ensures Texts(trace + [e]) == Texts(trace) + e.text
    ensures Origins(trace + [e]) == Origins(trace) + Same((e.file, e.line), Newlines(e.text))
  {
    assert (trace + [e])[..|trace|] == trace;
  }

  lemma {:induction false} OneOriginEach(trace: seq<Emission>)
    ensures |Origins(trace)| == Newlines(Texts(trace))
  {
    if trace != [] {
      OneOriginEach(trace[..|trace| - 1]);
      NewlinesJoin(Texts(trace[..|trace| - 1]), trace[|trace| - 1].text);
    }
  }

  /** The newline at place `q` of what has been passed on was passed on for the line that its
      origin names. */
  lemma {:induction false} OriginOfNewline(trace: seq<Emission>, k: nat, q: nat)
    requires k < |trace| && q < |trace[k].text| && trace[k].text[q] == NEWLINE
    ensures var at := |Texts(trace[..k])| + q;
            && at < |Texts(trace)| && Texts(trace)[at] == NEWLINE
            && var n := Newlines(Texts(trace)[..at]);
               n < |Origins(trace)| && Origins(trace)[n] == (trace[k].file, trace[k].line)
    decreases |trace|
  {
    hide Newlines;
    var before, e := trace[..|trace| - 1], trace[|trace| - 1];
    var at := |Texts(trace[..k])| + q;
    if k == |trace| - 1 {
      assert Texts(trace)[..at] == Texts(before) + e.text[..q];
      NewlinesJoin(Texts(before), e.text[..q]);
      NewlinesFewer(e.text, q);
      OneOriginEach(before);
    } else {
      assert before[..k] == trace[..k];
      OriginOfNewline(before, k, q);
      assert Texts(trace)[..at] == Texts(before)[..at];
    }
  }

  lemma NewlinesFewer(text: seq<Byte>, q: nat)
    requires q < |text| && text[q] == NEWLINE
    ensures Newlines(text[..q]) < Newlines(text)
  {
    NewlinesMore(text, 0, q);
    NewlinesJoin(text[..q + 1], text[q + 1..]);
    assert text == text[..q + 1] + text[q + 1..];
    assert text[0..q] == text[..q] && text[0..q + 1] == text[..q + 1];
  }

  // ---------- conditionals on their own ----------

  /** The line that a piece is to the conditionals. */
  function LineOf(p: Piece): Line {
    match p.content
    case Directive(l) => l
    case Words(expanded) => Line.Text(if p.ended then expanded else expanded + [NEWLINE])
    case _ => Line.Text([])
  }

  predicate IsPlain(p: Piece) {
    p.content.Directive? || p.content.Words?
  }

  function LinesOf(ps: seq<Piece>): seq<Line> {
    if ps == [] then [] else [LineOf(ps[0])] + LinesOf(ps[1..])
  }

  function TextsOf(trace: seq<Emission>): seq<seq<Byte>> {
    if trace == [] then [] else [trace[0].text] + TextsOf(trace[1..])
  }

  lemma PlainPiece(p: Piece, stack: seq<CString>, line: nat, levels: seq<Level>)
    requires IsPlain(p)
    ensures var o, l, next := RunPiece(p, stack, line, levels), LineOf(p), Step(levels, LineOf(p));
            && (o.ok <==> next.Some?) && (o.ok ==> o.levels == next.value)
            && (if l.Text? && Active(levels) then |o.trace| == 1 && o.trace[0].text == l.text else o.trace == [])
  {
  }

  lemma TextsFirst(now: seq<Emission>, later: seq<Emission>)
    requires |now| <= 1
    ensures TextsOf(now + later) == (if now == [] then [] else [now[0].text]) + TextsOf(later)
  {
    assert now == [] ==> now + later == later;
    assert now != [] ==> (now + later)[1..] == later;
  }

  /** A file without other files passes on what its conditionals say. */
  lemma {:induction false} PassesWhatConditionalsSay(ps: seq<Piece>, stack: seq<CString>, line: nat, starts: bool, levels: seq<Level>)
    requires forall i :: 0 <= i < |ps| ==> IsPlain(ps[i])
    ensures var o, r := RunPieces(ps, stack, line, starts, levels), Run(LinesOf(ps), levels);
            && (o.ok <==> r.Some?)
            && (o.ok ==> o.levels == r.value.1 && TextsOf(o.trace) == r.value.0)
    decreases |ps|
  {
    hide RunPiece, Step, Active, LineOf, IsPlain, TextsOf;
    if ps == [] {
      TextsOfNothing();
    } else {
      var now := if starts then line + 1 else line;
      var o := RunPiece(ps[0], stack, now, levels);
      PlainPiece(ps[0], stack, now, levels);
      assert LinesOf(ps)[0] == LineOf(ps[0]) && LinesOf(ps)[1..] == LinesOf(ps[1..]);
      if o.ok {
        PassesWhatConditionalsSay(ps[1..], stack, now, ps[0].ended, o.levels);
        TextsFirst(o.trace, RunPieces(ps[1..], stack, now, ps[0].ended, o.levels).trace);
      }
    }
  }

  lemma TextsOfNothing()
    ensures TextsOf([]) == []
  {
  }

  // ---------- conditionals across files ----------

  /** The lines that a run of one piece meets: those of a file that is named there are in its
      place, but only where lines are passed on. */
  function MetIn(p: Piece, stack: seq<CString>, line: nat, levels: seq<Level>): seq<Line>
    decreases p
  {
    match p.content
    case Directive(l) => [l]
    case Words(_) => [LineOf(p)]
    case Include(file) => if Active(levels) then MetInFile(file, stack, levels) else []
    case _ => []
  }

  function Met(ps: seq<Piece>, stack: seq<CString>, line: nat, starts: bool, levels: seq<Level>): seq<Line>
    decreases ps
  {
    if ps == [] then []
    else
      var now := if starts then line + 1 else line;
      var o := RunPiece(ps[0], stack, now, levels);
      MetIn(ps[0], stack, now, levels) + (if o.ok then Met(ps[1..], stack, now, ps[0].ended, o.levels) else [])
  }

  function MetInFile(f: File, stack: seq<CString>, levels: seq<Level>): seq<Line>
    decreases f
  {
    if |stack| >= MAX_INCLUDE || f.name in stack then [] else Met(f.pieces, stack + [f.name], 0, true, levels)
  }

  /** A run of one piece meets something that is no matter of conditionals and cannot be gone past:
      what cannot be understood, or a file that is too deep or that is being read already. */
  predicate StopsIn(p: Piece, stack: seq<CString>, line: nat, levels: seq<Level>)
    decreases p
  {
    p.content.Broken? || (p.content.Include? && Active(levels) && StopsInFile(p.content.file, stack, levels))
  }

  predicate Stops(ps: seq<Piece>, stack: seq<CString>, line: nat, starts: bool, levels: seq<Level>)
    decreases ps
  {
    ps != [] &&
    var now := if starts then line + 1 else line;
    var o := RunPiece(ps[0], stack, now, levels);
    StopsIn(ps[0], stack, now, levels) || (o.ok && Stops(ps[1..], stack, now, ps[0].ended, o.levels))
  }

  predicate StopsInFile(f: File, stack: seq<CString>, levels: seq<Level>)
    decreases f
  {
    |stack| >= 32 || f.name in stack || Stops(f.pieces, stack + [f.name], 0, true, levels)
  }

  /** What a run comes to is what its conditionals say of the lines that it meets, and it fails
      exactly when these are ill formed or something stops it. */
  predicate Agrees(o: Outcome, met: seq<Line>, stops: bool, levels: seq<Level>) {
    && (o.ok <==> !stops && Run(met, levels).Some?)
    && (o.ok ==> Run(met, levels) == Some((TextsOf(o.trace), o.levels)))
  }

  lemma {:induction false} PieceAgrees(p: Piece, stack: seq<CString>, line: nat, levels: seq<Level>)
    requires stack != []
    ensures Agrees(RunPiece(p, stack, line, levels), MetIn(p, stack, line, levels), StopsIn(p, stack, line, levels), levels)
    decreases p
  {
    hide Step, Met, Stops, RunPieces;
    match p.content
    case Directive(l) => RunOne(l, levels);
    case Words(_) =>
      RunOne(LineOf(p), levels);
      PlainPiece(p, stack, line, levels);
      TextsFirst(RunPiece(p, stack, line, levels).trace, []);
      TextsOfNothing();
      assert RunPiece(p, stack, line, levels).trace + [] == RunPiece(p, stack, line, levels).trace;
    case Include(file) =>
      if Active(levels) && |stack| < MAX_INCLUDE && file.name !in stack {
        PiecesAgree(file.pieces, stack + [file.name], 0, true, levels);
      }
    case _ =>
  }

  lemma {:induction false} PiecesAgree(ps: seq<Piece>, stack: seq<CString>, line: nat, starts: bool, levels: seq<Level>)
    requires stack != []
    ensures Agrees(RunPieces(ps, stack, line, starts, levels), Met(ps, stack, line, starts, levels),
                   Stops(ps, stack, line, starts, levels), levels)
    decreases ps
  {
    hide Run, RunPiece, MetIn, StopsIn, TextsOf;
    if ps == [] {
      TextsOfNothing();
      RunNothing(levels);
    } else {
      var now := if starts then line + 1 else line;
      var o, met := RunPiece(ps[0], stack, now, levels), MetIn(ps[0], stack, now, levels);
      PieceAgrees(ps[0], stack, now, levels);
      if o.ok {
        PiecesAgree(ps[1..], stack, now, ps[0].ended, o.levels);
        RunJoin(met, Met(ps[1..], stack, now, ps[0].ended, o.levels), levels);
        TextsJoin(o.trace, RunPieces(ps[1..], stack, now, ps[0].ended, o.levels).trace);
      } else {
        assert met + [] == met;
      }
    }
  }

  lemma RunNothing(levels: seq<Level>)
    ensures Run([], levels) == Some(([], levels))
  {
  }

  lemma {:induction false} TextsJoin(a: seq<Emission>, b: seq<Emission>)
    ensures TextsOf(a + b) == TextsOf(a) + TextsOf(b)
    decreases |a|
  {
    if a == [] {
      assert a + b == b;
    } else {
      assert (a + b)[0] == a[0] && (a + b)[1..] == a[1..] + b;
      TextsJoin(a[1..], b);
    }
  }

  /** A file that is read to its end, with all the files it names, is nested blocks, and what has
      been passed on is what they mean. It is read to its end exactly when nothing stops it and
      its lines are those of blocks. */
  lemma FileIsBlocks(f: File)
    ensures var o, met := RunFile(f, [], []), MetInFile(f, [], []);
            && (o.ok <==> !StopsInFile(f, [], []) && exists bs :: AreLinesOf(met, bs))
            && (o.ok ==> forall bs :: AreLinesOf(met, bs) ==> TextsOf(o.trace) == MeaningAll(bs))
  {
    hide Run, RunPieces, Met, Stops;
    PiecesAgree(f.pieces, [] + [f.name], 0, true, []);
    assert MetInFile(f, [], []) == Met(f.pieces, [] + [f.name], 0, true, []);
    assert StopsInFile(f, [], []) == Stops(f.pieces, [] + [f.name], 0, true, []);
    AcceptedExactlyBlocks(MetInFile(f, [], []));
  }

  // ---------- where text was read ----------

  /** How many lines have ended before piece `k`. */
  function EndedBefore(ps: seq<Piece>, k: nat): nat
    requires k <= |ps|
  {
    if k == 0 then 0 else EndedBefore(ps, k - 1) + (if ps[k - 1].ended then 1 else 0)
  }

  /** What piece `k` of a file passes on if it is words. */
  function WordsAt(f: File, k: nat): Emission
    requires k < |f.pieces| && f.pieces[k].content.Words?
  {
    var p := f.pieces[k];
    Emission(if p.ended then p.content.expanded else p.content.expanded + [NEWLINE], f.name, 1 + EndedBefore(f.pieces, k))
  }

  /** The text was read from a file or from one that is named in it: it is that of words there, with
      the name of that file, and for its line one more than there are lines that ended before. */
  predicate ComesFrom(f: File, e: Emission)
    decreases f
  {
    exists k :: 0 <= k < |f.pieces| && ComesFromPiece(f, k, f.pieces[k].content, e)
  }

  predicate ComesFromPiece(f: File, k: nat, content: Content, e: Emission)
    requires k < |f.pieces| && f.pieces[k].content == content
    decreases content
  {
    match content
    case Words(_) => e == WordsAt(f, k)
    case Include(g) => ComesFrom(g, e)
    case _ => false
  }

  /** All that a file and those it names could pass on from piece `k` on, in the order in which it
      is read. */
  function Sources(f: File, k: nat): seq<Emission>
    requires k <= |f.pieces|
    decreases f, |f.pieces| - k
  {
    if k == |f.pieces| then [] else SourcesAt(f, k) + Sources(f, k + 1)
  }

  function SourcesAt(f: File, k: nat): seq<Emission>
    requires k < |f.pieces|
    decreases f, |f.pieces| - k, 0
  {
    match f.pieces[k].content
    case Words(_) => [WordsAt(f, k)]
    case Include(g) => Sources(g, 0)
    case _ => []
  }

  lemma {:induction false} SourcesComeFrom(f: File, k: nat, e: Emission)
    requires k <= |f.pieces|
    ensures e in Sources(f, k) <==> exists i :: k <= i < |f.pieces| && ComesFromPiece(f, i, f.pieces[i].content, e)
    decreases f, |f.pieces| - k
  {
    hide ComesFromPiece, SourcesAt;
    if k < |f.pieces| {
      SourceIs(f, k, e);
      SourcesComeFrom(f, k + 1, e);
    }
  }

  lemma {:induction false} SourceIs(f: File, k: nat, e: Emission)
    requires k < |f.pieces|
    ensures e in SourcesAt(f, k) <==> ComesFromPiece(f, k, f.pieces[k].content, e)
    decreases f, |f.pieces| - k, 0
  {
    hide Sources;
    match f.pieces[k].content
    case Include(g) =>
      SourcesComeFrom(g, 0, e);
      ComesFromIs(g, e);
    case _ =>
  }

  lemma ComesFromIs(f: File, e: Emission)
    ensures ComesFrom(f, e) <==> exists k :: 0 <= k < |f.pieces| && ComesFromPiece(f, k, f.pieces[k].content, e)
  {
    hide ComesFromPiece;
  }

  /** All of `a` is in `b`, in the same order. */
  predicate Among(a: seq<Emission>, b: seq<Emission>) {
    a == [] || (b != [] && ((a[0] == b[0] && Among(a[1..], b[1..])) || Among(a, b[1..])))
  }

  lemma {:induction false} AmongItself(a: seq<Emission>)
    ensures Among(a, a)
  {
    if a != [] {
      AmongItself(a[1..]);
    }
  }

  lemma {:induction false} AmongBoth(a: seq<Emission>, b: seq<Emission>, c: seq<Emission>, d: seq<Emission>)
    requires Among(a, b) && Among(c, d)
    ensures Among(a + c, b + d)
    decreases |b|
  {
    if b == [] {
      assert a + c == c && b + d == d;
    } else {
      assert (b + d)[0] == b[0] && (b + d)[1..] == b[1..] + d;
      if a != [] && a[0] == b[0] && Among(a[1..], b[1..]) {
        AmongBoth(a[1..], b[1..], c, d);
        assert (a + c)[0] == a[0] && (a + c)[1..] == a[1..] + c;
      } else {
        AmongBoth(a, b[1..], c, d);
      }
    }
  }

  lemma {:induction false} AmongIsIn(a: seq<Emission>, b: seq<Emission>, e: Emission)
    requires Among(a, b) && e in a
    ensures e in b
    decreases |b|
  {
    if a[0] == b[0] && Among(a[1..], b[1..]) {
      assert a == [a[0]] + a[1..];
      if e in a[1..] {
        AmongIsIn(a[1..], b[1..], e);
      }
    } else {
      AmongIsIn(a, b[1..], e);
    }
  }

  /** What has been passed on of a file and those that it names was read there, in that order. */
  lemma {:induction false} RunIsRead(f: File, stack: seq<CString>, levels: seq<Level>)
    ensures Among(RunFile(f, stack, levels).trace, Sources(f, 0))
    decreases f, |f.pieces| + 1
  {
    hide Among, RunPieces, Sources;
    if |stack| >= MAX_INCLUDE || f.name in stack {
      NoneIsAmong(Sources(f, 0));
    } else {
      assert f.pieces[0..] == f.pieces;
      PiecesAreRead(f, 0, stack + [f.name], 0, true, levels);
    }
  }

  lemma NoneIsAmong(b: seq<Emission>)
    ensures Among([], b)
  {
  }

  lemma {:induction false} PiecesAreRead(f: File, k: nat, stack: seq<CString>, line: nat, starts: bool, levels: seq<Level>)
    requires k <= |f.pieces| && stack != [] && stack[|stack| - 1] == f.name
    requires (if starts then line + 1 else line) == 1 + EndedBefore(f.pieces, k)
    ensures Among(RunPieces(f.pieces[k..], stack, line, starts, levels).trace, Sources(f, k))
    decreases f, |f.pieces| - k
  {
    hide Among, RunPiece, SourcesAt;
    NoneIsAmong(Sources(f, k));
    if k < |f.pieces| {
      var now := if starts then line + 1 else line;
      var p, rest := f.pieces[k], f.pieces[k..];
      assert rest[0] == p && rest[1..] == f.pieces[k + 1..];
      var o := RunPiece(p, stack, now, levels);
      PieceIsRead(f, k, stack, now, levels);
      if o.ok {
        PiecesAreRead(f, k + 1, stack, now, p.ended, o.levels);
        AmongBoth(o.trace, SourcesAt(f, k), RunPieces(rest[1..], stack, now, p.ended, o.levels).trace, Sources(f, k + 1));
      } else {
        NoneIsAmong(Sources(f, k + 1));
        AmongBoth(o.trace, SourcesAt(f, k), [], Sources(f, k + 1));
        assert o.trace + [] == o.trace;
      }
    }
  }

  lemma {:induction false} PieceIsRead(f: File, k: nat, stack: seq<CString>, line: nat, levels: seq<Level>)
    requires k < |f.pieces| && stack != [] && stack[|stack| - 1] == f.name && line == 1 + EndedBefore(f.pieces, k)
    ensures Among(RunPiece(f.pieces[k], stack, line, levels).trace, SourcesAt(f, k))
    decreases f, |f.pieces| - k, 0
  {
    hide Among, RunFile, Sources, EndedBefore;
    NoneIsAmong(SourcesAt(f, k));
    match f.pieces[k].content
    case Words(_) => AmongItself([WordsAt(f, k)]);
    case Include(g) => RunIsRead(g, stack, levels);
    case _ =>
  }

  /** Every text that is passed on comes from where its file and its line say. */
  lemma AllComeFrom(f: File, stack: seq<CString>, levels: seq<Level>)
    ensures forall e :: e in RunFile(f, stack, levels).trace ==> ComesFrom(f, e)
  {
    hide RunFile, Sources, Among, ComesFromPiece;
    RunIsRead(f, stack, levels);
    forall e | e in RunFile(f, stack, levels).trace ensures ComesFrom(f, e) {
      AmongIsIn(RunFile(f, stack, levels).trace, Sources(f, 0), e);
      SourcesComeFrom(f, 0, e);
    }
  }

  // ---------- the preprocessor itself ----------

  function EntriesOf(files: seq<CString>, lineFiles: seq<nat>, lineNumbers: seq<nat>): (r: seq<Origin>)
    requires |lineFiles| == |lineNumbers| && forall i :: 0 <= i < |lineFiles| ==> lineFiles[i] < |files|
    ensures |r| == |lineFiles|
    ensures forall i :: 0 <= i < |r| ==> r[i] == (files[lineFiles[i]], lineNumbers[i])
  {
    seq(|lineFiles|, i requires 0 <= i < |lineFiles| => (files[lineFiles[i]], lineNumbers[i]))
  }

  lemma EntriesGrow(files: seq<CString>, lineFiles: seq<nat>, lineNumbers: seq<nat>, index: nat, line: nat)
    requires |lineFiles| == |lineNumbers| && (forall i :: 0 <= i < |lineFiles| ==> lineFiles[i] < |files|) && index < |files|
    ensures EntriesOf(files, lineFiles + [index], lineNumbers + [line]) == EntriesOf(files, lineFiles, lineNumbers) + [(files[index], line)]
  {
  }

  lemma SameMore(o: Origin, n: nat)
    ensures Same(o, n + 1) == Same(o, n) + [o]
  {
  }

  lemma NoNewlines()
    ensures Newlines([]) == 0
  {
  }

  lemma NewlinesMore(output: seq<Byte>, first: nat, at: nat)
    requires first <= at < |output|
    ensures Newlines(output[first..at + 1]) == Newlines(output[first..at]) + (if output[at] == NEWLINE then 1 else 0)
  {
    var done := output[first..at];
    assert output[first..at + 1] == done + [output[at]];
    assert (done + [output[at]])[..|done|] == done;
  }

  function LevelsOf(active: seq<bool>, taken: seq<bool>, seenElse: seq<bool>): (r: seq<Level>)
    requires |active| == |taken| == |seenElse|
    ensures |r| == |active| && forall i :: 0 <= i < |r| ==> r[i] == Level(active[i], taken[i], seenElse[i])
  {
    seq(|active|, i requires 0 <= i < |active| => Level(active[i], taken[i], seenElse[i]))
  }

  class Preprocessor {
    const active: array<bool>
    const taken: array<bool>
    const seenElse: array<bool>
    var depth: nat
    var currentActive: bool

    var output: seq<Byte>
    var mapLength: nat
    var files: seq<CString>
    var lineFiles: seq<nat>
    var lineNumbers: seq<nat>

    var stack: seq<CString>
    var currentLine: nat

    /** All that has been passed on. */
    ghost var history: seq<Emission>

    constructor ()
      ensures Valid() && Levels() == [] && history == [] && stack == [] && currentLine == 0
      ensures fresh(active) && fresh(taken) && fresh(seenElse)
    {
      active := new bool[MAX_DEPTH](_ => false);
      taken := new bool[MAX_DEPTH](_ => false);
      seenElse := new bool[MAX_DEPTH](_ => false);
      depth, currentActive := 0, true;
      output, mapLength, files, lineFiles, lineNumbers := [], 0, [], [], [];
      stack, currentLine := [], 0;
      history := [];
    }

    // ---------- conditionals ----------

    ghost predicate LevelsOk()
      reads `depth, `currentActive, active, taken, seenElse
    {
      && active.Length == taken.Length == seenElse.Length == MAX_DEPTH && depth <= MAX_DEPTH
      && active != taken && active != seenElse && taken != seenElse
      && currentActive == Active(Levels())
    }

    ghost function Levels(): (r: seq<Level>)
      requires depth <= active.Length && depth <= taken.Length && depth <= seenElse.Length
      reads `depth, active, taken, seenElse
      ensures |r| == depth
    {
      LevelsOf(active[..depth], taken[..depth], seenElse[..depth])
    }

    method Push(cond: bool) returns (ok: bool)
      requires LevelsOk()
      modifies `depth, `currentActive, active, taken, seenElse
      ensures LevelsOk()
      ensures ok == Step(old(Levels()), If(cond)).Some?
      ensures Levels() == if ok then Step(old(Levels()), If(cond)).value else old(Levels())
    {
      if depth >= MAX_DEPTH {
        return false;
      }
      var parent := currentActive;
      active[depth] := parent && cond;
      seenElse[depth] := false;
      taken[depth] := active[depth];
      depth := depth + 1;
      currentActive := active[depth - 1];
      return true;
    }

    method OtherBranch(cond: bool) returns (ok: bool)
      requires LevelsOk()
      modifies `currentActive, active, taken
      ensures LevelsOk()
      ensures ok == Step(old(Levels()), Elif(cond)).Some?
      ensures Levels() == if ok then Step(old(Levels()), Elif(cond)).value else old(Levels())
    {
      if depth == 0 || seenElse[depth - 1] {
        return false;
      }
      var index := depth - 1;
      var parent := if index == 0 then true else active[index - 1];
      ghost var before := Levels();
      active[index] := parent && !taken[index] && cond;
      if active[index] {
        taken[index] := true;
      }
      currentActive := active[index];
      ghost var outer := before[..index];
      assert parent == Active(outer);
      assert Levels() == outer + [Level(active[index], taken[index], false)];
      return true;
    }

    method LastBranch() returns (ok: bool)
      requires LevelsOk()
      modifies `currentActive, active, taken, seenElse
      ensures LevelsOk()
      ensures ok == Step(old(Levels()), Else).Some?
      ensures Levels() == if ok then Step(old(Levels()), Else).value else old(Levels())
    {
      if depth == 0 || seenElse[depth - 1] {
        return false;
      }
      var index := depth - 1;
      seenElse[index] := true;
      var parent := if index == 0 then true else active[index - 1];
      ghost var outer := old(Levels())[..index];
      active[index] := parent && !taken[index];
      taken[index] := true;
      currentActive := active[index];
      assert parent == Active(outer);
      assert Levels() == outer + [Level(active[index], true, true)];
      return true;
    }

    method Pop() returns (ok: bool)
      requires LevelsOk()
      modifies `depth, `currentActive
      ensures LevelsOk()
      ensures ok == Step(old(Levels()), Endif).Some?
      ensures Levels() == if ok then Step(old(Levels()), Endif).value else old(Levels())
    {
      if depth == 0 {
        return false;
      }
      depth := depth - 1;
      currentActive := if depth == 0 then true else active[depth - 1];
      assert Levels() == old(Levels())[..depth];
      return true;
    }

    // ---------- the line map ----------

    ghost predicate MapOk()
      reads `output, `mapLength, `files, `lineFiles, `lineNumbers
    {
      && mapLength <= |output| && |lineFiles| == |lineNumbers|
      && forall i :: 0 <= i < |lineFiles| ==> lineFiles[i] < |files|
    }

    /** What the map says: for each line of the output, a file and a line. */
    ghost function Entries(): (r: seq<Origin>)
      requires MapOk()
      reads `output, `mapLength, `files, `lineFiles, `lineNumbers
      ensures |r| == |lineFiles|
    {
      EntriesOf(files, lineFiles, lineNumbers)
    }

    /** The output and the map are those of what has been passed on. */
    ghost predicate Valid()
      reads this, active, taken, seenElse
    {
      && LevelsOk() && MapOk() && mapLength == |output|
      && output == Texts(history) && Entries() == Origins(history)
    }

    /** Records where each line of the output came from that has been completed since. */
    method MapFlush()
      requires MapOk()
      modifies `mapLength, `files, `lineFiles, `lineNumbers
      ensures MapOk() && mapLength == |output|
      ensures Entries() == old(Entries()) + Same((Current(stack), currentLine), Newlines(output[old(mapLength)..]))
    {
      hide Newlines, EntriesOf;
      NoNewlines();
      if mapLength >= |output| {
        assert output[mapLength..] == [];
        return;
      }
      var file: CString := if |stack| > 0 then stack[|stack| - 1] else STDIN;
      var index := FileIndex(file);
      ghost var first, before := mapLength, Entries();
      assert output[first..first] == [];
      while mapLength < |output|
        invariant first <= mapLength <= |output| && MapOk() && index < |files| && files[index] == file
        invariant Entries() == before + Same((file, currentLine), Newlines(output[first..mapLength]))
      {
        NewlinesMore(output, first, mapLength);
        if output[mapLength] == NEWLINE {
          EntriesGrow(files, lineFiles, lineNumbers, index, currentLine);
          SameMore((file, currentLine), Newlines(output[first..mapLength]));
          lineFiles := lineFiles + [index];
          lineNumbers := lineNumbers + [currentLine];
        }
        mapLength := mapLength + 1;
      }
      assert output[first..mapLength] == output[first..];
    }

    /** The place of a file among those of the map, added if it is new. */
    method FileIndex(file: CString) returns (index: nat)
      requires MapOk()
      modifies `files
      ensures MapOk() && index < |files| && files[index] == file && Entries() == old(Entries())
    {
      index := 0;
      while index < |files|
        invariant 0 <= index <= |files|
      {
        if files[index] == file {
          return;
        }
        index := index + 1;
      }
      files := files + [file];
    }

    /** Where line `n` of the output came from; one past the last is taken for the last. */
    method Locate(n: int) returns (r: Option<Origin>)
      requires Valid()
      ensures |Origins(history)| == Newlines(output)
      ensures 1 <= n <= Newlines(output) ==> r == Some(Origins(history)[n - 1])
      ensures n == Newlines(output) + 1 && n > 1 ==> r == Some(Origins(history)[n - 2])
      ensures n < 1 || n > Newlines(output) + 1 || Newlines(output) == 0 ==> r == None
    {
      hide Origins, Texts, Newlines;
      OneOriginEach(history);
      if n < 1 || |lineFiles| == 0 {
        return None;
      }
      var index := n - 1;
      if index >= |lineFiles| {
        if index > |lineFiles| {
          return None;
        }
        index := |lineFiles| - 1;
      }
      return Some((files[lineFiles[index]], lineNumbers[index]));
    }

    // ---------- lines and files ----------

    /** One piece of a file, read as the current line of the file on top of the stack. */
    method ProcessPiece(p: Piece) returns (ok: bool)
      requires Valid()
      modifies this, active, taken, seenElse
      ensures Valid() && stack == old(stack) && currentLine == old(currentLine)
      ensures var o := RunPiece(p, old(stack), old(currentLine), old(Levels()));
              ok == o.ok && (ok ==> Levels() == o.levels) && history == old(history) + o.trace
      decreases p, 1
    {
      hide RunFile, Step, EntriesOf;
      if p.content.Words? {
        ok := true;
        if currentActive {
          PassOn(if p.ended then p.content.expanded else p.content.expanded + [NEWLINE]);
        }
      } else if p.content.Directive? {
        ok := Condition(p.content.line);
      } else if p.content.Include? {
        ok := true;
        if currentActive {
          ok := ProcessFile(p.content.file);
        }
      } else {
        ok := p.content.Nothing?;
      }
    }

    /** Text goes to the output, and the map learns where it came from. */
    method PassOn(text: seq<Byte>)
      requires Valid()
      modifies `output, `mapLength, `files, `lineFiles, `lineNumbers, `history
      ensures Valid() && history == old(history) + [Emission(text, Current(stack), currentLine)]
    {
      hide EntriesOf, LevelsOk, Newlines, Texts, Origins;
      OneMore(history, Emission(text, Current(stack), currentLine));
      output := output + text;
      MapFlush();
      history := history + [Emission(text, Current(stack), currentLine)];
    }

    method Condition(line: Line) returns (ok: bool)
      requires Valid()
      modifies `depth, `currentActive, active, taken, seenElse
      ensures Valid() && ok == Step(old(Levels()), line).Some?
      ensures ok ==> Levels() == Step(old(Levels()), line).value
    {
      match line {
        case If(cond) => ok := Push(cond);
        case Elif(cond) => ok := OtherBranch(cond);
        case Else => ok := LastBranch();
        case Endif => ok := Pop();
        case Text(_) => ok := true;
      }
    }

    /** A file: its lines are numbered from one, whatever line of another file names it. */
    method ProcessFile(f: File) returns (ok: bool)
      requires Valid()
      modifies this, active, taken, seenElse
      ensures Valid() && stack == old(stack) && currentLine == old(currentLine)
      ensures var o := RunFile(f, old(stack), old(Levels()));
              ok == o.ok && (ok ==> Levels() == o.levels) && history == old(history) + o.trace
      ensures forall k :: |old(history)| <= k < |history| ==> ComesFrom(f, history[k])
      decreases f, 1
    {
      hide EntriesOf, RunPieces, ComesFrom;
      AllComeFrom(f, stack, Levels());
      var saved := currentLine;
      currentLine := 0;
      if |stack| >= MAX_INCLUDE || f.name in stack {
        currentLine := saved;
        return false;
      }
      ghost var outer := stack;
      stack := stack + [f.name];
      ok := ProcessPieces(f);
      if ok && depth != 0 && |stack| == 1 {
        ok := false;
      }
      stack := stack[..|stack| - 1];
      assert stack == outer;
      currentLine := saved;
    }

    method ProcessPieces(f: File) returns (ok: bool)
      requires Valid() && currentLine == 0
      modifies this, active, taken, seenElse
      ensures Valid() && stack == old(stack)
      ensures var o := RunPieces(f.pieces, old(stack), 0, true, old(Levels()));
              ok == o.ok && (ok ==> Levels() == o.levels) && history == old(history) + o.trace
      decreases f, 0
    {
      hide EntriesOf, LevelsOf, Active, RunPiece, RunPieces, Then, Texts, Origins, MapOk;
      var starts, k := true, 0;
      ghost var all, done := RunPieces(f.pieces, stack, 0, true, Levels()), [];
      assert f.pieces[0..] == f.pieces;
      ThenNothing(all);
      while k < |f.pieces|
        invariant 0 <= k <= |f.pieces| && Valid() && stack == old(stack) && history == old(history) + done
        invariant all == Then(done, RunPieces(f.pieces[k..], stack, currentLine, starts, Levels()))
      {
        var p := f.pieces[k];
        OnePiece(f.pieces, k, stack, currentLine, starts, Levels(), done);
        if starts {
          currentLine := currentLine + 1;
        }
        starts := p.ended;
        ghost var o := RunPiece(p, stack, currentLine, Levels());
        SeqAssoc(old(history), done, o.trace);
        ok := ProcessPiece(p);
        done := done + o.trace;
        if !ok {
          return;
        }
        k := k + 1;
      }
      NoPieces(f.pieces[k..], stack, currentLine, starts, Levels(), done);
      ok := true;
    }

    /** A line that is not of a file, such as one that has been typed: these are numbered too. */
    method ProcessLine(p: Piece) returns (ok: bool)
      requires Valid() && stack == []
      modifies this, active, taken, seenElse
      ensures Valid() && stack == [] && currentLine == old(currentLine) + 1
      ensures var o := RunPiece(p, [], old(currentLine) + 1, old(Levels()));
              ok == o.ok && (ok ==> Levels() == o.levels) && history == old(history) + o.trace
      ensures p.content.Words? ==>
        var text := if p.ended then p.content.expanded else p.content.expanded + [NEWLINE];
        history == old(history) + if Active(old(Levels())) then [Emission(text, STDIN, old(currentLine) + 1)] else []
    {
      hide EntriesOf, RunFile, Step, LevelsOf;
      currentLine := currentLine + 1;
      ok := ProcessPiece(p);
    }
  }
}
