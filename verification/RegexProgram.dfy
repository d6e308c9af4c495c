/** Compiled patterns: the instructions, what each of them accepts, and the paths of a
    program over a text. Jumps are relative to the instruction that makes them. */
module RegexProgram {
  import opened Common
  import opened Utf8

  datatype Inst =
    | Char(c: nat)
    | CharI(c: nat)
    | Any
    | AnyNl
    | Class(first: nat, count: nat, negated: bool)
    | ClassI(first: nat, count: nat, negated: bool)
    | Split(x: int, y: int)
    | Jmp(x: int)
    | Save(slot: nat)
    | Bol
    | Eol
    | MBol
    | MEol
    | WordB
    | NWordB
    | Match

  datatype Range = Range(low: nat, high: nat)

  datatype Program = Program(code: seq<Inst>, ranges: seq<Range>, slots: nat)

  const NEWLINE: nat := 10

  function Lower(c: nat): nat {
    if 'A' as int <= c <= 'Z' as int then c + 32 else c
  }

  predicate IsWord(c: nat) {
    || '0' as int <= c <= '9' as int
    || 'A' as int <= c <= 'Z' as int
    || 'a' as int <= c <= 'z' as int
    || c == '_' as int
  }

  predicate InRange(r: Range, c: nat) {
    r.low <= c <= r.high
  }

  predicate InRanges(ranges: seq<Range>, c: nat) {
    exists i :: 0 <= i < |ranges| && InRange(ranges[i], c)
  }

  /** A character of a class, or one that is after its case is folded. */
  predicate InRangesI(ranges: seq<Range>, c: nat) {
    || InRanges(ranges, c)
    || ('a' as int <= c <= 'z' as int && InRanges(ranges, c - 32))
    || ('A' as int <= c <= 'Z' as int && InRanges(ranges, c + 32))
  }

  predicate Consuming(inst: Inst) {
    inst.Char? || inst.CharI? || inst.Any? || inst.AnyNl? || inst.Class? || inst.ClassI?
  }

  predicate Assertion(inst: Inst) {
    inst.Bol? || inst.Eol? || inst.MBol? || inst.MEol? || inst.WordB? || inst.NWordB?
  }

  /** The ranges of a class are in a table of so many. */
  predicate InTableOf(inst: Inst, table: nat) {
    inst.Class? || inst.ClassI? ==> inst.first + inst.count <= table
  }

  /** Whether a consuming instruction takes the character `c`. */
  predicate Takes(inst: Inst, ranges: seq<Range>, c: nat)
    requires InTableOf(inst, |ranges|)
  {
    match inst
    case Char(x) => c == x
    case CharI(x) => Lower(c) == x
    case Any => c != NEWLINE
    case AnyNl => true
    case Class(first, count, negated) => InRanges(ranges[first..first + count], c) != negated
    case ClassI(first, count, negated) => InRangesI(ranges[first..first + count], c) != negated
    case _ => false
  }

  predicate WordAt(text: seq<Byte>, at: int) {
    0 <= at < |text| && IsWord(text[at])
  }

  /** Whether an assertion holds between two characters. */
  predicate Holds(inst: Inst, text: seq<Byte>, at: nat)
    requires at <= |text|
  {
    match inst
    case Bol => at == 0
    case Eol => at == |text|
    case MBol => at == 0 || text[at - 1] == NEWLINE
    case MEol => at == |text| || text[at] == NEWLINE
    case WordB => WordAt(text, at - 1) != WordAt(text, at)
    case NWordB => WordAt(text, at - 1) == WordAt(text, at)
    case _ => false
  }

  predicate InstOk(inst: Inst, pc: nat, length: nat, slots: nat, table: nat) {
    InTableOf(inst, table) &&
    match inst
    case Match => true
    case Jmp(x) => 0 <= pc + x < length
    case Split(x, y) => 0 <= pc + x < length && 0 <= pc + y < length
    case Save(slot) => 2 <= slot < slots && pc + 1 < length
    case _ => pc + 1 < length
  }

  /** Every jump lands inside the program, every slot exists, and the ranges of every class are in
      the table. */
  predicate Valid(p: Program) {
    && |p.code| > 0
    && p.slots >= 2
    && forall pc :: 0 <= pc < |p.code| ==> InstOk(p.code[pc], pc, |p.code|, p.slots, |p.ranges|)
  }

  /** A place in the program at a place in the text. */
  datatype Config = Config(pc: nat, at: nat)

  predicate InBounds(p: Program, text: seq<Byte>, c: Config) {
    c.pc < |p.code| && c.at <= |text|
  }

  predicate IsMatch(p: Program, c: Config) {
    c.pc < |p.code| && p.code[c.pc].Match?
  }

  /** Where a configuration leads, the preferred way first. */
  function Next(p: Program, text: seq<Byte>, c: Config): (n: seq<Config>)
    requires Valid(p) && InBounds(p, text, c)
    ensures forall i :: 0 <= i < |n| ==> InBounds(p, text, n[i]) && c.at <= n[i].at
    ensures |n| <= 2
  {
    var inst := p.code[c.pc];
    if inst.Match? then []
    else if inst.Jmp? then [Config(c.pc + inst.x, c.at)]
    else if inst.Split? then [Config(c.pc + inst.x, c.at), Config(c.pc + inst.y, c.at)]
    else if inst.Save? then [Config(c.pc + 1, c.at)]
    else if Assertion(inst) then
      if Holds(inst, text, c.at) then [Config(c.pc + 1, c.at)] else []
    else if c.at < |text| && Takes(inst, p.ranges, Decode(text, c.at).c) then
      [Config(c.pc + 1, c.at + Decode(text, c.at).size)]
    else
      []
  }

  /** `trace` goes step by step from `from` to `to`. */
  ghost predicate IsPath(p: Program, text: seq<Byte>, from: Config, to: Config, trace: seq<Config>)
    requires Valid(p)
  {
    && |trace| > 0 && trace[0] == from && trace[|trace| - 1] == to
    && (forall i :: 0 <= i < |trace| ==> InBounds(p, text, trace[i]))
    && (forall i :: 0 <= i < |trace| - 1 ==> trace[i + 1] in Next(p, text, trace[i]))
  }

  ghost predicate Reaches(p: Program, text: seq<Byte>, from: Config, to: Config)
    requires Valid(p)
  {
    exists trace :: IsPath(p, text, from, to, trace)
  }

  /** The program matches the text from `start` to `end`. */
  ghost predicate Accepts(p: Program, text: seq<Byte>, start: nat, end: nat)
    requires Valid(p)
  {
    exists pc :: IsMatch(p, Config(pc, end)) && Reaches(p, text, Config(0, start), Config(pc, end))
  }

  /** The positions at which a search beginning at `from` may start a match. */
  function Starts(text: seq<Byte>, from: nat): (s: seq<nat>)
    requires from <= |text|
    ensures |s| > 0 && s[0] == from
    ensures forall i :: 0 <= i < |s| ==> from <= s[i] <= |text|
    ensures forall i, j :: 0 <= i < j < |s| ==> s[i] < s[j]
    decreases |text| - from
  {
    if from == |text| then [from] else [from] + Starts(text, from + Decode(text, from).size)
  }
}
