/** The search as it is carried out: thread lists, an explicit stack whose entries either
    follow a way or put a capture slot back, and marks that a generation number clears. */
module RegexVm {
  import opened Common
  import opened Utf8
  import opened RegexProgram
  import opened RegexBacktrack
  import opened RegexPike

  const MAX_CODE := 4096
  const MAX_RANGES := 4096

  /** `slot < 0`: follow `pc`; otherwise: put `value` back into `slot`. */
  datatype Entry = Entry(pc: nat, slot: int, value: int)

  /** The threads a stack stands for, its last entry first. */
  ghost function Pending(stack: seq<Entry>, saves: seq<int>, at: nat): seq<Thread> {
    if stack == [] then []
    else
      var e, below := stack[|stack| - 1], stack[..|stack| - 1];
      if 0 <= e.slot < |saves| then Pending(below, saves[e.slot := e.value], at)
      else [Thread(Config(e.pc, at), saves)] + Pending(below, saves, at)
  }

  /** The slots once everything on the stack has been put back. */
  ghost function Restored(stack: seq<Entry>, saves: seq<int>): (r: seq<int>)
    ensures |r| == |saves|
  {
    if stack == [] then saves
    else
      var e, below := stack[|stack| - 1], stack[..|stack| - 1];
      if 0 <= e.slot < |saves| then Restored(below, saves[e.slot := e.value]) else Restored(below, saves)
  }

  predicate EntriesOk(stack: seq<Entry>, length: nat, slots: nat) {
    forall i :: 0 <= i < |stack| ==> stack[i].pc < length && stack[i].slot < slots
  }

  lemma {:induction false} PendingOk(p: Program, text: seq<Byte>, stack: seq<Entry>, saves: seq<int>, at: nat)
    requires Valid(p) && at <= |text| && |saves| == p.slots && EntriesOk(stack, |p.code|, p.slots)
    ensures ThreadsOk(p, text, Pending(stack, saves, at))
  {
    if stack != [] {
      var e, below := stack[|stack| - 1], stack[..|stack| - 1];
      if 0 <= e.slot < |saves| {
        PendingOk(p, text, below, saves[e.slot := e.value], at);
      } else {
        PendingOk(p, text, below, saves, at);
      }
    }
  }

  lemma PendingPush(stack: seq<Entry>, pc: nat, saves: seq<int>, at: nat)
    ensures Pending(stack + [Entry(pc, -1, 0)], saves, at) == [Thread(Config(pc, at), saves)] + Pending(stack, saves, at)
    ensures Restored(stack + [Entry(pc, -1, 0)], saves) == Restored(stack, saves)
  {
    assert (stack + [Entry(pc, -1, 0)])[..|stack|] == stack;
  }

  /** What an instruction that takes no character leaves on the stack. */
  ghost function Pushed(p: Program, text: seq<Byte>, t: Thread): (es: seq<Entry>)
    requires Valid(p) && ThreadOk(p, text, t)
    ensures |es| <= 2 && EntriesOk(es, |p.code|, p.slots)
  {
    var pc, inst := t.config.pc, p.code[t.config.pc];
    if inst.Jmp? then [Entry(pc + inst.x, -1, 0)]
    else if inst.Split? then [Entry(pc + inst.y, -1, 0), Entry(pc + inst.x, -1, 0)]
    else if inst.Save? then [Entry(0, inst.slot, t.saves[inst.slot]), Entry(pc + 1, -1, 0)]
    else if Assertion(inst) && Holds(inst, text, t.config.at) then [Entry(pc + 1, -1, 0)]
    else []
  }

  /** What undoes a save puts the slot back for what is under it. */
  lemma UndoPending(below: seq<Entry>, slot: nat, saves: seq<int>, value: int, at: nat)
    requires slot < |saves|
    ensures Pending(below + [Entry(0, slot, saves[slot])], saves[slot := value], at) == Pending(below, saves, at)
    ensures Restored(below + [Entry(0, slot, saves[slot])], saves[slot := value]) == Restored(below, saves)
  {
    assert (below + [Entry(0, slot, saves[slot])])[..|below|] == below;
    assert saves[slot := value][slot := saves[slot]] == saves;
  }

  lemma ForkPending(below: seq<Entry>, first: nat, second: nat, saves: seq<int>, at: nat)
    ensures Pending(below + [Entry(second, -1, 0), Entry(first, -1, 0)], saves, at) ==
            [Thread(Config(first, at), saves), Thread(Config(second, at), saves)] + Pending(below, saves, at)
    ensures Restored(below + [Entry(second, -1, 0), Entry(first, -1, 0)], saves) == Restored(below, saves)
  {
    hide Pending, Restored;
    var under := below + [Entry(second, -1, 0)];
    assert below + [Entry(second, -1, 0), Entry(first, -1, 0)] == under + [Entry(first, -1, 0)];
    PendingPush(under, first, saves, at);
    PendingPush(below, second, saves, at);
  }

  lemma SavePending(below: seq<Entry>, slot: nat, pc: nat, saves: seq<int>, at: nat)
    requires slot < |saves|
    ensures Pending(below + [Entry(0, slot, saves[slot]), Entry(pc, -1, 0)], saves[slot := at], at) ==
            [Thread(Config(pc, at), saves[slot := at])] + Pending(below, saves, at)
    ensures Restored(below + [Entry(0, slot, saves[slot]), Entry(pc, -1, 0)], saves[slot := at]) == Restored(below, saves)
  {
    hide Pending, Restored;
    var under := below + [Entry(0, slot, saves[slot])];
    assert below + [Entry(0, slot, saves[slot]), Entry(pc, -1, 0)] == under + [Entry(pc, -1, 0)];
    PendingPush(under, pc, saves[slot := at], at);
    UndoPending(below, slot, saves, at, at);
  }

  /** The ways on from an instruction that takes no character. */
  lemma WaysOn(p: Program, text: seq<Byte>, t: Thread)
    requires Valid(p) && ThreadOk(p, text, t) && !IsLeaf(p, t)
    ensures var inst, pc, saves := p.code[t.config.pc], t.config.pc, SavesAfter(p, t);
            if inst.Split? then
              && pc + inst.x >= 0 && pc + inst.y >= 0 && saves == t.saves
              && After(p, text, t) == [Thread(Config(pc + inst.x, t.config.at), saves), Thread(Config(pc + inst.y, t.config.at), saves)]
            else if inst.Save? then
              && inst.slot < |t.saves| && saves == t.saves[inst.slot := t.config.at]
              && After(p, text, t) == [Thread(Config(pc + 1, t.config.at), saves)]
            else
              && saves == t.saves && |Pushed(p, text, t)| <= 1
              && (Pushed(p, text, t) == [] ==> After(p, text, t) == [])
              && (Pushed(p, text, t) != [] ==>
                    var e := Pushed(p, text, t)[0]; e == Entry(e.pc, -1, 0) && After(p, text, t) == [Thread(Config(e.pc, t.config.at), saves)])
  {
    hide Holds, InTableOf, Takes;
    assert InstOk(p.code[t.config.pc], t.config.pc, |p.code|, p.slots, |p.ranges|);
  }

  /** The entries pushed stand for the ways on, and undo what a save does under them. */
  lemma PushedPending(p: Program, text: seq<Byte>, below: seq<Entry>, t: Thread)
    requires Valid(p) && ThreadOk(p, text, t) && !IsLeaf(p, t)
    ensures var pushed, saves := below + Pushed(p, text, t), SavesAfter(p, t);
            && Pending(pushed, saves, t.config.at) == After(p, text, t) + Pending(below, t.saves, t.config.at)
            && Restored(pushed, saves) == Restored(below, t.saves)
  {
    hide Pending, Restored, Valid, Holds, After, SavesAfter, IsLeaf;
    var inst, at, pc := p.code[t.config.pc], t.config.at, t.config.pc;
    WaysOn(p, text, t);
    if inst.Split? {
      ForkPending(below, pc + inst.x, pc + inst.y, t.saves, at);
    } else if inst.Save? {
      SavePending(below, inst.slot, pc + 1, t.saves, at);
    } else if Pushed(p, text, t) == [] {
      assert below + [] == below;
      assert [] + Pending(below, t.saves, at) == Pending(below, t.saves, at);
    } else {
      PendingPush(below, Pushed(p, text, t)[0].pc, t.saves, at);
    }
  }

  /** The state of a thread being added: the stack, the slots, the places gone through and
      what has been added so far. */
  datatype Machine = Machine(stack: seq<Entry>, saves: seq<int>, marked: set<nat>, added: seq<Thread>)

  ghost predicate MachineOk(p: Program, m: Machine) {
    EntriesOk(m.stack, |p.code|, p.slots) && |m.saves| == p.slots && m.marked <= Pcs(p)
  }

  /** Takes the last entry off the stack and does what it says. */
  ghost function Step(p: Program, text: seq<Byte>, at: nat, m: Machine): (r: Machine)
    requires Valid(p) && at <= |text| && MachineOk(p, m) && m.stack != []
    ensures MachineOk(p, r)
  {
    var e, below := m.stack[|m.stack| - 1], m.stack[..|m.stack| - 1];
    if e.slot >= 0 then m.(stack := below, saves := m.saves[e.slot := e.value])
    else if e.pc in m.marked then m.(stack := below)
    else
      var t, marked := Thread(Config(e.pc, at), m.saves), m.marked + {e.pc};
      assert IsPc(p, e.pc);
      if IsLeaf(p, t) then Machine(below, m.saves, marked, m.added + [t])
      else Machine(below + Pushed(p, text, t), SavesAfter(p, t), marked, m.added)
  }

  /** What will have been added when the stack is empty. */
  ghost function Promise(p: Program, text: seq<Byte>, at: nat, m: Machine): Closed
    requires Valid(p) && at <= |text| && MachineOk(p, m)
  {
    PendingOk(p, text, m.stack, m.saves, at);
    var rest := Closure(p, text, Pending(m.stack, m.saves, at), m.marked);
    Closed(m.added + rest.leaves, rest.marks)
  }

  lemma StepKeepsPromise(p: Program, text: seq<Byte>, at: nat, m: Machine)
    requires Valid(p) && at <= |text| && MachineOk(p, m) && m.stack != []
    ensures Promise(p, text, at, Step(p, text, at, m)) == Promise(p, text, at, m)
    ensures Restored(Step(p, text, at, m).stack, Step(p, text, at, m).saves) == Restored(m.stack, m.saves)
  {
    var e, below := m.stack[|m.stack| - 1], m.stack[..|m.stack| - 1];
    PendingOk(p, text, m.stack, m.saves, at);
    if e.slot < 0 {
      var w, rest := Pending(m.stack, m.saves, at), Pending(below, m.saves, at);
      assert w[1..] == rest;
      var t := Thread(Config(e.pc, at), m.saves);
      if e.pc !in m.marked {
        if IsLeaf(p, t) {
          PendingOk(p, text, below, m.saves, at);
          var more := Closure(p, text, rest, m.marked + {e.pc}).leaves;
          assert (m.added + [t]) + more == m.added + ([t] + more);
        } else {
          PushedPending(p, text, below, t);
        }
      }
    }
  }

  lemma PromiseAtStart(p: Program, text: seq<Byte>, at: nat, pc: nat, saves: seq<int>, marked: set<nat>)
    requires Valid(p) && at <= |text| && pc < |p.code| && |saves| == p.slots && marked <= Pcs(p)
    ensures var m := Machine([Entry(pc, -1, 0)], saves, marked, []);
            && MachineOk(p, m)
            && ThreadOk(p, text, Thread(Config(pc, at), saves))
            && Promise(p, text, at, m) == Closure(p, text, [Thread(Config(pc, at), saves)], marked)
            && Restored(m.stack, m.saves) == saves
  {
    PendingPush([], pc, saves, at);
    assert [Entry(pc, -1, 0)] == [] + [Entry(pc, -1, 0)];
  }

  lemma PromiseAtEnd(p: Program, text: seq<Byte>, at: nat, m: Machine)
    requires Valid(p) && at <= |text| && MachineOk(p, m) && m.stack == []
    ensures Promise(p, text, at, m) == Closed(m.added, m.marked) && Restored(m.stack, m.saves) == m.saves
  {
  }

  /** What holds of a thread being added after `pops` rounds. */
  ghost predicate Adding(p: Program, text: seq<Byte>, at: nat, start: Machine, m: Machine, pops: nat)
    requires Valid(p) && at <= |text| && MachineOk(p, start)
  {
    && MachineOk(p, m)
    && Promise(p, text, at, m) == Promise(p, text, at, start)
    && Restored(m.stack, m.saves) == Restored(start.stack, start.saves)
    && |m.stack| <= 1 + |m.marked| - |start.marked|
    && pops + |m.stack| <= 1 + 2 * (|m.marked| - |start.marked|)
    && |m.added| <= |m.marked| - |start.marked|
    && |m.marked| <= |p.code|
  }

  lemma StepAdding(p: Program, text: seq<Byte>, at: nat, start: Machine, m: Machine, pops: nat)
    requires Valid(p) && at <= |text| && MachineOk(p, start)
    requires Adding(p, text, at, start, m, pops) && m.stack != []
    ensures Adding(p, text, at, start, Step(p, text, at, m), pops + 1)
  {
    StepKeepsPromise(p, text, at, m);
    StepSize(p, text, at, m);
  }

  /** A step either shortens the stack or marks a new place. */
  lemma StepSize(p: Program, text: seq<Byte>, at: nat, m: Machine)
    requires Valid(p) && at <= |text| && MachineOk(p, m) && m.stack != []
    ensures var r := Step(p, text, at, m);
            && m.marked <= r.marked
            && |r.stack| <= |m.stack| - 1 + 2 * (|r.marked| - |m.marked|)
            && |r.marked| <= |m.marked| + 1
            && |r.added| - |m.added| <= |r.marked| - |m.marked|
            && |r.marked| <= |p.code|
  {
    var e := m.stack[|m.stack| - 1];
    PcsCount(p, Step(p, text, at, m).marked);
    if e.slot < 0 && e.pc !in m.marked {
      assert |m.marked + {e.pc}| == |m.marked| + 1;
    }
  }

  lemma {:induction false} ConsumeSplit(p: Program, text: seq<Byte>, a: seq<Thread>, b: seq<Thread>)
    requires Valid(p) && ThreadsOk(p, text, a) && ThreadsOk(p, text, b) && Consume(p, text, a).found.None?
    ensures var rest := Consume(p, text, b);
            Consume(p, text, a + b) == Level(Consume(p, text, a).out + rest.out, rest.found)
  {
    hide After, Next;
    var rest := Consume(p, text, b);
    if a == [] {
      assert a + b == b && [] + rest.out == rest.out;
    } else {
      assert (a + b)[1..] == a[1..] + b;
      ConsumeSplit(p, text, a[1..], b);
      var after, out := After(p, text, a[0]), Consume(p, text, a[1..]).out;
      assert (after + out) + rest.out == after + (out + rest.out);
    }
  }

  lemma NothingLeads(p: Program, text: seq<Byte>)
    requires Valid(p)
    ensures Closure(p, text, [], {}) == Closed([], {}) && Consume(p, text, []) == Level([], None)
  {
  }

  /** None of the first `t` leaves matches, and they turn into `out`. */
  ghost predicate Advanced(p: Program, text: seq<Byte>, leaves: seq<Thread>, t: nat, out: seq<Thread>)
    requires Valid(p) && ThreadsOk(p, text, leaves) && t <= |leaves|
  {
    Consume(p, text, leaves[..t]) == Level(out, None)
  }

  lemma AdvancedByOne(p: Program, text: seq<Byte>, leaves: seq<Thread>, t: nat, out: seq<Thread>)
    requires Valid(p) && ThreadsOk(p, text, leaves) && t < |leaves|
    requires Advanced(p, text, leaves, t, out) && !IsMatch(p, leaves[t].config)
    ensures Advanced(p, text, leaves, t + 1, out + After(p, text, leaves[t]))
  {
    hide After, Next;
    assert leaves[..t + 1] == leaves[..t] + [leaves[t]];
    ConsumeSplit(p, text, leaves[..t], [leaves[t]]);
    assert After(p, text, leaves[t]) + [] == After(p, text, leaves[t]);
  }

  lemma AdvancedToMatch(p: Program, text: seq<Byte>, leaves: seq<Thread>, t: nat, out: seq<Thread>)
    requires Valid(p) && ThreadsOk(p, text, leaves) && t < |leaves|
    requires Advanced(p, text, leaves, t, out) && IsMatch(p, leaves[t].config)
    ensures Consume(p, text, leaves) == Level(out, Some(Report(leaves[t])))
  {
    hide After, Next;
    assert leaves == leaves[..t] + leaves[t..];
    ConsumeSplit(p, text, leaves[..t], leaves[t..]);
    assert out + [] == out;
  }

  /** Where a thread goes that waits for a character. */
  lemma LeafAfter(p: Program, text: seq<Byte>, th: Thread, c: int, size: nat)
    requires Valid(p) && ThreadOk(p, text, th) && IsLeaf(p, th) && !IsMatch(p, th.config)
    requires if th.config.at < |text| then 0 <= c && Decode(text, th.config.at) == Decoded(c, size) else c == -1
    ensures th.config.pc + 1 < |p.code| && InTableOf(p.code[th.config.pc], |p.ranges|)
    ensures After(p, text, th) ==
            if c >= 0 && Takes(p.code[th.config.pc], p.ranges, c) then [Thread(Config(th.config.pc + 1, th.config.at + size), th.saves)]
            else []
    ensures th.config.at < |text| ==> th.config.at + size <= |text|
  {
    hide Takes, Decode;
    assert InstOk(p.code[th.config.pc], th.config.pc, |p.code|, p.slots, |p.ranges|);
  }

  method CopySlots(from: seq<int>, to: array<int>) returns (ghost work: nat)
    requires to.Length == |from|
    modifies to
    ensures to[..] == from && work == |from|
  {
    var k := 0;
    work := 0;
    while k < |from|
      invariant 0 <= k <= |from| && to[..k] == from[..k] && work == k
    {
      to[k] := from[k];
      k, work := k + 1, work + 1;
    }
  }

  class Regex {
    const code: array<Inst>
    var codeLength: nat
    const ranges: array<Range>
    var rangeCount: nat
    var groups: nat
    var slots: nat
    // room for searching; between searches only the generation tells which marks are old
    var threads: seq<array<Thread>>
    var counts: seq<nat>
    var saves: array<int>
    var stack: array<Entry>
    var marks: array<nat>
    var generation: nat

    ghost var program: Program   // what the code and the ranges say
    ghost var marked: set<nat>   // the places already gone through at this position

    constructor ()
      ensures fresh(code) && fresh(ranges)
      ensures code.Length == MAX_CODE && ranges.Length == MAX_RANGES
      ensures codeLength == rangeCount == groups == slots == generation == 0
    {
      code := new Inst[MAX_CODE](_ => Inst.Match);
      ranges := new Range[MAX_RANGES](_ => Range(0, 0));
      codeLength, rangeCount, groups, slots, generation := 0, 0, 0, 0, 0;
      threads, counts := [], [0, 0];
      saves := new int[0];
      stack := new Entry[0];
      marks := new nat[0];
      program, marked := Program([], [], 0), {};
    }

    ghost predicate ProgramOk()
      reads `codeLength, `rangeCount, `slots, `program, code, ranges
      ensures ProgramOk() ==> Valid(program)
    {
      && Valid(program) && slots == program.slots
      && codeLength == |program.code| <= code.Length && code[..codeLength] == program.code
      && rangeCount == |program.ranges| <= ranges.Length && ranges[..rangeCount] == program.ranges
    }

    /** What one entry of the stack or one thread costs at most: itself, its slots copied, and the
        ranges of its class looked through for up to three characters. */
    ghost function Unit(): nat
      reads `slots, `rangeCount
    {
      1 + slots + 3 * rangeCount
    }

    ghost predicate StackOk()
      reads `codeLength, `slots, `saves, `stack
    {
      saves.Length == slots && stack.Length == 2 * codeLength + 2
    }

    ghost predicate ListsOk()
      reads `codeLength, `threads, `counts
    {
      && |threads| == 2 && |counts| == 2
      && threads[0] != threads[1]
      && threads[0].Length == codeLength
      && threads[1].Length == codeLength
    }

    ghost predicate MarksOk()
      reads `program, `marks, `marked, `generation, marks
    {
      && marks.Length == |program.code|
      && marked <= Pcs(program)
      && (forall pc :: 0 <= pc < marks.Length ==> marks[pc] <= generation)
      && (forall pc :: 0 <= pc < marks.Length ==> (marks[pc] == generation <==> pc in marked))
    }

    /** The program is well formed and its working memory has been made. */
    ghost predicate Ready()
      reads this, code, ranges, marks
    {
      ProgramOk() && StackOk() && ListsOk() && MarksOk()
    }

    /** Makes the working memory of a program that has been compiled. */
    method Prepare()
      requires codeLength <= code.Length && rangeCount <= ranges.Length
      requires Valid(Program(code[..codeLength], ranges[..rangeCount], (groups + 1) * 2))
      modifies `slots, `threads, `counts, `saves, `stack, `marks, `generation, `program, `marked
      ensures Ready() && program == Program(code[..codeLength], ranges[..rangeCount], (groups + 1) * 2)
      ensures fresh(threads[0]) && fresh(threads[1]) && fresh(saves) && fresh(stack) && fresh(marks)
    {
      hide Valid, Pcs, ProgramOk, StackOk, ListsOk, MarksOk;
      TakeProgram();
      MakeLists();
      MakeStack();
      MakeMarks();
    }

    method TakeProgram()
      requires codeLength <= code.Length && rangeCount <= ranges.Length
      requires Valid(Program(code[..codeLength], ranges[..rangeCount], (groups + 1) * 2))
      modifies `slots, `program
      ensures ProgramOk() && program == Program(code[..codeLength], ranges[..rangeCount], (groups + 1) * 2)
    {
      hide Valid, Pcs;
      program := Program(code[..codeLength], ranges[..rangeCount], (groups + 1) * 2);
      slots := (groups + 1) * 2;
    }

    method MakeLists()
      modifies `threads, `counts
      ensures ListsOk() && |threads| == 2 && fresh(threads[0]) && fresh(threads[1])
    {
      var first := new Thread[codeLength](_ => Thread(Config(0, 0), []));
      var second := new Thread[codeLength](_ => Thread(Config(0, 0), []));
      threads, counts := [first, second], [0, 0];
    }

    method MakeStack()
      modifies `saves, `stack
      ensures StackOk() && fresh(saves) && fresh(stack)
    {
      saves := new int[slots];
      stack := new Entry[codeLength * 2 + 2](_ => Entry(0, -1, 0));
    }

    method MakeMarks()
      requires codeLength == |program.code|
      modifies `marks, `generation, `marked
      ensures MarksOk() && fresh(marks)
    {
      hide Pcs;
      marks := new nat[codeLength](_ => 0);
      generation := 1;
      marked := {};
    }

    /** What a list holds. */
    ghost function Listed(list: nat): seq<Thread>
      requires ListsOk() && list < 2 && counts[list] <= codeLength
      reads `codeLength, `threads, `counts, threads
    {
      threads[list][..counts[list]]
    }

    /** A list holds exactly what the threads of `w` lead to, and the marks say so. */
    ghost predicate Following(list: nat, text: seq<Byte>, w: seq<Thread>)
      requires list < 2 && Valid(program) && ListsOk()
      reads `codeLength, `program, `marked, `threads, `counts, threads
    {
      && counts[list] <= |marked| <= codeLength
      && ThreadsOk(program, text, w)
      && Closed(Listed(list), marked) == Closure(program, text, w, {})
    }

    ghost predicate Holding(m: Machine, row: array<Thread>, from: nat, count: nat, top: nat)
      reads this, row, saves, stack
    {
      && top <= stack.Length && stack[..top] == m.stack
      && saves[..] == m.saves
      && marked == m.marked
      && from <= count <= row.Length && row[from..count] == m.added
    }

    /** The ways on from an instruction that takes no character. */
    method PushWays(top0: nat, ghost t: Thread, ghost below: seq<Entry>, pc: nat, text: seq<Byte>, at: nat) returns (top: nat)
      requires ProgramOk() && StackOk() && pc < codeLength && at <= |text|
      requires t == Thread(Config(pc, at), saves[..]) && !IsLeaf(program, t)
      requires top0 + 2 <= stack.Length && stack[..top0] == below
      modifies saves, stack
      ensures top <= stack.Length && stack[..top] == below + Pushed(program, text, t)
      ensures saves[..] == SavesAfter(program, t)
    {
      var inst := code[pc];
      assert inst == program.code[pc] && InstOk(inst, pc, codeLength, slots, rangeCount);
      top := top0;
      if inst.Jmp? {
        stack[top] := Entry(pc + inst.x, -1, 0);
        top := top + 1;
      } else if inst.Split? {
        // taken off in this order, so that what the first way leads to comes first
        stack[top] := Entry(pc + inst.y, -1, 0);
        stack[top + 1] := Entry(pc + inst.x, -1, 0);
        top := top + 2;
      } else if inst.Save? {
        // below the way on, an entry that undoes this: other ways see the slot as it was
        stack[top] := Entry(0, inst.slot, saves[inst.slot]);
        stack[top + 1] := Entry(pc + 1, -1, 0);
        top := top + 2;
        saves[inst.slot] := at;
      } else if Holds(inst, text, at) {
        stack[top] := Entry(pc + 1, -1, 0);
        top := top + 1;
      }
    }

    method Mark(pc: nat)
      requires ProgramOk() && MarksOk() && pc < codeLength
      modifies `marked, marks
      ensures MarksOk() && marked == old(marked) + {pc}
    {
      marks[pc] := generation;
      marked := marked + {pc};
      assert IsPc(program, pc);
    }

    /** One round of the loop of `AddThread`. */
    method PopEntry(row: array<Thread>, count0: nat, top0: nat, ghost from: nat, ghost m: Machine, text: seq<Byte>, at: nat)
      returns (top: nat, count: nat)
      requires ProgramOk() && StackOk() && MarksOk() && row.Length == codeLength && 0 < top0 <= codeLength + 1 && at <= |text|
      requires count0 <= |marked|
      requires MachineOk(program, m) && Holding(m, row, from, count0, top0)
      modifies `marked, row, saves, stack, marks
      ensures MarksOk()
      ensures row[..from] == old(row[..from])
      ensures Holding(Step(program, text, at, m), row, from, count, top)
    {
      hide Valid, Pushed, After, Next, Closure;
      ghost var below := m.stack[..top0 - 1];
      top, count := top0 - 1, count0;
      var e := stack[top];
      assert e == m.stack[top];
      assert stack[..top] == below;
      if e.slot >= 0 {
        saves[e.slot] := e.value;
        assert saves[..] == m.saves[e.slot := e.value];
        return;
      }
      var pc := e.pc;
      if marks[pc] == generation {
        return;
      }
      Mark(pc);
      PcsCount(program, marked);
      ghost var t := Thread(Config(pc, at), m.saves);
      if Consuming(code[pc]) || code[pc].Match? {
        row[count] := Thread(Config(pc, at), saves[..]);
        count := count + 1;
        assert row[from..count] == m.added + [t];
      } else {
        top := PushWays(top, t, below, pc, text, at);
      }
    }

    method PopRound(row: array<Thread>, count0: nat, top0: nat, ghost from: nat, ghost start: Machine, ghost m0: Machine,
                    ghost pops: nat, text: seq<Byte>, at: nat)
      returns (top: nat, count: nat, ghost m: Machine)
      requires ProgramOk() && StackOk() && MarksOk() && row.Length == codeLength && 0 < top0 && at <= |text|
      requires count0 == from + |m0.added| && from <= |start.marked|
      requires MachineOk(program, start) && Adding(program, text, at, start, m0, pops)
      requires Holding(m0, row, from, count0, top0)
      modifies `marked, row, saves, stack, marks
      ensures MarksOk()
      ensures row[..from] == old(row[..from])
      ensures count == from + |m.added|
      ensures Adding(program, text, at, start, m, pops + 1) && Holding(m, row, from, count, top)
    {
      StepAdding(program, text, at, start, m0, pops);
      m := Step(program, text, at, m0);
      top, count := PopEntry(row, count0, top0, from, m0, text, at);
      assert |row[from..count]| == count - from;
    }

    /** Follows the stack until it is empty, adding to `row`. The stack never holds more than one
        entry more than the program has instructions. */
    method Follow(row: array<Thread>, from: nat, pc0: nat, text: seq<Byte>, at: nat)
      returns (count: nat, ghost work: nat)
      requires ProgramOk() && StackOk() && MarksOk() && row.Length == codeLength
      requires pc0 < codeLength && at <= |text| && from <= |marked| <= codeLength
      modifies `marked, row, saves, stack, marks
      ensures MarksOk() && from <= count <= |marked| <= codeLength
      ensures saves[..] == old(saves[..])
      ensures ThreadOk(program, text, Thread(Config(pc0, at), saves[..]))
      ensures var r := Closure(program, text, [Thread(Config(pc0, at), saves[..])], old(marked));
              marked == r.marks && row[..count] == old(row[..from]) + r.leaves
      ensures |marked| >= |old(marked)| && work <= Times(Unit(), 1 + 2 * (|marked| - |old(marked)|))
    {
      hide Closure, Promise, Valid, Pending, Restored;
      ghost var start := Machine([Entry(pc0, -1, 0)], saves[..], marked, []);
      stack[0] := Entry(pc0, -1, 0);
      var top := 1;
      ghost var pops := 0;
      count, work := from, 0;
      ghost var m := start;
      PromiseAtStart(program, text, at, pc0, saves[..], marked);
      assert stack[..1] == start.stack;
      while top > 0
        invariant MarksOk() && Adding(program, text, at, start, m, pops)
        invariant 0 <= top && count == from + |m.added|
        invariant Holding(m, row, from, count, top)
        invariant row[..from] == old(row[..from])
        invariant work <= Times(Unit(), pops)
        decreases 1 + 2 * codeLength - pops
      {
        ghost var before := count;
        top, count, m := PopRound(row, count, top, from, start, m, pops, text, at);
        pops := pops + 1;
        // a thread that is added takes its slots with it
        work := work + 1 + (if count > before then slots else 0);
      }
      PromiseAtEnd(program, text, at, m);
      TimesMore(Unit(), pops, 1 + 2 * (|marked| - |start.marked|));
      assert row[..count] == row[..from] + row[from..count];
    }

    /** The list stands for one more thread, at `pc0` with the slots as they are, after those it
        stood for; the slots come out unchanged. */
    method AddThread(list: nat, pc0: nat, text: seq<Byte>, at: nat, ghost w: seq<Thread>) returns (ghost work: nat)
      requires Ready() && list < 2 && pc0 < codeLength && at <= |text|
      requires Following(list, text, w)
      modifies `counts, `marked, threads[list], saves, stack, marks
      ensures Ready() && counts == old(counts)[list := counts[list]]
      ensures saves[..] == old(saves[..])
      ensures Following(list, text, w + [Thread(Config(pc0, at), saves[..])])
      ensures |marked| >= |old(marked)| && work <= Times(Unit(), 1 + 2 * (|marked| - |old(marked)|))
    {
      hide Closure, Valid;
      var count;
      ghost var t, before := Thread(Config(pc0, at), saves[..]), Listed(list);
      count, work := Follow(threads[list], counts[list], pc0, text, at);
      counts := counts[list := count];
      ClosureSplit(program, text, w, [t], {});
      assert Listed(list) == before + Closure(program, text, [t], old(marked)).leaves;
    }

    /** Whether a character is in one of the ranges of a class. */
    method ClassHas(first: nat, count: nat, c: nat) returns (has: bool, ghost work: nat)
      requires ProgramOk() && first + count <= rangeCount
      ensures has == InRanges(program.ranges[first..first + count], c) && work <= count
    {
      ghost var own := program.ranges[first..first + count];
      var i := 0;
      work := 0;
      while i < count
        invariant 0 <= i <= count && work == i
        invariant forall j :: 0 <= j < i ==> !InRange(own[j], c)
      {
        assert own[i] == ranges[first + i];
        work := work + 1;
        if ranges[first + i].low <= c && c <= ranges[first + i].high {
          return true, work;
        }
        i := i + 1;
      }
      return false, work;
    }

    /** Whether the instruction at `pc` takes `c`, where -1 is the end of the text. */
    method TakesAt(pc: nat, c: int) returns (take: bool, ghost work: nat)
      requires ProgramOk() && pc < codeLength && -1 <= c
      ensures take == (c >= 0 && Takes(program.code[pc], program.ranges, c))
      ensures work <= 3 * rangeCount
    {
      var inst := code[pc];
      assert inst == program.code[pc] && InstOk(inst, pc, codeLength, slots, rangeCount);
      take, work := false, 0;
      if inst.Char? {
        take := c == inst.c;
      } else if inst.CharI? {
        take := c >= 0 && Lower(c) == inst.c;
      } else if inst.Any? {
        take := c >= 0 && c != NEWLINE;
      } else if inst.AnyNl? {
        take := c >= 0;
      } else if inst.Class? {
        if c >= 0 {
          var has;
          has, work := ClassHas(inst.first, inst.count, c);
          take := has != inst.negated;
        }
      } else if inst.ClassI? {
        if c >= 0 {
          var has;
          ghost var more;
          has, work := ClassHas(inst.first, inst.count, c);
          if !has && 'a' as int <= c <= 'z' as int {
            has, more := ClassHas(inst.first, inst.count, c - 32);
            work := work + more;
          }
          if !has && 'A' as int <= c <= 'Z' as int {
            has, more := ClassHas(inst.first, inst.count, c + 32);
            work := work + more;
          }
          take := has != inst.negated;
        }
      }
    }

    /** No slot has been recorded but the start of the match. */
    method ClearSlots(at: nat) returns (ghost work: nat)
      requires ProgramOk() && StackOk()
      modifies saves
      ensures saves[..] == InitialSaves(slots, at) && work == slots
    {
      hide InstOk;
      var i := 0;
      work := 0;
      while i < slots
        invariant 0 <= i <= slots && work == i
        invariant forall j :: 0 <= j < i ==> saves[j] == -1
      {
        saves[i] := -1;
        i, work := i + 1, work + 1;
      }
      saves[0] := at;
    }

    /** While nothing has been found, the list stands for a thread that starts here as well, last. */
    method Seed(list: nat, text: seq<Byte>, at: nat, ghost w: seq<Thread>) returns (ghost work: nat)
      requires Ready() && list < 2 && at <= |text|
      requires Following(list, text, w)
      modifies `counts, `marked, threads[list], saves, stack, marks
      ensures Ready() && counts == old(counts)[list := counts[list]]
      ensures Following(list, text, w + [StartThread(program, at)])
      ensures work <= Times(Unit(), 2 + 2 * codeLength)
    {
      hide Closure, InstOk, Times;
      work := ClearSlots(at);
      ghost var before, added := |marked|, 0;
      added := AddThread(list, 0, text, at, w);
      TimesMore(Unit(), 1 + 2 * (|marked| - before), 1 + 2 * codeLength);
      OneBound(Unit(), 1 + 2 * codeLength);
      work := work + added;
    }

    /** A thread that has taken its character goes on in the list of the next position, after
        those in `w`; one that has not is dropped. */
    method TakeOne(next: nat, th: Thread, text: seq<Byte>, c: int, size: nat, ghost w: seq<Thread>) returns (ghost work: nat)
      requires Ready() && next < 2 && ThreadOk(program, text, th)
      requires IsLeaf(program, th) && !IsMatch(program, th.config)
      requires if th.config.at < |text| then 0 <= c && Decode(text, th.config.at) == Decoded(c, size) else c == -1
      requires Following(next, text, w)
      modifies `counts, `marked, threads[next], saves, stack, marks
      ensures Ready() && counts == old(counts)[next := counts[next]]
      ensures Following(next, text, w + After(program, text, th))
      ensures |marked| >= |old(marked)| && work < Times(Unit(), 2 + 2 * (|marked| - |old(marked)|))
    {
      hide Closure, Takes, Decode, Times, Valid, After, IsLeaf, IsMatch;
      var pc := th.config.pc;
      LeafAfter(program, text, th, c, size);
      var take;
      ghost var before := |marked|;
      OneBound(Unit(), 1);
      take, work := TakesAt(pc, c);
      if take {
        ghost var copied := CopySlots(th.saves, saves);
        ghost var added := AddThread(next, pc + 1, text, th.config.at + size, w);
        OneBound(Unit(), 1 + 2 * (|marked| - before));
        work := work + copied + added;
      } else {
        assert w + After(program, text, th) == w;
      }
    }

    /** Writes the spans of a match. */
    method ReportMatch(th: Thread, spans: array<int>) returns (ghost work: nat)
      requires ProgramOk() && |th.saves| == slots == spans.Length
      modifies spans
      ensures spans[..] == Report(th) && work == slots
    {
      work := CopySlots(th.saves, spans);
      spans[1] := th.config.at;
    }

    /** One round of `Advance` that does not match. */
    method AdvanceOne(next: nat, ghost leaves: seq<Thread>, ghost t: nat, th: Thread, text: seq<Byte>, c: int, size: nat,
                      ghost out: seq<Thread>)
      returns (ghost out': seq<Thread>, ghost work: nat)
      requires Ready() && next < 2 && ThreadsOk(program, text, leaves)
      requires t < |leaves| && th == leaves[t] && IsLeaf(program, th) && !IsMatch(program, th.config)
      requires if th.config.at < |text| then 0 <= c && Decode(text, th.config.at) == Decoded(c, size) else c == -1
      requires Following(next, text, out) && Advanced(program, text, leaves, t, out)
      modifies `counts, `marked, threads[next], saves, stack, marks
      ensures Ready()
      ensures Following(next, text, out') && Advanced(program, text, leaves, t + 1, out')
      ensures |marked| >= |old(marked)| && work < Times(Unit(), 2 + 2 * (|marked| - |old(marked)|))
    {
      hide Closure, Times, Valid, Advanced;
      AdvancedByOne(program, text, leaves, t, out);
      out' := out + After(program, text, th);
      work := TakeOne(next, th, text, c, size, out);
    }

    /** What the list leads to over the character `c` of `size` bytes, and the match among its
        threads, if there is one: nothing behind that has been followed. */
    method Advance(list: nat, next: nat, text: seq<Byte>, at: nat, c: int, size: nat)
      returns (hit: Option<Thread>, ghost level: Level, ghost work: nat)
      requires Ready() && list < 2 && next < 2 && list != next && at <= |text| && counts[list] <= codeLength
      requires ThreadsOk(program, text, Listed(list)) && AllAt(Listed(list), at)
      requires forall i :: 0 <= i < |Listed(list)| ==> IsLeaf(program, Listed(list)[i])
      requires if at < |text| then 0 <= c && Decode(text, at) == Decoded(c, size) else c == -1
      requires counts[next] == 0 && marked == {}
      modifies `counts, `marked, threads[next], saves, stack, marks
      ensures Ready()
      ensures level == Consume(program, text, old(Listed(list)))
      ensures Following(next, text, level.out)
      ensures hit.Some? ==> |hit.value.saves| == slots
      ensures level.found == if hit.Some? then Some(Report(hit.value)) else None
      ensures work + (if hit.Some? then slots else 0) <= Times(Unit(), 4 * codeLength)
    {
      hide Closure, Consume, Times;
      NothingLeads(program, text);
      var row, count := threads[list], counts[list];
      ghost var leaves, p := Listed(list), program;
      ghost var out: seq<Thread> := [];
      var t := 0;
      hit, work := None, 0;
      assert Listed(next) == [] && row != threads[next];
      while t < count
        invariant unchanged(`threads, `saves, `stack, `marks, row) && program == p
        invariant Ready() && 0 <= t <= count <= row.Length
        invariant Following(next, text, out)
        invariant Advanced(p, text, leaves, t, out)
        invariant work <= Times(Unit(), 2 * t + 2 * |marked|)
      {
        var th := row[t];
        assert th == old(row[t]) == leaves[t] && IsLeaf(p, leaves[t]);
        work := work + 1;
        if code[th.config.pc].Match? {
          // the rest is cut off: depth-first search would not have come to it
          AdvancedToMatch(p, text, leaves, t, out);
          HitBound(Unit(), t, |marked|, codeLength);
          return Some(th), Level(out, Some(Report(th))), work;
        }
        ghost var before, done := |marked|, 0;
        out, done := AdvanceOne(next, leaves, t, th, text, c, size, out);
        TimesAdds(Unit(), 2 * t + 2 * before, 2 + 2 * (|marked| - before));
        work := work + done;
        t := t + 1;
      }
      assert leaves[..count] == leaves;
      TimesMore(Unit(), 2 * t + 2 * |marked|, 4 * codeLength);
      level := Level(out, None);
    }

    /** A new position: all marks are cleared by the next generation. */
    method NextGeneration(next: nat)
      requires Ready() && next < 2
      modifies `generation, `marked, `counts
      ensures Ready() && counts == old(counts)[next := 0] && marked == {}
    {
      generation := generation + 1;
      marked := {};
      counts := counts[next := 0];
    }

    /** Takes the character at `at`, and writes the spans of the match there, if any. */
    method TakeCharacter(list: nat, next: nat, text: seq<Byte>, at: nat, c: int, size: nat, spans: array<int>, ghost here: seq<Thread>)
      returns (hit: bool, ghost level: Level, ghost work: nat)
      requires Ready() && list < 2 && next < 2 && list != next && at <= |text|
      requires Following(list, text, here) && AllAt(Listed(list), at)
      requires if at < |text| then 0 <= c && Decode(text, at) == Decoded(c, size) else c == -1
      requires spans.Length == slots && spans != saves && spans as object != marks
      modifies `counts, `marked, `generation, threads[next], saves, stack, marks, spans
      ensures Ready()
      ensures level == Consume(program, text, Closure(program, text, here, {}).leaves)
      ensures Following(next, text, level.out)
      ensures level.found == if hit then Some(spans[..]) else None
      ensures !hit ==> spans[..] == old(spans[..])
      ensures work <= Times(Unit(), 4 * codeLength)
    {
      hide Closure, Consume, Valid, Decode;
      ghost var leaves := Listed(list);
      assert leaves == Closure(program, text, here, {}).leaves;
      NextGeneration(next);
      assert Listed(list) == leaves;
      var th;
      th, level, work := Advance(list, next, text, at, c, size);
      hit := th.Some?;
      if hit {
        ghost var copied := ReportMatch(th.value, spans);
        work := work + copied;
      }
    }

    /** The beginning of one position: a new thread starts while there is no match. */
    method Arrive(list: nat, text: seq<Byte>, at: nat, found: bool, ghost w: seq<Thread>, ghost best: Option<seq<int>>)
      returns (ghost work: nat)
      requires Ready() && list < 2 && at <= |text| && Following(list, text, w) && found == best.Some?
      modifies `counts, `marked, threads[list], saves, stack, marks
      ensures Ready() && Following(list, text, w + Starting(program, at, best))
      ensures work <= Times(Unit(), 2 + 2 * codeLength)
    {
      if !found {
        work := Seed(list, text, at, w);
      } else {
        assert w + Starting(program, at, best) == w;
        work := 0;
      }
    }

    /** The end of one position: its character is read and taken. */
    method Leave(list: nat, next: nat, text: seq<Byte>, at: nat, found0: bool, spans: array<int>, ghost here: seq<Thread>)
      returns (found: bool, more: bool, size: nat, ghost level: Level, ghost work: nat)
      requires Ready() && list < 2 && next < 2 && list != next && at <= |text|
      requires Following(list, text, here) && AllAt(Listed(list), at)
      requires spans.Length == slots && spans != saves && spans as object != marks
      modifies `counts, `marked, `generation, threads[next], saves, stack, marks, spans
      ensures Ready()
      ensures level == Consume(program, text, Closure(program, text, here, {}).leaves)
      ensures Following(next, text, level.out)
      ensures Best(found, spans[..]) == OrElse(level.found, old(Best(found0, spans[..])))
      ensures !found ==> !found0 && spans[..] == old(spans[..])
      ensures more == (at < |text|) && (more ==> size > 0 && NextAt(text, at) == at + size <= |text|)
      ensures work <= Times(Unit(), 4 * codeLength)
    {
      var c: int;
      c, size := -1, 1;
      if at < |text| {
        c, size := DecodeChar(text, at);
      }
      var hit;
      hit, level, work := TakeCharacter(list, next, text, at, c, size, spans, here);
      found, more := found0 || hit, c >= 0;
    }

    /** One position of the search, or its end. */
    method SearchAt(list: nat, next: nat, text: seq<Byte>, at: nat, found0: bool, spans: array<int>, ghost w0: seq<Thread>,
                    ghost answer: Option<seq<int>>)
      returns (found: bool, more: bool, size: nat, ghost w: seq<Thread>, ghost best: Option<seq<int>>, ghost work: nat)
      requires Ready() && list < 2 && next < 2 && list != next && at <= |text|
      requires Following(list, text, w0) && AllAt(w0, at)
      requires spans.Length == slots && spans != saves && spans as object != marks
      requires Answers(program, text, w0, at, Best(found0, spans[..]), answer)
      modifies `counts, `marked, `generation, threads[list], threads[next], saves, stack, marks, spans
      ensures Ready()
      ensures !found ==> !found0 && spans[..] == old(spans[..])
      ensures best == Best(found, spans[..])
      ensures !more ==> answer == best
      ensures more ==> at + size <= |text| && size > 0
      ensures more ==> Following(next, text, w) && AllAt(w, at + size) && Answers(program, text, w, at + size, best, answer)
      ensures work <= Times(Unit(), 9 * codeLength)
    {
      hide Times, LockStep, Closure, Consume, RunLevel, Answers, InstOk, StartThread, NextAt, Decode, MarksOk, StackOk;
      ghost var p := program;
      found, more, size, w := found0, false, 1, [];
      best := Best(found, spans[..]);
      ghost var here := w0 + Starting(p, at, best);
      ghost var leaves := LockStepRound(p, text, w0, at, best, answer);
      work := Arrive(list, text, at, found, w0, best);
      work := work + 1;
      RoundBound(Unit(), codeLength);
      assert Listed(list) == leaves;
      if counts[list] == 0 && (found || at >= |text|) {
        return;
      }
      ghost var level, taken;
      found, more, size, level, taken := Leave(list, next, text, at, found, spans, here);
      assert program == p && level == Consume(p, text, leaves);
      w, best, work := level.out, OrElse(level.found, best), work + taken;
      assert more ==> AllAt(w, at + size) && Answers(p, text, w, at + size, best, answer);
    }

    /** Empty lists and no marks. */
    method Begin(text: seq<Byte>)
      requires Ready()
      modifies `counts, `marked, `generation
      ensures Ready() && Following(0, text, [])
    {
      counts := [0, 0];
      NextGeneration(0);
      assert Listed(0) == [];
      NothingLeads(program, text);
    }

    /** Finds what depth-first search finds from `from` on, and reports the same spans. `work` counts
        positions, entries taken off the stack, threads looked at, slots copied and ranges compared,
        and is linear in the text: code, slots and ranges alone bound what is done at one position. */
    method Search(text: seq<Byte>, from: nat, spans: array<int>) returns (found: bool, ghost work: nat)
      requires Ready() && spans.Length == slots && spans != saves && spans as object != marks
      modifies `counts, `marked, `generation, threads[0], threads[1], saves, stack, marks, spans
      ensures Ready()
      ensures RegexBacktrack.Search(program, text, from) == Best(found, spans[..])
      ensures !found ==> spans[..] == old(spans[..])
      ensures work <= (1 + slots + 3 * rangeCount) * (9 * codeLength) * (if from <= |text| then |text| - from + 1 else 0)
    {
      hide Answers, Valid, ProgramOk, StackOk, MarksOk, StartThreads, Following;
      found, work := false, 0;
      if from > |text| {
        return;
      }
      Begin(text);
      var list, next, at := 0, 1, from;
      ghost var w: seq<Thread> := [];
      ghost var answer, most, rounds := RegexBacktrack.Search(program, text, from), Times(Unit(), 9 * codeLength), 0;
      AnswersAtStart(program, text, from);
      while true
        invariant unchanged(`threads, `saves, `stack, `marks)
        invariant Ready() && 0 <= list < 2 && next == 1 - list && from <= at <= |text|
        invariant Following(list, text, w) && AllAt(w, at)
        invariant Answers(program, text, w, at, Best(found, spans[..]), answer)
        invariant !found ==> spans[..] == old(spans[..])
        invariant rounds <= at - from && work <= Times(most, rounds)
        decreases |text| - at
      {
        var more, size;
        ghost var best, done;
        found, more, size, w, best, done := SearchAt(list, next, text, at, found, spans, w, answer);
        work, rounds := work + done, rounds + 1;
        if !more {
          TimesMore(most, rounds, |text| - from + 1);
          TimesProduct(most, |text| - from + 1);
          TimesProduct(Unit(), 9 * codeLength);
          return;
        }
        list, next, at := next, list, at + size;
      }
    }
  }

  ghost function Best(found: bool, spans: seq<int>): Option<seq<int>> {
    if found then Some(spans) else None
  }

  ghost function Times(most: nat, rounds: nat): nat {
    if rounds == 0 then 0 else Times(most, rounds - 1) + most
  }

  lemma {:induction false} TimesAdds(most: nat, a: nat, b: nat)
    ensures Times(most, a + b) == Times(most, a) + Times(most, b)
    decreases b
  {
    if b > 0 {
      TimesAdds(most, a, b - 1);
    }
  }

  lemma TimesMore(most: nat, a: nat, b: nat)
    requires a <= b
    ensures Times(most, a) <= Times(most, b)
  {
    TimesAdds(most, a, b - a);
  }

  lemma OneBound(unit: nat, n: nat)
    ensures Times(unit, n + 1) == Times(unit, n) + unit >= unit
  {
  }

  lemma HitBound(unit: nat, t: nat, marks: nat, length: nat)
    requires t < length && marks <= length
    ensures Times(unit, 2 * t + 2 * marks) + unit <= Times(unit, 4 * length)
  {
    OneBound(unit, 2 * t + 2 * marks);
    TimesMore(unit, 2 * t + 2 * marks + 1, 4 * length);
  }

  lemma RoundBound(unit: nat, length: nat)
    requires unit > 0 && length > 0
    ensures Times(unit, 2 + 2 * length) + 1 + Times(unit, 4 * length) <= Times(unit, 9 * length)
  {
    OneBound(unit, 2 + 2 * length);
    TimesAdds(unit, 3 + 2 * length, 4 * length);
    TimesMore(unit, 3 + 6 * length, 9 * length);
  }

  lemma {:induction false} TimesProduct(most: nat, rounds: nat)
    ensures Times(most, rounds) == most * rounds
  {
    if rounds > 0 {
      TimesProduct(most, rounds - 1);
      assert most * rounds == most * (rounds - 1) + most;
    }
  }
}
