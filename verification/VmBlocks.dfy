/** What the instructions do that are no calls, and what tests and loops made of them come to. */
module VmBlocks {
  import opened Common
  import opened VirtualMachine
  import opened VmRuns

  /** The values for which a test fails. */
  predicate IsNo(v: Value) {
    v == Null || v == Integer(0) || v == Real(0.0) || v == Boolean(false) || v == String([])
  }

  /** The same at another instruction. */
  function GoTo(s: State, ip: nat): (r: State)
    ensures StateOk(s) ==> StateOk(r)
  {
    s.(m := s.m.(ip := ip))
  }

  predicate At(p: Program, s: State, ip: nat) {
    StateOk(s) && s.m.running && s.m.ip == ip < |p.code|
  }

  // ---------- one instruction ----------

  /** A jump goes to its target and changes nothing else. */
  lemma JumpGoes(p: Program, s: State, target: nat, room: nat)
    requires At(p, s, s.m.ip) && p.code[s.m.ip] == Jump(target)
    ensures Step(p, s, room) == if target < |p.code| then On(GoTo(s, target)) else Fails
  {
  }

  /** A conditional jump goes to its target just when the register is a yes and it jumps on yes, or is
      a no and it jumps on no, and else to the next instruction; it changes nothing else. */
  lemma JumpIfGoes(p: Program, s: State, a: nat, when: bool, target: nat, room: nat)
    requires At(p, s, s.m.ip) && p.code[s.m.ip] == JumpIf(a, when, target)
    ensures Step(p, s, room).Fails? <==> target >= |p.code| || a >= 32
    ensures !Step(p, s, room).Faults?
    ensures target < |p.code| && a < 32 ==>
              Step(p, s, room).value == GoTo(s, if IsNo(s.m.registers[a]) != when then target else s.m.ip + 1)
  {
  }

  /** Only the register that is computed or loaded changes; a variable without a value is null. */
  lemma OthersStay(p: Program, s: State, room: nat, k: nat)
    requires At(p, s, s.m.ip) && Step(p, s, room).On? && k < REGISTERS
    requires p.code[s.m.ip].Compute? || p.code[s.m.ip].LoadVariable?
    ensures var ins, t := p.code[s.m.ip], Step(p, s, room).value;
            && t.m.ip == s.m.ip + 1 && t.m.running && t.m.frames == s.m.frames && t.v == s.v
            && (k != ins.a ==> t.m.registers[k] == s.m.registers[k])
            && (ins.Compute? ==> ins.a < 32 && Some(t.m.registers[ins.a]) == ins.result(s.m.registers))
            && (ins.LoadVariable? ==>
                  ins.a < 32 && var value := GetAt(s.v, ins.name, ins.place);
                  t.m.registers[ins.a] == if value.Some? then value.value else Null)
  {
  }

  /** What has been stored is what is loaded, wherever the name lives. */
  lemma StoredIsLoaded(v: Variables, name: CString, place: Place, value: Value)
    requires VariablesOk(v)
    ensures GetAt(SetAt(v, name, place, value), name, place) == Some(value)
  {
  }

  /** A store leaves all other names as they were. A name of the innermost call is stored there and
      leaves the globals as they were, any other among the globals. */
  lemma OthersAreKept(v: Variables, name: CString, value: Value, other: CString)
    requires VariablesOk(v)
    ensures var r := SetAt(v, name, ByName, value);
            && (other != name ==> GetVariable(r, other) == GetVariable(v, other))
            && (if v.locals != [] && name in v.locals[|v.locals| - 1].names then r.globals == v.globals
                else r.locals == v.locals && r.globals == v.globals[name := value])
  {
    if v.locals != [] {
      SlotFinds(v.locals[|v.locals| - 1].names, name);
      SlotFinds(v.locals[|v.locals| - 1].names, other);
    }
  }

  lemma {:induction false} SlotFinds(names: seq<CString>, name: CString)
    ensures Slot(names, name) < |names| <==> name in names
  {
  }

  /** A store and then a load from the same place copy one register to another. */
  lemma StoreThenLoad(p: Program, s: State, a: nat, b: nat, name: CString, place: Place, room: nat)
    requires At(p, s, s.m.ip) && p.code[s.m.ip] == StoreVariable(a, name, place) && a < 32 && b < 32
    requires s.m.ip + 1 < |p.code| && p.code[s.m.ip + 1] == LoadVariable(b, name, place)
    ensures After(p, s, 2, room).Some?
    ensures var t := After(p, s, 2, room).value;
            && t.m == s.m.(ip := s.m.ip + 2, registers := s.m.registers[b := s.m.registers[a]])
            && t.v == SetAt(s.v, name, place, s.m.registers[a])
  {
    hide SetAt, GetAt, VariablesOk;
    var t := Step(p, s, room).value;
    StoredIsLoaded(s.v, name, place, s.m.registers[a]);
    var u := Step(p, t, room).value;
    assert After(p, u, 0, room) == Some(u);
    assert After(p, t, 1, room) == Some(u);
  }

  // ---------- runs ----------

  lemma {:induction false} AfterOn(p: Program, s: State, m: nat, n: nat, room: nat)
    requires StateOk(s) && After(p, s, m, room).Some?
    ensures After(p, s, m + n, room) == After(p, After(p, s, m, room).value, n, room)
    decreases m
  {
    hide Step;
    if m > 0 {
      AfterOn(p, Step(p, s, room).value, m - 1, n, room);
    }
  }

  /** A whole run goes on from where its first instructions have come to. */
  lemma {:induction false} ExecuteFrom(p: Program, s: State, n: nat, left: nat, room: nat)
    requires StateOk(s) && After(p, s, n, room).Some?
    ensures Execute(p, s, n + left, room) == Execute(p, After(p, s, n, room).value, left, room)
    decreases n
  {
    if n > 0 {
      StepRuns(p, s, room);
      ExecuteFrom(p, Step(p, s, room).value, n - 1, left, room);
    }
  }

  lemma StepRuns(p: Program, s: State, room: nat)
    requires StateOk(s) && Step(p, s, room).On?
    ensures s.m.running && s.m.ip < |p.code|
  {
  }

  /** How a run ends: well at a halt, and not well where an instruction fails, where there is none or
      when no more may be run. */
  lemma RunEnds(p: Program, s: State, n: nat, left: nat, room: nat)
    requires StateOk(s) && After(p, s, n, room).Some? && After(p, s, n, room).value.m.running
    ensures var t, o := After(p, s, n, room).value, Execute(p, s, n + left, room);
            && (t.m.ip >= |p.code| || left == 0 ==> o.status == Failed)
            && (t.m.ip < |p.code| && left > 0 ==>
                  && (p.code[t.m.ip].Halt? ==> o.status == Done && o.s.m.registers == t.m.registers && o.s.v == t.v)
                  && (Step(p, t, room).Fails? ==> o.status == Failed && o.s.v == t.v)
                  && (Step(p, t, room).Faults? ==> o.status == Faulted))
  {
    hide StateOk, DoCall, DoReturn, DoTry;
    ExecuteFrom(p, s, n, left, room);
  }

  lemma OneAfter(p: Program, s: State, room: nat)
    requires StateOk(s) && Step(p, s, room).On?
    ensures After(p, s, 1, room) == Some(Step(p, s, room).value)
  {
    hide Step;
    assert After(p, Step(p, s, room).value, 0, room) == Some(Step(p, s, room).value);
  }

  // ---------- a test ----------

  /** At `at` a test of register `a`, then a block of `first` instructions and one of `second`. */
  predicate IsTest(p: Program, at: nat, a: nat, first: nat, second: nat) {
    && at + first + second + 2 < |p.code| && a < 32
    && p.code[at] == JumpIf(a, false, at + first + 2)
    && p.code[at + first + 1] == Jump(at + first + second + 2)
  }

  /** Where the block begins that a test chooses, and where it ends: the first unless the register is
      null, zero of either kind, false or the empty string. */
  function Chosen(s: State, at: nat, a: nat, first: nat, second: nat): (nat, nat)
    requires StateOk(s) && a < 32
  {
    if IsNo(s.m.registers[a]) then (at + first + 2, at + first + second + 2)
    else (at + 1, at + first + 1)
  }

  /** A test runs the block that it chooses, and goes on behind both. */
  lemma TestRuns(p: Program, s: State, at: nat, a: nat, first: nat, second: nat, n: nat, room: nat) returns (steps: nat)
    requires IsTest(p, at, a, first, second) && At(p, s, at)
    requires var (begin, end) := Chosen(s, at, a, first, second);
             && After(p, GoTo(s, begin), n, room).Some?
             && At(p, After(p, GoTo(s, begin), n, room).value, end)
    ensures var (begin, end) := Chosen(s, at, a, first, second);
            var t := GoTo(After(p, GoTo(s, begin), n, room).value, at + first + second + 2);
            && After(p, s, steps, room) == Some(t)
            && forall left: nat :: Execute(p, s, steps + left, room) == Execute(p, t, left, room)
  {
    hide Step, After, Execute, StateOk;
    var (begin, end) := Chosen(s, at, a, first, second);
    var t := After(p, GoTo(s, begin), n, room).value;
    JumpIfGoes(p, s, a, false, at + first + 2, room);
    OneAfter(p, s, room);
    AfterOn(p, s, 1, n, room);
    steps := n + 1;
    if end == at + first + 1 {
      JumpGoes(p, t, at + first + second + 2, room);
      OneAfter(p, t, room);
      AfterOn(p, s, n + 1, 1, room);
      steps := n + 2;
    }
    var u := GoTo(t, at + first + second + 2);
    assert After(p, s, steps, room) == Some(u);
    forall left: nat ensures Execute(p, s, steps + left, room) == Execute(p, u, left, room) {
      ExecuteFrom(p, s, steps, left, room);
    }
  }

  // ---------- a loop ----------

  /** At `at` a test of register `a`, a body of `size` instructions, and the way back. */
  predicate IsLoop(p: Program, at: nat, a: nat, size: nat) {
    && at + size + 2 < |p.code| && a < 32
    && p.code[at] == JumpIf(a, false, at + size + 2) && p.code[at + size + 1] == Jump(at)
  }

  /** One state after the other at the head of the loop, the body in between: the test holds at all
      but the last. */
  ghost predicate Rounds(p: Program, states: seq<State>, at: nat, a: nat, size: nat, room: nat)
    requires a < 32
  {
    && states != [] && (forall i :: 0 <= i < |states| ==> At(p, states[i], at))
    && IsNo(states[|states| - 1].m.registers[a])
    && forall i :: 0 <= i < |states| - 1 ==> !IsNo(states[i].m.registers[a]) && BodyRuns(p, states[i], states[i + 1], at, size, room)
  }

  ghost predicate BodyRuns(p: Program, s: State, t: State, at: nat, size: nat, room: nat)
    requires StateOk(s)
  {
    var first, last := GoTo(s, at + 1), GoTo(t, at + size + 1);
    at + size + 1 < |p.code| && exists n: nat :: After(p, first, n, room) == Some(last)
  }

  /** A loop runs its body as long as the test holds, and then goes on behind it. */
  lemma {:induction false} LoopRuns(p: Program, states: seq<State>, at: nat, a: nat, size: nat, room: nat)
    returns (steps: nat)
    requires IsLoop(p, at, a, size) && Rounds(p, states, at, a, size, room)
    ensures var t := GoTo(states[|states| - 1], at + size + 2);
            && After(p, states[0], steps, room) == Some(t)
            && forall left: nat :: Execute(p, states[0], steps + left, room) == Execute(p, t, left, room)
    decreases |states|
  {
    hide Step, After, Execute, StateOk;
    var s, t := states[0], GoTo(states[|states| - 1], at + size + 2);
    JumpIfGoes(p, s, a, false, at + size + 2, room);
    OneAfter(p, s, room);
    steps := 1;
    if |states| > 1 {
      var m := RoundRuns(p, s, states[1], at, a, size, room);
      var rest := states[1..];
      assert forall i :: 0 <= i < |rest| ==> rest[i] == states[i + 1];
      var more := LoopRuns(p, rest, at, a, size, room);
      AfterOn(p, s, m, more, room);
      steps := m + more;
    }
    forall left: nat ensures Execute(p, s, steps + left, room) == Execute(p, t, left, room) {
      ExecuteFrom(p, s, steps, left, room);
    }
  }

  lemma RoundRuns(p: Program, s: State, t: State, at: nat, a: nat, size: nat, room: nat) returns (steps: nat)
    requires IsLoop(p, at, a, size) && At(p, s, at) && At(p, t, at) && !IsNo(s.m.registers[a]) && BodyRuns(p, s, t, at, size, room)
    ensures After(p, s, steps, room) == Some(t)
  {
    hide Step, After, StateOk;
    var n: nat :| After(p, GoTo(s, at + 1), n, room) == Some(GoTo(t, at + size + 1));
    JumpIfGoes(p, s, a, false, at + size + 2, room);
    OneAfter(p, s, room);
    AfterOn(p, s, 1, n, room);
    var u := GoTo(t, at + size + 1);
    JumpGoes(p, u, at, room);
    OneAfter(p, u, room);
    AfterOn(p, s, n + 1, 1, room);
    steps := n + 2;
  }
}
