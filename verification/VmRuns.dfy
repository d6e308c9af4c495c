/** What calls leave as it was, over whole runs of the machine. */
module VmRuns {
  import opened Common
  import opened VirtualMachine

  /** Each call of the machine has its variables on top of the first `base`. */
  predicate InStep(s: State, base: nat) {
    StateOk(s) && |s.v.locals| == base + |s.m.frames|
  }

  // ---------- one step ----------

  /** The state after `n` instructions, when none of them fails or follows a halt. */
  function After(p: Program, s: State, n: nat, room: nat): (r: Option<State>)
    requires StateOk(s)
    ensures r.Some? ==> StateOk(r.value)
    decreases n
  {
    if n == 0 then Some(s)
    else
      var next := Step(p, s, room);
      if !next.On? then None else After(p, next.value, n - 1, room)
  }

  /** `n` instructions during which `depth` calls stay open. */
  predicate StaysOpen(p: Program, s: State, n: nat, depth: nat, room: nat)
    requires StateOk(s)
    decreases n
  {
    && |s.m.frames| >= depth
    && (n > 0 ==> var next := Step(p, s, room); next.On? && StaysOpen(p, next.value, n - 1, depth, room))
  }

  /** The calls before the first `depth`, and their variables, are the same. */
  predicate SameBelow(s: State, t: State, base: nat, depth: nat) {
    && |s.m.frames| >= depth && |t.m.frames| >= depth && s.m.frames[..depth] == t.m.frames[..depth]
    && |s.v.locals| >= base + depth - 1 >= 0 && |t.v.locals| >= base + depth - 1
    && s.v.locals[..base + depth - 1] == t.v.locals[..base + depth - 1]
  }

  lemma CallInStep(p: Program, s: State, a: nat, b: nat, c: nat, callee: nat, base: nat)
    requires InStep(s, base) && DoCall(p, s, a, b, c, callee).Some?
    ensures var t := DoCall(p, s, a, b, c, callee).value;
            && InStep(t, base) && t.v.locals[..|s.v.locals|] == s.v.locals
            && t.m.frames == s.m.frames + [Frame(s.m.ip, c, callee, s.m.registers)]
  {
  }

  lemma ReturnInStep(p: Program, s: State, base: nat)
    requires InStep(s, base) && DoReturn(p, s).On?
    ensures var t, last := DoReturn(p, s).value, |s.m.frames| - 1;
            && InStep(t, base) && t.m.frames == s.m.frames[..last] && t.v.locals == s.v.locals[..base + last]
  {
  }

  /** Whatever a `try` comes to, no more and no fewer calls have variables than before. */
  lemma {:induction false} ExecuteInStep(p: Program, s: State, left: nat, room: nat, base: nat)
    requires InStep(s, base)
    ensures InStep(Execute(p, s, left, room).s, base)
    decreases room, left + 2
  {
    hide Step, StateOk;
    if s.m.running && s.m.ip < |p.code| && left > 0 {
      var next := Step(p, s, room);
      if next.On? {
        StepInStep(p, s, room, base);
        ExecuteInStep(p, next.value, left - 1, room, base);
      }
    }
  }

  lemma {:induction false} StepInStep(p: Program, s: State, room: nat, base: nat)
    requires InStep(s, base) && Step(p, s, room).On?
    ensures InStep(Step(p, s, room).value, base)
    decreases room, 1
  {
    hide DoCall, DoReturn, DoTry;
    var ins, next := p.code[s.m.ip], s.(m := s.m.(ip := s.m.ip + 1));
    match ins {
      case Call(a, b, c, callee) => CallInStep(p, next, a, b, c, callee, base);
      case Ret => ReturnInStep(p, next, base);
      case Try(a, b) => TryInStep(p, next, b, room);
      case _ =>
    }
  }

  lemma {:induction false} TryInStep(p: Program, s: State, b: nat, room: nat)
    requires StateOk(s) && DoTry(p, s, b, room).Some?
    ensures |DoTry(p, s, b, room).value.s.v.locals| == |s.v.locals|
    decreases room, 0
  {
    hide Execute, DoCall;
    var nested := State(Nested(p, s.m.registers, b), s.v);
    var target := TryTarget(p, s.m.registers, b).value;
    var called := DoCall(p, nested, 0, b - 1, RETURN_REGISTER, target);
    if called.Some? {
      CallInStep(p, nested, 0, b - 1, RETURN_REGISTER, target, |s.v.locals|);
      ExecuteInStep(p, called.value, MAX_STEPS, room - 1, |s.v.locals|);
    }
  }

  // ---------- what is below a call stays as it is ----------

  /** The machine of a `try`: when it is in no call it has nothing left to run but the last halt. */
  predicate Home(p: Program, s: State) {
    if s.m.frames == [] then s.m.ip == |p.code| - 1 || !s.m.running else s.m.frames[0].returnIp == |p.code| - 1
  }

  lemma {:induction false} ExecuteKeeps(p: Program, s: State, left: nat, room: nat, base: nat)
    requires InStep(s, base) && EndsInHalt(p) && Home(p, s)
    ensures |Execute(p, s, left, room).s.v.locals| >= base && Execute(p, s, left, room).s.v.locals[..base] == s.v.locals[..base]
    decreases room, left + 2
  {
    hide Step, StateOk, Home;
    if s.m.running && s.m.ip < |p.code| && left > 0 {
      var next := Step(p, s, room);
      if next.On? {
        StepInStep(p, s, room, base);
        StepFromHome(p, s, room, base);
        ExecuteKeeps(p, next.value, left - 1, room, base);
      }
    }
  }

  lemma {:induction false} StepFromHome(p: Program, s: State, room: nat, base: nat)
    requires InStep(s, base) && EndsInHalt(p) && Home(p, s) && Step(p, s, room).On?
    ensures var t := Step(p, s, room).value;
            Home(p, t) && |t.v.locals| >= base && t.v.locals[..base] == s.v.locals[..base]
    decreases room, 1
  {
    hide DoCall, DoReturn, DoTry;
    var ins, next := p.code[s.m.ip], s.(m := s.m.(ip := s.m.ip + 1));
    match ins {
      case Call(a, b, c, callee) => CallInStep(p, next, a, b, c, callee, base);
      case Ret =>
        ReturnInStep(p, next, base);
        ReturnsTo(p, next);
      case Try(a, b) => TryKeepsLocals(p, next, b, room);
      case StoreVariable(a, name, place) => StoreKeeps(s.v, name, place, s.m.registers[a], base);
      case _ =>
    }
  }

  lemma ReturnsTo(p: Program, s: State)
    requires StateOk(s) && DoReturn(p, s).On?
    ensures s.m.frames != [] && DoReturn(p, s).value.m.ip == s.m.frames[|s.m.frames| - 1].returnIp
  {
  }

  lemma StoreKeeps(v: Variables, name: CString, place: Place, value: Value, base: nat)
    requires VariablesOk(v) && |v.locals| > base
    ensures SetAt(v, name, place, value).locals[..base] == v.locals[..base]
  {
    var r := SetAt(v, name, place, value);
    assert v.locals[..base] == v.locals[..|v.locals| - 1][..base];
    assert r.locals[..base] == r.locals[..|v.locals| - 1][..base];
  }

  /** Whether what is tried succeeds or fails, and however many calls it is in when it fails, the
      variables of all calls are as they were. */
  lemma {:induction false} TryKeepsLocals(p: Program, s: State, b: nat, room: nat)
    requires StateOk(s) && EndsInHalt(p) && DoTry(p, s, b, room).Some?
    ensures DoTry(p, s, b, room).value.s.v.locals == s.v.locals
    decreases room, 0
  {
    hide Execute, DoCall;
    var nested, base := State(Nested(p, s.m.registers, b), s.v), |s.v.locals|;
    var target := TryTarget(p, s.m.registers, b).value;
    var called := DoCall(p, nested, 0, b - 1, RETURN_REGISTER, target);
    if called.Some? {
      CallInStep(p, nested, 0, b - 1, RETURN_REGISTER, target, base);
      ExecuteKeeps(p, called.value, MAX_STEPS, room - 1, base);
    }
  }

  // ---------- a call and its return ----------

  lemma StepKeepsBelow(p: Program, s: State, room: nat, base: nat, depth: nat)
    requires InStep(s, base) && EndsInHalt(p) && Step(p, s, room).On?
    requires 1 <= depth <= |s.m.frames| && |Step(p, s, room).value.m.frames| >= depth
    ensures SameBelow(s, Step(p, s, room).value, base, depth)
  {
    hide DoCall, DoReturn, DoTry;
    var ins, next := p.code[s.m.ip], s.(m := s.m.(ip := s.m.ip + 1));
    match ins {
      case Call(a, b, c, callee) =>
        CallInStep(p, next, a, b, c, callee, base);
        var t := DoCall(p, next, a, b, c, callee).value;
        assert t.v.locals[..base + depth - 1] == t.v.locals[..|s.v.locals|][..base + depth - 1];
      case Ret => ReturnInStep(p, next, base);
      case Try(a, b) => TryKeepsLocals(p, next, b, room);
      case StoreVariable(a, name, place) => StoreKeeps(s.v, name, place, s.m.registers[a], base + depth - 1);
      case _ =>
    }
  }

  lemma {:induction false} OpenCallsKeep(p: Program, s: State, n: nat, room: nat, base: nat, depth: nat)
    requires InStep(s, base) && EndsInHalt(p) && 1 <= depth && StaysOpen(p, s, n, depth, room)
    ensures After(p, s, n, room).Some?
    ensures InStep(After(p, s, n, room).value, base) && SameBelow(s, After(p, s, n, room).value, base, depth)
    decreases n
  {
    hide Step, StateOk, VariablesOk;
    if n > 0 {
      var next := Step(p, s, room).value;
      StepInStep(p, s, room, base);
      StaysOpenNow(p, next, n - 1, depth, room);
      StepKeepsBelow(p, s, room, base, depth);
      OpenCallsKeep(p, next, n - 1, room, base, depth);
    }
  }

  lemma StaysOpenNow(p: Program, s: State, n: nat, depth: nat, room: nat)
    requires StateOk(s) && StaysOpen(p, s, n, depth, room)
    ensures |s.m.frames| >= depth
  {
  }

  /** A run from a call to its return: the call, `n` instructions during which it stays open, and
      then a return from it. */
  predicate IsCallRun(p: Program, s: State, n: nat, room: nat)
    requires StateOk(s)
  {
    && s.m.running && s.m.ip < |p.code| && p.code[s.m.ip].Call?
    && var called := Step(p, s, room);
       && called.On? && StaysOpen(p, called.value, n, |s.m.frames| + 1, room)
       && var inside := After(p, called.value, n, room);
          inside.Some? && AtReturn(p, inside.value) && |inside.value.m.frames| == |s.m.frames| + 1
  }

  predicate AtReturn(p: Program, s: State) {
    s.m.running && s.m.ip < |p.code| && p.code[s.m.ip].Ret?
  }

  /** Only a return closes a call, and it closes just one. */
  lemma OnlyRetCloses(p: Program, s: State, room: nat)
    requires StateOk(s) && Step(p, s, room).On?
    requires |Step(p, s, room).value.m.frames| < |s.m.frames|
    ensures AtReturn(p, s) && |Step(p, s, room).value.m.frames| == |s.m.frames| - 1
  {
    hide DoTry, Execute, Bind, Enter, GetAt, SetAt;
  }

  /** A call leaves to its caller all that it had: the registers but the one for the result, the
      place after the call, the calls that were open and the variables of each. Whether there is a
      register for the result is not looked at on the way: when there is none, and only then, the
      return writes outside the registers. */
  lemma CallReturns(p: Program, s: State, n: nat, room: nat, base: nat)
    requires InStep(s, base) && EndsInHalt(p) && IsCallRun(p, s, n, room)
    ensures var call, inside := p.code[s.m.ip], After(p, Step(p, s, room).value, n, room).value;
            var back := Step(p, inside, room);
            && call.callee < |p.functions|
            && (back.On? <==> call.c < REGISTERS) && (back.Faults? <==> call.c >= REGISTERS)
            && (back.On? ==>
                  var t, result := back.value, GetVariable(inside.v, p.functions[call.callee].returnName);
                  && t.m.registers == s.m.registers[call.c := if result.Some? then result.value else Null]
                  && t.m.ip == s.m.ip + 1 && t.m.frames == s.m.frames && t.v.locals == s.v.locals
                  && t.m.running && t.v.globals == inside.v.globals)
  {
    hide DoCall, DoReturn, DoTry, Execute, After, StaysOpen, VariablesOk;
    var call, next, depth := p.code[s.m.ip], s.(m := s.m.(ip := s.m.ip + 1)), |s.m.frames| + 1;
    var called := Step(p, s, room).value;
    CallInStep(p, next, call.a, call.b, call.c, call.callee, base);
    CallsWhatThereIs(p, next, call.a, call.b, call.c, call.callee);
    OpenCallsKeep(p, called, n, room, base, depth);
    var inside := After(p, called, n, room).value;
    var last := inside.(m := inside.m.(ip := inside.m.ip + 1));
    var frame := Frame(next.m.ip, call.c, call.callee, s.m.registers);
    assert called.m.frames[..depth] == s.m.frames + [frame];
    assert inside.m.frames == inside.m.frames[..depth];
    ReturnsWhat(p, last, frame);
    if call.c < REGISTERS {
      ReturnInStep(p, last, base);
      assert inside.v.locals[..base + depth - 1] == s.v.locals;
    }
  }

  const NAME: CString := [102]

  /** A program that is one call, and a function that returns at once. */
  function CallingWith(c: nat): Program {
    Program([Call(0, 0, c, 0), Ret, Halt], [Function(NAME, NAME, [], 1, [])])
  }

  /** Nothing refuses a call with a register that is not there: the program runs into the return. */
  lemma CallCanFault(left: nat, room: nat)
    requires left >= 2
    ensures EndsInHalt(CallingWith(REGISTERS))
    ensures Execute(CallingWith(REGISTERS), State(Machine(Nulls(REGISTERS), 0, true, []), Variables(map[], [])), left, room).status == Faulted
  {
    var p := CallingWith(REGISTERS);
    var s := State(Machine(Nulls(REGISTERS), 0, true, []), Variables(map[], []));
    var called := Step(p, s, room);
    assert called.On? && called.value.m.ip == 1 && |called.value.m.frames| == 1;
    assert Step(p, called.value, room).Faults?;
    assert Execute(p, called.value, left - 1, room).status == Faulted;
  }

  lemma CallsWhatThereIs(p: Program, s: State, a: nat, b: nat, c: nat, callee: nat)
    requires StateOk(s) && DoCall(p, s, a, b, c, callee).Some?
    ensures callee < |p.functions|
  {
  }

  lemma ReturnsWhat(p: Program, s: State, frame: Frame)
    requires StateOk(s) && s.m.frames != [] && s.m.frames[|s.m.frames| - 1] == frame && frame.callee < |p.functions|
    ensures if frame.returnRegister >= REGISTERS then DoReturn(p, s) == Faults
            else
              && DoReturn(p, s).On? && |frame.saved| == REGISTERS
              && var t, result := DoReturn(p, s).value, GetVariable(s.v, p.functions[frame.callee].returnName);
                 && t.m.registers == frame.saved[frame.returnRegister := if result.Some? then result.value else Null]
                 && t.m.ip == frame.returnIp && t.m.running == s.m.running && t.v.globals == s.v.globals
  {
  }

  lemma TryCalls(p: Program, s: State, b: nat, target: nat)
    requires StateOk(s) && TryTarget(p, s.m.registers, b) == Some(target)
    ensures DoCall(p, State(Nested(p, s.m.registers, b), s.v), 0, b - 1, RETURN_REGISTER, target).Some?
  {
    hide Bind, Enter, VariablesOk;
  }

  /** A `try` that can be made leaves all but its own register, which says how it went, unless
      what it tries faults or it has no such register. */
  lemma TryReports(p: Program, s: State, room: nat)
    requires StateOk(s) && EndsInHalt(p) && s.m.running && s.m.ip < |p.code| && p.code[s.m.ip].Try?
    ensures var ins, step := p.code[s.m.ip], Step(p, s, room);
            var target := TryTarget(p, s.m.registers, ins.b);
            && (step.Fails? <==> target.None? || room == 0)
            && (target.Some? && room > 0 ==>
                  var start := DoCall(p, State(Nested(p, s.m.registers, ins.b), s.v), 0, ins.b - 1, RETURN_REGISTER, target.value);
                  && start.Some?
                  && var o := Execute(p, start.value, 2000000000, room - 1);
                     && (step.Faults? <==> o.status == Faulted || ins.a >= REGISTERS)
                     && (step.On? ==>
                           && step.value.m == Machine(s.m.registers[ins.a := Integer(if o.status == Done then 0 else 1)],
                                                      s.m.ip + 1, true, s.m.frames)
                           && step.value.v.locals == s.v.locals && step.value.v.globals == o.s.v.globals))
  {
    hide Execute, DoCall, Slot, VariablesOk, TryTarget;
    var ins, next := p.code[s.m.ip], s.(m := s.m.(ip := s.m.ip + 1));
    var target := TryTarget(p, s.m.registers, ins.b);
    if target.Some? && room > 0 {
      TryKeepsLocals(p, next, ins.b, room);
      TryCalls(p, s, ins.b, target.value);
    }
  }

  // ---------- what the callee sees ----------

  lemma {:induction false} BindGives(v: Variables, parameters: seq<CString>, arguments: seq<Value>, i: nat)
    requires |parameters| == |arguments| && VariablesOk(v) && v.locals != [] && i < |parameters|
    requires forall k :: 0 <= k < |parameters| ==> parameters[k] in v.locals[|v.locals| - 1].names
    requires forall k, l :: 0 <= k < l < |parameters| ==> parameters[k] != parameters[l]
    ensures GetVariable(Bind(v, parameters, arguments), parameters[i]) == Some(arguments[i])
    ensures Bind(v, parameters, arguments).globals == v.globals
    ensures Bind(v, parameters, arguments).locals[|v.locals| - 1].names == v.locals[|v.locals| - 1].names
    decreases |parameters|
  {
    hide SetVariable, GetVariable, VariablesOk;
    var last := |parameters| - 1;
    var w := Bind(v, parameters[..last], arguments[..last]);
    if last > 0 {
      BindGives(v, parameters[..last], arguments[..last], if i < last then i else 0);
    }
    assert w == v || w.locals[|v.locals| - 1].names == v.locals[|v.locals| - 1].names;
    SetGives(w, parameters[last], arguments[last], parameters[i]);
  }

  lemma SetGives(v: Variables, name: CString, value: Value, other: CString)
    requires VariablesOk(v) && v.locals != [] && name in v.locals[|v.locals| - 1].names
    ensures var w := SetVariable(v, name, value);
            && GetVariable(w, other) == (if other == name then Some(value) else GetVariable(v, other))
            && w.globals == v.globals && w.locals[|v.locals| - 1].names == v.locals[|v.locals| - 1].names
  {
  }

  /** A call is refused just when there is no such function, it takes another number of arguments,
      these are not all among the first 31 registers, or too many calls are open. */
  lemma CallIsRefused(p: Program, s: State, a: nat, b: nat, c: nat, callee: nat)
    requires StateOk(s)
    ensures DoCall(p, s, a, b, c, callee).None? <==>
            callee >= |p.functions| || b != |p.functions[callee].parameters| || a + b > 31 || |s.m.frames| >= 1024
  {
    hide Bind, Enter, VariablesOk;
  }

  /** A call starts with its arguments in its parameters, and nothing in the registers. */
  lemma CalleeSeesArguments(p: Program, s: State, a: nat, b: nat, c: nat, callee: nat, i: nat)
    requires StateOk(s) && DoCall(p, s, a, b, c, callee).Some? && i < b
    requires forall k :: 0 <= k < b ==> p.functions[callee].parameters[k] in p.functions[callee].locals
    requires forall k, l :: 0 <= k < l < b ==> p.functions[callee].parameters[k] != p.functions[callee].parameters[l]
    ensures var t, f := DoCall(p, s, a, b, c, callee).value, p.functions[callee];
            && GetVariable(t.v, f.parameters[i]) == Some(s.m.registers[a + i])
            && t.m.ip == f.entry && t.m.registers == Nulls(REGISTERS) && t.v.globals == s.v.globals
  {
    BindGives(Enter(s.v, p.functions[callee].locals), p.functions[callee].parameters, s.m.registers[a..a + b], i);
  }

  /** What is tried is the first function of the name that register 0 holds, with the registers
      behind it for its arguments. */
  lemma TrySees(p: Program, s: State, b: nat, target: nat, i: nat)
    requires StateOk(s) && TryTarget(p, s.m.registers, b) == Some(target) && i + 1 < b
    requires forall k :: 0 <= k < b - 1 ==> p.functions[target].parameters[k] in p.functions[target].locals
    requires forall k, l :: 0 <= k < l < b - 1 ==> p.functions[target].parameters[k] != p.functions[target].parameters[l]
    ensures s.m.registers[0] == String(p.functions[target].name)
    ensures forall k :: 0 <= k < target ==> p.functions[k].name != p.functions[target].name
    ensures var start := DoCall(p, State(Nested(p, s.m.registers, b), s.v), 0, b - 1, RETURN_REGISTER, target);
            start.Some? && GetVariable(start.value.v, p.functions[target].parameters[i]) == Some(s.m.registers[i + 1])
  {
    hide DoCall, VariablesOk, GetVariable;
    var nested := State(Nested(p, s.m.registers, b), s.v);
    TryCalls(p, s, b, target);
    CalleeSeesArguments(p, nested, 0, b - 1, RETURN_REGISTER, target, i);
    assert nested.m.registers[i] == s.m.registers[1..b][i];
  }
}
