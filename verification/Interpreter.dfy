/** The machine as it runs: registers and calls that are changed in place. */
module Interpreter {
  import opened Common
  import opened VirtualMachine

  /** The variables that machines share. */
  class Scope {
    var globals: map<CString, Value>
    var locals: seq<Locals>

    constructor ()
      ensures Now() == Variables(map[], []) && VariablesOk(Now())
    {
      globals, locals := map[], [];
    }

    ghost function Now(): Variables
      reads this
    {
      Variables(globals, locals)
    }

    method LocalsFor(name: CString) returns (slot: Option<nat>)
      requires VariablesOk(Now())
      ensures slot.None? <==> locals == [] || Slot(locals[|locals| - 1].names, name) == |locals[|locals| - 1].names|
      ensures slot.Some? ==> slot.value == Slot(locals[|locals| - 1].names, name)
    {
      if |locals| == 0 {
        return None;
      }
      var names := locals[|locals| - 1].names;
      var i: nat := 0;
      while i < |names|
        invariant i <= |names| && forall k :: 0 <= k < i ==> names[k] != name
      {
        if names[i] == name {
          return Some(i);
        }
        i := i + 1;
      }
      return None;
    }

    method Push(names: seq<CString>)
      requires VariablesOk(Now())
      modifies this
      ensures Now() == Enter(old(Now()), names)
    {
      locals := locals + [Locals(names, seq(|names|, _ => None))];
    }

    method Pop()
      requires VariablesOk(Now())
      modifies this
      ensures Now() == Leave(old(Now()))
    {
      if |locals| > 0 {
        locals := locals[..|locals| - 1];
      }
    }

    method Unwind(depth: nat)
      requires VariablesOk(Now())
      modifies this
      ensures Now() == Unwound(old(Now()), depth)
    {
      while |locals| > depth
        invariant VariablesOk(Now()) && globals == old(globals)
        invariant Unwound(Now(), depth) == Unwound(old(Now()), depth)
      {
        Pop();
      }
    }

    method Get(name: CString, place: Place) returns (value: Option<Value>)
      requires VariablesOk(Now())
      ensures value == GetAt(Now(), name, place)
    {
      if place.Local? && |locals| > 0 && place.slot < |locals[|locals| - 1].names| {
        return locals[|locals| - 1].values[place.slot];
      }
      if !place.Global? {
        var slot := LocalsFor(name);
        if slot.Some? {
          return locals[|locals| - 1].values[slot.value];
        }
      }
      return if name in globals then Some(globals[name]) else None;
    }

    method Set(name: CString, place: Place, value: Value)
      requires VariablesOk(Now())
      modifies this
      ensures Now() == SetAt(old(Now()), name, place, value)
    {
      var slot := None;
      if place.Local? && |locals| > 0 && place.slot < |locals[|locals| - 1].names| {
        slot := Some(place.slot);
      } else if !place.Global? {
        slot := LocalsFor(name);
      }
      if slot.Some? {
        var top := locals[|locals| - 1];
        locals := locals[|locals| - 1 := top.(values := top.values[slot.value := Some(value)])];
      } else {
        globals := globals[name := value];
      }
    }
  }

  class Vm {
    const registers: array<Value>
    const scope: Scope
    var ip: nat
    var running: bool
    var steps: nat
    var frames: seq<Frame>

    constructor (scope: Scope)
      ensures fresh(registers) && this.scope == scope && steps == 0
      ensures registers.Length == REGISTERS && Machine() == VirtualMachine.Machine(Nulls(REGISTERS), 0, false, [])
    {
      registers := new Value[REGISTERS](_ => Null);
      this.scope := scope;
      ip, running, steps, frames := 0, false, 0, [];
      new;
      assert registers[..] == Nulls(REGISTERS);
    }

    ghost function Machine(): VirtualMachine.Machine
      reads this, registers
    {
      VirtualMachine.Machine(registers[..], ip, running, frames)
    }

    ghost function Now(): State
      reads this, registers, scope
    {
      State(Machine(), scope.Now())
    }

    ghost predicate Valid()
      reads this, registers, scope
    {
      registers.Length == REGISTERS && StateOk(Now())
    }

    /** The registers go, and are empty. */
    method MoveRegisters() returns (saved: seq<Value>)
      requires registers.Length == REGISTERS
      modifies registers
      ensures saved == old(registers[..]) && registers[..] == Nulls(REGISTERS)
    {
      saved := [];
      for i := 0 to REGISTERS
        invariant saved == old(registers[..i])
        invariant forall k :: 0 <= k < i ==> registers[k] == Null
        invariant forall k :: i <= k < REGISTERS ==> registers[k] == old(registers[k])
      {
        saved := saved + [registers[i]];
        registers[i] := Null;
      }
    }

    method MoveBack(saved: seq<Value>)
      requires registers.Length == REGISTERS == |saved|
      modifies registers
      ensures registers[..] == saved
    {
      for i := 0 to REGISTERS
        invariant forall k :: 0 <= k < i ==> registers[k] == saved[k]
      {
        registers[i] := saved[i];
      }
    }

    method PushFrame(f: Function, c: nat, callee: nat) returns (ok: bool)
      requires Valid()
      modifies `frames, registers, scope
      ensures Valid() && ok == (|old(frames)| < MAX_CALLS)
      ensures Now() == if ok then State(VirtualMachine.Machine(Nulls(REGISTERS), ip, running, old(frames) + [Frame(ip, c, callee, old(registers[..]))]),
                                        Enter(old(scope.Now()), f.locals))
                       else old(Now())
    {
      hide VariablesOk;
      if |frames| >= MAX_CALLS {
        return false;
      }
      var saved := MoveRegisters();
      scope.Push(f.locals);
      frames := frames + [Frame(ip, c, callee, saved)];
      return true;
    }

    method Call(p: Program, a: nat, b: nat, c: nat, callee: nat) returns (ok: bool)
      requires Valid()
      modifies `ip, `frames, registers, scope
      ensures Valid()
      ensures var r := DoCall(p, old(Now()), a, b, c, callee);
              ok == r.Some? && Now() == if ok then r.value else old(Now())
    {
      hide VariablesOk, Bind, Enter;
      if callee >= |p.functions| || b != |p.functions[callee].parameters| {
        return false;
      }
      if a + b > RETURN_REGISTER {
        return false;
      }
      var f := p.functions[callee];
      ok := PushFrame(f, c, callee);
      if !ok {
        return;
      }
      BindArguments(f.parameters, frames[|frames| - 1].saved, a);
      ip := f.entry;
    }

    /** Each parameter is set to the register it stands for, as these were when they were saved. */
    method BindArguments(parameters: seq<CString>, saved: seq<Value>, a: nat)
      requires VariablesOk(scope.Now()) && a + |parameters| <= |saved|
      modifies scope
      ensures VariablesOk(scope.Now()) && scope.Now() == Bind(old(scope.Now()), parameters, saved[a..a + |parameters|])
    {
      hide VariablesOk, SetAt;
      ghost var arguments := saved[a..a + |parameters|];
      for i := 0 to |parameters|
        invariant VariablesOk(scope.Now()) && scope.Now() == Bind(old(scope.Now()), parameters[..i], arguments[..i])
      {
        BindMore(old(scope.Now()), parameters, arguments, i);
        scope.Set(parameters[i], ByName, saved[a + i]);
      }
      assert parameters[..|parameters|] == parameters && arguments[..|parameters|] == arguments;
    }

    /** Goes back to the caller. The result goes to a register without a look whether there is
        one; when there is none, what happens then is not modelled. */
    method Return(p: Program) returns (status: Status)
      requires Valid()
      modifies `ip, `frames, registers, scope
      ensures Valid()
      ensures var r := DoReturn(p, old(Now()));
              && (status == Done <==> r.On?) && (status == Faulted <==> r.Faults?)
              && Now() == if r.On? then r.value else old(Now())
    {
      hide VariablesOk;
      if |frames| == 0 {
        return Failed;
      }
      var frame := frames[|frames| - 1];
      if frame.callee >= |p.functions| {
        return Failed;
      }
      if frame.returnRegister >= REGISTERS {
        return Faulted;
      }
      var value := scope.Get(p.functions[frame.callee].returnName, ByName);
      var result := if value.Some? then value.value else Null;
      scope.Pop();
      MoveBack(frame.saved);
      ip := frame.returnIp;
      registers[frame.returnRegister] := result;
      frames := frames[..|frames| - 1];
      return Done;
    }

    /** The function that a `try` names. */
    method FindFunction(functions: seq<Function>, name: CString) returns (index: nat)
      ensures index == FunctionSlot(functions, name)
    {
      index := 0;
      while index < |functions|
        invariant index <= |functions| && forall k :: 0 <= k < index ==> functions[k].name != name
      {
        if functions[index].name == name {
          return;
        }
        index := index + 1;
      }
    }

    /** A machine for a `try`, with the arguments in its registers. */
    method NewNested(p: Program, b: nat) returns (nested: Vm)
      requires registers.Length == REGISTERS && 1 <= b < RETURN_REGISTER && p.code != []
      ensures fresh(nested) && fresh(nested.registers) && nested.scope == scope && nested.steps == 0
      ensures nested.registers.Length == REGISTERS && nested.Machine() == Nested(p, registers[..], b)
    {
      nested := new Vm(scope);
      nested.running := true;
      for i := 1 to b
        invariant fresh(nested) && fresh(nested.registers) && nested.registers.Length == REGISTERS
        invariant nested.ip == 0 && nested.running && nested.frames == [] && nested.steps == 0
        invariant forall k :: 1 <= k < i ==> nested.registers[k - 1] == registers[k]
        invariant forall k :: i - 1 <= k < REGISTERS ==> nested.registers[k] == Null
      {
        nested.registers[i - 1] := registers[i];
      }
      nested.ip := |p.code| - 1;
      assert nested.registers[..] == registers[..][1..b] + Nulls(REGISTERS - (b - 1));
    }

    /** A call in a machine of its own; nothing when it cannot be made, else how it ended. */
    method RunTry(p: Program, b: nat, room: nat) returns (status: Option<Status>)
      requires Valid()
      modifies scope
      ensures Valid()
      ensures var o := DoTry(p, old(Now()), b, room);
              && (status.None? <==> o.None?)
              && (status.None? ==> scope.Now() == old(scope.Now()))
              && (status.Some? ==> status.value == o.value.status && (status.value != Faulted ==> scope.Now() == o.value.s.v))
      decreases room, 0
    {
      hide VariablesOk, Execute, DoCall, Unwound, FunctionSlot;
      if b >= RETURN_REGISTER || b < 1 || !registers[0].String? {
        return None;
      }
      var index := FindFunction(p.functions, registers[0].s);
      if index == |p.functions| || |p.functions[index].parameters| != b - 1 || |p.code| == 0 || room == 0 {
        return None;
      }
      var nested := NewNested(p, b);
      var depth := |scope.locals|;
      var ok := nested.Call(p, 0, b - 1, RETURN_REGISTER, index);
      var ended := Failed;
      if ok {
        ended := nested.Run(p, room - 1);
      }
      scope.Unwind(depth);
      return Some(ended);
    }

    /** One instruction, taken from where the machine is. */
    method RunStep(p: Program, room: nat) returns (status: Status)
      requires Valid() && running && ip < |p.code|
      modifies `ip, `running, `frames, registers, scope
      ensures Valid()
      ensures var s := old(Now());
              var r := Step(p, s, room);
              && (status == Done <==> r.On?) && (status == Faulted <==> r.Faults?)
              && (r.On? ==> Now() == r.value) && (r.Fails? ==> Now() == s.(m := s.m.(ip := s.m.ip + 1)))
      decreases room, 1
    {
      hide VariablesOk, Execute, DoCall, DoReturn, DoTry, GetAt, SetAt;
      var ins := p.code[ip];
      ip := ip + 1;
      match ins {
        case Compute(a, result) =>
          var value := result(registers[..]);
          if a >= REGISTERS || value.None? {
            return Failed;
          }
          registers[a] := value.value;
        case LoadVariable(a, name, place) =>
          if a >= REGISTERS {
            return Failed;
          }
          var value := scope.Get(name, place);
          registers[a] := if value.Some? then value.value else Null;
        case StoreVariable(a, name, place) =>
          if a >= REGISTERS {
            return Failed;
          }
          scope.Set(name, place, registers[a]);
        case Jump(target) =>
          if target >= |p.code| {
            return Failed;
          }
          ip := target;
        case JumpIf(a, when, target) =>
          if target >= |p.code| || a >= REGISTERS {
            return Failed;
          }
          if Truthy(registers[a]) == when {
            ip := target;
          }
        case Call(a, b, c, callee) =>
          var ok := Call(p, a, b, c, callee);
          return if ok then Done else Failed;
        case Ret =>
          status := Return(p);
          return;
        case Try(a, b) =>
          var tried := RunTry(p, b, room);
          if tried.None? {
            return Failed;
          }
          if tried.value == Faulted || a >= REGISTERS {
            return Faulted;
          }
          registers[a] := Integer(if tried.value == Done then 0 else 1);
        case Halt =>
          running := false;
      }
      return Done;
    }

    /** Instructions until the machine halts or one fails. */
    method Run(p: Program, room: nat) returns (status: Status)
      requires Valid() && steps <= MAX_STEPS
      modifies this, registers, scope
      ensures Valid()
      ensures var o := Execute(p, old(Now()), MAX_STEPS - old(steps), room);
              status == o.status && (status != Faulted ==> Now() == o.s)
      decreases room, MAX_STEPS + 2
    {
      hide VariablesOk, Step;
      while running
        invariant Valid() && steps <= MAX_STEPS
        invariant Execute(p, Now(), MAX_STEPS - steps, room) == Execute(p, old(Now()), MAX_STEPS - old(steps), room)
        decreases MAX_STEPS - steps
      {
        if ip >= |p.code| {
          return Failed;
        }
        if steps == MAX_STEPS {
          return Failed;
        }
        steps := steps + 1;
        status := RunStep(p, room);
        if status != Done {
          return;
        }
      }
      return Done;
    }
  }

  lemma BindMore(v: Variables, parameters: seq<CString>, arguments: seq<Value>, i: nat)
    requires i < |parameters| == |arguments| && VariablesOk(v)
    ensures Bind(v, parameters[..i + 1], arguments[..i + 1]) ==
            SetAt(Bind(v, parameters[..i], arguments[..i]), parameters[i], ByName, arguments[i])
  {
    hide SetVariable, VariablesOk;
    assert parameters[..i + 1][..i] == parameters[..i] && arguments[..i + 1][..i] == arguments[..i];
  }
}
