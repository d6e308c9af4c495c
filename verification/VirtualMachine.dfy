/** What the virtual machine does: registers, calls, and the variables that calls have of their own. */
module VirtualMachine {
  import opened Common

  const REGISTERS := 32
  const RETURN_REGISTER := 31
  const MAX_CALLS := 1024
  const MAX_STEPS := 2000000000

  /** A value, as far as calls look into it. */
  datatype Value = Null | Integer(i: int) | Real(r: real) | Boolean(b: bool) | String(s: CString)

  predicate Truthy(v: Value) {
    match v
    case Null => false
    case Integer(i) => i != 0
    case Real(r) => r != 0.0
    case Boolean(b) => b
    case String(s) => s != []
  }

  // ---------- variables ----------

  /** The variables of one call. A name that has not been assigned has no value. */
  datatype Locals = Locals(names: seq<CString>, values: seq<Option<Value>>)

  datatype Variables = Variables(globals: map<CString, Value>, locals: seq<Locals>)

  predicate LocalsOk(l: Locals) {
    |l.names| == |l.values|
  }

  predicate VariablesOk(v: Variables) {
    forall i :: 0 <= i < |v.locals| ==> LocalsOk(v.locals[i])
  }

  /** Where a name stands in a list; one past its end when it does not. */
  function Slot(names: seq<CString>, name: CString): (r: nat)
    ensures r <= |names|
    ensures r < |names| ==> names[r] == name
    ensures forall i :: 0 <= i < r ==> names[i] != name
  {
    if names == [] || names[0] == name then 0 else 1 + Slot(names[1..], name)
  }

  function GetVariable(v: Variables, name: CString): Option<Value>
    requires VariablesOk(v)
  {
    if v.locals != [] && Slot(v.locals[|v.locals| - 1].names, name) < |v.locals[|v.locals| - 1].names| then
      var top := v.locals[|v.locals| - 1];
      top.values[Slot(top.names, name)]
    else if name in v.globals then Some(v.globals[name])
    else None
  }

  function StoreLocal(v: Variables, slot: nat, value: Value): (r: Variables)
    requires VariablesOk(v) && v.locals != [] && slot < |v.locals[|v.locals| - 1].names|
    ensures VariablesOk(r) && |r.locals| == |v.locals| && r.locals[..|v.locals| - 1] == v.locals[..|v.locals| - 1]
  {
    var last := |v.locals| - 1;
    var top := v.locals[last];
    v.(locals := v.locals[last := top.(values := top.values[slot := Some(value)])])
  }

  function SetVariable(v: Variables, name: CString, value: Value): (r: Variables)
    requires VariablesOk(v)
    ensures VariablesOk(r) && |r.locals| == |v.locals|
    ensures v.locals != [] ==> r.locals[..|v.locals| - 1] == v.locals[..|v.locals| - 1]
  {
    if v.locals != [] && Slot(v.locals[|v.locals| - 1].names, name) < |v.locals[|v.locals| - 1].names| then
      StoreLocal(v, Slot(v.locals[|v.locals| - 1].names, name), value)
    else v.(globals := v.globals[name := value])
  }

  /** Where a load or a store says that a name lives. */
  datatype Place = ByName | Local(slot: nat) | Global

  function GetAt(v: Variables, name: CString, place: Place): Option<Value>
    requires VariablesOk(v)
  {
    if place.Local? && v.locals != [] && place.slot < |v.locals[|v.locals| - 1].names| then
      v.locals[|v.locals| - 1].values[place.slot]
    else if place.Global? then if name in v.globals then Some(v.globals[name]) else None
    else GetVariable(v, name)
  }

  function SetAt(v: Variables, name: CString, place: Place, value: Value): (r: Variables)
    requires VariablesOk(v)
    ensures VariablesOk(r) && |r.locals| == |v.locals|
    ensures v.locals != [] ==> r.locals[..|v.locals| - 1] == v.locals[..|v.locals| - 1]
  {
    if place.Local? && v.locals != [] && place.slot < |v.locals[|v.locals| - 1].names| then StoreLocal(v, place.slot, value)
    else if place.Global? then v.(globals := v.globals[name := value])
    else SetVariable(v, name, value)
  }

  // ---------- programs ----------

  /** An instruction. `Compute` is one that puts into a register what it makes of the registers,
      or fails: loads of constants, arithmetic, comparison and the commands that only compute. */
  datatype Instruction =
    | Compute(a: nat, result: seq<Value> -> Option<Value>)
    | LoadVariable(a: nat, name: CString, place: Place)
    | StoreVariable(a: nat, name: CString, place: Place)
    | Jump(target: nat)
    | JumpIf(a: nat, when: bool, target: nat)
    | Call(a: nat, b: nat, c: nat, callee: nat)
    | Ret
    | Try(a: nat, b: nat)
    | Halt

  datatype Function = Function(name: CString, returnName: CString, parameters: seq<CString>, entry: nat, locals: seq<CString>)

  datatype Program = Program(code: seq<Instruction>, functions: seq<Function>)

  predicate EndsInHalt(p: Program) {
    p.code != [] && p.code[|p.code| - 1].Halt?
  }

  // ---------- the machine ----------

  datatype Frame = Frame(returnIp: nat, returnRegister: nat, callee: nat, saved: seq<Value>)

  datatype Machine = Machine(registers: seq<Value>, ip: nat, running: bool, frames: seq<Frame>)

  datatype State = State(m: Machine, v: Variables)

  predicate FrameOk(f: Frame) {
    |f.saved| == REGISTERS
  }

  predicate StateOk(s: State) {
    && |s.m.registers| == REGISTERS && |s.m.frames| <= MAX_CALLS && VariablesOk(s.v)
    && forall i :: 0 <= i < |s.m.frames| ==> FrameOk(s.m.frames[i])
  }

  function Nulls(n: nat): (r: seq<Value>)
    ensures |r| == n && forall i :: 0 <= i < n ==> r[i] == Null
  {
    seq(n, _ => Null)
  }

  function Bind(v: Variables, parameters: seq<CString>, arguments: seq<Value>): (r: Variables)
    requires |parameters| == |arguments| && VariablesOk(v)
    ensures VariablesOk(r) && |r.locals| == |v.locals|
    ensures v.locals != [] ==> r.locals[..|v.locals| - 1] == v.locals[..|v.locals| - 1]
    decreases |parameters|
  {
    if parameters == [] then v
    else
      var last := |parameters| - 1;
      SetVariable(Bind(v, parameters[..last], arguments[..last]), parameters[last], arguments[last])
  }

  function Enter(v: Variables, names: seq<CString>): (r: Variables)
    requires VariablesOk(v)
    ensures VariablesOk(r) && |r.locals| == |v.locals| + 1 && r.locals[..|v.locals|] == v.locals
  {
    v.(locals := v.locals + [Locals(names, seq(|names|, _ => None))])
  }

  /** A call: the registers move into a frame, and the callee has variables of its own. */
  function DoCall(p: Program, s: State, a: nat, b: nat, c: nat, callee: nat): (r: Option<State>)
    requires StateOk(s)
    ensures r.Some? ==> StateOk(r.value)
  {
    if callee >= |p.functions| || b != |p.functions[callee].parameters| then None
    else if a + b > RETURN_REGISTER || |s.m.frames| >= MAX_CALLS then None
    else
      var f := p.functions[callee];
      var frame := Frame(s.m.ip, c, callee, s.m.registers);
      Some(State(Machine(Nulls(REGISTERS), f.entry, s.m.running, s.m.frames + [frame]),
                 Bind(Enter(s.v, f.locals), f.parameters, s.m.registers[a..a + b])))
  }

  function Leave(v: Variables): (r: Variables)
    requires VariablesOk(v)
    ensures VariablesOk(r)
  {
    if v.locals == [] then v else v.(locals := v.locals[..|v.locals| - 1])
  }

  function ResultOf(p: Program, s: State): Value
    requires StateOk(s) && s.m.frames != [] && s.m.frames[|s.m.frames| - 1].callee < |p.functions|
  {
    var r := GetVariable(s.v, p.functions[s.m.frames[|s.m.frames| - 1].callee].returnName);
    if r.Some? then r.value else Null
  }

  /** What an instruction comes to: it is taken, or it fails, or it writes where there is no
      register, of which nothing more is said. */
  datatype Taken = On(value: State) | Fails | Faults

  function DoReturn(p: Program, s: State): (r: Taken)
    requires StateOk(s)
    ensures r.On? ==> StateOk(r.value)
  {
    if s.m.frames == [] || s.m.frames[|s.m.frames| - 1].callee >= |p.functions| then Fails
    else
      var outer, frame := s.m.frames[..|s.m.frames| - 1], s.m.frames[|s.m.frames| - 1];
      if frame.returnRegister >= REGISTERS then Faults
      else On(State(Machine(frame.saved[frame.returnRegister := ResultOf(p, s)], frame.returnIp, s.m.running, outer), Leave(s.v)))
  }

  /** The variables with no more than `depth` calls. */
  function Unwound(v: Variables, depth: nat): (r: Variables)
    requires VariablesOk(v)
    ensures VariablesOk(r)
  {
    if |v.locals| > depth then v.(locals := v.locals[..depth]) else v
  }

  /** The function that a `try` names, when it can be called with the registers there are. */
  function TryTarget(p: Program, registers: seq<Value>, b: nat): (r: Option<nat>)
    requires |registers| == REGISTERS
    ensures r.Some? ==> r.value < |p.functions| && 1 <= b < RETURN_REGISTER && |p.functions[r.value].parameters| == b - 1
    ensures r.Some? ==> p.code != []
  {
    if b >= RETURN_REGISTER || b < 1 || !registers[0].String? then None
    else
      var at := FunctionSlot(p.functions, registers[0].s);
      if at == |p.functions| || |p.functions[at].parameters| != b - 1 || p.code == [] then None else Some(at)
  }

  function FunctionSlot(functions: seq<Function>, name: CString): (r: nat)
    ensures r <= |functions|
    ensures r < |functions| ==> functions[r].name == name
    ensures forall i :: 0 <= i < r ==> functions[i].name != name
  {
    if functions == [] || functions[0].name == name then 0 else 1 + FunctionSlot(functions[1..], name)
  }

  /** The machine that a `try` runs: it shares nothing with the one that runs it but the variables. */
  function Nested(p: Program, registers: seq<Value>, b: nat): (r: Machine)
    requires |registers| == REGISTERS && 1 <= b < RETURN_REGISTER && p.code != []
  {
    Machine(registers[1..b] + Nulls(REGISTERS - (b - 1)), |p.code| - 1, true, [])
  }

  datatype Status = Done | Failed | Faulted

  /** What a run comes to: how it ended, and what it left. */
  datatype Outcome = Outcome(status: Status, s: State)

  /** One instruction. `room` is how deep a `try` may run inside another. */
  function Step(p: Program, s: State, room: nat): (r: Taken)
    requires StateOk(s)
    ensures r.On? ==> StateOk(r.value)
    decreases room, 1
  {
    if !s.m.running || s.m.ip >= |p.code| then Fails
    else
      var ins := p.code[s.m.ip];
      var next := s.(m := s.m.(ip := s.m.ip + 1));
      match ins
      case Compute(a, result) =>
        if a >= REGISTERS || result(s.m.registers).None? then Fails else On(Put(next, a, result(s.m.registers).value))
      case LoadVariable(a, name, place) =>
        var value := GetAt(s.v, name, place);
        if a >= REGISTERS then Fails else On(Put(next, a, if value.Some? then value.value else Null))
      case StoreVariable(a, name, place) =>
        if a >= REGISTERS then Fails else On(next.(v := SetAt(s.v, name, place, s.m.registers[a])))
      case Jump(target) => if target >= |p.code| then Fails else On(s.(m := s.m.(ip := target)))
      case JumpIf(a, when, target) =>
        if target >= |p.code| || a >= REGISTERS then Fails
        else On(if Truthy(s.m.registers[a]) == when then s.(m := s.m.(ip := target)) else next)
      case Call(a, b, c, callee) =>
        var called := DoCall(p, next, a, b, c, callee);
        if called.None? then Fails else On(called.value)
      case Ret => DoReturn(p, next)
      case Try(a, b) =>
        var o := DoTry(p, next, b, room);
        if o.None? then Fails
        else if o.value.status == Faulted || a >= REGISTERS then Faults
        else On(Put(next.(v := o.value.s.v), a, Integer(if o.value.status == Done then 0 else 1)))
      case Halt => On(next.(m := next.m.(running := false)))
  }

  function Put(s: State, a: nat, value: Value): (r: State)
    requires StateOk(s) && a < REGISTERS
    ensures StateOk(r)
  {
    s.(m := s.m.(registers := s.m.registers[a := value]))
  }

  /** A call in a machine of its own, of which a failure is caught. */
  function DoTry(p: Program, s: State, b: nat, room: nat): (r: Option<Outcome>)
    requires StateOk(s)
    ensures r.Some? ==> StateOk(r.value.s)
    decreases room, 0
  {
    var target := TryTarget(p, s.m.registers, b);
    if target.None? || room == 0 then None
    else
      var called := DoCall(p, State(Nested(p, s.m.registers, b), s.v), 0, b - 1, RETURN_REGISTER, target.value);
      var o := if called.None? then Outcome(Failed, State(Nested(p, s.m.registers, b), s.v))
               else Execute(p, called.value, MAX_STEPS, room - 1);
      Some(o.(s := o.s.(v := Unwound(o.s.v, |s.v.locals|))))
  }

  /** Instructions until the machine halts, one fails, or `left` have been run. */
  function Execute(p: Program, s: State, left: nat, room: nat): (r: Outcome)
    requires StateOk(s)
    ensures StateOk(r.s)
    decreases room, left + 2
  {
    if !s.m.running then Outcome(Done, s)
    else if s.m.ip >= |p.code| || left == 0 then Outcome(Failed, s)
    else
      match Step(p, s, room)
      case Fails => Outcome(Failed, s.(m := s.m.(ip := s.m.ip + 1)))
      case Faults => Outcome(Faulted, s)
      case On(next) => Execute(p, next, left - 1, room)
  }
}
