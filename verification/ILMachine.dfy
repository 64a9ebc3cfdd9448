/** The subset of the IL stack machine that dynamic functions are compiled to. */
module ILMachine {

  datatype Primitive =
    | Boolean | Char | SByte | Byte | Int16 | UInt16 | Int32 | UInt32 | Int64 | UInt64 | Single | Double
    | IntPtr | UIntPtr

  /** Parameter and return types. Remote and the Struct types are value types that are not primitive. */
  datatype Type =
    | Void | Object | Remote | String | ObjectArray | StringArray
    | Prim(p: Primitive) | Struct(s: nat) | Class(c: nat)
  {
    predicate IsValueType() { Prim? || Struct? || Remote? }
  }

  /** An object reference, as it appears in the argument array. */
  datatype Obj = Null | Instance(id: nat)

  /** Evaluation stack entries. Primitives of every width and kind are plain numbers here. */
  datatype Value = Ref(o: Obj) | Num(n: int) | StructValue(t: Type, bits: int) | ArgumentArray

  datatype Exn = IndexOutOfRange | InvalidCast | NullReference | Thrown(id: nat)

  datatype Outcome<T> = Ok(value: T) | Throws(e: Exn)

  /** Everything the generated code calls into, unknown but deterministic. */
  datatype Runtime = Runtime(
    isInstance: (nat, Type) -> bool,
    unbox: (nat, Type) -> int,
    box: (Type, Value) -> Obj,
    convert: (Primitive, Obj) -> Outcome<int>,
    isRemote: int -> bool,
    createRemote: int -> int,
    construct: (Type, int) -> Outcome<Value>,
    toStringArray: Obj -> Outcome<Obj>,
    defaultOf: Type -> int,
    invoke: (nat, seq<Value>) -> Outcome<Value>
  )

  datatype Callee = ConvertTo(p: Primitive) | IsRemoteInternal | RemoteCreate | ConvertToStringArray

  datatype Instr =
    | Ldarg(index: nat)
    | LdcI4S(operand: int)          // the encoded byte, 0..255
    | LdcI4_0
    | LdelemRef
    | Dup
    | Pop
    | Isinst(t: Type)
    | BrfalseS(target: nat)
    | Br(target: nat)
    | UnboxAny(t: Type)
    | Castclass(t: Type)
    | Call(f: Callee)
    | Newobj(t: Type)
    | LdlocS(local: nat)
    | CgtUn
    | CallMethod(m: nat, count: nat, hasResult: bool)
    | Ldnull
    | Box(t: Type)
    | Ret

  /** A method body: instructions, the position of each label and the type of each zeroed local. */
  datatype Code = Code(instrs: seq<Instr>, labels: seq<nat>, locals: seq<Type>)

  datatype Frame = Frame(args: seq<Value>, arguments: seq<Obj>)

  datatype State =
    | Running(pc: nat, stack: seq<Value>)
    | Returned(o: Obj)
    | Threw(e: Exn)
    | Stuck

  /** ldc.i4.s reads its operand as a signed byte. */
  function SignedByte(b: int): int {
    if b < 128 then b else b - 256
  }

  function OfType(t: Type, bits: int): Value {
    if t.Prim? then Num(bits) else StructValue(t, bits)
  }

  function Push(pc: nat, stack: seq<Value>, v: Value): State {
    Running(pc + 1, stack + [v])
  }

  function PushOutcome(pc: nat, stack: seq<Value>, v: Outcome<Value>): State {
    match v
    case Ok(x) => Push(pc, stack, x)
    case Throws(e) => Threw(e)
  }

  function CallResult(rt: Runtime, f: Callee, v: Value): Outcome<Value>
    requires Accepts(f, v)
  {
    match f
    case ConvertTo(p) =>
      (match rt.convert(p, v.o)
       case Ok(n) => Ok(Num(n))
       case Throws(e) => Throws(e))
    case IsRemoteInternal => Ok(Num(if rt.isRemote(v.bits) then 1 else 0))
    case RemoteCreate => Ok(StructValue(Remote, rt.createRemote(v.n)))
    case ConvertToStringArray =>
      (match rt.toStringArray(v.o)
       case Ok(o) => Ok(Ref(o))
       case Throws(e) => Throws(e))
  }

  predicate Accepts(f: Callee, v: Value) {
    match f
    case ConvertTo(_) => v.Ref?
    case IsRemoteInternal => v.StructValue? && v.t == Remote
    case RemoteCreate => v.Num?
    case ConvertToStringArray => v.Ref?
  }

  /** Instructions that replace the top of the stack. */
  function StepTop(rt: Runtime, code: Code, i: Instr, pc: nat, rest: seq<Value>, top: Value): State {
    match i
    case Dup => Running(pc + 1, rest + [top, top])
    case Pop => Running(pc + 1, rest)
    case Isinst(t) =>
      if !top.Ref? then Stuck
      else if top.o.Instance? && rt.isInstance(top.o.id, t) then Push(pc, rest, top)
      else Push(pc, rest, Ref(Null))
    case BrfalseS(l) =>
      if !top.Ref? || l >= |code.labels| then Stuck
      else Running(if top.o.Null? then code.labels[l] else pc + 1, rest)
    case UnboxAny(t) =>
      if !top.Ref? then Stuck
      else if top.o.Null? then Threw(NullReference)
      else if !rt.isInstance(top.o.id, t) then Threw(InvalidCast)
      else Push(pc, rest, OfType(t, rt.unbox(top.o.id, t)))
    case Castclass(t) =>
      if !top.Ref? then Stuck
      else if top.o.Null? || rt.isInstance(top.o.id, t) then Push(pc, rest, top)
      else Threw(InvalidCast)
    case Call(f) => if !Accepts(f, top) then Stuck else PushOutcome(pc, rest, CallResult(rt, f, top))
    case Newobj(t) =>
      if !(top.StructValue? && top.t == Remote) then Stuck
      else PushOutcome(pc, rest, rt.construct(t, top.bits))
    case Box(t) => Push(pc, rest, Ref(rt.box(t, top)))
    case Ret => if rest == [] && top.Ref? then Returned(top.o) else Stuck
    case _ => Stuck
  }

  function StepCall(rt: Runtime, m: nat, count: nat, hasResult: bool, pc: nat, stack: seq<Value>): State {
    if |stack| < count then Stuck
    else
      var rest := stack[..|stack| - count];
      match rt.invoke(m, stack[|stack| - count..])
      case Throws(e) => Threw(e)
      case Ok(v) => if hasResult then Push(pc, rest, v) else Running(pc + 1, rest)
  }

  function StepElement(frame: Frame, pc: nat, stack: seq<Value>): State {
    if |stack| < 2 then Stuck
    else
      var elements, index := stack[|stack| - 2], stack[|stack| - 1];
      if !elements.ArgumentArray? || !index.Num? then Stuck
      else if 0 <= index.n < |frame.arguments| then
        Push(pc, stack[..|stack| - 2], Ref(frame.arguments[index.n]))
      else Threw(IndexOutOfRange)
  }

  function Step(rt: Runtime, code: Code, frame: Frame, s: State): State {
    if !s.Running? then s
    else if s.pc >= |code.instrs| then Stuck
    else
      var i := code.instrs[s.pc];
      match i
      case Ldarg(k) => if k < |frame.args| then Push(s.pc, s.stack, frame.args[k]) else Stuck
      case LdcI4S(b) => Push(s.pc, s.stack, Num(SignedByte(b)))
      case LdcI4_0 => Push(s.pc, s.stack, Num(0))
      case Ldnull => Push(s.pc, s.stack, Ref(Null))
      case LdlocS(k) =>
        if k < |code.locals| then Push(s.pc, s.stack, OfType(code.locals[k], rt.defaultOf(code.locals[k])))
        else Stuck
      case Br(l) => if l < |code.labels| then Running(code.labels[l], s.stack) else Stuck
      case LdelemRef => StepElement(frame, s.pc, s.stack)
      case CgtUn =>
        if |s.stack| < 2 || !s.stack[|s.stack| - 1].Num? || !s.stack[|s.stack| - 2].Num? then Stuck
        else Push(s.pc, s.stack[..|s.stack| - 2],
                  Num(if UInt(s.stack[|s.stack| - 2].n) > UInt(s.stack[|s.stack| - 1].n) then 1 else 0))
      case CallMethod(m, count, hasResult) => StepCall(rt, m, count, hasResult, s.pc, s.stack)
      case _ =>
        if |s.stack| == 0 then Stuck
        else StepTop(rt, code, i, s.pc, s.stack[..|s.stack| - 1], s.stack[|s.stack| - 1])
  }

  function UInt(n: int): int { n % 0x1_0000_0000 }

  /** n steps of the machine. A state that is no longer running stays as it is. */
  function Run(rt: Runtime, code: Code, frame: Frame, s: State, n: nat): State
    decreases n
  {
    if n == 0 then s else Run(rt, code, frame, Step(rt, code, frame, s), n - 1)
  }

  lemma {:induction false} RunSplits(rt: Runtime, code: Code, frame: Frame, s: State, n: nat, m: nat)
    ensures Run(rt, code, frame, s, n + m) == Run(rt, code, frame, Run(rt, code, frame, s, n), m)
    decreases n
  {
    if n == 0 {
    } else {
      RunSplits(rt, code, frame, Step(rt, code, frame, s), n - 1, m);
    }
  }

  lemma {:induction false} RunDone(rt: Runtime, code: Code, frame: Frame, s: State, n: nat)
    requires !s.Running?
    ensures Run(rt, code, frame, s, n) == s
    decreases n
  {
    if n == 0 {
    } else {
      RunDone(rt, code, frame, s, n - 1);
    }
  }

  /** The machine gets from s to r within n steps, and stays there if r is final. */
  ghost predicate Reaches(rt: Runtime, code: Code, frame: Frame, s: State, r: State, n: nat) {
    exists k: nat {:trigger Within(k, n)} :: Within(k, n) && Run(rt, code, frame, s, k) == r
  }

  predicate Within(k: nat, n: nat) { k <= n }

  lemma ReachesNow(rt: Runtime, code: Code, frame: Frame, s: State)
    ensures Reaches(rt, code, frame, s, s, 0)
  {
    assert Within(0, 0) && Run(rt, code, frame, s, 0) == s;
  }

  lemma ReachesStep(rt: Runtime, code: Code, frame: Frame, s: State, r: State, n: nat)
    requires Reaches(rt, code, frame, Step(rt, code, frame, s), r, n)
    ensures Reaches(rt, code, frame, s, r, n + 1)
  {
    var k: nat :| Within(k, n) && Run(rt, code, frame, Step(rt, code, frame, s), k) == r;
    assert Within(k + 1, n + 1) && Run(rt, code, frame, s, k + 1) == r;
  }

  lemma ReachesTrans(rt: Runtime, code: Code, frame: Frame, s: State, r: State, t: State, n: nat, m: nat)
    requires Reaches(rt, code, frame, s, r, n) && Reaches(rt, code, frame, r, t, m)
    ensures Reaches(rt, code, frame, s, t, n + m)
  {
    var k: nat :| Within(k, n) && Run(rt, code, frame, s, k) == r;
    var j: nat :| Within(j, m) && Run(rt, code, frame, r, j) == t;
    RunSplits(rt, code, frame, s, k, j);
    assert Within(k + j, n + m) && Run(rt, code, frame, s, k + j) == t;
  }

  lemma ReachesFinal(rt: Runtime, code: Code, frame: Frame, s: State, r: State, n: nat, m: nat)
    requires Reaches(rt, code, frame, s, r, n) && !r.Running? && m >= n
    ensures Run(rt, code, frame, s, m) == r
  {
    var k: nat :| Within(k, n) && Run(rt, code, frame, s, k) == r;
    RunSplits(rt, code, frame, s, k, m - k);
    RunDone(rt, code, frame, r, m - k);
  }

  // ---- Stack heights ----

  function Pops(i: Instr): nat {
    match i
    case Ldarg(_) => 0
    case LdcI4S(_) => 0
    case LdcI4_0 => 0
    case Ldnull => 0
    case LdlocS(_) => 0
    case Br(_) => 0
    case LdelemRef => 2
    case CgtUn => 2
    case CallMethod(_, count, _) => count
    case _ => 1
  }

  function Pushes(i: Instr): nat {
    match i
    case Dup => 2
    case Pop => 0
    case BrfalseS(_) => 0
    case Br(_) => 0
    case Ret => 0
    case CallMethod(_, _, hasResult) => if hasResult then 1 else 0
    case _ => 1
  }

  /** h gives one stack height per position, and every way to arrive at a position agrees with it. */
  ghost predicate HeightFits(code: Code, h: seq<nat>, pc: nat)
    requires pc < |code.instrs| < |h|
  {
    var i := code.instrs[pc];
    && h[pc] >= Pops(i)
    && var after := h[pc] - Pops(i) + Pushes(i);
       && (!i.Br? && !i.Ret? ==> h[pc + 1] == after)
       && ((i.Br? || i.BrfalseS?) ==>
             i.target < |code.labels| && code.labels[i.target] < |h| && h[code.labels[i.target]] == after)
       && (i.Ret? ==> h[pc] == 1)
  }

  ghost predicate Balanced(code: Code, h: seq<nat>) {
    && |h| == |code.instrs| + 1 && h[0] == 0
    && forall pc :: 0 <= pc < |code.instrs| ==> HeightFits(code, h, pc)
  }
}
