/** Func.Construct: compiles a parameter list to IL that binds loosely typed arguments and calls the method. */
module DynFunc {
  import opened ILMachine

  datatype Param = Param(t: Type, isSource: bool)

  datatype Signature = Signature(id: nat, hasThis: bool, params: seq<Param>, result: Type)

  datatype CompileError = ArgumentException | KeyNotFound | TargetParameterCount

  datatype Compiled<T> = Emitted(value: T) | Fails(e: CompileError)

  /** Which types have a constructor that takes a Remote. */
  type Reflection = Type -> bool

  predicate Convertible(p: Primitive) { p != IntPtr && p != UIntPtr }

  // ---- The code that is emitted ----

  function RemoteArg(hasThis: bool): nat { if hasThis then 1 else 0 }

  function ArgumentsArg(hasThis: bool): nat { if hasThis then 2 else 1 }

  function Appended(e: Code, more: seq<Instr>): Code {
    e.(instrs := e.instrs + more)
  }

  function LoadArgument(hasThis: bool, p: nat): seq<Instr> {
    [Ldarg(ArgumentsArg(hasThis)), LdcI4S(p % 256), LdelemRef]
  }

  function SourceCode(reflect: Reflection, hasThis: bool, t: Type): Compiled<seq<Instr>> {
    if t == Remote then Emitted([Ldarg(RemoteArg(hasThis))])
    else if t == Prim(Boolean) then Emitted([Ldarg(RemoteArg(hasThis)), Call(IsRemoteInternal)])
    else if reflect(t) then Emitted([Ldarg(RemoteArg(hasThis)), Newobj(t)])
    else Fails(ArgumentException)
  }

  /** A value type argument: unbox it if it has the type already, otherwise convert or default it. */
  function ValueTypeCode(hasThis: bool, t: Type, p: nat, e: Code): Code {
    var b, l := |e.instrs|, |e.labels|;
    var other := if t.Prim? then [Call(ConvertTo(t.p))] else [Pop, LdlocS(|e.locals|)];
    Code(e.instrs + LoadArgument(hasThis, p) + [Dup, Isinst(t), BrfalseS(l), UnboxAny(t), Br(l + 1)] + other,
         e.labels + [b + 8, b + 8 + |other|],
         if t.Prim? then e.locals else e.locals + [t])
  }

  function ParamCode(reflect: Reflection, hasThis: bool, par: Param, p: nat, e: Code): Compiled<Code> {
    if par.isSource then
      match SourceCode(reflect, hasThis, par.t)
      case Fails(err) => Fails(err)
      case Emitted(ops) => Emitted(Appended(e, ops))
    else if par.t.IsValueType() then
      if par.t.Prim? && !Convertible(par.t.p) then Fails(KeyNotFound)
      else Emitted(ValueTypeCode(hasThis, par.t, p, e))
    else if par.t != Object then Emitted(Appended(e, LoadArgument(hasThis, p) + [Castclass(par.t)]))
    else Emitted(Appended(e, LoadArgument(hasThis, p)))
  }

  /** The argument counter advances on every parameter that is not the source. */
  function Next(par: Param, p: nat): nat { if par.isSource then p else p + 1 }

  function ParamsCode(reflect: Reflection, hasThis: bool, ps: seq<Param>, p: nat, e: Code): Compiled<Code> {
    if ps == [] then Emitted(e)
    else
      match ParamCode(reflect, hasThis, ps[0], p, e)
      case Fails(err) => Fails(err)
      case Emitted(e1) => ParamsCode(reflect, hasThis, ps[1..], Next(ps[0], p), e1)
  }

  function Prologue(hasThis: bool): Code {
    Code(if hasThis then [Ldarg(0)] else [], [], [])
  }

  function ArgCount(sig: Signature): nat { |sig.params| + if sig.hasThis then 1 else 0 }

  function Epilogue(sig: Signature): seq<Instr> {
    [CallMethod(sig.id, ArgCount(sig), sig.result != Void), if sig.result == Void then Ldnull else Box(sig.result), Ret]
  }

  function Construct(reflect: Reflection, sig: Signature): Compiled<Code> {
    match ParamsCode(reflect, sig.hasThis, sig.params, 0, Prologue(sig.hasThis))
    case Fails(err) => Fails(err)
    case Emitted(e) => Emitted(Appended(e, Epilogue(sig)))
  }

  // ---- What a call should do ----

  /** The parameter the source attribute asks for, made from the remote. */
  function BindSource(rt: Runtime, t: Type, remote: int): Outcome<Value> {
    if t == Remote then Ok(StructValue(Remote, remote))
    else if t == Prim(Boolean) then Ok(Num(if rt.isRemote(remote) then 1 else 0))
    else rt.construct(t, remote)
  }

  function BindArgument(rt: Runtime, t: Type, o: Obj): Outcome<Value> {
    var same := o.Instance? && rt.isInstance(o.id, t);
    if t.IsValueType() then
      if same then Ok(OfType(t, rt.unbox(o.id, t)))
      else if t.Prim? then
        match rt.convert(t.p, o)
        case Ok(n) => Ok(Num(n))
        case Throws(x) => Throws(x)
      else Ok(OfType(t, rt.defaultOf(t)))
    else if t == Object || o.Null? || same then Ok(Ref(o))
    else Throws(InvalidCast)
  }

  function Bind(rt: Runtime, par: Param, remote: int, arguments: seq<Obj>, index: int): Outcome<Value> {
    if par.isSource then BindSource(rt, par.t, remote)
    else if 0 <= index < |arguments| then BindArgument(rt, par.t, arguments[index])
    else Throws(IndexOutOfRange)
  }

  /** Binds the parameters left to right; at maps the argument counter to the element that is read. */
  function BindAll(rt: Runtime, ps: seq<Param>, remote: int, arguments: seq<Obj>, p: nat,
                   at: nat -> int): Outcome<seq<Value>> {
    if ps == [] then Ok([])
    else
      match Bind(rt, ps[0], remote, arguments, at(p))
      case Throws(x) => Throws(x)
      case Ok(v) =>
        match BindAll(rt, ps[1..], remote, arguments, Next(ps[0], p), at)
        case Throws(x) => Throws(x)
        case Ok(vs) => Ok([v] + vs)
  }

  function This(hasThis: bool, target: Obj): seq<Value> { if hasThis then [Ref(target)] else [] }

  function Finish(rt: Runtime, sig: Signature, target: Obj, bound: Outcome<seq<Value>>): State {
    match bound
    case Throws(x) => Threw(x)
    case Ok(vs) =>
      match rt.invoke(sig.id, This(sig.hasThis, target) + vs)
      case Throws(x) => Threw(x)
      case Ok(v) => Returned(if sig.result == Void then Null else rt.box(sig.result, v))
  }

  /** The call the caller means: argument i of the array goes to the i-th parameter that takes one. */
  function DirectCall(rt: Runtime, sig: Signature, target: Obj, remote: int, arguments: seq<Obj>): State {
    Finish(rt, sig, target, BindAll(rt, sig.params, remote, arguments, 0, p => p))
  }

  function EntryFrame(hasThis: bool, target: Obj, remote: int, arguments: seq<Obj>): Frame {
    Frame(This(hasThis, target) + [StructValue(Remote, remote), ArgumentArray], arguments)
  }

  /** The element the emitted ldc.i4.s operand selects. */
  function EncodedIndex(p: nat): int { SignedByte(p % 256) }

  // ---- One parameter ----

  ghost predicate Extends(e: Code, code: Code) {
    e.instrs <= code.instrs && e.labels <= code.labels && e.locals <= code.locals
  }

  function Bound(pc: nat, stack: seq<Value>, v: Outcome<Value>): State {
    match v
    case Ok(x) => Running(pc, stack + [x])
    case Throws(x) => Threw(x)
  }

  lemma RunSource(rt: Runtime, reflect: Reflection, hasThis: bool, t: Type, e: Code, code: Code,
                  target: Obj, remote: int, arguments: seq<Obj>, stack: seq<Value>)
    requires SourceCode(reflect, hasThis, t).Emitted?
    requires Extends(Appended(e, SourceCode(reflect, hasThis, t).value), code)
    ensures var ops := SourceCode(reflect, hasThis, t).value;
      Reaches(rt, code, EntryFrame(hasThis, target, remote, arguments), Running(|e.instrs|, stack),
              Bound(|e.instrs| + |ops|, stack, BindSource(rt, t, remote)), |ops|)
  {
    var frame := EntryFrame(hasThis, target, remote, arguments);
    var ops := SourceCode(reflect, hasThis, t).value;
    var b := |e.instrs|;
    var s0 := Running(b, stack);
    assert code.instrs[b] == (e.instrs + ops)[b] == ops[0];
    var s1 := Step(rt, code, frame, s0);
    assert s1 == Running(b + 1, stack + [StructValue(Remote, remote)]);
    ReachesNow(rt, code, frame, s1);
    if |ops| == 2 {
      assert code.instrs[b + 1] == (e.instrs + ops)[b + 1] == ops[1];
      var s2 := Step(rt, code, frame, s1);
      assert s1.stack[..|s1.stack| - 1] == stack;
      assert s2 == Bound(b + 2, stack, BindSource(rt, t, remote));
      ReachesNow(rt, code, frame, s2);
      ReachesStep(rt, code, frame, s1, s2, 0);
      ReachesStep(rt, code, frame, s0, s2, 1);
    } else {
      ReachesStep(rt, code, frame, s0, s1, 0);
    }
  }

  /** The three instructions that fetch an argument. */
  lemma RunLoad(rt: Runtime, hasThis: bool, p: nat, b: nat, code: Code,
                target: Obj, remote: int, arguments: seq<Obj>, stack: seq<Value>)
    requires b + 3 <= |code.instrs| && code.instrs[b..b + 3] == LoadArgument(hasThis, p)
    ensures var i := EncodedIndex(p);
      Reaches(rt, code, EntryFrame(hasThis, target, remote, arguments), Running(b, stack),
              if 0 <= i < |arguments| then Running(b + 3, stack + [Ref(arguments[i])]) else Threw(IndexOutOfRange), 3)
  {
    var frame := EntryFrame(hasThis, target, remote, arguments);
    var ops := LoadArgument(hasThis, p);
    assert code.instrs[b] == code.instrs[b..b + 3][0];
    assert code.instrs[b + 1] == code.instrs[b..b + 3][1];
    assert code.instrs[b + 2] == code.instrs[b..b + 3][2];
    var s0 := Running(b, stack);
    var s1 := Step(rt, code, frame, s0);
    assert s1 == Running(b + 1, stack + [ArgumentArray]);
    var s2 := Step(rt, code, frame, s1);
    assert s2 == Running(b + 2, stack + [ArgumentArray] + [Num(EncodedIndex(p))]);
    assert s2.stack[..|s2.stack| - 2] == stack;
    var s3 := Step(rt, code, frame, s2);
    ReachesNow(rt, code, frame, s3);
    ReachesStep(rt, code, frame, s2, s3, 0);
    ReachesStep(rt, code, frame, s1, s3, 1);
    ReachesStep(rt, code, frame, s0, s3, 2);
  }

  /** Where the instructions and labels of a value type argument ended up. */
  lemma ValueTypeLayout(hasThis: bool, t: Type, p: nat, e: Code, code: Code)
    requires t.IsValueType() && Extends(ValueTypeCode(hasThis, t, p, e), code)
    ensures var b, l := |e.instrs|, |e.labels|;
      && |ValueTypeCode(hasThis, t, p, e).instrs| == (if t.Prim? then b + 9 else b + 10) <= |code.instrs|
      && code.instrs[b + 3] == Dup && code.instrs[b + 4] == Isinst(t) && code.instrs[b + 5] == BrfalseS(l)
      && code.instrs[b + 6] == UnboxAny(t) && code.instrs[b + 7] == Br(l + 1)
      && l + 1 < |code.labels| && code.labels[l] == b + 8
      && code.labels[l + 1] == |ValueTypeCode(hasThis, t, p, e).instrs|
      && (t.Prim? ==> code.instrs[b + 8] == Call(ConvertTo(t.p)))
      && (!t.Prim? ==> code.instrs[b + 8] == Pop && code.instrs[b + 9] == LdlocS(|e.locals|))
      && (!t.Prim? ==> |e.locals| < |code.locals| && code.locals[|e.locals|] == t)
  {
    var e1 := ValueTypeCode(hasThis, t, p, e);
    var b, l := |e.instrs|, |e.labels|;
    forall i | b <= i < |e1.instrs| ensures code.instrs[i] == e1.instrs[i] {}
    assert e1.labels[l] == code.labels[l] && e1.labels[l + 1] == code.labels[l + 1];
    assert !t.Prim? ==> e1.locals[|e.locals|] == code.locals[|e.locals|];
  }

  /** dup, isinst, brfalse: the object stays and control goes to the branch its type selects. */
  lemma RunTypeTest(rt: Runtime, t: Type, b: nat, l: nat, code: Code, frame: Frame, o: Obj, stack: seq<Value>)
    requires b + 2 < |code.instrs| && l < |code.labels|
    requires code.instrs[b] == Dup && code.instrs[b + 1] == Isinst(t) && code.instrs[b + 2] == BrfalseS(l)
    ensures var same := o.Instance? && rt.isInstance(o.id, t);
      Reaches(rt, code, frame, Running(b, stack + [Ref(o)]),
              Running(if same then b + 3 else code.labels[l], stack + [Ref(o)]), 3)
  {
    var same := o.Instance? && rt.isInstance(o.id, t);
    var s0 := Running(b, stack + [Ref(o)]);
    var s1 := Step(rt, code, frame, s0);
    assert s0.stack[..|s0.stack| - 1] == stack;
    assert s1 == Running(b + 1, stack + [Ref(o), Ref(o)]);
    var s2 := Step(rt, code, frame, s1);
    assert s1.stack[..|s1.stack| - 1] == stack + [Ref(o)];
    assert s2 == Running(b + 2, stack + [Ref(o)] + [if same then Ref(o) else Ref(Null)]);
    var s3 := Step(rt, code, frame, s2);
    assert s2.stack[..|s2.stack| - 1] == stack + [Ref(o)];
    ReachesNow(rt, code, frame, s3);
    ReachesStep(rt, code, frame, s2, s3, 0);
    ReachesStep(rt, code, frame, s1, s3, 1);
    ReachesStep(rt, code, frame, s0, s3, 2);
  }

  /** The branch for an object of the type. */
  lemma RunSameType(rt: Runtime, t: Type, b: nat, l: nat, code: Code, frame: Frame, o: Obj, stack: seq<Value>)
    requires b + 1 < |code.instrs| && code.instrs[b] == UnboxAny(t) && code.instrs[b + 1] == Br(l) && l < |code.labels|
    requires o.Instance? && rt.isInstance(o.id, t)
    ensures Reaches(rt, code, frame, Running(b, stack + [Ref(o)]),
                    Running(code.labels[l], stack + [OfType(t, rt.unbox(o.id, t))]), 2)
  {
    var s0 := Running(b, stack + [Ref(o)]);
    assert s0.stack[..|s0.stack| - 1] == stack;
    var s1 := Step(rt, code, frame, s0);
    var s2 := Step(rt, code, frame, s1);
    ReachesNow(rt, code, frame, s2);
    ReachesStep(rt, code, frame, s1, s2, 0);
    ReachesStep(rt, code, frame, s0, s2, 1);
  }

  lemma RunConvert(rt: Runtime, p: Primitive, b: nat, code: Code, frame: Frame, o: Obj, stack: seq<Value>)
    requires b < |code.instrs| && code.instrs[b] == Call(ConvertTo(p))
    ensures Reaches(rt, code, frame, Running(b, stack + [Ref(o)]),
                    Bound(b + 1, stack, CallResult(rt, ConvertTo(p), Ref(o))), 1)
  {
    var s0 := Running(b, stack + [Ref(o)]);
    assert s0.stack[..|s0.stack| - 1] == stack;
    var s1 := Step(rt, code, frame, s0);
    ReachesNow(rt, code, frame, s1);
    ReachesStep(rt, code, frame, s0, s1, 0);
  }

  lemma RunDefault(rt: Runtime, b: nat, k: nat, code: Code, frame: Frame, o: Obj, stack: seq<Value>)
    requires b + 1 < |code.instrs| && code.instrs[b] == Pop && code.instrs[b + 1] == LdlocS(k) && k < |code.locals|
    ensures Reaches(rt, code, frame, Running(b, stack + [Ref(o)]),
                    Running(b + 2, stack + [OfType(code.locals[k], rt.defaultOf(code.locals[k]))]), 2)
  {
    var s0 := Running(b, stack + [Ref(o)]);
    assert s0.stack[..|s0.stack| - 1] == stack;
    var s1 := Step(rt, code, frame, s0);
    assert s1 == Running(b + 1, stack);
    var s2 := Step(rt, code, frame, s1);
    ReachesNow(rt, code, frame, s2);
    ReachesStep(rt, code, frame, s1, s2, 0);
    ReachesStep(rt, code, frame, s0, s2, 1);
  }

  lemma RunCast(rt: Runtime, t: Type, b: nat, code: Code, frame: Frame, o: Obj, stack: seq<Value>)
    requires b < |code.instrs| && code.instrs[b] == Castclass(t) && !t.IsValueType() && t != Object
    ensures Reaches(rt, code, frame, Running(b, stack + [Ref(o)]), Bound(b + 1, stack, BindArgument(rt, t, o)), 1)
  {
    var s0 := Running(b, stack + [Ref(o)]);
    assert s0.stack[..|s0.stack| - 1] == stack;
    var s1 := Step(rt, code, frame, s0);
    ReachesNow(rt, code, frame, s1);
    ReachesStep(rt, code, frame, s0, s1, 0);
  }

  /** The type test and the branch it selects, from the position after the load. */
  lemma RunValueType(rt: Runtime, hasThis: bool, t: Type, p: nat, e: Code, code: Code, frame: Frame, o: Obj,
                     stack: seq<Value>)
    requires t.IsValueType() && Extends(ValueTypeCode(hasThis, t, p, e), code)
    ensures var n := |ValueTypeCode(hasThis, t, p, e).instrs| - |e.instrs|;
      Reaches(rt, code, frame, Running(|e.instrs| + 3, stack + [Ref(o)]),
              Bound(|e.instrs| + n, stack, BindArgument(rt, t, o)), n - 3)
  {
    hide Step;
    ValueTypeLayout(hasThis, t, p, e, code);
    var b := |e.instrs|;
    var n := |ValueTypeCode(hasThis, t, p, e).instrs| - b;
    var same := o.Instance? && rt.isInstance(o.id, t);
    var s0 := Running(b + 3, stack + [Ref(o)]);
    var s3 := Running(b + (if same then 6 else 8), stack + [Ref(o)]);
    var final := Bound(b + n, stack, BindArgument(rt, t, o));
    RunTypeTest(rt, t, b + 3, |e.labels|, code, frame, o, stack);
    if same {
      RunSameType(rt, t, b + 6, |e.labels| + 1, code, frame, o, stack);
      ReachesTrans(rt, code, frame, s0, s3, final, 3, 2);
      ReachesMore(rt, code, frame, s0, final, 5, n - 3);
    } else if t.Prim? {
      RunConvert(rt, t.p, b + 8, code, frame, o, stack);
      ReachesTrans(rt, code, frame, s0, s3, final, 3, 1);
      ReachesMore(rt, code, frame, s0, final, 4, n - 3);
    } else {
      RunDefault(rt, b + 8, |e.locals|, code, frame, o, stack);
      ReachesTrans(rt, code, frame, s0, s3, final, 3, 2);
      ReachesMore(rt, code, frame, s0, final, 5, n - 3);
    }
  }

  lemma ReachesMore(rt: Runtime, code: Code, frame: Frame, s: State, r: State, n: nat, m: nat)
    requires Reaches(rt, code, frame, s, r, n) && n <= m
    ensures Reaches(rt, code, frame, s, r, m)
  {
    var k: nat :| Within(k, n) && Run(rt, code, frame, s, k) == r;
    assert Within(k, m);
  }

  /** The code of one parameter leaves exactly the bound argument, or throws what binding throws. */
  lemma RunParam(rt: Runtime, reflect: Reflection, hasThis: bool, par: Param, p: nat, e: Code, code: Code,
                 target: Obj, remote: int, arguments: seq<Obj>, stack: seq<Value>)
    requires ParamCode(reflect, hasThis, par, p, e).Emitted?
    requires Extends(ParamCode(reflect, hasThis, par, p, e).value, code)
    ensures var e1 := ParamCode(reflect, hasThis, par, p, e).value;
      && Extends(e, e1)
      && Reaches(rt, code, EntryFrame(hasThis, target, remote, arguments), Running(|e.instrs|, stack),
                 Bound(|e1.instrs|, stack, Bind(rt, par, remote, arguments, EncodedIndex(p))), |e1.instrs| - |e.instrs|)
  {
    hide Step, EntryFrame;
    var e1 := ParamCode(reflect, hasThis, par, p, e).value;
    var b := |e.instrs|;
    var frame := EntryFrame(hasThis, target, remote, arguments);
    if par.isSource {
      RunSource(rt, reflect, hasThis, par.t, e, code, target, remote, arguments, stack);
    } else {
      assert code.instrs[b..b + 3] == e1.instrs[b..b + 3] == LoadArgument(hasThis, p);
      RunLoad(rt, hasThis, p, b, code, target, remote, arguments, stack);
      var i := EncodedIndex(p);
      var s0 := Running(b, stack);
      var n := |e1.instrs| - b;
      if !(0 <= i < |arguments|) {
        ReachesMore(rt, code, frame, s0, Threw(IndexOutOfRange), 3, n);
      } else {
        var s3 := Running(b + 3, stack + [Ref(arguments[i])]);
        var final := Bound(b + n, stack, BindArgument(rt, par.t, arguments[i]));
        if par.t.IsValueType() {
          RunValueType(rt, hasThis, par.t, p, e, code, frame, arguments[i], stack);
        } else if par.t != Object {
          assert code.instrs[b + 3] == e1.instrs[b + 3];
          RunCast(rt, par.t, b + 3, code, frame, arguments[i], stack);
        } else {
          ReachesNow(rt, code, frame, s3);
        }
        ReachesTrans(rt, code, frame, s0, s3, final, 3, n - 3);
      }
    }
  }

  // ---- All parameters, and the call ----

  function BoundAll(pc: nat, stack: seq<Value>, v: Outcome<seq<Value>>): State {
    match v
    case Ok(vs) => Running(pc, stack + vs)
    case Throws(x) => Threw(x)
  }

  lemma {:induction false} ParamsExtend(reflect: Reflection, hasThis: bool, ps: seq<Param>, p: nat, e: Code)
    requires ParamsCode(reflect, hasThis, ps, p, e).Emitted?
    ensures Extends(e, ParamsCode(reflect, hasThis, ps, p, e).value)
    decreases |ps|
  {
    if ps == [] {
    } else {
      var e1 := ParamCode(reflect, hasThis, ps[0], p, e).value;
      ParamsExtend(reflect, hasThis, ps[1..], Next(ps[0], p), e1);
    }
  }

  lemma {:induction false} RunParams(rt: Runtime, reflect: Reflection, hasThis: bool, ps: seq<Param>, p: nat, e: Code,
                                     code: Code, target: Obj, remote: int, arguments: seq<Obj>, stack: seq<Value>)
    requires ParamsCode(reflect, hasThis, ps, p, e).Emitted?
    requires Extends(ParamsCode(reflect, hasThis, ps, p, e).value, code)
    ensures var e1 := ParamsCode(reflect, hasThis, ps, p, e).value;
      && Extends(e, e1)
      && Reaches(rt, code, EntryFrame(hasThis, target, remote, arguments), Running(|e.instrs|, stack),
                 BoundAll(|e1.instrs|, stack, BindAll(rt, ps, remote, arguments, p, EncodedIndex)),
                 |e1.instrs| - |e.instrs|)
    decreases |ps|
  {
    hide Step, ParamCode, Bind;
    var frame := EntryFrame(hasThis, target, remote, arguments);
    var s0 := Running(|e.instrs|, stack);
    if ps == [] {
      assert stack + [] == stack;
      ReachesNow(rt, code, frame, s0);
    } else {
      var e1 := ParamCode(reflect, hasThis, ps[0], p, e).value;
      var last := ParamsCode(reflect, hasThis, ps, p, e).value;
      ParamsExtend(reflect, hasThis, ps[1..], Next(ps[0], p), e1);
      RunParam(rt, reflect, hasThis, ps[0], p, e, code, target, remote, arguments, stack);
      var v := Bind(rt, ps[0], remote, arguments, EncodedIndex(p));
      var total := |last.instrs| - |e.instrs|;
      if v.Throws? {
        ReachesMore(rt, code, frame, s0, Threw(v.e), |e1.instrs| - |e.instrs|, total);
      } else {
        var s1 := Running(|e1.instrs|, stack + [v.value]);
        RunParams(rt, reflect, hasThis, ps[1..], Next(ps[0], p), e1, code, target, remote, arguments,
                  stack + [v.value]);
        var rest := BindAll(rt, ps[1..], remote, arguments, Next(ps[0], p), EncodedIndex);
        if rest.Ok? {
          assert stack + [v.value] + rest.value == stack + ([v.value] + rest.value);
        }
        ReachesTrans(rt, code, frame, s0, s1, BoundAll(|last.instrs|, stack + [v.value], rest),
                     |e1.instrs| - |e.instrs|, |last.instrs| - |e1.instrs|);
      }
    }
  }

  lemma {:induction false} BindAllLength(rt: Runtime, ps: seq<Param>, remote: int, arguments: seq<Obj>, p: nat,
                                         at: nat -> int)
    requires BindAll(rt, ps, remote, arguments, p, at).Ok?
    ensures |BindAll(rt, ps, remote, arguments, p, at).value| == |ps|
  {
    if ps == [] {
    } else {
      BindAllLength(rt, ps[1..], remote, arguments, Next(ps[0], p), at);
    }
  }

  /** The call leaves its result, if it has one, on an otherwise empty stack. */
  lemma CallStep(rt: Runtime, sig: Signature, code: Code, frame: Frame, b: nat, values: seq<Value>)
    requires |values| == ArgCount(sig) && b < |code.instrs| && code.instrs[b] == Epilogue(sig)[0]
    ensures Step(rt, code, frame, Running(b, values)) == (
      match rt.invoke(sig.id, values)
      case Throws(x) => Threw(x)
      case Ok(v) => Running(b + 1, if sig.result != Void then [v] else []))
  {
    assert values[..0] == [] && values[0..] == values;
  }

  lemma BoxStep(rt: Runtime, sig: Signature, code: Code, frame: Frame, b: nat, v: Value)
    requires b < |code.instrs| && code.instrs[b] == Epilogue(sig)[1]
    ensures Step(rt, code, frame, Running(b, if sig.result != Void then [v] else []))
         == Running(b + 1, [Ref(if sig.result == Void then Null else rt.box(sig.result, v))])
  {
    var r := Ref(if sig.result == Void then Null else rt.box(sig.result, v));
    assert [] + [r] == [r] && [v][..0] == [];
  }

  lemma RetStep(rt: Runtime, code: Code, frame: Frame, b: nat, o: Obj)
    requires b < |code.instrs| && code.instrs[b] == Ret
    ensures Step(rt, code, frame, Running(b, [Ref(o)])) == Returned(o)
  {
    assert [Ref(o)][..0] == [];
  }

  lemma StepThrew(rt: Runtime, code: Code, frame: Frame, x: Exn)
    ensures Step(rt, code, frame, Threw(x)) == Threw(x)
  {}

  lemma EpilogueAt(sig: Signature, e: Code)
    ensures var code, b := Appended(e, Epilogue(sig)), |e.instrs|;
      && |Epilogue(sig)| == 3 && |code.instrs| == b + 3
      && code.instrs[b] == Epilogue(sig)[0] && code.instrs[b + 1] == Epilogue(sig)[1]
        && code.instrs[b + 2] == Epilogue(sig)[2] == Ret
  {}

  lemma RunEpilogue(rt: Runtime, sig: Signature, e: Code, frame: Frame, values: seq<Value>)
    requires |values| == ArgCount(sig)
    ensures Reaches(rt, Appended(e, Epilogue(sig)), frame, Running(|e.instrs|, values),
              match rt.invoke(sig.id, values)
              case Throws(x) => Threw(x)
              case Ok(v) => Returned(if sig.result == Void then Null else rt.box(sig.result, v)), 3)
  {
    var code := Appended(e, Epilogue(sig));
    var b := |e.instrs|;
    EpilogueAt(sig, e);
    hide *;
    var s0 := Running(b, values);
    var s1 := Step(rt, code, frame, s0);
    var s2 := Step(rt, code, frame, s1);
    var s3 := Step(rt, code, frame, s2);
    CallStep(rt, sig, code, frame, b, values);
    match rt.invoke(sig.id, values) {
      case Throws(x) => StepThrew(rt, code, frame, x);
      case Ok(v) =>
        var o := if sig.result == Void then Null else rt.box(sig.result, v);
        BoxStep(rt, sig, code, frame, b + 1, v);
        RetStep(rt, code, frame, b + 2, o);
    }
    ReachesNow(rt, code, frame, s3);
    ReachesStep(rt, code, frame, s2, s3, 0);
    ReachesStep(rt, code, frame, s1, s3, 1);
    ReachesStep(rt, code, frame, s0, s3, 2);
  }

  /** Running the whole body: the binding with encoded indices, the call and the boxed result. */
  lemma RunBody(rt: Runtime, reflect: Reflection, sig: Signature, target: Obj, remote: int, arguments: seq<Obj>)
    requires Construct(reflect, sig).Emitted?
    ensures var code := Construct(reflect, sig).value;
      Reaches(rt, code, EntryFrame(sig.hasThis, target, remote, arguments), Running(0, []),
              Finish(rt, sig, target, BindAll(rt, sig.params, remote, arguments, 0, EncodedIndex)), |code.instrs|)
  {
    hide Run;
    var code := Construct(reflect, sig).value;
    var frame := EntryFrame(sig.hasThis, target, remote, arguments);
    var e0 := Prologue(sig.hasThis);
    var e := ParamsCode(reflect, sig.hasThis, sig.params, 0, e0).value;
    var this' := This(sig.hasThis, target);
    var s0 := Running(0, []);
    var s1 := Running(|e0.instrs|, this');
    RunParams(rt, reflect, sig.hasThis, sig.params, 0, e0, code, target, remote, arguments, this');
    assert Reaches(rt, code, frame, s0, s1, |e0.instrs|) by {
      ReachesNow(rt, code, frame, s1);
      if sig.hasThis {
        assert code.instrs[0] == e.instrs[0] == e0.instrs[0];
        assert [] + [Ref(target)] == this';
        ReachesStep(rt, code, frame, s0, s1, 0);
      }
    }
    var bound := BindAll(rt, sig.params, remote, arguments, 0, EncodedIndex);
    var s2 := BoundAll(|e.instrs|, this', bound);
    ReachesTrans(rt, code, frame, s0, s1, s2, |e0.instrs|, |e.instrs| - |e0.instrs|);
    if bound.Ok? {
      BindAllLength(rt, sig.params, remote, arguments, 0, EncodedIndex);
      RunEpilogue(rt, sig, e, frame, this' + bound.value);
      ReachesTrans(rt, code, frame, s0, s2, Finish(rt, sig, target, bound), |e.instrs|, 3);
    } else {
      ReachesMore(rt, code, frame, s0, s2, |e.instrs|, |code.instrs|);
    }
  }

  // ---- The compiler theorem ----

  /** How many parameters take an element of the argument array. */
  function Consumed(ps: seq<Param>): nat {
    if ps == [] then 0 else Next(ps[0], 0) + Consumed(ps[1..])
  }

  lemma {:induction false} SameBinding(rt: Runtime, ps: seq<Param>, remote: int, arguments: seq<Obj>, p: nat)
    requires p + Consumed(ps) <= 128
    ensures BindAll(rt, ps, remote, arguments, p, EncodedIndex) == BindAll(rt, ps, remote, arguments, p, q => q)
    decreases |ps|
  {
    if ps == [] {
    } else {
      SameBinding(rt, ps[1..], remote, arguments, Next(ps[0], p));
    }
  }

  /** The generated code does what the direct call does, for every runtime, target, remote and arguments. */
  ghost predicate Correct(code: Code, sig: Signature) {
    forall rt, target, remote, arguments, n: nat :: n >= |code.instrs| ==>
      Run(rt, code, EntryFrame(sig.hasThis, target, remote, arguments), Running(0, []), n)
      == DirectCall(rt, sig, target, remote, arguments)
  }

  lemma RunIsFinish(rt: Runtime, reflect: Reflection, sig: Signature, target: Obj, remote: int, arguments: seq<Obj>,
                    n: nat)
    requires Construct(reflect, sig).Emitted? && n >= |Construct(reflect, sig).value.instrs|
    ensures Run(rt, Construct(reflect, sig).value, EntryFrame(sig.hasThis, target, remote, arguments),
                Running(0, []), n)
         == Finish(rt, sig, target, BindAll(rt, sig.params, remote, arguments, 0, EncodedIndex))
  {
    var code := Construct(reflect, sig).value;
    RunBody(rt, reflect, sig, target, remote, arguments);
    ReachesFinal(rt, code, EntryFrame(sig.hasThis, target, remote, arguments), Running(0, []),
                 Finish(rt, sig, target, BindAll(rt, sig.params, remote, arguments, 0, EncodedIndex)),
                 |code.instrs|, n);
  }

  /** A runtime in which every object has every type and nothing throws. */
  const PERMISSIVE: Runtime := Runtime(
    (o, t) => true, (o, t) => 0, (t, v) => Null, (p, o) => Ok(0), r => true, r => r,
    (t, r) => Ok(Num(0)), o => Ok(o), t => 0, (m, vs) => Ok(Num(0)))

  lemma {:induction false} PermissiveBinds(ps: seq<Param>, arguments: seq<Obj>, p: nat)
    requires |arguments| >= p + Consumed(ps) && forall o :: o in arguments ==> o.Instance?
    ensures BindAll(PERMISSIVE, ps, 0, arguments, p, q => q).Ok?
    decreases |ps|
  {
    if ps == [] {
    } else {
      PermissiveBinds(ps[1..], arguments, Next(ps[0], p));
      assert !ps[0].isSource ==> arguments[p] in arguments;
    }
  }

  lemma {:induction false} EncodedThrows(ps: seq<Param>, arguments: seq<Obj>, p: nat)
    requires p <= 128 < p + Consumed(ps)
    ensures BindAll(PERMISSIVE, ps, 0, arguments, p, EncodedIndex).Throws?
    decreases |ps|
  {
    if ps[0].isSource || p < 128 {
      EncodedThrows(ps[1..], arguments, Next(ps[0], p));
    } else {
      assert EncodedIndex(p) == -128;
    }
  }

  /** The generated code is correct exactly when at most 128 parameters take an argument. */
  lemma ConstructCorrect(reflect: Reflection, sig: Signature)
    requires Construct(reflect, sig).Emitted?
    ensures Correct(Construct(reflect, sig).value, sig) <==> Consumed(sig.params) <= 128
  {
    var code := Construct(reflect, sig).value;
    if Consumed(sig.params) <= 128 {
      forall rt, target, remote, arguments, n: nat | n >= |code.instrs|
        ensures Run(rt, code, EntryFrame(sig.hasThis, target, remote, arguments), Running(0, []), n)
             == DirectCall(rt, sig, target, remote, arguments)
      {
        RunIsFinish(rt, reflect, sig, target, remote, arguments, n);
        SameBinding(rt, sig.params, remote, arguments, 0);
      }
    } else {
      var arguments := seq(Consumed(sig.params), i => Instance(0));
      RunIsFinish(PERMISSIVE, reflect, sig, Null, 0, arguments, |code.instrs|);
      EncodedThrows(sig.params, arguments, 0);
      PermissiveBinds(sig.params, arguments, 0);
      assert Run(PERMISSIVE, code, EntryFrame(sig.hasThis, Null, 0, arguments), Running(0, []), |code.instrs|)
          != DirectCall(PERMISSIVE, sig, Null, 0, arguments);
    }
  }

  // ---- Stack heights ----

  /** Heights for everything emitted so far; the last entry is the height where emission continues. */
  ghost predicate BalancedSoFar(e: Code, h: seq<nat>, top: nat) {
    Balanced(e, h) && h[|e.instrs|] == top && forall i :: 0 <= i < |e.instrs| ==> !e.instrs[i].Ret?
  }

  lemma AppendBalanced(e: Code, e1: Code, h: seq<nat>, more: seq<nat>, top: nat)
    requires BalancedSoFar(e, h, top) && Extends(e, e1) && |e1.instrs| == |e.instrs| + |more|
    requires forall pc :: |e.instrs| <= pc < |e1.instrs| ==> HeightFits(e1, h + more, pc)
    ensures Balanced(e1, h + more)
  {
    var h1 := h + more;
    forall pc | 0 <= pc < |e1.instrs| ensures HeightFits(e1, h1, pc) {
      if pc < |e.instrs| {
        assert HeightFits(e, h, pc);
        assert e1.instrs[pc] == e.instrs[pc] && h1[pc] == h[pc] && h1[pc + 1] == h[pc + 1];
        var i := e.instrs[pc];
        if i.Br? || i.BrfalseS? {
          assert e1.labels[i.target] == e.labels[i.target];
        }
      }
    }
  }

  /** The heights that the code of one parameter adds, when it starts with `top` values on the stack. */
  function ParamHeights(par: Param, top: nat): seq<nat> {
    if par.isSource then if par.t == Remote then [top + 1] else [top + 1, top + 1]
    else if par.t.IsValueType() then
      [top + 1, top + 2, top + 1, top + 2, top + 2, top + 1, top + 1, top + 1] +
      (if par.t.Prim? then [top + 1] else [top, top + 1])
    else if par.t != Object then [top + 1, top + 2, top + 1, top + 1]
    else [top + 1, top + 2, top + 1]
  }

  lemma ValueTypeBalanced(hasThis: bool, par: Param, p: nat, e: Code, h: seq<nat>, top: nat)
    requires !par.isSource && par.t.IsValueType() && BalancedSoFar(e, h, top)
    ensures BalancedSoFar(ValueTypeCode(hasThis, par.t, p, e), h + ParamHeights(par, top), top + 1)
  {
    hide HeightFits;
    var e1 := ValueTypeCode(hasThis, par.t, p, e);
    var more := ParamHeights(par, top);
    var b := |e.instrs|;
    ValueTypeLayout(hasThis, par.t, p, e, e1);
    var loads := e1.instrs[b..b + 3];
    assert loads == LoadArgument(hasThis, p);
    assert loads[0] == e1.instrs[b] && loads[1] == e1.instrs[b + 1] && loads[2] == e1.instrs[b + 2];
    ValueTypeFits(par.t, e1, h + more, b, |e.labels|, top);
    AppendBalanced(e, e1, h, more, top);
  }

  lemma ValueTypeFits(t: Type, code: Code, h: seq<nat>, b: nat, l: nat, top: nat)
    requires b + 8 < |code.instrs| == |h| - 1 && |code.instrs| == b + (if t.Prim? then 9 else 10)
    requires code.instrs[b].Ldarg? && code.instrs[b + 1].LdcI4S? && code.instrs[b + 2].LdelemRef?
    requires code.instrs[b + 3] == Dup && code.instrs[b + 4] == Isinst(t) && code.instrs[b + 5] == BrfalseS(l)
    requires code.instrs[b + 6] == UnboxAny(t) && code.instrs[b + 7] == Br(l + 1)
    requires l + 1 < |code.labels| && code.labels[l] == b + 8 && code.labels[l + 1] == |code.instrs|
    requires t.Prim? ==> code.instrs[b + 8] == Call(ConvertTo(t.p))
    requires !t.Prim? ==> code.instrs[b + 8] == Pop && code.instrs[b + 9].LdlocS?
    requires h[b] == top && h[b + 1] == top + 1 && h[b + 2] == top + 2 && h[b + 3] == top + 1
    requires h[b + 4] == top + 2 && h[b + 5] == top + 2 && h[b + 6] == top + 1 && h[b + 7] == top + 1
    requires h[b + 8] == top + 1 && h[|code.instrs|] == top + 1 && (!t.Prim? ==> h[b + 9] == top)
    ensures forall pc :: b <= pc < |code.instrs| ==> HeightFits(code, h, pc)
  {
    assert HeightFits(code, h, b) && HeightFits(code, h, b + 1) && HeightFits(code, h, b + 2);
    assert HeightFits(code, h, b + 3) && HeightFits(code, h, b + 4) && HeightFits(code, h, b + 5);
    assert HeightFits(code, h, b + 6) && HeightFits(code, h, b + 7) && HeightFits(code, h, b + 8);
    assert !t.Prim? ==> HeightFits(code, h, b + 9);
  }

  lemma ParamBalanced(reflect: Reflection, hasThis: bool, par: Param, p: nat, e: Code, h: seq<nat>, top: nat)
    requires ParamCode(reflect, hasThis, par, p, e).Emitted? && BalancedSoFar(e, h, top)
    ensures BalancedSoFar(ParamCode(reflect, hasThis, par, p, e).value, h + ParamHeights(par, top), top + 1)
  {
    var e1 := ParamCode(reflect, hasThis, par, p, e).value;
    if !par.isSource && par.t.IsValueType() {
      ValueTypeBalanced(hasThis, par, p, e, h, top);
    } else {
      assert |e1.instrs| == |e.instrs| + |ParamHeights(par, top)|;
      AppendBalanced(e, e1, h, ParamHeights(par, top), top);
    }
  }

  lemma {:induction false} ParamsBalanced(reflect: Reflection, hasThis: bool, ps: seq<Param>, p: nat, e: Code,
                                          h: seq<nat>, top: nat)
    returns (h1: seq<nat>)
    requires ParamsCode(reflect, hasThis, ps, p, e).Emitted? && BalancedSoFar(e, h, top)
    ensures BalancedSoFar(ParamsCode(reflect, hasThis, ps, p, e).value, h1, top + |ps|)
    decreases |ps|
  {
    if ps == [] {
      h1 := h;
    } else {
      ParamBalanced(reflect, hasThis, ps[0], p, e, h, top);
      var e1 := ParamCode(reflect, hasThis, ps[0], p, e).value;
      h1 := ParamsBalanced(reflect, hasThis, ps[1..], Next(ps[0], p), e1, h + ParamHeights(ps[0], top), top + 1);
    }
  }

  /** Call, box or null, and return, when the arguments are on the stack. */
  lemma EpilogueBalanced(sig: Signature, e: Code, h: seq<nat>) returns (h1: seq<nat>)
    requires BalancedSoFar(e, h, ArgCount(sig))
    ensures Balanced(Appended(e, Epilogue(sig)), h1)
  {
    var code := Appended(e, Epilogue(sig));
    var more: seq<nat> := [if sig.result == Void then 0 else 1, 1, 0];
    assert code.instrs[|e.instrs|] == Epilogue(sig)[0] && code.instrs[|e.instrs| + 1] == Epilogue(sig)[1]
        && code.instrs[|e.instrs| + 2] == Epilogue(sig)[2];
    AppendBalanced(e, code, h, more, ArgCount(sig));
    h1 := h + more;
  }

  /** At every instruction and label of the body all paths agree on the stack height, no instruction
      finds too few operands, and exactly one value is left to return. */
  lemma ConstructBalanced(reflect: Reflection, sig: Signature)
    requires Construct(reflect, sig).Emitted?
    ensures exists h :: Balanced(Construct(reflect, sig).value, h)
  {
    var e0 := Prologue(sig.hasThis);
    var this' := if sig.hasThis then 1 else 0;
    var h0: seq<nat> := if sig.hasThis then [0, 1] else [0];
    assert BalancedSoFar(e0, h0, this');
    hide BalancedSoFar, Balanced, HeightFits;
    var h := ParamsBalanced(reflect, sig.hasThis, sig.params, 0, e0, h0, this');
    var h1 := EpilogueBalanced(sig, ParamsCode(reflect, sig.hasThis, sig.params, 0, e0).value, h);
  }
}
