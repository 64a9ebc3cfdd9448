/** ConstructCommandRemapped: the second compiler, for commands called with (source, arguments, raw). */
module CommandFunc {
  import opened ILMachine
  import opened DynFunc

  // ---- The code that is emitted ----

  function LoadSource(hasThis: bool): seq<Instr> {
    [Ldarg(ArgumentsArg(hasThis)), LdcI4_0, LdelemRef, Call(ConvertTo(UInt16))]
  }

  function LoadFixed(hasThis: bool, index: nat): seq<Instr> {
    [Ldarg(ArgumentsArg(hasThis)), LdcI4S(index), LdelemRef]
  }

  predicate PlainInteger(p: Primitive) { p == Int32 || p == UInt32 || p == UInt16 }

  function CommandParamCode(reflect: Reflection, hasThis: bool, par: Param): Compiled<seq<Instr>> {
    if par.isSource then
      if par.t.Prim? then
        if PlainInteger(par.t.p) then Emitted(LoadSource(hasThis))
        else if par.t.p == Boolean then Emitted(LoadSource(hasThis) + [LdcI4_0, CgtUn])
        else Fails(ArgumentException)
      else if par.t == Remote then Emitted(LoadSource(hasThis) + [Call(RemoteCreate)])
      else if reflect(par.t) then Emitted(LoadSource(hasThis) + [Call(RemoteCreate), Newobj(par.t)])
      else Fails(ArgumentException)
    else if par.t == ObjectArray then Emitted(LoadFixed(hasThis, 1))
    else if par.t == StringArray then Emitted(LoadFixed(hasThis, 1) + [Call(ConvertToStringArray)])
    else if par.t == String then Emitted(LoadFixed(hasThis, 2))
    else Fails(TargetParameterCount)
  }

  function CommandParamsCode(reflect: Reflection, hasThis: bool, ps: seq<Param>): Compiled<seq<Instr>> {
    if ps == [] then Emitted([])
    else
      match CommandParamCode(reflect, hasThis, ps[0])
      case Fails(err) => Fails(err)
      case Emitted(a) =>
        match CommandParamsCode(reflect, hasThis, ps[1..])
        case Fails(err) => Fails(err)
        case Emitted(b) => Emitted(a + b)
  }

  function ConstructCommand(reflect: Reflection, sig: Signature): Compiled<Code> {
    match CommandParamsCode(reflect, sig.hasThis, sig.params)
    case Fails(err) => Fails(err)
    case Emitted(ops) => Emitted(Code(Prologue(sig.hasThis).instrs + ops + Epilogue(sig), [], []))
  }

  // ---- What a command call should do ----

  function Element(arguments: seq<Obj>, i: nat): Outcome<Obj> {
    if i < |arguments| then Ok(arguments[i]) else Throws(IndexOutOfRange)
  }

  /** The source number: the first argument, converted to ushort. */
  function SourceNumber(rt: Runtime, arguments: seq<Obj>): Outcome<int> {
    match Element(arguments, 0)
    case Throws(x) => Throws(x)
    case Ok(o) => rt.convert(UInt16, o)
  }

  function FromSource(rt: Runtime, t: Type, n: int): Outcome<Value> {
    if t.Prim? then Ok(Num(if t.p == Boolean then (if UInt(n) > 0 then 1 else 0) else n))
    else if t == Remote then Ok(StructValue(Remote, rt.createRemote(n)))
    else rt.construct(t, rt.createRemote(n))
  }

  function BindCommand(rt: Runtime, par: Param, arguments: seq<Obj>): Outcome<Value> {
    if par.isSource then
      match SourceNumber(rt, arguments)
      case Throws(x) => Throws(x)
      case Ok(n) => FromSource(rt, par.t, n)
    else
      match Element(arguments, if par.t == String then 2 else 1)
      case Throws(x) => Throws(x)
      case Ok(o) => if par.t == StringArray then CallResult(rt, ConvertToStringArray, Ref(o)) else Ok(Ref(o))
  }

  function BindCommands(rt: Runtime, ps: seq<Param>, arguments: seq<Obj>): Outcome<seq<Value>> {
    if ps == [] then Ok([])
    else
      match BindCommand(rt, ps[0], arguments)
      case Throws(x) => Throws(x)
      case Ok(v) =>
        match BindCommands(rt, ps[1..], arguments)
        case Throws(x) => Throws(x)
        case Ok(vs) => Ok([v] + vs)
  }

  // ---- Running the code ----

  ghost predicate At(code: Code, b: nat, ops: seq<Instr>) {
    b + |ops| <= |code.instrs| && code.instrs[b..b + |ops|] == ops
  }

  lemma AtIndex(code: Code, b: nat, ops: seq<Instr>, i: nat)
    requires At(code, b, ops) && i < |ops|
    ensures code.instrs[b + i] == ops[i]
  {
    assert code.instrs[b..b + |ops|][i] == code.instrs[b + i];
  }

  lemma AtParts(code: Code, b: nat, x: seq<Instr>, y: seq<Instr>)
    requires At(code, b, x + y)
    ensures At(code, b, x) && At(code, b + |x|, y)
  {
    var all := code.instrs[b..b + |x + y|];
    assert all[..|x|] == x && all[|x|..] == y;
    assert code.instrs[b..b + |x|] == all[..|x|] && code.instrs[b + |x|..b + |x| + |y|] == all[|x|..];
  }

  /** Loading an element by a constant index. */
  lemma RunElement(rt: Runtime, hasThis: bool, index: Instr, i: nat, b: nat, code: Code,
                   target: Obj, remote: int, arguments: seq<Obj>, stack: seq<Value>)
    requires At(code, b, [Ldarg(ArgumentsArg(hasThis)), index, LdelemRef])
    requires (index == LdcI4_0 && i == 0) || (index == LdcI4S(i) && i < 128)
    ensures Reaches(rt, code, EntryFrame(hasThis, target, remote, arguments), Running(b, stack),
              match Element(arguments, i)
              case Ok(o) => Running(b + 3, stack + [Ref(o)])
              case Throws(x) => Threw(x), 3)
  {
    var frame := EntryFrame(hasThis, target, remote, arguments);
    var ops := [Ldarg(ArgumentsArg(hasThis)), index, LdelemRef];
    AtIndex(code, b, ops, 0);
    AtIndex(code, b, ops, 1);
    AtIndex(code, b, ops, 2);
    var s0 := Running(b, stack);
    var s1 := Step(rt, code, frame, s0);
    assert s1 == Running(b + 1, stack + [ArgumentArray]);
    var s2 := Step(rt, code, frame, s1);
    assert s2 == Running(b + 2, stack + [ArgumentArray] + [Num(i)]);
    assert s2.stack[..|s2.stack| - 2] == stack;
    var s3 := Step(rt, code, frame, s2);
    ReachesNow(rt, code, frame, s3);
    ReachesStep(rt, code, frame, s2, s3, 0);
    ReachesStep(rt, code, frame, s1, s3, 1);
    ReachesStep(rt, code, frame, s0, s3, 2);
  }

  lemma RunCall(rt: Runtime, f: Callee, b: nat, code: Code, frame: Frame, stack: seq<Value>, v: Value)
    requires b < |code.instrs| && code.instrs[b] == Call(f) && Accepts(f, v)
    ensures Reaches(rt, code, frame, Running(b, stack + [v]), Bound(b + 1, stack, CallResult(rt, f, v)), 1)
  {
    var s0 := Running(b, stack + [v]);
    assert s0.stack[..|s0.stack| - 1] == stack;
    var s1 := Step(rt, code, frame, s0);
    assert s1 == Bound(b + 1, stack, CallResult(rt, f, v));
    ReachesNow(rt, code, frame, s1);
    ReachesStep(rt, code, frame, s0, s1, 0);
  }

  lemma RunToBool(rt: Runtime, n: int, b: nat, code: Code, frame: Frame, stack: seq<Value>)
    requires b + 1 < |code.instrs| && code.instrs[b] == LdcI4_0 && code.instrs[b + 1] == CgtUn
    ensures Reaches(rt, code, frame, Running(b, stack + [Num(n)]),
                    Running(b + 2, stack + [Num(if UInt(n) > 0 then 1 else 0)]), 2)
  {
    var s0 := Running(b, stack + [Num(n)]);
    var s1 := Step(rt, code, frame, s0);
    assert s1 == Running(b + 1, stack + [Num(n)] + [Num(0)]);
    assert s1.stack[..|s1.stack| - 2] == stack && UInt(0) == 0;
    var s2 := Step(rt, code, frame, s1);
    ReachesNow(rt, code, frame, s2);
    ReachesStep(rt, code, frame, s1, s2, 0);
    ReachesStep(rt, code, frame, s0, s2, 1);
  }

  lemma RunToPlayer(rt: Runtime, t: Type, n: int, b: nat, code: Code, frame: Frame, stack: seq<Value>)
    requires b + 1 < |code.instrs| && code.instrs[b] == Call(RemoteCreate) && code.instrs[b + 1] == Newobj(t)
    ensures Reaches(rt, code, frame, Running(b, stack + [Num(n)]),
                    Bound(b + 2, stack, rt.construct(t, rt.createRemote(n))), 2)
  {
    var s0 := Running(b, stack + [Num(n)]);
    RunCall(rt, RemoteCreate, b, code, frame, stack, Num(n));
    var s1 := Running(b + 1, stack + [StructValue(Remote, rt.createRemote(n))]);
    assert s1.stack[..|s1.stack| - 1] == stack;
    var s2 := Step(rt, code, frame, s1);
    ReachesNow(rt, code, frame, s2);
    ReachesStep(rt, code, frame, s1, s2, 0);
    ReachesTrans(rt, code, frame, s0, s1, s2, 1, 1);
  }

  /** From the converted source number to the parameter's type. */
  lemma RunFromSource(rt: Runtime, reflect: Reflection, hasThis: bool, t: Type, n: int, b: nat, code: Code,
                      frame: Frame, stack: seq<Value>)
    requires CommandParamCode(reflect, hasThis, Param(t, true)).Emitted?
    requires At(code, b, CommandParamCode(reflect, hasThis, Param(t, true)).value)
    ensures var m := |CommandParamCode(reflect, hasThis, Param(t, true)).value|;
      Reaches(rt, code, frame, Running(b + 4, stack + [Num(n)]), Bound(b + m, stack, FromSource(rt, t, n)), m - 4)
  {
    hide Step, Reaches;
    var ops := CommandParamCode(reflect, hasThis, Param(t, true)).value;
    if |ops| == 4 {
      ReachesNow(rt, code, frame, Running(b + 4, stack + [Num(n)]));
    } else {
      AtIndex(code, b, ops, 4);
      if |ops| == 5 {
        RunCall(rt, RemoteCreate, b + 4, code, frame, stack, Num(n));
      } else {
        AtIndex(code, b, ops, 5);
        if t.Prim? {
          RunToBool(rt, n, b + 4, code, frame, stack);
        } else {
          RunToPlayer(rt, t, n, b + 4, code, frame, stack);
        }
      }
    }
  }

  function ElementIndex(par: Param): nat {
    if par.isSource then 0 else if par.t == String then 2 else 1
  }

  function LoadOps(hasThis: bool, par: Param): seq<Instr> {
    [Ldarg(ArgumentsArg(hasThis)), if par.isSource then LdcI4_0 else LdcI4S(ElementIndex(par)), LdelemRef]
  }

  function FirstCall(par: Param): Callee {
    if par.isSource then ConvertTo(UInt16) else ConvertToStringArray
  }

  /** Every parameter's code loads an element first, and then calls something unless the element is passed on. */
  lemma CommandParamShape(reflect: Reflection, hasThis: bool, par: Param)
    requires CommandParamCode(reflect, hasThis, par).Emitted?
    ensures var ops := CommandParamCode(reflect, hasThis, par).value;
      && |ops| >= 3 && ops[..3] == LoadOps(hasThis, par)
      && (|ops| > 3 <==> par.isSource || par.t == StringArray)
      && (|ops| > 3 ==> ops[3] == Call(FirstCall(par)))
      && (!par.isSource && |ops| > 3 ==> |ops| == 4)
      && (par.isSource ==> |ops| >= 4)
  {
  }

  lemma RunCommandParam(rt: Runtime, reflect: Reflection, hasThis: bool, par: Param, b: nat, code: Code,
                        target: Obj, remote: int, arguments: seq<Obj>, stack: seq<Value>)
    requires CommandParamCode(reflect, hasThis, par).Emitted?
      && At(code, b, CommandParamCode(reflect, hasThis, par).value)
    ensures var m := |CommandParamCode(reflect, hasThis, par).value|;
      Reaches(rt, code, EntryFrame(hasThis, target, remote, arguments), Running(b, stack),
              Bound(b + m, stack, BindCommand(rt, par, arguments)), m)
  {
    hide Step, EntryFrame, CommandParamCode;
    CommandParamShape(reflect, hasThis, par);
    var frame := EntryFrame(hasThis, target, remote, arguments);
    var ops := CommandParamCode(reflect, hasThis, par).value;
    var m := |ops|;
    var s0 := Running(b, stack);
    var final := Bound(b + m, stack, BindCommand(rt, par, arguments));
    var i := ElementIndex(par);
    assert ops == ops[..3] + ops[3..];
    AtParts(code, b, ops[..3], ops[3..]);
    RunElement(rt, hasThis, LoadOps(hasThis, par)[1], i, b, code, target, remote, arguments, stack);
    var element := Element(arguments, i);
    if element.Throws? {
      ReachesMore(rt, code, frame, s0, final, 3, m);
    } else {
      var s3 := Running(b + 3, stack + [Ref(element.value)]);
      if m == 3 {
        ReachesNow(rt, code, frame, s3);
      } else {
        AtIndex(code, b, ops, 3);
        RunAfterLoad(rt, reflect, hasThis, par, element.value, b, code, frame, stack);
      }
      assert BindCommand(rt, par, arguments) == AfterLoad(rt, par, element.value);
      ReachesTrans(rt, code, frame, s0, s3, final, 3, m - 3);
    }
  }

  /** The parameter value made from a loaded element. */
  function AfterLoad(rt: Runtime, par: Param, o: Obj): Outcome<Value> {
    if par.isSource then
      match rt.convert(UInt16, o)
      case Throws(x) => Throws(x)
      case Ok(n) => FromSource(rt, par.t, n)
    else if par.t == StringArray then CallResult(rt, ConvertToStringArray, Ref(o))
    else Ok(Ref(o))
  }

  lemma RunAfterLoad(rt: Runtime, reflect: Reflection, hasThis: bool, par: Param, o: Obj, b: nat, code: Code,
                     frame: Frame, stack: seq<Value>)
    requires CommandParamCode(reflect, hasThis, par).Emitted?
      && At(code, b, CommandParamCode(reflect, hasThis, par).value)
    requires |CommandParamCode(reflect, hasThis, par).value| > 3 && code.instrs[b + 3] == Call(FirstCall(par))
    ensures var m := |CommandParamCode(reflect, hasThis, par).value|;
      Reaches(rt, code, frame, Running(b + 3, stack + [Ref(o)]), Bound(b + m, stack, AfterLoad(rt, par, o)), m - 3)
  {
    hide Step, CommandParamCode;
    CommandParamShape(reflect, hasThis, par);
    var m := |CommandParamCode(reflect, hasThis, par).value|;
    var f := FirstCall(par);
    var s3 := Running(b + 3, stack + [Ref(o)]);
    RunCall(rt, f, b + 3, code, frame, stack, Ref(o));
    var called := CallResult(rt, f, Ref(o));
    if par.isSource {
      var final := Bound(b + m, stack, AfterLoad(rt, par, o));
      if called.Ok? {
        assert par == Param(par.t, true);
        RunFromSource(rt, reflect, hasThis, par.t, called.value.n, b, code, frame, stack);
        ReachesTrans(rt, code, frame, s3, Bound(b + 4, stack, called), final, 1, m - 4);
      } else {
        ReachesMore(rt, code, frame, s3, final, 1, m - 3);
      }
    }
  }

  function Prefixed(v: Outcome<Value>, rest: Outcome<seq<Value>>): Outcome<seq<Value>> {
    match v
    case Throws(x) => Throws(x)
    case Ok(first) =>
      match rest
      case Throws(x) => Throws(x)
      case Ok(vs) => Ok([first] + vs)
  }

  /** One parameter and then the others. */
  lemma Compose(rt: Runtime, code: Code, frame: Frame, b: nat, stack: seq<Value>,
                v: Outcome<Value>, n: nat, rest: Outcome<seq<Value>>, m: nat)
    requires Reaches(rt, code, frame, Running(b, stack), Bound(b + n, stack, v), n)
    requires v.Ok? ==>
      Reaches(rt, code, frame, Running(b + n, stack + [v.value]), BoundAll(b + n + m, stack + [v.value], rest), m)
    ensures Reaches(rt, code, frame, Running(b, stack), BoundAll(b + n + m, stack, Prefixed(v, rest)), n + m)
  {
    var s0 := Running(b, stack);
    if v.Throws? {
      ReachesMore(rt, code, frame, s0, Threw(v.e), n, n + m);
    } else {
      if rest.Ok? {
        assert stack + [v.value] + rest.value == stack + ([v.value] + rest.value);
      }
      ReachesTrans(rt, code, frame, s0, Running(b + n, stack + [v.value]),
                   BoundAll(b + n + m, stack + [v.value], rest), n, m);
    }
  }

  lemma {:induction false} RunCommandParams(rt: Runtime, reflect: Reflection, hasThis: bool, ps: seq<Param>, b: nat,
                                            code: Code, target: Obj, remote: int, arguments: seq<Obj>,
                                            stack: seq<Value>)
    requires CommandParamsCode(reflect, hasThis, ps).Emitted?
      && At(code, b, CommandParamsCode(reflect, hasThis, ps).value)
    ensures var m := |CommandParamsCode(reflect, hasThis, ps).value|;
      Reaches(rt, code, EntryFrame(hasThis, target, remote, arguments), Running(b, stack),
              BoundAll(b + m, stack, BindCommands(rt, ps, arguments)), m)
    decreases |ps|
  {
    hide Step, CommandParamCode, BindCommand;
    var frame := EntryFrame(hasThis, target, remote, arguments);
    var s0 := Running(b, stack);
    if ps == [] {
      assert stack + [] == stack;
      ReachesNow(rt, code, frame, s0);
    } else {
      var first := CommandParamCode(reflect, hasThis, ps[0]).value;
      var more := CommandParamsCode(reflect, hasThis, ps[1..]).value;
      AtParts(code, b, first, more);
      var v := BindCommand(rt, ps[0], arguments);
      var rest := BindCommands(rt, ps[1..], arguments);
      assert Reaches(rt, code, frame, s0, Bound(b + |first|, stack, v), |first|) by {
        RunCommandParam(rt, reflect, hasThis, ps[0], b, code, target, remote, arguments, stack);
      }
      if v.Ok? {
        var b1 := b + |first|;
        var stack1 := stack + [v.value];
        RunCommandParams(rt, reflect, hasThis, ps[1..], b1, code, target, remote, arguments, stack1);
        assert Reaches(rt, code, frame, Running(b1, stack1), BoundAll(b1 + |more|, stack1, rest), |more|);
      }
      Compose(rt, code, frame, b, stack, v, |first|, rest, |more|);
      assert BindCommands(rt, ps, arguments) == Prefixed(v, rest);
    }
  }

  lemma {:induction false} BindCommandsLength(rt: Runtime, ps: seq<Param>, arguments: seq<Obj>)
    requires BindCommands(rt, ps, arguments).Ok?
    ensures |BindCommands(rt, ps, arguments).value| == |ps|
  {
    if ps == [] {
    } else {
      BindCommandsLength(rt, ps[1..], arguments);
    }
  }

  lemma RunThis(rt: Runtime, hasThis: bool, code: Code, target: Obj, remote: int, arguments: seq<Obj>)
    requires Prologue(hasThis).instrs <= code.instrs
    ensures var n := |Prologue(hasThis).instrs|;
      Reaches(rt, code, EntryFrame(hasThis, target, remote, arguments), Running(0, []),
              Running(n, This(hasThis, target)), n)
  {
    var frame := EntryFrame(hasThis, target, remote, arguments);
    var s1 := Running(|Prologue(hasThis).instrs|, This(hasThis, target));
    ReachesNow(rt, code, frame, s1);
    if hasThis {
      assert code.instrs[0] == Ldarg(0) && [] + [Ref(target)] == This(hasThis, target);
      ReachesStep(rt, code, frame, Running(0, []), s1, 0);
    }
  }

  /** For every runtime, target and argument array, running the emitted command code binds each parameter
      as requested, calls the method and returns its boxed result, or throws the first binding error. */
  lemma CommandCorrect(rt: Runtime, reflect: Reflection, sig: Signature, target: Obj, remote: int,
                       arguments: seq<Obj>, n: nat)
    requires ConstructCommand(reflect, sig).Emitted? && n >= |ConstructCommand(reflect, sig).value.instrs|
    ensures Run(rt, ConstructCommand(reflect, sig).value, EntryFrame(sig.hasThis, target, remote, arguments),
                Running(0, []), n)
         == Finish(rt, sig, target, BindCommands(rt, sig.params, arguments))
  {
    hide Run, Step;
    var code := ConstructCommand(reflect, sig).value;
    var frame := EntryFrame(sig.hasThis, target, remote, arguments);
    var pro := Prologue(sig.hasThis).instrs;
    var ops := CommandParamsCode(reflect, sig.hasThis, sig.params).value;
    var this' := This(sig.hasThis, target);
    var s0 := Running(0, []);
    var s1 := Running(|pro|, this');
    RunThis(rt, sig.hasThis, code, target, remote, arguments);
    assert code.instrs[|pro|..|pro| + |ops|] == ops;
    hide Reaches;
    RunCommandParams(rt, reflect, sig.hasThis, sig.params, |pro|, code, target, remote, arguments, this');
    hide CommandParamsCode, BindCommands;
    var bound := BindCommands(rt, sig.params, arguments);
    var s2 := BoundAll(|pro| + |ops|, this', bound);
    var final := Finish(rt, sig, target, bound);
    var e := Code(pro + ops, [], []);
    assert Appended(e, Epilogue(sig)) == code && |e.instrs| == |pro| + |ops| && |code.instrs| == |pro| + |ops| + 3;
    hide Appended, Epilogue, Prologue, ConstructCommand, EntryFrame;
    ReachesTrans(rt, code, frame, s0, s1, s2, |pro|, |ops|);
    if bound.Ok? {
      BindCommandsLength(rt, sig.params, arguments);
      RunEpilogue(rt, sig, e, frame, this' + bound.value);
      ReachesTrans(rt, code, frame, s0, s2, final, |pro| + |ops|, 3);
    } else {
      ReachesMore(rt, code, frame, s0, final, |pro| + |ops|, |code.instrs|);
    }
    ReachesFinal(rt, code, frame, s0, final, |code.instrs|, n);
  }

  // ---- Stack heights ----

  /** The heights that the code of one parameter adds, when it starts with `top` values on the stack. */
  function CommandParamHeights(par: Param, top: nat): seq<nat> {
    if par.isSource then
      [top + 1, top + 2, top + 1, top + 1] +
      (if par.t.Prim? then if par.t.p == Boolean then [top + 2, top + 1] else []
       else if par.t == Remote then [top + 1] else [top + 1, top + 1])
    else [top + 1, top + 2, top + 1] + if par.t == StringArray then [top + 1] else []
  }

  /** An instruction that neither jumps nor returns takes the stack from one height to the other. */
  ghost predicate Leads(i: Instr, before: nat, after: nat) {
    before >= Pops(i) && after == before - Pops(i) + Pushes(i) && !i.Br? && !i.BrfalseS? && !i.Ret?
  }

  lemma CommandParamLeads(reflect: Reflection, hasThis: bool, par: Param, top: nat)
    requires CommandParamCode(reflect, hasThis, par).Emitted?
    ensures var ops, more := CommandParamCode(reflect, hasThis, par).value, CommandParamHeights(par, top);
      |ops| == |more| && more[|more| - 1] == top + 1
      && forall k :: 0 <= k < |ops| ==> Leads(ops[k], if k == 0 then top else more[k - 1], more[k])
  {
  }

  lemma CommandParamBalanced(reflect: Reflection, hasThis: bool, par: Param, e: Code, h: seq<nat>, top: nat)
    requires CommandParamCode(reflect, hasThis, par).Emitted? && BalancedSoFar(e, h, top)
    ensures BalancedSoFar(Appended(e, CommandParamCode(reflect, hasThis, par).value),
                          h + CommandParamHeights(par, top), top + 1)
  {
    CommandParamLeads(reflect, hasThis, par, top);
    hide CommandParamCode, CommandParamHeights, Pops, Pushes;
    var ops, more := CommandParamCode(reflect, hasThis, par).value, CommandParamHeights(par, top);
    var e1, h1 := Appended(e, ops), h + more;
    forall pc | |e.instrs| <= pc < |e1.instrs| ensures HeightFits(e1, h1, pc) && !e1.instrs[pc].Ret? {
      var k := pc - |e.instrs|;
      assert Leads(ops[k], if k == 0 then top else more[k - 1], more[k]);
      assert e1.instrs[pc] == ops[k] && h1[pc + 1] == more[k];
      assert h1[pc] == if k == 0 then top else more[k - 1];
    }
    hide HeightFits, Leads;
    AppendBalanced(e, e1, h, more, top);
  }

  lemma {:induction false} CommandParamsBalanced(reflect: Reflection, hasThis: bool, ps: seq<Param>, e: Code,
                                                 h: seq<nat>, top: nat)
      returns (h1: seq<nat>)
    requires CommandParamsCode(reflect, hasThis, ps).Emitted? && BalancedSoFar(e, h, top)
    ensures BalancedSoFar(Appended(e, CommandParamsCode(reflect, hasThis, ps).value), h1, top + |ps|)
    decreases |ps|
  {
    hide BalancedSoFar, CommandParamCode;
    if ps == [] {
      assert Appended(e, []) == e;
      h1 := h;
    } else {
      var first := CommandParamCode(reflect, hasThis, ps[0]).value;
      var rest := CommandParamsCode(reflect, hasThis, ps[1..]).value;
      CommandParamBalanced(reflect, hasThis, ps[0], e, h, top);
      h1 := CommandParamsBalanced(reflect, hasThis, ps[1..], Appended(e, first), h + CommandParamHeights(ps[0], top),
                                  top + 1);
      assert Appended(Appended(e, first), rest) == Appended(e, first + rest);
    }
  }

  /** The same holds of the remapped code: one stack height at every instruction, enough operands, and one value to
      return. */
  lemma CommandBalanced(reflect: Reflection, sig: Signature)
    requires ConstructCommand(reflect, sig).Emitted?
    ensures exists h :: Balanced(ConstructCommand(reflect, sig).value, h)
  {
    var e0 := Prologue(sig.hasThis);
    var this' := if sig.hasThis then 1 else 0;
    var h0: seq<nat> := if sig.hasThis then [0, 1] else [0];
    assert BalancedSoFar(e0, h0, this');
    hide BalancedSoFar, Balanced, HeightFits, CommandParamsCode;
    var ops := CommandParamsCode(reflect, sig.hasThis, sig.params).value;
    var h := CommandParamsBalanced(reflect, sig.hasThis, sig.params, e0, h0, this');
    var h1 := EpilogueBalanced(sig, Appended(e0, ops), h);
  }
}
