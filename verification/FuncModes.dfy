/** The two compilers of DynFunc never agree on a method with parameters: there is a runtime in which the code of the
    one returns and the code of the other throws. */
module FuncModes {
  import opened ILMachine
  import opened DynFunc
  import opened CommandFunc

  const REMOTE := 1

  /** Nothing throws but the method, unless the value it finds on position k is the one it looks for. */
  function Probe(k: nat, wanted: Value): Runtime {
    Runtime(
      (o, t) => true, (o, t) => 0, (t, v) => Null, (p, o) => Ok(0), r => true, r => r,
      (t, r) => Ok(Num(r)), o => Ok(o), t => 0,
      (m, vs) => if |vs| > k && vs[k] == wanted then Ok(Num(0)) else Throws(Thrown(0)))
  }

  const ARGUMENTS: seq<Obj> := [Instance(0), Instance(1), Instance(2)]

  /** What the remapped code passes for a parameter under such a runtime. */
  function RemappedValue(par: Param): Value {
    if !par.isSource then Ref(ARGUMENTS[if par.t == String then 2 else 1])
    else if par.t == Remote then StructValue(Remote, 0)
    else Num(0)
  }

  lemma {:induction false} RemappedBinds(reflect: Reflection, hasThis: bool, ps: seq<Param>, k: nat, wanted: Value)
    requires CommandParamsCode(reflect, hasThis, ps).Emitted?
    ensures var bound := BindCommands(Probe(k, wanted), ps, ARGUMENTS);
      bound.Ok? && |bound.value| == |ps| && (ps != [] ==> bound.value[0] == RemappedValue(ps[0]))
  {
    if ps == [] {
    } else {
      RemappedBinds(reflect, hasThis, ps[1..], k, wanted);
      assert CommandParamCode(reflect, hasThis, ps[0]).Emitted?;
      assert BindCommand(Probe(k, wanted), ps[0], ARGUMENTS) == Ok(RemappedValue(ps[0]));
    }
  }

  /** The plain code passes something else for the first parameter, or throws. */
  lemma PlainBinds(reflect: Reflection, hasThis: bool, ps: seq<Param>, k: nat, wanted: Value)
    requires ps != [] && CommandParamsCode(reflect, hasThis, ps).Emitted?
    ensures var bound := BindAll(Probe(k, wanted), ps, REMOTE, ARGUMENTS, 0, EncodedIndex);
      bound.Ok? ==> bound.value != [] && bound.value[0] != RemappedValue(ps[0])
  {
    assert CommandParamCode(reflect, hasThis, ps[0]).Emitted?;
    assert EncodedIndex(0) == 0;
    var first := Bind(Probe(k, wanted), ps[0], REMOTE, ARGUMENTS, 0);
    assert first.Ok? && first.value != RemappedValue(ps[0]);
  }

  /** Two codes that no caller can tell apart. */
  ghost predicate SameBehaviour(a: Code, b: Code, hasThis: bool) {
    forall rt, target, remote, arguments, n: nat :: n >= |a.instrs| && n >= |b.instrs| ==>
      Run(rt, a, EntryFrame(hasThis, target, remote, arguments), Running(0, []), n)
      == Run(rt, b, EntryFrame(hasThis, target, remote, arguments), Running(0, []), n)
  }

  /** The plain and the remapped code of a method behave alike exactly when the method has no parameters. */
  lemma ModesAgree(reflect: Reflection, sig: Signature)
    requires Construct(reflect, sig).Emitted? && ConstructCommand(reflect, sig).Emitted?
    ensures var plain, remapped := Construct(reflect, sig).value, ConstructCommand(reflect, sig).value;
      && (SameBehaviour(plain, remapped, sig.hasThis) <==> sig.params == [])
      && (plain == remapped <==> sig.params == [])
  {
    var plain, remapped := Construct(reflect, sig).value, ConstructCommand(reflect, sig).value;
    if sig.params == [] {
      SameCode(reflect, sig);
    } else {
      ModesDiffer(reflect, sig);
    }
  }

  lemma SameCode(reflect: Reflection, sig: Signature)
    requires sig.params == []
    ensures Construct(reflect, sig).Emitted? && ConstructCommand(reflect, sig) == Construct(reflect, sig)
  {
    assert Prologue(sig.hasThis).instrs + [] == Prologue(sig.hasThis).instrs;
  }

  lemma ModesDiffer(reflect: Reflection, sig: Signature)
    requires Construct(reflect, sig).Emitted? && ConstructCommand(reflect, sig).Emitted? && sig.params != []
    ensures !SameBehaviour(Construct(reflect, sig).value, ConstructCommand(reflect, sig).value, sig.hasThis)
  {
    hide Run, Construct, ConstructCommand;
    var plain, remapped := Construct(reflect, sig).value, ConstructCommand(reflect, sig).value;
    assert CommandParamsCode(reflect, sig.hasThis, sig.params).Emitted? by { RemappedParams(reflect, sig); }
    var k := |This(sig.hasThis, Null)|;
    var wanted := RemappedValue(sig.params[0]);
    var rt := Probe(k, wanted);
    var n := |plain.instrs| + |remapped.instrs|;
    RunIsFinish(rt, reflect, sig, Null, REMOTE, ARGUMENTS, n);
    CommandCorrect(rt, reflect, sig, Null, REMOTE, ARGUMENTS, n);
    RemappedBinds(reflect, sig.hasThis, sig.params, k, wanted);
    PlainBinds(reflect, sig.hasThis, sig.params, k, wanted);
    Tells(sig, k, wanted, BindCommands(rt, sig.params, ARGUMENTS));
    Tells(sig, k, wanted, BindAll(rt, sig.params, REMOTE, ARGUMENTS, 0, EncodedIndex));
  }

  /** Called as a plain function, the remapped code is the direct call only for a method without parameters. */
  lemma RemappedIsNotDirect(reflect: Reflection, sig: Signature)
    requires Construct(reflect, sig).Emitted? && ConstructCommand(reflect, sig).Emitted? && Consumed(sig.params) <= 128
    ensures Correct(ConstructCommand(reflect, sig).value, sig) <==> sig.params == []
  {
    ConstructCorrect(reflect, sig);
    ModesAgree(reflect, sig);
    hide Construct, ConstructCommand;
    var plain, remapped := Construct(reflect, sig).value, ConstructCommand(reflect, sig).value;
    if Correct(remapped, sig) {
      assert SameBehaviour(plain, remapped, sig.hasThis);
    }
  }

  lemma RemappedParams(reflect: Reflection, sig: Signature)
    requires ConstructCommand(reflect, sig).Emitted?
    ensures CommandParamsCode(reflect, sig.hasThis, sig.params).Emitted?
  {}

  /** The method returns exactly when the first bound value is the wanted one. */
  lemma Tells(sig: Signature, k: nat, wanted: Value, bound: Outcome<seq<Value>>)
    requires k == |This(sig.hasThis, Null)| && (bound.Ok? ==> bound.value != [])
    ensures Finish(Probe(k, wanted), sig, Null, bound).Returned? <==> bound.Ok? && bound.value[0] == wanted
  {
    if bound.Ok? {
      assert (This(sig.hasThis, Null) + bound.value)[k] == bound.value[0];
    }
  }
}
