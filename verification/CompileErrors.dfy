/** Which methods the two compilers of DynFunc.cs accept, and which exception the others get: that of the first
    parameter that cannot be bound. */
module CompileErrors {
  import opened ILMachine
  import opened DynFunc
  import opened CommandFunc
  import opened Sequences

  // ---- Construct ----

  /** A source parameter that is neither the remote nor a test of it, and has no constructor from a remote. */
  predicate Unconstructible(reflect: Reflection, par: Param) {
    par.isSource && par.t != Remote && par.t != Prim(Boolean) && !reflect(par.t)
  }

  /** An argument of one of the two primitive types that Convert has no function for. */
  predicate Unconvertible(par: Param) {
    !par.isSource && (par.t == Prim(IntPtr) || par.t == Prim(UIntPtr))
  }

  predicate Rejected(reflect: Reflection, par: Param) {
    Unconstructible(reflect, par) || Unconvertible(par)
  }

  /** The exception of the first rejected parameter. */
  ghost predicate FirstRejected(reflect: Reflection, ps: seq<Param>, e: CompileError) {
    exists i :: 0 <= i < |ps| && Rejected(reflect, ps[i]) && (forall j :: 0 <= j < i ==> !Rejected(reflect, ps[j]))
             && e == if ps[i].isSource then ArgumentException else KeyNotFound
  }

  lemma ParamFails(reflect: Reflection, hasThis: bool, par: Param, p: nat, e: Code)
    ensures var r := ParamCode(reflect, hasThis, par, p, e);
      && (r.Fails? <==> Rejected(reflect, par))
      && (r.Fails? ==> r.e == if par.isSource then ArgumentException else KeyNotFound)
  {
  }

  lemma {:induction false} ParamsFail(reflect: Reflection, hasThis: bool, ps: seq<Param>, p: nat, e: Code)
    ensures var r := ParamsCode(reflect, hasThis, ps, p, e);
      && (r.Fails? <==> exists i :: 0 <= i < |ps| && Rejected(reflect, ps[i]))
      && (r.Fails? ==> FirstRejected(reflect, ps, r.e))
    decreases |ps|
  {
    if ps == [] {
    } else {
      ParamFails(reflect, hasThis, ps[0], p, e);
      var first := ParamCode(reflect, hasThis, ps[0], p, e);
      hide Rejected, ParamCode;
      if first.Emitted? {
        ParamsFail(reflect, hasThis, ps[1..], Next(ps[0], p), first.value);
        var r := ParamsCode(reflect, hasThis, ps[1..], Next(ps[0], p), first.value);
        if i :| 0 <= i < |ps| && Rejected(reflect, ps[i]) {
          assert ps[1..][i - 1] == ps[i];
        }
        if r.Fails? {
          var i :| 0 <= i < |ps| - 1 && Rejected(reflect, ps[1..][i])
            && (forall j :: 0 <= j < i ==> !Rejected(reflect, ps[1..][j]))
            && r.e == if ps[1..][i].isSource then ArgumentException else KeyNotFound;
          assert ps[i + 1] == ps[1..][i];
          assert forall j :: 0 < j < i + 1 ==> ps[j] == ps[1..][j - 1];
        }
      } else {
        assert Rejected(reflect, ps[0]);
      }
    }
  }

  /** Construct throws exactly when some source parameter cannot be made from a remote or some argument is an IntPtr or
      UIntPtr, and then what the first such parameter calls for. */
  lemma ConstructFails(reflect: Reflection, sig: Signature)
    ensures var r := Construct(reflect, sig);
      && (r.Fails? <==> exists i :: 0 <= i < |sig.params| && Rejected(reflect, sig.params[i]))
      && (r.Fails? ==> FirstRejected(reflect, sig.params, r.e))
  {
    ParamsFail(reflect, sig.hasThis, sig.params, 0, Prologue(sig.hasThis));
  }

  // ---- Locals ----

  /** The arguments that are value types but no primitives. */
  function Defaulted(ps: seq<Param>): seq<Type> {
    if ps == [] then []
    else (if !ps[0].isSource && (ps[0].t.Struct? || ps[0].t == Remote) then [ps[0].t] else []) + Defaulted(ps[1..])
  }

  lemma {:induction false} ParamsLocals(reflect: Reflection, hasThis: bool, ps: seq<Param>, p: nat, e: Code)
    requires ParamsCode(reflect, hasThis, ps, p, e).Emitted?
    ensures ParamsCode(reflect, hasThis, ps, p, e).value.locals == e.locals + Defaulted(ps)
    decreases |ps|
  {
    if ps == [] {
    } else {
      var e1 := ParamCode(reflect, hasThis, ps[0], p, e).value;
      var here := if !ps[0].isSource && (ps[0].t.Struct? || ps[0].t == Remote) then [ps[0].t] else [];
      assert e1.locals == e.locals + here;
      hide ParamCode;
      Regroup(e.locals, here, Defaulted(ps[1..]));
      ParamsLocals(reflect, hasThis, ps[1..], Next(ps[0], p), e1);
    }
  }

  /** One local is declared for each of these, in order, and no other. */
  lemma ConstructLocals(reflect: Reflection, sig: Signature)
    requires Construct(reflect, sig).Emitted?
    ensures Construct(reflect, sig).value.locals == Defaulted(sig.params)
  {
    ParamsLocals(reflect, sig.hasThis, sig.params, 0, Prologue(sig.hasThis));
  }

  // ---- ConstructCommandRemapped ----

  /** What the source of a command can be passed as. */
  predicate CommandSource(reflect: Reflection, t: Type) {
    t == Prim(Int32) || t == Prim(UInt32) || t == Prim(UInt16) || t == Prim(Boolean) || t == Remote
    || (!t.Prim? && reflect(t))
  }

  /** The arguments as objects or as strings, and the raw text. */
  predicate CommandArgument(t: Type) {
    t == ObjectArray || t == StringArray || t == String
  }

  predicate CommandRejected(reflect: Reflection, par: Param) {
    if par.isSource then !CommandSource(reflect, par.t) else !CommandArgument(par.t)
  }

  ghost predicate FirstCommandRejected(reflect: Reflection, ps: seq<Param>, e: CompileError) {
    exists i :: 0 <= i < |ps| && CommandRejected(reflect, ps[i])
             && (forall j :: 0 <= j < i ==> !CommandRejected(reflect, ps[j]))
             && e == if ps[i].isSource then ArgumentException else TargetParameterCount
  }

  lemma CommandParamFails(reflect: Reflection, hasThis: bool, par: Param)
    ensures var r := CommandParamCode(reflect, hasThis, par);
      && (r.Fails? <==> CommandRejected(reflect, par))
      && (r.Fails? ==> r.e == if par.isSource then ArgumentException else TargetParameterCount)
  {
  }

  lemma {:induction false} CommandParamsFail(reflect: Reflection, hasThis: bool, ps: seq<Param>)
    ensures var r := CommandParamsCode(reflect, hasThis, ps);
      && (r.Fails? <==> exists i :: 0 <= i < |ps| && CommandRejected(reflect, ps[i]))
      && (r.Fails? ==> FirstCommandRejected(reflect, ps, r.e))
    decreases |ps|
  {
    if ps == [] {
    } else {
      CommandParamFails(reflect, hasThis, ps[0]);
      var first := CommandParamCode(reflect, hasThis, ps[0]);
      hide CommandRejected, CommandParamCode;
      if first.Emitted? {
        CommandParamsFail(reflect, hasThis, ps[1..]);
        var r := CommandParamsCode(reflect, hasThis, ps[1..]);
        if i :| 0 <= i < |ps| && CommandRejected(reflect, ps[i]) {
          assert ps[1..][i - 1] == ps[i];
        }
        if r.Fails? {
          var i :| 0 <= i < |ps| - 1 && CommandRejected(reflect, ps[1..][i])
            && (forall j :: 0 <= j < i ==> !CommandRejected(reflect, ps[1..][j]))
            && r.e == if ps[1..][i].isSource then ArgumentException else TargetParameterCount;
          assert ps[i + 1] == ps[1..][i];
          assert forall j :: 0 < j < i + 1 ==> ps[j] == ps[1..][j - 1];
        }
      } else {
        assert CommandRejected(reflect, ps[0]);
      }
    }
  }

  /** The remapped compiler throws exactly when some source parameter is of another type than the listed ones and has no
      constructor, or some other parameter is none of the three types that commands pass. */
  lemma CommandFails(reflect: Reflection, sig: Signature)
    ensures var r := ConstructCommand(reflect, sig);
      && (r.Fails? <==> exists i :: 0 <= i < |sig.params| && CommandRejected(reflect, sig.params[i]))
      && (r.Fails? ==> FirstCommandRejected(reflect, sig.params, r.e))
  {
    CommandParamsFail(reflect, sig.hasThis, sig.params);
  }
}
