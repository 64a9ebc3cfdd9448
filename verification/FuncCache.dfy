/** The emitting loops of Func and the cache of wrapped methods both of them share. */
module FuncCache {
  import opened ILMachine
  import DynFunc
  import CommandFunc
  import FuncModes

  type Reflection = DynFunc.Reflection
  type Signature = DynFunc.Signature
  type Compiled<T> = DynFunc.Compiled<T>

  /** The IL generator: instructions, labels by number and declared locals. */
  class ILGenerator {
    var instrs: seq<Instr>
    var labels: seq<nat>
    var locals: seq<Type>

    constructor ()
      ensures Snapshot() == Code([], [], [])
    {
      instrs := [];
      labels := [];
      locals := [];
    }

    ghost function Snapshot(): Code
      reads this
    {
      Code(instrs, labels, locals)
    }

    method Emit(i: Instr)
      modifies this`instrs
      ensures instrs == old(instrs) + [i]
    {
      instrs := instrs + [i];
    }

    method DefineLabel() returns (l: nat)
      modifies this`labels
      ensures l == old(|labels|) && labels == old(labels) + [0]
    {
      l := |labels|;
      labels := labels + [0];
    }

    method MarkLabel(l: nat)
      requires l < |labels|
      modifies this`labels
      ensures labels == old(labels)[l := |instrs|]
    {
      labels := labels[l := |instrs|];
    }

    method DeclareLocal(t: Type) returns (k: nat)
      modifies this`locals
      ensures k == old(|locals|) && locals == old(locals) + [t]
    {
      k := |locals|;
      locals := locals + [t];
    }

    method EmitLoad(hasThis: bool, p: nat)
      modifies this`instrs
      ensures instrs == old(instrs) + DynFunc.LoadArgument(hasThis, p)
    {
      Emit(Ldarg(DynFunc.ArgumentsArg(hasThis)));
      Emit(LdcI4S(p % 256));
      Emit(LdelemRef);
    }

    method EmitTypeTest(t: Type, diff: nat, done: nat)
      modifies this`instrs
      ensures instrs == old(instrs) + [Dup, Isinst(t), BrfalseS(diff), UnboxAny(t), Br(done)]
    {
      Emit(Dup);
      Emit(Isinst(t));
      Emit(BrfalseS(diff));
      Emit(UnboxAny(t));
      Emit(Br(done));
    }

    method EmitValueType(hasThis: bool, t: Type, p: nat)
      requires t.IsValueType()
      modifies this
      ensures Snapshot() == old(DynFunc.ValueTypeCode(hasThis, t, p, Snapshot()))
    {
      EmitLoad(hasThis, p);
      var diff := DefineLabel();
      var done := DefineLabel();
      EmitTypeTest(t, diff, done);
      MarkLabel(diff);
      if t.Prim? {
        Emit(Call(ConvertTo(t.p)));
      } else {
        Emit(Pop);
        var k := DeclareLocal(t);
        Emit(LdlocS(k));
      }
      MarkLabel(done);
    }

    method EmitSource(reflect: Reflection, hasThis: bool, t: Type) returns (ok: bool)
      modifies this`instrs
      ensures ok <==> DynFunc.SourceCode(reflect, hasThis, t).Emitted?
      ensures ok ==> instrs == old(instrs) + DynFunc.SourceCode(reflect, hasThis, t).value
    {
      if t == Remote {
        Emit(Ldarg(DynFunc.RemoteArg(hasThis)));
      } else if t == Prim(Boolean) {
        Emit(Ldarg(DynFunc.RemoteArg(hasThis)));
        Emit(Call(IsRemoteInternal));
      } else if reflect(t) {
        Emit(Ldarg(DynFunc.RemoteArg(hasThis)));
        Emit(Newobj(t));
      } else {
        return false;
      }
      return true;
    }

    method EmitParam(reflect: Reflection, hasThis: bool, par: DynFunc.Param, p: nat) returns (r: Compiled<nat>)
      modifies this
      ensures match DynFunc.ParamCode(reflect, hasThis, par, p, old(Snapshot()))
        case Fails(e) => r == DynFunc.Fails(e)
        case Emitted(code) => Snapshot() == code && r == DynFunc.Emitted(DynFunc.Next(par, p))
    {
      var t := par.t;
      if par.isSource {
        var ok := EmitSource(reflect, hasThis, t);
        return if ok then DynFunc.Emitted(p) else DynFunc.Fails(DynFunc.ArgumentException);
      }
      if t.IsValueType() {
        if t.Prim? && !DynFunc.Convertible(t.p) {
          return DynFunc.Fails(DynFunc.KeyNotFound);
        }
        EmitValueType(hasThis, t, p);
      } else {
        EmitLoad(hasThis, p);
        if t != Object {
          Emit(Castclass(t));
          assert instrs == old(instrs) + (DynFunc.LoadArgument(hasThis, p) + [Castclass(t)]);
        }
      }
      return DynFunc.Emitted(p + 1);
    }

    method EmitCommandSource(reflect: Reflection, hasThis: bool, t: Type) returns (ok: bool)
      modifies this`instrs
      ensures var c := CommandFunc.CommandParamCode(reflect, hasThis, DynFunc.Param(t, true));
        if ok then c.Emitted? && instrs == old(instrs) + c.value else c == DynFunc.Fails(DynFunc.ArgumentException)
    {
      Emit(Ldarg(DynFunc.ArgumentsArg(hasThis)));
      Emit(LdcI4_0);
      Emit(LdelemRef);
      Emit(Call(ConvertTo(UInt16)));
      assert instrs == old(instrs) + CommandFunc.LoadSource(hasThis);
      if t.Prim? {
        if CommandFunc.PlainInteger(t.p) {
          return true;
        } else if t.p == Boolean {
          Emit(LdcI4_0);
          Emit(CgtUn);
          return true;
        }
      } else if t == Remote {
        Emit(Call(RemoteCreate));
        return true;
      } else if reflect(t) {
        Emit(Call(RemoteCreate));
        Emit(Newobj(t));
        return true;
      }
      return false;
    }

    method EmitFixed(hasThis: bool, index: nat)
      modifies this`instrs
      ensures instrs == old(instrs) + CommandFunc.LoadFixed(hasThis, index)
    {
      Emit(Ldarg(DynFunc.ArgumentsArg(hasThis)));
      Emit(LdcI4S(index));
      Emit(LdelemRef);
    }

    method EmitCommandParam(reflect: Reflection, hasThis: bool, par: DynFunc.Param) returns (r: Compiled<()>)
      modifies this`instrs
      ensures match CommandFunc.CommandParamCode(reflect, hasThis, par)
        case Fails(e) => r == DynFunc.Fails(e)
        case Emitted(ops) => instrs == old(instrs) + ops && r == DynFunc.Emitted(())
    {
      if par.isSource {
        var ok := EmitCommandSource(reflect, hasThis, par.t);
        if !ok {
          return DynFunc.Fails(DynFunc.ArgumentException);
        }
      } else if par.t == ObjectArray {
        EmitFixed(hasThis, 1);
      } else if par.t == StringArray {
        EmitFixed(hasThis, 1);
        Emit(Call(ConvertToStringArray));
        assert instrs == old(instrs) + (CommandFunc.LoadFixed(hasThis, 1) + [Call(ConvertToStringArray)]);
      } else if par.t == String {
        EmitFixed(hasThis, 2);
      } else {
        return DynFunc.Fails(DynFunc.TargetParameterCount);
      }
      return DynFunc.Emitted(());
    }

    method EmitEpilogue(sig: Signature)
      modifies this`instrs
      ensures instrs == old(instrs) + DynFunc.Epilogue(sig)
    {
      Emit(CallMethod(sig.id, DynFunc.ArgCount(sig), sig.result != Void));
      if sig.result == Void {
        Emit(Ldnull);
      } else {
        Emit(Box(sig.result));
      }
      Emit(Ret);
    }
  }

  /** The loop of Construct. */
  method EmitConstruct(reflect: Reflection, sig: Signature) returns (r: Compiled<Code>)
    ensures r == DynFunc.Construct(reflect, sig)
  {
    var g := new ILGenerator();
    if sig.hasThis {
      g.Emit(Ldarg(0));
    }
    var p := 0;
    assert g.Snapshot() == DynFunc.Prologue(sig.hasThis) && sig.params[0..] == sig.params;
    for i := 0 to |sig.params|
      invariant DynFunc.ParamsCode(reflect, sig.hasThis, sig.params, 0, DynFunc.Prologue(sig.hasThis))
             == DynFunc.ParamsCode(reflect, sig.hasThis, sig.params[i..], p, g.Snapshot())
    {
      assert sig.params[i..][0] == sig.params[i] && sig.params[i..][1..] == sig.params[i + 1..];
      var next := g.EmitParam(reflect, sig.hasThis, sig.params[i], p);
      match next {
        case Fails(e) => return DynFunc.Fails(e);
        case Emitted(p1) => p := p1;
      }
    }
    g.EmitEpilogue(sig);
    r := DynFunc.Emitted(Code(g.instrs, g.labels, g.locals));
  }

  /** The loop of ConstructCommandRemapped. */
  method EmitCommand(reflect: Reflection, sig: Signature) returns (r: Compiled<Code>)
    ensures r == CommandFunc.ConstructCommand(reflect, sig)
  {
    hide CommandFunc.CommandParamCode, DynFunc.Epilogue;
    var g := new ILGenerator();
    if sig.hasThis {
      g.Emit(Ldarg(0));
    }
    ghost var pro := g.instrs;
    ghost var ops: seq<Instr> := [];
    assert sig.params[0..] == sig.params;
    AfterNothing(CommandFunc.CommandParamsCode(reflect, sig.hasThis, sig.params));
    for i := 0 to |sig.params|
      invariant g.Snapshot() == Code(pro + ops, [], [])
      invariant CommandFunc.CommandParamsCode(reflect, sig.hasThis, sig.params)
             == After(ops, CommandFunc.CommandParamsCode(reflect, sig.hasThis, sig.params[i..]))
    {
      assert sig.params[i..][0] == sig.params[i] && sig.params[i..][1..] == sig.params[i + 1..];
      ghost var here := CommandFunc.CommandParamCode(reflect, sig.hasThis, sig.params[i]);
      ghost var rest := CommandFunc.CommandParamsCode(reflect, sig.hasThis, sig.params[i + 1..]);
      var next := g.EmitCommandParam(reflect, sig.hasThis, sig.params[i]);
      if next.Fails? {
        return DynFunc.Fails(next.e);
      }
      AfterTwice(ops, here.value, rest);
      assert pro + ops + here.value == pro + (ops + here.value);
      ops := ops + here.value;
    }
    assert ops + [] == ops && CommandFunc.CommandParamsCode(reflect, sig.hasThis, sig.params) == DynFunc.Emitted(ops);
    g.EmitEpilogue(sig);
    assert pro == DynFunc.Prologue(sig.hasThis).instrs;
    r := DynFunc.Emitted(Code(g.instrs, g.labels, g.locals));
  }

  function After(ops: seq<Instr>, rest: Compiled<seq<Instr>>): Compiled<seq<Instr>> {
    match rest
    case Fails(e) => DynFunc.Fails(e)
    case Emitted(more) => DynFunc.Emitted(ops + more)
  }

  lemma AfterNothing(rest: Compiled<seq<Instr>>)
    ensures After([], rest) == rest
  {
    if rest.Emitted? {
      assert [] + rest.value == rest.value;
    }
  }

  lemma AfterTwice(a: seq<Instr>, b: seq<Instr>, rest: Compiled<seq<Instr>>)
    ensures After(a + b, rest) == After(a, After(b, rest))
  {
    if rest.Emitted? {
      assert a + b + rest.value == a + (b + rest.value);
    }
  }

  // ---- The cache ----

  datatype Mode = Plain | Remapped

  datatype Request = Request(mode: Mode, sig: Signature)

  type Cache = map<nat, Code>

  function Compile(reflect: Reflection, q: Request): Compiled<Code> {
    match q.mode
    case Plain => DynFunc.Construct(reflect, q.sig)
    case Remapped => CommandFunc.ConstructCommand(reflect, q.sig)
  }

  /** What a request returns: the cached code of the method, whatever mode it was compiled in. */
  function Answer(reflect: Reflection, cache: Cache, q: Request): Compiled<Code> {
    if q.sig.id in cache then DynFunc.Emitted(cache[q.sig.id]) else Compile(reflect, q)
  }

  function CacheAfter(reflect: Reflection, cache: Cache, q: Request): Cache {
    match Answer(reflect, cache, q)
    case Fails(_) => cache
    case Emitted(code) => cache[q.sig.id := code]
  }

  function CacheAfterAll(reflect: Reflection, cache: Cache, qs: seq<Request>): Cache {
    if qs == [] then cache
    else CacheAfter(reflect, CacheAfterAll(reflect, cache, qs[..|qs| - 1]), qs[|qs| - 1])
  }

  /** One signature per method. */
  ghost predicate SameSignatures(qs: seq<Request>) {
    forall a, b :: a in qs && b in qs && a.sig.id == b.sig.id ==> a.sig == b.sig
  }

  /** Only earlier requests for the method can have filled its cache entry, and the entry is what one of them
      compiled. */
  lemma {:induction false} CacheOrigin(reflect: Reflection, qs: seq<Request>, id: nat)
    requires id in CacheAfterAll(reflect, map[], qs)
    ensures var code := CacheAfterAll(reflect, map[], qs)[id];
      exists q :: q in qs && q.sig.id == id && Compile(reflect, q) == DynFunc.Emitted(code)
    decreases |qs|
  {
    var init, q := qs[..|qs| - 1], qs[|qs| - 1];
    var before := CacheAfterAll(reflect, map[], init);
    if id in before {
      CacheOrigin(reflect, init, id);
      var r :| r in init && r.sig.id == id && Compile(reflect, r) == DynFunc.Emitted(before[id]);
      assert r in qs;
    } else {
      assert q in qs;
    }
  }

  /** After any history of requests in which a method was only ever asked for in the mode q wants,
      the answer to q is the code of that mode. */
  lemma OneModePerMethod(reflect: Reflection, qs: seq<Request>, q: Request)
    requires SameSignatures(qs + [q])
    requires forall r :: r in qs && r.sig.id == q.sig.id ==> r.mode == q.mode
    ensures Answer(reflect, CacheAfterAll(reflect, map[], qs), q) == Compile(reflect, q)
  {
    var cache := CacheAfterAll(reflect, map[], qs);
    if q.sig.id in cache {
      CacheOrigin(reflect, qs, q.sig.id);
      var r :| r in qs && r.sig.id == q.sig.id && Compile(reflect, r) == DynFunc.Emitted(cache[q.sig.id]);
      assert r in qs + [q] && q in qs + [q];
      assert r == q;
    }
  }

  /** Without that restriction a method first asked for in one mode keeps that mode's code for the other, and the
      answer is right exactly when the modes are one or the method has no parameters. */
  lemma ModesCollide(reflect: Reflection, sig: Signature, first: Mode, second: Mode)
    requires Compile(reflect, Request(first, sig)).Emitted?
    ensures var cache := CacheAfterAll(reflect, map[], [Request(first, sig)]);
      Answer(reflect, cache, Request(second, sig)) == Compile(reflect, Request(second, sig))
      <==> first == second || sig.params == []
  {
    var q := Request(first, sig);
    assert [q][..0] == [];
    assert CacheAfterAll(reflect, map[], [q]) == CacheAfter(reflect, CacheAfterAll(reflect, map[], []), q);
    SameCompiled(reflect, sig, first, second);
  }

  /** A method that compiles in one mode compiles to the same code in the other only without parameters. */
  lemma SameCompiled(reflect: Reflection, sig: Signature, first: Mode, second: Mode)
    requires Compile(reflect, Request(first, sig)).Emitted?
    ensures Compile(reflect, Request(first, sig)) == Compile(reflect, Request(second, sig))
      <==> first == second || sig.params == []
  {
    if first != second {
      if sig.params == [] {
        FuncModes.SameCode(reflect, sig);
      } else if Compile(reflect, Request(second, sig)).Emitted? {
        FuncModes.ModesAgree(reflect, sig);
      }
    }
  }

  /** The request at position i is the first one that compiled the method. */
  ghost predicate CompiledFirst(reflect: Reflection, qs: seq<Request>, i: nat, id: nat) {
    && i < |qs| && qs[i].sig.id == id && Compile(reflect, qs[i]).Emitted?
    && forall j :: 0 <= j < i && qs[j].sig.id == id ==> Compile(reflect, qs[j]).Fails?
  }

  /** A cache entry is what the first request that compiled the method compiled. */
  lemma {:induction false} CacheKeepsFirst(reflect: Reflection, qs: seq<Request>, id: nat)
    ensures id in CacheAfterAll(reflect, map[], qs) ==> exists i: nat :: CompiledFirst(reflect, qs, i, id)
    ensures forall i: nat :: CompiledFirst(reflect, qs, i, id) ==>
      id in CacheAfterAll(reflect, map[], qs)
      && Compile(reflect, qs[i]) == DynFunc.Emitted(CacheAfterAll(reflect, map[], qs)[id])
    decreases |qs|
  {
    if qs == [] {
    } else {
      var last := |qs| - 1;
      var init, q := qs[..last], qs[last];
      var before := CacheAfterAll(reflect, map[], init);
      CacheKeepsFirst(reflect, init, id);
      if id in before {
        var first: nat :| CompiledFirst(reflect, init, first, id);
        assert CompiledFirst(reflect, qs, first, id);
        forall i: nat | CompiledFirst(reflect, qs, i, id) ensures i == first {
          assert !(first < i) && !(i < first);
        }
      } else {
        forall j | 0 <= j < last && qs[j].sig.id == id ensures Compile(reflect, qs[j]).Fails? {
          NeverCompiled(reflect, init, j, id);
        }
        assert id in CacheAfterAll(reflect, map[], qs) ==> CompiledFirst(reflect, qs, last, id);
      }
    }
  }

  /** Without an entry no request compiled the method. */
  lemma {:induction false} NeverCompiled(reflect: Reflection, qs: seq<Request>, j: nat, id: nat)
    requires j < |qs| && qs[j].sig.id == id && id !in CacheAfterAll(reflect, map[], qs)
    ensures Compile(reflect, qs[j]).Fails?
    decreases |qs|
  {
    var last := |qs| - 1;
    if j < last {
      NeverCompiled(reflect, qs[..last], j, id);
    }
  }

  /** After any history: the answer is right exactly when the first request that compiled the method, if there was
      one, was in the mode that is wanted now, or the method has no parameters. */
  lemma AnswerRightExactly(reflect: Reflection, qs: seq<Request>, q: Request)
    requires SameSignatures(qs + [q])
    ensures Answer(reflect, CacheAfterAll(reflect, map[], qs), q) == Compile(reflect, q) <==>
      forall i: nat :: CompiledFirst(reflect, qs, i, q.sig.id) ==> qs[i].mode == q.mode || q.sig.params == []
  {
    var cache := CacheAfterAll(reflect, map[], qs);
    CacheKeepsFirst(reflect, qs, q.sig.id);
    forall i: nat | CompiledFirst(reflect, qs, i, q.sig.id)
      ensures qs[i].sig == q.sig
           && (Compile(reflect, qs[i]) == Compile(reflect, q) <==> qs[i].mode == q.mode || q.sig.params == [])
    {
      assert qs[i] in qs + [q] && q in qs + [q];
      SameCompiled(reflect, q.sig, qs[i].mode, q.mode);
    }
    if q.sig.id in cache {
      var i: nat :| CompiledFirst(reflect, qs, i, q.sig.id);
    }
  }

  /** A wrong answer is seen by callers: the cached code and the code asked for differ in what they do. */
  lemma WrongAnswerMisbinds(reflect: Reflection, sig: Signature, first: Mode, second: Mode)
    requires Compile(reflect, Request(first, sig)).Emitted? && Compile(reflect, Request(second, sig)).Emitted?
    ensures var cache := CacheAfterAll(reflect, map[], [Request(first, sig)]);
      var answer := Answer(reflect, cache, Request(second, sig)).value;
      FuncModes.SameBehaviour(answer, Compile(reflect, Request(second, sig)).value, sig.hasThis)
      <==> first == second || sig.params == []
  {
    var q := Request(first, sig);
    assert [q][..0] == [];
    assert CacheAfterAll(reflect, map[], [q]) == CacheAfter(reflect, CacheAfterAll(reflect, map[], []), q);
    if first != second {
      FuncModes.ModesAgree(reflect, sig);
      hide Compile;
    }
  }

  class Func {
    var wrappedMethods: Cache

    constructor ()
      ensures wrappedMethods == map[]
    {
      wrappedMethods := map[];
    }

    method Create(reflect: Reflection, q: Request) returns (r: Compiled<Code>)
      modifies this
      ensures r == old(Answer(reflect, wrappedMethods, q))
      ensures wrappedMethods == old(CacheAfter(reflect, wrappedMethods, q))
    {
      if q.sig.id in wrappedMethods {
        assert wrappedMethods[q.sig.id := wrappedMethods[q.sig.id]] == wrappedMethods;
        return DynFunc.Emitted(wrappedMethods[q.sig.id]);
      }
      match q.mode {
        case Plain => r := EmitConstruct(reflect, q.sig);
        case Remapped => r := EmitCommand(reflect, q.sig);
      }
      if r.Emitted? {
        wrappedMethods := wrappedMethods[q.sig.id := r.value];
      }
    }
  }
}
