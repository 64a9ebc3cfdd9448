/** MsgPackDeserializer itself: recursive methods over a stateful reader. */
module MsgPackReader {
  import opened LittleEndian
  import opened MsgPackFormat
  import D = MsgPackDecoder

  type Obj = D.Obj

  /** A method's outcome: the object, or the exception that ends the call. */
  datatype Outcome<T> = Ok(value: T) | Throws(e: D.Exception)

  class Deserializer {
    const data: Text
    const env: D.Env
    var position: nat

    constructor (data: Text, env: D.Env)
      ensures this.data == data && this.env == env && position == 0
    {
      this.data := data;
      this.env := env;
      position := 0;
    }

    ghost predicate Valid()
      reads this
    {
      position <= |data|
    }

    function Rest(): Text
      requires Valid()
      reads this
    {
      data[position..]
    }

    /** The method returned what the function returns, and left the reader where the function's rest begins. */
    ghost predicate Did<T>(r: Outcome<T>, spec: D.Result<T>)
      reads this
    {
      && Valid()
      && match spec
         case Throws(e) => r == Throws(e)
         case Ok(v, rest) => r == Ok(v) && Rest() == rest
    }

    method ReadByte() returns (r: Outcome<byte>)
      requires Valid()
      modifies this
      ensures Did(r, D.ReadByte(old(Rest())))
    {
      if position == |data| {
        return Throws(D.EndOfStream);
      }
      position := position + 1;
      return Ok(data[position - 1]);
    }

    method ReadBytes(n: int) returns (r: Outcome<Text>)
      requires Valid()
      modifies this
      ensures Did(r, D.ReadBytes(old(Rest()), n))
    {
      if n < 0 {
        return Throws(D.ArgumentOutOfRange);
      }
      var start := position;
      position := if n <= |data| - position then position + n else |data|;
      assert n <= |data| - start ==>
        data[start..][..n] == data[start..position] && data[start..][n..] == data[position..];
      assert data[start..|data|] == data[start..] && data[|data|..] == [];
      return Ok(data[start..position]);
    }

    /** Reads the bytes of a number and reverses them for BitConverter. */
    method ReadNumber(width: nat) returns (r: Outcome<nat>)
      requires Valid() && width > 0
      modifies this
      ensures Did(r, D.ReadNumber(old(Rest()), width))
    {
      if width == 1 {
        var b := ReadByte();
        match b {
          case Throws(e) => return Throws(e);
          case Ok(x) =>
            SingleByte(old(Rest()));
            return Ok(x);
        }
      }
      var bytes := ReadBytes(width);
      if |bytes.value| < width {
        return Throws(D.IndexOutOfRange);
      }
      return Ok(NumberOf(Reverse(bytes.value)));
    }

    method ReadLength(width: nat) returns (r: Outcome<int>)
      requires Valid() && width > 0
      modifies this
      ensures Did(r, D.ReadLength(old(Rest()), width))
    {
      var n := ReadNumber(width);
      match n {
        case Throws(e) => return Throws(e);
        case Ok(v) => return Ok(if width == 4 then D.Signed(v, 4) else v);
      }
    }

    method ReadComponents(n: nat) returns (r: Outcome<seq<nat>>)
      requires Valid()
      modifies this
      ensures Did(r, D.ReadComponents(old(Rest()), n))
    {
      var cs: seq<nat> := [];
      ghost var s0 := Rest();
      PrependNothing(D.ReadComponents(s0, n));
      for i := 0 to n
        invariant Valid()
        invariant D.ReadComponents(s0, n) == Prepend(cs, D.ReadComponents(Rest(), n - i))
      {
        if |data| - position < 4 {
          return Throws(D.EndOfStream);
        }
        ghost var s := Rest();
        var c := NumberOf(data[position..position + 4]);
        assert s[..4] == data[position..position + 4] && s[4..] == data[position + 4..];
        position := position + 4;
        PrependTwice(cs, c, D.ReadComponents(Rest(), n - i - 1));
        cs := cs + [c];
      }
      assert cs + [] == cs;
      return Ok(cs);
    }

    method UnpackExt(length: int) returns (r: Outcome<Obj>)
      requires Valid()
      modifies this
      ensures Did(r, D.UnpackExt(env, old(Rest()), length))
    {
      var ext := ReadByte();
      if ext.Throws? {
        return Throws(ext.e);
      }
      if ext.value == EXT_FUNCREF || ext.value == EXT_LOCALFUNCREF {
        var ref := ReadBytes(length);
        if ref.Throws? {
          return Throws(ref.e);
        }
        return Ok(D.FuncRef(ext.value == EXT_FUNCREF && env.fromNetwork, ref.value));
      } else if IsVectorExt(ext.value) {
        var cs := ReadComponents(ComponentCount(ext.value));
        if cs.Throws? {
          return Throws(cs.e);
        }
        return Ok(D.VectorN(ext.value, cs.value));
      }
      return Throws(D.InvalidOperation);
    }

    method UnpackText(n: int, binary: bool) returns (r: Outcome<Obj>)
      requires Valid()
      modifies this
      ensures Did(r, D.UnpackText(old(Rest()), n, binary))
    {
      var bytes := ReadBytes(n);
      match bytes {
        case Throws(e) => return Throws(e);
        case Ok(b) => return Ok(if binary then D.ByteArray(b) else D.Str(b));
      }
    }

    method UnpackLeaf(a: byte) returns (r: Outcome<Obj>)
      requires Valid() && !D.IsMapTag(a) && !D.IsArrayTag(a)
      modifies this
      ensures Did(r, D.UnpackLeaf(env, a, old(Rest())))
    {
      hide D.ReadNumber, D.UnpackExt, D.UnpackText, D.ReadLength;
      if a < 0x80 {
        return Ok(D.Int(D.Int32K, a));
      } else if a < 0xC0 {
        r := UnpackText(a % 32, false);
      } else if a > 0xDF {
        return Ok(D.Int(D.Int32K, a - 256));
      } else if a == 0xC0 {
        return Ok(D.Null);
      } else if a == 0xC2 {
        return Ok(D.Boolean(false));
      } else if a == 0xC3 {
        return Ok(D.Boolean(true));
      } else if 0xC4 <= a <= 0xC6 || 0xD9 <= a <= 0xDB {
        var n := ReadLength(D.TagWidth(if a <= 0xC6 then 0xC4 else 0xD9, a));
        if n.Throws? {
          return Throws(n.e);
        }
        r := UnpackText(n.value, a <= 0xC6);
      } else if 0xC7 <= a <= 0xC9 {
        var n := ReadLength(D.TagWidth(0xC7, a));
        if n.Throws? {
          return Throws(n.e);
        }
        r := UnpackExt(n.value);
      } else if 0xCA <= a <= 0xD3 {
        r := UnpackNumber(a);
      } else if 0xD4 <= a <= 0xD8 {
        r := UnpackExt(D.FixExtLength(a));
      } else {
        return Throws(D.InvalidOperation);
      }
    }

    method UnpackNumber(a: byte) returns (r: Outcome<Obj>)
      requires Valid() && 0xCA <= a <= 0xD3
      modifies this
      ensures Did(r, D.UnpackLeaf(env, a, old(Rest())))
    {
      hide D.ReadNumber;
      var width :=
        if a == 0xCA then 4
        else if a == 0xCB then 8
        else if a <= 0xCF then D.TagWidth(0xCC, a)
        else D.TagWidth(0xD0, a);
      var n := ReadNumber(width);
      match n {
        case Throws(e) => return Throws(e);
        case Ok(v) =>
          if a <= 0xCB {
            return Ok(if width == 4 then D.Single(v) else D.Double(v));
          } else if a <= 0xCF {
            return Ok(D.Int(D.UnsignedKind(width), v));
          } else {
            return Ok(D.Int(D.SignedKind(width), D.Signed(v, width)));
          }
      }
    }

    method ContainerLength(a: byte) returns (r: Outcome<int>)
      requires Valid() && (D.IsMapTag(a) || D.IsArrayTag(a))
      modifies this
      ensures Did(r, D.ContainerLength(a, old(Rest())))
    {
      if a < 0xA0 {
        return Ok(a % 16);
      }
      r := ReadLength(if a == 0xDC || a == 0xDE then 2 else 4);
    }

    method UnpackAny() returns (r: Outcome<Obj>)
      requires Valid()
      modifies this
      ensures Did(r, D.UnpackAny(env, old(Rest())))
      decreases |data| - position, 0
    {
      hide D.UnpackLeaf, D.UnpackMap, D.UnpackArray, D.ContainerLength;
      var s0 := Rest();
      var tag := ReadByte();
      if tag.Throws? {
        return Throws(tag.e);
      }
      var a := tag.value;
      if D.IsMapTag(a) || D.IsArrayTag(a) {
        var n := ContainerLength(a);
        if n.Throws? {
          return Throws(n.e);
        }
        LengthShrinks(a, s0[1..]);
        if D.IsMapTag(a) {
          r := UnpackMap(n.value);
        } else {
          r := UnpackArray(n.value);
        }
      } else {
        r := UnpackLeaf(a);
      }
    }

    method UnpackArray(length: int) returns (r: Outcome<Obj>)
      requires Valid()
      modifies this
      ensures Did(r, D.UnpackArray(env, old(Rest()), length, []))
      decreases |data| - position, 1
    {
      var retObject: seq<Obj> := [];
      ghost var s0 := Rest();
      var i := 0;
      while i < length
        invariant Valid() && 0 <= i && old(position) <= position && (i > 0 ==> i <= length)
        invariant D.UnpackArray(env, s0, length, []) == D.UnpackArray(env, Rest(), length - i, retObject)
      {
        hide D.UnpackAny;
        var value := UnpackAny();
        if value.Throws? {
          return Throws(value.e);
        }
        retObject := retObject + [value.value];
        i := i + 1;
      }
      return Ok(D.List(retObject));
    }

    method UnpackMap(length: int) returns (r: Outcome<Obj>)
      requires Valid()
      modifies this
      ensures Did(r, D.UnpackMap(env, old(Rest()), length, []))
      decreases |data| - position, 1
    {
      hide D.UnpackAny, D.UnpackMap, D.SetKey, D.KeyText;
      var retObject: seq<D.Entry> := [];
      ghost var s0 := Rest();
      var i := 0;
      while i < length
        invariant Valid() && 0 <= i && old(position) <= position && (i > 0 ==> i <= length)
        invariant D.UnpackMap(env, s0, length, []) == D.UnpackMap(env, Rest(), length - i, retObject)
      {
        MapUnfolds(env, Rest(), length - i, retObject);
        var key := UnpackAny();
        if key.Throws? {
          return Throws(key.e);
        }
        if key.value == D.Null {
          return Throws(D.NullReference);
        }
        var value := UnpackAny();
        if value.Throws? {
          return Throws(value.e);
        }
        retObject := D.SetKey(retObject, D.KeyText(env, key.value), value.value);
        i := i + 1;
      }
      MapEnds(env, Rest(), length - i, retObject);
      return Ok(D.Expando(retObject));
    }
  }

  /** One key and its value. */
  lemma MapUnfolds(env: D.Env, s: Text, n: int, entries: seq<D.Entry>)
    requires n > 0
    ensures D.UnpackMap(env, s, n, entries) == (
      match D.UnpackAny(env, s)
      case Throws(e) => D.Throws(e)
      case Ok(k, afterKey) =>
        if k == D.Null then D.Throws(D.NullReference) else
        match D.UnpackAny(env, afterKey)
        case Throws(e) => D.Throws(e)
        case Ok(v, rest) => D.UnpackMap(env, rest, n - 1, D.SetKey(entries, D.KeyText(env, k), v)))
  {
    hide D.UnpackAny, D.SetKey, D.KeyText;
  }

  lemma MapEnds(env: D.Env, s: Text, n: int, entries: seq<D.Entry>)
    requires n <= 0
    ensures D.UnpackMap(env, s, n, entries) == D.Ok(D.Expando(entries), s)
  {}

  lemma SingleByte(s: Text)
    requires |s| > 0
    ensures NumberOf(Reverse(s[..1])) == s[0]
  {
    assert s[..1] == [s[0]];
    assert Reverse([s[0]]) == [s[0]];
    assert [s[0]][1..] == [];
  }

  lemma LengthShrinks(a: byte, s: Text)
    ensures D.ContainerLength(a, s).Ok? ==> |D.ContainerLength(a, s).rest| <= |s|
  {
  }

  function Prepend(cs: seq<nat>, r: D.Result<seq<nat>>): D.Result<seq<nat>> {
    match r
    case Throws(e) => D.Throws(e)
    case Ok(more, rest) => D.Ok(cs + more, rest)
  }

  lemma PrependNothing(r: D.Result<seq<nat>>)
    ensures Prepend([], r) == r
  {
    if r.Ok? {
      assert [] + r.value == r.value;
    }
  }

  lemma PrependTwice(cs: seq<nat>, c: nat, r: D.Result<seq<nat>>)
    ensures Prepend(cs, Prepend([c], r)) == Prepend(cs + [c], r)
  {
    if r.Ok? {
      assert cs + ([c] + r.value) == cs + [c] + r.value;
    }
  }

  /** Deserialize on any legal encoding of a value. */
  method DeserializeEncoded(env: D.Env, w: Wire, more: Text) returns (o: Obj)
    requires MsgPackFormat.Valid(w)
    ensures D.Represents(env, o, ValueOf(w))
  {
    D.UnpackEncoded(env, w, more);
    var d := new Deserializer(Encode(w) + more, env);
    assert d.Rest() == Encode(w) + more;
    var r := d.UnpackAny();
    o := r.value;
  }
}
