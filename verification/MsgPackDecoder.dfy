/** What MsgPackDeserializer does with a byte string: the object it returns and the bytes it leaves,
    or the exception it throws. Reads past the end follow .NET's BinaryReader: ReadByte throws, ReadBytes
    returns what is there. */
module MsgPackDecoder {
  import opened LittleEndian
  import opened MsgPackFormat
  import opened Sequences

  /** The run-time type of a decoded number. */
  datatype Kind = SByteK | ByteK | Int16K | UInt16K | Int32K | UInt32K | Int64K | UInt64K

  datatype Obj =
    | Null
    | Boolean(b: bool)
    | Int(kind: Kind, n: int)
    | Single(bits: nat)
    | Double(bits: nat)
    | Str(text: Text)
    | ByteArray(data: Text)
    | List(items: seq<Obj>)
    | Expando(entries: seq<Entry>)
    | FuncRef(network: bool, ref: Text)
    | VectorN(ext: nat, components: seq<nat>)

  datatype Entry = Entry(key: Text, value: Obj)

  datatype Exception = EndOfStream | IndexOutOfRange | ArgumentOutOfRange | InvalidOperation | NullReference

  datatype Result<T> = Ok(value: T, rest: Text) | Throws(e: Exception)

  /** netSource is set when the data came over the network; toStr is ToString on the objects that are
      neither strings nor null. */
  datatype Env = Env(fromNetwork: bool, toStr: Obj -> Text)

  // ---- The reader ----

  function ReadByte(s: Text): Result<byte> {
    if s == [] then Throws(EndOfStream) else Ok(s[0], s[1..])
  }

  /** ReadBytes returns at most what is left. */
  function ReadBytes(s: Text, n: int): Result<Text> {
    if n < 0 then Throws(ArgumentOutOfRange)
    else if n <= |s| then Ok(s[..n], s[n..])
    else Ok(s, [])
  }

  /** A big-endian number of 1, 2, 4 or 8 bytes; a short multi-byte read fails when it is indexed. */
  function ReadNumber(s: Text, width: nat): Result<nat>
    requires width > 0
  {
    if |s| < width then Throws(if width == 1 then EndOfStream else IndexOutOfRange)
    else Ok(NumberOf(Reverse(s[..width])), s[width..])
  }

  function Signed(v: int, width: nat): int {
    if 2 * v < Pow256(width) then v else v - Pow256(width)
  }

  /** 8- and 16-bit lengths are unsigned, 32-bit ones signed. */
  function ReadLength(s: Text, width: nat): Result<int>
    requires width > 0
  {
    match ReadNumber(s, width)
    case Throws(e) => Throws(e)
    case Ok(n, rest) => Ok(if width == 4 then Signed(n, 4) else n, rest)
  }

  // ---- Leaves ----

  function UnsignedKind(width: nat): Kind {
    if width == 1 then ByteK else if width == 2 then UInt16K else if width == 4 then UInt32K else UInt64K
  }

  function SignedKind(width: nat): Kind {
    if width == 1 then SByteK else if width == 2 then Int16K else if width == 4 then Int32K else Int64K
  }

  function TagWidth(base: byte, a: byte): nat
    requires base <= a <= base + 3
  {
    if a == base then 1 else if a == base + 1 then 2 else if a == base + 2 then 4 else 8
  }

  function UnpackUnsigned(s: Text, width: nat): Result<Obj>
    requires width > 0
  {
    match ReadNumber(s, width)
    case Throws(e) => Throws(e)
    case Ok(n, rest) => Ok(Int(UnsignedKind(width), n), rest)
  }

  function UnpackSigned(s: Text, width: nat): Result<Obj>
    requires width > 0
  {
    match ReadNumber(s, width)
    case Throws(e) => Throws(e)
    case Ok(n, rest) => Ok(Int(SignedKind(width), Signed(n, width)), rest)
  }

  function UnpackFloat(s: Text, width: nat): Result<Obj>
    requires width > 0
  {
    match ReadNumber(s, width)
    case Throws(e) => Throws(e)
    case Ok(n, rest) => Ok(if width == 4 then Single(n) else Double(n), rest)
  }

  function UnpackText(s: Text, n: int, binary: bool): Result<Obj> {
    match ReadBytes(s, n)
    case Throws(e) => Throws(e)
    case Ok(bytes, rest) => Ok(if binary then ByteArray(bytes) else Str(bytes), rest)
  }

  function UnpackLongText(s: Text, width: nat, binary: bool): Result<Obj>
    requires width > 0
  {
    match ReadLength(s, width)
    case Throws(e) => Throws(e)
    case Ok(n, rest) => UnpackText(rest, n, binary)
  }

  // ---- Extensions ----

  function ReadComponents(s: Text, n: nat): Result<seq<nat>> {
    if n == 0 then Ok([], s)
    else if |s| < 4 then Throws(EndOfStream)
    else
      match ReadComponents(s[4..], n - 1)
      case Throws(e) => Throws(e)
      case Ok(cs, rest) => Ok([NumberOf(s[..4])] + cs, rest)
  }

  /** The length only matters to the function references; vectors read as many bytes as they need. */
  function UnpackExt(env: Env, s: Text, length: int): Result<Obj> {
    match ReadByte(s)
    case Throws(e) => Throws(e)
    case Ok(ext, body) =>
      if ext == EXT_FUNCREF || ext == EXT_LOCALFUNCREF then
        match ReadBytes(body, length)
        case Throws(e) => Throws(e)
        case Ok(ref, rest) => Ok(FuncRef(ext == EXT_FUNCREF && env.fromNetwork, ref), rest)
      else if IsVectorExt(ext) then
        match ReadComponents(body, ComponentCount(ext))
        case Throws(e) => Throws(e)
        case Ok(cs, rest) => Ok(VectorN(ext, cs), rest)
      else Throws(InvalidOperation)
  }

  function FixExtLength(a: byte): nat {
    if a == 0xD4 then 1 else if a == 0xD5 then 2 else if a == 0xD6 then 4 else if a == 0xD7 then 8 else 16
  }

  function UnpackLongExt(env: Env, s: Text, width: nat): Result<Obj>
    requires width > 0
  {
    match ReadLength(s, width)
    case Throws(e) => Throws(e)
    case Ok(n, rest) => UnpackExt(env, rest, n)
  }

  // ---- Dispatch ----

  predicate IsMapTag(a: byte) { 0x80 <= a < 0x90 || a == 0xDE || a == 0xDF }

  predicate IsArrayTag(a: byte) { 0x90 <= a < 0xA0 || a == 0xDC || a == 0xDD }

  /** How many items or pairs follow the tag of an array or a map. */
  function ContainerLength(a: byte, s: Text): Result<int> {
    if a < 0xA0 then Ok(a % 16, s)
    else ReadLength(s, if a == 0xDC || a == 0xDE then 2 else 4)
  }

  /** Everything that is neither an array nor a map. */
  function UnpackLeaf(env: Env, a: byte, s: Text): Result<Obj>
    requires !IsMapTag(a) && !IsArrayTag(a)
  {
    if a < 0x80 then Ok(Int(Int32K, a), s)
    else if a < 0xC0 then UnpackText(s, a % 32, false)
    else if a > 0xDF then Ok(Int(Int32K, a - 256), s)
    else if a == 0xC0 then Ok(Null, s)
    else if a == 0xC2 then Ok(Boolean(false), s)
    else if a == 0xC3 then Ok(Boolean(true), s)
    else if 0xC4 <= a <= 0xC6 then UnpackLongText(s, TagWidth(0xC4, a), true)
    else if 0xC7 <= a <= 0xC9 then UnpackLongExt(env, s, TagWidth(0xC7, a))
    else if a == 0xCA then UnpackFloat(s, 4)
    else if a == 0xCB then UnpackFloat(s, 8)
    else if 0xCC <= a <= 0xCF then UnpackUnsigned(s, TagWidth(0xCC, a))
    else if 0xD0 <= a <= 0xD3 then UnpackSigned(s, TagWidth(0xD0, a))
    else if 0xD4 <= a <= 0xD8 then UnpackExt(env, s, FixExtLength(a))
    else if 0xD9 <= a <= 0xDB then UnpackLongText(s, TagWidth(0xD9, a), false)
    else Throws(InvalidOperation)
  }

  /** key.ToString() */
  function KeyText(env: Env, o: Obj): Text
    requires o != Null
  {
    if o.Str? then o.text else env.toStr(o)
  }

  /** retObject[key] = value: an existing key keeps its place. */
  function SetKey(entries: seq<Entry>, key: Text, value: Obj): seq<Entry> {
    if entries == [] then [Entry(key, value)]
    else if entries[0].key == key then [Entry(key, value)] + entries[1..]
    else [entries[0]] + SetKey(entries[1..], key, value)
  }

  function UnpackAny(env: Env, s: Text): (r: Result<Obj>)
    ensures r.Ok? ==> |r.rest| < |s|
    decreases |s|, 0, 0
  {
    match ReadByte(s)
    case Throws(e) => Throws(e)
    case Ok(a, body) =>
      if IsMapTag(a) then
        match ContainerLength(a, body)
        case Throws(e) => Throws(e)
        case Ok(n, rest) => UnpackMap(env, rest, n, [])
      else if IsArrayTag(a) then
        match ContainerLength(a, body)
        case Throws(e) => Throws(e)
        case Ok(n, rest) => UnpackArray(env, rest, n, [])
      else
        LeafShrinks(env, a, body);
        UnpackLeaf(env, a, body)
  }

  /** The loop of UnpackArray with n items to go; a negative count reads none. */
  function UnpackArray(env: Env, s: Text, n: int, items: seq<Obj>): (r: Result<Obj>)
    ensures r.Ok? ==> |r.rest| <= |s|
    decreases |s|, 1, if n < 0 then 0 else n
  {
    if n <= 0 then Ok(List(items), s)
    else
      match UnpackAny(env, s)
      case Throws(e) => Throws(e)
      case Ok(o, rest) => UnpackArray(env, rest, n - 1, items + [o])
  }

  function UnpackMap(env: Env, s: Text, n: int, entries: seq<Entry>): (r: Result<Obj>)
    ensures r.Ok? ==> |r.rest| <= |s|
    decreases |s|, 1, if n < 0 then 0 else n
  {
    if n <= 0 then Ok(Expando(entries), s)
    else
      match UnpackAny(env, s)
      case Throws(e) => Throws(e)
      case Ok(k, afterKey) =>
        if k == Null then Throws(NullReference)
        else
          match UnpackAny(env, afterKey)
          case Throws(e) => Throws(e)
          case Ok(v, rest) => UnpackMap(env, rest, n - 1, SetKey(entries, KeyText(env, k), v))
  }

  lemma {:induction false} ComponentsShrink(s: Text, n: nat)
    ensures ReadComponents(s, n).Ok? ==> |ReadComponents(s, n).rest| <= |s|
  {
    if n == 0 || |s| < 4 {
    } else {
      ComponentsShrink(s[4..], n - 1);
    }
  }

  lemma ExtShrinks(env: Env, s: Text, length: int)
    ensures UnpackExt(env, s, length).Ok? ==> |UnpackExt(env, s, length).rest| <= |s|
  {
    if s != [] {
      ComponentsShrink(s[1..], ComponentCount(s[0]));
    }
  }

  lemma LongExtShrinks(env: Env, s: Text, width: nat)
    requires width > 0
    ensures UnpackLongExt(env, s, width).Ok? ==> |UnpackLongExt(env, s, width).rest| <= |s|
  {
    var n := ReadLength(s, width);
    if n.Ok? {
      ExtShrinks(env, n.rest, n.value);
    }
    hide UnpackExt;
  }

  lemma LeafShrinks(env: Env, a: byte, s: Text)
    requires !IsMapTag(a) && !IsArrayTag(a)
    ensures UnpackLeaf(env, a, s).Ok? ==> |UnpackLeaf(env, a, s).rest| <= |s|
  {
    if 0xC7 <= a <= 0xC9 {
      LongExtShrinks(env, s, TagWidth(0xC7, a));
    }
    ExtShrinks(env, s, FixExtLength(a));
    hide UnpackExt, UnpackLongExt, NumberOf, Reverse, Signed;
  }

  // ---- Decoding undoes encoding ----

  /** The decoded object stands for the value; a number may have any of the integer types. */
  predicate Represents(env: Env, o: Obj, v: Value) {
    match v
    case Nil => o == Null
    case Bool(b) => o == Boolean(b)
    case Integer(n) => o.Int? && o.n == n
    case Float32(bits) => o == Single(bits)
    case Float64(bits) => o == Double(bits)
    case String(text) => o == Str(text)
    case Binary(data) => o == ByteArray(data)
    case Array(items) => o.List? && |o.items| == |items| && forall i :: 0 <= i < |items| ==>
      Represents(env, o.items[i], items[i])
    case Map(pairs) =>
      o.Expando? && |o.entries| == |pairs|
      && forall i :: 0 <= i < |pairs| ==>
        o.entries[i].key == pairs[i].key && Represents(env, o.entries[i].value, pairs[i].value)
    case Function(local, ref) => o == FuncRef(!local && env.fromNetwork, ref)
    case Vector(ext, components) => o == VectorN(ext, components)
  }

  lemma {:induction false} ReverseLast(s: Text, x: byte)
    ensures Reverse(s + [x]) == [x] + Reverse(s)
  {
    if s == [] {
      assert (s + [x])[1..] == [];
    } else {
      assert (s + [x])[1..] == s[1..] + [x];
      ReverseLast(s[1..], x);
    }
  }

  lemma {:induction false} ReverseTwice(s: Text)
    ensures Reverse(Reverse(s)) == s
  {
    if s == [] {
    } else {
      ReverseLast(Reverse(s[1..]), s[0]);
      ReverseTwice(s[1..]);
    }
  }

  lemma NumberReads(n: nat, width: nat, rest: Text)
    requires width > 0 && n < Pow256(width)
    ensures ReadNumber(BigEndian(n, width) + rest, width) == Ok(n, rest)
  {
    var b := BigEndian(n, width);
    assert (b + rest)[..width] == b && (b + rest)[width..] == rest;
    ReverseTwice(Bytes(n, width));
    ValueBytes(n, width);
  }

  lemma SignedUnsigned(n: int, width: nat)
    requires 0 - Pow256(width) <= 2 * n < Pow256(width)
    ensures Unsigned(n, width) < Pow256(width) && Signed(Unsigned(n, width), width) == n
  {
    PowPositive(width);
  }

  lemma TextReads(text: Text, rest: Text, binary: bool)
    ensures UnpackText(text + rest, |text|, binary) == Ok(if binary then ByteArray(text) else Str(text), rest)
  {
    assert (text + rest)[..|text|] == text && (text + rest)[|text|..] == rest;
  }

  /** A length of 1, 2 or 4 bytes reads back, up to 2^31 for the last. */
  lemma LengthReads(form: Form, n: nat, rest: Text)
    requires form != Fix && Fits(form, n, 0)
    ensures var width := if form == L8 then 1 else if form == L16 then 2 else 4;
      ReadLength(BigEndian(n, width) + rest, width) == Ok(n, rest)
  {
    assert Pow256(1) == 0x100 && Pow256(2) == 0x1_0000 && Pow256(4) == 0x1_0000_0000;
    hide ReadNumber, BigEndian, Pow256;
    NumberReads(n, if form == L8 then 1 else if form == L16 then 2 else 4, rest);
    assert form == L32 ==> Signed(n, 4) == n;
  }

  lemma {:induction false} ComponentsRead(cs: seq<nat>, rest: Text)
    requires forall i :: 0 <= i < |cs| ==> cs[i] < Pow256(4)
    ensures ReadComponents(Components(cs) + rest, |cs|) == Ok(cs, rest)
  {
    if cs == [] {
      assert Components(cs) + rest == rest;
    } else {
      var first, more := Bytes(cs[0], 4), Components(cs[1..]) + rest;
      assert Components(cs) + rest == first + more;
      assert (first + more)[..4] == first && (first + more)[4..] == more;
      ValueBytes(cs[0], 4);
      ComponentsRead(cs[1..], rest);
      assert [cs[0]] + cs[1..] == cs;
    }
  }

  // Which function a tag selects.

  lemma LeafTag(env: Env, a: byte, body: Text)
    requires !IsMapTag(a) && !IsArrayTag(a)
    ensures UnpackAny(env, [a] + body) == UnpackLeaf(env, a, body)
  {
    hide UnpackLeaf;
    assert ([a] + body)[1..] == body;
  }

  lemma ContainerTag(env: Env, a: byte, body: Text)
    requires (IsMapTag(a) || IsArrayTag(a)) && ContainerLength(a, body).Ok?
    ensures var n := ContainerLength(a, body);
      UnpackAny(env, [a] + body)
        == if IsMapTag(a) then UnpackMap(env, n.rest, n.value, []) else UnpackArray(env, n.rest, n.value, [])
  {
    hide ContainerLength, UnpackLeaf;
    assert ([a] + body)[1..] == body;
  }

  function FormWidth(form: Form): nat { if form == L8 then 1 else if form == L16 then 2 else 4 }

  /** A header with a length after the tag. */
  lemma LongHeader(form: Form, n: nat, fix: byte, t8: byte, t16: byte, t32: byte, body: Text)
    requires form != Fix && Fits(form, n, 0)
    ensures var tag := if form == L8 then t8 else if form == L16 then t16 else t32;
      Header(form, n, fix, t8, t16, t32) + body == [tag] + (BigEndian(n, FormWidth(form)) + body)
    ensures ReadLength(BigEndian(n, FormWidth(form)) + body, FormWidth(form)) == Ok(n, body)
  {
    LengthReads(form, n, body);
  }

  lemma ExtHeaderReads(env: Env, form: Form, n: nat, body: Text)
    requires ExtFits(form, n)
    ensures UnpackAny(env, ExtHeader(form, n) + body) == UnpackExt(env, body, n)
  {
    hide UnpackAny, UnpackExt, ReadLength, BigEndian, UnpackText, UnpackLongText, ReadNumber;
    if form == Fix {
      LeafTag(env, FixExtTag(n), body);
    } else {
      LongHeader(form, n, 0, 0xC7, 0xC8, 0xC9, body);
      LeafTag(env, if form == L8 then 0xC7 else if form == L16 then 0xC8 else 0xC9,
              BigEndian(n, FormWidth(form)) + body);
    }
  }

  lemma StrHeaderReads(env: Env, form: Form, n: nat, body: Text)
    requires Fits(form, n, 32)
    ensures UnpackAny(env, StrHeader(form, n) + body) == UnpackText(body, n, false)
  {
    hide UnpackAny, UnpackExt, UnpackLongExt, ReadLength, BigEndian, UnpackText, ReadNumber;
    if form == Fix {
      LeafTag(env, 0xA0 + n, body);
    } else {
      LongHeader(form, n, 0xA0, 0xD9, 0xDA, 0xDB, body);
      LeafTag(env, if form == L8 then 0xD9 else if form == L16 then 0xDA else 0xDB,
              BigEndian(n, FormWidth(form)) + body);
    }
  }

  lemma BinHeaderReads(env: Env, form: Form, n: nat, body: Text)
    requires form != Fix && Fits(form, n, 0)
    ensures UnpackAny(env, BinHeader(form, n) + body) == UnpackText(body, n, true)
  {
    hide UnpackAny, UnpackExt, UnpackLongExt, ReadLength, BigEndian, UnpackText, ReadNumber;
    LongHeader(form, n, 0, 0xC4, 0xC5, 0xC6, body);
    LeafTag(env, if form == L8 then 0xC4 else if form == L16 then 0xC5 else 0xC6,
            BigEndian(n, FormWidth(form)) + body);
  }

  lemma StrReads(env: Env, form: Form, text: Text, rest: Text)
    requires Fits(form, |text|, 32)
    ensures UnpackAny(env, StrHeader(form, |text|) + text + rest) == Ok(Str(text), rest)
  {
    hide UnpackAny, UnpackExt, UnpackLongExt, ReadLength, BigEndian, UnpackText, ReadNumber;
    var body := text + rest;
    assert StrHeader(form, |text|) + text + rest == StrHeader(form, |text|) + body;
    TextReads(text, rest, false);
    if form == Fix {
      LeafTag(env, 0xA0 + |text|, body);
    } else {
      LongHeader(form, |text|, 0xA0, 0xD9, 0xDA, 0xDB, body);
      LeafTag(env, if form == L8 then 0xD9 else if form == L16 then 0xDA else 0xDB,
              BigEndian(|text|, FormWidth(form)) + body);
    }
  }

  lemma BinReads(env: Env, form: Form, data: Text, rest: Text)
    requires form != Fix && Fits(form, |data|, 0)
    ensures UnpackAny(env, BinHeader(form, |data|) + data + rest) == Ok(ByteArray(data), rest)
  {
    hide UnpackAny, UnpackExt, UnpackLongExt, ReadLength, BigEndian, UnpackText, ReadNumber;
    var body := data + rest;
    assert BinHeader(form, |data|) + data + rest == BinHeader(form, |data|) + body;
    TextReads(data, rest, true);
    LongHeader(form, |data|, 0, 0xC4, 0xC5, 0xC6, body);
    LeafTag(env, if form == L8 then 0xC4 else if form == L16 then 0xC5 else 0xC6,
            BigEndian(|data|, FormWidth(form)) + body);
  }

  lemma ArrayHeaderReads(env: Env, form: Form, n: nat, body: Text)
    requires form != L8 && Fits(form, n, 16)
    ensures UnpackAny(env, ArrayHeader(form, n) + body) == UnpackArray(env, body, n, [])
  {
    hide UnpackAny, UnpackArray, ReadLength, BigEndian;
    if form == Fix {
      ContainerTag(env, 0x90 + n, body);
    } else {
      LongHeader(form, n, 0x90, 0, 0xDC, 0xDD, body);
      ContainerTag(env, if form == L16 then 0xDC else 0xDD, BigEndian(n, FormWidth(form)) + body);
    }
  }

  lemma MapHeaderReads(env: Env, form: Form, n: nat, body: Text)
    requires form != L8 && Fits(form, n, 16)
    ensures UnpackAny(env, MapHeader(form, n) + body) == UnpackMap(env, body, n, [])
  {
    hide UnpackAny, UnpackMap, ReadLength, BigEndian;
    if form == Fix {
      ContainerTag(env, 0x80 + n, body);
    } else {
      LongHeader(form, n, 0x80, 0, 0xDE, 0xDF, body);
      ContainerTag(env, if form == L16 then 0xDE else 0xDF, BigEndian(n, FormWidth(form)) + body);
    }
  }

  lemma WidthTagReads(base: byte, width: nat)
    requires base <= 0xD0 && IsWidth(width)
    ensures base <= WidthTag(base, width) <= base + 3 && TagWidth(base, WidthTag(base, width)) == width
  {
  }

  /** Numbers, booleans and nil. */
  lemma ScalarReads(env: Env, w: Wire, rest: Text)
    requires Valid(w) && (w.WNil? || w.WBool? || w.WFixInt? || w.WUInt? || w.WInt? || w.WFloat?)
    ensures var r := UnpackAny(env, Encode(w) + rest);
      r.Ok? && r.rest == rest && Represents(env, r.value, ValueOf(w))
  {
    hide UnpackAny, UnpackExt, UnpackLongExt, UnpackText, UnpackLongText, ReadNumber, BigEndian, Pow256, Signed,
      Unsigned;
    match w {
      case WNil => LeafTag(env, 0xC0, rest);
      case WBool(b) => LeafTag(env, if b then 0xC3 else 0xC2, rest);
      case WFixInt(n) => LeafTag(env, if n < 0 then n + 256 else n, rest);
      case WUInt(width, n) =>
        var body := BigEndian(n, width) + rest;
        assert Encode(w) + rest == [WidthTag(0xCC, width)] + body;
        WidthTagReads(0xCC, width);
        LeafTag(env, WidthTag(0xCC, width), body);
        NumberReads(n, width, rest);
      case WInt(width, n) =>
        SignedUnsigned(n, width);
        var body := BigEndian(Unsigned(n, width), width) + rest;
        assert Encode(w) + rest == [WidthTag(0xD0, width)] + body;
        WidthTagReads(0xD0, width);
        LeafTag(env, WidthTag(0xD0, width), body);
        NumberReads(Unsigned(n, width), width, rest);
      case WFloat(width, bits) =>
        var body := BigEndian(bits, width) + rest;
        assert Encode(w) + rest == [if width == 4 then 0xCA else 0xCB] + body;
        LeafTag(env, if width == 4 then 0xCA else 0xCB, body);
        NumberReads(bits, width, rest);
    }
  }

  lemma ExtReads(env: Env, w: Wire, rest: Text)
    requires Valid(w) && (w.WFunction? || w.WVector?)
    ensures var r := UnpackAny(env, Encode(w) + rest);
      r.Ok? && r.rest == rest && Represents(env, r.value, ValueOf(w))
  {
    hide UnpackAny, ReadComponents, Components, ExtHeader, Pow256;
    match w {
      case WFunction(form, local, ref) =>
        var tag: Text := [if local then EXT_LOCALFUNCREF else EXT_FUNCREF];
        var body := tag + (ref + rest);
        assert Encode(w) + rest == ExtHeader(form, |ref|) + body;
        ExtHeaderReads(env, form, |ref|, body);
        assert body[1..] == ref + rest && (ref + rest)[..|ref|] == ref && (ref + rest)[|ref|..] == rest;
      case WVector(form, ext, cs) =>
        var body := [ext] + (Components(cs) + rest);
        assert Encode(w) + rest == ExtHeader(form, 4 * |cs|) + body;
        ExtHeaderReads(env, form, 4 * |cs|, body);
        assert body[1..] == Components(cs) + rest;
        ComponentsRead(cs, rest);
    }
  }

  lemma {:induction false} SetNewKey(entries: seq<Entry>, key: Text, value: Obj)
    requires forall i :: 0 <= i < |entries| ==> entries[i].key != key
    ensures SetKey(entries, key, value) == entries + [Entry(key, value)]
  {
    if entries == [] {
    } else {
      SetNewKey(entries[1..], key, value);
    }
  }

  /** For every legal encoding of a value, followed by anything: decoding returns an object that stands for
      the value and leaves exactly what follows. */
  lemma {:induction false} UnpackEncoded(env: Env, w: Wire, rest: Text)
    requires Valid(w)
    ensures var r := UnpackAny(env, Encode(w) + rest);
      r.Ok? && r.rest == rest && Represents(env, r.value, ValueOf(w))
    decreases w, 0
  {
    hide UnpackAny, UnpackArray, UnpackMap, StrHeader, BinHeader, ArrayHeader, MapHeader, ExtHeader, BigEndian, Pow256;
    match w {
      case WStr(form, text) =>
        StrReads(env, form, text, rest);
      case WBin(form, data) =>
        BinReads(env, form, data, rest);
      case WArray(form, items) =>
        Regroup(ArrayHeader(form, |items|), EncodeAll(items), rest);
        ArrayHeaderReads(env, form, |items|, EncodeAll(items) + rest);
        UnpackItems(env, items, [], rest);
      case WMap(form, entries) =>
        Regroup(MapHeader(form, |entries|), EncodePairs(entries), rest);
        MapHeaderReads(env, form, |entries|, EncodePairs(entries) + rest);
        UnpackPairs(env, entries, [], rest);
      case WFunction(_, _, _) => ExtReads(env, w, rest);
      case WVector(_, _, _) => ExtReads(env, w, rest);
      case _ => ScalarReads(env, w, rest);
    }
  }

  /** The items of a list from position k on stand for vs. */
  predicate ItemsRepresent(env: Env, items: seq<Obj>, k: nat, vs: seq<Value>) {
    |items| == k + |vs| && forall i :: 0 <= i < |vs| ==> Represents(env, items[k + i], vs[i])
  }

  predicate EntriesRepresent(env: Env, entries: seq<Entry>, k: nat, ps: seq<Pair>) {
    && |entries| == k + |ps|
    && forall i :: 0 <= i < |ps| ==>
      entries[k + i].key == ps[i].key && Represents(env, entries[k + i].value, ps[i].value)
  }

  lemma ArrayStep(env: Env, first: Text, tail: Text, n: nat, done: seq<Obj>, o: Obj)
    requires UnpackAny(env, first + tail) == Ok(o, tail) && n > 0
    ensures UnpackArray(env, first + tail, n, done) == UnpackArray(env, tail, n - 1, done + [o])
  {
    hide UnpackAny;
  }

  lemma MapStep(env: Env, key: Text, keyBytes: Text, valueBytes: Text, tail: Text, n: nat, done: seq<Entry>, o: Obj)
    requires UnpackAny(env, keyBytes + (valueBytes + tail)) == Ok(Str(key), valueBytes + tail)
    requires UnpackAny(env, valueBytes + tail) == Ok(o, tail) && n > 0
    requires forall i :: 0 <= i < |done| ==> done[i].key != key
    ensures UnpackMap(env, keyBytes + (valueBytes + tail), n, done)
      == UnpackMap(env, tail, n - 1, done + [Entry(key, o)])
  {
    hide UnpackAny;
    SetNewKey(done, key, o);
  }

  lemma ItemsShift(env: Env, items: seq<Obj>, k: nat, o: Obj, v: Value, vs: seq<Value>)
    requires ItemsRepresent(env, items, k + 1, vs) && k < |items| && items[k] == o && Represents(env, o, v)
    ensures ItemsRepresent(env, items, k, [v] + vs)
  {
    hide Represents;
    forall i | 0 <= i < 1 + |vs| ensures Represents(env, items[k + i], ([v] + vs)[i]) {
      if i > 0 {
        assert items[k + i] == items[k + 1 + (i - 1)];
      }
    }
  }

  lemma EntriesShift(env: Env, entries: seq<Entry>, k: nat, e: Entry, p: Pair, ps: seq<Pair>)
    requires EntriesRepresent(env, entries, k + 1, ps) && k < |entries| && entries[k] == e
    requires e.key == p.key && Represents(env, e.value, p.value)
    ensures EntriesRepresent(env, entries, k, [p] + ps)
  {
    hide Represents;
    forall i | 0 <= i < 1 + |ps|
      ensures entries[k + i].key == ([p] + ps)[i].key && Represents(env, entries[k + i].value, ([p] + ps)[i].value)
    {
      if i > 0 {
        assert entries[k + i] == entries[k + 1 + (i - 1)];
      }
    }
  }

  lemma {:induction false} UnpackItems(env: Env, items: seq<Wire>, done: seq<Obj>, rest: Text)
    requires AllValid(items)
    ensures var r := UnpackArray(env, EncodeAll(items) + rest, |items|, done);
      && r.Ok? && r.rest == rest && r.value.List? && done <= r.value.items
      && ItemsRepresent(env, r.value.items, |done|, ValuesOf(items))
    decreases items, 1
  {
    if items == [] {
      assert EncodeAll(items) + rest == rest;
    } else {
      hide UnpackAny, UnpackArray, Represents, Encode, Valid, ItemsRepresent;
      var first, more := Encode(items[0]), EncodeAll(items[1..]);
      var tail := more + rest;
      Regroup(first, more, rest);
      UnpackEncoded(env, items[0], tail);
      var o := UnpackAny(env, first + tail).value;
      ArrayStep(env, first, tail, |items|, done, o);
      UnpackItems(env, items[1..], done + [o], rest);
      var r := UnpackArray(env, tail, |items| - 1, done + [o]);
      assert r.value.items[|done|] == (done + [o])[|done|] == o;
      ItemsShift(env, r.value.items, |done|, o, ValueOf(items[0]), ValuesOf(items[1..]));
    }
  }

  /** The keys already in the map and those still to come. */
  predicate KeysApart(done: seq<Entry>, entries: seq<WPair>) {
    forall i, j :: 0 <= i < |done| && 0 <= j < |entries| ==> done[i].key != entries[j].key
  }

  lemma KeysApartHere(done: seq<Entry>, entries: seq<WPair>)
    requires KeysApart(done, entries) && entries != []
    ensures forall i :: 0 <= i < |done| ==> done[i].key != entries[0].key
  {
  }

  lemma KeysStayDistinct(entries: seq<WPair>, done: seq<Entry>, o: Obj)
    requires entries != [] && DistinctKeys(entries) && KeysApart(done, entries)
    ensures DistinctKeys(entries[1..]) && KeysApart(done + [Entry(entries[0].key, o)], entries[1..])
  {
  }

  lemma {:induction false} UnpackPairs(env: Env, entries: seq<WPair>, done: seq<Entry>, rest: Text)
    requires AllPairsValid(entries) && DistinctKeys(entries)
    requires KeysApart(done, entries)
    ensures var r := UnpackMap(env, EncodePairs(entries) + rest, |entries|, done);
      && r.Ok? && r.rest == rest && r.value.Expando? && done <= r.value.entries
      && EntriesRepresent(env, r.value.entries, |done|, PairsOf(entries))
    decreases entries, 1
  {
    if entries == [] {
      assert EncodePairs(entries) + rest == rest;
    } else {
      hide UnpackAny, UnpackMap, Represents, Encode, Valid, EntriesRepresent, StrHeader, Fits, DistinctKeys, KeysApart;
      var e := entries[0];
      var more := EncodePairs(entries[1..]);
      var tail := more + rest;
      var keyBytes, valueBytes := StrHeader(e.keyForm, |e.key|) + e.key, Encode(e.value);
      assert EncodePairs(entries) == keyBytes + valueBytes + more;
      Regroup(keyBytes + valueBytes, more, rest);
      Regroup(keyBytes, valueBytes, tail);
      StrReads(env, e.keyForm, e.key, valueBytes + tail);
      UnpackEncoded(env, e.value, tail);
      var o := UnpackAny(env, valueBytes + tail).value;
      KeysApartHere(done, entries);
      MapStep(env, e.key, keyBytes, valueBytes, tail, |entries|, done, o);
      var done' := done + [Entry(e.key, o)];
      KeysStayDistinct(entries, done, o);
      UnpackPairs(env, entries[1..], done', rest);
      var r := UnpackMap(env, tail, |entries| - 1, done');
      assert r.value.entries[|done|] == done'[|done|];
      EntriesShift(env, r.value.entries, |done|, Entry(e.key, o), Pair(e.key, ValueOf(e.value)), PairsOf(entries[1..]));
    }
  }

  /** Counts and sizes of 2^31 and more read as negative numbers: an array or a map comes out empty, with
      its content left unread, and text or binary data is refused. */
  lemma HugeLengths(env: Env, n: nat, body: Text)
    requires 0x8000_0000 <= n < 0x1_0000_0000
    ensures UnpackAny(env, [0xDD] + (BigEndian(n, 4) + body)) == Ok(List([]), body)
    ensures UnpackAny(env, [0xDF] + (BigEndian(n, 4) + body)) == Ok(Expando([]), body)
    ensures UnpackAny(env, [0xDB] + (BigEndian(n, 4) + body)) == Throws(ArgumentOutOfRange)
    ensures UnpackAny(env, [0xC6] + (BigEndian(n, 4) + body)) == Throws(ArgumentOutOfRange)
  {
    assert Pow256(4) == 0x1_0000_0000;
    hide UnpackAny, ReadNumber, BigEndian;
    var s := BigEndian(n, 4) + body;
    NumberReads(n, 4, body);
    assert ReadLength(s, 4) == Ok(n - 0x1_0000_0000, body);
    ContainerTag(env, 0xDD, s);
    ContainerTag(env, 0xDF, s);
    LeafTag(env, 0xDB, s);
    LeafTag(env, 0xC6, s);
  }
}
