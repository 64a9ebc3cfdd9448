/** Tables with keys of any type, at any depth, and what no serialiser writes, with the exact object that each of these
    decodes to or the exception it causes. */
module MsgPackTables {
  import opened LittleEndian
  import opened MsgPackFormat
  import opened MsgPackDecoder
  import opened Options
  import opened Sequences

  /** An encoding in which the keys of a table may be any encoding, and any part may be an oddity. A leaf is no array
      and no map. */
  datatype Node =
    | Leaf(w: Wire)
    | Sequence(form: Form, items: seq<Node>)
    | Table(form: Form, entries: seq<NodePair>)
    | Odd(x: Oddity)

  datatype NodePair = NodePair(key: Node, value: Node)

  /** The tag that is never used, extension types that are not handled, lengths that do not fit an int, and vectors
      whose header gives any length. Nothing is said about what follows an extension that is not handled.
      The second half is what the end of the data may leave: nothing at all, a tag with some bytes of its number or
      length, an extension without its type, and vectors and texts of which bytes are missing. */
  datatype Oddity =
    | Unused
    | UnknownExt(form: Form, length: nat, ext: byte)
    | AnyVector(form: Form, length: nat, ext: byte, components: seq<nat>)
    | HugeFunction(length: nat, local: bool)
    | HugeText(binary: bool, length: nat)
    | HugeList(length: nat)
    | HugeTable(length: nat)
    | Nothing
    | ShortNumber(tag: byte, bytes: Text)
    | NoType(form: Form, length: nat)
    | ShortVector(form: Form, length: nat, ext: byte, bytes: Text)
    | ShortFunction(form: Form, ref: Text, missing: nat, local: bool)
    | ShortString(form: Form, text: Text, missing: nat)
    | ShortBinary(form: Form, data: Text, missing: nat)

  predicate OddValid(x: Oddity) {
    match x
    case Unused => true
    case UnknownExt(form, length, ext) => AnyLength(form, length) && ext !in {10, 11, 20, 21, 22, 23}
    case AnyVector(form, length, ext, components) =>
      && AnyLength(form, length)
      && 20 <= ext <= 23 && |components| == Parts(ext)
      && forall i :: 0 <= i < |components| ==> components[i] < Pow256(4)
    case HugeFunction(length, _) => Huge(length)
    case HugeText(_, length) => Huge(length)
    case HugeList(length) => Huge(length)
    case HugeTable(length) => Huge(length)
    case Nothing => true
    case ShortNumber(tag, bytes) => |bytes| < NumberWidth(tag)
    case NoType(form, length) => AnyLength(form, length)
    case ShortVector(form, length, ext, bytes) =>
      AnyLength(form, length) && 20 <= ext <= 23 && |bytes| < 4 * Parts(ext)
    case ShortFunction(form, ref, missing, _) => missing > 0 && ExtFits(form, |ref| + missing)
    case ShortString(form, text, missing) => missing > 0 && Fits(form, |text| + missing, 32)
    case ShortBinary(form, data, missing) => missing > 0 && form != Fix && Fits(form, |data| + missing, 0)
  }

  /** Vector2, Vector3, Vector4 and Quaternion. */
  function Parts(ext: byte): nat { if ext == 20 then 2 else if ext == 21 then 3 else 4 }

  /** How many bytes of a number or length follow a tag. */
  function NumberWidth(tag: byte): nat {
    if tag in {0xC4, 0xC7, 0xCC, 0xD0, 0xD9} then 1
    else if tag in {0xC5, 0xC8, 0xCD, 0xD1, 0xDA, 0xDC, 0xDE} then 2
    else if tag in {0xC6, 0xC9, 0xCA, 0xCE, 0xD2, 0xDB, 0xDD, 0xDF} then 4
    else if tag in {0xCB, 0xCF, 0xD3} then 8
    else 0
  }

  /** What can only stand at the end of the data. */
  predicate CutOff(x: Oddity) {
    x.Nothing? || x.ShortNumber? || x.NoType? || x.ShortVector? || x.ShortFunction? || x.ShortString? || x.ShortBinary?
  }

  predicate AnyLength(form: Form, n: nat) {
    ExtFits(form, n) || (form == L32 && Huge(n))
  }

  predicate Huge(n: nat) { 0x8000_0000 <= n < 0x1_0000_0000 }

  function OddBytes(x: Oddity): Text
    requires OddValid(x)
  {
    match x
    case Unused => [0xC1]
    case UnknownExt(form, length, ext) => ExtHeader(form, length) + [ext]
    case AnyVector(form, length, ext, components) => ExtHeader(form, length) + ([ext] + Components(components))
    case HugeFunction(length, local) => ExtHeader(L32, length) + [if local then 11 else 10]
    case HugeText(binary, length) => [if binary then 0xC6 else 0xDB] + BigEndian(length, 4)
    case HugeList(length) => [0xDD] + BigEndian(length, 4)
    case HugeTable(length) => [0xDF] + BigEndian(length, 4)
    case Nothing => []
    case ShortNumber(tag, bytes) => [tag] + bytes
    case NoType(form, length) => ExtHeader(form, length)
    case ShortVector(form, length, ext, bytes) => ExtHeader(form, length) + ([ext] + bytes)
    case ShortFunction(form, ref, missing, local) =>
      ExtHeader(form, |ref| + missing) + ([if local then 11 else 10] + ref)
    case ShortString(form, text, missing) => StrHeader(form, |text| + missing) + text
    case ShortBinary(form, data, missing) => BinHeader(form, |data| + missing) + data
  }

  predicate NodeValid(n: Node)
    decreases n
  {
    match n
    case Leaf(w) => Valid(w) && !w.WArray? && !w.WMap?
    case Sequence(form, items) => form != L8 && Fits(form, |items|, 16) && NodesValid(items)
    case Table(form, entries) => form != L8 && Fits(form, |entries|, 16) && PairsValid(entries)
    case Odd(x) => OddValid(x)
  }

  predicate NodesValid(items: seq<Node>)
    decreases items
  {
    items == [] || (NodeValid(items[0]) && NodesValid(items[1..]))
  }

  predicate PairsValid(entries: seq<NodePair>)
    decreases entries
  {
    entries == [] || (PairValid(entries[0]) && PairsValid(entries[1..]))
  }

  predicate PairValid(p: NodePair)
    decreases p
  {
    NodeValid(p.key) && NodeValid(p.value)
  }

  function NodeBytes(n: Node): Text
    requires NodeValid(n)
    decreases n
  {
    match n
    case Leaf(w) => Encode(w)
    case Sequence(form, items) => ArrayHeader(form, |items|) + NodesBytes(items)
    case Table(form, entries) => MapHeader(form, |entries|) + PairsBytes(entries)
    case Odd(x) => OddBytes(x)
  }

  function NodesBytes(items: seq<Node>): Text
    requires NodesValid(items)
    decreases items
  {
    if items == [] then [] else NodeBytes(items[0]) + NodesBytes(items[1..])
  }

  function PairsBytes(entries: seq<NodePair>): Text
    requires PairsValid(entries)
    decreases entries
  {
    if entries == [] then [] else PairBytes(entries[0]) + PairsBytes(entries[1..])
  }

  function PairBytes(p: NodePair): Text
    requires PairValid(p)
    decreases p
  {
    NodeBytes(p.key) + NodeBytes(p.value)
  }

  // ---- The end of the data ----

  /** What is cut off in n has nothing behind it, when rest is behind n. */
  predicate Placed(n: Node, rest: Text)
    requires NodeValid(n)
    decreases n
  {
    match n
    case Leaf(_) => true
    case Sequence(_, items) => AllPlaced(items, rest)
    case Table(_, entries) => PairsPlaced(entries, rest)
    case Odd(x) => CutOff(x) ==> rest == []
  }

  predicate AllPlaced(items: seq<Node>, rest: Text)
    requires NodesValid(items)
    decreases items
  {
    items == [] || (Placed(items[0], NodesBytes(items[1..]) + rest) && AllPlaced(items[1..], rest))
  }

  predicate PairsPlaced(entries: seq<NodePair>, rest: Text)
    requires PairsValid(entries)
    decreases entries
  {
    entries == [] || (PairPlaced(entries[0], PairsBytes(entries[1..]) + rest) && PairsPlaced(entries[1..], rest))
  }

  predicate PairPlaced(p: NodePair, rest: Text)
    requires PairValid(p)
    decreases p
  {
    Placed(p.key, NodeBytes(p.value) + rest) && Placed(p.value, rest)
  }

  /** Nothing in n is cut off. */
  predicate Complete(n: Node)
    decreases n
  {
    match n
    case Leaf(_) => true
    case Sequence(_, items) => AllComplete(items)
    case Table(_, entries) => PairsComplete(entries)
    case Odd(x) => !CutOff(x)
  }

  predicate AllComplete(items: seq<Node>)
    decreases items
  {
    items == [] || (Complete(items[0]) && AllComplete(items[1..]))
  }

  predicate PairsComplete(entries: seq<NodePair>)
    decreases entries
  {
    entries == [] || (PairComplete(entries[0]) && PairsComplete(entries[1..]))
  }

  predicate PairComplete(p: NodePair)
    decreases p
  {
    Complete(p.key) && Complete(p.value)
  }

  /** Then anything may be behind it. */
  lemma {:induction false} CompletePlaced(n: Node, rest: Text)
    requires NodeValid(n) && Complete(n)
    ensures Placed(n, rest)
    decreases n
  {
    match n {
      case Sequence(_, items) => AllCompletePlaced(items, rest);
      case Table(_, entries) => PairsCompletePlaced(entries, rest);
      case _ =>
    }
  }

  lemma {:induction false} AllCompletePlaced(items: seq<Node>, rest: Text)
    requires NodesValid(items) && AllComplete(items)
    ensures AllPlaced(items, rest)
    decreases items
  {
    if items == [] {
    } else {
      CompletePlaced(items[0], NodesBytes(items[1..]) + rest);
      AllCompletePlaced(items[1..], rest);
    }
  }

  lemma {:induction false} PairsCompletePlaced(entries: seq<NodePair>, rest: Text)
    requires PairsValid(entries) && PairsComplete(entries)
    ensures PairsPlaced(entries, rest)
    decreases entries
  {
    if entries == [] {
    } else {
      PairCompletePlaced(entries[0], PairsBytes(entries[1..]) + rest);
      PairsCompletePlaced(entries[1..], rest);
    }
  }

  lemma {:induction false} PairCompletePlaced(p: NodePair, rest: Text)
    requires PairValid(p) && PairComplete(p)
    ensures PairPlaced(p, rest)
    decreases p
  {
    CompletePlaced(p.key, NodeBytes(p.value) + rest);
    CompletePlaced(p.value, rest);
  }

  // ---- The object an encoding stands for ----

  /** Numbers have the type of their encoding: Int32 when they are part of the tag, otherwise the signed or unsigned
      type of their width. */
  function LeafObject(env: Env, w: Wire): Obj
    requires !w.WArray? && !w.WMap?
  {
    match w
    case WNil => Null
    case WBool(b) => Boolean(b)
    case WFixInt(n) => Int(Int32K, n)
    case WUInt(width, n) =>
      Int(if width == 1 then ByteK else if width == 2 then UInt16K else if width == 4 then UInt32K else UInt64K, n)
    case WInt(width, n) =>
      Int(if width == 1 then SByteK else if width == 2 then Int16K else if width == 4 then Int32K else Int64K, n)
    case WFloat(width, bits) => if width == 4 then Single(bits) else Double(bits)
    case WStr(_, text) => Str(text)
    case WBin(_, data) => ByteArray(data)
    case WFunction(_, local, ref) => FuncRef(!local && env.fromNetwork, ref)
    case WVector(_, ext, components) => VectorN(ext, components)
  }

  function ObjectOf(env: Env, n: Node): Obj
    requires NodeValid(n)
    decreases n, 0
  {
    match n
    case Leaf(w) => LeafObject(env, w)
    case Sequence(_, items) => List(ObjectsOf(env, items))
    case Table(_, entries) => Expando(Filled(env, [], entries))
    case Odd(x) => OddObject(env, x)
  }

  /** A vector whatever its length is said to be, lists and tables whose content is left unread, and what there is of a
      text. The others have no object. */
  function OddObject(env: Env, x: Oddity): Obj {
    match x
    case ShortFunction(_, ref, _, local) => FuncRef(!local && env.fromNetwork, ref)
    case ShortString(_, text, _) => Str(text)
    case ShortBinary(_, data, _) => ByteArray(data)
    case AnyVector(_, _, ext, components) => VectorN(ext, components)
    case HugeList(_) => List([])
    case HugeTable(_) => Expando([])
    case _ => Null
  }

  function ObjectsOf(env: Env, items: seq<Node>): (r: seq<Obj>)
    requires NodesValid(items)
    ensures |r| == |items|
    decreases items, 0
  {
    if items == [] then [] else [ObjectOf(env, items[0])] + ObjectsOf(env, items[1..])
  }

  /** The text of a key: a string itself, anything else as its ToString. */
  function TextOf(env: Env, p: NodePair): Text
    requires PairValid(p)
    decreases p, 0
  {
    if p.key.Leaf? && p.key.w.WStr? then p.key.w.text
    else if p.key.Odd? && p.key.x.ShortString? then p.key.x.text
    else env.toStr(ObjectOf(env, p.key))
  }

  function ValueObject(env: Env, p: NodePair): Obj
    requires PairValid(p)
    decreases p, 0
  {
    ObjectOf(env, p.value)
  }

  /** The entries set one after the other. */
  function Filled(env: Env, done: seq<Entry>, entries: seq<NodePair>): seq<Entry>
    requires PairsValid(entries)
    decreases entries, 0
  {
    if entries == [] then done
    else
      Filled(env, SetKey(done, TextOf(env, entries[0]), ValueObject(env, entries[0])), entries[1..])
  }

  // ---- What the entries of a table come out as ----

  function TextsOf(env: Env, entries: seq<NodePair>): (r: seq<Text>)
    requires PairsValid(entries)
    ensures |r| == |entries|
  {
    if entries == [] then [] else [TextOf(env, entries[0])] + TextsOf(env, entries[1..])
  }

  function ValuesFor(env: Env, entries: seq<NodePair>): (r: seq<Obj>)
    requires PairsValid(entries)
    ensures |r| == |entries|
  {
    if entries == [] then [] else [ValueObject(env, entries[0])] + ValuesFor(env, entries[1..])
  }

  ghost predicate AllDifferent(texts: seq<Text>) {
    forall i, j :: 0 <= i < j < |texts| ==> texts[i] != texts[j]
  }

  function Zipped(texts: seq<Text>, values: seq<Obj>): (r: seq<Entry>)
    requires |texts| == |values|
    ensures |r| == |texts|
  {
    if texts == [] then [] else [Entry(texts[0], values[0])] + Zipped(texts[1..], values[1..])
  }

  /** Each text once, where it came first, with the value that came last. */
  ghost predicate Collects(done: seq<Entry>, texts: seq<Text>, values: seq<Obj>)
    requires |texts| == |values|
  {
    && (forall a, b :: 0 <= a < b < |done| ==> done[a].key != done[b].key)
    && (forall i :: 0 <= i < |texts| ==> HasKey(done, texts[i]))
    && (forall a :: 0 <= a < |done| ==> LastValue(done[a], texts, values))
    && (forall a, b :: 0 <= a < b < |done| ==> ComesFirst(texts, done[a].key, done[b].key))
  }

  ghost predicate HasKey(done: seq<Entry>, text: Text) {
    exists a :: 0 <= a < |done| && done[a].key == text
  }

  /** The entry holds the value of the last of the texts that are its key. */
  ghost predicate LastValue(e: Entry, texts: seq<Text>, values: seq<Obj>)
    requires |texts| == |values|
  {
    exists i :: 0 <= i < |texts| && texts[i] == e.key && values[i] == e.value
             && forall j :: i < j < |texts| ==> texts[j] != e.key
  }

  /** One text comes up before the other does. */
  ghost predicate ComesFirst(texts: seq<Text>, x: Text, y: Text) {
    exists i :: 0 <= i < |texts| && texts[i] == x && forall j :: 0 <= j <= i ==> texts[j] != y
  }

  // ---- What goes wrong ----

  function OddFault(x: Oddity): Option<Exception> {
    match x
    case Unused => Some(InvalidOperation)
    case UnknownExt(_, _, _) => Some(InvalidOperation)
    case HugeFunction(_, _) => Some(ArgumentOutOfRange)
    case HugeText(_, _) => Some(ArgumentOutOfRange)
    case Nothing => Some(EndOfStream)
    case ShortNumber(tag, _) => Some(if NumberWidth(tag) == 1 then EndOfStream else IndexOutOfRange)
    case NoType(_, _) => Some(EndOfStream)
    case ShortVector(_, _, _, _) => Some(EndOfStream)
    case _ => None
  }

  /** The exception of the first part, in the order of the bytes, that causes one. */
  function Fault(n: Node): Option<Exception>
    decreases n
  {
    match n
    case Leaf(_) => None
    case Sequence(_, items) => FaultInside(items)
    case Table(_, entries) => FaultAmong(entries)
    case Odd(x) => OddFault(x)
  }

  function FaultInside(items: seq<Node>): Option<Exception>
    decreases items
  {
    if items == [] then None else if Fault(items[0]).Some? then Fault(items[0]) else FaultInside(items[1..])
  }

  function FaultAmong(entries: seq<NodePair>): Option<Exception>
    decreases entries
  {
    if entries == [] then None else if FaultIn(entries[0]).Some? then FaultIn(entries[0]) else FaultAmong(entries[1..])
  }

  /** Nil has no text, which shows before the value is read. */
  function FaultIn(p: NodePair): Option<Exception>
    decreases p
  {
    if p.key == Leaf(WNil) then Some(NullReference) else if Fault(p.key).Some? then Fault(p.key) else Fault(p.value)
  }

  function Outcome(fault: Option<Exception>, o: Obj, rest: Text): Result<Obj> {
    if fault.Some? then Throws(fault.value) else Ok(o, rest)
  }

  // ---- Decoding ----

  lemma NumberObject(env: Env, w: Wire, rest: Text)
    requires Valid(w) && (w.WFixInt? || w.WUInt? || w.WInt?)
    ensures UnpackAny(env, Encode(w) + rest) == Ok(LeafObject(env, w), rest)
  {
    hide UnpackAny, UnpackExt, UnpackLongExt, UnpackText, UnpackLongText, ReadNumber, BigEndian, Pow256, Signed,
      Unsigned;
    match w {
      case WFixInt(n) => LeafTag(env, if n < 0 then n + 256 else n, rest);
      case WUInt(width, n) =>
        var body := BigEndian(n, width) + rest;
        assert Encode(w) + rest == [WidthTag(0xCC, width)] + body;
        WidthTagReads(0xCC, width);
        LeafTag(env, WidthTag(0xCC, width), body);
        NumberReads(n, width, rest);
      case WInt(width, n) =>
        SignedUnsigned(n, width);
        var body := BigEndian(Unsigned(n, width), width) + rest;
        assert Encode(w) + rest == [WidthTag(0xD0, width)] + body;
        WidthTagReads(0xD0, width);
        LeafTag(env, WidthTag(0xD0, width), body);
        NumberReads(Unsigned(n, width), width, rest);
    }
  }

  lemma LeafDecodes(env: Env, w: Wire, rest: Text)
    requires Valid(w) && !w.WArray? && !w.WMap?
    ensures UnpackAny(env, Encode(w) + rest) == Ok(LeafObject(env, w), rest)
  {
    if w.WFixInt? || w.WUInt? || w.WInt? {
      NumberObject(env, w, rest);
    } else {
      UnpackEncoded(env, w, rest);
      hide UnpackAny, Encode, Valid;
    }
  }

  /** An extension header with any length, also one that is no int. */
  lemma AnyLengthReads(env: Env, form: Form, n: nat, body: Text)
    requires AnyLength(form, n)
    ensures UnpackAny(env, ExtHeader(form, n) + body)
         == UnpackExt(env, body, if Huge(n) then n - 0x1_0000_0000 else n)
  {
    if Huge(n) {
      assert Pow256(4) == 0x1_0000_0000;
      hide UnpackAny, UnpackExt, ReadNumber, BigEndian;
      NumberReads(n, 4, body);
      Regroup([0xC9], BigEndian(n, 4), body);
      LeafTag(env, 0xC9, BigEndian(n, 4) + body);
    } else {
      ExtHeaderReads(env, form, n, body);
    }
  }

  lemma OddDecodes(env: Env, x: Oddity, rest: Text)
    requires OddValid(x) && (CutOff(x) ==> rest == [])
    ensures UnpackAny(env, OddBytes(x) + rest) == Outcome(OddFault(x), OddObject(env, x), rest)
  {
    hide UnpackAny, ReadComponents, Components, ExtHeader, Pow256, BigEndian, StrHeader, BinHeader, NumberWidth;
    if CutOff(x) {
      assert OddBytes(x) + rest == OddBytes(x);
      CutOffDecodes(env, x);
    } else {
      match x {
        case Unused => LeafTag(env, 0xC1, rest);
        case UnknownExt(form, length, ext) =>
          Regroup(ExtHeader(form, length), [ext], rest);
          AnyLengthReads(env, form, length, [ext] + rest);
        case AnyVector(form, length, ext, cs) =>
          var body := [ext] + (Components(cs) + rest);
          assert OddBytes(x) + rest == ExtHeader(form, length) + body;
          AnyLengthReads(env, form, length, body);
          assert body[1..] == Components(cs) + rest;
          ComponentsRead(cs, rest);
        case HugeFunction(length, local) =>
          var tag: Text := [if local then 11 else 10];
          Regroup(ExtHeader(L32, length), tag, rest);
          AnyLengthReads(env, L32, length, tag + rest);
        case HugeText(binary, length) =>
          Regroup([if binary then 0xC6 else 0xDB], BigEndian(length, 4), rest);
          HugeLengths(env, length, rest);
        case HugeList(length) =>
          Regroup([0xDD], BigEndian(length, 4), rest);
          HugeLengths(env, length, rest);
        case HugeTable(length) =>
          Regroup([0xDF], BigEndian(length, 4), rest);
          HugeLengths(env, length, rest);
      }
    }
  }

  lemma CutOffDecodes(env: Env, x: Oddity)
    requires OddValid(x) && CutOff(x)
    ensures UnpackAny(env, OddBytes(x)) == Outcome(OddFault(x), OddObject(env, x), [])
  {
    if x == Nothing {
    } else if x.NoType? || x.ShortVector? || x.ShortFunction? {
      CutOffExt(env, x);
    } else {
      hide UnpackAny, StrHeader, BinHeader, ReadBytes, NumberWidth, UnpackExt;
      match x {
        case ShortNumber(tag, bytes) => ShortNumberThrows(env, tag, bytes);
        case ShortString(form, text, missing) =>
          StrHeaderReads(env, form, |text| + missing, text);
          ShortText(text, |text| + missing, false);
        case ShortBinary(form, data, missing) =>
          BinHeaderReads(env, form, |data| + missing, data);
          ShortText(data, |data| + missing, true);
      }
    }
  }

  lemma ShortText(text: Text, n: nat, binary: bool)
    requires |text| < n
    ensures UnpackText(text, n, binary) == Ok(if binary then ByteArray(text) else Str(text), [])
  {
  }

  lemma CutOffExt(env: Env, x: Oddity)
    requires OddValid(x) && (x.NoType? || x.ShortVector? || x.ShortFunction?)
    ensures UnpackAny(env, OddBytes(x)) == Outcome(OddFault(x), OddObject(env, x), [])
  {
    hide UnpackAny, ExtHeader, AnyLength, ReadComponents, ExtFits;
    match x {
      case NoType(form, length) =>
        assert ExtHeader(form, length) + [] == ExtHeader(form, length);
        AnyLengthReads(env, form, length, []);
      case ShortVector(form, length, ext, bytes) =>
        AnyLengthReads(env, form, length, [ext] + bytes);
        ShortComponents(bytes, Parts(ext));
        assert ([ext] + bytes)[1..] == bytes;
      case ShortFunction(form, ref, missing, local) =>
        var body: Text := [if local then 11 else 10] + ref;
        ExtHeaderReads(env, form, |ref| + missing, body);
        assert body[1..] == ref;
    }
  }

  lemma {:induction false} ShortComponents(s: Text, n: nat)
    requires |s| < 4 * n
    ensures ReadComponents(s, n) == Throws(EndOfStream)
  {
    if |s| < 4 {
    } else {
      ShortComponents(s[4..], n - 1);
    }
  }

  lemma ShortNumberThrows(env: Env, tag: byte, bytes: Text)
    requires |bytes| < NumberWidth(tag)
    ensures UnpackAny(env, [tag] + bytes)
         == Throws(if NumberWidth(tag) == 1 then EndOfStream else IndexOutOfRange)
  {
    assert ([tag] + bytes)[1..] == bytes;
    hide UnpackMap, UnpackArray, UnpackExt, UnpackText;
    if IsMapTag(tag) || IsArrayTag(tag) {
    } else {
      LeafTag(env, tag, bytes);
      hide UnpackAny;
    }
  }

  lemma {:induction false} NodeDecodes(env: Env, n: Node, rest: Text)
    requires NodeValid(n) && Placed(n, rest)
    ensures UnpackAny(env, NodeBytes(n) + rest)
         == Outcome(Fault(n), ObjectOf(env, n), rest)
    decreases n, 0
  {
    hide UnpackAny, UnpackArray, UnpackMap, Encode, LeafObject, ArrayHeader, MapHeader;
    match n {
      case Leaf(w) => LeafDecodes(env, w, rest);
      case Sequence(form, items) =>
        Regroup(ArrayHeader(form, |items|), NodesBytes(items), rest);
        ArrayHeaderReads(env, form, |items|, NodesBytes(items) + rest);
        NodesDecode(env, items, [], rest);
        assert [] + ObjectsOf(env, items) == ObjectsOf(env, items);
      case Table(form, entries) =>
        Regroup(MapHeader(form, |entries|), PairsBytes(entries), rest);
        MapHeaderReads(env, form, |entries|, PairsBytes(entries) + rest);
        PairsDecode(env, entries, [], rest);
      case Odd(x) => OddDecodes(env, x, rest);
    }
  }

  lemma {:induction false} NodesDecode(env: Env, items: seq<Node>, done: seq<Obj>, rest: Text)
    requires NodesValid(items) && AllPlaced(items, rest)
    ensures UnpackArray(env, NodesBytes(items) + rest, |items|, done)
         == Outcome(FaultInside(items), List(done + ObjectsOf(env, items)), rest)
    decreases items, 1
  {
    if items == [] {
      assert NodesBytes(items) + rest == rest && done + [] == done;
    } else {
      var first, more := NodeBytes(items[0]), NodesBytes(items[1..]);
      Regroup(first, more, rest);
      hide UnpackAny, NodeBytes, ObjectOf, Fault, NodeValid, Placed;
      NodeDecodes(env, items[0], more + rest);
      if Fault(items[0]).None? {
        var o := ObjectOf(env, items[0]);
        NodesDecode(env, items[1..], done + [o], rest);
        Regroup(done, [o], ObjectsOf(env, items[1..]));
      }
    }
  }

  lemma {:induction false} PairsDecode(env: Env, entries: seq<NodePair>, done: seq<Entry>, rest: Text)
    requires PairsValid(entries) && PairsPlaced(entries, rest)
    ensures UnpackMap(env, PairsBytes(entries) + rest, |entries|, done)
         == Outcome(FaultAmong(entries), Expando(Filled(env, done, entries)), rest)
    decreases entries, 1
  {
    if entries == [] {
      assert PairsBytes(entries) + rest == rest;
    } else {
      Regroup(PairBytes(entries[0]), PairsBytes(entries[1..]), rest);
      PairDecodes(env, entries[0], PairsBytes(entries[1..]) + rest, |entries|, done);
      hide UnpackAny, UnpackMap, PairBytes, TextOf, ValueObject, FaultIn, PairValid;
      if FaultIn(entries[0]).None? {
        PairsDecode(env, entries[1..], SetKey(done, TextOf(env, entries[0]), ValueObject(env, entries[0])), rest);
      }
    }
  }

  /** One entry and the rest of the loop. */
  lemma {:induction false} PairDecodes(env: Env, p: NodePair, rest: Text, n: nat, done: seq<Entry>)
    requires PairValid(p) && PairPlaced(p, rest) && n > 0
    ensures UnpackMap(env, PairBytes(p) + rest, n, done) ==
      if FaultIn(p).Some? then Throws(FaultIn(p).value)
      else UnpackMap(env, rest, n - 1, SetKey(done, TextOf(env, p), ValueObject(env, p)))
    decreases p, 0
  {
    var key, value := NodeBytes(p.key), NodeBytes(p.value);
    Regroup(key, value, rest);
    NodeDecodes(env, p.key, value + rest);
    NodeDecodes(env, p.value, rest);
    PairRuns(env, p, key + (value + rest), value + rest, rest, n, done);
  }

  /** One turn of the loop over the entries. */
  lemma PairRuns(env: Env, p: NodePair, s: Text, afterKey: Text, rest: Text, n: nat, done: seq<Entry>)
    requires PairValid(p) && n > 0
    requires UnpackAny(env, s) == Outcome(Fault(p.key), ObjectOf(env, p.key), afterKey)
    requires UnpackAny(env, afterKey) == Outcome(Fault(p.value), ObjectOf(env, p.value), rest)
    ensures UnpackMap(env, s, n, done) ==
      if FaultIn(p).Some? then Throws(FaultIn(p).value)
      else UnpackMap(env, rest, n - 1, SetKey(done, TextOf(env, p), ValueObject(env, p)))
  {
    if Fault(p.key).None? {
      KeyIsText(env, p);
    }
    hide UnpackAny, ObjectOf, NodeValid;
  }

  lemma KeyIsText(env: Env, p: NodePair)
    requires PairValid(p) && Fault(p.key).None?
    ensures ObjectOf(env, p.key) == Null <==> p.key == Leaf(WNil)
    ensures p.key != Leaf(WNil) ==> KeyText(env, ObjectOf(env, p.key)) == TextOf(env, p)
  {
  }

  // ---- What setting the entries one by one comes to ----

  /** r is done with the value at a replaced. */
  ghost predicate ReplacedAt(done: seq<Entry>, r: seq<Entry>, a: nat, key: Text, value: Obj) {
    && a < |done| == |r| && done[a].key == key && r[a] == Entry(key, value)
    && forall b :: 0 <= b < |done| && b != a ==> r[b] == done[b]
  }

  /** An existing key keeps its place and gets the new value; a new one goes to the end. */
  lemma {:induction false} SetKeyMeans(done: seq<Entry>, key: Text, value: Obj) returns (a: nat)
    ensures var r := SetKey(done, key, value);
      if HasKey(done, key) then ReplacedAt(done, r, a, key, value) else r == done + [Entry(key, value)]
    decreases |done|
  {
    a := 0;
    if done == [] {
    } else if done[0].key == key {
      assert HasKey(done, key);
    } else {
      HasKeyLater(done, key);
      var b := SetKeyMeans(done[1..], key, value);
      a := b + 1;
      hide HasKey;
      assert done == [done[0]] + done[1..];
    }
  }

  lemma HasKeyLater(done: seq<Entry>, key: Text)
    requires done != [] && done[0].key != key
    ensures HasKey(done, key) <==> HasKey(done[1..], key)
  {
    if HasKey(done, key) {
      var c :| 0 <= c < |done| && done[c].key == key;
      assert done[1..][c - 1] == done[c];
    }
    if HasKey(done[1..], key) {
      var c :| 0 <= c < |done[1..]| && done[1..][c].key == key;
      assert done[c + 1].key == key;
    }
  }

  lemma HasKeyStays(done: seq<Entry>, r: seq<Entry>, key: Text)
    requires HasKey(done, key) && |done| <= |r| && forall b :: 0 <= b < |done| ==> r[b].key == done[b].key
    ensures HasKey(r, key)
  {
    var b :| 0 <= b < |done| && done[b].key == key;
    assert r[b].key == key;
  }

  lemma LastStays(e: Entry, texts: seq<Text>, values: seq<Obj>, key: Text, value: Obj)
    requires |texts| == |values| && LastValue(e, texts, values) && e.key != key
    ensures LastValue(e, texts + [key], values + [value])
  {
    var i :| 0 <= i < |texts| && texts[i] == e.key && values[i] == e.value
      && forall j :: i < j < |texts| ==> texts[j] != e.key;
    assert (texts + [key])[i] == e.key && (values + [value])[i] == e.value;
  }

  lemma LastNew(texts: seq<Text>, values: seq<Obj>, key: Text, value: Obj)
    requires |texts| == |values|
    ensures LastValue(Entry(key, value), texts + [key], values + [value])
  {
    assert (texts + [key])[|texts|] == key && (values + [value])[|texts|] == value;
  }

  lemma FirstStays(texts: seq<Text>, x: Text, y: Text, key: Text)
    requires ComesFirst(texts, x, y)
    ensures ComesFirst(texts + [key], x, y)
  {
    var i :| 0 <= i < |texts| && texts[i] == x && forall j :: 0 <= j <= i ==> texts[j] != y;
    assert (texts + [key])[i] == x;
  }

  lemma FirstNew(texts: seq<Text>, x: Text, key: Text)
    requires x in texts && key !in texts
    ensures ComesFirst(texts + [key], x, key)
  {
    var i :| 0 <= i < |texts| && texts[i] == x;
    assert (texts + [key])[i] == x;
  }

  /** A key that is there already. */
  lemma ReplacedCollects(done: seq<Entry>, r: seq<Entry>, texts: seq<Text>, values: seq<Obj>, a: nat, key: Text,
                         value: Obj)
    requires |texts| == |values| && Collects(done, texts, values) && ReplacedAt(done, r, a, key, value)
    ensures Collects(r, texts + [key], values + [value])
  {
    var ts := texts + [key];
    assert forall b :: 0 <= b < |done| ==> r[b].key == done[b].key;
    assert HasKey(r, key);
    hide HasKey, LastValue, ComesFirst;
    forall i | 0 <= i < |ts| ensures HasKey(r, ts[i]) {
      if i < |texts| {
        HasKeyStays(done, r, texts[i]);
      }
    }
    forall b | 0 <= b < |r| ensures LastValue(r[b], ts, values + [value]) {
      if b == a {
        LastNew(texts, values, key, value);
      } else {
        LastStays(done[b], texts, values, key, value);
      }
    }
    forall b, c | 0 <= b < c < |r| ensures ComesFirst(ts, r[b].key, r[c].key) {
      FirstStays(texts, done[b].key, done[c].key, key);
    }
  }

  /** A new key. */
  lemma AppendedCollects(done: seq<Entry>, texts: seq<Text>, values: seq<Obj>, key: Text, value: Obj)
    requires |texts| == |values| && Collects(done, texts, values) && !HasKey(done, key)
    ensures Collects(done + [Entry(key, value)], texts + [key], values + [value])
  {
    var r, ts := done + [Entry(key, value)], texts + [key];
    assert r[|done|].key == key;
    forall i | 0 <= i < |ts| ensures HasKey(r, ts[i]) {
      if i < |texts| {
        HasKeyStays(done, r, texts[i]);
      }
    }
    assert forall i :: 0 <= i < |texts| ==> HasKey(done, texts[i]);
    assert key !in texts;
    assert forall b :: 0 <= b < |done| ==> LastValue(done[b], texts, values) && done[b].key in texts;
    hide LastValue, ComesFirst;
    forall b | 0 <= b < |r| ensures LastValue(r[b], ts, values + [value]) {
      if b == |done| {
        LastNew(texts, values, key, value);
      } else {
        LastStays(done[b], texts, values, key, value);
      }
    }
    forall b, c | 0 <= b < c < |r| ensures ComesFirst(ts, r[b].key, r[c].key) {
      if c == |done| {
        FirstNew(texts, done[b].key, key);
      } else {
        FirstStays(texts, done[b].key, done[c].key, key);
      }
    }
  }

  lemma SetCollects(done: seq<Entry>, texts: seq<Text>, values: seq<Obj>, key: Text, value: Obj)
    requires |texts| == |values| && Collects(done, texts, values)
    ensures Collects(SetKey(done, key, value), texts + [key], values + [value])
  {
    var a := SetKeyMeans(done, key, value);
    hide Collects, SetKey, ReplacedAt;
    if HasKey(done, key) {
      ReplacedCollects(done, SetKey(done, key, value), texts, values, a, key, value);
    } else {
      AppendedCollects(done, texts, values, key, value);
    }
  }

  lemma {:induction false} FilledCollects(env: Env, done: seq<Entry>, texts: seq<Text>, values: seq<Obj>,
                                          entries: seq<NodePair>)
    requires PairsValid(entries) && |texts| == |values| && Collects(done, texts, values)
    ensures Collects(Filled(env, done, entries), texts + TextsOf(env, entries), values + ValuesFor(env, entries))
    decreases |entries|
  {
    if entries == [] {
      assert texts + [] == texts && values + [] == values;
    } else {
      var key, value := TextOf(env, entries[0]), ValueObject(env, entries[0]);
      SetCollects(done, texts, values, key, value);
      hide Collects, TextOf, ValueObject, SetKey;
      FilledCollects(env, SetKey(done, key, value), texts + [key], values + [value], entries[1..]);
      Regroup(texts, [key], TextsOf(env, entries[1..]));
      Regroup(values, [value], ValuesFor(env, entries[1..]));
    }
  }

  lemma {:induction false} FilledApart(env: Env, done: seq<Entry>, entries: seq<NodePair>)
    requires PairsValid(entries) && AllDifferent(TextsOf(env, entries))
    requires forall i, j :: 0 <= i < |done| && 0 <= j < |entries| ==> done[i].key != TextsOf(env, entries)[j]
    ensures Filled(env, done, entries) == done + Zipped(TextsOf(env, entries), ValuesFor(env, entries))
    decreases |entries|
  {
    if entries == [] {
      assert done + [] == done;
    } else {
      var key, value, texts := TextOf(env, entries[0]), ValueObject(env, entries[0]), TextsOf(env, entries);
      var rest := TextsOf(env, entries[1..]);
      assert texts[0] == key && texts[1..] == rest;
      SetNewKey(done, key, value);
      var done' := done + [Entry(key, value)];
      forall i, j | 0 <= i < |done'| && 0 <= j < |entries[1..]| ensures done'[i].key != rest[j] {
        assert rest[j] == texts[j + 1];
      }
      forall i, j | 0 <= i < j < |rest| ensures rest[i] != rest[j] {
        assert rest[i] == texts[i + 1] && rest[j] == texts[j + 1];
      }
      FilledApart(env, done', entries[1..]);
      Regroup(done, [Entry(key, value)], Zipped(rest, ValuesFor(env, entries[1..])));
    }
  }

  // ---- The theorems ----

  /** Every encoding, tables with keys of any type and oddities at any depth included, decodes to exactly one object and
      leaves exactly what follows, unless some part causes an exception; then the decoder throws the first of these. */
  lemma AnyDecodes(env: Env, n: Node, rest: Text)
    requires NodeValid(n) && Complete(n)
    ensures UnpackAny(env, NodeBytes(n) + rest)
         == Outcome(Fault(n), ObjectOf(env, n), rest)
  {
    CompletePlaced(n, rest);
    NodeDecodes(env, n, rest);
  }

  /** The entries of a table: each key text once, in the place where it came first, with the value that came last; and
      just the texts with their values, in order, when the texts are all different. */
  lemma TableEntries(env: Env, entries: seq<NodePair>)
    requires PairsValid(entries)
    ensures var r, texts, values := Filled(env, [], entries), TextsOf(env, entries), ValuesFor(env, entries);
      Collects(r, texts, values) && (AllDifferent(texts) ==> r == Zipped(texts, values))
  {
    assert Collects([], [], []);
    FilledCollects(env, [], [], [], entries);
    var texts, values := TextsOf(env, entries), ValuesFor(env, entries);
    assert [] + texts == texts && [] + values == values;
    if AllDifferent(texts) {
      FilledApart(env, [], entries);
    }
  }
}
