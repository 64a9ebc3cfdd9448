/** MsgPackSerializer.Serialize: the recursive walk over an object, with the packer's leaf encodings taken
    from the specification: always the shortest one. */
module MsgPackSerializer {
  import opened LittleEndian
  import opened MsgPackFormat
  import D = MsgPackDecoder
  import opened Sequences

  /** The objects the walk distinguishes. Keys of dictionaries are strings. */
  datatype Net =
    | NNull
    | NBool(b: bool)
    | NInteger(n: int)
    | NFloat(width: nat, bits: nat)
    | NString(text: Text)
    | NBytes(data: Text)
    | NDictionary(entries: seq<NEntry>)
    | NList(items: seq<Net>)
    | NDelegate(ref: Text)
    | NVector(ext: nat, components: seq<nat>)

  datatype NEntry = NEntry(key: Text, value: Net)

  const MAX_LENGTH: nat := 0x8000_0000

  /** What .NET can hold: 64-bit numbers, lengths below 2^31, dictionaries with distinct keys. */
  predicate Serializable(o: Net) {
    match o
    case NNull => true
    case NBool(_) => true
    case NInteger(n) => -0x8000_0000_0000_0000 <= n < 0x1_0000_0000_0000_0000
    case NFloat(width, bits) => (width == 4 || width == 8) && bits < Pow256(width)
    case NString(text) => |text| < MAX_LENGTH
    case NBytes(data) => |data| < MAX_LENGTH
    case NDictionary(entries) =>
      && |entries| < MAX_LENGTH
      && (forall i, j :: 0 <= i < j < |entries| ==> entries[i].key != entries[j].key)
      && forall i :: 0 <= i < |entries| ==> SerializableEntry(entries[i])
    case NList(items) => |items| < MAX_LENGTH && forall i :: 0 <= i < |items| ==> Serializable(items[i])
    case NDelegate(ref) => |ref| < MAX_LENGTH
    case NVector(ext, components) =>
      IsVectorExt(ext) && |components| == ComponentCount(ext) && forall i :: 0 <= i < |components| ==>
        components[i] < Pow256(4)
  }

  predicate SerializableEntry(e: NEntry) {
    |e.key| < MAX_LENGTH && Serializable(e.value)
  }

  /** The value an object stands for. */
  function Meaning(o: Net): Value {
    match o
    case NNull => Nil
    case NBool(b) => Bool(b)
    case NInteger(n) => Integer(n)
    case NFloat(width, bits) => if width == 4 then Float32(bits) else Float64(bits)
    case NString(text) => String(text)
    case NBytes(data) => Binary(data)
    case NDictionary(entries) => Map(MeaningPairs(entries))
    case NList(items) => Array(Meanings(items))
    case NDelegate(ref) => Function(false, ref)
    case NVector(ext, components) => Vector(ext, components)
  }

  function Meanings(items: seq<Net>): seq<Value> {
    if items == [] then [] else [Meaning(items[0])] + Meanings(items[1..])
  }

  function MeaningPairs(entries: seq<NEntry>): seq<Pair> {
    if entries == [] then [] else [Pair(entries[0].key, Meaning(entries[0].value))] + MeaningPairs(entries[1..])
  }

  // ---- The encodings the packer picks ----

  function IntegerWire(n: int): Wire {
    if -32 <= n < 128 then WFixInt(n)
    else if n >= 0 then
      WUInt(if n < 0x100 then 1 else if n < 0x1_0000 then 2 else if n < 0x1_0000_0000 then 4 else 8, n)
    else
      WInt(if n >= -0x80 then 1 else if n >= -0x8000 then 2 else if n >= -0x8000_0000 then 4 else 8, n)
  }

  function LongForm(n: nat): Form { if n < 0x100 then L8 else if n < 0x1_0000 then L16 else L32 }

  function StringForm(n: nat): Form { if n < 32 then Fix else LongForm(n) }

  function CountForm(n: nat): Form { if n < 16 then Fix else if n < 0x1_0000 then L16 else L32 }

  function ExtForm(n: nat): Form {
    if n == 1 || n == 2 || n == 4 || n == 8 || n == 16 then Fix else LongForm(n)
  }

  function WireOf(o: Net): Wire {
    match o
    case NNull => WNil
    case NBool(b) => WBool(b)
    case NInteger(n) => IntegerWire(n)
    case NFloat(width, bits) => WFloat(width, bits)
    case NString(text) => WStr(StringForm(|text|), text)
    case NBytes(data) => WBin(LongForm(|data|), data)
    case NDictionary(entries) => WMap(CountForm(|entries|), WirePairs(entries))
    case NList(items) => WArray(CountForm(|items|), Wires(items))
    case NDelegate(ref) => WFunction(ExtForm(|ref|), false, ref)
    case NVector(ext, components) => WVector(ExtForm(4 * |components|), ext, components)
  }

  function Wires(items: seq<Net>): (r: seq<Wire>)
    ensures |r| == |items|
  {
    if items == [] then [] else [WireOf(items[0])] + Wires(items[1..])
  }

  function WirePair(e: NEntry): WPair {
    WPair(StringForm(|e.key|), e.key, WireOf(e.value))
  }

  function WirePairs(entries: seq<NEntry>): (r: seq<WPair>)
    ensures |r| == |entries|
    ensures forall i :: 0 <= i < |entries| ==> r[i].key == entries[i].key
  {
    if entries == [] then [] else [WirePair(entries[0])] + WirePairs(entries[1..])
  }

  lemma IntegerValid(n: int)
    requires -0x8000_0000_0000_0000 <= n < 0x1_0000_0000_0000_0000
    ensures Valid(IntegerWire(n)) && ValueOf(IntegerWire(n)) == Integer(n)
  {
    assert Pow256(1) == 0x100 && Pow256(2) == 0x1_0000 && Pow256(4) == 0x1_0000_0000;
    assert Pow256(8) == 0x1_0000_0000_0000_0000;
  }

  lemma LeafValid(o: Net)
    requires Serializable(o) && !o.NDictionary? && !o.NList?
    ensures Valid(WireOf(o)) && ValueOf(WireOf(o)) == Meaning(o)
  {
    hide AllValid, AllPairsValid, DistinctKeys, ValuesOf, PairsOf, Wires, WirePairs, Meanings, MeaningPairs;
    match o {
      case NInteger(n) =>
        IntegerValid(n);
        hide IntegerWire;
      case _ =>
    }
  }

  /** The shortest encoding is a legal one, and encodes the object's value. */
  lemma {:induction false} WireValid(o: Net)
    requires Serializable(o)
    ensures Valid(WireOf(o)) && ValueOf(WireOf(o)) == Meaning(o)
    decreases o, 0
  {
    match o {
      case NDictionary(entries) =>
        WirePairsValid(entries);
        hide AllPairsValid, SerializableEntry, PairsOf, MeaningPairs;
      case NList(items) =>
        WiresValid(items);
        hide AllValid, ValuesOf, Meanings;
      case _ => LeafValid(o);
    }
  }

  lemma {:induction false} WiresValid(items: seq<Net>)
    requires forall i :: 0 <= i < |items| ==> Serializable(items[i])
    ensures AllValid(Wires(items)) && ValuesOf(Wires(items)) == Meanings(items)
    decreases items, 1
  {
    if items == [] {
    } else {
      WireValid(items[0]);
      WiresValid(items[1..]);
      assert Wires(items)[1..] == Wires(items[1..]);
    }
  }

  lemma {:induction false} WirePairsValid(entries: seq<NEntry>)
    requires forall i :: 0 <= i < |entries| ==> SerializableEntry(entries[i])
    ensures AllPairsValid(WirePairs(entries)) && PairsOf(WirePairs(entries)) == MeaningPairs(entries)
    decreases entries, 1
  {
    if entries == [] {
    } else {
      assert SerializableEntry(entries[0]);
      WireValid(entries[0].value);
      WirePairsValid(entries[1..]);
      assert WirePairs(entries)[1..] == WirePairs(entries[1..]);
      assert ValidPair(WirePair(entries[0]));
    }
  }

  // ---- The packer and the walk ----

  class Packer {
    var stream: Text

    constructor ()
      ensures stream == []
    {
      stream := [];
    }

    method Pack(w: Wire)
      requires Valid(w) && !w.WArray? && !w.WMap?
      modifies this
      ensures stream == old(stream) + Encode(w)
    {
      stream := stream + Encode(w);
    }

    method PackArrayHeader(n: nat)
      requires n < MAX_LENGTH
      modifies this
      ensures stream == old(stream) + ArrayHeader(CountForm(n), n)
    {
      stream := stream + ArrayHeader(CountForm(n), n);
    }

    method PackMapHeader(n: nat)
      requires n < MAX_LENGTH
      modifies this
      ensures stream == old(stream) + MapHeader(CountForm(n), n)
    {
      stream := stream + MapHeader(CountForm(n), n);
    }
  }

  lemma {:induction false} EncodeAllAppend(items: seq<Wire>, w: Wire)
    requires AllValid(items) && Valid(w)
    ensures AllValid(items + [w])
    ensures EncodeAll(items + [w]) == EncodeAll(items) + Encode(w)
  {
    hide Encode, Valid;
    assert forall i :: 0 <= i < |items| ==> (items + [w])[i] == items[i];
    if items == [] {
      assert ([] + [w])[1..] == [];
    } else {
      assert (items + [w])[1..] == items[1..] + [w];
      EncodeAllAppend(items[1..], w);
    }
  }

  lemma {:induction false} EncodePairsAppend(entries: seq<WPair>, e: WPair)
    requires AllPairsValid(entries) && ValidPair(e)
    ensures AllPairsValid(entries + [e])
    ensures EncodePairs(entries + [e]) == EncodePairs(entries) + EncodePair(e)
  {
    hide EncodePair, ValidPair;
    assert forall i :: 0 <= i < |entries| ==> (entries + [e])[i] == entries[i];
    if entries == [] {
      assert ([] + [e])[1..] == [];
    } else {
      assert (entries + [e])[1..] == entries[1..] + [e];
      EncodePairsAppend(entries[1..], e);
    }
  }

  lemma {:induction false} WiresPrefix(items: seq<Net>, i: nat)
    requires i < |items|
    ensures Wires(items[..i + 1]) == Wires(items[..i]) + [WireOf(items[i])]
  {
    if i > 0 {
      assert items[..i + 1][1..] == items[1..][..i] && items[..i][1..] == items[1..][..i - 1];
      WiresPrefix(items[1..], i - 1);
    } else {
      assert items[..1][1..] == [];
    }
  }

  lemma {:induction false} WirePairsPrefix(entries: seq<NEntry>, i: nat)
    requires i < |entries|
    ensures WirePairs(entries[..i + 1]) == WirePairs(entries[..i]) + [WirePair(entries[i])]
  {
    if i > 0 {
      assert entries[..i + 1][1..] == entries[1..][..i] && entries[..i][1..] == entries[1..][..i - 1];
      WirePairsPrefix(entries[1..], i - 1);
    } else {
      assert entries[..1][1..] == [];
    }
  }

  lemma ListStep(items: seq<Net>, i: nat)
    requires i < |items| && forall j :: 0 <= j < |items| ==> Serializable(items[j])
    ensures Valid(WireOf(items[i]))
    ensures AllValid(Wires(items[..i])) && AllValid(Wires(items[..i + 1]))
    ensures EncodeAll(Wires(items[..i + 1])) == EncodeAll(Wires(items[..i])) + Encode(WireOf(items[i]))
  {
    WireValid(items[i]);
    WiresValid(items[..i]);
    WiresPrefix(items, i);
    EncodeAllAppend(Wires(items[..i]), WireOf(items[i]));
  }

  lemma EntryStep(entries: seq<NEntry>, i: nat)
    requires i < |entries| && forall j :: 0 <= j < |entries| ==> SerializableEntry(entries[j])
    ensures ValidPair(WirePair(entries[i]))
    ensures AllPairsValid(WirePairs(entries[..i])) && AllPairsValid(WirePairs(entries[..i + 1]))
    ensures EncodePairs(WirePairs(entries[..i + 1]))
      == EncodePairs(WirePairs(entries[..i])) + EncodePair(WirePair(entries[i]))
  {
    assert SerializableEntry(entries[i]);
    WireValid(entries[i].value);
    WirePairsValid(entries[..i]);
    WirePairsPrefix(entries, i);
    EncodePairsAppend(WirePairs(entries[..i]), WirePair(entries[i]));
  }

  method Serialize(obj: Net, packer: Packer)
    requires Serializable(obj)
    modifies packer
    ensures Valid(WireOf(obj)) && packer.stream == old(packer.stream) + Encode(WireOf(obj))
    decreases obj, 0
  {
    WireValid(obj);
    match obj {
      case NDictionary(entries) => SerializeEntries(entries, packer);
      case NList(items) => SerializeItems(items, packer);
      case _ => packer.Pack(WireOf(obj));
    }
  }

  method SerializeItems(items: seq<Net>, packer: Packer)
    requires Serializable(NList(items))
    modifies packer
    ensures Valid(WireOf(NList(items))) && packer.stream == old(packer.stream) + Encode(WireOf(NList(items)))
    decreases items, 1
  {
    packer.PackArrayHeader(|items|);
    ghost var start := packer.stream;
    WiresValid(items);
    assert |items| < MAX_LENGTH && forall j :: 0 <= j < |items| ==> Serializable(items[j]);
    assert items[..0] == [] && start + EncodeAll(Wires(items[..0])) == start;
    hide Valid, Serializable, WireOf, Encode, Wires, EncodeAll, AllValid, ArrayHeader;
    for i := 0 to |items|
      invariant AllValid(Wires(items[..i]))
      invariant packer.stream == start + EncodeAll(Wires(items[..i]))
    {
      ListStep(items, i);
      Serialize(items[i], packer);
      Regroup(start, EncodeAll(Wires(items[..i])), Encode(WireOf(items[i])));
    }
    assert items[..|items|] == items;
    ListEncoded(items);
    Regroup(old(packer.stream), ArrayHeader(CountForm(|items|), |items|), EncodeAll(Wires(items)));
  }

  lemma ListEncoded(items: seq<Net>)
    requires Serializable(NList(items))
    ensures AllValid(Wires(items)) && Valid(WireOf(NList(items)))
    ensures Encode(WireOf(NList(items))) == ArrayHeader(CountForm(|items|), |items|) + EncodeAll(Wires(items))
  {
    WiresValid(items);
    WireValid(NList(items));
  }

  method SerializeEntries(entries: seq<NEntry>, packer: Packer)
    requires Serializable(NDictionary(entries))
    modifies packer
    ensures Valid(WireOf(NDictionary(entries)))
      && packer.stream == old(packer.stream) + Encode(WireOf(NDictionary(entries)))
    decreases entries, 1
  {
    packer.PackMapHeader(|entries|);
    ghost var start := packer.stream;
    WirePairsValid(entries);
    assert |entries| < MAX_LENGTH && forall j :: 0 <= j < |entries| ==> SerializableEntry(entries[j]);
    assert entries[..0] == [] && start + EncodePairs(WirePairs(entries[..0])) == start;
    hide Valid, Serializable, SerializableEntry, EncodePair, ValidPair, WirePair, WirePairs, EncodePairs,
      AllPairsValid, MapHeader;
    for i := 0 to |entries|
      invariant AllPairsValid(WirePairs(entries[..i]))
      invariant packer.stream == start + EncodePairs(WirePairs(entries[..i]))
    {
      EntryStep(entries, i);
      SerializeEntry(entries[i], packer);
      Regroup(start, EncodePairs(WirePairs(entries[..i])), EncodePair(WirePair(entries[i])));
    }
    assert entries[..|entries|] == entries;
    DictionaryEncoded(entries);
    Regroup(old(packer.stream), MapHeader(CountForm(|entries|), |entries|), EncodePairs(WirePairs(entries)));
  }

  method SerializeEntry(e: NEntry, packer: Packer)
    requires SerializableEntry(e)
    modifies packer
    ensures ValidPair(WirePair(e)) && packer.stream == old(packer.stream) + EncodePair(WirePair(e))
    decreases e, 0
  {
    var key := WStr(StringForm(|e.key|), e.key);
    WireValid(e.value);
    packer.Pack(key);
    Serialize(e.value, packer);
    Regroup(old(packer.stream), Encode(key), Encode(WireOf(e.value)));
  }

  lemma DictionaryEncoded(entries: seq<NEntry>)
    requires Serializable(NDictionary(entries))
    ensures AllPairsValid(WirePairs(entries)) && Valid(WireOf(NDictionary(entries)))
    ensures Encode(WireOf(NDictionary(entries)))
      == MapHeader(CountForm(|entries|), |entries|) + EncodePairs(WirePairs(entries))
  {
    WirePairsValid(entries);
    WireValid(NDictionary(entries));
  }

  /** What is serialised deserialises, on either side of the network, to an object with the same value. */
  lemma SerializedDecodes(env: D.Env, o: Net, rest: Text)
    requires Serializable(o)
    ensures Valid(WireOf(o))
    ensures var r := D.UnpackAny(env, Encode(WireOf(o)) + rest);
      r.Ok? && r.rest == rest && D.Represents(env, r.value, Meaning(o))
  {
    WireValid(o);
    D.UnpackEncoded(env, WireOf(o), rest);
  }
}
