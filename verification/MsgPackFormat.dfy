/** Values and their encodings in the MessagePack specification, section "Formats".
    A Wire is a choice of encoding: the value together with the width picked for each number, length and
    extension. Encode gives its bytes; every legal encoding of a value is the bytes of some valid Wire. */
module MsgPackFormat {
  import opened LittleEndian

  type Text = seq<byte>

  // ---- Values ----

  /** What an encoding stands for. Floating-point numbers and text are carried as their bytes. */
  datatype Value =
    | Nil
    | Bool(b: bool)
    | Integer(n: int)
    | Float32(bits: nat)
    | Float64(bits: nat)
    | String(text: Text)
    | Binary(data: Text)
    | Array(items: seq<Value>)
    | Map(entries: seq<Pair>)
    | Function(local: bool, ref: Text)
    | Vector(ext: nat, components: seq<nat>)

  datatype Pair = Pair(key: Text, value: Value)

  // ---- Encodings ----

  /** How a length is written: inside the tag byte, or in 1, 2 or 4 bytes after it. */
  datatype Form = Fix | L8 | L16 | L32

  datatype Wire =
    | WNil
    | WBool(b: bool)
    | WFixInt(n: int)
    | WUInt(width: nat, n: int)
    | WInt(width: nat, n: int)
    | WFloat(width: nat, bits: nat)
    | WStr(form: Form, text: Text)
    | WBin(form: Form, data: Text)
    | WArray(form: Form, items: seq<Wire>)
    | WMap(form: Form, entries: seq<WPair>)
    | WFunction(form: Form, local: bool, ref: Text)
    | WVector(form: Form, ext: nat, components: seq<nat>)

  datatype WPair = WPair(keyForm: Form, key: Text, value: Wire)

  const EXT_FUNCREF := 10
  const EXT_LOCALFUNCREF := 11

  /** Vector2, Vector3, Vector4 and Quaternion carry 2, 3, 4 and 4 components. */
  function ComponentCount(ext: nat): nat { if ext == 20 then 2 else if ext == 21 then 3 else 4 }

  predicate IsVectorExt(ext: nat) { 20 <= ext <= 23 }

  predicate Fits(form: Form, n: nat, fixLimit: nat) {
    match form
    case Fix => n < fixLimit
    case L8 => n < 0x100
    case L16 => n < 0x1_0000
    case L32 => n < 0x8000_0000
  }

  predicate IsWidth(w: nat) { w == 1 || w == 2 || w == 4 || w == 8 }

  /** A fixed-size extension holds exactly 1, 2, 4, 8 or 16 bytes. */
  predicate ExtFits(form: Form, n: nat) {
    if form == Fix then n == 1 || n == 2 || n == 4 || n == 8 || n == 16 else Fits(form, n, 0)
  }

  predicate DistinctKeys(entries: seq<WPair>) {
    forall i, j :: 0 <= i < j < |entries| ==> entries[i].key != entries[j].key
  }

  predicate ValidPair(p: WPair) {
    Fits(p.keyForm, |p.key|, 32) && Valid(p.value)
  }

  predicate AllValid(items: seq<Wire>) {
    forall i :: 0 <= i < |items| ==> Valid(items[i])
  }

  predicate AllPairsValid(entries: seq<WPair>) {
    forall i :: 0 <= i < |entries| ==> ValidPair(entries[i])
  }

  predicate Valid(w: Wire) {
    match w
    case WNil => true
    case WBool(_) => true
    case WFixInt(n) => -32 <= n < 128
    case WUInt(width, n) => IsWidth(width) && 0 <= n < Pow256(width)
    case WInt(width, n) => IsWidth(width) && 0 - Pow256(width) <= 2 * n < Pow256(width)
    case WFloat(width, bits) => (width == 4 || width == 8) && bits < Pow256(width)
    case WStr(form, text) => Fits(form, |text|, 32)
    case WBin(form, data) => form != Fix && Fits(form, |data|, 0)
    case WArray(form, items) => form != L8 && Fits(form, |items|, 16) && AllValid(items)
    case WMap(form, entries) =>
      form != L8 && Fits(form, |entries|, 16) && DistinctKeys(entries) && AllPairsValid(entries)
    case WFunction(form, _, ref) => ExtFits(form, |ref|)
    case WVector(form, ext, components) =>
      IsVectorExt(ext) && |components| == ComponentCount(ext) && ExtFits(form, 4 * |components|)
      && forall i :: 0 <= i < |components| ==> components[i] < Pow256(4)
  }

  function ValueOf(w: Wire): Value {
    match w
    case WNil => Nil
    case WBool(b) => Bool(b)
    case WFixInt(n) => Integer(n)
    case WUInt(_, n) => Integer(n)
    case WInt(_, n) => Integer(n)
    case WFloat(width, bits) => if width == 4 then Float32(bits) else Float64(bits)
    case WStr(_, text) => String(text)
    case WBin(_, data) => Binary(data)
    case WArray(_, items) => Array(ValuesOf(items))
    case WMap(_, entries) => Map(PairsOf(entries))
    case WFunction(_, local, ref) => Function(local, ref)
    case WVector(_, ext, components) => Vector(ext, components)
  }

  function ValuesOf(items: seq<Wire>): (r: seq<Value>)
    ensures |r| == |items|
  {
    if items == [] then [] else [ValueOf(items[0])] + ValuesOf(items[1..])
  }

  function PairsOf(entries: seq<WPair>): (r: seq<Pair>)
    ensures |r| == |entries|
  {
    if entries == [] then [] else [Pair(entries[0].key, ValueOf(entries[0].value))] + PairsOf(entries[1..])
  }

  // ---- Bytes ----

  function Reverse(s: Text): (r: Text)
    ensures |r| == |s|
  {
    if s == [] then [] else Reverse(s[1..]) + [s[0]]
  }

  /** A number in network byte order. */
  function BigEndian(n: nat, width: nat): (r: Text)
    ensures |r| == width
  {
    Reverse(Bytes(n, width))
  }

  /** Two's complement of the given width. */
  function Unsigned(n: int, width: nat): nat
    requires 0 - Pow256(width) <= n < Pow256(width)
  {
    if n < 0 then n + Pow256(width) else n
  }

  /** The tag of an encoding whose tags for widths 1, 2, 4 and 8 are consecutive. */
  function WidthTag(base: byte, width: nat): byte
    requires base <= 0xD0
  {
    if width == 1 then base else if width == 2 then base + 1 else if width == 4 then base + 2 else base + 3
  }

  /** Tag and length: tags for 1-, 2- and 4-byte lengths are t8, t16 and t32. */
  function Header(form: Form, n: nat, fix: byte, t8: byte, t16: byte, t32: byte): Text
    requires fix + n < 256 || form != Fix
  {
    match form
    case Fix => [fix + n]
    case L8 => [t8] + BigEndian(n, 1)
    case L16 => [t16] + BigEndian(n, 2)
    case L32 => [t32] + BigEndian(n, 4)
  }

  function StrHeader(form: Form, n: nat): Text
    requires form == Fix ==> n < 32
  {
    Header(form, n, 0xA0, 0xD9, 0xDA, 0xDB)
  }

  function BinHeader(form: Form, n: nat): Text
    requires form != Fix
  {
    Header(form, n, 0, 0xC4, 0xC5, 0xC6)
  }

  function ArrayHeader(form: Form, n: nat): Text
    requires form == Fix ==> n < 16
  {
    Header(form, n, 0x90, 0, 0xDC, 0xDD)
  }

  function MapHeader(form: Form, n: nat): Text
    requires form == Fix ==> n < 16
  {
    Header(form, n, 0x80, 0, 0xDE, 0xDF)
  }

  function FixExtTag(n: nat): byte {
    if n == 1 then 0xD4 else if n == 2 then 0xD5 else if n == 4 then 0xD6 else if n == 8 then 0xD7 else 0xD8
  }

  function ExtHeader(form: Form, n: nat): Text {
    if form == Fix then [FixExtTag(n)] else Header(form, n, 0, 0xC7, 0xC8, 0xC9)
  }

  function Components(cs: seq<nat>): Text {
    if cs == [] then [] else Bytes(cs[0], 4) + Components(cs[1..])
  }

  function Encode(w: Wire): Text
    requires Valid(w)
    decreases w
  {
    match w
    case WNil => [0xC0]
    case WBool(b) => [if b then 0xC3 else 0xC2]
    case WFixInt(n) => [if n < 0 then n + 256 else n]
    case WUInt(width, n) => [WidthTag(0xCC, width)] + BigEndian(n, width)
    case WInt(width, n) => [WidthTag(0xD0, width)] + BigEndian(Unsigned(n, width), width)
    case WFloat(width, bits) => [if width == 4 then 0xCA else 0xCB] + BigEndian(bits, width)
    case WStr(form, text) => StrHeader(form, |text|) + text
    case WBin(form, data) => BinHeader(form, |data|) + data
    case WArray(form, items) => ArrayHeader(form, |items|) + EncodeAll(items)
    case WMap(form, entries) => MapHeader(form, |entries|) + EncodePairs(entries)
    case WFunction(form, local, ref) => ExtHeader(form, |ref|) + [if local then EXT_LOCALFUNCREF else EXT_FUNCREF] + ref
    case WVector(form, ext, components) => ExtHeader(form, 4 * |components|) + [ext] + Components(components)
  }

  function EncodeAll(items: seq<Wire>): Text
    requires AllValid(items)
    decreases items
  {
    if items == [] then [] else Encode(items[0]) + EncodeAll(items[1..])
  }

  function EncodePairs(entries: seq<WPair>): Text
    requires AllPairsValid(entries)
    decreases entries
  {
    if entries == [] then []
    else
      EncodePair(entries[0]) + EncodePairs(entries[1..])
  }

  function EncodePair(p: WPair): Text
    requires ValidPair(p)
    decreases p
  {
    StrHeader(p.keyForm, |p.key|) + p.key + Encode(p.value)
  }
}
