/** What the decoder makes of an encoding that is cut off: an exception, unless the cut is in the bytes of the last
    text, binary or function reference, which then comes out shorter without any error. */
module MsgPackTruncated {
  import opened LittleEndian
  import opened MsgPackFormat
  import opened MsgPackDecoder
  import opened Sequences

  // ---- What may be missing ----

  /** How many bytes at the end of an encoding are the content of its last leaf. */
  function Tail(w: Wire): nat
    decreases w
  {
    match w
    case WStr(_, text) => |text|
    case WBin(_, data) => |data|
    case WFunction(_, _, ref) => |ref|
    case WArray(_, items) => TailOfAll(items)
    case WMap(_, entries) => TailOfPairs(entries)
    case _ => 0
  }

  function TailOfAll(items: seq<Wire>): nat
    decreases items
  {
    if items == [] then 0 else if |items| == 1 then Tail(items[0]) else TailOfAll(items[1..])
  }

  function TailOfPairs(entries: seq<WPair>): nat
    decreases entries
  {
    if entries == [] then 0 else if |entries| == 1 then Tail(entries[0].value) else TailOfPairs(entries[1..])
  }

  function Cut(text: Text, n: nat): Text {
    if n <= |text| then text[..|text| - n] else []
  }

  /** The value without the last n bytes of its last leaf. */
  function Shortened(v: Value, n: nat): Value
    decreases v
  {
    match v
    case String(text) => String(Cut(text, n))
    case Binary(data) => Binary(Cut(data, n))
    case Function(local, ref) => Function(local, Cut(ref, n))
    case Array(items) => Array(LastShortened(items, n))
    case Map(entries) => Map(LastPairShortened(entries, n))
    case _ => v
  }

  function LastShortened(items: seq<Value>, n: nat): (r: seq<Value>)
    ensures |r| == |items|
    decreases items
  {
    if items == [] then [] else if |items| == 1 then [Shortened(items[0], n)]
    else [items[0]] + LastShortened(items[1..], n)
  }

  function LastPairShortened(entries: seq<Pair>, n: nat): (r: seq<Pair>)
    ensures |r| == |entries|
    decreases entries
  {
    if entries == [] then []
    else if |entries| == 1 then [Pair(entries[0].key, Shortened(entries[0].value, n))]
    else [entries[0]] + LastPairShortened(entries[1..], n)
  }

  /** The last byte of the header or the number is never part of the tail. */
  lemma {:induction false} TailBound(w: Wire)
    requires Valid(w)
    ensures Tail(w) < |Encode(w)|
    decreases w, 0
  {
    match w {
      case WArray(_, items) => TailOfAllBound(items);
      case WMap(_, entries) => TailOfPairsBound(entries);
      case _ =>
    }
  }

  lemma {:induction false} TailOfAllBound(items: seq<Wire>)
    requires AllValid(items)
    ensures TailOfAll(items) <= |EncodeAll(items)| && (items != [] ==> TailOfAll(items) < |EncodeAll(items)|)
    decreases items, 1
  {
    if items == [] {
    } else {
      TailBound(items[0]);
      TailOfAllBound(items[1..]);
    }
  }

  lemma {:induction false} TailOfPairsBound(entries: seq<WPair>)
    requires AllPairsValid(entries)
    ensures TailOfPairs(entries) <= |EncodePairs(entries)|
    ensures entries != [] ==> TailOfPairs(entries) < |EncodePairs(entries)|
    decreases entries, 1
  {
    if entries == [] {
    } else {
      TailBound(entries[0].value);
      TailOfPairsBound(entries[1..]);
    }
  }

  // ---- Cut headers and leaves ----

  lemma NothingReads(env: Env)
    ensures UnpackAny(env, []).Throws?
  {
  }

  /** A tag byte, then a length of which some bytes are missing. */
  lemma ShortLength(s: Text, width: nat)
    requires width > 0 && |s| < width
    ensures ReadLength(s, width).Throws?
  {
  }

  /** What a cut leaves of two parts. */
  lemma CutParts(a: Text, b: Text, k: nat)
    requires k <= |a| + |b|
    ensures k <= |a| ==> (a + b)[..k] == a[..k]
    ensures k >= |a| ==> (a + b)[..k] == a + b[..k - |a|]
  {
  }

  lemma CutTag(a: byte, b: Text, k: nat)
    requires 0 < k <= 1 + |b|
    ensures ([a] + b)[..k] == [a] + b[..k - 1]
  {
  }

  /** The tags that are followed by a length. */
  predicate LengthTag(a: byte, width: nat) {
    if width == 1 then a in [0xC4, 0xC7, 0xD9]
    else if width == 2 then a in [0xC5, 0xC8, 0xDA, 0xDC, 0xDE]
    else width == 4 && a in [0xC6, 0xC9, 0xDB, 0xDD, 0xDF]
  }

  function TagOf(form: Form, t8: byte, t16: byte, t32: byte): byte {
    if form == L8 then t8 else if form == L16 then t16 else t32
  }

  lemma ShortTag(env: Env, a: byte, s: Text, width: nat)
    requires LengthTag(a, width) && |s| < width
    ensures UnpackAny(env, [a] + s).Throws?
  {
    hide UnpackAny, UnpackMap, UnpackArray, UnpackExt, UnpackText;
    ShortLength(s, width);
    if IsMapTag(a) || IsArrayTag(a) {
      ShortContainer(env, a, s);
    } else {
      LeafTag(env, a, s);
    }
  }

  /** Inside a header every cut makes the decoder throw. */
  lemma CutHeader(env: Env, form: Form, n: nat, fix: byte, t8: byte, t16: byte, t32: byte, k: nat)
    requires fix + n < 256 || form != Fix
    requires k < |Header(form, n, fix, t8, t16, t32)|
    requires form != Fix ==> LengthTag(TagOf(form, t8, t16, t32), FormWidth(form))
    ensures UnpackAny(env, Header(form, n, fix, t8, t16, t32)[..k]).Throws?
  {
    NothingReads(env);
    hide UnpackAny, BigEndian;
    var h := Header(form, n, fix, t8, t16, t32);
    if k == 0 {
      assert h[..0] == [];
    } else {
      var number := BigEndian(n, FormWidth(form));
      CutTag(TagOf(form, t8, t16, t32), number, k);
      ShortTag(env, TagOf(form, t8, t16, t32), number[..k - 1], FormWidth(form));
    }
  }

  lemma ShortContainer(env: Env, a: byte, s: Text)
    requires (IsMapTag(a) || IsArrayTag(a)) && ContainerLength(a, s).Throws?
    ensures UnpackAny(env, [a] + s).Throws?
  {
    hide ContainerLength;
    assert ([a] + s)[1..] == s;
  }

  predicate NumberTag(a: byte, width: nat) {
    if a == 0xCA then width == 4 else if a == 0xCB then width == 8
    else if 0xCC <= a <= 0xCF then width == TagWidth(0xCC, a)
    else 0xD0 <= a <= 0xD3 && width == TagWidth(0xD0, a)
  }

  lemma CutNumber(env: Env, a: byte, body: Text, k: nat)
    requires NumberTag(a, |body|) && k < 1 + |body|
    ensures UnpackAny(env, ([a] + body)[..k]).Throws?
  {
    NothingReads(env);
    hide UnpackAny, UnpackExt, UnpackText;
    if k == 0 {
      assert ([a] + body)[..0] == [];
    } else {
      CutTag(a, body, k);
      LeafTag(env, a, body[..k - 1]);
    }
  }

  // ---- Leaves whose content is cut ----

  /** r is what decoding gives when `missing` bytes of an encoding of v, whose tail is `tail` bytes long, are cut
      off. */
  predicate CutReads(env: Env, r: Result<Obj>, v: Value, tail: nat, missing: nat) {
    if missing <= tail then r.Ok? && r.rest == [] && Represents(env, r.value, Shortened(v, missing))
    else r.Throws?
  }

  /** A text of which bytes are missing is what there is of it. */
  lemma CutText(text: Text, k: nat, binary: bool)
    requires k < |text|
    ensures UnpackText(text[..k], |text|, binary)
         == Ok(if binary then ByteArray(Cut(text, |text| - k)) else Str(Cut(text, |text| - k)), [])
  {
  }

  lemma CutStr(env: Env, form: Form, text: Text, k: nat)
    requires Fits(form, |text|, 32) && k < |StrHeader(form, |text|) + text|
    ensures var s := StrHeader(form, |text|) + text;
      && CutReads(env, UnpackAny(env, s[..k]), String(text), |text|, |s| - k)
      && (|s| - k <= |text| ==> UnpackAny(env, s[..k]).value.Str?)
  {
    var h := StrHeader(form, |text|);
    CutParts(h, text, k);
    if k < |h| {
      hide UnpackAny, UnpackText;
      CutHeader(env, form, |text|, 0xA0, 0xD9, 0xDA, 0xDB, k);
    } else {
      hide UnpackAny, UnpackText;
      StrHeaderReads(env, form, |text|, text[..k - |h|]);
      CutText(text, k - |h|, false);
    }
  }

  lemma CutBin(env: Env, form: Form, data: Text, k: nat)
    requires form != Fix && Fits(form, |data|, 0) && k < |BinHeader(form, |data|) + data|
    ensures var s := BinHeader(form, |data|) + data;
      CutReads(env, UnpackAny(env, s[..k]), Binary(data), |data|, |s| - k)
  {
    var h := BinHeader(form, |data|);
    CutParts(h, data, k);
    hide UnpackAny, UnpackText;
    if k < |h| {
      CutHeader(env, form, |data|, 0, 0xC4, 0xC5, 0xC6, k);
    } else {
      BinHeaderReads(env, form, |data|, data[..k - |h|]);
      CutText(data, k - |h|, true);
    }
  }

  lemma CutExtHeader(env: Env, form: Form, n: nat, k: nat)
    requires k < |ExtHeader(form, n)|
    ensures UnpackAny(env, ExtHeader(form, n)[..k]).Throws?
  {
    NothingReads(env);
    hide UnpackAny;
    if form == Fix {
      assert ExtHeader(form, n)[..0] == [];
    } else {
      CutHeader(env, form, n, 0, 0xC7, 0xC8, 0xC9, k);
    }
  }

  /** A reference of which bytes are missing is what there is of it. */
  lemma CutReference(env: Env, local: bool, ref: Text, k: nat)
    requires k <= |ref|
    ensures var ext := if local then EXT_LOCALFUNCREF else EXT_FUNCREF;
      UnpackExt(env, ([ext] + ref)[..k], |ref|)
        == if k == 0 then Throws(EndOfStream)
           else Ok(FuncRef(!local && env.fromNetwork, Cut(ref, |ref| + 1 - k)), [])
  {
    var ext := if local then EXT_LOCALFUNCREF else EXT_FUNCREF;
    if k > 0 {
      CutTag(ext, ref, k);
      assert ([ext] + ref[..k - 1])[1..] == ref[..k - 1];
    }
  }

  function FunctionExt(local: bool): byte { if local then EXT_LOCALFUNCREF else EXT_FUNCREF }

  lemma FunctionPrefix(form: Form, local: bool, ref: Text, k: nat)
    requires ExtFits(form, |ref|) && k < |Encode(WFunction(form, local, ref))|
    ensures var h, body := ExtHeader(form, |ref|), [FunctionExt(local)] + ref;
      && |Encode(WFunction(form, local, ref))| == |h| + 1 + |ref|
      && Encode(WFunction(form, local, ref))[..k] == if k < |h| then h[..k] else h + body[..k - |h|]
  {
    var h := ExtHeader(form, |ref|);
    assert Encode(WFunction(form, local, ref)) == h + [FunctionExt(local)] + ref;
    hide Encode, ExtHeader, FunctionExt;
    Regroup(h, [FunctionExt(local)], ref);
    CutParts(h, [FunctionExt(local)] + ref, k);
  }

  lemma CutReferenceReads(env: Env, local: bool, ref: Text, k: nat)
    requires k <= |ref|
    ensures CutReads(env, UnpackExt(env, ([FunctionExt(local)] + ref)[..k], |ref|), Function(local, ref), |ref|,
                     |ref| + 1 - k)
  {
    CutReference(env, local, ref, k);
    hide UnpackExt, Cut;
  }

  lemma CutFunction(env: Env, form: Form, local: bool, ref: Text, k: nat)
    requires ExtFits(form, |ref|) && k < |Encode(WFunction(form, local, ref))|
    ensures var s := Encode(WFunction(form, local, ref));
      CutReads(env, UnpackAny(env, s[..k]), Function(local, ref), |ref|, |s| - k)
  {
    var h := ExtHeader(form, |ref|);
    FunctionPrefix(form, local, ref, k);
    hide UnpackAny, ExtHeader, UnpackExt, Encode, ExtFits, FunctionExt, Represents, Shortened, Cut;
    if k < |h| {
      CutExtHeader(env, form, |ref|, k);
    } else {
      hide CutReads;
      ExtHeaderReads(env, form, |ref|, ([FunctionExt(local)] + ref)[..k - |h|]);
      CutReferenceReads(env, local, ref, k - |h|);
    }
  }

  lemma {:induction false} CutComponents(cs: seq<nat>, k: nat)
    requires k < |Components(cs)|
    ensures ReadComponents(Components(cs)[..k], |cs|).Throws?
    decreases |cs|
  {
    var first, more := Bytes(cs[0], 4), Components(cs[1..]);
    CutParts(first, more, k);
    if k >= 4 {
      assert (first + more[..k - 4])[4..] == more[..k - 4];
      CutComponents(cs[1..], k - 4);
    }
  }

  lemma CutVector(env: Env, form: Form, ext: nat, cs: seq<nat>, k: nat)
    requires Valid(WVector(form, ext, cs)) && k < |Encode(WVector(form, ext, cs))|
    ensures UnpackAny(env, Encode(WVector(form, ext, cs))[..k]).Throws?
  {
    var h := ExtHeader(form, 4 * |cs|);
    Regroup(h, [ext], Components(cs));
    CutParts(h, [ext] + Components(cs), k);
    hide UnpackAny, ExtHeader, Components, ReadComponents;
    if k < |h| {
      CutExtHeader(env, form, 4 * |cs|, k);
    } else {
      var body := ([ext] + Components(cs))[..k - |h|];
      ExtHeaderReads(env, form, 4 * |cs|, body);
      if k > |h| {
        CutTag(ext, Components(cs), k - |h|);
        assert body[1..] == Components(cs)[..k - |h| - 1];
        CutComponents(cs, k - |h| - 1);
      }
    }
  }

  /** Numbers, booleans and nil cannot be cut. */
  lemma CutScalar(env: Env, w: Wire, k: nat)
    requires Valid(w) && (w.WNil? || w.WBool? || w.WFixInt? || w.WUInt? || w.WInt? || w.WFloat?) && k < |Encode(w)|
    ensures UnpackAny(env, Encode(w)[..k]).Throws?
  {
    NothingReads(env);
    hide UnpackAny, BigEndian, Pow256, Unsigned;
    match w {
      case WUInt(width, n) =>
        WidthTagReads(0xCC, width);
        CutNumber(env, WidthTag(0xCC, width), BigEndian(n, width), k);
      case WInt(width, n) =>
        SignedUnsigned(n, width);
        WidthTagReads(0xD0, width);
        CutNumber(env, WidthTag(0xD0, width), BigEndian(Unsigned(n, width), width), k);
      case WFloat(width, bits) =>
        CutNumber(env, if width == 4 then 0xCA else 0xCB, BigEndian(bits, width), k);
      case _ => assert Encode(w)[..0] == [];
    }
  }

  // ---- Every encoding, cut anywhere ----

  /** A proper prefix of a legal encoding makes the decoder throw, unless only content of the last leaf is missing:
      then the value comes out with that leaf shortened. */
  lemma {:induction false} TruncatedExactly(env: Env, w: Wire, k: nat)
    requires Valid(w) && k < |Encode(w)|
    ensures CutReads(env, UnpackAny(env, Encode(w)[..k]), ValueOf(w), Tail(w), |Encode(w)| - k)
    decreases w, 0
  {
    hide UnpackAny, UnpackArray, UnpackMap, StrHeader, BinHeader, ArrayHeader, MapHeader, ExtHeader;
    match w {
      case WStr(form, text) => CutStr(env, form, text, k);
      case WBin(form, data) => CutBin(env, form, data, k);
      case WFunction(form, local, ref) => CutFunction(env, form, local, ref, k);
      case WVector(form, ext, cs) => CutVector(env, form, ext, cs, k);
      case WArray(form, items) => CutArray(env, form, items, k);
      case WMap(form, entries) => CutMap(env, form, entries, k);
      case _ => CutScalar(env, w, k);
    }
  }

  lemma {:induction false} CutArray(env: Env, form: Form, items: seq<Wire>, k: nat)
    requires Valid(WArray(form, items)) && k < |Encode(WArray(form, items))|
    ensures var w := WArray(form, items);
      CutReads(env, UnpackAny(env, Encode(w)[..k]), ValueOf(w), Tail(w), |Encode(w)| - k)
    decreases items, 2
  {
    hide UnpackAny, UnpackArray, Represents, Shortened;
    var h, body := ArrayHeader(form, |items|), EncodeAll(items);
    CutParts(h, body, k);
    TailOfAllBound(items);
    if k < |h| {
      CutHeader(env, form, |items|, 0x90, 0, 0xDC, 0xDD, k);
    } else {
      ArrayHeaderReads(env, form, |items|, body[..k - |h|]);
      TruncatedItems(env, items, [], k - |h|);
      ArrayShortened(env, UnpackArray(env, body[..k - |h|], |items|, []), ValuesOf(items), |body| - (k - |h|));
    }
  }

  lemma ArrayShortened(env: Env, r: Result<Obj>, vs: seq<Value>, missing: nat)
    ensures r.Ok? && r.value.List? && ItemsRepresent(env, r.value.items, 0, LastShortened(vs, missing)) ==>
      Represents(env, r.value, Shortened(Array(vs), missing))
  {
    hide LastShortened;
    if r.Ok? && r.value.List? && ItemsRepresent(env, r.value.items, 0, LastShortened(vs, missing)) {
      var short := LastShortened(vs, missing);
      forall i | 0 <= i < |short| ensures Represents(env, r.value.items[i], short[i]) {
        assert r.value.items[0 + i] == r.value.items[i];
      }
    }
  }

  lemma {:induction false} TruncatedItems(env: Env, items: seq<Wire>, done: seq<Obj>, k: nat)
    requires AllValid(items) && k < |EncodeAll(items)|
    ensures var r := UnpackArray(env, EncodeAll(items)[..k], |items|, done);
      var missing := |EncodeAll(items)| - k;
      if missing <= TailOfAll(items) then
        r.Ok? && r.rest == [] && r.value.List? && done <= r.value.items
        && ItemsRepresent(env, r.value.items, |done|, LastShortened(ValuesOf(items), missing))
      else r.Throws?
    decreases items, 1
  {
    hide UnpackAny, UnpackArray, Represents, Encode, Valid, Shortened;
    var first, rest := Encode(items[0]), items[1..];
    var more := EncodeAll(rest);
    CutParts(first, more, k);
    TailOfAllBound(rest);
    TailBound(items[0]);
    if k < |first| {
      TruncatedExactly(env, items[0], k);
      ItemCut(env, first[..k], |items|, done);
    } else {
      UnpackEncoded(env, items[0], more[..k - |first|]);
      var o := UnpackAny(env, first + more[..k - |first|]).value;
      ArrayStep(env, first, more[..k - |first|], |items|, done, o);
      assert rest != [];
      TruncatedItems(env, rest, done + [o], k - |first|);
      if |more| - (k - |first|) <= TailOfAll(rest) {
        var r := UnpackArray(env, more[..k - |first|], |rest|, done + [o]);
        assert r.value.items[|done|] == (done + [o])[|done|] == o;
        ItemsShift(env, r.value.items, |done|, o, ValueOf(items[0]),
                   LastShortened(ValuesOf(rest), |more| - (k - |first|)));
        assert ValuesOf(items)[1..] == ValuesOf(rest);
      }
    }
  }

  /** The loop over the items when the data ends in or after the next one. */
  lemma ItemCut(env: Env, s: Text, n: nat, done: seq<Obj>)
    requires n > 0 && (UnpackAny(env, s).Ok? ==> UnpackAny(env, s).rest == [])
    ensures var r := UnpackArray(env, s, n, done);
      if UnpackAny(env, s).Ok? && n == 1 then r == Ok(List(done + [UnpackAny(env, s).value]), []) else r.Throws?
  {
    NothingReads(env);
    hide UnpackAny;
  }

  lemma {:induction false} CutMap(env: Env, form: Form, entries: seq<WPair>, k: nat)
    requires Valid(WMap(form, entries)) && k < |Encode(WMap(form, entries))|
    ensures var w := WMap(form, entries);
      CutReads(env, UnpackAny(env, Encode(w)[..k]), ValueOf(w), Tail(w), |Encode(w)| - k)
    decreases entries, 3
  {
    hide UnpackAny, UnpackMap, Represents, Shortened;
    var h, body := MapHeader(form, |entries|), EncodePairs(entries);
    CutParts(h, body, k);
    TailOfPairsBound(entries);
    if k < |h| {
      CutHeader(env, form, |entries|, 0x80, 0, 0xDE, 0xDF, k);
    } else {
      MapHeaderReads(env, form, |entries|, body[..k - |h|]);
      TruncatedPairs(env, entries, [], k - |h|);
      MapShortened(env, UnpackMap(env, body[..k - |h|], |entries|, []), PairsOf(entries), |body| - (k - |h|));
    }
  }

  lemma MapShortened(env: Env, r: Result<Obj>, ps: seq<Pair>, missing: nat)
    ensures r.Ok? && r.value.Expando? && EntriesRepresent(env, r.value.entries, 0, LastPairShortened(ps, missing)) ==>
      Represents(env, r.value, Shortened(Map(ps), missing))
  {
    hide LastPairShortened;
    if r.Ok? && r.value.Expando? && EntriesRepresent(env, r.value.entries, 0, LastPairShortened(ps, missing)) {
      var short := LastPairShortened(ps, missing);
      forall i | 0 <= i < |short|
        ensures r.value.entries[i].key == short[i].key && Represents(env, r.value.entries[i].value, short[i].value)
      {
        assert r.value.entries[0 + i] == r.value.entries[i];
      }
    }
  }

  /** What the loop over the entries gives, of which `missing` bytes are cut off. */
  predicate PairsCut(env: Env, r: Result<Obj>, done: seq<Entry>, ps: seq<Pair>, tail: nat, missing: nat) {
    if missing <= tail then
      r.Ok? && r.rest == [] && r.value.Expando? && done <= r.value.entries
      && EntriesRepresent(env, r.value.entries, |done|, LastPairShortened(ps, missing))
    else r.Throws?
  }

  function KeyBytes(p: WPair): Text
    requires ValidPair(p)
  {
    StrHeader(p.keyForm, |p.key|) + p.key
  }

  lemma PairsParts(entries: seq<WPair>, k: nat)
    requires AllPairsValid(entries) && entries != [] && k < |EncodePairs(entries)|
    ensures ValidPair(entries[0]) && Valid(entries[0].value) && AllPairsValid(entries[1..])
    ensures var key, value, more := KeyBytes(entries[0]), Encode(entries[0].value), EncodePairs(entries[1..]);
      && |EncodePairs(entries)| == |key| + |value| + |more|
      && EncodePairs(entries)[..k] == (
           if k < |key| then key[..k]
           else if k < |key| + |value| then key + value[..k - |key|]
           else key + (value + more[..k - |key| - |value|]))
  {
    var p := entries[0];
    var key, value, more := KeyBytes(p), Encode(p.value), EncodePairs(entries[1..]);
    assert EncodePairs(entries) == key + value + more;
    hide EncodePairs, Encode, KeyBytes;
    Regroup(key, value, more);
    CutParts(key, value + more, k);
    if k >= |key| {
      CutParts(value, more, k - |key|);
    }
  }

  lemma TailsOfPairs(entries: seq<WPair>)
    requires AllPairsValid(entries) && entries != []
    ensures |entries| == 1 ==> TailOfPairs(entries) == Tail(entries[0].value) && EncodePairs(entries[1..]) == []
    ensures |entries| > 1 ==> TailOfPairs(entries) == TailOfPairs(entries[1..]) < |EncodePairs(entries[1..])|
    ensures Valid(entries[0].value) && Tail(entries[0].value) < |Encode(entries[0].value)|
  {
    TailBound(entries[0].value);
    TailOfPairsBound(entries[1..]);
  }

  ghost predicate EntriesCut(env: Env, entries: seq<WPair>, done: seq<Entry>, k: nat)
    requires AllPairsValid(entries) && k < |EncodePairs(entries)|
  {
    PairsCut(env, UnpackMap(env, EncodePairs(entries)[..k], |entries|, done), done, PairsOf(entries),
             TailOfPairs(entries), |EncodePairs(entries)| - k)
  }

  lemma {:induction false} TruncatedPairs(env: Env, entries: seq<WPair>, done: seq<Entry>, k: nat)
    requires AllPairsValid(entries) && DistinctKeys(entries) && KeysApart(done, entries)
    requires k < |EncodePairs(entries)|
    ensures EntriesCut(env, entries, done, k)
    decreases entries, 2
  {
    hide EntriesCut, DistinctKeys, KeysApart, KeyBytes, Encode;
    PairsParts(entries, k);
    if k < |KeyBytes(entries[0])| {
      KeyIsCut(env, entries, done, k);
    } else if k < |KeyBytes(entries[0])| + |Encode(entries[0].value)| {
      ValueIsCut(env, entries, done, k);
    } else {
      LaterIsCut(env, entries, done, k);
    }
  }

  lemma KeyIsCut(env: Env, entries: seq<WPair>, done: seq<Entry>, k: nat)
    requires AllPairsValid(entries) && entries != [] && k < |EncodePairs(entries)|
    requires k < |KeyBytes(entries[0])|
    ensures EntriesCut(env, entries, done, k)
  {
    PairsParts(entries, k);
    TailsOfPairs(entries);
    hide UnpackAny, UnpackMap, KeyBytes, Encode, EncodePairs, TailOfPairs, Tail, PairsOf, EntriesRepresent;
    KeyEnds(env, entries[0], k);
    KeyCut(env, KeyBytes(entries[0])[..k], |entries|, done);
  }

  lemma {:induction false} ValueIsCut(env: Env, entries: seq<WPair>, done: seq<Entry>, k: nat)
    requires AllPairsValid(entries) && entries != [] && KeysApart(done, entries) && k < |EncodePairs(entries)|
    requires |KeyBytes(entries[0])| <= k < |KeyBytes(entries[0])| + |Encode(entries[0].value)|
    ensures EntriesCut(env, entries, done, k)
    decreases entries, 0
  {
    var p := entries[0];
    var j := k - |KeyBytes(p)|;
    ValuePrefix(entries, k, j);
    KeysApartHere(done, entries);
    hide *;
    TailsOfPairs(entries);
    TruncatedExactly(env, p.value, j);
    ValueRuns(env, p, |entries|, done, j);
    LastThenCut(env, entries, done, k, j);
  }

  lemma ValuePrefix(entries: seq<WPair>, k: nat, j: nat)
    requires AllPairsValid(entries) && entries != [] && k < |EncodePairs(entries)|
    requires k == |KeyBytes(entries[0])| + j && j < |Encode(entries[0].value)|
    ensures ValidPair(entries[0]) && Valid(entries[0].value) && AllPairsValid(entries[1..])
    ensures |EncodePairs(entries)| - k == |Encode(entries[0].value)| - j + |EncodePairs(entries[1..])|
    ensures EncodePairs(entries)[..k] == KeyBytes(entries[0]) + Encode(entries[0].value)[..j]
  {
    PairsParts(entries, k);
    hide *;
  }

  lemma ValueRuns(env: Env, p: WPair, n: nat, done: seq<Entry>, j: nat)
    requires ValidPair(p) && Valid(p.value) && n > 0 && j < |Encode(p.value)|
    requires CutReads(env, UnpackAny(env, Encode(p.value)[..j]), ValueOf(p.value), Tail(p.value),
                      |Encode(p.value)| - j)
    requires forall i :: 0 <= i < |done| ==> done[i].key != p.key
    ensures var r, m := UnpackAny(env, Encode(p.value)[..j]),
                        UnpackMap(env, KeyBytes(p) + Encode(p.value)[..j], n, done);
      if r.Ok? && n == 1 then m == Ok(Expando(done + [Entry(p.key, r.value)]), []) else m.Throws?
  {
    hide UnpackAny, UnpackMap, KeyBytes, Encode, Tail, Represents, Shortened;
    KeyReads(env, p, Encode(p.value)[..j]);
    ValueCut(env, p.key, KeyBytes(p), Encode(p.value)[..j], n, done);
  }

  lemma LastThenCut(env: Env, entries: seq<WPair>, done: seq<Entry>, k: nat, j: nat)
    requires AllPairsValid(entries) && entries != [] && Valid(entries[0].value) && AllPairsValid(entries[1..])
    requires k < |EncodePairs(entries)| && j < |Encode(entries[0].value)|
    requires |EncodePairs(entries)| - k == |Encode(entries[0].value)| - j + |EncodePairs(entries[1..])|
    requires |entries| == 1 ==> TailOfPairs(entries) == Tail(entries[0].value) && EncodePairs(entries[1..]) == []
    requires |entries| > 1 ==> TailOfPairs(entries) < |EncodePairs(entries[1..])|
    requires CutReads(env, UnpackAny(env, Encode(entries[0].value)[..j]), ValueOf(entries[0].value),
                      Tail(entries[0].value), |Encode(entries[0].value)| - j)
    requires var r, m := UnpackAny(env, Encode(entries[0].value)[..j]),
                         UnpackMap(env, EncodePairs(entries)[..k], |entries|, done);
      if r.Ok? && |entries| == 1 then m == Ok(Expando(done + [Entry(entries[0].key, r.value)]), []) else m.Throws?
    ensures EntriesCut(env, entries, done, k)
  {
    hide UnpackAny, UnpackMap, Encode, EncodePairs, TailOfPairs, Tail, PairsOf, Represents, EntriesRepresent, Shortened,
      AllPairsValid, Valid, LastPairShortened, ValueOf;
    var missing := |Encode(entries[0].value)| - j;
    if |entries| == 1 && missing <= Tail(entries[0].value) {
      LastPair(env, done, entries, UnpackAny(env, Encode(entries[0].value)[..j]).value, missing);
    }
  }

  lemma {:induction false} LaterIsCut(env: Env, entries: seq<WPair>, done: seq<Entry>, k: nat)
    requires AllPairsValid(entries) && DistinctKeys(entries) && KeysApart(done, entries)
    requires entries != [] && |KeyBytes(entries[0])| + |Encode(entries[0].value)| <= k < |EncodePairs(entries)|
    ensures EntriesCut(env, entries, done, k)
    decreases entries, 0
  {
    PairsParts(entries, k);
    TailsOfPairs(entries);
    var rest := entries[1..];
    var j := k - |KeyBytes(entries[0])| - |Encode(entries[0].value)|;
    assert |entries| > 1;
    hide *;
    var o := FirstRuns(env, entries, done, k, j);
    KeysStayDistinct(entries, done, o);
    TruncatedPairs(env, rest, done + [Entry(entries[0].key, o)], j);
    FirstThenCut(env, entries, done, k, o, j);
  }

  lemma FirstThenCut(env: Env, entries: seq<WPair>, done: seq<Entry>, k: nat, o: Obj, j: nat)
    requires |entries| > 1 && AllPairsValid(entries) && AllPairsValid(entries[1..])
    requires k < |EncodePairs(entries)| && j < |EncodePairs(entries[1..])|
    requires |EncodePairs(entries)| - k == |EncodePairs(entries[1..])| - j
    requires TailOfPairs(entries) == TailOfPairs(entries[1..]) && Represents(env, o, ValueOf(entries[0].value))
    requires UnpackMap(env, EncodePairs(entries)[..k], |entries|, done)
          == UnpackMap(env, EncodePairs(entries[1..])[..j], |entries| - 1, done + [Entry(entries[0].key, o)])
    requires EntriesCut(env, entries[1..], done + [Entry(entries[0].key, o)], j)
    ensures EntriesCut(env, entries, done, k)
  {
    hide UnpackMap, EncodePairs, TailOfPairs, PairsOf, Represents, PairsCut, AllPairsValid;
    PairFirst(env, UnpackMap(env, EncodePairs(entries)[..k], |entries|, done), done, entries, o,
              TailOfPairs(entries[1..]), |EncodePairs(entries[1..])| - j);
  }

  /** The first entry is decoded as a whole. */
  lemma FirstRuns(env: Env, entries: seq<WPair>, done: seq<Entry>, k: nat, j: nat) returns (o: Obj)
    requires AllPairsValid(entries) && KeysApart(done, entries)
    requires entries != [] && k == |KeyBytes(entries[0])| + |Encode(entries[0].value)| + j < |EncodePairs(entries)|
    ensures Represents(env, o, ValueOf(entries[0].value)) && AllPairsValid(entries[1..])
    ensures j < |EncodePairs(entries[1..])|
    ensures UnpackMap(env, EncodePairs(entries)[..k], |entries|, done)
         == UnpackMap(env, EncodePairs(entries[1..])[..j], |entries| - 1, done + [Entry(entries[0].key, o)])
  {
    PairsParts(entries, k);
    KeysApartHere(done, entries);
    var p := entries[0];
    var key, value, tail := KeyBytes(p), Encode(p.value), EncodePairs(entries[1..])[..j];
    hide UnpackAny, UnpackMap, KeysApart, KeyBytes, Encode, EncodePairs, Represents;
    KeyReads(env, p, value + tail);
    UnpackEncoded(env, p.value, tail);
    o := UnpackAny(env, value + tail).value;
    MapStep(env, p.key, key, value, tail, |entries|, done, o);
  }

  lemma KeyReads(env: Env, p: WPair, rest: Text)
    requires ValidPair(p)
    ensures UnpackAny(env, KeyBytes(p) + rest) == Ok(Str(p.key), rest)
  {
    StrReads(env, p.keyForm, p.key, rest);
  }

  /** A key that is cut ends the data or throws. */
  lemma KeyEnds(env: Env, p: WPair, k: nat)
    requires ValidPair(p) && k < |KeyBytes(p)|
    ensures var r := UnpackAny(env, KeyBytes(p)[..k]); r.Ok? ==> r.rest == []
  {
    CutStr(env, p.keyForm, p.key, k);
  }

  lemma KeyCut(env: Env, s: Text, n: nat, done: seq<Entry>)
    requires n > 0 && (UnpackAny(env, s).Ok? ==> UnpackAny(env, s).rest == [])
    ensures UnpackMap(env, s, n, done).Throws?
  {
    NothingReads(env);
    hide UnpackAny;
  }

  lemma ValueCut(env: Env, key: Text, keyBytes: Text, s: Text, n: nat, done: seq<Entry>)
    requires n > 0 && UnpackAny(env, keyBytes + s) == Ok(Str(key), s)
    requires UnpackAny(env, s).Ok? ==> UnpackAny(env, s).rest == []
    requires forall i :: 0 <= i < |done| ==> done[i].key != key
    ensures var r := UnpackMap(env, keyBytes + s, n, done);
      if UnpackAny(env, s).Ok? && n == 1 then
        r == Ok(Expando(done + [Entry(key, UnpackAny(env, s).value)]), [])
      else r.Throws?
  {
    NothingReads(env);
    hide UnpackAny;
    if UnpackAny(env, s).Ok? {
      SetNewKey(done, key, UnpackAny(env, s).value);
    }
  }

  lemma LastPair(env: Env, done: seq<Entry>, entries: seq<WPair>, o: Obj, missing: nat)
    requires |entries| == 1 && Represents(env, o, Shortened(ValueOf(entries[0].value), missing))
    ensures EntriesRepresent(env, done + [Entry(entries[0].key, o)], |done|,
                             LastPairShortened(PairsOf(entries), missing))
  {
    hide Represents, Shortened;
    assert PairsOf(entries) == [Pair(entries[0].key, ValueOf(entries[0].value))];
  }

  lemma PairFirst(env: Env, r: Result<Obj>, done: seq<Entry>, entries: seq<WPair>, o: Obj, tail: nat, missing: nat)
    requires |entries| > 1 && Represents(env, o, ValueOf(entries[0].value))
    requires PairsCut(env, r, done + [Entry(entries[0].key, o)], PairsOf(entries[1..]), tail, missing)
    ensures PairsCut(env, r, done, PairsOf(entries), tail, missing)
  {
    hide Represents, EntriesRepresent;
    if missing <= tail {
      var e, ps := entries[0], PairsOf(entries[1..]);
      var done' := done + [Entry(e.key, o)];
      assert r.value.entries[|done|] == done'[|done|];
      EntriesShift(env, r.value.entries, |done|, Entry(e.key, o), Pair(e.key, ValueOf(e.value)),
                   LastPairShortened(ps, missing));
      assert PairsOf(entries)[1..] == ps;
    }
  }
}
