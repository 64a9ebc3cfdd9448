/** The encoding that is serialised is the shortest of all encodings of the same value. */
module MsgPackShortest {
  import opened LittleEndian
  import opened MsgPackFormat
  import opened MsgPackSerializer

  lemma HeaderSize(form: Form, n: nat, fix: byte, t8: byte, t16: byte, t32: byte)
    requires fix + n < 256 || form != Fix
    ensures |Header(form, n, fix, t8, t16, t32)|
         == match form case Fix => 1 case L8 => 2 case L16 => 3 case L32 => 5
  {
    hide BigEndian;
  }

  lemma IntegerShortest(n: int, w: Wire)
    requires Valid(w) && Valid(IntegerWire(n)) && ValueOf(w) == Integer(n)
    ensures |Encode(IntegerWire(n))| <= |Encode(w)|
  {
    assert Pow256(1) == 0x100 && Pow256(2) == 0x1_0000 && Pow256(4) == 0x1_0000_0000;
    hide BigEndian, Pow256;
    assert w.WFixInt? || w.WUInt? || w.WInt?;
  }

  lemma TextShortest(form: Form, n: nat)
    requires Fits(form, n, 32) && n < MAX_LENGTH
    ensures Fits(StringForm(n), n, 32) && |StrHeader(StringForm(n), n)| <= |StrHeader(form, n)|
  {
    HeaderSize(form, n, 0xA0, 0xD9, 0xDA, 0xDB);
    HeaderSize(StringForm(n), n, 0xA0, 0xD9, 0xDA, 0xDB);
    hide Header;
  }

  lemma BinaryShortest(form: Form, n: nat)
    requires form != Fix && Fits(form, n, 0) && n < MAX_LENGTH
    ensures LongForm(n) != Fix && |BinHeader(LongForm(n), n)| <= |BinHeader(form, n)|
  {
    HeaderSize(form, n, 0, 0xC4, 0xC5, 0xC6);
    HeaderSize(LongForm(n), n, 0, 0xC4, 0xC5, 0xC6);
    hide Header;
  }

  lemma ExtShortest(form: Form, n: nat)
    requires ExtFits(form, n) && n < MAX_LENGTH
    ensures |ExtHeader(ExtForm(n), n)| <= |ExtHeader(form, n)|
  {
    if form != Fix {
      HeaderSize(form, n, 0, 0xC7, 0xC8, 0xC9);
    }
    if ExtForm(n) != Fix {
      HeaderSize(ExtForm(n), n, 0, 0xC7, 0xC8, 0xC9);
    }
    hide Header;
  }

  lemma CountShortest(form: Form, n: nat)
    requires form != L8 && Fits(form, n, 16) && n < MAX_LENGTH
    ensures CountForm(n) == Fix ==> n < 16
    ensures |ArrayHeader(CountForm(n), n)| <= |ArrayHeader(form, n)|
    ensures |MapHeader(CountForm(n), n)| <= |MapHeader(form, n)|
  {
    HeaderSize(form, n, 0x90, 0, 0xDC, 0xDD);
    HeaderSize(CountForm(n), n, 0x90, 0, 0xDC, 0xDD);
    HeaderSize(form, n, 0x80, 0, 0xDE, 0xDF);
    HeaderSize(CountForm(n), n, 0x80, 0, 0xDE, 0xDF);
    hide Header;
  }

  lemma LeafShortest(o: Net, w: Wire)
    requires Serializable(o) && Valid(WireOf(o)) && Valid(w) && ValueOf(w) == Meaning(o)
    requires !o.NDictionary? && !o.NList?
    ensures |Encode(WireOf(o))| <= |Encode(w)|
  {
    hide StrHeader, BinHeader, ExtHeader, BigEndian, Pow256;
    match o {
      case NInteger(n) => IntegerShortest(n, w);
      case NString(text) => TextShortest(w.form, |text|);
      case NBytes(data) => BinaryShortest(w.form, |data|);
      case NDelegate(ref) => ExtShortest(w.form, |ref|);
      case NVector(_, components) => ExtShortest(w.form, 4 * |components|);
      case _ =>
    }
  }

  /** No legal encoding of the value of an object is shorter than the one that is serialised. */
  lemma {:induction false} WireShortest(o: Net, w: Wire)
    requires Serializable(o) && Valid(w) && ValueOf(w) == Meaning(o)
    ensures Valid(WireOf(o)) && |Encode(WireOf(o))| <= |Encode(w)|
    decreases o, 0
  {
    WireValid(o);
    hide ArrayHeader, MapHeader;
    match o {
      case NList(items) =>
        ItemsShortest(items, w.items);
        CountShortest(w.form, |items|);
      case NDictionary(entries) =>
        EntriesShortest(entries, w.entries);
        CountShortest(w.form, |entries|);
      case _ => LeafShortest(o, w);
    }
  }

  lemma {:induction false} ItemsShortest(items: seq<Net>, ws: seq<Wire>)
    requires (forall i :: 0 <= i < |items| ==> Serializable(items[i])) && AllValid(ws)
    requires ValuesOf(ws) == Meanings(items)
    ensures |items| == |ws| && AllValid(Wires(items)) && |EncodeAll(Wires(items))| <= |EncodeAll(ws)|
    decreases items, 1
  {
    if items == [] {
    } else {
      WiresValid(items);
      assert ValuesOf(ws)[0] == ValueOf(ws[0]) == Meaning(items[0]);
      assert ValuesOf(ws)[1..] == ValuesOf(ws[1..]) && Meanings(items)[1..] == Meanings(items[1..]);
      assert Wires(items)[0] == WireOf(items[0]) && Wires(items)[1..] == Wires(items[1..]);
      hide Encode, Valid, Serializable, ValueOf, Meaning, WireOf, ValuesOf, Meanings, Wires;
      WireShortest(items[0], ws[0]);
      ItemsShortest(items[1..], ws[1..]);
    }
  }

  lemma {:induction false} EntriesShortest(entries: seq<NEntry>, ws: seq<WPair>)
    requires (forall i :: 0 <= i < |entries| ==> SerializableEntry(entries[i])) && AllPairsValid(ws)
    requires PairsOf(ws) == MeaningPairs(entries)
    ensures |entries| == |ws| && AllPairsValid(WirePairs(entries))
    ensures |EncodePairs(WirePairs(entries))| <= |EncodePairs(ws)|
    decreases entries, 1
  {
    if entries == [] {
    } else {
      WirePairsValid(entries);
      var e, w := entries[0], ws[0];
      assert PairsOf(ws)[0] == Pair(w.key, ValueOf(w.value)) == Pair(e.key, Meaning(e.value));
      assert PairsOf(ws)[1..] == PairsOf(ws[1..]) && MeaningPairs(entries)[1..] == MeaningPairs(entries[1..]);
      assert WirePairs(entries)[0] == WirePair(e) && WirePairs(entries)[1..] == WirePairs(entries[1..]);
      assert ValidPair(w) && ValidPair(WirePair(e)) && SerializableEntry(e);
      hide Encode, Valid, Serializable, ValueOf, Meaning, WireOf, PairsOf, MeaningPairs, WirePairs, StrHeader;
      WireShortest(e.value, w.value);
      TextShortest(w.keyForm, |w.key|);
      EntriesShortest(entries[1..], ws[1..]);
    }
  }
}
