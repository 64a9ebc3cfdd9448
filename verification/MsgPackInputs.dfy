/** Every byte string begins with the bytes of some node, in which only what the end of the data cuts off is short; so
    the answer of the decoder is known for every input. */
module MsgPackInputs {
  import opened LittleEndian
  import opened MsgPackFormat
  import opened MsgPackDecoder
  import opened MsgPackTables
  import opened Sequences

  /** A node at the beginning of s. */
  ghost predicate Starts(s: Text, n: Node, rest: Text) {
    NodeValid(n) && s == NodeBytes(n) + rest && Placed(n, rest)
  }

  // ---- Numbers and leaves ----

  lemma NumberSplits(s: Text, width: nat) returns (n: nat, rest: Text)
    requires width <= |s|
    ensures n < Pow256(width) && s == BigEndian(n, width) + rest && |rest| == |s| - width
  {
    var part := s[..width];
    n, rest := NumberOf(Reverse(part)), s[width..];
    BytesValue(Reverse(part));
    ValueBound(Reverse(part));
    ReverseTwice(part);
  }

  lemma ComponentsSplit(s: Text, k: nat) returns (cs: seq<nat>, rest: Text)
    requires 4 * k <= |s|
    ensures |cs| == k && (forall i :: 0 <= i < k ==> cs[i] < Pow256(4)) && s == Components(cs) + rest
    decreases k
  {
    if k == 0 {
      cs, rest := [], s;
    } else {
      var part := s[..4];
      BytesValue(part);
      ValueBound(part);
      var cs', r' := ComponentsSplit(s[4..], k - 1);
      cs, rest := [NumberOf(part)] + cs', r';
      assert cs[1..] == cs';
      Regroup(part, Components(cs'), rest);
    }
  }

  /** Positive and negative numbers in the tag, nil, truth values and the unused tag. */
  lemma SmallBegins(a: byte, s: Text) returns (n: Node)
    requires a < 0x80 || a >= 0xE0 || 0xC0 <= a <= 0xC3
    ensures Starts([a] + s, n, s)
  {
    n := if a < 0x80 then Leaf(WFixInt(a)) else if a >= 0xE0 then Leaf(WFixInt(a - 256))
         else if a == 0xC0 then Leaf(WNil) else if a == 0xC1 then Odd(Unused) else Leaf(WBool(a == 0xC3));
    assert NodeBytes(n) == [a];
  }

  /** A tag and not all of the number behind it. */
  lemma ShortBegins(a: byte, s: Text) returns (n: Node)
    requires |s| < NumberWidth(a)
    ensures Starts([a] + s, n, [])
  {
    n := Odd(ShortNumber(a, s));
    hide NumberWidth;
    assert [a] + s + [] == [a] + s;
  }

  lemma NumberBegins(a: byte, s: Text) returns (n: Node, rest: Text)
    requires 0xCA <= a <= 0xD3 && NumberWidth(a) <= |s|
    ensures Starts([a] + s, n, rest)
  {
    var width, v := NumberWidth(a), 0;
    v, rest := NumberSplits(s, width);
    hide BigEndian;
    if a < 0xCC {
      n := Leaf(WFloat(width, v));
    } else if a < 0xD0 {
      n := Leaf(WUInt(width, v));
    } else {
      n := Leaf(WInt(width, Signed(v, width)));
      assert Unsigned(Signed(v, width), width) == v;
    }
    assert NodeBytes(n) == [a] + BigEndian(v, width);
    Regroup([a], BigEndian(v, width), rest);
  }

  // ---- Headers and texts ----

  /** The form of a length of 1, 2 or 4 bytes. */
  function FormAt(i: nat): Form { if i == 0 then L8 else if i == 1 then L16 else L32 }

  /** A tag and a length behind it, which is an int or not. */
  lemma HeaderBegins(form: Form, fix: byte, t8: byte, t16: byte, t32: byte, s: Text) returns (n: nat, rest: Text)
    requires form != Fix && FormWidth(form) <= |s|
    ensures Fits(form, n, 0) || (form == L32 && Huge(n))
    ensures [if form == L8 then t8 else if form == L16 then t16 else t32] + s
         == Header(form, n, fix, t8, t16, t32) + rest
    ensures |rest| <= |s|
  {
    assert Pow256(1) == 0x100 && Pow256(2) == 0x1_0000 && Pow256(4) == 0x1_0000_0000;
    hide BigEndian, Pow256;
    n, rest := NumberSplits(s, FormWidth(form));
    Regroup([if form == L8 then t8 else if form == L16 then t16 else t32], BigEndian(n, FormWidth(form)), rest);
  }

  /** The content of a text, or what there is of it. */
  lemma StrContent(form: Form, k: nat, s: Text) returns (n: Node, rest: Text)
    requires Fits(form, k, 32)
    ensures Starts(StrHeader(form, k) + s, n, rest)
  {
    hide StrHeader;
    if k <= |s| {
      n, rest := Leaf(WStr(form, s[..k])), s[k..];
      assert s == s[..k] + s[k..];
      Regroup(StrHeader(form, k), s[..k], s[k..]);
    } else {
      n, rest := Odd(ShortString(form, s, k - |s|)), [];
    }
  }

  lemma BinContent(form: Form, k: nat, s: Text) returns (n: Node, rest: Text)
    requires form != Fix && Fits(form, k, 0)
    ensures Starts(BinHeader(form, k) + s, n, rest)
  {
    hide BinHeader;
    if k <= |s| {
      n, rest := Leaf(WBin(form, s[..k])), s[k..];
      assert s == s[..k] + s[k..];
      Regroup(BinHeader(form, k), s[..k], s[k..]);
    } else {
      n, rest := Odd(ShortBinary(form, s, k - |s|)), [];
    }
  }

  lemma HugeTextBegins(binary: bool, k: nat, rest: Text) returns (n: Node)
    requires Huge(k)
    ensures Starts((if binary then BinHeader(L32, k) else StrHeader(L32, k)) + rest, n, rest)
  {
    n := Odd(HugeText(binary, k));
    hide BigEndian;
  }

  lemma StrBegins(a: byte, s: Text) returns (n: Node, rest: Text)
    requires 0xA0 <= a < 0xC0 || (0xD9 <= a <= 0xDB && NumberWidth(a) <= |s|)
    ensures Starts([a] + s, n, rest)
  {
    hide Starts, BigEndian;
    if a < 0xC0 {
      n, rest := StrContent(Fix, a - 0xA0, s);
    } else {
      var form := FormAt(a - 0xD9);
      var k, r := HeaderBegins(form, 0xA0, 0xD9, 0xDA, 0xDB, s);
      if form == L32 && Huge(k) {
        n := HugeTextBegins(false, k, r);
        rest := r;
      } else {
        n, rest := StrContent(form, k, r);
      }
    }
  }

  lemma BinBegins(a: byte, s: Text) returns (n: Node, rest: Text)
    requires 0xC4 <= a <= 0xC6 && NumberWidth(a) <= |s|
    ensures Starts([a] + s, n, rest)
  {
    hide Starts, BigEndian;
    var form := FormAt(a - 0xC4);
    var k, r := HeaderBegins(form, 0, 0xC4, 0xC5, 0xC6, s);
    if form == L32 && Huge(k) {
      n := HugeTextBegins(true, k, r);
      rest := r;
    } else {
      n, rest := BinContent(form, k, r);
    }
  }

  // ---- Extensions ----

  lemma ExtBegins(a: byte, s: Text) returns (n: Node, rest: Text)
    requires 0xD4 <= a <= 0xD8 || (0xC7 <= a <= 0xC9 && NumberWidth(a) <= |s|)
    ensures Starts([a] + s, n, rest)
  {
    hide Starts, BigEndian;
    if a >= 0xD4 {
      n, rest := ExtContent(Fix, FixExtLength(a), s);
    } else {
      var form := FormAt(a - 0xC7);
      var k, r := HeaderBegins(form, 0, 0xC7, 0xC8, 0xC9, s);
      n, rest := ExtContent(form, k, r);
    }
  }

  /** The type of the extension and what it holds. */
  lemma ExtContent(form: Form, k: nat, s: Text) returns (n: Node, rest: Text)
    requires AnyLength(form, k)
    ensures Starts(ExtHeader(form, k) + s, n, rest)
  {
    hide ExtHeader;
    if s == [] {
      n, rest := Odd(NoType(form, k)), [];
    } else {
      var ext, body := s[0], s[1..];
      assert s == [ext] + body;
      if ext == 10 || ext == 11 {
        n, rest := ReferenceContent(form, k, ext == 11, body);
      } else if 20 <= ext <= 23 {
        n, rest := VectorContent(form, k, ext, body);
      } else {
        n, rest := Odd(UnknownExt(form, k, ext)), body;
        Regroup(ExtHeader(form, k), [ext], body);
      }
    }
  }

  lemma ReferenceContent(form: Form, k: nat, local: bool, body: Text) returns (n: Node, rest: Text)
    requires AnyLength(form, k)
    ensures Starts(ExtHeader(form, k) + ([if local then 11 else 10] + body), n, rest)
  {
    hide ExtHeader;
    var tag: Text := [if local then 11 else 10];
    if Huge(k) {
      n, rest := Odd(HugeFunction(k, local)), body;
      Regroup(ExtHeader(form, k), tag, body);
    } else if k <= |body| {
      var ref := body[..k];
      n, rest := Leaf(WFunction(form, local, ref)), body[k..];
      assert body == ref + rest;
      RegroupFour(ExtHeader(form, k), tag, ref, rest);
    } else {
      n, rest := Odd(ShortFunction(form, body, k - |body|, local)), [];
    }
  }

  lemma VectorContent(form: Form, k: nat, ext: byte, body: Text) returns (n: Node, rest: Text)
    requires AnyLength(form, k) && 20 <= ext <= 23
    ensures Starts(ExtHeader(form, k) + ([ext] + body), n, rest)
  {
    hide ExtHeader;
    if 4 * Parts(ext) <= |body| {
      var cs;
      cs, rest := ComponentsSplit(body, Parts(ext));
      n := Odd(AnyVector(form, k, ext, cs));
      var content := Components(cs);
      hide Components, ComponentCount;
      RegroupFour(ExtHeader(form, k), [ext], content, rest);
      Regroup(ExtHeader(form, k), [ext], content);
    } else {
      n, rest := Odd(ShortVector(form, k, ext, body)), [];
    }
  }

  // ---- Lists and tables ----

  lemma {:induction false} InputBegins(s: Text) returns (n: Node, rest: Text)
    ensures Starts(s, n, rest) && |rest| <= |s|
    decreases |s|, 0, 0
  {
    if s == [] {
      n, rest := Odd(Nothing), [];
    } else {
      var a, body := s[0], s[1..];
      assert s == [a] + body;
      n, rest := TagBegins(a, body);
      assert |s| == |NodeBytes(n)| + |rest|;
    }
  }

  lemma {:induction false} TagBegins(a: byte, s: Text) returns (n: Node, rest: Text)
    ensures Starts([a] + s, n, rest)
    decreases |s|, 4, 0
  {
    hide Starts;
    rest := [];
    if |s| < NumberWidth(a) {
      n := ShortBegins(a, s);
    } else if a < 0x80 || a >= 0xE0 || 0xC0 <= a <= 0xC3 {
      n := SmallBegins(a, s);
      rest := s;
    } else if 0xCA <= a <= 0xD3 {
      n, rest := NumberBegins(a, s);
    } else if 0xA0 <= a < 0xC0 || 0xD9 <= a <= 0xDB {
      n, rest := StrBegins(a, s);
    } else if a < 0xA0 || 0xDC <= a {
      n, rest := ContainerBegins(a, s);
    } else if 0xC4 <= a <= 0xC6 {
      n, rest := BinBegins(a, s);
    } else {
      n, rest := ExtBegins(a, s);
    }
  }

  /** The header of a list or of a table and its content. */
  lemma {:induction false} ContainerBegins(a: byte, s: Text) returns (n: Node, rest: Text)
    requires (IsMapTag(a) || IsArrayTag(a)) && NumberWidth(a) <= |s|
    ensures Starts([a] + s, n, rest)
    decreases |s|, 3, 0
  {
    hide Starts, BigEndian;
    if a < 0x90 {
      n, rest := TableContent(Fix, a - 0x80, s);
    } else if a < 0xA0 {
      n, rest := ListContent(Fix, a - 0x90, s);
    } else if a < 0xDE {
      var form := FormAt(a - 0xDB);
      var k, r := HeaderBegins(form, 0x90, 0, 0xDC, 0xDD, s);
      if form == L32 && Huge(k) {
        n := HugeBegins(false, k, r);
        rest := r;
      } else {
        n, rest := ListContent(form, k, r);
      }
    } else {
      var form := FormAt(a - 0xDD);
      var k, r := HeaderBegins(form, 0x80, 0, 0xDE, 0xDF, s);
      if form == L32 && Huge(k) {
        n := HugeBegins(true, k, r);
        rest := r;
      } else {
        n, rest := TableContent(form, k, r);
      }
    }
  }

  lemma HugeBegins(table: bool, k: nat, rest: Text) returns (n: Node)
    requires Huge(k)
    ensures Starts((if table then MapHeader(L32, k) else ArrayHeader(L32, k)) + rest, n, rest)
  {
    n := Odd(if table then HugeTable(k) else HugeList(k));
    hide BigEndian;
  }

  lemma {:induction false} ListContent(form: Form, k: nat, s: Text) returns (n: Node, rest: Text)
    requires form != L8 && Fits(form, k, 16)
    ensures Starts(ArrayHeader(form, k) + s, n, rest)
    decreases |s|, 2, 0
  {
    hide ArrayHeader;
    var items;
    items, rest := ItemsBegin(s, k);
    n := Sequence(form, items);
    hide NodesBytes, NodesValid, AllPlaced;
    Regroup(ArrayHeader(form, k), NodesBytes(items), rest);
  }

  lemma {:induction false} TableContent(form: Form, k: nat, s: Text) returns (n: Node, rest: Text)
    requires form != L8 && Fits(form, k, 16)
    ensures Starts(MapHeader(form, k) + s, n, rest)
    decreases |s|, 2, 0
  {
    hide MapHeader;
    var entries;
    entries, rest := PairsBegin(s, k);
    n := Table(form, entries);
    hide PairsBytes, PairsValid, PairsPlaced;
    Regroup(MapHeader(form, k), PairsBytes(entries), rest);
  }

  lemma {:induction false} ItemsBegin(s: Text, k: nat) returns (items: seq<Node>, rest: Text)
    ensures |items| == k && NodesValid(items) && s == NodesBytes(items) + rest && AllPlaced(items, rest)
    decreases |s|, 1, k
  {
    if k == 0 {
      items, rest := [], s;
    } else {
      var n, r := InputBegins(s);
      hide NodeBytes, NodeValid, Placed;
      var items';
      items', rest := ItemsBegin(r, k - 1);
      items := [n] + items';
      assert items[1..] == items';
      Regroup(NodeBytes(n), NodesBytes(items'), rest);
    }
  }

  lemma {:induction false} PairsBegin(s: Text, k: nat) returns (entries: seq<NodePair>, rest: Text)
    ensures |entries| == k && PairsValid(entries) && s == PairsBytes(entries) + rest && PairsPlaced(entries, rest)
    decreases |s|, 1, k
  {
    if k == 0 {
      entries, rest := [], s;
    } else {
      var key, r1 := InputBegins(s);
      var value, r2 := InputBegins(r1);
      hide NodeBytes, NodeValid, Placed;
      var p, entries' := NodePair(key, value), [];
      Regroup(NodeBytes(key), NodeBytes(value), r2);
      assert PairValid(p) && PairPlaced(p, r2) && s == PairBytes(p) + r2;
      entries', rest := PairsBegin(r2, k - 1);
      hide PairBytes, PairValid, PairPlaced;
      entries := [p] + entries';
      assert entries[1..] == entries';
      Regroup(PairBytes(p), PairsBytes(entries'), rest);
    }
  }

  // ---- The theorem ----

  /** Every byte string is the bytes of a node and something behind it, which is nothing if the node is cut off; the
      decoder returns the object of the node and leaves what is behind it, or throws what the first part calls for that
      causes an exception. */
  lemma EveryInput(env: Env, s: Text) returns (n: Node, rest: Text)
    ensures NodeValid(n) && s == NodeBytes(n) + rest && Placed(n, rest)
    ensures UnpackAny(env, s) == Outcome(Fault(n), ObjectOf(env, n), rest)
  {
    n, rest := InputBegins(s);
    NodeDecodes(env, n, rest);
  }
}
