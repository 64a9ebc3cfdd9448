/** PE base relocations over a byte image: the walk of the .reloc table, applied and un-applied in place. */
module Relocations {

  import opened LittleEndian

  type Image = seq<byte>

  // ---- Fields of an image ----

  function Read(img: Image, a: nat, w: nat): nat
    requires a + w <= |img|
  {
    NumberOf(img[a..a + w])
  }

  function Patch(img: Image, a: nat, bytes: Image): (r: Image)
    requires a + |bytes| <= |img|
    ensures |r| == |img|
  {
    img[..a] + bytes + img[a + |bytes|..]
  }

  lemma ReadSame(x: Image, y: Image, a: nat, w: nat)
    requires a + w <= |x| && a + w <= |y| && forall i :: a <= i < a + w ==> x[i] == y[i]
    ensures Read(x, a, w) == Read(y, a, w)
  {
    assert x[a..a + w] == y[a..a + w];
  }

  lemma ReadPatch(img: Image, a: nat, v: nat, w: nat)
    requires a + w <= |img| && v < Pow256(w)
    ensures Read(Patch(img, a, Bytes(v, w)), a, w) == v
  {
    ValueBytes(v, w);
    assert Patch(img, a, Bytes(v, w))[a..a + w] == Bytes(v, w);
  }

  lemma PatchRead(img: Image, a: nat, w: nat)
    requires a + w <= |img|
    ensures Patch(img, a, Bytes(Read(img, a, w), w)) == img
  {
    BytesValue(img[a..a + w]);
    assert img == img[..a] + img[a..a + w] + img[a + w..];
  }

  // ---- One relocation ----

  /** A 4- or 8-byte field whose value is an address. */
  datatype Fixup = Fixup(addr: nat, width: nat)

  ghost predicate Inside(f: Fixup, n: nat) { f.addr + f.width <= n }

  ghost predicate Disjoint(f: Fixup, g: Fixup) {
    f.addr + f.width <= g.addr || g.addr + g.width <= f.addr
  }

  /** Additions to the two can change places: they share no byte, or a carry leaves both at the same byte. */
  ghost predicate Independent(f: Fixup, g: Fixup) {
    Disjoint(f, g) || f.addr + f.width == g.addr + g.width
  }

  /** Adds delta to the field, wrapping around at its width. */
  function AddAt(img: Image, f: Fixup, delta: int): (r: Image)
    requires Inside(f, |img|)
    ensures |r| == |img|
  {
    PowPositive(f.width);
    Patch(img, f.addr, Bytes((Read(img, f.addr, f.width) + delta) % Pow256(f.width), f.width))
  }

  lemma AddAtValue(img: Image, f: Fixup, delta: int)
    requires Inside(f, |img|) && Pow256(f.width) > 0
    ensures Read(AddAt(img, f, delta), f.addr, f.width) == (Read(img, f.addr, f.width) + delta) % Pow256(f.width)
    ensures forall i :: 0 <= i < |img| && !(f.addr <= i < f.addr + f.width) ==> AddAt(img, f, delta)[i] == img[i]
  {
    ReadPatch(img, f.addr, (Read(img, f.addr, f.width) + delta) % Pow256(f.width), f.width);
  }

  /** Wrapping in between makes no difference to a sum. */
  lemma WrapCompose(x: int, d: int, e: int, m: nat)
    requires m > 0
    ensures ((x + d) % m + e) % m == (x + d + e) % m
  {
    var q, y := (x + d) / m, (x + d) % m;
    var p, r := (y + e) / m, (y + e) % m;
    assert x + d == q * m + y && y + e == p * m + r;
    Distribute(q, p, m);
    ModUnique(x + d + e, q + p, r, m);
  }

  lemma Distribute(x: int, y: int, m: int)
    ensures (x + y) * m == x * m + y * m
  {
  }

  lemma AtLeastOne(k: int, m: nat)
    requires k >= 1
    ensures k * m >= m
  {
    Distribute(k - 1, 1, m);
    NonNegativeProduct(k - 1, m);
  }

  lemma NonNegativeProduct(x: nat, y: nat)
    ensures x * y >= 0
  {
  }

  lemma ModUnique(x: int, q: int, r: int, m: nat)
    requires m > 0 && x == q * m + r && 0 <= r < m
    ensures x % m == r
  {
    var p := x / m;
    assert x == p * m + x % m;
    if q > p {
      AtLeastOne(q - p, m);
      Distribute(q - p, p, m);
    } else if q < p {
      AtLeastOne(p - q, m);
      Distribute(p - q, q, m);
    }
  }

  lemma PatchTwice(img: Image, a: nat, x: Image, y: Image)
    requires a + |x| <= |img| && |x| == |y|
    ensures Patch(Patch(img, a, x), a, y) == Patch(img, a, y)
  {
    assert Patch(img, a, x)[..a] == img[..a];
    assert Patch(img, a, x)[a + |y|..] == img[a + |y|..];
  }

  /** Two additions to the same field are one. */
  lemma AddAtTwice(img: Image, f: Fixup, d: int, e: int)
    requires Inside(f, |img|)
    ensures AddAt(AddAt(img, f, d), f, e) == AddAt(img, f, d + e)
  {
    hide Read, Patch, Pow256, Bytes;
    PowPositive(f.width);
    AddAtValue(img, f, d);
    var v, m := Read(img, f.addr, f.width), Pow256(f.width);
    WrapCompose(v, d, e, m);
    PatchTwice(img, f.addr, Bytes((v + d) % m, f.width), Bytes((v + d + e) % m, f.width));
  }

  lemma AddAtZero(img: Image, f: Fixup)
    requires Inside(f, |img|)
    ensures AddAt(img, f, 0) == img
  {
    PowPositive(f.width);
    ValueBound(img[f.addr..f.addr + f.width]);
    ModUnique(Read(img, f.addr, f.width), 0, Read(img, f.addr, f.width), Pow256(f.width));
    PatchRead(img, f.addr, f.width);
  }

  /** The bytes an addition writes; they depend on the field alone. */
  ghost function AddBytes(img: Image, f: Fixup, delta: int): (r: Image)
    requires Inside(f, |img|)
    ensures |r| == f.width
  {
    PowPositive(f.width);
    Bytes((Read(img, f.addr, f.width) + delta) % Pow256(f.width), f.width)
  }

  lemma AddAtPatch(img: Image, f: Fixup, delta: int)
    requires Inside(f, |img|)
    ensures AddAt(img, f, delta) == Patch(img, f.addr, AddBytes(img, f, delta))
  {
  }

  lemma PatchRest(img: Image, a: nat, x: Image, b: nat, w: nat)
    requires a + |x| <= |img| && b + w <= |img| && (a + |x| <= b || b + w <= a)
    ensures Read(Patch(img, a, x), b, w) == Read(img, b, w)
  {
    ReadSame(Patch(img, a, x), img, b, w);
  }

  /** Adding to a field without its lowest byte is adding 256 times as much to the whole field. */
  lemma AddAboveLowest(img: Image, f: Fixup, d: int)
    requires Inside(f, |img|) && f.width > 0
    ensures AddAt(img, Fixup(f.addr + 1, f.width - 1), d) == AddAt(img, f, 256 * d)
  {
    var a, w := f.addr, f.width;
    var low, high, m := img[a], Read(img, a + 1, w - 1), Pow256(w - 1);
    PowPositive(w - 1);
    ReadFirst(img, a, w);
    assert Pow256(w) == 256 * m;
    hide Patch, Read, Bytes, Pow256;
    AddAboveLow(low, high, d, m);
    var v := (high + d) % m;
    BytesFirst(low, v, w);
    PatchFirst(img, a, Bytes(v, w - 1));
  }

  lemma BytesFirst(low: byte, v: nat, w: nat)
    requires w > 0
    ensures Bytes(low + 256 * v, w) == [low] + Bytes(v, w - 1)
  {
    var x := low + 256 * v;
    assert x % 256 == low && x / 256 == v;
  }

  lemma ReadFirst(img: Image, a: nat, w: nat)
    requires a + w <= |img| && w > 0
    ensures Read(img, a, w) == img[a] as int + 256 * Read(img, a + 1, w - 1)
  {
    assert img[a..a + w][1..] == img[a + 1..a + w];
  }

  lemma PatchFirst(img: Image, a: nat, x: Image)
    requires a + 1 + |x| <= |img|
    ensures Patch(img, a, [img[a]] + x) == Patch(img, a + 1, x)
  {
    assert img[..a] + ([img[a]] + x) == img[..a + 1] + x;
  }

  lemma AddAboveLow(low: nat, high: nat, d: int, m: nat)
    requires low < 256 && m > 0
    ensures (low + 256 * high + 256 * d) % (256 * m) == low + 256 * ((high + d) % m)
  {
    var q, r := (high + d) / m, (high + d) % m;
    assert high + d == q * m + r;
    assert 256 * (q * m) == q * (256 * m);
    ModUnique(low + 256 * high + 256 * d, q, low + 256 * r, 256 * m);
  }

  /** Adding to the upper part of a field is adding a multiple to the whole field. */
  lemma {:induction false} AddToUpperPart(img: Image, f: Fixup, k: nat, d: int)
    requires Inside(f, |img|) && k <= f.width
    ensures AddAt(img, Fixup(f.addr + k, f.width - k), d) == AddAt(img, f, Pow256(k) * d)
    decreases k
  {
    if k == 0 {
      assert Pow256(0) * d == d;
    } else {
      AddToUpperPart(img, Fixup(f.addr + 1, f.width - 1), k - 1, d);
      AddAboveLowest(img, f, Pow256(k - 1) * d);
      assert 256 * (Pow256(k - 1) * d) == Pow256(k) * d;
    }
  }

  /** Additions to fields that are disjoint or end at the same byte can be done in either order. */
  lemma AddAtCommutes(img: Image, f: Fixup, d: int, g: Fixup, e: int)
    requires Inside(f, |img|) && Inside(g, |img|) && Independent(f, g)
    ensures AddAt(AddAt(img, f, d), g, e) == AddAt(AddAt(img, g, e), f, d)
  {
    if !Disjoint(f, g) {
      if f.addr <= g.addr {
        SameEndCommutes(img, f, d, g, e);
      } else {
        SameEndCommutes(img, g, e, f, d);
      }
    } else {
      AddAtPatch(img, f, d);
      AddAtPatch(img, g, e);
      var x, y := AddBytes(img, f, d), AddBytes(img, g, e);
      PatchRest(img, f.addr, x, g.addr, g.width);
      PatchRest(img, g.addr, y, f.addr, f.width);
      AddAtPatch(AddAt(img, f, d), g, e);
      AddAtPatch(AddAt(img, g, e), f, d);
      PatchCommutes(img, f.addr, x, g.addr, y);
    }
  }

  lemma SameEndCommutes(img: Image, f: Fixup, d: int, g: Fixup, e: int)
    requires Inside(f, |img|) && Inside(g, |img|) && f.addr <= g.addr && f.addr + f.width == g.addr + g.width
    ensures AddAt(AddAt(img, f, d), g, e) == AddAt(AddAt(img, g, e), f, d)
  {
    hide AddAt;
    var k := g.addr - f.addr;
    var e' := Pow256(k) * e;
    assert g == Fixup(f.addr + k, f.width - k);
    AddToUpperPart(img, f, k, e);
    AddToUpperPart(AddAt(img, f, d), f, k, e);
    AddAtTwice(img, f, d, e');
    AddAtTwice(img, f, e', d);
  }

  lemma PatchCommutes(img: Image, a: nat, x: Image, b: nat, y: Image)
    requires a + |x| <= |img| && b + |y| <= |img| && (a + |x| <= b || b + |y| <= a)
    ensures Patch(Patch(img, a, x), b, y) == Patch(Patch(img, b, y), a, x)
  {
    var l, r := Patch(Patch(img, a, x), b, y), Patch(Patch(img, b, y), a, x);
    forall i | 0 <= i < |img| ensures l[i] == r[i] {
      if a <= i < a + |x| {
        assert Patch(img, a, x)[i] == x[i - a];
      } else if b <= i < b + |y| {
        assert Patch(img, b, y)[i] == y[i - b];
      }
    }
  }

  // ---- A list of relocations ----

  ghost predicate AllInside(fs: seq<Fixup>, n: nat) {
    forall i :: 0 <= i < |fs| ==> Inside(fs[i], n)
  }

  /** Fields of the list are pairwise disjoint or end at the same byte. */
  ghost predicate Compatible(fs: seq<Fixup>) {
    forall i, j :: 0 <= i < j < |fs| ==> Independent(fs[i], fs[j])
  }

  function AddAll(img: Image, fs: seq<Fixup>, delta: int): (r: Image)
    requires AllInside(fs, |img|)
    ensures |r| == |img|
    decreases |fs|
  {
    if fs == [] then img else AddAll(AddAt(img, fs[0], delta), fs[1..], delta)
  }

  lemma {:induction false} AddAtThroughAll(img: Image, f: Fixup, e: int, fs: seq<Fixup>, d: int)
    requires Inside(f, |img|) && AllInside(fs, |img|)
    requires forall i :: 0 <= i < |fs| ==> Independent(f, fs[i])
    ensures AddAt(AddAll(img, fs, d), f, e) == AddAll(AddAt(img, f, e), fs, d)
    decreases |fs|
  {
    if fs == [] {
    } else {
      AddAtCommutes(img, f, e, fs[0], d);
      AddAtThroughAll(AddAt(img, fs[0], d), f, e, fs[1..], d);
    }
  }

  /** Adding a list of fields twice, in the same order, adds the sum of the two offsets. */
  lemma {:induction false} AddAllTwice(img: Image, fs: seq<Fixup>, d: int, e: int)
    requires AllInside(fs, |img|) && Compatible(fs)
    ensures AddAll(AddAll(img, fs, d), fs, e) == AddAll(img, fs, d + e)
    decreases |fs|
  {
    if fs == [] {
    } else {
      var f, rest := fs[0], fs[1..];
      AddAtThroughAll(AddAt(img, f, d), f, e, rest, d);
      AddAtTwice(img, f, d, e);
      AddAllTwice(AddAt(img, f, d + e), rest, d, e);
    }
  }

  lemma {:induction false} AddAllZero(img: Image, fs: seq<Fixup>)
    requires AllInside(fs, |img|)
    ensures AddAll(img, fs, 0) == img
    decreases |fs|
  {
    if fs == [] {
    } else {
      AddAtZero(img, fs[0]);
      AddAllZero(img, fs[1..]);
    }
  }

  /** Bytes outside all fields do not change. */
  lemma {:induction false} AddAllFrame(img: Image, fs: seq<Fixup>, d: int, i: nat)
    requires AllInside(fs, |img|) && i < |img|
    requires forall k :: 0 <= k < |fs| ==> !(fs[k].addr <= i < fs[k].addr + fs[k].width)
    ensures AddAll(img, fs, d)[i] == img[i]
    decreases |fs|
  {
    if fs == [] {
    } else {
      AddAllFrame(AddAt(img, fs[0], d), fs[1..], d, i);
      PowPositive(fs[0].width);
      AddAtValue(img, fs[0], d);
    }
  }

  lemma AddAtElsewhere(img: Image, f: Fixup, g: Fixup, d: int)
    requires Inside(f, |img|) && Inside(g, |img|) && Disjoint(f, g)
    ensures Read(AddAt(img, f, d), g.addr, g.width) == Read(img, g.addr, g.width)
  {
    PowPositive(f.width);
    AddAtValue(img, f, d);
    ReadSame(AddAt(img, f, d), img, g.addr, g.width);
  }

  lemma AddAllKeepsField(img: Image, f: Fixup, fs: seq<Fixup>, d: int)
    requires Inside(f, |img|) && AllInside(fs, |img|) && forall j :: 0 <= j < |fs| ==> Disjoint(f, fs[j])
    ensures Read(AddAll(img, fs, d), f.addr, f.width) == Read(img, f.addr, f.width)
  {
    forall i | f.addr <= i < f.addr + f.width ensures AddAll(img, fs, d)[i] == img[i] {
      AddAllFrame(img, fs, d, i);
    }
    ReadSame(AddAll(img, fs, d), img, f.addr, f.width);
  }

  /** What an addition leaves in a field depends on the field alone. */
  lemma AddAtSame(x: Image, y: Image, g: Fixup, d: int)
    requires Inside(g, |x|) && |x| == |y| && Read(x, g.addr, g.width) == Read(y, g.addr, g.width)
    ensures Read(AddAt(x, g, d), g.addr, g.width) == Read(AddAt(y, g, d), g.addr, g.width)
  {
    hide Read, AddAt;
    PowPositive(g.width);
    AddAtValue(x, g, d);
    AddAtValue(y, g, d);
  }

  lemma {:induction false} AddAllField(img: Image, fs: seq<Fixup>, d: int, k: nat)
    requires AllInside(fs, |img|) && k < |fs|
    requires forall i, j :: 0 <= i < j < |fs| ==> Disjoint(fs[i], fs[j])
    ensures Read(AddAll(img, fs, d), fs[k].addr, fs[k].width) == Read(AddAt(img, fs[k], d), fs[k].addr, fs[k].width)
    decreases |fs|
  {
    var f, g := fs[0], fs[k];
    hide Read, AddAt;
    if k == 0 {
      forall j | 0 <= j < |fs[1..]| ensures Disjoint(f, fs[1..][j]) {
        assert Disjoint(fs[0], fs[j + 1]);
      }
      AddAllKeepsField(AddAt(img, f, d), f, fs[1..], d);
    } else {
      assert Disjoint(f, g);
      AddAtElsewhere(img, f, g, d);
      AddAtSame(AddAt(img, f, d), img, g, d);
      AddAllField(AddAt(img, f, d), fs[1..], d, k - 1);
    }
  }

  /** When the fields are disjoint, each field ends up with its own value plus delta, wrapped at its width. */
  lemma AddAllValue(img: Image, fs: seq<Fixup>, d: int, k: nat)
    requires AllInside(fs, |img|) && k < |fs| && Pow256(fs[k].width) > 0
    requires forall i, j :: 0 <= i < j < |fs| ==> Disjoint(fs[i], fs[j])
    ensures |AddAll(img, fs, d)| == |img|
    ensures Read(AddAll(img, fs, d), fs[k].addr, fs[k].width)
      == (Read(img, fs[k].addr, fs[k].width) + d) % Pow256(fs[k].width)
  {
    hide Read, AddAt, AddAll, Disjoint;
    AddAllField(img, fs, d, k);
    AddAtValue(img, fs[k], d);
  }

  // ---- The table ----

  const ABSOLUTE := 0
  const HIGHLOW := 3
  const DIR64 := 10

  /** What a walk of the table finds: the fields in order, whether it got past every entry, and the
      position after the last block it looked at. */
  datatype Walk = Malformed | Walk(fixups: seq<Fixup>, complete: bool, stop: nat)

  function EntryType(entry: nat): nat { entry / 4096 }

  /** Entry offset plus block address, in 32-bit arithmetic. */
  function EntryRva(entry: nat, va: nat): nat { (entry % 4096 + va) % 0x1_0000_0000 }

  /** The entries of one block from the k-th on; an unknown type ends the walk. */
  function Entries(img: Image, at: nat, va: nat, n: nat): (seq<Fixup>, bool)
    requires at + 2 * n <= |img|
    decreases n
  {
    if n == 0 then ([], true)
    else
      var entry := Read(img, at, 2);
      var t := EntryType(entry);
      if t != HIGHLOW && t != DIR64 && t != ABSOLUTE then ([], false)
      else
        var rest := Entries(img, at + 2, va, n - 1);
        if t == ABSOLUTE then rest
        else ([Fixup(EntryRva(entry, va), if t == HIGHLOW then 4 else 8)] + rest.0, rest.1)
  }

  /** The block header's two fields. */
  function BlockAddress(img: Image, pos: nat): nat
    requires pos + 8 <= |img|
  {
    Read(img, pos, 4)
  }

  function BlockSize(img: Image, pos: nat): nat
    requires pos + 8 <= |img|
  {
    Read(img, pos + 4, 4)
  }

  function EntryCount(size: nat): nat
    requires size >= 8
  {
    (size - 8) / 2
  }

  ghost predicate HasBlock(img: Image, pos: nat) {
    pos + 8 <= |img| && 8 <= BlockSize(img, pos) && pos + BlockSize(img, pos) <= |img|
  }

  function Block(img: Image, pos: nat): (seq<Fixup>, bool)
    requires HasBlock(img, pos)
  {
    Entries(img, pos + 8, BlockAddress(img, pos), EntryCount(BlockSize(img, pos)))
  }

  ghost function Table(img: Image, pos: nat, end: nat): Walk
    decreases |img| - pos
  {
    if pos >= end then Walk([], true, pos)
    else if pos + 8 > |img| then Malformed
    else if BlockSize(img, pos) == 0 then Walk([], true, pos + 8)
    else if !HasBlock(img, pos) then Malformed
    else
      var next := pos + BlockSize(img, pos);
      if !Block(img, pos).1 then Walk(Block(img, pos).0, false, next)
      else
        match Table(img, next, end)
        case Malformed => Malformed
        case Walk(more, complete, stop) => Walk(Block(img, pos).0 + more, complete, stop)
  }

  lemma {:induction false} EntriesSame(x: Image, y: Image, at: nat, va: nat, n: nat)
    requires at + 2 * n <= |x| && |x| == |y| && forall i :: at <= i < at + 2 * n ==> x[i] == y[i]
    ensures Entries(x, at, va, n) == Entries(y, at, va, n)
    decreases n
  {
    if n == 0 {
    } else {
      ReadSame(x, y, at, 2);
      EntriesSame(x, y, at + 2, va, n - 1);
    }
  }

  lemma {:induction false} TableStop(img: Image, pos: nat, end: nat)
    requires Table(img, pos, end).Walk?
    ensures pos <= Table(img, pos, end).stop && (pos < end ==> pos + 8 <= Table(img, pos, end).stop <= |img|)
    ensures pos < end && BlockSize(img, pos) != 0 ==>
      HasBlock(img, pos) && pos + BlockSize(img, pos) <= Table(img, pos, end).stop
    decreases |img| - pos
  {
    hide BlockSize, Block;
    if pos < end && BlockSize(img, pos) != 0 && Block(img, pos).1 {
      TableStop(img, pos + BlockSize(img, pos), end);
    }
  }

  lemma BlockSame(x: Image, y: Image, pos: nat)
    requires |x| == |y| && pos + 8 <= |x| && forall i :: pos <= i < pos + 8 ==> x[i] == y[i]
    ensures BlockSize(x, pos) == BlockSize(y, pos) && BlockAddress(x, pos) == BlockAddress(y, pos)
    ensures HasBlock(x, pos) && (forall i :: pos <= i < pos + BlockSize(x, pos) ==> x[i] == y[i]) ==>
      HasBlock(y, pos) && Block(x, pos) == Block(y, pos)
  {
    ReadSame(x, y, pos, 4);
    ReadSame(x, y, pos + 4, 4);
    hide Read;
    if HasBlock(x, pos) && (forall i :: pos <= i < pos + BlockSize(x, pos) ==> x[i] == y[i]) {
      EntriesSame(x, y, pos + 8, BlockAddress(x, pos), EntryCount(BlockSize(x, pos)));
    }
  }

  /** The walk depends only on the bytes it looks at. */
  lemma {:induction false} TableSame(x: Image, y: Image, pos: nat, end: nat)
    requires |x| == |y| && Table(x, pos, end).Walk?
    requires forall i :: pos <= i < Table(x, pos, end).stop && i < |x| ==> x[i] == y[i]
    ensures Table(x, pos, end) == Table(y, pos, end)
    decreases |x| - pos
  {
    hide BlockSize, Block;
    if pos >= end {
    } else {
      TableStop(x, pos, end);
      BlockSame(x, y, pos);
      if BlockSize(x, pos) != 0 && Block(x, pos).1 {
        TableSame(x, y, pos + BlockSize(x, pos), end);
      }
    }
  }

  /** A table that can be walked, with all fields in the image and none inside the table itself. */
  ghost predicate Relocatable(img: Image, start: nat, end: nat) {
    var w := Table(img, start, end);
    w.Walk? && AllInside(w.fixups, |img|) && Outside(w.fixups, start, w.stop)
  }

  ghost predicate Outside(fs: seq<Fixup>, lo: nat, hi: nat) {
    forall k :: 0 <= k < |fs| ==> fs[k].addr + fs[k].width <= lo || hi <= fs[k].addr
  }

  /** The image after every field of the table has been moved by delta. */
  ghost function Relocated(img: Image, start: nat, end: nat, delta: int): Image
    requires Relocatable(img, start, end)
  {
    AddAll(img, Table(img, start, end).fixups, delta)
  }

  /** Relocating does not change the table, whether or not the walk gets to its end. */
  lemma RelocatedTable(img: Image, start: nat, end: nat, delta: int)
    requires Relocatable(img, start, end)
    ensures Table(Relocated(img, start, end, delta), start, end) == Table(img, start, end)
    ensures Relocatable(Relocated(img, start, end, delta), start, end)
  {
    var w := Table(img, start, end);
    var r := Relocated(img, start, end, delta);
    forall i | start <= i < w.stop && i < |img| ensures img[i] == r[i] {
      AddAllFrame(img, w.fixups, delta, i);
    }
    TableSame(img, r, start, end);
  }

  /** Relocating by d and then by e is relocating by d + e; so relocating back by -d restores every byte. */
  lemma RelocateBack(img: Image, start: nat, end: nat, d: int, e: int)
    requires Relocatable(img, start, end) && Compatible(Table(img, start, end).fixups)
    ensures Relocatable(Relocated(img, start, end, d), start, end)
    ensures Relocated(Relocated(img, start, end, d), start, end, e) == Relocated(img, start, end, d + e)
    ensures Relocated(img, start, end, 0) == img
  {
    RelocatedTable(img, start, end, d);
    AddAllTwice(img, Table(img, start, end).fixups, d, e);
    AddAllZero(img, Table(img, start, end).fixups);
  }

  function Backwards(fs: seq<Fixup>): (r: seq<Fixup>)
    ensures |r| == |fs| && (forall k :: 0 <= k < |r| ==> r[k] == fs[|fs| - 1 - k])
  {
    if fs == [] then [] else Backwards(fs[1..]) + [fs[0]]
  }

  /** Undoing the fields in the opposite order restores every image, however the fields overlap; it is the one order
      of both walks that makes overlapping a matter. */
  lemma {:induction false} BackwardsUndoes(img: Image, fs: seq<Fixup>, d: int)
    requires AllInside(fs, |img|)
    ensures AddAll(AddAll(img, fs, d), Backwards(fs), -d) == img
    decreases |fs|
  {
    if fs == [] {
    } else {
      var f, rest, back := fs[0], fs[1..], Backwards(fs[1..]);
      var moved := AddAt(img, f, d);
      BackwardsUndoes(moved, rest, d);
      AddAllAppend(AddAll(moved, rest, d), back, [f], -d);
      assert [f][1..] == [];
      AddNothing(AddAt(moved, f, -d), -d);
      AddAtTwice(img, f, d, -d);
      AddAtZero(img, f);
    }
  }

  /** A table of one block with two 4-byte entries, for the fields at 0 and at 1. */
  const OVERLAPPING: Image := [0, 0, 0, 0, 12, 0, 0, 0, 0, 0x30, 1, 0x30]

  /** Five bytes of data, then that table. */
  function OverlapImage(data: Image): Image
    requires |data| == 5
  {
    data + OVERLAPPING
  }

  lemma OverlapTable(data: Image)
    requires |data| == 5
    ensures var img := OverlapImage(data);
      Table(img, 5, 17) == Walk([Fixup(0, 4), Fixup(1, 4)], true, 17) && Relocatable(img, 5, 17)
  {
    var img := OverlapImage(data);
    OverlapHeader(img, data);
    TwoEntries(img);
    hide Read;
    assert Table(img, 17, 17) == Walk([], true, 17);
  }

  lemma OverlapHeader(img: Image, data: Image)
    requires |data| == 5 && img == OverlapImage(data)
    ensures |img| == 17 && BlockAddress(img, 5) == 0 && BlockSize(img, 5) == 12
    ensures Read(img, 13, 2) == 0x3000 && Read(img, 15, 2) == 0x3001
  {
    assert img[5..9] == [0, 0, 0, 0] && img[9..13] == [12, 0, 0, 0];
    ValueFour(img[5..9]);
    ValueFour(img[9..13]);
    assert img[13..15] == [0, 0x30] && img[15..17] == [1, 0x30];
    ValueTwo(0, 0x30);
    ValueTwo(1, 0x30);
  }

  lemma ValueTwo(low: byte, high: byte)
    ensures NumberOf([low, high]) == low + 256 * high
  {
    assert [low, high][1..] == [high] && [high][1..] == [];
    assert NumberOf([high]) == high as int;
  }

  lemma TwoEntries(img: Image)
    requires |img| == 17 && Read(img, 13, 2) == 0x3000 && Read(img, 15, 2) == 0x3001
    ensures Entries(img, 13, 0, 2) == ([Fixup(0, 4), Fixup(1, 4)], true)
  {
    hide Read;
    var last: seq<Fixup> := [Fixup(1, 4)];
    assert EntryType(0x3000) == EntryType(0x3001) == HIGHLOW && EntryRva(0x3000, 0) == 0 && EntryRva(0x3001, 0) == 1;
    assert Entries(img, 17, 0, 0) == ([], true);
    assert last + [] == last;
    assert Entries(img, 15, 0, 1) == (last + [], true);
    assert [Fixup(0, 4)] + last == [Fixup(0, 4), Fixup(1, 4)];
  }

  /** Fields that overlap and end at different bytes need not come back: the carry of one runs past the end of the
      other, and un-applying and applying again leaves a byte changed. */
  lemma OverlapDoesNotComeBack()
    ensures var img, there := OverlapImage([0, 0, 0, 0, 0]), OverlapImage([255, 254, 255, 255, 0]);
      && Relocatable(img, 5, 17) && Relocated(img, 5, 17, -1) == there
      && Relocatable(there, 5, 17) && Relocated(there, 5, 17, 1) == OverlapImage([0, 0, 0, 0, 1]) != img
  {
    hide AddAt, Table, Relocatable;
    var f, g := Fixup(0, 4), Fixup(1, 4);
    var i0 := OverlapImage([0, 0, 0, 0, 0]);
    var i1 := OverlapImage([255, 255, 255, 255, 0]);
    var i2 := OverlapImage([255, 254, 255, 255, 0]);
    var i3 := OverlapImage([0, 255, 255, 255, 0]);
    var i4 := OverlapImage([0, 0, 0, 0, 1]);
    OverlapTable([0, 0, 0, 0, 0]);
    OverlapTable([255, 254, 255, 255, 0]);
    AddInData([0, 0, 0, 0, 0], 0, -1, [255, 255, 255, 255, 0]);
    AddInData([255, 255, 255, 255, 0], 1, -1, [255, 254, 255, 255, 0]);
    AddInData([255, 254, 255, 255, 0], 0, 1, [0, 255, 255, 255, 0]);
    AddInData([0, 255, 255, 255, 0], 1, 1, [0, 0, 0, 0, 1]);
    assert i0[4] != i4[4];
    hide OverlapImage;
    AddTwo(i0, f, g, -1);
    AddTwo(i2, f, g, 1);
  }

  lemma AddTwo(img: Image, f: Fixup, g: Fixup, d: int)
    requires Inside(f, |img|) && Inside(g, |img|)
    ensures AddAll(img, [f, g], d) == AddAt(AddAt(img, f, d), g, d)
  {
    hide AddAt;
    assert [f, g][1..] == [g] && [g][1..] == [];
    assert AddAll(AddAt(img, f, d), [g], d) == AddAll(AddAt(AddAt(img, f, d), g, d), [], d);
  }

  lemma AddInData(x: Image, a: nat, d: int, y: Image)
    requires |x| == 5 == |y| && a <= 1 && x[..a] == y[..a] && x[a + 4..] == y[a + 4..]
    requires Four(y[a..a + 4]) == (Four(x[a..a + 4]) + d) % 0x1_0000_0000
    ensures AddAt(OverlapImage(x), Fixup(a, 4), d) == OverlapImage(y)
  {
    var p, q := OverlapImage(x), OverlapImage(y);
    assert p[..a] == x[..a] && q[..a] == y[..a] && p[a..a + 4] == x[a..a + 4] && q[a..a + 4] == y[a..a + 4];
    assert p[a + 4..] == x[a + 4..] + OVERLAPPING && q[a + 4..] == y[a + 4..] + OVERLAPPING;
    hide Four, OverlapImage;
    AddFour(p, a, d, q);
  }

  /** Adding to a 4-byte field, checked on the numbers. */
  lemma AddFour(x: Image, a: nat, d: int, y: Image)
    requires |x| == |y| && a + 4 <= |x| && x[..a] == y[..a] && x[a + 4..] == y[a + 4..]
    requires Four(y[a..a + 4]) == (Four(x[a..a + 4]) + d) % 0x1_0000_0000
    ensures AddAt(x, Fixup(a, 4), d) == y
  {
    ValueFour(x[a..a + 4]);
    ValueFour(y[a..a + 4]);
    BytesValue(y[a..a + 4]);
    assert Pow256(4) == 0x1_0000_0000;
    assert y == y[..a] + y[a..a + 4] + y[a + 4..];
  }

  function Four(x: Image): int
    requires |x| == 4
  {
    x[0] as int + 256 * x[1] as int + 65536 * x[2] as int + 16777216 * x[3] as int
  }

  lemma ValueFour(x: Image)
    requires |x| == 4
    ensures NumberOf(x) == Four(x)
  {
    assert x[1..][1..] == x[2..] && x[2..][1..] == x[3..] && x[3..][1..] == [];
    assert NumberOf(x[3..]) == x[3] as int;
    assert NumberOf(x[2..]) == x[2] as int + 256 * NumberOf(x[3..]);
    assert NumberOf(x[1..]) == x[1] as int + 256 * NumberOf(x[2..]);
  }

  // ---- In place ----

  method AddInPlace(img: array<byte>, f: Fixup, delta: int)
    requires Inside(f, img.Length)
    modifies img
    ensures img[..] == AddAt(old(img[..]), f, delta)
  {
    PowPositive(f.width);
    var v := (Read(img[..], f.addr, f.width) + delta) % Pow256(f.width);
    WriteBytes(img, f.addr, v, f.width);
  }

  /** A number, byte by byte, lowest first. */
  method WriteBytes(img: array<byte>, a: nat, v: nat, w: nat)
    requires a + w <= img.Length
    modifies img
    ensures img[..] == Patch(old(img[..]), a, Bytes(v, w))
  {
    ghost var before, bytes := img[..], Bytes(v, w);
    var rest := v;
    for i := 0 to w
      invariant img[..] == Patch(before, a, bytes[..i]) && Bytes(rest, w - i) == bytes[i..]
    {
      NextByte(before, a, bytes, i, rest);
      hide Patch, Bytes;
      img[a + i] := rest % 256;
      rest := rest / 256;
    }
    assert bytes[..w] == bytes;
  }

  lemma NextByte(before: Image, a: nat, bytes: Image, i: nat, rest: nat)
    requires i < |bytes| && a + |bytes| <= |before| && Bytes(rest, |bytes| - i) == bytes[i..]
    ensures bytes[i] == rest % 256 && Bytes(rest / 256, |bytes| - (i + 1)) == bytes[i + 1..]
    ensures Patch(before, a, bytes[..i + 1]) == Patch(before, a, bytes[..i])[a + i := bytes[i]]
  {
    assert bytes[i..][0] == bytes[i] && bytes[i..][1..] == bytes[i + 1..];
    hide Bytes;
  }

  ghost predicate Agree(x: Image, y: Image, lo: nat, hi: nat) {
    |x| == |y| && forall i :: lo <= i < hi && i < |x| ==> x[i] == y[i]
  }

  lemma AddAtAgrees(img: Image, f: Fixup, d: int, lo: nat, hi: nat)
    requires Inside(f, |img|) && (f.addr + f.width <= lo || hi <= f.addr)
    ensures Agree(AddAt(img, f, d), img, lo, hi)
  {
    PowPositive(f.width);
    AddAtValue(img, f, d);
  }

  lemma AddAllAgrees(img: Image, fs: seq<Fixup>, d: int, lo: nat, hi: nat)
    requires AllInside(fs, |img|) && Outside(fs, lo, hi)
    ensures Agree(AddAll(img, fs, d), img, lo, hi)
  {
    forall i | lo <= i < hi && i < |img| ensures AddAll(img, fs, d)[i] == img[i] {
      AddAllFrame(img, fs, d, i);
    }
  }

  lemma {:induction false} AddAllAppend(img: Image, a: seq<Fixup>, b: seq<Fixup>, d: int)
    requires AllInside(a, |img|) && AllInside(b, |img|)
    ensures AllInside(a + b, |img|) && AddAll(img, a + b, d) == AddAll(AddAll(img, a, d), b, d)
    decreases |a|
  {
    if a == [] {
      assert a + b == b;
    } else {
      assert (a + b)[1..] == a[1..] + b;
      AddAllAppend(AddAt(img, a[0], d), a[1..], b, d);
    }
  }

  /** A block with n entries left, from position at on: what is left to add makes up the difference, and
      the bytes of the table are still the original ones. */
  ghost predicate BlockLeft(img0: Image, img: Image, all: (seq<Fixup>, bool), at: nat, va: nat, n: nat, lo: nat,
                            hi: nat, d: int) {
    && lo <= at && at + 2 * n <= hi <= |img0| && Agree(img, img0, lo, hi) && AllInside(all.0, |img0|)
    && var left := Entries(img0, at, va, n);
       && AllInside(left.0, |img0|) && Outside(left.0, lo, hi)
       && AddAll(img0, all.0, d) == AddAll(img, left.0, d) && all.1 == left.1
  }

  lemma BlockStep(img0: Image, img: Image, all: (seq<Fixup>, bool), at: nat, va: nat, n: nat, lo: nat, hi: nat, d: int)
    requires BlockLeft(img0, img, all, at, va, n, lo, hi, d) && n > 0
    ensures at + 2 <= |img| == |img0| && AllInside(all.0, |img0|)
    ensures var entry := Read(img, at, 2);
      var t, f := EntryType(entry), Fixup(EntryRva(entry, va), if EntryType(entry) == HIGHLOW then 4 else 8);
      if t == HIGHLOW || t == DIR64 then
        Inside(f, |img|) && BlockLeft(img0, AddAt(img, f, d), all, at + 2, va, n - 1, lo, hi, d)
      else if t == ABSOLUTE then BlockLeft(img0, img, all, at + 2, va, n - 1, lo, hi, d)
      else !all.1 && img == AddAll(img0, all.0, d)
  {
    ReadSame(img, img0, at, 2);
    hide Read, AddAt;
    var left := Entries(img0, at, va, n);
    if left.0 != [] {
      AddFirst(img, left.0, d, lo, hi);
    }
  }

  lemma BlockDone(img0: Image, img: Image, all: (seq<Fixup>, bool), at: nat, va: nat, lo: nat, hi: nat, d: int)
    requires BlockLeft(img0, img, all, at, va, 0, lo, hi, d)
    ensures all.1 && |img| == |img0| && AllInside(all.0, |img0|) && img == AddAll(img0, all.0, d)
  {
  }

  /** The entries of one block. */
  method RelocateBlock(img: array<byte>, relocation: nat, relocOffset: int, a: bool) returns (known: bool)
    requires HasBlock(img[..], relocation) && AllInside(Block(img[..], relocation).0, img.Length)
    requires Outside(Block(img[..], relocation).0, relocation + 8, relocation + BlockSize(img[..], relocation))
    modifies img
    ensures known == old(Block(img[..], relocation).1)
    ensures img[..] == old(AddAll(img[..], Block(img[..], relocation).0, if a then relocOffset else -relocOffset))
  {
    hide BlockLeft, AddAt, AddAll, Entries, BlockSize, BlockAddress, Block, Read, EntryCount, AllInside, Outside;
    var numRelocations, va := EntryCount(BlockSize(img[..], relocation)), BlockAddress(img[..], relocation);
    var relocStart := relocation + 8;
    ghost var img0, delta := img[..], if a then relocOffset else -relocOffset;
    ghost var all := Block(img0, relocation);
    ghost var hi := relocation + BlockSize(img0, relocation);
    BlockBegins(img0, relocation, delta);
    for i := 0 to numRelocations
      invariant BlockLeft(img0, img[..], all, relocStart + 2 * i, va, numRelocations - i, relocStart, hi, delta)
    {
      BlockStep(img0, img[..], all, relocStart + 2 * i, va, numRelocations - i, relocStart, hi, delta);
      var entry := Read(img[..], relocStart + 2 * i, 2);
      var t := EntryType(entry);
      var addr := EntryRva(entry, va);
      if t == HIGHLOW {
        AddInPlace(img, Fixup(addr, 4), if a then relocOffset else -relocOffset);
      } else if t == DIR64 {
        AddInPlace(img, Fixup(addr, 8), if a then relocOffset else -relocOffset);
      } else if t != ABSOLUTE {
        return false;
      }
    }
    BlockDone(img0, img[..], all, relocStart + 2 * numRelocations, va, relocStart, hi, delta);
    return true;
  }

  lemma BlockBegins(img: Image, pos: nat, d: int)
    requires HasBlock(img, pos) && AllInside(Block(img, pos).0, |img|)
      && Outside(Block(img, pos).0, pos + 8, pos + BlockSize(img, pos))
    ensures BlockLeft(img, img, Block(img, pos), pos + 8, BlockAddress(img, pos), EntryCount(BlockSize(img, pos)),
                      pos + 8, pos + BlockSize(img, pos), d)
  {
  }

  lemma AddNothing(img: Image, d: int)
    ensures AddAll(img, [], d) == img
  {
  }

  lemma AddFirst(img: Image, fs: seq<Fixup>, d: int, lo: nat, hi: nat)
    requires fs != [] && AllInside(fs, |img|) && Outside(fs, lo, hi)
    ensures AllInside(fs[1..], |img|) && Outside(fs[1..], lo, hi) && Inside(fs[0], |img|)
    ensures AddAll(img, fs, d) == AddAll(AddAt(img, fs[0], d), fs[1..], d)
    ensures Agree(AddAt(img, fs[0], d), img, lo, hi)
  {
    AddAtAgrees(img, fs[0], d, lo, hi);
  }

  /** A table walked up to pos: what is left to add makes up the difference. */
  ghost predicate TableLeft(img0: Image, img: Image, all: Walk, pos: nat, end: nat, lo: nat, d: int) {
    && lo <= pos && all.Walk? && AllInside(all.fixups, |img0|) && Agree(img, img0, lo, all.stop)
    && var left := Table(img0, pos, end);
       && left.Walk? && left.stop == all.stop && left.complete == all.complete
       && AllInside(left.fixups, |img0|) && Outside(left.fixups, lo, all.stop)
       && AddAll(img0, all.fixups, d) == AddAll(img, left.fixups, d)
  }

  lemma TableBegins(img: Image, start: nat, end: nat, d: int)
    requires Relocatable(img, start, end)
    ensures TableLeft(img, img, Table(img, start, end), start, end, start, d)
  {
  }

  /** Past the end of the table or at an empty block the walk is complete and everything has been added. */
  lemma TableEnds(img0: Image, img: Image, all: Walk, pos: nat, end: nat, lo: nat, d: int)
    requires TableLeft(img0, img, all, pos, end, lo, d)
    ensures |img| == |img0| && (pos < end ==> pos + 8 <= |img|) && all.Walk? && AllInside(all.fixups, |img0|)
    ensures pos >= end || BlockSize(img, pos) == 0 ==> all.complete && img == AddAll(img0, all.fixups, d)
  {
    TableStop(img0, pos, end);
    if pos < end {
      BlockSame(img0, img, pos);
    }
    hide BlockSize, Block;
    AddNothing(img, d);
  }

  /** A block that is not empty: its entries, then what is left. */
  lemma TableBlock(img0: Image, img: Image, all: Walk, pos: nat, end: nat, lo: nat, d: int)
    requires TableLeft(img0, img, all, pos, end, lo, d) && pos < end && pos + 8 <= |img| && BlockSize(img, pos) != 0
    ensures |img| == |img0| && all.Walk? && AllInside(all.fixups, |img0|) && HasBlock(img, pos)
    ensures var block, next := Block(img, pos), pos + BlockSize(img, pos);
      && AllInside(block.0, |img|) && Outside(block.0, pos + 8, next)
      && (block.1 ==> TableLeft(img0, AddAll(img, block.0, d), all, next, end, lo, d))
      && (!block.1 ==> !all.complete && AddAll(img, block.0, d) == AddAll(img0, all.fixups, d))
  {
    hide BlockSize, Block, AddAll, AddAt;
    TableStop(img0, pos, end);
    BlockSame(img0, img, pos);
    var block, next := Block(img0, pos), pos + BlockSize(img0, pos);
    var rest := if block.1 then Table(img0, next, end).fixups else [];
    if block.1 {
      TableStop(img0, next, end);
    }
    assert block.0 + [] == block.0;
    assert Table(img0, pos, end).fixups == block.0 + rest;
    FixupParts(block.0, rest, |img0|, lo, all.stop);
    OutsideInner(block.0, lo, all.stop, pos + 8, next);
    AddAllAppend(img, block.0, rest, d);
    AddAllAgrees(img, block.0, d, lo, all.stop);
    AddNothing(AddAll(img, block.0, d), d);
  }

  /** The blocks of the table, until its end, an empty block or an unknown entry type. */
  method RelocateTable(img: array<byte>, start: nat, end: nat, relocOffset: int, a: bool) returns (complete: bool)
    requires Relocatable(img[..], start, end)
    modifies img
    ensures complete == old(Table(img[..], start, end).complete)
    ensures img[..] == old(Relocated(img[..], start, end, if a then relocOffset else -relocOffset))
  {
    ghost var img0, delta := img[..], if a then relocOffset else -relocOffset;
    ghost var all := Table(img0, start, end);
    var relocation := start;
    TableBegins(img0, start, end, delta);
    hide Relocatable, TableLeft, Table, BlockSize, Block, AddAll, AddAt, AllInside, Outside, Agree, HasBlock, Read;
    while true
      invariant TableLeft(img0, img[..], all, relocation, end, start, delta)
      decreases |img0| - relocation
    {
      TableEnds(img0, img[..], all, relocation, end, start, delta);
      if relocation >= end {
        return true;
      }
      var sizeOfBlock := BlockSize(img[..], relocation);
      if sizeOfBlock == 0 {
        return true;
      }
      TableBlock(img0, img[..], all, relocation, end, start, delta);
      var known := RelocateBlock(img, relocation, relocOffset, a);
      if !known {
        return false;
      }
      relocation := relocation + sizeOfBlock;
    }
  }

  lemma OutsideInner(fs: seq<Fixup>, lo: nat, hi: nat, lo': nat, hi': nat)
    requires Outside(fs, lo, hi) && lo <= lo' && hi' <= hi
    ensures Outside(fs, lo', hi')
  {
  }

  lemma FixupParts(a: seq<Fixup>, b: seq<Fixup>, n: nat, lo: nat, hi: nat)
    requires AllInside(a + b, n) && Outside(a + b, lo, hi)
    ensures AllInside(a, n) && AllInside(b, n) && Outside(a, lo, hi) && Outside(b, lo, hi)
  {
    forall k | 0 <= k < |a| ensures Inside(a[k], n) && (a[k].addr + a[k].width <= lo || hi <= a[k].addr) {
      assert (a + b)[k] == a[k];
    }
    forall k | 0 <= k < |b| ensures Inside(b[k], n) && (b[k].addr + b[k].width <= lo || hi <= b[k].addr) {
      assert (a + b)[|a| + k] == b[k];
    }
  }

  /** Moves a freshly loaded image to where it was loaded. */
  method ApplyRelocations(img: array<byte>, start: nat, end: nat, relocOffset: int) returns (ok: bool)
    requires Relocatable(img[..], start, end)
    modifies img
    ensures img[..] == old(Relocated(img[..], start, end, relocOffset))
    ensures ok == (relocOffset == 0 || old(Table(img[..], start, end).complete))
  {
    if relocOffset == 0 {
      AddAllZero(img[..], Table(img[..], start, end).fixups);
      return true;
    }
    ok := RelocateTable(img, start, end, relocOffset, true);
  }

  /** Moves an image back to its preferred base (a is false) or forth again (a is true). */
  method UnapplyRelocations(img: array<byte>, start: nat, end: nat, relocOffset: int, a: bool)
    requires Relocatable(img[..], start, end)
    modifies img
    ensures img[..] == old(Relocated(img[..], start, end, if a then relocOffset else -relocOffset))
  {
    if relocOffset == 0 {
      AddAllZero(img[..], Table(img[..], start, end).fixups);
      return;
    }
    var complete := RelocateTable(img, start, end, relocOffset, a);
  }

  /** Taking a snapshot un-applies the relocations and applies them again: the image is back, byte for byte. */
  method UnapplyAndBack(img: array<byte>, start: nat, end: nat, relocOffset: int)
    requires Relocatable(img[..], start, end) && Compatible(Table(img[..], start, end).fixups)
    modifies img
    ensures img[..] == old(img[..])
  {
    RelocateBack(img[..], start, end, -relocOffset, relocOffset);
    UnapplyRelocations(img, start, end, relocOffset, false);
    UnapplyRelocations(img, start, end, relocOffset, true);
  }

  /** Un-applying undoes applying. */
  method ApplyAndUnapply(img: array<byte>, start: nat, end: nat, relocOffset: int)
    requires Relocatable(img[..], start, end) && Compatible(Table(img[..], start, end).fixups)
    modifies img
    ensures img[..] == old(img[..])
  {
    RelocateBack(img[..], start, end, relocOffset, -relocOffset);
    var ok := ApplyRelocations(img, start, end, relocOffset);
    UnapplyRelocations(img, start, end, relocOffset, false);
  }
}
