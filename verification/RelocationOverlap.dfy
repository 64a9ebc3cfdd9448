/** Which relocation tables come back: of the tables that list no field twice, exactly those whose fields are disjoint
    or end at the same byte. The proof finds, for any two fields that overlap and end at different bytes, an image
    and an offset that are not restored, whatever else the table lists. */
module RelocationOverlap {
  import opened LittleEndian
  import opened Relocations

  function End(f: Fixup): nat { f.addr + f.width }

  /** g overlaps f and runs past its end, so that it takes a carry on that f drops. */
  ghost predicate Clash(f: Fixup, g: Fixup) {
    f.width > 0 && g.addr < End(f) < End(g)
  }

  ghost predicate Clashes(fs: seq<Fixup>) {
    exists i, j :: 0 <= i < |fs| && 0 <= j < |fs| && Clash(fs[i], fs[j])
  }

  /** No field is listed twice; fields of no bytes do not matter. */
  ghost predicate Distinct(fs: seq<Fixup>) {
    forall i, j :: 0 <= i < j < |fs| && fs[i] == fs[j] ==> fs[i].width == 0
  }

  lemma ClashesExactly(fs: seq<Fixup>)
    requires forall i :: 0 <= i < |fs| ==> fs[i].width > 0
    ensures Clashes(fs) <==> !Compatible(fs)
  {
    if !Compatible(fs) {
      var i, j :| 0 <= i < j < |fs| && !Independent(fs[i], fs[j]);
      assert Clash(fs[i], fs[j]) || Clash(fs[j], fs[i]);
    }
    if Clashes(fs) {
      var i, j :| 0 <= i < |fs| && 0 <= j < |fs| && Clash(fs[i], fs[j]);
      assert !Independent(fs[i], fs[j]) && !Independent(fs[j], fs[i]) && i != j;
    }
  }

  // ---- Sums of different powers of 256 ----

  /** The sum of the powers below n whose exponents are in a. */
  function Total(a: set<nat>, n: nat): nat {
    if n == 0 then 0 else Total(a, n - 1) + if n - 1 in a then Pow256(n - 1) else 0
  }

  lemma {:induction false} TotalBound(a: set<nat>, n: nat)
    ensures 255 * Total(a, n) < Pow256(n)
  {
    if n == 0 {
    } else {
      TotalBound(a, n - 1);
    }
  }

  lemma {:induction false} TotalInsert(a: set<nat>, x: nat, n: nat)
    requires x !in a
    ensures Total(a + {x}, n) == Total(a, n) + if x < n then Pow256(x) else 0
  {
    if n == 0 {
    } else {
      TotalInsert(a, x, n - 1);
    }
  }

  lemma {:induction false} TotalUnion(a: set<nat>, b: set<nat>, n: nat)
    requires a !! b
    ensures Total(a + b, n) == Total(a, n) + Total(b, n)
  {
    if n == 0 {
    } else {
      TotalUnion(a, b, n - 1);
    }
  }

  /** Two sets without a common element, not both empty, have different sums: the largest exponent decides. */
  lemma {:induction false} TotalsDiffer(a: set<nat>, b: set<nat>, x: nat, n: nat)
    requires a !! b && x in a + b && x < n
    ensures Total(a, n) != Total(b, n)
    decreases n
  {
    TotalBound(a, n - 1);
    TotalBound(b, n - 1);
    if n - 1 !in a + b {
      TotalsDiffer(a, b, x, n - 1);
    }
  }

  // ---- What one field does to a window of bytes and to the byte behind it ----

  /** The field starts before e and covers the last byte before e. */
  ghost predicate Feeding(f: Fixup, e: nat) {
    f.addr < e <= End(f)
  }

  /** Seen from the bytes b to e: the field feeds the window from inside, starts behind it, or touches neither. */
  ghost predicate Placed(f: Fixup, b: nat, e: nat) {
    || (b <= f.addr && Feeding(f, e))
    || (f.addr == e < End(f))
    || (End(f) <= b || e < f.addr || f.width == 0)
  }

  ghost function Weight(f: Fixup, b: nat, e: nat): nat {
    if b <= f.addr && Feeding(f, e) then Pow256(f.addr - b) else 0
  }

  ghost function Unit(f: Fixup, e: nat): nat {
    if f.addr == e < End(f) then 1 else 0
  }

  lemma {:induction false} PowSplit(m: nat, n: nat)
    ensures Pow256(m + n) == Pow256(m) * Pow256(n)
  {
    if m == 0 {
    } else {
      PowSplit(m - 1, n);
      assert 256 * (Pow256(m - 1) * Pow256(n)) == 256 * Pow256(m - 1) * Pow256(n);
    }
  }

  lemma {:induction false} NumberSplit(x: seq<byte>, m: nat)
    requires m <= |x|
    ensures NumberOf(x) == NumberOf(x[..m]) + Pow256(m) * NumberOf(x[m..])
    decreases m
  {
    if m == 0 {
      assert x[0..] == x;
    } else {
      NumberSplit(x[1..], m - 1);
      assert x[1..][..m - 1] == x[..m][1..] && x[1..][m - 1..] == x[m..];
      assert 256 * (Pow256(m - 1) * NumberOf(x[m..])) == Pow256(m) * NumberOf(x[m..]);
    }
  }

  lemma ReadSplit(img: Image, a: nat, m: nat, n: nat)
    requires a + m + n <= |img|
    ensures Read(img, a, m + n) == Read(img, a, m) + Pow256(m) * Read(img, a + m, n)
  {
    var x := img[a..a + m + n];
    NumberSplit(x, m);
    assert x[..m] == img[a..a + m] && x[m..] == img[a + m..a + m + n];
  }

  lemma ReadByte(img: Image, a: nat)
    requires a < |img|
    ensures Read(img, a, 1) == img[a] as int
  {
    var x := img[a..a + 1];
    assert x[1..] == [] && NumberOf(x[1..]) == 0;
  }

  lemma ReadBound(img: Image, a: nat, w: nat)
    requires a + w <= |img|
    ensures Read(img, a, w) < Pow256(w)
  {
    ValueBound(img[a..a + w]);
  }

  /** If what is above m wraps at a multiple of m, it does not matter below. */
  lemma LowRemainder(low: nat, high: nat, d: int, m: nat, n: nat)
    requires m > 0 && n > 0 && low < m
    ensures ((low + m * high + d) % (m * n)) % m == (low + d) % m
  {
    var v := low + m * high + d;
    var q, r := v / (m * n), v % (m * n);
    assert v == q * (m * n) + r;
    var p, s := (low + d) / m, (low + d) % m;
    assert low + d == p * m + s;
    var k := p + high - q * n;
    assert r == k * m + s by {
      Distribute(p, high, m);
      Distribute(p + high, -(q * n), m);
      assert q * (m * n) == (q * n) * m;
      assert -(q * n) * m == -((q * n) * m);
    }
    ModUnique(r, k, s, m);
  }

  lemma LowOfSum(low: nat, high: nat, d: int, low': nat, high': nat, m: nat, n: nat)
    requires m > 0 && n > 0 && low < m && low' < m && m * n > 0
    requires low' + m * high' == (low + m * high + d) % (m * n)
    ensures low' == (low + d) % m
  {
    LowRemainder(low, high, d, m, n);
    ModUnique(low' + m * high', high', low', m);
  }

  /** The lower part of a field is added to as if the field ended there. */
  lemma LowPart(img: Image, f: Fixup, d: int, m: nat)
    requires Inside(f, |img|) && m <= f.width && Pow256(m) > 0
    ensures Read(AddAt(img, f, d), f.addr, m) == (Read(img, f.addr, m) + d) % Pow256(m)
  {
    var r, n := AddAt(img, f, d), f.width - m;
    PowPositive(f.width);
    PowPositive(n);
    PowSplit(m, n);
    assert Pow256(f.width) == Pow256(m) * Pow256(n);
    AddAtValue(img, f, d);
    ReadSplit(img, f.addr, m, n);
    ReadSplit(r, f.addr, m, n);
    ReadBound(img, f.addr, m);
    ReadBound(r, f.addr, m);
    hide Read, AddAt, Pow256;
    LowOfSum(Read(img, f.addr, m), Read(img, f.addr + m, n), d, Read(r, f.addr, m), Read(r, f.addr + m, n),
             Pow256(m), Pow256(n));
  }

  /** A number and the byte above it: what does not fit goes into the byte. */
  lemma CarryUp(x: nat, y: nat, d: int, m: nat, k: int, r: nat)
    requires x + d == k * m + r && r < m
    ensures m * 256 > 0 && (x + m * y + d) % (m * 256) == r + m * ((y + k) % 256)
  {
    var q, z := (y + k) / 256, (y + k) % 256;
    assert y + k == q * 256 + z;
    assert x + m * y + d == q * (m * 256) + (r + m * z) by {
      Distribute(y, k, m);
      Distribute(q * 256, z, m);
      assert q * (m * 256) == q * 256 * m;
    }
    assert r + m * z < m * 256 by {
      AtLeastOne(256 - z, m);
      Distribute(256 - z, z, m);
    }
    ModUnique(x + m * y + d, q, r + m * z, m * 256);
  }

  lemma SplitUnique(x: nat, y: int, u: nat, v: int, m: nat)
    requires x < m && u < m && x + y * m == u + v * m
    ensures x == u && y == v
  {
    if y < v {
      AtLeastOne(v - y, m);
      Distribute(v - y, y, m);
    } else if v < y {
      AtLeastOne(y - v, m);
      Distribute(y - v, v, m);
    }
  }

  // ---- The window and the byte behind it ----

  ghost function Window(img: Image, b: nat, e: nat): nat
    requires b < e < |img|
  {
    Read(img, b, e - b)
  }

  ghost function Modulus(b: nat, e: nat): nat
    requires b < e
  {
    Pow256(e - b)
  }

  lemma WindowBound(img: Image, b: nat, e: nat)
    requires b < e < |img|
    ensures Window(img, b, e) < Modulus(b, e)
  {
    ReadBound(img, b, e - b);
  }

  /** From img to r the window has moved by x, wrapping around k times, and byte e by u, and by k if carries are
      passed on. */
  ghost predicate Moved(img: Image, r: Image, b: nat, e: nat, x: int, u: int, carry: bool, k: int)
    requires b < e < |img|
  {
    && |r| == |img|
    && Window(img, b, e) + x == k * Modulus(b, e) + Window(r, b, e)
    && r[e] as int == (img[e] as int + u + if carry then k else 0) % 256
  }

  lemma NothingMoves(img: Image, b: nat, e: nat, carry: bool)
    requires b < e < |img|
    ensures Moved(img, img, b, e, 0, 0, carry, 0)
  {
  }

  lemma MovedTwice(img: Image, r: Image, s: Image, b: nat, e: nat, x: int, u: int, j: int, y: int, v: int, k: int,
                   carry: bool)
    requires b < e < |img| && Moved(img, r, b, e, x, u, carry, j) && Moved(r, s, b, e, y, v, carry, k)
    ensures Moved(img, s, b, e, x + y, u + v, carry, j + k)
  {
    hide Window, Modulus;
    Distribute(j, k, Modulus(b, e));
  }

  // ---- What one field moves ----

  /** The window with byte e as its highest byte. */
  lemma WindowAndByte(img: Image, b: nat, e: nat)
    requires b < e < |img|
    ensures Read(img, b, e - b + 1) == Window(img, b, e) + Modulus(b, e) * img[e] as int
    ensures Pow256(e - b + 1) == Modulus(b, e) * 256
  {
    ReadSplit(img, b, e - b, 1);
    ReadByte(img, e);
    PowSplit(e - b, 1);
    assert Pow256(1) == 256 by { assert Pow256(0) == 1; }
  }

  lemma NumbersPass(x: nat, y: nat, d: int, m: nat, x': nat, y': nat) returns (k: int)
    requires x' < m && m * 256 > 0 && x' + m * y' == (x + m * y + d) % (m * 256)
    ensures x + d == k * m + x' && y' == (y + k) % 256
  {
    k := (x + d) / m;
    CarryUp(x, y, d, m, k, (x + d) % m);
    SplitUnique(x', y', (x + d) % m, (y + k) % 256, m);
  }

  /** A field that runs past e: the carry out of the window goes into byte e. */
  lemma FeedingPasses(img: Image, f: Fixup, d: int, e: nat) returns (k: int)
    requires Inside(f, |img|) && f.addr < e < |img| && e < End(f)
    ensures Moved(img, AddAt(img, f, d), f.addr, e, d, 0, true, k)
  {
    var r, b := AddAt(img, f, d), f.addr;
    PowPositive(e - b + 1);
    LowPart(img, f, d, e - b + 1);
    WindowAndByte(img, b, e);
    WindowAndByte(r, b, e);
    WindowBound(r, b, e);
    hide Read, AddAt, Pow256, Window, Modulus;
    k := NumbersPass(Window(img, b, e), img[e] as int, d, Modulus(b, e), Window(r, b, e), r[e] as int);
  }

  lemma FeedingStops(img: Image, f: Fixup, d: int, e: nat) returns (k: int)
    requires Inside(f, |img|) && f.addr < e == End(f) < |img|
    ensures Moved(img, AddAt(img, f, d), f.addr, e, d, 0, false, k)
  {
    PowPositive(f.width);
    AddAtValue(img, f, d);
    hide Read, AddAt, Pow256;
    k := (Read(img, f.addr, f.width) + d) / Pow256(f.width);
  }

  /** carry says what becomes of a carry out of the window: the field passes it on, or drops it. */
  ghost predicate Carries(f: Fixup, b: nat, e: nat, carry: bool) {
    b <= f.addr && Feeding(f, e) ==> (e < End(f)) == carry
  }

  function Signed(forth: bool, n: nat): int { if forth then n else 0 - n }

  /** One field: the window moves by its weight, and byte e by its unit and the carry. */
  lemma FieldMoves(img: Image, f: Fixup, forth: bool, b: nat, e: nat, carry: bool) returns (k: int)
    requires Inside(f, |img|) && b < e < |img| && Placed(f, b, e) && Carries(f, b, e, carry)
    ensures Moved(img, AddAt(img, f, Signed(forth, 1)), b, e, Signed(forth, Weight(f, b, e)),
                  Signed(forth, Unit(f, e)), carry, k)
  {
    hide AddAt, Moved;
    if b <= f.addr && Feeding(f, e) {
      var whole, j := Fixup(b, End(f) - b), f.addr - b;
      AddToUpperPart(img, whole, j, Signed(forth, 1));
      assert Fixup(whole.addr + j, whole.width - j) == f;
      assert Pow256(j) * Signed(forth, 1) == Signed(forth, Weight(f, b, e));
      if e < End(f) {
        k := FeedingPasses(img, whole, Signed(forth, Weight(f, b, e)), e);
      } else {
        k := FeedingStops(img, whole, Signed(forth, Weight(f, b, e)), e);
      }
    } else {
      FieldSpares(img, f, forth, b, e, carry);
      k := 0;
    }
  }

  lemma FieldSpares(img: Image, f: Fixup, forth: bool, b: nat, e: nat, carry: bool)
    requires Inside(f, |img|) && b < e < |img| && Placed(f, b, e) && !(b <= f.addr && Feeding(f, e))
    ensures Moved(img, AddAt(img, f, Signed(forth, 1)), b, e, 0, Signed(forth, Unit(f, e)), carry, 0)
  {
    var d := Signed(forth, 1);
    WindowSpared(img, f, d, b, e);
    if f.addr == e < End(f) {
      FirstByte(img, f, d);
    } else {
      PowPositive(f.width);
      AddAtValue(img, f, d);
    }
    hide AddAt, Window, Modulus;
  }

  lemma WindowSpared(img: Image, f: Fixup, d: int, b: nat, e: nat)
    requires Inside(f, |img|) && b < e < |img| && Placed(f, b, e) && !(b <= f.addr && Feeding(f, e))
    ensures Window(AddAt(img, f, d), b, e) == Window(img, b, e)
  {
    PowPositive(f.width);
    AddAtValue(img, f, d);
    hide AddAt;
    ReadSame(AddAt(img, f, d), img, b, e - b);
  }

  lemma FirstByte(img: Image, f: Fixup, d: int)
    requires Inside(f, |img|) && f.width > 0
    ensures AddAt(img, f, d)[f.addr] as int == (img[f.addr] as int + d) % 256
  {
    assert Pow256(1) == 256 by { assert Pow256(0) == 1; }
    LowPart(img, f, d, 1);
    ReadByte(img, f.addr);
    ReadByte(AddAt(img, f, d), f.addr);
  }

  // ---- What a list of fields moves ----

  ghost function Sum(fs: seq<Fixup>, b: nat, e: nat): nat {
    if fs == [] then 0 else Weight(fs[0], b, e) + Sum(fs[1..], b, e)
  }

  ghost function Units(fs: seq<Fixup>, e: nat): nat {
    if fs == [] then 0 else Unit(fs[0], e) + Units(fs[1..], e)
  }

  /** All fields are placed, and those that feed the window treat its carry alike. */
  ghost predicate Alike(fs: seq<Fixup>, b: nat, e: nat, carry: bool) {
    forall i :: 0 <= i < |fs| ==> Placed(fs[i], b, e) && Carries(fs[i], b, e, carry)
  }

  lemma {:induction false} ListMoves(img: Image, fs: seq<Fixup>, forth: bool, b: nat, e: nat, carry: bool)
      returns (k: int)
    requires AllInside(fs, |img|) && b < e < |img| && Alike(fs, b, e, carry)
    ensures Moved(img, AddAll(img, fs, Signed(forth, 1)), b, e, Signed(forth, Sum(fs, b, e)),
                  Signed(forth, Units(fs, e)), carry, k)
    decreases |fs|
  {
    hide Moved, Weight, Unit, AddAt, Placed, Carries;
    if fs == [] {
      NothingMoves(img, b, e, carry);
      k := 0;
    } else {
      var next := AddAt(img, fs[0], Signed(forth, 1));
      var i := FieldMoves(img, fs[0], forth, b, e, carry);
      var j := ListMoves(next, fs[1..], forth, b, e, carry);
      MovedTwice(img, next, AddAll(img, fs, Signed(forth, 1)), b, e,
                 Signed(forth, Weight(fs[0], b, e)), Signed(forth, Unit(fs[0], e)), i,
                 Signed(forth, Sum(fs[1..], b, e)), Signed(forth, Units(fs[1..], e)), j, carry);
      k := i + j;
    }
  }

  /** The same with the new value of the window and the number of times it wraps around named. */
  lemma ListPasses(img: Image, fs: seq<Fixup>, forth: bool, b: nat, e: nat, carry: bool, k: int, x: nat)
    requires AllInside(fs, |img|) && b < e < |img| && Alike(fs, b, e, carry) && x < Modulus(b, e)
    requires Window(img, b, e) + Signed(forth, Sum(fs, b, e)) == k * Modulus(b, e) + x
    ensures var r := AddAll(img, fs, Signed(forth, 1));
      && Window(r, b, e) == x
      && r[e] as int == (img[e] as int + Signed(forth, Units(fs, e)) + if carry then k else 0) % 256
  {
    var j := ListMoves(img, fs, forth, b, e, carry);
    var r := AddAll(img, fs, Signed(forth, 1));
    WindowBound(r, b, e);
    hide Window, Modulus, Alike, AddAll, Sum, Units, Signed;
    SplitUnique(x, k, Window(r, b, e), j, Modulus(b, e));
  }

  // ---- There and back over a list with one field that treats the carry differently ----

  /** Three lists one after the other; the fields of the middle one treat the carry differently. */
  ghost function AddThree(img: Image, before: seq<Fixup>, u: Fixup, after: seq<Fixup>, d: int): (r: Image)
    requires AllInside(before, |img|) && Inside(u, |img|) && AllInside(after, |img|)
    ensures |r| == |img|
  {
    AddAll(AddAll(AddAll(img, before, d), [u], d), after, d)
  }

  lemma Congruent(y0: int, y1: int, y2: int, a: int, b: int)
    requires y1 == (y0 + a) % 256 && y2 == (y1 + b) % 256
    ensures y2 == (y0 + a + b) % 256
  {
  }

  lemma ThreePass(img: Image, before: seq<Fixup>, u: Fixup, after: seq<Fixup>, forth: bool, b: nat, e: nat, carry: bool,
                  x1: nat, k1: int, x2: nat, k2: int, x3: nat, k3: int)
    requires b < e < |img| && AllInside(before, |img|) && Inside(u, |img|) && AllInside(after, |img|)
    requires Alike(before, b, e, carry) && Alike([u], b, e, !carry) && Alike(after, b, e, carry)
    requires x1 < Modulus(b, e) && x2 < Modulus(b, e) && x3 < Modulus(b, e)
    requires Window(img, b, e) + Signed(forth, Sum(before, b, e)) == k1 * Modulus(b, e) + x1
    requires x1 + Signed(forth, Sum([u], b, e)) == k2 * Modulus(b, e) + x2
    requires x2 + Signed(forth, Sum(after, b, e)) == k3 * Modulus(b, e) + x3
    ensures var r := AddThree(img, before, u, after, Signed(forth, 1));
      var units := Signed(forth, Units(before, e)) + Signed(forth, Units([u], e)) + Signed(forth, Units(after, e));
      && Window(r, b, e) == x3
      && r[e] as int == (img[e] as int + units + if carry then k1 + k3 else k2) % 256
  {
    hide Alike, AddAll, Sum, Units, Window, Modulus;
    var c1, c2, c3 := if carry then k1 else 0, if carry then 0 else k2, if carry then k3 else 0;
    var n1, n2, n3 := Signed(forth, Units(before, e)), Signed(forth, Units([u], e)), Signed(forth, Units(after, e));
    hide Signed;
    var i1 := AddAll(img, before, Signed(forth, 1));
    var i2 := AddAll(i1, [u], Signed(forth, 1));
    ListPasses(img, before, forth, b, e, carry, k1, x1);
    ListPasses(i1, [u], forth, b, e, !carry, k2, x2);
    ListPasses(i2, after, forth, b, e, carry, k3, x3);
    Congruent(img[e] as int, i1[e] as int, i2[e] as int, n1 + c1, n2 + c2);
    Congruent(img[e] as int, i2[e] as int, AddAll(i2, after, Signed(forth, 1))[e] as int,
              n1 + c1 + n2 + c2, n3 + c3);
  }

  lemma ByteAstray(y0: byte, y1: byte, y2: byte, n: int, k: int, j: int)
    requires y1 as int == (y0 as int + n + k) % 256 && y2 as int == (y1 as int - n + j) % 256 && k + j in [1, -1]
    ensures y2 != y0
  {
    Congruent(y0 as int, y1 as int, y2 as int, n + k, j - n);
  }

  /** There the window wraps around at the middle field, and back at the last fields. */
  lemma AstrayThere(img: Image, before: seq<Fixup>, u: Fixup, after: seq<Fixup>, b: nat, e: nat, carry: bool)
    requires b < e < |img| && AllInside(before, |img|) && Inside(u, |img|) && AllInside(after, |img|)
    requires Alike(before, b, e, carry) && Alike([u], b, e, !carry) && Alike(after, b, e, carry)
    requires Sum([u], b, e) >= 1 && Sum(before, b, e) < Sum(after, b, e)
    requires Sum(before, b, e) + Sum(after, b, e) + Sum([u], b, e) <= Modulus(b, e)
    requires Window(img, b, e) == Modulus(b, e) - 1 - Sum(before, b, e)
    ensures AddThree(AddThree(img, before, u, after, 1), before, u, after, -1)[e] != img[e]
  {
    hide Alike, AddThree, Sum, Units, Window, Modulus;
    var m, s1, s2, w := Modulus(b, e), Sum(before, b, e), Sum(after, b, e), Sum([u], b, e);
    var there := AddThree(img, before, u, after, 1);
    var x := w - 1 + s2;
    ThreePass(img, before, u, after, true, b, e, carry, m - 1, 0, w - 1, 1, x, 0);
    ThreePass(there, before, u, after, false, b, e, carry, x - s1, 0, s2 - s1 - 1, 0, m - s1 - 1, -1);
    ByteAstray(img[e], there[e], AddThree(there, before, u, after, -1)[e],
               Units(before, e) + Units([u], e) + Units(after, e), if carry then 0 else 1, if carry then -1 else 0);
  }

  /** There the window wraps around at the first fields, and back at the middle one. */
  lemma AstrayBack(img: Image, before: seq<Fixup>, u: Fixup, after: seq<Fixup>, b: nat, e: nat, carry: bool)
    requires b < e < |img| && AllInside(before, |img|) && Inside(u, |img|) && AllInside(after, |img|)
    requires Alike(before, b, e, carry) && Alike([u], b, e, !carry) && Alike(after, b, e, carry)
    requires Sum([u], b, e) >= 1 && Sum(after, b, e) < Sum(before, b, e)
    requires Sum(before, b, e) + Sum(after, b, e) + Sum([u], b, e) <= Modulus(b, e)
    requires Window(img, b, e) == Modulus(b, e) - 1 - Sum(after, b, e)
    ensures AddThree(AddThree(img, before, u, after, 1), before, u, after, -1)[e] != img[e]
  {
    hide Alike, AddThree, Sum, Units, Window, Modulus;
    var m, s1, s2, w := Modulus(b, e), Sum(before, b, e), Sum(after, b, e), Sum([u], b, e);
    var there := AddThree(img, before, u, after, 1);
    var x := s1 - 1 + w;
    ThreePass(img, before, u, after, true, b, e, carry, s1 - s2 - 1, 1, s1 - s2 - 1 + w, 0, x, 0);
    ThreePass(there, before, u, after, false, b, e, carry, w - 1, 0, m - 1, -1, m - 1 - s2, 0);
    ByteAstray(img[e], there[e], AddThree(there, before, u, after, -1)[e],
               Units(before, e) + Units([u], e) + Units(after, e), if carry then 1 else 0, if carry then 0 else -1);
  }

  /** The sums of the three lists are such that some content of the window goes astray. */
  ghost predicate Uneven(before: seq<Fixup>, u: Fixup, after: seq<Fixup>, b: nat, e: nat)
    requires b < e
  {
    && Sum([u], b, e) >= 1 && Sum(before, b, e) != Sum(after, b, e)
    && Sum(before, b, e) + Sum(after, b, e) + Sum([u], b, e) <= Modulus(b, e)
  }

  lemma Astray(img0: Image, before: seq<Fixup>, u: Fixup, after: seq<Fixup>, b: nat, e: nat, carry: bool)
      returns (img: Image)
    requires b < e < |img0| && AllInside(before, |img0|) && Inside(u, |img0|) && AllInside(after, |img0|)
    requires Alike(before, b, e, carry) && Alike([u], b, e, !carry) && Alike(after, b, e, carry)
    requires Uneven(before, u, after, b, e)
    ensures |img| == |img0| && forall i :: 0 <= i < |img0| && !(b <= i < e) ==> img[i] == img0[i]
    ensures AddThree(AddThree(img, before, u, after, 1), before, u, after, -1) != img
  {
    hide Alike, AddThree, Sum, Window, Modulus;
    if Sum(before, b, e) < Sum(after, b, e) {
      img := Choose(img0, b, e, Modulus(b, e) - 1 - Sum(before, b, e));
      AstrayThere(img, before, u, after, b, e, carry);
    } else {
      img := Choose(img0, b, e, Modulus(b, e) - 1 - Sum(after, b, e));
      AstrayBack(img, before, u, after, b, e, carry);
    }
  }

  lemma Choose(img0: Image, b: nat, e: nat, x: nat) returns (img: Image)
    requires b < e < |img0| && x < Modulus(b, e)
    ensures |img| == |img0| && Window(img, b, e) == x
    ensures forall i :: 0 <= i < |img0| && !(b <= i < e) ==> img[i] == img0[i]
  {
    ReadPatch(img0, b, x, e - b);
    img := Patch(img0, b, Bytes(x, e - b));
  }

  // ---- The sums of a list ----

  /** Where in the window the fields of the list start. */
  ghost function Starts(fs: seq<Fixup>, b: nat, e: nat): set<nat> {
    if fs == [] then {}
    else Starts(fs[1..], b, e) + if b <= fs[0].addr && Feeding(fs[0], e) then {fs[0].addr - b} else {}
  }

  lemma {:induction false} StartsMean(fs: seq<Fixup>, b: nat, e: nat, x: nat)
    ensures x in Starts(fs, b, e) <==> exists i :: 0 <= i < |fs| && Feeding(fs[i], e) && fs[i].addr == b + x
    decreases |fs|
  {
    if fs == [] {
    } else {
      StartsMean(fs[1..], b, e, x);
      if x in Starts(fs[1..], b, e) {
        var i :| 0 <= i < |fs| - 1 && Feeding(fs[1..][i], e) && fs[1..][i].addr == b + x;
        assert Feeding(fs[i + 1], e);
      }
      if i :| 0 <= i < |fs| && Feeding(fs[i], e) && fs[i].addr == b + x {
        assert i > 0 ==> fs[1..][i - 1] == fs[i];
      }
    }
  }

  ghost predicate StartsDiffer(fs: seq<Fixup>, e: nat) {
    forall i, j :: 0 <= i < j < |fs| && Feeding(fs[i], e) && Feeding(fs[j], e) ==> fs[i].addr != fs[j].addr
  }

  lemma {:induction false} SumIsTotal(fs: seq<Fixup>, b: nat, e: nat)
    requires b < e && StartsDiffer(fs, e)
    ensures Sum(fs, b, e) == Total(Starts(fs, b, e), e - b)
    decreases |fs|
  {
    if fs == [] {
      NoTotal(e - b);
    } else {
      var f, rest := fs[0], fs[1..];
      SumIsTotal(rest, b, e);
      if b <= f.addr && Feeding(f, e) {
        StartsMean(rest, b, e, f.addr - b);
        TotalInsert(Starts(rest, b, e), f.addr - b, e - b);
      } else {
        assert Starts(fs, b, e) == Starts(rest, b, e);
      }
    }
  }

  lemma {:induction false} NoTotal(n: nat)
    ensures Total({}, n) == 0
  {
    if n == 0 {
    } else {
      NoTotal(n - 1);
    }
  }

  lemma StartsApart(fs: seq<Fixup>, gs: seq<Fixup>, b: nat, e: nat)
    requires StartsDiffer(fs + gs, e)
    ensures Starts(fs, b, e) !! Starts(gs, b, e)
  {
    var a, c, all := Starts(fs, b, e), Starts(gs, b, e), fs + gs;
    forall x | x in a ensures x !in c {
      StartsMean(fs, b, e, x);
      StartsMean(gs, b, e, x);
      var i :| 0 <= i < |fs| && Feeding(fs[i], e) && fs[i].addr == b + x;
      assert all[i] == fs[i];
      forall j | 0 <= j < |gs| && Feeding(gs[j], e) ensures gs[j].addr != b + x {
        assert all[|fs| + j] == gs[j];
      }
    }
  }

  lemma StartsOfBoth(fs: seq<Fixup>, gs: seq<Fixup>, b: nat, e: nat, i: nat)
    requires i < |fs + gs| && Feeding((fs + gs)[i], e) && b <= (fs + gs)[i].addr
    ensures (fs + gs)[i].addr - b in Starts(fs, b, e) + Starts(gs, b, e)
  {
    var x := (fs + gs)[i].addr - b;
    StartsMean(fs, b, e, x);
    StartsMean(gs, b, e, x);
    if i < |fs| {
      assert fs[i].addr == b + x;
    } else {
      assert gs[i - |fs|].addr == b + x;
    }
  }

  /** Two lists without a common start: different sums, which leave room in the window for one more. */
  lemma SumsDiffer(fs: seq<Fixup>, gs: seq<Fixup>, b: nat, e: nat, i: nat)
    requires b < e && StartsDiffer(fs + gs, e)
    requires i < |fs + gs| && Feeding((fs + gs)[i], e) && b <= (fs + gs)[i].addr
    ensures Sum(fs, b, e) != Sum(gs, b, e)
    ensures Sum(fs, b, e) + Sum(gs, b, e) + Pow256(e - b - 1) <= Pow256(e - b)
  {
    StartsApart(fs, gs, b, e);
    StartsOfBoth(fs, gs, b, e, i);
    PartsDiffer(fs, gs, e);
    SumIsTotal(fs, b, e);
    SumIsTotal(gs, b, e);
    var a, c, x, n := Starts(fs, b, e), Starts(gs, b, e), (fs + gs)[i].addr - b, e - b;
    hide Starts, Sum, Feeding, StartsDiffer, Total;
    TotalsDiffer(a, c, x, n);
    TotalUnion(a, c, n);
    TotalBound(a + c, n);
    assert Pow256(n) == 256 * Pow256(n - 1);
  }

  lemma PartsDiffer(fs: seq<Fixup>, gs: seq<Fixup>, e: nat)
    requires StartsDiffer(fs + gs, e)
    ensures StartsDiffer(fs, e) && StartsDiffer(gs, e)
  {
    var all := fs + gs;
    forall i, j | 0 <= i < j < |fs| && Feeding(fs[i], e) && Feeding(fs[j], e) ensures fs[i].addr != fs[j].addr {
      assert all[i] == fs[i] && all[j] == fs[j];
    }
    forall i, j | 0 <= i < j < |gs| && Feeding(gs[i], e) && Feeding(gs[j], e) ensures gs[i].addr != gs[j].addr {
      assert all[|fs| + i] == gs[i] && all[|fs| + j] == gs[j];
    }
  }

  // ---- The clash that is looked at ----

  /** Every clash is down to a field that covers one byte of the other: the next byte up the two no longer clash. */
  ghost predicate Narrow(fs: seq<Fixup>) {
    forall i, j :: 0 <= i < |fs| && 0 <= j < |fs| && Clash(fs[i], fs[j]) ==>
      fs[i].addr + 1 == End(fs[i]) || fs[j].addr + 1 == End(fs[i])
  }

  /** No clash ends lower than e. */
  ghost predicate NoneLower(fs: seq<Fixup>, e: nat) {
    forall i, j :: 0 <= i < |fs| && 0 <= j < |fs| && Clash(fs[i], fs[j]) ==> e <= End(fs[i])
  }

  lemma {:induction false} LowestClash(fs: seq<Fixup>, i: nat, j: nat) returns (k: nat, l: nat)
    requires i < |fs| && j < |fs| && Clash(fs[i], fs[j])
    ensures k < |fs| && l < |fs| && Clash(fs[k], fs[l]) && NoneLower(fs, End(fs[k]))
    decreases End(fs[i])
  {
    if m, n :| 0 <= m < |fs| && 0 <= n < |fs| && Clash(fs[m], fs[n]) && End(fs[m]) < End(fs[i]) {
      k, l := LowestClash(fs, m, n);
    } else {
      k, l := i, j;
    }
  }

  /** The first byte of the fields that feed a window. */
  lemma {:induction false} LowestStart(fs: seq<Fixup>, e: nat, i: nat) returns (k: nat)
    requires i < |fs| && Feeding(fs[i], e)
    ensures k < |fs| && Feeding(fs[k], e)
    ensures forall m :: 0 <= m < |fs| && Feeding(fs[m], e) ==> fs[k].addr <= fs[m].addr
    decreases fs[i].addr
  {
    if m :| 0 <= m < |fs| && Feeding(fs[m], e) && fs[m].addr < fs[i].addr {
      k := LowestStart(fs, e, m);
    } else {
      k := i;
    }
  }

  /** Below the lowest clash nothing overlaps what feeds it, so every field has its place. */
  lemma AllPlaced(fs: seq<Fixup>, e: nat, k: nat)
    requires NoneLower(fs, e) && k < |fs| && Feeding(fs[k], e)
    requires forall m :: 0 <= m < |fs| && Feeding(fs[m], e) ==> fs[k].addr <= fs[m].addr
    ensures forall i :: 0 <= i < |fs| ==> Placed(fs[i], fs[k].addr, e)
  {
    forall i | 0 <= i < |fs| ensures Placed(fs[i], fs[k].addr, e) {
      assert !(Clash(fs[i], fs[k]) && End(fs[i]) < e);
    }
  }

  /** Among the fields that feed the window, fs[p] covers its last byte only and is alone in what it does with
      a carry. */
  ghost predicate Alone(fs: seq<Fixup>, e: nat, p: nat, carry: bool) {
    && p < |fs| && fs[p].addr + 1 == e <= End(fs[p]) && (e < End(fs[p])) == !carry
    && (forall k :: 0 <= k < |fs| && k != p && Feeding(fs[k], e) ==> (e < End(fs[k])) == carry)
    && (forall k, l :: 0 <= k < l < |fs| && k != p && l != p && Feeding(fs[k], e) && Feeding(fs[l], e) ==>
          fs[k].addr != fs[l].addr)
  }

  lemma OneIsAlone(fs: seq<Fixup>, i: nat, j: nat) returns (p: nat, q: nat, carry: bool)
    requires i < |fs| && j < |fs| && Clash(fs[i], fs[j]) && Narrow(fs) && Distinct(fs)
    ensures Alone(fs, End(fs[i]), p, carry) && q < |fs| && q != p && Feeding(fs[q], End(fs[i]))
  {
    var e := End(fs[i]);
    LongStartsDiffer(fs, e);
    if forall k :: 0 <= k < |fs| && Feeding(fs[k], e) && End(fs[k]) == e ==> fs[k].addr + 1 == e {
      p, q, carry := i, j, true;
    } else {
      var s :| 0 <= s < |fs| && Feeding(fs[s], e) && End(fs[s]) == e && fs[s].addr + 1 != e;
      p, q, carry := j, i, false;
      assert Clash(fs[s], fs[j]);
      forall k | 0 <= k < |fs| && k != p && Feeding(fs[k], e) ensures End(fs[k]) == e {
        assert e < End(fs[k]) ==> Clash(fs[s], fs[k]);
      }
    }
  }

  /** Two fields that start at the same byte and end at different ones clash at more than one byte. */
  lemma LongStartsDiffer(fs: seq<Fixup>, e: nat)
    requires Narrow(fs) && Distinct(fs)
    ensures forall k, l :: 0 <= k < l < |fs| && Long(fs[k], e) && Long(fs[l], e) ==> fs[k].addr != fs[l].addr
  {
    forall k, l | 0 <= k < l < |fs| && Long(fs[k], e) && Long(fs[l], e) ensures fs[k].addr != fs[l].addr {
      assert !Clash(fs[k], fs[l]) && !Clash(fs[l], fs[k]);
      assert fs[k] != fs[l];
    }
  }

  ghost predicate Long(f: Fixup, e: nat) {
    Feeding(f, e) && e < End(f)
  }

  // ---- An image that does not come back ----

  /** The two images differ inside the fields only. */
  ghost predicate SameOutside(x: Image, y: Image, fs: seq<Fixup>) {
    |x| == |y| && forall i :: 0 <= i < |x| && x[i] != y[i] ==> Covered(fs, i)
  }

  ghost predicate Covered(fs: seq<Fixup>, i: nat) {
    exists k :: 0 <= k < |fs| && fs[k].addr <= i < End(fs[k])
  }

  lemma AddAllThree(img: Image, fs: seq<Fixup>, p: nat, d: int)
    requires AllInside(fs, |img|) && p < |fs|
    ensures AllInside(fs[..p], |img|) && Inside(fs[p], |img|) && AllInside(fs[p + 1..], |img|)
    ensures AddAll(img, fs, d) == AddThree(img, fs[..p], fs[p], fs[p + 1..], d)
  {
    AddAllAppend(img, fs[..p], [fs[p]], d);
    AddAllAppend(img, fs[..p] + [fs[p]], fs[p + 1..], d);
    assert fs == fs[..p] + [fs[p]] + fs[p + 1..];
  }

  lemma PartsAlike(fs: seq<Fixup>, b: nat, e: nat, p: nat, carry: bool)
    requires Alone(fs, e, p, carry) && forall i :: 0 <= i < |fs| ==> Placed(fs[i], b, e)
    ensures Alike(fs[..p], b, e, carry) && Alike([fs[p]], b, e, !carry) && Alike(fs[p + 1..], b, e, carry)
    ensures StartsDiffer(fs[..p] + fs[p + 1..], e)
  {
    var others := fs[..p] + fs[p + 1..];
    assert forall i :: 0 <= i < |others| ==> others[i] == fs[if i < p then i else i + 1];
  }

  lemma AloneSum(u: Fixup, b: nat, e: nat)
    requires b <= u.addr && u.addr + 1 == e <= End(u)
    ensures Sum([u], b, e) == Pow256(e - b - 1) >= 1
  {
    PowPositive(e - b - 1);
    assert [u][1..] == [];
    assert Sum([u], b, e) == Weight(u, b, e) + Sum([], b, e);
  }

  /** The lowest clash, seen from the field that is alone in it. */
  lemma FindClash(fs: seq<Fixup>, n: nat) returns (e: nat, p: nat, q: nat, carry: bool)
    requires AllInside(fs, n) && Distinct(fs) && Narrow(fs) && Clashes(fs)
    ensures e < n && NoneLower(fs, e) && Alone(fs, e, p, carry)
    ensures q < |fs| && q != p && Feeding(fs[q], e)
  {
    var i, j :| 0 <= i < |fs| && 0 <= j < |fs| && Clash(fs[i], fs[j]);
    var k, l := LowestClash(fs, i, j);
    e := End(fs[k]);
    assert Inside(fs[l], n);
    hide Distinct, Narrow, Alone, NoneLower;
    p, q, carry := OneIsAlone(fs, k, l);
  }

  /** Where every clash is narrow: the window under the lowest one. */
  lemma FindWindow(fs: seq<Fixup>, n: nat) returns (b: nat, e: nat, p: nat, carry: bool)
    requires AllInside(fs, n) && Distinct(fs) && Narrow(fs) && Clashes(fs)
    ensures b < e < n && p < |fs| && Uneven(fs[..p], fs[p], fs[p + 1..], b, e)
    ensures Alike(fs[..p], b, e, carry) && Alike([fs[p]], b, e, !carry) && Alike(fs[p + 1..], b, e, carry)
    ensures forall i :: b <= i < e ==> Covered(fs, i)
  {
    hide Distinct, Narrow, Clashes, AllInside, NoneLower, Uneven, Alike, StartsDiffer, Placed, Sum;
    var q;
    e, p, q, carry := FindClash(fs, n);
    var m := LowestStart(fs, e, p);
    b := fs[m].addr;
    AllPlaced(fs, e, m);
    PartsAlike(fs, b, e, p, carry);
    AloneSum(fs[p], b, e);
    OthersUneven(fs, b, e, p, q);
    forall i | b <= i < e ensures Covered(fs, i) {
      assert fs[m].addr <= i < End(fs[m]);
    }
  }

  lemma OthersUneven(fs: seq<Fixup>, b: nat, e: nat, p: nat, q: nat)
    requires b < e && p < |fs| && q < |fs| && p != q && Feeding(fs[q], e) && b <= fs[q].addr
    requires StartsDiffer(fs[..p] + fs[p + 1..], e) && Sum([fs[p]], b, e) == Pow256(e - b - 1) >= 1
    ensures Uneven(fs[..p], fs[p], fs[p + 1..], b, e)
  {
    var before, after, n := fs[..p], fs[p + 1..], if q < p then q else q - 1;
    assert (before + after)[n] == fs[q];
    SumsDiffer(before, after, b, e, n);
  }

  /** Relocating by d and then by -d does not restore the image. */
  ghost predicate Changed(img: Image, fs: seq<Fixup>, d: int) {
    AllInside(fs, |img|) && AddAll(AddAll(img, fs, d), fs, -d) != img
  }

  lemma NarrowBreaks(img0: Image, fs: seq<Fixup>) returns (img: Image)
    requires AllInside(fs, |img0|) && Distinct(fs) && Narrow(fs) && Clashes(fs)
    ensures SameOutside(img0, img, fs) && Changed(img, fs, 1)
  {
    hide Distinct, Narrow, Clashes, Uneven, Alike, Covered;
    var b, e, p, carry := FindWindow(fs, |img0|);
    AddAllThree(img0, fs, p, 1);
    img := Astray(img0, fs[..p], fs[p], fs[p + 1..], b, e, carry);
    AddAllThree(img, fs, p, 1);
    AddAllThree(AddAll(img, fs, 1), fs, p, -1);
  }

  // ---- Without the lowest byte of each field ----

  function Upper(f: Fixup): Fixup {
    if f.width == 0 then f else Fixup(f.addr + 1, f.width - 1)
  }

  function UpperAll(fs: seq<Fixup>): (r: seq<Fixup>)
    ensures |r| == |fs| && forall i :: 0 <= i < |fs| ==> r[i] == Upper(fs[i])
  {
    if fs == [] then [] else [Upper(fs[0])] + UpperAll(fs[1..])
  }

  lemma AddToNothing(img: Image, f: Fixup, d: int)
    requires Inside(f, |img|) && f.width == 0
    ensures AddAt(img, f, d) == img
  {
    PowPositive(0);
    AddAtValue(img, f, d);
  }

  /** An offset that is a multiple of 256 leaves the lowest byte of every field alone. */
  lemma {:induction false} UpperAdds(img: Image, fs: seq<Fixup>, d: int)
    requires AllInside(fs, |img|)
    ensures AllInside(UpperAll(fs), |img|) && AddAll(img, fs, 256 * d) == AddAll(img, UpperAll(fs), d)
    decreases |fs|
  {
    if fs == [] {
    } else {
      var f, rest := fs[0], fs[1..];
      if f.width == 0 {
        AddToNothing(img, f, d);
        AddToNothing(img, f, 256 * d);
      } else {
        AddAboveLowest(img, f, d);
      }
      hide AddAt;
      UpperAdds(AddAt(img, f, 256 * d), rest, d);
      assert UpperAll(fs)[1..] == UpperAll(rest);
    }
  }

  lemma UpperDistinct(fs: seq<Fixup>)
    requires Distinct(fs)
    ensures Distinct(UpperAll(fs))
  {
    var us := UpperAll(fs);
    forall i, j | 0 <= i < j < |us| && us[i] == us[j] ensures us[i].width == 0 {
      assert fs[i] == fs[j] ==> fs[i].width == 0;
    }
  }

  lemma UpperClashes(fs: seq<Fixup>)
    ensures !Clashes(UpperAll(fs)) ==> Narrow(fs)
  {
    var us := UpperAll(fs);
    forall i, j | 0 <= i < |fs| && 0 <= j < |fs| && Clash(fs[i], fs[j]) && !Clashes(us)
      ensures fs[i].addr + 1 == End(fs[i]) || fs[j].addr + 1 == End(fs[i])
    {
      assert !Clash(us[i], us[j]);
    }
  }

  lemma UpperCovers(img0: Image, img: Image, fs: seq<Fixup>)
    requires SameOutside(img0, img, UpperAll(fs))
    ensures SameOutside(img0, img, fs)
  {
    forall i | 0 <= i < |img0| && img0[i] != img[i] ensures Covered(fs, i) {
      assert Covered(UpperAll(fs), i);
      var k :| 0 <= k < |fs| && UpperAll(fs)[k].addr <= i < End(UpperAll(fs)[k]);
      assert fs[k].addr <= i < End(fs[k]);
    }
  }

  /** Fields that clash, on any image: some content of the fields and some offset are not restored. */
  lemma {:induction false} ClashBreaks(img0: Image, fs: seq<Fixup>, w: nat) returns (img: Image, d: int)
    requires AllInside(fs, |img0|) && Distinct(fs) && Clashes(fs)
    requires forall i :: 0 <= i < |fs| ==> fs[i].width <= w
    ensures SameOutside(img0, img, fs) && Changed(img, fs, d)
    decreases w
  {
    var us := UpperAll(fs);
    if Clashes(us) {
      UpperReady(img0, fs, w);
      hide SameOutside, Changed, Distinct, Clashes, AllInside, UpperAll;
      img, d := ClashBreaks(img0, us, w - 1);
      UpperBreaks(img0, img, fs, d);
      d := 256 * d;
    } else {
      UpperClashes(fs);
      img := NarrowBreaks(img0, fs);
      d := 1;
    }
  }

  lemma UpperReady(img: Image, fs: seq<Fixup>, w: nat)
    requires AllInside(fs, |img|) && Distinct(fs) && Clashes(fs) && forall i :: 0 <= i < |fs| ==> fs[i].width <= w
    ensures AllInside(UpperAll(fs), |img|) && Distinct(UpperAll(fs)) && w > 0
    ensures forall i :: 0 <= i < |UpperAll(fs)| ==> UpperAll(fs)[i].width <= w - 1
  {
    UpperAdds(img, fs, 0);
    UpperDistinct(fs);
    ClashHasWidth(fs, w);
  }

  lemma ClashHasWidth(fs: seq<Fixup>, w: nat)
    requires Clashes(fs) && forall i :: 0 <= i < |fs| ==> fs[i].width <= w
    ensures w > 0
  {
    var i, j :| 0 <= i < |fs| && 0 <= j < |fs| && Clash(fs[i], fs[j]);
    assert 0 < fs[i].width <= w;
  }

  lemma UpperBreaks(img0: Image, img: Image, fs: seq<Fixup>, d: int)
    requires AllInside(fs, |img|) && SameOutside(img0, img, UpperAll(fs)) && Changed(img, UpperAll(fs), d)
    ensures SameOutside(img0, img, fs) && Changed(img, fs, 256 * d)
  {
    UpperCovers(img0, img, fs);
    hide AddAll, UpperAll, AllInside, SameOutside;
    UpperTwice(img, fs, d, -d);
    assert -(256 * d) == 256 * -d;
  }

  lemma UpperTwice(img: Image, fs: seq<Fixup>, d: int, e: int)
    requires AllInside(fs, |img|)
    ensures AllInside(UpperAll(fs), |img|)
    ensures AddAll(AddAll(img, fs, 256 * d), fs, 256 * e) == AddAll(AddAll(img, UpperAll(fs), d), UpperAll(fs), e)
  {
    hide AddAll, UpperAll, AllInside;
    UpperAdds(img, fs, d);
    UpperAdds(AddAll(img, fs, 256 * d), fs, e);
  }

  // ---- The theorems ----

  ghost predicate ComesBack(fs: seq<Fixup>, n: nat)
    requires AllInside(fs, n)
  {
    forall img: Image, d: int :: |img| == n ==> AddAll(AddAll(img, fs, d), fs, -d) == img
  }

  lemma {:induction false} WidestField(fs: seq<Fixup>) returns (w: nat)
    ensures forall i :: 0 <= i < |fs| ==> fs[i].width <= w
  {
    if fs == [] {
      w := 0;
    } else {
      w := WidestField(fs[1..]);
      assert forall i :: 0 < i < |fs| ==> fs[i] == fs[1..][i - 1];
      if w < fs[0].width {
        w := fs[0].width;
      }
    }
  }

  /** Of the lists without repetition exactly those restore every image whose fields are disjoint or end at the
      same byte. */
  lemma ListComesBackExactly(fs: seq<Fixup>, n: nat)
    requires AllInside(fs, n) && Distinct(fs) && forall i :: 0 <= i < |fs| ==> fs[i].width > 0
    ensures ComesBack(fs, n) <==> Compatible(fs)
  {
    ClashesExactly(fs);
    if Compatible(fs) {
      forall img: Image, d: int | |img| == n ensures AddAll(AddAll(img, fs, d), fs, -d) == img {
        AddAllTwice(img, fs, d, -d);
        AddAllZero(img, fs);
      }
    } else {
      var w := WidestField(fs);
      var img, d := ClashBreaks(seq(n, i => 0), fs, w);
    }
  }

  /** For two different fields. */
  lemma PairComesBackExactly(f: Fixup, g: Fixup, n: nat)
    requires Inside(f, n) && Inside(g, n) && f.width > 0 && g.width > 0 && f != g
    ensures AllInside([f, g], n) && (ComesBack([f, g], n) <==> Disjoint(f, g) || End(f) == End(g))
  {
    ListComesBackExactly([f, g], n);
    assert Compatible([f, g]) ==> Independent([f, g][0], [f, g][1]);
  }

  lemma {:induction false} EntryWidths(img: Image, at: nat, va: nat, n: nat)
    requires at + 2 * n <= |img|
    ensures forall i :: 0 <= i < |Entries(img, at, va, n).0| ==> Entries(img, at, va, n).0[i].width in [4, 8]
    decreases n
  {
    if n == 0 {
    } else {
      hide Read;
      EntryWidths(img, at + 2, va, n - 1);
    }
  }

  lemma {:induction false} TableWidths(img: Image, pos: nat, end: nat)
    requires Table(img, pos, end).Walk?
    ensures var fs := Table(img, pos, end).fixups; forall i :: 0 <= i < |fs| ==> fs[i].width in [4, 8]
    decreases |img| - pos
  {
    if pos >= end || BlockSize(img, pos) == 0 {
    } else {
      EntryWidths(img, pos + 8, BlockAddress(img, pos), EntryCount(BlockSize(img, pos)));
      hide Read, Entries, EntryCount, BlockSize, BlockAddress;
      if Block(img, pos).1 {
        TableWidths(img, pos + BlockSize(img, pos), end);
      }
    }
  }

  /** The image is restored after relocating it by d and then by -d. */
  ghost predicate Restored(img: Image, start: nat, end: nat, d: int)
    requires Relocatable(img, start, end)
  {
    RelocatedTable(img, start, end, d);
    Relocated(Relocated(img, start, end, d), start, end, -d) == img
  }

  ghost predicate SameTable(img0: Image, img: Image, start: nat, end: nat) {
    |img| == |img0| && Relocatable(img, start, end) && Table(img, start, end) == Table(img0, start, end)
  }

  lemma TableStays(img0: Image, img: Image, start: nat, end: nat)
    requires Relocatable(img0, start, end) && SameOutside(img0, img, Table(img0, start, end).fixups)
    ensures SameTable(img0, img, start, end)
  {
    var w := Table(img0, start, end);
    forall i | start <= i < w.stop && i < |img0| ensures img0[i] == img[i] {
      assert !Covered(w.fixups, i);
    }
    TableSame(img0, img, start, end);
  }

  /** A table that lists no field twice restores every image it belongs to, at every offset, exactly when its fields
      are disjoint or end at the same byte. */
  lemma TableComesBackExactly(img0: Image, start: nat, end: nat)
    requires Relocatable(img0, start, end) && Distinct(Table(img0, start, end).fixups)
    ensures (forall img, d :: SameTable(img0, img, start, end) ==> Restored(img, start, end, d))
       <==> Compatible(Table(img0, start, end).fixups)
  {
    var fs := Table(img0, start, end).fixups;
    TableWidths(img0, start, end);
    ClashesExactly(fs);
    hide Table, Relocatable, Restored, SameTable, Distinct, Clashes;
    if Compatible(fs) {
      forall img, d | SameTable(img0, img, start, end) ensures Restored(img, start, end, d) {
        CompatibleRestores(img0, img, start, end, d);
      }
    } else {
      var img, d := ClashChanges(img0, start, end);
    }
  }

  lemma CompatibleRestores(img0: Image, img: Image, start: nat, end: nat, d: int)
    requires Table(img0, start, end).Walk? && Compatible(Table(img0, start, end).fixups)
    requires SameTable(img0, img, start, end)
    ensures Restored(img, start, end, d)
  {
    hide Table, Compatible;
    RelocateBack(img, start, end, d, -d);
  }

  lemma ClashChanges(img0: Image, start: nat, end: nat) returns (img: Image, d: int)
    requires Relocatable(img0, start, end) && Distinct(Table(img0, start, end).fixups)
    requires Clashes(Table(img0, start, end).fixups)
    ensures SameTable(img0, img, start, end) && !Restored(img, start, end, d)
  {
    TableWidths(img0, start, end);
    hide Table, Distinct, Clashes, SameOutside;
    img, d := ClashBreaks(img0, Table(img0, start, end).fixups, 8);
    TableStays(img0, img, start, end);
    RelocatedTable(img, start, end, d);
  }
}
