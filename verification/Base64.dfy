/** base64_encode and base64_decode, the bit stream of section 4 of RFC 4648 they stand for, and their round trip. */
module Base64 {

  import opened LittleEndian
  import opened Options
  import opened Sequences

  type Sextet = x: nat | x < 64

  /** encoding_table: A to Z, a to z, 0 to 9, + and /. */
  function Letter(k: Sextet): char {
    if k < 26 then 'A' + k as char
    else if k < 52 then 'a' + (k - 26) as char
    else if k < 62 then '0' + (k - 52) as char
    else if k == 62 then '+' else '/'
  }

  lemma AlphabetAt(k: nat)
    requires k < 26
    ensures "ABCDEFGHIJKLMNOPQRSTUVWXYZ"[k] as int == 65 + k
    ensures "abcdefghijklmnopqrstuvwxyz"[k] as int == 97 + k
  {
  }

  /** Table 1 of RFC 4648. */
  lemma LettersAreRfc4648(k: Sextet)
    ensures Letter(k) == ("ABCDEFGHIJKLMNOPQRSTUVWXYZ" + "abcdefghijklmnopqrstuvwxyz" + "0123456789" + "+/")[k]
  {
    if k < 26 {
      AlphabetAt(k);
    } else if k < 52 {
      AlphabetAt(k - 26);
    }
  }

  lemma LettersDiffer(k: Sextet, l: Sextet)
    ensures Letter(k) == Letter(l) ==> k == l
    ensures Letter(k) != '=' && Letter(k) as int < 128
  {}

  // ---- Encoding ----

  /** The 24-bit number of three octets, and its k-th sextet from the left. */
  function Triple(a: byte, b: byte, c: byte): nat {
    a * 0x10000 + b * 0x100 + c
  }

  function SextetAt(triple: nat, k: nat): Sextet
    requires k < 4
  {
    triple / (if k == 0 then 0x40000 else if k == 1 then 0x1000 else if k == 2 then 0x40 else 1) % 64
  }

  /** The octets of a group, with missing ones read as zero. */
  function OctetAt(x: seq<byte>, i: nat): byte {
    if i < |x| then x[i] else 0
  }

  function GroupAt(x: seq<byte>, i: nat): nat {
    Triple(OctetAt(x, i), OctetAt(x, i + 1), OctetAt(x, i + 2))
  }

  /** The four letters of the group that starts at octet i. */
  function Quad(x: seq<byte>, i: nat): (r: string)
    ensures |r| == 4
  {
    var t := GroupAt(x, i);
    [Letter(SextetAt(t, 0)), Letter(SextetAt(t, 1)), Letter(SextetAt(t, 2)), Letter(SextetAt(t, 3))]
  }

  /** The letters of all groups, before the padding is put over the last ones. */
  function Quads(x: seq<byte>, i: nat): (r: string)
    ensures |r| == 4 * Groups(|x| - i)
    decreases |x| - i
  {
    if i >= |x| then [] else
      GroupsStep(|x| - i);
      hide Quad, Groups;
      Quad(x, i) + Quads(x, i + 3)
  }

  lemma GroupsStep(n: int)
    requires n > 0
    ensures Groups(n) == Groups(n - 3) + 1
  {}

  /** Groups of three that n octets need. */
  function Groups(n: int): nat {
    if n <= 0 then 0 else (n + 2) / 3
  }

  /** mod_table */
  function Padding(n: nat): nat {
    if n % 3 == 0 then 0 else 3 - n % 3
  }

  function Pads(n: nat): (r: string)
    ensures |r| == n
  {
    if n == 0 then [] else ['='] + Pads(n - 1)
  }

  function Encode(x: seq<byte>): string {
    var q := Quads(x, 0);
    assert |x| % 3 != 0 ==> |q| >= 4;
    q[..|q| - Padding(|x|)] + Pads(Padding(|x|))
  }

  // ---- The bit stream of RFC 4648 ----

  function Pow2(w: nat): nat {
    if w == 0 then 1 else 2 * Pow2(w - 1)
  }

  /** The w low bits of a number, most significant first. */
  function BitsOf(n: nat, w: nat): (r: seq<bool>)
    ensures |r| == w
  {
    if w == 0 then [] else BitsOf(n / 2, w - 1) + [n % 2 == 1]
  }

  function ValueOf(bits: seq<bool>): nat {
    if bits == [] then 0 else 2 * ValueOf(bits[..|bits| - 1]) + (if bits[|bits| - 1] then 1 else 0)
  }

  /** The octets as one stream of bits. */
  function BitStream(x: seq<byte>): (r: seq<bool>)
    ensures |r| == 8 * |x|
  {
    if x == [] then [] else BitsOf(x[0], 8) + BitStream(x[1..])
  }

  function Zeros(n: nat): (r: seq<bool>)
    ensures |r| == n
  {
    if n == 0 then [] else [false] + Zeros(n - 1)
  }

  /** Each 6-bit group as a letter. */
  function Letters(bits: seq<bool>): (r: string)
    requires |bits| % 6 == 0
    ensures |r| == |bits| / 6
  {
    if bits == [] then [] else
      ValueBound6(bits[..6]);
      [Letter(ValueOf(bits[..6]))] + Letters(bits[6..])
  }

  lemma ValueBound6(bits: seq<bool>)
    requires |bits| == 6
    ensures ValueOf(bits) < 64
  {
    ValueBelow(bits);
    assert Pow2(6) == 64;
  }

  lemma {:induction false} ValueBelow(bits: seq<bool>)
    ensures ValueOf(bits) < Pow2(|bits|)
  {
    if bits == [] {
    } else {
      ValueBelow(bits[..|bits| - 1]);
    }
  }

  lemma WholeSextets(n: nat)
    ensures (n + (6 - n % 6) % 6) % 6 == 0
  {}

  /** Zero bits complete the last 6-bit group, and = characters complete the last quantum of four characters. */
  function Rfc4648(x: seq<byte>): string {
    var bits := BitStream(x);
    var missing := (6 - |bits| % 6) % 6;
    WholeSextets(|bits|);
    var letters := Letters(bits + Zeros(missing));
    letters + Pads((4 - |letters| % 4) % 4)
  }

  // ---- The encoder follows the RFC ----

  lemma {:induction false} BitsSplit(hi: nat, lo: nat, v: nat, w: nat)
    requires lo < Pow2(w)
    ensures BitsOf(hi * Pow2(w) + lo, v + w) == BitsOf(hi, v) + BitsOf(lo, w)
  {
    if w == 0 {
    } else {
      var n := hi * Pow2(w) + lo;
      Halve(hi, Pow2(w - 1), lo);
      BitsSplit(hi, lo / 2, v, w - 1);
      assert BitsOf(n, v + w) == BitsOf(n / 2, v + w - 1) + [n % 2 == 1];
    }
  }

  lemma Halve(hi: nat, p: nat, lo: nat)
    ensures (hi * (2 * p) + lo) / 2 == hi * p + lo / 2 && (hi * (2 * p) + lo) % 2 == lo % 2
  {
    var m := hi * p;
    assert hi * (2 * p) == 2 * m;
  }

  lemma {:induction false} ValueBits(n: nat, w: nat)
    requires n < Pow2(w)
    ensures ValueOf(BitsOf(n, w)) == n
  {
    if w == 0 {
    } else {
      ValueBits(n / 2, w - 1);
      var bits := BitsOf(n, w);
      assert bits[..w - 1] == BitsOf(n / 2, w - 1);
    }
  }

  lemma SmallPowers()
    ensures Pow2(6) == 64 && Pow2(8) == 256 && Pow2(12) == 4096 && Pow2(16) == 65536 && Pow2(18) == 262144
  {
    assert Pow2(6) == 64;
    assert Pow2(12) == 64 * Pow2(6);
    assert Pow2(16) == 16 * Pow2(12);
    assert Pow2(18) == 4 * Pow2(16);
  }

  /** Three octets are 24 bits. */
  lemma TripleBits(a: byte, b: byte, c: byte)
    ensures BitsOf(a, 8) + BitsOf(b, 8) + BitsOf(c, 8) == BitsOf(Triple(a, b, c), 24)
  {
    SmallPowers();
    hide BitsOf, Pow2;
    BitsSplit(a * 256 + b, c, 16, 8);
    BitsSplit(a, b, 8, 8);
  }

  lemma SextetsOf(t: nat)
    requires t < 0x1000000
    ensures t == t / 64 * 64 + SextetAt(t, 3)
    ensures t / 64 == t / 4096 * 64 + SextetAt(t, 2)
    ensures t / 4096 == SextetAt(t, 0) * 64 + SextetAt(t, 1)
  {}

  /** 24 bits are four sextets. */
  lemma SextetBits(t: nat)
    requires t < 0x1000000
    ensures BitsOf(t, 24) ==
      BitsOf(SextetAt(t, 0), 6) + BitsOf(SextetAt(t, 1), 6) + BitsOf(SextetAt(t, 2), 6) + BitsOf(SextetAt(t, 3), 6)
  {
    SmallPowers();
    SextetsOf(t);
    hide BitsOf, Pow2, SextetAt;
    var b0, b1, b2, b3 := BitsOf(SextetAt(t, 0), 6), BitsOf(SextetAt(t, 1), 6), BitsOf(SextetAt(t, 2), 6),
      BitsOf(SextetAt(t, 3), 6);
    assert BitsOf(t / 4096, 12) == b0 + b1 by { BitsSplit(SextetAt(t, 0), SextetAt(t, 1), 6, 6); }
    assert BitsOf(t / 64, 18) == b0 + b1 + b2 by { BitsSplit(t / 4096, SextetAt(t, 2), 12, 6); }
    assert BitsOf(t, 24) == b0 + b1 + b2 + b3 by { BitsSplit(t / 64, SextetAt(t, 3), 18, 6); }
  }

  lemma {:induction false} LettersAppend(a: seq<bool>, b: seq<bool>)
    requires |a| % 6 == 0 && |b| % 6 == 0
    ensures Letters(a + b) == Letters(a) + Letters(b)
  {
    if a == [] {
      assert a + b == b;
    } else {
      assert (a + b)[..6] == a[..6] && (a + b)[6..] == a[6..] + b;
      LettersAppend(a[6..], b);
    }
  }

  lemma OneLetter(k: Sextet)
    ensures Letters(BitsOf(k, 6)) == [Letter(k)]
  {
    SmallPowers();
    ValueBits(k, 6);
    assert BitsOf(k, 6)[..6] == BitsOf(k, 6);
  }

  lemma QuadLetters(t: nat)
    requires t < 0x1000000
    ensures Letters(BitsOf(t, 24))
      == [Letter(SextetAt(t, 0)), Letter(SextetAt(t, 1)), Letter(SextetAt(t, 2)), Letter(SextetAt(t, 3))]
  {
    var s0, s1, s2, s3 := SextetAt(t, 0), SextetAt(t, 1), SextetAt(t, 2), SextetAt(t, 3);
    SextetBits(t);
    OneLetter(s0);
    OneLetter(s1);
    OneLetter(s2);
    OneLetter(s3);
    hide Letters, BitsOf, SextetAt, Letter;
    LettersAppend(BitsOf(s0, 6), BitsOf(s1, 6));
    LettersAppend(BitsOf(s0, 6) + BitsOf(s1, 6), BitsOf(s2, 6));
    LettersAppend(BitsOf(s0, 6) + BitsOf(s1, 6) + BitsOf(s2, 6), BitsOf(s3, 6));
  }

  /** Whole groups: the letters of the stream are the letters of the groups. */
  lemma {:induction false} WholeGroups(y: seq<byte>, i: nat)
    requires |y| % 3 == 0 && i % 3 == 0 && i <= |y|
    ensures |BitStream(y[i..])| % 6 == 0 && Letters(BitStream(y[i..])) == Quads(y, i)
    decreases |y| - i
  {
    if i == |y| {
    } else {
      WholeGroups(y, i + 3);
      var z, t := y[i..], GroupAt(y, i);
      StreamOfThree(z);
      assert z[3..] == y[i + 3..] && z[0] == y[i] && z[1] == y[i + 1] && z[2] == y[i + 2];
      TripleBits(z[0], z[1], z[2]);
      assert t == Triple(z[0], z[1], z[2]);
      assert Quads(y, i) == Quad(y, i) + Quads(y, i + 3);
      QuadLetters(t);
      hide BitsOf, BitStream, Letters, Quads, GroupAt, SextetAt, Triple, Letter;
      LettersAppend(BitsOf(t, 24), BitStream(z[3..]));
    }
  }

  lemma StreamOfThree(z: seq<byte>)
    requires |z| >= 3
    ensures BitStream(z) == BitsOf(z[0], 8) + BitsOf(z[1], 8) + BitsOf(z[2], 8) + BitStream(z[3..])
  {
    assert z[1..][1..] == z[2..] && z[2..][1..] == z[3..];
    assert BitStream(z[1..]) == BitsOf(z[1], 8) + BitStream(z[2..]);
    assert BitStream(z[2..]) == BitsOf(z[2], 8) + BitStream(z[3..]);
    hide BitsOf;
    RegroupFour(BitsOf(z[0], 8), BitsOf(z[1], 8), BitsOf(z[2], 8), BitStream(z[3..]));
  }

  /** The octets completed to whole groups. */
  function Completed(x: seq<byte>): (y: seq<byte>)
    ensures |y| == |x| + Padding(|x|) && |y| % 3 == 0
  {
    x + (if |x| % 3 == 0 then [] else if |x| % 3 == 1 then [0, 0] else [0])
  }

  /** Completing the octets with zeros does not change the letters. */
  lemma QuadCompleted(x: seq<byte>, i: nat)
    ensures Quad(Completed(x), i) == Quad(x, i)
  {
    assert forall k :: OctetAt(Completed(x), k) == OctetAt(x, k);
    hide Completed, OctetAt, Letter, SextetAt, Triple;
  }

  lemma {:induction false} QuadsCompleted(x: seq<byte>, i: nat)
    requires i % 3 == 0
    ensures Quads(Completed(x), i) == Quads(x, i)
    decreases |x| - i
  {
    if i >= |x| {
    } else {
      QuadsCompleted(x, i + 3);
      QuadCompleted(x, i);
      hide Quad, OctetAt;
      assert i < |Completed(x)|;
      hide Completed;
    }
  }

  lemma {:induction false} StreamAppend(x: seq<byte>, z: seq<byte>)
    ensures BitStream(x + z) == BitStream(x) + BitStream(z)
  {
    if x == [] {
      assert x + z == z;
    } else {
      assert (x + z)[1..] == x[1..] + z;
      StreamAppend(x[1..], z);
    }
  }

  lemma {:induction false} ZerosAppend(m: nat, n: nat)
    ensures Zeros(m + n) == Zeros(m) + Zeros(n)
  {
    if m > 0 {
      ZerosAppend(m - 1, n);
      assert Zeros(m + n) == [false] + Zeros(m - 1 + n);
    } else {
      assert Zeros(0) + Zeros(n) == Zeros(n);
    }
  }

  lemma {:induction false} ZeroBits(w: nat)
    ensures BitsOf(0, w) == Zeros(w)
  {
    if w == 0 {
    } else {
      ZeroBits(w - 1);
      ZerosAppend(w - 1, 1);
      assert Zeros(1) == [false];
    }
  }

  lemma {:induction false} ZeroStream(z: seq<byte>)
    requires forall k :: 0 <= k < |z| ==> z[k] == 0
    ensures BitStream(z) == Zeros(8 * |z|)
  {
    if z == [] {
    } else {
      ZeroStream(z[1..]);
      ZeroBits(8);
      ZerosAppend(8, 8 * |z[1..]|);
      hide BitsOf, Zeros;
    }
  }

  /** The stream of the completed octets ends in zero bits. */
  lemma CompletedStream(x: seq<byte>)
    ensures BitStream(Completed(x)) == BitStream(x) + Zeros(8 * Padding(|x|))
  {
    var z := CompletedEnd(x);
    hide *;
    ZeroStream(z);
    StreamAppend(x, z);
  }

  lemma CompletedEnd(x: seq<byte>) returns (z: seq<byte>)
    ensures Completed(x) == x + z && |z| == Padding(|x|) && forall k :: 0 <= k < |z| ==> z[k] == 0
  {
    z := Completed(x)[|x|..];
  }

  /** How many zero bits and how many = characters are missing. */
  lemma MissingParts(n: nat, p: nat, q: nat)
    requires p == Padding(n) && q == 4 * Groups(n)
    ensures (6 - 8 * n % 6) % 6 == 2 * p && (8 * n + 2 * p) % 6 == 0 && 6 * p % 6 == 0 && p <= q
      && (4 - (q - p) % 4) % 4 == p
  {
    var m := n / 3;
    if n % 3 == 0 { assert n == 3 * m; } else if n % 3 == 1 { assert n == 3 * m + 1; } else { assert n == 3 * m + 2; }
  }

  lemma EncodeParts(x: seq<byte>)
    ensures Padding(|x|) <= |Quads(x, 0)|
    ensures Encode(x) == Quads(x, 0)[..|Quads(x, 0)| - Padding(|x|)] + Pads(Padding(|x|))
  {}

  lemma Rfc4648Parts(x: seq<byte>, p: nat)
    requires (6 - |BitStream(x)| % 6) % 6 == 2 * p && (|BitStream(x)| + 2 * p) % 6 == 0
    ensures var letters := Letters(BitStream(x) + Zeros(2 * p)); Rfc4648(x) == letters + Pads((4 - |letters| % 4) % 4)
  {}

  /** The encoder's output is the encoding of section 4 of RFC 4648, for every octet sequence. */
  lemma EncodeIsRfc4648(x: seq<byte>)
    ensures Encode(x) == Rfc4648(x)
  {
    hide *;
    var p, q, bits := Padding(|x|), Quads(x, 0), BitStream(x);
    MissingParts(|x|, p, |q|);
    EncodeParts(x);
    Rfc4648Parts(x, p);
    QuadsOfStream(x);
    ZerosAppend(2 * p, 6 * p);
    Regroup(bits, Zeros(2 * p), Zeros(6 * p));
    LettersAppend(bits + Zeros(2 * p), Zeros(6 * p));
    Prefix(Letters(bits + Zeros(2 * p)), Letters(Zeros(6 * p)), q, |q| - p);
  }

  lemma Prefix<T>(a: seq<T>, b: seq<T>, q: seq<T>, n: nat)
    requires a + b == q && |a| == n
    ensures n <= |q| && a == q[..n]
  {}

  lemma QuadsOfStream(x: seq<byte>)
    ensures var bits := BitStream(x) + Zeros(8 * Padding(|x|)); |bits| % 6 == 0 && Letters(bits) == Quads(x, 0)
  {
    var y := Completed(x);
    QuadsCompleted(x, 0);
    WholeGroups(y, 0);
    assert y[0..] == y;
    CompletedStream(x);
  }

  // ---- Decoding ----

  /** A signed C char, as the decoding table holds them. */
  type schar = x: int | -128 <= x < 128

  /** build_decoding_table fills in the letters; the other entries hold whatever was in the memory. */
  predicate ValidTable(table: seq<schar>) {
    |table| == 256 && forall k: Sextet :: table[Letter(k) as int] == k
  }

  /** The characters can index the table. */
  predicate Indexable(text: string) {
    forall k :: 0 <= k < |text| ==> text[k] as int < 128
  }

  /** A table entry as an unsigned 32-bit number; the = character counts as zero. */
  function SextetOf(table: seq<schar>, c: char): nat
    requires |table| == 256 && c as int < 128
  {
    if c == '=' then 0 else (table[c as int] as int) % 0x1_0000_0000
  }

  /** The triple of four characters, in unsigned 32-bit arithmetic. */
  function TripleAt(table: seq<schar>, text: string, i: nat): nat
    requires |table| == 256 && Indexable(text) && i + 4 <= |text|
  {
    (SextetOf(table, text[i]) * 0x40000 + SextetOf(table, text[i + 1]) * 0x1000
     + SextetOf(table, text[i + 2]) * 0x40 + SextetOf(table, text[i + 3])) % 0x1_0000_0000
  }

  function OctetsOf(triple: nat): (r: seq<byte>)
    ensures |r| == 3
  {
    [triple / 0x10000 % 0x100, triple / 0x100 % 0x100, triple % 0x100]
  }

  function AllOctets(table: seq<schar>, text: string, i: nat): (r: seq<byte>)
    requires |table| == 256 && Indexable(text) && |text| % 4 == 0 && i % 4 == 0 && i <= |text|
    ensures |r| == (|text| - i) / 4 * 3
    decreases |text| - i
  {
    if i == |text| then [] else
      hide OctetsOf, TripleAt;
      OctetsOf(TripleAt(table, text, i)) + AllOctets(table, text, i + 4)
  }

  lemma AllOctetsStep(table: seq<schar>, text: string, i: nat)
    requires |table| == 256 && Indexable(text) && |text| % 4 == 0 && i % 4 == 0 && i < |text|
    ensures i + 4 <= |text|
      && AllOctets(table, text, i) == OctetsOf(TripleAt(table, text, i)) + AllOctets(table, text, i + 4)
  {}

  function DecodedLength(text: string): nat
    requires |text| % 4 == 0 && |text| > 0
  {
    |text| / 4 * 3 - (if text[|text| - 1] == '=' then 1 else 0) - (if text[|text| - 2] == '=' then 1 else 0)
  }

  function Decode(table: seq<schar>, text: string): Option<seq<byte>>
    requires |table| == 256 && Indexable(text) && |text| > 0
  {
    if |text| % 4 != 0 then None else Some(AllOctets(table, text, 0)[..DecodedLength(text)])
  }

  // ---- Round trip ----

  lemma QuadAt(x: seq<byte>, i: nat, m: nat)
    requires m < 4
    ensures Quad(x, i)[m] == Letter(SextetAt(GroupAt(x, i), m))
  {
    hide Letter, SextetAt, GroupAt;
  }

  lemma QuadsFirst(x: seq<byte>, i: nat)
    requires i < |x|
    ensures Quads(x, i) == Quad(x, i) + Quads(x, i + 3)
  {
  }

  /** The m-th letter of the k-th group. */
  lemma {:induction false} QuadsAt(x: seq<byte>, i: nat, k: nat, m: nat)
    requires m < 4 && i + 3 * k < |x|
    ensures 4 * k + m < |Quads(x, i)| && Quads(x, i)[4 * k + m] == Letter(SextetAt(GroupAt(x, i + 3 * k), m))
    decreases k
  {
    hide Quad, Quads, Letter, SextetAt, GroupAt;
    QuadsFirst(x, i);
    if k == 0 {
      QuadAt(x, i, m);
    } else {
      QuadsAt(x, i + 3, k - 1, m);
    }
  }

  lemma {:induction false} PadsAt(n: nat)
    ensures forall k :: 0 <= k < n ==> Pads(n)[k] == '='
  {
    if n == 0 {
    } else {
      PadsAt(n - 1);
    }
  }

  /** The last group, the padding and the places of the letters. */
  lemma Places(n: nat, k: nat, m: nat)
    requires m < 4 && 3 * k < n
    ensures 4 * k + 4 <= 4 * Groups(n) && Padding(n) < 4
    ensures 4 * k + m < 4 * Groups(n) - Padding(n) <==> 3 * k + m <= n
  {
    LastGroup(n);
  }

  lemma LastGroup(n: nat)
    requires n > 0
    ensures Groups(n) >= 1 && 3 * (Groups(n) - 1) < n <= 3 * Groups(n) && Padding(n) == 3 * Groups(n) - n
  {}

  /** The character at the m-th place of the k-th group: its letter, or = where the group has no octet for it. */
  lemma EncodedAt(x: seq<byte>, k: nat, m: nat)
    requires m < 4 && 3 * k < |x|
    ensures 4 * k + m < |Encode(x)| == 4 * Groups(|x|)
    ensures Encode(x)[4 * k + m] == if 3 * k + m <= |x| then Letter(SextetAt(GroupAt(x, 3 * k), m)) else '='
  {
    hide *;
    EncodeParts(x);
    Places(|x|, k, m);
    QuadsAt(x, 0, k, m);
    var q, p := Quads(x, 0), Padding(|x|);
    PadsAt(p);
  }

  /** A place without an octet would have held a zero sextet. */
  lemma MissingSextet(x: seq<byte>, k: nat, m: nat)
    requires m < 4 && 3 * k < |x| && 3 * k + m > |x|
    ensures SextetAt(GroupAt(x, 3 * k), m) == 0
  {}

  lemma LetterDecoded(table: seq<schar>, s: Sextet)
    requires ValidTable(table)
    ensures |table| == 256 && Letter(s) as int < 128
    ensures SextetOf(table, Letter(s)) == s && SextetOf(table, '=') == 0
  {
    LettersDiffer(s, s);
    assert table[Letter(s) as int] == s;
  }

  lemma SextetDecoded(x: seq<byte>, table: seq<schar>, k: nat, m: nat)
    requires m < 4 && 3 * k < |x| && ValidTable(table)
    ensures 4 * k + m < |Encode(x)| && Encode(x)[4 * k + m] as int < 128
    ensures SextetOf(table, Encode(x)[4 * k + m]) == SextetAt(GroupAt(x, 3 * k), m)
  {
    hide *;
    EncodedAt(x, k, m);
    var s := SextetAt(GroupAt(x, 3 * k), m);
    LetterDecoded(table, s);
    if 3 * k + m > |x| {
      MissingSextet(x, k, m);
    }
  }

  lemma EncodeIndexable(x: seq<byte>)
    ensures |Encode(x)| == 4 * Groups(|x|) && Indexable(Encode(x))
  {
    var e := Encode(x);
    assert |e| == 4 * Groups(|x|) by { if x != [] { EncodedAt(x, 0, 0); } }
    forall j | 0 <= j < |e| ensures e[j] as int < 128 {
      CharacterIndexable(x, j / 4, j % 4);
    }
  }

  lemma CharacterIndexable(x: seq<byte>, k: nat, m: nat)
    requires m < 4 && k < Groups(|x|)
    ensures 4 * k + m < |Encode(x)| && Encode(x)[4 * k + m] as int < 128
  {
    assert 3 * k < |x|;
    hide *;
    EncodedAt(x, k, m);
    LettersDiffer(SextetAt(GroupAt(x, 3 * k), m), 0);
  }

  lemma TableLength(table: seq<schar>)
    requires ValidTable(table)
    ensures |table| == 256
  {}

  lemma TripleParts(table: seq<schar>, text: string, i: nat)
    requires |table| == 256 && Indexable(text) && i + 4 <= |text|
    ensures TripleAt(table, text, i) == (
      SextetOf(table, text[i]) * 0x40000 + SextetOf(table, text[i + 1]) * 0x1000
      + SextetOf(table, text[i + 2]) * 0x40 + SextetOf(table, text[i + 3])) % 0x1_0000_0000
  {}

  lemma GroupBound(x: seq<byte>, i: nat)
    ensures GroupAt(x, i) < 0x1000000
  {}

  lemma TripleDecoded(x: seq<byte>, table: seq<schar>, k: nat)
    requires 3 * k < |x| && ValidTable(table)
    ensures |table| == 256 && Indexable(Encode(x)) && 4 * k + 4 <= |Encode(x)|
    ensures TripleAt(table, Encode(x), 4 * k) == GroupAt(x, 3 * k)
  {
    hide *;
    EncodeIndexable(x);
    TableLength(table);
    SextetDecoded(x, table, k, 0);
    SextetDecoded(x, table, k, 1);
    SextetDecoded(x, table, k, 2);
    SextetDecoded(x, table, k, 3);
    GroupBound(x, 3 * k);
    SextetsOf(GroupAt(x, 3 * k));
    TripleParts(table, Encode(x), 4 * k);
  }

  lemma TripleOctets(a: byte, b: byte, c: byte)
    ensures OctetsOf(Triple(a, b, c)) == [a, b, c]
  {
    var t := Triple(a, b, c);
    assert t / 0x100 == a * 0x100 + b && t % 0x100 == c;
    assert t / 0x10000 == a;
    assert (a * 0x100 + b) % 0x100 == b;
  }

  lemma SliceThree(y: seq<byte>, j: nat)
    requires j + 3 <= |y|
    ensures y[j..] == [y[j], y[j + 1], y[j + 2]] + y[j + 3..]
  {}

  /** The k-th group of the text stands for octets 3k to 3k + 2. */
  predicate GroupDecoded(table: seq<schar>, text: string, y: seq<byte>, k: nat) {
    && |table| == 256 && Indexable(text) && 4 * k + 4 <= |text| && 3 * k + 3 <= |y|
    && OctetsOf(TripleAt(table, text, 4 * k)) == [y[3 * k], y[3 * k + 1], y[3 * k + 2]]
  }

  lemma {:induction false} AllDecoded(table: seq<schar>, text: string, y: seq<byte>, g: nat, k: nat)
    requires |table| == 256 && Indexable(text) && |text| == 4 * g && |y| == 3 * g && k <= g
    requires forall i :: 0 <= i < g ==> GroupDecoded(table, text, y, i)
    ensures AllOctets(table, text, 4 * k) == y[3 * k..]
    decreases g - k
  {
    hide Indexable, TripleAt, OctetsOf;
    if k == g {
    } else {
      AllDecoded(table, text, y, g, k + 1);
      AllOctetsStep(table, text, 4 * k);
      hide AllOctets;
      assert GroupDecoded(table, text, y, k);
      SliceThree(y, 3 * k);
      assert 4 * (k + 1) == 4 * k + 4 && 3 * (k + 1) == 3 * k + 3;
    }
  }

  lemma EncodedGroup(x: seq<byte>, table: seq<schar>, k: nat)
    requires ValidTable(table) && 3 * k < |x|
    ensures GroupDecoded(table, Encode(x), Completed(x), k)
  {
    hide *;
    var j, y := 3 * k, Completed(x);
    TripleDecoded(x, table, k);
    TripleOctets(OctetAt(x, j), OctetAt(x, j + 1), OctetAt(x, j + 2));
    CompletedGroup(x, k);
    IntoDecoded(table, Encode(x), y, k);
  }

  lemma CompletedGroup(x: seq<byte>, k: nat)
    requires 3 * k < |x|
    ensures 3 * k + 3 <= |Completed(x)|
    ensures Completed(x)[3 * k..3 * k + 3] == [OctetAt(x, 3 * k), OctetAt(x, 3 * k + 1), OctetAt(x, 3 * k + 2)]
    ensures GroupAt(x, 3 * k) == Triple(OctetAt(x, 3 * k), OctetAt(x, 3 * k + 1), OctetAt(x, 3 * k + 2))
  {
    var y := Completed(x);
    assert y[3 * k] == OctetAt(x, 3 * k) && y[3 * k + 1] == OctetAt(x, 3 * k + 1)
      && y[3 * k + 2] == OctetAt(x, 3 * k + 2);
  }

  lemma IntoDecoded(table: seq<schar>, text: string, y: seq<byte>, k: nat)
    requires |table| == 256 && Indexable(text) && 4 * k + 4 <= |text| && 3 * k + 3 <= |y|
    requires OctetsOf(TripleAt(table, text, 4 * k)) == y[3 * k..3 * k + 3]
    ensures GroupDecoded(table, text, y, k)
  {}

  /** Decoding what was encoded gives the octets back, all of them and no more. */
  lemma DecodeEncode(x: seq<byte>, table: seq<schar>)
    requires x != [] && ValidTable(table)
    ensures |Encode(x)| > 0 && Indexable(Encode(x))
    ensures Decode(table, Encode(x)) == Some(x)
  {
    EncodeIndexable(x);
    LastCharacters(x);
    LastGroup(|x|);
    var y, g := Completed(x), Groups(|x|);
    assert y[0..] == y && y[..|x|] == x && |y| == 3 * g;
    assert |table| == 256;
    assert Decode(table, Encode(x)) == Some(AllOctets(table, Encode(x), 0)[..DecodedLength(Encode(x))]);
    hide *;
    forall i | 0 <= i < g ensures GroupDecoded(table, Encode(x), y, i) {
      EncodedGroup(x, table, i);
    }
    AllDecoded(table, Encode(x), y, g, 0);
  }

  lemma LastCharacters(x: seq<byte>)
    requires x != []
    ensures |Encode(x)| > 0 && |Encode(x)| % 4 == 0 && DecodedLength(Encode(x)) == |x|
  {
    hide *;
    LastGroup(|x|);
    var k := Groups(|x|) - 1;
    EncodedAt(x, k, 2);
    EncodedAt(x, k, 3);
    LettersDiffer(SextetAt(GroupAt(x, 3 * k), 2), 0);
    LettersDiffer(SextetAt(GroupAt(x, 3 * k), 3), 0);
    var e := Encode(x);
    assert |e| == 4 * k + 4;
    assert e[|e| - 1] == '=' <==> 3 * k + 3 > |x|;
    assert e[|e| - 2] == '=' <==> 3 * k + 2 > |x|;
    TrailingPads(e, k);
  }

  lemma TrailingPads(text: string, k: nat)
    requires |text| == 4 * k + 4
    ensures DecodedLength(text) ==
      3 * k + 3 - (if text[|text| - 1] == '=' then 1 else 0) - (if text[|text| - 2] == '=' then 1 else 0)
  {}

  // ---- The functions of base64.cpp, working on buffers ----

  method Base64Encode(data: array<byte>) returns (encoded: array<char>)
    ensures fresh(encoded) && encoded[..] == Encode(data[..])
  {
    var n := data.Length;
    var outputLength := 4 * ((n + 2) / 3);
    encoded := new char[outputLength];
    EncodeAll(data, encoded);
    PutPadding(encoded, Padding(n));
  }

  method EncodeAll(data: array<byte>, encoded: array<char>)
    requires encoded.Length == 4 * Groups(data.Length)
    modifies encoded
    ensures encoded[..] == Quads(data[..], 0)
  {
    hide Quad, Quads;
    var n := data.Length;
    ghost var x, q, g := data[..], Quads(data[..], 0), 0;
    var i, j := 0, 0;
    while i < n
      invariant i == (if 3 * g <= n then 3 * g else n) && j == 4 * g
      invariant j <= encoded.Length == |q|
      invariant encoded[..j] + Quads(x, 3 * g) == q
    {
      ghost var done, rest := encoded[..j], Quads(x, 3 * g + 3);
      QuadsStep(x, 3 * g);
      Regroup(done, Quad(x, 3 * g), rest);
      i := EncodeGroup(data, i, encoded, j);
      j, g := j + 4, g + 1;
    }
    assert Quads(x, 3 * g) == [];
    assert encoded[..j] == encoded[..];
  }

  lemma QuadsStep(x: seq<byte>, i: nat)
    requires i < |x|
    ensures Quads(x, i) == Quad(x, i) + Quads(x, i + 3)
  {}

  /** Reads up to three octets at i and writes their four letters at j. */
  method EncodeGroup(data: array<byte>, i: nat, encoded: array<char>, j: nat) returns (next: nat)
    requires i < data.Length && j + 4 <= encoded.Length
    modifies encoded
    ensures next == (if i + 3 <= data.Length then i + 3 else data.Length)
    ensures encoded[..j + 4] == old(encoded[..j]) + Quad(data[..], i)
  {
    var a, b, c := 0, 0, 0;
    next := i;
    a, next := data[next], next + 1;
    if next < data.Length { b, next := data[next], next + 1; }
    if next < data.Length { c, next := data[next], next + 1; }
    var triple := Triple(a, b, c);
    assert triple == GroupAt(data[..], i);
    hide SextetAt, Letter, GroupAt;
    WriteQuad(encoded, j, triple);
  }

  method WriteQuad(encoded: array<char>, j: nat, triple: nat)
    requires j + 4 <= encoded.Length
    modifies encoded
    ensures encoded[..j + 4] == old(encoded[..j])
      + [Letter(SextetAt(triple, 0)), Letter(SextetAt(triple, 1)), Letter(SextetAt(triple, 2)),
         Letter(SextetAt(triple, 3))]
  {
    encoded[j] := Letter(SextetAt(triple, 0));
    encoded[j + 1] := Letter(SextetAt(triple, 1));
    encoded[j + 2] := Letter(SextetAt(triple, 2));
    encoded[j + 3] := Letter(SextetAt(triple, 3));
  }

  /** The last p characters become =. */
  method PutPadding(encoded: array<char>, p: nat)
    requires p <= encoded.Length
    modifies encoded
    ensures encoded[..] == old(encoded[..])[..encoded.Length - p] + Pads(p)
  {
    PadsAt(p);
    var i, n := 0, encoded.Length;
    while i < p
      invariant i <= p
      invariant encoded[..n - i] == old(encoded[..n - i])
      invariant forall k :: n - i <= k < n ==> encoded[k] == '='
    {
      encoded[n - 1 - i] := '=';
      i := i + 1;
    }
  }

  /** Writes the octets of a triple that still fit. */
  method WriteOctets(result: array<byte>, j: nat, triple: nat) returns (k: nat)
    requires j <= result.Length
    modifies result
    ensures k == (if j + 3 <= result.Length then j + 3 else result.Length)
    ensures result[..k] == old(result[..j]) + OctetsOf(triple)[..k - j]
  {
    k := j;
    if k < result.Length { result[k], k := triple / 0x10000 % 0x100, k + 1; }
    if k < result.Length { result[k], k := triple / 0x100 % 0x100, k + 1; }
    if k < result.Length { result[k], k := triple % 0x100, k + 1; }
  }

  lemma AllOctetsLength(table: seq<schar>, text: string, n: nat)
    requires |table| == 256 && Indexable(text) && |text| == 4 * n
    ensures |AllOctets(table, text, 0)| == 3 * n
  {
    hide AllOctets;
  }

  /** The octets of the g-th group of four characters. */
  lemma {:induction false} AllOctetsAt(table: seq<schar>, text: string, n: nat, from: nat, g: nat)
    requires |table| == 256 && Indexable(text) && |text| == 4 * n && from <= g < n
    ensures |AllOctets(table, text, 4 * from)| == 3 * (n - from)
    ensures AllOctets(table, text, 4 * from)[3 * (g - from)..3 * (g - from) + 3]
      == OctetsOf(TripleAt(table, text, 4 * g))
    decreases g - from
  {
    AllOctetsStep(table, text, 4 * from);
    hide AllOctets, OctetsOf, TripleAt, Indexable;
    var first, rest := OctetsOf(TripleAt(table, text, 4 * from)), AllOctets(table, text, 4 * (from + 1));
    assert 4 * (from + 1) == 4 * from + 4;
    if from < g {
      AllOctetsAt(table, text, n, from + 1, g);
      Later(first, rest, 3 * (g - from - 1));
    }
  }

  lemma Later<T>(a: seq<T>, b: seq<T>, i: nat)
    requires |a| == 3 && i + 3 <= |b|
    ensures (a + b)[i + 3..i + 6] == b[i..i + 3]
  {}

  /** What is written extends the prefix of all octets. */
  lemma Extend<T>(all: seq<T>, done: seq<T>, o: seq<T>, j: nat, k: nat)
    requires |o| == 3 && j <= k <= j + 3 <= |all| && done == all[..j] && all[j..j + 3] == o
    ensures done + o[..k - j] == all[..k]
  {
    assert o[..k - j] == all[j..k];
  }

  // ---- Any text ----

  /** A table entry as the signed number it is. */
  function Entry(table: seq<schar>, c: char): int
    requires |table| == 256 && c as int < 128
  {
    if c == '=' then 0 else table[c as int]
  }

  /** Four characters in integers without bounds. */
  function Sum(table: seq<schar>, text: string, i: nat): int
    requires |table| == 256 && Indexable(text) && i + 4 <= |text|
  {
    Entry(table, text[i]) * 0x40000 + Entry(table, text[i + 1]) * 0x1000 + Entry(table, text[i + 2]) * 0x40
      + Entry(table, text[i + 3])
  }

  lemma EntryWraps(table: seq<schar>, c: char) returns (q: int)
    requires |table| == 256 && c as int < 128
    ensures SextetOf(table, c) == Entry(table, c) + 0x1_0000_0000 * q
  {
    q := -(Entry(table, c) / 0x1_0000_0000);
  }

  /** Wrapping at 32 bits does not reach the octets. */
  lemma SumWraps(table: seq<schar>, text: string, i: nat) returns (q: int)
    requires |table| == 256 && Indexable(text) && i + 4 <= |text|
    ensures TripleAt(table, text, i) == Sum(table, text, i) + 0x1_0000_0000 * q
  {
    var a := EntryWraps(table, text[i]);
    var b := EntryWraps(table, text[i + 1]);
    var c := EntryWraps(table, text[i + 2]);
    var d := EntryWraps(table, text[i + 3]);
    q := a * 0x40000 + b * 0x1000 + c * 0x40 + d;
    hide SextetOf, Entry;
    var total := Sum(table, text, i) + 0x1_0000_0000 * q;
    assert TripleAt(table, text, i) == total % 0x1_0000_0000;
    q := q - total / 0x1_0000_0000;
  }

  lemma Shifts(x: int, k: int)
    ensures (x + 0x10000 * k) / 0x10000 == x / 0x10000 + k
    ensures (x + 0x100 * k) / 0x100 == x / 0x100 + k
    ensures (x + 0x100 * k) % 0x100 == x % 0x100
  {
  }

  lemma LowOctets(x: int, q: int)
    ensures (x + 0x1_0000_0000 * q) / 0x10000 % 0x100 == x / 0x10000 % 0x100
    ensures (x + 0x1_0000_0000 * q) / 0x100 % 0x100 == x / 0x100 % 0x100
    ensures (x + 0x1_0000_0000 * q) % 0x100 == x % 0x100
  {
    var y := x + 0x1_0000_0000 * q;
    var high, middle := 0x10000 * q, 0x100_0000 * q;
    assert y == x + 0x10000 * high == x + 0x100 * middle;
    Shifts(x, high);
    Shifts(x, middle);
    Shifts(x / 0x10000, 0x100 * q);
    Shifts(x / 0x100, 0x10000 * q);
  }

  /** Whatever the text and the table hold: the octets of four characters are the lowest 24 bits of their sum. */
  lemma DecodedOctets(table: seq<schar>, text: string, k: nat, m: nat)
    requires |table| == 256 && Indexable(text) && |text| > 0 && |text| % 4 == 0
    requires m < 3 && 3 * k + m < DecodedLength(text)
    ensures 4 * k + 4 <= |text| && Decode(table, text).Some? && |Decode(table, text).value| == DecodedLength(text)
    ensures var sum := Sum(table, text, 4 * k);
      Decode(table, text).value[3 * k + m]
        == (if m == 0 then sum / 0x10000 else if m == 1 then sum / 0x100 else sum) % 0x100
  {
    var n := |text| / 4;
    assert |text| == 4 * n && k < n;
    AllOctetsAt(table, text, n, 0, k);
    var all, t := AllOctets(table, text, 0), TripleAt(table, text, 4 * k);
    assert all[3 * k + m] == all[3 * k..3 * k + 3][m] == OctetsOf(t)[m];
    var q := SumWraps(table, text, 4 * k);
    LowOctets(Sum(table, text, 4 * k), q);
    hide Sum, TripleAt, AllOctets, Indexable;
  }

  /** The table of the file, built when it is first needed. */
  class Decoder {
    var decodingTable: array?<schar>

    ghost predicate Valid()
      reads this, decodingTable
    {
      decodingTable != null ==> ValidTable(decodingTable[..])
    }

    method BuildDecodingTable()
      modifies this
      ensures decodingTable != null && fresh(decodingTable) && Valid()
    {
      var table := new schar[256];
      var i := 0;
      while i < 64
        invariant i <= 64
        invariant forall k: Sextet :: k < i ==> Letter(k) as int < 256 && table[Letter(k) as int] == k
      {
        forall k: Sextet | k < i ensures Letter(k) != Letter(i) {
          LettersDiffer(k, i);
        }
        table[Letter(i) as int] := i;
        i := i + 1;
      }
      decodingTable := table;
    }

    /** null when the length is not a multiple of four. */
    method Base64Decode(data: array<char>) returns (decoded: array?<byte>)
      requires Valid() && data.Length > 0 && Indexable(data[..])
      modifies this
      ensures Valid() && decodingTable != null && data[..] == old(data[..])
      ensures Decode(decodingTable[..], data[..]) == if decoded == null then None else Some(decoded[..])
    {
      if decodingTable == null {
        BuildDecodingTable();
      }
      var n := data.Length;
      if n % 4 != 0 {
        return null;
      }
      var outputLength := n / 4 * 3;
      if data[n - 1] == '=' { outputLength := outputLength - 1; }
      if data[n - 2] == '=' { outputLength := outputLength - 1; }
      assert data[..][n - 1] == data[n - 1] && data[..][n - 2] == data[n - 2];
      var result := new byte[outputLength];
      DecodeInto(data, result, n / 4);
      decoded := result;
    }

    method DecodeInto(data: array<char>, result: array<byte>, n: nat)
      requires decodingTable != null && decodingTable.Length == 256 && Indexable(data[..])
      requires data.Length == 4 * n && 3 * n - 2 <= result.Length <= 3 * n
      requires result as object != decodingTable as object && result as object != data as object
      modifies result
      ensures result.Length <= |AllOctets(decodingTable[..], data[..], 0)|
      ensures result[..] == AllOctets(decodingTable[..], data[..], 0)[..result.Length]
    {
      hide *;
      ghost var text, table := data[..], decodingTable[..];
      AllOctetsLength(table, text, n);
      ghost var all, g := AllOctets(table, text, 0), 0;
      var i, j := 0, 0;
      while i < data.Length
        invariant i == 4 * g <= 4 * n && j == if g < n then 3 * g else result.Length
        invariant data[..] == text && decodingTable[..] == table
        invariant |all| == 3 * n && result[..j] == all[..j]
      {
        AllOctetsAt(table, text, n, 0, g);
        var k := DecodeQuad(data, i, result, j);
        Extend(all, result[..j], OctetsOf(TripleAt(table, text, i)), j, k);
        i, j, g := i + 4, k, g + 1;
      }
      assert result[..j] == result[..];
    }

    /** Reads four characters at i and writes their octets at j, as far as they fit. */
    method DecodeQuad(data: array<char>, i: nat, result: array<byte>, j: nat) returns (k: nat)
      requires decodingTable != null && decodingTable.Length == 256 && Indexable(data[..])
      requires i + 4 <= data.Length && j <= result.Length
      requires result as object != decodingTable as object && result as object != data as object
      modifies result
      ensures k == (if j + 3 <= result.Length then j + 3 else result.Length)
      ensures result[..k] == old(result[..j]) + OctetsOf(TripleAt(decodingTable[..], data[..], i))[..k - j]
    {
      hide OctetsOf, TripleAt;
      var triple := TripleOf(data, i);
      k := WriteOctets(result, j, triple);
    }

    method Lookup(c: char) returns (sextet: nat)
      requires decodingTable != null && decodingTable.Length == 256 && c as int < 128
      ensures sextet == SextetOf(decodingTable[..], c)
    {
      sextet := 0;
      if c != '=' {
        sextet := (decodingTable[c as int] as int) % 0x1_0000_0000;
      }
    }

    method TripleOf(data: array<char>, i: nat) returns (triple: nat)
      requires decodingTable != null && decodingTable.Length == 256 && Indexable(data[..]) && i + 4 <= data.Length
      ensures triple == TripleAt(decodingTable[..], data[..], i)
    {
      var a := Lookup(data[i]);
      var b := Lookup(data[i + 1]);
      var c := Lookup(data[i + 2]);
      var d := Lookup(data[i + 3]);
      triple := (a * 0x40000 + b * 0x1000 + c * 0x40 + d) % 0x1_0000_0000;
    }
  }
}
