/** Which texts come back when they are decoded and encoded again: those an encoder writes. */
module Base64Canonical {
  import opened LittleEndian
  import opened Options
  import opened Base64

  ghost predicate IsLetter(c: char) {
    exists s: Sextet :: Letter(s) == c
  }

  /** The sextet that the letter stands for is a multiple of n. */
  ghost predicate MultipleOf(c: char, n: nat)
    requires n > 0
  {
    forall s: Sextet :: Letter(s) == c ==> s % n == 0
  }

  /** How many characters come before the padding. */
  function LetterCount(text: string): nat
    requires |text| >= 4
  {
    if text[|text| - 1] != '=' then |text| else if text[|text| - 2] != '=' then |text| - 1 else |text| - 2
  }

  ghost predicate AllLetters(text: string, n: nat) {
    n <= |text| && forall i :: 0 <= i < n ==> IsLetter(text[i])
  }

  /** No bit of the last letter is set that no octet uses. */
  ghost predicate UnusedBitsZero(text: string)
    requires |text| >= 4
  {
    var n := LetterCount(text);
    && (n == |text| - 1 ==> MultipleOf(text[n - 1], 4))
    && (n == |text| - 2 ==> MultipleOf(text[n - 1], 16))
  }

  /** Whole quanta of letters, at most two = characters and only at the end, and no bit set that no octet uses. */
  ghost predicate Canonical(text: string) {
    |text| >= 4 && |text| % 4 == 0 && AllLetters(text, LetterCount(text)) && UnusedBitsZero(text)
  }

  // ---- What an encoder writes ----

  lemma OnlySextet(s: Sextet, n: nat)
    requires n > 0 && s % n == 0
    ensures MultipleOf(Letter(s), n)
  {
    forall k: Sextet | Letter(k) == Letter(s) ensures k % n == 0 {
      LettersDiffer(k, s);
    }
  }

  lemma ShortByOne(n: nat)
    ensures 0x100 * n / 0x40 % 64 % 4 == 0
  {
    assert 0x100 * n / 0x40 == 4 * n && 4 * n % 64 == 4 * (n % 16);
  }

  lemma ShortByTwo(n: nat)
    ensures 0x10000 * n / 0x1000 % 64 % 16 == 0
  {
    assert 0x10000 * n / 0x1000 == 16 * n && 16 * n % 64 == 16 * (n % 4);
  }

  /** The sextets of a group in which octets are missing. */
  lemma ShortGroup(x: seq<byte>, i: nat)
    requires i < |x|
    ensures i + 2 == |x| ==> SextetAt(GroupAt(x, i), 2) % 4 == 0
    ensures i + 1 == |x| ==> SextetAt(GroupAt(x, i), 1) % 16 == 0
  {
    var a: int, b: int := OctetAt(x, i) as int, OctetAt(x, i + 1) as int;
    assert i + 2 == |x| ==> GroupAt(x, i) == 0x100 * (0x100 * a + b);
    assert i + 1 == |x| ==> GroupAt(x, i) == 0x10000 * a;
    hide GroupAt;
    ShortByOne(0x100 * a + b);
    ShortByTwo(a);
  }

  lemma EncodedCount(x: seq<byte>)
    requires x != []
    ensures |Encode(x)| == 4 * Groups(|x|) >= 4 && LetterCount(Encode(x)) == |Encode(x)| - Padding(|x|)
  {
    hide *;
    LastGroup(|x|);
    var k := Groups(|x|) - 1;
    EncodedAt(x, k, 2);
    EncodedAt(x, k, 3);
    LettersDiffer(SextetAt(GroupAt(x, 3 * k), 2), 0);
    LettersDiffer(SextetAt(GroupAt(x, 3 * k), 3), 0);
    CountOfLast(Encode(x), k, Padding(|x|));
  }

  lemma CountOfLast(text: string, k: nat, p: nat)
    requires |text| == 4 * k + 4 && p <= 2
    requires text[4 * k + 3] == '=' <==> p >= 1
    requires text[4 * k + 2] == '=' <==> p >= 2
    ensures LetterCount(text) == |text| - p
  {
  }

  lemma EncodedCharacter(x: seq<byte>, k: nat, m: nat)
    requires x != [] && m < 4 && 4 * k + m < LetterCountOf(x)
    ensures 4 * k + m < |Encode(x)| && 3 * k < |x|
    ensures Encode(x)[4 * k + m] == Letter(SextetAt(GroupAt(x, 3 * k), m))
  {
    assert 4 * k + m < 4 * Groups(|x|) - Padding(|x|);
    hide *;
    Counted(|x|, k, m);
    EncodedAt(x, k, m);
    Places(|x|, k, m);
  }

  function LetterCountOf(x: seq<byte>): int { 4 * Groups(|x|) - Padding(|x|) }

  lemma Counted(n: nat, k: nat, m: nat)
    requires n > 0 && m < 4 && 4 * k + m < 4 * Groups(n) - Padding(n)
    ensures 3 * k < n
  {
    LastGroup(n);
  }

  lemma EncodeCanonical(x: seq<byte>)
    requires x != []
    ensures Canonical(Encode(x))
  {
    EncodedCount(x);
    EncodedLetters(x);
    EncodedBits(x);
    hide *;
    LastGroup(|x|);
    IntoCanonical(Encode(x), Groups(|x|));
  }

  lemma IntoCanonical(text: string, g: nat)
    requires |text| == 4 * g >= 4 && AllLetters(text, LetterCount(text)) && UnusedBitsZero(text)
    ensures Canonical(text)
  {
  }

  lemma EncodedLetters(x: seq<byte>)
    requires x != [] && |Encode(x)| >= 4 && LetterCount(Encode(x)) == LetterCountOf(x)
    ensures AllLetters(Encode(x), LetterCount(Encode(x)))
  {
    hide Encode, LetterCountOf, Groups, Letter, SextetAt, GroupAt;
    forall i | 0 <= i < LetterCountOf(x) ensures i < |Encode(x)| && IsLetter(Encode(x)[i]) {
      EncodedCharacter(x, i / 4, i % 4);
    }
  }

  lemma EncodedBits(x: seq<byte>)
    requires x != [] && |Encode(x)| == 4 * Groups(|x|) >= 4 && LetterCount(Encode(x)) == LetterCountOf(x)
    ensures UnusedBitsZero(Encode(x))
  {
    LastGroup(|x|);
    var g := Groups(|x|);
    var j, p := 3 * (g - 1), Padding(|x|);
    assert LetterCountOf(x) == 4 * g - p && |x| == j + 3 - p;
    hide *;
    ShortGroup(x, j);
    EncodedCharacter(x, g - 1, 3 - p);
    if p == 1 {
      OnlySextet(SextetAt(GroupAt(x, j), 2), 4);
    } else if p == 2 {
      OnlySextet(SextetAt(GroupAt(x, j), 1), 16);
    }
    IntoUnused(Encode(x), p);
  }

  lemma IntoUnused(text: string, p: nat)
    requires |text| >= 4 && LetterCount(text) == |text| - p && p <= 2
    requires p == 1 ==> MultipleOf(text[|text| - p - 1], 4)
    requires p == 2 ==> MultipleOf(text[|text| - p - 1], 16)
    ensures UnusedBitsZero(text)
  {
  }

  // ---- What comes back ----

  /** The value of a character of a canonical text: that of a letter, or zero. */
  lemma CharacterValue(table: seq<schar>, c: char) returns (s: Sextet)
    requires ValidTable(table) && (IsLetter(c) || c == '=')
    ensures |table| == 256 && c as int < 128 && SextetOf(table, c) == s
    ensures IsLetter(c) ==> Letter(s) == c
    ensures c == '=' ==> s == 0
  {
    if IsLetter(c) {
      s :| Letter(s) == c;
      LettersDiffer(s, s);
      LetterDecoded(table, s);
    } else {
      s := 0;
      LetterDecoded(table, 0);
    }
  }

  lemma FourSextets(a: Sextet, b: Sextet, c: Sextet, d: Sextet, t: nat)
    requires t == (a * 0x40000 + b * 0x1000 + c * 0x40 + d) % 0x1_0000_0000
    ensures t < 0x1000000
    ensures SextetAt(t, 0) == a && SextetAt(t, 1) == b && SextetAt(t, 2) == c && SextetAt(t, 3) == d
    ensures d == 0 && c % 4 == 0 ==> t % 0x100 == 0
    ensures d == 0 && c == 0 && b % 16 == 0 ==> t % 0x10000 == 0
  {
    var u := 0x40 * a + b;
    var v := 0x40 * u + c;
    assert t == 0x40 * v + d;
    LastDigit(t, v, d);
    LastDigit(v, u, c);
    LastDigit(u, a, b);
    FoldThree(t);
    LowZero(a, b, c);
  }

  lemma LastDigit(t: nat, high: nat, low: Sextet)
    requires t == 0x40 * high + low
    ensures t / 0x40 == high && t % 0x40 == low
  {
  }

  lemma FoldThree(t: nat)
    ensures t / 0x1000 == t / 0x40 / 0x40 && t / 0x40000 == t / 0x40 / 0x40 / 0x40
  {
  }

  /** What two or four of the low bits leave zero. */
  lemma LowZero(a: Sextet, b: Sextet, c: Sextet)
    ensures c % 4 == 0 ==> (a * 0x40000 + b * 0x1000 + c * 0x40) % 0x100 == 0
    ensures b % 16 == 0 ==> (a * 0x40000 + b * 0x1000) % 0x10000 == 0
  {
    assert c % 4 == 0 ==> a * 0x40000 + b * 0x1000 + c * 0x40 == 0x100 * (a * 0x400 + b * 0x10 + c / 4);
    assert b % 16 == 0 ==> a * 0x40000 + b * 0x1000 == 0x10000 * (a * 4 + b / 16);
  }

  lemma ThreeOctets(t: nat)
    requires t < 0x1000000
    ensures Triple(OctetsOf(t)[0], OctetsOf(t)[1], OctetsOf(t)[2]) == t
    ensures t % 0x100 == 0 ==> OctetsOf(t)[2] == 0
    ensures t % 0x10000 == 0 ==> OctetsOf(t)[1] == 0
  {
    assert t == t / 0x100 * 0x100 + t % 0x100;
    assert t / 0x100 == t / 0x10000 * 0x100 + t / 0x100 % 0x100;
  }

  /** Every character before the padding is a letter, and every other one is =. */
  lemma Characters(text: string, i: nat)
    requires Canonical(text) && i < |text|
    ensures i < LetterCount(text) ==> IsLetter(text[i])
    ensures i >= LetterCount(text) ==> text[i] == '='
  {
  }

  lemma CanonicalIndexable(text: string)
    requires Canonical(text)
    ensures Indexable(text)
  {
    forall i | 0 <= i < |text| ensures text[i] as int < 128 {
      Characters(text, i);
      if IsLetter(text[i]) {
        var s: Sextet :| Letter(s) == text[i];
        LettersDiffer(s, s);
      }
    }
  }

  /** The number t of the k-th quantum: its sextets are those of the letters, and the octets that the padding stands
      for are zero. */
  ghost predicate Stands(text: string, k: nat, t: nat)
    requires 4 * k + 4 <= |text|
  {
    && t < 0x1000000
    && (forall m :: 0 <= m < 4 ==>
          text[4 * k + m] == if 4 * k + m < LetterCount(text) then Letter(SextetAt(t, m)) else '=')
    && (LetterCount(text) < 4 * k + 4 ==> t % 0x100 == 0)
    && (LetterCount(text) < 4 * k + 3 ==> t % 0x10000 == 0)
  }

  lemma QuantumStands(table: seq<schar>, text: string, k: nat)
    requires ValidTable(table) && Canonical(text) && 4 * k + 4 <= |text|
    ensures |table| == 256 && Indexable(text) && Stands(text, k, TripleAt(table, text, 4 * k))
  {
    CanonicalIndexable(text);
    TableLength(table);
    var i := 4 * k;
    var a := PlaceValue(table, text, i);
    var b := PlaceValue(table, text, i + 1);
    var c := PlaceValue(table, text, i + 2);
    var d := PlaceValue(table, text, i + 3);
    hide *;
    TripleParts(table, text, i);
    var t := TripleAt(table, text, i);
    FourSextets(a, b, c, d, t);
    LowBits(text, k, b, c);
    IntoStands(text, k, t);
  }

  lemma PlaceValue(table: seq<schar>, text: string, i: nat) returns (s: Sextet)
    requires ValidTable(table) && Canonical(text) && i < |text|
    ensures |table| == 256 && text[i] as int < 128 && SextetOf(table, text[i]) == s
    ensures text[i] == if i < LetterCount(text) then Letter(s) else '='
    ensures i >= LetterCount(text) ==> s == 0
  {
    Characters(text, i);
    s := CharacterValue(table, text[i]);
  }

  /** In the last quantum the letter before the padding leaves the unused bits zero. */
  lemma LowBits(text: string, k: nat, b: Sextet, c: Sextet)
    requires Canonical(text) && 4 * k + 4 <= |text|
    requires text[4 * k + 1] == Letter(b) && (4 * k + 2 < LetterCount(text) ==> text[4 * k + 2] == Letter(c))
    ensures LetterCount(text) == 4 * k + 3 ==> c % 4 == 0
    ensures LetterCount(text) < 4 * k + 3 ==> b % 16 == 0
  {
    var n := LetterCount(text);
    assert n < 4 * k + 4 ==> |text| == 4 * k + 4;
  }

  lemma IntoStands(text: string, k: nat, t: nat)
    requires 4 * k + 4 <= |text| && t < 0x1000000
    requires text[4 * k] == if 4 * k < LetterCount(text) then Letter(SextetAt(t, 0)) else '='
    requires text[4 * k + 1] == if 4 * k + 1 < LetterCount(text) then Letter(SextetAt(t, 1)) else '='
    requires text[4 * k + 2] == if 4 * k + 2 < LetterCount(text) then Letter(SextetAt(t, 2)) else '='
    requires text[4 * k + 3] == if 4 * k + 3 < LetterCount(text) then Letter(SextetAt(t, 3)) else '='
    requires LetterCount(text) < 4 * k + 4 ==> t % 0x100 == 0
    requires LetterCount(text) < 4 * k + 3 ==> t % 0x10000 == 0
    ensures Stands(text, k, t)
  {
  }

  /** The octets of the k-th quantum, those that were cut off read as zero. */
  lemma DecodedGroup(table: seq<schar>, text: string, g: nat, k: nat)
    requires ValidTable(table) && Canonical(text) && |text| == 4 * g && k < g
    ensures |table| == 256 && Indexable(text) && Decode(table, text).Some?
    ensures var x := Decode(table, text).value;
      |x| == 3 * g - (4 * g - LetterCount(text)) && GroupAt(x, 3 * k) == TripleAt(table, text, 4 * k)
  {
    QuantumStands(table, text, k);
    AllOctetsAt(table, text, g, 0, k);
    AllOctetsLength(table, text, g);
    var t, n, x := TripleAt(table, text, 4 * k), LetterCount(text), Decode(table, text).value;
    DecodedCount(text, g);
    var y := AllOctets(table, text, 0);
    assert y[3 * k..3 * k + 3] == OctetsOf(t) && x == y[..DecodedLength(text)];
    hide Canonical, ValidTable, Decode, AllOctets, TripleAt, Indexable, DecodedLength, LetterCount, OctetsOf;
    ThreeOctets(t);
    CutGroup(x, y, k, OctetsOf(t));
  }

  lemma DecodedCount(text: string, g: nat)
    requires Canonical(text) && |text| == 4 * g
    ensures DecodedLength(text) == 3 * g - (4 * g - LetterCount(text)) && 4 * g - 2 <= LetterCount(text) <= 4 * g
  {
    Characters(text, |text| - 2);
    assert !IsLetter('=') by {
      forall s: Sextet ensures Letter(s) != '=' {
        LettersDiffer(s, s);
      }
    }
  }

  lemma CutGroup(x: seq<byte>, y: seq<byte>, k: nat, o: seq<byte>)
    requires 3 * k < |x| <= |y| && x == y[..|x|] && 3 * k + 3 <= |y| && |o| == 3 && y[3 * k..3 * k + 3] == o
    requires |x| < 3 * k + 3 ==> o[2] == 0
    requires |x| < 3 * k + 2 ==> o[1] == 0
    ensures GroupAt(x, 3 * k) == Triple(o[0], o[1], o[2])
  {
    assert y[3 * k] == o[0] && y[3 * k + 1] == o[1] && y[3 * k + 2] == o[2];
  }

  lemma CanonicalComesBack(table: seq<schar>, text: string)
    requires ValidTable(table) && Canonical(text)
    ensures |table| == 256 && Indexable(text) && |text| > 0
    ensures Decode(table, text).Some? && Encode(Decode(table, text).value) == text
  {
    var g := |text| / 4;
    DecodedGroup(table, text, g, 0);
    var x := Decode(table, text).value;
    DecodedCount(text, g);
    LastGroup(|x|);
    assert Groups(|x|) == g && Padding(|x|) == 4 * g - LetterCount(text);
    EncodedAt(x, 0, 0);
    forall i | 0 <= i < 4 * g ensures Encode(x)[i] == text[i] {
      CharacterBack(table, text, g, i / 4, i % 4);
    }
  }

  lemma StandsAt(text: string, k: nat, t: nat, m: nat)
    requires 4 * k + 4 <= |text| && Stands(text, k, t) && m < 4
    ensures text[4 * k + m] == if 4 * k + m < LetterCount(text) then Letter(SextetAt(t, m)) else '='
  {
  }

  lemma CountsAgree(n: nat, g: nat, p: nat)
    requires n > 0 && n == 3 * g - p && p <= 2
    ensures Groups(n) == g && Padding(n) == p
  {
  }

  lemma CharacterBack(table: seq<schar>, text: string, g: nat, k: nat, m: nat)
    requires ValidTable(table) && Canonical(text) && |text| == 4 * g && k < g && m < 4
    ensures |table| == 256 && Indexable(text) && Decode(table, text).Some?
    ensures var x := Decode(table, text).value;
      |Encode(x)| == 4 * g && Encode(x)[4 * k + m] == text[4 * k + m]
  {
    DecodedGroup(table, text, g, k);
    QuantumStands(table, text, k);
    DecodedCount(text, g);
    var x, n := Decode(table, text).value, LetterCount(text);
    StandsAt(text, k, TripleAt(table, text, 4 * k), m);
    hide *;
    EncodedAt(x, k, m);
    Places(|x|, k, m);
    LastGroup(|x|);
    CountsAgree(|x|, g, 4 * g - n);
  }

  /** A text comes back from decoding and encoding exactly when it is what an encoder writes. */
  lemma EncodeDecodeExactly(table: seq<schar>, text: string)
    requires ValidTable(table) && Indexable(text) && |text| > 0
    ensures |table| == 256
    ensures Decode(table, text).Some? && Encode(Decode(table, text).value) == text <==> Canonical(text)
  {
    TableLength(table);
    if Canonical(text) {
      CanonicalComesBack(table, text);
    }
    if Decode(table, text).Some? && Encode(Decode(table, text).value) == text {
      assert Encode([]) == [];
      EncodeCanonical(Decode(table, text).value);
    }
  }
}
