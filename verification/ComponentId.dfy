/** Component identifiers of the form category:subcategory:...[a.b.c.d]: parsing, printing and matching. */
module ComponentId {

  type int32 = x: int | -0x8000_0000 <= x < 0x8000_0000

  const VERSION_PARTS: nat := 4

  /** The size of the scratch buffer one segment is collected in. */
  const TEMP_SIZE: nat := 256

  type Versions = v: seq<int32> | |v| == VERSION_PARTS witness [0, 0, 0, 0]

  datatype Id = Id(categories: seq<string>, versions: Versions)

  /** What C leaves undefined: writing past the scratch buffer, and atoi of an unrepresentable number. */
  datatype ParseError = BufferOverflow | NumberRange

  datatype Result<T> = Ok(value: T) | Err(error: ParseError)

  // ---- Numbers ----

  predicate IsDigit(c: char) { '0' <= c <= '9' }

  predicate IsSpace(c: char) { c == ' ' || 9 as char <= c <= 13 as char }

  /** The value of the longest run of digits at the front of s, following a prefix worth acc. */
  function DigitsValue(s: string, acc: nat): nat {
    if s == [] || !IsDigit(s[0]) then acc
    else DigitsValue(s[1..], 10 * acc + (s[0] as int - '0' as int))
  }

  /** C's atoi on mathematical integers. */
  function Atoi(s: string): int {
    if s == [] then 0
    else if IsSpace(s[0]) then Atoi(s[1..])
    else if s[0] == '-' then 0 - DigitsValue(s[1..], 0)
    else if s[0] == '+' then DigitsValue(s[1..], 0)
    else DigitsValue(s, 0)
  }

  function Digits(n: nat): (s: string)
    ensures |s| > 0 && forall c :: c in s ==> IsDigit(c)
  {
    var last := ('0' as int + n % 10) as char;
    if n < 10 then [last] else Digits(n / 10) + [last]
  }

  function IntToString(n: int): string {
    if n < 0 then "-" + Digits(-n) else Digits(n)
  }

  lemma {:induction false} DigitsValueAppend(s: string, c: char, acc: nat)
    requires IsDigit(c) && forall x :: x in s ==> IsDigit(x)
    ensures DigitsValue(s + [c], acc) == 10 * DigitsValue(s, acc) + (c as int - '0' as int)
  {
    if s == [] {
      assert (s + [c])[1..] == [];
    } else {
      assert s[0] in s && (s + [c])[1..] == s[1..] + [c];
      DigitsValueAppend(s[1..], c, 10 * acc + (s[0] as int - '0' as int));
    }
  }

  lemma {:induction false} DigitsRoundTrip(n: nat)
    ensures DigitsValue(Digits(n), 0) == n
  {
    if n < 10 {
    } else {
      DigitsRoundTrip(n / 10);
      DigitsValueAppend(Digits(n / 10), ('0' as int + n % 10) as char, 0);
    }
  }

  /** atoi undoes printing, for every integer. */
  lemma AtoiRoundTrip(n: int)
    ensures Atoi(IntToString(n)) == n
  {
    if n < 0 {
      DigitsRoundTrip(-n);
      assert IntToString(n)[1..] == Digits(-n);
    } else {
      DigitsRoundTrip(n);
      assert IsDigit(Digits(n)[0]);
    }
  }

  function Pow10(k: nat): nat {
    if k == 0 then 1 else 10 * Pow10(k - 1)
  }

  lemma {:induction false} DigitsLength(n: nat, k: nat)
    requires n < Pow10(k) && k > 0
    ensures |Digits(n)| <= k
  {
    if n < 10 {
    } else {
      DigitsLength(n / 10, k - 1);
    }
  }

  lemma VersionLength(n: int32)
    ensures |IntToString(n)| <= 11
  {
    assert Pow10(10) == 10_000_000_000;
    var m: int := n;
    DigitsLength(if m < 0 then -m else m, 10);
  }

  // ---- Printing ----

  function Joined(parts: seq<string>, separator: char): string {
    if parts == [] then ""
    else if |parts| == 1 then parts[0]
    else parts[0] + [separator] + Joined(parts[1..], separator)
  }

  function VersionTexts(v: Versions): seq<string> {
    [IntToString(v[0]), IntToString(v[1]), IntToString(v[2]), IntToString(v[3])]
  }

  function Printed(id: Id): string {
    Joined(id.categories, ':') + "[" + Joined(VersionTexts(id.versions), '.') + "]"
  }

  function Category(id: Id, i: nat): string {
    if i < |id.categories| then id.categories[i] else ""
  }

  lemma {:induction false} JoinedGrows(parts: seq<string>, next: string, separator: char)
    requires parts != []
    ensures Joined(parts + [next], separator) == Joined(parts, separator) + [separator] + next
  {
    if |parts| == 1 {
      assert (parts + [next])[1..] == [next];
    } else {
      assert (parts + [next])[1..] == parts[1..] + [next];
      JoinedGrows(parts[1..], next, separator);
    }
  }

  method GetString(id: Id) returns (ss: string)
    ensures ss == Printed(id)
  {
    ss := Category(id, 0);
    var i := 1;
    while i < |id.categories|
      invariant 1 <= i && (|id.categories| > 0 ==> i <= |id.categories|)
      invariant |id.categories| == 0 ==> ss == ""
      invariant |id.categories| > 0 ==> ss == Joined(id.categories[..i], ':')
    {
      JoinedGrows(id.categories[..i], id.categories[i], ':');
      assert id.categories[..i] + [id.categories[i]] == id.categories[..i + 1];
      ss := ss + ":" + id.categories[i];
      i := i + 1;
    }
    assert |id.categories| > 0 ==> id.categories[..|id.categories|] == id.categories;
    assert ss == Joined(id.categories, ':');
    ghost var head := ss + "[";
    ss := ss + "[" + IntToString(id.versions[0]);
    ghost var texts := VersionTexts(id.versions);
    for j := 1 to VERSION_PARTS
      invariant ss == head + Joined(texts[..j], '.')
    {
      VersionAppended(head, texts, j);
      ss := ss + "." + IntToString(id.versions[j]);
    }
    assert texts[..VERSION_PARTS] == texts;
    ss := ss + "]";
  }

  lemma VersionAppended(head: string, texts: seq<string>, i: nat)
    requires 0 < i < |texts|
    ensures head + Joined(texts[..i], '.') + "." + texts[i] == head + Joined(texts[..i + 1], '.')
  {
    JoinedGrows(texts[..i], texts[i], '.');
    assert texts[..i] + [texts[i]] == texts[..i + 1];
    var j := Joined(texts[..i], '.');
    assert head + j + "." + texts[i] == head + (j + ['.'] + texts[i]);
  }

  // ---- Parsing ----

  /** The parser's variables: the mode, the segment collected so far, the result and the version index. */
  datatype Parser = Parser(inVersion: bool, temp: string, id: Id, vI: nat)

  const NUL: char := 0 as char

  predicate EndsSegment(inVersion: bool, c: char) {
    if inVersion then c == '.' || c == ']' else c == ':' || c == '[' || c == NUL
  }

  /** One turn of the parsing loop on character c. */
  function Step(p: Parser, c: char): Result<Parser> {
    if |p.temp| >= TEMP_SIZE then Err(BufferOverflow)
    else if !EndsSegment(p.inVersion, c) then Ok(p.(temp := p.temp + [c]))
    else if !p.inVersion then
      Ok(Parser(c == '[', "", Id(p.id.categories + [p.temp], p.id.versions), p.vI))
    else if p.vI >= VERSION_PARTS then Ok(p.(temp := ""))
    else if !(-0x8000_0000 <= Atoi(p.temp) < 0x8000_0000) then Err(NumberRange)
    else Ok(Parser(true, "", Id(p.id.categories, p.id.versions[p.vI := Atoi(p.temp)]), p.vI + 1))
  }

  const START := Parser(false, "", Id([], [0, 0, 0, 0]), 0)

  /** The character a C string pointer sees: the terminator once the text is used up. */
  function CharAt(s: string): char {
    if s == [] then NUL else s[0]
  }

  function ParseFrom(s: string, p: Parser): Result<Id> {
    match Step(p, CharAt(s))
    case Err(e) => Err(e)
    case Ok(q) => if CharAt(s) == NUL then Ok(q.id) else ParseFrom(s[1..], q)
  }

  function Parsed(s: string): Result<Id> { ParseFrom(s, START) }

  method Parse(str: string) returns (r: Result<Id>)
    ensures r == Parsed(str)
  {
    var inVersion := false;
    var tempBuf := new char[TEMP_SIZE](_ => NUL);
    var tempP := 0;
    var id := Id([], [0, 0, 0, 0]);
    var vI := 0;
    var p := 0;
    while true
      invariant p <= |str| && tempP <= TEMP_SIZE
      invariant ParseFrom(str[p..], Parser(inVersion, tempBuf[..tempP], id, vI)) == Parsed(str)
      decreases |str| - p
    {
      var c := if p < |str| then str[p] else NUL;
      ghost var before := Parser(inVersion, tempBuf[..tempP], id, vI);
      assert CharAt(str[p..]) == c && (p < |str| ==> str[p..][1..] == str[p + 1..]);
      if tempP >= TEMP_SIZE {
        return Err(BufferOverflow);
      }
      if !inVersion {
        if c == ':' || c == '[' || c == NUL {
          tempBuf[tempP] := NUL;
          id := id.(categories := id.categories + [tempBuf[..tempP]]);
          if c == '[' {
            inVersion := true;
          }
          tempP := 0;
        } else {
          tempBuf[tempP] := c;
          tempP := tempP + 1;
        }
      } else {
        if c == '.' || c == ']' {
          tempBuf[tempP] := NUL;
          if vI < VERSION_PARTS {
            var number := Atoi(tempBuf[..tempP]);
            if number < -0x8000_0000 || number >= 0x8000_0000 {
              return Err(NumberRange);
            }
            id := id.(versions := id.versions[vI := number]);
            vI := vI + 1;
          }
          tempP := 0;
        } else {
          tempBuf[tempP] := c;
          tempP := tempP + 1;
        }
      }
      assert !EndsSegment(before.inVersion, c) ==> tempBuf[..tempP] == before.temp + [c];
      assert Step(before, c) == Ok(Parser(inVersion, tempBuf[..tempP], id, vI));
      if c == NUL {
        return Ok(id);
      }
      p := p + 1;
    }
  }

  // ---- Round trip ----

  predicate Clean(c: string) {
    ':' !in c && '[' !in c && NUL !in c && |c| < TEMP_SIZE
  }

  /** The identifiers that survive printing. */
  predicate Printable(id: Id) {
    id.categories != [] && forall c :: c in id.categories ==> Clean(c)
  }

  /** Reading a stretch w that ends no segment only appends it to the scratch buffer. */
  lemma {:induction false} ReadSegment(w: string, rest: string, p: Parser)
    requires |p.temp| + |w| < TEMP_SIZE
    requires forall c :: c in w ==> c != NUL && !EndsSegment(p.inVersion, c)
    ensures ParseFrom(w + rest, p) == ParseFrom(rest, p.(temp := p.temp + w))
    decreases |w|
  {
    if w == "" {
      assert w + rest == rest && p.temp + w == p.temp;
    } else {
      assert (w + rest)[1..] == w[1..] + rest;
      assert w[0] in w && forall c :: c in w[1..] ==> c in w;
      var q := p.(temp := p.temp + [w[0]]);
      ReadSegment(w[1..], rest, q);
      assert q.temp + w[1..] == p.temp + w;
    }
  }

  /** Reading one category and the character after it stores the category. */
  lemma ReadCategory(c: string, separator: char, rest: string, p: Parser)
    requires Clean(c) && !p.inVersion && p.temp == "" && (separator == ':' || separator == '[')
    ensures ParseFrom(c + ([separator] + rest), p)
         == ParseFrom(rest, Parser(separator == '[', "", Id(p.id.categories + [c], p.id.versions), p.vI))
  {
    assert p.temp + c == c;
    ReadSegment(c, [separator] + rest, p);
    assert ([separator] + rest)[1..] == rest;
  }

  lemma {:induction false} ReadCategories(cs: seq<string>, rest: string, p: Parser)
    requires cs != [] && (forall c :: c in cs ==> Clean(c)) && !p.inVersion && p.temp == ""
    ensures ParseFrom(Joined(cs, ':') + "[" + rest, p)
         == ParseFrom(rest, Parser(true, "", Id(p.id.categories + cs, p.id.versions), p.vI))
    decreases |cs|
  {
    hide ParseFrom, Clean;
    var c := cs[0];
    assert c in cs;
    if |cs| == 1 {
      assert Joined(cs, ':') + "[" + rest == c + ("[" + rest);
      ReadCategory(c, '[', rest, p);
      assert [c] == cs;
    } else {
      var tail := Joined(cs[1..], ':') + "[" + rest;
      assert Joined(cs, ':') + "[" + rest == c + (":" + tail);
      ReadCategory(c, ':', tail, p);
      ReadCategories(cs[1..], rest, Parser(false, "", Id(p.id.categories + [c], p.id.versions), p.vI));
      assert p.id.categories + [c] + cs[1..] == p.id.categories + cs;
    }
  }

  /** Reading one printed version number and its terminator stores it. */
  lemma ReadVersion(n: int32, separator: char, rest: string, p: Parser)
    requires p.inVersion && p.temp == "" && p.vI < VERSION_PARTS && (separator == '.' || separator == ']')
    ensures ParseFrom(IntToString(n) + [separator] + rest, p)
         == ParseFrom(rest, Parser(true, "", Id(p.id.categories, p.id.versions[p.vI := n]), p.vI + 1))
  {
    VersionLength(n);
    AtoiRoundTrip(n);
    var w := IntToString(n);
    assert w + [separator] + rest == w + ([separator] + rest) && p.temp + w == w;
    ReadSegment(w, [separator] + rest, p);
    assert ([separator] + rest)[1..] == rest;
  }

  lemma ReadVersions(v: Versions, p: Parser)
    requires p.inVersion && p.temp == "" && p.vI == 0
    ensures ParseFrom(Joined(VersionTexts(v), '.') + "]", p) == Ok(Id(p.id.categories, v))
  {
    var t := VersionTexts(v);
    var v1 := p.id.versions[0 := v[0]];
    var v2 := v1[1 := v[1]];
    var v3 := v2[2 := v[2]];
    var v4 := v3[3 := v[3]];
    var s3 := t[3] + "]" + "";
    var s2 := t[2] + "." + s3;
    var s1 := t[1] + "." + s2;
    JoinedFour(t, '.');
    assert Joined(t, '.') + "]" == t[0] + "." + s1;
    ReadVersion(v[0], '.', s1, p);
    ReadVersion(v[1], '.', s2, Parser(true, "", Id(p.id.categories, v1), 1));
    ReadVersion(v[2], '.', s3, Parser(true, "", Id(p.id.categories, v2), 2));
    ReadVersion(v[3], ']', "", Parser(true, "", Id(p.id.categories, v3), 3));
    assert v4 == v;
  }

  lemma JoinedFour(t: seq<string>, separator: char)
    requires |t| == 4
    ensures Joined(t, separator) == t[0] + [separator] + (t[1] + [separator] + (t[2] + [separator] + t[3]))
  {
    assert t[1..][1..] == t[2..] && t[2..][1..] == t[3..];
    assert Joined(t[3..], separator) == t[3];
    assert Joined(t[2..], separator) == t[2] + [separator] + t[3];
    assert Joined(t[1..], separator) == t[1] + [separator] + (t[2] + [separator] + t[3]);
  }

  /** The parser keeps its categories clean and has at least one by the time it reads versions. */
  ghost predicate ParserInv(p: Parser) {
    && (forall c :: c in p.id.categories ==> Clean(c))
    && (p.inVersion ==> p.id.categories != [])
    && (!p.inVersion ==> ':' !in p.temp && '[' !in p.temp && NUL !in p.temp)
  }

  lemma {:induction false} ParseKeepsClean(s: string, p: Parser)
    requires ParserInv(p) && ParseFrom(s, p).Ok?
    ensures Printable(ParseFrom(s, p).value)
    decreases |s|
  {
    var c := CharAt(s);
    var q := Step(p, c).value;
    assert ParserInv(q);
    if c != NUL {
      ParseKeepsClean(s[1..], q);
    }
  }

  /** Whatever is parsed has at least one category and no category holds a separator. */
  lemma ParsedIsPrintable(s: string)
    requires Parsed(s).Ok?
    ensures Printable(Parsed(s).value)
  {
    ParseKeepsClean(s, START);
  }

  /** Printing and parsing again gives the identifier back exactly when it is printable. */
  lemma PrintParse(id: Id)
    ensures Parsed(Printed(id)) == Ok(id) <==> Printable(id)
  {
    if Printable(id) {
      var versions := Joined(VersionTexts(id.versions), '.') + "]";
      assert Printed(id) == Joined(id.categories, ':') + "[" + versions;
      ReadCategories(id.categories, versions, START);
      assert [] + id.categories == id.categories;
      ReadVersions(id.versions, Parser(true, "", Id(id.categories, START.id.versions), 0));
    }
    if Parsed(Printed(id)) == Ok(id) {
      ParsedIsPrintable(Printed(id));
    }
  }

  /** So printing a parsed text is a normal form of that text. */
  lemma PrintedIsNormalForm(s: string)
    requires Parsed(s).Ok?
    ensures Parsed(Printed(Parsed(s).value)) == Parsed(s)
  {
    ParsedIsPrintable(s);
    PrintParse(Parsed(s).value);
  }

  // ---- Matching ----

  /** a is lexicographically below b. */
  ghost predicate VersionLess(a: Versions, b: Versions) {
    exists k :: 0 <= k < VERSION_PARTS && a[..k] == b[..k] && a[k] < b[k]
  }

  ghost predicate VersionLeq(a: Versions, b: Versions) {
    a == b || VersionLess(a, b)
  }

  lemma SamePrefix(a: Versions, b: Versions, j: nat, k: nat)
    requires k < j <= VERSION_PARTS && a[..j] == b[..j]
    ensures a[k] == b[k]
  {
    assert a[..j][k] == a[k] && b[..j][k] == b[k];
  }

  lemma VersionOrderTotal(a: Versions, b: Versions)
    ensures VersionLess(a, b) ==> !VersionLess(b, a) && a != b
    ensures VersionLess(a, b) || VersionLess(b, a) || a == b
  {
    if VersionLess(a, b) {
      var k :| 0 <= k < VERSION_PARTS && a[..k] == b[..k] && a[k] < b[k];
      forall j | 0 <= j < k ensures a[j] == b[j] { assert a[..k][j] == b[..k][j]; }
      forall j | 0 <= j < VERSION_PARTS && b[..j] == a[..j] ensures !(b[j] < a[j]) {
        if j > k { SamePrefix(a, b, j, k); }
      }
    }
    if a != b {
      assert a == a[0..] && b == b[0..];
      var k := FirstDifference(a, b, 0);
    }
  }

  lemma {:induction false} FirstDifference(a: Versions, b: Versions, from: nat) returns (k: nat)
    requires from <= VERSION_PARTS && a[..from] == b[..from] && a[from..] != b[from..]
    ensures k < VERSION_PARTS && a[..k] == b[..k] && a[k] != b[k]
    decreases VERSION_PARTS - from
  {
    if a[from] != b[from] {
      k := from;
    } else {
      assert a[..from + 1] == a[..from] + [a[from]] && b[..from + 1] == b[..from] + [b[from]];
      assert a[from..] == [a[from]] + a[from + 1..] && b[from..] == [b[from]] + b[from + 1..];
      k := FirstDifference(a, b, from + 1);
    }
  }

  lemma VersionLessTransitive(a: Versions, b: Versions, c: Versions)
    requires VersionLess(a, b) && VersionLess(b, c)
    ensures VersionLess(a, c)
  {
    var k :| 0 <= k < VERSION_PARTS && a[..k] == b[..k] && a[k] < b[k];
    var j :| 0 <= j < VERSION_PARTS && b[..j] == c[..j] && b[j] < c[j];
    var m := if k < j then k else j;
    assert a[..k][..m] == a[..m] && b[..k][..m] == b[..m] && b[..j][..m] == b[..m] && c[..j][..m] == c[..m];
    if k < j { assert b[..j][k] == c[..j][k]; }
    if j < k { assert a[..k][j] == b[..k][j]; }
    assert a[..m] == c[..m] && a[m] < c[m];
  }

  method CompareVersion(a: Id, b: Id) returns (order: int)
    ensures order == 0 <==> a.versions == b.versions
    ensures order == -1 <==> VersionLess(a.versions, b.versions)
    ensures order == 1 <==> VersionLess(b.versions, a.versions)
  {
    VersionOrderTotal(a.versions, b.versions);
    VersionOrderTotal(b.versions, a.versions);
    for i := 0 to VERSION_PARTS
      invariant a.versions[..i] == b.versions[..i]
    {
      if a.versions[i] < b.versions[i] {
        return -1;
      } else if a.versions[i] > b.versions[i] {
        return 1;
      }
      assert a.versions[..i + 1] == a.versions[..i] + [a.versions[i]];
      assert b.versions[..i + 1] == b.versions[..i] + [b.versions[i]];
    }
    assert a.versions == a.versions[..VERSION_PARTS] && b.versions == b.versions[..VERSION_PARTS];
    return 0;
  }

  /** provider has the dependency's categories, missing ones reading as empty, and no lower version. */
  ghost predicate Matches(dependency: Id, provider: Id) {
    && (forall i :: 0 <= i < |dependency.categories| ==> Category(provider, i) == dependency.categories[i])
    && VersionLeq(dependency.versions, provider.versions)
  }

  method IsMatchedBy(dependency: Id, provider: Id) returns (matched: bool)
    ensures matched <==> Matches(dependency, provider)
  {
    for i := 0 to |dependency.categories|
      invariant forall j :: 0 <= j < i ==> Category(provider, j) == dependency.categories[j]
    {
      if Category(provider, i) != Category(dependency, i) {
        return false;
      }
    }
    VersionOrderTotal(dependency.versions, provider.versions);
    VersionOrderTotal(provider.versions, dependency.versions);
    var order := CompareVersion(dependency, provider);
    return order <= 0;
  }

  predicate NoEmptyCategory(id: Id) { "" !in id.categories }

  /** Without empty categories, matching is: the categories are a prefix and the version is no lower. */
  lemma MatchesIsPrefix(a: Id, b: Id)
    requires NoEmptyCategory(a)
    ensures Matches(a, b) <==> a.categories <= b.categories && VersionLeq(a.versions, b.versions)
  {
    if Matches(a, b) {
      forall i | 0 <= i < |a.categories| ensures i < |b.categories| && a.categories[i] == b.categories[i] {
        assert a.categories[i] in a.categories;
      }
      var last := |a.categories| - 1;
      assert last >= 0 ==> a.categories[last] in a.categories && last < |b.categories|;
    }
  }

  lemma MatchesReflexive(a: Id)
    ensures Matches(a, a)
  {
  }

  /** Composing a match with every further match of b works exactly when a has no more categories than b.
      In particular it works for identifiers without empty categories, which makes matching a preorder there. */
  lemma MatchesComposes(a: Id, b: Id)
    requires Matches(a, b)
    ensures (forall c :: Matches(b, c) ==> Matches(a, c)) <==> |a.categories| <= |b.categories|
    ensures NoEmptyCategory(a) ==> |a.categories| <= |b.categories|
  {
    if |a.categories| <= |b.categories| {
      forall c | Matches(b, c) ensures Matches(a, c) {
        if VersionLess(a.versions, b.versions) && VersionLess(b.versions, c.versions) {
          VersionLessTransitive(a.versions, b.versions, c.versions);
        }
      }
    } else {
      var c := Id(b.categories + ["x"], b.versions);
      var k := |b.categories|;
      assert Matches(b, c);
      assert Category(b, k) == a.categories[k] == "" && Category(c, k) == "x";
      assert !Matches(a, c);
    }
    if NoEmptyCategory(a) {
      MatchesIsPrefix(a, b);
    }
  }
}
