/** What ComponentId::Parse makes of any text, printed or written by hand: the categories up to the bracket, and the
    numbers behind it, with zeros for those that are not there. */
module ComponentTexts {
  import opened Sequences
  import opened ComponentId

  /** A stretch of the version part and the character that ends it. */
  datatype Piece = Piece(text: string, end: char)

  predicate PieceClean(p: Piece) {
    (p.end == '.' || p.end == ']') && Unended(p.text)
  }

  /** Short enough for the buffer, and without the characters that end a stretch. */
  predicate Unended(text: string) {
    '.' !in text && ']' !in text && NUL !in text && |text| < 256
  }

  function PiecesText(ps: seq<Piece>): string {
    if ps == [] then "" else ps[0].text + ([ps[0].end] + PiecesText(ps[1..]))
  }

  predicate InRange(n: int) { -2147483648 <= n <= 2147483647 }

  /** The i-th number of the version part, or 0 behind its end. */
  function Number(ps: seq<Piece>, i: nat): int {
    if i < |ps| then Atoi(ps[i].text) else 0
  }

  ghost predicate NumbersInRange(ps: seq<Piece>) {
    InRange(Number(ps, 0)) && InRange(Number(ps, 1)) && InRange(Number(ps, 2)) && InRange(Number(ps, 3))
  }

  // ---- Reading ----

  /** The text ends in a category. */
  lemma ReadLast(c: string, p: Parser)
    requires Clean(c) && !p.inVersion && p.temp == ""
    ensures ParseFrom(c, p) == Ok(Id(p.id.categories + [c], p.id.versions))
  {
    assert p.temp + c == c && c + "" == c;
    ReadSegment(c, "", p);
    assert ParseFrom("", p.(temp := c)) == Ok(Id(p.id.categories + [c], p.id.versions));
  }

  lemma {:induction false} ReadOnlyCategories(cs: seq<string>, p: Parser)
    requires cs != [] && (forall c :: c in cs ==> Clean(c)) && !p.inVersion && p.temp == ""
    ensures ParseFrom(Joined(cs, ':'), p) == Ok(Id(p.id.categories + cs, p.id.versions))
    decreases |cs|
  {
    hide ParseFrom, Clean;
    assert cs[0] in cs;
    if |cs| == 1 {
      ReadLast(cs[0], p);
      assert [cs[0]] == cs;
    } else {
      var rest := Joined(cs[1..], ':');
      assert Joined(cs, ':') == cs[0] + ([':'] + rest);
      ReadCategory(cs[0], ':', rest, p);
      var q := Parser(false, "", Id(p.id.categories + [cs[0]], p.id.versions), p.vI);
      ReadOnlyCategories(cs[1..], q);
      assert p.id.categories + [cs[0]] + cs[1..] == p.id.categories + cs;
    }
  }

  /** Four versions, the ones from vI on taken from the pieces. */
  function Placed(v: Versions, vI: nat, ps: seq<Piece>): seq<int> {
    seq(4, j => if 0 <= j && vI <= j < vI + |ps| then Atoi(ps[j - vI].text) else if 0 <= j < 4 then v[j] else 0)
  }

  ghost predicate PlacedInRange(vI: nat, ps: seq<Piece>) {
    forall j :: 0 <= j < |ps| && vI + j < 4 ==> InRange(Atoi(ps[j].text))
  }

  /** One stretch of the version part. */
  lemma ReadPiece(x: Piece, rest: string, p: Parser)
    requires PieceClean(x) && p.inVersion && p.temp == ""
    ensures ParseFrom(x.text + ([x.end] + rest), p) ==
      if p.vI >= 4 then ParseFrom(rest, p)
      else if InRange(Atoi(x.text)) then
        ParseFrom(rest, Parser(true, "", Id(p.id.categories, p.id.versions[p.vI := Atoi(x.text)]), p.vI + 1))
      else Err(NumberRange)
  {
    assert p.temp + x.text == x.text;
    ReadSegment(x.text, [x.end] + rest, p);
    assert ([x.end] + rest)[1..] == rest;
  }

  /** What is not ended is not read. */
  lemma ReadTail(tail: string, p: Parser)
    requires Unended(tail) && p.inVersion && p.temp == ""
    ensures ParseFrom(tail, p) == Ok(p.id)
  {
    assert p.temp + tail == tail && tail + "" == tail;
    ReadSegment(tail, "", p);
    assert ParseFrom("", p.(temp := tail)) == Ok(p.id);
  }

  lemma {:induction false} ReadPieces(ps: seq<Piece>, tail: string, p: Parser)
    requires (forall i :: 0 <= i < |ps| ==> PieceClean(ps[i])) && Unended(tail) && p.inVersion && p.temp == ""
    ensures var r := ParseFrom(PiecesText(ps) + tail, p);
      if PlacedInRange(p.vI, ps) then
        r.Ok? && r.value.categories == p.id.categories && r.value.versions == Placed(p.id.versions, p.vI, ps)
      else r == Err(NumberRange)
    decreases |ps|
  {
    hide ParseFrom;
    if ps == [] {
      assert PiecesText(ps) + tail == tail;
      ReadTail(tail, p);
    } else {
      var x, rest := ps[0], PiecesText(ps[1..]) + tail;
      assert PiecesText(ps) + tail == x.text + ([x.end] + rest);
      ReadPiece(x, rest, p);
      var later := ps[1..];
      assert forall i :: 0 <= i < |later| ==> later[i] == ps[i + 1];
      hide PiecesText, PieceClean, Unended, Placed, PlacedInRange, Atoi;
      PlacedFirst(p.id.versions, p.vI, ps);
      if p.vI >= 4 {
        ReadPieces(later, tail, p);
      } else if InRange(Atoi(x.text)) {
        var v := p.id.versions[p.vI := Atoi(x.text)];
        ReadPieces(later, tail, Parser(true, "", Id(p.id.categories, v), p.vI + 1));
      }
    }
  }

  /** The first piece fills the first place that is left, if there is one. */
  lemma PlacedFirst(v: Versions, vI: nat, ps: seq<Piece>)
    requires ps != []
    ensures vI >= 4 ==> Placed(v, vI, ps) == Placed(v, vI, ps[1..])
    ensures vI >= 4 ==> PlacedInRange(vI, ps) && PlacedInRange(vI, ps[1..])
    ensures vI < 4 && InRange(Atoi(ps[0].text)) ==>
      Placed(v, vI, ps) == Placed(v[vI := Atoi(ps[0].text)], vI + 1, ps[1..])
      && (PlacedInRange(vI, ps) <==> PlacedInRange(vI + 1, ps[1..]))
    ensures vI < 4 && !InRange(Atoi(ps[0].text)) ==> !PlacedInRange(vI, ps)
  {
    hide Atoi;
    assert forall j :: 1 <= j < |ps| ==> ps[j] == ps[1..][j - 1];
  }

  // ---- The theorems ----

  /** A text without a bracket: its categories are the stretches between colons, and the version is 0.0.0.0. */
  lemma ParsedCategories(cs: seq<string>)
    requires cs != [] && forall c :: c in cs ==> Clean(c)
    ensures Parsed(Joined(cs, ':')) == Ok(Id(cs, [0, 0, 0, 0]))
  {
    ReadOnlyCategories(cs, START);
    assert [] + cs == cs;
  }

  /** A text with a bracket: the categories before it, and as numbers what atoi makes of the first four stretches behind
      it that are ended by a dot or a closing bracket, missing ones being 0. Whatever follows is ignored. */
  lemma ParsedWithVersions(cs: seq<string>, ps: seq<Piece>, tail: string)
    requires cs != [] && (forall c :: c in cs ==> Clean(c))
    requires (forall i :: 0 <= i < |ps| ==> PieceClean(ps[i])) && Unended(tail)
    ensures var r := Parsed(Joined(cs, ':') + "[" + (PiecesText(ps) + tail));
      if NumbersInRange(ps) then
        r.Ok? && r.value.categories == cs
        && r.value.versions == [Number(ps, 0), Number(ps, 1), Number(ps, 2), Number(ps, 3)]
      else r == Err(NumberRange)
  {
    var rest := PiecesText(ps) + tail;
    ReadCategories(cs, rest, START);
    FirstFour(ps);
    var p := Parser(true, "", Id([] + cs, [0, 0, 0, 0]), 0);
    assert [] + cs == cs;
    ReadPieces(ps, tail, p);
    hide *;
  }

  /** Read from the start, the pieces fill the versions in order. */
  lemma FirstFour(ps: seq<Piece>)
    ensures PlacedInRange(0, ps) <==> NumbersInRange(ps)
    ensures Placed([0, 0, 0, 0], 0, ps) == [Number(ps, 0), Number(ps, 1), Number(ps, 2), Number(ps, 3)]
  {
    hide Atoi;
  }

  /** Numbers joined by dots and closed by a bracket are such stretches. */
  function NumberPieces(vs: seq<int>): seq<Piece> {
    if vs == [] then []
    else if |vs| == 1 then [Piece(IntToString(vs[0]), ']')]
    else [Piece(IntToString(vs[0]), '.')] + NumberPieces(vs[1..])
  }

  function Texts(vs: seq<int>): (r: seq<string>)
    ensures |r| == |vs|
  {
    if vs == [] then [] else [IntToString(vs[0])] + Texts(vs[1..])
  }

  lemma {:induction false} NumberPiecesText(vs: seq<int>)
    requires vs != []
    ensures PiecesText(NumberPieces(vs)) == Joined(Texts(vs), '.') + "]"
    decreases |vs|
  {
    hide IntToString;
    var x, ps := IntToString(vs[0]), NumberPieces(vs);
    if |vs| == 1 {
      assert PiecesText(ps[1..]) == "" && ps[0] == Piece(x, ']') && Texts(vs)[0] == x;
      assert x + ([']'] + "") == x + "]";
    } else {
      NumberPiecesText(vs[1..]);
      var rest := Joined(Texts(vs[1..]), '.');
      assert ps[0] == Piece(x, '.') && ps[1..] == NumberPieces(vs[1..]);
      assert Texts(vs)[0] == x && Texts(vs)[1..] == Texts(vs[1..]);
      JoinedFirst(Texts(vs), '.');
      var text, joined := PiecesText(ps), Joined(Texts(vs), '.');
      assert text == x + (['.'] + (rest + "]")) && joined == x + ['.'] + rest;
      hide PiecesText, Joined, Texts, NumberPieces;
      RegroupFour(x, ['.'], rest, "]");
    }
  }

  lemma JoinedFirst(parts: seq<string>, separator: char)
    requires |parts| > 1
    ensures Joined(parts, separator) == parts[0] + [separator] + Joined(parts[1..], separator)
  {
  }

  lemma {:induction false} NumberPiecesRead(vs: seq<int>)
    requires forall v :: v in vs ==> InRange(v)
    ensures |NumberPieces(vs)| == |vs|
    ensures forall i :: 0 <= i < |vs| ==> PieceClean(NumberPieces(vs)[i]) && Number(NumberPieces(vs), i) == vs[i]
    decreases |vs|
  {
    hide IntToString, Atoi, Unended;
    if vs == [] {
    } else {
      assert vs[0] in vs && forall v :: v in vs[1..] ==> v in vs;
      NumberText(vs[0]);
      NumberPiecesRead(vs[1..]);
      forall i | 0 <= i < |vs|
        ensures PieceClean(NumberPieces(vs)[i]) && Number(NumberPieces(vs), i) == vs[i]
      {
        if i > 0 {
          assert |vs| > 1 && NumberPieces(vs)[i] == NumberPieces(vs[1..])[i - 1] && vs[i] == vs[1..][i - 1];
        }
      }
    }
  }

  lemma NumberText(n: int)
    requires InRange(n)
    ensures Unended(IntToString(n)) && Atoi(IntToString(n)) == n
  {
    AtoiRoundTrip(n);
    VersionLength(n);
    assert forall c :: c in IntToString(n) ==> c == '-' || IsDigit(c);
  }

  /** The number a manifest gives at place i, or 0 if it gives fewer. */
  function Given(vs: seq<int>, i: nat): int {
    if i < |vs| then vs[i] else 0
  }

  /** As manifests are written: categories, and one or more numbers in brackets; of the numbers the first four count,
      and missing ones are 0. */
  lemma ParsedNumbers(cs: seq<string>, vs: seq<int>)
    requires cs != [] && (forall c :: c in cs ==> Clean(c)) && vs != [] && forall v :: v in vs ==> InRange(v)
    ensures var r := Parsed(Joined(cs, ':') + "[" + (Joined(Texts(vs), '.') + "]"));
      && r.Ok? && r.value.categories == cs
      && r.value.versions == [Given(vs, 0), Given(vs, 1), Given(vs, 2), Given(vs, 3)]
  {
    assert Unended("");
    hide *;
    var ps := NumberPieces(vs);
    NumberPiecesText(vs);
    NumberPiecesRead(vs);
    NumbersFilled(vs, ps);
    var text := Joined(Texts(vs), '.') + "]";
    assert PiecesText(ps) + "" == text;
    ParsedWithVersions(cs, ps, "");
  }

  /** What was not read stays 0. */
  lemma NumbersFilled(vs: seq<int>, ps: seq<Piece>)
    requires |ps| == |vs| && (forall v :: v in vs ==> InRange(v))
    requires forall i :: 0 <= i < |vs| ==> Number(ps, i) == vs[i]
    ensures NumbersInRange(ps)
    ensures forall i: nat :: i < 4 ==> Number(ps, i) == Given(vs, i)
  {
    hide Atoi;
    assert forall i :: 0 <= i < |vs| ==> vs[i] in vs;
  }

  // ---- Numbers as they are written ----

  predicate AllDigits(ds: seq<nat>) {
    forall i :: 0 <= i < |ds| ==> ds[i] <= 9
  }

  /** Decimal digits, the most significant first. */
  function Decimal(ds: seq<nat>): nat {
    if ds == [] then 0 else 10 * Decimal(ds[..|ds| - 1]) + ds[|ds| - 1]
  }

  function DigitText(ds: seq<nat>): (r: string)
    requires AllDigits(ds)
    ensures |r| == |ds|
  {
    seq(|ds|, i requires 0 <= i < |ds| => "0123456789"[ds[i]])
  }

  /** Space, tab, line feed, vertical tab, form feed and carriage return. */
  predicate Blank(c: char) {
    c as int in {32, 9, 10, 11, 12, 13}
  }

  /** What is behind the digits of a number that has none or some. */
  predicate NumberEnds(sign: string, ds: seq<nat>, tail: string) {
    tail != "" ==>
      && tail[0] !in "0123456789"
      && (sign == "" && ds == [] ==> !Blank(tail[0]) && tail[0] != '+' && tail[0] != '-')
  }

  lemma {:induction false} DecimalFirst(d: nat, ds: seq<nat>, acc: nat)
    requires d <= 9 && AllDigits(ds)
    ensures Decimal([acc, d] + ds) == Decimal([10 * acc + d] + ds)
    decreases |ds|
  {
    if ds == [] {
      assert ([acc, d] + ds)[..1] == [acc] && [acc][..0] == [] && ([10 * acc + d] + ds)[..0] == [];
    } else {
      var n := |ds| - 1;
      assert ([acc, d] + ds)[..n + 2] == [acc, d] + ds[..n];
      assert ([10 * acc + d] + ds)[..n + 1] == [10 * acc + d] + ds[..n];
      DecimalFirst(d, ds[..n], acc);
    }
  }

  lemma DigitFirst(ds: seq<nat>, tail: string, acc: nat)
    requires AllDigits(ds) && ds != []
    ensures DigitsValue(DigitText(ds) + tail, acc) == DigitsValue(DigitText(ds[1..]) + tail, 10 * acc + ds[0])
  {
    DigitChars();
    hide IsDigit;
    var s := DigitText(ds) + tail;
    assert s[0] == "0123456789"[ds[0]] && s[1..] == DigitText(ds[1..]) + tail;
  }

  lemma {:induction false} DigitsRead(ds: seq<nat>, tail: string, acc: nat)
    requires AllDigits(ds) && (tail != "" ==> tail[0] !in "0123456789")
    ensures DigitsValue(DigitText(ds) + tail, acc) == Decimal([acc] + ds)
    decreases |ds|
  {
    if ds == [] {
      DigitChars();
      assert DigitText(ds) + tail == tail && [acc] + ds == [acc] && [acc][..0] == [];
    } else {
      DigitFirst(ds, tail, acc);
      DigitsRead(ds[1..], tail, 10 * acc + ds[0]);
      DecimalFirst(ds[0], ds[1..], acc);
      hide *;
      assert [acc] + ds == [acc, ds[0]] + ds[1..];
    }
  }

  lemma DigitChars()
    ensures forall d :: 0 <= d <= 9 ==>
      IsDigit("0123456789"[d]) && "0123456789"[d] as int - '0' as int == d && !IsSpace("0123456789"[d])
    ensures forall c :: IsDigit(c) <==> c in "0123456789"
  {
    forall c | IsDigit(c) ensures c in "0123456789" {
      assert "0123456789"[c as int - '0' as int] == c;
    }
  }

  lemma {:induction false} BlanksSkipped(spaces: string, rest: string)
    requires forall i :: 0 <= i < |spaces| ==> Blank(spaces[i])
    ensures Atoi(spaces + rest) == Atoi(rest)
    decreases |spaces|
  {
    if spaces == "" {
      assert spaces + rest == rest;
    } else {
      assert (spaces + rest)[1..] == spaces[1..] + rest;
      BlanksSkipped(spaces[1..], rest);
    }
  }

  /** What starts with neither a blank nor a sign, and what starts with a sign. */
  lemma AtoiSigned(sign: string, digits: string)
    requires sign in {"", "+", "-"}
    requires sign == "" && digits != "" ==> !Blank(digits[0]) && digits[0] != '+' && digits[0] != '-'
    ensures Atoi(sign + digits) == if sign == "-" then 0 - DigitsValue(digits, 0) else DigitsValue(digits, 0)
  {
    if sign == "" {
      assert sign + digits == digits;
    } else {
      assert (sign + digits)[1..] == digits;
    }
  }

  lemma DigitsStart(sign: string, ds: seq<nat>, tail: string)
    requires AllDigits(ds) && NumberEnds(sign, ds, tail) && sign == "" && DigitText(ds) + tail != ""
    ensures var c := (DigitText(ds) + tail)[0]; !Blank(c) && c != '+' && c != '-'
  {
    if ds != [] {
      assert (DigitText(ds) + tail)[0] == "0123456789"[ds[0]];
    }
  }

  /** The number of a text: blanks, perhaps a sign, the digits there are, and anything that is no digit. */
  lemma AtoiReads(spaces: string, sign: string, ds: seq<nat>, tail: string)
    requires (forall i :: 0 <= i < |spaces| ==> Blank(spaces[i])) && sign in {"", "+", "-"} && AllDigits(ds)
    requires NumberEnds(sign, ds, tail)
    ensures Atoi(spaces + (sign + (DigitText(ds) + tail))) == if sign == "-" then 0 - Decimal(ds) else Decimal(ds)
  {
    var digits := DigitText(ds) + tail;
    if sign == "" && digits != "" {
      DigitsStart(sign, ds, tail);
    }
    hide Atoi, DigitsValue, Decimal, Blank;
    DigitsRead(ds, tail, 0);
    hide DigitText;
    BlanksSkipped(spaces, sign + digits);
    AtoiSigned(sign, digits);
    DecimalZero(ds);
  }

  lemma {:induction false} DecimalZero(ds: seq<nat>)
    ensures Decimal([0] + ds) == Decimal(ds)
    decreases |ds|
  {
    if ds == [] {
      assert [0] + ds == [0] && [0][..0] == [];
    } else {
      assert ([0] + ds)[..|ds|] == [0] + ds[..|ds| - 1];
      DecimalZero(ds[..|ds| - 1]);
    }
  }

  /** A number is printed in decimal, with a minus exactly if it is negative and without zeros in front. */
  lemma PrintedDecimal(n: int) returns (ds: seq<nat>)
    ensures AllDigits(ds) && IntToString(n) == (if n < 0 then "-" else "") + DigitText(ds)
    ensures Decimal(ds) == if n < 0 then -n else n
    ensures ds != [] && (ds[0] == 0 ==> ds == [0])
  {
    ds := DigitsOf(if n < 0 then -n else n);
    assert "" + DigitText(ds) == DigitText(ds);
  }

  lemma {:induction false} DigitsOf(n: nat) returns (ds: seq<nat>)
    ensures AllDigits(ds) && Digits(n) == DigitText(ds) && Decimal(ds) == n
    ensures ds != [] && (ds[0] == 0 ==> n == 0 && ds == [0])
  {
    var last := n % 10;
    assert "0123456789"[last] == ('0' as int + last) as char;
    if n < 10 {
      ds := [last];
      assert ds[..0] == [];
    } else {
      var before := DigitsOf(n / 10);
      ds := before + [last];
      assert ds[..|ds| - 1] == before;
    }
  }

  // ---- Where reading ends ----

  /** The first NUL ends the text. */
  lemma {:induction false} EndsAtNul(s: string, behind: string, p: Parser)
    ensures ParseFrom(s + ([0 as char] + behind), p) == ParseFrom(s, p)
    decreases |s|
  {
    var whole := s + ([0 as char] + behind);
    if s == "" {
      assert whole == [0 as char] + behind;
    } else {
      assert whole[0] == s[0] && whole[1..] == s[1..] + ([0 as char] + behind);
      if Step(p, s[0]).Ok? && s[0] != 0 as char {
        EndsAtNul(s[1..], behind, Step(p, s[0]).value);
      }
    }
  }

  /** 256 characters that no separator breaks do not fit the scratch buffer. */
  lemma {:induction false} SegmentOverflows(w: string, rest: string, p: Parser)
    requires |p.temp| <= 256 <= |p.temp| + |w|
    requires forall c :: c in w ==> c != 0 as char && !EndsSegment(p.inVersion, c)
    ensures ParseFrom(w + rest, p) == Err(BufferOverflow)
    decreases |w|
  {
    if |p.temp| < 256 {
      assert (w + rest)[0] == w[0] && w[0] in w && (w + rest)[1..] == w[1..] + rest;
      assert forall c :: c in w[1..] ==> c in w;
      SegmentOverflows(w[1..], rest, p.(temp := p.temp + [w[0]]));
    }
  }

  /** A category of 256 or more characters, whatever clean ones are before it and whatever follows. */
  lemma LongCategory(cs: seq<string>, w: string, rest: string)
    requires forall c :: c in cs ==> Clean(c)
    requires |w| >= 256 && ':' !in w && '[' !in w && 0 as char !in w
    ensures Parsed((if cs == [] then "" else Joined(cs, ':') + ":") + (w + rest)) == Err(BufferOverflow)
  {
    if cs == [] {
      assert "" + (w + rest) == w + rest;
      SegmentOverflows(w, rest, START);
    } else {
      var p := CategoriesRead(cs, w + rest, START);
      SegmentOverflows(w, rest, p);
      Regroup(Joined(cs, ':'), ":", w + rest);
    }
  }

  lemma {:induction false} CategoriesRead(cs: seq<string>, rest: string, p: Parser) returns (q: Parser)
    requires cs != [] && (forall c :: c in cs ==> Clean(c)) && !p.inVersion && p.temp == ""
    ensures ParseFrom(Joined(cs, ':') + ":" + rest, p) == ParseFrom(rest, q) && !q.inVersion && q.temp == ""
    decreases |cs|
  {
    hide ParseFrom, Clean;
    assert cs[0] in cs;
    q := Parser(false, "", Id(p.id.categories + [cs[0]], p.id.versions), p.vI);
    if |cs| == 1 {
      assert Joined(cs, ':') + ":" + rest == cs[0] + ([':'] + rest);
      ReadCategory(cs[0], ':', rest, p);
    } else {
      var more := Joined(cs[1..], ':') + ":" + rest;
      assert Joined(cs, ':') + ":" + rest == cs[0] + ([':'] + more);
      ReadCategory(cs[0], ':', more, p);
      q := CategoriesRead(cs[1..], rest, q);
    }
  }
}
