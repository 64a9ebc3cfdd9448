/** Base relocation tables as the PE format lays them out, and what the walk of such a table finds. */
module RelocationFormat {
  import opened LittleEndian
  import opened Relocations

  /** A type and an offset into the page, in one 16-bit entry. */
  datatype Entry = Entry(kind: nat, offset: nat)

  /** The fields of one page, at the address `page`. */
  datatype Page = Page(page: nat, entries: seq<Entry>)

  predicate EntryFits(e: Entry) { e.kind < 16 && e.offset < 4096 }

  predicate PageFits(p: Page) {
    && p.page < 0x1_0000_0000 && 8 + 2 * |p.entries| < 0x1_0000_0000
    && forall i :: 0 <= i < |p.entries| ==> EntryFits(p.entries[i])
  }

  predicate AllFit(ps: seq<Page>) {
    forall i :: 0 <= i < |ps| ==> PageFits(ps[i])
  }

  // ---- The bytes ----

  /** The type in the four high bits, the offset in the twelve low ones. */
  function EntryBytes(e: Entry): Image {
    Bytes(4096 * e.kind + e.offset, 2)
  }

  function EntriesBytes(es: seq<Entry>): (r: Image)
    ensures |r| == 2 * |es|
  {
    if es == [] then [] else EntryBytes(es[0]) + EntriesBytes(es[1..])
  }

  /** The address of the page, the size of the block, and the entries. */
  function PageBytes(p: Page): (r: Image)
    ensures |r| == 8 + 2 * |p.entries|
  {
    Bytes(p.page, 4) + Bytes(8 + 2 * |p.entries|, 4) + EntriesBytes(p.entries)
  }

  function TableBytes(ps: seq<Page>): Image {
    if ps == [] then [] else PageBytes(ps[0]) + TableBytes(ps[1..])
  }

  // ---- What they list ----

  /** Type 0 is padding, 3 a field of 4 bytes, 10 one of 8; any other type ends the walk. */
  function PageFields(page: nat, es: seq<Entry>): (seq<Fixup>, bool) {
    if es == [] then ([], true)
    else if es[0].kind == 0 then PageFields(page, es[1..])
    else if es[0].kind == 3 then
      var rest := PageFields(page, es[1..]);
      ([Fixup((page + es[0].offset) % 0x1_0000_0000, 4)] + rest.0, rest.1)
    else if es[0].kind == 10 then
      var rest := PageFields(page, es[1..]);
      ([Fixup((page + es[0].offset) % 0x1_0000_0000, 8)] + rest.0, rest.1)
    else ([], false)
  }

  /** The fields of all pages in order, up to an unknown type, and where the walk stops when the table is at pos. */
  function Listed(ps: seq<Page>, pos: nat): Walk {
    if ps == [] then Walk([], true, pos)
    else
      var first, next := PageFields(ps[0].page, ps[0].entries), pos + 8 + 2 * |ps[0].entries|;
      if !first.1 then Walk(first.0, false, next)
      else
        match Listed(ps[1..], next)
        case Malformed => Malformed
        case Walk(more, complete, stop) => Walk(first.0 + more, complete, stop)
  }

  // ---- Reading them ----

  /** The image holds these bytes at pos. */
  ghost predicate Holds(img: Image, pos: nat, bytes: Image) {
    pos + |bytes| <= |img| && img[pos..pos + |bytes|] == bytes
  }

  lemma HoldsParts(img: Image, pos: nat, x: Image, y: Image)
    requires Holds(img, pos, x + y)
    ensures Holds(img, pos, x) && Holds(img, pos + |x|, y)
  {
    var all := img[pos..pos + |x + y|];
    assert all[..|x|] == x && all[|x|..] == y;
    assert img[pos..pos + |x|] == all[..|x|] && img[pos + |x|..pos + |x| + |y|] == all[|x|..];
  }

  lemma Powers()
    ensures Pow256(2) == 0x1_0000 && Pow256(4) == 0x1_0000_0000
  {
    assert Pow256(1) == 256;
    assert Pow256(2) == 256 * 256;
    assert Pow256(3) == 256 * Pow256(2);
  }

  lemma ReadsNumber(img: Image, pos: nat, v: nat, w: nat)
    requires v < Pow256(w) && Holds(img, pos, Bytes(v, w))
    ensures Read(img, pos, w) == v
  {
    ValueBytes(v, w);
  }

  lemma EntryParts(e: Entry, va: nat)
    requires EntryFits(e)
    ensures var n := 4096 * e.kind + e.offset; n < 0x1_0000 && EntryType(n) == e.kind
    ensures EntryRva(4096 * e.kind + e.offset, va) == (va + e.offset) % 0x1_0000_0000
  {
    var n := 4096 * e.kind + e.offset;
    assert n / 4096 == e.kind && n % 4096 == e.offset;
  }

  lemma {:induction false} EntriesRead(img: Image, at: nat, es: seq<Entry>, va: nat)
    requires Holds(img, at, EntriesBytes(es)) && forall i :: 0 <= i < |es| ==> EntryFits(es[i])
    ensures at + 2 * |es| <= |img| && Entries(img, at, va, |es|) == PageFields(va, es)
    decreases |es|
  {
    if es == [] {
    } else {
      EntryParts(es[0], va);
      Powers();
      HoldsParts(img, at, EntryBytes(es[0]), EntriesBytes(es[1..]));
      ReadsNumber(img, at, 4096 * es[0].kind + es[0].offset, 2);
      hide Read, EntriesBytes, EntryBytes, EntryType, EntryRva, Holds;
      EntriesRead(img, at + 2, es[1..], va);
    }
  }

  /** The header and the entries of one block. */
  lemma BlockReads(img: Image, pos: nat, p: Page)
    requires PageFits(p) && Holds(img, pos, PageBytes(p))
    ensures HasBlock(img, pos) && BlockSize(img, pos) == 8 + 2 * |p.entries|
    ensures Block(img, pos) == PageFields(p.page, p.entries)
  {
    var n := 8 + 2 * |p.entries|;
    Powers();
    HoldsParts(img, pos, Bytes(p.page, 4) + Bytes(n, 4), EntriesBytes(p.entries));
    HoldsParts(img, pos, Bytes(p.page, 4), Bytes(n, 4));
    ReadsNumber(img, pos, p.page, 4);
    ReadsNumber(img, pos + 4, n, 4);
    EntriesRead(img, pos + 8, p.entries, p.page);
    assert EntryCount(n) == |p.entries| && pos + n <= |img|;
    hide Read, EntriesBytes, Entries;
  }

  /** The walk of a table that starts with a block. */
  function Then(first: (seq<Fixup>, bool), next: nat, rest: Walk): Walk {
    if !first.1 then Walk(first.0, false, next)
    else
      match rest
      case Malformed => Malformed
      case Walk(more, complete, stop) => Walk(first.0 + more, complete, stop)
  }

  lemma TableFirst(img: Image, pos: nat, end: nat)
    requires pos < end && HasBlock(img, pos)
    ensures var next := pos + BlockSize(img, pos);
      Table(img, pos, end) == Then(Block(img, pos), next, Table(img, next, end))
  {
    hide Block, BlockSize;
  }

  lemma ListedFirst(ps: seq<Page>, pos: nat)
    requires ps != []
    ensures var next := pos + 8 + 2 * |ps[0].entries|;
      Listed(ps, pos) == Then(PageFields(ps[0].page, ps[0].entries), next, Listed(ps[1..], next))
  {
    hide PageFields;
  }

  lemma TableParts(img: Image, pos: nat, ps: seq<Page>)
    requires ps != [] && Holds(img, pos, TableBytes(ps))
    ensures var next := pos + 8 + 2 * |ps[0].entries|;
      && Holds(img, pos, PageBytes(ps[0])) && Holds(img, next, TableBytes(ps[1..]))
      && pos + |TableBytes(ps)| == next + |TableBytes(ps[1..])|
  {
    HoldsParts(img, pos, PageBytes(ps[0]), TableBytes(ps[1..]));
  }

  /** The first block, then what the walk of the others finds. */
  lemma BlockThen(img: Image, pos: nat, ps: seq<Page>, end: nat, rest: Walk)
    requires ps != [] && PageFits(ps[0]) && Holds(img, pos, PageBytes(ps[0])) && pos < end
    requires Table(img, pos + 8 + 2 * |ps[0].entries|, end) == rest
    ensures Table(img, pos, end) == Then(PageFields(ps[0].page, ps[0].entries), pos + 8 + 2 * |ps[0].entries|, rest)
  {
    BlockReads(img, pos, ps[0]);
    TableFirst(img, pos, end);
    hide *;
  }

  /** Walking a table in the PE format, wherever it lies in an image, lists the fields of its pages in order: for each
      entry the page address plus the offset in 32 bits, 4 bytes wide for type 3 and 8 for type 10, nothing for type 0,
      and it stops after the first block with an entry of any other type. */
  lemma {:induction false} TableListed(img: Image, pos: nat, ps: seq<Page>)
    requires AllFit(ps) && Holds(img, pos, TableBytes(ps))
    ensures Table(img, pos, pos + |TableBytes(ps)|) == Listed(ps, pos)
    decreases |ps|
  {
    if ps == [] {
    } else {
      assert PageFits(ps[0]) && AllFit(ps[1..]);
      hide *;
      TableParts(img, pos, ps);
      var next, end := pos + 8 + 2 * |ps[0].entries|, pos + |TableBytes(ps)|;
      var rest := Listed(ps[1..], next);
      assert Table(img, next, end) == rest by {
        TableListed(img, next, ps[1..]);
      }
      BlockThen(img, pos, ps, end, rest);
      assert Listed(ps, pos) == Then(PageFields(ps[0].page, ps[0].entries), next, rest) by {
        ListedFirst(ps, pos);
      }
    }
  }

  /** Behind the last block an empty one ends the table, wherever its end is said to be. */
  lemma {:induction false} TableEndsEarly(img: Image, pos: nat, ps: seq<Page>, end: nat)
    requires AllFit(ps) && Holds(img, pos, TableBytes(ps)) && end > pos + |TableBytes(ps)|
    requires Holds(img, pos + |TableBytes(ps)| + 4, Bytes(0, 4)) && Listed(ps, pos).Walk? && Listed(ps, pos).complete
    ensures Table(img, pos, end) == Listed(ps, pos).(stop := pos + |TableBytes(ps)| + 8)
    decreases |ps|
  {
    if ps == [] {
      Powers();
      ReadsNumber(img, pos + 4, 0, 4);
      hide Read, Bytes;
    } else {
      assert PageFits(ps[0]) && AllFit(ps[1..]);
      ListedFirst(ps, pos);
      hide AllFit, TableBytes, PageBytes, Table, Listed, Block, BlockSize, PageFields, HasBlock, Holds, Bytes;
      TableParts(img, pos, ps);
      var next := pos + 8 + 2 * |ps[0].entries|;
      TableEndsEarly(img, next, ps[1..], end);
      BlockThen(img, pos, ps, end, Table(img, next, end));
    }
  }
}
