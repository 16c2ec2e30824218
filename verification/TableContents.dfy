/** What the generated directives amount to once linked, and that both readers of the table get the entries back. */
module TableContents {
  import opened Bytes
  import opened Image
  import opened ImportReader
  import opened ShimTable
  import opened TableGen

  // ---------------------------------------------------------------- which symbol a line is about

  ghost predicate AllAbout(ds: seq<Directive>, sym: Symbol) { forall i | 0 <= i < |ds| :: ds[i].sym == sym }

  ghost predicate NoneAbout(ds: seq<Directive>, sym: Symbol) { forall i | 0 <= i < |ds| :: ds[i].sym != sym }

  /** The three fixed symbols differ from each other and from every string's symbol. */
  lemma SymbolsDiffer(s: bytes)
    ensures TABLE != MISSING_DLLS && TABLE != OVERRIDES && MISSING_DLLS != OVERRIDES
    ensures Sym(s) != TABLE && Sym(s) != MISSING_DLLS && Sym(s) != OVERRIDES
  {
    hide Undotted;
    assert TABLE[6] == 't' as int;
    assert MISSING_DLLS[6] == 'm' as int;
    assert OVERRIDES[6] == 'o' as int;
    assert Sym(s)[6] == STRING_PREFIX[6] == 's' as int;
  }

  lemma {:induction false} RowsAbout(rows: seq<Row>)
    ensures AllAbout(RowsLines(rows), TABLE)
  {
    hide Sym, TABLE;
    if rows != [] {
      RowsAbout(rows[..|rows| - 1]);
    }
  }

  lemma {:induction false} ItemsAbout(name: Symbol, items: seq<bytes>)
    ensures AllAbout(ItemLines(name, items), name)
  {
    hide Sym;
    if items != [] {
      ItemsAbout(name, items[..|items| - 1]);
    }
  }

  lemma {:induction false} ChunksAbout(name: Symbol, raw: bytes, n: nat)
    requires 8 * n <= |raw|
    ensures AllAbout(ChunkLines(name, raw, n), name)
  {
    if n > 0 { ChunksAbout(name, raw, n - 1); }
  }

  lemma StringAbout(s: bytes)
    ensures AllAbout(StringLines(s), Sym(s))
  {
    hide Sym, Padded, ChunkLines;
    ChunksAbout(Sym(s), Padded(s), |Padded(s)| / 8);
  }

  lemma {:induction false} StringsSilent(order: seq<bytes>, sym: Symbol)
    requires forall i | 0 <= i < |order| :: Sym(order[i]) != sym
    ensures NoneAbout(StringsLines(order), sym)
  {
    hide Sym, StringLines;
    if order != [] {
      var k := |order| - 1;
      StringsSilent(order[..k], sym);
      StringAbout(order[k]);
    }
  }

  // ---------------------------------------------------------------- the table

  function AddressAt(s: Option<Symbol>, at: Placement): u32 { if s.Some? then at(s.value) else 0 }

  function RowBytes(r: Row, at: Placement): (b: bytes)
    ensures |b| == 16
  {
    (Enc32(at(Sym(r.dll))) + Enc32(at(Sym(r.func)))) + (Enc32(AddressAt(r.poly, at)) + Enc32(AddressAt(r.own, at)))
  }

  function RowsBytes(rows: seq<Row>, at: Placement): (b: bytes)
    ensures |b| == 16 * |rows|
  {
    if rows == [] then [] else RowsBytes(rows[..|rows| - 1], at) + RowBytes(rows[|rows| - 1], at)
  }

  function HeaderBytes(n: u32): (b: bytes)
    ensures |b| == 16
  {
    MAGIC + Enc32(VERSION) + Enc32(n)
  }

  function ListBytes(items: seq<bytes>, at: Placement): (b: bytes)
    ensures |b| == 4 * |items|
  {
    if items == [] then [] else ListBytes(items[..|items| - 1], at) + Enc32(at(Sym(items[|items| - 1])))
  }

  /** Two lines about one symbol that append to its contents. */
  lemma AppendTwo(b: bytes, d: Directive, e: Directive, at: Placement)
    requires d.sym == e.sym && d.Data? && e.Data? && d.off == |b| && e.off == |b| + |Encoded(d.datum, at)|
    ensures Contents(b, [d, e], d.sym, at) == b + (Encoded(d.datum, at) + Encoded(e.datum, at))
  {
    hide Encoded, Contents;
    ContentsJoin(b, [d], [e], d.sym, at);
    assert [d] + [e] == [d, e];
    ContentsOne(b, d, d.sym, at);
    ContentsOne(b + Encoded(d.datum, at), e, d.sym, at);
  }

  lemma HeaderContents(n: u32, at: Placement)
    ensures Contents([], HeaderLines(n), TABLE, at) == HeaderBytes(n)
  {
    hide Contents, Enc32, TABLE;
    var d, e, f := Data(TABLE, 0, Chars(MAGIC)), Data(TABLE, 8, Number(VERSION)), Data(TABLE, 12, Number(n));
    AppendTwo([], d, e, at);
    assert HeaderLines(n) == [d, e] + [f];
    ContentsJoin([], [d, e], [f], TABLE, at);
    var b := [] + (MAGIC + Enc32(VERSION));
    assert Contents([], [d, e], TABLE, at) == b;
    ContentsOne(b, f, TABLE, at);
  }

  lemma RowContents(b: bytes, r: Row, i: nat, at: Placement)
    requires |b| == 16 + 16 * i
    ensures Contents(b, RowLines(r, i), TABLE, at) == b + RowBytes(r, at)
  {
    hide Contents, Enc32, TABLE, Sym;
    var ds := RowLines(r, i);
    AppendTwo(b, ds[0], ds[1], at);
    var w := Encoded(ds[0].datum, at) + Encoded(ds[1].datum, at);
    AppendTwo(b + w, ds[2], ds[3], at);
    assert ds == [ds[0], ds[1]] + [ds[2], ds[3]];
    ContentsJoin(b, [ds[0], ds[1]], [ds[2], ds[3]], TABLE, at);
    PlusAssociates(b, w, Encoded(ds[2].datum, at) + Encoded(ds[3].datum, at));
  }

  lemma PlusAssociates(a: bytes, b: bytes, c: bytes)
    ensures (a + b) + c == a + (b + c)
  {}

  lemma {:induction false} RowsContents(b: bytes, rows: seq<Row>, at: Placement)
    requires |b| == 16
    ensures Contents(b, RowsLines(rows), TABLE, at) == b + RowsBytes(rows, at)
    decreases |rows|
  {
    hide Contents, TABLE, RowLines, RowBytes;
    if rows == [] {
      ContentsSilent(b, [], TABLE, at);
    } else {
      var k := |rows| - 1;
      RowsContents(b, rows[..k], at);
      ContentsJoin(b, RowsLines(rows[..k]), RowLines(rows[k], k), TABLE, at);
      RowContents(b + RowsBytes(rows[..k], at), rows[k], k, at);
    }
  }

  lemma {:induction false} ItemContents(name: Symbol, items: seq<bytes>, at: Placement)
    ensures Contents([], ItemLines(name, items), name, at) == ListBytes(items, at)
    decreases |items|
  {
    hide Contents, Enc32, Sym;
    if items == [] {
      ContentsSilent([], [], name, at);
    } else {
      var k := |items| - 1;
      var d := Data(name, k * 4, Address(Sym(items[k])));
      ItemContents(name, items[..k], at);
      ContentsJoin([], ItemLines(name, items[..k]), [d], name, at);
      ContentsOne(ListBytes(items[..k], at), d, name, at);
    }
  }

  lemma ListContents(name: Symbol, items: seq<bytes>, at: Placement)
    ensures Contents([], ListLines(name, items), name, at) == ListBytes(items, at) + Enc32(NULL)
  {
    hide Contents, Enc32, ItemLines, ListBytes;
    ItemContents(name, items, at);
    var b := ListBytes(items, at);
    var d, g := Data(name, |items| * 4, Number(NULL)), Globl(name, (|items| + 1) * 4);
    ContentsJoin([], ItemLines(name, items), [d, g], name, at);
    ContentsJoin(b, [d], [g], name, at);
    assert [d] + [g] == [d, g];
    ContentsOne(b, d, name, at);
    ContentsOne(b + Enc32(NULL), g, name, at);
  }

  lemma {:induction false} ChunkContents(name: Symbol, raw: bytes, n: nat, at: Placement)
    requires 8 * n <= |raw|
    ensures Contents([], ChunkLines(name, raw, n), name, at) == raw[..8 * n]
  {
    hide Contents;
    if n == 0 {
      ContentsSilent([], [], name, at);
    } else {
      var d := Data(name, 8 * (n - 1), Chars(raw[8 * (n - 1)..8 * n]));
      ChunkContents(name, raw, n - 1, at);
      ContentsJoin([], ChunkLines(name, raw, n - 1), [d], name, at);
      ContentsOne(raw[..8 * (n - 1)], d, name, at);
    }
  }

  lemma StringContents(s: bytes, at: Placement)
    ensures Contents([], StringLines(s), Sym(s), at) == Padded(s)
  {
    hide Contents, ChunkLines, Sym, Padded;
    var raw, name := Padded(s), Sym(s);
    ChunkContents(name, raw, |raw| / 8, at);
    assert raw[..8 * (|raw| / 8)] == raw;
    ContentsJoin([], ChunkLines(name, raw, |raw| / 8), [Globl(name, |raw|)], name, at);
    ContentsOne(raw, Globl(name, |raw|), name, at);
  }

  lemma {:induction false} StringsContents(order: seq<bytes>, j: nat, at: Placement)
    requires j < |order|
    requires forall i | 0 <= i < |order| && i != j :: Sym(order[i]) != Sym(order[j])
    ensures Contents([], StringsLines(order), Sym(order[j]), at) == Padded(order[j])
    decreases |order|
  {
    hide Contents, StringLines, Sym, Padded;
    var k, sym := |order| - 1, Sym(order[j]);
    ContentsJoin([], StringsLines(order[..k]), StringLines(order[k]), sym, at);
    if j == k {
      StringsSilent(order[..k], sym);
      ContentsSilent([], StringsLines(order[..k]), sym, at);
      StringContents(order[k], at);
    } else {
      StringsContents(order[..k], j, at);
      StringAbout(order[k]);
      ContentsSilent(Padded(order[j]), StringLines(order[k]), sym, at);
    }
  }

  // ---------------------------------------------------------------- the whole output

  /** The six parts of the output, one after the other. */
  lemma JoinSix(p: seq<Directive>, q: seq<Directive>, r: seq<Directive>, s: seq<Directive>, t: seq<Directive>,
                u: seq<Directive>, sym: Symbol, at: Placement)
    ensures var c1 := Contents([], p, sym, at);
            var c2 := Contents(c1, q, sym, at);
            var c3 := Contents(c2, r, sym, at);
            var c4 := Contents(c3, s, sym, at);
            var c5 := Contents(c4, t, sym, at);
            Contents([], p + q + r + s + t + u, sym, at) == Contents(c5, u, sym, at)
  {
    hide Contents;
    ContentsJoin([], p, q, sym, at);
    ContentsJoin([], p + q, r, sym, at);
    ContentsJoin([], p + q + r, s, sym, at);
    ContentsJoin([], p + q + r + s, t, sym, at);
    ContentsJoin([], p + q + r + s + t, u, sym, at);
  }

  /** What the four blocks of lines amount to: table, two lists, strings. */
  lemma BlockContents(rows: seq<Row>, missing: seq<bytes>, overrides: seq<bytes>, order: seq<bytes>, sym: Symbol, at: Placement)
    requires |rows| < W32
    ensures var b := Contents([], AllLines(rows, missing, overrides, order), sym, at);
            && (sym == TABLE ==> b == HeaderBytes(|rows|) + RowsBytes(rows, at))
            && (sym == MISSING_DLLS ==> b == ListBytes(missing, at) + Enc32(NULL))
            && (sym == OVERRIDES ==> b == ListBytes(overrides, at) + Enc32(NULL))
            && (sym != TABLE && sym != MISSING_DLLS && sym != OVERRIDES ==> b == Contents([], StringsLines(order), sym, at))
  {
    hide Contents, HeaderLines, RowsLines, ListLines, StringsLines, Sym, TABLE, MISSING_DLLS, OVERRIDES, HeaderBytes, RowsBytes,
         ListBytes, Enc32;
    var p, q, r, s, t, u := HeaderLines(|rows|), RowsLines(rows), [Globl(TABLE, 16 + 16 * |rows|)],
        ListLines(MISSING_DLLS, missing), ListLines(OVERRIDES, overrides), StringsLines(order);
    JoinSix(p, q, r, s, t, u, sym, at);
    SymbolsDiffer([]);
    if sym == TABLE {
      HeaderContents(|rows|, at);
      RowsContents(HeaderBytes(|rows|), rows, at);
      ContentsOne(HeaderBytes(|rows|) + RowsBytes(rows, at), r[0], sym, at);
    } else {
      HeadSilent(rows, sym, at);
    }
    var c3 := Contents(Contents(Contents([], p, sym, at), q, sym, at), r, sym, at);
    if sym == MISSING_DLLS { ListContents(sym, missing, at); } else { ListSilent(c3, MISSING_DLLS, missing, sym, at); }
    var c4 := Contents(c3, s, sym, at);
    if sym == OVERRIDES { ListContents(sym, overrides, at); } else { ListSilent(c4, OVERRIDES, overrides, sym, at); }
    if sym == TABLE || sym == MISSING_DLLS || sym == OVERRIDES {
      StringsElsewhere(order, sym);
      ContentsSilent(Contents(c4, t, sym, at), u, sym, at);
    }
  }

  lemma HeadSilent(rows: seq<Row>, sym: Symbol, at: Placement)
    requires |rows| < W32 && sym != TABLE
    ensures Contents([], HeaderLines(|rows|), sym, at) == []
    ensures Contents([], RowsLines(rows), sym, at) == []
    ensures Contents([], [Globl(TABLE, 16 + 16 * |rows|)], sym, at) == []
  {
    hide Contents, TABLE, RowsLines;
    ContentsSilent([], HeaderLines(|rows|), sym, at);
    RowsAbout(rows);
    ContentsSilent([], RowsLines(rows), sym, at);
    ContentsSilent([], [Globl(TABLE, 16 + 16 * |rows|)], sym, at);
  }

  lemma ListSilent(b: bytes, name: Symbol, items: seq<bytes>, sym: Symbol, at: Placement)
    requires sym != name
    ensures Contents(b, ListLines(name, items), sym, at) == b
  {
    hide Contents, ItemLines;
    ItemsAbout(name, items);
    ContentsSilent(b, ListLines(name, items), sym, at);
  }

  lemma StringsElsewhere(order: seq<bytes>, sym: Symbol)
    requires sym == TABLE || sym == MISSING_DLLS || sym == OVERRIDES
    ensures NoneAbout(StringsLines(order), sym)
  {
    hide Sym, TABLE, MISSING_DLLS, OVERRIDES;
    forall i | 0 <= i < |order| ensures Sym(order[i]) != sym {
      SymbolsDiffer(order[i]);
    }
    StringsSilent(order, sym);
  }

  // ---------------------------------------------------------------- strings and their symbols

  ghost predicate NoCollision(order: seq<bytes>) { forall i, j | 0 <= i < j < |order| :: Sym(order[i]) != Sym(order[j]) }

  /** The linked contents of the symbol of a string. */
  function StringImage(rows: seq<Row>, missing: seq<bytes>, overrides: seq<bytes>, order: seq<bytes>, s: bytes,
                       at: Placement): bytes
    requires |rows| < W32
  {
    Contents([], AllLines(rows, missing, overrides, order), Sym(s), at)
  }

  lemma PaddedInjective(a: bytes, b: bytes)
    requires NulFree(a) && NulFree(b) && Padded(a) == Padded(b)
    ensures a == b
  {
    StrAtUnique(Padded(a), 0, a);
    StrAtUnique(Padded(b), 0, b);
  }

  /** Every string is linked intact if and only if no two of them share a symbol. */
  lemma StringsIntactIffNoCollision(rows: seq<Row>, missing: seq<bytes>, overrides: seq<bytes>, order: seq<bytes>,
                                    at: Placement)
    requires |rows| < W32
    requires forall j | 0 <= j < |order| :: NulFree(order[j])
    requires forall i, j | 0 <= i < j < |order| :: order[i] != order[j]
    ensures (forall j | 0 <= j < |order| :: StringImage(rows, missing, overrides, order, order[j], at) == Padded(order[j]))
            <==> NoCollision(order)
  {
    hide Padded, StringImage, Sym, NulFree;
    if NoCollision(order) {
      forall j | 0 <= j < |order| ensures StringImage(rows, missing, overrides, order, order[j], at) == Padded(order[j]) {
        IntactString(rows, missing, overrides, order, j, at);
      }
    } else {
      var i, j :| 0 <= i < j < |order| && Sym(order[i]) == Sym(order[j]);
      SameImage(rows, missing, overrides, order, order[i], order[j], at);
      if Padded(order[i]) == Padded(order[j]) {
        PaddedInjective(order[i], order[j]);
      }
    }
  }

  lemma IntactString(rows: seq<Row>, missing: seq<bytes>, overrides: seq<bytes>, order: seq<bytes>, j: nat, at: Placement)
    requires |rows| < W32 && j < |order| && NoCollision(order)
    ensures StringImage(rows, missing, overrides, order, order[j], at) == Padded(order[j])
  {
    hide Padded, Contents, Sym, AllLines, StringsLines;
    SymbolsDiffer(order[j]);
    BlockContents(rows, missing, overrides, order, Sym(order[j]), at);
    StringsContents(order, j, at);
  }

  lemma SameImage(rows: seq<Row>, missing: seq<bytes>, overrides: seq<bytes>, order: seq<bytes>, a: bytes, b: bytes,
                  at: Placement)
    requires |rows| < W32 && Sym(a) == Sym(b)
    ensures StringImage(rows, missing, overrides, order, a, at) == StringImage(rows, missing, overrides, order, b, at)
  {
    hide Sym, Contents, AllLines;
  }

  /** Two names that cannot both be linked intact. */
  lemma DotAndUnderscoreCollide(rows: seq<Row>, missing: seq<bytes>, overrides: seq<bytes>, at: Placement)
    requires |rows| < W32
    ensures var x, y := [97, 46, 98], [97, 95, 98];
            && NulFree(x) && NulFree(y) && x != y && Sym(x) == Sym(y)
            && !(StringImage(rows, missing, overrides, [x, y], x, at) == Padded(x)
                 && StringImage(rows, missing, overrides, [x, y], y, at) == Padded(y))
  {
    hide StringImage, Padded, Sym;
    var x, y: bytes := [97, 46, 98], [97, 95, 98];
    assert {x[1], y[1]} == {46, 95};
    SymsCollide(x, y);
    SameImage(rows, missing, overrides, [x, y], x, y, at);
    if Padded(x) == Padded(y) { PaddedInjective(x, y); }
  }

  // ---------------------------------------------------------------- read back by the patcher

  /** The file holds the contents at a virtual address. */
  ghost predicate FileHolds(v: View, base: u32, va: u32, contents: bytes) {
    && base <= va
    && match OffIn(v.secs, |v.raw|, va - base)
       case None => false
       case Some(o) => HeldAt(v.raw, o, contents)
  }

  ghost predicate HeldAt(b: bytes, o: nat, contents: bytes) {
    o + |contents| <= |b| && forall i | 0 <= i < |contents| :: b[o + i] == contents[i]
  }

  /** What the patcher should read for a row. */
  function EntryOf(r: Row, at: Placement): TableEntry {
    TableEntry(r.dll, r.func, AddressAt(r.poly, at), AddressAt(r.own, at))
  }

  function EntriesOf(rows: seq<Row>, at: Placement): seq<TableEntry> {
    seq(|rows|, i requires 0 <= i < |rows| => EntryOf(rows[i], at))
  }

  /** A padded string in the file reads as that string. */
  lemma NameParses(v: View, base: u32, va: u32, s: bytes)
    requires NulFree(s) && FileHolds(v, base, va, Padded(s))
    ensures NameAtVa(v, base, va) == Some(s)
  {
    hide OffIn;
    var o := OffIn(v.secs, |v.raw|, va - base).value;
    assert forall i | 0 <= i < |s| :: v.raw[o + i] == Padded(s)[i];
    assert v.raw[o + |s|] == Padded(s)[|s|];
    StrAtUnique(v.raw, o, s);
  }

  lemma WordHeld(b: bytes, o: nat, v: u32)
    requires HeldAt(b, o, Enc32(v))
    ensures o + 4 <= |b| && LE32(b, o) == v
  {
    var e := Enc32(v);
    assert b[o + 0] == e[0] && b[o + 1] == e[1] && b[o + 2] == e[2] && b[o + 3] == e[3];
  }

  lemma HeldPart(b: bytes, o: nat, x: bytes, y: bytes)
    ensures HeldAt(b, o, x + y) <==> HeldAt(b, o, x) && HeldAt(b, o + |x|, y)
  {
    if HeldAt(b, o, x) && HeldAt(b, o + |x|, y) {
      forall i | 0 <= i < |x + y| ensures b[o + i] == (x + y)[i] {
        if i >= |x| { assert b[o + |x| + (i - |x|)] == y[i - |x|]; }
      }
    } else if HeldAt(b, o, x + y) {
      forall i | 0 <= i < |x| ensures b[o + i] == x[i] { assert b[o + i] == (x + y)[i]; }
      forall i | 0 <= i < |y| ensures b[o + |x| + i] == y[i] { assert b[o + (|x| + i)] == (x + y)[|x| + i]; }
    }
  }

  lemma RowHeld(b: bytes, e: nat, r: Row, at: Placement)
    requires HeldAt(b, e, RowBytes(r, at))
    ensures e + 16 <= |b|
    ensures LE32(b, e) == at(Sym(r.dll)) && LE32(b, e + 4) == at(Sym(r.func))
    ensures LE32(b, e + 8) == AddressAt(r.poly, at) && LE32(b, e + 12) == AddressAt(r.own, at)
  {
    hide LE32, Enc32, Sym, HeldAt, AddressAt;
    var w0, w1, w2, w3 := Enc32(at(Sym(r.dll))), Enc32(at(Sym(r.func))), Enc32(AddressAt(r.poly, at)), Enc32(AddressAt(r.own, at));
    HeldPart(b, e, w0 + w1, w2 + w3);
    HeldPart(b, e, w0, w1);
    HeldPart(b, e + 8, w2, w3);
    WordHeld(b, e, at(Sym(r.dll)));
    WordHeld(b, e + 4, at(Sym(r.func)));
    WordHeld(b, e + 8, AddressAt(r.poly, at));
    WordHeld(b, e + 12, AddressAt(r.own, at));
  }

  /** A row whose names the file holds. */
  ghost predicate RowNamed(v: View, base: u32, r: Row, at: Placement) {
    && r.dll != [] && r.func != [] && NulFree(r.dll) && NulFree(r.func)
    && FileHolds(v, base, at(Sym(r.dll)), Padded(r.dll))
    && FileHolds(v, base, at(Sym(r.func)), Padded(r.func))
  }

  lemma RowParses(v: View, base: u32, e: nat, r: Row, at: Placement)
    requires HeldAt(v.raw, e, RowBytes(r, at)) && RowNamed(v, base, r, at)
    ensures e + 16 <= |v.raw| && RecordAt(v, base, e) == Some(EntryOf(r, at))
  {
    hide LE32, RowBytes, Sym, HeldAt, NameAtVa, FileHolds, NulFree, Padded;
    RowHeld(v.raw, e, r, at);
    NameParses(v, base, at(Sym(r.dll)), r.dll);
    NameParses(v, base, at(Sym(r.func)), r.func);
  }

  lemma {:induction false} RowsParse(v: View, base: u32, e: nat, rows: seq<Row>, at: Placement)
    requires HeldAt(v.raw, e, RowsBytes(rows, at))
    requires forall i | 0 <= i < |rows| :: RowNamed(v, base, rows[i], at)
    ensures e + 16 * |rows| <= |v.raw| && Records(v, base, e, |rows|) == Some(EntriesOf(rows, at))
    decreases |rows|
  {
    hide RowBytes, RecordAt, RowNamed, EntryOf, HeldAt;
    HeldFits(v.raw, e, RowsBytes(rows, at));
    if rows == [] {
    } else {
      var k := |rows| - 1;
      HeldPart(v.raw, e, RowsBytes(rows[..k], at), RowBytes(rows[k], at));
      RowsParse(v, base, e, rows[..k], at);
      RowParses(v, base, e + 16 * k, rows[k], at);
      assert EntriesOf(rows, at) == EntriesOf(rows[..k], at) + [EntryOf(rows[k], at)];
    }
  }

  /** The header in the file makes a candidate with the right count. */
  lemma HeaderParses(b: bytes, o: nat, n: u32)
    requires o + 16 <= |b| && HeldAt(b, o, HeaderBytes(n))
    ensures Candidate(b, o) && HeldAt(b, o + 12, Enc32(n))
  {
    hide LE32, Enc32, HeldAt, MagicAt, MAGIC;
    HeldPart(b, o, MAGIC + Enc32(VERSION), Enc32(n));
    HeldPart(b, o, MAGIC, Enc32(VERSION));
    WordHeld(b, o + 8, 1);
    MagicHeld(b, o);
  }

  lemma HeldFits(b: bytes, o: nat, contents: bytes)
    requires HeldAt(b, o, contents)
    ensures o + |contents| <= |b|
  {}

  lemma MagicHeld(b: bytes, o: nat)
    requires HeldAt(b, o, MAGIC)
    ensures MagicAt(b, o)
  {
    assert |MAGIC| == 8;
    assert b[o..o + 8] == MAGIC;
  }

  /** The linked output lies in the file, the table at offset o and the strings at their addresses. */
  ghost predicate LinkedIntoFile(v: View, base: u32, o: nat, rows: seq<Row>, missing: seq<bytes>, overrides: seq<bytes>,
                                 order: seq<bytes>, at: Placement)
    requires |rows| < W32
  {
    && HeldAt(v.raw, o, Contents([], AllLines(rows, missing, overrides, order), TABLE, at))
    && forall j | 0 <= j < |order| ::
         FileHolds(v, base, at(Sym(order[j])), StringImage(rows, missing, overrides, order, order[j], at))
  }

  /** Every name of the rows is written, is not empty and holds no NUL. */
  ghost predicate RowsNamed(rows: seq<Row>, order: seq<bytes>) {
    forall i | 0 <= i < |rows| ::
      && rows[i].dll in order && rows[i].func in order
      && rows[i].dll != [] && rows[i].func != [] && NulFree(rows[i].dll) && NulFree(rows[i].func)
  }

  /** A row's names are proper names. */
  ghost predicate ProperRow(r: Row) { r.dll != [] && r.func != [] && NulFree(r.dll) && NulFree(r.func) }

  /** The strings that Generate writes include every name of its rows. */
  lemma {:induction false} NamesOfRow(rows: seq<Row>, i: nat)
    requires i < |rows|
    ensures rows[i].dll in Names(rows) && rows[i].func in Names(rows)
    decreases |rows|
  {
    var k := |rows| - 1;
    if i < k {
      assert rows[..k][i] == rows[i];
      NamesOfRow(rows[..k], i);
    }
  }

  lemma GeneratedRowsNamed(rows: seq<Row>, missing: seq<bytes>, overrides: seq<bytes>, order: seq<bytes>)
    requires forall s | s in StringsOf(rows, missing, overrides) :: s in order
    requires forall i | 0 <= i < |rows| :: ProperRow(rows[i])
    ensures RowsNamed(rows, order)
    ensures (forall s | s in missing :: s in order) && (forall s | s in overrides :: s in order)
  {
    hide Names, NulFree;
    forall i | 0 <= i < |rows| ensures rows[i].dll in order && rows[i].func in order {
      NamesOfRow(rows, i);
    }
  }

  lemma RowIsNamed(v: View, base: u32, o: nat, rows: seq<Row>, missing: seq<bytes>, overrides: seq<bytes>,
                   order: seq<bytes>, at: Placement, i: nat)
    requires |rows| < W32 && i < |rows| && NoCollision(order) && RowsNamed(rows, order)
    requires LinkedIntoFile(v, base, o, rows, missing, overrides, order, at)
    ensures RowNamed(v, base, rows[i], at)
  {
    hide StringImage, Sym, HeldAt, NoCollision, FileHolds, Padded, NulFree, Contents, AllLines;
    assert rows[i].dll in order && rows[i].func in order;
    var j :| 0 <= j < |order| && order[j] == rows[i].dll;
    IntactString(rows, missing, overrides, order, j, at);
    var k :| 0 <= k < |order| && order[k] == rows[i].func;
    IntactString(rows, missing, overrides, order, k, at);
  }

  /** The patcher's parser gets back exactly the generator's rows, in order, wherever the linker puts things. */
  lemma GeneratedTableParses(v: View, base: u32, o: nat, rows: seq<Row>, missing: seq<bytes>, overrides: seq<bytes>,
                             order: seq<bytes>, at: Placement)
    requires 0 < |rows| < W32 && NoCollision(order) && RowsNamed(rows, order)
    requires LinkedIntoFile(v, base, o, rows, missing, overrides, order, at)
    ensures ValidAt(v, base, o) == Some(EntriesOf(rows, at))
  {
    hide StringImage, Sym, NoCollision, RowsNamed, FileHolds, Padded, Contents, AllLines, HeaderBytes, RowsBytes, RowNamed,
         Candidate, HeldAt, Records, EntriesOf, Enc32, LE32;
    forall i | 0 <= i < |rows| ensures RowNamed(v, base, rows[i], at) {
      RowIsNamed(v, base, o, rows, missing, overrides, order, at, i);
    }
    BlockContents(rows, missing, overrides, order, TABLE, at);
    HeldPart(v.raw, o, HeaderBytes(|rows|), RowsBytes(rows, at));
    HeldFits(v.raw, o, HeaderBytes(|rows|));
    HeaderParses(v.raw, o, |rows|);
    WordHeld(v.raw, o + 12, |rows|);
    RowsParse(v, base, o + 16, rows, at);
  }

  // ---------------------------------------------------------------- and only then

  lemma {:induction false} RecordsAt(v: View, base: u32, e: nat, n: nat, k: nat)
    requires e + 16 * n <= |v.raw| && Records(v, base, e, n).Some? && k < n
    ensures RecordAt(v, base, e + 16 * k) == Some(Records(v, base, e, n).value[k])
    decreases n
  {
    hide RecordAt;
    if k < n - 1 { RecordsAt(v, base, e, n - 1, k); }
  }

  lemma ValidRecords(v: View, base: u32, o: nat, es: seq<TableEntry>)
    requires ValidAt(v, base, o) == Some(es)
    ensures o + 16 + 16 * |es| <= |v.raw| && Records(v, base, o + 16, |es|) == Some(es)
  {
    hide Records, LE32;
  }

  lemma RecordNames(v: View, base: u32, e: nat, t: TableEntry)
    requires e + 16 <= |v.raw| && RecordAt(v, base, e) == Some(t)
    ensures NameAtVa(v, base, LE32(v.raw, e)) == Some(t.dll) && NameAtVa(v, base, LE32(v.raw, e + 4)) == Some(t.func)
  {
    hide NameAtVa, LE32;
  }

  lemma {:induction false} RowInRows(b: bytes, e: nat, rows: seq<Row>, at: Placement, i: nat)
    requires HeldAt(b, e, RowsBytes(rows, at)) && i < |rows|
    ensures HeldAt(b, e + 16 * i, RowBytes(rows[i], at))
    decreases |rows|
  {
    hide RowBytes, HeldAt;
    var k := |rows| - 1;
    HeldPart(b, e, RowsBytes(rows[..k], at), RowBytes(rows[k], at));
    if i < k { RowInRows(b, e, rows[..k], at, i); }
  }

  /** When the table parses back to the rows, every name of a row is read at its own symbol. */
  lemma ParsedNames(v: View, base: u32, o: nat, rows: seq<Row>, missing: seq<bytes>, overrides: seq<bytes>,
                    order: seq<bytes>, at: Placement, i: nat)
    requires i < |rows| < W32 && LinkedIntoFile(v, base, o, rows, missing, overrides, order, at)
    requires ValidAt(v, base, o) == Some(EntriesOf(rows, at))
    ensures NameAtVa(v, base, at(Sym(rows[i].dll))) == Some(rows[i].dll)
    ensures NameAtVa(v, base, at(Sym(rows[i].func))) == Some(rows[i].func)
  {
    hide StringImage, Sym, FileHolds, Contents, AllLines, HeaderBytes, RowsBytes, RowBytes, HeldAt, Records, RecordAt, ValidAt,
         NameAtVa, LE32;
    BlockContents(rows, missing, overrides, order, TABLE, at);
    HeldPart(v.raw, o, HeaderBytes(|rows|), RowsBytes(rows, at));
    RowInRows(v.raw, o + 16, rows, at, i);
    RowHeld(v.raw, o + 16 + 16 * i, rows[i], at);
    ValidRecords(v, base, o, EntriesOf(rows, at));
    RecordsAt(v, base, o + 16, |rows|, i);
    RecordNames(v, base, o + 16 + 16 * i, EntryOf(rows[i], at));
  }

  ghost predicate ReadsBack(v: View, base: u32, at: Placement, s: bytes) { NameAtVa(v, base, at(Sym(s))) == Some(s) }

  /** Strings that are all read at their symbols do not share any. */
  lemma ReadBackApart(v: View, base: u32, at: Placement, order: seq<bytes>)
    requires forall i, j | 0 <= i < j < |order| :: order[i] != order[j]
    requires forall j | 0 <= j < |order| :: ReadsBack(v, base, at, order[j])
    ensures NoCollision(order)
  {
    hide Sym, NameAtVa;
    forall i, j | 0 <= i < j < |order| ensures Sym(order[i]) != Sym(order[j]) {
      assert ReadsBack(v, base, at, order[i]) && ReadsBack(v, base, at, order[j]);
    }
  }

  lemma {:induction false} NameHasRow(rows: seq<Row>, s: bytes) returns (i: nat)
    requires s in Names(rows)
    ensures i < |rows| && (rows[i].dll == s || rows[i].func == s)
    decreases |rows|
  {
    var k := |rows| - 1;
    if rows[k].dll == s || rows[k].func == s {
      i := k;
    } else {
      i := NameHasRow(rows[..k], s);
    }
  }

  /**
   * The patcher reads back the generator's table and the items of its lists if and only if no two of the strings
   * written share a symbol.
   */
  lemma GeneratedReadsBackIff(v: View, base: u32, o: nat, rows: seq<Row>, missing: seq<bytes>, overrides: seq<bytes>,
                              order: seq<bytes>, at: Placement)
    requires 0 < |rows| < W32 && RowsNamed(rows, order)
    requires forall s :: s in order <==> s in StringsOf(rows, missing, overrides)
    requires forall i, j | 0 <= i < j < |order| :: order[i] != order[j]
    requires forall j | 0 <= j < |order| :: NulFree(order[j])
    requires LinkedIntoFile(v, base, o, rows, missing, overrides, order, at)
    ensures ValidAt(v, base, o) == Some(EntriesOf(rows, at)) && (forall s | s in missing + overrides :: ReadsBack(v, base, at, s))
            <==> NoCollision(order)
  {
    hide StringImage, Sym, RowsNamed, FileHolds, Padded, Contents, AllLines, HeldAt, ValidAt, EntriesOf, NameAtVa, Names, NulFree,
         NoCollision, ReadsBack;
    if NoCollision(order) {
      GeneratedTableParses(v, base, o, rows, missing, overrides, order, at);
      forall s | s in missing + overrides ensures ReadsBack(v, base, at, s) {
        assert s in StringsOf(rows, missing, overrides);
        var j :| 0 <= j < |order| && order[j] == s;
        StringReadsBack(v, base, o, rows, missing, overrides, order, at, j);
      }
    }
    if ValidAt(v, base, o) == Some(EntriesOf(rows, at)) && forall s | s in missing + overrides :: ReadsBack(v, base, at, s) {
      forall j | 0 <= j < |order| ensures ReadsBack(v, base, at, order[j]) {
        assert order[j] in order;
        if order[j] in Names(rows) {
          var i := NameHasRow(rows, order[j]);
          ParsedNames(v, base, o, rows, missing, overrides, order, at, i);
          assert ReadsBack(v, base, at, order[j]) by { ReadsBackIs(v, base, at, order[j]); }
        }
      }
      ReadBackApart(v, base, at, order);
    }
  }

  lemma ReadsBackIs(v: View, base: u32, at: Placement, s: bytes)
    ensures ReadsBack(v, base, at, s) <==> NameAtVa(v, base, at(Sym(s))) == Some(s)
  {}

  lemma StringReadsBack(v: View, base: u32, o: nat, rows: seq<Row>, missing: seq<bytes>, overrides: seq<bytes>,
                        order: seq<bytes>, at: Placement, j: nat)
    requires |rows| < W32 && j < |order| && NoCollision(order) && NulFree(order[j])
    requires LinkedIntoFile(v, base, o, rows, missing, overrides, order, at)
    ensures ReadsBack(v, base, at, order[j])
  {
    hide StringImage, Sym, NoCollision, FileHolds, Padded, Contents, AllLines, HeldAt, NameAtVa;
    IntactString(rows, missing, overrides, order, j, at);
    NameParses(v, base, at(Sym(order[j])), order[j]);
  }

  /** When every list item is also the name of a row, the table alone decides. */
  lemma GeneratedTableParsesIff(v: View, base: u32, o: nat, rows: seq<Row>, missing: seq<bytes>, overrides: seq<bytes>,
                                order: seq<bytes>, at: Placement)
    requires 0 < |rows| < W32 && RowsNamed(rows, order)
    requires forall s :: s in order <==> s in StringsOf(rows, missing, overrides)
    requires forall i, j | 0 <= i < j < |order| :: order[i] != order[j]
    requires forall j | 0 <= j < |order| :: NulFree(order[j])
    requires LinkedIntoFile(v, base, o, rows, missing, overrides, order, at)
    requires forall s | s in missing + overrides :: s in Names(rows)
    ensures ValidAt(v, base, o) == Some(EntriesOf(rows, at)) <==> NoCollision(order)
  {
    hide StringImage, Sym, RowsNamed, FileHolds, Contents, AllLines, HeldAt, ValidAt, EntriesOf, NameAtVa, Names, NulFree,
         NoCollision, ReadsBack;
    GeneratedReadsBackIff(v, base, o, rows, missing, overrides, order, at);
    if ValidAt(v, base, o) == Some(EntriesOf(rows, at)) {
      forall s | s in missing + overrides ensures ReadsBack(v, base, at, s) {
        var i := NameHasRow(rows, s);
        ParsedNames(v, base, o, rows, missing, overrides, order, at, i);
        ReadsBackIs(v, base, at, s);
      }
    }
  }
}
