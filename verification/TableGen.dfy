/** shim/gen_table.py: the directives that lay out GO2XPTBL, and what a linker makes of them. */
module TableGen {
  import opened Bytes
  import opened ShimTable

  /** A linker symbol, by its name. */
  type Symbol = bytes

  /** What a DATA directive stores: eight characters, a number, or the address of a symbol. */
  datatype Datum = Chars(text: bytes) | Number(v: u32) | Address(sym: Symbol)

  datatype Directive = Data(sym: Symbol, off: nat, datum: Datum) | Globl(sym: Symbol, size: nat)

  /** One table entry before it becomes text; a missing address is written as 0. */
  datatype Row = Row(dll: bytes, func: bytes, poly: Option<Symbol>, own: Option<Symbol>)

  const TABLE: Symbol := Ascii("go2xp_table")
  const MISSING_DLLS: Symbol := Ascii("go2xp_missing_dlls")
  const OVERRIDES: Symbol := Ascii("go2xp_overrides")
  const VERSION: u32 := 1
  const NULL: u32 := 0
  const STRING_PREFIX: bytes := Ascii("go2xp_s_")

  /** A name with each dot replaced by an underscore. */
  function Undotted(s: bytes): (r: bytes)
    ensures |r| == |s|
  {
    seq(|s|, i requires 0 <= i < |s| => if s[i] == 46 then 95 else s[i])
  }

  /** Python: sym. */
  function Sym(s: bytes): Symbol { STRING_PREFIX + Undotted(s) }

  /** Two names share a symbol exactly when they differ at most in dots against underscores. */
  lemma SymsCollide(a: bytes, b: bytes)
    ensures Sym(a) == Sym(b) <==>
            |a| == |b| && forall i | 0 <= i < |a| :: a[i] == b[i] || {a[i], b[i]} == {46, 95}
  {
    hide *;
    SymOfUndotted(a, b);
    if |a| == |b| {
      forall i | 0 <= i < |a| ensures Undotted(a)[i] == Undotted(b)[i] <==> a[i] == b[i] || {a[i], b[i]} == {46, 95} {
        DotAt(a, i);
        DotAt(b, i);
        PairIs(a[i], b[i]);
      }
      assert Undotted(a) == Undotted(b) <==> forall i | 0 <= i < |a| :: Undotted(a)[i] == Undotted(b)[i];
    }
  }

  lemma PairIs(x: u8, y: u8)
    ensures {x, y} == {46, 95} <==> (x == 46 && y == 95) || (x == 95 && y == 46)
  {
    if {x, y} == {46, 95} {
      assert 46 in {x, y} && 95 in {x, y};
    }
  }

  lemma DotAt(s: bytes, i: nat)
    requires i < |s|
    ensures Undotted(s)[i] == if s[i] == 46 then 95 else s[i]
  {}

  lemma SymOfUndotted(a: bytes, b: bytes)
    ensures Sym(a) == Sym(b) <==> Undotted(a) == Undotted(b)
  {
    hide Undotted, Ascii;
    assert Sym(a)[|STRING_PREFIX|..] == Undotted(a);
    assert Sym(b)[|STRING_PREFIX|..] == Undotted(b);
  }

  // ---------------------------------------------------------------- the generated directives

  function AddressOf(s: Option<Symbol>): Datum { if s.Some? then Address(s.value) else Number(NULL) }

  function HeaderLines(n: u32): seq<Directive> {
    [Data(TABLE, 0, Chars(MAGIC)), Data(TABLE, 8, Number(VERSION)), Data(TABLE, 12, Number(n))]
  }

  function RowLines(r: Row, i: nat): seq<Directive> {
    [Data(TABLE, 16 + i * 16, Address(Sym(r.dll))), Data(TABLE, 16 + i * 16 + 4, Address(Sym(r.func))),
     Data(TABLE, 16 + i * 16 + 8, AddressOf(r.poly)), Data(TABLE, 16 + i * 16 + 12, AddressOf(r.own))]
  }

  function RowsLines(rows: seq<Row>): seq<Directive> {
    if rows == [] then [] else RowsLines(rows[..|rows| - 1]) + RowLines(rows[|rows| - 1], |rows| - 1)
  }

  function ItemLines(name: Symbol, items: seq<bytes>): seq<Directive> {
    if items == [] then []
    else ItemLines(name, items[..|items| - 1]) + [Data(name, (|items| - 1) * 4, Address(Sym(items[|items| - 1])))]
  }

  function ListLines(name: Symbol, items: seq<bytes>): seq<Directive> {
    ItemLines(name, items) + [Data(name, |items| * 4, Number(NULL)), Globl(name, (|items| + 1) * 4)]
  }

  /** A string with its NUL, filled up to a multiple of eight. */
  function Padded(s: bytes): (r: bytes)
    ensures |r| % 8 == 0 && |s| < |r| <= |s| + 8
    ensures forall i | 0 <= i < |r| :: r[i] == if i < |s| then s[i] else 0
  {
    s + seq(8 - |s| % 8, i => 0)
  }

  /** The DATA lines of the first n groups of eight characters. */
  function ChunkLines(name: Symbol, raw: bytes, n: nat): seq<Directive>
    requires 8 * n <= |raw|
  {
    if n == 0 then [] else ChunkLines(name, raw, n - 1) + [Data(name, 8 * (n - 1), Chars(raw[8 * (n - 1)..8 * n]))]
  }

  function StringLines(s: bytes): seq<Directive> {
    ChunkLines(Sym(s), Padded(s), |Padded(s)| / 8) + [Globl(Sym(s), |Padded(s)|)]
  }

  function StringsLines(order: seq<bytes>): seq<Directive> {
    if order == [] then [] else StringsLines(order[..|order| - 1]) + StringLines(order[|order| - 1])
  }

  /** Everything the generator writes between its markers, with the strings in the given order. */
  function AllLines(rows: seq<Row>, missing: seq<bytes>, overrides: seq<bytes>, order: seq<bytes>): seq<Directive>
    requires |rows| < W32
  {
    HeaderLines(|rows|) + RowsLines(rows) + [Globl(TABLE, 16 + 16 * |rows|)]
    + ListLines(MISSING_DLLS, missing) + ListLines(OVERRIDES, overrides) + StringsLines(order)
  }

  /** The strings the directives refer to. */
  function Names(rows: seq<Row>): set<bytes> {
    if rows == [] then {} else Names(rows[..|rows| - 1]) + {rows[|rows| - 1].dll, rows[|rows| - 1].func}
  }

  function StringsOf(rows: seq<Row>, missing: seq<bytes>, overrides: seq<bytes>): set<bytes> {
    (set s | s in missing) + (set s | s in overrides) + Names(rows)
  }

  /** Python: the table part of main. The strings come in some order; Python sorts them. */
  method Generate(rows: seq<Row>, missing: seq<bytes>, overrides: seq<bytes>)
    returns (data: seq<Directive>, order: seq<bytes>)
    requires |rows| < W32
    ensures data == AllLines(rows, missing, overrides, order)
    ensures (forall s :: s in order <==> s in StringsOf(rows, missing, overrides))
    ensures forall i, j | 0 <= i < j < |order| :: order[i] != order[j]
  {
    hide StringLines, RowLines, Sym, ListLines, HeaderLines;
    data := HeaderLines(|rows|);
    var strings := (set s | s in missing) + (set s | s in overrides);
    for i := 0 to |rows|
      invariant data == HeaderLines(|rows|) + RowsLines(rows[..i])
      invariant strings == (set s | s in missing) + (set s | s in overrides) + Names(rows[..i])
    {
      strings := strings + {rows[i].dll, rows[i].func};
      data := data + RowLines(rows[i], i);
      assert rows[..i + 1][..i] == rows[..i];
    }
    assert rows[..|rows|] == rows;
    data := data + [Globl(TABLE, 16 + 16 * |rows|)];
    var lists := WriteList(MISSING_DLLS, missing);
    data := data + lists;
    lists := WriteList(OVERRIDES, overrides);
    data := data + lists;
    lists, order := WriteStrings(strings);
    data := data + lists;
  }

  /** The strings of a set, each once, in an order left open. */
  method WriteStrings(strings: set<bytes>) returns (data: seq<Directive>, order: seq<bytes>)
    ensures data == StringsLines(order)
    ensures forall s :: s in order <==> s in strings
    ensures forall i, j | 0 <= i < j < |order| :: order[i] != order[j]
  {
    hide StringLines;
    var rest := strings;
    data, order := [], [];
    while rest != {}
      invariant rest <= strings && (forall s :: s in order <==> s in strings && s !in rest)
      invariant forall i, j | 0 <= i < j < |order| :: order[i] != order[j]
      invariant data == StringsLines(order)
      decreases |rest|
    {
      var value :| value in rest;
      var lines := WriteString(value);
      data := data + lines;
      assert (order + [value])[..|order|] == order;
      assert value !in order;
      order := order + [value];
      rest := rest - {value};
    }
  }

  method WriteList(name: Symbol, items: seq<bytes>) returns (data: seq<Directive>)
    ensures data == ListLines(name, items)
  {
    hide Sym;
    data := [];
    for i := 0 to |items|
      invariant data == ItemLines(name, items[..i])
    {
      data := data + [Data(name, i * 4, Address(Sym(items[i])))];
      assert items[..i + 1][..i] == items[..i];
    }
    assert items[..|items|] == items;
    data := data + [Data(name, |items| * 4, Number(NULL)), Globl(name, (|items| + 1) * 4)];
  }

  method WriteString(value: bytes) returns (data: seq<Directive>)
    ensures data == StringLines(value)
  {
    hide Sym, Padded;
    var raw := Padded(value);
    data := [];
    var n := 0;
    while n < |raw| / 8
      invariant 8 * n <= |raw| && n <= |raw| / 8
      invariant data == ChunkLines(Sym(value), raw, n)
    {
      data := data + [Data(Sym(value), 8 * n, Chars(raw[8 * n..8 * (n + 1)]))];
      n := n + 1;
    }
    data := data + [Globl(Sym(value), |raw|)];
  }

  // ---------------------------------------------------------------- linking

  /** Where the linker puts each symbol. */
  type Placement = Symbol -> u32

  function Encoded(d: Datum, at: Placement): bytes {
    match d
    case Chars(text) => text
    case Number(v) => Enc32(v)
    case Address(s) => Enc32(at(s))
  }

  function Zeros(n: nat): (z: bytes)
    ensures |z| == n && forall i | 0 <= i < n :: z[i] == 0
  {
    seq(n, i => 0)
  }

  /** Contents b extended with zeros to at least n bytes. */
  function Extended(b: bytes, n: nat): (r: bytes)
    ensures |r| == if |b| < n then n else |b|
    ensures |b| >= n ==> r == b
    ensures r[..|b|] == b
  {
    if |b| < n then b + Zeros(n - |b|) else b
  }

  /** Contents b with w written at offset off. */
  function Written(b: bytes, off: nat, w: bytes): bytes {
    var c := Extended(b, off + |w|);
    c[..off] + w + c[off + |w|..]
  }

  /** The contents of a symbol after the directives, b before them. */
  function Contents(b: bytes, ds: seq<Directive>, sym: Symbol, at: Placement): bytes {
    if ds == [] then b
    else
      var c := Contents(b, ds[..|ds| - 1], sym, at);
      var d := ds[|ds| - 1];
      if d.sym != sym then c
      else match d
        case Data(_, off, datum) => Written(c, off, Encoded(datum, at))
        case Globl(_, size) => Extended(c, size)
  }

  lemma {:induction false} ContentsJoin(b: bytes, x: seq<Directive>, y: seq<Directive>, sym: Symbol, at: Placement)
    ensures Contents(b, x + y, sym, at) == Contents(Contents(b, x, sym, at), y, sym, at)
    decreases |y|
  {
    hide Written, Extended, Encoded;
    if y == [] {
      assert x + y == x;
    } else {
      var k := |y| - 1;
      ContentsJoin(b, x, y[..k], sym, at);
      assert (x + y)[..|x + y| - 1] == x + y[..k];
    }
  }

  lemma ContentsOne(b: bytes, d: Directive, sym: Symbol, at: Placement)
    ensures d.sym != sym ==> Contents(b, [d], sym, at) == b
    ensures d.sym == sym && d.Data? && d.off == |b| ==> Contents(b, [d], sym, at) == b + Encoded(d.datum, at)
    ensures d.sym == sym && d.Globl? && d.size == |b| ==> Contents(b, [d], sym, at) == b
  {
    hide Encoded;
    var c := Contents(b, [], sym, at);
    assert c == b;
    assert [d][..0] == [];
    if d.sym == sym && d.Data? && d.off == |b| {
      Appends(b, Encoded(d.datum, at));
    }
  }

  lemma Appends(b: bytes, w: bytes)
    ensures Written(b, |b|, w) == b + w
  {
    var c := Extended(b, |b| + |w|);
    assert c[..|b|] == b;
    assert c[|b| + |w|..] == [];
  }

  /** Directives about other symbols do not matter. */
  lemma {:induction false} ContentsSilent(b: bytes, ds: seq<Directive>, sym: Symbol, at: Placement)
    requires forall i | 0 <= i < |ds| :: ds[i].sym != sym
    ensures Contents(b, ds, sym, at) == b
  {
    hide Written, Extended, Encoded;
    if ds != [] {
      ContentsSilent(b, ds[..|ds| - 1], sym, at);
    }
  }
}
