/** The generated table as the run-time hooks see it, and how their answers relate to the patcher's. */
module HookTables {
  import opened Bytes
  import opened ImportReader
  import opened ShimTable
  import opened Profiles
  import opened TableGen
  import opened TableContents
  import Hooks
  import GetProc

  // ---------------------------------------------------------------- the generated table in memory

  /** Memory holds the contents from address a on. */
  ghost predicate MemHolds(mem: Hooks.Memory, a: int, contents: bytes) {
    && 0 <= a && a + |contents| <= W32
    && forall i | 0 <= i < |contents| :: mem(a + i) == contents[i]
  }

  lemma MemPart(mem: Hooks.Memory, a: int, x: bytes, y: bytes)
    requires MemHolds(mem, a, x + y)
    ensures MemHolds(mem, a, x) && MemHolds(mem, a + |x|, y)
  {
    forall i | 0 <= i < |x| ensures mem(a + i) == x[i] { assert mem(a + i) == (x + y)[i]; }
    forall i | 0 <= i < |y| ensures mem(a + |x| + i) == y[i] { assert mem(a + (|x| + i)) == (x + y)[|x| + i]; }
  }

  lemma MemWord(mem: Hooks.Memory, a: int, v: u32)
    requires MemHolds(mem, a, Enc32(v))
    ensures a + 4 <= W32 && 0 <= a && Hooks.WordAt(mem, a) == v
  {
    var e := Enc32(v);
    assert mem(a + 0) == e[0] && mem(a + 1) == e[1] && mem(a + 2) == e[2] && mem(a + 3) == e[3];
  }

  lemma MemString(mem: Hooks.Memory, p: u32, s: bytes)
    requires NulFree(s) && MemHolds(mem, p, Padded(s))
    ensures Hooks.MemStr(mem, p, s)
  {
    forall i | 0 <= i < |s| ensures mem(p + i) == s[i] { assert mem(p + i) == Padded(s)[i]; }
    assert mem(p + |s|) == Padded(s)[|s|];
  }

  function ServedRow(r: Row, at: Placement): Hooks.Served { Hooks.Served(r.func, AddressAt(r.poly, at)) }

  function ServedRows(rows: seq<Row>, at: Placement): seq<Hooks.Served> {
    seq(|rows|, i requires 0 <= i < |rows| => ServedRow(rows[i], at))
  }

  /** Memory holds the strings at their symbols. */
  ghost predicate StringsInMemory(mem: Hooks.Memory, rows: seq<Row>, missing: seq<bytes>, overrides: seq<bytes>,
                                  order: seq<bytes>, at: Placement)
    requires |rows| < W32
  {
    forall j | 0 <= j < |order| ::
      MemHolds(mem, at(Sym(order[j])), StringImage(rows, missing, overrides, order, order[j], at))
  }

  lemma NameInMemory(mem: Hooks.Memory, rows: seq<Row>, missing: seq<bytes>, overrides: seq<bytes>, order: seq<bytes>,
                     at: Placement, s: bytes)
    requires |rows| < W32 && NoCollision(order) && s in order && NulFree(s)
    requires StringsInMemory(mem, rows, missing, overrides, order, at)
    ensures Hooks.MemStr(mem, at(Sym(s)), s)
  {
    hide StringImage, Sym, NoCollision, NulFree, MemHolds, Padded;
    var j :| 0 <= j < |order| && order[j] == s;
    IntactString(rows, missing, overrides, order, j, at);
    MemString(mem, at(Sym(s)), s);
  }

  lemma RowInMemory(mem: Hooks.Memory, e: int, r: Row, at: Placement)
    requires MemHolds(mem, e, RowBytes(r, at)) && Hooks.MemStr(mem, at(Sym(r.func)), r.func)
    ensures Hooks.EntryAt(mem, e, ServedRow(r, at))
  {
    hide Enc32, Sym, MemHolds, AddressAt, Hooks.MemStr, Hooks.WordAt;
    var w0, w1, w2, w3 := Enc32(at(Sym(r.dll))), Enc32(at(Sym(r.func))), Enc32(AddressAt(r.poly, at)), Enc32(AddressAt(r.own, at));
    MemPart(mem, e, w0 + w1, w2 + w3);
    MemPart(mem, e, w0, w1);
    MemPart(mem, e + 8, w2, w3);
    MemWord(mem, e + 4, at(Sym(r.func)));
    MemWord(mem, e + 8, AddressAt(r.poly, at));
    MemWord(mem, e + 12, AddressAt(r.own, at));
  }

  lemma {:induction false} RowsInMemory(mem: Hooks.Memory, e: int, rows: seq<Row>, at: Placement)
    requires MemHolds(mem, e, RowsBytes(rows, at))
    requires forall i | 0 <= i < |rows| :: Hooks.MemStr(mem, at(Sym(rows[i].func)), rows[i].func)
    ensures forall i | 0 <= i < |rows| :: Hooks.EntryAt(mem, e + 16 * i, ServedRow(rows[i], at))
    decreases |rows|
  {
    hide RowBytes, Sym, MemHolds, Hooks.MemStr, ServedRow, Hooks.EntryAt;
    if rows == [] {
    } else {
      var k := |rows| - 1;
      MemPart(mem, e, RowsBytes(rows[..k], at), RowBytes(rows[k], at));
      RowsInMemory(mem, e, rows[..k], at);
      RowInMemory(mem, e + 16 * k, rows[k], at);
      forall i | 0 <= i < |rows| ensures Hooks.EntryAt(mem, e + 16 * i, ServedRow(rows[i], at)) {
        if i < k { assert rows[..k][i] == rows[i]; }
      }
    }
  }

  lemma {:induction false} ItemsInMemory(mem: Hooks.Memory, a: int, items: seq<bytes>, at: Placement)
    requires MemHolds(mem, a, ListBytes(items, at))
    ensures a + 4 * |items| <= W32
    ensures forall k | 0 <= k < |items| :: 0 <= a && Hooks.WordAt(mem, a + 4 * k) == at(Sym(items[k]))
    decreases |items|
  {
    hide Enc32, Sym, Hooks.WordAt;
    if items == [] {
    } else {
      var n := |items| - 1;
      MemPart(mem, a, ListBytes(items[..n], at), Enc32(at(Sym(items[n]))));
      ItemsInMemory(mem, a, items[..n], at);
      MemWord(mem, a + 4 * n, at(Sym(items[n])));
    }
  }

  lemma ListInMemory(mem: Hooks.Memory, a: u32, items: seq<bytes>, at: Placement)
    requires MemHolds(mem, a, ListBytes(items, at))
    requires a + 4 * |items| + 4 <= W32 && Hooks.WordAt(mem, a + 4 * |items|) == 0
    requires forall k | 0 <= k < |items| :: at(Sym(items[k])) != 0 && Hooks.MemStr(mem, at(Sym(items[k])), items[k])
    ensures Hooks.ListAt(mem, a, items)
  {
    hide Sym, Hooks.WordAt, Hooks.MemStr, MemHolds, ListBytes;
    ItemsInMemory(mem, a, items, at);
    forall k | 0 <= k < |items| ensures Hooks.ItemAt(mem, a + 4 * k, items[k]) {
      assert Hooks.WordAt(mem, a + 4 * k) == at(Sym(items[k]));
    }
  }

  /** The list behind a symbol, taken apart. */
  lemma ListParts(mem: Hooks.Memory, a: u32, contents: bytes, items: seq<bytes>, at: Placement)
    requires contents == ListBytes(items, at) + Enc32(NULL) && MemHolds(mem, a, contents)
    ensures MemHolds(mem, a, ListBytes(items, at)) && MemHolds(mem, a + 4 * |items|, Enc32(NULL))
  {
    hide Enc32, MemHolds, ListBytes;
    MemPart(mem, a, ListBytes(items, at), Enc32(NULL));
  }

  /** The linked output lies in memory, every symbol at its address. */
  ghost predicate LinkedIntoMemory(mem: Hooks.Memory, rows: seq<Row>, missing: seq<bytes>, overrides: seq<bytes>,
                                   order: seq<bytes>, at: Placement)
    requires |rows| < W32
  {
    var all := AllLines(rows, missing, overrides, order);
    && MemHolds(mem, at(TABLE), Contents([], all, TABLE, at))
    && MemHolds(mem, at(MISSING_DLLS), Contents([], all, MISSING_DLLS, at))
    && MemHolds(mem, at(OVERRIDES), Contents([], all, OVERRIDES, at))
    && StringsInMemory(mem, rows, missing, overrides, order, at)
  }

  ghost predicate ItemsNamed(items: seq<bytes>, order: seq<bytes>, at: Placement) {
    forall i | 0 <= i < |items| :: items[i] in order && NulFree(items[i]) && at(Sym(items[i])) != 0
  }

  /** The table part: what GetProcAddress requires of its table holds of the generated one. */
  lemma GeneratedTableServes(mem: Hooks.Memory, rows: seq<Row>, missing: seq<bytes>, overrides: seq<bytes>,
                             order: seq<bytes>, at: Placement)
    requires |rows| < W32 && NoCollision(order) && RowsNamed(rows, order)
    requires LinkedIntoMemory(mem, rows, missing, overrides, order, at)
    ensures Hooks.TableAt(mem, at(TABLE), ServedRows(rows, at))
  {
    hide StringImage, Sym, NoCollision, NulFree, MemHolds, Contents, AllLines, HeaderBytes, RowsBytes, Hooks.MemStr, Hooks.EntryAt,
         StringsInMemory, ServedRow, Hooks.WordAt, Enc32, TABLE, MISSING_DLLS, OVERRIDES;
    var t: int := at(TABLE);
    BlockContents(rows, missing, overrides, order, TABLE, at);
    MemPart(mem, t, HeaderBytes(|rows|), RowsBytes(rows, at));
    var w := HeaderSplit(|rows|);
    HeaderInMemory(mem, t, w, |rows|);
    MemWord(mem, t + 12, |rows|);
    MemFits(mem, t + 16, RowsBytes(rows, at));
    forall i | 0 <= i < |rows| ensures Hooks.MemStr(mem, at(Sym(rows[i].func)), rows[i].func) {
      assert rows[i].dll in order;
      NameInMemory(mem, rows, missing, overrides, order, at, rows[i].func);
    }
    RowsInMemory(mem, t + 16, rows, at);
  }

  lemma MemFits(mem: Hooks.Memory, a: int, contents: bytes)
    requires MemHolds(mem, a, contents)
    ensures 0 <= a && a + |contents| <= W32
  {}

  lemma HeaderInMemory(mem: Hooks.Memory, t: int, w: bytes, n: u32)
    requires |w| == 12 && MemHolds(mem, t, w + Enc32(n))
    ensures MemHolds(mem, t + 12, Enc32(n))
  {
    hide Enc32, MemHolds;
    MemPart(mem, t, w, Enc32(n));
  }

  lemma HeaderSplit(n: u32) returns (w: bytes)
    ensures |w| == 12 && HeaderBytes(n) == w + Enc32(n)
  {
    hide Enc32;
    w := MAGIC + Enc32(VERSION);
  }

  /** The list part: both lists end where the hooks stop, and hold the generator's items. */
  lemma GeneratedListsRead(mem: Hooks.Memory, rows: seq<Row>, missing: seq<bytes>, overrides: seq<bytes>,
                           order: seq<bytes>, at: Placement)
    requires |rows| < W32 && NoCollision(order) && ItemsNamed(missing, order, at) && ItemsNamed(overrides, order, at)
    requires LinkedIntoMemory(mem, rows, missing, overrides, order, at)
    ensures Hooks.ListAt(mem, at(MISSING_DLLS), missing) && Hooks.ListAt(mem, at(OVERRIDES), overrides)
  {
    hide StringImage, Sym, NoCollision, NulFree, MemHolds, Contents, AllLines, ListBytes, Hooks.MemStr, Hooks.ListAt,
         StringsInMemory, Enc32, TABLE, MISSING_DLLS, OVERRIDES;
    BlockContents(rows, missing, overrides, order, MISSING_DLLS, at);
    BlockContents(rows, missing, overrides, order, OVERRIDES, at);
    ListRead(mem, rows, missing, overrides, order, at, at(MISSING_DLLS), missing);
    ListRead(mem, rows, missing, overrides, order, at, at(OVERRIDES), overrides);
  }

  lemma ListRead(mem: Hooks.Memory, rows: seq<Row>, missing: seq<bytes>, overrides: seq<bytes>, order: seq<bytes>,
                 at: Placement, a: u32, items: seq<bytes>)
    requires |rows| < W32 && NoCollision(order) && ItemsNamed(items, order, at)
    requires StringsInMemory(mem, rows, missing, overrides, order, at)
    requires MemHolds(mem, a, ListBytes(items, at) + Enc32(NULL))
    ensures Hooks.ListAt(mem, a, items)
  {
    hide StringImage, Sym, NoCollision, NulFree, MemHolds, ListBytes, Hooks.MemStr, Hooks.ListAt, StringsInMemory, Enc32, Hooks.WordAt;
    forall i | 0 <= i < |items| ensures at(Sym(items[i])) != 0 && Hooks.MemStr(mem, at(Sym(items[i])), items[i]) {
      assert items[i] in order;
      NameInMemory(mem, rows, missing, overrides, order, at, items[i]);
    }
    ListParts(mem, a, ListBytes(items, at) + Enc32(NULL), items, at);
    MemWord(mem, a + 4 * |items|, NULL);
    ListInMemory(mem, a, items, at);
  }

  lemma StoredShorter(mem: Hooks.Memory, p: u32, s: bytes, t: bytes)
    requires Hooks.MemStr(mem, p, s) && Hooks.MemStr(mem, p, t)
    ensures |t| <= |s|
  {
    if |s| <= |t| { Hooks.StrByte(mem, p, t, |s|); }
  }

  /** At most one string is stored at an address. */
  lemma StoredUnique(mem: Hooks.Memory, p: u32, s: bytes, t: bytes)
    requires Hooks.MemStr(mem, p, s) && Hooks.MemStr(mem, p, t)
    ensures s == t
  {
    StoredShorter(mem, p, s, t);
    StoredShorter(mem, p, t, s);
    forall i | 0 <= i < |s| ensures s[i] == t[i] { assert mem(p + i) == s[i]; }
  }

  ghost predicate StoredAtSymbol(mem: Hooks.Memory, at: Placement, s: bytes) { Hooks.MemStr(mem, at(Sym(s)), s) }

  /**
   * The hooks find the generator's table and lists, and every string at its symbol, if and only if no two strings
   * share a symbol.
   */
  lemma GeneratedServesIff(mem: Hooks.Memory, rows: seq<Row>, missing: seq<bytes>, overrides: seq<bytes>,
                           order: seq<bytes>, at: Placement)
    requires |rows| < W32 && RowsNamed(rows, order) && ItemsNamed(missing, order, at) && ItemsNamed(overrides, order, at)
    requires forall i, j | 0 <= i < j < |order| :: order[i] != order[j]
    requires forall j | 0 <= j < |order| :: NulFree(order[j])
    requires LinkedIntoMemory(mem, rows, missing, overrides, order, at)
    ensures Hooks.TableAt(mem, at(TABLE), ServedRows(rows, at))
            && Hooks.ListAt(mem, at(MISSING_DLLS), missing) && Hooks.ListAt(mem, at(OVERRIDES), overrides)
            && (forall j | 0 <= j < |order| :: StoredAtSymbol(mem, at, order[j]))
            <==> NoCollision(order)
  {
    hide Sym, RowsNamed, ItemsNamed, NulFree, NoCollision, Hooks.TableAt, Hooks.ListAt, TABLE, MISSING_DLLS, OVERRIDES, ServedRows,
         MemHolds, Contents, AllLines, StoredAtSymbol, StringsInMemory;
    if NoCollision(order) {
      GeneratedTableServes(mem, rows, missing, overrides, order, at);
      GeneratedListsRead(mem, rows, missing, overrides, order, at);
      forall j | 0 <= j < |order| ensures StoredAtSymbol(mem, at, order[j]) {
        StringStored(mem, rows, missing, overrides, order, at, j);
      }
    }
    if forall j | 0 <= j < |order| :: StoredAtSymbol(mem, at, order[j]) {
      StoredApart(mem, at, order);
    }
  }

  lemma StringStored(mem: Hooks.Memory, rows: seq<Row>, missing: seq<bytes>, overrides: seq<bytes>, order: seq<bytes>,
                     at: Placement, j: nat)
    requires |rows| < W32 && NoCollision(order) && j < |order| && NulFree(order[j])
    requires LinkedIntoMemory(mem, rows, missing, overrides, order, at)
    ensures StoredAtSymbol(mem, at, order[j])
  {
    hide Sym, NoCollision, NulFree, MemHolds, Contents, AllLines, StringsInMemory, Hooks.MemStr, TABLE, MISSING_DLLS, OVERRIDES;
    NameInMemory(mem, rows, missing, overrides, order, at, order[j]);
  }

  lemma StoredApart(mem: Hooks.Memory, at: Placement, order: seq<bytes>)
    requires forall i, j | 0 <= i < j < |order| :: order[i] != order[j]
    requires forall j | 0 <= j < |order| :: StoredAtSymbol(mem, at, order[j])
    ensures NoCollision(order)
  {
    hide Sym, Hooks.MemStr;
    forall i, j | 0 <= i < j < |order| ensures Sym(order[i]) != Sym(order[j]) {
      assert StoredAtSymbol(mem, at, order[i]) && StoredAtSymbol(mem, at, order[j]);
      if Sym(order[i]) == Sym(order[j]) { StoredUnique(mem, at(Sym(order[i])), order[i], order[j]); }
    }
  }

  // ---------------------------------------------------------------- static against dynamic resolution

  /** The hook's view of the table the patcher reads. */
  function ServedBy(t: seq<TableEntry>): seq<Hooks.Served> {
    seq(|t|, i requires 0 <= i < |t| => Hooks.Served(t[i].func, t[i].polyfill))
  }

  /** The polyfill that GetProcAddress serves for a name. */
  function FirstNamed(es: seq<Hooks.Served>, f: bytes): Option<u32> {
    if es == [] then None
    else if es[0].poly != 0 && es[0].func == f then Some(es[0].poly)
    else FirstNamed(es[1..], f)
  }

  lemma {:induction false} LookupByName(mem: Hooks.Memory, p: u32, es: seq<Hooks.Served>, f: bytes)
    requires Hooks.NameIs(mem, p, f) && NulFree(f)
    requires forall i | 0 <= i < |es| :: NulFree(es[i].func)
    ensures GetProc.Lookup(mem, p, es) == FirstNamed(es, f)
    decreases |es|
  {
    hide Hooks.NameIs, NulFree;
    if es != [] {
      NameMatches(mem, p, es[0].func, f);
      LookupByName(mem, p, es[1..], f);
    }
  }

  lemma NameMatches(mem: Hooks.Memory, p: u32, s: bytes, f: bytes)
    requires Hooks.NameIs(mem, p, f) && NulFree(f) && NulFree(s)
    ensures Hooks.NameIs(mem, p, s) <==> s == f
  {
    hide Hooks.NameIs;
    if Hooks.NameIs(mem, p, s) { Hooks.NameUnique(mem, p, s, f); }
  }

  /** The table lists no function twice. */
  ghost predicate DistinctKeys(t: seq<TableEntry>) {
    forall i, j | 0 <= i < j < |t| && t[i].polyfill != 0 && t[j].polyfill != 0 ::
      Key(t[i].dll, t[i].func) != Key(t[j].dll, t[j].func)
  }

  lemma {:induction false} PolyOf(t: seq<TableEntry>, k: nat)
    requires DistinctKeys(t) && k < |t| && t[k].polyfill != 0
    ensures Key(t[k].dll, t[k].func) in PolyMap(t) && PolyMap(t)[Key(t[k].dll, t[k].func)] == t[k].polyfill
    decreases |t|
  {
    hide Key;
    var n := |t| - 1;
    if k < n { PolyOf(t[..n], k); }
  }

  lemma {:induction false} FirstNamedIs(t: seq<TableEntry>, f: bytes, k: nat) returns (i: nat)
    requires k < |t| && t[k].polyfill != 0 && t[k].func == f
    ensures i <= k && t[i].polyfill != 0 && t[i].func == f && FirstNamed(ServedBy(t), f) == Some(t[i].polyfill)
    decreases |t|
  {
    if t[0].polyfill != 0 && t[0].func == f {
      i := 0;
    } else {
      assert ServedBy(t)[1..] == ServedBy(t[1..]);
      i := FirstNamedIs(t[1..], f, k - 1);
      i := i + 1;
    }
  }

  /** An import resolved by the patcher and the same name looked up at run time get the same polyfill. */
  ghost predicate AgreesOn(t: seq<TableEntry>, k: nat)
    requires k < |t|
  {
    var key := Key(t[k].dll, t[k].func);
    t[k].polyfill != 0 ==> key in PolyMap(t) && FirstNamed(ServedBy(t), t[k].func) == Some(PolyMap(t)[key])
  }

  /** Record i is the first with a polyfill for its name. */
  ghost predicate FirstOfName(t: seq<TableEntry>, i: nat) {
    i < |t| && t[i].polyfill != 0 && forall j | 0 <= j < i && t[j].polyfill != 0 :: t[j].func != t[i].func
  }

  /** Record j is the last with a polyfill for its key. */
  ghost predicate LastOfKey(t: seq<TableEntry>, j: nat) {
    && j < |t| && t[j].polyfill != 0
    && forall k | j < k < |t| && t[k].polyfill != 0 :: Key(t[k].dll, t[k].func) != Key(t[j].dll, t[j].func)
  }

  /** The first record for a name and the last for each of its keys have the same polyfill. */
  ghost predicate FirstsAreLasts(t: seq<TableEntry>) {
    forall i: nat, j: nat, k: nat | FirstOfName(t, i) && LastOfKey(t, j) && Links(t, i, j, k) :: t[i].polyfill == t[j].polyfill
  }

  /** Record k has a polyfill, the name of record i and the key of record j. */
  ghost predicate Links(t: seq<TableEntry>, i: nat, j: nat, k: nat) {
    && i < |t| && j < |t| && k < |t| && t[k].polyfill != 0
    && t[k].func == t[i].func && Key(t[k].dll, t[k].func) == Key(t[j].dll, t[j].func)
  }

  lemma {:induction false} PolyIsLast(t: seq<TableEntry>, k: nat) returns (j: nat)
    requires k < |t| && t[k].polyfill != 0
    ensures j < |t| && LastOfKey(t, j) && Key(t[j].dll, t[j].func) == Key(t[k].dll, t[k].func)
    ensures Key(t[k].dll, t[k].func) in PolyMap(t) && PolyMap(t)[Key(t[k].dll, t[k].func)] == t[j].polyfill
    decreases |t|
  {
    hide Key;
    var n := |t| - 1;
    if t[n].polyfill != 0 && Key(t[n].dll, t[n].func) == Key(t[k].dll, t[k].func) {
      j := n;
    } else {
      j := PolyIsLast(t[..n], k);
      assert forall i | 0 <= i < n :: t[..n][i] == t[i];
    }
  }

  lemma {:induction false} NamedIsFirst(t: seq<TableEntry>, f: bytes, k: nat) returns (i: nat)
    requires k < |t| && t[k].polyfill != 0 && t[k].func == f
    ensures i < |t| && FirstOfName(t, i) && t[i].func == f && FirstNamed(ServedBy(t), f) == Some(t[i].polyfill)
    decreases |t|
  {
    if t[0].polyfill != 0 && t[0].func == f {
      i := 0;
    } else {
      assert ServedBy(t)[1..] == ServedBy(t[1..]);
      i := NamedIsFirst(t[1..], f, k - 1);
      i := i + 1;
      forall j | 0 <= j < i && t[j].polyfill != 0 ensures t[j].func != t[i].func {
        if j > 0 { assert t[j] == t[1..][j - 1]; }
      }
    }
  }

  /** At most one record is the first for a name, and at most one the last for a key. */
  lemma FirstAndLastUnique(t: seq<TableEntry>, a: nat, b: nat)
    ensures FirstOfName(t, a) && FirstOfName(t, b) && t[a].func == t[b].func ==> a == b
    ensures LastOfKey(t, a) && LastOfKey(t, b) && Key(t[a].dll, t[a].func) == Key(t[b].dll, t[b].func) ==> a == b
  {
    hide Key;
  }

  /**
   * The patcher takes the last record for dll!name and the hook the first for the name, so they agree on every entry
   * of any table if and only if those two records have the same polyfill.
   */
  lemma HookAgreesIff(t: seq<TableEntry>)
    ensures (forall k | 0 <= k < |t| :: AgreesOn(t, k)) <==> FirstsAreLasts(t)
  {
    hide Key, PolyMap, FirstNamed, ServedBy, FirstOfName, LastOfKey;
    if FirstsAreLasts(t) {
      forall k | 0 <= k < |t| ensures AgreesOn(t, k) {
        if t[k].polyfill != 0 {
          var i := NamedIsFirst(t, t[k].func, k);
          var j := PolyIsLast(t, k);
          assert Links(t, i, j, k);
        }
      }
    }
    if forall k | 0 <= k < |t| :: AgreesOn(t, k) {
      forall i: nat, j: nat, k: nat | FirstOfName(t, i) && LastOfKey(t, j) && Links(t, i, j, k)
        ensures t[i].polyfill == t[j].polyfill
      {
        var a := NamedIsFirst(t, t[k].func, k);
        var b := PolyIsLast(t, k);
        FirstAndLastUnique(t, i, a);
        FirstAndLastUnique(t, j, b);
        assert AgreesOn(t, k);
      }
    }
  }

  /** Two DLLs with a function of one name and different polyfills: the hook serves the first for both. */
  lemma OneNameTwoPolyfills(d: bytes, e: bytes, f: bytes, x: u32, y: u32)
    requires Key(d, f) != Key(e, f) && x != 0 && y != 0 && x != y
    ensures var t := [TableEntry(d, f, x, 0), TableEntry(e, f, y, 0)];
            && DistinctKeys(t) && PolyMap(t)[Key(e, f)] == y
            && FirstNamed(ServedBy(t), f) == Some(x) && !AgreesOn(t, 1)
  {
    hide Key;
    var t := [TableEntry(d, f, x, 0), TableEntry(e, f, y, 0)];
    PolyOf(t, 1);
    assert ServedBy(t)[0] == Hooks.Served(f, x);
    assert FirstNamed(ServedBy(t), f) == Some(x);
  }

  /** No name has two polyfills. */
  ghost predicate OnePolyfillPerName(t: seq<TableEntry>) {
    forall i, j | 0 <= i < |t| && 0 <= j < |t| && t[i].polyfill != 0 && t[j].polyfill != 0 && t[i].func == t[j].func ::
      t[i].polyfill == t[j].polyfill
  }

  /**
   * The patcher looks up dll!name and the hook the name alone, so they agree on every entry if and only if no
   * name has two polyfills.
   */
  lemma HookAgreesIffOnePerName(t: seq<TableEntry>)
    requires DistinctKeys(t)
    ensures (forall k | 0 <= k < |t| :: AgreesOn(t, k)) <==> OnePolyfillPerName(t)
  {
    hide Key, PolyMap, FirstNamed, ServedBy, DistinctKeys;
    if OnePolyfillPerName(t) {
      forall k | 0 <= k < |t| ensures AgreesOn(t, k) {
        if t[k].polyfill != 0 {
          PolyOf(t, k);
          var i := FirstNamedIs(t, t[k].func, k);
        }
      }
    }
    if forall k | 0 <= k < |t| :: AgreesOn(t, k) {
      forall i, j | 0 <= i < |t| && 0 <= j < |t| && t[i].polyfill != 0 && t[j].polyfill != 0 && t[i].func == t[j].func
        ensures t[i].polyfill == t[j].polyfill
      {
        assert AgreesOn(t, i) && AgreesOn(t, j);
        PolyOf(t, i);
        PolyOf(t, j);
      }
    }
  }
}
