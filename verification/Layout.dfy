/**
 * The second half of the import-table rebuild: laying out the new section as descriptors, lookup tables and strings.
 */
module Layout {
  import opened Bytes
  import opened ImportReader
  import opened Runs

  // ---------------------------------------------------------------- where the lookup tables go

  /** Offset of the lookup table of piece i; for i == |ps| the start of the strings. */
  function IntStart(ps: seq<Piece>, i: nat): nat
    requires i <= |ps|
  {
    if i == 0 then 20 * (|ps| + 1) else IntStart(ps, i - 1) + 4 * (|ps[i - 1].imps| + 1)
  }

  lemma {:induction false} IntStartsApart(ps: seq<Piece>, i: nat, j: nat)
    requires i <= j <= |ps|
    ensures 20 * (|ps| + 1) <= IntStart(ps, i) <= IntStart(ps, j)
    ensures i < j ==> IntStart(ps, i) + 4 * (|ps[i].imps| + 1) <= IntStart(ps, j)
    decreases j
  {
    if i < j {
      IntStartsApart(ps, i, j - 1);
    } else if 0 < i {
      IntStartsApart(ps, i - 1, i - 1);
    }
  }

  lemma IntStartBase(ps: seq<Piece>)
    ensures IntStart(ps, 0) == 20 * (|ps| + 1)
  {}

  lemma IntStartStep(ps: seq<Piece>, i: nat)
    requires i < |ps|
    ensures IntStart(ps, i + 1) == IntStart(ps, i) + 4 * (|ps[i].imps| + 1)
  {}

  method PlanInts(ps: seq<Piece>) returns (intStart: seq<nat>, nameStart: nat)
    ensures |intStart| == |ps| && forall i | 0 <= i < |ps| :: intStart[i] == IntStart(ps, i)
    ensures nameStart == IntStart(ps, |ps|)
  {
    hide IntStart;
    intStart := [];
    nameStart := (|ps| + 1) * 20;
    IntStartBase(ps);
    for i := 0 to |ps|
      invariant |intStart| == i && nameStart == IntStart(ps, i)
      invariant forall k | 0 <= k < i :: intStart[k] == IntStart(ps, k)
    {
      IntStartStep(ps, i);
      intStart := intStart + [nameStart];
      nameStart := nameStart + (|ps[i].imps| + 1) * 4;
    }
  }

  // ---------------------------------------------------------------- strings

  /** At off, on an even offset: hint zero bytes and then the NUL-terminated string s. */
  ghost predicate HasEntry(buf: bytes, hint: nat, s: bytes, off: nat) {
    && off % 2 == 0
    && (forall k | off <= k < off + hint :: k < |buf| && buf[k] == 0)
    && IsStr(buf, off + hint, s)
  }

  /** m points every interned string to an intact copy at or behind lo, and the copies do not overlap. */
  ghost predicate Interned(buf: bytes, lo: nat, hint: nat, m: map<bytes, nat>) {
    && (forall s | s in m :: lo <= m[s] && HasEntry(buf, hint, s, m[s]))
    && (forall s, t | s in m && t in m && s != t :: m[s] + hint + |s| + 1 <= m[t] || m[t] + hint + |t| + 1 <= m[s])
  }

  function Even(n: nat): nat { n + n % 2 }

  /** Go: appendStr, and the hint/name entries with hint == 2. */
  method AppendEntry(buf: bytes, hint: nat, s: bytes) returns (r: bytes)
    requires |buf| % 2 == 0 && hint % 2 == 0 && NulFree(s)
    ensures buf <= r && |r| % 2 == 0 && |r| == |buf| + Even(hint + |s| + 1)
    ensures HasEntry(r, hint, s, |buf|)
  {
    r := buf + seq(hint, _ => 0) + s + [0];
    EntryThere(buf, hint, s);
    if |r| % 2 == 1 {
      EntryKept(r, r + [0], hint, s, |buf|);
      r := r + [0];
    }
  }

  lemma EntryThere(buf: bytes, hint: nat, s: bytes)
    requires |buf| % 2 == 0 && NulFree(s)
    ensures HasEntry(buf + seq(hint, _ => 0) + s + [0], hint, s, |buf|)
  {}

  lemma EntryKept(b1: bytes, b2: bytes, hint: nat, s: bytes, off: nat)
    requires HasEntry(b1, hint, s, off) && b1 <= b2
    ensures HasEntry(b2, hint, s, off)
  {
    assert forall k | 0 <= k < |b1| :: b2[k] == b1[k];
  }

  lemma InternedKept(b1: bytes, b2: bytes, lo: nat, hint: nat, m: map<bytes, nat>)
    requires Interned(b1, lo, hint, m) && b1 <= b2
    ensures Interned(b2, lo, hint, m)
  {
    hide HasEntry;
    forall s | s in m ensures HasEntry(b2, hint, s, m[s]) {
      EntryKept(b1, b2, hint, s, m[s]);
    }
  }

  lemma EntryEnds(buf: bytes, hint: nat, s: bytes, off: nat)
    requires HasEntry(buf, hint, s, off)
    ensures off + hint + |s| + 1 <= |buf|
  {}

  lemma InternedAdd(b1: bytes, b2: bytes, lo: nat, hint: nat, m: map<bytes, nat>, s: bytes)
    requires Interned(b1, lo, hint, m) && b1 <= b2 && lo <= |b1|
    requires s !in m && HasEntry(b2, hint, s, |b1|)
    ensures Interned(b2, lo, hint, m[s := |b1|])
  {
    hide HasEntry;
    InternedKept(b1, b2, lo, hint, m);
    forall t | t in m ensures m[t] + hint + |t| + 1 <= |b1| {
      EntryEnds(b1, hint, t, m[t]);
    }
  }

  /** The space of the distinct strings of a list, each with its hint and NUL and on an even offset. */
  function StringArea(names: seq<bytes>, hint: nat): nat {
    if names == [] then 0
    else
      var k := |names| - 1;
      StringArea(names[..k], hint) + if names[k] in names[..k] then 0 else Even(hint + |names[k]| + 1)
  }

  lemma AreaStep(names: seq<bytes>, s: bytes, hint: nat)
    ensures StringArea(names + [s], hint) == StringArea(names, hint) + if s in names then 0 else Even(hint + |s| + 1)
  {
    assert (names + [s])[..|names|] == names;
  }

  /** The space in front of the first occurrence of a string in the list. */
  function AreaBefore(names: seq<bytes>, s: bytes, hint: nat): nat {
    if names == [] then 0
    else
      var k := |names| - 1;
      if s in names[..k] then AreaBefore(names[..k], s, hint) else StringArea(names[..k], hint)
  }

  lemma BeforeStep(names: seq<bytes>, t: bytes, s: bytes, hint: nat)
    ensures AreaBefore(names + [t], s, hint) == if s in names then AreaBefore(names, s, hint) else StringArea(names, hint)
  {
    assert (names + [t])[..|names|] == names;
  }

  /** A string of the list lies in front of the end of the area. */
  lemma {:induction false} BeforeTotal(names: seq<bytes>, s: bytes, hint: nat)
    requires s in names
    ensures AreaBefore(names, s, hint) < StringArea(names, hint)
  {
    var k := |names| - 1;
    if s in names[..k] {
      BeforeTotal(names[..k], s, hint);
    } else {
      assert names[k] == s;
    }
  }

  /** Exactly the strings of the list are interned, each where it occurred first, and the buffer ends with the last. */
  ghost predicate Holding(buf: bytes, lo: nat, hint: nat, m: map<bytes, nat>, names: seq<bytes>) {
    && |buf| == lo + StringArea(names, hint)
    && (forall s :: s in m <==> s in names)
    && forall s | s in m :: m[s] == lo + AreaBefore(names, s, hint)
  }

  lemma HoldingStep(b1: bytes, b2: bytes, lo: nat, hint: nat, m1: map<bytes, nat>, m2: map<bytes, nat>, names: seq<bytes>,
                    s: bytes)
    requires Holding(b1, lo, hint, m1, names)
    requires m2 == (if s in m1 then m1 else m1[s := |b1|]) && |b2| == |b1| + if s in m1 then 0 else Even(hint + |s| + 1)
    ensures Holding(b2, lo, hint, m2, names + [s])
  {
    hide StringArea, AreaBefore, Even;
    AreaStep(names, s, hint);
    forall t ensures t in m2 <==> t in names + [s] {}
    forall t | t in m2 ensures m2[t] == lo + AreaBefore(names + [s], t, hint) {
      BeforeStep(names, s, t, hint);
    }
  }

  /** Looks a string up, appending it first when it is new. */
  method Intern(buf: bytes, ghost lo: nat, hint: nat, m: map<bytes, nat>, s: bytes, ghost names: seq<bytes>)
    returns (buf2: bytes, m2: map<bytes, nat>)
    requires |buf| % 2 == 0 && hint % 2 == 0 && NulFree(s)
    requires Interned(buf, lo, hint, m) && Holding(buf, lo, hint, m, names)
    ensures buf <= buf2 && |buf2| % 2 == 0
    ensures Interned(buf2, lo, hint, m2) && Holding(buf2, lo, hint, m2, names + [s])
  {
    hide Interned, HasEntry, NulFree, Holding, Even;
    HoldingLength(buf, lo, hint, m, names);
    buf2, m2 := buf, m;
    if s !in m {
      buf2 := AppendEntry(buf, hint, s);
      InternedAdd(buf, buf2, lo, hint, m, s);
      m2 := m[s := |buf|];
    }
    HoldingStep(buf, buf2, lo, hint, m, m2, names, s);
  }

  lemma HoldingLength(buf: bytes, lo: nat, hint: nat, m: map<bytes, nat>, names: seq<bytes>)
    requires Holding(buf, lo, hint, m, names)
    ensures lo <= |buf|
  {}

  ghost predicate CleanNames(ps: seq<Piece>) {
    && (forall i | 0 <= i < |ps| :: NulFree(ps[i].dll))
    && (forall i, j | 0 <= i < |ps| && 0 <= j < |ps[i].imps| :: WellFormed(ps[i].imps[j]))
  }

  /** The DLL names of the first n pieces. */
  function PieceDlls(ps: seq<Piece>, n: nat): seq<bytes>
    requires n <= |ps|
  {
    if n == 0 then [] else PieceDlls(ps, n - 1) + [ps[n - 1].dll]
  }

  /** The names imported by s, in order; imports by ordinal have none. */
  function FuncNames(s: seq<Import>): seq<bytes> {
    if s == [] then []
    else
      var k := |s| - 1;
      FuncNames(s[..k]) + if s[k].name == [] then [] else [s[k].name]
  }

  method InternDlls(ps: seq<Piece>, start: bytes) returns (buf: bytes, m: map<bytes, nat>)
    requires |start| % 2 == 0 && CleanNames(ps)
    ensures start <= buf && |buf| % 2 == 0
    ensures Interned(buf, |start|, 0, m) && Holding(buf, |start|, 0, m, PieceDlls(ps, |ps|))
  {
    hide Interned, NulFree, Holding;
    buf, m := start, map[];
    NothingInterned(start, 0);
    for i := 0 to |ps|
      invariant start <= buf && |buf| % 2 == 0
      invariant Interned(buf, |start|, 0, m) && Holding(buf, |start|, 0, m, PieceDlls(ps, i))
    {
      buf, m := Intern(buf, |start|, 0, m, ps[i].dll, PieceDlls(ps, i));
    }
  }

  lemma NothingInterned(buf: bytes, hint: nat)
    ensures Interned(buf, |buf|, hint, map[]) && Holding(buf, |buf|, hint, map[], [])
  {}

  /** The inner loop over one piece's imports; imports by ordinal have no entry. */
  method InternImports(s: seq<Import>, start: bytes, ghost lo: nat, m0: map<bytes, nat>, ghost names: seq<bytes>)
    returns (buf: bytes, m: map<bytes, nat>)
    requires |start| % 2 == 0 && Interned(start, lo, 2, m0) && Holding(start, lo, 2, m0, names)
    requires forall j | 0 <= j < |s| :: WellFormed(s[j])
    ensures start <= buf && |buf| % 2 == 0
    ensures Interned(buf, lo, 2, m) && Holding(buf, lo, 2, m, names + FuncNames(s))
  {
    hide Interned, NulFree, Holding, FuncNames;
    buf, m := start, m0;
    NoFuncNames(s, names);
    for j := 0 to |s|
      invariant start <= buf && |buf| % 2 == 0
      invariant Interned(buf, lo, 2, m) && Holding(buf, lo, 2, m, names + FuncNames(s[..j]))
    {
      NextFuncName(s, j, names);
      if s[j].name != [] {
        buf, m := Intern(buf, lo, 2, m, s[j].name, names + FuncNames(s[..j]));
      }
    }
  }

  lemma NoFuncNames(s: seq<Import>, names: seq<bytes>)
    ensures names + FuncNames(s[..0]) == names && s[..|s|] == s
  {}

  lemma NextFuncName(s: seq<Import>, j: nat, names: seq<bytes>)
    requires j < |s|
    ensures names + FuncNames(s[..j + 1])
            == if s[j].name == [] then names + FuncNames(s[..j]) else names + FuncNames(s[..j]) + [s[j].name]
  {
    assert s[..j + 1][..j] == s[..j];
  }

  method InternNames(ps: seq<Piece>, start: bytes) returns (buf: bytes, m: map<bytes, nat>)
    requires |start| % 2 == 0 && CleanNames(ps)
    ensures start <= buf && |buf| % 2 == 0
    ensures Interned(buf, |start|, 2, m) && Holding(buf, |start|, 2, m, FuncNames(Flat(ps, 0)))
  {
    hide Interned, NulFree, Holding, FuncNames, Flat, Pos;
    buf, m := start, map[];
    NothingInterned(start, 2);
    AllFlat(ps);
    FirstPos(ps);
    NoFuncNames(Flat(ps, 0), []);
    for i := 0 to |ps|
      invariant start <= buf && |buf| % 2 == 0 && Pos(ps, i) <= |Flat(ps, 0)|
      invariant Interned(buf, |start|, 2, m) && Holding(buf, |start|, 2, m, FuncNames(Flat(ps, 0)[..Pos(ps, i)]))
    {
      FlatPrefix(ps, i);
      FuncNamesConcat(Flat(ps, 0)[..Pos(ps, i)], ps[i].imps);
      buf, m := InternImports(ps[i].imps, buf, |start|, m, FuncNames(Flat(ps, 0)[..Pos(ps, i)]));
    }
  }

  lemma FirstPos(ps: seq<Piece>)
    ensures Pos(ps, 0) == 0
  {}

  lemma FlatPrefix(ps: seq<Piece>, i: nat)
    requires i < |ps|
    ensures Pos(ps, i + 1) == Pos(ps, i) + |ps[i].imps| <= |Flat(ps, 0)|
    ensures Flat(ps, 0)[..Pos(ps, i + 1)] == Flat(ps, 0)[..Pos(ps, i)] + ps[i].imps
  {
    FlatSuffix(ps, i);
    var s, n := Flat(ps, 0), Pos(ps, i);
    assert s[n..] == ps[i].imps + Flat(ps, i + 1);
    assert s[n..n + |ps[i].imps|] == s[n..][..|ps[i].imps|];
  }

  lemma FuncNamesLast(s: seq<Import>)
    requires s != []
    ensures FuncNames(s) == FuncNames(s[..|s| - 1]) + if s[|s| - 1].name == [] then [] else [s[|s| - 1].name]
  {}

  lemma {:induction false} FuncNamesConcat(s: seq<Import>, t: seq<Import>)
    ensures FuncNames(s + t) == FuncNames(s) + FuncNames(t)
    decreases |t|
  {
    hide FuncNames;
    if t == [] {
      assert s + t == s;
      NoFuncNames([], []);
    } else {
      var k := |t| - 1;
      FuncNamesConcat(s, t[..k]);
      assert (s + t)[..|s| + k] == s + t[..k] && (s + t)[|s| + k] == t[k];
      FuncNamesLast(s + t);
      FuncNamesLast(t);
    }
  }

  ghost predicate NamesIn(p: Piece, m: map<bytes, nat>) {
    forall j | 0 <= j < |p.imps| && p.imps[j].name != [] :: p.imps[j].name in m
  }

  /** Every string the tables refer to is interned. */
  lemma HoldingAll(withDlls: bytes, withNames: bytes, lo: nat, ps: seq<Piece>, dllOff: map<bytes, nat>, nameOff: map<bytes, nat>)
    requires Holding(withDlls, lo, 0, dllOff, PieceDlls(ps, |ps|))
    requires Holding(withNames, |withDlls|, 2, nameOff, FuncNames(Flat(ps, 0)))
    ensures forall i | 0 <= i < |ps| :: ps[i].dll in dllOff && NamesIn(ps[i], nameOff)
    ensures |withNames| == lo + StringArea(PieceDlls(ps, |ps|), 0) + StringArea(FuncNames(Flat(ps, 0)), 2)
    ensures forall s | s in nameOff ::
              nameOff[s] == lo + StringArea(PieceDlls(ps, |ps|), 0) + AreaBefore(FuncNames(Flat(ps, 0)), s, 2)
    ensures forall s | s in dllOff :: dllOff[s] == lo + AreaBefore(PieceDlls(ps, |ps|), s, 0)
  {
    hide StringArea, AreaBefore, Flat, PieceDlls, FuncNames;
    forall i | 0 <= i < |ps| ensures ps[i].dll in dllOff && NamesIn(ps[i], nameOff) {
      DllListed(ps, |ps|, i);
      forall j | 0 <= j < |ps[i].imps| && ps[i].imps[j].name != [] ensures ps[i].imps[j].name in nameOff {
        FlatAt(ps, i, j);
        NameListed(Flat(ps, 0), Pos(ps, i) + j);
      }
    }
  }

  lemma {:induction false} DllListed(ps: seq<Piece>, n: nat, i: nat)
    requires i < n <= |ps|
    ensures ps[i].dll in PieceDlls(ps, n)
  {
    if i < n - 1 { DllListed(ps, n - 1, i); }
  }

  lemma {:induction false} NameListed(s: seq<Import>, i: nat)
    requires i < |s| && s[i].name != []
    ensures s[i].name in FuncNames(s)
  {
    if i < |s| - 1 {
      assert s[..|s| - 1][i] == s[i];
      NameListed(s[..|s| - 1], i);
    }
  }

  // ---------------------------------------------------------------- descriptors and lookup tables

  /** b2 differs from b1 in [lo, hi) at most. */
  ghost predicate Within(b1: bytes, b2: bytes, lo: nat, hi: nat) {
    && |b1| == |b2|
    && forall k | 0 <= k < |b1| && !(lo <= k < hi) :: b2[k] == b1[k]
  }

  ghost predicate DescriptorAt(buf: bytes, d: nat, oft: u32, name: u32, ft: u32) {
    && d + 20 <= |buf|
    && LE32(buf, d) == oft && LE32(buf, d + 4) == 0 && LE32(buf, d + 8) == 0
    && LE32(buf, d + 12) == name && LE32(buf, d + 16) == ft
  }

  method FillDescriptor(buf: bytes, d: nat, oft: u32, name: u32, ft: u32) returns (r: bytes)
    requires d + 20 <= |buf|
    ensures Within(buf, r, d, d + 20) && DescriptorAt(r, d, oft, name, ft)
  {
    hide Put32;
    r := Put32(buf, d, oft);
    r := Put32(r, d + 4, 0);
    r := Put32(r, d + 8, 0);
    r := Put32(r, d + 12, name);
    r := Put32(r, d + 16, ft);
  }

  /** The lookup entry of an import: the ordinal with bit 31 set, or the address of its hint/name entry. */
  function IntWord(base: u32, nameOff: map<bytes, nat>, im: Import): int
    requires im.name != [] ==> im.name in nameOff
  {
    if im.name == [] then ORDINAL_FLAG + im.ordinal else base + nameOff[im.name]
  }

  ghost predicate IntAt(buf: bytes, io: nat, s: seq<Import>, base: u32, nameOff: map<bytes, nat>) {
    && io + 4 * (|s| + 1) <= |buf|
    && (forall j | 0 <= j < |s| :: (s[j].name != [] ==> s[j].name in nameOff)
                                  && LE32(buf, io + 4 * j) == IntWord(base, nameOff, s[j]))
    && LE32(buf, io + 4 * |s|) == 0
  }

  method FillInt(buf: bytes, io: nat, s: seq<Import>, base: u32, nameOff: map<bytes, nat>) returns (r: bytes)
    requires io + 4 * (|s| + 1) <= |buf| && base + |buf| <= W32
    requires forall j | 0 <= j < |s| && s[j].name != [] :: s[j].name in nameOff && nameOff[s[j].name] < |buf|
    ensures Within(buf, r, io, io + 4 * (|s| + 1)) && IntAt(r, io, s, base, nameOff)
  {
    hide Put32, LE32;
    r := buf;
    for j := 0 to |s|
      invariant Within(buf, r, io, io + 4 * (|s| + 1))
      invariant forall k | 0 <= k < j :: LE32(r, io + 4 * k) == IntWord(base, nameOff, s[k])
    {
      var v: u32;
      if s[j].name == [] {
        v := ORDINAL_FLAG + s[j].ordinal;
      } else {
        v := base + nameOff[s[j].name];
      }
      forall k | 0 <= k < j ensures LE32(Put32(r, io + j * 4, v), io + 4 * k) == LE32(r, io + 4 * k) {
        Put32Keeps(r, io + j * 4, v, io + 4 * k);
      }
      r := Put32(r, io + j * 4, v);
    }
    forall k | 0 <= k < |s| ensures LE32(Put32(r, io + |s| * 4, 0), io + 4 * k) == LE32(r, io + 4 * k) {
      Put32Keeps(r, io + |s| * 4, 0, io + 4 * k);
    }
    r := Put32(r, io + |s| * 4, 0);
  }

  /** Piece i is in place: its descriptor and its lookup table. */
  ghost predicate PieceAt(buf: bytes, base: u32, ps: seq<Piece>, i: nat, dllOff: map<bytes, nat>, nameOff: map<bytes, nat>)
    requires i < |ps|
  {
    && ps[i].dll in dllOff
    && base + IntStart(ps, i) < W32 && base + dllOff[ps[i].dll] < W32
    && DescriptorAt(buf, 20 * i, base + IntStart(ps, i), base + dllOff[ps[i].dll], ps[i].ft)
    && IntAt(buf, IntStart(ps, i), ps[i].imps, base, nameOff)
  }

  lemma PieceAtKept(b1: bytes, b2: bytes, base: u32, ps: seq<Piece>, i: nat, dllOff: map<bytes, nat>, nameOff: map<bytes, nat>)
    requires i < |ps| && PieceAt(b1, base, ps, i, dllOff, nameOff)
    requires |b1| == |b2|
    requires forall k | 20 * i <= k < 20 * i + 20 :: b2[k] == b1[k]
    requires forall k | IntStart(ps, i) <= k < IntStart(ps, i) + 4 * (|ps[i].imps| + 1) :: b2[k] == b1[k]
    ensures PieceAt(b2, base, ps, i, dllOff, nameOff)
  {
    hide IntStart, IntAt, DescriptorAt;
    IntAtKept(b1, b2, IntStart(ps, i), ps[i].imps, base, nameOff);
    DescriptorKept(b1, b2, 20 * i, base + IntStart(ps, i), base + dllOff[ps[i].dll], ps[i].ft);
  }

  lemma IntAtKept(b1: bytes, b2: bytes, io: nat, s: seq<Import>, base: u32, nameOff: map<bytes, nat>)
    requires IntAt(b1, io, s, base, nameOff) && |b1| == |b2|
    requires forall k | io <= k < io + 4 * (|s| + 1) :: b2[k] == b1[k]
    ensures IntAt(b2, io, s, base, nameOff)
  {
    hide LE32, IntWord;
    forall j | 0 <= j <= |s| ensures LE32(b2, io + 4 * j) == LE32(b1, io + 4 * j) {
      SameWord(b1, b2, io + 4 * j);
    }
  }

  /** What filling in one piece needs to know about the layout. */
  ghost predicate Ready(buf: bytes, base: u32, ps: seq<Piece>, dllOff: map<bytes, nat>, nameOff: map<bytes, nat>) {
    && base + |buf| <= W32
    && IntStart(ps, |ps|) <= |buf|
    && (forall i | 0 <= i < |ps| :: ps[i].dll in dllOff && NamesIn(ps[i], nameOff))
    && (forall s | s in dllOff :: dllOff[s] < |buf|)
    && (forall s | s in nameOff :: nameOff[s] < |buf|)
  }

  method FillPiece(buf: bytes, base: u32, ps: seq<Piece>, i: nat, io: nat, dllOff: map<bytes, nat>, nameOff: map<bytes, nat>)
    returns (r: bytes)
    requires i < |ps| && io == IntStart(ps, i) && Ready(buf, base, ps, dllOff, nameOff)
    ensures |r| == |buf| && PieceAt(r, base, ps, i, dllOff, nameOff)
    ensures forall k | 0 <= k < |buf| && !(20 * i <= k < 20 * i + 20) && !(io <= k < io + 4 * (|ps[i].imps| + 1)) ::
              r[k] == buf[k]
  {
    hide IntStart, IntAt, DescriptorAt, Ready, NamesIn, LE32;
    PieceRoom(buf, base, ps, i, dllOff, nameOff);
    var p := ps[i];
    r := FillDescriptor(buf, i * 20, base + io, base + dllOff[p.dll], p.ft);
    ghost var mid := r;
    r := FillInt(r, io, p.imps, base, nameOff);
    DescriptorKept(mid, r, 20 * i, base + io, base + dllOff[p.dll], p.ft);
  }

  /** The tables of a piece and everything it refers to lie in the buffer. */
  lemma PieceRoom(buf: bytes, base: u32, ps: seq<Piece>, i: nat, dllOff: map<bytes, nat>, nameOff: map<bytes, nat>)
    requires i < |ps| && Ready(buf, base, ps, dllOff, nameOff)
    ensures base + |buf| <= W32
    ensures 20 * i + 20 <= IntStart(ps, i) && IntStart(ps, i) + 4 * (|ps[i].imps| + 1) <= |buf|
    ensures ps[i].dll in dllOff && dllOff[ps[i].dll] < |buf|
    ensures forall j | 0 <= j < |ps[i].imps| && ps[i].imps[j].name != [] ::
              ps[i].imps[j].name in nameOff && nameOff[ps[i].imps[j].name] < |buf|
  {
    hide IntStart;
    IntStartsApart(ps, 0, i);
    IntStartsApart(ps, i, |ps|);
    IntStartBase(ps);
  }

  lemma DescriptorKept(b1: bytes, b2: bytes, d: nat, oft: u32, name: u32, ft: u32)
    requires DescriptorAt(b1, d, oft, name, ft) && |b1| == |b2|
    requires forall k | d <= k < d + 20 :: b2[k] == b1[k]
    ensures DescriptorAt(b2, d, oft, name, ft)
  {}

  /** The trailing descriptor and the strings are the same in both buffers. */
  ghost predicate SameEnds(b1: bytes, b2: bytes, ps: seq<Piece>) {
    && |b1| == |b2|
    && (forall k | 20 * |ps| <= k < 20 * |ps| + 20 && k < |b1| :: b2[k] == b1[k])
    && (forall k | IntStart(ps, |ps|) <= k < |b1| :: b2[k] == b1[k])
  }

  /** Go: the loop that fills in the descriptors and the lookup tables; kept counts the imports. */
  method FillPieces(start: bytes, base: u32, ps: seq<Piece>, intStart: seq<nat>, dllOff: map<bytes, nat>, nameOff: map<bytes, nat>)
    returns (buf: bytes, kept: nat)
    requires |intStart| == |ps| && forall i | 0 <= i < |ps| :: intStart[i] == IntStart(ps, i)
    requires Ready(start, base, ps, dllOff, nameOff)
    ensures |buf| == |start| && kept == Pos(ps, |ps|)
    ensures forall i | 0 <= i < |ps| :: PieceAt(buf, base, ps, i, dllOff, nameOff)
    ensures SameEnds(start, buf, ps)
  {
    hide IntStart, PieceAt, Ready, Pos;
    buf, kept := start, 0;
    NoPieces(start, base, ps, dllOff, nameOff);
    for i := 0 to |ps|
      invariant |buf| == |start| && kept == Pos(ps, i)
      invariant Ready(buf, base, ps, dllOff, nameOff)
      invariant forall k | 0 <= k < i :: PieceAt(buf, base, ps, k, dllOff, nameOff)
      invariant SameEnds(start, buf, ps)
    {
      ghost var before := buf;
      buf := FillPiece(buf, base, ps, i, intStart[i], dllOff, nameOff);
      FilledNext(before, buf, base, ps, i, dllOff, nameOff);
      kept := kept + |ps[i].imps|;
      assert kept == Pos(ps, i + 1) by { PosStep(ps, i); }
    }
  }

  lemma PosStep(ps: seq<Piece>, i: nat)
    requires i < |ps|
    ensures Pos(ps, i + 1) == Pos(ps, i) + |ps[i].imps|
  {}

  lemma NoPieces(buf: bytes, base: u32, ps: seq<Piece>, dllOff: map<bytes, nat>, nameOff: map<bytes, nat>)
    requires Ready(buf, base, ps, dllOff, nameOff)
    ensures 20 * |ps| + 20 <= IntStart(ps, |ps|) <= |buf| && Pos(ps, 0) == 0
  {
    hide IntStart;
    IntStartsApart(ps, |ps|, |ps|);
  }

  /** Filling in piece i leaves the earlier pieces, the terminator and the strings alone. */
  lemma FilledNext(b1: bytes, b2: bytes, base: u32, ps: seq<Piece>, i: nat, dllOff: map<bytes, nat>, nameOff: map<bytes, nat>)
    requires i < |ps| && |b1| == |b2| && Ready(b1, base, ps, dllOff, nameOff)
    requires forall k | 0 <= k < |b1| && !(20 * i <= k < 20 * i + 20)
               && !(IntStart(ps, i) <= k < IntStart(ps, i) + 4 * (|ps[i].imps| + 1)) :: b2[k] == b1[k]
    ensures Ready(b2, base, ps, dllOff, nameOff)
    ensures forall n | 0 <= n < i :: PieceAt(b1, base, ps, n, dllOff, nameOff) ==> PieceAt(b2, base, ps, n, dllOff, nameOff)
    ensures SameEnds(b1, b2, ps)
  {
    hide IntStart, PieceAt;
    IntStartsApart(ps, i, |ps|);
    forall n | 0 <= n < i && PieceAt(b1, base, ps, n, dllOff, nameOff)
      ensures PieceAt(b2, base, ps, n, dllOff, nameOff)
    {
      IntStartsApart(ps, n, i);
      PieceAtKept(b1, b2, base, ps, n, dllOff, nameOff);
    }
  }

  // ---------------------------------------------------------------- the whole section

  /** Where the name of a DLL lies. */
  function DllOffset(ps: seq<Piece>, dll: bytes): nat { IntStart(ps, |ps|) + AreaBefore(PieceDlls(ps, |ps|), dll, 0) }

  /** Where the hint/name entries start, and where that of a name lies. */
  function NamesFrom(ps: seq<Piece>): nat { IntStart(ps, |ps|) + StringArea(PieceDlls(ps, |ps|), 0) }
  function NameOffset(ps: seq<Piece>, name: bytes): nat { NamesFrom(ps) + AreaBefore(FuncNames(Flat(ps, 0)), name, 2) }

  /** A lookup entry w of the directory ps, which is buf at address base, describes im. */
  ghost predicate EntryWord(buf: bytes, base: u32, ps: seq<Piece>, w: u32, im: Import) {
    if im.name == [] then w == ORDINAL_FLAG + im.ordinal
    else w == base + NameOffset(ps, im.name) > base && HasEntry(buf, 2, im.name, NameOffset(ps, im.name))
  }

  ghost predicate DescribesPiece(buf: bytes, base: u32, ps: seq<Piece>, i: nat)
    requires i < |ps|
  {
    var d, io, s := 20 * i, IntStart(ps, i), ps[i].imps;
    && d + 20 <= |buf| && io + 4 * (|s| + 1) <= |buf|
    && LE32(buf, d) == base + io
    && LE32(buf, d + 4) == 0 && LE32(buf, d + 8) == 0
    && LE32(buf, d + 12) == base + DllOffset(ps, ps[i].dll) && HasEntry(buf, 0, ps[i].dll, DllOffset(ps, ps[i].dll))
    && LE32(buf, d + 16) == ps[i].ft
    && (forall j | 0 <= j < |s| :: EntryWord(buf, base, ps, LE32(buf, io + 4 * j), s[j]))
    && LE32(buf, io + 4 * |s|) == 0
  }

  ghost predicate EmptyDescriptor(buf: bytes, d: nat) {
    d + 20 <= |buf| && forall k | d <= k < d + 20 :: buf[k] == 0
  }

  lemma ZeroWord(buf: bytes, o: nat)
    requires o + 4 <= |buf| && buf[o] == 0 && buf[o + 1] == 0 && buf[o + 2] == 0 && buf[o + 3] == 0
    ensures LE32(buf, o) == 0
  {}

  /** buf, loaded at address base, is an import directory with exactly the descriptors ps. */
  ghost predicate Describes(buf: bytes, base: u32, ps: seq<Piece>) {
    && (forall i | 0 <= i < |ps| :: DescribesPiece(buf, base, ps, i))
    && EmptyDescriptor(buf, 20 * |ps|)
  }

  /**
   * The interned DLL names and hint/name entries occupy separate areas behind the tables, each string where it should
   * lie.
   */
  ghost predicate LayoutSafe(buf: bytes, ps: seq<Piece>, mid: nat, dllOff: map<bytes, nat>, nameOff: map<bytes, nat>) {
    && (forall s | s in dllOff :: dllOff[s] == DllOffset(ps, s))
    && (forall s | s in nameOff :: nameOff[s] == NameOffset(ps, s))
    && IntStart(ps, |ps|) <= mid <= |buf|
    && Interned(buf, IntStart(ps, |ps|), 0, dllOff)
    && Interned(buf, mid, 2, nameOff)
    && forall s | s in dllOff :: dllOff[s] + |s| + 1 <= mid
  }

  /** The size of the section. */
  function SectionSpace(ps: seq<Piece>): nat {
    NamesFrom(ps) + StringArea(FuncNames(Flat(ps, 0)), 2)
  }

  /** Go: rebuildImports from the layout on. */
  method BuildSection(ps: seq<Piece>, base: u32) returns (buf: bytes, kept: nat, ghost mid: nat,
                                                          dllOff: map<bytes, nat>, nameOff: map<bytes, nat>)
    requires CleanNames(ps) && base + SectionSpace(ps) <= W32
    ensures |buf| == SectionSpace(ps)
    ensures Describes(buf, base, ps)
    ensures LayoutSafe(buf, ps, mid, dllOff, nameOff)
    ensures kept == |Flat(ps, 0)|
  {
    hide IntStart, Interned, CleanNames, PieceAt, Describes, SameEnds, NamesIn, LayoutSafe, Flat, Pos, Ready, Holding,
         StringArea, PieceDlls, FuncNames;
    var intStart, nameStart := PlanInts(ps);
    IntStartsApart(ps, 0, |ps|);
    ghost var half := IntStartEven(ps, |ps|);
    var zeros := seq(nameStart, _ => 0);
    var withDlls, withNames;
    withDlls, dllOff := InternDlls(ps, zeros);
    withNames, nameOff := InternNames(ps, withDlls);
    mid := |withDlls|;
    HoldingAll(withDlls, withNames, nameStart, ps, dllOff, nameOff);
    StringsReady(zeros, withDlls, withNames, base, ps, dllOff, nameOff);
    buf, kept := FillPieces(withNames, base, ps, intStart, dllOff, nameOff);
    SafeAfterFilling(withDlls, withNames, buf, ps, dllOff, nameOff);
    DescribesFilled(zeros, withNames, buf, base, ps, mid, dllOff, nameOff);
    AllFlat(ps);
  }

  lemma {:induction false} IntStartEven(ps: seq<Piece>, i: nat) returns (half: nat)
    requires i <= |ps|
    ensures IntStart(ps, i) == 2 * half
  {
    hide IntStart;
    if i == 0 {
      IntStartBase(ps);
      half := 10 * (|ps| + 1);
    } else {
      half := IntStartEven(ps, i - 1);
      IntStartStep(ps, i - 1);
      half := half + 2 * (|ps[i - 1].imps| + 1);
    }
  }

  lemma AllFlat(ps: seq<Piece>)
    ensures |Flat(ps, 0)| == Pos(ps, |ps|)
  {
    hide Pos;
    FlatSuffix(ps, |ps|);
  }

  lemma StringsReady(zeros: bytes, withDlls: bytes, withNames: bytes, base: u32, ps: seq<Piece>,
                     dllOff: map<bytes, nat>, nameOff: map<bytes, nat>)
    requires |zeros| == IntStart(ps, |ps|) && zeros <= withDlls <= withNames
    requires base + |withNames| <= W32
    requires Interned(withDlls, |zeros|, 0, dllOff) && Interned(withNames, |withDlls|, 2, nameOff)
    requires forall i | 0 <= i < |ps| :: ps[i].dll in dllOff && NamesIn(ps[i], nameOff)
    ensures Ready(withNames, base, ps, dllOff, nameOff)
  {
    hide HasEntry, IntStart, NamesIn;
    forall s | s in dllOff ensures dllOff[s] < |withNames| { EntryEnds(withDlls, 0, s, dllOff[s]); }
    forall s | s in nameOff ensures nameOff[s] < |withNames| { EntryEnds(withNames, 2, s, nameOff[s]); }
  }

  lemma InternedSame(b1: bytes, b2: bytes, lo: nat, from: nat, hint: nat, m: map<bytes, nat>)
    requires Interned(b1, lo, hint, m) && |b1| == |b2| && from <= lo
    requires forall k | from <= k < |b1| :: b2[k] == b1[k]
    ensures Interned(b2, lo, hint, m)
  {
    hide HasEntry;
    forall s | s in m ensures HasEntry(b2, hint, s, m[s]) {
      EntrySame(b1, b2, from, hint, s, m[s]);
    }
  }

  lemma EntrySame(b1: bytes, b2: bytes, from: nat, hint: nat, s: bytes, off: nat)
    requires HasEntry(b1, hint, s, off) && |b1| == |b2| && from <= off
    requires forall k | from <= k < |b1| :: b2[k] == b1[k]
    ensures HasEntry(b2, hint, s, off)
  {}

  lemma SafeAfterFilling(withDlls: bytes, withNames: bytes, buf: bytes, ps: seq<Piece>,
                         dllOff: map<bytes, nat>, nameOff: map<bytes, nat>)
    requires IntStart(ps, |ps|) <= |withDlls| && withDlls <= withNames
    requires Interned(withDlls, IntStart(ps, |ps|), 0, dllOff) && Interned(withNames, |withDlls|, 2, nameOff)
    requires SameEnds(withNames, buf, ps) && forall s | s in nameOff :: nameOff[s] == NameOffset(ps, s)
    requires forall s | s in dllOff :: dllOff[s] == DllOffset(ps, s)
    ensures LayoutSafe(buf, ps, |withDlls|, dllOff, nameOff)
  {
    hide IntStart, HasEntry;
    InternedKept(withDlls, withNames, IntStart(ps, |ps|), 0, dllOff);
    InternedSame(withNames, buf, IntStart(ps, |ps|), IntStart(ps, |ps|), 0, dllOff);
    InternedSame(withNames, buf, |withDlls|, IntStart(ps, |ps|), 2, nameOff);
    forall s | s in dllOff ensures dllOff[s] + |s| + 1 <= |withDlls| { EntryEnds(withDlls, 0, s, dllOff[s]); }
  }

  lemma DescribesFilled(zeros: bytes, withNames: bytes, buf: bytes, base: u32, ps: seq<Piece>, mid: nat,
                        dllOff: map<bytes, nat>, nameOff: map<bytes, nat>)
    requires |zeros| == IntStart(ps, |ps|) && zeros <= withNames && forall k | 0 <= k < |zeros| :: zeros[k] == 0
    requires 20 * |ps| + 20 <= IntStart(ps, |ps|)
    requires base + |withNames| <= W32
    requires SameEnds(withNames, buf, ps) && LayoutSafe(buf, ps, mid, dllOff, nameOff)
    requires forall i | 0 <= i < |ps| :: PieceAt(buf, base, ps, i, dllOff, nameOff)
    ensures Describes(buf, base, ps)
  {
    hide IntStart, PieceAt, Interned, DescribesPiece;
    forall i | 0 <= i < |ps| ensures DescribesPiece(buf, base, ps, i) {
      PieceDescribed(buf, base, ps, i, mid, dllOff, nameOff);
    }
    forall k | 20 * |ps| <= k < 20 * |ps| + 20 ensures buf[k] == 0 {
      assert buf[k] == withNames[k] == zeros[k];
    }
  }

  lemma PieceDescribed(buf: bytes, base: u32, ps: seq<Piece>, i: nat, mid: nat, dllOff: map<bytes, nat>, nameOff: map<bytes, nat>)
    requires i < |ps| && base + |buf| <= W32
    requires LayoutSafe(buf, ps, mid, dllOff, nameOff) && 20 * |ps| + 20 <= IntStart(ps, |ps|)
    requires PieceAt(buf, base, ps, i, dllOff, nameOff)
    ensures DescribesPiece(buf, base, ps, i)
  {
    hide IntStart, HasEntry, LE32, Interned, EntryWord, IntWord, LayoutSafe;
    var s, io := ps[i].imps, IntStart(ps, i);
    DllDescribed(buf, ps, i, mid, dllOff, nameOff);
    forall j | 0 <= j < |s| ensures EntryWord(buf, base, ps, LE32(buf, io + 4 * j), s[j]) {
      WordDescribed(buf, base, ps, s[j], mid, dllOff, nameOff);
    }
  }

  lemma DllDescribed(buf: bytes, ps: seq<Piece>, i: nat, mid: nat, dllOff: map<bytes, nat>, nameOff: map<bytes, nat>)
    requires i < |ps| && LayoutSafe(buf, ps, mid, dllOff, nameOff) && ps[i].dll in dllOff
    ensures HasEntry(buf, 0, ps[i].dll, dllOff[ps[i].dll]) && dllOff[ps[i].dll] == DllOffset(ps, ps[i].dll)
  {
    hide HasEntry, IntStart;
  }

  lemma WordDescribed(buf: bytes, base: u32, ps: seq<Piece>, im: Import, mid: nat,
                      dllOff: map<bytes, nat>, nameOff: map<bytes, nat>)
    requires base + |buf| <= W32
    requires LayoutSafe(buf, ps, mid, dllOff, nameOff) && 20 * |ps| + 20 <= IntStart(ps, |ps|)
    requires im.name != [] ==> im.name in nameOff
    ensures IntWord(base, nameOff, im) < W32 && EntryWord(buf, base, ps, IntWord(base, nameOff, im), im)
  {
    hide HasEntry, IntStart;
    if im.name != [] {
      EntryEnds(buf, 2, im.name, nameOff[im.name]);
    }
  }
}
