/**
 * What loading an image means: the loader walks the import directory, asks a resolver for each import, and stores the
 * answers in the slots of the mapped image.
 */
module Loader {
  import opened Bytes
  import opened Image
  import opened ImportReader
  import opened Runs
  import opened Layout
  import opened Appending
  import opened RoundTrip

  datatype Symbol = ByName(name: bytes) | ByOrdinal(ordinal: u16)

  /** What the loader asks the resolver for. */
  datatype Request = Request(dll: bytes, sym: Symbol)

  /** A request and the slot that receives the answer. */
  datatype Binding = Binding(slot: u32, req: Request)

  type Resolver = Request -> u32

  function SymbolOf(v: View, x: u32): Option<Symbol> {
    if x >= ORDINAL_FLAG then Some(ByOrdinal(x % 0x1_0000))
    else match CStrAt(v, x + 2)
      case None => None
      case Some(name) => Some(ByName(name))
  }

  /** The bindings of one descriptor: the lookup table runs in parallel with the slots. */
  function BindThunks(v: View, dll: bytes, lookup: u32, slot: u32, n: nat): Walk<seq<Binding>>
    decreases n
  {
    match U32At(v, lookup)
    case None => Failed
    case Some(x) =>
      if x == 0 then Done([])
      else match SymbolOf(v, x)
        case None => Failed
        case Some(sym) =>
          if n == 0 then Endless
          else Prepend([Binding(slot, Request(dll, sym))], BindThunks(v, dll, Add32(lookup, 4), Add32(slot, 4), n - 1))
  }

  /** The bindings of all descriptors from address d on, up to the empty one. */
  function BindAll(v: View, d: u32, n: nat): Walk<seq<Binding>>
    decreases n
  {
    match U32At(v, d)
    case None => Failed
    case Some(oft) =>
      var ft := FirstThunk(v, d);
      if oft == 0 && NameRva(v, d) == 0 && ft == 0 then Done([])
      else match CStrAt(v, NameRva(v, d))
        case None => Failed
        case Some(dll) =>
          match BindThunks(v, dll, if oft == 0 then ft else oft, ft, ROUND - 1)
          case Done(s) => if n == 0 then Endless else Prepend(s, BindAll(v, Add32(d, 20), n - 1))
          case Failed => Failed
          case Endless => Endless
  }

  /** The bindings of the directory at dir. */
  function BindingsAt(v: View, dir: u32): Walk<seq<Binding>> { BindAll(v, dir, ROUND - 1) }

  /** A file as the loader maps it: its sections, and below them the first bytes of the file. */
  datatype Mapping = Mapping(view: View, headers: u32)

  predicate InSection(secs: seq<Section>, rva: u32) { exists k | 0 <= k < |secs| :: Covers(secs[k], rva) }

  /** The address belongs to the mapped headers. */
  predicate InHeaders(m: Mapping, rva: u32) {
    !InSection(m.view.secs, rva) && rva < m.headers && rva < |m.view.raw|
  }

  /** The byte at an address of the mapped image before binding: file data, or zero where there is none. */
  function MappedByte(m: Mapping, rva: u32): u8 {
    match OffIn(m.view.secs, |m.view.raw|, rva)
    case Some(o) => m.view.raw[o]
    case None => if InHeaders(m, rva) then m.view.raw[rva] else 0
  }

  /** The byte at an address after the bindings bs were stored in order. */
  function LoadedByte(m: Mapping, bs: seq<Binding>, resolve: Resolver, rva: u32): u8 {
    if bs == [] then MappedByte(m, rva)
    else
      var b := bs[|bs| - 1];
      if InWord(b.slot, rva) then Enc32(resolve(b.req))[rva - b.slot]
      else LoadedByte(m, bs[..|bs| - 1], resolve, rva)
  }

  // ---------------------------------------------------------------- the reader and the loader agree

  /** The binding that the rebuilt table encodes for an import. */
  function Canonical(im: Import): Binding {
    Binding(im.slot, Request(im.dll, if im.name == [] then ByOrdinal(im.ordinal) else ByName(im.name)))
  }

  function CanonicalAll(s: seq<Import>): (r: seq<Binding>)
    ensures |r| == |s|
  {
    seq(|s|, k requires 0 <= k < |s| => Canonical(s[k]))
  }

  /** b is im's binding; the reader shows an import by the empty name like one by ordinal zero. */
  predicate BindingOf(b: Binding, im: Import) {
    b == Canonical(im) || (im.name == [] && im.ordinal == 0 && b == Binding(im.slot, Request(im.dll, ByName([]))))
  }

  ghost predicate BindingsOf(bs: seq<Binding>, s: seq<Import>) {
    |bs| == |s| && forall k | 0 <= k < |s| :: BindingOf(bs[k], s[k])
  }

  lemma EntrySymbol(v: View, dll: bytes, x: u32, slot: u32, desc: nat)
    ensures Entry(v, dll, x, slot, desc).Some? <==> SymbolOf(v, x).Some?
    ensures Entry(v, dll, x, slot, desc).Some? ==>
              BindingOf(Binding(slot, Request(dll, SymbolOf(v, x).value)), Entry(v, dll, x, slot, desc).value)
  {
    hide CStrAt;
  }

  ghost predicate SameWalk(b: Walk<seq<Binding>>, w: Walk<seq<Import>>) {
    && (b.Done? <==> w.Done?) && (b.Failed? <==> w.Failed?)
    && (b.Done? ==> BindingsOf(b.value, w.value))
  }

  lemma SameWalkPrepend(bs: seq<Binding>, s: seq<Import>, b: Walk<seq<Binding>>, w: Walk<seq<Import>>)
    requires BindingsOf(bs, s) && SameWalk(b, w)
    ensures SameWalk(Prepend(bs, b), Prepend(s, w))
  {
    hide BindingOf;
  }

  lemma {:induction false} ThunksAgree(v: View, dll: bytes, lookup: u32, slot: u32, desc: nat, n: nat)
    ensures SameWalk(BindThunks(v, dll, lookup, slot, n), Thunks(v, dll, lookup, slot, desc, n))
    decreases n
  {
    hide U32At, Entry, SymbolOf, BindingOf, SameWalk, BindingsOf;
    var x := U32At(v, lookup);
    WalkEnds();
    if x.Some? && x.value != 0 {
      EntrySymbol(v, dll, x.value, slot, desc);
      var im := Entry(v, dll, x.value, slot, desc);
      if im.Some? && n > 0 {
        var next, after := Add32(lookup, 4), Add32(slot, 4);
        ThunksAgree(v, dll, next, after, desc, n - 1);
        OneBinding(Binding(slot, Request(dll, SymbolOf(v, x.value).value)), im.value);
        SameWalkPrepend([Binding(slot, Request(dll, SymbolOf(v, x.value).value))], [im.value],
                        BindThunks(v, dll, next, after, n - 1), Thunks(v, dll, next, after, desc, n - 1));
      }
    }
  }

  lemma WalkEnds()
    ensures SameWalk(Done([]), Done([])) && SameWalk(Failed, Failed) && SameWalk(Endless, Endless)
  {}

  lemma OneBinding(b: Binding, im: Import)
    requires BindingOf(b, im)
    ensures BindingsOf([b], [im])
  {}

  /** The loader binds exactly the imports the reader lists, in the same order and to the same slots. */
  lemma {:induction false} WalksAgree(v: View, d: u32, desc: nat, n: nat)
    ensures SameWalk(BindAll(v, d, n), Descriptors(v, d, desc, n))
    decreases n
  {
    hide U32At, CStrAt, U32OrZero, Thunks, BindThunks, SameWalk, BindingsOf;
    WalkEnds();
    var oft := U32At(v, d);
    if oft.Some? {
      var dll := CStrAt(v, NameRva(v, d));
      if dll.Some? {
        var ft := FirstThunk(v, d);
        var lookup := if oft.value == 0 then ft else oft.value;
        ThunksAgree(v, dll.value, lookup, ft, desc, ROUND - 1);
        SameKinds(BindThunks(v, dll.value, lookup, ft, ROUND - 1), Thunks(v, dll.value, lookup, ft, desc, ROUND - 1));
        var one := Thunks(v, dll.value, lookup, ft, desc, ROUND - 1);
        if one.Done? && n > 0 {
          var next := Add32(d, 20);
          WalksAgree(v, next, desc + 1, n - 1);
          SameWalkPrepend(BindThunks(v, dll.value, lookup, ft, ROUND - 1).value, one.value, BindAll(v, next, n - 1),
                          Descriptors(v, next, desc + 1, n - 1));
        }
      }
    }
  }

  lemma SameKinds(b: Walk<seq<Binding>>, w: Walk<seq<Import>>)
    requires SameWalk(b, w)
    ensures (b.Done? <==> w.Done?) && (b.Failed? <==> w.Failed?) && (b.Done? ==> BindingsOf(b.value, w.value))
  {
    hide BindingsOf;
  }

  // ---------------------------------------------------------------- bindings of a rebuilt directory

  lemma BindEntry(v: View, base: u32, at: nat, buf: bytes, ps: seq<Piece>, w: u32, im: Import)
    requires Placed(v.raw, v.secs, base, at, buf)
    requires EntryWord(buf, base, ps, w, im) && WellFormed(im) && Low(ps, base, im)
    ensures w != 0 && SymbolOf(v, w) == Some(Canonical(im).req.sym)
  {
    hide Placed, CStrAt, NulFree, NameOffset;
    if im.name != [] {
      ReadString(v, base, at, buf, w - base + 2, im.name);
    }
  }

  lemma {:induction false} BindPiece(v: View, base: u32, at: nat, buf: bytes, ps: seq<Piece>, i: nat, j: nat, slot: u32,
                                      n: nat)
    requires Loaded(v, base, at, buf, ps) && i < |ps| && j <= |ps[i].imps| <= j + n
    requires j < |ps[i].imps| ==> slot == ps[i].imps[j].slot
    requires AllLow(ps, base, ps[i].imps[j..])
    ensures base + IntStart(ps, i) + 4 * j < W32
    ensures BindThunks(v, ps[i].dll, base + IntStart(ps, i) + 4 * j, slot, n) == Done(CanonicalAll(ps[i].imps[j..]))
    decreases |ps[i].imps| - j
  {
    hide Loaded, Placed, U32At, SymbolOf, EntryWord, WellFormed, LE32, IntStart, Low, AllLow;
    PieceFacts(v, base, at, buf, ps, i);
    var s, io := ps[i].imps, IntStart(ps, i);
    ReadWord(v, base, at, buf, io + 4 * j);
    if j < |s| {
      LowStep(ps, base, s, j);
      BindEntry(v, base, at, buf, ps, LE32(buf, io + 4 * j), s[j]);
      var next := Add32(slot, 4);
      if j + 1 < |s| { assert Joined(s[j], s[j + 1]); }
      BindPiece(v, base, at, buf, ps, i, j + 1, next, n - 1);
      assert CanonicalAll(s[j..]) == [Canonical(s[j])] + CanonicalAll(s[j + 1..]);
    }
  }

  lemma {:induction false} BindPieces(v: View, base: u32, at: nat, buf: bytes, ps: seq<Piece>, i: nat, n: nat)
    requires Loaded(v, base, at, buf, ps) && i <= |ps| <= i + n && AllLow(ps, base, Flat(ps, i))
    ensures base + 20 * i < W32
    ensures BindAll(v, base + 20 * i, n) == Done(CanonicalAll(Flat(ps, i)))
    decreases |ps| - i
  {
    hide Loaded, U32At, U32OrZero, CStrAt, BindThunks, IntStart, Canonical, AllLow;
    if i == |ps| {
      ReadTerminator(v, base, at, buf, ps);
    } else {
      LowConcat(ps, base, ps[i].imps, Flat(ps, i + 1));
      ReadDescriptor(v, base, at, buf, ps, i);
      FirstSlot(v, base, at, buf, ps, i);
      FewEntries(v, base, at, buf, ps, i);
      BindPiece(v, base, at, buf, ps, i, 0, ps[i].ft, ROUND - 1);
      assert ps[i].imps[0..] == ps[i].imps;
      BindPieces(v, base, at, buf, ps, i + 1, n - 1);
      assert CanonicalAll(ps[i].imps + Flat(ps, i + 1)) == CanonicalAll(ps[i].imps) + CanonicalAll(Flat(ps, i + 1));
    }
  }

  // ---------------------------------------------------------------- storing answers

  /** The bindings whose slot is not in bad. */
  function KeptBindings(bs: seq<Binding>, bad: set<u32>): seq<Binding> {
    if bs == [] then []
    else
      var k := |bs| - 1;
      KeptBindings(bs[..k], bad) + (if bs[k].slot in bad then [] else [bs[k]])
  }

  lemma {:induction false} KeptAgree(bs: seq<Binding>, s: seq<Import>, bad: set<u32>)
    requires BindingsOf(bs, s)
    ensures BindingsOf(KeptBindings(bs, bad), Kept(s, bad))
    decreases |s|
  {
    hide BindingOf;
    if s == [] {
    } else {
      var k := |s| - 1;
      KeptAgree(bs[..k], s[..k], bad);
      SlotsAgree(bs[k], s[k]);
    }
  }

  lemma SlotsAgree(b: Binding, im: Import)
    requires BindingOf(b, im)
    ensures b.slot == im.slot && b.req.dll == im.dll
  {}

  /** rva lies in none of the given slots. */
  ghost predicate OutsideSlots(bad: set<u32>, rva: int) { forall s | s in bad :: !InWord(s, rva) }

  /** The binding whose answer is stored last over an address. */
  function LastBinding(bs: seq<Binding>, rva: u32): Option<Binding> {
    if bs == [] then None
    else
      var b := bs[|bs| - 1];
      if InWord(b.slot, rva) then Some(b) else LastBinding(bs[..|bs| - 1], rva)
  }

  /** Leaving out bindings changes nothing outside their slots. */
  lemma {:induction false} LastOutside(bs: seq<Binding>, bad: set<u32>, rva: u32)
    requires OutsideSlots(bad, rva)
    ensures LastBinding(KeptBindings(bs, bad), rva) == LastBinding(bs, rva)
  {
    if bs == [] {
    } else {
      var k := |bs| - 1;
      LastOutside(bs[..k], bad, rva);
      var u := KeptBindings(bs[..k], bad);
      if bs[k].slot in bad {
        assert u + [] == u;
      } else {
        assert (u + [bs[k]])[..|u|] == u;
      }
    }
  }

  lemma {:induction false} LastBindingMeans(bs: seq<Binding>, rva: u32)
    ensures LastBinding(bs, rva) == None <==> forall k | 0 <= k < |bs| :: !InWord(bs[k].slot, rva)
    ensures LastBinding(bs, rva).Some? ==> LastBinding(bs, rva).value in bs && InWord(LastBinding(bs, rva).value.slot, rva)
  {
    hide InWord;
    if bs != [] {
      var n := |bs| - 1;
      LastBindingMeans(bs[..n], rva);
      assert forall k | 0 <= k < n :: bs[..n][k] == bs[k];
    }
  }

  /** What a byte holds after loading depends on the last binding over it alone. */
  lemma {:induction false} LoadedIsLast(m: Mapping, bs: seq<Binding>, resolve: Resolver, rva: u32)
    ensures LastBinding(bs, rva) == None ==> LoadedByte(m, bs, resolve, rva) == MappedByte(m, rva)
    ensures LastBinding(bs, rva).Some? ==>
              var b := LastBinding(bs, rva).value;
              InWord(b.slot, rva) && LoadedByte(m, bs, resolve, rva) == Enc32(resolve(b.req))[rva - b.slot]
  {
    hide MappedByte, Enc32;
    if bs != [] { LoadedIsLast(m, bs[..|bs| - 1], resolve, rva); }
  }

  /** Whatever the resolver answers, the byte is the same after loading either way. */
  ghost predicate SameLoad(m1: Mapping, bs1: seq<Binding>, m2: Mapping, bs2: seq<Binding>, rva: u32) {
    forall resolve: Resolver :: LoadedByte(m1, bs1, resolve, rva) == LoadedByte(m2, bs2, resolve, rva)
  }

  /**
   * Two lists of bindings leave the same byte at an address under every resolver if and only if the last binding over
   * it is the same in both, or there is none and the mapped bytes are the same.
   */
  lemma SameLoadIff(m1: Mapping, bs1: seq<Binding>, m2: Mapping, bs2: seq<Binding>, rva: u32)
    ensures SameLoad(m1, bs1, m2, bs2, rva)
            <==> LastBinding(bs1, rva) == LastBinding(bs2, rva)
                 && (LastBinding(bs1, rva) == None ==> MappedByte(m1, rva) == MappedByte(m2, rva))
  {
    hide MappedByte, Enc32, LoadedByte, LastBinding, InWord;
    var same := LastBinding(bs1, rva) == LastBinding(bs2, rva)
                && (LastBinding(bs1, rva) == None ==> MappedByte(m1, rva) == MappedByte(m2, rva));
    if same {
      forall resolve: Resolver ensures LoadedByte(m1, bs1, resolve, rva) == LoadedByte(m2, bs2, resolve, rva) {
        LoadedIsLast(m1, bs1, resolve, rva);
        LoadedIsLast(m2, bs2, resolve, rva);
      }
    } else {
      var resolve := Distinguish(m1, bs1, m2, bs2, rva);
      assert LoadedByte(m1, bs1, resolve, rva) != LoadedByte(m2, bs2, resolve, rva);
    }
  }

  /** What the resolver's answer to the last binding puts at an address; x where there is no such binding. */
  function Stored(b: Option<Binding>, resolve: Resolver, rva: u32, x: u8): u8
    requires b.Some? ==> InWord(b.value.slot, rva)
  {
    if b == None then x else Enc32(resolve(b.value.req))[rva - b.value.slot]
  }

  lemma Distinguish(m1: Mapping, bs1: seq<Binding>, m2: Mapping, bs2: seq<Binding>, rva: u32) returns (resolve: Resolver)
    requires LastBinding(bs1, rva) == LastBinding(bs2, rva)
             ==> LastBinding(bs1, rva) == None && MappedByte(m1, rva) != MappedByte(m2, rva)
    ensures LoadedByte(m1, bs1, resolve, rva) != LoadedByte(m2, bs2, resolve, rva)
  {
    hide MappedByte, Enc32, LoadedByte, LastBinding, Stored, InWord;
    LastBindingMeans(bs1, rva);
    LastBindingMeans(bs2, rva);
    resolve := TellApart(LastBinding(bs1, rva), MappedByte(m1, rva), LastBinding(bs2, rva), MappedByte(m2, rva), rva);
    LoadedIsStored(m1, bs1, resolve, rva);
    LoadedIsStored(m2, bs2, resolve, rva);
  }

  lemma LoadedIsStored(m: Mapping, bs: seq<Binding>, resolve: Resolver, rva: u32)
    ensures LastBinding(bs, rva).Some? ==> InWord(LastBinding(bs, rva).value.slot, rva)
    ensures LoadedByte(m, bs, resolve, rva) == Stored(LastBinding(bs, rva), resolve, rva, MappedByte(m, rva))
  {
    hide MappedByte, Enc32, LoadedByte, LastBinding;
    LoadedIsLast(m, bs, resolve, rva);
  }

  /** Different last bindings can be told apart: by their requests, by their places in the word, or from no binding. */
  lemma TellApart(b1: Option<Binding>, x1: u8, b2: Option<Binding>, x2: u8, rva: u32) returns (resolve: Resolver)
    requires (b1.Some? ==> InWord(b1.value.slot, rva)) && (b2.Some? ==> InWord(b2.value.slot, rva))
    requires b1 == b2 ==> b1 == None && x1 != x2
    ensures Stored(b1, resolve, rva, x1) != Stored(b2, resolve, rva, x2)
  {
    hide Enc32, Word;
    var d: u8 := if (if b1 == None then x1 else x2) == 0 then 1 else 0;
    var one := WordOf(d, d, d, d);
    if b1.Some? && b2.Some? && b1.value.req != b2.value.req {
      var other := WordOf(1 - d, 1 - d, 1 - d, 1 - d);
      resolve := q => if q == b1.value.req then one else other;
      EncBytes(one, d, d, d, d);
      EncBytes(other, 1 - d, 1 - d, 1 - d, 1 - d);
    } else if b1.Some? && b2.Some? {
      var digits := WordOf(0, 1, 2, 3);
      resolve := q => digits;
      EncBytes(digits, 0, 1, 2, 3);
    } else {
      resolve := q => one;
      EncBytes(one, d, d, d, d);
    }
  }

  lemma WordOf(b0: u8, b1: u8, b2: u8, b3: u8) returns (v: u32)
    ensures v == Word(b0, b1, b2, b3)
  {
    v := Word(b0, b1, b2, b3);
  }

  /** Whatever the resolver answers, the byte is still the mapped one after the bindings were stored. */
  ghost predicate Unstored(m: Mapping, bs: seq<Binding>, rva: u32) {
    forall resolve: Resolver :: LoadedByte(m, bs, resolve, rva) == MappedByte(m, rva)
  }

  /**
   * A byte of a redirected slot is safe from the loader, whatever the resolver answers, if and only if no binding
   * stores into it.
   */
  lemma KeptIffNothingStored(m: Mapping, bs: seq<Binding>, rva: u32)
    ensures Unstored(m, bs, rva) <==> forall k | 0 <= k < |bs| :: !InWord(bs[k].slot, rva)
  {
    hide MappedByte, InWord, LastBinding;
    LastBindingMeans(bs, rva);
    NoneStored(m, rva);
    SameLoadIff(m, bs, m, [], rva);
  }

  lemma NoneStored(m: Mapping, rva: u32)
    ensures LastBinding([], rva) == None && forall resolve: Resolver :: LoadedByte(m, [], resolve, rva) == MappedByte(m, rva)
  {
    hide MappedByte;
  }
}
