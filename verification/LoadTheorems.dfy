/** Loading a patched image means the same as loading the original, except at the redirected slots. */
module LoadTheorems {
  import opened Bytes
  import opened Align
  import opened Rebuild
  import opened Image
  import opened RawImage
  import opened Appending
  import opened ImportReader
  import opened Runs
  import opened Profiles
  import opened Redirecting
  import opened Patcher
  import opened PatchTheorems
  import opened RoundTrip
  import opened Loader

  /** The bindings of an image: none when the import directory is absent. */
  function Bindings(b: bytes, h: Header): Walk<seq<Binding>>
    requires HeaderInFile(b, h)
  {
    var dir := DataDirRva(b, h, 1);
    if dir == 0 then Done([]) else BindingsAt(ViewOf(b, h), dir)
  }

  /** The file as the loader maps it. */
  function MappingOf(b: bytes, h: Header): Mapping
    requires HeaderInFile(b, h)
  {
    Mapping(ViewOf(b, h), LE32(b, h.optOff + OH_SIZE_OF_HEADERS))
  }

  /** The byte at an address after loading; None when the import directory cannot be walked. */
  ghost function AfterLoading(b: bytes, h: Header, resolve: Resolver, rva: u32): Option<u8> {
    if !HeaderInFile(b, h) then None
    else match Bindings(b, h)
      case Done(bs) => Some(LoadedByte(MappingOf(b, h), bs, resolve, rva))
      case Failed => None
      case Endless => None
  }

  /** The byte at an address inside the word v stored at a slot. */
  function SlotByte(v: u32, slot: int, rva: int): Option<u8> {
    if InWord(slot, rva) then Some(Enc32(v)[rva - slot]) else None
  }

  /** The bindings of an image correspond to the imports the reader lists. */
  lemma BindingsMatchImports(b: bytes, info: Info)
    requires OpenImage(b) == Some(info) && HeaderInFile(b, info.h)
    ensures Bindings(b, info.h).Done? && BindingsOf(Bindings(b, info.h).value, info.imports)
  {
    hide OpenImage, Descriptors, BindAll, DataDirRva, BindingOf;
    OpenFacts(b, info);
    if DataDirRva(b, info.h, 1) != 0 {
      WalksAgree(ViewOf(b, info.h), DataDirRva(b, info.h, 1), 0, ROUND - 1);
    }
  }

  /** The bindings of a patched image: the survivors', in order. */
  lemma PatchedBindings(raw: bytes, out: bytes, info: Info, prof: Profile, sec: bytes, ps: seq<Piece>)
    requires PatchOf(raw, out, info, prof, sec, ps)
    ensures HeaderInFile(out, Grown(info.h))
    ensures Bindings(out, Grown(info.h)) == Done(CanonicalAll(Kept(info.imports, BadOf(info, prof))))
  {
    hide PatchSuccess, Loaded, BindAll, DataDirRva, Kept, BadSlots, Sections, NextRva, NextRaw, Flat, Canonical,
         CanonicalAll, AllLow, NamesLow;
    DirectoryLoaded(raw, out, info, prof, sec, ps);
    LowNames(Kept(info.imports, BadOf(info, prof)), ps, NextRva(Sections(raw, info.h), info.h));
    FewDescriptors(ViewOf(out, Grown(info.h)), NextRva(Sections(raw, info.h), info.h), NextRaw(Sections(raw, info.h), info.h),
                   sec, ps);
    BindPieces(ViewOf(out, Grown(info.h)), NextRva(Sections(raw, info.h), info.h), NextRaw(Sections(raw, info.h), info.h),
               sec, ps, 0, ROUND - 1);
    SplitFlat(Kept(info.imports, BadOf(info, prof)), ps);
  }

  lemma SplitFlat(s: seq<Import>, ps: seq<Piece>)
    requires RunSplit(s, ps)
    ensures Flat(ps, 0) == s
  {
    hide Flat, IsRun, Apart;
  }

  // ---------------------------------------------------------------- requests

  /** An import by the empty name, which the reader cannot tell from an import by ordinal. */
  predicate ByEmptyName(b: Binding) { b.req.sym == ByName([]) }

  /** The survivors' bindings are rebuilt as they were exactly when none of them is by the empty name. */
  lemma RebuiltIffNoEmptyName(bs: seq<Binding>, s: seq<Import>)
    requires BindingsOf(bs, s)
    ensures CanonicalAll(s) == bs <==> forall k | 0 <= k < |bs| :: !ByEmptyName(bs[k])
  {
    forall k | 0 <= k < |bs| ensures CanonicalAll(s)[k] == bs[k] <==> !ByEmptyName(bs[k]) {
      CanonicalNotEmpty(bs[k], s[k]);
    }
    if forall k | 0 <= k < |bs| :: !ByEmptyName(bs[k]) {
      assert CanonicalAll(s) == bs;
    }
  }

  lemma CanonicalNotEmpty(b: Binding, im: Import)
    requires BindingOf(b, im)
    ensures Canonical(im) == b <==> !ByEmptyName(b)
  {}

  /** The survivors and their bindings in both images. */
  lemma SurvivorsMatch(raw: bytes, out: bytes, info: Info, prof: Profile, sec: bytes, ps: seq<Piece>)
    requires PatchOf(raw, out, info, prof, sec, ps)
    ensures HeaderInFile(raw, info.h) && HeaderInFile(out, Grown(info.h)) && Bindings(raw, info.h).Done?
    ensures BindingsOf(KeptBindings(Bindings(raw, info.h).value, BadOf(info, prof)), Kept(info.imports, BadOf(info, prof)))
    ensures Bindings(out, Grown(info.h)) == Done(CanonicalAll(Kept(info.imports, BadOf(info, prof))))
  {
    hide Rewritten, OpenImage, Bindings, Kept, BadSlots, KeptBindings, Sound, CanRedirect, CanonicalAll, BindingsOf,
         Sections;
    BindingsMatchImports(raw, info);
    PatchedBindings(raw, out, info, prof, sec, ps);
    KeptAgree(Bindings(raw, info.h).value, info.imports, BadOf(info, prof));
  }

  /**
   * The loader asks for the same things in the same order, only never for a redirected import, if and only if no
   * survivor is imported by the empty name.
   */
  lemma RequestsKept(raw: bytes, out: bytes, info: Info, prof: Profile, sec: bytes, ps: seq<Piece>)
    requires PatchOf(raw, out, info, prof, sec, ps)
    ensures HeaderInFile(raw, info.h) && HeaderInFile(out, Grown(info.h)) && Bindings(raw, info.h).Done?
    ensures var kept := KeptBindings(Bindings(raw, info.h).value, BadOf(info, prof));
            Bindings(out, Grown(info.h)) == Done(kept) <==> forall k | 0 <= k < |kept| :: !ByEmptyName(kept[k])
  {
    hide PatchSuccess, NamesBelow, Bindings, Kept, BadSlots, KeptBindings, ByEmptyName, CanonicalAll, BindingsOf, Sections;
    SurvivorsMatch(raw, out, info, prof, sec, ps);
    RebuiltIffNoEmptyName(KeptBindings(Bindings(raw, info.h).value, BadOf(info, prof)), Kept(info.imports, BadOf(info, prof)));
  }

  // ---------------------------------------------------------------- memory

  lemma NotInSlots(secs: seq<Section>, h: Header, len: nat, bad: set<u32>, rva: u32)
    requires SectionsOk(secs, h, len) && AllBacked(secs, bad)
    requires OffIn(secs, len, rva).Some? && OutsideSlots(bad, rva)
    ensures !InSlots(secs, h.sectAlign, bad, OffIn(secs, len, rva).value)
  {
    hide SectionsOk, SlotOff, OffIn, SlotBacked;
    if InSlots(secs, h.sectAlign, bad, OffIn(secs, len, rva).value) {
      var s :| s in bad && SlotOff(secs, h.sectAlign, s) <= OffIn(secs, len, rva).value < SlotOff(secs, h.sectAlign, s) + 4;
      SlotBytesAreSlots(secs, h, len, s, rva);
    }
  }

  /** What the memory theorems need of a patch. */
  lemma MemoryFacts(raw: bytes, out: bytes, info: Info, prof: Profile, sec: bytes, ps: seq<Piece>) returns (s: Section)
    requires PatchSuccess(raw, out, info, prof, sec, ps)
    ensures HeaderInFile(raw, info.h) && HeaderInFile(out, Grown(info.h))
    ensures SectionsOk(Sections(raw, info.h), info.h, |raw|) && |raw| <= |out|
    ensures Sections(out, Grown(info.h)) == Sections(raw, info.h) + [s]
    ensures s.va == NextRva(Sections(raw, info.h), info.h)
    ensures AllBacked(Sections(raw, info.h), BadOf(info, prof))
    ensures info.h.LastHdrEnd() + 40 <= FirstRaw(Sections(raw, info.h))
    ensures info.h.optOff + OH_DATA_DIR + 16 <= info.h.firstSect && info.h.optOff == info.h.peOff + 24
    ensures ByteFrame(raw, out, info.h, Sections(raw, info.h), BadOf(info, prof), NextRaw(Sections(raw, info.h), info.h), |sec|)
    ensures Holds(out, Sections(raw, info.h), info.h.sectAlign, PlanOf(info, prof), info.imports)
  {
    hide OpenImage, ParseHeader, SectionsOk, CanRedirect, Directory, Placed, FieldsSet, ByteFrame, AllBacked, Holds, NextRva,
         NextRaw, FirstRaw, NewSizeOfImage, BadSlots, LE16, LE32, AlignUp, DataDirRva, CStr8, Pad8, Sections;
    s := NewSection(Sections(raw, info.h), info.h, SECTION_NAME, |sec|, SECTION_CHARS);
  }

  /** A patch writes no byte at file offset i: a property of its input. */
  ghost predicate Untouched(raw: bytes, info: Info, prof: Profile, i: int)
    requires HeaderInFile(raw, info.h)
  {
    var secs := Sections(raw, info.h);
    && 0 <= i < |raw| && i < NextRaw(secs, info.h)
    && !InHeaderFields(info.h, i) && !InSlots(secs, info.h.sectAlign, BadOf(info, prof), i)
  }

  lemma UntouchedKept(raw: bytes, out: bytes, info: Info, prof: Profile, sec: bytes, ps: seq<Piece>, i: nat)
    requires PatchSuccess(raw, out, info, prof, sec, ps)
    requires HeaderInFile(raw, info.h) && Untouched(raw, info, prof, i)
    ensures i < |raw| <= |out| && out[i] == raw[i]
  {
    hide PatchSuccess, SectionsOk, AllBacked, FirstRaw, NextRva, NextRaw, BadSlots, Sections, InSlots, Holds, InHeaderFields;
    var s := MemoryFacts(raw, out, info, prof, sec, ps);
  }

  /** Where the header area ends before the first section's data, a patch writes nothing there but header fields. */
  lemma UntouchedHeaders(raw: bytes, info: Info, prof: Profile, i: nat)
    requires HeaderInFile(raw, info.h) && Sound(raw, info.h) && i < FirstRaw(Sections(raw, info.h)) && i < |raw|
    requires AllBacked(Sections(raw, info.h), BadOf(info, prof))
    ensures Untouched(raw, info, prof, i) <==> !InHeaderFields(info.h, i)
  {
    hide ParseHeader, SectionsOk, BadSlots, Sections, FirstRaw, NextRaw, SlotOff, InHeaderFields, AlignUp, SlotBacked,
         NextRva;
    var secs, h := Sections(raw, info.h), info.h;
    FirstRawBelow(secs, h, |raw|);
    if InSlots(secs, h.sectAlign, BadOf(info, prof), i) {
      var s :| s in BadOf(info, prof) && SlotOff(secs, h.sectAlign, s) <= i < SlotOff(secs, h.sectAlign, s) + 4;
      var k := SlotPlace(secs, h, |raw|, s);
      FirstRawIsMin(secs);
    }
  }

  lemma FirstRawBelow(secs: seq<Section>, h: Header, len: nat)
    requires SectionsOk(secs, h, len)
    ensures FirstRaw(secs) <= NextRaw(secs, h)
  {
    hide FirstRaw, NextRaw, SectionOk, PowerOfTwo, MaxRawEnd, MaxVEnd, NextRva;
    NextIsBehind(secs, h, len);
    FirstRawIsMin(secs);
    var k :| 0 <= k < |secs| && HasData(secs[k]);
  }

  /** The byte at rva is not one of the mapped headers that a patch writes. */
  ghost predicate HeaderSafe(raw: bytes, info: Info, prof: Profile, rva: u32)
    requires HeaderInFile(raw, info.h)
  {
    !InSection(Sections(raw, info.h), rva) && rva < MappingOf(raw, info.h).headers ==> Untouched(raw, info, prof, rva)
  }

  /** The field SizeOfHeaders keeps its value. */
  lemma HeadersKept(raw: bytes, out: bytes, info: Info, prof: Profile, sec: bytes, ps: seq<Piece>)
    requires PatchSuccess(raw, out, info, prof, sec, ps)
    requires HeaderInFile(raw, info.h) && HeaderInFile(out, Grown(info.h))
    ensures MappingOf(out, Grown(info.h)).headers == MappingOf(raw, info.h).headers
  {
    hide PatchSuccess, SectionsOk, FirstRaw, NextRva, NextRaw, BadSlots, Sections, Holds, LE32, InSlots;
    var s := MemoryFacts(raw, out, info, prof, sec, ps);
    var o := info.h.optOff + OH_SIZE_OF_HEADERS;
    HeaderOutsideSlots(Sections(raw, info.h), info.h, |raw|, BadOf(info, prof));
    SameWord(raw, out, o);
  }

  lemma HeaderOutsideSlots(secs: seq<Section>, h: Header, len: nat, bad: set<u32>)
    requires SectionsOk(secs, h, len) && AllBacked(secs, bad)
    ensures forall i | 0 <= i < h.LastHdrEnd() :: !InSlots(secs, h.sectAlign, bad, i)
    ensures h.LastHdrEnd() <= NextRaw(secs, h)
  {
    hide SectionsOk, NextRaw, SlotOff, SlotBacked, NextRva;
    NextIsBehind(secs, h, len);
    forall i | 0 <= i < h.LastHdrEnd() ensures !InSlots(secs, h.sectAlign, bad, i) {
      if InSlots(secs, h.sectAlign, bad, i) {
        var s :| s in bad && SlotOff(secs, h.sectAlign, s) <= i < SlotOff(secs, h.sectAlign, s) + 4;
        var k := SlotPlace(secs, h, len, s);
      }
    }
  }

  /** Outside the redirected slots and the header fields the mapped image has the same bytes below the new section. */
  lemma MappedSame(raw: bytes, out: bytes, info: Info, prof: Profile, sec: bytes, ps: seq<Piece>, rva: u32)
    requires PatchSuccess(raw, out, info, prof, sec, ps)
    requires HeaderInFile(raw, info.h) && HeaderInFile(out, Grown(info.h))
    requires rva < NextRva(Sections(raw, info.h), info.h) && OutsideSlots(BadOf(info, prof), rva)
    requires HeaderSafe(raw, info, prof, rva)
    ensures MappedByte(MappingOf(out, Grown(info.h)), rva) == MappedByte(MappingOf(raw, info.h), rva)
  {
    hide PatchSuccess, SectionsOk, AllBacked, FirstRaw, NextRva, NextRaw, BadSlots, OffIn, OutsideSlots, Sections, InSlots,
         Holds, LE32, Untouched, InSection, InHeaderFields;
    var s := MemoryFacts(raw, out, info, prof, sec, ps);
    var secs := Sections(raw, info.h);
    OldAddressMaps(secs, info.h, |raw|, s, |out|, rva);
    if OffIn(secs, |raw|, rva).Some? {
      DataUntouched(raw, info, prof, rva);
      UntouchedKept(raw, out, info, prof, sec, ps, OffIn(secs, |raw|, rva).value);
    } else {
      HeadersKept(raw, out, info, prof, sec, ps);
      InOldSection(secs, s, rva);
      if !InSection(secs, rva) && rva < MappingOf(raw, info.h).headers {
        UntouchedKept(raw, out, info, prof, sec, ps, rva);
      }
    }
  }

  /** A patch writes no section data outside the redirected slots. */
  lemma DataUntouched(raw: bytes, info: Info, prof: Profile, rva: u32)
    requires HeaderInFile(raw, info.h) && SectionsOk(Sections(raw, info.h), info.h, |raw|)
    requires AllBacked(Sections(raw, info.h), BadOf(info, prof)) && OutsideSlots(BadOf(info, prof), rva)
    requires info.h.LastHdrEnd() + 40 <= FirstRaw(Sections(raw, info.h)) && info.h.optOff == info.h.peOff + 24
    requires OffIn(Sections(raw, info.h), |raw|, rva).Some?
    ensures Untouched(raw, info, prof, OffIn(Sections(raw, info.h), |raw|, rva).value)
  {
    hide SectionsOk, AllBacked, FirstRaw, NextRva, NextRaw, BadSlots, OffIn, OutsideSlots, Sections, InSlots;
    MappedIsData(Sections(raw, info.h), info.h, |raw|, rva);
    NotInSlots(Sections(raw, info.h), info.h, |raw|, BadOf(info, prof), rva);
  }

  lemma InOldSection(secs: seq<Section>, s: Section, rva: u32)
    requires rva < s.va
    ensures InSection(secs + [s], rva) <==> InSection(secs, rva)
  {
    assert forall k | 0 <= k < |secs| :: (secs + [s])[k] == secs[k];
    if k: nat :| k < |secs| && Covers(secs[k], rva) {
      assert Covers((secs + [s])[k], rva);
    }
  }

  /** The last import that the loader stores over the address is not by the empty name. */
  ghost predicate LastIsNamed(raw: bytes, h: Header, rva: u32) {
    && HeaderInFile(raw, h) && Bindings(raw, h).Done?
    && match LastBinding(Bindings(raw, h).value, rva)
       case None => true
       case Some(b) => !ByEmptyName(b)
  }

  /** Whatever the resolver answers, both images load and hold the same byte at the address. */
  ghost predicate LoadAlike(b1: bytes, h1: Header, b2: bytes, h2: Header, rva: u32) {
    forall resolve: Resolver :: AfterLoading(b1, h1, resolve, rva) == AfterLoading(b2, h2, resolve, rva) != None
  }

  /**
   * Loading preserves meaning. Both images load, and a byte below the new section, outside the redirected slots and
   * the rewritten header fields, is the same after loading either, whatever the resolver answers, if and only if it
   * does not lie in the slot of an import by the empty name.
   */
  lemma LoadingPreserved(raw: bytes, out: bytes, info: Info, prof: Profile, sec: bytes, ps: seq<Piece>, rva: u32)
    requires PatchOf(raw, out, info, prof, sec, ps)
    requires HeaderInFile(raw, info.h)
    requires rva < NextRva(Sections(raw, info.h), info.h) && OutsideSlots(BadOf(info, prof), rva)
    requires HeaderSafe(raw, info, prof, rva)
    ensures LoadAlike(raw, info.h, out, Grown(info.h), rva) <==> LastIsNamed(raw, info.h, rva)
  {
    hide PatchSuccess, NamesBelow, Bindings, Kept, KeptBindings, CanonicalAll, BadSlots, OutsideSlots, Sections, NextRva,
         LoadedByte, MappedByte, ByEmptyName, HeaderSafe, LE32, LastBinding, LoadAlike, SameLoad, BindingsOf;
    SurvivorsMatch(raw, out, info, prof, sec, ps);
    MappedSame(raw, out, info, prof, sec, ps, rva);
    var bs, bad := Bindings(raw, info.h).value, BadOf(info, prof);
    var t := CanonicalAll(Kept(info.imports, bad));
    LastOutside(bs, bad, rva);
    LastRebuilt(KeptBindings(bs, bad), Kept(info.imports, bad), rva);
    SameLoadIff(MappingOf(raw, info.h), bs, MappingOf(out, Grown(info.h)), t, rva);
    LoadAlikeIff(raw, info.h, bs, out, Grown(info.h), t, rva);
  }

  /** The last binding over an address is rebuilt as it was exactly when it is not by the empty name. */
  lemma {:induction false} LastRebuilt(bs: seq<Binding>, s: seq<Import>, rva: u32)
    requires BindingsOf(bs, s)
    ensures LastBinding(CanonicalAll(s), rva) == LastBinding(bs, rva)
            <==> LastBinding(bs, rva) == None || !ByEmptyName(LastBinding(bs, rva).value)
    decreases |s|
  {
    hide InWord, BindingOf, ByEmptyName, Canonical;
    if s != [] {
      var n := |s| - 1;
      SlotsAgree(bs[n], s[n]);
      CanonicalNotEmpty(bs[n], s[n]);
      CanonicalSlot(s[n]);
      if !InWord(bs[n].slot, rva) {
        LastRebuilt(bs[..n], s[..n], rva);
        assert CanonicalAll(s)[..n] == CanonicalAll(s[..n]);
      }
    }
  }

  lemma CanonicalSlot(im: Import)
    ensures Canonical(im).slot == im.slot
  {}

  lemma LoadAlikeIff(b1: bytes, h1: Header, bs1: seq<Binding>, b2: bytes, h2: Header, bs2: seq<Binding>, rva: u32)
    requires HeaderInFile(b1, h1) && Bindings(b1, h1) == Done(bs1)
    requires HeaderInFile(b2, h2) && Bindings(b2, h2) == Done(bs2)
    ensures LoadAlike(b1, h1, b2, h2, rva) <==> SameLoad(MappingOf(b1, h1), bs1, MappingOf(b2, h2), bs2, rva)
  {
    hide Bindings, LoadedByte, MappedByte, Sections, LE32;
    var m1, m2 := MappingOf(b1, h1), MappingOf(b2, h2);
    if SameLoad(m1, bs1, m2, bs2, rva) {
      forall resolve: Resolver ensures AfterLoading(b1, h1, resolve, rva) == AfterLoading(b2, h2, resolve, rva) != None {
        assert LoadedByte(m1, bs1, resolve, rva) == LoadedByte(m2, bs2, resolve, rva);
      }
    }
    if LoadAlike(b1, h1, b2, h2, rva) {
      forall resolve: Resolver ensures LoadedByte(m1, bs1, resolve, rva) == LoadedByte(m2, bs2, resolve, rva) {
        assert AfterLoading(b1, h1, resolve, rva) == AfterLoading(b2, h2, resolve, rva);
      }
    }
  }

  // ---------------------------------------------------------------- the slots themselves

  /** The last redirected import whose slot covers the address is im, and it goes to va. */
  ghost predicate LastRedirect(p: Plan, s: seq<Import>, im: Import, va: u32, rva: int) {
    InWord(im.slot, rva) && exists k: nat :: LastOver(p, s, k, rva) && s[k] == im && Decide(p, im) == Redirect(va)
  }

  lemma LastPlace(p: Plan, s: seq<Import>, im: Import, va: u32, rva: int) returns (k: nat)
    requires LastRedirect(p, s, im, va, rva)
    ensures k < |s| && LastOver(p, s, k, rva) && s[k] == im && Decide(p, im) == Redirect(va) && InWord(im.slot, rva)
  {
    hide Decide;
    k :| LastOver(p, s, k, rva) && s[k] == im && Decide(p, im) == Redirect(va);
  }

  /** No surviving import's slot covers the address. */
  ghost predicate NoSurvivorOver(info: Info, prof: Profile, rva: int) {
    forall im | im in Kept(info.imports, BadOf(info, prof)) :: !InWord(im.slot, rva)
  }

  /** In the patched file a redirected slot holds the address of its polyfill, the last redirection winning. */
  lemma RedirectedSlotMapped(raw: bytes, out: bytes, info: Info, prof: Profile, sec: bytes, ps: seq<Piece>, im: Import,
                             va: u32, rva: u32)
    requires PatchSuccess(raw, out, info, prof, sec, ps) && LastRedirect(PlanOf(info, prof), info.imports, im, va, rva)
    ensures HeaderInFile(out, Grown(info.h))
    ensures SlotByte(va, im.slot, rva) == Some(MappedByte(MappingOf(out, Grown(info.h)), rva))
  {
    hide PatchSuccess, Decide, Sections, SectionsOk, ByteFrame, BadSlots, NextRva, NextRaw, FirstRaw, Enc32, OffIn, SlotOff,
         LE32, SlotBacked, InSection, LastOver, LastRedirect;
    var s := MemoryFacts(raw, out, info, prof, sec, ps);
    var secs, p := Sections(raw, info.h), PlanOf(info, prof);
    var k := LastPlace(p, info.imports, im, va, rva);
    BadSlotsMeans(p, info.imports);
    assert im.slot in BadOf(info, prof);
    SlotAddress(secs, info.h, |raw|, im.slot, rva);
    OldAddressMaps(secs, info.h, |raw|, s, |out|, rva);
    assert HeldHere(out, secs, info.h.sectAlign, im.slot, va, rva);
  }

  /** Whatever the resolver answers, the image loads and the byte at rva is x. */
  ghost predicate AlwaysLoads(b: bytes, h: Header, rva: u32, x: Option<u8>) {
    x != None && forall resolve: Resolver :: AfterLoading(b, h, resolve, rva) == x
  }

  /**
   * After loading, under every resolver, each byte of a redirected slot is that of its polyfill's address, if and
   * only if no survivor's slot covers it.
   */
  lemma RedirectedSlotLoadedIff(raw: bytes, out: bytes, info: Info, prof: Profile, sec: bytes, ps: seq<Piece>, im: Import,
                                va: u32, rva: u32)
    requires PatchOf(raw, out, info, prof, sec, ps) && LastRedirect(PlanOf(info, prof), info.imports, im, va, rva)
    ensures AlwaysLoads(out, Grown(info.h), rva, SlotByte(va, im.slot, rva)) <==> NoSurvivorOver(info, prof, rva)
  {
    hide PatchSuccess, NamesBelow, AfterLoading, Sections, BadSlots, Enc32, LastRedirect, MappedByte, InWord, Kept, LE32;
    RedirectedSlotMapped(raw, out, info, prof, sec, ps, im, va, rva);
    FileByteSurvivesIff(raw, out, info, prof, sec, ps, rva);
    assert FileByteSurvives(out, Grown(info.h), rva) <==> AlwaysLoads(out, Grown(info.h), rva, SlotByte(va, im.slot, rva));
  }

  /** An import of s whose slot covers the address, behind every other such import. */
  ghost predicate LastAt(s: seq<Import>, im: Import, rva: int) {
    InWord(im.slot, rva) && exists n: nat :: n < |s| && s[n] == im && NoneAfter(s, n, rva)
  }

  ghost predicate NoneAfter(s: seq<Import>, n: nat, rva: int) {
    forall j | n < j < |s| :: !InWord(s[j].slot, rva)
  }

  /** Whatever the resolver answers, the byte at rva is that of its answer for im. */
  ghost predicate AnswersAs(b: bytes, h: Header, im: Import, rva: u32) {
    forall resolve: Resolver :: AfterLoading(b, h, resolve, rva) == SlotByte(resolve(Canonical(im).req), im.slot, rva)
  }

  /** The last survivor whose slot covers the address asks for the same thing as im, through the same slot. */
  ghost predicate LastAsksFor(info: Info, prof: Profile, im: Import, rva: u32) {
    exists last :: LastAt(Kept(info.imports, BadOf(info, prof)), last, rva) && Canonical(last) == Canonical(im)
  }

  /**
   * After loading the patched image, under every resolver, a byte is that of the answer for an import, if and only if
   * the last survivor whose slot covers it asks for the same thing through the same slot.
   */
  lemma SurvivorAnswersIff(raw: bytes, out: bytes, info: Info, prof: Profile, sec: bytes, ps: seq<Piece>, im: Import, rva: u32)
    requires PatchOf(raw, out, info, prof, sec, ps)
    ensures AnswersAs(out, Grown(info.h), im, rva) <==> LastAsksFor(info, prof, im, rva)
  {
    hide PatchSuccess, NamesBelow, Bindings, Kept, BadSlots, CanonicalAll, Sections, LastBinding, LastAt, SameLoad,
         AnswersAs, Canonical;
    PatchedBindings(raw, out, info, prof, sec, ps);
    var t := Kept(info.imports, BadOf(info, prof));
    LastBindingAt(t, Canonical(im), rva);
    AnswersAsIff(out, Grown(info.h), CanonicalAll(t), im, rva);
  }

  lemma {:induction false} LastBindingAt(t: seq<Import>, b: Binding, rva: u32)
    ensures LastBinding(CanonicalAll(t), rva) == Some(b) <==> exists last :: LastAt(t, last, rva) && Canonical(last) == b
  {
    hide InWord, Canonical;
    if t != [] {
      var n := |t| - 1;
      CanonicalSlot(t[n]);
      assert CanonicalAll(t)[..n] == CanonicalAll(t[..n]);
      LastBindingAt(t[..n], b, rva);
      forall last ensures LastAt(t, last, rva) <==> if InWord(t[n].slot, rva) then last == t[n] else LastAt(t[..n], last, rva) {
        LastAtStep(t, last, rva);
      }
    }
  }

  lemma LastAtStep(t: seq<Import>, last: Import, rva: int)
    requires t != []
    ensures var n := |t| - 1;
            LastAt(t, last, rva) <==> if InWord(t[n].slot, rva) then last == t[n] else LastAt(t[..n], last, rva)
  {
    hide InWord;
    var n := |t| - 1;
    if InWord(t[n].slot, rva) {
      assert last == t[n] ==> NoneAfter(t, n, rva);
    } else {
      if k: nat :| k < |t| && t[k] == last && NoneAfter(t, k, rva) {
        if k < n { assert t[..n][k] == last && NoneAfter(t[..n], k, rva); }
      }
      if k: nat :| k < n && t[..n][k] == last && NoneAfter(t[..n], k, rva) {
        assert t[k] == last && NoneAfter(t, k, rva) by {
          forall j | k < j < |t| ensures !InWord(t[j].slot, rva) {
            if j < n { assert t[..n][j] == t[j]; }
          }
        }
      }
    }
  }

  /** The answer for one import, as the only binding, compared with what the image's bindings leave. */
  lemma AnswersAsIff(b: bytes, h: Header, bs: seq<Binding>, im: Import, rva: u32)
    requires HeaderInFile(b, h) && Bindings(b, h) == Done(bs)
    ensures AnswersAs(b, h, im, rva) <==> LastBinding(bs, rva) == Some(Canonical(im))
  {
    hide Bindings, LoadedByte, MappedByte, Sections, LE32, LastBinding, Canonical, AnswersAs, SameLoad, InWord;
    var m := MappingOf(b, h);
    CanonicalSlot(im);
    LastBindingMeans(bs, rva);
    if InWord(im.slot, rva) {
      OnlyBinding(Canonical(im), rva);
      SameLoadIff(m, bs, m, [Canonical(im)], rva);
      AnswersAsSame(b, h, bs, im, rva);
    } else {
      NoAnswer(b, h, bs, im, rva);
    }
  }

  lemma AnswersAsSame(b: bytes, h: Header, bs: seq<Binding>, im: Import, rva: u32)
    requires HeaderInFile(b, h) && Bindings(b, h) == Done(bs) && InWord(im.slot, rva)
    ensures AnswersAs(b, h, im, rva) <==> SameLoad(MappingOf(b, h), bs, MappingOf(b, h), [Canonical(im)], rva)
  {
    hide Bindings, LoadedByte, AfterLoading, SlotByte, MappingOf, Canonical, InWord;
    var m, one := MappingOf(b, h), [Canonical(im)];
    if SameLoad(m, bs, m, one, rva) {
      forall resolve: Resolver ensures AfterLoading(b, h, resolve, rva) == SlotByte(resolve(Canonical(im).req), im.slot, rva) {
        assert LoadedByte(m, bs, resolve, rva) == LoadedByte(m, one, resolve, rva);
        AnswerOf(b, h, bs, im, resolve, rva);
      }
    }
    if AnswersAs(b, h, im, rva) {
      forall resolve: Resolver ensures LoadedByte(m, bs, resolve, rva) == LoadedByte(m, one, resolve, rva) {
        assert AfterLoading(b, h, resolve, rva) == SlotByte(resolve(Canonical(im).req), im.slot, rva);
        AnswerOf(b, h, bs, im, resolve, rva);
      }
    }
  }

  lemma AnswerOf(b: bytes, h: Header, bs: seq<Binding>, im: Import, resolve: Resolver, rva: u32)
    requires HeaderInFile(b, h) && Bindings(b, h) == Done(bs) && InWord(im.slot, rva)
    ensures AfterLoading(b, h, resolve, rva) == Some(LoadedByte(MappingOf(b, h), bs, resolve, rva))
    ensures SlotByte(resolve(Canonical(im).req), im.slot, rva)
            == Some(LoadedByte(MappingOf(b, h), [Canonical(im)], resolve, rva))
  {
    hide Bindings, LoadedByte, MappedByte, Sections, LE32, LastBinding, Canonical, Enc32;
    CanonicalSlot(im);
    OnlyBinding(Canonical(im), rva);
    LoadedIsLast(MappingOf(b, h), [Canonical(im)], resolve, rva);
  }

  lemma NoAnswer(b: bytes, h: Header, bs: seq<Binding>, im: Import, rva: u32)
    requires HeaderInFile(b, h) && Bindings(b, h) == Done(bs) && !InWord(im.slot, rva)
    ensures !AnswersAs(b, h, im, rva)
  {
    hide Bindings, LoadedByte, MappedByte, Sections, LE32, Canonical;
    var any: Resolver := q => 0;
    assert AfterLoading(b, h, any, rva) != SlotByte(any(Canonical(im).req), im.slot, rva);
  }

  lemma OnlyBinding(b: Binding, rva: u32)
    ensures InWord(b.slot, rva) ==> LastBinding([b], rva) == Some(b)
  {}

  /**
   * The shim's own slots are never redirected: after loading they hold the resolver's answer for the function they
   * were imported as, so a hook that calls through its own slot reaches the real export, unless a later survivor's
   * slot overlaps.
   */
  lemma OwnSlotReachesExport(raw: bytes, out: bytes, info: Info, prof: Profile, sec: bytes, ps: seq<Piece>, im: Import,
                             n: nat, rva: u32)
    requires PatchOf(raw, out, info, prof, sec, ps) && OwnRecord(info.table, Add32(info.h.imageBase, im.slot))
    requires n < |info.imports| && info.imports[n] == im && InWord(im.slot, rva)
    requires NoneKeptAfter(info.imports, BadOf(info, prof), n, rva)
    ensures AnswersAs(out, Grown(info.h), im, rva)
  {
    hide PatchSuccess, NamesBelow, Kept, BadSlots, InWord, NoneAfter, NoneKeptAfter, OwnSlots, OwnRecord, AnswersAs,
         Canonical;
    OwnSlotsMeans(info.table);
    OwnIsKept(PlanOf(info, prof), info.imports, im);
    var m := KeptPlace(info.imports, BadOf(info, prof), n, rva);
    assert LastAt(Kept(info.imports, BadOf(info, prof)), im, rva);
    SurvivorAnswersIff(raw, out, info, prof, sec, ps, im, rva);
  }

  /**
   * The fate of every import whose slot overlaps no other. After loading the patched image, whatever the resolver
   * answers, the slot of an import that the target lacks or that the shim hooks, and that is not the shim's own, holds
   * the address of the last polyfill the table has for it. Every other import gets the resolver's answer, a hooked one
   * without a polyfill included.
   */
  lemma ImportFate(raw: bytes, out: bytes, info: Info, prof: Profile, sec: bytes, ps: seq<Piece>, n: nat, rva: u32)
    requires PatchOf(raw, out, info, prof, sec, ps) && n < |info.imports| && InWord(info.imports[n].slot, rva)
    requires forall j | 0 <= j < |info.imports| && j != n :: !InWord(info.imports[j].slot, rva)
    ensures var im := info.imports[n];
            if Rerouted(info, prof, im) then
              exists va :: LastPolyfill(info.table, FullName(im), va)
                           && AlwaysLoads(out, Grown(info.h), rva, SlotByte(va, im.slot, rva))
            else AnswersAs(out, Grown(info.h), im, rva)
  {
    hide OpenImage, Sound, Rewritten, NamesBelow, Decide, PolyMap, OwnSlots, BadSlots, Kept, OwnRecord, Lacks, NoneProvides,
         Hooked, LastPolyfill, AnswersAs, AlwaysLoads, InWord, Canonical, Sections, FileOffIn;
    var im, p, s := info.imports[n], PlanOf(info, prof), info.imports;
    DecisionMeans(prof, info.table, info.h.imageBase, im);
    BadSlotsMeans(p, s);
    assert Decide(p, s[n]) != Refuse;
    if Decide(p, im).Redirect? {
      var va := Decide(p, im).va;
      assert LastOver(p, s, n, rva) && LastRedirect(p, s, im, va, rva);
      NothingElse(p, s, n, rva);
      RedirectedSlotLoadedIff(raw, out, info, prof, sec, ps, im, va, rva);
    } else {
      forall j | 0 <= j < |s| && Decide(p, s[j]).Redirect? ensures s[j].slot != im.slot {}
      var m := KeptPlace(s, BadOf(info, prof), n, rva);
      assert LastAt(Kept(s, BadOf(info, prof)), im, rva);
      SurvivorAnswersIff(raw, out, info, prof, sec, ps, im, rva);
    }
  }

  /** Where only a redirected import's slot covers an address no survivor's does. */
  lemma NothingElse(p: Plan, s: seq<Import>, n: nat, rva: int)
    requires n < |s| && Decide(p, s[n]).Redirect?
    requires forall j | 0 <= j < |s| && j != n :: !InWord(s[j].slot, rva)
    ensures forall im | im in Kept(s, BadSlots(p, s)) :: !InWord(im.slot, rva)
  {
    hide Decide, InWord, BadSlots, Kept;
    BadSlotsMeans(p, s);
    KeptMembers(s, BadSlots(p, s));
    forall im | im in Kept(s, BadSlots(p, s)) ensures !InWord(im.slot, rva) {
      var j :| 0 <= j < |s| && s[j] == im;
      assert s[n].slot in BadSlots(p, s);
    }
  }

  /** No survivor behind import n covers the address. */
  ghost predicate NoneKeptAfter(s: seq<Import>, bad: set<u32>, n: nat, rva: int) {
    forall j | n < j < |s| && s[j].slot !in bad :: !InWord(s[j].slot, rva)
  }

  /** A slot of the shim's own is never redirected, through whichever import. */
  lemma OwnIsKept(p: Plan, s: seq<Import>, im: Import)
    requires IsOwn(p, im)
    ensures im.slot !in BadSlots(p, s)
  {
    hide IsMissing, Key, BadSlots;
    BadSlotsMeans(p, s);
  }

  /** A surviving import has a place among the survivors, and those behind it there were behind it before. */
  lemma {:induction false} KeptPlace(s: seq<Import>, bad: set<u32>, n: nat, rva: int) returns (m: nat)
    requires n < |s| && s[n].slot !in bad && NoneKeptAfter(s, bad, n, rva)
    ensures var t := Kept(s, bad);
            m < |t| && t[m] == s[n] && NoneAfter(t, m, rva)
    decreases |s|
  {
    hide InWord;
    var k := |s| - 1;
    if n == k {
      m := |Kept(s[..k], bad)|;
    } else {
      assert s[..k][n] == s[n] && forall j | 0 <= j < k :: s[..k][j] == s[j];
      m := KeptPlace(s[..k], bad, n, rva);
    }
  }

  /**
   * A byte of the patched file survives loading under every resolver if and only if no surviving import's slot
   * covers it.
   */
  lemma FileByteSurvivesIff(raw: bytes, out: bytes, info: Info, prof: Profile, sec: bytes, ps: seq<Piece>, rva: u32)
    requires PatchOf(raw, out, info, prof, sec, ps)
    ensures FileByteSurvives(out, Grown(info.h), rva) <==> NoSurvivorOver(info, prof, rva)
  {
    hide PatchSuccess, NamesBelow, Bindings, Kept, Sections, BadSlots, InWord, FileByteSurvives, Unstored, LE32;
    PatchedBindings(raw, out, info, prof, sec, ps);
    var t := Kept(info.imports, BadOf(info, prof));
    SurvivesIsUnstored(out, Grown(info.h), CanonicalAll(t), rva);
    KeptIffNothingStored(MappingOf(out, Grown(info.h)), CanonicalAll(t), rva);
    StoresAgree(t, rva);
  }

  /** Whatever the resolver answers, the image loads and the byte is the one in the file. */
  ghost predicate FileByteSurvives(b: bytes, h: Header, rva: u32) {
    && HeaderInFile(b, h)
    && forall resolve: Resolver :: AfterLoading(b, h, resolve, rva) == Some(MappedByte(MappingOf(b, h), rva))
  }

  lemma SurvivesIsUnstored(b: bytes, h: Header, bs: seq<Binding>, rva: u32)
    requires HeaderInFile(b, h) && Bindings(b, h) == Done(bs)
    ensures FileByteSurvives(b, h, rva) <==> Unstored(MappingOf(b, h), bs, rva)
  {
    hide Bindings, LoadedByte, MappedByte, Sections, LE32;
    var v := MappingOf(b, h);
    if Unstored(v, bs, rva) {
      forall resolve: Resolver ensures AfterLoading(b, h, resolve, rva) == Some(MappedByte(v, rva)) {
        assert LoadedByte(v, bs, resolve, rva) == MappedByte(v, rva);
      }
    }
    if FileByteSurvives(b, h, rva) {
      forall resolve: Resolver ensures LoadedByte(v, bs, resolve, rva) == MappedByte(v, rva) {
        assert AfterLoading(b, h, resolve, rva) == Some(MappedByte(v, rva));
      }
    }
  }

  lemma StoresAgree(t: seq<Import>, rva: int)
    ensures (forall k | 0 <= k < |t| :: !InWord(CanonicalAll(t)[k].slot, rva)) <==> forall im | im in t :: !InWord(im.slot, rva)
  {
    hide InWord;
    if forall k | 0 <= k < |t| :: !InWord(CanonicalAll(t)[k].slot, rva) {
      forall im | im in t ensures !InWord(im.slot, rva) {
        var k :| 0 <= k < |t| && t[k] == im;
        assert CanonicalAll(t)[k].slot == im.slot;
      }
    }
    if forall im | im in t :: !InWord(im.slot, rva) {
      forall k | 0 <= k < |t| ensures !InWord(CanonicalAll(t)[k].slot, rva) {
        assert t[k] in t;
      }
    }
  }
}
