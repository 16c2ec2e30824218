/** Go's Open and Patch: the whole transformation of an image. */
module Patcher {
  import opened Bytes
  import opened Align
  import opened Image
  import opened RawImage
  import opened Appending
  import opened ImportReader
  import opened Runs
  import opened Grouping
  import opened Rebuild
  import opened ShimTable
  import opened Profiles
  import opened Redirecting

  // ---------------------------------------------------------------- reading an image

  /** Go: Info. */
  datatype Info = Info(h: Header, osMajor: u16, osMinor: u16, subsysMajor: u16, subsysMinor: u16, dllChar: u16,
                       imports: seq<Import>, table: seq<TableEntry>)

  function ViewOf(b: bytes, h: Header): View
    requires HeaderInFile(b, h)
  {
    View(b, Sections(b, h))
  }

  function ReadImports(b: bytes, h: Header): Walk<seq<Import>>
    requires HeaderInFile(b, h)
  {
    var dir := DataDirRva(b, h, 1);
    if dir == 0 then Done([]) else ImportsAt(ViewOf(b, h), dir)
  }

  function ReadShimTable(b: bytes, h: Header): Scan
    requires HeaderInFile(b, h)
  {
    ScanFrom(ViewOf(b, h), h.imageBase, 0)
  }

  /** Everything Open reads; None when it reports an error. */
  function OpenImage(b: bytes): Option<Info> {
    match ParseHeader(b)
    case None => None
    case Some(h) =>
      var table := ReadShimTable(b, h);
      match ReadImports(b, h)
      case Done(imports) =>
        if table.Invalid? then None
        else Some(Info(h, LE16(b, h.optOff + OH_MAJOR_OS), LE16(b, h.optOff + OH_MAJOR_OS + 2),
                       LE16(b, h.optOff + OH_MAJOR_SUBSYS), LE16(b, h.optOff + OH_MAJOR_SUBSYS + 2),
                       LE16(b, h.optOff + OH_DLL_CHAR), imports, if table.Found? then table.entries else []))
      case Failed => None
      case Endless => None
  }

  method Open(b: bytes) returns (r: Option<Info>)
    ensures r == OpenImage(b)
  {
    hide ParseHeader, ScanFrom, Descriptors, LE16, DataDirRva;
    var header := ParseHeader(b);
    if header.None? {
      return None;
    }
    var h := header.value;
    var reader := new Reader(b, Sections(b, h));
    var imports: Walk<seq<Import>> := Done([]);
    if DataDirRva(b, h, 1) != 0 {
      imports := reader.Imports(DataDirRva(b, h, 1));
    }
    if !imports.Done? {
      return None;
    }
    var table := ReadTable(reader, h.imageBase);
    if table.Invalid? {
      return None;
    }
    return Some(Info(h, LE16(b, h.optOff + OH_MAJOR_OS), LE16(b, h.optOff + OH_MAJOR_OS + 2),
                     LE16(b, h.optOff + OH_MAJOR_SUBSYS), LE16(b, h.optOff + OH_MAJOR_SUBSYS + 2),
                     LE16(b, h.optOff + OH_DLL_CHAR), imports.value, if table.Found? then table.entries else []));
  }

  /** The table an image is read with: none when there is no candidate for one, otherwise the lowest valid one. */
  ghost predicate ReadsTable(v: View, base: u32, es: seq<TableEntry>) {
    || (es == [] && forall o: nat :: !LooksLikeTable(v.raw, o))
    || (exists o: nat :: LowestTable(v, base, o, es))
  }

  ghost predicate LowestTable(v: View, base: u32, o: nat, es: seq<TableEntry>) {
    IsTable(v, base, o, es) && forall p: nat, t | p < o :: !IsTable(v, base, p, t)
  }

  lemma ScanReads(v: View, base: u32, es: seq<TableEntry>)
    ensures ReadsTable(v, base, es)
            <==> match ScanFrom(v, base, 0) { case Found(t) => t == es case Invalid => false case Absent => es == [] }
  {
    hide Candidate, ScanFrom, IsTable, ValidAt, LooksLikeTable;
    ScanMeaning(v, base, 0);
    forall o: nat ensures Candidate(v.raw, o) <==> LooksLikeTable(v.raw, o) { CandidateIff(v.raw, o); }
    forall o: nat, t ensures ValidAt(v, base, o) == Some(t) <==> IsTable(v, base, o, t) { TableIff(v, base, o, t); }
    forall o: nat | ValidAt(v, base, o).Some? ensures Candidate(v.raw, o) && IsTable(v, base, o, ValidAt(v, base, o).value) {
      TableCount(v, base, o, ValidAt(v, base, o).value);
    }
    if o: nat :| LowestTable(v, base, o, es) {
      assert LowestValid(v, base, 0, o, es);
      LowestIsFound(v, base, 0, o, es);
    }
    if ScanFrom(v, base, 0) == Found(es) {
      var o :| LowestValid(v, base, 0, o, es);
      assert LowestTable(v, base, o, es);
    }
  }

  /**
   * A file opens exactly when its headers have the format of a PE32 file, its import directory, if there is one, can be
   * walked to its end, and its table can be read, if it seems to have one; and then this is what is read.
   */
  lemma OpensIff(b: bytes, info: Info)
    ensures OpenImage(b) == Some(info)
            <==> && WellHeaded(b, info.h) && HeaderInFile(b, info.h)
                 && var o := info.h.optOff;
                    && info.osMajor == LE16(b, o + 40) && info.osMinor == LE16(b, o + 42)
                    && info.subsysMajor == LE16(b, o + 48) && info.subsysMinor == LE16(b, o + 50)
                    && info.dllChar == LE16(b, o + 70)
                    && (if LE32(b, o + 104) == 0 then info.imports == []
                        else ImportsAt(ViewOf(b, info.h), LE32(b, o + 104)) == Done(info.imports))
                    && ReadsTable(ViewOf(b, info.h), info.h.imageBase, info.table)
  {
    hide ParseHeader, WellHeaded, ScanFrom, Descriptors, LE16, LE32, ReadsTable, Sections;
    ParsesIff(b, info.h);
    if ParseHeader(b) == Some(info.h) {
      ScanReads(ViewOf(b, info.h), info.h.imageBase, info.table);
    }
  }

  lemma OpenFacts(b: bytes, info: Info)
    requires OpenImage(b) == Some(info)
    ensures ParseHeader(b) == Some(info.h) && HeaderInFile(b, info.h)
    ensures ReadImports(b, info.h) == Done(info.imports)
    ensures Ordered(info.imports)
  {
    hide ParseHeader, ScanFrom, Descriptors, LE16, DataDirRva, Ordered;
    ImportsOrdered(b, info.h);
  }

  lemma ImportsOrdered(b: bytes, h: Header)
    requires HeaderInFile(b, h)
    ensures ReadImports(b, h).Done? ==> Ordered(ReadImports(b, h).value)
  {
    hide Descriptors, DataDirRva;
    DescriptorsShape(ViewOf(b, h), DataDirRva(b, h, 1), 0, ROUND - 1);
  }

  // ---------------------------------------------------------------- what Patch asks of its input

  function PlanOf(info: Info, prof: Profile): Plan {
    Plan(prof, PolyMap(info.table), OwnSlots(info.table), info.h.imageBase)
  }

  /** The redirected slots of an opened image. */
  function BadOf(info: Info, prof: Profile): set<u32> { BadSlots(PlanOf(info, prof), info.imports) }

  /** The size of the rebuilt import directory. */
  function NewSize(info: Info, prof: Profile): nat { SectionSize(Kept(info.imports, BadOf(info, prof))) }

  /** The same as a 32-bit number. */
  function NewLength(info: Info, prof: Profile): u32 { NewSize(info, prof) % W32 }

  /**
   * An image as a linker writes it: well-formed sections, file data under the slots to be redirected, and room for
   * the new section below 2^32.
   */
  ghost predicate Linked(raw: bytes, info: Info, prof: Profile)
    requires HeaderInFile(raw, info.h)
  {
    var secs := Sections(raw, info.h);
    && Sound(raw, info.h)
    && RedirectsBacked(PlanOf(info, prof), info.imports, secs, info.h.sectAlign)
    && Fits(secs, info.h, NewSize(info, prof))
  }

  /** Images with a shim table are linked properly; nothing is asked of the rest, which Patch refuses. */
  ghost predicate Patchable(raw: bytes, prof: Profile) {
    match OpenImage(raw)
    case None => true
    case Some(info) => info.table == [] || (HeaderInFile(raw, info.h) && Linked(raw, info, prof))
  }

  // ---------------------------------------------------------------- the header fields

  predicate InVersionFields(h: Header, i: int) {
    (h.optOff + OH_MAJOR_OS <= i < h.optOff + OH_MAJOR_OS + 4) || (h.optOff + OH_MAJOR_SUBSYS <= i < h.optOff + OH_MAJOR_SUBSYS + 4)
  }
  predicate InCheckSum(h: Header, i: int) { h.optOff + OH_CHECKSUM <= i < h.optOff + OH_CHECKSUM + 4 }
  predicate InDllChar(h: Header, i: int) { h.optOff + OH_DLL_CHAR <= i < h.optOff + OH_DLL_CHAR + 2 }
  predicate InImportDir(h: Header, i: int) { h.optOff + OH_DATA_DIR + 8 <= i < h.optOff + OH_DATA_DIR + 16 }

  /** The header bytes Patch may change. */
  predicate InHeaderFields(h: Header, i: int) {
    InVersionFields(h, i) || InCheckSum(h, i) || InDllChar(h, i) || InImportDir(h, i) || InCountField(h, i)
    || InSizeField(h, i) || InNewHeader(h, i)
  }

  /** The version fields are the profile's, the relocation flags are clear and the checksum is zero. */
  ghost predicate FieldsSet(b: bytes, h: Header, prof: Profile, wasDllChar: u16)
    requires h.optOff + OH_DATA_DIR + 16 <= |b|
  {
    && LE16(b, h.optOff + OH_MAJOR_OS) == prof.osMajor && LE16(b, h.optOff + OH_MAJOR_OS + 2) == prof.osMinor
    && LE16(b, h.optOff + OH_MAJOR_SUBSYS) == prof.subsysMajor && LE16(b, h.optOff + OH_MAJOR_SUBSYS + 2) == prof.subsysMinor
    && LE16(b, h.optOff + OH_DLL_CHAR) == AndNot(wasDllChar, 0x60)
    && LE32(b, h.optOff + OH_CHECKSUM) == 0
  }

  /** b2 is b1 outside the version, checksum and characteristics fields. */
  ghost predicate FieldFrame(b1: bytes, b2: bytes, h: Header) {
    && |b1| == |b2|
    && forall i | 0 <= i < |b1| && !InVersionFields(h, i) && !InCheckSum(h, i) && !InDllChar(h, i) :: b2[i] == b1[i]
  }

  /** Step 1 of Patch. */
  method PatchHeader(r: Raw, prof: Profile)
    requires r.Valid() && Sound(r.Buf, r.Hdr())
    modifies r`Buf
    ensures r.Valid() && Sound(r.Buf, r.Hdr()) && Sections(r.Buf, r.Hdr()) == old(Sections(r.Buf, r.Hdr()))
    ensures FieldFrame(old(r.Buf), r.Buf, r.Hdr())
    ensures FieldsSet(r.Buf, r.Hdr(), prof, LE16(old(r.Buf), r.optOff + OH_DLL_CHAR))
  {
    hide ParseHeader, LE16, LE32, SectionsOk, AndNot;
    ghost var h := r.Hdr();
    ghost var b0 := r.Buf;
    r.SetVersions(prof.osMajor, prof.osMinor, prof.subsysMajor, prof.subsysMinor);
    ghost var b1 := r.Buf;
    var was := r.ClearDynamicBase();
    ghost var b2 := r.Buf;
    r.ZeroCheckSum();
    FieldsFinal(b0, b1, b2, r.Buf, h);
  }

  lemma FieldsFinal(b0: bytes, b1: bytes, b2: bytes, b3: bytes, h: Header)
    requires Sound(b0, h) && ParseHeader(b3) == Some(h) && |b0| == |b1| == |b2| == |b3|
    requires SameExcept(b0, b1, h.optOff + OH_MAJOR_OS, h.optOff + OH_MAJOR_SUBSYS + 4)
    requires SameRange(b0, b1, h.optOff + OH_MAJOR_OS + 4, h.optOff + OH_MAJOR_SUBSYS)
    requires SameExcept(b1, b2, h.optOff + OH_DLL_CHAR, h.optOff + OH_DLL_CHAR + 2)
    requires SameExcept(b2, b3, h.optOff + OH_CHECKSUM, h.optOff + OH_CHECKSUM + 4)
    ensures FieldFrame(b0, b3, h)
    ensures Sound(b3, h) && Sections(b3, h) == Sections(b0, h)
    ensures LE16(b1, h.optOff + OH_DLL_CHAR) == LE16(b0, h.optOff + OH_DLL_CHAR)
    ensures LE16(b3, h.optOff + OH_DLL_CHAR) == LE16(b2, h.optOff + OH_DLL_CHAR)
    ensures LE16(b3, h.optOff + OH_MAJOR_OS) == LE16(b1, h.optOff + OH_MAJOR_OS)
    ensures LE16(b3, h.optOff + OH_MAJOR_OS + 2) == LE16(b1, h.optOff + OH_MAJOR_OS + 2)
    ensures LE16(b3, h.optOff + OH_MAJOR_SUBSYS) == LE16(b1, h.optOff + OH_MAJOR_SUBSYS)
    ensures LE16(b3, h.optOff + OH_MAJOR_SUBSYS + 2) == LE16(b1, h.optOff + OH_MAJOR_SUBSYS + 2)
  {
    hide ParseHeader, SectionsOk, Word;
    assert HeaderInFile(b0, h);
    SameSections(b0, b3, h.firstSect, h.nSect);
  }

  // ---------------------------------------------------------------- the whole patch

  /** The section name .go2xp, and its characteristics: initialised data, readable and writable. */
  const SECTION_NAME: bytes := Ascii(".go2xp")
  const SECTION_CHARS: u32 := 0xC000_0040

  /** Relates a patched image to its input: sec holds the new import directory, whose descriptors are ps. */
  ghost predicate Rewritten(raw: bytes, out: bytes, info: Info, prof: Profile, sec: bytes, ps: seq<Piece>)
    requires HeaderInFile(raw, info.h)
  {
    var h, secs, bad := info.h, Sections(raw, info.h), BadOf(info, prof);
    var rva, at := NextRva(secs, h), NextRaw(secs, h);
    && |sec| == NewSize(info, prof) < W32
    && |ps| == RunCount(Kept(info.imports, bad))
    && |out| == Larger(|raw|, at + AlignUp(|sec|, h.fileAlign))
    && ParseHeader(out) == Some(Grown(h))
    && Sections(out, Grown(h)) == secs + [NewSection(secs, h, SECTION_NAME, |sec|, SECTION_CHARS)]
    && HeaderAt(out, h.LastHdrEnd(), NewSection(secs, h, SECTION_NAME, |sec|, SECTION_CHARS), SECTION_NAME)
    && DataDirRva(out, Grown(h), 1) == rva
    && LE32(out, h.optOff + OH_DATA_DIR + 12) == 20 * (|ps| + 1)
    && Directory(sec, rva, info.imports, bad, ps)
    && Placed(out, Sections(out, Grown(h)), rva, at, sec)
    && FieldsSet(out, h, prof, LE16(raw, h.optOff + OH_DLL_CHAR))
    && LE32(out, h.optOff + OH_SIZE_OF_IMAGE) == NewSizeOfImage(secs, h, |sec|)
    && AllBacked(secs, bad)
    && h.LastHdrEnd() + 40 <= FirstRaw(secs)
    && ByteFrame(raw, out, h, secs, bad, at, |sec|)
    && Holds(out, secs, h.sectAlign, PlanOf(info, prof), info.imports)
  }

  /**
   * Outside the header fields, the redirected slots and the new section no byte changes, and what the file grows by
   * is zero.
   */
  ghost predicate ByteFrame(raw: bytes, out: bytes, h: Header, secs: seq<Section>, bad: set<u32>, at: nat, size: nat) {
    && |raw| <= |out|
    && (forall i | |raw| <= i < |out| && !(at <= i < at + size) :: out[i] == 0)
    && forall i | 0 <= i < |raw| && !InHeaderFields(h, i) && !InSlots(secs, h.sectAlign, bad, i) && !(at <= i < at + size) ::
         out[i] == raw[i]
  }

  datatype Outcome =
    | Refused
    | Patched(out: bytes, redirected: seq<(Import, u32)>, kept: nat, dropped: seq<bytes>)

  /** Every missing import has a polyfill, and every slot to be redirected a file offset. */
  ghost predicate CanRedirect(p: Plan, s: seq<Import>, secs: seq<Section>, sa: u32) {
    forall k | 0 <= k < |s| ::
      Decide(p, s[k]) != Refuse && (Decide(p, s[k]).Redirect? ==> FileOffIn(secs, sa, s[k].slot).Some?)
  }

  /** When Patch succeeds: a readable image with a shim table, polyfills for all that is missing, and header room. */
  ghost predicate Acceptable(raw: bytes, prof: Profile) {
    match OpenImage(raw)
    case None => false
    case Some(info) =>
      && info.table != []
      && HeaderInFile(raw, info.h)
      && CanRedirect(PlanOf(info, prof), info.imports, Sections(raw, info.h), info.h.sectAlign)
      && info.h.LastHdrEnd() + 40 <= FirstRaw(Sections(raw, info.h))
  }

  /** A slot of the shim's own. */
  ghost predicate OwnImport(info: Info, im: Import) { OwnRecord(info.table, Add32(info.h.imageBase, im.slot)) }

  /** The import's slot is to hold the polyfill's address. */
  ghost predicate Rerouted(info: Info, prof: Profile, im: Import) {
    !OwnImport(info, im) && (Lacks(prof, im.dll, im.name) || Hooked(im)) && !NoneProvides(info.table, FullName(im))
  }

  /**
   * In terms of the profile's entries and the table's records: Patch succeeds when the image reads and has a table,
   * every import that the target lacks is provided for unless it is the shim's own, every slot to be rerouted has a file
   * offset, and the headers have room.
   */
  lemma AcceptableIff(raw: bytes, info: Info, prof: Profile)
    requires OpenImage(raw) == Some(info) && HeaderInFile(raw, info.h)
    ensures Acceptable(raw, prof)
            <==> && info.table != [] && info.h.LastHdrEnd() + 40 <= FirstRaw(Sections(raw, info.h))
                 && forall k | 0 <= k < |info.imports| ::
                      var im := info.imports[k];
                      && (OwnImport(info, im) || !Lacks(prof, im.dll, im.name) || !NoneProvides(info.table, FullName(im)))
                      && (Rerouted(info, prof, im) ==> FileOffIn(Sections(raw, info.h), info.h.sectAlign, im.slot).Some?)
  {
    hide OpenImage, Decide, FileOffIn, Sections, FirstRaw, OwnRecord, Lacks, NoneProvides, Hooked, PolyMap, OwnSlots;
    forall k | 0 <= k < |info.imports|
      ensures var im, d := info.imports[k], Decide(PlanOf(info, prof), info.imports[k]);
              && (d != Refuse <==> OwnImport(info, im) || !Lacks(prof, im.dll, im.name) || !NoneProvides(info.table, FullName(im)))
              && (d.Redirect? <==> Rerouted(info, prof, im))
    {
      DecisionMeans(prof, info.table, info.h.imageBase, info.imports[k]);
    }
  }

  /** The results of a successful patch. */
  ghost predicate Result(raw: bytes, res: Outcome, info: Info, prof: Profile, sec: bytes, ps: seq<Piece>)
    requires HeaderInFile(raw, info.h)
  {
    && res.Patched?
    && Rewritten(raw, res.out, info, prof, sec, ps)
    && res.redirected == RedirectList(PlanOf(info, prof), info.imports)
    && res.kept == |Kept(info.imports, BadOf(info, prof))|
    && res.dropped == DroppedDlls(info.imports, BadOf(info, prof), DescsOf(info.imports))
  }

  /** Patch from the moment the input has been read: header, slots, import table, section, data directory. */
  method Rewrite(raw: bytes, info: Info, prof: Profile) returns (res: Outcome, ghost sec: bytes, ghost ps: seq<Piece>)
    requires ParseHeader(raw) == Some(info.h) && HeaderInFile(raw, info.h) && Sound(raw, info.h) && 0x40 <= info.h.peOff
    requires Ordered(info.imports)
    requires RedirectsBacked(PlanOf(info, prof), info.imports, Sections(raw, info.h), info.h.sectAlign)
    requires Fits(Sections(raw, info.h), info.h, NewSize(info, prof))
    ensures res.Patched? <==> CanRedirect(PlanOf(info, prof), info.imports, Sections(raw, info.h), info.h.sectAlign)
                              && info.h.LastHdrEnd() + 40 <= FirstRaw(Sections(raw, info.h))
    ensures res.Patched? ==> Result(raw, res, info, prof, sec, ps)
  {
    hide Rewritten, Sound, CanRedirect, Ordered, PolyMap, OwnSlots, RedirectList, DroppedDlls, DescsOf, Decide, FileOffIn,
         Kept, BadSlots, Sections, ParseHeader, Redirected, Holds, FieldsSet, FieldFrame, Appended, Directory, SectionSize,
         NextRva, FirstRaw, DataDirRva, LE16, LE32, SameExcept, RedirectsBacked, SECTION_NAME;
    sec, ps := [], [];
    var poly, own := BuildMaps(info.table);
    var p := Plan(prof, poly, own, info.h.imageBase);
    var r := new Raw(raw, info.h);
    PatchHeader(r, prof);
    ghost var b1 := r.Buf;
    var ok, bad, redirected := RedirectImports(r, p, info.imports);
    CanRedirectMeans(p, info.imports, Sections(raw, info.h), info.h.sectAlign, ok);
    if !ok {
      return Refused, sec, ps;
    }
    ghost var b2 := r.Buf;
    SoundHeader(b2, info.h);
    var section, descLen, dropped, kept, pieces := RebuildImports(r, info.imports, bad);
    sec, ps := section, pieces;
    var newRVA := r.AddSection(SECTION_NAME, section, SECTION_CHARS);
    if newRVA.None? {
      return Refused, sec, ps;
    }
    ghost var b3 := r.Buf;
    r.SetDataDir(1, newRVA.value, descLen);
    Assembled(raw, b1, b2, b3, r.Buf, info, prof, sec, ps);
    return Patched(r.Buf, redirected, kept, dropped), sec, ps;
  }

  /** Go: Patch, with the contents of the input file and the loaded profile as inputs. */
  method Patch(raw: bytes, prof: Profile) returns (res: Outcome, ghost sec: bytes, ghost ps: seq<Piece>)
    requires Patchable(raw, prof)
    ensures res.Patched? <==> Acceptable(raw, prof)
    ensures res.Patched? ==> HeaderInFile(raw, OpenImage(raw).value.h)
                             && Result(raw, res, OpenImage(raw).value, prof, sec, ps)
  {
    hide OpenImage, Result, Linked, Sound, CanRedirect, Ordered, Sections, ReadImports, ParseHeader, Patchable,
         RedirectsBacked, NewSize, NextRva, FirstRaw, Fits;
    var view := Open(raw);
    if view.None? || |view.value.table| == 0 {
      return Refused, [], [];
    }
    var info := view.value;
    OpenFacts(raw, info);
    LinkedFacts(raw, info, prof);
    res, sec, ps := Rewrite(raw, info, prof);
  }

  lemma LinkedFacts(raw: bytes, info: Info, prof: Profile)
    requires OpenImage(raw) == Some(info) && info.table != [] && HeaderInFile(raw, info.h)
    requires Patchable(raw, prof)
    ensures Sound(raw, info.h) && 0x40 <= info.h.peOff
    ensures RedirectsBacked(PlanOf(info, prof), info.imports, Sections(raw, info.h), info.h.sectAlign)
    ensures Fits(Sections(raw, info.h), info.h, NewSize(info, prof))
  {
    hide OpenImage, ParseHeader, SectionsOk, RedirectsBacked, NewSize, NextRva, Fits;
  }

  lemma CanRedirectMeans(p: Plan, s: seq<Import>, secs: seq<Section>, sa: u32, ok: bool)
    requires ok <==> forall k | 0 <= k < |s| ::
               Decide(p, s[k]) != Refuse && (Decide(p, s[k]).Redirect? ==> FileOffIn(secs, sa, s[k].slot).Some?)
    ensures ok <==> CanRedirect(p, s, secs, sa)
  {
    hide Decide, FileOffIn;
  }

  /** The four stages together: header fields, slots, new section, data directory. */
  lemma Assembled(raw: bytes, b1: bytes, b2: bytes, b3: bytes, out: bytes, info: Info, prof: Profile, sec: bytes, ps: seq<Piece>)
    requires HeaderInFile(raw, info.h) && Sound(raw, info.h) && |sec| == NewSize(info, prof) < W32
    requires |ps| == RunCount(Kept(info.imports, BadOf(info, prof)))
    requires FieldFrame(raw, b1, info.h) && Sound(b1, info.h) && HeaderInFile(b1, info.h)
    requires Sections(b1, info.h) == Sections(raw, info.h)
    requires FieldsSet(b1, info.h, prof, LE16(raw, info.h.optOff + OH_DLL_CHAR))
    requires Sound(b2, info.h) && HeaderInFile(b2, info.h) && Sections(b2, info.h) == Sections(raw, info.h)
    requires Redirected(b1, b2, Sections(raw, info.h), info.h.sectAlign, PlanOf(info, prof), info.imports)
    requires Holds(b2, Sections(raw, info.h), info.h.sectAlign, PlanOf(info, prof), info.imports)
    requires Fits(Sections(b2, info.h), info.h, |sec|)
    requires Appended(b2, b3, info.h, SECTION_NAME, sec, SECTION_CHARS)
    requires Directory(sec, NextRva(Sections(raw, info.h), info.h), info.imports, BadOf(info, prof), ps)
    requires ParseHeader(out) == Some(Grown(info.h)) && |out| == |b3|
    requires HeaderInFile(out, Grown(info.h)) && DataDirRva(out, Grown(info.h), 1) == NextRva(Sections(raw, info.h), info.h)
    requires LE32(out, info.h.optOff + OH_DATA_DIR + 12) == 20 * (|ps| + 1)
    requires SameExcept(b3, out, info.h.optOff + OH_DATA_DIR + 8, info.h.optOff + OH_DATA_DIR + 16)
    ensures Rewritten(raw, out, info, prof, sec, ps)
  {
    hide ParseHeader, Sound, Directory, Placed, FieldsSet, LE16, LE32, Holds, ByteFrame, Redirected, Sections, NewSection,
         NextRva, NextRaw, FirstRaw, AllBacked, NewSizeOfImage, BadSlots, DataDirRva, AlignUp, AppendFrame, HeaderAt,
         SECTION_NAME, NewSize;
    var h := info.h;
    RedirectedBacked(b1, b2, Sections(raw, h), h.sectAlign, PlanOf(info, prof), info.imports);
    DirStage(b2, b3, out, h, sec);
    FrameStages(raw, b1, b2, b3, out, info, prof, sec);
    FieldStages(raw, b1, b2, b3, out, info, prof, sec);
    HoldsStages(b2, b3, out, info, prof, sec);
  }

  lemma RedirectedBacked(b1: bytes, b2: bytes, secs: seq<Section>, sa: u32, p: Plan, s: seq<Import>)
    requires Redirected(b1, b2, secs, sa, p, s)
    ensures AllBacked(secs, BadSlots(p, s)) && SlotFrame(b1, b2, secs, sa, BadSlots(p, s)) && |b1| == |b2|
  {
    hide AllBacked, BadSlots;
  }

  /** The data directory entry lies in the headers, before the section table and the new data. */
  lemma DirStage(b2: bytes, b3: bytes, out: bytes, h: Header, sec: bytes)
    requires Sound(b2, h) && HeaderInFile(b2, h) && |sec| < W32
    requires Fits(Sections(b2, h), h, |sec|)
    requires Appended(b2, b3, h, SECTION_NAME, sec, SECTION_CHARS)
    requires ParseHeader(out) == Some(Grown(h)) && |out| == |b3| && HeaderInFile(out, Grown(h))
    requires SameExcept(b3, out, h.optOff + OH_DATA_DIR + 8, h.optOff + OH_DATA_DIR + 16)
    ensures var secs := Sections(b2, h);
            && Sections(out, Grown(h)) == secs + [NewSection(secs, h, SECTION_NAME, |sec|, SECTION_CHARS)]
            && Placed(out, Sections(out, Grown(h)), NextRva(secs, h), NextRaw(secs, h), sec)
            && LE32(out, h.optOff + OH_SIZE_OF_IMAGE) == NewSizeOfImage(secs, h, |sec|)
            && h.LastHdrEnd() + 40 <= FirstRaw(secs)
            && h.LastHdrEnd() + 40 <= NextRaw(secs, h)
            && HeaderAt(out, h.LastHdrEnd(), NewSection(secs, h, SECTION_NAME, |sec|, SECTION_CHARS), SECTION_NAME)
            && |out| == Larger(|b2|, NextRaw(secs, h) + AlignUp(|sec|, h.fileAlign))
  {
    hide ParseHeader, AlignUp, SectionsOk, NextRva, NextRaw, FirstRaw, NewSection, NewSizeOfImage, AppendFrame, Word, OffIn,
         HeaderAt, SECTION_NAME;
    NewDataPlaced(b2, b3, h, SECTION_NAME, sec, SECTION_CHARS);
    NextSectionRoom(b2, h, |sec|);
    assert HeaderInFile(b3, Grown(h));
    SameSections(b3, out, h.firstSect, h.nSect + 1);
    PlacedKept(b3, out, Sections(out, Grown(h)), NextRva(Sections(b2, h), h), NextRaw(Sections(b2, h), h), sec);
    SameWord(b3, out, h.optOff + OH_SIZE_OF_IMAGE);
    HeaderAtKept(b3, out, h.LastHdrEnd(), NewSection(Sections(b2, h), h, SECTION_NAME, |sec|, SECTION_CHARS), SECTION_NAME);
  }

  lemma PlacedKept(b1: bytes, b2: bytes, secs: seq<Section>, base: u32, at: nat, data: bytes)
    requires Placed(b1, secs, base, at, data) && |b1| == |b2|
    requires forall i | at <= i < |b1| :: b2[i] == b1[i]
    ensures Placed(b2, secs, base, at, data)
  {
    hide OffIn;
  }

  lemma FrameStages(raw: bytes, b1: bytes, b2: bytes, b3: bytes, out: bytes, info: Info, prof: Profile, sec: bytes)
    requires HeaderInFile(raw, info.h) && |sec| < W32
    requires FieldFrame(raw, b1, info.h) && HeaderInFile(b2, info.h)
    requires Sections(b2, info.h) == Sections(raw, info.h)
    requires Redirected(b1, b2, Sections(raw, info.h), info.h.sectAlign, PlanOf(info, prof), info.imports)
    requires Appended(b2, b3, info.h, SECTION_NAME, sec, SECTION_CHARS)
    requires |out| == |b3|
    requires SameExcept(b3, out, info.h.optOff + OH_DATA_DIR + 8, info.h.optOff + OH_DATA_DIR + 16)
    ensures ByteFrame(raw, out, info.h, Sections(raw, info.h), BadOf(info, prof), NextRaw(Sections(raw, info.h), info.h), |sec|)
  {
    hide ParseHeader, AlignUp, NextRaw, FirstRaw, NewSection, NewSizeOfImage, LE32, InSlots, BadSlots, Sections, Redirected,
         NextRva, HeaderAt;
    RedirectedBacked(b1, b2, Sections(raw, info.h), info.h.sectAlign, PlanOf(info, prof), info.imports);
  }

  /** The header fields set first are still set at the end. */
  lemma FieldStages(raw: bytes, b1: bytes, b2: bytes, b3: bytes, out: bytes, info: Info, prof: Profile, sec: bytes)
    requires HeaderInFile(raw, info.h) && Sound(b1, info.h) && HeaderInFile(b1, info.h) && |sec| < W32
    requires Sound(b2, info.h) && HeaderInFile(b2, info.h) && Fits(Sections(b2, info.h), info.h, |sec|)
    requires Sections(b1, info.h) == Sections(b2, info.h) == Sections(raw, info.h)
    requires FieldsSet(b1, info.h, prof, LE16(raw, info.h.optOff + OH_DLL_CHAR))
    requires Redirected(b1, b2, Sections(raw, info.h), info.h.sectAlign, PlanOf(info, prof), info.imports)
    requires Appended(b2, b3, info.h, SECTION_NAME, sec, SECTION_CHARS)
    requires |out| == |b3|
    requires SameExcept(b3, out, info.h.optOff + OH_DATA_DIR + 8, info.h.optOff + OH_DATA_DIR + 16)
    ensures DirsEnd(info.h) <= |out| && FieldsSet(out, info.h, prof, LE16(raw, info.h.optOff + OH_DLL_CHAR))
  {
    hide ParseHeader, AlignUp, NextRaw, FirstRaw, NewSection, NewSizeOfImage, InSlots, BadSlots, Sections, Redirected,
         NextRva, Sound, SlotFrame, AllBacked, Word, FieldsSet, SlotOff, HeaderAt;
    var h := info.h;
    RedirectedBacked(b1, b2, Sections(raw, h), h.sectAlign, PlanOf(info, prof), info.imports);
    HeadersUntouched(b1, b2, h, BadOf(info, prof));
    NextSectionRoom(b2, h, |sec|);
    FieldsKept(b1, out, h, prof, LE16(raw, h.optOff + OH_DLL_CHAR));
  }

  function DirsEnd(h: Header): int { h.optOff + OH_DATA_DIR + 16 }

  lemma FieldsKept(b1: bytes, b2: bytes, h: Header, prof: Profile, was: u16)
    requires h.optOff + OH_DATA_DIR + 16 <= |b1| <= |b2| && FieldsSet(b1, h, prof, was)
    requires forall i | h.optOff + OH_MAJOR_OS <= i < h.optOff + OH_DLL_CHAR + 2 && !InSizeField(h, i) :: b2[i] == b1[i]
    ensures FieldsSet(b2, h, prof, was)
  {
    hide AndNot, Word;
  }

  lemma HeadersUntouched(b1: bytes, b2: bytes, h: Header, slots: set<u32>)
    requires Sound(b1, h) && HeaderInFile(b1, h) && AllBacked(Sections(b1, h), slots)
    requires SlotFrame(b1, b2, Sections(b1, h), h.sectAlign, slots)
    ensures forall i | 0 <= i < h.LastHdrEnd() :: b2[i] == b1[i]
  {
    hide ParseHeader, SectionsOk, SlotOff, SlotBacked;
    var secs := Sections(b1, h);
    forall i | 0 <= i < h.LastHdrEnd() ensures b2[i] == b1[i] {
      if InSlots(secs, h.sectAlign, slots, i) {
        var s :| s in slots && SlotOff(secs, h.sectAlign, s) <= i < SlotOff(secs, h.sectAlign, s) + 4;
        var k := SlotPlace(secs, h, |b1|, s);
      }
    }
  }

  /** The slots lie between the headers and the new data, so their contents survive the last two stages. */
  lemma HoldsStages(b2: bytes, b3: bytes, out: bytes, info: Info, prof: Profile, sec: bytes)
    requires Sound(b2, info.h) && HeaderInFile(b2, info.h) && |sec| < W32
    requires Fits(Sections(b2, info.h), info.h, |sec|)
    requires AllBacked(Sections(b2, info.h), BadOf(info, prof))
    requires Holds(b2, Sections(b2, info.h), info.h.sectAlign, PlanOf(info, prof), info.imports)
    requires Appended(b2, b3, info.h, SECTION_NAME, sec, SECTION_CHARS)
    requires |out| == |b3|
    requires SameExcept(b3, out, info.h.optOff + OH_DATA_DIR + 8, info.h.optOff + OH_DATA_DIR + 16)
    ensures Holds(out, Sections(b2, info.h), info.h.sectAlign, PlanOf(info, prof), info.imports)
  {
    hide ParseHeader, AlignUp, NextRaw, FirstRaw, NewSection, NewSizeOfImage, SlotBacked, BadSlots, Sections, NextRva, Sound,
         SlotOff, Decide, LastOver, Enc32, InWord, HeaderAt;
    var h, p, s := info.h, PlanOf(info, prof), info.imports;
    var secs := Sections(b2, h);
    BadSlotsMeans(p, s);
    NextSectionRoom(b2, h, |sec|);
    forall k: nat, x: int | LastOver(p, s, k, x)
      ensures k < |s| && InWord(s[k].slot, x) && Decide(p, s[k]).Redirect?
              && HeldHere(out, secs, h.sectAlign, s[k].slot, Decide(p, s[k]).va, x)
    {
      LastIsRedirected(p, s, k, x);
      assert s[k].slot in BadSlots(p, s);
      SlotBetween(b2, h, s[k].slot);
      SlotIndex(s[k].slot, x);
      assert HeldHere(b2, secs, h.sectAlign, s[k].slot, Decide(p, s[k]).va, x);
    }
  }

  lemma LastIsRedirected(p: Plan, s: seq<Import>, k: nat, x: int)
    requires LastOver(p, s, k, x)
    ensures k < |s| && Decide(p, s[k]).Redirect? && InWord(s[k].slot, x)
  {
    hide Decide, InWord;
  }

  lemma SlotIndex(slot: int, x: int)
    requires InWord(slot, x)
    ensures 0 <= x - slot < 4
  {}

  lemma SlotBetween(b: bytes, h: Header, slot: u32)
    requires Sound(b, h) && HeaderInFile(b, h) && SlotBacked(Sections(b, h), slot)
    requires h.LastHdrEnd() + 40 <= FirstRaw(Sections(b, h))
    ensures var o := SlotOff(Sections(b, h), h.sectAlign, slot);
            h.LastHdrEnd() + 40 <= o && o + 4 <= NextRaw(Sections(b, h), h) && o + 4 <= |b|
  {
    hide ParseHeader, SectionsOk, FirstRaw, NextRaw, SlotOff, AlignUp, NextRva;
    var secs := Sections(b, h);
    var k := SlotPlace(secs, h, |b|, slot);
    FirstRawIsMin(secs);
    NextIsBehind(secs, h, |b|);
  }
}
