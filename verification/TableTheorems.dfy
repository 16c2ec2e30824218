/** The shim table survives a patch, so a patched image is judged and patched again by the same table. */
module TableTheorems {
  import opened Bytes
  import opened Image
  import opened RawImage
  import opened Appending
  import opened ImportReader
  import opened Runs
  import opened ShimTable
  import opened Profiles
  import opened Redirecting
  import opened Patcher
  import opened Verifier
  import opened RoundTrip
  import opened PatchTheorems
  import opened LoadTheorems
  import opened Loader
  import opened Rebuild
  import opened Align

  /** The file bytes from lo to hi lie outside everything a patch writes. */
  ghost predicate Steady(raw: bytes, info: Info, prof: Profile, lo: int, hi: int)
    requires HeaderInFile(raw, info.h)
  {
    0 <= lo && hi <= |raw| && forall i | lo <= i < hi :: Untouched(raw, info, prof, i)
  }

  lemma SteadyKept(raw: bytes, out: bytes, info: Info, prof: Profile, sec: bytes, ps: seq<Piece>, lo: nat, hi: nat)
    requires PatchSuccess(raw, out, info, prof, sec, ps)
    requires HeaderInFile(raw, info.h) && Steady(raw, info, prof, lo, hi)
    ensures |raw| <= |out| && forall i | lo <= i < hi :: out[i] == raw[i]
  {
    hide PatchSuccess, SectionsOk, AllBacked, FirstRaw, NextRva, NextRaw, BadSlots, Sections, InSlots, Holds, InHeaderFields,
         Untouched, ByteFrame;
    var s := MemoryFacts(raw, out, info, prof, sec, ps);
    forall i | lo <= i < hi ensures out[i] == raw[i] {
      UntouchedKept(raw, out, info, prof, sec, ps, i);
    }
  }

  /** The name at a virtual address lies, terminator included, outside everything a patch writes. */
  ghost predicate SteadyName(raw: bytes, info: Info, prof: Profile, va: u32)
    requires HeaderInFile(raw, info.h)
  {
    && info.h.imageBase <= va
    && match OffIn(Sections(raw, info.h), |raw|, va - info.h.imageBase)
       case None => false
       case Some(o) => StrAt(raw, o).Some? && Steady(raw, info, prof, o, o + |StrAt(raw, o).value| + 1)
  }

  lemma NameKept(raw: bytes, out: bytes, info: Info, prof: Profile, sec: bytes, ps: seq<Piece>, va: u32)
    requires PatchSuccess(raw, out, info, prof, sec, ps)
    requires HeaderInFile(raw, info.h) && HeaderInFile(out, Grown(info.h)) && SteadyName(raw, info, prof, va)
    ensures NameAtVa(ViewOf(out, Grown(info.h)), info.h.imageBase, va) == NameAtVa(ViewOf(raw, info.h), info.h.imageBase, va)
  {
    hide PatchSuccess, SectionsOk, AllBacked, FirstRaw, NextRva, NextRaw, BadSlots, Sections, InSlots, Holds, Steady, OffIn,
         ByteFrame, StrAt, IsStr;
    var s := MemoryFacts(raw, out, info, prof, sec, ps);
    var secs, rva := Sections(raw, info.h), va - info.h.imageBase;
    MappedBelow(secs, info.h, |raw|, rva);
    OldAddressMaps(secs, info.h, |raw|, s, |out|, rva);
    var o := OffIn(secs, |raw|, rva).value;
    var name := StrAt(raw, o).value;
    SteadyKept(raw, out, info, prof, sec, ps, o, o + |name| + 1);
    StrKept(raw, out, o, name);
  }

  lemma StrKept(b1: bytes, b2: bytes, o: nat, s: bytes)
    requires o <= |b1| && StrAt(b1, o) == Some(s) && |b1| <= |b2|
    requires forall i | o <= i < o + |s| + 1 && i < |b1| :: b2[i] == b1[i]
    ensures o <= |b2| && StrAt(b2, o) == Some(s)
  {
    assert IsStr(b1, o, s);
    assert IsStr(b2, o, s);
    StrAtUnique(b2, o, s);
  }

  lemma MappedBelow(secs: seq<Section>, h: Header, len: nat, rva: u32)
    requires SectionsOk(secs, h, len) && OffIn(secs, len, rva).Some?
    ensures rva < NextRva(secs, h)
  {
    hide SectionsOk, OffIn, NextRva;
    var k := OffInSome(secs, len, rva);
    NextIsBehind(secs, h, len);
  }

  /** The table of n records at offset o, and every name in it, lies outside everything a patch writes. */
  ghost predicate SteadyTable(raw: bytes, info: Info, prof: Profile, o: nat, n: nat)
    requires HeaderInFile(raw, info.h)
  {
    && Steady(raw, info, prof, o, o + 16 + 16 * n)
    && forall k | 0 <= k < n :: SteadyRecord(raw, info, prof, o + 16 + 16 * k)
  }

  ghost predicate SteadyRecord(raw: bytes, info: Info, prof: Profile, e: nat)
    requires HeaderInFile(raw, info.h)
  {
    && e + 16 <= |raw|
    && SteadyName(raw, info, prof, LE32(raw, e))
    && SteadyName(raw, info, prof, LE32(raw, e + 4))
  }

  /** A patch that writes nowhere into the table leaves a table that reads the same. */
  lemma TableKept(raw: bytes, out: bytes, info: Info, prof: Profile, sec: bytes, ps: seq<Piece>, o: nat)
    requires PatchSuccess(raw, out, info, prof, sec, ps)
    requires HeaderInFile(raw, info.h) && HeaderInFile(out, Grown(info.h))
    requires ValidAt(ViewOf(raw, info.h), info.h.imageBase, o) == Some(info.table)
    requires SteadyTable(raw, info, prof, o, |info.table|)
    ensures ValidAt(ViewOf(out, Grown(info.h)), info.h.imageBase, o) == Some(info.table)
  {
    hide PatchSuccess, Steady, SteadyRecord, SteadyName, Sections, ValidAt, SameNames, NameAtVa;
    var v1, v2 := ViewOf(raw, info.h), ViewOf(out, Grown(info.h));
    SteadySpan(raw, info, prof, o, o + 16 + 16 * |info.table|);
    SteadyKept(raw, out, info, prof, sec, ps, o, o + 16 + 16 * |info.table|);
    forall k | 0 <= k < |info.table| ensures SameNames(v1, v2, info.h.imageBase, o + 16 + 16 * k) {
      RecordKept(raw, out, info, prof, sec, ps, o + 16 + 16 * k);
    }
    TableReread(v1, v2, info.h.imageBase, o, info.table);
  }

  lemma SteadySpan(raw: bytes, info: Info, prof: Profile, lo: int, hi: int)
    requires HeaderInFile(raw, info.h) && Steady(raw, info, prof, lo, hi)
    ensures 0 <= lo && hi <= |raw|
  {
    hide Untouched;
  }

  lemma RecordKept(raw: bytes, out: bytes, info: Info, prof: Profile, sec: bytes, ps: seq<Piece>, e: nat)
    requires PatchSuccess(raw, out, info, prof, sec, ps)
    requires HeaderInFile(raw, info.h) && HeaderInFile(out, Grown(info.h))
    requires SteadyRecord(raw, info, prof, e)
    ensures SameNames(ViewOf(raw, info.h), ViewOf(out, Grown(info.h)), info.h.imageBase, e)
  {
    hide PatchSuccess, SteadyName, NameAtVa, Sections, LE32;
    NameKept(raw, out, info, prof, sec, ps, LE32(raw, e));
    NameKept(raw, out, info, prof, sec, ps, LE32(raw, e + 4));
  }

  // ---------------------------------------------------------------- bytes that can be foreseen

  /** The bytes of a magic with version 1 behind it. */
  function Head(j: int): u8 { if 0 <= j < |MAGIC| then MAGIC[j] else if j == 8 then 1 else 0 }

  /** Byte j of a 16-bit value. */
  function HalfByte(v: int, j: int): u8 { if j == 0 then v % 0x100 else v / 0x100 % 0x100 }

  /** The size of the new import directory's descriptors. */
  function DirectorySize(info: Info, prof: Profile): u32 { 20 * (RunCount(Kept(info.imports, BadOf(info, prof))) + 1) % W32 }

  /** The bytes of the header fields in a patched image. */
  function FieldByte(raw: bytes, info: Info, prof: Profile, i: int): Option<u8>
    requires HeaderInFile(raw, info.h)
  {
    var h, opt := info.h, info.h.optOff;
    if h.peOff + 6 <= i < h.peOff + 8 then Some(HalfByte(h.nSect + 1, i - (h.peOff + 6)))
    else if opt + OH_MAJOR_OS <= i < opt + OH_MAJOR_OS + 2 then Some(HalfByte(prof.osMajor, i - (opt + OH_MAJOR_OS)))
    else if opt + OH_MAJOR_OS + 2 <= i < opt + OH_MAJOR_OS + 4 then Some(HalfByte(prof.osMinor, i - (opt + OH_MAJOR_OS + 2)))
    else if opt + OH_MAJOR_SUBSYS <= i < opt + OH_MAJOR_SUBSYS + 2 then
      Some(HalfByte(prof.subsysMajor, i - (opt + OH_MAJOR_SUBSYS)))
    else if opt + OH_MAJOR_SUBSYS + 2 <= i < opt + OH_MAJOR_SUBSYS + 4 then
      Some(HalfByte(prof.subsysMinor, i - (opt + OH_MAJOR_SUBSYS + 2)))
    else if InCheckSum(h, i) then Some(0)
    else if InDllChar(h, i) then Some(HalfByte(AndNot(info.dllChar, 0x60), i - (opt + OH_DLL_CHAR)))
    else if InSizeField(h, i) then
      SlotByte(NewSizeOfImage(Sections(raw, h), h, NewLength(info, prof)), opt + OH_SIZE_OF_IMAGE, i)
    else if opt + OH_DATA_DIR + 8 <= i < opt + OH_DATA_DIR + 12 then
      SlotByte(NextRva(Sections(raw, h), h), opt + OH_DATA_DIR + 8, i)
    else SlotByte(DirectorySize(info, prof), opt + OH_DATA_DIR + 12, i)
  }

  /** Those of the new section header, and those fields. */
  function FixedByte(raw: bytes, info: Info, prof: Profile, i: int): Option<u8>
    requires HeaderInFile(raw, info.h)
  {
    var secs, o := Sections(raw, info.h), info.h.LastHdrEnd();
    if o <= i < o + 8 then Some(Pad8(SECTION_NAME)[i - o])
    else if o + 8 <= i < o + 12 then SlotByte(NewLength(info, prof), o + 8, i)
    else if o + 12 <= i < o + 16 then SlotByte(NextRva(secs, info.h), o + 12, i)
    else if o + 16 <= i < o + 20 then SlotByte(AlignUp(NewLength(info, prof), info.h.fileAlign), o + 16, i)
    else if o + 20 <= i < o + 24 then SlotByte(NextRaw(secs, info.h), o + 20, i)
    else if o + 24 <= i < o + 36 then Some(0)
    else if o + 36 <= i < o + 40 then SlotByte(SECTION_CHARS, o + 36, i)
    else FieldByte(raw, info, prof, i)
  }

  /** Byte i lies behind the file, in front of the new section, and is zero there. */
  predicate Padding(raw: bytes, info: Info, i: int, x: u8)
    requires HeaderInFile(raw, info.h)
  {
    |raw| <= i < NextRaw(Sections(raw, info.h), info.h) && x == 0
  }

  /** Byte i of the file belongs to a redirected slot, and is x in the address of its polyfill. */
  ghost predicate SlotBecomes(raw: bytes, info: Info, prof: Profile, i: int, x: u8)
    requires HeaderInFile(raw, info.h)
  {
    exists im, va, rva: u32 ::
      LastRedirect(PlanOf(info, prof), info.imports, im, va, rva) && OffIn(Sections(raw, info.h), |raw|, rva) == Some(i)
      && SlotByte(va, im.slot, rva) == Some(x)
  }

  /** It follows from the input that every patched image has x at offset i. */
  ghost predicate Becomes(raw: bytes, info: Info, prof: Profile, i: int, x: u8)
    requires HeaderInFile(raw, info.h)
  {
    || (Untouched(raw, info, prof, i) && raw[i] == x)
    || FixedByte(raw, info, prof, i) == Some(x)
    || SlotBecomes(raw, info, prof, i, x)
    || Padding(raw, info, i, x)
  }

  lemma BecomesRight(raw: bytes, out: bytes, info: Info, prof: Profile, sec: bytes, ps: seq<Piece>, i: nat, x: u8)
    requires PatchSuccess(raw, out, info, prof, sec, ps) && HeaderInFile(raw, info.h) && Becomes(raw, info, prof, i, x)
    ensures i < |out| && out[i] == x
  {
    hide PatchSuccess, Untouched, FixedByte, SlotBecomes, Padding;
    if FixedByte(raw, info, prof, i) == Some(x) {
      FixedRight(raw, out, info, prof, sec, ps, i, x);
    } else if SlotBecomes(raw, info, prof, i, x) {
      SlotRight(raw, out, info, prof, sec, ps, i, x);
    } else if Padding(raw, info, i, x) {
      PaddingRight(raw, out, info, prof, sec, ps, i, x);
    } else {
      UntouchedKept(raw, out, info, prof, sec, ps, i);
    }
  }

  lemma PaddingRight(raw: bytes, out: bytes, info: Info, prof: Profile, sec: bytes, ps: seq<Piece>, i: nat, x: u8)
    requires PatchSuccess(raw, out, info, prof, sec, ps) && HeaderInFile(raw, info.h) && Padding(raw, info, i, x)
    ensures i < |out| && out[i] == x
  {
    hide PatchSuccess, SectionsOk, AllBacked, FirstRaw, NextRva, NextRaw, BadSlots, Sections, InSlots, Holds, InHeaderFields;
    var s := MemoryFacts(raw, out, info, prof, sec, ps);
    LongEnough(raw, out, info, prof, sec, ps);
  }

  /** The patched file holds the new data, and with it everything in front of it. */
  lemma LongEnough(raw: bytes, out: bytes, info: Info, prof: Profile, sec: bytes, ps: seq<Piece>)
    requires PatchSuccess(raw, out, info, prof, sec, ps)
    ensures HeaderInFile(raw, info.h) && |raw| <= |out|
    ensures NextRaw(Sections(raw, info.h), info.h) + |sec| <= |out|
  {
    hide OpenImage, ParseHeader, Sound, CanRedirect, Directory, FieldsSet, AllBacked, Holds, NextRva, NextRaw, FirstRaw,
         NewSizeOfImage, BadSlots, LE16, LE32, AlignUp, DataDirRva, HeaderAt, Sections, NewSize;
  }

  lemma SlotRight(raw: bytes, out: bytes, info: Info, prof: Profile, sec: bytes, ps: seq<Piece>, i: nat, x: u8)
    requires PatchSuccess(raw, out, info, prof, sec, ps) && HeaderInFile(raw, info.h) && SlotBecomes(raw, info, prof, i, x)
    ensures i < |out| && out[i] == x
  {
    hide PatchSuccess, LastRedirect, OffIn, Sections, SectionsOk, AllBacked, NextRva, NextRaw, FirstRaw, BadSlots, Holds,
         ByteFrame, Enc32, LE32, InSection;
    var im, va, rva: u32 :|
      LastRedirect(PlanOf(info, prof), info.imports, im, va, rva) && OffIn(Sections(raw, info.h), |raw|, rva) == Some(i)
      && SlotByte(va, im.slot, rva) == Some(x);
    var s := MemoryFacts(raw, out, info, prof, sec, ps);
    RedirectedSlotMapped(raw, out, info, prof, sec, ps, im, va, rva);
    MappedBelow(Sections(raw, info.h), info.h, |raw|, rva);
    OldAddressMaps(Sections(raw, info.h), info.h, |raw|, s, |out|, rva);
  }

  /** The new section header in a patched image. */
  lemma HeaderFacts(raw: bytes, out: bytes, info: Info, prof: Profile, sec: bytes, ps: seq<Piece>)
    requires PatchSuccess(raw, out, info, prof, sec, ps)
    ensures HeaderInFile(raw, info.h) && |sec| == NewLength(info, prof)
    ensures HeaderAt(out, info.h.LastHdrEnd(), NewSection(Sections(raw, info.h), info.h, SECTION_NAME, |sec|, SECTION_CHARS),
                     SECTION_NAME)
  {
    hide OpenImage, ParseHeader, SectionsOk, CanRedirect, Directory, Placed, ByteFrame, AllBacked, Holds, NextRva, NextRaw,
         FirstRaw, NewSizeOfImage, BadSlots, LE16, LE32, AlignUp, DataDirRva, CStr8, Pad8, HeaderAt, Sections, NewSize,
         RunCount;
  }

  lemma FixedRight(raw: bytes, out: bytes, info: Info, prof: Profile, sec: bytes, ps: seq<Piece>, i: nat, x: u8)
    requires PatchSuccess(raw, out, info, prof, sec, ps) && HeaderInFile(raw, info.h) && FixedByte(raw, info, prof, i) == Some(x)
    ensures i < |out| && out[i] == x
  {
    hide PatchSuccess, LE32, Enc32, CStr8, Pad8, Sections, SectionsOk, NextRva, NextRaw, AlignUp, NewLength, SECTION_NAME,
         FieldByte;
    HeaderFacts(raw, out, info, prof, sec, ps);
    var o := info.h.LastHdrEnd();
    var s := NewSection(Sections(raw, info.h), info.h, SECTION_NAME, |sec|, SECTION_CHARS);
    if o <= i < o + 8 {
      assert out[o..o + 8][i - o] == Pad8(SECTION_NAME)[i - o];
    } else if o + 8 <= i < o + 12 {
      WordBytes(out, o + 8, s.vs, i - (o + 8));
    } else if o + 12 <= i < o + 16 {
      WordBytes(out, o + 12, s.va, i - (o + 12));
    } else if o + 16 <= i < o + 20 {
      WordBytes(out, o + 16, s.rawSize, i - (o + 16));
    } else if o + 20 <= i < o + 24 {
      WordBytes(out, o + 20, s.rawPtr, i - (o + 20));
    } else if o + 36 <= i < o + 40 {
      WordBytes(out, o + 36, s.chars, i - (o + 36));
    } else if !(o + 24 <= i < o + 36) {
      FieldRight(raw, out, info, prof, sec, ps, i, x);
    }
  }

  /** The header fields of a patched image. */
  lemma FieldFacts(raw: bytes, out: bytes, info: Info, prof: Profile, sec: bytes, ps: seq<Piece>)
    requires PatchSuccess(raw, out, info, prof, sec, ps)
    ensures HeaderInFile(raw, info.h) && info.h.optOff + OH_DATA_DIR + 16 <= |out| && info.h.peOff + 8 <= |out|
    ensures FieldsSet(out, info.h, prof, info.dllChar) && LE16(out, info.h.peOff + 6) == info.h.nSect + 1
    ensures LE32(out, info.h.optOff + OH_DATA_DIR + 8) == NextRva(Sections(raw, info.h), info.h)
    ensures LE32(out, info.h.optOff + OH_DATA_DIR + 12) == DirectorySize(info, prof)
    ensures LE32(out, info.h.optOff + OH_SIZE_OF_IMAGE)
            == NewSizeOfImage(Sections(raw, info.h), info.h, NewLength(info, prof))
  {
    hide PatchSuccess, LE16, LE32, NextRva, NextRaw, Sections, AndNot, FieldsSet, Loaded, RunSplit, BadSlots, Kept,
         NewSizeOfImage, RunCount, NewSize;
    FieldsRead(raw, out, info, prof, sec, ps);
    DirectoryLoaded(raw, out, info, prof, sec, ps);
    SizeFacts(raw, out, info, prof, sec, ps);
    SectionLength(raw, out, info, prof, sec, ps);
    DirectoryWord(raw, out, info, prof, sec, ps);
  }

  lemma DirectoryWord(raw: bytes, out: bytes, info: Info, prof: Profile, sec: bytes, ps: seq<Piece>)
    requires PatchSuccess(raw, out, info, prof, sec, ps)
    ensures info.h.optOff + OH_DATA_DIR + 16 <= |out| && LE32(out, info.h.optOff + OH_DATA_DIR + 12) == 20 * (|ps| + 1)
  {
    hide OpenImage, ParseHeader, Sound, CanRedirect, Directory, FieldsSet, AllBacked, Holds, NextRva, NextRaw, Placed,
         FirstRaw, NewSizeOfImage, BadSlots, LE16, LE32, AlignUp, DataDirRva, HeaderAt, Sections, NewSize, ByteFrame,
         RunCount;
  }

  lemma FieldRight(raw: bytes, out: bytes, info: Info, prof: Profile, sec: bytes, ps: seq<Piece>, i: nat, x: u8)
    requires PatchSuccess(raw, out, info, prof, sec, ps) && HeaderInFile(raw, info.h) && FieldByte(raw, info, prof, i) == Some(x)
    ensures i < |out| && out[i] == x
  {
    hide PatchSuccess, LE32, LE16, Enc32, Sections, NextRva, AndNot, HalfByte, NewSizeOfImage, NewLength, DirectorySize;
    FieldFacts(raw, out, info, prof, sec, ps);
    var h, opt := info.h, info.h.optOff;
    HalfBytes(out, h.peOff + 6);
    HalfBytes(out, opt + OH_MAJOR_OS);
    HalfBytes(out, opt + OH_MAJOR_OS + 2);
    HalfBytes(out, opt + OH_MAJOR_SUBSYS);
    HalfBytes(out, opt + OH_MAJOR_SUBSYS + 2);
    HalfBytes(out, opt + OH_DLL_CHAR);
    ZeroBytes(out, opt + OH_CHECKSUM);
    if InSizeField(h, i) {
      WordBytes(out, opt + OH_SIZE_OF_IMAGE, LE32(out, opt + OH_SIZE_OF_IMAGE), i - (opt + OH_SIZE_OF_IMAGE));
    } else if opt + OH_DATA_DIR + 8 <= i < opt + OH_DATA_DIR + 12 {
      WordBytes(out, opt + OH_DATA_DIR + 8, NextRva(Sections(raw, h), h), i - (opt + OH_DATA_DIR + 8));
    } else if opt + OH_DATA_DIR + 12 <= i < opt + OH_DATA_DIR + 16 {
      WordBytes(out, opt + OH_DATA_DIR + 12, DirectorySize(info, prof), i - (opt + OH_DATA_DIR + 12));
    }
  }

  lemma HalfBytes(b: bytes, o: nat)
    requires o + 2 <= |b|
    ensures b[o] == HalfByte(LE16(b, o), 0) && b[o + 1] == HalfByte(LE16(b, o), 1)
  {}

  /** Every byte of a patched image in front of the new section's data can be foreseen. */
  lemma Foreseen(raw: bytes, out: bytes, info: Info, prof: Profile, sec: bytes, ps: seq<Piece>, i: nat)
    requires PatchSuccess(raw, out, info, prof, sec, ps)
    requires HeaderInFile(raw, info.h) && i < NextRaw(Sections(raw, info.h), info.h)
    ensures i < |out| && Becomes(raw, info, prof, i, out[i])
  {
    hide PatchSuccess, InHeaderFields, InSlots, NextRaw, Sections, FixedByte, SlotBecomes, BadSlots;
    LongEnough(raw, out, info, prof, sec, ps);
    if |raw| <= i {
      PaddingRight(raw, out, info, prof, sec, ps, i, 0);
    } else if InHeaderFields(info.h, i) {
      FixedKnown(raw, info, prof, i);
      FixedRight(raw, out, info, prof, sec, ps, i, FixedByte(raw, info, prof, i).value);
    } else if InSlots(Sections(raw, info.h), info.h.sectAlign, BadOf(info, prof), i) {
      var x := SlotKnown(raw, out, info, prof, sec, ps, i);
      SlotRight(raw, out, info, prof, sec, ps, i, x);
    } else {
      assert Untouched(raw, info, prof, i);
      UntouchedKept(raw, out, info, prof, sec, ps, i);
    }
  }

  lemma FixedKnown(raw: bytes, info: Info, prof: Profile, i: int)
    requires HeaderInFile(raw, info.h) && InHeaderFields(info.h, i)
    ensures FixedByte(raw, info, prof, i).Some?
  {
    hide Sections, NextRva, NextRaw, AlignUp, NewLength, DirectorySize, NewSizeOfImage, Pad8, Enc32, SECTION_NAME, AndNot,
         HalfByte;
  }

  /** A byte of the file that belongs to a redirected slot belongs to a last redirection. */
  lemma SlotKnown(raw: bytes, out: bytes, info: Info, prof: Profile, sec: bytes, ps: seq<Piece>, i: nat) returns (x: u8)
    requires PatchSuccess(raw, out, info, prof, sec, ps) && HeaderInFile(raw, info.h)
    requires InSlots(Sections(raw, info.h), info.h.sectAlign, BadOf(info, prof), i)
    ensures SlotBecomes(raw, info, prof, i, x)
  {
    hide PatchSuccess, Sections, SectionsOk, BadSlots, SlotOff, OffIn, SlotBacked, Decide, Enc32, NextRva, NextRaw, FirstRaw,
         ByteFrame, Holds, LastOver;
    var s := MemoryFacts(raw, out, info, prof, sec, ps);
    var secs, sa, p := Sections(raw, info.h), info.h.sectAlign, PlanOf(info, prof);
    var slot :| slot in BadOf(info, prof) && SlotOff(secs, sa, slot) <= i < SlotOff(secs, sa, slot) + 4;
    var rva: int := slot + (i - SlotOff(secs, sa, slot));
    SlotAddress(secs, info.h, |raw|, slot, rva);
    BadSlotsMeans(p, info.imports);
    var j :| 0 <= j < |info.imports| && Decide(p, info.imports[j]).Redirect? && info.imports[j].slot == slot;
    var k := LastCovering(p, info.imports, j, rva);
    var im := info.imports[k];
    var va := Decide(p, im).va;
    assert LastRedirect(p, info.imports, im, va, rva);
    x := SlotByte(va, im.slot, rva).value;
  }

  /** Among the redirected imports whose slots cover an address one is the last. */
  lemma {:induction false} LastCovering(p: Plan, s: seq<Import>, j: nat, x: int) returns (k: nat)
    requires j < |s| && Decide(p, s[j]).Redirect? && InWord(s[j].slot, x)
    ensures k < |s| && LastOver(p, s, k, x) && Decide(p, s[k]).Redirect? && InWord(s[k].slot, x)
    decreases |s| - j
  {
    hide Decide, InWord;
    if n :| j < n < |s| && Decide(p, s[n]).Redirect? && InWord(s[n].slot, x) {
      k := LastCovering(p, s, n, x);
    } else {
      k := j;
    }
  }

  // ---------------------------------------------------------------- nothing becomes a table

  /** One of the twelve bytes from p on is foreseen, and is not that of a magic with version 1. */
  ghost predicate Quiet(raw: bytes, info: Info, prof: Profile, p: nat)
    requires HeaderInFile(raw, info.h)
  {
    exists i: int, x: u8 :: p <= i < p + 12 && Becomes(raw, info, prof, i, x) && x != Head(i - p)
  }

  /** At a quiet place a patched image has no candidate for a table. */
  lemma QuietStays(raw: bytes, out: bytes, info: Info, prof: Profile, sec: bytes, ps: seq<Piece>, p: nat)
    requires PatchSuccess(raw, out, info, prof, sec, ps) && HeaderInFile(raw, info.h) && Quiet(raw, info, prof, p)
    ensures !Candidate(out, p)
  {
    hide PatchSuccess, Becomes, Candidate, Head;
    var i: int, x: u8 :| p <= i < p + 12 && Becomes(raw, info, prof, i, x) && x != Head(i - p);
    BecomesRight(raw, out, info, prof, sec, ps, i, x);
    CandidateByte(out, p, i - p);
  }

  lemma CandidateByte(b: bytes, p: nat, j: nat)
    requires j < 12
    ensures Candidate(b, p) ==> p + j < |b| && b[p + j] == Head(j)
  {
    if Candidate(b, p) {
      if j < 8 {
        assert b[p + j] == b[p..p + 8][j];
      } else {
        BaseDigits(b[p + 8], b[p + 9], b[p + 10], b[p + 11], 1, 0, 0, 0);
      }
    }
  }

  lemma CandidateBytes(b: bytes, p: nat)
    requires p + 16 <= |b| && forall j | 0 <= j < 12 :: b[p + j] == Head(j)
    ensures Candidate(b, p)
  {
    hide MAGIC;
    MagicEight();
    forall j | 0 <= j < 8 ensures b[p..p + 8][j] == MAGIC[j] {
      assert b[p + j] == Head(j);
    }
    assert b[p + 8] == Head(8) && b[p + 9] == Head(9) && b[p + 10] == Head(10) && b[p + 11] == Head(11);
  }

  lemma MagicEight()
    ensures |MAGIC| == 8
  {}

  /** In front of the new section's data, being quiet is exactly having no candidate in the patched image. */
  lemma QuietIff(raw: bytes, out: bytes, info: Info, prof: Profile, sec: bytes, ps: seq<Piece>, p: nat)
    requires PatchSuccess(raw, out, info, prof, sec, ps) && HeaderInFile(raw, info.h)
    requires p + 16 <= NextRaw(Sections(raw, info.h), info.h)
    ensures Quiet(raw, info, prof, p) <==> !Candidate(out, p)
  {
    hide PatchSuccess, Becomes, Candidate, Head, Sections, NextRaw;
    LongEnough(raw, out, info, prof, sec, ps);
    if Quiet(raw, info, prof, p) {
      QuietStays(raw, out, info, prof, sec, ps, p);
    } else {
      forall j | 0 <= j < 12 ensures out[p + j] == Head(j) {
        Foreseen(raw, out, info, prof, sec, ps, p + j);
        assert Becomes(raw, info, prof, p + j, out[p + j]);
      }
      CandidateBytes(out, p);
    }
  }

  /**
   * In front of a table no patch writes into, whether a patched image has any candidate at all is a property of the
   * input.
   */
  lemma NoCandidateIff(raw: bytes, out: bytes, info: Info, prof: Profile, sec: bytes, ps: seq<Piece>, o: nat)
    requires PatchSuccess(raw, out, info, prof, sec, ps)
    requires HeaderInFile(raw, info.h) && SteadyTable(raw, info, prof, o, |info.table|)
    ensures (forall p: nat | p < o :: Quiet(raw, info, prof, p)) <==> forall p: nat | p < o :: !Candidate(out, p)
  {
    hide PatchSuccess, Quiet, Candidate, Sections, NextRaw, SteadyRecord, InHeaderFields, InSlots, BadSlots;
    SteadyFront(raw, info, prof, o, |info.table|);
    forall p: nat | p < o ensures Quiet(raw, info, prof, p) <==> !Candidate(out, p) {
      QuietIff(raw, out, info, prof, sec, ps, p);
    }
  }

  lemma SteadyFront(raw: bytes, info: Info, prof: Profile, o: nat, n: nat)
    requires HeaderInFile(raw, info.h) && SteadyTable(raw, info, prof, o, n)
    ensures o + 16 <= NextRaw(Sections(raw, info.h), info.h)
  {
    hide Sections, NextRaw, SteadyRecord, InHeaderFields, InSlots, BadSlots;
    assert Untouched(raw, info, prof, o + 15);
  }

  /** A candidate that a patch leaves as it is, and that cannot be parsed: no entries, or a name below the image. */
  ghost predicate Barren(raw: bytes, info: Info, prof: Profile, p: nat)
    requires HeaderInFile(raw, info.h)
  {
    && Steady(raw, info, prof, p, p + 16)
    && (LE32(raw, p + 12) == 0 || exists k: nat :: k < LE32(raw, p + 12) && BadRecord(raw, info, prof, p + 16 + 16 * k))
  }

  ghost predicate BadRecord(raw: bytes, info: Info, prof: Profile, e: nat)
    requires HeaderInFile(raw, info.h)
  {
    Steady(raw, info, prof, e, e + 16) && (LE32(raw, e) < info.h.imageBase || LE32(raw, e + 4) < info.h.imageBase)
  }

  lemma BarrenStays(raw: bytes, out: bytes, info: Info, prof: Profile, sec: bytes, ps: seq<Piece>, p: nat)
    requires PatchSuccess(raw, out, info, prof, sec, ps) && HeaderInFile(raw, info.h) && Barren(raw, info, prof, p)
    requires HeaderInFile(out, Grown(info.h))
    ensures ValidAt(ViewOf(out, Grown(info.h)), info.h.imageBase, p) == None
  {
    hide PatchSuccess, Untouched, LE32, Candidate, Records, BadRecord, Sections;
    var v := ViewOf(out, Grown(info.h));
    var n: nat := LE32(raw, p + 12);
    SteadyKept(raw, out, info, prof, sec, ps, p, p + 16);
    SameWord(raw, out, p + 12);
    if n != 0 && p + 16 + 16 * n <= |out| {
      var k: nat :| k < n && BadRecord(raw, info, prof, p + 16 + 16 * k);
      BadRecordStays(raw, out, info, prof, sec, ps, p + 16 + 16 * k);
      RecordStops(v, info.h.imageBase, p + 16, k, n);
    }
  }

  lemma BadRecordStays(raw: bytes, out: bytes, info: Info, prof: Profile, sec: bytes, ps: seq<Piece>, e: nat)
    requires PatchSuccess(raw, out, info, prof, sec, ps) && HeaderInFile(raw, info.h) && BadRecord(raw, info, prof, e)
    requires HeaderInFile(out, Grown(info.h))
    ensures e + 16 <= |out| && RecordAt(ViewOf(out, Grown(info.h)), info.h.imageBase, e) == None
  {
    hide PatchSuccess, Untouched, LE32, Sections, CStrAt;
    SteadyKept(raw, out, info, prof, sec, ps, e, e + 16);
    SameWord(raw, out, e);
    SameWord(raw, out, e + 4);
  }

  /** One invalid record spoils the table. */
  lemma RecordStops(v: View, base: u32, e: nat, k: nat, n: nat)
    requires k < n && e + 16 * n <= |v.raw| && RecordAt(v, base, e + 16 * k) == None
    ensures Records(v, base, e, n) == None
  {
    hide RecordAt;
    RecordsStop(v, base, e, k + 1, n);
  }

  /** Nothing at p in a patched image is a table: a property of the input alone. */
  ghost predicate Harmless(raw: bytes, info: Info, prof: Profile, p: nat)
    requires HeaderInFile(raw, info.h)
  {
    Quiet(raw, info, prof, p) || Barren(raw, info, prof, p)
  }

  lemma HarmlessStays(raw: bytes, out: bytes, info: Info, prof: Profile, sec: bytes, ps: seq<Piece>, p: nat)
    requires PatchSuccess(raw, out, info, prof, sec, ps) && HeaderInFile(raw, info.h) && Harmless(raw, info, prof, p)
    requires HeaderInFile(out, Grown(info.h))
    ensures ValidAt(ViewOf(out, Grown(info.h)), info.h.imageBase, p) == None
  {
    hide PatchSuccess, Quiet, Barren, Candidate, TableAt, Sections;
    if Quiet(raw, info, prof, p) {
      QuietStays(raw, out, info, prof, sec, ps, p);
    } else {
      BarrenStays(raw, out, info, prof, sec, ps, p);
    }
  }

  // ---------------------------------------------------------------- the patched image with its table

  /** The table at o is the one the image is read with, and a patch writes nowhere into it or its names. */
  ghost predicate UntouchedTable(raw: bytes, info: Info, prof: Profile, o: nat)
    requires HeaderInFile(raw, info.h)
  {
    && LowestValid(ViewOf(raw, info.h), info.h.imageBase, 0, o, info.table)
    && SteadyTable(raw, info, prof, o, |info.table|)
  }

  ghost predicate TableUntouched(raw: bytes, info: Info, prof: Profile)
    requires HeaderInFile(raw, info.h)
  {
    exists o: nat :: UntouchedTable(raw, info, prof, o)
  }

  /**
   * A patched image whose table was not written into opens, with the surviving imports and with some table: this one,
   * or one in front of it.
   */
  lemma PatchedOpens(raw: bytes, out: bytes, info: Info, prof: Profile, sec: bytes, ps: seq<Piece>)
    requires PatchOf(raw, out, info, prof, sec, ps)
    requires HeaderInFile(raw, info.h) && TableUntouched(raw, info, prof)
    ensures OpenImage(out).Some? && OpenImage(out).value.table != []
    ensures OpenImage(out).value.h == Grown(info.h) && OpenImage(out).value.imports == Remaining(info, prof)
  {
    hide PatchSuccess, NamesBelow, ScanFrom, Sections, ReadImports, ParseHeader, Remaining, LE16, FieldsSet, ValidAt,
         SteadyTable;
    ImportsReadBack(raw, out, info, prof, sec, ps);
    FieldsRead(raw, out, info, prof, sec, ps);
    var o: nat :| UntouchedTable(raw, info, prof, o);
    TableKept(raw, out, info, prof, sec, ps, o);
    ValidIsFound(ViewOf(out, Grown(info.h)), info.h.imageBase, o);
  }

  /**
   * The table not written into is the one the patched image is read with, if and only if at every place in front of it
   * that is not quiet what the patched image has is no table.
   */
  lemma TableStaysIff(raw: bytes, out: bytes, info: Info, prof: Profile, sec: bytes, ps: seq<Piece>, o: nat)
    requires PatchSuccess(raw, out, info, prof, sec, ps)
    requires HeaderInFile(raw, info.h) && HeaderInFile(out, Grown(info.h)) && UntouchedTable(raw, info, prof, o)
    ensures LowestValid(ViewOf(out, Grown(info.h)), info.h.imageBase, 0, o, info.table)
            <==> forall p: nat | p < o :: Quiet(raw, info, prof, p)
                                         || ValidAt(ViewOf(out, Grown(info.h)), info.h.imageBase, p) == None
  {
    hide PatchSuccess, SteadyTable, Quiet, Candidate, Sections, TableAt;
    TableKept(raw, out, info, prof, sec, ps, o);
    forall p: nat | p < o && Quiet(raw, info, prof, p)
      ensures ValidAt(ViewOf(out, Grown(info.h)), info.h.imageBase, p) == None
    {
      QuietStays(raw, out, info, prof, sec, ps, p);
    }
  }

  /** A patch writes nowhere into the table or its names, and nothing in front of it can become a table. */
  ghost predicate Undisturbed(raw: bytes, info: Info, prof: Profile)
    requires HeaderInFile(raw, info.h)
  {
    exists o: nat :: UntouchedTable(raw, info, prof, o) && forall p: nat | p < o :: Harmless(raw, info, prof, p)
  }

  /** Then the patched image is read with the same table. */
  lemma TableStays(raw: bytes, out: bytes, info: Info, prof: Profile, sec: bytes, ps: seq<Piece>)
    requires PatchSuccess(raw, out, info, prof, sec, ps)
    requires HeaderInFile(raw, info.h) && HeaderInFile(out, Grown(info.h)) && Undisturbed(raw, info, prof)
    ensures ReadShimTable(out, Grown(info.h)) == Found(info.table)
  {
    hide PatchSuccess, SteadyTable, ScanFrom, ValidAt, Sections, Harmless;
    var o: nat :| UntouchedTable(raw, info, prof, o) && forall p: nat | p < o :: Harmless(raw, info, prof, p);
    forall p | 0 <= p < o ensures ValidAt(ViewOf(out, Grown(info.h)), info.h.imageBase, p) == None {
      HarmlessStays(raw, out, info, prof, sec, ps, p);
    }
    TableKept(raw, out, info, prof, sec, ps, o);
    LowestIsFound(ViewOf(out, Grown(info.h)), info.h.imageBase, 0, o, info.table);
  }

  lemma OpensWithTable(raw: bytes, out: bytes, info: Info, prof: Profile, sec: bytes, ps: seq<Piece>)
    requires PatchOf(raw, out, info, prof, sec, ps)
    requires HeaderInFile(raw, info.h) && Undisturbed(raw, info, prof)
    ensures OpenImage(out).Some? && OpenImage(out).value.table == info.table != []
    ensures OpenImage(out).value.h == Grown(info.h) && OpenImage(out).value.imports == Remaining(info, prof)
  {
    hide PatchSuccess, NamesBelow, ScanFrom, Sections, ReadImports, ParseHeader, Remaining, LE16, FieldsSet, Harmless,
         UntouchedTable;
    var o: nat :| UntouchedTable(raw, info, prof, o) && forall p: nat | p < o :: Harmless(raw, info, prof, p);
    FieldsRead(raw, out, info, prof, sec, ps);
    PatchedOpens(raw, out, info, prof, sec, ps);
    TableStays(raw, out, info, prof, sec, ps);
  }

  /** A patched image whose table is undisturbed passes Verify with the same profile. */
  lemma PatchPassesVerify(raw: bytes, out: bytes, info: Info, prof: Profile, sec: bytes, ps: seq<Piece>)
    requires PatchOf(raw, out, info, prof, sec, ps)
    requires HeaderInFile(raw, info.h) && Undisturbed(raw, info, prof)
    ensures OpenImage(out).Some? && Problems(OpenImage(out).value, prof) == []
  {
    hide PatchSuccess, NamesBelow, OpenImage, Undisturbed, Problems, Remaining;
    OpensWithTable(raw, out, info, prof, sec, ps);
    VerifiesWithTable(raw, out, info, prof, sec, ps, OpenImage(out).value);
  }

  /**
   * A patched image whose table is undisturbed is a fixed point: patching it again redirects nothing and drops
   * nothing, and every descriptor is already one run, so the imports do not change at all.
   */
  lemma PatchingIsIdempotent(raw: bytes, out: bytes, info: Info, prof: Profile, sec: bytes, ps: seq<Piece>)
    requires PatchOf(raw, out, info, prof, sec, ps)
    requires HeaderInFile(raw, info.h) && Undisturbed(raw, info, prof)
    ensures OpenImage(out).Some?
    ensures var again := OpenImage(out).value;
            && BadOf(again, prof) == {} && RedirectList(PlanOf(again, prof), again.imports) == []
            && Remaining(again, prof) == again.imports == Remaining(info, prof)
            && forall k | 0 <= k < |again.imports| :: RunIndex(again.imports, k) == again.imports[k].desc
  {
    hide PatchSuccess, NamesBelow, OpenImage, Undisturbed, BadSlots, Remaining, RedirectList, RunIndex;
    OpensWithTable(raw, out, info, prof, sec, ps);
    StaysWithTable(raw, out, info, prof, sec, ps, OpenImage(out).value);
  }
}
