/** The PE32 header fields and section table of an image, read from its bytes. */
module Image {
  import opened Bytes
  import opened Align

  datatype Section = Section(name: bytes, vs: u32, va: u32, rawSize: u32, rawPtr: u32, chars: u32)

  /** The offsets and fields of the headers that the patcher uses. */
  datatype Header = Header(peOff: nat, optOff: nat, nSect: nat, sectAlign: u32, fileAlign: u32,
                           imageBase: u32, firstSect: nat)
  {
    /** Where the next section header would go. */
    function LastHdrEnd(): nat { firstSect + 40 * nSect }
  }

  // Field offsets within the PE32 optional header.
  const OH_MAJOR_OS := 40
  const OH_MAJOR_SUBSYS := 48
  const OH_SIZE_OF_IMAGE := 56
  const OH_SIZE_OF_HEADERS := 60
  const OH_CHECKSUM := 64
  const OH_DLL_CHAR := 70
  const OH_NUM_DIRS := 92
  const OH_DATA_DIR := 96

  /** The headers of a PE32 file; None when they are malformed or cut short. */
  function ParseHeader(b: bytes): (r: Option<Header>)
    ensures r.Some? ==> HeaderInFile(b, r.value)
  {
    if |b| < 96 || b[0] != 0x4D || b[1] != 0x5A then None
    else
      var pe := LE32(b, 0x3c);
      if pe + 24 > |b| || LE32(b, pe) != 0x4550 then None  // "PE\0\0"
      else
        var n, optSize, opt := LE16(b, pe + 6), LE16(b, pe + 20), pe + 24;
        if optSize < OH_DATA_DIR + 16 || opt + optSize + 40 * n > |b| then None
        else if LE16(b, opt) != 0x10b || LE32(b, opt + OH_NUM_DIRS) < 2 then None
        else Some(Header(pe, opt, n, LE32(b, opt + 32), LE32(b, opt + 36), LE32(b, opt + 28), opt + optSize))
  }

  /** The format of a PE32 file's headers, as far as the patcher looks: marks, counts and the fields of h in their places. */
  ghost predicate WellHeaded(b: bytes, h: Header) {
    && |b| >= 96 && b[..2] == Ascii("MZ") && h.peOff == LE32(b, 60)
    && h.peOff + 24 <= |b| && b[h.peOff..h.peOff + 4] == Ascii("PE") + [0, 0]
    && h.nSect == LE16(b, h.peOff + 6) && h.optOff == h.peOff + 24
    && LE16(b, h.peOff + 20) >= 112 && h.firstSect == h.optOff + LE16(b, h.peOff + 20)
    && h.firstSect + 40 * h.nSect <= |b|
    && LE16(b, h.peOff + 24) == 0x10B && LE32(b, h.peOff + 116) >= 2
    && h.imageBase == LE32(b, h.peOff + 52) && h.sectAlign == LE32(b, h.peOff + 56) && h.fileAlign == LE32(b, h.peOff + 60)
  }

  /** A file parses exactly when it has that format. */
  lemma ParsesIff(b: bytes, h: Header)
    ensures ParseHeader(b) == Some(h) <==> WellHeaded(b, h)
  {
    if |b| >= 96 {
      assert b[..2] == Ascii("MZ") <==> b[0] == 0x4D && b[1] == 0x5A by {
        assert b[..2][0] == b[0] && b[..2][1] == b[1];
      }
      var pe := LE32(b, 60);
      if pe + 24 <= |b| { MarkMeans(b, pe); }
    }
  }

  lemma MarkMeans(b: bytes, o: nat)
    requires o + 4 <= |b|
    ensures LE32(b, o) == 0x4550 <==> b[o..o + 4] == Ascii("PE") + [0, 0]
  {
    var w := b[o..o + 4];
    assert w[0] == b[o] && w[1] == b[o + 1] && w[2] == b[o + 2] && w[3] == b[o + 3];
    if LE32(b, o) == 0x4550 { BaseDigits(b[o], b[o + 1], b[o + 2], b[o + 3], 0x50, 0x45, 0, 0); }
  }

  ghost predicate HeaderInFile(b: bytes, h: Header) {
    && h.optOff == h.peOff + 24
    && h.optOff + OH_DATA_DIR + 16 <= h.firstSect
    && h.LastHdrEnd() <= |b|
    && h.nSect < 0x1_0000
  }

  /** An 8-byte section name, cut at its first NUL. */
  function CStr8(b: bytes): bytes {
    if b == [] || b[0] == 0 then [] else [b[0]] + CStr8(b[1..])
  }

  /** What is left of a name: the bytes in front of its first NUL, or all of them. */
  lemma {:induction false} NameCut(b: bytes)
    ensures var s := CStr8(b);
            && |s| <= |b| && s == b[..|s|] && (forall i | 0 <= i < |s| :: s[i] != 0) && (|s| < |b| ==> b[|s|] == 0)
  {
    if b == [] || b[0] == 0 {
    } else {
      NameCut(b[1..]);
      var s := CStr8(b[1..]);
      assert b[..|s| + 1] == [b[0]] + b[1..][..|s|];
    }
  }

  function SectionAt(b: bytes, o: nat): Section
    requires o + 40 <= |b|
  {
    Section(CStr8(b[o..o + 8]), LE32(b, o + 8), LE32(b, o + 12), LE32(b, o + 16), LE32(b, o + 20), LE32(b, o + 36))
  }

  function SectionsFrom(b: bytes, first: nat, n: nat): (r: seq<Section>)
    requires first + 40 * n <= |b|
    ensures |r| == n
    ensures forall i | 0 <= i < n :: r[i] == SectionAt(b, first + 40 * i)
  {
    seq(n, i requires 0 <= i < n => SectionAt(b, first + 40 * i))
  }

  function Sections(b: bytes, h: Header): seq<Section>
    requires HeaderInFile(b, h)
  {
    SectionsFrom(b, h.firstSect, h.nSect)
  }

  /** Data directory i: the RVA it names. */
  function DataDirRva(b: bytes, h: Header, i: nat): u32
    requires h.optOff + OH_DATA_DIR + 8 * i + 4 <= |b|
  {
    LE32(b, h.optOff + OH_DATA_DIR + 8 * i)
  }

  // ---------------------------------------------------------------- extents

  /** End of a section in memory, in uint32 arithmetic. */
  function VEnd(s: Section, sa: u32): u32 { Add32(s.va, AlignUp(s.vs, sa)) }

  /** The highest section end in memory; zero when there are no sections. */
  function MaxVEnd(secs: seq<Section>, sa: u32): u32 {
    if secs == [] then 0
    else
      var k := |secs| - 1;
      var m, e := MaxVEnd(secs[..k], sa), VEnd(secs[k], sa);
      if e > m then e else m
  }

  function RawEnd(s: Section): u32 { Add32(s.rawPtr, s.rawSize) }

  function MaxRawEnd(secs: seq<Section>): u32 {
    if secs == [] then 0
    else
      var k := |secs| - 1;
      var m, e := MaxRawEnd(secs[..k]), RawEnd(secs[k]);
      if e > m then e else m
  }

  /** Lowest file offset holding section data, 2^32 - 1 when no section has any. */
  function FirstRaw(secs: seq<Section>): u32 {
    if secs == [] then W32 - 1
    else
      var k := |secs| - 1;
      var m, s := FirstRaw(secs[..k]), secs[k];
      if s.rawPtr < m && s.rawSize > 0 then s.rawPtr else m
  }

  /** MaxVEnd is an upper bound of the section ends, and one of them unless there are none above zero. */
  lemma {:induction false} MaxVEndIsMax(secs: seq<Section>, sa: u32)
    ensures forall i | 0 <= i < |secs| :: VEnd(secs[i], sa) <= MaxVEnd(secs, sa)
    ensures MaxVEnd(secs, sa) == 0 || exists i | 0 <= i < |secs| :: VEnd(secs[i], sa) == MaxVEnd(secs, sa)
  {
    hide VEnd;
    if secs == [] {
    } else {
      MaxVEndIsMax(secs[..|secs| - 1], sa);
    }
  }

  lemma {:induction false} MaxRawEndIsMax(secs: seq<Section>)
    ensures forall i | 0 <= i < |secs| :: RawEnd(secs[i]) <= MaxRawEnd(secs)
    ensures MaxRawEnd(secs) == 0 || exists i | 0 <= i < |secs| :: RawEnd(secs[i]) == MaxRawEnd(secs)
  {
    hide RawEnd;
    if secs == [] {
    } else {
      MaxRawEndIsMax(secs[..|secs| - 1]);
    }
  }

  /** FirstRaw is the lowest raw pointer of a section with raw data. */
  lemma {:induction false} FirstRawIsMin(secs: seq<Section>)
    ensures forall i | 0 <= i < |secs| :: secs[i].rawSize > 0 ==> FirstRaw(secs) <= secs[i].rawPtr
    ensures FirstRaw(secs) == W32 - 1
            || exists i | 0 <= i < |secs| :: secs[i].rawSize > 0 && secs[i].rawPtr == FirstRaw(secs)
  {
    if secs == [] {
    } else {
      FirstRawIsMin(secs[..|secs| - 1]);
    }
  }

  // ---------------------------------------------------------------- well-formed images

  /** A section whose extents do not wrap and whose raw data lies in the file, after the headers. */
  ghost predicate SectionOk(s: Section, h: Header, fileLen: nat)
    requires h.sectAlign > 0
  {
    && s.va % h.sectAlign == 0
    && s.vs + h.sectAlign <= W32
    && s.va + AlignUp(s.vs, h.sectAlign) < W32
    && s.rawPtr + s.rawSize <= fileLen
    && s.rawPtr + s.rawSize < W32
    && (s.rawSize > 0 ==> h.LastHdrEnd() <= s.rawPtr)
  }

  /** The sections a linker writes: aligned, not wrapping, disjoint in memory, behind the headers in the file. */
  ghost predicate SectionsOk(secs: seq<Section>, h: Header, fileLen: nat) {
    && PowerOfTwo(h.sectAlign) && PowerOfTwo(h.fileAlign)
    && h.sectAlign > 0
    && (forall i | 0 <= i < |secs| :: SectionOk(secs[i], h, fileLen))
    && (forall i, j | 0 <= i < j < |secs| :: ApartInMemory(secs[i], secs[j], h.sectAlign))
    && (forall i, j | 0 <= i < j < |secs| :: ApartInFile(secs[i], secs[j]))
    && (exists i | 0 <= i < |secs| :: HasData(secs[i]))
    && MaxRawEnd(secs) + h.fileAlign <= W32
    && MaxVEnd(secs, h.sectAlign) + h.sectAlign <= W32
  }

  predicate HasData(s: Section) { s.vs > 0 && s.rawSize > 0 }

  ghost predicate ApartInMemory(s: Section, t: Section, sa: u32) {
    VEnd(s, sa) <= t.va || VEnd(t, sa) <= s.va
  }

  ghost predicate ApartInFile(s: Section, t: Section) {
    s.rawPtr + s.rawSize <= t.rawPtr || t.rawPtr + t.rawSize <= s.rawPtr || s.rawSize == 0 || t.rawSize == 0
  }

  /** The image is well formed and its headers are those in h. */
  ghost predicate Sound(b: bytes, h: Header) {
    && ParseHeader(b) == Some(h)
    && 0x40 <= h.peOff
    && h.nSect < 0xFFFF
    && SectionsOk(Sections(b, h), h, |b|)
  }

  /** Where AddSection places the next section: in memory and in the file. */
  function NextRva(secs: seq<Section>, h: Header): u32 { AlignUp(MaxVEnd(secs, h.sectAlign), h.sectAlign) }
  function NextRaw(secs: seq<Section>, h: Header): u32 { AlignUp(MaxRawEnd(secs), h.fileAlign) }

  /** The next section starts after every existing one, both in memory and in the file. */
  lemma NextIsBehind(secs: seq<Section>, h: Header, fileLen: nat)
    requires SectionsOk(secs, h, fileLen)
    ensures LeastMultiple(NextRva(secs, h), MaxVEnd(secs, h.sectAlign), h.sectAlign)
    ensures PowerOfTwo(h.sectAlign) && NextRva(secs, h) % h.sectAlign == 0
    ensures forall i | 0 <= i < |secs| :: secs[i].va + AlignUp(secs[i].vs, h.sectAlign) <= NextRva(secs, h)
    ensures forall i | 0 <= i < |secs| :: secs[i].va + secs[i].vs <= NextRva(secs, h)
    ensures forall i | 0 <= i < |secs| :: secs[i].rawPtr + secs[i].rawSize <= NextRaw(secs, h)
    ensures h.LastHdrEnd() <= NextRaw(secs, h)
    ensures 0 < NextRva(secs, h)
  {
    hide AlignUp, PowerOfTwo, MaxVEnd, MaxRawEnd;
    AlignUpExact(MaxVEnd(secs, h.sectAlign), h.sectAlign);
    AlignUpExact(MaxRawEnd(secs), h.fileAlign);
    MaxVEndIsMax(secs, h.sectAlign);
    MaxRawEndIsMax(secs);
    forall i | 0 <= i < |secs|
      ensures secs[i].va + AlignUp(secs[i].vs, h.sectAlign) <= NextRva(secs, h)
      ensures secs[i].va + secs[i].vs <= NextRva(secs, h)
      ensures secs[i].rawPtr + secs[i].rawSize <= NextRaw(secs, h)
    {
      assert SectionOk(secs[i], h, fileLen);
      AlignUpExact(secs[i].vs, h.sectAlign);
      assert VEnd(secs[i], h.sectAlign) == secs[i].va + AlignUp(secs[i].vs, h.sectAlign);
      assert RawEnd(secs[i]) == secs[i].rawPtr + secs[i].rawSize;
    }
    var i :| 0 <= i < |secs| && HasData(secs[i]);
    assert SectionOk(secs[i], h, fileLen);
  }

  // ---------------------------------------------------------------- addresses

  predicate Covers(s: Section, rva: u32) { s.va <= rva < s.va + s.vs }

  /** The file offset an RVA maps to; None when it lies outside every section or outside the raw data. */
  function OffIn(secs: seq<Section>, fileLen: nat, rva: u32): (r: Option<nat>)
    ensures r.Some? ==> r.value < fileLen
  {
    if secs == [] then None
    else if Covers(secs[0], rva) then
      var delta := rva - secs[0].va;
      if delta < secs[0].rawSize && delta + secs[0].rawPtr < fileLen then Some(delta + secs[0].rawPtr) else None
    else OffIn(secs[1..], fileLen, rva)
  }

  /** The patcher's own map: the first section whose aligned extent holds the RVA, in uint32 arithmetic. */
  function FileOffIn(secs: seq<Section>, sa: u32, rva: u32): Option<u32> {
    if secs == [] then None
    else if secs[0].va <= rva < VEnd(secs[0], sa) then Some(Add32(rva - secs[0].va, secs[0].rawPtr))
    else FileOffIn(secs[1..], sa, rva)
  }

  /** Section s holds file data for the byte at rva. */
  predicate Backs(s: Section, rva: int) { s.va <= rva < s.va + s.vs && rva - s.va < s.rawSize }

  /** When only section k covers an address, the map is that section's. */
  lemma {:induction false} OffInAt(secs: seq<Section>, fileLen: nat, rva: u32, k: nat)
    requires k < |secs| && Covers(secs[k], rva)
    requires forall i | 0 <= i < k :: !Covers(secs[i], rva)
    ensures rva - secs[k].va < secs[k].rawSize && rva - secs[k].va + secs[k].rawPtr < fileLen
            ==> OffIn(secs, fileLen, rva) == Some(rva - secs[k].va + secs[k].rawPtr)
    ensures OffIn(secs, fileLen, rva).Some? ==> rva - secs[k].va < secs[k].rawSize
    decreases k
  {
    if k == 0 {
    } else {
      assert secs[k] == secs[1..][k - 1];
      assert forall i | 0 <= i < k - 1 :: secs[1..][i] == secs[i + 1];
      assert !Covers(secs[0], rva);
      OffInAt(secs[1..], fileLen, rva, k - 1);
    }
  }

  lemma {:induction false} OffInSome(secs: seq<Section>, fileLen: nat, rva: u32) returns (k: nat)
    requires OffIn(secs, fileLen, rva).Some?
    ensures k < |secs| && Covers(secs[k], rva) && Backs(secs[k], rva)
    ensures OffIn(secs, fileLen, rva) == Some(rva - secs[k].va + secs[k].rawPtr)
    ensures forall i | 0 <= i < k :: !Covers(secs[i], rva)
    decreases |secs|
  {
    if Covers(secs[0], rva) {
      k := 0;
    } else {
      var j := OffInSome(secs[1..], fileLen, rva);
      k := j + 1;
      forall i | 0 <= i < k ensures !Covers(secs[i], rva) {
        if i > 0 { assert secs[i] == secs[1..][i - 1]; }
      }
    }
  }

  /** Section k is the first that covers the address. */
  ghost predicate FirstCover(secs: seq<Section>, rva: u32, k: nat) {
    k < |secs| && Covers(secs[k], rva) && forall i | 0 <= i < k :: !Covers(secs[i], rva)
  }

  /** The reader's map, on any section table: the first section that covers the address decides. */
  lemma OffInIff(secs: seq<Section>, fileLen: nat, rva: u32, o: nat)
    ensures OffIn(secs, fileLen, rva) == Some(o)
            <==> exists k: nat :: FirstCover(secs, rva, k) && o == rva - secs[k].va + secs[k].rawPtr < fileLen
                                  && rva - secs[k].va < secs[k].rawSize
  {
    hide OffIn;
    if OffIn(secs, fileLen, rva).Some? {
      var k := OffInSome(secs, fileLen, rva);
      assert FirstCover(secs, rva, k);
    }
    if k: nat :| FirstCover(secs, rva, k) {
      OffInAt(secs, fileLen, rva, k);
    }
  }

  /** The same for the patcher's map: extents rounded up, sums in 32 bits, and no look at the raw data. */
  ghost predicate FirstExtent(secs: seq<Section>, sa: u32, rva: u32, k: nat) {
    k < |secs| && secs[k].va <= rva < VEnd(secs[k], sa) && forall i | 0 <= i < k :: !(secs[i].va <= rva < VEnd(secs[i], sa))
  }

  lemma FileOffIff(secs: seq<Section>, sa: u32, rva: u32, o: u32)
    ensures FileOffIn(secs, sa, rva) == Some(o)
            <==> exists k: nat :: FirstExtent(secs, sa, rva, k) && o == (rva - secs[k].va + secs[k].rawPtr) % W32
  {
    hide VEnd, FileOffIn;
    if FileOffIn(secs, sa, rva).Some? {
      var k := FileOffSome(secs, sa, rva);
      FileOffInAt(secs, sa, rva, k);
      assert FirstExtent(secs, sa, rva, k);
    }
    if k: nat :| FirstExtent(secs, sa, rva, k) {
      FileOffInAt(secs, sa, rva, k);
    }
  }

  lemma {:induction false} FileOffSome(secs: seq<Section>, sa: u32, rva: u32) returns (k: nat)
    requires FileOffIn(secs, sa, rva).Some?
    ensures k < |secs| && secs[k].va <= rva < VEnd(secs[k], sa)
    ensures forall i | 0 <= i < k :: !(secs[i].va <= rva < VEnd(secs[i], sa))
    decreases |secs|
  {
    hide VEnd;
    if secs[0].va <= rva < VEnd(secs[0], sa) {
      k := 0;
    } else {
      var j := FileOffSome(secs[1..], sa, rva);
      k := j + 1;
      forall i | 0 <= i < k ensures !(secs[i].va <= rva < VEnd(secs[i], sa)) {
        if i > 0 { assert secs[i] == secs[1..][i - 1]; }
      }
    }
  }

  /** An address no section covers has no file offset. */
  lemma {:induction false} OffInNone(secs: seq<Section>, fileLen: nat, rva: u32)
    requires forall i | 0 <= i < |secs| :: !Covers(secs[i], rva)
    ensures OffIn(secs, fileLen, rva) == None
    decreases |secs|
  {
    if secs == [] {
    } else {
      assert !Covers(secs[0], rva);
      assert forall i | 0 <= i < |secs| - 1 :: secs[1..][i] == secs[i + 1];
      OffInNone(secs[1..], fileLen, rva);
    }
  }

  lemma {:induction false} FileOffInAt(secs: seq<Section>, sa: u32, rva: u32, k: nat)
    requires k < |secs| && secs[k].va <= rva < VEnd(secs[k], sa)
    requires forall i | 0 <= i < k :: !(secs[i].va <= rva < VEnd(secs[i], sa))
    ensures FileOffIn(secs, sa, rva) == Some(Add32(rva - secs[k].va, secs[k].rawPtr))
    decreases k
  {
    if k == 0 {
    } else {
      assert secs[k] == secs[1..][k - 1];
      assert forall i | 0 <= i < k - 1 :: secs[1..][i] == secs[i + 1];
      assert !(secs[0].va <= rva < VEnd(secs[0], sa));
      FileOffInAt(secs[1..], sa, rva, k - 1);
    }
  }

  lemma SectionExtent(secs: seq<Section>, h: Header, fileLen: nat, i: nat)
    requires SectionsOk(secs, h, fileLen) && i < |secs|
    ensures SectionOk(secs[i], h, fileLen)
    ensures VEnd(secs[i], h.sectAlign) == secs[i].va + AlignUp(secs[i].vs, h.sectAlign) >= secs[i].va + secs[i].vs
    ensures RawEnd(secs[i]) == secs[i].rawPtr + secs[i].rawSize
  {
    hide AlignUp, PowerOfTwo, MaxVEnd, MaxRawEnd;
    assert SectionOk(secs[i], h, fileLen);
    AlignUpExact(secs[i].vs, h.sectAlign);
  }

  /** Different sections never cover the same address, even when rounded up to the alignment. */
  lemma OthersMiss(secs: seq<Section>, h: Header, fileLen: nat, rva: u32, i: nat, k: nat)
    requires SectionsOk(secs, h, fileLen)
    requires i < |secs| && k < |secs| && i != k
    requires secs[k].va <= rva < VEnd(secs[k], h.sectAlign)
    ensures !Covers(secs[i], rva) && !(secs[i].va <= rva < VEnd(secs[i], h.sectAlign))
  {
    SectionExtent(secs, h, fileLen, i);
    SectionExtent(secs, h, fileLen, k);
    hide AlignUp, PowerOfTwo, MaxVEnd, MaxRawEnd, VEnd;
    if i < k {
      assert ApartInMemory(secs[i], secs[k], h.sectAlign);
    } else {
      assert ApartInMemory(secs[k], secs[i], h.sectAlign);
    }
  }

  /** In a well-formed image an address backed by section k maps to that section's data, in both maps. */
  lemma BackedMaps(secs: seq<Section>, h: Header, fileLen: nat, rva: u32, k: nat)
    requires SectionsOk(secs, h, fileLen)
    requires k < |secs| && Backs(secs[k], rva)
    ensures OffIn(secs, fileLen, rva) == Some(rva - secs[k].va + secs[k].rawPtr)
    ensures FileOffIn(secs, h.sectAlign, rva) == Some(rva - secs[k].va + secs[k].rawPtr)
    ensures rva - secs[k].va + secs[k].rawPtr < fileLen
  {
    hide AlignUp, SectionsOk;
    SectionExtent(secs, h, fileLen, k);
    forall i | 0 <= i < k
      ensures !Covers(secs[i], rva) && !(secs[i].va <= rva < VEnd(secs[i], h.sectAlign))
    {
      OthersMiss(secs, h, fileLen, rva, i, k);
    }
    OffInAt(secs, fileLen, rva, k);
    FileOffInAt(secs, h.sectAlign, rva, k);
  }

  /** Whenever the reader maps an address, the patcher maps it to the same offset. */
  lemma FileOffAgrees(secs: seq<Section>, h: Header, fileLen: nat, rva: u32)
    requires SectionsOk(secs, h, fileLen)
    ensures OffIn(secs, fileLen, rva).Some? ==> FileOffIn(secs, h.sectAlign, rva) == OffIn(secs, fileLen, rva)
    ensures OffIn(secs, fileLen, rva).Some? <==> exists k | 0 <= k < |secs| :: Backs(secs[k], rva)
  {
    hide OffIn, FileOffIn, SectionsOk;
    if OffIn(secs, fileLen, rva).Some? {
      var k := OffInSome(secs, fileLen, rva);
      BackedMaps(secs, h, fileLen, rva, k);
    }
    if k: nat :| k < |secs| && Backs(secs[k], rva) {
      BackedMaps(secs, h, fileLen, rva, k);
    }
  }

  lemma {:induction false} FileOffInNone(secs: seq<Section>, sa: u32, rva: u32)
    requires forall i | 0 <= i < |secs| :: !(secs[i].va <= rva < VEnd(secs[i], sa))
    ensures FileOffIn(secs, sa, rva) == None
    decreases |secs|
  {
    hide VEnd;
    if secs == [] {
    } else {
      assert forall i | 0 <= i < |secs| - 1 :: secs[1..][i] == secs[i + 1];
      FileOffInNone(secs[1..], sa, rva);
    }
  }

  lemma {:induction false} FileOffInSome(secs: seq<Section>, sa: u32, rva: u32, k: nat)
    requires k < |secs| && secs[k].va <= rva < VEnd(secs[k], sa)
    ensures FileOffIn(secs, sa, rva).Some?
    decreases k
  {
    hide VEnd;
    if k > 0 {
      assert secs[k] == secs[1..][k - 1];
      FileOffInSome(secs[1..], sa, rva, k - 1);
    }
  }

  /** The two maps give the same answer exactly for addresses with file data and addresses of no section at all. */
  lemma MapsAgreeIff(secs: seq<Section>, h: Header, fileLen: nat, rva: u32)
    requires SectionsOk(secs, h, fileLen)
    ensures FileOffIn(secs, h.sectAlign, rva) == OffIn(secs, fileLen, rva)
            <==> (exists k | 0 <= k < |secs| :: Backs(secs[k], rva))
                 || (forall k | 0 <= k < |secs| :: !(secs[k].va <= rva < VEnd(secs[k], h.sectAlign)))
  {
    hide OffIn, FileOffIn, SectionsOk, VEnd, Backs;
    FileOffAgrees(secs, h, fileLen, rva);
    if k: nat :| k < |secs| && secs[k].va <= rva < VEnd(secs[k], h.sectAlign) {
      FileOffInSome(secs, h.sectAlign, rva, k);
    } else {
      FileOffInNone(secs, h.sectAlign, rva);
    }
  }

  // ---------------------------------------------------------------- agreement of headers

  lemma SameSection(a: bytes, b: bytes, o: nat)
    requires SameRange(a, b, o, o + 40)
    ensures SectionAt(a, o) == SectionAt(b, o)
  {
    assert a[o..o + 8] == b[o..o + 8];
  }

  lemma SameSections(a: bytes, b: bytes, first: nat, n: nat)
    requires first + 40 * n <= |a| && first + 40 * n <= |b|
    requires SameRange(a, b, first, first + 40 * n)
    ensures SectionsFrom(a, first, n) == SectionsFrom(b, first, n)
  {
    forall i | 0 <= i < n
      ensures SectionAt(a, first + 40 * i) == SectionAt(b, first + 40 * i)
    {
      SameSection(a, b, first + 40 * i);
    }
  }
}
