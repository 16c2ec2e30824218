/** Write access to an image: the header setters, the address map and the appended section. */
module RawImage {
  import opened Bytes
  import opened Align
  import opened Image

  /** b2 has the bytes of b1 everywhere in [0, |b1|) except in [lo, hi). */
  ghost predicate SameExcept(b1: bytes, b2: bytes, lo: int, hi: int) {
    && |b1| <= |b2|
    && forall i | 0 <= i < |b1| && !(lo <= i < hi) :: b2[i] == b1[i]
  }

  /** The header bytes from which ParseHeader reads everything but the section count. */
  ghost predicate SameHeaderBytes(b1: bytes, b2: bytes, h: Header)
    requires HeaderInFile(b1, h)
  {
    && |b1| <= |b2|
    && SameRange(b1, b2, 0, 0x40)
    && SameRange(b1, b2, h.peOff, h.peOff + 6)
    && SameRange(b1, b2, h.peOff + 8, h.optOff + OH_MAJOR_OS)
    && SameRange(b1, b2, h.optOff + OH_NUM_DIRS, h.optOff + OH_DATA_DIR)
  }

  /** The values ParseHeader reads are equal in two files that share the header bytes. */
  lemma HeaderWords(b1: bytes, b2: bytes, h: Header)
    requires HeaderInFile(b1, h) && SameHeaderBytes(b1, b2, h)
    ensures 0x40 <= |b1| && b1[0] == b2[0] && b1[1] == b2[1] && LE32(b1, 0x3c) == LE32(b2, 0x3c)
    ensures LE32(b1, h.peOff) == LE32(b2, h.peOff)
    ensures LE16(b1, h.peOff + 20) == LE16(b2, h.peOff + 20)
    ensures LE16(b1, h.optOff) == LE16(b2, h.optOff)
    ensures LE32(b1, h.optOff + 28) == LE32(b2, h.optOff + 28)
    ensures LE32(b1, h.optOff + 32) == LE32(b2, h.optOff + 32)
    ensures LE32(b1, h.optOff + 36) == LE32(b2, h.optOff + 36)
    ensures LE32(b1, h.optOff + OH_NUM_DIRS) == LE32(b2, h.optOff + OH_NUM_DIRS)
  {
    hide Word;
  }

  lemma HeaderReparsed(b1: bytes, b2: bytes, h: Header, n: nat)
    requires ParseHeader(b1) == Some(h)
    requires SameHeaderBytes(b1, b2, h)
    requires LE16(b2, h.peOff + 6) == n && h.firstSect + 40 * n <= |b2|
    ensures ParseHeader(b2) == Some(h.(nSect := n))
  {
    hide LE32, LE16, SameHeaderBytes;
    HeaderWords(b1, b2, h);
  }

  lemma CountField(b: bytes, h: Header)
    requires ParseHeader(b) == Some(h)
    ensures LE16(b, h.peOff + 6) == h.nSect
  {}

  /** Changing bytes that ParseHeader does not look at keeps the headers. */
  lemma HeaderKept(b1: bytes, b2: bytes, h: Header, lo: int, hi: int)
    requires ParseHeader(b1) == Some(h) && 0x40 <= h.peOff
    requires SameExcept(b1, b2, lo, hi)
    requires (h.optOff + OH_MAJOR_OS <= lo && hi <= h.optOff + OH_NUM_DIRS) || h.optOff + OH_DATA_DIR <= lo
    ensures ParseHeader(b2) == Some(h)
  {
    CountField(b1, h);
    assert HeaderInFile(b1, h);
    hide ParseHeader;
    assert LE16(b2, h.peOff + 6) == h.nSect;
    HeaderReparsed(b1, b2, h, h.nSect);
  }

  /** The first eight bytes of a section name, padded with NULs. */
  function Pad8(name: bytes): (r: bytes)
    ensures |r| == 8
  {
    seq(8, i requires 0 <= i < 8 => if i < |name| then name[i] else 0)
  }

  function Larger(x: int, y: int): int { if x < y then y else x }

  function CopyInto(b: bytes, at: nat, data: bytes): (r: bytes)
    requires at + |data| <= |b|
    ensures |r| == |b| && SameExcept(b, r, at, at + |data|)
    ensures forall i | 0 <= i < |data| :: r[at + i] == data[i]
  {
    b[..at] + data + b[at + |data|..]
  }

  /** The section that AddSection appends to secs for the given contents. */
  function NewSection(secs: seq<Section>, h: Header, name: bytes, size: u32, chars: u32): Section {
    Section(CStr8(Pad8(name)), size, NextRva(secs, h), AlignUp(size, h.fileAlign), NextRaw(secs, h), chars)
  }

  /** SizeOfImage after the section was appended. */
  function NewSizeOfImage(secs: seq<Section>, h: Header, size: u32): u32 {
    AlignUp(Add32(NextRva(secs, h), AlignUp(size, h.sectAlign)), h.sectAlign)
  }

  /** Room for the new section's data below 2^32, in memory and in the file. */
  ghost predicate Fits(secs: seq<Section>, h: Header, size: nat) {
    && NextRva(secs, h) + size <= W32
    && size + h.fileAlign <= W32
    && size < W32
  }

  predicate InCountField(h: Header, i: int) { h.peOff + 6 <= i < h.peOff + 8 }
  predicate InSizeField(h: Header, i: int) { h.optOff + OH_SIZE_OF_IMAGE <= i < h.optOff + OH_SIZE_OF_IMAGE + 4 }
  predicate InNewHeader(h: Header, i: int) { h.LastHdrEnd() <= i < h.LastHdrEnd() + 40 }

  /** The forty bytes of a section header: name, extents, no relocations or line numbers, characteristics. */
  ghost predicate HeaderAt(b: bytes, o: nat, s: Section, name: bytes) {
    && o + 40 <= |b| && b[o..o + 8] == Pad8(name)
    && LE32(b, o + 8) == s.vs && LE32(b, o + 12) == s.va
    && LE32(b, o + 16) == s.rawSize && LE32(b, o + 20) == s.rawPtr
    && (forall i | o + 24 <= i < o + 36 :: b[i] == 0)
    && LE32(b, o + 36) == s.chars
  }

  lemma HeaderAtKept(b1: bytes, b2: bytes, o: nat, s: Section, name: bytes)
    requires HeaderAt(b1, o, s, name) && SameRange(b1, b2, o, o + 40)
    ensures HeaderAt(b2, o, s, name)
  {
    hide LE32, Pad8;
    assert b1[o..o + 8] == b2[o..o + 8];
    SameWord(b1, b2, o + 8);
    SameWord(b1, b2, o + 12);
    SameWord(b1, b2, o + 16);
    SameWord(b1, b2, o + 20);
    SameWord(b1, b2, o + 36);
  }

  /** b2 is b1 with one section appended that holds data. */
  ghost predicate Appended(b1: bytes, b2: bytes, h: Header, name: bytes, data: bytes, chars: u32)
    requires HeaderInFile(b1, h)
  {
    var secs := Sections(b1, h);
    var raw := NextRaw(secs, h);
    && |data| < W32
    && ParseHeader(b2) == Some(h.(nSect := h.nSect + 1))
    && Sections(b2, h.(nSect := h.nSect + 1)) == secs + [NewSection(secs, h, name, |data|, chars)]
    && HeaderAt(b2, h.LastHdrEnd(), NewSection(secs, h, name, |data|, chars), name)
    && h.LastHdrEnd() + 40 <= FirstRaw(secs)
    && LE32(b2, h.optOff + OH_SIZE_OF_IMAGE) == NewSizeOfImage(secs, h, |data|)
    && |b2| == Larger(|b1|, raw + AlignUp(|data|, h.fileAlign))
    && raw + |data| <= |b2|
    && (forall k | 0 <= k < |data| :: b2[raw + k] == data[k])
    && AppendFrame(b1, b2, h, raw, |data|)
  }

  /** Go: type Raw. */
  class Raw {
    var Buf: bytes
    var numSections: nat
    const peOff: nat
    const optOff: nat
    const sectAlign: u32
    const fileAlign: u32
    const imageBase: u32
    const firstSectOff: nat

    ghost function Hdr(): Header
      reads this
    {
      Header(peOff, optOff, numSections, sectAlign, fileAlign, imageBase, firstSectOff)
    }

    /** The fields are those in the bytes. */
    ghost predicate Valid()
      reads this
    {
      ParseHeader(Buf) == Some(Hdr()) && 0x40 <= peOff
    }

    constructor (buf: bytes, h: Header)
      requires ParseHeader(buf) == Some(h) && 0x40 <= h.peOff
      ensures Valid() && Buf == buf && Hdr() == h
    {
      Buf := buf;
      numSections := h.nSect;
      peOff, optOff, firstSectOff := h.peOff, h.optOff, h.firstSect;
      sectAlign, fileAlign, imageBase := h.sectAlign, h.fileAlign, h.imageBase;
    }

    method SetU16(off: nat, v: u16)
      requires off + 2 <= |Buf|
      modifies this`Buf
      ensures |Buf| == |old(Buf)| && LE16(Buf, off) == v && SameExcept(old(Buf), Buf, off, off + 2)
      ensures Buf == Put16(old(Buf), off, v)
    {
      Buf := Put16(Buf, off, v);
    }

    method SetU32(off: nat, v: u32)
      requires off + 4 <= |Buf|
      modifies this`Buf
      ensures |Buf| == |old(Buf)| && LE32(Buf, off) == v && SameExcept(old(Buf), Buf, off, off + 4)
      ensures Buf == Put32(old(Buf), off, v)
    {
      Buf := Put32(Buf, off, v);
    }

    /** Writes the OS and subsystem version fields. */
    method SetVersions(osMaj: u16, osMin: u16, subMaj: u16, subMin: u16)
      requires Valid()
      modifies this`Buf
      ensures Valid() && |Buf| == |old(Buf)|
      ensures LE16(Buf, optOff + OH_MAJOR_OS) == osMaj && LE16(Buf, optOff + OH_MAJOR_OS + 2) == osMin
      ensures LE16(Buf, optOff + OH_MAJOR_SUBSYS) == subMaj && LE16(Buf, optOff + OH_MAJOR_SUBSYS + 2) == subMin
      ensures SameExcept(old(Buf), Buf, optOff + OH_MAJOR_OS, optOff + OH_MAJOR_SUBSYS + 4)
      ensures SameRange(old(Buf), Buf, optOff + OH_MAJOR_OS + 4, optOff + OH_MAJOR_SUBSYS)
    {
      hide Put16, ParseHeader;
      SetU16(optOff + OH_MAJOR_OS, osMaj);
      SetU16(optOff + OH_MAJOR_OS + 2, osMin);
      SetU16(optOff + OH_MAJOR_SUBSYS, subMaj);
      SetU16(optOff + OH_MAJOR_SUBSYS + 2, subMin);
      HeaderKept(old(Buf), Buf, Hdr(), optOff + OH_MAJOR_OS, optOff + OH_MAJOR_SUBSYS + 4);
    }

    /** Drops ASLR and high-entropy VA; returns the previous value of the field. */
    method ClearDynamicBase() returns (was: u16)
      requires Valid()
      modifies this`Buf
      ensures Valid() && |Buf| == |old(Buf)|
      ensures was == LE16(old(Buf), optOff + OH_DLL_CHAR)
      ensures LE16(Buf, optOff + OH_DLL_CHAR) == AndNot(was, 0x60)
      ensures SameExcept(old(Buf), Buf, optOff + OH_DLL_CHAR, optOff + OH_DLL_CHAR + 2)
    {
      hide Put16, ParseHeader, AndNot;
      var off := optOff + OH_DLL_CHAR;
      was := LE16(Buf, off);
      SetU16(off, AndNot(was, 0x60));
      HeaderKept(old(Buf), Buf, Hdr(), off, off + 2);
    }

    method ZeroCheckSum()
      requires Valid()
      modifies this`Buf
      ensures Valid() && |Buf| == |old(Buf)|
      ensures LE32(Buf, optOff + OH_CHECKSUM) == 0
      ensures SameExcept(old(Buf), Buf, optOff + OH_CHECKSUM, optOff + OH_CHECKSUM + 4)
    {
      hide Put32, ParseHeader;
      SetU32(optOff + OH_CHECKSUM, 0);
      HeaderKept(old(Buf), Buf, Hdr(), optOff + OH_CHECKSUM, optOff + OH_CHECKSUM + 4);
    }

    method SetDataDir(i: nat, rva: u32, size: u32)
      requires Valid() && optOff + OH_DATA_DIR + 8 * i + 8 <= |Buf|
      modifies this`Buf
      ensures Valid() && |Buf| == |old(Buf)|
      ensures DataDirRva(Buf, Hdr(), i) == rva && LE32(Buf, optOff + OH_DATA_DIR + 8 * i + 4) == size
      ensures SameExcept(old(Buf), Buf, optOff + OH_DATA_DIR + 8 * i, optOff + OH_DATA_DIR + 8 * i + 8)
    {
      hide Put32, ParseHeader, LE32;
      var o := optOff + OH_DATA_DIR + i * 8;
      SetU32(o, rva);
      ghost var mid := Buf;
      SetU32(o + 4, size);
      SameWord(mid, Buf, o);
      HeaderKept(old(Buf), Buf, Hdr(), o, o + 8);
    }

    /** Go: Sections, which reads the section table afresh each time. */
    method ReadSections() returns (out: seq<Section>)
      requires Valid()
      ensures out == Sections(Buf, Hdr())
    {
      out := [];
      for i := 0 to numSections
        invariant |out| == i
        invariant forall j | 0 <= j < i :: out[j] == SectionAt(Buf, firstSectOff + 40 * j)
      {
        out := out + [SectionAt(Buf, firstSectOff + i * 40)];
      }
    }

    /** Maps an RVA to a file offset using the section table. */
    method FileOff(rva: u32) returns (r: Option<u32>)
      requires Valid()
      ensures r == FileOffIn(Sections(Buf, Hdr()), sectAlign, rva)
    {
      hide AlignUp;
      var secs := ReadSections();
      var i := 0;
      assert secs[0..] == secs;
      while i < |secs|
        invariant i <= |secs|
        invariant FileOffIn(secs, sectAlign, rva) == FileOffIn(secs[i..], sectAlign, rva)
      {
        var s := secs[i];
        assert secs[i..][1..] == secs[i + 1..];
        if rva >= s.va && rva < Add32(s.va, AlignUp(s.vs, sectAlign)) {
          return Some(Add32(rva - s.va, s.rawPtr));
        }
        i := i + 1;
      }
      return None;
    }

    /** The loop of AddSection over the section table. */
    method Extents() returns (firstRaw: u32, maxRVAEnd: u32, maxRawEnd: u32)
      requires Valid()
      ensures firstRaw == FirstRaw(Sections(Buf, Hdr()))
      ensures maxRVAEnd == MaxVEnd(Sections(Buf, Hdr()), sectAlign)
      ensures maxRawEnd == MaxRawEnd(Sections(Buf, Hdr()))
    {
      hide AlignUp, FirstRaw, MaxVEnd, MaxRawEnd, Sections, Add32, ParseHeader;
      var secs := ReadSections();
      firstRaw, maxRVAEnd, maxRawEnd := W32 - 1, 0, 0;
      NoExtents(sectAlign);
      assert secs[..0] == [];
      for i := 0 to |secs|
        invariant firstRaw == FirstRaw(secs[..i])
        invariant maxRVAEnd == MaxVEnd(secs[..i], sectAlign)
        invariant maxRawEnd == MaxRawEnd(secs[..i])
      {
        var s := secs[i];
        ExtentStep(secs, i, sectAlign);
        if s.rawPtr < firstRaw && s.rawSize > 0 {
          firstRaw := s.rawPtr;
        }
        var e := Add32(s.va, AlignUp(s.vs, sectAlign));
        if e > maxRVAEnd {
          maxRVAEnd := e;
        }
        var f := Add32(s.rawPtr, s.rawSize);
        if f > maxRawEnd {
          maxRawEnd := f;
        }
      }
      assert secs[..|secs|] == secs;
    }

    /** Grows the file to hold [at, at + room) and copies data to its start. */
    method PlaceData(at: nat, room: nat, data: bytes)
      requires |data| <= room
      modifies this`Buf
      ensures |Buf| == Larger(|old(Buf)|, at + room)
      ensures forall i | |old(Buf)| <= i < |Buf| && !(at <= i < at + |data|) :: Buf[i] == 0
      ensures forall i | 0 <= i < |old(Buf)| && !(at <= i < at + |data|) :: Buf[i] == old(Buf)[i]
      ensures forall k | 0 <= k < |data| :: Buf[at + k] == data[k]
    {
      if at + room > |Buf| {
        Buf := Buf + seq(at + room - |Buf|, _ => 0);
      }
      Buf := CopyInto(Buf, at, data);
    }

    /** Writes the name and the extents of a section header at o. */
    method WriteExtents(o: nat, s: Section, name: bytes)
      requires o + 40 <= |Buf|
      modifies this`Buf
      ensures SameExcept(old(Buf), Buf, o, o + 24) && |Buf| == |old(Buf)|
      ensures Buf[o..o + 8] == Pad8(name)
      ensures LE32(Buf, o + 8) == s.vs && LE32(Buf, o + 12) == s.va
      ensures LE32(Buf, o + 16) == s.rawSize && LE32(Buf, o + 20) == s.rawPtr
    {
      hide Put32, Pad8, CopyInto;
      Buf := CopyInto(Buf, o, Pad8(name));
      SetU32(o + 8, s.vs);
      SetU32(o + 12, s.va);
      SetU32(o + 16, s.rawSize);
      SetU32(o + 20, s.rawPtr);
    }

    /** Writes what follows the extents in a section header at o. */
    method WriteRest(o: nat, chars: u32)
      requires o + 40 <= |Buf|
      modifies this`Buf
      ensures SameExcept(old(Buf), Buf, o + 24, o + 40) && |Buf| == |old(Buf)|
      ensures forall i | o + 24 <= i < o + 36 :: Buf[i] == 0
      ensures LE32(Buf, o + 36) == chars
    {
      hide Put32, Put16, LE32, LE16;
      SetU32(o + 24, 0);
      ghost var b1 := Buf;
      ZeroBytes(b1, o + 24);
      SetU32(o + 28, 0);
      ghost var b2 := Buf;
      ZeroBytes(b2, o + 28);
      SetU16(o + 32, 0);
      ghost var b3 := Buf;
      ZeroPair(b3, o + 32);
      SetU16(o + 34, 0);
      ghost var b4 := Buf;
      ZeroPair(b4, o + 34);
      SetU32(o + 36, chars);
    }

    /** Writes the section header at o. */
    method WriteSectionHeader(o: nat, s: Section, name: bytes)
      requires o + 40 <= |Buf|
      requires s.name == CStr8(Pad8(name))
      modifies this`Buf
      ensures |Buf| == |old(Buf)| && HeaderAt(Buf, o, s, name) && SectionAt(Buf, o) == s
      ensures SameExcept(old(Buf), Buf, o, o + 40)
    {
      hide CStr8, Pad8, LE32;
      WriteExtents(o, s, name);
      ghost var mid := Buf;
      WriteRest(o, s.chars);
      assert Buf[o..o + 8] == mid[o..o + 8];
      SameWord(mid, Buf, o + 8);
      SameWord(mid, Buf, o + 12);
      SameWord(mid, Buf, o + 16);
      SameWord(mid, Buf, o + 20);
    }

    /** Writes a new section header and the two header fields that count it. */
    method WriteHeaders(s: Section, name: bytes, imageSize: u32)
      requires HeaderInFile(Buf, Hdr()) && Hdr().LastHdrEnd() + 40 <= |Buf| && numSections < 0xFFFF
      requires s.name == CStr8(Pad8(name))
      modifies this`Buf, this`numSections
      ensures |Buf| == |old(Buf)| && numSections == old(numSections) + 1
      ensures HeadersFrame(old(Buf), Buf, old(Hdr()))
      ensures SectionAt(Buf, old(Hdr()).LastHdrEnd()) == s
      ensures HeaderAt(Buf, old(Hdr()).LastHdrEnd(), s, name)
      ensures LE16(Buf, peOff + 6) == old(numSections) + 1
      ensures LE32(Buf, optOff + OH_SIZE_OF_IMAGE) == imageSize
    {
      hide Put16, Put32, CStr8, Pad8, SectionAt, HeaderAt;
      var o := firstSectOff + numSections * 40;
      WriteSectionHeader(o, s, name);
      ghost var mid := Buf;
      numSections := numSections + 1;
      SetU16(peOff + 6, numSections);
      SetU32(optOff + OH_SIZE_OF_IMAGE, imageSize);
      SameSection(mid, Buf, o);
      HeaderAtKept(mid, Buf, o, s, name);
    }

    /** Appends a section holding data; None when the headers have no 40 bytes to spare. */
    method AddSection(name: bytes, data: bytes, chars: u32) returns (r: Option<u32>)
      requires Sound(Buf, Hdr()) && Fits(Sections(Buf, Hdr()), Hdr(), |data|)
      modifies this`Buf, this`numSections
      ensures r.None? <==> FirstRaw(old(Sections(Buf, Hdr()))) < old(Hdr()).LastHdrEnd() + 40
      ensures r.None? ==> Buf == old(Buf) && numSections == old(numSections)
      ensures r.Some? ==> Valid() && numSections == old(numSections) + 1
      ensures r.Some? ==> Appended(old(Buf), Buf, old(Hdr()), name, data, chars)
      ensures r.Some? ==> r.value == NextRva(old(Sections(Buf, Hdr())), old(Hdr()))
    {
      hide AlignUp, ParseHeader, SectionsOk, CStr8, Pad8, HeadersFrame, SectionAt, Appended, LE16, LE32, HeaderAt;
      ghost var h := Hdr();
      ghost var b := Buf;
      var lastHdrEnd := firstSectOff + numSections * 40;
      var firstRaw, maxRVAEnd, maxRawEnd := Extents();
      if lastHdrEnd + 40 > firstRaw {
        return None;
      }
      var newRVA := AlignUp(maxRVAEnd, sectAlign);
      var newRaw := AlignUp(maxRawEnd, fileAlign);
      var rawSize := AlignUp(|data|, fileAlign);
      NextSectionRoom(Buf, h, |data|);
      PlaceData(newRaw, rawSize, data);
      ghost var grown := Buf;
      var s := Section(CStr8(Pad8(name)), |data|, newRVA, rawSize, newRaw, chars);
      var imageSize := AlignUp(Add32(newRVA, AlignUp(|data|, sectAlign)), sectAlign);
      WriteHeaders(s, name, imageSize);
      AppendedBytes(b, grown, Buf, h, name, data, chars);
      return Some(newRVA);
    }
  }

  /** The bytes outside the three header areas of AddSection are equal. */
  ghost predicate HeadersFrame(b1: bytes, b2: bytes, h: Header) {
    && |b1| == |b2|
    && forall i | 0 <= i < |b1| && !InCountField(h, i) && !InSizeField(h, i) && !InNewHeader(h, i) :: b2[i] == b1[i]
  }

  /** Placing the data and then writing the headers appends the section. */
  lemma AppendedBytes(b: bytes, grown: bytes, b2: bytes, h: Header, name: bytes, data: bytes, chars: u32)
    requires ParseHeader(b) == Some(h) && 0x40 <= h.peOff && h.nSect < 0xFFFF && |data| < W32
    requires h.LastHdrEnd() + 40 <= FirstRaw(Sections(b, h))
    requires h.LastHdrEnd() + 40 <= NextRaw(Sections(b, h), h) && h.LastHdrEnd() + 40 <= |b| <= |grown|
    requires |data| <= AlignUp(|data|, h.fileAlign)
    requires |grown| == Larger(|b|, NextRaw(Sections(b, h), h) + AlignUp(|data|, h.fileAlign))
    requires var at := NextRaw(Sections(b, h), h);
             && (forall i | 0 <= i < |b| && !(at <= i < at + |data|) :: grown[i] == b[i])
             && (forall i | |b| <= i < |grown| && !(at <= i < at + |data|) :: grown[i] == 0)
             && (forall k | 0 <= k < |data| :: grown[at + k] == data[k])
    requires HeadersFrame(grown, b2, h)
    requires SectionAt(b2, h.LastHdrEnd()) == NewSection(Sections(b, h), h, name, |data|, chars)
    requires HeaderAt(b2, h.LastHdrEnd(), NewSection(Sections(b, h), h, name, |data|, chars), name)
    requires LE16(b2, h.peOff + 6) == h.nSect + 1
    requires LE32(b2, h.optOff + OH_SIZE_OF_IMAGE) == NewSizeOfImage(Sections(b, h), h, |data|)
    ensures Appended(b, b2, h, name, data, chars)
    ensures ParseHeader(b2) == Some(h.(nSect := h.nSect + 1))
  {
    hide ParseHeader, AlignUp, CStr8, Pad8, FirstRaw, SectionAt, LE16, LE32, NewSection, NewSizeOfImage, NextRaw, Sections,
         HeaderAt;
    var at := NextRaw(Sections(b, h), h);
    assert AppendFrame(b, b2, h, at, |data|);
    AppendedHeaders(b, b2, h, NewSection(Sections(b, h), h, name, |data|, chars), at, |data|);
  }

  /** The new section's place: behind the headers and every section, in the grown file. */
  lemma NextSectionRoom(b: bytes, h: Header, size: u32)
    requires Sound(b, h) && Fits(Sections(b, h), h, size)
    requires h.LastHdrEnd() + 40 <= FirstRaw(Sections(b, h))
    ensures LeastMultiple(AlignUp(size, h.fileAlign), size, h.fileAlign)
    ensures h.LastHdrEnd() + 40 <= NextRaw(Sections(b, h), h)
    ensures h.LastHdrEnd() + 40 <= |b|
    ensures h.optOff + OH_DATA_DIR + 16 <= h.firstSect
  {
    hide AlignUp, ParseHeader, PowerOfTwo, MaxVEnd, MaxRawEnd;
    var secs := Sections(b, h);
    NextIsBehind(secs, h, |b|);
    FirstRawIsMin(secs);
    AlignUpExact(size, h.fileAlign);
    var i :| 0 <= i < |secs| && HasData(secs[i]);
    assert SectionOk(secs[i], h, |b|);
  }

  /** b2 is b1 outside the fields and the area that AddSection writes, and zero where it has grown. */
  ghost predicate AppendFrame(b1: bytes, b2: bytes, h: Header, raw: int, size: nat) {
    && |b1| <= |b2|
    && (forall i | |b1| <= i < |b2| && !(raw <= i < raw + size) :: b2[i] == 0)
    && forall i | 0 <= i < |b1| && !InCountField(h, i) && !InSizeField(h, i) && !InNewHeader(h, i)
         && !(raw <= i < raw + size) :: b2[i] == b1[i]
  }

  /** With the count raised and the header written, the section table has one more entry. */
  lemma AppendedHeaders(b1: bytes, b2: bytes, h: Header, s: Section, raw: int, size: nat)
    requires ParseHeader(b1) == Some(h) && 0x40 <= h.peOff && h.nSect < 0xFFFF
    requires h.LastHdrEnd() + 40 <= raw && h.LastHdrEnd() + 40 <= |b1|
    requires AppendFrame(b1, b2, h, raw, size)
    requires LE16(b2, h.peOff + 6) == h.nSect + 1
    requires SectionAt(b2, h.LastHdrEnd()) == s
    ensures ParseHeader(b2) == Some(h.(nSect := h.nSect + 1))
    ensures Sections(b2, h.(nSect := h.nSect + 1)) == Sections(b1, h) + [s]
  {
    hide ParseHeader, SectionAt, LE16;
    AppendedSame(b1, b2, h, raw, size);
    HeaderReparsed(b1, b2, h, h.nSect + 1);
    hide AppendFrame, SameRange, SameHeaderBytes;
    SameSections(b1, b2, h.firstSect, h.nSect);
  }

  lemma AppendedSame(b1: bytes, b2: bytes, h: Header, raw: int, size: nat)
    requires HeaderInFile(b1, h) && 0x40 <= h.peOff
    requires h.LastHdrEnd() + 40 <= raw
    requires AppendFrame(b1, b2, h, raw, size)
    ensures SameHeaderBytes(b1, b2, h)
    ensures SameRange(b1, b2, h.firstSect, h.LastHdrEnd())
  {}

  lemma ZeroBytes(b: bytes, o: nat)
    requires o + 4 <= |b| && LE32(b, o) == 0
    ensures b[o] == 0 && b[o + 1] == 0 && b[o + 2] == 0 && b[o + 3] == 0
  {}

  lemma ZeroPair(b: bytes, o: nat)
    requires o + 2 <= |b| && LE16(b, o) == 0
    ensures b[o] == 0 && b[o + 1] == 0
  {}

  lemma NoExtents(sa: u32)
    ensures FirstRaw([]) == W32 - 1 && MaxVEnd([], sa) == 0 && MaxRawEnd([]) == 0
  {}

  lemma ExtentStep(secs: seq<Section>, i: nat, sa: u32)
    requires i < |secs|
    ensures FirstRaw(secs[..i + 1]) == if secs[i].rawPtr < FirstRaw(secs[..i]) && secs[i].rawSize > 0
                                       then secs[i].rawPtr else FirstRaw(secs[..i])
    ensures MaxVEnd(secs[..i + 1], sa) == if VEnd(secs[i], sa) > MaxVEnd(secs[..i], sa)
                                          then VEnd(secs[i], sa) else MaxVEnd(secs[..i], sa)
    ensures MaxRawEnd(secs[..i + 1]) == if RawEnd(secs[i]) > MaxRawEnd(secs[..i])
                                        then RawEnd(secs[i]) else MaxRawEnd(secs[..i])
  {
    hide VEnd, RawEnd;
    assert secs[..i + 1][..i] == secs[..i];
  }
}
