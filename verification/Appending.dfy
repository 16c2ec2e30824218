/** What an appended section leaves intact, and what it adds. */
module Appending {
  import opened Bytes
  import opened Align
  import opened Image
  import opened RawImage

  /** The context of every lemma here: b2 is the sound image b1 with one section appended. */
  ghost predicate AppendedTo(b1: bytes, b2: bytes, h: Header, name: bytes, data: bytes, chars: u32) {
    && Sound(b1, h)
    && Fits(Sections(b1, h), h, |data|)
    && Appended(b1, b2, h, name, data, chars)
  }

  function Grown(h: Header): Header { h.(nSect := h.nSect + 1) }

  /** data lies in the file at offset at, and the addresses from base on map to it. */
  ghost predicate Placed(b: bytes, secs: seq<Section>, base: u32, at: nat, data: bytes) {
    && at + |data| <= |b|
    && base + |data| <= W32
    && (forall k | 0 <= k < |data| :: b[at + k] == data[k])
    && (forall rva: u32 | base <= rva < base + |data| :: OffIn(secs, |b|, rva) == Some(at + (rva - base)))
  }

  lemma NewSectionMaps(secs: seq<Section>, h: Header, len1: nat, s: Section, len2: nat, rva: u32)
    requires SectionsOk(secs, h, len1)
    requires s.va == NextRva(secs, h) && s.va <= rva < s.va + s.vs
    requires s.vs <= s.rawSize && s.rawPtr + s.vs <= len2
    ensures OffIn(secs + [s], len2, rva) == Some(s.rawPtr + (rva - s.va))
  {
    hide SectionsOk, NextRva, OffIn, AlignUp, MaxVEnd;
    NextIsBehind(secs, h, len1);
    forall i | 0 <= i < |secs| ensures !Covers((secs + [s])[i], rva) {
      assert (secs + [s])[i] == secs[i];
    }
    OffInAt(secs + [s], len2, rva, |secs|);
  }

  /** The facts about an appended section that address arithmetic needs. */
  lemma AppendedFacts(b1: bytes, b2: bytes, h: Header, name: bytes, data: bytes, chars: u32) returns (s: Section)
    requires AppendedTo(b1, b2, h, name, data, chars)
    ensures HeaderInFile(b1, h) && HeaderInFile(b2, Grown(h)) && |data| < W32
    ensures SectionsOk(Sections(b1, h), h, |b1|)
    ensures s == NewSection(Sections(b1, h), h, name, |data|, chars)
    ensures Sections(b2, Grown(h)) == Sections(b1, h) + [s]
    ensures s.va == NextRva(Sections(b1, h), h) && s.rawPtr == NextRaw(Sections(b1, h), h)
    ensures s.vs == |data| <= s.rawSize
    ensures s.va + s.vs <= W32 && s.rawPtr + s.rawSize <= |b2|
    ensures forall k | 0 <= k < |data| :: b2[s.rawPtr + k] == data[k]
  {
    hide ParseHeader, SectionsOk, AlignUp, CStr8, Pad8, AppendFrame, FirstRaw, NextRaw, NextRva, NewSizeOfImage, Sections;
    NewSizeFits(b1, h, data);
    s := NewSection(Sections(b1, h), h, name, |data|, chars);
  }

  /** The data of the new section is in the file, and the section's addresses map to it. */
  lemma NewDataPlaced(b1: bytes, b2: bytes, h: Header, name: bytes, data: bytes, chars: u32)
    requires AppendedTo(b1, b2, h, name, data, chars)
    ensures Placed(b2, Sections(b2, Grown(h)), NextRva(Sections(b1, h), h), NextRaw(Sections(b1, h), h), data)
  {
    hide AppendedTo, OffIn, Sections, SectionsOk, NextRva, NextRaw, NewSection;
    var s := AppendedFacts(b1, b2, h, name, data, chars);
    var secs := Sections(b1, h);
    forall rva: u32 | s.va <= rva < s.va + s.vs
      ensures OffIn(secs + [s], |b2|, rva) == Some(s.rawPtr + (rva - s.va))
    {
      NewSectionMaps(secs, h, |b1|, s, |b2|, rva);
    }
  }

  lemma NewSizeFits(b1: bytes, h: Header, data: bytes)
    requires Sound(b1, h) && Fits(Sections(b1, h), h, |data|)
    ensures |data| <= AlignUp(|data|, h.fileAlign)
  {
    hide ParseHeader, AlignUp, NextRva;
    AlignUpExact(|data|, h.fileAlign);
  }

  /** Every other address maps as before. */
  lemma OldAddressMaps(secs: seq<Section>, h: Header, len1: nat, s: Section, len2: nat, rva: u32)
    requires SectionsOk(secs, h, len1) && len1 <= len2
    requires s.va == NextRva(secs, h) && rva < s.va
    ensures OffIn(secs + [s], len2, rva) == OffIn(secs, len1, rva)
  {
    hide AlignUp, NextRaw, NextRva, OffIn, SectionsOk;
    var secs2 := secs + [s];
    if k: nat :| k < |secs| && Covers(secs[k], rva) {
      SectionExtent(secs, h, len1, k);
      assert secs2[k] == secs[k];
      forall i | 0 <= i < k ensures !Covers(secs[i], rva) && !Covers(secs2[i], rva) {
        OthersMiss(secs, h, len1, rva, i, k);
        assert secs2[i] == secs[i];
      }
      OffInAt(secs, len1, rva, k);
      OffInAt(secs2, len2, rva, k);
    } else {
      forall i | 0 <= i < |secs2| ensures !Covers(secs2[i], rva) {
        if i < |secs| { assert secs2[i] == secs[i]; }
      }
      OffInNone(secs, len1, rva);
      OffInNone(secs2, len2, rva);
    }
  }

  /** File bytes that an address maps to lie behind the headers and before the new section's data. */
  lemma MappedIsData(secs: seq<Section>, h: Header, len: nat, rva: u32)
    requires SectionsOk(secs, h, len) && h.LastHdrEnd() + 40 <= FirstRaw(secs)
    requires OffIn(secs, len, rva).Some?
    ensures h.LastHdrEnd() + 40 <= OffIn(secs, len, rva).value < NextRaw(secs, h)
    ensures rva < NextRva(secs, h)
  {
    hide AlignUp, OffIn, FirstRaw, NextRaw, MaxVEnd, MaxRawEnd, PowerOfTwo, NextRva, SectionsOk;
    var k := OffInSome(secs, len, rva);
    FirstRawIsMin(secs);
    NextIsBehind(secs, h, len);
    SectionExtent(secs, h, len, k);
  }

  /** Every address that was mapped still maps to the same offset, and to the same byte. */
  lemma OldByteKept(b1: bytes, b2: bytes, h: Header, name: bytes, data: bytes, chars: u32, rva: u32)
    requires AppendedTo(b1, b2, h, name, data, chars)
    requires OffIn(Sections(b1, h), |b1|, rva).Some?
    ensures OffIn(Sections(b2, Grown(h)), |b2|, rva) == OffIn(Sections(b1, h), |b1|, rva)
    ensures var o := OffIn(Sections(b1, h), |b1|, rva).value;
            o < |b2| && b2[o] == b1[o]
  {
    hide ParseHeader, AlignUp, OffIn, FirstRaw, NextRaw, MaxVEnd, MaxRawEnd, PowerOfTwo, NextRva, CStr8, Pad8, SectionsOk;
    var secs := Sections(b1, h);
    MappedIsData(secs, h, |b1|, rva);
    OldAddressMaps(secs, h, |b1|, NewSection(secs, h, name, |data|, chars), |b2|, rva);
  }

  /** The new section's aligned end, and a further section behind it, stay below 2^32. */
  ghost predicate RoomInMemory(secs: seq<Section>, h: Header, size: u32) {
    && size + h.sectAlign <= W32
    && NextRva(secs, h) + AlignUp(size, h.sectAlign) + h.sectAlign <= W32
  }

  /** The new SizeOfImage is where the new section ends, which is behind every section. */
  lemma SizeOfImageCovers(b1: bytes, b2: bytes, h: Header, name: bytes, data: bytes, chars: u32)
    requires AppendedTo(b1, b2, h, name, data, chars)
    requires RoomInMemory(Sections(b1, h), h, |data|)
    ensures var size := LE32(b2, h.optOff + OH_SIZE_OF_IMAGE);
            var secs2 := Sections(b2, Grown(h));
            && size == NextRva(Sections(b1, h), h) + AlignUp(|data|, h.sectAlign)
            && forall i | 0 <= i < |secs2| :: secs2[i].va + AlignUp(secs2[i].vs, h.sectAlign) <= size
  {
    hide ParseHeader, AlignUp, FirstRaw, NextRaw, NextRva, CStr8, Pad8, SectionsOk, LE32, AppendFrame, Sections, PowerOfTwo;
    var secs, secs2 := Sections(b1, h), Sections(b2, Grown(h));
    NextIsBehind(secs, h, |b1|);
    AlignUpExact(|data|, h.sectAlign);
    AlignedEnd(NextRva(secs, h), AlignUp(|data|, h.sectAlign), h.sectAlign);
    forall i | 0 <= i < |secs2|
      ensures secs2[i].va + AlignUp(secs2[i].vs, h.sectAlign) <= NextRva(secs, h) + AlignUp(|data|, h.sectAlign)
    {
      if i < |secs| { assert secs2[i] == secs[i]; }
    }
  }

  /** Everything that the sections hold in memory lies below size. */
  ghost predicate SizeCovers(secs: seq<Section>, size: int) {
    forall i | 0 <= i < |secs| :: secs[i].va + secs[i].vs <= size
  }

  /** The new SizeOfImage covers all sections if and only if their end, rounded up, does not wrap around. */
  lemma SizeOfImageCoversIff(b1: bytes, b2: bytes, h: Header, name: bytes, data: bytes, chars: u32)
    requires AppendedTo(b1, b2, h, name, data, chars) && data != []
    ensures HeaderInFile(b1, h) && HeaderInFile(b2, Grown(h))
    ensures SizeCovers(Sections(b2, Grown(h)), LE32(b2, h.optOff + OH_SIZE_OF_IMAGE))
            <==> RoomInMemory(Sections(b1, h), h, |data|)
  {
    hide AppendedTo, Sections, SectionsOk, NextRva, NextRaw, AlignUp, Fits, LE32, NewSection, NewSizeOfImage, SizeCovers,
         RoomInMemory;
    var s := AppendedFacts(b1, b2, h, name, data, chars);
    NewSizeWritten(b1, b2, h, name, data, chars);
    CoversIff(Sections(b1, h), h, |b1|, s, |data|);
  }

  lemma CoversIff(secs: seq<Section>, h: Header, len: nat, s: Section, n: u32)
    requires SectionsOk(secs, h, len) && n > 0 && s.va == NextRva(secs, h) && s.vs == n
    ensures SizeCovers(secs + [s], NewSizeOfImage(secs, h, n)) <==> RoomInMemory(secs, h, n)
  {
    hide SectionsOk, NextRva, AlignUp;
    NextIsBehind(secs, h, len);
    SizeArithmetic(NextRva(secs, h), n, h.sectAlign);
    assert (secs + [s])[|secs|] == s;
    assert forall i | 0 <= i < |secs| :: (secs + [s])[i] == secs[i];
  }

  /** After an appended section the next one goes where the new SizeOfImage ends. */
  lemma NextAfterNew(secs: seq<Section>, h: Header, len: nat, s: Section, n: u32)
    requires SectionsOk(secs, h, len) && n > 0 && s.va == NextRva(secs, h) && s.vs == n && RoomInMemory(secs, h, n)
    ensures NextRva(secs + [s], Grown(h)) == NewSizeOfImage(secs, h, n)
  {
    hide SectionsOk, AlignUp, MaxVEnd, MaxRawEnd, PowerOfTwo;
    NextIsBehind(secs, h, len);
    NewMaxima(secs, s, h.sectAlign);
    AlignUpExact(n, h.sectAlign);
  }

  lemma NewSizeWritten(b1: bytes, b2: bytes, h: Header, name: bytes, data: bytes, chars: u32)
    requires AppendedTo(b1, b2, h, name, data, chars)
    ensures HeaderInFile(b1, h) && HeaderInFile(b2, Grown(h)) && |data| < W32
    ensures LE32(b2, h.optOff + OH_SIZE_OF_IMAGE) == NewSizeOfImage(Sections(b1, h), h, |data|)
  {
    hide ParseHeader, SectionsOk, AlignUp, CStr8, Pad8, AppendFrame, FirstRaw, NextRaw, NextRva, NewSizeOfImage, Sections, LE32;
  }

  /** Where a section of n bytes at address x ends, rounded up in 32 bits. */
  lemma SizeArithmetic(x: u32, n: u32, a: u32)
    requires PowerOfTwo(a) && a > 0 && x % a == 0 && n > 0
    ensures n + a <= W32 && x + AlignUp(n, a) + a <= W32 <==> x + n <= AlignUp(Add32(x, AlignUp(n, a)), a)
    ensures n + a <= W32 && x + AlignUp(n, a) + a <= W32 ==> AlignUp(Add32(x, AlignUp(n, a)), a) == x + AlignUp(n, a) >= x
  {
    hide AlignUp, PowerOfTwo;
    AlignUpExact(n, a);
    BelowTop(x, a);
    if n + a > W32 {
      AlignUpFixed(x, a);
    } else {
      var y := AlignUp(n, a);
      if x + y + a <= W32 {
        AlignedEnd(x, y, a);
      } else {
        PastTheTop(x, y, a);
      }
    }
  }

  lemma PastTheTop(x: u32, y: u32, a: u32)
    requires PowerOfTwo(a) && a > 0 && x % a == 0 && y % a == 0 && x + y + a > W32
    ensures x + y >= W32 && AlignUp(Add32(x, y), a) == x + y - W32 < x
  {
    hide AlignUp, PowerOfTwo;
    MultiplesAdd(x, y, a);
    BelowTop(y, a);
    if x + y < W32 { BelowTop(x + y, a); }
    TopIsMultiple(a);
    MultiplesSubtract(x + y, W32, a);
    AlignUpFixed(x + y - W32, a);
  }

  lemma AlignedEnd(x: u32, y: u32, a: u32)
    requires PowerOfTwo(a) && a > 0 && x % a == 0 && y % a == 0 && x + y + a <= W32
    ensures AlignUp(Add32(x, y), a) == x + y
  {
    hide AlignUp;
    MultiplesAdd(x, y, a);
    AlignUpFixed(x + y, a);
  }

  /** Room for the grown image to receive a further section. */
  ghost predicate RoomForMore(secs: seq<Section>, h: Header, size: u32) {
    RoomInMemory(secs, h, size) && RoomInFile(secs, h, size)
  }

  /** One more section can be counted, and its data lie below 2^32 in the file. */
  ghost predicate RoomInFile(secs: seq<Section>, h: Header, size: u32) {
    h.nSect + 1 < 0xFFFF && NextRaw(secs, h) + AlignUp(size, h.fileAlign) + h.fileAlign <= W32
  }

  /** AddSection keeps the image well formed: aligned, apart in memory and in the file, behind the headers. */
  lemma SoundKept(b1: bytes, b2: bytes, h: Header, name: bytes, data: bytes, chars: u32)
    requires AppendedTo(b1, b2, h, name, data, chars)
    requires RoomForMore(Sections(b1, h), h, |data|)
    ensures Sound(b2, Grown(h))
  {
    hide ParseHeader, AlignUp, FirstRaw, CStr8, Pad8, LE32, AppendFrame, NewSizeOfImage, SectionsOk, NextRva, NextRaw;
    SectionsExtended(Sections(b1, h), h, |b1|, NewSection(Sections(b1, h), h, name, |data|, chars), |b2|);
  }

  /** A section placed by NextRva and NextRaw extends a well-formed section table. */
  lemma SectionsExtended(secs: seq<Section>, h: Header, len1: nat, s: Section, len2: nat)
    requires SectionsOk(secs, h, len1) && len1 <= len2 && h.LastHdrEnd() + 40 <= FirstRaw(secs)
    requires s.va == NextRva(secs, h) && s.rawPtr == NextRaw(secs, h) && s.rawSize == AlignUp(s.vs, h.fileAlign)
    requires s.rawPtr + s.rawSize <= len2
    requires RoomForMore(secs, h, s.vs)
    ensures SectionsOk(secs + [s], Grown(h), len2)
  {
    hide AlignUp, FirstRaw, PowerOfTwo, MaxVEnd, MaxRawEnd, NextRaw, NextRva, SectionOk;
    var secs2 := secs + [s];
    NextIsBehind(secs, h, len1);
    NewSectionOk(secs, h, len1, s, len2);
    forall i | 0 <= i < |secs2| ensures SectionOk(secs2[i], Grown(h), len2) {
      if i < |secs| {
        assert secs2[i] == secs[i] && SectionOk(secs[i], h, len1);
        OldSectionOk(secs, h, i, len1, len2);
      }
    }
    forall i, j | 0 <= i < j < |secs2|
      ensures ApartInMemory(secs2[i], secs2[j], h.sectAlign) && ApartInFile(secs2[i], secs2[j])
    {
      assert secs2[i] == secs[i];
      SectionExtent(secs, h, len1, i);
      if j < |secs| {
        assert secs2[j] == secs[j];
        assert ApartInMemory(secs[i], secs[j], h.sectAlign) && ApartInFile(secs[i], secs[j]);
      }
    }
    assert exists i | 0 <= i < |secs2| :: HasData(secs2[i]) by {
      var i :| 0 <= i < |secs| && HasData(secs[i]);
      assert secs2[i] == secs[i];
    }
    NewMaxima(secs, s, h.sectAlign);
  }

  lemma OldSectionOk(secs: seq<Section>, h: Header, i: nat, len1: nat, len2: nat)
    requires i < |secs| && len1 <= len2 && h.sectAlign > 0 && SectionOk(secs[i], h, len1)
    requires h.LastHdrEnd() + 40 <= FirstRaw(secs)
    ensures SectionOk(secs[i], Grown(h), len2)
  {
    hide AlignUp, FirstRaw;
    FirstRawIsMin(secs);
  }

  lemma NewSectionOk(secs: seq<Section>, h: Header, len1: nat, s: Section, len2: nat)
    requires SectionsOk(secs, h, len1) && h.LastHdrEnd() + 40 <= FirstRaw(secs)
    requires s.va == NextRva(secs, h) && s.rawPtr == NextRaw(secs, h) && s.rawSize == AlignUp(s.vs, h.fileAlign)
    requires s.rawPtr + s.rawSize <= len2
    requires RoomForMore(secs, h, s.vs)
    ensures SectionOk(s, Grown(h), len2)
    ensures VEnd(s, h.sectAlign) == s.va + AlignUp(s.vs, h.sectAlign)
    ensures RawEnd(s) == s.rawPtr + s.rawSize
  {
    hide AlignUp, PowerOfTwo, MaxVEnd, MaxRawEnd, NextRva, NextRaw, SectionsOk;
    NextIsBehind(secs, h, len1);
    NextBehindHeaders(secs, h, len1);
  }

  lemma NextBehindHeaders(secs: seq<Section>, h: Header, len: nat)
    requires SectionsOk(secs, h, len) && h.LastHdrEnd() + 40 <= FirstRaw(secs)
    ensures h.LastHdrEnd() + 40 <= NextRaw(secs, h) && h.sectAlign > 0 && h.fileAlign > 0
  {
    hide SectionOk, NextRva, NextRaw, FirstRaw, PowerOfTwo, MaxVEnd, MaxRawEnd;
    PowerOfTwoBound(h.fileAlign);
    NextIsBehind(secs, h, len);
    FirstRawIsMin(secs);
    var i :| 0 <= i < |secs| && HasData(secs[i]);
  }

  lemma NewMaxima(secs: seq<Section>, s: Section, sa: u32)
    ensures (secs + [s])[..|secs|] == secs
    ensures MaxVEnd(secs + [s], sa) == if VEnd(s, sa) > MaxVEnd(secs, sa) then VEnd(s, sa) else MaxVEnd(secs, sa)
    ensures MaxRawEnd(secs + [s]) == if RawEnd(s) > MaxRawEnd(secs) then RawEnd(s) else MaxRawEnd(secs)
  {
    hide VEnd, RawEnd;
    var t := secs + [s];
    assert t[..|t|] == t;
    assert t[..|secs|] == secs;
    ExtentStep(t, |secs|, sa);
  }
}
