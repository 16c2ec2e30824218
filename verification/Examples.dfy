/**
 * Small complete images. One of them meets every hypothesis of the theorems about patched images; the others are inputs
 * for which a property fails.
 */
module Examples {
  import opened Bytes
  import opened Align
  import opened Image
  import opened RawImage
  import opened Appending

  // ---------------------------------------------------------------- files as lists of words

  /** Byte i of the file whose word at offset 4k is w(k). */
  function Cell(w: nat -> u32, i: nat): u8 { Enc32(w(i / 4))[i % 4] }

  function FromWords(w: nat -> u32, n: nat): (b: bytes)
    ensures |b| == 4 * n
  {
    seq(4 * n, i requires 0 <= i < 4 * n => Cell(w, i))
  }

  lemma CellAt(w: nat -> u32, k: nat, j: nat)
    requires j < 4
    ensures Cell(w, 4 * k + j) == Enc32(w(k))[j]
  {
    hide Enc32;
    ModUnique(4 * k + j, 4, k, j);
  }

  lemma WordIn(w: nat -> u32, n: nat, k: nat)
    requires k < n
    ensures LE32(FromWords(w, n), 4 * k) == w(k)
    ensures forall j | 0 <= j < 4 :: FromWords(w, n)[4 * k + j] == Enc32(w(k))[j]
  {
    hide Enc32, LE32, Cell;
    var b := FromWords(w, n);
    forall j | 0 <= j < 4 ensures b[4 * k + j] == Enc32(w(k))[j] {
      CellAt(w, k, j);
    }
    FourBytes(b, 4 * k, w(k));
  }

  lemma FourBytes(b: bytes, o: nat, v: u32)
    requires o + 4 <= |b| && forall j | 0 <= j < 4 :: b[o + j] == Enc32(v)[j]
    ensures LE32(b, o) == v
  {
    hide Enc32;
    assert b[o + 0] == Enc32(v)[0] && b[o + 1] == Enc32(v)[1] && b[o + 2] == Enc32(v)[2] && b[o + 3] == Enc32(v)[3];
  }

  lemma HalvesIn(b: bytes, o: nat, lo: u16, hi: u16)
    requires o + 4 <= |b| && LE32(b, o) == lo + 0x1_0000 * hi
    ensures LE16(b, o) == lo && LE16(b, o + 2) == hi
  {
    HalfDigits((b[o] as int) + 0x100 * (b[o + 1] as int), (b[o + 2] as int) + 0x100 * (b[o + 3] as int), lo, hi);
  }

  lemma HalfDigits(x: int, y: int, lo: u16, hi: u16)
    requires 0 <= x < 0x1_0000 && x + 0x1_0000 * y == lo + 0x1_0000 * hi
    ensures x == lo && y == hi
  {}

  /** A byte string of one character in a word. */
  lemma OneCharacter(b: bytes, o: nat, c: u8)
    requires o + 2 <= |b| && b[o] == c != 0 && b[o + 1] == 0
    ensures StrAt(b, o) == Some([c])
  {
    StrAtUnique(b, o, [c]);
  }

  // ---------------------------------------------------------------- the headers

  /** Headers for k sections whose table starts at offset 200; byte alignment, image base 0, headers up to 280. */
  ghost predicate HasHeaders(b: bytes, k: nat) {
    && k < 0x1_0000 && |b| >= 280 && 200 + 40 * k <= |b|
    && LE32(b, 0) == 0x5A4D && LE32(b, 60) == 64 && LE32(b, 64) == 0x4550
    && LE32(b, 68) == 0x14C + 0x1_0000 * k && LE32(b, 84) == 112 && LE32(b, 88) == 0x10B
    && LE32(b, 116) == 0 && LE32(b, 120) == 1 && LE32(b, 124) == 1 && LE32(b, 148) == 280 && LE32(b, 180) == 2
  }

  function HeaderOf(k: nat): Header { Header(64, 88, k, 1, 1, 0, 200) }

  lemma HeadersParse(b: bytes, k: nat)
    requires HasHeaders(b, k)
    ensures ParseHeader(b) == Some(HeaderOf(k)) && HeaderInFile(b, HeaderOf(k))
  {
    HalvesIn(b, 0, 0x5A4D, 0);
    HalvesIn(b, 68, 0x14C, k);
    HalvesIn(b, 84, 112, 0);
    HalvesIn(b, 88, 0x10B, 0);
    FirstTwo(b);
    hide LE32, LE16;
  }

  lemma FirstTwo(b: bytes)
    requires |b| >= 4 && LE32(b, 0) == 0x5A4D
    ensures b[0] == 0x4D && b[1] == 0x5A
  {}

  lemma ByteAligned(v: u32)
    requires v < W32 - 1
    ensures AlignUp(v, 1) == v && PowerOfTwo(1) && v % 1 == 0
  {
    assert Pow2(0) == 1;
    ModUnique(v, 1, v, 0);
    AlignUpFixed(v, 1);
  }

  // ---------------------------------------------------------------- one section, mapped where it lies in the file

  /** With high, four bytes of zero-initialised memory follow at 2^31. */
  ghost predicate InPlace(secs: seq<Section>, end: u32, high: bool) {
    && |secs| == (if high then 2 else 1) && 320 < end < 0x1000
    && secs[0].va == 320 && secs[0].rawPtr == 320 && secs[0].vs == end - 320 && secs[0].rawSize == end - 320
    && (high ==> secs[1].va == 0x8000_0000 && secs[1].vs == 4 && secs[1].rawSize == 0 && secs[1].rawPtr == 0)
  }

  lemma SectionRead(b: bytes, k: nat, i: nat)
    requires HasHeaders(b, k) && HeaderInFile(b, HeaderOf(k)) && i < k
    ensures var s := Sections(b, HeaderOf(k))[i];
            && s.vs == LE32(b, 208 + 40 * i) && s.va == LE32(b, 212 + 40 * i)
            && s.rawSize == LE32(b, 216 + 40 * i) && s.rawPtr == LE32(b, 220 + 40 * i)
  {
    hide LE32, CStr8;
  }

  lemma OneMaps(secs: seq<Section>, end: u32, high: bool, rva: u32)
    requires InPlace(secs, end, high) && 320 <= rva < end
    ensures OffIn(secs, end, rva) == Some(rva) && FileOffIn(secs, 1, rva) == Some(rva)
  {
    hide AlignUp;
    ByteAligned(secs[0].vs);
    OffInAt(secs, end, rva, 0);
    FileOffInAt(secs, 1, rva, 0);
  }

  lemma OneOk(secs: seq<Section>, end: u32, high: bool)
    requires InPlace(secs, end, high)
    ensures var h := HeaderOf(if high then 2 else 1);
            && SectionsOk(secs, h, end)
            && NextRva(secs, h) == (if high then 0x8000_0004 else end) && NextRaw(secs, h) == end && FirstRaw(secs) == 320
  {
    hide AlignUp, PowerOfTwo, MaxVEnd, MaxRawEnd, FirstRaw, SectionOk;
    var h := HeaderOf(if high then 2 else 1);
    ByteAligned(end);
    ByteSection(secs[0], h, end);
    assert HasData(secs[0]);
    if high {
      ByteAligned(0x8000_0004);
      ByteSection(secs[1], h, end);
      TwoMaxima(secs);
    } else {
      OneMaxima(secs);
    }
  }

  lemma TwoMaxima(secs: seq<Section>)
    requires |secs| == 2 && secs[0].va + secs[0].vs < secs[1].va && secs[1].va + secs[1].vs < W32 - 1
    requires 0 < secs[0].rawPtr && 0 < secs[0].rawSize && secs[0].rawPtr + secs[0].rawSize < W32 - 1
    requires secs[1].rawPtr == 0 && secs[1].rawSize == 0
    ensures MaxVEnd(secs, 1) == secs[1].va + secs[1].vs && MaxRawEnd(secs) == secs[0].rawPtr + secs[0].rawSize
    ensures FirstRaw(secs) == secs[0].rawPtr
  {
    hide AlignUp, MaxVEnd, MaxRawEnd, FirstRaw;
    ByteAligned(secs[0].vs);
    ByteAligned(secs[1].vs);
    NoExtents(1);
    ExtentStep(secs, 0, 1);
    ExtentStep(secs, 1, 1);
    assert secs[..0] == [] && secs[..0 + 1] == secs[..1] && secs[..1 + 1] == secs;
  }

  // ---------------------------------------------------------------- an address without file data

  /** Words of a file with a section of four bytes at address va, and k further section headers from word 60 on. */
  function HeadersFor(k: nat, va: u32, i: nat): u32
    requires k < 3
  {
    if i == 0 then 0x5A4D
    else if i == 15 then 64
    else if i == 16 then 0x4550
    else if i == 17 then 0x1_014C + 0x1_0000 * k
    else if i == 21 then 112
    else if i == 22 then 0x10B
    else if i == 30 || i == 31 then 1
    else if i == 37 || i == 55 then 280
    else if i == 45 then 2
    else if i == 52 || i == 54 then 4
    else if i == 53 then va
    else if k == 1 && i == 62 then 4
    else if k == 1 && i == 63 then 284
    else 0
  }

  function FileFor(k: nat, va: u32): (b: bytes)
    requires k < 3
    ensures |b| == 284
  {
    FromWords(i => HeadersFor(k, va, i), 71)
  }

  lemma FileWord(k: nat, va: u32, i: nat)
    requires k < 3 && i < 71
    ensures LE32(FileFor(k, va), 4 * i) == HeadersFor(k, va, i)
  {
    hide LE32, Enc32, HeadersFor;
    WordIn(i => HeadersFor(k, va, i), 71, i);
  }

  lemma FileHeaders(k: nat, va: u32)
    requires k < 2
    ensures HasHeaders(FileFor(k, va), k + 1)
    ensures LE32(FileFor(k, va), 208) == 4 && LE32(FileFor(k, va), 212) == va
    ensures LE32(FileFor(k, va), 216) == 4 && LE32(FileFor(k, va), 220) == 280
  {
    hide LE32, FileFor;
    FileWord(k, va, 0);
    FileWord(k, va, 15);
    FileWord(k, va, 16);
    FileWord(k, va, 17);
    FileWord(k, va, 21);
    FileWord(k, va, 22);
    FileWord(k, va, 29);
    FileWord(k, va, 30);
    FileWord(k, va, 31);
    FileWord(k, va, 37);
    FileWord(k, va, 45);
    FileWord(k, va, 52);
    FileWord(k, va, 53);
    FileWord(k, va, 54);
    FileWord(k, va, 55);
  }

  /** Two sections: four bytes of data at 280, and behind them four bytes of zero-initialised memory. */
  ghost predicate Pair(secs: seq<Section>) {
    && |secs| == 2
    && secs[0].va == 280 && secs[0].vs == 4 && secs[0].rawSize == 4 && secs[0].rawPtr == 280
    && secs[1].va == 284 && secs[1].vs == 4 && secs[1].rawSize == 0 && secs[1].rawPtr == 0
  }

  lemma PairRead()
    ensures ParseHeader(FileFor(1, 280)) == Some(HeaderOf(2)) && HeaderInFile(FileFor(1, 280), HeaderOf(2))
    ensures Pair(Sections(FileFor(1, 280), HeaderOf(2)))
  {
    hide LE32, FileFor, ParseHeader, SectionAt;
    var b := FileFor(1, 280);
    FileHeaders(1, 280);
    HeadersParse(b, 2);
    SectionRead(b, 2, 0);
    SectionRead(b, 2, 1);
    FileWord(1, 280, 62);
    FileWord(1, 280, 63);
    FileWord(1, 280, 64);
    FileWord(1, 280, 65);
  }

  lemma PairOk(secs: seq<Section>)
    requires Pair(secs)
    ensures SectionsOk(secs, HeaderOf(2), 284)
  {
    hide AlignUp, PowerOfTwo, MaxVEnd, MaxRawEnd, SectionOk;
    ByteAligned(4);
    ByteSection(secs[0], HeaderOf(2), 284);
    ByteSection(secs[1], HeaderOf(2), 284);
    assert ApartInMemory(secs[0], secs[1], 1) && ApartInFile(secs[0], secs[1]);
    assert HasData(secs[0]);
    PairMaxima(secs);
  }

  lemma ByteSection(s: Section, h: Header, len: nat)
    requires h.sectAlign == 1 && s.va + s.vs < W32 - 1 && s.rawPtr + s.rawSize <= len < W32
    requires s.rawSize > 0 ==> h.LastHdrEnd() <= s.rawPtr
    ensures SectionOk(s, h, len) && VEnd(s, 1) == s.va + s.vs
  {
    hide AlignUp, PowerOfTwo;
    ByteAligned(s.vs);
    ByteAligned(s.va);
  }

  lemma PairMaxima(secs: seq<Section>)
    requires Pair(secs)
    ensures MaxVEnd(secs, 1) == 288 && MaxRawEnd(secs) == 284
  {
    hide AlignUp, MaxVEnd, MaxRawEnd, FirstRaw;
    ByteAligned(4);
    NoExtents(1);
    ExtentStep(secs, 0, 1);
    ExtentStep(secs, 1, 1);
    assert secs[..0] == [] && secs[..0 + 1] == secs[..1] && secs[..1 + 1] == secs;
  }

  lemma OneMaxima(secs: seq<Section>)
    requires |secs| == 1 && secs[0].va + secs[0].vs < W32 - 1 && secs[0].rawPtr + secs[0].rawSize < W32
    ensures MaxVEnd(secs, 1) == secs[0].va + secs[0].vs && MaxRawEnd(secs) == secs[0].rawPtr + secs[0].rawSize
    ensures FirstRaw(secs) == if secs[0].rawPtr < W32 - 1 && secs[0].rawSize > 0 then secs[0].rawPtr else W32 - 1
  {
    hide AlignUp, MaxVEnd, MaxRawEnd, FirstRaw;
    ByteAligned(secs[0].vs);
    NoExtents(1);
    ExtentStep(secs, 0, 1);
    assert secs[..0] == [] && secs[..0 + 1] == secs;
  }

  /** In a well-formed file the patcher maps an address without file data, here to the start of the headers. */
  lemma FileOffMapsUnbacked()
    ensures HeaderInFile(FileFor(1, 280), HeaderOf(2)) && Sound(FileFor(1, 280), HeaderOf(2))
    ensures OffIn(Sections(FileFor(1, 280), HeaderOf(2)), 284, 284) == None
    ensures FileOffIn(Sections(FileFor(1, 280), HeaderOf(2)), 1, 284) == Some(0)
  {
    hide FileFor, ParseHeader, SectionsOk, OffIn, FileOffIn, Sections;
    PairRead();
    var secs := Sections(FileFor(1, 280), HeaderOf(2));
    PairOk(secs);
    PairMaps(secs);
  }

  lemma PairMaps(secs: seq<Section>)
    requires Pair(secs)
    ensures OffIn(secs, 284, 284) == None && FileOffIn(secs, 1, 284) == Some(0)
  {
    hide AlignUp, OffIn, FileOffIn;
    ByteAligned(4);
    OffInAt(secs, 284, 284, 1);
    FileOffInAt(secs, 1, 284, 1);
  }

  // ---------------------------------------------------------------- a section that ends at 2^32

  /** The one section's address, 252 bytes below the top together with its four bytes. */
  const HIGH: u32 := 0xFFFF_FF00

  ghost predicate Top(secs: seq<Section>) {
    |secs| == 1 && secs[0].va == HIGH && secs[0].vs == 4 && secs[0].rawSize == 4 && secs[0].rawPtr == 280
  }

  lemma TopRead()
    ensures ParseHeader(FileFor(0, HIGH)) == Some(HeaderOf(1)) && HeaderInFile(FileFor(0, HIGH), HeaderOf(1))
    ensures Top(Sections(FileFor(0, HIGH), HeaderOf(1)))
  {
    hide LE32, FileFor, ParseHeader, SectionAt;
    FileHeaders(0, HIGH);
    HeadersParse(FileFor(0, HIGH), 1);
    SectionRead(FileFor(0, HIGH), 1, 0);
  }

  lemma TopOk(secs: seq<Section>)
    requires Top(secs)
    ensures SectionsOk(secs, HeaderOf(1), 284) && NextRva(secs, HeaderOf(1)) == HIGH + 4
    ensures !RoomInMemory(secs, HeaderOf(1), 252) && Fits(secs, HeaderOf(1), 252) && FirstRaw(secs) == 280
  {
    hide AlignUp, PowerOfTwo, MaxVEnd, MaxRawEnd, FirstRaw, SectionOk;
    OneMaxima(secs);
    ByteAligned(252);
    ByteAligned(HIGH + 4);
    ByteSection(secs[0], HeaderOf(1), 284);
    assert HasData(secs[0]);
  }

  lemma SizeNotCovered(b2: bytes, name: bytes, data: bytes, chars: u32)
    requires |data| == 252 && HeaderInFile(FileFor(0, HIGH), HeaderOf(1))
    requires Appended(FileFor(0, HIGH), b2, HeaderOf(1), name, data, chars)
    ensures Sound(FileFor(0, HIGH), HeaderOf(1)) && Fits(Sections(FileFor(0, HIGH), HeaderOf(1)), HeaderOf(1), |data|)
    ensures HeaderInFile(b2, HeaderOf(2))
    ensures !SizeCovers(Sections(b2, HeaderOf(2)), LE32(b2, 88 + OH_SIZE_OF_IMAGE))
  {
    hide FileFor, ParseHeader, SectionsOk, Sections, Appended, LE32, SizeCovers, Fits, RoomInMemory;
    TopRead();
    TopOk(Sections(FileFor(0, HIGH), HeaderOf(1)));
    SizeOfImageCoversIff(FileFor(0, HIGH), b2, HeaderOf(1), name, data, chars);
  }

  lemma TopSound()
    ensures ParseHeader(FileFor(0, HIGH)) == Some(HeaderOf(1)) && Sound(FileFor(0, HIGH), HeaderOf(1))
    ensures Fits(Sections(FileFor(0, HIGH), HeaderOf(1)), HeaderOf(1), 252)
    ensures FirstRaw(Sections(FileFor(0, HIGH), HeaderOf(1))) == 280
    ensures NextRva(Sections(FileFor(0, HIGH), HeaderOf(1)), HeaderOf(1)) == HIGH + 4
  {
    hide FileFor, ParseHeader, SectionsOk, Sections, Fits, FirstRaw, RoomInMemory, NextRva;
    TopRead();
    TopOk(Sections(FileFor(0, HIGH), HeaderOf(1)));
  }

  /** AddSection appends 252 bytes to a well-formed file, and the SizeOfImage it writes does not cover the sections. */
  method SizeOfImageMayNotCover(name: bytes, data: bytes, chars: u32) returns (rva: Option<u32>, out: bytes)
    requires |data| == 252
    ensures Sound(FileFor(0, HIGH), HeaderOf(1)) && rva == Some(HIGH + 4)
    ensures HeaderInFile(out, HeaderOf(2)) && !SizeCovers(Sections(out, HeaderOf(2)), LE32(out, 88 + OH_SIZE_OF_IMAGE))
  {
    hide FileFor, ParseHeader, Sound, Sections, Appended, LE32, SizeCovers, Fits, FirstRaw, NextRva;
    TopSound();
    var r := new Raw(FileFor(0, HIGH), HeaderOf(1));
    rva := r.AddSection(name, data, chars);
    out := r.Buf;
    SizeNotCovered(out, name, data, chars);
  }
}
