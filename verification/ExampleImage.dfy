/**
 * A complete image of 472 bytes: two imports from one DLL, and a shim table of one record, which gives the first import
 * a polyfill and names the slot of the second as the shim's own. It comes in variants.
 */
module ExampleImage {
  import opened Bytes
  import opened Image
  import opened RawImage
  import opened ImportReader
  import opened Runs
  import opened ShimTable
  import opened Profiles
  import opened Patcher
  import opened Examples

  /** The first and the second half of the magic, as words. */
  const GO2X: u32 := 0x5832_4F47
  const PTBL: u32 := 0x4C42_5450

  /**
   * With trap, the word in front of the first import's slot is the first half of the magic, and behind the slot comes a
   * complete header with one record. name is the one character of the first import's name, or zero for the empty name.
   * With overlap, the second slot lies two bytes behind the first. With high, a second section lies at 2^31. With named,
   * the second import is by the name a, unless slots overlap.
   */
  datatype Variant = Variant(trap: bool, name: u8, overlap: bool, high: bool, named: bool) {
    predicate ByName() { named && !overlap }
    function Lookup(): u32 { if ByName() then 446 else 0x8000_0001 }
    function H(): Header { HeaderOf(if high then 2 else 1) }
    /** The first import is redirected: the target lacks it. */
    predicate Redirects() { name != 0 && !high }
    function Before(): u32 { if trap then GO2X else 0 }
    function NameWord(): u32 { 0x1_0000 * name }
    function Slot(): u32 { if overlap then 390 else 392 }
    function Name(): bytes { if name == 0 then [] else [name] }
    /** The function with a polyfill: the one imported, or one called a. */
    function Func(): bytes { if name == 0 then [0x61] else [name] }
  }

  function Demo(v: Variant, k: nat): u32 {
    if k < 80 then HeaderWord(v, k) else BodyWord(v, k)
  }

  function HeaderWord(v: Variant, k: nat): u32 {
    if k == 0 then 0x5A4D
    else if k == 15 then 64
    else if k == 16 then 0x4550
    else if k == 17 then (if v.high then 0x2_014C else 0x1_014C)
    else if k == 21 then 112
    else if k == 22 then 0x10B
    else if k == 30 || k == 31 then 1
    else if k == 32 then 10
    else if k == 34 then 0x2_0006
    else if k == 37 then 280
    else if k == 39 then 0x61_0000
    else if k == 45 then 2
    else if k == 48 || k == 53 || k == 55 then 320
    else if k == 52 || k == 54 then 152
    else if k == 62 && v.high then 4
    else if k == 63 && v.high then 0x8000_0000
    else 0
  }

  function BodyWord(v: Variant, k: nat): u32 {
    if k == 80 then 456                                  // descriptor: lookup table, DLL name, slots
    else if k == 83 || k == 88 then 448
    else if k == 84 then 388
    else if k == 85 then 464                             // descriptor
    else if k == 89 then v.Slot()
    else if k == 96 then v.Before()                      // what may look like a table once the slot at 388 is filled
    else if k == 98 || k == 99 then 1
    else if k == 100 || k == 101 then 448
    else if k == 102 then 7
    else if k == 104 then GO2X                           // the table
    else if k == 105 || k == 110 then PTBL
    else if k == 106 || k == 107 then 1
    else if k == 108 then 448
    else if k == 109 then (if v.name == 0 then 448 else 454)
    else if k == 111 then 392
    else if k == 112 then 0x61                           // the DLL's name, a; then hint and name of the import
    else if k == 113 then v.NameWord()
    else if k == 114 then 452                            // lookup tables
    else if k == 116 then v.Lookup()
    else 0
  }

  function Small(v: Variant): (b: bytes)
    ensures |b| == 472
  {
    FromWords(k => Demo(v, k), 118)
  }

  lemma SmallWord(v: Variant, k: nat)
    requires k < 118
    ensures LE32(Small(v), 4 * k) == Demo(v, k)
    ensures forall j | 0 <= j < 4 :: Small(v)[4 * k + j] == Enc32(Demo(v, k))[j]
  {
    hide LE32, Enc32, Demo;
    WordIn(k => Demo(v, k), 118, k);
  }

  lemma SmallHeaders(v: Variant)
    ensures ParseHeader(Small(v)) == Some(v.H()) && HeaderInFile(Small(v), v.H())
    ensures InPlace(Sections(Small(v), v.H()), 472, v.high)
    ensures DataDirRva(Small(v), v.H(), 1) == 320 && LE32(Small(v), 148) == 280
  {
    hide LE32, Small, Sections, ParseHeader;
    var b := Small(v);
    SmallHeaderWords(v);
    HeadersParse(b, v.H().nSect);
    SectionRead(b, v.H().nSect, 0);
    SectionsCount(b, v);
    if v.high {
      HighHeaderWords(v);
      SectionRead(b, 2, 1);
    }
  }

  lemma SectionsCount(b: bytes, v: Variant)
    requires HeaderInFile(b, v.H())
    ensures |Sections(b, v.H())| == v.H().nSect
  {}

  lemma SmallHeaderWords(v: Variant)
    ensures HasHeaders(Small(v), v.H().nSect)
    ensures LE32(Small(v), 192) == 320 && LE32(Small(v), 148) == 280
    ensures LE32(Small(v), 208) == 152 && LE32(Small(v), 212) == 320
    ensures LE32(Small(v), 216) == 152 && LE32(Small(v), 220) == 320
  {
    hide LE32, Small, BodyWord;
    SmallWord(v, 0);
    SmallWord(v, 15);
    SmallWord(v, 16);
    SmallWord(v, 17);
    SmallWord(v, 21);
    SmallWord(v, 22);
    SmallWord(v, 29);
    SmallWord(v, 30);
    SmallWord(v, 31);
    SmallWord(v, 37);
    SmallWord(v, 45);
    SmallWord(v, 48);
    SmallWord(v, 52);
    SmallWord(v, 53);
    SmallWord(v, 54);
    SmallWord(v, 55);
  }

  lemma HighHeaderWords(v: Variant)
    requires v.high
    ensures LE32(Small(v), 248) == 4 && LE32(Small(v), 252) == 0x8000_0000
    ensures LE32(Small(v), 256) == 0 && LE32(Small(v), 260) == 0
  {
    hide LE32, Small, BodyWord;
    SmallWord(v, 62);
    SmallWord(v, 63);
    SmallWord(v, 64);
    SmallWord(v, 65);
  }

  function SmallView(v: Variant): View
  {
    SmallHeaders(v);
    ViewOf(Small(v), v.H())
  }

  lemma BodyIs(v: Variant, k: nat)
    requires 80 <= k < 118
    ensures LE32(Small(v), 4 * k) == BodyWord(v, k)
    ensures forall j | 0 <= j < 4 :: Small(v)[4 * k + j] == Enc32(BodyWord(v, k))[j]
  {
    hide LE32, Small, BodyWord, HeaderWord, Enc32;
    SmallWord(v, k);
  }

  /** Reading a word of the section's data. */
  lemma SmallRead(v: Variant, k: nat)
    requires 80 <= k < 118
    ensures U32At(SmallView(v), 4 * k) == Some(BodyWord(v, k)) && U32OrZero(SmallView(v), 4 * k) == BodyWord(v, k)
  {
    hide LE32, Small, BodyWord, HeaderWord, OffIn, Sections;
    SmallHeaders(v);
    SmallWord(v, k);
    ReadAligned(Small(v), Sections(Small(v), v.H()), v.high, 4 * k);
  }

  lemma ReadAligned(b: bytes, secs: seq<Section>, high: bool, o: u32)
    requires |b| == 472 && InPlace(secs, 472, high) && 320 <= o <= 468
    ensures U32At(View(b, secs), o) == Some(LE32(b, o))
  {
    hide OffIn, LE32;
    OneMaps(secs, 472, high, o);
  }

  // ---------------------------------------------------------------- names

  lemma LowByte(v: u32)
    requires v < 0x100
    ensures Enc32(v)[0] == v && Enc32(v)[1] == 0
  {
    EncBytes(v, v, 0, 0, 0);
  }

  lemma ThirdByte(c: u8)
    ensures 0x1_0000 * c < W32
    ensures Enc32(0x1_0000 * c)[2] == c && Enc32(0x1_0000 * c)[3] == 0
  {
    EncBytes(0x1_0000 * c, 0, 0, c, 0);
  }

  lemma SmallNames(v: Variant)
    ensures CStrAt(SmallView(v), 448) == Some([0x61])
    ensures CStrAt(SmallView(v), 454) == Some(v.Name())
  {
    hide LE32, Small, BodyWord, OffIn, Sections, Enc32, StrAt;
    SmallHeaders(v);
    NameWords(v);
    OneMaps(Sections(Small(v), v.H()), 472, v.high, 448);
    OneMaps(Sections(Small(v), v.H()), 472, v.high, 454);
    BodyIs(v, 112);
    BodyIs(v, 113);
    LowByte(0x61);
    ThirdByte(v.name);
    var b := Small(v);
    assert b[4 * 112 + 0] == 0x61 && b[4 * 112 + 1] == 0;
    assert b[4 * 113 + 2] == v.name && b[4 * 113 + 3] == 0;
    OneCharacter(b, 448, 0x61);
    if v.name == 0 { NoCharacter(b, 454); } else { OneCharacter(b, 454, v.name); }
  }

  lemma NoCharacter(b: bytes, o: nat)
    requires o < |b| && b[o] == 0
    ensures StrAt(b, o) == Some([])
  {
    StrAtUnique(b, o, []);
  }

  lemma NameWords(v: Variant)
    ensures BodyWord(v, 112) == 0x61 && BodyWord(v, 113) == 0x1_0000 * v.name
  {}

  // ---------------------------------------------------------------- the import table

  lemma ImportWords(v: Variant)
    ensures BodyWord(v, 80) == 456 && BodyWord(v, 83) == 448 && BodyWord(v, 84) == 388
    ensures BodyWord(v, 85) == 464 && BodyWord(v, 88) == 448 && BodyWord(v, 89) == v.Slot()
    ensures BodyWord(v, 90) == 0 && BodyWord(v, 93) == 0 && BodyWord(v, 94) == 0
    ensures BodyWord(v, 114) == 452 && BodyWord(v, 115) == 0 && BodyWord(v, 116) == v.Lookup() && BodyWord(v, 117) == 0
  {}

  /** The first import, by name, through the slot at 388. */
  function First(v: Variant): Import { Import([0x61], v.Name(), 0, 388, 0) }

  /** The second import, of ordinal 1 or by the name a, by another descriptor of the same DLL. */
  function Second(v: Variant): Import {
    if v.ByName() then Import([0x61], [0x61], 0, v.Slot(), 1) else Import([0x61], [], 1, v.Slot(), 1)
  }

  /** The three descriptors, the two lookup tables, and the name. */
  ghost predicate Directory(w: View, v: Variant) {
    && U32At(w, 320) == Some(456) && NameRva(w, 320) == 448 && FirstThunk(w, 320) == 388
    && U32At(w, 340) == Some(464) && NameRva(w, 340) == 448 && FirstThunk(w, 340) == v.Slot()
    && U32At(w, 360) == Some(0) && NameRva(w, 360) == 0 && FirstThunk(w, 360) == 0
    && U32At(w, 456) == Some(452) && U32At(w, 460) == Some(0)
    && U32At(w, 464) == Some(v.Lookup()) && U32At(w, 468) == Some(0)
    && CStrAt(w, 448) == Some([0x61]) && CStrAt(w, 454) == Some(v.Name())
  }

  lemma SmallDirectory(v: Variant)
    ensures Directory(SmallView(v), v)
  {
    hide U32At, U32OrZero, CStrAt, SmallView, BodyWord;
    ImportWords(v);
    SmallRead(v, 80);
    SmallRead(v, 83);
    SmallRead(v, 84);
    SmallRead(v, 85);
    SmallRead(v, 88);
    SmallRead(v, 89);
    SmallRead(v, 90);
    SmallRead(v, 93);
    SmallRead(v, 94);
    SmallRead(v, 114);
    SmallRead(v, 115);
    SmallRead(v, 116);
    SmallRead(v, 117);
    SmallNames(v);
    var w := SmallView(v);
    assert U32At(w, 4 * 80) == Some(456) && U32OrZero(w, 4 * 83) == 448 && U32OrZero(w, 4 * 84) == 388;
    assert U32At(w, 4 * 85) == Some(464) && U32OrZero(w, 4 * 88) == 448 && U32OrZero(w, 4 * 89) == v.Slot();
    assert U32At(w, 4 * 90) == Some(0) && U32OrZero(w, 4 * 93) == 0 && U32OrZero(w, 4 * 94) == 0;
    assert U32At(w, 4 * 114) == Some(452) && U32At(w, 4 * 115) == Some(0);
    assert U32At(w, 4 * 116) == Some(v.Lookup()) && U32At(w, 4 * 117) == Some(0);
  }

  lemma LastThunk(w: View, dll: bytes, lookup: u32, slot: u32, desc: nat, n: nat)
    requires U32At(w, lookup) == Some(0)
    ensures Thunks(w, dll, lookup, slot, desc, n) == Done([])
  {}

  /** A lookup table of one entry. */
  lemma OneThunk(w: View, dll: bytes, lookup: u32, slot: u32, x: u32, im: Import, n: nat)
    requires n > 0 && lookup < W32 - 4 && slot < W32 - 4 && x != 0
    requires U32At(w, lookup) == Some(x) && U32At(w, lookup + 4) == Some(0)
    requires Entry(w, dll, x, slot, im.desc) == Some(im)
    ensures Thunks(w, dll, lookup, slot, im.desc, n) == Done([im])
  {
    hide U32At, Entry;
    LastThunk(w, dll, lookup + 4, slot + 4, im.desc, n - 1);
    assert [im] + [] == [im];
  }

  lemma LastDescriptor(w: View, d: u32, desc: nat, n: nat)
    requires U32At(w, d) == Some(0) && NameRva(w, d) == 0 && FirstThunk(w, d) == 0
    ensures Descriptors(w, d, desc, n) == Done([])
  {}

  /** A descriptor with a lookup table of one entry. */
  lemma OneImport(w: View, d: u32, x: u32, im: Import, rest: seq<Import>, n: nat)
    requires n > 0 && d < W32 - 20 && x != 0 && im.slot < W32 - 4
    requires U32At(w, d).Some? && 0 < U32At(w, d).value < W32 - 4
    requires CStrAt(w, NameRva(w, d)) == Some(im.dll) && FirstThunk(w, d) == im.slot
    requires U32At(w, U32At(w, d).value) == Some(x) && U32At(w, U32At(w, d).value + 4) == Some(0)
    requires Entry(w, im.dll, x, im.slot, im.desc) == Some(im)
    requires Descriptors(w, d + 20, im.desc + 1, n - 1) == Done(rest)
    ensures Descriptors(w, d, im.desc, n) == Done([im] + rest)
  {
    hide U32At, CStrAt, NameRva, FirstThunk, Entry, Thunks;
    OneThunk(w, im.dll, U32At(w, d).value, im.slot, x, im, ROUND - 1);
  }

  lemma SecondEntry(w: View, v: Variant)
    requires CStrAt(w, 448) == Some([0x61])
    ensures Entry(w, [0x61], v.Lookup(), v.Slot(), 1) == Some(Second(v)) && v.Lookup() != 0
    ensures Second(v).dll == [0x61] && Second(v).slot == v.Slot() && Second(v).desc == 1
  {
    hide CStrAt;
  }

  lemma SmallImports(v: Variant)
    ensures ImportsAt(SmallView(v), 320) == Done([First(v), Second(v)])
  {
    hide U32At, NameRva, FirstThunk, CStrAt, SmallView, Descriptors;
    SmallDirectory(v);
    var w := SmallView(v);
    LastDescriptor(w, 360, 2, ROUND - 3);
    SecondEntry(w, v);
    OneImport(w, 340, v.Lookup(), Second(v), [], ROUND - 2);
    OneImport(w, 320, 452, First(v), [Second(v)] + [], ROUND - 1);
    assert [First(v)] + ([Second(v)] + []) == [First(v), Second(v)];
  }

  // ---------------------------------------------------------------- the table

  /** A magic, version 1, one record whose names can be read. */
  lemma OneRecordTable(w: View, base: u32, o: nat, dll: bytes, fn: bytes)
    requires o + 32 <= |w.raw| && MagicAt(w.raw, o)
    requires LE32(w.raw, o + 8) == 1 && LE32(w.raw, o + 12) == 1
    requires NameAtVa(w, base, LE32(w.raw, o + 16)) == Some(dll) && NameAtVa(w, base, LE32(w.raw, o + 20)) == Some(fn)
    requires dll != [] && fn != []
    ensures ValidAt(w, base, o) == Some([TableEntry(dll, fn, LE32(w.raw, o + 24), LE32(w.raw, o + 28))])
  {
    hide LE32, NameAtVa, MagicAt, MAGIC;
    var e := TableEntry(dll, fn, LE32(w.raw, o + 24), LE32(w.raw, o + 28));
    assert RecordAt(w, base, o + 16) == Some(e);
    OneRecord(w, base, o + 16, e);
    assert 1 <= (|w.raw| - o - 16) / 16;
    assert TableAt(w, base, o) == Records(w, base, o + 16, 1);
  }

  lemma OneRecord(w: View, base: u32, e: nat, t: TableEntry)
    requires e + 16 <= |w.raw| && RecordAt(w, base, e) == Some(t)
    ensures Records(w, base, e, 1) == Some([t])
  {
    hide RecordAt;
    var none: seq<TableEntry> := [];
    assert Records(w, base, e, 0) == Some(none);
    assert e + 16 * (1 - 1) == e && none + [t] == [t];
  }

  /** The one record: the polyfill for a function of a, and an own slot. */
  function RecordOf(v: Variant): TableEntry { TableEntry([0x61], v.Func(), PTBL, 392) }

  lemma TableWords(v: Variant)
    ensures BodyWord(v, 104) == GO2X && BodyWord(v, 105) == PTBL
    ensures BodyWord(v, 106) == 1 && BodyWord(v, 107) == 1 && BodyWord(v, 108) == 448
    ensures BodyWord(v, 109) == if v.name == 0 then 448 else 454
    ensures BodyWord(v, 110) == PTBL && BodyWord(v, 111) == 392
  {}

  /** A magic in two consecutive words. */
  lemma MagicInWords(b: bytes, o: nat, v: u32, w: u32)
    requires o + 8 <= |b| && v == GO2X && w == PTBL
    requires forall j | 0 <= j < 4 :: b[o + j] == Enc32(v)[j] && b[o + 4 + j] == Enc32(w)[j]
    ensures MagicAt(b, o)
  {
    hide Enc32;
    EncBytes(v, 0x47, 0x4F, 0x32, 0x58);
    EncBytes(w, 0x50, 0x54, 0x42, 0x4C);
    assert b[o + 0] == 0x47 && b[o + 1] == 0x4F && b[o + 2] == 0x32 && b[o + 3] == 0x58;
    assert b[o + 4 + 0] == 0x50 && b[o + 4 + 1] == 0x54 && b[o + 4 + 2] == 0x42 && b[o + 4 + 3] == 0x4C;
    assert b[o..o + 8] == MAGIC;
  }

  lemma SmallTableWords(v: Variant)
    ensures var b := Small(v);
            && MagicAt(b, 416) && LE32(b, 424) == 1 && LE32(b, 428) == 1
            && LE32(b, 432) == 448 && LE32(b, 436) == (if v.name == 0 then 448 else 454)
            && LE32(b, 440) == PTBL && LE32(b, 444) == 392
  {
    hide LE32, Small, BodyWord, Enc32, MagicAt;
    TableWords(v);
    BodyIs(v, 104);
    BodyIs(v, 105);
    BodyIs(v, 106);
    BodyIs(v, 107);
    BodyIs(v, 108);
    BodyIs(v, 109);
    BodyIs(v, 110);
    BodyIs(v, 111);
    MagicInWords(Small(v), 416, BodyWord(v, 104), BodyWord(v, 105));
  }

  lemma AtBaseZero(w: View, va: u32)
    ensures NameAtVa(w, 0, va) == CStrAt(w, va)
  {
    hide CStrAt;
  }

  lemma TableHere(v: Variant)
    ensures ValidAt(SmallView(v), 0, 416) == Some([RecordOf(v)])
  {
    hide LE32, Small, CStrAt, NameAtVa, MagicAt, Sections, ValidAt;
    SmallHeaders(v);
    SmallTableWords(v);
    SmallNames(v);
    AtBaseZero(SmallView(v), 448);
    AtBaseZero(SmallView(v), 454);
    OneRecordTable(SmallView(v), 0, 416, [0x61], v.Func());
  }

  // ---------------------------------------------------------------- no other table

  lemma SmallByte(v: Variant, p: nat)
    requires p < 472
    ensures Small(v)[p] == Enc32(Demo(v, p / 4))[p % 4]
  {
    hide Enc32, Demo, LE32, Small;
    SmallWord(v, p / 4);
    assert p == 4 * (p / 4) + p % 4;
  }

  ghost predicate NoG(x: u32) { forall j | 0 <= j < 4 :: Enc32(x)[j] != 0x47 }

  lemma NoGSmall(x: u32)
    requires x < 0x100_0000 && x % 0x100 != 0x47 && x / 0x100 % 0x100 != 0x47 && x / 0x1_0000 != 0x47
    ensures NoG(x)
  {
    hide Enc32;
    EncBytes(x, x % 0x100, x / 0x100 % 0x100, x / 0x1_0000, 0);
  }

  /** In front of the table only word 96 is one that may hold a G. */
  lemma DemoWords(v: Variant, k: nat)
    requires k < 104 && k != 96
    ensures NoG(Demo(v, k)) && (!v.high ==> Demo(v, k) < 0x100_0000)
  {
    hide NoG;
    if k < 80 { HeaderNoG(v, k); } else { BodyNoG(v, k); }
  }

  lemma HeaderNoG(v: Variant, k: nat)
    requires k < 80
    ensures NoG(HeaderWord(v, k)) && (!v.high ==> HeaderWord(v, k) < 0x100_0000)
  {
    hide NoG;
    if v.high && k == 63 { NoGHigh(HeaderWord(v, k)); } else { NoGSmall(HeaderWord(v, k)); }
  }

  lemma NoGHigh(x: u32)
    requires x == 0x8000_0000
    ensures NoG(x)
  {
    hide Enc32;
    EncBytes(x, 0, 0, 0, 0x80);
  }

  lemma BodyNoG(v: Variant, k: nat)
    requires 80 <= k < 104 && k != 96
    ensures BodyWord(v, k) < 0x100_0000 && NoG(BodyWord(v, k))
  {
    hide NoG;
    NoGSmall(BodyWord(v, k));
  }

  lemma NoEarlierMagic(v: Variant, p: nat)
    requires p < 416
    ensures !MagicAt(Small(v), p)
  {
    hide Enc32, Demo, Small, LE32, BodyWord;
    var b := Small(v);
    if p / 4 != 96 {
      SmallByte(v, p);
      DemoWords(v, p / 4);
      NotMagic(b, p, 0);
    } else {
      TrapWords(v);
      BodyIs(v, 96);
      BodyIs(v, 97);
      ZeroBytes(b, 388);
      if !v.trap {
        ZeroBytes(b, 384);
        NotMagic(b, p, 0);
      } else if p == 384 {
        NotMagic(b, p, 4);
      } else {
        EncBytes(v.Before(), 0x47, 0x4F, 0x32, 0x58);
        assert b[384 + (p - 384)] == Enc32(v.Before())[p - 384];
        NotMagic(b, p, 0);
      }
    }
  }

  lemma TrapWords(v: Variant)
    ensures BodyWord(v, 96) == v.Before() && BodyWord(v, 97) == 0
  {}

  lemma NotMagic(b: bytes, p: nat, j: nat)
    requires j < 8 && p + j < |b| && b[p + j] != MAGIC[j]
    ensures !MagicAt(b, p)
  {
    assert p + 8 <= |b| ==> b[p..p + 8][j] == b[p + j];
  }

  lemma TableIsLowest(v: Variant)
    ensures LowestValid(SmallView(v), 0, 0, 416, [RecordOf(v)])
  {
    hide Small, MagicAt, TableAt, Sections, Demo, BodyWord, HeaderWord;
    TableHere(v);
    SmallHeaders(v);
    forall p | 0 <= p < 416 ensures ValidAt(SmallView(v), 0, p) == None {
      NoEarlierMagic(v, p);
    }
  }

  // ---------------------------------------------------------------- the image as a whole

  lemma SmallOpens(v: Variant)
    ensures OpenImage(Small(v)).Some?
    ensures var info := OpenImage(Small(v)).value;
            && info.h == v.H() && info.imports == [First(v), Second(v)] && info.table == [RecordOf(v)]
            && info.osMajor == 10 && info.osMinor == 0 && info.subsysMajor == 6 && info.subsysMinor == 2 && info.dllChar == 0x61
  {
    hide Small, ParseHeader, ScanFrom, ImportsAt, Sections, LE16, LE32, LowestValid;
    SmallHeaders(v);
    SmallImports(v);
    TableIsLowest(v);
    LowestIsFound(SmallView(v), 0, 0, 416, [RecordOf(v)]);
    SmallVersions(v);
  }

  /** The version fields and the characteristics. */
  lemma SmallVersions(v: Variant)
    ensures LE16(Small(v), 128) == 10 && LE16(Small(v), 130) == 0 && LE16(Small(v), 136) == 6 && LE16(Small(v), 138) == 2
    ensures LE16(Small(v), 156) == 0 && LE16(Small(v), 158) == 0x61
  {
    hide LE32, LE16, Small, BodyWord;
    SmallWord(v, 32);
    SmallWord(v, 34);
    SmallWord(v, 39);
    HalvesIn(Small(v), 128, 10, 0);
    HalvesIn(Small(v), 136, 6, 2);
    HalvesIn(Small(v), 156, 0, 0x61);
  }

  /** What opening the image gives. */
  function SmallInfo(v: Variant): (info: Info)
    ensures OpenImage(Small(v)) == Some(info)
    ensures info.h == v.H() && info.imports == [First(v), Second(v)] && info.table == [RecordOf(v)]
    ensures info.osMajor == 10 && info.osMinor == 0 && info.subsysMajor == 6 && info.subsysMinor == 2 && info.dllChar == 0x61
  {
    SmallOpens(v);
    OpenImage(Small(v)).value
  }

  /** The target: it lacks the whole DLL, only the function when slots overlap, or nothing when nothing is redirected. */
  function Target(v: Variant): Profile {
    Profile(5, 1, 4, 10, if v.overlap && v.Redirects() then map[[0x61] := [[v.name]]] else map[],
            if v.overlap || !v.Redirects() then [] else [[0x61]])
  }

  lemma MapsOfOne(e: TableEntry)
    ensures PolyMap([e]) == if e.polyfill == 0 then map[] else map[Key(e.dll, e.func) := e.polyfill]
    ensures OwnSlots([e]) == if e.ownSlot == 0 then {} else {e.ownSlot}
  {
    hide Key;
    assert [e][..0] == [];
  }

  lemma FirstIsMissing(v: Variant)
    ensures IsMissing(Target(v), [0x61], v.Name()) <==> v.Redirects()
  {
    if v.overlap && v.Redirects() {
      assert [v.name] in Target(v).missing[[0x61]];
    } else if v.Redirects() {
      assert Target(v).missingWhole == [[0x61]] && [0x61] in Target(v).missingWhole;
      assert SameFolded([0x61], [0x61]);
    }
  }

  lemma NoneIsMissing(v: Variant)
    requires v.overlap || !v.Redirects()
    ensures !IsMissing(Target(v), Second(v).dll, Second(v).name)
  {}

  lemma NoForcedHook(v: Variant)
    ensures !ForceHook([0x61], v.Name()) && !ForceHook(Second(v).dll, Second(v).name)
  {
    assert |KERNEL32| == 12;
  }

  /** The plan: the first import goes to its polyfill, the second is left alone. */
  lemma SmallPlan(v: Variant)
    ensures var p := PlanOf(SmallInfo(v), Target(v));
            && Decide(p, First(v)) == (if v.Redirects() then Redirect(PTBL) else Leave)
            && Decide(p, Second(v)) == Leave
  {
    hide SmallInfo, PolyMap, OwnSlots, Decide, Key, Target, First, Second, RecordOf;
    MapsOfOne(RecordOf(v));
    RecordMeans(v);
    PlanDecides(v, PlanOf(SmallInfo(v), Target(v)));
  }

  lemma RecordMeans(v: Variant)
    ensures RecordOf(v).dll == [0x61] && RecordOf(v).func == v.Func() && RecordOf(v).polyfill == PTBL != 0
    ensures RecordOf(v).ownSlot == 392
  {}

  lemma PlanDecides(v: Variant, p: Plan)
    requires p.prof == Target(v) && p.poly == map[Key([0x61], v.Func()) := PTBL] && p.own == {392} && p.imageBase == 0
    ensures Decide(p, First(v)) == (if v.Redirects() then Redirect(PTBL) else Leave)
    ensures Decide(p, Second(v)) == Leave
  {
    hide IsMissing, Key, ForceHook, Target;
    FirstIsMissing(v);
    NoForcedHook(v);
    if v.overlap || !v.Redirects() { NoneIsMissing(v); }
  }

  function BadSlot(v: Variant): set<u32> { if v.Redirects() then {388} else {} }

  lemma SmallBad(v: Variant)
    ensures BadOf(SmallInfo(v), Target(v)) == BadSlot(v)
    ensures Kept(SmallInfo(v).imports, BadSlot(v)) == if v.Redirects() then [Second(v)] else [First(v), Second(v)]
  {
    hide SmallInfo, PlanOf, Decide, Target, Kept, BadSlots, First, Second, BadSlot;
    SmallPlan(v);
    SlotsOf(v);
    BadOfTwo(PlanOf(SmallInfo(v), Target(v)), First(v), Second(v));
    SmallKept(v);
  }

  lemma SmallKept(v: Variant)
    ensures Kept([First(v), Second(v)], BadSlot(v)) == if v.Redirects() then [Second(v)] else [First(v), Second(v)]
  {
    hide Kept, First, Second, BadSlot;
    SlotsOf(v);
    KeptOfTwo(First(v), Second(v), BadSlot(v));
    assert [First(v)] + [Second(v)] == [First(v), Second(v)];
  }

  lemma SlotsOf(v: Variant)
    ensures First(v).slot == 388 && Second(v).slot == v.Slot() && v.Slot() !in BadSlot(v)
    ensures BadSlot(v) == if v.Redirects() then {388} else {}
  {}

  lemma BadOfTwo(p: Plan, x: Import, y: Import)
    requires !Decide(p, y).Redirect?
    ensures BadSlots(p, [x, y]) == if Decide(p, x).Redirect? then {x.slot} else {}
  {
    hide Decide;
    var one, two := [x], [x, y];
    assert one[..0] == [] && two[..1] == one && one[0] == x && two[1] == y;
    assert BadSlots(p, one[..0]) == {};
    assert BadSlots(p, one) == if Decide(p, x).Redirect? then {} + {x.slot} else {};
    assert BadSlots(p, two) == BadSlots(p, two[..1]);
  }

  lemma KeptOfTwo(x: Import, y: Import, bad: set<u32>)
    ensures Kept([x, y], bad) == (if x.slot in bad then [] else [x]) + (if y.slot in bad then [] else [y])
  {
    var one, two := [x], [x, y];
    assert one[..0] == [] && two[..1] == one && one[0] == x && two[1] == y;
    assert Kept(one[..0], bad) == [];
    assert Kept(one, bad) == if x.slot in bad then [] else [x];
    assert Kept(two, bad) == Kept(two[..1], bad) + if y.slot in bad then [] else [y];
  }
}
