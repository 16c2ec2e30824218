/**
 * Patching the variants of the example image. In one the theorems about patched images apply, a second patch included;
 * in one a patch spells out a false table, so that Verify fails and a second patch is refused; in one the empty name
 * becomes an ordinal; in one the loader overwrites a polyfill's address.
 */
module ExamplePatches {
  import opened Bytes
  import opened Align
  import opened Image
  import opened RawImage
  import opened Appending
  import opened ImportReader
  import opened Runs
  import opened Layout
  import opened Rebuild
  import opened Grouping
  import opened Dropped
  import opened ShimTable
  import opened Profiles
  import opened Redirecting
  import opened Patcher
  import opened Verifier
  import opened Loader
  import opened PatchTheorems
  import opened LoadTheorems
  import opened TableTheorems
  import opened Twice
  import opened Examples
  import opened ExampleImage

  function Unharmed(c: u8): Variant { Variant(false, c, false, false, false) }
  function Trap(c: u8, named: bool): Variant { Variant(true, c, false, false, named) }
  function Overlapping(c: u8): Variant { Variant(false, c, true, false, false) }

  // ---------------------------------------------------------------- the images can be patched

  /** out is the outcome of patching a variant for its target. */
  ghost predicate PatchedForm(v: Variant, out: bytes, sec: bytes, ps: seq<Piece>) {
    PatchOf(Small(v), out, SmallInfo(v), Target(v), sec, ps)
  }

  lemma SlotIsBacked(secs: seq<Section>, high: bool)
    requires InPlace(secs, 472, high)
    ensures SlotBacked(secs, 388) && FileOffIn(secs, 1, 388) == Some(388) && SlotOff(secs, 1, 388) == 388
  {
    hide FileOffIn;
    OneMaps(secs, 472, high, 388);
    assert WordBacked(secs[0], 388);
  }

  lemma SizeOfOne(x: Import)
    requires |x.dll| <= 1 && |x.name| <= 1
    ensures SectionSize([x]) <= 100
  {
    hide Even;
    EvenOfTwo(x);
    AreaOfTwo(x.dll, x.dll, 0);
    AreaOfTwo(x.name, x.name, 2);
    NamesOfTwo(x, x);
    assert Dlls([x]) == [x.dll];
  }

  lemma SizeOfTwo(x: Import, y: Import)
    requires |x.dll| <= 1 && |x.name| <= 1 && |y.dll| <= 1 && |y.name| <= 1
    ensures SectionSize([x, y]) <= 100
  {
    hide Even, StringArea, FuncNames, RunCount;
    RunsOfTwo(x, y);
    EvenOfTwo(x);
    EvenOfTwo(y);
    AreaOfTwo(x.dll, y.dll, 0);
    AreaOfTwo(x.name, y.name, 2);
    NamesOfTwo(x, y);
    assert Dlls([x, y]) == [x.dll, y.dll];
  }

  lemma RunsOfTwo(x: Import, y: Import)
    ensures RunCount([x, y]) <= 2
  {
    assert RunIndex([x, y], 0) == 0;
  }

  lemma EvenOfTwo(x: Import)
    requires |x.dll| <= 1 && |x.name| <= 1
    ensures Even(0 + |x.dll| + 1) <= 2 && Even(2 + |x.name| + 1) <= 4
  {}

  lemma AreaOfTwo(a: bytes, b: bytes, hint: nat)
    ensures StringArea([], hint) == 0 && StringArea([a], hint) == Even(hint + |a| + 1)
    ensures StringArea([b], hint) == Even(hint + |b| + 1)
    ensures StringArea([a, b], hint) <= Even(hint + |a| + 1) + Even(hint + |b| + 1)
  {
    hide Even;
    AreaStep([], a, hint);
    AreaStep([], b, hint);
    AreaStep([a], b, hint);
    assert [] + [a] == [a] && [] + [b] == [b] && [a] + [b] == [a, b];
  }

  lemma NamesOfTwo(x: Import, y: Import)
    ensures FuncNames([x]) == [] || FuncNames([x]) == [x.name]
    ensures FuncNames([x, y]) == [] || FuncNames([x, y]) == [x.name] || FuncNames([x, y]) == [y.name]
            || FuncNames([x, y]) == [x.name, y.name]
  {
    NoFuncNames([x], []);
    assert [x][..0] == [] && [x, y][..1] == [x];
    assert FuncNames([x]) == if x.name == [] then [] else [x.name];
    assert FuncNames([x, y]) == FuncNames([x]) + if y.name == [] then [] else [y.name];
  }

  lemma SmallSize(v: Variant)
    ensures NewSize(SmallInfo(v), Target(v)) <= 100
  {
    hide SmallInfo, BadSlots, Kept, SectionSize, Target, PlanOf;
    SmallBad(v);
    SizeOfOne(Second(v));
    SizeOfTwo(First(v), Second(v));
  }

  lemma CanRedirectTwo(p: Plan, x: Import, y: Import, secs: seq<Section>, sa: u32)
    requires Decide(p, y) == Leave && Decide(p, x) != Refuse
    requires SlotBacked(secs, x.slot) && FileOffIn(secs, sa, x.slot).Some?
    ensures RedirectsBacked(p, [x, y], secs, sa) && CanRedirect(p, [x, y], secs, sa)
  {
    hide SlotBacked, FileOffIn, Decide;
  }

  lemma SmallLinked(v: Variant)
    ensures HeaderInFile(Small(v), v.H()) && Linked(Small(v), SmallInfo(v), Target(v))
    ensures CanRedirect(PlanOf(SmallInfo(v), Target(v)), SmallInfo(v).imports, Sections(Small(v), v.H()), 1)
  {
    hide Small, Sections, SmallInfo, OpenImage, ParseHeader, FileOffIn, SlotBacked, Decide, NewSize, SectionsOk, NextRva,
         FirstRaw, RedirectsBacked, CanRedirect, BadSlots, PlanOf, Target;
    SmallHeaders(v);
    SmallPlan(v);
    SmallSize(v);
    OneOk(Sections(Small(v), v.H()), 472, v.high);
    SlotIsBacked(Sections(Small(v), v.H()), v.high);
    CanRedirectTwo(PlanOf(SmallInfo(v), Target(v)), First(v), Second(v), Sections(Small(v), v.H()), 1);
  }

  /** Every variant meets all that is asked of an input, and Patch accepts it. */
  lemma SmallIsPatchable(v: Variant)
    ensures Patchable(Small(v), Target(v)) && Acceptable(Small(v), Target(v))
  {
    hide Small, Sections, SmallInfo, OpenImage, Linked, CanRedirect, FirstRaw, PlanOf, Target, First, Second, HeaderInFile;
    SmallLinked(v);
    SmallRoom(v);
  }

  lemma SmallRoom(v: Variant)
    requires HeaderInFile(Small(v), v.H())
    ensures v.H().LastHdrEnd() + (if v.high then 40 else 80) <= FirstRaw(Sections(Small(v), v.H()))
  {
    hide Small, Sections, FirstRaw, SectionsOk, NextRva, NextRaw;
    SmallHeaders(v);
    OneOk(Sections(Small(v), v.H()), 472, v.high);
  }

  // ---------------------------------------------------------------- what a patch leaves alone

  /** The file offsets outside everything a patch writes. */
  predicate Plain(i: int) {
    && 0 <= i < 472 && !(70 <= i < 72) && !(128 <= i < 132) && !(136 <= i < 140) && !(144 <= i < 148) && !(152 <= i < 156)
    && !(158 <= i < 160) && !(192 <= i < 200) && !(240 <= i < 280) && !(388 <= i < 392)
  }

  lemma PlainIsUntouched(v: Variant, i: int)
    requires !v.high && Plain(i)
    ensures HeaderInFile(Small(v), v.H()) && Untouched(Small(v), SmallInfo(v), Target(v), i)
  {
    hide Small, Sections, SmallInfo, OpenImage, ParseHeader, FileOffIn, SlotBacked, SectionsOk, NextRva, NextRaw, FirstRaw,
         BadSlots, PlanOf, Target, SlotOff, Kept;
    SmallHeaders(v);
    SmallBad(v);
    OneOk(Sections(Small(v), v.H()), 472, v.high);
    SlotIsBacked(Sections(Small(v), v.H()), v.high);
  }

  lemma PlainRange(v: Variant, lo: nat, hi: nat)
    requires !v.high && hi <= 472 && forall i | lo <= i < hi :: Plain(i)
    ensures HeaderInFile(Small(v), v.H()) && Steady(Small(v), SmallInfo(v), Target(v), lo, hi)
  {
    hide Small, SmallInfo, Target, Untouched, OpenImage, ParseHeader, Plain;
    SmallHeaders(v);
    forall i | lo <= i < hi ensures Untouched(Small(v), SmallInfo(v), Target(v), i) {
      PlainIsUntouched(v, i);
    }
  }

  // ---------------------------------------------------------------- where no candidate can come from

  /** A place is quiet when a byte close behind it is foreseen to be zero. */
  lemma QuietByZero(raw: bytes, info: Info, prof: Profile, p: nat, i: int)
    requires HeaderInFile(raw, info.h) && p <= i <= p + 8 && Becomes(raw, info, prof, i, 0)
    ensures Quiet(raw, info, prof, p)
  {
    hide Becomes;
    assert Head(i - p) != 0;
  }

  lemma FixedZero(v: Variant, i: int)
    requires !v.high && (i == 247 || i == 255 || i == 263 || 264 <= i < 276)
    ensures HeaderInFile(Small(v), v.H()) && FixedByte(Small(v), SmallInfo(v), Target(v), i) == Some(0)
  {
    hide Small, Sections, SmallInfo, OpenImage, ParseHeader, SectionsOk, NextRva, NextRaw, NewLength, Enc32, Pad8, FirstRaw,
         AlignUp;
    SmallHeaders(v);
    OneOk(Sections(Small(v), v.H()), 472, v.high);
    HighEnc(472);
    NamePadded();
  }

  lemma HighEnc(x: u32)
    requires x < 0x100_0000
    ensures Enc32(x)[3] == 0
  {}

  lemma HighByte(b: bytes, o: nat)
    requires o + 4 <= |b|
    ensures LE32(b, o) < 0x100_0000 ==> b[o + 3] == 0
  {}

  lemma NamePadded()
    ensures Pad8(SECTION_NAME)[7] == 0
  {}

  /** Where to look for a zero that rules out a magic at p: as a rule the highest byte of the word at p. */
  function Witness(p: nat): nat {
    var k := p / 4;
    if k == 17 || k == 32 || k == 34 || k == 36 || k == 39 || k == 60 || k == 62 || k == 64 || k == 69 || k == 97 then 4 * k + 7
    else if k == 38 then 157
    else if k == 48 then 200
    else if k == 49 then 203
    else 4 * k + 3
  }

  lemma WitnessIsZero(v: Variant, p: nat)
    requires !v.high && p < 416 && (v.trap ==> p < 384)
    ensures var i := Witness(p);
            && p <= i <= p + 8 && HeaderInFile(Small(v), v.H()) && Becomes(Small(v), SmallInfo(v), Target(v), i, 0)
  {
    hide Small, SmallInfo, Target, Untouched, FixedByte, SlotBecomes, Padding, OpenImage, ParseHeader, Sections, LE32, Demo;
    var i := Witness(p);
    SmallHeaders(v);
    if Plain(i) {
      PlainIsUntouched(v, i);
      WitnessByte(v, p);
    } else {
      FixedZero(v, i);
    }
  }

  /** The bytes looked at are zero in the image, as high bytes of small words. */
  lemma WitnessByte(v: Variant, p: nat)
    requires !v.high && p < 416 && (v.trap ==> p < 384) && Plain(Witness(p))
    ensures Small(v)[Witness(p)] == 0
  {
    hide LE32, Small, BodyWord, HeaderWord, Demo;
    var i := Witness(p);
    var k := i / 4;
    SmallWord(v, k);
    if i == 4 * k + 3 && k != 96 {
      DemoWords(v, k);
      HighByte(Small(v), 4 * k);
    } else if k == 39 {
      SecondByte(v);
    } else {
      ZeroWords(v, k);
      ZeroBytes(Small(v), 4 * k);
    }
  }

  lemma SecondByte(v: Variant)
    ensures Small(v)[157] == 0
  {
    hide LE16, Small;
    SmallVersions(v);
    ZeroPair(Small(v), 156);
  }

  lemma ZeroWords(v: Variant, k: nat)
    requires k == 50 || (k == 96 && !v.trap)
    ensures Demo(v, k) == 0
  {}

  lemma SmallQuiet(v: Variant, p: nat)
    requires !v.high && p < 416 && (v.trap ==> p < 384)
    ensures HeaderInFile(Small(v), v.H()) && Quiet(Small(v), SmallInfo(v), Target(v), p)
  {
    hide Small, SmallInfo, Target, Becomes, OpenImage, ParseHeader, Sections, LE32;
    SmallHeaders(v);
    WitnessIsZero(v, p);
    QuietByZero(Small(v), SmallInfo(v), Target(v), p, Witness(p));
  }

  // ---------------------------------------------------------------- the table stays

  /** A name of one character that no patch touches. */
  lemma PlainName(v: Variant, va: u32, x: u8)
    requires !v.high && 320 <= va <= 470
    requires CStrAt(SmallView(v), va) == Some([x]) && Plain(va) && Plain(va + 1)
    ensures HeaderInFile(Small(v), v.H()) && SteadyName(Small(v), SmallInfo(v), Target(v), va)
  {
    hide Small, SmallInfo, Target, Steady, OpenImage, ParseHeader, Sections, OffIn, StrAt;
    SmallHeaders(v);
    OneMaps(Sections(Small(v), v.H()), 472, v.high, va);
    PlainRange(v, va, va + 2);
  }

  lemma SmallSteadyTable(v: Variant)
    requires !v.high
    ensures HeaderInFile(Small(v), v.H())
    ensures SteadyTable(Small(v), SmallInfo(v), Target(v), 416, 1)
  {
    hide Small, SmallInfo, Target, Steady, SteadyName, OpenImage, ParseHeader, LE32, BodyWord, CStrAt;
    SmallHeaders(v);
    TableWords(v);
    BodyIs(v, 108);
    BodyIs(v, 109);
    SmallNames(v);
    PlainName(v, 448, 0x61);
    if v.name != 0 { PlainName(v, 454, v.name); }
    PlainRange(v, 416, 448);
  }

  lemma SmallTableUntouched(v: Variant)
    requires !v.high
    ensures HeaderInFile(Small(v), v.H()) && UntouchedTable(Small(v), SmallInfo(v), Target(v), 416)
  {
    hide Small, SmallInfo, Target, SteadyTable, LowestValid, OpenImage, ParseHeader, Sections;
    SmallHeaders(v);
    TableIsLowest(v);
    SmallSteadyTable(v);
  }

  /** Without the trap the image meets the hypotheses of the theorems about verifying and patching again. */
  lemma SmallIsUndisturbed(v: Variant)
    requires !v.high && !v.trap
    ensures HeaderInFile(Small(v), v.H()) && Undisturbed(Small(v), SmallInfo(v), Target(v))
  {
    hide Small, SmallInfo, Target, UntouchedTable, Quiet, Barren, OpenImage, ParseHeader, Sections;
    SmallHeaders(v);
    SmallTableUntouched(v);
    forall p: nat | p < 416 ensures Harmless(Small(v), SmallInfo(v), Target(v), p) {
      SmallQuiet(v, p);
    }
  }

  /** It has room for two patches, in the file, in memory and in the headers. */
  lemma SmallIsTwiceReady(v: Variant)
    requires !v.high && !v.trap
    ensures TwiceReady(Small(v), Target(v)) && HeaderInFile(Small(v), v.H()) && HeadersForTwo(Small(v), v.H())
  {
    hide Small, Sections, SmallInfo, OpenImage, Patchable, Acceptable, Target, Undisturbed, ParseHeader, FirstRaw,
         RoomForTwo;
    SmallHeaders(v);
    SmallIsPatchable(v);
    SmallIsUndisturbed(v);
    SmallRoom(v);
    SmallRoomForTwo(v);
  }

  lemma SmallIsLow(v: Variant)
    requires !v.high
    ensures HeaderInFile(Small(v), v.H()) && NamesBelow(Small(v), SmallInfo(v), Target(v))
  {
    hide Small, Sections, SmallInfo, OpenImage, Target, ParseHeader, SectionSize, NextRva, NextRaw, FirstRaw, SectionsOk,
         Kept, BadSlots, NamesLow;
    SmallHeaders(v);
    SmallSize(v);
    OneOk(Sections(Small(v), v.H()), 472, v.high);
    LowWhenAllIs(Kept(SmallInfo(v).imports, BadOf(SmallInfo(v), Target(v))), 472);
  }

  lemma SmallRoomForTwo(v: Variant)
    requires !v.high
    ensures HeaderInFile(Small(v), v.H()) && RoomForTwo(Small(v), SmallInfo(v), Target(v))
  {
    hide Small, Sections, SmallInfo, OpenImage, Target, ParseHeader, SectionSize, NextRva, NextRaw, AlignUp, FirstRaw,
         SectionsOk, NamesBelow, NamesLow, Kept, BadSlots;
    SmallHeaders(v);
    SmallSize(v);
    SmallIsLow(v);
    OneOk(Sections(Small(v), v.H()), 472, v.high);
    ByteAligned(NewLength(SmallInfo(v), Target(v)));
    ByteAligned(472 + NewLength(SmallInfo(v), Target(v)));
    LowWhenAllIs(Kept(SmallInfo(v).imports, BadOf(SmallInfo(v), Target(v))), 472 + NewLength(SmallInfo(v), Target(v)));
  }

  // ---------------------------------------------------------------- a DLL that is dropped and still imported

  /** The DLL is reported as dropped, since its first descriptor loses all, and the second still imports from it. */
  lemma DroppedMayStillBeImported(v: Variant)
    requires v.Redirects()
    ensures [0x61] in DroppedDlls(SmallInfo(v).imports, BadOf(SmallInfo(v), Target(v)), DescsOf(SmallInfo(v).imports))
    ensures Remaining(SmallInfo(v), Target(v)) == [Second(v).(desc := 0)] && Second(v).dll == [0x61]
  {
    hide Small, SmallInfo, BadSlots, Kept, Target, PlanOf, DroppedDlls, DescsOf, OpenImage, Ordered, First, Second, BadSlot,
         ParseHeader, ReadImports;
    SmallBad(v);
    OpenFacts(Small(v), SmallInfo(v));
    FirstIsDropped(v);
    SecondAlone(Second(v));
  }

  lemma FirstIsDropped(v: Variant)
    requires v.Redirects() && Ordered([First(v), Second(v)])
    ensures [0x61] in DroppedDlls([First(v), Second(v)], BadSlot(v), DescsOf([First(v), Second(v)])) && Second(v).dll == [0x61]
  {
    hide DroppedDlls, DescsOf, Ordered;
    DroppedMeans([First(v), Second(v)], BadSlot(v), [0x61]);
    assert First(v) in [First(v), Second(v)] && LosesAll([First(v), Second(v)], BadSlot(v), First(v).desc);
  }

  lemma SecondAlone(y: Import)
    ensures Renumbered([y]) == [y.(desc := 0)]
  {}

  // ---------------------------------------------------------------- the table does not stay

  /** In a patched image the slot holds the second half of the magic. */
  lemma SlotFilled(v: Variant, out: bytes, sec: bytes, ps: seq<Piece>, w: u32, j: nat)
    requires v.Redirects() && PatchedForm(v, out, sec, ps) && j < 4 && w == PTBL
    ensures 388 + j < |out| && out[388 + j] == Enc32(w)[j]
  {
    hide PatchSuccess, NamesBelow, Small, SmallInfo, Target, LastRedirect, OpenImage, ParseHeader, Sections, OffIn, Enc32,
         PlanOf, Decide, BadSlots;
    SmallHeaders(v);
    SmallPlan(v);
    FirstIsLast(PlanOf(SmallInfo(v), Target(v)), First(v), Second(v), w, 388 + j);
    OneMaps(Sections(Small(v), v.H()), 472, v.high, 388 + j);
    assert SlotBecomes(Small(v), SmallInfo(v), Target(v), 388 + j, Enc32(w)[j]) by {
      assert SlotByte(w, First(v).slot, 388 + j) == Some(Enc32(w)[j]);
    }
    SlotRight(Small(v), out, SmallInfo(v), Target(v), sec, ps, 388 + j, Enc32(w)[j]);
  }

  lemma FirstIsLast(p: Plan, x: Import, y: Import, va: u32, rva: int)
    requires Decide(p, x) == Redirect(va) && Decide(p, y) == Leave && InWord(x.slot, rva)
    ensures LastRedirect(p, [x, y], x, va, rva)
  {
    hide Decide;
    assert LastOver(p, [x, y], 0, rva) && [x, y][0] == x;
  }

  /** An untouched word of the image is the same in a patched one. */
  lemma PlainWord(v: Variant, out: bytes, sec: bytes, ps: seq<Piece>, k: nat)
    requires !v.high && 80 <= k < 118 && k != 97 && PatchedForm(v, out, sec, ps)
    ensures 472 <= |out| && LE32(out, 4 * k) == BodyWord(v, k)
    ensures forall j | 0 <= j < 4 :: out[4 * k + j] == Enc32(BodyWord(v, k))[j]
  {
    hide PatchSuccess, NamesBelow, Small, SmallInfo, Target, OpenImage, ParseHeader, LE32, Enc32, BodyWord, Steady;
    SmallHeaders(v);
    BodyIs(v, k);
    PlainRange(v, 4 * k, 4 * k + 4);
    SteadyKept(Small(v), out, SmallInfo(v), Target(v), sec, ps, 4 * k, 4 * k + 4);
    SameWord(Small(v), out, 4 * k);
  }

  lemma FalseWords(v: Variant)
    ensures BodyWord(v, 96) == v.Before() && BodyWord(v, 98) == 1 && BodyWord(v, 99) == 1
    ensures BodyWord(v, 100) == 448 && BodyWord(v, 101) == 448 && BodyWord(v, 102) == 7 && BodyWord(v, 103) == 0
  {}

  /** A polyfill for another function of a, and no own slot. */
  const FALSE_RECORD: TableEntry := TableEntry([0x61], [0x61], 7, 0)

  lemma FalseTable(v: Variant, out: bytes, sec: bytes, ps: seq<Piece>)
    requires v.trap && v.Redirects() && PatchedForm(v, out, sec, ps) && HeaderInFile(out, Grown(v.H()))
    ensures ValidAt(ViewOf(out, Grown(v.H())), 0, 384) == Some([FALSE_RECORD])
  {
    hide PatchSuccess, NamesBelow, PatchedForm, Small, SmallInfo, Target, OpenImage, ParseHeader, LE32, Enc32, BodyWord,
         Sections, NameAtVa, MagicAt, CStrAt, SteadyName;
    FalseWords(v);
    PlainWord(v, out, sec, ps, 96);
    PlainWord(v, out, sec, ps, 98);
    PlainWord(v, out, sec, ps, 99);
    PlainWord(v, out, sec, ps, 100);
    PlainWord(v, out, sec, ps, 101);
    PlainWord(v, out, sec, ps, 102);
    PlainWord(v, out, sec, ps, 103);
    var w := PTBL;
    forall j | 0 <= j < 4 ensures out[384 + 4 + j] == Enc32(w)[j] {
      SlotFilled(v, out, sec, ps, w, j);
    }
    MagicInWords(out, 384, BodyWord(v, 96), w);
    FalseName(v, out, sec, ps);
    OneRecordTable(ViewOf(out, Grown(v.H())), 0, 384, [0x61], [0x61]);
  }

  lemma FalseName(v: Variant, out: bytes, sec: bytes, ps: seq<Piece>)
    requires !v.high && PatchedForm(v, out, sec, ps) && HeaderInFile(out, Grown(v.H()))
    ensures NameAtVa(ViewOf(out, Grown(v.H())), 0, 448) == Some([0x61])
  {
    hide PatchSuccess, NamesBelow, Small, SmallInfo, Target, OpenImage, ParseHeader, Sections, CStrAt, SteadyName;
    SmallHeaders(v);
    SmallNames(v);
    PlainName(v, 448, 0x61);
    NameKept(Small(v), out, SmallInfo(v), Target(v), sec, ps, 448);
  }

  /** Every patched form of the trap is read with the false table. */
  lemma FalseTableIsRead(v: Variant, out: bytes, sec: bytes, ps: seq<Piece>)
    requires v.trap && v.Redirects() && PatchedForm(v, out, sec, ps)
    ensures HeaderInFile(out, Grown(v.H())) && ReadShimTable(out, Grown(v.H())) == Found([FALSE_RECORD])
  {
    hide PatchSuccess, NamesBelow, Small, SmallInfo, Target, OpenImage, ParseHeader, Sections, ValidAt, ScanFrom, Quiet,
         Candidate, FieldsSet;
    FieldsRead(Small(v), out, SmallInfo(v), Target(v), sec, ps);
    FalseTable(v, out, sec, ps);
    var w := ViewOf(out, Grown(v.H()));
    forall p | 0 <= p < 384 ensures ValidAt(w, 0, p) == None {
      SmallQuiet(v, p);
      QuietStays(Small(v), out, SmallInfo(v), Target(v), sec, ps, p);
      NoTable(w, 0, p);
    }
    LowestIsFound(w, 0, 0, 384, [FALSE_RECORD]);
  }

  lemma FalseTableOpens(v: Variant, out: bytes, sec: bytes, ps: seq<Piece>)
    requires v.trap && v.Redirects() && PatchedForm(v, out, sec, ps)
    ensures OpenImage(out).Some? && OpenImage(out).value.table == [FALSE_RECORD]
    ensures OpenImage(out).value.imports == Remaining(SmallInfo(v), Target(v)) && OpenImage(out).value.h == Grown(v.H())
  {
    hide PatchSuccess, NamesBelow, Small, SmallInfo, Target, ReadImports, ParseHeader, Sections, ScanFrom, FieldsSet,
         Remaining, LE16;
    FalseTableIsRead(v, out, sec, ps);
    ImportsReadBack(Small(v), out, SmallInfo(v), Target(v), sec, ps);
    FieldsRead(Small(v), out, SmallInfo(v), Target(v), sec, ps);
  }

  /** With the false table the second slot is no longer the shim's own, and its import is missing. */
  lemma SecondIsNotLeft(v: Variant, p: Plan)
    requires v.Redirects() && !v.overlap && p.prof == Target(v)
    requires p.poly == PolyMap([FALSE_RECORD]) && p.own == OwnSlots([FALSE_RECORD])
    ensures Decide(p, Second(v).(desc := 0)) == if v.named then Redirect(7) else Refuse
  {
    hide PolyMap, OwnSlots, IsMissing;
    MapsOfOne(FALSE_RECORD);
    WholeIsMissing(v, Second(v).name);
    assert |Key([0x61], [])| == 2 && |Key([0x61], [0x61])| == 3;
  }

  lemma WholeIsMissing(v: Variant, fn: bytes)
    requires v.Redirects() && !v.overlap
    ensures IsMissing(Target(v), [0x61], fn)
  {
    assert [0x61] in Target(v).missingWhole;
    assert SameFolded([0x61], [0x61]);
  }

  /**
   * In the variants with the trap no patch writes into the table, but the polyfill's address completes a magic in front
   * of it. Whatever the patched image, it opens with the false table, and Verify finds a problem. A second patch is
   * refused, or redirects the shim's own slot when the false table has a polyfill for its import.
   */
  lemma PatchCanDisturbTheTable(v: Variant, out: bytes, sec: bytes, ps: seq<Piece>)
    requires v.trap && v.Redirects() && !v.overlap && PatchedForm(v, out, sec, ps)
    ensures HeaderInFile(Small(v), v.H()) && TableUntouched(Small(v), SmallInfo(v), Target(v))
    ensures !Undisturbed(Small(v), SmallInfo(v), Target(v))
    ensures OpenImage(out).Some? && OpenImage(out).value.table != SmallInfo(v).table
    ensures Problems(OpenImage(out).value, Target(v)) != []
    ensures !v.named ==> !Acceptable(out, Target(v))
    ensures v.named ==> BadOf(OpenImage(out).value, Target(v)) != {}
                        && Remaining(OpenImage(out).value, Target(v)) != OpenImage(out).value.imports
  {
    hide PatchSuccess, NamesBelow, Small, SmallInfo, Target, OpenImage, Sections, Remaining, Problems, Decide, PolyMap,
         OwnSlots, FirstRaw, FileOffIn, HeaderInFile, UntouchedTable, Harmless, BadSlots, Second;
    SmallTableUntouched(v);
    FalseTableOpens(v, out, sec, ps);
    DroppedMayStillBeImported(v);
    var again := OpenImage(out).value;
    SecondIsNotLeft(v, PlanOf(again, Target(v)));
    VerifiesIff(Small(v), out, SmallInfo(v), Target(v), sec, ps, again);
    UnchangedIff(Small(v), out, SmallInfo(v), Target(v), sec, ps, again);
    assert Remaining(SmallInfo(v), Target(v))[0] == Second(v).(desc := 0);
    if Undisturbed(Small(v), SmallInfo(v), Target(v)) {
      PatchPassesVerify(Small(v), out, SmallInfo(v), Target(v), sec, ps);
    }
  }

  // ---------------------------------------------------------------- an import by the empty name

  /** The variant without a name. */
  const NAMELESS: Variant := Variant(false, 0, false, false, false)

  lemma LastBindings(w: View, dll: bytes, lookup: u32, slot: u32, n: nat)
    requires U32At(w, lookup) == Some(0)
    ensures BindThunks(w, dll, lookup, slot, n) == Done([])
  {}

  lemma NoMoreBindings(w: View, d: u32, n: nat)
    requires U32At(w, d) == Some(0) && NameRva(w, d) == 0 && FirstThunk(w, d) == 0
    ensures BindAll(w, d, n) == Done([])
  {}

  lemma OneBound(w: View, dll: bytes, lookup: u32, x: u32, b: Binding, n: nat)
    requires n > 0 && lookup < W32 - 4 && b.slot < W32 - 4 && x != 0
    requires U32At(w, lookup) == Some(x) && U32At(w, lookup + 4) == Some(0)
    requires SymbolOf(w, x).Some? && b.req == Request(dll, SymbolOf(w, x).value)
    ensures BindThunks(w, dll, lookup, b.slot, n) == Done([b])
  {
    hide U32At, SymbolOf;
    LastBindings(w, dll, lookup + 4, b.slot + 4, n - 1);
    assert [b] + [] == [b];
  }

  lemma OneBinding(w: View, d: u32, x: u32, b: Binding, rest: seq<Binding>, n: nat)
    requires n > 0 && d < W32 - 20 && x != 0 && b.slot < W32 - 4
    requires U32At(w, d).Some? && 0 < U32At(w, d).value < W32 - 4
    requires CStrAt(w, NameRva(w, d)) == Some(b.req.dll) && FirstThunk(w, d) == b.slot
    requires U32At(w, U32At(w, d).value) == Some(x) && U32At(w, U32At(w, d).value + 4) == Some(0)
    requires SymbolOf(w, x) == Some(b.req.sym) && BindAll(w, d + 20, n - 1) == Done(rest)
    ensures BindAll(w, d, n) == Done([b] + rest)
  {
    hide U32At, CStrAt, NameRva, FirstThunk, SymbolOf, BindThunks;
    OneBound(w, b.req.dll, U32At(w, d).value, x, b, ROUND - 1);
  }

  function FirstBinding(sym: Symbol): Binding { Binding(388, Request([0x61], sym)) }
  function SecondBinding(): Binding { Binding(392, Request([0x61], ByOrdinal(1))) }

  lemma SmallBindings()
    ensures BindingsAt(SmallView(NAMELESS), 320) == Done([FirstBinding(ByName([])), SecondBinding()])
  {
    hide U32At, NameRva, FirstThunk, CStrAt, SmallView, BindAll;
    SmallDirectory(NAMELESS);
    var w := SmallView(NAMELESS);
    NoMoreBindings(w, 360, ROUND - 3);
    OneBinding(w, 340, 0x8000_0001, SecondBinding(), [], ROUND - 2);
    OneBinding(w, 320, 452, FirstBinding(ByName([])), [SecondBinding()] + [], ROUND - 1);
    assert [FirstBinding(ByName([]))] + ([SecondBinding()] + []) == [FirstBinding(ByName([])), SecondBinding()];
  }

  /**
   * An import by the empty name in a file: the reader shows it like one by ordinal zero, the loader asks for the empty
   * name, and of every patched image it asks for ordinal zero instead, so that its slot is not loaded alike.
   */
  lemma EmptyNameBecomesOrdinalZero(out: bytes, sec: bytes, ps: seq<Piece>)
    requires PatchedForm(NAMELESS, out, sec, ps)
    ensures SmallInfo(NAMELESS).imports[0] == Import([0x61], [], 0, 388, 0)
    ensures HeaderInFile(Small(NAMELESS), NAMELESS.H()) && HeaderInFile(out, Grown(NAMELESS.H()))
    ensures Bindings(Small(NAMELESS), NAMELESS.H()) == Done([FirstBinding(ByName([])), SecondBinding()])
    ensures Bindings(out, Grown(NAMELESS.H())) == Done([FirstBinding(ByOrdinal(0)), SecondBinding()])
    ensures !LoadAlike(Small(NAMELESS), NAMELESS.H(), out, Grown(NAMELESS.H()), 388)
  {
    hide PatchSuccess, NamesBelow, Small, SmallInfo, Target, OpenImage, ParseHeader, Sections, BindAll, BadSlots, LE32,
         PlanOf, Kept, LoadAlike, SectionsOk, NextRva, NextRaw, FirstRaw, Untouched;
    SmallHeaders(NAMELESS);
    SmallBindings();
    SmallBad(NAMELESS);
    PatchedBindings(Small(NAMELESS), out, SmallInfo(NAMELESS), Target(NAMELESS), sec, ps);
    assert CanonicalAll([First(NAMELESS), Second(NAMELESS)]) == [FirstBinding(ByOrdinal(0)), SecondBinding()];
    OneOk(Sections(Small(NAMELESS), NAMELESS.H()), 472, false);
    LastOfTwo(FirstBinding(ByName([])), SecondBinding());
    assert Covers(Sections(Small(NAMELESS), NAMELESS.H())[0], 388);
    LoadingPreserved(Small(NAMELESS), out, SmallInfo(NAMELESS), Target(NAMELESS), sec, ps, 388);
  }

  lemma LastOfTwo(x: Binding, y: Binding)
    requires x.slot == 388 && y.slot == 392
    ensures LastBinding([x, y], 388) == Some(x)
  {
    assert [x, y][..1] == [x];
  }

  // ---------------------------------------------------------------- overlapping slots

  /**
   * With overlapping slots the loader stores the answer for the second import into the redirected slot: of no patched
   * image is the polyfill's address there under every resolver.
   */
  lemma OverlapOverwritesPolyfill(v: Variant, out: bytes, sec: bytes, ps: seq<Piece>)
    requires v.overlap && v.Redirects() && PatchedForm(v, out, sec, ps)
    ensures LastRedirect(PlanOf(SmallInfo(v), Target(v)), SmallInfo(v).imports, First(v), PTBL, 390)
    ensures !AlwaysLoads(out, Grown(v.H()), 390, SlotByte(PTBL, First(v).slot, 390))
  {
    hide PatchSuccess, NamesBelow, Small, SmallInfo, Target, OpenImage, PlanOf, Decide, BadSlots, Kept, LastRedirect,
         AlwaysLoads, Enc32;
    SmallPlan(v);
    SmallBad(v);
    FirstIsLast(PlanOf(SmallInfo(v), Target(v)), First(v), Second(v), PTBL, 390);
    RedirectedSlotLoadedIff(Small(v), out, SmallInfo(v), Target(v), sec, ps, First(v), PTBL, 390);
    assert Second(v) in [Second(v)] && InWord(Second(v).slot, 390);
  }

  // ---------------------------------------------------------------- names above 2^31

  /** The variant with a section at 2^31. */
  function High(c: u8): Variant { Variant(false, c, false, true, false) }

  /** Behind a section at 2^31 the survivors do not read back: the first one's name has become an ordinal. */
  lemma HighNamesAreLost(c: u8, out: bytes, sec: bytes, ps: seq<Piece>)
    requires c != 0 && PatchSuccess(Small(High(c)), out, SmallInfo(High(c)), Target(High(c)), sec, ps)
    ensures Remaining(SmallInfo(High(c)), Target(High(c))) == [First(High(c)), Second(High(c))]
    ensures HeaderInFile(out, Grown(High(c).H()))
    ensures ReadImports(out, Grown(High(c).H())) != Done([First(High(c)), Second(High(c))])
  {
    hide PatchSuccess, Small, SmallInfo, Target, OpenImage, ParseHeader, Sections, ReadImports, PlanOf, BadSlots, Kept,
         NameAt, SectionsOk, NextRva, NextRaw, FirstRaw;
    var v := High(c);
    SmallHeaders(v);
    SmallBad(v);
    OneOk(Sections(Small(v), v.H()), 472, true);
    ReadBackIff(Small(v), out, SmallInfo(v), Target(v), sec, ps);
    TwoRuns(v);
    assert [First(v), Second(v)][0].name == [c];
  }

  lemma TwoRuns(v: Variant)
    ensures Renumbered([First(v), Second(v)]) == [First(v), Second(v)]
  {
    var s := [First(v), Second(v)];
    assert RunIndex(s, 0) == 0 && RunIndex(s, 1) == 1;
  }

  // ---------------------------------------------------------------- running Patch

  lemma FormOfPatch(v: Variant, res: Outcome, sec: bytes, ps: seq<Piece>)
    requires !v.high && HeaderInFile(Small(v), v.H()) && Result(Small(v), res, SmallInfo(v), Target(v), sec, ps)
    ensures res.Patched? && PatchedForm(v, res.out, sec, ps)
  {
    hide Patchable, Acceptable, OpenImage, Result, Small, SmallInfo, Target, PatchOf, NamesBelow;
    SmallIsPatchable(v);
    SmallIsLow(v);
    PatchedIsPatchOf(Small(v), res, Target(v), sec, ps);
  }

  /** Patches a variant. */
  method PatchVariant(v: Variant) returns (res: Outcome, ghost sec: bytes, ghost ps: seq<Piece>)
    requires !v.high
    ensures res.Patched? && PatchedForm(v, res.out, sec, ps)
    ensures res.dropped == DroppedDlls(SmallInfo(v).imports, BadOf(SmallInfo(v), Target(v)), DescsOf(SmallInfo(v).imports))
  {
    hide Patchable, Acceptable, OpenImage, Rewritten, Small, SmallInfo, Target, PatchedForm, Sections, DroppedDlls, DescsOf;
    SmallHeaders(v);
    SmallIsPatchable(v);
    res, sec, ps := Patch(Small(v), Target(v));
    FormOfPatch(v, res, sec, ps);
  }

  /**
   * Without the trap: the patched image passes Verify and can be patched again without changing an import. Its DLL is
   * reported as dropped and still imported from.
   */
  method PatchPlain(c: u8) returns (first: Outcome, second: Outcome)
    requires c != 0
    ensures first.Patched? && second.Patched?
    ensures OpenImage(first.out).Some? && Problems(OpenImage(first.out).value, Target(Unharmed(c))) == []
    ensures [0x61] in first.dropped && OpenImage(first.out).value.imports == [Import([0x61], [], 1, 392, 0)]
    ensures NothingNew(second, SmallInfo(Unharmed(c)), Target(Unharmed(c)))
  {
    hide OpenImage, Small, SmallInfo, Target, PatchOf, Undisturbed, Sections, Problems, NothingNew, TwiceReady, Remaining,
         DroppedDlls, DescsOf, HeadersForTwo, BadSlots, PlanOf;
    var v := Unharmed(c);
    SmallHeaders(v);
    ghost var sec, ps;
    first, sec, ps := PatchVariant(v);
    SmallIsUndisturbed(v);
    OpensWithTable(Small(v), first.out, SmallInfo(v), Target(v), sec, ps);
    PatchPassesVerify(Small(v), first.out, SmallInfo(v), Target(v), sec, ps);
    DroppedMayStillBeImported(v);
    SmallIsTwiceReady(v);
    var same;
    same, second := PatchTwice(Small(v), Target(v));
  }

  /**
   * The other variants: two read with a false table, one that makes the loader ask for something else, one whose polyfill
   * address is overwritten.
   */
  method PatchOthers(c: u8) returns (trap: Outcome, named: Outcome, nameless: Outcome, overlap: Outcome)
    requires c != 0
    ensures trap.Patched? && OpenImage(trap.out).Some?
    ensures Problems(OpenImage(trap.out).value, Target(Trap(c, false))) != []
    ensures !Acceptable(trap.out, Target(Trap(c, false)))
    ensures named.Patched? && OpenImage(named.out).Some? && BadOf(OpenImage(named.out).value, Target(Trap(c, true))) != {}
    ensures nameless.Patched? && !LoadAlike(Small(NAMELESS), NAMELESS.H(), nameless.out, Grown(NAMELESS.H()), 388)
    ensures overlap.Patched? && !AlwaysLoads(overlap.out, Grown(Overlapping(c).H()), 390, SlotByte(PTBL, 388, 390))
  {
    hide OpenImage, Small, SmallInfo, Target, PatchedForm, Problems, Acceptable, LoadAlike, AlwaysLoads, DroppedDlls,
         DescsOf, BadSlots, PlanOf, Enc32;
    ghost var sec, ps;
    trap, sec, ps := PatchVariant(Trap(c, false));
    PatchCanDisturbTheTable(Trap(c, false), trap.out, sec, ps);
    named, sec, ps := PatchVariant(Trap(c, true));
    PatchCanDisturbTheTable(Trap(c, true), named.out, sec, ps);
    nameless, sec, ps := PatchVariant(NAMELESS);
    EmptyNameBecomesOrdinalZero(nameless.out, sec, ps);
    overlap, sec, ps := PatchVariant(Overlapping(c));
    OverlapOverwritesPolyfill(Overlapping(c), overlap.out, sec, ps);
  }

  /** Patch accepts the image with a section at 2^31, and its result does not import what survived. */
  method PatchHigh(c: u8) returns (res: Outcome)
    requires c != 0
    ensures res.Patched? && res.redirected == [] && HeaderInFile(res.out, Grown(High(c).H()))
    ensures ReadImports(res.out, Grown(High(c).H())) != Done([First(High(c)), Second(High(c))])
  {
    hide Patchable, Acceptable, OpenImage, Rewritten, Small, SmallInfo, Target, PatchSuccess, Sections, DroppedDlls, DescsOf,
         ReadImports, Kept, BadSlots, PlanOf, Decide;
    var v := High(c);
    SmallHeaders(v);
    SmallIsPatchable(v);
    ghost var sec, ps;
    res, sec, ps := Patch(Small(v), Target(v));
    PatchedIsSuccess(Small(v), res, Target(v), sec, ps);
    HighNamesAreLost(c, res.out, sec, ps);
    SmallPlan(v);
    NothingListedTwo(PlanOf(SmallInfo(v), Target(v)), First(v), Second(v));
  }

  lemma NothingListedTwo(p: Plan, x: Import, y: Import)
    requires Decide(p, x) == Leave && Decide(p, y) == Leave
    ensures RedirectList(p, [x, y]) == []
  {
    hide Decide;
    NothingListed(p, [x, y]);
  }
}
