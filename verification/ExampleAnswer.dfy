/** A known answer: what every patched form of one example image holds, byte by byte, in plain numbers. */
module ExampleAnswer {
  import opened Bytes
  import opened Align
  import opened Image
  import opened RawImage
  import opened Appending
  import opened ImportReader
  import opened Runs
  import opened Layout
  import opened Rebuild
  import opened RoundTrip
  import opened Profiles
  import opened Redirecting
  import opened Patcher
  import opened PatchTheorems
  import opened LoadTheorems
  import opened TableTheorems
  import opened Examples
  import opened ExampleImage
  import opened ExamplePatches

  /** The one descriptor of the rebuilt directory. */
  function OnePiece(c: u8): Piece { Piece([0x61], 392, [Second(Unharmed(c))]) }

  lemma SplitOfOne(c: u8)
    ensures RunSplit([Second(Unharmed(c))], [OnePiece(c)])
  {
    var ps := [OnePiece(c)];
    assert Flat(ps, 1) == [];
    assert Flat(ps, 0) == [Second(Unharmed(c))] + [];
    assert IsRun(ps[0]);
  }

  lemma PiecesAre(c: u8, out: bytes, sec: bytes, ps: seq<Piece>)
    requires c != 0 && PatchedForm(Unharmed(c), out, sec, ps)
    ensures ps == [OnePiece(c)]
  {
    hide PatchSuccess, NamesBelow, Small, SmallInfo, Target, OpenImage, Sections, Kept, BadSlots, RunSplit, Loaded, PlanOf,
         Second, ParseHeader, DataDirRva, NextRva, NextRaw;
    var v := Unharmed(c);
    SmallBad(v);
    DirectoryLoaded(Small(v), out, SmallInfo(v), Target(v), sec, ps);
    SplitOfOne(c);
    RunSplitUnique([Second(v)], ps, [OnePiece(c)]);
  }

  lemma SizeIs50(c: u8)
    requires c != 0
    ensures NewSize(SmallInfo(Unharmed(c)), Target(Unharmed(c))) == 50
    ensures NewLength(SmallInfo(Unharmed(c)), Target(Unharmed(c))) == 50
    ensures DirectorySize(SmallInfo(Unharmed(c)), Target(Unharmed(c))) == 40
  {
    hide SmallInfo, Small, OpenImage, Target, BadOf, Kept, SectionSize, RunCount, Second, First, RecordOf;
    KeptIs(c);
    SecondIs(c);
    SizeOfSecond(Second(Unharmed(c)));
  }

  lemma KeptIs(c: u8)
    requires c != 0
    ensures Kept(SmallInfo(Unharmed(c)).imports, BadOf(SmallInfo(Unharmed(c)), Target(Unharmed(c)))) == [Second(Unharmed(c))]
  {
    hide SmallInfo, Target, BadOf, Kept, BadSlot;
    SmallBad(Unharmed(c));
  }

  lemma SecondIs(c: u8)
    ensures Second(Unharmed(c)) == Import([0x61], [], 1, 392, 1)
  {}

  lemma SizeOfSecond(y: Import)
    requires y == Import([0x61], [], 1, 392, 1)
    ensures SectionSize([y]) == 50 && RunCount([y]) == 1
  {
    hide StringArea;
    AreaOfTwo([0x61], [0x61], 0);
    AreaOfTwo([], [], 2);
    assert Dlls([y]) == [[0x61]];
    NoFuncNames([y], []);
    assert [y][..0] == [];
    assert FuncNames([y]) == [] + [];
    assert RunIndex([y], 0) == 0;
  }

  // ---------------------------------------------------------------- the headers

  ghost predicate KnownHeaders(out: bytes) {
    && |out| == 522
    && LE16(out, 70) == 2                                                        // two sections
    && LE16(out, 128) == 5 && LE16(out, 130) == 1                                // OS version
    && LE16(out, 136) == 4 && LE16(out, 138) == 10                               // subsystem version
    && LE32(out, 144) == 522 && LE32(out, 152) == 0 && LE16(out, 158) == 1       // image size, checksum, characteristics
    && LE32(out, 192) == 472 && LE32(out, 196) == 40                             // import directory
    && out[240..248] == [0x2E, 0x67, 0x6F, 0x32, 0x78, 0x70, 0, 0]               // the new section: .go2xp
    && LE32(out, 248) == 50 && LE32(out, 252) == 472 && LE32(out, 256) == 50 && LE32(out, 260) == 472
    && (forall i | 264 <= i < 276 :: out[i] == 0)
    && LE32(out, 276) == 0xC000_0040
  }

  lemma HeadersKnown(c: u8, out: bytes, sec: bytes, ps: seq<Piece>)
    requires c != 0 && PatchedForm(Unharmed(c), out, sec, ps)
    ensures KnownHeaders(out)
  {
    hide PatchSuccess, NamesBelow, Small, SmallInfo, Target, OpenImage, Sections, ParseHeader, NextRva, NextRaw, FirstRaw,
         AlignUp, SectionsOk, Pad8, CStr8, LE16, LE32, AndNot, NewLength, NewSize, DirectorySize;
    var v := Unharmed(c);
    SmallHeaders(v);
    OneOk(Sections(Small(v), v.H()), 472, false);
    SizeIs50(c);
    HeaderFacts(Small(v), out, SmallInfo(v), Target(v), sec, ps);
    FieldFacts(Small(v), out, SmallInfo(v), Target(v), sec, ps);
    LengthIs(c, out, sec, ps);
    ByteAligned(50);
    ByteAligned(522);
    ProfileIs(c);
    FlagsAre();
    NameIs8();
  }

  lemma ProfileIs(c: u8)
    ensures var p := Target(Unharmed(c)); p.osMajor == 5 && p.osMinor == 1 && p.subsysMajor == 4 && p.subsysMinor == 10
  {}

  lemma FlagsAre()
    ensures AndNot(0x61, 0x60) == 1
  {
    hide AndNot;
    AndNotOdd(0x30, 0x30);
    AndNotItself(0x30);
  }

  lemma AndNotOdd(x: nat, m: nat)
    ensures AndNot(2 * x + 1, 2 * m) == 2 * AndNot(x, m) + 1
  {
    assert (2 * x + 1) / 2 == x && 2 * m / 2 == m;
  }

  lemma {:induction false} AndNotItself(x: nat)
    ensures AndNot(x, x) == 0
    decreases x
  {
    if x > 0 { AndNotItself(x / 2); }
  }

  lemma NameIs8()
    ensures Pad8(SECTION_NAME) == [0x2E, 0x67, 0x6F, 0x32, 0x78, 0x70, 0, 0]
  {}

  lemma LengthIs(c: u8, out: bytes, sec: bytes, ps: seq<Piece>)
    requires c != 0 && PatchedForm(Unharmed(c), out, sec, ps)
    ensures |out| == 522 && |sec| == 50
  {
    hide OpenImage, ParseHeader, Sound, CanRedirect, Rebuild.Directory, Placed, FieldsSet, ByteFrame, AllBacked, Holds,
         NamesBelow, Small, SmallInfo, Target, NextRva, NextRaw, FirstRaw, NewSizeOfImage, BadSlots, Kept, LE16, LE32,
         AlignUp, DataDirRva, HeaderAt, Sections, NewSize, RunCount, SectionsOk, NewLength, DirectorySize;
    var v := Unharmed(c);
    SmallHeaders(v);
    OneOk(Sections(Small(v), v.H()), 472, false);
    SizeIs50(c);
    ByteAligned(50);
  }

  // ---------------------------------------------------------------- the rest of the old file

  /** Outside the header fields, the new header and the one slot nothing has changed; the slot holds the polyfill's address. */
  lemma OldFileKnown(c: u8, out: bytes, sec: bytes, ps: seq<Piece>)
    requires c != 0 && PatchedForm(Unharmed(c), out, sec, ps)
    ensures |out| == 522
    ensures forall i | 0 <= i < 472 && Plain(i) :: out[i] == Small(Unharmed(c))[i]
    ensures forall j | 0 <= j < 4 :: out[388 + j] == [0x50, 0x54, 0x42, 0x4C][j]
  {
    hide PatchSuccess, NamesBelow, Small, SmallInfo, Target, OpenImage, Sections, ParseHeader, Untouched, Plain, Enc32;
    var v, w := Unharmed(c), PTBL;
    LengthIs(c, out, sec, ps);
    forall i | 0 <= i < 472 && Plain(i) ensures out[i] == Small(v)[i] {
      PlainIsUntouched(v, i);
      UntouchedKept(Small(v), out, SmallInfo(v), Target(v), sec, ps, i);
    }
    EncBytes(w, 0x50, 0x54, 0x42, 0x4C);
    forall j | 0 <= j < 4 ensures out[388 + j] == [0x50, 0x54, 0x42, 0x4C][j] {
      SlotFilled(v, out, sec, ps, w, j);
    }
  }

  // ---------------------------------------------------------------- the new section

  ghost predicate KnownSection(out: bytes)
    requires |out| == 522
  {
    && LE32(out, 472) == 512 && LE32(out, 476) == 0 && LE32(out, 480) == 0     // the descriptor
    && LE32(out, 484) == 520 && LE32(out, 488) == 392
    && (forall i | 492 <= i < 512 :: out[i] == 0)                              // the empty one
    && LE32(out, 512) == 0x8000_0001 && LE32(out, 516) == 0                    // ordinal 1
    && out[520] == 0x61 && out[521] == 0                                       // the DLL's name
  }

  lemma SectionKnown(c: u8, out: bytes, sec: bytes, ps: seq<Piece>)
    requires c != 0 && PatchedForm(Unharmed(c), out, sec, ps)
    ensures |out| == 522 && KnownSection(out)
  {
    hide LE32, PatchSuccess, NamesBelow, Small, SmallInfo, Target, OpenImage, Sections, ParseHeader, Describes;
    LengthIs(c, out, sec, ps);
    PiecesAre(c, out, sec, ps);
    SectionPlaced(c, out, sec, ps);
    OneDescribed(c, sec);
    WordMoved(out, sec, 0);
    WordMoved(out, sec, 4);
    WordMoved(out, sec, 8);
    WordMoved(out, sec, 12);
    WordMoved(out, sec, 16);
    WordMoved(out, sec, 40);
    WordMoved(out, sec, 44);
    forall i | 492 <= i < 512 ensures out[i] == 0 {
      assert out[472 + (i - 472)] == sec[i - 472] == 0;
    }
    assert out[472 + 48] == sec[48] && out[472 + 49] == sec[49];
  }

  lemma WordMoved(out: bytes, sec: bytes, k: nat)
    requires |sec| == 50 && |out| == 522 && k <= 46 && forall j | 0 <= j < 50 :: out[472 + j] == sec[j]
    ensures LE32(out, 472 + k) == LE32(sec, k)
  {
    assert out[472 + (k + 0)] == sec[k] && out[472 + (k + 1)] == sec[k + 1];
    assert out[472 + (k + 2)] == sec[k + 2] && out[472 + (k + 3)] == sec[k + 3];
  }

  lemma SectionPlaced(c: u8, out: bytes, sec: bytes, ps: seq<Piece>)
    requires c != 0 && PatchedForm(Unharmed(c), out, sec, ps)
    ensures |sec| == 50 && |out| == 522 && forall k | 0 <= k < 50 :: out[472 + k] == sec[k]
    ensures Describes(sec, 472, ps)
  {
    hide PatchSuccess, NamesBelow, Small, SmallInfo, Target, OpenImage, Sections, ParseHeader, Describes, RunSplit,
         SectionsOk, NextRva, NextRaw, FirstRaw, DataDirRva, OffIn, CleanNames, IsRun, Kept, BadSlots;
    var v := Unharmed(c);
    SmallHeaders(v);
    OneOk(Sections(Small(v), v.H()), 472, false);
    LengthIs(c, out, sec, ps);
    DirectoryLoaded(Small(v), out, SmallInfo(v), Target(v), sec, ps);
  }

  lemma OneDescribed(c: u8, sec: bytes)
    requires c != 0 && |sec| == 50 && Describes(sec, 472, [OnePiece(c)])
    ensures LE32(sec, 0) == 512 && LE32(sec, 4) == 0 && LE32(sec, 8) == 0 && LE32(sec, 12) == 520 && LE32(sec, 16) == 392
    ensures forall i | 20 <= i < 40 :: sec[i] == 0
    ensures LE32(sec, 40) == 0x8000_0001 && LE32(sec, 44) == 0 && sec[48] == 0x61 && sec[49] == 0
  {
    hide LE32;
    var ps := [OnePiece(c)];
    OnePlaces(c);
    SecondIs(c);
    assert DescribesPiece(sec, 472, ps, 0);
    assert ps[0].dll == [0x61] && ps[0].ft == 392 && |ps[0].imps| == 1 && ps[0].imps[0] == Second(Unharmed(c));
    assert EntryWord(sec, 472, ps, LE32(sec, 40 + 4 * 0), ps[0].imps[0]);
    assert HasEntry(sec, 0, [0x61], 48);
    OneString(sec, 48, 0x61);
  }

  lemma OneString(b: bytes, o: nat, ch: u8)
    requires HasEntry(b, 0, [ch], o)
    ensures o + 1 < |b| && b[o] == ch && b[o + 1] == 0
  {
    assert b[o + 0 + 0] == [ch][0];
  }

  lemma OnePlaces(c: u8)
    ensures IntStart([OnePiece(c)], 0) == 40 && IntStart([OnePiece(c)], 1) == 48 && DllOffset([OnePiece(c)], [0x61]) == 48
  {
    assert PieceDlls([OnePiece(c)], 0) == [];
    assert PieceDlls([OnePiece(c)], 1) == [] + [[0x61]] == [[0x61]];
    assert [[0x61]][..0] == [];
  }

  /** The whole answer. */
  lemma KnownAnswer(c: u8, out: bytes, sec: bytes, ps: seq<Piece>)
    requires c != 0 && PatchedForm(Unharmed(c), out, sec, ps)
    ensures KnownHeaders(out) && KnownSection(out)
    ensures forall i | 0 <= i < 472 && Plain(i) :: out[i] == Small(Unharmed(c))[i]
    ensures forall j | 0 <= j < 4 :: out[388 + j] == [0x50, 0x54, 0x42, 0x4C][j]
  {
    hide PatchedForm, KnownHeaders, KnownSection, Plain, Small;
    HeadersKnown(c, out, sec, ps);
    OldFileKnown(c, out, sec, ps);
    SectionKnown(c, out, sec, ps);
    LengthKnown(out);
  }

  lemma LengthKnown(out: bytes)
    requires KnownHeaders(out)
    ensures |out| == 522
  {}
}
