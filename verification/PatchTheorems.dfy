/** The main theorems about patched images. */
module PatchTheorems {
  import opened Bytes
  import opened Align
  import opened Image
  import opened RawImage
  import opened Appending
  import opened ImportReader
  import opened Runs
  import opened Layout
  import opened RoundTrip
  import opened Rebuild
  import opened ShimTable
  import opened Profiles
  import opened Redirecting
  import opened Patcher
  import opened Verifier

  /** out is the outcome of a successful patch of the opened, well-formed image raw. */
  ghost predicate PatchSuccess(raw: bytes, out: bytes, info: Info, prof: Profile, sec: bytes, ps: seq<Piece>) {
    && OpenImage(raw) == Some(info)
    && HeaderInFile(raw, info.h)
    && Sound(raw, info.h)
    && CanRedirect(PlanOf(info, prof), info.imports, Sections(raw, info.h), info.h.sectAlign)
    && Rewritten(raw, out, info, prof, sec, ps)
  }

  /** The names of all survivors lie below 2^31 in the new section, so that their addresses are no ordinals. */
  ghost predicate NamesBelow(raw: bytes, info: Info, prof: Profile)
    requires HeaderInFile(raw, info.h)
  {
    NamesLow(Kept(info.imports, BadOf(info, prof)), NextRva(Sections(raw, info.h), info.h))
  }

  /** The hypothesis of theorems about what a patched image imports; `ReadBackIff` shows that it is needed. */
  ghost predicate PatchOf(raw: bytes, out: bytes, info: Info, prof: Profile, sec: bytes, ps: seq<Piece>) {
    PatchSuccess(raw, out, info, prof, sec, ps) && NamesBelow(raw, info, prof)
  }

  /** Every success of Patch is such an outcome. */
  lemma PatchedIsSuccess(raw: bytes, res: Outcome, prof: Profile, sec: bytes, ps: seq<Piece>)
    requires Patchable(raw, prof) && Acceptable(raw, prof)
    requires HeaderInFile(raw, OpenImage(raw).value.h) && Result(raw, res, OpenImage(raw).value, prof, sec, ps)
    ensures res.Patched? && PatchSuccess(raw, res.out, OpenImage(raw).value, prof, sec, ps)
  {
    hide OpenImage, Sound, CanRedirect, Rewritten, RedirectsBacked, FirstRaw, NextRva, NewSize, Sections, Fits;
  }

  lemma PatchedIsPatchOf(raw: bytes, res: Outcome, prof: Profile, sec: bytes, ps: seq<Piece>)
    requires Patchable(raw, prof) && Acceptable(raw, prof)
    requires HeaderInFile(raw, OpenImage(raw).value.h) && Result(raw, res, OpenImage(raw).value, prof, sec, ps)
    requires NamesBelow(raw, OpenImage(raw).value, prof)
    ensures res.Patched? && PatchOf(raw, res.out, OpenImage(raw).value, prof, sec, ps)
  {
    hide OpenImage, Patchable, Acceptable, Result, NamesBelow, PatchSuccess;
    PatchedIsSuccess(raw, res, prof, sec, ps);
  }

  // ---------------------------------------------------------------- round trip

  /** The survivors, numbered by run: what a patched image imports. */
  function Remaining(info: Info, prof: Profile): seq<Import> { Renumbered(Kept(info.imports, BadOf(info, prof))) }

  lemma DirectoryLoaded(raw: bytes, out: bytes, info: Info, prof: Profile, sec: bytes, ps: seq<Piece>)
    requires PatchSuccess(raw, out, info, prof, sec, ps)
    ensures HeaderInFile(raw, info.h) && ParseHeader(out) == Some(Grown(info.h)) && HeaderInFile(out, Grown(info.h))
    ensures Loaded(ViewOf(out, Grown(info.h)), NextRva(Sections(raw, info.h), info.h), NextRaw(Sections(raw, info.h), info.h),
                   sec, ps)
    ensures RunSplit(Kept(info.imports, BadOf(info, prof)), ps)
    ensures DataDirRva(out, Grown(info.h), 1) == NextRva(Sections(raw, info.h), info.h) != 0
  {
    hide OpenImage, ParseHeader, CanRedirect, BadSlots, Placed, FieldsSet, ByteFrame, AllBacked, Holds, NextRva, NextRaw,
         FirstRaw, NewSizeOfImage, CleanNames, Describes, Kept, AlignUp, SectionsOk, DataDirRva, LE32, LE16, Flat, Apart,
         IsRun;
    NextIsBehind(Sections(raw, info.h), info.h, |raw|);
  }

  /**
   * Reading the patched image yields as many imports as survive, and exactly the survivors, in order, each numbered by
   * its run, if and only if all their names lie below 2^31 in the new section.
   */
  lemma ReadBackIff(raw: bytes, out: bytes, info: Info, prof: Profile, sec: bytes, ps: seq<Piece>)
    requires PatchSuccess(raw, out, info, prof, sec, ps)
    ensures HeaderInFile(raw, info.h) && HeaderInFile(out, Grown(info.h))
    ensures ReadAs(ReadImports(out, Grown(info.h)), Remaining(info, prof), NamesBelow(raw, info, prof))
  {
    hide PatchSuccess, Loaded, RunSplit, Descriptors, DataDirRva, Kept, BadSlots, Sections, NextRva, NextRaw, NamesLow,
         AllLow, ReadAs;
    DirectoryLoaded(raw, out, info, prof, sec, ps);
    var base := NextRva(Sections(raw, info.h), info.h);
    ReadBack(ViewOf(out, Grown(info.h)), base, NextRaw(Sections(raw, info.h), info.h), sec,
             Kept(info.imports, BadOf(info, prof)), ps);
    LowNames(Kept(info.imports, BadOf(info, prof)), ps, base);
  }

  lemma LowNames(s: seq<Import>, ps: seq<Piece>, base: u32)
    requires RunSplit(s, ps)
    ensures AllLow(ps, base, s) <==> NamesLow(s, base)
  {
    hide RunSplit, NameOffset, NameAt;
    SizeOfSplit(s, ps);
  }

  /** Reading the patched image yields exactly the surviving imports, in order, each numbered by its run. */
  lemma ImportsReadBack(raw: bytes, out: bytes, info: Info, prof: Profile, sec: bytes, ps: seq<Piece>)
    requires PatchOf(raw, out, info, prof, sec, ps)
    ensures HeaderInFile(out, Grown(info.h))
    ensures ReadImports(out, Grown(info.h)) == Done(Remaining(info, prof))
  {
    hide PatchSuccess, NamesBelow, ReadImports, Remaining, Kept, BadSlots, Sections, NextRva, NamesLow;
    ReadBackIff(raw, out, info, prof, sec, ps);
  }

  /** Opening a patched image in which the shim table still reads the same. */
  lemma Reopened(raw: bytes, out: bytes, info: Info, prof: Profile, sec: bytes, ps: seq<Piece>, info2: Info)
    requires PatchOf(raw, out, info, prof, sec, ps) && OpenImage(out) == Some(info2)
    ensures info2.h == Grown(info.h) && info2.imports == Remaining(info, prof)
    ensures info2.osMajor == prof.osMajor && info2.osMinor == prof.osMinor
    ensures info2.subsysMajor == prof.subsysMajor && info2.subsysMinor == prof.subsysMinor
    ensures info2.dllChar == AndNot(info.dllChar, 0x60)
    ensures info2.table == info.table ==> PlanOf(info2, prof) == PlanOf(info, prof)
  {
    hide PatchSuccess, NamesBelow, Remaining, ReadImports, ParseHeader, ScanFrom, AndNot, LE16, PolyMap, OwnSlots;
    ImportsReadBack(raw, out, info, prof, sec, ps);
    FieldsRead(raw, out, info, prof, sec, ps);
  }

  lemma FieldsRead(raw: bytes, out: bytes, info: Info, prof: Profile, sec: bytes, ps: seq<Piece>)
    requires PatchSuccess(raw, out, info, prof, sec, ps)
    ensures ParseHeader(out) == Some(Grown(info.h)) && HeaderInFile(out, Grown(info.h))
    ensures FieldsSet(out, info.h, prof, info.dllChar)
  {
    hide ParseHeader, ScanFrom, ReadImports, Directory, Placed, FieldsSet, ByteFrame, AllBacked, Holds, NextRva, NextRaw,
         FirstRaw, NewSizeOfImage, BadSlots, Sections, Sound, CanRedirect, LE16, LE32, AlignUp, DataDirRva;
  }

  /** The header fields of a patched image, at their offsets in the optional header. */
  lemma PatchedFields(raw: bytes, out: bytes, info: Info, prof: Profile, sec: bytes, ps: seq<Piece>)
    requires PatchSuccess(raw, out, info, prof, sec, ps)
    ensures var o := info.h.optOff;
            && o + 72 <= |out|
            && LE16(out, o + 40) == prof.osMajor && LE16(out, o + 42) == prof.osMinor
            && LE16(out, o + 48) == prof.subsysMajor && LE16(out, o + 50) == prof.subsysMinor
            && LE32(out, o + 64) == 0
            && forall k: nat :: Bit(LE16(out, o + 70), k) <==> Bit(info.dllChar, k) && k != 5 && k != 6
  {
    hide PatchSuccess, LE16, LE32, Bit, AndNot, ParseHeader;
    FieldsRead(raw, out, info, prof, sec, ps);
    forall k: nat ensures Bit(AndNot(info.dllChar, 0x60), k) <==> Bit(info.dllChar, k) && k != 5 && k != 6 {
      FlagsCleared(info.dllChar, k);
    }
  }

  // ---------------------------------------------------------------- verification

  /** What remains imported is exactly what the patcher decided to leave alone. */
  lemma RemainingAreLeft(raw: bytes, out: bytes, info: Info, prof: Profile, sec: bytes, ps: seq<Piece>)
    requires PatchSuccess(raw, out, info, prof, sec, ps)
    ensures forall k | 0 <= k < |Remaining(info, prof)| :: Decide(PlanOf(info, prof), Remaining(info, prof)[k]) == Leave
  {
    hide OpenImage, Sound, Rewritten, Decide, BadSlots, RunIndex, Kept, Sections, FileOffIn;
    var p, s := PlanOf(info, prof), info.imports;
    var t := Kept(s, BadOf(info, prof));
    KeptMembers(s, BadOf(info, prof));
    BadSlotsMeans(p, s);
    forall k | 0 <= k < |t| ensures Decide(p, Remaining(info, prof)[k]) == Leave {
      assert t[k] in t;
      var i :| 0 <= i < |s| && s[i] == t[k];
      assert Decide(p, s[i]) != Refuse && !Decide(p, s[i]).Redirect?;
      DecideIgnoresDesc(p, t[k], RunIndex(t, k));
    }
  }

  /**
   * Whatever table a patched image is read with, Verify finds no problem if and only if the patcher, given that table,
   * would leave every remaining import alone.
   */
  lemma VerifiesIff(raw: bytes, out: bytes, info: Info, prof: Profile, sec: bytes, ps: seq<Piece>, info2: Info)
    requires PatchOf(raw, out, info, prof, sec, ps) && OpenImage(out) == Some(info2)
    ensures Problems(info2, prof) == []
            <==> forall k | 0 <= k < |Remaining(info, prof)| :: Decide(PlanOf(info2, prof), Remaining(info, prof)[k]) == Leave
  {
    hide PatchSuccess, NamesBelow, OpenImage, Remaining, AllImportProblems, PlanOf, BitAnd, AndNot, Decide;
    Reopened(raw, out, info, prof, sec, ps, info2);
    AllClean(PlanOf(info2, prof), Remaining(info, prof));
    FlagIsClear(info.dllChar);
  }

  /** Read with the same table, it has no problem. */
  lemma VerifiesWithTable(raw: bytes, out: bytes, info: Info, prof: Profile, sec: bytes, ps: seq<Piece>, info2: Info)
    requires PatchOf(raw, out, info, prof, sec, ps) && OpenImage(out) == Some(info2) && info2.table == info.table
    ensures Problems(info2, prof) == []
  {
    hide PatchSuccess, NamesBelow, OpenImage, Remaining, Problems, PlanOf, Decide;
    Reopened(raw, out, info, prof, sec, ps, info2);
    RemainingAreLeft(raw, out, info, prof, sec, ps);
    VerifiesIff(raw, out, info, prof, sec, ps, info2);
  }

  // ---------------------------------------------------------------- patching twice

  /**
   * Whatever table a patched image is read with, patching it again redirects no slot if and only if the patcher, given
   * that table, would redirect none of the remaining imports, and if and only if no import changes.
   */
  lemma UnchangedIff(raw: bytes, out: bytes, info: Info, prof: Profile, sec: bytes, ps: seq<Piece>, info2: Info)
    requires PatchOf(raw, out, info, prof, sec, ps) && OpenImage(out) == Some(info2)
    ensures BadOf(info2, prof) == {}
            <==> forall k | 0 <= k < |Remaining(info, prof)| :: !Decide(PlanOf(info2, prof), Remaining(info, prof)[k]).Redirect?
    ensures Remaining(info2, prof) == info2.imports <==> BadOf(info2, prof) == {}
  {
    hide PatchSuccess, NamesBelow, OpenImage, PlanOf, Decide, Kept, RunIndex, BadSlots;
    Reopened(raw, out, info, prof, sec, ps, info2);
    var p, s, bad := PlanOf(info2, prof), info2.imports, BadOf(info2, prof);
    RenumberedIdempotent(Kept(info.imports, BadOf(info, prof)));
    KeptAll(s);
    BadSlotsMeans(p, s);
    if bad != {} {
      var x :| x in bad;
      var k :| 0 <= k < |s| && Decide(p, s[k]).Redirect? && s[k].slot == x;
      KeptShorter(s, bad, k);
    }
    forall k | 0 <= k < |s| && Decide(p, s[k]).Redirect? ensures bad != {} {
      assert s[k].slot in bad;
    }
  }

  lemma {:induction false} KeptShorter(s: seq<Import>, bad: set<u32>, k: nat)
    requires k < |s| && s[k].slot in bad
    ensures |Kept(s, bad)| < |s|
  {
    var n := |s| - 1;
    if k < n {
      assert s[..n][k] == s[k];
      KeptShorter(s[..n], bad, k);
    } else {
      KeptNotLonger(s[..n], bad);
    }
  }

  lemma {:induction false} KeptNotLonger(s: seq<Import>, bad: set<u32>)
    ensures |Kept(s, bad)| <= |s|
  {
    if s != [] { KeptNotLonger(s[..|s| - 1], bad); }
  }

  lemma {:induction false} NothingListed(p: Plan, s: seq<Import>)
    requires forall k | 0 <= k < |s| :: Decide(p, s[k]) == Leave
    ensures RedirectList(p, s) == []
  {
    hide Decide;
    if s != [] {
      assert forall k | 0 <= k < |s| - 1 :: s[..|s| - 1][k] == s[k];
      NothingListed(p, s[..|s| - 1]);
    }
  }

  /** A patched image that opens with the same table is a fixed point of the decisions and of the run splitting. */
  lemma StaysWithTable(raw: bytes, out: bytes, info: Info, prof: Profile, sec: bytes, ps: seq<Piece>, info2: Info)
    requires PatchOf(raw, out, info, prof, sec, ps) && OpenImage(out) == Some(info2) && info2.table == info.table
    ensures BadOf(info2, prof) == {} && RedirectList(PlanOf(info2, prof), info2.imports) == []
    ensures Remaining(info2, prof) == info2.imports
    ensures forall k | 0 <= k < |info2.imports| :: RunIndex(info2.imports, k) == info2.imports[k].desc
  {
    hide PatchSuccess, NamesBelow, OpenImage, PlanOf, Decide, Kept, RunIndex, BadSlots, RedirectList;
    Reopened(raw, out, info, prof, sec, ps, info2);
    RemainingAreLeft(raw, out, info, prof, sec, ps);
    UnchangedIff(raw, out, info, prof, sec, ps, info2);
    NothingListed(PlanOf(info, prof), info2.imports);
    var t := Kept(info.imports, BadOf(info, prof));
    forall k | 0 <= k < |info2.imports| ensures RunIndex(info2.imports, k) == info2.imports[k].desc {
      RunIndexStable(t, k);
    }
  }

  /** With the same table a second patch can only fail for want of header room. */
  lemma AgainWithTable(raw: bytes, out: bytes, info: Info, prof: Profile, sec: bytes, ps: seq<Piece>, info2: Info)
    requires PatchOf(raw, out, info, prof, sec, ps) && OpenImage(out) == Some(info2)
    requires info2.table == info.table && info.table != []
    requires HeaderInFile(out, info2.h)
    ensures Acceptable(out, prof) <==> info2.h.LastHdrEnd() + 40 <= FirstRaw(Sections(out, info2.h))
  {
    hide PatchSuccess, NamesBelow, OpenImage, PlanOf, Decide, FileOffIn, FirstRaw, Sections, Remaining;
    Reopened(raw, out, info, prof, sec, ps, info2);
    RemainingAreLeft(raw, out, info, prof, sec, ps);
    LeftCanRedirect(PlanOf(info, prof), info2.imports, Sections(out, info2.h), info2.h.sectAlign);
  }

  lemma LeftCanRedirect(p: Plan, s: seq<Import>, secs: seq<Section>, sa: u32)
    requires forall k | 0 <= k < |s| :: Decide(p, s[k]) == Leave
    ensures CanRedirect(p, s, secs, sa)
  {
    hide Decide, FileOffIn;
  }

  lemma SectionFacts(raw: bytes, out: bytes, info: Info, prof: Profile, sec: bytes, ps: seq<Piece>)
    requires PatchSuccess(raw, out, info, prof, sec, ps)
    ensures HeaderInFile(raw, info.h) && SectionsOk(Sections(raw, info.h), info.h, |raw|) && 20 <= |sec|
  {
    hide OpenImage, ParseHeader, SectionsOk, CanRedirect, Placed, FieldsSet, ByteFrame, AllBacked, Holds, NextRva, NextRaw,
         FirstRaw, NewSizeOfImage, BadSlots, LE16, LE32, AlignUp, DataDirRva, CStr8, Pad8, HeaderAt, Sections, CleanNames,
         DescribesPiece, RunSplit, NewSize, RunCount;
    DirectoryLength(sec, NextRva(Sections(raw, info.h), info.h), ps);
  }

  /** A patched image's SizeOfImage covers all its sections if and only if the new one's rounded end does not wrap around. */
  lemma PatchedSizeCoversIff(raw: bytes, out: bytes, info: Info, prof: Profile, sec: bytes, ps: seq<Piece>)
    requires PatchSuccess(raw, out, info, prof, sec, ps)
    ensures HeaderInFile(raw, info.h) && HeaderInFile(out, Grown(info.h))
    ensures SizeCovers(Sections(out, Grown(info.h)), LE32(out, info.h.optOff + OH_SIZE_OF_IMAGE))
            <==> RoomInMemory(Sections(raw, info.h), info.h, NewLength(info, prof))
  {
    hide PatchSuccess, SectionsOk, AlignUp, NextRva, NextRaw, NewSizeOfImage, LE32, Sections, SizeCovers, RoomInMemory,
         NewLength;
    SectionFacts(raw, out, info, prof, sec, ps);
    SectionLength(raw, out, info, prof, sec, ps);
    SizeFacts(raw, out, info, prof, sec, ps);
    var secs, h := Sections(raw, info.h), info.h;
    CoversIff(secs, h, |raw|, NewSection(secs, h, SECTION_NAME, |sec|, SECTION_CHARS), |sec|);
  }

  /** So it does when the new section lies below 2^31. */
  lemma PatchedSizeCovers(raw: bytes, out: bytes, info: Info, prof: Profile, sec: bytes, ps: seq<Piece>)
    requires PatchSuccess(raw, out, info, prof, sec, ps) && HeaderInFile(raw, info.h)
    requires NextRva(Sections(raw, info.h), info.h) + NewSize(info, prof) <= ORDINAL_FLAG
    ensures HeaderInFile(out, Grown(info.h))
    ensures SizeCovers(Sections(out, Grown(info.h)), LE32(out, info.h.optOff + OH_SIZE_OF_IMAGE))
  {
    hide PatchSuccess, SectionsOk, AlignUp, NextRva, LE32, Sections, SizeCovers, NewSize, RunCount, Kept, BadSlots;
    var secs, h := Sections(raw, info.h), info.h;
    SectionFacts(raw, out, info, prof, sec, ps);
    SectionLength(raw, out, info, prof, sec, ps);
    NextIsBehind(secs, h, |raw|);
    RoomBelow(NextRva(secs, h), |sec|, h.sectAlign);
    PatchedSizeCoversIff(raw, out, info, prof, sec, ps);
  }

  lemma RoomBelow(x: u32, n: u32, a: u32)
    requires PowerOfTwo(a) && a > 0 && 0 < x && x % a == 0 && 20 <= n && x + n <= ORDINAL_FLAG
    ensures n + a <= W32 && x + AlignUp(n, a) + a <= W32
  {
    hide AlignUp, PowerOfTwo;
    DivisorBound(x, a);
    HalfIsMultiple(a);
    AlignUpExact(n, a);
    MultiplesSubtract(ORDINAL_FLAG, x, a);
    LeastMultipleIsLeast(AlignUp(n, a), n, a, ORDINAL_FLAG - x);
  }

  lemma SizeFacts(raw: bytes, out: bytes, info: Info, prof: Profile, sec: bytes, ps: seq<Piece>)
    requires PatchSuccess(raw, out, info, prof, sec, ps)
    ensures HeaderInFile(raw, info.h) && HeaderInFile(out, Grown(info.h)) && |sec| < W32
    ensures Sections(out, Grown(info.h))
            == Sections(raw, info.h) + [NewSection(Sections(raw, info.h), info.h, SECTION_NAME, |sec|, SECTION_CHARS)]
    ensures LE32(out, info.h.optOff + OH_SIZE_OF_IMAGE) == NewSizeOfImage(Sections(raw, info.h), info.h, |sec|)
  {
    hide OpenImage, ParseHeader, SectionsOk, CanRedirect, Directory, Placed, FieldsSet, ByteFrame, AllBacked, Holds, NextRva,
         NextRaw, FirstRaw, NewSizeOfImage, BadSlots, LE16, LE32, AlignUp, DataDirRva, CStr8, Pad8, HeaderAt, Sections,
         NewSize, RunCount;
  }

  lemma SectionLength(raw: bytes, out: bytes, info: Info, prof: Profile, sec: bytes, ps: seq<Piece>)
    requires PatchSuccess(raw, out, info, prof, sec, ps)
    ensures |sec| == NewSize(info, prof) == NewLength(info, prof) < W32
    ensures |ps| == RunCount(Kept(info.imports, BadOf(info, prof)))
  {
    hide OpenImage, Sound, CanRedirect, Directory, Placed, FieldsSet, ByteFrame, AllBacked, Holds, NewSize, RunCount,
         NextRva, NextRaw, FirstRaw, NewSizeOfImage, BadSlots, LE16, LE32, AlignUp, DataDirRva, HeaderAt, Sections, Kept;
  }

  /** The patched image is again well formed, if one more section can be counted and placed in memory and in the file. */
  lemma PatchedIsSound(raw: bytes, out: bytes, info: Info, prof: Profile, sec: bytes, ps: seq<Piece>)
    requires PatchSuccess(raw, out, info, prof, sec, ps) && HeaderInFile(raw, info.h)
    requires RoomForMore(Sections(raw, info.h), info.h, NewLength(info, prof))
    ensures Sound(out, Grown(info.h))
  {
    hide OpenImage, ParseHeader, SectionsOk, CanRedirect, Directory, Placed, FieldsSet, ByteFrame, AllBacked, Holds,
         PowerOfTwo, NextRva, NextRaw, FirstRaw, NewSizeOfImage, BadSlots, LE16, LE32, AlignUp, DataDirRva, CStr8, Pad8,
         HeaderAt, RoomInMemory, NewSize, RunCount, Kept, Sections, NewLength;
    SectionLength(raw, out, info, prof, sec, ps);
    var secs := Sections(raw, info.h);
    SectionsExtended(secs, info.h, |raw|, NewSection(secs, info.h, SECTION_NAME, |sec|, SECTION_CHARS), |out|);
  }
}
