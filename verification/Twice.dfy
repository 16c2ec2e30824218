/** Patching a patched image. */
module Twice {
  import opened Bytes
  import opened Align
  import opened Image
  import opened RawImage
  import opened Appending
  import opened ImportReader
  import opened Runs
  import opened Layout
  import opened Rebuild
  import opened Grouping
  import opened Dropped
  import opened Profiles
  import opened Redirecting
  import opened Patcher
  import opened PatchTheorems
  import opened LoadTheorems
  import opened TableTheorems

  /** The new section would fit a second time, behind the first, in memory and in the file, with its names below 2^31. */
  ghost predicate RoomForTwo(raw: bytes, info: Info, prof: Profile)
    requires HeaderInFile(raw, info.h)
  {
    var secs, n := Sections(raw, info.h), NewLength(info, prof);
    && RoomForMore(secs, info.h, n)
    && NewSizeOfImage(secs, info.h, n) + NewSize(info, prof) <= W32 && NewSize(info, prof) + info.h.fileAlign <= W32
    && NamesBelow(raw, info, prof) && NamesLow(Kept(info.imports, BadOf(info, prof)), NewSizeOfImage(secs, info.h, n))
  }

  /** Numbering the survivors by run leaves their directory as it is. */
  lemma SameDirectory(s: seq<Import>, base: u32)
    ensures SectionSize(Renumbered(s)) == SectionSize(s)
    ensures NamesLow(s, base) ==> NamesLow(Renumbered(s), base)
  {
    hide RunIndex, StringArea, AreaBefore, FuncNames;
    assert Dlls(Renumbered(s)) == Dlls(s);
    NamesRenumbered(s, Renumbered(s));
    if s != [] { RunIndexStable(s, |s| - 1); }
  }

  lemma {:induction false} NamesRenumbered(s: seq<Import>, t: seq<Import>)
    requires |s| == |t| && forall k | 0 <= k < |s| :: t[k].name == s[k].name
    ensures FuncNames(t) == FuncNames(s)
  {
    if s != [] { NamesRenumbered(s[..|s| - 1], t[..|t| - 1]); }
  }

  /** With nothing to redirect a second time, the second directory is as large as the first. */
  lemma SizeAgain(raw: bytes, out: bytes, info: Info, prof: Profile, sec: bytes, ps: seq<Piece>, info2: Info, base: u32)
    requires PatchOf(raw, out, info, prof, sec, ps) && OpenImage(out) == Some(info2) && BadOf(info2, prof) == {}
    ensures NewSize(info2, prof) == NewSize(info, prof)
    ensures NamesLow(Kept(info.imports, BadOf(info, prof)), base) ==> NamesLow(Kept(info2.imports, BadOf(info2, prof)), base)
  {
    hide PatchSuccess, NamesBelow, OpenImage, Kept, BadSlots, Renumbered, SectionSize, NamesLow;
    Reopened(raw, out, info, prof, sec, ps, info2);
    KeptAll(info2.imports);
    SameDirectory(Kept(info.imports, BadOf(info, prof)), base);
  }

  /** Where a second new section would go. */
  lemma NextAgain(raw: bytes, out: bytes, info: Info, prof: Profile, sec: bytes, ps: seq<Piece>)
    requires PatchSuccess(raw, out, info, prof, sec, ps)
    requires HeaderInFile(raw, info.h) && RoomInMemory(Sections(raw, info.h), info.h, NewLength(info, prof))
    ensures HeaderInFile(out, Grown(info.h))
    ensures NextRva(Sections(out, Grown(info.h)), Grown(info.h))
            == NewSizeOfImage(Sections(raw, info.h), info.h, NewLength(info, prof))
  {
    hide PatchSuccess, SectionsOk, NextRva, NextRaw, NewSizeOfImage, RoomInMemory, Sections, NewLength, LE32;
    SectionFacts(raw, out, info, prof, sec, ps);
    SizeFacts(raw, out, info, prof, sec, ps);
    SectionLength(raw, out, info, prof, sec, ps);
    var secs, h := Sections(raw, info.h), info.h;
    NextAfterNew(secs, h, |raw|, NewSection(secs, h, SECTION_NAME, |sec|, SECTION_CHARS), |sec|);
  }

  /** The patched image meets what Patch asks of its input, and its names would stay below 2^31. */
  lemma PatchableAgain(raw: bytes, out: bytes, info: Info, prof: Profile, sec: bytes, ps: seq<Piece>)
    requires PatchOf(raw, out, info, prof, sec, ps)
    requires HeaderInFile(raw, info.h) && Undisturbed(raw, info, prof) && RoomForTwo(raw, info, prof)
    ensures Patchable(out, prof)
    ensures OpenImage(out).Some? && HeaderInFile(out, OpenImage(out).value.h) && NamesBelow(out, OpenImage(out).value, prof)
  {
    hide PatchOf, OpenImage, Undisturbed, Remaining, Linked, NamesLow, NewSize, NewLength, RoomForMore, NextRva,
         NewSizeOfImage, Sections, BadSlots, RunIndex, RedirectList, Kept;
    OpensWithTable(raw, out, info, prof, sec, ps);
    var info2 := OpenImage(out).value;
    StaysWithTable(raw, out, info, prof, sec, ps, info2);
    LinkedAgain(raw, out, info, prof, sec, ps, info2);
    SizeAgain(raw, out, info, prof, sec, ps, info2, NewSizeOfImage(Sections(raw, info.h), info.h, NewLength(info, prof)));
  }

  lemma LinkedAgain(raw: bytes, out: bytes, info: Info, prof: Profile, sec: bytes, ps: seq<Piece>, info2: Info)
    requires PatchOf(raw, out, info, prof, sec, ps) && OpenImage(out) == Some(info2) && BadOf(info2, prof) == {}
    requires HeaderInFile(raw, info.h) && RoomForTwo(raw, info, prof)
    ensures HeaderInFile(out, info2.h) && Linked(out, info2, prof)
    ensures NextRva(Sections(out, info2.h), info2.h) == NewSizeOfImage(Sections(raw, info.h), info.h, NewLength(info, prof))
  {
    hide PatchSuccess, OpenImage, Remaining, NamesLow, NewSize, NewLength, RoomInMemory, RoomInFile, NextRva, NewSizeOfImage,
         Sections, BadSlots, Kept, Sound, RedirectsBacked;
    Reopened(raw, out, info, prof, sec, ps, info2);
    NextAgain(raw, out, info, prof, sec, ps);
    PatchedIsSound(raw, out, info, prof, sec, ps);
    SectionLength(raw, out, info, prof, sec, ps);
    SizeAgain(raw, out, info, prof, sec, ps, info2, 0);
    NoneToBack(PlanOf(info2, prof), info2.imports, Sections(out, info2.h), info2.h.sectAlign);
  }

  lemma NoneToBack(p: Plan, s: seq<Import>, secs: seq<Section>, sa: u32)
    requires BadSlots(p, s) == {}
    ensures RedirectsBacked(p, s, secs, sa)
  {
    hide BadSlots, Decide, FileOffIn, SlotBacked;
    BadSlotsMeans(p, s);
    forall i | 0 <= i < |s| ensures !Decide(p, s[i]).Redirect? {
      assert s[i].slot !in BadSlots(p, s);
    }
  }

  /** A second patch is accepted exactly when the original headers have room for two section headers. */
  lemma AcceptableAgain(raw: bytes, out: bytes, info: Info, prof: Profile, sec: bytes, ps: seq<Piece>)
    requires PatchOf(raw, out, info, prof, sec, ps)
    requires HeaderInFile(raw, info.h) && Undisturbed(raw, info, prof)
    ensures Acceptable(out, prof) <==> info.h.LastHdrEnd() + 80 <= FirstRaw(Sections(raw, info.h))
  {
    hide PatchSuccess, NamesBelow, OpenImage, Undisturbed, Acceptable, FirstRaw, Sections, SectionsOk, AllBacked, ByteFrame,
         Holds, NextRva, NextRaw, NewSection;
    OpensWithTable(raw, out, info, prof, sec, ps);
    var s := MemoryFacts(raw, out, info, prof, sec, ps);
    SizeFacts(raw, out, info, prof, sec, ps);
    AgainWithTable(raw, out, info, prof, sec, ps, OpenImage(out).value);
    SameFirstRaw(Sections(raw, info.h), info.h, |raw|, |sec|);
  }

  lemma SameFirstRaw(secs: seq<Section>, h: Header, len: nat, n: u32)
    requires SectionsOk(secs, h, len)
    ensures FirstRaw(secs + [NewSection(secs, h, SECTION_NAME, n, SECTION_CHARS)]) == FirstRaw(secs)
  {
    hide SectionsOk, NextRva, NextRaw, AlignUp, CStr8, Pad8;
    FirstRawBelow(secs, h, len);
    var t := secs + [NewSection(secs, h, SECTION_NAME, n, SECTION_CHARS)];
    assert t[..|t| - 1] == secs;
  }

  /** What an image must offer to be patched twice: a table no patch disturbs, and room. */
  ghost predicate TwiceReady(raw: bytes, prof: Profile) {
    && Patchable(raw, prof) && Acceptable(raw, prof) && OpenImage(raw).Some?
    && HeaderInFile(raw, OpenImage(raw).value.h)
    && Undisturbed(raw, OpenImage(raw).value, prof) && RoomForTwo(raw, OpenImage(raw).value, prof)
  }

  /** Header room for one more section header than a patch adds. */
  ghost predicate HeadersForTwo(raw: bytes, h: Header)
    requires HeaderInFile(raw, h)
  {
    h.LastHdrEnd() + 80 <= FirstRaw(Sections(raw, h))
  }

  /** The second patch redirected and dropped nothing, and its result imports what the first one left. */
  ghost predicate NothingNew(second: Outcome, info: Info, prof: Profile) {
    && second.Patched? && second.redirected == [] && second.dropped == [] && second.kept == |Remaining(info, prof)|
    && HeaderInFile(second.out, Grown(Grown(info.h)))
    && ReadImports(second.out, Grown(Grown(info.h))) == Done(Remaining(info, prof))
  }

  /**
   * Patch run on its own result: the second run succeeds if and only if the headers have room for two section headers,
   * and then it redirects nothing, drops nothing, and leaves the imports as the first run left them.
   */
  method PatchTwice(raw: bytes, prof: Profile) returns (first: Outcome, second: Outcome)
    requires TwiceReady(raw, prof)
    ensures first.Patched? && (second.Patched? <==> HeadersForTwo(raw, OpenImage(raw).value.h))
    ensures second.Patched? ==> NothingNew(second, OpenImage(raw).value, prof)
  {
    hide Patchable, Acceptable, OpenImage, Result, PatchOf, Undisturbed, RoomInFile, NamesBelow, Remaining, Sections,
         FirstRaw, NothingNew;
    ghost var sec, ps;
    first, sec, ps := Patch(raw, prof);
    ghost var info := OpenImage(raw).value;
    PatchedIsPatchOf(raw, first, prof, sec, ps);
    PatchableAgain(raw, first.out, info, prof, sec, ps);
    AcceptableAgain(raw, first.out, info, prof, sec, ps);
    ghost var sec2, ps2;
    second, sec2, ps2 := Patch(first.out, prof);
    if second.Patched? {
      SecondIsSame(raw, first.out, second, info, prof, sec, ps, sec2, ps2);
    }
  }

  lemma SecondIsSame(raw: bytes, out: bytes, second: Outcome, info: Info, prof: Profile, sec: bytes, ps: seq<Piece>,
                     sec2: bytes, ps2: seq<Piece>)
    requires PatchOf(raw, out, info, prof, sec, ps)
    requires HeaderInFile(raw, info.h) && Undisturbed(raw, info, prof)
    requires Patchable(out, prof) && Acceptable(out, prof) && HeaderInFile(out, OpenImage(out).value.h)
    requires NamesBelow(out, OpenImage(out).value, prof) && Result(out, second, OpenImage(out).value, prof, sec2, ps2)
    ensures NothingNew(second, info, prof)
  {
    hide PatchSuccess, NamesBelow, OpenImage, Undisturbed, Patchable, Acceptable, Rewritten, BadSlots, Remaining,
         RedirectList, RunIndex, DroppedDlls, DescsOf, Kept, ReadImports, Ordered, PlanOf;
    OpensWithTable(raw, out, info, prof, sec, ps);
    var info2 := OpenImage(out).value;
    StaysWithTable(raw, out, info, prof, sec, ps, info2);
    PatchedIsPatchOf(out, second, prof, sec2, ps2);
    ImportsReadBack(out, second.out, info2, prof, sec2, ps2);
    OpenFacts(out, info2);
    NothingDropped(info2.imports);
    KeptAll(info2.imports);
  }
}
