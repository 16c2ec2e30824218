/** Go's rebuildImports and plannedSectionRVA as a whole. */
module Rebuild {
  import opened Bytes
  import opened Align
  import opened Image
  import opened RawImage
  import opened ImportReader
  import opened Runs
  import opened Grouping
  import opened Layout

  /** The number of descriptors in the rebuilt directory of a list of imports. */
  function RunCount(s: seq<Import>): nat { if s == [] then 0 else RunIndex(s, |s| - 1) + 1 }

  function Dlls(s: seq<Import>): (r: seq<bytes>)
    ensures |r| == |s|
  {
    seq(|s|, k requires 0 <= k < |s| => s[k].dll)
  }

  /**
   * Everything in front of the function names: a descriptor for each run and an empty one, a lookup word for each
   * import and an empty one for each run, and every DLL name once.
   */
  function NamesStart(s: seq<Import>): nat {
    20 * (RunCount(s) + 1) + 4 * (|s| + RunCount(s)) + StringArea(Dlls(s), 0)
  }

  /** The size of the rebuilt directory: all that, and every function name once. */
  function SectionSize(s: seq<Import>): nat { NamesStart(s) + StringArea(FuncNames(s), 2) }

  /** Where the hint/name entry of a name lies in the rebuilt directory. */
  function NameAt(s: seq<Import>, name: bytes): nat { NamesStart(s) + AreaBefore(FuncNames(s), name, 2) }

  /** In the rebuilt directory at address base every name lies below 2^31. */
  predicate NamesLow(s: seq<Import>, base: u32) {
    forall k | 0 <= k < |s| && s[k].name != [] :: base + NameAt(s, s[k].name) < ORDINAL_FLAG
  }

  /** So it is when the whole directory does. */
  lemma LowWhenAllIs(s: seq<Import>, base: u32)
    requires base + SectionSize(s) <= ORDINAL_FLAG
    ensures NamesLow(s, base)
  {
    hide NamesStart, FuncNames, StringArea, AreaBefore;
    forall k | 0 <= k < |s| && s[k].name != [] ensures base + NameAt(s, s[k].name) < ORDINAL_FLAG {
      NameListed(s, k);
      BeforeTotal(FuncNames(s), s[k].name, 2);
    }
  }

  /** BuildSection's size and places, stated of the pieces, are those of the imports they are made of. */
  lemma SizeOfSplit(s: seq<Import>, ps: seq<Piece>)
    requires RunSplit(s, ps)
    ensures SectionSpace(ps) == SectionSize(s) && |ps| == RunCount(s)
    ensures forall name :: NameOffset(ps, name) == NameAt(s, name)
  {
    hide StringArea, AreaBefore, FuncNames, RunSplit, Pos, IntStart, PieceDlls, RunIndex, Dlls, Flat;
    RunsCounted(s, ps);
    IntStartAt(ps, |ps|);
    AllOfIt(s, ps);
    DllsAlike(s, ps, |ps|);
  }

  lemma RunsCounted(s: seq<Import>, ps: seq<Piece>)
    requires RunSplit(s, ps)
    ensures |ps| == RunCount(s)
  {
    hide Flat, RunIndex, Joined;
    AllOfIt(s, ps);
    if ps != [] {
      var i := |ps| - 1;
      assert IsRun(ps[i]);
      RunIndexOfPiece(s, ps, i, |ps[i].imps| - 1);
    }
  }

  lemma AllOfIt(s: seq<Import>, ps: seq<Piece>)
    requires RunSplit(s, ps)
    ensures Flat(ps, 0) == s && Pos(ps, |ps|) == |s| && s[..Pos(ps, |ps|)] == s
  {
    hide Pos;
    AllFlat(ps);
  }

  lemma {:induction false} IntStartAt(ps: seq<Piece>, n: nat)
    requires n <= |ps|
    ensures IntStart(ps, n) == 20 * (|ps| + 1) + 4 * (Pos(ps, n) + n)
  {
    if n > 0 { IntStartAt(ps, n - 1); }
  }

  // ---------------------------------------------------------------- repeated DLL names

  /** The two lists hold the same strings and take the same space. */
  ghost predicate Alike(xs: seq<bytes>, ys: seq<bytes>) {
    StringArea(xs, 0) == StringArea(ys, 0) && forall t :: t in xs <==> t in ys
  }

  lemma AlikeStep(xs: seq<bytes>, ys: seq<bytes>, t: bytes)
    requires Alike(xs, ys)
    ensures Alike(xs + [t], ys + [t])
  {
    hide StringArea, Even;
    AreaStep(xs, t, 0);
    AreaStep(ys, t, 0);
  }

  lemma AlikeAgain(xs: seq<bytes>, ys: seq<bytes>, t: bytes)
    requires Alike(xs, ys) && t in ys
    ensures Alike(xs, ys + [t])
  {
    hide StringArea, Even;
    AreaStep(ys, t, 0);
  }

  /** A run repeats its DLL name for every import. */
  lemma {:induction false} RunAlike(xs: seq<bytes>, ys: seq<bytes>, p: Piece, n: nat)
    requires Alike(xs, ys) && 0 < n <= |p.imps| && forall j | 0 <= j < |p.imps| :: p.imps[j].dll == p.dll
    ensures Alike(xs + [p.dll], ys + Dlls(p.imps[..n]))
  {
    hide Alike;
    if n == 1 {
      AlikeStep(xs, ys, p.dll);
      assert Dlls(p.imps[..1]) == [p.dll];
    } else {
      RunAlike(xs, ys, p, n - 1);
      var zs := ys + Dlls(p.imps[..n - 1]);
      LastOfAlike(xs, zs, p.dll);
      AlikeAgain(xs + [p.dll], zs, p.dll);
      assert ys + Dlls(p.imps[..n]) == zs + [p.dll];
    }
  }

  lemma LastOfAlike(xs: seq<bytes>, ys: seq<bytes>, t: bytes)
    requires Alike(xs + [t], ys)
    ensures t in ys
  {
    assert (xs + [t])[|xs|] == t;
  }

  lemma {:induction false} DllsAlike(s: seq<Import>, ps: seq<Piece>, n: nat)
    requires RunSplit(s, ps) && n <= |ps|
    ensures Pos(ps, n) <= |s| && Alike(PieceDlls(ps, n), Dlls(s[..Pos(ps, n)]))
  {
    hide Alike, Flat, Joined, Dlls;
    if n == 0 {
      NoDlls(s);
    } else {
      DllsAlike(s, ps, n - 1);
      FlatPrefix(ps, n - 1);
      var p := ps[n - 1];
      assert IsRun(p);
      RunAlike(PieceDlls(ps, n - 1), Dlls(s[..Pos(ps, n - 1)]), p, |p.imps|);
      assert p.imps[..|p.imps|] == p.imps;
      DllsConcat(s[..Pos(ps, n - 1)], p.imps);
    }
  }

  lemma NoDlls(s: seq<Import>)
    ensures Alike([], Dlls(s[..0]))
  {}

  lemma DllsConcat(s: seq<Import>, t: seq<Import>)
    ensures Dlls(s + t) == Dlls(s) + Dlls(t)
  {}

  // ---------------------------------------------------------------- the pieces of the survivors

  lemma PiecesClean(s: seq<Import>, ps: seq<Piece>)
    requires RunSplit(s, ps) && forall i | 0 <= i < |s| :: WellFormed(s[i])
    ensures CleanNames(ps)
  {
    hide NulFree, Flat, Pos, Joined;
    forall i, j | 0 <= i < |ps| && 0 <= j < |ps[i].imps| ensures WellFormed(ps[i].imps[j]) {
      FlatAt(ps, i, j);
    }
    forall i | 0 <= i < |ps| ensures NulFree(ps[i].dll) {
      assert IsRun(ps[i]);
      assert WellFormed(ps[i].imps[0]);
    }
  }

  // ---------------------------------------------------------------- the method

  /** Go: plannedSectionRVA, which repeats AddSection's placement without changing anything. */
  method PlannedSectionRVA(r: Raw) returns (rva: u32)
    requires r.Valid()
    ensures rva == NextRva(Sections(r.Buf, r.Hdr()), r.Hdr())
  {
    hide AlignUp, MaxVEnd, ParseHeader;
    var maxRVAEnd: u32 := 0;
    var secs := r.ReadSections();
    NoEnd(r.sectAlign);
    assert secs[..0] == [];
    for i := 0 to |secs|
      invariant maxRVAEnd == MaxVEnd(secs[..i], r.sectAlign)
    {
      var e := Add32(secs[i].va, AlignUp(secs[i].vs, r.sectAlign));
      EndStep(secs, i, r.sectAlign);
      if e > maxRVAEnd {
        maxRVAEnd := e;
      }
    }
    assert secs[..|secs|] == secs;
    rva := AlignUp(maxRVAEnd, r.sectAlign);
  }

  lemma NoEnd(sa: u32)
    ensures MaxVEnd([], sa) == 0
  {}

  lemma EndStep(secs: seq<Section>, i: nat, sa: u32)
    requires i < |secs|
    ensures MaxVEnd(secs[..i + 1], sa) == if VEnd(secs[i], sa) > MaxVEnd(secs[..i], sa)
                                          then VEnd(secs[i], sa) else MaxVEnd(secs[..i], sa)
  {
    ExtentStep(secs, i, sa);
  }

  /** sec is a complete import directory for the survivors of s, to be loaded at address base. */
  ghost predicate Directory(sec: bytes, base: u32, s: seq<Import>, bad: set<u32>, ps: seq<Piece>) {
    && RunSplit(Kept(s, bad), ps)
    && CleanNames(ps)
    && Describes(sec, base, ps)
    && base + |sec| <= W32
  }

  /** Go: rebuildImports. descLen is the value it leaves in descBytesLen. */
  method RebuildImports(r: Raw, imports: seq<Import>, bad: set<u32>)
    returns (sec: bytes, descLen: nat, dropped: seq<bytes>, kept: nat, ghost ps: seq<Piece>)
    requires r.Valid() && Ordered(imports)
    requires NextRva(Sections(r.Buf, r.Hdr()), r.Hdr()) + SectionSize(Kept(imports, bad)) <= W32
    ensures Directory(sec, NextRva(Sections(r.Buf, r.Hdr()), r.Hdr()), imports, bad, ps)
    ensures |sec| == SectionSize(Kept(imports, bad)) && |ps| == RunCount(Kept(imports, bad))
    ensures kept == |Kept(imports, bad)|
    ensures dropped == DroppedDlls(imports, bad, DescsOf(imports))
    ensures descLen == 20 * (|ps| + 1) <= |sec|
  {
    hide Grouped, RunSplit, CleanNames, Describes, SectionSpace, SectionSize, RunCount, Ordered, Kept, NextRva, Sections,
         ParseHeader, DroppedDlls, DescsOf, LayoutSafe, Flat;
    var groups := GroupByDescriptor(imports, bad);
    var pieces;
    pieces, dropped := SplitGroups(groups, imports, bad);
    PiecesOf(imports, bad, pieces);
    var secRVA := PlannedSectionRVA(r);
    descLen := (|pieces| + 1) * 20;
    var dllOff, nameOff;
    ghost var mid;
    sec, kept, mid, dllOff, nameOff := BuildSection(pieces, secRVA);
    ps := pieces;
    DirectoryLength(sec, secRVA, ps);
  }

  lemma DirectoryLength(sec: bytes, base: u32, ps: seq<Piece>)
    requires Describes(sec, base, ps)
    ensures 20 * |ps| + 20 <= |sec|
  {
    hide DescribesPiece;
  }

  lemma PiecesOf(s: seq<Import>, bad: set<u32>, ps: seq<Piece>)
    requires Ordered(s) && RunSplit(Kept(s, bad), ps)
    ensures CleanNames(ps) && SectionSpace(ps) == SectionSize(Kept(s, bad)) && |ps| == RunCount(Kept(s, bad))
    ensures Flat(ps, 0) == Kept(s, bad)
  {
    hide CleanNames, SectionSpace, SectionSize, RunCount, Kept, WellFormed, InOrder, IsRun, Apart;
    KeptOrdered(s, bad);
    PiecesClean(Kept(s, bad), ps);
    SizeOfSplit(Kept(s, bad), ps);
  }
}
