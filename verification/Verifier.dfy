/** Go's Verify: the check of a patched image against a profile. */
module Verifier {
  import opened Bytes
  import opened Align
  import opened ImportReader
  import opened Profiles
  import opened Patcher

  datatype Problem = OsVersion | SubsystemVersion | DynamicBase | StillMissing(im: Import) | NotHooked(im: Import)

  /** The problems with the header fields. */
  function HeaderProblems(info: Info, prof: Profile): seq<Problem> {
    (if info.osMajor != prof.osMajor || info.osMinor != prof.osMinor then [OsVersion] else [])
    + (if info.subsysMajor != prof.subsysMajor || info.subsysMinor != prof.subsysMinor then [SubsystemVersion] else [])
    + (if BitAnd(info.dllChar, 0x40) != 0 then [DynamicBase] else [])
  }

  /** The problems with one import. */
  function ImportProblems(p: Plan, im: Import): seq<Problem> {
    if IsOwn(p, im) then []
    else
      (if IsMissing(p.prof, im.dll, im.name) then [StillMissing(im)] else [])
      + (if ForceHook(im.dll, im.name) && Key(im.dll, im.name) in p.poly then [NotHooked(im)] else [])
  }

  function AllImportProblems(p: Plan, s: seq<Import>): seq<Problem> {
    if s == [] then [] else AllImportProblems(p, s[..|s| - 1]) + ImportProblems(p, s[|s| - 1])
  }

  function Problems(info: Info, prof: Profile): seq<Problem> {
    HeaderProblems(info, prof) + AllImportProblems(PlanOf(info, prof), info.imports)
  }

  // ---------------------------------------------------------------- what is a problem

  /** What the profile demands, in terms of the header fields, the table's records and the profile's entries. */
  ghost predicate IsProblem(info: Info, prof: Profile, x: Problem) {
    match x
    case OsVersion => !(info.osMajor == prof.osMajor && info.osMinor == prof.osMinor)
    case SubsystemVersion => !(info.subsysMajor == prof.subsysMajor && info.subsysMinor == prof.subsysMinor)
    case DynamicBase => Bit(info.dllChar, 6)
    case StillMissing(im) => NotOwn(info, im) && Lacks(prof, im.dll, im.name)
    case NotHooked(im) => NotOwn(info, im) && Hooked(im) && !NoneProvides(info.table, FullName(im))
  }

  ghost predicate NotOwn(info: Info, im: Import) { !OwnRecord(info.table, Add32(info.h.imageBase, im.slot)) }

  /** How often a problem is to be listed: once for a header field, once for each time an import is listed. */
  ghost function Times(info: Info, prof: Profile, x: Problem): nat {
    if !IsProblem(info, prof, x) then 0
    else match x
      case StillMissing(im) => multiset(info.imports)[im]
      case NotHooked(im) => multiset(info.imports)[im]
      case _ => 1
  }

  /** The list holds exactly the problems there are. */
  lemma ProblemsListed(info: Info, prof: Profile, x: Problem)
    ensures multiset(Problems(info, prof))[x] == Times(info, prof, x)
  {
    hide HeaderProblems, AllImportProblems, ImportProblems, PlanOf, Bit, OwnRecord, Lacks, NoneProvides, Hooked;
    HeaderListed(info, prof, x);
    match x {
      case StillMissing(im) =>
        ImportsListed(PlanOf(info, prof), info.imports, x, im);
        ImportListed(info, prof, im);
      case NotHooked(im) =>
        ImportsListed(PlanOf(info, prof), info.imports, x, im);
        ImportListed(info, prof, im);
      case _ => NoHeaderListed(PlanOf(info, prof), info.imports, x);
    }
  }

  lemma HeaderListed(info: Info, prof: Profile, x: Problem)
    ensures multiset(HeaderProblems(info, prof))[x]
            == if (x.OsVersion? || x.SubsystemVersion? || x.DynamicBase?) && IsProblem(info, prof, x) then 1 else 0
  {
    hide BitAnd, Bit, OwnRecord, Lacks, NoneProvides, Hooked;
    Pow2Six();
    AndPow2(info.dllChar, 6);
  }

  /** An import contributes its problem once each time it is listed, if at all. */
  lemma {:induction false} ImportsListed(p: Plan, s: seq<Import>, x: Problem, im: Import)
    requires x == StillMissing(im) || x == NotHooked(im)
    ensures multiset(AllImportProblems(p, s))[x] == if x in ImportProblems(p, im) then multiset(s)[im] else 0
  {
    hide ImportProblems;
    if s != [] {
      var n := |s| - 1;
      ImportsListed(p, s[..n], x, im);
      assert s == s[..n] + [s[n]];
      assert multiset(s)[im] == multiset(s[..n])[im] + multiset([s[n]])[im];
      OneListed(p, s[n], x, im);
      var u, w := AllImportProblems(p, s[..n]), ImportProblems(p, s[n]);
      assert multiset(u + w) == multiset(u) + multiset(w);
    }
  }

  lemma OneListed(p: Plan, e: Import, x: Problem, im: Import)
    requires x == StillMissing(im) || x == NotHooked(im)
    ensures multiset(ImportProblems(p, e))[x] == if e == im && x in ImportProblems(p, im) then 1 else 0
  {
    hide IsOwn, IsMissing, ForceHook, Key;
  }

  lemma {:induction false} NoHeaderListed(p: Plan, s: seq<Import>, x: Problem)
    requires !x.StillMissing? && !x.NotHooked?
    ensures x !in AllImportProblems(p, s)
  {
    hide IsOwn, IsMissing, ForceHook, Key;
    if s != [] { NoHeaderListed(p, s[..|s| - 1], x); }
  }

  lemma ImportListed(info: Info, prof: Profile, im: Import)
    ensures StillMissing(im) in ImportProblems(PlanOf(info, prof), im) <==> IsProblem(info, prof, StillMissing(im))
    ensures NotHooked(im) in ImportProblems(PlanOf(info, prof), im) <==> IsProblem(info, prof, NotHooked(im))
  {
    hide OwnRecord, Lacks, NoneProvides, PolyMap, OwnSlots, SameFolded, SameButCase, IsMissing;
    MissingMeans(prof, im.dll, im.name);
    FoldedMeans(im.dll, KERNEL32);
    OwnSlotsMeans(info.table);
    PolyMapLast(info.table, FullName(im));
  }

  /**
   * An opened image, patched or not, passes exactly when its versions are the profile's, it may not be relocated, and
   * the patcher would leave every import alone.
   */
  lemma PassesIff(info: Info, prof: Profile)
    ensures Problems(info, prof) == []
            <==> && info.osMajor == prof.osMajor && info.osMinor == prof.osMinor
                 && info.subsysMajor == prof.subsysMajor && info.subsysMinor == prof.subsysMinor
                 && !Bit(info.dllChar, 6)
                 && forall k | 0 <= k < |info.imports| :: Decide(PlanOf(info, prof), info.imports[k]) == Leave
  {
    hide AllImportProblems, PlanOf, BitAnd, Bit, Decide;
    AllClean(PlanOf(info, prof), info.imports);
    Pow2Six();
    AndPow2(info.dllChar, 6);
  }

  // ---------------------------------------------------------------- the check

  /** Go: Verify; None when the file cannot be opened. */
  method Verify(b: bytes, prof: Profile) returns (r: Option<seq<Problem>>)
    ensures r == match OpenImage(b)
                 case None => None
                 case Some(info) => Some(Problems(info, prof))
    ensures r.Some? ==> forall x :: multiset(r.value)[x] == Times(OpenImage(b).value, prof, x)
  {
    hide OpenImage, BitAnd, PolyMap, OwnSlots, AllImportProblems, Times;
    var view := Open(b);
    if view.None? {
      return None;
    }
    var info := view.value;
    var problems: seq<Problem> := [];
    if info.osMajor != prof.osMajor || info.osMinor != prof.osMinor {
      problems := problems + [OsVersion];
    }
    if info.subsysMajor != prof.subsysMajor || info.subsysMinor != prof.subsysMinor {
      problems := problems + [SubsystemVersion];
    }
    if BitAnd(info.dllChar, 0x40) != 0 {
      problems := problems + [DynamicBase];
    }
    assert problems == HeaderProblems(info, prof);
    var poly, own := BuildMaps(info.table);
    var more := VerifyImports(Plan(prof, poly, own, info.h.imageBase), info.imports);
    forall x ensures multiset(Problems(info, prof))[x] == Times(info, prof, x) { ProblemsListed(info, prof, x); }
    return Some(problems + more);
  }

  /** The loop of Verify over the imports. */
  method VerifyImports(p: Plan, s: seq<Import>) returns (problems: seq<Problem>)
    ensures problems == AllImportProblems(p, s)
  {
    hide IsMissing, Key;
    problems := [];
    for i := 0 to |s|
      invariant problems == AllImportProblems(p, s[..i])
    {
      var im := s[i];
      assert s[..i + 1][..i] == s[..i];
      var found: seq<Problem> := [];
      if Add32(p.imageBase, im.slot) !in p.own {
        var missing := Missing(p.prof, im.dll, im.name);
        if missing {
          found := found + [StillMissing(im)];
        }
        if ForceHook(im.dll, im.name) && Key(im.dll, im.name) in p.poly {
          found := found + [NotHooked(im)];
        }
      }
      assert found == ImportProblems(p, im);
      problems := problems + found;
    }
    assert s[..|s|] == s;
  }

  /** An import has no problem exactly when the patcher, given the same table, would leave it alone. */
  lemma CleanIffLeft(p: Plan, im: Import)
    ensures ImportProblems(p, im) == [] <==> Decide(p, im) == Leave
  {
    hide IsMissing, Key;
  }

  lemma {:induction false} AllClean(p: Plan, s: seq<Import>)
    ensures AllImportProblems(p, s) == [] <==> forall k | 0 <= k < |s| :: Decide(p, s[k]) == Leave
  {
    hide ImportProblems, Decide;
    if s == [] {
    } else {
      var n := |s| - 1;
      AllClean(p, s[..n]);
      CleanIffLeft(p, s[n]);
      assert forall k | 0 <= k < n :: s[..n][k] == s[k];
    }
  }

  /** The cleared relocation flag tests as zero. */
  lemma FlagIsClear(was: u16)
    ensures BitAnd(AndNot(was, 0x60), 0x40) == 0
  {
    hide BitAnd, AndNot, Bit;
    var x := AndNot(was, 0x60);
    assert !Bit(x, 6) by { BitOfAndNot(was, 0x60, 6); BitsOf60(6); }
    assert Pow2(6) == 64 by { Pow2Six(); }
    AndPow2(x, 6);
  }

  /** The characteristics after a patch: bits 5 and 6 are clear, the others as they were. */
  lemma FlagsCleared(was: u16, k: nat)
    ensures Bit(AndNot(was, 0x60), k) <==> Bit(was, k) && k != 5 && k != 6
  {
    hide Bit, AndNot;
    BitOfAndNot(was, 0x60, k);
    BitsOf60(k);
  }

  lemma BitsOf60(k: nat)
    ensures Bit(0x60, k) <==> k == 5 || k == 6
  {
    hide Bit;
    assert Pow2(2) == 4;
    assert Pow2(5) == 0x20;
    BitsOfRun(2, 5, k);
  }

  lemma Pow2Six()
    ensures Pow2(6) == 64
  {
    assert Pow2(3) == 8;
  }

  lemma {:induction false} AndPow2(x: nat, k: nat)
    ensures BitAnd(x, Pow2(k)) == 0 <==> !Bit(x, k)
    decreases k
  {
    if x == 0 {
      ZeroHasNoBit(k);
    } else if k == 0 {
      AndZero(x / 2);
    } else {
      AndPow2(x / 2, k - 1);
    }
  }

  lemma {:induction false} AndZero(x: nat)
    ensures BitAnd(x, 0) == 0
    decreases x
  {
    if x > 0 { AndZero(x / 2); }
  }
}
