/** The first half of the import-table rebuild: grouping by descriptor and splitting into runs. */
module Grouping {
  import opened Bytes
  import opened ImportReader
  import opened Runs

  /** The imports of one original descriptor that survive; ftRVA is the first surviving slot. */
  datatype Group = Group(dll: bytes, ftRVA: u32, imps: seq<Import>)

  /** The descriptor numbers that occur, in order. */
  function DescsOf(s: seq<Import>): seq<nat> {
    if s == [] then []
    else
      var k := |s| - 1;
      var d := DescsOf(s[..k]);
      if d != [] && d[|d| - 1] == s[k].desc then d else d + [s[k].desc]
  }

  /** The DLL of descriptor number d. */
  function DllOf(s: seq<Import>, d: nat): bytes {
    if s == [] then [] else if s[|s| - 1].desc == d then s[|s| - 1].dll else DllOf(s[..|s| - 1], d)
  }

  function FlatGroups(gs: seq<Group>): seq<Import> {
    if gs == [] then [] else FlatGroups(gs[..|gs| - 1]) + gs[|gs| - 1].imps
  }

  /** Every import of the group carries its DLL and descriptor number. */
  ghost predicate GroupOf(g: Group, d: nat) {
    && (forall j | 0 <= j < |g.imps| :: g.imps[j].desc == d && g.imps[j].dll == g.dll)
    && (g.imps != [] ==> g.ftRVA == g.imps[0].slot)
  }

  ghost predicate Increasing(ds: seq<nat>) { forall i, j | 0 <= i < j < |ds| :: ds[i] < ds[j] }

  /** gs are the groups of the survivors of s, one per descriptor number in ds. */
  ghost predicate Grouped(s: seq<Import>, bad: set<u32>, gs: seq<Group>, ds: seq<nat>) {
    && |gs| == |ds|
    && ds == DescsOf(s)
    && Increasing(ds)
    && (s == [] <==> ds == [])
    && (s != [] ==> ds[|ds| - 1] == s[|s| - 1].desc && gs[|gs| - 1].dll == s[|s| - 1].dll)
    && (forall k | 0 <= k < |gs| :: GroupOf(gs[k], ds[k]) && gs[k].dll == DllOf(s, ds[k]))
    && FlatGroups(gs) == Kept(s, bad)
  }

  ghost predicate Indexes(byDesc: map<nat, nat>, ds: seq<nat>) {
    && (forall d :: d in byDesc <==> d in ds)
    && (forall d | d in byDesc :: byDesc[d] < |ds| && ds[byDesc[d]] == d)
  }

  /** Go: the first loop of rebuildImports. */
  method GroupByDescriptor(imports: seq<Import>, bad: set<u32>) returns (groups: seq<Group>)
    requires Ordered(imports)
    ensures Grouped(imports, bad, groups, DescsOf(imports))
  {
    hide Ordered, Grouped, Indexes, DescsOf, Kept, GroupOf, FlatGroups, Increasing;
    groups := [];
    var byDesc: map<nat, nat> := map[];
    NoGroups(bad);
    assert imports[..0] == [];
    for n := 0 to |imports|
      invariant Grouped(imports[..n], bad, groups, DescsOf(imports[..n]))
      invariant Indexes(byDesc, DescsOf(imports[..n]))
    {
      var im := imports[n];
      GroupStep(imports, n, bad, groups, byDesc);
      if im.desc !in byDesc {
        byDesc := byDesc[im.desc := |groups|];
        groups := groups + [Group(im.dll, 0, [])];
      }
      var g := byDesc[im.desc];
      if im.slot !in bad {
        groups := groups[g := AddTo(groups[g], im)];
      }
    }
    assert imports[..|imports|] == imports;
  }

  /** Appends a survivor; the first one fixes the group's FirstThunk. */
  function AddTo(g: Group, im: Import): Group {
    Group(g.dll, if |g.imps| == 0 then im.slot else g.ftRVA, g.imps + [im])
  }

  lemma NoGroups(bad: set<u32>)
    ensures Grouped([], bad, [], DescsOf([])) && Indexes(map[], DescsOf([]))
  {}

  /** One turn of the grouping loop, seen from its start. */
  lemma GroupStep(s: seq<Import>, n: nat, bad: set<u32>, gs: seq<Group>, byDesc: map<nat, nat>)
    requires n < |s| && Ordered(s)
    requires Grouped(s[..n], bad, gs, DescsOf(s[..n]))
    requires Indexes(byDesc, DescsOf(s[..n]))
    ensures var im := s[n];
            var byDesc2 := if im.desc in byDesc then byDesc else byDesc[im.desc := |gs|];
            var gs2 := if im.desc in byDesc then gs else gs + [Group(im.dll, 0, [])];
            var g := byDesc2[im.desc];
            && g < |gs2|
            && Indexes(byDesc2, DescsOf(s[..n + 1]))
            && Grouped(s[..n + 1], bad, if im.slot in bad then gs2 else gs2[g := AddTo(gs2[g], im)], DescsOf(s[..n + 1]))
  {
    hide Ordered, Kept, GroupOf, FlatGroups, Increasing, DllOf, Grouped, Indexes, DescsOf;
    if s[n].desc in byDesc {
      GroupStepKnown(s, n, bad, gs, byDesc);
    } else {
      GroupStepNew(s, n, bad, gs, byDesc);
    }
  }

  lemma GroupStepKnown(s: seq<Import>, n: nat, bad: set<u32>, gs: seq<Group>, byDesc: map<nat, nat>)
    requires n < |s| && Ordered(s) && s[n].desc in byDesc
    requires Grouped(s[..n], bad, gs, DescsOf(s[..n]))
    requires Indexes(byDesc, DescsOf(s[..n]))
    ensures byDesc[s[n].desc] == |gs| - 1
    ensures DescsOf(s[..n + 1]) == DescsOf(s[..n])
    ensures Grouped(s[..n + 1], bad, if s[n].slot in bad then gs else gs[|gs| - 1 := AddTo(gs[|gs| - 1], s[n])],
                    DescsOf(s[..n + 1]))
  {
    hide Ordered, Kept, GroupOf, FlatGroups, Increasing, DllOf, Indexes;
    var ds, t := DescsOf(s[..n]), s[..n + 1];
    assert t[..n] == s[..n];
    KeptStep(s, n, bad);
    LastDesc(s, n, ds, gs, byDesc);
    AddToLast(gs, ds, s[n]);
    forall k | 0 <= k < |gs| ensures gs[k].dll == DllOf(t, ds[k]) {
      DllStep(s, n, ds[k]);
    }
  }

  lemma GroupStepNew(s: seq<Import>, n: nat, bad: set<u32>, gs: seq<Group>, byDesc: map<nat, nat>)
    requires n < |s| && Ordered(s) && s[n].desc !in byDesc
    requires Grouped(s[..n], bad, gs, DescsOf(s[..n]))
    requires Indexes(byDesc, DescsOf(s[..n]))
    ensures Indexes(byDesc[s[n].desc := |gs|], DescsOf(s[..n + 1]))
    ensures var hs := gs + [Group(s[n].dll, 0, [])];
            Grouped(s[..n + 1], bad, if s[n].slot in bad then hs else hs[|gs| := AddTo(hs[|gs|], s[n])],
                    DescsOf(s[..n + 1]))
  {
    hide Ordered, Kept, GroupOf, FlatGroups, Increasing, DllOf;
    var ds, t := DescsOf(s[..n]), s[..n + 1];
    assert t[..n] == s[..n];
    KeptStep(s, n, bad);
    NewDesc(s, n, ds, gs, byDesc);
    AddNew(gs, ds, s[n]);
    IndexesExtend(byDesc, ds, s[n].desc);
    var es: seq<nat> := ds + [s[n].desc];
    assert DescsOf(t) == es;
    forall k | 0 <= k < |es| ensures (gs + [Group(s[n].dll, 0, [])])[k].dll == DllOf(t, es[k]) {
      DllStep(s, n, es[k]);
      if k < |ds| { assert es[k] == ds[k]; }
    }
  }

  lemma KeptStep(s: seq<Import>, n: nat, bad: set<u32>)
    requires n < |s|
    ensures Kept(s[..n + 1], bad) == if s[n].slot in bad then Kept(s[..n], bad) else Kept(s[..n], bad) + [s[n]]
  {
    assert s[..n + 1][..n] == s[..n];
  }

  lemma DllStep(s: seq<Import>, n: nat, d: nat)
    requires n < |s|
    ensures DllOf(s[..n + 1], d) == if s[n].desc == d then s[n].dll else DllOf(s[..n], d)
  {
    var t := s[..n + 1];
    assert t[|t| - 1] == s[n] && t[..|t| - 1] == s[..n];
  }

  lemma IndexesExtend(byDesc: map<nat, nat>, ds: seq<nat>, d: nat)
    requires Indexes(byDesc, ds) && d !in byDesc
    ensures Indexes(byDesc[d := |ds|], ds + [d])
  {
    var es := ds + [d];
    forall x ensures x in es <==> x in ds || x == d {}
  }

  /** A known descriptor number is the last one seen. */
  lemma LastDesc(s: seq<Import>, n: nat, ds: seq<nat>, gs: seq<Group>, byDesc: map<nat, nat>)
    requires n < |s| && Ordered(s) && Indexes(byDesc, ds) && s[n].desc in byDesc
    requires Increasing(ds) && |gs| == |ds|
    requires n > 0 && ds != [] ==> ds[|ds| - 1] == s[n - 1].desc && gs[|gs| - 1].dll == s[n - 1].dll
    requires n == 0 ==> ds == []
    ensures ds != [] && n > 0 && byDesc[s[n].desc] == |ds| - 1 && ds[|ds| - 1] == s[n].desc
    ensures gs[|gs| - 1].dll == s[n].dll
    ensures forall k | 0 <= k < |ds| - 1 :: ds[k] != s[n].desc
  {
    hide WellFormed;
    assert s[n].desc in ds;
    assert InOrder(s[n - 1], s[n]);
  }

  lemma NewDesc(s: seq<Import>, n: nat, ds: seq<nat>, gs: seq<Group>, byDesc: map<nat, nat>)
    requires n < |s| && Ordered(s) && Indexes(byDesc, ds) && s[n].desc !in byDesc
    requires Increasing(ds)
    requires n > 0 && ds != [] ==> ds[|ds| - 1] == s[n - 1].desc
    requires n == 0 ==> ds == []
    ensures ds != [] ==> ds[|ds| - 1] < s[n].desc
    ensures Increasing(ds + [s[n].desc])
    ensures forall k | 0 <= k < |ds| :: ds[k] != s[n].desc
  {
    hide WellFormed;
    forall k | 0 <= k < |ds| ensures ds[k] != s[n].desc { assert ds[k] in ds; }
    if ds != [] {
      assert InOrder(s[n - 1], s[n]);
      assert ds[|ds| - 1] in ds;
    }
  }

  lemma AddToLast(gs: seq<Group>, ds: seq<nat>, im: Import)
    requires |gs| == |ds| > 0
    requires forall k | 0 <= k < |gs| :: GroupOf(gs[k], ds[k])
    requires im.desc == ds[|ds| - 1] && im.dll == gs[|gs| - 1].dll
    ensures var hs := gs[|gs| - 1 := AddTo(gs[|gs| - 1], im)];
            && (forall k | 0 <= k < |hs| :: GroupOf(hs[k], ds[k]))
            && FlatGroups(hs) == FlatGroups(gs) + [im]
            && hs[|gs| - 1].dll == im.dll
  {
    var k := |gs| - 1;
    var hs := gs[k := AddTo(gs[k], im)];
    assert hs[..k] == gs[..k];
    assert GroupOf(gs[k], ds[k]);
    assert FlatGroups(gs[..k]) + (gs[k].imps + [im]) == (FlatGroups(gs[..k]) + gs[k].imps) + [im];
  }

  lemma AddNew(gs: seq<Group>, ds: seq<nat>, im: Import)
    requires |gs| == |ds|
    requires forall k | 0 <= k < |gs| :: GroupOf(gs[k], ds[k])
    ensures var es, hs := ds + [im.desc], gs + [Group(im.dll, 0, [])];
            && (forall k | 0 <= k < |hs| :: GroupOf(hs[k], es[k]))
            && FlatGroups(hs) == FlatGroups(gs)
            && (forall k | 0 <= k < |hs| :: GroupOf(hs[|gs| := AddTo(hs[|gs|], im)][k], es[k]))
            && FlatGroups(hs[|gs| := AddTo(hs[|gs|], im)]) == FlatGroups(gs) + [im]
  {
    var es, hs := ds + [im.desc], gs + [Group(im.dll, 0, [])];
    assert hs[..|gs|] == gs;
    forall k | 0 <= k < |hs| ensures GroupOf(hs[k], es[k]) {
      if k < |gs| { assert GroupOf(gs[k], ds[k]); }
    }
    AddToLast(hs, es, im);
    assert FlatGroups(gs) + [] == FlatGroups(gs);
  }

  // ---------------------------------------------------------------- splitting

  /** Go: the inner loop that cuts a group where slots are not 4 bytes apart. */
  method SplitGroup(g: Group, ghost d: nat) returns (pieces: seq<Piece>)
    requires g.imps != [] && GroupOf(g, d)
    ensures RunSplit(g.imps, pieces)
  {
    hide RunSplit, Joined, Flat, IsRun;
    pieces := [];
    var start, i := 0, 1;
    var s := g.imps;
    EmptyRunSplit();
    assert s[..0] == [];
    while i <= |s|
      invariant 0 <= start <= |s| && start < i <= |s| + 1
      invariant i == |s| + 1 ==> start == |s|
      invariant RunSplit(s[..start], pieces)
      invariant forall j | start < j < i && j < |s| :: Joined(s[j - 1], s[j])
      invariant 0 < start < |s| ==> !Joined(s[start - 1], s[start])
      decreases |s| + 1 - i
    {
      JoinedHere(s, i, d);
      if i == |s| || s[i].slot != Add32(s[i - 1].slot, 4) {
        var seg := s[start..i];
        CutPiece(s, start, i, g.dll, pieces);
        pieces := pieces + [Piece(g.dll, seg[0].slot, seg)];
        start := i;
      }
      i := i + 1;
    }
    assert s[..start] == s;
  }

  lemma EmptyRunSplit()
    ensures RunSplit([], [])
  {}

  /** Inside a group, two imports are joined exactly when their slots are adjacent. */
  lemma JoinedHere(s: seq<Import>, i: nat, d: nat)
    requires 0 < i && forall j | 0 <= j < |s| :: s[j].desc == d
    ensures i < |s| ==> (Joined(s[i - 1], s[i]) <==> s[i].slot == Add32(s[i - 1].slot, 4))
  {}

  lemma CutPiece(s: seq<Import>, start: nat, i: nat, dll: bytes, pieces: seq<Piece>)
    requires start < i <= |s| && RunSplit(s[..start], pieces)
    requires forall j | 0 <= j < |s| :: s[j].dll == dll
    requires forall j | start < j < i :: Joined(s[j - 1], s[j])
    requires 0 < start ==> !Joined(s[start - 1], s[start])
    ensures RunSplit(s[..i], pieces + [Piece(dll, s[start].slot, s[start..i])])
  {
    hide Joined, Flat;
    var p := Piece(dll, s[start].slot, s[start..i]);
    forall j | 1 <= j < |p.imps| ensures Joined(p.imps[j - 1], p.imps[j]) {
      assert p.imps[j - 1] == s[start + j - 1] && p.imps[j] == s[start + j];
    }
    assert IsRun(p);
    assert s[..i] == s[..start] + s[start..i];
    if pieces != [] {
      LastOfSplit(s[..start], pieces);
      assert s[..start][start - 1] == s[start - 1];
    }
    AppendRun(s[..start], pieces, p);
  }

  lemma LastOfSplit(s: seq<Import>, ps: seq<Piece>)
    requires RunSplit(s, ps) && ps != []
    ensures s != [] && ps[|ps| - 1].imps != [] && Last(ps[|ps| - 1]) == s[|s| - 1]
  {
    hide Flat, Joined, Pos;
    var k := |ps| - 1;
    assert IsRun(ps[k]);
    FlatSuffix(ps, k);
    OnePieceLeft(ps, k);
    assert s[Pos(ps, k)..] == ps[k].imps;
  }

  lemma OnePieceLeft(ps: seq<Piece>, k: nat)
    requires k == |ps| - 1
    ensures Flat(ps, k) == ps[k].imps
  {
    assert Flat(ps, k + 1) == [];
  }

  lemma AppendRun(s: seq<Import>, ps: seq<Piece>, p: Piece)
    requires RunSplit(s, ps) && IsRun(p)
    requires ps != [] ==> ps[|ps| - 1].imps != [] && !Joined(Last(ps[|ps| - 1]), p.imps[0])
    ensures RunSplit(s + p.imps, ps + [p])
  {
    hide Joined, IsRun;
    FlatConcat(ps, [p], 0);
    OnePieceLeft([p], 0);
    var qs := ps + [p];
    assert p.imps != [] by { RunNonEmpty(p); }
    forall i | 1 <= i < |qs| ensures Apart(qs, i) {
      if i < |ps| { assert Apart(ps, i); }
    }
  }

  lemma RunNonEmpty(p: Piece)
    requires IsRun(p)
    ensures p.imps != []
  {}

  /** Two splits whose boundary is not joined make one. */
  lemma {:induction false} ConcatSplits(s: seq<Import>, ps: seq<Piece>, t: seq<Import>, qs: seq<Piece>)
    requires RunSplit(s, ps) && RunSplit(t, qs)
    requires s != [] && t != [] ==> !Joined(s[|s| - 1], t[0])
    ensures RunSplit(s + t, ps + qs)
  {
    hide Joined;
    FlatConcat(ps, qs, 0);
    var rs := ps + qs;
    forall i | 0 <= i < |rs| ensures IsRun(rs[i]) {
      if i < |ps| { assert IsRun(ps[i]); } else { assert rs[i] == qs[i - |ps|]; }
    }
    forall i | 1 <= i < |rs| ensures Apart(rs, i) {
      if i < |ps| {
        assert Apart(ps, i);
      } else if i > |ps| {
        assert Apart(qs, i - |ps|);
      } else {
        LastOfSplit(s, ps);
        FirstOfSplit(t, qs);
      }
    }
  }

  lemma FirstOfSplit(t: seq<Import>, qs: seq<Piece>)
    requires RunSplit(t, qs) && qs != []
    ensures t != [] && qs[0].imps != [] && qs[0].imps[0] == t[0]
  {
    hide Joined;
    assert IsRun(qs[0]);
  }

  // ---------------------------------------------------------------- both loops together

  /** The DLLs of those descriptors none of whose imports survive. */
  function DroppedDlls(s: seq<Import>, bad: set<u32>, ds: seq<nat>): seq<bytes> {
    if ds == [] then []
    else
      var k := |ds| - 1;
      DroppedDlls(s, bad, ds[..k]) +
      if exists im | im in Kept(s, bad) :: im.desc == ds[k] then [] else [DllOf(s, ds[k])]
  }

  /** Go: the loop over the groups; the pieces and the DLLs left without imports. */
  method SplitGroups(groups: seq<Group>, ghost imports: seq<Import>, ghost bad: set<u32>)
    returns (pieces: seq<Piece>, dropped: seq<bytes>)
    requires Grouped(imports, bad, groups, DescsOf(imports))
    ensures RunSplit(Kept(imports, bad), pieces)
    ensures dropped == DroppedDlls(imports, bad, DescsOf(imports))
  {
    hide RunSplit, Kept, DescsOf, FlatGroups, Joined, GroupOf, Increasing, DllOf, DroppedDlls;
    pieces, dropped := [], [];
    ghost var ds := DescsOf(imports);
    EmptyRunSplit();
    FlatNone(groups);
    NoneDropped(imports, bad, ds);
    for k := 0 to |groups|
      invariant RunSplit(FlatGroups(groups[..k]), pieces)
      invariant dropped == DroppedDlls(imports, bad, ds[..k])
    {
      var g := groups[k];
      FlatStep(groups, k);
      DroppedStep(imports, bad, groups, ds, k);
      if |g.imps| == 0 {
        assert FlatGroups(groups[..k]) + [] == FlatGroups(groups[..k]);
        dropped := dropped + [g.dll];
      } else {
        var segs := SplitGroup(g, ds[k]);
        GroupBoundary(groups, ds, k);
        ConcatSplits(FlatGroups(groups[..k]), pieces, g.imps, segs);
        pieces := pieces + segs;
      }
    }
    assert groups[..|groups|] == groups && ds[..|groups|] == ds;
  }

  lemma NoneDropped(s: seq<Import>, bad: set<u32>, ds: seq<nat>)
    ensures DroppedDlls(s, bad, ds[..0]) == []
  {}

  lemma DroppedStep(s: seq<Import>, bad: set<u32>, gs: seq<Group>, ds: seq<nat>, k: nat)
    requires Grouped(s, bad, gs, ds) && k < |gs|
    ensures DroppedDlls(s, bad, ds[..k + 1])
            == DroppedDlls(s, bad, ds[..k]) + if gs[k].imps != [] then [] else [gs[k].dll]
  {
    hide Kept, DescsOf, FlatGroups, DllOf;
    assert ds[..k + 1][..k] == ds[..k];
    InFlatGroups(gs);
    assert GroupOf(gs[k], ds[k]);
    if gs[k].imps != [] {
      assert gs[k].imps[0] in Kept(s, bad) by { assert gs[k].imps[0] in gs[k].imps; }
    } else {
      forall im | im in Kept(s, bad) ensures im.desc != ds[k] {
        var i :| 0 <= i < |gs| && im in gs[i].imps;
        assert GroupOf(gs[i], ds[i]);
      }
    }
  }

  lemma {:induction false} InFlatGroups(gs: seq<Group>)
    ensures forall im :: im in FlatGroups(gs) <==> exists i | 0 <= i < |gs| :: im in gs[i].imps
  {
    if gs == [] {
    } else {
      var k := |gs| - 1;
      InFlatGroups(gs[..k]);
      forall im ensures im in FlatGroups(gs) <==> exists i | 0 <= i < |gs| :: im in gs[i].imps {
        if i :| 0 <= i < |gs| && im in gs[i].imps {
          if i < k { assert im in gs[..k][i].imps; }
        }
      }
    }
  }

  lemma FlatNone(gs: seq<Group>)
    ensures FlatGroups(gs[..0]) == []
  {}

  lemma FlatStep(gs: seq<Group>, k: nat)
    requires k < |gs|
    ensures FlatGroups(gs[..k + 1]) == FlatGroups(gs[..k]) + gs[k].imps
  {
    assert gs[..k + 1][..k] == gs[..k];
  }

  /** Imports of earlier groups belong to smaller descriptors, so they never join a later group. */
  lemma GroupBoundary(gs: seq<Group>, ds: seq<nat>, k: nat)
    requires k < |gs| == |ds| && Increasing(ds)
    requires forall i | 0 <= i < |gs| :: GroupOf(gs[i], ds[i])
    ensures var s := FlatGroups(gs[..k]);
            s != [] && gs[k].imps != [] ==> !Joined(s[|s| - 1], gs[k].imps[0])
  {
    hide FlatGroups;
    FlatBelow(gs, ds, k, ds[k]);
    assert GroupOf(gs[k], ds[k]);
  }

  lemma {:induction false} FlatBelow(gs: seq<Group>, ds: seq<nat>, k: nat, d: nat)
    requires k <= |gs| == |ds|
    requires forall i | 0 <= i < |gs| :: GroupOf(gs[i], ds[i])
    requires forall i | 0 <= i < k :: ds[i] < d
    ensures forall i | 0 <= i < |FlatGroups(gs[..k])| :: FlatGroups(gs[..k])[i].desc < d
  {
    hide FlatGroups;
    if k == 0 {
      FlatNone(gs);
    } else {
      FlatBelow(gs, ds, k - 1, d);
      FlatStep(gs, k - 1);
      assert GroupOf(gs[k - 1], ds[k - 1]);
    }
  }
}
