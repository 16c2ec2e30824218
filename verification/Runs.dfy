/** Surviving imports and their split into maximal runs of adjacent slots. */
module Runs {
  import opened Bytes
  import opened ImportReader

  /** The imports whose slot is not in bad, in order. */
  function Kept(s: seq<Import>, bad: set<u32>): seq<Import> {
    if s == [] then []
    else
      var k := |s| - 1;
      Kept(s[..k], bad) + (if s[k].slot in bad then [] else [s[k]])
  }

  lemma {:induction false} KeptMembers(s: seq<Import>, bad: set<u32>)
    ensures forall im :: im in Kept(s, bad) <==> im in s && im.slot !in bad
  {
    if s == [] {
    } else {
      var k := |s| - 1;
      assert s == s[..k] + [s[k]];
      KeptMembers(s[..k], bad);
    }
  }

  /** Increasing places in a list of length n. */
  ghost predicate Places(at: seq<nat>, n: nat) {
    && (forall k | 0 <= k < |at| :: at[k] < n)
    && forall i, k | 0 <= i < k < |at| :: at[i] < at[k]
  }

  lemma PlacesMore(at: seq<nat>, n: nat)
    requires Places(at, n)
    ensures Places(at, n + 1) && Places(at + [n], n + 1) && n !in at
  {}

  /** The survivors are the imports at exactly the places whose slot is not redirected, each once and in order. */
  lemma {:induction false} KeptPlaces(s: seq<Import>, bad: set<u32>) returns (at: seq<nat>)
    ensures Places(at, |s|) && |at| == |Kept(s, bad)|
    ensures forall k | 0 <= k < |at| :: Kept(s, bad)[k] == s[at[k]]
    ensures forall i | 0 <= i < |s| :: i in at <==> s[i].slot !in bad
    decreases |s|
  {
    hide Places, Kept;
    if s == [] {
      at := [];
      NoPlaces();
      NoneKept(bad);
    } else {
      var n := |s| - 1;
      at := KeptPlaces(s[..n], bad);
      PlacesMore(at, n);
      PlacesBelow(at, n);
      LastKept(s, bad);
      forall i | 0 <= i < n ensures s[..n][i] == s[i] {}
      if s[n].slot !in bad { at := at + [n]; }
    }
  }

  lemma NoneKept(bad: set<u32>)
    ensures Kept([], bad) == []
  {}

  lemma LastKept(s: seq<Import>, bad: set<u32>)
    requires s != []
    ensures var n := |s| - 1;
            Kept(s, bad) == Kept(s[..n], bad) + if s[n].slot in bad then [] else [s[n]]
  {}

  lemma NoPlaces()
    ensures Places([], 0)
  {}

  lemma PlacesBelow(at: seq<nat>, n: nat)
    requires Places(at, n)
    ensures forall k | 0 <= k < |at| :: at[k] < n
  {}

  lemma {:induction false} KeptAll(s: seq<Import>)
    ensures Kept(s, {}) == s
  {
    if s == [] {
    } else {
      KeptAll(s[..|s| - 1]);
      assert s == s[..|s| - 1] + [s[|s| - 1]];
    }
  }

  /** Filtering keeps the order. */
  lemma {:induction false} KeptOrdered(s: seq<Import>, bad: set<u32>)
    requires Ordered(s)
    ensures Ordered(Kept(s, bad))
    ensures Kept(s, bad) != [] ==> InOrder(Kept(s, bad)[|Kept(s, bad)| - 1], s[|s| - 1])
    ensures forall i | 0 <= i < |Kept(s, bad)| :: Kept(s, bad)[i] in s
    decreases |s|
  {
    hide Ordered, InOrder, Kept;
    if s == [] {
      NothingOrdered();
      NoneKept(bad);
    } else {
      var k := |s| - 1;
      var u := Kept(s[..k], bad);
      LastKept(s, bad);
      OrderedFront(s);
      KeptOrdered(s[..k], bad);
      if s[k].slot in bad {
        assert u + [] == u == Kept(s, bad);
      } else {
        KeptMembers(s[..k], bad);
        OrderedMore(s, u);
      }
      KeptMembers(s, bad);
      if Kept(s, bad) != [] { UpToLast(s, Kept(s, bad)[|Kept(s, bad)| - 1]); }
    }
  }

  lemma UpToLast(s: seq<Import>, im: Import)
    requires Ordered(s) && im in s
    ensures InOrder(im, s[|s| - 1])
  {
    hide WellFormed;
    var i :| 0 <= i < |s| && s[i] == im;
  }

  lemma NothingOrdered()
    ensures Ordered([])
  {}

  lemma OrderedFront(s: seq<Import>)
    requires Ordered(s) && s != []
    ensures Ordered(s[..|s| - 1])
  {
    hide WellFormed, InOrder;
    var u := s[..|s| - 1];
    forall i, j | 0 <= i < j < |u| ensures InOrder(u[i], u[j]) { assert InOrder(s[i], s[j]); }
    forall i | 0 <= i < |u| ensures WellFormed(u[i]) { assert WellFormed(s[i]); }
  }

  /** The last import of s goes behind any ordered selection of the others. */
  lemma OrderedMore(s: seq<Import>, u: seq<Import>)
    requires Ordered(s) && s != [] && Ordered(u) && forall im | im in u :: im in s[..|s| - 1]
    ensures Ordered(u + [s[|s| - 1]])
  {
    hide WellFormed, InOrder;
    var k := |s| - 1;
    var t := u + [s[k]];
    assert WellFormed(s[k]);
    forall i, j | 0 <= i < j < |t| ensures InOrder(t[i], t[j]) {
      if j < |u| {
        assert InOrder(u[i], u[j]);
      } else {
        assert u[i] in u;
        var n :| 0 <= n < k && s[..k][n] == u[i];
        assert InOrder(s[n], s[k]);
      }
    }
    forall i | 0 <= i < |t| ensures WellFormed(t[i]) {
      if i < |u| { assert WellFormed(u[i]); }
    }
  }

  // ---------------------------------------------------------------- runs

  /** b's slot follows a's directly, in the same descriptor. */
  predicate Joined(a: Import, b: Import) { a.desc == b.desc && b.slot == Add32(a.slot, 4) }

  /** The number of the run that import k belongs to. */
  function RunIndex(s: seq<Import>, k: nat): nat
    requires k < |s|
  {
    if k == 0 then 0 else RunIndex(s, k - 1) + if Joined(s[k - 1], s[k]) then 0 else 1
  }

  /** The same imports, each numbered by its run instead of its original descriptor. */
  function Renumbered(s: seq<Import>): (r: seq<Import>)
    ensures |r| == |s|
  {
    seq(|s|, k requires 0 <= k < |s| => s[k].(desc := RunIndex(s, k)))
  }

  /** A run: one descriptor of the rebuilt table. */
  datatype Piece = Piece(dll: bytes, ft: u32, imps: seq<Import>)

  ghost predicate IsRun(p: Piece) {
    && p.imps != []
    && p.ft == p.imps[0].slot
    && (forall j | 0 <= j < |p.imps| :: p.imps[j].dll == p.dll)
    && (forall j | 1 <= j < |p.imps| :: Joined(p.imps[j - 1], p.imps[j]))
  }

  /** The imports of the pieces from number i on. */
  function Flat(ps: seq<Piece>, i: nat): seq<Import>
    requires i <= |ps|
    decreases |ps| - i
  {
    if i == |ps| then [] else ps[i].imps + Flat(ps, i + 1)
  }

  function Last(p: Piece): Import
    requires p.imps != []
  {
    p.imps[|p.imps| - 1]
  }

  /** Pieces i - 1 and i could not be one run. */
  ghost predicate Apart(ps: seq<Piece>, i: nat)
    requires 1 <= i < |ps|
  {
    ps[i - 1].imps != [] && ps[i].imps != [] && !Joined(Last(ps[i - 1]), ps[i].imps[0])
  }

  /** ps splits s into maximal runs. */
  ghost predicate RunSplit(s: seq<Import>, ps: seq<Piece>) {
    && Flat(ps, 0) == s
    && (forall i | 0 <= i < |ps| :: IsRun(ps[i]))
    && (forall i | 1 <= i < |ps| :: Apart(ps, i))
  }

  // ---------------------------------------------------------------- flattening

  lemma {:induction false} FlatConcat(ps: seq<Piece>, qs: seq<Piece>, i: nat)
    requires i <= |ps|
    ensures Flat(ps + qs, i) == Flat(ps, i) + Flat(qs, 0)
    decreases |ps| - i
  {
    if i == |ps| {
      FlatShift(ps, qs, 0);
    } else {
      FlatConcat(ps, qs, i + 1);
      assert (ps + qs)[i] == ps[i];
      assert ps[i].imps + (Flat(ps, i + 1) + Flat(qs, 0)) == (ps[i].imps + Flat(ps, i + 1)) + Flat(qs, 0);
    }
  }

  lemma {:induction false} FlatShift(ps: seq<Piece>, qs: seq<Piece>, i: nat)
    requires i <= |qs|
    ensures Flat(ps + qs, |ps| + i) == Flat(qs, i)
    decreases |qs| - i
  {
    if i < |qs| {
      FlatShift(ps, qs, i + 1);
      assert (ps + qs)[|ps| + i] == qs[i];
    }
  }

  /** Position of piece i in the flattened list. */
  function Pos(ps: seq<Piece>, i: nat): nat
    requires i <= |ps|
  {
    if i == 0 then 0 else Pos(ps, i - 1) + |ps[i - 1].imps|
  }

  lemma {:induction false} FlatSuffix(ps: seq<Piece>, i: nat)
    requires i <= |ps|
    ensures Pos(ps, i) <= |Flat(ps, 0)| && Flat(ps, 0)[Pos(ps, i)..] == Flat(ps, i)
  {
    if i == 0 {
    } else {
      FlatSuffix(ps, i - 1);
      var s, n := Flat(ps, 0), Pos(ps, i - 1);
      assert s[n..] == ps[i - 1].imps + Flat(ps, i);
      assert s[n + |ps[i - 1].imps|..] == s[n..][|ps[i - 1].imps|..];
    }
  }

  lemma FlatAt(ps: seq<Piece>, i: nat, j: nat)
    requires i < |ps| && j < |ps[i].imps|
    ensures Pos(ps, i) + j < |Flat(ps, 0)| && Flat(ps, 0)[Pos(ps, i) + j] == ps[i].imps[j]
  {
    hide Pos;
    FlatSuffix(ps, i);
    assert Flat(ps, 0)[Pos(ps, i) + j] == Flat(ps, 0)[Pos(ps, i)..][j];
  }

  // ---------------------------------------------------------------- numbering

  /** The imports of the pieces from number i on, each numbered by its piece. */
  function Numbered(ps: seq<Piece>, i: nat): seq<Import>
    requires i <= |ps|
    decreases |ps| - i
  {
    if i == |ps| then [] else WithDesc(ps[i].imps, i) + Numbered(ps, i + 1)
  }

  function WithDesc(s: seq<Import>, d: nat): (r: seq<Import>)
    ensures |r| == |s|
  {
    seq(|s|, k requires 0 <= k < |s| => s[k].(desc := d))
  }

  /** Every import of piece i lies in run i. */
  lemma {:induction false} RunIndexOfPiece(s: seq<Import>, ps: seq<Piece>, i: nat, j: nat)
    requires RunSplit(s, ps) && i < |ps| && j < |ps[i].imps|
    ensures Pos(ps, i) + j < |s| && RunIndex(s, Pos(ps, i) + j) == i
    decreases i, j
  {
    hide Flat, Joined;
    FlatAt(ps, i, j);
    if j > 0 {
      RunIndexOfPiece(s, ps, i, j - 1);
      FlatAt(ps, i, j - 1);
      assert IsRun(ps[i]);
    } else if i > 0 {
      var m := |ps[i - 1].imps| - 1;
      assert IsRun(ps[i - 1]) && Apart(ps, i);
      RunIndexOfPiece(s, ps, i - 1, m);
      FlatAt(ps, i - 1, m);
    }
  }

  /** Numbering by piece is numbering by run. */
  lemma NumberedIsRenumbered(s: seq<Import>, ps: seq<Piece>)
    requires RunSplit(s, ps)
    ensures Numbered(ps, 0) == Renumbered(s)
  {
    NumberedSuffix(s, ps, 0);
  }

  lemma {:induction false} NumberedSuffix(s: seq<Import>, ps: seq<Piece>, i: nat)
    requires RunSplit(s, ps) && i <= |ps|
    ensures Pos(ps, i) <= |s| && Numbered(ps, i) == Renumbered(s)[Pos(ps, i)..]
    decreases |ps| - i
  {
    hide RunSplit, Renumbered, WithDesc, Pos, Flat, Numbered;
    if i == |ps| {
      NumberedEnd(s, ps);
    } else {
      NumberedSuffix(s, ps, i + 1);
      NumberedStep(ps, i);
      PieceNumbered(s, ps, i);
      CutOnce(Renumbered(s), Pos(ps, i), |ps[i].imps|);
    }
  }

  lemma NumberedEnd(s: seq<Import>, ps: seq<Piece>)
    requires RunSplit(s, ps)
    ensures Pos(ps, |ps|) == |s| && Numbered(ps, |ps|) == []
  {
    hide IsRun, Apart;
    FlatSuffix(ps, |ps|);
    assert s[Pos(ps, |ps|)..] == [];
  }

  lemma NumberedStep(ps: seq<Piece>, i: nat)
    requires i < |ps|
    ensures Numbered(ps, i) == WithDesc(ps[i].imps, i) + Numbered(ps, i + 1)
    ensures Pos(ps, i + 1) == Pos(ps, i) + |ps[i].imps|
  {
    hide WithDesc;
  }

  lemma CutOnce(s: seq<Import>, n: nat, m: nat)
    requires n + m <= |s|
    ensures s[n..] == s[n..n + m] + s[n + m..]
  {}

  lemma PieceNumbered(s: seq<Import>, ps: seq<Piece>, i: nat)
    requires RunSplit(s, ps) && i < |ps|
    ensures var n, m := Pos(ps, i), |ps[i].imps|;
            n + m <= |s| && Renumbered(s)[n..n + m] == WithDesc(ps[i].imps, i)
  {
    hide RunIndex, RunSplit, Pos, Flat;
    var n, m := Pos(ps, i), |ps[i].imps|;
    PieceFits(s, ps, i);
    forall j | 0 <= j < m
      ensures Renumbered(s)[n..n + m][j] == WithDesc(ps[i].imps, i)[j]
    {
      RunIndexOfPiece(s, ps, i, j);
      PieceAt(s, ps, i, j);
    }
  }

  lemma PieceAt(s: seq<Import>, ps: seq<Piece>, i: nat, j: nat)
    requires RunSplit(s, ps) && i < |ps| && j < |ps[i].imps|
    ensures Pos(ps, i) + j < |s| && s[Pos(ps, i) + j] == ps[i].imps[j]
  {
    hide Flat, Pos, IsRun, Apart;
    FlatAt(ps, i, j);
  }

  lemma PieceFits(s: seq<Import>, ps: seq<Piece>, i: nat)
    requires RunSplit(s, ps) && i < |ps|
    ensures Pos(ps, i) + |ps[i].imps| <= |s|
  {
    hide IsRun, Apart;
    FlatSuffix(ps, i + 1);
  }

  // ---------------------------------------------------------------- uniqueness and idempotence

  /** The maximal runs are unique: RunSplit determines the pieces. */
  lemma {:induction false} RunSplitUnique(s: seq<Import>, ps: seq<Piece>, qs: seq<Piece>)
    requires RunSplit(s, ps) && RunSplit(s, qs)
    ensures ps == qs
    decreases |ps|
  {
    if ps == [] || qs == [] {
      EmptySplit(s, ps);
      EmptySplit(s, qs);
    } else {
      var m, n := |ps[0].imps|, |qs[0].imps|;
      FirstRunNotLonger(s, ps, qs);
      FirstRunNotLonger(s, qs, ps);
      TailSplit(s, ps);
      TailSplit(s, qs);
      assert ps[0].imps == s[..m] == qs[0].imps;
      assert IsRun(ps[0]) && IsRun(qs[0]);
      RunSplitUnique(s[m..], ps[1..], qs[1..]);
      assert ps == [ps[0]] + ps[1..] && qs == [qs[0]] + qs[1..];
    }
  }

  lemma EmptySplit(s: seq<Import>, ps: seq<Piece>)
    requires RunSplit(s, ps)
    ensures ps == [] <==> s == []
  {
    if ps != [] { assert IsRun(ps[0]); }
  }

  lemma TailSplit(s: seq<Import>, ps: seq<Piece>)
    requires RunSplit(s, ps) && ps != []
    ensures var m := |ps[0].imps|;
            m <= |s| && ps[0].imps == s[..m] && RunSplit(s[m..], ps[1..])
  {
    hide IsRun, Joined;
    var qs := ps[1..];
    assert ps == [ps[0]] + qs;
    FlatShift([ps[0]], qs, 0);
    forall i | 0 <= i < |qs| ensures IsRun(qs[i]) { assert qs[i] == ps[i + 1]; }
    forall i | 1 <= i < |qs| ensures Apart(qs, i) { assert Apart(ps, i + 1); }
  }

  lemma FirstRunNotLonger(s: seq<Import>, ps: seq<Piece>, qs: seq<Piece>)
    requires RunSplit(s, ps) && RunSplit(s, qs) && ps != [] && qs != []
    ensures |qs[0].imps| <= |ps[0].imps|
  {
    hide Flat, Joined;
    var m := |ps[0].imps|;
    assert IsRun(ps[0]) && IsRun(qs[0]);
    if m < |qs[0].imps| {
      FlatAt(qs, 0, m);
      FlatAt(qs, 0, m - 1);
      FlatAt(ps, 0, m - 1);
      SecondPieceStarts(s, ps);
    }
  }

  /** If s goes on behind the first piece, it goes on with an import that is not joined to that piece. */
  lemma SecondPieceStarts(s: seq<Import>, ps: seq<Piece>)
    requires RunSplit(s, ps) && ps != []
    ensures var m := |ps[0].imps|;
            1 <= m <= |s| && (m < |s| ==> !Joined(s[m - 1], s[m]))
  {
    hide Joined;
    var m := |ps[0].imps|;
    assert IsRun(ps[0]);
    FlatAt(ps, 0, m - 1);
    if m < |s| {
      assert 1 < |ps|;
      assert Apart(ps, 1) && IsRun(ps[1]);
      FlatAt(ps, 1, 0);
    }
  }

  /** Numbering by run keeps the runs. */
  lemma {:induction false} RunIndexStable(s: seq<Import>, k: nat)
    requires k < |s|
    ensures RunIndex(Renumbered(s), k) == RunIndex(s, k)
  {
    if k > 0 { RunIndexStable(s, k - 1); }
  }

  /** Re-splitting an already split list changes nothing: every descriptor is one run. */
  lemma RenumberedIdempotent(s: seq<Import>)
    ensures Renumbered(Renumbered(s)) == Renumbered(s)
  {
    hide RunIndex;
    forall k | 0 <= k < |s| ensures RunIndex(Renumbered(s), k) == RunIndex(s, k) {
      RunIndexStable(s, k);
    }
  }
}
