/** What the list of dropped DLLs means, and exactly when it can be trusted. */
module Dropped {
  import opened Bytes
  import opened ImportReader
  import opened Runs
  import opened Grouping

  /** Every import of descriptor d is redirected. */
  ghost predicate LosesAll(s: seq<Import>, bad: set<u32>, d: nat) {
    forall im | im in s && im.desc == d :: im.slot in bad
  }

  lemma SurvivorOrLost(s: seq<Import>, bad: set<u32>, d: nat)
    ensures (exists im | im in Kept(s, bad) :: im.desc == d) <==> !LosesAll(s, bad, d)
  {
    hide Kept;
    KeptMembers(s, bad);
  }

  ghost predicate LostNamed(s: seq<Import>, bad: set<u32>, ds: seq<nat>, x: bytes) {
    exists k | 0 <= k < |ds| :: DllOf(s, ds[k]) == x && LosesAll(s, bad, ds[k])
  }

  lemma {:induction false} DroppedIn(s: seq<Import>, bad: set<u32>, ds: seq<nat>, x: bytes)
    ensures x in DroppedDlls(s, bad, ds) <==> LostNamed(s, bad, ds, x)
    decreases |ds|
  {
    hide Kept, DllOf, LosesAll;
    if ds == [] {
    } else {
      var k := |ds| - 1;
      DroppedIn(s, bad, ds[..k], x);
      SurvivorOrLost(s, bad, ds[k]);
      assert LostNamed(s, bad, ds, x) <==> LostNamed(s, bad, ds[..k], x) || (DllOf(s, ds[k]) == x && LosesAll(s, bad, ds[k])) by {
        assert forall i | 0 <= i < k :: ds[..k][i] == ds[i];
      }
    }
  }

  lemma {:induction false} DescMember(s: seq<Import>, d: nat)
    ensures d in DescsOf(s) <==> exists im | im in s :: im.desc == d
    decreases |s|
  {
    if s == [] {
    } else {
      var k := |s| - 1;
      DescMember(s[..k], d);
      assert s == s[..k] + [s[k]];
      assert s[k] in s;
    }
  }

  lemma {:induction false} DllOfImport(s: seq<Import>, im: Import)
    requires Ordered(s) && im in s
    ensures DllOf(s, im.desc) == im.dll
    decreases |s|
  {
    hide WellFormed;
    var k := |s| - 1;
    var i :| 0 <= i < |s| && s[i] == im;
    if s[k].desc == im.desc {
      assert i < k ==> InOrder(s[i], s[k]);
    } else {
      assert s[..k][i] == im;
      DllOfImport(s[..k], im);
    }
  }

  /** A DLL is reported as dropped exactly when some descriptor of that name loses all its imports. */
  lemma DroppedMeans(s: seq<Import>, bad: set<u32>, x: bytes)
    requires Ordered(s)
    ensures x in DroppedDlls(s, bad, DescsOf(s)) <==> exists im | im in s :: im.dll == x && LosesAll(s, bad, im.desc)
  {
    hide Ordered, DroppedDlls, DescsOf, DllOf, LosesAll;
    var ds := DescsOf(s);
    DroppedIn(s, bad, ds, x);
    if k: nat :| k < |ds| && DllOf(s, ds[k]) == x && LosesAll(s, bad, ds[k]) {
      assert ds[k] in ds;
      DescMember(s, ds[k]);
      var im :| im in s && im.desc == ds[k];
      DllOfImport(s, im);
    }
    if im :| im in s && im.dll == x && LosesAll(s, bad, im.desc) {
      DescMember(s, im.desc);
      DllOfImport(s, im);
      var k :| 0 <= k < |ds| && ds[k] == im.desc;
    }
  }

  /** The report names the DLLs of exactly the descriptors that lose all their imports, each once and in order. */
  lemma {:induction false} DroppedPlaces(s: seq<Import>, bad: set<u32>, ds: seq<nat>) returns (at: seq<nat>)
    ensures Places(at, |ds|) && |at| == |DroppedDlls(s, bad, ds)|
    ensures forall k | 0 <= k < |at| :: DroppedDlls(s, bad, ds)[k] == DllOf(s, ds[at[k]])
    ensures forall i | 0 <= i < |ds| :: i in at <==> LosesAll(s, bad, ds[i])
    decreases |ds|
  {
    hide Places, LosesAll, Kept, DllOf, DroppedDlls;
    if ds == [] {
      at := [];
      NoPlaces();
      NoneReported(s, bad);
    } else {
      var n := |ds| - 1;
      at := DroppedPlaces(s, bad, ds[..n]);
      PlacesMore(at, n);
      PlacesBelow(at, n);
      LastReported(s, bad, ds);
      forall i | 0 <= i < n ensures ds[..n][i] == ds[i] {}
      if LosesAll(s, bad, ds[n]) { at := at + [n]; }
    }
  }

  lemma NoneReported(s: seq<Import>, bad: set<u32>)
    ensures DroppedDlls(s, bad, []) == []
  {}

  lemma LastReported(s: seq<Import>, bad: set<u32>, ds: seq<nat>)
    requires ds != []
    ensures var n := |ds| - 1;
            DroppedDlls(s, bad, ds) == DroppedDlls(s, bad, ds[..n]) + if LosesAll(s, bad, ds[n]) then [DllOf(s, ds[n])] else []
  {
    hide LosesAll, Kept, DllOf;
    SurvivorOrLost(s, bad, ds[|ds| - 1]);
  }

  /** Without redirected slots no DLL is reported. */
  lemma NothingDropped(s: seq<Import>)
    requires Ordered(s)
    ensures DroppedDlls(s, {}, DescsOf(s)) == []
  {
    hide Ordered, DroppedDlls, DescsOf;
    var d := DroppedDlls(s, {}, DescsOf(s));
    if d != [] {
      assert d[0] in d;
      DroppedMeans(s, {}, d[0]);
    }
  }

  /** Nothing is still imported from a DLL that is reported as dropped. */
  ghost predicate DroppedAreGone(s: seq<Import>, bad: set<u32>) {
    forall x, im | x in DroppedDlls(s, bad, DescsOf(s)) && im in Kept(s, bad) :: im.dll != x
  }

  /** A DLL that keeps an import keeps one in each of its descriptors. */
  ghost predicate DllsKeptThroughout(s: seq<Import>, bad: set<u32>) {
    forall a, b | a in s && b in s && a.dll == b.dll && b.slot !in bad :: !LosesAll(s, bad, a.desc)
  }

  /** The report of dropped DLLs is right if and only if every DLL is kept throughout or lost throughout. */
  lemma DroppedAreGoneIff(s: seq<Import>, bad: set<u32>)
    requires Ordered(s)
    ensures DroppedAreGone(s, bad) <==> DllsKeptThroughout(s, bad)
  {
    hide Ordered, DroppedDlls, DescsOf, LosesAll, Kept;
    KeptMembers(s, bad);
    if DroppedAreGone(s, bad) {
      forall a, b | a in s && b in s && a.dll == b.dll && b.slot !in bad ensures !LosesAll(s, bad, a.desc) {
        DroppedMeans(s, bad, a.dll);
        assert b in Kept(s, bad);
      }
    }
    if DllsKeptThroughout(s, bad) {
      forall x, im | x in DroppedDlls(s, bad, DescsOf(s)) && im in Kept(s, bad) ensures im.dll != x {
        DroppedMeans(s, bad, x);
        var a :| a in s && a.dll == x && LosesAll(s, bad, a.desc);
      }
    }
  }
}
