/** Target profiles, and the decision the patcher takes for one import. */
module Profiles {
  import opened Bytes
  import opened ImportReader
  import opened ShimTable

  /** What a target OS lacks, and the versions its loader accepts. */
  datatype Profile = Profile(osMajor: u16, osMinor: u16, subsysMajor: u16, subsysMinor: u16,
                             missing: map<bytes, seq<bytes>>, missingWhole: seq<bytes>)

  function Lower(c: u8): u8 { if 0x41 <= c <= 0x5A then c + 32 else c }

  predicate SameFolded(a: bytes, b: bytes) {
    |a| == |b| && forall i | 0 <= i < |a| :: Lower(a[i]) == Lower(b[i])
  }

  predicate CasePair(upper: u8, lower: u8) { 65 <= upper <= 90 && lower == upper + 32 }

  /** Equal but for the case of ASCII letters. */
  predicate SameButCase(a: bytes, b: bytes) {
    |a| == |b| && forall i | 0 <= i < |a| :: a[i] == b[i] || CasePair(a[i], b[i]) || CasePair(b[i], a[i])
  }

  lemma FoldedMeans(a: bytes, b: bytes)
    ensures SameFolded(a, b) <==> SameButCase(a, b)
  {}

  method EqFold(a: bytes, b: bytes) returns (r: bool)
    ensures r == SameFolded(a, b) == SameButCase(a, b)
  {
    FoldedMeans(a, b);
    if |a| != |b| {
      return false;
    }
    for i := 0 to |a|
      invariant forall k | 0 <= k < i :: Lower(a[k]) == Lower(b[k])
    {
      var ca: u8, cb: u8 := a[i], b[i];
      if 0x41 <= ca && ca <= 0x5A {
        ca := ca + 32;
      }
      if 0x41 <= cb && cb <= 0x5A {
        cb := cb + 32;
      }
      if ca != cb {
        return false;
      }
    }
    return true;
  }

  /** The target has no export fn in dll: the DLL is missing as a whole (any case), or lists fn (exact case). */
  predicate IsMissing(p: Profile, dll: bytes, fn: bytes) {
    (exists w | w in p.missingWhole :: SameFolded(w, dll)) || (dll in p.missing && fn in p.missing[dll])
  }

  /** The same in terms of the profile's entries. */
  ghost predicate Lacks(p: Profile, dll: bytes, fn: bytes) {
    || (exists i | 0 <= i < |p.missingWhole| :: SameButCase(p.missingWhole[i], dll))
    || (dll in p.missing && exists i | 0 <= i < |p.missing[dll]| :: p.missing[dll][i] == fn)
  }

  lemma MissingMeans(p: Profile, dll: bytes, fn: bytes)
    ensures IsMissing(p, dll, fn) <==> Lacks(p, dll, fn)
  {
    hide SameFolded, SameButCase;
    forall w ensures SameFolded(w, dll) <==> SameButCase(w, dll) { FoldedMeans(w, dll); }
    if w :| w in p.missingWhole && SameFolded(w, dll) {
      var i :| 0 <= i < |p.missingWhole| && p.missingWhole[i] == w;
    }
    if i :| 0 <= i < |p.missingWhole| && SameButCase(p.missingWhole[i], dll) {
      assert p.missingWhole[i] in p.missingWhole;
    }
  }

  method Missing(p: Profile, dll: bytes, fn: bytes) returns (r: bool)
    ensures r == IsMissing(p, dll, fn) == Lacks(p, dll, fn)
  {
    hide SameFolded, SameButCase;
    MissingMeans(p, dll, fn);
    for i := 0 to |p.missingWhole|
      invariant forall k | 0 <= k < i :: !SameFolded(p.missingWhole[k], dll)
    {
      var same := EqFold(p.missingWhole[i], dll);
      if same {
        assert p.missingWhole[i] in p.missingWhole;
        return true;
      }
    }
    var names := if dll in p.missing then p.missing[dll] else [];
    for i := 0 to |names|
      invariant forall k | 0 <= k < i :: names[k] != fn
    {
      if names[i] == fn {
        assert names[i] in names;
        return true;
      }
    }
    return false;
  }

  /** kernel32.dll, GetProcAddress and LoadLibraryExW. */
  const KERNEL32: bytes := Ascii("kernel32.dll")
  const GET_PROC_ADDRESS: bytes := Ascii("GetProcAddress")
  const LOAD_LIBRARY_EX_W: bytes := Ascii("LoadLibraryExW")

  predicate ForceHook(dll: bytes, fn: bytes) {
    SameFolded(dll, KERNEL32) && (fn == GET_PROC_ADDRESS || fn == LOAD_LIBRARY_EX_W)
  }

  /** dll!fn */
  function Key(dll: bytes, fn: bytes): bytes { dll + [0x21] + fn }

  /** The polyfill of each dll!fn; of several, the last in the table. */
  function PolyMap(t: seq<TableEntry>): map<bytes, u32> {
    if t == [] then map[]
    else
      var k := |t| - 1;
      if t[k].polyfill != 0 then PolyMap(t[..k])[Key(t[k].dll, t[k].func) := t[k].polyfill] else PolyMap(t[..k])
  }

  /** The addresses of the shim's own slots. */
  function OwnSlots(t: seq<TableEntry>): set<u32> {
    if t == [] then {}
    else
      var k := |t| - 1;
      if t[k].ownSlot != 0 then OwnSlots(t[..k]) + {t[k].ownSlot} else OwnSlots(t[..k])
  }

  /** Some record names va as a slot of the shim's own. */
  ghost predicate OwnRecord(t: seq<TableEntry>, va: u32) {
    exists i | 0 <= i < |t| :: t[i].ownSlot != 0 && t[i].ownSlot == va
  }

  lemma {:induction false} OwnSlotsMeans(t: seq<TableEntry>)
    ensures forall va :: va in OwnSlots(t) <==> OwnRecord(t, va)
  {
    if t == [] {
    } else {
      var n := |t| - 1;
      OwnSlotsMeans(t[..n]);
      forall va ensures va in OwnSlots(t) <==> OwnRecord(t, va) {
        if i :| 0 <= i < |t| && t[i].ownSlot != 0 && t[i].ownSlot == va {
          if i < n { assert t[..n][i] == t[i]; }
        }
      }
    }
  }

  /** Record i has a polyfill for the function called k, dll!fn in full. */
  predicate Provides(t: seq<TableEntry>, i: nat, k: bytes)
    requires i < |t|
  {
    t[i].polyfill != 0 && t[i].dll + [0x21] + t[i].func == k
  }

  /** Record i is the last that does. */
  ghost predicate LastProvides(t: seq<TableEntry>, i: nat, k: bytes) {
    i < |t| && Provides(t, i, k) && forall j | i < j < |t| :: !Provides(t, j, k)
  }

  ghost predicate NoneProvides(t: seq<TableEntry>, k: bytes) { forall i | 0 <= i < |t| :: !Provides(t, i, k) }

  /** va is the polyfill of that record. */
  ghost predicate LastPolyfill(t: seq<TableEntry>, k: bytes, va: u32) {
    exists i: nat :: LastProvides(t, i, k) && t[i].polyfill == va
  }

  lemma {:induction false} PolyMapLast(t: seq<TableEntry>, k: bytes)
    ensures k !in PolyMap(t) <==> NoneProvides(t, k)
    ensures forall va :: k in PolyMap(t) && PolyMap(t)[k] == va <==> LastPolyfill(t, k, va)
  {
    if t != [] {
      var n := |t| - 1;
      PolyMapLast(t[..n], k);
      forall i: nat | i < n ensures Provides(t, i, k) == Provides(t[..n], i, k) {}
      assert NoneProvides(t, k) <==> NoneProvides(t[..n], k) && !Provides(t, n, k);
      forall va
        ensures LastPolyfill(t, k, va) <==> if Provides(t, n, k) then t[n].polyfill == va else LastPolyfill(t[..n], k, va)
      {
        LastStep(t, k, va);
      }
    }
  }

  lemma LastStep(t: seq<TableEntry>, k: bytes, va: u32)
    requires t != []
    ensures var n := |t| - 1;
            LastPolyfill(t, k, va) <==> if Provides(t, n, k) then t[n].polyfill == va else LastPolyfill(t[..n], k, va)
  {
    hide Provides;
    var n := |t| - 1;
    forall i: nat | i < n ensures Provides(t, i, k) == Provides(t[..n], i, k) { SameRecord(t, n, i, k); }
    if Provides(t, n, k) {
      assert LastProvides(t, n, k);
      forall i: nat | LastProvides(t, i, k) ensures i == n {}
    } else {
      forall i: nat ensures LastProvides(t, i, k) <==> LastProvides(t[..n], i, k) {}
    }
  }

  lemma SameRecord(t: seq<TableEntry>, n: nat, i: nat, k: bytes)
    requires i < n <= |t|
    ensures Provides(t, i, k) == Provides(t[..n], i, k)
  {}

  method BuildMaps(t: seq<TableEntry>) returns (poly: map<bytes, u32>, own: set<u32>)
    ensures poly == PolyMap(t) && own == OwnSlots(t)
    ensures forall va :: va in own <==> OwnRecord(t, va)
    ensures forall k, va :: k in poly && poly[k] == va <==> LastPolyfill(t, k, va)
  {
    hide Key, OwnRecord, LastPolyfill, NoneProvides;
    poly, own := map[], {};
    for i := 0 to |t|
      invariant poly == PolyMap(t[..i]) && own == OwnSlots(t[..i])
    {
      assert t[..i + 1][..i] == t[..i];
      if t[i].polyfill != 0 {
        poly := poly[Key(t[i].dll, t[i].func) := t[i].polyfill];
      }
      if t[i].ownSlot != 0 {
        own := own + {t[i].ownSlot};
      }
    }
    assert t[..|t|] == t;
    OwnSlotsMeans(t);
    forall k, va ensures k in poly && poly[k] == va <==> LastPolyfill(t, k, va) {
      PolyMapLast(t, k);
    }
  }

  /** What happens to an import: left alone, its slot redirected to a polyfill, or the patch refused. */
  datatype Action = Leave | Redirect(va: u32) | Refuse

  /** The inputs of a patch that the decision depends on. */
  datatype Plan = Plan(prof: Profile, poly: map<bytes, u32>, own: set<u32>, imageBase: u32)

  predicate IsOwn(p: Plan, im: Import) { Add32(p.imageBase, im.slot) in p.own }

  function Decide(p: Plan, im: Import): Action {
    var k := Key(im.dll, im.name);
    if IsOwn(p, im) then Leave
    else if IsMissing(p.prof, im.dll, im.name) then (if k in p.poly then Redirect(p.poly[k]) else Refuse)
    else if ForceHook(im.dll, im.name) && k in p.poly then Redirect(p.poly[k])
    else Leave
  }

  method DecideImport(p: Plan, im: Import) returns (a: Action)
    ensures a == Decide(p, im)
  {
    hide IsMissing, Key;
    if Add32(p.imageBase, im.slot) in p.own {
      return Leave;
    }
    var missing := Missing(p.prof, im.dll, im.name);
    var k := Key(im.dll, im.name);
    if missing {
      if k in p.poly {
        return Redirect(p.poly[k]);
      }
      return Refuse;
    }
    if ForceHook(im.dll, im.name) && k in p.poly {
      return Redirect(p.poly[k]);
    }
    return Leave;
  }

  /** One of the two functions the shim hooks. */
  predicate Hooked(im: Import) {
    && SameButCase(im.dll, Ascii("kernel32.dll"))
    && (im.name == Ascii("GetProcAddress") || im.name == Ascii("LoadLibraryExW"))
  }

  /** The import as the table calls it. */
  function FullName(im: Import): bytes { im.dll + [0x21] + im.name }

  /**
   * The decision in terms of the profile and the table's records: own slots are left alone; what the target lacks, and
   * the hooked functions, go to the polyfill of the last record that provides them; a lacking function without a
   * polyfill is refused, everything else left alone.
   */
  lemma DecisionMeans(prof: Profile, t: seq<TableEntry>, base: u32, im: Import)
    ensures var d := Decide(Plan(prof, PolyMap(t), OwnSlots(t), base), im);
            var own := OwnRecord(t, Add32(base, im.slot));
            var lacks, none := Lacks(prof, im.dll, im.name), NoneProvides(t, FullName(im));
            && (d == Leave <==> own || (!lacks && (!Hooked(im) || none)))
            && (d == Refuse <==> !own && lacks && none)
            && forall va :: d == Redirect(va) <==>
                 !own && (lacks || Hooked(im)) && LastPolyfill(t, FullName(im), va)
  {
    hide IsMissing, Lacks, SameFolded, SameButCase, OwnRecord, LastPolyfill, NoneProvides, PolyMap, OwnSlots;
    MissingMeans(prof, im.dll, im.name);
    FoldedMeans(im.dll, KERNEL32);
    OwnSlotsMeans(t);
    PolyMapLast(t, FullName(im));
  }

  /** The slots that are redirected. */
  function BadSlots(p: Plan, s: seq<Import>): set<u32> {
    if s == [] then {}
    else
      var k := |s| - 1;
      if Decide(p, s[k]).Redirect? then BadSlots(p, s[..k]) + {s[k].slot} else BadSlots(p, s[..k])
  }

  lemma {:induction false} BadSlotsMeans(p: Plan, s: seq<Import>)
    ensures forall x :: x in BadSlots(p, s) <==> exists i | 0 <= i < |s| :: Decide(p, s[i]).Redirect? && s[i].slot == x
  {
    hide Decide;
    if s == [] {
    } else {
      var n := |s| - 1;
      BadSlotsMeans(p, s[..n]);
      forall x ensures x in BadSlots(p, s) <==> exists i | 0 <= i < |s| :: Decide(p, s[i]).Redirect? && s[i].slot == x {
        if i :| 0 <= i < |s| && Decide(p, s[i]).Redirect? && s[i].slot == x {
          if i < n { assert s[..n][i] == s[i]; }
        }
      }
    }
  }

  /** The number of an import's descriptor plays no part in the decision. */
  lemma DecideIgnoresDesc(p: Plan, im: Import, d: nat)
    ensures Decide(p, im.(desc := d)) == Decide(p, im)
  {}
}
