/** Writing polyfill addresses into import slots, in place. */
module Redirecting {
  import opened Bytes
  import opened Align
  import opened Image
  import opened RawImage
  import opened ImportReader
  import opened Runs
  import opened Profiles

  /** The four bytes from rva on are file data of section s. */
  predicate WordBacked(s: Section, rva: int) { Backs(s, rva) && Backs(s, rva + 3) }

  ghost predicate SlotBacked(secs: seq<Section>, rva: int) {
    exists k | 0 <= k < |secs| :: WordBacked(secs[k], rva)
  }

  /** The file offset of a slot, by the patcher's own map. */
  function SlotOff(secs: seq<Section>, sa: u32, rva: u32): nat {
    match FileOffIn(secs, sa, rva)
    case None => 0
    case Some(o) => o
  }

  /** A backed slot lies in the file behind the headers, and both maps agree on where. */
  lemma SlotPlace(secs: seq<Section>, h: Header, len: nat, rva: u32) returns (k: nat)
    requires SectionsOk(secs, h, len) && SlotBacked(secs, rva)
    ensures k < |secs| && WordBacked(secs[k], rva)
    ensures FileOffIn(secs, h.sectAlign, rva) == Some(SlotOff(secs, h.sectAlign, rva))
    ensures OffIn(secs, len, rva) == Some(SlotOff(secs, h.sectAlign, rva))
    ensures SlotOff(secs, h.sectAlign, rva) == rva - secs[k].va + secs[k].rawPtr
    ensures h.LastHdrEnd() <= SlotOff(secs, h.sectAlign, rva)
    ensures SlotOff(secs, h.sectAlign, rva) + 4 <= secs[k].rawPtr + secs[k].rawSize <= len
  {
    hide SectionsOk, FileOffIn, OffIn, AlignUp;
    k :| 0 <= k < |secs| && WordBacked(secs[k], rva);
    BackedMaps(secs, h, len, rva, k);
    SectionExtent(secs, h, len, k);
  }

  /** The bytes of a backed slot map to consecutive offsets. */
  lemma SlotAddress(secs: seq<Section>, h: Header, len: nat, slot: u32, x: int)
    requires SectionsOk(secs, h, len) && SlotBacked(secs, slot) && InWord(slot, x)
    ensures x < W32 && x < NextRva(secs, h)
    ensures OffIn(secs, len, x) == Some(SlotOff(secs, h.sectAlign, slot) + (x - slot))
  {
    hide SectionsOk, SlotOff, OffIn, AlignUp, FileOffIn, NextRva, SlotBacked, WordBacked;
    var k := SlotPlace(secs, h, len, slot);
    WordBytesBacked(secs[k], slot, x);
    NextIsBehind(secs, h, len);
    BackedMaps(secs, h, len, x, k);
  }

  lemma WordBytesBacked(s: Section, slot: u32, x: int)
    requires WordBacked(s, slot) && InWord(slot, x)
    ensures Backs(s, x) && x < s.va + s.vs
  {}

  /** A file offset inside a slot is reached only from addresses inside that slot. */
  lemma SlotBytesAreSlots(secs: seq<Section>, h: Header, len: nat, slot: u32, rva: u32)
    requires SectionsOk(secs, h, len) && SlotBacked(secs, slot)
    requires OffIn(secs, len, rva).Some?
    requires InWord(SlotOff(secs, h.sectAlign, slot), OffIn(secs, len, rva).value)
    ensures InWord(slot, rva)
  {
    hide SectionOk, SlotOff, PowerOfTwo, MaxRawEnd, MaxVEnd, FileOffIn, OffIn;
    var j := SlotPlace(secs, h, len, slot);
    var k := OffInSome(secs, len, rva);
    OneSection(secs, h, len, j, k, SlotOff(secs, h.sectAlign, slot), OffIn(secs, len, rva).value);
  }

  /** A byte of one section's data is not a byte of another's. */
  lemma OneSection(secs: seq<Section>, h: Header, len: nat, j: nat, k: nat, a: int, o: int)
    requires SectionsOk(secs, h, len) && j < |secs| && k < |secs|
    requires secs[j].rawPtr <= a && a <= o < a + 4 <= secs[j].rawPtr + secs[j].rawSize
    requires secs[k].rawPtr <= o < secs[k].rawPtr + secs[k].rawSize
    ensures j == k
  {
    hide SectionOk, PowerOfTwo, MaxRawEnd, MaxVEnd;
  }

  /** Byte i of the file belongs to one of the slots. */
  ghost predicate InSlots(secs: seq<Section>, sa: u32, slots: set<u32>, i: int) {
    exists s | s in slots :: SlotOff(secs, sa, s) <= i < SlotOff(secs, sa, s) + 4
  }

  /** b2 differs from b1 at most in the given slots. */
  ghost predicate SlotFrame(b1: bytes, b2: bytes, secs: seq<Section>, sa: u32, slots: set<u32>) {
    && |b1| == |b2|
    && forall i | 0 <= i < |b1| && !InSlots(secs, sa, slots, i) :: b2[i] == b1[i]
  }

  ghost predicate AllBacked(secs: seq<Section>, slots: set<u32>) {
    forall s | s in slots :: SlotBacked(secs, s)
  }

  /** Writing backed slots keeps the headers and the section table. */
  lemma SoundAfterSlots(b1: bytes, b2: bytes, h: Header, slots: set<u32>)
    requires Sound(b1, h) && AllBacked(Sections(b1, h), slots)
    requires SlotFrame(b1, b2, Sections(b1, h), h.sectAlign, slots)
    ensures Sound(b2, h) && Sections(b2, h) == Sections(b1, h)
  {
    hide ParseHeader, SectionsOk, SlotOff, SlotBacked;
    var secs := Sections(b1, h);
    forall i | 0 <= i < h.LastHdrEnd() ensures b2[i] == b1[i] {
      if InSlots(secs, h.sectAlign, slots, i) {
        var s :| s in slots && SlotOff(secs, h.sectAlign, s) <= i < SlotOff(secs, h.sectAlign, s) + 4;
        var k := SlotPlace(secs, h, |b1|, s);
      }
    }
    SameHeaders(b1, b2, h);
  }

  /** Files of one length that agree on all headers are sound together. */
  lemma SameHeaders(b1: bytes, b2: bytes, h: Header)
    requires Sound(b1, h) && |b1| == |b2|
    requires forall i | 0 <= i < h.LastHdrEnd() :: b2[i] == b1[i]
    ensures Sound(b2, h) && Sections(b2, h) == Sections(b1, h)
  {
    hide ParseHeader, SectionsOk;
    HeaderKept(b1, b2, h, h.LastHdrEnd(), |b1|);
    SameSections(b1, b2, h.firstSect, h.nSect);
  }

  /** Import k is redirected, its slot covers address x, and no later redirected import's slot does. */
  ghost predicate LastOver(p: Plan, s: seq<Import>, k: nat, x: int) {
    && k < |s| && Decide(p, s[k]).Redirect? && InWord(s[k].slot, x)
    && forall j | k < j < |s| && Decide(p, s[j]).Redirect? :: !InWord(s[j].slot, x)
  }

  /** Redirected slots that the patcher can map have file data. */
  ghost predicate RedirectsBacked(p: Plan, s: seq<Import>, secs: seq<Section>, sa: u32) {
    forall i | 0 <= i < |s| && Decide(p, s[i]).Redirect? && FileOffIn(secs, sa, s[i].slot).Some? ::
      SlotBacked(secs, s[i].slot)
  }

  /** The redirections, in import order. */
  function RedirectList(p: Plan, s: seq<Import>): seq<(Import, u32)> {
    if s == [] then []
    else
      var k := |s| - 1;
      match Decide(p, s[k])
      case Redirect(va) => RedirectList(p, s[..k]) + [(s[k], va)]
      case _ => RedirectList(p, s[..k])
  }

  /** The list names exactly the redirected imports, each once and in order, with where they go. */
  lemma {:induction false} RedirectPlaces(p: Plan, s: seq<Import>) returns (at: seq<nat>)
    ensures Places(at, |s|) && |at| == |RedirectList(p, s)|
    ensures forall k | 0 <= k < |at| ::
              RedirectList(p, s)[k].0 == s[at[k]] && Decide(p, s[at[k]]) == Redirect(RedirectList(p, s)[k].1)
    ensures forall i | 0 <= i < |s| :: i in at <==> Decide(p, s[i]).Redirect?
    decreases |s|
  {
    hide Places, Decide, RedirectList;
    if s == [] {
      at := [];
      NoPlaces();
      NoneListed(p);
    } else {
      var n := |s| - 1;
      at := RedirectPlaces(p, s[..n]);
      PlacesMore(at, n);
      PlacesBelow(at, n);
      LastListed(p, s);
      forall i | 0 <= i < n ensures s[..n][i] == s[i] {}
      if Decide(p, s[n]).Redirect? { at := at + [n]; }
    }
  }

  lemma NoneListed(p: Plan)
    ensures RedirectList(p, []) == []
  {}

  lemma LastListed(p: Plan, s: seq<Import>)
    requires s != []
    ensures var n := |s| - 1;
            RedirectList(p, s) == RedirectList(p, s[..n])
                                  + if Decide(p, s[n]).Redirect? then [(s[n], Decide(p, s[n]).va)] else []
  {
    hide Decide;
  }

  /** The state of the loop after the imports s. */
  ghost predicate Redirected(b1: bytes, b2: bytes, secs: seq<Section>, sa: u32, p: Plan, s: seq<Import>) {
    && AllBacked(secs, BadSlots(p, s))
    && SlotFrame(b1, b2, secs, sa, BadSlots(p, s))
    && forall k | 0 <= k < |s| :: Decide(p, s[k]) != Refuse
  }

  /** Each byte of a redirected slot is that of the polyfill's address, for the last redirected import that covers it. */
  ghost predicate Holds(b: bytes, secs: seq<Section>, sa: u32, p: Plan, s: seq<Import>) {
    forall k: nat, x: int | LastOver(p, s, k, x) :: HeldHere(b, secs, sa, s[k].slot, Decide(p, s[k]).va, x)
  }

  ghost predicate HeldHere(b: bytes, secs: seq<Section>, sa: u32, slot: u32, va: u32, x: int)
    requires InWord(slot, x)
  {
    var o := SlotOff(secs, sa, slot) + (x - slot);
    o < |b| && b[o] == Enc32(va)[x - slot]
  }

  /** Go: the import loop of Patch. It fails when a missing function has no polyfill or a slot no file offset. */
  method RedirectImports(r: Raw, p: Plan, imports: seq<Import>)
    returns (ok: bool, bad: set<u32>, redirected: seq<(Import, u32)>)
    requires Sound(r.Buf, r.Hdr())
    requires RedirectsBacked(p, imports, Sections(r.Buf, r.Hdr()), r.sectAlign)
    modifies r`Buf
    ensures Sound(r.Buf, r.Hdr())
    ensures Sections(r.Buf, r.Hdr()) == old(Sections(r.Buf, r.Hdr()))
    ensures ok <==> forall k | 0 <= k < |imports| ::
              Decide(p, imports[k]) != Refuse
              && (Decide(p, imports[k]).Redirect? ==> FileOffIn(Sections(r.Buf, r.Hdr()), r.sectAlign, imports[k].slot).Some?)
    ensures ok ==> bad == BadSlots(p, imports) && redirected == RedirectList(p, imports)
    ensures ok ==> Redirected(old(r.Buf), r.Buf, Sections(r.Buf, r.Hdr()), r.sectAlign, p, imports)
    ensures ok ==> Holds(r.Buf, Sections(r.Buf, r.Hdr()), r.sectAlign, p, imports)
  {
    hide Sound, Decide, Sections, FileOffIn, SlotOff, Redirected, Holds, BadSlots, RedirectList, Put32, ParseHeader;
    ok, bad, redirected := true, {}, [];
    ghost var b0, h := r.Buf, r.Hdr();
    SoundHeader(b0, h);
    ghost var secs := Sections(b0, h);
    NothingRedirected(b0, secs, r.sectAlign, p);
    assert imports[..0] == [];
    for i := 0 to |imports|
      invariant r.Hdr() == h && Sound(r.Buf, h) && ParseHeader(r.Buf) == Some(h) && 0x40 <= h.peOff
      invariant HeaderInFile(r.Buf, h) && Sections(r.Buf, h) == secs
      invariant bad == BadSlots(p, imports[..i]) && redirected == RedirectList(p, imports[..i])
      invariant Redirected(b0, r.Buf, secs, r.sectAlign, p, imports[..i])
      invariant forall k | 0 <= k < i ::
                  Decide(p, imports[k]) != Refuse
                  && (Decide(p, imports[k]).Redirect? ==> FileOffIn(secs, r.sectAlign, imports[k].slot).Some?)
      invariant Holds(r.Buf, secs, r.sectAlign, p, imports[..i])
    {
      var im := imports[i];
      var a := DecideImport(p, im);
      ListStep(p, imports, i);
      match a {
        case Refuse => ok := false; return;
        case Leave => LeaveStep(b0, r.Buf, secs, r.sectAlign, p, imports, i);
        case Redirect(va) =>
          var off := r.FileOff(im.slot);
          if off.None? {
            ok := false;
            return;
          }
          RedirectStep(b0, r.Buf, h, secs, p, imports, i, va);
          r.SetU32(off.value, va);
          bad := bad + {im.slot};
          redirected := redirected + [(im, va)];
          SoundHeader(r.Buf, h);
      }
    }
    assert imports[..|imports|] == imports;
  }

  lemma SoundHeader(b: bytes, h: Header)
    requires Sound(b, h)
    ensures ParseHeader(b) == Some(h) && 0x40 <= h.peOff && HeaderInFile(b, h)
  {
    hide ParseHeader;
  }

  lemma NothingRedirected(b: bytes, secs: seq<Section>, sa: u32, p: Plan)
    ensures Redirected(b, b, secs, sa, p, []) && Holds(b, secs, sa, p, [])
    ensures BadSlots(p, []) == {} && RedirectList(p, []) == []
  {}

  lemma ListStep(p: Plan, s: seq<Import>, i: nat)
    requires i < |s|
    ensures BadSlots(p, s[..i + 1]) == if Decide(p, s[i]).Redirect? then BadSlots(p, s[..i]) + {s[i].slot} else BadSlots(p, s[..i])
    ensures RedirectList(p, s[..i + 1]) == match Decide(p, s[i])
                                           case Redirect(va) => RedirectList(p, s[..i]) + [(s[i], va)]
                                           case _ => RedirectList(p, s[..i])
  {
    hide Decide;
    assert s[..i + 1][..i] == s[..i];
  }

  lemma LeaveStep(b0: bytes, b: bytes, secs: seq<Section>, sa: u32, p: Plan, s: seq<Import>, i: nat)
    requires i < |s| && Decide(p, s[i]) == Leave
    requires Redirected(b0, b, secs, sa, p, s[..i])
    ensures Redirected(b0, b, secs, sa, p, s[..i + 1])
    ensures Holds(b, secs, sa, p, s[..i]) ==> Holds(b, secs, sa, p, s[..i + 1])
  {
    hide Decide, SlotFrame, SlotBacked, BadSlots, Holds;
    ListStep(p, s, i);
    assert forall k | 0 <= k < i :: s[..i + 1][k] == s[..i][k];
    if Holds(b, secs, sa, p, s[..i]) { HoldsLeave(b, secs, sa, p, s, i); }
  }

  lemma HoldsLeave(b: bytes, secs: seq<Section>, sa: u32, p: Plan, s: seq<Import>, i: nat)
    requires i < |s| && !Decide(p, s[i]).Redirect? && Holds(b, secs, sa, p, s[..i])
    ensures Holds(b, secs, sa, p, s[..i + 1])
  {
    hide Decide, HeldHere, InWord;
    var t := s[..i + 1];
    forall k: nat, x: int | LastOver(p, t, k, x) ensures HeldHere(b, secs, sa, t[k].slot, Decide(p, t[k]).va, x) {
      EarlierLast(p, s, i, k, x);
    }
  }

  /** Who covered an address last among the first i + 1 imports did so among the first i, unless it is import i. */
  lemma EarlierLast(p: Plan, s: seq<Import>, i: nat, k: nat, x: int)
    requires i < |s| && LastOver(p, s[..i + 1], k, x)
    ensures k < i ==> LastOver(p, s[..i], k, x) && s[..i + 1][k] == s[..i][k]
    ensures k < i && Decide(p, s[i]).Redirect? ==> !InWord(s[i].slot, x)
    ensures k <= i && s[..i + 1][k] == s[k] && Decide(p, s[k]).Redirect? && InWord(s[k].slot, x)
  {
    hide Decide, InWord;
    var t := s[..i + 1];
    assert t[i] == s[i];
    assert forall j | 0 <= j < i :: s[..i][j] == t[j];
  }

  /** One write: the slot is backed, and all that was known survives it. */
  lemma RedirectStep(b0: bytes, b: bytes, h: Header, secs: seq<Section>, p: Plan, s: seq<Import>, i: nat, va: u32)
    requires i < |s| && Decide(p, s[i]) == Redirect(va)
    requires Sound(b0, h) && Sound(b, h) && secs == Sections(b0, h) == Sections(b, h)
    requires RedirectsBacked(p, s, secs, h.sectAlign)
    requires FileOffIn(secs, h.sectAlign, s[i].slot).Some?
    requires Redirected(b0, b, secs, h.sectAlign, p, s[..i])
    ensures var o := SlotOff(secs, h.sectAlign, s[i].slot);
            && FileOffIn(secs, h.sectAlign, s[i].slot) == Some(o) && o + 4 <= |b|
            && Sound(Put32(b, o, va), h) && Sections(Put32(b, o, va), h) == secs
            && Redirected(b0, Put32(b, o, va), secs, h.sectAlign, p, s[..i + 1])
            && (Holds(b, secs, h.sectAlign, p, s[..i]) ==> Holds(Put32(b, o, va), secs, h.sectAlign, p, s[..i + 1]))
  {
    hide Decide, SlotOff, BadSlots, Put32, Sound, Sections, SectionsOk, FileOffIn, SlotBacked, Holds, RedirectsBacked, SlotFrame;
    SoundSections(b0, h);
    SoundSections(b, h);
    SlotIsBacked(p, s, secs, h.sectAlign, i);
    var k := SlotPlace(secs, h, |b|, s[i].slot);
    var o := SlotOff(secs, h.sectAlign, s[i].slot);
    RedirectedStep(b0, b, secs, h.sectAlign, p, s, i, va);
    SoundAfterSlots(b0, Put32(b, o, va), h, BadSlots(p, s[..i + 1]));
    if Holds(b, secs, h.sectAlign, p, s[..i]) {
      HoldsStep(b, h, secs, p, s, i, va);
    }
  }

  lemma RedirectedStep(b0: bytes, b: bytes, secs: seq<Section>, sa: u32, p: Plan, s: seq<Import>, i: nat, va: u32)
    requires i < |s| && Decide(p, s[i]) == Redirect(va) && Redirected(b0, b, secs, sa, p, s[..i])
    requires SlotBacked(secs, s[i].slot) && SlotOff(secs, sa, s[i].slot) + 4 <= |b|
    ensures Redirected(b0, Put32(b, SlotOff(secs, sa, s[i].slot), va), secs, sa, p, s[..i + 1])
    ensures |b| == |b0|
  {
    hide Decide, SlotOff, BadSlots, RedirectList, Put32, SlotFrame, SlotBacked, AllBacked;
    ListStep(p, s, i);
    FrameStep(b0, b, secs, sa, BadSlots(p, s[..i]), s[i].slot, va);
    FrameLength(b0, b, secs, sa, BadSlots(p, s[..i]));
    OneMoreBacked(secs, BadSlots(p, s[..i]), s[i].slot);
    NoneRefused(p, s, i);
  }

  lemma NoneRefused(p: Plan, s: seq<Import>, i: nat)
    requires i < |s| && Decide(p, s[i]) != Refuse
    requires var t := s[..i]; forall k | 0 <= k < |t| :: Decide(p, t[k]) != Refuse
    ensures var t := s[..i + 1]; forall k | 0 <= k < |t| :: Decide(p, t[k]) != Refuse
  {
    hide Decide;
    var t := s[..i + 1];
    forall k | 0 <= k < |t| ensures Decide(p, t[k]) != Refuse {
      if k < i { assert t[k] == s[..i][k]; }
    }
  }

  lemma OneMoreBacked(secs: seq<Section>, slots: set<u32>, slot: u32)
    requires AllBacked(secs, slots) && SlotBacked(secs, slot)
    ensures AllBacked(secs, slots + {slot})
  {
    hide SlotBacked;
  }

  lemma FrameLength(b1: bytes, b2: bytes, secs: seq<Section>, sa: u32, slots: set<u32>)
    requires SlotFrame(b1, b2, secs, sa, slots)
    ensures |b1| == |b2|
  {
    hide SlotOff;
  }

  lemma SoundSections(b: bytes, h: Header)
    requires Sound(b, h)
    ensures SectionsOk(Sections(b, h), h, |b|)
  {
    hide ParseHeader, SectionsOk;
  }

  lemma SlotIsBacked(p: Plan, s: seq<Import>, secs: seq<Section>, sa: u32, i: nat)
    requires i < |s| && RedirectsBacked(p, s, secs, sa)
    requires Decide(p, s[i]).Redirect? && FileOffIn(secs, sa, s[i].slot).Some?
    ensures SlotBacked(secs, s[i].slot)
  {
    hide Decide, FileOffIn, SlotBacked;
  }

  lemma FrameStep(b0: bytes, b: bytes, secs: seq<Section>, sa: u32, slots: set<u32>, slot: u32, va: u32)
    requires SlotFrame(b0, b, secs, sa, slots) && SlotOff(secs, sa, slot) + 4 <= |b|
    ensures SlotFrame(b0, Put32(b, SlotOff(secs, sa, slot), va), secs, sa, slots + {slot})
  {
    hide SlotOff, Put32;
    var o := SlotOff(secs, sa, slot);
    forall i | 0 <= i < |b0| && !InSlots(secs, sa, slots + {slot}, i)
      ensures Put32(b, o, va)[i] == b0[i]
    {
      InMoreSlots(secs, sa, slots, slot, i);
    }
  }

  lemma InMoreSlots(secs: seq<Section>, sa: u32, slots: set<u32>, slot: u32, i: int)
    ensures InSlots(secs, sa, slots, i) ==> InSlots(secs, sa, slots + {slot}, i)
    ensures SlotOff(secs, sa, slot) <= i < SlotOff(secs, sa, slot) + 4 ==> InSlots(secs, sa, slots + {slot}, i)
  {
    hide SlotOff;
    var more := slots + {slot};
    assert slot in more;
    if InSlots(secs, sa, slots, i) {
      var t :| t in slots && SlotOff(secs, sa, t) <= i < SlotOff(secs, sa, t) + 4;
      assert t in more;
    }
  }

  lemma HoldsStep(b: bytes, h: Header, secs: seq<Section>, p: Plan, s: seq<Import>, i: nat, va: u32)
    requires i < |s| && Decide(p, s[i]) == Redirect(va)
    requires SectionsOk(secs, h, |b|) && AllBacked(secs, BadSlots(p, s[..i])) && SlotBacked(secs, s[i].slot)
    requires Holds(b, secs, h.sectAlign, p, s[..i])
    requires SlotOff(secs, h.sectAlign, s[i].slot) + 4 <= |b|
    ensures Holds(Put32(b, SlotOff(secs, h.sectAlign, s[i].slot), va), secs, h.sectAlign, p, s[..i + 1])
  {
    hide Decide, SlotOff, Put32, SectionsOk, SlotBacked, BadSlots, HeldHere, InWord, LastOver, Enc32;
    var t, o := s[..i + 1], SlotOff(secs, h.sectAlign, s[i].slot);
    var c := Put32(b, o, va);
    forall k: nat, x: int | LastOver(p, t, k, x)
      ensures k < |t| && InWord(t[k].slot, x) && Decide(p, t[k]).Redirect?
              && HeldHere(c, secs, h.sectAlign, t[k].slot, Decide(p, t[k]).va, x)
    {
      EarlierLast(p, s, i, k, x);
      if k < i {
        BadSlotsMeans(p, s[..i]);
        assert s[..i][k].slot in BadSlots(p, s[..i]);
        KeptHeld(b, h, secs, s[k].slot, Decide(p, s[k]).va, s[i].slot, va, x);
      } else {
        JustHeld(b, secs, h.sectAlign, s[i].slot, va, x);
      }
    }
  }

  /** A byte just written. */
  lemma JustHeld(b: bytes, secs: seq<Section>, sa: u32, slot: u32, va: u32, x: int)
    requires SlotOff(secs, sa, slot) + 4 <= |b| && InWord(slot, x)
    ensures HeldHere(Put32(b, SlotOff(secs, sa, slot), va), secs, sa, slot, va, x)
  {
    hide Put32, SlotOff, Enc32;
    assert Put32(b, SlotOff(secs, sa, slot), va)[SlotOff(secs, sa, slot) + (x - slot)] == Enc32(va)[x - slot];
  }

  /** A byte of another slot, when the slot written does not cover its address. */
  lemma KeptHeld(b: bytes, h: Header, secs: seq<Section>, slot: u32, va: u32, written: u32, v: u32, x: int)
    requires SectionsOk(secs, h, |b|) && SlotBacked(secs, slot) && SlotBacked(secs, written)
    requires InWord(slot, x) && !InWord(written, x) && HeldHere(b, secs, h.sectAlign, slot, va, x)
    requires SlotOff(secs, h.sectAlign, written) + 4 <= |b|
    ensures HeldHere(Put32(b, SlotOff(secs, h.sectAlign, written), v), secs, h.sectAlign, slot, va, x)
  {
    hide Put32, SlotOff, SectionsOk, SlotBacked, OffIn, Enc32, FileOffIn;
    SlotAddress(secs, h, |b|, slot, x);
    if InWord(SlotOff(secs, h.sectAlign, written), SlotOff(secs, h.sectAlign, slot) + (x - slot)) {
      SlotBytesAreSlots(secs, h, |b|, written, x);
    }
  }
}
