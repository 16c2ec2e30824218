/** Reading the import table of an image: Go's type reader and its walk over descriptors and lookup tables. */
module ImportReader {
  import opened Bytes
  import opened Image

  /** One entry of the import table. The name is empty when the import is by ordinal. */
  datatype Import = Import(dll: bytes, name: bytes, ordinal: u16, slot: u32, desc: nat)

  /**
   * The outcome of a walk over a table. Addresses wrap around at 2^32, so a walk can come back to the address it
   * started at without having met an error or the end; it then goes on for ever, which is the outcome Endless.
   */
  datatype Walk<+T> = Done(value: T) | Failed | Endless

  /** Steps of 4 bytes, and equally steps of 20, are back at the first address after this many. */
  const ROUND: nat := 0x4000_0000

  /** The bytes of a file and its section table. */
  datatype View = View(raw: bytes, secs: seq<Section>)

  const ORDINAL_FLAG: int := 0x8000_0000

  function U32At(v: View, rva: u32): Option<u32> {
    match OffIn(v.secs, |v.raw|, rva)
    case None => None
    case Some(o) => if o + 4 > |v.raw| then None else Some(LE32(v.raw, o))
  }

  /** Go drops the error of the name and thunk reads, which leaves zero. */
  function U32OrZero(v: View, rva: u32): u32 {
    match U32At(v, rva)
    case None => 0
    case Some(x) => x
  }

  function CStrAt(v: View, rva: u32): Option<bytes> {
    match OffIn(v.secs, |v.raw|, rva)
    case None => None
    case Some(o) => StrAt(v.raw, o)
  }

  /** The import that a nonzero lookup entry describes. */
  function Entry(v: View, dll: bytes, x: u32, slot: u32, desc: nat): Option<Import> {
    if x >= ORDINAL_FLAG then Some(Import(dll, [], x % 0x1_0000, slot, desc))
    else match CStrAt(v, x + 2)
      case None => None
      case Some(name) => Some(Import(dll, name, 0, slot, desc))
  }

  function Prepend<T>(s: seq<T>, w: Walk<seq<T>>): Walk<seq<T>> {
    if w.Done? then Done(s + w.value) else w
  }

  /**
   * The imports of one descriptor, from the lookup entry at the given address on. After n further entries the walk
   * would be back where it started.
   */
  function Thunks(v: View, dll: bytes, lookup: u32, slot: u32, desc: nat, n: nat): Walk<seq<Import>>
    decreases n
  {
    match U32At(v, lookup)
    case None => Failed
    case Some(x) =>
      if x == 0 then Done([])
      else match Entry(v, dll, x, slot, desc)
        case None => Failed
        case Some(im) =>
          if n == 0 then Endless
          else Prepend([im], Thunks(v, dll, Add32(lookup, 4), Add32(slot, 4), desc, n - 1))
  }

  /** The three descriptor fields that matter: OriginalFirstThunk, Name and FirstThunk. */
  function NameRva(v: View, d: u32): u32 { U32OrZero(v, Add32(d, 12)) }
  function FirstThunk(v: View, d: u32): u32 { U32OrZero(v, Add32(d, 16)) }

  /** The imports of the descriptor at d. */
  function OneDescriptor(v: View, d: u32, oft: u32, desc: nat): Walk<seq<Import>> {
    match CStrAt(v, NameRva(v, d))
    case None => Failed
    case Some(dll) =>
      var ft := FirstThunk(v, d);
      Thunks(v, dll, if oft == 0 then ft else oft, ft, desc, ROUND - 1)
  }

  /** The imports of the descriptors from address d on; desc numbers the first of them. */
  function Descriptors(v: View, d: u32, desc: nat, n: nat): Walk<seq<Import>>
    decreases n
  {
    match U32At(v, d)
    case None => Failed
    case Some(oft) =>
      if oft == 0 && NameRva(v, d) == 0 && FirstThunk(v, d) == 0 then Done([])
      else match OneDescriptor(v, d, oft, desc)
        case Done(s) => if n == 0 then Endless else Prepend(s, Descriptors(v, Add32(d, 20), desc + 1, n - 1))
        case Failed => Failed
        case Endless => Endless
  }

  /** The imports of the directory at dir. */
  function ImportsAt(v: View, dir: u32): Walk<seq<Import>> { Descriptors(v, dir, 0, ROUND - 1) }

  /** The word at an address is zero, or cannot be read, which counts as zero. */
  ghost predicate NoWord(v: View, rva: u32) { U32At(v, rva) == None || U32At(v, rva) == Some(0) }

  /** Which descriptor ends the table: one whose lookup table is zero, and whose name and slots are zero or unreadable. */
  lemma TableEndIff(v: View, d: u32, desc: nat, n: nat)
    requires U32At(v, d).Some?
    ensures (U32At(v, d) == Some(0) && NameRva(v, d) == 0 && FirstThunk(v, d) == 0)
            <==> U32At(v, d) == Some(0) && NoWord(v, (d + 12) % W32) && NoWord(v, (d + 16) % W32)
    ensures U32At(v, d) == Some(0) && NoWord(v, (d + 12) % W32) && NoWord(v, (d + 16) % W32)
            ==> Descriptors(v, d, desc, n) == Done([])
  {
    hide U32At;
  }

  /** Addition in 32 bits. */
  function Wrap(x: int): u32 { x % W32 }

  lemma WrapStep(x: int, k: u32)
    ensures Wrap(x + k) == Add32(Wrap(x), k)
  {}

  lemma WrapSmall(x: u32)
    ensures Wrap(x) == x
  {}

  // ---------------------------------------------------------------- the loops

  /** Go: type reader. */
  class Reader {
    const raw: bytes
    const secs: seq<Section>

    constructor (b: bytes, s: seq<Section>)
      ensures raw == b && secs == s
    {
      raw, secs := b, s;
    }

    function V(): View { View(raw, secs) }

    /** Maps an RVA to a file offset. */
    method Off(rva: u32) returns (r: Option<nat>)
      ensures r == OffIn(secs, |raw|, rva)
    {
      var i := 0;
      assert secs[0..] == secs;
      while i < |secs|
        invariant i <= |secs|
        invariant OffIn(secs, |raw|, rva) == OffIn(secs[i..], |raw|, rva)
      {
        var s := secs[i];
        assert secs[i..][1..] == secs[i + 1..];
        if rva >= s.va && rva < s.va + s.vs {
          var delta := rva - s.va;
          var off := delta + s.rawPtr;
          if delta < s.rawSize && off < |raw| {
            return Some(off);
          }
          return None;
        }
        i := i + 1;
      }
      return None;
    }

    method U32(rva: u32) returns (r: Option<u32>)
      ensures r == U32At(V(), rva)
    {
      var o := Off(rva);
      if o.None? || o.value + 4 > |raw| {
        return None;
      }
      return Some(LE32(raw, o.value));
    }

    /** The index of the first NUL at or behind o, |raw| when there is none. */
    method IndexNul(o: nat) returns (e: nat)
      requires o <= |raw|
      ensures o <= e <= |raw|
      ensures forall i | o <= i < e :: raw[i] != 0
      ensures e < |raw| ==> raw[e] == 0
    {
      e := o;
      while e < |raw| && raw[e] != 0
        invariant o <= e <= |raw|
        invariant forall i | o <= i < e :: raw[i] != 0
      {
        e := e + 1;
      }
    }

    method CStr(rva: u32) returns (r: Option<bytes>)
      ensures r == CStrAt(V(), rva)
    {
      var o := Off(rva);
      if o.None? {
        return None;
      }
      var e := IndexNul(o.value);
      StrAtIndex(raw, o.value, e);
      if e == |raw| {
        return None;
      }
      return Some(raw[o.value..e]);
    }

    /**
     * The inner loop of imports: one descriptor's lookup table. Where the original would start over at the first
     * entry, the model stops and says so.
     */
    method ReadThunks(dll: bytes, lookup: u32, ft: u32, desc: nat) returns (r: Walk<seq<Import>>)
      ensures r == Thunks(V(), dll, lookup, ft, desc, ROUND - 1)
    {
      hide U32At, Entry, CStrAt, Wrap;
      var out: seq<Import> := [];
      var i := 0;
      PrependNothing(Thunks(V(), dll, lookup, ft, desc, ROUND - 1));
      WrapSmall(lookup);
      WrapSmall(ft);
      while true
        invariant 0 <= i < ROUND
        invariant Thunks(V(), dll, lookup, ft, desc, ROUND - 1)
                  == Prepend(out, Thunks(V(), dll, Wrap(lookup + 4 * i), Wrap(ft + 4 * i), desc, ROUND - 1 - i))
        decreases ROUND - i
      {
        var v := U32(Wrap(lookup + 4 * i));
        if v.None? {
          return Failed;
        }
        if v.value == 0 {
          assert out + [] == out;
          return Done(out);
        }
        var im := ReadEntry(dll, v.value, Wrap(ft + 4 * i), desc);
        if im.None? {
          return Failed;
        }
        if i == ROUND - 1 {
          return Endless;
        }
        WrapStep(lookup + 4 * i, 4);
        WrapStep(ft + 4 * i, 4);
        PrependTwice(out, im.value, Thunks(V(), dll, Wrap(lookup + 4 * (i + 1)), Wrap(ft + 4 * (i + 1)), desc, ROUND - 2 - i));
        out := out + [im.value];
        i := i + 1;
      }
    }

    method ReadEntry(dll: bytes, v: u32, slot: u32, desc: nat) returns (r: Option<Import>)
      ensures r == Entry(V(), dll, v, slot, desc)
    {
      if v >= ORDINAL_FLAG {
        return Some(Import(dll, [], v % 0x1_0000, slot, desc));
      }
      var name := CStr(v + 2);
      if name.None? {
        return None;
      }
      return Some(Import(dll, name.value, 0, slot, desc));
    }

    method U32Zero(rva: u32) returns (r: u32)
      ensures r == U32OrZero(V(), rva)
    {
      var x := U32(rva);
      r := if x.None? then 0 else x.value;
    }

    /** Go: imports, the walk over the descriptor array at dir. */
    method Imports(dir: u32) returns (r: Walk<seq<Import>>)
      ensures r == ImportsAt(V(), dir)
    {
      hide U32At, Thunks, CStrAt, U32OrZero, Wrap;
      var out: seq<Import> := [];
      var idx := 0;
      PrependNothing(ImportsAt(V(), dir));
      WrapSmall(dir);
      while true
        invariant 0 <= idx < ROUND
        invariant ImportsAt(V(), dir) == Prepend(out, Descriptors(V(), Wrap(dir + 20 * idx), idx, ROUND - 1 - idx))
        decreases ROUND - idx
      {
        var d := Wrap(dir + 20 * idx);
        var oft := U32(d);
        if oft.None? {
          return Failed;
        }
        var nameRVA := U32Zero(Add32(d, 12));
        var ft := U32Zero(Add32(d, 16));
        if oft.value == 0 && nameRVA == 0 && ft == 0 {
          assert out + [] == out;
          return Done(out);
        }
        var dll := CStr(nameRVA);
        if dll.None? {
          return Failed;
        }
        var lookup := if oft.value == 0 then ft else oft.value;
        var one := ReadThunks(dll.value, lookup, ft, idx);
        if !one.Done? {
          return one;
        }
        if idx == ROUND - 1 {
          return Endless;
        }
        WrapStep(dir + 20 * idx, 20);
        PrependMore(out, one.value, Descriptors(V(), Wrap(dir + 20 * (idx + 1)), idx + 1, ROUND - 2 - idx));
        out := out + one.value;
        idx := idx + 1;
      }
    }
  }

  lemma StrAtIndex(b: bytes, o: nat, e: nat)
    requires o <= e <= |b|
    requires forall i | o <= i < e :: b[i] != 0
    requires e < |b| ==> b[e] == 0
    ensures StrAt(b, o) == if e == |b| then None else Some(b[o..e])
    decreases e - o
  {
    if o < e {
      StrAtIndex(b, o + 1, e);
      assert b[o..e] == [b[o]] + b[o + 1..e];
    } else {
      assert b[o..e] == [];
    }
  }

  lemma PrependNothing<T>(w: Walk<seq<T>>)
    ensures Prepend([], w) == w
  {
    if w.Done? { assert [] + w.value == w.value; }
  }

  lemma PrependTwice<T>(s: seq<T>, x: T, w: Walk<seq<T>>)
    ensures Prepend(s, Prepend([x], w)) == Prepend(s + [x], w)
  {
    PrependMore(s, [x], w);
  }

  lemma PrependMore<T>(s: seq<T>, t: seq<T>, w: Walk<seq<T>>)
    ensures Prepend(s, Prepend(t, w)) == Prepend(s + t, w)
  {
    if w.Done? { assert s + (t + w.value) == (s + t) + w.value; }
  }

  // ---------------------------------------------------------------- what the walk yields

  predicate NulFree(s: bytes) { forall i | 0 <= i < |s| :: s[i] != 0 }

  /** An import as the reader builds it: names without NULs, an ordinal only when there is no name. */
  predicate WellFormed(im: Import) {
    NulFree(im.dll) && NulFree(im.name) && (im.name != [] ==> im.ordinal == 0)
  }

  /** A list of imports in descriptor order, all imports of one descriptor naming the same DLL. */
  ghost predicate Ordered(s: seq<Import>) {
    && (forall i | 0 <= i < |s| :: WellFormed(s[i]))
    && (forall i, j | 0 <= i < j < |s| :: InOrder(s[i], s[j]))
  }

  ghost predicate InOrder(a: Import, b: Import) {
    a.desc <= b.desc && (a.desc == b.desc ==> a.dll == b.dll)
  }

  ghost predicate AllOf(s: seq<Import>, dll: bytes, desc: nat) {
    forall i | 0 <= i < |s| :: s[i].dll == dll && s[i].desc == desc && WellFormed(s[i])
  }

  lemma CStrNulFree(v: View, rva: u32)
    ensures CStrAt(v, rva).Some? ==> NulFree(CStrAt(v, rva).value)
  {}

  lemma EntryWellFormed(v: View, dll: bytes, x: u32, slot: u32, desc: nat)
    requires NulFree(dll)
    ensures Entry(v, dll, x, slot, desc).Some? ==> WellFormed(Entry(v, dll, x, slot, desc).value)
  {
    hide CStrAt;
    if x < ORDINAL_FLAG { CStrNulFree(v, x + 2); }
  }

  /** All imports of a descriptor carry its DLL and number. */
  lemma {:induction false} ThunksShape(v: View, dll: bytes, lookup: u32, slot: u32, desc: nat, n: nat)
    requires NulFree(dll)
    ensures var w := Thunks(v, dll, lookup, slot, desc, n);
            w.Done? ==> AllOf(w.value, dll, desc)
    decreases n
  {
    hide U32At, Entry, NulFree, WellFormed;
    var x := U32At(v, lookup);
    if x.Some? && x.value != 0 {
      var im := Entry(v, dll, x.value, slot, desc);
      EntryFields(v, dll, x.value, slot, desc);
      EntryWellFormed(v, dll, x.value, slot, desc);
      if im.Some? && n > 0 {
        ThunksShape(v, dll, Add32(lookup, 4), Add32(slot, 4), desc, n - 1);
      }
    }
  }

  lemma EntryFields(v: View, dll: bytes, x: u32, slot: u32, desc: nat)
    ensures var im := Entry(v, dll, x, slot, desc);
            im.Some? ==> im.value.dll == dll && im.value.desc == desc && im.value.slot == slot
  {}

  /** The reader lists imports in descriptor order, one DLL name per descriptor. */
  lemma {:induction false} DescriptorsShape(v: View, d: u32, desc: nat, n: nat)
    ensures var w := Descriptors(v, d, desc, n);
            w.Done? ==> Ordered(w.value) && forall i | 0 <= i < |w.value| :: desc <= w.value[i].desc
    decreases n
  {
    hide U32At, CStrAt, Thunks, WellFormed, NulFree, U32OrZero;
    var oft := U32At(v, d);
    if oft.Some? {
      var dll := CStrAt(v, NameRva(v, d));
      var one := OneDescriptor(v, d, oft.value, desc);
      if dll.Some? && one.Done? && n > 0 {
        CStrNulFree(v, NameRva(v, d));
        var ft := FirstThunk(v, d);
        ThunksShape(v, dll.value, if oft.value == 0 then ft else oft.value, ft, desc, ROUND - 1);
        DescriptorsShape(v, Add32(d, 20), desc + 1, n - 1);
        var rest := Descriptors(v, Add32(d, 20), desc + 1, n - 1);
        if rest.Done? {
          OrderedAppend(one.value, rest.value, dll.value, desc);
        }
      }
    }
  }

  lemma OrderedAppend(s: seq<Import>, t: seq<Import>, dll: bytes, desc: nat)
    requires AllOf(s, dll, desc) && Ordered(t)
    requires forall i | 0 <= i < |t| :: desc + 1 <= t[i].desc
    ensures Ordered(s + t) && forall i | 0 <= i < |s + t| :: desc <= (s + t)[i].desc
  {
    hide WellFormed;
    var u := s + t;
    forall i, j | 0 <= i < j < |u| ensures InOrder(u[i], u[j]) {
      if |s| <= i {
        assert u[i] == t[i - |s|] && u[j] == t[j - |s|];
      }
    }
  }

  // ---------------------------------------------------------------- termination

  /** No section reaches the last 20 bytes of the address space. */
  ghost predicate EndsBelowTop(secs: seq<Section>) {
    forall i | 0 <= i < |secs| :: secs[i].va + secs[i].vs <= W32 - 20
  }

  lemma ReadableIsLow(v: View, rva: u32)
    requires EndsBelowTop(v.secs) && U32At(v, rva).Some?
    ensures rva + 20 < W32
  {
    hide OffIn;
    var k := OffInSome(v.secs, |v.raw|, rva);
  }

  /** When the sections end below the top of the address space, the inner walk ends: the addresses grow until it does. */
  lemma {:induction false} ThunksEnd(v: View, dll: bytes, lookup: u32, slot: u32, desc: nat, n: nat)
    requires EndsBelowTop(v.secs) && W32 - lookup <= 4 * (n + 1)
    ensures !Thunks(v, dll, lookup, slot, desc, n).Endless?
    decreases n
  {
    hide U32At, Entry, EndsBelowTop;
    var x := U32At(v, lookup);
    if x.Some? && x.value != 0 {
      ReadableIsLow(v, lookup);
      ThunksEnd(v, dll, lookup + 4, Add32(slot, 4), desc, n - 1);
    }
  }

  /** So does the outer walk. */
  lemma {:induction false} DescriptorsEnd(v: View, d: u32, desc: nat, n: nat)
    requires EndsBelowTop(v.secs) && W32 - d <= 20 * (n + 1)
    ensures !Descriptors(v, d, desc, n).Endless?
    decreases n
  {
    hide U32At, CStrAt, Thunks, U32OrZero, EndsBelowTop;
    var oft := U32At(v, d);
    if oft.Some? {
      ReadableIsLow(v, d);
      var dll := CStrAt(v, NameRva(v, d));
      if dll.Some? {
        var ft := FirstThunk(v, d);
        ThunksEnd(v, dll.value, if oft.value == 0 then ft else oft.value, ft, desc, ROUND - 1);
      }
      DescriptorsEnd(v, d + 20, desc + 1, n - 1);
    }
  }

  /** Reading the import table of an image whose sections end below the top of the address space terminates. */
  lemma ImportsEnd(v: View, dir: u32)
    requires EndsBelowTop(v.secs)
    ensures !ImportsAt(v, dir).Endless?
  {
    hide Descriptors, EndsBelowTop;
    DescriptorsEnd(v, dir, 0, ROUND - 1);
  }

  /**
   * Only a walk that finds an entry to follow at every address of its round is endless: step k reads at lookup + 4k,
   * and step ROUND would read where step 0 did.
   */
  lemma {:induction false} EndlessMeans(v: View, dll: bytes, lookup: u32, slot: u32, desc: nat, n: nat)
    ensures Thunks(v, dll, lookup, slot, desc, n).Endless? <==>
            forall k | 0 <= k <= n :: Follows(v, dll, Wrap(lookup + 4 * k))
    decreases n
  {
    hide U32At, Entry, Wrap, Follows;
    WrapSmall(lookup);
    FollowsHere(v, dll, lookup, slot, desc);
    if n > 0 && Follows(v, dll, lookup) {
      var next := Add32(lookup, 4);
      EndlessMeans(v, dll, next, Add32(slot, 4), desc, n - 1);
      forall k | 0 <= k <= n - 1 ensures Wrap(next + 4 * k) == Wrap(lookup + 4 * (k + 1)) {
        WrapAgain(lookup, k);
      }
      assert Follows(v, dll, Wrap(lookup + 4 * 0));
      forall k | 0 <= k <= n && forall j | 0 <= j <= n - 1 :: Follows(v, dll, Wrap(next + 4 * j))
        ensures Follows(v, dll, Wrap(lookup + 4 * k))
      {
        if k > 0 { assert Follows(v, dll, Wrap(next + 4 * (k - 1))); }
      }
      forall j | 0 <= j <= n - 1 && forall k | 0 <= k <= n :: Follows(v, dll, Wrap(lookup + 4 * k))
        ensures Follows(v, dll, Wrap(next + 4 * j))
      {
        assert Follows(v, dll, Wrap(lookup + 4 * (j + 1)));
      }
    } else {
      assert lookup + 4 * 0 == lookup;
    }
  }

  /** There is a nonzero, readable entry at the address. */
  predicate Follows(v: View, dll: bytes, at: u32) {
    match U32At(v, at)
    case None => false
    case Some(x) => x != 0 && Entry(v, dll, x, 0, 0).Some?
  }

  lemma FollowsHere(v: View, dll: bytes, lookup: u32, slot: u32, desc: nat)
    ensures Follows(v, dll, lookup) <==>
            U32At(v, lookup).Some? && U32At(v, lookup).value != 0 && Entry(v, dll, U32At(v, lookup).value, slot, desc).Some?
  {
    hide U32At, CStrAt;
  }

  lemma WrapAgain(x: u32, k: nat)
    ensures Wrap(Add32(x, 4) + 4 * k) == Wrap(x + 4 * (k + 1))
  {
    assert Add32(x, 4) + 4 * k == x + 4 * (k + 1) || Add32(x, 4) + 4 * k == x + 4 * (k + 1) - W32;
  }

  lemma RoundIsRound(x: u32)
    ensures Wrap(x + 4 * ROUND) == x && Wrap(x + 20 * ROUND) == x
  {}
}
