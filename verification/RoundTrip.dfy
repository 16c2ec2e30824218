/**
 * Reading back a rebuilt import directory yields exactly the imports it was built from, as long as all its names lie
 * below 2^31.
 */
module RoundTrip {
  import opened Bytes
  import opened Image
  import opened ImportReader
  import opened Runs
  import opened Layout
  import opened Appending

  /** The section buf, described by ps, is mapped at address base of the view. */
  ghost predicate Loaded(v: View, base: u32, at: nat, buf: bytes, ps: seq<Piece>) {
    && Placed(v.raw, v.secs, base, at, buf)
    && Describes(buf, base, ps)
    && base + |buf| <= W32
    && CleanNames(ps)
    && forall i | 0 <= i < |ps| :: IsRun(ps[i])
  }

  lemma ReadWord(v: View, base: u32, at: nat, buf: bytes, o: nat)
    requires Placed(v.raw, v.secs, base, at, buf) && o + 4 <= |buf|
    ensures U32At(v, base + o) == Some(LE32(buf, o))
  {
    hide OffIn, Word;
    assert OffIn(v.secs, |v.raw|, base + o) == Some(at + o);
    assert v.raw[at + o] == buf[o] && v.raw[at + (o + 1)] == buf[o + 1];
    assert v.raw[at + (o + 2)] == buf[o + 2] && v.raw[at + (o + 3)] == buf[o + 3];
  }

  lemma ReadString(v: View, base: u32, at: nat, buf: bytes, o: nat, s: bytes)
    requires Placed(v.raw, v.secs, base, at, buf) && IsStr(buf, o, s)
    ensures base + o < W32 && CStrAt(v, base + o) == Some(s)
  {
    hide OffIn, StrAt;
    assert OffIn(v.secs, |v.raw|, base + o) == Some(at + o);
    assert v.raw[at + (o + |s|)] == buf[o + |s|];
    forall i | 0 <= i < |s| ensures v.raw[at + o + i] == s[i] != 0 {
      assert v.raw[at + (o + i)] == buf[o + i];
    }
    assert IsStr(v.raw, at + o, s);
    StrAtUnique(v.raw, at + o, s);
  }

  /**
   * A lookup entry is read as some import, and as the one it was written for if and only if that is by ordinal or its
   * hint/name entry lies below 2^31: above, bit 31 turns the address into an ordinal.
   */
  lemma ReadEntry(v: View, base: u32, at: nat, buf: bytes, ps: seq<Piece>, w: u32, im: Import, desc: nat)
    requires Placed(v.raw, v.secs, base, at, buf)
    requires EntryWord(buf, base, ps, w, im) && WellFormed(im)
    ensures w != 0 && Entry(v, im.dll, w, im.slot, desc).Some?
    ensures Entry(v, im.dll, w, im.slot, desc) == Some(im.(desc := desc)) <==> Low(ps, base, im)
  {
    hide Placed, CStrAt, NulFree, NameOffset;
    if im.name != [] {
      ReadString(v, base, at, buf, w - base + 2, im.name);
    }
  }

  /** The import is by ordinal, or its hint/name entry lies below 2^31. */
  predicate Low(ps: seq<Piece>, base: u32, im: Import) {
    im.name == [] || base + NameOffset(ps, im.name) < ORDINAL_FLAG
  }

  predicate AllLow(ps: seq<Piece>, base: u32, s: seq<Import>) { forall k | 0 <= k < |s| :: Low(ps, base, s[k]) }

  lemma LowConcat(ps: seq<Piece>, base: u32, s: seq<Import>, t: seq<Import>)
    ensures AllLow(ps, base, s + t) <==> AllLow(ps, base, s) && AllLow(ps, base, t)
  {
    hide Low;
    var u := s + t;
    if AllLow(ps, base, u) {
      forall k | 0 <= k < |s| ensures Low(ps, base, s[k]) { assert u[k] == s[k]; }
      forall k | 0 <= k < |t| ensures Low(ps, base, t[k]) { assert u[|s| + k] == t[k]; }
    }
    if AllLow(ps, base, s) && AllLow(ps, base, t) {
      forall k | 0 <= k < |u| ensures Low(ps, base, u[k]) {
        assert u[k] == if k < |s| then s[k] else t[k - |s|];
      }
    }
  }

  lemma LowStep(ps: seq<Piece>, base: u32, s: seq<Import>, j: nat)
    requires j < |s|
    ensures AllLow(ps, base, s[j..]) <==> Low(ps, base, s[j]) && AllLow(ps, base, s[j + 1..])
  {
    hide Low;
    assert s[j..] == [s[j]] + s[j + 1..];
    LowConcat(ps, base, [s[j]], s[j + 1..]);
    assert AllLow(ps, base, [s[j]]) <==> Low(ps, base, [s[j]][0]);
  }

  lemma NoneHigh(ps: seq<Piece>, base: u32)
    ensures AllLow(ps, base, [])
  {}

  /** The two parts of equal lists are equal. */
  lemma PartsEqual<T>(a: seq<T>, b: seq<T>, c: seq<T>, d: seq<T>)
    requires |a| == |c|
    ensures a + b == c + d <==> a == c && b == d
  {
    if a + b == c + d {
      assert (a + b)[..|a|] == a && (c + d)[..|c|] == c;
      assert (a + b)[|a|..] == b && (c + d)[|c|..] == d;
    }
  }

  lemma PieceFacts(v: View, base: u32, at: nat, buf: bytes, ps: seq<Piece>, i: nat)
    requires Loaded(v, base, at, buf, ps) && i < |ps|
    ensures Placed(v.raw, v.secs, base, at, buf) && DescribesPiece(buf, base, ps, i) && IsRun(ps[i])
    ensures forall j | 0 <= j < |ps[i].imps| :: WellFormed(ps[i].imps[j])
    ensures base + |buf| <= W32
  {
    hide Placed, DescribesPiece, IsRun, WellFormed, NulFree;
  }

  /** w is a complete list as long as s, and equal to s if and only if ok. */
  predicate ReadAs<T(==)>(w: Walk<seq<T>>, s: seq<T>, ok: bool) { w.Done? && |w.value| == |s| && (w.value == s <==> ok) }

  /** The lookup table of piece i, from entry j on. */
  lemma {:induction false} ReadPiece(v: View, base: u32, at: nat, buf: bytes, ps: seq<Piece>, i: nat, j: nat, slot: u32,
                                      n: nat)
    requires Loaded(v, base, at, buf, ps) && i < |ps| && j <= |ps[i].imps| <= j + n
    requires j < |ps[i].imps| ==> slot == ps[i].imps[j].slot
    ensures base + IntStart(ps, i) + 4 * j < W32
    ensures ReadAs(Thunks(v, ps[i].dll, base + IntStart(ps, i) + 4 * j, slot, i, n), WithDesc(ps[i].imps[j..], i),
                   AllLow(ps, base, ps[i].imps[j..]))
    decreases |ps[i].imps| - j
  {
    hide Loaded, Placed, U32At, Entry, EntryWord, WellFormed, LE32, IntStart, Low, AllLow;
    PieceFacts(v, base, at, buf, ps, i);
    var s, io := ps[i].imps, IntStart(ps, i);
    ReadWord(v, base, at, buf, io + 4 * j);
    if j == |s| {
      NoneHigh(ps, base);
    } else {
      ReadEntry(v, base, at, buf, ps, LE32(buf, io + 4 * j), s[j], i);
      var next := Add32(slot, 4);
      if j + 1 < |s| { assert Joined(s[j], s[j + 1]); }
      ReadPiece(v, base, at, buf, ps, i, j + 1, next, n - 1);
      assert WithDesc(s[j..], i) == [s[j].(desc := i)] + WithDesc(s[j + 1..], i);
      LowStep(ps, base, s, j);
      var e := Entry(v, s[j].dll, LE32(buf, io + 4 * j), slot, i).value;
      PartsEqual([e], Thunks(v, ps[i].dll, base + io + 4 * j + 4, next, i, n - 1).value,
                 [s[j].(desc := i)], WithDesc(s[j + 1..], i));
    }
  }

  lemma ReadDescriptor(v: View, base: u32, at: nat, buf: bytes, ps: seq<Piece>, i: nat)
    requires Loaded(v, base, at, buf, ps) && i < |ps|
    ensures base + 20 * i + 20 < W32
    ensures U32At(v, base + 20 * i) == Some(base + IntStart(ps, i)) && base + IntStart(ps, i) > 0
    ensures CStrAt(v, NameRva(v, base + 20 * i)) == Some(ps[i].dll)
    ensures FirstThunk(v, base + 20 * i) == ps[i].ft
  {
    hide Loaded, Placed, U32At, CStrAt, LE32, EntryWord, WellFormed, IntStart, IsRun;
    PieceFacts(v, base, at, buf, ps, i);
    IntStartsApart(ps, i, i);
    ReadWord(v, base, at, buf, 20 * i);
    ReadWord(v, base, at, buf, 20 * i + 12);
    ReadWord(v, base, at, buf, 20 * i + 16);
    ReadString(v, base, at, buf, LE32(buf, 20 * i + 12) - base, ps[i].dll);
  }

  lemma ReadOne(v: View, base: u32, at: nat, buf: bytes, ps: seq<Piece>, i: nat)
    requires Loaded(v, base, at, buf, ps) && i < |ps|
    ensures base + 20 * i + 20 < W32 && base + IntStart(ps, i) < W32
    ensures ReadAs(OneDescriptor(v, base + 20 * i, base + IntStart(ps, i), i), WithDesc(ps[i].imps, i),
                   AllLow(ps, base, ps[i].imps))
  {
    hide Loaded, Thunks, CStrAt, IntStart, U32OrZero, AllLow, WithDesc, ReadAs;
    ReadDescriptor(v, base, at, buf, ps, i);
    FirstSlot(v, base, at, buf, ps, i);
    FewEntries(v, base, at, buf, ps, i);
    ReadPiece(v, base, at, buf, ps, i, 0, ps[i].ft, ROUND - 1);
    assert ps[i].imps[0..] == ps[i].imps;
  }

  /** There is room for fewer entries and descriptors than a walk reads before it starts over. */
  lemma FewEntries(v: View, base: u32, at: nat, buf: bytes, ps: seq<Piece>, i: nat)
    requires Loaded(v, base, at, buf, ps) && i < |ps|
    ensures |ps[i].imps| < ROUND
  {
    hide Loaded, Placed, LE32, EntryWord, WellFormed, IntStart, IsRun;
    PieceFacts(v, base, at, buf, ps, i);
  }

  lemma FewDescriptors(v: View, base: u32, at: nat, buf: bytes, ps: seq<Piece>)
    requires Loaded(v, base, at, buf, ps)
    ensures |ps| < ROUND
  {
    hide Placed, DescribesPiece, CleanNames, IsRun;
    assert EmptyDescriptor(buf, 20 * |ps|);
  }

  lemma FirstSlot(v: View, base: u32, at: nat, buf: bytes, ps: seq<Piece>, i: nat)
    requires Loaded(v, base, at, buf, ps) && i < |ps|
    ensures ps[i].imps != [] && ps[i].ft == ps[i].imps[0].slot
  {
    hide Placed, Describes, CleanNames;
    assert IsRun(ps[i]);
  }

  lemma ReadTerminator(v: View, base: u32, at: nat, buf: bytes, ps: seq<Piece>)
    requires Loaded(v, base, at, buf, ps)
    ensures base + 20 * |ps| < W32
    ensures var d := base + 20 * |ps|;
            U32At(v, d) == Some(0) && NameRva(v, d) == 0 && FirstThunk(v, d) == 0
  {
    hide Placed, U32At, LE32, CleanNames, IsRun, DescribesPiece;
    var n := 20 * |ps|;
    assert EmptyDescriptor(buf, n);
    ZeroWord(buf, n);
    ZeroWord(buf, n + 12);
    ZeroWord(buf, n + 16);
    ReadWord(v, base, at, buf, n);
    ReadWord(v, base, at, buf, n + 12);
    ReadWord(v, base, at, buf, n + 16);
  }

  /** The descriptors from number i on read back as the pieces from number i on, if and only if these have no high names. */
  lemma {:induction false} ReadPieces(v: View, base: u32, at: nat, buf: bytes, ps: seq<Piece>, i: nat, n: nat)
    requires Loaded(v, base, at, buf, ps) && i <= |ps| <= i + n
    ensures base + 20 * i < W32
    ensures ReadAs(Descriptors(v, base + 20 * i, i, n), Numbered(ps, i), AllLow(ps, base, Flat(ps, i)))
    decreases |ps| - i
  {
    hide Loaded, U32At, U32OrZero, OneDescriptor, IntStart, AllLow, WithDesc;
    if i == |ps| {
      ReadTerminator(v, base, at, buf, ps);
      NoneHigh(ps, base);
    } else {
      ReadDescriptor(v, base, at, buf, ps, i);
      ReadOne(v, base, at, buf, ps, i);
      ReadPieces(v, base, at, buf, ps, i + 1, n - 1);
      LowConcat(ps, base, ps[i].imps, Flat(ps, i + 1));
      PartsEqual(OneDescriptor(v, base + 20 * i, base + IntStart(ps, i), i).value,
                 Descriptors(v, base + 20 * (i + 1), i + 1, n - 1).value, WithDesc(ps[i].imps, i), Numbered(ps, i + 1));
    }
  }

  /**
   * The imports read from a directory that describes the runs of s are s, numbered by run, if and only if all names lie
   * below 2^31.
   */
  lemma ReadBack(v: View, base: u32, at: nat, buf: bytes, s: seq<Import>, ps: seq<Piece>)
    requires Loaded(v, base, at, buf, ps) && RunSplit(s, ps)
    ensures ReadAs(ImportsAt(v, base), Renumbered(s), AllLow(ps, base, s))
  {
    hide Loaded, RunSplit, Descriptors, AllLow;
    FewDescriptors(v, base, at, buf, ps);
    ReadPieces(v, base, at, buf, ps, 0, ROUND - 1);
    NumberedIsRenumbered(s, ps);
    WholeFlat(s, ps);
  }

  lemma WholeFlat(s: seq<Import>, ps: seq<Piece>)
    requires RunSplit(s, ps)
    ensures Flat(ps, 0) == s
  {
    hide Flat, IsRun, Apart;
  }
}
