/** GO2XPTBL: finding the shim's table in a file by its magic, and parsing the records. */
module ShimTable {
  import opened Bytes
  import opened ImportReader

  /** One record: a polyfill for dll!func, an own slot of the shim for it, or both. */
  datatype TableEntry = TableEntry(dll: bytes, func: bytes, polyfill: u32, ownSlot: u32)

  /** The ASCII bytes of GO2XPTBL. */
  const MAGIC: bytes := [0x47, 0x4F, 0x32, 0x58, 0x50, 0x54, 0x42, 0x4C]

  predicate MagicAt(b: bytes, o: nat) { o + 8 <= |b| && b[o..o + 8] == MAGIC }

  /** A magic followed by a complete header of version 1. */
  predicate Candidate(b: bytes, o: nat) { MagicAt(b, o) && o + 16 <= |b| && LE32(b, o + 8) == 1 }

  /** The name at a virtual address. */
  function NameAtVa(v: View, base: u32, va: u32): Option<bytes> {
    if va < base then None else CStrAt(v, va - base)
  }

  function RecordAt(v: View, base: u32, e: nat): Option<TableEntry>
    requires e + 16 <= |v.raw|
  {
    match (NameAtVa(v, base, LE32(v.raw, e)), NameAtVa(v, base, LE32(v.raw, e + 4)))
    case (Some(dll), Some(fn)) =>
      if dll == [] || fn == [] then None
      else Some(TableEntry(dll, fn, LE32(v.raw, e + 8), LE32(v.raw, e + 12)))
    case _ => None
  }

  /** The first n records from offset e on; None when one of them is invalid. */
  function Records(v: View, base: u32, e: nat, n: nat): (r: Option<seq<TableEntry>>)
    requires e + 16 * n <= |v.raw|
    ensures r.Some? ==> |r.value| == n
  {
    if n == 0 then Some([])
    else match Records(v, base, e, n - 1)
      case None => None
      case Some(s) =>
        match RecordAt(v, base, e + 16 * (n - 1))
        case None => None
        case Some(t) => Some(s + [t])
  }

  /** The table at offset o. */
  function TableAt(v: View, base: u32, o: nat): Option<seq<TableEntry>>
    requires o + 16 <= |v.raw|
  {
    var n := LE32(v.raw, o + 12);
    if n == 0 || n > (|v.raw| - o - 16) / 16 then None else Records(v, base, o + 16, n)
  }

  /** The table of a candidate at o; None when there is no candidate or it does not parse. */
  function ValidAt(v: View, base: u32, o: nat): Option<seq<TableEntry>> {
    if Candidate(v.raw, o) then TableAt(v, base, o) else None
  }

  /** Found the table, found only invalid candidates (an error), or found no candidate (no table, no error). */
  datatype Scan = Found(entries: seq<TableEntry>) | Invalid | Absent

  /** The reference: try every offset from o on, in order. */
  function ScanFrom(v: View, base: u32, o: nat): Scan
    requires o <= |v.raw|
    decreases |v.raw| - o
  {
    if o == |v.raw| then Absent
    else
      var rest := ScanFrom(v, base, o + 1);
      match ValidAt(v, base, o)
      case Some(es) => Found(es)
      case None => if Candidate(v.raw, o) && !rest.Found? then Invalid else rest
  }

  // ---------------------------------------------------------------- what a table is

  /** The non-empty name at a virtual address. */
  ghost predicate NamedBy(v: View, base: u32, va: u32, s: bytes) { base <= va && CStrAt(v, va - base) == Some(s) && s != [] }

  /** Sixteen bytes at e: the addresses of two names, of the polyfill and of the own slot. */
  ghost predicate IsRecord(v: View, base: u32, e: nat, t: TableEntry) {
    && e + 16 <= |v.raw|
    && NamedBy(v, base, LE32(v.raw, e), t.dll) && NamedBy(v, base, LE32(v.raw, e + 4), t.func)
    && LE32(v.raw, e + 8) == t.polyfill && LE32(v.raw, e + 12) == t.ownSlot
  }

  /** At o: the magic and a complete header of version 1. */
  predicate LooksLikeTable(b: bytes, o: nat) {
    o + 16 <= |b| && b[o..o + 8] == Ascii("GO2XPTBL") && LE32(b, o + 8) == 1
  }

  lemma CandidateIff(b: bytes, o: nat)
    ensures Candidate(b, o) <==> LooksLikeTable(b, o)
  {
    hide LE32;
    MagicText();
  }

  /** At o: the magic, version 1, the number of records, which is not zero, and that many records. */
  ghost predicate IsTable(v: View, base: u32, o: nat, es: seq<TableEntry>) {
    && o + 16 + 16 * |es| <= |v.raw| && v.raw[o..o + 8] == Ascii("GO2XPTBL")
    && LE32(v.raw, o + 8) == 1 && LE32(v.raw, o + 12) == |es| != 0
    && forall k | 0 <= k < |es| :: IsRecord(v, base, o + 16 + 16 * k, es[k])
  }

  lemma RecordIff(v: View, base: u32, e: nat, t: TableEntry)
    requires e + 16 <= |v.raw|
    ensures RecordAt(v, base, e) == Some(t) <==> IsRecord(v, base, e, t)
  {
    hide CStrAt, LE32;
  }

  lemma {:induction false} RecordsIff(v: View, base: u32, e: nat, n: nat, es: seq<TableEntry>)
    requires e + 16 * n <= |v.raw|
    ensures Records(v, base, e, n) == Some(es) <==> |es| == n && forall k | 0 <= k < n :: IsRecord(v, base, e + 16 * k, es[k])
    decreases n
  {
    hide RecordAt, IsRecord;
    if n > 0 {
      var u := if |es| == n then es[..n - 1] else es;
      RecordsIff(v, base, e, n - 1, u);
      if |es| == n {
        RecordIff(v, base, e + 16 * (n - 1), es[n - 1]);
        assert es == u + [es[n - 1]];
        assert forall k | 0 <= k < n - 1 :: u[k] == es[k];
      }
    }
  }

  /** A place holds a valid table exactly when it has that format. */
  lemma TableIff(v: View, base: u32, o: nat, es: seq<TableEntry>)
    ensures ValidAt(v, base, o) == Some(es) <==> IsTable(v, base, o, es)
  {
    hide LE32, IsRecord, Records, Candidate, MAGIC, Ascii;
    CandidateIff(v.raw, o);
    if o + 16 <= |v.raw| {
      var n: nat := LE32(v.raw, o + 12);
      CountFits(|v.raw|, o, n);
      if o + 16 + 16 * n <= |v.raw| { RecordsIff(v, base, o + 16, n, es); }
    }
  }

  lemma CountFits(len: nat, o: nat, n: nat)
    requires o + 16 <= len
    ensures n <= (len - o - 16) / 16 <==> o + 16 + 16 * n <= len
  {}

  lemma MagicText()
    ensures MAGIC == Ascii("GO2XPTBL")
  {}

  // ---------------------------------------------------------------- the scanning loop

  /** Go: bytes.Index from start on; |b| stands for its -1. */
  method IndexMagic(b: bytes, start: nat) returns (i: nat)
    requires start <= |b|
    ensures start <= i <= |b|
    ensures forall o | start <= o < i :: !MagicAt(b, o)
    ensures i < |b| ==> MagicAt(b, i)
  {
    hide MagicAt;
    i := start;
    while i < |b| && !MagicAt(b, i)
      invariant start <= i <= |b|
      invariant forall o | start <= o < i :: !MagicAt(b, o)
    {
      i := i + 1;
    }
  }

  /** Go: cstr on a virtual address, with the range check of tableAt. */
  method ReadName(r: Reader, base: u32, va: u32) returns (s: Option<bytes>)
    ensures s == NameAtVa(r.V(), base, va)
  {
    if va < base {
      return None;
    }
    s := r.CStr(va - base);
  }

  method ReadRecord(r: Reader, base: u32, e: nat) returns (t: Option<TableEntry>)
    requires e + 16 <= |r.raw|
    ensures t == RecordAt(r.V(), base, e)
  {
    hide NameAtVa, LE32;
    var dll := ReadName(r, base, LE32(r.raw, e));
    var fn := ReadName(r, base, LE32(r.raw, e + 4));
    if dll.None? || fn.None? || dll.value == [] || fn.value == [] {
      return None;
    }
    return Some(TableEntry(dll.value, fn.value, LE32(r.raw, e + 8), LE32(r.raw, e + 12)));
  }

  /** Go: tableAt. */
  method ReadTableAt(r: Reader, base: u32, o: nat) returns (t: Option<seq<TableEntry>>)
    requires o + 16 <= |r.raw|
    ensures t == TableAt(r.V(), base, o)
  {
    hide RecordAt, LE32;
    var count := LE32(r.raw, o + 12);
    if count == 0 || count > (|r.raw| - o - 16) / 16 {
      return None;
    }
    var out: seq<TableEntry> := [];
    for i := 0 to count
      invariant Records(r.V(), base, o + 16, i) == Some(out)
    {
      var e := ReadRecord(r, base, o + 16 + i * 16);
      if e.None? {
        RecordsStop(r.V(), base, o + 16, i + 1, count);
        return None;
      }
      out := out + [e.value];
    }
    return Some(out);
  }

  lemma {:induction false} RecordsStop(v: View, base: u32, e: nat, i: nat, n: nat)
    requires i <= n && e + 16 * n <= |v.raw|
    requires Records(v, base, e, i) == None
    ensures Records(v, base, e, n) == None
    decreases n
  {
    hide RecordAt;
    if i < n { RecordsStop(v, base, e, i, n - 1); }
  }

  /** Go: table. It resumes 8 bytes behind each occurrence of the magic and still misses no candidate. */
  method ReadTable(r: Reader, base: u32) returns (res: Scan)
    ensures res == ScanFrom(r.V(), base, 0)
  {
    hide Candidate, MagicAt, TableAt;
    var start := 0;
    var invalid := false;
    while start < |r.raw|
      invariant start <= |r.raw|
      invariant ScanFrom(r.V(), base, 0) == AfterInvalid(invalid, ScanFrom(r.V(), base, start))
    {
      var o := IndexMagic(r.raw, start);
      SkipToMagic(r.V(), base, start, o);
      if o == |r.raw| {
        break;
      }
      MagicLength(r.raw, o);
      SkipOverMagic(r.V(), base, o);
      start := o + 8;
      if |r.raw| - o < 16 || LE32(r.raw, o + 8) != 1 {
        NotCandidate(r.raw, o);
        continue;
      }
      IsCandidate(r.raw, o);
      var t := ReadTableAt(r, base, o);
      if t.Some? {
        return Found(t.value);
      }
      invalid := true;
    }
    return if invalid then Invalid else Absent;
  }

  /** The result of a scan that has already met invalid candidates. */
  function AfterInvalid(invalid: bool, rest: Scan): Scan {
    if invalid && rest.Absent? then Invalid else rest
  }

  lemma MagicLength(b: bytes, o: nat)
    requires MagicAt(b, o)
    ensures o + 8 <= |b|
  {}

  lemma NotCandidate(b: bytes, o: nat)
    requires o + 16 > |b| || LE32(b, o + 8) != 1
    ensures !Candidate(b, o)
  {}

  lemma IsCandidate(b: bytes, o: nat)
    requires MagicAt(b, o) && o + 16 <= |b| && LE32(b, o + 8) == 1
    ensures Candidate(b, o)
  {}

  lemma {:induction false} SkipToMagic(v: View, base: u32, o: nat, p: nat)
    requires o <= p <= |v.raw| && forall k | o <= k < p :: !MagicAt(v.raw, k)
    ensures ScanFrom(v, base, o) == ScanFrom(v, base, p)
    decreases p - o
  {
    hide MagicAt, TableAt;
    if o < p {
      assert !MagicAt(v.raw, o);
      SkipToMagic(v, base, o + 1, p);
    }
  }

  /** The eight characters of the magic differ from its first one, so occurrences cannot overlap. */
  lemma MagicHasNoBorder(b: bytes, o: nat, p: nat)
    requires MagicAt(b, o) && o < p < o + 8
    ensures !MagicAt(b, p)
  {
    assert b[p] == b[o..o + 8][p - o] == MAGIC[p - o] != 0x47;
    assert p + 8 <= |b| ==> b[p..p + 8][0] == b[p];
  }

  lemma SkipOverMagic(v: View, base: u32, o: nat)
    requires MagicAt(v.raw, o) && o + 8 <= |v.raw|
    ensures ScanFrom(v, base, o + 1) == ScanFrom(v, base, o + 8)
  {
    hide MagicAt, ScanFrom;
    forall k | o + 1 <= k < o + 8 ensures !MagicAt(v.raw, k) {
      MagicHasNoBorder(v.raw, o, k);
    }
    SkipToMagic(v, base, o + 1, o + 8);
  }

  // ---------------------------------------------------------------- what a scan means

  /** o is the lowest offset holding a valid table, and es is that table. */
  ghost predicate LowestValid(v: View, base: u32, from: nat, o: nat, es: seq<TableEntry>) {
    && from <= o && ValidAt(v, base, o) == Some(es)
    && forall p | from <= p < o :: ValidAt(v, base, p) == None
  }

  /** What the outcome r of a scan from the given offset says about the file. */
  ghost predicate Means(v: View, base: u32, from: nat, r: Scan) {
    match r
    case Found(es) => exists o :: LowestValid(v, base, from, o, es)
    case Invalid => (exists o :: from <= o && Candidate(v.raw, o))
                    && (forall o | from <= o :: ValidAt(v, base, o) == None)
    case Absent => forall o | from <= o :: !Candidate(v.raw, o)
  }

  /** Soundness and completeness of the scan on every byte string. */
  lemma {:induction false} ScanMeaning(v: View, base: u32, from: nat)
    requires from <= |v.raw|
    ensures Means(v, base, from, ScanFrom(v, base, from))
    decreases |v.raw| - from
  {
    hide Candidate, ValidAt, LowestValid, Means;
    if from == |v.raw| {
      MeansAtEnd(v, base, from);
    } else {
      ScanMeaning(v, base, from + 1);
      var rest := ScanFrom(v, base, from + 1);
      if ValidAt(v, base, from).Some? {
        MeansHere(v, base, from, ValidAt(v, base, from).value);
      } else {
        MeansLater(v, base, from, rest);
      }
    }
  }

  lemma MeansAtEnd(v: View, base: u32, from: nat)
    requires |v.raw| <= from
    ensures Means(v, base, from, Absent)
  {
    hide Candidate;
    forall o | from <= o ensures !Candidate(v.raw, o) { BeyondEnd(v.raw, o); }
  }

  lemma MeansHere(v: View, base: u32, from: nat, es: seq<TableEntry>)
    requires ValidAt(v, base, from) == Some(es)
    ensures Means(v, base, from, Found(es))
  {
    hide Candidate, ValidAt;
    assert LowestValid(v, base, from, from, es);
  }

  lemma MeansLater(v: View, base: u32, from: nat, rest: Scan)
    requires Means(v, base, from + 1, rest) && ValidAt(v, base, from) == None
    ensures Means(v, base, from, if Candidate(v.raw, from) && !rest.Found? then Invalid else rest)
  {
    hide Candidate, ValidAt;
    if rest.Found? {
      var es := rest.entries;
      var o :| LowestValid(v, base, from + 1, o, es);
      assert LowestValid(v, base, from, o, es);
    } else if rest.Absent? {
      AbsentMeans(v, base, from + 1);
    }
  }

  lemma AbsentMeans(v: View, base: u32, from: nat)
    requires forall o | from <= o :: !Candidate(v.raw, o)
    ensures forall o | from <= o :: ValidAt(v, base, o) == None
  {}

  lemma BeyondEnd(b: bytes, o: nat)
    requires |b| <= o
    ensures !Candidate(b, o)
  {}

  /** A file whose lowest valid table is at o scans to that table. */
  lemma {:induction false} LowestIsFound(v: View, base: u32, from: nat, o: nat, es: seq<TableEntry>)
    requires from <= |v.raw| && LowestValid(v, base, from, o, es)
    ensures ScanFrom(v, base, from) == Found(es)
    decreases |v.raw| - from
  {
    hide Candidate, ValidAt;
    if from == |v.raw| {
      BeyondEnd(v.raw, o);
      NoTable(v, base, o);
    } else if from < o {
      assert ValidAt(v, base, from) == None;
      LowestIsFound(v, base, from + 1, o, es);
    }
  }

  lemma NoTable(v: View, base: u32, o: nat)
    requires !Candidate(v.raw, o)
    ensures ValidAt(v, base, o) == None
  {}

  // ---------------------------------------------------------------- the same table in a changed file

  /** The table of n records at o and the names it refers to read the same in both views. */
  ghost predicate SameTable(v1: View, v2: View, base: u32, o: nat, n: nat) {
    && o + 16 + 16 * n <= |v1.raw| <= |v2.raw|
    && (forall i | o <= i < o + 16 + 16 * n :: v2.raw[i] == v1.raw[i])
    && (forall k | 0 <= k < n :: SameNames(v1, v2, base, o + 16 + 16 * k))
  }

  ghost predicate SameNames(v1: View, v2: View, base: u32, e: nat) {
    && e + 16 <= |v1.raw|
    && NameAtVa(v2, base, LE32(v1.raw, e)) == NameAtVa(v1, base, LE32(v1.raw, e))
    && NameAtVa(v2, base, LE32(v1.raw, e + 4)) == NameAtVa(v1, base, LE32(v1.raw, e + 4))
  }

  lemma RecordSame(v1: View, v2: View, base: u32, e: nat)
    requires e + 16 <= |v1.raw| <= |v2.raw| && SameNames(v1, v2, base, e)
    requires forall i | e <= i < e + 16 :: v2.raw[i] == v1.raw[i]
    ensures RecordAt(v2, base, e) == RecordAt(v1, base, e)
  {
    hide NameAtVa, Word;
    assert LE32(v2.raw, e) == LE32(v1.raw, e);
    assert LE32(v2.raw, e + 4) == LE32(v1.raw, e + 4);
    assert LE32(v2.raw, e + 8) == LE32(v1.raw, e + 8);
    assert LE32(v2.raw, e + 12) == LE32(v1.raw, e + 12);
  }

  lemma {:induction false} RecordsSame(v1: View, v2: View, base: u32, o: nat, n: nat, k: nat)
    requires SameTable(v1, v2, base, o, n) && k <= n
    ensures Records(v2, base, o + 16, k) == Records(v1, base, o + 16, k)
    decreases k
  {
    hide RecordAt, SameNames;
    if k > 0 {
      RecordsSame(v1, v2, base, o, n, k - 1);
      RecordSame(v1, v2, base, o + 16 + 16 * (k - 1));
    }
  }

  /** A valid table that is untouched in a changed file, names included, is still a valid table there. */
  lemma TableReread(v1: View, v2: View, base: u32, o: nat, es: seq<TableEntry>)
    requires ValidAt(v1, base, o) == Some(es)
    requires SameTable(v1, v2, base, o, |es|)
    ensures ValidAt(v2, base, o) == Some(es)
  {
    hide Records, SameNames;
    TableCount(v1, base, o, es);
    RecordsSame(v1, v2, base, o, |es|, |es|);
    HeaderSame(v1.raw, v2.raw, o);
  }

  /** A scan of a file with a valid table finds one. */
  lemma ValidIsFound(v: View, base: u32, o: nat)
    requires ValidAt(v, base, o).Some?
    ensures ScanFrom(v, base, 0).Found? && ScanFrom(v, base, 0).entries != []
  {
    hide Candidate, ValidAt, ScanFrom;
    ScanMeaning(v, base, 0);
    ValidIsCandidate(v, base, o);
    if ScanFrom(v, base, 0).Found? {
      var q :| LowestValid(v, base, 0, q, ScanFrom(v, base, 0).entries);
      TableCount(v, base, q, ScanFrom(v, base, 0).entries);
    }
  }

  lemma ValidIsCandidate(v: View, base: u32, o: nat)
    requires ValidAt(v, base, o).Some?
    ensures Candidate(v.raw, o)
  {}

  lemma TableCount(v: View, base: u32, o: nat, es: seq<TableEntry>)
    requires ValidAt(v, base, o) == Some(es)
    ensures Candidate(v.raw, o) && o + 16 + 16 * |es| <= |v.raw| && LE32(v.raw, o + 12) == |es| != 0
    ensures Records(v, base, o + 16, |es|) == Some(es)
  {}

  lemma HeaderSame(b1: bytes, b2: bytes, o: nat)
    requires o + 16 <= |b1| <= |b2| && forall i | o <= i < o + 16 :: b2[i] == b1[i]
    ensures Candidate(b2, o) == Candidate(b1, o)
    ensures LE32(b2, o + 12) == LE32(b1, o + 12)
  {
    assert b1[o..o + 8] == b2[o..o + 8];
    assert LE32(b2, o + 8) == LE32(b1, o + 8);
  }
}
