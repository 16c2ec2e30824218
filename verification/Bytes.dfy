/** Machine integers, byte strings and little-endian words. */
module Bytes {

  type u8 = x: int | 0 <= x < 0x100
  type u16 = x: int | 0 <= x < 0x1_0000
  type u32 = x: int | 0 <= x < 0x1_0000_0000
  type bytes = seq<u8>

  const W32: int := 0x1_0000_0000

  datatype Option<+T> = None | Some(value: T)

  /** 32-bit addition as the hardware does it. */
  function Add32(a: u32, b: u32): (r: u32)
    ensures a + b < W32 ==> r == a + b
  {
    if a + b < W32 then a + b else a + b - W32
  }

  /** Address x belongs to the word at slot. */
  predicate InWord(slot: int, x: int) { slot <= x < slot + 4 }

  /** The bytes of an ASCII literal. */
  function Ascii(s: string): (b: bytes)
    requires forall i | 0 <= i < |s| :: s[i] < 128 as char
    ensures |b| == |s|
  {
    seq(|s|, i requires 0 <= i < |s| => s[i] as int)
  }

  /** The value of four bytes, lowest first. */
  function Word(b0: int, b1: int, b2: int, b3: int): int {
    b0 + 0x100 * b1 + 0x1_0000 * b2 + 0x100_0000 * b3
  }

  function LE16(b: bytes, o: nat): u16
    requires o + 2 <= |b|
  {
    Word(b[o], b[o + 1], 0, 0)
  }

  function LE32(b: bytes, o: nat): u32
    requires o + 4 <= |b|
  {
    Word(b[o], b[o + 1], b[o + 2], b[o + 3])
  }

  function Enc32(v: u32): (e: bytes)
    ensures |e| == 4
    ensures v == Word(e[0], e[1], e[2], e[3])
  {
    var q1: int := v / 0x100;
    var q2: int := q1 / 0x100;
    var q3: int := q2 / 0x100;
    [v - 0x100 * q1, q1 - 0x100 * q2, q2 - 0x100 * q3, q3]
  }

  function Put16(b: bytes, o: nat, v: u16): (r: bytes)
    requires o + 2 <= |b|
    ensures |r| == |b| && LE16(r, o) == v
    ensures forall i | 0 <= i < |b| && !(o <= i < o + 2) :: r[i] == b[i]
  {
    var q: int := v / 0x100;
    b[o := v - 0x100 * q][o + 1 := q]
  }

  function Put32(b: bytes, o: nat, v: u32): (r: bytes)
    requires o + 4 <= |b|
    ensures |r| == |b| && LE32(r, o) == v
    ensures forall i | 0 <= i < |b| && !(o <= i < o + 4) :: r[i] == b[i]
    ensures forall i | 0 <= i < 4 :: r[o + i] == Enc32(v)[i]
  {
    var e := Enc32(v);
    b[o := e[0]][o + 1 := e[1]][o + 2 := e[2]][o + 3 := e[3]]
  }

  /** Writing a word leaves the words that do not overlap it alone. */
  lemma Put32Keeps(b: bytes, o: nat, v: u32, p: nat)
    requires o + 4 <= |b| && p + 4 <= |b| && (p + 4 <= o || o + 4 <= p)
    ensures LE32(Put32(b, o, v), p) == LE32(b, p)
  {
    hide Put32;
  }

  /** The C string at offset o: the bytes up to the first NUL, None when there is none. */
  function StrAt(b: bytes, o: nat): (r: Option<bytes>)
    requires o <= |b|
    decreases |b| - o
    ensures r.Some? ==> IsStr(b, o, r.value)
    ensures r.None? ==> forall i | o <= i < |b| :: b[i] != 0
  {
    if o == |b| then None
    else if b[o] == 0 then Some([])
    else match StrAt(b, o + 1)
      case None => None
      case Some(s) => Some([b[o]] + s)
  }

  /** s lies at offset o of b, NUL-terminated and free of NULs. */
  ghost predicate IsStr(b: bytes, o: nat, s: bytes) {
    && o + |s| < |b|
    && b[o + |s|] == 0
    && forall i | 0 <= i < |s| :: b[o + i] == s[i] != 0
  }

  lemma {:induction false} StrAtUnique(b: bytes, o: nat, s: bytes)
    requires IsStr(b, o, s)
    ensures StrAt(b, o) == Some(s)
    decreases |s|
  {
    if s == [] {
    } else {
      assert b[o] == b[o + 0] == s[0] != 0;
      assert forall i | 0 <= i < |s[1..]| :: b[o + 1 + i] == b[o + (i + 1)] == s[i + 1] == s[1..][i];
      StrAtUnique(b, o + 1, s[1..]);
      assert s == [b[o]] + s[1..];
    }
  }

  /** Two files agree on the bytes [lo, hi). */
  ghost predicate SameRange(a: bytes, b: bytes, lo: int, hi: int)
  {
    && 0 <= lo && hi <= |a| && hi <= |b|
    && forall i | lo <= i < hi :: a[i] == b[i]
  }

  lemma SameWord(a: bytes, b: bytes, o: nat)
    requires SameRange(a, b, o, o + 4)
    ensures LE32(a, o) == LE32(b, o)
  {}

  /** Four bytes that read as v are v's encoding. */
  lemma WordBytes(b: bytes, o: nat, v: u32, i: nat)
    requires o + 4 <= |b| && LE32(b, o) == v && i < 4
    ensures b[o + i] == Enc32(v)[i]
  {
    var e := Enc32(v);
    BaseDigits(b[o], b[o + 1], b[o + 2], b[o + 3], e[0], e[1], e[2], e[3]);
  }

  lemma BaseDigits(a0: u8, a1: u8, a2: u8, a3: u8, b0: u8, b1: u8, b2: u8, b3: u8)
    requires Word(a0, a1, a2, a3) == Word(b0, b1, b2, b3)
    ensures a0 == b0 && a1 == b1 && a2 == b2 && a3 == b3
  {
    assert (a3 as int) == b3;
    assert (a2 as int) == b2;
    assert (a1 as int) == b1;
  }

  lemma EncBytes(v: u32, a: u8, b: u8, c: u8, d: u8)
    requires v == Word(a, b, c, d)
    ensures Enc32(v) == [a, b, c, d]
  {
    var e := Enc32(v);
    BaseDigits(e[0], e[1], e[2], e[3], a, b, c, d);
  }
}
