/** Memory as the run-time hooks read it: C strings, pointer lists and the table the generator laid out. */
module Hooks {
  import opened Bytes

  type Memory = u32 -> u8

  /** The module handle that stands for a DLL the system does not have. */
  const SENTINEL: u32 := 0x476F_3258

  /** A little-endian word in memory. */
  function WordAt(mem: Memory, a: u32): u32 {
    Word(mem(a), mem(Add32(a, 1)), mem(Add32(a, 2)), mem(Add32(a, 3)))
  }

  /** A little-endian 16-bit unit in memory. */
  function UnitAt(mem: Memory, a: u32): u16 { Word(mem(a), mem(Add32(a, 1)), 0, 0) }

  /** The NUL-free string s is stored at p with its terminator. */
  ghost predicate MemStr(mem: Memory, p: u32, s: bytes) {
    && p + |s| < W32
    && (forall i | 0 <= i < |s| :: mem(p + i) == s[i] != 0)
    && mem(p + |s|) == 0
  }

  /** The C string at p, wherever that is, is s. */
  ghost predicate NameIs(mem: Memory, p: u32, s: bytes) {
    && |s| < W32
    && (forall i | 0 <= i < |s| :: mem(Add32(p, i)) == s[i])
    && mem(Add32(p, |s|)) == 0
  }

  /** A pointer to a string. */
  ghost predicate ItemAt(mem: Memory, a: u32, s: bytes) { WordAt(mem, a) != 0 && MemStr(mem, WordAt(mem, a), s) }

  /** A list of string pointers that ends in a null pointer. */
  ghost predicate ListAt(mem: Memory, a: u32, items: seq<bytes>) {
    && a + 4 * |items| + 4 <= W32
    && (forall k | 0 <= k < |items| :: ItemAt(mem, a + 4 * k, items[k]))
    && WordAt(mem, a + 4 * |items|) == 0
  }

  /** What the hooks use of a table entry. */
  datatype Served = Served(func: bytes, poly: u32)

  ghost predicate EntryAt(mem: Memory, e: int, s: Served) {
    && 0 <= e && e + 16 <= W32
    && MemStr(mem, WordAt(mem, e + 4), s.func)
    && WordAt(mem, e + 8) == s.poly
  }

  /** The table at t holds the entries es. */
  ghost predicate TableAt(mem: Memory, t: u32, es: seq<Served>) {
    && t + 16 + 16 * |es| <= W32
    && WordAt(mem, t + 12) == |es|
    && forall k | 0 <= k < |es| :: EntryAt(mem, t + 16 + 16 * k, es[k])
  }

  /** A NUL-free string agrees with a memory byte at the NUL only behind its end. */
  lemma NameDiffers(mem: Memory, p: u32, s: bytes, i: nat)
    requires i <= |s| && |s| < W32 && forall k | 0 <= k < |s| :: s[k] != 0
    requires mem(Add32(p, i)) != if i < |s| then s[i] else 0
    ensures !NameIs(mem, p, s)
  {}

  /** At most one NUL-free string is stored at an address. */
  lemma NameUnique(mem: Memory, p: u32, s: bytes, t: bytes)
    requires NameIs(mem, p, s) && NameIs(mem, p, t)
    requires forall k | 0 <= k < |s| :: s[k] != 0
    requires forall k | 0 <= k < |t| :: t[k] != 0
    ensures s == t
  {
    hide Add32;
    Shorter(mem, p, s, t);
    Shorter(mem, p, t, s);
    forall i | 0 <= i < |s| ensures s[i] == t[i] { assert mem(Add32(p, i)) == s[i]; }
  }

  lemma Shorter(mem: Memory, p: u32, s: bytes, t: bytes)
    requires NameIs(mem, p, s) && NameIs(mem, p, t) && forall k | 0 <= k < |t| :: t[k] != 0
    ensures |t| <= |s|
  {
    hide Add32;
  }

  /** The bytes of a stored string, its terminator included. */
  lemma StrByte(mem: Memory, q: u32, s: bytes, i: nat)
    requires MemStr(mem, q, s) && i <= |s|
    ensures mem(q + i) == if i < |s| then s[i] else 0
    ensures i < |s| ==> s[i] != 0
  {}
}
