/** xp_GetProcAddress: the machine code as a program over registers and the stack, refining a resolution order. */
module GetProc {
  import opened Bytes
  import opened Hooks

  /** Calls that leave the hook. */
  datatype Call = RealGetProc(lib: u32, name: u32) | SetLastError(code: u32)

  /** What the hook reads, and what the real function would answer. */
  datatype World = World(mem: Memory, forced: u32, table: u32, overrides: u32, native: (u32, u32) -> u32)

  // ---------------------------------------------------------------- the resolution order

  /** The polyfill of the first entry that has one and is named like the string at p. */
  ghost function Lookup(mem: Memory, p: u32, es: seq<Served>): Option<u32> {
    if es == [] then None
    else if es[0].poly != 0 && NameIs(mem, p, es[0].func) then Some(es[0].poly)
    else Lookup(mem, p, es[1..])
  }

  ghost predicate Listed(mem: Memory, p: u32, items: seq<bytes>) {
    exists k | 0 <= k < |items| :: NameIs(mem, p, items[k])
  }

  datatype Answer = Answer(result: u32, calls: seq<Call>)

  /** Names below 64K are ordinals; the table is never asked for those. */
  ghost function FromTable(w: World, name: u32, es: seq<Served>): Option<u32> {
    if name < 0x10000 then None else Lookup(w.mem, name, es)
  }

  ghost predicate TableFirst(w: World, name: u32, items: seq<bytes>) {
    w.forced != 0 || (name >= 0x10000 && Listed(w.mem, name, items))
  }

  /**
   * Which answer a caller gets, and which calls are made on the way. The real function is asked at most once, never for
   * a library that is not there, and first unless the name is to be served from the table.
   */
  ghost function Resolution(w: World, lib: u32, name: u32, es: seq<Served>, items: seq<bytes>): Answer {
    var hit := FromTable(w, name, es);
    var native := w.native(lib, name);
    if lib == SENTINEL then
      if hit.Some? then Answer(hit.value, []) else Answer(0, [SetLastError(127)])
    else if TableFirst(w, name, items) then
      if hit.Some? then Answer(hit.value, []) else Answer(native, [RealGetProc(lib, name)])
    else if native != 0 then Answer(native, [RealGetProc(lib, name)])
    else if hit.Some? then Answer(hit.value, [RealGetProc(lib, name)])
    else Answer(0, [RealGetProc(lib, name), SetLastError(127)])
  }

  // ---------------------------------------------------------------- the answer, case by case

  /** Entry e is the first that has a polyfill and is named like the string at p. */
  ghost predicate FirstEntry(mem: Memory, p: u32, es: seq<Served>, e: nat) {
    && e < |es| && es[e].poly != 0 && NameIs(mem, p, es[e].func)
    && forall i | 0 <= i < e :: es[i].poly == 0 || !NameIs(mem, p, es[i].func)
  }

  /** The name is an ordinal, or no entry that has a polyfill is called that. */
  ghost predicate NoEntry(mem: Memory, p: u32, es: seq<Served>) {
    p < 0x1_0000 || forall i | 0 <= i < |es| :: es[i].poly == 0 || !NameIs(mem, p, es[i].func)
  }

  ghost predicate Overridden(mem: Memory, p: u32, items: seq<bytes>) {
    p >= 0x1_0000 && exists k | 0 <= k < |items| :: NameIs(mem, p, items[k])
  }

  /**
   * What the hook does, for a library that is not there, for names that are served from the table first (all of them in
   * forced mode, otherwise the overrides), and for the other names.
   */
  ghost predicate Answered(w: World, lib: u32, name: u32, es: seq<Served>, items: seq<bytes>, r: u32, calls: seq<Call>) {
    var native, ask := w.native(lib, name), RealGetProc(lib, name);
    var first := w.forced != 0 || Overridden(w.mem, name, items);
    && (lib == 0x476F_3258 && NoEntry(w.mem, name, es) ==> r == 0 && calls == [SetLastError(127)])
    && (lib != 0x476F_3258 && first && NoEntry(w.mem, name, es) ==> r == native && calls == [ask])
    && (lib != 0x476F_3258 && !first && native != 0 ==> r == native && calls == [ask])
    && (lib != 0x476F_3258 && !first && native == 0 && NoEntry(w.mem, name, es) ==> r == 0 && calls == [ask, SetLastError(127)])
    && forall e: nat | FirstEntry(w.mem, name, es, e) && name >= 0x1_0000 ::
         && (lib == 0x476F_3258 || first ==> r == es[e].poly && calls == [])
         && (lib != 0x476F_3258 && !first && native == 0 ==> r == es[e].poly && calls == [ask])
  }

  /** The resolution order is that. */
  lemma ResolutionMeans(w: World, lib: u32, name: u32, es: seq<Served>, items: seq<bytes>)
    ensures var a := Resolution(w, lib, name, es, items); Answered(w, lib, name, es, items, a.result, a.calls)
  {
    hide NameIs, Lookup;
    var k := LookupIsFirst(w.mem, name, es);
    forall e: nat | FirstEntry(w.mem, name, es, e) ensures k < |es| && e == k {}
  }

  /** The cases leave nothing open: there is one answer. */
  lemma AnsweredOnce(w: World, lib: u32, name: u32, es: seq<Served>, items: seq<bytes>, r: u32, calls: seq<Call>)
    requires Answered(w, lib, name, es, items, r, calls)
    ensures Answer(r, calls) == Resolution(w, lib, name, es, items)
  {
    hide NameIs, Lookup, Resolution;
    ResolutionMeans(w, lib, name, es, items);
    var k := LookupIsFirst(w.mem, name, es);
    if k < |es| { assert FirstEntry(w.mem, name, es, k); }
  }

  // ---------------------------------------------------------------- the machine

  class Cpu {
    var ax: u32
    var bx: u32
    var cx: u32
    var dx: u32
    var si: u32
    var di: u32
    /** The words of the stack; index 0 is 0(SP), index k is 4k(SP). */
    var stack: seq<u32>
    /** The calls made so far. */
    var log: seq<Call>

    /** PUSHL SI, DI, BX; SUBL $4, SP; MOVL $0, 0(SP). */
    method Prologue()
      modifies this`stack
      ensures stack == [0, bx, di, si] + old(stack)
    {
      stack := [si] + stack;
      stack := [di] + stack;
      stack := [bx] + stack;
      var junk: u32 := *;
      stack := [junk] + stack;
      stack := stack[0 := 0];
    }

    /** gpa_ret: ADDL $4, SP; POPL BX, DI, SI; return and pop two arguments. */
    method Epilogue()
      requires |stack| >= 7
      modifies this`stack, this`bx, this`di, this`si
      ensures stack == old(stack)[7..]
      ensures bx == old(stack)[1] && di == old(stack)[2] && si == old(stack)[3]
    {
      stack := stack[1..];
      bx, stack := stack[0], stack[1..];
      di, stack := stack[0], stack[1..];
      si, stack := stack[0], stack[1..];
      stack := stack[3..];
    }

    /** The call of the real GetProcAddress with the hook's own arguments. */
    method CallReal(w: World)
      requires |stack| >= 7
      modifies this`ax, this`cx, this`dx, this`stack, this`log
      ensures stack == old(stack)
      ensures ax == w.native(stack[5], stack[6]) && log == old(log) + [RealGetProc(stack[5], stack[6])]
    {
      var junk: u32 := *;
      stack := [junk, junk] + stack;
      ax := stack[8];
      stack := stack[1 := ax];
      ax := stack[7];
      stack := stack[0 := ax];
      log := log + [RealGetProc(stack[0], stack[1])];
      ax, cx, dx := w.native(stack[0], stack[1]), *, *;
      stack := stack[2..];
    }

    /** gpa_fail. */
    method Fail()
      requires |stack| >= 7
      modifies this`ax, this`cx, this`dx, this`stack, this`log
      ensures stack == old(stack)
      ensures ax == 0 && log == old(log) + [SetLastError(127)]
    {
      var junk: u32 := *;
      stack := [junk] + stack;
      stack := stack[0 := 127];
      log := log + [SetLastError(stack[0])];
      ax, cx, dx := *, *, *;
      stack := stack[1..];
      ax := 0;
    }

    /** gpa_ovr_cmp and gpa_cmp: compare the string at SI with the string s at DI. */
    method Compare(mem: Memory, ghost s: bytes) returns (equal: bool)
      requires MemStr(mem, di, s)
      modifies this`ax, this`si, this`di
      ensures equal <==> NameIs(mem, old(si), s)
    {
      hide NameIs;
      ghost var p, q := si, di;
      ghost var i := 0;
      while true
        invariant i <= |s| && q + |s| < W32 && di == q + i && si == Add32(p, i)
        invariant MemStr(mem, q, s)
        invariant forall k | 0 <= k < i :: mem(Add32(p, k)) == s[k]
        decreases |s| - i
      {
        ax := mem(di);
        if mem(si) != ax {
          NameDiffers(mem, p, s, i);
          return false;
        }
        if ax == 0 {
          NameEnds(mem, p, q, s, i);
          return true;
        }
        NotYet(mem, q, s, i);
        NextByte(p, i);
        si := Add32(si, 1);
        di := Add32(di, 1);
        i := i + 1;
      }
    }

    /** gpa_ovr_entry: is the name in BX one of the overrides? */
    method FindOverride(w: World, ghost items: seq<bytes>) returns (found: bool)
      requires ListAt(w.mem, w.overrides, items)
      modifies this`ax, this`dx, this`si, this`di
      ensures found <==> Listed(w.mem, bx, items)
    {
      hide MemStr, WordAt, NameIs;
      dx := w.overrides;
      ghost var k := 0;
      while true
        invariant k <= |items| && dx == w.overrides + 4 * k
        invariant forall i | 0 <= i < k :: !NameIs(w.mem, bx, items[i])
        decreases |items| - k
      {
        assert k < |items| ==> ItemAt(w.mem, dx, items[k]);
        di := WordAt(w.mem, dx);
        if di == 0 {
          return false;
        }
        si := bx;
        var equal := Compare(w.mem, items[k]);
        if equal {
          return true;
        }
        dx := Add32(dx, 4);
        k := k + 1;
      }
    }

    /** gpa_entry: the table search for the name in BX; a hit leaves the polyfill in AX. */
    method FindEntry(w: World, ghost es: seq<Served>) returns (hit: bool)
      requires TableAt(w.mem, w.table, es)
      modifies this`ax, this`cx, this`dx, this`si, this`di
      ensures hit <==> Lookup(w.mem, bx, es).Some?
      ensures hit ==> ax == Lookup(w.mem, bx, es).value
    {
      hide MemStr, WordAt, NameIs, EntryAt;
      dx := w.table;
      cx := WordAt(w.mem, dx + 12);
      dx := Add32(dx, 16);
      ghost var k := 0;
      while cx != 0
        invariant k <= |es| && cx == |es| - k
        invariant k < |es| ==> dx == w.table + 16 + 16 * k
        invariant Lookup(w.mem, bx, es) == Lookup(w.mem, bx, es[k..])
        decreases cx
      {
        EntryParts(w.mem, dx, es[k]);
        LookupStep(w.mem, bx, es, k);
        ax := WordAt(w.mem, dx + 8);
        if ax != 0 {
          di := WordAt(w.mem, dx + 4);
          si := bx;
          var equal := Compare(w.mem, es[k].func);
          if equal {
            ax := WordAt(w.mem, dx + 8);
            return true;
          }
        }
        dx := Add32(dx, 16);
        cx := cx - 1;
        k := k + 1;
      }
      return false;
    }

    /**
     * From entry to gpa_table, or to gpa_ret when the real export has answered. 0(SP) says where a miss goes:
     * 1 to the real function, 0 to failure.
     */
    method AskFirst(w: World, ghost items: seq<bytes>) returns (answered: bool)
      requires |stack| >= 7 && stack[0] == 0
      requires ListAt(w.mem, w.overrides, items)
      modifies this
      ensures |stack| == |old(stack)| && stack[1..] == old(stack)[1..]
      ensures answered <==> stack[5] != SENTINEL && !TableFirst(w, stack[6], items) && w.native(stack[5], stack[6]) != 0
      ensures answered ==> ax == w.native(stack[5], stack[6])
      ensures stack[0] == if stack[5] != SENTINEL && TableFirst(w, stack[6], items) then 1 else 0
      ensures log == old(log) + if stack[5] == SENTINEL || TableFirst(w, stack[6], items) then []
                                else [RealGetProc(stack[5], stack[6])]
    {
      hide ListAt, Listed;
      ghost var lib, name := stack[5], stack[6];
      ax := stack[5];
      if ax == SENTINEL {
        return false;
      }
      ax := w.forced;
      var tableFirst := ax != 0;
      if !tableFirst {
        bx := stack[6];
        if bx >= 0x10000 {
          tableFirst := FindOverride(w, items);
        }
      }
      assert tableFirst <==> TableFirst(w, name, items);
      if tableFirst {
        stack := stack[0 := 1];
        answered := false;
      } else {
        CallReal(w);
        answered := ax != 0;
      }
      assert stack[5] == lib && stack[6] == name;
    }

    /** From gpa_table to gpa_ret. */
    method Serve(w: World, ghost es: seq<Served>)
      requires |stack| >= 7 && TableAt(w.mem, w.table, es)
      modifies this
      ensures stack == old(stack)
      ensures var hit := FromTable(w, stack[6], es);
              && ax == (if hit.Some? then hit.value else if stack[0] == 0 then 0 else w.native(stack[5], stack[6]))
              && log == old(log) + if hit.Some? then []
                                   else if stack[0] == 0 then [SetLastError(127)] else [RealGetProc(stack[5], stack[6])]
    {
      hide TableAt, Lookup;
      bx := stack[6];
      var hit := false;
      if bx >= 0x10000 {
        hit := FindEntry(w, es);
      }
      if !hit {
        ax := stack[0];
        if ax == 0 {
          Fail();
        } else {
          CallReal(w);
        }
      }
    }

    /**
     * xp_GetProcAddress. On entry the stack holds the return address, the library and the name; they are popped.
     */
    method GetProcAddress(w: World, ghost es: seq<Served>, ghost items: seq<bytes>)
      requires |stack| >= 3
      requires TableAt(w.mem, w.table, es) && ListAt(w.mem, w.overrides, items)
      modifies this
      ensures stack == old(stack)[3..]
      ensures bx == old(bx) && si == old(si) && di == old(di)
      ensures ax == Resolution(w, old(stack)[1], old(stack)[2], es, items).result
      ensures log == old(log) + Resolution(w, old(stack)[1], old(stack)[2], es, items).calls
      ensures |log| >= |old(log)| && log[..|old(log)|] == old(log)
      ensures Answered(w, old(stack)[1], old(stack)[2], es, items, ax, log[|old(log)|..])
    {
      hide TableAt, ListAt, FromTable, TableFirst, Answered;
      ResolutionMeans(w, stack[1], stack[2], es, items);
      ghost var frame := [bx, di, si] + stack;
      Prologue();
      assert stack[1..] == frame;
      var answered := AskFirst(w, items);
      assert stack[5] == frame[4] && stack[6] == frame[5];
      if !answered {
        Serve(w, es);
      }
      Restored(frame, stack);
      Epilogue();
    }
  }

  lemma Restored(frame: seq<u32>, stack: seq<u32>)
    requires |stack| >= 7 && stack[1..] == frame
    ensures stack[7..] == frame[6..] && stack[1] == frame[0] && stack[2] == frame[1] && stack[3] == frame[2]
  {}

  // ---------------------------------------------------------------- steps of the loops

  lemma NextByte(p: u32, i: nat)
    requires i + 1 < W32
    ensures Add32(Add32(p, i), 1) == Add32(p, i + 1)
  {}

  lemma NotYet(mem: Memory, q: u32, s: bytes, i: nat)
    requires MemStr(mem, q, s) && i <= |s| && mem(q + i) != 0
    ensures i < |s|
  {}

  lemma NameEnds(mem: Memory, p: u32, q: u32, s: bytes, i: nat)
    requires MemStr(mem, q, s) && i <= |s| && mem(q + i) == 0 && mem(Add32(p, i)) == 0
    requires forall k | 0 <= k < i :: mem(Add32(p, k)) == s[k]
    ensures NameIs(mem, p, s)
  {
    hide Add32;
    StrEnd(mem, q, s, i);
  }

  lemma StrEnd(mem: Memory, q: u32, s: bytes, i: nat)
    requires MemStr(mem, q, s) && i <= |s| && mem(q + i) == 0
    ensures i == |s|
  {
    StrByte(mem, q, s, i);
  }

  lemma EntryParts(mem: Memory, e: u32, s: Served)
    requires EntryAt(mem, e, s)
    ensures e + 16 <= W32 && MemStr(mem, WordAt(mem, e + 4), s.func) && WordAt(mem, e + 8) == s.poly
  {
    hide MemStr, WordAt;
  }

  lemma LookupStep(mem: Memory, p: u32, es: seq<Served>, k: nat)
    requires k < |es|
    ensures Lookup(mem, p, es[k..]) == if es[k].poly != 0 && NameIs(mem, p, es[k].func) then Some(es[k].poly)
                                       else Lookup(mem, p, es[k + 1..])
  {
    hide NameIs;
    assert es[k..][1..] == es[k + 1..];
  }

  // ---------------------------------------------------------------- reading the resolution order

  /** The table serves the first entry that has a polyfill and the right name, and nothing when there is none. */
  lemma {:induction false} LookupIsFirst(mem: Memory, p: u32, es: seq<Served>) returns (k: nat)
    ensures k <= |es|
    ensures forall i | 0 <= i < k :: es[i].poly == 0 || !NameIs(mem, p, es[i].func)
    ensures k < |es| ==> es[k].poly != 0 && NameIs(mem, p, es[k].func) && Lookup(mem, p, es) == Some(es[k].poly)
    ensures k == |es| ==> Lookup(mem, p, es) == None
    decreases |es|
  {
    hide NameIs;
    k := 0;
    if es != [] && !(es[0].poly != 0 && NameIs(mem, p, es[0].func)) {
      k := LookupIsFirst(mem, p, es[1..]);
      k := k + 1;
      forall i | 0 <= i < k ensures es[i].poly == 0 || !NameIs(mem, p, es[i].func) {
        if i > 0 { assert es[i] == es[1..][i - 1]; }
      }
    }
  }
}
