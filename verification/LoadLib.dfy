/** xp_LoadLibraryExW: the machine code with its 528-byte buffer, refining a plan for the call. */
module LoadLib {
  import opened Bytes
  import opened Align
  import opened Hooks

  const SEARCH_SYSTEM32: u32 := 0x800
  const XP_FLAGS: u32 := 0xFFFF_E0FF
  const BACKSLASH: u16 := 92
  /** 528 bytes. */
  const UNITS: nat := 264

  /** Calls that leave the hook; held is what the buffer holds when the real loader is called. */
  datatype Call =
    | SystemDirectory(buffer: u32, units: u32)
    | SetLastError(code: u32)
    | RealLoad(path: u32, file: u32, flags: u32, held: seq<u16>)

  /**
   * What the hook reads, and what the functions it calls answer: GetSystemDirectoryW returns dirLen and leaves dirBuf
   * in the buffer, whatever that is.
   */
  datatype World = World(mem: Memory, missing: u32, dirLen: u32, dirBuf: seq<u16>, handle: u32)

  // ---------------------------------------------------------------- the plan

  function Fold(c: u16): u16 { if 65 <= c <= 90 then c + 32 else c }

  /** The address of 16-bit unit i of a wide string. */
  function Nth(p: u32, i: nat): u32 { if i == 0 then p else Add32(Nth(p, i - 1), 2) }

  /** The wide string at p, with ASCII letters in lower case, is s. */
  ghost predicate FoldsTo(mem: Memory, p: u32, s: bytes) {
    && (forall i | 0 <= i < |s| :: Fold(UnitAt(mem, Nth(p, i))) == s[i])
    && UnitAt(mem, Nth(p, |s|)) == 0
  }

  ghost predicate NotThere(mem: Memory, p: u32, items: seq<bytes>) {
    exists k | 0 <= k < |items| :: FoldsTo(mem, p, items[k])
  }

  predicate Separator(c: u16) { c == 92 || c == 47 || c == 58 }

  /** The name copied behind the directory, its NUL included, or why it is not. */
  datatype Tail = NoRoom | HasSeparator | Copied(units: seq<u16>)

  function TailOf(mem: Memory, p: u32, room: nat): Tail
    decreases room
  {
    if room == 0 then NoRoom
    else
      var c := UnitAt(mem, p);
      if Separator(c) then HasSeparator
      else if c == 0 then Copied([0])
      else Before([c], TailOf(mem, Add32(p, 2), room - 1))
  }

  function Before(s: seq<u16>, t: Tail): Tail { if t.Copied? then Copied(s + t.units) else t }

  /** The name is passed on as it is, or replaced by a path in the buffer. */
  datatype Path = Given | Built(units: seq<u16>)

  datatype Plan = Absent | NoDirectory | TooLong | Load(path: Path)

  /** The system directory with a backslash at its end. */
  function WithSlash(dir: seq<u16>): (r: seq<u16>)
    requires |dir| > 0
    ensures |dir| <= |r| <= |dir| + 1 && r[|r| - 1] == BACKSLASH
  {
    if dir[|dir| - 1] == BACKSLASH then dir else dir + [BACKSLASH]
  }

  /** The path for a name that is to be searched in the system directory only. */
  function InSystem32(w: World, name: u32): Plan
    requires |w.dirBuf| == UNITS
  {
    if w.dirLen == 0 then NoDirectory
    else if w.dirLen >= 260 then TooLong
    else
      var dir := WithSlash(w.dirBuf[..w.dirLen]);
      match TailOf(w.mem, name, UNITS - |dir|)
      case NoRoom => TooLong
      case HasSeparator => Load(Given)
      case Copied(units) => Load(Built(dir + units))
  }

  ghost function Planned(w: World, name: u32, flags: u32, items: seq<bytes>): Plan
    requires |w.dirBuf| == UNITS
  {
    if name == 0 then Load(Given)
    else if NotThere(w.mem, name, items) then Absent
    else if BitAnd(flags, SEARCH_SYSTEM32) == 0 then Load(Given)
    else InSystem32(w, name)
  }

  /** The result of the hook under a plan. */
  function ResultOf(w: World, p: Plan): u32 {
    match p
    case Absent => SENTINEL
    case NoDirectory => 0
    case TooLong => 0
    case Load(_) => w.handle
  }

  /** The calls made under a plan, after the system directory has been asked for where that is needed. */
  ghost predicate CallsOf(calls: seq<Call>, p: Plan, name: u32, file: u32, flags: u32, base: u32) {
    match p
    case Absent => calls == []
    case NoDirectory => calls == []
    case TooLong => calls == [SetLastError(206)]
    case Load(path) => |calls| == 1 && Loads(calls[0], path, name, file, flags, base)
  }

  ghost predicate Loads(c: Call, path: Path, name: u32, file: u32, flags: u32, base: u32) {
    && c.RealLoad? && c.file == file && c.flags == BitAnd(flags, XP_FLAGS)
    && match path
       case Given => c.path == name
       case Built(units) => c.path == base && |units| <= |c.held| && c.held[..|units|] == units
  }

  /** The first call, where the plan needs the system directory. */
  ghost function Asked(w: World, name: u32, flags: u32, items: seq<bytes>, base: u32): seq<Call> {
    if name != 0 && !NotThere(w.mem, name, items) && BitAnd(flags, SEARCH_SYSTEM32) != 0 then [SystemDirectory(base, 264)] else []
  }

  // ---------------------------------------------------------------- the machine

  /** How the search for a path ends: at which label the code continues. */
  datatype Label = Return | Long | Bare | CallBuilt

  class Cpu {
    var ax: u32
    var bx: u32
    var cx: u32
    var dx: u32
    var si: u32
    var di: u32
    /** The words above the buffer, and the argument words below it; index 0 is the lowest address. */
    var frame: seq<u32>
    var args: seq<u32>
    /** The buffer, and the address of its first byte. */
    var buf: array<u16>
    var base: u32
    var log: seq<Call>

    ghost predicate Valid()
      reads this
    {
      buf.Length == UNITS && base + 2 * UNITS < W32
    }

    /** The word at off(SP), for offsets above the buffer. */
    function Above(off: nat): u32
      reads this
      requires off % 4 == 0 && off >= 4 * |args| + 528 && off < 4 * |args| + 528 + 4 * |frame|
    {
      frame[(off - 4 * |args| - 528) / 4]
    }

    /** llx_cmp: compare the folded wide string at SI with the string s at DI. */
    method CompareFolded(mem: Memory, ghost s: bytes) returns (equal: bool)
      requires MemStr(mem, di, s)
      modifies this`ax, this`cx, this`si, this`di
      ensures equal <==> FoldsTo(mem, old(si), s)
    {
      hide FoldsTo, Nth, UnitAt;
      ghost var p, q := si, di;
      ghost var i := 0;
      NthZero(p);
      while true
        invariant i <= |s| && q + |s| < W32 && di == q + i && si == Nth(p, i)
        invariant MemStr(mem, q, s)
        invariant forall k | 0 <= k < i :: Fold(UnitAt(mem, Nth(p, k))) == s[k]
        decreases |s| - i
      {
        ax := UnitAt(mem, si);
        if !(ax < 65) && !(ax > 90) {
          ax := ax + 32;
        }
        cx := mem(di);
        StrByte(mem, q, s, i);
        if ax != cx {
          FoldDiffers(mem, p, s, i);
          return false;
        }
        if ax == 0 {
          FoldEnds(mem, p, s, i);
          return true;
        }
        NthNext(p, i);
        si := Add32(si, 2);
        di := Add32(di, 1);
        i := i + 1;
      }
    }

    /** llx_entry: is the name in BX one of the missing DLLs? */
    method FindMissing(w: World, ghost items: seq<bytes>) returns (found: bool)
      requires ListAt(w.mem, w.missing, items)
      modifies this`ax, this`cx, this`dx, this`si, this`di
      ensures found <==> NotThere(w.mem, bx, items)
    {
      hide MemStr, WordAt, FoldsTo;
      dx := w.missing;
      ghost var k := 0;
      while true
        invariant k <= |items| && dx == w.missing + 4 * k
        invariant forall i | 0 <= i < k :: !FoldsTo(w.mem, bx, items[i])
        decreases |items| - k
      {
        assert k < |items| ==> ItemAt(w.mem, dx, items[k]);
        di := WordAt(w.mem, dx);
        if di == 0 {
          return false;
        }
        si := bx;
        var equal := CompareFolded(w.mem, items[k]);
        if equal {
          return true;
        }
        dx := Add32(dx, 4);
        k := k + 1;
      }
    }

    /** The call of GetSystemDirectoryW(buffer, 264); it may leave anything in the buffer. */
    method CallSystemDirectory(w: World)
      requires Valid() && args == [] && |w.dirBuf| == UNITS
      modifies this`ax, this`cx, this`dx, this`args, this`log, buf
      ensures args == [] && ax == w.dirLen && log == old(log) + [SystemDirectory(base, 264)]
      ensures buf[..] == w.dirBuf
    {
      var junk: u32 := *;
      args := [junk, junk] + args;
      ax := base;
      args := args[0 := ax];
      args := args[1 := 264];
      log := log + [SystemDirectory(args[0], args[1])];
      forall i | 0 <= i < buf.Length { buf[i] := w.dirBuf[i]; }
      ax, cx, dx := w.dirLen, *, *;
      args := args[2..];
    }

    /** MOVW to (DI), unit k of the buffer. */
    method Store(v: u16, ghost k: nat)
      requires Valid() && k < UNITS && di == base + 2 * k
      modifies buf
      ensures buf[..k + 1] == old(buf[..k]) + [v] && buf[k + 1..] == old(buf[k + 1..])
    {
      buf[(di - base) / 2] := v;
      assert buf[..k] == old(buf[..k]);
    }

    /** llx_copy_loop: append the name in BX to the n units in the buffer. */
    method CopyName(w: World, ghost n: nat) returns (l: Label)
      requires Valid() && n <= UNITS && di == base + 2 * n && di < W32
      modifies this`ax, this`cx, this`si, this`di, buf
      ensures match TailOf(w.mem, bx, UNITS - n)
              case NoRoom => l == Long
              case HasSeparator => l == Bare
              case Copied(units) => l == CallBuilt && n + |units| <= UNITS && buf[..n + |units|] == old(buf[..n]) + units
    {
      hide UnitAt, TailOf, Before;
      BeforeNothing(TailOf(w.mem, bx, UNITS - n));
      si := bx;
      ghost var dir := buf[..n];
      ghost var done: seq<u16> := [];
      while true
        invariant n + |done| <= UNITS && di == base + 2 * (n + |done|)
        invariant buf[..n + |done|] == dir + done
        invariant TailOf(w.mem, bx, UNITS - n) == Before(done, TailOf(w.mem, si, UNITS - n - |done|))
        decreases UNITS - n - |done|
      {
        TailStep(w.mem, si, UNITS - n - |done|, done);
        cx := base + 528;
        if di >= cx {
          return Long;
        }
        ax := UnitAt(w.mem, si);
        if ax == 92 || ax == 47 || ax == 58 {
          return Bare;
        }
        Store(ax, n + |done|);
        done := done + [ax];
        si := Add32(si, 2);
        di := di + 2;
        if ax == 0 {
          return CallBuilt;
        }
      }
    }

    /** From llx_forward, with the SYSTEM32 flag set, to the next label outside. */
    method FromSystem32(w: World) returns (l: Label)
      requires Valid() && args == [] && |w.dirBuf| == UNITS
      modifies this`ax, this`cx, this`dx, this`si, this`di, this`args, this`log, buf
      ensures args == [] && log == old(log) + [SystemDirectory(base, 264)]
      ensures match InSystem32(w, bx)
              case Absent => false
              case NoDirectory => l == Return && ax == 0
              case TooLong => l == Long
              case Load(Given) => l == Bare
              case Load(Built(units)) => l == CallBuilt && |units| <= UNITS && buf[..|units|] == units
    {
      hide TailOf;
      CallSystemDirectory(w);
      if ax == 0 {
        return Return;
      }
      if ax >= 260 {
        return Long;
      }
      ghost var dir := w.dirBuf[..w.dirLen];
      ghost var n: nat := ax;
      di := base + ax * 2;
      cx := buf[(di - 2 - base) / 2];
      assert cx == dir[n - 1];
      if cx != 92 {
        Store(92, n);
        di := di + 2;
        n := n + 1;
      }
      assert buf[..n] == WithSlash(dir);
      l := CopyName(w, n);
    }

    /** llx_call: the call of the real loader with the path at CX, which pops its three arguments. */
    method CallReal(w: World)
      requires Valid() && args == [] && |frame| >= 7
      modifies this`ax, this`cx, this`dx, this`args, this`log
      ensures args == [] && ax == w.handle
      ensures log == old(log) + [RealLoad(old(cx), frame[5], BitAnd(frame[6], XP_FLAGS), buf[..])]
    {
      hide BitAnd;
      ax := Above(552);
      ax := BitAnd(ax, XP_FLAGS);
      var junk: u32 := *;
      args := [junk, junk, junk] + args;
      args := args[2 := ax];
      ax := Above(560);
      args := args[1 := ax];
      args := args[0 := cx];
      log := log + [RealLoad(args[0], args[1], args[2], buf[..])];
      ax, cx, dx := w.handle, *, *;
      args := args[3..];
    }

    /** llx_too_long. */
    method FailTooLong()
      requires args == []
      modifies this`ax, this`cx, this`dx, this`args, this`log
      ensures args == [] && ax == 0 && log == old(log) + [SetLastError(206)]
    {
      var junk: u32 := *;
      args := [junk] + args;
      args := args[0 := 206];
      log := log + [SetLastError(args[0])];
      ax, cx, dx := *, *, *;
      args := args[1..];
      ax := 0;
    }

    /** PUSHL SI, DI, BX; SUBL $528, SP: a buffer with anything in it. */
    method Prologue()
      requires args == []
      modifies this`frame, this`buf, this`base
      ensures Valid() && fresh(buf) && frame == [bx, di, si] + old(frame)
    {
      frame := [si] + frame;
      frame := [di] + frame;
      frame := [bx] + frame;
      buf := new u16[UNITS];
      var at: u32 :| at + 2 * UNITS < W32;
      base := at;
    }

    /** llx_ret: ADDL $528, SP; POPL BX, DI, SI; return and pop three arguments. */
    method Epilogue()
      requires |frame| >= 7
      modifies this`frame, this`bx, this`di, this`si
      ensures frame == old(frame)[7..]
      ensures bx == old(frame)[0] && di == old(frame)[1] && si == old(frame)[2]
    {
      bx, frame := frame[0], frame[1..];
      di, frame := frame[0], frame[1..];
      si, frame := frame[0], frame[1..];
      frame := frame[4..];
    }

    /** From the prologue to the label that the plan leads to. */
    method Choose(w: World, ghost items: seq<bytes>) returns (l: Label)
      requires Valid() && args == [] && |frame| >= 7 && |w.dirBuf| == UNITS
      requires ListAt(w.mem, w.missing, items)
      modifies this`ax, this`bx, this`cx, this`dx, this`si, this`di, this`args, this`log, buf
      ensures args == [] && log == old(log) + Asked(w, frame[4], frame[6], items, base)
      ensures match Planned(w, frame[4], frame[6], items)
              case Absent => l == Return && ax == SENTINEL
              case NoDirectory => l == Return && ax == 0
              case TooLong => l == Long
              case Load(Given) => l == Bare
              case Load(Built(units)) => l == CallBuilt && |units| <= UNITS && buf[..|units|] == units
    {
      hide ListAt, NotThere, BitAnd, InSystem32;
      bx := Above(544);
      if bx == 0 {
        return Bare;
      }
      var found := FindMissing(w, items);
      if found {
        ax := SENTINEL;
        return Return;
      }
      ax := Above(552);
      if BitAnd(ax, SEARCH_SYSTEM32) == 0 {
        return Bare;
      }
      l := FromSystem32(w);
    }

    /** From the labels to llx_ret. */
    method Finish(w: World, l: Label, ghost p: Plan) returns (ghost calls: seq<Call>)
      requires Valid() && args == [] && |frame| >= 7
      requires match p
               case Absent => l == Return && ax == SENTINEL
               case NoDirectory => l == Return && ax == 0
               case TooLong => l == Long
               case Load(Given) => l == Bare
               case Load(Built(units)) => l == CallBuilt && |units| <= UNITS && buf[..|units|] == units
      modifies this`ax, this`cx, this`dx, this`args, this`log
      ensures args == [] && ax == ResultOf(w, p)
      ensures log == old(log) + calls && CallsOf(calls, p, frame[4], frame[5], frame[6], base)
    {
      hide BitAnd;
      calls := [];
      match l {
        case Return =>
        case Long =>
          FailTooLong();
          calls := [SetLastError(206)];
        case Bare =>
          cx := Above(544);
          calls := [RealLoad(cx, frame[5], BitAnd(frame[6], XP_FLAGS), buf[..])];
          CallReal(w);
        case CallBuilt =>
          cx := base;
          calls := [RealLoad(cx, frame[5], BitAnd(frame[6], XP_FLAGS), buf[..])];
          CallReal(w);
      }
    }

    /**
     * xp_LoadLibraryExW. On entry the stack holds the return address, the name, the file and the flags; they are
     * popped. Every store stays inside the buffer, whatever the API and the caller supply.
     */
    method LoadLibraryExW(w: World, ghost items: seq<bytes>) returns (ghost calls: seq<Call>)
      requires args == [] && |frame| >= 4 && |w.dirBuf| == UNITS
      requires ListAt(w.mem, w.missing, items)
      modifies this
      ensures frame == old(frame)[4..] && args == []
      ensures bx == old(bx) && si == old(si) && di == old(di)
      ensures ax == ResultOf(w, Planned(w, old(frame)[1], old(frame)[3], items))
      ensures log == old(log) + Asked(w, old(frame)[1], old(frame)[3], items, base) + calls
      ensures CallsOf(calls, Planned(w, old(frame)[1], old(frame)[3], items), old(frame)[1], old(frame)[2], old(frame)[3], base)
      ensures |log| >= |old(log)| && log[..|old(log)|] == old(log)
      ensures Delivered(w, old(frame)[1], old(frame)[2], old(frame)[3], items, base, ax, log[|old(log)|..])
    {
      hide ListAt, Planned, CallsOf, Asked, ResultOf, Delivered;
      Prologue();
      var l := Choose(w, items);
      calls := Finish(w, l, Planned(w, frame[4], frame[6], items));
      PlanDelivers(w, frame[4], frame[5], frame[6], items, base, calls);
      assert log[|old(log)|..] == Asked(w, frame[4], frame[6], items, base) + calls;
      Epilogue();
    }
  }

  // ---------------------------------------------------------------- steps of the loops

  lemma NthZero(p: u32)
    ensures Nth(p, 0) == p
  {}

  lemma NthNext(p: u32, i: nat)
    ensures Nth(p, i + 1) == Add32(Nth(p, i), 2)
  {}

  lemma FoldDiffers(mem: Memory, p: u32, s: bytes, i: nat)
    requires i <= |s| && Fold(UnitAt(mem, Nth(p, i))) != if i < |s| then s[i] else 0
    ensures !FoldsTo(mem, p, s)
  {
    hide UnitAt, Nth;
  }

  lemma FoldEnds(mem: Memory, p: u32, s: bytes, i: nat)
    requires i == |s| && Fold(UnitAt(mem, Nth(p, i))) == 0
    requires forall k | 0 <= k < i :: Fold(UnitAt(mem, Nth(p, k))) == s[k]
    ensures FoldsTo(mem, p, s)
  {
    hide UnitAt, Nth;
  }

  lemma BeforeNothing(t: Tail)
    ensures Before([], t) == t
  {}

  lemma TailStep(mem: Memory, p: u32, room: nat, done: seq<u16>)
    ensures room == 0 ==> Before(done, TailOf(mem, p, room)) == NoRoom
    ensures room > 0 && Separator(UnitAt(mem, p)) ==> Before(done, TailOf(mem, p, room)) == HasSeparator
    ensures room > 0 && UnitAt(mem, p) == 0 ==> Before(done, TailOf(mem, p, room)) == Copied(done + [0])
    ensures room > 0 && !Separator(UnitAt(mem, p)) && UnitAt(mem, p) != 0 ==>
              Before(done, TailOf(mem, p, room)) == Before(done + [UnitAt(mem, p)], TailOf(mem, Add32(p, 2), room - 1))
  {
    hide UnitAt;
  }

  // ---------------------------------------------------------------- what the plan promises

  /** The NUL-free wide string s is stored at p with its terminator. */
  ghost predicate WideStr(mem: Memory, p: u32, s: seq<u16>) {
    && (forall i | 0 <= i < |s| :: UnitAt(mem, Nth(p, i)) == s[i] != 0)
    && UnitAt(mem, Nth(p, |s|)) == 0
  }

  /** A file name alone, without drive or directory. */
  ghost predicate BareName(s: seq<u16>) { forall i | 0 <= i < |s| :: !Separator(s[i]) }

  lemma {:induction false} NthShift(p: u32, i: nat)
    ensures Nth(Add32(p, 2), i) == Nth(p, i + 1)
  {
    hide Add32;
    if i > 0 {
      NthShift(p, i - 1);
    } else {
      assert Nth(p, 0) == p;
    }
  }

  lemma WideRest(mem: Memory, p: u32, s: seq<u16>)
    requires WideStr(mem, p, s) && s != []
    ensures UnitAt(mem, p) == s[0] != 0 && WideStr(mem, Add32(p, 2), s[1..])
  {
    hide UnitAt, Add32;
    assert Nth(p, 0) == p;
    forall i | 0 <= i < |s[1..]| ensures UnitAt(mem, Nth(Add32(p, 2), i)) == s[1..][i] != 0 {
      NthShift(p, i);
      assert UnitAt(mem, Nth(p, i + 1)) == s[i + 1] != 0;
    }
    NthShift(p, |s| - 1);
  }

  lemma WideEnd(mem: Memory, p: u32, s: seq<u16>)
    requires WideStr(mem, p, s) && s == []
    ensures UnitAt(mem, p) == 0
  {
    hide UnitAt;
    assert Nth(p, 0) == p;
  }

  /** A bare name is copied in full with its NUL, or not at all; any other name is never copied. */
  lemma {:induction false} TailOfName(mem: Memory, p: u32, s: seq<u16>, room: nat)
    requires WideStr(mem, p, s)
    ensures BareName(s) ==> TailOf(mem, p, room) == if |s| < room then Copied(s + [0]) else NoRoom
    ensures !BareName(s) ==> !TailOf(mem, p, room).Copied?
    decreases room
  {
    hide UnitAt, Add32, WideStr;
    if room == 0 {
    } else if s == [] {
      WideEnd(mem, p, s);
    } else {
      WideRest(mem, p, s);
      TailOfName(mem, Add32(p, 2), s[1..], room - 1);
      BareRest(s);
      assert [s[0]] + (s[1..] + [0]) == s + [0];
    }
  }

  lemma BareRest(s: seq<u16>)
    requires s != []
    ensures BareName(s) <==> !Separator(s[0]) && BareName(s[1..])
  {
    hide Separator;
    if BareName(s[1..]) && !Separator(s[0]) {
      forall i | 0 <= i < |s| ensures !Separator(s[i]) {
        if i > 0 { assert !Separator(s[1..][i - 1]); }
      }
    }
  }

  /**
   * With the SYSTEM32 flag a bare name that is not missing is loaded from the system directory, by exactly the path
   * directory, one backslash, name, NUL, or not at all: it never reaches the loader as it is.
   */
  lemma BareNameLoadsFromSystemDirectory(w: World, name: u32, flags: u32, items: seq<bytes>, s: seq<u16>)
    requires |w.dirBuf| == UNITS && name != 0 && WideStr(w.mem, name, s) && BareName(s)
    requires !NotThere(w.mem, name, items) && BitAnd(flags, SEARCH_SYSTEM32) != 0
    ensures var p := Planned(w, name, flags, items);
            && p != Load(Given)
            && (p.Load? <==> 0 < w.dirLen < 260 && |WithSlash(w.dirBuf[..w.dirLen])| + |s| + 1 <= UNITS)
            && (p.Load? ==> p == Load(Built(WithSlash(w.dirBuf[..w.dirLen]) + s + [0])))
  {
    hide NotThere, BitAnd, TailOf, WideStr, BareName, WithSlash;
    if 0 < w.dirLen < 260 {
      var dir := WithSlash(w.dirBuf[..w.dirLen]);
      TailOfName(w.mem, name, s, UNITS - |dir|);
      assert dir + (s + [0]) == dir + s + [0];
    }
  }

  /** A name with a separator is passed on as it is, or fails for its length; it is never put behind the directory. */
  lemma OtherNameIsNeverBuilt(w: World, name: u32, flags: u32, items: seq<bytes>, s: seq<u16>)
    requires |w.dirBuf| == UNITS && name != 0 && WideStr(w.mem, name, s) && !BareName(s)
    ensures var p := Planned(w, name, flags, items);
            p.Load? ==> p == Load(Given)
  {
    hide NotThere, BitAnd, TailOf, WideStr, BareName, WithSlash;
    if 0 < w.dirLen < 260 {
      TailOfName(w.mem, name, s, UNITS - |WithSlash(w.dirBuf[..w.dirLen])|);
    }
  }

  /** The strings are equal but for the case of ASCII letters in the first, and the second is stored in lower case. */
  ghost predicate SameName(s: seq<u16>, item: bytes) {
    |s| == |item| && forall i | 0 <= i < |s| :: Fold(s[i]) == item[i]
  }

  lemma FoldsToMeans(mem: Memory, p: u32, s: seq<u16>, item: bytes)
    requires WideStr(mem, p, s) && forall i | 0 <= i < |item| :: item[i] != 0
    ensures FoldsTo(mem, p, item) <==> SameName(s, item)
  {
    hide UnitAt, Nth;
    if SameName(s, item) {
      forall i | 0 <= i < |s| ensures Fold(UnitAt(mem, Nth(p, i))) == item[i] { assert UnitAt(mem, Nth(p, i)) == s[i]; }
    }
    if FoldsTo(mem, p, item) {
      ShorterFold(mem, p, s, item);
      forall i | 0 <= i < |s| ensures Fold(s[i]) == item[i] { assert UnitAt(mem, Nth(p, i)) == s[i]; }
    }
  }

  lemma ShorterFold(mem: Memory, p: u32, s: seq<u16>, item: bytes)
    requires WideStr(mem, p, s) && FoldsTo(mem, p, item) && forall i | 0 <= i < |item| :: item[i] != 0
    ensures |s| == |item|
  {
    hide UnitAt, Nth;
  }

  /** The hook returns the sentinel without loading anything exactly when the folded name is in the list. */
  lemma SentinelIffMissing(w: World, name: u32, flags: u32, items: seq<bytes>, s: seq<u16>)
    requires |w.dirBuf| == UNITS && name != 0 && WideStr(w.mem, name, s)
    requires forall k, i | 0 <= k < |items| && 0 <= i < |items[k]| :: items[k][i] != 0
    ensures Planned(w, name, flags, items) == Absent <==> exists k | 0 <= k < |items| :: SameName(s, items[k])
  {
    hide BitAnd, TailOf, WideStr, WithSlash, SameName, FoldsTo;
    forall k | 0 <= k < |items| ensures FoldsTo(w.mem, name, items[k]) <==> SameName(s, items[k]) {
      FoldsToMeans(w.mem, name, s, items[k]);
    }
  }

  // ---------------------------------------------------------------- the flags

  /** The flags XP does not know, 0x1F00, are always cleared, and no others. */
  lemma SearchFlagsCleared(flags: u32, k: nat)
    ensures BitAnd(BitAnd(flags, XP_FLAGS), 0x1F00) == 0
    ensures Bit(BitAnd(flags, XP_FLAGS), k) == (Bit(flags, k) && !Bit(0x1F00, k))
  {
    hide BitAnd, AndNot, Bit, Pow2;
    Pow2Of32();
    MaskIsNot(flags, 0x1F00, 32);
    AndNotIsClear(flags, 0x1F00);
    BitOfAndNot(flags, 0x1F00, k);
  }

  lemma BitsOf1F00(k: nat)
    ensures Bit(0x1F00, k) <==> 8 <= k <= 12
  {
    hide Bit;
    assert Pow2(5) == 0x20;
    assert Pow2(8) == 0x100;
    BitsOfRun(5, 8, k);
  }

  lemma SystemBit(flags: u32)
    ensures BitAnd(flags, SEARCH_SYSTEM32) != 0 <==> Bit(flags, 11)
  {
    hide BitAnd, Bit;
    assert Pow2(4) == 16;
    assert Pow2(8) == 256;
    assert Pow2(11) == SEARCH_SYSTEM32;
    AndIsZeroIff(flags, SEARCH_SYSTEM32);
    forall k: nat ensures Bit(SEARCH_SYSTEM32, k) <==> k == 11 { BitOfPow2(11, k); }
  }

  // ---------------------------------------------------------------- the call, case by case

  /** Unit i of the wide string at p. */
  function Wide(mem: Memory, p: u32, i: nat): u16 {
    (mem((p + 2 * i) % W32) as int) + 256 * (mem((p + 2 * i + 1) % W32) as int)
  }

  lemma {:induction false} WideIsUnit(mem: Memory, p: u32, i: nat)
    ensures Wide(mem, p, i) == UnitAt(mem, Nth(p, i))
  {
    NthMeans(p, i);
  }

  lemma {:induction false} NthMeans(p: u32, i: nat)
    ensures Nth(p, i) == (p + 2 * i) % W32
    ensures Add32(Nth(p, i), 1) == (p + 2 * i + 1) % W32
  {
    hide Add32;
    if i > 0 {
      NthMeans(p, i - 1);
      WrapAdd(p + 2 * (i - 1), 2);
    }
    WrapAdd(p + 2 * i, 1);
  }

  lemma WrapAdd(x: nat, k: u32)
    ensures Add32(x % W32, k) == (x + k) % W32
  {}

  /** The wide string at p is the list's string, which is in lower case. */
  ghost predicate Spells(mem: Memory, p: u32, s: bytes) {
    && (forall i | 0 <= i < |s| :: var u := Wide(mem, p, i); s[i] == if 65 <= u <= 90 then u + 32 else u)
    && Wide(mem, p, |s|) == 0
  }

  lemma SpellsMeans(mem: Memory, p: u32, s: bytes)
    ensures FoldsTo(mem, p, s) <==> Spells(mem, p, s)
  {
    hide UnitAt, Nth, Wide;
    forall i: nat ensures Wide(mem, p, i) == UnitAt(mem, Nth(p, i)) { WideIsUnit(mem, p, i); }
  }

  /** Unit i is the first that ends the name or cannot be part of a bare one. */
  ghost predicate StopsAt(mem: Memory, p: u32, i: nat) {
    Wide(mem, p, i) in {0, 47, 58, 92} && forall j | 0 <= j < i :: Wide(mem, p, j) !in {0, 47, 58, 92}
  }

  /** The first n units of the name. */
  function UnitsOf(mem: Memory, p: u32, n: nat): (r: seq<u16>)
    ensures |r| == n
  {
    seq(n, i requires 0 <= i < n => Wide(mem, p, i))
  }

  lemma WideShift(mem: Memory, p: u32, i: nat)
    ensures Wide(mem, Add32(p, 2), i) == Wide(mem, p, i + 1)
  {
    assert (Add32(p, 2) + 2 * i) % W32 == (p + 2 * (i + 1)) % W32;
    assert (Add32(p, 2) + 2 * i + 1) % W32 == (p + 2 * (i + 1) + 1) % W32;
  }

  /** What is copied of a name, by the place where it stops. */
  lemma {:induction false} TailMeans(mem: Memory, p: u32, room: nat)
    ensures (forall i: nat | i < room :: !StopsAt(mem, p, i)) ==> TailOf(mem, p, room) == NoRoom
    ensures forall i: nat | i < room && StopsAt(mem, p, i) ::
              TailOf(mem, p, room) == if Wide(mem, p, i) == 0 then Copied(UnitsOf(mem, p, i + 1)) else HasSeparator
    decreases room
  {
    hide UnitAt, Add32, Wide;
    if room > 0 {
      WideIsUnit(mem, p, 0);
      NthZero(p);
      if Wide(mem, p, 0) in {0, 47, 58, 92} {
        assert StopsAt(mem, p, 0);
        assert UnitsOf(mem, p, 1) == [Wide(mem, p, 0)];
      } else {
        TailMeans(mem, Add32(p, 2), room - 1);
        forall i: nat ensures StopsAt(mem, p, i + 1) <==> StopsAt(mem, Add32(p, 2), i)
                      ensures [Wide(mem, p, 0)] + UnitsOf(mem, Add32(p, 2), i) == UnitsOf(mem, p, i + 1)
        {
          StopShift(mem, p, i);
        }
        forall i: nat | i < room && StopsAt(mem, p, i)
          ensures TailOf(mem, p, room) == if Wide(mem, p, i) == 0 then Copied(UnitsOf(mem, p, i + 1)) else HasSeparator
        {
          assert i > 0 && StopsAt(mem, Add32(p, 2), i - 1);
          WideShift(mem, p, i - 1);
        }
      }
    }
  }

  lemma StopShift(mem: Memory, p: u32, i: nat)
    requires Wide(mem, p, 0) !in {0, 47, 58, 92}
    ensures StopsAt(mem, p, i + 1) <==> StopsAt(mem, Add32(p, 2), i)
    ensures [Wide(mem, p, 0)] + UnitsOf(mem, Add32(p, 2), i) == UnitsOf(mem, p, i + 1)
  {
    hide Wide, Add32;
    forall j: nat ensures Wide(mem, Add32(p, 2), j) == Wide(mem, p, j + 1) { WideShift(mem, p, j); }
    if StopsAt(mem, Add32(p, 2), i) {
      forall j | 0 <= j < i + 1 ensures Wide(mem, p, j) !in {0, 47, 58, 92} {
        if j > 0 { assert Wide(mem, Add32(p, 2), j - 1) == Wide(mem, p, j); }
      }
    }
    if StopsAt(mem, p, i + 1) {
      forall j | 0 <= j < i ensures Wide(mem, Add32(p, 2), j) !in {0, 47, 58, 92} {
        assert Wide(mem, p, j + 1) !in {0, 47, 58, 92};
      }
    }
  }

  /** One call of the real loader with this path, the caller's file, and its flags without bits 8 to 12. */
  ghost predicate OneLoad(c: Call, path: u32, file: u32, flags: u32) {
    c.RealLoad? && c.path == path && c.file == file && forall k: nat :: Bit(c.flags, k) <==> Bit(flags, k) && !(8 <= k <= 12)
  }

  ghost predicate Lacking(mem: Memory, p: u32, items: seq<bytes>) { exists k | 0 <= k < |items| :: Spells(mem, p, items[k]) }

  /** The name as it is: none, or one that is not missing and is not to be searched in the system directory. */
  ghost predicate AsGiven(w: World, name: u32, flags: u32, items: seq<bytes>) {
    name == 0 || (!Lacking(w.mem, name, items) && !Bit(flags, 11))
  }

  /** The units that the directory with its backslash takes. */
  function DirUnits(w: World): nat
    requires |w.dirBuf| == UNITS && 0 < w.dirLen < 260
  {
    w.dirLen + if w.dirBuf[w.dirLen - 1] == 92 then 0 else 1
  }

  /** What follows once the system directory has been asked for, and is short enough. */
  ghost predicate Searched(w: World, name: u32, file: u32, flags: u32, base: u32, r: u32, calls: seq<Call>)
    requires |w.dirBuf| == UNITS && 0 < w.dirLen < 260
  {
    var n := DirUnits(w);
    && ((forall i: nat | n + i < 264 :: !StopsAt(w.mem, name, i)) ==> r == 0 && calls == [SetLastError(206)])
    && forall i: nat | n + i < 264 && StopsAt(w.mem, name, i) ::
         && r == w.handle && |calls| == 1
         && OneLoad(calls[0], if Wide(w.mem, name, i) == 0 then base else name, file, flags)
         && (Wide(w.mem, name, i) == 0 ==> HoldsPath(calls[0], w.dirBuf[..w.dirLen], n, UnitsOf(w.mem, name, i + 1)))
  }

  /** The buffer starts with the directory, a backslash at its end, and then the name; that takes n and |units| units. */
  ghost predicate HoldsPath(c: Call, dir: seq<u16>, n: nat, units: seq<u16>) {
    && c.RealLoad? && 0 < n && |dir| <= n && n + |units| <= |c.held|
    && c.held[..|dir|] == dir && c.held[n - 1] == 92 && c.held[n..n + |units|] == units
  }

  /** What the hook does, case by case. */
  ghost predicate Delivered(w: World, name: u32, file: u32, flags: u32, items: seq<bytes>, base: u32, r: u32, calls: seq<Call>)
    requires |w.dirBuf| == UNITS
  {
    && (AsGiven(w, name, flags, items) ==> r == w.handle && |calls| == 1 && OneLoad(calls[0], name, file, flags))
    && (name != 0 && Lacking(w.mem, name, items) ==> r == 0x476F_3258 && calls == [])
    && (name != 0 && !Lacking(w.mem, name, items) && Bit(flags, 11) ==>
          && calls != [] && calls[0] == SystemDirectory(base, 264)
          && (w.dirLen == 0 ==> r == 0 && |calls| == 1)
          && (w.dirLen >= 260 ==> r == 0 && calls == [SystemDirectory(base, 264), SetLastError(206)])
          && (0 < w.dirLen < 260 ==> Searched(w, name, file, flags, base, r, calls[1..])))
  }

  /** The plan comes to that. */
  lemma PlanDelivers(w: World, name: u32, file: u32, flags: u32, items: seq<bytes>, base: u32, calls: seq<Call>)
    requires |w.dirBuf| == UNITS && CallsOf(calls, Planned(w, name, flags, items), name, file, flags, base)
    ensures Delivered(w, name, file, flags, items, base, ResultOf(w, Planned(w, name, flags, items)),
                      Asked(w, name, flags, items, base) + calls)
  {
    hide InSystem32, BitAnd, Bit, FoldsTo, Spells, Searched, OneLoad, Loads;
    forall k | 0 <= k < |items| ensures FoldsTo(w.mem, name, items[k]) <==> Spells(w.mem, name, items[k]) {
      SpellsMeans(w.mem, name, items[k]);
    }
    SystemBit(flags);
    var p := Planned(w, name, flags, items);
    if AsGiven(w, name, flags, items) {
      GivenLoads(calls[0], name, file, flags, base);
    } else if !Lacking(w.mem, name, items) {
      assert ([SystemDirectory(base, 264)] + calls)[1..] == calls;
      if 0 < w.dirLen < 260 { SearchDelivers(w, name, file, flags, base, calls); } else { NoSearch(w, name); }
    }
  }

  lemma GivenLoads(c: Call, name: u32, file: u32, flags: u32, base: u32)
    ensures Loads(c, Given, name, file, flags, base) ==> OneLoad(c, name, file, flags)
  {
    hide BitAnd, Bit;
    forall k: nat ensures Bit(BitAnd(flags, XP_FLAGS), k) <==> Bit(flags, k) && !(8 <= k <= 12) {
      SearchFlagsCleared(flags, k);
      BitsOf1F00(k);
    }
  }

  lemma BuiltLoads(c: Call, dir: seq<u16>, k: nat, units: seq<u16>, name: u32, file: u32, flags: u32, base: u32)
    requires k <= |dir| && 0 < |dir| && dir[|dir| - 1] == 92
    ensures Loads(c, Built(dir + units), name, file, flags, base) ==>
              OneLoad(c, base, file, flags) && HoldsPath(c, dir[..k], |dir|, units)
  {
    hide BitAnd, Bit;
    forall j: nat ensures Bit(BitAnd(flags, XP_FLAGS), j) <==> Bit(flags, j) && !(8 <= j <= 12) {
      SearchFlagsCleared(flags, j);
      BitsOf1F00(j);
    }
    if Loads(c, Built(dir + units), name, file, flags, base) {
      Parts(c.held, dir, units, k);
    }
  }

  lemma NoSearch(w: World, name: u32)
    requires |w.dirBuf| == UNITS && !(0 < w.dirLen < 260)
    ensures InSystem32(w, name) == if w.dirLen == 0 then NoDirectory else TooLong
  {}

  lemma SearchDelivers(w: World, name: u32, file: u32, flags: u32, base: u32, calls: seq<Call>)
    requires |w.dirBuf| == UNITS && 0 < w.dirLen < 260
    requires CallsOf(calls, InSystem32(w, name), name, file, flags, base)
    ensures Searched(w, name, file, flags, base, ResultOf(w, InSystem32(w, name)), calls)
  {
    hide Bit, BitAnd, Wide, StopsAt, TailOf, UnitsOf, OneLoad, Loads, HoldsPath, WithSlash;
    SlashMeans(w);
    var dir, n := WithSlash(w.dirBuf[..w.dirLen]), DirUnits(w);
    TailMeans(w.mem, name, UNITS - n);
    forall i: nat | n + i < 264 && StopsAt(w.mem, name, i)
      ensures var r := ResultOf(w, InSystem32(w, name));
              && r == w.handle && |calls| == 1
              && OneLoad(calls[0], if Wide(w.mem, name, i) == 0 then base else name, file, flags)
              && (Wide(w.mem, name, i) == 0 ==> HoldsPath(calls[0], w.dirBuf[..w.dirLen], n, UnitsOf(w.mem, name, i + 1)))
    {
      if Wide(w.mem, name, i) == 0 {
        BuiltLoads(calls[0], dir, w.dirLen, UnitsOf(w.mem, name, i + 1), name, file, flags, base);
      } else {
        GivenLoads(calls[0], name, file, flags, base);
      }
    }
  }

  lemma SlashMeans(w: World)
    requires |w.dirBuf| == UNITS && 0 < w.dirLen < 260
    ensures var dir := WithSlash(w.dirBuf[..w.dirLen]);
            |dir| == DirUnits(w) && w.dirLen <= |dir| && dir[..w.dirLen] == w.dirBuf[..w.dirLen] && dir[|dir| - 1] == 92
  {}

  lemma Parts(b: seq<u16>, dir: seq<u16>, units: seq<u16>, k: nat)
    requires 0 < |dir| && k <= |dir| && |dir| + |units| <= |b| && b[..|dir| + |units|] == dir + units
    ensures b[..k] == dir[..k] && b[|dir| - 1] == dir[|dir| - 1] && b[|dir|..|dir| + |units|] == units
  {
    var u := b[..|dir| + |units|];
    assert b[..k] == u[..k] && b[|dir| - 1] == u[|dir| - 1] && b[|dir|..|dir| + |units|] == u[|dir|..];
  }
}
