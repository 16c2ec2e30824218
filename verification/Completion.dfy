/** xp_GetQueuedCompletionStatusEx: one packet a call, taken with the plain GetQueuedCompletionStatus. */
module Completion {
  import opened Bytes

  /** A completion packet. One of a failed operation always carries the operation's OVERLAPPED. */
  datatype Packet = Packet(transferred: u32, key: u32, overlapped: u32, failed: bool) {
    predicate Possible() { failed ==> overlapped != 0 }
  }

  /** OVERLAPPED_ENTRY. */
  datatype Entry = Entry(key: u32, overlapped: u32, internal: u32, transferred: u32)

  /** Words of the caller's memory, by address. */
  type Words = map<u32, u32>

  // ---------------------------------------------------------------- what one call does

  function EntryOf(p: Packet): Entry { Entry(p.key, p.overlapped, 0, p.transferred) }

  /** Memory with an entry at address a and a count of one at address n, written in that order. */
  function Filled(mem: Words, a: u32, n: u32, e: Entry): Words {
    mem[a := e.key][Add32(a, 4) := e.overlapped][Add32(a, 8) := e.internal][Add32(a, 12) := e.transferred][n := 1]
  }

  /** The entry that memory holds at address a. */
  function EntryIn(mem: Words, a: u32): Option<Entry> {
    if a in mem && Add32(a, 4) in mem && Add32(a, 8) in mem && Add32(a, 12) in mem
    then Some(Entry(mem[a], mem[Add32(a, 4)], mem[Add32(a, 8)], mem[Add32(a, 12)]))
    else None
  }

  /** The caller reads back the entry and the count, unless it asked for them in the same place. */
  lemma FilledReadsBack(mem: Words, a: u32, n: u32, e: Entry)
    requires a + 16 <= W32 && (n < a || a + 16 <= n)
    ensures EntryIn(Filled(mem, a, n, e), a) == Some(e) && Filled(mem, a, n, e)[n] == 1
    ensures forall x | x in mem && x != n && (x < a || a + 16 <= x) :: x in Filled(mem, a, n, e) && Filled(mem, a, n, e)[x] == mem[x]
  {}

  /**
   * What the caller finds: at a the packet's key, OVERLAPPED, a zero and its size, at n a count of one, and everything
   * else as it was. Where n is one of the four words of the entry the count wins.
   */
  ghost predicate Reported(was: Words, mem: Words, a: u32, n: u32, p: Packet) {
    && n in mem && mem[n] == 1
    && (n != a ==> a in mem && mem[a] == p.key)
    && (n != Add32(a, 4) ==> Add32(a, 4) in mem && mem[Add32(a, 4)] == p.overlapped)
    && (n != Add32(a, 8) ==> Add32(a, 8) in mem && mem[Add32(a, 8)] == 0)
    && (n != Add32(a, 12) ==> Add32(a, 12) in mem && mem[Add32(a, 12)] == p.transferred)
    && forall x | x !in {a, Add32(a, 4), Add32(a, 8), Add32(a, 12), n} ::
         (x in mem <==> x in was) && (x in was ==> mem[x] == was[x])
  }

  lemma FilledReports(mem: Words, a: u32, n: u32, p: Packet)
    ensures Reported(mem, Filled(mem, a, n, EntryOf(p)), a, n, p)
  {}

  /** A call takes the packet at the head when there is room for an entry and the port delivers one. */
  predicate Takes(queue: seq<Packet>, count: u32, delivers: bool) { count != 0 && delivers && queue != [] }

  // ---------------------------------------------------------------- the machine

  class Cpu {
    var ax: u32
    var bx: u32
    var cx: u32
    var dx: u32
    var si: u32
    var di: u32
    /** The words of the stack; index 0 is 0(SP). A stack address is the number of words from its base up. */
    var stack: seq<u32>
    var mem: Words
    /** The packets waiting at the port. */
    var queue: seq<Packet>
    /** The ports and timeouts of the plain calls made so far. */
    var log: seq<(u32, u32)>

    /** LEAL off(SP). */
    function AddressOf(off: nat): u32
      reads this
      requires off % 4 == 0 && off < 4 * |stack| && |stack| < W32
    {
      |stack| - off / 4
    }

    /** A store through a stack address. */
    method StoreAt(address: nat, v: u32)
      requires 0 < address <= |stack|
      modifies this`stack
      ensures stack == old(stack)[|old(stack)| - address := v]
    {
      stack := stack[|stack| - address := v];
    }

    /**
     * GetQueuedCompletionStatus: takes the packet at the head of the queue, or nothing for a timeout or an error. It
     * returns FALSE for nothing, and for the packet of a failed operation. Its five arguments, port, three addresses of
     * results, and timeout, are popped; the results go to the three words behind the arguments.
     */
    method Dequeue(delivers: bool)
      requires |stack| >= 8 && stack[1] == |stack| - 5 && stack[2] == |stack| - 6 && stack[3] == |stack| - 7
      modifies this`ax, this`cx, this`dx, this`stack, this`queue, this`log
      ensures log == old(log) + [(old(stack)[0], old(stack)[4])]
      ensures |stack| == |old(stack)| - 5 && stack[3..] == old(stack)[8..]
      ensures if delivers && old(queue) != [] then
                var p := old(queue)[0];
                && queue == old(queue)[1..] && (ax == 0 <==> p.failed)
                && stack[0] == p.transferred && stack[1] == p.key && stack[2] == p.overlapped
              else
                queue == old(queue) && ax == 0 && stack[2] == old(stack)[7]
    {
      var transferred, key, overlapped := stack[1], stack[2], stack[3];
      log := log + [(stack[0], stack[4])];
      stack := stack[5..];
      if delivers && queue != [] {
        var p := queue[0];
        queue := queue[1..];
        StoreAt(transferred, p.transferred);
        StoreAt(key, p.key);
        StoreAt(overlapped, p.overlapped);
        ax := if p.failed then 0 else 1;
      } else {
        var junk: u32 := *;
        StoreAt(transferred, junk);
        StoreAt(key, junk);
        ax := 0;
      }
      cx, dx := *, *;
    }

    /** gqe_fill, with the scratch words transferred, key and overlapped on top of the stack. */
    method Fill()
      requires |stack| >= 11
      modifies this`ax, this`di, this`mem, this`stack
      ensures ax == 1 && stack == old(stack)[3..]
      ensures mem == Filled(old(mem), old(stack)[8], old(stack)[10], Entry(old(stack)[1], old(stack)[2], 0, old(stack)[0]))
    {
      di := stack[8];
      ax := stack[1];
      mem := mem[di := ax];
      ax := stack[2];
      mem := mem[Add32(di, 4) := ax];
      mem := mem[Add32(di, 8) := 0];
      ax := stack[0];
      mem := mem[Add32(di, 12) := ax];
      di := stack[10];
      mem := mem[di := 1];
      stack := stack[3..];
      ax := 1;
    }

    /** SUBL $20, SP and the five arguments: the port, three result addresses in the scratch words, the timeout. */
    method PushArguments()
      requires 13 <= |stack| < 0x4000_0000
      modifies this`ax, this`stack
      ensures |stack| == |old(stack)| + 5 && stack[5..] == old(stack)
      ensures stack[0] == old(stack)[7] && stack[4] == old(stack)[11]
      ensures stack[1] == |stack| - 5 && stack[2] == |stack| - 6 && stack[3] == |stack| - 7
    {
      var junk: u32 := *;
      stack := [junk, junk, junk, junk, junk] + stack;
      ax := stack[12];
      stack := stack[0 := ax];
      ax := AddressOf(20);
      stack := stack[1 := ax];
      ax := AddressOf(24);
      stack := stack[2 := ax];
      ax := AddressOf(28);
      stack := stack[3 := ax];
      ax := stack[16];
      stack := stack[4 := ax];
    }

    /** From the check of the count to gqe_ret. */
    method Take(delivers: bool)
      requires 10 <= |stack| < 0x3FFF_F000 && forall i | 0 <= i < |queue| :: queue[i].Possible()
      modifies this`ax, this`cx, this`dx, this`di, this`stack, this`mem, this`queue, this`log
      ensures stack == old(stack)
      ensures log == old(log) + if stack[6] == 0 then [] else [(stack[4], stack[8])]
      ensures if Takes(old(queue), stack[6], delivers)
              then ax == 1 && queue == old(queue)[1..] && mem == Filled(old(mem), stack[5], stack[7], EntryOf(old(queue)[0]))
              else ax == 0 && queue == old(queue) && mem == old(mem)
      ensures ax == 1 <==> stack[6] != 0 && delivers && old(queue) != []
      ensures ax == 1 ==> queue == old(queue)[1..] && Reported(old(mem), mem, stack[5], stack[7], old(queue)[0])
    {
      hide Filled, Reported;
      ghost var was := stack;
      if queue != [] { FilledReports(mem, stack[5], stack[7], queue[0]); }
      ax := stack[6];
      if ax == 0 {
        return;
      }
      var junk: u32 := *;
      stack := [junk, junk, junk] + stack;
      stack := stack[2 := 0];
      PushArguments();
      Behind(stack, 5, 3, was);
      assert stack[7] == 0;
      Dequeue(delivers);
      assert stack[3..] == was;
      if ax == 0 {
        ax := stack[2];
        if ax == 0 {
          stack := stack[3..];
          return;
        }
      }
      assert stack[8] == was[5] && stack[10] == was[7];
      Fill();
    }

    /** PUSHL BX, SI, DI. */
    method Prologue()
      modifies this`stack
      ensures stack == [di, si, bx] + old(stack)
    {
      stack := [bx] + stack;
      stack := [si] + stack;
      stack := [di] + stack;
    }

    /** gqe_ret: POPL DI, SI, BX; return and pop six arguments. */
    method Epilogue()
      requires |stack| >= 10
      modifies this`stack, this`bx, this`di, this`si
      ensures stack == old(stack)[10..]
      ensures di == old(stack)[0] && si == old(stack)[1] && bx == old(stack)[2]
    {
      di, stack := stack[0], stack[1..];
      si, stack := stack[0], stack[1..];
      bx, stack := stack[0], stack[1..];
      stack := stack[7..];
    }

    /**
     * xp_GetQueuedCompletionStatusEx. On entry the stack holds the return address, the port, the entries, their
     * count, the count removed, the timeout and the alertable flag; they are popped.
     */
    method GetQueuedCompletionStatusEx(delivers: bool)
      requires 7 <= |stack| < 0x3FFF_0000 && forall i | 0 <= i < |queue| :: queue[i].Possible()
      modifies this
      ensures stack == old(stack)[7..]
      ensures bx == old(bx) && si == old(si) && di == old(di)
      ensures if Takes(old(queue), old(stack)[3], delivers)
              then ax == 1 && queue == old(queue)[1..] && mem == Filled(old(mem), old(stack)[2], old(stack)[4], EntryOf(old(queue)[0]))
              else ax == 0 && queue == old(queue) && mem == old(mem)
      ensures log == old(log) + if old(stack)[3] == 0 then [] else [(old(stack)[1], old(stack)[5])]
      ensures ax == 1 <==> old(stack)[3] != 0 && delivers && old(queue) != []
      ensures ax == 1 ==> queue == old(queue)[1..] && Reported(old(mem), mem, old(stack)[2], old(stack)[4], old(queue)[0])
      ensures ax != 1 ==> ax == 0 && queue == old(queue) && mem == old(mem)
    {
      hide Filled, Reported;
      Prologue();
      Take(delivers);
      Epilogue();
    }
  }

  /**
   * A caller that polls: packets arrive, it asks with a buffer at entries and a counter at removed, and after each TRUE
   * it reads the entry from its memory.
   */
  method Poll(cpu: Cpu, steps: seq<Step>, entries: u32, removed: u32) returns (reported: seq<Entry>, trues: nat)
    requires |cpu.stack| < 0x3FFE_0000 && entries + 16 <= W32 && (removed < entries || entries + 16 <= removed)
    requires forall i | 0 <= i < |cpu.queue| :: cpu.queue[i].Possible()
    requires forall i | 0 <= i < |steps| && steps[i].Arrive? :: steps[i].p.Possible()
    modifies cpu
    ensures Outcome(cpu.queue, reported, trues) == Run(old(cpu.queue), steps)
    ensures var all := old(cpu.queue) + Arrivals(steps);
            && trues == |reported| <= |all|
            && reported == EntriesOf(all[..|reported|]) && cpu.queue == all[|reported|..]
    ensures cpu.stack == old(cpu.stack)
  {
    hide Next, Filled, Takes, Run, Arrivals;
    reported, trues := [], 0;
    ghost var queue := cpu.queue;
    RunNothing(queue);
    assert steps[..0] == [];
    for i := 0 to |steps|
      invariant Outcome(cpu.queue, reported, trues) == Run(queue, steps[..i])
      invariant cpu.stack == old(cpu.stack)
      invariant forall k | 0 <= k < |cpu.queue| :: cpu.queue[k].Possible()
    {
      RunStep(queue, steps, i);
      ghost var before := Outcome(cpu.queue, reported, trues);
      match steps[i] {
        case Arrive(p) =>
          cpu.queue := cpu.queue + [p];
          ArriveStep(before, p);
        case Ask(count, delivers) =>
          AskStep(before, count, delivers);
          PollOnce(cpu, count, delivers, entries, removed);
          if cpu.ax != 0 {
            var e := EntryIn(cpu.mem, entries);
            reported := reported + [e.value];
            trues := trues + 1;
          }
      }
    }
    assert steps[..|steps|] == steps;
    PacketsConserved(queue, steps);
  }

  /** One call by that caller. */
  method PollOnce(cpu: Cpu, count: u32, delivers: bool, entries: u32, removed: u32)
    requires |cpu.stack| < 0x3FFE_0000 && entries + 16 <= W32 && (removed < entries || entries + 16 <= removed)
    requires forall i | 0 <= i < |cpu.queue| :: cpu.queue[i].Possible()
    modifies cpu
    ensures cpu.stack == old(cpu.stack)
    ensures if Takes(old(cpu.queue), count, delivers)
            then cpu.ax == 1 && cpu.queue == old(cpu.queue)[1..] && EntryIn(cpu.mem, entries) == Some(EntryOf(old(cpu.queue)[0]))
            else cpu.ax == 0 && cpu.queue == old(cpu.queue)
  {
    hide Filled, EntryIn;
    var junk: u32 := *;
    ghost var below := cpu.stack;
    cpu.stack := [junk, junk, entries, count, removed, junk, 0] + cpu.stack;
    assert cpu.stack[7..] == below;
    if Takes(cpu.queue, count, delivers) {
      FilledReadsBack(cpu.mem, entries, removed, EntryOf(cpu.queue[0]));
    }
    cpu.GetQueuedCompletionStatusEx(delivers);
  }

  lemma RunNothing(queue: seq<Packet>)
    ensures Run(queue, []) == Outcome(queue, [], 0)
  {}

  lemma RunStep(queue: seq<Packet>, steps: seq<Step>, i: nat)
    requires i < |steps|
    ensures Run(queue, steps[..i + 1]) == Next(Run(queue, steps[..i]), steps[i])
  {
    hide Next;
    assert steps[..i + 1][..i] == steps[..i];
  }

  lemma ArriveStep(o: Outcome, p: Packet)
    ensures Next(o, Arrive(p)) == Outcome(o.queue + [p], o.reported, o.trues)
  {}

  lemma AskStep(o: Outcome, count: u32, delivers: bool)
    ensures Takes(o.queue, count, delivers) ==> |o.queue| > 0
    ensures Next(o, Ask(count, delivers)) == if Takes(o.queue, count, delivers)
                                             then Outcome(o.queue[1..], o.reported + [EntryOf(o.queue[0])], o.trues + 1) else o
  {}

  lemma Behind(s: seq<u32>, i: nat, j: nat, was: seq<u32>)
    requires |s| >= i + j && |s[i..]| >= j && s[i..][j..] == was
    ensures s[i + j..] == was
  {}

  // ---------------------------------------------------------------- runs

  /** A packet arrives, or the caller asks. */
  datatype Step = Arrive(p: Packet) | Ask(count: u32, delivers: bool)

  /** After a run: the packets that wait, the entries reported, and how often a call returned TRUE. */
  datatype Outcome = Outcome(queue: seq<Packet>, reported: seq<Entry>, trues: nat)

  function Next(o: Outcome, s: Step): Outcome {
    match s
    case Arrive(p) => o.(queue := o.queue + [p])
    case Ask(count, delivers) =>
      if Takes(o.queue, count, delivers) then
        Outcome(o.queue[1..], o.reported + [EntryOf(o.queue[0])], o.trues + 1)
      else o
  }

  function Run(queue: seq<Packet>, steps: seq<Step>): Outcome {
    if steps == [] then Outcome(queue, [], 0) else Next(Run(queue, steps[..|steps| - 1]), steps[|steps| - 1])
  }

  function Arrivals(steps: seq<Step>): seq<Packet> {
    if steps == [] then []
    else Arrivals(steps[..|steps| - 1]) + match steps[|steps| - 1] { case Arrive(p) => [p] case Ask(_, _) => [] }
  }

  function EntriesOf(ps: seq<Packet>): seq<Entry> { seq(|ps|, i requires 0 <= i < |ps| => EntryOf(ps[i])) }

  /**
   * Conservation over every run: the entries reported are the packets that were waiting or arrived, in order, failed
   * ones included, up to some point, and exactly the rest still waits; TRUE was returned once for each.
   */
  lemma {:induction false} PacketsConserved(queue: seq<Packet>, steps: seq<Step>)
    ensures var o, all := Run(queue, steps), queue + Arrivals(steps);
            && o.trues == |o.reported| <= |all|
            && o.reported == EntriesOf(all[..|o.reported|])
            && o.queue == all[|o.reported|..]
    decreases |steps|
  {
    if steps == [] {
      assert queue + Arrivals(steps) == queue;
    } else {
      var k := |steps| - 1;
      PacketsConserved(queue, steps[..k]);
      var o, all := Run(queue, steps[..k]), queue + Arrivals(steps[..k]);
      StepConserves(o, all, steps[k]);
      assert queue + Arrivals(steps) == all + match steps[k] { case Arrive(p) => [p] case Ask(_, _) => [] };
    }
  }

  lemma StepConserves(o: Outcome, all: seq<Packet>, s: Step)
    requires |o.reported| <= |all| && o.reported == EntriesOf(all[..|o.reported|]) && o.queue == all[|o.reported|..]
    ensures var n, more := Next(o, s), all + match s { case Arrive(p) => [p] case Ask(_, _) => [] };
            && |n.reported| <= |more| && n.trues - o.trues == |n.reported| - |o.reported|
            && n.reported == EntriesOf(more[..|n.reported|])
            && n.queue == more[|n.reported|..]
  {
    var n, k := Next(o, s), |o.reported|;
    match s {
      case Arrive(p) => assert (all + [p])[..k] == all[..k];
      case Ask(count, delivers) =>
        assert all + [] == all;
        if Takes(o.queue, count, delivers) {
          assert all[..k + 1] == all[..k] + [all[k]];
        }
    }
  }
}
