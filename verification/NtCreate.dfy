/**
 * polyNtCreateFile: one bounded retry without OBJ_DONT_REPARSE that keeps the no-follow contract and every handle
 * accounted for.
 */
module NtCreate {
  import opened Bytes
  import opened Align

  const OBJ_DONT_REPARSE: u32 := 0x1000
  const FILE_OPEN_REPARSE_POINT: u32 := 0x20_0000
  const STATUS_INVALID_PARAMETER: u32 := 0xC000_000D
  const STATUS_REPARSE_POINT_ENCOUNTERED: u32 := 0xC000_050B
  const STATUS_ACCESS_DENIED: u32 := 0xC000_0022

  /** int32(status) >= 0. */
  predicate Success(status: u32) { status < 0x8000_0000 }

  /** UNICODE_STRING: a length in bytes, and the buffer's contents where there is a buffer. */
  datatype UnicodeString = UnicodeString(length: u16, maximumLength: u16, buffer: Option<seq<u16>>) {
    /** The buffer is as long as the length says. */
    predicate Backed() { buffer.Some? ==> length / 2 <= |buffer.value| }
  }

  /** OBJECT_ATTRIBUTES, a structure in the caller's memory. */
  class ObjectAttributes {
    var length: u32
    var root: u32
    var name: Option<UnicodeString>
    var attributes: u32
    var security: (u32, u32)

    constructor (length: u32, root: u32, name: Option<UnicodeString>, attributes: u32, security: (u32, u32))
      ensures Value() == AttributeValue(length, root, name, attributes, security)
    {
      this.length, this.root, this.name, this.attributes, this.security := length, root, name, attributes, security;
    }

    function Value(): AttributeValue
      reads this
    {
      AttributeValue(length, root, name, attributes, security)
    }
  }

  /** The contents of such a structure. */
  datatype AttributeValue = AttributeValue(length: u32, root: u32, name: Option<UnicodeString>, attributes: u32,
                                           security: (u32, u32))

  /** The arguments that are passed on as they are. */
  datatype Rest = Rest(access: u32, iosb: u32, allocation: u32, fileAttrs: u32, share: u32, ea: u32, eaLen: u32)

  /** One call of the real NtCreateFile, with the attributes as they are at that moment. */
  datatype Request = Request(hasResult: bool, attrs: Option<AttributeValue>, disposition: u32, options: u32, rest: Rest)

  /** What a handle refers to: whether it is a reparse point, and whether its information can be read. */
  datatype Object = Object(reparse: bool, readable: bool)

  /** The kernel's reply: a new handle and a success status, or a failure status. */
  datatype Reply = Opened(status: u32, handle: u32, obj: Object) | Failed(status: u32) {
    predicate Possible(q: Request, open: map<u32, Object>) {
      match this
      case Opened(status, handle, _) => Success(status) && handle != 0 && handle !in open && q.hasResult
      case Failed(status) => !Success(status)
    }
  }

  // ---------------------------------------------------------------- the rules

  /** A single path component that does not lead upwards. */
  predicate Component(s: seq<u16>) {
    && (forall i | 0 <= i < |s| :: s[i] != 92 && s[i] != 47 && s[i] != 58 && s[i] != 0)
    && s != [46, 46]
  }

  /**
   * The requests that are worth a second try; none whose name has a separator, a colon or a NUL, or is the parent
   * directory.
   */
  predicate Retryable(q: Request) {
    && q.attrs.Some? && q.hasResult && q.disposition == 1 && BitAnd(q.options, 0x30) != 0
    && var oa := q.attrs.value;
       BitAnd(oa.attributes, OBJ_DONT_REPARSE) != 0 && oa.root != 0
       && oa.name.Some? && Named(oa.name.value) && Component(oa.name.value.buffer.value[..oa.name.value.length / 2])
  }

  predicate Named(n: UnicodeString) { n.Backed() && n.buffer.Some? && n.length != 0 && n.length % 2 == 0 }

  /** The second try: relative to the same parent, following nothing. */
  function Again(q: Request): Request
    requires q.attrs.Some?
  {
    var oa := q.attrs.value;
    q.(attrs := Some(oa.(attributes := AndNot(oa.attributes, OBJ_DONT_REPARSE))),
       options := Or32(q.options, FILE_OPEN_REPARSE_POINT))
  }

  predicate Retries(q: Request, first: Reply) { first.status == STATUS_INVALID_PARAMETER && Retryable(q) }

  /** What the caller gets: the status, and the handle left open for it. */
  datatype Outcome = Outcome(status: u32, held: Option<(u32, Object)>)

  function OutcomeOf(q: Request, first: Reply, second: Reply): Outcome {
    if !Retries(q, first) then Outcome(first.status, if first.Opened? then Some((first.handle, first.obj)) else None)
    else if second.Failed? then Outcome(second.status, None)
    else if !second.obj.readable then Outcome(STATUS_ACCESS_DENIED, None)
    else if second.obj.reparse then Outcome(STATUS_REPARSE_POINT_ENCOUNTERED, None)
    else Outcome(second.status, Some((second.handle, second.obj)))
  }

  function Holding(open: map<u32, Object>, o: Option<(u32, Object)>): map<u32, Object> {
    if o.Some? then open[o.value.0 := o.value.1] else open
  }

  // ---------------------------------------------------------------- the rules, condition by condition

  /** The name has a buffer and a length, and is one component that is neither a way out nor a stream. */
  predicate SingleName(n: UnicodeString) {
    && n.buffer.Some? && n.length != 0 && n.length % 2 == 0 && n.length / 2 <= |n.buffer.value|
    && (forall i | 0 <= i < n.length / 2 :: n.buffer.value[i] !in {92, 47, 58, 0})
    && !(n.length == 4 && n.buffer.value[0] == 46 && n.buffer.value[1] == 46)
  }

  /**
   * The request failed for a parameter, opens an existing file or directory synchronously, refuses reparse points, and
   * is relative to a parent by a single name.
   */
  predicate Retried(q: Request, first: Reply) {
    && first.status == 0xC000_000D && q.hasResult && q.disposition == 1 && (Bit(q.options, 4) || Bit(q.options, 5))
    && q.attrs.Some? && q.attrs.value.root != 0 && Bit(q.attrs.value.attributes, 12)
    && q.attrs.value.name.Some? && SingleName(q.attrs.value.name.value)
  }

  lemma RetriesIff(q: Request, first: Reply)
    ensures Retries(q, first) <==> Retried(q, first)
  {
    hide BitAnd, Bit, SingleName, Component, Named;
    SyncBits(q.options);
    if q.attrs.Some? {
      ReparseBit(q.attrs.value.attributes);
      if q.attrs.value.name.Some? { NameMeans(q.attrs.value.name.value); }
    }
  }

  lemma NameMeans(n: UnicodeString)
    ensures Named(n) && Component(n.buffer.value[..n.length / 2]) <==> SingleName(n)
  {
    if n.buffer.Some? && n.length / 2 <= |n.buffer.value| {
      var s := n.buffer.value[..n.length / 2];
      assert s == [46, 46] <==> |s| == 2 && s[0] == 46 && s[1] == 46;
      assert forall i | 0 <= i < |s| :: s[i] == n.buffer.value[i];
    }
  }

  lemma SyncBits(x: u32)
    ensures BitAnd(x, 0x30) != 0 <==> Bit(x, 4) || Bit(x, 5)
  {
    hide BitAnd, Bit;
    AndIsZeroIff(x, 0x30);
    forall k: nat ensures Bit(0x30, k) <==> k == 4 || k == 5 { BitsOf30(k); }
  }

  lemma BitsOf30(k: nat)
    ensures Bit(0x30, k) <==> k == 4 || k == 5
  {
    hide Bit;
    assert Pow2(2) == 4;
    assert Pow2(4) == 0x10;
    BitsOfRun(2, 4, k);
  }

  lemma ReparseBit(x: u32)
    ensures BitAnd(x, OBJ_DONT_REPARSE) != 0 <==> Bit(x, 12)
    ensures Pow2(12) == OBJ_DONT_REPARSE && Pow2(21) == FILE_OPEN_REPARSE_POINT
  {
    hide BitAnd, Bit;
    assert Pow2(4) == 16;
    assert Pow2(8) == 256;
    assert Pow2(12) == 0x1000;
    assert Pow2(16) == 0x1_0000;
    assert Pow2(20) == 0x10_0000;
    AndIsZeroIff(x, 0x1000);
    forall k: nat ensures Bit(0x1000, k) <==> k == 12 { BitOfPow2(12, k); }
  }

  // ---------------------------------------------------------------- the code

  class Process {
    /** The open handles. */
    var open: map<u32, Object>
    /** The caller's handle variable. */
    var result: u32
    /** The calls of the real NtCreateFile. */
    var log: seq<Request>

    method Native(q: Request, reply: Reply) returns (status: u32)
      requires reply.Possible(q, open)
      modifies this
      ensures status == reply.status && log == old(log) + [q]
      ensures reply.Opened? ==> open == old(open)[reply.handle := reply.obj] && result == reply.handle
      ensures reply.Failed? ==> open == old(open) && result == old(result)
    {
      log := log + [q];
      status := reply.status;
      match reply {
        case Opened(_, handle, obj) =>
          open := open[handle := obj];
          result := handle;
        case Failed(_) =>
      }
    }

    /** CloseHandle(*hp); *hp = 0. */
    method CloseResult()
      modifies this`open, this`result
      ensures open == old(open) - {old(result)} && result == 0
    {
      open := open - {result};
      result := 0;
    }

    /**
     * Go: polyNtCreateFile. The attributes of the caller are left alone: the second try works on a copy.
     */
    method PolyNtCreateFile(hasResult: bool, attrs: ObjectAttributes?, disposition: u32, options: u32, rest: Rest,
                            first: Reply, second: Reply)
      returns (r: u32)
      requires attrs != null && attrs.name.Some? ==> attrs.name.value.Backed()
      requires var q := Request(hasResult, if attrs == null then None else Some(attrs.Value()), disposition, options, rest);
               first.Possible(q, open) && (q.attrs.Some? ==> second.Possible(Again(q), open))
      modifies this
      ensures var q := Request(hasResult, if attrs == null then None else Some(attrs.Value()), disposition, options, rest);
              && r == OutcomeOf(q, first, second).status
              && open == Holding(old(open), OutcomeOf(q, first, second).held)
              && (OutcomeOf(q, first, second).held.Some? ==> result == OutcomeOf(q, first, second).held.value.0)
              && log == old(log) + if Retries(q, first) then [q, Again(q)] else [q]
      ensures var q := Request(hasResult, if attrs == null then None else Some(attrs.Value()), disposition, options, rest);
              if !Retried(q, first) then
                && r == first.status && log == old(log) + [q]
                && open == (if first.Opened? then old(open)[first.handle := first.obj] else old(open))
                && result == (if first.Opened? then first.handle else old(result))
              else
                && log == old(log) + [q, Again(q)]
                && (second.Failed? ==> r == second.status && open == old(open) && result == old(result))
                && (second.Opened? && second.obj.readable && !second.obj.reparse ==>
                      r == second.status && open == old(open)[second.handle := second.obj] && result == second.handle)
                && (second.Opened? && second.obj.readable && second.obj.reparse ==>
                      r == 0xC000_050B && open == old(open) && result == 0)
                && (second.Opened? && !second.obj.readable ==> r == 0xC000_0022 && open == old(open) && result == 0)
    {
      hide BitAnd, Or32, AndNot, Component, Retried;
      var q := Request(hasResult, if attrs == null then None else Some(attrs.Value()), disposition, options, rest);
      RetriesIff(q, first);
      r := Native(q, first);
      if r != STATUS_INVALID_PARAMETER || attrs == null || !hasResult || disposition != 1 || BitAnd(options, 0x30) == 0 {
        return;
      }
      if BitAnd(attrs.attributes, OBJ_DONT_REPARSE) == 0 || attrs.root == 0 || attrs.name.None?
         || attrs.name.value.buffer.None? || attrs.name.value.length == 0 || attrs.name.value.length % 2 != 0 {
        return;
      }
      var name := attrs.name.value.buffer.value[..attrs.name.value.length / 2];
      var single := SingleComponent(name);
      if !single {
        return;
      }
      var copyAttrs := new ObjectAttributes(attrs.length, attrs.root, attrs.name, attrs.attributes, attrs.security);
      copyAttrs.attributes := AndNot(copyAttrs.attributes, OBJ_DONT_REPARSE);
      r := Native(Request(hasResult, Some(copyAttrs.Value()), disposition, Or32(options, FILE_OPEN_REPARSE_POINT), rest), second);
      if !Success(r) {
        return;
      }
      if !open[result].readable {
        CloseResult();
        return STATUS_ACCESS_DENIED;
      }
      if open[result].reparse {
        CloseResult();
        return STATUS_REPARSE_POINT_ENCOUNTERED;
      }
    }
  }

  /** The loop over the name, and the comparison with two dots. */
  method SingleComponent(name: seq<u16>) returns (single: bool)
    ensures single == Component(name)
    ensures single <==> name != [46, 46] && !exists i | 0 <= i < |name| :: name[i] in {92, 47, 58, 0}
  {
    for i := 0 to |name|
      invariant forall k | 0 <= k < i :: name[k] != 92 && name[k] != 47 && name[k] != 58 && name[k] != 0
    {
      var c := name[i];
      if c == 92 || c == 47 || c == 58 || c == 0 {
        return false;
      }
    }
    return name != [46, 46];
  }

  // ---------------------------------------------------------------- reading the rules

  /**
   * A success leaves exactly one handle open, a failure none; and a success of the second try is never a reparse point.
   */
  lemma HandleIffSuccess(q: Request, first: Reply, second: Reply, open: map<u32, Object>)
    requires first.Possible(q, open) && (q.attrs.Some? ==> second.Possible(Again(q), open))
    ensures var o := OutcomeOf(q, first, second);
            && (Success(o.status) <==> o.held.Some?) && (o.status < 0x8000_0000 <==> o.held.Some?)
            && (o.held.Some? ==> o.held.value.0 !in open && o.held.value.0 != 0)
            && (Retries(q, first) && Success(o.status) ==> !o.held.value.1.reparse && o.held.value.1.readable)
  {
    hide Retryable, Again;
    RetryHasAttributes(q, first);
  }

  lemma RetryHasAttributes(q: Request, first: Reply)
    ensures Retries(q, first) ==> q.attrs.Some?
  {
    hide BitAnd, Component;
  }

  /**
   * The second try asks for the same, except that it opens a reparse point itself instead of refusing it: bit 12 of
   * the attributes is cleared, bit 21 of the options set.
   */
  lemma AgainDiffers(q: Request, k: nat)
    requires q.attrs.Some?
    ensures var a := Again(q);
            && a == q.(attrs := a.attrs, options := a.options)
            && a.attrs == Some(q.attrs.value.(attributes := a.attrs.value.attributes))
            && (Bit(a.attrs.value.attributes, k) <==> Bit(q.attrs.value.attributes, k) && k != 12)
            && (Bit(a.options, k) <==> Bit(q.options, k) || k == 21)
  {
    hide Or32, AndNot, Bit, Pow2;
    BitOfAndNot(q.attrs.value.attributes, OBJ_DONT_REPARSE, k);
    BitOfOr32(q.options, FILE_OPEN_REPARSE_POINT, k);
    ReparseBit(0);
    BitOfPow2(12, k);
    BitOfPow2(21, k);
  }

  // ---------------------------------------------------------------- runs

  /** A caller opens something, or closes a handle. */
  datatype Step = Create(q: Request, first: Reply, second: Reply) | Close(handle: u32)

  ghost predicate PossibleStep(s: Step, open: map<u32, Object>) {
    match s
    case Create(q, first, second) => first.Possible(q, open) && (q.attrs.Some? ==> second.Possible(Again(q), open))
    case Close(handle) => handle in open
  }

  function After(open: map<u32, Object>, s: Step): map<u32, Object> {
    match s
    case Create(q, first, second) => Holding(open, OutcomeOf(q, first, second).held)
    case Close(handle) => open - {handle}
  }

  function AfterAll(open: map<u32, Object>, steps: seq<Step>): map<u32, Object> {
    if steps == [] then open else After(AfterAll(open, steps[..|steps| - 1]), steps[|steps| - 1])
  }

  ghost predicate PossibleRun(open: map<u32, Object>, steps: seq<Step>) {
    steps == [] || (PossibleRun(open, steps[..|steps| - 1]) && PossibleStep(steps[|steps| - 1], AfterAll(open, steps[..|steps| - 1])))
  }

  predicate Succeeds(s: Step) { s.Create? && Success(OutcomeOf(s.q, s.first, s.second).status) }

  function Successes(steps: seq<Step>): nat {
    if steps == [] then 0 else Successes(steps[..|steps| - 1]) + if Succeeds(steps[|steps| - 1]) then 1 else 0
  }

  function Closes(steps: seq<Step>): nat {
    if steps == [] then 0 else Closes(steps[..|steps| - 1]) + if steps[|steps| - 1].Close? then 1 else 0
  }

  /** The step succeeded and left this handle with its caller. */
  predicate Reported(s: Step, h: u32, obj: Object) {
    s.Create? && Succeeds(s) && OutcomeOf(s.q, s.first, s.second).held == Some((h, obj))
  }

  /** The handle was open at the start, or a success of this run reported it. */
  ghost predicate Accounted(open: map<u32, Object>, steps: seq<Step>, h: u32, obj: Object) {
    || (h in open && open[h] == obj)
    || exists i | 0 <= i < |steps| :: Reported(steps[i], h, obj)
  }

  lemma StepCounts(open: map<u32, Object>, s: Step)
    requires PossibleStep(s, open)
    ensures |After(open, s)| == |open| + (if Succeeds(s) then 1 else 0) - (if s.Close? then 1 else 0)
    ensures forall h | h in After(open, s) ::
              (h in open && After(open, s)[h] == open[h])
              || Reported(s, h, After(open, s)[h])
  {
    hide OutcomeOf;
    match s {
      case Create(q, first, second) =>
        HandleIffSuccess(q, first, second, open);
        var o := OutcomeOf(q, first, second).held;
        if o.Some? {
          CountMore(open, o.value.0, o.value.1);
        }
      case Close(handle) => CountLess(open, handle);
    }
  }

  lemma CountMore(m: map<u32, Object>, h: u32, obj: Object)
    requires h !in m
    ensures |m[h := obj]| == |m| + 1
  {}

  lemma CountLess(m: map<u32, Object>, h: u32)
    requires h in m
    ensures |m - {h}| == |m| - 1
  {
    assert (m - {h})[h := m[h]] == m;
  }

  /** Over every run there is one open handle per success that was not closed, none per refusal, and no other. */
  lemma {:induction false} HandlesConserved(open: map<u32, Object>, steps: seq<Step>)
    requires PossibleRun(open, steps)
    ensures |AfterAll(open, steps)| == |open| + Successes(steps) - Closes(steps)
    ensures forall h | h in AfterAll(open, steps) :: Accounted(open, steps, h, AfterAll(open, steps)[h])
    decreases |steps|
  {
    hide After, PossibleStep, Succeeds, Accounted, Reported;
    if steps == [] {
      forall h | h in open ensures Accounted(open, steps, h, open[h]) { AtStart(open, steps, h); }
    } else {
      var k := |steps| - 1;
      HandlesConserved(open, steps[..k]);
      var mid := AfterAll(open, steps[..k]);
      StepCounts(mid, steps[k]);
      forall h | h in AfterAll(open, steps) ensures Accounted(open, steps, h, AfterAll(open, steps)[h]) {
        AccountedStep(open, steps, mid, h);
      }
    }
  }

  /** A caller that opens and closes; it counts the successes it is told of. */
  method OpenAndClose(process: Process, steps: seq<Step>) returns (successes: nat)
    requires PossibleRun(process.open, steps)
    requires forall i | 0 <= i < |steps| && steps[i].Create? :: NameBacked(steps[i].q)
    modifies process
    ensures process.open == AfterAll(old(process.open), steps) && successes == Successes(steps)
    ensures |process.open| == |old(process.open)| + successes - Closes(steps)
  {
    hide PossibleStep, After, Succeeds, NameBacked, AfterAll, PossibleRun, Successes, Closes;
    successes := 0;
    ghost var open := process.open;
    RunStarts(open);
    assert steps[..0] == [];
    for i := 0 to |steps|
      invariant process.open == AfterAll(open, steps[..i]) && successes == Successes(steps[..i])
    {
      PossiblePrefix(open, steps, i);
      RunNext(open, steps, i);
      match steps[i] {
        case Create(q, first, second) =>
          assert NameBacked(steps[i].q);
          var status := OpenOne(process, q, first, second);
          if Success(status) {
            successes := successes + 1;
          }
        case Close(handle) =>
          process.open := process.open - {handle};
          CloseStep(AfterAll(open, steps[..i]), handle);
      }
    }
    assert steps[..|steps|] == steps;
    HandlesConserved(open, steps);
  }

  predicate NameBacked(q: Request) { q.attrs.Some? && q.attrs.value.name.Some? ==> q.attrs.value.name.value.Backed() }

  /** One request, with the attributes in the caller's memory. */
  method OpenOne(process: Process, q: Request, first: Reply, second: Reply) returns (status: u32)
    requires PossibleStep(Create(q, first, second), process.open) && NameBacked(q)
    modifies process
    ensures process.open == After(old(process.open), Create(q, first, second))
    ensures Success(status) <==> Succeeds(Create(q, first, second))
  {
    hide OutcomeOf, Holding, Again, Retries;
    var attrs: ObjectAttributes? := null;
    if q.attrs.Some? {
      var oa := q.attrs.value;
      attrs := new ObjectAttributes(oa.length, oa.root, oa.name, oa.attributes, oa.security);
      assert attrs.Value() == oa;
    }
    status := process.PolyNtCreateFile(q.hasResult, attrs, q.disposition, q.options, q.rest, first, second);
  }

  lemma RunStarts(open: map<u32, Object>)
    ensures AfterAll(open, []) == open && Successes([]) == 0
  {}

  lemma RunNext(open: map<u32, Object>, steps: seq<Step>, i: nat)
    requires i < |steps|
    ensures AfterAll(open, steps[..i + 1]) == After(AfterAll(open, steps[..i]), steps[i])
    ensures Successes(steps[..i + 1]) == Successes(steps[..i]) + if Succeeds(steps[i]) then 1 else 0
  {
    hide After, Succeeds;
    assert steps[..i + 1][..i] == steps[..i];
  }

  lemma {:induction false} PossiblePrefix(open: map<u32, Object>, steps: seq<Step>, i: nat)
    requires PossibleRun(open, steps) && i < |steps|
    ensures PossibleStep(steps[i], AfterAll(open, steps[..i]))
    decreases |steps|
  {
    hide PossibleStep, AfterAll;
    var k := |steps| - 1;
    if i < k {
      assert steps[..k][..i] == steps[..i] && steps[..k][i] == steps[i];
      PossiblePrefix(open, steps[..k], i);
    }
  }

  lemma CloseStep(open: map<u32, Object>, handle: u32)
    ensures After(open, Close(handle)) == open - {handle} && !Succeeds(Close(handle))
  {}

  lemma AtStart(open: map<u32, Object>, steps: seq<Step>, h: u32)
    requires h in open
    ensures Accounted(open, steps, h, open[h])
  {}

  lemma AccountedStep(open: map<u32, Object>, steps: seq<Step>, mid: map<u32, Object>, h: u32)
    requires steps != [] && h in After(mid, steps[|steps| - 1])
    requires forall x | x in mid :: Accounted(open, steps[..|steps| - 1], x, mid[x])
    requires var s := steps[|steps| - 1];
             (h in mid && After(mid, s)[h] == mid[h])
             || Reported(s, h, After(mid, s)[h])
    ensures Accounted(open, steps, h, After(mid, steps[|steps| - 1])[h])
  {
    hide After, Reported;
    var k := |steps| - 1;
    var obj := After(mid, steps[k])[h];
    if h in mid && obj == mid[h] {
      if i :| 0 <= i < k && Reported(steps[..k][i], h, obj) {
        assert steps[i] == steps[..k][i];
      }
    }
  }

  // ---------------------------------------------------------------- copyUTF16

  /** The 16-bit units of little-endian bytes. */
  function Units(src: seq<u8>, n: nat): (r: seq<u16>)
    requires 2 * n <= |src|
    ensures |r| == n
  {
    seq(n, i requires 0 <= i < n => Word(src[2 * i], src[2 * i + 1], 0, 0))
  }

  /** Go: copyUTF16. Go reports a source that is too short as an index out of range. */
  method CopyUtf16(out: array<u16>, src: seq<u8>, count: int)
    requires out.Length > 0 && 0 <= count && 2 * (if count > out.Length - 1 then out.Length - 1 else count) <= |src|
    modifies out
    ensures var n := if count > out.Length - 1 then out.Length - 1 else count;
            && out[..] == Units(src, n) + [0] + old(out[n + 1..])
            && out[n] == 0 && forall i | 0 <= i < n :: out[i] == (src[2 * i] as int) + 256 * (src[2 * i + 1] as int)
  {
    var n := count;
    if n > out.Length - 1 {
      n := out.Length - 1;
    }
    ghost var was := out[..];
    for i := 0 to n
      invariant out[..i] == Units(src, i) && out[i..] == was[i..]
    {
      ghost var here := out[..];
      out[i] := Word(src[2 * i], src[2 * i + 1], 0, 0);
      assert out[..] == here[i := out[i]];
      UnitsNext(src, i, was, here, out[i]);
    }
    ghost var here := out[..];
    out[n] := 0;
    assert out[..] == here[n := 0];
    Ended(here, n, was, Units(src, n));
    forall i | 0 <= i < n ensures out[i] == (src[2 * i] as int) + 256 * (src[2 * i + 1] as int) {
      assert out[..][i] == Units(src, n)[i];
    }
    assert out[..][n] == 0;
  }

  lemma UnitsNext(src: seq<u8>, i: nat, was: seq<u16>, here: seq<u16>, v: u16)
    requires 2 * i + 2 <= |src| && i < |here| == |was| && here[..i] == Units(src, i) && here[i..] == was[i..]
    requires v == Word(src[2 * i], src[2 * i + 1], 0, 0)
    ensures here[i := v][..i + 1] == Units(src, i + 1) && here[i := v][i + 1..] == was[i + 1..]
  {
    hide Word;
    assert here[i + 1..] == here[i..][1..] && was[i + 1..] == was[i..][1..];
  }

  lemma Ended(here: seq<u16>, n: nat, was: seq<u16>, units: seq<u16>)
    requires n < |here| == |was| && here[..n] == units && here[n..] == was[n..]
    ensures here[n := 0] == units + [0] + was[n + 1..]
  {
    assert here[n + 1..] == here[n..][1..] && was[n + 1..] == was[n..][1..];
    assert here[n := 0] == here[..n] + [0] + here[n + 1..];
  }
}
