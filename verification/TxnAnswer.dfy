/** What each call answers and when its operations reach the backend, told from what the thread
    has issued: which calls are refused, which are carried out at once, and which wait. */
module TxnAnswer {
  import opened Registers
  import opened TxnSpec
  import opened TxnOwnership
  import opened TxnRun
  import opened TxnOrder

  // ---------------------------------------------------------------- the transactions of a thread

  /** The flags of a thread's listed transactions, the oldest one first: whether they flush by
      themselves. */
  function Flags(list: seq<Txn>, tid: nat): seq<bool> {
    if list == [] then []
    else
      var last := list[|list| - 1];
      Flags(list[..|list| - 1], tid) + if last.tid == tid then [last.autoFlush] else []
  }

  lemma {:induction false} FlagsConcat(a: seq<Txn>, b: seq<Txn>, tid: nat)
    ensures Flags(a + b, tid) == Flags(a, tid) + Flags(b, tid)
    decreases |b|
  {
    if b == [] {
      assert a + b == a;
    } else {
      FlagsConcat(a, b[..|b| - 1], tid);
      assert (a + b)[..|a + b| - 1] == a + b[..|b| - 1];
    }
  }

  lemma {:induction false} FlagsNone(list: seq<Txn>, tid: nat)
    requires forall i | 0 <= i < |list| :: list[i].tid != tid
    ensures Flags(list, tid) == []
  {
    if list != [] {
      FlagsNone(list[..|list| - 1], tid);
    }
  }

  lemma FlagsOne(t: Txn, tid: nat)
    ensures Flags([t], tid) == if t.tid == tid then [t.autoFlush] else []
  {
    assert [t][..0] == [];
  }

  /** One transaction singled out of the list. */
  lemma FlagsSplit(list: seq<Txn>, i: nat, tid: nat)
    requires i < |list|
    ensures Flags(list, tid) == Flags(list[..i], tid) + Flags([list[i]], tid) + Flags(list[i + 1..], tid)
  {
    assert list == list[..i] + ([list[i]] + list[i + 1..]);
    FlagsConcat(list[..i], [list[i]] + list[i + 1..], tid);
    FlagsConcat([list[i]], list[i + 1..], tid);
  }

  /** The transaction an operation belongs to is the thread's oldest one. */
  lemma FlagsFound(list: seq<Txn>, tid: nat)
    ensures Flags(list, tid) == [] <==> Find(list, tid) == |list|
    ensures Find(list, tid) < |list| ==> Flags(list, tid)[0] == list[Find(list, tid)].autoFlush
  {
    var i := Find(list, tid);
    FlagsNone(list[..i], tid);
    if i == |list| {
      assert list[..i] == list;
    } else {
      FlagsSplit(list, i, tid);
      FlagsOne(list[i], tid);
    }
  }

  lemma {:induction false} FlagsSame(list: seq<Txn>, list': seq<Txn>, tid: nat)
    requires |list'| == |list|
    requires forall i | 0 <= i < |list| :: list'[i].tid == list[i].tid && list'[i].autoFlush == list[i].autoFlush
    ensures Flags(list', tid) == Flags(list, tid)
  {
    if list != [] {
      FlagsSame(list[..|list| - 1], list'[..|list| - 1], tid);
    }
  }

  lemma FlagsRemoved(list: seq<Txn>, i: nat, caller: nat, tid: nat)
    requires i == Find(list, caller) && i < |list|
    ensures caller == tid ==> Flags(list, tid) != [] && Flags(RemoveAt(list, i), tid) == Flags(list, tid)[1..]
    ensures caller != tid ==> Flags(RemoveAt(list, i), tid) == Flags(list, tid)
  {
    hide Flags;
    FlagsSplit(list, i, tid);
    FlagsOne(list[i], tid);
    FlagsConcat(list[..i], list[i + 1..], tid);
    if caller == tid {
      FlagsNone(list[..i], tid);
    }
  }

  // ---------------------------------------------------------------- flags over whole runs

  /** What one call by `caller` does to the flags of thread `tid`. */
  function NextFlags(flags: seq<bool>, caller: nat, c: Call, tid: nat): seq<bool> {
    match c
    case Start(autoFlush) => if caller == tid then flags + [autoFlush] else flags
    case Submit => if caller == tid && flags != [] then flags[1..] else flags
    case Clear => if caller == tid && flags != [] then flags[1..] else flags
    case Cleanup => []
    case _ => flags
  }

  function CleanedUp(calls: Calls): bool {
    exists i :: 0 <= i < |calls| && calls[i].1.Cleanup?
  }

  /** A thread's open transactions after some calls, as a queue of the flags given to start. A
      device that was cleaned up accepts no more calls. */
  function Opened(flags: seq<bool>, calls: Calls, tid: nat): seq<bool> {
    if calls == [] then flags
    else
      var front := calls[..|calls| - 1];
      var (caller, c) := calls[|calls| - 1];
      if CleanedUp(front) then [] else NextFlags(Opened(flags, front, tid), caller, c, tid)
  }

  lemma IoFlags(s: State, caller: nat, c: Call, tid: nat)
    requires Valid(s) && (c.Io? || c.ShimBd?)
    ensures Flags(StepIo(s, caller, c).state.list, tid) == Flags(s.list, tid)
    ensures StepIo(s, caller, c).state.closed == s.closed
  {
    hide OldestOnly, OwnedOnce, AllBacked, Buffers, Replay, ResolveAll, Release, DirectOps, Buffered, Flags, Find, Tag;
    var s' := StepIo(s, caller, c).state;
    var i := Find(s.list, caller);
    if i < |s.list| {
      BackedAt(s, i);
    }
    FlagsSame(s.list, s'.list, tid);
  }

  lemma StepFlags(s: State, caller: nat, c: Call, tid: nat)
    requires Valid(s) && !s.closed
    ensures Flags(Step(s, caller, c).state.list, tid) == NextFlags(Flags(s.list, tid), caller, c, tid)
    ensures Step(s, caller, c).state.closed == c.Cleanup?
  {
    hide Valid, StepIo, StepExport, StepSubmitCopy, StepFreeCopy, StepSubmit, StepClear, Flags, Find;
    var i := Find(s.list, caller);
    FlagsFound(s.list, caller);
    match c
    case Start(autoFlush) =>
      FlagsConcat(s.list, [Txn(caller, autoFlush, [])], tid);
      FlagsOne(Txn(caller, autoFlush, []), tid);
    case Submit => RemovedFlags(s, caller, tid);
    case Clear => RemovedFlags(s, caller, tid);
    case Cleanup => FlagsNone([], tid);
    case Io(_) => IoFlags(s, caller, c, tid);
    case ShimBd(_, _) => IoFlags(s, caller, c, tid);
    case Export => SameList(s, caller, 0);
    case SubmitCopy(h) => SameList(s, caller, h);
    case FreeCopy(h) => SameList(s, caller, h);
  }

  lemma SameList(s: State, caller: nat, h: nat)
    requires Valid(s)
    ensures StepExport(s, caller).state.list == s.list && StepExport(s, caller).state.closed == s.closed
    ensures StepSubmitCopy(s, caller, h).state.list == s.list && StepSubmitCopy(s, caller, h).state.closed == s.closed
    ensures StepFreeCopy(s, h).state.list == s.list && StepFreeCopy(s, h).state.closed == s.closed
  {
  }

  lemma RemovedFlags(s: State, caller: nat, tid: nat)
    requires Valid(s)
    ensures Flags(StepSubmit(s, caller).state.list, tid) == NextFlags(Flags(s.list, tid), caller, Submit, tid)
    ensures Flags(StepClear(s, caller).state.list, tid) == NextFlags(Flags(s.list, tid), caller, Clear, tid)
    ensures StepSubmit(s, caller).state.closed == s.closed == StepClear(s, caller).state.closed
  {
    var i := Find(s.list, caller);
    FlagsFound(s.list, caller);
    if i < |s.list| {
      FlagsRemoved(s.list, i, caller, tid);
      BackedAt(s, i);
      assert RemoveAt(FlushAt(s, i).list, i) == RemoveAt(s.list, i);
    }
  }

  /** Over any run of any threads, the flags of a thread's transactions are those given to its
      starts, less one for each submit and clear. */
  lemma {:induction false} RunFlags(s: State, calls: Calls, tid: nat)
    requires Valid(s) && !s.closed
    ensures Flags(Run(s, calls).list, tid) == Opened(Flags(s.list, tid), calls, tid)
    ensures Run(s, calls).closed <==> CleanedUp(calls)
  {
    if calls != [] {
      var front := calls[..|calls| - 1];
      var (caller, c) := calls[|calls| - 1];
      var before := Run(s, front);
      RunFlags(s, front, tid);
      CleanedUpLast(calls);
      if before.closed {
        OpenedNone(Flags(s.list, tid), front, tid);
        ClosedList(before, caller, c);
      } else {
        StepFlags(before, caller, c, tid);
      }
    }
  }

  lemma CleanedUpLast(calls: Calls)
    requires calls != []
    ensures CleanedUp(calls) <==> CleanedUp(calls[..|calls| - 1]) || calls[|calls| - 1].1.Cleanup?
  {
    var n := |calls| - 1;
    assert forall i | 0 <= i < n :: calls[..n][i] == calls[i];
  }

  lemma OpenedNone(flags: seq<bool>, calls: Calls, tid: nat)
    requires CleanedUp(calls)
    ensures Opened(flags, calls, tid) == []
  {
    CleanedUpLast(calls);
  }

  lemma ClosedList(s: State, caller: nat, c: Call)
    requires Valid(s) && s.closed
    ensures Step(s, caller, c).state.list == s.list && Step(s, caller, c).state.closed
  {
  }

  // ---------------------------------------------------------------- refusals

  /** Without a thread's transaction there is nothing to submit, export or clear; a copy can be
      submitted or freed until it was freed. */
  lemma RefusedIff(s: State, tid: nat, c: Call)
    requires Valid(s) && !s.closed && !c.Io? && !c.ShimBd?
    ensures c.Start? || c.Cleanup? ==> Step(s, tid, c).rc == OK
    ensures c.Submit? || c.Export? || c.Clear? ==>
      (Step(s, tid, c).rc == ERR <==> forall i | 0 <= i < |s.list| :: s.list[i].tid != tid)
    ensures c.SubmitCopy? || c.FreeCopy? ==>
      (Step(s, tid, c).rc == ERR <==> c.h >= |s.copies| || s.copies[c.h].Freed?)
    ensures Step(s, tid, c).rc == ERR ==> Step(s, tid, c) == Outcome(s, ERR, [])
  {
  }

  /** After the cleanup only copies can be freed. */
  lemma ClosedRefuses(s: State, tid: nat, c: Call)
    requires Valid(s) && s.closed
    ensures !c.FreeCopy? ==> Step(s, tid, c) == Outcome(s, ERR, [])
    ensures c.FreeCopy? ==> (Step(s, tid, c).rc == OK <==> c.h < |s.copies| && s.copies[c.h].Live?)
  {
  }

  /** Operations without a buffered form are refused if and only if their caller has operations
      pending and its transaction does not flush by itself. Nothing else is refused. */
  lemma IoRefusedIff(s: State, tid: nat, c: Call)
    requires Valid(s) && !s.closed && (c.Io? || c.ShimBd?)
    ensures Pending(s, tid) != [] ==> Flags(s.list, tid) != []
    ensures Step(s, tid, c).rc == ERR <==>
      c.Io? && (c.op.Read32? || c.op.Command?) && Pending(s, tid) != [] && !Flags(s.list, tid)[0]
    ensures Step(s, tid, c).rc == ERR ==> Step(s, tid, c) == Outcome(s, ERR, [])
  {
    FlagsFound(s.list, tid);
    if Find(s.list, tid) < |s.list| {
      PendingAt(s, tid, Find(s.list, tid));
    }
  }

  // ---------------------------------------------------------------- waiting or carried out

  /** An operation waits in the thread's transaction: single writes in any, blocks in one that
      does not flush by itself, polls and shim descriptors in such a one that holds something. */
  ghost predicate Waits(s: State, tid: nat, c: Call)
    requires Valid(s) && (c.Io? || c.ShimBd?)
  {
    var flags := Flags(s.list, tid);
    && flags != []
    && if c.Io? && (c.op.Write? || c.op.MaskWrite?) then true
       else if c.Io? && (c.op.BlockWrite? || c.op.BlockSet?) then !flags[0]
       else (c.ShimBd? || c.op.MaskPoll?) && !flags[0] && Pending(s, tid) != []
  }

  /** A waiting operation reaches no register yet, and is pending last in its buffered form. */
  lemma WaitsPending(s: State, tid: nat, c: Call)
    requires Valid(s) && !s.closed && (c.Io? || c.ShimBd?) && Waits(s, tid, c)
    ensures var out := Step(s, tid, c);
      && Valid(out.state) && out.rc == OK && out.effects == [] && out.state.regs == s.regs
      && Pending(out.state, tid) == Pending(s, tid) + AllBuffered(Asked(c))
  {
    hide Valid, Pending, ResolveAll, Flags, Find, AllBuffered, Replay;
    var i := Find(s.list, tid);
    FlagsFound(s.list, tid);
    PendingAt(s, tid, i);
    AppendPends(s, tid, c, i);
  }

  /** Any other operation that is not refused is carried out at once, behind everything its
      caller had pending, and leaves nothing pending. */
  lemma CarriedOutNow(s: State, tid: nat, c: Call)
    requires Valid(s) && !s.closed && (c.Io? || c.ShimBd?) && !Waits(s, tid, c) && Step(s, tid, c).rc == OK
    ensures var out, ops := Step(s, tid, c), Pending(s, tid) + DirectOps(Replay(s.regs, Pending(s, tid)), c);
      && Valid(out.state) && Pending(out.state, tid) == []
      && out.effects == Tag(tid, false, ops) && out.state.regs == Replay(s.regs, ops)
  {
    hide Valid, StepDirect, Pending, FlushAt, AppendTo, Flags;
    var i := Find(s.list, tid);
    FlagsFound(s.list, tid);
    NothingHeld(s, tid);
    if i < |s.list| {
      PendingAt(s, tid, i);
    }
    if i < |s.list| && RouteOf(c, s.list[i].autoFlush, s.list[i].cmds != []) == Flush {
      FlushedNow(s, tid, c, i);
    } else {
      DirectNow(s, tid, c);
    }
  }

  /** Behind operations that were flushed first ... */
  lemma FlushedNow(s: State, tid: nat, c: Call, i: nat)
    requires Valid(s) && (c.Io? || c.ShimBd?) && i == Find(s.list, tid) && i < |s.list|
    requires RouteOf(c, s.list[i].autoFlush, s.list[i].cmds != []) == Flush
    ensures var out, ops := StepIo(s, tid, c), Pending(s, tid) + DirectOps(Replay(s.regs, Pending(s, tid)), c);
      && Valid(out.state) && Pending(out.state, tid) == []
      && out.effects == Tag(tid, false, ops) && out.state.regs == Replay(s.regs, ops)
  {
    hide Valid, Pending, Buffers, Replay, ResolveAll, Release;
    var held := Pending(s, tid);
    PendingAt(s, tid, i);
    FlushEmpties(s, tid, i);
    var f := FlushAt(s, i);
    DirectOrder(f, tid, c);
    FlushIs(s, tid, c, i);
    ReplayConcat(s.regs, held, DirectOps(f.regs, c));
    TagConcat(tid, held, DirectOps(f.regs, c));
  }

  /** ... or with nothing in front. */
  lemma DirectNow(s: State, tid: nat, c: Call)
    requires Valid(s) && (c.Io? || c.ShimBd?) && Pending(s, tid) == []
    ensures var out, ops := StepDirect(s, tid, c), Pending(s, tid) + DirectOps(Replay(s.regs, Pending(s, tid)), c);
      && Valid(out.state) && Pending(out.state, tid) == []
      && out.effects == Tag(tid, false, ops) && out.state.regs == Replay(s.regs, ops)
  {
    hide Valid, Pending;
    DirectOrder(s, tid, c);
    assert [] + DirectOps(s.regs, c) == DirectOps(s.regs, c);
  }

  /** A shim descriptor's words go to consecutive registers, as those of a block write do. */
  lemma {:induction false} ShimWritesAt(m: Mem, off: nat, words: seq<Word>, k: nat)
    ensures Fetch(Replay(m, ShimWrites(off, words)), k) == Fetch(Apply(m, BlockWrite(off, words)), k)
  {
    BlockWriteAt(m, off, words, k);
    if words != [] {
      var n := |words| - 1;
      ShimWritesAt(m, off, words[..n], k);
      BlockWriteAt(m, off, words[..n], k);
      assert ShimWrites(off, words)[..n] == ShimWrites(off, words[..n]);
    }
  }

  lemma NothingHeld(s: State, tid: nat)
    requires Valid(s)
    ensures var i := Find(s.list, tid); Pending(s, tid) == [] <==> i == |s.list| || s.list[i].cmds == []
  {
  }

  lemma TagConcat(tid: nat, a: seq<Op>, b: seq<Op>)
    ensures Tag(tid, false, a + b) == Tag(tid, false, a) + Tag(tid, false, b)
  {
  }

  /** A read either fails, behind operations that stay pending, or returns what the register
      holds once everything its caller had pending is carried out. */
  lemma ReadSees(s: State, tid: nat, off: nat, value: Word)
    requires Valid(s) && !s.closed
    ensures var out, held := Step(s, tid, Io(Read32(off, value))), Pending(s, tid);
      && (out.rc == ERR <==> held != [] && !s.list[Find(s.list, tid)].autoFlush)
      && (out.rc == OK ==>
            && Valid(out.state) && Pending(out.state, tid) == []
            && out.effects == Tag(tid, false, held + [Read32(off, Fetch(Replay(s.regs, held), off))])
            && Fetch(out.state.regs, off) == Fetch(Replay(s.regs, held), off))
  {
    var c, held := Io(Read32(off, value)), Pending(s, tid);
    FlagsFound(s.list, tid);
    IoRefusedIff(s, tid, c);
    if Step(s, tid, c).rc == OK {
      CarriedOutNow(s, tid, c);
      ReplayConcat(s.regs, held, DirectOps(Replay(s.regs, held), c));
      ReadChangesNothing(Replay(s.regs, held), off);
    }
  }

  lemma ReadChangesNothing(m: Mem, off: nat)
    ensures Replay(m, [Read32(off, Fetch(m, off))]) == m
  {
    assert [Read32(off, Fetch(m, off))][..0] == [];
  }
}
