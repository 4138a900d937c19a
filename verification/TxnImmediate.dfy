/** The registers and the values read under deferral are those of an immediate-mode
    driver that carries out, for every thread, exactly the operations it issued. */
module TxnImmediate {
  import opened Registers
  import opened TxnSpec
  import opened TxnOwnership
  import opened TxnRun
  import opened TxnOrder

  // ---------------------------------------------------------------- registers follow the trace

  lemma OpsConcat(a: seq<Effect>, b: seq<Effect>)
    ensures OpsOf(a + b) == OpsOf(a) + OpsOf(b)
  {
  }

  lemma {:induction false} NoReads(m: Mem, ops: seq<Op>)
    requires forall i | 0 <= i < |ops| :: !ops[i].Read32?
    ensures ReadsAgree(m, ops)
  {
    if ops != [] {
      NoReads(m, ops[..|ops| - 1]);
    }
  }

  lemma DirectFollows(m: Mem, c: Call)
    requires c.Io? || c.ShimBd?
    ensures ReadsAgree(m, DirectOps(m, c))
  {
    var ops := DirectOps(m, c);
    if c.Io? && c.op.Read32? {
      assert ops[..|ops| - 1] == [] && Replay(m, []) == m && ReadsAgree(m, []);
    } else {
      NoReads(m, ops);
    }
  }

  ghost predicate Follows(m: Mem, out: Outcome) {
    out.state.regs == Replay(m, OpsOf(out.effects)) && ReadsAgree(m, OpsOf(out.effects))
  }

  lemma StepDirectFollows(s: State, tid: nat, c: Call)
    requires c.Io? || c.ShimBd?
    ensures Follows(s.regs, StepDirect(s, tid, c))
  {
    DirectFollows(s.regs, c);
    OpsTag(tid, false, DirectOps(s.regs, c));
  }

  lemma IoFollows(s: State, tid: nat, c: Call)
    requires Valid(s) && (c.Io? || c.ShimBd?)
    ensures Follows(s.regs, StepIo(s, tid, c))
  {
    var i := Find(s.list, tid);
    if i == |s.list| {
      StepDirectFollows(s, tid, c);
    } else {
      BackedAt(s, i);
      match RouteOf(c, s.list[i].autoFlush, s.list[i].cmds != [])
      case Append => assert OpsOf([]) == [];
      case Reject => assert OpsOf([]) == [];
      case Direct => StepDirectFollows(s, tid, c);
      case Flush => FlushFollows(s, tid, c, i);
    }
  }

  lemma FlushFollows(s: State, tid: nat, c: Call, i: nat)
    requires Valid(s) && (c.Io? || c.ShimBd?) && i < |s.list| && Backed(s.heap, s.list[i].cmds)
    ensures var flushed, f := ResolveAll(s.heap, s.list[i].cmds), FlushAt(s, i);
      var ops := OpsOf(Tag(tid, false, flushed) + StepDirect(f, tid, c).effects);
      StepDirect(f, tid, c).state.regs == Replay(s.regs, ops) && ReadsAgree(s.regs, ops)
  {
    var flushed, f := ResolveAll(s.heap, s.list[i].cmds), FlushAt(s, i);
    var later := DirectOps(f.regs, c);
    DirectFollows(f.regs, c);
    NoReads(s.regs, flushed);
    OpsTag(tid, false, flushed);
    OpsTag(tid, false, later);
    OpsConcat(Tag(tid, false, flushed), Tag(tid, false, later));
    ReplayConcat(s.regs, flushed, later);
  }

  lemma NothingFollows(s: State, s': State, rc: Rc)
    requires s'.regs == s.regs
    ensures Follows(s.regs, Outcome(s', rc, []))
  {
    assert OpsOf([]) == [];
  }

  lemma BufferFollows(s: State, s': State, tid: nat, fromCopy: bool, heap: Heap, cmds: seq<Cmd>)
    requires Backed(heap, cmds) && s'.regs == Replay(s.regs, ResolveAll(heap, cmds))
    ensures Follows(s.regs, Outcome(s', OK, Tag(tid, fromCopy, ResolveAll(heap, cmds))))
  {
    OpsTag(tid, fromCopy, ResolveAll(heap, cmds));
    NoReads(s.regs, ResolveAll(heap, cmds));
  }

  lemma StepFollows(s: State, tid: nat, c: Call)
    requires Valid(s)
    ensures Follows(s.regs, Step(s, tid, c))
  {
    hide Follows, StepIo, OldestOnly, OwnedOnce, Buffers, Replay, ResolveAll, Tag, Release, CopiedHeap, ReleaseList;
    var out := Step(s, tid, c);
    var i := Find(s.list, tid);
    if s.closed && !c.FreeCopy? {
      NothingFollows(s, out.state, out.rc);
    } else if c.Io? || c.ShimBd? {
      IoFollows(s, tid, c);
    } else if c.Submit? && i < |s.list| {
      BackedAt(s, i);
      BufferFollows(s, out.state, tid, false, s.heap, s.list[i].cmds);
    } else if c.SubmitCopy? && c.h < |s.copies| && s.copies[c.h].Live? {
      BackedCopy(s, c.h);
      BufferFollows(s, out.state, tid, true, s.heap, s.copies[c.h].txn.cmds);
    } else {
      NothingFollows(s, out.state, out.rc);
    }
  }

  /** The registers are the replay of the trace, and every read saw its replayed value. */
  lemma {:induction false} RegistersFollowTrace(s: State, calls: Calls)
    requires Valid(s)
    ensures Run(s, calls).regs == Replay(s.regs, OpsOf(Trace(s, calls)))
    ensures ReadsAgree(s.regs, OpsOf(Trace(s, calls)))
  {
    if calls != [] {
      var front := calls[..|calls| - 1];
      var (tid, c) := calls[|calls| - 1];
      RegistersFollowTrace(s, front);
      StepFollows(Run(s, front), tid, c);
      var out := LastOutcome(s, calls);
      OpsConcat(Trace(s, front), out.effects);
      ReplayConcat(s.regs, OpsOf(Trace(s, front)), OpsOf(out.effects));
    }
  }

  // ---------------------------------------------------------------- when buffering is harmless

  /** A masked write whose buffered form is a different operation. */
  predicate Distorted(op: Op) {
    op.MaskWrite? && op.mask == 0 && op.value != 0xFFFF_FFFF
  }

  /** The buffered form has the effect of the original on all registers exactly when the
      operation is not a masked write with mask 0 (and a value other than all ones). */
  lemma BufferingHarmlessIff(op: Op)
    ensures (forall m: Mem :: Apply(m, AsBuffered(op)) == Apply(m, op)) <==> !Distorted(op)
  {
    if Distorted(op) {
      var m: Mem := map[op.off := 0xFFFF_FFFF];
      assert Masked(0xFFFF_FFFF, 0, op.value) == 0xFFFF_FFFF;
      assert Apply(m, AsBuffered(op))[op.off] != Apply(m, op)[op.off];
    } else if op.MaskWrite? && op.mask == 0 {
      forall m: Mem
        ensures Apply(m, AsBuffered(op)) == Apply(m, op)
      {
        assert Masked(Fetch(m, op.off), 0, 0xFFFF_FFFF) == 0xFFFF_FFFF;
      }
    }
  }

  lemma PendingNone(s: State, tid: nat)
    requires Valid(s) && Find(s.list, tid) == |s.list|
    ensures Pending(s, tid) == []
  {
  }

  /** A poll keeps its timeout if and only if the caller has nothing pending, or its
      transaction flushes by itself, or the timeout is the default. */
  lemma TimeoutKeptIff(s: State, tid: nat, off: nat, mask: Word, value: Word, timeout: nat)
    requires Valid(s)
    ensures Valid(StepIo(s, tid, Io(MaskPoll(off, mask, value, timeout))).state)
    ensures var op, i := MaskPoll(off, mask, value, timeout), Find(s.list, tid);
      var out := StepIo(s, tid, Io(op));
      Executed(out.effects, tid) + Pending(out.state, tid) == Pending(s, tid) + [op] <==>
        Pending(s, tid) == [] || s.list[i].autoFlush || timeout == 0
  {
    hide Pending, FlushAt, StepDirect, AppendTo, Valid, AllBuffered, ResolveAll, AllBacked, Backed, Buffers;
    var c := Io(MaskPoll(off, mask, value, timeout));
    IoKeeps(s, tid, c);
    var i := Find(s.list, tid);
    if i < |s.list| {
      PendingAt(s, tid, i);
    } else {
      PendingNone(s, tid);
    }
    if Pending(s, tid) == [] {
      DirectOrder(s, tid, c);
    } else if s.list[i].autoFlush {
      FlushOrder(s, tid, c, i);
    } else {
      AppendPends(s, tid, c, i);
      BufferedPoll(Pending(s, tid), off, mask, value, timeout);
    }
  }

  lemma BufferedPoll(held: seq<Op>, off: nat, mask: Word, value: Word, timeout: nat)
    ensures var op := MaskPoll(off, mask, value, timeout);
      [] + (held + AllBuffered([op])) == held + [op] <==> timeout == 0
  {
    var op := MaskPoll(off, mask, value, timeout);
    assert (held + AllBuffered([op]))[|held|] == AsBuffered(op);
    assert (held + [op])[|held|] == op;
  }

  lemma {:induction false} ReplayPerformed(m: Mem, done: seq<Op>, issued: seq<Op>)
    requires Performs(done, issued)
    requires forall i | 0 <= i < |issued| :: !Distorted(issued[i])
    ensures Replay(m, done) == Replay(m, issued)
    ensures ReadsAgree(m, done) <==> ReadsAgree(m, issued)
  {
    if done != [] {
      var n := |done| - 1;
      ReplayPerformed(m, done[..n], issued[..n]);
      BufferingHarmlessIff(issued[n]);
    }
  }

  // ---------------------------------------------------------------- the immediate-mode schedule

  ghost predicate Covers(effects: seq<Effect>, issued: nat -> seq<Op>) {
    forall t: nat :: |Executed(effects, t)| <= |issued(t)|
      && Performs(Executed(effects, t), issued(t)[..|Executed(effects, t)|])
  }

  lemma CoversFront(effects: seq<Effect>, issued: nat -> seq<Op>)
    requires effects != [] && Covers(effects, issued)
    ensures Covers(effects[..|effects| - 1], issued)
  {
  }

  /** The trace with each executed operation replaced by the one its thread issued. */
  ghost function Schedule(effects: seq<Effect>, issued: nat -> seq<Op>): (schedule: seq<Effect>)
    requires Covers(effects, issued)
    ensures |schedule| == |effects|
  {
    if effects == [] then []
    else
      var front, e := effects[..|effects| - 1], effects[|effects| - 1];
      CoversFront(effects, issued);
      assert |Executed(effects, e.tid)| <= |issued(e.tid)|;
      Schedule(front, issued) + [if e.fromCopy then e else e.(op := issued(e.tid)[|Executed(front, e.tid)|])]
  }

  lemma {:induction false} ScheduleOrder(effects: seq<Effect>, issued: nat -> seq<Op>, tid: nat)
    requires Covers(effects, issued)
    ensures |Executed(effects, tid)| <= |issued(tid)|
    ensures Executed(Schedule(effects, issued), tid) == issued(tid)[..|Executed(effects, tid)|]
  {
    hide Performs;
    if effects != [] {
      CoversFront(effects, issued);
      ScheduleOrder(effects[..|effects| - 1], issued, tid);
      var sch := Schedule(effects, issued);
      assert sch[..|sch| - 1] == Schedule(effects[..|effects| - 1], issued);
      assert |Executed(effects, tid)| <= |issued(tid)|;
    } else {
      assert |Executed(effects, tid)| <= |issued(tid)|;
    }
  }

  lemma {:induction false} SchedulePerformed(effects: seq<Effect>, issued: nat -> seq<Op>)
    requires Covers(effects, issued)
    ensures Performs(OpsOf(effects), OpsOf(Schedule(effects, issued)))
  {
    if effects != [] {
      var front, e := effects[..|effects| - 1], effects[|effects| - 1];
      CoversFront(effects, issued);
      SchedulePerformed(front, issued);
      var was, sch := Schedule(front, issued), Schedule(effects, issued);
      forall i | 0 <= i < |effects|
        ensures OpsOf(effects)[i] == OpsOf(sch)[i] || OpsOf(effects)[i] == AsBuffered(OpsOf(sch)[i])
      {
        if i < |front| {
          assert OpsOf(front)[i] == OpsOf(effects)[i] && OpsOf(was)[i] == OpsOf(sch)[i];
        } else if !e.fromCopy {
          var now, k := Executed(effects, e.tid), |Executed(front, e.tid)|;
          assert Performs(now, issued(e.tid)[..|now|]);
          assert now[k] == e.op && issued(e.tid)[..|now|][k] == issued(e.tid)[k];
        }
      }
    }
  }

  /** Every operation of the schedule was issued by its thread or belongs to a copy. */
  lemma {:induction false} ScheduleSource(effects: seq<Effect>, issued: nat -> seq<Op>, i: nat)
    requires Covers(effects, issued) && i < |effects|
    ensures var e := Schedule(effects, issued)[i];
      && e.tid == effects[i].tid && e.fromCopy == effects[i].fromCopy
      && if e.fromCopy then e == effects[i] else e.op in issued(e.tid)
  {
    CoversFront(effects, issued);
    var e := effects[|effects| - 1];
    if i < |effects| - 1 {
      ScheduleSource(effects[..|effects| - 1], issued, i);
    } else {
      assert |Executed(effects, e.tid)| <= |issued(e.tid)|;
    }
  }

  /** A copy holds buffered forms only, so its operations are never distorted. */
  lemma StepCopyOps(s: State, tid: nat, c: Call, i: nat)
    requires Valid(s) && i < |Step(s, tid, c).effects| && Step(s, tid, c).effects[i].fromCopy
    ensures !Distorted(Step(s, tid, c).effects[i].op)
  {
  }

  lemma LastCopyOps(s: State, calls: Calls, k: nat)
    requires Valid(s) && calls != [] && k < |LastOutcome(s, calls).effects| && LastOutcome(s, calls).effects[k].fromCopy
    ensures !Distorted(LastOutcome(s, calls).effects[k].op)
  {
    var (tid, c) := calls[|calls| - 1];
    StepCopyOps(Run(s, calls[..|calls| - 1]), tid, c, k);
  }

  lemma {:induction false} CopiesUndistorted(s: State, calls: Calls, i: nat)
    requires Valid(s) && i < |Trace(s, calls)| && Trace(s, calls)[i].fromCopy
    ensures !Distorted(Trace(s, calls)[i].op)
  {
    hide Distorted, LastOutcome;
    var front := calls[..|calls| - 1];
    var past, now := Trace(s, front), LastOutcome(s, calls).effects;
    assert Trace(s, calls) == past + now;
    if i < |past| {
      CopiesUndistorted(s, front, i);
    } else {
      LastCopyOps(s, calls, i - |past|);
    }
  }

  /** Each thread issued exactly as many operations as were executed for it, once nothing is pending. */
  lemma AllPerformed(s: State, calls: Calls, tid: nat)
    requires Valid(s) && Pending(s, tid) == [] && Pending(Run(s, calls), tid) == []
    ensures Performs(Executed(Trace(s, calls), tid), Issued(s, calls, tid))
  {
    ProgramOrder(s, calls, tid);
    assert Executed(Trace(s, calls), tid) + [] == Executed(Trace(s, calls), tid);
  }

  ghost predicate Quiet(s: State)
    requires Valid(s)
  {
    forall t: nat :: Pending(s, t) == []
  }

  lemma {:induction false} TraceCovered(s: State, calls: Calls, issued: nat -> seq<Op>)
    requires Valid(s) && Quiet(s) && Quiet(Run(s, calls))
    requires forall t: nat :: issued(t) == Issued(s, calls, t)
    ensures Covers(Trace(s, calls), issued)
    ensures forall t: nat :: |Executed(Trace(s, calls), t)| == |issued(t)|
  {
    forall t: nat
      ensures |Executed(Trace(s, calls), t)| == |issued(t)|
      ensures Performs(Executed(Trace(s, calls), t), issued(t)[..|Executed(Trace(s, calls), t)|])
    {
      AllPerformed(s, calls, t);
      assert issued(t)[..|issued(t)|] == issued(t);
    }
  }

  /** Every place belongs to the same thread as in the trace. The operations of exported copies
      are at their places in the trace, and no others count as operations of copies. */
  ghost predicate SamePlaces(schedule: seq<Effect>, trace: seq<Effect>) {
    && |schedule| == |trace|
    && (forall i | 0 <= i < |schedule| :: schedule[i].tid == trace[i].tid)
    && forall i | 0 <= i < |schedule| ::
      schedule[i].fromCopy == trace[i].fromCopy && (schedule[i].fromCopy ==> schedule[i] == trace[i])
  }

  /** Deferral preserves meaning. Take any interleaving of any threads that leaves nothing
      pending, with no masked write that buffering would distort. Then there is an order of
      operations, with the threads taking turns as in the trace, every thread's operations
      exactly as issued and in program order, and those of the submitted copies and nothing
      else, that an immediate-mode driver turns into the same registers and the same read
      results. */
  lemma {:induction false} SameAsImmediate(s: State, calls: Calls) returns (schedule: seq<Effect>)
    requires Valid(s) && Quiet(s) && Quiet(Run(s, calls))
    requires forall t: nat, op | op in Issued(s, calls, t) :: !Distorted(op)
    ensures forall t: nat :: Executed(schedule, t) == Issued(s, calls, t)
    ensures SamePlaces(schedule, Trace(s, calls))
    ensures Replay(s.regs, OpsOf(schedule)) == Run(s, calls).regs
    ensures ReadsAgree(s.regs, OpsOf(schedule))
  {
    var trace := Trace(s, calls);
    var issued := (t: nat) => Issued(s, calls, t);
    TraceCovered(s, calls, issued);
    schedule := Schedule(trace, issued);
    forall t: nat
      ensures Executed(schedule, t) == Issued(s, calls, t)
    {
      ScheduleOrder(trace, issued, t);
      assert issued(t)[..|issued(t)|] == issued(t);
    }
    SchedulePerformed(trace, issued);
    forall i | 0 <= i < |schedule|
      ensures !Distorted(OpsOf(schedule)[i])
      ensures schedule[i].tid == trace[i].tid
      ensures schedule[i].fromCopy == trace[i].fromCopy && (schedule[i].fromCopy ==> schedule[i] == trace[i])
    {
      ScheduleSource(trace, issued, i);
      if trace[i].fromCopy {
        CopiesUndistorted(s, calls, i);
      }
    }
    RegistersFollowTrace(s, calls);
    ReplayPerformed(s.regs, OpsOf(trace), OpsOf(schedule));
  }
}
