/** Exported transactions are deep copies: whatever happens to the original afterwards,
    each submit of the copy executes the same operations, any number of times. */
module TxnCopy {
  import opened Registers
  import opened TxnSpec
  import opened TxnOwnership
  import opened TxnRun
  import opened TxnOrder

  ghost predicate IsLive(s: State, h: nat) {
    h < |s.copies| && s.copies[h].Live?
  }

  /** The operations a copy stands for. */
  ghost function CopyOps(s: State, h: nat): seq<Op>
    requires Valid(s) && IsLive(s, h)
  {
    BackedCopy(s, h);
    ResolveAll(s.heap, s.copies[h].txn.cmds)
  }

  /** No call except its own release changes what a copy stands for. */
  lemma StepLeavesCopy(s: State, tid: nat, c: Call, h: nat)
    requires Valid(s) && IsLive(s, h) && c != FreeCopy(h)
    ensures var s' := Step(s, tid, c).state;
      Valid(s') && IsLive(s', h) && CopyOps(s', h) == CopyOps(s, h)
  {
    StepKeeps(s, tid, c);
    var s' := Step(s, tid, c).state;
    assert IsLive(s', h) && s'.copies[h] == s.copies[h] by {
      if c.Io? || c.ShimBd? {
        IoCopies(s, tid, c);
      }
    }
    BackedCopy(s, h);
    BackedCopy(s', h);
    forall p | p in s.heap && p in s'.heap
      ensures s'.heap[p] == s.heap[p]
    {
      StepHeap(s, tid, c, p);
    }
    ResolveFrame(s.heap, s'.heap, s.copies[h].txn.cmds);
  }

  lemma IoCopies(s: State, tid: nat, c: Call)
    requires Valid(s) && (c.Io? || c.ShimBd?)
    ensures StepIo(s, tid, c).state.copies == s.copies
    ensures StepIo(s, tid, c).state.closed == s.closed
  {
  }

  lemma {:induction false} RunLeavesCopy(s: State, calls: Calls, h: nat)
    requires Valid(s) && IsLive(s, h)
    requires forall k | 0 <= k < |calls| :: calls[k].1 != FreeCopy(h)
    ensures IsLive(Run(s, calls), h) && CopyOps(Run(s, calls), h) == CopyOps(s, h)
  {
    if calls != [] {
      var front := calls[..|calls| - 1];
      var (tid, c) := calls[|calls| - 1];
      RunLeavesCopy(s, front, h);
      StepLeavesCopy(Run(s, front), tid, c, h);
    }
  }

  /** Export hands out a copy that stands for what the thread has pending, and leaves the
      original as it was. */
  lemma ExportCopies(s: State, tid: nat)
    requires Valid(s) && Find(s.list, tid) < |s.list|
    ensures var s', h := StepExport(s, tid).state, |s.copies|;
      && Valid(s') && IsLive(s', h) && CopyOps(s', h) == Pending(s, tid)
      && s'.list == s.list && s'.regs == s.regs
  {
    var i := Find(s.list, tid);
    var s' := StepExport(s, tid).state;
    ExportKeeps(s, tid);
    PendingAt(s, tid, i);
    CopyMeans(s.heap, s.list[i].cmds, s.next);
    BackedCopy(s', |s.copies|);
  }

  /** Export, then any calls by any threads, then submit the copy: exactly the operations
      pending at export are executed, and the copy is ready to be submitted again. */
  lemma {:induction false} CopyReplaysExport(s: State, tid: nat, calls: Calls, user: nat)
    requires Valid(s) && !s.closed && Find(s.list, tid) < |s.list|
    requires forall k | 0 <= k < |calls| :: calls[k].1 != FreeCopy(|s.copies|)
    ensures Valid(Step(s, tid, Export).state)
    ensures var h, s1 := |s.copies|, Run(Step(s, tid, Export).state, calls);
      && IsLive(s1, h) && CopyOps(s1, h) == Pending(s, tid)
      && (!s1.closed ==>
            var out := Step(s1, user, SubmitCopy(h));
            && out.rc == OK
            && out.effects == Tag(user, true, Pending(s, tid))
            && out.state == s1.(regs := Replay(s1.regs, Pending(s, tid))))
  {
    ExportCopies(s, tid);
    RunLeavesCopy(Step(s, tid, Export).state, calls, |s.copies|);
  }

  // ---------------------------------------------------------------- order with respect to the caller

  lemma Commutes(tid: nat, copy: seq<Op>, held: seq<Op>)
    ensures Tag(tid, true, copy) + Tag(tid, false, held) == Tag(tid, false, held) + Tag(tid, true, copy)
      <==> copy == [] || held == []
  {
    var c: seq<Effect>, h: seq<Effect> := Tag(tid, true, copy), Tag(tid, false, held);
    if copy == [] {
      assert c + h == h == h + c;
    } else if held == [] {
      assert c + h == c == h + c;
    } else {
      assert (c + h)[0].fromCopy && !(h + c)[0].fromCopy;
    }
  }

  /** A submitted copy executes at once, and what its caller has pending stays pending. The
      copy's operations are therefore in the caller's program order, behind those pending, if
      and only if the caller has nothing pending or the copy is empty. */
  lemma CopyInOrderIff(s: State, tid: nat, h: nat)
    requires Valid(s) && !s.closed && IsLive(s, h)
    ensures var out := Step(s, tid, SubmitCopy(h));
      && Valid(out.state) && Pending(out.state, tid) == Pending(s, tid)
      && out.effects == Tag(tid, true, CopyOps(s, h))
      && (out.effects + Tag(tid, false, Pending(out.state, tid)) == Tag(tid, false, Pending(s, tid)) + out.effects
          <==> CopyOps(s, h) == [] || Pending(s, tid) == [])
  {
    var out := Step(s, tid, SubmitCopy(h));
    StepKeeps(s, tid, SubmitCopy(h));
    BackedCopy(s, h);
    PendingRegs(s, out.state.regs, tid);
    Commutes(tid, CopyOps(s, h), Pending(s, tid));
  }

  /** With nothing pending the operations are in order. */
  lemma CopyInOrder(s: State, tid: nat, h: nat)
    requires Valid(s) && !s.closed && IsLive(s, h) && Pending(s, tid) == []
    ensures var out := Step(s, tid, SubmitCopy(h));
      Valid(out.state) && OpsOf(out.effects) + Pending(out.state, tid) == Pending(s, tid) + CopyOps(s, h)
  {
    CopyInOrderIff(s, tid, h);
    OpsTag(tid, true, CopyOps(s, h));
  }

  /** Where only the operations count and not who issued them, the copy still overtakes
      whenever the first operations differ. */
  lemma CopyOvertakes(s: State, tid: nat, h: nat)
    requires Valid(s) && !s.closed && IsLive(s, h)
    requires Pending(s, tid) != [] && CopyOps(s, h) != [] && Pending(s, tid)[0] != CopyOps(s, h)[0]
    ensures var out := Step(s, tid, SubmitCopy(h));
      Valid(out.state) && OpsOf(out.effects) + Pending(out.state, tid) != Pending(s, tid) + CopyOps(s, h)
  {
    CopyInOrderIff(s, tid, h);
    var held, copy := Pending(s, tid), CopyOps(s, h);
    var out := Step(s, tid, SubmitCopy(h));
    OpsTag(tid, true, copy);
    assert (OpsOf(out.effects) + held)[0] == copy[0];
    assert (held + copy)[0] == held[0];
  }
}
