/** Deferral preserves meaning: what a thread issued is what was executed for it plus
    what is still buffered, in program order; and the registers and read results are
    those of an immediate-mode driver that performs the same operations. */
module TxnOrder {
  import opened Registers
  import opened TxnSpec
  import opened TxnOwnership
  import opened TxnRun

  // ---------------------------------------------------------------- observing a run

  /** The operations the thread's oldest transaction still holds. */
  ghost function Pending(s: State, tid: nat): seq<Op>
    requires Valid(s)
  {
    var i := Find(s.list, tid);
    if i == |s.list| then [] else
      BackedAt(s, i);
      ResolveAll(s.heap, s.list[i].cmds)
  }

  /** The operations executed for a thread, those of exported copies left out. */
  function Executed(effects: seq<Effect>, tid: nat): seq<Op> {
    if effects == [] then []
    else
      var e := effects[|effects| - 1];
      Executed(effects[..|effects| - 1], tid) + if e.tid == tid && !e.fromCopy then [e.op] else []
  }

  /** The operations a successful I/O call asked for; a read with the value it returned. */
  ghost function Requested(c: Call, out: Outcome): seq<Op>
    requires c.Io? || c.ShimBd?
  {
    if c.ShimBd? then ShimWrites(c.off, c.words)
    else if c.op.Read32? && out.effects != [] then [out.effects[|out.effects| - 1].op]
    else [c.op]
  }

  function DropLast(ops: seq<Op>, n: nat): seq<Op> {
    if n <= |ops| then ops[..|ops| - n] else []
  }

  /** How one call by `caller` extends or withdraws what thread `tid` has issued, when
      `held` of its operations are still pending. */
  ghost function NextIssued(past: seq<Op>, held: nat, caller: nat, c: Call, out: Outcome, tid: nat): seq<Op> {
    if out.rc == ERR then past
    else if (c.Io? || c.ShimBd?) && caller == tid then past + Requested(c, out)
    else if (c.Clear? && caller == tid) || c.Cleanup? then DropLast(past, held)
    else past
  }

  /** What thread `tid` issued successfully and did not clear, in program order. */
  ghost function Issued(s: State, calls: Calls, tid: nat): seq<Op>
    requires Valid(s)
  {
    if calls == [] then []
    else
      var front := calls[..|calls| - 1];
      var (caller, c) := calls[|calls| - 1];
      NextIssued(Issued(s, front, tid), |Pending(Run(s, front), tid)|, caller, c, LastOutcome(s, calls), tid)
  }

  /** What buffering does to an operation: a poll loses its timeout and a masked write
      with mask 0 turns into a full write. */
  function AsBuffered(op: Op): Op {
    match op
    case MaskWrite(off, mask, value) => if mask == 0 then Write(off, value) else op
    case MaskPoll(off, mask, value, _) => MaskPoll(off, mask, value, 0)
    case _ => op
  }

  function AllBuffered(ops: seq<Op>): (r: seq<Op>)
    ensures |r| == |ops|
  {
    seq(|ops|, i requires 0 <= i < |ops| => AsBuffered(ops[i]))
  }

  /** `done` performs `issued`: one operation each, as issued or in its buffered form. */
  ghost predicate Performs(done: seq<Op>, issued: seq<Op>) {
    && |done| == |issued|
    && forall i | 0 <= i < |done| :: done[i] == issued[i] || done[i] == AsBuffered(issued[i])
  }

  // ---------------------------------------------------------------- lemmas on the observers

  lemma {:induction false} ExecutedConcat(a: seq<Effect>, b: seq<Effect>, tid: nat)
    ensures Executed(a + b, tid) == Executed(a, tid) + Executed(b, tid)
    decreases |b|
  {
    if b == [] {
      assert a + b == a;
    } else {
      ExecutedConcat(a, b[..|b| - 1], tid);
      assert (a + b)[..|a + b| - 1] == a + b[..|b| - 1];
    }
  }

  lemma {:induction false} ExecutedTag(caller: nat, fromCopy: bool, ops: seq<Op>, tid: nat)
    ensures Executed(Tag(caller, fromCopy, ops), tid) == if caller == tid && !fromCopy then ops else []
  {
    if ops != [] {
      var n := |ops| - 1;
      ExecutedTag(caller, fromCopy, ops[..n], tid);
      assert Tag(caller, fromCopy, ops)[..n] == Tag(caller, fromCopy, ops[..n]);
      assert ops == ops[..n] + [ops[n]];
    }
  }

  lemma OpsTag(tid: nat, fromCopy: bool, ops: seq<Op>)
    ensures OpsOf(Tag(tid, fromCopy, ops)) == ops
  {
  }

  /** A buffer means the same in two heaps that agree on the payloads they share. */
  lemma ResolveFrame(heap: Heap, heap': Heap, cmds: seq<Cmd>)
    requires Backed(heap, cmds) && Backed(heap', cmds)
    requires forall p | p in heap && p in heap' :: heap'[p] == heap[p]
    ensures ResolveAll(heap', cmds) == ResolveAll(heap, cmds)
  {
  }

  /** Threads whose oldest transaction is the same before and after have the same pending operations. */
  lemma PendingFrame(s: State, s': State, tid: nat)
    requires Valid(s) && Valid(s')
    requires forall p | p in s.heap && p in s'.heap :: s'.heap[p] == s.heap[p]
    requires var i, i' := Find(s.list, tid), Find(s'.list, tid);
      var a := if i == |s.list| then [] else s.list[i].cmds;
      var b := if i' == |s'.list| then [] else s'.list[i'].cmds;
      a == b
    ensures Pending(s', tid) == Pending(s, tid)
  {
    var i, i' := Find(s.list, tid), Find(s'.list, tid);
    if i < |s.list| { BackedAt(s, i); }
    if i' < |s'.list| { BackedAt(s', i'); }
    if i < |s.list| && i' < |s'.list| {
      ResolveFrame(s.heap, s'.heap, s.list[i].cmds);
    }
  }

  /** After removing the oldest transaction of `caller` nobody else is affected and the
      caller has nothing pending. */
  lemma FindAfterRemove(list: seq<Txn>, caller: nat, tid: nat)
    requires OldestOnly(list) && Find(list, caller) < |list|
    ensures var i, list' := Find(list, caller), RemoveAt(list, Find(list, caller));
      var f, f' := Find(list, tid), Find(list', tid);
      var a := if f == |list| || tid == caller then [] else list[f].cmds;
      var b := if f' == |list'| then [] else list'[f'].cmds;
      a == b
  {
    var list' := RemoveAt(list, Find(list, caller));
    var f' := Find(list', tid);
    if tid == caller {
      if f' < |list'| {
        RemovedAt(list, Find(list, caller), f');
      }
    } else {
      FindOther(list, Find(list, caller), tid);
    }
  }

  lemma RemovedAt(list: seq<Txn>, i: nat, j: nat)
    requires i < |list| && j < |RemoveAt(list, i)|
    ensures RemoveAt(list, i)[j] == list[if j < i then j else j + 1]
  {
  }

  /** Removing a transaction of another thread only shifts those behind it. */
  lemma {:induction false} FindOther(list: seq<Txn>, i: nat, tid: nat)
    requires i < |list| && list[i].tid != tid
    ensures Find(RemoveAt(list, i), tid) == if Find(list, tid) < i then Find(list, tid) else Find(list, tid) - 1
  {
    if i == 0 {
      assert RemoveAt(list, i) == list[1..];
    } else {
      assert RemoveAt(list, i) == [list[0]] + RemoveAt(list[1..], i - 1);
      FindOther(list[1..], i - 1, tid);
    }
  }

  lemma PendingAt(s: State, tid: nat, i: nat)
    requires Valid(s) && i == Find(s.list, tid) && i < |s.list|
    ensures Backed(s.heap, s.list[i].cmds)
    ensures Pending(s, tid) == ResolveAll(s.heap, s.list[i].cmds)
  {
    BackedAt(s, i);
  }

  lemma {:induction false} FindSame(list: seq<Txn>, list': seq<Txn>, tid: nat)
    requires |list| == |list'| && forall j | 0 <= j < |list| :: list'[j].tid == list[j].tid
    ensures Find(list', tid) == Find(list, tid)
  {
  }

  // ---------------------------------------------------------------- one step

  /** The operations a buffered call stands for. */
  function Asked(c: Call): seq<Op>
    requires c.Io? || c.ShimBd?
  {
    if c.ShimBd? then ShimWrites(c.off, c.words) else [c.op]
  }

  /** Appending to a buffer appends the buffered form of what was asked for. */
  lemma AppendMeans(heap: Heap, heap': Heap, cmds: seq<Cmd>, c: Call, ptr: nat)
    requires Backed(heap, cmds) && (c.Io? || c.ShimBd?) && ptr !in heap
    requires heap' == if IsBlock(c) then heap[ptr := c.op.data] else heap
    requires c.Io? ==> !c.op.Read32? && !c.op.Command?
    ensures Backed(heap', cmds + Buffered(c, ptr))
    ensures ResolveAll(heap', cmds + Buffered(c, ptr)) == ResolveAll(heap, cmds) + AllBuffered(Asked(c))
  {
  }

  /** A buffered call leaves its buffered form pending. */
  lemma AppendPends(s: State, tid: nat, c: Call, i: nat)
    requires Valid(s) && (c.Io? || c.ShimBd?)
    requires i == Find(s.list, tid) && i < |s.list|
    requires RouteOf(c, s.list[i].autoFlush, s.list[i].cmds != []) == Append
    ensures Valid(AppendTo(s, i, c))
    ensures Pending(AppendTo(s, i, c), tid) == Pending(s, tid) + AllBuffered(Asked(c))
  {
    var s' := AppendTo(s, i, c);
    AppendKeeps(s, tid, c);
    PendingAt(s, tid, i);
    AppendMeans(s.heap, s'.heap, s.list[i].cmds, c, s.next);
    FindSame(s.list, s'.list, tid);
    PendingAt(s', tid, i);
  }

  lemma AppendOrder(s: State, tid: nat, c: Call, i: nat)
    requires Valid(s) && (c.Io? || c.ShimBd?)
    requires i == Find(s.list, tid) && i < |s.list|
    requires RouteOf(c, s.list[i].autoFlush, s.list[i].cmds != []) == Append
    ensures Valid(AppendTo(s, i, c))
    ensures var out := Outcome(AppendTo(s, i, c), OK, []);
      Performs(Executed(out.effects, tid) + Pending(out.state, tid), Pending(s, tid) + Requested(c, out))
  {
    AppendPends(s, tid, c, i);
    assert Executed([], tid) + Pending(AppendTo(s, i, c), tid) == Pending(s, tid) + AllBuffered(Asked(c));
    AppendPerforms(Pending(s, tid), Asked(c));
  }

  lemma DirectOrder(s: State, tid: nat, c: Call)
    requires Valid(s) && (c.Io? || c.ShimBd?)
    requires Pending(s, tid) == []
    ensures Valid(StepDirect(s, tid, c).state)
    ensures var out := StepDirect(s, tid, c);
      && Executed(out.effects, tid) == Requested(c, out)
      && Pending(out.state, tid) == []
      && Executed(out.effects, tid) + Pending(out.state, tid) == Pending(s, tid) + Requested(c, out)
  {
    DirectKeeps(s, tid, c);
    ExecutedTag(tid, false, DirectOps(s.regs, c), tid);
    PendingRegs(s, Replay(s.regs, DirectOps(s.regs, c)), tid);
    var out := StepDirect(s, tid, c);
    assert Executed(out.effects, tid) + [] == [] + Requested(c, out);
  }

  /** What is pending does not depend on the registers. */
  lemma PendingRegs(s: State, regs: Mem, tid: nat)
    requires Valid(s) && Valid(s.(regs := regs))
    ensures Pending(s.(regs := regs), tid) == Pending(s, tid)
  {
  }

  lemma FlushEmpties(s: State, tid: nat, i: nat)
    requires Valid(s) && i == Find(s.list, tid) && i < |s.list|
    ensures Backed(s.heap, s.list[i].cmds)
    ensures Valid(FlushAt(s, i)) && Pending(FlushAt(s, i), tid) == []
  {
    PendingAt(s, tid, i);
    FlushKeeps(s, i);
    var f := FlushAt(s, i);
    FindSame(s.list, f.list, tid);
    PendingAt(f, tid, i);
  }

  /** The caller's I/O call: executed followed by pending grows by what was requested. */
  lemma IoOrder(s: State, tid: nat, c: Call)
    requires Valid(s) && (c.Io? || c.ShimBd?)
    ensures Valid(StepIo(s, tid, c).state)
    ensures var out := StepIo(s, tid, c);
      out.rc == OK ==>
        Performs(Executed(out.effects, tid) + Pending(out.state, tid), Pending(s, tid) + Requested(c, out))
  {
    IoKeeps(s, tid, c);
    var i, out := Find(s.list, tid), StepIo(s, tid, c);
    if i == |s.list| {
      DirectOrder(s, tid, c);
    } else {
      PendingAt(s, tid, i);
      var t := s.list[i];
      match RouteOf(c, t.autoFlush, t.cmds != [])
      case Append =>
        AppendOrder(s, tid, c, i);
      case Direct => DirectOrder(s, tid, c);
      case Reject =>
      case Flush => FlushOrder(s, tid, c, i);
    }
  }

  lemma AppendPerforms(held: seq<Op>, asked: seq<Op>)
    ensures Performs(held + AllBuffered(asked), held + asked)
  {
  }

  lemma FlushOrder(s: State, tid: nat, c: Call, i: nat)
    requires Valid(s) && (c.Io? || c.ShimBd?)
    requires i == Find(s.list, tid) && i < |s.list|
    requires RouteOf(c, s.list[i].autoFlush, s.list[i].cmds != []) == Flush
    ensures Valid(StepIo(s, tid, c).state)
    ensures var out := StepIo(s, tid, c);
      Executed(out.effects, tid) + Pending(out.state, tid) == Pending(s, tid) + Requested(c, out)
  {
    FlushEmpties(s, tid, i);
    PendingAt(s, tid, i);
    var f, flushed := FlushAt(s, i), ResolveAll(s.heap, s.list[i].cmds);
    DirectOrder(f, tid, c);
    var direct := StepDirect(f, tid, c);
    ExecutedTag(tid, false, flushed, tid);
    ExecutedConcat(Tag(tid, false, flushed), direct.effects, tid);
    FlushIs(s, tid, c, i);
  }

  lemma FlushIs(s: State, tid: nat, c: Call, i: nat)
    requires Valid(s) && (c.Io? || c.ShimBd?) && i == Find(s.list, tid) && i < |s.list|
    requires RouteOf(c, s.list[i].autoFlush, s.list[i].cmds != []) == Flush && Backed(s.heap, s.list[i].cmds)
    ensures var out, direct := StepIo(s, tid, c), StepDirect(FlushAt(s, i), tid, c);
      && out.state == direct.state && Requested(c, out) == Requested(c, direct)
      && out.effects == Tag(tid, false, ResolveAll(s.heap, s.list[i].cmds)) + direct.effects
  {
  }

  /** An I/O call touches no transaction but the caller's oldest one. */
  lemma IoList(s: State, caller: nat, c: Call)
    requires Valid(s) && (c.Io? || c.ShimBd?)
    ensures var s', i := StepIo(s, caller, c).state, Find(s.list, caller);
      && |s'.list| == |s.list|
      && (forall j | 0 <= j < |s.list| :: s'.list[j].tid == s.list[j].tid)
      && (forall j | 0 <= j < |s.list| && j != i :: s'.list[j] == s.list[j])
      && (forall p | p in s.heap && p in s'.heap :: s'.heap[p] == s.heap[p])
  {
    var i := Find(s.list, caller);
    if i < |s.list| {
      BackedAt(s, i);
      match RouteOf(c, s.list[i].autoFlush, s.list[i].cmds != [])
      case Append => AppendList(s, i, c);
      case Direct => assert StepIo(s, caller, c).state.list == s.list;
      case Reject =>
      case Flush => assert StepIo(s, caller, c).state.list == FlushAt(s, i).list;
    }
  }

  lemma AppendList(s: State, i: nat, c: Call)
    requires Valid(s) && (c.Io? || c.ShimBd?) && i < |s.list|
    ensures var s' := AppendTo(s, i, c);
      && |s'.list| == |s.list|
      && (forall j | 0 <= j < |s.list| :: s'.list[j].tid == s.list[j].tid)
      && (forall j | 0 <= j < |s.list| && j != i :: s'.list[j] == s.list[j])
      && (forall p | p in s.heap && p in s'.heap :: s'.heap[p] == s.heap[p])
  {
  }

  lemma IoEffects(s: State, caller: nat, c: Call, tid: nat)
    requires Valid(s) && (c.Io? || c.ShimBd?) && caller != tid
    ensures Executed(StepIo(s, caller, c).effects, tid) == []
  {
    Foreign(StepIo(s, caller, c).effects, tid);
  }

  lemma {:induction false} Foreign(effects: seq<Effect>, tid: nat)
    requires forall i | 0 <= i < |effects| :: effects[i].tid != tid
    ensures Executed(effects, tid) == []
  {
    if effects != [] {
      Foreign(effects[..|effects| - 1], tid);
    }
  }

  /** An I/O call of one thread leaves the pending operations of the others alone. */
  lemma IoFrame(s: State, caller: nat, c: Call, tid: nat)
    requires Valid(s) && (c.Io? || c.ShimBd?) && caller != tid
    ensures Valid(StepIo(s, caller, c).state)
    ensures Pending(StepIo(s, caller, c).state, tid) == Pending(s, tid)
  {
    IoKeeps(s, caller, c);
    IoList(s, caller, c);
    var s' := StepIo(s, caller, c).state;
    FindSame(s.list, s'.list, tid);
    PendingFrame(s, s', tid);
  }

  /** Submit and clear take the caller's oldest transaction off the list. */
  lemma SubmitOrder(s: State, caller: nat, tid: nat)
    requires Valid(s) && Find(s.list, caller) < |s.list|
    ensures Valid(StepSubmit(s, caller).state)
    ensures var out := StepSubmit(s, caller);
      Executed(out.effects, tid) + Pending(out.state, tid) == Pending(s, tid)
  {
    SubmitKeeps(s, caller);
    PendingAt(s, caller, Find(s.list, caller));
    ExecutedTag(caller, false, Pending(s, caller), tid);
    RemovedPending(s, StepSubmit(s, caller).state, caller, tid);
  }

  lemma ClearOrder(s: State, caller: nat, tid: nat)
    requires Valid(s) && Find(s.list, caller) < |s.list|
    ensures Valid(StepClear(s, caller).state)
    ensures Pending(StepClear(s, caller).state, tid) == if caller == tid then [] else Pending(s, tid)
  {
    SubmitKeeps(s, caller);
    RemovedPending(s, StepClear(s, caller).state, caller, tid);
  }

  lemma RemovedPending(s: State, s': State, caller: nat, tid: nat)
    requires Valid(s) && Valid(s') && Find(s.list, caller) < |s.list|
    requires s'.list == RemoveAt(s.list, Find(s.list, caller))
    requires forall p | p in s.heap && p in s'.heap :: s'.heap[p] == s.heap[p]
    ensures Pending(s', tid) == if caller == tid then [] else Pending(s, tid)
  {
    FindAfterRemove(s.list, caller, tid);
    if caller != tid {
      PendingFrame(s, s', tid);
    }
  }

  /** How "executed, then pending" moves from `held` to `done` and `left` in one call. */
  ghost predicate Moves(caller: nat, c: Call, out: Outcome, tid: nat, held: seq<Op>, done: seq<Op>, left: seq<Op>) {
    if out.rc == OK && (c.Io? || c.ShimBd?) && caller == tid then
      Performs(done + left, held + Requested(c, out))
    else if out.rc == OK && ((c.Clear? && caller == tid) || c.Cleanup?) then
      done == [] && left == []
    else
      done + left == held
  }

  lemma RefusedOrder(s: State, caller: nat, c: Call)
    requires Valid(s) && Step(s, caller, c).rc == ERR
    ensures Step(s, caller, c).state == s && Step(s, caller, c).effects == []
  {
  }

  lemma CopyOrder(s: State, caller: nat, h: nat, tid: nat)
    requires Valid(s) && StepSubmitCopy(s, caller, h).rc == OK
    ensures Valid(StepSubmitCopy(s, caller, h).state)
    ensures var out := StepSubmitCopy(s, caller, h);
      Executed(out.effects, tid) == [] && Pending(out.state, tid) == Pending(s, tid)
  {
    var out := StepSubmitCopy(s, caller, h);
    assert Buffers(out.state) == Buffers(s);
    BackedCopy(s, h);
    ExecutedTag(caller, true, ResolveAll(s.heap, s.copies[h].txn.cmds), tid);
    PendingRegs(s, out.state.regs, tid);
  }

  lemma CleanupOrder(s: State, tid: nat)
    requires Valid(s)
    ensures Valid(StepCleanup(s).state) && Pending(StepCleanup(s).state, tid) == []
  {
    CleanupKeeps(s);
  }

  lemma FreeOrder(s: State, h: nat, tid: nat)
    requires Valid(s)
    ensures Valid(StepFreeCopy(s, h).state) && Pending(StepFreeCopy(s, h).state, tid) == Pending(s, tid)
  {
    FreeKeeps(s, h);
    PendingFrame(s, StepFreeCopy(s, h).state, tid);
  }

  lemma StartOrder(s: State, t: Txn, tid: nat)
    requires Valid(s) && t.cmds == []
    ensures Valid(s.(list := s.list + [t])) && Pending(s.(list := s.list + [t]), tid) == Pending(s, tid)
  {
    StartKeeps(s, t.tid, t.autoFlush);
    FindStart(s.list, t, tid);
    PendingFrame(s, s.(list := s.list + [t]), tid);
  }

  /** What one call does to "executed, then pending" of any thread. */
  lemma StepOrder(s: State, caller: nat, c: Call, tid: nat)
    requires Valid(s)
    ensures Valid(Step(s, caller, c).state)
    ensures var out := Step(s, caller, c);
      Moves(caller, c, out, tid, Pending(s, tid), Executed(out.effects, tid), Pending(out.state, tid))
  {
    hide Valid, Pending, Performs, Find;
    StepKeeps(s, caller, c);
    var out := Step(s, caller, c);
    if out.rc == ERR {
      RefusedOrder(s, caller, c);
    } else {
      match c
      case Start(auto) => StartOrder(s, Txn(caller, auto, []), tid);
      case Submit => SubmitOrder(s, caller, tid);
      case SubmitCopy(h) => CopyOrder(s, caller, h, tid);
      case Export => ExportFrame(s, caller, tid);
      case FreeCopy(h) => FreeOrder(s, h, tid);
      case Clear => ClearOrder(s, caller, tid);
      case Cleanup => CleanupOrder(s, tid);
      case Io(_) => IoMoves(s, caller, c, tid);
      case ShimBd(_, _) => IoMoves(s, caller, c, tid);
    }
  }

  lemma IoMoves(s: State, caller: nat, c: Call, tid: nat)
    requires Valid(s) && (c.Io? || c.ShimBd?) && StepIo(s, caller, c).rc == OK
    ensures Valid(StepIo(s, caller, c).state)
    ensures var out := StepIo(s, caller, c);
      Moves(caller, c, out, tid, Pending(s, tid), Executed(out.effects, tid), Pending(out.state, tid))
  {
    if caller == tid {
      IoOrder(s, tid, c);
    } else {
      IoEffects(s, caller, c, tid);
      IoFrame(s, caller, c, tid);
    }
  }

  lemma {:induction false} FindStart(list: seq<Txn>, t: Txn, tid: nat)
    ensures Find(list + [t], tid) == if Find(list, tid) == |list| && t.tid != tid then |list| + 1 else Find(list, tid)
  {
    if list != [] {
      assert (list + [t])[1..] == list[1..] + [t];
      FindStart(list[1..], t, tid);
    } else {
      assert ([t])[1..] == [];
    }
  }

  lemma ExportFrame(s: State, caller: nat, tid: nat)
    requires Valid(s)
    ensures Valid(StepExport(s, caller).state)
    ensures Pending(StepExport(s, caller).state, tid) == Pending(s, tid)
  {
    ExportKeeps(s, caller);
    var s' := StepExport(s, caller).state;
    forall p | p in s.heap && p in s'.heap
      ensures s'.heap[p] == s.heap[p]
    {
      StepHeap(s.(closed := false), caller, Export, p);
    }
    PendingFrame(s, s', tid);
  }

  // ---------------------------------------------------------------- whole runs

  lemma IssueOrder(caller: nat, c: Call, out: Outcome, tid: nat,
                   past: seq<Op>, held: seq<Op>, done: seq<Op>, left: seq<Op>, issued: seq<Op>)
    requires Performs(past + held, issued)
    requires Moves(caller, c, out, tid, held, done, left)
    ensures Performs(past + done + left, NextIssued(issued, |held|, caller, c, out, tid))
  {
    if out.rc == OK && (c.Io? || c.ShimBd?) && caller == tid {
      Extend(past, held, done, left, issued, Requested(c, out));
    } else if out.rc == OK && ((c.Clear? && caller == tid) || c.Cleanup?) {
      Withdraw(past, held, issued);
      assert past + done + left == past;
    } else {
      assert past + done + left == past + (done + left);
    }
  }

  /** Program order: for any interleaving, the operations executed for a thread followed by
      those it still has pending are the ones it issued, in the order it issued them. */
  lemma {:induction false} ProgramOrder(s: State, calls: Calls, tid: nat)
    requires Valid(s) && Pending(s, tid) == []
    ensures Performs(Executed(Trace(s, calls), tid) + Pending(Run(s, calls), tid), Issued(s, calls, tid))
  {
    if calls != [] {
      var front := calls[..|calls| - 1];
      var (caller, c) := calls[|calls| - 1];
      ProgramOrder(s, front, tid);
      var before, out := Run(s, front), LastOutcome(s, calls);
      StepOrder(before, caller, c, tid);
      IssueOrder(caller, c, out, tid, Executed(Trace(s, front), tid), Pending(before, tid),
                 Executed(out.effects, tid), Pending(out.state, tid), Issued(s, front, tid));
      ExecutedConcat(Trace(s, front), out.effects, tid);
    }
  }

  lemma Extend(past: seq<Op>, held: seq<Op>, done: seq<Op>, left: seq<Op>, issued: seq<Op>,
      asked: seq<Op>)
    requires Performs(past + held, issued) && Performs(done + left, held + asked)
    ensures Performs(past + done + left, issued + asked)
  {
    var now, goal := past + done + left, issued + asked;
    forall i | 0 <= i < |now|
      ensures now[i] == goal[i] || now[i] == AsBuffered(goal[i])
    {
      if i < |issued| {
        assert (past + held)[i] == issued[i] || (past + held)[i] == AsBuffered(issued[i]);
      }
      if i >= |past| {
        assert now[i] == (done + left)[i - |past|];
      }
    }
  }

  lemma Withdraw(past: seq<Op>, held: seq<Op>, issued: seq<Op>)
    requires Performs(past + held, issued)
    ensures Performs(past, DropLast(issued, |held|))
  {
  }
}
