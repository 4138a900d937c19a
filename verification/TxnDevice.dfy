/** The transaction layer as the driver implements it: transaction instances updated in
    place, command buffers that grow, payloads allocated and freed one at a time. Every
    entry point is proved to take exactly the step the state machine prescribes. */
module TxnDevice {
  import opened Registers
  import opened TxnSpec
  import opened TxnOwnership

  const DEFAULT_NUM_CMDS: nat := 1024

  const IO_WRITE: nat := 0
  const IO_BLOCKWRITE: nat := 1
  const IO_BLOCKSET: nat := 2
  const IO_MASKPOLL: nat := 4

  /** A slot of a command buffer. Slots are reused, so fields an opcode does not set are stale. */
  datatype TxnCmd = TxnCmd(opcode: nat, mask: Word, regOff: nat, value: Word, dataPtr: nat, size: nat)

  predicate Known(c: TxnCmd) {
    c.opcode == IO_WRITE || c.opcode == IO_BLOCKWRITE || c.opcode == IO_BLOCKSET || c.opcode == IO_MASKPOLL
  }

  function Decode(c: TxnCmd): Cmd {
    if c.opcode == IO_WRITE then CWrite(c.regOff, c.mask, c.value)
    else if c.opcode == IO_BLOCKWRITE then CBlockWrite(c.regOff, c.dataPtr, c.size)
    else if c.opcode == IO_BLOCKSET then CBlockSet(c.regOff, c.value, c.size)
    else CPoll(c.regOff, c.mask, c.value)
  }

  function DecodeAll(cmds: seq<TxnCmd>): (r: seq<Cmd>)
    ensures |r| == |cmds|
  {
    seq(|cmds|, i requires 0 <= i < |cmds| => Decode(cmds[i]))
  }

  function Appended(s: State, i: nat, cmds: seq<Cmd>): State
    requires i < |s.list|
  {
    s.(list := s.list[i := s.list[i].(cmds := s.list[i].cmds + cmds)])
  }

  /** The flush in front of an operation that cannot wait. */
  ghost function Flushed(s: State, tid: nat, i: nat): Outcome
    requires TxnSpec.Valid(s) && i <= |s.list|
  {
    if i < |s.list| && s.list[i].autoFlush && s.list[i].cmds != [] then
      BackedAt(s, i);
      Outcome(FlushAt(s, i), OK, Tag(tid, false, ResolveAll(s.heap, s.list[i].cmds)))
    else Outcome(s, OK, [])
  }

  class TxnInst {
    const tid: nat
    const autoFlush: bool
    const exported: bool
    var numCmds: nat
    var maxCmds: nat
    var cmdBuf: seq<TxnCmd>

    ghost predicate Valid()
      reads this
    {
      && numCmds <= |cmdBuf|
      && (forall i | 0 <= i < numCmds :: Known(cmdBuf[i]))
      && (!exported ==> |cmdBuf| == maxCmds && numCmds < maxCmds)
    }

    ghost function Abs(): Txn
      reads this
      requires Valid()
    {
      Txn(tid, autoFlush, DecodeAll(cmdBuf[..numCmds]))
    }

    constructor Start(tid: nat, autoFlush: bool)
      ensures Valid() && !exported && Abs() == Txn(tid, autoFlush, [])
    {
      this.tid, this.autoFlush, this.exported := tid, autoFlush, false;
      numCmds, maxCmds := 0, DEFAULT_NUM_CMDS;
      cmdBuf := seq(DEFAULT_NUM_CMDS, _ => TxnCmd(0, 0, 0, 0, 0, 0));
    }

    /** The exported copy gets a buffer of exactly the recorded commands. */
    constructor Copy(of: TxnInst, cmds: seq<TxnCmd>)
      requires of.Valid() && |cmds| == of.numCmds && forall i | 0 <= i < |cmds| :: Known(cmds[i])
      ensures Valid() && exported && Abs() == Txn(of.tid, of.autoFlush, DecodeAll(cmds))
      ensures cmdBuf == cmds && numCmds == |cmds|
    {
      tid, autoFlush, exported := of.tid, of.autoFlush, true;
      numCmds, maxCmds := of.numCmds, of.maxCmds;
      cmdBuf := cmds;
    }

    /** Makes sure one more command fits and returns the slot it goes into. */
    method Reserve() returns (slot: TxnCmd)
      requires Valid() && !exported
      modifies this
      ensures Valid() && Abs() == old(Abs()) && numCmds == old(numCmds) && numCmds + 1 < maxCmds
      ensures slot == cmdBuf[numCmds]
    {
      if numCmds + 1 == maxCmds {
        cmdBuf := cmdBuf + seq(DEFAULT_NUM_CMDS, _ => TxnCmd(0, 0, 0, 0, 0, 0));
        maxCmds := maxCmds + DEFAULT_NUM_CMDS;
        assert cmdBuf[..numCmds] == old(cmdBuf)[..numCmds];
      }
      slot := cmdBuf[numCmds];
    }

    method Push(cmd: TxnCmd)
      requires Valid() && !exported && numCmds + 1 < maxCmds && Known(cmd)
      modifies this
      ensures Valid() && Abs() == old(Abs()).(cmds := old(Abs()).cmds + [Decode(cmd)])
    {
      cmdBuf := cmdBuf[numCmds := cmd];
      numCmds := numCmds + 1;
      assert cmdBuf[..numCmds] == old(cmdBuf[..numCmds]) + [cmd];
    }

    method Reset()
      requires Valid() && !exported
      modifies this
      ensures Valid() && Abs() == old(Abs()).(cmds := [])
    {
      numCmds := 0;
    }
  }

  class Device {
    var regs: Mem
    var heap: Heap
    var list: seq<TxnInst>
    var copies: seq<TxnInst?>
    var next: nat
    var closed: bool
    ghost var trace: seq<Effect>

    ghost predicate Shape()
      reads this, list, copies
    {
      && (forall i | 0 <= i < |list| :: list[i].Valid() && !list[i].exported)
      && (forall i, j | 0 <= i < j < |list| :: list[i] != list[j])
      && (forall h | 0 <= h < |copies| && copies[h] != null :: copies[h].Valid() && copies[h].exported)
    }

    ghost function AbsList(): (r: seq<Txn>)
      reads this, list, copies
      requires Shape()
      ensures |r| == |list|
    {
      seq(|list|, i requires 0 <= i < |list| && Shape() reads this, list, copies => list[i].Abs())
    }

    ghost function AbsCopies(): (r: seq<TxnSpec.Copy>)
      reads this, list, copies
      requires Shape()
      ensures |r| == |copies|
    {
      seq(|copies|, h requires 0 <= h < |copies| && Shape() reads this, list, copies =>
        if copies[h] == null then Freed else Live(copies[h].Abs()))
    }

    ghost function Abs(): State
      reads this, list, copies
      requires Shape()
    {
      State(regs, heap, AbsList(), AbsCopies(), next, closed)
    }

    ghost predicate Valid()
      reads this, list, copies
    {
      Shape() && TxnSpec.Valid(Abs())
    }

    constructor (regs: Mem)
      ensures Valid() && Abs() == State(regs, map[], [], [], 0, false) && trace == []
    {
      this.regs, heap, list, copies, next, closed, trace := regs, map[], [], [], 0, false, [];
      new;
      assert Buffers(Abs()) == [];
    }

    lemma Listed(i: nat)
      requires Shape() && i < |list|
      ensures |Abs().list| == |list| && Abs().list[i] == list[i].Abs() && list[i].Valid() && !list[i].exported
    {
    }

    // -------------------------------------------------------------- backend and allocator

    method Backend(tid: nat, fromCopy: bool, op: Op)
      modifies this`regs, this`trace
      ensures regs == Apply(old(regs), op) && trace == old(trace) + [Effect(tid, fromCopy, op)]
    {
      regs := Apply(regs, op);
      trace := trace + [Effect(tid, fromCopy, op)];
    }

    method Malloc(data: seq<Word>) returns (p: nat)
      modifies this`heap, this`next
      ensures p == old(next) && next == p + 1 && heap == old(heap)[p := data]
    {
      p := next;
      heap := heap[p := data];
      next := next + 1;
    }

    /** Freeing a payload twice, or one that was never allocated, does not verify. */
    method Free(p: nat)
      requires p in heap
      modifies this`heap
      ensures heap == map q | q in old(heap) && q != p :: old(heap)[q]
    {
      heap := heap - {p};
    }

    // -------------------------------------------------------------- transaction list

    method GetTxnInst(tid: nat) returns (inst: TxnInst?, ghost i: nat)
      requires Shape()
      ensures i == Find(AbsList(), tid)
      ensures inst == if Find(AbsList(), tid) == |list| then null else list[Find(AbsList(), tid)]
    {
      var k := 0;
      while k < |list|
        invariant k <= |list|
        invariant forall j | 0 <= j < k :: list[j].tid != tid
      {
        if list[k].tid == tid {
          FindIs(AbsList(), tid, k);
          return list[k], k;
        }
        k := k + 1;
      }
      FindIs(AbsList(), tid, k);
      return null, k;
    }

    // -------------------------------------------------------------- executing a buffer

    method ExecuteCmd(cmd: TxnCmd, tid: nat, exported: bool)
      requires Known(cmd)
      requires cmd.opcode == IO_BLOCKWRITE ==> cmd.dataPtr in heap && |heap[cmd.dataPtr]| == cmd.size
      modifies this`regs, this`trace, this`heap
      ensures var op := Resolve(old(heap), Decode(cmd));
        regs == Apply(old(regs), op) && trace == old(trace) + [Effect(tid, exported, op)]
      ensures heap == if exported then old(heap) else Release(old(heap), [Decode(cmd)])
    {
      ReleaseOne(heap, Decode(cmd));
      if cmd.opcode == IO_WRITE {
        if cmd.mask == 0 {
          Backend(tid, exported, Write(cmd.regOff, cmd.value));
        } else {
          Backend(tid, exported, MaskWrite(cmd.regOff, cmd.mask, cmd.value));
        }
      } else if cmd.opcode == IO_BLOCKWRITE {
        Backend(tid, exported, BlockWrite(cmd.regOff, heap[cmd.dataPtr]));
        if !exported {
          Free(cmd.dataPtr);
        }
      } else if cmd.opcode == IO_BLOCKSET {
        Backend(tid, exported, BlockSet(cmd.regOff, cmd.value, cmd.size));
      } else {
        Backend(tid, exported, Op.MaskPoll(cmd.regOff, cmd.mask, cmd.value, 0));
      }
    }

    /** Executes a buffer front to back. A listed transaction gives up its payloads, an
        exported one keeps them. */
    method FlushCmdBuf(inst: TxnInst, tid: nat)
      requires inst.Valid() && Backed(heap, inst.Abs().cmds)
      requires !inst.exported ==> forall p: nat :: Uses(inst.Abs().cmds, p) <= 1
      modifies this`regs, this`trace, this`heap
      ensures var cmds := inst.Abs().cmds;
        && regs == Replay(old(regs), ResolveAll(old(heap), cmds))
        && trace == old(trace) + Tag(tid, inst.exported, ResolveAll(old(heap), cmds))
        && heap == if inst.exported then old(heap) else Release(old(heap), cmds)
    {
      ghost var cmds, h0 := inst.Abs().cmds, heap;
      ghost var ops := ResolveAll(h0, cmds);
      var i := 0;
      while i < inst.numCmds
        invariant i <= inst.numCmds
        invariant regs == Replay(old(regs), ops[..i])
        invariant trace == old(trace) + Tag(tid, inst.exported, ops[..i])
        invariant heap == if inst.exported then h0 else Release(h0, cmds[..i])
      {
        assert Decode(inst.cmdBuf[i]) == cmds[i];
        if !inst.exported {
          ReleaseNext(h0, cmds, i);
        }
        ReplayNext(old(regs), ops, i);
        TagNext(tid, inst.exported, ops, i);
        ExecuteCmd(inst.cmdBuf[i], tid, inst.exported);
        i := i + 1;
      }
      assert cmds[..i] == cmds && ops[..i] == ops;
    }

    // -------------------------------------------------------------- transactions

    /** The state one call leads to, and the operations it performs, as the state machine has them. */
    twostate predicate Took(tid: nat, c: Call, rc: Rc)
      requires old(Valid())
      reads this, list, copies
    {
      && Valid()
      && var out := Step(old(Abs()), tid, c);
         Abs() == out.state && rc == out.rc && trace == old(trace) + out.effects
    }

    /** A call that leads to the prescribed state leads to a valid one. */
    twostate lemma Landed(new tid: nat, new c: Call, new rc: Rc)
      requires old(Valid()) && Shape()
      requires var out := Step(old(Abs()), tid, c);
        Abs() == out.state && rc == out.rc && trace == old(trace) + out.effects
      ensures Took(tid, c, rc)
    {
      StepKeeps(old(Abs()), tid, c);
    }

    /** The operation was recorded. */
    twostate lemma Recorded(new tid: nat, new c: Call, new i: nat)
      requires old(Valid()) && !old(closed) && (c.Io? || c.ShimBd?) && Shape()
      requires i == Find(old(Abs()).list, tid) && i < |old(Abs()).list|
      requires RouteOf(c, old(Abs()).list[i].autoFlush, old(Abs()).list[i].cmds != []) == Append
      requires Abs() == AppendTo(old(Abs()), i, c) && trace == old(trace)
      ensures Took(tid, c, OK)
    {
      IoRecords(old(Abs()), tid, c, i);
    }

    /** The operation was carried out, after a flush where one was due. */
    twostate lemma CarriedOut(new tid: nat, new c: Call, new i: nat)
      requires old(Valid()) && !old(closed) && (c.Io? || c.ShimBd?) && Shape()
      requires i == Find(old(Abs()).list, tid) && GoesAhead(old(Abs()), c, i)
      requires var pre := Flushed(old(Abs()), tid, i).state;
        Abs() == pre.(regs := Replay(pre.regs, DirectOps(pre.regs, c)))
      requires var pre := Flushed(old(Abs()), tid, i);
        trace == old(trace) + pre.effects + Tag(tid, false, DirectOps(pre.state.regs, c))
      ensures Took(tid, c, OK)
    {
      hide Step, Flushed, DirectOps, Replay, Tag, TxnSpec.Valid, GoesAhead;
      ghost var pre := Flushed(old(Abs()), tid, i);
      IoPerforms(old(Abs()), tid, c, i, pre);
      ghost var tail := Tag(tid, false, DirectOps(pre.state.regs, c));
      assert old(trace) + pre.effects + tail == old(trace) + (pre.effects + tail);
    }

    /** The operation was refused. */
    twostate lemma Refused(new tid: nat, new c: Call, new i: nat)
      requires old(Valid()) && !old(closed) && (c.Io? || c.ShimBd?) && Shape()
      requires i == Find(old(Abs()).list, tid) && i < |old(Abs()).list|
      requires RouteOf(c, old(Abs()).list[i].autoFlush, old(Abs()).list[i].cmds != []) == Reject
      requires Abs() == old(Abs()) && trace == old(trace)
      ensures Took(tid, c, ERR)
    {
    }

    method StartTransaction(tid: nat, autoFlush: bool) returns (rc: Rc)
      requires Valid() && !closed
      modifies this
      ensures Took(tid, TxnSpec.Start(autoFlush), rc)
      ensures forall x | x in list :: x in old(list) || fresh(x)
    {
      hide TxnSpec.Valid;
      ghost var s0 := Abs();
      var inst := new TxnInst.Start(tid, autoFlush);
      list := list + [inst];
      rc := OK;
      StepKeeps(s0, tid, TxnSpec.Start(autoFlush));
      assert AbsList() == s0.list + [Txn(tid, autoFlush, [])];
      assert AbsCopies() == s0.copies;
      assert Abs() == Step(s0, tid, TxnSpec.Start(autoFlush)).state;
    }

    /** Flushes transaction `i` of the list; its commands stay in the buffer until reset. */
    method FlushListed(inst: TxnInst, ghost i: nat, tid: nat)
      requires Valid() && i < |list| && inst == list[i]
      modifies this`regs, this`trace, this`heap
      ensures Shape() && Backed(old(Abs()).heap, old(Abs()).list[i].cmds)
      ensures var s, cmds := old(Abs()), old(Abs()).list[i].cmds;
        && Abs() == s.(regs := Replay(s.regs, ResolveAll(s.heap, cmds)), heap := Release(s.heap, cmds))
        && trace == old(trace) + Tag(tid, false, ResolveAll(s.heap, cmds))
    {
      BackedAt(Abs(), i);
      forall p: nat
        ensures Uses(inst.Abs().cmds, p) <= 1
      {
        OwnersSplit(Buffers(Abs()), i, p);
        assert Owners(Buffers(Abs()), p) <= 1;
      }
      FlushCmdBuf(inst, tid);
    }

    lemma FoundAt(i: nat, tid: nat)
      requires Shape() && i < |list| && i == Find(AbsList(), tid)
      ensures list[i].tid == tid && forall j | 0 <= j < i :: list[j].tid != tid
    {
      hide Find;
      assert AbsList()[i].tid == list[i].tid;
      forall j | 0 <= j < i
        ensures list[j].tid != tid
      {
        assert AbsList()[j].tid == list[j].tid;
      }
    }

    /** Where the oldest transaction of a thread is. */
    method Position(ghost i: nat, tid: nat) returns (k: nat)
      requires Shape() && i < |list| && i == Find(AbsList(), tid)
      ensures k == i
    {
      hide Shape, AbsList, Find;
      FoundAt(i, tid);
      k := 0;
      while list[k].tid != tid
        invariant k <= i
        decreases i - k
      {
        k := k + 1;
      }
    }

    method RemoveTxnInst(ghost i: nat, tid: nat)
      requires Shape() && i < |list| && i == Find(AbsList(), tid)
      modifies this`list
      ensures Shape() && list == old(list)[..i] + old(list)[i + 1..]
      ensures Abs() == old(Abs()).(list := RemoveAt(old(Abs()).list, i))
    {
      hide Find, TxnInst.Abs, TxnInst.Valid;
      var k := Position(i, tid);
      list := list[..k] + list[k + 1..];
      assert AbsList() == RemoveAt(old(AbsList()), i);
    }

    method SubmitTransaction(tid: nat) returns (rc: Rc)
      requires Valid() && !closed
      modifies this
      ensures Took(tid, TxnSpec.Submit, rc)
      ensures forall x | x in list :: x in old(list)
    {
      ghost var s0 := Abs();
      StepKeeps(s0, tid, TxnSpec.Submit);
      var inst, i := GetTxnInst(tid);
      if inst == null {
        return ERR;
      }
      FlushListed(inst, i, tid);
      RemoveTxnInst(i, tid);
      rc := OK;
      assert RemoveAt(FlushAt(s0, i).list, i) == RemoveAt(s0.list, i);
    }

    method SubmitCopy(tid: nat, h: nat) returns (rc: Rc)
      requires Valid() && !closed && h < |copies| && copies[h] != null
      modifies this
      ensures Took(tid, TxnSpec.SubmitCopy(h), rc)
      ensures list == old(list)
    {
      ghost var s0 := Abs();
      StepKeeps(s0, tid, TxnSpec.SubmitCopy(h));
      BackedCopy(s0, h);
      assert copies[h].Abs() == s0.copies[h].txn;
      FlushCmdBuf(copies[h], tid);
      rc := OK;
      assert AbsList() == s0.list && AbsCopies() == s0.copies;
      assert Abs() == Step(s0, tid, TxnSpec.SubmitCopy(h)).state;
    }

    // -------------------------------------------------------------- releasing payloads

    /** Frees the payload of every block write of a buffer, front to back. */
    method FreePayloads(inst: TxnInst)
      requires inst.Valid() && Backed(heap, inst.Abs().cmds)
      requires forall p: nat :: Uses(inst.Abs().cmds, p) <= 1
      modifies this`heap
      ensures heap == Release(old(heap), inst.Abs().cmds)
    {
      ghost var cmds, h0 := inst.Abs().cmds, heap;
      var i := 0;
      while i < inst.numCmds
        invariant i <= inst.numCmds
        invariant heap == Release(h0, cmds[..i])
      {
        assert Decode(inst.cmdBuf[i]) == cmds[i];
        ReleaseNext(h0, cmds, i);
        ReleaseOne(heap, cmds[i]);
        if inst.cmdBuf[i].opcode == IO_BLOCKWRITE {
          Free(inst.cmdBuf[i].dataPtr);
        }
        i := i + 1;
      }
      assert cmds[..i] == cmds;
    }

    /** Frees the payloads of one transaction of the list. */
    method FreeListed(inst: TxnInst, ghost i: nat, ghost s: State)
      requires Shape() && Abs() == s && i < |list| && inst == list[i]
      requires Backed(s.heap, s.list[i].cmds) && forall p: nat :: Uses(s.list[i].cmds, p) <= 1
      modifies this`heap
      ensures Shape() && Abs() == s.(heap := Release(s.heap, s.list[i].cmds))
    {
      FreePayloads(inst);
      assert AbsList() == s.list && AbsCopies() == s.copies;
    }

    method ClearTransaction(tid: nat) returns (rc: Rc)
      requires Valid() && !closed
      modifies this
      ensures Took(tid, TxnSpec.Clear, rc)
      ensures forall x | x in list :: x in old(list)
    {
      hide Took, TxnSpec.Valid, AbsList, AbsCopies, Shape, Release, Backed, RemoveAt;
      ghost var s0 := Abs();
      var inst, i := Lookup(tid);
      if inst == null {
        rc := ERR;
      } else {
        ListedOnce(s0, i);
        FreeListed(inst, i, s0);
        RemoveTxnInst(i, tid);
        rc := OK;
      }
      Landed(tid, TxnSpec.Clear, rc);
    }

    method FreeCopy(tid: nat, h: nat) returns (rc: Rc)
      requires Valid() && h < |copies| && copies[h] != null
      modifies this
      ensures Took(tid, TxnSpec.FreeCopy(h), rc)
      ensures list == old(list)
    {
      ghost var s0 := Abs();
      CopyOnce(s0, h);
      assert copies[h].Abs() == s0.copies[h].txn;
      FreePayloads(copies[h]);
      copies := copies[h := null];
      rc := OK;
      assert AbsList() == s0.list && AbsCopies() == s0.copies[h := Freed];
      Landed(tid, TxnSpec.FreeCopy(h), rc);
    }

    method ResourceCleanup(tid: nat) returns (rc: Rc)
      requires Valid() && !closed
      modifies this
      ensures Took(tid, TxnSpec.Cleanup, rc)
      ensures list == []
    {
      ghost var s0 := Abs();
      ReleaseListNone(s0);
      var k := 0;
      while k < |list|
        invariant k <= |list| && list == old(list) && trace == old(trace) && Shape()
        invariant Abs() == s0.(heap := ReleaseList(s0.heap, s0.list[..k]))
      {
        ReleaseListNext(s0, k);
        FreeListed(list[k], k, Abs());
        k := k + 1;
      }
      assert s0.list[..k] == s0.list;
      list, closed := [], true;
      rc := OK;
      assert AbsList() == [] && AbsCopies() == s0.copies;
      Landed(tid, TxnSpec.Cleanup, rc);
    }

    // -------------------------------------------------------------- export

    /** The commands of a transaction with every payload copied to a fresh allocation. */
    method CopyCommands(inst: TxnInst) returns (cmds: seq<TxnCmd>)
      requires inst.Valid() && Backed(heap, inst.Abs().cmds)
      requires forall p | p in heap :: p < next
      modifies this`heap, this`next
      ensures |cmds| == inst.numCmds && forall i | 0 <= i < |cmds| :: Known(cmds[i])
      ensures DecodeAll(cmds) == Renamed(inst.Abs().cmds, old(next))
      ensures heap == CopiedHeap(old(heap), inst.Abs().cmds, old(next))
      ensures next == old(next) + Blocks(inst.Abs().cmds)
    {
      ghost var was, h0, next0 := inst.Abs().cmds, heap, next;
      cmds := [];
      for i := 0 to inst.numCmds
        invariant |cmds| == i && forall j | 0 <= j < i :: Known(cmds[j])
        invariant DecodeAll(cmds) == Renamed(was[..i], next0)
        invariant heap == CopiedHeap(h0, was[..i], next0) && next == next0 + Blocks(was[..i])
      {
        var cmd := inst.cmdBuf[i];
        assert Decode(cmd) == was[i];
        CopyNext(h0, was, next0, i);
        if cmd.opcode == IO_BLOCKWRITE {
          var p := Malloc(heap[cmd.dataPtr]);
          cmd := cmd.(dataPtr := p);
        }
        DecodeNext(cmds, cmd);
        cmds := cmds + [cmd];
      }
      assert was[..inst.numCmds] == was;
    }

    method CopyListed(inst: TxnInst, ghost i: nat) returns (cmds: seq<TxnCmd>)
      requires Valid() && i < |list| && inst == list[i] && Backed(Abs().heap, Abs().list[i].cmds)
      modifies this`heap, this`next
      ensures Shape() && |cmds| == inst.numCmds && forall k | 0 <= k < |cmds| :: Known(cmds[k])
      ensures var s, was := old(Abs()), old(Abs()).list[i].cmds;
        && DecodeAll(cmds) == Renamed(was, s.next)
        && Abs() == s.(heap := CopiedHeap(s.heap, was, s.next), next := s.next + Blocks(was))
    {
      ghost var s := Abs();
      cmds := CopyCommands(inst);
      assert AbsList() == s.list && AbsCopies() == s.copies;
    }

    /** Hands out a copy of a transaction under the given commands. */
    method AddCopy(of: TxnInst, cmds: seq<TxnCmd>)
      requires Shape() && of.Valid() && |cmds| == of.numCmds && forall i | 0 <= i < |cmds| :: Known(cmds[i])
      modifies this`copies
      ensures Shape()
      ensures Abs() == old(Abs()).(copies := old(Abs()).copies + [Live(of.Abs().(cmds := DecodeAll(cmds)))])
    {
      ghost var s0 := Abs();
      var inst := new TxnInst.Copy(of, cmds);
      copies := copies + [inst];
      assert AbsList() == s0.list;
      assert AbsCopies() == s0.copies + [Live(inst.Abs())];
    }

    method TxnExport(tid: nat) returns (rc: Rc)
      requires Valid() && !closed
      modifies this
      ensures Took(tid, TxnSpec.Export, rc)
      ensures list == old(list)
    {
      hide Took, TxnSpec.Valid, AbsList, AbsCopies, Shape, Backed, CopiedHeap, Renamed, Blocks, Buffers, AllBacked;
      ghost var s0 := Abs();
      var tmpInst, i := Lookup(tid);
      if tmpInst == null {
        rc := ERR;
      } else {
        Listed(i);
        ListedOnce(s0, i);
        var cmds := CopyListed(tmpInst, i);
        AddCopy(tmpInst, cmds);
        rc := OK;
      }
      Landed(tid, TxnSpec.Export, rc);
    }

    // -------------------------------------------------------------- register access

    /** One backend operation, which touches no buffer. */
    method Perform(tid: nat, op: Op)
      requires Shape()
      modifies this`regs, this`trace
      ensures Shape() && Abs() == old(Abs()).(regs := Apply(old(Abs()).regs, op))
      ensures trace == old(trace) + [Effect(tid, false, op)]
    {
      Backend(tid, false, op);
      assert AbsList() == old(AbsList()) && AbsCopies() == old(AbsCopies());
    }

    /** Carries out one operation at once. */
    method Direct(tid: nat, op: Op)
      requires Shape()
      modifies this`regs, this`trace
      ensures Shape() && Abs() == old(Abs()).(regs := Replay(old(Abs()).regs, [op]))
      ensures trace == old(trace) + Tag(tid, false, [op])
    {
      assert [op][..0] == [];
      Perform(tid, op);
    }

    /** Flushes transaction `i` and starts its buffer over. */
    method AutoFlush(inst: TxnInst, ghost i: nat, tid: nat)
      requires Valid() && i < |list| && inst == list[i]
      modifies this`regs, this`trace, this`heap, inst
      ensures Backed(old(Abs()).heap, old(Abs()).list[i].cmds)
      ensures Shape() && Abs() == FlushAt(old(Abs()), i)
      ensures trace == old(trace) + Tag(tid, false, ResolveAll(old(Abs()).heap, old(Abs()).list[i].cmds))
    {
      ghost var s0 := Abs();
      FlushListed(inst, i, tid);
      ghost var s1 := Abs();
      inst.Reset();
      assert AbsList() == s1.list[i := s1.list[i].(cmds := [])];
      assert AbsCopies() == s1.copies;
    }

    /** Takes the next slot of transaction `i` and overwrites the fields the operation uses. */
    method Record(inst: TxnInst, ghost i: nat, fill: TxnCmd -> TxnCmd, ghost cmd: Cmd)
      requires Shape() && i < |list| && inst == list[i]
      requires forall slot :: Known(fill(slot)) && Decode(fill(slot)) == cmd
      modifies inst
      ensures Shape() && Abs() == Appended(old(Abs()), i, [cmd])
    {
      ghost var s0 := Abs();
      var slot := inst.Reserve();
      inst.Push(fill(slot));
      assert AbsList() == Appended(s0, i, [cmd]).list;
      assert AbsCopies() == s0.copies;
    }

    /** The transaction an operation of the caller belongs to, if there is one. */
    method Lookup(tid: nat) returns (inst: TxnInst?, ghost i: nat)
      requires Shape()
      ensures i == Find(Abs().list, tid) && |Abs().list| == |list|
      ensures inst == if Find(Abs().list, tid) == |list| then null else list[Find(Abs().list, tid)]
    {
      inst, i := null, 0;
      if |list| != 0 {
        inst, i := GetTxnInst(tid);
      }
    }

    method Write32(tid: nat, off: nat, value: Word) returns (rc: Rc)
      requires Valid() && !closed
      modifies this, list
      ensures list == old(list) && Took(tid, Io(Op.Write(off, value)), rc)
    {
      hide Took, Step, Replay, Tag, TxnSpec.Valid, Abs, Shape;
      var inst, i := Lookup(tid);
      if inst == null {
        Direct(tid, Op.Write(off, value));
        CarriedOut(tid, Io(Op.Write(off, value)), i);
      } else {
        Record(inst, i, (slot: TxnCmd) => slot.(opcode := IO_WRITE, regOff := off, value := value, mask := 0),
               CWrite(off, 0, value));
        Recorded(tid, Io(Op.Write(off, value)), i);
      }
      rc := OK;
    }

    method MaskWrite32(tid: nat, off: nat, mask: Word, value: Word) returns (rc: Rc)
      requires Valid() && !closed
      modifies this, list
      ensures list == old(list) && Took(tid, Io(MaskWrite(off, mask, value)), rc)
    {
      hide Took, Step, Replay, Tag, TxnSpec.Valid, Abs, Shape;
      var inst, i := Lookup(tid);
      if inst == null {
        Direct(tid, MaskWrite(off, mask, value));
        CarriedOut(tid, Io(MaskWrite(off, mask, value)), i);
      } else {
        Record(inst, i, (slot: TxnCmd) => slot.(opcode := IO_WRITE, regOff := off, mask := mask, value := value),
               CWrite(off, mask, value));
        Recorded(tid, Io(MaskWrite(off, mask, value)), i);
      }
      rc := OK;
    }

    /** Finds the caller's transaction and flushes it if it flushes by itself. Says whether
        nothing is left in front of an operation that cannot be buffered. */
    method Settle(tid: nat) returns (inst: TxnInst?, ghost i: nat, clear: bool)
      requires Valid()
      modifies this`regs, this`trace, this`heap, list
      ensures i == Find(old(Abs()).list, tid) && Shape() && |old(Abs()).list| == |list|
      ensures if i == |list| then inst == null else inst == list[i]
      ensures var pre := Flushed(old(Abs()), tid, i);
        Abs() == pre.state && trace == old(trace) + pre.effects
      ensures clear && i < |list| ==> old(Abs()).list[i].cmds == [] || old(Abs()).list[i].autoFlush
      ensures !clear ==> i < |list| && Abs() == old(Abs()) && trace == old(trace)
      ensures !clear ==> old(Abs()).list[i].cmds != [] && !old(Abs()).list[i].autoFlush
    {
      inst, i := Lookup(tid);
      if inst == null {
        return inst, i, true;
      }
      if inst.autoFlush && inst.numCmds > 0 {
        AutoFlush(inst, i, tid);
      }
      assert Abs().list[i] == inst.Abs() && |inst.Abs().cmds| == inst.numCmds;
      return inst, i, inst.numCmds == 0;
    }

    method DirectRead(tid: nat, off: nat) returns (data: Word)
      requires Shape()
      modifies this`regs, this`trace
      ensures Shape() && Abs() == old(Abs()).(regs := Replay(old(Abs()).regs, [Op.Read32(off, data)]))
      ensures trace == old(trace) + Tag(tid, false, [Op.Read32(off, data)])
      ensures data == Fetch(regs, off) == Fetch(old(Abs()).regs, off)
      ensures trace != [] && trace[|trace| - 1] == Effect(tid, false, Op.Read32(off, data))
    {
      data := Fetch(regs, off);
      assert [Op.Read32(off, data)][..0] == [];
      Direct(tid, Op.Read32(off, data));
    }

    /** `data` is meaningful only on success. */
    method Read32(tid: nat, off: nat) returns (rc: Rc, data: Word)
      requires Valid() && !closed
      modifies this, list
      ensures list == old(list) && Took(tid, Io(Op.Read32(off, 0)), rc)
      ensures rc == OK ==> data == Fetch(regs, off) && trace != [] && trace[|trace| - 1].op == Op.Read32(off, data)
    {
      hide Took, Step, Flushed, Replay, Tag, TxnSpec.Valid, Abs, Shape;
      var inst, i, clear := Settle(tid);
      if !clear {
        Refused(tid, Io(Op.Read32(off, 0)), i);
        return ERR, 0;
      }
      data := DirectRead(tid, off);
      CarriedOut(tid, Io(Op.Read32(off, 0)), i);
      rc := OK;
    }

    method MaskPoll(tid: nat, off: nat, mask: Word, value: Word, timeout: nat) returns (rc: Rc)
      requires Valid() && !closed
      modifies this, list
      ensures list == old(list) && Took(tid, Io(Op.MaskPoll(off, mask, value, timeout)), rc)
    {
      hide Took, Step, Flushed, Replay, Tag, TxnSpec.Valid, Abs, Shape;
      var inst, i, clear := Settle(tid);
      if clear {
        Direct(tid, Op.MaskPoll(off, mask, value, timeout));
        CarriedOut(tid, Io(Op.MaskPoll(off, mask, value, timeout)), i);
      } else {
        Record(inst, i, (slot: TxnCmd) => slot.(opcode := IO_MASKPOLL, regOff := off, mask := mask, value := value),
               CPoll(off, mask, value));
        Recorded(tid, Io(Op.MaskPoll(off, mask, value, timeout)), i);
      }
      rc := OK;
    }

    /** Array commands and backend operations other than a shim descriptor write: never buffered. */
    method CmdWrite(tid: nat, code: nat) returns (rc: Rc)
      requires Valid() && !closed
      modifies this, list
      ensures list == old(list) && Took(tid, Io(Command(code)), rc)
    {
      hide Took, Step, Flushed, Replay, Tag, TxnSpec.Valid, Abs, Shape;
      var inst, i, clear := Settle(tid);
      if !clear {
        Refused(tid, Io(Command(code)), i);
        return ERR;
      }
      Direct(tid, Command(code));
      CarriedOut(tid, Io(Command(code)), i);
      rc := OK;
    }

    /** Finds the transaction a block operation has to be buffered in, if any. One that
        flushes by itself is flushed instead, whatever it holds. */
    method SettleBlock(tid: nat) returns (inst: TxnInst?, ghost i: nat)
      requires Valid()
      modifies this`regs, this`trace, this`heap, list
      ensures i == Find(old(Abs()).list, tid) && Shape() && |old(Abs()).list| == |list|
      ensures var pre := Flushed(old(Abs()), tid, i);
        Abs() == pre.state && trace == old(trace) + pre.effects
      ensures i < |list| ==> list[i].autoFlush == old(Abs()).list[i].autoFlush
      ensures if i == |list| || list[i].autoFlush then inst == null else inst == list[i]
      ensures inst != null ==> Abs() == old(Abs()) && trace == old(trace)
    {
      inst, i := Lookup(tid);
      if inst != null && inst.autoFlush {
        if inst.numCmds > 0 {
          AutoFlush(inst, i, tid);
        }
        return null, i;
      }
    }

    method AllocPayload(data: seq<Word>) returns (p: nat)
      requires Shape()
      modifies this`heap, this`next
      ensures Shape() && p == old(Abs()).next
      ensures Abs() == old(Abs()).(heap := old(Abs()).heap[p := data], next := p + 1)
    {
      ghost var s0 := Abs();
      p := Malloc(data);
      assert AbsList() == s0.list && AbsCopies() == s0.copies;
    }

    /** Records a block write with its own copy of the data. */
    method RecordBlock(inst: TxnInst, ghost i: nat, off: nat, data: seq<Word>)
      requires Shape() && i < |list| && inst == list[i]
      modifies this`heap, this`next, inst
      ensures Shape() && Abs() == AppendTo(old(Abs()), i, Io(BlockWrite(off, data)))
    {
      var buf := AllocPayload(data);
      Record(inst, i,
             (slot: TxnCmd) => slot.(opcode := IO_BLOCKWRITE, regOff := off, dataPtr := buf, size := |data|, mask := 0),
             CBlockWrite(off, buf, |data|));
    }

    method BlockWrite32(tid: nat, off: nat, data: seq<Word>) returns (rc: Rc)
      requires Valid() && !closed
      modifies this, list
      ensures list == old(list) && Took(tid, Io(BlockWrite(off, data)), rc)
    {
      hide Took, Step, Flushed, Replay, Tag, TxnSpec.Valid, Abs, Shape;
      var inst, i := SettleBlock(tid);
      if inst == null {
        Direct(tid, BlockWrite(off, data));
        CarriedOut(tid, Io(BlockWrite(off, data)), i);
      } else {
        RecordBlock(inst, i, off, data);
        Recorded(tid, Io(BlockWrite(off, data)), i);
      }
      rc := OK;
    }

    method BlockSet32(tid: nat, off: nat, data: Word, size: nat) returns (rc: Rc)
      requires Valid() && !closed
      modifies this, list
      ensures list == old(list) && Took(tid, Io(BlockSet(off, data, size)), rc)
    {
      hide Took, Step, Flushed, Replay, Tag, TxnSpec.Valid, Abs, Shape;
      var inst, i := SettleBlock(tid);
      if inst == null {
        Direct(tid, BlockSet(off, data, size));
        CarriedOut(tid, Io(BlockSet(off, data, size)), i);
      } else {
        Record(inst, i,
               (slot: TxnCmd) => slot.(opcode := IO_BLOCKSET, regOff := off, value := data, size := size, mask := 0),
               CBlockSet(off, data, size));
        Recorded(tid, Io(BlockSet(off, data, size)), i);
      }
      rc := OK;
    }

    /** The backend's shim descriptor write: one register write per word. */
    method WriteShimBd(tid: nat, off: nat, words: seq<Word>)
      requires Shape()
      modifies this`regs, this`trace
      ensures Shape() && Abs() == old(Abs()).(regs := Replay(old(Abs()).regs, ShimWrites(off, words)))
      ensures trace == old(trace) + Tag(tid, false, ShimWrites(off, words))
    {
      hide Shape, AbsList, AbsCopies, Replay, Tag;
      ghost var ops := ShimWrites(off, words);
      ReplayNone(regs, ops, tid);
      for k := 0 to |words|
        invariant Shape() && Abs() == old(Abs()).(regs := Replay(old(Abs()).regs, ops[..k]))
        invariant trace == old(trace) + Tag(tid, false, ops[..k])
      {
        ReplayNext(old(regs), ops, k);
        TagNext(tid, false, ops, k);
        Perform(tid, Op.Write(off + 4 * k, words[k]));
      }
      assert ops[..|words|] == ops;
    }

    /** One more word of a descriptor that is being recorded on top of state `s0`. */
    method RecordWord(tid: nat, off: nat, words: seq<Word>, k: nat, ghost i: nat, ghost s0: State)
      requires Valid() && !closed && k < |words|
      requires TxnSpec.Valid(s0) && i == Find(s0.list, tid) && i < |s0.list|
      requires Abs() == AppendTo(s0, i, ShimBd(off, words[..k]))
      modifies this, list
      ensures list == old(list) && Valid() && trace == old(trace)
      ensures Abs() == AppendTo(s0, i, ShimBd(off, words[..k + 1]))
    {
      AppendOne(s0, tid, i, off, words, k);
      ghost var c := Io(Op.Write(off + 4 * k, words[k]));
      assert Step(Abs(), tid, c) == StepIo(Abs(), tid, c);
      var _ := Write32(tid, off + 4 * k, words[k]);
    }

    /** Recording a descriptor goes through `Write32`, word by word. */
    method RecordShimBd(tid: nat, ghost i: nat, off: nat, words: seq<Word>)
      requires Valid() && !closed && i == Find(Abs().list, tid) && i < |list|
      modifies this, list
      ensures list == old(list) && Shape()
      ensures trace == old(trace) && Abs() == AppendTo(old(Abs()), i, ShimBd(off, words))
    {
      ghost var s0 := Abs();
      AppendNothing(s0, i, off);
      for k := 0 to |words|
        invariant list == old(list) && Valid() && trace == old(trace)
        invariant Abs() == AppendTo(s0, i, ShimBd(off, words[..k]))
      {
        RecordWord(tid, off, words, k, i, s0);
      }
      assert words[..|words|] == words;
    }

    method ConfigShimBd(tid: nat, off: nat, words: seq<Word>) returns (rc: Rc)
      requires Valid() && !closed
      modifies this, list
      ensures list == old(list) && Took(tid, ShimBd(off, words), rc)
    {
      ghost var s0 := Abs();
      var inst, i, clear := Settle(tid);
      if clear {
        WriteShimBd(tid, off, words);
        CarriedOut(tid, ShimBd(off, words), i);
      } else {
        RecordShimBd(tid, i, off, words);
        Recorded(tid, ShimBd(off, words), i);
      }
      rc := OK;
    }
  }

  // ---------------------------------------------------------------- lemmas used above

  lemma {:induction false} FindIs(list: seq<Txn>, tid: nat, k: nat)
    requires k <= |list| && (forall j | 0 <= j < k :: list[j].tid != tid) && (k < |list| ==> list[k].tid == tid)
    ensures Find(list, tid) == k
  {
  }

  lemma ReplayNext(m: Mem, ops: seq<Op>, i: nat)
    requires i < |ops|
    ensures Replay(m, ops[..i + 1]) == Apply(Replay(m, ops[..i]), ops[i])
  {
    assert ops[..i + 1][..i] == ops[..i];
  }

  lemma ReplayNone(m: Mem, ops: seq<Op>, tid: nat)
    ensures Replay(m, ops[..0]) == m && Tag(tid, false, ops[..0]) == []
  {
  }

  lemma TagNext(tid: nat, fromCopy: bool, ops: seq<Op>, i: nat)
    requires i < |ops|
    ensures Tag(tid, fromCopy, ops[..i + 1]) == Tag(tid, fromCopy, ops[..i]) + [Effect(tid, fromCopy, ops[i])]
  {
  }

  lemma DecodeNext(cmds: seq<TxnCmd>, cmd: TxnCmd)
    ensures DecodeAll(cmds + [cmd]) == DecodeAll(cmds) + [Decode(cmd)]
  {
  }

  /** Copying one more command. */
  lemma {:induction false} CopyNext(heap: Heap, cmds: seq<Cmd>, next: nat, i: nat)
    requires Backed(heap, cmds) && i < |cmds| && forall p | p in heap :: p < next
    ensures var h, fresh0 := CopiedHeap(heap, cmds[..i], next), next + Blocks(cmds[..i]);
      if cmds[i].CBlockWrite? then
        && cmds[i].ptr in h && CopiedHeap(heap, cmds[..i + 1], next) == h[fresh0 := h[cmds[i].ptr]]
        && Renamed(cmds[..i + 1], next) == Renamed(cmds[..i], next) + [cmds[i].(ptr := fresh0)]
        && next + Blocks(cmds[..i + 1]) == fresh0 + 1
      else
        && CopiedHeap(heap, cmds[..i + 1], next) == h
        && Renamed(cmds[..i + 1], next) == Renamed(cmds[..i], next) + [cmds[i]]
        && next + Blocks(cmds[..i + 1]) == fresh0
  {
    assert cmds[..i + 1][..i] == cmds[..i];
  }

  lemma ReleaseOne(heap: Heap, c: Cmd)
    ensures Release(heap, [c]) == if c.CBlockWrite? then map p | p in heap && p != c.ptr :: heap[p] else heap
  {
    assert [c][..0] == [];
    assert forall p: nat :: Uses([c], p) == if c.CBlockWrite? && c.ptr == p then 1 else 0;
  }

  lemma UsesMono(cmds: seq<Cmd>, i: nat, p: nat)
    requires i <= |cmds|
    ensures Uses(cmds[..i], p) <= Uses(cmds, p)
  {
    UsesConcat(cmds[..i], cmds[i..], p);
    assert cmds == cmds[..i] + cmds[i..];
  }

  /** The next command still finds its payload, and releasing it extends the release. */
  lemma {:induction false} ReleaseNext(heap: Heap, cmds: seq<Cmd>, i: nat)
    requires Backed(heap, cmds) && i < |cmds| && forall p: nat :: Uses(cmds, p) <= 1
    ensures var h := Release(heap, cmds[..i]);
      && (cmds[i].CBlockWrite? ==> cmds[i].ptr in h && h[cmds[i].ptr] == heap[cmds[i].ptr])
      && Release(h, [cmds[i]]) == Release(heap, cmds[..i + 1])
  {
    var h, h' := Release(heap, cmds[..i]), Release(heap, cmds[..i + 1]);
    assert cmds[..i + 1] == cmds[..i] + [cmds[i]];
    forall p: nat
      ensures Uses(cmds[..i + 1], p) == Uses(cmds[..i], p) + Uses([cmds[i]], p)
      ensures Uses(cmds[..i + 1], p) <= 1
    {
      UsesConcat(cmds[..i], [cmds[i]], p);
      UsesMono(cmds, i + 1, p);
    }
    if cmds[i].CBlockWrite? {
      UsesHas([cmds[i]], 0);
    }
  }

  /** Neither recorded nor refused. */
  predicate GoesAhead(s: State, c: Call, i: nat)
    requires i <= |s.list| && (c.Io? || c.ShimBd?)
  {
    i < |s.list| ==>
      var route := RouteOf(c, s.list[i].autoFlush, s.list[i].cmds != []);
      route != Append && route != Reject
  }

  lemma IoPerforms(s: State, tid: nat, c: Call, i: nat, pre: Outcome)
    requires TxnSpec.Valid(s) && !s.closed && (c.Io? || c.ShimBd?) && i == Find(s.list, tid) && GoesAhead(s, c, i)
    requires pre == Flushed(s, tid, i)
    ensures var out := Step(s, tid, c);
      && TxnSpec.Valid(out.state)
      && out.state == pre.state.(regs := Replay(pre.state.regs, DirectOps(pre.state.regs, c)))
      && out.rc == OK && out.effects == pre.effects + Tag(tid, false, DirectOps(pre.state.regs, c))
  {
    hide Replay, Tag, ResolveAll, DirectOps, OldestOnly, OwnedOnce, Find, Backed, AllBacked, Buffers, Release;
    IoKeeps(s, tid, c);
    if i < |s.list| {
      BackedAt(s, i);
      if s.list[i].cmds == [] {
        FlushNothing(s, i);
      }
    }
  }

  lemma IoRecords(s: State, tid: nat, c: Call, i: nat)
    requires TxnSpec.Valid(s) && !s.closed && (c.Io? || c.ShimBd?) && i == Find(s.list, tid)
    requires i < |s.list| && RouteOf(c, s.list[i].autoFlush, s.list[i].cmds != []) == Append
    ensures Step(s, tid, c) == Outcome(AppendTo(s, i, c), OK, []) && TxnSpec.Valid(Step(s, tid, c).state)
  {
    IoKeeps(s, tid, c);
  }

  lemma UsedOnce(s: State, k: nat)
    requires TxnSpec.Valid(s) && k < |Buffers(s)|
    ensures forall p: nat :: Uses(Buffers(s)[k], p) <= 1
  {
    forall p: nat
      ensures Uses(Buffers(s)[k], p) <= 1
    {
      OwnersSplit(Buffers(s), k, p);
      assert Owners(Buffers(s), p) <= 1;
    }
  }

  lemma ListedOnce(s: State, i: nat)
    requires TxnSpec.Valid(s) && i < |s.list|
    ensures Backed(s.heap, s.list[i].cmds) && forall p: nat :: Uses(s.list[i].cmds, p) <= 1
  {
    BackedAt(s, i);
    UsedOnce(s, i);
    assert Buffers(s)[i] == s.list[i].cmds;
  }

  lemma CopyOnce(s: State, h: nat)
    requires TxnSpec.Valid(s) && h < |s.copies|
    ensures Backed(s.heap, CopyCmds(s.copies[h])) && forall p: nat :: Uses(CopyCmds(s.copies[h]), p) <= 1
  {
    BackedCopy(s, h);
    UsedOnce(s, |s.list| + h);
    assert Buffers(s)[|s.list| + h] == CopyCmds(s.copies[h]);
  }

  lemma ReleaseListNone(s: State)
    ensures ReleaseList(s.heap, s.list[..0]) == s.heap
  {
  }

  /** Releasing one more transaction of the list. */
  lemma ReleaseListNext(s: State, k: nat)
    requires TxnSpec.Valid(s) && k < |s.list|
    ensures var h := ReleaseList(s.heap, s.list[..k]);
      && Backed(h, s.list[k].cmds) && (forall p: nat :: Uses(s.list[k].cmds, p) <= 1)
      && Release(h, s.list[k].cmds) == ReleaseList(s.heap, s.list[..k + 1])
  {
    var bufs, h := Buffers(s), ReleaseList(s.heap, s.list[..k]);
    var mine := bufs[k];
    UsedOnce(s, k);
    assert ListBufs(s.list[..k]) == bufs[..k] && ListBufs(s.list[..k + 1]) == bufs[..k + 1];
    assert bufs[..k + 1][..k] == bufs[..k];
    assert Backed(s.heap, mine);
    forall i | 0 <= i < |mine| && mine[i].CBlockWrite?
      ensures mine[i].ptr in h
    {
      UsesHas(mine, i);
      OwnersSplit(bufs, k, mine[i].ptr);
      assert Owners(bufs, mine[i].ptr) <= 1;
    }
  }

  lemma FlushNothing(s: State, i: nat)
    requires TxnSpec.Valid(s) && i < |s.list| && s.list[i].cmds == [] && Backed(s.heap, s.list[i].cmds)
    ensures FlushAt(s, i) == s && ResolveAll(s.heap, s.list[i].cmds) == []
  {
  }

  lemma AppendNothing(s: State, i: nat, off: nat)
    requires i < |s.list|
    ensures forall words: seq<Word> | words == [] :: AppendTo(s, i, ShimBd(off, words)) == s
  {
    assert Buffered(ShimBd(off, []), s.next) == [];
    assert s.list[i].cmds + [] == s.list[i].cmds;
    assert s.list[i := s.list[i]] == s.list;
  }

  lemma AppendOne(s: State, tid: nat, i: nat, off: nat, words: seq<Word>, k: nat)
    requires TxnSpec.Valid(s) && i < |s.list| && i == Find(s.list, tid) && k < |words|
    requires TxnSpec.Valid(AppendTo(s, i, ShimBd(off, words[..k])))
    ensures StepIo(AppendTo(s, i, ShimBd(off, words[..k])), tid, Io(Op.Write(off + 4 * k, words[k])))
         == Outcome(AppendTo(s, i, ShimBd(off, words[..k + 1])), OK, [])
  {
    var now, c := AppendTo(s, i, ShimBd(off, words[..k])), Io(Op.Write(off + 4 * k, words[k]));
    FindIs(now.list, tid, i);
    var a, b := Buffered(ShimBd(off, words[..k]), s.next), Buffered(ShimBd(off, words[..k + 1]), s.next);
    assert b == a + Buffered(c, s.next);
    var cmds := s.list[i].cmds;
    assert (cmds + a) + Buffered(c, s.next) == cmds + b;
    assert AppendTo(now, i, c).list == AppendTo(s, i, ShimBd(off, words[..k + 1])).list;
  }
}
