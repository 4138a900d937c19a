/** The transaction layer as a state machine: one step per API call, any number of
    threads. Payloads of buffered block writes live in an explicit heap, so freeing
    a payload twice or using it after it was freed is a proof obligation. */
module TxnSpec {
  import opened Registers

  /** A buffered command. A block write refers to a heap payload. */
  datatype Cmd =
    | CWrite(off: nat, mask: Word, value: Word)
    | CBlockWrite(off: nat, ptr: nat, size: nat)
    | CBlockSet(off: nat, value: Word, size: nat)
    | CPoll(off: nat, mask: Word, value: Word)

  datatype Txn = Txn(tid: nat, autoFlush: bool, cmds: seq<Cmd>)

  /** An exported copy, until the user frees it. */
  datatype Copy = Live(txn: Txn) | Freed

  type Heap = map<nat, seq<Word>>

  datatype State = State(regs: Mem, heap: Heap, list: seq<Txn>, copies: seq<Copy>, next: nat, closed: bool)

  datatype Call =
    | Start(autoFlush: bool)
    | Submit
    | SubmitCopy(h: nat)
    | Export
    | FreeCopy(h: nat)
    | Clear
    | Cleanup
    | Io(op: Op)
    | ShimBd(off: nat, words: seq<Word>)

  datatype Rc = OK | ERR

  /** A backend operation performed while `tid` was in a call; `fromCopy` marks the
      operations of an exported copy. */
  datatype Effect = Effect(tid: nat, fromCopy: bool, op: Op)

  datatype Outcome = Outcome(state: State, rc: Rc, effects: seq<Effect>)

  // ---------------------------------------------------------------- payload ownership

  /** How many commands of a buffer refer to payload `p`. */
  function Uses(cmds: seq<Cmd>, p: nat): nat {
    if cmds == [] then 0
    else
      var last := cmds[|cmds| - 1];
      Uses(cmds[..|cmds| - 1], p) + if last.CBlockWrite? && last.ptr == p then 1 else 0
  }

  function Blocks(cmds: seq<Cmd>): nat {
    if cmds == [] then 0
    else Blocks(cmds[..|cmds| - 1]) + if cmds[|cmds| - 1].CBlockWrite? then 1 else 0
  }

  /** How many commands of a family of buffers refer to payload `p`. */
  function Owners(bufs: seq<seq<Cmd>>, p: nat): nat {
    if bufs == [] then 0 else Owners(bufs[..|bufs| - 1], p) + Uses(bufs[|bufs| - 1], p)
  }

  function ListBufs(list: seq<Txn>): (bufs: seq<seq<Cmd>>)
    ensures |bufs| == |list|
  {
    seq(|list|, i requires 0 <= i < |list| => list[i].cmds)
  }

  function CopyCmds(c: Copy): seq<Cmd> {
    if c.Live? then c.txn.cmds else []
  }

  /** All command buffers: those of the transaction list, then those of the copies. */
  function Buffers(s: State): (bufs: seq<seq<Cmd>>)
    ensures |bufs| == |s.list| + |s.copies|
  {
    ListBufs(s.list) + seq(|s.copies|, h requires 0 <= h < |s.copies| => CopyCmds(s.copies[h]))
  }

  function Release(heap: Heap, cmds: seq<Cmd>): Heap {
    map p | p in heap && Uses(cmds, p) == 0 :: heap[p]
  }

  /** The payload of every block write is live and has the recorded size. */
  ghost predicate Backed(heap: Heap, cmds: seq<Cmd>) {
    forall i | 0 <= i < |cmds| && cmds[i].CBlockWrite? ::
      cmds[i].ptr in heap && |heap[cmds[i].ptr]| == cmds[i].size
  }

  // ---------------------------------------------------------------- meaning of a buffer

  function Resolve(heap: Heap, c: Cmd): Op
    requires c.CBlockWrite? ==> c.ptr in heap
  {
    match c
    case CWrite(off, mask, value) => if mask == 0 then Write(off, value) else MaskWrite(off, mask, value)
    case CBlockWrite(off, ptr, size) => BlockWrite(off, heap[ptr])
    case CBlockSet(off, value, size) => BlockSet(off, value, size)
    case CPoll(off, mask, value) => MaskPoll(off, mask, value, 0)
  }

  function ResolveAll(heap: Heap, cmds: seq<Cmd>): (ops: seq<Op>)
    requires Backed(heap, cmds)
    ensures |ops| == |cmds|
  {
    seq(|cmds|, i requires 0 <= i < |cmds| => Resolve(heap, cmds[i]))
  }

  function Tag(tid: nat, fromCopy: bool, ops: seq<Op>): (effects: seq<Effect>)
    ensures |effects| == |ops|
  {
    seq(|ops|, i requires 0 <= i < |ops| => Effect(tid, fromCopy, ops[i]))
  }

  function OpsOf(effects: seq<Effect>): (ops: seq<Op>)
    ensures |ops| == |effects|
  {
    seq(|effects|, i requires 0 <= i < |effects| => effects[i].op)
  }

  // ---------------------------------------------------------------- state invariant

  /** Only the oldest transaction of a thread can hold commands. */
  ghost predicate OldestOnly(list: seq<Txn>) {
    forall i, j | 0 <= i < j < |list| && list[i].tid == list[j].tid :: list[j].cmds == []
  }

  ghost predicate AllBacked(heap: Heap, bufs: seq<seq<Cmd>>) {
    forall k | 0 <= k < |bufs| :: Backed(heap, bufs[k])
  }

  /** Every live payload has exactly one owner and every reference is to a live payload. */
  ghost predicate OwnedOnce(heap: Heap, bufs: seq<seq<Cmd>>) {
    forall p: nat :: Owners(bufs, p) == if p in heap then 1 else 0
  }

  ghost predicate Valid(s: State) {
    && OldestOnly(s.list)
    && AllBacked(s.heap, Buffers(s))
    && OwnedOnce(s.heap, Buffers(s))
    && (forall p | p in s.heap :: p < s.next)
  }

  // ---------------------------------------------------------------- steps

  /** Index of the thread's oldest transaction, or |list|. */
  function Find(list: seq<Txn>, tid: nat): (i: nat)
    ensures i <= |list|
    ensures i < |list| ==> list[i].tid == tid
    ensures forall j | 0 <= j < i :: list[j].tid != tid
  {
    if list == [] then 0 else if list[0].tid == tid then 0 else Find(list[1..], tid) + 1
  }

  datatype Route = Append | Flush | Direct | Reject

  /** What an entry point does with a transaction found for the calling thread. */
  function RouteOf(c: Call, autoFlush: bool, pending: bool): Route
    requires c.Io? || c.ShimBd?
  {
    if c.Io? && (c.op.Write? || c.op.MaskWrite?) then Append
    else if c.Io? && (c.op.BlockWrite? || c.op.BlockSet?) then (if autoFlush then Flush else Append)
    else if !pending then Direct
    else if autoFlush then Flush
    else if c.ShimBd? || c.op.MaskPoll? then Append
    else Reject
  }

  function ShimWrites(off: nat, words: seq<Word>): (ops: seq<Op>)
    ensures |ops| == |words|
  {
    seq(|words|, i requires 0 <= i < |words| => Write(off + 4 * i, words[i]))
  }

  /** The backend operations of an I/O call carried out at once on registers `m`. */
  function DirectOps(m: Mem, c: Call): seq<Op>
    requires c.Io? || c.ShimBd?
  {
    if c.ShimBd? then ShimWrites(c.off, c.words)
    else if c.op.Read32? then [Read32(c.op.off, Fetch(m, c.op.off))]
    else [c.op]
  }

  /** The commands an I/O call appends; a block write copies its data to payload `ptr`. */
  function Buffered(c: Call, ptr: nat): seq<Cmd>
    requires c.Io? || c.ShimBd?
  {
    if c.ShimBd? then seq(|c.words|, i requires 0 <= i < |c.words| => CWrite(c.off + 4 * i, 0, c.words[i]))
    else match c.op
      case Write(off, value) => [CWrite(off, 0, value)]
      case MaskWrite(off, mask, value) => [CWrite(off, mask, value)]
      case BlockWrite(off, data) => [CBlockWrite(off, ptr, |data|)]
      case BlockSet(off, value, size) => [CBlockSet(off, value, size)]
      case MaskPoll(off, mask, value, _) => [CPoll(off, mask, value)]
      case _ => []
  }

  function AppendTo(s: State, i: nat, c: Call): State
    requires i < |s.list| && (c.Io? || c.ShimBd?)
  {
    var t := s.list[i];
    var s' := s.(list := s.list[i := t.(cmds := t.cmds + Buffered(c, s.next))]);
    if c.Io? && c.op.BlockWrite?
    then s'.(heap := s.heap[s.next := c.op.data], next := s.next + 1)
    else s'
  }

  /** Execute and drop the commands of transaction `i`, releasing their payloads. */
  function FlushAt(s: State, i: nat): State
    requires i < |s.list| && Backed(s.heap, s.list[i].cmds)
  {
    var t := s.list[i];
    s.(regs := Replay(s.regs, ResolveAll(s.heap, t.cmds)),
       heap := Release(s.heap, t.cmds),
       list := s.list[i := t.(cmds := [])])
  }

  function RemoveAt(list: seq<Txn>, i: nat): seq<Txn>
    requires i < |list|
  {
    list[..i] + list[i + 1..]
  }

  function StepDirect(s: State, tid: nat, c: Call): Outcome
    requires c.Io? || c.ShimBd?
  {
    var ops := DirectOps(s.regs, c);
    Outcome(s.(regs := Replay(s.regs, ops)), OK, Tag(tid, false, ops))
  }

  lemma BackedAt(s: State, i: nat)
    requires AllBacked(s.heap, Buffers(s)) && i < |s.list|
    ensures Backed(s.heap, s.list[i].cmds)
  {
    assert Buffers(s)[i] == s.list[i].cmds;
  }

  lemma BackedCopy(s: State, h: nat)
    requires AllBacked(s.heap, Buffers(s)) && h < |s.copies|
    ensures Backed(s.heap, CopyCmds(s.copies[h]))
  {
    assert Buffers(s)[|s.list| + h] == CopyCmds(s.copies[h]);
  }

  function StepIo(s: State, tid: nat, c: Call): Outcome
    requires Valid(s) && (c.Io? || c.ShimBd?)
  {
    var i := Find(s.list, tid);
    if i == |s.list| then StepDirect(s, tid, c)
    else
      var t := s.list[i];
      BackedAt(s, i);
      match RouteOf(c, t.autoFlush, t.cmds != [])
      case Append => Outcome(AppendTo(s, i, c), OK, [])
      case Direct => StepDirect(s, tid, c)
      case Reject => Outcome(s, ERR, [])
      case Flush =>
        var after := StepDirect(FlushAt(s, i), tid, c);
        after.(effects := Tag(tid, false, ResolveAll(s.heap, t.cmds)) + after.effects)
  }

  function StepSubmit(s: State, tid: nat): Outcome
    requires Valid(s)
  {
    var i := Find(s.list, tid);
    if i == |s.list| then Outcome(s, ERR, [])
    else
      BackedAt(s, i);
      var s' := FlushAt(s, i);
      Outcome(s'.(list := RemoveAt(s'.list, i)), OK, Tag(tid, false, ResolveAll(s.heap, s.list[i].cmds)))
  }

  function StepSubmitCopy(s: State, tid: nat, h: nat): Outcome
    requires Valid(s)
  {
    if h >= |s.copies| || s.copies[h].Freed? then Outcome(s, ERR, [])
    else
      BackedCopy(s, h);
      var ops := ResolveAll(s.heap, s.copies[h].txn.cmds);
      Outcome(s.(regs := Replay(s.regs, ops)), OK, Tag(tid, true, ops))
  }

  /** Commands of a deep copy: block-write payloads are renamed to next, next + 1, ... */
  function Renamed(cmds: seq<Cmd>, next: nat): (r: seq<Cmd>)
    ensures |r| == |cmds|
  {
    if cmds == [] then []
    else
      var n := |cmds| - 1;
      var front := Renamed(cmds[..n], next);
      front + [if cmds[n].CBlockWrite? then cmds[n].(ptr := next + Blocks(cmds[..n])) else cmds[n]]
  }

  /** The heap after allocating and filling the payloads of that copy. */
  function CopiedHeap(heap: Heap, cmds: seq<Cmd>, next: nat): (r: Heap)
    requires Backed(heap, cmds)
    requires forall p | p in heap :: p < next
    ensures forall p | p in heap :: p in r && r[p] == heap[p]
  {
    if cmds == [] then heap
    else
      var n := |cmds| - 1;
      var r := CopiedHeap(heap, cmds[..n], next);
      if cmds[n].CBlockWrite? then r[next + Blocks(cmds[..n]) := heap[cmds[n].ptr]] else r
  }

  function StepExport(s: State, tid: nat): Outcome
    requires Valid(s)
  {
    var i := Find(s.list, tid);
    if i == |s.list| then Outcome(s, ERR, [])
    else
      var t := s.list[i];
      BackedAt(s, i);
      Outcome(s.(heap := CopiedHeap(s.heap, t.cmds, s.next),
                 next := s.next + Blocks(t.cmds),
                 copies := s.copies + [Live(t.(cmds := Renamed(t.cmds, s.next)))]), OK, [])
  }

  function StepFreeCopy(s: State, h: nat): Outcome
    requires Valid(s)
  {
    if h >= |s.copies| || s.copies[h].Freed? then Outcome(s, ERR, [])
    else Outcome(s.(heap := Release(s.heap, s.copies[h].txn.cmds), copies := s.copies[h := Freed]), OK, [])
  }

  function StepClear(s: State, tid: nat): Outcome
    requires Valid(s)
  {
    var i := Find(s.list, tid);
    if i == |s.list| then Outcome(s, ERR, [])
    else Outcome(s.(heap := Release(s.heap, s.list[i].cmds), list := RemoveAt(s.list, i)), OK, [])
  }

  function ReleaseList(heap: Heap, list: seq<Txn>): Heap {
    map p | p in heap && Owners(ListBufs(list), p) == 0 :: heap[p]
  }

  function StepCleanup(s: State): Outcome
    requires Valid(s)
  {
    Outcome(s.(heap := ReleaseList(s.heap, s.list), list := [], closed := true), OK, [])
  }

  function Step(s: State, tid: nat, c: Call): Outcome
    requires Valid(s)
  {
    if s.closed && !c.FreeCopy? then Outcome(s, ERR, [])
    else match c
      case Start(autoFlush) => Outcome(s.(list := s.list + [Txn(tid, autoFlush, [])]), OK, [])
      case Submit => StepSubmit(s, tid)
      case SubmitCopy(h) => StepSubmitCopy(s, tid, h)
      case Export => StepExport(s, tid)
      case FreeCopy(h) => StepFreeCopy(s, h)
      case Clear => StepClear(s, tid)
      case Cleanup => StepCleanup(s)
      case Io(_) => StepIo(s, tid, c)
      case ShimBd(_, _) => StepIo(s, tid, c)
  }
}
