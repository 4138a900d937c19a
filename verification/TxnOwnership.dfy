/** Every step keeps the ownership invariant: each live payload belongs to exactly one
    buffered command, no command refers to a released payload, and a released payload
    never comes back. */
module TxnOwnership {
  import opened Registers
  import opened TxnSpec

  // ---------------------------------------------------------------- counting owners

  lemma {:induction false} UsesConcat(a: seq<Cmd>, b: seq<Cmd>, p: nat)
    ensures Uses(a + b, p) == Uses(a, p) + Uses(b, p)
    decreases |b|
  {
    if b == [] {
      assert a + b == a;
    } else {
      UsesConcat(a, b[..|b| - 1], p);
      assert (a + b)[..|a + b| - 1] == a + b[..|b| - 1];
    }
  }

  lemma {:induction false} UsesHas(cmds: seq<Cmd>, i: nat)
    requires i < |cmds| && cmds[i].CBlockWrite?
    ensures Uses(cmds, cmds[i].ptr) > 0
  {
    if i < |cmds| - 1 {
      UsesHas(cmds[..|cmds| - 1], i);
    }
  }

  lemma {:induction false} UsesNone(cmds: seq<Cmd>, p: nat)
    requires forall i | 0 <= i < |cmds| :: cmds[i].CBlockWrite? ==> cmds[i].ptr != p
    ensures Uses(cmds, p) == 0
  {
    if cmds != [] {
      UsesNone(cmds[..|cmds| - 1], p);
    }
  }

  lemma {:induction false} OwnersConcat(a: seq<seq<Cmd>>, b: seq<seq<Cmd>>, p: nat)
    ensures Owners(a + b, p) == Owners(a, p) + Owners(b, p)
    decreases |b|
  {
    if b == [] {
      assert a + b == a;
    } else {
      OwnersConcat(a, b[..|b| - 1], p);
      assert (a + b)[..|a + b| - 1] == a + b[..|b| - 1];
    }
  }

  lemma OwnersOne(cmds: seq<Cmd>, p: nat)
    ensures Owners([cmds], p) == Uses(cmds, p)
  {
  }

  /** One buffer singled out of the rest. */
  lemma OwnersSplit(bufs: seq<seq<Cmd>>, k: nat, p: nat)
    requires k < |bufs|
    ensures Owners(bufs, p) == Owners(bufs[..k], p) + Uses(bufs[k], p) + Owners(bufs[k + 1..], p)
  {
    assert bufs == bufs[..k] + ([bufs[k]] + bufs[k + 1..]);
    OwnersConcat(bufs[..k], [bufs[k]] + bufs[k + 1..], p);
    OwnersConcat([bufs[k]], bufs[k + 1..], p);
    OwnersOne(bufs[k], p);
  }

  lemma OwnersUpdate(bufs: seq<seq<Cmd>>, k: nat, cmds: seq<Cmd>, p: nat)
    requires k < |bufs|
    ensures Owners(bufs[k := cmds], p) == Owners(bufs, p) - Uses(bufs[k], p) + Uses(cmds, p)
  {
    var after := bufs[k := cmds];
    OwnersSplit(bufs, k, p);
    OwnersSplit(after, k, p);
    assert after[..k] == bufs[..k] && after[k + 1..] == bufs[k + 1..];
  }

  /** Two different buffers never share a payload. */
  lemma Disjoint(heap: Heap, bufs: seq<seq<Cmd>>, j: nat, k: nat, p: nat)
    requires OwnedOnce(heap, bufs) && j < |bufs| && k < |bufs| && j != k
    ensures Uses(bufs[j], p) + Uses(bufs[k], p) <= 1
  {
    OwnersUpdate(bufs, j, [], p);
    OwnersSplit(bufs[j := []], k, p);
    assert Owners(bufs, p) <= 1;
  }

  // ---------------------------------------------------------------- releasing a buffer

  /** Emptying buffer `k` and releasing its payloads keeps ownership of all others. */
  lemma ReleaseKeeps(heap: Heap, bufs: seq<seq<Cmd>>, k: nat)
    requires AllBacked(heap, bufs) && OwnedOnce(heap, bufs) && k < |bufs|
    ensures AllBacked(Release(heap, bufs[k]), bufs[k := []])
    ensures OwnedOnce(Release(heap, bufs[k]), bufs[k := []])
  {
    var heap' := Release(heap, bufs[k]);
    forall p: nat
      ensures Owners(bufs[k := []], p) == if p in heap' then 1 else 0
    {
      OwnersSplit(bufs, k, p);
      OwnersUpdate(bufs, k, [], p);
      assert Owners(bufs, p) == if p in heap then 1 else 0;
    }
    forall j | 0 <= j < |bufs| && j != k
      ensures Backed(heap', bufs[j])
    {
      forall i | 0 <= i < |bufs[j]| && bufs[j][i].CBlockWrite?
        ensures bufs[j][i].ptr in heap'
      {
        UsesHas(bufs[j], i);
        Disjoint(heap, bufs, j, k, bufs[j][i].ptr);
      }
    }
  }

  /** An empty buffer can be dropped. */
  lemma DropEmpty(heap: Heap, bufs: seq<seq<Cmd>>, k: nat)
    requires AllBacked(heap, bufs) && OwnedOnce(heap, bufs) && k < |bufs| && bufs[k] == []
    ensures AllBacked(heap, bufs[..k] + bufs[k + 1..])
    ensures OwnedOnce(heap, bufs[..k] + bufs[k + 1..])
  {
    forall p: nat
      ensures Owners(bufs[..k] + bufs[k + 1..], p) == if p in heap then 1 else 0
    {
      OwnersSplit(bufs, k, p);
      OwnersConcat(bufs[..k], bufs[k + 1..], p);
      assert Owners(bufs, p) == if p in heap then 1 else 0;
    }
  }

  // ---------------------------------------------------------------- deep copies

  /** A copy owns exactly the payloads next, next + 1, ..., one per block write. */
  lemma {:induction false} RenamedUses(cmds: seq<Cmd>, next: nat, p: nat)
    ensures Uses(Renamed(cmds, next), p) == if next <= p < next + Blocks(cmds) then 1 else 0
  {
    if cmds != [] {
      var n := |cmds| - 1;
      RenamedUses(cmds[..n], next, p);
      assert Renamed(cmds, next)[..n] == Renamed(cmds[..n], next);
    }
  }

  lemma {:induction false} CopiedKeys(heap: Heap, cmds: seq<Cmd>, next: nat, p: nat)
    requires Backed(heap, cmds)
    requires forall q | q in heap :: q < next
    ensures p in CopiedHeap(heap, cmds, next) <==> p in heap || next <= p < next + Blocks(cmds)
  {
    if cmds != [] {
      CopiedKeys(heap, cmds[..|cmds| - 1], next, p);
    }
  }

  /** The copy means what the original means, command by command. */
  lemma {:induction false} CopyMeans(heap: Heap, cmds: seq<Cmd>, next: nat)
    requires Backed(heap, cmds)
    requires forall p | p in heap :: p < next
    ensures Backed(CopiedHeap(heap, cmds, next), Renamed(cmds, next))
    ensures ResolveAll(CopiedHeap(heap, cmds, next), Renamed(cmds, next)) == ResolveAll(heap, cmds)
  {
    if cmds != [] {
      var n := |cmds| - 1;
      var front, r := Renamed(cmds[..n], next), Renamed(cmds, next);
      var h0, h1 := CopiedHeap(heap, cmds[..n], next), CopiedHeap(heap, cmds, next);
      CopyMeans(heap, cmds[..n], next);
      CopiedKeys(heap, cmds[..n], next, next + Blocks(cmds[..n]));
      assert r[..n] == front;
      forall i | 0 <= i < |cmds|
        ensures r[i].CBlockWrite? ==> r[i].ptr in h1 && |h1[r[i].ptr]| == r[i].size
        ensures Resolve(h1, r[i]) == Resolve(heap, cmds[i])
      {
        if i < n {
          assert r[i] == front[i];
          assert ResolveAll(h0, front)[i] == ResolveAll(heap, cmds[..n])[i];
        }
      }
    }
  }

  // ---------------------------------------------------------------- steps keep Valid

  predicate IsBlock(c: Call) {
    c.Io? && c.op.BlockWrite?
  }

  lemma BufferedUses(c: Call, ptr: nat, p: nat)
    requires c.Io? || c.ShimBd?
    ensures Uses(Buffered(c, ptr), p) == if IsBlock(c) && p == ptr then 1 else 0
  {
    var extra := Buffered(c, ptr);
    if IsBlock(c) {
      assert extra[..0] == [];
    } else {
      UsesNone(extra, p);
    }
  }

  lemma AppendOwns(heap: Heap, bufs: seq<seq<Cmd>>, i: nat, c: Call, ptr: nat, p: nat)
    requires OwnedOnce(heap, bufs) && i < |bufs| && (c.Io? || c.ShimBd?)
    ensures Owners(bufs[i := bufs[i] + Buffered(c, ptr)], p)
         == (if p in heap then 1 else 0) + (if IsBlock(c) && p == ptr then 1 else 0)
  {
    OwnersUpdate(bufs, i, bufs[i] + Buffered(c, ptr), p);
    UsesConcat(bufs[i], Buffered(c, ptr), p);
    BufferedUses(c, ptr, p);
    assert Owners(bufs, p) == if p in heap then 1 else 0;
  }

  lemma AppendBacked(heap: Heap, heap': Heap, cmds: seq<Cmd>, c: Call, ptr: nat)
    requires Backed(heap, cmds) && (c.Io? || c.ShimBd?)
    requires heap' == if IsBlock(c) then heap[ptr := c.op.data] else heap
    requires ptr !in heap
    ensures Backed(heap', cmds) && Backed(heap', cmds + Buffered(c, ptr))
  {
  }

  lemma AppendKeeps(s: State, tid: nat, c: Call)
    requires Valid(s) && (c.Io? || c.ShimBd?) && Find(s.list, tid) < |s.list|
    ensures Valid(AppendTo(s, Find(s.list, tid), c))
  {
    hide Owners, Uses, Backed, Buffered;
    var i, bufs := Find(s.list, tid), Buffers(s);
    var s' := AppendTo(s, i, c);
    var bufs' := bufs[i := bufs[i] + Buffered(c, s.next)];
    assert Buffers(s') == bufs';
    forall p: nat
      ensures Owners(bufs', p) == if p in s'.heap then 1 else 0
    {
      AppendOwns(s.heap, bufs, i, c, s.next, p);
    }
    forall k | 0 <= k < |bufs|
      ensures Backed(s'.heap, bufs'[k])
    {
      AppendBacked(s.heap, s'.heap, bufs[k], c, s.next);
    }
    assert OldestOnly(s'.list);
  }

  lemma FlushKeeps(s: State, i: nat)
    requires Valid(s) && i < |s.list|
    requires Backed(s.heap, s.list[i].cmds)
    ensures Valid(FlushAt(s, i)) && FlushAt(s, i).heap.Keys <= s.heap.Keys
  {
    ReleaseKeeps(s.heap, Buffers(s), i);
    assert Buffers(FlushAt(s, i)) == Buffers(s)[i := []];
  }

  lemma RemoveKeeps(s: State, i: nat)
    requires Valid(s) && i < |s.list| && s.list[i].cmds == []
    ensures Valid(s.(list := RemoveAt(s.list, i)))
  {
    var s' := s.(list := RemoveAt(s.list, i));
    var bufs := Buffers(s);
    DropEmpty(s.heap, bufs, i);
    assert Buffers(s') == bufs[..i] + bufs[i + 1..];
    forall j, k | 0 <= j < k < |s'.list| && s'.list[j].tid == s'.list[k].tid
      ensures s'.list[k].cmds == []
    {
      var j0, k0 := if j < i then j else j + 1, if k < i then k else k + 1;
      assert s'.list[j] == s.list[j0] && s'.list[k] == s.list[k0];
    }
  }

  lemma DirectKeeps(s: State, tid: nat, c: Call)
    requires Valid(s) && (c.Io? || c.ShimBd?)
    ensures Valid(StepDirect(s, tid, c).state)
  {
  }

  lemma IoKeeps(s: State, tid: nat, c: Call)
    requires Valid(s) && (c.Io? || c.ShimBd?)
    ensures Valid(StepIo(s, tid, c).state)
  {
    var i := Find(s.list, tid);
    DirectKeeps(s, tid, c);
    if i < |s.list| {
      BackedAt(s, i);
      AppendKeeps(s, tid, c);
      FlushKeeps(s, i);
      DirectKeeps(FlushAt(s, i), tid, c);
    }
  }

  /** Submit and clear leave the same ownership behind. */
  lemma SubmitKeeps(s: State, tid: nat)
    requires Valid(s)
    ensures Valid(StepSubmit(s, tid).state) && Valid(StepClear(s, tid).state)
  {
    var i := Find(s.list, tid);
    if i < |s.list| {
      BackedAt(s, i);
      FlushKeeps(s, i);
      var f := FlushAt(s, i);
      RemoveKeeps(f, i);
      assert RemoveAt(f.list, i) == RemoveAt(s.list, i);
      assert Buffers(StepClear(s, tid).state) == Buffers(StepSubmit(s, tid).state);
    }
  }

  lemma BackedGrows(heap: Heap, heap': Heap, cmds: seq<Cmd>)
    requires Backed(heap, cmds) && forall p | p in heap :: p in heap' && heap'[p] == heap[p]
    ensures Backed(heap', cmds)
  {
  }

  lemma ExportKeeps(s: State, tid: nat)
    requires Valid(s)
    ensures Valid(StepExport(s, tid).state)
  {
    hide Owners, Uses, Backed, Renamed, CopiedHeap, Blocks, ResolveAll;
    var i := Find(s.list, tid);
    if i < |s.list| {
      var t, s' := s.list[i], StepExport(s, tid).state;
      BackedAt(s, i);
      CopyMeans(s.heap, t.cmds, s.next);
      var r := Renamed(t.cmds, s.next);
      assert Buffers(s') == Buffers(s) + [r];
      forall p: nat
        ensures Owners(Buffers(s) + [r], p) == if p in s'.heap then 1 else 0
        ensures p in s'.heap ==> p < s'.next
      {
        CopiedKeys(s.heap, t.cmds, s.next, p);
        RenamedUses(t.cmds, s.next, p);
        OwnersConcat(Buffers(s), [r], p);
        OwnersOne(r, p);
        assert Owners(Buffers(s), p) == if p in s.heap then 1 else 0;
      }
      forall k | 0 <= k < |s.list| + |s.copies|
        ensures Backed(s'.heap, Buffers(s)[k])
      {
        BackedGrows(s.heap, s'.heap, Buffers(s)[k]);
      }
    }
  }

  lemma FreeKeeps(s: State, h: nat)
    requires Valid(s)
    ensures Valid(StepFreeCopy(s, h).state)
  {
    if h < |s.copies| && s.copies[h].Live? {
      ReleaseKeeps(s.heap, Buffers(s), |s.list| + h);
      assert Buffers(StepFreeCopy(s, h).state) == Buffers(s)[|s.list| + h := []];
    }
  }

  lemma CleanupKeeps(s: State)
    requires Valid(s)
    ensures Valid(StepCleanup(s).state)
  {
    var mine, rest := ListBufs(s.list), Buffers(s)[|s.list|..];
    assert Buffers(s) == mine + rest && Buffers(StepCleanup(s).state) == rest;
    OtherHalf(s.heap, s.list, rest);
  }

  /** Releasing the listed transactions leaves the payloads of all other buffers. */
  lemma OtherHalf(heap: Heap, list: seq<Txn>, rest: seq<seq<Cmd>>)
    requires AllBacked(heap, ListBufs(list) + rest) && OwnedOnce(heap, ListBufs(list) + rest)
    ensures AllBacked(ReleaseList(heap, list), rest) && OwnedOnce(ReleaseList(heap, list), rest)
  {
    var mine := ListBufs(list);
    forall p: nat
      ensures Owners(mine, p) + Owners(rest, p) == if p in heap then 1 else 0
    {
      OwnersConcat(mine, rest, p);
    }
    forall j, i | 0 <= j < |rest| && 0 <= i < |rest[j]| && rest[j][i].CBlockWrite?
      ensures rest[j][i].ptr in ReleaseList(heap, list) && |heap[rest[j][i].ptr]| == rest[j][i].size
    {
      assert rest[j] == (mine + rest)[|mine| + j];
      Owned(rest, j, i);
    }
  }

  lemma Owned(bufs: seq<seq<Cmd>>, j: nat, i: nat)
    requires j < |bufs| && i < |bufs[j]| && bufs[j][i].CBlockWrite?
    ensures Owners(bufs, bufs[j][i].ptr) > 0
  {
    UsesHas(bufs[j], i);
    OwnersSplit(bufs, j, bufs[j][i].ptr);
  }

  lemma StartKeeps(s: State, tid: nat, auto: bool)
    requires Valid(s)
    ensures Valid(s.(list := s.list + [Txn(tid, auto, [])]))
  {
    hide Owners, Uses;
    var s' := s.(list := s.list + [Txn(tid, auto, [])]);
    var a, b := ListBufs(s.list), Buffers(s)[|s.list|..];
    assert Buffers(s) == a + b && Buffers(s') == a + ([[]] + b);
    forall p: nat
      ensures Owners(Buffers(s'), p) == if p in s.heap then 1 else 0
    {
      OwnersConcat(a, b, p);
      OwnersConcat(a, [[]] + b, p);
      OwnersConcat([[]], b, p);
      OwnersOne([], p);
      UsesNone([], p);
      assert Owners(Buffers(s), p) == if p in s.heap then 1 else 0;
    }
    forall k | 0 <= k < |s'.list| + |s'.copies|
      ensures Backed(s.heap, Buffers(s')[k])
    {
      assert k > |s.list| ==> Buffers(s')[k] == Buffers(s)[k - 1];
    }
  }

  /** Every API call, by any thread, keeps the invariant. */
  lemma StepKeeps(s: State, tid: nat, c: Call)
    requires Valid(s)
    ensures Valid(Step(s, tid, c).state)
  {
    match c
    case Start(auto) => StartKeeps(s, tid, auto);
    case Submit => SubmitKeeps(s, tid);
    case SubmitCopy(h) =>
      assert Buffers(StepSubmitCopy(s, tid, h).state) == Buffers(s);
    case Export => ExportKeeps(s, tid);
    case FreeCopy(h) => FreeKeeps(s, h);
    case Clear => SubmitKeeps(s, tid);
    case Cleanup => CleanupKeeps(s);
    case Io(_) => IoKeeps(s, tid, c);
    case ShimBd(_, _) => IoKeeps(s, tid, c);
  }
}
