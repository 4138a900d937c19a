/** Runs of the transaction layer: any interleaving of calls by any number of threads.
    Ownership of payloads over whole runs. */
module TxnRun {
  import opened Registers
  import opened TxnSpec
  import opened TxnOwnership

  /** A call together with the thread that makes it. */
  type Calls = seq<(nat, Call)>

  ghost function Run(s: State, calls: Calls): (s': State)
    requires Valid(s)
    ensures Valid(s')
  {
    if calls == [] then s
    else
      var (tid, c) := calls[|calls| - 1];
      var before := Run(s, calls[..|calls| - 1]);
      StepKeeps(before, tid, c);
      Step(before, tid, c).state
  }

  ghost function LastOutcome(s: State, calls: Calls): Outcome
    requires Valid(s) && calls != []
  {
    var (tid, c) := calls[|calls| - 1];
    Step(Run(s, calls[..|calls| - 1]), tid, c)
  }

  /** All backend operations of a run, in the order the backend saw them. */
  ghost function Trace(s: State, calls: Calls): seq<Effect>
    requires Valid(s)
  {
    if calls == [] then [] else Trace(s, calls[..|calls| - 1]) + LastOutcome(s, calls).effects
  }

  // ---------------------------------------------------------------- payload lifetimes

  /** Pointers are never handed out twice, and payload contents never change. */
  lemma StepHeap(s: State, tid: nat, c: Call, p: nat)
    requires Valid(s)
    ensures var s' := Step(s, tid, c).state;
      && s.next <= s'.next
      && (p in s'.heap ==> p in s.heap || s.next <= p < s'.next)
      && (p in s.heap && p in s'.heap ==> s'.heap[p] == s.heap[p])
      && (s.next <= p < s'.next ==> p in s'.heap)
  {
    StepKeeps(s, tid, c);
    if c.Export? {
      var i := Find(s.list, tid);
      if i < |s.list| {
        BackedAt(s, i);
        CopiedKeys(s.heap, s.list[i].cmds, s.next, p);
      }
    }
  }

  /** How many steps of a run release payload `p`. */
  ghost function Releases(s: State, calls: Calls, p: nat): nat
    requires Valid(s)
  {
    if calls == [] then 0
    else
      var front := calls[..|calls| - 1];
      Releases(s, front, p) + if p in Run(s, front).heap && p !in Run(s, calls).heap then 1 else 0
  }

  /** Over any run a payload is released at most once, and it has been released exactly
      when it was allocated and is no longer live. */
  lemma {:induction false} ReleasedExactlyOnce(s: State, calls: Calls, p: nat)
    requires Valid(s)
    ensures s.next <= Run(s, calls).next
    ensures var handedOut := p in s.heap || s.next <= p < Run(s, calls).next;
      && (p in Run(s, calls).heap ==> handedOut)
      && Releases(s, calls, p) == if handedOut && p !in Run(s, calls).heap then 1 else 0
  {
    if calls != [] {
      var (tid, c) := calls[|calls| - 1];
      ReleasedExactlyOnce(s, calls[..|calls| - 1], p);
      StepHeap(Run(s, calls[..|calls| - 1]), tid, c, p);
    }
  }

  lemma {:induction false} NoOwners(bufs: seq<seq<Cmd>>, p: nat)
    requires forall k | 0 <= k < |bufs| :: bufs[k] == []
    ensures Owners(bufs, p) == 0
  {
    if bufs != [] {
      NoOwners(bufs[..|bufs| - 1], p);
    }
  }

  /** No transaction holds commands and every copy was freed. */
  ghost predicate Drained(s: State) {
    && (forall i | 0 <= i < |s.list| :: s.list[i].cmds == [])
    && (forall h | 0 <= h < |s.copies| :: s.copies[h].Freed?)
  }

  /** Nothing leaks: once no transaction holds commands and every copy was freed, no
      payload is left, whatever the run was. */
  lemma NothingLeaks(s: State, calls: Calls)
    requires Valid(s)
    requires Drained(Run(s, calls))
    ensures Run(s, calls).heap == map[]
  {
    var s' := Run(s, calls);
    var bufs := Buffers(s');
    forall k | 0 <= k < |bufs|
      ensures bufs[k] == []
    {
      if k < |s'.list| {
        assert s'.list[k].cmds == [];
      } else {
        assert s'.copies[k - |s'.list|].Freed?;
      }
    }
    forall p: nat
      ensures p !in s'.heap
    {
      NoOwners(bufs, p);
      assert Owners(bufs, p) == if p in s'.heap then 1 else 0;
    }
  }

  /** No buffered block write, original or copy, ever refers to a released payload. */
  lemma NeverDangling(s: State, calls: Calls, k: nat, i: nat)
    requires Valid(s)
    requires var bufs := Buffers(Run(s, calls)); k < |bufs| && i < |bufs[k]| && bufs[k][i].CBlockWrite?
    ensures var c := Buffers(Run(s, calls))[k][i]; Releases(s, calls, c.ptr) == 0
  {
    var bufs := Buffers(Run(s, calls));
    assert Backed(Run(s, calls).heap, bufs[k]);
    ReleasedExactlyOnce(s, calls, bufs[k][i].ptr);
  }
}
