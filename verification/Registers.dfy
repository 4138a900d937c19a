/** The abstract register memory behind the I/O backend, and the operations the
    driver performs on it. A register that was never written reads as 0. */
module Registers {

  type Word = bv32
  type Mem = map<nat, Word>

  /** One operation as the backend sees it. `Read32` carries the value it returned. */
  datatype Op =
    | Write(off: nat, value: Word)
    | MaskWrite(off: nat, mask: Word, value: Word)
    | BlockWrite(off: nat, data: seq<Word>)
    | BlockSet(off: nat, value: Word, size: nat)
    | MaskPoll(off: nat, mask: Word, value: Word, timeout: nat)
    | Read32(off: nat, value: Word)
    | Command(code: nat)

  function Fetch(m: Mem, off: nat): Word {
    if off in m then m[off] else 0
  }

  function Masked(was: Word, mask: Word, value: Word): Word {
    (was & !mask) | value
  }

  function StoreBlock(m: Mem, off: nat, data: seq<Word>): Mem
    decreases |data|
  {
    if data == [] then m else StoreBlock(m[off := data[0]], off + 4, data[1..])
  }

  function Repeat(value: Word, size: nat): (data: seq<Word>)
    ensures |data| == size && forall i | 0 <= i < size :: data[i] == value
  {
    seq(size, _ => value)
  }

  /** The register memory after a successful operation. Polls, reads and array
      commands leave the registers alone. */
  function Apply(m: Mem, op: Op): Mem {
    match op
    case Write(off, value) => m[off := value]
    case MaskWrite(off, mask, value) => m[off := Masked(Fetch(m, off), mask, value)]
    case BlockWrite(off, data) => StoreBlock(m, off, data)
    case BlockSet(off, value, size) => StoreBlock(m, off, Repeat(value, size))
    case MaskPoll(_, _, _, _) => m
    case Read32(_, _) => m
    case Command(_) => m
  }

  // ---------------------------------------------------------------- what operations leave behind

  /** A write leaves its value in one register. */
  lemma WriteAt(m: Mem, off: nat, value: Word, k: nat)
    ensures Fetch(Apply(m, Write(off, value)), k) == if k == off then value else Fetch(m, k)
  {
  }

  /** A masked write replaces the bits of the mask by those of the value ... */
  lemma MaskWriteSets(m: Mem, off: nat, mask: Word, value: Word)
    ensures Fetch(Apply(m, MaskWrite(off, mask, value)), off) & mask == value & mask
  {
    hide Masked;
    MaskedSets(Fetch(m, off), mask, value);
  }

  /** ... leaves the other bits as they were, with the value's other bits added ... */
  lemma MaskWriteLeaves(m: Mem, off: nat, mask: Word, value: Word)
    ensures Fetch(Apply(m, MaskWrite(off, mask, value)), off) & !mask == (Fetch(m, off) | value) & !mask
  {
    hide Masked;
    MaskedLeaves(Fetch(m, off), mask, value);
  }

  /** ... and leaves every other register. */
  lemma MaskWriteKeeps(m: Mem, off: nat, mask: Word, value: Word, k: nat)
    requires k != off
    ensures Fetch(Apply(m, MaskWrite(off, mask, value)), k) == Fetch(m, k)
  {
    hide Masked;
  }

  lemma MaskedSets(was: Word, mask: Word, value: Word)
    ensures Masked(was, mask, value) & mask == value & mask
  {
  }

  lemma MaskedLeaves(was: Word, mask: Word, value: Word)
    ensures Masked(was, mask, value) & !mask == (was | value) & !mask
  {
  }

  /** A block leaves its words in consecutive registers, one in each. */
  lemma {:induction false} BlockWriteAt(m: Mem, off: nat, data: seq<Word>, k: nat)
    ensures Fetch(Apply(m, BlockWrite(off, data)), k) ==
      if off <= k < off + 4 * |data| && (k - off) % 4 == 0 then data[(k - off) / 4] else Fetch(m, k)
    decreases |data|
  {
    if data != [] {
      BlockWriteAt(m[off := data[0]], off + 4, data[1..], k);
      if k >= off + 4 {
        assert (k - off - 4) % 4 == (k - off) % 4 && (k - off - 4) / 4 == (k - off) / 4 - 1;
      }
    }
  }

  lemma BlockSetAt(m: Mem, off: nat, value: Word, size: nat, k: nat)
    ensures Fetch(Apply(m, BlockSet(off, value, size)), k) ==
      if off <= k < off + 4 * size && (k - off) % 4 == 0 then value else Fetch(m, k)
  {
    BlockWriteAt(m, off, Repeat(value, size), k);
  }

  /** Polls, reads and array commands leave every register. */
  lemma OthersKeep(m: Mem, op: Op)
    requires op.MaskPoll? || op.Read32? || op.Command?
    ensures Apply(m, op) == m
  {
  }

  function Replay(m: Mem, ops: seq<Op>): Mem
    decreases |ops|
  {
    if ops == [] then m else Apply(Replay(m, ops[..|ops| - 1]), ops[|ops| - 1])
  }

  /** Every recorded read value is the one the registers held at that point. */
  ghost predicate ReadsAgree(m: Mem, ops: seq<Op>)
    decreases |ops|
  {
    ops == [] ||
    (var last := ops[|ops| - 1];
     && ReadsAgree(m, ops[..|ops| - 1])
     && (last.Read32? ==> last.value == Fetch(Replay(m, ops[..|ops| - 1]), last.off)))
  }

  lemma {:induction false} ReplayConcat(m: Mem, a: seq<Op>, b: seq<Op>)
    ensures Replay(m, a + b) == Replay(Replay(m, a), b)
    ensures ReadsAgree(m, a + b) <==> ReadsAgree(m, a) && ReadsAgree(Replay(m, a), b)
    decreases |b|
  {
    if b == [] {
      assert a + b == a;
    } else {
      var front := b[..|b| - 1];
      ReplayConcat(m, a, front);
      assert (a + b)[..|a + b| - 1] == a + front;
    }
  }
}
