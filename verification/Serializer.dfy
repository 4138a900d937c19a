/** The serialized form of a transaction: a header, then one record per command, each
    carrying its own size. Writing the buffer and reading it back. */
module Serializer {
  import opened Arithmetic
  import opened Bytes
  import opened Registers
  import opened TxnDevice
  import opened TxnSpec
  import opened Wrappers

  const HEADER_SIZE: nat := 16
  const WRITE_SIZE: nat := 24
  const MASK_SIZE: nat := 32
  const BLOCK_SIZE: nat := 16
  const CUSTOM_SIZE: nat := 8
  const DEFAULT_BUFFER_SIZE: nat := 4096
  const IO_MASKWRITE: nat := 3
  const CUSTOM_OP_BEGIN: nat := 128

  /** What one record says: a register operation behind the two bytes that its header calls column
      and row, or a custom operation. */
  datatype Item = Reg(col: u8, row: u8, op: Op) | Custom(code: u8, data: seq<u8>)

  datatype Record = Record(item: Item, size: nat)

  // ---------------------------------------------------------------- reading

  function Data(b: seq<u8>, at: nat, n: nat): (d: seq<Word>)
    requires at + 4 * n <= |b|
    ensures |d| == n
  {
    seq(n, i requires 0 <= i < n => WordAt(b, at + 4 * i))
  }

  /** The record at `p`, if there is a whole one of a known kind. */
  function ReadRecord(b: seq<u8>, p: nat): (r: Option<Record>)
    ensures r.Some? ==> 0 < r.value.size && p + r.value.size <= |b|
  {
    if p >= |b| then None
    else if b[p] == IO_WRITE then ReadWrite(b, p)
    else if b[p] == IO_MASKWRITE || b[p] == IO_MASKPOLL then ReadMasked(b, p)
    else if b[p] == IO_BLOCKWRITE then ReadBlock(b, p)
    else if b[p] >= CUSTOM_OP_BEGIN then ReadCustom(b, p)
    else None
  }

  function ReadWrite(b: seq<u8>, p: nat): (r: Option<Record>)
    ensures r.Some? ==> r.value.size == WRITE_SIZE && p + WRITE_SIZE <= |b|
  {
    if p + WRITE_SIZE <= |b| && Field(b, p + 20, 4) == WRITE_SIZE
    then Some(Record(Reg(b[p + 1], b[p + 2], Op.Write(Field(b, p + 8, 8), WordAt(b, p + 16))), WRITE_SIZE))
    else None
  }

  function ReadMasked(b: seq<u8>, p: nat): (r: Option<Record>)
    requires p < |b|
    ensures r.Some? ==> r.value.size == MASK_SIZE && p + MASK_SIZE <= |b|
  {
    if p + MASK_SIZE <= |b| && Field(b, p + 24, 4) == MASK_SIZE then
      var off, value, mask := Field(b, p + 8, 8), WordAt(b, p + 16), WordAt(b, p + 20);
      var op := if b[p] == IO_MASKPOLL then MaskPoll(off, mask, value, 0) else MaskWrite(off, mask, value);
      Some(Record(Reg(b[p + 1], b[p + 2], op), MASK_SIZE))
    else None
  }

  function ReadBlock(b: seq<u8>, p: nat): (r: Option<Record>)
    ensures r.Some? ==> r.value.size >= BLOCK_SIZE && p + r.value.size <= |b|
  {
    if p + BLOCK_SIZE > |b| then None
    else
      var size := Field(b, p + 12, 4);
      if size < BLOCK_SIZE || size % 4 != 0 || p + size > |b| then None
      else
        var data := Data(b, p + BLOCK_SIZE, (size - BLOCK_SIZE) / 4);
        Some(Record(Reg(b[p + 1], b[p + 2], BlockWrite(Field(b, p + 8, 4), data)), size))
  }

  function ReadCustom(b: seq<u8>, p: nat): (r: Option<Record>)
    requires p < |b|
    ensures r.Some? ==> r.value.size >= CUSTOM_SIZE && p + r.value.size <= |b|
  {
    if p + CUSTOM_SIZE > |b| then None
    else
      var size := Field(b, p + 4, 4);
      if size < CUSTOM_SIZE || p + size > |b| then None
      else Some(Record(Custom(b[p], b[p + CUSTOM_SIZE..p + size]), size))
  }

  /** Walks the records from `p` to the end of the buffer by their sizes. */
  function Walk(b: seq<u8>, p: nat): Option<seq<Item>>
    decreases |b| - p
  {
    if p >= |b| then if p == |b| then Some([]) else None
    else match ReadRecord(b, p)
      case None => None
      case Some(r) =>
        match Walk(b, p + r.size)
        case None => None
        case Some(rest) => Some([r.item] + rest)
  }

  /** The sum of the size fields met on that walk. */
  function WalkedSizes(b: seq<u8>, p: nat): nat
    decreases |b| - p
  {
    match ReadRecord(b, p)
    case None => 0
    case Some(r) => r.size + WalkedSizes(b, p + r.size)
  }

  lemma {:induction false} SizesFill(b: seq<u8>, p: nat)
    requires Walk(b, p).Some?
    ensures p + WalkedSizes(b, p) == |b|
    decreases |b| - p
  {
    if p < |b| {
      SizesFill(b, p + ReadRecord(b, p).value.size);
    }
  }

  /** `b'` has the bytes of `b` from `p` on, and perhaps more behind them. */
  predicate Agree(b: seq<u8>, b': seq<u8>, p: nat) {
    p <= |b| <= |b'| && b'[p..|b|] == b[p..]
  }

  lemma SliceOf(b: seq<u8>, p: nat, q: nat, lo: nat, hi: nat)
    requires p <= lo <= hi <= q <= |b|
    ensures b[p..q][lo - p..hi - p] == b[lo..hi]
  {
    var part := b[p..q];
    forall i | 0 <= i < hi - lo
      ensures part[lo - p..hi - p][i] == b[lo..hi][i]
    {
      assert part[lo - p + i] == b[lo + i];
    }
  }

  lemma SliceStable(b: seq<u8>, b': seq<u8>, p: nat, lo: nat, hi: nat)
    requires Agree(b, b', p) && p <= lo <= hi <= |b|
    ensures b'[lo..hi] == b[lo..hi]
  {
    assert b[p..] == b[p..|b|];
    SliceOf(b', p, |b|, lo, hi);
    SliceOf(b, p, |b|, lo, hi);
  }

  lemma FieldStable(b: seq<u8>, b': seq<u8>, p: nat, at: nat, k: nat)
    requires Agree(b, b', p) && p <= at && at + k <= |b|
    ensures Field(b', at, k) == Field(b, at, k)
  {
    SliceStable(b, b', p, at, at + k);
  }

  lemma WordStable(b: seq<u8>, b': seq<u8>, p: nat, at: nat)
    requires Agree(b, b', p) && p <= at && at + 4 <= |b|
    ensures WordAt(b', at) == WordAt(b, at)
  {
    FieldStable(b, b', p, at, 4);
  }

  lemma ByteStable(b: seq<u8>, b': seq<u8>, p: nat, at: nat)
    requires Agree(b, b', p) && p <= at < |b|
    ensures b'[at] == b[at] && |b| <= |b'|
  {
    assert b[at] == b[p..][at - p] == b'[p..|b|][at - p] == b'[at];
  }

  lemma DataStable(b: seq<u8>, b': seq<u8>, p: nat, at: nat, n: nat)
    requires Agree(b, b', p) && p <= at && at + 4 * n <= |b|
    ensures Data(b', at, n) == Data(b, at, n)
  {
    forall i | 0 <= i < n
      ensures WordAt(b', at + 4 * i) == WordAt(b, at + 4 * i)
    {
      WordStable(b, b', p, at + 4 * i);
    }
  }

  /** A whole record depends on nothing in front of it or behind it. */
  lemma RecordStable(b: seq<u8>, b': seq<u8>, p: nat)
    requires Agree(b, b', p) && ReadRecord(b, p).Some?
    ensures ReadRecord(b', p) == ReadRecord(b, p)
  {
    hide Agree, Field, WordAt, Data;
    ByteStable(b, b', p, p);
    ByteStable(b, b', p, p + 1);
    ByteStable(b, b', p, p + 2);
    if b[p] == IO_WRITE {
      FieldStable(b, b', p, p + 8, 8);
      WordStable(b, b', p, p + 16);
      FieldStable(b, b', p, p + 20, 4);
    } else if b[p] == IO_MASKWRITE || b[p] == IO_MASKPOLL {
      FieldStable(b, b', p, p + 8, 8);
      WordStable(b, b', p, p + 16);
      WordStable(b, b', p, p + 20);
      FieldStable(b, b', p, p + 24, 4);
    } else if b[p] == IO_BLOCKWRITE {
      FieldStable(b, b', p, p + 8, 4);
      FieldStable(b, b', p, p + 12, 4);
      DataStable(b, b', p, p + BLOCK_SIZE, (Field(b, p + 12, 4) - BLOCK_SIZE) / 4);
    } else {
      FieldStable(b, b', p, p + 4, 4);
      SliceStable(b, b', p, p + CUSTOM_SIZE, p + Field(b, p + 4, 4));
    }
  }

  lemma AgreeLater(b: seq<u8>, b': seq<u8>, p: nat, q: nat)
    requires Agree(b, b', p) && p <= q <= |b|
    ensures Agree(b, b', q)
  {
  }

  /** A walk does not look in front of its start. */
  lemma {:induction false} WalkStable(b: seq<u8>, b': seq<u8>, p: nat)
    requires Agree(b, b', p) && |b'| == |b| && Walk(b, p).Some?
    ensures Walk(b', p) == Walk(b, p)
    decreases |b| - p
  {
    hide ReadRecord, Agree;
    if p < |b| {
      var r := ReadRecord(b, p).value;
      RecordStable(b, b', p);
      AgreeLater(b, b', p, p + r.size);
      WalkStable(b, b', p + r.size);
    }
  }

  /** A walk over `b` goes on over a record added behind it. */
  lemma {:induction false} WalkExtend(b: seq<u8>, b': seq<u8>, p: nat, item: Item)
    requires |b| < |b'| && Agree(b, b', p) && Walk(b, p).Some? && ReadRecord(b', |b|) == Some(Record(item, |b'| - |b|))
    ensures Walk(b', p) == Some(Walk(b, p).value + [item])
    decreases |b| - p
  {
    hide ReadRecord, Agree;
    if p == |b| {
      assert Walk(b', |b'|) == Some([]);
      assert [item] + [] == [] + [item];
    } else {
      var r := ReadRecord(b, p).value;
      RecordStable(b, b', p);
      AgreeLater(b, b', p, p + r.size);
      WalkExtend(b, b', p + r.size, item);
      var rest := Walk(b, p + r.size).value;
      assert [r.item] + (rest + [item]) == ([r.item] + rest) + [item];
    }
  }

  // ---------------------------------------------------------------- what is written

  type Blobs = map<nat, seq<u8>>

  /** The device properties the exporter writes down. `rowSpan` and `colSpan` are the
      address space of a row and of a column. */
  datatype Device = Device(devGen: u8, numRows: u8, numCols: u8, numMemTileRows: u8, rowSpan: nat, colSpan: nat)

  predicate ValidDevice(dev: Device) {
    dev.rowSpan > 0 && dev.colSpan > 0
  }

  predicate IsCustom(cmd: TxnCmd) {
    cmd.opcode >= CUSTOM_OP_BEGIN
  }

  /** An opcode the exporter counts but writes no record for. */
  predicate IsBare(cmd: TxnCmd) {
    !Known(cmd) && !IsCustom(cmd)
  }

  /** The ranges of the command's C fields, and its payload. */
  ghost predicate WellFormed(cmd: TxnCmd, heap: Heap, blobs: Blobs) {
    && cmd.opcode < 256 && cmd.regOff < U32 * U32 && cmd.size < U32
    && (cmd.opcode == IO_BLOCKWRITE ==> cmd.dataPtr in heap && |heap[cmd.dataPtr]| == cmd.size)
    && (IsCustom(cmd) ==> cmd.dataPtr in blobs && |blobs[cmd.dataPtr]| == cmd.size)
  }

  ghost predicate AllWellFormed(cmds: seq<TxnCmd>, heap: Heap, blobs: Blobs) {
    forall i | 0 <= i < |cmds| :: WellFormed(cmds[i], heap, blobs)
  }

  function RecordSize(cmd: TxnCmd): nat {
    if cmd.opcode == IO_WRITE && cmd.mask == 0 then WRITE_SIZE
    else if cmd.opcode == IO_WRITE || cmd.opcode == IO_MASKPOLL then MASK_SIZE
    else if cmd.opcode == IO_BLOCKWRITE || cmd.opcode == IO_BLOCKSET then BLOCK_SIZE + 4 * cmd.size
    else if IsCustom(cmd) then CUSTOM_SIZE + cmd.size
    else 0
  }

  /** A register operation with the two bytes the exporter takes from its offset. */
  function Placed(off: nat, op: Op, dev: Device): Item
    requires ValidDevice(dev)
  {
    Reg(off % dev.colSpan / dev.rowSpan % 256, off % dev.rowSpan % 256, op)
  }

  /** What the record of a command says. Block writes keep 32 bits of the offset. */
  ghost function ItemOf(cmd: TxnCmd, heap: Heap, blobs: Blobs, dev: Device): Item
    requires WellFormed(cmd, heap, blobs) && !IsBare(cmd) && ValidDevice(dev)
  {
    var off := cmd.regOff;
    if cmd.opcode == IO_WRITE && cmd.mask == 0 then Placed(off, Op.Write(off, cmd.value), dev)
    else if cmd.opcode == IO_WRITE then Placed(off, MaskWrite(off, cmd.mask, cmd.value), dev)
    else if cmd.opcode == IO_MASKPOLL then Placed(off, MaskPoll(off, cmd.mask, cmd.value, 0), dev)
    else if cmd.opcode == IO_BLOCKWRITE then Placed(off, BlockWrite(off % U32, heap[cmd.dataPtr]), dev)
    else if cmd.opcode == IO_BLOCKSET then Placed(off, BlockWrite(off % U32, Repeat(cmd.value, cmd.size)), dev)
    else Custom(cmd.opcode, blobs[cmd.dataPtr])
  }

  ghost function ItemsOf(cmds: seq<TxnCmd>, heap: Heap, blobs: Blobs, dev: Device): seq<Item>
    requires AllWellFormed(cmds, heap, blobs) && ValidDevice(dev)
  {
    if cmds == [] then []
    else
      var last := cmds[|cmds| - 1];
      ItemsOf(cmds[..|cmds| - 1], heap, blobs, dev) + if IsBare(last) then [] else [ItemOf(last, heap, blobs, dev)]
  }

  /** Bytes used by the header and the records. */
  function Total(cmds: seq<TxnCmd>): (size: nat)
    ensures size >= HEADER_SIZE
  {
    if cmds == [] then HEADER_SIZE else Total(cmds[..|cmds| - 1]) + RecordSize(cmds[|cmds| - 1])
  }

  /** Bytes allocated: the buffer is doubled, once, when the next record does not fit. */
  function Allocated(cmds: seq<TxnCmd>): nat {
    if cmds == [] then DEFAULT_BUFFER_SIZE
    else
      var before := Allocated(cmds[..|cmds| - 1]);
      if Total(cmds) > before then 2 * before else before
  }

  /** No record reaches beyond the allocation. */
  predicate Stays(cmds: seq<TxnCmd>) {
    cmds == [] || (Stays(cmds[..|cmds| - 1]) && Total(cmds) <= Allocated(cmds))
  }

  // ---------------------------------------------------------------- writing

  /** Opcode, column and row at the front of a record. */
  method PutOpHdr(buf: array<u8>, at: nat, op: u8, off: nat, dev: Device)
    requires at + 3 <= buf.Length && ValidDevice(dev)
    modifies buf
    ensures Elsewhere(buf, at, 3) && buf[at] == op
    ensures buf[at + 1] == off % dev.colSpan / dev.rowSpan % 256 && buf[at + 2] == off % dev.rowSpan % 256
  {
    Put(buf, at + 1, 1, off % dev.colSpan / dev.rowSpan);
    assert buf[at + 1] == buf[at + 1..at + 2][0];
    Put(buf, at + 2, 1, off % dev.rowSpan);
    assert buf[at + 1] == buf[at + 1..at + 2][0];
    assert buf[at + 2] == buf[at + 2..at + 3][0];
    buf[at] := op;
  }

  lemma Part(buf: array<u8>, n: nat, lo: nat, hi: nat)
    requires lo <= hi <= n <= buf.Length
    ensures buf[..n][lo..hi] == buf[lo..hi]
  {
  }

  /** A number stored whole at `at`. */
  ghost predicate Stored(b: seq<u8>, at: nat, k: nat, n: nat) {
    at + k <= |b| && b[at..at + k] == Digits(n, k)
  }

  lemma WriteReads(b: seq<u8>, at: nat, off: nat, value: Word)
    requires |b| == at + WRITE_SIZE && b[at] == IO_WRITE && off < U32 * U32
    requires Stored(b, at + 8, 8, off) && Stored(b, at + 16, 4, value as nat) && Stored(b, at + 20, 4, WRITE_SIZE)
    ensures ReadRecord(b, at) == Some(Record(Reg(b[at + 1], b[at + 2], Op.Write(off, value)), WRITE_SIZE))
  {
    Sizes();
    Fits(off, 8);
    Fits(value as nat, 4);
    Fits(WRITE_SIZE, 4);
  }

  method AppendWrite32(buf: array<u8>, at: nat, cmd: TxnCmd, dev: Device)
    requires at + WRITE_SIZE <= buf.Length && cmd.regOff < U32 * U32 && ValidDevice(dev)
    modifies buf
    ensures buf[..at] == old(buf[..at])
    ensures ReadRecord(buf[..at + WRITE_SIZE], at)
         == Some(Record(Placed(cmd.regOff, Op.Write(cmd.regOff, cmd.value), dev), WRITE_SIZE))
  {
    hide ReadRecord;
    Put(buf, at + 8, 8, cmd.regOff);
    Put(buf, at + 16, 4, cmd.value as nat);
    Put(buf, at + 20, 4, WRITE_SIZE);
    PutOpHdr(buf, at, IO_WRITE, cmd.regOff, dev);
    ghost var b := buf[..at + WRITE_SIZE];
    Part(buf, |b|, at + 8, at + 16);
    Part(buf, |b|, at + 16, at + 20);
    Part(buf, |b|, at + 20, at + 24);
    assert buf[0..at] == old(buf[0..at]);
    WriteReads(b, at, cmd.regOff, cmd.value);
  }

  function MaskedOp(op: u8, off: nat, mask: Word, value: Word): Op {
    if op == IO_MASKPOLL then MaskPoll(off, mask, value, 0) else MaskWrite(off, mask, value)
  }

  lemma MaskedReads(b: seq<u8>, at: nat, op: u8, off: nat, mask: Word, value: Word)
    requires |b| == at + MASK_SIZE && b[at] == op && off < U32 * U32 && (op == IO_MASKWRITE || op == IO_MASKPOLL)
    requires Stored(b, at + 8, 8, off) && Stored(b, at + 16, 4, value as nat)
    requires Stored(b, at + 20, 4, mask as nat) && Stored(b, at + 24, 4, MASK_SIZE)
    ensures ReadRecord(b, at) == Some(Record(Reg(b[at + 1], b[at + 2], MaskedOp(op, off, mask, value)), MASK_SIZE))
  {
    Sizes();
    Fits(off, 8);
    Fits(mask as nat, 4);
    Fits(value as nat, 4);
    Fits(MASK_SIZE, 4);
  }

  /** Masked writes and polls share a layout. */
  method AppendMasked(buf: array<u8>, at: nat, cmd: TxnCmd, op: u8, dev: Device)
    requires at + MASK_SIZE <= buf.Length && cmd.regOff < U32 * U32 && ValidDevice(dev)
    requires op == IO_MASKWRITE || op == IO_MASKPOLL
    modifies buf
    ensures buf[..at] == old(buf[..at])
    ensures ReadRecord(buf[..at + MASK_SIZE], at)
         == Some(Record(Placed(cmd.regOff, MaskedOp(op, cmd.regOff, cmd.mask, cmd.value), dev), MASK_SIZE))
  {
    hide ReadRecord;
    Put(buf, at + 8, 8, cmd.regOff);
    Put(buf, at + 20, 4, cmd.mask as nat);
    Put(buf, at + 16, 4, cmd.value as nat);
    Put(buf, at + 24, 4, MASK_SIZE);
    PutOpHdr(buf, at, op, cmd.regOff, dev);
    ghost var b := buf[..at + MASK_SIZE];
    Part(buf, |b|, at + 8, at + 16);
    Part(buf, |b|, at + 16, at + 20);
    Part(buf, |b|, at + 20, at + 24);
    Part(buf, |b|, at + 24, at + 28);
    assert buf[0..at] == old(buf[0..at]);
    MaskedReads(b, at, op, cmd.regOff, cmd.mask, cmd.value);
  }

  /** Storing a word at `to` leaves the word at `at` in front of it alone. */
  twostate lemma SameWord(buf: array<u8>, new at: nat, new to: nat)
    requires at + 4 <= to && to + 4 <= buf.Length && Elsewhere(buf, to, 4)
    ensures WordAt(buf[..], at) == old(WordAt(buf[..], at))
  {
    assert buf[at..at + 4] == old(buf[at..at + 4]);
    assert buf[..][at..at + 4] == buf[at..at + 4];
    assert old(buf[..][at..at + 4]) == old(buf[at..at + 4]);
  }

  /** The words of a block, one after the other. */
  method PutWords(buf: array<u8>, at: nat, data: seq<Word>)
    requires at + 4 * |data| <= buf.Length
    modifies buf
    ensures Elsewhere(buf, at, 4 * |data|)
    ensures Data(buf[..], at, |data|) == data
  {
    hide WordAt;
    for i := 0 to |data|
      invariant Elsewhere(buf, at, 4 * |data|)
      invariant forall j | 0 <= j < i :: WordAt(buf[..], at + 4 * j) == data[j]
    {
      label L:
      PutWord(buf, at + 4 * i, data[i]);
      forall j | 0 <= j < i
        ensures WordAt(buf[..], at + 4 * j) == data[j]
      {
        SameWord@L(buf, at + 4 * j, at + 4 * i);
      }
    }
  }

  lemma SameData(b: seq<u8>, b': seq<u8>, at: nat, n: nat)
    requires at + 4 * n <= |b| && at + 4 * n <= |b'| && b'[at..at + 4 * n] == b[at..at + 4 * n]
    ensures Data(b', at, n) == Data(b, at, n)
  {
    hide WordAt;
    forall i | 0 <= i < n
      ensures WordAt(b', at + 4 * i) == WordAt(b, at + 4 * i)
    {
      var o := at + 4 * i;
      SliceOf(b, at, at + 4 * n, o, o + 4);
      SliceOf(b', at, at + 4 * n, o, o + 4);
      SameWordAt(b, b', o);
    }
  }

  lemma SameWordAt(b: seq<u8>, b': seq<u8>, at: nat)
    requires at + 4 <= |b| && at + 4 <= |b'| && b'[at..at + 4] == b[at..at + 4]
    ensures WordAt(b', at) == WordAt(b, at)
  {
  }

  lemma BlockReads(b: seq<u8>, at: nat, off: nat, data: seq<Word>)
    requires |b| == at + BLOCK_SIZE + 4 * |data| && |b| - at < U32 && b[at] == IO_BLOCKWRITE
    requires Stored(b, at + 8, 4, off) && Stored(b, at + 12, 4, |b| - at)
    requires Data(b, at + BLOCK_SIZE, |data|) == data
    ensures ReadRecord(b, at) == Some(Record(Reg(b[at + 1], b[at + 2], BlockWrite(off % U32, data)), |b| - at))
  {
    Sizes();
    NumDigits(off, 4);
    Fits(|b| - at, 4);
  }

  /** The header of a block record, once its words are in place. */
  method FinishBlock(buf: array<u8>, at: nat, off: nat, data: seq<Word>, dev: Device)
    requires at + BLOCK_SIZE + 4 * |data| <= buf.Length && BLOCK_SIZE + 4 * |data| < U32 && ValidDevice(dev)
    requires Data(buf[..], at + BLOCK_SIZE, |data|) == data
    modifies buf
    ensures buf[..at] == old(buf[..at])
    ensures var size := BLOCK_SIZE + 4 * |data|;
      ReadRecord(buf[..at + size], at) == Some(Record(Placed(off, BlockWrite(off % U32, data), dev), size))
  {
    hide ReadRecord, WordAt, Data, Digits, Num, ValidDevice;
    var size := BLOCK_SIZE + 4 * |data|;
    Put(buf, at + 8, 4, off);
    Put(buf, at + 12, 4, size);
    PutOpHdr(buf, at, IO_BLOCKWRITE, off, dev);
    ghost var b := buf[..at + size];
    Part(buf, |b|, at + 8, at + 12);
    Part(buf, |b|, at + 12, at + 16);
    assert buf[0..at] == old(buf[0..at]);
    assert buf[at + 16..at + size] == old(buf[at + 16..at + size]);
    SameData(old(buf[..]), b, at + BLOCK_SIZE, |data|);
    BlockReads(b, at, off, data);
  }

  method AppendBlockWrite32(buf: array<u8>, at: nat, off: nat, data: seq<Word>, dev: Device)
    requires at + BLOCK_SIZE + 4 * |data| <= buf.Length && BLOCK_SIZE + 4 * |data| < U32 && ValidDevice(dev)
    modifies buf
    ensures buf[..at] == old(buf[..at])
    ensures var size := BLOCK_SIZE + 4 * |data|;
      ReadRecord(buf[..at + size], at) == Some(Record(Placed(off, BlockWrite(off % U32, data), dev), size))
  {
    PutWords(buf, at + BLOCK_SIZE, data);
    assert buf[0..at] == old(buf[0..at]);
    FinishBlock(buf, at, off, data, dev);
  }

  method PutRepeated(buf: array<u8>, at: nat, value: Word, n: nat)
    requires at + 4 * n <= buf.Length
    modifies buf
    ensures Elsewhere(buf, at, 4 * n)
    ensures Data(buf[..], at, n) == Repeat(value, n)
  {
    hide WordAt;
    for i := 0 to n
      invariant Elsewhere(buf, at, 4 * n)
      invariant forall j | 0 <= j < i :: WordAt(buf[..], at + 4 * j) == value
    {
      label L:
      PutWord(buf, at + 4 * i, value);
      forall j | 0 <= j < i
        ensures WordAt(buf[..], at + 4 * j) == value
      {
        SameWord@L(buf, at + 4 * j, at + 4 * i);
      }
    }
  }

  /** The value of a block set is written out as often as it is to be stored. */
  method AppendBlockSet32(buf: array<u8>, at: nat, cmd: TxnCmd, dev: Device)
    requires at + BLOCK_SIZE + 4 * cmd.size <= buf.Length && BLOCK_SIZE + 4 * cmd.size < U32 && ValidDevice(dev)
    modifies buf
    ensures buf[..at] == old(buf[..at])
    ensures var size, data := BLOCK_SIZE + 4 * cmd.size, Repeat(cmd.value, cmd.size);
      ReadRecord(buf[..at + size], at)
        == Some(Record(Placed(cmd.regOff, BlockWrite(cmd.regOff % U32, data), dev), size))
  {
    PutRepeated(buf, at + BLOCK_SIZE, cmd.value, cmd.size);
    assert buf[0..at] == old(buf[0..at]);
    FinishBlock(buf, at, cmd.regOff, Repeat(cmd.value, cmd.size), dev);
  }

  lemma CustomReads(b: seq<u8>, at: nat, op: u8, data: seq<u8>)
    requires |b| == at + CUSTOM_SIZE + |data| && |b| - at < U32 && b[at] == op && op >= CUSTOM_OP_BEGIN
    requires Stored(b, at + 4, 4, CUSTOM_SIZE + |data|) && b[at + CUSTOM_SIZE..] == data
    ensures ReadRecord(b, at) == Some(Record(Custom(op, data), CUSTOM_SIZE + |data|))
  {
    Sizes();
    Fits(CUSTOM_SIZE + |data|, 4);
    assert b[at + CUSTOM_SIZE..at + CUSTOM_SIZE + |data|] == data;
  }

  method PutBytes(buf: array<u8>, at: nat, data: seq<u8>)
    requires at + |data| <= buf.Length
    modifies buf
    ensures Elsewhere(buf, at, |data|) && buf[at..at + |data|] == data
  {
    for i := 0 to |data|
      invariant forall j | 0 <= j < i :: buf[at + j] == data[j]
      invariant forall j | 0 <= j < at || at + |data| <= j < buf.Length :: buf[j] == old(buf[j])
    {
      buf[at + i] := data[i];
    }
  }

  /** A custom record has no column and row of its own; the bytes keep what they held. */
  method AppendCustomOp(buf: array<u8>, at: nat, op: u8, data: seq<u8>)
    requires at + CUSTOM_SIZE + |data| <= buf.Length && CUSTOM_SIZE + |data| < U32 && op >= CUSTOM_OP_BEGIN
    modifies buf
    ensures buf[..at] == old(buf[..at])
    ensures var size := CUSTOM_SIZE + |data|;
      ReadRecord(buf[..at + size], at) == Some(Record(Custom(op, data), size))
  {
    hide ReadRecord;
    var size := CUSTOM_SIZE + |data|;
    Put(buf, at + 4, 4, size);
    Put(buf, at, 1, op);
    PutBytes(buf, at + CUSTOM_SIZE, data);
    assert buf[0..at] == old(buf[0..at]);
    ghost var b := buf[..at + size];
    assert b[at] == buf[at..at + 1][0] == op;
    Part(buf, |b|, at + 4, at + 8);
    Part(buf, |b|, at + CUSTOM_SIZE, at + size);
    CustomReads(b, at, op, data);
  }

  /** Doubles the buffer once if `need` more bytes do not fit. */
  method Grow(buf: array<u8>, size: nat, need: nat) returns (r: array<u8>)
    requires size <= buf.Length
    ensures r == buf || fresh(r)
    ensures r.Length == if size + need > buf.Length then 2 * buf.Length else buf.Length
    ensures r[..size] == buf[..size]
  {
    r := buf;
    if size + need > buf.Length {
      r := new u8[2 * buf.Length];
      for i := 0 to size
        invariant r[..i] == buf[..i]
      {
        r[i] := buf[i];
      }
    }
  }

  /** Appends the record of one command, if it has one. */
  method Append(buf: array<u8>, at: nat, cmd: TxnCmd, heap: Heap, blobs: Blobs, dev: Device)
    requires at + RecordSize(cmd) <= buf.Length && RecordSize(cmd) < U32
    requires WellFormed(cmd, heap, blobs) && ValidDevice(dev)
    modifies buf
    ensures buf[..at] == old(buf[..at])
    ensures !IsBare(cmd) ==>
      ReadRecord(buf[..at + RecordSize(cmd)], at) == Some(Record(ItemOf(cmd, heap, blobs, dev), RecordSize(cmd)))
  {
    hide ReadRecord;
    if cmd.opcode == IO_WRITE && cmd.mask == 0 {
      AppendWrite32(buf, at, cmd, dev);
    } else if cmd.opcode == IO_WRITE {
      AppendMasked(buf, at, cmd, IO_MASKWRITE, dev);
    } else if cmd.opcode == IO_MASKPOLL {
      AppendMasked(buf, at, cmd, IO_MASKPOLL, dev);
    } else if cmd.opcode == IO_BLOCKWRITE {
      AppendBlockWrite32(buf, at, cmd.regOff, heap[cmd.dataPtr], dev);
    } else if cmd.opcode == IO_BLOCKSET {
      AppendBlockSet32(buf, at, cmd, dev);
    } else if cmd.opcode >= CUSTOM_OP_BEGIN {
      AppendCustomOp(buf, at, cmd.opcode, blobs[cmd.dataPtr]);
    }
  }

  /** What the exporter ends with: the bytes; a write behind the allocation while adding
      command `at`; or a last reallocation of a pointer into the middle of the buffer. */
  datatype Export = Bytes(bytes: seq<u8>) | Overrun(at: nat) | Stray

  ghost predicate Header(b: seq<u8>, dev: Device, numOps: nat) {
    && |b| >= HEADER_SIZE
    && b[..6] == [0, 1, dev.devGen, dev.numRows, dev.numCols, dev.numMemTileRows]
    && Field(b, 8, 4) == numOps && Field(b, 12, 4) == |b|
  }

  /** Trims the buffer and fills in the counts. */
  method Close(buf: array<u8>, size: nat, numOps: nat, ghost dev: Device) returns (out: Export)
    requires HEADER_SIZE <= size <= buf.Length && size < U32 && numOps < U32
    requires buf[..6] == [0, 1, dev.devGen, dev.numRows, dev.numCols, dev.numMemTileRows]
    requires Walk(buf[..size], HEADER_SIZE).Some?
    ensures out.Bytes? && |out.bytes| == size && Header(out.bytes, dev, numOps)
    ensures Walk(out.bytes, HEADER_SIZE) == Walk(buf[..size], HEADER_SIZE)
  {
    var r := new u8[size];
    for i := 0 to size
      invariant r[..i] == buf[..i]
    {
      r[i] := buf[i];
    }
    ghost var was := r[..];
    assert was == buf[..size];
    Put(r, 8, 4, numOps);
    Put(r, 12, 4, size);
    Sizes();
    Fits(numOps, 4);
    Fits(size, 4);
    assert r[..][8..12] == r[8..12] && r[..][12..16] == r[12..16];
    assert r[16..size] == was[16..];
    assert r[0..6] == was[0..6];
    WalkStable(was, r[..], HEADER_SIZE);
    out := Bytes(r[..]);
  }

  /** What the exporter knows about its buffer after `size` bytes. */
  ghost predicate Written(b: seq<u8>, dev: Device, items: seq<Item>) {
    && |b| >= HEADER_SIZE
    && b[..6] == [0, 1, dev.devGen, dev.numRows, dev.numCols, dev.numMemTileRows]
    && Walk(b, HEADER_SIZE) == Some(items)
  }

  method CreateTxnHeader(dev: Device) returns (buf: array<u8>)
    ensures fresh(buf) && buf.Length == DEFAULT_BUFFER_SIZE && Written(buf[..HEADER_SIZE], dev, [])
  {
    buf := new u8[DEFAULT_BUFFER_SIZE];
    buf[0], buf[1], buf[2], buf[3], buf[4], buf[5] :=
      0, 1, dev.devGen, dev.numRows, dev.numCols, dev.numMemTileRows;
    assert buf[..HEADER_SIZE][..6] == [0, 1, dev.devGen, dev.numRows, dev.numCols, dev.numMemTileRows];
  }

  /** One round of the export loop: makes room and appends a record. */
  method AddRecord(buf: array<u8>, size: nat, cmd: TxnCmd, heap: Heap, blobs: Blobs, dev: Device,
      ghost items: seq<Item>)
    returns (r: array<u8>)
    requires WellFormed(cmd, heap, blobs) && ValidDevice(dev) && RecordSize(cmd) < U32
    requires HEADER_SIZE <= size <= buf.Length && Written(buf[..size], dev, items)
    modifies buf
    ensures r == buf || fresh(r)
    ensures r.Length == if size + RecordSize(cmd) > buf.Length then 2 * buf.Length else buf.Length
    ensures size + RecordSize(cmd) <= r.Length ==>
      Written(r[..size + RecordSize(cmd)], dev, items + if IsBare(cmd) then [] else [ItemOf(cmd, heap, blobs, dev)])
  {
    var need := RecordSize(cmd);
    ghost var was := buf[..size];
    r := Grow(buf, size, need);
    if size + need > r.Length {
      return;
    }
    Append(r, size, cmd, heap, blobs, dev);
    ghost var now := r[..size + need];
    assert now[..size] == was;
    assert now[..6] == was[..6];
    if IsBare(cmd) {
      assert now == was && items + [] == items;
    } else {
      assert now[HEADER_SIZE..size] == was[HEADER_SIZE..];
      WalkExtend(was, now, HEADER_SIZE, ItemOf(cmd, heap, blobs, dev));
    }
  }

  /** The export loop. `done` counts the commands whose record is in the buffer. */
  method AddRecords(start: array<u8>, cmds: seq<TxnCmd>, heap: Heap, blobs: Blobs, dev: Device)
    returns (buf: array<u8>, size: nat, done: nat)
    requires AllWellFormed(cmds, heap, blobs) && ValidDevice(dev) && Total(cmds) <= 0x8000_0000
    requires start.Length == DEFAULT_BUFFER_SIZE && Written(start[..HEADER_SIZE], dev, [])
    modifies start
    ensures done <= |cmds| && (done == |cmds| <==> Stays(cmds))
    ensures done < |cmds| ==> Stays(cmds[..done]) && !Stays(cmds[..done + 1])
    ensures done == |cmds| ==>
      size == Total(cmds) <= buf.Length && Written(buf[..size], dev, ItemsOf(cmds, heap, blobs, dev))
  {
    hide Written, WellFormed, IsBare, ItemOf, RecordSize;
    buf, size, done := start, HEADER_SIZE, 0;
    ghost var items := [];
    assert cmds[..0] == [];
    while done < |cmds|
      invariant done <= |cmds| && (buf == start || fresh(buf)) && Stays(cmds[..done])
      invariant size == Total(cmds[..done]) <= buf.Length == Allocated(cmds[..done])
      invariant items == ItemsOf(cmds[..done], heap, blobs, dev) && Written(buf[..size], dev, items)
    {
      Round(cmds, done, heap, blobs, dev);
      buf := AddRecord(buf, size, cmds[done], heap, blobs, dev, items);
      items := ItemsOf(cmds[..done + 1], heap, blobs, dev);
      size := size + RecordSize(cmds[done]);
      if size > buf.Length {
        return;
      }
      done := done + 1;
    }
    assert cmds[..done] == cmds;
    assert items == ItemsOf(cmds, heap, blobs, dev);
  }

  /** The whole export. Every command counts as an operation, whether it has a record or not. */
  method TxnExportSerialized(cmds: seq<TxnCmd>, heap: Heap, blobs: Blobs, dev: Device) returns (out: Export)
    requires AllWellFormed(cmds, heap, blobs) && ValidDevice(dev) && |cmds| < U32 && Total(cmds) <= 0x8000_0000
    ensures out.Overrun? <==> !Stays(cmds)
    ensures out.Overrun? ==> out.at < |cmds| && Stays(cmds[..out.at]) && !Stays(cmds[..out.at + 1])
    ensures out.Stray? <==> Stays(cmds) && Total(cmds) % 4 != 0
    ensures out.Bytes? ==>
      && |out.bytes| == Total(cmds) && Header(out.bytes, dev, |cmds|)
      && Walk(out.bytes, HEADER_SIZE) == Some(ItemsOf(cmds, heap, blobs, dev))
  {
    var start := CreateTxnHeader(dev);
    var buf, size, numOps := AddRecords(start, cmds, heap, blobs, dev);
    if numOps < |cmds| {
      return Overrun(numOps);
    }
    if size % 4 != 0 {
      return Stray;
    }
    assert buf[..6] == buf[..size][..6];
    out := Close(buf, size, numOps, dev);
  }

  // ---------------------------------------------------------------- prefixes

  lemma {:induction false} TotalMono(cmds: seq<TxnCmd>, i: nat)
    requires i <= |cmds|
    ensures Total(cmds[..i]) <= Total(cmds)
  {
    if i == |cmds| {
      assert cmds[..i] == cmds;
    } else {
      var n := |cmds| - 1;
      TotalMono(cmds[..n], i);
      assert cmds[..n][..i] == cmds[..i];
    }
  }

  lemma {:induction false} StaysMono(cmds: seq<TxnCmd>, i: nat)
    requires i <= |cmds| && !Stays(cmds[..i])
    ensures !Stays(cmds)
  {
    if i == |cmds| {
      assert cmds[..i] == cmds;
    } else {
      var n := |cmds| - 1;
      assert cmds[..n][..i] == cmds[..i];
      StaysMono(cmds[..n], i);
    }
  }

  /** One more command: how the sizes and the items grow. */
  lemma Round(cmds: seq<TxnCmd>, i: nat, heap: Heap, blobs: Blobs, dev: Device)
    requires i < |cmds| && AllWellFormed(cmds, heap, blobs) && ValidDevice(dev) && Stays(cmds[..i])
    ensures var now, next := cmds[..i], cmds[..i + 1];
      && Total(next) == Total(now) + RecordSize(cmds[i]) <= Total(cmds)
      && Allocated(next) == (if Total(next) > Allocated(now) then 2 * Allocated(now) else Allocated(now))
      && (Stays(next) <==> Total(next) <= Allocated(next))
      && (!Stays(next) ==> !Stays(cmds))
      && ItemsOf(next, heap, blobs, dev) ==
         ItemsOf(now, heap, blobs, dev) + if IsBare(cmds[i]) then [] else [ItemOf(cmds[i], heap, blobs, dev)]
  {
    assert cmds[..i + 1][..i] == cmds[..i];
    TotalMono(cmds, i + 1);
    if !Stays(cmds[..i + 1]) {
      StaysMono(cmds, i + 1);
    }
  }
}
