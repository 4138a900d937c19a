/** What the serialized form promises: when it can be written at all, what its counts mean,
    and that running the records has the effect of running the commands. */
module SerializerFacts {
  import opened Arithmetic
  import opened Registers
  import opened Serializer
  import opened TxnDevice
  import opened TxnSpec
  import opened Wrappers

  // ---------------------------------------------------------------- room

  /** Records that fit the initial buffer never overrun the allocation. */
  lemma {:induction false} SmallRecordsStay(cmds: seq<TxnCmd>)
    requires forall i | 0 <= i < |cmds| :: RecordSize(cmds[i]) <= DEFAULT_BUFFER_SIZE
    ensures Stays(cmds) && Total(cmds) <= Allocated(cmds) && Allocated(cmds) >= DEFAULT_BUFFER_SIZE
  {
    if cmds != [] {
      SmallRecordsStay(cmds[..|cmds| - 1]);
    }
  }

  /** One more record stays exactly when it fits after one doubling, whatever was written
      before. */
  lemma NextRecordStaysIff(cmds: seq<TxnCmd>, cmd: TxnCmd)
    requires Stays(cmds)
    ensures Stays(cmds + [cmd]) <==> Total(cmds) + RecordSize(cmd) <= 2 * Allocated(cmds)
    ensures Total(cmds + [cmd]) == Total(cmds) + RecordSize(cmd) && Total(cmds) <= Allocated(cmds)
  {
    assert (cmds + [cmd])[..|cmds|] == cmds;
  }

  /** So does a record no larger than the current allocation. */
  lemma NextRecordStays(cmds: seq<TxnCmd>, cmd: TxnCmd)
    requires Stays(cmds) && RecordSize(cmd) <= Allocated(cmds)
    ensures Stays(cmds + [cmd]) && Total(cmds + [cmd]) <= Allocated(cmds + [cmd])
  {
    NextRecordStaysIff(cmds, cmd);
  }

  /** A first record stays exactly when header and record fit twice the initial buffer. */
  lemma FirstRecordStaysIff(cmd: TxnCmd)
    ensures Stays([cmd]) <==> HEADER_SIZE + RecordSize(cmd) <= 2 * DEFAULT_BUFFER_SIZE
  {
    assert [] + [cmd] == [cmd];
    NextRecordStaysIff([], cmd);
  }

  /** The 32-bit allocation size does not wrap below 2 GiB of records. */
  lemma {:induction false} AllocationBound(cmds: seq<TxnCmd>)
    requires Stays(cmds)
    ensures Allocated(cmds) <= DEFAULT_BUFFER_SIZE || Allocated(cmds) < 2 * Total(cmds)
  {
    if cmds != [] {
      AllocationBound(cmds[..|cmds| - 1]);
    }
  }

  // ---------------------------------------------------------------- counts

  function CustomBytes(cmds: seq<TxnCmd>): nat {
    if cmds == [] then 0
    else
      var last := cmds[|cmds| - 1];
      CustomBytes(cmds[..|cmds| - 1]) + if IsCustom(last) then last.size else 0
  }

  /** The rounding at the end is harmless exactly when the custom payloads add up to words. */
  lemma {:induction false} AlignedIff(cmds: seq<TxnCmd>)
    ensures Total(cmds) % 4 == CustomBytes(cmds) % 4
  {
    if cmds != [] {
      AlignedIff(cmds[..|cmds| - 1]);
    }
  }

  /** The operation count is the number of records exactly when every command has one. */
  lemma {:induction false} CountsRecordsIff(cmds: seq<TxnCmd>, heap: Heap, blobs: Blobs, dev: Serializer.Device)
    requires AllWellFormed(cmds, heap, blobs) && ValidDevice(dev)
    ensures |ItemsOf(cmds, heap, blobs, dev)| <= |cmds|
    ensures |ItemsOf(cmds, heap, blobs, dev)| == |cmds| <==> forall i | 0 <= i < |cmds| :: !IsBare(cmds[i])
  {
    hide ItemOf, WellFormed, IsBare;
    if cmds != [] {
      var front, last := cmds[..|cmds| - 1], cmds[|cmds| - 1];
      CountsRecordsIff(front, heap, blobs, dev);
      assert (forall i | 0 <= i < |cmds| :: !IsBare(cmds[i]))
        <==> !IsBare(last) && forall i | 0 <= i < |front| :: !IsBare(front[i]);
    }
  }

  // ---------------------------------------------------------------- effect

  /** The register operations of a decoded transaction. Custom records have none. */
  function ItemOps(items: seq<Item>): seq<Op> {
    if items == [] then []
    else
      var last := items[|items| - 1];
      ItemOps(items[..|items| - 1]) + if last.Reg? then [last.op] else []
  }

  predicate IsBlockCmd(cmd: TxnCmd) {
    cmd.opcode == IO_BLOCKWRITE || cmd.opcode == IO_BLOCKSET
  }

  /** The blocks whose offset survives in 32 bits. */
  predicate NearBlocks(cmds: seq<TxnCmd>) {
    forall i | 0 <= i < |cmds| && IsBlockCmd(cmds[i]) :: cmds[i].regOff < U32
  }

  /** Commands that can be executed: those that stand for a register operation, and custom
      ones, which do nothing to the registers. */
  predicate Executable(cmds: seq<TxnCmd>) {
    forall i | 0 <= i < |cmds| :: !IsBare(cmds[i])
  }

  /** The register operations that executing a buffer performs. */
  ghost function BufferOps(cmds: seq<TxnCmd>, heap: Heap, blobs: Blobs): seq<Op>
    requires AllWellFormed(cmds, heap, blobs)
  {
    if cmds == [] then []
    else
      var last := cmds[|cmds| - 1];
      BufferOps(cmds[..|cmds| - 1], heap, blobs) + if Known(last) then [Resolve(heap, Decode(last))] else []
  }

  /** Without custom commands these are the operations the buffer stands for. */
  lemma {:induction false} BufferOpsKnown(cmds: seq<TxnCmd>, heap: Heap, blobs: Blobs)
    requires AllWellFormed(cmds, heap, blobs) && forall i | 0 <= i < |cmds| :: Known(cmds[i])
    ensures Backed(heap, DecodeAll(cmds)) && BufferOps(cmds, heap, blobs) == ResolveAll(heap, DecodeAll(cmds))
  {
    if cmds != [] {
      var n := |cmds| - 1;
      BufferOpsKnown(cmds[..n], heap, blobs);
      assert DecodeAll(cmds) == DecodeAll(cmds[..n]) + [Decode(cmds[n])];
    }
  }

  /** `off` is the offset of register `reg` of the tile in a column and a row, on a device whose
      columns have `rows` rows. */
  predicate OffsetOf(off: nat, col: nat, row: nat, reg: nat, rows: nat, dev: Serializer.Device) {
    && dev.colSpan == rows * dev.rowSpan && row < rows && reg < dev.rowSpan
    && off == col * dev.colSpan + row * dev.rowSpan + reg
  }

  /** The exporter's column byte holds the row of the register's tile, and its row byte the lowest
      bits of the register's offset in the tile. */
  lemma PlacedBytes(off: nat, col: nat, row: nat, reg: nat, rows: nat, op: Op, dev: Serializer.Device)
    requires ValidDevice(dev) && OffsetOf(off, col, row, reg, rows, dev)
    ensures Placed(off, op, dev) == Reg(row % 256, reg % 256, op)
  {
    var span := dev.rowSpan;
    Product(rows, row, span);
    DivideIs(off, dev.colSpan, col, row * span + reg);
    DivideIs(row * span + reg, span, row, reg);
    Associate(col, rows, span);
    DivideIs(off, span, col * rows + row, reg);
  }

  /** They are the column and the row of the tile only by coincidence. */
  lemma PlacedRightIff(off: nat, col: nat, row: nat, reg: nat, rows: nat, op: Op, dev: Serializer.Device)
    requires ValidDevice(dev) && OffsetOf(off, col, row, reg, rows, dev) && col < 256 && row < 256
    ensures Placed(off, op, dev).Reg?
    ensures Placed(off, op, dev).col == col <==> row == col
    ensures Placed(off, op, dev).row == row <==> reg % 256 == row
  {
    hide Placed, OffsetOf;
    PlacedBytes(off, col, row, reg, rows, op, dev);
  }

  /** A record acts on the registers as its command does. Other than a block it is the very
      operation the command stands for. */
  lemma RecordActsAsCommand(cmd: TxnCmd, heap: Heap, blobs: Blobs, dev: Serializer.Device, m: Mem)
    requires WellFormed(cmd, heap, blobs) && ValidDevice(dev) && Known(cmd)
    requires IsBlockCmd(cmd) ==> cmd.regOff < U32
    ensures ItemOf(cmd, heap, blobs, dev).Reg?
    ensures !IsBlockCmd(cmd) ==> ItemOf(cmd, heap, blobs, dev).op == Resolve(heap, Decode(cmd))
    ensures Apply(m, ItemOf(cmd, heap, blobs, dev).op) == Apply(m, Resolve(heap, Decode(cmd)))
  {
  }

  lemma ReplayOne(m: Mem, ops: seq<Op>, op: Op)
    ensures Replay(m, ops + [op]) == Apply(Replay(m, ops), op)
  {
  }

  lemma OneMoreItem(m: Mem, items: seq<Item>, item: Item)
    requires item.Reg?
    ensures Replay(m, ItemOps(items + [item])) == Apply(Replay(m, ItemOps(items)), item.op)
  {
  }

  /** Decoding an export and carrying out its records leaves any registers as executing the
      command buffer would. */
  lemma {:induction false} ExportHasSameEffect(cmds: seq<TxnCmd>, heap: Heap, blobs: Blobs,
      dev: Serializer.Device, m: Mem)
    requires AllWellFormed(cmds, heap, blobs) && ValidDevice(dev)
    requires Executable(cmds) && NearBlocks(cmds)
    ensures Replay(m, ItemOps(ItemsOf(cmds, heap, blobs, dev))) == Replay(m, BufferOps(cmds, heap, blobs))
  {
    hide ItemOf, Apply, Replay, Resolve, IsBlockCmd, IsCustom;
    if cmds != [] {
      var n := |cmds| - 1;
      ExportHasSameEffect(cmds[..n], heap, blobs, dev, m);
      var items, ops := ItemsOf(cmds[..n], heap, blobs, dev), BufferOps(cmds[..n], heap, blobs);
      var item := ItemOf(cmds[n], heap, blobs, dev);
      assert ItemsOf(cmds, heap, blobs, dev) == items + [item];
      if Known(cmds[n]) {
        RecordActsAsCommand(cmds[n], heap, blobs, dev, Replay(m, ops));
        OneMoreItem(m, items, item);
        ReplayOne(m, ops, Resolve(heap, Decode(cmds[n])));
      } else {
        CustomIs(cmds[n], heap, blobs, dev);
        CustomItem(items, item);
        assert BufferOps(cmds, heap, blobs) == ops + [] == ops;
      }
    }
  }

  lemma CustomIs(cmd: TxnCmd, heap: Heap, blobs: Blobs, dev: Serializer.Device)
    requires WellFormed(cmd, heap, blobs) && ValidDevice(dev) && !IsBare(cmd) && !Known(cmd)
    ensures ItemOf(cmd, heap, blobs, dev).Custom?
  {
  }

  lemma CustomItem(items: seq<Item>, item: Item)
    requires item.Custom?
    ensures ItemOps(items + [item]) == ItemOps(items)
  {
    assert (items + [item])[..|items|] == items;
  }

  lemma {:induction false} StoredAt(m: Mem, off: nat, data: seq<Word>, k: nat)
    ensures k in StoreBlock(m, off, data) <==> k in m || (off <= k < off + 4 * |data| && (k - off) % 4 == 0)
    decreases |data|
  {
    if data != [] {
      StoredAt(m[off := data[0]], off + 4, data[1..], k);
    }
  }

  /** Cutting a block's offset to 32 bits is harmless exactly for near or empty blocks. */
  lemma NearBlockIff(off: nat, data: seq<Word>)
    ensures (forall m: Mem :: Apply(m, BlockWrite(off % U32, data)) == Apply(m, BlockWrite(off, data)))
        <==> off < U32 || data == []
  {
    if off >= U32 && data != [] {
      var m: Mem := map[];
      StoredAt(m, off % U32, data, off % U32);
      StoredAt(m, off, data, off % U32);
      assert Apply(m, BlockWrite(off % U32, data)) != Apply(m, BlockWrite(off, data));
    }
  }

  /** Reading an export back yields a transaction with the same effect, and its size is the
      header and the sizes of its records. With small records it can be read back if and only
      if the payloads of custom commands add up to whole words. */
  method ExportAndReadBack(cmds: seq<TxnCmd>, heap: Heap, blobs: Blobs, dev: Serializer.Device) returns (out: Export)
    requires AllWellFormed(cmds, heap, blobs) && ValidDevice(dev) && |cmds| < U32 && Total(cmds) <= 0x8000_0000
    requires Executable(cmds) && NearBlocks(cmds)
    requires forall i | 0 <= i < |cmds| :: RecordSize(cmds[i]) <= DEFAULT_BUFFER_SIZE
    ensures out.Bytes? <==> CustomBytes(cmds) % 4 == 0
    ensures out.Bytes? ==> HEADER_SIZE + WalkedSizes(out.bytes, HEADER_SIZE) == |out.bytes|
    ensures out.Bytes? ==> Walk(out.bytes, HEADER_SIZE).Some?
    ensures out.Bytes? ==> forall m: Mem ::
      Replay(m, ItemOps(Walk(out.bytes, HEADER_SIZE).value)) == Replay(m, BufferOps(cmds, heap, blobs))
  {
    SmallRecordsStay(cmds);
    AlignedIff(cmds);
    out := TxnExportSerialized(cmds, heap, blobs, dev);
    if out.Bytes? {
      SizesFill(out.bytes, HEADER_SIZE);
      forall m: Mem
        ensures Replay(m, ItemOps(Walk(out.bytes, HEADER_SIZE).value)) == Replay(m, BufferOps(cmds, heap, blobs))
      {
        ExportHasSameEffect(cmds, heap, blobs, dev, m);
      }
    }
  }
}
