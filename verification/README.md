# Verified model of the AI Engine driver

This project models the stateful algorithms of the AI Engine runtime driver in Dafny and
proves what they promise. The driver programs arrays of AI Engine tiles by reading and
writing 32-bit registers; here the registers are maps or sets of bits, and the backend
behind them always succeeds. `dafny verify dfyconfig.toml` checks everything.

* **Transactions** (`Registers`, `TxnSpec`, `TxnOwnership`, `TxnRun`, `TxnOrder`, `TxnImmediate`,
  `TxnAnswer`, `TxnCopy`, `TxnDevice`). `TxnSpec` is a state machine with one step per API call, for any number
  of threads, with payloads in an explicit heap. `TxnDevice` has the entry points as they work in the
  driver, on transaction instances and command buffers updated in place; each is proved to take exactly
  the step of the state machine. The other files prove which calls are refused, which wait and which are carried
  out at once, that buffering keeps program order and meaning, that every payload has one owner and is released once, and that exported copies are independent.
* **Serialized transactions** (`Bytes`, `Serializer`, `SerializerFacts`). The exporter writes a byte
  buffer record by record; a reader walks it by the sizes of the records. Decoding what was exported
  has the effect of the command buffer on any registers. The exporter's two failures (a buffer doubled
  only once, and a wrong rounding at the end) are outcomes of the model, with exact conditions.
* **Error broadcast** (`ErrorBroadcast`). The registers that the setup of error interrupts programs, and which L2
  interrupt controller then sees the interrupt of which L1 controller, for every number of columns.
* **Backtracking** (`BacktrackSpec`, `Backtrack`). The scan from L2 channels over L1 controllers to tiles,
  into a payload buffer of bounded size, over any number of calls.
* **Tile clocks** (`Bits`, `Clock`). Requested tiles are kept in a bitmap; the clock of a tile is gated by
  a bit in the tile below it.
* **ELF sections** (`DataMem`, `ElfLoader`). Chunks of a section go to the four memories around a core; the
  reference is a byte-by-byte copy.
* **Buffer descriptors** (`BdFields`, `DmaBd`, `DmaUpdate`, `DmaModule`, `DmaTables`, `DmaLayouts`). Packing, reading
  and updating hardware descriptors, for any register layout whose fields are apart. Writing and reading routines
  have tables of their own, which are proved to agree, and the layouts of the five kinds of tile are proved to be
  such layouts.

`Arithmetic` and `Wrappers` hold what several of these share. Register words are bit-vectors in `Registers`, where
operations are few and fixed, and lists of bits in `BdFields`, where fields lie anywhere.

Where code and intention disagree, the model follows the code and the exact condition is proved:

* A masked write with mask 0 becomes a full write when it is buffered (`BufferingHarmlessIff`), and a poll may lose
  its timeout (`TimeoutKeptIff`).
* An empty write to data memory at an unaligned address is such a masked write: behind a transaction it clears the
  word there (`DeferredWrite`, `DeferredIff`).
* A submitted copy overtakes what its caller has pending (`CopyInOrderIff`).
* The exporter doubles its buffer once and counts operations without a record (`TxnExportSerialized`,
  `FirstRecordStaysIff`, `AlignedIff`, `CountsRecordsIff`).
* The serialized records have the row of a tile where they should have its column, and register bits where they
  should have its row (`PlacedBytes`, `PlacedRightIff`).
* The AIE line numbers, and the mapping back from L2 to L1, are right if and only if the number of columns is
  2 modulo 4 (`AieRoutesIff`, `MapsBackIff`).
* A request for all tiles opens no gate that an earlier request closed (`RequestAllTiles`, `PartialThenAll`,
  `InStepIff`).
* The ELF loader follows the specification if and only if p_filesz is 0 or equals p_memsz (`StandardIff`).
* AIE tiles lose the Y wrap (`YWrapLost`, `YWrapRightIff`), AIE interface tiles get an unshifted high address on
  update (`AieShimUpdateRightIff`), and negative lock values do not come back (`LockValueBackIff`).
* AIE-ML and AIE tiles accept buffer addresses up to twice what their registers hold (`TileAddressKeptIff`,
  `CutAddresses`).
* The register tables give the second step size and wrap of AIE-ML interface tiles, and the packet enable of AIE
  tiles, another word than the routines write them to; the routines do not look at it (`ShimWord`, `AieTileWord`).
* Descriptor numbers are accepted up to and including the number of descriptors, as the code compares them.

## Model

| member | source | states |
|---|---|---|
| Registers.MaskWriteSets | driver/src/io_backend/ext/xaie_baremetal.c:160-174 | After a masked write the register agrees with the value in the bits of the mask. |
| Registers.MaskWriteLeaves | driver/src/io_backend/ext/xaie_baremetal.c:160-174 | In its other bits it holds what it held, or'ed with those of the value. |
| Registers.MaskWriteKeeps | driver/src/io_backend/ext/xaie_baremetal.c:160-174 | Every other register is as before. |
| Registers.WriteAt | driver/src/io_backend/ext/xaie_baremetal.c:111-118 | A write leaves its value in one register and no other. |
| Registers.BlockWriteAt | driver/src/common/xaie_helper.c:1405-1466 | A block write leaves word i of the data at four times i behind its offset, and changes nothing else. |
| Registers.BlockSetAt | driver/src/common/xaie_helper.c:1468-1521 | A block set leaves its value in as many consecutive registers as it is to set, and changes nothing else. |
| TxnOwnership.StepKeeps | driver/src/common/xaie_helper.c:561-1674 | Every call by any thread keeps the invariant: each live payload belongs to exactly one buffered command, each block write refers to a live payload of its size, and only a thread's oldest transaction holds commands. |
| TxnOwnership.CopyMeans | driver/src/common/xaie_helper.c:826-849 | The deep copy stands for the same operations as the original, command by command. |
| TxnOwnership.RenamedUses | driver/src/common/xaie_helper.c:826-849 | The copy owns exactly the newly allocated payloads, one for each block write. |
| TxnOwnership.ReleaseKeeps | driver/src/common/xaie_helper.c:655-657 | Emptying one buffer and releasing its payloads leaves every other payload live and owned once. |
| TxnRun.StepHeap | driver/src/common/xaie_helper.c:1448-1460 | No call hands out a payload twice or changes the contents of a live one. |
| TxnRun.ReleasedExactlyOnce | driver/src/common/xaie_helper.c:1174-1233 | Over any run of any threads, a payload has been released once if it was handed out and is gone, and never otherwise. |
| TxnRun.NothingLeaks | driver/src/common/xaie_helper.c:1174-1233 | Once no transaction holds commands and every copy was freed, no payload is left, whatever happened before. |
| TxnRun.NeverDangling | driver/src/common/xaie_helper.c:648-658 | In every reachable state no buffered block write, original or copy, refers to a payload that was ever released. |
| TxnOrder.StepOrder | driver/src/common/xaie_helper.c:1235-1674 | One call of any thread: executed followed by pending grows by what was asked for, shrinks by what was cleared, or stays. |
| TxnOrder.AppendMeans | driver/src/common/xaie_helper.c:1448-1460 | A buffer with one more call appended stands for the old operations followed by the buffered form of the new ones. |
| TxnOrder.ProgramOrder | driver/src/common/xaie_helper.c:613-783 | For any interleaving of any threads, what was executed for a thread followed by what it has pending is what it issued, in program order, each operation as issued or in its buffered form. |
| TxnImmediate.RegistersFollowTrace | driver/src/common/xaie_helper.c:704-725 | The registers are the replay of the operations in the order the backend saw them, and every read returned the value they held at that point. |
| TxnImmediate.BufferingHarmlessIff | driver/src/common/xaie_helper.c:626-635 | Replaying the buffered form of an operation has the effect of the operation on all registers if and only if it is not a masked write with mask 0 (and a value other than all ones). |
| TxnImmediate.SameAsImmediate | driver/src/common/xaie_helper.c:1235-1642 | After any interleaving that leaves nothing pending and contains no such masked write there is an order of the operations, the threads taking turns as in the trace, every thread's operations exactly as issued and in program order, those of submitted copies at their places in the trace and nothing else, with which an immediate-mode driver reaches the same registers and the same read results. |
| TxnImmediate.ScheduleSource | driver/src/common/xaie_helper.c:1235-1642 | How that order is built: each place belongs to the same thread as in the trace and has an operation that this thread issued, or, where the trace has an operation of an exported copy and only there, that operation. |
| TxnImmediate.TimeoutKeptIff | driver/src/common/xaie_helper.c:1348-1403 | A poll keeps its timeout, in program order with what is pending, if and only if its caller has nothing pending, or its transaction flushes by itself, or the timeout is 0. |
| TxnCopy.StepLeavesCopy | driver/src/common/xaie_helper.c:800-859 | No call except its own release changes the operations a copy stands for. |
| TxnCopy.RunLeavesCopy | driver/src/common/xaie_helper.c:800-859 | The same over any run. |
| TxnCopy.ExportCopies | driver/src/common/xaie_helper.c:800-859 | Export hands out a copy that stands for what the thread has pending, and changes neither its transaction nor the registers. |
| TxnCopy.CopyReplaysExport | driver/src/common/xaie_helper.c:740-783 | Export, any calls by any threads, then submit of the copy: exactly the operations pending at export are executed, and the copy can be submitted again. |
| TxnCopy.CopyInOrderIff | driver/src/common/xaie_helper.c:757-776 | A submitted copy is executed at once and leaves what its caller has pending. With operations marked by where they come from, it is in program order behind those pending if and only if nothing is pending or the copy is empty. |
| TxnCopy.CopyInOrder | driver/src/common/xaie_helper.c:757-776 | With nothing pending the operations executed and pending are those pending followed by those of the copy. |
| TxnCopy.CopyOvertakes | driver/src/common/xaie_helper.c:757-776 | Where it does not matter who issued an operation, they still are in another order whenever the first operation pending and the first of the copy differ. |
| TxnAnswer.RunFlags | driver/src/common/xaie_helper.c:561-598 | Over any run of any threads, the open transactions of a thread flush by themselves as its starts asked for, oldest first, less one for each submit and clear; the oldest is the one operations belong to (`FlagsFound`). The cleanup ends all of them. |
| TxnAnswer.RefusedIff | driver/src/common/xaie_helper.c:740-859 | Submit, export and clear are refused if and only if the thread has no transaction, the calls on a copy if and only if it was freed or never made, start and cleanup never; a refused call changes nothing. |
| TxnAnswer.ClosedRefuses | driver/src/common/xaie_helper.c:1208-1233 | After the cleanup everything is refused but freeing copies. |
| TxnAnswer.IoRefusedIff | driver/src/common/xaie_helper.c:1270-1642 | A register access is refused if and only if it is a read or a command, its caller has operations pending, and its transaction does not flush by itself. |
| TxnAnswer.WaitsPending | driver/src/common/xaie_helper.c:1235-1642 | Which accesses wait: single writes in any transaction, blocks in one that does not flush by itself, polls and shim descriptors in such a one that holds something. These change no register and are pending last, in their buffered form. |
| TxnAnswer.CarriedOutNow | driver/src/common/xaie_helper.c:1235-1642 | Every other access that is not refused is carried out at once, behind everything its caller had pending, and leaves nothing of it pending. |
| TxnAnswer.ReadSees | driver/src/common/xaie_helper.c:1270-1309 | A read is refused if and only if its caller has operations pending and its transaction does not flush by itself. Otherwise it returns what the register holds after everything its caller had pending, and nothing of that is pending any more. |
| TxnAnswer.ShimWritesAt | driver/src/common/xaie_helper.c:1569-1642 | The words of a shim descriptor go to consecutive registers, as those of a block write do. |
| TxnDevice.TxnInst.Reserve | driver/src/common/xaie_helper.c:531-545 | There is room for one more command afterwards, and the recorded commands are the same. |
| TxnDevice.TxnInst.Push | driver/src/common/xaie_helper.c:1259-1263 | The command is added behind the recorded ones. |
| TxnDevice.Device.GetTxnInst | driver/src/common/xaie_helper.c:448-463 | Finds the oldest transaction of the thread, or none. |
| TxnDevice.Device.ExecuteCmd | driver/src/common/xaie_helper.c:613-688 | One backend operation, the one the command stands for; the payload is freed unless the transaction was exported. |
| TxnDevice.Device.FlushCmdBuf | driver/src/common/xaie_helper.c:704-725 | The commands are carried out in order, each once; an exported transaction keeps its payloads, another gives up all of them. |
| TxnDevice.Device.RemoveTxnInst | driver/src/common/xaie_helper.c:477-502 | Takes the oldest transaction of the thread off the list and no other. |
| TxnDevice.Device.StartTransaction | driver/src/common/xaie_helper.c:561-598 | Takes exactly the step of the state machine: a new, empty transaction at the end of the list. |
| TxnDevice.Device.SubmitTransaction | driver/src/common/xaie_helper.c:740-783 | Takes exactly the step of the state machine: the thread's oldest transaction is executed and removed; an error if there is none. |
| TxnDevice.Device.SubmitCopy | driver/src/common/xaie_helper.c:740-783 | Takes exactly the step of the state machine: the copy is executed and kept. |
| TxnDevice.Device.FreePayloads | driver/src/common/xaie_helper.c:1655-1661 | Frees the payload of every block write of a buffer, each once. |
| TxnDevice.Device.ClearTransaction | driver/src/common/xaie_helper.c:1644-1674 | Takes exactly the step of the state machine: the oldest transaction is dropped with its payloads, and nothing is executed. |
| TxnDevice.Device.FreeCopy | driver/src/common/xaie_helper.c:1174-1194 | Takes exactly the step of the state machine: the payloads of the copy are freed. |
| TxnDevice.Device.ResourceCleanup | driver/src/common/xaie_helper.c:1208-1233 | Takes exactly the step of the state machine: all transactions are dropped with their payloads. |
| TxnDevice.Device.CopyCommands | driver/src/common/xaie_helper.c:826-849 | The same commands, every payload copied to an allocation of its own. |
| TxnDevice.Device.TxnExport | driver/src/common/xaie_helper.c:800-859 | Takes exactly the step of the state machine: a deep copy is added, the original stays as it is. |
| TxnDevice.Device.Settle | driver/src/common/xaie_helper.c:1284-1303 | Flushes a transaction that flushes by itself; says whether an operation that cannot wait may go ahead. |
| TxnDevice.Device.SettleBlock | driver/src/common/xaie_helper.c:1423-1438 | The same for block operations, which are never buffered in a transaction that flushes by itself. |
| TxnDevice.Device.Write32 | driver/src/common/xaie_helper.c:1235-1268 | Takes exactly the step of the state machine: recorded if the thread has a transaction, else carried out. |
| TxnDevice.Device.MaskWrite32 | driver/src/common/xaie_helper.c:1311-1346 | Takes exactly the step of the state machine, likewise. |
| TxnDevice.Device.Read32 | driver/src/common/xaie_helper.c:1270-1309 | Takes exactly the step of the state machine: flushed before if the transaction flushes by itself, refused if something is pending otherwise; the value is the register's. |
| TxnDevice.Device.MaskPoll | driver/src/common/xaie_helper.c:1348-1403 | Takes exactly the step of the state machine: flushed before, recorded without its timeout, or carried out. |
| TxnDevice.Device.BlockWrite32 | driver/src/common/xaie_helper.c:1405-1466 | Takes exactly the step of the state machine: recorded with a copy of the data, or carried out after a flush. |
| TxnDevice.Device.BlockSet32 | driver/src/common/xaie_helper.c:1468-1521 | Takes exactly the step of the state machine, without a payload. |
| TxnDevice.Device.CmdWrite | driver/src/common/xaie_helper.c:1523-1567 | Takes exactly the step of the state machine: never buffered, refused behind pending commands. |
| TxnDevice.Device.ConfigShimBd | driver/src/common/xaie_helper.c:1569-1642 | Takes exactly the step of the state machine: behind pending commands the words of the descriptor are recorded one by one. |
| Bytes.NumDigits | driver/src/common/xaie_helper.c:889-899 | A number stored in k little-endian bytes reads back modulo 256^k. |
| Serializer.RecordStable | driver/src/common/xaie_helper.c:889-975 | A whole record depends on nothing in front of it or behind it. |
| Serializer.WalkExtend | driver/src/common/xaie_helper.c:1035-1137 | A walk by record sizes over a buffer goes on over a record added behind it. |
| Serializer.SizesFill | driver/src/common/xaie_helper.c:1150-1152 | The sizes met on a complete walk add up to the buffer behind the header. |
| Serializer.AppendWrite32 | driver/src/common/xaie_helper.c:889-899 | The record reads back as that write with its full 64-bit offset, and the bytes before it are kept. |
| Serializer.AppendMasked | driver/src/common/xaie_helper.c:901-927 | The records of masked writes and polls read back as these. |
| Serializer.AppendBlockWrite32 | driver/src/common/xaie_helper.c:929-943 | The record reads back as a block write of the payload; the offset keeps 32 bits. |
| Serializer.AppendBlockSet32 | driver/src/common/xaie_helper.c:945-961 | The record reads back as the block write of the repeated value. |
| Serializer.AppendCustomOp | driver/src/common/xaie_helper.c:963-975 | The record reads back as the custom operation with its bytes. |
| Serializer.Grow | driver/src/common/xaie_helper.c:1042-1049 | The buffer is doubled once, if the record does not fit, and keeps its bytes. |
| Serializer.AddRecord | driver/src/common/xaie_helper.c:1036-1137 | If the record fits after at most one doubling, the walk yields the items before it and the new one. |
| Serializer.AddRecords | driver/src/common/xaie_helper.c:1035-1137 | The loop gets to its end if and only if no record overruns the allocation, and then the walk yields one item for every command that has a record, in order. |
| Serializer.Close | driver/src/common/xaie_helper.c:1140-1152 | Trimming and filling in the counts changes nothing that the walk reads. |
| Serializer.TxnExportSerialized | driver/src/common/xaie_helper.c:1007-1155 | Outcome of the export: a write behind the allocation if and only if some record does not fit after one doubling; a reallocation of a stray pointer if and only if the total is no multiple of 4; else bytes whose header has the counts and whose records decode to the commands. An overrun is at the first record that does not fit. |
| SerializerFacts.SmallRecordsStay | driver/src/common/xaie_helper.c:1012-1049 | Records of at most 4096 bytes never overrun the allocation. |
| SerializerFacts.NextRecordStaysIff | driver/src/common/xaie_helper.c:1042-1049 | Behind records that stayed within the allocation, the next one does if and only if it fits after one doubling. |
| SerializerFacts.NextRecordStays | driver/src/common/xaie_helper.c:1042-1049 | A record that is no larger than the current allocation always does. |
| SerializerFacts.FirstRecordStaysIff | driver/src/common/xaie_helper.c:1085-1098 | A first record stays within the allocation if and only if header and record have at most 8192 bytes. |
| SerializerFacts.AllocationBound | driver/src/common/xaie_helper.c:1042-1049 | The allocation stays below twice the bytes written, or is the initial one. |
| SerializerFacts.AlignedIff | driver/src/common/xaie_helper.c:1140 | The total is a multiple of 4 if and only if the sizes of the custom payloads add up to one, which is when the final rounding does nothing. |
| SerializerFacts.CountsRecordsIff | driver/src/common/xaie_helper.c:1037 | The operation count of the header is the number of records if and only if every command has a record. |
| SerializerFacts.PlacedBytes | driver/src/common/xaie_helper.c:876-887 | The byte of a record that is called column holds the row of the tile, and the one called row the lowest bits of the register in the tile. |
| SerializerFacts.PlacedRightIff | driver/src/common/xaie_helper.c:876-887 | The first is the column if and only if row and column are equal, the second the row if and only if it equals those bits. |
| SerializerFacts.RecordActsAsCommand | driver/src/common/xaie_helper.c:889-961 | A record acts on any registers as its command does; but for blocks it is the very operation that the command stands for. |
| SerializerFacts.NearBlockIff | driver/src/common/xaie_helper.c:935 | Cutting the offset of a block to 32 bits is harmless if and only if it has no more bits, or the block is empty. |
| SerializerFacts.BufferOpsKnown | driver/src/common/xaie_helper.c:613-688 | The register operations of a buffer without custom commands are those its commands stand for. |
| SerializerFacts.ExportHasSameEffect | driver/src/common/xaie_helper.c:889-975 | Carrying out the records of an export, custom ones included, leaves any registers as executing the command buffer does. |
| SerializerFacts.ExportAndReadBack | driver/src/common/xaie_helper.c:1007-1155 | For records of at most 4096 bytes: the export yields bytes if and only if the payloads of custom commands add up to whole words; then header size and record sizes add up to their number, and decoding them and carrying them out has the effect of the command buffer on any registers. |
| ErrorBroadcast.FindNextNoCTile | driver/src/interrupt/xaie_interrupt_init.c:643-656 | Finds the first NoC column to the east, if the partition has one. |
| ErrorBroadcast.ShimRow.BlockMapDir | driver/src/events/xaie_events.c:1016-1077 | Blocks exactly the lines of the map in exactly the given directions of one switch, and unblocks nothing. |
| ErrorBroadcast.ShimRow.BlockDir | driver/src/events/xaie_events.c:926-987 | Blocks exactly one line in the given directions. |
| ErrorBroadcast.ShimRow.SetupArray | driver/src/interrupt/xaie_interrupt_init.c:793-841 | In one column, error broadcasts of every clocked tile are blocked in all directions but south, in both modules of AIE tiles and both switches of memory tiles, and nothing else is blocked. |
| ErrorBroadcast.ShimRow.SetupL1 | driver/src/interrupt/xaie_interrupt_init.c:849-894 | Broadcasts of the array do not pass the L1 controllers of a column; they raise interrupts there, and so do the errors of the shim tile, in switch A. |
| ErrorBroadcast.ShimRow.SetupColumn | driver/src/interrupt/xaie_interrupt_init.c:895-996 | What the setup of one column adds to blocks, line numbers and L2 enables of the shim row. |
| ErrorBroadcast.ShimRow.ErrorHandlingInit | driver/src/interrupt/xaie_interrupt_init.c:768-1003 | After the loop every column has the array blocks, L1 enables, shim blocks, line numbers and L2 enables meant for it. Over these registers every interrupt of an L1 controller reaches exactly the L2 controller meant for its column, on a channel of its own, on AIE-ML always, and on AIE if and only if the number of columns is 2 modulo 4. |
| ErrorBroadcast.ShimRow.RoutedIff | driver/src/interrupt/xaie_interrupt_init.c:842-996 | The same, for any registers set up in this way. |
| ErrorBroadcast.ShimRow.StaysInRow | driver/src/interrupt/xaie_interrupt_init.c:895-996 | A switch blocks its own line to the north and to the south, if an L2 controller has that line. |
| ErrorBroadcast.ShimRow.GoesSouth | driver/src/interrupt/xaie_interrupt_init.c:793-841 | After setup an error broadcast can only run straight down: after any number of hops over programmed switches it is that many rows further south, in the same column and lane. |
| ErrorBroadcast.ShimRow.RaisesIff | driver/src/interrupt/xaie_interrupt_init.c:793-894 | It raises the L1 interrupt of the switch its lane ends in, and no other, if and only if every tile of the column below it is clocked. |
| ErrorBroadcast.ShimRow.InterruptsIff | driver/src/interrupt/xaie_interrupt_init.c:768-996 | From a tile to an L2 controller, where the routing is right: the error broadcast of a clocked tile interrupts the L2 controller meant for its column, and no other, if and only if every tile below it is clocked. |
| ErrorBroadcast.Confined | driver/src/events/xaie_events.c:926-987 | An event never leaves an interval of switches whose ends block its line. |
| ErrorBroadcast.MlDelivers | driver/src/interrupt/xaie_interrupt_init.c:842-996 | AIE-ML: an L2 controller sees the interrupt of an L1 controller if and only if it is the one meant for its column. |
| ErrorBroadcast.MlRoutes | driver/src/interrupt/xaie_interrupt_aieml.c:48-73 | AIE-ML, at least 3 columns: line numbers are in 0..5, sources of one L2 controller use different lines, and every interrupt reaches exactly one L2 controller. |
| ErrorBroadcast.AieRoutesIff | driver/src/interrupt/xaie_interrupt_aie.c:48-58 | AIE, at least 3 columns: lines are in range and distinct if and only if the number of columns is 2 modulo 4, and then every interrupt reaches exactly one L2 controller. |
| ErrorBroadcast.AieFails | driver/src/interrupt/xaie_interrupt_aie.c:48-58 | For any other number of columns a line is out of range or used twice. |
| ErrorBroadcast.MapsBackIff | driver/src/lite/xaie_lite_shim_aie.h:93-108 | The mapping from L2 status bits back to L1 controllers inverts the line numbers if and only if the number of columns is 2 modulo 4, on both generations. |
| BacktrackSpec.ReportedTrans | driver/src/interrupt/xaie_interrupt_backtrack.c:624-685 | Reports of consecutive scans add up to one report without repetition. |
| BacktrackSpec.ShimStopped | driver/src/interrupt/xaie_interrupt_backtrack.c:510-520 | Stopping in the shim tile loses no error: all that remain will be found from where the scan stopped. |
| BacktrackSpec.ArrayStopped | driver/src/interrupt/xaie_interrupt_backtrack.c:522-585 | Nor does stopping in a memory or array tile. |
| BacktrackSpec.L1Done | driver/src/interrupt/xaie_interrupt_backtrack.c:501-588 | A finished scan below an L1 controller leaves nothing behind its channel. |
| BacktrackSpec.DisabledReady | driver/src/interrupt/xaie_interrupt_control.c:109-134 | Disabling the raised channels makes every signalled error reachable for the backtrack. |
| Backtrack.RefusedIff | driver/src/interrupt/xaie_interrupt_backtrack.c:626-637 | Those arguments, column by column; the range of all columns of the device is never among them. |
| Backtrack.EventOf | driver/src/lite/xaie_lite_regdef_aieml.h:43-104 | The event of each error: from 48 on in core modules, 87 in memory modules, 129 in memory tiles, 64 in AIE-ML and 62 in AIE interface tiles, bit by bit. |
| Backtrack.ScansWhatIsRouted | driver/src/interrupt/xaie_interrupt_backtrack.c:522-586 | The scan looks in exactly those array tiles whose error broadcasts the setup routes to the L1 controllers, in the module of their lane. |
| Backtrack.Backtracker.BacktrackTile | driver/src/interrupt/xaie_interrupt_backtrack.c:428-484 | Reports the active, enabled errors of one module in ascending order, each once, and masks exactly those; stops exactly when the buffer is full; clears the group event only if all were seen. |
| Backtrack.Backtracker.BacktrackMemTiles | driver/src/interrupt/xaie_interrupt_backtrack.c:530-549 | Scans the memory tiles of a column to the end, or stops in one with an error found there. |
| Backtrack.Backtracker.BacktrackAieTiles | driver/src/interrupt/xaie_interrupt_backtrack.c:551-586 | Scans array tiles upwards until the broadcast ends. |
| Backtrack.Backtracker.BacktrackShim | driver/src/interrupt/xaie_interrupt_backtrack.c:510-520 | Scans the shim tile's own errors and acknowledges them. |
| Backtrack.Backtracker.BacktrackIntrCtrlL1 | driver/src/interrupt/xaie_interrupt_backtrack.c:501-588 | Every remaining error below the L1 controller is reported once, or the buffer is full and the rest is still to be found. |
| Backtrack.Backtracker.ScanChannels | driver/src/interrupt/xaie_interrupt_backtrack.c:664-676 | Scans the disabled channels of one L2 controller in ascending order. |
| Backtrack.Backtracker.BacktrackL2 | driver/src/interrupt/xaie_interrupt_backtrack.c:651-679 | Enables again the channels that were finished, in full or up to where the scan stopped. |
| Backtrack.Backtracker.BacktrackErrorInterrupts | driver/src/interrupt/xaie_interrupt_backtrack.c:624-685 | One call. Compiled with checks of its arguments it refuses exactly the partitions with more columns than the device, empty buffers, and ranges that are empty or have a column the device does not have. Otherwise nothing is stored beyond the buffer; OK means no error of the range remains and its channels are enabled; INSUFFICIENT means the buffer is exactly full, the channels before the one it stopped at are enabled and those from it on still disabled, and the next call can go on. |
| Backtrack.Backtracker.DisableErrorInterrupts | driver/src/interrupt/xaie_interrupt_control.c:109-134 | Disables and acknowledges exactly the raised channels of the NoC columns in range. |
| Backtrack.Backtracker.HandleErrorInterrupts | driver/src/interrupt/xaie_interrupt_backtrack.c:624-685 | Disable, then backtrack with any buffer sizes of at least 1: the payloads the caller is given over all calls are, in order, the entries of the errors found; these are exactly the errors enabled and active at the start, without repetition; exactly their enables are cleared, all channels in range are enabled at the end, and with buffers of size k there are at most n/k + 1 calls for n payloads. |
| Bits.LowMask | driver/src/interrupt/xaie_interrupt_init.c:940-953 | A mask (1 << n) - 1, as the setup writes it, selects the lines below n. |
| Bits.ClearLowest | driver/src/common/xaie_helper.h:78-82 | v & (v - 1) has the bits of v except the lowest one. |
| Bits.FirstSetBit | driver/src/common/xaie_helper.h:149-162 | One-based position of the lowest set bit, 0 if there is none. |
| Bits.ForEachSetBit | driver/src/common/xaie_helper.h:78-82 | Visits exactly the set bits below the limit, each once, in ascending order, and ends because the value gets smaller. |
| Bits.SetBitInBitmap | driver/src/common/xaie_helper.c:380-387 | Membership, as CheckBit reads it, afterwards is membership before or in the interval. |
| Bits.CheckBitIs | driver/src/common/xaie_helper.c:380-387 | Position 32 * w + i of a bitmap is bit i of word w, counted from the lowest one. |
| Bits.ClrBitInBitmap | driver/src/common/xaie_helper.c:403-409 | Membership afterwards is membership before and not in the interval. |
| Clock.BitOfTile | driver/src/common/xaie_helper.c:361-364 | Every tile with row at least 1 has a bit of the bitmap that leads back to it. |
| Clock.TileOfBitIs | driver/src/common/xaie_helper.c:361-364 | Every bit of the bitmap is the bit of such a tile. |
| Clock.AieClocks.constructor | driver/src/device/xaie_device_aie.c:371-515 | After reset no tile is in use and no column is clocked. |
| Clock.AieClocks.GateTiles | driver/src/device/xaie_device_aie.c:371-388 | Closes exactly the gates of tiles above the given row in one column. |
| Clock.AieClocks.UngateTiles | driver/src/device/xaie_device_aie.c:404-423 | Opens exactly the gates of the given rows. |
| Clock.AieClocks.Topmost | driver/src/device/xaie_device_aie.c:466-491 | Finds the topmost tile in use, 0 for none. |
| Clock.AieClocks.RequestTile | driver/src/device/xaie_device_aie.c:455-512 | A tile above all tiles in use of its column raises the column to its row; bits, column buffer and gates of all columns are as the heights say. |
| Clock.AieClocks.ClockedIffInUse | driver/src/device/xaie_device_aie.c:437-515 | In every reachable state, after requests of tiles and of all tiles, a tile has its bit set if and only if it is not above the used height of its column, and is clocked if and only if it is not above the clocked height. |
| Clock.AieClocks.RequestTiles | driver/src/device/xaie_device_aie.c:437-515 | Columns end as one request after the other leaves them, from any reachable state, and no tile loses its clock. |
| Clock.AieClocks.RequestAllTiles | driver/src/device/xaie_device_aie.c:441-453 | The request for all tiles, in any reachable state: every tile is in use, and the clocked height of a column becomes the full one if the column was unused and stays as it was otherwise. |
| Clock.AieClocks.PmRequestTiles | driver/src/pm/xaie_clock.c:50-85 | Exactly the invalid requests are refused, without a change; the others serve the listed tiles, or all of them, in any reachable state. |
| Clock.PartialThenAll | driver/src/device/xaie_device_aie.c:441-453 | A tile requested first and all tiles afterwards: the tile above the first is marked as in use and not clocked. |
| Clock.RaisedIs | driver/src/device/xaie_device_aie.c:455-512 | The used height of a column after a list of tiles is the maximum of its old height and its highest requested row, and the clocked height follows it if it grows. |
| Clock.SameTilesSameHeights | driver/src/device/xaie_device_aie.c:455-512 | Two lists of the same set of tiles lead to the same heights. |
| Clock.RequestsCommute | driver/src/device/xaie_device_aie.c:455-512 | Requests commute, and asking again changes nothing. |
| Clock.ColumnServed | driver/src/device/xaie_device_aie.c:437-515 | Over any list of requests of tiles and of all tiles, each column ends as its own requests leave it. |
| Clock.AfterIs | driver/src/device/xaie_device_aie.c:437-515 | After any list of requests from reset, in closed form: used and clocked heights are the highest row requested, unless all tiles were requested; then the used height is the full one and the clocked height what was requested before, or full if nothing was. |
| Clock.InStepIff | driver/src/device/xaie_device_aie.c:437-515 | The tiles in use of a column are those clocked if and only if the first request of all tiles, if there was one, found the column untouched or complete. |
| Clock.AieMlClocks.RequestTiles | driver/src/device/xaie_device_aieml.c:293-350 | AIE-ML: exactly the columns with a requested tile above the shim row are switched on, and a column is in use if and only if it is. |
| Clock.AieMlClocks.RequestAllTiles | driver/src/device/xaie_device_aieml.c:293-350 | All columns are switched on and in use. |
| DataMem.DataMemory.DataMemBlockWrite | driver/src/memory/xaie_mem.c:152-243 | Exactly the given bytes of one tile's memory are replaced, at any alignment; nothing is written if the tile has no data memory or the range exceeds it. The register accesses it makes contain a masked write with mask 0 if and only if the write is empty and its address unaligned. |
| DataMem.DeferredWrite | driver/src/memory/xaie_mem.c:195-212 | Executed later, from a transaction, these accesses leave the same memory, except that an empty write at an unaligned address clears the word there. |
| DataMem.DeferredIff | driver/src/memory/xaie_mem.c:195-212 | So a deferred write stores exactly its bytes if and only if it is not empty, or its address is aligned, or the word there is 0 already. |
| ElfLoader.HomesApart | driver/src/core/xaie_elfloader.c:124-201 | Addresses of the four windows that have a home have different ones, in both layouts. |
| ElfLoader.SouthWindow | driver/src/core/xaie_elfloader.c:145-149 | Addresses of the first window of data memory go to the tile below the core, if that is an AIE tile, at their offset in the window, and nowhere otherwise. |
| ElfLoader.WestWindow | driver/src/core/xaie_elfloader.c:150-158 | Those of the second to the tile to the west, or to the core's own in even rows of a checkerboard. |
| ElfLoader.NorthWindow | driver/src/core/xaie_elfloader.c:159-162 | Those of the third to the tile above, if that is an AIE tile. |
| ElfLoader.EastWindow | driver/src/core/xaie_elfloader.c:163-172 | Those of the fourth to the tile to the east in even rows of a checkerboard, else to the core's own. |
| ElfLoader.NoWindow | driver/src/core/xaie_elfloader.c:173-176 | All others up to 256 windows have no tile. |
| ElfLoader.RejectedIff | driver/src/core/xaie_elfloader.c:280-288 | A section that ends in the address space is refused if and only if it starts between program and data memory or has an address behind the four windows. |
| ElfLoader.RejectedWrapped | driver/src/core/xaie_elfloader.c:280-288 | One that wraps around is refused if and only if it starts there, or what is left of it at the beginning of the address space reaches behind the windows. |
| ElfLoader.WindowHomes | driver/src/core/xaie_elfloader.c:309-357 | Addresses of one window share a tile and have consecutive offsets. |
| ElfLoader.ChunkIsBytes | driver/src/core/xaie_elfloader.c:309-357 | Copying a chunk that stays in one window is copying its bytes one by one. |
| ElfLoader.Loader.CopyChunk | driver/src/core/xaie_elfloader.c:309-357 | A chunk never crosses a window and continues the byte-by-byte copy; if it fails, nothing is written and the section does not fit. |
| ElfLoader.Loader.LoadDataMemSection | driver/src/core/xaie_elfloader.c:266-364 | A section is loaded if and only if it is accepted and each of its bytes has a home, and then memory is as after a byte-by-byte copy; otherwise exactly a front part of it was copied. |
| ElfLoader.LoadedAt | driver/src/core/xaie_elfloader.c:309-357 | After a load every byte is in its own home. |
| ElfLoader.LoadedIn | driver/src/core/xaie_elfloader.c:124-201 | That is, by address: in the tile to the south, west, north or east of the core, or in its own. |
| ElfLoader.LoadedElsewhere | driver/src/core/xaie_elfloader.c:309-357 | And no other byte has changed. |
| ElfLoader.StandardIff | driver/src/core/xaie_elfloader.c:293-307 | The loaded bytes are those of the TIS ELF Specification 1.2 (Book I, part 2, "Program Header"), whatever follows the section in the file, if and only if p_filesz is 0 or equals p_memsz. |
| BdFields.FitsIff | driver/src/global/xaiegbl_defs.h:64-65 | Setting a field and getting it back is harmless if and only if the value has no bits outside the field. |
| BdFields.FitsBelow | driver/src/global/xaiegbl_defs.h:64-65 | For a contiguous field of n bits these are the values below 2^n. |
| BdFields.FieldHolds | driver/src/global/xaiegbl_defs.h:64-65 | A contiguous field of n bits holds the value modulo 2^n. |
| DmaBd.PackGet | driver/src/dma/xaie_dma_aieml.c:284-383 | In a packed word each field reads as if it had been stored alone. |
| DmaBd.ReadAfterWrite | driver/src/dma/xaie_dma_aieml.c:266-1067 | Unpacking, by the reading routine's table, what was packed by the writing routine's gives every field that is read, and keeps all others, for any two tables that agree on the places, any layout with separate fields and any values that fit. |
| DmaModule.DescriptorsKept | driver/src/dma/xaie_dma_aieml.c:266-389 | If only registers of one descriptor changed, every other descriptor has its words, as the stride covers them. |
| DmaUpdate.FieldUpdate | driver/src/dma/xaie_dma_aieml.c:1242-1256 | A masked write of one field gives the word that packing the changed descriptor gives. |
| DmaUpdate.AloneUpdate | driver/src/dma/xaie_dma_aieml.c:1274-1290 | If the field is alone in its register, so does a whole write. |
| DmaUpdate.LengthBackIff | driver/src/dma/xaie_dma.c:337-339 | The length that a field holds, in bytes, is the one set, rounded down to words, if and only if it is at least the offset and not too long for the field. |
| DmaUpdate.LockValueBackIff | driver/src/dma/xaie_dma_aieml.c:529-531 | A lock value comes back from its 7-bit field if and only if it is not negative. |
| DmaUpdate.LowHalf | driver/src/dma/xaie_dma_aieml.c:824-827 | Bits of the high half that are shifted into the low part do not reach the register. |
| DmaUpdate.JoinBackIff | driver/src/dma/xaie_dma_aieml.c:968-975 | The two parts of an address join to the address if and only if the low bits that are not stored are zero. |
| DmaUpdate.UnshiftedIff | driver/src/dma/xaie_dma_aie.c:1001-1005 | Storing the low half in the high part is right if and only if the two agree in the bits of the part. |
| DmaModule.Dma.WriteBd | driver/src/dma/xaie_dma.c:799-822 | The descriptor's registers hold the software descriptor, every other register is kept, and an invalid number changes nothing. |
| DmaModule.Dma.MemTileWriteBd | driver/src/dma/xaie_dma_aieml.c:266-389 | Likewise for a memory tile, which refuses exactly the descriptors that break the padding rules. |
| DmaModule.CheckPaddingConfig | driver/src/dma/xaie_dma_aieml.c:215-246 | Accepts exactly the descriptors that follow the documented rules; the first dimension that does not decides on the error. |
| DmaModule.Dma.ReadBd | driver/src/dma/xaie_dma.c:840-868 | The descriptor unpacked from the registers by the reading routine's table, starting from a cleared one. |
| DmaModule.Dma.WriteThenRead | driver/src/dma/xaie_dma_aieml.c:565-785 | If the values fit their fields and the two routines' tables agree, every field of the software descriptor that the hardware has a place for comes back, and all others are zero. |
| DmaModule.Dma.ShimWriteBd | driver/src/dma/xaie_dma_aieml.c:804-922 | The same for an interface tile, with the address in two parts. |
| DmaModule.Dma.ShimWriteThenRead | driver/src/dma/xaie_dma_aieml.c:804-1067 | Likewise for an interface tile; the 64-bit address comes back if and only if its low bits that are not stored are zero. |
| DmaModule.Dma.UpdateBdLen | driver/src/dma/xaie_dma_aieml.c:1242-1256 | Whatever descriptor the registers held, they now hold it with the length changed; every bit outside the length field is kept. |
| DmaModule.Dma.UpdateBdAddr | driver/src/dma/xaie_dma_aieml.c:1308-1323 | The same for the address; exactly the misaligned addresses and those out of range are refused. The register holds the address given if and only if its field is wide enough for it. |
| DmaModule.Dma.ShimUpdateBdLen | driver/src/dma/xaie_dma_aieml.c:1274-1290 | The same for the length of an interface tile's descriptor. |
| DmaModule.Dma.ShimUpdateBdAddr | driver/src/dma/xaie_dma_aieml.c:1341-1372 | The same for both parts of its address. |
| DmaModule.Dma.AieShimUpdateBdAddr | driver/src/dma/xaie_dma_aie.c:975-1006 | The registers hold the descriptor with the low half of the address in both parts. |
| DmaModule.AieShimUpdateRightIff | driver/src/dma/xaie_dma_aie.c:975-1006 | That is the intended descriptor if and only if low and high half of the address agree in the bits of the high part. |
| DmaModule.Dma.GetBdLen | driver/src/dma/xaie_dma.c:1432-1487 | For the descriptor the registers hold: its length in bytes if it is valid, else 0. |
| DmaModule.Dma.SetWriteGetLen | driver/src/dma/xaie_dma.c:320-348 | Setting a length, writing a valid descriptor and getting the length gives it rounded down to words if and only if it is at least the offset and not too long; 0 for a descriptor that is not valid. Exactly the addresses refused by `AcceptedIff` fail, and the register holds the address given if and only if its field is wide enough for it. |
| DmaModule.AcceptedIff | driver/src/dma/xaie_dma.c:331-335 | Accepted are exactly the multiples of the alignment, if they and all bytes from there on lie within the limit. |
| DmaModule.AddressSet | driver/src/dma/xaie_dma.c:337 | The address in the descriptor, shifted back, is the address given. |
| DmaModule.AddressHeldIff | driver/src/dma/xaie_dma.c:337-339 | A written descriptor's address field, shifted back, is the address given if and only if the field is wide enough. |
| DmaModule.HeldEntry | driver/src/dma/xaie_dma_aieml.c:284-383 | Every field of a written descriptor reads as the descriptor's field it is filled from, or that minus one, modulo its width. |
| DmaTables.MemTileFields | driver/src/dma/xaie_dma_aieml.c:285-383 | In the memory tile's table length, address and valid bit have one place each, so the updates apply. |
| DmaTables.TileFields | driver/src/dma/xaie_dma_aieml.c:581-654 | The same for the AIE-ML tile. |
| DmaTables.ShimFields | driver/src/dma/xaie_dma_aieml.c:820-908 | In the AIE-ML interface tile's table length and low address are alone in their registers. |
| DmaTables.AieTileFields | driver/src/dma/xaie_dma_aie.c:452-562 | As for the AIE-ML tile. |
| DmaTables.AieShimFields | driver/src/dma/xaie_dma_aie.c:230-293 | As for the AIE-ML interface tile. |
| DmaTables.TablesAgree | driver/src/dma/xaie_dma_aieml.c:407-1067 | On all five kinds of tile the reading routine takes each field, in an order of its own, from the word and the bits it was written to and with the same offset, and reads nothing else. |
| DmaLayouts.EntriesAre | driver/src/dma/xaie_dma_aieml.c:285-908 | The tables of the writing routines against the register tables: a word is made of exactly the fields that lie in it, each from the descriptor's field of that name and less one where it is stored so; the Y wrap of AIE tiles is the one exception. |
| DmaLayouts.KindSound | driver/src/global/xaiemlgbl_reginit.c:198-930 | On all five kinds of tile the fields of a word share no bit, the words lie within the stride, and the fields that are updated one by one are in the word the register table gives them. |
| DmaLayouts.KindFields | driver/src/global/xaiemlgbl_reginit.c:330-850 | So what is proved for any layout holds for each of them. |
| DmaLayouts.DescriptorAt | driver/src/global/xaiemlgbl_reginit.c:414-896 | Where each descriptor of a DMA begins. |
| DmaLayouts.FieldHeld | driver/src/global/xaiemlgbl_reginit.c:198-848 | Every field of a written descriptor is in the word and the bits of the register table: the acquire lock in the acquire lock field, step sizes less one, and so on. |
| DmaLayouts.WrittenIff | driver/src/global/xaiemlgbl_reginit.c:198-848 | And nothing of the descriptor is written that the kind of tile has no field for. |
| DmaLayouts.TileAddressKeptIff | driver/src/global/xaiemlgbl_reginit.c:330-562 | Every accepted address reaches the registers of a memory tile; those of AIE-ML tiles below 64 KiB and those of AIE tiles below 32 KiB, and no others. |
| DmaLayouts.CutAddresses | driver/src/global/xaiemlgbl_reginit.c:559-562 | The other two accept addresses up to twice that, which are cut. |
| DmaLayouts.ShimAddressRegisters | driver/src/dma/xaie_dma_aieml.c:824-832 | The two address registers of an interface tile hold the low half of the address, without the bits below the field, and 16 bits of the high half. |
| DmaLayouts.ShimAddressFits | driver/src/global/xaiemlgbl_reginit.c:806-812 | These are enough for every accepted address but that of an empty buffer behind the address space. |
| DmaTables.YWrapLost | driver/src/dma/xaie_dma_aie.c:513-521 | The Y wrap of a software descriptor reaches no register of an AIE tile. |
| DmaTables.YWrapRightIff | driver/src/dma/xaie_dma_aie.c:513-521 | The Y wrap register is therefore right if and only if X wrap and Y wrap are equal. |

## Left out

- Transactions: custom operations have no place in the state machine, since the code shares their payloads on export and keeps them on execution; they occur in the serializer only.
- Transactions: failing allocations and failing backend operations; a buffer of no commands is allocated like any other.
- Transactions: backends with a submit operation of their own, and the Linux opcode for shim descriptors; the descriptor's words are recorded as writes, as for the other backends.
- Transactions: of the flags of a started transaction only the automatic flush; after the cleanup the device is closed, and a freed copy is not used again.
- Transactions: concurrency within one call; the code has no locks, so a call is one atomic step.
- Transactions: array commands and the other backend operations have no effect on the modelled registers.
- Serializer.TxnExportSerialized: exports of more than 2 GiB of records, where the 32-bit sizes wrap.
- ErrorBroadcast: how the switches of the array are wired is a property of the hardware; the model takes two lanes per column, as the backtrack scans them (core modules under switch A, memory modules under switch B, both switches of memory tiles).
- ErrorBroadcast: the group and event halting setup behind the loop, the reservation of broadcast channels, and partitions that do not start at a multiple of four columns.
- Backtrack: partitions start at column 0 and their number of columns is 2 modulo 4, which the mapping from L2 to L1 needs (`MapsBackIff`); no new errors are raised between the calls, and the events of groups, broadcasts and errors are different ones.
- Clock: partitions are reset before the first request, with column buffers off and gates open.
- ElfLoader: program memory sections, reading files, stack and map parsing, and ECC switches.
- DataMemory: masks of masked writes are per byte, which is all the code uses.
- ElfLoader.Loader.LoadDataMemSection: a section whose p_filesz is neither 0 nor p_memsz is read past its bytes in the file; the file must have p_memsz bytes from there on.
- Dma: channels, queues, and the setters of single descriptor fields other than address and length.
- DmaModule.Dma.WriteThenRead: values that do not fit their fields are cut and do not come back; `FitsIff` says which.
- Streams, events other than broadcasts and their numbering, performance counters, resource management and the lite status functions: single register writes behind argument checks.
