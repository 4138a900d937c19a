/** Loading a section of an ELF file into data memory. A core sees the memories of its four
    neighbours as four windows of its address space; the loader copies window by window. */
module ElfLoader {
  import opened Arithmetic
  import opened Bytes
  import opened DataMem
  import opened Wrappers

  /** The core module and the array. `aieStart` to `aieEnd` - 1 are the rows of AIE tiles. */
  datatype Core = Core(numCols: nat, numRows: nat, aieStart: nat, aieEnd: nat, checkerBoard: bool,
                       progMemSize: nat, dataMemAddr: nat, dataMemSize: nat)

  predicate ValidCore(core: Core) {
    && 0 < core.numCols < 256 && 0 < core.numRows < 256 && core.aieStart <= core.aieEnd <= core.numRows
    && (core.dataMemSize == 0x8000 || core.dataMemSize == 0x10000)
    && core.dataMemAddr == 4 * core.dataMemSize && core.progMemSize < core.dataMemSize
  }

  type Loc = (nat, nat)

  predicate IsAieTile(core: Core, loc: Loc) {
    loc.0 < core.numCols && core.aieStart <= loc.1 < core.aieEnd
  }

  /** The tile whose memory holds an address, seen from the core at `loc`. The window number
      and the coordinates are 8-bit values. */
  function GetTargetTileLoc(core: Core, loc: Loc, addr: nat): Option<Loc>
    requires ValidCore(core)
  {
    var cardDir := addr / core.dataMemSize % 256;
    var rowParity := if core.checkerBoard then loc.1 % 2 else 1;
    var (col, row) := loc;
    if cardDir < 4 || cardDir > 7 then None
    else
      var tgt :=
        if cardDir == 4 then (col, (row + 255) % 256)
        else if cardDir == 5 then (if rowParity == 1 then ((col + 255) % 256, row) else (col, row))
        else if cardDir == 6 then (col, (row + 1) % 256)
        else (if rowParity == 0 then ((col + 1) % 256, row) else (col, row));
      if tgt.1 >= core.numRows || tgt.0 >= core.numCols || !IsAieTile(core, tgt) then None else Some(tgt)
  }

  /** Where one byte of the core's address space goes: the tile and the offset in it. */
  function Home(core: Core, loc: Loc, addr: nat): Option<(Loc, nat)>
    requires ValidCore(core)
  {
    var tgt := GetTargetTileLoc(core, loc, addr);
    if tgt.None? then None else Some((tgt.value, addr % core.dataMemSize))
  }

  /** Addresses of data memory that have a home have different homes. */
  lemma HomesApart(core: Core, loc: Loc, a: nat, b: nat)
    requires ValidCore(core) && IsAieTile(core, loc)
    requires core.dataMemAddr <= a < b < 2 * core.dataMemAddr
    requires Home(core, loc, a).Some? && Home(core, loc, b).Some?
    ensures Home(core, loc, a) != Home(core, loc, b)
  {
  }

  lemma WindowOf(core: Core, w: nat, addr: nat)
    requires ValidCore(core) && core.dataMemAddr + w * core.dataMemSize <= addr
    requires addr < core.dataMemAddr + (w + 1) * core.dataMemSize
    ensures addr / core.dataMemSize == w + 4
    ensures addr % core.dataMemSize == addr - core.dataMemAddr - w * core.dataMemSize
  {
    DivideIs(addr, core.dataMemSize, w + 4, addr - core.dataMemAddr - w * core.dataMemSize);
  }

  /** The first window of data memory is the tile to the south of the core ... */
  lemma SouthWindow(core: Core, loc: Loc, addr: nat)
    requires ValidCore(core) && IsAieTile(core, loc)
    requires core.dataMemAddr <= addr < core.dataMemAddr + core.dataMemSize
    ensures Home(core, loc, addr) ==
      if loc.1 > 0 && IsAieTile(core, (loc.0, loc.1 - 1)) then Some(((loc.0, loc.1 - 1), addr - core.dataMemAddr))
      else None
  {
    WindowOf(core, 0, addr);
  }

  /** ... the second the tile to the west, or the core's own in even rows of a checkerboard ... */
  lemma WestWindow(core: Core, loc: Loc, addr: nat)
    requires ValidCore(core) && IsAieTile(core, loc)
    requires core.dataMemAddr + core.dataMemSize <= addr < core.dataMemAddr + 2 * core.dataMemSize
    ensures var own, off: nat := core.checkerBoard && loc.1 % 2 == 0, addr - core.dataMemAddr - core.dataMemSize;
      && (own ==> Home(core, loc, addr) == Some((loc, off)))
      && (!own && loc.0 > 0 ==> Home(core, loc, addr) == Some(((loc.0 - 1, loc.1), off)))
      && (!own && loc.0 == 0 ==> Home(core, loc, addr) == None)
  {
    WindowOf(core, 1, addr);
  }

  /** ... the third the tile to the north ... */
  lemma NorthWindow(core: Core, loc: Loc, addr: nat)
    requires ValidCore(core) && IsAieTile(core, loc)
    requires core.dataMemAddr + 2 * core.dataMemSize <= addr < core.dataMemAddr + 3 * core.dataMemSize
    ensures Home(core, loc, addr) ==
      if IsAieTile(core, (loc.0, loc.1 + 1))
      then Some(((loc.0, loc.1 + 1), addr - core.dataMemAddr - 2 * core.dataMemSize)) else None
  {
    WindowOf(core, 2, addr);
  }

  /** ... and the fourth the tile to the east in even rows of a checkerboard, else the core's
      own. */
  lemma EastWindow(core: Core, loc: Loc, addr: nat)
    requires ValidCore(core) && IsAieTile(core, loc)
    requires core.dataMemAddr + 3 * core.dataMemSize <= addr < core.dataMemAddr + 4 * core.dataMemSize
    ensures var own, off: nat := !core.checkerBoard || loc.1 % 2 == 1, addr - core.dataMemAddr - 3 * core.dataMemSize;
      && (own ==> Home(core, loc, addr) == Some((loc, off)))
      && (!own && loc.0 + 1 < core.numCols ==> Home(core, loc, addr) == Some(((loc.0 + 1, loc.1), off)))
      && (!own && loc.0 + 1 == core.numCols ==> Home(core, loc, addr) == None)
  {
    WindowOf(core, 3, addr);
  }

  /** Addresses next to the four windows, up to 256 windows, have no home. */
  lemma NoWindow(core: Core, loc: Loc, addr: nat)
    requires ValidCore(core) && addr < 256 * core.dataMemSize
    requires addr < core.dataMemAddr || 2 * core.dataMemAddr <= addr
    ensures Home(core, loc, addr) == None
  {
    var q, r := addr / core.dataMemSize, addr % core.dataMemSize;
    assert addr == q * core.dataMemSize + r;
  }

  // ---------------------------------------------------------------- byte by byte

  /** The address of byte `i` of a section; addresses are 32-bit values. */
  function AddrOf(paddr: nat, i: nat): nat {
    (paddr + i) % U32
  }

  ghost predicate AllHomes(core: Core, loc: Loc, paddr: nat, n: nat)
    requires ValidCore(core)
  {
    forall i: nat | i < n :: Home(core, loc, AddrOf(paddr, i)).Some?
  }

  function StoreByte(m: TileMem, home: (Loc, nat), b: u8): TileMem {
    var cell := Cell(home.0.0, home.0.1, home.1 / 4);
    m[cell := Load(m, cell)[home.1 % 4 := b]]
  }

  /** The reference: one byte after the other, each to its home. */
  ghost function PerByte(core: Core, loc: Loc, m: TileMem, paddr: nat, data: seq<u8>): TileMem
    requires ValidCore(core) && AllHomes(core, loc, paddr, |data|)
  {
    if data == [] then m
    else
      var n := |data| - 1;
      StoreByte(PerByte(core, loc, m, paddr, data[..n]), Home(core, loc, AddrOf(paddr, n)).value, data[n])
  }

  ghost predicate SameBytes(m: TileMem, m': TileMem) {
    forall c: nat, r: nat, off: nat :: ByteAt(m, c, r, off) == ByteAt(m', c, r, off)
  }

  lemma StoredByte(m: TileMem, home: (Loc, nat), b: u8, c: nat, r: nat, off: nat)
    ensures ByteAt(StoreByte(m, home, b), c, r, off) == if home == ((c, r), off) then b else ByteAt(m, c, r, off)
  {
  }

  /** Bytes `k` to `k + n` - 1 lie in one tile, one after the other from offset `off` on. */
  ghost predicate InTile(core: Core, loc: Loc, paddr: nat, k: nat, n: nat, tgt: Loc, off: nat)
    requires ValidCore(core)
  {
    forall i: nat | k <= i < k + n :: Home(core, loc, AddrOf(paddr, i)) == Some((tgt, off + i - k))
  }

  lemma LastByte(core: Core, loc: Loc, m: TileMem, paddr: nat, data: seq<u8>, k: nat, c: nat,
      r: nat, o: nat)
    requires ValidCore(core) && k < |data| && AllHomes(core, loc, paddr, k + 1)
    ensures ByteAt(PerByte(core, loc, m, paddr, data[..k + 1]), c, r, o) ==
      if Home(core, loc, AddrOf(paddr, k)) == Some(((c, r), o)) then data[k]
      else ByteAt(PerByte(core, loc, m, paddr, data[..k]), c, r, o)
  {
    assert data[..k + 1][..k] == data[..k];
    StoredByte(PerByte(core, loc, m, paddr, data[..k]), Home(core, loc, AddrOf(paddr, k)).value, data[k], c, r, o);
  }

  lemma {:induction false} BytesOfChunk(core: Core, loc: Loc, m: TileMem, paddr: nat, data: seq<u8>,
      k: nat, n: nat, tgt: Loc, off: nat, c: nat, r: nat, o: nat)
    requires ValidCore(core) && k + n <= |data| && AllHomes(core, loc, paddr, k + n)
    requires InTile(core, loc, paddr, k, n, tgt, off)
    ensures ByteAt(PerByte(core, loc, m, paddr, data[..k + n]), c, r, o) ==
      if c == tgt.0 && r == tgt.1 && off <= o < off + n then data[k + o - off]
      else ByteAt(PerByte(core, loc, m, paddr, data[..k]), c, r, o)
  {
    hide PerByte, ByteAt, GetTargetTileLoc, Home;
    if n > 0 {
      var last := k + n - 1;
      BytesOfChunk(core, loc, m, paddr, data, k, n - 1, tgt, off, c, r, o);
      assert Home(core, loc, AddrOf(paddr, last)) == Some((tgt, off + n - 1));
      LastByte(core, loc, m, paddr, data, last, c, r, o);
    }
  }

  /** Copying a chunk that stays in one tile is copying its bytes. */
  lemma ChunkIsBytes(core: Core, loc: Loc, m: TileMem, m1: TileMem, m2: TileMem, paddr: nat, data: seq<u8>,
      k: nat, n: nat, tgt: Loc, off: nat)
    requires ValidCore(core) && k + n <= |data| && AllHomes(core, loc, paddr, k + n)
    requires InTile(core, loc, paddr, k, n, tgt, off)
    requires SameBytes(m1, PerByte(core, loc, m, paddr, data[..k]))
    requires Written(m1, m2, tgt.0, tgt.1, off, data[k..k + n])
    ensures SameBytes(m2, PerByte(core, loc, m, paddr, data[..k + n]))
  {
    forall c: nat, r: nat, o: nat
      ensures ByteAt(m2, c, r, o) == ByteAt(PerByte(core, loc, m, paddr, data[..k + n]), c, r, o)
    {
      BytesOfChunk(core, loc, m, paddr, data, k, n, tgt, off, c, r, o);
    }
  }

  // ---------------------------------------------------------------- the loader

  datatype LoadRc = Loaded | InvalidElf | Failed

  /** The bounds check on a section, with its 32-bit sum. */
  predicate Rejected(core: Core, paddr: nat, memsz: nat) {
    || (core.progMemSize < paddr < core.dataMemAddr)
    || (paddr + memsz) % U32 > core.dataMemAddr + 4 * core.dataMemSize
  }

  /** For a section that does not reach the end of the address space: it is refused exactly if it
      starts between program memory and data memory, or has an address behind data memory. */
  lemma RejectedIff(core: Core, paddr: nat, memsz: nat)
    requires ValidCore(core) && paddr + memsz < U32 && memsz > 0
    ensures Rejected(core, paddr, memsz) <==>
      || (core.progMemSize < paddr < core.dataMemAddr)
      || exists addr :: paddr <= addr < paddr + memsz && Behind(core, addr)
  {
    DivideIs(paddr + memsz, U32, 0, paddr + memsz);
    assert Behind(core, paddr + memsz - 1) <==> paddr + memsz - 1 >= 2 * core.dataMemAddr;
  }

  /** One that reaches beyond it is refused by what is left of it at the other end. */
  lemma RejectedWrapped(core: Core, paddr: nat, memsz: nat)
    requires ValidCore(core) && paddr < U32 && memsz < U32 && U32 <= paddr + memsz
    ensures Rejected(core, paddr, memsz) <==>
      core.progMemSize < paddr < core.dataMemAddr || paddr + memsz - U32 > 2 * core.dataMemAddr
  {
    DivideIs(paddr + memsz, U32, 1, paddr + memsz - U32);
  }

  predicate Behind(core: Core, addr: int) {
    addr >= 2 * core.dataMemAddr
  }

  function Zeros(n: nat): (z: seq<u8>)
    ensures |z| == n
  {
    seq(n, _ => 0)
  }

  /** The bytes the loader copies: what the file holds from the section's start on, or zeros
      for a section the file has no bytes of. */
  function SectionData(section: seq<u8>, filesz: nat, memsz: nat): (data: seq<u8>)
    requires filesz != 0 ==> memsz <= |section|
    ensures |data| == memsz && forall i | 0 <= i < memsz :: data[i] == if filesz == 0 then 0 else section[i]
  {
    if filesz == 0 then Zeros(memsz) else section[..memsz]
  }

  lemma Wrapped(a: nat, b: nat)
    requires b < U32
    ensures (a + b) % U32 == if a % U32 + b < U32 then a % U32 + b else a % U32 + b - U32
  {
    if a % U32 + b < U32 {
      DivideIs(a + b, U32, a / U32, a % U32 + b);
    } else {
      DivideIs(a + b, U32, a / U32 + 1, a % U32 + b - U32);
    }
  }

  lemma NoLess(a: nat, b: nat, m: nat)
    ensures a >= b ==> a * m >= b * m
  {
    if a > b {
      Product(a, b, m);
    }
  }

  lemma InWindow(size: nat, count: nat, b: nat, i: nat)
    requires size > 0 && b < count * size && b % size + i < size
    ensures b + i < count * size && (b + i) / size == b / size && (b + i) % size == b % size + i
  {
    var q, r := b / size, b % size;
    assert b == q * size + r;
    NoLess(q, count, size);
    Product(count, q, size);
    DivideIs(b + i, size, q, r + i);
  }

  lemma SameWindow(size: nat, a: nat, i: nat)
    requires size == 0x8000 || size == 0x10000
    requires a % U32 % size + i < size
    ensures (a + i) % U32 / size == a % U32 / size && (a + i) % U32 % size == a % U32 % size + i
  {
    InWindow(size, if size == 0x8000 then 0x2_0000 else 0x1_0000, a % U32, i);
    Wrapped(a, i);
  }

  lemma SameTarget(core: Core, loc: Loc, a: nat, b: nat)
    requires ValidCore(core) && a / core.dataMemSize == b / core.dataMemSize
    ensures GetTargetTileLoc(core, loc, a) == GetTargetTileLoc(core, loc, b)
  {
  }

  /** The addresses of one window share a tile and have consecutive offsets. */
  lemma WindowHomes(core: Core, loc: Loc, paddr: nat, k: nat, n: nat)
    requires ValidCore(core) && GetTargetTileLoc(core, loc, AddrOf(paddr, k)).Some?
    requires AddrOf(paddr, k) % core.dataMemSize + n <= core.dataMemSize
    ensures var addr := AddrOf(paddr, k);
      InTile(core, loc, paddr, k, n, GetTargetTileLoc(core, loc, addr).value, addr % core.dataMemSize)
  {
    hide GetTargetTileLoc;
    forall i: nat | k <= i < k + n
      ensures GetTargetTileLoc(core, loc, AddrOf(paddr, i)) == GetTargetTileLoc(core, loc, AddrOf(paddr, k))
      ensures AddrOf(paddr, i) % core.dataMemSize == AddrOf(paddr, k) % core.dataMemSize + i - k
    {
      SameWindow(core.dataMemSize, paddr + k, i - k);
      SameTarget(core, loc, AddrOf(paddr, i), AddrOf(paddr, k));
    }
  }

  /** Four windows further on; the address space is `count` windows, a multiple of 256. */
  lemma WindowStep(size: nat, count: nat, a: nat)
    requires size > 0 && count % 256 == 0 && count * size == U32 && 4 < count
    ensures (a + 4 * size) % U32 / size % 256 == (a % U32 / size + 4) % 256
  {
    var b := a % U32;
    var q, r := b / size, b % size;
    assert b == q * size + r;
    Product(count, 4, size);
    Wrapped(a, 4 * size);
    if b + 4 * size < U32 {
      DivideIs(b + 4 * size, size, q + 4, r);
    } else {
      DivideIs(b + 4 * size - U32, size, q + 4 - count, r);
      WholeTurns(q + 4, count / 256);
    }
  }

  lemma WholeTurns(x: int, k: nat)
    ensures (x - 256 * k) % 256 == x % 256
  {
  }

  lemma FourWindows(size: nat, a: nat)
    requires size == 0x8000 || size == 0x10000
    ensures (a + 4 * size) % U32 / size % 256 == (a % U32 / size + 4) % 256
  {
    WindowStep(size, if size == 0x8000 then 0x2_0000 else 0x1_0000, a);
  }

  /** Four windows further on is no data memory any more. */
  lemma TooFar(core: Core, loc: Loc, paddr: nat, k: nat)
    requires ValidCore(core) && Home(core, loc, AddrOf(paddr, k)).Some?
    ensures Home(core, loc, AddrOf(paddr, k + 4 * core.dataMemSize)).None?
  {
    FourWindows(core.dataMemSize, paddr + k);
  }

  /** The last 32-bit address is no data memory. */
  lemma LastAddress(core: Core, loc: Loc)
    requires ValidCore(core)
    ensures Home(core, loc, U32 - 1).None?
  {
  }

  lemma NoWrap(core: Core, loc: Loc, paddr: nat, memsz: nat)
    requires ValidCore(core) && paddr < U32 && AllHomes(core, loc, paddr, memsz)
    ensures paddr + memsz < U32
  {
    LastAddress(core, loc);
    assert AddrOf(paddr, U32 - 1 - paddr) == U32 - 1;
  }

  /** An accepted section whose bytes all have homes lies in the four windows. */
  lemma InWindows(core: Core, loc: Loc, paddr: nat, memsz: nat)
    requires ValidCore(core) && paddr < U32 && 0 < memsz && AllHomes(core, loc, paddr, memsz)
    requires !Rejected(core, paddr, memsz)
    ensures core.dataMemAddr <= paddr && paddr + memsz <= 2 * core.dataMemAddr
  {
    NoWrap(core, loc, paddr, memsz);
    assert Home(core, loc, AddrOf(paddr, 0)).Some?;
  }

  lemma MoreHomes(core: Core, loc: Loc, paddr: nat, k: nat, n: nat, tgt: Loc, off: nat)
    requires ValidCore(core) && AllHomes(core, loc, paddr, k) && InTile(core, loc, paddr, k, n, tgt, off)
    ensures AllHomes(core, loc, paddr, k + n)
  {
  }

  lemma Missing(core: Core, loc: Loc, paddr: nat, k: nat, n: nat)
    requires ValidCore(core) && k < n && Home(core, loc, AddrOf(paddr, k)).None?
    ensures !AllHomes(core, loc, paddr, n)
  {
  }

  /** A section so long that the 32-bit sum wraps leaves the windows. */
  lemma WontFit(core: Core, loc: Loc, paddr: nat, k: nat, n: nat)
    requires ValidCore(core) && k < n < U32 && Home(core, loc, AddrOf(paddr, k)).Some?
    requires AddrOf(paddr, k) % core.dataMemSize + n - k >= U32
    ensures !AllHomes(core, loc, paddr, n) && paddr + n >= U32
  {
    TooFar(core, loc, paddr, k);
    Missing(core, loc, paddr, k + 4 * core.dataMemSize, n);
  }

  /** The size of a chunk that starts at offset `off` of a window: what is left, but not more
      than the window holds, unless the 32-bit sum wraps. */
  function BytesToWrite(size: nat, off: nat, left: nat): (bytes: nat)
    requires off < size < U32 && 0 < left < U32
    ensures 0 < bytes <= left
    ensures off + left < U32 ==> bytes == if off + left > size then size - off else left
    ensures off + left >= U32 ==> bytes == left
  {
    var sum := (off + left) % U32;
    var overflow := if sum > size then sum - size else 0;
    left - overflow
  }

  lemma NothingCopied(core: Core, loc: Loc, m: TileMem, paddr: nat, data: seq<u8>)
    requires ValidCore(core)
    ensures AllHomes(core, loc, paddr, 0) && SameBytes(m, PerByte(core, loc, m, paddr, data[..0]))
  {
  }

  class Loader {
    const core: Core
    const memory: DataMemory

    constructor (core: Core, memory: DataMemory)
      ensures this.core == core && this.memory == memory
    {
      this.core, this.memory := core, memory;
    }

    /** The first `n` bytes are in their homes, and nothing else has changed. */
    ghost predicate Copied(m: TileMem, loc: Loc, paddr: nat, data: seq<u8>, n: nat)
      requires ValidCore(core)
      reads memory
    {
      n <= |data| && AllHomes(core, loc, paddr, n) && SameBytes(memory.mem, PerByte(core, loc, m, paddr, data[..n]))
    }

    /** One window's worth of a section. */
    method CopyChunk(loc: Loc, paddr: nat, data: seq<u8>, k: nat, ghost m: TileMem) returns (rc: LoadRc, n: nat)
      requires ValidCore(core) && k < |data| < U32 && Copied(m, loc, paddr, data, k)
      modifies memory
      ensures rc != InvalidElf && k + n <= |data|
      ensures rc == Loaded ==> n > 0 && Copied(m, loc, paddr, data, k + n)
      ensures rc == Loaded ==> AddrOf(paddr, k) % core.dataMemSize + n <= core.dataMemSize
      ensures rc == Failed ==> memory.mem == old(memory.mem) && !AllHomes(core, loc, paddr, |data|)
      ensures rc == Failed && paddr + |data| < U32 ==> Home(core, loc, AddrOf(paddr, k)).None?
    {
      hide Written, ByteAt, Issues, PerByte, SameBytes, InTile;
      n := 0;
      var size, addr, left := core.dataMemSize, AddrOf(paddr, k), |data| - k;
      var tgt := GetTargetTileLoc(core, loc, addr);
      if tgt.None? {
        Missing(core, loc, paddr, k, |data|);
        return Failed, n;
      }
      var bytes := BytesToWrite(size, addr % size, left);
      var rc0 := memory.DataMemBlockWrite(tgt.value.0, tgt.value.1, true, size, addr % size, data[k..k + bytes]);
      if rc0 != Ok {
        WontFit(core, loc, paddr, k, |data|);
        return Failed, n;
      }
      n := bytes;
      WindowHomes(core, loc, paddr, k, n);
      MoreHomes(core, loc, paddr, k, n, tgt.value, addr % size);
      ChunkIsBytes(core, loc, m, old(memory.mem), memory.mem, paddr, data, k, n, tgt.value, addr % size);
      rc := Loaded;
    }

    /** A section for data memory. It is loaded exactly if it is accepted and every byte of it
        has a home; otherwise the bytes before some point are loaded and nothing else. */
    method LoadDataMemSection(loc: Loc, paddr: nat, filesz: nat, memsz: nat, section: seq<u8>)
      returns (rc: LoadRc, ghost n: nat)
      requires ValidCore(core) && paddr < U32 && memsz < U32 && (filesz != 0 ==> memsz <= |section|)
      modifies memory
      ensures rc == InvalidElf <==> Rejected(core, paddr, memsz)
      ensures rc == InvalidElf ==> memory.mem == old(memory.mem)
      ensures rc != InvalidElf ==> Copied(old(memory.mem), loc, paddr, SectionData(section, filesz, memsz), n)
      ensures rc == Loaded <==> !Rejected(core, paddr, memsz) && AllHomes(core, loc, paddr, memsz)
      ensures rc == Loaded ==> n == memsz
      ensures rc == Loaded && memsz > 0 ==> core.dataMemAddr <= paddr && paddr + memsz <= 2 * core.dataMemAddr
      ensures rc == Failed ==> n < memsz
      ensures rc == Failed && paddr + memsz < U32 ==> Home(core, loc, AddrOf(paddr, n)).None?
    {
      hide PerByte, SameBytes, Home, SectionData;
      n := 0;
      if (paddr > core.progMemSize && paddr < core.dataMemAddr)
         || (paddr + memsz) % U32 > core.dataMemAddr + 4 * core.dataMemSize {
        return InvalidElf, n;
      }
      var data := SectionData(section, filesz, memsz);
      NothingCopied(core, loc, memory.mem, paddr, data);
      var sectionSize := memsz;
      while sectionSize > 0
        invariant sectionSize <= memsz && Copied(old(memory.mem), loc, paddr, data, memsz - sectionSize)
        decreases sectionSize
      {
        n := memsz - sectionSize;
        var bytes;
        rc, bytes := CopyChunk(loc, paddr, data, memsz - sectionSize, old(memory.mem));
        if rc != Loaded {
          return;
        }
        sectionSize := sectionSize - bytes;
      }
      n := memsz;
      rc := Loaded;
      if memsz > 0 {
        InWindows(core, loc, paddr, memsz);
      }
    }
  }

  /** A section that an accepted load puts into the windows. */
  ghost predicate Placed(core: Core, loc: Loc, paddr: nat, n: nat)
    requires ValidCore(core)
  {
    && IsAieTile(core, loc) && AllHomes(core, loc, paddr, n)
    && core.dataMemAddr <= paddr && paddr + n <= 2 * core.dataMemAddr
  }

  lemma PlacedApart(core: Core, loc: Loc, paddr: nat, n: nat, i: nat, j: nat)
    requires ValidCore(core) && Placed(core, loc, paddr, n) && i < j < n
    ensures Home(core, loc, AddrOf(paddr, i)).Some?
    ensures Home(core, loc, AddrOf(paddr, i)) != Home(core, loc, AddrOf(paddr, j))
  {
    hide Home;
    DivideIs(paddr + i, U32, 0, paddr + i);
    DivideIs(paddr + j, U32, 0, paddr + j);
    assert AddrOf(paddr, i) == paddr + i && AddrOf(paddr, j) == paddr + j;
    assert Home(core, loc, AddrOf(paddr, i)).Some? && Home(core, loc, AddrOf(paddr, j)).Some?;
    HomesApart(core, loc, paddr + i, paddr + j);
  }

  /** Every byte of a loaded section is in its own home ... */
  lemma {:induction false} LoadedAt(core: Core, loc: Loc, m: TileMem, paddr: nat, data: seq<u8>, i: nat)
    requires ValidCore(core) && Placed(core, loc, paddr, |data|) && i < |data|
    ensures var ((c, r), off) := Home(core, loc, AddrOf(paddr, i)).value;
      ByteAt(PerByte(core, loc, m, paddr, data), c, r, off) == data[i]
  {
    var n := |data| - 1;
    var ((c, r), off) := Home(core, loc, AddrOf(paddr, i)).value;
    StoredByte(PerByte(core, loc, m, paddr, data[..n]), Home(core, loc, AddrOf(paddr, n)).value, data[n], c, r, off);
    if i < n {
      PlacedApart(core, loc, paddr, |data|, i, n);
      LoadedAt(core, loc, m, paddr, data[..n], i);
    }
  }

  /** For a byte in the south window this is the tile below the core, and so on. */
  lemma LoadedIn(core: Core, loc: Loc, m: TileMem, paddr: nat, data: seq<u8>, i: nat)
    requires ValidCore(core) && Placed(core, loc, paddr, |data|) && i < |data|
    ensures var base, size, addr := core.dataMemAddr, core.dataMemSize, paddr + i;
      var now := PerByte(core, loc, m, paddr, data);
      var here := core.checkerBoard && loc.1 % 2 == 0;
      && (addr < base + size ==> loc.1 > 0 && ByteAt(now, loc.0, loc.1 - 1, addr - base) == data[i])
      && (base + size <= addr < base + 2 * size && here ==> ByteAt(now, loc.0, loc.1, addr - base - size) == data[i])
      && (base + size <= addr < base + 2 * size && !here ==>
            loc.0 > 0 && ByteAt(now, loc.0 - 1, loc.1, addr - base - size) == data[i])
      && (base + 2 * size <= addr < base + 3 * size ==>
            ByteAt(now, loc.0, loc.1 + 1, addr - base - 2 * size) == data[i])
      && (base + 3 * size <= addr && !here ==> ByteAt(now, loc.0, loc.1, addr - base - 3 * size) == data[i])
      && (base + 3 * size <= addr && here ==> ByteAt(now, loc.0 + 1, loc.1, addr - base - 3 * size) == data[i])
  {
    hide Home, PerByte, ByteAt;
    var addr, base, size := paddr + i, core.dataMemAddr, core.dataMemSize;
    LoadedAt(core, loc, m, paddr, data, i);
    DivideIs(addr, U32, 0, addr);
    assert AddrOf(paddr, i) == addr && Home(core, loc, AddrOf(paddr, i)).Some?;
    if addr < base + size {
      SouthWindow(core, loc, addr);
    } else if addr < base + 2 * size {
      WestWindow(core, loc, addr);
    } else if addr < base + 3 * size {
      NorthWindow(core, loc, addr);
    } else {
      EastWindow(core, loc, addr);
    }
  }

  /** ... and no other byte of any memory has changed. */
  lemma {:induction false} LoadedElsewhere(core: Core, loc: Loc, m: TileMem, paddr: nat, data: seq<u8>, c: nat,
      r: nat, off: nat)
    requires ValidCore(core) && AllHomes(core, loc, paddr, |data|)
    requires forall i: nat | i < |data| :: Home(core, loc, AddrOf(paddr, i)) != Some(((c, r), off))
    ensures ByteAt(PerByte(core, loc, m, paddr, data), c, r, off) == ByteAt(m, c, r, off)
  {
    if data != [] {
      var n := |data| - 1;
      LoadedElsewhere(core, loc, m, paddr, data[..n], c, r, off);
      StoredByte(PerByte(core, loc, m, paddr, data[..n]), Home(core, loc, AddrOf(paddr, n)).value, data[n], c, r, off);
    }
  }

  // ---------------------------------------------------------------- file size and memory size

  /** What the ELF specification asks for: the file's bytes, then zeros up to the memory size. */
  function StandardData(section: seq<u8>, filesz: nat, memsz: nat): (data: seq<u8>)
    requires filesz <= memsz && filesz <= |section|
    ensures |data| == memsz
  {
    section[..filesz] + Zeros(memsz - filesz)
  }

  /** The loader follows the specification, whatever bytes follow the section in the file,
      exactly if the file holds none or all of the section. */
  lemma StandardIff(filesz: nat, memsz: nat)
    requires filesz <= memsz
    ensures (forall section: seq<u8> | memsz <= |section| ::
              SectionData(section, filesz, memsz) == StandardData(section, filesz, memsz))
            <==> filesz == 0 || filesz == memsz
  {
    if filesz != 0 && filesz != memsz {
      var section: seq<u8> := seq(memsz, _ => 1);
      assert SectionData(section, filesz, memsz)[filesz] == 1;
      assert StandardData(section, filesz, memsz)[filesz] == 0;
    }
  }
}
