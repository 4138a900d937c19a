/** Writing bytes to a tile's data memory, which only takes whole words: read, modify and
    write at both ends, whole words in between. */
module DataMem {
  import opened Bytes

  /** A 32-bit word as its four bytes, the least significant one first. */
  type WordBytes = w: seq<u8> | |w| == 4 witness [0, 0, 0, 0]

  datatype Lane = Keep | Set(b: u8)

  /** The mask and the value of a masked write, byte by byte. */
  type Lanes = l: seq<Lane> | |l| == 4 witness [Keep, Keep, Keep, Keep]

  function MergeBytes(was: WordBytes, lanes: Lanes): (r: WordBytes)
    ensures forall k | 0 <= k < 4 :: r[k] == if lanes[k].Set? then lanes[k].b else was[k]
  {
    seq(4, k requires 0 <= k < 4 => if lanes[k].Set? then lanes[k].b else was[k])
  }

  /** A word of a tile's data memory. */
  datatype Cell = Cell(col: nat, row: nat, word: nat)

  type TileMem = map<Cell, WordBytes>

  function Load(m: TileMem, cell: Cell): WordBytes {
    if cell in m then m[cell] else [0, 0, 0, 0]
  }

  // ---------------------------------------------------------------- bytes of the memory

  function ByteAt(m: TileMem, col: nat, row: nat, off: nat): u8 {
    Load(m, Cell(col, row, off / 4))[off % 4]
  }

  /** `m'` is `m` with `src` stored at `addr` of a tile, and nothing else changed. */
  ghost predicate Written(m: TileMem, m': TileMem, col: nat, row: nat, addr: nat, src: seq<u8>) {
    forall c: nat, r: nat, off: nat ::
      ByteAt(m', c, r, off) ==
        if c == col && r == row && addr <= off < addr + |src| then src[off - addr] else ByteAt(m, c, r, off)
  }

  lemma WrittenTrans(m: TileMem, m1: TileMem, m2: TileMem, col: nat, row: nat, addr: nat,
      a: seq<u8>, b: seq<u8>)
    requires Written(m, m1, col, row, addr, a) && Written(m1, m2, col, row, addr + |a|, b)
    ensures Written(m, m2, col, row, addr, a + b)
  {
  }

  /** A stored word read byte by byte. */
  lemma StoredWord(m: TileMem, cell: Cell, w: WordBytes, c: nat, r: nat, off: nat)
    ensures ByteAt(m[cell := w], c, r, off) ==
      if Cell(c, r, off / 4) == cell then w[off % 4] else ByteAt(m, c, r, off)
  {
  }

  /** Storing into one word stores its bytes. */
  lemma StoreCell(m: TileMem, cell: Cell, w: WordBytes, lo: nat, src: seq<u8>)
    requires lo + |src| <= 4
    requires forall k | 0 <= k < 4 :: w[k] == if lo <= k < lo + |src| then src[k - lo] else Load(m, cell)[k]
    ensures Written(m, m[cell := w], cell.col, cell.row, 4 * cell.word + lo, src)
  {
    forall c: nat, r: nat, off: nat
      ensures ByteAt(m[cell := w], c, r, off) ==
        if Cell(c, r, off / 4) == cell then w[off % 4] else ByteAt(m, c, r, off)
    {
      StoredWord(m, cell, w, c, r, off);
    }
  }

  /** One more word of `src` in place. */
  lemma StoreNext(m: TileMem, m1: TileMem, col: nat, row: nat, word: nat, w: WordBytes, lo: nat,
      addr: nat, src: seq<u8>, from: nat, n: nat)
    requires from + n <= |src| && Written(m, m1, col, row, addr, src[..from])
    requires 4 * word + lo == addr + from && lo + n <= 4
    requires forall k | 0 <= k < 4 ::
      w[k] == if lo <= k < lo + n then src[from + k - lo] else Load(m1, Cell(col, row, word))[k]
    ensures Written(m, m1[Cell(col, row, word) := w], col, row, addr, src[..from + n])
  {
    hide Written, ByteAt;
    var part := src[from..from + n];
    StoreCell(m1, Cell(col, row, word), w, lo, part);
    WrittenTrans(m, m1, m1[Cell(col, row, word) := w], col, row, addr, src[..from], part);
    assert src[..from] + part == src[..from + n];
  }

  lemma StoreWord(m: TileMem, m1: TileMem, col: nat, row: nat, word: nat, addr: nat,
      src: seq<u8>, from: nat)
    requires from + 4 <= |src| && 4 * word == addr + from && Written(m, m1, col, row, addr, src[..from])
    ensures Written(m, m1[Cell(col, row, word) := src[from..from + 4]], col, row, addr, src[..from + 4])
  {
    hide Written, ByteAt;
    StoreNext(m, m1, col, row, word, src[from..from + 4], 0, addr, src, from, 4);
  }

  datatype Rc = Ok | InvalidTile | OutOfBound

  /** How many of `n` bytes are left in the word of an unaligned address. */
  function Head(addr: nat, n: nat): (r: nat)
    requires addr % 4 != 0
    ensures r <= n && addr % 4 + r <= 4
    ensures r == n || (addr + r) % 4 == 0
  {
    if n < 4 - addr % 4 then n else 4 - addr % 4
  }

  // ---------------------------------------------------------------- register accesses

  const NOTHING: Lanes := [Keep, Keep, Keep, Keep]

  /** What a call asks of the registers. */
  datatype Access = Put(cell: Cell, lanes: Lanes) | Store(cell: Cell, word: WordBytes)

  /** An access carried out at once. */
  function Carry(m: TileMem, a: Access): TileMem {
    match a
    case Put(cell, lanes) => m[cell := MergeBytes(Load(m, cell), lanes)]
    case Store(cell, word) => m[cell := word]
  }

  /** An access recorded in a transaction and executed later: a mask of 0 makes it a full write,
      here of the value 0. */
  function Defer(m: TileMem, a: Access): TileMem {
    if a.Put? && a.lanes == NOTHING then m[a.cell := [0, 0, 0, 0]] else Carry(m, a)
  }

  function CarryAll(m: TileMem, log: seq<Access>): TileMem {
    if log == [] then m else Carry(CarryAll(m, log[..|log| - 1]), log[|log| - 1])
  }

  function DeferAll(m: TileMem, log: seq<Access>): TileMem {
    if log == [] then m else Defer(DeferAll(m, log[..|log| - 1]), log[|log| - 1])
  }

  lemma {:induction false} CarryMore(m: TileMem, a: seq<Access>, b: seq<Access>)
    ensures CarryAll(m, a + b) == CarryAll(CarryAll(m, a), b)
    decreases |b|
  {
    if b == [] {
      assert a + b == a;
    } else {
      CarryMore(m, a, b[..|b| - 1]);
      assert (a + b)[..|a + b| - 1] == a + b[..|b| - 1];
    }
  }

  lemma CarryOne(m: TileMem, log: seq<Access>, a: Access)
    ensures CarryAll(m, log + [a]) == Carry(CarryAll(m, log), a)
  {
    assert (log + [a])[..|log + [a]| - 1] == log;
  }

  lemma NothingYet(m: TileMem, col: nat, row: nat, addr: nat, src: seq<u8>)
    ensures CarryAll(m, []) == m && Harmless([]) && Written(m, m, col, row, addr, src[..0])
  {
  }

  predicate Harmless(log: seq<Access>) {
    forall a | a in log && a.Put? :: a.lanes != NOTHING
  }

  lemma HarmlessJoin(a: seq<Access>, b: seq<Access>)
    ensures Harmless(a + b) <==> Harmless(a) && Harmless(b)
  {
    assert forall x :: x in a + b <==> x in a || x in b;
  }

  /** Deferring accesses without a mask of 0 changes nothing. */
  lemma {:induction false} HarmlessDefers(m: TileMem, log: seq<Access>)
    requires Harmless(log)
    ensures DeferAll(m, log) == CarryAll(m, log)
  {
    if log != [] {
      HarmlessDefers(m, log[..|log| - 1]);
    }
  }

  /** The accesses of a block write: its deferred form stores the same, except for an empty write
      at an unaligned address, which clears the word it falls into. */
  ghost predicate Issues(m: TileMem, m': TileMem, col: nat, row: nat, addr: nat, src: seq<u8>, log: seq<Access>) {
    && m' == CarryAll(m, log)
    && (Harmless(log) <==> src != [] || addr % 4 == 0)
    && (src == [] && addr % 4 != 0 ==> log == [Put(Cell(col, row, addr / 4), NOTHING)])
  }

  lemma ClearedIff(m: TileMem, cell: Cell, addr: nat)
    ensures Written(m, m[cell := [0, 0, 0, 0]], cell.col, cell.row, addr, []) <==> Load(m, cell) == [0, 0, 0, 0]
  {
    var m' := m[cell := [0, 0, 0, 0]];
    forall c: nat, r: nat, off: nat
      ensures ByteAt(m', c, r, off) == if Cell(c, r, off / 4) == cell then 0 else ByteAt(m, c, r, off)
    {
      StoredWord(m, cell, [0, 0, 0, 0], c, r, off);
    }
    forall k | 0 <= k < 4
      ensures ByteAt(m, cell.col, cell.row, 4 * cell.word + k) == Load(m, cell)[k]
      ensures ByteAt(m', cell.col, cell.row, 4 * cell.word + k) == 0
    {
    }
  }

  lemma DeferredWrite(m: TileMem, m': TileMem, col: nat, row: nat, addr: nat, src: seq<u8>,
      log: seq<Access>)
    requires Issues(m, m', col, row, addr, src, log)
    ensures DeferAll(m, log) ==
      if src == [] && addr % 4 != 0 then m[Cell(col, row, addr / 4) := [0, 0, 0, 0]] else m'
  {
    if src == [] && addr % 4 != 0 {
      assert log[..0] == [];
    } else {
      HarmlessDefers(m, log);
    }
  }

  /** So the deferred write stores exactly `src`, unless it is empty, at an unaligned address, and
      the word there is not 0 already. */
  lemma DeferredIff(m: TileMem, m': TileMem, col: nat, row: nat, addr: nat, src: seq<u8>,
      log: seq<Access>)
    requires Written(m, m', col, row, addr, src) && Issues(m, m', col, row, addr, src, log)
    ensures Written(m, DeferAll(m, log), col, row, addr, src) <==>
      src != [] || addr % 4 == 0 || Load(m, Cell(col, row, addr / 4)) == [0, 0, 0, 0]
  {
    hide Issues, DeferAll;
    DeferredWrite(m, m', col, row, addr, src, log);
    if src == [] && addr % 4 != 0 {
      hide Written, ByteAt;
      ClearedIff(m, Cell(col, row, addr / 4), addr);
    }
  }

  /** The data memories of an array, and the accesses made to them. */
  class DataMemory {
    var mem: TileMem
    var log: seq<Access>

    constructor (mem: TileMem)
      ensures this.mem == mem && log == []
    {
      this.mem, log := mem, [];
    }

    method Perform(a: Access)
      modifies this
      ensures mem == Carry(old(mem), a) && log == old(log) + [a]
    {
      mem := Carry(mem, a);
      log := log + [a];
    }

    /** Bytes `from` on of `src`, which all go into one word; the bytes before them are
        already in place. */
    method StorePart(col: nat, row: nat, addr: nat, src: seq<u8>, from: nat, n: nat, ghost m: TileMem)
      returns (ghost put: Access)
      requires from + n <= |src| && (addr + from) % 4 + n <= 4
      requires Written(m, mem, col, row, addr, src[..from])
      modifies this
      ensures Written(m, mem, col, row, addr, src[..from + n])
      ensures log == old(log) + [put] && mem == Carry(old(mem), put)
      ensures Harmless([put]) <==> n != 0
      ensures n == 0 ==> put == Put(Cell(col, row, (addr + from) / 4), NOTHING)
    {
      hide Written, ByteAt;
      var cell, lo := Cell(col, row, (addr + from) / 4), (addr + from) % 4;
      var lanes: Lanes := NOTHING;
      for i := 0 to n
        invariant forall k | 0 <= k < 4 :: lanes[k] == if lo <= k < lo + i then Set(src[from + k - lo]) else Keep
      {
        lanes := lanes[lo + i := Set(src[from + i])];
      }
      StoreNext(m, mem, col, row, cell.word, MergeBytes(Load(mem, cell), lanes), lo, addr, src, from, n);
      assert n > 0 ==> lanes[lo] != NOTHING[lo];
      put := Put(cell, lanes);
      assert put in [put];
      Perform(Put(cell, lanes));
    }

    /** Whole words of `src`. */
    method StoreWords(col: nat, row: nat, addr: nat, src: seq<u8>, from: nat, words: nat, ghost m: TileMem)
      returns (ghost stored: seq<Access>)
      requires from + 4 * words <= |src| && (addr + from) % 4 == 0
      requires Written(m, mem, col, row, addr, src[..from])
      modifies this
      ensures Written(m, mem, col, row, addr, src[..from + 4 * words])
      ensures log == old(log) + stored && mem == CarryAll(old(mem), stored)
      ensures Harmless(stored)
    {
      hide Written, ByteAt, CarryAll;
      var first := (addr + from) / 4;
      stored := [];
      NothingYet(mem, col, row, addr, src);
      for i := 0 to words
        invariant Written(m, mem, col, row, addr, src[..from + 4 * i])
        invariant log == old(log) + stored && mem == CarryAll(old(mem), stored)
        invariant forall k | 0 <= k < |stored| :: stored[k].Store?
      {
        var at := from + 4 * i;
        var a := Store(Cell(col, row, first + i), src[at..at + 4]);
        StoreWord(m, mem, col, row, first + i, addr, src, at);
        CarryOne(old(mem), stored, a);
        Perform(a);
        stored := stored + [a];
      }
    }

    /** The bytes of a write: the rest of the first word, whole words, and the bytes left over. */
    method StoreBytes(col: nat, row: nat, addr: nat, src: seq<u8>) returns (ghost issued: seq<Access>)
      modifies this
      ensures Written(old(mem), mem, col, row, addr, src)
      ensures log == old(log) + issued && Issues(old(mem), mem, col, row, addr, src, issued)
    {
      hide Written, ByteAt, CarryAll, Carry, Harmless;
      var done := 0;
      issued := [];
      NothingYet(mem, col, row, addr, src);
      if addr % 4 != 0 {
        done := Head(addr, |src|);
        ghost var put := StorePart(col, row, addr, src, 0, done, old(mem));
        CarryOne(old(mem), [], put);
        assert [] + [put] == [put];
        issued := [put];
      }
      assert log == old(log) + issued && mem == CarryAll(old(mem), issued);
      assert Harmless(issued) <==> src != [] || addr % 4 == 0;
      if |src| - done >= 4 {
        var words := (|src| - done) / 4;
        ghost var stored := StoreWords(col, row, addr, src, done, words, old(mem));
        CarryMore(old(mem), issued, stored);
        HarmlessJoin(issued, stored);
        assert old(log) + issued + stored == old(log) + (issued + stored);
        issued, done := issued + stored, done + 4 * words;
      }
      assert log == old(log) + issued && mem == CarryAll(old(mem), issued);
      assert Harmless(issued) <==> src != [] || addr % 4 == 0;
      if done < |src| {
        ghost var put := StorePart(col, row, addr, src, done, |src| - done, old(mem));
        CarryOne(old(mem), issued, put);
        HarmlessJoin(issued, [put]);
        assert old(log) + issued + [put] == old(log) + (issued + [put]);
        issued, done := issued + [put], |src|;
      }
      assert src[..done] == src;
    }

    /** Any bytes at any offset of a tile's memory of `size` bytes. */
    method DataMemBlockWrite(col: nat, row: nat, isDataTile: bool, size: nat, addr: nat, src: seq<u8>) returns (rc: Rc)
      modifies this
      ensures rc == if !isDataTile then InvalidTile else if addr + |src| > size then OutOfBound else Ok
      ensures if rc == Ok then Written(old(mem), mem, col, row, addr, src) else mem == old(mem)
      ensures |old(log)| <= |log| && log[..|old(log)|] == old(log)
      ensures if rc == Ok then Issues(old(mem), mem, col, row, addr, src, log[|old(log)|..]) else log == old(log)
    {
      hide Written, ByteAt, Issues;
      if !isDataTile {
        return InvalidTile;
      }
      if addr + |src| > size {
        return OutOfBound;
      }
      rc := Ok;
      ghost var issued := StoreBytes(col, row, addr, src);
      assert log[|old(log)|..] == issued;
    }
  }
}
