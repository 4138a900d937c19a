/** Routing of error interrupts along the shim row. Each column has two broadcast
    switches, A to the west and B to the east; an L1 controller raises its interrupt on
    one broadcast line, and the line must end in exactly one L2 controller. */
module ErrorBroadcast {
  import opened Arithmetic
  import opened Bits

  const ERROR_BROADCAST_ID: nat := 0
  const ERROR_SHIM_INTR_ID: nat := 16
  const ERROR_L2_ENABLE: nat := 0x3F

  datatype Switch = A | B
  datatype Dir = South | West | North | East
  datatype Generation = Aie | AieMl

  /** Columns 2 and 3 of every four have a NoC interface and an L2 controller. */
  predicate IsNoc(col: nat) {
    col % 4 >= 2
  }

  function Bit(sw: Switch): nat {
    if sw == A then 0 else 1
  }

  // ---------------------------------------------------------------- line numbers

  function AieIrqId(numCols: nat, col: nat, sw: Switch): nat {
    col % 4 % 3 * 2 + Bit(sw) + if col + 3 > numCols then 2 else 0
  }

  function AieMlIrqId(numCols: nat, col: nat, sw: Switch): nat {
    if !IsNoc(col) then
      col % 4 * 2 + Bit(sw) + if col / 4 * 4 + 2 < numCols then 0 else 2
    else if col % 4 == 2 then 4 + Bit(sw)
    else Bit(sw)
  }

  function IrqId(gen: Generation, numCols: nat, col: nat, sw: Switch): nat {
    if gen == Aie then AieIrqId(numCols, col, sw) else AieMlIrqId(numCols, col, sw)
  }

  // ---------------------------------------------------------------- the next NoC column

  /** The first NoC column to the east of `col`, wherever the partition ends. */
  function NextNoc(col: nat): (next: nat)
    ensures next == col / 4 * 4 + if col % 4 < 2 then 2 else if col % 4 == 2 then 3 else 6
    ensures col < next && IsNoc(next) && forall k | col < k < next :: !IsNoc(k)
  {
    assert col == 4 * (col / 4) + col % 4;
    if col <= 1 then 2
    else if (col + 1) % 4 / 2 == 1 then col + 1
    else if (col + 2) % 4 / 2 == 1 then col + 2
    else col + 3
  }

  method FindNextNoCTile(numCols: nat, col: nat) returns (found: bool, next: nat)
    requires col < numCols
    ensures found <==> NextNoc(col) < numCols
    ensures found ==> next == NextNoc(col)
  {
    next := col + 1;
    while next < numCols
      invariant col < next <= numCols
      invariant forall k | col < k < next :: !IsNoc(k)
    {
      if IsNoc(next) {
        return true, next;
      }
      next := next + 1;
    }
    found := false;
  }

  // ---------------------------------------------------------------- what setup blocks

  function Pos(col: nat, sw: Switch): nat {
    2 * col + Bit(sw)
  }

  function ColOf(p: nat): nat {
    p / 2
  }

  function SwOf(p: nat): Switch {
    if p % 2 == 0 then A else B
  }

  /** The lines 0 to n - 1. */
  function Lines(n: nat): (lines: set<nat>)
    ensures forall l :: l in lines <==> 0 <= l < n
  {
    if n == 0 then {} else Lines(n - 1) + {n - 1}
  }

  /** The lines that a bit map selects. */
  function Selected(map32: nat): (lines: set<nat>)
    ensures forall l :: l in lines <==> 0 <= l < 32 && BitAt(map32, l)
  {
    set l: nat | l < 32 && BitAt(map32, l)
  }

  lemma SelectedLines(n: nat)
    requires n <= 32
    ensures Selected(Pow2(n) - 1) == Lines(n)
  {
    forall l: nat
      ensures l in Selected(Pow2(n) - 1) <==> l in Lines(n)
    {
      LowMask(n, l);
    }
  }

  lemma SetupMasks(id: nat)
    requires id < 16
    ensures Selected(Pow2(id + 1) - 1) == Lines(id + 1) && Selected(ERROR_L2_ENABLE) == Lines(6)
  {
    SelectedLines(id + 1);
    SelectedLines(6);
    assert Pow2(6) - 1 == ERROR_L2_ENABLE by {
      assert Pow2(2) == 4;
    }
  }

  function BlockedDirs(numCols: nat, col: nat, sw: Switch): set<Dir> {
    if IsNoc(col) then (if sw == A then {North, South, West} else {North, South, West, East})
    else if NextNoc(col) < numCols then {North, South, West}
    else {North, South, East}
  }

  function BlockedLines(gen: Generation, numCols: nat, col: nat, sw: Switch): set<nat> {
    if IsNoc(col) && sw == B then
      (if NextNoc(col) < numCols then Lines(IrqId(gen, numCols, col, B) + 1) else Lines(6))
    else {IrqId(gen, numCols, col, sw)}
  }

  /** Line `line` does not leave position `p` in direction `dir`. */
  predicate Blocks(gen: Generation, numCols: nat, p: nat, dir: Dir, line: nat) {
    && p < 2 * numCols
    && dir in BlockedDirs(numCols, ColOf(p), SwOf(p))
    && line in BlockedLines(gen, numCols, ColOf(p), SwOf(p))
  }

  // ---------------------------------------------------------------- the array

  datatype ArrayModule = Core | Mem

  /** A broadcast switch of a tile of the array. */
  datatype Node = Node(col: nat, row: nat, mod: ArrayModule, sw: Switch)

  /** The rows of the memory tiles and of the AIE tiles, and the tiles that are clocked. */
  datatype Array = Array(memStart: nat, memEnd: nat, aieStart: nat, aieEnd: nat, requested: set<(nat, nat)>)

  predicate InRows(tiles: Array, n: Node, start: nat, end: nat) {
    (n.col, n.row) in tiles.requested && start <= n.row < end
  }

  /** The switches that setup programs: both modules of AIE tiles and both switches of memory
      tiles, if the tile is clocked. */
  predicate Programmed(tiles: Array, n: Node) {
    || (n.sw == A && InRows(tiles, n, tiles.aieStart, tiles.aieEnd))
    || (n.mod == Mem && InRows(tiles, n, tiles.memStart, tiles.memEnd))
  }

  /** A clocked tile of the array. */
  predicate InArray(tiles: Array, col: nat, row: nat) {
    && (col, row) in tiles.requested
    && (tiles.memStart <= row < tiles.memEnd || tiles.aieStart <= row < tiles.aieEnd)
  }

  /** Every column has two lanes of switches, which end in the two switches of the shim tile:
      core modules and the switches A of memory tiles, memory modules and the switches B. */
  function At(tiles: Array, col: nat, row: nat, lane: Switch): Node {
    if tiles.memStart <= row < tiles.memEnd then Node(col, row, Mem, lane)
    else Node(col, row, if lane == A then Core else Mem, A)
  }

  function LaneOf(tiles: Array, n: Node): Switch {
    if tiles.memStart <= n.row < tiles.memEnd then n.sw else if n.mod == Core then A else B
  }

  lemma LaneAt(tiles: Array, col: nat, row: nat, lane: Switch)
    ensures LaneOf(tiles, At(tiles, col, row, lane)) == lane
    ensures At(tiles, col, row, lane).col == col && At(tiles, col, row, lane).row == row
  {
  }

  lemma ProgrammedAt(tiles: Array, col: nat, row: nat, lane: Switch)
    ensures Programmed(tiles, At(tiles, col, row, lane)) <==> InArray(tiles, col, row)
  {
  }

  /** The registers that setup programs. A block register holding a 1 for a line blocks it;
      writing a 0 changes nothing. `blocks`, `irq` and `l2Enabled` are those of the shim row:
      blocked lines, line numbers and enabled channels. `sealed` and `l1Enabled` are its L1
      controllers' blocked array broadcasts and enabled interrupts, and `arrayBlocks` are the
      directions blocked for the error broadcast in the array. */
  class ShimRow {
    const numCols: nat
    const gen: Generation
    const tiles: Array
    var blocks: set<(nat, Dir, nat)>
    var irq: map<nat, nat>
    var l2Enabled: map<nat, set<nat>>
    var sealed: set<nat>
    var l1Enabled: set<(nat, nat)>
    var arrayBlocks: set<(Node, Dir)>

    ghost predicate Untouched()
      reads this
    {
      blocks == {} && irq == map[] && l2Enabled == map[] && sealed == {} && l1Enabled == {} && arrayBlocks == {}
    }

    constructor (numCols: nat, gen: Generation, tiles: Array)
      ensures this.numCols == numCols && this.gen == gen && this.tiles == tiles && Untouched()
    {
      this.numCols, this.gen, this.tiles := numCols, gen, tiles;
      blocks, irq, l2Enabled, sealed, l1Enabled, arrayBlocks := {}, map[], map[], {}, {}, {};
    }

    method BlockMapDir(col: nat, sw: Switch, map32: nat, dirs: set<Dir>)
      modifies this`blocks
      ensures forall p: nat, d: Dir, l: nat :: (p, d, l) in blocks <==>
        (p, d, l) in old(blocks) || (p == Pos(col, sw) && d in dirs && l in Selected(map32))
    {
      BlockAll(Pos(col, sw), Selected(map32), dirs);
    }

    /** Writes the block registers of the given directions, one after the other. */
    method BlockAll(pos: nat, lines: set<nat>, dirs: set<Dir>)
      modifies this`blocks
      ensures forall p: nat, d: Dir, l: nat :: (p, d, l) in blocks <==>
        (p, d, l) in old(blocks) || (p == pos && d in dirs && l in lines)
    {
      var all := [South, West, North, East];
      for k := 0 to 4
        invariant forall p: nat, d: Dir, l: nat :: (p, d, l) in blocks <==>
          (p, d, l) in old(blocks) || (p == pos && d in dirs && d in all[..k] && l in lines)
      {
        if all[k] in dirs {
          blocks := blocks + set l | l in lines :: (pos, all[k], l);
        }
        assert all[..k + 1] == all[..k] + [all[k]];
      }
      forall d: Dir
        ensures d in all[..4]
      {
        assert all[0] == South && all[1] == West && all[2] == North && all[3] == East;
        match d
        case South => assert all[..4][0] == d;
        case West => assert all[..4][1] == d;
        case North => assert all[..4][2] == d;
        case East => assert all[..4][3] == d;
      }
    }

    method BlockDir(col: nat, sw: Switch, line: nat, dirs: set<Dir>)
      modifies this`blocks
      ensures forall p: nat, d: Dir, l: nat :: (p, d, l) in blocks <==>
        (p, d, l) in old(blocks) || (p == Pos(col, sw) && d in dirs && l == line)
    {
      BlockAll(Pos(col, sw), {line}, dirs);
    }

    /** The error broadcast of a switch in the array only goes south. */
    method BlockNode(n: Node)
      modifies this`arrayBlocks
      ensures forall x: Node, d: Dir :: (x, d) in arrayBlocks <==> (x, d) in old(arrayBlocks) || (x == n && d != South)
    {
      arrayBlocks := arrayBlocks + {(n, North), (n, East), (n, West)};
    }

    method BlockAieTile(col: nat, row: nat)
      modifies this`arrayBlocks
      ensures forall x: Node, d: Dir :: (x, d) in arrayBlocks <==>
        (x, d) in old(arrayBlocks) || (x.col == col && x.row == row && x.sw == A && d != South)
    {
      BlockNode(Node(col, row, Core, A));
      BlockNode(Node(col, row, Mem, A));
      forall x: Node | x.col == col && x.row == row && x.sw == A
        ensures x == Node(col, row, Core, A) || x == Node(col, row, Mem, A)
      {
        assert x.mod == Core || x.mod == Mem;
      }
    }

    method BlockMemTile(col: nat, row: nat)
      modifies this`arrayBlocks
      ensures forall x: Node, d: Dir :: (x, d) in arrayBlocks <==>
        (x, d) in old(arrayBlocks) || (x.col == col && x.row == row && x.mod == Mem && d != South)
    {
      BlockNode(Node(col, row, Mem, A));
      BlockNode(Node(col, row, Mem, B));
      forall x: Node | x.col == col && x.row == row && x.mod == Mem
        ensures x == Node(col, row, Mem, A) || x == Node(col, row, Mem, B)
      {
        assert x.sw == A || x.sw == B;
      }
    }

    /** The array part of the setup of one column. */
    method SetupArray(col: nat)
      modifies this`arrayBlocks
      ensures forall x: Node, d: Dir :: (x, d) in arrayBlocks <==>
        (x, d) in old(arrayBlocks) || (x.col == col && d != South && Programmed(tiles, x))
    {
      var row := tiles.aieStart;
      while row < tiles.aieEnd
        invariant row == tiles.aieStart || row <= tiles.aieEnd
        invariant forall x: Node, d: Dir :: (x, d) in arrayBlocks <==>
          || (x, d) in old(arrayBlocks)
          || (x.col == col && d != South && x.sw == A && InRows(tiles, x, tiles.aieStart, row))
      {
        if (col, row) in tiles.requested {
          BlockAieTile(col, row);
        }
        row := row + 1;
      }
      label L:
      row := tiles.memStart;
      while row < tiles.memEnd
        invariant row == tiles.memStart || row <= tiles.memEnd
        invariant forall x: Node, d: Dir :: (x, d) in arrayBlocks <==>
          || (x, d) in old@L(arrayBlocks)
          || (x.col == col && d != South && x.mod == Mem && InRows(tiles, x, tiles.memStart, row))
      {
        if (col, row) in tiles.requested {
          BlockMemTile(col, row);
        }
        row := row + 1;
      }
    }

    /** The L1 controllers of a column: broadcasts of the array do not pass them directly, and
        raise an interrupt instead; so do the errors of the shim tile, in switch A. */
    method SetupL1(col: nat)
      modifies this`sealed, this`l1Enabled
      ensures sealed == old(sealed) + {Pos(col, A), Pos(col, B)}
      ensures l1Enabled == old(l1Enabled) + L1Enables(col)
    {
      sealed := sealed + {Pos(col, A)};
      sealed := sealed + {Pos(col, B)};
      l1Enabled := l1Enabled + {(Pos(col, A), ERROR_BROADCAST_ID)};
      l1Enabled := l1Enabled + {(Pos(col, B), ERROR_BROADCAST_ID)};
      l1Enabled := l1Enabled + {(Pos(col, A), ERROR_SHIM_INTR_ID)};
    }

    /** The routing of a column's interrupts along the shim row. */
    method SetupColumn(col: nat)
      requires col < numCols
      modifies this`blocks, this`irq, this`l2Enabled
      ensures forall p: nat, d: Dir, l: nat :: (p, d, l) in blocks <==>
        (p, d, l) in old(blocks) || (ColOf(p) == col && Blocks(gen, numCols, p, d, l))
      ensures irq == old(irq)[Pos(col, A) := IrqId(gen, numCols, col, A)][Pos(col, B) := IrqId(gen, numCols, col, B)]
      ensures l2Enabled == if IsNoc(col) then old(l2Enabled)[col := Lines(6)] else old(l2Enabled)
    {
      var idA := IrqId(gen, numCols, col, A);
      irq := irq[Pos(col, A) := idA];
      var idB := IrqId(gen, numCols, col, B);
      irq := irq[Pos(col, B) := idB];
      var dirsA: set<Dir>;
      var found, next := FindNextNoCTile(numCols, col);
      SetupMasks(idB);
      hide IrqId, Selected, NextNoc, Lines;
      if IsNoc(col) {
        dirsA := {North, South, West};
        BlockMapDir(col, B, if found then Pow2(idB + 1) - 1 else ERROR_L2_ENABLE, {North, South, West, East});
        l2Enabled := l2Enabled[col := Selected(ERROR_L2_ENABLE)];
      } else {
        dirsA := if found then {North, South, West} else {North, South, East};
        BlockDir(col, B, idB, dirsA);
      }
      BlockDir(col, A, idA, dirsA);
      forall p: nat, d: Dir, l: nat
        ensures (p, d, l) in blocks <==> (p, d, l) in old(blocks) || (ColOf(p) == col && Blocks(gen, numCols, p, d, l))
      {
        assert ColOf(p) == col ==> p == Pos(col, A) || p == Pos(col, B);
      }
    }

    /** The interrupts that setup enables in a column's L1 controllers. */
    function L1Enables(col: nat): set<(nat, nat)> {
      {(Pos(col, A), ERROR_BROADCAST_ID), (Pos(col, B), ERROR_BROADCAST_ID), (Pos(col, A), ERROR_SHIM_INTR_ID)}
    }

    /** The registers of the columns before `n` are set up and the others are not touched. */
    ghost predicate SetUp(n: nat)
      reads this
    {
      && (forall p: nat, d: Dir, l: nat :: (p, d, l) in blocks <==> ColOf(p) < n && Blocks(gen, numCols, p, d, l))
      && (forall p: nat :: p in irq <==> p < 2 * n)
      && (forall p: nat | p < 2 * n :: irq[p] == IrqId(gen, numCols, ColOf(p), SwOf(p)))
      && (forall c: nat :: c in l2Enabled <==> c < n && IsNoc(c))
      && (forall c: nat | c in l2Enabled :: l2Enabled[c] == Lines(6))
    }

    lemma ColumnIrqs(was: map<nat, nat>, now: map<nat, nat>, col: nat)
      requires forall p: nat :: p in was <==> p < 2 * col
      requires forall p: nat | p < 2 * col :: was[p] == IrqId(gen, numCols, ColOf(p), SwOf(p))
      requires now == was[Pos(col, A) := IrqId(gen, numCols, col, A)][Pos(col, B) := IrqId(gen, numCols, col, B)]
      ensures forall p: nat :: p in now <==> p < 2 * (col + 1)
      ensures forall p: nat | p < 2 * (col + 1) :: now[p] == IrqId(gen, numCols, ColOf(p), SwOf(p))
    {
    }

    twostate lemma ColumnAdded(new col: nat)
      requires old(SetUp(col)) && col < numCols
      requires forall p: nat, d: Dir, l: nat :: (p, d, l) in blocks <==>
        (p, d, l) in old(blocks) || (ColOf(p) == col && Blocks(gen, numCols, p, d, l))
      requires irq == old(irq)[Pos(col, A) := IrqId(gen, numCols, col, A)][Pos(col, B) := IrqId(gen, numCols, col, B)]
      requires l2Enabled == if IsNoc(col) then old(l2Enabled)[col := Lines(6)] else old(l2Enabled)
      ensures SetUp(col + 1)
    {
      ColumnIrqs(old(irq), irq, col);
      forall p: nat, d: Dir, l: nat
        ensures (p, d, l) in blocks <==> ColOf(p) < col + 1 && Blocks(gen, numCols, p, d, l)
      {
        assert ColOf(p) < col + 1 <==> ColOf(p) < col || ColOf(p) == col;
      }
      forall c: nat
        ensures c in l2Enabled <==> c < col + 1 && IsNoc(c)
        ensures c in l2Enabled ==> l2Enabled[c] == Lines(6)
      {
      }
    }

    /** The same for the array and the L1 controllers. */
    ghost predicate RestSetUp(n: nat)
      reads this
    {
      && (forall x: Node, d: Dir :: (x, d) in arrayBlocks <==> x.col < n && d != South && Programmed(tiles, x))
      && (forall p: nat :: p in sealed <==> p < 2 * n)
      && (forall p: nat, id: nat :: (p, id) in l1Enabled <==>
            p < 2 * n && (id == ERROR_BROADCAST_ID || (id == ERROR_SHIM_INTR_ID && SwOf(p) == A)))
    }

    twostate lemma RestAdded(new col: nat)
      requires old(RestSetUp(col))
      requires forall x: Node, d: Dir :: (x, d) in arrayBlocks <==>
        (x, d) in old(arrayBlocks) || (x.col == col && d != South && Programmed(tiles, x))
      requires sealed == old(sealed) + {Pos(col, A), Pos(col, B)}
      requires l1Enabled == old(l1Enabled) + L1Enables(col)
      ensures RestSetUp(col + 1)
    {
    }

    /** The whole setup, column after column. Afterwards every interrupt of an L1 controller
        reaches one L2 controller on a line of its own, on AIE-ML always, and on AIE if and only
        if the number of columns is 2 modulo 4. */
    method ErrorHandlingInit()
      requires Untouched()
      modifies this
      ensures SetUp(numCols) && RestSetUp(numCols)
      ensures numCols >= 3 ==> (RoutedOnce() <==> gen == AieMl || numCols % 4 == 2)
    {
      for col := 0 to numCols
        invariant SetUp(col) && RestSetUp(col)
      {
        label L:
        SetupArray(col);
        SetupL1(col);
        SetupColumn(col);
        ColumnAdded@L(col);
        RestAdded@L(col);
      }
      if numCols >= 3 {
        RoutedIff();
      }
    }

    /** One switch passes an event on to the next. */
    predicate Passes(line: nat, p: nat, q: nat)
      reads this
    {
      || (q == p + 1 && (p, East, line) !in blocks)
      || (p == q + 1 && (p, West, line) !in blocks)
    }

    /** The L1 controller at `p` interrupts the L2 controller of a column. */
    ghost predicate Reaches(p: nat, l2: nat)
      reads this
    {
      && p in irq && l2 in l2Enabled && irq[p] in l2Enabled[l2]
      && exists path: seq<nat> :: Passed(irq[p], path) && path[0] == p && ColOf(path[|path| - 1]) == l2
    }

    ghost predicate Passed(line: nat, path: seq<nat>)
      reads this
    {
      && path != [] && (forall i | 0 <= i < |path| :: path[i] < 2 * numCols)
      && forall i | 0 <= i < |path| - 1 :: Passes(line, path[i], path[i + 1])
    }

    /** Every L1 controller interrupts exactly one L2 controller, and those with the same L2
        controller have different channels of it. */
    ghost predicate RoutedOnce()
      requires numCols >= 3
      reads this
    {
      && (forall p: nat | p < 2 * numCols :: p in irq)
      && (forall p: nat, l2: nat | p < 2 * numCols :: Reaches(p, l2) <==> l2 == Target(numCols, ColOf(p)))
      && (forall p: nat, q: nat | p < q < 2 * numCols && Target(numCols, ColOf(p)) == Target(numCols, ColOf(q)) ::
            irq[p] != irq[q])
    }

    lemma ReachesIs(p: nat, l2: nat)
      requires SetUp(numCols) && p < 2 * numCols
      ensures Reaches(p, l2) <==> l2 < numCols && IsNoc(l2) && irq[p] < 6 && Delivered(gen, numCols, p, l2)
    {
      forall path: seq<nat>
        ensures Passed(irq[p], path) <==> Way(gen, numCols, irq[p], path)
      {
        SameHops(irq[p], path);
      }
    }

    lemma SameHops(line: nat, path: seq<nat>)
      requires SetUp(numCols)
      ensures Passed(line, path) <==> Way(gen, numCols, line, path)
    {
      forall p: nat, q: nat | p < 2 * numCols
        ensures Passes(line, p, q) <==> Hop(gen, numCols, line, p, q)
      {
      }
    }

    lemma RoutedIs()
      requires SetUp(numCols) && numCols >= 3
      ensures RoutedOnce() <==> InRange(gen, numCols) && NoClash(gen, numCols) && DeliveredOnce(gen, numCols)
    {
      hide Reaches, Delivered, Target, IrqId, Blocks;
      forall p: nat, l2: nat | p < 2 * numCols
        ensures Reaches(p, l2) <==> l2 < numCols && IsNoc(l2) && irq[p] < 6 && Delivered(gen, numCols, p, l2)
      {
        ReachesIs(p, l2);
      }
      forall p: nat | p < 2 * numCols
        ensures Target(numCols, ColOf(p)) < numCols && IsNoc(Target(numCols, ColOf(p)))
      {
        TargetIs(numCols, ColOf(p));
      }
      if RoutedOnce() {
        forall p: nat | p < 2 * numCols
          ensures IrqId(gen, numCols, ColOf(p), SwOf(p)) < 6
        {
          assert Reaches(p, Target(numCols, ColOf(p)));
        }
      }
    }

    lemma RoutedIff()
      requires SetUp(numCols) && numCols >= 3
      ensures RoutedOnce() <==> gen == AieMl || numCols % 4 == 2
    {
      hide RoutedOnce, InRange, NoClash, DeliveredOnce, SetUp;
      RoutedIs();
      MlRoutes(numCols);
      AieRoutesIff(numCols);
    }

    /** No interrupt leaves the shim row: every switch blocks its own line, if it is one that an
        L2 controller has, to the north and to the south. */
    lemma StaysInRow(p: nat)
      requires SetUp(numCols) && p < 2 * numCols && irq[p] < 6
      ensures (p, North, irq[p]) in blocks && (p, South, irq[p]) in blocks
    {
    }

    /** A way of an error broadcast in the array: it visits programmed switches, leaves none in a
        blocked direction, and a hop south follows the lane. */
    ghost predicate ArrayWay(path: seq<Node>, dirs: seq<Dir>)
      reads this
    {
      && path != [] && |dirs| == |path|
      && (forall k | 0 <= k < |path| :: path[k].col < numCols && Programmed(tiles, path[k]))
      && (forall k | 0 <= k < |path| :: (path[k], dirs[k]) !in arrayBlocks)
      && forall k | 0 <= k < |path| - 1 && dirs[k] == South ::
        path[k].row > 0 && path[k + 1] == At(tiles, path[k].col, path[k].row - 1, LaneOf(tiles, path[k]))
    }

    /** An error broadcast that starts at `n` raises an interrupt in the L1 controller at `p`. */
    ghost predicate Raises(n: Node, p: nat)
      reads this
    {
      exists path: seq<Node>, dirs: seq<Dir> :: ArrayWay(path, dirs) && path[0] == n && EndsAt(path, dirs, p)
    }

    ghost predicate EndsAt(path: seq<Node>, dirs: seq<Dir>, p: nat)
      requires path != [] && |dirs| == |path|
      reads this
    {
      var last := path[|path| - 1];
      && last.row == 1 && dirs[|path| - 1] == South
      && p == Pos(last.col, LaneOf(tiles, last)) && (p, ERROR_BROADCAST_ID) in l1Enabled
    }

    /** It can only run straight down its lane. */
    lemma {:induction false} GoesSouth(path: seq<Node>, dirs: seq<Dir>, i: nat)
      requires RestSetUp(numCols) && ArrayWay(path, dirs) && i < |path|
      ensures path[i].row + i == path[0].row
      ensures i > 0 ==> path[i] == At(tiles, path[0].col, path[i].row, LaneOf(tiles, path[0]))
    {
      if i > 0 {
        GoesSouth(path, dirs, i - 1);
        assert dirs[i - 1] == South;
        LaneAt(tiles, path[0].col, path[i - 1].row, LaneOf(tiles, path[0]));
      }
    }

    /** It arrives at the L1 controller of its lane, and at no other, if and only if every tile
        below it is clocked. */
    lemma RaisesIff(col: nat, row: nat, lane: Switch, p: nat)
      requires RestSetUp(numCols) && col < numCols && 1 <= row && InArray(tiles, col, row)
      ensures Raises(At(tiles, col, row, lane), p) <==>
        p == Pos(col, lane) && forall k | 1 <= k < row :: InArray(tiles, col, k)
    {
      var n := At(tiles, col, row, lane);
      if Raises(n, p) {
        var path, dirs :| ArrayWay(path, dirs) && path[0] == n && EndsAt(path, dirs, p);
        RaisesOnly(col, row, lane, p, path, dirs);
      }
      if p == Pos(col, lane) && forall k | 1 <= k < row :: InArray(tiles, col, k) {
        RaisesDown(col, row, lane);
      }
    }

    lemma RaisesOnly(col: nat, row: nat, lane: Switch, p: nat, path: seq<Node>, dirs: seq<Dir>)
      requires RestSetUp(numCols) && ArrayWay(path, dirs) && EndsAt(path, dirs, p)
      requires 1 <= row && path[0] == At(tiles, col, row, lane)
      ensures p == Pos(col, lane) && forall k | 1 <= k < row :: InArray(tiles, col, k)
    {
      LaneAt(tiles, col, row, lane);
      GoesSouth(path, dirs, |path| - 1);
      LaneAt(tiles, col, 1, lane);
      forall k | 1 <= k < row
        ensures InArray(tiles, col, k)
      {
        GoesSouth(path, dirs, row - k);
        ProgrammedAt(tiles, col, k, lane);
      }
    }

    lemma RaisesDown(col: nat, row: nat, lane: Switch)
      requires RestSetUp(numCols) && col < numCols && 1 <= row
      requires forall k | 1 <= k <= row :: InArray(tiles, col, k)
      ensures Raises(At(tiles, col, row, lane), Pos(col, lane))
    {
      hide RestSetUp, At, LaneOf, InArray, Programmed;
      var path := seq(row, i requires 0 <= i < row => At(tiles, col, row - i, lane));
      var dirs: seq<Dir> := seq(row, _ => South);
      forall i | 0 <= i < row
        ensures path[i].col == col && path[i].row == row - i && LaneOf(tiles, path[i]) == lane
        ensures Programmed(tiles, path[i]) && (path[i], South) !in arrayBlocks
      {
        assert InArray(tiles, col, row - i);
        ProgrammedAt(tiles, col, row - i, lane);
        LaneAt(tiles, col, row - i, lane);
        SouthOpen(path[i]);
      }
      assert ArrayWay(path, dirs);
      L1Open(col, lane);
    }

    lemma SouthOpen(n: Node)
      requires RestSetUp(numCols)
      ensures (n, South) !in arrayBlocks
    {
    }

    lemma L1Open(col: nat, sw: Switch)
      requires RestSetUp(numCols) && col < numCols
      ensures (Pos(col, sw), ERROR_BROADCAST_ID) in l1Enabled
    {
    }

    /** An error broadcast that starts at `n` interrupts the L2 controller of a column. */
    ghost predicate Interrupts(n: Node, l2: nat)
      reads this
    {
      exists p: nat :: Raises(n, p) && Reaches(p, l2)
    }

    /** From a tile of the array to an L2 controller: where the routing along the shim row is
        right, the error broadcast of a clocked tile interrupts the L2 controller meant for its
        column and no other, if and only if every tile below it is clocked. */
    lemma InterruptsIff(col: nat, row: nat, lane: Switch, l2: nat)
      requires SetUp(numCols) && RestSetUp(numCols) && numCols >= 3 && (gen == AieMl || numCols % 4 == 2)
      requires col < numCols && 1 <= row && InArray(tiles, col, row)
      ensures Interrupts(At(tiles, col, row, lane), l2) <==>
        l2 == Target(numCols, col) && forall k | 1 <= k < row :: InArray(tiles, col, k)
    {
      hide SetUp, RestSetUp, Raises, Reaches, Target, InArray, At;
      RoutedIff();
      var n, p0 := At(tiles, col, row, lane), Pos(col, lane);
      assert ColOf(p0) == col;
      assert Reaches(p0, l2) <==> l2 == Target(numCols, col);
      forall p: nat
        ensures Raises(n, p) <==> p == p0 && forall k | 1 <= k < row :: InArray(tiles, col, k)
      {
        RaisesIff(col, row, lane, p);
      }
    }
  }

  // ---------------------------------------------------------------- propagation

  /** A way of an event on `line` through the network: neighbouring switches, never in a
      direction that the switch it leaves blocks for the line. */
  ghost predicate Way(gen: Generation, numCols: nat, line: nat, path: seq<nat>) {
    && path != []
    && (forall i | 0 <= i < |path| :: path[i] < 2 * numCols)
    && forall i | 0 <= i < |path| - 1 :: Hop(gen, numCols, line, path[i], path[i + 1])
  }

  predicate Hop(gen: Generation, numCols: nat, line: nat, p: nat, q: nat) {
    || (q == p + 1 && !Blocks(gen, numCols, p, East, line))
    || (p == q + 1 && !Blocks(gen, numCols, p, West, line))
  }

  /** The L2 controller of column `l2` sees an event raised by the L1 controller at `p`. */
  ghost predicate Delivered(gen: Generation, numCols: nat, p: nat, l2: nat) {
    exists path: seq<nat> ::
      && Way(gen, numCols, IrqId(gen, numCols, ColOf(p), SwOf(p)), path)
      && path[0] == p && ColOf(path[|path| - 1]) == l2
  }

  /** The L2 controller meant for a column: the one in its own column, else the next one to
      the east, else the last one to the west. */
  function Target(numCols: nat, col: nat): nat
    requires col < numCols && numCols >= 3
  {
    if IsNoc(col) then col
    else if NextNoc(col) < numCols then NextNoc(col)
    else col / 4 * 4 - 1
  }

  /** Every line number is one an L2 controller has. */
  ghost predicate InRange(gen: Generation, numCols: nat) {
    forall p: nat | p < 2 * numCols :: IrqId(gen, numCols, ColOf(p), SwOf(p)) < 6
  }

  /** Sources with the same L2 controller use different lines. */
  ghost predicate NoClash(gen: Generation, numCols: nat)
    requires numCols >= 3
  {
    forall p: nat, q: nat | p < q < 2 * numCols && Target(numCols, ColOf(p)) == Target(numCols, ColOf(q)) ::
      IrqId(gen, numCols, ColOf(p), SwOf(p)) != IrqId(gen, numCols, ColOf(q), SwOf(q))
  }

  /** Every interrupt reaches its L2 controller and no other. */
  ghost predicate DeliveredOnce(gen: Generation, numCols: nat)
    requires numCols >= 3
  {
    forall p: nat, l2: nat | p < 2 * numCols && l2 < numCols && IsNoc(l2) ::
      Delivered(gen, numCols, p, l2) <==> l2 == Target(numCols, ColOf(p))
  }

  // ---------------------------------------------------------------- delivery

  /** Nothing leaves an interval of switches whose two ends are blocked or at the border. */
  lemma {:induction false} Confined(gen: Generation, numCols: nat, line: nat, path: seq<nat>, lo: nat, hi: nat, i: nat)
    requires Way(gen, numCols, line, path) && lo <= path[0] <= hi && i < |path|
    requires Blocks(gen, numCols, lo, West, line) || lo == 0
    requires Blocks(gen, numCols, hi, East, line) || hi == 2 * numCols - 1
    ensures lo <= path[i] <= hi
  {
    hide Blocks;
    if i > 0 {
      Confined(gen, numCols, line, path, lo, hi, i - 1);
      assert Hop(gen, numCols, line, path[i - 1], path[i]);
    }
  }

  /** The switches from `p` to `q`, going east or west. */
  function Line(p: nat, q: nat): (path: seq<nat>)
    ensures path != [] && path[0] == p && path[|path| - 1] == q
  {
    if p <= q then seq(q - p + 1, i requires 0 <= i => p + i)
    else seq(p - q + 1, i requires 0 <= i <= p => p - i)
  }

  /** No switch between `p` and `q` stops the line on its way from `p` to `q`. */
  ghost predicate Open(gen: Generation, numCols: nat, line: nat, p: nat, q: nat) {
    && p < 2 * numCols && q < 2 * numCols
    && (forall k: nat | p <= k < q :: !Blocks(gen, numCols, k, East, line))
    && (forall k: nat | q < k <= p :: !Blocks(gen, numCols, k, West, line))
  }

  lemma OpenWay(gen: Generation, numCols: nat, line: nat, p: nat, q: nat)
    requires Open(gen, numCols, line, p, q)
    ensures Way(gen, numCols, line, Line(p, q))
  {
  }

  /** The switches an AIE-ML interrupt can get to. */
  function West0(numCols: nat, p: nat): nat
    requires p < 2 * numCols && numCols >= 3
  {
    var c := ColOf(p);
    if !IsNoc(c) && NextNoc(c) >= numCols then 2 * Target(numCols, c) + 1 else p
  }

  function East0(numCols: nat, p: nat): nat
    requires p < 2 * numCols && numCols >= 3
  {
    var c := ColOf(p);
    if !IsNoc(c) && NextNoc(c) >= numCols then p else 2 * Target(numCols, c) + 1
  }

  lemma TargetIs(numCols: nat, col: nat)
    requires numCols >= 3 && col < numCols
    ensures var t := Target(numCols, col);
      && t < numCols && IsNoc(t)
      && (IsNoc(col) ==> t == col)
      && (!IsNoc(col) && NextNoc(col) < numCols ==> t > col && NextNoc(t) > t && AieMlIrqId(numCols, t, B) == 5)
      && (!IsNoc(col) && NextNoc(col) >= numCols ==> t < col && NextNoc(t) >= numCols)
  {
  }

  lemma Ends(numCols: nat, p: nat)
    requires p < 2 * numCols && numCols >= 3
    ensures var line, t := IrqId(AieMl, numCols, ColOf(p), SwOf(p)), Target(numCols, ColOf(p));
      && West0(numCols, p) <= p <= East0(numCols, p)
      && Blocks(AieMl, numCols, West0(numCols, p), West, line)
      && Blocks(AieMl, numCols, East0(numCols, p), East, line)
      && t < numCols && IsNoc(t)
  {
    TargetIs(numCols, ColOf(p));
    MlIdBound(numCols, ColOf(p), SwOf(p));
    var t := Target(numCols, ColOf(p));
    assert ColOf(2 * t + 1) == t && SwOf(2 * t + 1) == B;
  }

  lemma OnlyTarget(numCols: nat, p: nat, q: nat)
    requires p < 2 * numCols && numCols >= 3 && West0(numCols, p) <= q <= East0(numCols, p) && IsNoc(ColOf(q))
    ensures ColOf(q) == Target(numCols, ColOf(p))
  {
  }

  lemma OpenToTarget(numCols: nat, p: nat)
    requires p < 2 * numCols && numCols >= 3
    ensures Open(AieMl, numCols, IrqId(AieMl, numCols, ColOf(p), SwOf(p)), p, 2 * Target(numCols, ColOf(p)) + 1)
  {
    var line, goal := IrqId(AieMl, numCols, ColOf(p), SwOf(p)), 2 * Target(numCols, ColOf(p)) + 1;
    forall k: nat | p <= k < goal
      ensures !Blocks(AieMl, numCols, k, East, line)
    {
      OpenEast(numCols, p, k);
    }
    forall k: nat | goal < k <= p
      ensures !Blocks(AieMl, numCols, k, West, line)
    {
      OpenWest(numCols, p, k);
    }
  }

  lemma OpenEast(numCols: nat, p: nat, k: nat)
    requires p < 2 * numCols && numCols >= 3 && p <= k < 2 * Target(numCols, ColOf(p)) + 1
    ensures !Blocks(AieMl, numCols, k, East, IrqId(AieMl, numCols, ColOf(p), SwOf(p)))
  {
  }

  lemma OpenWest(numCols: nat, p: nat, k: nat)
    requires p < 2 * numCols && numCols >= 3 && 2 * Target(numCols, ColOf(p)) + 1 < k <= p
    ensures !Blocks(AieMl, numCols, k, West, IrqId(AieMl, numCols, ColOf(p), SwOf(p)))
  {
    assert !IsNoc(ColOf(p)) && NextNoc(ColOf(p)) >= numCols;
    assert !IsNoc(ColOf(k)) && NextNoc(ColOf(k)) >= numCols;
  }

  lemma MlDelivers(numCols: nat, p: nat, l2: nat)
    requires numCols >= 3 && p < 2 * numCols && l2 < numCols && IsNoc(l2)
    ensures Delivered(AieMl, numCols, p, l2) <==> l2 == Target(numCols, ColOf(p))
  {
    var line, t := IrqId(AieMl, numCols, ColOf(p), SwOf(p)), Target(numCols, ColOf(p));
    if l2 == t {
      OpenToTarget(numCols, p);
      OpenWay(AieMl, numCols, line, p, 2 * t + 1);
    }
    forall path: seq<nat> | Way(AieMl, numCols, line, path) && path[0] == p && ColOf(path[|path| - 1]) == l2
      ensures l2 == t
    {
      Ends(numCols, p);
      Confined(AieMl, numCols, line, path, West0(numCols, p), East0(numCols, p), |path| - 1);
      OnlyTarget(numCols, p, path[|path| - 1]);
    }
  }

  /** AIE-ML: in every partition with a NoC column, every switch has a line of its own to
      exactly one L2 controller. */
  lemma MlRoutes(numCols: nat)
    requires numCols >= 3
    ensures InRange(AieMl, numCols) && NoClash(AieMl, numCols) && DeliveredOnce(AieMl, numCols)
  {
    forall p: nat, l2: nat | p < 2 * numCols && l2 < numCols && IsNoc(l2)
      ensures Delivered(AieMl, numCols, p, l2) <==> l2 == Target(numCols, ColOf(p))
    {
      MlDelivers(numCols, p, l2);
    }
    forall p: nat, q: nat | p < q < 2 * numCols && Target(numCols, ColOf(p)) == Target(numCols, ColOf(q))
      ensures IrqId(AieMl, numCols, ColOf(p), SwOf(p)) != IrqId(AieMl, numCols, ColOf(q), SwOf(q))
    {
      MlNoClash(numCols, p, q);
    }
  }

  /** The column and switch a line belongs to, given its L2 controller. */
  function MlSource(l2: nat, id: nat): (int, nat) {
    if l2 % 4 == 2 then (l2 - 2 + id / 2, id % 2) else (l2 + id / 2, id % 2)
  }

  lemma MlSourceIs(numCols: nat, col: nat, sw: Switch)
    requires numCols >= 3 && col < numCols
    ensures MlSource(Target(numCols, col), AieMlIrqId(numCols, col, sw)) == (col, Bit(sw))
  {
  }

  lemma MlNoClash(numCols: nat, p: nat, q: nat)
    requires numCols >= 3 && p < q < 2 * numCols && Target(numCols, ColOf(p)) == Target(numCols, ColOf(q))
    ensures IrqId(AieMl, numCols, ColOf(p), SwOf(p)) != IrqId(AieMl, numCols, ColOf(q), SwOf(q))
  {
  }

  // ---------------------------------------------------------------- the AIE formula

  lemma SameIds(numCols: nat, col: nat, sw: Switch)
    requires numCols % 4 == 2 && col < numCols && numCols >= 3
    ensures AieIrqId(numCols, col, sw) == AieMlIrqId(numCols, col, sw)
  {
  }

  lemma SameBlocks(numCols: nat, p: nat, dir: Dir, line: nat)
    requires numCols % 4 == 2 && numCols >= 3
    ensures Blocks(Aie, numCols, p, dir, line) == Blocks(AieMl, numCols, p, dir, line)
  {
    if p < 2 * numCols {
      SameIds(numCols, ColOf(p), A);
      SameIds(numCols, ColOf(p), B);
    }
  }

  lemma SameWays(numCols: nat, line: nat, path: seq<nat>)
    requires numCols % 4 == 2 && numCols >= 3
    ensures Way(Aie, numCols, line, path) == Way(AieMl, numCols, line, path)
  {
    forall i | 0 <= i < |path| - 1
      ensures Hop(Aie, numCols, line, path[i], path[i + 1]) == Hop(AieMl, numCols, line, path[i], path[i + 1])
    {
      SameBlocks(numCols, path[i], East, line);
      SameBlocks(numCols, path[i], West, line);
    }
  }

  lemma SameDelivery(numCols: nat, p: nat, l2: nat)
    requires numCols % 4 == 2 && numCols >= 3 && p < 2 * numCols
    ensures Delivered(Aie, numCols, p, l2) == Delivered(AieMl, numCols, p, l2)
  {
    SameIds(numCols, ColOf(p), SwOf(p));
    forall path: seq<nat>
      ensures Way(Aie, numCols, IrqId(Aie, numCols, ColOf(p), SwOf(p)), path)
           == Way(AieMl, numCols, IrqId(AieMl, numCols, ColOf(p), SwOf(p)), path)
    {
      SameWays(numCols, IrqId(Aie, numCols, ColOf(p), SwOf(p)), path);
    }
  }

  /** AIE: the line numbers are right exactly when two columns follow the last NoC column. */
  lemma AieRoutesIff(numCols: nat)
    requires numCols >= 3
    ensures InRange(Aie, numCols) && NoClash(Aie, numCols) <==> numCols % 4 == 2
    ensures numCols % 4 == 2 ==> DeliveredOnce(Aie, numCols)
  {
    if numCols % 4 == 2 {
      MlRoutes(numCols);
      forall p: nat | p < 2 * numCols
        ensures IrqId(Aie, numCols, ColOf(p), SwOf(p)) == IrqId(AieMl, numCols, ColOf(p), SwOf(p)) < 6
      {
        SameIds(numCols, ColOf(p), SwOf(p));
      }
      forall p: nat, l2: nat | p < 2 * numCols && l2 < numCols && IsNoc(l2)
        ensures Delivered(Aie, numCols, p, l2) <==> l2 == Target(numCols, ColOf(p))
      {
        SameDelivery(numCols, p, l2);
      }
    } else {
      AieFails(numCols);
    }
  }

  lemma AieOverflow(numCols: nat, c: nat)
    requires c < numCols && c % 4 == 2 && c + 3 > numCols
    ensures !InRange(Aie, numCols)
  {
    assert ColOf(Pos(c, A)) == c && SwOf(Pos(c, A)) == A;
    assert IrqId(Aie, numCols, ColOf(Pos(c, A)), SwOf(Pos(c, A))) == 6;
  }

  /** One column too many or too few, and a line is out of range or used twice. */
  lemma AieFails(numCols: nat)
    requires numCols >= 3 && numCols % 4 != 2
    ensures !(InRange(Aie, numCols) && NoClash(Aie, numCols))
  {
    var k, r := numCols / 4, numCols % 4;
    if r == 1 {
      DivideIs(numCols - 2, 4, k - 1, 3);
      SharedLine(numCols);
    } else {
      var c := if r == 3 then numCols - 1 else numCols - 2;
      DivideIs(c, 4, if r == 3 then k else k - 1, 2);
      AieOverflow(numCols, c);
    }
  }

  /** With one column behind the last NoC column, that column and its neighbour use the same
      line. */
  lemma SharedLine(numCols: nat)
    requires numCols >= 3 && numCols % 4 == 1 && (numCols - 2) % 4 == 3
    ensures !NoClash(Aie, numCols)
  {
    hide NextNoc;
    var p, q := Pos(numCols - 2, A), Pos(numCols - 1, A);
    assert ColOf(p) == numCols - 2 && ColOf(q) == numCols - 1 && SwOf(p) == SwOf(q) == A;
    assert Target(numCols, numCols - 2) == numCols - 2;
    assert Target(numCols, numCols - 1) == numCols - 2;
    assert IrqId(Aie, numCols, numCols - 2, A) == IrqId(Aie, numCols, numCols - 1, A);
  }

  // ---------------------------------------------------------------- the way back

  /** From a set bit of an L2 status to the column and switch it is meant to come from. The
      column is an 8-bit difference. */
  function MapL2MaskToL1(numCols: nat, index: nat, l2: nat): (int, nat) {
    if l2 + 3 >= numCols then (l2 + index % 6 / 2, index % 6 % 2)
    else if l2 % 2 == 0 then (l2 - (2 - index % 6 / 2), index % 6 % 2)
    else (l2, index)
  }

  /** The mapping finds the source of every interrupt. */
  ghost predicate MapsBack(gen: Generation, numCols: nat)
    requires numCols >= 3
  {
    forall p: nat | p < 2 * numCols ::
      MapL2MaskToL1(numCols, IrqId(gen, numCols, ColOf(p), SwOf(p)), Target(numCols, ColOf(p)))
        == (ColOf(p), Bit(SwOf(p)))
  }

  /** The mapping inverts the routing exactly in partitions with two columns behind the last
      NoC column. */
  lemma MapsBackIff(gen: Generation, numCols: nat)
    requires numCols >= 3
    ensures MapsBack(gen, numCols) <==> numCols % 4 == 2
  {
    if numCols % 4 == 2 {
      forall p: nat | p < 2 * numCols
        ensures MapL2MaskToL1(numCols, IrqId(gen, numCols, ColOf(p), SwOf(p)), Target(numCols, ColOf(p)))
             == (ColOf(p), Bit(SwOf(p)))
      {
        SameIds(numCols, ColOf(p), SwOf(p));
        MapsOneBack(numCols, p);
      }
    } else {
      MapsBackFails(gen, numCols);
    }
  }

  lemma MapsBackFails(gen: Generation, numCols: nat)
    requires numCols >= 3 && numCols % 4 != 2
    ensures !MapsBack(gen, numCols)
  {
    var k, r := numCols / 4, numCols % 4;
    var col := if r == 3 then 4 * k + 1 else 4 * (k - 1) + r + 1;
    DivideIs(col, 4, if r == 3 then k else k - 1, if r == 3 then 1 else r + 1);
    MapMisses(gen, numCols, col);
    assert ColOf(Pos(col, A)) == col && SwOf(Pos(col, A)) == A;
  }

  /** A column that the mapping does not find. */
  lemma MapMisses(gen: Generation, numCols: nat, col: nat)
    requires col < numCols && numCols >= 3 && (col % 4 == 1 || col % 4 == 2)
    requires if col % 4 == 1 then numCols == col + 2 || numCols == col + 3 else numCols == col + 3
    ensures MapL2MaskToL1(numCols, IrqId(gen, numCols, col, A), Target(numCols, col)).0 != col
  {
    hide NextNoc;
    var id := IrqId(gen, numCols, col, A);
    if col % 4 == 1 {
      assert Target(numCols, col) == col + 1;
      assert id == 2 || id == 4;
    } else {
      assert Target(numCols, col) == col && id == 4;
    }
  }

  lemma MapsOneBack(numCols: nat, p: nat)
    requires numCols >= 3 && numCols % 4 == 2 && p < 2 * numCols
    ensures MapL2MaskToL1(numCols, AieMlIrqId(numCols, ColOf(p), SwOf(p)), Target(numCols, ColOf(p)))
         == (ColOf(p), Bit(SwOf(p)))
  {
    var col := ColOf(p);
    assert col == 4 * (col / 4) + col % 4;
    MlSourceIs(numCols, col, SwOf(p));
    MlIdBound(numCols, col, SwOf(p));
    TargetIs(numCols, col);
    MapIsSource(numCols, Target(numCols, col), AieMlIrqId(numCols, col, SwOf(p)));
  }

  lemma MapIsSource(numCols: nat, t: nat, id: nat)
    requires IsNoc(t) && id < 6
    requires t % 4 == 3 && t + 3 < numCols ==> id < 2
    requires t + 3 >= numCols ==> t % 4 == 3
    ensures MapL2MaskToL1(numCols, id, t) == MlSource(t, id)
  {
    Parity(t);
    assert id % 6 == id;
    if id < 2 {
      assert id / 2 == 0 && id % 2 == id;
    }
  }

  lemma Parity(t: nat)
    ensures t % 4 == 2 ==> t % 2 == 0
    ensures t % 4 == 3 ==> t % 2 == 1
  {
  }

  lemma MlIdBound(numCols: nat, col: nat, sw: Switch)
    requires numCols >= 3 && col < numCols
    ensures AieMlIrqId(numCols, col, sw) < 6
    ensures Target(numCols, col) % 4 == 3 && Target(numCols, col) + 3 < numCols ==> AieMlIrqId(numCols, col, sw) < 2
    ensures numCols % 4 == 2 && Target(numCols, col) + 3 >= numCols ==> Target(numCols, col) % 4 == 3
  {
  }
}
