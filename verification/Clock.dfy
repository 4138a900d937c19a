/** Tile clocks. On AIE the clock of a tile is gated by a bit in the tile below it, so a
    column is clocked up to some height; on AIE-ML columns are clocked as a whole. Which
    tiles are in use is kept in a bitmap. */
module Clock {
  import opened Bits
  import opened Wrappers

  /** The bit of tile (col, row) in the bitmap; row 0 has none. */
  function TileBitPos(numRows: nat, col: nat, row: nat): nat
    requires 1 <= row < numRows
  {
    col * (numRows - 1) + row - 1
  }

  lemma MulMono(a: nat, b: nat, n: nat)
    requires a <= b
    ensures a * n <= b * n
  {
  }

  /** The tile a bit belongs to. */
  function TileOfBit(numRows: nat, pos: nat): (nat, nat)
    requires numRows >= 2
  {
    (pos / (numRows - 1), pos % (numRows - 1) + 1)
  }

  /** The bit of a tile leads back to the tile and is one of the bitmap's. */
  lemma BitOfTile(numCols: nat, numRows: nat, col: nat, row: nat)
    requires col < numCols && 1 <= row < numRows
    ensures TileOfBit(numRows, TileBitPos(numRows, col, row)) == (col, row)
    ensures TileBitPos(numRows, col, row) < numCols * (numRows - 1)
  {
    var n, pos := numRows - 1, TileBitPos(numRows, col, row);
    assert pos == n * (pos / n) + pos % n;
    BitPosApart(n, col, row - 1, pos / n, pos % n);
    MulMono(col + 1, numCols, n);
  }

  /** Every bit of the bitmap is the bit of a tile. */
  lemma TileOfBitIs(numCols: nat, numRows: nat, pos: nat)
    requires numRows >= 2 && pos < numCols * (numRows - 1)
    ensures var (col, row) := TileOfBit(numRows, pos);
      col < numCols && 1 <= row < numRows && TileBitPos(numRows, col, row) == pos
  {
  }

  lemma BitPosApart(n: nat, c: nat, k: nat, c': nat, k': nat)
    requires k < n && k' < n
    ensures c * n + k == c' * n + k' ==> c == c' && k == k'
  {
    if c < c' {
      MulMono(c + 1, c', n);
    } else if c' < c {
      MulMono(c' + 1, c, n);
    }
  }

  // ---------------------------------------------------------------- what requests amount to

  function Max(a: nat, b: nat): nat {
    if a < b then b else a
  }

  type Locs = seq<(nat, nat)>

  /** A column: the tiles of rows 1 to `used` are in use, those up to row `clocked` have a
      clock. */
  datatype Column = Column(used: nat, clocked: nat)

  /** A request of one tile of a column. */
  function Reach(c: Column, row: nat): Column {
    if row > c.used then Column(row, row) else c
  }

  /** A request of all tiles: `top` is the topmost row. No gate is opened. */
  function Mark(c: Column, top: nat): Column {
    Column(top, if c.used == 0 then top else c.clocked)
  }

  predicate ValidLocs(locs: Locs, numCols: nat, numRows: nat) {
    forall i | 0 <= i < |locs| :: locs[i].0 < numCols && locs[i].1 < numRows
  }

  /** The columns after requests of single tiles. */
  function Raised(h: seq<Column>, locs: Locs): (h': seq<Column>)
    requires forall i | 0 <= i < |locs| :: locs[i].0 < |h|
    ensures |h'| == |h|
  {
    if locs == [] then h
    else
      var (c, r), before := locs[|locs| - 1], Raised(h, locs[..|locs| - 1]);
      before[c := Reach(before[c], r)]
  }

  /** The highest row requested in a column. */
  function Highest(locs: Locs, col: nat): (r: nat)
    ensures forall i | 0 <= i < |locs| && locs[i].0 == col :: locs[i].1 <= r
    ensures r == 0 || (col, r) in locs
  {
    if locs == [] then 0
    else
      var (c, r), before := locs[|locs| - 1], Highest(locs[..|locs| - 1], col);
      if c == col then Max(before, r) else before
  }

  /** A column only depends on its highest requested row: the tiles in use reach up to the
      maximum of that row and their old height. */
  lemma {:induction false} RaisedIs(h: seq<Column>, locs: Locs, col: nat)
    requires (forall i | 0 <= i < |locs| :: locs[i].0 < |h|) && col < |h|
    ensures Raised(h, locs)[col] == Reach(h[col], Highest(locs, col))
    ensures Raised(h, locs)[col].used == Max(h[col].used, Highest(locs, col))
  {
    if locs != [] {
      RaisedIs(h, locs[..|locs| - 1], col);
    }
  }

  /** Only the set of requested tiles matters: not their order, number or grouping. */
  lemma {:induction false} SameTilesSameHeights(h: seq<Column>, a: Locs, b: Locs)
    requires (forall i | 0 <= i < |a| :: a[i].0 < |h|) && (forall i | 0 <= i < |b| :: b[i].0 < |h|)
    requires forall t :: t in a <==> t in b
    ensures Raised(h, a) == Raised(h, b)
  {
    forall col | 0 <= col < |h|
      ensures Raised(h, a)[col] == Raised(h, b)[col]
    {
      RaisedIs(h, a, col);
      RaisedIs(h, b, col);
    }
  }

  /** Two requests one after the other are one request of all their tiles. */
  lemma {:induction false} RaisedConcat(h: seq<Column>, a: Locs, b: Locs)
    requires (forall i | 0 <= i < |a| :: a[i].0 < |h|) && (forall i | 0 <= i < |b| :: b[i].0 < |h|)
    ensures Raised(Raised(h, a), b) == Raised(h, a + b)
    decreases |b|
  {
    if b == [] {
      assert a + b == a;
    } else {
      RaisedConcat(h, a, b[..|b| - 1]);
      assert (a + b)[..|a + b| - 1] == a + b[..|b| - 1];
    }
  }

  /** Requests commute and asking again changes nothing. */
  lemma {:induction false} RequestsCommute(h: seq<Column>, a: Locs, b: Locs)
    requires (forall i | 0 <= i < |a| :: a[i].0 < |h|) && (forall i | 0 <= i < |b| :: b[i].0 < |h|)
    ensures Raised(Raised(h, a), b) == Raised(Raised(h, b), a)
    ensures Raised(Raised(h, a), a) == Raised(h, a)
  {
    RaisedConcat(h, a, b);
    RaisedConcat(h, b, a);
    SameTilesSameHeights(h, a + b, b + a);
    RaisedConcat(h, a, a);
    SameTilesSameHeights(h, a + a, a);
  }

  // ---------------------------------------------------------------- whole runs

  datatype Request = Tiles(locs: Locs) | All

  predicate ValidRequest(r: Request, numCols: nat) {
    r.Tiles? ==> forall i | 0 <= i < |r.locs| :: r.locs[i].0 < numCols
  }

  /** The columns of a partition after one more request; `top` is the topmost row. */
  function Served(h: seq<Column>, r: Request, top: nat): (h': seq<Column>)
    requires ValidRequest(r, |h|)
    ensures |h'| == |h|
  {
    match r
    case Tiles(locs) => Raised(h, locs)
    case All => seq(|h|, c requires 0 <= c < |h| => Mark(h[c], top))
  }

  function AllServed(h: seq<Column>, requests: seq<Request>, top: nat): (h': seq<Column>)
    requires forall i | 0 <= i < |requests| :: ValidRequest(requests[i], |h|)
    ensures |h'| == |h|
  {
    if requests == [] then h
    else Served(AllServed(h, requests[..|requests| - 1], top), requests[|requests| - 1], top)
  }

  /** A column after requests of any kind. */
  function After(c: Column, requests: seq<Request>, col: nat, top: nat): Column {
    if requests == [] then c
    else
      var before := After(c, requests[..|requests| - 1], col, top);
      match requests[|requests| - 1]
      case Tiles(locs) => Reach(before, Highest(locs, col))
      case All => Mark(before, top)
  }

  /** Columns do not influence each other. */
  lemma {:induction false} ColumnServed(h: seq<Column>, requests: seq<Request>, col: nat, top: nat)
    requires (forall i | 0 <= i < |requests| :: ValidRequest(requests[i], |h|)) && col < |h|
    ensures AllServed(h, requests, top)[col] == After(h[col], requests, col, top)
  {
    if requests != [] {
      var n := |requests| - 1;
      ColumnServed(h, requests[..n], col, top);
      if requests[n].Tiles? {
        RaisedIs(AllServed(h, requests[..n], top), requests[n].locs, col);
      }
    }
  }

  /** What was requested of a column before the first request of all tiles; `none` says that
      there was no such request. */
  function BeforeAll(requests: seq<Request>, col: nat): (r: (nat, bool)) {
    if requests == [] then (0, true)
    else
      var (height, none) := BeforeAll(requests[..|requests| - 1], col);
      if !none then (height, false)
      else match requests[|requests| - 1]
        case Tiles(locs) => (Max(height, Highest(locs, col)), true)
        case All => (height, false)
  }

  /** Every run from reset, exactly: the tiles of a column that are in use all have a clock,
      unless it was partly in use when all tiles were first requested. From then on it keeps
      the clocks it had and all its tiles count as in use. */
  lemma {:induction false} AfterIs(requests: seq<Request>, col: nat, top: nat)
    requires forall i | 0 <= i < |requests| && requests[i].Tiles? :: Highest(requests[i].locs, col) <= top
    ensures var (height, none) := BeforeAll(requests, col);
      height <= top && After(Column(0, 0), requests, col, top) ==
        if none then Column(height, height) else Column(top, if height == 0 then top else height)
  {
    if requests != [] {
      AfterIs(requests[..|requests| - 1], col, top);
    }
  }

  /** In use and clocked agree if and only if the first request of all tiles, if any, found the
      column untouched or complete. */
  lemma {:induction false} InStepIff(requests: seq<Request>, col: nat, top: nat)
    requires forall i | 0 <= i < |requests| && requests[i].Tiles? :: Highest(requests[i].locs, col) <= top
    ensures var c, (height, none) := After(Column(0, 0), requests, col, top), BeforeAll(requests, col);
      c.used == c.clocked <==> none || height == 0 || height == top
  {
    AfterIs(requests, col, top);
  }

  // ---------------------------------------------------------------- AIE

  datatype Rc = Ok | InvalidArgs

  lemma NoneSet(b: seq<bv32>, pos: nat)
    requires pos < 32 * |b| && forall i | 0 <= i < |b| :: b[i] == 0
    ensures !CheckBit(b, pos)
  {
  }

  /** The bits from row 1 of a column to row `row` are those of these tiles. */
  lemma ColumnBits(numRows: nat, col: nat, row: nat, c: nat, r: nat)
    requires 1 <= row < numRows && 1 <= r < numRows
    ensures var first := TileBitPos(numRows, col, row) - row + 1;
      first <= TileBitPos(numRows, c, r) < first + row <==> c == col && r <= row
  {
    var n := numRows - 1;
    if c < col {
      MulMono(c + 1, col, n);
    } else if col < c {
      MulMono(col + 1, c, n);
    }
  }

  /** The tile clocks of an AIE partition. `gates[c, r]` is the bit in tile (c, r) that lets
      the clock through to tile (c, r + 1). */
  class AieClocks {
    const numCols: nat
    const numRows: nat
    const tilesInUse: array<bv32>
    const clockBuffer: array<bool>
    const gates: array2<bool>
    ghost var columns: seq<Column>

    ghost predicate Shape()
    {
      && numRows >= 2 && numCols * (numRows - 1) <= 32 * tilesInUse.Length
      && clockBuffer.Length == numCols && gates.Length0 == numCols && gates.Length1 == numRows
      && tilesInUse as object != clockBuffer as object
    }

    predicate InUse(col: nat, row: nat)
      requires Shape() && col < numCols && 1 <= row < numRows
      reads tilesInUse
    {
      BitOfTile(numCols, numRows, col, row);
      CheckBit(tilesInUse[..], TileBitPos(numRows, col, row))
    }

    /** The clock of a tile comes through the column buffer and every tile below. */
    predicate Clocked(col: nat, row: nat)
      requires Shape() && col < numCols && 1 <= row < numRows
      reads clockBuffer, gates
    {
      clockBuffer[col] && forall k | 0 <= k < row :: gates[col, k]
    }

    /** What the registers and the bitmap hold for a column: the bits of the tiles in use are
        set, its buffer is on unless it was never asked for, and its gates let the clock through
        to the topmost clocked row. The two rows differ only where all tiles are in use. */
    ghost predicate ColumnOk(col: nat, c: Column)
      requires Shape() && col < numCols
      reads tilesInUse, clockBuffer, gates
    {
      && c.used < numRows && c.clocked <= c.used
      && (c.clocked < c.used ==> c.used == numRows - 1 && c.clocked > 0)
      && (forall r | 1 <= r < numRows :: InUse(col, r) <==> r <= c.used)
      && clockBuffer[col] == (c.used > 0)
      && (forall k | 0 <= k < numRows - 1 :: gates[col, k] == (c.used == 0 || k < c.clocked))
    }

    ghost predicate Valid()
      reads this, tilesInUse, clockBuffer, gates
    {
      Shape() && |columns| == numCols && forall c | 0 <= c < numCols :: ColumnOk(c, columns[c])
    }

    /** After reset: no tile in use, all buffers off, all gates open. */
    constructor (numCols: nat, numRows: nat)
      requires numRows >= 2
      ensures Valid() && this.numCols == numCols && this.numRows == numRows
      ensures columns == seq(numCols, _ => Column(0, 0))
      ensures fresh(tilesInUse) && fresh(clockBuffer) && fresh(gates)
    {
      this.numCols, this.numRows := numCols, numRows;
      var bits := numCols * (numRows - 1);
      tilesInUse := new bv32[bits / 32 + 1](_ => 0);
      clockBuffer := new bool[numCols](_ => false);
      gates := new bool[numCols, numRows]((_, _) => true);
      columns := seq(numCols, _ => Column(0, 0));
      new;
      forall c, r | 0 <= c < numCols && 1 <= r < numRows
        ensures !InUse(c, r)
      {
        BitOfTile(numCols, numRows, c, r);
        NoneSet(tilesInUse[..], TileBitPos(numRows, c, r));
      }
    }

    /** Gates the tiles above row `row`, from the top down. */
    method GateTiles(col: nat, row: nat)
      requires Shape() && col < numCols
      modifies gates
      ensures forall c, k | 0 <= c < numCols && 0 <= k < numRows ::
        gates[c, k] == (old(gates[c, k]) && !(c == col && row <= k < numRows - 1))
    {
      var r := numRows - 1;
      while r > row
        invariant r <= numRows - 1 && (r >= row || r == numRows - 1)
        invariant forall c, k | 0 <= c < numCols && 0 <= k < numRows ::
          gates[c, k] == (old(gates[c, k]) && !(c == col && r <= k < numRows - 1))
      {
        gates[col, r - 1] := false;
        r := r - 1;
      }
    }

    /** Opens the gates of rows `from` to `to` - 1, from the bottom up. */
    method UngateTiles(col: nat, from: nat, to: nat)
      requires Shape() && col < numCols && to < numRows
      modifies gates
      ensures forall c, k | 0 <= c < numCols && 0 <= k < numRows ::
        gates[c, k] == (old(gates[c, k]) || (c == col && from <= k < to))
    {
      var r := from;
      while r < to
        invariant r <= to || r == from
        invariant forall c, k | 0 <= c < numCols && 0 <= k < numRows ::
          gates[c, k] == (old(gates[c, k]) || (c == col && from <= k < r))
      {
        gates[col, r] := true;
        r := r + 1;
      }
    }

    /** The topmost tile in use of a column, 0 for none. */
    method Topmost(col: nat) returns (top: nat)
      requires Valid() && col < numCols
      ensures top == columns[col].used
    {
      assert ColumnOk(col, columns[col]);
      top := numRows - 1;
      while top > 0
        invariant columns[col].used <= top <= numRows - 1
      {
        if InUse(col, top) {
          return;
        }
        top := top - 1;
      }
    }

    /** Opens a column from its topmost tile in use, `top`, to row `row`. An unused column is
        switched on and gated above that row. */
    method OpenColumn(col: nat, row: nat, top: nat, ghost was: Column)
      requires Shape() && col < numCols && 1 <= row < numRows && ColumnOk(col, was) && top == was.used
      modifies clockBuffer, gates
      ensures forall k | 0 <= k < numRows - 1 :: gates[col, k] == (k < Reach(was, row).clocked)
      ensures clockBuffer[col]
      ensures forall c | 0 <= c < numCols && c != col :: clockBuffer[c] == old(clockBuffer[c])
      ensures forall c, k | 0 <= c < numCols && c != col && 0 <= k < numRows :: gates[c, k] == old(gates[c, k])
    {
      if top > 0 {
        if row > top {
          UngateTiles(col, top, row);
        }
      } else {
        clockBuffer[col] := true;
        GateTiles(col, row);
      }
    }

    /** Marks rows 1 to `row` of a column. */
    method MarkColumn(col: nat, row: nat)
      requires Shape() && col < numCols && 1 <= row < numRows
      modifies tilesInUse
      ensures forall c, r | 0 <= c < numCols && 1 <= r < numRows ::
        InUse(c, r) <==> old(InUse(c, r)) || (c == col && r <= row)
    {
      BitOfTile(numCols, numRows, col, row);
      var pos := TileBitPos(numRows, col, row);
      SetBitInBitmap(tilesInUse, pos - row + 1, row);
      forall c, r | 0 <= c < numCols && 1 <= r < numRows
        ensures InUse(c, r) <==> old(InUse(c, r)) || (c == col && r <= row)
      {
        BitOfTile(numCols, numRows, c, r);
        ColumnBits(numRows, col, row, c, r);
      }
    }

    /** One requested tile. */
    method RequestTile(col: nat, row: nat)
      requires Valid() && col < numCols && row < numRows
      modifies this`columns, tilesInUse, clockBuffer, gates
      ensures Valid() && columns == old(columns)[col := Reach(old(columns)[col], row)]
    {
      if row == 0 {
        assert columns == columns[col := Reach(columns[col], 0)];
        return;
      }
      var top := Topmost(col);
      label L:
      ghost var was := columns[col];
      assert ColumnOk(col, was);
      OpenColumn(col, row, top, was);
      MarkColumn(col, row);
      columns := columns[col := Reach(was, row)];
      forall c | 0 <= c < numCols && c != col
        ensures ColumnOk(c, columns[c])
      {
        Untouched@L(c, columns[c]);
      }
    }

    twostate lemma Untouched(new c: nat, new h: Column)
      requires Shape() && c < numCols && old(ColumnOk(c, h)) && clockBuffer[c] == old(clockBuffer[c])
      requires forall r | 1 <= r < numRows :: InUse(c, r) <==> old(InUse(c, r))
      requires forall k | 0 <= k < numRows :: gates[c, k] == old(gates[c, k])
      ensures ColumnOk(c, h)
    {
    }

    /** In every reachable state, whatever was requested, the tiles of a column that have their
        bit set and those that have a clock are the rows up to these two. */
    lemma ClockedIffInUse(col: nat, row: nat)
      requires Valid() && col < numCols && 1 <= row < numRows
      ensures InUse(col, row) <==> row <= columns[col].used
      ensures Clocked(col, row) <==> row <= columns[col].clocked
    {
      var c := columns[col];
      assert ColumnOk(col, c);
      if row > c.clocked > 0 {
        assert !gates[col, c.clocked];
      }
    }

    /** A list of requested tiles, one after the other. No tile loses its clock. */
    method RequestTiles(locs: Locs)
      requires Valid() && ValidLocs(locs, numCols, numRows)
      modifies this`columns, tilesInUse, clockBuffer, gates
      ensures Valid() && columns == Raised(old(columns), locs)
      ensures forall c, r | 0 <= c < numCols && 1 <= r < numRows :: old(Clocked(c, r)) ==> Clocked(c, r)
    {
      forall c, r | 0 <= c < numCols && 1 <= r < numRows
        ensures Clocked(c, r) <==> r <= columns[c].clocked
      {
        ClockedIffInUse(c, r);
      }
      assert forall c | 0 <= c < numCols :: ColumnOk(c, columns[c]);
      assert locs[..0] == [];
      for i := 0 to |locs|
        invariant Valid() && columns == Raised(old(columns), locs[..i])
        invariant forall c | 0 <= c < numCols ::
          columns[c].clocked <= columns[c].used && old(columns[c]).clocked <= columns[c].clocked
      {
        assert locs[..i + 1][..i] == locs[..i];
        RequestTile(locs[i].0, locs[i].1);
      }
      assert locs[..|locs|] == locs;
      forall c, r | 0 <= c < numCols && 1 <= r < numRows
        ensures old(Clocked(c, r)) ==> Clocked(c, r)
      {
        ClockedIffInUse(c, r);
      }
    }

    /** The request for all tiles at once marks everything and switches every column on, but
        opens no gate. */
    method RequestAllTiles()
      requires Valid()
      modifies this`columns, tilesInUse, clockBuffer
      ensures Valid() && |columns| == |old(columns)|
      ensures forall c | 0 <= c < numCols :: columns[c] == Mark(old(columns)[c], numRows - 1)
    {
      ghost var was := columns;
      assert forall c | 0 <= c < numCols :: ColumnOk(c, was[c]);
      SetBitInBitmap(tilesInUse, 0, (numRows - 1) * numCols);
      ghost var bits := tilesInUse[..];
      for c := 0 to numCols
        invariant tilesInUse[..] == bits && forall k | 0 <= k < c :: clockBuffer[k]
      {
        clockBuffer[c] := true;
      }
      columns := seq(numCols, c requires 0 <= c < numCols => Mark(was[c], numRows - 1));
      forall c, r | 0 <= c < numCols && 1 <= r < numRows
        ensures InUse(c, r)
      {
        BitOfTile(numCols, numRows, c, r);
      }
    }

    /** The entry point: checks its arguments, then requests the listed tiles, or all of them
        if there is no list. */
    method PmRequestTiles(locs: Option<Locs>, numTiles: nat) returns (rc: Rc)
      requires Valid() && (locs.Some? ==> |locs.value| == numTiles)
      modifies this`columns, tilesInUse, clockBuffer, gates
      ensures Valid()
      ensures rc == InvalidArgs <==>
        || numTiles > numRows * numCols || (numTiles != 0 && locs.None?)
        || (locs.Some? && !ValidLocs(locs.value, numCols, numRows))
      ensures columns ==
        if rc == InvalidArgs then old(columns)
        else Served(old(columns), if locs.Some? then Tiles(locs.value) else All, numRows - 1)
    {
      if numTiles > numRows * numCols || (numTiles != 0 && locs.None?) {
        return InvalidArgs;
      }
      for j := 0 to numTiles
        invariant locs.Some? ==> ValidLocs(locs.value[..j], numCols, numRows)
      {
        if locs.value[j].1 >= numRows || locs.value[j].0 >= numCols {
          return InvalidArgs;
        }
      }
      if locs.None? {
        RequestAllTiles();
      } else {
        assert locs.value[..numTiles] == locs.value;
        RequestTiles(locs.value);
      }
      rc := Ok;
    }
  }

  /** A tile requested first, then all tiles: the tile above the first one is marked as in
      use, and has no clock. */
  method PartialThenAll(numCols: nat, numRows: nat, row: nat) returns (inUse: bool, clocked: bool)
    requires numCols > 0 && 1 <= row < numRows - 1
    ensures inUse && !clocked
  {
    var clocks := new AieClocks(numCols, numRows);
    clocks.RequestTile(0, row);
    clocks.RequestAllTiles();
    clocks.ClockedIffInUse(0, row + 1);
    inUse, clocked := clocks.InUse(0, row + 1), clocks.Clocked(0, row + 1);
  }

  // ---------------------------------------------------------------- AIE-ML

  /** On AIE-ML a column has one clock buffer and no gates. */
  class AieMlClocks {
    const numCols: nat
    const numRows: nat
    const tilesInUse: array<bv32>
    const clockBuffer: array<bool>

    ghost predicate Shape() {
      && numRows >= 2 && numCols * (numRows - 1) <= 32 * tilesInUse.Length && clockBuffer.Length == numCols
      && tilesInUse as object != clockBuffer as object
    }

    predicate InUse(col: nat, row: nat)
      requires Shape() && col < numCols && 1 <= row < numRows
      reads tilesInUse
    {
      BitOfTile(numCols, numRows, col, row);
      CheckBit(tilesInUse[..], TileBitPos(numRows, col, row))
    }

    /** A column is in use as a whole, and then its buffer is on. */
    ghost predicate Valid()
      reads tilesInUse, clockBuffer
    {
      Shape() && forall c, r | 0 <= c < numCols && 1 <= r < numRows :: InUse(c, r) == clockBuffer[c]
    }

    method RequestColumn(col: nat)
      requires Valid() && col < numCols
      modifies tilesInUse, clockBuffer
      ensures Valid() && clockBuffer[..] == old(clockBuffer[..])[col := true]
    {
      BitOfTile(numCols, numRows, col, 1);
      if InUse(col, 1) {
        assert clockBuffer[..] == clockBuffer[..][col := true];
        return;
      }
      var first := TileBitPos(numRows, col, 1);
      clockBuffer[col] := true;
      BitOfTile(numCols, numRows, col, numRows - 1);
      SetBitInBitmap(tilesInUse, first, numRows - 1);
      forall c, r | 0 <= c < numCols && 1 <= r < numRows
        ensures InUse(c, r) == clockBuffer[c]
      {
        BitOfTile(numCols, numRows, c, r);
        ColumnBits(numRows, col, numRows - 1, c, r);
        assert old(InUse(c, r)) == old(clockBuffer[c]);
      }
    }

    /** Requests of tiles switch on exactly their columns; shim tiles are always on. */
    method RequestTiles(locs: Locs)
      requires Valid() && ValidLocs(locs, numCols, numRows)
      modifies tilesInUse, clockBuffer
      ensures Valid()
      ensures forall c | 0 <= c < numCols :: clockBuffer[c] == (old(clockBuffer[c]) || Highest(locs, c) > 0)
    {
      assert locs[..0] == [];
      for i := 0 to |locs|
        invariant Valid()
        invariant forall c | 0 <= c < numCols :: clockBuffer[c] == (old(clockBuffer[c]) || Highest(locs[..i], c) > 0)
      {
        assert locs[..i + 1][..i] == locs[..i];
        if locs[i].1 != 0 {
          ghost var was := clockBuffer[..];
          RequestColumn(locs[i].0);
          assert forall c | 0 <= c < numCols :: clockBuffer[..][c] == was[locs[i].0 := true][c];
        }
      }
      assert locs[..|locs|] == locs;
    }

    method RequestAllTiles()
      requires Valid()
      modifies tilesInUse, clockBuffer
      ensures Valid() && forall c | 0 <= c < numCols :: clockBuffer[c]
    {
      SetBitInBitmap(tilesInUse, 0, (numRows - 1) * numCols);
      ghost var bits := tilesInUse[..];
      for c := 0 to numCols
        invariant tilesInUse[..] == bits && forall k | 0 <= k < c :: clockBuffer[k]
      {
        clockBuffer[c] := true;
      }
      forall c, r | 0 <= c < numCols && 1 <= r < numRows
        ensures InUse(c, r)
      {
        BitOfTile(numCols, numRows, c, r);
      }
    }
  }
}
