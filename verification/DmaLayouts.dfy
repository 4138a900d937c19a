/** The register tables of the five kinds of tile: where each field of a buffer descriptor lies.
    The tables of the writing routines are checked against them. */
module DmaLayouts {
  import opened Arithmetic
  import opened Bits
  import opened BdFields
  import opened DmaBd
  import opened DmaUpdate
  import opened DmaModule
  import opened DmaTables

  datatype Kind = MemTile | Tile | Shim | AieTile | AieShim

  /** `width` bits of a word from bit `lsb` on. A width of 0 stands for a field that the kind of
      tile does not have. */
  datatype Span = Span(idx: nat, lsb: nat, width: nat)

  const NOWHERE: Span := Span(0, 0, 0)

  function PlaceOf(s: Span): Place {
    Place(s.idx, Field(s.lsb, seq(32, j requires 0 <= j < 32 => s.lsb <= j < s.lsb + s.width)))
  }

  /** Spans of one word that share no bit. */
  predicate Disjoint(a: Span, b: Span) {
    a.lsb + a.width <= b.lsb || b.lsb + b.width <= a.lsb
  }

  lemma DisjointApart(a: Span, b: Span)
    requires Disjoint(a, b)
    ensures Apart(PlaceOf(a).f, PlaceOf(b).f)
  {
  }

  /** AIE-ML memory tiles. */
  function MemTileSpan(k: Key): Span {
    match k
    case Length => Span(0, 0, 17)
    case OutofOrderBdId => Span(0, 17, 6)
    case PktId => Span(0, 23, 5)
    case PktType => Span(0, 28, 3)
    case EnPkt => Span(0, 31, 1)
    case Address => Span(1, 0, 19)
    case UseNxtBd => Span(1, 19, 1)
    case NxtBd => Span(1, 20, 6)
    case TlastSuppress => Span(2, 31, 1)
    case EnCompression => Span(4, 31, 1)
    case IterStepSize => Span(6, 0, 17)
    case IterWrap => Span(6, 17, 6)
    case IterCurr => Span(6, 23, 6)
    case LockAcqId => Span(7, 0, 8)
    case LockAcqVal => Span(7, 8, 7)
    case LockAcqEn => Span(7, 15, 1)
    case LockRelId => Span(7, 16, 8)
    case LockRelVal => Span(7, 24, 7)
    case ValidBd => Span(7, 31, 1)
    case PadBefore(dim) =>
      if dim == 0 then Span(1, 26, 6) else if dim == 1 then Span(3, 27, 5)
      else if dim == 2 then Span(4, 27, 4) else NOWHERE
    case StepSize(dim) =>
      if dim == 0 then Span(2, 0, 17) else if dim == 1 then Span(3, 0, 17)
      else if dim == 2 then Span(4, 0, 17) else if dim == 3 then Span(5, 0, 17) else NOWHERE
    case Wrap(dim) =>
      if dim == 0 then Span(2, 17, 10) else if dim == 1 then Span(3, 17, 10)
      else if dim == 2 then Span(4, 17, 10) else NOWHERE
    case PadAfter(dim) =>
      if dim == 0 then Span(5, 17, 6) else if dim == 1 then Span(5, 23, 5)
      else if dim == 2 then Span(5, 28, 4) else NOWHERE
    case _ => NOWHERE
  }

  function MemTileLayout(k: Key): Place {
    PlaceOf(MemTileSpan(k))
  }

  const AIEML_MEM_TILE_DMA: Props := Props(0xA0000, 0x20, 48, 0, 4, 2, 0x180000,
    MemTileLayout, AIEML_MEM_TILE, AIEML_MEM_TILE_READ)

  /** AIE-ML tiles. */
  function TileSpan(k: Key): Span {
    match k
    case Length => Span(0, 0, 14)
    case Address => Span(0, 14, 14)
    case PktType => Span(1, 16, 3)
    case PktId => Span(1, 19, 5)
    case OutofOrderBdId => Span(1, 24, 6)
    case EnPkt => Span(1, 30, 1)
    case EnCompression => Span(1, 31, 1)
    case IterStepSize => Span(4, 0, 13)
    case IterWrap => Span(4, 13, 6)
    case IterCurr => Span(4, 19, 6)
    case LockAcqId => Span(5, 0, 4)
    case LockAcqVal => Span(5, 5, 7)
    case LockAcqEn => Span(5, 12, 1)
    case LockRelId => Span(5, 13, 4)
    case LockRelVal => Span(5, 18, 7)
    case ValidBd => Span(5, 25, 1)
    case UseNxtBd => Span(5, 26, 1)
    case NxtBd => Span(5, 27, 4)
    case TlastSuppress => Span(5, 31, 1)
    case StepSize(dim) =>
      if dim == 0 then Span(2, 0, 13) else if dim == 1 then Span(2, 13, 13)
      else if dim == 2 then Span(3, 0, 13) else NOWHERE
    case Wrap(dim) =>
      if dim == 0 then Span(3, 13, 8) else if dim == 1 then Span(3, 21, 8) else NOWHERE
    case _ => NOWHERE
  }

  function TileLayout(k: Key): Place {
    PlaceOf(TileSpan(k))
  }

  const AIEML_TILE_DMA: Props := Props(0x1D000, 0x20, 16, 0, 4, 2, 0x20000,
    TileLayout, AIEML_TILE, AIEML_TILE_READ)

  /** AIE-ML interface tiles. */
  function ShimSpan(k: Key): Span {
    match k
    case Length => Span(0, 0, 32)
    case AddrLow => Span(1, 2, 30)
    case AddrHigh => Span(2, 0, 16)
    case PktType => Span(2, 16, 3)
    case PktId => Span(2, 19, 5)
    case OutofOrderBdId => Span(2, 24, 6)
    case EnPkt => Span(2, 30, 1)
    case SecureAccess => Span(3, 30, 1)
    case BurstLen => Span(4, 30, 2)
    case AxQos => Span(5, 20, 4)
    case AxCache => Span(5, 24, 4)
    case SMID => Span(5, 28, 4)
    case IterStepSize => Span(6, 0, 20)
    case IterWrap => Span(6, 20, 6)
    case IterCurr => Span(6, 26, 6)
    case LockAcqId => Span(7, 0, 4)
    case LockAcqVal => Span(7, 5, 7)
    case LockAcqEn => Span(7, 12, 1)
    case LockRelId => Span(7, 13, 4)
    case LockRelVal => Span(7, 18, 7)
    case ValidBd => Span(7, 25, 1)
    case UseNxtBd => Span(7, 26, 1)
    case NxtBd => Span(7, 27, 4)
    case TlastSuppress => Span(7, 31, 1)
    case StepSize(dim) =>
      if dim == 0 then Span(3, 0, 20) else if dim == 1 then Span(3, 0, 20)
      else if dim == 2 then Span(5, 0, 20) else NOWHERE
    case Wrap(dim) =>
      if dim == 0 then Span(3, 20, 10) else if dim == 1 then Span(3, 20, 10) else NOWHERE
    case _ => NOWHERE
  }

  function ShimLayout(k: Key): Place {
    PlaceOf(ShimSpan(k))
  }

  const AIEML_SHIM_DMA: Props := Props(0x1D000, 0x20, 16, 0, 4, 0, 0x1000000000000,
    ShimLayout, AIEML_SHIM, AIEML_SHIM_READ)

  /** AIE tiles. */
  function AieTileSpan(k: Key): Span {
    match k
    case Address => Span(0, 0, 13)
    case LockAcqValEn => Span(0, 16, 1)
    case LockAcqVal => Span(0, 17, 1)
    case LockAcqEn => Span(0, 18, 1)
    case LockRelValEn => Span(0, 19, 1)
    case LockRelVal => Span(0, 20, 1)
    case LockRelEn => Span(0, 21, 1)
    case LockAcqId => Span(0, 22, 4)
    case Address2 => Span(1, 0, 13)
    case Lock2AcqValEn => Span(1, 16, 1)
    case Lock2AcqVal => Span(1, 17, 1)
    case Lock2AcqEn => Span(1, 18, 1)
    case Lock2RelValEn => Span(1, 19, 1)
    case Lock2RelVal => Span(1, 20, 1)
    case Lock2RelEn => Span(1, 21, 1)
    case Lock2AcqId => Span(1, 22, 4)
    case XOffset => Span(2, 0, 13)
    case XWrap => Span(2, 16, 8)
    case XIncr => Span(2, 24, 8)
    case YOffset => Span(3, 0, 13)
    case YWrap => Span(3, 16, 8)
    case YIncr => Span(3, 24, 8)
    case PktId => Span(4, 0, 5)
    case PktType => Span(4, 12, 3)
    case EnPkt => Span(4, 27, 1)
    case CurrPtr => Span(5, 0, 13)
    case BuffSelect => Span(5, 16, 1)
    case Length => Span(6, 0, 13)
    case NxtBd => Span(6, 13, 4)
    case UseNxtBd => Span(6, 17, 1)
    case IntrleaveCount => Span(6, 18, 8)
    case EnInterleaved => Span(6, 26, 1)
    case FifoMode => Span(6, 28, 2)
    case EnDoubleBuff => Span(6, 30, 1)
    case ValidBd => Span(6, 31, 1)
    case _ => NOWHERE
  }

  function AieTileLayout(k: Key): Place {
    PlaceOf(AieTileSpan(k))
  }

  const AIE_TILE_DMA: Props := Props(0x1D000, 0x20, 16, 1, 4, 2, 0x10000,
    AieTileLayout, AIE_TILE, AIE_TILE_READ)

  /** AIE interface tiles. */
  function AieShimSpan(k: Key): Span {
    match k
    case AddrLow => Span(0, 0, 32)
    case Length => Span(1, 0, 32)
    case ValidBd => Span(2, 0, 1)
    case LockAcqValEn => Span(2, 1, 1)
    case LockAcqVal => Span(2, 2, 1)
    case LockAcqEn => Span(2, 3, 1)
    case LockRelValEn => Span(2, 4, 1)
    case LockRelVal => Span(2, 5, 1)
    case LockRelEn => Span(2, 6, 1)
    case LockAcqId => Span(2, 7, 4)
    case NxtBd => Span(2, 11, 4)
    case UseNxtBd => Span(2, 15, 1)
    case AddrHigh => Span(2, 16, 16)
    case AxCache => Span(3, 0, 4)
    case SecureAccess => Span(3, 4, 1)
    case AxQos => Span(3, 5, 4)
    case BurstLen => Span(3, 9, 2)
    case SMID => Span(3, 28, 4)
    case PktId => Span(4, 0, 5)
    case PktType => Span(4, 12, 3)
    case EnPkt => Span(4, 31, 1)
    case _ => NOWHERE
  }

  function AieShimLayout(k: Key): Place {
    PlaceOf(AieShimSpan(k))
  }

  const AIE_SHIM_DMA: Props := Props(0x1D000, 0x14, 16, 0, 16, 0, 0x1000000000000,
    AieShimLayout, AIE_SHIM, AIE_SHIM_READ)

  /** The words that three fields are written to, where the register tables give others, which the
      routines do not look at. */
  function ShimWord(k: Key): nat {
    if k == StepSize(1) || k == Wrap(1) then 4 else ShimSpan(k).idx
  }

  function AieTileWord(k: Key): nat {
    if k == EnPkt then 6 else AieTileSpan(k).idx
  }

  // ---------------------------------------------------------------- checking the tables

  /** The fields that are stored less one. */
  predicate StoredLess(k: Key) {
    k.StepSize? || k == IterWrap || k == IterStepSize || k == IntrleaveCount
  }

  function Own(k: Key): Entry {
    Entry(k, k, StoredLess(k))
  }

  lemma MemTileApart0(i: nat, j: nat)
    requires i < j < |AIEML_MEM_TILE[0]|
    ensures Disjoint(MemTileSpan(AIEML_MEM_TILE[0][i].field), MemTileSpan(AIEML_MEM_TILE[0][j].field))
  {
  }

  lemma MemTileApart1(i: nat, j: nat)
    requires i < j < |AIEML_MEM_TILE[1]|
    ensures Disjoint(MemTileSpan(AIEML_MEM_TILE[1][i].field), MemTileSpan(AIEML_MEM_TILE[1][j].field))
  {
  }

  lemma MemTileApart2(i: nat, j: nat)
    requires i < j < |AIEML_MEM_TILE[2]|
    ensures Disjoint(MemTileSpan(AIEML_MEM_TILE[2][i].field), MemTileSpan(AIEML_MEM_TILE[2][j].field))
  {
  }

  lemma MemTileApart3(i: nat, j: nat)
    requires i < j < |AIEML_MEM_TILE[3]|
    ensures Disjoint(MemTileSpan(AIEML_MEM_TILE[3][i].field), MemTileSpan(AIEML_MEM_TILE[3][j].field))
  {
  }

  lemma MemTileApart4(i: nat, j: nat)
    requires i < j < |AIEML_MEM_TILE[4]|
    ensures Disjoint(MemTileSpan(AIEML_MEM_TILE[4][i].field), MemTileSpan(AIEML_MEM_TILE[4][j].field))
  {
  }

  lemma MemTileApart5(i: nat, j: nat)
    requires i < j < |AIEML_MEM_TILE[5]|
    ensures Disjoint(MemTileSpan(AIEML_MEM_TILE[5][i].field), MemTileSpan(AIEML_MEM_TILE[5][j].field))
  {
  }

  lemma MemTileApart6(i: nat, j: nat)
    requires i < j < |AIEML_MEM_TILE[6]|
    ensures Disjoint(MemTileSpan(AIEML_MEM_TILE[6][i].field), MemTileSpan(AIEML_MEM_TILE[6][j].field))
  {
  }

  lemma MemTileApart7(i: nat, j: nat)
    requires i < j < |AIEML_MEM_TILE[7]|
    ensures Disjoint(MemTileSpan(AIEML_MEM_TILE[7][i].field), MemTileSpan(AIEML_MEM_TILE[7][j].field))
  {
  }

  lemma MemTileApart(w: nat, i: nat, j: nat)
    requires w < |AIEML_MEM_TILE| && i < j < |AIEML_MEM_TILE[w]|
    ensures Disjoint(MemTileSpan(AIEML_MEM_TILE[w][i].field), MemTileSpan(AIEML_MEM_TILE[w][j].field))
  {
    hide MemTileSpan, Disjoint;
    match w
    case 0 => MemTileApart0(i, j);
    case 1 => MemTileApart1(i, j);
    case 2 => MemTileApart2(i, j);
    case 3 => MemTileApart3(i, j);
    case 4 => MemTileApart4(i, j);
    case 5 => MemTileApart5(i, j);
    case 6 => MemTileApart6(i, j);
    case _ => MemTileApart7(i, j);
  }

  lemma MemTileBits(k: Key)
    ensures MemTileSpan(k).lsb + MemTileSpan(k).width <= 32
    ensures MemTileSpan(k).width > 0 ==> MemTileSpan(k).idx < 8
  {
  }

  lemma MemTileHas0(w: nat, e: Entry)
    requires w < |AIEML_MEM_TILE|
    requires w < 4
    ensures e in AIEML_MEM_TILE[w] ==>
      e == Own(e.key) && MemTileSpan(e.key).width > 0 && MemTileSpan(e.key).idx == w
  {
  }

  lemma MemTileHas1(w: nat, e: Entry)
    requires w < |AIEML_MEM_TILE|
    requires 4 <= w
    ensures e in AIEML_MEM_TILE[w] ==>
      e == Own(e.key) && MemTileSpan(e.key).width > 0 && MemTileSpan(e.key).idx == w
  {
  }

  lemma MemTileHas(w: nat, e: Entry)
    requires w < |AIEML_MEM_TILE|
    ensures e in AIEML_MEM_TILE[w] ==>
      e == Own(e.key) && MemTileSpan(e.key).width > 0 && MemTileSpan(e.key).idx == w
  {
    hide MemTileSpan;
    if w < 4 {
      MemTileHas0(w, e);
    } else {
      MemTileHas1(w, e);
    }
  }

  lemma MemTileAll(k: Key)
    requires MemTileSpan(k).width > 0 && MemTileSpan(k).idx < |AIEML_MEM_TILE|
    ensures Own(k) in AIEML_MEM_TILE[MemTileSpan(k).idx]
  {
  }

  lemma TileApart0(i: nat, j: nat)
    requires i < j < |AIEML_TILE[0]|
    ensures Disjoint(TileSpan(AIEML_TILE[0][i].field), TileSpan(AIEML_TILE[0][j].field))
  {
  }

  lemma TileApart1(i: nat, j: nat)
    requires i < j < |AIEML_TILE[1]|
    ensures Disjoint(TileSpan(AIEML_TILE[1][i].field), TileSpan(AIEML_TILE[1][j].field))
  {
  }

  lemma TileApart2(i: nat, j: nat)
    requires i < j < |AIEML_TILE[2]|
    ensures Disjoint(TileSpan(AIEML_TILE[2][i].field), TileSpan(AIEML_TILE[2][j].field))
  {
  }

  lemma TileApart3(i: nat, j: nat)
    requires i < j < |AIEML_TILE[3]|
    ensures Disjoint(TileSpan(AIEML_TILE[3][i].field), TileSpan(AIEML_TILE[3][j].field))
  {
  }

  lemma TileApart4(i: nat, j: nat)
    requires i < j < |AIEML_TILE[4]|
    ensures Disjoint(TileSpan(AIEML_TILE[4][i].field), TileSpan(AIEML_TILE[4][j].field))
  {
  }

  lemma TileApart5(i: nat, j: nat)
    requires i < j < |AIEML_TILE[5]|
    ensures Disjoint(TileSpan(AIEML_TILE[5][i].field), TileSpan(AIEML_TILE[5][j].field))
  {
  }

  lemma TileApart(w: nat, i: nat, j: nat)
    requires w < |AIEML_TILE| && i < j < |AIEML_TILE[w]|
    ensures Disjoint(TileSpan(AIEML_TILE[w][i].field), TileSpan(AIEML_TILE[w][j].field))
  {
    hide TileSpan, Disjoint;
    match w
    case 0 => TileApart0(i, j);
    case 1 => TileApart1(i, j);
    case 2 => TileApart2(i, j);
    case 3 => TileApart3(i, j);
    case 4 => TileApart4(i, j);
    case _ => TileApart5(i, j);
  }

  lemma TileBits(k: Key)
    ensures TileSpan(k).lsb + TileSpan(k).width <= 32
    ensures TileSpan(k).width > 0 ==> TileSpan(k).idx < 6
  {
  }

  lemma TileHas(w: nat, e: Entry)
    requires w < |AIEML_TILE|
    ensures e in AIEML_TILE[w] ==>
      e == Own(e.key) && TileSpan(e.key).width > 0 && TileSpan(e.key).idx == w
  {
  }

  lemma TileAll(k: Key)
    requires TileSpan(k).width > 0 && TileSpan(k).idx < |AIEML_TILE|
    ensures Own(k) in AIEML_TILE[TileSpan(k).idx]
  {
  }

  lemma ShimApart2(i: nat, j: nat)
    requires i < j < |AIEML_SHIM[2]|
    ensures Disjoint(ShimSpan(AIEML_SHIM[2][i].field), ShimSpan(AIEML_SHIM[2][j].field))
  {
  }

  lemma ShimApart3(i: nat, j: nat)
    requires i < j < |AIEML_SHIM[3]|
    ensures Disjoint(ShimSpan(AIEML_SHIM[3][i].field), ShimSpan(AIEML_SHIM[3][j].field))
  {
  }

  lemma ShimApart4(i: nat, j: nat)
    requires i < j < |AIEML_SHIM[4]|
    ensures Disjoint(ShimSpan(AIEML_SHIM[4][i].field), ShimSpan(AIEML_SHIM[4][j].field))
  {
  }

  lemma ShimApart5(i: nat, j: nat)
    requires i < j < |AIEML_SHIM[5]|
    ensures Disjoint(ShimSpan(AIEML_SHIM[5][i].field), ShimSpan(AIEML_SHIM[5][j].field))
  {
  }

  lemma ShimApart6(i: nat, j: nat)
    requires i < j < |AIEML_SHIM[6]|
    ensures Disjoint(ShimSpan(AIEML_SHIM[6][i].field), ShimSpan(AIEML_SHIM[6][j].field))
  {
  }

  lemma ShimApart7(i: nat, j: nat)
    requires i < j < |AIEML_SHIM[7]|
    ensures Disjoint(ShimSpan(AIEML_SHIM[7][i].field), ShimSpan(AIEML_SHIM[7][j].field))
  {
  }

  lemma ShimApart(w: nat, i: nat, j: nat)
    requires w < |AIEML_SHIM| && i < j < |AIEML_SHIM[w]|
    ensures Disjoint(ShimSpan(AIEML_SHIM[w][i].field), ShimSpan(AIEML_SHIM[w][j].field))
  {
    hide ShimSpan, Disjoint;
    match w
    case 2 => ShimApart2(i, j);
    case 3 => ShimApart3(i, j);
    case 4 => ShimApart4(i, j);
    case 5 => ShimApart5(i, j);
    case 6 => ShimApart6(i, j);
    case _ => ShimApart7(i, j);
  }

  lemma ShimBits(k: Key)
    ensures ShimSpan(k).lsb + ShimSpan(k).width <= 32
    ensures ShimSpan(k).width > 0 ==> ShimWord(k) < 8
  {
  }

  lemma ShimHas0(w: nat, e: Entry)
    requires w < |AIEML_SHIM|
    requires w < 4
    ensures e in AIEML_SHIM[w] ==>
      e == Own(e.key) && ShimSpan(e.key).width > 0 && ShimWord(e.key) == w
  {
  }

  lemma ShimHas1(w: nat, e: Entry)
    requires w < |AIEML_SHIM|
    requires 4 <= w < 7
    ensures e in AIEML_SHIM[w] ==>
      e == Own(e.key) && ShimSpan(e.key).width > 0 && ShimWord(e.key) == w
  {
  }

  lemma ShimHas2(w: nat, e: Entry)
    requires w < |AIEML_SHIM|
    requires 7 <= w
    ensures e in AIEML_SHIM[w] ==>
      e == Own(e.key) && ShimSpan(e.key).width > 0 && ShimWord(e.key) == w
  {
  }

  lemma ShimHas(w: nat, e: Entry)
    requires w < |AIEML_SHIM|
    ensures e in AIEML_SHIM[w] ==>
      e == Own(e.key) && ShimSpan(e.key).width > 0 && ShimWord(e.key) == w
  {
    hide ShimSpan;
    if w < 4 {
      ShimHas0(w, e);
    } else if w < 7 {
      ShimHas1(w, e);
    } else {
      ShimHas2(w, e);
    }
  }

  lemma ShimAll0(k: Key)
    requires ShimSpan(k).width > 0 && ShimWord(k) < |AIEML_SHIM|
    requires ShimWord(k) < 4
    ensures Own(k) in AIEML_SHIM[ShimWord(k)]
  {
  }

  lemma ShimAll1(k: Key)
    requires ShimSpan(k).width > 0 && ShimWord(k) < |AIEML_SHIM|
    requires 4 <= ShimWord(k)
    ensures Own(k) in AIEML_SHIM[ShimWord(k)]
  {
  }

  lemma ShimAll(k: Key)
    requires ShimSpan(k).width > 0 && ShimWord(k) < |AIEML_SHIM|
    ensures Own(k) in AIEML_SHIM[ShimWord(k)]
  {
    hide ShimSpan;
    if ShimWord(k) < 4 {
      ShimAll0(k);
    } else {
      ShimAll1(k);
    }
  }

  lemma AieTileApart0(i: nat, j: nat)
    requires i < j < |AIE_TILE[0]|
    ensures Disjoint(AieTileSpan(AIE_TILE[0][i].field), AieTileSpan(AIE_TILE[0][j].field))
  {
  }

  lemma AieTileApart1(i: nat, j: nat)
    requires i < j < |AIE_TILE[1]|
    ensures Disjoint(AieTileSpan(AIE_TILE[1][i].field), AieTileSpan(AIE_TILE[1][j].field))
  {
  }

  lemma AieTileApart2(i: nat, j: nat)
    requires i < j < |AIE_TILE[2]|
    ensures Disjoint(AieTileSpan(AIE_TILE[2][i].field), AieTileSpan(AIE_TILE[2][j].field))
  {
  }

  lemma AieTileApart3(i: nat, j: nat)
    requires i < j < |AIE_TILE[3]|
    ensures Disjoint(AieTileSpan(AIE_TILE[3][i].field), AieTileSpan(AIE_TILE[3][j].field))
  {
  }

  lemma AieTileApart4(i: nat, j: nat)
    requires i < j < |AIE_TILE[4]|
    ensures Disjoint(AieTileSpan(AIE_TILE[4][i].field), AieTileSpan(AIE_TILE[4][j].field))
  {
  }

  lemma AieTileApart5(i: nat, j: nat)
    requires i < j < |AIE_TILE[5]|
    ensures Disjoint(AieTileSpan(AIE_TILE[5][i].field), AieTileSpan(AIE_TILE[5][j].field))
  {
  }

  lemma AieTileApart6(i: nat, j: nat)
    requires i < j < |AIE_TILE[6]|
    ensures Disjoint(AieTileSpan(AIE_TILE[6][i].field), AieTileSpan(AIE_TILE[6][j].field))
  {
  }

  lemma AieTileApart(w: nat, i: nat, j: nat)
    requires w < |AIE_TILE| && i < j < |AIE_TILE[w]|
    ensures Disjoint(AieTileSpan(AIE_TILE[w][i].field), AieTileSpan(AIE_TILE[w][j].field))
  {
    hide AieTileSpan, Disjoint;
    match w
    case 0 => AieTileApart0(i, j);
    case 1 => AieTileApart1(i, j);
    case 2 => AieTileApart2(i, j);
    case 3 => AieTileApart3(i, j);
    case 4 => AieTileApart4(i, j);
    case 5 => AieTileApart5(i, j);
    case _ => AieTileApart6(i, j);
  }

  lemma AieTileBits(k: Key)
    ensures AieTileSpan(k).lsb + AieTileSpan(k).width <= 32
    ensures AieTileSpan(k).width > 0 ==> AieTileWord(k) < 7
  {
  }

  lemma AieTileHas0(w: nat, e: Entry)
    requires w < |AIE_TILE|
    requires w < 1
    ensures e in AIE_TILE[w] ==>
      || (w == 3 && e == Entry(XWrap, YWrap, false))
      || (e == Own(e.key) && AieTileSpan(e.key).width > 0 && AieTileWord(e.key) == w && e.key != YWrap)
  {
  }

  lemma AieTileHas1(w: nat, e: Entry)
    requires w < |AIE_TILE|
    requires 1 <= w < 4
    ensures e in AIE_TILE[w] ==>
      || (w == 3 && e == Entry(XWrap, YWrap, false))
      || (e == Own(e.key) && AieTileSpan(e.key).width > 0 && AieTileWord(e.key) == w && e.key != YWrap)
  {
  }

  lemma AieTileHas2(w: nat, e: Entry)
    requires w < |AIE_TILE|
    requires 4 <= w
    ensures e in AIE_TILE[w] ==>
      || (w == 3 && e == Entry(XWrap, YWrap, false))
      || (e == Own(e.key) && AieTileSpan(e.key).width > 0 && AieTileWord(e.key) == w && e.key != YWrap)
  {
  }

  lemma AieTileHas(w: nat, e: Entry)
    requires w < |AIE_TILE|
    ensures e in AIE_TILE[w] ==>
      || (w == 3 && e == Entry(XWrap, YWrap, false))
      || (e == Own(e.key) && AieTileSpan(e.key).width > 0 && AieTileWord(e.key) == w && e.key != YWrap)
  {
    hide AieTileSpan;
    if w < 1 {
      AieTileHas0(w, e);
    } else if w < 4 {
      AieTileHas1(w, e);
    } else {
      AieTileHas2(w, e);
    }
  }

  lemma AieTileAll0(k: Key)
    requires AieTileSpan(k).width > 0 && AieTileWord(k) < |AIE_TILE| && k != YWrap
    requires AieTileWord(k) < 1
    ensures Own(k) in AIE_TILE[AieTileWord(k)]
  {
  }

  lemma AieTileAll1(k: Key)
    requires AieTileSpan(k).width > 0 && AieTileWord(k) < |AIE_TILE| && k != YWrap
    requires 1 <= AieTileWord(k) < 3
    ensures Own(k) in AIE_TILE[AieTileWord(k)]
  {
  }

  lemma AieTileAll2(k: Key)
    requires AieTileSpan(k).width > 0 && AieTileWord(k) < |AIE_TILE| && k != YWrap
    requires 3 <= AieTileWord(k)
    ensures Own(k) in AIE_TILE[AieTileWord(k)]
  {
  }

  lemma AieTileAll(k: Key)
    requires AieTileSpan(k).width > 0 && AieTileWord(k) < |AIE_TILE| && k != YWrap
    ensures Own(k) in AIE_TILE[AieTileWord(k)]
  {
    hide AieTileSpan;
    if AieTileWord(k) < 1 {
      AieTileAll0(k);
    } else if AieTileWord(k) < 3 {
      AieTileAll1(k);
    } else {
      AieTileAll2(k);
    }
  }

  lemma AieShimApart2(i: nat, j: nat)
    requires i < j < |AIE_SHIM[2]|
    ensures Disjoint(AieShimSpan(AIE_SHIM[2][i].field), AieShimSpan(AIE_SHIM[2][j].field))
  {
  }

  lemma AieShimApart3(i: nat, j: nat)
    requires i < j < |AIE_SHIM[3]|
    ensures Disjoint(AieShimSpan(AIE_SHIM[3][i].field), AieShimSpan(AIE_SHIM[3][j].field))
  {
  }

  lemma AieShimApart4(i: nat, j: nat)
    requires i < j < |AIE_SHIM[4]|
    ensures Disjoint(AieShimSpan(AIE_SHIM[4][i].field), AieShimSpan(AIE_SHIM[4][j].field))
  {
  }

  lemma AieShimApart(w: nat, i: nat, j: nat)
    requires w < |AIE_SHIM| && i < j < |AIE_SHIM[w]|
    ensures Disjoint(AieShimSpan(AIE_SHIM[w][i].field), AieShimSpan(AIE_SHIM[w][j].field))
  {
    hide AieShimSpan, Disjoint;
    match w
    case 2 => AieShimApart2(i, j);
    case 3 => AieShimApart3(i, j);
    case _ => AieShimApart4(i, j);
  }

  lemma AieShimBits(k: Key)
    ensures AieShimSpan(k).lsb + AieShimSpan(k).width <= 32
    ensures AieShimSpan(k).width > 0 ==> AieShimSpan(k).idx < 5
  {
  }

  lemma AieShimHas0(w: nat, e: Entry)
    requires w < |AIE_SHIM|
    requires w < 3
    ensures e in AIE_SHIM[w] ==>
      e == Own(e.key) && AieShimSpan(e.key).width > 0 && AieShimSpan(e.key).idx == w
  {
  }

  lemma AieShimHas1(w: nat, e: Entry)
    requires w < |AIE_SHIM|
    requires 3 <= w
    ensures e in AIE_SHIM[w] ==>
      e == Own(e.key) && AieShimSpan(e.key).width > 0 && AieShimSpan(e.key).idx == w
  {
  }

  lemma AieShimHas(w: nat, e: Entry)
    requires w < |AIE_SHIM|
    ensures e in AIE_SHIM[w] ==>
      e == Own(e.key) && AieShimSpan(e.key).width > 0 && AieShimSpan(e.key).idx == w
  {
    hide AieShimSpan;
    if w < 3 {
      AieShimHas0(w, e);
    } else {
      AieShimHas1(w, e);
    }
  }

  lemma AieShimAll0(k: Key)
    requires AieShimSpan(k).width > 0 && AieShimSpan(k).idx < |AIE_SHIM|
    requires AieShimSpan(k).idx < 2
    ensures Own(k) in AIE_SHIM[AieShimSpan(k).idx]
  {
  }

  lemma AieShimAll1(k: Key)
    requires AieShimSpan(k).width > 0 && AieShimSpan(k).idx < |AIE_SHIM|
    requires 2 <= AieShimSpan(k).idx
    ensures Own(k) in AIE_SHIM[AieShimSpan(k).idx]
  {
  }

  lemma AieShimAll(k: Key)
    requires AieShimSpan(k).width > 0 && AieShimSpan(k).idx < |AIE_SHIM|
    ensures Own(k) in AIE_SHIM[AieShimSpan(k).idx]
  {
    hide AieShimSpan;
    if AieShimSpan(k).idx < 2 {
      AieShimAll0(k);
    } else {
      AieShimAll1(k);
    }
  }

  // ---------------------------------------------------------------- any kind of tile

  function SpanOf(kind: Kind, k: Key): Span {
    match kind
    case MemTile => MemTileSpan(k)
    case Tile => TileSpan(k)
    case Shim => ShimSpan(k)
    case AieTile => AieTileSpan(k)
    case AieShim => AieShimSpan(k)
  }

  /** The word a field is written to. */
  function WordOf(kind: Kind, k: Key): nat {
    if kind == Shim then ShimWord(k) else if kind == AieTile then AieTileWord(k) else SpanOf(kind, k).idx
  }

  function DmaOf(kind: Kind): Props {
    match kind
    case MemTile => AIEML_MEM_TILE_DMA
    case Tile => AIEML_TILE_DMA
    case Shim => AIEML_SHIM_DMA
    case AieTile => AIE_TILE_DMA
    case AieShim => AIE_SHIM_DMA
  }

  function TableOf(kind: Kind): Table {
    match kind
    case MemTile => AIEML_MEM_TILE
    case Tile => AIEML_TILE
    case Shim => AIEML_SHIM
    case AieTile => AIE_TILE
    case AieShim => AIE_SHIM
  }

  /** The number of words of a descriptor. */
  function WordsOf(kind: Kind): nat {
    match kind
    case MemTile => 8
    case Tile => 6
    case Shim => 8
    case AieTile => 7
    case AieShim => 5
  }

  lemma DmaTable(kind: Kind)
    ensures DmaOf(kind).table == TableOf(kind) && |TableOf(kind)| == WordsOf(kind)
  {
  }

  predicate IsShimKind(kind: Kind) {
    kind == Shim || kind == AieShim
  }

  predicate HasField(kind: Kind, k: Key) {
    SpanOf(kind, k).width > 0
  }

  /** The fields that are written from the descriptor's field of the same name. */
  predicate Written(kind: Kind, k: Key) {
    HasField(kind, k) && !(kind == AieTile && k == YWrap)
  }

  /** The fields of one word share no bit. */
  lemma EntriesApart(kind: Kind, w: nat, i: nat, j: nat)
    requires w < |TableOf(kind)| && i < j < |TableOf(kind)[w]|
    ensures Disjoint(SpanOf(kind, TableOf(kind)[w][i].field), SpanOf(kind, TableOf(kind)[w][j].field))
  {
    hide MemTileSpan, TileSpan, ShimSpan, AieTileSpan, AieShimSpan, Disjoint;
    match kind
    case MemTile => MemTileApart(w, i, j);
    case Tile => TileApart(w, i, j);
    case Shim => ShimApart(w, i, j);
    case AieTile => AieTileApart(w, i, j);
    case AieShim => AieShimApart(w, i, j);
  }

  lemma FieldInWord(kind: Kind, k: Key)
    ensures SpanOf(kind, k).lsb + SpanOf(kind, k).width <= 32
    ensures HasField(kind, k) ==> WordOf(kind, k) < WordsOf(kind)
  {
    hide MemTileSpan, TileSpan, ShimSpan, AieTileSpan, AieShimSpan, ShimWord, AieTileWord;
    match kind
    case MemTile => MemTileBits(k);
    case Tile => TileBits(k);
    case Shim => ShimBits(k);
    case AieTile => AieTileBits(k);
    case AieShim => AieShimBits(k);
  }

  lemma EntriesOnly(kind: Kind, w: nat, e: Entry)
    requires w < |TableOf(kind)| && e in TableOf(kind)[w]
    ensures
      || (kind == AieTile && w == 3 && e == Entry(XWrap, YWrap, false))
      || (e == Own(e.key) && Written(kind, e.key) && WordOf(kind, e.key) == w)
  {
    hide MemTileSpan, TileSpan, ShimSpan, AieTileSpan, AieShimSpan, ShimWord, AieTileWord, Own;
    match kind
    case MemTile => MemTileHas(w, e);
    case Tile => TileHas(w, e);
    case Shim => ShimHas(w, e);
    case AieTile => AieTileHas(w, e);
    case AieShim => AieShimHas(w, e);
  }

  lemma EntriesAll(kind: Kind, k: Key)
    requires Written(kind, k) && WordOf(kind, k) < |TableOf(kind)|
    ensures Own(k) in TableOf(kind)[WordOf(kind, k)]
  {
    hide MemTileSpan, TileSpan, ShimSpan, AieTileSpan, AieShimSpan, ShimWord, AieTileWord, Own;
    match kind
    case MemTile => MemTileAll(k);
    case Tile => TileAll(k);
    case Shim => ShimAll(k);
    case AieTile => AieTileAll(k);
    case AieShim => AieShimAll(k);
  }

  lemma YWrapEntry()
    ensures Entry(XWrap, YWrap, false) in AIE_TILE[3]
  {
    assert AIE_TILE[3][1] == Entry(XWrap, YWrap, false);
  }

  /** The writing routine's table against the register table: a word is made of exactly the fields
      that lie in it, each once, and each from the descriptor's field of that name. The one exception
      is the Y wrap of AIE tiles. */
  lemma EntriesAre(kind: Kind, w: nat, e: Entry)
    requires w < |TableOf(kind)|
    ensures e in TableOf(kind)[w] <==>
      || (kind == AieTile && w == 3 && e == Entry(XWrap, YWrap, false))
      || (e == Own(e.key) && Written(kind, e.key) && WordOf(kind, e.key) == w)
  {
    hide Own, Written, WordOf;
    if e in TableOf(kind)[w] {
      EntriesOnly(kind, w, e);
    } else if Written(kind, e.key) && WordOf(kind, e.key) == w {
      EntriesAll(kind, e.key);
    }
    YWrapEntry();
  }

  /** Every field is an entry's own place, in the word of the entry. */
  lemma EntryPlace(kind: Kind, w: nat, i: nat)
    requires w < |TableOf(kind)| && i < |TableOf(kind)[w]|
    ensures var k := TableOf(kind)[w][i].field; HasField(kind, k) && WordOf(kind, k) == w
    ensures var k := TableOf(kind)[w][i].field; Numbered(k) ==> SpanOf(kind, k).idx == w
  {
    EntriesAre(kind, w, TableOf(kind)[w][i]);
  }

  lemma KindLayout(kind: Kind, k: Key)
    ensures DmaOf(kind).lay(k) == PlaceOf(SpanOf(kind, k))
    ensures DmaOf(kind).lay(k).idx == SpanOf(kind, k).idx
    ensures SpanOf(kind, k).lsb + SpanOf(kind, k).width <= 32 ==>
      Contiguous(PlaceOf(SpanOf(kind, k)).f, SpanOf(kind, k).width)
  {
    hide MemTileSpan, TileSpan, ShimSpan, AieTileSpan, AieShimSpan;
  }

  /** The register tables of all kinds of tile are sound for the writing routines, and the reading
      routines agree with these. */
  lemma KindSound(kind: Kind)
    ensures DmaOf(kind).Sound() && DmaOf(kind).Agreeing()
  {
    var p := DmaOf(kind);
    DmaTable(kind);
    forall w: nat | w < |p.table|
      ensures Separate(p.lay, p.table[w])
      ensures forall i | 0 <= i < |p.table[w]| && Numbered(p.table[w][i].field) :: p.lay(p.table[w][i].field).idx == w
    {
      hide MemTileSpan, TileSpan, ShimSpan, AieTileSpan, AieShimSpan, Disjoint, WordOf, HasField;
      forall i: nat, j: nat | i < j < |p.table[w]|
        ensures Apart(p.lay(p.table[w][i].field).f, p.lay(p.table[w][j].field).f)
      {
        var f, g := p.table[w][i].field, p.table[w][j].field;
        EntryPlace(kind, w, i);
        EntryPlace(kind, w, j);
        EntriesApart(kind, w, i, j);
        DisjointApart(SpanOf(kind, f), SpanOf(kind, g));
        KindLayout(kind, f);
        KindLayout(kind, g);
      }
      forall i: nat | i < |p.table[w]| && Numbered(p.table[w][i].field)
        ensures p.lay(p.table[w][i].field).idx == w
      {
        EntryPlace(kind, w, i);
        KindLayout(kind, p.table[w][i].field);
      }
    }
    TablesAgree(p);
  }

  lemma KindFields(kind: Kind)
    ensures !IsShimKind(kind) ==>
      DmaOf(kind).Single(Length) && DmaOf(kind).Single(Address) && DmaOf(kind).Single(ValidBd)
    ensures IsShimKind(kind) ==>
      && DmaOf(kind).Alone(Length) && DmaOf(kind).Alone(AddrLow)
      && DmaOf(kind).Single(AddrHigh) && DmaOf(kind).Single(ValidBd)
  {
    hide Props.Sound, Props.Single, Props.Alone;
    KindSound(kind);
    match kind
    case MemTile => MemTileFields(DmaOf(kind));
    case Tile => TileFields(DmaOf(kind));
    case Shim => ShimFields(DmaOf(kind));
    case AieTile => AieTileFields(DmaOf(kind));
    case AieShim => AieShimFields(DmaOf(kind));
  }

  // ---------------------------------------------------------------- what the registers hold

  /** The descriptors of a DMA follow one another, from the first register of its table on. */
  lemma DescriptorAt(kind: Kind, num: nat)
    ensures DmaOf(kind).At(num) ==
      (if kind == MemTile then 0xA0000 else 0x1D000) + if kind == AieShim then 20 * num else 32 * num
  {
  }

  /** A descriptor's value as its field holds it: some less one, and a field of n bits modulo 2^n. */
  function StoredValue(k: Key, x: nat, width: nat): nat
    requires x < U32
  {
    (if !StoredLess(k) then x else if x == 0 then U32 - 1 else x - 1) % Pow2(width)
  }

  /** Every field of a written descriptor is in the word and the bits that the register table gives
      it: the lock of the acquire field in the acquire field, step sizes less one, and so on. */
  lemma FieldHeld(kind: Kind, m: RegFile, num: nat, d: Desc, k: Key)
    requires DmaOf(kind).HoldsAt(m, num, d) && Written(kind, k)
    ensures var s := SpanOf(kind, k);
      Value(GetField(ReadReg(m, DmaOf(kind).At(num) + 4 * WordOf(kind, k)), PlaceOf(s).f))
        == StoredValue(k, Raw(d, k), s.width)
  {
    var p, w, s := DmaOf(kind), WordOf(kind, k), SpanOf(kind, k);
    hide DmaOf, SpanOf, WordOf, TableOf, PlaceOf, Written, Props.Sound, Props.HoldsAt, StoredValue, Value, GetField;
    KindSound(kind);
    FieldInWord(kind, k);
    KindLayout(kind, k);
    DmaTable(kind);
    var i := OwnEntry(kind, k);
    OwnKey(k);
    OwnHeld(p, m, num, w, i, k, s, d);
  }

  lemma OwnHeld(p: Props, m: RegFile, num: nat, w: nat, i: nat, k: Key, s: Span, d: Desc)
    requires p.Sound() && p.HoldsAt(m, num, d) && w < |p.table| && i < |p.table[w]| && p.table[w][i] == Own(k)
    requires p.lay(k) == PlaceOf(s) && Contiguous(PlaceOf(s).f, s.width)
    ensures Value(GetField(ReadReg(m, p.At(num) + 4 * w), PlaceOf(s).f)) == StoredValue(k, Raw(d, k), s.width)
  {
    hide Props.Sound, Props.HoldsAt, Value, GetField, Pow2, PlaceOf;
    HeldEntry(p, m, num, w, i, s.width, d);
  }

  lemma OwnEntry(kind: Kind, k: Key) returns (i: nat)
    requires Written(kind, k)
    ensures WordOf(kind, k) < |TableOf(kind)| && i < |TableOf(kind)[WordOf(kind, k)]|
    ensures TableOf(kind)[WordOf(kind, k)][i] == Own(k)
  {
    hide TableOf, WordOf, Own, SpanOf;
    FieldInWord(kind, k);
    DmaTable(kind);
    EntriesAre(kind, WordOf(kind, k), Own(k));
    OwnKey(k);
    i :| i < |TableOf(kind)[WordOf(kind, k)]| && TableOf(kind)[WordOf(kind, k)][i] == Own(k);
  }

  lemma OwnKey(k: Key)
    ensures Own(k).key == k && Own(k).field == k && Own(k).minusOne == StoredLess(k)
  {
  }

  /** And nothing else of the descriptor is written. */
  lemma WrittenIff(kind: Kind, k: Key)
    ensures TableMentions(DmaOf(kind).table, k) <==> Written(kind, k)
  {
    hide DmaOf, SpanOf, TableOf, WordOf;
    var p := DmaOf(kind);
    DmaTable(kind);
    if Written(kind, k) {
      FieldInWord(kind, k);
      EntriesAre(kind, WordOf(kind, k), Own(k));
      MentionsIn(p.table[WordOf(kind, k)], k);
    }
    if TableMentions(p.table, k) {
      var w :| 0 <= w < |p.table| && Mentions(p.table[w], k);
      var i :| 0 <= i < |p.table[w]| && p.table[w][i].key == k;
      EntriesAre(kind, w, p.table[w][i]);
      XWrapWritten();
    }
  }

  lemma XWrapWritten()
    ensures Written(AieTile, XWrap)
  {
  }

  // ---------------------------------------------------------------- addresses

  /** Setting and writing an accepted address in a tile. Memory tiles keep every one. The limits of the
      other two are twice what their fields hold: an address is kept if and only if it lies in
      the 64 KiB, or on AIE the 32 KiB, that a tile's memory has. */
  lemma TileAddressKeptIff(kind: Kind, m: RegFile, num: nat, d: Desc, address: nat, len: nat)
    requires !IsShimKind(kind) && SetAddrLen(DmaOf(kind), d, address, len).Done?
    requires DmaOf(kind).HoldsAt(m, num, SetAddrLen(DmaOf(kind), d, address, len).d) && address + len < U32 * U32
    ensures DmaOf(kind).HoldsAddress(m, num, address) <==>
      kind == MemTile || address < if kind == Tile then 0x1_0000 else 0x8000
  {
    hide Holds, Props.Sound, Props.Single, Props.HoldsAt, Props.HoldsAddress, Pow2, Accepted;
    var p, width := DmaOf(kind), SpanOf(kind, Address).width;
    KindSound(kind);
    KindFields(kind);
    AcceptedIff(p, address, len);
    AddressWidths();
    AddressHeldIff(p, m, num, SetAddrLen(p, d, address, len).d, address, width);
  }

  lemma AddressWidths()
    ensures Pow2(2) == 4 && Pow2(13) == 0x2000 && Pow2(14) == 0x4000 && Pow2(16) == 0x1_0000 && Pow2(19) == 0x8_0000
  {
    assert Pow2(5) == 32 by {
      assert Pow2(2) == 4;
    }
    assert Pow2(9) == 512;
    assert Pow2(13) == 0x2000;
    assert Pow2(16) == 0x1_0000;
  }

  /** The address of an interface tile's descriptor is in two registers: its low half without
      the bits below the field, and 16 bits of its high half. */
  lemma ShimAddressRegisters(kind: Kind, m: RegFile, num: nat, d: Desc, address: nat)
    requires IsShimKind(kind)
    requires DmaOf(kind).HoldsAt(m, num, WithAddress(d, address, SpanOf(kind, AddrLow).lsb))
    ensures var p, lsb := DmaOf(kind), SpanOf(kind, AddrLow).lsb;
      && Value(GetField(ReadReg(m, p.Register(num, AddrLow)), p.lay(AddrLow).f)) == address % U32 / Pow2(lsb)
      && Value(GetField(ReadReg(m, p.Register(num, AddrHigh)), p.lay(AddrHigh).f)) == address / U32 % 0x1_0000
  {
    hide Props.Sound, Props.HoldsAt, Value, GetField, SpanOf, DmaOf, WordOf, Written, StoredValue, Raw, WithAddress;
    hide Pow2, PlaceOf;
    var h := WithAddress(d, address, SpanOf(kind, AddrLow).lsb);
    ShimParts(kind, d, address);
    FieldHeld(kind, m, num, h, AddrLow);
    FieldHeld(kind, m, num, h, AddrHigh);
    FieldRegister(kind, num, AddrLow);
    FieldRegister(kind, num, AddrHigh);
  }

  lemma FieldRegister(kind: Kind, num: nat, k: Key)
    requires WordOf(kind, k) == SpanOf(kind, k).idx
    ensures DmaOf(kind).Register(num, k) == DmaOf(kind).At(num) + 4 * WordOf(kind, k)
    ensures DmaOf(kind).lay(k).f == PlaceOf(SpanOf(kind, k)).f
  {
    hide SpanOf, WordOf, DmaOf;
    KindLayout(kind, k);
  }

  lemma ShimParts(kind: Kind, d: Desc, address: nat)
    requires IsShimKind(kind)
    ensures Written(kind, AddrLow) && Written(kind, AddrHigh)
    ensures WordOf(kind, AddrLow) == SpanOf(kind, AddrLow).idx && WordOf(kind, AddrHigh) == SpanOf(kind, AddrHigh).idx
    ensures var low, h := SpanOf(kind, AddrLow), WithAddress(d, address, SpanOf(kind, AddrLow).lsb);
      && StoredValue(AddrLow, Raw(h, AddrLow), low.width) == address % U32 / Pow2(low.lsb)
      && StoredValue(AddrHigh, Raw(h, AddrHigh), SpanOf(kind, AddrHigh).width) == address / U32 % 0x1_0000
  {
    hide SpanOf, Pow2, Raw, WithAddress, StoredValue, WordOf;
    ShimSpans(kind);
    LowStored(d, address, SpanOf(kind, AddrLow).lsb);
    HighStored(d, address, SpanOf(kind, AddrLow).lsb);
  }

  lemma LowStored(d: Desc, address: nat, lsb: nat)
    requires lsb == 0 || lsb == 2
    ensures StoredValue(AddrLow, Raw(WithAddress(d, address, lsb), AddrLow), 32 - lsb) == address % U32 / Pow2(lsb)
  {
    hide Pow2, Shr;
    LowPart(address, lsb);
  }

  lemma HighStored(d: Desc, address: nat, lsb: nat)
    ensures StoredValue(AddrHigh, Raw(WithAddress(d, address, lsb), AddrHigh), 16) == address / U32 % 0x1_0000
  {
    hide Pow2, Shr;
    HighPart(address);
  }

  lemma ShimSpans(kind: Kind)
    requires IsShimKind(kind)
    ensures var low, high := SpanOf(kind, AddrLow), SpanOf(kind, AddrHigh);
      (low.lsb == 0 || low.lsb == 2) && low.width == 32 - low.lsb && high.width == 16
    ensures WordOf(kind, AddrLow) == SpanOf(kind, AddrLow).idx && WordOf(kind, AddrHigh) == SpanOf(kind, AddrHigh).idx
  {
  }

  lemma LowPart(address: nat, lsb: nat)
    requires lsb == 0 || lsb == 2
    ensures Shr(address, lsb) % U32 % Pow2(32 - lsb) == address % U32 / Pow2(lsb)
  {
    var p, h := Pow2(lsb), Pow2(32 - lsb);
    var q, r := address / U32, address % U32;
    ShrIs(address, lsb);
    Pow2Of32();
    Pow2Adds(32 - lsb, lsb);
    LowBitsAgree(Shr(address, lsb), h, p);
    hide Pow2, Shr;
    assert h * p == U32 && p * h == U32;
    assert r == r / p * p + r % p;
    Associate(q, h, p);
    assert (q * h + r / p) * p == q * h * p + r / p * p;
    DivideIs(address, p, q * h + r / p, r % p);
    DivideIs(Shr(address, lsb), h, q, r / p);
  }

  lemma HighPart(address: nat)
    ensures address / U32 % U32 % Pow2(16) == address / U32 % 0x1_0000
  {
    AddressWidths();
  }

  /** Both other kinds accept addresses that their registers do not keep. */
  lemma CutAddresses()
    ensures Accepted(AIEML_TILE_DMA, 0x1_0000, 4) && Accepted(AIE_TILE_DMA, 0x8000, 4)
  {
  }

  /** The two parts of an interface tile's address keep every accepted one, but for an empty buffer
      at the very end of the address space. */
  lemma ShimAddressFits(kind: Kind, address: nat, len: nat)
    requires IsShimKind(kind) && Accepted(DmaOf(kind), address, len) && address + len < U32 * U32
    ensures address / U32 < 0x1_0000 <==> !(address == 0x1_0000_0000_0000 && len == 0)
  {
    AcceptedIff(DmaOf(kind), address, len);
  }
}
