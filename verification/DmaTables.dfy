/** The descriptor tables of the individual tile types. */
module DmaTables {
  import opened Arithmetic
  import opened Bits
  import opened BdFields
  import opened DmaBd
  import opened DmaUpdate
  import opened DmaModule

  /** In tables that fit the layout, the only entry for a field is in the field's register. */
  lemma Located(p: Props, w: nat, i: nat, k: Key)
    requires p.Sound() && OnlyPlace(p.table, w, i, k) && Numbered(k)
    ensures p.Single(k)
    ensures |p.table[w]| == 1 ==> p.Alone(k)
  {
  }

  lemma MemTileLength()
    ensures OnlyPlace(AIEML_MEM_TILE, 0, 4, Length)
  {
  }

  lemma MemTileAddress()
    ensures OnlyPlace(AIEML_MEM_TILE, 1, 3, Address)
  {
  }

  lemma MemTileValidBd()
    ensures OnlyPlace(AIEML_MEM_TILE, 7, 0, ValidBd)
  {
  }

  lemma MemTileFields(p: Props)
    requires p.Sound() && p.table == AIEML_MEM_TILE
    ensures p.Single(Length) && p.Single(Address) && p.Single(ValidBd)
  {
    MemTileLength();
    Located(p, 0, 4, Length);
    MemTileAddress();
    Located(p, 1, 3, Address);
    MemTileValidBd();
    Located(p, 7, 0, ValidBd);
  }

  lemma TileLength()
    ensures OnlyPlace(AIEML_TILE, 0, 1, Length)
  {
  }

  lemma TileAddress()
    ensures OnlyPlace(AIEML_TILE, 0, 0, Address)
  {
  }

  lemma TileValidBd()
    ensures OnlyPlace(AIEML_TILE, 5, 0, ValidBd)
  {
  }

  lemma TileFields(p: Props)
    requires p.Sound() && p.table == AIEML_TILE
    ensures p.Single(Length) && p.Single(Address) && p.Single(ValidBd)
  {
    TileLength();
    Located(p, 0, 1, Length);
    TileAddress();
    Located(p, 0, 0, Address);
    TileValidBd();
    Located(p, 5, 0, ValidBd);
  }

  lemma ShimLength()
    ensures OnlyPlace(AIEML_SHIM, 0, 0, Length)
  {
  }

  lemma ShimAddrLow()
    ensures OnlyPlace(AIEML_SHIM, 1, 0, AddrLow)
  {
  }

  lemma ShimAddrHigh()
    ensures OnlyPlace(AIEML_SHIM, 2, 0, AddrHigh)
  {
  }

  lemma ShimValidBd()
    ensures OnlyPlace(AIEML_SHIM, 7, 0, ValidBd)
  {
  }

  lemma ShimFields(p: Props)
    requires p.Sound() && p.table == AIEML_SHIM
    ensures p.Alone(Length) && p.Alone(AddrLow) && p.Single(AddrHigh) && p.Single(ValidBd)
  {
    ShimLength();
    Located(p, 0, 0, Length);
    ShimAddrLow();
    Located(p, 1, 0, AddrLow);
    ShimAddrHigh();
    Located(p, 2, 0, AddrHigh);
    ShimValidBd();
    Located(p, 7, 0, ValidBd);
  }

  lemma AieTileLength()
    ensures OnlyPlace(AIE_TILE, 6, 8, Length)
  {
  }

  lemma AieTileAddress()
    ensures OnlyPlace(AIE_TILE, 0, 7, Address)
  {
  }

  lemma AieTileValidBd()
    ensures OnlyPlace(AIE_TILE, 6, 0, ValidBd)
  {
  }

  lemma AieTileFields(p: Props)
    requires p.Sound() && p.table == AIE_TILE
    ensures p.Single(Length) && p.Single(Address) && p.Single(ValidBd)
  {
    AieTileLength();
    Located(p, 6, 8, Length);
    AieTileAddress();
    Located(p, 0, 7, Address);
    AieTileValidBd();
    Located(p, 6, 0, ValidBd);
  }

  lemma AieShimLength()
    ensures OnlyPlace(AIE_SHIM, 1, 0, Length)
  {
  }

  lemma AieShimAddrLow()
    ensures OnlyPlace(AIE_SHIM, 0, 0, AddrLow)
  {
  }

  lemma AieShimAddrHigh()
    ensures OnlyPlace(AIE_SHIM, 2, 0, AddrHigh)
  {
  }

  lemma AieShimValidBd()
    ensures OnlyPlace(AIE_SHIM, 2, 10, ValidBd)
  {
  }

  lemma AieShimFields(p: Props)
    requires p.Sound() && p.table == AIE_SHIM
    ensures p.Alone(Length) && p.Alone(AddrLow) && p.Single(AddrHigh) && p.Single(ValidBd)
  {
    AieShimLength();
    Located(p, 1, 0, Length);
    AieShimAddrLow();
    Located(p, 0, 0, AddrLow);
    AieShimAddrHigh();
    Located(p, 2, 0, AddrHigh);
    AieShimValidBd();
    Located(p, 2, 10, ValidBd);
  }

  // ---------------------------------------------------------------- reading

  lemma MemTileAgrees()
    ensures Agree(AIEML_MEM_TILE, AIEML_MEM_TILE_READ)
  {
  }

  lemma TileAgrees()
    ensures Agree(AIEML_TILE, AIEML_TILE_READ)
  {
  }

  lemma ShimAgrees()
    ensures Agree(AIEML_SHIM, AIEML_SHIM_READ)
  {
  }

  lemma AieTileAgrees()
    ensures Agree(AIE_TILE, AIE_TILE_READ)
  {
  }

  lemma AieShimAgrees()
    ensures Agree(AIE_SHIM, AIE_SHIM_READ)
  {
  }

  /** The tables of one kind of tile: those of the writing and of the reading routine. */
  predicate IsTileKind(table: Table, read: Table) {
    || (table == AIEML_MEM_TILE && read == AIEML_MEM_TILE_READ)
    || (table == AIEML_TILE && read == AIEML_TILE_READ)
    || (table == AIEML_SHIM && read == AIEML_SHIM_READ)
    || (table == AIE_TILE && read == AIE_TILE_READ)
    || (table == AIE_SHIM && read == AIE_SHIM_READ)
  }

  /** On every kind of tile the two routines agree. */
  lemma TablesAgree(p: Props)
    requires IsTileKind(p.table, p.readTable)
    ensures p.Agreeing()
  {
    hide Agree;
    MemTileAgrees();
    TileAgrees();
    ShimAgrees();
    AieTileAgrees();
    AieShimAgrees();
  }

  lemma NoYWrap(w: nat)
    requires w < |AIE_TILE|
    ensures !Mentions(AIE_TILE[w], YWrap)
  {
    if w < 3 {
      assert w == 0 || w == 1 || w == 2;
    } else {
      assert w == 3 || w == 4 || w == 5 || w == 6;
    }
  }

  /** The Y wrap of a software descriptor reaches no register of an AIE tile. */
  lemma YWrapLost(d: Desc, v: nat, lay: Layout)
    ensures PackAll(d[YWrap := v], lay, AIE_TILE) == PackAll(d, lay, AIE_TILE)
  {
    hide PackWord, Mentions;
    forall w: nat | w < |AIE_TILE|
      ensures PackWord(d[YWrap := v], lay, AIE_TILE[w]) == PackWord(d, lay, AIE_TILE[w])
    {
      NoYWrap(w);
      Unmentioned(d, YWrap, v, lay, AIE_TILE[w]);
    }
  }

  /** The hardware's Y wrap is therefore right exactly if it equals the X wrap. */
  lemma YWrapRightIff(d: Desc, lay: Layout, width: nat)
    requires AllSeparate(lay, AIE_TILE) && Contiguous(lay(YWrap).f, width)
    requires Raw(d, XWrap) < Pow2(width) && Raw(d, YWrap) < Pow2(width)
    ensures Value(GetField(PackAll(d, lay, AIE_TILE)[3], lay(YWrap).f)) == Raw(d, YWrap) <==>
      Raw(d, XWrap) == Raw(d, YWrap)
  {
    PackGet(d, lay, AIE_TILE[3], 1);
    FieldHolds(Raw(d, XWrap), lay(YWrap).f, width);
    ModIff(Raw(d, XWrap), Pow2(width));
  }
}
