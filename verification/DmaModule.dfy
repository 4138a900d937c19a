/** The buffer descriptors of one tile's DMA: writing and reading whole descriptors, and
    updating lengths and addresses in the registers. */
module DmaModule {
  import opened Arithmetic
  import opened Bits
  import opened BdFields
  import opened DmaBd
  import opened DmaUpdate

  datatype RC = Ok | InvalidBdNum | InvalidAddress | InvalidDmaDesc | Err

  /** The fields that are updated or read one by one, at the word number of the register tables. */
  predicate Numbered(k: Key) {
    k == Length || k == Address || k == AddrLow || k == AddrHigh || k == ValidBd
  }

  /** The properties of a DMA, as the register tables give them. */
  datatype Props = Props(base: nat, idxOffset: nat, numBds: nat, lenOffset: nat, align: nat, alignShift: nat,
                         addrMax: nat, lay: Layout, table: Table, readTable: Table)
  {
    function At(num: nat): nat {
      BdAddr(base, idxOffset, num)
    }

    /** The address of the register a field is in. */
    function Register(num: nat, k: Key): nat {
      At(num) + 4 * lay(k).idx
    }

    /** The fields of a word are apart, descriptors are apart, and the tables place the fields
        that are found by their word number in the word the code puts them into. */
    ghost predicate Sound() {
      && AllSeparate(lay, table)
      && 4 * |table| <= idxOffset
      && forall w, i | 0 <= w < |table| && 0 <= i < |table[w]| && Numbered(table[w][i].field) ::
        lay(table[w][i].field).idx == w
    }

    /** The address field of a hardware descriptor holds an address. */
    predicate HoldsAddress(m: RegFile, num: nat, address: nat) {
      Value(GetField(ReadReg(m, Register(num, Address)), lay(Address).f)) * Pow2(alignShift) == address
    }

    /** The reading routine takes each field from where the writing routine puts it. */
    ghost predicate Agreeing() {
      Agree(table, readTable)
    }

    /** A field that is written nowhere else. */
    ghost predicate Single(k: Key) {
      exists i: nat :: OnlyPlace(table, lay(k).idx, i, k)
    }

    /** A field that is alone in its register. */
    ghost predicate Alone(k: Key) {
      OnlyPlace(table, lay(k).idx, 0, k) && table[lay(k).idx] == [Same(k)]
    }

    ghost predicate HoldsAt(m: RegFile, num: nat, d: Desc) {
      Holds(m, At(num), d, lay, table)
    }

    /** The descriptor read has every field of the written one that the hardware has a place
        for, and zeroes otherwise. */
    ghost predicate Reads(r: Desc, d: Desc) {
      forall k :: Raw(r, k) == if TableMentions(table, k) then Raw(d, k) else 0
    }

    /** The same for a descriptor whose address is stored in two parts. */
    ghost predicate ReadsShim(r: Desc, d: Desc)
      requires Address in d
    {
      var lsb := lay(AddrLow).f.lsb;
      && (forall k | k != Address ::
           Raw(r, k) == if TableMentions(table, k) then Raw(Halves(d, d[Address], lsb), k) else 0)
      && Address in r
      && (r[Address] == d[Address] <==> d[Address] % Pow2(lsb) == 0)
    }

    /** The length in bytes that the hardware descriptor stands for. */
    function StoredLen(d: Desc, width: nat): nat {
      if Raw(d, ValidBd) % 2 == 1 then LenBytes(Raw(d, Length) % Pow2(width), lenOffset) else 0
    }

    /** Every bit outside field `k` of hardware descriptor `num` is as before. */
    ghost predicate OnlyField(m: RegFile, m': RegFile, num: nat, k: Key) {
      && (forall a: nat | a != Register(num, k) :: ReadReg(m', a) == ReadReg(m, a))
      && forall j | 0 <= j < 32 && !lay(k).f.mask[j] ::
        ReadReg(m', Register(num, k))[j] == ReadReg(m, Register(num, k))[j]
    }

    /** Every register outside hardware descriptor `num` is as before. */
    ghost predicate OthersKept(m: RegFile, m': RegFile, num: nat) {
      forall a: nat | a < At(num) || At(num) + 4 * |table| <= a :: ReadReg(m', a) == ReadReg(m, a)
    }
  }

  lemma HeldRead(p: Props, m: RegFile, num: nat, d: Desc)
    requires p.Sound() && p.Agreeing() && AllFit(d, p.lay, p.table) && p.HoldsAt(m, num, d)
    ensures p.Reads(UnpackAll(ReadWords(m, p.At(num), |p.readTable|), p.lay, p.readTable, map[]), d)
  {
    forall k
      ensures Raw(UnpackAll(PackAll(d, p.lay, p.table), p.lay, p.readTable, map[]), k)
        == if TableMentions(p.table, k) then Raw(d, k) else 0
    {
      KeyReads(d, p.lay, p.table, p.readTable, k);
    }
  }

  lemma BothMentioned(p: Props)
    requires p.Alone(AddrLow) && p.Single(AddrHigh)
    ensures TableMentions(p.table, AddrLow) && TableMentions(p.table, AddrHigh)
  {
  }

  lemma ShimHeldRead(p: Props, m: RegFile, num: nat, d: Desc)
    requires p.Sound() && p.Alone(AddrLow) && p.Single(AddrHigh) && Address in d && d[Address] < U32 * U32
    requires p.Agreeing() && p.lay(AddrLow).f.lsb <= 32
    requires AllFit(Halves(d, d[Address], p.lay(AddrLow).f.lsb), p.lay, p.table)
    requires p.HoldsAt(m, num, WithAddress(d, d[Address], p.lay(AddrLow).f.lsb))
    ensures var r := UnpackAll(ReadWords(m, p.At(num), |p.readTable|), p.lay, p.readTable, map[]);
      p.ReadsShim(r[Address := JoinAddress(r, p.lay(AddrLow).f.lsb)], d)
  {
    var address, lsb := d[Address], p.lay(AddrLow).f.lsb;
    SamePacking(d, address, p.lay, p.table, p.lay(AddrLow).idx);
    HeldRead(p, m, num, Halves(d, address, lsb));
    BothMentioned(p);
    Joined(p, UnpackAll(ReadWords(m, p.At(num), |p.readTable|), p.lay, p.readTable, map[]), d);
  }

  lemma Joined(p: Props, r: Desc, d: Desc)
    requires Address in d && d[Address] < U32 * U32 && p.lay(AddrLow).f.lsb <= 32
    requires p.Reads(r, Halves(d, d[Address], p.lay(AddrLow).f.lsb))
    requires TableMentions(p.table, AddrLow) && TableMentions(p.table, AddrHigh)
    ensures p.ReadsShim(r[Address := JoinAddress(r, p.lay(AddrLow).f.lsb)], d)
  {
    HalvesHeld(d, d[Address], p.lay(AddrLow).f.lsb);
    JoinBackIff(d[Address], p.lay(AddrLow).f.lsb);
  }

  /** So are all other hardware descriptors. */
  lemma DescriptorsKept(p: Props, m: RegFile, m': RegFile, num: nat, other: nat)
    requires p.Sound() && p.OthersKept(m, m', num) && other != num
    ensures ReadWords(m', p.At(other), |p.table|) == ReadWords(m, p.At(other), |p.table|)
  {
    forall j: nat | j < |p.table|
      ensures ReadReg(m', p.At(other) + 4 * j) == ReadReg(m, p.At(other) + 4 * j)
    {
      if other < num {
        Product(num, other, p.idxOffset);
      } else {
        Product(other, num, p.idxOffset);
      }
    }
  }

  lemma BlockKeepsOthers(p: Props, m: RegFile, num: nat, words: seq<Word32>)
    requires |words| == |p.table|
    ensures p.OthersKept(m, WriteWords(m, p.At(num), words), num)
  {
    forall a: nat | a < p.At(num) || p.At(num) + 4 * |p.table| <= a
      ensures ReadReg(WriteWords(m, p.At(num), words), a) == ReadReg(m, a)
    {
      Stored(m, p.At(num), words, a);
    }
  }

  /** Writing one register of a descriptor changes one of its words, and no other register. */
  lemma OneRegister(p: Props, m: RegFile, num: nat, w: nat, word: Word32)
    requires p.Sound() && w < |p.table|
    ensures var m' := m[p.At(num) + 4 * w := word];
      p.OthersKept(m, m', num) &&
      ReadWords(m', p.At(num), |p.table|) == ReadWords(m, p.At(num), |p.table|)[w := word]
  {
    hide BdAddr;
  }

  /** A masked write of one field is the same as rewriting the descriptor with that field
      changed. */
  lemma MaskedWriteHolds(p: Props, m: RegFile, num: nat, k: Key, v: nat, d: Desc)
    requires p.Sound() && p.Single(k) && p.HoldsAt(m, num, d)
    ensures var at, f := p.Register(num, k), p.lay(k).f;
      p.HoldsAt(m[at := MergeBits(ReadReg(m, at), f.mask, SetField(ToWord(v % U32), f))], num, d[k := v])
  {
    var w := p.lay(k).idx;
    var i: nat :| OnlyPlace(p.table, w, i, k);
    TableUpdate(d, k, v, p.lay, p.table, w, i);
    var at := p.Register(num, k);
    assert ReadReg(m, at) == ReadWords(m, p.At(num), |p.table|)[w];
    OneRegister(p, m, num, w, MergeBits(ReadReg(m, at), p.lay(k).f.mask, SetField(ToWord(v % U32), p.lay(k).f)));
  }

  lemma WholeWriteHolds(p: Props, m: RegFile, num: nat, k: Key, v: nat, d: Desc)
    requires p.Sound() && p.Alone(k) && p.HoldsAt(m, num, d)
    ensures p.HoldsAt(m[p.Register(num, k) := SetField(ToWord(v % U32), p.lay(k).f)], num, d[k := v])
  {
    AloneUpdate(d, k, v, p.lay, p.table, p.lay(k).idx);
    OneRegister(p, m, num, p.lay(k).idx, SetField(ToWord(v % U32), p.lay(k).f));
  }

  lemma MergedField(was: Word32, f: Field, x: Word32)
    ensures GetField(MergeBits(was, f.mask, SetField(x, f)), f) == GetField(SetField(x, f), f)
  {
  }

  lemma MaskedSame(was: Word32, f: Field, x: Word32, y: Word32)
    ensures MergeBits(was, f.mask, SetField(x, f)) == MergeBits(was, f.mask, SetField(y, f)) <==>
      SetField(x, f) == SetField(y, f)
  {
  }

  /** The AIE interface tile's address update is the intended one exactly if the low half of
      the address and its high half agree in the bits that the high part has. */
  lemma AieShimUpdateRightIff(p: Props, d: Desc, address: nat, width: nat)
    requires p.Sound() && p.Single(AddrHigh) && Contiguous(p.lay(AddrHigh).f, width)
    ensures PackAll(d[AddrLow := address][AddrHigh := address], p.lay, p.table)
         == PackAll(d[AddrLow := address][AddrHigh := address / U32], p.lay, p.table)
       <==> address % U32 % Pow2(width) == address / U32 % U32 % Pow2(width)
  {
    var h, f, w := d[AddrLow := address], p.lay(AddrHigh).f, p.lay(AddrHigh).idx;
    var i: nat :| OnlyPlace(p.table, w, i, AddrHigh);
    TableUpdate(h, AddrHigh, address, p.lay, p.table, w, i);
    TableUpdate(h, AddrHigh, address / U32, p.lay, p.table, w, i);
    var x, y := ToWord(address % U32), ToWord(address / U32 % U32);
    var all, word := PackAll(h, p.lay, p.table), PackWord(h, p.lay, p.table[w]);
    assert all[w := MergeBits(word, f.mask, SetField(x, f))][w] == MergeBits(word, f.mask, SetField(x, f));
    assert all[w := MergeBits(word, f.mask, SetField(y, f))][w] == MergeBits(word, f.mask, SetField(y, f));
    MaskedSame(word, f, x, y);
    UnshiftedIff(address, f, width);
  }

  /** What a field of a written descriptor reads as. */
  lemma HeldField(p: Props, m: RegFile, num: nat, k: Key, width: nat, d: Desc)
    requires p.Sound() && p.Single(k) && p.HoldsAt(m, num, d) && Contiguous(p.lay(k).f, width)
    ensures Value(GetField(ReadReg(m, p.Register(num, k)), p.lay(k).f)) == Raw(d, k) % Pow2(width)
  {
    var w := p.lay(k).idx;
    var i: nat :| OnlyPlace(p.table, w, i, k);
    assert ReadReg(m, p.Register(num, k)) == ReadWords(m, p.At(num), |p.table|)[w];
    PackGet(d, p.lay, p.table[w], i);
    FieldHolds(Raw(d, k), p.lay(k).f, width);
  }

  /** What an entry of a written descriptor reads as. */
  lemma HeldEntry(p: Props, m: RegFile, num: nat, w: nat, i: nat, width: nat, d: Desc)
    requires p.Sound() && p.HoldsAt(m, num, d) && w < |p.table| && i < |p.table[w]|
    requires Contiguous(p.lay(p.table[w][i].field).f, width)
    ensures var e := p.table[w][i];
      Value(GetField(ReadReg(m, p.At(num) + 4 * w), p.lay(e.field).f)) ==
        (if !e.minusOne then Raw(d, e.key) else if Raw(d, e.key) == 0 then U32 - 1 else Raw(d, e.key) - 1) % Pow2(width)
  {
    var e := p.table[w][i];
    assert ReadReg(m, p.At(num) + 4 * w) == ReadWords(m, p.At(num), |p.table|)[w];
    PackGet(d, p.lay, p.table[w], i);
    FieldHolds(if e.minusOne then Before(Raw(d, e.key)) else Raw(d, e.key), p.lay(e.field).f, width);
  }

  // ---------------------------------------------------------------- addresses

  /** An aligned address loses nothing in the shift. */
  lemma AlignedShr(address: nat, align: nat, shift: nat)
    requires align > 0 && align % Pow2(shift) == 0 && address % align == 0
    ensures Shr(address, shift) * Pow2(shift) == address
  {
    ShrIs(address, shift);
    MultipleOf(address, align, Pow2(shift));
  }

  lemma MultipleOf(x: nat, a: nat, s: nat)
    requires a > 0 && s > 0 && a % s == 0 && x % a == 0
    ensures x / s * s == x
  {
    var q, b := x / a, a / s;
    assert x == q * a && a == b * s;
    Associate(q, b, s);
    DivideIs(x, s, q * b, 0);
  }

  /** What an address field makes of a shifted address. */
  lemma AddressKeptIff(value: nat, address: nat, shift: nat, width: nat)
    requires width <= 32 && value == Shr(address, shift) % U32 % Pow2(width)
    requires Shr(address, shift) * Pow2(shift) == address
    ensures value * Pow2(shift) == address <==> address / Pow2(shift) < Pow2(width)
  {
    var x, s := Shr(address, shift), Pow2(shift);
    ShrIs(address, shift);
    Pow2Of32();
    Pow2Adds(32 - width, width);
    LowBitsAgree(x, Pow2(width), Pow2(32 - width));
    ModIff(x, Pow2(width));
    if value < x {
      Product(x, value, s);
    }
  }

  /** An address that was set is in the register exactly if the field is wide enough for it. */
  lemma AddressHeldIff(p: Props, m: RegFile, num: nat, d: Desc, address: nat, width: nat)
    requires p.Sound() && p.Single(Address) && p.HoldsAt(m, num, d) && Contiguous(p.lay(Address).f, width)
    requires Address in d && d[Address] == Shr(address, p.alignShift)
    requires p.align > 0 && p.align % Pow2(p.alignShift) == 0 && address % p.align == 0
    ensures p.HoldsAddress(m, num, address) <==> address / Pow2(p.alignShift) < Pow2(width)
  {
    hide p.Sound, p.Single, p.HoldsAt, Shr, Pow2, GetField, Value;
    HeldField(p, m, num, Address, width, d);
    AlignedShr(address, p.align, p.alignShift);
    AddressKeptIff(Raw(d, Address) % Pow2(width), address, p.alignShift, width);
  }

  datatype Outcome = Done(d: Desc) | Refused

  /** The check on address and length, with its 64-bit sum. */
  predicate Accepted(p: Props, address: nat, len: nat)
    requires p.align > 0
  {
    address % p.align == 0 && (address + len) % (U32 * U32) <= p.addrMax
  }

  /** A descriptor with the address and length set; the length is counted in words. */
  function SetAddrLen(p: Props, d: Desc, address: nat, len: nat): (r: Outcome)
    requires p.align > 0
    ensures r.Done? <==> Accepted(p, address, len)
    ensures r.Done? ==> r.d.Keys == d.Keys + {Address, Length}
    ensures r.Done? ==> forall k | k in d && k != Address && k != Length :: r.d[k] == d[k]
  {
    if !Accepted(p, address, len) then Refused
    else Done(d[Address := Shr(address, p.alignShift)][Length := LenWord(len, p.lenOffset)])
  }

  /** Exactly the aligned addresses are accepted whose bytes all lie below the limit. */
  lemma AcceptedIff(p: Props, address: nat, len: nat)
    requires p.align > 0 && address + len < U32 * U32
    ensures Accepted(p, address, len) <==>
      && (exists q: nat :: address == q * p.align)
      && address <= p.addrMax && forall b | address <= b < address + len :: Below(p, b)
  {
    var q := address / p.align;
    DivideIs(address + len, U32 * U32, 0, address + len);
    if address % p.align == 0 {
      assert address == q * p.align;
    }
    if q: nat :| address == q * p.align {
      DivideIs(address, p.align, q, 0);
    }
    if len > 0 && address + len > p.addrMax {
      assert !Below(p, address + len - 1);
    }
  }

  predicate Below(p: Props, b: int) {
    b < p.addrMax
  }

  /** The address set, shifted back, is the address given. */
  lemma AddressSet(p: Props, d: Desc, address: nat, len: nat)
    requires p.align > 0 && p.align % Pow2(p.alignShift) == 0 && SetAddrLen(p, d, address, len).Done?
    ensures SetAddrLen(p, d, address, len).d[Address] * Pow2(p.alignShift) == address
  {
    AlignedShr(address, p.align, p.alignShift);
  }

  lemma LengthStored(p: Props, d: Desc, address: nat, len: nat, width: nat)
    requires p.align > 0 && SetAddrLen(p, d, address, len).Done? && len < U32
    requires (p.lenOffset == 0 && width <= 32) || (p.lenOffset == 1 && width < 30)
    ensures var got := p.StoredLen(SetAddrLen(p, d, address, len).d, width);
      (Raw(d, ValidBd) == 1 ==> LenKept(got, len, p.lenOffset, width)) && (Raw(d, ValidBd) == 0 ==> got == 0)
  {
    var r := SetAddrLen(p, d, address, len).d;
    assert Raw(r, Length) == LenWord(len, p.lenOffset);
    assert Raw(r, ValidBd) == Raw(d, ValidBd);
    LengthBackIff(len, width, p.lenOffset);
  }

  /** The documented rules for padding in a memory tile: a dimension that does not wrap has no
      padding behind it, and the dimensions above it have none at all. */
  predicate PaddingRules(d: Desc) {
    && (Raw(d, Wrap(0)) == 0 ==>
          Raw(d, PadAfter(0)) == 0 && Raw(d, PadBefore(1)) == 0 && Raw(d, PadAfter(1)) == 0
          && Raw(d, PadBefore(2)) == 0 && Raw(d, PadAfter(2)) == 0)
    && (Raw(d, Wrap(1)) == 0 ==>
          Raw(d, PadAfter(1)) == 0 && Raw(d, PadBefore(2)) == 0 && Raw(d, PadAfter(2)) == 0)
    && (Raw(d, Wrap(2)) == 0 ==> Raw(d, PadAfter(2)) == 0)
  }

  predicate Padded(d: Desc, dim: nat) {
    Raw(d, PadAfter(dim)) != 0 || Raw(d, PadBefore(dim)) != 0
  }

  predicate DimOk(d: Desc, dim: nat) {
    Raw(d, Wrap(dim)) == 0 ==> Raw(d, PadAfter(dim)) == 0 && forall k | dim < k < 3 :: !Padded(d, k)
  }

  lemma RulesByDim(d: Desc)
    ensures PaddingRules(d) <==> DimOk(d, 0) && DimOk(d, 1) && DimOk(d, 2)
  {
    if DimOk(d, 0) && Raw(d, Wrap(0)) == 0 {
      assert !Padded(d, 1) && !Padded(d, 2);
    }
    if DimOk(d, 1) && Raw(d, Wrap(1)) == 0 {
      assert !Padded(d, 2);
    }
  }

  /** The first dimension that breaks the rules. */
  predicate FirstBad(d: Desc, dim: nat) {
    !DimOk(d, dim) && forall k | 0 <= k < dim :: DimOk(d, k)
  }

  /** Accepts exactly the descriptors that follow the rules. The first dimension that does not
      decides on the error: padding behind it, or padding in a dimension above it. */
  method CheckPaddingConfig(d: Desc) returns (rc: RC)
    ensures rc == Ok || rc == InvalidDmaDesc || rc == Err
    ensures rc == Ok <==> PaddingRules(d)
    ensures rc == InvalidDmaDesc <==> exists dim: nat :: dim < 3 && FirstBad(d, dim) && Raw(d, PadAfter(dim)) != 0
  {
    RulesByDim(d);
    for dim := 0 to 3
      invariant forall k | 0 <= k < dim :: DimOk(d, k)
    {
      if Raw(d, Wrap(dim)) == 0 {
        if Raw(d, PadAfter(dim)) != 0 {
          assert FirstBad(d, dim);
          return InvalidDmaDesc;
        }
        for padDim := dim + 1 to 3
          invariant forall k | dim < k < padDim :: !Padded(d, k)
        {
          if Padded(d, padDim) {
            assert FirstBad(d, dim);
            return Err;
          }
        }
      }
      assert DimOk(d, dim);
    }
    assert DimOk(d, 0) && DimOk(d, 1) && DimOk(d, 2);
    rc := Ok;
  }

  /** The DMA registers of a tile. */
  class Dma {
    const p: Props
    var regs: RegFile

    constructor (p: Props, regs: RegFile)
      ensures this.p == p && this.regs == regs
    {
      this.p, this.regs := p, regs;
    }

    /** Writes hardware descriptor `num`. */
    method WriteBd(d: Desc, num: nat) returns (rc: RC)
      requires p.Sound()
      modifies this
      ensures rc == (if num > p.numBds then InvalidBdNum else Ok)
      ensures rc == Ok ==> p.HoldsAt(regs, num, d) && p.OthersKept(old(regs), regs, num)
      ensures rc != Ok ==> regs == old(regs)
    {
      if num > p.numBds {
        return InvalidBdNum;
      }
      var bdWord := PackAll(d, p.lay, p.table);
      var addr := p.At(num);
      for i := 0 to |bdWord|
        invariant regs == WriteWords(old(regs), addr, bdWord[..i])
      {
        assert bdWord[..i + 1][..i] == bdWord[..i];
        regs := regs[addr + 4 * i := bdWord[i]];
      }
      assert bdWord[..|bdWord|] == bdWord;
      StoreHolds(old(regs), addr, d, p.lay, p.table);
      BlockKeepsOthers(p, old(regs), num, bdWord);
      rc := Ok;
    }

    /** In a memory tile a descriptor with invalid padding is not written. */
    method MemTileWriteBd(d: Desc, num: nat) returns (rc: RC)
      requires p.Sound()
      modifies this
      ensures rc == InvalidBdNum <==> num > p.numBds
      ensures rc == Ok <==> num <= p.numBds && PaddingRules(d)
      ensures rc == InvalidDmaDesc <==>
        num <= p.numBds && exists dim: nat :: dim < 3 && FirstBad(d, dim) && Raw(d, PadAfter(dim)) != 0
      ensures rc == Ok ==> p.HoldsAt(regs, num, d) && p.OthersKept(old(regs), regs, num)
      ensures rc != Ok ==> regs == old(regs)
    {
      if num > p.numBds {
        return InvalidBdNum;
      }
      rc := CheckPaddingConfig(d);
      if rc == Ok {
        rc := WriteBd(d, num);
      }
    }

    /** Reads hardware descriptor `num` into a cleared software descriptor. */
    method ReadBd(num: nat) returns (rc: RC, d: Desc)
      ensures rc == (if num > p.numBds then InvalidBdNum else Ok)
      ensures rc == Ok ==> d == UnpackAll(ReadWords(regs, p.At(num), |p.readTable|), p.lay, p.readTable, map[])
    {
      hide EntryValue, BdAddr, ReadReg;
      d := map[];
      if num > p.numBds {
        return InvalidBdNum, d;
      }
      var addr := p.At(num);
      var bdWord: seq<Word32> := [];
      for i := 0 to |p.readTable|
        invariant addr == p.At(num) + 4 * i
        invariant bdWord == ReadWords(regs, p.At(num), i)
      {
        bdWord := bdWord + [ReadReg(regs, addr)];
        addr := addr + 4;
      }
      for w := 0 to |p.readTable|
        invariant d == UnpackAll(bdWord[..w], p.lay, p.readTable[..w], map[])
      {
        ghost var d1 := d;
        for i := 0 to |p.readTable[w]|
          invariant d == UnpackWord(bdWord[w], p.lay, p.readTable[w][..i], d1)
        {
          assert p.readTable[w][..i + 1][..i] == p.readTable[w][..i];
          d := d[p.readTable[w][i].key := EntryValue(bdWord[w], p.lay, p.readTable[w][i])];
        }
        assert p.readTable[w][..|p.readTable[w]|] == p.readTable[w];
        assert p.readTable[..w + 1][..w] == p.readTable[..w] && bdWord[..w + 1][..w] == bdWord[..w];
      }
      assert p.readTable[..|p.readTable|] == p.readTable && bdWord[..|p.readTable|] == bdWord;
      rc := Ok;
    }

    /** Reading a written descriptor gives back every field the hardware descriptor has a
        place for, and zeroes for the others. */
    method WriteThenRead(d: Desc, num: nat) returns (rc: RC, r: Desc)
      requires p.Sound() && p.Agreeing() && AllFit(d, p.lay, p.table)
      modifies this
      ensures num <= p.numBds ==> rc == Ok
      ensures rc == Ok ==> p.Reads(r, d)
    {
      r := map[];
      rc := WriteBd(d, num);
      if rc == Ok {
        rc, r := ReadBd(num);
        HeldRead(p, regs, num, d);
      }
    }

    /** Writing the descriptor of an interface tile, whose address has two parts. */
    method ShimWriteBd(d: Desc, num: nat) returns (rc: RC)
      requires p.Sound() && Address in d
      modifies this
      ensures rc == (if num > p.numBds then InvalidBdNum else Ok)
      ensures rc == Ok ==> p.HoldsAt(regs, num, WithAddress(d, d[Address], p.lay(AddrLow).f.lsb))
      ensures rc == Ok ==> p.OthersKept(old(regs), regs, num)
      ensures rc != Ok ==> regs == old(regs)
    {
      rc := WriteBd(WithAddress(d, d[Address], p.lay(AddrLow).f.lsb), num);
    }

    method ShimReadBd(num: nat) returns (rc: RC, d: Desc)
      ensures rc == (if num > p.numBds then InvalidBdNum else Ok)
      ensures rc == Ok ==>
        var r := UnpackAll(ReadWords(regs, p.At(num), |p.readTable|), p.lay, p.readTable, map[]);
        d == r[Address := JoinAddress(r, p.lay(AddrLow).f.lsb)]
    {
      rc, d := ReadBd(num);
      if rc == Ok {
        d := d[Address := JoinAddress(d, p.lay(AddrLow).f.lsb)];
      }
    }

    /** An interface tile's descriptor comes back too, with its address exactly if the low bits
        that the hardware does not store are zero. */
    method ShimWriteThenRead(d: Desc, num: nat) returns (rc: RC, r: Desc)
      requires p.Sound() && p.Alone(AddrLow) && p.Single(AddrHigh) && Address in d && d[Address] < U32 * U32
      requires p.Agreeing() && p.lay(AddrLow).f.lsb <= 32
      requires AllFit(Halves(d, d[Address], p.lay(AddrLow).f.lsb), p.lay, p.table)
      modifies this
      ensures num <= p.numBds ==> rc == Ok
      ensures rc == Ok ==> p.ReadsShim(r, d)
    {
      r := map[];
      rc := ShimWriteBd(d, num);
      if rc == Ok {
        rc, r := ShimReadBd(num);
        ShimHeldRead(p, regs, num, d);
      }
    }

    /** The new length reaches the register as if the whole descriptor had been rewritten
        with that length only changed. */
    method UpdateBdLen(num: nat, len: nat) returns (rc: RC)
      requires p.Sound() && p.Single(Length)
      modifies this
      ensures rc == (if num > p.numBds then InvalidBdNum else Ok)
      ensures rc == Ok ==> forall d | p.HoldsAt(old(regs), num, d) ::
        p.HoldsAt(regs, num, d[Length := LenWord(len, p.lenOffset)])
      ensures rc == Ok ==> p.OthersKept(old(regs), regs, num) && p.OnlyField(old(regs), regs, num, Length)
      ensures rc != Ok ==> regs == old(regs)
    {
      if num > p.numBds {
        return InvalidBdNum;
      }
      MaskField(num, Length, LenWord(len, p.lenOffset));
      rc := Ok;
    }

    /** Likewise for the address of a tile's descriptor. */
    method UpdateBdAddr(num: nat, address: nat) returns (rc: RC)
      requires p.Sound() && p.Single(Address) && p.align > 0
      modifies this
      ensures rc == (if num > p.numBds then InvalidBdNum
                     else if address % p.align != 0 || address > p.addrMax then InvalidAddress else Ok)
      ensures rc == Ok ==> forall d | p.HoldsAt(old(regs), num, d) ::
        p.HoldsAt(regs, num, d[Address := Shr(address, p.alignShift)])
      ensures rc == Ok ==> p.OthersKept(old(regs), regs, num) && p.OnlyField(old(regs), regs, num, Address)
      ensures rc == Ok && p.align % Pow2(p.alignShift) == 0 ==> forall width | Contiguous(p.lay(Address).f, width) ::
        p.HoldsAddress(regs, num, address) <==> address / Pow2(p.alignShift) < Pow2(width)
      ensures rc != Ok ==> regs == old(regs)
    {
      if num > p.numBds {
        return InvalidBdNum;
      }
      if address % p.align != 0 || address > p.addrMax {
        return InvalidAddress;
      }
      MaskField(num, Address, Shr(address, p.alignShift));
      if p.align % Pow2(p.alignShift) == 0 {
        forall width: nat | Contiguous(p.lay(Address).f, width)
          ensures p.HoldsAddress(regs, num, address) <==> address / Pow2(p.alignShift) < Pow2(width)
        {
          FieldHolds(Shr(address, p.alignShift) % U32, p.lay(Address).f, width);
          AlignedShr(address, p.align, p.alignShift);
          AddressKeptIff(Shr(address, p.alignShift) % U32 % Pow2(width), address, p.alignShift, width);
        }
      }
      rc := Ok;
    }

    method MaskField(num: nat, k: Key, v: nat)
      requires p.Sound() && p.Single(k)
      modifies this
      ensures forall d | p.HoldsAt(old(regs), num, d) :: p.HoldsAt(regs, num, d[k := v])
      ensures p.OthersKept(old(regs), regs, num) && p.OnlyField(old(regs), regs, num, k)
      ensures var f := p.lay(k).f;
        GetField(ReadReg(regs, p.Register(num, k)), f) == GetField(SetField(ToWord(v % U32), f), f)
    {
      var regAddr := p.Register(num, k);
      var mask := p.lay(k).f.mask;
      var regVal := SetField(ToWord(v % U32), p.lay(k).f);
      regs := regs[regAddr := MergeBits(ReadReg(regs, regAddr), mask, regVal)];
      MergedField(ReadReg(old(regs), regAddr), p.lay(k).f, ToWord(v % U32));
      OneRegister(p, old(regs), num, p.lay(k).idx, MergeBits(ReadReg(old(regs), regAddr), mask, regVal));
      forall d | p.HoldsAt(old(regs), num, d)
        ensures p.HoldsAt(regs, num, d[k := v])
      {
        MaskedWriteHolds(p, old(regs), num, k, v, d);
      }
    }

    method WriteField(num: nat, k: Key, v: nat)
      requires p.Sound() && p.Alone(k)
      modifies this
      ensures forall d | p.HoldsAt(old(regs), num, d) :: p.HoldsAt(regs, num, d[k := v])
      ensures p.OthersKept(old(regs), regs, num)
    {
      var regVal := SetField(ToWord(v % U32), p.lay(k).f);
      regs := regs[p.Register(num, k) := regVal];
      OneRegister(p, old(regs), num, p.lay(k).idx, regVal);
      forall d | p.HoldsAt(old(regs), num, d)
        ensures p.HoldsAt(regs, num, d[k := v])
      {
        WholeWriteHolds(p, old(regs), num, k, v, d);
      }
    }

    /** An interface tile's length has a register of its own, which is written as a whole. */
    method ShimUpdateBdLen(num: nat, len: nat) returns (rc: RC)
      requires p.Sound() && p.Alone(Length)
      modifies this
      ensures rc == (if num > p.numBds then InvalidBdNum else Ok)
      ensures rc == Ok ==> forall d | p.HoldsAt(old(regs), num, d) ::
        p.HoldsAt(regs, num, d[Length := LenWord(len, p.lenOffset)])
      ensures rc == Ok ==> p.OthersKept(old(regs), regs, num)
      ensures rc != Ok ==> regs == old(regs)
    {
      if num > p.numBds {
        return InvalidBdNum;
      }
      WriteField(num, Length, LenWord(len, p.lenOffset));
      rc := Ok;
    }

    /** The address update of the AIE-ML interface tile rewrites both parts of the address. */
    method ShimUpdateBdAddr(num: nat, address: nat) returns (rc: RC)
      requires p.Sound() && p.Alone(AddrLow) && p.Single(AddrHigh) && p.align > 0
      modifies this
      ensures rc == (if num > p.numBds then InvalidBdNum
                     else if address % p.align != 0 || address > p.addrMax then InvalidAddress else Ok)
      ensures rc == Ok ==> forall d | p.HoldsAt(old(regs), num, d) ::
        p.HoldsAt(regs, num, WithAddress(d, Shr(address, p.alignShift), p.lay(AddrLow).f.lsb))
      ensures rc == Ok ==> p.OthersKept(old(regs), regs, num)
      ensures rc != Ok ==> regs == old(regs)
    {
      if num > p.numBds {
        return InvalidBdNum;
      }
      if address % p.align != 0 || address > p.addrMax {
        return InvalidAddress;
      }
      var a := Shr(address, p.alignShift);
      WriteField(num, AddrLow, Shr(a, p.lay(AddrLow).f.lsb) % U32);
      label low:
      MaskField(num, AddrHigh, a / U32);
      assert p.OthersKept(old(regs), old@low(regs), num);
      assert p.OthersKept(old@low(regs), regs, num);
      rc := Ok;
    }

    /** The one of the AIE interface tile puts the low half of the address in both places. */
    method AieShimUpdateBdAddr(num: nat, address: nat) returns (rc: RC)
      requires p.Sound() && p.Alone(AddrLow) && p.Single(AddrHigh) && p.align > 0
      modifies this
      ensures rc == (if num > p.numBds then InvalidBdNum
                     else if address % p.align != 0 || address > p.addrMax then InvalidAddress else Ok)
      ensures rc == Ok ==> forall d | p.HoldsAt(old(regs), num, d) ::
        p.HoldsAt(regs, num, d[AddrLow := Shr(address, p.alignShift)][AddrHigh := Shr(address, p.alignShift)])
      ensures rc == Ok ==> p.OthersKept(old(regs), regs, num)
      ensures rc != Ok ==> regs == old(regs)
    {
      if num > p.numBds {
        return InvalidBdNum;
      }
      if address % p.align != 0 || address > p.addrMax {
        return InvalidAddress;
      }
      var a := Shr(address, p.alignShift);
      WriteField(num, AddrLow, a);
      label low:
      MaskField(num, AddrHigh, a);
      assert p.OthersKept(old(regs), old@low(regs), num);
      assert p.OthersKept(old@low(regs), regs, num);
      rc := Ok;
    }

    /** The length in bytes of a valid hardware descriptor, and 0 for others. */
    method GetBdLen(num: nat, ghost width: nat) returns (rc: RC, len: nat)
      requires p.Sound() && p.Single(Length) && p.Single(ValidBd)
      requires Contiguous(p.lay(Length).f, width) && Contiguous(p.lay(ValidBd).f, 1)
      ensures rc == (if num > p.numBds then InvalidBdNum else Ok)
      ensures rc == Ok ==> forall d | p.HoldsAt(regs, num, d) ::
        len == p.StoredLen(d, width)
    {
      len := 0;
      if num > p.numBds {
        return InvalidBdNum, len;
      }
      var valid := Value(GetField(ReadReg(regs, p.Register(num, ValidBd)), p.lay(ValidBd).f));
      if valid == 1 {
        len := LenBytes(Value(GetField(ReadReg(regs, p.Register(num, Length)), p.lay(Length).f)), p.lenOffset);
      }
      forall d | p.HoldsAt(regs, num, d)
        ensures len == p.StoredLen(d, width)
      {
        HeldField(p, regs, num, ValidBd, 1, d);
        HeldField(p, regs, num, Length, width, d);
        assert Pow2(1) == 2;
      }
      rc := Ok;
    }

    /** The length set in a valid descriptor comes back from the hardware, rounded down to
        whole words, exactly if it is neither below the offset nor too long for the field. */
    method SetWriteGetLen(d: Desc, address: nat, len: nat, num: nat, ghost width: nat) returns (rc: RC, got: nat)
      requires p.Sound() && p.Single(Length) && p.Single(ValidBd) && p.align > 0 && len < U32
      requires Contiguous(p.lay(Length).f, width) && Contiguous(p.lay(ValidBd).f, 1)
      requires (p.lenOffset == 0 && width <= 32) || (p.lenOffset == 1 && width < 30)
      modifies this
      ensures rc == Ok <==> Accepted(p, address, len) && num <= p.numBds
      ensures rc == Ok && Raw(d, ValidBd) == 1 ==>
        LenKept(got, len, p.lenOffset, width)
      ensures rc == Ok && Raw(d, ValidBd) == 0 ==> got == 0
      ensures rc == Ok && p.Single(Address) && p.align % Pow2(p.alignShift) == 0 ==>
        forall w | Contiguous(p.lay(Address).f, w) ::
          p.HoldsAddress(regs, num, address) <==> address / Pow2(p.alignShift) < Pow2(w)
    {
      got := 0;
      var filled := SetAddrLen(p, d, address, len);
      if filled.Refused? {
        return InvalidAddress, got;
      }
      rc := WriteBd(filled.d, num);
      if rc == Ok {
        rc, got := GetBdLen(num, width);
        LengthStored(p, d, address, len, width);
        if p.Single(Address) && p.align % Pow2(p.alignShift) == 0 {
          forall w: nat | Contiguous(p.lay(Address).f, w)
            ensures p.HoldsAddress(regs, num, address) <==> address / Pow2(p.alignShift) < Pow2(w)
          {
            AddressHeldIff(p, regs, num, filled.d, address, w);
          }
        }
      }
    }
  }
}
