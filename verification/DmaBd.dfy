/** DMA buffer descriptors: packing a software descriptor into the registers of a hardware
    descriptor, reading it back, and updating single fields in place. */
module DmaBd {
  import opened Arithmetic
  import opened BdFields

  /** The fields of software descriptors. */
  datatype Key =
    | EnPkt | PktType | PktId | OutofOrderBdId | Length | NxtBd | UseNxtBd | ValidBd
    | Address | AddrLow | AddrHigh | TlastSuppress | EnCompression
    | PadBefore(dim: nat) | PadAfter(dim: nat) | Wrap(dim: nat) | StepSize(dim: nat)
    | IterCurr | IterWrap | IterStepSize
    | LockRelVal | LockRelId | LockAcqId | LockAcqVal | LockAcqEn | LockRelEn | LockRelValEn | LockAcqValEn
    | Lock2AcqId | Lock2RelEn | Lock2RelVal | Lock2RelValEn | Lock2AcqEn | Lock2AcqVal | Lock2AcqValEn | Address2
    | SecureAccess | BurstLen | SMID | AxQos | AxCache
    | XIncr | XWrap | XOffset | YIncr | YWrap | YOffset
    | BuffSelect | CurrPtr | EnDoubleBuff | FifoMode | EnInterleaved | IntrleaveCount

  /** A software descriptor: its fields as 32-bit values. */
  type Desc = map<Key, nat>

  function Raw(d: Desc, k: Key): (x: nat)
    ensures x < U32
  {
    if k in d then d[k] % U32 else 0
  }

  /** One field written to a word: the descriptor's field, the register's field it goes to,
      and whether it is stored minus one. */
  datatype Entry = Entry(key: Key, field: Key, minusOne: bool)

  function Same(k: Key): Entry {
    Entry(k, k, false)
  }

  function Less(k: Key): Entry {
    Entry(k, k, true)
  }

  /** The words of a descriptor, field by field. */
  type Table = seq<seq<Entry>>

  const AIEML_MEM_TILE: Table := [
    [Same(EnPkt), Same(PktType), Same(PktId), Same(OutofOrderBdId), Same(Length)],
    [Same(PadBefore(0)), Same(NxtBd), Same(UseNxtBd), Same(Address)],
    [Same(Wrap(0)), Less(StepSize(0)), Same(TlastSuppress)],
    [Same(PadBefore(1)), Same(Wrap(1)), Less(StepSize(1))],
    [Same(PadBefore(2)), Same(Wrap(2)), Less(StepSize(2)), Same(EnCompression)],
    [Same(PadAfter(2)), Same(PadAfter(1)), Same(PadAfter(0)), Less(StepSize(3))],
    [Same(IterCurr), Less(IterWrap), Less(IterStepSize)],
    [Same(ValidBd), Same(LockRelVal), Same(LockRelId), Same(LockAcqId), Same(LockAcqVal), Same(LockAcqEn)]
  ]

  const AIEML_TILE: Table := [
    [Same(Address), Same(Length)],
    [Same(EnCompression), Same(EnPkt), Same(PktType), Same(PktId), Same(OutofOrderBdId)],
    [Less(StepSize(1)), Less(StepSize(0))],
    [Same(Wrap(1)), Same(Wrap(0)), Less(StepSize(2))],
    [Same(IterCurr), Less(IterWrap), Less(IterStepSize)],
    [Same(ValidBd), Same(LockRelVal), Same(LockRelId), Same(LockAcqId), Same(LockAcqVal), Same(LockAcqEn),
     Same(UseNxtBd), Same(NxtBd), Same(TlastSuppress)]
  ]

  const AIEML_SHIM: Table := [
    [Same(Length)],
    [Same(AddrLow)],
    [Same(AddrHigh), Same(EnPkt), Same(PktType), Same(PktId), Same(OutofOrderBdId)],
    [Same(Wrap(0)), Less(StepSize(0)), Same(SecureAccess)],
    [Same(Wrap(1)), Less(StepSize(1)), Same(BurstLen)],
    [Same(SMID), Same(AxQos), Same(AxCache), Less(StepSize(2))],
    [Same(IterCurr), Less(IterWrap), Less(IterStepSize)],
    [Same(ValidBd), Same(LockRelVal), Same(LockRelId), Same(LockAcqId), Same(LockAcqVal), Same(LockAcqEn),
     Same(UseNxtBd), Same(NxtBd), Same(TlastSuppress)]
  ]

  /** The Y wrap register is filled from the X wrap of the descriptor. */
  const AIE_TILE: Table := [
    [Same(LockAcqId), Same(LockRelEn), Same(LockRelVal), Same(LockRelValEn), Same(LockAcqEn), Same(LockAcqVal),
     Same(LockAcqValEn), Same(Address)],
    [Same(Lock2AcqId), Same(Lock2RelEn), Same(Lock2RelVal), Same(Lock2RelValEn), Same(Lock2AcqEn), Same(Lock2AcqVal),
     Same(Lock2AcqValEn), Same(Address2)],
    [Same(XIncr), Same(XWrap), Same(XOffset)],
    [Same(YIncr), Entry(XWrap, YWrap, false), Same(YOffset)],
    [Same(PktId), Same(PktType)],
    [Same(BuffSelect), Same(CurrPtr)],
    [Same(ValidBd), Same(UseNxtBd), Same(EnDoubleBuff), Same(FifoMode), Same(EnPkt), Same(EnInterleaved),
     Less(IntrleaveCount), Same(NxtBd), Same(Length)]
  ]

  const AIE_SHIM: Table := [
    [Same(AddrLow)],
    [Same(Length)],
    [Same(AddrHigh), Same(UseNxtBd), Same(NxtBd), Same(LockAcqId), Same(LockRelEn), Same(LockRelVal),
     Same(LockRelValEn), Same(LockAcqEn), Same(LockAcqVal), Same(LockAcqValEn), Same(ValidBd)],
    [Same(SMID), Same(BurstLen), Same(AxQos), Same(SecureAccess), Same(AxCache)],
    [Same(PktId), Same(PktType), Same(EnPkt)]
  ]

  // What the reading routines take out of the words, in their order.

  const AIEML_MEM_TILE_READ: Table := [
    [Same(EnPkt), Same(PktType), Same(PktId), Same(OutofOrderBdId), Same(Length)],
    [Same(PadBefore(0)), Same(NxtBd), Same(UseNxtBd), Same(Address)],
    [Same(TlastSuppress), Same(Wrap(0)), Less(StepSize(0))],
    [Same(PadBefore(1)), Same(Wrap(1)), Less(StepSize(1))],
    [Same(PadBefore(2)), Same(Wrap(2)), Less(StepSize(2)), Same(EnCompression)],
    [Same(PadAfter(2)), Same(PadAfter(1)), Same(PadAfter(0)), Less(StepSize(3))],
    [Same(IterCurr), Less(IterWrap), Less(IterStepSize)],
    [Same(ValidBd), Same(LockRelVal), Same(LockRelId), Same(LockAcqId), Same(LockAcqVal), Same(LockAcqEn)]
  ]

  const AIEML_TILE_READ: Table := [
    [Same(Address), Same(Length)],
    [Same(EnCompression), Same(EnPkt), Same(PktType), Same(PktId), Same(OutofOrderBdId)],
    [Less(StepSize(0)), Less(StepSize(1))],
    [Same(Wrap(1)), Same(Wrap(0)), Less(StepSize(2))],
    [Same(IterCurr), Less(IterWrap), Less(IterStepSize)],
    [Same(ValidBd), Same(LockRelVal), Same(LockRelId), Same(LockAcqId), Same(LockAcqVal), Same(LockAcqEn),
     Same(UseNxtBd), Same(NxtBd), Same(TlastSuppress)]
  ]

  const AIEML_SHIM_READ: Table := [
    [Same(Length)],
    [Same(AddrLow)],
    [Same(AddrHigh), Same(EnPkt), Same(PktType), Same(PktId), Same(OutofOrderBdId)],
    [Same(Wrap(0)), Less(StepSize(0)), Same(SecureAccess)],
    [Same(Wrap(1)), Less(StepSize(1)), Same(BurstLen)],
    [Same(SMID), Same(AxQos), Same(AxCache), Less(StepSize(2))],
    [Same(IterCurr), Less(IterWrap), Less(IterStepSize)],
    [Same(ValidBd), Same(LockRelVal), Same(LockRelId), Same(LockAcqId), Same(LockAcqVal), Same(LockAcqEn),
     Same(UseNxtBd), Same(NxtBd), Same(TlastSuppress)]
  ]

  /** The X wrap is read twice; the second time from the Y wrap register. */
  const AIE_TILE_READ: Table := [
    [Same(LockAcqId), Same(LockRelEn), Same(LockRelVal), Same(LockRelValEn), Same(LockAcqEn), Same(LockAcqVal),
     Same(LockAcqValEn), Same(Address)],
    [Same(Lock2AcqId), Same(Lock2RelEn), Same(Lock2RelVal), Same(Lock2RelValEn), Same(Lock2AcqEn), Same(Lock2AcqVal),
     Same(Lock2AcqValEn), Same(Address2)],
    [Same(XIncr), Same(XWrap), Same(XOffset)],
    [Same(YIncr), Entry(XWrap, YWrap, false), Same(YOffset)],
    [Same(PktId), Same(PktType)],
    [Same(BuffSelect), Same(CurrPtr)],
    [Same(ValidBd), Same(UseNxtBd), Same(EnDoubleBuff), Same(FifoMode), Same(EnPkt), Same(EnInterleaved),
     Less(IntrleaveCount), Same(NxtBd), Same(Length)]
  ]

  const AIE_SHIM_READ: Table := [
    [Same(AddrLow)],
    [Same(Length)],
    [Same(AddrHigh), Same(UseNxtBd), Same(NxtBd), Same(LockAcqId), Same(LockRelEn), Same(LockRelVal),
     Same(LockRelValEn), Same(LockAcqEn), Same(LockAcqVal), Same(LockAcqValEn), Same(ValidBd)],
    [Same(SMID), Same(BurstLen), Same(AxQos), Same(SecureAccess), Same(AxCache)],
    [Same(PktId), Same(PktType), Same(EnPkt)]
  ]

  /** Two routines treat the same fields of a word, in whatever order. */
  ghost predicate SameEntries(a: seq<Entry>, b: seq<Entry>) {
    forall e :: e in a <==> e in b
  }

  /** Writing and reading agree on every word. */
  ghost predicate Agree(table: Table, read: Table) {
    |read| == |table| && forall w | 0 <= w < |table| :: SameEntries(table[w], read[w])
  }

  // ---------------------------------------------------------------- packing

  /** Where the register tables put the fields: the word and the bits. */
  datatype Place = Place(idx: nat, f: Field)

  type Layout = Key -> Place

  /** The value of an entry as the word holds it. */
  function EntryWord(d: Desc, e: Entry): Word32 {
    ToWord(if e.minusOne then Before(Raw(d, e.key)) else Raw(d, e.key))
  }

  /** Subtracting and adding one in 32 bits. */
  function Before(x: nat): (y: nat)
    requires x < U32
    ensures y < U32
  {
    if x == 0 then U32 - 1 else x - 1
  }

  function After(x: nat): nat {
    if x == U32 - 1 then 0 else x + 1
  }

  function PackWord(d: Desc, lay: Layout, entries: seq<Entry>): Word32 {
    if entries == [] then ZERO
    else
      var last := entries[|entries| - 1];
      Or(PackWord(d, lay, entries[..|entries| - 1]), SetField(EntryWord(d, last), lay(last.field).f))
  }

  function PackAll(d: Desc, lay: Layout, table: Table): (words: seq<Word32>)
    ensures |words| == |table|
  {
    seq(|table|, w requires 0 <= w < |table| => PackWord(d, lay, table[w]))
  }

  /** What reading an entry back makes of a word. */
  function EntryValue(w: Word32, lay: Layout, e: Entry): nat {
    var v := Value(GetField(w, lay(e.field).f));
    if e.minusOne then After(v) else v
  }

  function UnpackWord(w: Word32, lay: Layout, entries: seq<Entry>, d: Desc): Desc {
    if entries == [] then d
    else
      var last := entries[|entries| - 1];
      UnpackWord(w, lay, entries[..|entries| - 1], d)[last.key := EntryValue(w, lay, last)]
  }

  function UnpackAll(words: seq<Word32>, lay: Layout, table: Table, d: Desc): Desc
    requires |words| == |table|
  {
    if table == [] then d
    else
      var n := |table| - 1;
      UnpackWord(words[n], lay, table[n], UnpackAll(words[..n], lay, table[..n], d))
  }

  /** Different entries of a word go to different bits. */
  ghost predicate Separate(lay: Layout, entries: seq<Entry>) {
    forall i, j | 0 <= i < j < |entries| :: Apart(lay(entries[i].field).f, lay(entries[j].field).f)
  }

  ghost predicate AllSeparate(lay: Layout, table: Table) {
    forall w | 0 <= w < |table| :: Separate(lay, table[w])
  }

  /** Every entry fits its field. */
  ghost predicate EntriesFit(d: Desc, lay: Layout, entries: seq<Entry>) {
    forall i | 0 <= i < |entries| :: Fits(EntryWord(d, entries[i]), lay(entries[i].field).f)
  }

  ghost predicate AllFit(d: Desc, lay: Layout, table: Table) {
    forall w | 0 <= w < |table| :: EntriesFit(d, lay, table[w])
  }

  /** A bit of a packed word is set exactly if an entry sets it. */
  lemma {:induction false} PackBit(d: Desc, lay: Layout, entries: seq<Entry>, j: nat)
    requires j < 32
    ensures PackWord(d, lay, entries)[j] <==>
      exists i :: 0 <= i < |entries| && SetField(EntryWord(d, entries[i]), lay(entries[i].field).f)[j]
  {
    if entries != [] {
      PackBit(d, lay, entries[..|entries| - 1], j);
    }
  }

  /** Each entry is found again in the word, as far as it fits its field. */
  lemma PackGet(d: Desc, lay: Layout, entries: seq<Entry>, i: nat)
    requires i < |entries| && Separate(lay, entries)
    ensures var f := lay(entries[i].field).f;
      GetField(PackWord(d, lay, entries), f) == GetField(SetField(EntryWord(d, entries[i]), f), f)
  {
    var f, v := lay(entries[i].field).f, EntryWord(d, entries[i]);
    forall j: nat | j < 32
      ensures GetField(PackWord(d, lay, entries), f)[j] == GetField(SetField(v, f), f)[j]
    {
      if j + f.lsb < 32 && f.mask[j + f.lsb] {
        PackBit(d, lay, entries, j + f.lsb);
        forall k | 0 <= k < |entries| && k != i
          ensures !SetField(EntryWord(d, entries[k]), lay(entries[k].field).f)[j + f.lsb]
        {
          if k < i {
            assert Apart(lay(entries[k].field).f, f);
          } else {
            assert Apart(f, lay(entries[k].field).f);
          }
        }
      }
    }
  }

  lemma EntryBack(d: Desc, lay: Layout, entries: seq<Entry>, e: Entry)
    requires e in entries && Separate(lay, entries) && EntriesFit(d, lay, entries)
    ensures EntryValue(PackWord(d, lay, entries), lay, e) == Raw(d, e.key)
  {
    var i :| 0 <= i < |entries| && entries[i] == e;
    PackGet(d, lay, entries, i);
    FitsIff(EntryWord(d, e), lay(e.field).f);
    ValueToWord(if e.minusOne then Before(Raw(d, e.key)) else Raw(d, e.key));
  }

  predicate Mentions(entries: seq<Entry>, k: Key) {
    exists i :: 0 <= i < |entries| && entries[i].key == k
  }

  predicate TableMentions(table: Table, k: Key) {
    exists w :: 0 <= w < |table| && Mentions(table[w], k)
  }

  lemma MentionsLast(entries: seq<Entry>, n: nat, k: Key)
    requires 0 < n <= |entries|
    ensures Mentions(entries[..n], k) <==> Mentions(entries[..n - 1], k) || entries[n - 1].key == k
  {
  }

  /** What the first `n` entries of a reading routine make of a packed word. */
  lemma {:induction false} WordBack(d: Desc, lay: Layout, entries: seq<Entry>, read: seq<Entry>, n: nat,
      d0: Desc, k: Key)
    requires n <= |read| && SameEntries(entries, read) && Separate(lay, entries) && EntriesFit(d, lay, entries)
    ensures var d' := UnpackWord(PackWord(d, lay, entries), lay, read[..n], d0);
      if Mentions(read[..n], k) then k in d' && d'[k] == Raw(d, k)
      else (k in d' <==> k in d0) && (k in d' ==> d'[k] == d0[k])
  {
    if n > 0 {
      WordBack(d, lay, entries, read, n - 1, d0, k);
      EntryBack(d, lay, entries, read[n - 1]);
      assert read[..n][..n - 1] == read[..n - 1];
      MentionsLast(read, n, k);
    }
  }

  lemma TableMentionsLast(table: Table, k: Key)
    requires table != []
    ensures TableMentions(table, k) <==> TableMentions(table[..|table| - 1], k) || Mentions(table[|table| - 1], k)
  {
  }

  /** Reading a descriptor that was written gives back every field that the reading routine
      treats, and leaves all others as they were. */
  lemma {:induction false} ReadAfterWrite(d: Desc, lay: Layout, table: Table, read: Table, d0: Desc, k: Key)
    requires AllSeparate(lay, table) && AllFit(d, lay, table) && Agree(table, read)
    ensures var d' := UnpackAll(PackAll(d, lay, table), lay, read, d0);
      if TableMentions(read, k) then k in d' && d'[k] == Raw(d, k)
      else (k in d' <==> k in d0) && (k in d' ==> d'[k] == d0[k])
  {
    hide PackWord, UnpackWord, Mentions, SameEntries, Separate, EntriesFit;
    if table != [] {
      var n := |table| - 1;
      ReadAfterWrite(d, lay, table[..n], read[..n], d0, k);
      assert PackAll(d, lay, table)[..n] == PackAll(d, lay, table[..n]);
      var before := UnpackAll(PackAll(d, lay, table[..n]), lay, read[..n], d0);
      WordBack(d, lay, table[n], read[n], |read[n]|, before, k);
      assert read[n][..|read[n]|] == read[n];
      TableMentionsLast(read, k);
    }
  }

  lemma SameMentions(table: Table, read: Table, k: Key)
    requires Agree(table, read)
    ensures TableMentions(table, k) <==> TableMentions(read, k)
  {
    forall w | 0 <= w < |table|
      ensures Mentions(table[w], k) <==> Mentions(read[w], k)
    {
      MentionsIn(table[w], k);
      MentionsIn(read[w], k);
    }
  }

  lemma MentionsIn(entries: seq<Entry>, k: Key)
    ensures Mentions(entries, k) <==> exists e :: e in entries && e.key == k
  {
  }

  lemma KeyReads(d: Desc, lay: Layout, table: Table, read: Table, k: Key)
    requires AllSeparate(lay, table) && AllFit(d, lay, table) && Agree(table, read)
    ensures Raw(UnpackAll(PackAll(d, lay, table), lay, read, map[]), k) ==
      if TableMentions(table, k) then Raw(d, k) else 0
  {
    ReadAfterWrite(d, lay, table, read, map[], k);
    SameMentions(table, read, k);
  }

  // ---------------------------------------------------------------- registers

  /** The registers of a DMA, with words bit by bit. */
  type RegFile = map<nat, Word32>

  function ReadReg(m: RegFile, addr: nat): Word32 {
    if addr in m then m[addr] else ToWord(0)
  }

  function WriteWords(m: RegFile, addr: nat, words: seq<Word32>): RegFile {
    if words == [] then m
    else WriteWords(m, addr, words[..|words| - 1])[addr + 4 * (|words| - 1) := words[|words| - 1]]
  }

  function ReadWords(m: RegFile, addr: nat, n: nat): (words: seq<Word32>)
    ensures |words| == n
  {
    seq(n, i requires 0 <= i < n => ReadReg(m, addr + 4 * i))
  }

  lemma {:induction false} Stored(m: RegFile, addr: nat, words: seq<Word32>, at: nat)
    ensures forall i | 0 <= i < |words| && at == addr + 4 * i :: ReadReg(WriteWords(m, addr, words), at) == words[i]
    ensures (forall i | 0 <= i < |words| :: at != addr + 4 * i) ==>
      ReadReg(WriteWords(m, addr, words), at) == ReadReg(m, at)
  {
    if words != [] {
      Stored(m, addr, words[..|words| - 1], at);
    }
  }

  /** The hardware descriptor at an address holds a software descriptor. */
  ghost predicate Holds(m: RegFile, addr: nat, d: Desc, lay: Layout, table: Table) {
    ReadWords(m, addr, |table|) == PackAll(d, lay, table)
  }

  lemma StoreHolds(m: RegFile, addr: nat, d: Desc, lay: Layout, table: Table)
    ensures Holds(WriteWords(m, addr, PackAll(d, lay, table)), addr, d, lay, table)
  {
    var words := PackAll(d, lay, table);
    forall i: nat | i < |table|
      ensures ReadReg(WriteWords(m, addr, words), addr + 4 * i) == words[i]
    {
      Stored(m, addr, words, addr + 4 * i);
    }
  }

  /** Where hardware descriptor `num` of a DMA begins. */
  function BdAddr(base: nat, idxOffset: nat, num: nat): nat {
    base + num * idxOffset
  }
}
