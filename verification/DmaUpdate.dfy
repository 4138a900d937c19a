/** What changing single fields of a hardware descriptor amounts to, and which values
    survive being stored in one. */
module DmaUpdate {
  import opened Arithmetic
  import opened Bits
  import opened BdFields
  import opened DmaBd

  // ---------------------------------------------------------------- one field changed

  /** Entry `i` of word `w` is the only one for a key, and takes its value as it is. */
  ghost predicate OnlyPlace(table: Table, w: nat, i: nat, k: Key) {
    && w < |table| && OnlyEntry(table[w], i, k)
    && forall x | 0 <= x < |table| && x != w :: !Mentions(table[x], k)
  }

  ghost predicate OnlyEntry(entries: seq<Entry>, i: nat, k: Key) {
    && i < |entries| && entries[i] == Same(k)
    && forall j | 0 <= j < |entries| && j != i :: entries[j].key != k
  }

  /** A word does not depend on keys it does not mention. */
  lemma {:induction false} Unmentioned(d: Desc, k: Key, v: nat, lay: Layout, entries: seq<Entry>)
    requires !Mentions(entries, k)
    ensures PackWord(d[k := v], lay, entries) == PackWord(d, lay, entries)
  {
    if entries != [] {
      var n := |entries| - 1;
      assert entries[n].key != k;
      assert forall i | 0 <= i < n :: entries[..n][i] == entries[i];
      Unmentioned(d, k, v, lay, entries[..n]);
    }
  }

  /** A bit a changed descriptor sets in one of its fields' places. */
  predicate Sets(d: Desc, lay: Layout, e: Entry, j: nat)
    requires j < 32
  {
    SetField(EntryWord(d, e), lay(e.field).f)[j]
  }

  /** Masking in the new value of one field gives the word that packing the changed
      descriptor gives. */
  lemma FieldUpdate(d: Desc, k: Key, v: nat, lay: Layout, entries: seq<Entry>, i: nat)
    requires OnlyEntry(entries, i, k) && Separate(lay, entries)
    ensures MergeBits(PackWord(d, lay, entries), lay(k).f.mask, SetField(ToWord(v % U32), lay(k).f))
      == PackWord(d[k := v], lay, entries)
  {
    var d' := d[k := v];
    var f := lay(k).f;
    forall j: nat | j < 32
      ensures MergeBits(PackWord(d, lay, entries), f.mask, SetField(ToWord(v % U32), f))[j]
        == PackWord(d', lay, entries)[j]
    {
      SomeSet(d, lay, entries, j);
      SomeSet(d', lay, entries, j);
      forall x: nat | x < |entries| && x != i
        ensures Sets(d, lay, entries[x], j) == Sets(d', lay, entries[x], j)
        ensures f.mask[j] ==> !Sets(d, lay, entries[x], j)
      {
        OtherEntry(d, k, v, lay, entries, i, x, j);
      }
      assert Sets(d', lay, entries[i], j) == SetField(ToWord(v % U32), f)[j];
      assert Sets(d, lay, entries[i], j) ==> f.mask[j];
    }
  }

  lemma OtherEntry(d: Desc, k: Key, v: nat, lay: Layout, entries: seq<Entry>, i: nat, x: nat, j: nat)
    requires OnlyEntry(entries, i, k) && Separate(lay, entries) && x < |entries| && x != i && j < 32
    ensures Sets(d, lay, entries[x], j) == Sets(d[k := v], lay, entries[x], j)
    ensures lay(k).f.mask[j] ==> !Sets(d, lay, entries[x], j)
  {
  }

  lemma SomeSet(d: Desc, lay: Layout, entries: seq<Entry>, j: nat)
    requires j < 32
    ensures PackWord(d, lay, entries)[j] <==> exists x :: 0 <= x < |entries| && Sets(d, lay, entries[x], j)
  {
    PackBit(d, lay, entries, j);
    if PackWord(d, lay, entries)[j] {
      var x :| 0 <= x < |entries| && SetField(EntryWord(d, entries[x]), lay(entries[x].field).f)[j];
      assert Sets(d, lay, entries[x], j);
    }
  }

  /** The words of a descriptor with one field changed. */
  lemma TableUpdate(d: Desc, k: Key, v: nat, lay: Layout, table: Table, w: nat, i: nat)
    requires OnlyPlace(table, w, i, k) && AllSeparate(lay, table)
    ensures var f := lay(k).f;
      PackAll(d[k := v], lay, table)
      == PackAll(d, lay, table)[w := MergeBits(PackWord(d, lay, table[w]), f.mask, SetField(ToWord(v % U32), f))]
  {
    FieldUpdate(d, k, v, lay, table[w], i);
    forall x | 0 <= x < |table| && x != w
      ensures PackWord(d[k := v], lay, table[x]) == PackWord(d, lay, table[x])
    {
      Unmentioned(d, k, v, lay, table[x]);
    }
  }

  /** If the field is alone in its word, the word can be written as a whole. */
  lemma AloneUpdate(d: Desc, k: Key, v: nat, lay: Layout, table: Table, w: nat)
    requires OnlyPlace(table, w, 0, k) && table[w] == [Same(k)]
    ensures PackAll(d[k := v], lay, table) == PackAll(d, lay, table)[w := SetField(ToWord(v % U32), lay(k).f)]
  {
    var word := SetField(ToWord(v % U32), lay(k).f);
    assert table[w][..0] == [];
    assert PackWord(d[k := v], lay, table[w]) == Or(PackWord(d[k := v], lay, []), word);
    assert PackWord(d[k := v], lay, table[w]) == word;
    forall x | 0 <= x < |table| && x != w
      ensures PackWord(d[k := v], lay, table[x]) == PackWord(d, lay, table[x])
    {
      Unmentioned(d, k, v, lay, table[x]);
    }
  }

  // ---------------------------------------------------------------- values that survive

  /** The length in 32-bit words, as descriptors hold it, and back in bytes. */
  function LenWord(len: nat, offset: nat): (x: nat)
    ensures x < U32
  {
    (len / 4 - offset) % U32
  }

  function LenBytes(field: nat, offset: nat): nat {
    (field + offset) * 4 % U32
  }

  /** A length rounded down to whole words. */
  function WholeWords(len: nat): nat {
    len / 4 * 4
  }

  /** The length is the one set, rounded down to whole words, exactly if that is neither
      below the offset nor too long for the field. */
  predicate LenKept(got: nat, len: nat, offset: nat, width: nat) {
    got == WholeWords(len) <==> offset <= len / 4 < offset + Pow2(width)
  }

  lemma LengthBackIff(len: nat, width: nat, offset: nat)
    requires len < U32 && ((offset == 0 && width <= 32) || (offset == 1 && width < 30))
    ensures LenKept(LenBytes(LenWord(len, offset) % Pow2(width), offset), len, offset, width)
  {
    var p := Pow2(width);
    if offset == 1 {
      Pow2Grows(width, 29);
      Pow2Of29();
      LongerBackIff(len / 4, p);
    } else {
      PlainBackIff(len / 4, p);
    }
  }

  lemma Pow2Of29()
    ensures Pow2(29) == 0x2000_0000
  {
    Pow2Of32();
    assert Pow2(32) == 2 * Pow2(31) && Pow2(31) == 2 * Pow2(30) && Pow2(30) == 2 * Pow2(29);
  }

  lemma PlainBackIff(n: nat, p: nat)
    requires n < 0x4000_0000 && p > 0
    ensures n % U32 % p * 4 % U32 == n * 4 <==> n < p
  {
    ModIff(n, p);
  }

  lemma LongerBackIff(n: nat, p: nat)
    requires n < 0x4000_0000 && 0 < p <= 0x2000_0000
    ensures ((n - 1) % U32 % p + 1) * 4 % U32 == n * 4 <==> 1 <= n < 1 + p
  {
    var x := (n - 1) % U32;
    assert x % p < p;
    ModIff(x, p);
    if n > 0 {
      assert x == n - 1;
    }
  }

  /** A signed byte as a 32-bit value, and an unsigned one as a signed byte. */
  function Unsigned(v: int): (x: nat)
    requires -128 <= v < 128
    ensures x < U32
  {
    if v < 0 then v + U32 else v
  }

  function SignedByte(x: nat): (v: int)
    ensures -128 <= v < 128
  {
    if x % 256 < 128 then x % 256 else x % 256 - 256
  }

  /** Lock values have seven bits and are not sign-extended: they come back exactly if they
      are not negative. */
  lemma LockValueBackIff(v: int, f: Field)
    requires -128 <= v < 128 && Contiguous(f, 7)
    ensures SignedByte(Value(GetField(SetField(ToWord(Unsigned(v)), f), f))) == v <==> v >= 0
  {
    FieldHolds(Unsigned(v), f, 7);
    assert Pow2(7) == 128 by { assert Pow2(3) == 8; }
  }

  /** Of the descriptor's 64-bit address the AIE-ML interface tile stores the low half
      without its lowest bits, and the high half. */
  function WithAddress(d: Desc, address: nat, lsb: nat): Desc {
    d[AddrLow := Shr(address, lsb) % U32][AddrHigh := address / U32]
  }

  /** What reading makes of the two parts, which do not overlap. */
  function JoinAddress(d: Desc, lsb: nat): nat {
    Raw(d, AddrLow) * Pow2(lsb) + Raw(d, AddrHigh) * U32
  }

  /** Address bits above the low half that are shifted into it do not reach the register. */
  lemma LowHalf(address: nat, f: Field)
    ensures SetField(ToWord(Shr(address, f.lsb) % U32), f) == SetField(ToWord(Shr(address % U32, f.lsb)), f)
  {
    Pow2Of32();
    forall j | 0 <= j < 32 && f.mask[j] && j >= f.lsb
      ensures ToWord(Shr(address, f.lsb) % U32)[j - f.lsb] == ToWord(Shr(address % U32, f.lsb))[j - f.lsb]
    {
      BitMod(Shr(address, f.lsb), 32, j - f.lsb);
      BitShr(address, f.lsb, j - f.lsb);
      BitShr(address % U32, f.lsb, j - f.lsb);
      BitMod(address, 32, j);
    }
  }

  /** The address in two parts that fit their fields. */
  function Halves(d: Desc, address: nat, lsb: nat): Desc {
    d[AddrLow := Shr(address % U32, lsb)][AddrHigh := address / U32]
  }

  lemma HalvesHeld(d: Desc, address: nat, lsb: nat)
    requires address < U32 * U32
    ensures Raw(Halves(d, address, lsb), AddrLow) == Shr(address % U32, lsb)
    ensures Raw(Halves(d, address, lsb), AddrHigh) == address / U32
  {
    ShrSmaller(address % U32, lsb);
  }

  lemma {:induction false} ShrSmaller(v: nat, s: nat)
    ensures Shr(v, s) <= v
  {
    if s > 0 {
      ShrSmaller(v / 2, s - 1);
    }
  }

  lemma SamePacking(d: Desc, address: nat, lay: Layout, table: Table, w: nat)
    requires OnlyPlace(table, w, 0, AddrLow) && table[w] == [Same(AddrLow)]
    ensures PackAll(WithAddress(d, address, lay(AddrLow).f.lsb), lay, table)
      == PackAll(Halves(d, address, lay(AddrLow).f.lsb), lay, table)
  {
    var f := lay(AddrLow).f;
    var h := d[AddrHigh := address / U32];
    assert WithAddress(d, address, f.lsb) == h[AddrLow := Shr(address, f.lsb) % U32];
    assert Halves(d, address, f.lsb) == h[AddrLow := Shr(address % U32, f.lsb)];
    AloneUpdate(h, AddrLow, Shr(address, f.lsb) % U32, lay, table, w);
    AloneUpdate(h, AddrLow, Shr(address % U32, f.lsb), lay, table, w);
    ShrSmaller(address % U32, f.lsb);
    LowHalf(address, f);
  }

  /** An address is put together again exactly if its lowest bits, which are not stored, are
      zero. */
  lemma JoinBackIff(address: nat, lsb: nat)
    requires lsb <= 32
    ensures Shr(address % U32, lsb) * Pow2(lsb) + address / U32 * U32 == address <==> address % Pow2(lsb) == 0
  {
    ShrIs(address % U32, lsb);
    Pow2Adds(32 - lsb, lsb);
    Pow2Of32();
    LowBitsAgree(address, Pow2(lsb), Pow2(32 - lsb));
    RoundedIff(address % U32, Pow2(lsb));
  }

  lemma Pow2Adds(m: nat, n: nat)
    ensures Pow2(m) * Pow2(n) == Pow2(m + n)
  {
    if m > 0 {
      Pow2Adds(m - 1, n);
      Doubled(Pow2(m - 1), Pow2(n));
      assert m - 1 + n == m + n - 1;
    }
  }

  lemma Doubled(x: int, y: int)
    ensures (2 * x) * y == 2 * (x * y)
  {
  }

  lemma LowBitsAgree(address: nat, p: nat, r: nat)
    requires p > 0 && r * p == U32
    ensures address % U32 % p == address % p
  {
    var h, a := address / U32, address % U32;
    assert address == (h * r + a / p) * p + a % p by {
      assert address == h * U32 + a;
      assert a == a / p * p + a % p;
      assert h * (r * p) == (h * r) * p;
      assert (h * r) * p + a / p * p == (h * r + a / p) * p;
    }
    DivideIs(address, p, h * r + a / p, a % p);
  }

  lemma RoundedIff(a: nat, p: nat)
    requires p > 0
    ensures a / p * p <= a && (a / p * p == a <==> a % p == 0)
  {
  }

  lemma ModIff(h: nat, q: nat)
    requires q > 0
    ensures h % q <= h && (h % q == h <==> h < q)
  {
  }

  lemma SameLowBit(x: nat, y: nat, width: nat, i: nat)
    requires x % Pow2(width) == y % Pow2(width) && i < width && i < 32
    ensures ToWord(x)[i] == ToWord(y)[i]
  {
    BitMod(x, width, i);
    BitMod(y, width, i);
  }

  /** The AIE interface tile's address update leaves the high half unshifted: it is right
      exactly if the bits it stores agree with those of the high half. */
  lemma UnshiftedIff(address: nat, high: Field, width: nat)
    requires Contiguous(high, width)
    ensures SetField(ToWord(address % U32), high) == SetField(ToWord(address / U32 % U32), high) <==>
      address % U32 % Pow2(width) == address / U32 % U32 % Pow2(width)
  {
    hide Pow2, GetField, Value, ToWord;
    var x, y := address % U32, address / U32 % U32;
    FieldHolds(x, high, width);
    FieldHolds(y, high, width);
    if x % Pow2(width) == y % Pow2(width) {
      forall j: nat | j < 32 && high.mask[j]
        ensures ToWord(x)[j - high.lsb] == ToWord(y)[j - high.lsb]
      {
        SameLowBit(x, y, width, j - high.lsb);
      }
    }
  }
}
