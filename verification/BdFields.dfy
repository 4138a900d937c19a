/** Bit fields of 32-bit register words: setting, getting and packing them. A word is
    written down by its 32 bits, the least significant one first. */
module BdFields {
  import opened Arithmetic
  import opened Bits

  type Word32 = w: seq<bool> | |w| == 32 witness seq(32, _ => false)

  const ZERO: Word32 := seq(32, _ => false)

  function Or(x: Word32, y: Word32): (r: Word32)
    ensures forall j | 0 <= j < 32 :: r[j] == (x[j] || y[j])
  {
    seq(32, j requires 0 <= j < 32 => x[j] || y[j])
  }

  /** What a masked register write leaves behind. */
  function MergeBits(was: Word32, mask: Word32, value: Word32): (r: Word32)
    ensures forall j | 0 <= j < 32 :: r[j] == ((was[j] && !mask[j]) || value[j])
  {
    seq(32, j requires 0 <= j < 32 => (was[j] && !mask[j]) || value[j])
  }

  // ---------------------------------------------------------------- words and numbers

  /** The low `n` bits of a number. */
  function LowBits(v: nat, n: nat): (w: seq<bool>)
    ensures |w| == n
  {
    seq(n, i requires 0 <= i => BitAt(v, i))
  }

  function ToWord(v: nat): Word32 {
    LowBits(v, 32)
  }

  function Value(w: seq<bool>): nat {
    if w == [] then 0 else (if w[0] then 1 else 0) + 2 * Value(w[1..])
  }

  lemma {:induction false} ValueLowBits(v: nat, n: nat)
    requires v < Pow2(n)
    ensures Value(LowBits(v, n)) == v
  {
    if n > 0 {
      ValueLowBits(v / 2, n - 1);
      assert LowBits(v, n)[1..] == LowBits(v / 2, n - 1);
    }
  }

  lemma Pow2Of32()
    ensures Pow2(32) == U32
  {
    assert Pow2(8) == 256 by { assert Pow2(4) == 16; }
    assert Pow2(16) == 65536 by { assert Pow2(12) == 4096; }
    assert Pow2(24) == 0x100_0000 by { assert Pow2(20) == 0x10_0000; }
    assert Pow2(28) == 0x1000_0000;
  }

  lemma ValueToWord(v: nat)
    requires v < U32
    ensures Value(ToWord(v)) == v
  {
    Pow2Of32();
    ValueLowBits(v, 32);
  }

  lemma {:induction false} Pow2Grows(m: nat, n: nat)
    requires m <= n
    ensures Pow2(m) <= Pow2(n)
  {
    if m < n {
      Pow2Grows(m, n - 1);
    }
  }

  /** Dividing by twice `m` is halving, then dividing by `m`. */
  lemma Halve(v: nat, m: nat)
    requires m > 0
    ensures v / (2 * m) == v / 2 / m && v % (2 * m) / 2 == v / 2 % m && v % (2 * m) % 2 == v % 2
  {
    var a, b := v / 2 / m, v / 2 % m;
    assert v / 2 == a * m + b;
    assert v == a * (2 * m) + (2 * b + v % 2) by {
      assert v == 2 * (v / 2) + v % 2;
      assert 2 * (a * m) == a * (2 * m);
    }
    DivideIs(v, 2 * m, a, 2 * b + v % 2);
  }

  /** A shift to the right. */
  function Shr(v: nat, s: nat): nat {
    if s == 0 then v else Shr(v / 2, s - 1)
  }

  lemma {:induction false} ShrIs(v: nat, s: nat)
    ensures Shr(v, s) == v / Pow2(s)
  {
    if s > 0 {
      ShrIs(v / 2, s - 1);
      Halve(v, Pow2(s - 1));
    }
  }

  lemma {:induction false} BitShr(v: nat, s: nat, i: nat)
    ensures BitAt(Shr(v, s), i) == BitAt(v, i + s)
  {
    if s > 0 {
      BitShr(v / 2, s - 1, i);
    }
  }

  lemma {:induction false} BitMod(v: nat, n: nat, i: nat)
    requires i < n
    ensures BitAt(v % Pow2(n), i) == BitAt(v, i)
  {
    Halve(v, Pow2(n - 1));
    if i > 0 {
      BitMod(v / 2, n - 1, i - 1);
    }
  }

  /** A number has no bits from `n` on exactly if it is below 2^n. */
  lemma {:induction false} HighBits(v: nat, n: nat, i: nat)
    requires v < Pow2(n) && n <= i
    ensures !BitAt(v, i)
  {
    if i == 0 {
    } else if n == 0 {
      HighBits(v / 2, 0, i - 1);
    } else {
      HighBits(v / 2, n - 1, i - 1);
    }
  }

  lemma {:induction false} SomeHighBit(v: nat, n: nat, m: nat) returns (i: nat)
    requires Pow2(n) <= v < Pow2(m)
    ensures n <= i < m && BitAt(v, i)
  {
    if n > 0 {
      i := SomeHighBit(v / 2, n - 1, m - 1);
      i := i + 1;
    } else if v == 1 {
      i := 0;
    } else {
      i := SomeHighBit(v / 2, 0, m - 1);
      i := i + 1;
    }
  }

  // ---------------------------------------------------------------- fields

  /** A field as the register tables describe it. */
  datatype Field = Field(lsb: nat, mask: Word32)

  /** The value shifted into the field's place and masked. */
  function SetField(v: Word32, f: Field): (r: Word32)
    ensures forall j | 0 <= j < 32 :: r[j] == (f.mask[j] && j >= f.lsb && v[j - f.lsb])
  {
    seq(32, j requires 0 <= j < 32 => f.mask[j] && j >= f.lsb && v[j - f.lsb])
  }

  /** The field's bits, shifted down. */
  function GetField(w: Word32, f: Field): (r: Word32)
    ensures forall j | 0 <= j < 32 :: r[j] == (j + f.lsb < 32 && f.mask[j + f.lsb] && w[j + f.lsb])
  {
    seq(32, j requires 0 <= j < 32 => j + f.lsb < 32 && f.mask[j + f.lsb] && w[j + f.lsb])
  }

  /** A value the field can hold. */
  predicate Fits(v: Word32, f: Field) {
    forall j | 0 <= j < 32 && v[j] :: j + f.lsb < 32 && f.mask[j + f.lsb]
  }

  predicate Apart(f: Field, g: Field) {
    forall j | 0 <= j < 32 :: !(f.mask[j] && g.mask[j])
  }

  /** A field of `width` bits from `lsb` on. */
  predicate Contiguous(f: Field, width: nat) {
    f.lsb + width <= 32 && forall j | 0 <= j < 32 :: f.mask[j] == (f.lsb <= j < f.lsb + width)
  }

  /** Setting and getting a value is harmless exactly for the values the field can hold. */
  lemma FitsIff(v: Word32, f: Field)
    ensures Fits(v, f) <==> GetField(SetField(v, f), f) == v
  {
  }

  /** For a contiguous field these are the numbers below 2^width. */
  lemma FitsBelow(v: nat, f: Field, width: nat)
    requires Contiguous(f, width) && v < U32
    ensures Fits(ToWord(v), f) <==> v < Pow2(width)
  {
    Pow2Of32();
    if v < Pow2(width) {
      forall j | 0 <= j < 32 && ToWord(v)[j]
        ensures j + f.lsb < 32 && f.mask[j + f.lsb]
      {
        if j >= width {
          HighBits(v, width, j);
        }
      }
    } else {
      var i := SomeHighBit(v, width, 32);
      assert ToWord(v)[i];
    }
  }

  /** A field keeps the low bits of what is put into it. */
  lemma FieldHolds(v: nat, f: Field, width: nat)
    requires Contiguous(f, width)
    ensures Value(GetField(SetField(ToWord(v), f), f)) == v % Pow2(width)
  {
    var r := v % Pow2(width);
    forall i | 0 <= i < 32
      ensures GetField(SetField(ToWord(v), f), f)[i] == ToWord(r)[i]
    {
      if i < width {
        BitMod(v, width, i);
      } else {
        HighBits(r, width, i);
      }
    }
    assert GetField(SetField(ToWord(v), f), f) == ToWord(r);
    Pow2Grows(width, 32);
    Pow2Of32();
    ValueToWord(r);
  }
}
