/** Bits of machine words: walking over the set bits of a value, and bitmaps spread over
    an array of 32-bit words. */
module Bits {

  // ---------------------------------------------------------------- set bits of one value

  /** Unsigned values; a shift right is a division by two. */
  function And(v: nat, w: nat): nat {
    if v == 0 || w == 0 then 0 else 2 * And(v / 2, w / 2) + (v % 2) * (w % 2)
  }

  /** Bit `i` of `v`, counting from the least significant one. */
  predicate BitAt(v: nat, i: nat) {
    if i == 0 then v % 2 == 1 else BitAt(v / 2, i - 1)
  }

  /** The set bits from `lo` on and below `hi`, in ascending order. */
  function Indices(v: nat, lo: nat, hi: nat): (r: seq<nat>)
    requires lo <= hi
    ensures forall i :: i in r <==> lo <= i < hi && BitAt(v, i)
    ensures forall j, k | 0 <= j < k < |r| :: r[j] < r[k]
    decreases hi - lo
  {
    if lo == hi then []
    else
      var rest := Indices(v, lo + 1, hi);
      assert forall k | 0 <= k < |rest| :: rest[k] in rest;
      if BitAt(v, lo) then [lo] + rest else rest
  }

  function Lowest(v: nat): (i: nat)
    requires v != 0
  {
    if v % 2 == 1 then 0 else 1 + Lowest(v / 2)
  }

  lemma {:induction false} LowestIs(v: nat, i: nat)
    requires v != 0 && i <= Lowest(v)
    ensures BitAt(v, i) <==> i == Lowest(v)
  {
    if i > 0 {
      LowestIs(v / 2, i - 1);
    }
  }

  lemma {:induction false} NoBits(i: nat)
    ensures !BitAt(0, i)
  {
    if i > 0 {
      NoBits(i - 1);
    }
  }

  function Pow2(n: nat): (p: nat)
    ensures p > 0
  {
    if n == 0 then 1 else 2 * Pow2(n - 1)
  }

  /** A mask of the form (1 << n) - 1 selects the bits below n. */
  lemma {:induction false} LowMask(n: nat, i: nat)
    ensures BitAt(Pow2(n) - 1, i) <==> i < n
  {
    if n == 0 {
      NoBits(i);
    } else if i > 0 {
      LowMask(n - 1, i - 1);
      assert (Pow2(n) - 1) / 2 == Pow2(n - 1) - 1;
    }
  }

  lemma AndOne(v: nat)
    ensures And(v, 1) == v % 2
  {
  }

  lemma {:induction false} AndSelf(v: nat)
    ensures And(v, v) == v
  {
    if v > 0 {
      AndSelf(v / 2);
      var b := v % 2;
      assert b * b == b by {
        if b == 0 {
        } else {
          assert b == 1;
        }
      }
      assert v == 2 * (v / 2) + b;
    }
  }

  /** v & (v - 1), where v ends in a one or in a zero. */
  lemma {:induction false} ClearStep(v: nat)
    requires v != 0
    ensures And(v, v - 1) == if v % 2 == 1 then v - 1 else 2 * And(v / 2, v / 2 - 1)
    ensures And(v, v - 1) < v
    decreases v
  {
    if v % 2 == 1 {
      AndSelf(v / 2);
      assert (v - 1) / 2 == v / 2;
    } else {
      assert (v - 1) / 2 == v / 2 - 1;
      ClearStep(v / 2);
    }
  }

  /** v & (v - 1) is v without its lowest set bit. */
  lemma {:induction false} ClearLowest(v: nat, i: nat)
    requires v != 0
    ensures BitAt(And(v, v - 1), i) <==> BitAt(v, i) && i != Lowest(v)
  {
    ClearStep(v);
    if v % 2 == 0 && i > 0 {
      ClearLowest(v / 2, i - 1);
    }
  }

  lemma {:induction false} SameIndices(v: nat, w: nat, lo: nat, hi: nat)
    requires lo <= hi && forall i | lo <= i < hi :: BitAt(v, i) == BitAt(w, i)
    ensures Indices(v, lo, hi) == Indices(w, lo, hi)
    decreases hi - lo
  {
    if lo < hi {
      SameIndices(v, w, lo + 1, hi);
    }
  }

  lemma {:induction false} IndicesStep(v: nat, lo: nat, hi: nat)
    requires v != 0 && lo <= Lowest(v) < hi
    ensures Indices(v, lo, hi) == [Lowest(v)] + Indices(And(v, v - 1), lo, hi)
    decreases hi - lo
  {
    var w := And(v, v - 1);
    LowestIs(v, lo);
    ClearLowest(v, lo);
    if lo < Lowest(v) {
      IndicesStep(v, lo + 1, hi);
    } else {
      forall i | lo < i < hi
        ensures BitAt(v, i) == BitAt(w, i)
      {
        ClearLowest(v, i);
      }
      SameIndices(v, w, lo + 1, hi);
    }
  }

  lemma {:induction false} IndicesNone(v: nat, lo: nat, hi: nat)
    requires lo <= hi && (v != 0 ==> hi <= Lowest(v))
    ensures Indices(v, lo, hi) == []
    decreases hi - lo
  {
    if lo < hi {
      NoBits(lo);
      if v != 0 {
        LowestIs(v, lo);
      }
      IndicesNone(v, lo + 1, hi);
    }
  }

  /** After visiting the lowest set bit it is cleared, and the others are left. */
  lemma VisitStep(v: nat, value: nat, len: nat, visited: seq<nat>)
    requires v != 0 && Lowest(v) < len && visited + Indices(v, 0, len) == Indices(value, 0, len)
    ensures visited + [Lowest(v)] + Indices(And(v, v - 1), 0, len) == Indices(value, 0, len)
    ensures And(v, v - 1) < v
  {
    hide And, Indices, Lowest;
    IndicesStep(v, 0, len);
    ClearStep(v);
    assert visited + ([Lowest(v)] + Indices(And(v, v - 1), 0, len)) ==
      visited + [Lowest(v)] + Indices(And(v, v - 1), 0, len);
  }

  /** One-based position of the lowest set bit, 0 for none. */
  method FirstSetBit(value: nat) returns (index: nat)
    ensures index == if value == 0 then 0 else Lowest(value) + 1
  {
    index := 1;
    if value == 0 {
      return 0;
    }
    var v := value;
    AndOne(v);
    while And(v, 1) == 0
      invariant v != 0 && index + Lowest(v) == Lowest(value) + 1 && And(v, 1) == v % 2
      decreases v
    {
      v := v / 2;
      AndOne(v);
      index := index + 1;
    }
  }

  /** The difference of an unsigned number and 1. */
  function Pred32(n: nat): nat {
    if n == 0 then 0xFFFF_FFFF else n - 1
  }

  /** Visits the set bits below `len`: each of them once, in ascending order. */
  method ForEachSetBit(value: nat, len: nat) returns (visited: seq<nat>)
    requires len < 0xFFFF_FFFF
    ensures visited == Indices(value, 0, len)
  {
    hide And, Indices, Lowest;
    visited := [];
    var v := value;
    var first := FirstSetBit(v);
    var index := Pred32(first);
    while index < len
      invariant index == if v == 0 then 0xFFFF_FFFF else Lowest(v)
      invariant visited + Indices(v, 0, len) == Indices(value, 0, len)
      decreases v
    {
      VisitStep(v, value, len, visited);
      visited := visited + [index];
      v := And(v, v - 1);
      first := FirstSetBit(v);
      index := Pred32(first);
    }
    IndicesNone(v, 0, len);
  }

  // ---------------------------------------------------------------- bitmaps

  function OneHot(i: nat): bv32
    requires i < 32
  {
    (1 as bv32) << i
  }

  predicate Overlap(x: bv32, y: bv32) {
    x & y != 0
  }

  function Join(x: bv32, y: bv32): bv32 {
    x | y
  }

  function Without(x: bv32, y: bv32): bv32 {
    x & !y
  }

  lemma JoinSame(w: bv32, x: bv32)
    ensures (w | x) & x == x
  {
  }

  lemma JoinOther(w: bv32, x: bv32, y: bv32)
    requires x & y == 0
    ensures (w | x) & y == w & y
  {
  }

  lemma JoinTest(w: bv32, x: bv32, y: bv32)
    requires x != 0 && (x == y || !Overlap(x, y))
    ensures Overlap(Join(w, x), y) <==> Overlap(w, y) || x == y
  {
    if x == y {
      JoinSame(w, x);
    } else {
      JoinOther(w, x, y);
    }
  }

  lemma WithoutSame(w: bv32, x: bv32)
    ensures (w & !x) & x == 0
  {
  }

  lemma WithoutOther(w: bv32, x: bv32, y: bv32)
    requires x & y == 0
    ensures (w & !x) & y == w & y
  {
  }

  lemma WithoutTest(w: bv32, x: bv32, y: bv32)
    requires x != 0 && (x == y || !Overlap(x, y))
    ensures Overlap(Without(w, x), y) <==> Overlap(w, y) && x != y
  {
    if x == y {
      WithoutSame(w, x);
    } else {
      WithoutOther(w, x, y);
    }
  }

  lemma OneHotApart(i: nat, j: nat)
    requires i < 32 && j < 32
    ensures OneHot(i) & OneHot(j) == if i == j then OneHot(i) else 0
    ensures OneHot(i) != 0
  {
  }

  lemma OverlapIff(i: nat, j: nat)
    requires i < 32 && j < 32
    ensures OneHot(i) != 0 && (Overlap(OneHot(i), OneHot(j)) <==> i == j)
  {
    hide OneHot;
    OneHotApart(i, j);
  }

  /** The bit test on a bitmap. */
  predicate CheckBit(b: seq<bv32>, pos: nat)
    requires pos < 32 * |b|
  {
    Overlap(b[pos / 32], OneHot(pos % 32))
  }

  /** Bit `i` of a word, from the lowest one on. */
  predicate WordBit(x: bv32, i: nat)
    requires i < 32
  {
    (x >> i) & 1 == 1
  }

  lemma OneBit(x: bv32, i: nat)
    requires i < 32
    ensures Overlap(x, OneHot(i)) <==> WordBit(x, i)
  {
  }

  /** The test looks at one bit: position 32 * w + i is bit i of word w. */
  lemma CheckBitIs(b: seq<bv32>, w: nat, i: nat)
    requires w < |b| && i < 32
    ensures CheckBit(b, 32 * w + i) <==> WordBit(b[w], i)
  {
    hide Overlap, OneHot, WordBit;
    assert (32 * w + i) / 32 == w && (32 * w + i) % 32 == i;
    OneBit(b[w], i);
  }

  lemma SetOne(b: seq<bv32>, k: nat, pos: nat)
    requires k < 32 * |b| && pos < 32 * |b|
    ensures CheckBit(b[k / 32 := Join(b[k / 32], OneHot(k % 32))], pos) <==> CheckBit(b, pos) || pos == k
  {
    hide Overlap, Join, OneHot;
    OverlapIff(k % 32, pos % 32);
    OverlapIff(k % 32, k % 32);
    JoinTest(b[k / 32], OneHot(k % 32), OneHot(pos % 32));
  }

  lemma ClearOne(b: seq<bv32>, k: nat, pos: nat)
    requires k < 32 * |b| && pos < 32 * |b|
    ensures CheckBit(b[k / 32 := Without(b[k / 32], OneHot(k % 32))], pos) <==> CheckBit(b, pos) && pos != k
  {
    hide Overlap, Without, OneHot;
    OverlapIff(k % 32, pos % 32);
    OverlapIff(k % 32, k % 32);
    WithoutTest(b[k / 32], OneHot(k % 32), OneHot(pos % 32));
  }

  /** Adds an interval of positions to a bitmap. */
  method SetBitInBitmap(bitmap: array<bv32>, start: nat, num: nat)
    requires start + num <= 32 * bitmap.Length
    modifies bitmap
    ensures forall pos: nat | pos < 32 * bitmap.Length ::
      CheckBit(bitmap[..], pos) <==> CheckBit(old(bitmap[..]), pos) || start <= pos < start + num
  {
    hide CheckBit, Join, OneHot;
    for i := start to start + num
      invariant forall pos: nat | pos < 32 * bitmap.Length ::
        CheckBit(bitmap[..], pos) <==> CheckBit(old(bitmap[..]), pos) || start <= pos < i
    {
      ghost var b := bitmap[..];
      bitmap[i / 32] := Join(bitmap[i / 32], OneHot(i % 32));
      assert bitmap[..] == b[i / 32 := Join(b[i / 32], OneHot(i % 32))];
      forall pos: nat | pos < 32 * bitmap.Length
        ensures CheckBit(bitmap[..], pos) <==> CheckBit(b, pos) || pos == i
      {
        SetOne(b, i, pos);
      }
    }
  }

  /** Removes an interval of positions from a bitmap. */
  method ClrBitInBitmap(bitmap: array<bv32>, start: nat, num: nat)
    requires start + num <= 32 * bitmap.Length
    modifies bitmap
    ensures forall pos: nat | pos < 32 * bitmap.Length ::
      CheckBit(bitmap[..], pos) <==> CheckBit(old(bitmap[..]), pos) && !(start <= pos < start + num)
  {
    hide CheckBit, Without, OneHot;
    for i := start to start + num
      invariant forall pos: nat | pos < 32 * bitmap.Length ::
        CheckBit(bitmap[..], pos) <==> CheckBit(old(bitmap[..]), pos) && !(start <= pos < i)
    {
      ghost var b := bitmap[..];
      bitmap[i / 32] := Without(bitmap[i / 32], OneHot(i % 32));
      assert bitmap[..] == b[i / 32 := Without(b[i / 32], OneHot(i % 32))];
      forall pos: nat | pos < 32 * bitmap.Length
        ensures CheckBit(bitmap[..], pos) <==> CheckBit(b, pos) && pos != i
      {
        ClearOne(b, i, pos);
      }
    }
  }
}
