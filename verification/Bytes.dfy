/** Little-endian fields in byte buffers. */
module Bytes {
  import opened Arithmetic
  import opened Registers

  type u8 = x: int | 0 <= x < 256

  function Pow256(k: nat): (p: nat)
    ensures p > 0
  {
    if k == 0 then 1 else 256 * Pow256(k - 1)
  }

  /** The lowest `k` base-256 digits of `n`, least significant first. */
  function Digits(n: nat, k: nat): (d: seq<u8>)
    ensures |d| == k
  {
    if k == 0 then [] else [n % 256] + Digits(n / 256, k - 1)
  }

  function Num(d: seq<u8>): nat {
    if d == [] then 0 else d[0] + 256 * Num(d[1..])
  }

  lemma {:induction false} NumBound(d: seq<u8>)
    ensures Num(d) < Pow256(|d|)
  {
    if d != [] {
      NumBound(d[1..]);
    }
  }

  lemma ModStep(n: nat, p: nat)
    requires p > 0
    ensures n % (256 * p) == n % 256 + 256 * (n / 256 % p)
  {
    var a, b, r := n / 256 / p, n / 256 % p, n % 256;
    assert n / 256 == p * a + b;
    assert 256 * (p * a) == a * (256 * p);
    DivideIs(n, 256 * p, a, 256 * b + r);
  }

  /** Storing a number in `k` bytes and reading it back keeps it modulo 256^k. */
  lemma {:induction false} NumDigits(n: nat, k: nat)
    ensures Num(Digits(n, k)) == n % Pow256(k)
  {
    if k > 0 {
      assert Digits(n, k)[1..] == Digits(n / 256, k - 1);
      NumDigits(n / 256, k - 1);
      ModStep(n, Pow256(k - 1));
    }
  }

  lemma Fits(n: nat, k: nat)
    requires n < Pow256(k)
    ensures Num(Digits(n, k)) == n
  {
    NumDigits(n, k);
    DivideIs(n, Pow256(k), 0, n);
  }

  lemma Sizes()
    ensures Pow256(1) == 0x100 && Pow256(4) == 0x1_0000_0000 && Pow256(8) == 0x1_0000_0000_0000_0000
  {
  }

  /** The number stored in `k` bytes from `at` on. */
  function Field(b: seq<u8>, at: nat, k: nat): nat
    requires at + k <= |b|
  {
    Num(b[at..at + k])
  }

  /** A 32-bit word stored at `at`. */
  function WordAt(b: seq<u8>, at: nat): Word
    requires at + 4 <= |b|
  {
    NumBound(b[at..at + 4]);
    Sizes();
    Field(b, at, 4) as Word
  }

  /** Everything but the `k` bytes from `at` on is as it was. */
  twostate predicate Elsewhere(buf: array<u8>, at: nat, k: nat)
    reads buf
  {
    forall lo, hi | 0 <= lo <= hi <= buf.Length && (hi <= at || at + k <= lo) :: buf[lo..hi] == old(buf[lo..hi])
  }

  method Put(buf: array<u8>, at: nat, k: nat, n: nat)
    requires at + k <= buf.Length
    modifies buf
    ensures Elsewhere(buf, at, k)
    ensures buf[at..at + k] == Digits(n, k)
  {
    var rest := n;
    for i := 0 to k
      invariant buf[at..at + i] + Digits(rest, k - i) == Digits(n, k)
      invariant forall j | 0 <= j < at || at + k <= j < buf.Length :: buf[j] == old(buf[j])
    {
      ghost var done := buf[at..at + i];
      buf[at + i] := rest % 256;
      assert buf[at..at + i + 1] == done + [rest % 256];
      assert done + Digits(rest, k - i) == done + [rest % 256] + Digits(rest / 256, k - i - 1);
      rest := rest / 256;
    }
  }

  method PutWord(buf: array<u8>, at: nat, w: Word)
    requires at + 4 <= buf.Length
    modifies buf
    ensures Elsewhere(buf, at, 4)
    ensures WordAt(buf[..], at) == w
  {
    Put(buf, at, 4, w as nat);
    Sizes();
    Fits(w as nat, 4);
    assert buf[..][at..at + 4] == buf[at..at + 4];
  }
}
