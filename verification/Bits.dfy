// Shifts and masks on machine words, as operations on strings of bits.
//
// The other modules write `x >> k` as a quotient and `x & (2^k - 1)` as a remainder of unsigned
// numbers. This module justifies that reading for every word length: a word is its bits, least
// significant first; a right shift drops bits, a mask keeps them, complement flips them.
module Bits {

  type bits = seq<bool>

  function Pow2(n: nat): (r: nat)
    ensures r > 0
  {
    if n == 0 then 1 else 2 * Pow2(n - 1)
  }

  /** The unsigned number that a string of bits stands for. */
  function Number(b: bits): nat {
    if b == [] then 0 else (if b[0] then 1 else 0) + 2 * Number(b[1..])
  }

  function Zeros(n: nat): bits {
    seq(n, _ => false)
  }

  /** `b >> k` in a register that keeps its width. */
  function ShiftRight(b: bits, k: nat): bits
    requires k <= |b|
  {
    b[k..] + Zeros(k)
  }

  /** `b << k` in a register that keeps its width: the top `k` bits fall off. */
  function ShiftLeft(b: bits, k: nat): bits
    requires k <= |b|
  {
    Zeros(k) + b[..|b| - k]
  }

  /** `b & (2^k - 1)`. */
  function LowMask(b: bits, k: nat): bits
    requires k <= |b|
  {
    b[..k] + Zeros(|b| - k)
  }

  /** `~b`. */
  function Complement(b: bits): bits {
    seq(|b|, i requires 0 <= i < |b| => !b[i])
  }

  lemma {:induction false} NumberOfZeros(n: nat)
    ensures Number(Zeros(n)) == 0
  {
    if n > 0 {
      assert Zeros(n)[1..] == Zeros(n - 1);
      NumberOfZeros(n - 1);
    }
  }

  lemma {:induction false} NumberOfConcat(a: bits, b: bits)
    ensures Number(a + b) == Number(a) + Pow2(|a|) * Number(b)
  {
    if a == [] {
      assert a + b == b;
    } else {
      assert (a + b)[1..] == a[1..] + b;
      NumberOfConcat(a[1..], b);
      Double(Pow2(|a| - 1), Number(b));
    }
  }

  lemma {:induction false} Double(p: nat, n: nat)
    ensures 2 * p * n == 2 * (p * n)
  {
  }

  lemma {:induction false} NumberBound(b: bits)
    ensures Number(b) < Pow2(|b|)
  {
    if b != [] {
      NumberBound(b[1..]);
    }
  }

  lemma {:induction false} MultiplesAreApart(m: nat, x: nat, y: nat)
    ensures x < y ==> m * x + m <= m * y
  {
    if x < y {
      MultiplesAreApart(m, x, y - 1);
      assert m * y == m * (y - 1) + m;
    }
  }

  /** A remainder below `m` plus a multiple of `m` splits only one way. */
  lemma {:induction false} Split(n: nat, low: nat, high: nat, m: nat)
    requires low < m && n == low + m * high
    ensures n / m == high && n % m == low
  {
    var q := n / m;
    assert n == m * q + n % m;
    MultiplesAreApart(m, q, high);
    MultiplesAreApart(m, high, q);
  }

  /** A right shift divides and a low mask takes the remainder. */
  lemma {:induction false} ShiftAndMask(b: bits, k: nat)
    requires k <= |b|
    ensures Number(ShiftRight(b, k)) == Number(b) / Pow2(k)
    ensures Number(LowMask(b, k)) == Number(b) % Pow2(k)
  {
    hide Pow2;
    var low, high := b[..k], b[k..];
    assert Number(b) == Number(low) + Pow2(k) * Number(high) by {
      assert b == low + high;
      NumberOfConcat(low, high);
    }
    ConcatZeros(high, k);
    ConcatZeros(low, |b| - k);
    NumberBound(low);
    Split(Number(b), Number(low), Number(high), Pow2(k));
  }

  lemma {:induction false} ConcatZeros(b: bits, n: nat)
    ensures Number(b + Zeros(n)) == Number(b)
  {
    NumberOfConcat(b, Zeros(n));
    NumberOfZeros(n);
  }

  /** A left shift multiplies, modulo the width of the register. */
  lemma {:induction false} ShiftLeftMultiplies(b: bits, k: nat)
    requires k <= |b|
    ensures Number(ShiftLeft(b, k)) == Number(b) * Pow2(k) % Pow2(|b|)
  {
    var low, high := ShiftLeftParts(b, k);
    Overflow(low, high, Pow2(k), Pow2(|b| - k));
  }

  lemma {:induction false} ShiftLeftParts(b: bits, k: nat) returns (low: nat, high: nat)
    requires k <= |b|
    ensures Number(b) == low + Pow2(|b| - k) * high
    ensures Number(ShiftLeft(b, k)) == Pow2(k) * low < Pow2(k) * Pow2(|b| - k) == Pow2(|b|)
  {
    var keep := b[..|b| - k];
    low, high := Number(keep), Number(b[|b| - k..]);
    assert b == keep + b[|b| - k..];
    NumberOfConcat(keep, b[|b| - k..]);
    assert Number(ShiftLeft(b, k)) == Pow2(k) * low by {
      NumberOfConcat(Zeros(k), keep);
      NumberOfZeros(k);
    }
    NumberBound(ShiftLeft(b, k));
    PowersAdd(k, |b| - k);
  }

  lemma {:induction false} Overflow(low: nat, high: nat, p: nat, q: nat)
    requires p * low < p * q
    ensures (low + q * high) * p % (p * q) == p * low
  {
    assert (low + q * high) * p == p * low + (p * q) * high;
    Split((low + q * high) * p, p * low, high, p * q);
  }

  lemma {:induction false} PowersAdd(a: nat, b: nat)
    ensures Pow2(a) * Pow2(b) == Pow2(a + b)
  {
    if a > 0 {
      PowersAdd(a - 1, b);
      Double(Pow2(a - 1), Pow2(b));
    }
  }

  /** Complement subtracts from all ones. */
  lemma {:induction false} ComplementSubtracts(b: bits)
    ensures Number(Complement(b)) == Pow2(|b|) - 1 - Number(b)
  {
    if b != [] {
      assert Complement(b)[1..] == Complement(b[1..]);
      ComplementSubtracts(b[1..]);
    }
  }
}
