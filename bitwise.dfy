/**
 * Bitwise operators of the golden models on non-negative integers, as
 * Python evaluates them: `a | b`, `a ^ b` and `a & b` bit by bit from the
 * lowest, `(w >> k) & 1` as `Bit(w, k)` and `b << k` as `b * 2^k`.  A word is
 * also read as the sequence of its bits, lowest first.
 */
module Bitwise {
  import opened Arith
  import opened Bits

  /** `a | b`. */
  function Or(a: nat, b: nat): (r: nat)
    decreases a + b
  {
    if a == 0 then b
    else if b == 0 then a
    else 2 * Or(a / 2, b / 2) + (if a % 2 == 1 || b % 2 == 1 then 1 else 0)
  }

  /** `a ^ b`. */
  function Xor(a: nat, b: nat): (r: nat)
    ensures a <= 1 && b <= 1 ==> r == if a == b then 0 else 1
    decreases a + b
  {
    if a == 0 then b
    else if b == 0 then a
    else 2 * Xor(a / 2, b / 2) + (if a % 2 == b % 2 then 0 else 1)
  }

  /** `a & b`. */
  function And(a: nat, b: nat): (r: nat)
    ensures a <= 1 && b <= 1 ==> r == if a == 1 && b == 1 then 1 else 0
    decreases a + b
  {
    if a == 0 || b == 0 then 0
    else 2 * And(a / 2, b / 2) + (if a % 2 == 1 && b % 2 == 1 then 1 else 0)
  }

  /** The number whose bit k is bits[k], lowest bit first. */
  function Word(bits: seq<int>): int {
    if bits == [] then 0 else bits[0] + 2 * Word(bits[1..])
  }

  lemma {:induction false} BitZero(k: nat)
    ensures Bit(0, k) == 0
  {
    if k > 0 {
      BitZero(k - 1);
    }
  }

  /** Bit k of a ^ b is the xor of the bits k of a and b. */
  lemma {:induction false} BitXor(a: nat, b: nat, k: nat)
    ensures Bit(Xor(a, b), k) == Xor(Bit(a, k), Bit(b, k))
    decreases k
  {
    if a == 0 {
      BitZero(k);
    } else if b == 0 {
      BitZero(k);
    } else if k > 0 {
      var x := Xor(a / 2, b / 2);
      assert (2 * x + (if a % 2 == b % 2 then 0 else 1)) / 2 == x;
      BitXor(a / 2, b / 2, k - 1);
    }
  }

  /** A value below 2^n xor another stays below 2^n. */
  lemma {:induction false} XorBelow(a: nat, b: nat, n: nat)
    requires a < Pow2(n) && b < Pow2(n)
    ensures Xor(a, b) < Pow2(n)
    decreases n
  {
    if a != 0 && b != 0 {
      XorBelow(a / 2, b / 2, n - 1);
    }
  }

  /** Or-ing in a single bit at a position where a is clear adds it. */
  lemma {:induction false} OrSetsBit(a: nat, p: nat, b: nat)
    requires b <= 1 && Bit(a, p) == 0
    ensures Or(a, b * Pow2(p)) == a + b * Pow2(p)
    decreases p
  {
    if b == 1 && a != 0 && p > 0 {
      assert Pow2(p) / 2 == Pow2(p - 1) && Pow2(p) % 2 == 0;
      OrSetsBit(a / 2, p - 1, 1);
    }
  }

  /** Bit k of a word is its k-th element, and 0 beyond its length. */
  lemma {:induction false} WordBit(bits: seq<int>, k: nat)
    requires IsBits(bits)
    ensures Bit(Word(bits), k) == if k < |bits| then bits[k] else 0
    decreases bits
  {
    if bits == [] {
      BitZero(k);
    } else {
      var w := Word(bits[1..]);
      assert (bits[0] + 2 * w) % 2 == bits[0] && (bits[0] + 2 * w) / 2 == w;
      if k > 0 {
        WordBit(bits[1..], k - 1);
      }
    }
  }

  /** A word of zeros is 0. */
  lemma {:induction false} ZeroWord(bits: seq<int>)
    requires forall k :: 0 <= k < |bits| ==> bits[k] == 0
    ensures Word(bits) == 0
    decreases bits
  {
    if bits != [] {
      ZeroWord(bits[1..]);
    }
  }

  /** n bits make a value below 2^n. */
  lemma {:induction false} WordRange(bits: seq<int>)
    requires IsBits(bits)
    ensures 0 <= Word(bits) < Pow2(|bits|)
    decreases bits
  {
    if bits != [] {
      WordRange(bits[1..]);
    }
  }

  /** Setting a clear element p of the bits to b adds b * 2^p to the word. */
  lemma {:induction false} WordUpdate(bits: seq<int>, p: nat, b: int)
    requires IsBits(bits) && p < |bits| && bits[p] == 0 && (b == 0 || b == 1)
    ensures Word(bits[p := b]) == Word(bits) + b * Pow2(p)
    decreases p
  {
    if p == 0 {
      assert bits[p := b][1..] == bits[1..];
    } else {
      assert bits[p := b][1..] == bits[1..][p - 1 := b];
      WordUpdate(bits[1..], p - 1, b);
      if b == 1 {
        assert Pow2(p) == 2 * Pow2(p - 1);
      }
    }
  }

  /** `acc | (b << p)` on an accumulator holding the bits, where bit p is still clear. */
  lemma SetBit(bits: seq<int>, p: nat, b: int)
    requires IsBits(bits) && p < |bits| && bits[p] == 0 && (b == 0 || b == 1)
    ensures Word(bits) >= 0 && Or(Word(bits), b * Pow2(p)) == Word(bits[p := b])
  {
    WordRange(bits);
    WordBit(bits, p);
    OrSetsBit(Word(bits), p, b);
    WordUpdate(bits, p, b);
  }

  /** Two values below 2^n with the same n bits are equal. */
  lemma {:induction false} BitsDetermine(a: nat, b: nat, n: nat)
    requires a < Pow2(n) && b < Pow2(n)
    requires forall k: nat :: k < n ==> Bit(a, k) == Bit(b, k)
    ensures a == b
    decreases n
  {
    if n > 0 {
      assert Bit(a, 0) == Bit(b, 0);
      forall k: nat | k < n - 1
        ensures Bit(a / 2, k) == Bit(b / 2, k)
      {
        assert Bit(a, k + 1) == Bit(b, k + 1);
      }
      BitsDetermine(a / 2, b / 2, n - 1);
    }
  }

  /** `a & (2^n - 1)`, written a % 2^n, keeps the n low bits and clears the rest. */
  lemma {:induction false} BitMod(a: int, n: nat, k: nat)
    ensures Bit(a % Pow2(n), k) == if k < n then Bit(a, k) else 0
    decreases n
  {
    if n == 0 {
      assert a % 1 == 0;
      BitZero(k);
    } else {
      var p := Pow2(n - 1);
      var q, r := a / (2 * p), a % (2 * p);
      assert a == (q * p + r / 2) * 2 + r % 2 by {
        assert a == q * (2 * p) + r;
        assert q * (2 * p) == (q * p) * 2;
      }
      DivMod(a, 2, q * p + r / 2, r % 2);
      QuotientBelow(r, 2, p);
      DivMod(a / 2, p, q, r / 2);
      if k > 0 {
        assert r / 2 == (a / 2) % p;
        BitMod(a / 2, n - 1, k - 1);
      }
    }
  }
}
