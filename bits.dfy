/**
 * Bit-serial helpers shared by the SPI test benches: a word is sent most
 * significant bit first as `(w >> k) & 1` for k = n - 1 down to 0, and a
 * receiver rebuilds it with `out = (out << 1) | bit`.
 */
module Bits {
  import opened Arith

  function Pow2(n: nat): (p: nat)
    ensures p > 0
  {
    if n == 0 then 1 else 2 * Pow2(n - 1)
  }

  /** `(w >> k) & 1`: w shifted right k places (floor halving, as on an unbounded integer), lowest bit. */
  function Bit(w: int, k: nat): (b: int)
    ensures b == 0 || b == 1
    decreases k
  {
    if k == 0 then w % 2 else Bit(w / 2, k - 1)
  }

  /** The n lowest bits of w, most significant first. */
  function MsbBits(w: int, n: nat): (bits: seq<int>)
    ensures |bits| == n
  {
    seq(n, i requires 0 <= i < n => Bit(w, n - 1 - i))
  }

  /** The value a receiver accumulates with `out = (out << 1) | bit` from out = 0. */
  function ShiftIn(bits: seq<int>): int {
    if bits == [] then 0 else 2 * ShiftIn(bits[..|bits| - 1]) + bits[|bits| - 1]
  }

  predicate IsBits(bits: seq<int>) {
    forall i :: 0 <= i < |bits| ==> bits[i] == 0 || bits[i] == 1
  }

  /** A line sampled as a boolean becomes the bit 1 when high, 0 when low. */
  function BitsOf(levels: seq<bool>): (bits: seq<int>)
    ensures |bits| == |levels|
  {
    seq(|levels|, i requires 0 <= i < |levels| => if levels[i] then 1 else 0)
  }

  /** The sampled bits are bits, 1 exactly where the line was high. */
  lemma BitsOfLevels(levels: seq<bool>)
    ensures IsBits(BitsOf(levels))
    ensures forall i :: 0 <= i < |levels| ==> (BitsOf(levels)[i] == 1 <==> levels[i])
  {
  }

  /** 2^(a + b) = 2^a * 2^b. */
  lemma {:induction false} Pow2Add(a: nat, b: nat)
    ensures Pow2(a + b) == Pow2(a) * Pow2(b)
    decreases b
  {
    if b > 0 {
      Pow2Add(a, b - 1);
      assert Pow2(a) * Pow2(b) == 2 * (Pow2(a) * Pow2(b - 1));
    }
  }

  lemma Pow2Bytes()
    ensures Pow2(4) == 0x10 && Pow2(8) == 0x100 && Pow2(16) == 0x10000
  {
    assert Pow2(4) == 0x10;
    Pow2Add(4, 4);
    Pow2Add(8, 8);
  }

  /** n received bits make a value below 2^n. */
  lemma {:induction false} ShiftInRange(bits: seq<int>)
    requires IsBits(bits)
    ensures 0 <= ShiftIn(bits) < Pow2(|bits|)
  {
    if bits != [] {
      ShiftInRange(bits[..|bits| - 1]);
    }
  }

  /** Receiving a then b is receiving a, shifted up by |b| places, plus b. */
  lemma {:induction false} ShiftInAppend(a: seq<int>, b: seq<int>)
    ensures ShiftIn(a + b) == ShiftIn(a) * Pow2(|b|) + ShiftIn(b)
  {
    if b == [] {
      assert a + b == a;
    } else {
      var n := |b| - 1;
      assert (a + b)[..|a + b| - 1] == a + b[..n];
      assert (a + b)[|a + b| - 1] == b[n];
      ShiftInAppend(a, b[..n]);
      assert ShiftIn(a) * Pow2(n + 1) == 2 * (ShiftIn(a) * Pow2(n));
    }
  }

  /** The n lowest bits of w, sent MSB first and shifted in, rebuild w modulo 2^n. */
  lemma {:induction false} ShiftInMsbBits(w: int, n: nat)
    ensures ShiftIn(MsbBits(w, n)) == w % Pow2(n)
    decreases n
  {
    if n > 0 {
      var bits := MsbBits(w, n);
      assert bits[..n - 1] == MsbBits(w / 2, n - 1) by {
        forall i | 0 <= i < n - 1
          ensures bits[i] == Bit(w / 2, n - 2 - i)
        {
          assert bits[i] == Bit(w, n - 1 - i);
        }
      }
      assert bits[n - 1] == Bit(w, 0) == w % 2;
      ShiftInMsbBits(w / 2, n - 1);
      var p := Pow2(n - 1);
      var q, r := (w / 2) / p, (w / 2) % p;
      assert w == 2 * (w / 2) + w % 2;
      assert w == q * (2 * p) + (2 * r + w % 2);
      DivMod(w, 2 * p, q, 2 * r + w % 2);
    }
  }

  /** Sending a word that fits in n bits and shifting it back in yields the word. */
  lemma MsbBitsRoundTrip(w: int, n: nat)
    requires 0 <= w < Pow2(n)
    ensures ShiftIn(MsbBits(w, n)) == w
  {
    ShiftInMsbBits(w, n);
    DivMod(w, Pow2(n), 0, w);
  }

  /** Sent bits are bits. */
  lemma MsbBitsAreBits(w: int, n: nat)
    ensures IsBits(MsbBits(w, n))
  {
    var bits := MsbBits(w, n);
    forall i | 0 <= i < n
      ensures bits[i] == 0 || bits[i] == 1
    {
      assert bits[i] == Bit(w, n - 1 - i);
    }
  }

  /** One more sample shifts the accumulated value up and adds the new bit. */
  lemma ShiftInSample(levels: seq<bool>, k: nat)
    requires k < |levels|
    ensures ShiftIn(BitsOf(levels[..k + 1])) == 2 * ShiftIn(BitsOf(levels[..k])) + (if levels[k] then 1 else 0)
  {
    assert BitsOf(levels[..k + 1])[..k] == BitsOf(levels[..k]);
    assert BitsOf(levels[..k + 1])[k] == if levels[k] then 1 else 0;
  }
}
