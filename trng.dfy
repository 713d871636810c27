/**
 * The golden model of the true random number generator: a 25-bit state is
 * mixed with 10 sensor bits and put through one Keccak-style round on a
 * single 25-bit lane (theta, pi, chi, bit i being `(s >> i) & 1`), and the
 * new state is scaled to an output in [0, MAX).
 *
 * Each step of the round is specified by the bits it produces, collected into
 * a word with `Word`; the loops are proved to build exactly those words.
 */
module Trng {
  import opened Arith
  import opened Bits
  import opened Bitwise

  const Lane: nat := 25
  const InitialState: nat := 0x1234567

  lemma Pow2Lane()
    ensures Pow2(10) == 0x400 && Pow2(25) == 0x2000000
  {
    Pow2Bytes();
    Pow2Add(8, 2);
    Pow2Add(16, 8);
    Pow2Add(24, 1);
  }

  // ---------------------------------------------------------------------------
  // Theta: every bit is xor-ed with the bits 5 and 20 places further round the lane.
  // ---------------------------------------------------------------------------

  function ThetaBit(s: nat, i: nat): (b: nat)
    ensures b <= 1
  {
    Xor(Xor(Bit(s, i), Bit(s, (i + 5) % Lane)), Bit(s, (i + 20) % Lane))
  }

  /** The bits of theta at positions below n, zeros above. */
  function ThetaUpTo(s: nat, n: nat): (bits: seq<int>)
    ensures |bits| == Lane && IsBits(bits)
  {
    seq(Lane, j requires 0 <= j < Lane => if j < n then ThetaBit(s, j) else 0)
  }

  function ThetaWord(s: nat): nat {
    WordRange(ThetaUpTo(s, Lane));
    Word(ThetaUpTo(s, Lane))
  }

  /** The theta loop: or each computed bit into the accumulator at its own position. */
  method Theta(s: nat) returns (theta: nat)
    ensures theta == ThetaWord(s)
  {
    theta := 0;
    ZeroWord(ThetaUpTo(s, 0));
    for i := 0 to Lane
      invariant theta == Word(ThetaUpTo(s, i))
    {
      var bit_i := Bit(s, i);
      var bit_5 := Bit(s, (i + 5) % 25);
      var bit_20 := Bit(s, (i + 20) % 25);
      var resTheta := Xor(Xor(bit_i, bit_5), bit_20);
      SetBit(ThetaUpTo(s, i), i, resTheta);
      assert ThetaUpTo(s, i)[i := resTheta] == ThetaUpTo(s, i + 1);
      theta := Or(theta, resTheta * Pow2(i));
    }
  }

  /** Bit i of theta(s) is s[i] ^ s[(i + 5) % 25] ^ s[(i + 20) % 25]. */
  lemma ThetaWordBit(s: nat, i: nat)
    ensures Bit(ThetaWord(s), i) == if i < Lane then ThetaBit(s, i) else 0
  {
    WordBit(ThetaUpTo(s, Lane), i);
  }

  // ---------------------------------------------------------------------------
  // Pi: bit i moves to position 7 i mod 25.
  // ---------------------------------------------------------------------------

  function PiDest(i: nat): (j: nat)
    ensures j < Lane
  {
    (i * 7) % Lane
  }

  /** The position pi moves to j: 18 j mod 25, as 7 * 18 = 126 = 1 mod 25. */
  function PiSource(j: nat): (i: nat)
    ensures i < Lane
  {
    (j * 18) % Lane
  }

  /** (a * (b mod m)) mod m == (a * b) mod m. */
  lemma MulMod(a: nat, b: nat, m: nat)
    requires m > 0
    ensures (a * (b % m)) % m == (a * b) % m
  {
    var q, r := b / m, b % m;
    assert a * b == (a * q) * m + a * r;
    var t, u := (a * r) / m, (a * r) % m;
    assert a * b == (a * q + t) * m + u;
    DivMod(a * b, m, a * q + t, u);
  }

  /** Pi and its inverse undo each other on the 25 positions. */
  lemma PiInverse(i: nat)
    requires i < Lane
    ensures PiSource(PiDest(i)) == i && PiDest(PiSource(i)) == i
  {
    MulMod(18, i * 7, Lane);
    MulMod(7, i * 18, Lane);
    assert 18 * (i * 7) == i + (5 * i) * 25;
    assert 7 * (i * 18) == i + (5 * i) * 25;
    DivMod(i + (5 * i) * 25, Lane, 5 * i, i);
  }

  /** The bits pi has placed after moving the bits below n, zeros elsewhere. */
  function PiUpTo(t: nat, n: nat): (bits: seq<int>)
    ensures |bits| == Lane && IsBits(bits)
  {
    seq(Lane, j requires 0 <= j < Lane => if PiSource(j) < n then Bit(t, PiSource(j)) else 0)
  }

  function PiWord(t: nat): nat {
    WordRange(PiUpTo(t, Lane));
    Word(PiUpTo(t, Lane))
  }

  /** Moving bit n to its place turns the first n moves into the first n + 1. */
  lemma PiStep(t: nat, n: nat)
    requires n < Lane
    ensures PiUpTo(t, n)[PiDest(n)] == 0
    ensures PiUpTo(t, n)[PiDest(n) := Bit(t, n)] == PiUpTo(t, n + 1)
  {
    PiInverse(n);
    var moved, next := PiUpTo(t, n)[PiDest(n) := Bit(t, n)], PiUpTo(t, n + 1);
    forall j | 0 <= j < Lane
      ensures moved[j] == next[j]
    {
      PiInverse(j);
    }
  }

  /** The pi loop: or each bit of theta into the accumulator at its new position. */
  method Pi(theta: nat) returns (pi: nat)
    ensures pi == PiWord(theta)
  {
    pi := 0;
    ZeroWord(PiUpTo(theta, 0));
    for i := 0 to Lane
      invariant pi == Word(PiUpTo(theta, i))
    {
      var bitTheta := Bit(theta, i);
      var newPos := (i * 7) % 25;
      PiStep(theta, i);
      SetBit(PiUpTo(theta, i), newPos, bitTheta);
      pi := Or(pi, bitTheta * Pow2(newPos));
    }
  }

  /** Pi puts bit i of its input at position 7 i mod 25. */
  lemma PiWordBit(t: nat, i: nat)
    requires i < Lane
    ensures Bit(PiWord(t), PiDest(i)) == Bit(t, i)
  {
    WordBit(PiUpTo(t, Lane), PiDest(i));
    PiInverse(i);
  }

  // ---------------------------------------------------------------------------
  // Chi: every bit is xor-ed with (not the next bit) and the bit after that.
  // ---------------------------------------------------------------------------

  function ChiBit(p: nat, i: nat): (b: nat)
    ensures b <= 1
  {
    Xor(Bit(p, i), And(Xor(Bit(p, (i + 1) % Lane), 1), Bit(p, (i + 2) % Lane)))
  }

  function ChiUpTo(p: nat, n: nat): (bits: seq<int>)
    ensures |bits| == Lane && IsBits(bits)
  {
    seq(Lane, j requires 0 <= j < Lane => if j < n then ChiBit(p, j) else 0)
  }

  function ChiWord(p: nat): nat {
    WordRange(ChiUpTo(p, Lane));
    Word(ChiUpTo(p, Lane))
  }

  /** The chi loop. */
  method Chi(pi: nat) returns (chi: nat)
    ensures chi == ChiWord(pi)
  {
    chi := 0;
    ZeroWord(ChiUpTo(pi, 0));
    for i := 0 to Lane
      invariant chi == Word(ChiUpTo(pi, i))
    {
      var currBit := Bit(pi, i);
      var nextBit := Bit(pi, (i + 1) % 25);
      var next2Bit := Bit(pi, (i + 2) % 25);
      var resChi := Xor(currBit, And(Xor(nextBit, 1), next2Bit));
      SetBit(ChiUpTo(pi, i), i, resChi);
      assert ChiUpTo(pi, i)[i := resChi] == ChiUpTo(pi, i + 1);
      chi := Or(chi, resChi * Pow2(i));
    }
  }

  /** Bit i of chi(p) is p[i] ^ (~p[(i + 1) % 25] & p[(i + 2) % 25]). */
  lemma ChiWordBit(p: nat, i: nat)
    ensures Bit(ChiWord(p), i) == if i < Lane then ChiBit(p, i) else 0
  {
    WordBit(ChiUpTo(p, Lane), i);
  }

  // ---------------------------------------------------------------------------
  // The round.
  // ---------------------------------------------------------------------------

  function RoundWord(s: nat): nat {
    ChiWord(PiWord(ThetaWord(s)))
  }

  /** Every word built from the lane's 25 bits lies below 2^25. */
  lemma LaneWordBelow(bits: seq<int>)
    requires |bits| == Lane && IsBits(bits)
    ensures 0 <= Word(bits) < 0x2000000
  {
    WordRange(bits);
    Pow2Lane();
  }

  /** One round: theta, pi, chi, then the 25-bit mask `& 0x1FFFFFF`. */
  method KeccakRound(s: nat) returns (r: nat)
    ensures r == RoundWord(s)
    ensures r < 0x2000000
  {
    var theta := Theta(s);
    var pi := Pi(theta);
    var chi := Chi(pi);
    LaneWordBelow(ChiUpTo(pi, Lane));
    DivMod(chi, 0x2000000, 0, chi);
    r := chi % 0x2000000;
  }

  /** The round reads only the 25 low bits of its input. */
  lemma RoundReadsLow25(s: nat)
    ensures RoundWord(s % 0x2000000) == RoundWord(s)
  {
    Pow2Lane();
    forall i: nat | i < Lane
      ensures Bit(s % 0x2000000, i) == Bit(s, i)
    {
      BitMod(s, 25, i);
    }
    assert ThetaUpTo(s % 0x2000000, Lane) == ThetaUpTo(s, Lane);
  }

  /** Theta is linear over xor: theta(s ^ t) == theta(s) ^ theta(t). */
  lemma ThetaLinear(s: nat, t: nat)
    ensures ThetaWord(Xor(s, t)) == Xor(ThetaWord(s), ThetaWord(t))
  {
    Pow2Lane();
    LaneWordBelow(ThetaUpTo(Xor(s, t), Lane));
    LaneWordBelow(ThetaUpTo(s, Lane));
    LaneWordBelow(ThetaUpTo(t, Lane));
    XorBelow(ThetaWord(s), ThetaWord(t), Lane);
    forall k: nat | k < Lane
      ensures Bit(ThetaWord(Xor(s, t)), k) == Bit(Xor(ThetaWord(s), ThetaWord(t)), k)
    {
      ThetaWordBit(Xor(s, t), k);
      ThetaWordBit(s, k);
      ThetaWordBit(t, k);
      BitXor(ThetaWord(s), ThetaWord(t), k);
      ThetaBitLinear(s, t, k);
    }
    BitsDetermine(ThetaWord(Xor(s, t)), Xor(ThetaWord(s), ThetaWord(t)), Lane);
  }

  /** One theta bit of s ^ t is the xor of the theta bits of s and t. */
  lemma ThetaBitLinear(s: nat, t: nat, k: nat)
    ensures ThetaBit(Xor(s, t), k) == Xor(ThetaBit(s, k), ThetaBit(t, k))
  {
    BitXor(s, t, k);
    BitXor(s, t, (k + 5) % Lane);
    BitXor(s, t, (k + 20) % Lane);
  }

  // ---------------------------------------------------------------------------
  // Pi keeps the number of set bits.
  // ---------------------------------------------------------------------------

  /** The positions of the set bits among the 25. */
  function Ones(x: nat): set<nat> {
    set j: nat | j < Lane && Bit(x, j) == 1
  }

  function PiImage(positions: set<nat>): set<nat> {
    set i | i in positions :: PiDest(i)
  }

  /** Pi maps a set of lane positions onto a set of the same size, being injective. */
  lemma {:induction false} PiImageSize(positions: set<nat>)
    requires forall i :: i in positions ==> i < Lane
    ensures |PiImage(positions)| == |positions|
    decreases |positions|
  {
    if positions != {} {
      var i :| i in positions;
      var rest := positions - {i};
      PiImageSize(rest);
      assert PiImage(positions) == PiImage(rest) + {PiDest(i)};
      assert PiDest(i) !in PiImage(rest) by {
        forall k | k in rest
          ensures PiDest(k) != PiDest(i)
        {
          PiInverse(k);
          PiInverse(i);
        }
      }
    }
  }

  /** The set bits of pi(t) are the images of the set bits of t, so there are as many. */
  lemma PiKeepsPopcount(t: nat)
    ensures Ones(PiWord(t)) == PiImage(Ones(t))
    ensures |Ones(PiWord(t))| == |Ones(t)|
  {
    forall j | j in Ones(PiWord(t))
      ensures j in PiImage(Ones(t))
    {
      PiInverse(j);
      PiWordBit(t, PiSource(j));
    }
    forall i | i in Ones(t)
      ensures PiDest(i) in Ones(PiWord(t))
    {
      PiWordBit(t, i);
    }
    PiImageSize(Ones(t));
  }

  // ---------------------------------------------------------------------------
  // The tester object.
  // ---------------------------------------------------------------------------

  /** `(state ^ ((0 << 15) | (sensorIn & 0x3FF))) & 0x1FFFFFF`. */
  function Mix(state: nat, sensorIn: int): nat {
    Xor(state, sensorIn % 0x400) % 0x2000000
  }

  /** Mixing flips only the 10 low bits, by the sensor's bits, and keeps 25 bits. */
  lemma MixBits(state: nat, sensorIn: int, k: nat)
    ensures Mix(state, sensorIn) < 0x2000000
    ensures Bit(Mix(state, sensorIn), k) ==
      if k < 10 then Xor(Bit(state, k), Bit(sensorIn, k))
      else if k < Lane then Bit(state, k)
      else 0
  {
    Pow2Lane();
    BitMod(Xor(state, sensorIn % 0x400), 25, k);
    BitXor(state, sensorIn % 0x400, k);
    BitMod(sensorIn, 10, k);
  }

  /** `(state * max) >> 25`: the state scaled from [0, 2^25) to [0, max). */
  function Scale(state: nat, max: nat): int {
    (state * max) / 0x2000000
  }

  lemma ScaleBelow(state: nat, max: nat)
    requires state < 0x2000000
    ensures 0 <= Scale(state, max) && (max > 0 ==> Scale(state, max) < max)
  {
    MulMono(state, 0, max);
    if max > 0 {
      MulMono(0x2000000 - 1, state, max);
      QuotientBelow(state * max, 0x2000000, max);
    }
  }

  class TrngTester {
    var state: nat

    constructor ()
      ensures state == InitialState && state < 0x2000000
    {
      state := 0x1234567;
    }

    method Reset()
      modifies this
      ensures state == InitialState && state < 0x2000000
    {
      state := 0x1234567;
    }

    /**
     * Mix the sensor reading into the state, run one round on it, and return
     * the new state scaled to [0, max).
     */
    method UpdateModel(sensorIn: int, max: nat) returns (out: int)
      modifies this
      ensures state == RoundWord(Mix(old(state), sensorIn)) && state < 0x2000000
      ensures out == Scale(state, max)
      ensures 0 <= out && (max > 0 ==> out < max)
    {
      var mixedState := Xor(state, Or(0 * Pow2(15), sensorIn % 0x400));
      mixedState := mixedState % 0x2000000;
      state := KeccakRound(mixedState);
      ScaleBelow(state, max);
      out := (state * max) / 0x2000000;
    }
  }
}
