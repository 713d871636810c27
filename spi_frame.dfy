/**
 * The SPI test bench's framing: a 4-bit register address and 12-bit data
 * value are packed into two bytes, and the bytes are clocked out MSB first
 * while the reply line is sampled once per bit and shifted into one value.
 */
module SpiFrame {
  import opened Arith
  import opened Bits

  datatype Result<T> = Ok(value: T) | Failure(message: string)

  /**
   * Pack (addr, data) into [first, second]: first = (addr & 0xF) << 4 | data >> 8,
   * second = data & 0xFF.  The two fields occupy disjoint bits, so the
   * bitwise or is written as a sum.
   */
  function BuiltPackages(addr: int, data: int): (r: Result<(int, int)>)
    ensures r.Failure? <==> addr < 0 || data < 0 || addr > 0xF || data > 0xFFF
    ensures r.Ok? ==> 0 <= r.value.0 < 0x100 && 0 <= r.value.1 < 0x100
    ensures r.Ok? ==> r.value.0 / 16 == addr
    ensures r.Ok? ==> (r.value.0 % 16) * 0x100 + r.value.1 == data
  {
    if addr < 0 || data < 0 || addr > 0xF || data > 0xFFF then
      Failure("address or data negative or too wide")
    else
      Ok(((addr % 16) * 16 + data / 0x100, data % 0x100))
  }

  /** The bits put on PICO for the given words, each sent as 8 bits MSB first. */
  function Sent(words: seq<int>): (bits: seq<int>)
    ensures |bits| == 8 * |words|
  {
    if words == [] then [] else Sent(words[..|words| - 1]) + MsbBits(words[|words| - 1], 8)
  }

  /**
   * Clock out every word, 8 bits each, most significant first, and shift the
   * level sampled on POCI after each rising edge into `out`.  The POCI
   * samples are an input, one per clock.
   */
  method SendRecvData(words: seq<int>, poci: seq<bool>) returns (pico: seq<int>, out: int)
    requires |poci| == 8 * |words|
    ensures pico == Sent(words)
    ensures out == ShiftIn(BitsOf(poci))
  {
    pico := [];
    out := 0;
    for w := 0 to |words|
      invariant pico == Sent(words[..w])
      invariant out == ShiftIn(BitsOf(poci[..8 * w]))
    {
      pico, out := SendRecvWord(words[w], poci, 8 * w, pico, out);
      assert words[..w + 1][..w] == words[..w];
    }
    assert words[..|words|] == words;
    assert poci[..8 * |words|] == poci;
  }

  /** The inner loop for one word: its 8 bits go out, samples start .. start + 7 come in. */
  method SendRecvWord(data: int, poci: seq<bool>, start: nat, picoIn: seq<int>, outIn: int) returns (pico: seq<int>, out: int)
    requires start + 8 <= |poci| && outIn == ShiftIn(BitsOf(poci[..start]))
    ensures pico == picoIn + MsbBits(data, 8)
    ensures out == ShiftIn(BitsOf(poci[..start + 8]))
  {
    pico, out := picoIn, outIn;
    for bitPos := 0 to 8
      invariant pico == picoIn + MsbBits(data, 8)[..bitPos]
      invariant out == ShiftIn(BitsOf(poci[..start + bitPos]))
    {
      var bitValue := Bit(data, 8 - bitPos - 1);
      pico := pico + [bitValue];
      var bitVal := if poci[start + bitPos] then 1 else 0;
      out := 2 * out + bitVal;
      assert MsbBits(data, 8)[..bitPos + 1] == MsbBits(data, 8)[..bitPos] + [bitValue];
      assert out == ShiftIn(BitsOf(poci[..start + bitPos + 1])) by {
        ShiftInSample(poci, start + bitPos);
      }
    }
    assert MsbBits(data, 8)[..8] == MsbBits(data, 8);
  }

  /**
   * A receiver that shifts in the 16 bits of a valid frame and splits them
   * into bits 15:12 and 11:0 gets back the address and data that were packed.
   */
  lemma FrameRoundTrip(addr: int, data: int)
    requires BuiltPackages(addr, data).Ok?
    ensures var frame := ShiftIn(Sent([BuiltPackages(addr, data).value.0, BuiltPackages(addr, data).value.1]));
      frame / 0x1000 == addr && frame % 0x1000 == data
  {
    var (first, second) := BuiltPackages(addr, data).value;
    assert Sent([first, second]) == MsbBits(first, 8) + MsbBits(second, 8) by {
      assert [first, second][..1] == [first];
      assert [first][..0] == [];
    }
    ShiftInAppend(MsbBits(first, 8), MsbBits(second, 8));
    MsbBitsRoundTrip(first, 8);
    MsbBitsRoundTrip(second, 8);
    var frame := first * 0x100 + second;
    DivMod(frame, 0x1000, first / 16, (first % 16) * 0x100 + second);
  }
}
