/**
 * The chip-level SPI command: a 16-bit word with the register address in
 * bits 15:12 and the data in bits 11:0, clocked out MSB first; and the chip
 * ID read, which sends address 0xA and collects the reply from the second
 * byte of POCI samples.
 */
module ChipCommand {
  import opened Arith
  import opened Bits

  const ChipIdAddress: int := 0xA
  const ExpectedChipId: int := 0x78

  /**
   * `(address << 12) | (data & 0xFFF)`.  The masked data fills only the low 12
   * bits, which the shifted address leaves clear, so the or is a sum.
   */
  function Command(address: int, data: int): (c: int)
    ensures c / 0x1000 == address && c % 0x1000 == data % 0x1000
    ensures 0 <= c < 0x10000 <==> 0 <= address < 16
  {
    address * 0x1000 + data % 0x1000
  }

  /** The 16 PICO bits of a command, bit k being `(command >> (15 - k)) & 1`. */
  method SendSpiCommand(address: int, data: int) returns (pico: seq<int>)
    ensures pico == MsbBits(Command(address, data), 16)
  {
    var command := Command(address, data);
    pico := [];
    for bit := 0 to 16
      invariant pico == MsbBits(command, 16)[..bit]
    {
      var bitValue := Bit(command, 15 - bit);
      assert MsbBits(command, 16)[..bit + 1] == MsbBits(command, 16)[..bit] + [bitValue];
      pico := pico + [bitValue];
    }
  }

  /**
   * A receiver that shifts in the 16 bits of a command with a 4-bit address
   * and splits bits 15:12 from 11:0 gets the address and the low 12 data bits:
   * excess data bits never reach the address field.
   */
  lemma CommandRoundTrip(address: int, data: int)
    requires 0 <= address < 16
    ensures ShiftIn(MsbBits(Command(address, data), 16)) == Command(address, data)
    ensures ShiftIn(MsbBits(Command(address, data), 16)) / 0x1000 == address
    ensures ShiftIn(MsbBits(Command(address, data), 16)) % 0x1000 == data % 0x1000
  {
    Pow2Bytes();
    MsbBitsRoundTrip(Command(address, data), 16);
  }

  /**
   * Read the chip ID: send the command for address 0xA with data 0 and, on
   * each of the last 8 of the 16 clocks, shift the sampled POCI level into
   * the ID; the result is masked to 8 bits.
   */
  method ReadChipId(poci: seq<bool>) returns (pico: seq<int>, chipId: int)
    requires |poci| == 16
    ensures pico == MsbBits(0xA000, 16)
    ensures chipId == ShiftIn(BitsOf(poci[8..]))
    ensures 0 <= chipId < 0x100
  {
    var command := Command(ChipIdAddress, 0);
    pico := [];
    chipId := 0;
    for bit := 0 to 16
      invariant pico == MsbBits(command, 16)[..bit]
      invariant chipId == if bit <= 8 then 0 else ShiftIn(BitsOf(poci[8..bit]))
    {
      var bitValue := Bit(command, 15 - bit);
      pico := pico + [bitValue];
      if bit >= 8 {
        var pociBit := if poci[bit] then 1 else 0;
        chipId := 2 * chipId + pociBit;
        ShiftInSample(poci[8..], bit - 8);
        assert poci[8..][..bit - 8] == poci[8..bit] && poci[8..][..bit - 7] == poci[8..bit + 1];
      }
    }
    assert poci[8..16] == poci[8..];
    BitsOfLevels(poci[8..]);
    ShiftInRange(BitsOf(poci[8..]));
    Pow2Bytes();
    chipId := chipId % 0x100;
  }

  /** When the chip answers 0x78 on the reply byte, the ID read returns 0x78. */
  lemma ChipIdReply(poci: seq<bool>)
    requires |poci| == 16 && BitsOf(poci[8..]) == MsbBits(ExpectedChipId, 8)
    ensures ShiftIn(BitsOf(poci[8..])) == ExpectedChipId
  {
    MsbBitsRoundTrip(ExpectedChipId, 8);
  }
}
