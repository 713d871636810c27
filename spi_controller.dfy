/**
 * The SPI register file: six output registers that come out of hardware
 * reset with their defaults and are overwritten, one address at a time,
 * when a decoded SPI command arrives with `is_ready` high.
 *
 *   address 1   bit 0 start, bit 1 reset_software
 *   address 12  bits 8:0 grid size
 *   address 13  bit 0 drop mode
 *   address 14  bits 11:0 speed
 *   address 15  bits 9:0 random seed
 */
module SpiController {
  /** The values of the output registers. */
  datatype Registers = Registers(
    start: int, resetSoftware: int, gridSize: int, dropMode: int, speed: int, randomSeed: int)

  /** The registers after hardware reset. */
  const Defaults: Registers := Registers(0, 0, 8, 0, 50, 0)

  /** Every register holds a value of its field width. */
  predicate InRange(r: Registers) {
    0 <= r.start < 2 && 0 <= r.resetSoftware < 2 && 0 <= r.gridSize < 0x200
    && 0 <= r.dropMode < 2 && 0 <= r.speed < 0x1000 && 0 <= r.randomSeed < 0x400
  }

  /**
   * The registers after the command (address, data): the addressed register
   * takes its field of the data, every other register keeps its value, and
   * an address outside the map changes nothing.
   */
  function Write(r: Registers, address: int, data: int): (w: Registers)
    ensures InRange(r) ==> InRange(w)
    ensures address != 1 ==> w.start == r.start && w.resetSoftware == r.resetSoftware
    ensures address != 12 ==> w.gridSize == r.gridSize
    ensures address != 13 ==> w.dropMode == r.dropMode
    ensures address != 14 ==> w.speed == r.speed
    ensures address != 15 ==> w.randomSeed == r.randomSeed
  {
    match address
    case 1 => r.(start := data % 2, resetSoftware := (data / 2) % 2)
    case 12 => r.(gridSize := data % 0x200)
    case 13 => r.(dropMode := data % 2)
    case 14 => r.(speed := data % 0x1000)
    case 15 => r.(randomSeed := data % 0x400)
    case _ => r
  }

  /** The defaults are values of the register widths. */
  lemma DefaultsInRange()
    ensures InRange(Defaults)
  {
  }

  /**
   * A value that fits its field is stored unchanged: the grid size, drop
   * mode, speed and seed written by a command read back as sent.
   */
  lemma WriteReadBack(r: Registers, data: int)
    requires 0 <= data
    ensures data < 0x200 ==> Write(r, 12, data).gridSize == data
    ensures data < 2 ==> Write(r, 13, data).dropMode == data
    ensures data < 0x1000 ==> Write(r, 14, data).speed == data
    ensures data < 0x400 ==> Write(r, 15, data).randomSeed == data
    ensures data < 4 ==> Write(r, 1, data).start + 2 * Write(r, 1, data).resetSoftware == data
  {
  }

  /** The software-reset command (address 1, data 0b10) raises reset_software and leaves the other defaults in place. */
  lemma SoftwareResetCommand()
    ensures Write(Defaults, 1, 2) == Defaults.(resetSoftware := 1)
  {
  }

  class SpiRegisterFile {
    var start: int
    var resetSoftware: int
    var gridSize: int
    var dropMode: int
    var speed: int
    var randomSeed: int

    /** The output registers as a value. */
    function Outputs(): Registers
      reads this
    {
      Registers(start, resetSoftware, gridSize, dropMode, speed, randomSeed)
    }

    /** Hardware reset. */
    constructor()
      ensures Outputs() == Defaults && InRange(Outputs())
    {
      start, resetSoftware, gridSize, dropMode, speed, randomSeed := 0, 0, 8, 0, 50, 0;
    }

    /** One clock: a ready command overwrites its register, otherwise nothing changes. */
    method Clock(isReady: bool, address: int, data: int)
      modifies this
      ensures Outputs() == if isReady then Write(old(Outputs()), address, data) else old(Outputs())
      ensures old(InRange(Outputs())) ==> InRange(Outputs())
    {
      if isReady {
        if address == 1 {
          start := data % 2;
          resetSoftware := (data / 2) % 2;
        } else if address == 12 {
          gridSize := data % 0x200;
        } else if address == 13 {
          dropMode := data % 2;
        } else if address == 14 {
          speed := data % 0x1000;
        } else if address == 15 {
          randomSeed := data % 0x400;
        }
      }
    }
  }
}
