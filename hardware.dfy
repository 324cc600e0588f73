/**
  The board the firmware drives, as an abstract world: the eight data lines
  (direction and output level), the EEPROM's CE/OE/WE control lines, the two
  daisy-chained 74HC595 shift registers that present the address, and the
  AT28C256's 32 KiB of cells.  GPIO calls are events; `Apply` gives their
  effect.  Timing (the microsecond settling delays) is not modelled.

  Wiring assumed: data line k is IO k; shift-register output k (first chip's
  QA..QH, then the second chip's) is address line A k, and the EEPROM uses
  A0..A14, so address bit 15 is ignored.
*/
module Hardware {
  import opened Bits
  import opened Protocol

  /** `LOW` is 0 and `HIGH` is 1, as in the Arduino API. */
  type Level = b: nat | b <= 1

  const LOW: Level := 0
  const HIGH: Level := 1

  datatype Dir = Input | Output

  datatype Pin = WeLine | OeLine | CeLine | SerLine | SclkLine | RclkLine | DataLine(k: nat)

  /** One GPIO call: `digitalWrite(pin, level)` or `pinMode(dataPins[k], dir)`. */
  datatype Gpio = Drive(pin: Pin, level: Level) | SetDir(k: nat, dir: Dir)

  datatype Hw = Hw(
    dir: seq<Dir>,       // direction of data lines IO0..IO7
    level: seq<Level>,   // output level of data lines IO0..IO7
    ce: Level, oe: Level, we: Level,
    ser: Level, sclk: Level, rclk: Level,
    stage: seq<Level>,   // the shift stage of the 16-bit register chain
    latch: seq<Level>,   // the storage register, driving A0..A15
    rom: seq<Byte>)      // the EEPROM cells

  ghost predicate WellFormed(h: Hw)
  {
    |h.dir| == 8 && |h.level| == 8 && |h.stage| == 16 && |h.latch| == 16 && |h.rom| == DEVICE_BYTES
  }

  predicate Legal(e: Gpio)
  {
    match e
    case Drive(p, _) => !p.DataLine? || p.k < 8
    case SetDir(k, _) => k < 8
  }

  /** The cell the address lines select: the value of A0..A14. */
  function Cell(h: Hw): (c: nat)
    requires WellFormed(h)
    ensures c < DEVICE_BYTES
  {
    FromBitsBound(h.latch[..15]);
    Pow2Values();
    FromBits(h.latch[..15])
  }

  /** The byte the data lines drive. */
  function DataByte(h: Hw): Byte
    requires WellFormed(h)
  {
    FromBitsBound(h.level);
    Pow2Values();
    FromBits(h.level)
  }

  /**
    The effect of one GPIO call.  A rising edge of SCLK shifts SER into the
    chain, a rising edge of RCLK copies the chain to the outputs, and a rising
    edge of WE while CE is LOW and OE is HIGH stores the data lines' byte in
    the selected cell.
  */
  function Apply(h: Hw, e: Gpio): (h': Hw)
    requires WellFormed(h) && Legal(e)
    ensures WellFormed(h')
  {
    match e
    case SetDir(k, d) => h.(dir := h.dir[k := d])
    case Drive(p, v) =>
      match p
      case DataLine(k) => h.(level := h.level[k := v])
      case CeLine => h.(ce := v)
      case OeLine => h.(oe := v)
      case WeLine =>
        if h.we == LOW && v == HIGH && h.ce == LOW && h.oe == HIGH
        then h.(we := v, rom := h.rom[Cell(h) := DataByte(h)])
        else h.(we := v)
      case SerLine => h.(ser := v)
      case SclkLine =>
        if h.sclk == LOW && v == HIGH
        then h.(sclk := v, stage := [h.ser] + h.stage[..15])
        else h.(sclk := v)
      case RclkLine =>
        if h.rclk == LOW && v == HIGH
        then h.(rclk := v, latch := h.stage)
        else h.(rclk := v)
  }

  /**
    Only a WE rising edge changes the chip, only an RCLK rising edge the
    register outputs, and only an SCLK rising edge the shift chain.
  */
  lemma ApplyEffects(h: Hw, e: Gpio)
    requires WellFormed(h) && Legal(e)
    ensures Apply(h, e).rom != h.rom ==> e == Drive(WeLine, HIGH)
    ensures Apply(h, e).latch != h.latch ==> e == Drive(RclkLine, HIGH)
    ensures Apply(h, e).stage != h.stage ==> e == Drive(SclkLine, HIGH)
  {
  }

  /** Latching the sixteen bits of `a` selects cell `a` modulo 32768: A15 is not connected. */
  lemma CellOfLatch(h: Hw, a: nat)
    requires WellFormed(h) && h.latch == BitsOf(a, 16)
    ensures Cell(h) == a % 32768
  {
    LowAddressBits(a);
  }

  /** Driving the eight bits of `v` puts `v` on the bus. */
  lemma DataByteOf(h: Hw, v: Byte)
    requires WellFormed(h) && h.level == BitsOf(v, 8)
    ensures DataByte(h) == v
  {
    ByteFromBits(v);
  }

  /** The EEPROM drives the data bus: chip and outputs enabled, no write strobe. */
  predicate EepromDrives(h: Hw)
  {
    h.ce == LOW && h.oe == LOW && h.we == HIGH
  }

  /** Bus contention: a data line is an output while CE and OE are both LOW. */
  ghost predicate Contention(h: Hw)
    requires WellFormed(h)
  {
    h.ce == LOW && h.oe == LOW && exists k :: 0 <= k < 8 && h.dir[k] == Output
  }

  /**
    What `digitalRead(dataPins[k])` returns: the line's own output level when
    it is an output, the selected cell's bit k when the EEPROM drives the bus,
    and LOW for a floating input.
  */
  function Sense(h: Hw, k: nat): Level
    requires WellFormed(h) && k < 8
  {
    if h.dir[k] == Output then h.level[k]
    else if EepromDrives(h) then Bit(h.rom[Cell(h)], k)
    else LOW
  }

  /** `pinMode` on all eight data lines, IO0 first. */
  function DataDirs(d: Dir): (es: seq<Gpio>)
    ensures |es| == 8
  {
    seq(8, k requires 0 <= k < 8 => SetDir(k, d))
  }

  /** `digitalWrite(dataPins[i], (v >> i) & 1)` for i = 0..7. */
  function DataLevels(v: Byte): (es: seq<Gpio>)
    ensures |es| == 8
  {
    seq(8, k requires 0 <= k < 8 => Drive(DataLine(k), Bit(v, k)))
  }

  /** The calls for the first n bits of an address, bit 15 first: SER, then a SCLK pulse. */
  function ShiftBits(a: nat, n: nat): seq<Gpio>
    requires n <= 16
  {
    if n == 0 then []
    else ShiftBits(a, n - 1) + [Drive(SerLine, Bit(a, 16 - n)), Drive(SclkLine, HIGH), Drive(SclkLine, LOW)]
  }

  /** The calls `loadShiftAddr(a)` makes: 16 bits, then one RCLK pulse. */
  function ShiftOut(a: nat): seq<Gpio>
  {
    ShiftBits(a, 16) + [Drive(RclkLine, HIGH), Drive(RclkLine, LOW)]
  }

  lemma {:induction false} ShiftBitsShape(a: nat, n: nat)
    requires n <= 16
    ensures |ShiftBits(a, n)| == 3 * n
    ensures forall j :: 0 <= j < n ==>
              && ShiftBits(a, n)[3 * j] == Drive(SerLine, Bit(a, 15 - j))
              && ShiftBits(a, n)[3 * j + 1] == Drive(SclkLine, HIGH)
              && ShiftBits(a, n)[3 * j + 2] == Drive(SclkLine, LOW)
  {
    if n > 0 {
      ShiftBitsShape(a, n - 1);
    }
  }

  /**
    `loadShiftAddr` presents bits 15 down to 0 on SER, each followed by one
    SCLK pulse, and then pulses RCLK exactly once.
  */
  lemma ShiftOutShape(a: nat)
    ensures |ShiftOut(a)| == 50
    ensures forall j :: 0 <= j < 16 ==>
              && ShiftOut(a)[3 * j] == Drive(SerLine, Bit(a, 15 - j))
              && ShiftOut(a)[3 * j + 1] == Drive(SclkLine, HIGH)
              && ShiftOut(a)[3 * j + 2] == Drive(SclkLine, LOW)
    ensures ShiftOut(a)[48] == Drive(RclkLine, HIGH) && ShiftOut(a)[49] == Drive(RclkLine, LOW)
    ensures forall i :: 0 <= i < 48 ==> ShiftOut(a)[i].Drive? && ShiftOut(a)[i].pin != RclkLine
  {
    ShiftBitsShape(a, 16);
    forall i | 0 <= i < 48
      ensures ShiftOut(a)[i].Drive? && ShiftOut(a)[i].pin != RclkLine
    {
      var j := i / 3;
      assert i == 3 * j || i == 3 * j + 1 || i == 3 * j + 2;
    }
  }
}
