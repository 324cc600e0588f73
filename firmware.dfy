/**
  The programmer's firmware (src/arduino.cpp) as a class whose fields are its
  globals (`mode`, `errno`), the serial link (the bytes the host will ever
  send, a read cursor, and everything written back) and the board it drives.

  Ghost state records what the firmware cannot see: every GPIO call in order
  (`trace`), whether the data bus was ever driven from both ends at once
  (`contended`), and whether the firmware is stuck waiting for a serial byte
  that never comes (`blocked`).
*/
module Firmware {
  import opened Bits
  import opened Protocol
  import opened Hardware
  import opened Bulk

  datatype Mode = Standby | Read | Write

  function Dirs(d: Dir): (ds: seq<Dir>)
    ensures |ds| == 8 && forall k :: 0 <= k < 8 ==> ds[k] == d
  {
    seq(8, _ => d)
  }

  /** The data-line directions and CE/OE levels each mode function sets up. */
  function Enter(h: Hw, m: Mode): Hw
  {
    match m
    case Standby => h.(dir := Dirs(Input), ce := HIGH, oe := LOW, we := HIGH)
    case Read => h.(dir := Dirs(Input), ce := LOW, oe := LOW, we := HIGH)
    case Write => h.(dir := Dirs(Output), ce := LOW, oe := HIGH, we := HIGH)
  }

  /** The lines are as mode `m` leaves them, and both shift clocks are idle. */
  predicate Configured(m: Mode, h: Hw)
  {
    && h.we == HIGH && h.sclk == LOW && h.rclk == LOW
    && match m
       case Standby => h.dir == Dirs(Input) && h.ce == HIGH && h.oe == LOW
       case Read => h.dir == Dirs(Input) && h.ce == LOW && h.oe == LOW
       case Write => h.dir == Dirs(Output) && h.ce == LOW && h.oe == HIGH
  }

  /** The calls `writeMode` makes: CE LOW, OE HIGH, WE HIGH, then data lines to OUTPUT. */
  function WriteModeCalls(): seq<Gpio>
  {
    [Drive(CeLine, LOW), Drive(OeLine, HIGH), Drive(WeLine, HIGH)] + DataDirs(Output)
  }

  /** The calls `readMode` makes when not in READ: data lines to INPUT, then CE LOW, OE LOW, WE HIGH. */
  function ReadModeCalls(): seq<Gpio>
  {
    DataDirs(Input) + [Drive(CeLine, LOW), Drive(OeLine, LOW), Drive(WeLine, HIGH)]
  }

  /** The calls `standbyMode` makes: data lines to INPUT, then OE LOW, CE HIGH, WE HIGH. */
  function StandbyModeCalls(): seq<Gpio>
  {
    DataDirs(Input) + [Drive(OeLine, LOW), Drive(CeLine, HIGH), Drive(WeLine, HIGH)]
  }

  /** The calls `writeAddr(a, v)` makes. */
  function WriteAddrCalls(a: nat, v: Byte): seq<Gpio>
  {
    ShiftOut(a) + (WriteModeCalls() + (DataLevels(v) + ([Drive(WeLine, LOW), Drive(WeLine, HIGH)] + StandbyModeCalls())))
  }

  /** The board after an access to address `a`: standby, with `a` latched on the address lines. */
  function Parked(h: Hw, a: nat): Hw
  {
    Enter(h, Standby).(ser := Bit(a, 0), stage := BitsOf(a, 16), latch := BitsOf(a, 16))
  }

  /**
    `writeAddr` pulls WE LOW exactly once, after the address is latched and the
    data lines carry the byte, and sets WE HIGH again right after.
  */
  lemma WriteAddrStrobesOnce(a: nat, v: Byte)
    ensures |WriteAddrCalls(a, v)| == 82
    ensures WriteAddrCalls(a, v)[50 .. 61] == WriteModeCalls()
    ensures WriteAddrCalls(a, v)[61 .. 69] == DataLevels(v)
    ensures WriteAddrCalls(a, v)[69] == Drive(WeLine, LOW) && WriteAddrCalls(a, v)[70] == Drive(WeLine, HIGH)
    ensures forall i :: 0 <= i < 82 && i != 69 ==> WriteAddrCalls(a, v)[i] != Drive(WeLine, LOW)
  {
    ShiftOutShape(a);
    var calls := WriteAddrCalls(a, v);
    forall i | 0 <= i < 50
      ensures calls[i] != Drive(WeLine, LOW)
    {
      if i < 48 {
        var j := i / 3;
        assert i == 3 * j || i == 3 * j + 1 || i == 3 * j + 2;
      }
    }
  }

  lemma WriteAddrTrace(t: seq<Gpio>, a: nat, v: Byte)
    ensures t + ShiftOut(a) + WriteModeCalls() + DataLevels(v)[..8] + [Drive(WeLine, LOW)] + [Drive(WeLine, HIGH)] + StandbyModeCalls()
            == t + WriteAddrCalls(a, v)
  {
    assert DataLevels(v)[..8] == DataLevels(v);
  }

  /**
    What one pass of `loop` does, before the latch is reported: where the
    host's stream is left, what goes back, the EEPROM's contents, the latch,
    and whether the firmware is left waiting for a byte that never comes.
  */
  datatype Turn = Turn(next: nat, sent: seq<Byte>, rom: seq<Byte>, errno: Error, stalled: bool)

  /** The command in the non-empty message `msg`, carried out with the stream at `n`. */
  function Execute(inp: seq<Byte>, n: nat, e: Error, rom: seq<Byte>, msg: seq<Byte>): Turn
    requires |rom| == DEVICE_BYTES && |msg| > 0
  {
    match Decode(msg)
    case ReadByte(a) => Turn(n, Frame([rom[a % 32768]]), rom, e, false)
    case WriteByte(a, v) => Turn(n, Frame([]), rom[a % 32768 := v], e, false)
    case DumpAll =>
      var o := DumpSpec(inp, n, e);
      Turn(o.next, Encode(DumpChunks(rom, o.frames)), rom, o.errno, o.starved)
    case LoadImage(len) =>
      var run := RunLoad(inp, n, 0, len);
      Turn(run.next, Frame([]) + Acks(|run.frames|), Program(rom, Flatten(run.frames)),
           if run.status == Broken then ECorrupt else e, run.status == Stalled)
    case ResetRequest => Turn(n, [], rom, e, false)
    case Unrecognised => Turn(n, [], rom, EUnknown, false)
  }

  /**
    One pass of `loop` with the host's stream at `p`: nothing when no byte is
    waiting, the corrupt latch for a message cut short or over 64 bytes,
    nothing for an empty message, and otherwise the command it holds.
  */
  function Serve(inp: seq<Byte>, p: nat, e: Error, rom: seq<Byte>): Turn
    requires |rom| == DEVICE_BYTES
  {
    match ParseFrame(inp, p, MAX_PAYLOAD + 1)
    case Starved => Turn(p, [], rom, e, false)
    case Corrupt(n) => Turn(n, [], rom, ECorrupt, false)
    case Received(msg, n) => if msg == [] then Turn(n, [], rom, e, false) else Execute(inp, n, e, rom, msg)
  }

  class Board {
    /** Every byte the host sends, in order. */
    const inp: seq<Byte>
    /** How many of them the firmware has read. */
    var pos: nat
    /** Every byte the firmware has written to the serial port. */
    var out: seq<Byte>
    var mode: Mode
    var errno: Error
    var hw: Hw
    ghost var trace: seq<Gpio>
    ghost var contended: bool
    ghost var blocked: bool

    /**
      Between calls the lines are exactly as `mode` says, and the bus has
      never been driven by the Arduino while the EEPROM's outputs were enabled.
    */
    ghost predicate Valid()
      reads this
    {
      WellFormed(hw) && Configured(mode, hw) && pos <= |inp| && !contended
    }

    /**
      The board as `setup` leaves it: standby, nothing read yet.  `setup`
      only holds the registers' clear input inactive, so their power-on
      contents `stage` and `latch` are arbitrary.
    */
    constructor(inp: seq<Byte>, rom: seq<Byte>, stage: seq<Level>, latch: seq<Level>)
      requires |rom| == DEVICE_BYTES && |stage| == 16 && |latch| == 16
      ensures Valid() && mode == Standby && errno == Ok
      ensures this.inp == inp && pos == 0 && out == []
      ensures hw.rom == rom && hw.stage == stage && hw.latch == latch && trace == [] && !blocked
    {
      this.inp := inp;
      pos := 0;
      out := [];
      mode := Standby;
      errno := Ok;
      hw := Hw(Dirs(Input), seq(8, _ => LOW), HIGH, LOW, HIGH, LOW, LOW, LOW, stage, latch, rom);
      trace := [];
      contended := false;
      blocked := false;
    }

    // ---------------------------------------------------------------------
    // Arduino primitives

    /** `digitalWrite` */
    method DigitalWrite(p: Pin, v: Level)
      requires WellFormed(hw) && Legal(Drive(p, v))
      modifies this
      ensures hw == Apply(old(hw), Drive(p, v)) && trace == old(trace) + [Drive(p, v)]
      ensures contended == (old(contended) || Contention(hw))
      ensures pos == old(pos) && out == old(out) && mode == old(mode) && errno == old(errno) && blocked == old(blocked)
    {
      hw := Apply(hw, Drive(p, v));
      trace := trace + [Drive(p, v)];
      contended := contended || Contention(hw);
    }

    /** `pinMode(dataPins[k], d)` */
    method PinMode(k: nat, d: Dir)
      requires WellFormed(hw) && k < 8
      modifies this
      ensures hw == Apply(old(hw), SetDir(k, d)) && trace == old(trace) + [SetDir(k, d)]
      ensures contended == (old(contended) || Contention(hw))
      ensures pos == old(pos) && out == old(out) && mode == old(mode) && errno == old(errno) && blocked == old(blocked)
    {
      hw := Apply(hw, SetDir(k, d));
      trace := trace + [SetDir(k, d)];
      contended := contended || Contention(hw);
    }

    /** `digitalRead(dataPins[k])` */
    method DigitalRead(k: nat) returns (v: Level)
      requires WellFormed(hw) && k < 8
      ensures v == Sense(hw, k)
    {
      v := Sense(hw, k);
    }

    /** `pulse(pin)`: HIGH then LOW; the delays are not modelled. */
    method Pulse(p: Pin)
      requires WellFormed(hw) && Legal(Drive(p, HIGH))
      modifies this
      ensures hw == Apply(Apply(old(hw), Drive(p, HIGH)), Drive(p, LOW))
      ensures trace == old(trace) + [Drive(p, HIGH), Drive(p, LOW)]
      ensures contended == (old(contended) || Contention(Apply(old(hw), Drive(p, HIGH))) || Contention(hw))
      ensures pos == old(pos) && out == old(out) && mode == old(mode) && errno == old(errno) && blocked == old(blocked)
    {
      DigitalWrite(p, HIGH);
      DigitalWrite(p, LOW);
    }

    /** `Serial.read()`: the next byte, or -1 when none is waiting. */
    method SerialRead() returns (c: int)
      modifies this
      ensures old(pos) < |inp| ==> c == inp[old(pos)] && pos == old(pos) + 1
      ensures old(pos) >= |inp| ==> c == -1 && pos == old(pos)
      ensures out == old(out) && hw == old(hw) && mode == old(mode) && errno == old(errno)
      ensures trace == old(trace) && contended == old(contended) && blocked == old(blocked)
    {
      if pos < |inp| {
        c := inp[pos];
        pos := pos + 1;
      } else {
        c := -1;
      }
    }

    /** `Serial.readBytes(buf, n)`: up to n bytes, fewer when the host stops sending. */
    method ReadBytes(buf: array<Byte>, n: nat) returns (got: nat)
      requires n <= buf.Length && pos <= |inp|
      modifies this, buf
      ensures got == Min(n, |inp| - old(pos)) && pos == old(pos) + got
      ensures buf[..got] == inp[old(pos) .. pos] && buf[got..] == old(buf[got..])
      ensures out == old(out) && hw == old(hw) && mode == old(mode) && errno == old(errno)
      ensures trace == old(trace) && contended == old(contended) && blocked == old(blocked)
    {
      got := 0;
      while got < n && pos < |inp|
        invariant got <= n && pos == old(pos) + got <= |inp|
        invariant buf[..got] == inp[old(pos) .. pos] && buf[got..] == old(buf[got..])
        invariant out == old(out) && hw == old(hw) && mode == old(mode) && errno == old(errno)
        invariant trace == old(trace) && contended == old(contended) && blocked == old(blocked)
      {
        buf[got] := inp[pos];
        pos := pos + 1;
        got := got + 1;
      }
    }

    // ---------------------------------------------------------------------
    // Transport

    /**
      `receive(buf, len, sendAck)`: the message at the cursor, read into `buf`.
      A length over `len` or a message cut short is corrupt (-1, E_CORRUPT)
      and is not acknowledged; otherwise the payload length is returned and,
      with `sendAck`, the empty message goes back.  When the host never sends
      the length byte, the firmware waits forever: the model returns -1 and
      marks the board blocked, and no caller sends or writes anything after it.
    */
    method Receive(buf: array<Byte>, len: nat, sendAck: bool) returns (r: int)
      requires Valid() && len <= buf.Length
      modifies this, buf
      decreases if sendAck then 1 else 0
      ensures Valid() && hw == old(hw) && mode == old(mode) && trace == old(trace)
      ensures var rx := ParseFrame(inp, old(pos), len);
        && pos == After(rx, old(pos))
        && blocked == (old(blocked) || rx.Starved?)
        && (rx.Starved? ==> r == -1 && errno == old(errno) && out == old(out) && buf[..] == old(buf[..]))
        && (rx.Corrupt? ==>
              && r == -1 && errno == ECorrupt && out == old(out)
              && buf[.. rx.next - old(pos) - 1] == inp[old(pos) + 1 .. rx.next]
              && buf[rx.next - old(pos) - 1 ..] == old(buf[..])[rx.next - old(pos) - 1 ..])
        && (rx.Received? ==>
              && r == |rx.payload| && errno == old(errno)
              && out == old(out) + (if sendAck then Frame([]) else [])
              && buf[..r] == rx.payload && buf[r..] == old(buf[r..]))
    {
      ghost var rx := ParseFrame(inp, pos, len);
      var l := SerialRead();
      if l == -1 {
        blocked := true;
        return -1;
      }
      if l > 0 {
        var got := ReadBytes(buf, Min(l, len));
        if got != l {
          assert rx.Corrupt? && rx.next == pos;
          errno := ECorrupt;
          return -1;
        }
      }
      assert rx == Received(buf[..l], pos);
      if sendAck {
        var s := Send([], false);
        if s == -1 {
          return -1;
        }
      }
      return l;
    }

    /**
      `send(data, waitForAck)`: the length octet and the payload go out; with
      `waitForAck` the reply must be an empty message, else -1 with the latch
      set as `ReplyErrno` says.
    */
    method Send(data: seq<Byte>, waitForAck: bool) returns (r: int)
      requires Valid()
      modifies this
      decreases if waitForAck then 2 else 0
      ensures Valid() && hw == old(hw) && mode == old(mode) && trace == old(trace)
      ensures out == old(out) + Frame(data)
      ensures !waitForAck ==> r == 0 && pos == old(pos) && errno == old(errno) && blocked == old(blocked)
      ensures waitForAck ==>
        var rx := ParseFrame(inp, old(pos), MAX_PAYLOAD);
        && pos == After(rx, old(pos))
        && errno == ReplyErrno(rx, old(errno))
        && blocked == (old(blocked) || rx.Starved?)
        && (r == 0 <==> IsAck(rx))
        && (r == 0 || r == -1)
    {
      out := out + [|data| % 256];
      if |data| > 0 {
        out := out + data;
      }
      r := 0;
      if waitForAck {
        r := AwaitAck();
      }
    }

    /**
      The acknowledgement wait of `send`: receive a reply of up to 63 bytes;
      anything but an empty message is -1, and a lone 'r' or any other
      well-formed reply sets the latch.
    */
    method AwaitAck() returns (r: int)
      requires Valid()
      modifies this
      decreases 1
      ensures Valid() && hw == old(hw) && mode == old(mode) && trace == old(trace) && out == old(out)
      ensures var rx := ParseFrame(inp, old(pos), MAX_PAYLOAD);
        && pos == After(rx, old(pos))
        && errno == ReplyErrno(rx, old(errno))
        && blocked == (old(blocked) || rx.Starved?)
        && (r == 0 <==> IsAck(rx))
        && (r == 0 || r == -1)
    {
      var reply := new Byte[1 + MAX_PAYLOAD];
      var len := Receive(reply, MAX_PAYLOAD, false);
      if len != 0 {
        if len == 1 && reply[0] == OP_READ {
          errno := EReset;
        } else if len != -1 {
          errno := EUnexpected;
        }
        return -1;
      }
      return 0;
    }

    // ---------------------------------------------------------------------
    // Bus modes

    /** `writeMode`: OE goes HIGH before any data line becomes an output. */
    method WriteMode()
      requires Valid()
      modifies this
      ensures Valid() && mode == Write
      ensures hw == Enter(old(hw), Write) && trace == old(trace) + WriteModeCalls()
      ensures pos == old(pos) && out == old(out) && errno == old(errno) && blocked == old(blocked)
    {
      DigitalWrite(CeLine, LOW);
      DigitalWrite(OeLine, HIGH);
      DigitalWrite(WeLine, HIGH);
      ghost var h0, t0 := hw, trace;
      for i := 0 to 8
        invariant WellFormed(hw) && hw == h0.(dir := hw.dir) && hw.oe == HIGH
        invariant forall k :: 0 <= k < 8 ==> hw.dir[k] == (if k < i then Output else h0.dir[k])
        invariant trace == t0 + DataDirs(Output)[..i] && !contended
        invariant pos == old(pos) && out == old(out) && errno == old(errno) && blocked == old(blocked)
      {
        PinMode(i, Output);
      }
      assert hw.dir == Dirs(Output);
      mode := Write;
    }

    /**
      `readMode`: nothing at all when already in READ; otherwise the data
      lines become inputs before OE goes LOW.
    */
    method ReadMode()
      requires Valid()
      modifies this
      ensures Valid() && mode == Read
      ensures old(mode) == Read ==> hw == old(hw) && trace == old(trace)
      ensures old(mode) != Read ==> hw == Enter(old(hw), Read) && trace == old(trace) + ReadModeCalls()
      ensures pos == old(pos) && out == old(out) && errno == old(errno) && blocked == old(blocked)
    {
      if mode != Read {
        DataToInputs();
        DigitalWrite(CeLine, LOW);
        DigitalWrite(OeLine, LOW);
        DigitalWrite(WeLine, HIGH);
        mode := Read;
      }
    }

    /** `standbyMode`: the data lines become inputs before OE goes LOW and CE HIGH. */
    method StandbyMode()
      requires Valid()
      modifies this
      ensures Valid() && mode == Standby
      ensures hw == Enter(old(hw), Standby) && trace == old(trace) + StandbyModeCalls()
      ensures pos == old(pos) && out == old(out) && errno == old(errno) && blocked == old(blocked)
    {
      DataToInputs();
      DigitalWrite(OeLine, LOW);
      DigitalWrite(CeLine, HIGH);
      DigitalWrite(WeLine, HIGH);
      mode := Standby;
    }

    /** The loop both `readMode` and `standbyMode` open with. */
    method DataToInputs()
      requires Valid()
      modifies this
      ensures WellFormed(hw) && hw == old(hw).(dir := Dirs(Input)) && !contended
      ensures trace == old(trace) + DataDirs(Input)
      ensures pos == old(pos) && out == old(out) && mode == old(mode) && errno == old(errno) && blocked == old(blocked)
    {
      ghost var t0 := trace;
      for i := 0 to 8
        invariant WellFormed(hw) && hw == old(hw).(dir := hw.dir)
        invariant forall k :: 0 <= k < 8 ==> hw.dir[k] == (if k < i then Input else old(hw).dir[k])
        invariant trace == t0 + DataDirs(Input)[..i] && !contended
        invariant pos == old(pos) && out == old(out) && mode == old(mode) && errno == old(errno) && blocked == old(blocked)
      {
        PinMode(i, Input);
      }
      assert hw.dir == Dirs(Input);
    }

    // ---------------------------------------------------------------------
    // Address shifter and byte access

    /**
      `loadShiftAddr(addr)`: bits 15 down to 0 go out on SER, each clocked in
      by a SCLK pulse, and one RCLK pulse latches them: output k of the chain
      then carries bit k of the address.
    */
    method LoadShiftAddr(addr: nat)
      requires Valid() && addr < 65536
      modifies this
      ensures Valid() && mode == old(mode)
      ensures hw == old(hw).(ser := Bit(addr, 0), stage := BitsOf(addr, 16), latch := BitsOf(addr, 16))
      ensures trace == old(trace) + ShiftOut(addr)
      ensures pos == old(pos) && out == old(out) && errno == old(errno) && blocked == old(blocked)
    {
      ghost var h0 := hw;
      var i := 15;
      while i >= 0
        invariant -1 <= i <= 15
        invariant WellFormed(hw) && hw == h0.(ser := hw.ser, stage := hw.stage)
        invariant forall k :: 0 <= k < 16 ==>
                    hw.stage[k] == (if k < 15 - i then Bit(addr, i + 1 + k) else h0.stage[k - (15 - i)])
        invariant i < 15 ==> hw.ser == Bit(addr, i + 1)
        invariant trace == old(trace) + ShiftBits(addr, 15 - i) && !contended
        invariant mode == old(mode) && pos == old(pos) && out == old(out) && errno == old(errno) && blocked == old(blocked)
      {
        DigitalWrite(SerLine, Bit(addr, i));
        Pulse(SclkLine);
        i := i - 1;
      }
      assert hw.stage == BitsOf(addr, 16);
      Pulse(RclkLine);
    }

    /**
      The loop of `readAddr` that assembles `val |= digitalRead(IO0 + i) << i`
      for i = 0..7: with the data lines as inputs, the byte in the addressed cell.
    */
    method ReadData() returns (v: Byte)
      requires Valid() && mode == Read
      ensures v == hw.rom[Cell(hw)]
    {
      ghost var cell := hw.rom[Cell(hw)];
      var w: nat := 0;
      for i := 0 to 8
        invariant w == Low(cell, i)
      {
        var b := DigitalRead(i);
        LowStep(cell, i);
        // the bits land in distinct positions, so `val |= b << i` adds
        w := w + b * Pow2(i);
      }
      Pow2Values();
      LowFull(cell, 8);
      v := w;
    }

    /**
      `readAddr(addr)`: the byte assembled from the eight data lines is the
      byte stored at `addr` (modulo the 32 KiB the device decodes), and the
      board is back in standby.
    */
    method ReadAddr(addr: nat) returns (val: Byte)
      requires Valid() && addr < 65536
      modifies this
      ensures Valid() && mode == Standby
      ensures val == old(hw).rom[addr % 32768]
      ensures hw.rom == old(hw).rom && hw.level == old(hw).level
      ensures hw.latch == BitsOf(addr, 16) && hw.stage == hw.latch && hw.ser == Bit(addr, 0)
      ensures trace == old(trace) + (if old(mode) == Read then [] else ReadModeCalls()) + ShiftOut(addr) + StandbyModeCalls()
      ensures pos == old(pos) && out == old(out) && errno == old(errno) && blocked == old(blocked)
    {
      ReadMode();
      LoadShiftAddr(addr);
      CellOfLatch(hw, addr);
      var v := ReadData();
      StandbyMode();
      val := v;
    }

    /**
      `writeAddr(addr, val)`: the address is latched, the board enters WRITE
      mode, the data lines carry `val`, and one WE strobe stores it; the
      board ends in standby.  It does not rely on the caller's mode.
    */
    method WriteAddr(addr: nat, val: Byte)
      requires Valid() && addr < 65536
      modifies this
      ensures Valid() && mode == Standby
      ensures hw == Parked(old(hw), addr).(level := BitsOf(val, 8), rom := old(hw).rom[addr % 32768 := val])
      ensures hw.rom == old(hw).rom[addr % 32768 := val]
      ensures trace == old(trace) + WriteAddrCalls(addr, val)
      ensures pos == old(pos) && out == old(out) && errno == old(errno) && blocked == old(blocked)
    {
      ghost var start := trace;
      LoadShiftAddr(addr);
      WriteMode();
      ghost var h0, t0 := hw, trace;
      for i := 0 to 8
        invariant WellFormed(hw) && hw == h0.(level := hw.level) && mode == Write
        invariant forall k :: 0 <= k < 8 ==> hw.level[k] == (if k < i then Bit(val, k) else h0.level[k])
        invariant trace == t0 + DataLevels(val)[..i] && !contended
        invariant pos == old(pos) && out == old(out) && errno == old(errno) && blocked == old(blocked)
      {
        DigitalWrite(DataLine(i), Bit(val, i));
      }
      assert hw.level == BitsOf(val, 8);
      DigitalWrite(WeLine, LOW);
      CellOfLatch(hw, addr);
      DataByteOf(hw, val);
      DigitalWrite(WeLine, HIGH);
      StandbyMode();
      WriteAddrTrace(start, addr, val);
    }

    // ---------------------------------------------------------------------
    // Bulk commands

    /**
      `dump`: reads addresses 0..32767 in order and sends them in messages of
      63 bytes (the last one 8), each acknowledged before the next; the first
      reply that is not an acknowledgement ends it with -1.
    */
    method Dump() returns (r: int)
      requires Valid()
      modifies this
      ensures Valid() && mode == Standby
      ensures var o := DumpSpec(inp, old(pos), old(errno));
        && r == o.result && pos == o.next && errno == o.errno
        && blocked == (old(blocked) || o.starved)
        && out == old(out) + Encode(DumpChunks(old(hw).rom, o.frames))
        && hw.rom == old(hw).rom
    {
      ghost var p0, rom := pos, hw.rom;
      var payload := new Byte[MAX_PAYLOAD];
      var i: nat := 0;
      var addr: nat := 0;
      ghost var c := 0;
      while addr < DEVICE_BYTES
        invariant DumpState(payload, addr, i, rom, p0, c, old(out), old(errno), old(blocked))
        invariant addr == 0 ==> i == 0 && mode == old(mode)
        invariant addr > 0 ==> 1 <= i && mode == Standby
      {
        r, i, c := DumpByte(payload, addr, i, rom, p0, c, old(out), old(errno), old(blocked));
        if r == -1 {
          return;
        }
        addr := addr + 1;
      }
      DumpTail(c, i);
      if i != 0 {
        r := SendChunk(payload, i, addr, rom, p0, c, old(out), old(errno), old(blocked));
        return;
      }
      r := 0;
    }

    /**
      One pass of `dump`'s loop at `addr`: send the full buffer first when
      `addr` starts a new message, then buffer the byte at `addr`.
    */
    method DumpByte(payload: array<Byte>, addr: nat, i: nat, ghost rom: seq<Byte>, ghost p0: nat, ghost c: nat,
                    ghost out0: seq<Byte>, ghost e0: Error, ghost b0: bool)
      returns (r: int, i': nat, ghost c': nat)
      requires DumpState(payload, addr, i, rom, p0, c, out0, e0, b0) && addr < DEVICE_BYTES
      requires addr == 0 ==> i == 0
      requires addr > 0 ==> 1 <= i && mode == Standby
      modifies this, payload
      ensures r != -1 ==> DumpState(payload, addr + 1, i', rom, p0, c', out0, e0, b0) && 1 <= i' && mode == Standby
      ensures r == -1 ==>
        var o := DumpSpec(inp, p0, e0);
        && Valid() && mode == Standby && hw.rom == rom
        && o.result == -1 && o.next == pos && o.errno == errno
        && blocked == (b0 || o.starved) && out == out0 + Encode(DumpChunks(rom, o.frames))
    {
      r, i', c' := 0, i, c;
      DumpIndex(addr, c, i);
      i' := addr % MAX_PAYLOAD;
      if addr > 0 && i' == 0 {
        r := SendChunk(payload, MAX_PAYLOAD, addr, rom, p0, c, out0, e0, b0);
        if r == -1 {
          return;
        }
        c' := c + 1;
      }
      BufferByte(payload, addr, i', rom, p0, c', out0, e0, b0);
      i' := i' + 1;
    }

    /** What holds in `dump` once c messages of `rom` went out and each was acknowledged. */
    ghost predicate Acked(rom: seq<Byte>, p0: nat, c: nat, out0: seq<Byte>, e0: Error, b0: bool)
      reads this
    {
      && Valid() && |rom| == DEVICE_BYTES && hw.rom == rom && c <= DUMP_FRAMES
      && out == out0 + Encode(DumpChunks(rom, c)) && p0 + c <= |inp|
      && pos == p0 + c && (forall k :: p0 <= k < p0 + c ==> inp[k] == 0)
      && errno == e0 && blocked == b0
    }

    /** What holds in `dump` at `addr`: c messages acknowledged, the i bytes after them buffered. */
    ghost predicate DumpState(payload: array<Byte>, addr: nat, i: nat, rom: seq<Byte>, p0: nat, c: nat,
                              out0: seq<Byte>, e0: Error, b0: bool)
      reads this, payload
    {
      && Acked(rom, p0, c, out0, e0, b0) && payload.Length == MAX_PAYLOAD
      && addr <= DEVICE_BYTES && i <= MAX_PAYLOAD && addr == MAX_PAYLOAD * c + i && c <= 520
      && payload[..i] == rom[MAX_PAYLOAD * c .. addr]
    }

    /** `payload[i] = readAddr(addr)` in `dump`. */
    method BufferByte(payload: array<Byte>, addr: nat, i: nat, ghost rom: seq<Byte>, ghost p0: nat, ghost c: nat,
                      ghost out0: seq<Byte>, ghost e0: Error, ghost b0: bool)
      requires DumpState(payload, addr, i, rom, p0, c, out0, e0, b0) && i < MAX_PAYLOAD && addr < DEVICE_BYTES
      modifies this, payload
      ensures DumpState(payload, addr + 1, i + 1, rom, p0, c, out0, e0, b0) && mode == Standby
    {
      var v := ReadAddr(addr);
      payload[i] := v;
      assert payload[..i + 1] == rom[MAX_PAYLOAD * c .. addr + 1];
    }

    /**
      `send(payload, n, true)` for dump's message number c, which holds the
      n bytes before `addr`; on -1 the run of acknowledgements is exactly c.
    */
    method SendChunk(payload: array<Byte>, n: nat, addr: nat, ghost rom: seq<Byte>, ghost p0: nat, ghost c: nat,
                     ghost out0: seq<Byte>, ghost e0: Error, ghost b0: bool)
      returns (r: int)
      requires DumpState(payload, addr, n, rom, p0, c, out0, e0, b0)
      requires (n == MAX_PAYLOAD && c < 520) || (n == 8 && c == 520)
      modifies this
      ensures Valid() && hw == old(hw) && mode == old(mode)
      ensures r == 0 || r == -1
      ensures r == 0 ==> Acked(rom, p0, c + 1, out0, e0, b0)
      ensures r == 0 && c + 1 == DUMP_FRAMES ==> DumpSpec(inp, p0, e0) == DumpOutcome(DUMP_FRAMES, 0, pos, e0, false)
      ensures r == -1 ==>
        var o := DumpSpec(inp, p0, e0);
        && o.frames == c + 1 && o.result == -1 && o.next == pos && o.errno == errno
        && blocked == (b0 || o.starved) && out == out0 + Encode(DumpChunks(rom, c + 1))
    {
      ghost var sent := out0 + Encode(DumpChunks(rom, c + 1));
      assert payload[..n] == Chunk(rom, c);
      DumpStreamSnoc(rom, c);
      assert sent == out + Frame(payload[..n]);
      r := Send(payload[..n], true);
      assert out == sent;
      AckIsZeroByte(inp, p0 + c, MAX_PAYLOAD);
      if r != 0 {
        DumpStops(inp, p0, e0, c);
      } else if c + 1 == DUMP_FRAMES {
        DumpCompletes(inp, p0, e0);
      }
    }

    /** The inner loop of `load`: `writeAddr(addr++, buf[i])` for the cnt bytes received. */
    method WriteChunk(buf: array<Byte>, cnt: nat, addr: nat, ghost rom: seq<Byte>, ghost data: seq<Byte>)
      returns (next: nat)
      requires Valid() && cnt <= buf.Length && |rom| == DEVICE_BYTES
      requires addr == |data| % 65536 && hw.rom == Program(rom, data)
      modifies this
      ensures Valid() && hw.rom == Program(rom, data + buf[..cnt]) && next == (|data| + cnt) % 65536
      ensures mode == (if cnt == 0 then old(mode) else Standby)
      ensures pos == old(pos) && out == old(out) && errno == old(errno) && blocked == old(blocked)
    {
      next := addr;
      var i := 0;
      assert data + buf[..0] == data;
      while i < cnt
        invariant 0 <= i <= cnt && next == (|data| + i) % 65536
        invariant Valid() && hw.rom == Program(rom, data + buf[..i])
        invariant mode == (if i == 0 then old(mode) else Standby)
        invariant pos == old(pos) && out == old(out) && errno == old(errno) && blocked == old(blocked)
      {
        ghost var d := data + buf[..i];
        assert |d| == |data| + i && data + buf[..i + 1] == d + [buf[i]];
        next := WriteNext(buf[i], next, rom, d);
        i := i + 1;
      }
      assert buf[..cnt] == buf[..i];
    }

    /** One statement of that loop, `writeAddr(addr++, buf[i])`, with the address kept to 16 bits. */
    method WriteNext(val: Byte, addr: nat, ghost rom: seq<Byte>, ghost data: seq<Byte>) returns (next: nat)
      requires Valid() && |rom| == DEVICE_BYTES && addr == |data| % 65536 && hw.rom == Program(rom, data)
      modifies this
      ensures Valid() && hw.rom == Program(rom, data + [val]) && next == (|data| + 1) % 65536
      ensures mode == Standby
      ensures pos == old(pos) && out == old(out) && errno == old(errno) && blocked == old(blocked)
    {
      ProgramStep(rom, data, val);
      WriteAddr(addr, val);
      NextAddress(|data|);
      next := (addr + 1) % 65536;
    }

    /** What holds in `load` after the messages `frames`, with the address at `addr`. */
    ghost predicate Loading(whole: LoadRun, rom: seq<Byte>, frames: seq<seq<Byte>>, addr: nat, len: nat,
                            out0: seq<Byte>, e0: Error, b0: bool, m0: Mode)
      reads this
    {
      && Valid() && |rom| == DEVICE_BYTES && addr < 65536 && addr == |Flatten(frames)| % 65536
      && whole == Then(frames, RunLoad(inp, pos, addr, len))
      && out == out0 + Acks(|frames|) && hw.rom == Program(rom, Flatten(frames))
      && errno == e0 && blocked == b0 && mode == (if |Flatten(frames)| == 0 then m0 else Standby)
    }

    /**
      One pass of `load`'s loop: receive a message (acknowledging it) and
      write it from `addr` on; -1 when the receive fails, which ends the run.
    */
    method LoadMessage(buf: array<Byte>, addr: nat, len: nat, ghost whole: LoadRun, ghost rom: seq<Byte>,
                       ghost frames: seq<seq<Byte>>, ghost out0: seq<Byte>, ghost e0: Error, ghost b0: bool,
                       ghost m0: Mode)
      returns (cnt: int, next: nat, ghost frames': seq<seq<Byte>>)
      requires Loading(whole, rom, frames, addr, len, out0, e0, b0, m0) && addr < len && buf.Length == 1 + MAX_PAYLOAD
      modifies this, buf
      ensures if cnt == -1 then Valid() && LoadEnded(whole, rom, out0, e0, b0, m0)
              else Loading(whole, rom, frames', next, len, out0, e0, b0, m0) && pos > old(pos)
    {
      ghost var p := pos;
      cnt := Receive(buf, 1 + MAX_PAYLOAD, true);
      if cnt == -1 {
        LoadStops(inp, p, addr, len);
        assert frames + [] == frames;
        return cnt, addr, frames;
      }
      next, frames' := StoreMessage(buf, cnt, addr, len, p, whole, rom, frames, out0, e0, b0, m0);
    }

    /** The rest of a pass of `load`'s loop once a message has arrived and been acknowledged: write it. */
    method StoreMessage(buf: array<Byte>, cnt: nat, addr: nat, len: nat, ghost p: nat, ghost whole: LoadRun,
                        ghost rom: seq<Byte>, ghost frames: seq<seq<Byte>>, ghost out0: seq<Byte>, ghost e0: Error,
                        ghost b0: bool, ghost m0: Mode)
      returns (next: nat, ghost frames': seq<seq<Byte>>)
      requires Valid() && |rom| == DEVICE_BYTES && addr < len && addr < 65536 && addr == |Flatten(frames)| % 65536
      requires whole == Then(frames, RunLoad(inp, p, addr, len))
      requires cnt <= buf.Length && ParseFrame(inp, p, MAX_PAYLOAD + 1) == Received(buf[..cnt], pos)
      requires out == out0 + Acks(|frames|) + Frame([]) && hw.rom == Program(rom, Flatten(frames))
      requires errno == e0 && blocked == b0 && mode == (if |Flatten(frames)| == 0 then m0 else Standby)
      modifies this
      ensures Loading(whole, rom, frames', next, len, out0, e0, b0, m0) && pos == old(pos)
    {
      ghost var payload := buf[..cnt];
      LoadStep(inp, p, addr, len, payload, pos);
      LoadAdvance(inp, whole, len, frames, p, addr, payload, pos);
      next := WriteChunk(buf, cnt, addr, rom, Flatten(frames));
      frames' := frames + [payload];
      assert Flatten(frames') == Flatten(frames) + payload;
      assert hw.rom == Program(rom, Flatten(frames')) && next == |Flatten(frames')| % 65536;
      assert Acks(|frames'|) == Acks(|frames|) + Frame([]);
    }

    /** How a failed `load` leaves the board after `run`. */
    ghost predicate LoadEnded(run: LoadRun, rom: seq<Byte>, out0: seq<Byte>, e0: Error, b0: bool, m0: Mode)
      requires |rom| == DEVICE_BYTES
      reads this
    {
      && run.status != Finished && pos == run.next
      && errno == (if run.status == Broken then ECorrupt else e0)
      && blocked == (b0 || run.status == Stalled)
      && out == out0 + Acks(|run.frames|) && hw.rom == Program(rom, Flatten(run.frames))
      && mode == (if |Flatten(run.frames)| == 0 then m0 else Standby)
    }

    /**
      `load(len)`: messages of up to 64 bytes, each acknowledged on arrival,
      are written to addresses 0, 1, 2, ... until the address reaches `len`;
      a failed receive ends it with -1.
    */
    method Load(len: nat) returns (r: int)
      requires Valid() && len < 65536
      modifies this
      ensures Valid()
      ensures var run := RunLoad(inp, old(pos), 0, len);
        && r == (if run.status == Finished then 0 else -1)
        && pos == run.next
        && errno == (if run.status == Broken then ECorrupt else old(errno))
        && blocked == (old(blocked) || run.status == Stalled)
        && out == old(out) + Acks(|run.frames|)
        && hw.rom == Program(old(hw).rom, Flatten(run.frames))
        && mode == (if |Flatten(run.frames)| == 0 then old(mode) else Standby)
    {
      ghost var whole, rom := RunLoad(inp, pos, 0, len), hw.rom;
      ghost var frames: seq<seq<Byte>> := [];
      var addr: nat := 0;
      var buf := new Byte[1 + MAX_PAYLOAD];
      assert Flatten(frames) == [];
      while addr < len
        invariant Loading(whole, rom, frames, addr, len, old(out), old(errno), old(blocked), old(mode))
        decreases |inp| - pos
      {
        ghost var p := pos;
        var cnt;
        cnt, addr, frames := LoadMessage(buf, addr, len, whole, rom, frames, old(out), old(errno), old(blocked), old(mode));
        if cnt == -1 {
          return -1;
        }
      }
      assert frames + [] == frames;
      return 0;
    }

    // ---------------------------------------------------------------------
    // Command loop

    /**
      `processError`: the LED flashes when the latch is set, and the latch is
      cleared.  The result says whether it flashed.
    */
    method ProcessError() returns (flashed: bool)
      modifies this
      ensures flashed == (old(errno) != Ok) && errno == Ok
      ensures hw == old(hw) && mode == old(mode) && trace == old(trace) && contended == old(contended)
      ensures pos == old(pos) && out == old(out) && blocked == old(blocked)
    {
      flashed := errno != Ok;
      errno := Ok;
    }

    /**
      One pass of `loop`: when a byte is waiting, receive a message of up to
      64 bytes without acknowledging it and carry out the command it holds;
      then report and clear the error latch.
    */
    method Loop() returns (flashed: bool)
      requires Valid()
      modifies this
      ensures Valid() && errno == Ok
      ensures mode == old(mode) || mode == Standby
      ensures var t := Serve(inp, old(pos), old(errno), old(hw).rom);
        && pos == t.next && out == old(out) + t.sent && hw.rom == t.rom
        && flashed == (t.errno != Ok) && blocked == (old(blocked) || t.stalled)
    {
      Poll();
      flashed := ProcessError();
    }

    /** The body of `loop` up to `processError`: `Serve` before the latch is reported. */
    method Poll()
      requires Valid()
      modifies this
      ensures Valid() && (mode == old(mode) || mode == Standby)
      ensures var t := Serve(inp, old(pos), old(errno), old(hw).rom);
        && pos == t.next && out == old(out) + t.sent && hw.rom == t.rom
        && errno == t.errno && blocked == (old(blocked) || t.stalled)
    {
      if pos < |inp| {
        Handle();
      }
    }

    /** A byte is waiting: receive the message it starts, without acknowledging it, and carry it out. */
    method Handle()
      requires Valid() && pos < |inp|
      modifies this
      ensures Valid() && (mode == old(mode) || mode == Standby)
      ensures var t := Serve(inp, old(pos), old(errno), old(hw).rom);
        && pos == t.next && out == old(out) + t.sent && hw.rom == t.rom
        && errno == t.errno && blocked == (old(blocked) || t.stalled)
    {
      ghost var rx, t := ParseFrame(inp, pos, MAX_PAYLOAD + 1), Serve(inp, pos, errno, hw.rom);
      var buf := new Byte[1 + MAX_PAYLOAD];
      var len := Receive(buf, 1 + MAX_PAYLOAD, false);
      if len > 0 {
        assert rx.Received? && buf[..len] == rx.payload;
        assert t == Execute(inp, pos, old(errno), old(hw).rom, buf[..len]);
        Dispatch(buf, len);
      } else {
        assert out == old(out) && t == Turn(pos, [], hw.rom, errno, false);
        assert out == old(out) + t.sent;
      }
    }

    /** The branches of `loop` for a received message of `len` bytes, `len > 0`. */
    method Dispatch(buf: array<Byte>, len: nat)
      requires Valid() && 0 < len <= MAX_PAYLOAD + 1 && len <= buf.Length
      modifies this
      ensures Valid() && (mode == old(mode) || mode == Standby)
      ensures var c := Decode(buf[..len]); c.ReadByte? || c.WriteByte? || c.DumpAll? ==> mode == Standby
      ensures var t := Execute(inp, old(pos), old(errno), old(hw).rom, buf[..len]);
        && pos == t.next && out == old(out) + t.sent && hw.rom == t.rom
        && errno == t.errno && blocked == (old(blocked) || t.stalled)
    {
      if buf[0] == OP_READ && len == 3 {
        var val := ReadAddr(Word(buf[1], buf[2]));
        var _ := Send([val], false);
      } else if buf[0] == OP_WRITE && len == 4 {
        WriteAddr(Word(buf[1], buf[2]), buf[3]);
        var _ := Send([], false);
      } else if buf[0] == OP_DUMP && len == 1 {
        var _ := Dump();
      } else if buf[0] == OP_LOAD && len == 3 {
        var _ := Send([], false);
        var _ := Load(Word(buf[1], buf[2]));
      } else if buf[0] == OP_READ && len == 1 {
      } else {
        errno := EUnknown;
      }
    }
  }

  /** Where `dump`'s `addr % MAX_PAYLOAD` puts the next byte, given c full messages and i pending bytes. */
  lemma DumpIndex(addr: nat, c: nat, i: nat)
    requires addr == MAX_PAYLOAD * c + i && i <= MAX_PAYLOAD
    ensures addr % MAX_PAYLOAD == (if i == MAX_PAYLOAD then 0 else i)
  {
    if i == MAX_PAYLOAD {
      assert addr == MAX_PAYLOAD * (c + 1);
    }
  }

  /** The loop of `dump` ends with 520 full messages sent and 8 bytes pending. */
  lemma DumpTail(c: nat, i: nat)
    requires MAX_PAYLOAD * c + i == DEVICE_BYTES && i <= MAX_PAYLOAD
    ensures c == 520 && i == 8
  {
  }

  /** One message received and written: the run so far grows by it. */
  lemma LoadAdvance(inp: seq<Byte>, whole: LoadRun, len: nat, frames: seq<seq<Byte>>, p: nat, addr: nat,
                    payload: seq<Byte>, n: nat)
    requires whole == Then(frames, RunLoad(inp, p, addr, len))
    requires addr < len && addr == |Flatten(frames)| % 65536
    requires RunLoad(inp, p, addr, len) == Then([payload], RunLoad(inp, n, (addr + |payload|) % 65536, len))
    ensures Flatten(frames + [payload]) == Flatten(frames) + payload
    ensures whole == Then(frames + [payload], RunLoad(inp, n, |Flatten(frames + [payload])| % 65536, len))
  {
    var a' := (addr + |payload|) % 65536;
    var rest := RunLoad(inp, n, a', len);
    FlattenSnoc(frames, payload);
    AddressAdvance(addr, |Flatten(frames)|, |payload|);
    ThenSnoc(frames, payload, rest);
  }

  /** Advancing a wrapped 16-bit address by k is wrapping the advanced count. */
  lemma AddressAdvance(a: nat, x: nat, k: nat)
    requires a == x % 65536
    ensures (a + k) % 65536 == (x + k) % 65536
  {
    var q := x / 65536;
    assert x + k == (x % 65536 + k) + 65536 * q;
  }

  /** Writing one more byte: the cell at the next 16-bit address takes it. */
  lemma ProgramStep(rom: seq<Byte>, data: seq<Byte>, v: Byte)
    requires |rom| == DEVICE_BYTES
    ensures Program(rom, data + [v]) == Program(rom, data)[(|data| % 65536) % 32768 := v]
  {
    assert (data + [v])[..|data|] == data;
    WrapCell(|data|);
  }

  /** `addr++` on a 16-bit address. */
  lemma NextAddress(x: nat)
    ensures (x % 65536 + 1) % 65536 == (x + 1) % 65536
  {
  }

  /** Cell of a 16-bit address: dropping bit 15 after wrapping at 65536 is dropping it at once. */
  lemma WrapCell(x: nat)
    ensures (x % 65536) % 32768 == x % 32768
  {
    var r := x % 65536;
    assert x == r + 65536 * (x / 65536);
    ModOfSplit(x, r % 32768, r / 32768 + 2 * (x / 65536));
  }

  // -----------------------------------------------------------------------
  // The command loop seen from the host

  /** Writing a byte and reading the same address back returns the byte. */
  lemma WriteThenRead(pre: seq<Byte>, post: seq<Byte>, a: nat, v: Byte, e: Error, rom: seq<Byte>)
    requires |rom| == DEVICE_BYTES && a < 65536
    ensures var inp := pre + Frame([OP_WRITE, a / 256, a % 256, v]) + Frame([OP_READ, a / 256, a % 256]) + post;
            var t1 := Serve(inp, |pre|, e, rom);
            var t2 := Serve(inp, t1.next, Ok, t1.rom);
            && t1.sent == Frame([]) && t1.errno == e && t1.next == |pre| + 5
            && t2.sent == Frame([v]) && t2.errno == Ok && t2.next == |pre| + 9
            && t2.rom == rom[a % 32768 := v]
  {
    var w: seq<Byte>, r: seq<Byte> := [OP_WRITE, a / 256, a % 256, v], [OP_READ, a / 256, a % 256];
    var inp := pre + Frame(w) + Frame(r) + post;
    assert inp == pre + Frame(w) + (Frame(r) + post);
    FrameRoundTrip(pre, w, Frame(r) + post, MAX_PAYLOAD + 1);
    FrameRoundTrip(pre + Frame(w), r, post, MAX_PAYLOAD + 1);
    assert Word(a / 256, a % 256) == a;
  }

  /** A command never moves the cursor back, and only a write or a load changes the chip. */
  lemma ExecuteEffects(inp: seq<Byte>, n: nat, e: Error, rom: seq<Byte>, msg: seq<Byte>)
    requires |rom| == DEVICE_BYTES && |msg| > 0
    ensures var t := Execute(inp, n, e, rom, msg);
            n <= t.next && (t.rom != rom ==> msg[0] == OP_WRITE || msg[0] == OP_LOAD)
  {
  }

  /**
    A pass of `loop` with no byte waiting changes nothing; otherwise it
    moves the cursor forward.
  */
  lemma ServeProgress(inp: seq<Byte>, p: nat, e: Error, rom: seq<Byte>)
    requires |rom| == DEVICE_BYTES
    ensures var t := Serve(inp, p, e, rom);
            && (p >= |inp| ==> t == Turn(p, [], rom, e, false))
            && (p < |inp| ==> p < t.next)
  {
    if p < |inp| {
      match ParseFrame(inp, p, MAX_PAYLOAD + 1)
      case Corrupt(_) =>
      case Received(msg, n) =>
        if msg != [] {
          ExecuteEffects(inp, n, e, rom, msg);
        }
    }
  }

  /** A lone 'r' (the host's reset request) is consumed and changes nothing. */
  lemma ResetIgnored(pre: seq<Byte>, post: seq<Byte>, e: Error, rom: seq<Byte>)
    requires |rom| == DEVICE_BYTES
    ensures Serve(pre + Frame([OP_READ]) + post, |pre|, e, rom) == Turn(|pre| + 2, [], rom, e, false)
  {
    FrameRoundTrip(pre, [OP_READ], post, MAX_PAYLOAD + 1);
  }

  /**
    A dump acknowledged throughout sends the whole EEPROM, in order, and
    leaves the stream right after the last acknowledgement.
  */
  lemma DumpSendsImage(pre: seq<Byte>, post: seq<Byte>, e: Error, rom: seq<Byte>)
    requires |rom| == DEVICE_BYTES
    ensures var t := Serve(pre + Frame([OP_DUMP]) + Acks(DUMP_FRAMES) + post, |pre|, e, rom);
            && t.sent == Encode(DumpChunks(rom, DUMP_FRAMES)) && Flatten(DumpChunks(rom, DUMP_FRAMES)) == rom
            && t.next == |pre| + 2 + DUMP_FRAMES && t.errno == e && !t.stalled
  {
    var pre' := pre + Frame([OP_DUMP]);
    var inp := pre' + Acks(DUMP_FRAMES) + post;
    assert inp == pre + Frame([OP_DUMP]) + (Acks(DUMP_FRAMES) + post);
    FrameRoundTrip(pre, [OP_DUMP], Acks(DUMP_FRAMES) + post, MAX_PAYLOAD + 1);
    AcksAt(pre', DUMP_FRAMES, post);
    DumpCompletes(inp, |pre'|, e);
    ServeDump(inp, |pre|, |pre'|, e, rom);
    DumpCovers(rom);
  }

  /** A dump command is executed by running `dump` right after it. */
  lemma ServeDump(inp: seq<Byte>, p: nat, n: nat, e: Error, rom: seq<Byte>)
    requires |rom| == DEVICE_BYTES && ParseFrame(inp, p, MAX_PAYLOAD + 1) == Received([OP_DUMP], n)
    ensures var o := DumpSpec(inp, n, e);
            Serve(inp, p, e, rom) == Turn(o.next, Encode(DumpChunks(rom, o.frames)), rom, o.errno, o.starved)
  {
    assert Decode([OP_DUMP]) == DumpAll;
  }

  lemma AcksAt(pre: seq<Byte>, n: nat, post: seq<Byte>)
    ensures |pre| + n <= |pre + Acks(n) + post|
    ensures forall k :: |pre| <= k < |pre| + n ==> (pre + Acks(n) + post)[k] == 0
  {
  }

  /**
    Loading an image sent as messages of 1 to 64 bytes that add up to the
    announced length, at most the device size, acknowledges the command and
    each message and leaves the image at the bottom of the EEPROM.
  */
  lemma LoadWritesImage(pre: seq<Byte>, chunks: seq<seq<Byte>>, post: seq<Byte>, e: Error, rom: seq<Byte>)
    requires |rom| == DEVICE_BYTES && 0 < |Flatten(chunks)| <= DEVICE_BYTES
    requires forall j :: 0 <= j < |chunks| ==> 0 < |chunks[j]| <= MAX_PAYLOAD + 1
    ensures var len := |Flatten(chunks)|;
            var t := Serve(pre + Frame([OP_LOAD, len / 256, len % 256]) + Encode(chunks) + post, |pre|, e, rom);
            && t.sent == Frame([]) + Acks(|chunks|) && t.rom == Flatten(chunks) + rom[len..]
            && t.next == |pre| + 4 + |Encode(chunks)| && t.errno == e && !t.stalled
  {
    var len := |Flatten(chunks)|;
    var cmd: seq<Byte> := [OP_LOAD, len / 256, len % 256];
    var pre' := pre + Frame(cmd);
    var rest := Encode(chunks) + post;
    var inp := pre' + Encode(chunks) + post;
    assert inp == pre + Frame(cmd) + rest;
    FrameRoundTrip(pre, cmd, rest, MAX_PAYLOAD + 1);
    assert Word(len / 256, len % 256) == len;
    LoadConsumes(pre', chunks, post, 0, len);
    ServeLoad(inp, |pre|, |pre'|, e, rom, cmd, len, LoadRun(chunks, |pre'| + |Encode(chunks)|, Finished));
    ProgramAt(rom, Flatten(chunks));
  }

  /** A well-formed load command is executed by running `load` right after it. */
  lemma ServeLoad(inp: seq<Byte>, p: nat, n: nat, e: Error, rom: seq<Byte>, cmd: seq<Byte>, len: nat, run: LoadRun)
    requires |rom| == DEVICE_BYTES && ParseFrame(inp, p, MAX_PAYLOAD + 1) == Received(cmd, n)
    requires cmd == [OP_LOAD, len / 256, len % 256] && len < 65536 && RunLoad(inp, n, 0, len) == run
    ensures Serve(inp, p, e, rom)
            == Turn(run.next, Frame([]) + Acks(|run.frames|), Program(rom, Flatten(run.frames)),
                    if run.status == Broken then ECorrupt else e, run.status == Stalled)
  {
    assert Word(len / 256, len % 256) == len;
    assert Decode(cmd) == LoadImage(len);
  }
}
