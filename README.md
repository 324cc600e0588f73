# AT28C256 EEPROM programmer, modelled in Dafny

The repository is a programmer for the AT28C256, a 32 KiB parallel EEPROM. It has two parts that
share one serial protocol:

- an Arduino firmware (`src/arduino.cpp`). It drives the chip's data lines and its CE/OE/WE
  control lines, and it presents addresses through two daisy-chained 74HC595 shift registers;
- a Python host client (`eeprom.py`). It reads and writes single bytes, dumps the whole chip to a
  file and loads an image file onto it.

The protocol is length-prefixed. Every message is one length octet followed by that many payload
bytes. The empty message is an acknowledgement. Commands are `'r' hi lo` (read a byte),
`'w' hi lo v` (write a byte), `'d'` (dump the chip), `'l' hi lo` (load that many bytes) and a lone
`'r'` (reset, which an idle firmware ignores).

## What the model contains

- `protocol.dfy` (module `Protocol`): the byte type, frames and their encoding.
  - `ParseFrame` is what the firmware's `receive` finds on the line.
  - `ReplyErrno` is how `send` sets the error latch from a reply.
  - `Decode` turns a message into a command.
- `bits.dfy` (module `Bits`): bit extraction on integers, the shift and mask arithmetic the
  firmware uses.
- `hardware.dfy` (module `Hardware`): the board as a value.
  - It holds the data-line directions and levels, CE/OE/WE, SER/SCLK/RCLK, the shift stage and
    storage latch of the 74HC595 chain, and the 32768 EEPROM cells.
  - Each GPIO call is an event, and `Apply` gives its effect. A rising SCLK edge shifts SER in. A
    rising RCLK edge latches the chain. A rising WE edge with CE LOW and OE HIGH stores the data
    byte in the addressed cell.
  - Address line A15 is not connected, so address `a` selects cell `a % 32768`.
- `bulk.dfy` (module `Bulk`): what `dump` and `load` do, as functions of the chip contents and the
  host's byte stream.
  - `DumpSpec` gives the outcome of `dump`. `DumpChunks` gives the messages it sends.
  - `RunLoad` gives the messages `load` programs and how it ends.
  - `Program` gives the contents of the chip after a load.
- `firmware.dfy` (module `Firmware`): the firmware as class `Board`.
  - Its fields are the globals `mode` and `errno`, the board, the host's byte stream with a read
    cursor, and everything written back.
  - Every function of the core is a method. The loops are proved against the specification
    functions above.
  - Ghost fields record every GPIO call in order (`trace`) and whether the bus was ever driven
    from both ends (`contended`). `Valid()` keeps `contended` false, so no intermediate state of
    any operation drives a data line while CE and OE are both LOW.
  - `Serve` states one pass of `loop` as a function. The end-to-end lemmas are stated with it:
    `WriteThenRead`, `ResetIgnored`, `DumpSendsImage` and `LoadWritesImage`.
- `host_codec.dfy` (module `HostCodec`): the pure parts of the client.
  - `Atoi` with its round trip.
  - The `struct.pack` payloads, each proved to decode to the command the firmware dispatches on.
  - `Chunks`, the way `fload` cuts an image into messages.
- `host.dfy` (module `Host`): the client as class `AT28C256`, over a port model.
  - The port is given everything the device will send (`rx`). It is also given, per read call,
    how many bytes arrive before the 30-second timeout (`grants`).
  - Where the Python code would loop forever on a silent port, the model returns
    `Raised(Hang)`.
  - `LoadedImage` and `DumpedImage` connect the client's messages to the firmware model.

### Where the comments and the code disagree (the model follows the code)

- `writeAddr` (src/arduino.cpp:218-235) is documented as requiring WRITE mode beforehand. It calls
  `writeMode()` itself and ends in `standbyMode()`. `Board.WriteAddr` therefore requires nothing
  of the mode and ends in `Standby`.
- Only `readMode` checks the current mode (src/arduino.cpp:322). `writeMode` and `standbyMode`
  always redo their calls.
- `load` writes every byte of the message that takes the address past `len`
  (src/arduino.cpp:280-290). `Bulk.LoadOvershoot` and `Bulk.LoadPastLength` state this.
- The firmware's `MAX_PAYLOAD` is 63 (src/arduino.cpp:57). Its command and load buffers hold 64
  bytes. The client's `MAXPAYLOAD` is 62 (eeprom.py:71).

## Model

| member | source | states |
|---|---|---|
| Protocol.Acks | src/arduino.cpp:140 | n acknowledgements are n zero bytes: the empty message is its zero length octet alone |
| Protocol.ParseFrame | src/arduino.cpp:128-139 | no byte waiting is starved. A declared length over the buffer, or a stream that ends first, is corrupt, and the cursor stops after what was copied: at `pos + 1 + min(declared, cap, available)`, where the firmware reads its next length octet. Otherwise the payload is exactly the declared bytes after the length octet, and the cursor is right after them |
| Protocol.FrameRoundTrip | src/arduino.cpp:156-160 | a frame written by `send` is read back whole by `receive` when it fits the buffer |
| Protocol.AckIsZeroByte | src/arduino.cpp:161-164 | the reply `send` accepts as an acknowledgement is exactly a zero byte on the line |
| Protocol.AckRun | src/arduino.cpp:253 | the run of acknowledgements at a position is all zero bytes and is maximal |
| Protocol.Frame | src/arduino.cpp:156-160 | definition: a message on the line is one length octet, the low byte of the payload length, followed by the payload. `FrameRoundTrip` is its partner |
| Protocol.Encode | src/arduino.cpp:156-160 | definition: messages sent back to back are their frames concatenated, in order |
| Protocol.ReplyErrno | src/arduino.cpp:164-171 | definition: the latch after an acknowledgement wait. A lone 'r' is E_RESET, another non-empty message E_UNEXPECTED, and a failed receive keeps what `receive` set |
| Protocol.ReplyErrnoSets | src/arduino.cpp:164-171 | the latch after an acknowledgement wait is the old latch, E_RESET, E_CORRUPT or E_UNEXPECTED. An acknowledgement leaves it alone, and any non-empty reply sets it |
| Protocol.Decode | src/arduino.cpp:374-396 | definition: the opcode and the exact length select the command, in the order of the branches of `loop` |
| Protocol.DecodeShape | src/arduino.cpp:374-396 | every recognised command is at most 4 bytes, a dump is exactly `'d'` and a reset request exactly a lone `'r'` |
| Protocol.Word | src/arduino.cpp:376 | `(buf[1] << 8) + buf[2]` is below 65536, with `buf[1]` as its high byte and `buf[2]` as its low byte |
| Hardware.Apply | src/arduino.cpp:177-235 | the effect of one `digitalWrite` or `pinMode` on the board, which stays well formed: 8 data lines, 16 register bits and 32768 cells |
| Hardware.ApplyEffects | src/arduino.cpp:177-235 | only a WE rising edge changes the chip, only an RCLK rising edge changes the register outputs, and only an SCLK rising edge shifts the chain |
| Bits.WordFromBits | src/arduino.cpp:187-195 | the sixteen bits `loadShiftAddr` shifts out, read back as a number, are the address modulo 65536 |
| Hardware.ShiftOutShape | src/arduino.cpp:187-195 | `loadShiftAddr` puts bits 15 down to 0 on SER, each followed by one SCLK pulse, then pulses RCLK exactly once |
| Hardware.CellOfLatch | src/arduino.cpp:200-202 | with the 16 bits of `a` latched, the chip selects cell `a % 32768` |
| Bulk.DumpChunks | src/arduino.cpp:248-258 | the first c messages of a dump are c messages of consecutive cells |
| Bulk.DumpPrefix | src/arduino.cpp:248-258 | the first c messages carry cells 0 to 63c-1, in address order |
| Bulk.DumpCovers | src/arduino.cpp:244-265 | a full dump is 520 messages of 63 bytes and one of 8, and together they are the whole chip in order |
| Bulk.DumpSpec | src/arduino.cpp:244-265 | `dump` returns 0 exactly when all 521 messages are acknowledged, and -1 otherwise. It sends 1 to 521 messages |
| Bulk.DumpStops | src/arduino.cpp:253-255 | the first reply after c acknowledgements that is not one ends the dump after message c+1. The latch is set as `send` sets it |
| Bulk.DumpCompletes | src/arduino.cpp:259-264 | 521 acknowledgements: 521 messages, result 0, latch untouched |
| Bulk.Program | src/arduino.cpp:287-290 | writing to consecutive addresses keeps the chip at 32768 cells |
| Bulk.ProgramAt | src/arduino.cpp:287-290 | an image no larger than the chip lands cell for cell from address 0, and the cells after it are unchanged |
| Bulk.RunLoad | src/arduino.cpp:280-291 | each programmed message has at most 64 bytes. A run stalls only at the end of the stream. The cursor never moves back |
| Bulk.LoadOvershoot | src/arduino.cpp:280-290 | for `len <= 65536 - 64`, where the address cannot wrap, a finished `load(len)` has written at least `len` bytes and fewer than `len + 64` |
| Bulk.LoadPastLength | src/arduino.cpp:287-290 | `load(1)` given one 3-byte message programs all three bytes |
| Bulk.LoadConsumes | src/arduino.cpp:276-293 | messages of 1 to 64 bytes adding up to the length are consumed exactly: all are programmed in order, and the run finishes right after the last |
| Bulk.LoadStep | src/arduino.cpp:281-290 | a message received below `len` is programmed, and the loop goes on at the address advanced by its length, modulo 65536 |
| Bulk.LoadStops | src/arduino.cpp:281-285 | a failed receive below `len` ends the run where the receive stopped. A silent host means stalled, a cut message means broken |
| Firmware.Execute | src/arduino.cpp:374-396 | definition: what the branches of `loop` do with a decoded command, as a function of the stream, latch and chip. `Board.Dispatch` is proved against it |
| Firmware.ExecuteEffects | src/arduino.cpp:374-396 | a command never moves the cursor back, and only a write or a load can change the chip |
| Firmware.Serve | src/arduino.cpp:368-399 | definition: one pass of `loop` before `processError`. `Board.Poll` and `Board.Loop` are proved against it |
| Firmware.ServeProgress | src/arduino.cpp:368-399 | with no byte waiting a pass changes nothing and does not move the cursor. Otherwise the cursor moves forward |
| Firmware.WriteAddrStrobesOnce | src/arduino.cpp:218-235 | the calls of `writeAddr` pull WE LOW exactly once: after the address is latched, `writeMode` has run and the data lines carry the byte. WE goes HIGH right after |
| Firmware.Board.constructor | src/arduino.cpp:95-116 | the board starts in STANDBY with `errno == OK`, nothing read or sent, and no contention. The shift registers hold any 16 bits they powered up with, because `setup` only holds their clear input inactive |
| Firmware.Board.DigitalWrite | src/arduino.cpp:177-182 | `digitalWrite` applies one level change to the board and records it in the trace. Contention is noted if it arises |
| Firmware.Board.PinMode | src/arduino.cpp:301-349 | `pinMode` on a data line applies one direction change and records it, noting any contention |
| Firmware.Board.DigitalRead | src/arduino.cpp:205-208 | `digitalRead` of a data line senses the level the bus carries there |
| Firmware.Board.Pulse | src/arduino.cpp:177-182 | a pulse is HIGH then LOW on one line |
| Firmware.Board.SerialRead | src/arduino.cpp:131 | `Serial.read()` gives the next byte and advances, or -1 when none is waiting |
| Firmware.Board.ReadBytes | src/arduino.cpp:135 | `Serial.readBytes` copies up to n bytes in order, fewer when the stream ends, and leaves the rest of the buffer alone |
| Firmware.Board.Receive | src/arduino.cpp:128-144 | the result follows `ParseFrame`. Starved is -1 and leaves the board blocked. Corrupt is -1, sets E_CORRUPT, is not acknowledged and writes nothing past the copied bytes. Received returns the length with the payload in `buf`, and sends exactly one zero byte when `sendAck` is set |
| Firmware.Board.Send | src/arduino.cpp:156-175 | the length octet and the payload go out. Without `waitForAck` it returns 0 and changes nothing else. With it, the result is 0 exactly for an acknowledgement and -1 otherwise, and `errno` is `ReplyErrno`: E_RESET for a lone 'r', E_UNEXPECTED for another message, unchanged by `send` on a failed receive |
| Firmware.Board.AwaitAck | src/arduino.cpp:161-173 | the acknowledgement wait of `send`, with the same result and latch as above |
| Firmware.Board.WriteMode | src/arduino.cpp:301-313 | CE LOW, OE HIGH, WE HIGH, then the eight data lines become outputs, with no contention at any step. The mode is WRITE |
| Firmware.Board.ReadMode | src/arduino.cpp:321-335 | when already in READ, no call is made and nothing changes. Otherwise the data lines become inputs before CE and OE go LOW, and the mode is READ |
| Firmware.Board.StandbyMode | src/arduino.cpp:337-349 | the data lines become inputs, then OE LOW, CE HIGH, WE HIGH. The mode is STANDBY |
| Firmware.Board.DataToInputs | src/arduino.cpp:338-340 | the eight data lines become inputs, IO0 first, and nothing else changes |
| Firmware.Board.LoadShiftAddr | src/arduino.cpp:187-195 | the chain and the latch hold the 16 bits of `addr`, and the calls are exactly `ShiftOut(addr)` |
| Firmware.Board.ReadData | src/arduino.cpp:205-208 | with the data lines as inputs in READ mode, the assembled byte is the byte in the addressed cell |
| Firmware.Board.ReadAddr | src/arduino.cpp:200-211 | returns the byte stored at `addr % 32768`, changes no cell and ends in STANDBY. The calls are `readMode`'s (none when already in READ), `ShiftOut(addr)`, then `standbyMode`'s |
| Firmware.Board.WriteAddr | src/arduino.cpp:218-235 | cell `addr % 32768` becomes `val` and no other cell changes. The board ends in STANDBY, and the calls are exactly `WriteAddrCalls(addr, val)` |
| Firmware.Board.Dump | src/arduino.cpp:244-265 | the result, cursor, latch and blocked state are those of `DumpSpec`. What goes out is the first `frames` messages of `DumpChunks` of the chip. The chip is unchanged and the board ends in STANDBY |
| Firmware.Board.DumpByte | src/arduino.cpp:248-258 | one pass of the loop: sends the full buffer when `addr` starts a new message, then buffers cell `addr`. On -1 it is the outcome of `DumpSpec` |
| Firmware.Board.BufferByte | src/arduino.cpp:257 | `payload[i++] = readAddr(addr)` extends the buffer with cell `addr` |
| Firmware.Board.SendChunk | src/arduino.cpp:253-262 | sending message c: on 0 it is acknowledged, and after the 521st the dump is complete. On -1 the dump stops exactly there, as `DumpSpec` says |
| Firmware.Board.WriteChunk | src/arduino.cpp:287-290 | the inner loop of `load` programs the received bytes at consecutive 16-bit addresses. The bus is in STANDBY after it, unless the message was empty |
| Firmware.Board.WriteNext | src/arduino.cpp:288 | `writeAddr(addr++, buf[i])` programs one byte, the address wraps at 65536, and the bus is in STANDBY |
| Firmware.Board.LoadMessage | src/arduino.cpp:281-290 | one pass of the loop of `load`: either the run continues with one more acknowledged and programmed message, or the run has ended as `RunLoad` says |
| Firmware.Board.StoreMessage | src/arduino.cpp:287-290 | a received message is written from the current address, and the run so far grows by it |
| Firmware.Board.Load | src/arduino.cpp:276-293 | the result, cursor, latch, blocked state, acknowledgements and chip contents are exactly those of `RunLoad` from address 0. The bus is in STANDBY once any byte was written, and in its earlier mode otherwise |
| Firmware.Board.ProcessError | src/arduino.cpp:354-366 | the LED flashes exactly when the latch was set, and the latch is cleared |
| Firmware.Board.Loop | src/arduino.cpp:368-401 | one pass equals `Serve`: cursor, output, chip and blocked state. It flashes exactly when the pass set an error, and it ends with `errno == OK`. The bus ends in STANDBY or in the mode it started in, so a board in STANDBY stays there between passes |
| Firmware.Board.Poll | src/arduino.cpp:369-399 | the pass before `processError`: when a byte is waiting, the message is received without acknowledgement and dispatched. Cursor, output, chip, latch and blocked state are those of `Serve`, and the bus ends in STANDBY or in the mode it started in |
| Firmware.Board.Handle | src/arduino.cpp:370-398 | with a byte waiting: the message is received without acknowledgement and, when non-empty, dispatched. The result is `Serve` as for `Poll` |
| Firmware.Board.Dispatch | src/arduino.cpp:374-396 | the branches on opcode and length equal `Execute` of `Decode` of the message. A read replies with the cell in a 1-byte message. A write replies with the empty message. Load acknowledges and then loads, a lone 'r' does nothing, and anything else sets E_UNKNOWN. Read, write and dump end with the bus in STANDBY, and no branch leaves it in any mode but STANDBY or the one it started in |
| Firmware.DumpIndex | src/arduino.cpp:249 | `addr % 63` is the buffer index after c full messages, and 0 when the buffer is full |
| Firmware.DumpTail | src/arduino.cpp:260-262 | the loop of `dump` ends with 520 messages sent and 8 bytes buffered |
| Firmware.ProgramStep | src/arduino.cpp:288 | one more byte lands at the next 16-bit address modulo 32768 |
| Firmware.WrapCell | src/arduino.cpp:288 | wrapping at 65536 and then dropping A15 selects the same cell as dropping A15 at once |
| Firmware.WriteThenRead | src/arduino.cpp:375-382 | a write command and then a read command for the same address reply with the empty message and then with the byte written |
| Firmware.ResetIgnored | src/arduino.cpp:391-393 | a lone 'r' is consumed and changes nothing |
| Firmware.DumpSendsImage | src/arduino.cpp:384-385 | a dump acknowledged throughout sends the whole chip in order and leaves the cursor after the last acknowledgement |
| Firmware.ServeDump | src/arduino.cpp:384-385 | a `'d'` message is carried out as `dump` right after it |
| Firmware.LoadWritesImage | src/arduino.cpp:387-389 | the load command followed by messages of 1 to 64 bytes that add up to the length is acknowledged once, and then once per message. The image lands from address 0 and the rest of the chip is unchanged |
| Firmware.ServeLoad | src/arduino.cpp:387-389 | an `'l' hi lo` message is carried out as `load((hi << 8) + lo)` right after it |
| HostCodec.Atoi | eeprom.py:34-42 | definition: base 16 after "0x", base 8 after "0o", otherwise base 10 with an optional sign. `None` is the ValueError. Its properties are the rows below |
| HostCodec.AtoiSign | eeprom.py:34-42 | the empty string is a ValueError, and only a leading '-' gives a negative value |
| HostCodec.ParseBase | eeprom.py:39-42 | definition: `int(s, base)` of an unsigned digit string accepts one or more digits of the base and nothing else |
| HostCodec.ValueShow | eeprom.py:39-42 | a number written in base 2 to 16 without leading zeros denotes that number |
| HostCodec.AtoiRoundTrip | eeprom.py:34-42 | every natural number is read back from its "0x" hexadecimal, "0o" octal and plain decimal forms |
| HostCodec.AtoiPrefixed | eeprom.py:40-41 | after "0x" the digits are read in base 16, after "0o" in base 8 |
| HostCodec.AtoiDecimal | eeprom.py:42 | a plain string of decimal digits is read in base 10 |
| HostCodec.AtoiNegative | eeprom.py:39-42 | a minus sign before decimal digits negates their value |
| HostCodec.AtoiHexOnlyAfterPrefix | eeprom.py:40-42 | a hex digit above 9 is accepted after "0x" and rejected without it |
| HostCodec.PackRead | eeprom.py:102 | `pack('>cH', b'r', addr)` succeeds exactly for 0 <= addr < 65536, and gives 3 bytes the firmware decodes as a read of `addr` |
| HostCodec.PackWrite | eeprom.py:108 | `pack('>cHB', b'w', addr, val)` succeeds exactly for a 16-bit address and a byte value, and gives 4 bytes the firmware decodes as that write |
| HostCodec.PackLoad | eeprom.py:145 | `pack('>cH', b'l', size)` succeeds exactly for a 16-bit size, and gives 3 bytes the firmware decodes as a load of `size` bytes |
| HostCodec.PackReset | eeprom.py:164 | the reset payload is one byte that the firmware decodes as the ignored reset request |
| HostCodec.DumpCommand | eeprom.py:116 | the dump payload is one byte that the firmware decodes as a dump |
| HostCodec.Chunks | eeprom.py:148-154 | definition: the messages `fload` sends are 62-byte pieces of the image in order, the last one shorter. Its properties are the four rows below |
| HostCodec.ChunksFlatten | eeprom.py:148-154 | the messages `fload` sends, put back together, are the image |
| HostCodec.ChunksBounded | eeprom.py:150 | every message `fload` sends is non-empty and fits `MAXPAYLOAD` (62) |
| HostCodec.ChunksCount | eeprom.py:149-154 | `fload` sends `ceil(size / 62)` messages |
| HostCodec.ChunksStep | eeprom.py:150 | each message is the next `min(62, rest)` bytes |
| Host.Expected | eeprom.py:73-85 | definition of the intended `_receive`: a timed-out length read counts as length 0, then the `l` bytes after the length octet, or a hang when the device never sends them all |
| Host.Fill | eeprom.py:80-82 | definition of the loop as written: every `readinto(buf)` refills the buffer from its start, and `tot` adds up what the calls returned |
| Host.AsWritten | eeprom.py:78-85 | definition of `_receive` as written: the length read, then `Fill` of a fresh `bytearray(l)` |
| Host.ReceiveFrame | eeprom.py:78-85 | `_receive` takes back exactly the payload of a frame the firmware's `send` wrote, and leaves the port after it |
| Host.AsWrittenLosesFirstByte | eeprom.py:81-82 | with the first payload byte arriving alone before a timeout, the loop as written returns `[0xBB, 0]` for the frame `[0xAA, 0xBB]` |
| Host.AsWrittenWithoutTimeouts | eeprom.py:78-85 | when no read times out, the loop as written returns what the intended `_receive` returns |
| Host.DumpedImage | eeprom.py:118-123 | the payloads `fdump` reads off a device that sends the dump of a chip begin with the chip's cells, in order |
| Host.LoadedImage | eeprom.py:144-154 | the load command and `Chunks` of an image of 1 to 32768 bytes, fed to the firmware, are acknowledged once per message, and the image lands from address 0 |
| Host.DumpStep | eeprom.py:120-123 | cutting each message to `size - cnt` keeps `cnt <= size` and the file a prefix of the payloads, whole while it is short of `size` |
| Host.ChunkAdvance | eeprom.py:150-153 | the next message of `fload`'s loop is the next piece of `Chunks` of the image, and `cnt` stays within `min(size, len(file))` |
| Host.AT28C256.constructor | eeprom.py:69-71 | a client over a fresh port: nothing read or sent |
| Host.AT28C256.PortRead | eeprom.py:78 | `port.read(n)` hands over the bytes that arrive before the timeout, in order |
| Host.AT28C256.ReadInto | eeprom.py:82 | `readinto` on the view `buf[from:]` puts the bytes that arrive at `from` onward and leaves the rest of the buffer alone |
| Host.AT28C256.Transmit | eeprom.py:94-96 | one length byte equal to `len(data)`, then `data` |
| Host.AT28C256.Receive | eeprom.py:73-85 | reads one length byte (a timeout counts as 0) and exactly that many payload bytes. A port that goes silent first is a hang. With `ack` it sends the empty message afterwards |
| Host.AT28C256.ReceiveAsWritten | eeprom.py:73-85 | the code as written, with `readinto(buf)` filling from the start each time, equals `AsWritten` |
| Host.AT28C256.ReadAgain | eeprom.py:81-82 | one round of the loop as written: `tot += readinto(buf)` |
| Host.AT28C256.Send | eeprom.py:87-99 | more than 62 bytes is an AssertionError and nothing is written. Otherwise the frame is written. With `ack` the reply must be empty: a non-empty reply is an AssertionError, and a hung read is passed on |
| Host.AT28C256.Read | eeprom.py:101-105 | an unparsable address is a ValueError, one outside 16 bits a struct error, and neither touches the port. Otherwise it sends `PackRead` and returns the reply `_receive` gets. On a normal return the read position is just past that reply frame, so consecutive calls read consecutive frames |
| Host.AT28C256.Write | eeprom.py:107-109 | the same errors for the address or the value, with the port untouched. Otherwise it sends `PackWrite` and requires the empty reply, and the read position ends just past the reply frame |
| Host.AT28C256.Reset | eeprom.py:162-164 | sends the one-byte message 'r' and reads nothing |
| Host.AT28C256.FDump | eeprom.py:115-133 | sends 'd', then one acknowledgement per message read. The file is a prefix of the payloads read, in order, and never longer than `size`. On normal return it is exactly `size` bytes, and the bytes consumed are exactly those frames. A shorter dump is followed by a reset and one more frame, which is consumed and dropped |
| Host.AT28C256.Collect | eeprom.py:118-123 | the counting loop of `fdump`: `cnt` never passes `size`, and reaches it on normal exit. What goes out is one acknowledgement per message, and on normal exit the bytes consumed are exactly the frames read |
| Host.AT28C256.CollectOne | eeprom.py:119-123 | one message is received, acknowledged (exactly one more acknowledgement) and cut to what is still missing. On an error nothing more is sent |
| Host.AT28C256.FLoad | eeprom.py:144-160 | a size outside 16 bits is a struct error. Otherwise what goes out is always a prefix of the load command followed by `Chunks` of the first `min(size, len(file))` bytes, and all of it on normal return. When every message is acknowledged and no read times out, it returns normally, having read exactly one acknowledgement per message |
| Host.AT28C256.Stream | eeprom.py:148-157 | the loop of `fload`: the same, for the messages after the command, one acknowledgement read per message |
| Host.AT28C256.SendPiece | eeprom.py:153 | `self._send(data, ack=True)` for the next message: what went out grows by its frame and stays a prefix of the whole stream, and it is acknowledged when every message is |

## Left out

- Timing: `delayMicroseconds`, `delay` and the timing of `pulse`. A pulse is one HIGH then one LOW event.
- `setup` (src/arduino.cpp:95-116) is not modelled call by call. The `Board` constructor starts from the state it leaves: standby, with arbitrary power-on contents in the shift registers.
- The activity LED in `loop` and the blink loop in `processError`. `ProcessError` returns whether it would flash.
- `Serial` internals:
  - `Serial.available()` is "a byte is waiting".
  - `Serial.readBytes` stops at the end of the host's stream, standing in for its 120-second timeout.
  - The firmware's endless wait for a byte that never comes is a -1 return with the ghost `blocked` flag set. No caller sends or writes after it.
- Undefined-behaviour corner of `(buf[1] << 8) + buf[2]`: 16-bit signed arithmetic on an AVR. It is taken as the 16-bit word it is meant to be.
- On the host side, these are left out: pyserial (replaced by the port model with per-call timeouts), file I/O (an image is a byte sequence, `fdump` returns what it would write), the `fload.bin` copy, progress printing, the REPL, argparse, port detection and the random test.
- `HostCodec.Atoi`: Python's `int` also accepts surrounding whitespace, underscores between digits and non-ASCII digits. The model reads only ASCII digits, with the "0x"/"0o" prefixes `atoi` checks and the optional sign `int` accepts in base 10.
- `HostCodec.AtoiRoundTrip`: negative numbers are not part of it. `HostCodec.AtoiNegative` states the negative form for any digit string instead.
- `Host.AT28C256.Send`, `Host.AT28C256.Read`, `Host.AT28C256.Write`, `Host.AT28C256.FDump`, `Host.AT28C256.Collect`, `Host.AT28C256.CollectOne`, `Host.AT28C256.FLoad` and `Host.AT28C256.Stream` call the corrected `_receive` (`Host.AT28C256.Receive`), not the code as written (`Host.AT28C256.ReceiveAsWritten`). They describe the client with the fix of the Findings row applied. By `Host.AsWrittenWithoutTimeouts` they match the code as written whenever no read times out. When one does, the code as written can return the wrong bytes (`Host.AsWrittenLosesFirstByte`), and `fdump` writes them to the file.
- `Host.AT28C256.Send`: Python's `assert` statements are modelled as always enabled. Under `python -O` they would be skipped.
- `Host.AT28C256.FDump`: the `ack=False` read after `reset` can return the remainder of a dump message, or a reply to the reset. The model reads one message and drops it, as the code does, without stating which.

## Findings

| source | as written | input that shows it | evidently intended | confidence | as-written member | corrected member |
|---|---|---|---|---|---|---|
| eeprom.py:81-82 | `tot += self.port.readinto(buf)` refills the buffer from its start on every pass, and asks for `l` bytes each time | device bytes `[2, 0xAA, 0xBB, 0]`, with the first payload byte arriving alone before the 30-second timeout: `_receive` returns `[0xBB, 0]`. It overwrote 0xAA and consumed the next frame's length octet | `readinto(buf[tot:])`, which returns `[0xAA, 0xBB]` and leaves the next frame alone | not executed; needs a read that times out in the middle of a frame | Host.AsWrittenLosesFirstByte | Host.AT28C256.Receive |
