/**
  The wire protocol shared by the firmware (src/arduino.cpp) and the host
  client (eeprom.py): length-prefixed frames, the empty acknowledgement frame,
  the error latch values and the command layout.
*/
module Protocol {

  type Byte = x: int | 0 <= x < 256

  /** Payload capacity of the firmware's frame buffers (`MAX_PAYLOAD`). */
  const MAX_PAYLOAD: nat := 63

  /** Cells of the AT28C256: 32 KiB, all of which `dump` sends. */
  const DEVICE_BYTES: nat := 32768

  /** Opcodes: 'r', 'w', 'd' and 'l'. */
  const OP_READ: Byte := 0x72
  const OP_WRITE: Byte := 0x77
  const OP_DUMP: Byte := 0x64
  const OP_LOAD: Byte := 0x6c

  /** The firmware's `errno` latch. */
  datatype Error = Ok | EReset | ECorrupt | EUnexpected | EUnknown

  function Min(a: int, b: int): int
  {
    if a <= b then a else b
  }

  /**
    The bytes `send` puts on the line for one message: a length octet (the
    low byte of the length, which is what writing a `size_t` to the serial
    port sends) followed by the payload.
  */
  function Frame(payload: seq<Byte>): seq<Byte>
  {
    [|payload| % 256] + payload
  }

  /** Messages sent back to back. */
  function Encode(frames: seq<seq<Byte>>): seq<Byte>
  {
    if frames == [] then [] else Frame(frames[0]) + Encode(frames[1..])
  }

  /** The payloads of several messages, concatenated. */
  function Flatten(frames: seq<seq<Byte>>): seq<Byte>
  {
    if frames == [] then [] else frames[0] + Flatten(frames[1..])
  }

  /** `n` acknowledgement frames. */
  function Acks(n: nat): (s: seq<Byte>)
    ensures |s| == n && forall k :: 0 <= k < n ==> s[k] == 0
  {
    if n == 0 then [] else Acks(n - 1) + Frame([])
  }

  lemma {:induction false} EncodeSnoc(frames: seq<seq<Byte>>, f: seq<Byte>)
    ensures Encode(frames + [f]) == Encode(frames) + Frame(f)
  {
    if frames == [] {
      assert frames + [f] == [f];
    } else {
      assert (frames + [f])[1..] == frames[1..] + [f];
      EncodeSnoc(frames[1..], f);
    }
  }

  lemma {:induction false} FlattenSnoc(frames: seq<seq<Byte>>, f: seq<Byte>)
    ensures Flatten(frames + [f]) == Flatten(frames) + f
  {
    if frames == [] {
      assert frames + [f] == [f];
    } else {
      assert (frames + [f])[1..] == frames[1..] + [f];
      FlattenSnoc(frames[1..], f);
    }
  }

  /** What one call of the firmware's `receive` finds on the line. */
  datatype Reception =
    | Starved                                    // no length byte ever arrives
    | Corrupt(next: nat)                         // fewer bytes copied than declared
    | Received(payload: seq<Byte>, next: nat)    // a complete message

  /**
    The message at `pos` of the host's byte stream `inp`, read into a buffer
    of `cap` bytes: the length octet, then at most `min(length, cap)` payload
    bytes (fewer when the stream ends).  Anything short of the declared length
    is corrupt; `next` is where the following read starts.
  */
  function ParseFrame(inp: seq<Byte>, pos: nat, cap: nat): (rx: Reception)
    ensures rx.Starved? <==> pos >= |inp|
    ensures rx.Corrupt? <==> pos < |inp| && (inp[pos] > cap || pos + 1 + inp[pos] > |inp|)
    ensures rx.Corrupt? ==> pos < rx.next <= |inp| && rx.next <= pos + 1 + cap
                            && rx.next == pos + 1 + Min(Min(inp[pos], cap), |inp| - pos - 1)
    ensures rx.Received? ==> |rx.payload| <= cap && |rx.payload| == inp[pos]
                             && rx.next == pos + 1 + |rx.payload| <= |inp|
                             && rx.payload == inp[pos + 1 .. rx.next]
  {
    if pos >= |inp| then Starved
    else
      var declared := inp[pos];
      var copied := Min(Min(declared, cap), |inp| - pos - 1);
      if copied != declared then Corrupt(pos + 1 + copied)
      else Received(inp[pos + 1 .. pos + 1 + declared], pos + 1 + declared)
  }

  /** Where the next read starts after a reception at `pos`. */
  function After(rx: Reception, pos: nat): nat
  {
    match rx
    case Starved => pos
    case Corrupt(next) => next
    case Received(_, next) => next
  }

  predicate IsAck(rx: Reception)
  {
    rx.Received? && rx.payload == []
  }

  /**
    The value of `errno` after `send` waited for an acknowledgement and got
    `rx`, when it was `e` before: a lone 'r' is a reset request, any other
    message but an acknowledgement is unexpected, and a failed `receive`
    leaves what `receive` set.
  */
  function ReplyErrno(rx: Reception, e: Error): Error
  {
    match rx
    case Starved => e
    case Corrupt(_) => ECorrupt
    case Received(p, _) =>
      if p == [] then e
      else if p == [OP_READ] then EReset
      else EUnexpected
  }

  /**
    The latch after an acknowledgement wait is the old one or one of the
    three errors `send` and `receive` set; an acknowledgement leaves it
    alone and any non-empty reply sets it.
  */
  lemma ReplyErrnoSets(rx: Reception, e: Error)
    ensures var r := ReplyErrno(rx, e);
            && (r == e || r == EReset || r == ECorrupt || r == EUnexpected)
            && (rx.Received? && rx.payload != [] ==> r != Ok)
            && (IsAck(rx) ==> r == e)
  {
  }

  /** The number of acknowledgements (zero bytes) waiting at `p`. */
  function AckRun(inp: seq<Byte>, p: nat): (r: nat)
    ensures p + r <= |inp| || r == 0
    ensures forall k :: p <= k < p + r ==> inp[k] == 0
    ensures !(p + r < |inp| && inp[p + r] == 0)
    decreases |inp| - p
  {
    if p < |inp| && inp[p] == 0 then 1 + AckRun(inp, p + 1) else 0
  }

  /** A frame sent by `send` is read back whole by `receive` when it fits the buffer. */
  lemma FrameRoundTrip(pre: seq<Byte>, payload: seq<Byte>, post: seq<Byte>, cap: nat)
    requires |payload| <= cap && |payload| < 256
    ensures ParseFrame(pre + Frame(payload) + post, |pre|, cap)
            == Received(payload, |pre| + 1 + |payload|)
  {
    var s := pre + Frame(payload) + post;
    assert s[|pre|] == |payload|;
    assert s[|pre| + 1 .. |pre| + 1 + |payload|] == payload;
  }

  /** An acknowledgement on the line is exactly a zero byte. */
  lemma AckIsZeroByte(inp: seq<Byte>, p: nat, cap: nat)
    ensures IsAck(ParseFrame(inp, p, cap)) <==> p < |inp| && inp[p] == 0
  {
    if p < |inp| && inp[p] == 0 {
      assert inp[p + 1 .. p + 1] == [];
    }
  }

  /** The decoded form of a command message. */
  datatype Command =
    | ReadByte(addr: nat)
    | WriteByte(addr: nat, value: Byte)
    | DumpAll
    | LoadImage(len: nat)
    | ResetRequest
    | Unrecognised

  /** Big-endian 16-bit value of two bytes, `(hi << 8) + lo`. */
  function Word(hi: Byte, lo: Byte): (w: nat)
    ensures w < 65536 && w / 256 == hi && w % 256 == lo
  {
    hi * 256 + lo
  }

  /**
    The command a non-empty message carries: the opcode selects the command
    and the message length must match its layout exactly.
  */
  function Decode(p: seq<Byte>): Command
    requires |p| > 0
  {
    if p[0] == OP_READ && |p| == 3 then ReadByte(Word(p[1], p[2]))
    else if p[0] == OP_WRITE && |p| == 4 then WriteByte(Word(p[1], p[2]), p[3])
    else if p[0] == OP_DUMP && |p| == 1 then DumpAll
    else if p[0] == OP_LOAD && |p| == 3 then LoadImage(Word(p[1], p[2]))
    else if p[0] == OP_READ && |p| == 1 then ResetRequest
    else Unrecognised
  }

  /**
    Every recognised command is at most four bytes long; a dump is exactly
    `'d'` and a reset request exactly a lone `'r'`.
  */
  lemma DecodeShape(p: seq<Byte>)
    requires |p| > 0
    ensures Decode(p) != Unrecognised ==> |p| <= 4
    ensures Decode(p) == DumpAll <==> p == [OP_DUMP]
    ensures Decode(p) == ResetRequest <==> p == [OP_READ]
  {
  }
}
