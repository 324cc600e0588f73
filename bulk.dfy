/**
  What the bulk commands put on the line and into the EEPROM, as functions
  of the EEPROM contents and the host's byte stream: `dump` (src/arduino.cpp
  244-265) sends the whole device in acknowledged 63-byte messages, and
  `load` (src/arduino.cpp 276-293) programs consecutive cells from the
  messages it receives until its address reaches the requested length.
*/
module Bulk {
  import opened Protocol

  /** Messages `dump` sends for a full device: 520 of 63 bytes and one of 8. */
  const DUMP_FRAMES: nat := 521

  /** The j-th message of a dump: cells 63j up to 63j+62, cut at the end of the device. */
  function Chunk(rom: seq<Byte>, j: nat): seq<Byte>
    requires |rom| == DEVICE_BYTES && j < DUMP_FRAMES
  {
    rom[MAX_PAYLOAD * j .. Min(MAX_PAYLOAD * j + MAX_PAYLOAD, DEVICE_BYTES)]
  }

  /** The first c messages of a dump. */
  function DumpChunks(rom: seq<Byte>, c: nat): (cs: seq<seq<Byte>>)
    requires |rom| == DEVICE_BYTES && c <= DUMP_FRAMES
    ensures |cs| == c
  {
    seq(c, j requires 0 <= j < c => Chunk(rom, j))
  }

  lemma DumpChunksSnoc(rom: seq<Byte>, c: nat)
    requires |rom| == DEVICE_BYTES && c < DUMP_FRAMES
    ensures DumpChunks(rom, c + 1) == DumpChunks(rom, c) + [Chunk(rom, c)]
  {
    assert DumpChunks(rom, c + 1)[..c] == DumpChunks(rom, c);
  }

  /** One more message on the line. */
  lemma DumpStreamSnoc(rom: seq<Byte>, c: nat)
    requires |rom| == DEVICE_BYTES && c < DUMP_FRAMES
    ensures Encode(DumpChunks(rom, c + 1)) == Encode(DumpChunks(rom, c)) + Frame(Chunk(rom, c))
  {
    DumpChunksSnoc(rom, c);
    EncodeSnoc(DumpChunks(rom, c), Chunk(rom, c));
  }

  /** The first c messages of a dump carry the device's first 63c cells, in order. */
  lemma {:induction false} DumpPrefix(rom: seq<Byte>, c: nat)
    requires |rom| == DEVICE_BYTES && c <= DUMP_FRAMES
    ensures Flatten(DumpChunks(rom, c)) == rom[..Min(MAX_PAYLOAD * c, DEVICE_BYTES)]
  {
    if c == 0 {
      assert DumpChunks(rom, 0) == [];
    } else {
      DumpPrefix(rom, c - 1);
      DumpChunksSnoc(rom, c - 1);
      FlattenSnoc(DumpChunks(rom, c - 1), Chunk(rom, c - 1));
      var lo := MAX_PAYLOAD * (c - 1);
      assert rom[..lo] + rom[lo .. Min(lo + MAX_PAYLOAD, DEVICE_BYTES)]
          == rom[..Min(lo + MAX_PAYLOAD, DEVICE_BYTES)];
    }
  }

  /**
    A complete dump is 520 messages of 63 bytes and a last one of 8, and
    their payloads, concatenated, are the whole device.
  */
  lemma DumpCovers(rom: seq<Byte>)
    requires |rom| == DEVICE_BYTES
    ensures forall j :: 0 <= j < DUMP_FRAMES - 1 ==> |DumpChunks(rom, DUMP_FRAMES)[j]| == MAX_PAYLOAD
    ensures |DumpChunks(rom, DUMP_FRAMES)[DUMP_FRAMES - 1]| == 8
    ensures Flatten(DumpChunks(rom, DUMP_FRAMES)) == rom
  {
    DumpPrefix(rom, DUMP_FRAMES);
  }

  /** The outcome of a dump, given the acknowledgements the host sends. */
  datatype DumpOutcome = DumpOutcome(
    frames: nat,    // messages sent
    result: int,    // dump's return value
    next: nat,      // where the host stream is left
    errno: Error,   // the error latch afterwards
    starved: bool)  // the host went silent while an acknowledgement was due

  /**
    `dump` with the host stream at `p` and the error latch `e`: every message
    waits for an acknowledgement; the first reply that is not one ends the
    dump with -1 after that message, and sets the latch as `send` does.
  */
  function DumpSpec(inp: seq<Byte>, p: nat, e: Error): (o: DumpOutcome)
    ensures 1 <= o.frames <= DUMP_FRAMES
    ensures o.result == 0 <==> o.frames == DUMP_FRAMES && p + DUMP_FRAMES <= |inp| && forall k :: p <= k < p + DUMP_FRAMES ==> inp[k] == 0
    ensures o.result == 0 || o.result == -1
  {
    var a := AckRun(inp, p);
    if a >= DUMP_FRAMES then DumpOutcome(DUMP_FRAMES, 0, p + DUMP_FRAMES, e, false)
    else
      var rx := ParseFrame(inp, p + a, MAX_PAYLOAD);
      DumpOutcome(a + 1, -1, After(rx, p + a), ReplyErrno(rx, e), rx.Starved?)
  }

  /** The host acknowledged c messages and then sent something else: `dump` stops after message c + 1. */
  lemma DumpStops(inp: seq<Byte>, p: nat, e: Error, c: nat)
    requires c < DUMP_FRAMES && p + c <= |inp| && forall k :: p <= k < p + c ==> inp[k] == 0
    requires !(p + c < |inp| && inp[p + c] == 0)
    ensures var rx := ParseFrame(inp, p + c, MAX_PAYLOAD);
            DumpSpec(inp, p, e) == DumpOutcome(c + 1, -1, After(rx, p + c), ReplyErrno(rx, e), rx.Starved?)
  {
    AckRunExact(inp, p, c);
  }

  /** The host acknowledged all 521 messages: `dump` succeeds. */
  lemma DumpCompletes(inp: seq<Byte>, p: nat, e: Error)
    requires p + DUMP_FRAMES <= |inp| && forall k :: p <= k < p + DUMP_FRAMES ==> inp[k] == 0
    ensures DumpSpec(inp, p, e) == DumpOutcome(DUMP_FRAMES, 0, p + DUMP_FRAMES, e, false)
  {
    AckRunAtLeast(inp, p, DUMP_FRAMES);
  }

  /** Exactly c zero bytes at p: the run of acknowledgements is c long. */
  lemma {:induction false} AckRunExact(inp: seq<Byte>, p: nat, c: nat)
    requires p + c <= |inp| && forall k :: p <= k < p + c ==> inp[k] == 0
    requires !(p + c < |inp| && inp[p + c] == 0)
    ensures AckRun(inp, p) == c
    decreases c
  {
    if c > 0 {
      AckRunExact(inp, p + 1, c - 1);
    }
  }

  /** At least c zero bytes at p: the run of acknowledgements is at least c long. */
  lemma {:induction false} AckRunAtLeast(inp: seq<Byte>, p: nat, c: nat)
    requires p + c <= |inp| && forall k :: p <= k < p + c ==> inp[k] == 0
    ensures AckRun(inp, p) >= c
    decreases c
  {
    if c > 0 {
      AckRunAtLeast(inp, p + 1, c - 1);
    }
  }

  /** Writing `data` to addresses 0, 1, 2, ... of a 32 KiB device (addresses wrap). */
  function Program(rom: seq<Byte>, data: seq<Byte>): (r: seq<Byte>)
    requires |rom| == DEVICE_BYTES
    ensures |r| == DEVICE_BYTES
  {
    if data == [] then rom
    else Program(rom, data[..|data| - 1])[(|data| - 1) % 32768 := data[|data| - 1]]
  }

  /** An image that fits the device lands cell for cell; the rest is untouched. */
  lemma {:induction false} ProgramAt(rom: seq<Byte>, data: seq<Byte>)
    requires |rom| == DEVICE_BYTES && |data| <= DEVICE_BYTES
    ensures Program(rom, data) == data + rom[|data|..]
  {
    if data != [] {
      var n := |data| - 1;
      ProgramAt(rom, data[..n]);
      assert data[..n] + [data[n]] == data;
    }
  }

  datatype LoadStatus =
    | Finished   // the address reached the requested length
    | Stalled    // the host went silent
    | Broken     // a corrupt message

  /** What `load` does: the messages it programs, where it leaves the stream, how it ends. */
  datatype LoadRun = LoadRun(frames: seq<seq<Byte>>, next: nat, status: LoadStatus)

  /**
    `load(len)` from the 16-bit address `addr`: receive a message into a
    64-byte buffer (acknowledging it), write all of it, and go on while the
    address is below `len`.  The address is an `unsigned int`, so it wraps
    at 65536.
  */
  function RunLoad(inp: seq<Byte>, p: nat, addr: nat, len: nat): (run: LoadRun)
    ensures forall j :: 0 <= j < |run.frames| ==> |run.frames[j]| <= MAX_PAYLOAD + 1
    ensures run.status == Stalled ==> run.next >= |inp|
    ensures p <= run.next
    decreases |inp| - p
  {
    if addr >= len then LoadRun([], p, Finished)
    else
      match ParseFrame(inp, p, MAX_PAYLOAD + 1)
      case Starved => LoadRun([], p, Stalled)
      case Corrupt(n) => LoadRun([], n, Broken)
      case Received(payload, n) =>
        var rest := RunLoad(inp, n, (addr + |payload|) % 65536, len);
        LoadRun([payload] + rest.frames, rest.next, rest.status)
  }

  /**
    `load` writes every byte of the message that carries the address past
    `len`: when it finishes, the bytes written reach `len` but fall short of
    it by less than one message more (for lengths that cannot wrap).
  */
  lemma {:induction false} LoadOvershoot(inp: seq<Byte>, p: nat, addr: nat, len: nat)
    requires len <= 65536 - (MAX_PAYLOAD + 1) && addr < len + MAX_PAYLOAD + 1
    requires RunLoad(inp, p, addr, len).status == Finished
    ensures len <= addr + |Flatten(RunLoad(inp, p, addr, len).frames)| < len + MAX_PAYLOAD + 1
    decreases |inp| - p
  {
    if addr < len {
      match ParseFrame(inp, p, MAX_PAYLOAD + 1)
      case Received(payload, n) =>
        LoadOvershootStep(inp, p, addr, len, payload, n);
    }
  }

  lemma {:induction false} LoadOvershootStep(inp: seq<Byte>, p: nat, addr: nat, len: nat, payload: seq<Byte>, n: nat)
    requires len <= 65536 - (MAX_PAYLOAD + 1) && addr < len
    requires ParseFrame(inp, p, MAX_PAYLOAD + 1) == Received(payload, n)
    requires RunLoad(inp, p, addr, len).status == Finished
    ensures len <= addr + |Flatten(RunLoad(inp, p, addr, len).frames)| < len + MAX_PAYLOAD + 1
    decreases |inp| - p, 0
  {
    var rest := RunLoad(inp, n, addr + |payload|, len);
    assert RunLoad(inp, p, addr, len).frames == [payload] + rest.frames;
    assert ([payload] + rest.frames)[1..] == rest.frames;
    LoadOvershoot(inp, n, addr + |payload|, len);
  }

  /** A concrete case: `load(1)` given one 3-byte message programs all three bytes. */
  lemma LoadPastLength()
    ensures RunLoad([3, 10, 20, 30], 0, 0, 1) == LoadRun([[10, 20, 30]], 4, Finished)
  {
    assert ParseFrame([3, 10, 20, 30], 0, MAX_PAYLOAD + 1) == Received([10, 20, 30], 4);
  }

  /**
    Messages of 1 to 64 bytes whose payloads add up to `len - addr` are
    consumed exactly: `load` programs them all, in order, and stops right
    after the last one.
  */
  lemma {:induction false} LoadConsumes(pre: seq<Byte>, chunks: seq<seq<Byte>>, post: seq<Byte>, addr: nat, len: nat)
    requires forall j :: 0 <= j < |chunks| ==> 0 < |chunks[j]| <= MAX_PAYLOAD + 1
    requires addr + |Flatten(chunks)| == len < 65536
    ensures RunLoad(pre + Encode(chunks) + post, |pre|, addr, len)
            == LoadRun(chunks, |pre| + |Encode(chunks)|, Finished)
    decreases |chunks|
  {
    if chunks != [] {
      var c, more := chunks[0], chunks[1..];
      var s := pre + Encode(chunks) + post;
      var pre' := pre + Frame(c);
      SplitFirst(pre, c, Encode(more), post);
      assert Encode(chunks) == Frame(c) + Encode(more);
      FrameRoundTrip(pre, c, Encode(more) + post, MAX_PAYLOAD + 1);
      assert Flatten(chunks) == c + Flatten(more);
      LoadConsumes(pre', more, post, addr + |c|, len);
      LoadFirst(s, |pre|, c, |pre'|, addr, len, LoadRun(more, |pre'| + |Encode(more)|, Finished));
      assert [c] + more == chunks;
    }
  }

  /** `frames` programmed ahead of a run. */
  function Then(frames: seq<seq<Byte>>, run: LoadRun): LoadRun
  {
    LoadRun(frames + run.frames, run.next, run.status)
  }

  lemma ThenSnoc(frames: seq<seq<Byte>>, f: seq<Byte>, run: LoadRun)
    ensures Then(frames, Then([f], run)) == Then(frames + [f], run)
  {
    assert frames + ([f] + run.frames) == (frames + [f]) + run.frames;
  }

  /** One message received below `len`: it is programmed and `load` goes on after it. */
  lemma LoadStep(inp: seq<Byte>, p: nat, addr: nat, len: nat, c: seq<Byte>, n: nat)
    requires ParseFrame(inp, p, MAX_PAYLOAD + 1) == Received(c, n)
    requires addr < len
    ensures RunLoad(inp, p, addr, len) == Then([c], RunLoad(inp, n, (addr + |c|) % 65536, len))
  {
  }

  /** A receive that fails below `len` ends the run where it stopped reading. */
  lemma LoadStops(inp: seq<Byte>, p: nat, addr: nat, len: nat)
    requires addr < len && !ParseFrame(inp, p, MAX_PAYLOAD + 1).Received?
    ensures var rx := ParseFrame(inp, p, MAX_PAYLOAD + 1);
            RunLoad(inp, p, addr, len) == LoadRun([], After(rx, p), if rx.Starved? then Stalled else Broken)
  {
  }

  /** A message that keeps the address below 65536, followed by `rest`. */
  lemma LoadFirst(inp: seq<Byte>, p: nat, c: seq<Byte>, n: nat, addr: nat, len: nat, rest: LoadRun)
    requires ParseFrame(inp, p, MAX_PAYLOAD + 1) == Received(c, n)
    requires addr < len && addr + |c| < 65536
    requires RunLoad(inp, n, addr + |c|, len) == rest
    ensures RunLoad(inp, p, addr, len) == Then([c], rest)
  {
    LoadStep(inp, p, addr, len, c, n);
    SmallAddress(addr + |c|);
  }

  lemma SmallAddress(a: nat)
    requires a < 65536
    ensures a % 65536 == a
  {
  }

  lemma SplitFirst(pre: seq<Byte>, c: seq<Byte>, more: seq<Byte>, post: seq<Byte>)
    ensures pre + (Frame(c) + more) + post == pre + Frame(c) + (more + post)
    ensures pre + (Frame(c) + more) + post == (pre + Frame(c)) + more + post
  {
  }
}
