/**
  The host client `AT28C256` of eeprom.py: its framing over the serial port
  (`_receive`, `_send`), the single-byte commands (`read`, `write`, `reset`)
  and the counting loops of `fdump` and `fload`.

  The port is opened with a 30-second read timeout. The model gives the port
  the whole of what the device will ever send (`rx`) and, per read call, how
  many bytes arrive before that call's timeout expires (`grants`); calls
  beyond the end of `grants` get everything they ask for that the device
  still sends. A loop that would spin forever on a silent port ends in
  `Raised(Hang)`.
*/
module Host {
  import opened Protocol
  import opened HostCodec
  import Bulk
  import Firmware

  /** How an operation of the client ends when it does not return normally. */
  datatype HostError = ValueError | StructError | AssertionError | Hang

  datatype Outcome<T> = Done(value: T) | Raised(error: HostError)

  /** The bytes the `call`-th read of the port hands over when it asks for `want`, before the timeout. */
  function Granted(grants: seq<nat>, call: nat, want: nat): nat
  {
    if call < |grants| then Min(want, grants[call]) else want
  }

  /**
    What `_receive` returns when the device's bytes still unread are
    `rx[p..]` and the length read gets `g` bytes before its timeout: a timed
    out length read counts as length 0; otherwise the `l` bytes after the
    length octet, or a hang when the device never sends them all.
  */
  function Expected(rx: seq<Byte>, p: nat, g: nat): Outcome<seq<Byte>>
    requires p <= |rx|
  {
    if g == 0 || p == |rx| then Done([])
    else if p + 1 + rx[p] <= |rx| then Done(rx[p + 1 .. p + 1 + rx[p]])
    else Raised(Hang)
  }

  /** Where the port's read position is after `_receive` returns normally. */
  function ExpectedNext(rx: seq<Byte>, p: nat, g: nat): nat
    requires p <= |rx|
  {
    if g == 0 || p == |rx| then p else p + 1 + rx[p]
  }

  /** `_receive` takes back exactly the payload of a frame the firmware's `send` put on the line. */
  lemma ReceiveFrame(pre: seq<Byte>, payload: seq<Byte>, post: seq<Byte>, g: nat)
    requires g > 0 && |payload| < 256
    ensures var rx := pre + Frame(payload) + post;
            && Expected(rx, |pre|, g) == Done(payload)
            && ExpectedNext(rx, |pre|, g) == |pre| + 1 + |payload|
  {
    var rx := pre + Frame(payload) + post;
    assert rx[|pre|] == |payload|;
    assert rx[|pre| + 1 .. |pre| + 1 + |payload|] == payload;
  }

  // ------------------------------------------- `_receive` as written

  /**
    The loop of `_receive` as written: every `readinto(buf)` fills the
    buffer from its start, and `tot` adds up what the calls returned.
  */
  function Fill(rx: seq<Byte>, pos: nat, grants: seq<nat>, call: nat, buf: seq<Byte>, tot: nat): Outcome<seq<Byte>>
    requires pos <= |rx|
    decreases |grants| - Min(call, |grants|), |rx| - pos
  {
    if tot >= |buf| then Done(buf)
    else if call >= |grants| && pos == |rx| then Raised(Hang)
    else
      var k := Min(Granted(grants, call, |buf|), |rx| - pos);
      Fill(rx, pos + k, grants, call + 1, rx[pos .. pos + k] + buf[k..], tot + k)
  }

  /** `_receive` as written, from the length read on. */
  function AsWritten(rx: seq<Byte>, p: nat, grants: seq<nat>, call: nat): Outcome<seq<Byte>>
    requires p <= |rx|
  {
    var k := Min(Granted(grants, call, 1), |rx| - p);
    var l := if k == 0 then 0 else rx[p];
    Fill(rx, p + k, grants, call + 1, Zeros(l), 0)
  }

  /** The fresh buffer `bytearray(l)`. */
  function Zeros(l: nat): (z: seq<Byte>)
    ensures |z| == l
  {
    seq(l, _ => 0)
  }

  /**
    A two-byte message whose first payload byte arrives alone before a
    timeout: the code as written returns the second payload byte followed
    by the next frame's length octet, where the frame carried 0xAA, 0xBB.
  */
  lemma AsWrittenLosesFirstByte()
    ensures AsWritten([2, 0xAA, 0xBB, 0], 0, [1, 1], 0) == Done([0xBB, 0])
    ensures Expected([2, 0xAA, 0xBB, 0], 0, Granted([1, 1], 0, 1)) == Done([0xAA, 0xBB])
  {
    var rx: seq<Byte> := [2, 0xAA, 0xBB, 0];
    var zeros := Zeros(2);
    assert zeros == [0, 0];
    assert rx[1..2] + zeros[1..] == [0xAA, 0];
    assert rx[2..4] + [0xAA, 0][2..] == [0xBB, 0];
    assert Fill(rx, 4, [1, 1], 3, [0xBB, 0], 3) == Done([0xBB, 0]);
    assert Fill(rx, 2, [1, 1], 2, [0xAA, 0], 1) == Done([0xBB, 0]);
    assert Fill(rx, 1, [1, 1], 1, zeros, 0) == Done([0xBB, 0]);
    assert rx[1..3] == [0xAA, 0xBB];
  }

  /** Without timeouts the code as written returns what the intended `_receive` does. */
  lemma AsWrittenWithoutTimeouts(rx: seq<Byte>, p: nat, grants: seq<nat>, call: nat)
    requires p <= |rx| && call >= |grants|
    ensures AsWritten(rx, p, grants, call) == Expected(rx, p, Granted(grants, call, 1))
  {
    var k0 := Min(Granted(grants, call, 1), |rx| - p);
    var l := if k0 == 0 then 0 else rx[p];
    var zeros := Zeros(l);
    assert AsWritten(rx, p, grants, call) == Fill(rx, p + k0, grants, call + 1, zeros, 0);
    if l == 0 {
      assert zeros == [];
      if k0 == 1 {
        assert rx[p + 1 .. p + 1] == [];
      }
    } else if p + 1 < |rx| {
      var k := Min(l, |rx| - (p + 1));
      var buf := rx[p + 1 .. p + 1 + k] + zeros[k..];
      assert Fill(rx, p + 1, grants, call + 1, zeros, 0) == Fill(rx, p + 1 + k, grants, call + 2, buf, k);
      if k == l {
        assert buf == rx[p + 1 .. p + 1 + l];
      } else {
        assert p + 1 + k == |rx|;
      }
    }
  }

  /** One unfolding of `Fill`: a read call that returns `k` bytes. */
  lemma FillStep(rx: seq<Byte>, pos: nat, grants: seq<nat>, call: nat, buf: seq<Byte>, tot: nat, k: nat)
    requires pos <= |rx| && tot < |buf| && !(call >= |grants| && pos == |rx|)
    requires k == Min(Granted(grants, call, |buf|), |rx| - pos)
    ensures Fill(rx, pos, grants, call, buf, tot) == Fill(rx, pos + k, grants, call + 1, rx[pos .. pos + k] + buf[k..], tot + k)
  {
  }

  /** A buffer of which `|src|` bytes from `from` on were replaced by `src`. */
  lemma Spliced(after: seq<Byte>, before: seq<Byte>, src: seq<Byte>, from: nat)
    requires |after| == |before| && from + |src| <= |before|
    requires forall j :: 0 <= j < |after| ==> after[j] == if from <= j < from + |src| then src[j - from] else before[j]
    ensures after == before[..from] + src + before[from + |src|..]
  {
  }

  /** `Encode` of two runs of messages is the two encodings one after the other. */
  lemma {:induction false} EncodeAppend(a: seq<seq<Byte>>, b: seq<seq<Byte>>)
    ensures Encode(a + b) == Encode(a) + Encode(b)
  {
    if a != [] {
      assert (a + b)[1..] == a[1..] + b;
      EncodeAppend(a[1..], b);
    } else {
      assert a + b == b;
    }
  }

  predicate Short(frames: seq<seq<Byte>>)
  {
    forall i :: 0 <= i < |frames| ==> |frames[i]| < 256
  }

  /**
    Frames read off a stream that begins with other frames line up with
    them: the payloads of one run are a prefix of the payloads of the other.
  */
  lemma {:induction false} EncodeAligned(w: seq<seq<Byte>>, c: seq<seq<Byte>>, y: seq<Byte>)
    requires Short(w) && Short(c)
    requires Encode(w) <= Encode(c) + y
    ensures Flatten(w) <= Flatten(c) || Flatten(c) <= Flatten(w)
  {
    if w != [] && c != [] {
      var s := Encode(c) + y;
      assert Encode(w) == Frame(w[0]) + Encode(w[1..]);
      assert s == Frame(c[0]) + (Encode(c[1..]) + y);
      assert Encode(w)[0] == s[0];
      assert |w[0]| == |c[0]|;
      assert w[0] == Encode(w)[1 .. 1 + |w[0]|] == s[1 .. 1 + |c[0]|] == c[0];
      assert Encode(w[1..]) == Encode(w)[1 + |w[0]|..];
      assert Encode(c[1..]) + y == s[1 + |c[0]|..];
      EncodeAligned(w[1..], c[1..], y);
    }
  }

  /**
    What `fdump` writes to its file, read off a device that sends the dump
    of `rom`: the first bytes of the EEPROM, in order.
  */
  lemma DumpedImage(rom: seq<Byte>, wire: seq<seq<Byte>>, post: seq<Byte>, n: nat)
    requires |rom| == DEVICE_BYTES && Short(wire)
    requires Encode(wire) <= Encode(Bulk.DumpChunks(rom, Bulk.DUMP_FRAMES)) + post
    requires n <= |Flatten(wire)| && n <= DEVICE_BYTES
    ensures Flatten(wire)[..n] == rom[..n]
  {
    var chunks := Bulk.DumpChunks(rom, Bulk.DUMP_FRAMES);
    Bulk.DumpCovers(rom);
    assert Short(chunks) by {
      forall j | 0 <= j < |chunks|
        ensures |chunks[j]| < 256
      {
        if j < Bulk.DUMP_FRAMES - 1 {
        }
      }
    }
    EncodeAligned(wire, chunks, post);
  }

  /**
    The messages `fload` sends for an image of 1 to 32768 bytes, fed to the
    firmware after the load command, program the image from address 0 and
    are acknowledged one by one.
  */
  lemma LoadedImage(pre: seq<Byte>, file: seq<Byte>, post: seq<Byte>, e: Error, rom: seq<Byte>)
    requires |rom| == DEVICE_BYTES && 0 < |file| <= DEVICE_BYTES
    ensures PackLoad(|file|).Some?
    ensures var t := Firmware.Serve(pre + Frame(PackLoad(|file|).value) + Encode(Chunks(file)) + post, |pre|, e, rom);
            && t.sent == Frame([]) + Acks(|Chunks(file)|)
            && t.rom == file + rom[|file|..]
            && t.errno == e && !t.stalled
  {
    ChunksFlatten(file);
    ChunksBounded(file);
    Firmware.LoadWritesImage(pre, Chunks(file), post, e, rom);
  }

  class AT28C256 {
    /** Everything the device sends, in order. */
    const rx: seq<Byte>
    /** Per read call, how many bytes arrive before the timeout. */
    const grants: seq<nat>
    /** How much of `rx` the client has read. */
    var rxPos: nat
    /** How many read calls the client has made. */
    var calls: nat
    /** Everything the client has written to the port. */
    var tx: seq<Byte>

    ghost predicate Valid()
      reads this
    {
      rxPos <= |rx|
    }

    constructor (rx: seq<Byte>, grants: seq<nat>)
      ensures Valid() && this.rx == rx && this.grants == grants
      ensures rxPos == 0 && calls == 0 && tx == []
    {
      this.rx := rx;
      this.grants := grants;
      rxPos := 0;
      calls := 0;
      tx := [];
    }

    /** `port.read(n)`: up to `n` bytes, fewer when the timeout expires first. */
    method PortRead(n: nat) returns (got: seq<Byte>)
      requires Valid()
      modifies this
      ensures Valid() && calls == old(calls) + 1 && tx == old(tx)
      ensures rxPos == old(rxPos) + Min(Granted(grants, old(calls), n), |rx| - old(rxPos))
      ensures got == rx[old(rxPos) .. rxPos]
    {
      var k := Min(Granted(grants, calls, n), |rx| - rxPos);
      got := rx[rxPos .. rxPos + k];
      rxPos := rxPos + k;
      calls := calls + 1;
    }

    /** `port.readinto(view)` for the view `buf[from:]`: the bytes that arrive land at `from` onwards. */
    method ReadInto(buf: array<Byte>, from: nat) returns (k: nat)
      requires Valid() && from <= buf.Length
      modifies this, buf
      ensures Valid() && calls == old(calls) + 1 && tx == old(tx)
      ensures k == Min(Granted(grants, old(calls), buf.Length - from), |rx| - old(rxPos))
      ensures rxPos == old(rxPos) + k
      ensures forall j :: 0 <= j < buf.Length ==>
                buf[j] == if from <= j < from + k then rx[old(rxPos) + j - from] else old(buf[j])
      ensures buf[..] == old(buf[..])[..from] + rx[old(rxPos) .. rxPos] + old(buf[..])[from + k..]
    {
      k := Min(Granted(grants, calls, buf.Length - from), |rx| - rxPos);
      var i := 0;
      while i < k
        modifies buf
        invariant 0 <= i <= k
        invariant forall j :: 0 <= j < buf.Length ==>
                    buf[j] == if from <= j < from + i then rx[rxPos + j - from] else old(buf[j])
      {
        buf[from + i] := rx[rxPos + i];
        i := i + 1;
      }
      Spliced(buf[..], old(buf[..]), rx[rxPos .. rxPos + k], from);
      rxPos := rxPos + k;
      calls := calls + 1;
    }

    /** The writing half of `_send`: the length octet, then the data. */
    method Transmit(data: seq<Byte>)
      requires |data| <= MAXPAYLOAD
      modifies this
      ensures tx == old(tx) + Frame(data)
      ensures rxPos == old(rxPos) && calls == old(calls)
    {
      tx := tx + [|data|] + data;
    }

    /**
      `_receive`, with each `readinto` given the unfilled rest of the buffer:
      the payload of the next frame, then the empty acknowledgement frame
      when `ack` is set.
    */
    method Receive(ack: bool) returns (r: Outcome<seq<Byte>>)
      requires Valid()
      modifies this
      ensures Valid() && calls > old(calls)
      ensures var g := Granted(grants, old(calls), 1);
              && r == Expected(rx, old(rxPos), g)
              && (r.Done? ==> rxPos == ExpectedNext(rx, old(rxPos), g))
              && tx == old(tx) + (if ack && r.Done? then Frame([]) else [])
    {
      var head := PortRead(1);
      var l: nat := if head == [] then 0 else head[0];
      var buf := new Byte[l](_ => 0);
      var tot: nat := 0;
      ghost var p := rxPos;
      while tot < l
        invariant Valid() && tot <= l && rxPos == p + tot
        invariant calls > old(calls) && tx == old(tx)
        invariant forall j :: 0 <= j < tot ==> buf[j] == rx[p + j]
        decreases |grants| - Min(calls, |grants|), |rx| - rxPos
      {
        if calls >= |grants| && rxPos == |rx| {
          return Raised(Hang);
        }
        var k := ReadInto(buf, tot);
        tot := tot + k;
      }
      if ack {
        Transmit([]);
      }
      assert buf[..] == rx[p .. p + l];
      r := Done(buf[..]);
    }

    /**
      `_receive` as written: `readinto(buf)` always fills the buffer from
      its start, so a read that returns early lets the next one overwrite
      the start of the payload and read past its end.
    */
    method ReceiveAsWritten(ack: bool) returns (r: Outcome<seq<Byte>>)
      requires Valid()
      modifies this
      ensures Valid()
      ensures r == AsWritten(rx, old(rxPos), grants, old(calls))
      ensures tx == old(tx) + (if ack && r.Done? then Frame([]) else [])
    {
      var head := PortRead(1);
      var l: nat := if head == [] then 0 else head[0];
      var buf := new Byte[l](_ => 0);
      assert buf[..] == Zeros(l);
      var tot: nat := 0;
      while tot < l
        invariant Valid() && tx == old(tx) && buf.Length == l
        invariant Fill(rx, rxPos, grants, calls, buf[..], tot) == AsWritten(rx, old(rxPos), grants, old(calls))
        decreases |grants| - Min(calls, |grants|), |rx| - rxPos
      {
        if calls >= |grants| && rxPos == |rx| {
          return Raised(Hang);
        }
        tot := ReadAgain(buf, tot);
      }
      if ack {
        Transmit([]);
      }
      r := Done(buf[..]);
    }

    /** One round of the loop of `_receive` as written: `tot += readinto(buf)`. */
    method ReadAgain(buf: array<Byte>, tot: nat) returns (tot': nat)
      requires Valid() && tot < buf.Length && !(calls >= |grants| && rxPos == |rx|)
      modifies this, buf
      ensures Valid() && tx == old(tx)
      ensures Fill(rx, rxPos, grants, calls, buf[..], tot') == old(Fill(rx, rxPos, grants, calls, buf[..], tot))
      ensures Min(calls, |grants|) > Min(old(calls), |grants|)
              || (Min(calls, |grants|) == Min(old(calls), |grants|) && rxPos > old(rxPos))
    {
      ghost var pos, c, before := rxPos, calls, buf[..];
      var k := ReadInto(buf, 0);
      assert before[..0] + rx[pos .. pos + k] == rx[pos .. pos + k];
      FillStep(rx, pos, grants, c, before, tot, k);
      tot' := tot + k;
    }

    /**
      `_send`: the data must fit `MAXPAYLOAD` (an `AssertionError`
      otherwise); with `ack` the reply must be the empty frame.
    */
    method Send(data: seq<Byte>, ack: bool) returns (r: Outcome<()>)
      requires Valid()
      modifies this
      ensures Valid()
      ensures |data| > MAXPAYLOAD ==>
                r == Raised(AssertionError) && tx == old(tx) && rxPos == old(rxPos) && calls == old(calls)
      ensures |data| <= MAXPAYLOAD && !ack ==>
                r == Done(()) && tx == old(tx) + Frame(data) && rxPos == old(rxPos) && calls == old(calls)
      ensures |data| <= MAXPAYLOAD && ack ==>
                var g := Granted(grants, old(calls), 1);
                var reply := Expected(rx, old(rxPos), g);
                && tx == old(tx) + Frame(data)
                && calls > old(calls)
                && (reply.Done? ==> rxPos == ExpectedNext(rx, old(rxPos), g))
                && r == (if reply.Raised? then Raised(reply.error)
                         else if reply.value == [] then Done(())
                         else Raised(AssertionError))
    {
      if |data| > MAXPAYLOAD {
        return Raised(AssertionError);
      }
      Transmit(data);
      r := Done(());
      if ack {
        var reply := Receive(false);
        if reply.Raised? {
          r := Raised(reply.error);
        } else if reply.value != [] {
          r := Raised(AssertionError);
        }
      }
    }

    /** `read`: the address is parsed and packed, sent, and the one-byte reply returned. */
    method Read(addr: string) returns (r: Outcome<seq<Byte>>)
      requires Valid()
      modifies this
      ensures Valid()
      ensures Atoi(addr).None? ==>
                r == Raised(ValueError) && tx == old(tx) && rxPos == old(rxPos) && calls == old(calls)
      ensures Atoi(addr).Some? && PackRead(Atoi(addr).value).None? ==>
                r == Raised(StructError) && tx == old(tx) && rxPos == old(rxPos) && calls == old(calls)
      ensures Atoi(addr).Some? && PackRead(Atoi(addr).value).Some? ==>
                var g := Granted(grants, old(calls), 1);
                && tx == old(tx) + Frame(PackRead(Atoi(addr).value).value)
                && r == Expected(rx, old(rxPos), g)
                && calls > old(calls)
                && (r.Done? ==> rxPos == ExpectedNext(rx, old(rxPos), g))
    {
      var a := Atoi(addr);
      if a.None? {
        return Raised(ValueError);
      }
      var payload := PackRead(a.value);
      if payload.None? {
        return Raised(StructError);
      }
      var _ := Send(payload.value, false);
      r := Receive(false);
    }

    /** `write`: address and value parsed and packed, sent, and the empty reply awaited. */
    method Write(addr: string, val: string) returns (r: Outcome<()>)
      requires Valid()
      modifies this
      ensures Valid()
      ensures (Atoi(addr).None? || Atoi(val).None?) ==>
                r == Raised(ValueError) && tx == old(tx) && rxPos == old(rxPos) && calls == old(calls)
      ensures Atoi(addr).Some? && Atoi(val).Some? && PackWrite(Atoi(addr).value, Atoi(val).value).None? ==>
                r == Raised(StructError) && tx == old(tx) && rxPos == old(rxPos) && calls == old(calls)
      ensures Atoi(addr).Some? && Atoi(val).Some? && PackWrite(Atoi(addr).value, Atoi(val).value).Some? ==>
                var g := Granted(grants, old(calls), 1);
                var reply := Expected(rx, old(rxPos), g);
                && tx == old(tx) + Frame(PackWrite(Atoi(addr).value, Atoi(val).value).value)
                && calls > old(calls)
                && (reply.Done? ==> rxPos == ExpectedNext(rx, old(rxPos), g))
                && r == (if reply.Raised? then Raised(reply.error)
                         else if reply.value == [] then Done(())
                         else Raised(AssertionError))
    {
      var a := Atoi(addr);
      var v := Atoi(val);
      if a.None? || v.None? {
        return Raised(ValueError);
      }
      var payload := PackWrite(a.value, v.value);
      if payload.None? {
        return Raised(StructError);
      }
      r := Send(payload.value, true);
    }

    /** `reset`: the one-byte reset message, no reply awaited. */
    method Reset()
      requires Valid()
      modifies this
      ensures Valid() && tx == old(tx) + Frame(PackReset())
      ensures rxPos == old(rxPos) && calls == old(calls)
    {
      var _ := Send(PackReset(), false);
    }

    /**
      `fdump`: asks for a dump and acknowledges every message until `size`
      bytes are written, each message cut to what is still missing; a
      shorter dump is ended with a reset and the message in flight is read
      and dropped. `wire` are the frames read off the line, `acks` the
      acknowledgements sent for them and `dropped` the payload of the
      message in flight.
    */
    method FDump(size: int) returns (written: seq<Byte>, r: Outcome<()>, ghost wire: seq<seq<Byte>>,
                                     ghost acks: nat, ghost dropped: seq<Byte>)
      requires Valid()
      modifies this
      ensures Valid()
      ensures old(tx) + Frame(DumpCommand()) + Acks(acks) <= tx
      ensures Short(wire) && Encode(wire) <= rx[old(rxPos)..]
      ensures r.Done? && size >= 0x8000 ==>
                && tx == old(tx) + Frame(DumpCommand()) + Acks(acks)
                && old(rxPos) <= rxPos && rx[old(rxPos) .. rxPos] == Encode(wire)
      ensures r.Done? && size < 0x8000 ==>
                && tx == old(tx) + Frame(DumpCommand()) + Acks(acks) + Frame(PackReset())
                && old(rxPos) <= rxPos
                && rx[old(rxPos) .. rxPos] == Encode(wire) + (if old(rxPos) + |Encode(wire)| == rxPos then [] else Frame(dropped))
      ensures |written| <= |Flatten(wire)| && written == Flatten(wire)[..|written|]
      ensures |written| <= (if size < 0 then 0 else size)
      ensures r.Done? ==> |written| == (if size < 0 then 0 else size)
      ensures r.Done? && size < 0x8000 ==> |tx| >= 2 && tx[|tx| - 2..] == Frame(PackReset())
    {
      var _ := Send(DumpCommand(), false);
      ghost var p := rxPos;
      dropped := [];
      written, r, wire, acks := Collect(size);
      if r.Raised? {
        return;
      }
      if size < 0x8000 {
        Reset();
        ghost var q, c := rxPos, calls;
        var last := Receive(false);
        if last.Raised? {
          r := Raised(last.error);
        } else {
          dropped := last.value;
          ExpectedFrame(rx, q, Granted(grants, c, 1));
          assert rx[p .. rxPos] == rx[p .. q] + rx[q .. rxPos];
        }
      }
    }

    /** The loop of `fdump`: every message acknowledged and cut to what is still missing of `size`. */
    method Collect(size: int) returns (written: seq<Byte>, r: Outcome<()>, ghost wire: seq<seq<Byte>>, ghost acks: nat)
      requires Valid()
      modifies this
      ensures Valid() && tx == old(tx) + Acks(acks)
      ensures r.Done? ==> old(rxPos) <= rxPos && rx[old(rxPos) .. rxPos] == Encode(wire)
      ensures Short(wire) && Encode(wire) <= rx[old(rxPos)..]
      ensures |written| <= |Flatten(wire)| && written == Flatten(wire)[..|written|]
      ensures |written| <= (if size < 0 then 0 else size)
      ensures r.Done? ==> |written| == (if size < 0 then 0 else size)
    {
      ghost var p, t1 := rxPos, tx;
      acks := 0;
      var cnt: int := 0;
      written, wire := [], [];
      while cnt < size
        invariant Gathered(p, t1, acks, wire, written, size) && cnt == |written|
        decreases |grants| - Min(calls, |grants|), |rx| - rxPos
      {
        r, written, acks, wire := CollectOne(size, written, p, t1, acks, wire);
        if r.Raised? {
          return;
        }
        cnt := |written|;
      }
      assert rx[p .. rxPos] <= rx[p..];
      r := Done(());
    }

    /**
      What `fdump`'s loop keeps: the acknowledgements sent, the frames read
      off the line since `p`, and the file as a prefix of their payloads.
    */
    ghost predicate Gathered(p: nat, t1: seq<Byte>, acks: nat, wire: seq<seq<Byte>>, written: seq<Byte>, size: int)
      reads this
    {
      && Valid() && p <= rxPos && tx == t1 + Acks(acks)
      && rx[p .. rxPos] == Encode(wire) && Prefixed(wire, written, size)
    }

    /** One round of `fdump`'s loop: receive and acknowledge a message, append what is still missing of it. */
    method CollectOne(size: int, written: seq<Byte>, ghost p: nat, ghost t1: seq<Byte>, ghost acks: nat, ghost wire: seq<seq<Byte>>)
      returns (r: Outcome<()>, written': seq<Byte>, ghost acks': nat, ghost wire': seq<seq<Byte>>)
      requires Gathered(p, t1, acks, wire, written, size) && |written| < size
      modifies this
      ensures Valid() && tx == t1 + Acks(acks')
      ensures r.Raised? ==> Encode(wire) <= rx[p..] && Prefixed(wire, written, size) && written' == written && wire' == wire
      ensures r.Raised? ==> acks' == acks
      ensures r.Done? ==> Gathered(p, t1, acks', wire', written', size) && acks' == acks + 1
      ensures r.Done? ==> Min(calls, |grants|) > Min(old(calls), |grants|)
                          || (Min(calls, |grants|) == Min(old(calls), |grants|) && rxPos > old(rxPos))
    {
      written', acks', wire' := written, acks, wire;
      assert rx[p .. rxPos] <= rx[p..];
      if calls >= |grants| && rxPos == |rx| {
        return Raised(Hang), written', acks', wire';
      }
      ghost var q, c := rxPos, calls;
      var got := Receive(true);
      if got.Raised? {
        return Raised(got.error), written', acks', wire';
      }
      assert Acks(acks + 1) == Acks(acks) + Frame([]);
      acks' := acks + 1;
      ExpectedFrame(rx, q, Granted(grants, c, 1));
      var buf := got.value[..Min(|got.value|, size - |written|)];
      DumpStep(wire, got.value, written, size);
      FlattenSnoc(wire, got.value);
      written' := written + buf;
      if rxPos > q {
        WireStep(rx, p, q, rxPos, wire, got.value);
        wire' := wire + [got.value];
      }
      r := Done(());
    }

    /**
      `fload`: sends the load command and then the image in messages of at
      most `MAXPAYLOAD` bytes, each acknowledged; it stops at `size` bytes or
      at the end of the file. On success the whole of what went out is the
      command and `Chunks` of the image; otherwise a prefix of it.
    */
    method FLoad(file: seq<Byte>, size: int) returns (r: Outcome<()>)
      requires Valid()
      modifies this
      ensures Valid()
      ensures PackLoad(size).None? ==> r == Raised(StructError) && tx == old(tx)
      ensures PackLoad(size).Some? ==>
                var whole := old(tx) + Frame(PackLoad(size).value) + Encode(Chunks(file[..Min(size, |file|)]));
                && tx <= whole
                && (r.Done? ==> tx == whole)
      ensures (PackLoad(size).Some? && old(calls) >= |grants|
               && Acks(1 + |Chunks(file[..Min(size, |file|)])|) <= rx[old(rxPos)..]) ==>
                r == Done(()) && rxPos == old(rxPos) + 1 + |Chunks(file[..Min(size, |file|)])|
    {
      var cmd := PackLoad(size);
      if cmd.None? {
        return Raised(StructError);
      }
      ghost var all := Chunks(file[..Min(size, |file|)]);
      ghost var t0 := tx;
      ghost var acked := old(calls) >= |grants| && Acks(1 + |all|) <= rx[old(rxPos)..];
      AcksAhead(rx, old(rxPos), 1 + |all|, 0);
      r := Send(cmd.value, true);
      if r.Raised? {
        assert t0 + Frame(cmd.value) <= t0 + Frame(cmd.value) + Encode(all);
        return;
      }
      ghost var t1 := tx;
      AcksRest(rx, old(rxPos), |all|);
      r := Stream(file, size);
      assert t1 + Encode(all) == t0 + Frame(cmd.value) + Encode(all);
    }

    /** The loop of `fload`: the image in acknowledged messages of `min(MAXPAYLOAD, size - cnt)` bytes. */
    method Stream(file: seq<Byte>, size: int) returns (r: Outcome<()>)
      requires Valid() && 0 <= size
      modifies this
      ensures Valid()
      ensures var whole := old(tx) + Encode(Chunks(file[..Min(size, |file|)]));
              && tx <= whole
              && (r.Done? ==> tx == whole)
      ensures (old(calls) >= |grants| && Acks(|Chunks(file[..Min(size, |file|)])|) <= rx[old(rxPos)..]) ==>
                r == Done(()) && rxPos == old(rxPos) + |Chunks(file[..Min(size, |file|)])|
    {
      ghost var m: nat := Min(size, |file|);
      ghost var all := Chunks(file[..m]);
      ghost var t1, p := tx, rxPos;
      ghost var acked := calls >= |grants| && Acks(|all|) <= rx[p..];
      var cnt: nat := 0;
      ghost var sent: seq<seq<Byte>> := [];
      assert file[cnt..m] == file[..m];
      while true
        invariant Valid() && cnt <= m && tx == t1 + Encode(sent) && p <= |rx|
        invariant sent + Chunks(file[cnt..m]) == all
        invariant acked ==> calls >= |grants| && rxPos == p + |sent|
        decreases m - cnt
      {
        var data := file[cnt .. cnt + Min(Min(MAXPAYLOAD, size - cnt), |file| - cnt)];
        if data == [] {
          break;
        }
        ChunkAdvance(file, size, cnt, sent, all);
        cnt := cnt + |data|;
        r := SendPiece(data, t1, p, sent, Chunks(file[cnt..m]), all, acked);
        if r.Raised? {
          return;
        }
        sent := sent + [data];
      }
      assert sent == all;
      r := Done(());
    }

    /**
      `self._send(data, ack=True)` for the next message of `fload`, the one
      after `sent` in the whole stream `all`; acknowledged when every message
      is.
    */
    method SendPiece(data: seq<Byte>, ghost t1: seq<Byte>, ghost p: nat, ghost sent: seq<seq<Byte>>,
                     ghost rest: seq<seq<Byte>>, ghost all: seq<seq<Byte>>, ghost acked: bool)
      returns (r: Outcome<()>)
      requires Valid() && tx == t1 + Encode(sent) && sent + [data] + rest == all && |data| <= MAXPAYLOAD
      requires p <= |rx| && (acked ==> calls >= |grants| && rxPos == p + |sent| && Acks(|all|) <= rx[p..])
      modifies this
      ensures Valid() && tx == t1 + Encode(sent + [data]) && tx <= t1 + Encode(all)
      ensures acked ==> r == Done(()) && calls >= |grants| && rxPos == p + |sent| + 1
    {
      assert |all| == |sent| + 1 + |rest|;
      AcksAhead(rx, p, |all|, |sent|);
      r := Send(data, true);
      SentPrefix(t1, sent, data, rest, all);
    }
  }

  /** One message of `fload`'s loop is the next piece of `Chunks` of the image. */
  lemma ChunkAdvance(file: seq<Byte>, size: int, cnt: nat, sent: seq<seq<Byte>>, all: seq<seq<Byte>>)
    requires cnt <= Min(size, |file|)
    requires sent + Chunks(file[cnt .. Min(size, |file|)]) == all
    requires Min(Min(MAXPAYLOAD, size - cnt), |file| - cnt) > 0
    ensures var data := file[cnt .. cnt + Min(Min(MAXPAYLOAD, size - cnt), |file| - cnt)];
            && cnt + |data| <= Min(size, |file|)
            && sent + [data] + Chunks(file[cnt + |data| .. Min(size, |file|)]) == all
  {
    var m := Min(size, |file|);
    var data := file[cnt .. cnt + Min(Min(MAXPAYLOAD, size - cnt), |file| - cnt)];
    ChunksStep(file[cnt..m], |data|);
    assert file[cnt..m][..|data|] == data && file[cnt..m][|data|..] == file[cnt + |data|..m];
  }

  /** What `fload` has sent after one more message is still a prefix of the whole stream. */
  lemma SentPrefix(t: seq<Byte>, sent: seq<seq<Byte>>, data: seq<Byte>, rest: seq<seq<Byte>>, all: seq<seq<Byte>>)
    requires sent + [data] + rest == all
    ensures t + Encode(sent) + Frame(data) == t + Encode(sent + [data])
    ensures t + Encode(sent + [data]) <= t + Encode(all)
  {
    EncodeSnoc(sent, data);
    EncodeAppend(sent + [data], rest);
  }

  /** Acknowledgements after the first are acknowledgements from the next byte on. */
  lemma AcksRest(rx: seq<Byte>, p: nat, n: nat)
    requires p <= |rx|
    ensures Acks(1 + n) <= rx[p..] ==> p < |rx| && Acks(n) <= rx[p + 1..]
  {
    if Acks(1 + n) <= rx[p..] {
      assert rx[p..][0] == Acks(1 + n)[0];
      forall k | 0 <= k < n
        ensures rx[p + 1..][k] == Acks(n)[k]
      {
        assert rx[p..][k + 1] == Acks(1 + n)[k + 1];
      }
    }
  }

  /** The file `fdump` has written so far: a prefix of the payloads read, all of them while it is short of `size`. */
  predicate Prefixed(wire: seq<seq<Byte>>, written: seq<Byte>, size: int)
  {
    && Short(wire)
    && |written| <= |Flatten(wire)| && written == Flatten(wire)[..|written|]
    && (|written| <= size || written == [])
    && (|written| < size ==> |written| == |Flatten(wire)|)
  }

  /** A frame `_receive` returns normally is either a timed out length read or a whole frame off the line. */
  lemma ExpectedFrame(rx: seq<Byte>, p: nat, g: nat)
    requires p <= |rx| && Expected(rx, p, g).Done?
    ensures var n := ExpectedNext(rx, p, g);
            var v := Expected(rx, p, g).value;
            && p <= n <= |rx| && |v| < 256
            && (n == p ==> v == [])
            && (n > p ==> rx[p .. n] == Frame(v))
            && (g > 0 && p < |rx| ==> n > p)
  {
  }

  /** One message of `fdump`'s loop, cut to what is still missing, extends the file by a prefix of the payloads. */
  lemma DumpStep(wire: seq<seq<Byte>>, got: seq<Byte>, written: seq<Byte>, size: int)
    requires written == Flatten(wire) && |written| < size
    ensures var cnt' := |written| + Min(|got|, size - |written|);
            var all := written + got;
            && written + got[..Min(|got|, size - |written|)] == all[..cnt']
            && cnt' <= |all| && cnt' <= size
            && (cnt' < size ==> cnt' == |all|)
  {
  }

  /** The frames read so far, followed by one more frame off the line. */
  lemma WireStep(rx: seq<Byte>, p: nat, q: nat, n: nat, wire: seq<seq<Byte>>, got: seq<Byte>)
    requires p <= q <= n <= |rx|
    requires rx[p .. q] == Encode(wire) && rx[q .. n] == Frame(got)
    ensures rx[p .. n] == Encode(wire + [got])
  {
    assert rx[p .. n] == rx[p .. q] + rx[q .. n];
    EncodeSnoc(wire, got);
  }

  /** The `k`-th of `n` acknowledgement frames ahead of the read position is where the port reads it. */
  lemma AcksAhead(rx: seq<Byte>, p: nat, n: nat, k: nat)
    requires p <= |rx| && k < n
    ensures Acks(n) <= rx[p..] ==> p + k < |rx| && rx[p + k] == 0
  {
    if Acks(n) <= rx[p..] {
      assert rx[p..][k] == Acks(n)[k];
    }
  }
}
