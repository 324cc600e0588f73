/**
  The pure parts of the host client (eeprom.py): `atoi`, the `struct.pack`
  command payloads of `read`, `write`, `fload`, `fdump` and `reset`, and the
  way `fload` cuts the image into messages.
*/
module HostCodec {
  import opened Protocol

  datatype Option<T> = None | Some(value: T)

  /** The host's `MAXPAYLOAD`, one less than the firmware's `MAX_PAYLOAD`. */
  const MAXPAYLOAD: nat := 62

  // ---------------------------------------------------------------- atoi

  /** The value of a digit character in bases up to 16 (either case), 16 for any other character. */
  function DigitOf(c: char): (d: nat)
    ensures d <= 16
  {
    if '0' <= c <= '9' then c as int - '0' as int
    else if 'a' <= c <= 'f' then c as int - 'a' as int + 10
    else if 'A' <= c <= 'F' then c as int - 'A' as int + 10
    else 16
  }

  predicate AllDigits(s: string, base: nat)
  {
    forall i :: 0 <= i < |s| ==> DigitOf(s[i]) < base
  }

  /** The number a string of digits denotes, most significant digit first. */
  function Value(s: string, base: nat): nat
    requires AllDigits(s, base)
  {
    if s == [] then 0 else Value(s[..|s| - 1], base) * base + DigitOf(s[|s| - 1])
  }

  /** `int(s, base)` on an unsigned digit string: at least one digit and nothing else. */
  function ParseBase(s: string, base: nat): Option<nat>
  {
    if |s| > 0 && AllDigits(s, base) then Some(Value(s, base)) else None
  }

  /**
    `atoi`: base 16 after a "0x" prefix, base 8 after "0o", otherwise base 10
    with an optional sign. `None` is the `ValueError` Python's `int` raises.
  */
  function Atoi(s: string): Option<int>
  {
    if |s| >= 2 && s[..2] == "0x" then Signed(ParseBase(s[2..], 16), false)
    else if |s| >= 2 && s[..2] == "0o" then Signed(ParseBase(s[2..], 8), false)
    else if |s| >= 1 && s[0] == '-' then Signed(ParseBase(s[1..], 10), true)
    else if |s| >= 1 && s[0] == '+' then Signed(ParseBase(s[1..], 10), false)
    else Signed(ParseBase(s, 10), false)
  }

  function Signed(p: Option<nat>, negative: bool): Option<int>
  {
    match p
    case None => None
    case Some(n) => var v: int := n; if negative then Some(-v) else Some(v)
  }

  /** The lower-case digit for a value below 16. */
  function DigitChar(d: nat): (c: char)
    requires d < 16
    ensures DigitOf(c) == d
  {
    if d < 10 then ('0' as int + d) as char else ('a' as int + d - 10) as char
  }

  /** `n` written in `base` without leading zeros: the format `atoi` reads back. */
  function Show(n: nat, base: nat): (s: string)
    requires 2 <= base <= 16
    ensures |s| > 0 && AllDigits(s, base)
    decreases n
  {
    (if n < base then [] else Show(n / base, base)) + [DigitChar(n % base)]
  }

  lemma {:induction false} ValueShow(n: nat, base: nat)
    requires 2 <= base <= 16
    ensures Value(Show(n, base), base) == n
    decreases n
  {
    var q, r := n / base, n % base;
    Euclid(n, base);
    var s := Show(n, base);
    var front := if n < base then [] else Show(q, base);
    assert s == front + [DigitChar(r)];
    assert s[..|s| - 1] == front && DigitOf(s[|s| - 1]) == r;
    var v := Value(front, base);
    assert Value(s, base) == v * base + r;
    if n >= base {
      ValueShow(q, base);
      assert v == q;
    } else {
      assert v == 0 && q == 0;
    }
  }

  lemma Euclid(n: nat, base: nat)
    requires 2 <= base
    ensures n == (n / base) * base + n % base
    ensures n >= base ==> n / base < n
    ensures n < base ==> n / base == 0
  {
  }

  /** Every natural number is read back from its hex, octal and decimal form. */
  lemma AtoiRoundTrip(n: nat)
    ensures Atoi("0x" + Show(n, 16)) == Some(n)
    ensures Atoi("0o" + Show(n, 8)) == Some(n)
    ensures Atoi(Show(n, 10)) == Some(n)
  {
    AtoiPrefixed("0x", 16, n);
    AtoiPrefixed("0o", 8, n);
    ValueShow(n, 10);
    AtoiDecimal(Show(n, 10));
  }

  lemma AtoiPrefixed(prefix: string, base: nat, n: nat)
    requires (prefix == "0x" && base == 16) || (prefix == "0o" && base == 8)
    ensures Atoi(prefix + Show(n, base)) == Some(n)
  {
    var d := Show(n, base);
    ValueShow(n, base);
    assert ParseBase(d, base) == Some(n);
    var s := prefix + d;
    assert s[..2] == prefix && s[2..] == d;
    if base == 8 {
      assert prefix[1] != "0x"[1];
    }
  }

  /** A string of decimal digits takes none of the prefixed or signed branches. */
  lemma AtoiDecimal(d: string)
    requires |d| > 0 && AllDigits(d, 10)
    ensures Atoi(d) == Some(Value(d, 10))
  {
    assert DigitOf(d[0]) < 10;
    if |d| >= 2 {
      assert DigitOf(d[1]) < 10;
      assert d[..2][1] == d[1];
    }
  }

  /** The empty string is a `ValueError`, and only a leading '-' gives a negative value. */
  lemma AtoiSign(s: string)
    ensures Atoi(s).Some? ==> |s| > 0
    ensures Atoi(s).Some? && Atoi(s).value < 0 ==> s[0] == '-'
  {
  }

  /** A minus sign in front of decimal digits negates their value. */
  lemma AtoiNegative(d: string)
    requires |d| > 0 && AllDigits(d, 10)
    ensures Atoi("-" + d) == Some(-(Value(d, 10) as int))
  {
    var m := "-" + d;
    assert m[0] == '-' && m[1..] == d;
    assert m[..2][0] == '-';
  }

  /** A hex digit above 9 is accepted after the "0x" prefix and rejected without it. */
  lemma AtoiHexOnlyAfterPrefix(d: nat)
    requires 10 <= d < 16
    ensures Atoi("0x" + [DigitChar(d)]) == Some(d)
    ensures Atoi([DigitChar(d)]) == None
  {
    var s := "0x" + [DigitChar(d)];
    assert s[..2] == "0x" && s[2..] == [DigitChar(d)];
    assert Value([DigitChar(d)], 16) == Value([], 16) * 16 + d;
    assert !AllDigits([DigitChar(d)], 10);
  }

  // ------------------------------------------------------------ packing

  /**
    `pack('>cH', b'r', addr)`, the payload of `read`; `None` is the
    `struct.error` raised for an address outside 0..65535.
  */
  function PackRead(addr: int): (r: Option<seq<Byte>>)
    ensures r.Some? <==> 0 <= addr < 65536
    ensures r.Some? ==> |r.value| == 3 && Decode(r.value) == ReadByte(addr)
  {
    if 0 <= addr < 65536 then Some([OP_READ, addr / 256, addr % 256]) else None
  }

  /** `pack('>cHB', b'w', addr, val)`, the payload of `write`. */
  function PackWrite(addr: int, val: int): (r: Option<seq<Byte>>)
    ensures r.Some? <==> 0 <= addr < 65536 && 0 <= val < 256
    ensures r.Some? ==> |r.value| == 4 && Decode(r.value) == WriteByte(addr, val)
  {
    if 0 <= addr < 65536 && 0 <= val < 256 then Some([OP_WRITE, addr / 256, addr % 256, val]) else None
  }

  /** `pack('>cH', b'l', size)`, the command `fload` opens with. */
  function PackLoad(size: int): (r: Option<seq<Byte>>)
    ensures r.Some? <==> 0 <= size < 65536
    ensures r.Some? ==> |r.value| == 3 && Decode(r.value) == LoadImage(size)
  {
    if 0 <= size < 65536 then Some([OP_LOAD, size / 256, size % 256]) else None
  }

  /** `pack('>c', b'r')`, the payload of `reset`: the firmware reads it as a reset request. */
  function PackReset(): (r: seq<Byte>)
    ensures |r| == 1 && Decode(r) == ResetRequest
  {
    [OP_READ]
  }

  /** `b'd'`, the command `fdump` opens with. */
  function DumpCommand(): (r: seq<Byte>)
    ensures |r| == 1 && Decode(r) == DumpAll
  {
    [OP_DUMP]
  }

  // ------------------------------------------------------ fload chunking

  /** The messages `fload` sends for an image: `MAXPAYLOAD`-byte pieces in order, the last one shorter. */
  function Chunks(data: seq<Byte>): seq<seq<Byte>>
    decreases |data|
  {
    if data == [] then []
    else if |data| <= MAXPAYLOAD then [data]
    else [data[..MAXPAYLOAD]] + Chunks(data[MAXPAYLOAD..])
  }

  /** The pieces put back together are the image. */
  lemma {:induction false} ChunksFlatten(data: seq<Byte>)
    ensures Flatten(Chunks(data)) == data
    decreases |data|
  {
    if data != [] && |data| > MAXPAYLOAD {
      var rest := Chunks(data[MAXPAYLOAD..]);
      ChunksFlatten(data[MAXPAYLOAD..]);
      assert ([data[..MAXPAYLOAD]] + rest)[1..] == rest;
      assert data[..MAXPAYLOAD] + data[MAXPAYLOAD..] == data;
    } else if data != [] {
      assert [data][1..] == [];
      assert data + [] == data;
    }
  }

  /** Every piece fits the host's payload limit and none is empty. */
  lemma {:induction false} ChunksBounded(data: seq<Byte>)
    ensures forall i :: 0 <= i < |Chunks(data)| ==> 0 < |Chunks(data)[i]| <= MAXPAYLOAD
    decreases |data|
  {
    if data != [] && |data| > MAXPAYLOAD {
      ChunksBounded(data[MAXPAYLOAD..]);
      var cs := Chunks(data);
      assert cs == [data[..MAXPAYLOAD]] + Chunks(data[MAXPAYLOAD..]);
      forall i | 0 <= i < |cs|
        ensures 0 < |cs[i]| <= MAXPAYLOAD
      {
        if i > 0 {
          assert cs[i] == Chunks(data[MAXPAYLOAD..])[i - 1];
        }
      }
    }
  }

  /** The number of messages: the image length divided by 62, rounded up. */
  lemma {:induction false} ChunksCount(data: seq<Byte>)
    ensures |Chunks(data)| == (|data| + MAXPAYLOAD - 1) / MAXPAYLOAD
    decreases |data|
  {
    if data != [] && |data| > MAXPAYLOAD {
      ChunksCount(data[MAXPAYLOAD..]);
    }
  }

  /** One step of `fload`'s loop: the next message is the next `min(62, rest)` bytes. */
  lemma ChunksStep(data: seq<Byte>, k: nat)
    requires data != [] && k == Min(MAXPAYLOAD, |data|)
    ensures Chunks(data) == [data[..k]] + Chunks(data[k..])
  {
    if |data| <= MAXPAYLOAD {
      assert data[..k] == data && data[k..] == [];
    }
  }
}
